/**
 * The cluster topology: hosts with role sets, role definitions and schedules,
 * each kept in a dictionary whose iteration order is insertion order. The
 * operations add and remove hosts and roles (removing a role also strips it
 * from every host), filter hosts, and check that every reference names
 * something defined.
 */
module ClusterConfig {
  import opened Records

  /** A host entry. Only its role set is changed in place by the operations here. */
  class HostConfig {
    const hostname: string
    const address: string
    const tags: map<string, string>
    const enabled: bool
    var roles: set<string>

    constructor (hostname: string, address: string, roles: set<string>, tags: map<string, string>, enabled: bool)
      ensures this.hostname == hostname && this.address == address && this.roles == roles
      ensures this.tags == tags && this.enabled == enabled
    {
      this.hostname := hostname;
      this.address := address;
      this.roles := roles;
      this.tags := tags;
      this.enabled := enabled;
    }

    predicate HasRole(role: string)
      reads this
    {
      role in roles
    }

    method AddRole(role: string)
      modifies this
      ensures roles == old(roles) + {role}
      ensures HasRole(role)
    {
      roles := roles + {role};
    }

    /** Removing a role the host does not have is a no-op. */
    method RemoveRole(role: string)
      modifies this
      ensures roles == old(roles) - {role}
      ensures !HasRole(role)
      ensures !old(HasRole(role)) ==> roles == old(roles)
    {
      roles := roles - {role};
    }
  }

  datatype RoleConfig = RoleConfig(
    name: string,
    description: string,
    queue: string,
    concurrency: int,
    maxTasksPerChild: int,
    tasks: seq<string>)

  datatype ScheduleConfig = ScheduleConfig(
    name: string,
    cron: string,
    task: string,
    targetRoles: seq<string>,
    targetHosts: seq<string>,
    targetTags: map<string, string>,
    description: string,
    enabled: bool)

  /** One finding of `validate_config`; the source renders each as a sentence. */
  datatype ConfigError =
    | HostRole(host: string, role: string)
    | ScheduleRole(schedule: string, role: string)
    | ScheduleHost(schedule: string, host: string)

  // ---------------------------------------------------------------------------
  // Host filters, in dictionary order

  /** Every `(k, v)` of the filter is a tag of the host with that value. */
  predicate TagsMatch(hostTags: map<string, string>, wanted: map<string, string>) {
    forall k :: k in wanted ==> k in hostTags && hostTags[k] == wanted[k]
  }

  function ByRole(hs: seq<HostConfig>, role: string): (r: seq<HostConfig>)
    reads set i | 0 <= i < |hs| :: hs[i]
    ensures |r| <= |hs|
    ensures forall h :: h in r ==> h in hs && role in h.roles
    ensures forall i :: 0 <= i < |hs| && role in hs[i].roles ==> hs[i] in r
    decreases |hs|
  {
    if hs == [] then []
    else ByRole(hs[..|hs| - 1], role) + (if role in hs[|hs| - 1].roles then [hs[|hs| - 1]] else [])
  }

  function ByTags(hs: seq<HostConfig>, wanted: map<string, string>): (r: seq<HostConfig>)
    ensures |r| <= |hs|
    ensures forall h :: h in r ==> h in hs && TagsMatch(h.tags, wanted)
    ensures forall i :: 0 <= i < |hs| && TagsMatch(hs[i].tags, wanted) ==> hs[i] in r
    decreases |hs|
  {
    if hs == [] then []
    else ByTags(hs[..|hs| - 1], wanted) + (if TagsMatch(hs[|hs| - 1].tags, wanted) then [hs[|hs| - 1]] else [])
  }

  function Enabled(hs: seq<HostConfig>): (r: seq<HostConfig>)
    ensures |r| <= |hs|
    ensures forall h :: h in r ==> h in hs && h.enabled
    ensures forall i :: 0 <= i < |hs| && hs[i].enabled ==> hs[i] in r
    decreases |hs|
  {
    if hs == [] then []
    else Enabled(hs[..|hs| - 1]) + (if hs[|hs| - 1].enabled then [hs[|hs| - 1]] else [])
  }

  /** The role filter keeps dictionary order: filtering a concatenation filters each part in turn. */
  lemma {:induction false} ByRoleAppend(a: seq<HostConfig>, b: seq<HostConfig>, role: string)
    ensures ByRole(a + b, role) == ByRole(a, role) + ByRole(b, role)
    decreases |b|
  {
    if b != [] {
      var b' := b[..|b| - 1];
      assert (a + b)[..|a + b| - 1] == a + b';
      assert (a + b)[|a + b| - 1] == b[|b| - 1];
      ByRoleAppend(a, b', role);
    } else {
      assert a + b == a;
    }
  }

  /** A run of hosts that all have the role is kept whole; a run where none has it is dropped. */
  lemma {:induction false} ByRoleAllOrNone(hs: seq<HostConfig>, role: string)
    ensures (forall i :: 0 <= i < |hs| ==> role in hs[i].roles) ==> ByRole(hs, role) == hs
    ensures (forall i :: 0 <= i < |hs| ==> role !in hs[i].roles) ==> ByRole(hs, role) == []
    decreases |hs|
  {
    if hs != [] {
      ByRoleAllOrNone(hs[..|hs| - 1], role);
      assert hs[..|hs| - 1] + [hs[|hs| - 1]] == hs;
    }
  }

  /** The enabled filter keeps dictionary order in the same way. */
  lemma {:induction false} EnabledAppend(a: seq<HostConfig>, b: seq<HostConfig>)
    ensures Enabled(a + b) == Enabled(a) + Enabled(b)
    decreases |b|
  {
    if b != [] {
      var b' := b[..|b| - 1];
      assert (a + b)[..|a + b| - 1] == a + b';
      assert (a + b)[|a + b| - 1] == b[|b| - 1];
      EnabledAppend(a, b');
    } else {
      assert a + b == a;
    }
  }

  lemma {:induction false} EnabledKeepsAll(hs: seq<HostConfig>)
    requires forall i :: 0 <= i < |hs| ==> hs[i].enabled
    ensures Enabled(hs) == hs
    decreases |hs|
  {
    if hs != [] {
      EnabledKeepsAll(hs[..|hs| - 1]);
      assert hs[..|hs| - 1] + [hs[|hs| - 1]] == hs;
    }
  }

  lemma {:induction false} EnabledDropsAll(hs: seq<HostConfig>)
    requires forall i :: 0 <= i < |hs| ==> !hs[i].enabled
    ensures Enabled(hs) == []
    decreases |hs|
  {
    if hs != [] {
      EnabledDropsAll(hs[..|hs| - 1]);
    }
  }

  /** An empty tag filter keeps every host, in order. */
  lemma {:induction false} EmptyTagsKeepAll(hs: seq<HostConfig>)
    ensures ByTags(hs, map[]) == hs
    decreases |hs|
  {
    if hs != [] {
      EmptyTagsKeepAll(hs[..|hs| - 1]);
      assert TagsMatch(hs[|hs| - 1].tags, map[]);
      assert hs[..|hs| - 1] + [hs[|hs| - 1]] == hs;
    }
  }

  /** Requiring one more tag can only drop hosts from the answer. */
  lemma {:induction false} MoreTagsFewerHosts(hs: seq<HostConfig>, wanted: map<string, string>, k: string, v: string)
    requires k !in wanted
    ensures |ByTags(hs, wanted[k := v])| <= |ByTags(hs, wanted)|
    ensures forall h :: h in ByTags(hs, wanted[k := v]) ==> h in ByTags(hs, wanted)
    decreases |hs|
  {
    if hs != [] {
      MoreTagsFewerHosts(hs[..|hs| - 1], wanted, k, v);
      var last := hs[|hs| - 1];
      if TagsMatch(last.tags, wanted[k := v]) {
        forall x | x in wanted
          ensures x in last.tags && last.tags[x] == wanted[x]
        {
          assert x != k;
          assert wanted[k := v][x] == wanted[x];
        }
      }
    }
  }

  /** Order-preserving removal of one key from an insertion-order list. */
  function Without(order: seq<string>, name: string): (r: seq<string>)
    ensures forall x :: x in r <==> x in order && x != name
    ensures name !in order ==> r == order
    decreases |order|
  {
    if order == [] then []
    else
      var rest := Without(order[..|order| - 1], name);
      var last := order[|order| - 1];
      assert forall x :: x in order <==> x in order[..|order| - 1] || x == last by {
        assert order == order[..|order| - 1] + [last];
      }
      if last == name then rest else rest + [last]
  }

  /** Removing a key just added undoes the addition, so adding then removing a new host restores the order. */
  lemma AddThenRemove(order: seq<string>, name: string)
    requires name !in order
    ensures Without(order + [name], name) == order
  {
    assert (order + [name])[..|order|] == order;
  }

  /** Removing a key keeps an insertion-order list free of repeats. */
  lemma {:induction false} WithoutKeepsDistinct(order: seq<string>, name: string)
    requires Distinct(order)
    ensures Distinct(Without(order, name))
    decreases |order|
  {
    if order != [] {
      var init := order[..|order| - 1];
      var last := order[|order| - 1];
      assert Distinct(init);
      WithoutKeepsDistinct(init, name);
      if last != name {
        assert last !in init by {
          forall j | 0 <= j < |init|
            ensures init[j] != last
          {
            assert order[j] != order[|order| - 1];
          }
        }
        DistinctAppend(Without(init, name), last);
      }
    }
  }

  // ---------------------------------------------------------------------------
  // Referential checks of the schedules

  function MissingRoles(schedule: string, wanted: seq<string>, defined: set<string>): seq<ConfigError>
    decreases |wanted|
  {
    if wanted == [] then []
    else
      var last := wanted[|wanted| - 1];
      MissingRoles(schedule, wanted[..|wanted| - 1], defined) + (if last !in defined then [ScheduleRole(schedule, last)] else [])
  }

  function MissingHosts(schedule: string, wanted: seq<string>, defined: set<string>): seq<ConfigError>
    decreases |wanted|
  {
    if wanted == [] then []
    else
      var last := wanted[|wanted| - 1];
      MissingHosts(schedule, wanted[..|wanted| - 1], defined) + (if last !in defined then [ScheduleHost(schedule, last)] else [])
  }

  /** Schedule-role findings, schedule by schedule and target by target. */
  function ScheduleRoleErrors(sch: seq<ScheduleConfig>, defined: set<string>): seq<ConfigError>
    decreases |sch|
  {
    if sch == [] then []
    else
      var last := sch[|sch| - 1];
      ScheduleRoleErrors(sch[..|sch| - 1], defined) + MissingRoles(last.name, last.targetRoles, defined)
  }

  /** Schedule-host findings, schedule by schedule and target by target. */
  function ScheduleHostErrors(sch: seq<ScheduleConfig>, defined: set<string>): seq<ConfigError>
    decreases |sch|
  {
    if sch == [] then []
    else
      var last := sch[|sch| - 1];
      ScheduleHostErrors(sch[..|sch| - 1], defined) + MissingHosts(last.name, last.targetHosts, defined)
  }

  lemma {:induction false} MissingRolesMeaning(schedule: string, wanted: seq<string>, defined: set<string>)
    ensures MissingRoles(schedule, wanted, defined) == [] <==> forall x :: x in wanted ==> x in defined
    ensures forall e :: e in MissingRoles(schedule, wanted, defined) ==>
              e.ScheduleRole? && e.schedule == schedule && e.role in wanted && e.role !in defined
    ensures forall x :: x in wanted && x !in defined ==> ScheduleRole(schedule, x) in MissingRoles(schedule, wanted, defined)
    decreases |wanted|
  {
    if wanted != [] {
      var init := wanted[..|wanted| - 1];
      MissingRolesMeaning(schedule, init, defined);
      assert wanted == init + [wanted[|wanted| - 1]];
    }
  }

  lemma {:induction false} MissingHostsMeaning(schedule: string, wanted: seq<string>, defined: set<string>)
    ensures MissingHosts(schedule, wanted, defined) == [] <==> forall x :: x in wanted ==> x in defined
    ensures forall e :: e in MissingHosts(schedule, wanted, defined) ==>
              e.ScheduleHost? && e.schedule == schedule && e.host in wanted && e.host !in defined
    ensures forall x :: x in wanted && x !in defined ==> ScheduleHost(schedule, x) in MissingHosts(schedule, wanted, defined)
    decreases |wanted|
  {
    if wanted != [] {
      var init := wanted[..|wanted| - 1];
      MissingHostsMeaning(schedule, init, defined);
      assert wanted == init + [wanted[|wanted| - 1]];
    }
  }

  /** The schedule-role findings are empty exactly when every target role is defined, and name each undefined one. */
  lemma {:induction false} ScheduleRoleErrorsMeaning(sch: seq<ScheduleConfig>, defined: set<string>)
    ensures ScheduleRoleErrors(sch, defined) == [] <==> forall s, x :: s in sch && x in s.targetRoles ==> x in defined
    ensures forall e :: e in ScheduleRoleErrors(sch, defined) ==> e.ScheduleRole? && e.role !in defined
    ensures forall s, x :: s in sch && x in s.targetRoles && x !in defined ==>
              ScheduleRole(s.name, x) in ScheduleRoleErrors(sch, defined)
    decreases |sch|
  {
    if sch != [] {
      var init := sch[..|sch| - 1];
      var last := sch[|sch| - 1];
      ScheduleRoleErrorsMeaning(init, defined);
      MissingRolesMeaning(last.name, last.targetRoles, defined);
      assert sch == init + [last];
    }
  }

  /** The schedule-host findings are empty exactly when every target host is defined, and name each undefined one. */
  lemma {:induction false} ScheduleHostErrorsMeaning(sch: seq<ScheduleConfig>, defined: set<string>)
    ensures ScheduleHostErrors(sch, defined) == [] <==> forall s, x :: s in sch && x in s.targetHosts ==> x in defined
    ensures forall e :: e in ScheduleHostErrors(sch, defined) ==> e.ScheduleHost? && e.host !in defined
    ensures forall s, x :: s in sch && x in s.targetHosts && x !in defined ==>
              ScheduleHost(s.name, x) in ScheduleHostErrors(sch, defined)
    decreases |sch|
  {
    if sch != [] {
      var init := sch[..|sch| - 1];
      var last := sch[|sch| - 1];
      ScheduleHostErrorsMeaning(init, defined);
      MissingHostsMeaning(last.name, last.targetHosts, defined);
      assert sch == init + [last];
    }
  }

  /** A report made of a head of host-role findings and a tail: where each part sits in it. */
  lemma HeadThenTail(head: seq<ConfigError>, tail: seq<ConfigError>, found: set<ConfigError>)
    requires forall e :: e in head ==> e.HostRole?
    requires (set e | e in head) == found
    ensures var errors := head + tail;
      && errors[|errors| - |tail|..] == tail
      && (forall i :: 0 <= i < |errors| - |tail| ==> errors[i].HostRole?)
      && (set i | 0 <= i < |errors| - |tail| :: errors[i]) == found
      && (errors == [] <==> found == {} && tail == [])
  {
    var errors := head + tail;
    assert errors[|errors| - |tail|..] == tail;
    assert forall i :: 0 <= i < |head| ==> errors[i] == head[i];
    forall x | x in head
      ensures x in (set i | 0 <= i < |head| :: errors[i])
    {
      var i :| 0 <= i < |head| && head[i] == x;
      assert errors[i] == x;
    }
    assert (set i | 0 <= i < |head| :: errors[i]) == (set e | e in head);
    if head != [] {
      assert head[0] in (set e | e in head);
      assert head[0] in found && |errors| > 0;
    } else {
      assert (set e | e in head) == {};
    }
  }

  // ---------------------------------------------------------------------------
  // The configuration object

  class Cluster {
    var hosts: map<string, HostConfig>
    /** The keys of `hosts` in insertion order. */
    var hostOrder: seq<string>
    var roles: map<string, RoleConfig>
    var schedules: map<string, ScheduleConfig>
    /** The keys of `schedules` in insertion order. */
    var scheduleOrder: seq<string>

    ghost predicate Valid()
      reads this
    {
      && Distinct(hostOrder) && (forall n :: n in hostOrder <==> n in hosts)
      && Distinct(scheduleOrder) && (forall n :: n in scheduleOrder <==> n in schedules)
    }

    /** A configuration as loaded: its schedules, and no hosts or roles yet. */
    constructor (schedules: map<string, ScheduleConfig>, scheduleOrder: seq<string>)
      requires Distinct(scheduleOrder) && forall n :: n in scheduleOrder <==> n in schedules
      ensures Valid()
      ensures hosts == map[] && hostOrder == [] && roles == map[]
      ensures this.schedules == schedules && this.scheduleOrder == scheduleOrder
    {
      hosts := map[];
      hostOrder := [];
      roles := map[];
      this.schedules := schedules;
      this.scheduleOrder := scheduleOrder;
    }

    function HostObjects(): set<HostConfig>
      reads this
    {
      set n | n in hosts :: hosts[n]
    }

    /** `hosts.values()`, in dictionary order. */
    function HostsInOrder(): (hs: seq<HostConfig>)
      requires Valid()
      reads this
      ensures |hs| == |hostOrder| && forall i :: 0 <= i < |hs| ==> hs[i] == hosts[hostOrder[i]]
    {
      seq(|hostOrder|, i requires 0 <= i < |hostOrder| && Valid() reads this => hosts[hostOrder[i]])
    }

    /** `schedules.values()`, in dictionary order. */
    function SchedulesInOrder(): (sch: seq<ScheduleConfig>)
      requires Valid()
      reads this
      ensures |sch| == |scheduleOrder| && forall i :: 0 <= i < |sch| ==> sch[i] == schedules[scheduleOrder[i]]
    {
      seq(|scheduleOrder|, i requires 0 <= i < |scheduleOrder| && Valid() reads this => schedules[scheduleOrder[i]])
    }

    function GetHostsByRole(role: string): (r: seq<HostConfig>)
      requires Valid()
      reads this, HostObjects()
      ensures forall h :: h in r ==> h in HostObjects() && h.HasRole(role)
      ensures forall h :: h in HostObjects() && h.HasRole(role) ==> h in r
      ensures r == ByRole(HostsInOrder(), role)
    {
      var hs := HostsInOrder();
      assert forall h :: h in HostObjects() ==> h in hs by {
        forall h | h in HostObjects() ensures h in hs {
          var n :| n in hosts && hosts[n] == h;
          var i :| 0 <= i < |hostOrder| && hostOrder[i] == n;
          assert hs[i] == h;
        }
      }
      ByRole(hs, role)
    }

    function GetEnabledHosts(): (r: seq<HostConfig>)
      requires Valid()
      reads this
      ensures forall h :: h in r ==> h in HostObjects() && h.enabled
      ensures forall n :: n in hosts && hosts[n].enabled ==> hosts[n] in r
      ensures r == Enabled(HostsInOrder())
    {
      var hs := HostsInOrder();
      assert forall n :: n in hosts ==> hosts[n] in hs by {
        forall n | n in hosts ensures hosts[n] in hs {
          var i :| 0 <= i < |hostOrder| && hostOrder[i] == n;
          assert hs[i] == hosts[n];
        }
      }
      Enabled(hs)
    }

    /** The tag filter: a loop over the hosts in key order, appending each host whose tags all agree. */
    method GetHostsByTags(wanted: map<string, string>) returns (r: seq<HostConfig>)
      requires Valid()
      ensures r == ByTags(HostsInOrder(), wanted)
      ensures wanted == map[] ==> r == HostsInOrder()
    {
      ghost var hs := HostsInOrder();
      r := [];
      for i := 0 to |hostOrder|
        invariant r == ByTags(hs[..i], wanted)
      {
        var host := hosts[hostOrder[i]];
        assert hs[..i + 1][..i] == hs[..i];
        if TagsMatch(host.tags, wanted) {
          r := r + [host];
        }
      }
      assert hs[..|hostOrder|] == hs;
      if wanted == map[] {
        EmptyTagsKeepAll(hs);
      }
    }

    /** Insert or replace under the host's own name; a new name goes last. */
    method AddHost(host: HostConfig)
      requires Valid()
      modifies this
      ensures Valid()
      ensures hosts == old(hosts)[host.hostname := host]
      ensures hostOrder == if host.hostname in old(hosts) then old(hostOrder) else old(hostOrder) + [host.hostname]
      ensures roles == old(roles) && schedules == old(schedules) && scheduleOrder == old(scheduleOrder)
    {
      if host.hostname !in hosts {
        DistinctAppend(hostOrder, host.hostname);
        hostOrder := hostOrder + [host.hostname];
      }
      hosts := hosts[host.hostname := host];
    }

    /** True exactly when the host was there; every other host stays as it was. */
    method RemoveHost(hostname: string) returns (removed: bool)
      requires Valid()
      modifies this
      ensures Valid()
      ensures removed == (hostname in old(hosts))
      ensures hosts == old(hosts) - {hostname}
      ensures hostOrder == Without(old(hostOrder), hostname)
      ensures roles == old(roles) && schedules == old(schedules) && scheduleOrder == old(scheduleOrder)
    {
      if hostname in hosts {
        hosts := hosts - {hostname};
        WithoutKeepsDistinct(hostOrder, hostname);
        hostOrder := Without(hostOrder, hostname);
        return true;
      }
      assert hosts == old(hosts) - {hostname};
      removed := false;
    }

    /** Insert or replace under the role's own name. */
    method AddRole(role: RoleConfig)
      requires Valid()
      modifies this
      ensures Valid()
      ensures roles == old(roles)[role.name := role]
      ensures hosts == old(hosts) && hostOrder == old(hostOrder)
      ensures schedules == old(schedules) && scheduleOrder == old(scheduleOrder)
    {
      roles := roles[role.name := role];
    }

    /** The host-role findings, as a set: a host has a role no definition exists for. */
    ghost function HostRoleErrors(): set<ConfigError>
      reads this, HostObjects()
    {
      set h, r | h in HostObjects() && r in h.roles && r !in roles :: HostRole(h.hostname, r)
    }

    /**
     * A defined role is deleted from every host and then from the roles; an
     * undefined one changes nothing. Schedules that target it are left as
     * they are, so they become findings, while no host keeps the role.
     */
    method RemoveRole(name: string) returns (removed: bool)
      requires Valid()
      modifies this, HostObjects()
      ensures Valid()
      ensures removed == (name in old(roles))
      ensures hosts == old(hosts) && hostOrder == old(hostOrder)
      ensures schedules == old(schedules) && scheduleOrder == old(scheduleOrder)
      ensures roles == old(roles) - {name}
      ensures forall h :: h in HostObjects() ==> h.roles == old(h.roles) - (if removed then {name} else {})
      ensures removed ==> forall e :: e in HostRoleErrors() ==> e.role != name
      ensures removed ==> forall s :: s in schedules.Values && name in s.targetRoles ==>
                ScheduleRole(s.name, name) in ScheduleRoleErrors(SchedulesInOrder(), roles.Keys)
    {
      if name !in roles {
        assert roles == old(roles) - {name};
        return false;
      }
      for i := 0 to |hostOrder|
        invariant hosts == old(hosts) && hostOrder == old(hostOrder) && roles == old(roles)
        invariant schedules == old(schedules) && scheduleOrder == old(scheduleOrder)
        invariant forall h :: h in HostObjects() ==> h.roles - {name} == old(h.roles) - {name} && h.roles <= old(h.roles)
        invariant forall j :: 0 <= j < i ==> name !in hosts[hostOrder[j]].roles
      {
        hosts[hostOrder[i]].RemoveRole(name);
      }
      forall h | h in HostObjects()
        ensures name !in h.roles
      {
        var n :| n in hosts && hosts[n] == h;
        var j :| 0 <= j < |hostOrder| && hostOrder[j] == n;
      }
      roles := roles - {name};
      removed := true;
      SchedulesInOrderValues();
      ScheduleRoleErrorsMeaning(SchedulesInOrder(), roles.Keys);
    }

    /** Every host role, every schedule target role and every schedule target host is defined. */
    ghost predicate Consistent()
      requires Valid()
      reads this, HostObjects()
    {
      && (forall h, r :: h in HostObjects() && r in h.roles ==> r in roles)
      && (forall s, r :: s in schedules.Values && r in s.targetRoles ==> r in roles)
      && (forall s, n :: s in schedules.Values && n in s.targetHosts ==> n in hosts)
    }

    /**
     * `validate_config`: all host-role findings first (hosts in order, each
     * host's roles in set order), then the schedule-role findings, then the
     * schedule-host findings. Empty exactly when the configuration is consistent.
     */
    method ValidateConfig() returns (errors: seq<ConfigError>)
      requires Valid()
      ensures var tail := ScheduleRoleErrors(SchedulesInOrder(), roles.Keys) + ScheduleHostErrors(SchedulesInOrder(), hosts.Keys);
        && |tail| <= |errors|
        && errors[|errors| - |tail|..] == tail
        && (forall i :: 0 <= i < |errors| - |tail| ==> errors[i].HostRole?)
        && (set i | 0 <= i < |errors| - |tail| :: errors[i]) == HostRoleErrors()
      ensures errors == [] <==> Consistent()
    {
      var head := HostRoleScan();
      var byRole := ScheduleRoleScan();
      var byHost := ScheduleHostScan();
      errors := head + (byRole + byHost);
      HeadThenTail(head, byRole + byHost, HostRoleErrors());
      ConsistencyOfParts();
    }

    /** The host-role part of the check. */
    method HostRoleScan() returns (errors: seq<ConfigError>)
      requires Valid()
      ensures forall e :: e in errors ==> e.HostRole?
      ensures (set e | e in errors) == HostRoleErrors()
    {
      errors := [];
      for i := 0 to |hostOrder|
        invariant forall e :: e in errors ==> e in HostRoleErrors()
        invariant forall j, r :: 0 <= j < i && r in hosts[hostOrder[j]].roles && r !in roles ==>
                    HostRole(hosts[hostOrder[j]].hostname, r) in errors
      {
        var host := hosts[hostOrder[i]];
        var pending := host.roles;
        while pending != {}
          invariant pending <= host.roles
          invariant forall e :: e in errors ==> e in HostRoleErrors()
          invariant forall j, r :: 0 <= j < i && r in hosts[hostOrder[j]].roles && r !in roles ==>
                      HostRole(hosts[hostOrder[j]].hostname, r) in errors
          invariant forall r :: r in host.roles && r !in pending && r !in roles ==> HostRole(host.hostname, r) in errors
          decreases pending
        {
          var r :| r in pending;
          if r !in roles {
            assert host in HostObjects();
            errors := errors + [HostRole(host.hostname, r)];
          }
          pending := pending - {r};
        }
      }
      forall e | e in HostRoleErrors()
        ensures e in errors
      {
        var h, r :| h in HostObjects() && r in h.roles && r !in roles && e == HostRole(h.hostname, r);
        var n :| n in hosts && hosts[n] == h;
        var j :| 0 <= j < |hostOrder| && hostOrder[j] == n;
      }
    }

    method ScheduleRoleScan() returns (errors: seq<ConfigError>)
      requires Valid()
      ensures errors == ScheduleRoleErrors(SchedulesInOrder(), roles.Keys)
    {
      ghost var sch := SchedulesInOrder();
      errors := [];
      for i := 0 to |scheduleOrder|
        invariant errors == ScheduleRoleErrors(sch[..i], roles.Keys)
      {
        var s := schedules[scheduleOrder[i]];
        assert sch[..i + 1][..i] == sch[..i];
        ghost var before := errors;
        for j := 0 to |s.targetRoles|
          invariant errors == before + MissingRoles(s.name, s.targetRoles[..j], roles.Keys)
        {
          assert s.targetRoles[..j + 1][..j] == s.targetRoles[..j];
          if s.targetRoles[j] !in roles {
            errors := errors + [ScheduleRole(s.name, s.targetRoles[j])];
          }
        }
        assert s.targetRoles[..|s.targetRoles|] == s.targetRoles;
      }
      assert sch[..|scheduleOrder|] == sch;
    }

    method ScheduleHostScan() returns (errors: seq<ConfigError>)
      requires Valid()
      ensures errors == ScheduleHostErrors(SchedulesInOrder(), hosts.Keys)
    {
      ghost var sch := SchedulesInOrder();
      errors := [];
      for i := 0 to |scheduleOrder|
        invariant errors == ScheduleHostErrors(sch[..i], hosts.Keys)
      {
        var s := schedules[scheduleOrder[i]];
        assert sch[..i + 1][..i] == sch[..i];
        ghost var before := errors;
        for j := 0 to |s.targetHosts|
          invariant errors == before + MissingHosts(s.name, s.targetHosts[..j], hosts.Keys)
        {
          assert s.targetHosts[..j + 1][..j] == s.targetHosts[..j];
          if s.targetHosts[j] !in hosts {
            errors := errors + [ScheduleHost(s.name, s.targetHosts[j])];
          }
        }
        assert s.targetHosts[..|s.targetHosts|] == s.targetHosts;
      }
      assert sch[..|scheduleOrder|] == sch;
    }

    /** Each part of the check is empty exactly when its kind of reference is all defined. */
    lemma ConsistencyOfParts()
      requires Valid()
      ensures HostRoleErrors() == {} <==> (forall h, r :: h in HostObjects() && r in h.roles ==> r in roles)
      ensures ScheduleRoleErrors(SchedulesInOrder(), roles.Keys) == [] <==>
                (forall s, r :: s in schedules.Values && r in s.targetRoles ==> r in roles)
      ensures ScheduleHostErrors(SchedulesInOrder(), hosts.Keys) == [] <==>
                (forall s, n :: s in schedules.Values && n in s.targetHosts ==> n in hosts)
    {
      SchedulesInOrderValues();
      ScheduleRoleErrorsMeaning(SchedulesInOrder(), roles.Keys);
      ScheduleHostErrorsMeaning(SchedulesInOrder(), hosts.Keys);
      if HostRoleErrors() == {} {
        forall h, r | h in HostObjects() && r in h.roles
          ensures r in roles
        {
          assert HostRole(h.hostname, r) !in HostRoleErrors();
        }
      }
    }

    lemma SchedulesInOrderValues()
      requires Valid()
      ensures forall s :: s in schedules.Values <==> s in SchedulesInOrder()
    {
      var sch := SchedulesInOrder();
      forall s | s in schedules.Values
        ensures s in sch
      {
        var n :| n in schedules && schedules[n] == s;
        var i :| 0 <= i < |scheduleOrder| && scheduleOrder[i] == n;
        assert sch[i] == s;
      }
    }
  }
}
