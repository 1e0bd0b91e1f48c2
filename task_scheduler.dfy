/**
 * The older scheduler manager task: the same poll over the cluster document's
 * schedules, with different rules. Ownership is md5 of `name:host` modulo 3,
 * selectors look at labels only, there is no lock and no deduplication, and
 * every schedule's last run lives in one JSON table that each save reads,
 * changes and writes back whole.
 */
module TaskScheduler {
  import opened Wrappers
  import opened Records
  import opened Store
  import opened Oracles
  import EmbeddedScheduler

  const ConfigKey: string := "celeroot:cluster:config"
  const StateKey: string := "celeroot:scheduler:state"

  /** The task names that lead to a submission; the other recognised names do nothing. */
  const DispatchingTasks: set<string> := {"check-security-updates", "cleanup-unused-packages"}

  // ---------------------------------------------------------------------------
  // Pure decisions

  /** A worker runs a schedule when md5 of `name:host` is divisible by three. */
  predicate OwnsMod3(md5: Digest, name: string, host: string) {
    md5(name + ":" + host) % 3 == 0
  }

  /**
   * Each worker decides alone, so the rule promises neither an owner nor a
   * single one: some digest leaves a schedule to no worker of the fleet (while
   * the bucket rule of the embedded scheduler gives it to all of them), and
   * some digest gives it to every worker, each of which then runs it.
   */
  lemma OwnerCountUnconstrained(md5: Digest, name: string, fleet: set<string>)
    requires forall x :: md5(x) == 1
    ensures forall h :: h in fleet ==> !OwnsMod3(md5, name, h) && EmbeddedScheduler.Owns(md5, name, h)
    ensures forall h :: h in fleet ==> OwnsMod3(x => 3 * md5(x), name, h)
  {
  }

  /** A worker matches when it carries every label of the selector with the same value. */
  predicate MatchesLabels(w: WorkerRecord, sel: Selector) {
    forall k :: k in sel.labels ==> k in w.labels && w.labels[k] == sel.labels[k]
  }

  /** The selector's role plays no part, and a selector without labels matches everyone. */
  lemma RoleIsIgnored(w: WorkerRecord, sel: Selector, role: Option<string>)
    ensures MatchesLabels(w, sel) <==> MatchesLabels(w, sel.(role := role))
    ensures sel.labels == map[] ==> MatchesLabels(w, sel)
  {
  }

  /**
   * The embedded matcher is this one plus the role test, so a worker with
   * another role still matches a role-only selector here but not there.
   */
  lemma EmbeddedAddsRoleTest(w: WorkerRecord, sel: Selector)
    ensures EmbeddedScheduler.Matches(w, sel) <==> MatchesLabels(w, sel) && (sel.role.Some? ==> w.role == sel.role)
    ensures sel.labels == map[] && sel.role.Some? && w.role != sel.role ==>
              MatchesLabels(w, sel) && !EmbeddedScheduler.Matches(w, sel)
  {
  }

  /** `get_scheduler_state`: a missing key is the empty table; anything but a table raises. */
  function ReadState(db: Db): (r: Result<map<string, int>>)
    ensures db.Get(StateKey).None? ==> r == Ok(map[])
    ensures db.Get(StateKey).Some? ==> (r.Ok? <==> db.Get(StateKey).value.StateTable?)
    ensures r.Ok? && db.Get(StateKey).Some? ==> db.Get(StateKey).value.runs == r.value
  {
    match db.Get(StateKey)
    case None => Ok(map[])
    case Some(StateTable(runs)) => Ok(runs)
    case Some(_) => Err("the state key does not hold a table of run times")
  }

  /** One save: the table read back, with this schedule's entry set and every other entry kept. */
  lemma SaveChangesOneEntry(db: Db, name: string, t: int)
    requires ReadState(db).Ok?
    ensures var after := db.Put(StateKey, StateTable(ReadState(db).value[name := t]), None);
      && ReadState(after).Ok?
      && name in ReadState(after).value && ReadState(after).value[name] == t
      && forall n :: n != name ==>
           (n in ReadState(after).value <==> n in ReadState(db).value)
           && (n in ReadState(db).value ==> ReadState(after).value[n] == ReadState(db).value[n])
  {
  }

  /**
   * Without a lock the read-change-write of the table can lose an update:
   * when two saves both read the table before either writes, the second write
   * drops the first one's entry; one after the other, both entries survive.
   */
  lemma InterleavedSavesLoseOne(db: Db, a: string, b: string, ta: int, tb: int)
    requires ReadState(db).Ok? && a != b && a !in ReadState(db).value
    ensures var m := ReadState(db).value;
      var interleaved := db.Put(StateKey, StateTable(m[a := ta]), None).Put(StateKey, StateTable(m[b := tb]), None);
      ReadState(interleaved).Ok? && a !in ReadState(interleaved).value && b in ReadState(interleaved).value
    ensures var first := db.Put(StateKey, StateTable(ReadState(db).value[a := ta]), None);
      var second := first.Put(StateKey, StateTable(ReadState(first).value[b := tb]), None);
      ReadState(second).Ok? && a in ReadState(second).value && b in ReadState(second).value
  {
    var m := ReadState(db).value;
    var interleaved := db.Put(StateKey, StateTable(m[a := ta]), None).Put(StateKey, StateTable(m[b := tb]), None);
    assert interleaved.Get(StateKey) == Some(StateTable(m[b := tb]));
    var first := db.Put(StateKey, StateTable(m[a := ta]), None);
    assert ReadState(first) == Ok(m[a := ta]);
  }

  /** The last run in the table, or one day back when the schedule has no entry. */
  function LastRunOf(state: map<string, int>, name: string, now: int): int {
    if name in state then state[name] else now - Day
  }

  /**
   * `should_run_schedule` on the table it read: an unreadable table or an
   * invalid cron expression raises; otherwise the answer is the embedded
   * scheduler's due rule on the same last run.
   */
  function DueCheck(next: CronNext, state: Result<map<string, int>>, s: ScheduleSpec, now: int): (r: Result<bool>)
    ensures state.Err? ==> r.Err?
    ensures state.Ok? ==> (r.Ok? <==> next(s.cron, LastRunOf(state.value, s.name, now)).Some?)
    ensures r.Ok? ==> state.Ok? && (r.value <==> EmbeddedScheduler.Due(next, s.cron, LastRunOf(state.value, s.name, now), now))
  {
    if state.Err? then Err(state.reason)
    else
      var boundary := next(s.cron, LastRunOf(state.value, s.name, now));
      if boundary.None? then Err("invalid cron expression") else Ok(now >= boundary.value)
  }

  /** An invalid cron expression raises here, where the embedded scheduler only answers "not due". */
  lemma InvalidCronRaises(next: CronNext, m: map<string, int>, s: ScheduleSpec, now: int)
    requires next(s.cron, LastRunOf(m, s.name, now)).None?
    ensures DueCheck(next, Ok(m), s, now).Err?
    ensures !EmbeddedScheduler.Due(next, s.cron, LastRunOf(m, s.name, now), now)
  {
  }

  /** A schedule whose entry was just set to now is not due again at that instant. */
  lemma SavedIsNotDue(next: CronNext, m: map<string, int>, s: ScheduleSpec, now: int)
    requires Advancing(next)
    ensures DueCheck(next, Ok(m[s.name := now]), s, now) != Ok(true)
  {
  }

  /**
   * `get_cluster_config`: no key, or an empty JSON object, is no configuration;
   * text that is not JSON raises; a JSON object without `spec.schedules` has
   * no schedules.
   */
  function ReadConfig(v: Option<Value>): (r: Result<Option<seq<ScheduleSpec>>>)
    ensures v.None? ==> r == Ok(None)
    ensures r.Err? <==> v.Some? && !v.value.IsJsonObject()
    ensures v.Some? && v.value.Cluster? ==> r == Ok(Some(v.value.doc.schedules))
    ensures r.Ok? && r.value.Some? && r.value.value != [] ==> v.Some? && v.value.Cluster?
  {
    match v
    case None => Ok(None)
    case Some(Cluster(doc)) => Ok(Some(doc.schedules))
    case Some(StateTable(runs)) => if runs == map[] then Ok(None) else Ok(Some([]))
    case Some(Worker(_)) => Ok(Some([]))
    case Some(_) => Err("the cluster configuration is not JSON")
  }

  // ---------------------------------------------------------------------------
  // What a registry scan and a dispatch see

  datatype Fault =
    | KeyScan(schedule: string, target: nat)
    | RecordRead(schedule: string, target: nat, key: string)
    | Submit(schedule: string, target: nat, host: string)
    | StateWrite(schedule: string)

  /** The scan for one target meets no fault and every record parses. */
  ghost predicate ScanSucceeds(db: Db, name: string, target: nat, fails: Fault -> bool) {
    && !fails(KeyScan(name, target))
    && forall k :: k in db.LiveKeys(WorkerPrefix) ==> !fails(RecordRead(name, target, k)) && db.entries[k].value.Worker?
  }

  ghost predicate ScansSucceed(db: Db, s: ScheduleSpec, fails: Fault -> bool) {
    forall t :: 0 <= t < |s.targets| ==> ScanSucceeds(db, s.name, t, fails)
  }

  ghost predicate NoSubmitFault(name: string, fails: Fault -> bool) {
    forall t, h :: !fails(Submit(name, t, h))
  }

  /** Key `k` holds a worker record named `h` that the selector matches. */
  ghost predicate KeyMatches(db: Db, sel: Selector, h: string, k: string) {
    && k in db.entries && db.entries[k].value.Worker?
    && db.entries[k].value.record.hostname == h && MatchesLabels(db.entries[k].value.record, sel)
  }

  ghost function MatchingAmong(db: Db, sel: Selector, h: string, ks: set<string>): set<string> {
    set k | k in ks && KeyMatches(db, sel, h, k)
  }

  /** The live registry keys whose record is named `h` and matches the selector. */
  ghost function MatchingKeys(db: Db, sel: Selector, h: string): set<string> {
    MatchingAmong(db, sel, h, db.LiveKeys(WorkerPrefix))
  }

  /** How often a full pass over the targets finds a record named `h`: once per (target, key) pair. */
  ghost function Matched(db: Db, targets: seq<Target>, h: string): nat
    decreases |targets|
  {
    if targets == [] then 0
    else Matched(db, targets[..|targets| - 1], h) + |MatchingKeys(db, targets[|targets| - 1].selector, h)|
  }

  ghost predicate LabelTargeted(w: WorkerRecord, targets: seq<Target>) {
    exists i :: 0 <= i < |targets| && MatchesLabels(w, targets[i].selector)
  }

  /** Hostnames of the live workers whose labels some target selects. */
  ghost function LabelHosts(db: Db, targets: seq<Target>): set<string> {
    set w | w in EmbeddedScheduler.LiveRecords(db) && LabelTargeted(w, targets) :: w.hostname
  }

  lemma AddKey(db: Db, sel: Selector, h: string, ks: set<string>, k: string)
    requires k !in ks
    ensures |MatchingAmong(db, sel, h, ks + {k})| ==
            |MatchingAmong(db, sel, h, ks)| + (if KeyMatches(db, sel, h, k) then 1 else 0)
  {
    if KeyMatches(db, sel, h, k) {
      assert MatchingAmong(db, sel, h, ks + {k}) == MatchingAmong(db, sel, h, ks) + {k};
    } else {
      assert MatchingAmong(db, sel, h, ks + {k}) == MatchingAmong(db, sel, h, ks);
    }
  }

  /** The first `i` keys of a scan, as a set. */
  function Seen(keys: seq<string>, i: nat): set<string>
    requires i <= |keys|
  {
    set k | k in keys[..i]
  }

  /**
   * A worker named `h` that two different targets both select is counted
   * twice: there is no deduplication across targets.
   */
  lemma {:induction false} TwoTargetsCountTwice(db: Db, targets: seq<Target>, h: string, i: nat, j: nat)
    requires i < j < |targets|
    requires MatchingKeys(db, targets[i].selector, h) != {}
    requires MatchingKeys(db, targets[j].selector, h) != {}
    ensures Matched(db, targets, h) >= 2
  {
    MatchedCoversTarget(db, targets[..j], h, i);
    MatchedOfPrefix(db, targets, h, j + 1);
    assert targets[..j + 1][..j] == targets[..j];
  }

  lemma {:induction false} MatchedCoversTarget(db: Db, targets: seq<Target>, h: string, i: nat)
    requires i < |targets|
    ensures Matched(db, targets, h) >= |MatchingKeys(db, targets[i].selector, h)|
    decreases |targets|
  {
    if i < |targets| - 1 {
      MatchedCoversTarget(db, targets[..|targets| - 1], h, i);
    }
  }

  lemma {:induction false} MatchedOfPrefix(db: Db, targets: seq<Target>, h: string, n: nat)
    requires n <= |targets|
    ensures Matched(db, targets[..n], h) <= Matched(db, targets, h)
    decreases |targets|
  {
    if n < |targets| {
      assert targets[..|targets| - 1][..n] == targets[..n];
      MatchedOfPrefix(db, targets[..|targets| - 1], h, n);
    } else {
      assert targets[..n] == targets;
    }
  }

  /**
   * The inner loop of `execute_scheduled_task`: submit the task to each worker
   * in turn; a failed submission raises and ends the loop. Other task names
   * submit nothing.
   */
  method SubmitToAll(task: string, name: string, target: nat, ws: seq<WorkerRecord>, fails: Fault -> bool)
    returns (out: seq<Dispatch>, ok: bool)
    ensures task !in DispatchingTasks ==> out == [] && ok
    ensures ok ==> out == (if task in DispatchingTasks then ToAll(task, ws) else [])
    ensures forall d :: d in out ==> d.task == task && d.task in DispatchingTasks && d.host in Names(ws)
    ensures NoSubmitFault(name, fails) ==> ok
  {
    out := [];
    if task !in DispatchingTasks {
      return [], true;
    }
    for j := 0 to |ws|
      invariant out == ToAll(task, ws[..j])
      invariant forall d :: d in out ==> d.task == task && d.host in Names(ws)
    {
      if fails(Submit(name, target, ws[j].hostname)) {
        return out, false;
      }
      assert ws[..j + 1] == ws[..j] + [ws[j]];
      assert Names(ws)[j] == ws[j].hostname;
      out := out + [Dispatch(task, ws[j].hostname)];
    }
    assert ws[..|ws|] == ws;
    ok := true;
  }

  /** The dispatches to every worker of a list. */
  function ToAll(task: string, ws: seq<WorkerRecord>): (ds: seq<Dispatch>)
    ensures Hosts(ds) == Names(ws)
    ensures forall d :: d in ds ==> d.task == task
  {
    seq(|ws|, i requires 0 <= i < |ws| => Dispatch(task, ws[i].hostname))
  }

  lemma DispatchCount(before: seq<Dispatch>, task: string, ws: seq<WorkerRecord>)
    ensures forall h :: multiset(Hosts(before + ToAll(task, ws)))[h] == multiset(Hosts(before))[h] + multiset(Names(ws))[h]
  {
    assert Hosts(before + ToAll(task, ws)) == Hosts(before) + Names(ws);
  }

  /** Writing the state key changes nothing a registry scan sees. */
  lemma {:induction false} SameRegistry(db: Db, db2: Db, targets: seq<Target>)
    requires db2.clock == db.clock
    requires db2.entries - {StateKey} == db.entries - {StateKey}
    ensures db2.LiveKeys(WorkerPrefix) == db.LiveKeys(WorkerPrefix)
    ensures forall name, t, fails :: ScanSucceeds(db2, name, t, fails) <==> ScanSucceeds(db, name, t, fails)
    ensures LabelHosts(db2, targets) == LabelHosts(db, targets)
    ensures forall h :: Matched(db2, targets, h) == Matched(db, targets, h)
    decreases |targets|
  {
    assert StateKey[9] == 's' && WorkerPrefix[9] == 'w';
    forall k | k in db.LiveKeys(WorkerPrefix)
      ensures k in db2.entries && db2.entries[k] == db.entries[k]
    {
      assert k[9] == 'w';
      assert k in db.entries - {StateKey};
    }
    forall k | k in db2.LiveKeys(WorkerPrefix)
      ensures k in db.entries && db2.entries[k] == db.entries[k]
    {
      assert k[9] == 'w';
      assert k in db2.entries - {StateKey};
    }
    assert db2.LiveKeys(WorkerPrefix) == db.LiveKeys(WorkerPrefix);
    assert EmbeddedScheduler.LiveRecords(db2) == EmbeddedScheduler.LiveRecords(db);
    forall sel, h
      ensures MatchingKeys(db2, sel, h) == MatchingKeys(db, sel, h)
    {
      assert forall k :: k in db.LiveKeys(WorkerPrefix) ==> (KeyMatches(db2, sel, h, k) <==> KeyMatches(db, sel, h, k));
    }
    if targets != [] {
      SameRegistry(db, db2, targets[..|targets| - 1]);
    }
  }

  // ---------------------------------------------------------------------------
  // The manager object

  class SchedulerManager {
    const store: Store
    const md5: Digest
    const cronNext: CronNext

    constructor (store: Store, md5: Digest, cronNext: CronNext)
      ensures this.store == store && this.md5 == md5 && this.cronNext == cronNext
    {
      this.store := store;
      this.md5 := md5;
      this.cronNext := cronNext;
    }

    method GetClusterConfig() returns (r: Result<Option<seq<ScheduleSpec>>>)
      ensures r == ReadConfig(store.db.Get(ConfigKey))
    {
      var v := store.Get(ConfigKey);
      r := ReadConfig(v);
    }

    method GetSchedulerState() returns (r: Result<map<string, int>>)
      ensures r == ReadState(store.db)
    {
      var v := store.Get(StateKey);
      match v
      case None => r := Ok(map[]);
      case Some(StateTable(runs)) => r := Ok(runs);
      case Some(_) => r := Err("the state key does not hold a table of run times");
    }

    /** Read the whole table, set one entry, write the whole table back. */
    method UpdateSchedulerState(name: string, lastRun: int, fails: Fault -> bool) returns (ok: bool)
      modifies store
      ensures ok <==> ReadState(old(store.db)).Ok? && !fails(StateWrite(name))
      ensures ok ==> store.db == old(store.db).Put(StateKey, StateTable(ReadState(old(store.db)).value[name := lastRun]), None)
      ensures !ok ==> store.db == old(store.db)
    {
      var state := GetSchedulerState();
      if state.Err? || fails(StateWrite(name)) {
        return false;
      }
      store.Set(StateKey, StateTable(state.value[name := lastRun]));
      ok := true;
    }

    method ShouldRunSchedule(s: ScheduleSpec, now: int) returns (due: Result<bool>)
      ensures due == DueCheck(cronNext, ReadState(store.db), s, now)
    {
      var state := GetSchedulerState();
      if state.Err? {
        return Err(state.reason);
      }
      var last := if s.name in state.value then state.value[s.name] else now - Day;
      var boundary := cronNext(s.cron, last);
      if boundary.None? {
        return Err("invalid cron expression");
      }
      due := Ok(now >= boundary.value);
    }

    /**
     * The registry scan for one target. Nothing is caught here: a fault or a
     * record that does not parse raises (None). A full scan finds each
     * matching key's record once.
     */
    method FindWorkersBySelector(sel: Selector, name: string, target: nat, fails: Fault -> bool)
      returns (found: Option<seq<WorkerRecord>>)
      ensures found.Some? <==> ScanSucceeds(store.db, name, target, fails)
      ensures found.Some? ==> forall w :: w in found.value ==>
                w in EmbeddedScheduler.LiveRecords(store.db) && MatchesLabels(w, sel)
      ensures found.Some? ==> forall h :: multiset(Names(found.value))[h] == |MatchingKeys(store.db, sel, h)|
    {
      if fails(KeyScan(name, target)) {
        return None;
      }
      var keys := store.Keys(WorkerPrefix);
      var ws: seq<WorkerRecord> := [];
      assert forall j :: 0 <= j < |keys| ==> keys[j] in store.db.LiveKeys(WorkerPrefix);
      for i := 0 to |keys|
        invariant forall j :: 0 <= j < |keys| ==> keys[j] in store.db.LiveKeys(WorkerPrefix)
        invariant forall w :: w in ws ==> w in EmbeddedScheduler.LiveRecords(store.db) && MatchesLabels(w, sel)
        invariant forall j :: 0 <= j < i ==> !fails(RecordRead(name, target, keys[j])) && store.db.entries[keys[j]].value.Worker?
        invariant forall h :: multiset(Names(ws))[h] == |MatchingAmong(store.db, sel, h, Seen(keys, i))|
      {
        var key := keys[i];
        assert key in store.db.LiveKeys(WorkerPrefix);
        if fails(RecordRead(name, target, key)) {
          return None;
        }
        var v := store.Get(key);
        if !v.value.Worker? {
          return None;
        }
        var w := v.value.record;
        assert keys[..i + 1] == keys[..i] + [key];
        assert Seen(keys, i + 1) == Seen(keys, i) + {key};
        forall h
          ensures |MatchingAmong(store.db, sel, h, Seen(keys, i + 1))| ==
                  |MatchingAmong(store.db, sel, h, Seen(keys, i))| + (if w.hostname == h && MatchesLabels(w, sel) then 1 else 0)
        {
          AddKey(store.db, sel, h, Seen(keys, i), key);
        }
        if MatchesLabels(w, sel) {
          assert Names(ws + [w]) == Names(ws) + [w.hostname];
          ws := ws + [w];
        }
      }
      assert keys[..|keys|] == keys;
      assert Seen(keys, |keys|) == store.db.LiveKeys(WorkerPrefix);
      found := Some(ws);
    }

    /**
     * Send the task once per (target, matching worker) pair. A missing task
     * name, a failed scan or a failed submission raises (ok is false), and the
     * submissions made until then stay made.
     */
    method ExecuteScheduledTask(s: ScheduleSpec, fails: Fault -> bool) returns (sent: seq<Dispatch>, ok: bool)
      ensures s.task.None? ==> !ok && sent == []
      ensures s.task.Some? && s.task.value !in DispatchingTasks ==> sent == []
      ensures forall d :: d in sent ==>
                s.task.Some? && d.task == s.task.value && d.task in DispatchingTasks && d.host in LabelHosts(store.db, s.targets)
      ensures ok ==> s.task.Some? && ScansSucceed(store.db, s, fails)
      ensures (s.task.Some? && ScansSucceed(store.db, s, fails)
               && (s.task.value in DispatchingTasks ==> NoSubmitFault(s.name, fails))) ==> ok
      ensures ok && s.task.value in DispatchingTasks ==>
                forall h :: multiset(Hosts(sent))[h] == Matched(store.db, s.targets, h)
    {
      sent := [];
      if s.task.None? {
        return [], false;
      }
      var task := s.task.value;
      for t := 0 to |s.targets|
        invariant task !in DispatchingTasks ==> sent == []
        invariant forall d :: d in sent ==> d.task == task && d.task in DispatchingTasks && d.host in LabelHosts(store.db, s.targets)
        invariant forall u :: 0 <= u < t ==> ScanSucceeds(store.db, s.name, u, fails)
        invariant task in DispatchingTasks ==> forall h :: multiset(Hosts(sent))[h] == Matched(store.db, s.targets[..t], h)
      {
        var found := FindWorkersBySelector(s.targets[t].selector, s.name, t, fails);
        if found.None? {
          return sent, false;
        }
        var ws := found.value;
        var out, submitted := SubmitToAll(task, s.name, t, ws, fails);
        TargetStep(store.db, s, t, task, sent, ws, out, submitted);
        sent := sent + out;
        if !submitted {
          return sent, false;
        }
      }
      assert s.targets[..|s.targets|] == s.targets;
      ok := true;
    }

    /**
     * The body of the pass for one schedule: skip unless owned, check whether
     * it is due (an exception there is None and ends the pass), then execute
     * and save inside the caught region. `db0` is the store at the start of the
     * pass, which differs from the present one only at the state key.
     */
    method RunSchedule(s: ScheduleSpec, hostname: string, now: int, fails: Fault -> bool, ghost db0: Db)
      returns (outcome: Option<Step>)
      requires store.db.clock == db0.clock
      requires store.db.entries - {StateKey} == db0.entries - {StateKey}
      modifies store
      ensures outcome.None? ==>
                OwnsMod3(md5, s.name, hostname) && DueCheck(cronNext, ReadState(old(store.db)), s, now).Err?
                && store.db == old(store.db)
      ensures outcome.Some? ==>
                StepFits(outcome.value, s, OwnsMod3(md5, s.name, hostname),
                         DueCheck(cronNext, ReadState(old(store.db)), s, now), db0, fails)
      ensures outcome.Some? && outcome.value.Executed? ==> ReadState(old(store.db)).Ok?
      ensures outcome.Some? && outcome.value.Executed? ==>
                store.db == old(store.db).Put(StateKey, StateTable(ReadState(old(store.db)).value[s.name := now]), None)
      ensures outcome.Some? && !outcome.value.Executed? ==> store.db == old(store.db)
    {
      if !OwnsMod3(md5, s.name, hostname) {
        return Some(NotOwned);
      }
      var due := ShouldRunSchedule(s, now);
      if due.Err? {
        return None;
      }
      if !due.value {
        return Some(NotDue);
      }
      SameRegistry(db0, store.db, s.targets);
      var out, ok := ExecuteScheduledTask(s, fails);
      var saved := false;
      if ok {
        saved := UpdateSchedulerState(s.name, now, fails);
      }
      outcome := if saved then Some(Executed(out)) else Some(Failed(out));
    }
  }

  // ---------------------------------------------------------------------------
  // One pass of the scheduler manager task

  /** What happened to one schedule (the source only reports it as progress). */
  datatype Step =
    | NotOwned
    | NotDue
    | Failed(sent: seq<Dispatch>)
    | Executed(sent: seq<Dispatch>)

  /** The task's answer: no configuration, a completed pass, or an exception that ended it. */
  datatype Summary =
    | NoConfig
    | Completed(executed: seq<string>, total: nat, nextCheck: int)
    | Crashed

  function StepSent(step: Step): seq<Dispatch> {
    if step.Failed? || step.Executed? then step.sent else []
  }

  /** Every submission of a pass, in order. */
  function SentBy(report: seq<Step>): seq<Dispatch>
    decreases |report|
  {
    if report == [] then [] else SentBy(report[..|report| - 1]) + StepSent(report[|report| - 1])
  }

  /** The names of the executed schedules, in configuration order. */
  function ExecutedNames(sch: seq<ScheduleSpec>, report: seq<Step>): seq<string>
    requires |report| <= |sch|
    decreases |report|
  {
    if report == [] then []
    else ExecutedNames(sch, report[..|report| - 1])
         + (if report[|report| - 1].Executed? then [sch[|report| - 1].name] else [])
  }

  /** A table with each of the given names set to `t`. */
  function Stamped(m: map<string, int>, names: seq<string>, t: int): (r: map<string, int>)
    ensures forall n :: n in r <==> n in m || n in names
    ensures forall n :: n in r ==> r[n] == if n in names then t else m[n]
  {
    map n | n in m.Keys + (set x | x in names) :: if n in names then t else m[n]
  }

  lemma StampedNone(m: map<string, int>, t: int)
    ensures Stamped(m, [], t) == m
  {
  }

  lemma StampedAppend(m: map<string, int>, names: seq<string>, n: string, t: int)
    ensures Stamped(m, names + [n], t) == Stamped(m, names, t)[n := t]
  {
    assert forall x :: x in names + [n] <==> x in names || x == n;
  }

  /** The state table after the saves of the steps so far. */
  ghost function StateDuring(db0: Db, sch: seq<ScheduleSpec>, report: seq<Step>, now: int): Result<map<string, int>>
    requires |report| <= |sch|
  {
    if ReadState(db0).Err? then ReadState(db0) else Ok(Stamped(ReadState(db0).value, ExecutedNames(sch, report), now))
  }

  /**
   * One step against what the source does with a schedule: skipped unless
   * owned, executed when due, counted as executed only when both the dispatch
   * and the save returned, with the dispatch facts of a clean run.
   */
  ghost predicate StepFits(step: Step, s: ScheduleSpec, owns: bool, due: Result<bool>, db0: Db, fails: Fault -> bool) {
    && (step.NotOwned? <==> !owns)
    && (step.NotDue? <==> owns && due == Ok(false))
    && (step.Failed? || step.Executed? <==> owns && due == Ok(true))
    && (step.Failed? || step.Executed? ==> forall d :: d in step.sent ==>
          s.task.Some? && d.task == s.task.value && d.task in DispatchingTasks && d.host in LabelHosts(db0, s.targets))
    && (step.Executed? ==> s.task.Some? && ScansSucceed(db0, s, fails) && !fails(StateWrite(s.name)))
    && (step.Executed? && s.task.value in DispatchingTasks ==>
          forall h :: multiset(Hosts(step.sent))[h] == Matched(db0, s.targets, h))
    && (step.Failed? ==>
          !(s.task.Some? && ScansSucceed(db0, s, fails)
            && (s.task.value in DispatchingTasks ==> NoSubmitFault(s.name, fails)) && !fails(StateWrite(s.name))))
  }

  ghost predicate StepsFit(sch: seq<ScheduleSpec>, report: seq<Step>, md5: Digest, next: CronNext,
                           hostname: string, now: int, db0: Db, fails: Fault -> bool)
    requires |report| <= |sch|
  {
    forall j :: 0 <= j < |report| ==>
      StepFits(report[j], sch[j], OwnsMod3(md5, sch[j].name, hostname),
               DueCheck(next, StateDuring(db0, sch, report[..j], now), sch[j], now), db0, fails)
  }

  /**
   * `schedule_manager`: one pass over the configured schedules, with no lock.
   * Only the state key changes. The pass ends early when a due check raises;
   * otherwise it reports every schedule, lists exactly the executed ones in
   * order, and the table holds now for exactly those names.
   */
  method ScheduleManager(hostname: string, store: Store, md5: Digest, cronNext: CronNext, now: int, fails: Fault -> bool)
    returns (summary: Summary, report: seq<Step>, sent: seq<Dispatch>)
    modifies store
    ensures var cfg := ReadConfig(old(store.db).Get(ConfigKey));
      && (summary.NoConfig? <==> cfg == Ok(None))
      && (cfg.Err? ==> summary.Crashed?)
      && (cfg.Err? || cfg == Ok(None) ==> report == [] && sent == [] && store.db == old(store.db))
    ensures store.db.clock == old(store.db.clock)
    ensures store.db.entries - {StateKey} == old(store.db.entries) - {StateKey}
    ensures ReadConfig(old(store.db).Get(ConfigKey)).Ok? && ReadConfig(old(store.db).Get(ConfigKey)).value.Some? ==>
      var sch := ReadConfig(old(store.db).Get(ConfigKey)).value.value;
      && |report| <= |sch|
      && sent == SentBy(report)
      && StepsFit(sch, report, md5, cronNext, hostname, now, old(store.db), fails)
      && ReadState(store.db) == StateDuring(old(store.db), sch, report, now)
      && (summary.Completed? <==> |report| == |sch|)
      && (summary.Completed? ==>
            summary.total == |sch| && summary.nextCheck == now + Minute
            && summary.executed == ExecutedNames(sch, report))
      && (summary.Crashed? ==>
            OwnsMod3(md5, sch[|report|].name, hostname)
            && DueCheck(cronNext, StateDuring(old(store.db), sch, report, now), sch[|report|], now).Err?)
  {
    var manager := new SchedulerManager(store, md5, cronNext);
    report := [];
    sent := [];
    var config := manager.GetClusterConfig();
    if config.Err? {
      return Crashed, [], [];
    }
    if config.value.None? {
      return NoConfig, [], [];
    }
    var schedules := config.value.value;
    ghost var db0 := store.db;
    if ReadState(db0).Ok? {
      StampedNone(ReadState(db0).value, now);
    }
    var executed: seq<string> := [];
    for i := 0 to |schedules|
      invariant |report| == i
      invariant executed == ExecutedNames(schedules, report)
      invariant sent == SentBy(report)
      invariant store.db.clock == db0.clock
      invariant store.db.entries - {StateKey} == db0.entries - {StateKey}
      invariant ReadState(store.db) == StateDuring(db0, schedules, report, now)
      invariant StepsFit(schedules, report, md5, cronNext, hostname, now, db0, fails)
    {
      ghost var before := store.db;
      var outcome := manager.RunSchedule(schedules[i], hostname, now, fails, db0);
      if outcome.None? {
        summary := Crashed;
        return;
      }
      var step := outcome.value;
      if step.Executed? {
        executed := executed + [schedules[i].name];
        StateWriteKeepsRest(db0, before, StateTable(ReadState(before).value[schedules[i].name := now]));
      }
      PassStep(db0, before, store.db, schedules, report, step, md5, cronNext, hostname, now, fails);
      report := report + [step];
      sent := sent + StepSent(step);
    }
    summary := Completed(executed, |schedules|, now + Minute);
  }

  /** The dispatch loop's invariant survives the dispatches for one more target. */
  lemma TargetStep(db: Db, s: ScheduleSpec, t: nat, task: string, sent: seq<Dispatch>, ws: seq<WorkerRecord>,
                   out: seq<Dispatch>, submitted: bool)
    requires t < |s.targets|
    requires task !in DispatchingTasks ==> sent == [] && out == []
    requires forall d :: d in sent ==> d.task == task && d.task in DispatchingTasks && d.host in LabelHosts(db, s.targets)
    requires forall w :: w in ws ==> w in EmbeddedScheduler.LiveRecords(db) && MatchesLabels(w, s.targets[t].selector)
    requires forall d :: d in out ==> d.task == task && d.task in DispatchingTasks && d.host in Names(ws)
    requires task in DispatchingTasks ==> forall h :: multiset(Hosts(sent))[h] == Matched(db, s.targets[..t], h)
    requires forall h :: multiset(Names(ws))[h] == |MatchingKeys(db, s.targets[t].selector, h)|
    requires submitted ==> out == (if task in DispatchingTasks then ToAll(task, ws) else [])
    ensures task !in DispatchingTasks ==> sent + out == []
    ensures forall d :: d in sent + out ==>
              d.task == task && d.task in DispatchingTasks && d.host in LabelHosts(db, s.targets)
    ensures task in DispatchingTasks && submitted ==>
              forall h :: multiset(Hosts(sent + out))[h] == Matched(db, s.targets[..t + 1], h)
  {
    FoundAreLabelHosts(db, s.targets, t, ws);
    if task in DispatchingTasks && submitted {
      DispatchCount(sent, task, ws);
      assert s.targets[..t + 1][..t] == s.targets[..t];
    }
  }

  /** Every worker a scan for one target found is among the hosts the targets select. */
  lemma FoundAreLabelHosts(db: Db, targets: seq<Target>, t: nat, ws: seq<WorkerRecord>)
    requires t < |targets|
    requires forall w :: w in ws ==> w in EmbeddedScheduler.LiveRecords(db) && MatchesLabels(w, targets[t].selector)
    ensures forall h :: h in Names(ws) ==> h in LabelHosts(db, targets)
  {
    forall h | h in Names(ws)
      ensures h in LabelHosts(db, targets)
    {
      var j :| 0 <= j < |ws| && ws[j].hostname == h;
      assert ws[j] in ws;
      assert LabelTargeted(ws[j], targets);
    }
  }

  /** Writing the state key leaves every other key as it was at the start of the pass. */
  lemma StateWriteKeepsRest(db0: Db, before: Db, v: Value)
    requires before.entries - {StateKey} == db0.entries - {StateKey}
    ensures before.Put(StateKey, v, None).entries - {StateKey} == db0.entries - {StateKey}
  {
    assert before.Put(StateKey, v, None).entries - {StateKey} == before.entries - {StateKey};
  }

  /** The pass's loop invariant is kept by one more step. */
  lemma PassStep(db0: Db, before: Db, after: Db, sch: seq<ScheduleSpec>, report: seq<Step>, step: Step,
                 md5: Digest, next: CronNext, hostname: string, now: int, fails: Fault -> bool)
    requires |report| < |sch|
    requires ReadState(before) == StateDuring(db0, sch, report, now)
    requires StepsFit(sch, report, md5, next, hostname, now, db0, fails)
    requires StepFits(step, sch[|report|], OwnsMod3(md5, sch[|report|].name, hostname),
                      DueCheck(next, StateDuring(db0, sch, report, now), sch[|report|], now), db0, fails)
    requires step.Executed? ==> ReadState(before).Ok?
    requires after == (if step.Executed? then before.Put(StateKey, StateTable(ReadState(before).value[sch[|report|].name := now]), None) else before)
    ensures ExecutedNames(sch, report + [step]) == ExecutedNames(sch, report) + (if step.Executed? then [sch[|report|].name] else [])
    ensures SentBy(report + [step]) == SentBy(report) + StepSent(step)
    ensures ReadState(after) == StateDuring(db0, sch, report + [step], now)
    ensures StepsFit(sch, report + [step], md5, next, hostname, now, db0, fails)
  {
    StepAppended(sch, report, step);
    StateAppended(db0, before, after, sch, report, step, now);
    FitsAppended(sch, report, step, md5, next, hostname, now, db0, fails);
  }

  lemma StateAppended(db0: Db, before: Db, after: Db, sch: seq<ScheduleSpec>, report: seq<Step>, step: Step, now: int)
    requires |report| < |sch|
    requires ReadState(before) == StateDuring(db0, sch, report, now)
    requires step.Executed? ==> ReadState(before).Ok?
    requires after == (if step.Executed? then before.Put(StateKey, StateTable(ReadState(before).value[sch[|report|].name := now]), None) else before)
    ensures ReadState(after) == StateDuring(db0, sch, report + [step], now)
  {
    StepAppended(sch, report, step);
    if step.Executed? {
      var n := sch[|report|].name;
      var m := ReadState(db0).value;
      var stamped := Stamped(m, ExecutedNames(sch, report), now);
      assert ReadState(before) == Ok(stamped);
      StampedAppend(m, ExecutedNames(sch, report), n, now);
      assert after.Get(StateKey) == Some(StateTable(stamped[n := now]));
      assert ReadState(after) == Ok(stamped[n := now]);
      assert ExecutedNames(sch, report + [step]) == ExecutedNames(sch, report) + [n];
    } else {
      assert ExecutedNames(sch, report + [step]) == ExecutedNames(sch, report);
    }
  }

  lemma StepAppended(sch: seq<ScheduleSpec>, report: seq<Step>, step: Step)
    requires |report| < |sch|
    ensures ExecutedNames(sch, report + [step]) == ExecutedNames(sch, report) + (if step.Executed? then [sch[|report|].name] else [])
    ensures SentBy(report + [step]) == SentBy(report) + StepSent(step)
  {
    assert (report + [step])[..|report|] == report;
  }

  lemma FitsAppended(sch: seq<ScheduleSpec>, report: seq<Step>, step: Step, md5: Digest, next: CronNext,
                     hostname: string, now: int, db0: Db, fails: Fault -> bool)
    requires |report| < |sch|
    requires StepsFit(sch, report, md5, next, hostname, now, db0, fails)
    requires StepFits(step, sch[|report|], OwnsMod3(md5, sch[|report|].name, hostname),
                      DueCheck(next, StateDuring(db0, sch, report, now), sch[|report|], now), db0, fails)
    ensures StepsFit(sch, report + [step], md5, next, hostname, now, db0, fails)
  {
    var r := report + [step];
    forall j | 0 <= j < |r|
      ensures StepFits(r[j], sch[j], OwnsMod3(md5, sch[j].name, hostname),
                       DueCheck(next, StateDuring(db0, sch, r[..j], now), sch[j], now), db0, fails)
    {
      if j < |report| {
        assert r[..j] == report[..j];
        assert r[j] == report[j];
      } else {
        assert r[..j] == report;
      }
    }
  }
}
