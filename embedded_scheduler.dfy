/**
 * The scheduler each worker runs in a background thread: one poll cycle over
 * the schedules of the cluster document, with hash-bucket ownership, the cron
 * due check against persisted last-run state, a set-if-absent lock with a
 * 300 s expiry released on every path, and dispatch to the workers selected by
 * the schedule's targets, deduplicated by hostname. Also the module-level
 * singleton that starts and stops one scheduler per process.
 */
module EmbeddedScheduler {
  import opened Wrappers
  import opened Records
  import opened Store
  import opened Oracles

  const ConfigKey: string := "celeroot:cluster:config"
  const LockPrefix: string := "celeroot:schedule:lock:"
  const StatePrefix: string := "celeroot:schedule:state:"
  const LockTtl: nat := 300

  /** The only task names that lead to a submission; any other is logged and skipped. */
  const KnownTasks: set<string> := {"check-security-updates", "cleanup-unused-packages", "update-package-cache"}

  function LockKey(name: string): string {
    LockPrefix + name
  }

  function StateKey(name: string): string {
    StatePrefix + name
  }

  /** The lock, state, registry and config namespaces never share a key. */
  lemma KeyspacesDisjoint(a: string, b: string)
    ensures LockKey(a) != StateKey(b)
    ensures LockKey(a) != ConfigKey && StateKey(b) != ConfigKey
    ensures !(WorkerPrefix <= LockKey(a)) && !(WorkerPrefix <= StateKey(b))
    ensures LockKey(a) == LockKey(b) ==> a == b
    ensures StateKey(a) == StateKey(b) ==> a == b
  {
    assert LockKey(a)[18] == 'l' && StateKey(b)[18] == 's';
    assert LockKey(a)[9] == 's' && StateKey(b)[9] == 's' && WorkerPrefix[9] == 'w';
    assert |ConfigKey| == 23 && ConfigKey[9] == 'c';
    if LockKey(a) == LockKey(b) {
      assert a == LockKey(a)[|LockPrefix|..] == LockKey(b)[|LockPrefix|..] == b;
    }
    if StateKey(a) == StateKey(b) {
      assert a == StateKey(a)[|StatePrefix|..] == StateKey(b)[|StatePrefix|..] == b;
    }
  }

  // ---------------------------------------------------------------------------
  // Pure decisions

  /** A worker matches when it has the selector's role (if one is given) and every selector label. */
  predicate Matches(w: WorkerRecord, s: Selector) {
    && (s.role.Some? ==> w.role == s.role)
    && forall k :: k in s.labels ==> k in w.labels && w.labels[k] == s.labels[k]
  }

  /** The empty selector matches every worker. */
  lemma EmptySelectorMatchesAll(w: WorkerRecord)
    ensures Matches(w, EmptySelector)
  {
  }

  /** Requiring one more label can only shrink the set of matching workers. */
  lemma LabelRequirementNarrows(ws: set<WorkerRecord>, s: Selector, key: string, value: string)
    requires key !in s.labels
    ensures (set w | w in ws && Matches(w, s.(labels := s.labels[key := value])))
            <= (set w | w in ws && Matches(w, s))
  {
    forall w | w in ws && Matches(w, s.(labels := s.labels[key := value]))
      ensures Matches(w, s)
    {
      forall k | k in s.labels
        ensures k in w.labels && w.labels[k] == s.labels[k]
      {
        assert k != key;
        assert s.labels[key := value][k] == s.labels[k];
      }
    }
  }

  /** A worker evaluates a schedule when the md5 of both names fall in the same of ten buckets. */
  predicate Owns(md5: Digest, name: string, host: string) {
    md5(name) % 10 == md5(host) % 10
  }

  /**
   * Ownership partitions the schedules by bucket: workers in one bucket
   * agree on every schedule, workers in different buckets never share one.
   */
  lemma OwnershipIsByBucket(md5: Digest, name: string, h1: string, h2: string)
    ensures md5(h1) % 10 == md5(h2) % 10 ==> (Owns(md5, name, h1) <==> Owns(md5, name, h2))
    ensures md5(h1) % 10 != md5(h2) % 10 ==> !(Owns(md5, name, h1) && Owns(md5, name, h2))
  {
  }

  /**
   * A fleet whose members cover all ten md5 buckets owns every schedule, and
   * each schedule then has exactly the members of its own bucket as owners.
   */
  /** Some member of the fleet hashes into bucket `b`. */
  predicate BucketOccupied(md5: Digest, fleet: set<string>, b: int) {
    exists h :: h in fleet && md5(h) % 10 == b
  }

  lemma CoveringFleetOwnsEverySchedule(md5: Digest, name: string, fleet: set<string>)
    requires forall b :: 0 <= b < 10 ==> BucketOccupied(md5, fleet, b)
    ensures exists h :: h in fleet && Owns(md5, name, h)
    ensures forall h :: h in fleet && Owns(md5, name, h) ==> md5(h) % 10 == md5(name) % 10
  {
    var b := md5(name) % 10;
    assert BucketOccupied(md5, fleet, b);
    var h :| h in fleet && md5(h) % 10 == b;
    assert Owns(md5, name, h);
  }

  /** A fleet that misses a bucket leaves every schedule of that bucket without an owner. */
  lemma EmptyBucketLeavesScheduleUnowned(md5: Digest, name: string, fleet: set<string>)
    requires forall h :: h in fleet ==> md5(h) % 10 != md5(name) % 10
    ensures forall h :: h in fleet ==> !Owns(md5, name, h)
  {
  }

  /** The last run read back from a state key: only an ISO timestamp parses. */
  function StoredLastRun(v: Option<Value>): Option<int> {
    if v.Some? && v.value.Stamp? then Some(v.value.time) else None
  }

  /** No usable last run counts as one day before now. */
  function EffectiveLastRun(stored: Option<int>, now: int): int {
    if stored.Some? then stored.value else now - Day
  }

  /** Due when now has reached the next boundary after the last run; an invalid expression is never due. */
  predicate Due(next: CronNext, expr: string, lastRun: int, now: int) {
    next(expr, lastRun).Some? && now >= next(expr, lastRun).value
  }

  /**
   * For a valid expression the schedule turns due exactly at the next boundary
   * after its last run and stays due at every later instant until the state
   * changes; an invalid expression is due at no instant.
   */
  lemma DueFromBoundaryOn(next: CronNext, expr: string, lastRun: int, now: int, later: int)
    requires now <= later
    ensures next(expr, lastRun).Some? ==>
              Due(next, expr, lastRun, next(expr, lastRun).value)
              && !Due(next, expr, lastRun, next(expr, lastRun).value - 1)
    ensures Due(next, expr, lastRun, now) ==> Due(next, expr, lastRun, later)
    ensures next(expr, lastRun).None? ==> !Due(next, expr, lastRun, now)
  {
  }

  /** A schedule whose state was just set to now is not due again at that instant. */
  lemma JustRanIsNotDue(next: CronNext, expr: string, now: int)
    requires Advancing(next)
    ensures !Due(next, expr, now, now)
  {
  }

  lemma UnreadableStateMeansOneDayBack(v: Option<Value>, now: int)
    requires v.None? || !v.value.Stamp?
    ensures EffectiveLastRun(StoredLastRun(v), now) == now - Day
  {
  }

  // ---------------------------------------------------------------------------
  // Store faults. All but the two around the lock's SET NX are caught where
  // they occur; those two escape the cycle and only the thread's loop catches them.

  datatype Fault =
    | ConfigRead
    | StateRead(schedule: string)
    | StateWrite(schedule: string)
    /** The SET NX of the lock raises, which ends the cycle. */
    | LockAcquire(schedule: string)
    /** The raising SET NX had already reached the server and written the lock. */
    | LockWritten(schedule: string)
    | LockRelease(schedule: string)
    | KeyScan(schedule: string, target: nat)
    | RecordRead(schedule: string, target: nat, key: string)
    | Submit(schedule: string, host: string)

  /** What happened to one schedule in one cycle (the source only logs this). */
  datatype Outcome =
    | NotOwned
    | NotDue
    | LockBusy
    /** The lock's SET NX raised; `written` says whether the lock was set all the same. */
    | LockRaised(written: bool)
    | Raised(released: bool)
    | Ran(sent: seq<Dispatch>, saved: bool, released: bool)
  {
    /** The lock key was set by this worker in this step. */
    predicate Acquired() {
      Raised? || Ran? || (LockRaised? && written)
    }

    predicate Saved() {
      Ran? && saved
    }

    predicate Released() {
      (Raised? || Ran?) && released
    }
  }

  /** The schedules of the cluster document, when it can be read. */
  function ConfigSchedules(db: Db, fails: Fault -> bool): seq<ScheduleSpec> {
    if !fails(ConfigRead) && db.Get(ConfigKey).Some? && db.Get(ConfigKey).value.Cluster?
    then db.Get(ConfigKey).value.doc.schedules
    else []
  }

  ghost predicate DueNow(next: CronNext, db: Db, s: ScheduleSpec, now: int, fails: Fault -> bool) {
    var stored := if fails(StateRead(s.name)) then None else StoredLastRun(db.Get(StateKey(s.name)));
    Due(next, s.cron, EffectiveLastRun(stored, now), now)
  }

  /** The records at the live worker keys that parse as worker records. */
  ghost function LiveRecords(db: Db): set<WorkerRecord> {
    set k | k in db.LiveKeys(WorkerPrefix) && db.entries[k].value.Worker? :: db.entries[k].value.record
  }

  ghost predicate Targeted(w: WorkerRecord, targets: seq<Target>) {
    exists i :: 0 <= i < |targets| && Matches(w, targets[i].selector)
  }

  /** Hostnames of the live workers some target selects. */
  ghost function TargetHosts(db: Db, targets: seq<Target>): set<string> {
    set w | w in LiveRecords(db) && Targeted(w, targets) :: w.hostname
  }

  /** One scan of the registry for target `i` runs without a fault and every record parses. */
  ghost predicate CleanScan(db: Db, name: string, i: nat, fails: Fault -> bool) {
    && !fails(KeyScan(name, i))
    && forall k :: k in db.LiveKeys(WorkerPrefix) ==> !fails(RecordRead(name, i, k)) && db.entries[k].value.Worker?
  }

  /** The store after a schedule held its lock: lock written, state maybe written, lock maybe deleted. */
  ghost function AfterLockedRun(db: Db, name: string, holder: Value, saved: bool, released: bool, now: int): Db {
    var locked := db.Put(LockKey(name), holder, Some(LockTtl));
    var stated := if saved then locked.Put(StateKey(name), Stamp(now), None) else locked;
    if released then stated.Del(LockKey(name)) else stated
  }

  function At(db: Db, key: string): Option<Entry> {
    if key in db.entries then Some(db.entries[key]) else None
  }

  /**
   * What a locked run leaves behind: the state key holds now exactly when it
   * was saved, the lock key is gone exactly when it was released (otherwise it
   * holds this worker's value until it expires), and nothing else changes.
   */
  lemma AfterLockedRunEffects(db: Db, name: string, holder: Value, saved: bool, released: bool, now: int)
    ensures var r := AfterLockedRun(db, name, holder, saved, released, now);
      && r.clock == db.clock
      && At(r, StateKey(name)) == (if saved then Some(Entry(Stamp(now), None)) else At(db, StateKey(name)))
      && At(r, LockKey(name)) == (if released then None else Some(Entry(holder, Some(db.clock + LockTtl))))
      && r.entries - {LockKey(name), StateKey(name)} == db.entries - {LockKey(name), StateKey(name)}
  {
    KeyspacesDisjoint(name, name);
  }

  /** Touching lock and state keys leaves the worker registry as it was. */
  lemma RegistryUnaffected(db: Db, name: string, holder: Value, saved: bool, released: bool, now: int)
    ensures var r := AfterLockedRun(db, name, holder, saved, released, now);
      && r.LiveKeys(WorkerPrefix) == db.LiveKeys(WorkerPrefix)
      && (forall k :: k in db.LiveKeys(WorkerPrefix) ==> r.entries[k] == db.entries[k])
      && LiveRecords(r) == LiveRecords(db)
  {
    KeyspacesDisjoint(name, name);
    var r := AfterLockedRun(db, name, holder, saved, released, now);
    assert forall k :: k in r.LiveKeys(WorkerPrefix) <==> k in db.LiveKeys(WorkerPrefix);
  }

  /** The lock a schedule takes does not change what a registry scan sees. */
  lemma ScanUnaffectedByLock(db: Db, s: ScheduleSpec, holder: Value, fails: Fault -> bool)
    ensures var r := db.Put(LockKey(s.name), holder, Some(LockTtl));
      && LiveRecords(r) == LiveRecords(db)
      && TargetHosts(r, s.targets) == TargetHosts(db, s.targets)
      && forall i :: CleanScan(r, s.name, i, fails) <==> CleanScan(db, s.name, i, fails)
  {
    RegistryUnaffected(db, s.name, holder, false, false, 0);
    assert AfterLockedRun(db, s.name, holder, false, false, 0) == db.Put(LockKey(s.name), holder, Some(LockTtl));
  }

  /**
   * Release deletes the lock without asking who holds it: when a run outlives
   * the TTL, a second worker takes the lock, and the first worker's release
   * then frees it for a third while the second is still running.
   */
  lemma ReleaseIgnoresHolder(db: Db, name: string, a: Value, b: Value, c: Value, d: nat)
    requires !db.Has(LockKey(name))
    requires d >= LockTtl
    ensures var held := db.PutIfAbsent(LockKey(name), a, LockTtl).0.Tick(d);
      && held.PutIfAbsent(LockKey(name), b, LockTtl).1
      && held.PutIfAbsent(LockKey(name), b, LockTtl).0.Del(LockKey(name)).PutIfAbsent(LockKey(name), c, LockTtl).1
  {
  }

  /**
   * Hostname-keyed deduplication, as the dict comprehension does it: one
   * record per hostname, hostnames in order of first appearance.
   */
  method UniqueByHostname(ws: seq<WorkerRecord>) returns (unique: seq<WorkerRecord>)
    ensures Distinct(Names(unique))
    ensures forall w :: w in unique ==> w in ws
    ensures forall w :: w in ws ==> w.hostname in Names(unique)
  {
    var byHost: map<string, WorkerRecord> := map[];
    var order: seq<string> := [];
    for i := 0 to |ws|
      invariant Distinct(order)
      invariant forall h :: h in order <==> h in byHost
      invariant forall h :: h in byHost ==> byHost[h] in ws && byHost[h].hostname == h
      invariant forall j :: 0 <= j < i ==> ws[j].hostname in byHost
    {
      var w := ws[i];
      if w.hostname !in byHost {
        order := order + [w.hostname];
      }
      byHost := byHost[w.hostname := w];
    }
    unique := [];
    for i := 0 to |order|
      invariant |unique| == i
      invariant forall j :: 0 <= j < i ==> unique[j] == byHost[order[j]]
    {
      unique := unique + [byHost[order[i]]];
    }
    forall w | w in ws
      ensures w.hostname in Names(unique)
    {
      var j :| 0 <= j < |order| && order[j] == w.hostname;
      assert Names(unique)[j] == w.hostname;
    }
  }

  // ---------------------------------------------------------------------------
  // The scheduler object

  /** The answer of `get_scheduler_status`; absent dictionary keys are `None`. */
  datatype StatusReport = StatusReport(running: bool, hostname: Option<string>, threadAlive: Option<bool>)

  class Scheduler {
    const hostname: string
    const store: Store
    const md5: Digest
    const cronNext: CronNext
    var running: bool
    /** Whether `scheduler_thread` has been set. */
    var hasThread: bool
    /** How many background threads `Start` has spawned. */
    var threadsSpawned: nat

    constructor (hostname: string, store: Store, md5: Digest, cronNext: CronNext)
      ensures this.hostname == hostname && this.store == store
      ensures this.md5 == md5 && this.cronNext == cronNext
      ensures !running && !hasThread && threadsSpawned == 0
    {
      this.hostname := hostname;
      this.store := store;
      this.md5 := md5;
      this.cronNext := cronNext;
      running := false;
      hasThread := false;
      threadsSpawned := 0;
    }

    /** Starting an already running scheduler does nothing. */
    method Start()
      modifies this`running, this`hasThread, this`threadsSpawned
      ensures running
      ensures old(running) ==> hasThread == old(hasThread) && threadsSpawned == old(threadsSpawned)
      ensures !old(running) ==> hasThread && threadsSpawned == old(threadsSpawned) + 1
    {
      if running {
        return;
      }
      running := true;
      hasThread := true;
      threadsSpawned := threadsSpawned + 1;
    }

    /** Stopping clears the flag; the thread reference stays set. */
    method Stop()
      modifies this`running
      ensures !running
    {
      running := false;
    }

    predicate ShouldHandle(s: ScheduleSpec) {
      Owns(md5, s.name, hostname)
    }

    method LastRun(name: string, fails: Fault -> bool) returns (t: Option<int>)
      ensures t == if fails(StateRead(name)) then None else StoredLastRun(store.db.Get(StateKey(name)))
      ensures t.Some? ==> !fails(StateRead(name)) && store.db.Get(StateKey(name)) == Some(Stamp(t.value))
    {
      if fails(StateRead(name)) {
        return None;
      }
      var v := store.Get(StateKey(name));
      t := StoredLastRun(v);
    }

    method ShouldRun(s: ScheduleSpec, now: int, fails: Fault -> bool) returns (due: bool)
      ensures due == DueNow(cronNext, store.db, s, now, fails)
      ensures due ==> cronNext(s.cron, EffectiveLastRun(
                        if fails(StateRead(s.name)) then None else StoredLastRun(store.db.Get(StateKey(s.name))), now)).Some?
    {
      var last := LastRun(s.name, fails);
      var start := if last.Some? then last.value else now - Day;
      var b := cronNext(s.cron, start);
      due := b.Some? && now >= b.value;
    }

    /**
     * SET NX with a 300 s expiry; None when the call raises. A raising call may
     * still have set the lock, and nothing here catches the error.
     */
    method TryAcquireLock(name: string, now: int, fails: Fault -> bool) returns (ok: Option<bool>)
      modifies store
      ensures ok.None? <==> fails(LockAcquire(name))
      ensures ok.Some? ==> ok.value == !old(store.db).Has(LockKey(name))
      ensures store.db == if fails(LockAcquire(name)) && !fails(LockWritten(name)) then old(store.db)
                          else old(store.db).PutIfAbsent(LockKey(name), Holder(hostname, now), LockTtl).0
    {
      if fails(LockAcquire(name)) {
        if fails(LockWritten(name)) {
          var unseen := store.SetNx(LockKey(name), Holder(hostname, now), LockTtl);
        }
        return None;
      }
      var taken := store.SetNx(LockKey(name), Holder(hostname, now), LockTtl);
      ok := Some(taken);
    }

    method ReleaseLock(name: string, fails: Fault -> bool) returns (released: bool)
      modifies store
      ensures released == !fails(LockRelease(name))
      ensures store.db == if released then old(store.db).Del(LockKey(name)) else old(store.db)
    {
      if fails(LockRelease(name)) {
        return false;
      }
      store.Delete(LockKey(name));
      released := true;
    }

    method UpdateState(name: string, runTime: int, fails: Fault -> bool) returns (saved: bool)
      modifies store
      ensures saved == !fails(StateWrite(name))
      ensures store.db == if saved then old(store.db).Put(StateKey(name), Stamp(runTime), None) else old(store.db)
    {
      if fails(StateWrite(name)) {
        return false;
      }
      store.Set(StateKey(name), Stamp(runTime));
      saved := true;
    }

    /**
     * The registry scan for one target. A fault or a record that does not
     * parse ends the scan early, keeping what was found so far.
     */
    method FindWorkers(sel: Selector, name: string, target: nat, fails: Fault -> bool) returns (ws: seq<WorkerRecord>)
      ensures forall w :: w in ws ==> w in LiveRecords(store.db) && Matches(w, sel)
      ensures CleanScan(store.db, name, target, fails) ==>
                forall w :: w in LiveRecords(store.db) && Matches(w, sel) ==> w in ws
    {
      ws := [];
      if fails(KeyScan(name, target)) {
        return;
      }
      var keys := store.Keys(WorkerPrefix);
      assert forall j :: 0 <= j < |keys| ==> keys[j] in store.db.LiveKeys(WorkerPrefix);
      var i := 0;
      while i < |keys|
        invariant 0 <= i <= |keys|
        invariant forall j :: 0 <= j < |keys| ==> keys[j] in store.db.LiveKeys(WorkerPrefix)
        invariant forall w :: w in ws ==> w in LiveRecords(store.db) && Matches(w, sel)
        invariant CleanScan(store.db, name, target, fails) ==>
                    forall j :: 0 <= j < i && Matches(store.db.entries[keys[j]].value.record, sel) ==>
                      store.db.entries[keys[j]].value.record in ws
      {
        var key := keys[i];
        if fails(RecordRead(name, target, key)) {
          return;
        }
        var v := store.Get(key);
        if v.Some? {
          if !v.value.Worker? {
            return;
          }
          if Matches(v.value.record, sel) {
            ws := ws + [v.value.record];
          }
        }
        i := i + 1;
      }
      if CleanScan(store.db, name, target, fails) {
        forall w | w in LiveRecords(store.db) && Matches(w, sel)
          ensures w in ws
        {
          var k :| k in store.db.LiveKeys(WorkerPrefix) && store.db.entries[k].value.Worker?
                   && store.db.entries[k].value.record == w;
          var j :| 0 <= j < |keys| && keys[j] == k;
        }
      }
    }

    /** The workers of every target in turn, duplicates kept. */
    method CollectTargets(s: ScheduleSpec, fails: Fault -> bool) returns (found: seq<WorkerRecord>)
      ensures forall w :: w in found ==> w in LiveRecords(store.db) && Targeted(w, s.targets)
      ensures (forall j :: 0 <= j < |s.targets| ==> CleanScan(store.db, s.name, j, fails)) ==>
                forall w :: w in LiveRecords(store.db) && Targeted(w, s.targets) ==> w in found
    {
      found := [];
      for i := 0 to |s.targets|
        invariant forall w :: w in found ==> w in LiveRecords(store.db) && Targeted(w, s.targets)
        invariant (forall j :: 0 <= j < |s.targets| ==> CleanScan(store.db, s.name, j, fails)) ==>
                    forall w, j :: 0 <= j < i && w in LiveRecords(store.db) && Matches(w, s.targets[j].selector) ==> w in found
      {
        var ws := FindWorkers(s.targets[i].selector, s.name, i, fails);
        found := found + ws;
      }
    }

    /**
     * Dispatch one schedule: collect the workers of every target, keep one per
     * hostname, and submit the task to each; a failed submission is logged and
     * skipped. Raises (returns None) only when the schedule has no task name.
     */
    method Execute(s: ScheduleSpec, fails: Fault -> bool) returns (sent: Option<seq<Dispatch>>)
      ensures sent.None? <==> s.task.None?
      ensures sent.Some? ==> Distinct(Hosts(sent.value))
      ensures sent.Some? ==> forall d :: d in sent.value ==>
                d.task == s.task.value && d.task in KnownTasks
                && d.host in TargetHosts(store.db, s.targets) && !fails(Submit(s.name, d.host))
      ensures sent.Some? && s.task.value in KnownTasks
              && (forall i :: 0 <= i < |s.targets| ==> CleanScan(store.db, s.name, i, fails)) ==>
                forall h :: h in TargetHosts(store.db, s.targets) && !fails(Submit(s.name, h)) ==> h in Hosts(sent.value)
    {
      if s.task.None? {
        return None;
      }
      var found := CollectTargets(s, fails);
      var unique := UniqueByHostname(found);
      var out := SubmitEach(s.task.value, s.name, Names(unique), fails);
      forall d | d in out
        ensures d.host in TargetHosts(store.db, s.targets)
      {
        var j :| 0 <= j < |unique| && Names(unique)[j] == d.host;
        assert unique[j] in found;
      }
      if s.task.value in KnownTasks && (forall j :: 0 <= j < |s.targets| ==> CleanScan(store.db, s.name, j, fails)) {
        forall h | h in TargetHosts(store.db, s.targets) && !fails(Submit(s.name, h))
          ensures h in Hosts(out)
        {
          var w :| w in LiveRecords(store.db) && Targeted(w, s.targets) && w.hostname == h;
          assert w in found;
          assert h in Names(unique);
        }
      }
      sent := Some(out);
    }

    /** Facts about one schedule's outcome that hold whatever the store held. */
    ghost predicate OutcomeFits(o: Outcome, s: ScheduleSpec, fails: Fault -> bool) {
      && (o.NotOwned? <==> !ShouldHandle(s))
      && (o.LockRaised? ==> fails(LockAcquire(s.name)))
      && (o.Raised? || o.Ran? ==> (o.Raised? <==> s.task.None?))
      && (o.Raised? || o.Ran? ==> o.released == !fails(LockRelease(s.name)))
      && (o.Ran? ==> o.saved == !fails(StateWrite(s.name)))
      && (o.Ran? ==> Distinct(Hosts(o.sent)))
      && (o.Ran? ==> forall d :: d in o.sent ==>
            d.task == s.task.value && d.task in KnownTasks && !fails(Submit(s.name, d.host)))
    }

    /**
     * One schedule of a cycle: owned, due, locked, executed, state saved only
     * when execution returned, lock released whatever happened.
     */
    method Process(s: ScheduleSpec, now: int, fails: Fault -> bool) returns (o: Outcome)
      modifies store
      ensures OutcomeFits(o, s, fails)
      ensures o.NotDue? <==> ShouldHandle(s) && !DueNow(cronNext, old(store.db), s, now, fails)
      ensures o.LockRaised? <==>
                ShouldHandle(s) && DueNow(cronNext, old(store.db), s, now, fails) && fails(LockAcquire(s.name))
      ensures o.LockRaised? ==> (o.written <==> fails(LockWritten(s.name)) && !old(store.db).Has(LockKey(s.name)))
      ensures o.LockBusy? <==>
                (ShouldHandle(s) && DueNow(cronNext, old(store.db), s, now, fails) && !fails(LockAcquire(s.name))
                 && old(store.db).Has(LockKey(s.name)))
      ensures o.Acquired() ==> !old(store.db).Has(LockKey(s.name))
      ensures !o.Acquired() ==> store.db == old(store.db)
      ensures o.Acquired() ==>
                store.db == AfterLockedRun(old(store.db), s.name, Holder(hostname, now), o.Saved(), o.Released(), now)
      ensures o.Ran? ==> forall d :: d in o.sent ==> d.host in TargetHosts(old(store.db), s.targets)
      ensures o.Ran? && s.task.value in KnownTasks
              && (forall i :: 0 <= i < |s.targets| ==> CleanScan(old(store.db), s.name, i, fails)) ==>
                forall h :: h in TargetHosts(old(store.db), s.targets) && !fails(Submit(s.name, h)) ==> h in Hosts(o.sent)
    {
      if !ShouldHandle(s) {
        return NotOwned;
      }
      var due := ShouldRun(s, now, fails);
      if !due {
        return NotDue;
      }
      ghost var db0 := store.db;
      var held := store.db.Has(LockKey(s.name));
      var locked := TryAcquireLock(s.name, now, fails);
      if locked.None? {
        return LockRaised(fails(LockWritten(s.name)) && !held);
      }
      if !locked.value {
        return LockBusy;
      }
      ScanUnaffectedByLock(db0, s, Holder(hostname, now), fails);
      var sent := Execute(s, fails);
      var saved := false;
      if sent.Some? {
        saved := UpdateState(s.name, now, fails);
      }
      var released := ReleaseLock(s.name, fails);
      if sent.None? {
        o := Raised(released);
      } else {
        o := Ran(sent.value, saved, released);
      }
    }

    /**
     * One poll cycle over the schedules of the cluster document, with a
     * per-schedule outcome report. The cycle ends early exactly when a lock's
     * SET NX raises. Only the lock and state keys of the configured schedules
     * change. A state key ends up holding now exactly
     * when some run of that schedule returned and its save went through; a
     * lock key is left alone unless this worker took it, and is then absent
     * unless one of its releases failed.
     */
    method CheckAndExecute(now: int, fails: Fault -> bool) returns (report: seq<Outcome>)
      modifies store
      ensures var sch := ConfigSchedules(old(store.db), fails);
        && |report| <= |sch|
        && (|report| < |sch| ==> report != [] && report[|report| - 1].LockRaised?)
        && (forall i :: 0 <= i < |report| - 1 ==> !report[i].LockRaised?)
        && store.db.clock == old(store.db.clock)
        && (forall i :: 0 <= i < |report| ==> OutcomeFits(report[i], sch[i], fails))
        && store.db.entries - Touched(sch) == old(store.db.entries) - Touched(sch)
        && (forall n :: At(store.db, StateKey(n)) ==
              if SavedFor(sch, report, n) then Some(Entry(Stamp(now), None)) else At(old(store.db), StateKey(n)))
        && (forall n :: At(store.db, LockKey(n)) ==
              if !AcquiredFor(sch, report, n) then At(old(store.db), LockKey(n))
              else if KeptFor(sch, report, n) then Some(Entry(Holder(hostname, now), Some(old(store.db.clock) + LockTtl)))
              else None)
    {
      var schedules: seq<ScheduleSpec> := [];
      if !fails(ConfigRead) {
        var v := store.Get(ConfigKey);
        if v.Some? && v.value.Cluster? {
          schedules := v.value.doc.schedules;
        }
      }
      assert schedules == ConfigSchedules(old(store.db), fails);
      ghost var db0 := store.db;
      report := [];
      var i := 0;
      var stopped := false;
      while i < |schedules| && !stopped
        invariant 0 <= i <= |schedules| && |report| == i
        invariant stopped ==> i > 0 && report[i - 1].LockRaised?
        invariant forall j :: 0 <= j < i - 1 ==> !report[j].LockRaised?
        invariant !stopped ==> forall j :: 0 <= j < i ==> !report[j].LockRaised?
        invariant store.db.clock == db0.clock
        invariant forall j :: 0 <= j < i ==> OutcomeFits(report[j], schedules[j], fails)
        invariant store.db.entries - Touched(schedules) == db0.entries - Touched(schedules)
        invariant forall n :: At(store.db, StateKey(n)) ==
                    if SavedFor(schedules, report, n) then Some(Entry(Stamp(now), None)) else At(db0, StateKey(n))
        invariant forall n :: At(store.db, LockKey(n)) ==
                    if !AcquiredFor(schedules, report, n) then At(db0, LockKey(n))
                    else if KeptFor(schedules, report, n) then Some(Entry(Holder(hostname, now), Some(db0.clock + LockTtl)))
                    else None
      {
        ghost var before := store.db;
        ghost var reportBefore := report;
        var o := Process(schedules[i], now, fails);
        report := report + [o];
        CycleStep(db0, before, store.db, schedules, reportBefore, i, o, Holder(hostname, now), now);
        stopped := o.LockRaised?;
        i := i + 1;
      }
    }
  }

  /** The lock and state keys of the given schedules. */
  ghost function Touched(sch: seq<ScheduleSpec>): set<string> {
    (set s | s in sch :: LockKey(s.name)) + (set s | s in sch :: StateKey(s.name))
  }

  ghost predicate SavedFor(sch: seq<ScheduleSpec>, report: seq<Outcome>, n: string) {
    exists i :: 0 <= i < |sch| && i < |report| && sch[i].name == n && report[i].Saved()
  }

  ghost predicate AcquiredFor(sch: seq<ScheduleSpec>, report: seq<Outcome>, n: string) {
    exists i :: 0 <= i < |sch| && i < |report| && sch[i].name == n && report[i].Acquired()
  }

  ghost predicate KeptFor(sch: seq<ScheduleSpec>, report: seq<Outcome>, n: string) {
    exists i :: 0 <= i < |sch| && i < |report| && sch[i].name == n && report[i].Acquired() && !report[i].Released()
  }

  /** The cycle's loop invariant is kept by one more schedule. */
  lemma CycleStep(db0: Db, before: Db, after: Db, sch: seq<ScheduleSpec>, report: seq<Outcome>, i: nat,
                  o: Outcome, holder: Value, now: int)
    requires i < |sch| && |report| == i
    requires before.clock == db0.clock
    requires before.entries - Touched(sch) == db0.entries - Touched(sch)
    requires forall n :: At(before, StateKey(n)) ==
               if SavedFor(sch, report, n) then Some(Entry(Stamp(now), None)) else At(db0, StateKey(n))
    requires forall n :: At(before, LockKey(n)) ==
               if !AcquiredFor(sch, report, n) then At(db0, LockKey(n))
               else if KeptFor(sch, report, n) then Some(Entry(holder, Some(db0.clock + LockTtl)))
               else None
    requires !o.Acquired() ==> after == before
    requires o.Acquired() ==> !before.Has(LockKey(sch[i].name))
    requires o.Acquired() ==> after == AfterLockedRun(before, sch[i].name, holder, o.Saved(), o.Released(), now)
    ensures after.clock == db0.clock
    ensures after.entries - Touched(sch) == db0.entries - Touched(sch)
    ensures forall n :: At(after, StateKey(n)) ==
              if SavedFor(sch, report + [o], n) then Some(Entry(Stamp(now), None)) else At(db0, StateKey(n))
    ensures forall n :: At(after, LockKey(n)) ==
              if !AcquiredFor(sch, report + [o], n) then At(db0, LockKey(n))
              else if KeptFor(sch, report + [o], n) then Some(Entry(holder, Some(db0.clock + LockTtl)))
              else None
  {
    OutcomeAppended(sch, report, i, o);
    if o.Acquired() {
      var m := sch[i].name;
      AfterLockedRunEffects(before, m, holder, o.Saved(), o.Released(), now);
      assert sch[i] in sch;
      SubtractMore(after.entries, before.entries, {LockKey(m), StateKey(m)}, Touched(sch));
      forall n
        ensures At(after, StateKey(n)) ==
                  if SavedFor(sch, report + [o], n) then Some(Entry(Stamp(now), None)) else At(db0, StateKey(n))
        ensures At(after, LockKey(n)) ==
                  if !AcquiredFor(sch, report + [o], n) then At(db0, LockKey(n))
                  else if KeptFor(sch, report + [o], n) then Some(Entry(holder, Some(db0.clock + LockTtl)))
                  else None
      {
        CycleStepAt(db0, before, after, sch, report, i, o, holder, now, n);
      }
    }
  }

  /** One name's lock and state keys after a schedule that took its lock. */
  lemma CycleStepAt(db0: Db, before: Db, after: Db, sch: seq<ScheduleSpec>, report: seq<Outcome>, i: nat,
                    o: Outcome, holder: Value, now: int, n: string)
    requires i < |sch| && |report| == i && o.Acquired()
    requires before.clock == db0.clock
    requires At(before, StateKey(n)) ==
               if SavedFor(sch, report, n) then Some(Entry(Stamp(now), None)) else At(db0, StateKey(n))
    requires At(before, LockKey(n)) ==
               if !AcquiredFor(sch, report, n) then At(db0, LockKey(n))
               else if KeptFor(sch, report, n) then Some(Entry(holder, Some(db0.clock + LockTtl)))
               else None
    requires !before.Has(LockKey(sch[i].name))
    requires after == AfterLockedRun(before, sch[i].name, holder, o.Saved(), o.Released(), now)
    ensures At(after, StateKey(n)) ==
              if SavedFor(sch, report + [o], n) then Some(Entry(Stamp(now), None)) else At(db0, StateKey(n))
    ensures At(after, LockKey(n)) ==
              if !AcquiredFor(sch, report + [o], n) then At(db0, LockKey(n))
              else if KeptFor(sch, report + [o], n) then Some(Entry(holder, Some(db0.clock + LockTtl)))
              else None
  {
    var m := sch[i].name;
    OutcomeAppended(sch, report, i, o);
    AfterLockedRunEffects(before, m, holder, o.Saved(), o.Released(), now);
    KeyspacesDisjoint(n, m);
    KeyspacesDisjoint(m, n);
    if n != m {
      UntouchedKey(after, before, m, StateKey(n));
      UntouchedKey(after, before, m, LockKey(n));
    } else if KeptFor(sch, report, m) {
      assert before.Has(LockKey(m));
    }
  }


  lemma SubtractMore<K, V>(a: map<K, V>, b: map<K, V>, small: set<K>, big: set<K>)
    requires small <= big && a - small == b - small
    ensures a - big == b - big
  {
    assert forall k :: k in a - big <==> k in b - big by {
      forall k ensures k in a - big <==> k in b - big {
        if k !in big {
          assert k !in small;
          assert k in a - small <==> k in b - small;
        }
      }
    }
    forall k | k in a - big ensures (a - big)[k] == (b - big)[k] {
      assert (a - small)[k] == (b - small)[k];
    }
  }

  lemma UntouchedKey(after: Db, before: Db, m: string, k: string)
    requires after.entries - {LockKey(m), StateKey(m)} == before.entries - {LockKey(m), StateKey(m)}
    requires k != LockKey(m) && k != StateKey(m)
    ensures At(after, k) == At(before, k)
  {
    assert k in after.entries <==> k in after.entries - {LockKey(m), StateKey(m)};
    assert k in before.entries <==> k in before.entries - {LockKey(m), StateKey(m)};
  }

  /** How the per-name summaries of the report change when one outcome is appended. */
  lemma OutcomeAppended(sch: seq<ScheduleSpec>, report: seq<Outcome>, i: nat, o: Outcome)
    requires i < |sch| && |report| == i
    ensures forall n :: SavedFor(sch, report + [o], n) <==> SavedFor(sch, report, n) || (n == sch[i].name && o.Saved())
    ensures forall n :: AcquiredFor(sch, report + [o], n) <==> AcquiredFor(sch, report, n) || (n == sch[i].name && o.Acquired())
    ensures forall n :: KeptFor(sch, report + [o], n) <==>
                          KeptFor(sch, report, n) || (n == sch[i].name && o.Acquired() && !o.Released())
  {
    var r := report + [o];
    assert forall j :: 0 <= j < i ==> r[j] == report[j];
    assert r[i] == o;
  }

  /** Submit the task once to each of the given hostnames; unknown tasks and failed submissions send nothing. */
  method SubmitEach(task: string, name: string, hosts: seq<string>, fails: Fault -> bool) returns (out: seq<Dispatch>)
    requires Distinct(hosts)
    ensures Distinct(Hosts(out))
    ensures forall d :: d in out ==> d.task == task && task in KnownTasks && d.host in hosts && !fails(Submit(name, d.host))
    ensures task in KnownTasks ==> forall h :: h in hosts && !fails(Submit(name, h)) ==> h in Hosts(out)
  {
    out := [];
    for i := 0 to |hosts|
      invariant Distinct(Hosts(out))
      invariant forall d :: d in out ==> d.task == task && task in KnownTasks && d.host in hosts[..i] && !fails(Submit(name, d.host))
      invariant task in KnownTasks ==> forall j :: 0 <= j < i && !fails(Submit(name, hosts[j])) ==> hosts[j] in Hosts(out)
    {
      var h := hosts[i];
      if task in KnownTasks && !fails(Submit(name, h)) {
        assert h !in hosts[..i];
        assert h !in Hosts(out);
        DistinctAppend(Hosts(out), h);
        assert Hosts(out + [Dispatch(task, h)]) == Hosts(out) + [h];
        out := out + [Dispatch(task, h)];
      }
    }
  }

  /** The module-level `_scheduler` slot: at most one scheduler per process. */
  class Runtime {
    var instance: Scheduler?

    /** A scheduler sits in the slot only while it is running. */
    ghost predicate Valid()
      reads this, instance
    {
      instance != null ==> instance.running
    }

    constructor ()
      ensures instance == null && Valid()
    {
      instance := null;
    }

    /** Creates and starts a scheduler only when the slot is empty. */
    method StartEmbedded(hostname: string, store: Store, md5: Digest, cronNext: CronNext)
      requires Valid()
      modifies this
      ensures Valid()
      ensures old(instance) != null ==> instance == old(instance)
      ensures old(instance) == null ==>
                && instance != null && fresh(instance)
                && instance.hostname == hostname && instance.store == store
                && instance.md5 == md5 && instance.cronNext == cronNext
                && instance.hasThread && instance.threadsSpawned == 1
    {
      if instance == null {
        var scheduler := new Scheduler(hostname, store, md5, cronNext);
        scheduler.Start();
        instance := scheduler;
      }
    }

    /** Stops the scheduler in the slot, if any, and empties the slot. */
    method StopEmbedded()
      modifies this, instance
      ensures instance == null && Valid()
      ensures old(instance) != null ==> !old(instance).running
    {
      if instance != null {
        instance.Stop();
        instance := null;
      }
    }

    /** `get_scheduler_status`; `alive` is what the thread's `is_alive()` would answer. */
    function Status(alive: bool): (r: StatusReport)
      reads this, instance
      ensures Valid() ==> (r.running <==> instance != null)
      ensures r.hostname.Some? <==> instance != null
      ensures instance == null ==> !r.running && r.threadAlive.None?
      ensures instance != null ==> r.running == instance.running && r.hostname == Some(instance.hostname)
      ensures instance != null && instance.hasThread ==> r.threadAlive == Some(alive)
      ensures instance != null && !instance.hasThread ==> r.threadAlive == Some(false)
    {
      if instance == null then StatusReport(false, None, None)
      else StatusReport(instance.running, Some(instance.hostname), Some(instance.hasThread && alive))
    }
  }
}
