/**
 * Worker start-up and shut-down: the worker writes its record into the
 * registry with a 300 s expiry, then starts its embedded scheduler; on
 * shut-down it stops the scheduler and deletes the record. Store faults are
 * logged and swallowed. A process-wide slot makes initialisation one-shot.
 */
module WorkerStartup {
  import opened Wrappers
  import opened Records
  import opened Store
  import opened Oracles
  import EmbeddedScheduler
  import TaskScheduler

  const RecordTtl: nat := 300

  /** An environment variable, or the default when it is unset. */
  function EnvOr(env: map<string, string>, name: string, default: string): (v: string)
    ensures name in env ==> v == env[name]
    ensures name !in env ==> v == default
  {
    if name in env then env[name] else default
  }

  /** The record a worker registers at time `now`; its role label always repeats its role. */
  function Registration(hostname: string, role: string, environment: string, now: int): (w: WorkerRecord)
    ensures w.hostname == hostname && w.status == "active"
    ensures w.role.Some? && "role" in w.labels && w.labels["role"] == w.role.value
    ensures w.labels.Keys == {"role", "environment"} && w.labels["environment"] == environment
    ensures w.started == now && w.lastSeen == now
  {
    WorkerRecord(hostname, Some(role), map["role" := role, "environment" := environment], now, now, "active")
  }

  /**
   * The record is what both schedulers' selectors look at: a selector naming
   * the worker's role, as role or as the `role` label, picks it out in either
   * scheduler, and so does one naming its environment label.
   */
  lemma RegistrationIsSelectable(hostname: string, role: string, environment: string, now: int)
    ensures var w := Registration(hostname, role, environment, now);
      && EmbeddedScheduler.Matches(w, Selector(Some(role), map["role" := role]))
      && EmbeddedScheduler.Matches(w, Selector(None, map["environment" := environment]))
      && TaskScheduler.MatchesLabels(w, Selector(None, map["role" := role, "environment" := environment]))
  {
  }

  /** The store after a registration: the record written, then its expiry set. */
  function Registered(db: Db, w: WorkerRecord): Db {
    db.Put(WorkerKey(w.hostname), Worker(w), None).ExpireIn(WorkerKey(w.hostname), RecordTtl).0
  }

  /**
   * Registration happens once and nothing refreshes it: the record is visible
   * to registry scans for 300 s and gone from them afterwards.
   */
  lemma {:induction false} RegistrationLapses(db: Db, w: WorkerRecord, d: nat)
    ensures d < RecordTtl ==> w in EmbeddedScheduler.LiveRecords(Registered(db, w).Tick(d))
    ensures d >= RecordTtl ==> WorkerKey(w.hostname) !in Registered(db, w).Tick(d).LiveKeys(WorkerPrefix)
  {
    var later := Registered(db, w).Tick(d);
    var key := WorkerKey(w.hostname);
    assert key in later.entries && later.entries[key] == Entry(Worker(w), Some(db.clock + RecordTtl));
    if d < RecordTtl {
      assert key in later.LiveKeys(WorkerPrefix);
    }
  }

  /** When the expiry call fails, the record written just before never lapses. */
  lemma UnexpiredRecordStays(db: Db, w: WorkerRecord, d: nat)
    ensures w in EmbeddedScheduler.LiveRecords(db.Put(WorkerKey(w.hostname), Worker(w), None).Tick(d))
  {
    var later := db.Put(WorkerKey(w.hostname), Worker(w), None).Tick(d);
    assert WorkerKey(w.hostname) in later.LiveKeys(WorkerPrefix);
  }

  datatype Fault = RecordWrite | RecordExpire | RecordDelete

  class Startup {
    const hostname: string
    const role: string
    const env: map<string, string>
    const store: Store
    const runtime: EmbeddedScheduler.Runtime
    const md5: Digest
    const cronNext: CronNext

    constructor (env: map<string, string>, store: Store, runtime: EmbeddedScheduler.Runtime, md5: Digest, cronNext: CronNext)
      ensures hostname == EnvOr(env, "CELERY_WORKER_HOSTNAME", "unknown")
      ensures role == EnvOr(env, "CELERY_WORKER_ROLE", "worker")
      ensures this.env == env && this.store == store && this.runtime == runtime
      ensures this.md5 == md5 && this.cronNext == cronNext
    {
      hostname := EnvOr(env, "CELERY_WORKER_HOSTNAME", "unknown");
      role := EnvOr(env, "CELERY_WORKER_ROLE", "worker");
      this.env := env;
      this.store := store;
      this.runtime := runtime;
      this.md5 := md5;
      this.cronNext := cronNext;
    }

    /** This worker's record at time `now`. */
    function Record(now: int): WorkerRecord {
      Registration(hostname, role, EnvOr(env, "ENVIRONMENT", "development"), now)
    }

    /**
     * Write the record, then give it its expiry; a fault in either call is
     * swallowed, so a failed expiry leaves a record without one.
     */
    method RegisterWorker(fails: Fault -> bool) returns (ok: bool)
      modifies store
      ensures ok <==> !fails(RecordWrite) && !fails(RecordExpire)
      ensures fails(RecordWrite) ==> store.db == old(store.db)
      ensures !fails(RecordWrite) ==>
                store.db == Db(old(store.db.entries)[WorkerKey(hostname) := Entry(Worker(Record(old(store.db.clock))),
                                 if fails(RecordExpire) then None else Some(old(store.db.clock) + RecordTtl))],
                               old(store.db.clock))
    {
      if fails(RecordWrite) {
        return false;
      }
      var key := WorkerKey(hostname);
      store.Set(key, Worker(Record(store.db.clock)));
      if fails(RecordExpire) {
        return false;
      }
      var _ := store.Expire(key, RecordTtl);
      ok := true;
    }

    /** Register, then start the embedded scheduler whether or not registration went through. */
    method InitializeWorker(fails: Fault -> bool)
      requires runtime.Valid()
      modifies store, runtime
      ensures runtime.Valid()
      ensures fails(RecordWrite) ==> store.db == old(store.db)
      ensures !fails(RecordWrite) ==>
                store.db == Db(old(store.db.entries)[WorkerKey(hostname) := Entry(Worker(Record(old(store.db.clock))),
                                 if fails(RecordExpire) then None else Some(old(store.db.clock) + RecordTtl))],
                               old(store.db.clock))
      ensures old(runtime.instance) != null ==> runtime.instance == old(runtime.instance)
      ensures old(runtime.instance) == null ==>
                runtime.instance != null && fresh(runtime.instance)
                && runtime.instance.hostname == hostname && runtime.instance.store == store && runtime.instance.running
    {
      var _ := RegisterWorker(fails);
      runtime.StartEmbedded(hostname, store, md5, cronNext);
    }

    /** Stop the scheduler, then delete the record; a failed delete is swallowed. */
    method CleanupWorker(fails: Fault -> bool)
      modifies store, runtime, runtime.instance
      ensures runtime.instance == null && runtime.Valid()
      ensures old(runtime.instance) != null ==> !old(runtime.instance).running
      ensures store.db == if fails(RecordDelete) then old(store.db) else old(store.db).Del(WorkerKey(hostname))
    {
      runtime.StopEmbedded();
      if fails(RecordDelete) {
        return;
      }
      store.Delete(WorkerKey(hostname));
    }
  }

  /** The process-wide `_startup` slot; it is set once and never cleared. */
  class Process {
    var startup: Startup?
    const env: map<string, string>
    const store: Store
    const runtime: EmbeddedScheduler.Runtime
    const md5: Digest
    const cronNext: CronNext

    ghost predicate Valid()
      reads this, startup, runtime, runtime.instance
    {
      && runtime.Valid()
      && (startup != null ==> startup.store == store && startup.runtime == runtime)
    }

    constructor (env: map<string, string>, store: Store, runtime: EmbeddedScheduler.Runtime, md5: Digest, cronNext: CronNext)
      requires runtime.Valid()
      ensures Valid() && startup == null
      ensures this.env == env && this.store == store && this.runtime == runtime
      ensures this.md5 == md5 && this.cronNext == cronNext
    {
      startup := null;
      this.env := env;
      this.store := store;
      this.runtime := runtime;
      this.md5 := md5;
      this.cronNext := cronNext;
    }

    /** Initialise once: later calls change nothing. */
    method InitializeWorker(fails: Fault -> bool)
      requires Valid()
      modifies this, store, runtime
      ensures Valid() && startup != null
      ensures old(startup) != null ==>
                startup == old(startup) && store.db == old(store.db) && runtime.instance == old(runtime.instance)
      ensures old(startup) == null ==>
                && fresh(startup)
                && startup.hostname == EnvOr(env, "CELERY_WORKER_HOSTNAME", "unknown")
                && startup.role == EnvOr(env, "CELERY_WORKER_ROLE", "worker")
                && (fails(RecordWrite) ==> store.db == old(store.db))
                && (!fails(RecordWrite) ==>
                      store.db.entries == old(store.db.entries)[WorkerKey(startup.hostname) :=
                        Entry(Worker(startup.Record(old(store.db.clock))),
                              if fails(RecordExpire) then None else Some(old(store.db.clock) + RecordTtl))])
                && (old(runtime.instance) == null ==> runtime.instance != null && runtime.instance.hostname == startup.hostname)
    {
      if startup != null {
        return;
      }
      var s := new Startup(env, store, runtime, md5, cronNext);
      s.InitializeWorker(fails);
      startup := s;
    }

    /** Clean up through the slot; with no initialisation before, nothing happens. */
    method CleanupWorker(fails: Fault -> bool)
      requires Valid()
      modifies store, runtime, runtime.instance
      ensures Valid()
      ensures old(startup) == null ==> store.db == old(store.db) && runtime.instance == old(runtime.instance)
      ensures old(startup) != null ==>
                runtime.instance == null
                && store.db == if fails(RecordDelete) then old(store.db) else old(store.db).Del(WorkerKey(startup.hostname))
    {
      if startup != null {
        startup.CleanupWorker(fails);
      }
    }
  }
}
