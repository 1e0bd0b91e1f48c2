/**
 * The coordination store (Redis) as a key -> (value, expiry) map with a
 * logical clock in seconds. A key is live while it has no expiry or the clock
 * is before its expiry; an expired key behaves exactly like an absent one.
 */
module Store {
  import opened Wrappers
  import opened Records

  /**
   * What a key holds. `Opaque` is text that does not parse as the document a
   * reader expects (bad JSON, a bad ISO-8601 timestamp); `Stamp` is an
   * ISO-8601 timestamp and `Holder` the lock value `hostname:timestamp`, both
   * plain text that is not JSON; the other three are JSON objects.
   */
  datatype Value =
    | Opaque(text: string)
    | Stamp(time: int)
    | Holder(host: string, since: int)
    | Worker(record: WorkerRecord)
    | Cluster(doc: ClusterDoc)
    | StateTable(runs: map<string, int>)
  {
    predicate IsJsonObject() {
      Worker? || Cluster? || StateTable?
    }
  }

  datatype Entry = Entry(value: Value, expiry: Option<int>)

  predicate LiveAt(e: Entry, now: int) {
    e.expiry.None? || now < e.expiry.value
  }

  datatype Db = Db(entries: map<string, Entry>, clock: int) {

    predicate Has(key: string) {
      key in entries && LiveAt(entries[key], clock)
    }

    /** GET: the value of a live key. */
    function Get(key: string): Option<Value> {
      if Has(key) then Some(entries[key].value) else None
    }

    /** SET key value [EX ttl]: a plain SET also clears an earlier expiry. */
    function Put(key: string, v: Value, ttl: Option<nat>): Db {
      Db(entries[key := Entry(v, if ttl.Some? then Some(clock + ttl.value) else None)], clock)
    }

    /** SET key value NX EX ttl: writes only when the key is not live. */
    function PutIfAbsent(key: string, v: Value, ttl: nat): (Db, bool) {
      if Has(key) then (this, false) else (Put(key, v, Some(ttl)), true)
    }

    /** DEL key. */
    function Del(key: string): Db {
      Db(entries - {key}, clock)
    }

    /** EXPIRE key ttl: only a live key gets the new expiry. */
    function ExpireIn(key: string, ttl: nat): (Db, bool) {
      if Has(key) then (Db(entries[key := Entry(entries[key].value, Some(clock + ttl))], clock), true)
      else (this, false)
    }

    /** The clock moves forward; nothing is written. */
    function Tick(d: nat): Db {
      Db(entries, clock + d)
    }

    /** KEYS prefix*: the live keys in the namespace. */
    function LiveKeys(prefix: string): set<string> {
      set k | k in entries && prefix <= k && Has(k)
    }
  }

  /**
   * Lock exclusivity: once `PutIfAbsent` has succeeded, every further
   * `PutIfAbsent` on that key fails until the TTL has elapsed, whoever asks.
   */
  lemma AcquiredKeyRefusesOthers(db: Db, key: string, v: Value, w: Value, ttl: nat, d: nat)
    requires db.PutIfAbsent(key, v, ttl).1
    requires d < ttl
    ensures !db.PutIfAbsent(key, v, ttl).0.Tick(d).PutIfAbsent(key, w, ttl).1
    ensures db.PutIfAbsent(key, v, ttl).0.Tick(d).PutIfAbsent(key, w, ttl).0
            == db.PutIfAbsent(key, v, ttl).0.Tick(d)
  {
  }

  /** A key written with a TTL and never deleted can be acquired again once the TTL has elapsed. */
  lemma ExpiredKeyIsAcquirable(db: Db, key: string, v: Value, w: Value, ttl: nat, d: nat)
    requires db.PutIfAbsent(key, v, ttl).1
    requires d >= ttl
    ensures db.PutIfAbsent(key, v, ttl).0.Tick(d).PutIfAbsent(key, w, ttl).1
  {
  }

  /**
   * Any number of holders race for one key at one instant; the store applies
   * their atomic set-if-absent calls in some order. Returns who succeeded.
   */
  function RaceForKey(db: Db, key: string, attempts: seq<Value>, ttl: nat): (r: (Db, seq<bool>))
    ensures |r.1| == |attempts|
    ensures r.0.clock == db.clock
    decreases |attempts|
  {
    if attempts == [] then (db, [])
    else
      var (db1, ok) := db.PutIfAbsent(key, attempts[0], ttl);
      var (db2, oks) := RaceForKey(db1, key, attempts[1..], ttl);
      (db2, [ok] + oks)
  }

  function CountTrue(bs: seq<bool>): nat {
    if bs == [] then 0 else (if bs[0] then 1 else 0) + CountTrue(bs[1..])
  }

  /**
   * In any order of arrival, at most one of the racing holders succeeds;
   * exactly one does when the key was free, and it is the first to arrive.
   */
  lemma {:induction false} RaceHasOneWinner(db: Db, key: string, attempts: seq<Value>, ttl: nat)
    requires ttl > 0
    ensures CountTrue(RaceForKey(db, key, attempts, ttl).1) <= 1
    ensures db.Has(key) ==> CountTrue(RaceForKey(db, key, attempts, ttl).1) == 0
    ensures !db.Has(key) && attempts != [] ==>
              CountTrue(RaceForKey(db, key, attempts, ttl).1) == 1 && RaceForKey(db, key, attempts, ttl).1[0]
    decreases |attempts|
  {
    if attempts != [] {
      var (db1, ok) := db.PutIfAbsent(key, attempts[0], ttl);
      assert db1.Has(key);
      HeldKeyRefusesAll(db1, key, attempts[1..], ttl);
      if db.Has(key) {
        assert db1 == db;
      }
    }
  }

  lemma {:induction false} HeldKeyRefusesAll(db: Db, key: string, attempts: seq<Value>, ttl: nat)
    requires db.Has(key)
    ensures CountTrue(RaceForKey(db, key, attempts, ttl).1) == 0
    ensures RaceForKey(db, key, attempts, ttl).0 == db
    decreases |attempts|
  {
    if attempts != [] {
      HeldKeyRefusesAll(db, key, attempts[1..], ttl);
    }
  }

  /** The client interface: each call is one atomic single-key operation. */
  class Store {
    var db: Db

    constructor (clock: int)
      ensures db == Db(map[], clock)
    {
      db := Db(map[], clock);
    }

    method Get(key: string) returns (v: Option<Value>)
      ensures v == db.Get(key)
    {
      v := db.Get(key);
    }

    /** SET without an expiry. */
    method Set(key: string, v: Value)
      modifies this
      ensures db == old(db).Put(key, v, None)
    {
      db := db.Put(key, v, None);
    }

    /** SET key value NX EX ttl; `ok` is the truthiness of the reply. */
    method SetNx(key: string, v: Value, ttl: nat) returns (ok: bool)
      modifies this
      ensures ok == !old(db).Has(key)
      ensures db == old(db).PutIfAbsent(key, v, ttl).0
    {
      var r := db.PutIfAbsent(key, v, ttl);
      db, ok := r.0, r.1;
    }

    method Delete(key: string)
      modifies this
      ensures db == old(db).Del(key)
    {
      db := db.Del(key);
    }

    method Expire(key: string, ttl: nat) returns (ok: bool)
      modifies this
      ensures ok == old(db).Has(key)
      ensures db == old(db).ExpireIn(key, ttl).0
    {
      var r := db.ExpireIn(key, ttl);
      db, ok := r.0, r.1;
    }

    /** Time passes between calls. */
    method Advance(d: nat)
      modifies this
      ensures db == old(db).Tick(d)
    {
      db := db.Tick(d);
    }

    /** KEYS prefix*: every live key of the namespace once, in no promised order. */
    method Keys(prefix: string) returns (ks: seq<string>)
      ensures Distinct(ks)
      ensures forall k :: k in ks <==> k in db.LiveKeys(prefix)
    {
      var pending := db.LiveKeys(prefix);
      ks := [];
      while pending != {}
        invariant pending <= db.LiveKeys(prefix)
        invariant forall k :: k in db.LiveKeys(prefix) <==> k in ks || k in pending
        invariant forall i :: 0 <= i < |ks| ==> ks[i] !in pending
        invariant Distinct(ks)
        decreases pending
      {
        var k :| k in pending;
        ks := ks + [k];
        pending := pending - {k};
      }
    }
  }
}
