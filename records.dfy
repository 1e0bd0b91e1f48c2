/** The JSON documents the workers exchange through the coordination store. */
module Records {
  import opened Wrappers

  /** Namespace of the worker registry keys (`celeroot:worker:<hostname>`). */
  const WorkerPrefix: string := "celeroot:worker:"

  function WorkerKey(hostname: string): string {
    WorkerPrefix + hostname
  }

  /**
   * A registered worker. `role` is `None` when the record has no "role" key;
   * a record without "labels" is read as having none.
   */
  datatype WorkerRecord = WorkerRecord(
    hostname: string,
    role: Option<string>,
    labels: map<string, string>,
    started: int,
    lastSeen: int,
    status: string)

  /** A target selector: an optional required role and required labels. */
  datatype Selector = Selector(role: Option<string>, labels: map<string, string>)

  /** A target entry; one without "selector" carries the empty selector. */
  datatype Target = Target(selector: Selector)

  const EmptySelector: Selector := Selector(None, map[])

  /**
   * A schedule as stored in the cluster document. `task` is `None` when the
   * entry has no "task" key, which makes the lookup `schedule["task"]` raise.
   */
  datatype ScheduleSpec = ScheduleSpec(
    name: string,
    cron: string,
    task: Option<string>,
    targets: seq<Target>,
    enabled: bool)

  /** The cluster document under `celeroot:cluster:config` (its `spec.schedules`). */
  datatype ClusterDoc = ClusterDoc(schedules: seq<ScheduleSpec>)

  /** One submission of a named task to one worker. */
  datatype Dispatch = Dispatch(task: string, host: string)

  /** The hostnames of a sequence of dispatches, in order. */
  function Hosts(ds: seq<Dispatch>): seq<string> {
    seq(|ds|, i requires 0 <= i < |ds| => ds[i].host)
  }

  /** The hostnames of a sequence of worker records, in order. */
  function Names(ws: seq<WorkerRecord>): seq<string> {
    seq(|ws|, i requires 0 <= i < |ws| => ws[i].hostname)
  }

  predicate Distinct<T(==)>(s: seq<T>) {
    forall i, j :: 0 <= i < j < |s| ==> s[i] != s[j]
  }

  lemma DistinctAppend<T>(s: seq<T>, x: T)
    requires Distinct(s) && x !in s
    ensures Distinct(s + [x])
  {
  }
}
