# celeroot scheduling core, in Dafny

celeroot runs Celery workers that schedule their own maintenance jobs, with no
central beat process. Every worker polls the cluster document in Redis. It
evaluates the cron schedules it owns and takes a short-lived lock per schedule.
Then it hands the job to the workers that the schedule's selectors pick out of
the worker registry. This project models that core and proves properties of it:

- the embedded scheduler each worker runs (`EmbeddedScheduler`, one poll cycle);
- the older scheduler-manager task (`TaskScheduler`, one pass), with its own
  ownership, matching and state rules;
- worker registration and clean-up (`WorkerStartup`);
- the cluster topology model with its filters, cascading role removal and
  referential check (`ClusterConfig`);
- the APT job bodies (`Apt`): the `apt list` parser and the way each task sorts
  packages and hosts into outcomes.

Supporting modules:

- `Store`: Redis as a key → (value, expiry) map with a logical clock in whole
  seconds. The clients' `Store` class performs one atomic single-key operation
  per call.
- `Records`: the JSON documents kept in the store.
- `Oracles`: md5 as an uninterpreted `string -> nat`, and croniter's "next
  boundary after t" as a partial function. Only the schedulers' freshness
  lemmas assume that a boundary lies strictly after its start.
- `Text`: the Python `str` operations the APT tasks use.
- `Wrappers`: `Option` and `Result`.

Store faults are a `fails` predicate, used only where the source catches them.
The machine the APT tasks run on is a `Shell` oracle. It gives what the n-th
`execute_command` call of a run returns for the command line it was handed:
an exit code with both outputs already stripped, or the message of the
exception it raised. Time is integer seconds, and a dispatch is a
`Dispatch(task, host)` record in a returned list.

## Model

| member | source | states |
|---|---|---|
| EmbeddedScheduler.KeyspacesDisjoint | celeroot/worker/embedded_scheduler.py:25-28 | lock, state, registry and config keys never coincide; lock and state keys are injective in the schedule name |
| EmbeddedScheduler.EmptySelectorMatchesAll | celeroot/worker/embedded_scheduler.py:191-204 | the selector `{}` matches every worker record |
| EmbeddedScheduler.LabelRequirementNarrows | celeroot/worker/embedded_scheduler.py:191-204 | adding a label requirement gives a subset of the matching workers |
| EmbeddedScheduler.OwnershipIsByBucket | celeroot/worker/embedded_scheduler.py:92-101 | workers in the same md5 bucket agree on every schedule; workers in different buckets never both own one |
| EmbeddedScheduler.CoveringFleetOwnsEverySchedule | celeroot/worker/embedded_scheduler.py:92-101 | a fleet that covers all ten md5 buckets owns every schedule, and only the members in the schedule's bucket own it |
| EmbeddedScheduler.EmptyBucketLeavesScheduleUnowned | celeroot/worker/embedded_scheduler.py:92-101 | when no fleet member falls in a schedule's bucket, no member evaluates it |
| EmbeddedScheduler.DueFromBoundaryOn | celeroot/worker/embedded_scheduler.py:112-118 | with a valid expression a schedule turns due exactly at the next boundary after its last run and stays due at every later instant; with an invalid one it is due at no instant |
| EmbeddedScheduler.JustRanIsNotDue | celeroot/worker/embedded_scheduler.py:112-115 | a schedule whose state was just set to now is not due at that instant |
| EmbeddedScheduler.UnreadableStateMeansOneDayBack | celeroot/worker/embedded_scheduler.py:106-110 | an absent or unparseable state value counts as now minus one day |
| EmbeddedScheduler.AfterLockedRunEffects | celeroot/worker/embedded_scheduler.py:72-80 | a locked run changes only its lock key and its state key: state holds now iff saved; the lock is gone iff released, else holds this worker's value with a 300 s expiry |
| EmbeddedScheduler.RegistryUnaffected | celeroot/worker/embedded_scheduler.py:72-80 | lock and state writes leave the live registry keys, their entries and the parsed records unchanged |
| EmbeddedScheduler.ScanUnaffectedByLock | celeroot/worker/embedded_scheduler.py:120-126 | taking the lock changes neither the records a target scan sees nor whether the scan is clean |
| EmbeddedScheduler.ReleaseIgnoresHolder | celeroot/worker/embedded_scheduler.py:128-134 | after the TTL a second worker takes the lock; the first worker's release then lets a third take it too |
| EmbeddedScheduler.UniqueByHostname | celeroot/worker/embedded_scheduler.py:168 | the deduplicated list has distinct hostnames, keeps only records from the input, and keeps every input hostname |
| EmbeddedScheduler.Scheduler.constructor | celeroot/worker/embedded_scheduler.py:23-30 | a new scheduler is not running and has no thread |
| EmbeddedScheduler.Scheduler.Start | celeroot/worker/embedded_scheduler.py:34-42 | afterwards it is running; a second start spawns no second thread |
| EmbeddedScheduler.Scheduler.Stop | celeroot/worker/embedded_scheduler.py:44-49 | clears the running flag and keeps the thread reference |
| EmbeddedScheduler.Scheduler.LastRun | celeroot/worker/embedded_scheduler.py:136-145 | a read fault or an unparseable value gives None; a result is the stored timestamp |
| EmbeddedScheduler.Scheduler.ShouldRun | celeroot/worker/embedded_scheduler.py:103-118 | the due rule on the effective last run; when due, the next boundary exists and has been reached |
| EmbeddedScheduler.Scheduler.TryAcquireLock | celeroot/worker/embedded_scheduler.py:120-126 | raises iff the SET NX faults; otherwise succeeds iff the lock key is not live; the store gets `hostname:now` with a 300 s expiry when the SET succeeds, or when a raising SET had already reached the server, and is unchanged otherwise |
| EmbeddedScheduler.Scheduler.ReleaseLock | celeroot/worker/embedded_scheduler.py:128-134 | deletes the key unless the delete faults, and does not check the holder |
| EmbeddedScheduler.Scheduler.UpdateState | celeroot/worker/embedded_scheduler.py:147-153 | writes the run time without an expiry, unless the write faults |
| EmbeddedScheduler.Scheduler.FindWorkers | celeroot/worker/embedded_scheduler.py:176-189 | returns only live, matching records; a clean scan returns every one of them |
| EmbeddedScheduler.Scheduler.CollectTargets | celeroot/worker/embedded_scheduler.py:163-166 | only records that some target selects; with clean scans every live selected host appears |
| EmbeddedScheduler.Scheduler.Execute | celeroot/worker/embedded_scheduler.py:155-174 | raises iff the task is missing; each hostname is dispatched at most once, only to selected live hosts, only for the three known tasks; with clean scans every selected host without a submit fault gets it (submission at lines 206-227) |
| EmbeddedScheduler.Scheduler.Process | celeroot/worker/embedded_scheduler.py:70-80 | owned, due and locked, in that order; a raising SET NX is reported, with the lock left set until its TTL when the server had written it; the state is saved only when execution returned; a taken lock is released on every path; the store is unchanged unless the lock was set |
| EmbeddedScheduler.Scheduler.CheckAndExecute | celeroot/worker/embedded_scheduler.py:61-80 | one outcome per configured schedule, in order, up to the first schedule whose SET NX raised, where the cycle ends (the error reaches the loop at lines 54-57); only their lock and state keys change; a state key holds now iff a run of that schedule returned and was saved, and is unchanged otherwise; a lock key is unchanged if never set, still held by this worker with its 300 s expiry if the release failed or a raising SET wrote it, and absent otherwise |
| EmbeddedScheduler.CycleStep | celeroot/worker/embedded_scheduler.py:70-80 | the cycle's store invariant survives one more schedule |
| EmbeddedScheduler.OutcomeAppended | celeroot/worker/embedded_scheduler.py:70-80 | how the per-name saved, acquired and kept summaries change by one outcome |
| EmbeddedScheduler.SubmitEach | celeroot/worker/embedded_scheduler.py:206-227 | distinct hosts, one dispatch each for a known task; a failed submission is skipped, not fatal |
| EmbeddedScheduler.Runtime.constructor | celeroot/worker/embedded_scheduler.py:231 | the slot starts empty |
| EmbeddedScheduler.Runtime.StartEmbedded | celeroot/worker/embedded_scheduler.py:234-239 | creates and starts a scheduler only when the slot is empty, spawning exactly one thread |
| EmbeddedScheduler.Runtime.StopEmbedded | celeroot/worker/embedded_scheduler.py:242-247 | stops the scheduler in the slot, if any, and empties the slot |
| EmbeddedScheduler.Runtime.Status | celeroot/worker/embedded_scheduler.py:250-259 | without a scheduler only `running: False`; with one, its `running` flag and its hostname, and `thread_alive` is the thread's `is_alive()` or False without a thread; `running` iff a scheduler is in the slot |
| TaskScheduler.OwnerCountUnconstrained | celeroot/tasks/scheduler.py:34-41 | some digest leaves a schedule to no worker, and another gives it to all of them; the bucket rule gives every worker the first one |
| TaskScheduler.RoleIsIgnored | celeroot/tasks/scheduler.py:122-131 | changing the selector's role never changes a match; empty labels match everyone |
| TaskScheduler.EmbeddedAddsRoleTest | celeroot/tasks/scheduler.py:122-131 | the embedded matcher is this one plus the role test; a role-only selector separates them |
| TaskScheduler.ReadState | celeroot/tasks/scheduler.py:43-48 | a missing key reads as `{}`; anything but a table raises; a table reads as itself |
| TaskScheduler.SaveChangesOneEntry | celeroot/tasks/scheduler.py:50-54 | after a save the entry is now set and every other entry is as it was |
| TaskScheduler.InterleavedSavesLoseOne | celeroot/tasks/scheduler.py:50-54 | two read-modify-write saves that both read first lose the first entry; saves one after the other keep both |
| TaskScheduler.DueCheck | celeroot/tasks/scheduler.py:56-72 | an unreadable table or an invalid cron expression raises; otherwise the embedded due rule on the same last run |
| TaskScheduler.InvalidCronRaises | celeroot/tasks/scheduler.py:69-70 | where the embedded scheduler says not due, this one raises |
| TaskScheduler.SavedIsNotDue | celeroot/tasks/scheduler.py:56-72 | a schedule just stamped with now is not due at that instant |
| TaskScheduler.ReadConfig | celeroot/tasks/scheduler.py:27-32 | no key is no configuration; a value that is not a JSON object raises; a cluster document gives its schedules; a non-empty schedule list always comes from a cluster document |
| TaskScheduler.TwoTargetsCountTwice | celeroot/tasks/scheduler.py:80-85 | a worker selected by two targets is found at least twice |
| TaskScheduler.MatchedCoversTarget | celeroot/tasks/scheduler.py:80-85 | a pass finds a host at least as often as any one target matches it |
| TaskScheduler.SubmitToAll | celeroot/tasks/scheduler.py:85-105 | the other tasks send nothing; a completed loop sends one dispatch per worker, to that worker; without a submit fault the loop completes |
| TaskScheduler.ToAll | celeroot/tasks/scheduler.py:85-96 | one dispatch per worker record, in order |
| TaskScheduler.DispatchCount | celeroot/tasks/scheduler.py:80-96 | appending a target's dispatches adds exactly its workers' hostname counts |
| TaskScheduler.SameRegistry | celeroot/tasks/scheduler.py:107-120 | writing the state key changes nothing a registry scan sees |
| TaskScheduler.SchedulerManager.constructor | celeroot/tasks/scheduler.py:21-25 | keeps the store and the two library oracles |
| TaskScheduler.SchedulerManager.GetClusterConfig | celeroot/tasks/scheduler.py:27-32 | the configuration read of the current store |
| TaskScheduler.SchedulerManager.GetSchedulerState | celeroot/tasks/scheduler.py:43-48 | the table read of the current store |
| TaskScheduler.SchedulerManager.UpdateSchedulerState | celeroot/tasks/scheduler.py:50-54 | succeeds iff the table reads and the write goes through; then the whole table is rewritten with one entry set |
| TaskScheduler.SchedulerManager.ShouldRunSchedule | celeroot/tasks/scheduler.py:56-72 | the due check on the table as stored |
| TaskScheduler.SchedulerManager.FindWorkersBySelector | celeroot/tasks/scheduler.py:107-120 | raises iff the scan faults or a record does not parse; otherwise each matching key's record exactly once |
| TaskScheduler.SchedulerManager.ExecuteScheduledTask | celeroot/tasks/scheduler.py:74-105 | a missing task raises; non-dispatching names send nothing; with clean scans and submits, one dispatch per (target, matching key) pair |
| TaskScheduler.SchedulerManager.RunSchedule | celeroot/tasks/scheduler.py:150-168 | skipped unless owned; a raising due check ends the pass; executed only when dispatch and save both returned; the state changes only then |
| TaskScheduler.Stamped | celeroot/tasks/scheduler.py:157 | the table with the given names set to now and every other entry kept |
| TaskScheduler.ScheduleManager | celeroot/tasks/scheduler.py:134-175 | no configuration gives `no_config` and an unparseable one crashes the task; only the state key changes; `executed_tasks` lists exactly the owned, due and executed schedules in order; the table holds now for exactly those; `total_schedules` is the count and `next_check` is now plus a minute |
| TaskScheduler.PassStep | celeroot/tasks/scheduler.py:150-168 | the pass's invariant survives one more schedule |
| WorkerStartup.EnvOr | celeroot/worker/startup.py:24-25 | `os.environ.get`: the variable when set, else the default |
| WorkerStartup.Registration | celeroot/worker/startup.py:47-54 | status `active`; labels are exactly role and environment; `labels["role"]` equals the role |
| WorkerStartup.RegistrationIsSelectable | celeroot/worker/startup.py:47-54 | both schedulers' selectors for the worker's role or environment pick out the record |
| WorkerStartup.RegistrationLapses | celeroot/worker/startup.py:56-59 | nothing refreshes the record: it is live for 300 s and gone from registry scans after that |
| WorkerStartup.UnexpiredRecordStays | celeroot/worker/startup.py:57-64 | if the expire call fails after the write, the record never lapses |
| WorkerStartup.Startup.constructor | celeroot/worker/startup.py:23-26 | hostname and role from the environment, defaulting to `unknown` and `worker` |
| WorkerStartup.Startup.RegisterWorker | celeroot/worker/startup.py:40-64 | writes the record under `celeroot:worker:<hostname>`, then the 300 s expiry; a fault is swallowed, leaving the store as the last successful call left it |
| WorkerStartup.Startup.InitializeWorker | celeroot/worker/startup.py:28-38 | registration, then the scheduler is started whether or not registration went through |
| WorkerStartup.Startup.CleanupWorker | celeroot/worker/startup.py:77-91 | stops the scheduler, then deletes the record; a failed delete is swallowed |
| WorkerStartup.Process.constructor | celeroot/worker/startup.py:95 | the `_startup` slot is empty |
| WorkerStartup.Process.InitializeWorker | celeroot/worker/startup.py:98-103 | initialises at most once; later calls change nothing |
| WorkerStartup.Process.CleanupWorker | celeroot/worker/startup.py:106-110 | does nothing when initialisation never happened |
| Store.AcquiredKeyRefusesOthers | celeroot/worker/embedded_scheduler.py:120-126 | while an acquired lock is live, every further set-if-absent fails and changes nothing |
| Store.ExpiredKeyIsAcquirable | celeroot/worker/embedded_scheduler.py:120-126 | once the TTL has elapsed the key can be taken again |
| Store.RaceForKey | celeroot/worker/embedded_scheduler.py:125 | racing set-if-absent calls in arrival order; one answer each, with the clock unchanged |
| Store.RaceHasOneWinner | celeroot/worker/embedded_scheduler.py:120-126 | at most one winner; none if the key was held; otherwise exactly the first to arrive |
| Store.HeldKeyRefusesAll | celeroot/worker/embedded_scheduler.py:120-126 | a held key refuses every racer and the store is unchanged |
| Store.Store.constructor | celeroot/worker/embedded_scheduler.py:25 | an empty store at the given clock |
| Store.Store.Get | celeroot/worker/embedded_scheduler.py:140 | the value of a live key |
| Store.Store.Set | celeroot/worker/embedded_scheduler.py:151 | plain SET, which also clears an earlier expiry |
| Store.Store.SetNx | celeroot/worker/embedded_scheduler.py:125 | SET NX EX: true iff the key was not live, and it writes only then |
| Store.Store.Delete | celeroot/worker/embedded_scheduler.py:132 | DEL |
| Store.Store.Expire | celeroot/worker/startup.py:59 | EXPIRE: only a live key gets the expiry |
| Store.Store.Advance | celeroot/worker/embedded_scheduler.py:59 | time passes; nothing is written |
| Store.Store.Keys | celeroot/worker/embedded_scheduler.py:180 | KEYS: every live key of the namespace exactly once |
| ClusterConfig.HostConfig.constructor | celeroot/models/config.py:12-18 | a host with the given fields |
| ClusterConfig.HostConfig.AddRole | celeroot/models/config.py:23-24 | set insertion; afterwards `has_role` holds |
| ClusterConfig.HostConfig.RemoveRole | celeroot/models/config.py:26-27 | set discard; removing an absent role is a no-op |
| ClusterConfig.ByRole | celeroot/models/config.py:80-81 | keeps exactly the hosts that have the role, and no more hosts than it was given |
| ClusterConfig.ByRoleAppend | celeroot/models/config.py:80-81 | filtering a concatenation filters each part in turn, so the kept hosts stay in input order |
| ClusterConfig.ByRoleAllOrNone | celeroot/models/config.py:80-81 | hosts that all have the role are returned whole and in order; hosts none of which has it give the empty list |
| ClusterConfig.ByTags | celeroot/models/config.py:83-88 | keeps exactly the hosts whose tags agree with every wanted pair |
| ClusterConfig.Enabled | celeroot/models/config.py:90-91 | keeps exactly the enabled hosts |
| ClusterConfig.EnabledAppend | celeroot/models/config.py:90-91 | filtering a concatenation filters each part in turn, so the kept hosts stay in input order |
| ClusterConfig.EnabledKeepsAll | celeroot/models/config.py:90-91 | a list of enabled hosts is returned whole and in order |
| ClusterConfig.EnabledDropsAll | celeroot/models/config.py:90-91 | a list without an enabled host gives the empty list |
| ClusterConfig.EmptyTagsKeepAll | celeroot/models/config.py:83-88 | an empty filter returns every host in order |
| ClusterConfig.MoreTagsFewerHosts | celeroot/models/config.py:83-88 | one more wanted tag gives a subset of the hosts |
| ClusterConfig.Without | celeroot/models/config.py:98 | `del` on an insertion-ordered dict: the same keys minus the removed one; removing an absent key changes nothing |
| ClusterConfig.AddThenRemove | celeroot/models/config.py:93-100 | removing a host just added restores the key order |
| ClusterConfig.WithoutKeepsDistinct | celeroot/models/config.py:98 | the key order stays free of repeats |
| ClusterConfig.MissingRolesMeaning | celeroot/models/config.py:122-124 | a schedule's role findings are empty iff every target role is defined, and name each undefined one |
| ClusterConfig.MissingHostsMeaning | celeroot/models/config.py:127-129 | the same for target hosts |
| ClusterConfig.ScheduleRoleErrorsMeaning | celeroot/models/config.py:121-124 | all schedule-role findings are empty iff every target role of every schedule is defined |
| ClusterConfig.ScheduleHostErrorsMeaning | celeroot/models/config.py:126-129 | all schedule-host findings are empty iff every target host is defined |
| ClusterConfig.HeadThenTail | celeroot/models/config.py:113-131 | host-role findings come first, and the report is empty iff both parts are |
| ClusterConfig.Cluster.constructor | celeroot/models/config.py:68-78 | a configuration with the given schedules and no hosts or roles |
| ClusterConfig.Cluster.HostsInOrder | celeroot/models/config.py:81 | `hosts.values()` in insertion order |
| ClusterConfig.Cluster.SchedulesInOrder | celeroot/models/config.py:121 | `schedules.values()` in insertion order |
| ClusterConfig.Cluster.GetHostsByRole | celeroot/models/config.py:80-81 | the role filter over the hosts in key order, so the result keeps dictionary order; exactly the hosts that have the role |
| ClusterConfig.Cluster.GetEnabledHosts | celeroot/models/config.py:90-91 | the enabled filter over the hosts in key order, so the result keeps dictionary order; exactly the enabled hosts |
| ClusterConfig.Cluster.GetHostsByTags | celeroot/models/config.py:83-88 | the tag filter over the hosts in order; an empty filter gives all of them |
| ClusterConfig.Cluster.AddHost | celeroot/models/config.py:93-94 | insert or overwrite under the host's own name; a new name goes last |
| ClusterConfig.Cluster.RemoveHost | celeroot/models/config.py:96-100 | true iff the host was there; afterwards it is absent and the other hosts are unchanged |
| ClusterConfig.Cluster.AddRole | celeroot/models/config.py:102-103 | insert or overwrite under the role's name |
| ClusterConfig.Cluster.RemoveRole | celeroot/models/config.py:105-111 | a defined role leaves every host and the roles and returns true; an undefined one changes nothing; schedules are untouched, no host-role finding names the role afterwards, and schedules that target it are reported |
| ClusterConfig.Cluster.ValidateConfig | celeroot/models/config.py:113-131 | host-role findings, then schedule-role, then schedule-host; empty iff every reference is defined |
| ClusterConfig.Cluster.HostRoleScan | celeroot/models/config.py:116-119 | the findings are exactly the (host, undefined role) pairs, in some order |
| ClusterConfig.Cluster.ScheduleRoleScan | celeroot/models/config.py:121-124 | the schedule-role findings in schedule and target order |
| ClusterConfig.Cluster.ScheduleHostScan | celeroot/models/config.py:126-129 | the schedule-host findings in schedule and target order |
| ClusterConfig.Cluster.ConsistencyOfParts | celeroot/models/config.py:113-131 | each part of the check is empty iff its kind of reference is all defined |
| Text.Strip | celeroot/tasks/apt.py:15 | `strip()`: the result has no whitespace at either end, and the input is the result with only whitespace before and after it |
| Text.StripIdempotent | celeroot/tasks/apt.py:15 | stripping twice is stripping once |
| Text.Lower | celeroot/tasks/apt.py:143 | each character is lower-cased (ASCII letters) |
| Text.ReplaceChar | celeroot/tasks/apt.py:143 | `replace("-", "_")`, character by character |
| Text.Split | celeroot/tasks/apt.py:15 | `split(sep)`: at least one piece, none containing the separator |
| Text.SplitJoin | celeroot/tasks/apt.py:15 | joining the pieces of a split gives back the text |
| Text.JoinSplit | celeroot/tasks/apt.py:15 | splitting a join of separator-free pieces gives back the pieces |
| Text.FirstIndex | celeroot/tasks/apt.py:142 | the position of the first occurrence |
| Text.SplitHead | celeroot/tasks/apt.py:201 | the first piece of a split is the text before the first separator |
| Apt.MatchLine | celeroot/tasks/apt.py:19-23 | `^(\S+)/(\S+)\s+(\S+)`: name, suite and version are non-empty whitespace-free runs; the match is a prefix of the line; the version is maximal |
| Apt.MatchSucceeds | celeroot/tasks/apt.py:19 | any line that starts with `name/suite version` matches |
| Apt.MatchExact | celeroot/tasks/apt.py:19-22 | a rendered row parses back to its own name and version |
| Apt.ParseAptList | celeroot/tasks/apt.py:13-25 | the loop computes the listing table |
| Apt.EntriesWellFormed | celeroot/tasks/apt.py:19-22 | every entry has a non-empty, whitespace-free name and version |
| Apt.TableWellFormed | celeroot/tasks/apt.py:21-23 | so does every entry of the table |
| Apt.TableNames | celeroot/tasks/apt.py:23 | a name is in the table iff some line yields it |
| Apt.LastLineWins | celeroot/tasks/apt.py:23 | for a repeated name, the last line decides the version |
| Apt.NoiseIgnored | celeroot/tasks/apt.py:16-17 | empty, `WARNING` and `Listing` lines can be dropped anywhere without changing the table |
| Apt.ListingRoundTrip | celeroot/tasks/apt.py:13-25 | parsing a rendered listing with its header gives back the table of its rows |
| Apt.Select | celeroot/tasks/apt.py:61-64 | exactly the requested packages on the given side of the listing (the removal loop at line 107 takes the other side) |
| Apt.Commands | celeroot/tasks/apt.py:68 | one sudo apt command per package, in order (line 114 for removal) |
| Apt.SortStaysRaised | celeroot/tasks/apt.py:61-78 | once a command raised, the rest of the packages change nothing |
| Apt.SortPackages | celeroot/tasks/apt.py:61-73 | the loop computes the package sorting and stops at the first raising command (the removal loop, lines 106-119, is the same loop) |
| Apt.SortSorts | celeroot/tasks/apt.py:61-73 | commands are issued for the acted-on packages in order; without a raise, the set-aside list is exactly one side and the others are each in done or failed once (also for the removal loop, lines 106-119) |
| Apt.SelectPartitions | celeroot/tasks/apt.py:61-64 | every requested package is on exactly one side |
| Apt.CommandNamesPackage | celeroot/tasks/apt.py:68 | equal commands name the same package |
| Apt.SetAsideNeverActedOn | celeroot/tasks/apt.py:62-64 | no command is issued for a package that was set aside (lines 107-109 for removal) |
| Apt.OtherVerbNeverIssued | celeroot/tasks/apt.py:113-114 | the loop issues commands of its own verb only |
| Apt.Preflight | celeroot/tasks/apt.py:34-52 | the apt probe comes first, then the cache update when asked for; only these two commands run before the listing |
| Apt.ListAndSortPackages | celeroot/tasks/apt.py:55-75 | listing then loop; a failed or raising listing or command is the task's error (lines 100-121 for removal) |
| Apt.EnsurePackagesInstalled | celeroot/tasks/apt.py:28-78 | the result and the commands issued are those of the install run |
| Apt.EnsurePackagesRemoved | celeroot/tasks/apt.py:81-124 | the result and the commands issued are those of the removal run |
| Apt.ListAndSortMeaning | celeroot/tasks/apt.py:55-73 | the listing runs first; success sets aside exactly one side and sorts every other package once; commands name requested packages of the other side only, and use no other verb (lines 100-119 for removal) |
| Apt.InstallingSortsEachPackageOnce | celeroot/tasks/apt.py:37-73 | a report echoes host, packages and the cache flag; `already_installed` is exactly the listed requests; installed, already installed and failed together are the request; no install command for a listed package |
| Apt.RemovingSortsEachPackageOnce | celeroot/tasks/apt.py:90-119 | `already_removed` is exactly the unlisted requests; each request is in one list; purge chooses the verb and the other verb never appears; no command for an unlisted package |
| Apt.GetPackageInfo | celeroot/tasks/apt.py:127-145 | the loop computes the package dictionary |
| Apt.InfoKeyNormal | celeroot/tasks/apt.py:142-143 | a key is stripped, contains no colon, no hyphen and no ASCII capital |
| Apt.FieldNormal | celeroot/tasks/apt.py:141-143 | each line's key is normal and its value stripped |
| Apt.RecordKeys | celeroot/tasks/apt.py:139-143 | the keys are exactly the presets plus those the lines set; a key no line sets keeps its preset |
| Apt.LastFieldWins | celeroot/tasks/apt.py:140-143 | the last line that sets a key decides its value, presets included |
| Apt.PackageInfoNotFound | celeroot/tasks/apt.py:131-137 | apt missing raises; a failed `apt show` gives exactly package, `found = False` and the error |
| Apt.PackageInfoFields | celeroot/tasks/apt.py:139-145 | the presets stay present, and every other key is normal with a stripped text value |
| Apt.PackageLineOverwrites | celeroot/tasks/apt.py:139-143 | a `Package:` line overwrites the preset `package` entry |
| Apt.FirstShown | celeroot/tasks/apt.py:207 | `[:10]`: the first min(10, n) names |
| Apt.ScanUpgradable | celeroot/tasks/apt.py:197-203 | the loop computes the upgradable and security lists |
| Apt.SecurityAmongUpgradable | celeroot/tasks/apt.py:199-203 | every security package is among the upgradable ones, so its count is not larger |
| Apt.NamesBeforeSlash | celeroot/tasks/apt.py:198-200 | each upgradable name is the text of an upgradable line before its first `/`, and contains no `/` |
| Apt.UpgradableComplete | celeroot/tasks/apt.py:198-200 | conversely, the text before the first `/` of every upgradable line is reported |
| Apt.SecurityNames | celeroot/tasks/apt.py:198-203 | a name is a security package iff some line containing `/` and `upgradable` carries it before its first `/` and its lower-cased text contains security, urgent or critical |
| Apt.RunOnHost | celeroot/tasks/apt.py:148-250 | one host's entry and command count |
| Apt.RunOverHosts | celeroot/tasks/apt.py:152-168 | the host loop computes the per-host results |
| Apt.UpdatePackageCache | celeroot/tasks/apt.py:148-175 | the per-host results of the cache update |
| Apt.CheckSecurityUpdates | celeroot/tasks/apt.py:178-219 | the per-host results of the security check |
| Apt.CleanupUnusedPackages | celeroot/tasks/apt.py:222-250 | the per-host results of the clean-up |
| Apt.EveryHostReported | celeroot/tasks/apt.py:152-173 | exactly the given hosts have entries, whatever failed; each host issues one to three commands |
| Apt.LastVisitWins | celeroot/tasks/apt.py:152-173 | a repeated host name keeps the entry from its last visit |
| Apt.CleanupSuccess | celeroot/tasks/apt.py:232-245 | a host is cleaned up iff apt is there and neither command raised; success iff both exit 0; each output is stdout on success, else stderr |
| Apt.SecurityReport | celeroot/tasks/apt.py:190-211 | the count is the full count; shown names are its first min(10, n); security packages are among the upgradable ones and are exactly the names of the lines that pass the keyword test |
| Apt.CacheUpdatedIff | celeroot/tasks/apt.py:156-168 | updated iff apt is there and `sudo apt update` exits 0; otherwise the failure carries stderr |

## Behaviour of the code worth knowing

- Nothing in `celeroot/worker/startup.py` refreshes the registry record after
  start-up, so the record lapses 300 s later (`WorkerStartup.RegistrationLapses`).
- Schedules carry an `enabled` flag, but neither scheduler reads it, so a
  disabled schedule runs like an enabled one.
- An invalid cron expression makes the embedded scheduler answer "not due".
  `schedule_manager` lets the croniter error escape, which ends the pass
  (`TaskScheduler.InvalidCronRaises`).
- The SET NX that takes an embedded lock sits outside every `try` of the
  cycle, so a store error there skips the remaining schedules of that cycle.
- In the scheduled APT tasks, the `timestamp` entry holds `str(host)`, which is
  the host name, not a time.

## Left out

- Threads, `time.sleep`, `join`, signal handlers and the endless loops
  `_scheduler_loop` and `scheduler_worker_main`: one cycle or pass is modelled
  as a method.
- Concurrency between workers is modelled only as interleavings of atomic
  single-key store calls (`Store.RaceHasOneWinner`,
  `TaskScheduler.InterleavedSavesLoseOne`).
- Celery: `.delay` is a `Dispatch` record. `current_task.update_state`,
  `self.request.hostname`, which is passed in, and logging are left out.
- Redis connection set-up and network errors: each failing call the code
  catches is a `fails` case. In `schedule_manager`, faults outside the `try`
  are not modelled.
- Datetimes are integer seconds. ISO-8601 formatting and `utcnow` are left
  out. A stored value that `fromisoformat` rejects is `Opaque`.
- JSON documents with other shapes than the records in `Records` are read as
  unparseable. A document of another record kind stored under a key is read
  the same way, where the code would take it as a dict:
  `TaskScheduler.ReadState` raises on it, while `get_scheduler_state` returns it
  and `state.get(name)` then falls back to one day back;
  `EmbeddedScheduler.Scheduler.FindWorkers` ends the scan at it, while
  `_find_workers_by_selector` would test it against the selector. Python's
  "empty string is false" checks on stored values are not modelled.
- md5 and croniter are oracles. Cron field semantics are not modelled.
- `RoleConfig.__post_init__` is a dataclass hook that pydantic never calls.
  `SSHConfig`, `RedisConfig`, pydantic validation (`Host(**host_data)`) and
  YAML persistence are not modelled.
- `ClusterConfig.Cluster.Valid` does not require a host's key to equal its
  `hostname` field. `add_host` only ever stores a host under its own name.
- `ClusterConfig.Cluster.HostRoleScan`: a host's roles are a Python set with no
  defined order. The model fixes no order of the host-role findings inside one
  host; it only states that each appears.
- The text of each `validate_config` message is a `ConfigError` value rather
  than rendered text.
- `Text.Lower` lower-cases ASCII letters only, while Python's `str.lower` also
  maps other scripts.
- `execute_command` and `check_command_exists` (celeroot/connections/local.py)
  are the `Shell` oracle. The subprocess, the 300 s timeout and the stripping
  of both outputs are inside it; a raised exception carries its message.
- Health checks, `scheduled.py`, the command-line interface and the
  configuration manager are not part of this model.
