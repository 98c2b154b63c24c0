# PoSt scheduler worker registry and dispatch decision

This project models in Dafny the scheduler that places proof-of-spacetime (PoSt)
work on remote workers. One scheduler instance serves one task type. It holds a
registry `WorkerID -> handle` and each handle carries an `enabled` flag.

The model has no locks. It is a sequential state machine over the immutable value
`Scheduler(workers: map<WorkerId, WorkerHandle>, postType)`:

- `types.dfy` (module `PostTypes`) defines the shared vocabulary. Worker ids are
  session UUIDs, written as naturals, and `ClosedWorkerId` is the all-zero id.
  A worker's description and its resource accounting are the opaque type `Info`.
  Resource requirements are the opaque type `Resources`. The two collaborators
  the scheduler consults are function-valued fields of `Env`:
  - `resourceSpec`, the worker's resource table lookup;
  - `canHandleRequest`, the worker's admission gate.
  The model treats both as uninterpreted.
- `registry.dfy` (module `Registry`) holds construction, registration
  (`MaybeAddWorker`), removal (`DelWorker`), the readiness probe (`CanSched`)
  and the flag updates (`Enable`/`Disable`).
- `candidates.dfy` (module `Candidates`) holds candidate selection
  (`ReadyWorkers`). The order of the registry walk is left open. That covers both
  the unordered Go map walk and the `rand.Shuffle` that follows it. The
  permutation property is a lemma: any two candidate lists for one state are
  permutations of each other.
- `dispatch.dfy` (module `Dispatch`) holds the decision part of `Schedule`. The
  outcome is one of three:
  - fail with "no post worker";
  - `Wait`, which leaves the state unchanged;
  - dispatch to the first candidate.
  `ScheduleWithWakeups` models the whole wait-and-retry loop. It takes as input
  the registry states seen after successive wake-ups.
- `watch.dfy` (module `Watch`) holds one iteration of the per-worker heartbeat
  loop (`WatchStep`) and a run of such iterations (`Monitor`).

Behaviour worth noting, which the model keeps as written:

- A primary `Schedule` checks for an empty registry only on entry (line 83).
  Once it is waiting, each re-evaluation (lines 92-93) only recomputes the
  candidates. A woken request therefore never fails, even if the registry has
  become empty in the meantime (`Dispatch.Rewake`).

Where the code and what its own comments and callers expect differ, the model
follows the code (see also "## Findings"):

- `readyWorkers` never reads the `enabled` flag. The comment at line 123 says
  disabled workers cannot be scheduled, but the loop (lines 124-135) filters only
  through `canHandleRequest`, whose arguments (`needRes`, `wid`, a caller string and
  `wr.info`) do not include the flag. `Candidates.CandidatesIgnoreFlag` states that
  flipping the flag leaves the candidate set unchanged; see also "## Findings".
- After a matching session probe, `watch` loops straight back to the next probe
  without waiting for a heartbeat tick (lines 196-197). It waits for a tick only
  after a failed probe. `Watch.Step` records this in `Continue(afterTick)`.
- The shutdown request (`closingMgr`) is read only after a failed probe
  (lines 180-185). `workerCleanup` (lines 200-213) closes `closingMgr` and then
  waits for `closedMgr`, so it expects the closing signal to end the watcher.
  A healthy worker's watcher never reads that signal, so the one-second wait
  (lines 208-212) runs out for such a worker (`Watch.HealthyMonitorIgnoresClosing`).
  `Watch.IntendedWatchStep` is the iteration that protocol relies on.

## Model

| member | source | states |
|---|---|---|
| Registry.NewScheduler | extern/sector-storage/sched_post.go:26-33 | a new scheduler serves the given task type, has no workers and is not ready |
| Registry.MaybeAddWorker | extern/sector-storage/sched_post.go:35-50 | returns true exactly when the declared task types contain the scheduler's type; if false, the state is unchanged; if true, `wid` maps to the new handle (overwriting any old one), the key set gains `wid`, and every other key is unchanged |
| Registry.DelWorker | extern/sector-storage/sched_post.go:52-61 | returns the previous handle when `wid` was present and nothing otherwise; afterwards `wid` is absent, exactly that key is removed, every other entry is unchanged, and an absent id leaves the state unchanged |
| Registry.CanSched | extern/sector-storage/sched_post.go:63-77 | true iff some registered worker is enabled, which implies the registry is non-empty |
| Registry.Enable | extern/sector-storage/sched_post.go:151-155 | requires the worker to be registered (the source dereferences the entry); sets only that worker's flag to true; the key set, the worker's description and every other worker are unchanged |
| Registry.Disable | extern/sector-storage/sched_post.go:145-149 | the same as `Enable`, but it sets the flag to false |
| Registry.DelWorkerTwice | extern/sector-storage/sched_post.go:52-61 | a second removal of the same id returns nothing and changes nothing |
| Registry.AddThenDelete | extern/sector-storage/sched_post.go:35-61 | registering a new id and then removing it returns the added handle and restores the original state |
| Registry.AddOverwrites | extern/sector-storage/sched_post.go:43 | re-registering an existing id replaces its handle and keeps the registry size |
| Registry.DisableThenEnable | extern/sector-storage/sched_post.go:145-155 | disabling an enabled worker and then enabling it again restores the state |
| Registry.EnableThenDisable | extern/sector-storage/sched_post.go:145-155 | enabling a disabled worker and then disabling it again restores the state |
| Registry.EnableMakesReady | extern/sector-storage/sched_post.go:151-155 | after `enable` the readiness probe answers true |
| Registry.DisableReadiness | extern/sector-storage/sched_post.go:145-149 | after `disable(wid)` the probe is true iff some other worker is enabled |
| Candidates.ReadyWorkers | extern/sector-storage/sched_post.go:121-143 | each registered worker that the admission gate accepts appears exactly once and nothing else appears; each entry carries that worker's own resource requirement; the flag is true iff the list is non-empty, iff the reference candidate set is non-empty |
| Candidates.CandidateMembership | extern/sector-storage/sched_post.go:124-135 | a pair (id, res) is in a candidate list iff the id is an admitted worker and `res` is its requirement |
| Candidates.CandidateListsArePermutations | extern/sector-storage/sched_post.go:137-140 | any two candidate lists for the same state are permutations of each other, so the shuffle only reorders |
| Candidates.CandidateListSize | extern/sector-storage/sched_post.go:121-142 | a candidate list is exactly as long as the set of admitted workers is large |
| Candidates.CandidatesIgnoreFlag | extern/sector-storage/sched_post.go:123-129 | enabling or disabling a worker does not change the candidate set |
| Candidates.DisabledWorkerCanBeCandidate | extern/sector-storage/sched_post.go:123-135 | a registered worker with `enabled` false whose admission gate accepts its requirement is a candidate |
| Candidates.IntendedCandidateIds | extern/sector-storage/sched_post.go:123 | the set the comment promises: a subset of the implemented candidate set containing only enabled workers |
| Candidates.IntendedExcludesDisabled | extern/sector-storage/sched_post.go:123 | a disabled worker is never an intended candidate |
| Candidates.IntendedAgreesOnEnabled | extern/sector-storage/sched_post.go:123-135 | for an enabled worker, the intended and the implemented candidate sets agree |
| Candidates.DelWorkerCandidates | extern/sector-storage/sched_post.go:121-135 | after a removal, the candidate set is the old one without the removed id |
| Dispatch.Schedule | extern/sector-storage/sched_post.go:83-106 | an empty registry fails with the "no post worker" error; with no candidate, a non-primary request fails and a primary one waits; otherwise it dispatches to the first entry of the candidate list, which is a registered, admitted worker with its own requirement |
| Dispatch.Rewake | extern/sector-storage/sched_post.go:89-97 | a re-evaluation after a wake-up never fails; it waits iff there is no candidate, and otherwise picks the first candidate |
| Dispatch.ScheduleWithWakeups | extern/sector-storage/sched_post.go:83-106 | the whole loop: a rejection happens only on entry and never after waiting; a non-primary request never waits; every evaluation before the last found no candidate; a dispatch picks an admitted worker of the state it saw last |
| Watch.WatchStep | extern/sector-storage/sched_post.go:166-197 | a failed probe disables the worker and keeps it registered until a tick, or evicts it on a shutdown request; a session id other than `wid` evicts it; a matching id enables it and probes again without waiting; the monitor stops iff the worker is no longer registered; other workers are untouched |
| Watch.WatchStepFrame | extern/sector-storage/sched_post.go:166-197 | one monitor iteration leaves every other worker's membership and handle unchanged |
| Watch.RestartAndCloseAlike | extern/sector-storage/sched_post.go:188-194 | a restart id and the closed sentinel lead to the same state and the same termination; the difference only affects logging |
| Watch.HealthyMonitorIgnoresClosing | extern/sector-storage/sched_post.go:180-197 | after a matching probe the monitor enables the worker and probes again even when a shutdown was requested; the shutdown request is read only on the failed-probe path |
| Watch.IntendedWatchStep | extern/sector-storage/sched_post.go:200-213 | the iteration `workerCleanup` relies on, waiting for a tick or a shutdown request before each probe: a shutdown request stops the monitor and evicts the worker whatever the probe says; after a tick the registry changes as in `WatchStep`; it stops iff shut down or `WatchStep` would stop; a monitor that goes on always waits before its next probe; other workers are untouched |
| Watch.ClosingIgnoredOnlyWhenHealthy | extern/sector-storage/sched_post.go:171-197 | on a shutdown request the intended iteration always stops, while the written one stops iff the probe did not report `wid` |
| Watch.StaleMonitorEvictsNewHandle | extern/sector-storage/sched_post.go:43-45 | after an id is re-registered with a new handle, the old monitor of that id still acts on it: a foreign session id from its old worker evicts the new handle |
| Watch.Monitor | extern/sector-storage/sched_post.go:157-198 | across any run of heartbeats, only the monitored worker can change; the run has stopped iff that worker is no longer registered |
| Watch.MonitorEvictsOnStop | extern/sector-storage/sched_post.go:164-194 | if any heartbeat in the run would stop the monitor, the run stops and the worker is evicted |
| Watch.MonitorTracksLastProbe | extern/sector-storage/sched_post.go:171-197 | while no heartbeat stops it, the worker stays registered with the same description, and its flag is true iff the last probe succeeded |

## Findings

| source | as written | input that shows it | evidently intended | confidence | as-written member | corrected member |
|---|---|---|---|---|---|---|
| extern/sector-storage/sched_post.go:123-129 | the candidate loop filters only through `canHandleRequest`, which is not given the `enabled` flag | a registered worker that a failed session probe has disabled (line 178) while its resources still fit its requirement | disabled workers are not candidates, as the comment at line 123 says | medium, not executed | Candidates.DisabledWorkerCanBeCandidate | Candidates.IntendedExcludesDisabled |
| extern/sector-storage/sched_post.go:171-197 | after a matching probe the loop returns to the next probe at once (line 196), and `closingMgr` is read only after a failed probe (lines 180-185) | a worker whose session probe keeps reporting `wid` while `workerCleanup` closes `closingMgr` (lines 201-205): the watcher never stops, probes without pause, and the one-second wait at lines 208-212 times out | every probe waits for the heartbeat tick or the shutdown request first, and a shutdown request ends the watcher, as `workerCleanup` expects | medium, not executed | Watch.HealthyMonitorIgnoresClosing | Watch.IntendedWatchStep |

The dispatch decision (`Dispatch.Schedule`) keeps the filter as written, so it
models the code; `Candidates.IntendedCandidateIds` is the corrected set and
`Candidates.IntendedAgreesOnEnabled` shows the two differ only on disabled workers.
Likewise `Watch.Monitor` runs the as-written `Watch.WatchStep`;
`Watch.ClosingIgnoredOnlyWhenHealthy` shows the written and the intended
iteration part ways on a shutdown request exactly when the probe succeeds.

## Left out

- Locking: the `sync.RWMutex` and the `sync.Cond` wait/broadcast are not modelled. The model is sequential, each operation is one atomic transition, and a wait is the `Wait` decision.
- The watcher goroutine that `MaybeAddWorker` starts is not modelled. Its behaviour is `Watch.Monitor` run separately, and that holds only while each id has one watcher.
- Watch.WatchStep: assumes one watcher per id. In the source, re-registering an id (line 43) starts a second watcher (line 45) while the old one keeps probing the old worker and still calls `disable`, `enable` and `delWorker` by id (lines 168, 178, 196). It can flip the new handle's flag and evict it (`Watch.StaleMonitorEvictsNewHandle`). After either watcher evicts the id, the other's next `disable` or `enable` dereferences a missing entry (lines 148, 154) and panics; that step lies outside `WatchStep`'s precondition and is not modelled. Callers are expected not to register an id twice.
- Dispatch execution: `withResources`, resource reservation and release, the unlock and relock around the action, and the `work` RPC are not modelled. They are foreign code. They reserve resources in the worker's accounting, which the model keeps inside the opaque `Info`, and release them when the action returns, so their net effect on the registry is nil. While an action runs, other evaluations may see the reservation; the woken states of `Dispatch.ScheduleWithWakeups` can reflect that. `Schedule` stops at the chosen candidate.
- Heartbeat timing: the ticker, the probe timeout of half the interval, and the `closingMgr`/`closedMgr` signalling are not modelled. They become the `Wake` input of a step.
- Shutdown: `schedClose` and `workerCleanup` are not modelled. Their behaviour is a bounded, timed wait with the lock released.
- `WorkerStats` is not modelled. It is a read-only callback walk with no state change.
- Logging is not modelled.
- Candidates.ReadyWorkers: promises "some order", not a uniform distribution. The distribution of `rand.Shuffle` cannot be expressed without probabilities.
- Handles are values in the model, not shared pointers. If one handle pointer is registered under two ids, a flag update through one id would show under the other in Go but not in the model. Callers are not expected to register a handle twice.
- The `context` arguments of `CanSched` and `Schedule` are not modelled. They play no part in the decision.
