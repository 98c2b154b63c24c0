/**
  The worker registry of the PoSt scheduler: construction, registration,
  removal, the readiness probe and the two flag updates. Each operation is a
  pure transition from one `Scheduler` value to the next; the lock that
  serialises them in the system is not modelled.
 */
module Registry {
  import opened PostTypes

  /** A fresh scheduler for task type `t`: no workers, so nothing is schedulable. */
  function NewScheduler(t: TaskType): (s: Scheduler)
    ensures s.postType == t
    ensures |s.workers| == 0
    ensures !AnyEnabled(s)
  {
    Scheduler(map[], t)
  }

  /**
    Registers `w` under `wid` when the worker's declared task types include the
    scheduler's own; the flag says whether it did. An existing entry under the
    same id is overwritten.
   */
  function MaybeAddWorker(s: Scheduler, wid: WorkerId, tasks: set<TaskType>, w: WorkerHandle)
    : (r: (Scheduler, bool))
    ensures r.1 <==> s.postType in tasks
    ensures !r.1 ==> r.0 == s
    ensures r.1 ==> wid in r.0.workers && r.0.workers[wid] == w
    ensures r.1 ==> r.0.workers.Keys == s.workers.Keys + {wid}
    ensures SameOutside(s.workers, r.0.workers, wid)
    ensures r.0.postType == s.postType
  {
    if s.postType !in tasks then (s, false)
    else (s.(workers := s.workers[wid := w]), true)
  }

  /**
    Removes the entry under `wid` and hands back the handle it held, or
    nothing (and no change) when there was none.
   */
  function DelWorker(s: Scheduler, wid: WorkerId): (r: (Scheduler, Option<WorkerHandle>))
    ensures wid in s.workers ==> r.1 == Some(s.workers[wid])
    ensures wid !in s.workers ==> r.1 == None && r.0 == s
    ensures wid !in r.0.workers
    ensures r.0.workers.Keys == s.workers.Keys - {wid}
    ensures SameOutside(s.workers, r.0.workers, wid)
    ensures r.0.postType == s.postType
  {
    if wid in s.workers then (s.(workers := s.workers - {wid}), Some(s.workers[wid]))
    else (s, None)
  }

  /**
    The readiness probe: walks the registry until it meets an enabled worker.
    True exactly when the registry is non-empty and some worker is enabled.
   */
  method CanSched(s: Scheduler) returns (r: bool)
    ensures r <==> AnyEnabled(s)
    ensures r ==> |s.workers| != 0
  {
    if |s.workers| == 0 {
      return false;
    }
    var rest := s.workers.Keys;
    while rest != {}
      invariant rest <= s.workers.Keys
      invariant forall wid :: wid in s.workers && wid !in rest ==> !s.workers[wid].enabled
      decreases rest
    {
      var wid :| wid in rest;
      if s.workers[wid].enabled {
        return true;
      }
      rest := rest - {wid};
    }
    return false;
  }

  /** `r` is `s` with exactly the `enabled` flag of worker `wid` set to `flag`. */
  ghost predicate FlagSet(s: Scheduler, r: Scheduler, wid: WorkerId, flag: bool)
    requires wid in s.workers
  {
    && r.postType == s.postType
    && r.workers.Keys == s.workers.Keys
    && r.workers[wid].enabled == flag
    && r.workers[wid].info == s.workers[wid].info
    && SameOutside(s.workers, r.workers, wid)
  }

  /** Marks worker `wid` as enabled; the worker must be registered. */
  function Enable(s: Scheduler, wid: WorkerId): (r: Scheduler)
    requires wid in s.workers
    ensures FlagSet(s, r, wid, true)
  {
    s.(workers := s.workers[wid := s.workers[wid].(enabled := true)])
  }

  /** Marks worker `wid` as disabled; the worker must be registered. */
  function Disable(s: Scheduler, wid: WorkerId): (r: Scheduler)
    requires wid in s.workers
    ensures FlagSet(s, r, wid, false)
  {
    s.(workers := s.workers[wid := s.workers[wid].(enabled := false)])
  }

  /** A second removal of the same id finds nothing and changes nothing. */
  lemma DelWorkerTwice(s: Scheduler, wid: WorkerId)
    ensures DelWorker(DelWorker(s, wid).0, wid) == (DelWorker(s, wid).0, None)
  {
  }

  /** Registering a new id and removing it again restores the registry and returns the handle. */
  lemma AddThenDelete(s: Scheduler, wid: WorkerId, tasks: set<TaskType>, w: WorkerHandle)
    requires s.postType in tasks
    requires wid !in s.workers
    ensures DelWorker(MaybeAddWorker(s, wid, tasks, w).0, wid) == (s, Some(w))
  {
    var added := MaybeAddWorker(s, wid, tasks, w).0;
    assert added.workers - {wid} == s.workers;
  }

  /** Registering an id that is already present replaces its handle and keeps the size. */
  lemma AddOverwrites(s: Scheduler, wid: WorkerId, tasks: set<TaskType>, w: WorkerHandle)
    requires s.postType in tasks
    requires wid in s.workers
    ensures |MaybeAddWorker(s, wid, tasks, w).0.workers| == |s.workers|
    ensures MaybeAddWorker(s, wid, tasks, w).0.workers[wid] == w
  {
  }

  /** Disabling an enabled worker and enabling it again gives back the same state. */
  lemma DisableThenEnable(s: Scheduler, wid: WorkerId)
    requires wid in s.workers && s.workers[wid].enabled
    ensures Enable(Disable(s, wid), wid) == s
  {
  }

  /** Enabling a disabled worker and disabling it again gives back the same state. */
  lemma EnableThenDisable(s: Scheduler, wid: WorkerId)
    requires wid in s.workers && !s.workers[wid].enabled
    ensures Disable(Enable(s, wid), wid) == s
  {
  }

  /** After `Enable` the readiness probe answers true. */
  lemma EnableMakesReady(s: Scheduler, wid: WorkerId)
    requires wid in s.workers
    ensures AnyEnabled(Enable(s, wid))
  {
  }

  /** After `Disable` the probe answers true exactly when some other worker is enabled. */
  lemma DisableReadiness(s: Scheduler, wid: WorkerId)
    requires wid in s.workers
    ensures AnyEnabled(Disable(s, wid)) <==>
      exists other :: other in s.workers && other != wid && s.workers[other].enabled
  {
  }
}
