/**
  The per-worker liveness monitor: each iteration probes the worker's session
  and, from the answer, disables it, evicts it, or enables it. Timers, the
  probe timeout and the shutdown channels are replaced by the inputs of a step.
 */
module Watch {
  import opened PostTypes
  import Registry

  /** The answer of one session probe: a failure, or the session id the worker reports. */
  datatype Probe = ProbeFailed | Session(id: WorkerId)

  /** What ends the wait after a failed probe: the next heartbeat tick or a shutdown request. */
  datatype Wake = Tick | Closing

  /** One heartbeat input: the probe answer and, if it failed, what ended the wait. */
  datatype Beat = Beat(probe: Probe, wake: Wake)

  /**
    How the monitor goes on after a step: probe again (`afterTick` says whether
    it first waited for a heartbeat tick) or stop for good.
   */
  datatype Step = Continue(afterTick: bool) | Terminated

  /** The heartbeat makes the monitor of `wid` stop. */
  ghost predicate Stops(wid: WorkerId, beat: Beat)
  {
    (beat.probe.ProbeFailed? && beat.wake.Closing?) || (beat.probe.Session? && beat.probe.id != wid)
  }

  /**
    One iteration of the monitor of worker `wid`. A failed probe disables the
    worker; the monitor then probes again on the next tick or, on a shutdown
    request, stops. A session id other than `wid`, whether a restarted
    worker's new id or the closed sentinel, stops the monitor. A matching id
    enables the worker and the monitor probes again at once. Stopping always
    removes the worker from the registry.
   */
  function WatchStep(s: Scheduler, wid: WorkerId, beat: Beat): (r: (Scheduler, Step))
    requires wid in s.workers
    ensures r.1.Terminated? <==> wid !in r.0.workers
    ensures r.1.Terminated? <==> Stops(wid, beat)
    ensures r.1.Terminated? ==> r.0.workers.Keys == s.workers.Keys - {wid}
    ensures beat.probe.ProbeFailed? && beat.wake.Tick? ==>
      r.1 == Continue(true) && Registry.FlagSet(s, r.0, wid, false)
    ensures beat.probe == Session(wid) ==>
      r.1 == Continue(false) && Registry.FlagSet(s, r.0, wid, true)
    ensures SameOutside(s.workers, r.0.workers, wid)
    ensures r.0.postType == s.postType
  {
    match beat.probe
    case ProbeFailed =>
      var disabled := Registry.Disable(s, wid);
      if beat.wake.Closing? then (Registry.DelWorker(disabled, wid).0, Terminated)
      else (disabled, Continue(true))
    case Session(cur) =>
      if cur != wid then (Registry.DelWorker(s, wid).0, Terminated)
      else (Registry.Enable(s, wid), Continue(false))
  }

  /** A monitor iteration never touches another worker (the two maps agree on `x`). */
  lemma WatchStepFrame(s: Scheduler, wid: WorkerId, beat: Beat, x: WorkerId)
    requires wid in s.workers && x != wid
    ensures x in WatchStep(s, wid, beat).0.workers <==> x in s.workers
    ensures x in s.workers ==> WatchStep(s, wid, beat).0.workers[x] == s.workers[x]
  {
  }

  /** A restarted worker and a closed worker end their monitor in the same state. */
  lemma RestartAndCloseAlike(s: Scheduler, wid: WorkerId, restarted: WorkerId, w1: Wake, w2: Wake)
    requires wid in s.workers
    requires restarted != wid && ClosedWorkerId != wid
    ensures WatchStep(s, wid, Beat(Session(restarted), w1)) == WatchStep(s, wid, Beat(Session(ClosedWorkerId), w2))
  {
  }

  /**
    A healthy worker's monitor never looks at the shutdown request: after a
    matching probe it enables the worker and probes again whatever `wake` says.
   */
  lemma HealthyMonitorIgnoresClosing(s: Scheduler, wid: WorkerId)
    requires wid in s.workers
    ensures WatchStep(s, wid, Beat(Session(wid), Closing)).1 == Continue(false)
    ensures wid in WatchStep(s, wid, Beat(Session(wid), Closing)).0.workers
  {
  }

  /**
    The monitor iteration the shutdown protocol of `workerCleanup` relies on:
    every probe is preceded by a wait for the next heartbeat tick or a shutdown
    request, and here `beat.wake` is what ended that wait. A shutdown request
    stops the monitor and evicts the worker whatever the worker would answer;
    after a tick the iteration acts as `WatchStep` does, and a monitor that goes
    on always waits again before its next probe.
   */
  function IntendedWatchStep(s: Scheduler, wid: WorkerId, beat: Beat): (r: (Scheduler, Step))
    requires wid in s.workers
    ensures beat.wake.Closing? ==> r.1.Terminated? && wid !in r.0.workers
    ensures beat.wake.Tick? ==> r.0 == WatchStep(s, wid, beat).0
    ensures r.1.Terminated? <==> beat.wake.Closing? || Stops(wid, beat)
    ensures r.1.Terminated? <==> wid !in r.0.workers
    ensures r.1.Continue? ==> r.1.afterTick
    ensures SameOutside(s.workers, r.0.workers, wid)
    ensures r.0.postType == s.postType
  {
    if beat.wake.Closing? then (Registry.DelWorker(s, wid).0, Terminated)
    else
      var (next, step) := WatchStep(s, wid, beat);
      (next, if step.Terminated? then Terminated else Continue(true))
  }

  /**
    The written iteration and the intended one disagree on a shutdown request
    exactly when the probe succeeds: only a healthy worker's monitor keeps going.
   */
  lemma ClosingIgnoredOnlyWhenHealthy(s: Scheduler, wid: WorkerId, p: Probe)
    requires wid in s.workers
    ensures IntendedWatchStep(s, wid, Beat(p, Closing)).1.Terminated?
    ensures WatchStep(s, wid, Beat(p, Closing)).1.Terminated? <==> p != Session(wid)
  {
  }

  /**
    Re-registering an id that already has a monitor leaves the old monitor
    acting on that id: when its (old) worker reports another session, it
    evicts the handle that replaced it.
   */
  lemma StaleMonitorEvictsNewHandle(s: Scheduler, wid: WorkerId, tasks: set<TaskType>,
                                    w: WorkerHandle, other: WorkerId, wake: Wake)
    requires wid in s.workers && s.postType in tasks && other != wid
    ensures var added := Registry.MaybeAddWorker(s, wid, tasks, w).0;
      added.workers[wid] == w &&
      wid !in WatchStep(added, wid, Beat(Session(other), wake)).0.workers
  {
  }

  /**
    Runs the monitor of `wid` over a sequence of heartbeats until it stops or
    the heartbeats run out. Returns the final registry and whether it stopped.
   */
  function Monitor(s: Scheduler, wid: WorkerId, beats: seq<Beat>): (r: (Scheduler, bool))
    requires wid in s.workers
    ensures r.1 <==> wid !in r.0.workers
    ensures SameOutside(s.workers, r.0.workers, wid)
    ensures r.0.workers.Keys - {wid} == s.workers.Keys - {wid}
    ensures r.0.postType == s.postType
    decreases |beats|
  {
    if beats == [] then (s, false)
    else
      var (next, step) := WatchStep(s, wid, beats[0]);
      if step.Terminated? then (next, true)
      else
        var r := Monitor(next, wid, beats[1..]);
        SameOutsideTrans(s.workers, next.workers, r.0.workers, wid);
        r
  }

  /** Once any heartbeat would stop the monitor, the worker ends up evicted. */
  lemma {:induction false} MonitorEvictsOnStop(s: Scheduler, wid: WorkerId, beats: seq<Beat>, i: nat)
    requires wid in s.workers
    requires i < |beats| && Stops(wid, beats[i])
    ensures Monitor(s, wid, beats).1
    ensures wid !in Monitor(s, wid, beats).0.workers
    decreases i
  {
    var (next, step) := WatchStep(s, wid, beats[0]);
    if !step.Terminated? {
      assert i != 0;
      assert beats[1..][i - 1] == beats[i];
      MonitorEvictsOnStop(next, wid, beats[1..], i - 1);
    }
  }

  /**
    While no heartbeat stops it, the monitor keeps the worker registered with
    the same description, and its `enabled` flag reflects the last probe.
   */
  lemma {:induction false} MonitorTracksLastProbe(s: Scheduler, wid: WorkerId, beats: seq<Beat>)
    requires wid in s.workers
    requires beats != []
    requires forall i :: 0 <= i < |beats| ==> !Stops(wid, beats[i])
    ensures !Monitor(s, wid, beats).1
    ensures wid in Monitor(s, wid, beats).0.workers
    ensures Monitor(s, wid, beats).0.workers[wid].info == s.workers[wid].info
    ensures Monitor(s, wid, beats).0.workers[wid].enabled <==> beats[|beats| - 1].probe.Session?
    decreases |beats|
  {
    assert !Stops(wid, beats[0]);
    var (next, step) := WatchStep(s, wid, beats[0]);
    if |beats| > 1 {
      var rest := beats[1..];
      forall i | 0 <= i < |rest| ensures !Stops(wid, rest[i]) {
        assert rest[i] == beats[i + 1];
      }
      MonitorTracksLastProbe(next, wid, rest);
      assert rest[|rest| - 1] == beats[|beats| - 1];
    }
  }
}
