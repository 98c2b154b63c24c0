/**
  The dispatch decision of `Schedule`: fail fast, wait, or pick a worker.
  Only the decision is modelled; reserving resources and running the work on
  the chosen worker happen outside the scheduler state.
 */
module Dispatch {
  import opened PostTypes
  import opened Candidates

  /** The one error `Schedule` raises: no worker of this task type can be used. */
  datatype SchedError = NoPostWorker(postType: TaskType)

  /**
    What a scheduling attempt decides: give up with an error, park the caller
    until the registry changes, or run the work on the chosen candidate.
   */
  datatype Decision = Reject(err: SchedError) | Wait | Dispatch(selected: Candidate)

  /**
    One scheduling attempt on entry. An empty registry always fails; with
    workers present but none admitted, a primary request waits and any other
    request fails; otherwise the first entry of the candidate list is chosen.
    The candidate list the choice was made from is returned alongside.
   */
  method Schedule(s: Scheduler, env: Env, primary: bool, spt: ProofType)
    returns (d: Decision, candidates: seq<Candidate>)
    ensures |s.workers| == 0 ==> d == Reject(NoPostWorker(s.postType))
    ensures d.Reject? <==> |s.workers| == 0 || (!primary && CandidateIds(s, env, spt) == {})
    ensures d.Reject? ==> d.err == NoPostWorker(s.postType)
    ensures d.Wait? <==> |s.workers| != 0 && primary && CandidateIds(s, env, spt) == {}
    ensures d.Dispatch? <==> CandidateIds(s, env, spt) != {}
    ensures |s.workers| != 0 ==> IsCandidateList(s, env, spt, candidates)
    ensures d.Dispatch? ==> |candidates| != 0 && d.selected == candidates[0]
    ensures d.Dispatch? ==> d.selected.id in CandidateIds(s, env, spt)
    ensures d.Dispatch? ==> d.selected.id in s.workers && d.selected.res == NeedRes(s, env, spt, d.selected.id)
  {
    if |s.workers| == 0 {
      return Reject(NoPostWorker(s.postType)), [];
    }
    var canDo;
    canDo, candidates := ReadyWorkers(s, env, spt);
    if !canDo {
      if primary {
        return Wait, candidates;
      }
      return Reject(NoPostWorker(s.postType)), candidates;
    }
    return Dispatch(candidates[0]), candidates;
  }

  /**
    The re-evaluation a parked primary request performs after each wake-up.
    The emptiness check happens only on entry, so a woken request never fails:
    it waits again or dispatches, even if the registry has meanwhile emptied.
   */
  method Rewake(s: Scheduler, env: Env, spt: ProofType)
    returns (d: Decision, candidates: seq<Candidate>)
    ensures !d.Reject?
    ensures d.Wait? <==> CandidateIds(s, env, spt) == {}
    ensures IsCandidateList(s, env, spt, candidates)
    ensures d.Dispatch? ==> |candidates| != 0 && d.selected == candidates[0]
    ensures d.Dispatch? ==> d.selected.id in CandidateIds(s, env, spt)
    ensures d.Dispatch? ==> d.selected.id in s.workers && d.selected.res == NeedRes(s, env, spt, d.selected.id)
  {
    var canDo;
    canDo, candidates := ReadyWorkers(s, env, spt);
    if !canDo {
      return Wait, candidates;
    }
    return Dispatch(candidates[0]), candidates;
  }

  /** The registry as seen by the `j`-th evaluation: on entry, then after each wake-up. */
  function StateAt(s: Scheduler, woken: seq<Scheduler>, j: nat): Scheduler
    requires j <= |woken|
  {
    if j == 0 then s else woken[j - 1]
  }

  /**
    The whole wait-and-retry protocol, given the registry states a parked
    request observes after successive wake-ups; they all belong to the same
    scheduler, so they serve the same task type. Returns the final decision
    and the number `k` of wake-ups consumed. A request is rejected only on
    entry; every evaluation before the `k`-th found no candidate; a dispatch
    picks an admitted worker of the `k`-th state; a request still waiting has
    used up every wake-up.
   */
  method ScheduleWithWakeups(s: Scheduler, env: Env, primary: bool, spt: ProofType, woken: seq<Scheduler>)
    returns (d: Decision, k: nat)
    requires forall i :: 0 <= i < |woken| ==> woken[i].postType == s.postType
    ensures k <= |woken|
    ensures d.Reject? <==> |s.workers| == 0 || (!primary && CandidateIds(s, env, spt) == {})
    ensures d.Reject? ==> k == 0 && d.err == NoPostWorker(s.postType)
    ensures !primary ==> k == 0 && !d.Wait?
    ensures forall j :: 0 <= j < k ==> CandidateIds(StateAt(s, woken, j), env, spt) == {}
    ensures d.Dispatch? ==> d.selected.id in CandidateIds(StateAt(s, woken, k), env, spt)
    ensures d.Dispatch? ==>
      var t := StateAt(s, woken, k);
      d.selected.id in t.workers && d.selected.res == NeedRes(t, env, spt, d.selected.id)
    ensures d.Wait? ==> k == |woken| && CandidateIds(StateAt(s, woken, k), env, spt) == {}
  {
    var candidates;
    d, candidates := Schedule(s, env, primary, spt);
    k := 0;
    while d.Wait? && k < |woken|
      invariant k <= |woken|
      invariant d.Reject? <==> |s.workers| == 0 || (!primary && CandidateIds(s, env, spt) == {})
      invariant d.Reject? ==> k == 0 && d.err == NoPostWorker(s.postType)
      invariant k > 0 ==> primary && |s.workers| != 0
      invariant d.Wait? ==> primary && CandidateIds(StateAt(s, woken, k), env, spt) == {}
      invariant forall j :: 0 <= j < k ==> CandidateIds(StateAt(s, woken, j), env, spt) == {}
      invariant d.Dispatch? ==> d.selected.id in CandidateIds(StateAt(s, woken, k), env, spt)
      invariant d.Dispatch? ==>
        var t := StateAt(s, woken, k);
        d.selected.id in t.workers && d.selected.res == NeedRes(t, env, spt, d.selected.id)
      decreases |woken| - k
    {
      k := k + 1;
      d, candidates := Rewake(woken[k - 1], env, spt);
    }
  }
}
