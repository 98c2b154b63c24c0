/**
  The candidate selector: the list of registered workers whose admission gate
  accepts the resource requirement of a PoSt request right now.
 */
module Candidates {
  import opened PostTypes
  import Registry

  /** The resources worker `wid` would reserve for proof type `spt`, from its own resource table. */
  function NeedRes(s: Scheduler, env: Env, spt: ProofType, wid: WorkerId): Resources
    requires wid in s.workers
  {
    env.resourceSpec(s.workers[wid].info, spt, s.postType)
  }

  /** Worker `wid` is registered and its admission gate accepts its own requirement. */
  ghost predicate Admits(s: Scheduler, env: Env, spt: ProofType, wid: WorkerId)
  {
    wid in s.workers && env.canHandleRequest(s.workers[wid].info, wid, NeedRes(s, env, spt, wid))
  }

  /** The reference set of workers a request for `spt` may be placed on. */
  ghost function CandidateIds(s: Scheduler, env: Env, spt: ProofType): set<WorkerId>
  {
    set wid | wid in s.workers && Admits(s, env, spt, wid)
  }

  /** No worker appears twice in a candidate list. */
  ghost predicate Distinct(cs: seq<Candidate>)
  {
    forall i, j :: 0 <= i < j < |cs| ==> cs[i].id != cs[j].id
  }

  /** Every entry of `cs` is an admitted worker paired with its own requirement. */
  ghost predicate OnlyAdmitted(s: Scheduler, env: Env, spt: ProofType, cs: seq<Candidate>)
  {
    forall i :: 0 <= i < |cs| ==>
      Admits(s, env, spt, cs[i].id) && cs[i].res == NeedRes(s, env, spt, cs[i].id)
  }

  /** Every admitted worker appears in `cs`. */
  ghost predicate AllAdmitted(s: Scheduler, env: Env, spt: ProofType, cs: seq<Candidate>)
  {
    forall wid :: Admits(s, env, spt, wid) ==> exists i :: 0 <= i < |cs| && cs[i].id == wid
  }

  /** `cs` lists each admitted worker exactly once, in some order, and nothing else. */
  ghost predicate IsCandidateList(s: Scheduler, env: Env, spt: ProofType, cs: seq<Candidate>)
  {
    Distinct(cs) && OnlyAdmitted(s, env, spt, cs) && AllAdmitted(s, env, spt, cs)
  }

  /**
    Collects the admitted workers. The order in which the registry is walked is
    left open, which covers both the unordered map walk and the shuffle that
    follows it: any order of the admitted workers may come out.
   */
  method ReadyWorkers(s: Scheduler, env: Env, spt: ProofType)
    returns (canDo: bool, accepts: seq<Candidate>)
    ensures canDo <==> |accepts| != 0
    ensures IsCandidateList(s, env, spt, accepts)
    ensures canDo <==> CandidateIds(s, env, spt) != {}
  {
    accepts := [];
    var rest := s.workers.Keys;
    while rest != {}
      invariant rest <= s.workers.Keys
      invariant Distinct(accepts)
      invariant OnlyAdmitted(s, env, spt, accepts)
      invariant forall i :: 0 <= i < |accepts| ==> accepts[i].id !in rest
      invariant forall wid :: wid in s.workers && wid !in rest && Admits(s, env, spt, wid) ==>
        exists i :: 0 <= i < |accepts| && accepts[i].id == wid
      decreases rest
    {
      var wid :| wid in rest;
      var needRes := NeedRes(s, env, spt, wid);
      var before := accepts;
      if env.canHandleRequest(s.workers[wid].info, wid, needRes) {
        accepts := accepts + [Candidate(wid, needRes)];
      }
      rest := rest - {wid};
      forall w | w in s.workers && w !in rest && Admits(s, env, spt, w)
        ensures exists i :: 0 <= i < |accepts| && accepts[i].id == w
      {
        if w == wid {
          assert accepts[|accepts| - 1].id == w;
        } else {
          var i :| 0 <= i < |before| && before[i].id == w;
          assert accepts[i].id == w;
        }
      }
    }
    canDo := |accepts| != 0;
    if canDo {
      assert accepts[0].id in CandidateIds(s, env, spt);
    }
  }

  /** In a list without repeated ids, each candidate occurs at most once. */
  lemma {:induction false} DistinctOccurrences(cs: seq<Candidate>, c: Candidate)
    requires Distinct(cs)
    ensures multiset(cs)[c] == if c in cs then 1 else 0
  {
    if cs != [] {
      var t := cs[1..];
      assert cs == [cs[0]] + t;
      assert Distinct(t) by {
        forall i, j | 0 <= i < j < |t| ensures t[i].id != t[j].id {
          assert t[i] == cs[i + 1] && t[j] == cs[j + 1];
        }
      }
      DistinctOccurrences(t, c);
      if c == cs[0] {
        assert c !in t by {
          forall k | 0 <= k < |t| ensures t[k] != c {
            assert t[k] == cs[k + 1];
          }
        }
      }
    }
  }

  /** Membership in a candidate list is decided by the reference set alone. */
  lemma CandidateMembership(s: Scheduler, env: Env, spt: ProofType, cs: seq<Candidate>, c: Candidate)
    requires IsCandidateList(s, env, spt, cs)
    ensures c in cs <==>
      c.id in CandidateIds(s, env, spt) && c.res == NeedRes(s, env, spt, c.id)
  {
  }

  /** Any two candidate lists for the same state are permutations of each other. */
  lemma CandidateListsArePermutations(s: Scheduler, env: Env, spt: ProofType, a: seq<Candidate>, b: seq<Candidate>)
    requires IsCandidateList(s, env, spt, a)
    requires IsCandidateList(s, env, spt, b)
    ensures multiset(a) == multiset(b)
  {
    forall c: Candidate ensures multiset(a)[c] == multiset(b)[c] {
      DistinctOccurrences(a, c);
      DistinctOccurrences(b, c);
      CandidateMembership(s, env, spt, a, c);
      CandidateMembership(s, env, spt, b, c);
    }
  }

  /** The ids listed in `cs`. */
  function IdsOf(cs: seq<Candidate>): (ids: set<WorkerId>)
    ensures forall i :: 0 <= i < |cs| ==> cs[i].id in ids
    ensures forall wid :: wid in ids ==> exists i :: 0 <= i < |cs| && cs[i].id == wid
  {
    if cs == [] then {} else {cs[0].id} + IdsOf(cs[1..])
  }

  /** A list without repeated ids has as many entries as distinct ids. */
  lemma {:induction false} DistinctIdsCount(cs: seq<Candidate>)
    requires Distinct(cs)
    ensures |IdsOf(cs)| == |cs|
  {
    if cs != [] {
      var t := cs[1..];
      assert Distinct(t) by {
        forall i, j | 0 <= i < j < |t| ensures t[i].id != t[j].id {
          assert t[i] == cs[i + 1] && t[j] == cs[j + 1];
        }
      }
      DistinctIdsCount(t);
      assert cs[0].id !in IdsOf(t) by {
        forall k | 0 <= k < |t| ensures t[k].id != cs[0].id {
          assert t[k] == cs[k + 1];
        }
      }
      assert IdsOf(cs) == {cs[0].id} + IdsOf(t);
    }
  }

  /** A candidate list is exactly as long as the reference set is large. */
  lemma CandidateListSize(s: Scheduler, env: Env, spt: ProofType, cs: seq<Candidate>)
    requires IsCandidateList(s, env, spt, cs)
    ensures |cs| == |CandidateIds(s, env, spt)|
  {
    DistinctIdsCount(cs);
    assert IdsOf(cs) == CandidateIds(s, env, spt);
  }

  /**
    The selector never consults the `enabled` flag: flipping it leaves the
    candidate set as it was, so exclusion of disabled workers rests entirely
    on the admission gate.
   */
  lemma CandidatesIgnoreFlag(s: Scheduler, env: Env, spt: ProofType, wid: WorkerId)
    requires wid in s.workers
    ensures CandidateIds(Registry.Enable(s, wid), env, spt) == CandidateIds(s, env, spt)
    ensures CandidateIds(Registry.Disable(s, wid), env, spt) == CandidateIds(s, env, spt)
  {
  }

  /**
    Concretely: a disabled worker whose admission gate accepts its requirement
    is a candidate, and `ReadyWorkers` lists it.
   */
  lemma DisabledWorkerCanBeCandidate(s: Scheduler, env: Env, spt: ProofType, wid: WorkerId)
    requires wid in s.workers && !s.workers[wid].enabled
    requires env.canHandleRequest(s.workers[wid].info, wid, NeedRes(s, env, spt, wid))
    ensures wid in CandidateIds(s, env, spt)
  {
  }

  /**
    The candidate set the comment above the selector's loop describes: admitted
    workers that are also enabled. Nothing in the dispatch path uses it; it is
    the intended counterpart of `CandidateIds`.
   */
  ghost function IntendedCandidateIds(s: Scheduler, env: Env, spt: ProofType): (r: set<WorkerId>)
    ensures r <= CandidateIds(s, env, spt)
    ensures forall wid :: wid in r ==> wid in s.workers && s.workers[wid].enabled
  {
    set wid | wid in s.workers && Admits(s, env, spt, wid) && s.workers[wid].enabled
  }

  /** A disabled worker is never an intended candidate, whatever its admission gate says. */
  lemma IntendedExcludesDisabled(s: Scheduler, env: Env, spt: ProofType, wid: WorkerId)
    requires wid in s.workers && !s.workers[wid].enabled
    ensures wid !in IntendedCandidateIds(s, env, spt)
  {
  }

  /** On enabled workers the intended set and the implemented one agree. */
  lemma IntendedAgreesOnEnabled(s: Scheduler, env: Env, spt: ProofType, wid: WorkerId)
    requires wid in s.workers && s.workers[wid].enabled
    ensures wid in IntendedCandidateIds(s, env, spt) <==> wid in CandidateIds(s, env, spt)
  {
  }

  /** Removing a worker removes exactly that worker from the candidate set. */
  lemma DelWorkerCandidates(s: Scheduler, env: Env, spt: ProofType, wid: WorkerId)
    ensures CandidateIds(Registry.DelWorker(s, wid).0, env, spt) == CandidateIds(s, env, spt) - {wid}
  {
  }
}
