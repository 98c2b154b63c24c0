/**
  Shared vocabulary of the PoSt scheduler model: worker identities, task and
  proof types, worker handles and the scheduler state, plus the collaborators
  the scheduler consults but does not define (the resource table and the
  per-worker admission gate).
 */
module PostTypes {

  /** A worker session id (a UUID in the system); it changes when the worker restarts. */
  type WorkerId = nat

  /** The all-zero session id a worker reports once it has shut down for good. */
  const ClosedWorkerId: WorkerId := 0

  /** The task type tag a scheduler instance serves (e.g. a window- or winning-PoSt tag). */
  type TaskType = string

  /** The registered seal proof type a PoSt request is computed for. */
  type ProofType = int

  /** A worker's declared description together with its resource accounting
      state; only the collaborators in `Env` look inside it. */
  type Info(==)

  /** A resource requirement (memory, threads, GPU share); opaque to the scheduler. */
  type Resources(==)

  /** One registered worker: its opaque description and its `enabled` flag. */
  datatype WorkerHandle = WorkerHandle(info: Info, enabled: bool)

  /** The scheduler state: the worker registry and the fixed task type it serves. */
  datatype Scheduler = Scheduler(workers: map<WorkerId, WorkerHandle>, postType: TaskType)

  datatype Option<+T> = None | Some(value: T)

  /** A worker able to take the request right now, with the resources it would reserve. */
  datatype Candidate = Candidate(id: WorkerId, res: Resources)

  /**
    The collaborators the scheduler calls but does not define:
    `resourceSpec(info, spt, postType)` is the worker's resource table lookup and
    `canHandleRequest(info, wid, res)` is its admission gate.
   */
  datatype Env = Env(
    resourceSpec: (Info, ProofType, TaskType) -> Resources,
    canHandleRequest: (Info, WorkerId, Resources) -> bool)

  /** Worker `x` has the same registry entry before and after: absent in both, or the same handle. */
  ghost predicate SameEntry(m: map<WorkerId, WorkerHandle>, m': map<WorkerId, WorkerHandle>, x: WorkerId)
  {
    (x !in m && x !in m') || (x in m && x in m' && m[x] == m'[x])
  }

  /** Every key other than `k` is left exactly as it was. */
  ghost predicate SameOutside(m: map<WorkerId, WorkerHandle>, m': map<WorkerId, WorkerHandle>, k: WorkerId)
  {
    forall x {:trigger SameEntry(m, m', x)} :: x != k ==> SameEntry(m, m', x)
  }

  /** Two changes that each leave every key but `k` alone leave every key but `k` alone. */
  lemma SameOutsideTrans(m1: map<WorkerId, WorkerHandle>, m2: map<WorkerId, WorkerHandle>,
                         m3: map<WorkerId, WorkerHandle>, k: WorkerId)
    requires SameOutside(m1, m2, k) && SameOutside(m2, m3, k)
    ensures SameOutside(m1, m3, k)
  {
    forall x | x != k ensures SameEntry(m1, m3, x) {
      assert SameEntry(m1, m2, x) && SameEntry(m2, m3, x);
    }
  }

  /** Some registered worker has its `enabled` flag set. */
  ghost predicate AnyEnabled(s: Scheduler)
  {
    exists wid :: wid in s.workers && s.workers[wid].enabled
  }
}
