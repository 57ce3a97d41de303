/** The worker pool: the bounded queue as the code keeps it, and the threads around it as
    interleaved atomic steps, each thread at an explicit program point. */
module ThreadPool {

  const LOAD_BOUND := 1280

  datatype Job = Job(hostFd: int, clientFd: int, kq: int)

  datatype Option<T> = None | Some(value: T)

  /** The queue after an enqueuer's critical section. */
  function Pushed(jobs: seq<Job>, op: Job): seq<Job> {
    if |jobs| < LOAD_BOUND - 1 then jobs + [op] else jobs
  }

  /** The shared array and counter. */
  class JobQueue {
    const operations: array<Job>
    var jobCount: nat

    ghost predicate Valid()
      reads this
    {
      operations.Length == LOAD_BOUND && jobCount <= LOAD_BOUND - 1
    }

    ghost function Contents(): seq<Job>
      requires Valid()
      reads this, operations
    {
      operations[..jobCount]
    }

    constructor ()
      ensures Valid() && Contents() == [] && fresh(operations)
    {
      operations := new Job[LOAD_BOUND](_ => Job(0, 0, 0));
      jobCount := 0;
    }

    /** The critical section of `job_enqueue`. */
    method Push(op: Job) returns (busy: bool)
      requires Valid()
      modifies this, operations
      ensures Valid() && Contents() == if old(jobCount) < 1279 then old(Contents()) + [op] else old(Contents())
      ensures busy <==> old(jobCount) == 1279
    {
      busy := false;
      if jobCount < LOAD_BOUND - 1 {
        operations[jobCount] := op;
        jobCount := jobCount + 1;
      } else {
        busy := true;
      }
    }

    /** The taking branch of `thread_pool_start`: the head leaves, the rest shifts down. */
    method Take() returns (job: Job)
      requires Valid() && jobCount > 0
      modifies this, operations
      ensures Valid() && [job] + Contents() == old(Contents())
    {
      job := operations[0];
      for i := 0 to jobCount - 1
        invariant Valid() && jobCount == old(jobCount)
        invariant forall k :: 0 <= k < i ==> operations[k] == old(operations[k + 1])
        invariant forall k :: i <= k < LOAD_BOUND ==> operations[k] == old(operations[k])
      {
        operations[i] := operations[i + 1];
      }
      jobCount := jobCount - 1;
    }
  }

  // ------------------------------------------------------------------ the threads

  /** Where a worker is in `thread_pool_start`. */
  datatype WorkerPc =
    | AtLock                         // about to lock
    | Testing                        // mutex held, about to test the wait condition
    | ToWait                         // mutex held, about to call pthread_cond_wait
    | Blocked                        // in the wait, mutex released
    | Woken                          // woken, about to lock again
    | Taking                         // mutex held, wait condition false
    | Unlocking(got: Option<Job>)    // mutex held, out of the branches (None: `job` never assigned)
    | Handling(job: Option<Job>)     // in job_handle
    | Leaving                        // mutex held, in the shutdown branch
    | Gone

  /** Where a thread is in `job_enqueue`. */
  datatype EnqueuerPc =
    | Idle
    | Calling(op: Job)               // about to lock
    | Pushing(op: Job)               // mutex held, about to store the job
    | Stored                         // mutex held, about to unlock
    | Signalling                     // about to signal

  /** Where the destroying thread is in `thread_pool_destroy`. */
  datatype DestroyerPc = Before | Locking | Setting | Broadcasting | Releasing | Joining | Joined

  datatype Thread = W(w: nat) | E(e: nat) | D

  /** The shared state, all threads, and four history variables: the jobs accepted and the
      jobs taken so far, how many were accepted before shutdown was set, and how many when a
      worker last decided to leave. */
  datatype Pool = Pool(
    owner: Option<Thread>, jobs: seq<Job>, shutdown: bool,
    workers: seq<WorkerPc>, enqueuers: seq<EnqueuerPc>, destroyer: DestroyerPc,
    accepted: seq<Job>, taken: seq<Job>, early: nat, left: nat)

  datatype Action =
    | Work(w: nat)                   // worker w runs to its next program point
    | Call(e: nat, op: Job)          // thread e calls job_enqueue
    | Enqueue(e: nat)                // thread e runs up to its signal
    | Signal(e: nat, w: nat)         // thread e signals; of the blocked workers, w is woken
    | Spurious(w: nat)               // the wait returns without a signal
    | Destroy                        // the destroyer runs to its next program point

  function Init(workers: nat, enqueuers: nat): Pool {
    Pool(None, [], false, seq(workers, _ => AtLock), seq(enqueuers, _ => Idle), Before, [], [], 0, 0)
  }

  predicate WorkerHolds(pc: WorkerPc) {
    pc.Testing? || pc.ToWait? || pc.Taking? || pc.Unlocking? || pc.Leaving?
  }

  predicate EnqueuerHolds(pc: EnqueuerPc) {
    pc.Pushing? || pc.Stored?
  }

  predicate DestroyerHolds(pc: DestroyerPc) {
    pc.Setting? || pc.Broadcasting? || pc.Releasing?
  }

  predicate AllGone(ws: seq<WorkerPc>) {
    forall w :: 0 <= w < |ws| ==> ws[w].Gone?
  }

  /** Every worker has decided to leave. */
  predicate AllLeft(ws: seq<WorkerPc>) {
    forall w :: 0 <= w < |ws| ==> ws[w].Leaving? || ws[w].Gone?
  }

  predicate NoneBlocked(ws: seq<WorkerPc>) {
    forall w :: 0 <= w < |ws| ==> !ws[w].Blocked?
  }

  /** Locks are taken only when free; joining waits for every worker. */
  predicate Enabled(p: Pool, a: Action) {
    match a
    case Work(w) =>
      && w < |p.workers| && !p.workers[w].Blocked? && !p.workers[w].Gone?
      && (p.workers[w].AtLock? || p.workers[w].Woken? ==> p.owner.None?)
    case Call(e, _) => e < |p.enqueuers| && p.enqueuers[e].Idle?
    case Enqueue(e) =>
      && e < |p.enqueuers| && !p.enqueuers[e].Idle? && !p.enqueuers[e].Signalling?
      && (p.enqueuers[e].Calling? ==> p.owner.None?)
    case Signal(e, w) =>
      && e < |p.enqueuers| && p.enqueuers[e].Signalling?
      && (NoneBlocked(p.workers) || (w < |p.workers| && p.workers[w].Blocked?))
    case Spurious(w) => w < |p.workers| && p.workers[w].Blocked?
    case Destroy =>
      && !p.destroyer.Joined?
      && (p.destroyer.Locking? ==> p.owner.None?)
      && (p.destroyer.Joining? ==> AllGone(p.workers))
  }

  function WorkerAct(p: Pool, w: nat): Pool
    requires w < |p.workers|
  {
    match p.workers[w]
    case AtLock | Woken => p.(owner := Some(W(w)), workers := p.workers[w := Testing])
    case Testing => p.(workers := p.workers[w := if p.jobs == [] && !p.shutdown then ToWait else Taking])
    case ToWait => p.(owner := None, workers := p.workers[w := Blocked])
    case Taking =>
      if p.jobs != []
      then p.(jobs := p.jobs[1..], taken := p.taken + [p.jobs[0]], workers := p.workers[w := Unlocking(Some(p.jobs[0]))])
      else if p.shutdown then p.(workers := p.workers[w := Leaving], left := |p.accepted|)
      else p.(workers := p.workers[w := Unlocking(None)])
    case Unlocking(got) => p.(owner := None, workers := p.workers[w := Handling(got)])
    case Handling(_) => p.(workers := p.workers[w := AtLock])
    case Leaving => p.(owner := None, workers := p.workers[w := Gone])
    case Blocked | Gone => p
  }

  function EnqueuerAct(p: Pool, e: nat): Pool
    requires e < |p.enqueuers|
  {
    match p.enqueuers[e]
    case Calling(op) => p.(owner := Some(E(e)), enqueuers := p.enqueuers[e := Pushing(op)])
    case Pushing(op) =>
      var p' := p.(jobs := Pushed(p.jobs, op), enqueuers := p.enqueuers[e := Stored]);
      if |p.jobs| < LOAD_BOUND - 1
      then p'.(accepted := p.accepted + [op], early := if p.shutdown then p.early else p.early + 1)
      else p'
    case Stored => p.(owner := None, enqueuers := p.enqueuers[e := Signalling])
    case _ => p
  }

  function Wake(pc: WorkerPc): WorkerPc {
    if pc.Blocked? then Woken else pc
  }

  function DestroyerAct(p: Pool): Pool {
    match p.destroyer
    case Before => p.(destroyer := Locking)
    case Locking => p.(owner := Some(D), destroyer := Setting)
    case Setting => p.(shutdown := true, destroyer := Broadcasting)
    case Broadcasting =>
      p.(workers := seq(|p.workers|, w requires 0 <= w < |p.workers| => Wake(p.workers[w])), destroyer := Releasing)
    case Releasing => p.(owner := None, destroyer := Joining)
    case _ => p.(destroyer := Joined)
  }

  function Act(p: Pool, a: Action): Pool
    requires Enabled(p, a)
  {
    match a
    case Work(w) => WorkerAct(p, w)
    case Call(e, op) => p.(enqueuers := p.enqueuers[e := Calling(op)])
    case Enqueue(e) => EnqueuerAct(p, e)
    case Signal(e, w) =>
      var p' := p.(enqueuers := p.enqueuers[e := Idle]);
      if NoneBlocked(p.workers) then p' else p'.(workers := p.workers[w := Woken])
    case Spurious(w) => p.(workers := p.workers[w := Woken])
    case Destroy => DestroyerAct(p)
  }

  /** Any interleaving of any number of workers and enqueuers; steps not enabled do nothing. */
  function Exec(n: nat, m: nat, actions: seq<Action>): Pool {
    if actions == [] then Init(n, m)
    else
      var p, a := Exec(n, m, actions[..|actions| - 1]), actions[|actions| - 1];
      if Enabled(p, a) then Act(p, a) else p
  }

  // ------------------------------------------------------------------ counting threads

  function Total<T>(s: seq<T>, f: T -> nat): nat {
    if s == [] then 0 else f(s[0]) + Total(s[1..], f)
  }

  lemma {:induction false} TotalUpdate<T>(s: seq<T>, i: nat, x: T, f: T -> nat)
    requires i < |s|
    ensures Total(s[i := x], f) + f(s[i]) == Total(s, f) + f(x)
  {
    if i == 0 {
      assert s[i := x][1..] == s[1..];
    } else {
      TotalUpdate(s[1..], i - 1, x, f);
      assert s[i := x][1..] == s[1..][i - 1 := x];
    }
  }

  /** Workers that have not left the loop. */
  function Active(pc: WorkerPc): nat {
    if pc.Leaving? || pc.Gone? then 0 else 1
  }

  /** Active workers that will look at the queue without being signalled. */
  function Awake(pc: WorkerPc): nat {
    if pc.Blocked? then 0 else Active(pc)
  }

  /** Enqueuers between storing a job (or finding the queue full) and their signal. */
  function Owes(pc: EnqueuerPc): nat {
    if pc.Stored? || pc.Signalling? then 1 else 0
  }

  lemma {:induction false} AwakeWhenNoneBlocked(ws: seq<WorkerPc>)
    requires NoneBlocked(ws)
    ensures Total(ws, Awake) == Total(ws, Active)
  {
    if ws != [] {
      AwakeWhenNoneBlocked(ws[1..]);
    }
  }

  lemma {:induction false} AllBlockedCounts(ws: seq<WorkerPc>)
    requires forall w :: 0 <= w < |ws| ==> ws[w].Blocked?
    ensures Total(ws, Awake) == 0 && Total(ws, Active) == |ws|
  {
    if ws != [] {
      AllBlockedCounts(ws[1..]);
    }
  }

  lemma {:induction false} SomeoneOwes(es: seq<EnqueuerPc>) returns (e: nat)
    requires Total(es, Owes) > 0
    ensures e < |es| && Owes(es[e]) == 1
  {
    if Owes(es[0]) == 1 {
      e := 0;
    } else {
      e := SomeoneOwes(es[1..]);
      e := e + 1;
    }
  }

  // ------------------------------------------------------------------ the invariant

  /** The mutex is held by exactly the threads whose program point says so. */
  ghost predicate Exclusion(p: Pool) {
    && (forall w :: 0 <= w < |p.workers| ==> (WorkerHolds(p.workers[w]) <==> p.owner == Some(W(w))))
    && (forall e :: 0 <= e < |p.enqueuers| ==> (EnqueuerHolds(p.enqueuers[e]) <==> p.owner == Some(E(e))))
    && (DestroyerHolds(p.destroyer) <==> p.owner == Some(D))
    && (p.owner.Some? && p.owner.value.W? ==> p.owner.value.w < |p.workers|)
    && (p.owner.Some? && p.owner.value.E? ==> p.owner.value.e < |p.enqueuers|)
  }

  /** What each worker may rely on at its program point. */
  ghost predicate WorkersSound(p: Pool) {
    forall w :: 0 <= w < |p.workers| ==>
      match p.workers[w]
      case ToWait => p.jobs == [] && !p.shutdown
      case Taking => p.jobs != [] || p.shutdown
      case Blocked => !(p.destroyer.Releasing? || p.destroyer.Joining? || p.destroyer.Joined?)
      case Unlocking(got) => got.Some? && got.value in p.taken
      case Handling(job) => job.Some? && job.value in p.taken
      case Leaving => p.shutdown && p.early <= |p.taken|
      case Gone => p.shutdown && p.early <= |p.taken|
      case _ => true
  }

  /** Each waiting job is matched by an awake worker or a signal still owed, as far as there are workers. */
  ghost predicate NoLostSignal(p: Pool) {
    var ready := Total(p.workers, Awake) + Total(p.enqueuers, Owes);
    ready >= |p.jobs| || ready >= Total(p.workers, Active)
  }

  /** Nothing is lost, duplicated or reordered, and the queue stays below its bound. */
  ghost predicate Conserved(p: Pool) {
    && p.accepted == p.taken + p.jobs
    && |p.jobs| <= LOAD_BOUND - 1
    && p.early <= |p.accepted|
    && (!p.shutdown ==> p.early == |p.accepted|)
    && (p.shutdown <==> p.destroyer.Broadcasting? || p.destroyer.Releasing? || p.destroyer.Joining? || p.destroyer.Joined?)
    && (p.destroyer.Joined? ==> AllGone(p.workers))
  }

  /** With every worker on its way out, what was taken is what was accepted before the last one
      decided to leave. */
  ghost predicate Departed(p: Pool) {
    AllLeft(p.workers) ==> |p.taken| == p.left
  }

  ghost predicate Inv(p: Pool) {
    Conserved(p) && Exclusion(p) && WorkersSound(p) && NoLostSignal(p) && Departed(p)
  }

  /** Only a worker in the loop takes a job; who decides to leave has found the queue empty. */
  lemma ActKeepsDeparted(p: Pool, a: Action)
    requires Conserved(p) && Departed(p) && Enabled(p, a)
    ensures Departed(Act(p, a))
  {
    var p' := Act(p, a);
    if AllLeft(p'.workers) {
      forall w | 0 <= w < |p.workers| && a != Work(w)
        ensures p.workers[w].Leaving? || p.workers[w].Gone?
      {
        assert p'.workers[w] == p.workers[w];
      }
      assert a.Work? ==> p'.workers[a.w].Leaving? || p'.workers[a.w].Gone?;
    }
  }

  lemma WorkKeepsConserved(p: Pool, w: nat)
    requires Conserved(p) && Enabled(p, Work(w))
    ensures Conserved(Act(p, Work(w)))
  {
    assert p.jobs != [] ==> p.jobs == [p.jobs[0]] + p.jobs[1..];
  }

  lemma WorkKeepsExclusion(p: Pool, w: nat)
    requires Exclusion(p) && Enabled(p, Work(w))
    ensures Exclusion(Act(p, Work(w)))
  {
  }

  lemma WorkKeepsSound(p: Pool, w: nat)
    requires Conserved(p) && Exclusion(p) && WorkersSound(p) && Enabled(p, Work(w))
    ensures WorkersSound(Act(p, Work(w)))
  {
    var p' := Act(p, Work(w));
    forall v | 0 <= v < |p.workers| && v != w
      ensures p'.workers[v] == p.workers[v]
    {
    }
  }

  lemma WorkKeepsSignals(p: Pool, w: nat)
    requires WorkersSound(p) && NoLostSignal(p) && Enabled(p, Work(w))
    ensures NoLostSignal(Act(p, Work(w)))
  {
    var p' := Act(p, Work(w));
    TotalUpdate(p.workers, w, p'.workers[w], Active);
    TotalUpdate(p.workers, w, p'.workers[w], Awake);
    assert p'.workers == p.workers[w := p'.workers[w]];
  }

  lemma EnqueueKeepsSafe(p: Pool, e: nat)
    requires Conserved(p) && Exclusion(p) && WorkersSound(p) && Enabled(p, Enqueue(e))
    ensures var p' := Act(p, Enqueue(e)); Conserved(p') && Exclusion(p') && WorkersSound(p')
  {
    assert WorkersSound(Act(p, Enqueue(e)));
  }

  lemma EnqueueKeepsSignals(p: Pool, e: nat)
    requires NoLostSignal(p) && Enabled(p, Enqueue(e))
    ensures NoLostSignal(Act(p, Enqueue(e)))
  {
    var p' := Act(p, Enqueue(e));
    TotalUpdate(p.enqueuers, e, p'.enqueuers[e], Owes);
  }

  lemma CallKeepsInv(p: Pool, e: nat, op: Job)
    requires Inv(p) && Enabled(p, Call(e, op))
    ensures Inv(Act(p, Call(e, op)))
  {
    TotalUpdate(p.enqueuers, e, Calling(op), Owes);
  }

  lemma SignalKeepsSafe(p: Pool, e: nat, w: nat)
    requires Conserved(p) && Exclusion(p) && WorkersSound(p) && Enabled(p, Signal(e, w))
    ensures var p' := Act(p, Signal(e, w)); Conserved(p') && Exclusion(p') && WorkersSound(p')
  {
  }

  lemma SignalKeepsSignals(p: Pool, e: nat, w: nat)
    requires NoLostSignal(p) && Enabled(p, Signal(e, w))
    ensures NoLostSignal(Act(p, Signal(e, w)))
  {
    TotalUpdate(p.enqueuers, e, Idle, Owes);
    if NoneBlocked(p.workers) {
      AwakeWhenNoneBlocked(p.workers);
    } else {
      TotalUpdate(p.workers, w, Woken, Active);
      TotalUpdate(p.workers, w, Woken, Awake);
    }
  }

  lemma SpuriousKeepsInv(p: Pool, w: nat)
    requires Inv(p) && Enabled(p, Spurious(w))
    ensures Inv(Act(p, Spurious(w)))
  {
    TotalUpdate(p.workers, w, Woken, Active);
    TotalUpdate(p.workers, w, Woken, Awake);
  }

  lemma DestroyKeepsSafe(p: Pool)
    requires Conserved(p) && Exclusion(p) && WorkersSound(p) && Enabled(p, Destroy)
    ensures var p' := Act(p, Destroy); Conserved(p') && Exclusion(p') && WorkersSound(p')
  {
  }

  lemma DestroyKeepsSignals(p: Pool)
    requires NoLostSignal(p) && Enabled(p, Destroy)
    ensures NoLostSignal(Act(p, Destroy))
  {
    if p.destroyer.Broadcasting? {
      AwakeWhenNoneBlocked(Act(p, Destroy).workers);
    }
  }

  lemma {:induction false} InitIsGood(n: nat, m: nat)
    ensures Inv(Init(n, m))
  {
  }

  lemma ActKeepsInv(p: Pool, a: Action)
    requires Inv(p) && Enabled(p, a)
    ensures Inv(Act(p, a))
  {
    ActKeepsDeparted(p, a);
    match a
    case Work(w) =>
      WorkKeepsConserved(p, w);
      WorkKeepsExclusion(p, w);
      WorkKeepsSound(p, w);
      WorkKeepsSignals(p, w);
    case Call(e, op) => CallKeepsInv(p, e, op);
    case Enqueue(e) =>
      EnqueueKeepsSafe(p, e);
      EnqueueKeepsSignals(p, e);
    case Signal(e, w) =>
      SignalKeepsSafe(p, e, w);
      SignalKeepsSignals(p, e, w);
    case Spurious(w) => SpuriousKeepsInv(p, w);
    case Destroy =>
      DestroyKeepsSafe(p);
      DestroyKeepsSignals(p);
  }

  lemma {:induction false} ExecKeepsInv(n: nat, m: nat, actions: seq<Action>)
    ensures Inv(Exec(n, m, actions))
  {
    if actions == [] {
      InitIsGood(n, m);
    } else {
      var p, a := Exec(n, m, actions[..|actions| - 1]), actions[|actions| - 1];
      ExecKeepsInv(n, m, actions[..|actions| - 1]);
      if Enabled(p, a) {
        ActKeepsInv(p, a);
      }
    }
  }

  // ------------------------------------------------------------------ what every interleaving keeps

  /** Jobs are taken once each, in the order they were accepted; the queue keeps its bound;
      two threads are never both between lock and unlock; no worker handles a job it did not take. */
  lemma PoolSafety(n: nat, m: nat, actions: seq<Action>)
    ensures var p := Exec(n, m, actions);
            && p.accepted == p.taken + p.jobs
            && |p.jobs| <= 1279
            && (forall v, w :: 0 <= v < w < |p.workers| ==> !(WorkerHolds(p.workers[v]) && WorkerHolds(p.workers[w])))
            && (forall e, w :: 0 <= e < |p.enqueuers| && 0 <= w < |p.workers| ==>
                  !(EnqueuerHolds(p.enqueuers[e]) && WorkerHolds(p.workers[w])))
            && (forall e, f :: 0 <= e < f < |p.enqueuers| ==>
                  !(EnqueuerHolds(p.enqueuers[e]) && EnqueuerHolds(p.enqueuers[f])))
            && (DestroyerHolds(p.destroyer) ==>
                  && (forall w :: 0 <= w < |p.workers| ==> !WorkerHolds(p.workers[w]))
                  && (forall e :: 0 <= e < |p.enqueuers| ==> !EnqueuerHolds(p.enqueuers[e])))
            && (forall w :: 0 <= w < |p.workers| && p.workers[w].Handling? ==>
                  p.workers[w].job.Some? && p.workers[w].job.value in p.taken)
  {
    ExecKeepsInv(n, m, actions);
  }

  /** Once any worker has left, every job accepted before shutdown has been taken; so if
      nothing is accepted after shutdown, all accepted jobs have. */
  lemma ShutdownDrains(n: nat, m: nat, actions: seq<Action>, w: nat)
    requires w < |Exec(n, m, actions).workers| && Exec(n, m, actions).workers[w].Gone?
    ensures var p := Exec(n, m, actions);
            && p.early <= |p.taken| && p.taken <= p.accepted
            && (p.early == |p.accepted| ==> p.taken == p.accepted && p.jobs == [])
  {
    ExecKeepsInv(n, m, actions);
  }

  /** Once all workers have left, exactly the jobs accepted after the last one decided to leave
      remain in the queue, in order, and all others have been taken. */
  lemma WhatRemains(n: nat, m: nat, actions: seq<Action>)
    requires AllGone(Exec(n, m, actions).workers)
    ensures var p := Exec(n, m, actions);
            p.left <= |p.accepted| && p.taken == p.accepted[..p.left] && p.jobs == p.accepted[p.left..]
    ensures var p := Exec(n, m, actions); n > 0 ==> p.early <= p.left
  {
    ExecKeepsInv(n, m, actions);
    WorkersStay(n, m, actions);
    var p := Exec(n, m, actions);
    assert AllLeft(p.workers);
    assert n > 0 ==> p.workers[0].Gone?;
  }

  lemma {:induction false} WorkersStay(n: nat, m: nat, actions: seq<Action>)
    ensures |Exec(n, m, actions).workers| == n
  {
    if actions != [] {
      WorkersStay(n, m, actions[..|actions| - 1]);
    }
  }

  /** When jobs wait and every worker is blocked, some enqueuer still owes a signal. */
  lemma NoLostWakeup(n: nat, m: nat, actions: seq<Action>) returns (e: nat)
    requires var p := Exec(n, m, actions);
             p.jobs != [] && p.workers != [] && forall w :: 0 <= w < |p.workers| ==> p.workers[w].Blocked?
    ensures e < |Exec(n, m, actions).enqueuers| && Owes(Exec(n, m, actions).enqueuers[e]) == 1
  {
    var p := Exec(n, m, actions);
    ExecKeepsInv(n, m, actions);
    AllBlockedCounts(p.workers);
    e := SomeoneOwes(p.enqueuers);
  }

  /** After the shutdown broadcast no worker is blocked or about to block, now or later. */
  lemma NoBlockingAfterBroadcast(n: nat, m: nat, actions: seq<Action>)
    ensures var p := Exec(n, m, actions);
            p.destroyer.Releasing? || p.destroyer.Joining? || p.destroyer.Joined? ==>
              forall w :: 0 <= w < |p.workers| ==> !p.workers[w].Blocked? && !p.workers[w].ToWait?
  {
    ExecKeepsInv(n, m, actions);
  }

  /** The join returns only when every worker is gone. */
  lemma JoinedMeansGone(n: nat, m: nat, actions: seq<Action>)
    ensures var p := Exec(n, m, actions);
            p.destroyer.Joined? ==> p.shutdown && forall w :: 0 <= w < |p.workers| ==> p.workers[w].Gone?
  {
    ExecKeepsInv(n, m, actions);
  }

  // ------------------------------------------------------------------ what each thread does

  /** The pool after more steps; those not enabled do nothing. */
  function Then(p: Pool, more: seq<Action>): Pool
    decreases |more|
  {
    if more == [] then p else Then(if Enabled(p, more[0]) then Act(p, more[0]) else p, more[1..])
  }

  lemma {:induction false} ExecThen(n: nat, m: nat, actions: seq<Action>, more: seq<Action>)
    ensures Exec(n, m, actions + more) == Then(Exec(n, m, actions), more)
    decreases |more|
  {
    if more == [] {
      assert actions + more == actions;
    } else {
      ExecAppend(n, m, actions, more[0]);
      ExecThen(n, m, actions + [more[0]], more[1..]);
      assert actions + more == actions + [more[0]] + more[1..];
    }
  }

  /** With jobs waiting and the mutex free, a worker that is about to lock takes exactly the head in
      four steps, and then handles it with the mutex free again. */
  lemma TakesHead(n: nat, m: nat, actions: seq<Action>, w: nat)
    requires var p := Exec(n, m, actions);
             w < |p.workers| && (p.workers[w].AtLock? || p.workers[w].Woken?) && p.owner.None? && p.jobs != []
    ensures var p := Exec(n, m, actions);
            Exec(n, m, actions + [Work(w), Work(w), Work(w), Work(w)])
            == p.(jobs := p.jobs[1..], taken := p.taken + [p.jobs[0]], workers := p.workers[w := Handling(Some(p.jobs[0]))])
  {
    var p := Exec(n, m, actions);
    ExecThen(n, m, actions, [Work(w), Work(w), Work(w), Work(w)]);
    FourSteps(p, Work(w));
    var p1 := Act(p, Work(w));
    var p2 := Act(p1, Work(w));
    var p3 := Act(p2, Work(w));
    assert p1.workers[w] == Testing && p2.workers[w] == Taking && p3.workers[w] == Unlocking(Some(p.jobs[0]));
    assert p3.workers[w := Handling(Some(p.jobs[0]))] == p.workers[w := Handling(Some(p.jobs[0]))];
  }

  /** With none waiting and no shutdown it blocks, having changed nothing, in three. */
  lemma WaitsWhenEmpty(n: nat, m: nat, actions: seq<Action>, w: nat)
    requires var p := Exec(n, m, actions);
             w < |p.workers| && (p.workers[w].AtLock? || p.workers[w].Woken?) && p.owner.None? && p.jobs == [] && !p.shutdown
    ensures var p := Exec(n, m, actions);
            Exec(n, m, actions + [Work(w), Work(w), Work(w)]) == p.(workers := p.workers[w := Blocked])
  {
    var p := Exec(n, m, actions);
    ExecThen(n, m, actions, [Work(w), Work(w), Work(w)]);
    ThreeSteps(p, Work(w));
    var p2 := Act(Act(p, Work(w)), Work(w));
    assert p2.workers[w] == ToWait && p2.workers[w := Blocked] == p.workers[w := Blocked];
  }

  /** After shutdown it leaves for good, in four. */
  lemma LeavesAfterShutdown(n: nat, m: nat, actions: seq<Action>, w: nat)
    requires var p := Exec(n, m, actions);
             w < |p.workers| && (p.workers[w].AtLock? || p.workers[w].Woken?) && p.owner.None? && p.jobs == [] && p.shutdown
    ensures var p := Exec(n, m, actions);
            Exec(n, m, actions + [Work(w), Work(w), Work(w), Work(w)])
            == p.(workers := p.workers[w := Gone], left := |p.accepted|)
  {
    var p := Exec(n, m, actions);
    ExecThen(n, m, actions, [Work(w), Work(w), Work(w), Work(w)]);
    FourSteps(p, Work(w));
    var p3 := Act(Act(Act(p, Work(w)), Work(w)), Work(w));
    assert p3.workers[w] == Leaving && p3.workers[w := Gone] == p.workers[w := Gone];
  }

  /** And from handling a job it goes back to the lock. */
  lemma HandledThenLocks(n: nat, m: nat, actions: seq<Action>, w: nat)
    requires var p := Exec(n, m, actions); w < |p.workers| && p.workers[w].Handling?
    ensures var p := Exec(n, m, actions);
            Exec(n, m, actions + [Work(w)]) == p.(workers := p.workers[w := AtLock])
  {
    ExecAppend(n, m, actions, Work(w));
    BackToLock(Exec(n, m, actions), w);
  }

  lemma BackToLock(p: Pool, w: nat)
    requires w < |p.workers| && p.workers[w].Handling?
    ensures Enabled(p, Work(w)) && Act(p, Work(w)) == p.(workers := p.workers[w := AtLock])
  {
  }

  /** A call with the mutex free stores the job behind those waiting, unless 1279 wait, and then owes a
      signal with the mutex free again. */
  lemma CallStores(n: nat, m: nat, actions: seq<Action>, e: nat, op: Job)
    requires var p := Exec(n, m, actions); e < |p.enqueuers| && p.enqueuers[e].Idle? && p.owner.None?
    ensures var p, p' := Exec(n, m, actions), Exec(n, m, actions + [Call(e, op), Enqueue(e), Enqueue(e), Enqueue(e)]);
            && p'.enqueuers == p.enqueuers[e := Signalling] && p'.owner.None?
            && p'.workers == p.workers && p'.destroyer == p.destroyer && p'.shutdown == p.shutdown && p'.taken == p.taken
            && (|p.jobs| < 1279 ==> p'.jobs == p.jobs + [op] && p'.accepted == p.accepted + [op])
            && (|p.jobs| >= 1279 ==> p'.jobs == p.jobs && p'.accepted == p.accepted)
  {
    var p, a := Exec(n, m, actions), Enqueue(e);
    var p1 := Act(p, Call(e, op));
    var p2 := Act(p1, a);
    var p3 := Act(p2, a);
    ExecThen(n, m, actions, [Call(e, op), a, a, a]);
    assert Then(p, [Call(e, op), a, a, a]) == Then(p1, [a, a, a]) by {
      assert [Call(e, op), a, a, a][1..] == [a, a, a];
    }
    ThreeSteps(p1, a);
    assert p1.enqueuers[e] == Calling(op) && p2.enqueuers[e] == Pushing(op) && p3.enqueuers[e] == Stored;
    assert p3.enqueuers[e := Signalling] == p.enqueuers[e := Signalling];
  }

  /** The signal wakes the blocked worker chosen, and none if none is blocked. */
  lemma SignalWakes(n: nat, m: nat, actions: seq<Action>, e: nat, w: nat)
    requires var p := Exec(n, m, actions); e < |p.enqueuers| && p.enqueuers[e].Signalling?
    ensures var p, p' := Exec(n, m, actions), Exec(n, m, actions + [Signal(e, w)]);
            && (w < |p.workers| && p.workers[w].Blocked? ==>
                  p' == p.(enqueuers := p.enqueuers[e := Idle], workers := p.workers[w := Woken]))
            && ((forall v :: 0 <= v < |p.workers| ==> !p.workers[v].Blocked?) ==>
                  p' == p.(enqueuers := p.enqueuers[e := Idle]))
  {
    ExecAppend(n, m, actions, Signal(e, w));
  }

  /** A destroyer that finds the mutex free sets shutdown, wakes every blocked worker and joins. */
  lemma DestroyerWakesAll(n: nat, m: nat, actions: seq<Action>)
    requires var p := Exec(n, m, actions); p.destroyer.Locking? && p.owner.None?
    ensures var p, p' := Exec(n, m, actions), Exec(n, m, actions + [Destroy, Destroy, Destroy, Destroy]);
            && p'.shutdown && p'.destroyer.Joining? && p'.owner.None?
            && p'.jobs == p.jobs && p'.accepted == p.accepted && p'.taken == p.taken && p'.enqueuers == p.enqueuers
            && |p'.workers| == |p.workers|
            && forall w :: 0 <= w < |p.workers| ==>
                 p'.workers[w] == if p.workers[w].Blocked? then Woken else p.workers[w]
  {
    var p := Exec(n, m, actions);
    ExecThen(n, m, actions, [Destroy, Destroy, Destroy, Destroy]);
    FourSteps(p, Destroy);
  }

  /** The remaining steps, and what no step does: the destroyer asks for the mutex, and returns once
      every worker is gone but not before; a wait may end by itself; a blocked worker or one that is
      gone does nothing, and a free mutex is needed to lock. */
  lemma OtherSteps(n: nat, m: nat, actions: seq<Action>, w: nat, e: nat)
    ensures var p := Exec(n, m, actions);
            && (p.destroyer.Before? ==> Exec(n, m, actions + [Destroy]) == p.(destroyer := Locking))
            && (p.destroyer.Joining? ==>
                  Exec(n, m, actions + [Destroy])
                  == if forall v :: 0 <= v < |p.workers| ==> p.workers[v].Gone? then p.(destroyer := Joined) else p)
            && ((p.destroyer.Locking? && p.owner.Some?) || p.destroyer.Joined? ==> Exec(n, m, actions + [Destroy]) == p)
            && (w < |p.workers| ==>
                  && (p.workers[w].Blocked? ==> Exec(n, m, actions + [Spurious(w)]) == p.(workers := p.workers[w := Woken]))
                  && (p.workers[w].Blocked? || p.workers[w].Gone? ==> Exec(n, m, actions + [Work(w)]) == p)
                  && ((p.workers[w].AtLock? || p.workers[w].Woken?) && p.owner.Some? ==> Exec(n, m, actions + [Work(w)]) == p))
            && (e < |p.enqueuers| && p.enqueuers[e].Calling? && p.owner.Some? ==> Exec(n, m, actions + [Enqueue(e)]) == p)
  {
    ExecAppend(n, m, actions, Destroy);
    ExecAppend(n, m, actions, Spurious(w));
    ExecAppend(n, m, actions, Work(w));
    ExecAppend(n, m, actions, Enqueue(e));
  }

  /** At first all workers are about to lock, nobody calls, and nothing waits. */
  lemma AtFirst(n: nat, m: nat)
    ensures var p := Exec(n, m, []);
            && p.owner.None? && p.jobs == p.accepted == p.taken == [] && !p.shutdown && p.destroyer.Before?
            && |p.workers| == n && (forall w :: 0 <= w < n ==> p.workers[w].AtLock?)
            && |p.enqueuers| == m && (forall e :: 0 <= e < m ==> p.enqueuers[e].Idle?)
  {
  }

  lemma ThreeSteps(p: Pool, a: Action)
    ensures Then(p, [a, a, a]) == Once(Once(Once(p, a), a), a)
  {
    var s := [a, a, a];
    assert s[1..] == [a, a] && s[1..][1..] == [a] && s[1..][1..][1..] == [];
    assert Then(p, s) == Then(Once(p, a), s[1..]);
    assert Then(Once(p, a), s[1..]) == Then(Once(Once(p, a), a), s[1..][1..]);
  }

  lemma FourSteps(p: Pool, a: Action)
    ensures Then(p, [a, a, a, a]) == Once(Once(Once(Once(p, a), a), a), a)
  {
    assert [a, a, a, a][1..] == [a, a, a];
    assert Then(p, [a, a, a, a]) == Then(Once(p, a), [a, a, a]);
    ThreeSteps(Once(p, a), a);
  }

  function Once(p: Pool, a: Action): Pool {
    if Enabled(p, a) then Act(p, a) else p
  }

  // ------------------------------------------------------------------ the mutex is released

  /** The next step of a thread. */
  function StepOf(t: Thread): Action {
    match t
    case W(w) => Work(w)
    case E(e) => Enqueue(e)
    case D => Destroy
  }

  /** How many steps the holder still makes before it unlocks. */
  function HoldLeft(p: Pool): nat {
    match p.owner
    case None => 0
    case Some(W(w)) =>
      if w >= |p.workers| then 0
      else (match p.workers[w] case Testing => 3 case Taking => 2 case _ => 1)
    case Some(E(e)) => if e < |p.enqueuers| && p.enqueuers[e].Pushing? then 2 else 1
    case Some(D) => (match p.destroyer case Setting => 3 case Broadcasting => 2 case _ => 1)
  }

  lemma HolderMoves(p: Pool)
    requires Inv(p) && p.owner.Some?
    ensures var h := StepOf(p.owner.value);
            && 0 < HoldLeft(p) <= 3 && Enabled(p, h)
            && HoldLeft(Act(p, h)) < HoldLeft(p)
            && Act(p, h).owner == (if HoldLeft(p) == 1 then None else p.owner)
  {
    match p.owner.value
    case W(w) => assert WorkerHolds(p.workers[w]);
    case E(e) => assert EnqueuerHolds(p.enqueuers[e]);
    case D => assert DestroyerHolds(p.destroyer);
  }

  lemma OthersWait(p: Pool, a: Action)
    requires Inv(p) && p.owner.Some? && Enabled(p, a) && a != StepOf(p.owner.value)
    ensures Act(p, a).owner == p.owner && HoldLeft(Act(p, a)) == HoldLeft(p)
  {
  }

  /** In every reachable state the holder can move, and comes nearer to unlocking, which it does after
      three steps at most; every other step leaves it where it is. */
  lemma HolderReleases(n: nat, m: nat, actions: seq<Action>, a: Action)
    requires Exec(n, m, actions).owner.Some?
    ensures var p := Exec(n, m, actions);
            var h := StepOf(p.owner.value);
            && 0 < HoldLeft(p) <= 3 && Enabled(p, h)
            && HoldLeft(Act(p, h)) < HoldLeft(p)
            && Act(p, h).owner == (if HoldLeft(p) == 1 then None else p.owner)
            && (Enabled(p, a) && a != h ==> Act(p, a).owner == p.owner && HoldLeft(Act(p, a)) == HoldLeft(p))
  {
    ExecKeepsInv(n, m, actions);
    var p := Exec(n, m, actions);
    HolderMoves(p);
    if Enabled(p, a) && a != StepOf(p.owner.value) {
      OthersWait(p, a);
    }
  }

  // ------------------------------------------------------------------ the join returns

  /** How many steps a worker can still make after the broadcast without taking a job. */
  function Rank(pc: WorkerPc): nat {
    match pc
    case Gone => 0
    case Leaving => 1
    case Taking => 2
    case Testing => 3
    case AtLock => 4
    case Woken => 4
    case Handling(_) => 5
    case Unlocking(_) => 6
    case ToWait => 7
    case Blocked => 7
  }

  function StepsLeft(p: Pool): nat {
    5 * |p.jobs| + Total(p.workers, Rank)
  }

  /** While the destroyer joins, every worker step brings the end nearer, so only finitely
      many are left unless jobs keep arriving. */
  lemma JoinProgress(n: nat, m: nat, actions: seq<Action>, w: nat)
    requires var p := Exec(n, m, actions); p.destroyer.Joining? && Enabled(p, Work(w))
    ensures var p := Exec(n, m, actions); StepsLeft(Act(p, Work(w))) < StepsLeft(p)
  {
    var p := Exec(n, m, actions);
    ExecKeepsInv(n, m, actions);
    var p' := Act(p, Work(w));
    TotalUpdate(p.workers, w, p'.workers[w], Rank);
    assert p'.workers == p.workers[w := p'.workers[w]];
  }

  /** And while some worker remains, some thread can move: the join cannot deadlock. */
  lemma JoinIsNotStuck(n: nat, m: nat, actions: seq<Action>, w: nat) returns (a: Action)
    requires var p := Exec(n, m, actions);
             p.destroyer.Joining? && w < |p.workers| && !p.workers[w].Gone?
    ensures Enabled(Exec(n, m, actions), a) && (a.Work? || a.Enqueue?)
  {
    var p := Exec(n, m, actions);
    ExecKeepsInv(n, m, actions);
    match p.owner
    case None => a := Work(w);
    case Some(W(v)) => a := Work(v);
    case Some(E(e)) => a := Enqueue(e);
    case Some(D) => assert false;
  }

  // ------------------------------------------------------------------ every accepted job is taken

  /** Job number `k` in the order of acceptance waits. */
  predicate Waits(p: Pool, k: nat) {
    |p.taken| <= k < |p.accepted|
  }

  /** How many worker steps job `k` can still have to wait. */
  function ToGo(p: Pool, k: nat): int {
    5 * (k + 1 - |p.taken|) + Total(p.workers, Rank)
  }

  lemma WorkerComesNearer(p: Pool, w: nat, k: nat)
    requires Inv(p) && Enabled(p, Work(w)) && Waits(p, k)
    ensures ToGo(Act(p, Work(w)), k) < ToGo(p, k)
  {
    var p' := Act(p, Work(w));
    assert p.jobs != [];
    TotalUpdate(p.workers, w, p'.workers[w], Rank);
    assert p'.workers == p.workers[w := p'.workers[w]];
  }

  lemma {:induction false} WakingLowers(ws: seq<WorkerPc>, ws': seq<WorkerPc>)
    requires |ws'| == |ws| && forall w :: 0 <= w < |ws| ==> ws'[w] == Wake(ws[w])
    ensures Total(ws', Rank) <= Total(ws, Rank)
  {
    if ws != [] {
      WakingLowers(ws[1..], ws'[1..]);
    }
  }

  /** No other step takes a job or makes one wait longer. */
  lemma OthersDoNotDelay(p: Pool, a: Action, k: nat)
    requires Enabled(p, a) && !a.Work?
    ensures ToGo(Act(p, a), k) <= ToGo(p, k) && Act(p, a).taken == p.taken
  {
    var p' := Act(p, a);
    match a
    case Signal(e, w) =>
      if !NoneBlocked(p.workers) {
        TotalUpdate(p.workers, w, Woken, Rank);
      }
    case Spurious(w) => TotalUpdate(p.workers, w, Woken, Rank);
    case Destroy =>
      if p.destroyer.Broadcasting? {
        WakingLowers(p.workers, p'.workers);
      }
    case _ =>
  }

  /** The worker steps among `more` that are made. */
  function WorkerSteps(p: Pool, more: seq<Action>): nat
    decreases |more|
  {
    if more == [] then 0
    else (if more[0].Work? && Enabled(p, more[0]) then 1 else 0) + WorkerSteps(Once(p, more[0]), more[1..])
  }

  lemma {:induction false} TakenWithin(p: Pool, more: seq<Action>, k: nat)
    requires Inv(p) && k < |p.accepted| && (Waits(p, k) ==> WorkerSteps(p, more) >= ToGo(p, k))
    ensures Inv(Then(p, more)) && |Then(p, more).taken| > k && p.accepted <= Then(p, more).accepted
    decreases |more|
  {
    if more == [] {
      TotalIsNat(p.workers);
    } else {
      var a := more[0];
      if Enabled(p, a) {
        ActKeepsInv(p, a);
        if a.Work? && Waits(p, k) {
          WorkerComesNearer(p, a.w, k);
        } else if !a.Work? {
          OthersDoNotDelay(p, a, k);
        }
        AcceptedGrows(p, a);
      }
      TakenWithin(Once(p, a), more[1..], k);
    }
  }

  lemma TotalIsNat(ws: seq<WorkerPc>)
    ensures Total(ws, Rank) >= 0
  {
  }

  lemma AcceptedGrows(p: Pool, a: Action)
    requires Enabled(p, a)
    ensures p.accepted <= Act(p, a).accepted && |p.taken| <= |Act(p, a).taken|
  {
  }

  /** From every reachable state and whatever else happens, calls and shutdown included, an accepted job
      is taken within so many worker steps. */
  lemma JobIsTaken(n: nat, m: nat, actions: seq<Action>, more: seq<Action>, k: nat)
    requires k < |Exec(n, m, actions).accepted|
    requires WorkerSteps(Exec(n, m, actions), more) >= ToGo(Exec(n, m, actions), k)
    ensures var p, p' := Exec(n, m, actions), Exec(n, m, actions + more);
            k < |p'.taken| && p'.taken[k] == p.accepted[k]
  {
    ExecKeepsInv(n, m, actions);
    ExecThen(n, m, actions, more);
    TakenWithin(Exec(n, m, actions), more, k);
  }

  /** And while a job waits and some worker has not decided to leave, a worker can step; or the mutex is
      held, by a thread that is about to release it; or all such workers are blocked and a signal is due. */
  lemma SomeoneMoves(n: nat, m: nat, actions: seq<Action>, w: nat) returns (a: Action)
    requires var p := Exec(n, m, actions);
             p.jobs != [] && w < |p.workers| && !p.workers[w].Leaving? && !p.workers[w].Gone?
    ensures var p := Exec(n, m, actions);
            && Enabled(p, a)
            && (a.Work? || (p.owner.Some? && a == StepOf(p.owner.value)) || (a.Signal? && a.w < |p.workers| && p.workers[a.w].Blocked?))
  {
    var p := Exec(n, m, actions);
    ExecKeepsInv(n, m, actions);
    if p.owner.Some? {
      HolderMoves(p);
      a := StepOf(p.owner.value);
    } else if !p.workers[w].Blocked? {
      a := Work(w);
    } else if v :| 0 <= v < |p.workers| && Awake(p.workers[v]) == 1 {
      a := Work(v);
    } else {
      NobodyAwake(p.workers);
      SomeActive(p.workers, w);
      var e := SomeoneOwes(p.enqueuers);
      assert p.enqueuers[e].Signalling?;
      a := Signal(e, w);
    }
  }

  lemma {:induction false} NobodyAwake(ws: seq<WorkerPc>)
    requires forall v :: 0 <= v < |ws| ==> Awake(ws[v]) == 0
    ensures Total(ws, Awake) == 0
  {
    if ws != [] {
      NobodyAwake(ws[1..]);
    }
  }

  lemma {:induction false} SomeActive(ws: seq<WorkerPc>, w: nat)
    requires w < |ws| && Active(ws[w]) == 1
    ensures Total(ws, Active) > 0
  {
    if w > 0 {
      SomeActive(ws[1..], w - 1);
    }
  }

  /** Before shutdown no worker has decided to leave. */
  lemma NobodyLeavesEarly(n: nat, m: nat, actions: seq<Action>, w: nat)
    requires !Exec(n, m, actions).shutdown
    ensures var p := Exec(n, m, actions);
            |p.workers| == n && (w < n ==> !p.workers[w].Leaving? && !p.workers[w].Gone?)
  {
    ExecKeepsInv(n, m, actions);
    WorkersStay(n, m, actions);
  }

  lemma {:induction false} ExecAppend(n: nat, m: nat, before: seq<Action>, a: Action)
    ensures var p := Exec(n, m, before);
            Exec(n, m, before + [a]) == if Enabled(p, a) then Act(p, a) else p
  {
    assert (before + [a])[..|before|] == before;
  }

  /** Shutdown with a single worker and nothing queued: both sides finish. */
  lemma {:induction false} QuietShutdown() returns (actions: seq<Action>)
    ensures Exec(1, 1, actions) == Pool(None, [], true, [Gone], [Idle], Joining, [], [], 0, 0)
  {
    actions := [];
    var p := Init(1, 1);
    for k := 0 to 5
      invariant Exec(1, 1, actions) == p
      invariant p == Pool(if 2 <= k <= 4 then Some(D) else None, [], k >= 3, [AtLock], [Idle],
                          [Before, Locking, Setting, Broadcasting, Releasing, Joining][k], [], [], 0, 0)
    {
      ExecAppend(1, 1, actions, Destroy);
      actions, p := actions + [Destroy], Act(p, Destroy);
    }
    for k := 0 to 4
      invariant Exec(1, 1, actions) == p
      invariant p == Pool(if 1 <= k <= 3 then Some(W(0)) else None, [], true,
                          [[AtLock, Testing, Taking, Leaving, Gone][k]], [Idle], Joining, [], [], 0, 0)
    {
      ExecAppend(1, 1, actions, Work(0));
      actions, p := actions + [Work(0)], Act(p, Work(0));
    }
  }

  /** The condition on late jobs is needed: a job accepted after the last worker left is
      never taken, whatever happens next. */
  lemma {:induction false} LateJobStays(op: Job) returns (actions: seq<Action>)
    ensures var p := Exec(1, 1, actions); AllGone(p.workers) && p.accepted == p.jobs == [op] && p.taken == []
  {
    actions := QuietShutdown();
    ExecAppend(1, 1, actions, Call(0, op));
    actions := actions + [Call(0, op)];
    ExecAppend(1, 1, actions, Enqueue(0));
    actions := actions + [Enqueue(0)];
    ExecAppend(1, 1, actions, Enqueue(0));
    actions := actions + [Enqueue(0)];
  }

  /** With every worker gone, no step takes a job or brings a worker back. */
  lemma GoneForGood(p: Pool, a: Action)
    requires AllGone(p.workers) && Enabled(p, a)
    ensures AllGone(Act(p, a).workers) && Act(p, a).taken == p.taken
  {
  }
}
