/** The worker pool as interleaved steps: any number of workers and of pushing threads around one mutex,
    one condition variable and one task list.  A step is what a thread does between two points where
    another thread may run. */
module PoolSteps {
  import opened Seqs

  type Task = nat

  /** Where a worker is in its endless loop. */
  datatype WorkerPc =
    | Top           // about to lock
    | Test          // holds the lock, about to look at the list
    | Blocked       // in the condition wait, lock released
    | Woken         // leaving the wait, about to lock again
    | Take          // holds the lock, has seen a task
    | Leave(task: Task)  // holds the lock, has taken the task out of the list
    | Run(task: Task)    // runs the task, lock released

  /** Where a pushing thread is. */
  datatype PusherPc =
    | Away
    | Arrived(task: Task)   // about to lock
    | Locked(task: Task)    // holds the lock, about to append
    | Appended              // holds the lock, about to signal
    | Signalled             // holds the lock, about to release it

  datatype Owner = Nobody | Worker(w: nat) | Pusher(p: nat)

  /** The shared state, and what happened so far: the tasks appended, taken out and finished, in order. */
  datatype Pool = Pool(owner: Owner, tasks: seq<Task>, workers: seq<WorkerPc>, pushers: seq<PusherPc>,
                       pushed: seq<Task>, taken: seq<Task>, finished: seq<Task>)

  /** After `nThreadPoolCreate`. */
  function Create(workers: nat, pushers: nat): Pool {
    Pool(Nobody, [], seq(if workers < 1 then 1 else workers, _ => Top), seq(pushers, _ => Away), [], [], [])
  }

  datatype Step =
    | Lock(w: nat)
    | Look(w: nat)
    | TakeTask(w: nat)
    | Unlock(w: nat)
    | Finish(w: nat)
    | Spurious(w: nat)
    | Arrive(p: nat, task: Task)
    | PushLock(p: nat)
    | Append(p: nat)
    | Signal(p: nat, woken: set<nat>)
    | PushUnlock(p: nat)

  predicate AnyBlocked(workers: seq<WorkerPc>) { exists w :: 0 <= w < |workers| && workers[w] == Blocked }

  /** A signal wakes at least one blocked worker, if there is any. */
  predicate MayWake(workers: seq<WorkerPc>, woken: set<nat>) {
    && (forall w :: w in woken ==> w < |workers| && workers[w] == Blocked)
    && (AnyBlocked(workers) ==> woken != {})
  }

  predicate Enabled(s: Pool, step: Step) {
    match step
    case Lock(w) => w < |s.workers| && (s.workers[w].Top? || s.workers[w].Woken?) && s.owner == Nobody
    case Look(w) => w < |s.workers| && s.workers[w].Test?
    case TakeTask(w) => w < |s.workers| && s.workers[w].Take?
    case Unlock(w) => w < |s.workers| && s.workers[w].Leave?
    case Finish(w) => w < |s.workers| && s.workers[w].Run?
    case Spurious(w) => w < |s.workers| && s.workers[w].Blocked?
    case Arrive(p, _) => p < |s.pushers| && s.pushers[p].Away?
    case PushLock(p) => p < |s.pushers| && s.pushers[p].Arrived? && s.owner == Nobody
    case Append(p) => p < |s.pushers| && s.pushers[p].Locked?
    case Signal(p, woken) => p < |s.pushers| && s.pushers[p].Appended? && MayWake(s.workers, woken)
    case PushUnlock(p) => p < |s.pushers| && s.pushers[p].Signalled?
  }

  function Wake(workers: seq<WorkerPc>, woken: set<nat>): (r: seq<WorkerPc>)
    ensures |r| == |workers|
  {
    seq(|workers|, w requires 0 <= w < |workers| => if w in woken then Woken else workers[w])
  }

  /** One step.  Looking at an empty list is the condition wait, which releases the lock. */
  function Next(s: Pool, step: Step): Pool
    requires Enabled(s, step)
  {
    match step
    case Lock(w) => s.(owner := Worker(w), workers := s.workers[w := Test])
    case Look(w) =>
      if s.tasks == [] then s.(owner := Nobody, workers := s.workers[w := Blocked])
      else s.(workers := s.workers[w := Take])
    case TakeTask(w) =>
      if s.tasks == [] then s
      else s.(tasks := s.tasks[1..], workers := s.workers[w := Leave(s.tasks[0])], taken := s.taken + [s.tasks[0]])
    case Unlock(w) => s.(owner := Nobody, workers := s.workers[w := Run(s.workers[w].task)])
    case Finish(w) => s.(workers := s.workers[w := Top], finished := s.finished + [s.workers[w].task])
    case Spurious(w) => s.(workers := s.workers[w := Woken])
    case Arrive(p, task) => s.(pushers := s.pushers[p := Arrived(task)])
    case PushLock(p) => s.(owner := Pusher(p), pushers := s.pushers[p := Locked(s.pushers[p].task)])
    case Append(p) =>
      var task := s.pushers[p].task;
      s.(tasks := s.tasks + [task], pushers := s.pushers[p := Appended], pushed := s.pushed + [task])
    case Signal(p, woken) => s.(workers := Wake(s.workers, woken), pushers := s.pushers[p := Signalled])
    case PushUnlock(p) => s.(owner := Nobody, pushers := s.pushers[p := Away])
  }

  /** An interleaving; a step that cannot happen is skipped. */
  function Interleave(s: Pool, steps: seq<Step>): Pool
    decreases |steps|
  {
    if steps == [] then s
    else Interleave(if Enabled(s, steps[0]) then Next(s, steps[0]) else s, steps[1..])
  }

  // ----- counting -----

  predicate Awake(pc: WorkerPc) { pc.Top? || pc.Test? || pc.Woken? || pc.Take? }

  /** The workers that are neither blocked nor busy. */
  function IdleAwake(workers: seq<WorkerPc>): nat {
    if workers == [] then 0
    else IdleAwake(workers[..|workers| - 1]) + if Awake(workers[|workers| - 1]) then 1 else 0
  }

  function Held(pc: WorkerPc): multiset<Task> {
    if pc.Leave? || pc.Run? then multiset{pc.task} else multiset{}
  }

  /** The tasks in the hands of workers. */
  function AllHeld(workers: seq<WorkerPc>): multiset<Task> {
    if workers == [] then multiset{} else AllHeld(workers[..|workers| - 1]) + Held(workers[|workers| - 1])
  }

  lemma {:induction false} IdleMoves(workers: seq<WorkerPc>, w: nat, pc: WorkerPc)
    requires w < |workers|
    ensures IdleAwake(workers[w := pc]) + (if Awake(workers[w]) then 1 else 0)
         == IdleAwake(workers) + (if Awake(pc) then 1 else 0)
  {
    hide Awake;
    var n := |workers| - 1;
    if w < n {
      IdleMoves(workers[..n], w, pc);
      assert workers[w := pc][..n] == workers[..n][w := pc];
    } else {
      assert workers[w := pc][..n] == workers[..n];
    }
  }

  lemma Exchange(a: multiset<Task>, b: multiset<Task>, outgoing: multiset<Task>, incoming: multiset<Task>,
                 h: multiset<Task>)
    requires b + outgoing == a + incoming
    ensures (b + h) + outgoing == (a + h) + incoming
    ensures incoming == multiset{} ==> a == b + outgoing
    ensures outgoing == multiset{} ==> b == a + incoming
    ensures outgoing == incoming ==> a == b
  {
    assert (b + h) + outgoing == (b + outgoing) + h && (a + h) + incoming == (a + incoming) + h;
    assert forall t :: b[t] + outgoing[t] == (b + outgoing)[t] == (a + incoming)[t] == a[t] + incoming[t];
    if incoming == multiset{} {
      assert a + incoming == a;
    }
    if outgoing == multiset{} {
      assert b + outgoing == b;
    }
    if outgoing == incoming {
      assert forall t :: a[t] == b[t];
    }
  }

  lemma {:induction false} HeldMoves(workers: seq<WorkerPc>, w: nat, pc: WorkerPc)
    requires w < |workers|
    ensures AllHeld(workers[w := pc]) + Held(workers[w]) == AllHeld(workers) + Held(pc)
  {
    hide Held;
    var n := |workers| - 1;
    if w < n {
      HeldMoves(workers[..n], w, pc);
      Exchange(AllHeld(workers[..n]), AllHeld(workers[..n][w := pc]), Held(workers[w]), Held(pc), Held(workers[n]));
      assert workers[w := pc][..n] == workers[..n][w := pc];
    } else {
      assert workers[w := pc][..n] == workers[..n];
    }
  }

  lemma WorkerHeld(workers: seq<WorkerPc>, w: nat, pc: WorkerPc)
    requires w < |workers|
    ensures Held(pc) == multiset{} ==> AllHeld(workers) == AllHeld(workers[w := pc]) + Held(workers[w])
    ensures Held(workers[w]) == multiset{} ==> AllHeld(workers[w := pc]) == AllHeld(workers) + Held(pc)
    ensures Held(workers[w]) == Held(pc) ==> AllHeld(workers[w := pc]) == AllHeld(workers)
  {
    HeldMoves(workers, w, pc);
    Exchange(AllHeld(workers), AllHeld(workers[w := pc]), Held(workers[w]), Held(pc), multiset{});
  }

  lemma WakeFront(workers: seq<WorkerPc>, woken: set<nat>)
    requires workers != []
    ensures Wake(workers, woken)[..|workers| - 1] == Wake(workers[..|workers| - 1], woken)
    ensures Wake(workers, woken)[|workers| - 1] == if |workers| - 1 in woken then Woken else workers[|workers| - 1]
  {
  }

  lemma {:induction false} WakeHeld(workers: seq<WorkerPc>, woken: set<nat>)
    requires forall w :: w in woken && w < |workers| ==> workers[w] == Blocked
    ensures AllHeld(Wake(workers, woken)) == AllHeld(workers)
  {
    if workers != [] {
      hide Wake;
      WakeFront(workers, woken);
      WakeHeld(workers[..|workers| - 1], woken);
    }
  }

  lemma {:induction false} WakeIdle(workers: seq<WorkerPc>, woken: set<nat>, w: nat)
    requires forall w :: w in woken && w < |workers| ==> workers[w] == Blocked
    ensures IdleAwake(Wake(workers, woken)) >= IdleAwake(workers) + if w in woken && w < |workers| then 1 else 0
  {
    if workers != [] {
      hide Wake;
      WakeFront(workers, woken);
      WakeIdle(workers[..|workers| - 1], woken, w);
    }
  }

  // ----- what every interleaving keeps -----

  predicate WorkerHolds(pc: WorkerPc) { pc.Test? || pc.Take? || pc.Leave? }

  predicate PusherHolds(pc: PusherPc) { pc.Locked? || pc.Appended? || pc.Signalled? }

  /** The thread inside a locked region is the owner of the mutex, and nobody else is in one. */
  predicate Exclusive(s: Pool) {
    && (forall w :: 0 <= w < |s.workers| ==> (WorkerHolds(s.workers[w]) <==> s.owner == Worker(w)))
    && (forall p :: 0 <= p < |s.pushers| ==> (PusherHolds(s.pushers[p]) <==> s.owner == Pusher(p)))
    && (s.owner.Worker? ==> s.owner.w < |s.workers|)
    && (s.owner.Pusher? ==> s.owner.p < |s.pushers|)
  }

  /** A worker about to take finds a task. */
  predicate TakersFindOne(s: Pool) {
    forall w :: 0 <= w < |s.workers| && s.workers[w].Take? ==> s.tasks != []
  }

  /** A push is between its append and its signal. */
  predicate SignalPending(s: Pool) {
    s.owner.Pusher? && s.owner.p < |s.pushers| && s.pushers[s.owner.p].Appended?
  }

  /** While a worker is blocked, every queued task has an idle worker awake for it; only the task of a
      push that has not signalled yet may lack one. */
  predicate WorkConserved(s: Pool) {
    AnyBlocked(s.workers) ==> |s.tasks| <= IdleAwake(s.workers) + if SignalPending(s) then 1 else 0
  }

  /** Tasks leave the list in the order in which they entered it. */
  predicate InOrder(s: Pool) { s.pushed == s.taken + s.tasks }

  /** Every task taken out is in the hands of one worker, or was finished. */
  predicate Accounted(s: Pool) { multiset(s.taken) == multiset(s.finished) + AllHeld(s.workers) }

  predicate Good(s: Pool) {
    Exclusive(s) && TakersFindOne(s) && WorkConserved(s) && InOrder(s) && Accounted(s)
  }

  lemma {:induction false} CreateCounts(n: nat)
    ensures AllHeld(seq(n, _ => Top)) == multiset{}
  {
    if n > 0 {
      CreateCounts(n - 1);
      assert seq(n, _ => Top)[..n - 1] == seq(n - 1, _ => Top);
    }
  }

  lemma StepExclusive(s: Pool, step: Step)
    requires Exclusive(s) && Enabled(s, step)
    ensures Exclusive(Next(s, step))
  {
  }

  lemma StepTakers(s: Pool, step: Step)
    requires Exclusive(s) && TakersFindOne(s) && Enabled(s, step)
    ensures TakersFindOne(Next(s, step))
  {
  }

  /** A worker step neither blocks anyone while a task is queued nor wastes a wake-up. */
  lemma WorkerStepWork(s: Pool, step: Step, w: nat)
    requires Exclusive(s) && TakersFindOne(s) && WorkConserved(s) && Enabled(s, step)
    requires step in [Lock(w), Look(w), TakeTask(w), Unlock(w), Finish(w), Spurious(w)]
    ensures WorkConserved(Next(s, step))
  {
    hide IdleAwake, AllHeld;
    var s' := Next(s, step);
    IdleMoves(s.workers, w, s'.workers[w]);
    if AnyBlocked(s'.workers) && s.tasks != [] {
      var b :| 0 <= b < |s'.workers| && s'.workers[b] == Blocked;
      assert s.workers[b] == Blocked;
    }
  }

  lemma SignalWork(s: Pool, p: nat, woken: set<nat>)
    requires Exclusive(s) && WorkConserved(s) && Enabled(s, Signal(p, woken))
    ensures WorkConserved(Next(s, Signal(p, woken)))
  {
    hide IdleAwake, AllHeld;
    var s' := Next(s, Signal(p, woken));
    if AnyBlocked(s'.workers) {
      var b :| 0 <= b < |s'.workers| && s'.workers[b] == Blocked;
      assert s.workers[b] == Blocked;
      var w :| w in woken;
      WakeIdle(s.workers, woken, w);
    }
  }

  lemma StepWork(s: Pool, step: Step)
    requires Exclusive(s) && TakersFindOne(s) && WorkConserved(s) && Enabled(s, step)
    ensures WorkConserved(Next(s, step))
  {
    match step
    case Signal(p, woken) => SignalWork(s, p, woken);
    case Arrive(_, _) => hide IdleAwake, AllHeld;
    case PushLock(_) => hide IdleAwake, AllHeld;
    case Append(_) => hide IdleAwake, AllHeld;
    case PushUnlock(_) => hide IdleAwake, AllHeld;
    case _ => hide *; WorkerStepWork(s, step, step.w);
  }

  lemma StepInOrder(s: Pool, step: Step)
    requires InOrder(s) && Enabled(s, step)
    ensures InOrder(Next(s, step))
  {
    match step
    case Append(p) => Assoc(s.taken, s.tasks, [s.pushers[p].task]);
    case TakeTask(_) =>
      if s.tasks != [] {
        Assoc(s.taken, [s.tasks[0]], s.tasks[1..]);
        assert [s.tasks[0]] + s.tasks[1..] == s.tasks;
      }
    case _ =>
  }

  lemma Grow(a: seq<Task>, t: Task, b: multiset<Task>, c: multiset<Task>)
    ensures multiset(a + [t]) == multiset(a) + multiset{t}
    ensures multiset(a) == b + c ==> multiset(a + [t]) == b + (c + multiset{t})
    ensures multiset(a) + (c + multiset{t}) == multiset(a + [t]) + c
  {
  }

  lemma TakeAccounted(s: Pool, w: nat)
    requires Accounted(s) && Enabled(s, TakeTask(w))
    ensures Accounted(Next(s, TakeTask(w)))
  {
    hide AllHeld;
    if s.tasks != [] {
      var t := s.tasks[0];
      WorkerHeld(s.workers, w, Leave(t));
      Grow(s.taken, t, multiset(s.finished), AllHeld(s.workers));
    }
  }

  lemma FinishAccounted(s: Pool, w: nat)
    requires Accounted(s) && Enabled(s, Finish(w))
    ensures Accounted(Next(s, Finish(w)))
  {
    hide AllHeld;
    WorkerHeld(s.workers, w, Top);
    Grow(s.finished, s.workers[w].task, multiset{}, AllHeld(s.workers[w := Top]));
  }

  /** The other worker steps leave everything in the same hands. */
  lemma SameHands(s: Pool, s': Pool, w: nat, pc: WorkerPc)
    requires Accounted(s) && w < |s.workers| && Held(s.workers[w]) == Held(pc)
    requires s'.workers == s.workers[w := pc] && s'.taken == s.taken && s'.finished == s.finished
    ensures Accounted(s')
  {
    hide AllHeld, Held;
    WorkerHeld(s.workers, w, pc);
  }

  lemma SameAccount(s: Pool, s': Pool)
    requires Accounted(s) && s'.workers == s.workers && s'.taken == s.taken && s'.finished == s.finished
    ensures Accounted(s')
  {}

  lemma SignalAccounted(s: Pool, p: nat, woken: set<nat>)
    requires Accounted(s) && Enabled(s, Signal(p, woken))
    ensures Accounted(Next(s, Signal(p, woken)))
  {
    hide AllHeld, Wake;
    WakeHeld(s.workers, woken);
  }

  lemma EmptyHanded(pc: WorkerPc)
    ensures !pc.Leave? && !pc.Run? ==> Held(pc) == multiset{}
    ensures pc.Leave? ==> Held(pc) == Held(Run(pc.task))
  {}

  lemma StepAccounted(s: Pool, step: Step)
    requires Accounted(s) && Enabled(s, step)
    ensures Accounted(Next(s, step))
  {
    hide AllHeld, Held, Accounted;
    var s' := Next(s, step);
    if step.Lock? || step.Look? || step.Unlock? || step.Spurious? {
      EmptyHanded(s.workers[step.w]);
      EmptyHanded(s'.workers[step.w]);
      SameHands(s, s', step.w, s'.workers[step.w]);
    } else if step.TakeTask? {
      TakeAccounted(s, step.w);
    } else if step.Finish? {
      FinishAccounted(s, step.w);
    } else if step.Signal? {
      SignalAccounted(s, step.p, step.woken);
    } else {
      SameAccount(s, s');
    }
  }

  /** Every interleaving of any workers and pushers keeps all of it. */
  lemma {:induction false} EveryInterleaving(s: Pool, steps: seq<Step>)
    requires Good(s)
    ensures Good(Interleave(s, steps))
    decreases |steps|
  {
    if steps != [] {
      var first := steps[0];
      if Enabled(s, first) {
        StepExclusive(s, first);
        StepTakers(s, first);
        StepWork(s, first);
        StepInOrder(s, first);
        StepAccounted(s, first);
        EveryInterleaving(Next(s, first), steps[1..]);
      } else {
        EveryInterleaving(s, steps[1..]);
      }
    }
  }

  lemma {:induction false} SameThreads(s: Pool, steps: seq<Step>)
    ensures |Interleave(s, steps).workers| == |s.workers| && |Interleave(s, steps).pushers| == |s.pushers|
    decreases |steps|
  {
    if steps != [] {
      SameThreads(if Enabled(s, steps[0]) then Next(s, steps[0]) else s, steps[1..]);
    }
  }

  /** So it is from creation on, with the workers asked for, and one at least. */
  lemma FromCreate(workers: nat, pushers: nat, steps: seq<Step>)
    ensures var s := Interleave(Create(workers, pushers), steps);
            Good(s) && |s.workers| >= 1 && (workers >= 1 ==> |s.workers| == workers)
  {
    var s := Create(workers, pushers);
    CreateCounts(|s.workers|);
    EveryInterleaving(s, steps);
    SameThreads(s, steps);
  }

  // ----- consequences -----

  lemma {:induction false} SomeoneAwake(workers: seq<WorkerPc>) returns (w: nat)
    requires IdleAwake(workers) > 0
    ensures w < |workers| && Awake(workers[w])
  {
    var n := |workers| - 1;
    if Awake(workers[n]) {
      w := n;
    } else {
      w := SomeoneAwake(workers[..n]);
    }
  }

  /** Outside the moment between an append and its signal, a blocked worker means that every queued task
      has an awake worker coming for it. */
  lemma BlockedMeansServed(workers: nat, pushers: nat, steps: seq<Step>)
    ensures var s := Interleave(Create(workers, pushers), steps);
            AnyBlocked(s.workers) && !SignalPending(s) ==> |s.tasks| <= IdleAwake(s.workers)
  {
    FromCreate(workers, pushers, steps);
  }

  /** More tasks queued than awake workers, while another worker is blocked. */
  predicate Behind(s: Pool) { AnyBlocked(s.workers) && |s.tasks| > IdleAwake(s.workers) }

  /** Inside that moment it can fail.  It starts to fail exactly when a push appends while a worker is
      blocked and every awake idle worker already has a task coming; it fails only until that push
      signals. */
  lemma BehindExactly(s: Pool, step: Step)
    requires Good(s) && Enabled(s, step)
    ensures !Behind(s) ==>
              (Behind(Next(s, step)) <==> step.Append? && AnyBlocked(s.workers) && |s.tasks| == IdleAwake(s.workers))
    ensures Behind(s) ==> SignalPending(s)
    ensures step.Signal? ==> !Behind(Next(s, step))
  {
    hide IdleAwake, InOrder, Accounted, AllHeld, TakersFindOne;
    StepExclusive(s, step);
    StepTakers(s, step);
    StepWork(s, step);
    if !step.Append? && Behind(Next(s, step)) {
      StillPending(s, step);
    }
  }

  /** Only an append starts the moment before the signal, and nothing in it takes an awake worker away. */
  lemma StillPending(s: Pool, step: Step)
    requires Exclusive(s) && Enabled(s, step) && !step.Append? && SignalPending(Next(s, step)) && Behind(Next(s, step))
    ensures Behind(s)
  {
    hide IdleAwake, Wake, MayWake;
    if step.Finish? || step.Spurious? {
      IdleMoves(s.workers, step.w, if step.Finish? then Top else Woken);
      var workers := Next(s, step).workers;
      var v :| 0 <= v < |workers| && workers[v] == Blocked;
      assert s.workers[v] == Blocked;
    }
  }

  /** Inside that moment it can fail: the only worker waits while the task is already queued. */
  lemma NotBeforeTheSignal()
    ensures var s := Interleave(Create(1, 1), [Lock(0), Look(0), Arrive(0, 7), PushLock(0), Append(0)]);
            Behind(s) && SignalPending(s)
  {
    hide Interleave;
    var s0 := Create(1, 1);
    var s1 := Next(s0, Lock(0));
    var s2 := Next(s1, Look(0));
    var s3 := Next(s2, Arrive(0, 7));
    var s4 := Next(s3, PushLock(0));
    var s5 := Next(s4, Append(0));
    Follow(s0, [Lock(0), Look(0), Arrive(0, 7), PushLock(0), Append(0)], Lock(0),
           [Look(0), Arrive(0, 7), PushLock(0), Append(0)]);
    Follow(s1, [Look(0), Arrive(0, 7), PushLock(0), Append(0)], Look(0), [Arrive(0, 7), PushLock(0), Append(0)]);
    Follow(s2, [Arrive(0, 7), PushLock(0), Append(0)], Arrive(0, 7), [PushLock(0), Append(0)]);
    Follow(s3, [PushLock(0), Append(0)], PushLock(0), [Append(0)]);
    Follow(s4, [Append(0)], Append(0), []);
    NoMore(s5);
    assert s5.workers == [Blocked] && s5.workers[0] == Blocked;
  }

  lemma NoMore(s: Pool)
    ensures Interleave(s, []) == s
  {}

  lemma Follow(s: Pool, steps: seq<Step>, step: Step, rest: seq<Step>)
    requires steps == [step] + rest && Enabled(s, step)
    ensures Interleave(s, steps) == Interleave(Next(s, step), rest)
  {
    assert ([step] + rest)[1..] == rest;
  }

  /** No wake-up is lost: while a task is queued and some worker is not busy with another, some thread
      can move without any new push, spurious wake-up or finished task. */
  lemma Progress(s: Pool) returns (step: Step)
    requires Good(s) && s.tasks != []
    requires exists w :: 0 <= w < |s.workers| && !s.workers[w].Run?
    ensures Enabled(s, step) && !step.Arrive? && !step.Spurious? && !step.Finish?
  {
    match s.owner
    case Worker(w) =>
      step := if s.workers[w].Test? then Look(w) else if s.workers[w].Take? then TakeTask(w) else Unlock(w);
    case Pusher(p) =>
      if s.pushers[p].Appended? {
        var blocked := set w: nat | w < |s.workers| && s.workers[w] == Blocked;
        if AnyBlocked(s.workers) {
          var b :| 0 <= b < |s.workers| && s.workers[b] == Blocked;
          assert b in blocked;
        }
        step := Signal(p, blocked);
      } else {
        step := if s.pushers[p].Locked? then Append(p) else PushUnlock(p);
      }
    case Nobody =>
      var w :| 0 <= w < |s.workers| && !s.workers[w].Run?;
      if s.workers[w].Blocked? {
        w := SomeoneAwake(s.workers);
      }
      step := Lock(w);
  }

  /** A worker that gets the lock while a task is queued runs the oldest one. */
  lemma OldestFirst(s: Pool, w: nat)
    requires Exclusive(s) && Enabled(s, Lock(w)) && s.tasks != []
    ensures var s' := Interleave(s, [Lock(w), Look(w), TakeTask(w), Unlock(w)]);
            s'.workers == s.workers[w := Run(s.tasks[0])] && s'.tasks == s.tasks[1..] && s'.owner == Nobody
  {
    var s1 := Next(s, Lock(w));
    var s2 := Next(s1, Look(w));
    var s3 := Next(s2, TakeTask(w));
    Follow(s, [Lock(w), Look(w), TakeTask(w), Unlock(w)], Lock(w), [Look(w), TakeTask(w), Unlock(w)]);
    Follow(s1, [Look(w), TakeTask(w), Unlock(w)], Look(w), [TakeTask(w), Unlock(w)]);
    Follow(s2, [TakeTask(w), Unlock(w)], TakeTask(w), [Unlock(w)]);
    Follow(s3, [Unlock(w)], Unlock(w), []);
  }

  predicate NoRepeats(tasks: seq<Task>) { forall i, j :: 0 <= i < j < |tasks| ==> tasks[i] != tasks[j] }

  lemma {:induction false} OnceEach(tasks: seq<Task>, t: Task)
    requires NoRepeats(tasks)
    ensures multiset(tasks)[t] <= 1
  {
    if tasks != [] {
      var n := |tasks| - 1;
      OnceEach(tasks[..n], t);
      assert tasks == tasks[..n] + [tasks[n]];
      if tasks[n] == t {
        assert t !in tasks[..n];
      }
    }
  }

  lemma {:induction false} HeldByBoth(workers: seq<WorkerPc>, v: nat, w: nat, t: Task)
    requires v <= w < |workers| && t in Held(workers[v]) && t in Held(workers[w])
    ensures AllHeld(workers)[t] >= if v < w then 2 else 1
  {
    hide Held, AllHeld;
    var n := |workers| - 1;
    LastHeld(workers, t);
    if w < n {
      HeldByBoth(workers[..n], v, w, t);
    } else if v < n {
      HeldByBoth(workers[..n], v, v, t);
    }
  }

  lemma LastHeld(workers: seq<WorkerPc>, t: Task)
    requires workers != []
    ensures var n := |workers| - 1; AllHeld(workers)[t] == AllHeld(workers[..n])[t] + Held(workers[n])[t]
  {}

  /** A task pushed once is run by one worker and finished at most once, in every interleaving. */
  lemma RunOnce(workers: nat, pushers: nat, steps: seq<Step>, v: nat, w: nat, t: Task)
    requires var s := Interleave(Create(workers, pushers), steps);
             NoRepeats(s.pushed) && v < |s.workers| && t in Held(s.workers[v])
    ensures var s := Interleave(Create(workers, pushers), steps);
            && t in s.taken && t !in s.finished && t !in s.tasks && NoRepeats(s.taken)
            && (w < |s.workers| && t in Held(s.workers[w]) ==> w == v)
  {
    hide Interleave, Create, IdleAwake, AllHeld, Exclusive, WorkConserved, TakersFindOne;
    FromCreate(workers, pushers, steps);
    var s := Interleave(Create(workers, pushers), steps);
    forall i, j | 0 <= i < j < |s.taken| ensures s.taken[i] != s.taken[j] {
      assert s.pushed[i] == s.taken[i] && s.pushed[j] == s.taken[j];
    }
    OnceEach(s.taken, t);
    OnceEach(s.pushed, t);
    HeldByBoth(s.workers, v, v, t);
    assert multiset(s.taken)[t] == multiset(s.finished)[t] + AllHeld(s.workers)[t];
    assert multiset(s.pushed)[t] == multiset(s.taken)[t] + multiset(s.tasks)[t];
    if w < |s.workers| && t in Held(s.workers[w]) && w != v {
      HeldByBoth(s.workers, if v < w then v else w, if v < w then w else v, t);
    }
    InMultiset(s.taken, t);
    InMultiset(s.finished, t);
    InMultiset(s.tasks, t);
  }

  lemma InMultiset(tasks: seq<Task>, t: Task)
    ensures t in tasks <==> multiset(tasks)[t] > 0
  {
    assert t in tasks <==> t in multiset(tasks);
  }
}
