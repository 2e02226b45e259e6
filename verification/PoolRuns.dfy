/** What the thread pool promises over whole runs: exactly once, in order, nobody asleep, shutdown ends. */
module PoolRuns {
  import opened Options
  import opened TaskPool
  import opened Tally
  import opened PoolProtocol
  import opened Runs

  ghost predicate PoolRun(run: seq<State>, events: seq<Event>) {
    IsRun(Step, run, events)
  }

  ghost predicate AllExited(s: State) {
    forall w :: 0 <= w < |s.workers| ==> s.workers[w] == Exited
  }

  /** The invariant holds in every state of every run, with any number of adders and destroyers. */
  lemma {:induction false} RunInv(run: seq<State>, events: seq<Event>, i: nat)
    requires PoolRun(run, events) && Inv(run[0]) && i < |run|
    ensures Inv(run[i]) && |run[i].workers| == |run[0].workers|
  {
    var inv := s => Inv(s) && |s.workers| == |run[0].workers|;
    forall s, e, t | inv(s) && Step(s, e, t) ensures inv(t) {
      StepKeepsInv(s, e, t);
    }
    Kept(Step, inv, run, events, 0, i);
  }

  /**
   In every state of every run the ring is a FIFO queue: what was accepted is what was begun, in
   that order, followed by the slots read from `head`; hence the unstarted tasks are a suffix.
   */
  lemma {:induction false} RingIsFifo(run: seq<State>, events: seq<Event>, i: nat)
    requires PoolRun(run, events) && Init(run[0]) && i < |run|
    ensures run[i].pool.WellFormed()
    ensures Accepted(run[i]) == run[i].begun + run[i].pool.Pending()
    ensures forall task ::
              multiset(Accepted(run[i]))[task]
              == multiset(run[i].finished)[task] + InHand(run[i].workers, task)
                 + multiset(run[i].pool.Pending())[task]
  {
    InitInv(run[0]);
    RunInv(run, events, i);
  }

  /** No lost wakeup: outside `threadpool_add` and `threadpool_destroy`, if a worker sleeps then the
      awake idle workers are at least as many as the queued tasks. */
  lemma {:induction false} NoLostWakeup(run: seq<State>, events: seq<Event>, i: nat)
    requires PoolRun(run, events) && Init(run[0]) && i < |run|
    requires run[i].owner == Free || run[i].owner.Worker?
    requires ParkedSet(run[i].workers) != {}
    ensures run[i].pool.count <= Idle(run[i].workers)
  {
    InitInv(run[0]);
    RunInv(run, events, i);
  }

  // After the flag ------------------------------------------------------------------

  /** `t` is a later state of a pool that was shutting down at `s`. */
  ghost predicate Settled(s: State, t: State) {
    && t.pool.shutdown == s.pool.shutdown
    && Accepted(t) == Accepted(s)
    && s.begun <= t.begun
    && (s.pool.shutdown == Immediate ==> t.begun == s.begun)
  }

  lemma {:induction false} SettledByStep(s: State, e: Event)
    requires Inv(s) && Enabled(s, e) && s.pool.shutdown != Open
    ensures Settled(s, Next(s, e))
  {
    var t := Next(s, e);
    if e.AddUnlock? {
      assert t.answers[..|t.answers| - 1] == s.answers;
    }
  }

  lemma {:induction false} SettledTwice(s: State, t: State, u: State)
    requires Settled(s, t) && Settled(t, u)
    ensures Settled(s, u)
  {
  }

  /** The flag is set once; from then on nothing more is accepted, and under an immediate shutdown nothing begins. */
  lemma {:induction false} AfterTheFlag(run: seq<State>, events: seq<Event>, i: nat, j: nat)
    requires PoolRun(run, events) && Inv(run[0]) && i <= j < |run|
    requires run[i].pool.shutdown != Open
    ensures Settled(run[i], run[j])
  {
    RunInv(run, events, i);
    var settled := s => Inv(s) && Settled(run[i], s);
    forall s, e, t | settled(s) && Step(s, e, t) ensures settled(t) {
      StepKeepsInv(s, e, t);
      SettledByStep(s, e);
      SettledTwice(run[i], s, t);
    }
    Kept(Step, settled, run, events, i, j);
  }

  /** The flags of the first `threadpool_destroy` to get the lock. */
  ghost function FirstFlags(events: seq<Event>): Option<int> {
    if |events| == 0 then None
    else
      var before, e := FirstFlags(events[..|events| - 1]), events[|events| - 1];
      if before.Some? then before else if e.DestroyLock? then Some(e.flags) else None
  }

  ghost predicate ModeFollows(s: State, first: Option<int>) {
    && (Called(s) <==> first.Some?)
    && (first.Some? && s.pool.shutdown != Open ==> (s.pool.shutdown == Graceful <==> first.value % 2 == 1))
    && (first.Some? && s.pool.shutdown == Open && s.owner.Destroying? ==> s.owner.flags == first.value)
  }

  lemma {:induction false} ModeStep(s: State, e: Event, t: State, first: Option<int>)
    requires Inv(s) && Step(s, e, t) && ModeFollows(s, first)
    ensures ModeFollows(t, if first.Some? then first else if e.DestroyLock? then Some(e.flags) else None)
  {
    DestroyStep(s, e, t);
    hide Inv, Live, ParkedSet, Wake;
  }

  /** In every run the mode of a pool that shuts down is that of the first destroy: graceful if and only if its
      flags have the lowest bit set. */
  lemma {:induction false} ModeIsThatOfFirstDestroy(run: seq<State>, events: seq<Event>)
    requires PoolRun(run, events) && Init(run[0])
    ensures ModeFollows(run[|events|], FirstFlags(events))
  {
    var n := |events|;
    if n != 0 {
      Prefix(Step, run, events);
      ModeIsThatOfFirstDestroy(run[..n], events[..n - 1]);
      InitInv(run[0]);
      RunInv(run, events, n - 1);
      ModeStep(run[n - 1], events[n - 1], run[n], FirstFlags(events[..n - 1]));
    }
  }

  lemma {:induction false} ExitedMeansFlag(s: State)
    requires Inv(s) && AllExited(s) && 0 < |s.workers|
    ensures s.pool.shutdown == Immediate || (s.pool.shutdown == Graceful && s.pool.count == 0)
  {
    assert s.workers[0] == Exited;
  }

  /**
   Graceful shutdown is exactly-once: when every worker has left a pool whose first destroy had the
   graceful flag, the queue is empty and the tasks that ended are, with multiplicity, those for which
   `threadpool_add` returned 0.
   */
  lemma {:induction false} GracefulIsExactlyOnce(run: seq<State>, events: seq<Event>)
    requires PoolRun(run, events) && Init(run[0]) && 0 < |run[0].workers|
    requires AllExited(run[|events|]) && FirstFlags(events).Some? && FirstFlags(events).value % 2 == 1
    ensures var last := run[|events|];
            && last.pool.shutdown == Graceful && last.pool.count == 0
            && last.begun == Acknowledged(last.answers)
            && multiset(last.finished) == multiset(Acknowledged(last.answers))
  {
    var last := run[|events|];
    InitInv(run[0]);
    RunInv(run, events, |events|);
    ExitedMeansFlag(last);
    ModeIsThatOfFirstDestroy(run, events);
    NothingInHand(last);
    assert last.pool.Pending() == [];
    assert last.begun + [] == last.begun;
    assert Acknowledged(last.answers) + InFlight(last.owner) == Acknowledged(last.answers);
    assert multiset(last.finished) == multiset(last.begun);
  }

  /** Immediate shutdown, by a first destroy without that flag: what ended is what had begun when the flag was
      set, and the rest of what was accepted never starts. */
  lemma {:induction false} ImmediateConserves(run: seq<State>, events: seq<Event>, i: nat)
    requires PoolRun(run, events) && Init(run[0]) && i <= |events|
    requires run[i].pool.shutdown != Open && FirstFlags(events).Some? && FirstFlags(events).value % 2 == 0
    requires AllExited(run[|events|])
    ensures var last := run[|events|];
            && last.pool.WellFormed() && last.pool.shutdown == Immediate
            && last.begun == run[i].begun
            && multiset(last.finished) == multiset(run[i].begun)
            && Acknowledged(last.answers) == run[i].begun + last.pool.Pending()
  {
    var last := run[|events|];
    InitInv(run[0]);
    RunInv(run, events, |events|);
    AfterTheFlag(run, events, i, |events|);
    ModeIsThatOfFirstDestroy(run, events);
    NothingInHand(last);
    assert Acknowledged(last.answers) + InFlight(last.owner) == Acknowledged(last.answers);
    assert multiset(last.finished) == multiset(last.begun);
  }

  // What the callers of threadpool_add are told -----------------------------------------

  /** The task of the last `threadpool_add` to get the lock. */
  ghost function LastAdded(events: seq<Event>): Option<Task> {
    if |events| == 0 then None
    else if events[|events| - 1].AddLock? then Some(events[|events| - 1].task)
    else LastAdded(events[..|events| - 1])
  }

  /** The answer due to an add that finds the pool like this. */
  ghost function CodeDue(pool: Pool): int {
    if pool.count == |pool.queue| then -3 else if pool.shutdown != Open then -4 else 0
  }

  /** The answers due to the adds of a run, each decided at its `AddStore`. */
  ghost function Due(run: seq<State>, events: seq<Event>): seq<(Task, int)>
    requires |run| == |events| + 1
    decreases |events|
  {
    if |events| == 0 then []
    else
      var n := |events| - 1;
      var task := LastAdded(events[..n]);
      Due(run[..n + 1], events[..n])
      + if events[n].AddStore? && task.Some? then [(task.value, CodeDue(run[n].pool))] else []
  }

  /** The answers given, and the one that is settled but not yet given. */
  ghost function Settling(s: State): seq<(Task, int)> {
    s.answers + match s.owner
                case Stored(task) => [(task, 0)]
                case Answering(task, err) => [(task, err)]
                case _ => []
  }

  /** In every run every caller is answered for the task it came with: 0 for a task that was queued, queue full
      if there was no room, shutdown if there was but the pool was shutting down. */
  lemma {:induction false} AnswersAreDue(run: seq<State>, events: seq<Event>)
    requires PoolRun(run, events) && Init(run[0])
    ensures Settling(run[|events|]) == Due(run, events)
    ensures run[|events|].owner.Adding? ==> LastAdded(events) == Some(run[|events|].owner.task)
  {
    var n := |events| - 1;
    if 0 <= n {
      Prefix(Step, run, events);
      AnswersAreDue(run[..n + 1], events[..n]);
      AnswerStep(run[n], events[n], run[n + 1]);
    }
  }

  lemma {:induction false} AnswerStep(s: State, e: Event, t: State)
    requires Step(s, e, t)
    ensures Settling(t) == Settling(s) + if e.AddStore? then [(s.owner.task, CodeDue(s.pool))] else []
    ensures e.AddStore? ==> s.owner.Adding?
    ensures t.owner.Adding? ==> if e.AddLock? then t.owner.task == e.task else s.owner == t.owner
  {
  }

  lemma {:induction false} NothingInHand(s: State)
    requires Inv(s) && AllExited(s)
    ensures forall task :: InHand(s.workers, task) == 0
    ensures s.pool.started == 0
  {
    SumConstant(LiveOne, s.workers, 0);
    forall task: Task ensures InHand(s.workers, task) == 0 {
      SumConstant(HasInHand(task), s.workers, 0);
    }
  }

  /** `threadpool_free` looks at `started`, and that is 0 exactly when every worker has left. */
  lemma {:induction false} FreeSeesAllExited(s: State)
    requires Inv(s)
    ensures 0 < s.pool.started <==> !AllExited(s)
  {
    if AllExited(s) {
      NothingInHand(s);
    } else {
      SumAtLeast(LiveOne, s.workers);
    }
  }

  /** The pool can be freed from the moment the last worker leaves, and not before: leaving counts one less,
      and the count reaches 0 exactly when no other worker is left. */
  lemma {:induction false} LastToLeave(s: State, w: nat)
    requires Inv(s) && Enabled(s, WorkerRelease(w)) && s.workers[w] == Leaving
    ensures var t := Next(s, WorkerRelease(w));
            FreeCode(s.pool) == -1
            && (FreeCode(t.pool) == 0 <==> forall v :: 0 <= v < |s.workers| && v != w ==> s.workers[v] == Exited)
  {
    var t := Next(s, WorkerRelease(w));
    StepKeepsInv(s, WorkerRelease(w), t);
    FreeSeesAllExited(s);
    FreeSeesAllExited(t);
    assert AllExited(t) <==> forall v :: 0 <= v < |s.workers| && v != w ==> t.workers[v] == Exited;
  }

  // Shutdown ends -------------------------------------------------------------------

  function Weight(p: Phase): int {
    match p
    case Taken(_) => 5
    case Running(_) => 4
    case Parked => 4
    case Contending => 3
    case Woken => 3
    case Holding => 2
    case Leaving => 1
    case Exited => 0
  }

  /** Bounds the worker steps still to come once the flag is set. */
  ghost function Measure(s: State): int {
    Sum(Weight, s.workers) + 4 * s.pool.count
  }

  predicate IsWorkerStep(e: Event) {
    e.WorkerLock? || e.WorkerJudge? || e.WorkerRelease? || e.WorkerFinish? || e.SpuriousWake?
  }

  lemma {:induction false} JudgeShrinks(s: State, w: nat)
    requires s.pool.shutdown != Open && Enabled(s, WorkerJudge(w))
    ensures Measure(AfterJudge(s, w)) < Measure(s)
  {
    SumUpdate(Weight, s.workers, w, AfterJudge(s, w).workers[w]);
  }

  lemma {:induction false} MeasureIsNatural(s: State)
    ensures 0 <= Measure(s)
  {
    SumAtLeast(Weight, s.workers);
  }

  lemma {:induction false} WorkerStepsShrink(s: State, e: Event, t: State)
    requires s.pool.shutdown != Open && Step(s, e, t)
    ensures Measure(t) <= Measure(s)
    ensures IsWorkerStep(e) ==> Measure(t) < Measure(s)
  {
    match e
    case WorkerLock(w) => SumUpdate(Weight, s.workers, w, Holding);
    case WorkerJudge(w) => JudgeShrinks(s, w);
    case WorkerRelease(w) => SumUpdate(Weight, s.workers, w, t.workers[w]);
    case WorkerFinish(w) => SumUpdate(Weight, s.workers, w, Contending);
    case SpuriousWake(w) => SumUpdate(Weight, s.workers, w, Woken);
    case AddSignal(woken) => SumMonotone(Weight, t.workers, s.workers);
    case DestroyBroadcast => SumMonotone(Weight, t.workers, s.workers);
    case _ =>
  }

  ghost function WorkerSteps(events: seq<Event>): nat {
    if |events| == 0 then 0
    else WorkerSteps(events[..|events| - 1]) + if IsWorkerStep(events[|events| - 1]) then 1 else 0
  }

  /** Whatever the callers do meanwhile, after the flag the workers take at most `Measure` steps. */
  lemma {:induction false} WorkerStepsBounded(run: seq<State>, events: seq<Event>)
    requires PoolRun(run, events) && Inv(run[0]) && run[0].pool.shutdown != Open
    ensures WorkerSteps(events) <= Measure(run[0]) - Measure(run[|events|])
    ensures WorkerSteps(events) <= Measure(run[0])
  {
    var n := |events|;
    MeasureIsNatural(run[n]);
    hide Inv, Measure, Next, Enabled;
    if n != 0 {
      Prefix(Step, run, events);
      WorkerStepsBounded(run[..n], events[..n - 1]);
      AfterTheFlag(run, events, 0, n - 1);
      WorkerStepsShrink(run[n - 1], events[n - 1], run[n]);
    }
  }

  /** A second `threadpool_destroy` is inside, or has returned without unlocking. */
  ghost predicate Doomed(s: State) {
    s.pool.shutdown != Open && (s.owner == Leaked || s.owner.Destroying?)
  }

  function OwnerSteps(owner: Owner): nat {
    match owner
    case Adding(_) => 2
    case Answering(_, _) => 1
    case Flagged => 2
    case Announced => 1
    case _ => 0
  }

  /** After the flag, as long as nobody destroyed the pool twice, a worker or the holder of the lock can move. */
  lemma {:induction false} Progress(s: State) returns (e: Event, t: State)
    requires Inv(s) && s.pool.shutdown != Open && !AllExited(s) && !Doomed(s)
    ensures Step(s, e, t) && !Doomed(t) && t.pool.shutdown != Open
    ensures IsWorkerStep(e) || OwnerSteps(t.owner) < OwnerSteps(s.owner)
  {
    match s.owner
    case Worker(w) =>
      e := if s.workers[w] == Holding then WorkerJudge(w) else WorkerRelease(w);
      t := Next(s, e);
    case Adding(_) => e := AddStore; t := Next(s, e);
    case Stored(_) => assert false;
    case Answering(_, _) => e := AddUnlock; t := Next(s, e);
    case Flagged => e := DestroyBroadcast; t := Next(s, e);
    case Announced => e := DestroyUnlock; t := Next(s, e);
    case Free =>
      var w :| 0 <= w < |s.workers| && s.workers[w] != Exited;
      assert w !in ParkedSet(s.workers);
      e := if s.workers[w].Running? then WorkerFinish(w) else WorkerLock(w);
      t := Next(s, e);
  }

  /** From there the pool can always be brought down: a run that ends with every worker gone. */
  lemma {:induction false} ShutdownCompletes(s: State) returns (run: seq<State>, events: seq<Event>)
    requires Inv(s) && s.pool.shutdown != Open && !Doomed(s)
    ensures PoolRun(run, events) && run[0] == s && AllExited(run[|events|])
    decreases Measure(s), OwnerSteps(s.owner)
  {
    if AllExited(s) {
      run, events := [s], [];
    } else {
      var e, t := Progress(s);
      StepKeepsInv(s, e, t);
      WorkerStepsShrink(s, e, t);
      SumAtLeast(Weight, s.workers);
      var rest, later := ShutdownCompletes(t);
      Extend(Step, s, e, rest, later);
      run, events := [s] + rest, [e] + later;
    }
  }

  /** `t` is reached from the doomed state `s`: the same workers are gone. */
  ghost predicate SameExits(s: State, t: State) {
    && |t.workers| == |s.workers|
    && forall w :: 0 <= w < |s.workers| ==> (t.workers[w] == Exited <==> s.workers[w] == Exited)
  }

  lemma {:induction false} DoomedStep(s: State, e: Event, t: State)
    requires Inv(s) && Doomed(s) && Step(s, e, t)
    ensures Doomed(t) && SameExits(s, t)
  {
  }

  /** A leaked lock is never given back, so a worker that had not left by then never does. */
  lemma {:induction false} DoomedStaysDoomed(run: seq<State>, events: seq<Event>, i: nat)
    requires PoolRun(run, events) && Inv(run[0]) && Doomed(run[0]) && i < |run|
    ensures Doomed(run[i]) && SameExits(run[0], run[i])
  {
    var stuck := s => Inv(s) && Doomed(s) && SameExits(run[0], s);
    forall s, e, t | stuck(s) && Step(s, e, t) ensures stuck(t) {
      StepKeepsInv(s, e, t);
      DoomedStep(s, e, t);
    }
    Kept(Step, stuck, run, events, 0, i);
  }

  ghost predicate CanComplete(s: State) {
    exists run, events :: PoolRun(run, events) && run[0] == s && AllExited(run[|events|])
  }

  lemma {:induction false} CanCompleteIff(s: State)
    requires Inv(s) && s.pool.shutdown != Open
    ensures CanComplete(s) <==> AllExited(s) || !Doomed(s)
  {
    if !Doomed(s) {
      var run, events := ShutdownCompletes(s);
    } else if AllExited(s) {
      assert PoolRun([s], []);
    } else if CanComplete(s) {
      var run, events :| PoolRun(run, events) && run[0] == s && AllExited(run[|events|]);
      DoomedStaysDoomed(run, events, |events|);
    }
  }

  ghost function DestroyCalls(events: seq<Event>): nat {
    if |events| == 0 then 0
    else DestroyCalls(events[..|events| - 1]) + if events[|events| - 1].DestroyLock? then 1 else 0
  }

  /** Some `threadpool_destroy` has got the lock. */
  ghost predicate Called(s: State) {
    s.pool.shutdown != Open || s.owner.Destroying?
  }

  lemma {:induction false} DestroyStep(s: State, e: Event, t: State)
    requires Inv(s) && Step(s, e, t)
    ensures Called(t) <==> Called(s) || e.DestroyLock?
    ensures Doomed(t) <==> Doomed(s) || (e.DestroyLock? && Called(s))
  {
    hide FifoHeld, HandsHeld, LockConsistent, NobodyForgotten, Live, ParkedSet, Wake;
  }

  /** The lock is lost, or about to be, if and only if `threadpool_destroy` was called a second time. */
  lemma {:induction false} DoomedIffDestroyedTwice(run: seq<State>, events: seq<Event>)
    requires PoolRun(run, events) && Init(run[0])
    ensures var last := run[|events|];
            && (1 <= DestroyCalls(events) <==> Called(last))
            && (2 <= DestroyCalls(events) <==> Doomed(last))
  {
    var n := |events|;
    if n != 0 {
      Prefix(Step, run, events);
      DoomedIffDestroyedTwice(run[..n], events[..n - 1]);
      InitInv(run[0]);
      RunInv(run, events, n - 1);
      DestroyStep(run[n - 1], events[n - 1], run[n]);
    }
  }

  /** After the flag, in every run, the workers can still all leave if and only if they have, or
      `threadpool_destroy` was called once only. */
  lemma {:induction false} CompletesIffNotDestroyedTwice(run: seq<State>, events: seq<Event>)
    requires PoolRun(run, events) && Init(run[0]) && run[|events|].pool.shutdown != Open
    ensures CanComplete(run[|events|]) <==> AllExited(run[|events|]) || DestroyCalls(events) <= 1
  {
    InitInv(run[0]);
    RunInv(run, events, |events|);
    DoomedIffDestroyedTwice(run, events);
    CanCompleteIff(run[|events|]);
  }

  /** Every run with one `threadpool_destroy` that cannot go on but by new calls has brought the pool down. */
  lemma {:induction false} ShutdownRunsComplete(run: seq<State>, events: seq<Event>)
    requires PoolRun(run, events) && Init(run[0]) && run[|events|].pool.shutdown != Open
    requires DestroyCalls(events) <= 1
    requires forall e :: Enabled(run[|events|], e) ==> e.AddLock? || e.DestroyLock?
    ensures var last := run[|events|]; AllExited(last) && last.owner == Free && FreeCode(last.pool) == 0
  {
    var last := run[|events|];
    InitInv(run[0]);
    RunInv(run, events, |events|);
    DoomedIffDestroyedTwice(run, events);
    if !AllExited(last) {
      var e, t := Progress(last);
    }
    NothingInHand(last);
    LockFreeAtRest(last);
  }

  /** Whoever holds the lock of a pool without workers can move on, except after a second destroy. */
  lemma {:induction false} LockFreeAtRest(s: State)
    requires Inv(s) && AllExited(s) && !Doomed(s) && s.pool.shutdown != Open
    requires forall e :: Enabled(s, e) ==> e.AddLock? || e.DestroyLock?
    ensures s.owner == Free
  {
    assert !Enabled(s, AddStore) && !Enabled(s, AddUnlock);
    assert !Enabled(s, DestroyBroadcast) && !Enabled(s, DestroyUnlock);
    assert forall w :: 0 <= w < |s.workers| ==> s.owner != Worker(w);
  }

  /** Two destroys in a row, at the very start: the second takes the lock with it, and no worker ever leaves. */
  lemma {:induction false} SecondDestroyStrands(s: State, flags: int, again: int)
    returns (run: seq<State>, events: seq<Event>)
    requires Init(s) && 0 < |s.workers|
    ensures PoolRun(run, events) && run[0] == s
    ensures events == [DestroyLock(flags), DestroyFlag, DestroyBroadcast, DestroyUnlock,
                       DestroyLock(again), DestroyFlag]
    ensures run[|events|].owner == Leaked && !CanComplete(run[|events|])
  {
    hide Inv;
    events := [DestroyLock(flags), DestroyFlag, DestroyBroadcast, DestroyUnlock, DestroyLock(again), DestroyFlag];
    var s1 := Next(s, events[0]);
    var s2 := Next(s1, events[1]);
    var s3 := Next(s2, events[2]);
    var s4 := Next(s3, events[3]);
    var s5 := Next(s4, events[4]);
    run := [s, s1, s2, s3, s4, s5, Next(s5, events[5])];
    InitInv(s);
    RunInv(run, events, 6);
    assert ParkedSet(s.workers) == {};
    assert Wake(s.workers, {})[0] == s.workers[0];
    CanCompleteIff(run[6]);
  }

  lemma {:induction false} OneAdd(s: State, task: Task) returns (s1: State, s2: State, s3: State, s4: State)
    requires Init(s) && 0 < |s.workers|
    ensures Step(s, AddLock(task), s1) && Step(s1, AddStore, s2)
    ensures Step(s2, AddSignal({}), s3) && Step(s3, AddUnlock, s4)
    ensures s4.owner == Free && s4.workers == s.workers && s4.pool.WellFormed() && s4.pool.Pending() == [task]
    ensures s4.pool.shutdown == Open && s4.answers == [(task, 0)] && s4.begun == [] && s4.finished == []
  {
    AddIsEnqueue(s.pool, task);
    assert s.workers[0] == Contending && ParkedSet(s.workers) == {};
    assert Wake(s.workers, {}) == s.workers;
    s1 := Next(s, AddLock(task));
    s2 := Next(s1, AddStore);
    s3 := Next(s2, AddSignal({}));
    s4 := Next(s3, AddUnlock);
  }

  lemma {:induction false} OneTake(s: State, task: Task) returns (s1: State, s2: State, s3: State, s4: State)
    requires s.owner == Free && 0 < |s.workers| && s.workers[0] == Contending && s.pool.shutdown == Open
    requires s.pool.WellFormed() && s.pool.Pending() == [task] && s.begun == [] && s.finished == []
    ensures Step(s, WorkerLock(0), s1) && Step(s1, WorkerJudge(0), s2)
    ensures Step(s2, WorkerRelease(0), s3) && Step(s3, WorkerFinish(0), s4)
    ensures s4.answers == s.answers && s4.begun == [task] && s4.finished == [task] && s4.pool.count == 0
  {
    TakeIsDequeue(s.pool);
    var (after, first) := TakeSection(s.pool);
    assert ([first] + after.Pending())[0] == first;
    assert s.pool.count == 1 && first == task;
    hide ReadRing;
    s1 := Next(s, WorkerLock(0));
    s2 := Next(s1, WorkerJudge(0));
    s3 := Next(s2, WorkerRelease(0));
    s4 := Next(s3, WorkerFinish(0));
  }

  /** A task from its add to its end: one caller, one worker that comes after it. */
  lemma {:induction false} OneTaskRuns(s: State, task: Task) returns (run: seq<State>, events: seq<Event>)
    requires Init(s) && 0 < |s.workers|
    ensures PoolRun(run, events) && run[0] == s
    ensures events == [AddLock(task), AddStore, AddSignal({}), AddUnlock,
                       WorkerLock(0), WorkerJudge(0), WorkerRelease(0), WorkerFinish(0)]
    ensures var last := run[|events|];
            last.answers == [(task, 0)] && last.begun == [task] && last.finished == [task] && last.pool.count == 0
  {
    var s1, s2, s3, s4 := OneAdd(s, task);
    var s5, s6, s7, s8 := OneTake(s4, task);
    hide Init, Step;
    events := [AddLock(task), AddStore, AddSignal({}), AddUnlock,
               WorkerLock(0), WorkerJudge(0), WorkerRelease(0), WorkerFinish(0)];
    run := [s, s1, s2, s3, s4, s5, s6, s7, s8];
  }
}
