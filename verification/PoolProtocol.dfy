/**
 The thread pool at run time: N workers, any number of callers of `threadpool_add` and
 `threadpool_destroy`, one mutex and one condition variable, one step at a time.

 A caller outside its critical section has no state of its own, so the whole state of
 the one inside is kept in `owner`, the holder of the mutex. Waiting on the condition
 variable releases the mutex; a signal wakes at least one waiting worker if there is
 one, a broadcast wakes all, and a worker may wake for no reason.
 */
module PoolProtocol {
  import opened TaskPool
  import opened Tally

  datatype Phase =
    | Contending            // about to lock the mutex
    | Holding               // owns it, about to test the wait condition
    | Parked                // in pthread_cond_wait
    | Woken                 // notified, not yet the owner again
    | Taken(task: Task)     // took a task off the ring, still the owner
    | Running(task: Task)
    | Leaving               // left the loop, still the owner
    | Exited

  datatype Owner =
    | Free
    | Worker(w: nat)
    | Adding(task: Task)               // threadpool_add, before its tests
    | Stored(task: Task)               // threadpool_add, before the signal
    | Answering(task: Task, err: int)  // threadpool_add, before the unlock
    | Destroying(flags: int)           // threadpool_destroy, before its test
    | Flagged                          // threadpool_destroy, before the broadcast
    | Announced                        // threadpool_destroy, before the unlock
    | Leaked                           // a second threadpool_destroy returned without unlocking

  /** `begun` lists tasks in the order workers took them, `answers` what `threadpool_add` returned. */
  datatype State = State(
    pool: Pool,
    owner: Owner,
    workers: seq<Phase>,
    begun: seq<Task>,
    finished: seq<Task>,
    answers: seq<(Task, int)>)

  datatype Event =
    | WorkerLock(w: nat)
    | WorkerJudge(w: nat)
    | WorkerRelease(w: nat)
    | WorkerFinish(w: nat)
    | SpuriousWake(w: nat)
    | AddLock(task: Task)
    | AddStore
    | AddSignal(woken: set<nat>)
    | AddUnlock
    | DestroyLock(flags: int)
    | DestroyFlag
    | DestroyBroadcast
    | DestroyUnlock

  ghost predicate Init(s: State) {
    && s.pool.WellFormed()
    && s.pool.count == 0 && s.pool.shutdown == Open && s.pool.started == |s.workers|
    && s.owner == Free
    && (forall w :: 0 <= w < |s.workers| ==> s.workers[w] == Contending)
    && s.begun == [] && s.finished == [] && s.answers == []
  }

  function ParkedSet(workers: seq<Phase>): set<nat> {
    set w: nat | w < |workers| && workers[w] == Parked
  }

  function Wake(workers: seq<Phase>, woken: set<nat>): (after: seq<Phase>)
    ensures |after| == |workers|
  {
    seq(|workers|, w requires 0 <= w < |workers| => if w in woken then Woken else workers[w])
  }

  ghost predicate Enabled(s: State, e: Event) {
    match e
    case WorkerLock(w) => s.owner == Free && w < |s.workers| && s.workers[w] in {Contending, Woken}
    case WorkerJudge(w) =>
      s.owner == Worker(w) && w < |s.workers| && s.workers[w] == Holding
      && s.pool.head < |s.pool.queue|
    case WorkerRelease(w) =>
      s.owner == Worker(w) && w < |s.workers| && (s.workers[w].Taken? || s.workers[w] == Leaving)
    case WorkerFinish(w) => w < |s.workers| && s.workers[w].Running?
    case SpuriousWake(w) => w < |s.workers| && s.workers[w] == Parked
    case AddLock(_) => s.owner == Free
    case AddStore => s.owner.Adding? && s.pool.tail < |s.pool.queue|
    case AddSignal(woken) =>
      s.owner.Stored? && woken <= ParkedSet(s.workers) && (ParkedSet(s.workers) != {} ==> woken != {})
    case AddUnlock => s.owner.Answering?
    case DestroyLock(_) => s.owner == Free
    case DestroyFlag => s.owner.Destroying?
    case DestroyBroadcast => s.owner == Flagged
    case DestroyUnlock => s.owner == Announced
  }

  ghost function Next(s: State, e: Event): State
    requires Enabled(s, e)
  {
    match e
    case WorkerLock(w) => s.(owner := Worker(w), workers := s.workers[w := Holding])
    case WorkerJudge(w) => AfterJudge(s, w)
    case WorkerRelease(w) =>
      (match s.workers[w]
       case Taken(task) => s.(owner := Free, workers := s.workers[w := Running(task)])
       case _ => s.(owner := Free, workers := s.workers[w := Exited], pool := LeaveSection(s.pool)))
    case WorkerFinish(w) =>
      s.(workers := s.workers[w := Contending], finished := s.finished + [s.workers[w].task])
    case SpuriousWake(w) => s.(workers := s.workers[w := Woken])
    case AddLock(task) => s.(owner := Adding(task))
    case AddStore =>
      var (pool, err) := AddSection(s.pool, s.owner.task);
      s.(pool := pool, owner := if err == 0 then Stored(s.owner.task) else Answering(s.owner.task, err))
    case AddSignal(woken) => s.(owner := Answering(s.owner.task, 0), workers := Wake(s.workers, woken))
    case AddUnlock => s.(owner := Free, answers := s.answers + [(s.owner.task, s.owner.err)])
    case DestroyLock(flags) => s.(owner := Destroying(flags))
    case DestroyFlag =>
      var (pool, err) := DestroySection(s.pool, s.owner.flags);
      s.(pool := pool, owner := if err == 0 then Flagged else Leaked)
    case DestroyBroadcast => s.(owner := Announced, workers := Wake(s.workers, ParkedSet(s.workers)))
    case DestroyUnlock => s.(owner := Free)
  }

  ghost predicate Step(s: State, e: Event, t: State) {
    Enabled(s, e) && t == Next(s, e)
  }

  ghost function AfterJudge(s: State, w: nat): State
    requires w < |s.workers| && s.pool.head < |s.pool.queue|
  {
    match Judge(s.pool)
    case Wait => s.(owner := Free, workers := s.workers[w := Parked])
    case Quit => s.(workers := s.workers[w := Leaving])
    case Grab =>
      var (pool, task) := TakeSection(s.pool);
      s.(pool := pool, workers := s.workers[w := Taken(task)], begun := s.begun + [task])
  }

  // What the invariant counts -----------------------------------------------------

  function IdleOne(p: Phase): int {
    if p in {Contending, Holding, Woken} then 1 else 0
  }

  function LiveOne(p: Phase): int {
    if p == Exited then 0 else 1
  }

  function HasInHand(task: Task): Phase -> int {
    p => if p == Taken(task) || p == Running(task) then 1 else 0
  }

  /** Awake workers that are not running a task. */
  ghost function Idle(workers: seq<Phase>): int { Sum(IdleOne, workers) }

  ghost function Live(workers: seq<Phase>): int { Sum(LiveOne, workers) }

  /** How many workers took `task` off the ring and have not ended its run. */
  ghost function InHand(workers: seq<Phase>, task: Task): int { Sum(HasInHand(task), workers) }

  /** The tasks some caller was told, or is about to be told, were accepted. */
  ghost function Accepted(s: State): seq<Task> {
    Acknowledged(s.answers) + InFlight(s.owner)
  }

  ghost function Acknowledged(answers: seq<(Task, int)>): seq<Task> {
    if |answers| == 0 then []
    else
      var last := answers[|answers| - 1];
      Acknowledged(answers[..|answers| - 1]) + if last.1 == 0 then [last.0] else []
  }

  ghost function InFlight(owner: Owner): seq<Task> {
    match owner
    case Stored(task) => [task]
    case Answering(task, err) => if err == 0 then [task] else []
    case _ => []
  }

  // The invariant -----------------------------------------------------------------

  /** Every accepted task was taken, in order, or is still queued; what was taken ended or is in some hand. */
  ghost predicate FifoHeld(s: State) {
    && s.pool.WellFormed()
    && Accepted(s) == s.begun + s.pool.Pending()
  }

  ghost predicate HandsHeld(s: State) {
    forall task :: multiset(s.begun)[task] == multiset(s.finished)[task] + InHand(s.workers, task)
  }

  ghost predicate LockConsistent(s: State) {
    && (s.owner.Worker? ==> s.owner.w < |s.workers|)
    && forall w :: 0 <= w < |s.workers| ==>
         (s.owner == Worker(w) <==> (s.workers[w] in {Holding, Leaving} || s.workers[w].Taken?))
  }

  ghost predicate ShutdownConsistent(s: State) {
    && s.pool.started == Live(s.workers)
    && (s.owner in {Flagged, Announced, Leaked} ==> s.pool.shutdown != Open)
    && (InFlight(s.owner) != [] ==> s.pool.shutdown == Open)
    && (s.pool.shutdown != Open && s.owner != Flagged ==> ParkedSet(s.workers) == {})
    && forall w :: 0 <= w < |s.workers| && s.workers[w] in {Leaving, Exited} ==>
         s.pool.shutdown == Immediate || (s.pool.shutdown == Graceful && s.pool.count == 0)
  }

  /** While a worker sleeps, the awake idle ones can absorb the queue; a signal still due counts as one. */
  ghost predicate NobodyForgotten(s: State) {
    ParkedSet(s.workers) != {} ==> s.pool.count <= Idle(s.workers) + if s.owner.Stored? then 1 else 0
  }

  ghost predicate Inv(s: State) {
    FifoHeld(s) && HandsHeld(s) && LockConsistent(s) && ShutdownConsistent(s) && NobodyForgotten(s)
  }

  lemma {:induction false} InitInv(s: State)
    requires Init(s)
    ensures Inv(s)
  {
    forall task: Task ensures InHand(s.workers, task) == 0 {
      SumConstant(HasInHand(task), s.workers, 0);
    }
    SumConstant(LiveOne, s.workers, 1);
    assert s.pool.Pending() == [];
  }

  lemma {:induction false} SumConstant<T>(f: T -> int, xs: seq<T>, c: int)
    requires c == 0 || c == 1
    requires forall i :: 0 <= i < |xs| ==> f(xs[i]) == c
    ensures Sum(f, xs) == c * |xs|
  {
    if |xs| != 0 {
      SumConstant(f, xs[..|xs| - 1], c);
    }
  }

  // Steps of one worker ---------------------------------------------------------------

  /** One worker changing phase moves each count by what that worker alone contributes. */
  lemma {:induction false} OneWorker(workers: seq<Phase>, w: nat, p: Phase)
    requires w < |workers|
    ensures Idle(workers[w := p]) == Idle(workers) - IdleOne(workers[w]) + IdleOne(p)
    ensures Live(workers[w := p]) == Live(workers) - LiveOne(workers[w]) + LiveOne(p)
    ensures ParkedSet(workers[w := p]) == ParkedSet(workers) - {w} + if p == Parked then {w} else {}
    ensures 0 <= Idle(workers[w := p])
  {
    SumUpdate(IdleOne, workers, w, p);
    SumUpdate(LiveOne, workers, w, p);
    SumAtLeast(IdleOne, workers[w := p]);
  }

  lemma {:induction false} OneHand(workers: seq<Phase>, w: nat, p: Phase)
    requires w < |workers|
    ensures forall task :: InHand(workers[w := p], task)
                           == InHand(workers, task) - HasInHand(task)(workers[w]) + HasInHand(task)(p)
  {
    forall task: Task
      ensures InHand(workers[w := p], task)
           == InHand(workers, task) - HasInHand(task)(workers[w]) + HasInHand(task)(p)
    {
      SumUpdate(HasInHand(task), workers, w, p);
    }
  }

  lemma {:induction false} ManyWoken(workers: seq<Phase>, woken: set<nat>)
    requires woken <= ParkedSet(workers)
    ensures var after := Wake(workers, woken);
            && Live(after) == Live(workers)
            && Idle(workers) <= Idle(after) && (woken != {} ==> Idle(workers) < Idle(after))
            && ParkedSet(after) == ParkedSet(workers) - woken
  {
    var after := Wake(workers, woken);
    SumMonotone(LiveOne, workers, after);
    SumMonotone(LiveOne, after, workers);
    SumMonotone(IdleOne, workers, after);
    if w :| w in woken {
      assert IdleOne(workers[w]) < IdleOne(after[w]);
    }
  }

  lemma {:induction false} SameHands(workers: seq<Phase>, woken: set<nat>)
    requires woken <= ParkedSet(workers)
    ensures forall task :: InHand(Wake(workers, woken), task) == InHand(workers, task)
  {
    forall task: Task ensures InHand(Wake(workers, woken), task) == InHand(workers, task) {
      SumMonotone(HasInHand(task), workers, Wake(workers, woken));
      SumMonotone(HasInHand(task), Wake(workers, woken), workers);
    }
  }

  lemma {:induction false} FifoKept(s: State, e: Event)
    requires FifoHeld(s) && Enabled(s, e)
    ensures FifoHeld(Next(s, e))
  {
    match e
    case WorkerJudge(w) => FifoKeptByJudge(s, w);
    case AddStore => FifoKeptByStore(s);
    case WorkerRelease(_) => SameRing(s, Next(s, e));
    case DestroyFlag => SameRing(s, Next(s, e));
    case AddUnlock => FifoKeptByUnlock(s);
    case AddSignal(_) => SameRing(s, Next(s, e));
    case _ => SameRing(s, Next(s, e));
  }

  lemma {:induction false} FifoKeptByUnlock(s: State)
    requires FifoHeld(s) && Enabled(s, AddUnlock)
    ensures FifoHeld(Next(s, AddUnlock))
  {
    var t := Next(s, AddUnlock);
    assert t.answers[..|t.answers| - 1] == s.answers;
    assert Accepted(t) == Accepted(s);
  }

  lemma {:induction false} FifoKeptByJudge(s: State, w: nat)
    requires FifoHeld(s) && Enabled(s, WorkerJudge(w))
    ensures FifoHeld(AfterJudge(s, w))
  {
    if Judge(s.pool) == Grab {
      TakeIsDequeue(s.pool);
      var (pool, task) := TakeSection(s.pool);
      assert s.begun + ([task] + pool.Pending()) == (s.begun + [task]) + pool.Pending();
    }
  }

  lemma {:induction false} FifoKeptByStore(s: State)
    requires FifoHeld(s) && Enabled(s, AddStore)
    ensures FifoHeld(Next(s, AddStore))
  {
    AddIsEnqueue(s.pool, s.owner.task);
    var (pool, err) := AddSection(s.pool, s.owner.task);
    if err == 0 {
      assert s.begun + (s.pool.Pending() + [s.owner.task]) == (s.begun + s.pool.Pending()) + [s.owner.task];
    }
  }

  lemma {:induction false} SameRing(s: State, t: State)
    requires FifoHeld(s)
    requires t.pool == s.pool.(shutdown := t.pool.shutdown, started := t.pool.started)
    requires t.begun == s.begun && t.answers == s.answers && InFlight(t.owner) == InFlight(s.owner)
    ensures FifoHeld(t)
  {
  }

  /** A worker moves from one phase to `p`, having taken the tasks `took` and ended the tasks `ended`. */
  lemma {:induction false} HandsKeptByWorker(s: State, t: State, w: nat, p: Phase, took: seq<Task>, ended: seq<Task>)
    requires HandsHeld(s) && w < |s.workers| && t.workers == s.workers[w := p]
    requires t.begun == s.begun + took && t.finished == s.finished + ended
    requires forall task :: HasInHand(task)(p) + multiset(ended)[task]
                            == HasInHand(task)(s.workers[w]) + multiset(took)[task]
    ensures HandsHeld(t)
  {
    OneHand(s.workers, w, p);
  }

  lemma {:induction false} HandsKeptByJudge(s: State, w: nat)
    requires HandsHeld(s) && Enabled(s, WorkerJudge(w))
    ensures HandsHeld(AfterJudge(s, w))
  {
    var t := AfterJudge(s, w);
    var took := if Judge(s.pool) == Grab then [TakeSection(s.pool).1] else [];
    HandsKeptByWorker(s, t, w, t.workers[w], took, []);
  }

  lemma {:induction false} HandsKept(s: State, e: Event)
    requires HandsHeld(s) && Enabled(s, e)
    ensures HandsHeld(Next(s, e))
  {
    var t := Next(s, e);
    match e
    case WorkerLock(w) => HandsKeptByWorker(s, t, w, Holding, [], []);
    case WorkerJudge(w) => HandsKeptByJudge(s, w);
    case WorkerRelease(w) => HandsKeptByWorker(s, t, w, t.workers[w], [], []);
    case WorkerFinish(w) => HandsKeptByWorker(s, t, w, Contending, [], [s.workers[w].task]);
    case SpuriousWake(w) => HandsKeptByWorker(s, t, w, Woken, [], []);
    case AddSignal(woken) => SameHands(s.workers, woken);
    case DestroyBroadcast => SameHands(s.workers, ParkedSet(s.workers));
    case _ =>
  }

  lemma {:induction false} LockKept(s: State, e: Event)
    requires LockConsistent(s) && Enabled(s, e)
    ensures LockConsistent(Next(s, e))
  {
  }

  /** A worker moves from one phase to `p`; the rest of the state may change as far as the worker's own steps do. */
  lemma {:induction false} CountsKeptByWorker(s: State, t: State, w: nat, p: Phase)
    requires ShutdownConsistent(s) && NobodyForgotten(s)
    requires w < |s.workers| && t.workers == s.workers[w := p]
    requires t.pool.shutdown == s.pool.shutdown && t.pool.count <= s.pool.count
    requires t.pool.started == s.pool.started - LiveOne(s.workers[w]) + LiveOne(p)
    requires t.owner == s.owner || (!s.owner.Stored? && t.owner in {Free, Worker(w)} && s.owner != Flagged)
    requires p == Parked ==> s.pool.shutdown == Open && s.pool.count == 0
    requires p in {Leaving, Exited} ==>
               s.pool.shutdown == Immediate || (s.pool.shutdown == Graceful && s.pool.count == 0)
    requires IdleOne(s.workers[w]) <= IdleOne(p) + (s.pool.count - t.pool.count)
             || p == Parked || (s.pool.shutdown != Open && s.owner != Flagged)
    ensures ShutdownConsistent(t) && NobodyForgotten(t)
  {
    OneWorker(s.workers, w, p);
  }

  lemma {:induction false} CountsKeptByJudge(s: State, w: nat)
    requires ShutdownConsistent(s) && NobodyForgotten(s) && Enabled(s, WorkerJudge(w))
    ensures ShutdownConsistent(AfterJudge(s, w)) && NobodyForgotten(AfterJudge(s, w))
  {
    var t := AfterJudge(s, w);
    hide ShutdownConsistent, NobodyForgotten;
    CountsKeptByWorker(s, t, w, t.workers[w]);
  }

  lemma {:induction false} CountsKept(s: State, e: Event)
    requires LockConsistent(s) && ShutdownConsistent(s) && NobodyForgotten(s) && Enabled(s, e)
    ensures ShutdownConsistent(Next(s, e)) && NobodyForgotten(Next(s, e))
  {
    var t := Next(s, e);
    match e
    case WorkerLock(w) => CountsKeptByWorker(s, t, w, Holding);
    case WorkerJudge(w) => CountsKeptByJudge(s, w);
    case WorkerRelease(w) => CountsKeptByWorker(s, t, w, t.workers[w]);
    case WorkerFinish(w) => CountsKeptByWorker(s, t, w, Contending);
    case SpuriousWake(w) => CountsKeptByWorker(s, t, w, Woken);
    case AddSignal(woken) => ManyWoken(s.workers, woken);
    case DestroyBroadcast => ManyWoken(s.workers, ParkedSet(s.workers));
    case _ =>
  }

  /** Every step of every thread keeps the invariant. */
  lemma {:induction false} StepKeepsInv(s: State, e: Event, t: State)
    requires Inv(s) && Step(s, e, t)
    ensures Inv(t) && |t.workers| == |s.workers|
  {
    hide FifoHeld, HandsHeld, LockConsistent, ShutdownConsistent, NobodyForgotten;
    FifoKept(s, e);
    HandsKept(s, e);
    LockKept(s, e);
    CountsKept(s, e);
  }
}
