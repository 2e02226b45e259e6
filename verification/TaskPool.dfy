/**
 The thread pool of mp5/src/thread_pool.c, seen by whoever holds its lock: a ring
 buffer of tasks, a shutdown flag and a counter of started threads.

 `Pool` is the value of those fields. The class `ThreadPool` is the C struct; each of
 its methods is one critical section of the source and is proved to change the
 fields as the functions on `Pool` say. The protocol in PoolProtocol.dfy interleaves
 those same functions.
 */
module TaskPool {
  import opened Modulo

  const MAX_THREADS := 64
  const MAX_QUEUE := 65536

  const INVALID := -1
  const QUEUE_FULL := -3
  const SHUTDOWN := -4

  // The function pointer NULL is 0.
  datatype Task = Task(routine: int, argument: int)

  datatype Mode = Open | Immediate | Graceful

  datatype Pool = Pool(queue: seq<Task>, head: nat, tail: nat, count: nat, shutdown: Mode, started: int) {

    ghost predicate WellFormed() {
      && 0 < |queue|
      && head < |queue|
      && count <= |queue|
      && tail == (head + count) % |queue|
    }

    /** The FIFO queue the ring stands for: `count` slots, read from `head`. */
    ghost function Pending(): seq<Task>
      requires WellFormed()
    {
      ReadRing(queue, head, count)
    }
  }

  ghost function ReadRing(queue: seq<Task>, from: nat, n: nat): (tasks: seq<Task>)
    requires from < |queue| && n <= |queue|
    ensures |tasks| == n
    decreases n
  {
    if n == 0 then [] else [queue[from]] + ReadRing(queue, (from + 1) % |queue|, n - 1)
  }

  /** One wrap of the ring, as subtraction. */
  lemma {:induction false} Wrap(slot: nat, size: nat)
    requires 0 < size && slot < 2 * size
    ensures slot % size == if slot < size then slot else slot - size
  {
    if slot < size {
      QuotientIs(slot, size, 0, slot);
    } else {
      QuotientIs(slot, size, 1, slot - size);
    }
  }

  /** The `n`-th slot after `from` is the `n-1`-th after its successor, and is not `from` itself. */
  lemma {:induction false} RingStep(from: nat, n: nat, size: nat)
    requires from < size && 0 < n <= size
    ensures ((from + 1) % size + (n - 1)) % size == (from + n) % size
    ensures n < size ==> (from + n) % size != from
  {
    Wrap(from + 1, size);
    Wrap(from + n, size);
    Wrap((from + 1) % size + (n - 1), size);
  }

  /** Writing the free slot behind the last pending task appends to what the ring reads. */
  lemma {:induction false} ReadRingAppend(queue: seq<Task>, from: nat, n: nat, slot: nat, task: Task)
    requires from < |queue| && n < |queue| && slot == (from + n) % |queue|
    ensures ReadRing(queue[slot := task], from, n + 1) == ReadRing(queue, from, n) + [task]
    decreases n
  {
    var next := (from + 1) % |queue|;
    var written := queue[slot := task];
    assert ReadRing(written, from, n + 1) == [written[from]] + ReadRing(written, next, n);
    if n == 0 {
      Wrap(from, |queue|);
    } else {
      RingStep(from, n, |queue|);
      ReadRingAppend(queue, next, n - 1, slot, task);
      assert ReadRing(queue, from, n) == [queue[from]] + ReadRing(queue, next, n - 1);
    }
  }

  // The critical sections --------------------------------------------------------

  /** `threadpool_add` between lock and signal: the pool afterwards, and the code returned. */
  function AddSection(pool: Pool, task: Task): (Pool, int)
    requires 0 < |pool.queue| && pool.tail < |pool.queue|
  {
    if pool.count == |pool.queue| then (pool, QUEUE_FULL)
    else if pool.shutdown != Open then (pool, SHUTDOWN)
    else
      (pool.(queue := pool.queue[pool.tail := task],
             tail := (pool.tail + 1) % |pool.queue|,
             count := pool.count + 1), 0)
  }

  datatype Verdict = Wait | Quit | Grab

  /** What a worker that holds the lock does next: the tests of the wait loop and of the exit. */
  function Judge(pool: Pool): Verdict {
    if pool.count == 0 && pool.shutdown == Open then Wait
    else if pool.shutdown == Immediate || (pool.shutdown == Graceful && pool.count == 0) then Quit
    else Grab
  }

  function TakeSection(pool: Pool): (Pool, Task)
    requires pool.head < |pool.queue| && 0 < pool.count
  {
    (pool.(head := (pool.head + 1) % |pool.queue|, count := pool.count - 1), pool.queue[pool.head])
  }

  /** `flags & threadpool_graceful` looks at the lowest bit only, of negative flags too. */
  function ModeOf(flags: int): Mode {
    if flags % 2 == 1 then Graceful else Immediate
  }

  function DestroySection(pool: Pool, flags: int): (Pool, int) {
    if pool.shutdown != Open then (pool, SHUTDOWN) else (pool.(shutdown := ModeOf(flags)), 0)
  }

  /** The end of `threadpool_thread`. */
  function LeaveSection(pool: Pool): Pool {
    pool.(started := pool.started - 1)
  }

  /** What `threadpool_free` returns: it refuses while threads are started. */
  function FreeCode(pool: Pool): int {
    if pool.started > 0 then -1 else 0
  }

  // The ring refines a bounded FIFO queue -------------------------------------------

  lemma {:induction false} AddIsEnqueue(pool: Pool, task: Task)
    requires pool.WellFormed()
    ensures var (after, err) := AddSection(pool, task);
            && after.WellFormed()
            && (err == 0 <==> |pool.Pending()| < |pool.queue| && pool.shutdown == Open)
            && (err == -3 <==> |pool.Pending()| == |pool.queue|)
            && (err == -4 <==> |pool.Pending()| < |pool.queue| && pool.shutdown != Open)
            && after.Pending() == pool.Pending() + (if err == 0 then [task] else [])
            && |after.queue| == |pool.queue|
            && after.shutdown == pool.shutdown && after.started == pool.started
  {
    if pool.count < |pool.queue| && pool.shutdown == Open {
      TailStep(pool.head, pool.count, pool.tail, |pool.queue|);
      assert AddSection(pool, task).0.Pending() == pool.Pending() + [task] by {
        ReadRingAppend(pool.queue, pool.head, pool.count, pool.tail, task);
      }
    }
  }

  lemma {:induction false} TailStep(head: nat, count: nat, tail: nat, size: nat)
    requires head < size && count < size && tail == (head + count) % size
    ensures (tail + 1) % size == (head + (count + 1)) % size
    ensures (tail + 1) % size < size
  {
    Wrap(head + count, size);
    Wrap(tail + 1, size);
    Wrap(head + (count + 1), size);
  }

  lemma {:induction false} TakeIsDequeue(pool: Pool)
    requires pool.WellFormed() && 0 < pool.count
    ensures var (after, task) := TakeSection(pool);
            && after.WellFormed()
            && pool.Pending() == [task] + after.Pending()
            && |after.queue| == |pool.queue|
            && after.shutdown == pool.shutdown && after.started == pool.started
  {
    RingStep(pool.head, pool.count, |pool.queue|);
  }

  // The struct and its critical sections in place -------------------------------------

  class ThreadPool {
    var queue: array<Task>
    var head: nat
    var tail: nat
    var count: nat
    var shutdown: Mode
    var started: int
    var threadCount: int

    ghost function View(): Pool
      reads this, queue
    {
      Pool(queue[..], head, tail, count, shutdown, started)
    }

    ghost predicate Valid()
      reads this, queue
    {
      View().WellFormed()
    }

    ghost function Pending(): seq<Task>
      reads this, queue
      requires Valid()
    {
      View().Pending()
    }

    constructor Empty(queueSize: nat)
      requires 0 < queueSize
      ensures Valid() && fresh(queue) && queue.Length == queueSize
      ensures Pending() == [] && shutdown == Open && started == 0 && threadCount == 0
    {
      queue := new Task[queueSize];
      head, tail, count := 0, 0, 0;
      shutdown, started, threadCount := Open, 0, 0;
    }

    /** `threadpool_create`: refuses sizes out of range, otherwise starts every thread. */
    static method Create(threads: int, queueSize: int) returns (pool: ThreadPool?)
      ensures pool == null <==> !(0 < threads <= 64 && 0 < queueSize <= 65536)
      ensures pool != null ==>
                && fresh(pool) && fresh(pool.queue) && pool.Valid()
                && pool.queue.Length == queueSize && pool.Pending() == [] && pool.shutdown == Open
                && pool.started == pool.threadCount == threads
    {
      if threads <= 0 || threads > MAX_THREADS || queueSize <= 0 || queueSize > MAX_QUEUE {
        return null;
      }
      pool := new ThreadPool.Empty(queueSize);
      for i := 0 to threads
        invariant pool.Valid() && fresh(pool.queue) && pool.queue.Length == queueSize
        invariant pool.Pending() == [] && pool.shutdown == Open
        invariant pool.started == pool.threadCount == i
      {
        pool.threadCount := pool.threadCount + 1;
        pool.started := pool.started + 1;
      }
    }

    method Add(routine: int, argument: int) returns (err: int)
      requires Valid()
      modifies this, queue
      ensures Valid() && queue == old(queue)
      ensures routine == 0 ==> err == -1 && View() == old(View())
      ensures routine != 0 ==> (View(), err) == AddSection(old(View()), Task(routine, argument))
      ensures Pending() == old(Pending()) + if err == 0 then [Task(routine, argument)] else []
      ensures routine != 0 ==> (err == 0 <==> |old(Pending())| < queue.Length && old(shutdown) == Open)
      ensures routine != 0 ==> (err == -3 <==> |old(Pending())| == queue.Length)
      ensures err in {0, -1, -3, -4}
      ensures |Pending()| <= queue.Length
    {
      if routine == 0 {
        return INVALID;
      }
      AddIsEnqueue(View(), Task(routine, argument));
      err := 0;
      var next := (tail + 1) % queue.Length;
      if count == queue.Length {
        err := QUEUE_FULL;
      } else if shutdown != Open {
        err := SHUTDOWN;
      } else {
        ghost var before := queue[..];
        queue[tail] := Task(routine, argument);
        assert queue[..] == before[tail := Task(routine, argument)];
        tail := next;
        count := count + 1;
      }
    }

    /** The worker's critical section from its wait test up to the unlock to run what it took. */
    method Grab() returns (verdict: Verdict, task: Task)
      requires Valid()
      modifies `head, `count
      ensures Valid() && verdict == Judge(old(View()))
      ensures verdict == Verdict.Grab ==> (View(), task) == TakeSection(old(View()))
      ensures verdict == Verdict.Grab ==> old(Pending()) == [task] + Pending()
      ensures verdict != Verdict.Grab ==> View() == old(View())
      ensures verdict == Wait <==> old(Pending()) == [] && shutdown == Open
      ensures verdict == Quit <==> shutdown == Immediate || (shutdown == Graceful && old(Pending()) == [])
    {
      task := Task(0, 0);
      if count == 0 && shutdown == Open {
        return Wait, task;
      }
      if shutdown == Immediate || (shutdown == Graceful && count == 0) {
        return Quit, task;
      }
      TakeIsDequeue(View());
      verdict := Verdict.Grab;
      task := queue[head];
      head := (head + 1) % queue.Length;
      count := count - 1;
    }

    /** The first critical section of `threadpool_destroy`. */
    method BeginDestroy(flags: int) returns (err: int)
      requires Valid()
      modifies `shutdown
      ensures Valid() && (View(), err) == DestroySection(old(View()), flags)
      ensures err == 0 <==> old(shutdown) == Open
      ensures shutdown != Open && Pending() == old(Pending())
      ensures if err == 0 then (shutdown == Graceful <==> flags % 2 == 1)
              else err == -4 && shutdown == old(shutdown)
    {
      if shutdown != Open {
        return SHUTDOWN;
      }
      shutdown := ModeOf(flags);
      err := 0;
    }

    method Leave()
      requires Valid()
      modifies `started
      ensures Valid() && View() == LeaveSection(old(View()))
      ensures Pending() == old(Pending())
    {
      started := started - 1;
    }

    /** `threadpool_free` refuses a pool whose threads have not all left. */
    method Free() returns (err: int)
      ensures err == FreeCode(View())
    {
      err := if started > 0 then -1 else 0;
    }
  }
}
