// The accept queue of the web server: one master thread puts accepted sockets
// into a ring of 20 slots, any number of workers take them out, under one
// mutex and three condition variables.
//
// The threads are modelled as a step relation.  One step is one access to the
// shared context; a thread that waits on a condition variable is "asleep",
// and "woken" once it has been signalled (or woken for no reason) but has not
// yet got the mutex back.

module WorkerPool {
  import opened Common

  const CAPACITY: nat := 20

  // A socket is named by the order of its arrival.
  type Socket = nat

  // ---------- Where the threads stand -------------------------------------

  datatype MasterPc =
    | Polling
    // produce_socket
    | Locking(sp: Socket)
    | CheckingFull(sp: Socket)
    | AboutToWait(sp: Socket)
    | Asleep(sp: Socket)
    | Woken(sp: Socket)
    | Enqueuing(sp: Socket)
    | Signalling
    | Unlocking
    // the end of master_thread
    | Broadcasting
    | EndLocking
    | CheckingThreads
    | EndAboutToWait
    | EndAsleep
    | EndWoken
    | EndUnlocking
    | Destroying
    | SettingStop
    | MasterGone

  datatype WorkerPc =
    | Starting
    // consume_socket; `got` is the socket taken in this call
    | Fetching
    | CheckingEmpty
    | GoingToSleep
    | Sleeping
    | Roused
    | Taking
    | Wrapping(got: Option<Socket>)
    | Notifying(got: Option<Socket>)
    | Releasing(got: Option<Socket>)
    | Returning(got: Option<Socket>)
    // the body of the worker's loop
    | Serving(got: Option<Socket>)
    // the end of worker_thread
    | Leaving
    | Counting
    | Reporting
    | LeavingUnlocks
    | Gone

  datatype StopperPc = NotCalled | WaitingForEnd | ContextFreed

  datatype Owner = NoOne | TheMaster | TheWorker(i: nat)

  datatype State = State(
    queue: seq<Socket>, head: int, tail: int,   // the ring
    stop: int,                                  // stop_flag
    numThreads: int,
    owner: Owner,                               // who holds the mutex
    master: MasterPc,
    workers: seq<WorkerPc>,
    stopper: StopperPc,                         // the caller of mg_stop
    arrivals: nat,                              // sockets accepted so far
    queued: seq<Socket>,                        // history: all sockets enqueued
    taken: seq<(nat, Socket)>)                  // history: who dequeued what

  predicate MasterHolds(pc: MasterPc) {
    pc.CheckingFull? || pc.AboutToWait? || pc.Enqueuing? || pc.Signalling? || pc.Unlocking?
    || pc.CheckingThreads? || pc.EndAboutToWait? || pc.EndUnlocking?
  }

  predicate WorkerHolds(pc: WorkerPc) {
    pc.CheckingEmpty? || pc.GoingToSleep? || pc.Taking? || pc.Wrapping? || pc.Notifying? || pc.Releasing?
    || pc.Counting? || pc.Reporting? || pc.LeavingUnlocks?
  }

  // ---------- The steps ------------------------------------------------------

  function At(s: State, i: nat, pc: WorkerPc): State
    requires i < |s.workers|
  {
    s.(workers := s.workers[i := pc])
  }

  // Some of the sleeping workers are roused and nothing else happens to them.
  ghost predicate Rouses(ws: seq<WorkerPc>, ws': seq<WorkerPc>) {
    |ws'| == |ws| && forall i | 0 <= i < |ws| :: ws'[i] == ws[i] || (ws[i].Sleeping? && ws'[i].Roused?)
  }

  ghost predicate Slept(ws: seq<WorkerPc>, i: nat) { i < |ws| && ws[i].Sleeping? }

  // pthread_cond_signal wakes at least one of the waiting threads.
  ghost predicate SignalsFull(ws: seq<WorkerPc>, ws': seq<WorkerPc>) {
    Rouses(ws, ws') && ((exists i: nat :: Slept(ws, i)) ==> exists i: nat :: Slept(ws, i) && ws'[i].Roused?)
  }

  function RouseAll(ws: seq<WorkerPc>): (r: seq<WorkerPc>)
    ensures |r| == |ws|
  {
    seq(|ws|, i requires 0 <= i < |ws| => if ws[i].Sleeping? then Roused else ws[i])
  }

  ghost predicate MasterStep(s: State, s': State)
    requires |s.queue| == CAPACITY
  {
    match s.master
    case Polling =>
      if s.stop == 0 then s' == s.(master := Locking(s.arrivals), arrivals := s.arrivals + 1)
      else s' == s.(master := Broadcasting)
    case Locking(sp) => s.owner.NoOne? && s' == s.(master := CheckingFull(sp), owner := TheMaster)
    case CheckingFull(sp) =>
      s' == s.(master := if s.stop == 0 && s.head - s.tail >= CAPACITY then AboutToWait(sp) else Enqueuing(sp))
    case AboutToWait(sp) => s' == s.(master := Asleep(sp), owner := NoOne)
    case Asleep(sp) => false
    case Woken(sp) => s.owner.NoOne? && s' == s.(master := CheckingFull(sp), owner := TheMaster)
    case Enqueuing(sp) =>
      if s.head - s.tail < CAPACITY then
        s' == s.(master := Signalling, queue := s.queue[s.head % CAPACITY := sp], head := s.head + 1, queued := s.queued + [sp])
      else s' == s.(master := Signalling)
    case Signalling => SignalsFull(s.workers, s'.workers) && s' == s.(master := Unlocking, workers := s'.workers)
    case Unlocking => s' == s.(master := Polling, owner := NoOne)
    case Broadcasting => s' == s.(master := EndLocking, workers := RouseAll(s.workers))
    case EndLocking => s.owner.NoOne? && s' == s.(master := CheckingThreads, owner := TheMaster)
    case CheckingThreads => s' == s.(master := if s.numThreads > 0 then EndAboutToWait else EndUnlocking)
    case EndAboutToWait => s' == s.(master := EndAsleep, owner := NoOne)
    case EndAsleep => false
    case EndWoken => s.owner.NoOne? && s' == s.(master := CheckingThreads, owner := TheMaster)
    case EndUnlocking => s' == s.(master := Destroying, owner := NoOne)
    case Destroying => s' == s.(master := SettingStop)
    case SettingStop => s' == s.(master := MasterGone, stop := 2)
    case MasterGone => false
  }

  ghost predicate WorkerStep(s: State, s': State, i: nat)
    requires |s.queue| == CAPACITY
  {
    i < |s.workers| &&
    match s.workers[i]
    case Starting => s' == At(s, i, Fetching) || s' == At(s, i, Leaving)
    case Fetching => s.owner.NoOne? && s' == At(s, i, CheckingEmpty).(owner := TheWorker(i))
    case CheckingEmpty => s' == At(s, i, if s.head == s.tail && s.stop == 0 then GoingToSleep else Taking)
    case GoingToSleep => s' == At(s, i, Sleeping).(owner := NoOne)
    case Sleeping => false
    case Roused => s.owner.NoOne? && s' == At(s, i, CheckingEmpty).(owner := TheWorker(i))
    case Taking =>
      if s.head > s.tail then
        var sp := s.queue[s.tail % CAPACITY];
        s' == At(s, i, Wrapping(Some(sp))).(tail := s.tail + 1, taken := s.taken + [(i, sp)])
      else s' == At(s, i, Notifying(None))
    case Wrapping(got) =>
      if s.tail > CAPACITY then s' == s.(tail := s.tail - CAPACITY, head := s.head - CAPACITY)
      else s' == At(s, i, Notifying(got))
    case Notifying(got) =>
      s' == At(s, i, Releasing(got)).(master := if s.master.Asleep? then Woken(s.master.sp) else s.master)
    case Releasing(got) => s' == At(s, i, Returning(got)).(owner := NoOne)
    case Returning(got) => s' == At(s, i, if s.stop == 0 then Serving(got) else Leaving)
    case Serving(got) => s' == At(s, i, Fetching)
    case Leaving => s.owner.NoOne? && s' == At(s, i, Counting).(owner := TheWorker(i))
    case Counting => s' == At(s, i, Reporting).(numThreads := s.numThreads - 1)
    case Reporting =>
      s' == At(s, i, LeavingUnlocks).(master := if s.master.EndAsleep? then EndWoken else s.master)
    case LeavingUnlocks => s' == At(s, i, Gone).(owner := NoOne)
    case Gone => false
  }

  // A sleeper wakes up although nobody signalled.
  ghost predicate SpuriousStep(s: State, s': State) {
    || (s.master.Asleep? && s' == s.(master := Woken(s.master.sp)))
    || (s.master.EndAsleep? && s' == s.(master := EndWoken))
    || (exists i: nat :: Slept(s.workers, i) && s' == At(s, i, Roused))
  }

  ghost predicate StopperStep(s: State, s': State) {
    match s.stopper
    case NotCalled => s' == s.(stopper := WaitingForEnd, stop := 1)
    case WaitingForEnd => s.stop == 2 && s' == s.(stopper := ContextFreed)
    case ContextFreed => false
  }

  // A step that is not a spurious wake-up.
  ghost predicate ProperStep(s: State, s': State)
    requires |s.queue| == CAPACITY
  {
    MasterStep(s, s') || (exists i: nat :: WorkerStep(s, s', i)) || StopperStep(s, s')
  }

  ghost predicate Next(s: State, s': State) {
    |s.queue| == CAPACITY && (ProperStep(s, s') || SpuriousStep(s, s'))
  }

  // After mg_start has returned: every worker is counted.
  ghost predicate Init(s: State) {
    && |s.queue| == CAPACITY && s.head == 0 && s.tail == 0 && s.stop == 0
    && s.numThreads == |s.workers| && s.owner == NoOne
    && s.master == Polling && s.stopper == NotCalled
    && (forall i | 0 <= i < |s.workers| :: s.workers[i] == Starting)
    && s.arrivals == 0 && s.queued == [] && s.taken == []
  }

  ghost predicate IsRun(run: seq<State>) {
    run != [] && Init(run[0]) && forall i | 0 <= i < |run| - 1 :: Next(run[i], run[i + 1])
  }

  // ---------- The mutex -------------------------------------------------------

  ghost predicate MutexInv(s: State) {
    && |s.queue| == CAPACITY
    && (MasterHolds(s.master) <==> s.owner == TheMaster)
    && (forall i | 0 <= i < |s.workers| :: WorkerHolds(s.workers[i]) <==> s.owner == TheWorker(i))
    && (s.owner.TheWorker? ==> s.owner.i < |s.workers|)
  }

  lemma MutexKeptByMaster(s: State, s': State)
    requires MutexInv(s) && MasterStep(s, s')
    ensures MutexInv(s')
  {
    match s.master
    case _ =>
  }

  lemma MutexKeptByWorker(s: State, s': State, i: nat)
    requires MutexInv(s) && WorkerStep(s, s', i)
    ensures MutexInv(s')
  {
    match s.workers[i]
    case _ =>
  }

  lemma MutexKept(s: State, s': State)
    requires MutexInv(s) && Next(s, s')
    ensures MutexInv(s')
  {
    hide WorkerStep, MasterStep;
    if i: nat :| WorkerStep(s, s', i) {
      MutexKeptByWorker(s, s', i);
    } else if MasterStep(s, s') {
      MutexKeptByMaster(s, s');
    } else if StopperStep(s, s') {
    } else {
      assert SpuriousStep(s, s');
    }
  }

  // ---------- stop_flag ---------------------------------------------------------

  // The master has seen stop_flag set and left its loop.
  predicate LoopLeft(pc: MasterPc) {
    pc.Broadcasting? || BroadcastDone(pc)
  }

  predicate BroadcastDone(pc: MasterPc) {
    pc.EndLocking? || pc.CheckingThreads? || pc.EndAboutToWait? || pc.EndAsleep? || pc.EndWoken? || AllSeenGone(pc)
  }

  // The master has seen num_threads at zero.
  predicate AllSeenGone(pc: MasterPc) {
    pc.EndUnlocking? || pc.Destroying? || pc.SettingStop? || pc.MasterGone?
  }

  // stop_flag moves from 0 to 1 to 2 only.
  ghost predicate StopInv(s: State) {
    && 0 <= s.stop <= 2
    && (s.stop == 0 <==> s.stopper.NotCalled?)
    && (LoopLeft(s.master) ==> s.stop != 0)
    && (s.stop == 2 <==> s.master.MasterGone?)
    && (s.stopper.ContextFreed? ==> s.stop == 2)
  }

  lemma StopKept(s: State, s': State)
    requires StopInv(s) && Next(s, s')
    ensures StopInv(s') && s.stop <= s'.stop
  {
    hide WorkerStep, MasterStep;
    if i: nat :| WorkerStep(s, s', i) {
      StopKeptByWorker(s, s', i);
    } else if MasterStep(s, s') {
      StopKeptByMaster(s, s');
    } else if StopperStep(s, s') {
    } else {
      assert SpuriousStep(s, s');
    }
  }

  lemma StopKeptByMaster(s: State, s': State)
    requires |s.queue| == CAPACITY && StopInv(s) && MasterStep(s, s')
    ensures StopInv(s') && s.stop <= s'.stop
  {
    match s.master
    case _ =>
  }

  lemma StopKeptByWorker(s: State, s': State, i: nat)
    requires |s.queue| == CAPACITY && StopInv(s) && WorkerStep(s, s', i)
    ensures StopInv(s') && s.stop <= s'.stop
  {
    match s.workers[i]
    case _ =>
  }

  // ---------- The ring is a queue ----------------------------------------------

  // What is in the ring, oldest first.
  function Contents(queue: seq<Socket>, head: int, tail: int): (c: seq<Socket>)
    requires |queue| == CAPACITY && 0 <= tail <= head
    ensures |c| == head - tail
  {
    seq(head - tail, i requires 0 <= i < head - tail => queue[(tail + i) % CAPACITY])
  }

  function SocketsOf(taken: seq<(nat, Socket)>): (r: seq<Socket>)
    ensures |r| == |taken|
  {
    seq(|taken|, i requires 0 <= i < |taken| => taken[i].1)
  }

  ghost predicate RingInv(s: State) {
    && |s.queue| == CAPACITY
    && 0 <= s.tail && 0 <= s.head - s.tail <= CAPACITY && s.head <= 2 * CAPACITY
    && s.tail <= CAPACITY + 1
    && (s.tail > CAPACITY ==> s.owner.TheWorker? && s.owner.i < |s.workers| && s.workers[s.owner.i].Wrapping?)
  }

  // The ring refines a first-in first-out queue: what was enqueued is what
  // was dequeued, in order, followed by what is still there.
  ghost predicate FifoInv(s: State) {
    RingInv(s) && s.queued == SocketsOf(s.taken) + Contents(s.queue, s.head, s.tail)
  }

  lemma EnqueueContents(queue: seq<Socket>, head: int, tail: int, sp: Socket)
    requires |queue| == CAPACITY && 0 <= tail <= head < tail + CAPACITY
    ensures Contents(queue[head % CAPACITY := sp], head + 1, tail) == Contents(queue, head, tail) + [sp]
  {
    var c, c' := Contents(queue, head, tail), Contents(queue[head % CAPACITY := sp], head + 1, tail);
    forall i | 0 <= i < head - tail
      ensures c'[i] == c[i]
    {
      OtherSlot(tail + i, head);
    }
  }

  lemma OtherSlot(a: int, b: int)
    requires a < b < a + CAPACITY
    ensures a % CAPACITY != b % CAPACITY
  {
  }

  lemma TakeContents(queue: seq<Socket>, head: int, tail: int)
    requires |queue| == CAPACITY && 0 <= tail < head
    ensures Contents(queue, head, tail) == [queue[tail % CAPACITY]] + Contents(queue, head, tail + 1)
  {
  }

  lemma WrapContents(queue: seq<Socket>, head: int, tail: int)
    requires |queue| == CAPACITY && CAPACITY <= tail <= head
    ensures Contents(queue, head - CAPACITY, tail - CAPACITY) == Contents(queue, head, tail)
  {
  }

  lemma FifoKeptByMaster(s: State, s': State)
    requires MutexInv(s) && FifoInv(s) && MasterStep(s, s')
    ensures FifoInv(s')
  {
    hide Contents, SocketsOf;
    if s.master.Enqueuing? && s.head - s.tail < CAPACITY {
      EnqueueContents(s.queue, s.head, s.tail, s.master.sp);
      Assoc(SocketsOf(s.taken), Contents(s.queue, s.head, s.tail), [s.master.sp]);
    }
  }

  lemma Assoc(a: seq<Socket>, b: seq<Socket>, c: seq<Socket>)
    ensures a + b + c == a + (b + c)
  {
  }

  lemma TakenOneMore(taken: seq<(nat, Socket)>, i: nat, sp: Socket)
    ensures SocketsOf(taken + [(i, sp)]) == SocketsOf(taken) + [sp]
  {
  }

  lemma FifoKeptByWorker(s: State, s': State, i: nat)
    requires MutexInv(s) && FifoInv(s) && WorkerStep(s, s', i)
    ensures FifoInv(s')
  {
    hide Contents, SocketsOf;
    if s.workers[i].Taking? && s.head > s.tail {
      var sp := s.queue[s.tail % CAPACITY];
      TakeContents(s.queue, s.head, s.tail);
      TakenOneMore(s.taken, i, sp);
      Assoc(SocketsOf(s.taken), [sp], Contents(s.queue, s.head, s.tail + 1));
    } else if s.workers[i].Wrapping? && s.tail > CAPACITY {
      WrapContents(s.queue, s.head, s.tail);
    }
  }

  lemma FifoKept(s: State, s': State)
    requires MutexInv(s) && FifoInv(s) && Next(s, s')
    ensures FifoInv(s')
  {
    hide WorkerStep, MasterStep, Contents, SocketsOf;
    if i: nat :| WorkerStep(s, s', i) {
      FifoKeptByWorker(s, s', i);
    } else if MasterStep(s, s') {
      FifoKeptByMaster(s, s');
    } else if StopperStep(s, s') {
    } else {
      assert SpuriousStep(s, s');
    }
  }

  // ---------- Every socket goes to one worker -----------------------------------

  // The socket the master is about to enqueue.
  function Carried(pc: MasterPc): Option<Socket> {
    if pc.Locking? || pc.CheckingFull? || pc.AboutToWait? || pc.Asleep? || pc.Woken? || pc.Enqueuing?
    then Some(pc.sp) else None
  }

  ghost predicate Increasing(q: seq<Socket>) { forall i, j | 0 <= i < j < |q| :: q[i] < q[j] }

  ghost predicate AllBelow(q: seq<Socket>, n: nat) { forall i | 0 <= i < |q| :: q[i] < n }

  // Sockets are enqueued in the order of their arrival, each at most once.
  ghost predicate OrderInv(s: State) {
    && Increasing(s.queued) && AllBelow(s.queued, s.arrivals)
    && (Carried(s.master).Some? ==>
          Carried(s.master).value < s.arrivals && AllBelow(s.queued, Carried(s.master).value))
  }

  lemma OrderKept(s: State, s': State)
    requires OrderInv(s) && Next(s, s')
    ensures OrderInv(s')
  {
    hide WorkerStep, MasterStep;
    if i: nat :| WorkerStep(s, s', i) {
      OrderKeptByWorker(s, s', i);
    } else if MasterStep(s, s') {
      OrderKeptByMaster(s, s');
    } else if StopperStep(s, s') {
    } else {
      assert SpuriousStep(s, s');
    }
  }

  lemma OrderKeptByMaster(s: State, s': State)
    requires |s.queue| == CAPACITY && OrderInv(s) && MasterStep(s, s')
    ensures OrderInv(s')
  {
    match s.master
    case _ =>
  }

  lemma OrderKeptByWorker(s: State, s': State, i: nat)
    requires |s.queue| == CAPACITY && OrderInv(s) && WorkerStep(s, s', i)
    ensures OrderInv(s')
  {
    match s.workers[i]
    case _ =>
  }

  // The result of a call of consume_socket that is under way or being used.
  predicate HasGot(pc: WorkerPc) {
    pc.Wrapping? || pc.Notifying? || pc.Releasing? || pc.Returning? || pc.Serving?
  }

  // A worker that came away without a socket did so because the server is
  // stopping, and does not get to serve; any other has dequeued its socket.
  ghost predicate GotInv(s: State, i: nat)
    requires i < |s.workers|
  {
    var pc := s.workers[i];
    && (pc.Taking? && s.head == s.tail ==> s.stop != 0)
    && (HasGot(pc) ==>
          match pc.got
          case Some(sp) => (i, sp) in s.taken
          case None => s.stop != 0 && !pc.Serving? && !pc.Wrapping?)
  }

  ghost predicate AllGotInv(s: State) { forall i | 0 <= i < |s.workers| :: GotInv(s, i) }

  lemma GotKeptByMaster(s: State, s': State)
    requires MutexInv(s) && StopInv(s) && AllGotInv(s) && MasterStep(s, s')
    ensures AllGotInv(s')
  {
    hide StopInv;
    StopKeptByMaster(s, s');
    forall i | 0 <= i < |s'.workers|
      ensures GotInv(s', i)
    {
      assert GotInv(s, i);
    }
  }

  lemma GotKeptByWorker(s: State, s': State, i: nat)
    requires MutexInv(s) && FifoInv(s) && AllGotInv(s) && WorkerStep(s, s', i)
    ensures AllGotInv(s')
  {
    hide Contents, SocketsOf;
    forall j | 0 <= j < |s'.workers|
      ensures GotInv(s', j)
    {
      if j == i {
        GotBySelf(s, s', i);
      } else {
        GotByOther(s, s', i, j);
      }
    }
  }

  lemma GotBySelf(s: State, s': State, i: nat)
    requires RingInv(s) && i < |s.workers| && GotInv(s, i) && WorkerStep(s, s', i)
    ensures i < |s'.workers| && GotInv(s', i)
  {
    match s.workers[i]
    case _ =>
  }

  lemma GotByOther(s: State, s': State, i: nat, j: nat)
    requires MutexInv(s) && j < |s.workers| && j != i && GotInv(s, j) && WorkerStep(s, s', i)
    ensures j < |s'.workers| && GotInv(s', j)
  {
    match s.workers[i]
    case _ =>
  }

  lemma GotKept(s: State, s': State)
    requires MutexInv(s) && StopInv(s) && FifoInv(s) && AllGotInv(s) && Next(s, s')
    ensures AllGotInv(s')
  {
    hide WorkerStep, MasterStep, FifoInv;
    StopKept(s, s');
    if i: nat :| WorkerStep(s, s', i) {
      GotKeptByWorker(s, s', i);
    } else if MasterStep(s, s') {
      GotKeptByMaster(s, s');
    } else {
      assert StopperStep(s, s') || SpuriousStep(s, s');
      forall i | 0 <= i < |s'.workers|
        ensures GotInv(s', i)
      {
        assert GotInv(s, i);
      }
    }
  }

  // ---------- No lost wake-ups ---------------------------------------------------

  // On the way to the ring: signalled, or holding the mutex ahead of taking.
  predicate OnTheWay(pc: WorkerPc) { pc.Roused? || pc.CheckingEmpty? || pc.Taking? }

  function Count(ws: seq<WorkerPc>, p: WorkerPc -> bool): (n: nat)
    ensures n <= |ws|
  {
    if ws == [] then 0 else (if p(ws[0]) then 1 else 0) + Count(ws[1..], p)
  }

  function Awake(ws: seq<WorkerPc>): nat { Count(ws, OnTheWay) }

  lemma {:induction false} CountUpdate(ws: seq<WorkerPc>, i: nat, pc: WorkerPc, p: WorkerPc -> bool)
    requires i < |ws|
    ensures Count(ws[i := pc], p) == Count(ws, p) - (if p(ws[i]) then 1 else 0) + (if p(pc) then 1 else 0)
  {
    if i > 0 {
      CountUpdate(ws[1..], i - 1, pc, p);
      assert ws[i := pc][1..] == ws[1..][i - 1 := pc];
    } else {
      assert ws[i := pc][1..] == ws[1..];
    }
  }

  // Rousing sleepers adds to those on the way, and adds at least one when
  // somebody is roused.
  lemma {:induction false} CountRoused(ws: seq<WorkerPc>, ws': seq<WorkerPc>)
    requires Rouses(ws, ws')
    ensures Awake(ws') >= Awake(ws)
    ensures (exists i | 0 <= i < |ws| :: ws[i].Sleeping? && ws'[i].Roused?) ==> Awake(ws') > Awake(ws)
  {
    if ws != [] {
      assert Rouses(ws[1..], ws'[1..]);
      CountRoused(ws[1..], ws'[1..]);
      if i :| 0 < i < |ws| && ws[i].Sleeping? && ws'[i].Roused? {
        assert ws[1..][i - 1].Sleeping? && ws'[1..][i - 1].Roused?;
      }
    }
  }

  lemma {:induction false} CountPositive(ws: seq<WorkerPc>, p: WorkerPc -> bool)
    ensures Count(ws, p) > 0 <==> exists i :: 0 <= i < |ws| && p(ws[i])
  {
    if ws != [] {
      CountPositive(ws[1..], p);
      if i :| 0 <= i < |ws[1..]| && p(ws[1..][i]) {
        assert p(ws[i + 1]);
      }
      if i :| 0 < i < |ws| && p(ws[i]) {
        assert p(ws[1..][i - 1]);
      }
    }
  }

  ghost predicate SomeoneSleeps(ws: seq<WorkerPc>) { exists i: nat :: Slept(ws, i) }

  // As long as some worker sleeps, every queued socket has a worker on its
  // way, or the master is about to signal for it.
  ghost predicate WakeInv(s: State) {
    && (s.stop == 0 && SomeoneSleeps(s.workers) ==>
          s.head - s.tail <= Awake(s.workers) + (if s.master.Signalling? then 1 else 0))
    && (forall i | 0 <= i < |s.workers| && s.workers[i].GoingToSleep? :: s.head == s.tail)
  }

  lemma WakeKeptByMaster(s: State, s': State)
    requires MutexInv(s) && StopInv(s) && RingInv(s) && WakeInv(s) && MasterStep(s, s')
    ensures WakeInv(s')
  {
    hide Count;
    if s.master.Signalling? {
      CountRoused(s.workers, s'.workers);
      assert forall i: nat :: Slept(s'.workers, i) ==> Slept(s.workers, i);
      assert SomeoneSleeps(s'.workers) ==> SomeoneSleeps(s.workers);
    } else if s.master.Broadcasting? {
    } else {
      assert s'.workers == s.workers;
    }
  }

  lemma WakeKeptByWorker(s: State, s': State, i: nat)
    requires MutexInv(s) && StopInv(s) && RingInv(s) && WakeInv(s) && WorkerStep(s, s', i)
    ensures WakeInv(s')
  {
    SleepersOf(s, s', i);
    EmptyKept(s, s', i);
    TurnOfWorker(s, s', i);
    hide Count, StopInv, MutexInv, RingInv, WorkerStep, SomeoneSleeps, OnTheWay;
    if s'.workers != s.workers {
      CountUpdate(s.workers, i, s'.workers[i], OnTheWay);
    }
  }

  function Weight(pc: WorkerPc): nat { if OnTheWay(pc) then 1 else 0 }

  // A worker that stops being on its way has taken a socket or found none.
  lemma TurnOfWorker(s: State, s': State, i: nat)
    requires MutexInv(s) && RingInv(s) && WorkerStep(s, s', i)
    ensures s'.stop == s.stop && (s'.master.Signalling? <==> s.master.Signalling?)
    ensures |s'.workers| == |s.workers| && s'.workers == s.workers[i := s'.workers[i]]
    ensures
      || s'.head - s'.tail <= s.head - s.tail + Weight(s'.workers[i]) - Weight(s.workers[i])
      || s'.head == s'.tail
  {
  }

  lemma SleepersOf(s: State, s': State, i: nat)
    requires |s.queue| == CAPACITY && WorkerStep(s, s', i)
    ensures SomeoneSleeps(s'.workers) ==> SomeoneSleeps(s.workers) || s.workers[i].GoingToSleep?
  {
    if !s.workers[i].GoingToSleep? && SomeoneSleeps(s'.workers) {
      var j: nat :| Slept(s'.workers, j);
      assert Slept(s.workers, j);
    }
  }

  lemma EmptyKept(s: State, s': State, i: nat)
    requires MutexInv(s) && WakeInv(s) && WorkerStep(s, s', i)
    ensures forall j | 0 <= j < |s'.workers| && s'.workers[j].GoingToSleep? :: s'.head == s'.tail
  {
    hide Count;
    match s.workers[i]
    case _ =>
  }

  lemma WakeKeptBySpurious(s: State, s': State)
    requires WakeInv(s) && SpuriousStep(s, s')
    ensures WakeInv(s')
  {
    hide Count;
    if i: nat :| Slept(s.workers, i) && s' == At(s, i, Roused) {
      CountUpdate(s.workers, i, Roused, OnTheWay);
      assert SomeoneSleeps(s.workers);
    }
  }

  lemma WakeKept(s: State, s': State)
    requires MutexInv(s) && StopInv(s) && RingInv(s) && WakeInv(s) && Next(s, s')
    ensures WakeInv(s')
  {
    hide WorkerStep, MasterStep, SpuriousStep, Count, RingInv, MutexInv;
    if i: nat :| WorkerStep(s, s', i) {
      WakeKeptByWorker(s, s', i);
    } else if MasterStep(s, s') {
      WakeKeptByMaster(s, s');
    } else if StopperStep(s, s') {
    } else {
      WakeKeptBySpurious(s, s');
    }
  }

  // The master sleeps in produce_socket only while the ring is full or a
  // worker that has just made room is about to signal.
  ghost predicate RoomInv(s: State) {
    && (s.master.AboutToWait? ==> s.head - s.tail == CAPACITY)
    && (s.master.Asleep? ==> s.head - s.tail == CAPACITY || MadeRoom(s))
  }

  ghost predicate MadeRoom(s: State) {
    s.owner.TheWorker? && s.owner.i < |s.workers|
    && (s.workers[s.owner.i].Wrapping? || s.workers[s.owner.i].Notifying?)
  }

  lemma RoomKept(s: State, s': State)
    requires MutexInv(s) && RingInv(s) && RoomInv(s) && Next(s, s')
    ensures RoomInv(s')
  {
    hide WorkerStep, MasterStep;
    if i: nat :| WorkerStep(s, s', i) {
      RoomKeptByWorker(s, s', i);
    } else if MasterStep(s, s') {
      RoomKeptByMaster(s, s');
    } else if StopperStep(s, s') {
    } else {
      assert SpuriousStep(s, s');
    }
  }

  lemma RoomKeptByMaster(s: State, s': State)
    requires MutexInv(s) && RingInv(s) && RoomInv(s) && MasterStep(s, s')
    ensures RoomInv(s')
  {
    match s.master
    case _ =>
  }

  lemma RoomKeptByWorker(s: State, s': State, i: nat)
    requires MutexInv(s) && RingInv(s) && RoomInv(s) && WorkerStep(s, s', i)
    ensures RoomInv(s')
  {
    match s.workers[i]
    case _ =>
  }

  // ---------- Counting the threads ------------------------------------------------

  // The worker has not yet run its exit block.
  predicate Counted(pc: WorkerPc) { !pc.Reporting? && !pc.LeavingUnlocks? && !pc.Gone? }

  ghost predicate AllGone(s: State) { forall i | 0 <= i < |s.workers| :: s.workers[i].Gone? }

  ghost predicate ThreadsInv(s: State) {
    s.numThreads == Count(s.workers, Counted) && (AllSeenGone(s.master) ==> AllGone(s))
  }

  lemma {:induction false} CountSame(ws: seq<WorkerPc>, ws': seq<WorkerPc>)
    requires Rouses(ws, ws')
    ensures Count(ws', Counted) == Count(ws, Counted)
  {
    if ws != [] {
      assert Rouses(ws[1..], ws'[1..]);
      CountSame(ws[1..], ws'[1..]);
    }
  }

  lemma ThreadsKeptByMaster(s: State, s': State)
    requires MutexInv(s) && ThreadsInv(s) && MasterStep(s, s')
    ensures ThreadsInv(s')
  {
    hide Count;
    if s.master.Signalling? || s.master.Broadcasting? {
      CountSame(s.workers, s'.workers);
    } else {
      assert s'.workers == s.workers;
    }
    if s.master.CheckingThreads? && s.numThreads <= 0 {
      CountPositive(s.workers, Counted);
      forall i | 0 <= i < |s.workers|
        ensures s.workers[i].Gone?
      {
        assert !Counted(s.workers[i]) && !WorkerHolds(s.workers[i]);
      }
    }
  }

  lemma ThreadsKeptByWorker(s: State, s': State, i: nat)
    requires |s.queue| == CAPACITY && ThreadsInv(s) && WorkerStep(s, s', i)
    ensures ThreadsInv(s')
  {
    hide Count, AllGone, WorkerStep;
    NumThreadsKept(s, s', i);
    GoneRest(s, s', i);
  }

  lemma NumThreadsKept(s: State, s': State, i: nat)
    requires |s.queue| == CAPACITY && s.numThreads == Count(s.workers, Counted) && WorkerStep(s, s', i)
    ensures s'.numThreads == Count(s'.workers, Counted)
  {
    hide Count;
    if s'.workers != s.workers {
      CountUpdate(s.workers, i, s'.workers[i], Counted);
    }
  }

  lemma GoneRest(s: State, s': State, i: nat)
    requires |s.queue| == CAPACITY && WorkerStep(s, s', i)
    ensures !AllGone(s) && (AllSeenGone(s'.master) ==> AllSeenGone(s.master))
  {
  }

  lemma ThreadsKept(s: State, s': State)
    requires MutexInv(s) && ThreadsInv(s) && Next(s, s')
    ensures ThreadsInv(s')
  {
    hide WorkerStep, MasterStep, Count, MutexInv;
    if i: nat :| WorkerStep(s, s', i) {
      ThreadsKeptByWorker(s, s', i);
    } else if MasterStep(s, s') {
      ThreadsKeptByMaster(s, s');
    } else if StopperStep(s, s') {
    } else if i: nat :| Slept(s.workers, i) && s' == At(s, i, Roused) {
      CountUpdate(s.workers, i, Roused, Counted);
    } else {
      assert SpuriousStep(s, s');
    }
  }

  // ---------- Every reachable state -------------------------------------------------

  ghost predicate Inv(s: State) {
    MutexInv(s) && StopInv(s) && FifoInv(s) && OrderInv(s) && AllGotInv(s) && WakeInv(s) && RoomInv(s) && ThreadsInv(s)
  }

  lemma {:induction false} CountAll(ws: seq<WorkerPc>)
    requires forall i | 0 <= i < |ws| :: ws[i].Starting?
    ensures Count(ws, Counted) == |ws|
  {
    if ws != [] {
      CountAll(ws[1..]);
    }
  }

  lemma InitInv(s: State)
    requires Init(s)
    ensures Inv(s)
  {
    CountAll(s.workers);
    assert Contents(s.queue, 0, 0) == [] && SocketsOf([]) == [];
  }

  lemma StepInv(s: State, s': State)
    requires Inv(s) && Next(s, s')
    ensures Inv(s')
  {
    hide MutexInv, StopInv, OrderInv, AllGotInv, WakeInv, RoomInv, ThreadsInv, Next, Contents, SocketsOf;
    MutexKept(s, s');
    StopKept(s, s');
    FifoKept(s, s');
    OrderKept(s, s');
    GotKept(s, s');
    WakeKept(s, s');
    RoomKept(s, s');
    ThreadsKept(s, s');
  }

  lemma {:induction false} RunInv(run: seq<State>, n: nat)
    requires IsRun(run) && n < |run|
    ensures Inv(run[n])
    decreases n
  {
    hide Inv, Next, Init;
    if n == 0 {
      InitInv(run[0]);
    } else {
      RunInv(run, n - 1);
      assert Next(run[n - 1], run[n - 1 + 1]);
      StepInv(run[n - 1], run[n]);
    }
  }

  // ---------- The theorems ------------------------------------------------------------

  // The ring stays within its bounds and is a first-in first-out queue.
  lemma RingIsFifo(run: seq<State>, n: nat)
    requires IsRun(run) && n < |run|
    ensures var s := run[n];
      && |s.queue| == CAPACITY && 0 <= s.head - s.tail <= CAPACITY && 0 <= s.tail && s.head <= 2 * CAPACITY
      && (s.owner == NoOne ==> s.tail <= CAPACITY)
      && s.queued == SocketsOf(s.taken) + Contents(s.queue, s.head, s.tail)
  {
    RunInv(run, n);
  }

  // No socket is dequeued twice, no two workers have the same one, and a
  // worker that serves has a socket it dequeued itself.
  lemma EverySocketOnce(run: seq<State>, n: nat)
    requires IsRun(run) && n < |run|
    ensures var s := run[n];
      && (forall a, b | 0 <= a < b < |s.taken| :: s.taken[a].1 < s.taken[b].1)
      && (forall i | 0 <= i < |s.workers| && s.workers[i].Serving? ::
            s.workers[i].got.Some? && (i, s.workers[i].got.value) in s.taken)
      && (forall i, j | 0 <= i < |s.workers| && 0 <= j < |s.workers| && HasGot(s.workers[i]) && HasGot(s.workers[j])
            && s.workers[i].got.Some? && s.workers[i].got == s.workers[j].got :: i == j)
  {
    hide MutexInv, StopInv, WakeInv, RoomInv, ThreadsInv, Next, RingInv;
    RunInv(run, n);
    var s := run[n];
    var socks := SocketsOf(s.taken);
    assert socks == s.queued[..|s.taken|];
    forall a, b | 0 <= a < b < |s.taken|
      ensures s.taken[a].1 < s.taken[b].1
    {
      assert socks[a] == s.queued[a] && socks[b] == s.queued[b];
    }
    forall i | 0 <= i < |s.workers| && s.workers[i].Serving?
      ensures s.workers[i].got.Some? && (i, s.workers[i].got.value) in s.taken
    {
      assert GotInv(s, i);
    }
    forall i, j | 0 <= i < |s.workers| && 0 <= j < |s.workers| && HasGot(s.workers[i]) && HasGot(s.workers[j])
            && s.workers[i].got.Some? && s.workers[i].got == s.workers[j].got
      ensures i == j
    {
      assert GotInv(s, i) && GotInv(s, j);
      var a :| 0 <= a < |s.taken| && s.taken[a] == (i, s.workers[i].got.value);
      var b :| 0 <= b < |s.taken| && s.taken[b] == (j, s.workers[i].got.value);
    }
  }

  // ---------- No socket is dropped while the server runs ------------------------------

  ghost predicate ArrivalInv(s: State) {
    && (s.stop == 0 ==> |s.queued| + (if Carried(s.master).Some? then 1 else 0) == s.arrivals)
    && (s.stop == 0 && s.master.Enqueuing? ==> s.head - s.tail < CAPACITY)
  }

  lemma ArrivalKept(s: State, s': State)
    requires MutexInv(s) && StopInv(s) && ArrivalInv(s) && Next(s, s')
    ensures ArrivalInv(s')
  {
    hide WorkerStep, MasterStep, StopInv;
    StopKept(s, s');
    StopOnce(s, s');
    if i: nat :| WorkerStep(s, s', i) {
      ArrivalKeptByWorker(s, s', i);
    } else if MasterStep(s, s') {
      ArrivalKeptByMaster(s, s');
    } else if StopperStep(s, s') {
    } else {
      assert SpuriousStep(s, s');
    }
  }

  lemma StopOnce(s: State, s': State)
    requires StopInv(s) && s.stop <= s'.stop
    ensures s'.stop == 0 ==> s.stop == 0
  {
  }

  lemma ArrivalKeptByMaster(s: State, s': State)
    requires |s.queue| == CAPACITY && ArrivalInv(s) && (s'.stop == 0 ==> s.stop == 0) && MasterStep(s, s')
    ensures ArrivalInv(s')
  {
    match s.master
    case _ =>
  }

  lemma ArrivalKeptByWorker(s: State, s': State, i: nat)
    requires MutexInv(s) && ArrivalInv(s) && WorkerStep(s, s', i)
    ensures ArrivalInv(s')
  {
    match s.workers[i]
    case _ =>
  }

  // While the server runs, every socket accepted has been enqueued, or the
  // master has it and finds room for it.
  lemma {:induction false} NothingDropped(run: seq<State>, n: nat)
    requires IsRun(run) && n < |run|
    ensures var s := run[n];
      s.stop == 0 ==> |s.queued| + (if Carried(s.master).Some? then 1 else 0) == s.arrivals
    ensures run[n].stop == 0 && run[n].master.Enqueuing? ==> run[n].head - run[n].tail < CAPACITY
    decreases n
  {
    hide Next, MutexInv, StopInv, FifoInv, OrderInv, AllGotInv, WakeInv, RoomInv, ThreadsInv;
    if n > 0 {
      NothingDropped(run, n - 1);
      RunInv(run, n - 1);
      assert Next(run[n - 1], run[n - 1 + 1]);
      ArrivalKept(run[n - 1], run[n]);
    }
  }

  predicate IsRoused(pc: WorkerPc) { pc.Roused? }

  lemma {:induction false} AwakeIsRoused(ws: seq<WorkerPc>)
    requires forall i | 0 <= i < |ws| :: !WorkerHolds(ws[i])
    ensures Awake(ws) == Count(ws, IsRoused)
  {
    if ws != [] {
      AwakeIsRoused(ws[1..]);
    }
  }

  // No lost wake-ups: while the mutex is free and the server runs, a sleeping
  // worker means that every queued socket has a signalled worker, and a
  // sleeping master means that the ring is full.
  lemma NoLostWakeups(run: seq<State>, n: nat)
    requires IsRun(run) && n < |run|
    requires run[n].owner == NoOne && run[n].stop == 0
    ensures SomeoneSleeps(run[n].workers) ==> run[n].head - run[n].tail <= Count(run[n].workers, IsRoused)
    ensures run[n].master.Asleep? ==> run[n].head - run[n].tail == CAPACITY
  {
    hide FifoInv, OrderInv, AllGotInv, StopInv, ThreadsInv, Next, Count;
    RunInv(run, n);
    AwakeIsRoused(run[n].workers);
  }

  // Whoever holds the mutex can go on.
  lemma HolderCanStep(run: seq<State>, n: nat)
    requires IsRun(run) && n < |run|
    ensures MutexInv(run[n])
    ensures run[n].owner.TheMaster? ==> exists s' :: MasterStep(run[n], s')
    ensures run[n].owner.TheWorker? ==> exists s' :: WorkerStep(run[n], s', run[n].owner.i)
  {
    RunInv(run, n);
    var s := run[n];
    if s.owner.TheMaster? {
      var s' := MasterMove(s);
    } else if s.owner.TheWorker? {
      var s' := WorkerMove(s, s.owner.i);
    }
  }

  lemma MasterMove(s: State) returns (s': State)
    requires MutexInv(s) && MasterHolds(s.master)
    ensures MasterStep(s, s')
  {
    match s.master
    case CheckingFull(sp) =>
      s' := s.(master := if s.stop == 0 && s.head - s.tail >= CAPACITY then AboutToWait(sp) else Enqueuing(sp));
    case AboutToWait(sp) => s' := s.(master := Asleep(sp), owner := NoOne);
    case Enqueuing(sp) =>
      s' := if s.head - s.tail < CAPACITY then
        s.(master := Signalling, queue := s.queue[s.head % CAPACITY := sp], head := s.head + 1, queued := s.queued + [sp])
      else s.(master := Signalling);
    case Signalling =>
      s' := s.(master := Unlocking, workers := RouseAll(s.workers));
      assert forall i: nat :: Slept(s.workers, i) ==> s'.workers[i].Roused?;
    case Unlocking => s' := s.(master := Polling, owner := NoOne);
    case CheckingThreads => s' := s.(master := if s.numThreads > 0 then EndAboutToWait else EndUnlocking);
    case EndAboutToWait => s' := s.(master := EndAsleep, owner := NoOne);
    case EndUnlocking => s' := s.(master := Destroying, owner := NoOne);
  }

  // A worker that neither sleeps nor is gone can step, if it holds the mutex
  // or the mutex is free.
  lemma WorkerMove(s: State, i: nat) returns (s': State)
    requires MutexInv(s) && i < |s.workers| && !s.workers[i].Sleeping? && !s.workers[i].Gone?
    requires s.owner == NoOne || s.owner == TheWorker(i)
    ensures WorkerStep(s, s', i)
  {
    match s.workers[i]
    case Starting => s' := At(s, i, Fetching);
    case Fetching => s' := At(s, i, CheckingEmpty).(owner := TheWorker(i));
    case CheckingEmpty => s' := At(s, i, if s.head == s.tail && s.stop == 0 then GoingToSleep else Taking);
    case GoingToSleep => s' := At(s, i, Sleeping).(owner := NoOne);
    case Roused => s' := At(s, i, CheckingEmpty).(owner := TheWorker(i));
    case Taking =>
      var sp := s.queue[s.tail % CAPACITY];
      s' := if s.head > s.tail then At(s, i, Wrapping(Some(sp))).(tail := s.tail + 1, taken := s.taken + [(i, sp)])
            else At(s, i, Notifying(None));
    case Wrapping(got) =>
      s' := if s.tail > CAPACITY then s.(tail := s.tail - CAPACITY, head := s.head - CAPACITY) else At(s, i, Notifying(got));
    case Notifying(got) =>
      s' := At(s, i, Releasing(got)).(master := if s.master.Asleep? then Woken(s.master.sp) else s.master);
    case Releasing(got) => s' := At(s, i, Returning(got)).(owner := NoOne);
    case Returning(got) => s' := At(s, i, if s.stop == 0 then Serving(got) else Leaving);
    case Serving(got) => s' := At(s, i, Fetching);
    case Leaving => s' := At(s, i, Counting).(owner := TheWorker(i));
    case Counting => s' := At(s, i, Reporting).(numThreads := s.numThreads - 1);
    case Reporting =>
      s' := At(s, i, LeavingUnlocks).(master := if s.master.EndAsleep? then EndWoken else s.master);
    case LeavingUnlocks => s' := At(s, i, Gone).(owner := NoOne);
  }

  // A worker on its way out takes no more sockets.
  predicate Leaves(pc: WorkerPc) {
    pc.Leaving? || pc.Counting? || pc.Reporting? || pc.LeavingUnlocks? || pc.Gone?
  }

  // The steps that worker i takes by itself until it has dequeued a socket.
  ghost predicate Continues(run: seq<State>, i: nat) {
    forall m | 0 <= m < |run| - 1 :: |run[m].queue| == CAPACITY && WorkerStep(run[m], run[m + 1], i)
  }

  ghost predicate WorkerCanTake(s: State, i: nat) {
    exists more: seq<State> :: more != [] && more[0] == s && Continues(more, i)
      && |more[|more| - 1].taken| == |s.taken| + 1
  }

  // How many steps a worker is from dequeuing.
  function StepsToTake(pc: WorkerPc): (n: nat) {
    match pc
    case Taking => 1
    case CheckingEmpty => 2
    case Fetching => 3
    case Roused => 3
    case Starting => 4
    case Serving(_) => 4
    case Returning(_) => 5
    case _ => 0
  }

  // With the mutex free and a socket in the ring, the worker goes on to take
  // it, wherever it stands, unless it sleeps or leaves.
  lemma {:induction false} GoesOnToTake(s: State, i: nat)
    requires |s.queue| == CAPACITY && s.stop == 0 && s.head > s.tail >= 0 && i < |s.workers|
    requires StepsToTake(s.workers[i]) > 0
    requires s.owner == if s.workers[i].Taking? || s.workers[i].CheckingEmpty? then TheWorker(i) else NoOne
    ensures WorkerCanTake(s, i)
    decreases StepsToTake(s.workers[i])
  {
    var s' := match s.workers[i]
      case Starting => At(s, i, Fetching)
      case Serving(_) => At(s, i, Fetching)
      case Returning(got) => At(s, i, Serving(got))
      case Fetching => At(s, i, CheckingEmpty).(owner := TheWorker(i))
      case Roused => At(s, i, CheckingEmpty).(owner := TheWorker(i))
      case CheckingEmpty => At(s, i, Taking)
      case Taking =>
        var sp := s.queue[s.tail % CAPACITY];
        At(s, i, Wrapping(Some(sp))).(tail := s.tail + 1, taken := s.taken + [(i, sp)]);
    assert WorkerStep(s, s', i);
    if s.workers[i].Taking? {
      TakesNow(s, s', i);
    } else {
      GoesOnToTake(s', i);
      TakesLater(s, s', i);
    }
  }

  lemma TakesNow(s: State, s': State, i: nat)
    requires |s.queue| == CAPACITY && WorkerStep(s, s', i) && |s'.taken| == |s.taken| + 1
    ensures WorkerCanTake(s, i)
  {
    hide WorkerStep;
    assert Continues([s, s'], i);
  }

  lemma TakesLater(s: State, s': State, i: nat)
    requires |s.queue| == CAPACITY && WorkerStep(s, s', i) && s'.taken == s.taken && WorkerCanTake(s', i)
    ensures WorkerCanTake(s, i)
  {
    hide WorkerStep;
    var more: seq<State> :| more != [] && more[0] == s' && Continues(more, i)
      && |more[|more| - 1].taken| == |s'.taken| + 1;
    var all := [s] + more;
    forall m | 0 <= m < |all| - 1
      ensures |all[m].queue| == CAPACITY && WorkerStep(all[m], all[m + 1], i)
    {
      if m > 0 {
        assert all[m] == more[m - 1] && all[m + 1] == more[m - 1 + 1];
      }
    }
    assert all[|all| - 1] == more[|more| - 1];
    assert Continues(all, i);
  }

  // The queue never gets stuck: with the mutex free and a socket in the ring,
  // some worker can by its own steps alone go on and dequeue one, unless all
  // of them are leaving.
  lemma QueueProgress(run: seq<State>, n: nat)
    requires IsRun(run) && n < |run|
    requires run[n].owner == NoOne && run[n].stop == 0 && run[n].head > run[n].tail
    ensures (exists i: nat :: i < |run[n].workers| && WorkerCanTake(run[n], i))
       <==> (exists i :: 0 <= i < |run[n].workers| && !Leaves(run[n].workers[i]))
  {
    hide FifoInv, OrderInv, AllGotInv, StopInv, ThreadsInv, WakeInv, Next, Count, Init, WorkerCanTake, WorkerStep;
    RunInv(run, n);
    RingIsFifo(run, n);
    var s := run[n];
    if i: nat :| i < |s.workers| && WorkerCanTake(s, i) {
      LeaversTakeNothing(s, i);
    }
    if i :| 0 <= i < |s.workers| && !Leaves(s.workers[i]) {
      var j := AwakeWorker(run, n, i);
      GoesOnToTake(s, j);
    }
  }

  // A worker that sleeps has a signalled one to stand in for it.
  lemma AwakeWorker(run: seq<State>, n: nat, i: nat) returns (j: nat)
    requires IsRun(run) && n < |run| && i < |run[n].workers| && !Leaves(run[n].workers[i])
    requires run[n].owner == NoOne && run[n].stop == 0 && run[n].head > run[n].tail
    ensures j < |run[n].workers| && !Leaves(run[n].workers[j]) && !run[n].workers[j].Sleeping?
    ensures MutexInv(run[n]) && StepsToTake(run[n].workers[j]) > 0
  {
    hide FifoInv, OrderInv, AllGotInv, StopInv, ThreadsInv, WakeInv, Next, Count, Init;
    RunInv(run, n);
    var s := run[n];
    j := i;
    if s.workers[i].Sleeping? {
      NoLostWakeups(run, n);
      assert Slept(s.workers, i);
      CountPositive(s.workers, IsRoused);
      j :| 0 <= j < |s.workers| && IsRoused(s.workers[j]);
    }
  }

  lemma {:induction false} StaysLeaving(more: seq<State>, i: nat, m: nat)
    requires more != [] && Continues(more, i) && m < |more|
    requires i < |more[0].workers| && Leaves(more[0].workers[i])
    ensures i < |more[m].workers| && Leaves(more[m].workers[i]) && more[m].taken == more[0].taken
    decreases m
  {
    if m > 0 {
      StaysLeaving(more, i, m - 1);
      assert WorkerStep(more[m - 1], more[m - 1 + 1], i);
    }
  }

  lemma LeaversTakeNothing(s: State, i: nat)
    requires i < |s.workers| && WorkerCanTake(s, i)
    ensures !Leaves(s.workers[i])
  {
    hide WorkerStep, Leaves, Continues;
    var more: seq<State> :| more != [] && more[0] == s && Continues(more, i)
      && |more[|more| - 1].taken| == |s.taken| + 1;
    if Leaves(s.workers[i]) {
      StaysLeaving(more, i, |more| - 1);
    }
  }

  // num_threads counts the workers that have not run their exit block; the
  // condition variables are destroyed, stop_flag becomes 2 and the context is
  // freed only when every worker is gone, so none of them moves again.
  lemma ShutdownIsSafe(run: seq<State>, n: nat)
    requires IsRun(run) && n < |run|
    ensures var s := run[n];
      && s.numThreads == Count(s.workers, Counted)
      && (s.master.Destroying? || s.master.SettingStop? || s.stop == 2 || s.stopper.ContextFreed? ==>
            AllGone(s) && s.numThreads == 0)
      && (s.stopper.ContextFreed? ==> s.master.MasterGone?)
  {
    hide FifoInv, OrderInv, AllGotInv, WakeInv, RoomInv, Next, Count, MutexInv;
    RunInv(run, n);
    CountPositive(run[n].workers, Counted);
  }

  lemma GoneStaysStill(s: State, s': State)
    requires AllGone(s) && Next(s, s')
    ensures AllGone(s') && s'.workers == s.workers
    ensures s.master.MasterGone? ==> StopperStep(s, s')
  {
    hide Count;
    if s.master.Signalling? && MasterStep(s, s') {
      assert s'.workers == s.workers;
    }
  }
}
