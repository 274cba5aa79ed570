// Stopping the web server: when it comes to an end, and the two ways in which
// it can hang instead.

module WorkerShutdown {
  import opened Common
  import opened WorkerPool

  // ---------- Where shutdown can hang --------------------------------------------------

  // A worker that read stop_flag as 0 and has yet to fall asleep, or sleeps.
  predicate Misses(pc: WorkerPc) { pc.GoingToSleep? || pc.Sleeping? }

  ghost predicate NobodyMisses(s: State) { forall i | 0 <= i < |s.workers| :: !Misses(s.workers[i]) }

  ghost predicate MissedBy(s: State, i: nat) { i < |s.workers| && Misses(s.workers[i]) }

  // When no worker is about to fall asleep the broadcast reaches everybody: no
  // worker ever sleeps on sq_full again.
  lemma {:induction false} BroadcastReachesAll(run: seq<State>, b: nat, n: nat)
    requires IsRun(run) && b < n < |run|
    requires run[b].master.Broadcasting? && run[b + 1].master.EndLocking?
    requires forall i | 0 <= i < |run[b].workers| :: !run[b].workers[i].GoingToSleep?
    ensures BroadcastDone(run[n].master) && NobodyMisses(run[n])
    decreases n
  {
    hide Inv, Init, Next, NobodyMisses;
    RunInv(run, n - 1);
    assert Next(run[n - 1], run[n - 1 + 1]);
    if n > b + 1 {
      BroadcastReachesAll(run, b, n - 1);
      NobodySleepsAnew(run[n - 1], run[n]);
    } else {
      TheBroadcast(run[b], run[b + 1]);
    }
  }

  lemma TheBroadcast(s: State, s': State)
    requires Next(s, s') && s.master.Broadcasting? && s'.master.EndLocking?
    ensures s'.workers == RouseAll(s.workers)
    ensures (forall i | 0 <= i < |s.workers| :: !s.workers[i].GoingToSleep?) ==> NobodyMisses(s')
    ensures forall i: nat | i < |s.workers| && s.workers[i].GoingToSleep? :: MissedBy(s', i)
  {
    hide WorkerStep;
    if i: nat :| WorkerStep(s, s', i) {
      WorkersLeaveMaster(s, s', i);
    }
  }

  lemma WorkersLeaveMaster(s: State, s': State, i: nat)
    requires |s.queue| == CAPACITY && WorkerStep(s, s', i)
    ensures s'.master == s.master || s.master.Asleep? || s.master.EndAsleep?
    ensures BroadcastDone(s.master) ==> BroadcastDone(s'.master)
  {
  }

  lemma NobodySleepsAnew(s: State, s': State)
    requires Inv(s) && Next(s, s') && BroadcastDone(s.master) && NobodyMisses(s)
    ensures BroadcastDone(s'.master) && NobodyMisses(s')
  {
    hide Inv, WorkerStep, NobodyMisses, MasterStep;
    StopSeen(s);
    if i: nat :| WorkerStep(s, s', i) {
      WorkersLeaveMaster(s, s', i);
      AwakeStays(s, s', i);
    } else if MasterStep(s, s') {
      MasterMovesOn(s, s');
      SameWorkers(s, s');
    } else if StopperStep(s, s') {
      SameWorkers(s, s');
    } else {
      SpuriousOnly(s, s');
    }
  }

  lemma StopSeen(s: State)
    requires Inv(s) && BroadcastDone(s.master)
    ensures s.stop != 0
  {
  }

  lemma AwakeStays(s: State, s': State, i: nat)
    requires |s.queue| == CAPACITY && WorkerStep(s, s', i) && s.stop != 0 && NobodyMisses(s)
    ensures NobodyMisses(s')
  {
    assert !Misses(s.workers[i]);
    assert !Misses(s'.workers[i]);
  }

  lemma MasterMovesOn(s: State, s': State)
    requires |s.queue| == CAPACITY && MasterStep(s, s') && BroadcastDone(s.master)
    ensures BroadcastDone(s'.master) && s'.workers == s.workers
  {
  }

  lemma SameWorkers(s: State, s': State)
    requires s'.workers == s.workers && NobodyMisses(s)
    ensures NobodyMisses(s')
  {
  }

  lemma SpuriousOnly(s: State, s': State)
    requires SpuriousStep(s, s') && BroadcastDone(s.master) && NobodyMisses(s)
    ensures BroadcastDone(s'.master) && NobodyMisses(s')
  {
  }

  // When a worker is about to fall asleep the broadcast misses it: without a
  // spurious wake-up that worker never leaves and the server never finishes
  // stopping.
  lemma {:induction false} BroadcastMissed(run: seq<State>, b: nat, n: nat, i: nat)
    requires IsRun(run) && b < n < |run|
    requires forall m | b <= m < n :: |run[m].queue| == CAPACITY && ProperStep(run[m], run[m + 1])
    requires run[b].master.Broadcasting? && run[b + 1].master.EndLocking?
    requires i < |run[b].workers| && run[b].workers[i].GoingToSleep?
    ensures BroadcastDone(run[n].master) && MissedBy(run[n], i)
    ensures run[n].stop != 2 && !run[n].stopper.ContextFreed?
    decreases n
  {
    hide Inv, Init, Next, ProperStep, MissedBy;
    if n > b + 1 {
      BroadcastMissed(run, b, n - 1, i);
      RunInv(run, n - 1);
      assert ProperStep(run[n - 1], run[n - 1 + 1]);
      MissedStays(run[n - 1], run[n], i);
    } else {
      assert Next(run[b], run[b + 1]);
      TheBroadcast(run[b], run[b + 1]);
    }
    RunInv(run, n);
    MissedKeepsServer(run[n], i);
  }

  lemma MissedStays(s: State, s': State, i: nat)
    requires Inv(s) && |s.queue| == CAPACITY && ProperStep(s, s') && BroadcastDone(s.master) && MissedBy(s, i)
    ensures BroadcastDone(s'.master) && MissedBy(s', i)
  {
    hide Inv, WorkerStep, MasterStep;
    if j: nat :| WorkerStep(s, s', j) {
      WorkersLeaveMaster(s, s', j);
      MissedByWorker(s, s', i, j);
    } else if MasterStep(s, s') {
      MasterMovesOn(s, s');
    }
  }

  lemma MissedByWorker(s: State, s': State, i: nat, j: nat)
    requires |s.queue| == CAPACITY && WorkerStep(s, s', j) && MissedBy(s, i)
    ensures MissedBy(s', i)
  {
  }

  lemma MissedKeepsServer(s: State, i: nat)
    requires Inv(s) && MissedBy(s, i)
    ensures s.stop != 2 && !s.stopper.ContextFreed?
  {
    hide FifoInv, OrderInv, AllGotInv, WakeInv, RoomInv, MutexInv, Count;
    assert !AllGone(s);
  }

  // A master that is not about to wait, or waiting already, when the server is
  // told to stop never waits for room again.
  predicate WaitsForRoom(pc: MasterPc) { pc.AboutToWait? || pc.Asleep? }

  lemma {:induction false} MasterWaitsNoMore(run: seq<State>, b: nat, n: nat)
    requires IsRun(run) && b <= n < |run|
    requires run[b].stop != 0 && !WaitsForRoom(run[b].master)
    ensures run[n].stop != 0 && !WaitsForRoom(run[n].master)
    decreases n
  {
    hide IsRun, Inv, Next;
    if n > b {
      MasterWaitsNoMore(run, b, n - 1);
      RunInv(run, n - 1);
      StepOf(run, n - 1);
      WaitsNoMore(run[n - 1], run[n]);
    }
  }

  lemma StepOf(run: seq<State>, n: nat)
    requires IsRun(run) && n + 1 < |run|
    ensures Next(run[n], run[n + 1])
  {
    hide Next;
  }

  lemma WaitsNoMore(s: State, s': State)
    requires Inv(s) && Next(s, s') && s.stop != 0 && !WaitsForRoom(s.master)
    ensures s'.stop != 0 && !WaitsForRoom(s'.master)
  {
    hide WorkerStep;
    StopKept(s, s');
    if i: nat :| WorkerStep(s, s', i) {
      WorkersLeaveMaster(s, s', i);
    }
  }

  // ---------- The exact condition ----------------------------------------------------

  // The master waits for workers to leave only while one has not left.
  ghost predicate WaitInv(s: State) {
    && (s.master.EndAboutToWait? ==> s.numThreads > 0)
    && (s.master.EndAsleep? ==> s.numThreads > 0 || LastReports(s))
  }

  ghost predicate LastReports(s: State) {
    s.owner.TheWorker? && s.owner.i < |s.workers| && s.workers[s.owner.i].Reporting?
  }

  ghost predicate OneOnTheWay(s: State, i: nat) { i < |s.workers| && OnTheWay(s.workers[i]) }

  ghost predicate SomeoneOnTheWay(s: State) { exists i: nat :: OneOnTheWay(s, i) }

  // While the master waits for room and a worker sleeps, another worker is on
  // its way to make room, or has made it and is about to signal.
  ghost predicate HelpInv(s: State) {
    (s.master.AboutToWait? || s.master.Asleep?) && SomeoneSleeps(s.workers) ==> SomeoneOnTheWay(s) || MadeRoom(s)
  }

  lemma WaitKept(s: State, s': State)
    requires Inv(s) && WaitInv(s) && Next(s, s')
    ensures WaitInv(s')
  {
    hide WorkerStep, MasterStep, Inv;
    OwnersOf(s);
    if i: nat :| WorkerStep(s, s', i) {
      WaitKeptByWorker(s, s', i);
    } else if MasterStep(s, s') {
      WaitKeptByMaster(s, s');
    } else if StopperStep(s, s') {
    } else {
      assert SpuriousStep(s, s');
    }
  }

  lemma OwnersOf(s: State)
    requires Inv(s)
    ensures MutexInv(s) && StopInv(s) && RingInv(s) && WakeInv(s) && RoomInv(s) && ThreadsInv(s)
  {
  }

  lemma WaitKeptByMaster(s: State, s': State)
    requires MutexInv(s) && WaitInv(s) && MasterStep(s, s')
    ensures WaitInv(s')
  {
    match s.master
    case _ =>
  }

  lemma WaitKeptByWorker(s: State, s': State, i: nat)
    requires MutexInv(s) && WaitInv(s) && WorkerStep(s, s', i)
    ensures WaitInv(s')
  {
    match s.workers[i]
    case _ =>
  }

  lemma HelpKept(s: State, s': State)
    requires Inv(s) && HelpInv(s) && Next(s, s')
    ensures HelpInv(s')
  {
    hide WorkerStep, MasterStep, SpuriousStep, Inv, HelpInv;
    OwnersOf(s);
    if i: nat :| WorkerStep(s, s', i) {
      HelpKeptByWorker(s, s', i);
    } else if MasterStep(s, s') {
      HelpKeptByMaster(s, s');
    } else if StopperStep(s, s') {
      HelpKeptByStopper(s, s');
    } else {
      HelpKeptBySpurious(s, s');
    }
  }

  lemma HelpKeptByStopper(s: State, s': State)
    requires HelpInv(s) && StopperStep(s, s')
    ensures HelpInv(s')
  {
    assert forall i: nat :: OneOnTheWay(s, i) ==> OneOnTheWay(s', i);
  }

  // The ring is full when the master decides to wait, so that by the count of
  // wake-ups somebody is on the way.
  lemma HelpKeptByMaster(s: State, s': State)
    requires MutexInv(s) && RingInv(s) && WakeInv(s) && HelpInv(s) && MasterStep(s, s')
    ensures HelpInv(s')
  {
    hide Count;
    if s.master.CheckingFull? && SomeoneSleeps(s.workers) {
      CountPositive(s.workers, OnTheWay);
      assert forall i | 0 <= i < |s.workers| && OnTheWay(s.workers[i]) :: OneOnTheWay(s', i);
    } else if s.master.AboutToWait? {
      assert forall i: nat :: OneOnTheWay(s, i) ==> OneOnTheWay(s', i);
    }
  }

  lemma HelpKeptByWorker(s: State, s': State, i: nat)
    requires MutexInv(s) && RingInv(s) && WakeInv(s) && RoomInv(s) && HelpInv(s) && WorkerStep(s, s', i)
    ensures HelpInv(s')
  {
    hide Count;
    if s'.master.AboutToWait? || s'.master.Asleep? {
      NobodyFallsAsleep(s, s', i);
      if SomeoneSleeps(s'.workers) {
        SleepersOf(s, s', i);
        assert SomeoneOnTheWay(s) || MadeRoom(s);
        HelperStays(s, s', i);
      }
    }
  }

  lemma NobodyFallsAsleep(s: State, s': State, i: nat)
    requires MutexInv(s) && RingInv(s) && WakeInv(s) && RoomInv(s) && WorkerStep(s, s', i)
    requires s'.master.AboutToWait? || s'.master.Asleep?
    ensures s.master == s'.master && !s.workers[i].GoingToSleep? && !s.workers[i].Notifying?
    ensures s.workers[i].CheckingEmpty? || s.workers[i].Taking? ==> s.head > s.tail
  {
    hide Count;
  }

  lemma HelperStays(s: State, s': State, i: nat)
    requires MutexInv(s) && WorkerStep(s, s', i) && (SomeoneOnTheWay(s) || MadeRoom(s))
    requires !s.workers[i].Notifying? && (s.workers[i].CheckingEmpty? || s.workers[i].Taking? ==> s.head > s.tail)
    ensures SomeoneOnTheWay(s') || MadeRoom(s')
  {
    if SomeoneOnTheWay(s) {
      var j: nat :| OneOnTheWay(s, j);
      assert OneOnTheWay(s', j) || MadeRoom(s');
    }
  }

  lemma HelpKeptBySpurious(s: State, s': State)
    requires HelpInv(s) && SpuriousStep(s, s')
    ensures HelpInv(s')
  {
    if i: nat :| Slept(s.workers, i) && s' == At(s, i, Roused) {
      assert OneOnTheWay(s', i);
    }
  }

  lemma {:induction false} MoreInv(run: seq<State>, n: nat)
    requires IsRun(run) && n < |run|
    ensures Inv(run[n]) && WaitInv(run[n]) && HelpInv(run[n])
    decreases n
  {
    hide Inv, Next, WaitInv, HelpInv;
    RunInv(run, n);
    if n == 0 {
      AtTheStart(run[0]);
    } else {
      MoreInv(run, n - 1);
      assert Next(run[n - 1], run[n - 1 + 1]);
      WaitKept(run[n - 1], run[n]);
      HelpKept(run[n - 1], run[n]);
    }
  }

  lemma AtTheStart(s: State)
    requires Init(s)
    ensures WaitInv(s) && HelpInv(s)
  {
  }

  ghost predicate AllAsleepOrGone(s: State) {
    forall i | 0 <= i < |s.workers| :: s.workers[i].Sleeping? || s.workers[i].Gone?
  }

  // The master waits for room in the ring and every worker is gone, or it
  // waits for workers to leave and those that have not left all sleep.
  ghost predicate Hung(s: State) {
    || (s.master.Asleep? && AllGone(s))
    || (s.master.EndAsleep? && AllAsleepOrGone(s) && !AllGone(s))
  }

  // Once the server has been told to stop, and before it has: no thread can
  // step, but for spurious wake-ups, exactly in these states.
  lemma StuckIffHung(run: seq<State>, n: nat)
    requires IsRun(run) && n < |run| && run[n].stop == 1
    ensures |run[n].queue| == CAPACITY
    ensures (forall s' :: !ProperStep(run[n], s')) <==> Hung(run[n])
  {
    hide Inv, Next, WaitInv, HelpInv, ProperStep, Hung;
    MoreInv(run, n);
    OwnersOf(run[n]);
    var s := run[n];
    if Hung(s) {
      forall s' ensures !ProperStep(s, s') {
        HungIsStuck(s, s');
      }
    } else {
      var s' := SomeStep(s);
    }
  }

  lemma HungIsStuck(s: State, s': State)
    requires |s.queue| == CAPACITY && StopInv(s) && s.stop == 1 && Hung(s)
    ensures !ProperStep(s, s')
  {
    hide MasterStep;
    forall i: nat ensures !WorkerStep(s, s', i) {}
    assert !MasterStep(s, s') by { MasterAsleep(s, s'); }
  }

  lemma MasterAsleep(s: State, s': State)
    requires |s.queue| == CAPACITY && (s.master.Asleep? || s.master.EndAsleep?)
    ensures !MasterStep(s, s')
  {
  }

  lemma SomeStep(s: State) returns (s': State)
    requires MutexInv(s) && StopInv(s) && ThreadsInv(s) && WaitInv(s) && HelpInv(s) && s.stop == 1 && !Hung(s)
    ensures ProperStep(s, s')
  {
    hide MasterStep, WorkerStep, Count;
    if s.owner.TheMaster? {
      s' := MasterMove(s);
    } else if s.owner.TheWorker? {
      s' := WorkerMove(s, s.owner.i);
    } else if i: nat :| i < |s.workers| && !s.workers[i].Sleeping? && !s.workers[i].Gone? {
      s' := WorkerMove(s, i);
    } else {
      assert AllAsleepOrGone(s);
      MasterIsAwake(s);
      s' := MasterGoesOn(s);
    }
  }

  lemma MasterIsAwake(s: State)
    requires MutexInv(s) && ThreadsInv(s) && WaitInv(s) && HelpInv(s) && !Hung(s)
    requires s.owner == NoOne && AllAsleepOrGone(s)
    ensures !s.master.Asleep? && !s.master.EndAsleep?
  {
    hide Count;
    if s.master.Asleep? {
      NobodyHelps(s);
    } else if s.master.EndAsleep? {
      CountPositive(s.workers, Counted);
    }
  }

  lemma NobodyHelps(s: State)
    requires s.owner == NoOne && AllAsleepOrGone(s)
    ensures !SomeoneOnTheWay(s) && !MadeRoom(s)
    ensures !AllGone(s) ==> SomeoneSleeps(s.workers)
  {
    if i :| 0 <= i < |s.workers| && !s.workers[i].Gone? {
      assert Slept(s.workers, i);
    }
  }

  lemma MasterGoesOn(s: State) returns (s': State)
    requires |s.queue| == CAPACITY && StopInv(s) && s.stop == 1 && s.owner == NoOne && !MasterHolds(s.master)
    requires !s.master.Asleep? && !s.master.EndAsleep?
    ensures MasterStep(s, s')
  {
    match s.master
    case Polling => s' := s.(master := Broadcasting);
    case Locking(sp) => s' := s.(master := CheckingFull(sp), owner := TheMaster);
    case Woken(sp) => s' := s.(master := CheckingFull(sp), owner := TheMaster);
    case Broadcasting => s' := s.(master := EndLocking, workers := RouseAll(s.workers));
    case EndLocking => s' := s.(master := CheckingThreads, owner := TheMaster);
    case EndWoken => s' := s.(master := CheckingThreads, owner := TheMaster);
    case Destroying => s' := s.(master := SettingStop);
    case SettingStop => s' := s.(master := MasterGone, stop := 2);
  }

  // ---------- Both kinds of hang happen -------------------------------------------------

  lemma Extend(run: seq<State>, s': State)
    requires IsRun(run) && Next(run[|run| - 1], s')
    ensures IsRun(run + [s'])
  {
    hide Next, Init;
    var r := run + [s'];
    forall i | 0 <= i < |r| - 1
      ensures Next(r[i], r[i + 1])
    {
      if i < |run| - 1 {
        assert Next(run[i], run[i + 1]);
      }
    }
  }

  lemma WorkerGoes(run: seq<State>, s': State)
    requires IsRun(run) && |run[|run| - 1].queue| == CAPACITY && WorkerStep(run[|run| - 1], s', 0)
    ensures IsRun(run + [s'])
  {
    hide IsRun, WorkerStep;
    Extend(run, s');
  }

  lemma MasterGoes(run: seq<State>, s': State)
    requires IsRun(run) && |run[|run| - 1].queue| == CAPACITY && MasterStep(run[|run| - 1], s')
    ensures IsRun(run + [s'])
  {
    hide IsRun, MasterStep;
    Extend(run, s');
  }

  lemma StopperGoes(run: seq<State>, s': State)
    requires IsRun(run) && |run[|run| - 1].queue| == CAPACITY && StopperStep(run[|run| - 1], s')
    ensures IsRun(run + [s'])
  {
    hide IsRun, StopperStep;
    Extend(run, s');
  }

  // A worker reads stop_flag as 0, then the server is stopped.
  lemma StoppedTooSoon() returns (run: seq<State>)
    ensures IsRun(run) && run != []
    ensures var s := run[|run| - 1];
      && |s.queue| == CAPACITY && s.stop == 1 && s.numThreads == 1 && s.stopper == WaitingForEnd
      && s.workers == [GoingToSleep] && s.owner == TheWorker(0) && s.master == Polling
  {
    hide IsRun;
    var s0 := State(seq(CAPACITY, _ => 0), 0, 0, 0, 1, NoOne, Polling, [Starting], NotCalled, 0, [], []);
    StartRun(s0);
    var s1 := s0.(workers := [Fetching]);
    WorkerGoes([s0], s1);
    var s2 := s1.(workers := [CheckingEmpty], owner := TheWorker(0));
    WorkerGoes([s0] + [s1], s2);
    var s3 := s2.(workers := [GoingToSleep]);
    WorkerGoes([s0] + [s1] + [s2], s3);
    var s4 := s3.(stopper := WaitingForEnd, stop := 1);
    assert StopperStep(s3, s4);
    run := [s0] + [s1] + [s2] + [s3] + [s4];
    Extend([s0] + [s1] + [s2] + [s3], s4);
  }

  lemma StartRun(s: State)
    requires Init(s)
    ensures IsRun([s])
  {
  }

  // One worker reads stop_flag, the server is stopped, the broadcast goes out,
  // the worker falls asleep.
  lemma ShutdownCanHang() returns (run: seq<State>, last: State)
    ensures IsRun(run) && last == run[|run| - 1] && last.stop == 1 && last.master.EndAsleep? && Hung(last)
  {
    hide IsRun, ProperStep;
    var r := StoppedTooSoon();
    var s4 := r[|r| - 1];
    var s5 := s4.(master := Broadcasting);
    MasterGoes(r, s5);
    var s6 := s5.(master := EndLocking);
    assert RouseAll(s5.workers) == s5.workers;
    MasterGoes(r + [s5], s6);
    var s7 := s6.(workers := [Sleeping], owner := NoOne);
    WorkerGoes(r + [s5] + [s6], s7);
    var s8 := s7.(master := CheckingThreads, owner := TheMaster);
    MasterGoes(r + [s5] + [s6] + [s7], s8);
    var s9 := s8.(master := EndAboutToWait);
    MasterGoes(r + [s5] + [s6] + [s7] + [s8], s9);
    var s10 := s9.(master := EndAsleep, owner := NoOne);
    MasterGoes(r + [s5] + [s6] + [s7] + [s8] + [s9], s10);
    run := r + [s5] + [s6] + [s7] + [s8] + [s9] + [s10];
    last := s10;
    assert !last.workers[0].Gone?;
  }

  // ---------- The hang in produce_socket --------------------------------------------------

  // The master accepts sockets, and the only worker stands where it does not
  // touch the ring.
  ghost predicate Accepting(s: State, pc: WorkerPc, waiting: nat) {
    && |s.queue| == CAPACITY && s.stop == 0 && s.stopper == NotCalled && s.owner == NoOne && s.master == Polling
    && s.workers == [pc] && s.numThreads == 1 && 0 <= s.tail && s.head - s.tail == waiting
  }

  // One more socket in the ring.
  lemma OneMoreQueued(run: seq<State>, pc: WorkerPc, waiting: nat) returns (longer: seq<State>)
    requires run != [] && IsRun(run) && Accepting(run[|run| - 1], pc, waiting) && waiting < CAPACITY && !pc.Sleeping?
    ensures longer != [] && IsRun(longer) && Accepting(longer[|longer| - 1], pc, waiting + 1)
    ensures longer[|longer| - 1].tail == run[|run| - 1].tail
  {
    hide IsRun;
    var s := run[|run| - 1];
    var s1 := s.(master := Locking(s.arrivals), arrivals := s.arrivals + 1);
    MasterGoes(run, s1);
    var s2 := s1.(master := CheckingFull(s.arrivals), owner := TheMaster);
    MasterGoes(run + [s1], s2);
    var s3 := s2.(master := Enqueuing(s.arrivals));
    MasterGoes(run + [s1] + [s2], s3);
    var s4 := s3.(master := Signalling, queue := s.queue[s.head % CAPACITY := s.arrivals], head := s.head + 1,
                  queued := s.queued + [s.arrivals]);
    MasterGoes(run + [s1] + [s2] + [s3], s4);
    var s5 := s4.(master := Unlocking);
    assert forall i: nat :: !Slept(s4.workers, i);
    MasterGoes(run + [s1] + [s2] + [s3] + [s4], s5);
    var s6 := s5.(master := Polling, owner := NoOne);
    MasterGoes(run + [s1] + [s2] + [s3] + [s4] + [s5], s6);
    longer := run + [s1] + [s2] + [s3] + [s4] + [s5] + [s6];
  }

  lemma {:induction false} RingFills(run: seq<State>, pc: WorkerPc, waiting: nat) returns (longer: seq<State>)
    requires run != [] && IsRun(run) && Accepting(run[|run| - 1], pc, waiting) && waiting <= CAPACITY && !pc.Sleeping?
    ensures longer != [] && IsRun(longer) && Accepting(longer[|longer| - 1], pc, CAPACITY)
    decreases CAPACITY - waiting
  {
    hide IsRun, Accepting;
    if waiting == CAPACITY {
      longer := run;
    } else {
      var r := OneMoreQueued(run, pc, waiting);
      longer := RingFills(r, pc, waiting + 1);
    }
  }

  // The worker takes the first socket and has signalled for it.
  lemma WorkerIsReturning() returns (run: seq<State>, pc: WorkerPc)
    ensures run != [] && IsRun(run) && pc.Returning? && Accepting(run[|run| - 1], pc, 0)
  {
    hide IsRun;
    var s0 := State(seq(CAPACITY, _ => 0), 0, 0, 0, 1, NoOne, Polling, [Starting], NotCalled, 0, [], []);
    StartRun(s0);
    var r := OneMoreQueued([s0], Starting, 0);
    var s := r[|r| - 1];
    var s1 := s.(workers := [Fetching]);
    WorkerGoes(r, s1);
    var s2 := s1.(workers := [CheckingEmpty], owner := TheWorker(0));
    WorkerGoes(r + [s1], s2);
    var s3 := s2.(workers := [Taking]);
    WorkerGoes(r + [s1] + [s2], s3);
    var sp := s3.queue[s3.tail % CAPACITY];
    var s4 := s3.(workers := [Wrapping(Some(sp))], tail := s3.tail + 1, taken := s3.taken + [(0, sp)]);
    WorkerGoes(r + [s1] + [s2] + [s3], s4);
    run, pc := WorkerGivesBack(r + [s1] + [s2] + [s3] + [s4], Some(sp));
  }

  lemma WorkerGivesBack(run: seq<State>, got: Option<Socket>) returns (longer: seq<State>, pc: WorkerPc)
    requires run != [] && IsRun(run) && |run[|run| - 1].workers| == 1
    requires var s := run[|run| - 1];
      Accepting(s.(owner := NoOne), Wrapping(got), 0) && s.owner == TheWorker(0) && s.tail <= CAPACITY
    ensures longer != [] && IsRun(longer) && pc.Returning? && Accepting(longer[|longer| - 1], pc, 0)
  {
    hide IsRun;
    var s := run[|run| - 1];
    var s1 := s.(workers := [Notifying(got)]);
    WorkerGoes(run, s1);
    var s2 := s1.(workers := [Releasing(got)]);
    WorkerGoes(run + [s1], s2);
    var s3 := s2.(workers := [Returning(got)], owner := NoOne);
    WorkerGoes(run + [s1] + [s2], s3);
    longer, pc := run + [s1] + [s2] + [s3], Returning(got);
  }

  // The ring is full and the master has read stop_flag for the last time
  // before it sleeps; only then is the server stopped.  The worker sees that
  // and leaves without signalling sq_empty again.
  lemma ShutdownCanHangWhileAccepting() returns (run: seq<State>, last: State)
    ensures run != [] && IsRun(run) && last == run[|run| - 1] && last.stop == 1 && last.master.Asleep? && Hung(last)
    ensures |last.workers| == 1
  {
    hide IsRun;
    var r0, pc := WorkerIsReturning();
    var r := RingFills(r0, pc, 0);
    var s := r[|r| - 1];
    var s1 := s.(master := Locking(s.arrivals), arrivals := s.arrivals + 1);
    MasterGoes(r, s1);
    var s2 := s1.(master := CheckingFull(s.arrivals), owner := TheMaster);
    MasterGoes(r + [s1], s2);
    var s3 := s2.(master := AboutToWait(s.arrivals));
    MasterGoes(r + [s1] + [s2], s3);
    var s4 := s3.(stopper := WaitingForEnd, stop := 1);
    StopperGoes(r + [s1] + [s2] + [s3], s4);
    var s5 := s4.(master := Asleep(s.arrivals), owner := NoOne);
    MasterGoes(r + [s1] + [s2] + [s3] + [s4], s5);
    run, last := LastWorkerLeaves(r + [s1] + [s2] + [s3] + [s4] + [s5]);
  }

  lemma LastWorkerLeaves(run: seq<State>) returns (longer: seq<State>, last: State)
    requires run != [] && IsRun(run)
    requires var s := run[|run| - 1];
      |s.queue| == CAPACITY && s.stop == 1 && s.owner == NoOne && s.master.Asleep?
      && |s.workers| == 1 && s.workers[0].Returning?
    ensures longer != [] && IsRun(longer) && last == longer[|longer| - 1] && last.stop == 1 && last.master.Asleep? && AllGone(last)
    ensures |last.workers| == 1
  {
    hide IsRun;
    var s := run[|run| - 1];
    var s1 := s.(workers := [Leaving]);
    WorkerGoes(run, s1);
    var s2 := s1.(workers := [Counting], owner := TheWorker(0));
    WorkerGoes(run + [s1], s2);
    var s3 := s2.(workers := [Reporting], numThreads := s.numThreads - 1);
    WorkerGoes(run + [s1] + [s2], s3);
    var s4 := s3.(workers := [LeavingUnlocks]);
    WorkerGoes(run + [s1] + [s2] + [s3], s4);
    last := s4.(workers := [Gone], owner := NoOne);
    WorkerGoes(run + [s1] + [s2] + [s3] + [s4], last);
    longer := run + [s1] + [s2] + [s3] + [s4] + [last];
  }
}
