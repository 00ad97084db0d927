/**
 The monitor of LogCabin's event loop: one mutex, two condition variables, one
 thread inside runForever() and any number of threads constructing and
 destroying Loop::Lock objects.

 The model takes one step per critical section, that is, per stretch of code
 between acquiring the mutex and releasing it or waiting on a condition
 variable.  A condition variable is the set of threads asleep in wait() and the
 set of threads that have left wait() but not yet reacquired the mutex; wake-ups
 may be spurious, and notify_one() wakes an arbitrary sleeper, none only if
 nobody sleeps.
 */
module EventLoop {

  /** Thread identifiers; Core::ThreadId::getId() never returns NONE. */
  type ThreadId = nat

  const NONE: ThreadId := 0

  /** A Lock object: the thread that constructed it, and its identity. */
  datatype Lock = Lock(owner: ThreadId, id: nat)

  /** Where the thread inside runForever() is. */
  datatype Phase =
    | Idle                     // no thread is inside runForever()
    | Parked(notified: bool)   // asleep on `unlocked`, or on its way out of the wait
    | Polling                  // in epoll_wait(), with runningThread set
    | Handling                 // in an event handler, with runningThread set

  datatype State = State(
    // the fields of Event::Loop
    runningThread: ThreadId,
    numLocks: int,
    numActiveLocks: int,
    lockOwner: ThreadId,
    shouldExit: bool,
    // the threads and the kernel
    active: set<Lock>,              // Locks whose constructor has returned
    asleep: set<ThreadId>,          // constructors asleep on safeToLock
    woken: set<ThreadId>,           // constructors that left the wait but have not run yet
    phase: Phase,
    loopThread: ThreadId,           // the thread inside runForever(), unless Idle
    breakPending: bool)             // the break timer has an event epoll has not reported
  {
    /** The Lock constructor of thread t has not returned. */
    predicate Blocked(t: ThreadId) { t in asleep || t in woken }

    predicate AnyBlocked() { asleep != {} || woken != {} }

    /** No thread excludes a Lock constructor from completing. */
    predicate Free() { runningThread == NONE && lockOwner == NONE }

    predicate Running() { phase.Polling? || phase.Handling? }

    /** Thread t has an active Lock. */
    predicate Holds(t: ThreadId) { exists l :: l in active && l.owner == t }

    /** Thread t executes its own code now, rather than being blocked in this class. */
    predicate CanAct(t: ThreadId) {
      && t != NONE
      && !Blocked(t)
      && (t == loopThread ==> phase.Idle? || phase.Handling?)
    }
  }

  const Init := State(NONE, 0, 0, NONE, false, {}, {}, {}, Idle, NONE, false)

  datatype Step =
    | BeginLock(l: Lock)                   // Lock constructor, up to its first wait
    | ResumeLock(l: Lock)                       // Lock constructor, after a wait
    | SpuriousLock(t: ThreadId)               // safeToLock.wait() returns by itself
    | Unlock(l: Lock, pick: ThreadId)           // Lock destructor
    | Start(t: ThreadId, pick: ThreadId)      // runForever() is called
    | Resume(pick: ThreadId)                  // runForever(), after a wait
    | SpuriousResume                          // unlocked.wait() returns by itself
    | Dispatch(isBreak: bool)                 // epoll_wait() reports an event, its handler starts
    | Interrupted(pick: ThreadId)             // epoll_wait() fails with EINTR
    | HandlerDone(pick: ThreadId)             // the handler returns
    | SetExit(t: ThreadId)                    // the assignment in exit(), under its Lock

  /** safeToLock.notify_one(), with the scheduler's choice of sleeper. */
  function NotifyLock(s: State, pick: ThreadId): State {
    if pick in s.asleep then s.(asleep := s.asleep - {pick}, woken := s.woken + {pick}) else s
  }

  predicate ValidPick(s: State, pick: ThreadId) {
    s.asleep != {} ==> pick in s.asleep
  }

  /** unlocked.notify_one(): only the loop thread ever waits on it. */
  function NotifyLoop(s: State): State {
    if s.phase.Parked? then s.(phase := Parked(true)) else s
  }

  /** The end of the Lock constructor: count the Lock as active. */
  function Activate(s: State, l: Lock): State {
    s.(numActiveLocks := s.numActiveLocks + 1, active := s.active + {l})
  }

  /** The constructor's wait loop, entered at its test. */
  function TryLock(s: State, l: Lock): State {
    if s.runningThread != NONE || s.lockOwner != NONE
    then s.(asleep := s.asleep + {l.owner})
    else Activate(s.(lockOwner := l.owner), l)
  }

  function ApplyBeginLock(s: State, l: Lock): State {
    var s1 := s.(numLocks := s.numLocks + 1);
    if s1.runningThread != l.owner && s1.lockOwner != l.owner then
      var s2 := if s1.runningThread != NONE then s1.(breakPending := true) else s1;
      TryLock(s2, l)
    else
      Activate(s1, l)
  }

  function ApplyUnlock(s: State, l: Lock, pick: ThreadId): State {
    var s1 := s.(numLocks := s.numLocks - 1, numActiveLocks := s.numActiveLocks - 1, active := s.active - {l});
    if s1.numActiveLocks == 0 then
      var s2 := s1.(lockOwner := NONE);
      if s2.numLocks == 0 then NotifyLoop(s2) else NotifyLock(s2, pick)
    else
      s1
  }

  /** The critical section at the top of runForever(), from the test of its wait loop. */
  function WaitForLocks(s: State, pick: ThreadId): State {
    if s.numLocks > 0 then NotifyLock(s, pick).(phase := Parked(false))
    else if s.shouldExit then s.(shouldExit := false, phase := Idle)
    else s.(runningThread := s.loopThread, phase := Polling)
  }

  function TopOfLoop(s: State, pick: ThreadId): State {
    WaitForLocks(s.(runningThread := NONE), pick)
  }

  /** What the callers, the scheduler and the kernel allow. */
  predicate Enabled(s: State, step: Step) {
    match step
    case BeginLock(l) => s.CanAct(l.owner) && l !in s.active
    case ResumeLock(l) => l.owner in s.woken && l !in s.active
    case SpuriousLock(t) => t in s.asleep
    case Unlock(l, pick) => l in s.active && s.CanAct(l.owner) && ValidPick(s, pick)
    case Start(t, pick) => s.phase.Idle? && s.CanAct(t) && ValidPick(s, pick)
    case Resume(pick) => s.phase == Parked(true) && ValidPick(s, pick)
    case SpuriousResume => s.phase.Parked?
    case Dispatch(isBreak) => s.phase.Polling? && (isBreak ==> s.breakPending)
    case Interrupted(pick) => s.phase.Polling? && ValidPick(s, pick)
    // Locks constructed by a handler are destroyed before it returns
    case HandlerDone(pick) => s.phase.Handling? && !s.Holds(s.loopThread) && ValidPick(s, pick)
    // exit() assigns shouldExit while its own Lock is active
    case SetExit(t) => s.CanAct(t) && s.Holds(t)
  }

  function Apply(s: State, step: Step): State {
    match step
    case BeginLock(l) => ApplyBeginLock(s, l)
    case ResumeLock(l) => TryLock(s.(woken := s.woken - {l.owner}), l)
    case SpuriousLock(t) => s.(asleep := s.asleep - {t}, woken := s.woken + {t})
    case Unlock(l, pick) => ApplyUnlock(s, l, pick)
    case Start(t, pick) => TopOfLoop(s.(loopThread := t), pick)
    case Resume(pick) => WaitForLocks(s, pick)
    case SpuriousResume => s.(phase := Parked(true))
    case Dispatch(isBreak) => s.(phase := Handling, breakPending := s.breakPending && !isBreak)
    case Interrupted(pick) => TopOfLoop(s, pick)
    case HandlerDone(pick) => TopOfLoop(s, pick)
    case SetExit(t) => s.(shouldExit := true)
  }

  /** Run s0 through the steps, each of which must be enabled. */
  ghost predicate Run(s0: State, steps: seq<Step>, s: State)
    decreases |steps|
  {
    if steps == [] then s == s0
    else Enabled(s0, steps[0]) && Run(Apply(s0, steps[0]), steps[1..], s)
  }

  ghost predicate Reachable(s: State) {
    exists steps :: Run(Init, steps, s)
  }

  // ---------------------------------------------------------------- invariant

  predicate AllActiveBelongTo(s: State, t: ThreadId) {
    forall l :: l in s.active ==> l.owner == t
  }

  predicate CountsExact(s: State) {
    && s.numActiveLocks == |s.active|
    && s.numLocks == |s.active| + |s.asleep| + |s.woken|
  }

  predicate ThreadsDistinct(s: State) {
    && (forall t :: t in s.asleep ==> t !in s.woken)
    && !s.Blocked(NONE)
    && !s.Blocked(s.lockOwner)
    && (!s.phase.Idle? ==> !s.Blocked(s.loopThread) && s.loopThread != NONE)
    && (forall l :: l in s.active ==> l.owner != NONE)
  }

  predicate Ownership(s: State) {
    && (s.Running() ==> s.runningThread == s.loopThread && s.lockOwner == NONE && AllActiveBelongTo(s, s.loopThread))
    && (!s.Running() ==> s.runningThread == NONE)
    && (s.lockOwner != NONE ==> s.active != {} && AllActiveBelongTo(s, s.lockOwner))
    && (s.Free() ==> s.active == {})
    && (s.phase.Polling? ==> s.active == {} && !s.shouldExit)
  }

  /** Nobody sleeps through the event it is waiting for. */
  predicate NoLostWakeup(s: State) {
    && (s.Free() && s.AnyBlocked() ==> s.woken != {})
    && (s.phase.Parked? && s.numLocks == 0 ==> s.phase.notified)
    && (s.phase.Polling? && s.AnyBlocked() ==> s.breakPending)
  }

  predicate Inv(s: State) {
    CountsExact(s) && ThreadsDistinct(s) && Ownership(s) && NoLostWakeup(s)
  }

  /** A constructor joins the waiters. */
  lemma InvSleep(s: State, t: ThreadId)
    requires s.numActiveLocks == |s.active| && s.numLocks == |s.active| + |s.asleep| + |s.woken| + 1
    requires ThreadsDistinct(s) && Ownership(s)
    requires !s.Free() && s.CanAct(t) && t != s.lockOwner && t != s.runningThread
    requires s.phase.Polling? ==> s.breakPending
    ensures Inv(s.(asleep := s.asleep + {t}))
  {
    var s' := s.(asleep := s.asleep + {t});
    assert |s'.asleep| == |s.asleep| + 1;
  }

  /** A constructor returns. */
  lemma InvActivate(s: State, l: Lock)
    requires s.numActiveLocks == |s.active| && s.numLocks == |s.active| + |s.asleep| + |s.woken| + 1
    requires ThreadsDistinct(s)
    requires l.owner != NONE && !s.Blocked(l.owner) && l !in s.active && AllActiveBelongTo(s, l.owner)
    requires if s.Running() then s.phase.Handling? && s.runningThread == s.loopThread == l.owner && s.lockOwner == NONE
             else s.runningThread == NONE && s.lockOwner == l.owner
    ensures Inv(Activate(s, l))
  {
    var s' := Activate(s, l);
    assert |s'.active| == |s.active| + 1;
    assert l in s'.active;
  }

  lemma InvBeginLock(s: State, l: Lock)
    requires Inv(s) && Enabled(s, BeginLock(l))
    ensures Inv(Apply(s, BeginLock(l)))
  {
    var s1 := s.(numLocks := s.numLocks + 1);
    var s' := Apply(s, BeginLock(l));
    if s.runningThread == l.owner || s.lockOwner == l.owner {
      InvActivate(s1, l);
      assert s' == Activate(s1, l);
    } else if s.Free() {
      var s2 := s1.(lockOwner := l.owner);
      InvActivate(s2, l);
      assert s' == Activate(s2, l);
    } else {
      var s2 := s1.(breakPending := s.breakPending || s.runningThread != NONE);
      InvSleep(s2, l.owner);
      assert s' == s2.(asleep := s2.asleep + {l.owner});
    }
  }

  lemma InvResumeLock(s: State, l: Lock)
    requires Inv(s) && Enabled(s, ResumeLock(l))
    ensures Inv(Apply(s, ResumeLock(l)))
  {
    var s1 := s.(woken := s.woken - {l.owner});
    assert |s1.woken| == |s.woken| - 1;
    if s.Free() {
      InvActivate(s1.(lockOwner := l.owner), l);
    } else {
      InvSleep(s1, l.owner);
    }
  }

  lemma NotifyKeepsBlocked(s: State, pick: ThreadId)
    requires ValidPick(s, pick) && forall t :: t in s.asleep ==> t !in s.woken
    ensures var s' := NotifyLock(s, pick);
            && (forall t :: s'.Blocked(t) == s.Blocked(t))
            && (forall t :: t in s'.asleep ==> t !in s'.woken)
            && |s'.asleep| + |s'.woken| == |s.asleep| + |s.woken|
            && (s.AnyBlocked() <==> s'.woken != {})
  {
    var s' := NotifyLock(s, pick);
    if pick in s.asleep {
      assert |s'.asleep| == |s.asleep| - 1;
      assert pick in s'.woken;
      assert |s'.woken| == |s.woken| + 1;
    }
  }

  /** The last Lock goes away and the loop is told. */
  lemma InvUnlockQuiet(s: State)
    requires Inv(s) && s.numActiveLocks == 1 && s.numLocks == 1
    ensures Inv(NotifyLoop(s.(numLocks := 0, numActiveLocks := 0, active := {}, lockOwner := NONE)))
  {
    assert s.active != {} && s.asleep == {} && s.woken == {};
  }

  /** The last active Lock goes away and a waiter is told. */
  lemma InvUnlockLast(s: State, pick: ThreadId)
    requires Inv(s) && s.numActiveLocks == 1 && s.numLocks != 1 && ValidPick(s, pick)
    ensures Inv(NotifyLock(s.(numLocks := s.numLocks - 1, numActiveLocks := 0, active := {}, lockOwner := NONE), pick))
  {
    assert s.active != {};
    NotifyKeepsBlocked(s, pick);
    assert s.AnyBlocked();
  }

  /** A Lock goes away, others of its thread remain. */
  lemma InvUnlockSome(s: State, l: Lock)
    requires Inv(s) && l in s.active && s.numActiveLocks != 1
    ensures Inv(s.(numLocks := s.numLocks - 1, numActiveLocks := s.numActiveLocks - 1, active := s.active - {l}))
  {
    var active := s.active - {l};
    assert |active| == |s.active| - 1;
    assert active != {};
  }

  lemma OnlyLock(s: State, l: Lock)
    requires CountsExact(s) && l in s.active && s.numActiveLocks == 1
    ensures s.active - {l} == {}
  {
    assert |s.active - {l}| == |s.active| - 1;
  }

  lemma InvUnlock(s: State, l: Lock, pick: ThreadId)
    requires Inv(s) && Enabled(s, Unlock(l, pick))
    ensures Inv(ApplyUnlock(s, l, pick))
  {
    if s.numActiveLocks == 1 {
      OnlyLock(s, l);
      if s.numLocks == 1 { InvUnlockQuiet(s); } else { InvUnlockLast(s, pick); }
    } else {
      InvUnlockSome(s, l);
    }
  }

  /** The loop thread between events: outside handlers, holding no claim on the loop. */
  predicate AtTop(s: State) {
    && CountsExact(s) && ThreadsDistinct(s)
    && s.runningThread == NONE && s.loopThread != NONE && !s.Blocked(s.loopThread)
    && (s.lockOwner != NONE ==> s.active != {} && AllActiveBelongTo(s, s.lockOwner))
    && (s.Free() ==> s.active == {})
  }

  lemma InvPark(s: State, pick: ThreadId)
    requires AtTop(s) && ValidPick(s, pick) && s.numLocks > 0
    ensures Inv(NotifyLock(s, pick).(phase := Parked(false)))
  {
    NotifyKeepsBlocked(s, pick);
    var s' := NotifyLock(s, pick).(phase := Parked(false));
    assert s.AnyBlocked() || s.active != {};
    assert s'.active == s.active && s'.lockOwner == s.lockOwner;
  }

  lemma NoLocksNoWaiters(s: State)
    requires CountsExact(s) && s.numLocks <= 0
    ensures s.active == {} && !s.AnyBlocked()
  {
  }

  lemma InvLeave(s: State)
    requires AtTop(s) && s.numLocks <= 0
    ensures Inv(s.(shouldExit := false, phase := Idle))
  {
    NoLocksNoWaiters(s);
  }

  lemma InvPoll(s: State)
    requires AtTop(s) && s.numLocks <= 0 && !s.shouldExit
    ensures Inv(s.(runningThread := s.loopThread, phase := Polling))
  {
    NoLocksNoWaiters(s);
  }

  lemma InvTopOfLoop(s: State, pick: ThreadId)
    requires AtTop(s) && ValidPick(s, pick)
    ensures Inv(WaitForLocks(s, pick))
  {
    if s.numLocks > 0 {
      InvPark(s, pick);
    } else if s.shouldExit {
      InvLeave(s);
    } else {
      InvPoll(s);
    }
  }

  /** Every step keeps the invariant. */
  lemma InvStep(s: State, step: Step)
    requires Inv(s) && Enabled(s, step)
    ensures Inv(Apply(s, step))
  {
    match step
    case BeginLock(l) => InvBeginLock(s, l);
    case ResumeLock(l) => InvResumeLock(s, l);
    case SpuriousLock(t) => NotifyKeepsBlocked(s, t);
    case Unlock(l, pick) => InvUnlock(s, l, pick);
    case Start(t, pick) => InvTopOfLoop(s.(loopThread := t, runningThread := NONE), pick);
    case Resume(pick) => InvTopOfLoop(s, pick);
    case Interrupted(pick) => InvTopOfLoop(s.(runningThread := NONE), pick);
    case HandlerDone(pick) => InvTopOfLoop(s.(runningThread := NONE), pick);
    case SpuriousResume =>
    case Dispatch(isBreak) =>
    case SetExit(t) =>
  }

  lemma {:induction false} InvRun(s0: State, steps: seq<Step>, s: State)
    requires Inv(s0) && Run(s0, steps, s)
    ensures Inv(s)
    decreases |steps|
  {
    if steps != [] {
      InvStep(s0, steps[0]);
      InvRun(Apply(s0, steps[0]), steps[1..], s);
    }
  }

  lemma ReachableInv(s: State)
    requires Reachable(s)
    ensures Inv(s)
  {
    var steps :| Run(Init, steps, s);
    InvRun(Init, steps, s);
  }

  // ----------------------------------------------------------------- theorems

  /**
   The guarantee of Loop.h: while thread t has a Lock, either t is the event loop
   thread, running a handler, or no other thread has a Lock and the event loop
   thread is paused; and the counters count what they are documented to count.
   */
  lemma LockGuarantee(s: State, l: Lock)
    requires Reachable(s) && l in s.active
    ensures var t := l.owner;
            && AllActiveBelongTo(s, t)
            && ((s.phase.Handling? && s.runningThread == s.loopThread == t && s.lockOwner == NONE)
                || (s.lockOwner == t && s.runningThread == NONE && !s.Running()))
    ensures s.numActiveLocks == |s.active|
    ensures s.numLocks == |s.active| + |s.asleep + s.woken|
  {
    ReachableInv(s);
    assert |s.asleep + s.woken| == |s.asleep| + |s.woken|;
  }

  /** In every reachable state each waiter that could proceed has been told so. */
  lemma WakeupsAreNotLost(s: State)
    requires Reachable(s)
    ensures s.Free() && s.AnyBlocked() ==> s.woken != {}
    ensures s.phase.Parked? && s.numLocks == 0 ==> s.phase.notified
    ensures s.phase.Polling? && s.AnyBlocked() ==> s.breakPending
  {
    ReachableInv(s);
  }

  /** A constructor returns at once exactly if all Locks and the running handler, if any, are its own thread's. */
  lemma LockIsGrantedIff(s: State, l: Lock)
    requires Reachable(s) && Enabled(s, BeginLock(l))
    ensures var s' := Apply(s, BeginLock(l));
            && (l in s'.active <==> AllActiveBelongTo(s, l.owner) && (s.Running() ==> s.loopThread == l.owner))
            && (l !in s'.active ==> l.owner in s'.asleep)
  {
    ReachableInv(s);
    if s.active != {} { var k :| k in s.active; }
  }

  /** No Lock is active and no constructor is waiting. */
  predicate NoLocks(s: State) { s.active == {} && !s.AnyBlocked() }

  /** What the loop does next time round: it waits while there are Locks, else it returns or polls for events. */
  lemma LoopGoesOn(s: State, step: Step)
    requires Reachable(s) && Enabled(s, step)
    requires step.Start? || step.Resume? || step.Interrupted? || step.HandlerDone?
    ensures var phase := Apply(s, step).phase;
            && (phase.Parked? <==> !NoLocks(s))
            && (phase.Idle? <==> NoLocks(s) && s.shouldExit)
            && (phase.Polling? <==> NoLocks(s) && !s.shouldExit)
    ensures Apply(s, step).phase.Polling? ==> Enabled(Apply(s, step), Dispatch(false))
  {
    ReachableInv(s);
    if NoLocks(s) {
      assert s.numLocks == 0;
    } else if s.numLocks == 0 {
      NoLocksNoWaiters(s);
    }
  }

  /** The step on which runForever() returns to its caller. */
  predicate Returns(s: State, step: Step) {
    Apply(s, step).phase.Idle? && (!s.phase.Idle? || step.Start?)
  }

  ghost predicate ReturnsDuring(s: State, steps: seq<Step>)
    decreases |steps|
  {
    steps != [] && (Returns(s, steps[0]) || ReturnsDuring(Apply(s, steps[0]), steps[1..]))
  }

  lemma ExitStep(s: State, step: Step)
    requires Inv(s) && s.shouldExit && Enabled(s, step) && !Returns(s, step)
    ensures Apply(s, step).shouldExit && !step.Dispatch?
  {
  }

  /** Once shouldExit is set, no handler is dispatched until runForever() has returned. */
  lemma {:induction false} ExitStopsDispatch(s0: State, steps: seq<Step>, s: State)
    requires Inv(s0) && s0.shouldExit && Run(s0, steps, s)
    requires !ReturnsDuring(s0, steps)
    ensures s.shouldExit
    ensures forall i :: 0 <= i < |steps| ==> !steps[i].Dispatch?
    decreases |steps|
  {
    if steps != [] {
      InvStep(s0, steps[0]);
      ExitStep(s0, steps[0]);
      ExitStopsDispatch(Apply(s0, steps[0]), steps[1..], s);
      assert forall i :: 1 <= i < |steps| ==> steps[i] == steps[1..][i - 1];
    }
  }

  /** exit(), from any thread: from its assignment on, whatever others do, only a return lies ahead of the loop. */
  lemma ExitTakesEffect(s0: State, t: ThreadId, steps: seq<Step>, s: State)
    requires Reachable(s0) && Enabled(s0, SetExit(t)) && Run(Apply(s0, SetExit(t)), steps, s)
    requires !ReturnsDuring(Apply(s0, SetExit(t)), steps)
    ensures s.shouldExit && forall i :: 0 <= i < |steps| ==> !steps[i].Dispatch?
  {
    ReachableInv(s0);
    InvStep(s0, SetExit(t));
    ExitStopsDispatch(Apply(s0, SetExit(t)), steps, s);
  }

  /** With shouldExit set and no Lock left, the next time round runForever() returns. */
  lemma ExitReturns(s: State, step: Step)
    requires Inv(s) && Enabled(s, step) && s.shouldExit && s.numLocks == 0
    requires step.Start? || step.Resume? || step.Interrupted? || step.HandlerDone?
    ensures Returns(s, step) && !Apply(s, step).shouldExit
  {
  }

  // ------------------------------------------------- freedom from deadlock

  lemma {:induction false} RunAppend(a: State, xs: seq<Step>, b: State, ys: seq<Step>, c: State)
    requires Run(a, xs, b) && Run(b, ys, c)
    ensures Run(a, xs + ys, c)
    decreases |xs|
  {
    if xs == [] {
      assert xs + ys == ys;
    } else {
      RunAppend(Apply(a, xs[0]), xs[1..], b, ys, c);
      assert (xs + ys)[1..] == xs[1..] + ys;
    }
  }

  /** A thread called runForever() while it held a Lock, and now waits for itself. */
  predicate SelfDeadlocked(s: State) {
    s.phase.Parked? && s.lockOwner == s.loopThread
  }

  /** No Lock exists, and the loop, if a thread runs it, is not waiting for one. */
  predicate Quiet(s: State) {
    s.numLocks == 0 && !s.phase.Parked?
  }

  ghost predicate QuietAfter(s: State, steps: seq<Step>, s': State) {
    Run(s, steps, s') && Quiet(s')
  }

  lemma PickSleeper(s: State) returns (pick: ThreadId)
    ensures ValidPick(s, pick)
  {
    if s.asleep == {} { pick := NONE; } else { pick :| pick in s.asleep; }
  }

  /** Some thread can destroy a Lock, if any is active. */
  lemma ReleaseOne(s: State) returns (step: Step)
    requires Inv(s) && !SelfDeadlocked(s) && s.active != {}
    ensures step.Unlock? && Enabled(s, step) && Inv(Apply(s, step)) && !SelfDeadlocked(Apply(s, step))
    ensures Apply(s, step).numLocks == s.numLocks - 1
  {
    var l :| l in s.active;
    var pick := PickSleeper(s);
    step := Unlock(l, pick);
    InvStep(s, step);
  }

  /** A woken constructor completes when nothing excludes it. */
  lemma AcquireOne(s: State) returns (step: Step)
    requires Inv(s) && s.Free() && s.AnyBlocked()
    ensures Enabled(s, step) && Inv(Apply(s, step)) && !SelfDeadlocked(Apply(s, step))
    ensures Apply(s, step).numLocks == s.numLocks && Apply(s, step).active != {}
  {
    var t :| t in s.woken;
    step := ResumeLock(Lock(t, 0));
    InvStep(s, step);
    assert Lock(t, 0) in Apply(s, step).active;
  }

  /** The loop gives way to waiting constructors. */
  lemma YieldLoop(s: State) returns (steps: seq<Step>, s': State)
    requires Inv(s) && s.Running() && s.active == {} && s.AnyBlocked()
    ensures Run(s, steps, s') && Inv(s') && s'.Free() && s'.AnyBlocked() && s'.numLocks == s.numLocks
    ensures !SelfDeadlocked(s')
    decreases if s.phase.Polling? then 1 else 0
  {
    if s.phase.Polling? {
      var s1 := Apply(s, Dispatch(true));
      InvStep(s, Dispatch(true));
      steps, s' := YieldLoop(s1);
      assert ([Dispatch(true)] + steps)[1..] == steps;
      steps := [Dispatch(true)] + steps;
    } else {
      var pick := PickSleeper(s);
      s' := Apply(s, HandlerDone(pick));
      InvStep(s, HandlerDone(pick));
      NotifyKeepsBlocked(s, pick);
      steps := [HandlerDone(pick)];
    }
  }

  /** Unless the loop thread waits for itself, every constructor can still complete and the loop resume. */
  lemma {:induction false} CanBecomeQuiet(s: State) returns (steps: seq<Step>, s': State)
    requires Inv(s) && !SelfDeadlocked(s)
    ensures Run(s, steps, s') && Quiet(s')
    decreases s.numLocks, if s.active == {} then 1 else 0
  {
    if s.active != {} {
      var step := ReleaseOne(s);
      var rest;
      rest, s' := CanBecomeQuiet(Apply(s, step));
      steps := [step] + rest;
      assert steps[1..] == rest;
    } else if s.AnyBlocked() {
      var first, s1 := [], s;
      if s.Running() { first, s1 := YieldLoop(s); }
      var step := AcquireOne(s1);
      var rest;
      rest, s' := CanBecomeQuiet(Apply(s1, step));
      assert ([step] + rest)[1..] == rest;
      RunAppend(s, first, s1, [step] + rest, s');
      steps := first + ([step] + rest);
    } else if s.phase.Parked? {
      s' := Apply(s, Resume(NONE));
      steps := [Resume(NONE)];
      assert steps[1..] == [] && Run(s', [], s');
    } else {
      steps, s' := [], s;
    }
  }

  lemma {:induction false} SelfDeadlockIsPermanent(s0: State, steps: seq<Step>, s: State)
    requires Inv(s0) && SelfDeadlocked(s0) && Run(s0, steps, s)
    ensures SelfDeadlocked(s)
    decreases |steps|
  {
    if steps != [] {
      var s1 := Apply(s0, steps[0]);
      InvStep(s0, steps[0]);
      assert SelfDeadlocked(s1);
      SelfDeadlockIsPermanent(s1, steps[1..], s);
    }
  }

  /** The monitor is deadlocked exactly when the loop thread waits for itself. */
  lemma DeadlockedIffSelfWaiting(s: State)
    requires Inv(s)
    ensures (exists steps, s' :: QuietAfter(s, steps, s')) <==> !SelfDeadlocked(s)
  {
    if SelfDeadlocked(s) {
      forall steps, s' | Run(s, steps, s') ensures !QuietAfter(s, steps, s') {
        SelfDeadlockIsPermanent(s, steps, s');
      }
    } else {
      var steps, s' := CanBecomeQuiet(s);
      assert QuietAfter(s, steps, s');
    }
  }

  /** One step leads into that deadlock: a call of runForever() by a thread that holds a Lock. */
  lemma SelfDeadlockStep(s: State, step: Step)
    requires Inv(s) && Enabled(s, step) && !SelfDeadlocked(s)
    ensures SelfDeadlocked(Apply(s, step)) <==> step.Start? && s.Holds(step.t)
  {
    match step
    case Start(t, pick) =>
      if s.Holds(t) {
        var l :| l in s.active && l.owner == t;
        assert s.lockOwner == t && s.numLocks > 0;
      }
    case Unlock(l, pick) => InvStep(s, step);
    case _ =>
  }

  /** Somewhere in the run a thread that held a Lock called runForever(). */
  ghost predicate CalledHoldingALock(s: State, steps: seq<Step>)
    decreases |steps|
  {
    && steps != []
    && ((steps[0].Start? && s.Holds(steps[0].t)) || CalledHoldingALock(Apply(s, steps[0]), steps[1..]))
  }

  lemma {:induction false} SelfDeadlockIff(s0: State, steps: seq<Step>, s: State)
    requires Inv(s0) && Run(s0, steps, s) && !SelfDeadlocked(s0)
    ensures SelfDeadlocked(s) <==> CalledHoldingALock(s0, steps)
    decreases |steps|
  {
    if steps != [] {
      var s1 := Apply(s0, steps[0]);
      InvStep(s0, steps[0]);
      SelfDeadlockStep(s0, steps[0]);
      if SelfDeadlocked(s1) {
        SelfDeadlockIsPermanent(s1, steps[1..], s);
      } else {
        SelfDeadlockIff(s1, steps[1..], s);
      }
    }
  }

  /** After any run, all Locks can still be taken and released exactly if no thread called runForever() holding one. */
  lemma DeadlockOnlyByHoldingALock(steps: seq<Step>, s: State)
    requires Run(Init, steps, s)
    ensures (exists more, s' :: QuietAfter(s, more, s')) <==> !CalledHoldingALock(Init, steps)
  {
    InvRun(Init, steps, s);
    SelfDeadlockIff(Init, steps, s);
    DeadlockedIffSelfWaiting(s);
  }

  /** Two steps are enough. */
  lemma DeadlockIsReachable(l: Lock) returns (s: State)
    requires l.owner != NONE
    ensures Run(Init, [BeginLock(l)] + [Start(l.owner, NONE)], s) && SelfDeadlocked(s)
  {
    var s1 := Apply(Init, BeginLock(l));
    s := Apply(s1, Start(l.owner, NONE));
    assert s1.lockOwner == l.owner && s1.numLocks == 1 && s1.phase.Idle?;
    assert [BeginLock(l)][1..] == [] && [Start(l.owner, NONE)][1..] == [];
    assert Run(s1, [], s1) && Run(s, [], s);
    RunAppend(Init, [BeginLock(l)], s1, [Start(l.owner, NONE)], s);
  }

  lemma {:induction false} ReachingIdleReturns(s0: State, steps: seq<Step>, s: State)
    requires Run(s0, steps, s) && !s0.phase.Idle? && s.phase.Idle?
    ensures ReturnsDuring(s0, steps)
    decreases |steps|
  {
    if !Returns(s0, steps[0]) { ReachingIdleReturns(Apply(s0, steps[0]), steps[1..], s); }
  }

  lemma {:induction false} ReturnsAppend(a: State, xs: seq<Step>, b: State, step: Step)
    requires Run(a, xs, b) && (ReturnsDuring(a, xs) || Returns(b, step))
    ensures ReturnsDuring(a, xs + [step])
    decreases |xs|
  {
    if xs == [] {
      assert xs + [step] == [step];
    } else {
      assert (xs + [step])[1..] == xs[1..] + [step];
      if !Returns(a, xs[0]) { ReturnsAppend(Apply(a, xs[0]), xs[1..], b, step); }
    }
  }

  /** Once exit() has set the flag, runForever() can return, unless the loop thread waits for itself. */
  lemma ExitCanReturn(s: State) returns (steps: seq<Step>, s': State)
    requires Inv(s) && s.shouldExit && !s.phase.Idle? && !SelfDeadlocked(s)
    ensures Run(s, steps, s') && ReturnsDuring(s, steps)
  {
    steps, s' := CanBecomeQuiet(s);
    if s'.phase.Idle? {
      ReachingIdleReturns(s, steps, s');
    } else if !ReturnsDuring(s, steps) {
      var quiet := s';
      InvRun(s, steps, quiet);
      ExitStopsDispatch(s, steps, quiet);
      NoLocksNoWaiters(quiet);
      ExitReturns(quiet, HandlerDone(NONE));
      ReturnsAppend(s, steps, quiet, HandlerDone(NONE));
      s' := Apply(quiet, HandlerDone(NONE));
      assert [HandlerDone(NONE)][1..] == [] && Run(s', [], s');
      RunAppend(s, steps, quiet, [HandlerDone(NONE)], s');
      steps := steps + [HandlerDone(NONE)];
    }
  }

  // ------------------------------------------- how soon runForever() returns

  /** The steps of threads that were notified, hold a Lock or are in a handler. */
  predicate IsDue(step: Step) {
    step.ResumeLock? || step.Unlock? || step.Resume? || step.HandlerDone?
  }

  function DueIn(steps: seq<Step>): (n: nat)
    ensures n <= |steps|
  {
    if steps == [] then 0 else (if IsDue(steps[0]) then 1 else 0) + DueIn(steps[1..])
  }

  /** More than the due steps that are left before runForever() returns. */
  function Work(s: State): int {
    3 * s.numLocks + |s.woken| + if s.phase.Handling? || s.phase == Parked(true) then 2 else 0
  }

  lemma NotifyWakesOne(s: State, pick: ThreadId)
    ensures |NotifyLock(s, pick).woken| <= |s.woken| + 1
  {
  }

  lemma WorkNotify(s: State, pick: ThreadId)
    ensures Work(NotifyLock(s, pick)) <= Work(s) + 1 && Work(NotifyLoop(s)) <= Work(s) + 2
  {
    NotifyWakesOne(s, pick);
  }

  lemma WorkUnlock(s: State, l: Lock, pick: ThreadId)
    ensures Work(ApplyUnlock(s, l, pick)) < Work(s)
  {
    var s1 := s.(numLocks := s.numLocks - 1, numActiveLocks := s.numActiveLocks - 1, active := s.active - {l});
    if s1.numActiveLocks == 0 {
      var s2 := s1.(lockOwner := NONE);
      assert Work(s2) == Work(s) - 3;
      WorkNotify(s2, pick);
    }
  }

  lemma WorkResumeLock(s: State, l: Lock)
    requires l.owner in s.woken
    ensures Work(TryLock(s.(woken := s.woken - {l.owner}), l)) < Work(s)
  {
    assert |s.woken - {l.owner}| == |s.woken| - 1;
  }

  lemma WorkTop(s: State, pick: ThreadId)
    requires s.phase.Handling? || s.phase == Parked(true)
    requires !WaitForLocks(s, pick).phase.Idle? && s.shouldExit
    ensures Work(WaitForLocks(s, pick)) < Work(s)
  {
    NotifyWakesOne(s, pick);
  }

  /** Once the flag is set, every due step lessens the work, and any other step adds little to it. */
  lemma WorkStep(s: State, step: Step)
    requires s.shouldExit && (s.phase.Handling? || s.phase.Parked?) && Enabled(s, step) && !Returns(s, step)
    ensures Work(Apply(s, step)) <= Work(s) + if IsDue(step) then -1 else 3
  {
    match step
    case BeginLock(l) =>
    case ResumeLock(l) => WorkResumeLock(s, l);
    case SpuriousLock(t) => NotifyWakesOne(s, t);
    case Unlock(l, pick) => WorkUnlock(s, l, pick);
    case Resume(pick) => WorkTop(s, pick);
    case HandlerDone(pick) => WorkTop(s.(runningThread := NONE), pick);
    case SpuriousResume =>
    case SetExit(t) =>
    case _ => assert false;
  }

  /** Unless the loop thread waits for itself, some due step can be taken. */
  lemma SomeDue(s: State) returns (step: Step)
    requires Inv(s) && s.shouldExit && !s.phase.Idle? && !SelfDeadlocked(s)
    ensures IsDue(step) && Enabled(s, step)
  {
    var pick := PickSleeper(s);
    if s.active != {} {
      step := ReleaseOne(s);
    } else if s.phase.Handling? {
      step := HandlerDone(pick);
    } else if s.AnyBlocked() {
      var t :| t in s.woken;
      step := ResumeLock(Lock(t, 0));
    } else {
      step := Resume(pick);
    }
  }

  /**
   Once exit() has set the flag, in whatever order the threads take their steps:
   as long as runForever() has not returned a due step can be taken, and at most
   3 * numLocks + |woken| + 2 of them are, and 3 more for each other step (a new
   Lock, a spurious wake-up, another exit).
   */
  lemma {:induction false} ExitReturnsSoon(s0: State, steps: seq<Step>, s: State)
    requires Inv(s0) && s0.shouldExit && !s0.phase.Idle? && !SelfDeadlocked(s0)
    requires Run(s0, steps, s) && !ReturnsDuring(s0, steps)
    ensures exists step :: IsDue(step) && Enabled(s, step)
    ensures DueIn(steps) <= Work(s0) + 3 * (|steps| - DueIn(steps))
    decreases |steps|
  {
    if steps == [] {
      var step := SomeDue(s);
      assert s0.numLocks >= 0;
    } else {
      var s1 := Apply(s0, steps[0]);
      InvStep(s0, steps[0]);
      ExitStep(s0, steps[0]);
      SelfDeadlockStep(s0, steps[0]);
      WorkStep(s0, steps[0]);
      ExitReturnsSoon(s1, steps[1..], s);
    }
  }

  // ------------------------------------------------------------ the monitor

  /** Event::Loop, one method per critical section.  InvStep says that each of them keeps Inv(View()). */
  class Loop {
    var runningThread: ThreadId
    var numLocks: int
    var numActiveLocks: int
    var lockOwner: ThreadId
    var shouldExit: bool
    var breakPending: bool
    ghost var active: set<Lock>
    ghost var asleep: set<ThreadId>
    ghost var woken: set<ThreadId>
    ghost var phase: Phase
    ghost var loopThread: ThreadId

    ghost function View(): State
      reads this
    {
      State(runningThread, numLocks, numActiveLocks, lockOwner, shouldExit,
            active, asleep, woken, phase, loopThread, breakPending)
    }

    constructor ()
      ensures View() == Init
    {
      runningThread, numLocks, numActiveLocks, lockOwner := NONE, 0, 0, NONE;
      shouldExit, breakPending := false, false;
      active, asleep, woken, phase, loopThread := {}, {}, {}, Idle, NONE;
    }

    /** safeToLock.notify_one() */
    ghost method NotifySafeToLock(pick: ThreadId)
      modifies this`asleep, this`woken
      ensures View() == NotifyLock(old(View()), pick)
    {
      if pick in asleep {
        asleep, woken := asleep - {pick}, woken + {pick};
      }
    }

    /** unlocked.notify_one() */
    ghost method NotifyUnlocked()
      modifies this`phase
      ensures View() == NotifyLoop(old(View()))
    {
      if phase.Parked? {
        phase := Parked(true);
      }
    }

    /** The Lock constructor up to its return or its first wait; false means it went to sleep. */
    method BeginLock(t: ThreadId, ghost l: Lock) returns (locked: bool)
      requires l.owner == t && Enabled(View(), Step.BeginLock(l))
      modifies this
      ensures View() == Apply(old(View()), Step.BeginLock(l))
      ensures locked <==> l in active
    {
      numLocks := numLocks + 1;
      if runningThread != t && lockOwner != t {
        if runningThread != NONE {
          breakPending := true;
        }
        if runningThread != NONE || lockOwner != NONE {
          asleep := asleep + {t};
          return false;
        }
        lockOwner := t;
      }
      numActiveLocks := numActiveLocks + 1;
      active := active + {l};
      locked := true;
    }

    /** The Lock constructor from a return of its wait. */
    method ResumeLock(t: ThreadId, ghost l: Lock) returns (locked: bool)
      requires l.owner == t && Enabled(View(), Step.ResumeLock(l))
      modifies this
      ensures View() == Apply(old(View()), Step.ResumeLock(l))
      ensures locked <==> old(View().Free())
    {
      woken := woken - {t};
      if runningThread != NONE || lockOwner != NONE {
        asleep := asleep + {t};
        return false;
      }
      lockOwner := t;
      numActiveLocks := numActiveLocks + 1;
      active := active + {l};
      locked := true;
    }

    /** The Lock destructor. */
    method Unlock(ghost l: Lock, ghost pick: ThreadId)
      requires Enabled(View(), Step.Unlock(l, pick))
      modifies this
      ensures View() == Apply(old(View()), Step.Unlock(l, pick))
    {
      active := active - {l};
      numLocks := numLocks - 1;
      numActiveLocks := numActiveLocks - 1;
      if numActiveLocks == 0 {
        lockOwner := NONE;
        if numLocks == 0 {
          NotifyUnlocked();
        } else {
          NotifySafeToLock(pick);
        }
      }
    }

    /** runForever() from the test of its inner wait loop; says whether it waits or returns. */
    method DrainLocks(t: ThreadId, ghost pick: ThreadId) returns (waits: bool, returned: bool)
      requires t == loopThread
      modifies this
      ensures View() == WaitForLocks(old(View()), pick)
      ensures waits <==> old(numLocks) > 0
      ensures returned <==> !waits && old(shouldExit)
    {
      waits, returned := numLocks > 0, false;
      if waits {
        NotifySafeToLock(pick);
        phase := Parked(false);
      } else if shouldExit {
        shouldExit := false;
        phase := Idle;
        returned := true;
      } else {
        runningThread := t;
        phase := Polling;
      }
    }

    /** runForever() is called. */
    method Start(t: ThreadId, ghost pick: ThreadId) returns (waits: bool, returned: bool)
      requires Enabled(View(), Step.Start(t, pick))
      modifies this
      ensures View() == Apply(old(View()), Step.Start(t, pick))
      ensures returned <==> Returns(old(View()), Step.Start(t, pick))
    {
      loopThread := t;
      runningThread := NONE;
      waits, returned := DrainLocks(t, pick);
    }

    /** unlocked.wait() has returned in thread t. */
    method Resume(t: ThreadId, ghost pick: ThreadId) returns (waits: bool, returned: bool)
      requires t == loopThread && Enabled(View(), Step.Resume(pick))
      modifies this
      ensures View() == Apply(old(View()), Step.Resume(pick))
      ensures returned <==> Returns(old(View()), Step.Resume(pick))
    {
      waits, returned := DrainLocks(t, pick);
    }

    /** epoll_wait() reports an event and its handler starts. */
    method Dispatch(isBreak: bool)
      requires Enabled(View(), Step.Dispatch(isBreak))
      modifies this
      ensures View() == Apply(old(View()), Step.Dispatch(isBreak))
    {
      if isBreak {
        breakPending := false;
      }
      phase := Handling;
    }

    /** The handler returns and the outer loop goes round. */
    method HandlerDone(t: ThreadId, ghost pick: ThreadId) returns (waits: bool, returned: bool)
      requires t == loopThread && Enabled(View(), Step.HandlerDone(pick))
      modifies this
      ensures View() == Apply(old(View()), Step.HandlerDone(pick))
      ensures returned <==> Returns(old(View()), Step.HandlerDone(pick))
    {
      runningThread := NONE;
      waits, returned := DrainLocks(t, pick);
    }

    /** The assignment in exit(). */
    method SetExit(ghost t: ThreadId)
      requires Enabled(View(), Step.SetExit(t))
      modifies this
      ensures View() == Apply(old(View()), Step.SetExit(t))
    {
      shouldExit := true;
    }
  }
}
