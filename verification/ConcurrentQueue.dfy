/**
 * The bounded queue (ConcurrentQueue.h over TimeoutSemaphore.h) as a protocol of atomic
 * steps of any number of threads.  Semaphore operations, flag reads and the sections under
 * the queue's lock are one step each; shutdown and restart may happen between any two.
 */
module ConcurrentQueue {
  import opened Sequences

  /** Where a thread is. */
  datatype Pc<T> =
    | Idle
    | PushWaiting(t: T)   // in the wait loop of push
    | PushGot(t: T)       // the semaphore was taken, the exit flag not yet looked at
    | PushTaken(t: T)     // wait() returned true
    | Pushed              // the element is in the queue, the other semaphore not yet posted
    | PopWaiting(timed: bool)
    | PopGot
    | PopTaken
    | Popped(res: T)

  /**
   * The shared state.  pushed and popped record what went in and came out; lostPush and
   * lostPop count the tokens taken by a wait() that then returned false; broken says
   * that front() was called on an empty queue.
   */
  datatype State<T> = State(
    queue: seq<T>, count: int, pushSem: nat, popSem: nat, pushExit: bool, popExit: bool,
    threads: seq<Pc<T>>,
    pushed: seq<T>, popped: seq<T>, lostPush: nat, lostPop: nat, broken: bool)

  datatype Step<T> =
    | StartPush(i: nat, t: T)
    | StartPop(i: nat, timed: bool)
    | TakeToken(i: nat)       // sem_timedwait succeeds
    | MissToken(i: nat)       // sem_timedwait times out or is interrupted
    | CheckExit(i: nat)       // the flag test after the semaphore was taken
    | UnderLock(i: nat)       // the section under the queue's lock
    | Post(i: nat)
    | SetPushExit(value: bool)
    | SetPopExit(value: bool)

  function At<T>(s: State<T>, i: nat, pc: Pc<T>): State<T>
    requires i < |s.threads|
  {
    s.(threads := s.threads[i := pc])
  }

  predicate Enabled<T>(s: State<T>, step: Step<T>) {
    match step
    case StartPush(i, _) => i < |s.threads| && s.threads[i].Idle?
    case StartPop(i, _) => i < |s.threads| && s.threads[i].Idle?
    case TakeToken(i) =>
      && i < |s.threads|
      && ((s.threads[i].PushWaiting? && s.pushSem > 0) || (s.threads[i].PopWaiting? && s.popSem > 0))
    case MissToken(i) => i < |s.threads| && (s.threads[i].PushWaiting? || s.threads[i].PopWaiting?)
    case CheckExit(i) => i < |s.threads| && (s.threads[i].PushGot? || s.threads[i].PopGot?)
    case UnderLock(i) => i < |s.threads| && (s.threads[i].PushTaken? || s.threads[i].PopTaken?)
    case Post(i) => i < |s.threads| && (s.threads[i].Pushed? || s.threads[i].Popped?)
    case SetPushExit(_) => true
    case SetPopExit(_) => true
  }

  /** One step of one thread, or of the thread that shuts the queue down or restarts it. */
  function Apply<T>(s: State<T>, step: Step<T>): State<T>
    requires Enabled(s, step)
  {
    match step
    case StartPush(i, t) => if s.pushExit then s else At(s, i, PushWaiting(t))
    case StartPop(i, timed) => if s.popExit then s else At(s, i, PopWaiting(timed))
    case TakeToken(i) =>
      if s.threads[i].PushWaiting? then At(s.(pushSem := s.pushSem - 1), i, PushGot(s.threads[i].t))
      else At(s.(popSem := s.popSem - 1), i, if s.threads[i].timed then PopTaken else PopGot)
    case MissToken(i) =>
      if s.threads[i].PushWaiting? then if s.pushExit then At(s, i, Idle) else s
      else if s.threads[i].timed || s.popExit then At(s, i, Idle) else s
    case CheckExit(i) =>
      if s.threads[i].PushGot? then
        if s.pushExit then At(s.(lostPush := s.lostPush + 1), i, Idle) else At(s, i, PushTaken(s.threads[i].t))
      else
        if s.popExit then At(s.(lostPop := s.lostPop + 1), i, Idle) else At(s, i, PopTaken)
    case UnderLock(i) =>
      if s.threads[i].PushTaken? then
        var t := s.threads[i].t;
        At(s.(queue := s.queue + [t], pushed := s.pushed + [t], count := s.count + 1), i, Pushed)
      else if s.queue == [] then s.(broken := true)
      else
        var t := s.queue[0];
        At(s.(queue := s.queue[1..], popped := s.popped + [t], count := s.count - 1), i, Popped(t))
    case Post(i) =>
      if s.threads[i].Pushed? then At(s.(popSem := s.popSem + 1), i, Idle)
      else At(s.(pushSem := s.pushSem + 1), i, Idle)
    case SetPushExit(value) => s.(pushExit := value)
    case SetPopExit(value) => s.(popExit := value)
  }

  function Initial<T>(maxEntries: nat, threads: nat): State<T> {
    State([], 0, maxEntries, 0, false, false, seq(threads, _ => Idle), [], [], 0, 0, false)
  }

  predicate Feasible<T>(s: State<T>, steps: seq<Step<T>>)
    decreases |steps|
  {
    steps == [] || (Enabled(s, steps[0]) && Feasible(Apply(s, steps[0]), steps[1..]))
  }

  function Run<T>(s: State<T>, steps: seq<Step<T>>): State<T>
    requires Feasible(s, steps)
    decreases |steps|
  {
    if steps == [] then s else Run(Apply(s, steps[0]), steps[1..])
  }

  // ----- Tokens

  /** The thread stands for a place of the queue that it took or is about to give back. */
  function Slot<T>(pc: Pc<T>): nat {
    if pc.PushGot? || pc.PushTaken? || pc.Popped? then 1 else 0
  }

  /** The thread stands for an element that no token of the pop semaphore announces. */
  function Item<T>(pc: Pc<T>): nat {
    if pc.Pushed? || pc.PopGot? || pc.PopTaken? then 1 else 0
  }

  /** Every place and every element is accounted for, lost tokens included. */
  ghost predicate Balanced<T>(s: State<T>, maxEntries: nat) {
    && !s.broken
    && s.count == |s.queue|
    && s.pushed == s.popped + s.queue
    && s.pushSem + Total(s.threads, Slot) + |s.queue| + s.lostPush == maxEntries
    && s.popSem + Total(s.threads, Item) + s.lostPop == |s.queue|
  }

  lemma InitialBalanced<T>(maxEntries: nat, threads: nat)
    ensures Balanced(Initial<T>(maxEntries, threads), maxEntries)
  {
    TotalZero(Initial<T>(maxEntries, threads).threads, Slot);
    TotalZero(Initial<T>(maxEntries, threads).threads, Item);
  }

  lemma TakeBalanced<T>(s: State<T>, i: nat, maxEntries: nat)
    requires Balanced(s, maxEntries) && Enabled(s, TakeToken(i))
    ensures Balanced(Apply(s, TakeToken(i)), maxEntries)
  {
    var pc := Apply(s, TakeToken(i)).threads[i];
    TotalUpdate(s.threads, i, pc, Slot);
    TotalUpdate(s.threads, i, pc, Item);
  }

  lemma CheckBalanced<T>(s: State<T>, i: nat, maxEntries: nat)
    requires Balanced(s, maxEntries) && Enabled(s, CheckExit(i))
    ensures Balanced(Apply(s, CheckExit(i)), maxEntries)
  {
    var pc := Apply(s, CheckExit(i)).threads[i];
    TotalUpdate(s.threads, i, pc, Slot);
    TotalUpdate(s.threads, i, pc, Item);
  }

  lemma PushLockBalanced<T>(s: State<T>, i: nat, maxEntries: nat)
    requires Balanced(s, maxEntries) && i < |s.threads| && s.threads[i].PushTaken?
    ensures Balanced(Apply(s, UnderLock(i)), maxEntries)
  {
    TotalUpdate(s.threads, i, Pushed, Slot);
    TotalUpdate(s.threads, i, Pushed, Item);
  }

  /** The thread's own item is in the queue, so front() meets an element. */
  lemma PopLockBalanced<T>(s: State<T>, i: nat, maxEntries: nat)
    requires Balanced(s, maxEntries) && i < |s.threads| && s.threads[i].PopTaken?
    ensures Balanced(Apply(s, UnderLock(i)), maxEntries)
  {
    TotalUpdate(s.threads, i, Idle, Item);
    assert s.queue != [];
    var pc := Popped(s.queue[0]);
    TotalUpdate(s.threads, i, pc, Slot);
    TotalUpdate(s.threads, i, pc, Item);
    assert s.popped + s.queue == s.popped + [s.queue[0]] + s.queue[1..];
  }

  lemma PostBalanced<T>(s: State<T>, i: nat, maxEntries: nat)
    requires Balanced(s, maxEntries) && Enabled(s, Post(i))
    ensures Balanced(Apply(s, Post(i)), maxEntries)
  {
    TotalUpdate(s.threads, i, Idle, Slot);
    TotalUpdate(s.threads, i, Idle, Item);
  }

  /** A move between places that stand for no token. */
  lemma MoveBalanced<T>(s: State<T>, i: nat, pc: Pc<T>, maxEntries: nat)
    requires Balanced(s, maxEntries) && i < |s.threads|
    requires Slot(pc) == Slot(s.threads[i]) && Item(pc) == Item(s.threads[i])
    ensures Balanced(At(s, i, pc), maxEntries)
  {
    TotalUpdate(s.threads, i, pc, Slot);
    TotalUpdate(s.threads, i, pc, Item);
  }

  /** Every step of every thread keeps the balance. */
  lemma StepBalanced<T>(s: State<T>, step: Step<T>, maxEntries: nat)
    requires Balanced(s, maxEntries) && Enabled(s, step)
    ensures Balanced(Apply(s, step), maxEntries)
  {
    match step
    case StartPush(i, t) => MoveBalanced(s, i, PushWaiting(t), maxEntries);
    case StartPop(i, timed) => MoveBalanced(s, i, PopWaiting(timed), maxEntries);
    case TakeToken(i) => TakeBalanced(s, i, maxEntries);
    case MissToken(i) => MoveBalanced(s, i, Idle, maxEntries);
    case CheckExit(i) => CheckBalanced(s, i, maxEntries);
    case UnderLock(i) =>
      if s.threads[i].PushTaken? {
        PushLockBalanced(s, i, maxEntries);
      } else {
        PopLockBalanced(s, i, maxEntries);
      }
    case Post(i) => PostBalanced(s, i, maxEntries);
    case SetPushExit(_) =>
    case SetPopExit(_) =>
  }

  lemma {:induction false} RunBalanced<T>(s: State<T>, steps: seq<Step<T>>, maxEntries: nat)
    requires Balanced(s, maxEntries) && Feasible(s, steps)
    ensures Balanced(Run(s, steps), maxEntries)
    decreases |steps|
  {
    if steps != [] {
      StepBalanced(s, steps[0], maxEntries);
      RunBalanced(Apply(s, steps[0]), steps[1..], maxEntries);
    }
  }

  /**
   * Under every interleaving, with any shutdowns and restarts: the queue never holds more
   * than maxEntries, front() never meets an empty queue, and elements come out in the
   * order in which they went in.
   */
  lemma QueueIsSafe<T>(maxEntries: nat, threads: nat, steps: seq<Step<T>>)
    requires Feasible(Initial<T>(maxEntries, threads), steps)
    ensures
      var s := Run(Initial<T>(maxEntries, threads), steps);
      && |s.queue| + s.lostPush <= maxEntries && s.count == |s.queue|
      && !s.broken
      && s.popped <= s.pushed && s.pushed == s.popped + s.queue
  {
    InitialBalanced<T>(maxEntries, threads);
    RunBalanced(Initial<T>(maxEntries, threads), steps, maxEntries);
  }

  // ----- What a shutdown costs

  /** Whoever is not raising a flag. */
  predicate RaisesNoFlag<T>(step: Step<T>) {
    (step.SetPushExit? || step.SetPopExit?) ==> !step.value
  }

  /** Without a shutdown no token is ever lost. */
  lemma {:induction false} NothingLost<T>(s: State<T>, steps: seq<Step<T>>)
    requires Feasible(s, steps) && !s.pushExit && !s.popExit
    requires forall k :: 0 <= k < |steps| ==> RaisesNoFlag(steps[k])
    ensures Run(s, steps).lostPush == s.lostPush && Run(s, steps).lostPop == s.lostPop
    decreases |steps|
  {
    if steps != [] {
      NothingLost(Apply(s, steps[0]), steps[1..]);
    }
  }

  /** At rest, what the semaphores still offer falls short by exactly the lost tokens. */
  lemma CapacityAtRest<T>(s: State<T>, maxEntries: nat)
    requires Balanced(s, maxEntries) && forall i :: 0 <= i < |s.threads| ==> s.threads[i].Idle?
    ensures s.pushSem == maxEntries - |s.queue| - s.lostPush
    ensures s.popSem == |s.queue| - s.lostPop
  {
    TotalZero(s.threads, Slot);
    TotalZero(s.threads, Item);
  }

  /** While every token is lost, no step moves an element or finds a token. */
  lemma DeadStep<T>(s: State<T>, step: Step<T>, maxEntries: nat)
    requires Balanced(s, maxEntries) && s.lostPush + s.lostPop == maxEntries && Enabled(s, step)
    ensures
      var s' := Apply(s, step);
      && s'.pushed == s.pushed && s'.popped == s.popped
      && s'.lostPush + s'.lostPop == maxEntries
  {
    if !step.SetPushExit? && !step.SetPopExit? {
      TotalUpdate(s.threads, step.i, Idle, Slot);
      TotalUpdate(s.threads, step.i, Idle, Item);
    }
  }

  /** Once every token is lost, no element ever gets in or out again, whatever the threads do. */
  lemma {:induction false} ClosedForGood<T>(s: State<T>, steps: seq<Step<T>>, maxEntries: nat)
    requires Balanced(s, maxEntries) && s.lostPush + s.lostPop == maxEntries && Feasible(s, steps)
    ensures Run(s, steps).pushed == s.pushed && Run(s, steps).popped == s.popped
    decreases |steps|
  {
    if steps != [] {
      StepBalanced(s, steps[0], maxEntries);
      DeadStep(s, steps[0], maxEntries);
      ClosedForGood(Apply(s, steps[0]), steps[1..], maxEntries);
    }
  }

  // ----- While a token is left the queue works

  /** Some continuation gets the n-th element in and the m-th out. */
  ghost predicate Works<T(!new)>(s: State<T>, n: nat, m: nat) {
    exists steps :: Feasible(s, steps) && |Run(s, steps).pushed| > n && |Run(s, steps).popped| > m
  }

  lemma Via<T(!new)>(s: State<T>, step: Step<T>, n: nat, m: nat)
    requires Enabled(s, step) && Works(Apply(s, step), n, m)
    ensures Works(s, n, m)
  {
    var rest :| Feasible(Apply(s, step), rest) && |Run(Apply(s, step), rest).pushed| > n
                && |Run(Apply(s, step), rest).popped| > m;
    var steps := [step] + rest;
    assert steps[1..] == rest;
    assert Feasible(s, steps) && Run(s, steps) == Run(Apply(s, step), rest);
  }

  lemma Done<T(!new)>(s: State<T>, n: nat, m: nat)
    requires |s.pushed| > n && |s.popped| > m
    ensures Works(s, n, m)
  {
    assert Feasible(s, []) && Run(s, []) == s;
  }

  /** A thread at rest takes the element that a token announces. */
  lemma IdlePops<T(!new)>(s: State<T>, i: nat, n: nat, m: nat)
    requires i < |s.threads| && s.threads[i].Idle? && s.popSem > 0 && s.queue != []
    requires |s.pushed| > n && |s.popped| >= m
    ensures Works(s, n, m)
  {
    var s1 := Apply(s, SetPopExit(false));
    var s2 := Apply(s1, StartPop(i, true));
    var s3 := Apply(s2, TakeToken(i));
    Done(Apply(s3, UnderLock(i)), n, m);
    Via(s3, UnderLock(i), n, m);
    Via(s2, TakeToken(i), n, m);
    Via(s1, StartPop(i, true), n, m);
    Via(s, SetPopExit(false), n, m);
  }

  /** A push whose wait has succeeded gets its element in, and the thread can then pop. */
  lemma TakenPushes<T(!new)>(s: State<T>, i: nat, n: nat, m: nat)
    requires i < |s.threads| && s.threads[i].PushTaken? && |s.pushed| >= n && |s.popped| >= m
    ensures Works(s, n, m)
  {
    var s1 := Apply(s, UnderLock(i));
    IdlePops(Apply(s1, Post(i)), i, n, m);
    Via(s1, Post(i), n, m);
    Via(s, UnderLock(i), n, m);
  }

  lemma GotPushes<T(!new)>(s: State<T>, i: nat, n: nat, m: nat)
    requires i < |s.threads| && s.threads[i].PushGot? && |s.pushed| >= n && |s.popped| >= m
    ensures Works(s, n, m)
  {
    var s1 := Apply(s, SetPushExit(false));
    TakenPushes(Apply(s1, CheckExit(i)), i, n, m);
    Via(s1, CheckExit(i), n, m);
    Via(s, SetPushExit(false), n, m);
  }

  lemma WaitingPushes<T(!new)>(s: State<T>, i: nat, n: nat, m: nat)
    requires i < |s.threads| && s.threads[i].PushWaiting? && s.pushSem > 0 && |s.pushed| >= n && |s.popped| >= m
    ensures Works(s, n, m)
  {
    GotPushes(Apply(s, TakeToken(i)), i, n, m);
    Via(s, TakeToken(i), n, m);
  }

  lemma IdlePushes<T(!new)>(s: State<T>, i: nat, t: T, n: nat, m: nat)
    requires i < |s.threads| && s.threads[i].Idle? && s.pushSem > 0 && |s.pushed| >= n && |s.popped| >= m
    ensures Works(s, n, m)
  {
    var s1 := Apply(s, SetPushExit(false));
    WaitingPushes(Apply(s1, StartPush(i, t)), i, n, m);
    Via(s1, StartPush(i, t), n, m);
    Via(s, SetPushExit(false), n, m);
  }

  /** A pop under way ends, and gives a place back. */
  lemma TakenPops<T(!new)>(s: State<T>, i: nat, t: T, n: nat, m: nat)
    requires i < |s.threads| && (s.threads[i].PopTaken? || s.threads[i].Popped?)
    requires (s.threads[i].PopTaken? ==> s.queue != []) && |s.pushed| >= n && |s.popped| >= m
    ensures Works(s, n, m)
  {
    if s.threads[i].PopTaken? {
      var s1 := Apply(s, UnderLock(i));
      IdlePushes(Apply(s1, Post(i)), i, t, n, m);
      Via(s1, Post(i), n, m);
      Via(s, UnderLock(i), n, m);
    } else {
      IdlePushes(Apply(s, Post(i)), i, t, n, m);
      Via(s, Post(i), n, m);
    }
  }

  lemma GotPops<T(!new)>(s: State<T>, i: nat, t: T, n: nat, m: nat)
    requires i < |s.threads| && s.threads[i].PopGot? && s.queue != [] && |s.pushed| >= n && |s.popped| >= m
    ensures Works(s, n, m)
  {
    var s1 := Apply(s, SetPopExit(false));
    TakenPops(Apply(s1, CheckExit(i)), i, t, n, m);
    Via(s1, CheckExit(i), n, m);
    Via(s, SetPopExit(false), n, m);
  }

  lemma WaitingPops<T(!new)>(s: State<T>, i: nat, t: T, n: nat, m: nat)
    requires i < |s.threads| && s.threads[i].PopWaiting? && s.popSem > 0 && s.queue != []
    requires |s.pushed| >= n && |s.popped| >= m
    ensures Works(s, n, m)
  {
    var s1 := Apply(s, TakeToken(i));
    if s.threads[i].timed {
      TakenPops(s1, i, t, n, m);
    } else {
      GotPops(s1, i, t, n, m);
    }
    Via(s, TakeToken(i), n, m);
  }

  /** A thread at rest uses whichever token there is. */
  lemma IdleWorks<T(!new)>(s: State<T>, i: nat, t: T, n: nat, m: nat)
    requires i < |s.threads| && s.threads[i].Idle? && s.pushSem + s.popSem > 0 && (s.popSem > 0 ==> s.queue != [])
    requires |s.pushed| >= n && |s.popped| >= m
    ensures Works(s, n, m)
  {
    if s.pushSem > 0 {
      IdlePushes(s, i, t, n, m);
    } else {
      var s1 := Apply(s, SetPopExit(false));
      WaitingPops(Apply(s1, StartPop(i, true)), i, t, n, m);
      Via(s1, StartPop(i, true), n, m);
      Via(s, SetPopExit(false), n, m);
    }
  }

  /** A thread that waits can be sent home first. */
  lemma WaitingWorks<T(!new)>(s: State<T>, i: nat, t: T, n: nat, m: nat)
    requires i < |s.threads| && (s.threads[i].PushWaiting? || s.threads[i].PopWaiting?)
    requires s.pushSem + s.popSem > 0 && (s.popSem > 0 ==> s.queue != []) && |s.pushed| >= n && |s.popped| >= m
    ensures Works(s, n, m)
  {
    var raise: Step<T> := if s.threads[i].PushWaiting? then SetPushExit(true) else SetPopExit(true);
    var s1 := Apply(s, raise);
    IdleWorks(Apply(s1, MissToken(i)), i, t, n, m);
    Via(s1, MissToken(i), n, m);
    Via(s, raise, n, m);
  }

  /** A thread that stands for a token uses it. */
  lemma HolderWorks<T(!new)>(s: State<T>, i: nat, t: T, n: nat, m: nat)
    requires i < |s.threads| && Slot(s.threads[i]) + Item(s.threads[i]) > 0
    requires (Item(s.threads[i]) > 0 ==> s.queue != []) && |s.pushed| >= n && |s.popped| >= m
    ensures Works(s, n, m)
  {
    match s.threads[i]
    case PushGot(_) => GotPushes(s, i, n, m);
    case PushTaken(_) => TakenPushes(s, i, n, m);
    case PopGot => GotPops(s, i, t, n, m);
    case PopTaken => TakenPops(s, i, t, n, m);
    case Popped(_) => TakenPops(s, i, t, n, m);
    case Pushed =>
      IdleWorks(Apply(s, Post(i)), i, t, n, m);
      Via(s, Post(i), n, m);
    case _ => assert false;
  }

  /** As long as a token is left, in a semaphore or with a thread, the queue goes on working. */
  lemma TokenLeftWorks<T(!new)>(s: State<T>, maxEntries: nat, t: T)
    requires Balanced(s, maxEntries) && |s.threads| > 0 && s.lostPush + s.lostPop < maxEntries
    ensures Works(s, |s.pushed|, |s.popped|)
  {
    if i :| 0 <= i < |s.threads| && Slot(s.threads[i]) + Item(s.threads[i]) > 0 {
      TotalUpdate(s.threads, i, Idle, Item);
      HolderWorks(s, i, t, |s.pushed|, |s.popped|);
    } else {
      TotalZero(s.threads, Slot);
      TotalZero(s.threads, Item);
      if s.threads[0].Idle? {
        IdleWorks(s, 0, t, |s.pushed|, |s.popped|);
      } else {
        WaitingWorks(s, 0, t, |s.pushed|, |s.popped|);
      }
    }
  }

  /** Nothing gets in any more. */
  ghost predicate NeverPushes<T(!new)>(s: State<T>) {
    forall steps :: Feasible(s, steps) ==> Run(s, steps).pushed == s.pushed
  }

  /** Nothing gets out any more. */
  ghost predicate NeverPops<T(!new)>(s: State<T>) {
    forall steps :: Feasible(s, steps) ==> Run(s, steps).popped == s.popped
  }

  /** The queue is closed for good, on both sides, exactly when every token has been lost, on either side. */
  lemma ClosedExactly<T(!new)>(s: State<T>, maxEntries: nat, t: T)
    requires Balanced(s, maxEntries) && |s.threads| > 0
    ensures NeverPushes(s) <==> s.lostPush + s.lostPop == maxEntries
    ensures NeverPops(s) <==> s.lostPush + s.lostPop == maxEntries
  {
    if s.lostPush + s.lostPop == maxEntries {
      forall steps | Feasible(s, steps)
        ensures Run(s, steps).pushed == s.pushed && Run(s, steps).popped == s.popped
      {
        ClosedForGood(s, steps, maxEntries);
      }
    } else {
      TokenLeftWorks(s, maxEntries, t);
    }
  }

  /** At rest this shows in the two semaphores: both are at zero. */
  lemma ClosedAtRest<T(!new)>(s: State<T>, maxEntries: nat, t: T)
    requires Balanced(s, maxEntries) && |s.threads| > 0 && forall i :: 0 <= i < |s.threads| ==> s.threads[i].Idle?
    ensures NeverPushes(s) <==> s.pushSem == 0 && s.popSem == 0
    ensures NeverPops(s) <==> s.pushSem == 0 && s.popSem == 0
  {
    CapacityAtRest(s, maxEntries);
    ClosedExactly(s, maxEntries, t);
  }

  // ----- Two runs that end there

  lemma Then<T>(s: State<T>, step: Step<T>, next: State<T>, rest: seq<Step<T>>, last: State<T>)
    requires Enabled(s, step) && Apply(s, step) == next && Feasible(next, rest) && Run(next, rest) == last
    ensures Feasible(s, [step] + rest) && Run(s, [step] + rest) == last
  {
    assert ([step] + rest)[1..] == rest;
  }

  lemma {:induction false} RunAppend<T>(s: State<T>, first: seq<Step<T>>, later: seq<Step<T>>)
    requires Feasible(s, first) && Feasible(Run(s, first), later)
    ensures Feasible(s, first + later) && Run(s, first + later) == Run(Run(s, first), later)
    decreases |first|
  {
    if first == [] {
      assert first + later == later;
    } else {
      RunAppend(Apply(s, first[0]), first[1..], later);
      assert (first + later)[1..] == first[1..] + later;
    }
  }

  /** A queue of one place, used by one thread. */
  function Single(pc: Pc<int>, pushSem: nat, popSem: nat, queue: seq<int>): State<int> {
    State(queue, |queue|, pushSem, popSem, false, false, [pc], queue, [], 0, 0, false)
  }

  /** A shutdown between a successful semaphore operation of a push and its look at the flag, and a restart. */
  const LOSE_PUSH := [StartPush(0, 7), TakeToken(0), SetPushExit(true), CheckExit(0), SetPushExit(false)]

  /** A push that succeeds. */
  const PUSH := [StartPush(0, 7), TakeToken(0), CheckExit(0), UnderLock(0), Post(0)]

  /** A shutdown between a successful semaphore operation of a pop and its look at the flag, and a restart. */
  const LOSE_POP: seq<Step<int>> := [StartPop(0, false), TakeToken(0), SetPopExit(true), CheckExit(0), SetPopExit(false)]

  /** A restarted queue can be empty and closed for good: the only token went with a failed push. */
  lemma RestartedQueueCanBeStuck()
    ensures Feasible(Initial<int>(1, 1), LOSE_PUSH)
    ensures Run(Initial<int>(1, 1), LOSE_PUSH) == Single(Idle, 0, 0, []).(lostPush := 1)
  {
    var got, last := Single(PushGot(7), 0, 0, []), Single(Idle, 0, 0, []).(lostPush := 1);
    var r5: seq<Step<int>> := [];
    Then(last.(pushExit := true), SetPushExit(false), last, r5, last);
    var r4 := [SetPushExit(false)] + r5;
    Then(got.(pushExit := true), CheckExit(0), last.(pushExit := true), r4, last);
    var r3 := [CheckExit(0)] + r4;
    Then(got, SetPushExit(true), got.(pushExit := true), r3, last);
    var r2 := [SetPushExit(true)] + r3;
    Then(Single(PushWaiting(7), 1, 0, []), TakeToken(0), got, r2, last);
    var r1 := [TakeToken(0)] + r2;
    Then(Single(Idle, 1, 0, []), StartPush(0, 7), Single(PushWaiting(7), 1, 0, []), r1, last);
    var r0 := [StartPush(0, 7)] + r1;
    assert r0 == LOSE_PUSH;
    assert Initial<int>(1, 1).threads == [Idle];
  }

  lemma PushSucceeds()
    ensures Feasible(Single(Idle, 1, 0, []), PUSH) && Run(Single(Idle, 1, 0, []), PUSH) == Single(Idle, 0, 1, [7])
  {
    var last := Single(Idle, 0, 1, [7]);
    var r5: seq<Step<int>> := [];
    Then(Single(Pushed, 0, 0, [7]), Post(0), last, r5, last);
    var r4 := [Post(0)] + r5;
    Then(Single(PushTaken(7), 0, 0, []), UnderLock(0), Single(Pushed, 0, 0, [7]), r4, last);
    var r3 := [UnderLock(0)] + r4;
    Then(Single(PushGot(7), 0, 0, []), CheckExit(0), Single(PushTaken(7), 0, 0, []), r3, last);
    var r2 := [CheckExit(0)] + r3;
    Then(Single(PushWaiting(7), 1, 0, []), TakeToken(0), Single(PushGot(7), 0, 0, []), r2, last);
    var r1 := [TakeToken(0)] + r2;
    Then(Single(Idle, 1, 0, []), StartPush(0, 7), Single(PushWaiting(7), 1, 0, []), r1, last);
    var r0 := [StartPush(0, 7)] + r1;
    assert r0 == PUSH;
  }

  lemma PopIsLost()
    ensures Feasible(Single(Idle, 0, 1, [7]), LOSE_POP)
    ensures Run(Single(Idle, 0, 1, [7]), LOSE_POP) == Single(Idle, 0, 0, [7]).(lostPop := 1)
  {
    var got, last := Single(PopGot, 0, 0, [7]), Single(Idle, 0, 0, [7]).(lostPop := 1);
    var r5: seq<Step<int>> := [];
    Then(last.(popExit := true), SetPopExit(false), last, r5, last);
    var r4 := [SetPopExit(false)] + r5;
    Then(got.(popExit := true), CheckExit(0), last.(popExit := true), r4, last);
    var r3 := [CheckExit(0)] + r4;
    Then(got, SetPopExit(true), got.(popExit := true), r3, last);
    var r2 := [SetPopExit(true)] + r3;
    Then(Single(PopWaiting(false), 0, 1, [7]), TakeToken(0), got, r2, last);
    var r1 := [TakeToken(0)] + r2;
    Then(Single(Idle, 0, 1, [7]), StartPop(0, false), Single(PopWaiting(false), 0, 1, [7]), r1, last);
    var r0 := [StartPop(0, false)] + r1;
    assert r0 == LOSE_POP;
  }

  /** A restarted queue can be full and closed for good: the only token went with a failed pop. */
  lemma RestartedFullQueueCanBeStuck()
    ensures Feasible(Initial<int>(1, 1), PUSH + LOSE_POP)
    ensures Run(Initial<int>(1, 1), PUSH + LOSE_POP) == Single(Idle, 0, 0, [7]).(lostPop := 1)
  {
    assert Initial<int>(1, 1).threads == [Idle];
    PushSucceeds();
    PopIsLost();
    RunAppend(Initial<int>(1, 1), PUSH, LOSE_POP);
  }
}
