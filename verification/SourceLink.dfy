/**
 * The link between two modules (core/Source.h with CountingSemaphore.cpp) as a protocol of
 * atomic steps: any number of threads send, connect and disconnect.  connectToNothing and
 * the shutdown of the semaphore are not part of it.
 */
module SourceLink {
  import opened Options
  import opened Sequences

  /** Where a thread is; D identifies destinations. */
  datatype Pc<D> =
    | Idle
    // connectTo
    | Connecting(d: D)      // holds the mutex
    | DestSet
    | SemaphoreRaised
    | LockReleased
    | Thrown                // "already connected": the mutex stays locked
    // disconnect
    | Disconnecting         // holds the mutex
    | Spinning              // waits for send to let go of syncLock
    | LockTaken
    | DestCleared
    | Disconnected
    // send
    | Trying
    | Asleep                // in dec(2)
    | Awake                 // between dec(2) and inc(2)
    | Sending               // holds syncLock
    | Receiving(to: D, epoch: nat)
    | Sent

  /**
   * The shared state: the mutex and who holds it, syncLock, dest and the semaphore's value.
   * The rest records history: holder is the thread that took syncLock, epoch counts
   * connections, and closed is the last of them that a disconnect has returned from.
   */
  datatype State<D> = State(
    mutex: Option<nat>, syncLock: bool, dest: Option<D>, val: nat, threads: seq<Pc<D>>,
    holder: Option<nat>, epoch: nat, closed: nat)

  datatype Step<D> =
    | StartConnect(i: nat, d: D)
    | StartDisconnect(i: nat)
    | StartSend(i: nat)
    | Advance(i: nat)

  function At<D>(s: State<D>, i: nat, pc: Pc<D>): State<D>
    requires i < |s.threads|
  {
    s.(threads := s.threads[i := pc])
  }

  predicate Enabled<D>(s: State<D>, step: Step<D>) {
    && step.i < |s.threads|
    && match step
       case StartConnect(i, _) => s.threads[i].Idle? && s.mutex == None
       case StartDisconnect(i) => s.threads[i].Idle? && s.mutex == None
       case StartSend(i) => s.threads[i].Idle?
       case Advance(i) =>
         match s.threads[i]
         case Idle => false
         case Thrown => false
         case DestCleared => s.val >= 1
         case Asleep => s.val >= 2
         case _ => true
  }

  /** The next atomic action of a thread that is inside one of the three operations. */
  function Next<D>(s: State<D>, i: nat): State<D>
    requires i < |s.threads| && Enabled(s, Advance(i))
  {
    match s.threads[i]
    case Connecting(d) =>
      if s.dest.Some? then At(s, i, Thrown) else At(s.(dest := Some(d), epoch := s.epoch + 1), i, DestSet)
    case DestSet => At(s.(val := s.val + 1), i, SemaphoreRaised)
    case SemaphoreRaised => At(s.(syncLock := false, holder := None), i, LockReleased)
    case LockReleased => At(s.(mutex := None), i, Idle)
    case Disconnecting => At(s, i, if s.dest.Some? then Spinning else Disconnected)
    case Spinning => if s.syncLock then s else At(s.(syncLock := true, holder := Some(i)), i, LockTaken)
    case LockTaken => At(s.(dest := None, holder := None), i, DestCleared)
    case DestCleared => At(s.(val := s.val - 1), i, Disconnected)
    case Disconnected => At(s.(mutex := None, closed := s.epoch), i, Idle)
    case Trying => if s.syncLock then At(s, i, Asleep) else At(s.(syncLock := true, holder := Some(i)), i, Sending)
    case Asleep => At(s.(val := s.val - 2), i, Awake)
    case Awake => At(s.(val := s.val + 2), i, Trying)
    case Sending => At(s, i, if s.dest.Some? then Receiving(s.dest.value, s.epoch) else Sent)
    case Receiving(_, _) => At(s, i, Sent)
    case Sent => At(s.(syncLock := false, holder := None), i, Idle)
  }

  function Apply<D>(s: State<D>, step: Step<D>): State<D>
    requires Enabled(s, step)
  {
    match step
    case StartConnect(i, d) => At(s.(mutex := Some(i)), i, Connecting(d))
    case StartDisconnect(i) => At(s.(mutex := Some(i)), i, Disconnecting)
    case StartSend(i) => At(s, i, Trying)
    case Advance(i) => Next(s, i)
  }

  function Initial<D>(threads: nat): State<D> {
    State(None, true, None, 1, seq(threads, _ => Idle), None, 0, 0)
  }

  predicate Feasible<D>(s: State<D>, steps: seq<Step<D>>)
    decreases |steps|
  {
    steps == [] || (Enabled(s, steps[0]) && Feasible(Apply(s, steps[0]), steps[1..]))
  }

  function Run<D>(s: State<D>, steps: seq<Step<D>>): State<D>
    requires Feasible(s, steps)
    decreases |steps|
  {
    if steps == [] then s else Run(Apply(s, steps[0]), steps[1..])
  }

  // ----- The invariant

  predicate InMutex<D>(pc: Pc<D>) {
    || pc.Connecting? || pc.DestSet? || pc.SemaphoreRaised? || pc.LockReleased? || pc.Thrown?
    || pc.Disconnecting? || pc.Spinning? || pc.LockTaken? || pc.DestCleared? || pc.Disconnected?
  }

  predicate HoldsLock<D>(pc: Pc<D>) {
    pc.LockTaken? || pc.Sending? || pc.Receiving? || pc.Sent?
  }

  function AwakeWeight<D>(pc: Pc<D>): nat { if pc.Awake? then 1 else 0 }

  /** The thread that holds the mutex, or an idle one. */
  function MutexPc<D>(s: State<D>): Pc<D> {
    if s.mutex.Some? && s.mutex.value < |s.threads| then s.threads[s.mutex.value] else Idle
  }

  /** syncLock is taken and no thread has it: there is no connection to send over. */
  predicate Parked<D>(s: State<D>) { s.syncLock && s.holder == None }

  /** Mutual exclusion, for the mutex and for syncLock. */
  ghost predicate Exclusive<D>(s: State<D>) {
    && (forall i :: 0 <= i < |s.threads| ==> (InMutex(s.threads[i]) <==> s.mutex == Some(i)))
    && (forall i :: 0 <= i < |s.threads| ==> (HoldsLock(s.threads[i]) <==> s.holder == Some(i)))
    && (s.holder.Some? ==> s.syncLock && s.holder.value < |s.threads|)
    && (s.mutex.Some? ==> s.mutex.value < |s.threads|)
  }

  /** When there is a destination and when sends may go there, as the mutex's holder sees it. */
  ghost predicate Connected<D>(s: State<D>) {
    && (s.dest.None? ==> Parked(s))
    && (s.dest.Some? && Parked(s) <==> MutexPc(s).DestSet? || MutexPc(s).SemaphoreRaised?)
    && (MutexPc(s).Spinning? || MutexPc(s).LockTaken? ==> s.dest.Some?)
    && (MutexPc(s).DestCleared? || MutexPc(s).Disconnected? ==> s.dest.None?)
    && s.closed <= s.epoch && (s.dest.Some? ==> s.closed < s.epoch)
  }

  /** A running receive is one on the present destination. */
  ghost predicate ReceivesHere<D>(s: State<D>) {
    forall i :: 0 <= i < |s.threads| && s.threads[i].Receiving? ==>
      s.dest == Some(s.threads[i].to) && s.threads[i].epoch == s.epoch
  }

  /** What the connection, and whoever is changing it, let the semaphore stand at. */
  function Due<D>(s: State<D>): int {
    1 + (if s.dest.Some? then 1 else 0) + (if MutexPc(s).DestCleared? then 1 else 0)
    - (if MutexPc(s).DestSet? then 1 else 0)
  }

  /** The semaphore's value, with two for each thread between dec(2) and inc(2), follows the connection. */
  ghost predicate Counted<D>(s: State<D>) {
    s.val + 2 * Total(s.threads, AwakeWeight) == Due(s)
  }

  ghost predicate Inv<D>(s: State<D>) {
    Exclusive(s) && Connected(s) && ReceivesHere(s) && Counted(s)
  }

  lemma InitialInv<D>(threads: nat)
    ensures Inv(Initial<D>(threads))
  {
    TotalZero(Initial<D>(threads).threads, AwakeWeight);
  }

  /** A change of owner that concerns thread i only. */
  predicate OwnedBy(before: Option<nat>, after: Option<nat>, i: nat) {
    before == after || ((before == None || before == Some(i)) && (after == None || after == Some(i)))
  }

  lemma ExclusiveAt<D>(s: State<D>, s': State<D>, i: nat, pc: Pc<D>)
    requires Exclusive(s) && i < |s.threads| && s'.threads == s.threads[i := pc]
    requires OwnedBy(s.mutex, s'.mutex, i) && (InMutex(pc) <==> s'.mutex == Some(i))
    requires OwnedBy(s.holder, s'.holder, i) && (HoldsLock(pc) <==> s'.holder == Some(i))
    requires s'.holder.Some? ==> s'.syncLock
    ensures Exclusive(s')
  {
  }

  lemma StepExclusive<D>(s: State<D>, step: Step<D>)
    requires Inv(s) && Enabled(s, step)
    ensures Exclusive(Apply(s, step))
  {
    ExclusiveAt(s, Apply(s, step), step.i, Apply(s, step).threads[step.i]);
  }

  /** Which thread holds the mutex after a step, and where it is. */
  lemma StepMutexPc<D>(s: State<D>, step: Step<D>)
    requires Inv(s) && Enabled(s, step)
    ensures MutexPc(Apply(s, step)) ==
            if Apply(s, step).mutex == Some(step.i) then Apply(s, step).threads[step.i]
            else if s.mutex == Some(step.i) then Idle else MutexPc(s)
    ensures s.mutex == Some(step.i) ==> MutexPc(s) == s.threads[step.i]
    ensures s.mutex != Some(step.i) ==> !InMutex(s.threads[step.i])
  {
  }

  lemma StepConnected<D>(s: State<D>, step: Step<D>)
    requires Inv(s) && Enabled(s, step)
    ensures Connected(Apply(s, step))
  {
    StepMutexPc(s, step);
  }

  lemma StepReceives<D>(s: State<D>, step: Step<D>)
    requires Inv(s) && Enabled(s, step)
    ensures ReceivesHere(Apply(s, step))
  {
  }

  /** What a step does to the semaphore and to the thread that takes it is what it does to the connection. */
  lemma StepBalanced<D>(s: State<D>, step: Step<D>)
    requires Inv(s) && Enabled(s, step)
    ensures
      var s' := Apply(s, step);
      s'.val + 2 * AwakeWeight(s'.threads[step.i]) - Due(s') == s.val + 2 * AwakeWeight(s.threads[step.i]) - Due(s)
  {
    StepMutexPc(s, step);
  }

  lemma StepCounted<D>(s: State<D>, step: Step<D>)
    requires Inv(s) && Enabled(s, step)
    ensures Counted(Apply(s, step))
  {
    StepBalanced(s, step);
    TotalUpdate(s.threads, step.i, Apply(s, step).threads[step.i], AwakeWeight);
  }

  lemma {:induction false} RunInv<D>(s: State<D>, steps: seq<Step<D>>)
    requires Inv(s) && Feasible(s, steps)
    ensures Inv(Run(s, steps)) && s.closed <= Run(s, steps).closed
    decreases |steps|
  {
    if steps != [] {
      StepExclusive(s, steps[0]);
      StepConnected(s, steps[0]);
      StepReceives(s, steps[0]);
      StepCounted(s, steps[0]);
      RunInv(Apply(s, steps[0]), steps[1..]);
    }
  }

  // ----- What follows for every interleaving

  predicate ReceivingAt<D>(s: State<D>, i: nat) { i < |s.threads| && s.threads[i].Receiving? }

  predicate SendingAt<D>(s: State<D>, i: nat) {
    i < |s.threads| && (s.threads[i].Sending? || s.threads[i].Receiving? || s.threads[i].Sent?)
  }

  /** In every reachable state. */
  lemma LinkIsSafe<D>(threads: nat, steps: seq<Step<D>>)
    requires Feasible(Initial<D>(threads), steps)
    ensures
      var s := Run(Initial<D>(threads), steps);
      // at most one receive runs
      && (forall i: nat, j: nat :: ReceivingAt(s, i) && ReceivingAt(s, j) ==> i == j)
      // a sender that has syncLock has a destination, and a running receive is on it
      && (forall i: nat :: SendingAt(s, i) ==> s.dest.Some?)
      && (forall i: nat :: ReceivingAt(s, i) ==> s.dest == Some(s.threads[i].to))
      // a disconnect that is about to clear dest does so while nobody receives
      && (forall i: nat, j: nat :: i < |s.threads| && s.threads[i].LockTaken? ==> !ReceivingAt(s, j))
      // the semaphore follows the connection
      && Counted(s)
  {
    InitialInv<D>(threads);
    RunInv(Initial<D>(threads), steps);
  }

  /** After a disconnect has returned, no receive runs over the connection it closed. */
  lemma NoLateReceive<D>(threads: nat, steps: seq<Step<D>>, later: seq<Step<D>>, i: nat)
    requires Feasible(Initial<D>(threads), steps) && Feasible(Run(Initial<D>(threads), steps), later)
    requires ReceivingAt(Run(Run(Initial<D>(threads), steps), later), i)
    ensures
      var s := Run(Initial<D>(threads), steps);
      s.closed < Run(s, later).threads[i].epoch
  {
    InitialInv<D>(threads);
    RunInv(Initial<D>(threads), steps);
    RunInv(Run(Initial<D>(threads), steps), later);
  }

  /** The step by which a disconnect returns closes the connection that was open when it began, if any. */
  lemma DisconnectCloses<D>(s: State<D>, i: nat)
    requires Inv(s) && i < |s.threads| && s.threads[i].Disconnected?
    ensures Apply(s, Advance(i)).closed == s.epoch && Apply(s, Advance(i)).dest == None
  {
    StepMutexPc(s, Advance(i));
  }
}
