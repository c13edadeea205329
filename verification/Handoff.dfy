/**
  The hand-off of a request from the accepting thread to a new worker: one
  shared buffer, one flag, one mutex, one condition variable, and any number of
  detached workers, as an interleaving of atomic steps. A message is copied unit
  by unit, and a waiter may wake without having been signalled.
*/
module Handoff {
  datatype ReceiverPc =
    | Receiving    // about to receive into the buffer
    | Creating     // about to create the worker
    | Locking      // about to lock the mutex
    | Testing      // holds the mutex, evaluates the loop condition
    | Waiting      // in the wait set
    | Waking       // out of the wait set, needs the mutex back
    | Resetting    // holds the mutex, saw that the copy was made
    | Unlocking    // holds the mutex, about to release it

  datatype WorkerPc = Starting | Copying | Clearing | Signalling | Releasing | Serving | Exited

  datatype Worker<T> = Worker(pc: WorkerPc, local: seq<T>)

  datatype Holder = Nobody | Receiver | Thread(id: nat)

  /** `received` is the history of messages; worker i is created for received[i]. */
  datatype State<T> = State(buffer: seq<T>, notCopied: bool, holder: Holder, recv: ReceiverPc,
                            workers: seq<Worker<T>>, received: seq<seq<T>>)

  datatype Action<T> =
    | Receive(m: seq<T>) | Create | LockMutex | Test | SpuriousWakeup | Relock | Reset | Unlock
    | Start(i: nat) | CopyUnit(i: nat) | CopyDone(i: nat) | Clear(i: nat)
    | Signal(i: nat) | Release(i: nat) | Exit(i: nat)

  predicate At<T>(s: State<T>, i: nat, pc: WorkerPc) {
    i < |s.workers| && s.workers[i].pc == pc
  }

  predicate Enabled<T>(s: State<T>, a: Action<T>) {
    match a
    case Receive(_) => s.recv.Receiving?
    case Create => s.recv.Creating?
    case LockMutex => s.recv.Locking? && s.holder.Nobody?
    case Test => s.recv.Testing?
    case SpuriousWakeup => s.recv.Waiting?
    case Relock => s.recv.Waking? && s.holder.Nobody?
    case Reset => s.recv.Resetting?
    case Unlock => s.recv.Unlocking?
    case Start(i) => At(s, i, Starting) && s.holder.Nobody?
    case CopyUnit(i) => At(s, i, Copying) && |s.workers[i].local| < |s.buffer|
    case CopyDone(i) => At(s, i, Copying) && |s.workers[i].local| >= |s.buffer|
    case Clear(i) => At(s, i, Clearing)
    case Signal(i) => At(s, i, Signalling)
    case Release(i) => At(s, i, Releasing)
    case Exit(i) => At(s, i, Serving)
  }

  function Move<T>(s: State<T>, i: nat, pc: WorkerPc): State<T>
    requires i < |s.workers|
  {
    s.(workers := s.workers[i := s.workers[i].(pc := pc)])
  }

  function Do<T>(s: State<T>, a: Action<T>): State<T>
    requires Enabled(s, a)
  {
    match a
    case Receive(m) => s.(buffer := m, recv := Creating, received := s.received + [m])
    case Create => s.(recv := Locking, workers := s.workers + [Worker(Starting, [])])
    case LockMutex => s.(recv := Testing, holder := Receiver)
    case Test => if s.notCopied then s.(recv := Waiting, holder := Nobody) else s.(recv := Resetting)
    case SpuriousWakeup => s.(recv := Waking)
    case Relock => s.(recv := Testing, holder := Receiver)
    case Reset => s.(recv := Unlocking, notCopied := true)
    case Unlock => s.(recv := Receiving, holder := Nobody)
    case Start(i) => Move(s, i, Copying).(holder := Thread(i))
    case CopyUnit(i) =>
      var w := s.workers[i];
      s.(workers := s.workers[i := w.(local := w.local + [s.buffer[|w.local|]])])
    case CopyDone(i) => Move(s, i, Clearing)
    case Clear(i) => Move(s, i, Signalling).(notCopied := false)
    case Signal(i) => Move(s, i, Releasing).(recv := if s.recv.Waiting? then Waking else s.recv)
    case Release(i) => Move(s, i, Serving).(holder := Nobody)
    case Exit(i) => Move(s, i, Exited)
  }

  predicate Initial<T>(s: State<T>) {
    s.notCopied && s.holder.Nobody? && s.recv.Receiving? && s.workers == [] && s.received == []
  }

  // ---------- runs ----------

  predicate Legal<T>(s: State<T>, run: seq<Action<T>>)
    decreases |run|
  {
    run == [] || (Enabled(s, run[0]) && Legal(Do(s, run[0]), run[1..]))
  }

  function After<T>(s: State<T>, run: seq<Action<T>>): State<T>
    requires Legal(s, run)
    decreases |run|
  {
    if run == [] then s else After(Do(s, run[0]), run[1..])
  }

  // ---------- the inductive invariant ----------

  /** The worker has given the mutex back, its copy made. */
  predicate Gone<T>(w: Worker<T>) { w.pc.Serving? || w.pc.Exited? }

  predicate Holds(pc: WorkerPc) { pc.Copying? || pc.Clearing? || pc.Signalling? || pc.Releasing? }

  /** Between the creation of a worker and the receiver's discovery that it copied. */
  predicate Pending(pc: ReceiverPc) { pc.Locking? || pc.Testing? || pc.Waiting? || pc.Waking? }

  ghost predicate LocalFits<T>(w: Worker<T>, m: seq<T>) {
    match w.pc
    case Starting => w.local == []
    case Copying => w.local <= m
    case _ => w.local == m
  }

  ghost predicate Inv<T>(s: State<T>) {
    var n := |s.workers|;
    && |s.received| == n + (if s.recv.Creating? then 1 else 0)
    && (s.received != [] ==> s.buffer == s.received[|s.received| - 1])
    && (forall i :: 0 <= i < n ==> LocalFits(s.workers[i], s.received[i]))
    && (forall i :: 0 <= i < n && (i < n - 1 || !Pending(s.recv)) ==> Gone(s.workers[i]))
    && (Pending(s.recv) ==> n > 0)
    && (s.holder.Receiver? <==> s.recv.Testing? || s.recv.Resetting? || s.recv.Unlocking?)
    && (forall i :: 0 <= i < n ==> (s.holder == Thread(i) <==> Holds(s.workers[i].pc)))
    && (s.holder.Thread? ==> s.holder.id < n)
    && (s.notCopied <==>
          if Pending(s.recv) then var pc := s.workers[n - 1].pc; pc.Starting? || pc.Copying? || pc.Clearing?
          else !s.recv.Resetting?)
    && (s.recv.Waiting? ==>
          var pc := s.workers[n - 1].pc; pc.Starting? || pc.Copying? || pc.Clearing? || pc.Signalling?)
  }

  lemma ReceiveKeepsInv<T>(s: State<T>, a: Action<T>)
    requires Inv(s) && Enabled(s, a) && (a.Receive? || a.Create? || a.Unlock?)
    ensures Inv(Do(s, a))
  {
  }

  lemma WaitKeepsInv<T>(s: State<T>, a: Action<T>)
    requires Inv(s) && Enabled(s, a) && (a.LockMutex? || a.Test? || a.SpuriousWakeup? || a.Relock? || a.Reset?)
    ensures Inv(Do(s, a))
  {
  }

  /** A worker that has not given the mutex back is the last one, and the buffer holds its message. */
  lemma ActiveIsLast<T>(s: State<T>, i: nat)
    requires Inv(s) && i < |s.workers| && !Gone(s.workers[i])
    ensures i == |s.workers| - 1 == |s.received| - 1 && Pending(s.recv)
    ensures s.buffer == s.received[i] && LocalFits(s.workers[i], s.buffer)
  {
  }

  lemma StartKeepsInv<T>(s: State<T>, i: nat)
    requires Inv(s) && Enabled(s, Start(i))
    ensures Inv(Do(s, Start(i)))
  {
    ActiveIsLast(s, i);
  }

  lemma CopyUnitKeepsInv<T>(s: State<T>, i: nat)
    requires Inv(s) && Enabled(s, CopyUnit(i))
    ensures Inv(Do(s, CopyUnit(i)))
  {
    ActiveIsLast(s, i);
    var t := Do(s, CopyUnit(i));
    assert t.workers[i].local <= s.buffer;
  }

  lemma CopyDoneKeepsInv<T>(s: State<T>, i: nat)
    requires Inv(s) && Enabled(s, CopyDone(i))
    ensures Inv(Do(s, CopyDone(i)))
  {
    ActiveIsLast(s, i);
    var t := Do(s, CopyDone(i));
    assert t.workers[i].local == s.buffer;
  }

  lemma ClearKeepsInv<T>(s: State<T>, i: nat)
    requires Inv(s) && Enabled(s, Clear(i))
    ensures Inv(Do(s, Clear(i)))
  {
  }

  lemma SignalKeepsInv<T>(s: State<T>, i: nat)
    requires Inv(s) && Enabled(s, Signal(i))
    ensures Inv(Do(s, Signal(i)))
  {
    assert i == |s.workers| - 1;
  }

  lemma ReleaseKeepsInv<T>(s: State<T>, i: nat)
    requires Inv(s) && Enabled(s, Release(i))
    ensures Inv(Do(s, Release(i)))
  {
    assert i == |s.workers| - 1;
  }

  lemma ExitKeepsInv<T>(s: State<T>, i: nat)
    requires Inv(s) && Enabled(s, Exit(i))
    ensures Inv(Do(s, Exit(i)))
  {
  }

  lemma StepKeepsInv<T>(s: State<T>, a: Action<T>)
    requires Inv(s) && Enabled(s, a)
    ensures Inv(Do(s, a))
  {
    match a
    case Receive(_) => ReceiveKeepsInv(s, a);
    case Create => ReceiveKeepsInv(s, a);
    case Unlock => ReceiveKeepsInv(s, a);
    case Start(i) => StartKeepsInv(s, i);
    case CopyUnit(i) => CopyUnitKeepsInv(s, i);
    case CopyDone(i) => CopyDoneKeepsInv(s, i);
    case Clear(i) => ClearKeepsInv(s, i);
    case Signal(i) => SignalKeepsInv(s, i);
    case Release(i) => ReleaseKeepsInv(s, i);
    case Exit(i) => ExitKeepsInv(s, i);
    case _ => WaitKeepsInv(s, a);
  }

  lemma {:induction false} InvAfter<T>(s: State<T>, run: seq<Action<T>>)
    requires Inv(s) && Legal(s, run)
    ensures Inv(After(s, run))
    decreases |run|
  {
    if run != [] {
      StepKeepsInv(s, run[0]);
      InvAfter(Do(s, run[0]), run[1..]);
    }
  }

  // ---------- safety of every interleaving ----------

  /**
    In every reachable state: a worker that is past its copy has exactly the
    message it was created for; at most one worker has not given the mutex back;
    and when the receiver is about to overwrite the buffer, every message
    received so far is the local copy of its own worker.
  */
  lemma CopiesAreFaithful<T>(s: State<T>, run: seq<Action<T>>)
    requires Initial(s) && Legal(s, run)
    ensures var t := After(s, run);
            && |t.workers| <= |t.received|
            && (forall i :: 0 <= i < |t.workers| && !t.workers[i].pc.Starting? && !t.workers[i].pc.Copying?
                  ==> t.workers[i].local == t.received[i])
            && (forall i, j | 0 <= i < |t.workers| && 0 <= j < |t.workers| ::
                  !Gone(t.workers[i]) && !Gone(t.workers[j]) ==> i == j)
            && (forall m :: Enabled(t, Receive(m)) ==>
                  && |t.workers| == |t.received|
                  && forall i :: 0 <= i < |t.workers| ==> t.workers[i].local == t.received[i])
  {
    InvAfter(s, run);
  }

  /** While a worker still has to copy, the buffer is the message it was created for. */
  lemma BufferIsStable<T>(s: State<T>, run: seq<Action<T>>, i: nat)
    requires Initial(s) && Legal(s, run)
    requires var t := After(s, run); At(t, i, Starting) || At(t, i, Copying)
    ensures var t := After(s, run);
            && i == |t.workers| - 1 == |t.received| - 1 && t.buffer == t.received[i] && t.workers[i].local <= t.buffer
            && t.notCopied && forall m :: !Enabled(t, Receive(m))
  {
    InvAfter(s, run);
  }

  /** The mutex excludes: no two parties are between lock and unlock. */
  lemma MutexExcludes<T>(s: State<T>, run: seq<Action<T>>)
    requires Initial(s) && Legal(s, run)
    ensures var t := After(s, run);
            && (forall i, j | 0 <= i < |t.workers| && 0 <= j < |t.workers| ::
                  Holds(t.workers[i].pc) && Holds(t.workers[j].pc) ==> i == j)
            && (forall i :: 0 <= i < |t.workers| && (t.recv.Testing? || t.recv.Resetting? || t.recv.Unlocking?)
                  ==> !Holds(t.workers[i].pc))
  {
    InvAfter(s, run);
  }

  // ---------- progress ----------

  function ReceiverDistance(pc: ReceiverPc): nat {
    match pc
    case Receiving => 0
    case Unlocking => 1
    case Resetting => 2
    case Waiting => 2
    case Testing => 3
    case Waking => 4
    case Locking => 4
    case Creating => 12
  }

  function WorkerDistance<T>(w: Worker<T>, size: nat): int {
    match w.pc
    case Starting => 7 + size
    case Copying => 6 + size - |w.local|
    case Clearing => 5
    case Signalling => 4
    case Releasing => 1
    case _ => 0
  }

  /** How many steps the hand-off in progress still needs, wakeups without cause apart. */
  function Distance<T>(s: State<T>): int {
    ReceiverDistance(s.recv)
    + (if s.recv.Creating? then |s.buffer|
       else if s.workers == [] then 0
       else WorkerDistance(s.workers[|s.workers| - 1], |s.buffer|))
  }

  /** A step of the hand-off itself: no arrival of a message, no worker's later life, no wakeup without cause. */
  predicate Advances<T>(a: Action<T>) {
    !a.Receive? && !a.Exit? && !a.SpuriousWakeup?
  }

  lemma DistanceIsNatural<T>(s: State<T>)
    requires Inv(s)
    ensures Distance(s) >= 0
  {
  }

  lemma ReceiverComesCloser<T>(s: State<T>, a: Action<T>)
    requires Inv(s) && Enabled(s, a)
    requires a.Create? || a.LockMutex? || a.Test? || a.SpuriousWakeup? || a.Relock? || a.Reset? || a.Unlock?
    ensures if a.SpuriousWakeup? then Distance(Do(s, a)) == Distance(s) + 2 else Distance(Do(s, a)) < Distance(s)
  {
  }

  lemma WorkerComesCloser<T>(s: State<T>, a: Action<T>, i: nat)
    requires Inv(s) && Enabled(s, a)
    requires a == Start(i) || a == CopyUnit(i) || a == CopyDone(i) || a == Clear(i) || a == Signal(i) || a == Release(i)
    ensures Distance(Do(s, a)) < Distance(s)
  {
    hide Inv;
    ActiveIsLast(s, i);
  }

  lemma ExitChangesNothing<T>(s: State<T>, i: nat)
    requires Inv(s) && Enabled(s, Exit(i))
    ensures Distance(Do(s, Exit(i))) == Distance(s)
  {
  }

  /** Every step of a hand-off comes closer to its end; a wakeup without cause costs two steps. */
  lemma StepsComeCloser<T>(s: State<T>, a: Action<T>)
    requires Inv(s) && Enabled(s, a)
    ensures Advances(a) ==> Distance(Do(s, a)) < Distance(s)
    ensures a.Exit? ==> Distance(Do(s, a)) == Distance(s)
    ensures a.SpuriousWakeup? ==> Distance(Do(s, a)) == Distance(s) + 2
  {
    match a
    case Receive(_) =>
    case Exit(i) => ExitChangesNothing(s, i);
    case Start(i) => WorkerComesCloser(s, a, i);
    case CopyUnit(i) => WorkerComesCloser(s, a, i);
    case CopyDone(i) => WorkerComesCloser(s, a, i);
    case Clear(i) => WorkerComesCloser(s, a, i);
    case Signal(i) => WorkerComesCloser(s, a, i);
    case Release(i) => WorkerComesCloser(s, a, i);
    case _ => ReceiverComesCloser(s, a);
  }

  /** No deadlock and no lost wakeup: until the receiver is back, a step of the hand-off is possible. */
  lemma SomeStepAdvances<T>(s: State<T>) returns (a: Action<T>)
    requires Inv(s) && !s.recv.Receiving?
    ensures Enabled(s, a) && Advances(a)
  {
    var i := |s.workers| - 1;
    if s.recv.Creating? { return Create; }
    if s.recv.Testing? { return Test; }
    if s.recv.Resetting? { return Reset; }
    if s.recv.Unlocking? { return Unlock; }
    match s.workers[i].pc
    case Starting => return Start(i);
    case Copying => return if |s.workers[i].local| < |s.buffer| then CopyUnit(i) else CopyDone(i);
    case Clearing => return Clear(i);
    case Signalling => return Signal(i);
    case Releasing => return Release(i);
    case _ => return if s.recv.Locking? then LockMutex else Relock;
  }

  function CountAdvances<T>(run: seq<Action<T>>): nat {
    if run == [] then 0 else (if Advances(run[0]) then 1 else 0) + CountAdvances(run[1..])
  }

  function CountSpurious<T>(run: seq<Action<T>>): nat {
    if run == [] then 0 else (if run[0].SpuriousWakeup? then 1 else 0) + CountSpurious(run[1..])
  }

  /**
    However the steps interleave, one hand-off takes at most Distance steps and
    two more for each wakeup without cause.
  */
  lemma {:induction false} HandoffIsBounded<T>(s: State<T>, run: seq<Action<T>>)
    requires Inv(s) && Legal(s, run)
    requires forall k :: 0 <= k < |run| ==> !run[k].Receive?
    ensures Distance(After(s, run)) >= 0
    ensures CountAdvances(run) + Distance(After(s, run)) <= Distance(s) + 2 * CountSpurious(run)
    decreases |run|
  {
    DistanceIsNatural(s);
    if run != [] {
      StepsComeCloser(s, run[0]);
      StepKeepsInv(s, run[0]);
      HandoffIsBounded(Do(s, run[0]), run[1..]);
    }
  }

  /** From every reachable state the receiver can be released by the hand-off's own steps. */
  lemma {:induction false} ReceiverCanBeReleased<T>(s: State<T>) returns (run: seq<Action<T>>)
    requires Inv(s)
    ensures Legal(s, run) && After(s, run).recv.Receiving?
    ensures |run| <= Distance(s) && forall k :: 0 <= k < |run| ==> Advances(run[k])
    decreases Distance(s)
  {
    DistanceIsNatural(s);
    if s.recv.Receiving? {
      run := [];
    } else {
      var a := SomeStepAdvances(s);
      StepsComeCloser(s, a);
      StepKeepsInv(s, a);
      DistanceIsNatural(Do(s, a));
      var more := ReceiverCanBeReleased(Do(s, a));
      run := [a] + more;
      assert run[1..] == more;
    }
  }

  /** The same two facts for every reachable state. */
  lemma EveryHandoffEnds<T>(s: State<T>, before: seq<Action<T>>, after: seq<Action<T>>)
    returns (release: seq<Action<T>>)
    requires Initial(s) && Legal(s, before) && Legal(After(s, before), after)
    requires forall k :: 0 <= k < |after| ==> !after[k].Receive?
    ensures var t := After(s, before);
            && CountAdvances(after) <= Distance(t) + 2 * CountSpurious(after)
            && Legal(t, release) && After(t, release).recv.Receiving?
            && (forall k :: 0 <= k < |release| ==> Advances(release[k]))
            && Distance(t) <= 12 + |t.buffer|
  {
    InvAfter(s, before);
    HandoffIsBounded(After(s, before), after);
    release := ReceiverCanBeReleased(After(s, before));
  }

  // ---------- every message is served ----------

  lemma {:induction false} RunsJoin<T>(s: State<T>, a: seq<Action<T>>, b: seq<Action<T>>)
    requires Legal(s, a) && Legal(After(s, a), b)
    ensures Legal(s, a + b) && After(s, a + b) == After(After(s, a), b)
    decreases |a|
  {
    if a == [] {
      assert a + b == b;
    } else {
      assert (a + b)[1..] == a[1..] + b;
      RunsJoin(Do(s, a[0]), a[1..], b);
    }
  }

  lemma {:induction false} OnlyReceiveReceives<T>(s: State<T>, run: seq<Action<T>>)
    requires Legal(s, run) && forall k :: 0 <= k < |run| ==> Advances(run[k])
    ensures After(s, run).received == s.received
    decreases |run|
  {
    if run != [] {
      assert Advances(run[0]);
      OnlyReceiveReceives(Do(s, run[0]), run[1..]);
    }
  }

  /**
    Whatever messages arrive, the hand-off can take them all: some run receives
    them in order and ends with one worker for each, which has copied it and
    given the mutex back.
  */
  lemma {:induction false} EveryMessageCanBeServed<T>(s: State<T>, messages: seq<seq<T>>) returns (run: seq<Action<T>>)
    requires Initial(s)
    ensures Legal(s, run)
    ensures var t := After(s, run);
            && t.recv.Receiving? && t.received == messages && |t.workers| == |messages|
            && forall i :: 0 <= i < |messages| ==> Gone(t.workers[i]) && t.workers[i].local == messages[i]
    decreases |messages|
  {
    if messages == [] {
      run := [];
    } else {
      hide Inv, Gone;
      var n := |messages| - 1;
      var before := EveryMessageCanBeServed(s, messages[..n]);
      InvAfter(s, before);
      var more := ServeOne(After(s, before), messages[n]);
      RunsJoin(s, before, more);
      run := before + more;
      assert messages[..n] + [messages[n]] == messages;
      InvAfter(s, run);
      AllAreServed(After(s, run));
    }
  }

  /** One message more, from the receipt to the release of the receiver. */
  lemma ServeOne<T>(t: State<T>, m: seq<T>) returns (run: seq<Action<T>>)
    requires Inv(t) && t.recv.Receiving?
    ensures Legal(t, run) && After(t, run).recv.Receiving? && After(t, run).received == t.received + [m]
  {
    hide Inv;
    var a: Action<T> := Receive(m);
    StepKeepsInv(t, a);
    var release := ReceiverCanBeReleased(Do(t, a));
    OnlyReceiveReceives(Do(t, a), release);
    run := [a] + release;
    assert run[1..] == release;
  }

  /** With the receiver back, every worker has its message. */
  lemma AllAreServed<T>(t: State<T>)
    requires Inv(t) && t.recv.Receiving?
    ensures |t.workers| == |t.received|
    ensures forall i :: 0 <= i < |t.workers| ==> Gone(t.workers[i]) && t.workers[i].local == t.received[i]
  {
  }

  /** A waiter may wake at any time, whatever the others do. */
  lemma WaitersMayWake<T>(s: State<T>)
    requires s.recv.Waiting?
    ensures Legal(s, [SpuriousWakeup]) && After(s, [SpuriousWakeup]) == s.(recv := Waking)
  {
    var run: seq<Action<T>> := [SpuriousWakeup];
    assert run[1..] == [];
  }

  /** A worker that has its copy may end at any time, and nobody else notices. */
  lemma ServedWorkersMayExit<T>(s: State<T>, i: nat)
    requires At(s, i, Serving)
    ensures Legal(s, [Exit(i)]) && After(s, [Exit(i)]) == s.(workers := s.workers[i := s.workers[i].(pc := Exited)])
  {
    var run: seq<Action<T>> := [Exit(i)];
    assert run[1..] == [];
  }
}
