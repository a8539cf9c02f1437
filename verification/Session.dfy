/** src/viriditysessionmanager.cpp: the lifetime of sessions. Use counts change through the event queue of the
    session's thread, or at once for callers on that thread; times are in milliseconds. */
module Sessions {

  const DETACH_CHECK_INTERVAL := 1000

  datatype Call = IncrementUseCount | DecrementUseCount

  datatype Signal = Attached | Detached

  /** Holders are those who have acquired the session and not yet released it: through the queue, or on the
      session's own thread. */
  datatype Session = Session(
    useCount: int,
    attached: bool,
    detachTimerActive: bool,
    detachTimerStart: int,
    lastUsed: int,
    testingState: int,
    queue: seq<Call>,
    signals: seq<Signal>,
    queuedHolders: nat,
    directHolders: nat)

  // ---------- what a session does

  function Increment(s: Session, now: int): Session {
    var counted := s.(useCount := s.useCount + 1, lastUsed := now);
    if s.useCount == 0 && !s.attached then counted.(attached := true, signals := s.signals + [Attached]) else counted
  }

  function Decrement(s: Session, now: int): Session {
    s.(useCount := s.useCount - 1, detachTimerActive := true, detachTimerStart := now)
  }

  function Run(s: Session, call: Call, now: int): Session {
    match call
    case IncrementUseCount => Increment(s, now)
    case DecrementUseCount => Decrement(s, now)
  }

  /** The timer is single-shot, and every decrement starts it anew. */
  function DetachDeferTimerTimeout(s: Session): Session {
    var stopped := s.(detachTimerActive := false);
    if s.useCount == 0 then stopped.(attached := false, signals := s.signals + [Detached]) else stopped
  }

  predicate CanBeDisposed(s: Session) { s.useCount == 0 && s.testingState == 0 }

  /** Created by getNewSession: the caller's increment is on its way. */
  function NewSession(now: int): Session {
    Session(0, false, false, 0, now, 0, [IncrementUseCount], [], 1, 0)
  }

  datatype Action =
    | Acquire(direct: bool)
    | Release(direct: bool)
    | RunNext
    | DetachTimeout
    | Interact
    | TestBegins
    | TestEnds

  predicate CanAct(s: Session, a: Action, now: int) {
    match a
    case Acquire(_) => true
    case Release(direct) => if direct then s.directHolders > 0 else s.queuedHolders > 0
    case RunNext => s.queue != []
    case DetachTimeout => s.detachTimerActive && now >= s.detachTimerStart + DETACH_CHECK_INTERVAL
    case Interact => true
    case TestBegins => s.useCount > 0
    case TestEnds => s.testingState > 0
  }

  function Act(s: Session, a: Action, now: int): Session
    requires CanAct(s, a, now)
  {
    match a
    case Acquire(direct) =>
      if direct then Increment(s, now).(directHolders := s.directHolders + 1)
      else s.(queue := s.queue + [IncrementUseCount], queuedHolders := s.queuedHolders + 1)
    case Release(direct) =>
      if direct then Decrement(s, now).(directHolders := s.directHolders - 1)
      else s.(queue := s.queue + [DecrementUseCount], queuedHolders := s.queuedHolders - 1)
    case RunNext => Run(s.(queue := s.queue[1..]), s.queue[0], now)
    case DetachTimeout => DetachDeferTimerTimeout(s)
    case Interact => s.(lastUsed := now)
    case TestBegins => s.(testingState := s.testingState + 1)
    case TestEnds => s.(testingState := s.testingState - 1)
  }

  // ---------- counting

  function Delta(c: Call): int { if c.IncrementUseCount? then 1 else -1 }

  function Balance(queue: seq<Call>): int {
    if queue == [] then 0 else Delta(queue[0]) + Balance(queue[1..])
  }

  /** Running the queue from a count never takes it below zero. */
  predicate StaysAbove(count: int, queue: seq<Call>)
    decreases |queue|
  {
    count >= 0 && (queue != [] ==> StaysAbove(count + Delta(queue[0]), queue[1..]))
  }

  lemma {:induction false} BalanceAppend(queue: seq<Call>, c: Call)
    ensures Balance(queue + [c]) == Balance(queue) + Delta(c)
  {
    if queue == [] {
      assert queue + [c] == [c] && [c][1..] == [];
    } else {
      assert (queue + [c])[1..] == queue[1..] + [c];
      BalanceAppend(queue[1..], c);
    }
  }

  lemma {:induction false} StaysAboveAppend(count: int, queue: seq<Call>, c: Call)
    requires StaysAbove(count, queue) && count + Balance(queue) + Delta(c) >= 0
    ensures StaysAbove(count, queue + [c])
    decreases |queue|
  {
    if queue == [] {
      assert queue + [c] == [c] && [c][1..] == [];
    } else {
      assert (queue + [c])[1..] == queue[1..] + [c];
      StaysAboveAppend(count + Delta(queue[0]), queue[1..], c);
    }
  }

  ghost predicate Alternates(signals: seq<Signal>) {
    forall i :: 0 <= i < |signals| ==> signals[i] == if i % 2 == 0 then Attached else Detached
  }

  /** The count and the queue account for every holder, and the two signals take turns. */
  ghost predicate Inv(s: Session) {
    && s.useCount + Balance(s.queue) == s.queuedHolders + s.directHolders
    && StaysAbove(s.useCount - s.directHolders, s.queue)
    && s.testingState >= 0
    && Alternates(s.signals) && (s.attached <==> |s.signals| % 2 == 1)
    && (s.useCount > 0 ==> s.attached)
    && (s.attached && s.useCount == 0 ==> s.detachTimerActive)
    && (s.detachTimerActive ==> s.attached)
  }

  lemma NewSessionInv(now: int)
    ensures Inv(NewSession(now))
  {
    assert [IncrementUseCount][1..] == [];
  }

  lemma IncrementKeepsSignals(s: Session, now: int)
    requires Inv(s)
    ensures var n := Increment(s, now);
            Alternates(n.signals) && n.attached && |n.signals| % 2 == 1 && n.useCount == s.useCount + 1 > 0
  {
  }

  lemma AcquireKeepsInv(s: Session, direct: bool, now: int)
    requires Inv(s)
    ensures Inv(Act(s, Acquire(direct), now))
  {
    if direct {
      IncrementKeepsSignals(s, now);
    } else {
      BalanceAppend(s.queue, IncrementUseCount);
      StaysAboveAppend(s.useCount - s.directHolders, s.queue, IncrementUseCount);
    }
  }

  lemma ReleaseKeepsInv(s: Session, direct: bool, now: int)
    requires Inv(s) && CanAct(s, Release(direct), now)
    ensures Inv(Act(s, Release(direct), now))
  {
    if !direct {
      BalanceAppend(s.queue, DecrementUseCount);
      StaysAboveAppend(s.useCount - s.directHolders, s.queue, DecrementUseCount);
    }
  }

  lemma RunNextKeepsInv(s: Session, now: int)
    requires Inv(s) && s.queue != []
    ensures Inv(Act(s, RunNext, now))
  {
    if s.queue[0].IncrementUseCount? {
      IncrementKeepsSignals(s, now);
    }
  }

  lemma DetachKeepsInv(s: Session, now: int)
    requires Inv(s) && CanAct(s, DetachTimeout, now)
    ensures Inv(Act(s, DetachTimeout, now))
  {
  }

  /** Every action keeps the account, whatever is still queued. */
  lemma ActKeepsInv(s: Session, a: Action, now: int)
    requires Inv(s) && CanAct(s, a, now)
    ensures Inv(Act(s, a, now))
  {
    hide Alternates, Increment, Decrement, Run, DetachDeferTimerTimeout, Balance, StaysAbove;
    match a
    case Acquire(direct) => AcquireKeepsInv(s, direct, now);
    case Release(direct) => ReleaseKeepsInv(s, direct, now);
    case RunNext => RunNextKeepsInv(s, now);
    case DetachTimeout => DetachKeepsInv(s, now);
    case Interact =>
    case TestBegins =>
    case TestEnds =>
  }
}
