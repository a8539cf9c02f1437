/** The lifetime of a session told by the events alone: who holds it, when it was used last, and which sweep removes it. */
module SessionUses {
  import opened Sessions
  import opened SessionManagers

  // ---------- the events of one session

  /** The events that count as a use: the session is created, an increment of its count runs, the page interacts. */
  predicate Uses(m: Manager, e: Event, id: Id) {
    match e
    case Create(other) => other == id
    case AcquireSession(other, direct) => other == id && direct && id in m.sessions
    case On(other, action) =>
      other == id && id in m.sessions &&
      (action.Interact? || (action.RunNext? && m.sessions[id].queue != [] && m.sessions[id].queue[0].IncrementUseCount?))
    case _ => false
  }

  /** What an event adds to the count of a session that goes on living. */
  function Counted(m: Manager, e: Event, id: Id): int {
    match e
    case AcquireSession(other, direct) => if other == id && direct && id in m.sessions then 1 else 0
    case On(other, Release(direct)) => if other == id && direct then -1 else 0
    case On(other, RunNext) => if other == id && id in m.sessions && m.sessions[id].queue != [] then Delta(m.sessions[id].queue[0]) else 0
    case _ => 0
  }

  /** What it adds to the number of holders: the one who creates a session is the first. */
  function Holding(m: Manager, e: Event, id: Id): int {
    match e
    case AcquireSession(other, _) => if other == id && id in m.sessions then 1 else 0
    case On(other, Release(_)) => if other == id then -1 else 0
    case _ => 0
  }

  function Testing(e: Event, id: Id): int {
    if e == On(id, TestBegins) then 1 else if e == On(id, TestEnds) then -1 else 0
  }

  /** The three accounts of a session since it was created. */
  datatype Account = Account(count: int, holders: int, tests: int) {
    function After(m: Manager, e: Event, id: Id): Account {
      if e == Create(id) then Account(0, 1, 0)
      else Account(count + Counted(m, e, id), holders + Holding(m, e, id), tests + Testing(e, id))
    }
  }

  ghost function AccountOf(states: seq<Manager>, events: seq<Event>, k: nat, id: Id): Account
    requires k <= |events| < |states|
  {
    if k == 0 then Account(0, 0, 0) else AccountOf(states, events, k - 1, id).After(states[k - 1], events[k - 1], id)
  }

  ghost predicate Agrees(s: Session, a: Account) {
    && s.useCount == a.count && s.testingState == a.tests
    && s.queuedHolders + s.directHolders == a.holders
  }

  lemma StepAgrees(m: Manager, e: Event, id: Id, a: Account)
    requires Enabled(m, e) && id in Step(m, e).sessions
    requires id in m.sessions ==> Agrees(m.sessions[id], a)
    ensures Agrees(Step(m, e).sessions[id], a.After(m, e, id))
  {
  }

  /** In every state of every run the session's counters are what the events say. */
  lemma {:induction false} CountersAgree(states: seq<Manager>, events: seq<Event>, k: nat, id: Id)
    requires IsRun(states, events) && k < |states| && id in states[k].sessions
    ensures Agrees(states[k].sessions[id], AccountOf(states, events, k, id))
  {
    if k > 0 {
      if id in states[k - 1].sessions {
        CountersAgree(states, events, k - 1, id);
      }
      StepAgrees(states[k - 1], events[k - 1], id, AccountOf(states, events, k - 1, id));
    }
  }

  /** Every holder is counted, or will be when the queue has run. */
  lemma HoldersAreCounted(states: seq<Manager>, events: seq<Event>, k: nat, id: Id)
    requires IsRun(states, events) && k < |states| && id in states[k].sessions
    ensures var s, a := states[k].sessions[id], AccountOf(states, events, k, id);
            s.useCount == a.count >= 0 && s.useCount + Balance(s.queue) == a.holders >= 0
  {
    CountersAgree(states, events, k, id);
    RunKeepsInv(states, events, k);
    assert Inv(states[k].sessions[id]);
  }

  /** A session is there as soon as it is created, held by its creator, whose increment is on the way; nothing else makes it. */
  lemma CreatedOnly(m: Manager, e: Event, id: Id)
    requires Enabled(m, e) && id !in m.sessions
    ensures id in Step(m, e).sessions <==> e == Create(id)
    ensures e == Create(id) ==>
              Step(m, e).sessions[id].queue == [IncrementUseCount] && Agrees(Step(m, e).sessions[id], Account(0, 1, 0))
  {
  }

  // ---------- the last use

  ghost predicate UsedAt(states: seq<Manager>, events: seq<Event>, j: nat, id: Id)
    requires j < |events| < |states|
  {
    Uses(states[j], events[j], id)
  }

  /** A use that is not longer ago than the given time. */
  ghost predicate UsedWithin(states: seq<Manager>, events: seq<Event>, k: nat, id: Id, time: nat)
    requires k <= |events| < |states|
  {
    exists j :: 0 <= j < k && UsedAt(states, events, j, id) && states[k].now - states[j].now <= time
  }

  ghost predicate LastUse(states: seq<Manager>, events: seq<Event>, k: nat, id: Id, time: int)
    requires k <= |events| < |states|
  {
    && (exists j :: 0 <= j < k && UsedAt(states, events, j, id) && states[j].now == time)
    && forall j :: 0 <= j < k && UsedAt(states, events, j, id) ==> states[j].now <= time
  }

  lemma StepRenews(m: Manager, e: Event, id: Id)
    requires Enabled(m, e) && id in Step(m, e).sessions
    ensures id !in m.sessions ==> Uses(m, e, id)
    ensures Step(m, e).sessions[id].lastUsed == if Uses(m, e, id) then m.now else m.sessions[id].lastUsed
  {
  }

  /** lastUsed is the time of the last use. */
  lemma {:induction false} LastUsedIsLastUse(states: seq<Manager>, events: seq<Event>, k: nat, id: Id)
    requires IsRun(states, events) && k < |states| && id in states[k].sessions
    ensures LastUse(states, events, k, id, states[k].sessions[id].lastUsed)
  {
    hide Uses, Step, Enabled;
    if k > 0 {
      StepRenews(states[k - 1], events[k - 1], id);
      if UsedAt(states, events, k - 1, id) {
        forall j | 0 <= j < k ensures states[j].now <= states[k - 1].now {
          TimeAdvances(states, events, j, k - 1);
        }
      } else {
        LastUsedIsLastUse(states, events, k - 1, id);
      }
    }
  }

  // ---------- removal

  lemma {:induction false} TimeoutStays(states: seq<Manager>, events: seq<Event>, k: nat)
    requires IsRun(states, events) && k < |states|
    ensures states[k].sessionTimeout == states[0].sessionTimeout
  {
    if k > 0 {
      TimeoutStays(states, events, k - 1);
      assert states[k] == Step(states[k - 1], events[k - 1]);
    }
  }

  /** Not in use, not under test, and not used within the timeout. */
  ghost predicate Idle(states: seq<Manager>, events: seq<Event>, k: nat, id: Id)
    requires k <= |events| < |states|
  {
    && id in states[k].sessions
    && AccountOf(states, events, k, id).count == 0 && AccountOf(states, events, k, id).tests == 0
    && !UsedWithin(states, events, k, id, states[0].sessionTimeout)
  }

  lemma ExpiredIsIdle(states: seq<Manager>, events: seq<Event>, k: nat, id: Id)
    requires IsRun(states, events) && k < |states|
    ensures Expired(states[k], id) <==> Idle(states, events, k, id)
  {
    if id in states[k].sessions {
      CountersAgree(states, events, k, id);
      LastUsedIsLastUse(states, events, k, id);
      TimeoutStays(states, events, k);
    }
  }

  /** A look-up after which no sweep has found the session idle. */
  ghost predicate Spared(states: seq<Manager>, events: seq<Event>, j: nat, k: nat, id: Id)
    requires j < k <= |events| < |states|
  {
    LooksUp(states[j], events[j], id) && forall a :: j < a < k && Sweeps(events[a]) ==> !Idle(states, events, a, id)
  }

  lemma {:induction false} MarkedIsSpared(states: seq<Manager>, events: seq<Event>, k: nat, id: Id)
    requires IsRun(states, events) && k < |states|
    ensures id in states[k].grace <==> exists j :: 0 <= j < k && Spared(states, events, j, k, id)
  {
    hide Idle, Step, Enabled, Expired, LooksUp;
    if k > 0 {
      var e := events[k - 1];
      MarkedIsSpared(states, events, k - 1, id);
      ExpiredIsIdle(states, events, k - 1, id);
      StepMarks(states[k - 1], e, id);
      forall j | 0 <= j < k - 1
        ensures Spared(states, events, j, k, id) <==>
                Spared(states, events, j, k - 1, id) && !(Sweeps(e) && Idle(states, events, k - 1, id))
      {
      }
      assert Spared(states, events, k - 1, k, id) <==> LooksUp(states[k - 1], e, id);
      if id in states[k].grace && !LooksUp(states[k - 1], e, id) {
        var j :| 0 <= j < k - 1 && Spared(states, events, j, k - 1, id);
        assert Spared(states, events, j, k, id);
      }
    }
  }

  lemma StepMarks(m: Manager, e: Event, id: Id)
    requires Enabled(m, e)
    ensures id in Step(m, e).grace <==> LooksUp(m, e, id) || (id in m.grace && !(Sweeps(e) && Expired(m, id)))
  {
  }

  /** Which sweep removes a session: one that finds it idle, when every look-up of it was followed by another sweep
      that had found it idle. Nothing else removes it. */
  lemma RemovedExactly(states: seq<Manager>, events: seq<Event>, k: nat, id: Id)
    requires IsRun(states, events) && k < |events| && id in states[k].sessions
    ensures id !in states[k + 1].sessions <==>
            && Sweeps(events[k]) && Idle(states, events, k, id)
            && forall j :: 0 <= j < k ==> !Spared(states, events, j, k, id)
  {
    assert Enabled(states[k], events[k]) && states[k + 1] == Step(states[k], events[k]);
    MarkedIsSpared(states, events, k, id);
    ExpiredIsIdle(states, events, k, id);
  }

  /** In the session timeout before a removal the session was not created, no increment of it ran, nobody acquired it
      directly and the page did not interact. */
  lemma RemovedAfterQuiet(states: seq<Manager>, events: seq<Event>, j: nat, k: nat, id: Id)
    requires IsRun(states, events) && j < k < |events| && UsedAt(states, events, j, id)
    requires id in states[k].sessions && id !in states[k + 1].sessions
    ensures Sweeps(events[k]) && states[k].now - states[j].now > states[0].sessionTimeout
  {
    RemovedExactly(states, events, k, id);
  }

  /** No session stays for ever: one that is neither in use nor under test is gone after the timeout and two sweeps. */
  lemma UnusedGoes(m: Manager, id: Id, d: nat)
    requires id in m.sessions && CanBeDisposed(m.sessions[id]) && m.now + d - m.sessions[id].lastUsed > m.sessionTimeout
    ensures Enabled(m, Time(d)) && Enabled(Step(m, Time(d)), Sweep)
    ensures var swept := Step(Step(m, Time(d)), Sweep);
            id !in swept.grace && (id in swept.sessions ==> Enabled(swept, Sweep) && id !in Step(swept, Sweep).sessions)
  {
  }
}
