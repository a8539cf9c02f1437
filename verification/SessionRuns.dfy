/** src/viriditysessionmanager.cpp: look-ups, the grace mark and the sweeps that remove expired sessions, over whole
    runs. */
module SessionManagers {
  import opened Sessions

  type Id = string

  datatype Manager = Manager(now: int, sessionTimeout: nat, sessions: map<Id, Session>, grace: set<Id>)

  /** A sweep finds the session expired, unused and untested. */
  predicate Expired(m: Manager, id: Id) {
    id in m.sessions && CanBeDisposed(m.sessions[id]) && m.now - m.sessions[id].lastUsed > m.sessionTimeout
  }

  /** killExpiredSessions: an expired session loses its mark, and without a mark it is removed. */
  function KillExpiredSessions(m: Manager): Manager {
    m.(sessions := map id | id in m.sessions && !(Expired(m, id) && id !in m.grace) :: m.sessions[id],
       grace := set id | id in m.grace && !Expired(m, id))
  }

  /** getSession: an id that is there is marked. */
  function GetSession(m: Manager, id: Id): Manager {
    if id in m.sessions then m.(grace := m.grace + {id}) else m
  }

  datatype Event =
    | Time(d: nat)
    | Create(id: Id)
    | Lookup(id: Id)
    | AcquireSession(id: Id, direct: bool)
    | On(id: Id, action: Action)
    | Sweep

  predicate Enabled(m: Manager, e: Event) {
    match e
    case Create(id) => id !in m.sessions
    case On(id, action) => id in m.sessions && !action.Acquire? && CanAct(m.sessions[id], action, m.now)
    case _ => true
  }

  /** Creating a session sweeps first; acquiring one looks it up first. */
  function Step(m: Manager, e: Event): Manager
    requires Enabled(m, e)
  {
    match e
    case Time(d) => m.(now := m.now + d)
    case Create(id) =>
      var swept := KillExpiredSessions(m);
      swept.(sessions := swept.sessions[id := NewSession(m.now)])
    case Lookup(id) => GetSession(m, id)
    case AcquireSession(id, direct) =>
      var marked := GetSession(m, id);
      if id in m.sessions then marked.(sessions := m.sessions[id := Act(m.sessions[id], Acquire(direct), m.now)]) else marked
    case On(id, action) => m.(sessions := m.sessions[id := Act(m.sessions[id], action, m.now)])
    case Sweep => KillExpiredSessions(m)
  }

  ghost predicate IsRun(states: seq<Manager>, events: seq<Event>) {
    && |states| == |events| + 1 && states[0].sessions == map[] && states[0].grace == {}
    && forall k :: 0 <= k < |events| ==> Enabled(states[k], events[k]) && states[k + 1] == Step(states[k], events[k])
  }

  // ---------- use counts

  ghost predicate AllInv(m: Manager) {
    forall id :: id in m.sessions ==> Inv(m.sessions[id])
  }

  lemma StepKeepsInv(m: Manager, e: Event)
    requires AllInv(m) && Enabled(m, e)
    ensures AllInv(Step(m, e))
  {
    match e
    case Create(id) => NewSessionInv(m.now);
    case AcquireSession(id, direct) =>
      if id in m.sessions {
        ActKeepsInv(m.sessions[id], Acquire(direct), m.now);
      }
    case On(id, action) => ActKeepsInv(m.sessions[id], action, m.now);
    case _ =>
  }

  lemma {:induction false} RunKeepsInv(states: seq<Manager>, events: seq<Event>, k: nat)
    requires IsRun(states, events) && k < |states|
    ensures AllInv(states[k])
  {
    if k > 0 {
      RunKeepsInv(states, events, k - 1);
      StepKeepsInv(states[k - 1], events[k - 1]);
    }
  }

  /** In every state of every run: the count is never negative, it differs from the holders by what is queued, and
      a session in use is attached. */
  lemma UseCountsAccount(states: seq<Manager>, events: seq<Event>, k: nat, id: Id)
    requires IsRun(states, events) && k < |states| && id in states[k].sessions
    ensures var s := states[k].sessions[id];
            && s.useCount >= 0
            && s.useCount + Balance(s.queue) == s.queuedHolders + s.directHolders
            && (s.useCount > 0 ==> s.attached)
            && (s.attached && s.useCount == 0 ==> s.detachTimerActive)
            && Alternates(s.signals) && (s.attached <==> |s.signals| % 2 == 1)
  {
    RunKeepsInv(states, events, k);
    assert Inv(states[k].sessions[id]);
  }

  // ---------- sweeps

  predicate Sweeps(e: Event) { e.Sweep? || e.Create? }

  predicate LooksUp(m: Manager, e: Event, id: Id) {
    (e == Lookup(id) || (e.AcquireSession? && e.id == id)) && id in m.sessions
  }

  ghost predicate SweptBetween(states: seq<Manager>, events: seq<Event>, i: nat, k: nat, id: Id)
    requires |states| == |events| + 1 && k <= |events|
  {
    exists a :: i <= a < k && Sweeps(events[a]) && Expired(states[a], id)
  }

  /** A mark goes only in a sweep that finds the session expired. */
  lemma {:induction false} MarkStays(states: seq<Manager>, events: seq<Event>, i: nat, k: nat, id: Id)
    requires IsRun(states, events) && i <= k < |states| && id in states[i].grace
    ensures id in states[k].grace || SweptBetween(states, events, i, k, id)
    decreases k - i
  {
    if i < k {
      MarkStays(states, events, i, k - 1, id);
      if !SweptBetween(states, events, i, k - 1, id) {
        var e := events[k - 1];
        assert states[k] == Step(states[k - 1], e);
        if id !in states[k].grace {
          assert Sweeps(e) && Expired(states[k - 1], id);
        }
      }
    }
  }

  /** Between any look-up of a session and its removal, two sweeps find it expired, unused and untested: the first
      takes the mark, and the second the session. */
  lemma RemovalTakesTwoSweeps(states: seq<Manager>, events: seq<Event>, i: nat, k: nat, id: Id)
    requires IsRun(states, events) && i < k < |events| && LooksUp(states[i], events[i], id)
    requires id in states[k].sessions && id !in states[k + 1].sessions
    ensures Sweeps(events[k]) && Expired(states[k], id)
    ensures SweptBetween(states, events, i + 1, k, id)
  {
    assert states[i + 1] == Step(states[i], events[i]);
    assert states[k + 1] == Step(states[k], events[k]);
    MarkStays(states, events, i + 1, k, id);
  }

  /** A session that is removed has no holder, unless an increment is still in its queue. */
  lemma RemovedSessionHolders(states: seq<Manager>, events: seq<Event>, k: nat, id: Id)
    requires IsRun(states, events) && k < |events|
    requires id in states[k].sessions && id !in states[k + 1].sessions
    ensures var s := states[k].sessions[id];
            && s.directHolders == 0 && s.queuedHolders == Balance(s.queue)
            && (s.queuedHolders > 0 ==> IncrementUseCount in s.queue)
  {
    var s := states[k].sessions[id];
    assert states[k + 1] == Step(states[k], events[k]);
    RunKeepsInv(states, events, k);
    assert Inv(s);
    if IncrementUseCount !in s.queue {
      NoIncrements(s.queue);
    }
  }

  lemma {:induction false} NoIncrements(queue: seq<Call>)
    requires IncrementUseCount !in queue
    ensures Balance(queue) <= 0
  {
    if queue != [] {
      assert queue[0] in queue;
      NoIncrements(queue[1..]);
    }
  }

  // ---------- debouncing

  /** The same session at two moments: not removed in between. */
  ghost predicate Lives(states: seq<Manager>, i: nat, k: nat, id: Id)
    requires k < |states|
  {
    forall j :: i <= j <= k ==> id in states[j].sessions
  }

  /** A step that starts the timer of a session starts it now; any other step lets its count only grow. */
  ghost predicate CountsOn(m: Manager, n: Manager, id: Id)
    requires id in m.sessions && id in n.sessions
  {
    var before, after := m.sessions[id], n.sessions[id];
    || (after.useCount >= before.useCount && after.detachTimerStart == before.detachTimerStart)
    || after.detachTimerStart == m.now
  }

  lemma StepOnSession(m: Manager, e: Event, id: Id)
    requires Enabled(m, e) && id in m.sessions && id in Step(m, e).sessions
    ensures CountsOn(m, Step(m, e), id)
  {
  }

  lemma RunStepOnSession(states: seq<Manager>, events: seq<Event>, k: nat, id: Id)
    requires IsRun(states, events) && 0 < k < |states| && id in states[k - 1].sessions && id in states[k].sessions
    ensures CountsOn(states[k - 1], states[k], id)
  {
    hide CountsOn;
    StepOnSession(states[k - 1], events[k - 1], id);
  }

  /** Since the moment at which the timer was last started, the count has not gone down. */
  lemma {:induction false} CountSinceStart(states: seq<Manager>, events: seq<Event>, i: nat, k: nat, id: Id)
    requires IsRun(states, events) && i <= k < |states| && Lives(states, i, k, id)
    requires states[i].now > states[k].sessions[id].detachTimerStart
    ensures states[i].sessions[id].useCount <= states[k].sessions[id].useCount
    decreases k - i
  {
    hide IsRun;
    if i < k {
      RunStepOnSession(states, events, k, id);
      TimeAdvances(states, events, i, k - 1);
      CountSinceStart(states, events, i, k - 1, id);
    }
  }

  lemma {:induction false} TimeAdvances(states: seq<Manager>, events: seq<Event>, i: nat, k: nat)
    requires IsRun(states, events) && i <= k < |states|
    ensures states[i].now <= states[k].now
    decreases k - i
  {
    if i < k {
      TimeAdvances(states, events, i, k - 1);
      assert states[k] == Step(states[k - 1], events[k - 1]);
    }
  }

  /** detached is emitted only when the count was zero throughout the defer interval before it. */
  lemma DetachedAfterQuiet(states: seq<Manager>, events: seq<Event>, i: nat, k: nat, id: Id)
    requires IsRun(states, events) && i <= k < |events| && events[k] == On(id, DetachTimeout)
    requires Lives(states, i, k, id) && states[k].sessions[id].useCount == 0
    requires states[i].now > states[k].now - DETACH_CHECK_INTERVAL
    ensures states[i].sessions[id].useCount == 0
    ensures states[k + 1].sessions[id].signals == states[k].sessions[id].signals + [Detached]
    ensures states[k].sessions[id].attached && !states[k + 1].sessions[id].attached
  {
    assert Enabled(states[k], events[k]) && states[k + 1] == Step(states[k], events[k]);
    CountSinceStart(states, events, i, k, id);
    RunKeepsInv(states, events, i);
    RunKeepsInv(states, events, k);
    assert Inv(states[i].sessions[id]) && Inv(states[k].sessions[id]);
  }
}
