/** src/viriditysessionmanager.cpp: sessions and their manager as objects. Every method is tied to the function with
    the same name; who holds a session is not part of the objects. */
module SessionManagerObjects {
  import opened Sessions
  import M = SessionManagers

  class ViriditySession {
    var useCount: int
    var attached: bool
    var detachTimerActive: bool
    var detachTimerStart: int
    var lastUsed: int
    var testingState: int
    var queue: seq<Call>
    var signals: seq<Signal>

    function State(): Session
      reads this
    {
      Session(useCount, attached, detachTimerActive, detachTimerStart, lastUsed, testingState, queue, signals, 0, 0)
    }

    constructor (now: int)
      ensures State() == NewSession(now).(queue := [], queuedHolders := 0)
    {
      useCount, attached, detachTimerActive, detachTimerStart, lastUsed, testingState := 0, false, false, 0, now, 0;
      queue, signals := [], [];
    }

    method ResetLastUsed(now: int)
      modifies this`lastUsed
      ensures lastUsed == now
    {
      lastUsed := now;
    }

    method IncrementUseCount(now: int)
      modifies this`useCount, this`lastUsed, this`attached, this`signals
      ensures State() == Increment(old(State()), now)
    {
      var useCountWasZero := useCount == 0;
      useCount := useCount + 1;
      ResetLastUsed(now);
      if useCountWasZero && !attached {
        attached := true;
        signals := signals + [Attached];
      }
    }

    method DecrementUseCount(now: int)
      modifies this`useCount, this`detachTimerActive, this`detachTimerStart
      ensures State() == Decrement(old(State()), now)
    {
      useCount := useCount - 1;
      detachTimerActive := true;
      detachTimerStart := now;
    }

    /** The single-shot timer has run out. */
    method DetachDeferTimerTimeout()
      modifies this`detachTimerActive, this`attached, this`signals
      ensures State() == Sessions.DetachDeferTimerTimeout(old(State()))
    {
      detachTimerActive := false;
      if useCount == 0 {
        attached := false;
        signals := signals + [Detached];
      }
    }

    /** The event loop of the session's thread. */
    method RunNext(now: int)
      requires queue != []
      modifies this
      ensures State() == Act(old(State()), Action.RunNext, now)
    {
      var call := queue[0];
      queue := queue[1..];
      match call
      case IncrementUseCount => IncrementUseCount(now);
      case DecrementUseCount => DecrementUseCount(now);
    }
  }

  class SessionManager {
    var sessionTimeout: nat
    var sessions: map<M.Id, ViriditySession>
    var grace: set<M.Id>

    ghost function View(now: int): M.Manager
      reads this, sessions.Values
    {
      M.Manager(now, sessionTimeout, map id | id in sessions :: sessions[id].State(), grace)
    }

    constructor (sessionTimeout: nat)
      ensures this.sessionTimeout == sessionTimeout && sessions == map[] && grace == {}
    {
      this.sessionTimeout, sessions, grace := sessionTimeout, map[], {};
    }

    /** getSession. */
    method GetSession(id: M.Id) returns (session: ViriditySession?)
      modifies this`grace
      ensures forall now :: View(now) == M.GetSession(old(View(now)), id)
      ensures grace == old(grace) + (if id in sessions then {id} else {})
      ensures session == if id in sessions then sessions[id] else null
    {
      session := null;
      if id in sessions {
        if id !in grace {
          grace := grace + {id};
        }
        session := sessions[id];
      }
    }

    /** acquireSession: marks, and leaves an increment in the queue of the session's thread. */
    method AcquireSession(id: M.Id) returns (session: ViriditySession?)
      modifies this`grace, sessions.Values
      ensures session == if id in sessions then sessions[id] else null
      ensures grace == old(grace) + (if id in sessions then {id} else {})
      ensures session != null ==> session.State() == old(sessions[id].State()).(queue := old(sessions[id].queue) + [IncrementUseCount])
      ensures forall s :: s in sessions.Values && s != session ==> unchanged(s)
    {
      session := GetSession(id);
      if session != null {
        assert sessions[id] in sessions.Values;
        session.queue := session.queue + [IncrementUseCount];
      }
    }

    method ReleaseSession(session: ViriditySession?)
      modifies session
      ensures session != null ==> session.State() == old(session.State()).(queue := old(session.queue) + [DecrementUseCount])
    {
      if session != null {
        session.queue := session.queue + [DecrementUseCount];
      }
    }

    method IsExpired(session: ViriditySession, now: int) returns (expired: bool)
      ensures expired == (CanBeDisposed(session.State()) && now - session.lastUsed > sessionTimeout)
    {
      expired := session.useCount == 0 && session.testingState == 0 && now - session.lastUsed > sessionTimeout;
    }

    /** killExpiredSessions: one sweep over the sessions, in any order. */
    method KillExpiredSessions(now: int)
      modifies this`sessions, this`grace
      ensures View(now) == M.KillExpiredSessions(old(View(now)))
      ensures forall id :: id in sessions ==> id in old(sessions) && sessions[id] == old(sessions)[id]
    {
      ghost var m := View(now);
      var all := sessions;
      var todo := sessions.Keys;
      while todo != {}
        invariant todo <= all.Keys
        invariant forall id :: id in sessions <==> id in all && (id in todo || !M.Expired(m, id) || id in m.grace)
        invariant forall id :: id in sessions ==> sessions[id] == all[id]
        invariant forall id :: id in grace <==> id in m.grace && (id in todo || !M.Expired(m, id))
        decreases |todo|
      {
        var id :| id in todo;
        todo := todo - {id};
        var expired := IsExpired(all[id], now);
        assert m.sessions[id] == all[id].State();
        assert expired == M.Expired(m, id);
        if expired {
          if id in grace {
            grace := grace - {id};
          } else {
            sessions := sessions - {id};
          }
        }
      }
      SweptView(m, now);
    }

    /** The sessions and marks that are left are those of the specification. */
    lemma SweptView(m: M.Manager, now: int)
      requires m.now == now && m.sessionTimeout == sessionTimeout
      requires forall id :: id in sessions <==> id in m.sessions && (!M.Expired(m, id) || id in m.grace)
      requires forall id :: id in sessions ==> sessions[id].State() == m.sessions[id]
      requires forall id :: id in grace <==> id in m.grace && !M.Expired(m, id)
      ensures View(now) == M.KillExpiredSessions(m)
    {
      var after := M.KillExpiredSessions(m);
      assert View(now).sessions.Keys == after.sessions.Keys;
      assert View(now).sessions == after.sessions;
      assert View(now).grace == after.grace;
    }

    method Register(id: M.Id, session: ViriditySession, ghost now: int)
      modifies this`sessions
      ensures sessions == old(sessions)[id := session]
      ensures View(now) == old(View(now)).(sessions := old(View(now)).sessions[id := session.State()])
    {
      ghost var m := View(now);
      sessions := sessions[id := session];
      assert View(now).sessions == m.sessions[id := session.State()];
    }

    static method CreateSession(now: int) returns (session: ViriditySession)
      ensures fresh(session) && session.State() == NewSession(now).(queuedHolders := 0)
    {
      session := new ViriditySession(now);
      session.queue := session.queue + [IncrementUseCount];
    }

    /** getNewSession: a sweep, and then the session with its creator's increment on the way. */
    method GetNewSession(id: M.Id, now: int) returns (session: ViriditySession)
      requires id !in sessions
      modifies this`sessions, this`grace
      ensures fresh(session) && id in sessions && sessions[id] == session
      ensures session.State() == NewSession(now).(queuedHolders := 0)
      ensures forall other :: other in sessions && other != id ==> other in old(sessions) && sessions[other] == old(sessions)[other]
      ensures var swept := M.KillExpiredSessions(old(View(now)));
              View(now) == swept.(sessions := swept.sessions[id := NewSession(now).(queuedHolders := 0)])
    {
      hide M.KillExpiredSessions;
      KillExpiredSessions(now);
      session := CreateSession(now);
      Register(id, session, now);
    }
  }
}
