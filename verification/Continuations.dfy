/** What may happen to the frame protocol from a state on: its own steps, image loads that fail, and further requests. */
module Continuations {
  import opened Images
  import opened Protocol
  import opened ProtocolSafety

  datatype Happening =
    | Usual(event: Event)
    | LoadFails(i: nat)
    | Asks

  /** Whether image loads may fail, whether the page may ask for full updates of its own accord, and whether a frame
      that brings a page back shows a scene without all-zero pixels. */
  datatype Rules = Rules(failures: bool, requests: bool, solid: bool)

  const PLAIN := Rules(false, false, false)
  const ASKING := Rules(false, true, false)
  const SOLID := Rules(false, false, true)
  const FAILING := Rules(true, false, true)

  /** Only a frame with a full-update mark, taken while the protocol is out of its invariant, has to be solid. */
  ghost predicate Solid(s: System, e: Event) {
    e.Take? && s.server.fullUpdateRequested && !Inv(s) ==> HasNoZeroPixel(e.work)
  }

  predicate Possible(s: System, h: Happening) {
    match h
    case Usual(e) => Enabled(s, e)
    case LoadFails(i) => i < |s.client.loads|
    case Asks => true
  }

  ghost predicate May(r: Rules, s: System, h: Happening) {
    && Possible(s, h)
    && match h
       case Usual(e) => Faithful(s, e) && (r.solid ==> Solid(s, e))
       case LoadFails(_) => r.failures
       case Asks => r.requests
  }

  /** The page calls requestFullUpdate(): from now on it ignores everything but a full update. */
  function PageRequests(s: System): System {
    s.(client := s.client.(waitingForFullUpdate := true), toServer := s.toServer + [RequestFullUpdate(false)])
  }

  function LoadFailed(s: System, i: nat): System
    requires i < |s.client.loads|
  {
    var (client, sent) := ImageFailed(s.client, i);
    s.(client := client, toServer := s.toServer + sent)
  }

  function Next(s: System, h: Happening): System
    requires Possible(s, h)
  {
    match h
    case Usual(e) => Step(s, e)
    case LoadFails(i) => LoadFailed(s, i)
    case Asks => PageRequests(s)
  }

  ghost predicate Happens(r: Rules, s: System, h: Happening, t: System) {
    May(r, s, h) && t == Next(s, h)
  }

  ghost predicate IsPath(r: Rules, states: seq<System>, hs: seq<Happening>, s: System, t: System) {
    && |states| == |hs| + 1 && states[0] == s && states[|hs|] == t
    && forall k :: 0 <= k < |hs| ==> Happens(r, states[k], hs[k], states[k + 1])
  }

  ghost predicate Reaches(r: Rules, s: System, t: System) {
    exists states: seq<System>, hs: seq<Happening> :: IsPath(r, states, hs, s, t)
  }

  lemma ReachesItself(r: Rules, s: System)
    ensures Reaches(r, s, s)
  {
    assert IsPath(r, [s], [], s, s);
  }

  lemma ReachesAfter(r: Rules, s: System, h: Happening, m: System, t: System)
    requires Happens(r, s, h, m) && Reaches(r, m, t)
    ensures Reaches(r, s, t)
  {
    hide Happens;
    var states: seq<System>, hs: seq<Happening> :| IsPath(r, states, hs, m, t);
    var longer, more := [s] + states, [h] + hs;
    forall k | 0 <= k < |more| ensures Happens(r, longer[k], more[k], longer[k + 1]) {
      if k > 0 {
        assert longer[k] == states[k - 1] && more[k] == hs[k - 1];
      }
    }
    assert IsPath(r, longer, more, s, t);
  }

  lemma PathTail(r: Rules, states: seq<System>, hs: seq<Happening>, s: System, t: System)
    requires IsPath(r, states, hs, s, t) && hs != []
    ensures Happens(r, s, hs[0], states[1]) && IsPath(r, states[1..], hs[1..], states[1], t)
  {
    hide Happens;
    forall k | 0 <= k < |hs[1..]| ensures Happens(r, states[1..][k], hs[1..][k], states[1..][k + 1]) {
      assert states[1..][k] == states[k + 1] && hs[1..][k] == hs[k + 1];
    }
    assert Happens(r, states[0], hs[0], states[1]);
  }

  lemma {:induction false} PathThenReaches(r: Rules, states: seq<System>, hs: seq<Happening>, s: System, m: System, t: System)
    requires IsPath(r, states, hs, s, m) && Reaches(r, m, t)
    ensures Reaches(r, s, t)
    decreases |hs|
  {
    hide Happens, Reaches;
    if hs != [] {
      PathTail(r, states, hs, s, m);
      PathThenReaches(r, states[1..], hs[1..], states[1], m, t);
      ReachesAfter(r, s, hs[0], states[1], t);
    }
  }

  lemma ReachesThrough(r: Rules, s: System, m: System, t: System)
    requires Reaches(r, s, m) && Reaches(r, m, t)
    ensures Reaches(r, s, t)
  {
    var states: seq<System>, hs: seq<Happening> :| IsPath(r, states, hs, s, m);
    PathThenReaches(r, states, hs, s, m, t);
  }

  /** More freedom leaves everything reachable that was. */
  lemma ReachesMore(r: Rules, more: Rules, s: System, t: System)
    requires Reaches(r, s, t)
    requires (r.failures ==> more.failures) && (r.requests ==> more.requests) && (more.solid ==> r.solid)
    ensures Reaches(more, s, t)
  {
    var states: seq<System>, hs: seq<Happening> :| IsPath(r, states, hs, s, t);
    forall k | 0 <= k < |hs| ensures Happens(more, states[k], hs[k], states[k + 1]) {
      assert Happens(r, states[k], hs[k], states[k + 1]);
    }
    assert IsPath(more, states, hs, s, t);
  }

  ghost predicate KeptBy(r: Rules, inv: System -> bool) {
    forall s, h, t :: inv(s) && Happens(r, s, h, t) ==> inv(t)
  }

  lemma {:induction false} PathKeeps(r: Rules, inv: System -> bool, states: seq<System>, hs: seq<Happening>, s: System, t: System)
    requires IsPath(r, states, hs, s, t) && KeptBy(r, inv) && inv(s)
    ensures inv(t)
    decreases |hs|
  {
    hide Happens;
    if hs != [] {
      PathTail(r, states, hs, s, t);
      PathKeeps(r, inv, states[1..], hs[1..], states[1], t);
    }
  }

  /** What every happening keeps, every continuation keeps. */
  lemma ContinuationKeeps(r: Rules, inv: System -> bool, s: System, t: System)
    requires KeptBy(r, inv) && inv(s) && Reaches(r, s, t)
    ensures inv(t)
  {
    var states: seq<System>, hs: seq<Happening> :| IsPath(r, states, hs, s, t);
    PathKeeps(r, inv, states, hs, s, t);
  }
}
