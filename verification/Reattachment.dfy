/** A page that comes back after its connection was lost: src/display/graphicsscenedisplaymanager.cpp, lines 217 to 228. */
module Reattachment {
  import opened Images
  import opened ImageAux
  import opened Canvas
  import opened OpTools
  import opened Protocol
  import opened ProtocolSafety
  import opened FullUpdates
  import opened Continuations
  import opened Recovery

  /** Nothing is on its way to the page, and the page has at most answers in its queue; its canvases may show anything,
      its images may be loading, and any of them may have failed. */
  ghost predicate PageLost(s: System) {
    s.toClient == [] && SameSizes(s) && forall m :: m in s.toServer ==> m.Ready?
  }

  /** What a server that may send has kept: no patches, and a blank buffer while a full update is pending. */
  ghost predicate ServerSound(s: System) {
    s.server.clientReady ==> s.server.patches == map[] && (s.server.fullUpdateRequested ==> AllZero(s.server.work))
  }

  /** A queued answer arrives first; then the page attaches again, which the server takes as a forced request. */
  function Reattached(s: System): System {
    var server := if Ready in s.toServer then ClientReady(s.server) else s.server;
    s.(toServer := [], server := FullUpdateRequested(server, true, Zero(s.server.work)))
  }

  /** The server does not ignore the request: no full update is pending that waits for an answer. */
  predicate Heeds(s: System) {
    Ready in s.toServer || !(s.server.fullUpdateRequested && !s.server.clientReady)
  }

  /** The connection is lost; page is the old page or a new one, and queue is what it sends when it comes back. */
  function Dropped(s: System, page: Client, queue: seq<ClientMessage>): System {
    s.(client := page, toClient := [], toServer := queue)
  }

  lemma ZeroIsAllZero(i: Image)
    ensures AllZero(Zero(i))
  {
  }

  lemma StepKeepsServerSound(s: System, e: Event)
    requires ServerSound(s) && Enabled(s, e) && Faithful(s, e)
    ensures ServerSound(Step(s, e))
  {
    hide Encodes, MessagesUpTo, Zero;
    match e
    case Damage =>
    case Timer =>
    case Take(ops, work, large) =>
      if |ops| == 0 {
        EmptyEncoding(s.server.work, work);
      }
    case Deliver =>
    case Fetch(i) =>
    case Loaded(i) =>
    case Answer =>
      ZeroIsAllZero(s.server.work);
  }

  lemma HappeningKeepsServerSound(r: Rules, s: System, h: Happening, t: System)
    requires ServerSound(s) && Happens(r, s, h, t)
    ensures ServerSound(t)
  {
    hide Step, Faithful;
    if h.Usual? {
      StepKeepsServerSound(s, h.event);
    }
  }

  /** The server stays sound over every run, with failures, requests, lost connections and pages that come back. */
  lemma ServerStaysSound(r: Rules, s: System, t: System)
    requires ServerSound(s) && Reaches(r, s, t)
    ensures ServerSound(t) && ServerSound(Reattached(t))
    ensures forall page, queue :: ServerSound(Dropped(t, page, queue))
  {
    hide Happens, Reaches;
    forall a, h, b | ServerSound(a) && Happens(r, a, h, b) ensures ServerSound(b) {
      HappeningKeepsServerSound(r, a, h, b);
    }
    ContinuationKeeps(r, ServerSound, s, t);
    ZeroIsAllZero(t.server.work);
  }

  lemma NewServerIsSound(s: System)
    requires Initial(s) && AllZero(s.server.work)
    ensures ServerSound(s)
  {
  }

  // ---------- the forced request that does nothing

  /** An earlier full update is still pending, and the server waits for the answer to a frame that is gone. */
  ghost predicate Stranded(s: System) {
    && s.server.fullUpdateRequested && !s.server.clientReady
    && s.toClient == [] && s.client.loads == [] && forall m :: m in s.toServer ==> m.RequestFullUpdate?
  }

  lemma HappeningKeepsStranded(r: Rules, s: System, h: Happening, t: System)
    requires Stranded(s) && Happens(r, s, h, t)
    ensures Stranded(t) && t.client.canvas == s.client.canvas && t.client.frontCanvas == s.client.frontCanvas
  {
    if h.Usual? && h.event.Answer? {
      assert s.toServer[0] in s.toServer;
      assert forall m :: m in s.toServer[1..] ==> m in s.toServer;
    }
  }

  ghost predicate StillStranded(s: System, canvas: Image, front: Image) {
    Stranded(s) && s.client.canvas == canvas && s.client.frontCanvas == front
  }

  /** No further step, request or attachment brings anything back. */
  lemma StrandedForever(r: Rules, s: System, t: System)
    requires Stranded(s) && Reaches(r, s, t)
    ensures !Inv(t) && Stranded(Reattached(t)) && Reattached(t).server == t.server
    ensures t.client.canvas == s.client.canvas && t.client.frontCanvas == s.client.frontCanvas
  {
    hide Happens, Reaches;
    var canvas, front := s.client.canvas, s.client.frontCanvas;
    forall a, h, b | StillStranded(a, canvas, front) && Happens(r, a, h, b) ensures StillStranded(b, canvas, front) {
      HappeningKeepsStranded(r, a, h, b);
    }
    ContinuationKeeps(r, (x: System) => StillStranded(x, canvas, front), s, t);
    StrandedIsBroken(t);
  }

  lemma StrandedIsBroken(s: System)
    requires Stranded(s)
    ensures !Inv(s) && Stranded(Reattached(s)) && Reattached(s).server == s.server
  {
    assert s.toServer != [] ==> s.toServer[0] in s.toServer;
  }

  lemma StrandedNeverReturns(s: System)
    requires Stranded(s)
    ensures !AlwaysReturns(s)
  {
    hide Reaches, Stranded;
    ReachesItself(FAILING, s);
    if Returns(s) {
      var t :| Reaches(SOLID, s, t) && Inv(t);
      StrandedForever(SOLID, s, t);
    }
  }

  lemma StrandingNeverReturns(s: System, t: System)
    requires Reaches(SOLID, s, t) && Stranded(t)
    ensures !AlwaysReturns(s)
  {
    hide Reaches, Stranded;
    ReachesMore(SOLID, FAILING, s, t);
    if Returns(t) {
      var u :| Reaches(SOLID, t, u) && Inv(u);
      StrandedForever(SOLID, t, u);
    }
  }

  // ---------- images that are still loading

  /** The images of a page finish one after the other, while it has not seen the end of the frame: nothing but the
      counter of pending patches remembers them. */
  ghost predicate Drained(s: System, t: System) {
    && t.client.loads == [] && t.toClient == s.toClient && t.toServer == s.toServer
    && t.client.frameEndReceived == s.client.frameEndReceived && t.client.waitingForFullUpdate == s.client.waitingForFullUpdate
    && t.client.lastFrame == s.client.lastFrame
    && t.client.pendingPatchesCount == s.client.pendingPatchesCount - |s.client.loads|
    && t.server == s.server.(patches := t.server.patches)
  }

  /** One image: fetched, missing, or drawn. */
  lemma OneImage(s: System) returns (e: Event)
    requires !s.client.frameEndReceived && s.client.loads != []
    ensures Enabled(s, e) && Faithful(s, e) && !e.Take? && LoadWeight(Step(s, e).client.loads) < LoadWeight(s.client.loads)
    ensures forall t :: Drained(Step(s, e), t) ==> Drained(s, t)
    ensures !Step(s, e).client.frameEndReceived
  {
    var l := s.client.loads[0];
    e := if l.patch.Remote? then Fetch(0) else Loaded(0);
    LoadWeightAt(s.client.loads, 0, l);
    if l.patch.Remote? && l.patch.id in s.server.patches {
      LoadWeightAt(s.client.loads, 0, Load(l.rect, Inline(s.server.patches[l.patch.id])));
    }
    assert Step(s, e).toServer == s.toServer;
  }

  lemma {:induction false} Drain(s: System) returns (t: System)
    requires !s.client.frameEndReceived
    ensures Reaches(SOLID, s, t) && Drained(s, t)
    decreases LoadWeight(s.client.loads)
  {
    hide Reaches, Step, Inv;
    if s.client.loads == [] {
      t := s;
      ReachesItself(SOLID, s);
    } else {
      var e := OneImage(s);
      t := Drain(Step(s, e));
      ReachesAfter(SOLID, s, Usual(e), Step(s, e), t);
    }
  }

  /** A server that owes a full update to a page with nothing on its way, whose images are still loading. */
  ghost predicate OwedToLoading(s: System) {
    && SameSizes(s) && s.server.clientReady && s.server.fullUpdateRequested && s.server.patches == map[]
    && s.toServer == [] && s.toClient == [] && s.client.loads != []
  }

  /** The whole frame in one patch: its mark, the patch and the end. */
  ghost predicate WholeFrame(q: seq<Message>, frame: int) {
    && |q| == 3 && q[0] == FullUpdate(frame) && q[2] == End(frame)
    && q[1].Draw? && q[1].frame == frame && q[1].payload.DrawPatch? && q[1].payload.patch.Inline?
  }

  lemma ServedInOnePatch(s: System)
    requires OwedToLoading(s)
    ensures var n := Served(s);
            && WholeFrame(n.toClient, n.server.frame) && n.server.frame == s.server.frame + 1 && n.client == s.client
            && n.toServer == [] && n.server.fullUpdateRequested && !n.server.clientReady
    ensures Reaches(SOLID, s, Served(s))
  {
    hide Reaches, Encodes, White, CreatePatch;
    var scene := White(s.server.work);
    var ops := [UpdateOf(scene.Bounds())];
    WholeFrameEncodes(s.server.work, scene);
    assert MessagesUpTo(ops, 0, scene, s.server.frame + 1, {}) == [];
    assert Served(s).toClient == [FullUpdate(s.server.frame + 1)] + MessagesUpTo(ops, 1, scene, s.server.frame + 1, {}) + [End(s.server.frame + 1)];
    assert HasNoZeroPixel(scene);
    ServedIsReached(s, ops, scene);
  }

  lemma ServedIsReached(s: System, ops: seq<UpdateOperation>, scene: Image)
    requires scene == White(s.server.work) && ops == [UpdateOf(scene.Bounds())] && Encodes(ops, s.server.work, scene)
    ensures Reaches(SOLID, s, Served(s))
  {
    hide Reaches, Encodes, White, TakeFrame;
    ReachesItself(SOLID, Served(s));
    assert HasNoZeroPixel(scene);
    ReachesByStep(Alerted(s), Take(ops, scene, {}), Served(s), Served(s));
    ReachesByStep(Step(s, Damage), Timer, Alerted(s), Served(s));
    ReachesByStep(s, Damage, Step(s, Damage), Served(s));
  }

  /** The rest of that frame, with a negative count of pending patches, ends without an answer. */
  ghost predicate Miscounted(s: System) {
    && s.server.fullUpdateRequested && !s.server.clientReady && s.toServer == []
    && |s.toClient| == 2 && WholeFrame([FullUpdate(s.server.frame)] + s.toClient, s.server.frame)
    && s.client.lastFrame == Some(s.server.frame) && !s.client.frameEndReceived && !s.client.waitingForFullUpdate
    && s.client.pendingPatchesCount < 0 && s.client.loads == []
  }

  lemma MiscountedStrands(s: System) returns (t: System)
    requires Miscounted(s)
    ensures Reaches(SOLID, s, t) && Stranded(t)
  {
    hide Reaches, Inv, Paint;
    var q := [FullUpdate(s.server.frame)] + s.toClient;
    assert q[1] == s.toClient[0] && q[2] == s.toClient[1];
    var s1 := Step(s, Deliver);
    assert s1.client.loads == [Load(q[1].payload.rect, q[1].payload.patch)] && s1.toServer == [];
    var s2 := Step(s1, Loaded(0));
    assert s2.client.loads == [] && s2.toServer == [];
    t := Step(s2, Deliver);
    ReachesItself(SOLID, t);
    ReachesAfter(SOLID, s2, Usual(Deliver), t, t);
    ReachesAfter(SOLID, s1, Usual(Loaded(0)), s2, t);
    ReachesAfter(SOLID, s, Usual(Deliver), s1, t);
  }

  /** The mark sets the count of pending patches to zero and leaves the images loading; each of them takes one off the
      count, and the end of the frame never finds it at zero. */
  lemma LateImagesStrand(s: System) returns (t: System)
    requires OwedToLoading(s)
    ensures Reaches(SOLID, s, t) && Stranded(t)
  {
    hide Reaches, Inv, Served, White, Stranded;
    ServedInOnePatch(s);
    var s1 := Served(s);
    var s2 := Step(s1, Deliver);
    assert s2.toServer == [] && s2.client == s.client.(waitingForFullUpdate := false, pendingPatchesCount := 0,
                                                        lastFrame := Some(s1.server.frame), frameEndReceived := false);
    var s3 := Drain(s2);
    assert [FullUpdate(s1.server.frame)] + s3.toClient == s1.toClient;
    t := MiscountedStrands(s3);
    ReachesThrough(SOLID, s2, s3, t);
    ReachesAfter(SOLID, s1, Usual(Deliver), s2, t);
    ReachesThrough(SOLID, s, s1, t);
  }

  // ---------- which pages come back

  lemma HeededIsOwed(s: System)
    requires PageLost(s) && ServerSound(s) && Heeds(s)
    ensures if s.client.loads == [] then Owed(Reattached(s)) else OwedToLoading(Reattached(s))
  {
    ZeroIsAllZero(s.server.work);
  }

  /** A heeded request mends the page, whatever happens on the way, exactly when no image of the page is still loading.
      Otherwise some continuation leads to where nothing can bring the page back, as an ignored request does, unless
      the page still draws images of a frame whose end it has seen. */
  lemma ForcedFullUpdateResyncs(s: System)
    requires PageLost(s) && ServerSound(s)
    ensures Heeds(s) ==> (AlwaysMending(Reattached(s)) <==> s.client.loads == [])
    ensures Heeds(s) ==> (AlwaysReturns(Reattached(s)) <==> s.client.loads == [])
    ensures !Heeds(s) && (s.client.loads == [] || !s.client.frameEndReceived) ==>
              !AlwaysMending(Reattached(s)) && !AlwaysReturns(Reattached(s))
  {
    hide AlwaysReturns, AlwaysMending, Reaches, Owed, OwedToLoading, Stranded;
    if AlwaysMending(Reattached(s)) {
      MendingReturns(Reattached(s));
    }
    if Heeds(s) {
      HeededIsOwed(s);
      if s.client.loads == [] {
        RecoveringAlwaysMends(Reattached(s));
        RecoveringAlwaysReturns(Reattached(s));
      } else {
        var t := LateImagesStrand(Reattached(s));
        StrandingNeverReturns(Reattached(s), t);
      }
    } else if s.client.loads == [] {
      IgnoredStrands(s);
      StrandedNeverReturns(Reattached(s));
    } else if !s.client.frameEndReceived {
      var t := Drain(Reattached(s));
      DrainedIsStranded(Reattached(s), t);
      StrandingNeverReturns(Reattached(s), t);
    }
  }

  /** And the mending of a heeded page goes on until the invariant holds again, if the request did not meet an earlier
      one that is still pending; in that case it goes on with the next damage. */
  lemma HeededPageGoesOn(s: System, t: System)
    requires PageLost(s) && ServerSound(s) && s.client.loads == [] && (Ready in s.toServer || !s.server.fullUpdateRequested)
    requires Reaches(FAILING, Reattached(s), t)
    ensures Inv(t) || exists e :: GoesOn(t, e)
  {
    hide Reaches, GoesOn, Inv;
    HeededIsOwed(s);
    AttendedGoesOn(Reattached(s), t);
  }

  lemma DrainedIsStranded(s: System, t: System)
    requires Drained(s, t) && s.toClient == [] && s.toServer == [] && s.server.fullUpdateRequested && !s.server.clientReady
    ensures Stranded(t)
  {
  }

  lemma IgnoredStrands(s: System)
    requires PageLost(s) && !Heeds(s) && s.client.loads == []
    ensures Stranded(Reattached(s))
  {
  }

  /** Over whole runs, whatever was allowed in them: any page that comes back after them. */
  lemma ComingBack(r: Rules, s: System, t: System, page: Client, queue: seq<ClientMessage>)
    requires Initial(s) && AllZero(s.server.work) && Reaches(r, s, t) && PageLost(Dropped(t, page, queue))
    ensures Heeds(Dropped(t, page, queue)) ==> (AlwaysMending(Reattached(Dropped(t, page, queue))) <==> page.loads == [])
    ensures Heeds(Dropped(t, page, queue)) ==> (AlwaysReturns(Reattached(Dropped(t, page, queue))) <==> page.loads == [])
    ensures !Heeds(Dropped(t, page, queue)) && (page.loads == [] || !page.frameEndReceived) ==>
              !AlwaysMending(Reattached(Dropped(t, page, queue))) && !AlwaysReturns(Reattached(Dropped(t, page, queue)))
  {
    hide AlwaysReturns, AlwaysMending, Reaches, Initial, PageLost, Heeds;
    NewServerIsSound(s);
    ServerStaysSound(r, s, t);
    ForcedFullUpdateResyncs(Dropped(t, page, queue));
  }

  /** A page that has lost what was on its way to it, and attaches again at once: its request is heeded and it has no
      image loading; or its request is ignored and it is still drawing a frame whose end it has seen, which it will
      answer. */
  predicate Survives(s: System) {
    if s.server.fullUpdateRequested && !s.server.clientReady then s.client.frameEndReceived && s.client.loads != []
    else s.client.loads == []
  }

  lemma OldPage(s: System)
    requires Recovering(s) && ServerSound(s)
    ensures AlwaysMending(Reattached(Dropped(s, s.client, []))) <==> Survives(s)
    ensures AlwaysReturns(Reattached(Dropped(s, s.client, []))) <==> Survives(s)
  {
    hide AlwaysReturns, AlwaysMending, Reaches, Stranded, Recovering;
    RecoveringHasSizes(s);
    ForcedFullUpdateResyncs(Dropped(s, s.client, []));
    if s.client.frameEndReceived && s.client.loads != [] {
      DrawingPageIsUnharmed(s);
      if Survives(s) {
        RecoveringAlwaysMends(s);
        RecoveringAlwaysReturns(s);
      }
    }
  }

  lemma RecoveringHasSizes(s: System)
    requires Recovering(s)
    ensures SameSizes(s)
  {
    hide Converging, PatchesMatch;
  }

  /** A page that is still drawing a closed frame has nothing on its way that could be lost. */
  lemma DrawingPageIsUnharmed(s: System)
    requires Recovering(s) && s.client.frameEndReceived && s.client.loads != []
    ensures !s.server.clientReady && (s.server.fullUpdateRequested ==> Reattached(Dropped(s, s.client, [])) == s)
  {
    hide Converging, PatchesMatch;
  }

  /** The page that was connected, at any moment of a run in which any images may fail. */
  lemma OldPageComesBack(s: System, t: System)
    requires Initial(s) && AllZero(s.server.work) && Reaches(FAILING, s, t)
    ensures AlwaysMending(Reattached(Dropped(t, t.client, []))) <==> Survives(t)
    ensures AlwaysReturns(Reattached(Dropped(t, t.client, []))) <==> Survives(t)
  {
    hide AlwaysReturns, AlwaysMending, Survives, Reaches, Initial, Recovering, Inv;
    InitialInv(s);
    InvMends(s);
    RecoveringStays(s, t);
    NewServerIsSound(s);
    ServerStaysSound(FAILING, s, t);
    OldPage(t);
  }

  function NewPage(size: Image): Client {
    Client(None, true, 0, 0, false, Zero(size), Zero(size), [])
  }

  /** A new display has sent its first frame; the connection is lost, and a new page comes back. */
  function FirstFrameLost(s: System, ops: seq<UpdateOperation>, work: Image, large: set<int>): System {
    Reattached(Dropped(Step(s, Take(ops, work, large)), NewPage(work), []))
  }

  /** The failing input: such a page gets no picture, whatever happens then. */
  lemma LostDuringFirstFrame(s: System, ops: seq<UpdateOperation>, work: Image, large: set<int>, r: Rules, t: System)
    requires Initial(s) && |ops| > 0 && Reaches(r, FirstFrameLost(s, ops, work, large), t)
    ensures PageLost(Dropped(Step(s, Take(ops, work, large)), NewPage(work), []))
    ensures !Inv(t) && t.client.frontCanvas == t.client.canvas == Zero(work)
  {
    hide Reaches, Zero;
    StrandedForever(r, FirstFrameLost(s, ops, work, large), t);
  }
}
