/** Which unforced requests for a full update are sure to be met, and what a second request changes. */
module MetRequests {
  import opened Images
  import opened ImageAux
  import opened OpTools
  import opened Canvas
  import opened Protocol
  import opened ProtocolSafety
  import opened Continuations
  import opened FullUpdates
  import opened LostPages
  import opened Sequences

  /** A mark is on its way ahead of everything else, or a server that may send has one to send. */
  predicate MarkIsSure(s: System) {
    (s.toClient != [] && s.toClient[0].FullUpdate?) || (s.server.clientReady && s.server.fullUpdateRequested)
  }

  // ---------- the invariant of a page whose mark is sure; it says nothing about the images

  const REQUEST: ClientMessage := RequestFullUpdate(false)

  predicate OnlyRequest(q: seq<ClientMessage>) { q == [] || q == [REQUEST] }

  ghost predicate MayBeIdle(s: System) {
    s.server.clientReady && OnlyRequest(s.toServer) && s.client.loads == [] && OnlyFullUpdates(s.toClient, s.server.frame)
  }

  ghost predicate MayBeInFlight(s: System) {
    && !s.server.clientReady && OnlyRequest(s.toServer) && FrameQueue(s.toClient, s.server.frame)
    && (s.toClient[0].FullUpdate? ==> s.client.loads == [])
    && (if s.client.lastFrame == Some(s.server.frame) then !s.client.frameEndReceived else s.client.loads == [])
  }

  ghost predicate MayBeRendering(s: System) {
    !s.server.clientReady && OnlyRequest(s.toServer) && s.toClient == [] && s.client.frameEndReceived && s.client.loads != []
  }

  ghost predicate MayBeAnswering(s: System) {
    !s.server.clientReady && (s.toServer == [Ready] || s.toServer == [REQUEST, Ready]) && s.toClient == [] && s.client.loads == []
  }

  ghost predicate InPhase(s: System) { MayBeIdle(s) || MayBeInFlight(s) || MayBeRendering(s) || MayBeAnswering(s) }

  ghost predicate Sure(s: System) {
    && s.client.frameErrors == 0 && s.client.pendingPatchesCount == |s.client.loads|
    && (s.client.lastFrame.Some? ==> s.client.lastFrame.value <= s.server.frame)
    && (s.client.waitingForFullUpdate ==> MarkIsSure(s))
    && PatchesMatch(Outstanding(s), s.server.patches)
    && InPhase(s)
  }

  lemma ReadyHasNothingOutstanding(s: System)
    requires Sure(s) && s.server.clientReady
    ensures Outstanding(s) == [] && s.server.patches == map[]
  {
    NoDrawNoPayload(s.toClient);
  }

  lemma TakeNothingKeepsSure(s: System, work: Image, large: set<int>)
    requires Sure(s) && IsUpdateAvailable(s.server)
    ensures Sure(Step(s, Take([], work, large)))
  {
    var n := Step(s, Take([], work, large));
    ReadyHasNothingOutstanding(s);
    assert forall m :: m in n.toClient ==> m in s.toClient || m == FullUpdate(s.server.frame);
    NoDrawNoPayload(n.toClient);
    assert Outstanding(n) == [];
  }

  lemma TakeFrameKeepsSure(s: System, ops: seq<UpdateOperation>, work: Image, large: set<int>)
    requires Sure(s) && IsUpdateAvailable(s.server) && |ops| > 0
    ensures Sure(Step(s, Take(ops, work, large)))
  {
    var n := Step(s, Take(ops, work, large));
    ReadyHasNothingOutstanding(s);
    FrameIsTaken(s, ops, work, large, n);
    assert MayBeInFlight(n);
  }

  lemma DeliverMarkKeepsSure(s: System)
    requires Sure(s) && s.toClient != [] && s.toClient[0].FullUpdate?
    ensures Sure(Step(s, Deliver))
  {
    var n := Step(s, Deliver);
    assert s.toClient[0] in s.toClient;
    if MayBeInFlight(s) {
      QueueTail(s.toClient, s.server.frame);
    } else {
      assert forall m :: m in n.toClient ==> m in s.toClient;
    }
    assert n.toServer == s.toServer;
    assert Outstanding(n) == Outstanding(s);
  }

  lemma DrawIsInFlight(s: System)
    requires Sure(s) && s.toClient != [] && s.toClient[0].Draw?
    ensures MayBeInFlight(s) && !s.client.waitingForFullUpdate
  {
    hide PatchesMatch, Outstanding;
  }

  lemma DrawIsOutstanding(s: System)
    requires Sure(s) && s.toClient != [] && s.toClient[0].Draw?
    ensures MayBeInFlight(s) && !s.client.waitingForFullUpdate && Step(s, Deliver).toServer == s.toServer
    ensures Outstanding(s) == LoadPayloads(s.client.loads) + [s.toClient[0].payload] + Payloads(s.toClient[1..])
  {
    hide Sure, FrameQueue, Paint, DetermineReadyState;
    DrawIsInFlight(s);
    Assoc(LoadPayloads(s.client.loads), [s.toClient[0].payload], Payloads(s.toClient[1..]));
    Neutral(s.toServer);
    DrawnFrameIsCurrent(s);
  }

  lemma DrawnFrameIsCurrent(s: System)
    requires Sure(s) && MayBeInFlight(s) && s.toClient[0].Draw?
    ensures s.client.pendingPatchesCount != 0 ==> s.client.lastFrame == Some(s.toClient[0].frame)
  {
    hide PatchesMatch, Outstanding;
  }

  lemma DeliverPatchKeepsSure(s: System)
    requires Sure(s) && s.toClient != [] && s.toClient[0].Draw? && s.toClient[0].payload.DrawPatch?
    ensures Sure(Step(s, Deliver))
  {
    var n := Step(s, Deliver);
    DrawIsOutstanding(s);
    QueueTail(s.toClient, s.server.frame);
    assert LoadPayloads(n.client.loads) == LoadPayloads(s.client.loads) + [s.toClient[0].payload];
    assert Outstanding(n) == Outstanding(s);
  }

  lemma DeliverCommandKeepsSure(s: System)
    requires Sure(s) && s.toClient != [] && s.toClient[0].Draw? && s.toClient[0].payload.Direct?
    ensures Sure(Step(s, Deliver))
  {
    hide PatchesMatch;
    var n, loads := Step(s, Deliver), LoadPayloads(s.client.loads);
    DrawIsOutstanding(s);
    QueueTail(s.toClient, s.server.frame);
    assert Outstanding(n) == Without(Outstanding(s), |loads|);
    WithoutMatches(Outstanding(s), |loads|, s.server.patches);
  }

  lemma DeliverDrawKeepsSure(s: System)
    requires Sure(s) && s.toClient != [] && s.toClient[0].Draw?
    ensures Sure(Step(s, Deliver))
  {
    hide Sure, Step;
    match s.toClient[0].payload
    case DrawPatch(_, _) => DeliverPatchKeepsSure(s);
    case Direct(_) => DeliverCommandKeepsSure(s);
  }

  lemma DeliverEndKeepsSure(s: System)
    requires Sure(s) && s.toClient != [] && s.toClient[0].End?
    ensures Sure(Step(s, Deliver))
  {
    var n := Step(s, Deliver);
    assert MayBeInFlight(s) && !s.client.waitingForFullUpdate;
    assert s.toClient == [s.toClient[0]];
    assert Payloads(s.toClient) == [] && Payloads(n.toClient) == [];
    assert Outstanding(n) == Outstanding(s);
  }

  lemma FetchKeepsSure(s: System, i: nat)
    requires Sure(s) && Enabled(s, Fetch(i))
    ensures Sure(Step(s, Fetch(i)))
  {
    hide FrameQueue;
    var n := Step(s, Fetch(i));
    var out := Outstanding(s);
    var id := s.client.loads[i].patch.id;
    assert Names(out, i, id);
    var p := DrawPatch(s.client.loads[i].rect, Inline(s.server.patches[id]));
    assert LoadPayloads(n.client.loads) == LoadPayloads(s.client.loads)[i := p];
    assert Outstanding(n) == out[i := p];
    FetchedMatches(out, i, s.server.patches, id);
  }

  lemma LoadedMatches(s: System, i: nat)
    requires PatchesMatch(Outstanding(s), s.server.patches) && Enabled(s, Loaded(i))
    ensures PatchesMatch(LoadPayloads(Without(s.client.loads, i)) + Payloads(s.toClient), s.server.patches)
  {
    OutstandingWithout(s.client.loads, i, Payloads(s.toClient));
    assert Outstanding(s)[i] == LoadPayloads(s.client.loads)[i];
    WithoutMatches(Outstanding(s), i, s.server.patches);
  }

  lemma LoadedKeepsSure(s: System, i: nat)
    requires Sure(s) && Enabled(s, Loaded(i))
    ensures Sure(Step(s, Loaded(i)))
  {
    LoadedMatches(s, i);
    hide FrameQueue, PatchesMatch, LoadPayloads, Payloads;
    assert !s.client.waitingForFullUpdate;
    assert |Without(s.client.loads, i)| == |s.client.loads| - 1;
  }

  lemma ReadyKeepsSure(s: System)
    requires Sure(s) && s.toServer != [] && s.toServer[0].Ready?
    ensures Sure(Step(s, Answer))
  {
    var n := Step(s, Answer);
    assert MayBeAnswering(s) && n.toServer == [];
    assert Outstanding(n) == [];
    assert MayBeIdle(n);
  }

  lemma RequestKeepsSure(s: System)
    requires Sure(s) && s.toServer != [] && s.toServer[0] == REQUEST
    ensures Sure(Step(s, Answer))
  {
    hide FrameQueue, PatchesMatch;
    var n := Step(s, Answer);
    assert n.toServer == [] || n.toServer == [Ready];
    assert Outstanding(n) == Outstanding(s);
  }

  lemma AnswerKeepsSure(s: System)
    requires Sure(s) && Enabled(s, Answer)
    ensures Sure(Step(s, Answer))
  {
    hide Step, Outstanding, FrameQueue, PatchesMatch;
    if s.toServer[0].Ready? {
      ReadyKeepsSure(s);
    } else {
      RequestKeepsSure(s);
    }
  }

  lemma StepKeepsSure(s: System, e: Event)
    requires Sure(s) && Enabled(s, e)
    ensures Sure(Step(s, e))
  {
    hide Sure;
    match e
    case Damage => QuietKeepsSure(s, e);
    case Timer => QuietKeepsSure(s, e);
    case Take(ops, work, large) =>
      if IsUpdateAvailable(s.server) {
        if |ops| == 0 {
          TakeNothingKeepsSure(s, work, large);
        } else {
          TakeFrameKeepsSure(s, ops, work, large);
        }
      }
    case Deliver =>
      match s.toClient[0] {
        case FullUpdate(_) => DeliverMarkKeepsSure(s);
        case Draw(_, _) => DeliverDrawKeepsSure(s);
        case End(_) => DeliverEndKeepsSure(s);
      }
    case Fetch(i) => FetchKeepsSure(s, i);
    case Loaded(i) => LoadedKeepsSure(s, i);
    case Answer => AnswerKeepsSure(s);
  }

  lemma QuietKeepsSure(s: System, e: Event)
    requires Sure(s) && Enabled(s, e) && (e.Damage? || e.Timer?)
    ensures Sure(Step(s, e))
  {
    assert Outstanding(Step(s, e)) == Outstanding(s);
  }

  // ---------- no continuation loses the page exactly when a mark is sure

  lemma SureRecovers(s: System)
    requires Sure(s)
    ensures !WaitsForever(PLAIN, s)
  {
    hide Reaches;
    if !s.client.waitingForFullUpdate {
      ReachesItself(PLAIN, s);
    } else if s.toClient != [] && s.toClient[0].FullUpdate? {
      MarkIsDelivered(s);
    } else {
      ReadyHasNothingOutstanding(s);
      MarkReaches(s);
    }
  }

  lemma SureStaysSure(s: System, t: System)
    requires Sure(s) && Reaches(PLAIN, s, t)
    ensures Sure(t)
  {
    hide Sure, Reaches;
    forall a, h, b | Sure(a) && Happens(PLAIN, a, h, b) ensures Sure(b) {
      StepKeepsSure(a, h.event);
    }
    ContinuationKeeps(PLAIN, Sure, s, t);
  }

  lemma MarkedRequestIsSure(s: System)
    requires Inv(s) && MarkIsSure(s)
    ensures Sure(PageRequests(s))
  {
    var r := PageRequests(s);
    assert Outstanding(r) == Outstanding(s);
    assert Idle(s) || InFlight(s);
    assert r.toServer == [REQUEST];
  }

  /** The race: a frame sent before the request arrives carries no mark, and the page ignores its end. */
  lemma FrameBeforeRequestLoses(s: System, ops: seq<UpdateOperation>, work: Image, large: set<int>)
    requires Inv(s) && IsUpdateAvailable(s.server) && !s.server.fullUpdateRequested && s.toClient == [] && |ops| > 0
    ensures Lost(Step(PageRequests(s), Take(ops, work, large)))
    ensures WaitsForever(PLAIN, Step(PageRequests(s), Take(ops, work, large)))
  {
    hide WaitsForever;
    UnmarkedFrameLoses(PageRequests(s), ops, work, large);
    LostForever(Step(PageRequests(s), Take(ops, work, large)));
  }

  /** A page that waits for the answer to its request, while the server may send and has no mark to send. */
  ghost predicate Racing(s: System) {
    && s.client.waitingForFullUpdate && s.client.frameErrors == 0 && s.client.pendingPatchesCount == 0 && s.client.loads == []
    && s.server.clientReady && !s.server.fullUpdateRequested && s.server.patches == map[]
    && s.toClient == [] && s.toServer == [REQUEST]
  }

  lemma UnmarkedFrameLoses(s: System, ops: seq<UpdateOperation>, work: Image, large: set<int>)
    requires Racing(s) && IsUpdateAvailable(s.server) && |ops| > 0
    ensures Lost(Step(s, Take(ops, work, large)))
  {
    hide FrameMessages, PatchesUpTo;
    UnmarkedFrame(ops, work, s.server.frame + 1, large);
  }

  ghost predicate MayLose(s: System) {
    exists t :: Reaches(PLAIN, s, t) && WaitsForever(PLAIN, t)
  }

  lemma MayLoseBefore(s: System, h: Happening, n: System)
    requires Happens(PLAIN, s, h, n) && MayLose(n)
    ensures MayLose(s)
  {
    hide Happens, Reaches, WaitsForever;
    var t :| Reaches(PLAIN, n, t) && WaitsForever(PLAIN, t);
    ReachesAfter(PLAIN, s, h, n, t);
  }

  lemma LostMayLose(s: System)
    requires Lost(s)
    ensures MayLose(s)
  {
    hide Lost, Reaches, WaitsForever;
    LostForever(s);
    ReachesItself(PLAIN, s);
  }

  lemma RacingMayLose(s: System)
    requires Racing(s)
    ensures MayLose(s)
  {
    hide MayLose, Lost, Encodes;
    var ops := [UpdateOf(s.server.work.Bounds())];
    var take := Take(ops, s.server.work, {});
    var s1 := Step(s, Damage);
    var s2 := Step(s1, Timer);
    var s3 := Step(s2, take);
    WholeFrameEncodes(s.server.work, s.server.work);
    UnmarkedFrameLoses(s2, ops, s.server.work, {});
    LostMayLose(s3);
    MayLoseBefore(s2, Usual(take), s3);
    MayLoseBefore(s1, Usual(Timer), s2);
    MayLoseBefore(s, Usual(Damage), s1);
  }

  lemma IdleHasMarks(s: System)
    requires Inv(s) && s.server.clientReady
    ensures s.toClient == [] || s.toClient[0].FullUpdate?
  {
    assert s.toClient != [] ==> s.toClient[0] in s.toClient;
  }

  lemma UnsureMayLose(s: System)
    requires Inv(s) && !MarkIsSure(s)
    ensures MayLose(PageRequests(s))
  {
    hide MayLose;
    var r := PageRequests(s);
    if s.server.clientReady {
      IdleHasNothingOutstanding(s);
      IdleHasMarks(s);
      assert r.toServer == [REQUEST];
      RacingMayLose(r);
    } else if s.toServer == [] {
      RequestLoses(s);
      LostMayLose(r);
    } else {
      assert r.toServer == [Ready, REQUEST];
      RacingMayLose(Step(r, Answer));
      MayLoseBefore(r, Usual(Answer), Step(r, Answer));
    }
  }

  /** No continuation of an unforced request loses the page exactly when a full-update mark is on its way already, or
      a pending request is held by a server that may send. */
  lemma RequestIsSurelyMet(s: System)
    requires Inv(s)
    ensures (forall t :: Reaches(PLAIN, PageRequests(s), t) ==> !WaitsForever(PLAIN, t)) <==> MarkIsSure(s)
  {
    hide Reaches, WaitsForever, Sure, Inv;
    if MarkIsSure(s) {
      MarkedRequestIsSure(s);
      forall t | Reaches(PLAIN, PageRequests(s), t) ensures !WaitsForever(PLAIN, t) {
        SureStaysSure(PageRequests(s), t);
        SureRecovers(t);
      }
    } else {
      UnsureMayLose(s);
    }
  }

  // ---------- asking again

  /** The server waits for an answer, and the page, which will see no end of frame, gives none. */
  ghost predicate Doomed(s: System) {
    && !s.server.clientReady && s.client.waitingForFullUpdate
    && NoMark(s.toClient)
    && (forall m :: m in s.toServer ==> m == REQUEST)
    && (s.client.frameEndReceived ==> s.client.loads == [])
  }

  lemma StepKeepsDoomed(s: System, e: Event)
    requires Doomed(s) && Enabled(s, e)
    ensures Doomed(Step(s, e))
  {
    var n := Step(s, e);
    match e
    case Damage =>
    case Timer =>
    case Take(_, _, _) =>
    case Deliver =>
      assert s.toClient[0] in s.toClient;
      assert n.toServer == s.toServer;
    case Fetch(i) =>
      assert n.toServer == s.toServer;
    case Loaded(i) =>
      assert n.toServer == s.toServer;
    case Answer =>
      assert forall m :: m in s.toServer[1..] ==> m in s.toServer;
      assert s.toServer[0] in s.toServer;
  }

  lemma DoomedForever(s: System)
    requires Doomed(s)
    ensures WaitsForever(ASKING, s)
  {
    hide Reaches;
    forall a, h, b | Doomed(a) && Happens(ASKING, a, h, b) ensures Doomed(b) {
      if h.Usual? {
        StepKeepsDoomed(a, h.event);
      }
    }
    forall t | Reaches(ASKING, s, t) ensures t.client.waitingForFullUpdate {
      ContinuationKeeps(ASKING, Doomed, s, t);
    }
  }

  lemma RecoversMore(s: System)
    requires !WaitsForever(PLAIN, s)
    ensures !WaitsForever(ASKING, s)
  {
    hide Reaches;
    var t :| Reaches(PLAIN, s, t) && !t.client.waitingForFullUpdate;
    ReachesMore(PLAIN, ASKING, s, t);
  }

  /** A request that finds the server ready. */
  lemma ReadyRequestRecovers(s: System)
    requires s.server.clientReady && s.server.patches == map[] && s.toServer == [] && s.toClient == []
    ensures !WaitsForever(ASKING, s)
  {
    hide WaitsForever;
    var s1 := PageRequests(s);
    assert s1.toServer == [REQUEST];
    var s2 := Step(s1, Answer);
    MarkReaches(s2);
    RecoversMore(s2);
    RecoversBefore(ASKING, s1, Usual(Answer), s2);
    RecoversBefore(ASKING, s, Asks, s1);
  }

  /** The answer has made the server forget the first request; the second one finds it ready. */
  lemma SecondRequestRecovers(s: System)
    requires s.toServer == [REQUEST, Ready] && s.toClient == []
    ensures !WaitsForever(ASKING, s)
  {
    hide WaitsForever;
    var s1 := Step(s, Answer);
    assert s1.toServer == [Ready];
    var s2 := Step(s1, Answer);
    assert s2.toServer == [];
    ReadyRequestRecovers(s2);
    RecoversBefore(ASKING, s1, Usual(Answer), s2);
    RecoversBefore(ASKING, s, Usual(Answer), s1);
  }

  /** A page that draws a closed frame and has asked for a full update meanwhile. */
  ghost predicate Drawing(s: System) {
    && s.client.waitingForFullUpdate && s.client.frameEndReceived && s.client.frameErrors == 0
    && s.client.pendingPatchesCount == |s.client.loads| && Stored(LoadPayloads(s.client.loads), s.server.patches)
    && s.toClient == [] && (if s.client.loads == [] then s.toServer == [REQUEST, Ready] else s.toServer == [REQUEST])
  }

  lemma FetchKeepsDrawing(s: System)
    requires Drawing(s) && Enabled(s, Fetch(0))
    ensures Drawing(Step(s, Fetch(0))) && LoadWeight(Step(s, Fetch(0)).client.loads) < LoadWeight(s.client.loads)
  {
    var l := s.client.loads[0];
    var out := LoadPayloads(s.client.loads);
    assert Names(out, 0, l.patch.id);
    var next := Load(l.rect, Inline(s.server.patches[l.patch.id]));
    FetchKeepsStored(out, 0, s.server.patches, l.patch.id, LoadPayloads(s.client.loads[0 := next]));
    LoadWeightAt(s.client.loads, 0, next);
  }

  lemma LoadedKeepsDrawing(s: System)
    requires Drawing(s) && Enabled(s, Loaded(0))
    ensures Drawing(Step(s, Loaded(0))) && LoadWeight(Step(s, Loaded(0)).client.loads) < LoadWeight(s.client.loads)
  {
    hide Stored;
    LoadsWithout(s.client.loads, 0);
    WithoutKeepsStored(LoadPayloads(s.client.loads), 0, s.server.patches);
    LoadWeightAt(s.client.loads, 0, s.client.loads[0]);
    assert |Without(s.client.loads, 0)| == |s.client.loads| - 1;
    assert [REQUEST] + [Ready] == [REQUEST, Ready];
  }

  lemma {:induction false} DrawingRecovers(s: System)
    requires Drawing(s)
    ensures !WaitsForever(ASKING, s)
    decreases LoadWeight(s.client.loads)
  {
    hide WaitsForever, Step, Stored;
    if s.client.loads == [] {
      SecondRequestRecovers(s);
    } else if s.client.loads[0].patch.Remote? {
      FetchKeepsDrawing(s);
      DrawingRecovers(Step(s, Fetch(0)));
      RecoversBefore(ASKING, s, Usual(Fetch(0)), Step(s, Fetch(0)));
    } else {
      LoadedKeepsDrawing(s);
      DrawingRecovers(Step(s, Loaded(0)));
      RecoversBefore(ASKING, s, Usual(Loaded(0)), Step(s, Loaded(0)));
    }
  }

  /** A page that may go on asking waits for ever exactly when the frame has not reached it completely. */
  lemma AskingAgainHelps(s: System)
    requires Inv(s)
    ensures WaitsForever(ASKING, PageRequests(s)) <==> FrameIsOnItsWay(s) && s.toClient != []
  {
    hide WaitsForever;
    var r := PageRequests(s);
    if FrameIsOnItsWay(s) {
      assert r.toServer == [REQUEST];
      RequestLoses(s);
      if s.toClient != [] {
        assert Doomed(r);
        DoomedForever(r);
      } else {
        assert Drawing(r);
        DrawingRecovers(r);
      }
    } else {
      RequestCanBeMet(s);
      RecoversMore(r);
    }
  }
}
