/** Recovery by forced full updates: its stages, and runs in which images fail to load. */
module Recovery {
  import opened Images
  import opened ImageAux
  import opened OpTools
  import opened Canvas
  import opened Protocol
  import opened ProtocolSafety
  import opened FullUpdates
  import opened Continuations

  ghost predicate SameSizes(s: System) {
    && s.client.canvas.SameSize(s.server.work) && s.client.frontCanvas.SameSize(s.server.work)
    && (s.client.lastFrame.Some? ==> s.client.lastFrame.value <= s.server.frame)
  }

  ghost predicate UnmarkedQueue(q: seq<Message>, frame: int) {
    q != [] && q[|q| - 1] == End(frame) && forall i :: 0 <= i < |q| - 1 ==> q[i].Draw? && q[i].frame == frame
  }

  // ---------- the stages of a recovery

  /** An image of the frame that is on its way or being drawn has failed. */
  ghost predicate Spoiled(s: System) {
    && SameSizes(s) && !s.server.clientReady && s.toServer == []
    && !s.client.waitingForFullUpdate && s.client.frameErrors > 0 && s.client.pendingPatchesCount == |s.client.loads|
    && (if s.toClient == [] then s.client.frameEndReceived && s.client.loads != []
        else UnmarkedQueue(s.toClient, s.server.frame) && s.client.lastFrame == Some(s.server.frame) && !s.client.frameEndReceived)
  }

  ghost predicate Quiet(s: System) {
    SameSizes(s) && s.client.loads == []
  }

  /** The page has closed the frame and asks for another one. */
  ghost predicate Reporting(s: System) {
    Quiet(s) && s.client.frameErrors == 0 && !s.server.clientReady && s.client.waitingForFullUpdate && s.toClient == [] && s.toServer == [Ready, RequestFullUpdate(true)]
  }

  /** The server is ready again, and the request is still on its way; a frame that is sent now will be ignored. */
  ghost predicate Reported(s: System) {
    && Quiet(s) && s.client.frameErrors == 0 && !s.server.fullUpdateRequested && s.client.waitingForFullUpdate
    && NoMark(s.toClient) && s.toServer == [RequestFullUpdate(true)]
  }

  /** A ready server that starts from a blank buffer owes the page a full update. Images that failed before are still
      counted. */
  ghost predicate Owed(s: System) {
    && Quiet(s) && s.server.clientReady && s.server.fullUpdateRequested && s.server.patches == map[] && AllZero(s.server.work)
    && s.toServer == [] && NoMark(s.toClient) && (s.toClient != [] ==> s.client.waitingForFullUpdate)
  }

  /** The page right after the mark at index k. */
  function AfterMark(s: System, k: nat): System
    requires k < |s.toClient|
  {
    s.(toClient := s.toClient[k + 1..],
       client := s.client.(waitingForFullUpdate := false, pendingPatchesCount := 0, lastFrame := Some(s.server.frame), frameEndReceived := false))
  }

  /** The mark is on its way at index k, behind messages that the page ignores. */
  ghost predicate Marked(s: System, k: nat) {
    && k < |s.toClient| && s.toClient[k] == FullUpdate(s.server.frame)
    && (forall i :: 0 <= i < k ==> !s.toClient[i].FullUpdate?) && (k > 0 ==> s.client.waitingForFullUpdate)
    && s.client.loads == [] && s.toServer == [] && !s.server.clientReady
    && (s.client.lastFrame.Some? ==> s.client.lastFrame.value < s.server.frame)
    && (Inv(AfterMark(s, k)) || Spoiled(AfterMark(s, k)))
  }

  ghost predicate IsMarked(s: System) {
    exists k: nat :: Marked(s, k)
  }

  ghost predicate Recovering(s: System) {
    Inv(s) || Spoiled(s) || Reporting(s) || Reported(s) || Owed(s) || IsMarked(s)
  }

  // ---------- every step goes on with the recovery

  lemma MarkedFrame(s: System, ops: seq<UpdateOperation>, work: Image, large: set<int>)
    requires IsUpdateAvailable(s.server) && s.server.fullUpdateRequested && s.server.patches == map[] && |ops| > 0
    ensures var n := Step(s, Take(ops, work, large));
            var frame := s.server.frame + 1;
            && n.client == s.client && n.toServer == s.toServer
            && n.toClient == s.toClient + ([FullUpdate(frame)] + MessagesUpTo(ops, |ops|, work, frame, large) + [End(frame)])
            && !n.server.clientReady && n.server.frame == frame && n.server.work == work
            && n.server.patches == PatchesUpTo(ops, |ops|, work, frame, large, map[])
  {
    hide MessagesUpTo, PatchesUpTo;
  }

  lemma OwedTake(s: System, ops: seq<UpdateOperation>, work: Image, large: set<int>)
    requires Owed(s) && IsUpdateAvailable(s.server) && Encodes(ops, s.server.work, work) && HasNoZeroPixel(work)
    ensures Marked(Step(s, Take(ops, work, large)), |s.toClient|)
  {
    assert s.server.work.SameSize(work);
    hide Inv, Encodes, AllZero, HasNoZeroPixel, Step, MessagesUpTo, PatchesUpTo;
    FullFrameHasOperations(ops, s.server.work, work);
    MarkedFrame(s, ops, work, large);
    var n := Step(s, Take(ops, work, large));
    var k := |s.toClient|;
    assert n.toClient[k + 1..] == MessagesUpTo(ops, |ops|, work, n.server.frame, large) + [End(n.server.frame)];
    if s.client.frameErrors == 0 {
      MarkedFrameConverges(AfterMark(n, k), ops, s.server.work, large);
    } else {
      TaintedFrameIsSpoiled(AfterMark(n, k), ops, large);
    }
  }

  /** With failures still counted, the frame will be reported as spoiled. */
  lemma TaintedFrameIsSpoiled(m: System, ops: seq<UpdateOperation>, large: set<int>)
    requires SameSizes(m) && !m.server.clientReady && m.toServer == []
    requires m.toClient == MessagesUpTo(ops, |ops|, m.server.work, m.server.frame, large) + [End(m.server.frame)]
    requires m.client.loads == [] && m.client.pendingPatchesCount == 0 && m.client.frameErrors > 0
    requires !m.client.waitingForFullUpdate && m.client.lastFrame == Some(m.server.frame) && !m.client.frameEndReceived
    ensures Spoiled(m)
  {
    var body := MessagesUpTo(ops, |ops|, m.server.work, m.server.frame, large);
    FrameResolves(ops, |ops|, m.server.work, m.server.frame, large);
    forall i | 0 <= i < |m.toClient| - 1 ensures m.toClient[i].Draw? && m.toClient[i].frame == m.server.frame {
      assert m.toClient[i] in body;
    }
  }

  lemma OwedStep(s: System, e: Event)
    requires Owed(s) && Enabled(s, e) && Faithful(s, e) && (e.Take? ==> HasNoZeroPixel(e.work))
    ensures Owed(Step(s, e)) || IsMarked(Step(s, e))
    ensures Step(s, e).client.waitingForFullUpdate == s.client.waitingForFullUpdate
  {
    hide Inv, Encodes;
    match e
    case Damage =>
    case Timer =>
    case Take(ops, work, large) =>
      if IsUpdateAvailable(s.server) {
        OwedTake(s, ops, work, large);
      }
    case Deliver =>
      assert s.toClient[0] in s.toClient;
      assert forall m :: m in s.toClient[1..] ==> m in s.toClient;
  }

  lemma MarkedStep(s: System, k: nat, e: Event)
    requires Marked(s, k) && Enabled(s, e)
    ensures if !e.Deliver? then Marked(Step(s, e), k)
            else if k > 0 then Marked(Step(s, e), k - 1)
            else Inv(Step(s, e)) || Spoiled(Step(s, e))
    ensures Inv(Step(s, e)) || Spoiled(Step(s, e)) || Step(s, e).client.waitingForFullUpdate == s.client.waitingForFullUpdate
  {
    hide Inv;
    match e
    case Damage => MarkedQuiet(s, k, e);
    case Timer => MarkedQuiet(s, k, e);
    case Take(_, _, _) =>
    case Deliver => MarkedDeliver(s, k);
  }

  lemma MarkedQuiet(s: System, k: nat, e: Event)
    requires Marked(s, k) && Enabled(s, e) && (e.Damage? || e.Timer?)
    ensures Marked(Step(s, e), k)
  {
    hide Inv, Spoiled;
    assert AfterMark(Step(s, e), k) == Step(AfterMark(s, k), e);
    if Inv(AfterMark(s, k)) {
      StepKeepsInv(AfterMark(s, k), e);
    } else {
      SpoiledStaysQuiet(AfterMark(s, k), e);
    }
  }

  lemma SpoiledStaysQuiet(s: System, e: Event)
    requires Spoiled(s) && Enabled(s, e) && (e.Damage? || e.Timer?)
    ensures Spoiled(Step(s, e))
  {
  }

  lemma MarkedDeliver(s: System, k: nat)
    requires Marked(s, k)
    ensures if k == 0 then Step(s, Deliver) == AfterMark(s, 0)
            else Marked(Step(s, Deliver), k - 1) && Step(s, Deliver).client == s.client && AfterMark(Step(s, Deliver), k - 1) == AfterMark(s, k)
  {
    hide Inv;
    var n := Step(s, Deliver);
    if k > 0 {
      assert !s.toClient[0].FullUpdate?;
      assert forall i :: 0 <= i < k - 1 ==> n.toClient[i] == s.toClient[i + 1];
      assert n.toClient[k..] == s.toClient[k + 1..];
      assert AfterMark(n, k - 1) == AfterMark(s, k);
    }
  }

  lemma ReportedStep(s: System, e: Event)
    requires Reported(s) && Enabled(s, e) && Faithful(s, e)
    ensures if e.Answer? then Owed(Step(s, e)) else Reported(Step(s, e))
    ensures Step(s, e).client.waitingForFullUpdate
  {
    hide OpsSound;
    match e
    case Damage =>
    case Timer =>
    case Take(ops, work, large) =>
      if IsUpdateAvailable(s.server) {
        ReportedTake(s, ops, work, large);
      }
    case Deliver =>
      assert s.toClient[0] in s.toClient;
      assert forall m :: m in s.toClient[1..] ==> m in s.toClient;
    case Answer =>
  }

  lemma ReportedTake(s: System, ops: seq<UpdateOperation>, work: Image, large: set<int>)
    requires Reported(s) && IsUpdateAvailable(s.server) && s.server.work.SameSize(work)
    ensures Reported(Step(s, Take(ops, work, large)))
  {
    hide FrameMessages, PatchesUpTo;
    UnmarkedFrame(ops, work, NextFrame(s.server, ops, work).frame, large);
  }

  lemma ReportingStep(s: System, e: Event)
    requires Reporting(s) && Enabled(s, e)
    ensures if e.Answer? then Reported(Step(s, e)) else Reporting(Step(s, e))
  {
  }

  /** What a finished or failed image of a spoiled frame leaves, before the page looks at its counters. */
  lemma SpoiledImageDone(s: System, c: Client, i: nat)
    requires SameSizes(s) && !s.server.clientReady && s.toServer == [] && i < |s.client.loads|
    requires s.toClient != [] ==> UnmarkedQueue(s.toClient, s.server.frame) && s.client.lastFrame == Some(s.server.frame)
    requires s.client.frameEndReceived == (s.toClient == [])
    requires c.canvas.SameSize(s.client.canvas) && c.frameErrors > 0 && !c.waitingForFullUpdate
    requires c == s.client.(canvas := c.canvas, loads := Without(s.client.loads, i), frameErrors := c.frameErrors)
    requires c.pendingPatchesCount == |s.client.loads|
    ensures var (client, sent) := ImageDone(c);
            var n := s.(client := client, toServer := s.toServer + sent);
            (Spoiled(n) && |n.client.loads| < |s.client.loads|) || Reporting(n)
  {
    hide UnmarkedQueue;
    assert |Without(s.client.loads, i)| == |s.client.loads| - 1;
    assert s.toServer + [Ready, RequestFullUpdate(true)] == [Ready, RequestFullUpdate(true)];
  }

  lemma SpoiledLoadFails(s: System, i: nat)
    requires Spoiled(s) && i < |s.client.loads|
    ensures Spoiled(LoadFailed(s, i)) || Reporting(LoadFailed(s, i))
  {
    hide UnmarkedQueue;
    SpoiledImageDone(s, s.client.(loads := Without(s.client.loads, i), frameErrors := s.client.frameErrors + 1), i);
  }

  lemma SpoiledLoaded(s: System, i: nat)
    requires Spoiled(s) && Enabled(s, Loaded(i))
    ensures Spoiled(Step(s, Loaded(i))) || Reporting(Step(s, Loaded(i)))
  {
    hide UnmarkedQueue;
    var l := s.client.loads[i];
    var canvas := Paint(s.client.canvas, s.client.frontCanvas, DrawImage(l.rect, l.patch.image));
    SpoiledImageDone(s, s.client.(canvas := canvas, loads := Without(s.client.loads, i)), i);
  }

  lemma SpoiledFetch(s: System, i: nat)
    requires Spoiled(s) && Enabled(s, Fetch(i))
    ensures Spoiled(Step(s, Fetch(i))) || Reporting(Step(s, Fetch(i)))
  {
    hide UnmarkedQueue;
    if s.client.loads[i].patch.id !in s.server.patches {
      SpoiledLoadFails(s, i);
    }
  }

  lemma SpoiledDeliver(s: System)
    requires Spoiled(s) && s.toClient != []
    ensures Spoiled(Step(s, Deliver)) || Reporting(Step(s, Deliver))
  {
    var n := Step(s, Deliver);
    if s.toClient[0].Draw? {
      assert forall i :: 0 <= i < |n.toClient| ==> n.toClient[i] == s.toClient[i + 1];
      assert n.toServer == s.toServer;
    } else {
      assert s.toClient == [End(s.server.frame)];
      assert s.client.loads == [] ==> n.toServer == [Ready, RequestFullUpdate(true)];
    }
  }

  lemma SpoiledStep(s: System, e: Event)
    requires Spoiled(s) && Enabled(s, e)
    ensures Spoiled(Step(s, e)) || Reporting(Step(s, e))
  {
    match e
    case Damage =>
    case Timer =>
    case Take(_, _, _) =>
    case Deliver => SpoiledDeliver(s);
    case Fetch(i) => SpoiledFetch(s, i);
    case Loaded(i) => SpoiledLoaded(s, i);
  }

  lemma FirstLoadFails(s: System, i: nat)
    requires Inv(s) && i < |s.client.loads|
    ensures Spoiled(LoadFailed(s, i)) || Reporting(LoadFailed(s, i))
  {
    hide Converging, PatchesMatch;
    if InFlight(s) {
      assert forall j :: 0 <= j < |s.toClient| && s.toClient[j].FullUpdate? && j > 0 ==> s.toClient[0].FullUpdate?;
      assert UnmarkedQueue(s.toClient, s.server.frame);
    }
    SpoiledImageDone(s, s.client.(loads := Without(s.client.loads, i), frameErrors := 1), i);
  }

  /** Every step, and every image that fails, goes on with the recovery; once the page waits for the mark, only the
      mark ends its waiting. */
  lemma RecoveryGoesOn(s: System, h: Happening, n: System)
    requires Recovering(s) && Happens(FAILING, s, h, n)
    ensures Recovering(n)
    ensures Inv(s) || Spoiled(s) || s.client.waitingForFullUpdate ==> Inv(n) || Spoiled(n) || n.client.waitingForFullUpdate
  {
    hide Inv, Spoiled, Step, Faithful;
    if h.LoadFails? {
      FailureStep(s, h.i);
    } else {
      var e := h.event;
      if Inv(s) {
        StepKeepsInv(s, e);
      } else if Spoiled(s) {
        SpoiledStep(s, e);
      } else if Reporting(s) {
        ReportingStep(s, e);
      } else if Reported(s) {
        ReportedStep(s, e);
      } else if Owed(s) {
        OwedStep(s, e);
      } else {
        var k: nat :| Marked(s, k);
        MarkedStep(s, k, e);
      }
    }
  }

  lemma FailureStep(s: System, i: nat)
    requires Recovering(s) && i < |s.client.loads|
    ensures Spoiled(LoadFailed(s, i)) || Reporting(LoadFailed(s, i))
  {
    hide Inv, Spoiled;
    if Inv(s) {
      FirstLoadFails(s, i);
    } else if Spoiled(s) {
      SpoiledLoadFails(s, i);
    }
  }

  // ---------- from every stage the protocol can come back to its invariant

  ghost predicate Returns(s: System) {
    exists t :: Reaches(SOLID, s, t) && Inv(t)
  }

  lemma ReachesByStep(s: System, e: Event, n: System, t: System)
    requires Enabled(s, e) && Faithful(s, e) && (e.Take? ==> HasNoZeroPixel(e.work)) && n == Step(s, e) && Reaches(SOLID, n, t)
    ensures Reaches(SOLID, s, t)
  {
    hide Reaches, Inv, Faithful, HasNoZeroPixel, Step;
    ReachesAfter(SOLID, s, Usual(e), n, t);
  }

  lemma ReturnsBefore(s: System, e: Event, n: System)
    requires Enabled(s, e) && Faithful(s, e) && Solid(s, e) && n == Step(s, e) && Returns(n)
    ensures Returns(s)
  {
    hide Reaches, Inv, Faithful, Solid, Step;
    var t :| Reaches(SOLID, n, t) && Inv(t);
    ReachesAfter(SOLID, s, Usual(e), n, t);
  }

  lemma InvReturns(s: System)
    requires Inv(s)
    ensures Returns(s)
  {
    hide Reaches, Inv;
    ReachesItself(SOLID, s);
  }

  lemma {:induction false} MarkedReturns(s: System, k: nat)
    requires Marked(s, k) && Returns(AfterMark(s, k))
    ensures Returns(s)
    decreases k
  {
    hide Inv, Spoiled, Returns, Step;
    MarkedDeliver(s, k);
    var n := Step(s, Deliver);
    if k > 0 {
      MarkedReturns(n, k - 1);
    }
    ReturnsBefore(s, Deliver, n);
  }

  /** A ready server can always draw a solid scene, and send it. */
  function Served(s: System): System {
    var scene := White(s.server.work);
    Step(Alerted(s), Take([UpdateOf(scene.Bounds())], scene, {}))
  }

  function Alerted(s: System): System {
    Step(Step(s, Damage), Timer)
  }

  lemma ServedReturns(s: System)
    requires Owed(s) && Returns(Served(s))
    ensures Returns(s)
  {
    hide Returns, Encodes, White;
    var scene := White(s.server.work);
    WholeFrameEncodes(s.server.work, scene);
    ReturnsBefore(Alerted(s), Take([UpdateOf(scene.Bounds())], scene, {}), Served(s));
    ReturnsBefore(Step(s, Damage), Timer, Alerted(s));
    ReturnsBefore(s, Damage, Step(s, Damage));
  }

  lemma ServedIsMarked(s: System)
    requires Owed(s)
    ensures Marked(Served(s), |s.toClient|) && Served(s).client == s.client
  {
    hide Encodes, Marked;
    var scene := White(s.server.work);
    WholeFrameEncodes(s.server.work, scene);
    OwedTake(Alerted(s), [UpdateOf(scene.Bounds())], scene, {});
  }

  lemma OwedReturns(s: System)
    requires Owed(s) && (Spoiled(AfterMark(Served(s), |s.toClient|)) ==> Returns(AfterMark(Served(s), |s.toClient|)))
    ensures Returns(s)
  {
    hide Returns, Spoiled, Inv, Owed, Served;
    ServedIsMarked(s);
    if Inv(AfterMark(Served(s), |s.toClient|)) {
      InvReturns(AfterMark(Served(s), |s.toClient|));
    }
    MarkedReturns(Served(s), |s.toClient|);
    ServedReturns(s);
  }

  /** Without failures that are still counted, the mark leads to the invariant. */
  lemma UntaintedReturns(s: System)
    requires Owed(s) && s.client.frameErrors == 0
    ensures Returns(s)
  {
    hide Returns, Served;
    ServedIsMarked(s);
    assert !Spoiled(AfterMark(Served(s), |s.toClient|));
    OwedReturns(s);
  }

  lemma ReportedReturns(s: System)
    requires Reported(s)
    ensures Returns(s)
  {
    hide Returns, Owed;
    ReportedStep(s, Answer);
    assert Step(s, Answer).client == s.client;
    UntaintedReturns(Step(s, Answer));
    ReturnsBefore(s, Answer, Step(s, Answer));
  }

  lemma ReportingReturns(s: System)
    requires Reporting(s)
    ensures Returns(s)
  {
    hide Returns, Reported;
    ReportingStep(s, Answer);
    ReportedReturns(Step(s, Answer));
    ReturnsBefore(s, Answer, Step(s, Answer));
  }

  /** The next step of a spoiled frame on its way. */
  function Onward(s: System): Event
    requires Spoiled(s)
  {
    if s.toClient != [] then Deliver else if s.client.loads[0].patch.Remote? then Fetch(0) else Loaded(0)
  }

  function Ahead(s: System): nat {
    8 * |s.toClient| + LoadWeight(s.client.loads)
  }

  lemma OnwardIsForward(s: System)
    requires Spoiled(s)
    ensures Forward(Onward(s)) && Enabled(s, Onward(s))
  {
  }

  lemma SpoiledDeliverShortens(s: System)
    requires Spoiled(s) && s.toClient != []
    ensures Ahead(Step(s, Deliver)) < Ahead(s)
  {
    var m := s.toClient[0];
    if m.Draw? && m.payload.DrawPatch? {
      LoadWeightConcat(s.client.loads, [Load(m.payload.rect, m.payload.patch)]);
    }
  }

  lemma SpoiledForwardShortens(s: System, e: Event)
    requires Spoiled(s) && Forward(e) && Enabled(s, e)
    ensures Ahead(Step(s, e)) < Ahead(s) && Step(s, e).server.updateAvailable == s.server.updateAvailable
  {
    match e
    case Deliver => SpoiledDeliverShortens(s);
    case Fetch(i) =>
      var l := s.client.loads[i];
      LoadWeightAt(s.client.loads, i, l);
      if l.patch.id in s.server.patches {
        LoadWeightAt(s.client.loads, i, Load(l.rect, Inline(s.server.patches[l.patch.id])));
      }
    case Loaded(i) => LoadWeightAt(s.client.loads, i, s.client.loads[i]);
  }

  lemma {:induction false} SpoiledReturns(s: System)
    requires Spoiled(s)
    ensures Returns(s)
    decreases Ahead(s)
  {
    hide Returns, Step, Spoiled, Ahead, Reporting;
    OnwardIsForward(s);
    SpoiledForwardShortens(s, Onward(s));
    var n := Step(s, Onward(s));
    SpoiledStep(s, Onward(s));
    if Spoiled(n) {
      SpoiledReturns(n);
    } else {
      ReportingReturns(n);
    }
    ReturnsBefore(s, Onward(s), n);
  }

  lemma AfterMarkReturns(s: System, k: nat)
    requires Marked(s, k)
    ensures Returns(AfterMark(s, k))
  {
    hide Returns, Inv, Spoiled;
    if Inv(AfterMark(s, k)) {
      InvReturns(AfterMark(s, k));
    } else {
      SpoiledReturns(AfterMark(s, k));
    }
  }

  lemma MaybeTaintedReturns(s: System)
    requires Owed(s)
    ensures Returns(s)
  {
    hide Returns, Spoiled, Owed, Served;
    ServedIsMarked(s);
    AfterMarkReturns(Served(s), |s.toClient|);
    OwedReturns(s);
  }

  lemma RecoveringReturns(s: System)
    requires Recovering(s)
    ensures Returns(s)
  {
    hide Returns, Inv, Spoiled, Reporting, Reported, Owed;
    if Inv(s) {
      InvReturns(s);
    } else if Spoiled(s) {
      SpoiledReturns(s);
    } else if Reporting(s) {
      ReportingReturns(s);
    } else if Reported(s) {
      ReportedReturns(s);
    } else if Owed(s) {
      MaybeTaintedReturns(s);
    } else {
      var k: nat :| Marked(s, k);
      AfterMarkReturns(s, k);
      MarkedReturns(s, k);
    }
  }

  /** Whatever happens, image failures included, the protocol can come back to its invariant. */
  ghost predicate AlwaysReturns(s: System) {
    forall t :: Reaches(FAILING, s, t) ==> Returns(t)
  }

  lemma RecoveringAlwaysReturns(s: System)
    requires Recovering(s)
    ensures AlwaysReturns(s)
  {
    hide Recovering, Returns, Reaches, Happens;
    forall a, h, b | Recovering(a) && Happens(FAILING, a, h, b) ensures Recovering(b) {
      RecoveryGoesOn(a, h, b);
    }
    forall t | Reaches(FAILING, s, t) ensures Returns(t) {
      ContinuationKeeps(FAILING, Recovering, s, t);
      RecoveringReturns(t);
    }
  }

  // ---------- how far a recovery has come

  /** The stages from the last to the first: the invariant, the mark on its way, the update owed, the report on its
      way, the report, the spoiled frame. A mark that finds failures still counted leads to a spoiled frame. */
  ghost predicate AtStage(s: System, k: nat) {
    || (k == 0 && Inv(s))
    || (k == 1 && IsMarked(s) && s.client.frameErrors == 0)
    || (k == 2 && Owed(s) && s.client.frameErrors == 0)
    || (k == 3 && Reported(s))
    || (k == 4 && Reporting(s))
    || (k == 5 && Spoiled(s))
    || (k == 6 && IsMarked(s) && s.client.frameErrors > 0)
    || (k == 7 && Owed(s) && s.client.frameErrors > 0)
  }

  lemma RecoveringHasStage(s: System)
    requires Recovering(s)
    ensures exists k: nat :: AtStage(s, k)
  {
    hide Inv, Spoiled, Owed, Reported, Reporting, IsMarked;
    var k := if Inv(s) then 0 else if Spoiled(s) then 5 else if Reporting(s) then 4 else if Reported(s) then 3
    else if Owed(s) then if s.client.frameErrors == 0 then 2 else 7
    else if s.client.frameErrors == 0 then 1 else 6;
    assert AtStage(s, k);
  }

  /** What is left to do at a stage. */
  function Left(s: System): nat {
    Ahead(s) + (if s.server.updateAvailable then 0 else 1)
  }

  /** A step that leads on: of the frame in transit, or of a server that owes a full update. */
  predicate LeadsOn(s: System, e: Event) {
    Forward(e) || (s.server.clientReady && s.toServer == [] &&
                   ((e.Timer? && !s.server.updateAvailable) || (e.Take? && IsUpdateAvailable(s.server))))
  }

  /** Either the stage goes down, or it stays and what is left shrinks with every step that leads on. */
  ghost predicate Advances(s: System, k: nat, e: Event, n: System) {
    || (exists j: nat :: j < k && AtStage(n, j))
    || (AtStage(n, k) && (LeadsOn(s, e) ==> Left(n) < Left(s)) && (e.Damage? || e.Timer? ==> Left(n) <= Left(s)))
  }

  lemma MarkedAdvances(s: System, k: nat, e: Event)
    requires (k == 1 || k == 6) && AtStage(s, k) && Enabled(s, e)
    ensures Advances(s, k, e, Step(s, e))
  {
    hide Inv, Spoiled;
    var i: nat :| Marked(s, i);
    var n := Step(s, e);
    MarkedStep(s, i, e);
    if e.Deliver? {
      MarkedDeliver(s, i);
      if i == 0 {
        AfterMarkStage(s);
        assert AtStage(n, k - 1);
      } else {
        assert Marked(n, i - 1) && AtStage(n, k);
      }
    } else {
      assert Marked(n, i) && n.client == s.client;
      assert AtStage(n, k);
    }
  }

  lemma AfterMarkStage(s: System)
    requires Marked(s, 0)
    ensures if s.client.frameErrors == 0 then Inv(AfterMark(s, 0)) else Spoiled(AfterMark(s, 0))
  {
  }

  lemma OwedAdvances(s: System, k: nat, e: Event)
    requires (k == 2 || k == 7) && AtStage(s, k) && Enabled(s, e) && Faithful(s, e) && (e.Take? ==> HasNoZeroPixel(e.work))
    ensures Advances(s, k, e, Step(s, e))
  {
    hide Inv, Spoiled, Encodes, Marked;
    var n := Step(s, e);
    OwedStep(s, e);
    if e.Take? && IsUpdateAvailable(s.server) {
      OwedTake(s, e.ops, e.work, e.large);
      assert AtStage(n, k - 1);
    } else {
      assert n.client == s.client && Owed(n);
      assert AtStage(n, k);
    }
  }

  lemma ReportAdvances(s: System, k: nat, e: Event)
    requires (k == 3 || k == 4) && AtStage(s, k) && Enabled(s, e) && Faithful(s, e)
    ensures Advances(s, k, e, Step(s, e))
  {
    hide Inv, Spoiled, Encodes, Marked;
    var n := Step(s, e);
    if k == 3 {
      ReportedStep(s, e);
      assert n.client == s.client;
      assert AtStage(n, if e.Answer? then 2 else 3);
    } else {
      ReportingStep(s, e);
      assert AtStage(n, if e.Answer? then 3 else 4);
    }
  }

  lemma SpoiledAdvances(s: System, e: Event)
    requires AtStage(s, 5) && Enabled(s, e)
    ensures Advances(s, 5, e, Step(s, e))
  {
    hide Inv, Marked, Owed, Reported;
    var n := Step(s, e);
    SpoiledStep(s, e);
    assert AtStage(n, if Spoiled(n) then 5 else 4);
    if Spoiled(n) && Forward(e) {
      SpoiledForwardShortens(s, e);
    }
  }

  /** A recovery makes progress at every stage: no step leads back, and the steps that lead on use up what is left. */
  lemma RecoveryAdvances(s: System, k: nat, e: Event)
    requires AtStage(s, k) && k > 0 && Enabled(s, e) && Faithful(s, e) && (e.Take? ==> HasNoZeroPixel(e.work))
    ensures Advances(s, k, e, Step(s, e))
  {
    hide Advances, Step, Faithful, HasNoZeroPixel, Inv;
    if k == 5 {
      SpoiledAdvances(s, e);
    } else if k == 1 || k == 6 {
      MarkedAdvances(s, k, e);
    } else if k == 2 || k == 7 {
      OwedAdvances(s, k, e);
    } else {
      ReportAdvances(s, k, e);
    }
  }

  ghost predicate GoesOn(s: System, e: Event) {
    LeadsOn(s, e) && Enabled(s, e) && Faithful(s, e) && (e.Take? ==> HasNoZeroPixel(e.work))
  }

  /** And some step leads on, if a server that owes an update has noticed its damage. */
  lemma RecoveryNeverRests(s: System, k: nat)
    requires AtStage(s, k) && k > 0 && (Owed(s) ==> s.server.timerActive || s.server.updateAvailable)
    ensures exists e :: GoesOn(s, e)
  {
    hide Inv, Encodes;
    var scene := White(s.server.work);
    WholeFrameEncodes(s.server.work, scene);
    var e :=
      if s.toClient != [] then Deliver
      else if s.toServer != [] then Answer
      else if !s.server.clientReady then if s.client.loads[0].patch.Remote? then Fetch(0) else Loaded(0)
      else if s.server.updateAvailable then Take([UpdateOf(scene.Bounds())], scene, {})
      else Timer;
    assert GoesOn(s, e);
  }

  // ---------- continuations that stay at some stage

  /** Whatever happens, image failures included, the protocol is in its invariant or at a stage of a recovery. */
  ghost predicate AlwaysMending(s: System) {
    forall t :: Reaches(FAILING, s, t) ==> exists k: nat :: AtStage(t, k)
  }

  lemma StageRecovers(s: System, k: nat)
    requires AtStage(s, k)
    ensures Recovering(s)
  {
    hide Inv, Spoiled, Owed, Reported, Reporting, IsMarked;
  }

  lemma RecoveringStays(s: System, t: System)
    requires Recovering(s) && Reaches(FAILING, s, t)
    ensures Recovering(t)
  {
    hide Recovering, Reaches, Happens;
    forall a, h, b | Recovering(a) && Happens(FAILING, a, h, b) ensures Recovering(b) {
      RecoveryGoesOn(a, h, b);
    }
    ContinuationKeeps(FAILING, Recovering, s, t);
  }

  lemma RecoveringAlwaysMends(s: System)
    requires Recovering(s)
    ensures AlwaysMending(s)
  {
    hide Recovering, Reaches, AtStage;
    forall t | Reaches(FAILING, s, t) ensures exists k: nat :: AtStage(t, k) {
      RecoveringStays(s, t);
      RecoveringHasStage(t);
    }
  }

  lemma MendingReturns(s: System)
    requires AlwaysMending(s)
    ensures AlwaysReturns(s)
  {
    hide Recovering, Reaches, AtStage, Returns;
    forall t | Reaches(FAILING, s, t) ensures Returns(t) {
      var k: nat :| AtStage(t, k);
      StageRecovers(t, k);
      RecoveringReturns(t);
    }
  }

  /** What that means for the page: whenever the server may send, has nothing to hear and owes no full update, both
      canvases show its buffer; and out of the invariant some step leads on, once the server has noticed its damage. */
  lemma MendingPage(s: System, t: System)
    requires AlwaysMending(s) && Reaches(FAILING, s, t)
    ensures t.server.clientReady && t.toServer == [] && !t.server.fullUpdateRequested ==>
              t.client.frontCanvas == t.client.canvas == t.server.work
    ensures Inv(t) || (Owed(t) && !t.server.timerActive && !t.server.updateAvailable) || exists e :: GoesOn(t, e)
  {
    hide Inv, Reaches, Owed, GoesOn;
    var k: nat :| AtStage(t, k);
    StageShows(t, k);
    if k > 0 && (Owed(t) ==> t.server.timerActive || t.server.updateAvailable) {
      RecoveryNeverRests(t, k);
    } else if k == 0 {
      StageZero(t);
    }
  }

  lemma StageZero(s: System)
    requires AtStage(s, 0)
    ensures Inv(s)
  {
    hide Inv;
  }

  lemma StageShows(s: System, k: nat)
    requires AtStage(s, k)
    ensures s.server.clientReady && s.toServer == [] && !s.server.fullUpdateRequested ==> AllEqual(s)
  {
    hide Converging, PatchesMatch;
  }

  // ---------- runs in which images fail to load

  /** A server that owes a full update has noticed its damage. */
  ghost predicate Prompt(s: System) {
    Inv(s) || (Owed(s) ==> s.server.timerActive || s.server.updateAvailable)
  }

  lemma EventKeepsPrompt(s: System, e: Event)
    requires Recovering(s) && !Inv(s) && Prompt(s) && Enabled(s, e) && Faithful(s, e) && Solid(s, e)
    ensures Prompt(Step(s, e))
  {
    hide Inv, Spoiled, Encodes, Marked;
    if Spoiled(s) {
      SpoiledStep(s, e);
      SpoiledIsNotOwed(Step(s, e));
    } else if Reporting(s) {
      ReportingStep(s, e);
    } else if Reported(s) {
      ReportedStep(s, e);
    } else if Owed(s) {
      OwedStep(s, e);
      if e.Take? && IsUpdateAvailable(s.server) {
        OwedTake(s, e.ops, e.work, e.large);
        MarkedIsNotOwed(Step(s, e), |s.toClient|);
      }
    } else {
      var k: nat :| Marked(s, k);
      MarkedStep(s, k, e);
      MarkedIsNotOwed(Step(s, e), if e.Deliver? && k > 0 then k - 1 else k);
      SpoiledIsNotOwed(Step(s, e));
    }
  }

  lemma SpoiledIsNotOwed(s: System)
    ensures Spoiled(s) ==> !Owed(s)
  {
  }

  lemma MarkedIsNotOwed(s: System, k: nat)
    ensures Marked(s, k) ==> !Owed(s)
  {
  }

  lemma HappeningKeepsPrompt(s: System, h: Happening, n: System)
    requires Recovering(s) && Prompt(s) && Happens(FAILING, s, h, n)
    ensures Prompt(n)
  {
    hide Inv, Spoiled, Reporting, Reported, Step, Faithful;
    if h.LoadFails? {
      FailureStep(s, h.i);
      SpoiledIsNotOwed(n);
      ReportingIsNotOwed(n);
    } else if Inv(s) {
      StepKeepsInv(s, h.event);
    } else {
      EventKeepsPrompt(s, h.event);
    }
  }

  lemma ReportingIsNotOwed(s: System)
    ensures Reporting(s) ==> !Owed(s)
  {
  }

  /** Between failure and full update the page waits. */
  ghost predicate Mending(s: System) {
    Recovering(s) && Prompt(s) && (Inv(s) || Spoiled(s) || s.client.waitingForFullUpdate)
  }

  lemma MendingMeans(s: System)
    requires Mending(s)
    ensures s.server.clientReady && !s.client.waitingForFullUpdate ==> AllEqual(s)
    ensures RequestFullUpdate(false) !in s.toServer
  {
  }

  /** Over runs in which any images may fail: whenever the server may send and the page waits for no full update, both
      canvases show the server's buffer; the page never asks for an unforced full update; and in every state the
      protocol is at a stage from which some step leads on, and from which it can come back to its invariant. */
  lemma FailuresAreMended(s: System, t: System)
    requires Initial(s) && Reaches(FAILING, s, t)
    ensures t.server.clientReady && !t.client.waitingForFullUpdate ==> t.client.frontCanvas == t.client.canvas == t.server.work
    ensures RequestFullUpdate(false) !in t.toServer
    ensures exists k: nat :: AtStage(t, k) && (k > 0 ==> exists e :: GoesOn(t, e))
    ensures Returns(t)
  {
    hide Recovering, Prompt, Returns, Reaches, Happens, Inv, Spoiled, Initial, AtStage, GoesOn;
    InitialInv(s);
    InvMends(s);
    forall a, h, b | Mending(a) && Happens(FAILING, a, h, b) ensures Mending(b) {
      RecoveryGoesOn(a, h, b);
      HappeningKeepsPrompt(a, h, b);
    }
    ContinuationKeeps(FAILING, Mending, s, t);
    MendingMeans(t);
    MendingGoesOn(t);
    RecoveringReturns(t);
  }

  ghost predicate Attended(s: System) {
    Recovering(s) && Prompt(s)
  }

  /** A recovery whose damage has been noticed never rests. */
  lemma AttendedGoesOn(s: System, t: System)
    requires Attended(s) && Reaches(FAILING, s, t)
    ensures Inv(t) || exists e :: GoesOn(t, e)
  {
    hide Recovering, Prompt, Reaches, Happens, Inv, AtStage, GoesOn;
    forall a, h, b | Attended(a) && Happens(FAILING, a, h, b) ensures Attended(b) {
      RecoveryGoesOn(a, h, b);
      HappeningKeepsPrompt(a, h, b);
    }
    ContinuationKeeps(FAILING, Attended, s, t);
    MendingGoesOn(t);
    var k: nat :| AtStage(t, k) && (k > 0 ==> exists e :: GoesOn(t, e));
    if k == 0 {
      StageZero(t);
    }
  }

  lemma MendingGoesOn(s: System)
    requires Recovering(s) && Prompt(s)
    ensures exists k: nat :: AtStage(s, k) && (k > 0 ==> exists e :: GoesOn(s, e))
  {
    hide Recovering, Inv, GoesOn, Owed, Spoiled, Reported, Reporting, IsMarked;
    if Inv(s) {
      assert AtStage(s, 0);
    } else {
      RecoveringHasStage(s);
      var k: nat :| AtStage(s, k);
      RecoveryNeverRests(s, k);
    }
  }

  lemma InvMends(s: System)
    requires Inv(s)
    ensures Mending(s)
  {
  }
}
