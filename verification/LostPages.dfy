/** The page asks for a full update without forcing it: when it gets one, and when it waits for ever. */
module LostPages {
  import opened Images
  import opened ImageAux
  import opened OpTools
  import opened Canvas
  import opened Protocol
  import opened ProtocolSafety
  import opened Continuations

  /** Whatever happens, the page goes on waiting. */
  ghost predicate WaitsForever(r: Rules, s: System) {
    forall t :: Reaches(r, s, t) ==> t.client.waitingForFullUpdate
  }

  // ---------- how a page begins to wait

  function DeliverAll(c: Client, q: seq<Message>): (Client, seq<ClientMessage>)
    decreases |q|
  {
    if q == [] then (c, [])
    else
      var (d, sent) := MessageCallback(c, q[0]);
      var (e, more) := DeliverAll(d, q[1..]);
      (e, sent + more)
  }

  lemma {:induction false} WaitingIgnores(c: Client, q: seq<Message>)
    requires c.waitingForFullUpdate && NoMark(q)
    ensures DeliverAll(c, q) == (c, [])
    decreases |q|
  {
    if q != [] {
      assert q[0] in q && forall m :: m in q[1..] ==> m in q;
      assert MessageCallback(c, q[0]) == (c, []);
      WaitingIgnores(c, q[1..]);
      var nothing: seq<ClientMessage> := [];
      assert nothing + nothing == nothing;
    }
  }

  /** A page that is interrupted by another frame while images load asks once for a full update, unforced, and ignores
      everything up to its mark. */
  lemma InterruptedPageWaits(c: Client, q: seq<Message>)
    requires !c.waitingForFullUpdate && c.pendingPatchesCount != 0 && q != [] && NoMark(q) && c.lastFrame != Some(q[0].frame)
    ensures var (d, sent) := DeliverAll(c, q);
            && sent == [RequestFullUpdate(false)]
            && d == c.(lastFrame := Some(q[0].frame), pendingPatchesCount := 0, waitingForFullUpdate := true)
  {
    assert q[0] in q && forall m :: m in q[1..] ==> m in q;
    WaitingIgnores(MessageCallback(c, q[0]).0, q[1..]);
    assert [RequestFullUpdate(false)] + [] == [RequestFullUpdate(false)];
  }

  // ---------- the invariant of a lost page

  /** Unforced requests first, and then the answers that will make the server forget them. */
  ghost predicate RequestsFirst(q: seq<ClientMessage>) {
    && (forall m :: m in q ==> m == Ready || m == RequestFullUpdate(false))
    && (forall i, j :: 0 <= i < j < |q| && q[i].Ready? ==> q[j].Ready?)
  }

  /** Every patch that is still to be fetched is stored, each for one image. */
  ghost predicate Stored(out: seq<Payload>, patches: Patches) {
    && (forall i, id :: 0 <= i < |out| && Names(out, i, id) ==> id in patches)
    && (forall i, j, id :: 0 <= i < j < |out| && Names(out, i, id) ==> !Names(out, j, id))
  }

  /** No mark is on its way, and the server, whenever it may send, has none to send. */
  ghost predicate Lost(s: System) {
    && s.client.waitingForFullUpdate && s.client.frameErrors == 0 && s.client.pendingPatchesCount == |s.client.loads|
    && NoMark(s.toClient)
    && RequestsFirst(s.toServer)
    && (s.server.clientReady ==> !s.server.fullUpdateRequested && RequestFullUpdate(false) !in s.toServer)
    && (s.client.loads != [] ==>
          !s.server.clientReady && Ready !in s.toServer && Stored(LoadPayloads(s.client.loads), s.server.patches))
  }

  lemma TakeKeepsLost(s: System, ops: seq<UpdateOperation>, work: Image, large: set<int>)
    requires Lost(s) && IsUpdateAvailable(s.server)
    ensures Lost(Step(s, Take(ops, work, large)))
  {
    hide FrameMessages, PatchesUpTo;
    UnmarkedFrame(ops, work, NextFrame(s.server, ops, work).frame, large);
  }

  lemma DeliverKeepsLost(s: System)
    requires Lost(s) && Enabled(s, Deliver)
    ensures Lost(Step(s, Deliver))
  {
    assert s.toClient[0] in s.toClient;
    assert forall m :: m in s.toClient[1..] ==> m in s.toClient;
    assert s.toServer + [] == s.toServer;
  }

  lemma FetchKeepsStored(out: seq<Payload>, i: nat, patches: Patches, id: (int, int), next: seq<Payload>)
    requires i < |out| && Stored(out, patches) && Names(out, i, id)
    requires |next| == |out| && !IsRemote(next[i]) && forall j :: 0 <= j < |out| && j != i ==> next[j] == out[j]
    ensures Stored(next, patches - {id})
  {
    forall j, k | 0 <= j < |next| && Names(next, j, k) ensures Names(out, j, k) && k in patches - {id} {
      assert j != i && Names(out, j, k);
      assert !Names(out, j, id);
    }
  }

  lemma FetchKeepsLost(s: System, i: nat)
    requires Lost(s) && Enabled(s, Fetch(i))
    ensures Lost(Step(s, Fetch(i)))
  {
    var l := s.client.loads[i];
    var out := LoadPayloads(s.client.loads);
    assert Names(out, i, l.patch.id);
    var loads := s.client.loads[i := Load(l.rect, Inline(s.server.patches[l.patch.id]))];
    FetchKeepsStored(out, i, s.server.patches, l.patch.id, LoadPayloads(loads));
  }

  lemma WithoutKeepsStored(out: seq<Payload>, i: nat, patches: Patches)
    requires i < |out| && Stored(out, patches)
    ensures Stored(Without(out, i), patches)
  {
    var less := Without(out, i);
    forall j, id | 0 <= j < |less| && Names(less, j, id) ensures Names(out, if j < i then j else j + 1, id) {
    }
  }

  lemma LoadsWithout(loads: seq<Load>, i: nat)
    requires i < |loads|
    ensures LoadPayloads(Without(loads, i)) == Without(LoadPayloads(loads), i)
  {
    OutstandingWithout(loads, i, []);
    assert LoadPayloads(Without(loads, i)) + [] == LoadPayloads(Without(loads, i)) && LoadPayloads(loads) + [] == LoadPayloads(loads);
  }

  lemma LoadedKeepsLost(s: System, i: nat)
    requires Lost(s) && Enabled(s, Loaded(i))
    ensures Lost(Step(s, Loaded(i)))
  {
    hide Stored, LoadPayloads;
    LoadsWithout(s.client.loads, i);
    WithoutKeepsStored(LoadPayloads(s.client.loads), i, s.server.patches);
    assert |Without(s.client.loads, i)| == |s.client.loads| - 1;
    assert s.toServer + [] == s.toServer;
  }

  lemma AnswerKeepsLost(s: System)
    requires Lost(s) && Enabled(s, Answer)
    ensures Lost(Step(s, Answer))
  {
    var m, rest := s.toServer[0], s.toServer[1..];
    assert m in s.toServer;
    assert forall o :: o in rest ==> o in s.toServer;
    forall i, j | 0 <= i < j < |rest| && rest[i].Ready? ensures rest[j].Ready? {
      assert s.toServer[i + 1].Ready?;
    }
    if m.Ready? {
      assert forall j :: 0 < j < |s.toServer| ==> s.toServer[j].Ready?;
      assert RequestFullUpdate(false) !in rest;
    }
  }

  lemma StepKeepsLost(s: System, e: Event)
    requires Lost(s) && Enabled(s, e)
    ensures Lost(Step(s, e))
  {
    match e
    case Damage =>
    case Timer =>
    case Take(ops, work, large) =>
      if IsUpdateAvailable(s.server) {
        TakeKeepsLost(s, ops, work, large);
      }
    case Deliver => DeliverKeepsLost(s);
    case Fetch(i) => FetchKeepsLost(s, i);
    case Loaded(i) => LoadedKeepsLost(s, i);
    case Answer => AnswerKeepsLost(s);
  }

  lemma LostForever(s: System)
    requires Lost(s)
    ensures WaitsForever(PLAIN, s)
  {
    hide Lost, Reaches;
    forall a, h, b | Lost(a) && Happens(PLAIN, a, h, b) ensures Lost(b) {
      StepKeepsLost(a, h.event);
    }
    forall t | Reaches(PLAIN, s, t) ensures t.client.waitingForFullUpdate {
      ContinuationKeeps(PLAIN, Lost, s, t);
      LostWaits(t);
    }
  }

  lemma LostWaits(s: System)
    requires Lost(s)
    ensures s.client.waitingForFullUpdate
  {
  }

  // ---------- when a request loses the page

  /** The server is not ready, no answer is on its way to it, and no full-update mark is on its way to the page. */
  predicate FrameIsOnItsWay(s: System) {
    !s.server.clientReady && s.toServer == [] && (s.toClient == [] || !s.toClient[0].FullUpdate?)
  }

  lemma RequestLoses(s: System)
    requires Inv(s) && FrameIsOnItsWay(s)
    ensures Lost(PageRequests(s))
  {
    var q, out := s.toClient, Outstanding(s);
    assert s.toServer + [RequestFullUpdate(false)] == [RequestFullUpdate(false)];
    if InFlight(s) {
      forall m | m in q ensures !m.FullUpdate? {
        var j :| 0 <= j < |q| && q[j] == m;
      }
    }
    forall i, id | 0 <= i < |LoadPayloads(s.client.loads)|
      ensures Names(LoadPayloads(s.client.loads), i, id) <==> Names(out, i, id)
    {
    }
  }

  /** One step back: what can still recover after a step can recover before it. */
  lemma RecoversBefore(r: Rules, s: System, h: Happening, n: System)
    requires Happens(r, s, h, n) && !WaitsForever(r, n)
    ensures !WaitsForever(r, s)
  {
    hide Happens, Reaches;
    var t :| Reaches(r, n, t) && !t.client.waitingForFullUpdate;
    ReachesAfter(r, s, h, n, t);
  }

  lemma MarkIsDelivered(s: System)
    requires s.toClient != [] && s.toClient[0].FullUpdate?
    ensures !WaitsForever(PLAIN, s)
  {
    hide Reaches;
    var n := Step(s, Deliver);
    ReachesItself(PLAIN, n);
    RecoversBefore(PLAIN, s, Usual(Deliver), n);
  }

  /** The next take finds nothing to draw but a mark to send. */
  lemma MarkReaches(s: System)
    requires s.server.clientReady && s.server.patches == map[] && s.server.fullUpdateRequested
    requires forall m :: m in s.toClient ==> m.FullUpdate?
    ensures !WaitsForever(PLAIN, s)
  {
    hide WaitsForever;
    var take := Take([], s.server.work, {});
    var s1 := Step(s, Damage);
    var s2 := Step(s1, Timer);
    var s3 := Step(s2, take);
    assert s3.toClient == s.toClient + [FullUpdate(s.server.frame)];
    assert s3.toClient[0].FullUpdate?;
    MarkIsDelivered(s3);
    NothingEncodes(s.server.work);
    RecoversBefore(PLAIN, s2, Usual(take), s3);
    RecoversBefore(PLAIN, s1, Usual(Timer), s2);
    RecoversBefore(PLAIN, s, Usual(Damage), s1);
  }

  lemma NothingEncodes(i: Image)
    ensures Encodes([], i, i)
  {
  }

  lemma RequestCanBeMet(s: System)
    requires Inv(s) && !FrameIsOnItsWay(s)
    ensures !WaitsForever(PLAIN, PageRequests(s))
  {
    hide WaitsForever;
    var r := PageRequests(s);
    if s.server.clientReady {
      IdleHasNothingOutstanding(s);
      MarkReaches(Step(r, Answer));
      RecoversBefore(PLAIN, r, Usual(Answer), Step(r, Answer));
    } else if s.toServer == [] {
      MarkIsDelivered(r);
    } else {
      var a := Step(r, Answer);
      MarkReaches(Step(a, Answer));
      RecoversBefore(PLAIN, a, Usual(Answer), Step(a, Answer));
      RecoversBefore(PLAIN, r, Usual(Answer), a);
    }
  }

  /** A page that asks for an unforced full update, and does not ask again, waits for ever exactly when a frame is on
      its way to it or being drawn. A page that is drawing answers that frame, and the answer makes the server forget
      the request; a page that the frame has still to reach ignores its end and never answers. */
  lemma UnforcedRequestLosesPage(s: System)
    requires Inv(s)
    ensures WaitsForever(PLAIN, PageRequests(s)) <==> FrameIsOnItsWay(s)
  {
    hide WaitsForever;
    if FrameIsOnItsWay(s) {
      RequestLoses(s);
      LostForever(PageRequests(s));
    } else {
      RequestCanBeMet(s);
    }
  }
}
