/** Safety of the frame protocol over whole runs: one token, no lost patches, and equal images at every hand-over. */
module ProtocolSafety {
  import opened Images
  import opened ImageAux
  import opened OpTools
  import opened Canvas
  import opened Protocol

  // ---------- what is still to be drawn

  function Payloads(q: seq<Message>): seq<Payload> {
    if q == [] then []
    else if q[0].Draw? then [q[0].payload] + Payloads(q[1..])
    else Payloads(q[1..])
  }

  lemma {:induction false} PayloadsConcat(a: seq<Message>, b: seq<Message>)
    ensures Payloads(a + b) == Payloads(a) + Payloads(b)
  {
    if a == [] {
      assert a + b == b;
    } else {
      PayloadsConcat(a[1..], b);
      assert (a + b)[1..] == a[1..] + b;
    }
  }

  lemma {:induction false} NoDrawNoPayload(q: seq<Message>)
    requires forall m :: m in q ==> !m.Draw?
    ensures Payloads(q) == []
  {
    if q != [] {
      NoDrawNoPayload(q[1..]);
    }
  }

  function LoadPayloads(loads: seq<Load>): (p: seq<Payload>)
    ensures |p| == |loads|
    ensures forall i :: 0 <= i < |loads| ==> p[i] == DrawPatch(loads[i].rect, loads[i].patch)
  {
    if loads == [] then [] else [DrawPatch(loads[0].rect, loads[0].patch)] + LoadPayloads(loads[1..])
  }

  /** In the images still loading and in the messages on their way to the client. */
  function Outstanding(s: System): seq<Payload> {
    LoadPayloads(s.client.loads) + Payloads(s.toClient)
  }

  const BLANK: Image := Raster(1, 1, [[0]])

  function Resolve(p: Payload, patches: Patches): Command {
    match p
    case Direct(c) => c
    case DrawPatch(rect, Inline(image)) => DrawImage(rect, image)
    case DrawPatch(rect, Remote(id)) => DrawImage(rect, if id in patches then patches[id] else BLANK)
  }

  function Resolved(out: seq<Payload>, patches: Patches): (c: seq<Command>)
    ensures |c| == |out|
    ensures forall i :: 0 <= i < |out| ==> c[i] == Resolve(out[i], patches)
  {
    if out == [] then [] else [Resolve(out[0], patches)] + Resolved(out[1..], patches)
  }

  predicate IsRemote(p: Payload) { p.DrawPatch? && p.patch.Remote? }

  predicate Names(out: seq<Payload>, i: int, id: (int, int))
    requires 0 <= i < |out|
  {
    IsRemote(out[i]) && out[i].patch.id == id
  }

  /** The server stores exactly the patches that are still to be fetched, each for one image. */
  ghost predicate PatchesMatch(out: seq<Payload>, patches: Patches) {
    && (forall i, id :: 0 <= i < |out| && Names(out, i, id) ==> id in patches)
    && (forall id :: id in patches ==> exists i :: 0 <= i < |out| && Names(out, i, id))
    && (forall i, j, id :: 0 <= i < j < |out| && Names(out, i, id) ==> !Names(out, j, id))
  }

  // ---------- the invariant

  ghost predicate OnlyFullUpdates(q: seq<Message>, frame: int) {
    forall m :: m in q ==> m.FullUpdate? && m.frame <= frame
  }

  /** What is left of a frame on its way: full-update marks first, then drawing, then the end. */
  ghost predicate FrameQueue(q: seq<Message>, frame: int) {
    && q != [] && q[|q| - 1] == End(frame)
    && (forall i :: 0 <= i < |q| - 1 ==> (q[i].Draw? && q[i].frame == frame) || (q[i].FullUpdate? && q[i].frame <= frame))
    && (forall i, j :: 0 <= i < j < |q| && q[j].FullUpdate? ==> q[i].FullUpdate?)
  }

  ghost predicate AllEqual(s: System) {
    s.client.canvas == s.server.work && s.client.frontCanvas == s.server.work
  }

  /** Whatever is outstanding leads, in any order, to the server's work buffer. */
  ghost predicate Converging(s: System) {
    && AllSound(Resolved(Outstanding(s), s.server.patches), s.client.frontCanvas, s.server.work)
    && Complete(s.client.canvas, Resolved(Outstanding(s), s.server.patches), s.server.work)
  }

  ghost predicate Idle(s: System) {
    s.server.clientReady && s.toServer == [] && s.client.loads == [] && OnlyFullUpdates(s.toClient, s.server.frame) && AllEqual(s)
  }

  ghost predicate InFlight(s: System) {
    && !s.server.clientReady && s.toServer == [] && FrameQueue(s.toClient, s.server.frame) && Converging(s)
    && (s.toClient[0].FullUpdate? ==> s.client.loads == [])
    && (if s.client.lastFrame == Some(s.server.frame) then !s.client.frameEndReceived else s.client.loads == [])
  }

  ghost predicate Rendering(s: System) {
    !s.server.clientReady && s.toServer == [] && s.toClient == [] && s.client.frameEndReceived && s.client.loads != [] && Converging(s)
  }

  ghost predicate Answering(s: System) {
    !s.server.clientReady && s.toServer == [Ready] && s.toClient == [] && s.client.loads == [] && AllEqual(s)
  }

  ghost predicate Inv(s: System) {
    && s.client.canvas.SameSize(s.server.work) && s.client.frontCanvas.SameSize(s.server.work)
    && !s.client.waitingForFullUpdate && s.client.frameErrors == 0 && s.client.pendingPatchesCount == |s.client.loads|
    && (s.client.lastFrame.Some? ==> s.client.lastFrame.value <= s.server.frame)
    && PatchesMatch(Outstanding(s), s.server.patches)
    && (s.server.clientReady && s.server.updatesAvailable ==> s.server.timerActive || s.server.updateAvailable)
    && (Idle(s) || InFlight(s) || Rendering(s) || Answering(s))
  }

  lemma InitialInv(s: System)
    requires Initial(s)
    ensures Inv(s)
  {
    assert Outstanding(s) == [];
  }

  // ---------- taking a frame

  ghost predicate IdsBelow(out: seq<Payload>, frame: int, n: int) {
    forall i, id :: 0 <= i < |out| && Names(out, i, id) ==> id.0 == frame && id.1 < n
  }

  ghost predicate FrameReady(q: seq<Message>, patches: Patches, ops: seq<UpdateOperation>, n: nat, work: Image, frame: int)
    requires n <= |ops|
  {
    && Resolved(Payloads(q), patches) == Commands(ops[..n], work)
    && PatchesMatch(Payloads(q), patches)
    && IdsBelow(Payloads(q), frame, n)
    && (forall m :: m in q ==> m.Draw? && m.frame == frame)
  }

  /** The messages of a frame resolve to the commands of its operations. */
  lemma {:induction false} FrameResolves(ops: seq<UpdateOperation>, n: nat, work: Image, frame: int, large: set<int>)
    requires n <= |ops|
    ensures FrameReady(MessagesUpTo(ops, n, work, frame, large), PatchesUpTo(ops, n, work, frame, large, map[]), ops, n, work, frame)
  {
    if n > 0 {
      FrameResolves(ops, n - 1, work, frame, large);
      var q := MessagesUpTo(ops, n - 1, work, frame, large);
      var patches := PatchesUpTo(ops, n - 1, work, frame, large, map[]);
      if ops[n - 1].kind.NoOp? {
        NoOpStep(q, patches, ops, n, work, frame);
        assert q + [] == q;
      } else {
        FrameStep(q, patches, ops, n, work, frame, large);
      }
    } else {
      assert ops[..0] == [];
    }
  }

  ghost predicate NoMark(q: seq<Message>) {
    forall m :: m in q ==> !m.FullUpdate?
  }

  lemma UnmarkedFrame(ops: seq<UpdateOperation>, work: Image, frame: int, large: set<int>)
    ensures NoMark(FrameMessages(false, ops, work, frame, large))
  {
    FrameResolves(ops, |ops|, work, frame, large);
    forall m | m in FrameMessages(false, ops, work, frame, large) ensures !m.FullUpdate? {
      assert m in MessagesUpTo(ops, |ops|, work, frame, large) || m == End(frame);
    }
  }

  lemma NoOpStep(q: seq<Message>, patches: Patches, ops: seq<UpdateOperation>, n: nat, work: Image, frame: int)
    requires 0 < n <= |ops| && FrameReady(q, patches, ops, n - 1, work, frame)
    requires ops[n - 1].kind.NoOp?
    ensures FrameReady(q, patches, ops, n, work, frame)
  {
    var last := [ops[n - 1]];
    CommandsConcat(ops[..n - 1], last, work);
    assert ops[..n] == ops[..n - 1] + last;
    assert last[1..] == [];
  }

  lemma FrameStep(q: seq<Message>, patches: Patches, ops: seq<UpdateOperation>, n: nat, work: Image, frame: int, large: set<int>)
    requires 0 < n <= |ops| && FrameReady(q, patches, ops, n - 1, work, frame)
    requires !ops[n - 1].kind.NoOp?
    ensures var stored := ops[n - 1].kind.Update? && n - 1 in large;
            var next := if stored then patches[(frame, n - 1) := CreatePatch(work, ops[n - 1].srcRect)] else patches;
            FrameReady(q + MessageOf(ops, n - 1, work, frame, large), next, ops, n, work, frame)
  {
    var m := MessageOf(ops, n - 1, work, frame, large)[0];
    var p := m.payload;
    var id := (frame, n - 1);
    var next := if IsRemote(p) then patches[id := CreatePatch(work, ops[n - 1].srcRect)] else patches;
    FreshId(Payloads(q), patches, frame, n - 1);
    AppendMatches(Payloads(q), patches, p, next, id);
    IdsAppend(Payloads(q), p, frame, n);
    PayloadsAppend(q, m);
    CommandsAppend(ops, n, work);
    assert Resolve(p, next) == ToCommand(ops[n - 1], work);
  }

  lemma FreshId(out: seq<Payload>, patches: Patches, frame: int, n: int)
    requires PatchesMatch(out, patches) && IdsBelow(out, frame, n)
    ensures (frame, n) !in patches && forall i :: 0 <= i < |out| ==> !Names(out, i, (frame, n))
  {
    assert forall i :: 0 <= i < |out| ==> !Names(out, i, (frame, n));
  }

  lemma IdsAppend(out: seq<Payload>, p: Payload, frame: int, n: int)
    requires IdsBelow(out, frame, n - 1) && (IsRemote(p) ==> p.patch.id == (frame, n - 1))
    ensures IdsBelow(out + [p], frame, n)
  {
    forall i, k | 0 <= i < |out + [p]| && Names(out + [p], i, k) ensures k.0 == frame && k.1 < n {
      assert i < |out| ==> Names(out, i, k);
    }
  }

  lemma PayloadsAppend(q: seq<Message>, m: Message)
    requires m.Draw?
    ensures Payloads(q + [m]) == Payloads(q) + [m.payload]
  {
    PayloadsConcat(q, [m]);
    assert [m][1..] == [];
  }

  lemma CommandsAppend(ops: seq<UpdateOperation>, n: nat, work: Image)
    requires 0 < n <= |ops| && !ops[n - 1].kind.NoOp?
    ensures Commands(ops[..n], work) == Commands(ops[..n - 1], work) + [ToCommand(ops[n - 1], work)]
  {
    var last := [ops[n - 1]];
    CommandsConcat(ops[..n - 1], last, work);
    assert ops[..n] == ops[..n - 1] + last;
    assert last[1..] == [];
  }

  lemma {:induction false} CommandsConcat(a: seq<UpdateOperation>, b: seq<UpdateOperation>, work: Image)
    ensures Commands(a + b, work) == Commands(a, work) + Commands(b, work)
  {
    if a == [] {
      assert a + b == b;
    } else {
      CommandsConcat(a[1..], b, work);
      assert (a + b)[1..] == a[1..] + b;
    }
  }

  /** Appending one payload, with its patch stored under a new id when it is remote. */
  lemma AppendMatches(out: seq<Payload>, patches: Patches, p: Payload, next: Patches, id: (int, int))
    requires PatchesMatch(out, patches)
    requires forall i :: 0 <= i < |out| ==> !Names(out, i, id)
    requires if IsRemote(p) then p.patch.id == id && id !in patches && id in next && next == patches[id := next[id]] else next == patches
    ensures PatchesMatch(out + [p], next)
    ensures Resolved(out + [p], next) == Resolved(out, patches) + [Resolve(p, next)]
  {
    var all := out + [p];
    forall i, k | 0 <= i < |all| && Names(all, i, k) ensures k in next {
      assert i < |out| ==> Names(out, i, k);
    }
    forall k | k in next ensures exists i :: 0 <= i < |all| && Names(all, i, k) {
      if IsRemote(p) && k == id {
        assert Names(all, |out|, k);
      } else {
        var i :| 0 <= i < |out| && Names(out, i, k);
        assert Names(all, i, k);
      }
    }
    forall i, j, k | 0 <= i < j < |all| && Names(all, i, k) ensures !Names(all, j, k) {
      assert Names(out, i, k);
      if j < |out| {
        assert !Names(out, j, k);
      }
    }
    forall i | 0 <= i < |out| ensures Resolve(out[i], next) == Resolve(out[i], patches) {
      if IsRemote(out[i]) {
        assert Names(out, i, out[i].patch.id);
      }
    }
  }

  lemma IdleHasNothingOutstanding(s: System)
    requires Inv(s) && s.server.clientReady
    ensures Outstanding(s) == [] && s.server.patches == map[]
  {
    NoDrawNoPayload(s.toClient);
  }

  lemma TakeNothingKeepsInv(s: System, work: Image, large: set<int>)
    requires Inv(s) && IsUpdateAvailable(s.server) && Encodes([], s.server.work, work)
    ensures Inv(Step(s, Take([], work, large)))
  {
    var n := Step(s, Take([], work, large));
    IdleHasNothingOutstanding(s);
    EmptyEncoding(s.server.work, work);
    assert forall m :: m in n.toClient ==> m in s.toClient || m == FullUpdate(s.server.frame);
    NoDrawNoPayload(n.toClient);
    assert Outstanding(n) == [];
  }

  lemma TakeFrameKeepsInv(s: System, ops: seq<UpdateOperation>, work: Image, large: set<int>)
    requires Inv(s) && IsUpdateAvailable(s.server) && Encodes(ops, s.server.work, work) && |ops| > 0
    ensures Inv(Step(s, Take(ops, work, large)))
  {
    var n := Step(s, Take(ops, work, large));
    IdleHasNothingOutstanding(s);
    FrameIsTaken(s, ops, work, large, n);
    EncodingIsComplete(ops, s.server.work, work);
    assert InFlight(n);
  }

  lemma FrameIsTaken(s: System, ops: seq<UpdateOperation>, work: Image, large: set<int>, n: System)
    requires s.client.loads == [] && OnlyFullUpdates(s.toClient, s.server.frame)
    requires IsUpdateAvailable(s.server) && s.server.patches == map[] && |ops| > 0
    requires n == Step(s, Take(ops, work, large))
    ensures FrameQueue(n.toClient, n.server.frame)
    ensures Resolved(Outstanding(n), n.server.patches) == Commands(ops, work)
    ensures PatchesMatch(Outstanding(n), n.server.patches)
  {
    var frame := s.server.frame + 1;
    var marks := s.toClient + (if s.server.fullUpdateRequested then [FullUpdate(frame)] else []);
    var body := MessagesUpTo(ops, |ops|, work, frame, large);
    assert n.toClient == marks + body + [End(frame)];
    FrameResolves(ops, |ops|, work, frame, large);
    assert ops[..|ops|] == ops;
    NewFrameQueue(marks, body, frame);
    assert Outstanding(n) == Payloads(body);
  }

  lemma EmptyEncoding(before: Image, after: Image)
    requires Encodes([], before, after)
    ensures before == after
  {
    forall x, y | before.Has(x, y) ensures before.At(x, y) == after.At(x, y) {
      assert !WritesTo([], x, y);
      assert !Differs(before, after, x, y);
    }
    assert SameContent(before, after);
    SameContentIsEqual(before, after);
  }

  lemma NewFrameQueue(marks: seq<Message>, body: seq<Message>, frame: int)
    requires forall m :: m in marks ==> m.FullUpdate? && m.frame <= frame
    requires forall m :: m in body ==> m.Draw? && m.frame == frame
    ensures FrameQueue(marks + body + [End(frame)], frame)
    ensures Payloads(marks + body + [End(frame)]) == Payloads(body)
  {
    var q := marks + body + [End(frame)];
    forall i | 0 <= i < |q| - 1
      ensures if i < |marks| then q[i] in marks else q[i] in body
    {
    }
    PayloadsConcat(marks + body, [End(frame)]);
    PayloadsConcat(marks, body);
    NoDrawNoPayload(marks);
    NoDrawNoPayload([End(frame)]);
  }

  // ---------- the client's steps

  lemma DoneIsEqual(s: System)
    requires Converging(s) && Outstanding(s) == []
    ensures s.client.canvas == s.server.work
  {
    assert Resolved(Outstanding(s), s.server.patches) == [];
    assert SameContent(s.client.canvas, s.server.work) by {
      forall x, y | s.server.work.Has(x, y) ensures s.client.canvas.At(x, y) == s.server.work.At(x, y) {
        assert !Targeted([], x, y);
      }
    }
    SameContentIsEqual(s.client.canvas, s.server.work);
  }

  lemma QueueTail(q: seq<Message>, frame: int)
    requires FrameQueue(q, frame) && |q| > 1
    ensures FrameQueue(q[1..], frame)
  {
    var t := q[1..];
    forall i, j | 0 <= i < j < |t| && t[j].FullUpdate? ensures t[i].FullUpdate? {
      assert q[j + 1].FullUpdate?;
    }
    forall i | 0 <= i < |t| - 1 ensures t[i] == q[i + 1] {
    }
  }

  lemma DeliverMarkKeepsInv(s: System)
    requires Inv(s) && s.toClient != [] && s.toClient[0].FullUpdate?
    ensures Inv(Step(s, Deliver))
  {
    var n := Step(s, Deliver);
    assert s.client.loads == [];
    assert s.toClient[0] in s.toClient;
    if InFlight(s) {
      QueueTail(s.toClient, s.server.frame);
    } else {
      assert forall m :: m in n.toClient ==> m in s.toClient;
    }
    assert Outstanding(n) == Outstanding(s);
  }

  lemma DeliverEndKeepsInv(s: System)
    requires Inv(s) && s.toClient != [] && s.toClient[0].End?
    ensures Inv(Step(s, Deliver))
  {
    var n := Step(s, Deliver);
    assert InFlight(s);
    assert s.toClient == [s.toClient[0]];
    assert Payloads(s.toClient) == [] && Payloads(n.toClient) == [];
    assert Outstanding(n) == Outstanding(s);
    if s.client.loads == [] {
      DoneIsEqual(s);
    }
  }

  /** An image element is started: its patch only moves from the messages to the loads. */
  lemma DeliverPatchKeepsInv(s: System)
    requires Inv(s) && s.toClient != [] && s.toClient[0].Draw? && s.toClient[0].payload.DrawPatch?
    ensures Inv(Step(s, Deliver))
  {
    hide AllSound, Complete, PatchesMatch;
    var n := Step(s, Deliver);
    var p := s.toClient[0].payload;
    assert InFlight(s);
    QueueTail(s.toClient, s.server.frame);
    assert LoadPayloads(n.client.loads) == LoadPayloads(s.client.loads) + [p];
    assert Outstanding(n) == Outstanding(s);
  }

  lemma DeliverCommandKeepsInv(s: System)
    requires Inv(s) && s.toClient != [] && s.toClient[0].Draw? && s.toClient[0].payload.Direct?
    ensures Inv(Step(s, Deliver))
  {
    hide AllSound, Complete, PatchesMatch, Paint, Converging;
    var n := Step(s, Deliver);
    assert InFlight(s);
    QueueTail(s.toClient, s.server.frame);
    assert Outstanding(n) == Without(Outstanding(s), |s.client.loads|);
    ExecutedKeepsConverging(s, |s.client.loads|, n);
  }

  /** A patch to draw becomes an image element; any other command is executed at once. */
  lemma DeliverDrawKeepsInv(s: System)
    requires Inv(s) && s.toClient != [] && s.toClient[0].Draw?
    ensures Inv(Step(s, Deliver))
  {
    hide Inv, Step;
    match s.toClient[0].payload
    case DrawPatch(_, _) => DeliverPatchKeepsInv(s);
    case Direct(_) => DeliverCommandKeepsInv(s);
  }

  /** Executing the outstanding payload at i, wherever it stands, keeps the rest converging and stored. */
  lemma ExecutedKeepsConverging(s: System, i: nat, n: System)
    requires i < |Outstanding(s)| && Converging(s) && PatchesMatch(Outstanding(s), s.server.patches)
    requires !IsRemote(Outstanding(s)[i])
    requires n.server == s.server && n.client.frontCanvas == s.client.frontCanvas
    requires n.client.canvas == Paint(s.client.canvas, s.client.frontCanvas, Resolve(Outstanding(s)[i], s.server.patches))
    requires Outstanding(n) == Without(Outstanding(s), i)
    ensures Converging(n) && PatchesMatch(Outstanding(n), n.server.patches)
  {
    var cmds := Resolved(Outstanding(s), s.server.patches);
    PaintKeepsComplete(s.client.canvas, s.client.frontCanvas, cmds, i, s.server.work);
    assert Resolved(Outstanding(n), s.server.patches) == cmds[..i] + cmds[i + 1..];
    WithoutMatches(Outstanding(s), i, s.server.patches);
  }

  lemma WithoutMatches(out: seq<Payload>, i: nat, patches: Patches)
    requires i < |out| && PatchesMatch(out, patches) && !IsRemote(out[i])
    ensures PatchesMatch(Without(out, i), patches)
  {
    var less := Without(out, i);
    forall j, id | 0 <= j < |less| && Names(less, j, id) ensures Names(out, if j < i then j else j + 1, id) {
    }
    forall id | id in patches ensures exists j :: 0 <= j < |less| && Names(less, j, id) {
      var j :| 0 <= j < |out| && Names(out, j, id);
      assert Names(less, if j < i then j else j - 1, id);
    }
  }

  // ---------- images

  /** A patch that the server is asked for is always there, and it is handed out once. */
  lemma FetchKeepsInv(s: System, i: nat)
    requires Inv(s) && Enabled(s, Fetch(i))
    ensures s.client.loads[i].patch.id in s.server.patches
    ensures Inv(Step(s, Fetch(i)))
  {
    hide AllSound, Complete, FrameQueue, AllEqual;
    var n := Step(s, Fetch(i));
    var out := Outstanding(s);
    var id := s.client.loads[i].patch.id;
    assert Names(out, i, id);
    var p := DrawPatch(s.client.loads[i].rect, Inline(s.server.patches[id]));
    assert LoadPayloads(n.client.loads) == LoadPayloads(s.client.loads)[i := p];
    assert Outstanding(n) == out[i := p];
    FetchedMatches(out, i, s.server.patches, id);
    assert InFlight(s) || Rendering(s);
  }

  lemma FetchedMatches(out: seq<Payload>, i: nat, patches: Patches, id: (int, int))
    requires i < |out| && PatchesMatch(out, patches) && Names(out, i, id) && id in patches
    ensures var next := out[i := DrawPatch(out[i].rect, Inline(patches[id]))];
            PatchesMatch(next, patches - {id}) && Resolved(next, patches - {id}) == Resolved(out, patches)
  {
    var next := out[i := DrawPatch(out[i].rect, Inline(patches[id]))];
    forall j, k | 0 <= j < |next| && Names(next, j, k) ensures Names(out, j, k) && k != id {
      assert !Names(out, j, id);
    }
    forall k | k in patches - {id} ensures exists j :: 0 <= j < |next| && Names(next, j, k) {
      var j :| 0 <= j < |out| && Names(out, j, k);
      assert Names(next, j, k);
    }
    forall j | 0 <= j < |out| ensures Resolve(next[j], patches - {id}) == Resolve(out[j], patches) {
      if j != i && IsRemote(out[j]) {
        assert Names(out, j, out[j].patch.id);
        assert Names(next, j, out[j].patch.id);
      }
    }
  }

  /** The state in which onload has drawn the image, before _determineReadyState looks at the counters. */
  function Drawn(s: System, i: nat): System
    requires Enabled(s, Loaded(i))
  {
    var l := s.client.loads[i];
    s.(client := s.client.(canvas := Paint(s.client.canvas, s.client.frontCanvas, DrawImage(l.rect, l.patch.image)),
                           loads := Without(s.client.loads, i),
                           pendingPatchesCount := s.client.pendingPatchesCount - 1))
  }

  lemma OutstandingWithout(loads: seq<Load>, i: nat, rest: seq<Payload>)
    requires i < |loads|
    ensures LoadPayloads(Without(loads, i)) + rest == Without(LoadPayloads(loads) + rest, i)
  {
    var less, all := LoadPayloads(Without(loads, i)), LoadPayloads(loads);
    WithoutAt(loads, i);
    WithoutAt(all, i);
    assert less == Without(all, i);
    WithoutConcat(all, rest, i);
  }

  lemma WithoutAt<T>(a: seq<T>, i: nat)
    requires i < |a|
    ensures |Without(a, i)| == |a| - 1
    ensures forall j :: 0 <= j < |a| - 1 ==> Without(a, i)[j] == a[if j < i then j else j + 1]
  {
  }

  lemma WithoutConcat<T>(a: seq<T>, b: seq<T>, i: nat)
    requires i < |a|
    ensures Without(a, i) + b == Without(a + b, i)
  {
    assert (a + b)[i + 1..] == a[i + 1..] + b;
  }

  lemma DrawnConverges(s: System, i: nat)
    requires Enabled(s, Loaded(i)) && Converging(s) && PatchesMatch(Outstanding(s), s.server.patches)
    ensures Converging(Drawn(s, i)) && PatchesMatch(Outstanding(Drawn(s, i)), s.server.patches)
  {
    OutstandingWithout(s.client.loads, i, Payloads(s.toClient));
    assert Outstanding(s)[i] == LoadPayloads(s.client.loads)[i];
    ExecutedKeepsConverging(s, i, Drawn(s, i));
  }

  lemma LoadedKeepsInv(s: System, i: nat)
    requires Inv(s) && Enabled(s, Loaded(i))
    ensures Inv(Step(s, Loaded(i)))
  {
    var m := Drawn(s, i);
    DrawnConverges(s, i);
    if Rendering(s) && m.client.loads == [] {
      LastImageAnswers(s, i);
    } else {
      assert Step(s, Loaded(i)) == m;
      assert Rendering(s) ==> Rendering(m);
      assert InFlight(s) ==> InFlight(m);
    }
  }

  lemma LastImageAnswers(s: System, i: nat)
    requires Inv(s) && Enabled(s, Loaded(i)) && Rendering(s)
    requires Drawn(s, i).client.loads == [] && Converging(Drawn(s, i)) && PatchesMatch(Outstanding(Drawn(s, i)), s.server.patches)
    ensures Inv(Step(s, Loaded(i))) && Answering(Step(s, Loaded(i)))
  {
    var m := Drawn(s, i);
    var n := Step(s, Loaded(i));
    assert Outstanding(m) == [] && Outstanding(n) == [];
    DoneIsEqual(m);
    assert n.client == m.client.(frontCanvas := m.client.canvas);
  }

  lemma DamageKeepsInv(s: System)
    requires Inv(s)
    ensures Inv(Step(s, Damage))
  {
    assert Outstanding(Step(s, Damage)) == Outstanding(s);
  }

  lemma TimerKeepsInv(s: System)
    requires Inv(s) && Enabled(s, Timer)
    ensures Inv(Step(s, Timer))
  {
    assert Outstanding(Step(s, Timer)) == Outstanding(s);
    if s.server.clientReady {
      IdleHasNothingOutstanding(s);
    }
  }

  lemma TakeKeepsInv(s: System, ops: seq<UpdateOperation>, work: Image, large: set<int>)
    requires Inv(s) && Encodes(ops, s.server.work, work)
    ensures Inv(Step(s, Take(ops, work, large)))
  {
    hide Inv, Encodes;
    if IsUpdateAvailable(s.server) {
      if |ops| == 0 {
        TakeNothingKeepsInv(s, work, large);
      } else {
        TakeFrameKeepsInv(s, ops, work, large);
      }
    }
  }

  lemma DeliverKeepsInv(s: System)
    requires Inv(s) && s.toClient != []
    ensures Inv(Step(s, Deliver))
  {
    hide Inv, Step;
    match s.toClient[0]
    case FullUpdate(_) => DeliverMarkKeepsInv(s);
    case Draw(_, _) => DeliverDrawKeepsInv(s);
    case End(_) => DeliverEndKeepsInv(s);
  }

  lemma AnswerKeepsInv(s: System)
    requires Inv(s) && Enabled(s, Answer)
    ensures Inv(Step(s, Answer))
  {
    assert Answering(s) && Outstanding(s) == [];
    assert Outstanding(Step(s, Answer)) == [];
  }

  /** Every step of the protocol keeps the invariant. */
  lemma StepKeepsInv(s: System, e: Event)
    requires Inv(s) && Enabled(s, e) && Faithful(s, e)
    ensures Inv(Step(s, e))
  {
    hide Inv, Step, Encodes;
    match e
    case Damage => DamageKeepsInv(s);
    case Timer => TimerKeepsInv(s);
    case Take(ops, work, large) => TakeKeepsInv(s, ops, work, large);
    case Deliver => DeliverKeepsInv(s);
    case Fetch(i) => FetchKeepsInv(s, i);
    case Loaded(i) => LoadedKeepsInv(s, i);
    case Answer => AnswerKeepsInv(s);
  }

  /** The invariant holds in every state of every run. */
  lemma {:induction false} RunKeepsInv(states: seq<System>, events: seq<Event>, k: nat)
    requires IsRun(states, events) && k < |states|
    ensures Inv(states[k])
  {
    if k == 0 {
      InitialInv(states[0]);
    } else {
      RunKeepsInv(states, events, k - 1);
      StepKeepsInv(states[k - 1], events[k - 1]);
    }
  }

  // ---------- what the invariant means

  /** Codec and protocol together: whenever the server holds the client's readiness, the page shows the server's
      work buffer on both canvases, and nothing is left to draw. */
  lemma HandOver(states: seq<System>, events: seq<Event>, k: nat)
    requires IsRun(states, events) && k < |states| && states[k].server.clientReady
    ensures states[k].client.frontCanvas == states[k].client.canvas == states[k].server.work
    ensures Outstanding(states[k]) == [] && states[k].server.patches == map[] && states[k].toServer == []
  {
    RunKeepsInv(states, events, k);
    IdleHasNothingOutstanding(states[k]);
  }

  function Ends(q: seq<Message>): nat {
    if q == [] then 0 else (if q[0].End? then 1 else 0) + Ends(q[1..])
  }

  /** The holders of the one token: the server, a frame on its way, the client drawing, the answer on its way. */
  function Tokens(s: System): nat {
    (if s.server.clientReady then 1 else 0) + Ends(s.toClient)
    + (if s.client.frameEndReceived && s.client.pendingPatchesCount > 0 then 1 else 0) + |s.toServer|
  }

  lemma {:induction false} QueueHasOneEnd(q: seq<Message>, frame: int)
    requires FrameQueue(q, frame)
    ensures Ends(q) == 1
  {
    if |q| > 1 {
      QueueTail(q, frame);
      QueueHasOneEnd(q[1..], frame);
    }
  }

  lemma {:induction false} NoEnds(q: seq<Message>)
    requires forall m :: m in q ==> !m.End?
    ensures Ends(q) == 0
  {
    if q != [] {
      NoEnds(q[1..]);
    }
  }

  /** Token conservation over every run. */
  lemma OneToken(states: seq<System>, events: seq<Event>, k: nat)
    requires IsRun(states, events) && k < |states|
    ensures Tokens(states[k]) == 1
    ensures states[k].server.patches != map[] ==> !states[k].server.clientReady
  {
    var s := states[k];
    RunKeepsInv(states, events, k);
    if s.server.clientReady {
      IdleHasNothingOutstanding(s);
      NoEnds(s.toClient);
    } else if InFlight(s) {
      QueueHasOneEnd(s.toClient, s.server.frame);
    }
  }

  /** The branches in which either side reports trouble are never taken: a ready message finds no patches, a new
      frame finds no pending images, no image fails, and the client asks for nothing but the next frame. */
  lemma NoTrouble(states: seq<System>, events: seq<Event>, k: nat)
    requires IsRun(states, events) && k < |events|
    ensures events[k].Answer? ==> states[k].toServer == [Ready] && states[k].server.patches == map[]
    ensures events[k].Deliver? && states[k].client.lastFrame != Some(states[k].toClient[0].frame) ==> states[k].client.pendingPatchesCount == 0
    ensures events[k].Fetch? ==> states[k].client.loads[events[k].i].patch.id in states[k].server.patches
    ensures states[k].client.frameErrors == 0 && !states[k].client.waitingForFullUpdate
  {
    var s := states[k];
    RunKeepsInv(states, events, k);
    if events[k].Fetch? {
      FetchKeepsInv(s, events[k].i);
    }
    if events[k].Answer? {
      assert Outstanding(s) == [];
    }
    if events[k].Deliver? {
      assert s.toClient[0] in s.toClient;
      if InFlight(s) && !s.toClient[0].FullUpdate? {
        assert s.toClient[0].frame == s.server.frame;
      }
    }
  }

  /** Damage is never forgotten: while the server may send, either its timer runs or an update is flagged. */
  lemma DamageIsNoticed(states: seq<System>, events: seq<Event>, k: nat)
    requires IsRun(states, events) && k < |states|
    requires states[k].server.clientReady && states[k].server.updatesAvailable
    ensures states[k].server.timerActive || states[k].server.updateAvailable
  {
    RunKeepsInv(states, events, k);
  }

  // ---------- pace

  /** A take that leaves messages for the client. */
  predicate Sends(s: System, e: Event) {
    e.Take? && Step(s, e).toClient != s.toClient
  }

  /** The check timer runs out while the server may send. */
  predicate ChecksIn(s: System, e: Event) {
    e.Timer? && s.server.clientReady && |s.server.patches| == 0
  }

  lemma StepKeepsFlag(s: System, e: Event)
    requires Enabled(s, e) && !ChecksIn(s, e) && !s.server.updateAvailable
    ensures !Step(s, e).server.updateAvailable
  {
    hide MessageCallback, ImageLoaded, ImageFailed, PatchesUpTo, FrameMessages;
  }

  lemma {:induction false} FlagNeedsTimer(states: seq<System>, events: seq<Event>, i: nat, k: nat)
    requires IsRun(states, events) && i <= k < |states| && !states[i].server.updateAvailable
    requires forall j :: i <= j < k ==> !ChecksIn(states[j], events[j])
    ensures !states[k].server.updateAvailable
    decreases k - i
  {
    if i < k {
      hide Step, Enabled, ChecksIn, Initial;
      FlagNeedsTimer(states, events, i, k - 1);
      StepKeepsFlag(states[k - 1], events[k - 1]);
    }
  }

  /** Frames are paced by the check timer, however often the display is asked for messages: between two takes that
      leave any, the timer has run out while the server was free to send. */
  lemma TakesArePaced(states: seq<System>, events: seq<Event>, i: nat, k: nat)
    requires IsRun(states, events) && i < k < |events| && Sends(states[i], events[i]) && Sends(states[k], events[k])
    ensures exists j :: i < j < k && ChecksIn(states[j], events[j])
  {
    assert states[i + 1] == Step(states[i], events[i]);
    if forall j :: i < j < k ==> !ChecksIn(states[j], events[j]) {
      FlagNeedsTimer(states, events, i + 1, k);
    }
  }

  lemma StepKeepsUpdates(s: System, e: Event)
    requires Enabled(s, e) && !(e.Take? && IsUpdateAvailable(s.server)) && (e.Damage? || s.server.updatesAvailable)
    ensures Step(s, e).server.updatesAvailable
  {
    hide MessageCallback, ImageLoaded, ImageFailed, PatchesUpTo, FrameMessages;
  }

  lemma {:induction false} UpdatesStay(states: seq<System>, events: seq<Event>, i: nat, k: nat)
    requires IsRun(states, events) && i < k < |states| && events[i].Damage?
    requires forall j :: i < j < k ==> !(events[j].Take? && IsUpdateAvailable(states[j].server))
    ensures states[k].server.updatesAvailable
    decreases k - i
  {
    hide Step, Enabled, IsUpdateAvailable, Initial;
    if i + 1 < k {
      UpdatesStay(states, events, i, k - 1);
    }
    StepKeepsUpdates(states[k - 1], events[k - 1]);
  }

  /** Damage that no take has used up yet is never forgotten: whenever the server may send, its timer runs or an update is
      flagged, however long the client had kept it waiting. */
  lemma DamageIsServed(states: seq<System>, events: seq<Event>, i: nat, k: nat)
    requires IsRun(states, events) && i < k < |states| && events[i].Damage?
    requires forall j :: i < j < k ==> !(events[j].Take? && IsUpdateAvailable(states[j].server))
    requires states[k].server.clientReady
    ensures states[k].server.timerActive || states[k].server.updateAvailable
  {
    UpdatesStay(states, events, i, k);
    DamageIsNoticed(states, events, k);
  }

  lemma StepKeepsTimer(s: System, e: Event)
    requires Enabled(s, e) && !e.Damage? && !e.Answer? && (e.Timer? || !s.server.timerActive)
    ensures !Step(s, e).server.timerActive
  {
    hide MessageCallback, ImageLoaded, ImageFailed, PatchesUpTo, FrameMessages;
  }

  /** The check timer rests when it has run out, until there is damage or the client answers. */
  lemma {:induction false} TimerRests(states: seq<System>, events: seq<Event>, i: nat, k: nat)
    requires IsRun(states, events) && i < k < |states| && events[i].Timer?
    requires forall j :: i < j < k ==> !events[j].Damage? && !events[j].Answer?
    ensures !states[k].server.timerActive
    decreases k - i
  {
    hide Step, Enabled, Initial;
    if i + 1 < k {
      TimerRests(states, events, i, k - 1);
    }
    StepKeepsTimer(states[k - 1], events[k - 1]);
  }

  // ---------- progress

  /** A step that moves the frame in transit towards the next hand-over. */
  predicate Forward(e: Event) { e.Deliver? || e.Fetch? || e.Loaded? || e.Answer? }

  function LoadWeight(loads: seq<Load>): nat {
    if loads == [] then 0 else (if loads[0].patch.Remote? then 4 else 2) + LoadWeight(loads[1..])
  }

  function Distance(s: System): nat {
    8 * |s.toClient| + LoadWeight(s.client.loads) + |s.toServer|
  }

  lemma {:induction false} LoadWeightConcat(a: seq<Load>, b: seq<Load>)
    ensures LoadWeight(a + b) == LoadWeight(a) + LoadWeight(b)
  {
    if a == [] {
      assert a + b == b;
    } else {
      LoadWeightConcat(a[1..], b);
      assert (a + b)[1..] == a[1..] + b;
    }
  }

  lemma LoadWeightAt(loads: seq<Load>, i: nat, other: Load)
    requires i < |loads|
    ensures LoadWeight(loads) == LoadWeight(Without(loads, i)) + LoadWeight([loads[i]])
    ensures LoadWeight(loads[i := other]) == LoadWeight(Without(loads, i)) + LoadWeight([other])
  {
    assert loads == loads[..i] + ([loads[i]] + loads[i + 1..]);
    assert loads[i := other] == loads[..i] + ([other] + loads[i + 1..]);
    LoadWeightConcat(loads[..i], [loads[i]] + loads[i + 1..]);
    LoadWeightConcat([loads[i]], loads[i + 1..]);
    LoadWeightConcat(loads[..i], [other] + loads[i + 1..]);
    LoadWeightConcat([other], loads[i + 1..]);
    LoadWeightConcat(loads[..i], loads[i + 1..]);
  }

  /** No deadlock and no livelock: while the server waits, some forward step is enabled, every forward step shortens
      the way, and damage, timer and take neither lengthen it nor let the server go on. */
  lemma WaitingEnds(s: System)
    requires Inv(s) && !s.server.clientReady
    ensures exists e :: Forward(e) && Enabled(s, e)
    ensures forall e :: Forward(e) && Enabled(s, e) ==> Distance(Step(s, e)) < Distance(s)
    ensures forall e :: !Forward(e) && Enabled(s, e) ==> Distance(Step(s, e)) == Distance(s) && !Step(s, e).server.clientReady
  {
    if s.toClient != [] {
      assert Enabled(s, Deliver);
    } else if s.toServer != [] {
      assert Enabled(s, Answer);
    } else {
      assert Enabled(s, if s.client.loads[0].patch.Remote? then Fetch(0) else Loaded(0));
    }
    forall e | Enabled(s, e)
      ensures if Forward(e) then Distance(Step(s, e)) < Distance(s) else Distance(Step(s, e)) == Distance(s) && !Step(s, e).server.clientReady
    {
      if Forward(e) {
        ForwardShortens(s, e);
      } else {
        OthersLeaveDistance(s, e);
      }
    }
  }

  lemma OthersLeaveDistance(s: System, e: Event)
    requires !s.server.clientReady && !Forward(e) && Enabled(s, e)
    ensures Distance(Step(s, e)) == Distance(s) && !Step(s, e).server.clientReady
  {
  }

  lemma ForwardShortens(s: System, e: Event)
    requires Inv(s) && !s.server.clientReady && Forward(e) && Enabled(s, e)
    ensures Distance(Step(s, e)) < Distance(s)
  {
    hide Inv, Step, Distance;
    match e
    case Deliver => DeliverShortens(s);
    case Fetch(i) => FetchShortens(s, i);
    case Loaded(i) => LoadedShortens(s, i);
    case Answer => AnswerShortens(s);
  }

  lemma FetchShortens(s: System, i: nat)
    requires Inv(s) && !s.server.clientReady && Enabled(s, Fetch(i))
    ensures Distance(Step(s, Fetch(i))) < Distance(s)
  {
    FetchKeepsInv(s, i);
    var l := s.client.loads[i];
    LoadWeightAt(s.client.loads, i, Load(l.rect, Inline(s.server.patches[l.patch.id])));
  }

  lemma LoadedShortens(s: System, i: nat)
    requires Inv(s) && Enabled(s, Loaded(i))
    ensures Distance(Step(s, Loaded(i))) < Distance(s)
  {
    LoadWeightAt(s.client.loads, i, s.client.loads[i]);
  }

  lemma AnswerShortens(s: System)
    requires Enabled(s, Answer)
    ensures Distance(Step(s, Answer)) < Distance(s)
  {
  }

  lemma DeliverShortens(s: System)
    requires Inv(s) && s.toClient != []
    ensures Distance(Step(s, Deliver)) < Distance(s)
  {
    var m := s.toClient[0];
    if m.Draw? && m.payload.DrawPatch? {
      LoadWeightConcat(s.client.loads, [Load(m.payload.rect, m.payload.patch)]);
    }
    DeliverGrowsLittle(s);
  }

  lemma DeliverGrowsLittle(s: System)
    requires Inv(s) && s.toClient != []
    ensures |MessageCallback(s.client, s.toClient[0]).1| <= 1
    ensures MessageCallback(s.client, s.toClient[0]).0.loads <= s.client.loads ||
            (s.toClient[0].Draw? && s.toClient[0].payload.DrawPatch? &&
             MessageCallback(s.client, s.toClient[0]).0.loads == s.client.loads + [Load(s.toClient[0].payload.rect, s.toClient[0].payload.patch)])
    ensures !(s.toClient[0].Draw? && s.toClient[0].payload.DrawPatch?) ==> MessageCallback(s.client, s.toClient[0]).0.loads == s.client.loads
  {
  }
}
