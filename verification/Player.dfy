/** src/display/tools/graphicsscenedisplayplayer.cpp: the player of recorded displays, a second decoder of the
    operation stream. It does not clear before it draws, reads moves from a copy of the last frame, and resizes. */
module Players {
  import opened Geometry
  import opened Images
  import opened ImageAux
  import opened OpTools
  import opened Canvas
  import opened Protocol
  import opened ProtocolSafety
  import B = BufferRenderers

  /** Drawing an image draws the pixels it has; what lies outside it is left alone. */
  predicate Available(c: Command, before: Image, x: int, y: int) {
    match c
    case DrawImage(rect, patch) => patch.Has(x - rect.left, y - rect.top)
    case MoveImage(src, dst) => before.Has(x - dst.x + src.left, y - dst.y + src.top)
    case FillRect(_, _) => true
  }

  predicate Draws(c: Command, before: Image, x: int, y: int) {
    c.Target().Has(x, y) && Available(c, before, x, y)
  }

  function DrawnPixel(back: Image, before: Image, c: Command, x: int, y: int): Pixel {
    if Draws(c, before, x, y) then c.Value(before, x, y) else if back.Has(x, y) then back.At(x, y) else TRANSPARENT
  }

  function Overlay(back: Image, before: Image, c: Command): (i: Image)
    ensures i.SameSize(back)
    ensures forall x, y :: i.Has(x, y) ==> i.At(x, y) == DrawnPixel(back, before, c, x, y)
  {
    Make(back.width, back.height, (x, y) => DrawnPixel(back, before, c, x, y))
  }

  /** A patch that was not recorded loads as a null image, which draws nothing. */
  predicate Recorded(p: Payload, patches: Patches) { IsRemote(p) ==> p.patch.id in patches }

  function PlayMessage(back: Image, before: Image, m: Message, patches: Patches): (i: Image)
    ensures i.SameSize(back)
  {
    if m.Draw? && Recorded(m.payload, patches) then Overlay(back, before, Resolve(m.payload, patches)) else back
  }

  function PlayMessages(back: Image, before: Image, messages: seq<Message>, patches: Patches): (i: Image)
    ensures i.SameSize(back)
    decreases |messages|
  {
    if messages == [] then back
    else PlayMessages(PlayMessage(back, before, messages[0], patches), before, messages[1..], patches)
  }

  function PlayCommands(back: Image, before: Image, commands: seq<Command>): (i: Image)
    ensures i.SameSize(back)
    decreases |commands|
  {
    if commands == [] then back else PlayCommands(Overlay(back, before, commands[0]), before, commands[1..])
  }

  /** The work buffer in a new size: cropped, or extended with zero pixels. */
  function Resized(work: Image, width: nat, height: nat): (i: Image)
    requires width >= 1 && height >= 1
    ensures B.IsResized(i, work, width, height)
  {
    Make(width, height, (x, y) => if work.Has(x, y) then work.At(x, y) else 0)
  }

  lemma SameSizeIsUnchanged(work: Image)
    ensures Resized(work, work.width, work.height) == work
  {
    SameContentIsEqual(Resized(work, work.width, work.height), work);
  }

  datatype Entry =
    | FullFrame(image: Image)
    | DiffFrame(width: nat, height: nat, messages: seq<Message>, patches: Patches)

  class GraphicsSceneDisplayDumpIterator {
    var workBuffer: Image

    constructor (image: Image)
      ensures workBuffer == image
    {
      workBuffer := image;
    }

    /** advanceToNextFrame, once the next entry of the dump has been read. */
    method AdvanceToNextFrame(entry: Entry)
      requires entry.DiffFrame? ==> entry.width >= 1 && entry.height >= 1
      modifies this
      ensures workBuffer == match entry
                            case FullFrame(image) => image
                            case DiffFrame(width, height, messages, patches) =>
                              PlayMessages(Resized(old(workBuffer), width, height), old(workBuffer), messages, patches)
    {
      match entry
      case FullFrame(image) =>
        workBuffer := image;
      case DiffFrame(width, height, messages, patches) =>
        var imageBefore := workBuffer;
        if width != workBuffer.width || height != workBuffer.height {
          workBuffer := Resized(workBuffer, width, height);
        } else {
          SameSizeIsUnchanged(workBuffer);
        }
        ghost var start := workBuffer;
        for i := 0 to |messages|
          invariant PlayMessages(workBuffer, imageBefore, messages[i..], patches) == PlayMessages(start, imageBefore, messages, patches)
        {
          assert messages[i..][0] == messages[i] && messages[i..][1..] == messages[i + 1..];
          workBuffer := PlayMessage(workBuffer, imageBefore, messages[i], patches);
        }
    }
  }

  // ---------- messages and commands

  ghost predicate AllRecorded(out: seq<Payload>, patches: Patches) {
    forall p :: p in out ==> Recorded(p, patches)
  }

  lemma {:induction false} PlayedMessagesAreCommands(back: Image, before: Image, q: seq<Message>, patches: Patches)
    requires AllRecorded(Payloads(q), patches)
    ensures PlayMessages(back, before, q, patches) == PlayCommands(back, before, Resolved(Payloads(q), patches))
    decreases |q|
  {
    if q != [] {
      if q[0].Draw? {
        assert Payloads(q) == [q[0].payload] + Payloads(q[1..]);
        assert q[0].payload in Payloads(q);
        assert Resolved(Payloads(q), patches)[1..] == Resolved(Payloads(q[1..]), patches);
      }
      assert AllRecorded(Payloads(q[1..]), patches);
      PlayedMessagesAreCommands(PlayMessage(back, before, q[0], patches), before, q[1..], patches);
    }
  }

  lemma FramePayloads(marked: bool, ops: seq<UpdateOperation>, work: Image, frame: int, large: set<int>)
    ensures Payloads(FrameMessages(marked, ops, work, frame, large)) == Payloads(MessagesUpTo(ops, |ops|, work, frame, large))
  {
    var body := MessagesUpTo(ops, |ops|, work, frame, large);
    var marks := if marked then [FullUpdate(frame)] else [];
    var end := if |ops| > 0 then [End(frame)] else [];
    PayloadsConcat(marks + body, end);
    PayloadsConcat(marks, body);
    NoDrawNoPayload(marks);
    NoDrawNoPayload(end);
  }

  lemma MatchedAreRecorded(out: seq<Payload>, patches: Patches)
    requires PatchesMatch(out, patches)
    ensures AllRecorded(out, patches)
  {
    forall p | p in out ensures Recorded(p, patches) {
      var i :| 0 <= i < |out| && out[i] == p;
      assert IsRemote(p) ==> Names(out, i, p.patch.id);
    }
  }

  /** The recorded messages of a frame play the commands of its operations. */
  lemma PlayedFrameIsCommands(back: Image, before: Image, marked: bool, ops: seq<UpdateOperation>, after: Image, frame: int, large: set<int>)
    ensures PlayMessages(back, before, FrameMessages(marked, ops, after, frame, large), PatchesUpTo(ops, |ops|, after, frame, large, map[]))
            == PlayCommands(back, before, Commands(ops, after))
  {
    var patches := PatchesUpTo(ops, |ops|, after, frame, large, map[]);
    FrameResolves(ops, |ops|, after, frame, large);
    assert ops[..|ops|] == ops;
    FramePayloads(marked, ops, after, frame, large);
    MatchedAreRecorded(Payloads(MessagesUpTo(ops, |ops|, after, frame, large)), patches);
    PlayedMessagesAreCommands(back, before, FrameMessages(marked, ops, after, frame, large), patches);
  }

  // ---------- when playing reaches the frame

  ghost predicate DrawsOnly(commands: seq<Command>, before: Image, after: Image) {
    forall c, x, y :: c in commands && after.Has(x, y) && Draws(c, before, x, y) ==> c.Value(before, x, y) == after.At(x, y)
  }

  predicate Drawn(commands: seq<Command>, before: Image, x: int, y: int) {
    exists c :: c in commands && Draws(c, before, x, y)
  }

  ghost predicate DrawsAll(back: Image, commands: seq<Command>, before: Image, after: Image) {
    && back.SameSize(after)
    && forall x, y :: after.Has(x, y) ==> back.At(x, y) == after.At(x, y) || Drawn(commands, before, x, y)
  }

  lemma {:induction false} PlayReaches(back: Image, before: Image, commands: seq<Command>, after: Image)
    requires DrawsOnly(commands, before, after) && DrawsAll(back, commands, before, after)
    ensures PlayCommands(back, before, commands) == after
    decreases |commands|
  {
    if commands == [] {
      assert SameContent(back, after);
      SameContentIsEqual(back, after);
    } else {
      var next, rest := Overlay(back, before, commands[0]), commands[1..];
      assert commands[0] in commands;
      forall x, y | after.Has(x, y) ensures next.At(x, y) == after.At(x, y) || Drawn(rest, before, x, y) {
        if !Draws(commands[0], before, x, y) && back.At(x, y) != after.At(x, y) {
          var c :| c in commands && Draws(c, before, x, y);
          assert c in rest;
        }
      }
      PlayReaches(next, before, rest, after);
    }
  }

  /** The pixels beyond the last frame that a grown buffer starts with are zero. A move may copy them, and the
      player cannot. */
  predicate Grows(work: Image, width: nat, height: nat) { width > work.width || height > work.height }

  ghost predicate IsBlank(i: Image) { forall x, y :: i.Has(x, y) ==> i.At(x, y) == 0 }

  /** A write that the player can execute: its pixel is in the operation, or in the frame it has played before. */
  predicate Playable(w: Write, work: Image) {
    w.Copy? && w.kind.Move? ==> work.Has(w.src.x, w.src.y)
  }

  ghost predicate WritesPlayably(ops: seq<UpdateOperation>, work: Image, x: int, y: int) {
    exists w :: ListWrites(ops, w) && w.dst == Point(x, y) && Playable(w, work)
  }

  /** Every differing pixel is written by an operation that does not move it out of the part by which the buffer has
      grown. */
  ghost predicate PlayableThroughout(ops: seq<UpdateOperation>, work: Image, before: Image, after: Image) {
    forall x, y :: Differs(before, after, x, y) ==> WritesPlayably(ops, work, x, y)
  }

  lemma {:induction false} PlayKeeps(back: Image, before: Image, commands: seq<Command>, x: int, y: int)
    requires back.Has(x, y) && !Drawn(commands, before, x, y)
    ensures PlayCommands(back, before, commands).At(x, y) == back.At(x, y)
    decreases |commands|
  {
    if commands != [] {
      assert commands[0] in commands;
      PlayKeeps(Overlay(back, before, commands[0]), before, commands[1..], x, y);
    }
  }

  /** What the player draws is right, even of a frame that it cannot draw completely. */
  lemma DrawnIsRight(ops: seq<UpdateOperation>, c: Command, work: Image, before: Image, after: Image, x: int, y: int)
    requires Encodes(ops, before, after) && B.IsResized(before, work, after.width, after.height)
    requires c in Commands(ops, after) && after.Has(x, y) && Draws(c, work, x, y)
    ensures c.Value(work, x, y) == after.At(x, y)
  {
    CommandsMembers(ops, after);
    var op :| op in ops && !op.kind.NoOp? && ToCommand(op, after) == c;
    SoundOpIsSound(ops, op, before, after);
    assert c.Value(before, x, y) == after.At(x, y);
    if op.kind.Move? {
      var w := Copy(Move, Point(x, y), Point(x, y).Plus(op.Vector()));
      assert w.src.Minus(op.Vector()) == w.dst;
      assert op.Writes(w);
      assert ListWrites(ops, w);
    }
  }

  /** Exactly the playable writes of differing pixels are drawn. */
  lemma PlayableIsDrawn(ops: seq<UpdateOperation>, work: Image, before: Image, after: Image, x: int, y: int)
    requires Encodes(ops, before, after) && after.Has(x, y)
    ensures WritesPlayably(ops, work, x, y) <==> Drawn(Commands(ops, after), work, x, y)
  {
    CommandsMembers(ops, after);
    if w :| ListWrites(ops, w) && w.dst == Point(x, y) && Playable(w, work) {
      var op :| op in ops && op.Writes(w);
      WriteIsDrawn(ops, op, w, work, before, after);
      assert ToCommand(op, after) in Commands(ops, after);
    }
    if Drawn(Commands(ops, after), work, x, y) {
      var c :| c in Commands(ops, after) && Draws(c, work, x, y);
      var op :| op in ops && !op.kind.NoOp? && ToCommand(op, after) == c;
      var w := DrawnWrite(op, work, after, x, y);
      assert ListWrites(ops, w) && WriteSound(w, before, after);
    }
  }

  lemma WriteIsDrawn(ops: seq<UpdateOperation>, op: UpdateOperation, w: Write, work: Image, before: Image, after: Image)
    requires OpsSound(ops, before, after) && op in ops && op.Writes(w) && Playable(w, work) && after.Has(w.dst.x, w.dst.y)
    ensures !op.kind.NoOp? && Draws(ToCommand(op, after), work, w.dst.x, w.dst.y)
  {
    assert ListWrites(ops, w);
    if op.kind.Move? {
      assert w.dst == w.src.Minus(op.Vector());
    }
  }

  lemma DrawnWrite(op: UpdateOperation, work: Image, after: Image, x: int, y: int) returns (w: Write)
    requires !op.kind.NoOp? && Draws(ToCommand(op, after), work, x, y)
    ensures op.Writes(w) && Playable(w, work)
    ensures w.dst == if op.kind.Update? then Point(x, y).Minus(op.Vector()) else Point(x, y)
    ensures op.kind.Update? ==> w == Copy(Update, w.dst, Point(x, y))
  {
    match op.kind
    case Update => w := Copy(Update, Point(x, y).Minus(op.Vector()), Point(x, y));
    case Move =>
      w := Copy(Move, Point(x, y), Point(x, y).Plus(op.Vector()));
      assert w.dst == w.src.Minus(op.Vector());
    case Fill => w := SetColor(Point(x, y), op.fillColor);
  }

  /** A frame plays back exactly when each of its differing pixels is written playably. */
  lemma EncodingPlays(work: Image, ops: seq<UpdateOperation>, after: Image)
    requires Encodes(ops, Resized(work, after.width, after.height), after)
    ensures PlayCommands(Resized(work, after.width, after.height), work, Commands(ops, after)) == after
            <==> PlayableThroughout(ops, work, Resized(work, after.width, after.height), after)
  {
    hide Encodes, Draws, WritesPlayably;
    var before, commands := Resized(work, after.width, after.height), Commands(ops, after);
    forall x, y | after.Has(x, y) ensures WritesPlayably(ops, work, x, y) <==> Drawn(commands, work, x, y) {
      PlayableIsDrawn(ops, work, before, after, x, y);
    }
    if PlayableThroughout(ops, work, before, after) {
      forall c, x, y | c in commands && after.Has(x, y) && Draws(c, work, x, y) ensures c.Value(work, x, y) == after.At(x, y) {
        DrawnIsRight(ops, c, work, before, after, x, y);
      }
      forall x, y | after.Has(x, y) ensures before.At(x, y) == after.At(x, y) || Drawn(commands, work, x, y) {
        assert Differs(before, after, x, y) || before.At(x, y) == after.At(x, y);
      }
      PlayReaches(before, work, commands, after);
    } else {
      var x, y :| Differs(before, after, x, y) && !WritesPlayably(ops, work, x, y);
      PlayKeeps(before, work, commands, x, y);
    }
  }

  /** Three reasons for a frame to play: it moves nothing, the buffer has not grown, or it was blank. */
  lemma PlayableFrames(work: Image, ops: seq<UpdateOperation>, after: Image)
    requires Encodes(ops, Resized(work, after.width, after.height), after)
    requires MovesNothing(ops) || !Grows(work, after.width, after.height) || IsBlank(Resized(work, after.width, after.height))
    ensures PlayableThroughout(ops, work, Resized(work, after.width, after.height), after)
  {
    var before := Resized(work, after.width, after.height);
    forall x, y | Differs(before, after, x, y) ensures WritesPlayably(ops, work, x, y) {
      var w :| ListWrites(ops, w) && w.dst == Point(x, y);
      assert WriteSound(w, before, after);
      assert Playable(w, work);
    }
  }

  // ---------- the frames that play exactly

  /** The recorded frame plays back exactly. */
  ghost predicate PlaysBack(work: Image, ops: seq<UpdateOperation>, after: Image, frame: int, large: set<int>) {
    var before := Resized(work, after.width, after.height);
    Encodes(ops, before, after) ==>
      PlayMessages(before, work, FrameMessages(false, ops, after, frame, large), PatchesUpTo(ops, |ops|, after, frame, large, map[])) == after
  }

  /** The recorded messages and patches of a frame play back exactly when its differing pixels are written playably. */
  lemma FramePlaysExactly(work: Image, ops: seq<UpdateOperation>, after: Image, frame: int, large: set<int>)
    requires Encodes(ops, Resized(work, after.width, after.height), after)
    ensures PlaysBack(work, ops, after, frame, large) <==> PlayableThroughout(ops, work, Resized(work, after.width, after.height), after)
  {
    EncodingPlays(work, ops, after);
    PlayedFrameIsCommands(Resized(work, after.width, after.height), work, false, ops, after, frame, large);
  }

  /** What the contract of an encoding is worth: all lists that encode a frame of a given size play back exactly when
      the buffer does not grow, or shows nothing before it grows. */
  lemma PlaysBackExactly(work: Image, size: Image)
    ensures (!Grows(work, size.width, size.height) || IsBlank(Resized(work, size.width, size.height)))
            <==> forall ops, after: Image, frame, large :: after.SameSize(size) ==> PlaysBack(work, ops, after, frame, large)
  {
    if !Grows(work, size.width, size.height) || IsBlank(Resized(work, size.width, size.height)) {
      forall ops, after: Image, frame, large | after.SameSize(size) ensures PlaysBack(work, ops, after, frame, large) {
        var before := Resized(work, after.width, after.height);
        if Encodes(ops, before, after) {
          PlayableFrames(work, ops, after);
          FramePlaysExactly(work, ops, after, frame, large);
        }
      }
    } else {
      var after, op := GrownFrameFails(work, size);
      assert after.SameSize(size) && !PlaysBack(work, [op], after, 0, {});
    }
  }

  function Erased(before: Image, x: int, y: int): (i: Image)
    ensures i.SameSize(before)
    ensures forall u, v :: i.Has(u, v) ==> i.At(u, v) == if u == x && v == y then 0 else before.At(u, v)
  {
    Make(before.width, before.height, (u, v) => if (u == x && v == y) || !before.Has(u, v) then 0 else before.At(u, v))
  }

  /** The next frame erases one pixel by copying a zero pixel of the extension, which the player does not have. */
  lemma GrownFrameFails(work: Image, size: Image) returns (after: Image, op: UpdateOperation)
    requires Grows(work, size.width, size.height) && !IsBlank(Resized(work, size.width, size.height))
    ensures after.SameSize(size) && !PlaysBack(work, [op], after, 0, {})
  {
    var before := Resized(work, size.width, size.height);
    var x, y :| before.Has(x, y) && before.At(x, y) != 0;
    var s := if size.width > work.width then Point(work.width, 0) else Point(0, work.height);
    after := Erased(before, x, y);
    op := UpdateOperation(Move, Rect(s.x, s.y, s.x, s.y), Point(x, y), 0);
    ErasureFails(work, before, after, op, x, y);
  }

  lemma ErasureFails(work: Image, before: Image, after: Image, op: UpdateOperation, x: int, y: int)
    requires before == Resized(work, after.width, after.height)
    requires before.Has(x, y) && before.At(x, y) != 0 && after == Erased(before, x, y)
    requires op.kind.Move? && op.dstPoint == Point(x, y)
    requires op.srcRect.left == op.srcRect.right && op.srcRect.top == op.srcRect.bottom
    requires before.Has(op.srcRect.left, op.srcRect.top) && !work.Has(op.srcRect.left, op.srcRect.top)
    ensures !PlaysBack(work, [op], after, 0, {})
  {
    ErasureEncodes(before, after, op, x, y);
    PlayedMoveIsLost(before, work, op, after, x, y);
  }

  lemma PlayedMoveIsLost(before: Image, work: Image, op: UpdateOperation, after: Image, x: int, y: int)
    requires op.kind.Move? && op.srcRect.left == op.srcRect.right && op.srcRect.top == op.srcRect.bottom
    requires before.Has(x, y) && !work.Has(op.srcRect.left, op.srcRect.top) && op.dstPoint == Point(x, y)
    ensures PlayMessages(before, work, FrameMessages(false, [op], after, 0, {}), PatchesUpTo([op], 1, after, 0, {}, map[])).At(x, y)
            == before.At(x, y)
  {
    PlayedFrameIsCommands(before, work, false, [op], after, 0, {});
    var move := MoveImage(op.srcRect, op.dstPoint);
    assert [op][1..] == [] && [move][1..] == [];
    assert Commands([op], after) == [move];
    assert PlayCommands(before, work, [move]) == Overlay(before, work, move);
  }

  lemma ErasureEncodes(before: Image, after: Image, op: UpdateOperation, x: int, y: int)
    requires before.SameSize(after) && before.Has(x, y) && after.At(x, y) == 0
    requires forall u, v :: after.Has(u, v) && (u != x || v != y) ==> after.At(u, v) == before.At(u, v)
    requires op.kind.Move? && op.dstPoint == Point(x, y)
    requires op.srcRect.left == op.srcRect.right && op.srcRect.top == op.srcRect.bottom
    requires before.Has(op.srcRect.left, op.srcRect.top) && before.At(op.srcRect.left, op.srcRect.top) == 0
    ensures Encodes([op], before, after)
  {
    forall u, v | Differs(before, after, u, v) ensures WritesTo([op], u, v) {
      assert op.Writes(Copy(Move, Point(x, y), op.srcRect.TopLeft()));
      assert ListWrites([op], Copy(Move, Point(x, y), op.srcRect.TopLeft()));
    }
  }
}
