/** What a canvas shows after drawing commands: the decoder's half of the codec. */
module Canvas {
  import opened Geometry
  import opened Images
  import opened ImageAux
  import opened OpTools

  /** The payload of the dI, mI and fR messages. */
  datatype Command =
    | DrawImage(rect: Rect, patch: Image)
    | MoveImage(src: Rect, dst: Point)
    | FillRect(rect: Rect, color: Pixel)
  {
    function Target(): Rect {
      match this
      case DrawImage(rect, _) => rect
      case MoveImage(src, dst) => RectAt(dst, (src.right - src.left + 1), (src.bottom - src.top + 1))
      case FillRect(rect, _) => rect
    }

    /** The pixel the command leaves at (x, y) of its target. The canvas is cleared first, and moves read the
        front canvas. */
    function Value(front: Image, x: int, y: int): Pixel {
      match this
      case DrawImage(rect, patch) =>
        if patch.Has(x - rect.left, y - rect.top) then patch.At(x - rect.left, y - rect.top) else TRANSPARENT
      case MoveImage(src, dst) =>
        if front.Has(x - dst.x + src.left, y - dst.y + src.top) then front.At(x - dst.x + src.left, y - dst.y + src.top)
        else TRANSPARENT
      case FillRect(_, color) => color
    }
  }

  function NewPixel(back: Image, front: Image, c: Command, x: int, y: int): Pixel {
    if c.Target().Has(x, y) then c.Value(front, x, y) else if back.Has(x, y) then back.At(x, y) else TRANSPARENT
  }

  /** Executing one command on the back canvas. */
  function Paint(back: Image, front: Image, c: Command): (i: Image)
    ensures i.SameSize(back)
    ensures forall x, y :: i.Has(x, y) ==> i.At(x, y) == NewPixel(back, front, c, x, y)
  {
    Raster(back.width, back.height, PaintRows(back, front, c, back.height))
  }

  function PaintRow(back: Image, front: Image, c: Command, y: int, n: nat): (row: seq<Pixel>)
    ensures |row| == n
    ensures forall x :: 0 <= x < n ==> row[x] == NewPixel(back, front, c, x, y)
  {
    if n == 0 then [] else PaintRow(back, front, c, y, n - 1) + [NewPixel(back, front, c, n - 1, y)]
  }

  function PaintRows(back: Image, front: Image, c: Command, n: nat): (rows: seq<seq<Pixel>>)
    ensures |rows| == n
    ensures forall y :: 0 <= y < n ==> rows[y] == PaintRow(back, front, c, y, back.width)
  {
    if n == 0 then [] else PaintRows(back, front, c, n - 1) + [PaintRow(back, front, c, n - 1, back.width)]
  }

  function Replay(back: Image, front: Image, commands: seq<Command>): (i: Image)
    ensures i.SameSize(back)
    decreases |commands|
  {
    if commands == [] then back else Replay(Paint(back, front, commands[0]), front, commands[1..])
  }

  /** A command that, whenever it is executed, writes only pixels of the image to be shown. */
  ghost predicate Sound(c: Command, front: Image, after: Image) {
    forall x, y :: after.Has(x, y) && c.Target().Has(x, y) ==> c.Value(front, x, y) == after.At(x, y)
  }

  ghost predicate AllSound(commands: seq<Command>, front: Image, after: Image) {
    forall c :: c in commands ==> Sound(c, front, after)
  }

  predicate Targeted(commands: seq<Command>, x: int, y: int) {
    exists c :: c in commands && c.Target().Has(x, y)
  }

  /** Every pixel is right already or will be written by an outstanding command. */
  ghost predicate Complete(back: Image, commands: seq<Command>, after: Image) {
    && back.SameSize(after)
    && forall x, y :: after.Has(x, y) ==> back.At(x, y) == after.At(x, y) || Targeted(commands, x, y)
  }

  lemma OthersStay<T>(s: seq<T>, i: nat, o: T)
    requires i < |s| && o in s && o != s[i]
    ensures o in s[..i] + s[i + 1..]
  {
    var j :| 0 <= j < |s| && s[j] == o;
    assert o == (s[..i] + s[i + 1..])[if j < i then j else j - 1];
  }

  /** Executing any one of the outstanding commands, not only the first, keeps the rest complete. */
  lemma PaintKeepsComplete(back: Image, front: Image, commands: seq<Command>, i: nat, after: Image)
    requires i < |commands|
    requires AllSound(commands, front, after) && Complete(back, commands, after)
    ensures Complete(Paint(back, front, commands[i]), commands[..i] + commands[i + 1..], after)
  {
    var c := commands[i];
    var rest := commands[..i] + commands[i + 1..];
    var next := Paint(back, front, c);
    assert c in commands;
    forall x, y | after.Has(x, y) ensures next.At(x, y) == after.At(x, y) || Targeted(rest, x, y) {
      if !c.Target().Has(x, y) && back.At(x, y) != after.At(x, y) {
        var o :| o in commands && o.Target().Has(x, y);
        OthersStay(commands, i, o);
      }
    }
  }

  /** Sound and complete commands reach the image whatever their order. */
  lemma {:induction false} ReplayReaches(back: Image, front: Image, commands: seq<Command>, after: Image)
    requires AllSound(commands, front, after) && Complete(back, commands, after)
    ensures Replay(back, front, commands) == after
    decreases |commands|
  {
    if commands == [] {
      assert SameContent(back, after);
      SameContentIsEqual(back, after);
    } else {
      PaintKeepsComplete(back, front, commands, 0, after);
      assert commands[..0] + commands[1..] == commands[1..];
      ReplayReaches(Paint(back, front, commands[0]), front, commands[1..], after);
    }
  }

  lemma ReplayInAnyOrder(back: Image, front: Image, commands: seq<Command>, order: seq<Command>, after: Image)
    requires AllSound(commands, front, after) && Complete(back, commands, after)
    requires multiset(order) == multiset(commands)
    ensures Replay(back, front, order) == after
  {
    forall c ensures c in order <==> c in commands {
      assert c in multiset(order) <==> c in multiset(commands);
    }
    forall x, y | Targeted(commands, x, y) ensures Targeted(order, x, y) {
      var c :| c in commands && c.Target().Has(x, y);
      assert c in order;
    }
    ReplayReaches(back, front, order, after);
  }

  // ---------- from update operations to commands

  /** createPatch: the pixels of the work buffer below the rectangle, zero outside the buffer. An
      empty rectangle, which draws nothing, gets a patch of one pixel. */
  function CreatePatch(work: Image, rect: Rect): (i: Image)
    ensures rect.IsValid() ==> i.width == (rect.right - rect.left + 1) && i.height == (rect.bottom - rect.top + 1)
    ensures forall x, y :: rect.Has(x, y) && work.Has(x, y) ==>
                             i.Has(x - rect.left, y - rect.top) && i.At(x - rect.left, y - rect.top) == work.At(x, y)
  {
    if rect.IsValid() then
      Raster(rect.right - rect.left + 1, rect.bottom - rect.top + 1, PatchRows(work, rect, rect.bottom - rect.top + 1))
    else Raster(1, 1, [[0]])
  }

  function PatchRow(work: Image, left: int, y: int, n: nat): (row: seq<Pixel>)
    ensures |row| == n
    ensures forall x :: 0 <= x < n && work.Has(left + x, y) ==> row[x] == work.At(left + x, y)
  {
    if n == 0 then [] else PatchRow(work, left, y, n - 1) + [if work.Has(left + n - 1, y) then work.At(left + n - 1, y) else 0]
  }

  function PatchRows(work: Image, rect: Rect, n: nat): (rows: seq<seq<Pixel>>)
    requires rect.IsValid()
    ensures |rows| == n
    ensures forall y :: 0 <= y < n ==> rows[y] == PatchRow(work, rect.left, rect.top + y, rect.right - rect.left + 1)
  {
    if n == 0 then []
    else PatchRows(work, rect, n - 1) + [PatchRow(work, rect.left, rect.top + n - 1, rect.right - rect.left + 1)]
  }

  /** The command sent for an operation; a dI message carries only the source rectangle. */
  function ToCommand(op: UpdateOperation, work: Image): Command
    requires !op.kind.NoOp?
  {
    match op.kind
    case Update => DrawImage(op.srcRect, CreatePatch(work, op.srcRect))
    case Move => MoveImage(op.srcRect, op.dstPoint)
    case Fill => FillRect(op.srcRect, op.fillColor)
  }

  /** The commands of a list of operations; an operation of no kind sends nothing. */
  function Commands(ops: seq<UpdateOperation>, work: Image): (commands: seq<Command>) {
    if ops == [] then []
    else if ops[0].kind.NoOp? then Commands(ops[1..], work)
    else [ToCommand(ops[0], work)] + Commands(ops[1..], work)
  }

  lemma {:induction false} CommandsMembers(ops: seq<UpdateOperation>, work: Image)
    ensures forall c :: c in Commands(ops, work) <==> exists op :: op in ops && !op.kind.NoOp? && ToCommand(op, work) == c
  {
    if ops != [] {
      CommandsMembers(ops[1..], work);
      assert forall op :: op in ops <==> op == ops[0] || op in ops[1..];
    }
  }

  /** A pixel write that only puts pixels of after into after's place. */
  predicate WriteSound(w: Write, before: Image, after: Image) {
    match w
    case Copy(kind, dst, src) =>
      if kind.Update? then dst == src
      else after.Has(dst.x, dst.y) ==> before.Has(src.x, src.y) && before.At(src.x, src.y) == after.At(dst.x, dst.y)
    case SetColor(dst, color) => after.Has(dst.x, dst.y) ==> after.At(dst.x, dst.y) == color
  }

  ghost predicate WritesTo(ops: seq<UpdateOperation>, x: int, y: int) {
    exists w :: ListWrites(ops, w) && w.dst == Point(x, y)
  }

  ghost predicate OpsSound(ops: seq<UpdateOperation>, before: Image, after: Image) {
    forall w :: ListWrites(ops, w) ==> WriteSound(w, before, after)
  }

  /** What an encoder owes its decoder. */
  ghost predicate Encodes(ops: seq<UpdateOperation>, before: Image, after: Image) {
    && before.SameSize(after)
    && OpsSound(ops, before, after)
    && forall x, y :: Differs(before, after, x, y) ==> WritesTo(ops, x, y)
  }

  /** Nothing but differing pixels is written. */
  ghost predicate Thrifty(ops: seq<UpdateOperation>, before: Image, after: Image) {
    forall w :: ListWrites(ops, w) ==> Differs(before, after, w.dst.x, w.dst.y)
  }

  ghost predicate MovesNothing(ops: seq<UpdateOperation>) {
    forall w :: ListWrites(ops, w) ==> !(w.Copy? && w.kind.Move?)
  }

  lemma SameWritesThrifty(ops: seq<UpdateOperation>, other: seq<UpdateOperation>, before: Image, after: Image)
    requires SameWrites(ops, other)
    ensures Thrifty(ops, before, after) ==> Thrifty(other, before, after)
    ensures MovesNothing(ops) ==> MovesNothing(other)
  {
  }

  lemma SameWritesEncode(ops: seq<UpdateOperation>, other: seq<UpdateOperation>, before: Image, after: Image)
    requires SameWrites(ops, other) && Encodes(ops, before, after)
    ensures Encodes(other, before, after)
  {
    forall x, y | Differs(before, after, x, y) ensures WritesTo(other, x, y) {
      var w :| ListWrites(ops, w) && w.dst == Point(x, y);
      assert ListWrites(other, w);
    }
  }

  lemma SoundOpIsSound(ops: seq<UpdateOperation>, op: UpdateOperation, before: Image, after: Image)
    requires op in ops && !op.kind.NoOp? && OpsSound(ops, before, after)
    ensures Sound(ToCommand(op, after), before, after)
  {
    var c := ToCommand(op, after);
    forall x, y | after.Has(x, y) && c.Target().Has(x, y) ensures c.Value(before, x, y) == after.At(x, y) {
      match op.kind
      case Update =>
      case Move =>
        var w := Copy(Move, Point(x, y), Point(x, y).Plus(op.Vector()));
        assert w.src.Minus(op.Vector()) == w.dst;
        assert op.Writes(w);
        assert ListWrites(ops, w);
      case Fill =>
        var w := SetColor(Point(x, y), op.fillColor);
        assert op.Writes(w);
        assert ListWrites(ops, w);
    }
  }

  lemma WrittenIsTargeted(ops: seq<UpdateOperation>, before: Image, after: Image, x: int, y: int)
    requires OpsSound(ops, before, after) && WritesTo(ops, x, y)
    ensures Targeted(Commands(ops, after), x, y)
  {
    var w :| ListWrites(ops, w) && w.dst == Point(x, y);
    var op :| op in ops && op.Writes(w);
    CommandsMembers(ops, after);
    var c := ToCommand(op, after);
    assert c in Commands(ops, after);
    if op.kind.Move? {
      assert w.dst == w.src.Minus(op.Vector());
    }
    assert c.Target().Has(x, y);
  }

  /** The commands of an encoding are sound, and complete for any canvas that shows the image before. */
  lemma EncodingIsComplete(ops: seq<UpdateOperation>, before: Image, after: Image)
    requires Encodes(ops, before, after)
    ensures AllSound(Commands(ops, after), before, after)
    ensures Complete(before, Commands(ops, after), after)
  {
    CommandsMembers(ops, after);
    forall c | c in Commands(ops, after) ensures Sound(c, before, after) {
      var op :| op in ops && !op.kind.NoOp? && ToCommand(op, after) == c;
      SoundOpIsSound(ops, op, before, after);
    }
    forall x, y | after.Has(x, y) && before.At(x, y) != after.At(x, y) ensures Targeted(Commands(ops, after), x, y) {
      assert Differs(before, after, x, y);
      WrittenIsTargeted(ops, before, after, x, y);
    }
  }

  /** Decoding an encoding: from the image before, in any order, the image after and nothing else. */
  lemma DecodeEncoding(ops: seq<UpdateOperation>, before: Image, after: Image, order: seq<Command>)
    requires Encodes(ops, before, after)
    requires multiset(order) == multiset(Commands(ops, after))
    ensures Replay(before, before, order) == after
  {
    EncodingIsComplete(ops, before, after);
    ReplayInAnyOrder(before, before, Commands(ops, after), order, after);
  }
}
