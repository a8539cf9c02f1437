/** What the optimizer keeps: lists of operations with the same writes show the same picture, whatever the
    image they are replayed on, as long as no pixel is written with two different values. */
module OptimizedReplays {
  import opened Geometry
  import opened Images
  import opened OpTools
  import opened Canvas

  /** The pixel that a write leaves: work is the source of patches, front the source of moves. */
  function WriteValue(w: Write, front: Image, work: Image): Pixel {
    match w
    case Copy(kind, _, src) =>
      if kind.Update? then (if work.Has(src.x, src.y) then work.At(src.x, src.y) else 0)
      else (if front.Has(src.x, src.y) then front.At(src.x, src.y) else TRANSPARENT)
    case SetColor(_, color) => color
  }

  ghost predicate ConflictFree(ops: seq<UpdateOperation>, front: Image, work: Image) {
    forall w, v :: ListWrites(ops, w) && ListWrites(ops, v) && w.dst == v.dst ==> WriteValue(w, front, work) == WriteValue(v, front, work)
  }

  /** Updates draw where they read. */
  ghost predicate UpdatesInPlace(ops: seq<UpdateOperation>) {
    forall op :: op in ops && op.kind.Update? && op.srcRect.IsValid() ==> op.dstPoint == op.srcRect.TopLeft()
  }

  /** The write of an operation to a pixel of its target. */
  function WriteAt(op: UpdateOperation, x: int, y: int): Write {
    if op.kind.Fill? then SetColor(Point(x, y), op.fillColor)
    else Copy(op.kind, Point(x, y), Point(x, y).Plus(op.Vector()))
  }

  lemma OperationWrites(op: UpdateOperation, front: Image, work: Image, x: int, y: int)
    requires !op.kind.NoOp? && work.Has(x, y) && (op.kind.Update? && op.srcRect.IsValid() ==> op.dstPoint == op.srcRect.TopLeft())
    ensures ToCommand(op, work).Target().Has(x, y) <==> op.Writes(WriteAt(op, x, y))
    ensures op.Writes(WriteAt(op, x, y)) ==> ToCommand(op, work).Value(front, x, y) == WriteValue(WriteAt(op, x, y), front, work)
    ensures forall w :: op.Writes(w) && w.dst == Point(x, y) ==> w == WriteAt(op, x, y)
  {
    var w := WriteAt(op, x, y);
    if !op.kind.Fill? {
      assert w.src.Minus(op.Vector()) == w.dst;
    }
  }

  lemma {:induction false} ReplayPixel(back: Image, front: Image, commands: seq<Command>, x: int, y: int, v: Pixel)
    requires back.Has(x, y)
    requires forall c :: c in commands && c.Target().Has(x, y) ==> c.Value(front, x, y) == v
    ensures Replay(back, front, commands).At(x, y) == if Targeted(commands, x, y) then v else back.At(x, y)
    decreases |commands|
  {
    if commands != [] {
      var c, rest := commands[0], commands[1..];
      assert c in commands;
      ReplayPixel(Paint(back, front, c), front, rest, x, y, v);
      assert Targeted(commands, x, y) <==> c.Target().Has(x, y) || Targeted(rest, x, y) by {
        assert forall d :: d in commands <==> d == c || d in rest;
      }
    }
  }

  /** Replaying a conflict-free list leaves, at every pixel, the value of any of its writes there. */
  lemma ReplayOfWrites(ops: seq<UpdateOperation>, back: Image, front: Image, work: Image, x: int, y: int)
    requires ConflictFree(ops, front, work) && UpdatesInPlace(ops) && back.SameSize(work) && back.Has(x, y)
    ensures !WritesTo(ops, x, y) ==> Replay(back, front, Commands(ops, work)).At(x, y) == back.At(x, y)
    ensures forall w :: ListWrites(ops, w) && w.dst == Point(x, y) ==>
                          Replay(back, front, Commands(ops, work)).At(x, y) == WriteValue(w, front, work)
  {
    CommandsMembers(ops, work);
    var commands := Commands(ops, work);
    forall c | c in commands && c.Target().Has(x, y)
      ensures exists w :: ListWrites(ops, w) && w.dst == Point(x, y) && WriteValue(w, front, work) == c.Value(front, x, y)
    {
      var op :| op in ops && !op.kind.NoOp? && ToCommand(op, work) == c;
      OperationWrites(op, front, work, x, y);
      assert ListWrites(ops, WriteAt(op, x, y));
    }
    if !WritesTo(ops, x, y) {
      ReplayPixel(back, front, commands, x, y, 0);
    }
    forall w | ListWrites(ops, w) && w.dst == Point(x, y)
      ensures Replay(back, front, commands).At(x, y) == WriteValue(w, front, work)
    {
      var op :| op in ops && op.Writes(w);
      OperationWrites(op, front, work, x, y);
      assert ToCommand(op, work) in commands;
      ReplayPixel(back, front, commands, x, y, WriteValue(w, front, work));
    }
  }

  lemma SameWritesInPlace(a: seq<UpdateOperation>, b: seq<UpdateOperation>)
    requires SameWrites(a, b) && UpdatesInPlace(a)
    ensures UpdatesInPlace(b)
  {
    forall op | op in b && op.kind.Update? && op.srcRect.IsValid() ensures op.dstPoint == op.srcRect.TopLeft() {
      var w := Copy(Update, op.srcRect.TopLeft().Minus(op.Vector()), op.srcRect.TopLeft());
      assert op.Writes(w);
      assert ListWrites(b, w);
      var o :| o in a && o.Writes(w);
    }
  }

  /** The optimizer preserves meaning: on conflict-free lists, the same writes replay to the same picture. */
  lemma SameWritesReplayAlike(a: seq<UpdateOperation>, b: seq<UpdateOperation>, back: Image, front: Image, work: Image)
    requires SameWrites(a, b) && UpdatesInPlace(a)
    requires ConflictFree(a, front, work) && back.SameSize(work)
    ensures Replay(back, front, Commands(a, work)) == Replay(back, front, Commands(b, work))
  {
    SameWritesInPlace(a, b);
    var i, j := Replay(back, front, Commands(a, work)), Replay(back, front, Commands(b, work));
    forall x, y | back.Has(x, y) ensures i.At(x, y) == j.At(x, y) {
      ReplayOfWrites(a, back, front, work, x, y);
      ReplayOfWrites(b, back, front, work, x, y);
      if WritesTo(a, x, y) {
        var w :| ListWrites(a, w) && w.dst == Point(x, y);
        assert ListWrites(b, w);
      } else {
        assert !WritesTo(b, x, y);
      }
    }
    assert SameContent(i, j);
    SameContentIsEqual(i, j);
  }
}
