/** Full updates: when they bring back a page that has lost its picture. */
module FullUpdates {
  import opened Geometry
  import opened Images
  import opened ImageAux
  import opened OpTools
  import opened Canvas
  import opened Protocol
  import opened ProtocolSafety

  /** The step from an all-zero frame to a frame without zero pixels contains no usable move and writes every
      pixel: its commands are sound and complete for every page. */
  lemma FullFrameSuitsEveryCanvas(ops: seq<UpdateOperation>, zero: Image, scene: Image, canvas: Image, front: Image)
    requires Encodes(ops, zero, scene) && HasNoZeroPixel(scene)
    requires AllZero(zero)
    requires canvas.SameSize(scene)
    ensures AllSound(Commands(ops, scene), front, scene) && Complete(canvas, Commands(ops, scene), scene)
  {
    EncodingIsComplete(ops, zero, scene);
    CommandsMembers(ops, scene);
    forall c, x, y | c in Commands(ops, scene) && scene.Has(x, y) && c.Target().Has(x, y)
      ensures c.Value(front, x, y) == scene.At(x, y)
    {
      assert Sound(c, zero, scene);
      assert c.Value(zero, x, y) == scene.At(x, y);
    }
    forall x, y | scene.Has(x, y) ensures Targeted(Commands(ops, scene), x, y) {
      assert Differs(zero, scene, x, y);
    }
  }

  // ---------- exactly the scenes without zero pixels are resynchronized by every encoding

  /** Whatever a page shows, replaying the frame shows the scene. */
  ghost predicate EveryPageShows(ops: seq<UpdateOperation>, scene: Image) {
    forall canvas: Image :: canvas.SameSize(scene) ==> Replay(canvas, canvas, Commands(ops, scene)) == scene
  }

  lemma SolidFrameResyncs(ops: seq<UpdateOperation>, zero: Image, scene: Image)
    requires Encodes(ops, zero, scene) && AllZero(zero) && HasNoZeroPixel(scene)
    ensures EveryPageShows(ops, scene)
  {
    forall canvas: Image | canvas.SameSize(scene) ensures Replay(canvas, canvas, Commands(ops, scene)) == scene {
      FullFrameSuitsEveryCanvas(ops, zero, scene, canvas, canvas);
      ReplayReaches(canvas, canvas, Commands(ops, scene), scene);
    }
  }

  /** A zero pixel costs nothing to leave out, and then a canvas that shows anything else there keeps it. */
  lemma ZeroPixelSurvives(scene: Image, x: int, y: int, canvas: Image)
    requires scene.Has(x, y) && scene.At(x, y) == 0 && canvas.SameSize(scene)
    ensures Encodes(AllButOne(scene, x, y), Zero(scene), scene)
    ensures Replay(canvas, canvas, Commands(AllButOne(scene, x, y), scene)).At(x, y) == canvas.At(x, y)
  {
    AllButOneEncodes(scene, x, y);
    AllButOneMisses(AllButOne(scene, x, y), scene, canvas, x, y);
  }

  function White(i: Image): (w: Image)
    ensures w.SameSize(i) && forall x, y :: w.Has(x, y) ==> w.At(x, y) == 0xFFFF_FFFF
  {
    Make(i.width, i.height, (x, y) => 0xFFFF_FFFF)
  }

  lemma ResyncExactly(scene: Image)
    ensures HasNoZeroPixel(scene) <==> forall ops :: Encodes(ops, Zero(scene), scene) ==> EveryPageShows(ops, scene)
  {
    hide Encodes;
    if HasNoZeroPixel(scene) {
      forall ops | Encodes(ops, Zero(scene), scene) ensures EveryPageShows(ops, scene) {
        SolidFrameResyncs(ops, Zero(scene), scene);
      }
    } else {
      var x, y :| 0 <= x < scene.width && 0 <= y < scene.height && scene.At(x, y) == 0;
      ZeroPixelSurvives(scene, x, y, White(scene));
      assert !EveryPageShows(AllButOne(scene, x, y), scene);
    }
  }

  function UpdateOf(r: Rect): UpdateOperation { UpdateOperation(Update, r, r.TopLeft(), 0) }

  lemma WholeFrameEncodes(before: Image, after: Image)
    requires before.SameSize(after)
    ensures Encodes([UpdateOf(after.Bounds())], before, after)
  {
    var op := UpdateOf(after.Bounds());
    forall x, y | Differs(before, after, x, y) ensures WritesTo([op], x, y) {
      assert op.Writes(Copy(Update, Point(x, y), Point(x, y)));
      assert ListWrites([op], Copy(Update, Point(x, y), Point(x, y)));
    }
  }

  /** Updates for every pixel but one. */
  function AllButOne(scene: Image, x: int, y: int): seq<UpdateOperation> {
    [UpdateOf(Rect(0, 0, scene.width - 1, y - 1)), UpdateOf(Rect(0, y + 1, scene.width - 1, scene.height - 1)),
     UpdateOf(Rect(0, y, x - 1, y)), UpdateOf(Rect(x + 1, y, scene.width - 1, y))]
  }

  lemma AllButOneEncodes(scene: Image, x: int, y: int)
    requires scene.Has(x, y) && scene.At(x, y) == 0
    ensures Encodes(AllButOne(scene, x, y), Zero(scene), scene)
  {
    var ops := AllButOne(scene, x, y);
    forall u, v | Differs(Zero(scene), scene, u, v) ensures WritesTo(ops, u, v) {
      var op := if v < y then ops[0] else if v > y then ops[1] else if u < x then ops[2] else ops[3];
      assert op in ops && op.Writes(Copy(Update, Point(u, v), Point(u, v)));
      assert ListWrites(ops, Copy(Update, Point(u, v), Point(u, v)));
    }
  }

  lemma AllButOneMisses(ops: seq<UpdateOperation>, scene: Image, canvas: Image, x: int, y: int)
    requires scene.Has(x, y) && ops == AllButOne(scene, x, y) && canvas.SameSize(scene)
    ensures Replay(canvas, canvas, Commands(ops, scene)).At(x, y) == canvas.At(x, y)
  {
    CommandsMembers(ops, scene);
    forall op | op in ops ensures op.kind.Update? && !op.srcRect.Has(x, y) {
    }
    forall c | c in Commands(ops, scene) ensures !c.Target().Has(x, y) {
      var op :| op in ops && !op.kind.NoOp? && ToCommand(op, scene) == c;
      TargetOfUpdate(op, scene);
    }
    ReplayKeeps(canvas, canvas, Commands(ops, scene), x, y);
  }

  lemma TargetOfUpdate(op: UpdateOperation, scene: Image)
    requires op.kind.Update?
    ensures ToCommand(op, scene).Target() == op.srcRect
  {
  }

  lemma {:induction false} ReplayKeeps(back: Image, front: Image, commands: seq<Command>, x: int, y: int)
    requires back.Has(x, y) && !Targeted(commands, x, y)
    ensures Replay(back, front, commands).At(x, y) == back.At(x, y)
    decreases |commands|
  {
    if commands != [] {
      assert commands[0] in commands;
      ReplayKeeps(Paint(back, front, commands[0]), front, commands[1..], x, y);
    }
  }

  lemma FullFrameHasOperations(ops: seq<UpdateOperation>, zero: Image, scene: Image)
    requires Encodes(ops, zero, scene) && HasNoZeroPixel(scene) && AllZero(zero)
    ensures |ops| > 0
  {
    assert Differs(zero, scene, 0, 0);
    var w :| ListWrites(ops, w) && w.dst == Point(0, 0);
    var op :| op in ops && op.Writes(w);
  }

  /** A page that has just seen the full-update mark, with the whole frame still ahead of it. */
  lemma MarkedFrameConverges(m: System, ops: seq<UpdateOperation>, zero: Image, large: set<int>)
    requires !m.server.clientReady && m.toServer == []
    requires m.server.patches == PatchesUpTo(ops, |ops|, m.server.work, m.server.frame, large, map[])
    requires m.toClient == MessagesUpTo(ops, |ops|, m.server.work, m.server.frame, large) + [End(m.server.frame)]
    requires m.client.loads == [] && m.client.pendingPatchesCount == 0 && m.client.frameErrors == 0
    requires !m.client.waitingForFullUpdate && m.client.lastFrame == Some(m.server.frame) && !m.client.frameEndReceived
    requires m.client.canvas.SameSize(m.server.work) && m.client.frontCanvas.SameSize(m.server.work)
    requires Encodes(ops, zero, m.server.work) && AllZero(zero) && HasNoZeroPixel(m.server.work)
    ensures Inv(m)
  {
    var frame, scene := m.server.frame, m.server.work;
    var body := MessagesUpTo(ops, |ops|, scene, frame, large);
    FrameResolves(ops, |ops|, scene, frame, large);
    assert ops[..|ops|] == ops;
    assert [] + body == body;
    NewFrameQueue([], body, frame);
    assert Outstanding(m) == Payloads(body);
    FullFrameSuitsEveryCanvas(ops, zero, scene, m.client.canvas, m.client.frontCanvas);
    if body != [] {
      assert body[0] in body;
    }
    assert InFlight(m);
  }

  // ---------- the frame that the encoder emits

  lemma WriteAtTarget(op: UpdateOperation, scene: Image, x: int, y: int) returns (w: Write)
    requires !op.kind.NoOp? && ToCommand(op, scene).Target().Has(x, y)
    ensures op.Writes(w) && w.dst == if op.kind.Update? then Point(x, y).Minus(op.Vector()) else Point(x, y)
    ensures op.kind.Update? ==> w == Copy(Update, w.dst, Point(x, y))
  {
    match op.kind
    case Update => w := Copy(Update, Point(x, y).Minus(op.Vector()), Point(x, y));
    case Move =>
      w := Copy(Move, Point(x, y), Point(x, y).Plus(op.Vector()));
      assert w.dst == w.src.Minus(op.Vector());
    case Fill => w := SetColor(Point(x, y), op.fillColor);
  }

  lemma TargetedIsWritten(ops: seq<UpdateOperation>, before: Image, scene: Image, x: int, y: int)
    requires OpsSound(ops, before, scene) && Targeted(Commands(ops, scene), x, y)
    ensures WritesTo(ops, x, y)
  {
    hide ToCommand, Commands;
    CommandsMembers(ops, scene);
    var c :| c in Commands(ops, scene) && c.Target().Has(x, y);
    var op :| op in ops && !op.kind.NoOp? && ToCommand(op, scene) == c;
    var w := WriteAtTarget(op, scene, x, y);
    assert ListWrites(ops, w);
    assert WriteSound(w, before, scene);
  }

  /** A frame that writes nothing but differing pixels brings every canvas to the scene exactly when no pixel of the
      scene is all-zero. */
  lemma ThriftyResyncsExactly(ops: seq<UpdateOperation>, zero: Image, scene: Image)
    requires Encodes(ops, zero, scene) && AllZero(zero) && Thrifty(ops, zero, scene)
    ensures EveryPageShows(ops, scene) <==> HasNoZeroPixel(scene)
  {
    if HasNoZeroPixel(scene) {
      SolidFrameResyncs(ops, zero, scene);
    } else {
      var x, y :| 0 <= x < scene.width && 0 <= y < scene.height && scene.At(x, y) == 0;
      assert !Differs(zero, scene, x, y);
      if Targeted(Commands(ops, scene), x, y) {
        TargetedIsWritten(ops, zero, scene, x, y);
      }
      ReplayKeeps(White(scene), White(scene), Commands(ops, scene), x, y);
    }
  }

  lemma FullFrameReaches(ops: seq<UpdateOperation>, zero: Image, scene: Image, thrifty: bool)
    requires Encodes(ops, zero, scene) && AllZero(zero) && (thrifty ==> Thrifty(ops, zero, scene)) && (zero == scene ==> ops == [])
    ensures HasNoZeroPixel(scene) ==> EveryPageShows(ops, scene)
    ensures thrifty ==> (EveryPageShows(ops, scene) <==> HasNoZeroPixel(scene))
    ensures AllZero(scene) ==> ops == []
  {
    hide EveryPageShows;
    if HasNoZeroPixel(scene) {
      SolidFrameResyncs(ops, zero, scene);
    }
    if thrifty {
      ThriftyResyncsExactly(ops, zero, scene);
    }
    if AllZero(scene) {
      SameContentIsEqual(zero, scene);
    }
  }
}
