/** src/display/comparer/imagecompareroptools.h and .cpp: update operations and their optimizer. */
module OpTools {
  import opened Geometry
  import opened Images
  import opened Sequences
  import Tiles

  datatype OpType = Update | Move | Fill | NoOp

  datatype UpdateOperation = UpdateOperation(kind: OpType, srcRect: Rect, dstPoint: Point, fillColor: Pixel) {
    function Vector(): Point { srcRect.TopLeft().Minus(dstPoint) }

    /** What one pixel of the operation does: see Write. */
    predicate Writes(w: Write) {
      match w
      case Copy(k, dst, src) => kind == k && (k.Update? || k.Move?) && srcRect.Has(src.x, src.y) && dst == src.Minus(Vector())
      case SetColor(dst, color) => kind.Fill? && srcRect.Has(dst.x, dst.y) && color == fillColor
    }
  }

  /** The meaning of operations, pixel by pixel: dst receives a pixel of an image, or a colour. */
  datatype Write =
    | Copy(kind: OpType, dst: Point, src: Point)
    | SetColor(dst: Point, color: Pixel)

  predicate ListWrites(ops: seq<UpdateOperation>, w: Write) {
    exists op :: op in ops && op.Writes(w)
  }

  ghost predicate SameWrites(a: seq<UpdateOperation>, b: seq<UpdateOperation>) {
    forall w :: ListWrites(a, w) <==> ListWrites(b, w)
  }

  lemma WritesConcat(a: seq<UpdateOperation>, b: seq<UpdateOperation>)
    ensures forall w :: ListWrites(a + b, w) <==> ListWrites(a, w) || ListWrites(b, w)
  {
    forall w ensures ListWrites(a + b, w) <==> ListWrites(a, w) || ListWrites(b, w) {
      if ListWrites(a, w) {
        var op :| op in a && op.Writes(w);
        assert op in a + b;
      }
      if ListWrites(b, w) {
        var op :| op in b && op.Writes(w);
        assert op in a + b;
      }
    }
  }

  ghost predicate BucketWrites<K>(hash: map<K, seq<UpdateOperation>>, keys: set<K>, w: Write) {
    exists k :: k in keys && k in hash && ListWrites(hash[k], w)
  }

  /** region += op.srcRect over a bucket. */
  method UnionOfSources(ops: seq<UpdateOperation>) returns (region: Region)
    ensures forall p :: p in region <==> exists op :: op in ops && op.srcRect.Has(p.x, p.y)
  {
    region := {};
    for i := 0 to |ops|
      invariant forall p :: p in region <==> exists op :: op in ops[..i] && op.srcRect.Has(p.x, p.y)
    {
      assert ops[..i + 1] == ops[..i] + [ops[i]];
      region := region + Pixels(ops[i].srcRect);
    }
    assert ops[..|ops|] == ops;
  }

  /** The operation that a merged rectangle of a bucket becomes. */
  function VectorOp(kind: OpType, rect: Rect, vector: Point): UpdateOperation {
    UpdateOperation(kind, rect, rect.TopLeft().Minus(vector), 0)
  }

  function FillOp(rect: Rect, color: Pixel): UpdateOperation {
    UpdateOperation(Fill, rect, rect.TopLeft(), color)
  }

  /** Operations that end up in the same bucket. */
  predicate SameBucket(a: UpdateOperation, b: UpdateOperation) {
    a.kind == b.kind && if a.kind.Fill? then a.fillColor == b.fillColor else a.Vector() == b.Vector()
  }

  /** No pixel is taken up twice in a bucket. */
  predicate NoOverlap(ops: seq<UpdateOperation>) {
    forall i, j :: 0 <= i < j < |ops| && SameBucket(ops[i], ops[j]) ==> !ops[i].srcRect.Overlaps(ops[j].srcRect)
  }

  lemma NoOverlapConcat(a: seq<UpdateOperation>, b: seq<UpdateOperation>)
    requires NoOverlap(a) && NoOverlap(b) && forall x, y :: x in a && y in b ==> !SameBucket(x, y)
    ensures NoOverlap(a + b)
  {
  }

  function OfKind(ops: seq<UpdateOperation>, kind: OpType): seq<UpdateOperation> {
    if ops == [] then []
    else OfKind(ops[..|ops| - 1], kind) + if ops[|ops| - 1].kind == kind then [ops[|ops| - 1]] else []
  }

  lemma OfKindAppend(ops: seq<UpdateOperation>, op: UpdateOperation)
    ensures forall kind :: OfKind(ops + [op], kind) == OfKind(ops, kind) + if op.kind == kind then [op] else []
  {
    assert (ops + [op])[..|ops|] == ops;
  }

  /** The merged form of operations of one kind where that is shorter. */
  ghost predicate IsShortened(given: seq<UpdateOperation>, part: seq<UpdateOperation>) {
    exists merged :: SameWrites(given, merged) && NoOverlap(merged) && part == if |merged| < |given| then merged else given
  }

  /** Updates, fills, moves and the rest, each kind shortened. */
  ghost predicate IsOptimized(ops: seq<UpdateOperation>, newOps: seq<UpdateOperation>) {
    exists u, f, m ::
      && IsShortened(OfKind(ops, Update), u) && IsShortened(OfKind(ops, Fill), f) && IsShortened(OfKind(ops, Move), m)
      && newOps == u + f + m + OfKind(ops, NoOp)
  }

  /** One bucket of optimizeVectorizedOperations. */
  method MergeVectorBucket(kind: OpType, vector: Point, ops: seq<UpdateOperation>) returns (merged: seq<UpdateOperation>)
    requires kind.Update? || kind.Move?
    requires forall op :: op in ops ==> op.kind == kind && op.Vector() == vector
    ensures SameWrites(ops, merged) && NoOverlap(merged)
    ensures forall op :: op in merged ==> op.kind == kind && op.Vector() == vector
  {
    hide SameWrites, NoOverlap, PairwiseDisjoint, UpdateOperation.Vector;
    var region := UnionOfSources(ops);
    var rects := Tiles.UnitedRegionRects(region);
    merged := [];
    for i := 0 to |rects|
      invariant |merged| == i
      invariant forall j :: 0 <= j < i ==> merged[j] == VectorOp(kind, rects[j], vector)
    {
      merged := merged + [VectorOp(kind, rects[i], vector)];
    }
    VectorBucketSame(kind, vector, ops, rects, merged);
    SourcesApart(rects, merged);
  }

  lemma SourcesApart(rects: seq<Rect>, merged: seq<UpdateOperation>)
    requires PairwiseDisjoint(rects) && |merged| == |rects| && forall j :: 0 <= j < |rects| ==> merged[j].srcRect == rects[j]
    ensures NoOverlap(merged)
  {
  }

  lemma VectorBucketSame(kind: OpType, vector: Point, ops: seq<UpdateOperation>, rects: seq<Rect>, merged: seq<UpdateOperation>)
    requires kind.Update? || kind.Move?
    requires forall op :: op in ops ==> op.kind == kind && op.Vector() == vector
    requires forall x, y :: Covered(rects, x, y) <==> exists op :: op in ops && op.srcRect.Has(x, y)
    requires |merged| == |rects| && forall j :: 0 <= j < |rects| ==> merged[j] == VectorOp(kind, rects[j], vector)
    ensures SameWrites(ops, merged)
    ensures forall op :: op in merged ==> op.kind == kind && op.Vector() == vector
  {
    forall j | 0 <= j < |merged| ensures merged[j].Vector() == vector {
    }
    forall k, dst, src ensures ListWrites(ops, Copy(k, dst, src)) <==> ListWrites(merged, Copy(k, dst, src)) {
      var w := Copy(k, dst, src);
      if ListWrites(ops, w) {
        assert Covered(rects, src.x, src.y);
        var r :| r in rects && r.Has(src.x, src.y);
        var j :| 0 <= j < |rects| && rects[j] == r;
        assert merged[j] in merged && merged[j].Writes(w);
      }
      if ListWrites(merged, w) {
        var j :| 0 <= j < |merged| && merged[j].Writes(w);
        assert rects[j] in rects && Covered(rects, src.x, src.y);
        var op :| op in ops && op.srcRect.Has(src.x, src.y);
        assert op.Writes(w);
      }
    }
  }

  /** One bucket of optimizeFillOperations. */
  method MergeFillBucket(color: Pixel, ops: seq<UpdateOperation>) returns (merged: seq<UpdateOperation>)
    requires forall op :: op in ops ==> op.kind.Fill? && op.fillColor == color
    ensures SameWrites(ops, merged) && NoOverlap(merged)
    ensures forall op :: op in merged ==> op.kind.Fill? && op.fillColor == color
  {
    var region := UnionOfSources(ops);
    var rects := Tiles.UnitedRegionRects(region);
    merged := [];
    for i := 0 to |rects|
      invariant |merged| == i
      invariant forall j :: 0 <= j < i ==> merged[j] == FillOp(rects[j], color)
    {
      merged := merged + [FillOp(rects[i], color)];
    }
    SourcesApart(rects, merged);
    forall w ensures ListWrites(ops, w) <==> ListWrites(merged, w) {
      if ListWrites(ops, w) {
        assert Point(w.dst.x, w.dst.y) in region;
        var r :| r in rects && r.Has(w.dst.x, w.dst.y);
        var j :| 0 <= j < |rects| && rects[j] == r;
        assert merged[j] in merged && merged[j].Writes(w);
      }
      if ListWrites(merged, w) {
        var j :| 0 <= j < |merged| && merged[j].Writes(w);
        assert rects[j] in rects && Covered(rects, w.dst.x, w.dst.y);
        assert Point(w.dst.x, w.dst.y) in region;
        var op :| op in ops && op.srcRect.Has(w.dst.x, w.dst.y);
        assert op.Writes(w);
      }
    }
  }

  /** A hash iterator visits the keys in some order that the program cannot rely on. */
  method OptimizeVectorizedOperations(kind: OpType, moveOps: map<Point, seq<UpdateOperation>>) returns (newOps: seq<UpdateOperation>)
    requires kind.Update? || kind.Move?
    requires forall v :: v in moveOps ==> forall op :: op in moveOps[v] ==> op.kind == kind && op.Vector() == v
    ensures forall w :: ListWrites(newOps, w) <==> BucketWrites(moveOps, moveOps.Keys, w)
    ensures NoOverlap(newOps)
  {
    newOps := [];
    var rest := moveOps.Keys;
    while rest != {}
      invariant rest <= moveOps.Keys
      invariant forall w :: ListWrites(newOps, w) <==> BucketWrites(moveOps, moveOps.Keys - rest, w)
      invariant NoOverlap(newOps) && forall op :: op in newOps ==> op.kind == kind && op.Vector() !in rest
      decreases |rest|
    {
      var vector :| vector in rest;
      var merged := MergeVectorBucket(kind, vector, moveOps[vector]);
      WritesConcat(newOps, merged);
      NoOverlapConcat(newOps, merged);
      BucketStep(moveOps, moveOps.Keys - rest, vector);
      assert moveOps.Keys - rest + {vector} == moveOps.Keys - (rest - {vector});
      newOps := newOps + merged;
      rest := rest - {vector};
    }
  }

  method OptimizeFillOperations(fillOps: map<Pixel, seq<UpdateOperation>>) returns (newOps: seq<UpdateOperation>)
    requires forall c :: c in fillOps ==> forall op :: op in fillOps[c] ==> op.kind.Fill? && op.fillColor == c
    ensures forall w :: ListWrites(newOps, w) <==> BucketWrites(fillOps, fillOps.Keys, w)
    ensures NoOverlap(newOps)
  {
    newOps := [];
    var rest := fillOps.Keys;
    while rest != {}
      invariant rest <= fillOps.Keys
      invariant forall w :: ListWrites(newOps, w) <==> BucketWrites(fillOps, fillOps.Keys - rest, w)
      invariant NoOverlap(newOps) && forall op :: op in newOps ==> op.kind.Fill? && op.fillColor !in rest
      decreases |rest|
    {
      var color :| color in rest;
      var merged := MergeFillBucket(color, fillOps[color]);
      WritesConcat(newOps, merged);
      NoOverlapConcat(newOps, merged);
      BucketStep(fillOps, fillOps.Keys - rest, color);
      assert fillOps.Keys - rest + {color} == fillOps.Keys - (rest - {color});
      newOps := newOps + merged;
      rest := rest - {color};
    }
  }

  lemma BucketStep<K>(hash: map<K, seq<UpdateOperation>>, done: set<K>, k: K)
    requires k in hash
    ensures forall w :: BucketWrites(hash, done + {k}, w) <==> BucketWrites(hash, done, w) || ListWrites(hash[k], w)
  {
    forall w | BucketWrites(hash, done, w) ensures BucketWrites(hash, done + {k}, w) {
      var j :| j in done && j in hash && ListWrites(hash[j], w);
      assert j in done + {k};
    }
    forall w | ListWrites(hash[k], w) ensures BucketWrites(hash, done + {k}, w) {
      assert k in done + {k};
    }
  }

  /** hash[key].append(op) on a hash that creates missing entries. */
  function Appended<K>(hash: map<K, seq<UpdateOperation>>, key: K, op: UpdateOperation): map<K, seq<UpdateOperation>> {
    hash[key := (if key in hash then hash[key] else []) + [op]]
  }

  lemma AppendedWrites<K>(hash: map<K, seq<UpdateOperation>>, key: K, op: UpdateOperation)
    ensures forall w :: BucketWrites(Appended(hash, key, op), Appended(hash, key, op).Keys, w) <==>
                        BucketWrites(hash, hash.Keys, w) || op.Writes(w)
  {
    var next := Appended(hash, key, op);
    var bucket := if key in hash then hash[key] else [];
    WritesConcat(bucket, [op]);
    Single(op);
    forall w ensures BucketWrites(next, next.Keys, w) <==> BucketWrites(hash, hash.Keys, w) || op.Writes(w) {
      if BucketWrites(hash, hash.Keys, w) {
        var k :| k in hash && ListWrites(hash[k], w);
        assert k in next.Keys && ListWrites(next[k], w);
      }
      if op.Writes(w) {
        assert key in next.Keys && ListWrites(next[key], w);
      }
    }
  }

  lemma Single(op: UpdateOperation)
    ensures forall w :: ListWrites([op], w) <==> op.Writes(w)
  {
    assert op in [op];
  }

  /** The hash table holds the operations of the list, each under its move vector. */
  ghost predicate VectorHashed(hash: map<Point, seq<UpdateOperation>>, list: seq<UpdateOperation>, kind: OpType) {
    && (forall v :: v in hash ==> forall op :: op in hash[v] ==> op.kind == kind && op.Vector() == v)
    && (forall w :: ListWrites(list, w) <==> BucketWrites(hash, hash.Keys, w))
  }

  /** The same with each operation under its fill colour. */
  ghost predicate ColorHashed(hash: map<Pixel, seq<UpdateOperation>>, list: seq<UpdateOperation>) {
    && (forall c :: c in hash ==> forall op :: op in hash[c] ==> op.kind.Fill? && op.fillColor == c)
    && (forall w :: ListWrites(list, w) <==> BucketWrites(hash, hash.Keys, w))
  }

  lemma VectorHashedAppend(hash: map<Point, seq<UpdateOperation>>, list: seq<UpdateOperation>, op: UpdateOperation)
    requires VectorHashed(hash, list, op.kind)
    ensures VectorHashed(Appended(hash, op.Vector(), op), list + [op], op.kind)
  {
    AppendedWrites(hash, op.Vector(), op);
    WritesConcat(list, [op]);
    Single(op);
  }

  lemma ColorHashedAppend(hash: map<Pixel, seq<UpdateOperation>>, list: seq<UpdateOperation>, op: UpdateOperation)
    requires ColorHashed(hash, list) && op.kind.Fill?
    ensures ColorHashed(Appended(hash, op.fillColor, op), list + [op])
  {
    AppendedWrites(hash, op.fillColor, op);
    WritesConcat(list, [op]);
    Single(op);
  }

  ghost predicate FourParts(ops: seq<UpdateOperation>, u: seq<UpdateOperation>, f: seq<UpdateOperation>,
                            m: seq<UpdateOperation>, o: seq<UpdateOperation>) {
    && u == OfKind(ops, Update) && f == OfKind(ops, Fill) && m == OfKind(ops, Move) && o == OfKind(ops, NoOp)
    && |ops| == |u| + |f| + |m| + |o|
    && forall w :: ListWrites(ops, w) <==> ListWrites(u, w) || ListWrites(f, w) || ListWrites(m, w) || ListWrites(o, w)
  }

  lemma NothingHashed()
    ensures FourParts([], [], [], [], []) && VectorHashed(map[], [], Update) && VectorHashed(map[], [], Move) && ColorHashed(map[], [])
  {
  }

  lemma FourPartsAppend(ops: seq<UpdateOperation>, u: seq<UpdateOperation>, f: seq<UpdateOperation>, m: seq<UpdateOperation>,
                        o: seq<UpdateOperation>, op: UpdateOperation)
    requires FourParts(ops, u, f, m, o)
    ensures FourParts(ops + [op], if op.kind.Update? then u + [op] else u, if op.kind.Fill? then f + [op] else f,
                      if op.kind.Move? then m + [op] else m, if op.kind.NoOp? then o + [op] else o)
  {
    hide OfKind;
    OfKindAppend(ops, op);
    Neutral(u);
    Neutral(f);
    Neutral(m);
    Neutral(o);
    WritesConcat(ops, [op]);
    WritesConcat(match op.kind case Update => u case Fill => f case Move => m case NoOp => o, [op]);
  }

  lemma PartsJoined(ops: seq<UpdateOperation>, u: seq<UpdateOperation>, f: seq<UpdateOperation>, m: seq<UpdateOperation>,
                    o: seq<UpdateOperation>, u': seq<UpdateOperation>, f': seq<UpdateOperation>, m': seq<UpdateOperation>)
    requires FourParts(ops, u, f, m, o)
    requires SameWrites(u, u') && SameWrites(f, f') && SameWrites(m, m') && NoOverlap(u') && NoOverlap(f') && NoOverlap(m')
    ensures var newOps := (if |u'| < |u| then u' else u) + (if |f'| < |f| then f' else f) + (if |m'| < |m| then m' else m) + o;
            SameWrites(ops, newOps) && IsOptimized(ops, newOps) && |newOps| <= |ops|
  {
    hide NoOverlap, OfKind;
    var u1, f1, m1 := if |u'| < |u| then u' else u, if |f'| < |f| then f' else f, if |m'| < |m| then m' else m;
    assert IsShortened(u, u1) && IsShortened(f, f1) && IsShortened(m, m1);
    WritesConcat(u1, f1);
    WritesConcat(u1 + f1, m1);
    WritesConcat(u1 + f1 + m1, o);
  }

  /** The optimizer keeps exactly the writes of every kind and never emits more operations than it was given: kind by kind,
      it sends the merged operations if they are fewer. */
  method OptimizeUpdateOperations(ops: seq<UpdateOperation>) returns (newOps: seq<UpdateOperation>)
    ensures SameWrites(ops, newOps) && IsOptimized(ops, newOps)
    ensures |newOps| <= |ops|
  {
    hide FourParts, IsOptimized, NoOverlap, BucketWrites, ListWrites, Appended, UpdateOperation.Vector;
    var vectorHashedUpdateOps: map<Point, seq<UpdateOperation>> := map[];
    var vectorHashedMoveOps: map<Point, seq<UpdateOperation>> := map[];
    var colorHashedFillOps: map<Pixel, seq<UpdateOperation>> := map[];
    var updateOps: seq<UpdateOperation>, moveOps: seq<UpdateOperation> := [], [];
    var fillOps: seq<UpdateOperation>, otherOps: seq<UpdateOperation> := [], [];
    NothingHashed();
    for i := 0 to |ops|
      invariant FourParts(ops[..i], updateOps, fillOps, moveOps, otherOps)
      invariant VectorHashed(vectorHashedUpdateOps, updateOps, Update)
      invariant VectorHashed(vectorHashedMoveOps, moveOps, Move)
      invariant ColorHashed(colorHashedFillOps, fillOps)
    {
      var op := ops[i];
      assert ops[..i + 1] == ops[..i] + [op];
      FourPartsAppend(ops[..i], updateOps, fillOps, moveOps, otherOps, op);
      if op.kind.Update? {
        VectorHashedAppend(vectorHashedUpdateOps, updateOps, op);
        vectorHashedUpdateOps := Appended(vectorHashedUpdateOps, op.Vector(), op);
        updateOps := updateOps + [op];
      } else if op.kind.Move? {
        VectorHashedAppend(vectorHashedMoveOps, moveOps, op);
        vectorHashedMoveOps := Appended(vectorHashedMoveOps, op.Vector(), op);
        moveOps := moveOps + [op];
      } else if op.kind.Fill? {
        ColorHashedAppend(colorHashedFillOps, fillOps, op);
        colorHashedFillOps := Appended(colorHashedFillOps, op.fillColor, op);
        fillOps := fillOps + [op];
      } else {
        otherOps := otherOps + [op];
      }
    }
    assert ops[..|ops|] == ops;
    var newUpdateOps := OptimizeVectorizedOperations(Update, vectorHashedUpdateOps);
    var newMoveOps := OptimizeVectorizedOperations(Move, vectorHashedMoveOps);
    var newFillOps := OptimizeFillOperations(colorHashedFillOps);
    PartsJoined(ops, updateOps, fillOps, moveOps, otherOps, newUpdateOps, newFillOps, newMoveOps);
    var u := if |newUpdateOps| < |updateOps| then newUpdateOps else updateOps;
    var f := if |newFillOps| < |fillOps| then newFillOps else fillOps;
    var m := if |newMoveOps| < |moveOps| then newMoveOps else moveOps;
    newOps := u + f + m + otherOps;
  }
}
