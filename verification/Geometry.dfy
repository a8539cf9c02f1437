/** Integer rectangles with inclusive right and bottom edges, as QRect has them, and regions. */
module Geometry {

  datatype Point = Point(x: int, y: int) {
    function Plus(p: Point): Point { Point(x + p.x, y + p.y) }

    function Minus(p: Point): Point { Point(x - p.x, y - p.y) }
  }

  datatype Rect = Rect(left: int, top: int, right: int, bottom: int) {
    function TopLeft(): Point { Point(left, top) }

    predicate IsValid() { left <= right && top <= bottom }

    predicate IsEmpty() { !IsValid() }

    predicate IsNull() { right == left - 1 && bottom == top - 1 }

    /** The value of QRect(). */
    predicate IsDefault() { left == 0 && top == 0 && right + 1 == 0 && bottom + 1 == 0 }

    /** QRect(), spelled without literals, which the verifier would try to evaluate. */
    function Default(): (r: Rect)
      ensures r.IsDefault()
    {
      Rect(left - left, top - top, left - left - 1, top - top - 1)
    }

    predicate Has(x: int, y: int) { left <= x <= right && top <= y <= bottom }

    predicate Contains(r: Rect) { left <= r.left && r.right <= right && top <= r.top && r.bottom <= bottom }

    predicate Overlaps(r: Rect) {
      left <= r.right && r.left <= right && top <= r.bottom && r.top <= bottom
    }

    function Adjusted(dx1: int, dy1: int, dx2: int, dy2: int): Rect {
      Rect(left + dx1, top + dy1, right + dx2, bottom + dy2)
    }

    function Translated(d: Point): Rect { Adjusted(d.x, d.y, d.x, d.y) }

    /** The common part; the null rectangle when there is none. */
    function Intersected(r: Rect): (s: Rect)
      requires IsValid() || IsDefault()
      requires r.IsValid() || r.IsDefault()
      ensures s.IsValid() || s.IsDefault()
      ensures s.IsValid() ==> Contains(s) && r.Contains(s)
    {
      if !IsValid() || !r.IsValid() || !Overlaps(r) then Default()
      else Rect(Max(left, r.left), Max(top, r.top), Min(right, r.right), Min(bottom, r.bottom))
    }

    /** The bounding rectangle of two valid rectangles. */
    function United(r: Rect): Rect {
      Rect(Min(left, r.left), Min(top, r.top), Max(right, r.right), Max(bottom, r.bottom))
    }
  }

  function Min(a: int, b: int): int { if a <= b then a else b }

  function Max(a: int, b: int): int { if a >= b then a else b }

  function RectAt(p: Point, width: int, height: int): Rect {
    Rect(p.x, p.y, p.x + width - 1, p.y + height - 1)
  }

  /** Integer division and remainder that truncate towards zero. */
  function Quot(a: int, b: int): int
    requires b > 0
  {
    if a >= 0 then a / b else -((-a) / b)
  }

  function Rem(a: int, b: int): int
    requires b > 0
  {
    if a >= 0 then a % b else -((-a) % b)
  }

  predicate Covered(rects: seq<Rect>, x: int, y: int) {
    exists r :: r in rects && r.Has(x, y)
  }

  predicate AllValid(rects: seq<Rect>) {
    forall r :: r in rects ==> r.IsValid()
  }

  predicate PairwiseDisjoint(rects: seq<Rect>) {
    forall i, j :: 0 <= i < j < |rects| ==> !rects[i].Overlaps(rects[j])
  }

  /** The y-x banded order of QRegion::rects(): bands from top to bottom, left to right in a band. */
  predicate Before(a: Rect, b: Rect) {
    a.bottom < b.top || (a.top == b.top && a.bottom == b.bottom && a.right < b.left)
  }

  predicate Banded(rects: seq<Rect>) {
    forall i, j :: 0 <= i < j < |rects| ==> Before(rects[i], rects[j])
  }

  lemma CoveredAppend(rects: seq<Rect>, r: Rect)
    ensures forall x, y :: Covered(rects + [r], x, y) <==> Covered(rects, x, y) || r.Has(x, y)
  {
    forall x, y | Covered(rects, x, y) ensures Covered(rects + [r], x, y) {
      var q :| q in rects && q.Has(x, y);
      assert q in rects + [r];
    }
    forall x, y | r.Has(x, y) ensures Covered(rects + [r], x, y) {
      assert r in rects + [r];
    }
  }

  lemma DisjointAppend(rects: seq<Rect>, r: Rect)
    requires PairwiseDisjoint(rects) && AllValid(rects) && r.IsValid()
    requires forall x, y :: Covered(rects, x, y) ==> !r.Has(x, y)
    ensures PairwiseDisjoint(rects + [r])
  {
    forall i | 0 <= i < |rects| ensures !rects[i].Overlaps(r) {
      var q := rects[i];
      var x, y := Max(q.left, r.left), Max(q.top, r.top);
      assert q in rects;
      assert q.Has(x, y) ==> Covered(rects, x, y);
    }
  }

  /** A region is its set of pixels. */
  type Region = set<Point>

  function Pixels(r: Rect): (s: Region)
    ensures forall p :: p in s <==> r.Has(p.x, p.y)
  {
    set x, y | r.left <= x <= r.right && r.top <= y <= r.bottom :: Point(x, y)
  }

  method Bounds(region: Region) returns (b: Rect)
    requires region != {}
    ensures forall p :: p in region ==> b.Has(p.x, p.y)
  {
    var q :| q in region;
    b := Rect(q.x, q.y, q.x, q.y);
    var rest := region;
    while rest != {}
      invariant rest <= region
      invariant forall p :: p in region && p !in rest ==> b.Has(p.x, p.y)
      decreases |rest|
    {
      var p :| p in rest;
      b := b.United(Rect(p.x, p.y, p.x, p.y));
      rest := rest - {p};
    }
  }

  /** QRegion::rects(): a banded, hence disjoint, exact decomposition. Callers use only this contract; the
      body, one rectangle for each pixel in row-major order, shows that such a decomposition exists. */
  method RegionRects(region: Region) returns (rects: seq<Rect>)
    ensures AllValid(rects) && Banded(rects)
    ensures forall x, y :: Covered(rects, x, y) <==> Point(x, y) in region
  {
    rects := [];
    if region == {} {
      return;
    }
    var b := Bounds(region);
    for y := b.top to Max(b.top, b.bottom + 1)
      invariant AllValid(rects) && Banded(rects)
      invariant forall r :: r in rects ==> r.bottom < y
      invariant forall x, v :: Covered(rects, x, v) <==> Point(x, v) in region && v < y
    {
      for x := b.left to Max(b.left, b.right + 1)
        invariant AllValid(rects) && Banded(rects)
        invariant forall r :: r in rects ==> r.bottom < y || (r.top == r.bottom == y && r.right < x)
        invariant forall u, v :: Covered(rects, u, v) <==> Point(u, v) in region && (v < y || (v == y && u < x))
      {
        if Point(x, y) in region {
          CoveredAppend(rects, Rect(x, y, x, y));
          rects := rects + [Rect(x, y, x, y)];
        }
      }
    }
  }
}
