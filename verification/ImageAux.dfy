/** src/display/comparer/imageaux.h and imageaux.cpp: comparing and measuring image areas. */
module ImageAux {
  import opened Geometry
  import opened Images

  datatype Option<+T> = None | Some(value: T)

  /** What pointer reads see at (x, y) of b2 equals what they see d further on in b1. */
  predicate MatchAt(b1: Buffer, b2: Buffer, d: Point, x: int, y: int)
    reads b1, b2
  {
    b1.Peek(x + d.x, y + d.y) == b2.Peek(x, y)
  }

  ghost predicate SamePixels(b1: Buffer, b2: Buffer, p: Point, r: Rect)
    reads b1, b2
  {
    forall x, y :: r.Has(x, y) ==> MatchAt(b1, b2, p.Minus(r.TopLeft()), x, y)
  }

  /** memcmp over row y of the area. */
  predicate RowMatches(b1: Buffer, b2: Buffer, d: Point, r: Rect, y: int)
    reads b1, b2
  {
    forall x :: r.left <= x <= r.right ==> MatchAt(b1, b2, d, x, y)
  }

  /** contentMatches on two moving row pointers; the first image is never read outside its pixels. */
  method RowsMatch(b1: Buffer, b2: Buffer, p: Point, r: Rect) returns (same: bool)
    requires (r.bottom - r.top + 1) > 0 ==> (r.right - r.left + 1) > 0
    requires (r.bottom - r.top + 1) > 0 ==> b1.image.Bounds().Contains(RectAt(p, (r.right - r.left + 1), (r.bottom - r.top + 1)))
    ensures same <==> SamePixels(b1, b2, p, r)
  {
    var d := p.Minus(r.TopLeft());
    var y := r.top;
    while y < r.top + (r.bottom - r.top + 1)
      invariant r.top <= y
      invariant forall x, v :: r.Has(x, v) && v < y ==> MatchAt(b1, b2, d, x, v)
    {
      if !MatchAt(b1, b2, d, r.left, y) || !RowMatches(b1, b2, d, r, y) {
        return false;
      }
      y := y + 1;
    }
    return true;
  }

  /** contentMatches on two images: both areas are clipped first and must then have the same size. */
  ghost predicate ClippedMatch(b1: Buffer, b2: Buffer, p: Point, r: Rect)
    requires r.IsValid()
    reads b1, b2
  {
    var rect1 := RectAt(p, (r.right - r.left + 1), (r.bottom - r.top + 1)).Intersected(b1.image.Bounds());
    var rect2 := r.Intersected(b2.image.Bounds());
    && (rect1.right - rect1.left + 1) == (rect2.right - rect2.left + 1) && (rect1.bottom - rect1.top + 1) == (rect2.bottom - rect2.top + 1)
    && SamePixels(b1, b2, rect1.TopLeft(), rect2)
  }

  method ContentMatches(b1: Buffer, b2: Buffer, p: Point, r: Rect) returns (same: bool)
    requires r.IsValid()
    ensures same <==> ClippedMatch(b1, b2, p, r)
  {
    var rect1 := RectAt(p, (r.right - r.left + 1), (r.bottom - r.top + 1)).Intersected(b1.image.Bounds());
    var rect2 := r.Intersected(b2.image.Bounds());
    if (rect1.right - rect1.left + 1) != (rect2.right - rect2.left + 1) || (rect1.bottom - rect1.top + 1) != (rect2.bottom - rect2.top + 1) {
      return false;
    }
    same := RowsMatch(b1, b2, rect1.TopLeft(), rect2);
  }

  /** Inside the second image, a match is exact and lies inside the first image. */
  lemma ClippedMatchInside(b1: Buffer, b2: Buffer, p: Point, r: Rect)
    requires r.IsValid() && b2.image.Bounds().Contains(r)
    ensures ClippedMatch(b1, b2, p, r) <==>
            b1.image.Bounds().Contains(RectAt(p, (r.right - r.left + 1), (r.bottom - r.top + 1))) && SamePixels(b1, b2, p, r)
  {
    var full := RectAt(p, (r.right - r.left + 1), (r.bottom - r.top + 1));
    assert r.Intersected(b2.image.Bounds()) == r;
    if b1.image.Bounds().Contains(full) {
      assert full.Intersected(b1.image.Bounds()) == full;
    }
  }

  /** At its own place, an area of two images of one size matches exactly when they agree inside the image. */
  lemma ClippedMatchInPlace(b1: Buffer, b2: Buffer, r: Rect)
    requires r.IsValid() && b1.image.SameSize(b2.image)
    ensures ClippedMatch(b1, b2, r.TopLeft(), r) <==>
            forall x, y :: r.Has(x, y) ==> !Differs(b1.image, b2.image, x, y)
  {
    var rect := r.Intersected(b2.image.Bounds());
    assert RectAt(r.TopLeft(), (r.right - r.left + 1), (r.bottom - r.top + 1)) == r;
    forall x, y ensures rect.Has(x, y) <==> r.Has(x, y) && b2.image.Has(x, y) {
    }
    forall x, y | rect.Has(x, y) ensures MatchAt(b1, b2, rect.TopLeft().Minus(rect.TopLeft()), x, y) <==> !Differs(b1.image, b2.image, x, y) {
    }
  }

  /** The pixel both images have and in which they differ. */
  predicate Differs(a: Image, b: Image, x: int, y: int) {
    a.Has(x, y) && b.Has(x, y) && a.At(x, y) != b.At(x, y)
  }

  /** The rectangle has its four edges on differing pixels of roi and contains them all. */
  ghost predicate IsBoundingBox(a: Image, b: Image, roi: Rect, box: Rect) {
    && roi.Contains(box)
    && (forall x, y :: roi.Has(x, y) && Differs(a, b, x, y) ==> box.Has(x, y))
    && (exists y :: roi.Has(box.left, y) && Differs(a, b, box.left, y))
    && (exists y :: roi.Has(box.right, y) && Differs(a, b, box.right, y))
    && (exists x :: roi.Has(x, box.top) && Differs(a, b, x, box.top))
    && (exists x :: roi.Has(x, box.bottom) && Differs(a, b, x, box.bottom))
  }

  /** The rectangle from (-1, -1) to (0, 0). */
  predicate OffImage(r: Rect) { r.left == r.top && r.left + 1 == 0 && r.right == 0 && r.bottom == 0 }

  /** What findChangedRect32 answers. Without a difference it still answers a valid rectangle in two cases: the single
      pixel of a 1x1 area, and an off-image one when the area misses the images. */
  ghost predicate IsChangedRect(a: Image, b: Image, searchArea: Rect, box: Rect)
    requires searchArea.IsValid() || searchArea.IsDefault()
  {
    var roi := searchArea.Intersected(a.Bounds()).Intersected(b.Bounds());
    if exists x, y :: roi.Has(x, y) && Differs(a, b, x, y) then box.IsValid() && IsBoundingBox(a, b, roi, box)
    else if !roi.IsValid() then OffImage(box)
    else if (roi.right - roi.left + 1) == 1 && (roi.bottom - roi.top + 1) == 1 then box == roi
    else box.IsDefault()
  }

  method FindChangedRect32(buffer1: Buffer, buffer2: Buffer, searchArea: Rect) returns (box: Rect)
    requires searchArea.IsValid() || searchArea.IsDefault()
    ensures IsChangedRect(buffer1.image, buffer2.image, searchArea, box)
  {
    var a, b := buffer1.image, buffer2.image;
    var roi := searchArea.Intersected(a.Bounds()).Intersected(b.Bounds());
    var result, edges := ScanChanges(a, b, roi);
    BoxIsBounding(a, b, roi, result, edges);
    box := if !result.IsValid() then result.Default() else result;
  }

  /** The scan of findChangedRect32. The ghost edges are differing pixels on the four edges of the result. */
  method ScanChanges(a: Image, b: Image, roi: Rect) returns (result: Rect, ghost edges: seq<Point>)
    requires roi.IsDefault() || (roi.IsValid() && a.Bounds().Contains(roi) && b.Bounds().Contains(roi))
    ensures IsBoxOf(a, b, roi, roi.left, roi.bottom + 1, result, edges)
  {
    result := Rect(roi.right, roi.bottom, roi.left, roi.top);
    edges := [];
    for y := roi.top to roi.bottom + 1
      invariant IsBoxOf(a, b, roi, roi.left, y, result, edges)
    {
      for x := roi.left to roi.right + 1
        invariant IsBoxOf(a, b, roi, x, y, result, edges)
      {
        ghost var was := result;
        if a.At(x, y) != b.At(x, y) {
          result := result.(left := Min(result.left, x));
          result := result.(top := Min(result.top, y));
          result := result.(right := Max(result.right, x));
          result := result.(bottom := Max(result.bottom, y));
        }
        edges := NextEdges(a, b, roi, x, x + 1, y, was, result, edges);
      }
      NextRow(a, b, roi, roi.right + 1, y, y + 1, result, edges);
    }
  }

  /** A differing pixel of roi that a row-major scan meets before it reaches (x, y). */
  predicate Visited(a: Image, b: Image, roi: Rect, x: int, y: int, u: int, v: int) {
    roi.Has(u, v) && (v < y || (v == y && u < x)) && Differs(a, b, u, v)
  }

  ghost predicate IsBoxOf(a: Image, b: Image, roi: Rect, x: int, y: int, box: Rect, edges: seq<Point>) {
    if edges == [] then
      && box == Rect(roi.right, roi.bottom, roi.left, roi.top)
      && (forall u, v :: !Visited(a, b, roi, x, y, u, v))
    else
      && |edges| == 4
      && (forall i :: 0 <= i < 4 ==> Visited(a, b, roi, x, y, edges[i].x, edges[i].y))
      && (forall u, v :: Visited(a, b, roi, x, y, u, v) ==> box.Has(u, v))
      && box == Rect(edges[0].x, edges[1].y, edges[2].x, edges[3].y)
  }

  lemma NextEdges(a: Image, b: Image, roi: Rect, x: int, x': int, y: int, was: Rect, box: Rect, edges: seq<Point>) returns (next: seq<Point>)
    requires roi.Has(x, y) && a.Has(x, y) && b.Has(x, y) && x' == x + 1
    requires IsBoxOf(a, b, roi, x, y, was, edges)
    requires box == if Differs(a, b, x, y) then was.United(Rect(x, y, x, y)) else was
    ensures IsBoxOf(a, b, roi, x', y, box, next)
  {
    var p := Point(x, y);
    if !Differs(a, b, x, y) {
      next := edges;
    } else if edges == [] {
      next := [p, p, p, p];
    } else {
      next := [if box.left == was.left then edges[0] else p, if box.top == was.top then edges[1] else p,
               if box.right == was.right then edges[2] else p, if box.bottom == was.bottom then edges[3] else p];
    }
    forall u, v | Visited(a, b, roi, x', y, u, v) ensures Visited(a, b, roi, x, y, u, v) || Point(u, v) == p {
    }
  }

  lemma NextRow(a: Image, b: Image, roi: Rect, x: int, y: int, y': int, box: Rect, edges: seq<Point>)
    requires IsBoxOf(a, b, roi, x, y, box, edges) && x == roi.right + 1 && y' == y + 1
    ensures IsBoxOf(a, b, roi, roi.left, y', box, edges)
  {
    forall u, v | Visited(a, b, roi, roi.left, y', u, v) ensures Visited(a, b, roi, x, y, u, v) {
    }
  }

  lemma BoxIsBounding(a: Image, b: Image, roi: Rect, box: Rect, edges: seq<Point>)
    requires IsBoxOf(a, b, roi, roi.left, roi.bottom + 1, box, edges)
    ensures edges == [] ==> forall x, y :: roi.Has(x, y) ==> !Differs(a, b, x, y)
    ensures edges != [] ==> box.IsValid() && IsBoundingBox(a, b, roi, box)
  {
    forall x, y | roi.Has(x, y) && Differs(a, b, x, y) ensures Visited(a, b, roi, roi.left, roi.bottom + 1, x, y) {
    }
    if edges != [] {
      assert roi.Has(box.left, edges[0].y) && roi.Has(box.right, edges[2].y);
      assert roi.Has(edges[1].x, box.top) && roi.Has(edges[3].x, box.bottom);
    }
  }

  /** All pixels of the area inside the image have the colour. */
  ghost predicate IsSolid(image: Image, area: Rect, color: Pixel) {
    forall x, y :: area.Has(x, y) && image.Has(x, y) ==> image.At(x, y) == color
  }

  ghost predicate HasOneColour(image: Image, area: Rect) {
    exists color: Pixel :: IsSolid(image, area, color)
  }

  /** getSolidRectColor. */
  method GetSolidRectColor(buffer: Buffer, area: Rect) returns (color: Option<Pixel>)
    requires area.IsValid() || area.IsDefault()
    ensures color.Some? <==> HasOneColour(buffer.image, area)
    ensures color.Some? ==> IsSolid(buffer.image, area, color.value)
  {
    var image := buffer.image;
    var roi := area.Intersected(image.Bounds());
    var solidColor := image.Pixel(roi.left, roi.top);
    var isSolidColor := true;
    var y := roi.top;
    ghost var odd := Point(0, 0);
    while isSolidColor && y < roi.top + (roi.bottom - roi.top + 1)
      invariant roi.top <= y <= roi.top + (roi.bottom - roi.top + 1)
      invariant isSolidColor ==> forall u, v :: roi.Has(u, v) && v < y ==> image.At(u, v) == solidColor
      invariant !isSolidColor ==> roi.Has(odd.x, odd.y) && image.At(odd.x, odd.y) != solidColor
      decreases roi.top + (roi.bottom - roi.top + 1) - y
    {
      var row := y;
      y := y + 1;
      for x := roi.left to roi.left + (roi.right - roi.left + 1)
        invariant isSolidColor
        invariant forall u, v :: roi.Has(u, v) && (v < row || (v == row && u < x)) ==> image.At(u, v) == solidColor
      {
        if image.At(x, row) != solidColor {
          odd := Point(x, row);
          isSolidColor := false;
          break;
        }
      }
    }
    if isSolidColor {
      assert IsSolid(image, area, solidColor);
      return Some(solidColor);
    } else {
      assert roi.Has(roi.left, roi.top) && image.At(roi.left, roi.top) == solidColor;
      assert area.Has(odd.x, odd.y) && image.Has(odd.x, odd.y);
      return None;
    }
  }
}
