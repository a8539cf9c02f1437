/** src/display/comparer/tiles.cpp: uniting, splitting and tile-aligning rectangles. */
module Tiles {
  import opened Geometry

  // ---------- verticallyUniteRects

  predicate Unitable(c: Rect, r: Rect) {
    && (c.bottom + 1 == r.top || c.top == r.bottom + 1)
    && (c.left == r.left || c.right == r.right)
    && (c.right - c.left + 1) == (r.right - r.left + 1)
  }

  /** The result after one input rectangle was united into every result rectangle it fits, or appended. */
  function UniteOne(result: seq<Rect>, r: Rect): seq<Rect> {
    var united := seq(|result|, i requires 0 <= i < |result| => Grown(result[i], r));
    if Fits(result, r) then united else result + [r]
  }

  predicate Fits(result: seq<Rect>, r: Rect) {
    exists i :: 0 <= i < |result| && Unitable(result[i], r)
  }

  function Grown(c: Rect, r: Rect): Rect {
    if Unitable(c, r) then c.United(r) else c
  }

  function UniteAll(result: seq<Rect>, rects: seq<Rect>): seq<Rect>
    decreases |rects|
  {
    if rects == [] then result else UniteAll(UniteOne(result, rects[0]), rects[1..])
  }

  method VerticallyUniteRects(input: seq<Rect>) returns (result: seq<Rect>)
    ensures result == UniteAll([], input)
  {
    var rects := input;
    result := [];
    while |rects| > 0
      invariant UniteAll(result, rects) == UniteAll([], input)
      decreases |rects|
    {
      var inputRect := rects[0];
      ghost var before := result;
      rects := rects[1..];
      var united := false;
      for i := 0 to |result|
        invariant |result| == |before|
        invariant forall k :: 0 <= k < i ==> result[k] == Grown(before[k], inputRect)
        invariant forall k :: i <= k < |result| ==> result[k] == before[k]
        invariant united <==> exists k :: 0 <= k < i && Unitable(before[k], inputRect)
      {
        var compareRect := result[i];
        if && (compareRect.bottom + 1 == inputRect.top || compareRect.top == inputRect.bottom + 1)
           && (compareRect.left == inputRect.left || compareRect.right == inputRect.right)
           && (compareRect.right - compareRect.left + 1) == (inputRect.right - inputRect.left + 1) {
          assert Unitable(before[i], inputRect);
          result := result[i := compareRect.United(inputRect)];
          united := true;
        }
      }
      if !united {
        assert result == before;
        result := result + [inputRect];
      }
      assert result == UniteOne(before, inputRect);
    }
  }

  lemma UniteOneCover(result: seq<Rect>, r: Rect)
    requires AllValid(result) && r.IsValid()
    ensures AllValid(UniteOne(result, r)) && |UniteOne(result, r)| <= |result| + 1
    ensures forall x, y :: Covered(UniteOne(result, r), x, y) <==> Covered(result, x, y) || r.Has(x, y)
  {
    CoveredAppend(result, r);
    var out := UniteOne(result, r);
    if Fits(result, r) {
      forall i | 0 <= i < |result|
        ensures out[i].IsValid()
        ensures forall x, y :: out[i].Has(x, y) <==> result[i].Has(x, y) || (Unitable(result[i], r) && r.Has(x, y))
      {
        assert result[i] in result;
      }
      forall x, y ensures Covered(out, x, y) <==> Covered(result, x, y) || r.Has(x, y) {
        if Covered(result, x, y) {
          var i :| 0 <= i < |result| && result[i].Has(x, y);
          assert out[i] in out;
        }
        if r.Has(x, y) {
          var i :| 0 <= i < |result| && Unitable(result[i], r);
          assert out[i] in out;
        }
        if Covered(out, x, y) {
          var i :| 0 <= i < |out| && out[i].Has(x, y);
          assert result[i] in result;
        }
      }
    }
  }

  /** Uniting keeps the covered pixels exactly and never yields more rectangles than it was given. */
  lemma {:induction false} UniteAllCover(result: seq<Rect>, rects: seq<Rect>)
    requires AllValid(result) && AllValid(rects)
    ensures AllValid(UniteAll(result, rects)) && |UniteAll(result, rects)| <= |result| + |rects|
    ensures forall x, y :: Covered(UniteAll(result, rects), x, y) <==> Covered(result, x, y) || Covered(rects, x, y)
    decreases |rects|
  {
    if rects != [] {
      UniteOneCover(result, rects[0]);
      UniteAllCover(UniteOne(result, rects[0]), rects[1..]);
      assert rects == [rects[0]] + rects[1..];
    }
  }

  /** What holds of the result and the rectangles still to come when the input is banded. */
  ghost predicate Swept(result: seq<Rect>, rects: seq<Rect>) {
    && AllValid(result) && AllValid(rects)
    && PairwiseDisjoint(result)
    && Banded(rects)
    && (forall i, j :: 0 <= i < |result| && 0 <= j < |rects| ==>
          result[i].top <= rects[j].top && !result[i].Overlaps(rects[j]))
  }

  lemma SweptStep(result: seq<Rect>, rects: seq<Rect>)
    requires Swept(result, rects) && rects != []
    ensures Swept(UniteOne(result, rects[0]), rects[1..])
  {
    var r := rects[0];
    var out := UniteOne(result, r);
    UniteOneCover(result, r);
    assert forall j :: 0 < j < |rects| ==> Before(r, rects[j]) && rects[j].IsValid();
    forall i | 0 <= i < |result| && Unitable(result[i], r)
      ensures result[i].bottom + 1 == r.top && result[i].left == r.left && result[i].right == r.right
    {
      assert result[i] in result;
    }
    forall i, j | 0 <= i < j < |out| ensures !out[i].Overlaps(out[j]) {
      if j < |result| {
        assert !result[i].Overlaps(result[j]);
        assert result[i] in result && result[j] in result;
      }
    }
    forall i, j | 0 <= i < |out| && 0 <= j < |rects[1..]|
      ensures out[i].top <= rects[1..][j].top && !out[i].Overlaps(rects[1..][j])
    {
      assert rects[1..][j] == rects[j + 1];
    }
  }

  /** On the disjoint banded rectangles of a region the united rectangles are disjoint again. */
  lemma {:induction false} UniteAllDisjoint(result: seq<Rect>, rects: seq<Rect>)
    requires Swept(result, rects)
    ensures PairwiseDisjoint(UniteAll(result, rects))
    decreases |rects|
  {
    if rects != [] {
      SweptStep(result, rects);
      UniteAllDisjoint(UniteOne(result, rects[0]), rects[1..]);
    }
  }

  /** QRegion::rects() followed by the vertical union: an exact disjoint cover of the region. */
  method UnitedRegionRects(region: Region) returns (rects: seq<Rect>)
    ensures AllValid(rects) && PairwiseDisjoint(rects)
    ensures forall x, y :: Covered(rects, x, y) <==> Point(x, y) in region
  {
    var banded := RegionRects(region);
    rects := VerticallyUniteRects(banded);
    UniteAllCover([], banded);
    UniteAllDisjoint([], banded);
  }

  // ---------- splitRectIntoTiles

  /** The remainder by repeated subtraction, the way the tile loops reach it. */
  function Leftover(n: int, d: int): (r: int)
    requires d >= 1
    ensures r < d
    decreases n
  {
    if n < d then n else Leftover(n - d, d)
  }

  lemma {:induction false} LeftoverIsRem(n: int, d: int)
    requires n >= 0 && d >= 1
    ensures Leftover(n, d) == Rem(n, d)
    decreases n
  {
    if n >= d {
      LeftoverIsRem(n - d, d);
      assert (n - d) / d == n / d - 1 && (n - d) % d == n % d by {
        RemStep(n, d);
      }
    }
  }

  lemma RemStep(n: int, d: int)
    requires n >= d >= 1
    ensures (n - d) / d == n / d - 1 && (n - d) % d == n % d
  {
    var q, r := n / d, n % d;
    assert n - d == (q - 1) * d + r;
    var k := q - 1 - (n - d) / d;
    assert k * d == (n - d) % d - r;
    if k != 0 {
      MultipleIsFar(d, k);
      assert false;
    }
  }

  lemma MultipleIsFar(d: int, k: int)
    requires d > 0 && k != 0
    ensures k * d >= d || k * d <= -d
  {
  }

  /** C++ %: how much is left over after whole tiles. */
  method TileRemainder(length: int, tile: int) returns (left: int)
    requires tile >= 1
    ensures length >= 0 ==> left == Leftover(length, tile)
    ensures length <= 0 ==> left <= 0
    ensures left < tile
  {
    left := Rem(length, tile);
    if length >= 0 {
      LeftoverIsRem(length, tile);
    }
  }

  /** An exact partition of the rectangle into tiles of at most the tile size; no tiles for an empty one. */
  method SplitRectIntoTiles(rect: Rect, tileWidth: int, tileHeight: int) returns (tiles: seq<Rect>)
    requires tileWidth >= 1 && tileHeight >= 1
    ensures AllValid(tiles) && PairwiseDisjoint(tiles)
    ensures forall t :: t in tiles ==> IsTileOf(rect, tileWidth, tileHeight, t)
    ensures forall x, y :: Covered(tiles, x, y) <==> rect.Has(x, y)
  {
    tiles := [];
    var leftY := TileRemainder((rect.bottom - rect.top + 1), tileHeight);
    var bottomLimit := rect.bottom + 1 - tileHeight + 1;
    var y := rect.top;
    while y < bottomLimit
      invariant rect.top <= y && (y <= rect.bottom + 1 || y == rect.top)
      invariant rect.top <= rect.bottom ==> leftY == Leftover((rect.bottom - y + 1), tileHeight)
      invariant AllValid(tiles) && PairwiseDisjoint(tiles)
      invariant forall t :: t in tiles ==> IsTileOf(rect, tileWidth, tileHeight, t)
      invariant forall u, v :: Covered(tiles, u, v) <==> rect.Has(u, v) && v < y
    {
      tiles := SplitRow(rect, tileWidth, tileHeight, y, tileHeight, tiles);
      y := y + tileHeight;
    }
    if leftY > 0 {
      tiles := SplitRow(rect, tileWidth, tileHeight, y, leftY, tiles);
    }
  }

  /** A tile inside the rectangle, of full size or as large as what is left over. */
  predicate IsTileOf(rect: Rect, tileWidth: int, tileHeight: int, t: Rect)
    requires tileWidth >= 1 && tileHeight >= 1
  {
    && rect.Contains(t)
    && 1 <= (t.right - t.left + 1) <= tileWidth && 1 <= (t.bottom - t.top + 1) <= tileHeight
    && ((t.right - t.left + 1) == tileWidth || (t.right - t.left + 1) == Leftover((rect.right - rect.left + 1), tileWidth))
    && ((t.bottom - t.top + 1) == tileHeight || (t.bottom - t.top + 1) == Leftover((rect.bottom - rect.top + 1), tileHeight))
  }

  /** The inner loop of splitRectIntoTiles with the narrow tile after it: one row of tiles from y on. */
  method SplitRow(rect: Rect, tileWidth: int, tileHeight: int, y: int, height: int, given: seq<Rect>) returns (tiles: seq<Rect>)
    requires tileWidth >= 1 && 1 <= height <= tileHeight
    requires height == tileHeight || height == Leftover((rect.bottom - rect.top + 1), tileHeight)
    requires rect.top <= y && y + height - 1 <= rect.bottom
    requires AllValid(given) && PairwiseDisjoint(given)
    requires forall t :: t in given ==> IsTileOf(rect, tileWidth, tileHeight, t)
    requires forall u, v :: Covered(given, u, v) ==> v < y
    ensures AllValid(tiles) && PairwiseDisjoint(tiles)
    ensures forall t :: t in tiles ==> IsTileOf(rect, tileWidth, tileHeight, t)
    ensures forall u, v :: Covered(tiles, u, v) <==>
                           Covered(given, u, v) || (rect.left <= u <= rect.right && y <= v < y + height)
  {
    var leftX := TileRemainder((rect.right - rect.left + 1), tileWidth);
    var rightLimit := rect.right + 1 - tileWidth + 1;
    tiles := given;
    var x := rect.left;
    while x < rightLimit
      invariant rect.left <= x && (x <= rect.right + 1 || x == rect.left)
      invariant rect.left <= rect.right ==> leftX == Leftover((rect.right - x + 1), tileWidth)
      invariant AllValid(tiles) && PairwiseDisjoint(tiles)
      invariant forall t :: t in tiles ==> IsTileOf(rect, tileWidth, tileHeight, t)
      invariant forall u, v :: Covered(tiles, u, v) <==>
                               Covered(given, u, v) || (rect.left <= u < x && y <= v < y + height)
    {
      var tile := RectAt(Point(x, y), tileWidth, height);
      DisjointAppend(tiles, tile);
      CoveredAppend(tiles, tile);
      tiles := tiles + [tile];
      x := x + tileWidth;
    }
    if leftX > 0 {
      var tile := RectAt(Point(x, y), leftX, height);
      DisjointAppend(tiles, tile);
      CoveredAppend(tiles, tile);
      tiles := tiles + [tile];
    }
  }

  // ---------- TiledRegion

  function AlignedDown(n: int, tile: int): (a: int)
    requires tile >= 1
    ensures n >= 0 ==> 0 <= a <= n < a + tile
  {
    if n >= 0 then
      assert n == n / tile * tile + n % tile;
      assert n / tile * tile >= 0;
      Quot(n, tile) * tile
    else Quot(n, tile) * tile
  }

  function AlignedUp(n: int, tile: int): (a: int)
    requires tile >= 1
    ensures n >= 0 ==> n <= a < n + tile
  {
    AlignedDown(n, tile) + (if Rem(n, tile) != 0 then tile else 0)
  }

  /** operator+= rounds outwards with truncating division; right and bottom are inclusive, so it overshoots. */
  function Aligned(r: Rect, tileWidth: int, tileHeight: int): (a: Rect)
    requires tileWidth >= 1 && tileHeight >= 1
  {
    Rect(AlignedDown(r.left, tileWidth), AlignedDown(r.top, tileHeight),
         AlignedUp(r.right, tileWidth), AlignedUp(r.bottom, tileHeight))
  }

  /** A cover: every non-negative rectangle lies inside its aligned form, which is less than a tile larger. */
  lemma AlignedCovers(r: Rect, tileWidth: int, tileHeight: int)
    requires tileWidth >= 1 && tileHeight >= 1
    requires r.IsValid() && r.left >= 0 && r.top >= 0
    ensures var a := Aligned(r, tileWidth, tileHeight);
            a.Contains(r) && a.left >= 0 && a.top >= 0 &&
            r.left - a.left < tileWidth && r.top - a.top < tileHeight &&
            a.right - r.right < tileWidth && a.bottom - r.bottom < tileHeight
  {
  }

  /** But it is no alignment: all four edges become multiples of the tile size, and the right and bottom ones are
      inclusive, so that the aligned form is one pixel wider and higher than a number of tiles. */
  lemma AlignedOvershoots(r: Rect, tileWidth: int, tileHeight: int)
    requires tileWidth >= 1 && tileHeight >= 1
    requires r.IsValid() && r.left >= 0 && r.top >= 0
    ensures var a := Aligned(r, tileWidth, tileHeight);
            exists m: int, n: int :: a.right - a.left + 1 == m * tileWidth + 1 && a.bottom - a.top + 1 == n * tileHeight + 1
  {
    var m := AlignedSpan(r.left, r.right, tileWidth);
    var n := AlignedSpan(r.top, r.bottom, tileHeight);
    var a := Aligned(r, tileWidth, tileHeight);
    assert a.right - a.left + 1 == m * tileWidth + 1 && a.bottom - a.top + 1 == n * tileHeight + 1;
  }

  lemma AlignedSpan(from: int, to: int, tile: int) returns (n: int)
    requires tile >= 1 && 0 <= from <= to
    ensures AlignedUp(to, tile) - AlignedDown(from, tile) == n * tile
  {
    var up := to / tile + (if Rem(to, tile) != 0 then 1 else 0);
    n := up - from / tile;
    assert AlignedUp(to, tile) == up * tile;
  }

  class TiledRegion {
    const tileWidth: int
    const tileHeight: int
    var region: Region

    constructor (tileWidth: int, tileHeight: int)
      ensures this.tileWidth == tileWidth && this.tileHeight == tileHeight && region == {}
    {
      this.tileWidth, this.tileHeight := tileWidth, tileHeight;
      region := {};
    }

    method Clear()
      modifies this
      ensures region == {}
    {
      region := {};
    }

    method Add(r: Rect)
      requires tileWidth >= 1 && tileHeight >= 1
      modifies this
      ensures region == old(region) + Pixels(Aligned(r, tileWidth, tileHeight))
      ensures r.IsValid() && r.left >= 0 && r.top >= 0 ==> Pixels(r) <= region
    {
      if r.IsValid() && r.left >= 0 && r.top >= 0 {
        AlignedCovers(r, tileWidth, tileHeight);
      }
      var newRect := r;
      newRect := newRect.(left := AlignedDown(r.left, tileWidth));
      newRect := newRect.(top := AlignedDown(r.top, tileHeight));
      newRect := newRect.(right := AlignedUp(r.right, tileWidth));
      newRect := newRect.(bottom := AlignedUp(r.bottom, tileHeight));
      region := region + Pixels(newRect);
    }

    method Rects() returns (rects: seq<Rect>)
      ensures AllValid(rects) && PairwiseDisjoint(rects)
      ensures forall x, y :: Covered(rects, x, y) <==> Point(x, y) in region
      ensures region == {} ==> rects == []
    {
      rects := UnitedRegionRects(region);
      if rects != [] {
        assert rects[0] in rects && Covered(rects, rects[0].left, rects[0].top);
      }
    }
  }
}
