/** src/display/comparer/moveanalyzer.h and .cpp: finding where in the image before a piece of the image after was. */
module MoveAnalyzers {
  import opened Geometry
  import opened Images
  import opened ImageAux
  import opened Tiles
  import opened FingerPrint

  datatype VectorEstimate = VectorEstimate(vector: Point, extentX: nat, extentY: nat)

  datatype MoveOperation = MoveOperation(srcRect: Rect, dstPoint: Point)

  /** Every pixel of dst that the image after has is, at the same offset, a pixel of src of the image before. */
  ghost predicate ExactMove(before: Image, after: Image, src: Rect, dst: Rect) {
    && (src.right - src.left + 1) == (dst.right - dst.left + 1) && (src.bottom - src.top + 1) == (dst.bottom - dst.top + 1)
    && forall x, y :: dst.Has(x, y) && after.Has(x, y) ==>
         MovedPixel(before, after, src.TopLeft().Minus(dst.TopLeft()), x, y)
  }

  predicate MovedPixel(before: Image, after: Image, d: Point, x: int, y: int)
    requires after.Has(x, y)
  {
    before.Has(x + d.x, y + d.y) && before.At(x + d.x, y + d.y) == after.At(x, y)
  }

  /** The templates the comparer asks for: tiles inside the image, or tiles of the off-image rectangle that
      findChangedRect32 answers for a search area outside the image. */
  predicate Searchable(r: Rect, image: Image, templateWidth: int) {
    && r.IsValid() && (r.right - r.left + 1) <= templateWidth
    && (image.Bounds().Contains(r) ||
        (-1 <= r.left && r.right <= 0 && -1 <= r.top && r.bottom <= 0 && (r.right - r.left + 1) == (r.bottom - r.top + 1)))
  }

  lemma SearchableIsValid(r: Rect, image: Image, templateWidth: int)
    requires Searchable(r, image, templateWidth)
    ensures r.IsValid()
  {
  }

  lemma MatchIsExact(before: Buffer, after: Buffer, p: Point, r: Rect)
    requires r.IsValid() && SamePixels(before, after, p, r)
    requires before.image.Bounds().Contains(RectAt(p, (r.right - r.left + 1), (r.bottom - r.top + 1)))
    ensures ExactMove(before.image, after.image, RectAt(p, (r.right - r.left + 1), (r.bottom - r.top + 1)), r)
  {
    var d := p.Minus(r.TopLeft());
    forall x, y | r.Has(x, y) && after.image.Has(x, y) ensures MovedPixel(before.image, after.image, d, x, y) {
      assert MatchAt(before, after, d, x, y);
    }
  }

  /** A match found through a column of the index is exact even for templates that stick out of the image. */
  lemma IndexedMatchIsExact(before: Buffer, after: Buffer, p: Point, r: Rect, templateWidth: int)
    requires before.image.SameSize(after.image)
    requires Searchable(r, after.image, templateWidth) && ClippedMatch(before, after, p, r)
    requires 0 <= p.x <= before.image.width - templateWidth && 0 <= p.y
    ensures ExactMove(before.image, after.image, RectAt(p, (r.right - r.left + 1), (r.bottom - r.top + 1)), r)
  {
    if after.image.Bounds().Contains(r) {
      ClippedMatchInside(before, after, p, r);
      MatchIsExact(before, after, p, r);
    } else {
      OffImageTileIsClipped(p, r, templateWidth, before.image, after.image);
    }
  }

  lemma OffImageTileIsClipped(p: Point, r: Rect, templateWidth: int, before: Image, after: Image)
    requires before.SameSize(after) && Searchable(r, after, templateWidth) && !after.Bounds().Contains(r)
    requires 0 <= p.x <= before.width - templateWidth && 0 <= p.y
    ensures var rect1 := RectAt(p, r.right - r.left + 1, r.bottom - r.top + 1).Intersected(before.Bounds());
            var rect2 := r.Intersected(after.Bounds());
            rect1.right - rect1.left == rect2.right - rect2.left ==> !rect2.IsValid()
    ensures !r.Intersected(after.Bounds()).IsValid() ==> forall x, y :: r.Has(x, y) ==> !after.Has(x, y)
  {
  }

  predicate RowMajorBefore(a: Point, b: Point) { a.y < b.y || (a.y == b.y && a.x < b.x) }

  /** The template's size at p lies inside the region searched, and the pixels there are the template's. */
  ghost predicate MatchesIn(before: Buffer, after: Buffer, roi: Rect, r: Rect, p: Point)
    reads before, after
  {
    roi.Contains(RectAt(p, (r.right - r.left + 1), (r.bottom - r.top + 1))) && SamePixels(before, after, p, r)
  }

  /** No match precedes q in row-major order. */
  ghost predicate NoMatchBefore(before: Buffer, after: Buffer, roi: Rect, r: Rect, q: Point)
    reads before, after
  {
    forall p: Point :: RowMajorBefore(p, q) ==> !MatchesIn(before, after, roi, r, p)
  }

  lemma NextPosition(before: Buffer, after: Buffer, roi: Rect, r: Rect, q: Point, next: Point)
    requires NoMatchBefore(before, after, roi, r, q) && !MatchesIn(before, after, roi, r, q)
    requires next == Point(q.x + 1, q.y)
    ensures NoMatchBefore(before, after, roi, r, next)
  {
    assert forall p: Point :: RowMajorBefore(p, next) ==> RowMajorBefore(p, q) || p == q;
  }

  lemma NextPositionRow(before: Buffer, after: Buffer, roi: Rect, r: Rect, q: Point, next: Point)
    requires r.IsValid() && NoMatchBefore(before, after, roi, r, q)
    requires q.x + (r.right - r.left + 1) - 1 > roi.right
    requires next == Point(roi.left, q.y + 1)
    ensures NoMatchBefore(before, after, roi, r, next)
  {
    forall p: Point | RowMajorBefore(p, next) ensures !MatchesIn(before, after, roi, r, p) {
      if !RowMajorBefore(p, q) {
        assert !roi.Contains(RectAt(p, (r.right - r.left + 1), (r.bottom - r.top + 1)));
      }
    }
  }

  lemma NoMatchAnywhere(before: Buffer, after: Buffer, roi: Rect, r: Rect, q: Point)
    requires r.IsValid() && NoMatchBefore(before, after, roi, r, q)
    requires q.x <= roi.left && q.y + (r.bottom - r.top + 1) - 1 > roi.bottom
    ensures forall p: Point :: !MatchesIn(before, after, roi, r, p)
  {
    forall p: Point ensures !MatchesIn(before, after, roi, r, p) {
      if !RowMajorBefore(p, q) {
        assert !roi.Contains(RectAt(p, (r.right - r.left + 1), (r.bottom - r.top + 1)));
      }
    }
  }

  /** The miss that reached the threshold was among those counted. */
  predicate Spent(threshold: int, from: int, to: int) { from < to == threshold }

  /** The account of a search of n areas, with the counter of misses before and after: every area without the template
      is a miss, and only the miss that reaches the threshold ends the search before an area has the template or all
      areas are searched. */
  predicate Budgeted(threshold: int, from: int, to: int, n: nat, success: bool) {
    && from <= to <= from + n && !(from < threshold < to)
    && if success then !Spent(threshold, from, to) && to < from + n else Spent(threshold, from, to) || to == from + n
  }

  /** The image before shows the tile at p. */
  ghost predicate IsCopyAt(before: Image, after: Image, tile: Rect, p: Point) {
    && after.Bounds().Contains(tile)
    && before.Bounds().Contains(RectAt(p, (tile.right - tile.left + 1), (tile.bottom - tile.top + 1)))
    && forall x, y :: tile.Has(x, y) && after.Has(x, y) ==> MovedPixel(before, after, p.Minus(tile.TopLeft()), x, y)
  }

  predicate IsNear(tile: Rect, p: Point, radius: nat) {
    tile.left - radius <= p.x <= tile.left + radius && tile.top - radius <= p.y <= tile.top + radius
  }

  /** A copy of the tile in the image before, moved by the radius at most in each direction. */
  ghost predicate HasCopy(before: Image, after: Image, tile: Rect, radius: nat) {
    exists p :: IsNear(tile, p, radius) && IsCopyAt(before, after, tile, p)
  }

  function Enlarged(rect: Rect, radius: int): Rect { rect.Adjusted(-radius, -radius, radius, radius) }

  /** Where the tile was if it has moved by the vector, give or take the extents. */
  function KnownArea(rect: Rect, v: VectorEstimate): (area: Rect)
    ensures rect.IsValid() ==> area.IsValid()
  {
    var x: int, y: int := v.extentX, v.extentY;
    rect.Translated(Point(0, 0).Minus(v.vector)).Adjusted(-x, -y, x, y)
  }

  function KnownAreas(rect: Rect, list: seq<VectorEstimate>): (areas: seq<Rect>)
    ensures |areas| == |list| && forall i :: 0 <= i < |list| ==> areas[i] == KnownArea(rect, list[i])
  {
    if list == [] then [] else [KnownArea(rect, list[0])] + KnownAreas(rect, list[1..])
  }

  /** The first 200 of the history. */
  function LatestVectors(list: seq<VectorEstimate>): seq<VectorEstimate> { list[..Min(200, |list|)] }

  /** The vector is in front; the others are as they were, in their order. */
  ghost predicate MovedToFront(was: seq<VectorEstimate>, now: seq<VectorEstimate>, v: VectorEstimate) {
    if v in was then exists i :: 0 <= i < |was| && was[i] == v && v !in was[..i] && now == [v] + was[..i] + was[i + 1..]
    else now == [v] + was
  }

  /** The answers of findMovedRect for a template: pairs of a search area and an answer. */
  type AnswerSet = iset<(Rect, Rect)>

  ghost predicate Misses(answers: AnswerSet, area: Rect) {
    exists r: Rect :: r.IsDefault() && (area, r) in answers
  }

  /** The first n areas do not have the template. */
  ghost predicate FirstMiss(answers: AnswerSet, areas: seq<Rect>, n: int)
    requires n <= |areas|
  {
    forall j :: 0 <= j < n ==> Misses(answers, areas[j])
  }

  /** The answer of the first area that has the template. */
  ghost predicate FoundAmong(answers: AnswerSet, areas: seq<Rect>, found: Rect) {
    !found.IsDefault() && exists n :: 0 <= n < |areas| && FirstMiss(answers, areas, n) && (areas[n], found) in answers
  }

  /** The same among areas that are searched on a budget of misses: nothing is found only if every area misses, or the
      miss that reaches the threshold comes first. */
  ghost predicate FoundOnBudget(answers: AnswerSet, areas: seq<Rect>, found: Rect, threshold: int, from: int, to: int) {
    && Budgeted(threshold, from, to, |areas|, !found.IsDefault())
    && FirstMiss(answers, areas, to - from)
    && (!found.IsDefault() ==> (areas[to - from], found) in answers)
  }

  /** What processRect answers: the first known vector that leads to the tile, from the latest to the oldest; and without
      one, the first of the further areas, the surroundings of the tile last. */
  ghost predicate IsAnswer(answers: AnswerSet, rect: Rect, known: seq<VectorEstimate>, additional: seq<Rect>, radius: nat, found: Rect,
                           threshold: int, from: int, to: int)
  {
    || (FoundAmong(answers, KnownAreas(rect, known), found) && to == from)
    || (FirstMiss(answers, KnownAreas(rect, known), |known|) &&
        FoundOnBudget(answers, additional + [Enlarged(rect, radius)], found, threshold, from, to))
  }

  class MoveAnalyzer {
    var imageBefore: Buffer
    var imageAfter: Buffer
    const templateWidth: int
    const useFingerPrints: bool  // the build option VIRIDITY_USE_AREAFINGERPRINTS
    const searchAreaFingerPrints: AreaFingerPrints
    var searchRadius: nat
    var damagedAreas: seq<Rect>
    var searchMissesThreshold: int
    var movedRectSearchMisses: int
    var movedRectSearchEnabled: bool
    var lastSuccessfulMoveVectors: seq<VectorEstimate>

    ghost predicate Valid()
      reads this`imageBefore, this`imageAfter, this`damagedAreas, imageBefore, imageAfter, searchAreaFingerPrints
    {
      && templateWidth >= 1
      && imageBefore.image.SameSize(imageAfter.image)
      && AllValid(damagedAreas)
      && searchAreaFingerPrints.Valid()
      && searchAreaFingerPrints.hashedArea == imageBefore.image.Bounds()
      && searchAreaFingerPrints.width == Max(0, imageBefore.image.width - templateWidth + 1)
    }

    constructor (imageBefore: Buffer, imageAfter: Buffer, templateWidth: int, useFingerPrints: bool)
      requires templateWidth >= 1 && imageBefore.image.SameSize(imageAfter.image)
      ensures Valid() && fresh(searchAreaFingerPrints)
      ensures this.imageBefore == imageBefore && this.imageAfter == imageAfter
      ensures this.templateWidth == templateWidth && this.useFingerPrints == useFingerPrints
      ensures searchRadius == 200 && searchMissesThreshold == 50 && lastSuccessfulMoveVectors == [] && damagedAreas == []
      ensures movedRectSearchMisses == 0 && movedRectSearchEnabled
    {
      this.imageBefore, this.imageAfter := imageBefore, imageAfter;
      this.templateWidth, this.useFingerPrints := templateWidth, useFingerPrints;
      searchRadius := 200;
      damagedAreas := [];
      searchMissesThreshold := 50;
      movedRectSearchMisses := 0;
      movedRectSearchEnabled := true;
      lastSuccessfulMoveVectors := [];
      searchAreaFingerPrints := new AreaFingerPrints.InitFromImage(imageBefore.image, templateWidth);
    }

    method StartNewSearch()
      modifies this`movedRectSearchMisses, this`movedRectSearchEnabled
      ensures movedRectSearchMisses == 0 && movedRectSearchEnabled
    {
      movedRectSearchMisses := 0;
      movedRectSearchEnabled := true;
    }

    /** The answer of the exhaustive search. */
    ghost predicate FoundExhaustively(searchArea: Rect, templateRect: Rect, result: Rect)
      requires searchArea.IsValid()
      reads this`imageBefore, this`imageAfter, imageBefore, imageAfter
    {
      var roi := SearchRegion(searchArea);
      if result.IsDefault() then forall p: Point :: !MatchesIn(imageBefore, imageAfter, roi, templateRect, p)
      else
        && result == RectAt(result.TopLeft(), (templateRect.right - templateRect.left + 1), (templateRect.bottom - templateRect.top + 1))
        && MatchesIn(imageBefore, imageAfter, roi, templateRect, result.TopLeft())
        && NoMatchBefore(imageBefore, imageAfter, roi, templateRect, result.TopLeft())
    }

    /** The exhaustive search: the first match in row-major order inside the clipped search area, or QRect()
        when there is none. The image before is never read outside its pixels. */
    method FindMovedRectExhaustive(searchArea: Rect, templateRect: Rect) returns (result: Rect)
      requires searchArea.IsValid() && templateRect.IsValid()
      ensures FoundExhaustively(searchArea, templateRect, result)
    {
      var roi := SearchRegion(searchArea);
      var width := (templateRect.right - templateRect.left + 1);
      var height := (templateRect.bottom - templateRect.top + 1);
      if roi.IsEmpty() {
        return roi.Default();
      }
      var roiBottom := (roi.bottom - roi.top + 1) - height + 1;
      var roiRight := (roi.right - roi.left + 1) - width + 1;
      if roiBottom < 1 || roiRight < 1 {
        return roi.Default();
      }
      for y := 0 to roiBottom
        invariant NoMatchBefore(imageBefore, imageAfter, roi, templateRect, Point(roi.left, roi.top + y))
      {
        for x := 0 to roiRight
          invariant NoMatchBefore(imageBefore, imageAfter, roi, templateRect, Point(roi.left + x, roi.top + y))
        {
          var p := Point(roi.left + x, roi.top + y);
          var matches := MatchesAtPointer(p, templateRect);
          if matches {
            return RectAt(p, width, height);
          }
          NextPosition(imageBefore, imageAfter, roi, templateRect, p, Point(roi.left + x + 1, roi.top + y));
        }
        NextPositionRow(imageBefore, imageAfter, roi, templateRect, Point(roi.left + roiRight, roi.top + y), Point(roi.left, roi.top + y + 1));
      }
      NoMatchAnywhere(imageBefore, imageAfter, roi, templateRect, Point(roi.left, roi.top + roiBottom));
      return roi.Default();
    }

    function SearchRegion(searchArea: Rect): (roi: Rect)
      requires searchArea.IsValid()
      reads this`imageBefore, this`imageAfter, imageBefore, imageAfter
      ensures roi.IsDefault() || (roi.IsValid() && imageBefore.image.Bounds().Contains(roi))
    {
      searchArea.Intersected(imageBefore.image.Bounds()).Intersected(imageAfter.image.Bounds())
    }

    /** The inner test: a few pixels of the first row one by one, then the whole rows. */
    method MatchesAtPointer(p: Point, templateRect: Rect) returns (matches: bool)
      requires templateRect.IsValid()
      requires imageBefore.image.Bounds().Contains(RectAt(p, (templateRect.right - templateRect.left + 1), (templateRect.bottom - templateRect.top + 1)))
      ensures matches <==> SamePixels(imageBefore, imageAfter, p, templateRect)
    {
      var d := p.Minus(templateRect.TopLeft());
      var x, y := templateRect.left, templateRect.top;
      if (templateRect.right - templateRect.left + 1) >= 4 {
        matches := MatchAt(imageBefore, imageAfter, d, x, y) && MatchAt(imageBefore, imageAfter, d, x + 1, y) &&
        MatchAt(imageBefore, imageAfter, d, x + 2, y) && MatchAt(imageBefore, imageAfter, d, x + 3, y);
      } else {
        matches := MatchAt(imageBefore, imageAfter, d, x, y);
      }
      if matches {
        matches := RowsMatch(imageBefore, imageAfter, p, templateRect);
      }
    }

    /** The row hashes of the template, as far as it lies inside the image after. */
    ghost predicate IsNeedle(rows: seq<Hash>, templateRect: Rect)
      requires templateRect.IsValid()
      reads this`imageAfter, imageAfter
    {
      var clipped := templateRect.Intersected(imageAfter.image.Bounds());
      && |rows| == clipped.bottom - clipped.top + 1
      && forall r :: 0 <= r < |rows| ==> rows[r] == RowHash(imageAfter.image, clipped.left, clipped.top + r, clipped.right - clipped.left + 1)
    }

    /** The answer of the search in the index: where the index finds the template's rows, or QRect(). */
    ghost predicate FoundByIndex(searchArea: Rect, templateRect: Rect, result: Rect)
      requires Valid() && searchArea.IsValid() && templateRect.IsValid()
      reads this`imageBefore, this`imageAfter, this`damagedAreas, imageBefore, imageAfter, searchAreaFingerPrints
    {
      exists rows :: IsNeedle(rows, templateRect) &&
        if result.IsDefault() then
          searchAreaFingerPrints.IsPosition(rows, searchArea, imageBefore, imageAfter, templateRect, false, Point(0, 0))
        else
          && result == RectAt(result.TopLeft(), (templateRect.right - templateRect.left + 1), (templateRect.bottom - templateRect.top + 1))
          && searchAreaFingerPrints.IsPosition(rows, searchArea, imageBefore, imageAfter, templateRect, true, result.TopLeft())
    }

    method Needle(templateRect: Rect) returns (rows: seq<Hash>)
      requires templateRect.IsValid()
      ensures IsNeedle(rows, templateRect)
    {
      var clipped := templateRect.Intersected(imageAfter.image.Bounds());
      rows := UpdateColumn(seq((clipped.bottom - clipped.top + 1), i => EMPTY_HASH), imageAfter.image, clipped, 0);
    }

    method FindMovedRectAreaFingerPrint(searchArea: Rect, templateRect: Rect) returns (result: Rect)
      requires Valid() && searchArea.IsValid() && Searchable(templateRect, imageAfter.image, templateWidth)
      ensures result.IsDefault() || (result.IsValid() && ExactMove(imageBefore.image, imageAfter.image, result, templateRect))
      ensures FoundByIndex(searchArea, templateRect, result)
    {
      hide IsNeedle, AreaFingerPrints.IsPosition, AreaFingerPrints.Valid, ClippedMatch, ExactMove, Searchable, AllValid;
      SearchableIsValid(templateRect, imageAfter.image, templateWidth);
      var rows := Needle(templateRect);
      var found, p := searchAreaFingerPrints.FindPosition(rows, searchArea, imageBefore, imageAfter, templateRect);
      if found {
        IndexedMatchIsExact(imageBefore, imageAfter, p, templateRect, templateWidth);
        return RectAt(p, (templateRect.right - templateRect.left + 1), (templateRect.bottom - templateRect.top + 1));
      }
      NoPosition(rows, searchArea, templateRect, p);
      return searchArea.Default();
    }

    lemma NoPosition(rows: seq<Hash>, searchArea: Rect, templateRect: Rect, p: Point)
      requires Valid() && searchArea.IsValid() && templateRect.IsValid()
      requires searchAreaFingerPrints.IsPosition(rows, searchArea, imageBefore, imageAfter, templateRect, false, p)
      ensures searchAreaFingerPrints.IsPosition(rows, searchArea, imageBefore, imageAfter, templateRect, false, Point(0, 0))
    {
    }

    /** The answer of findMovedRect: by the index if there is one and the width fits, otherwise exhaustively. */
    ghost predicate IsMovedRect(searchArea: Rect, templateRect: Rect, result: Rect)
      reads this`imageBefore, this`imageAfter, this`damagedAreas, imageBefore, imageAfter, searchAreaFingerPrints
    {
      Valid() && searchArea.IsValid() && templateRect.IsValid() &&
      if useFingerPrints && (templateRect.right - templateRect.left + 1) % searchAreaFingerPrints.TemplateWidth() == 0
      then FoundByIndex(searchArea, templateRect, result)
      else FoundExhaustively(searchArea, templateRect, result)
    }

    /** All answers of findMovedRect for a template, with the areas they are for. */
    ghost function Answers(templateRect: Rect): AnswerSet
      reads this`imageBefore, this`imageAfter, this`damagedAreas, imageBefore, imageAfter, searchAreaFingerPrints
    {
      iset searchArea: Rect, result: Rect | IsMovedRect(searchArea, templateRect, result) :: (searchArea, result)
    }

    method FindMovedRect(searchArea: Rect, templateRect: Rect) returns (result: Rect)
      requires Valid() && searchArea.IsValid() && Searchable(templateRect, imageAfter.image, templateWidth)
      ensures result.IsDefault() || (result.IsValid() && ExactMove(imageBefore.image, imageAfter.image, result, templateRect))
      ensures (searchArea, result) in Answers(templateRect)
    {
      hide FoundByIndex, FoundExhaustively, ExactMove;
      if useFingerPrints && (templateRect.right - templateRect.left + 1) % searchAreaFingerPrints.TemplateWidth() == 0 {
        result := FindMovedRectAreaFingerPrint(searchArea, templateRect);
      } else {
        result := FindMovedRectExhaustive(searchArea, templateRect);
        FoundIsExact(searchArea, templateRect, result);
      }
    }

    lemma FoundIsExact(searchArea: Rect, templateRect: Rect, result: Rect)
      requires Valid() && searchArea.IsValid() && templateRect.IsValid() && FoundExhaustively(searchArea, templateRect, result)
      ensures result.IsDefault() || (result.IsValid() && ExactMove(imageBefore.image, imageAfter.image, result, templateRect))
    {
      if !result.IsDefault() {
        MatchIsExact(imageBefore, imageAfter, result.TopLeft(), templateRect);
      }
    }

    /** Every rectangle found is an exact source for rect, whatever the index, the vector history and the
        budget of misses hold; and it is the one that the order of the search says. */
    method ProcessRect(rect: Rect, additionalSearchAreas: seq<Rect>) returns (movedSrcRect: Rect)
      requires Valid() && Searchable(rect, imageAfter.image, templateWidth) && AllValid(additionalSearchAreas)
      modifies this`damagedAreas, this`movedRectSearchMisses, this`movedRectSearchEnabled, this`lastSuccessfulMoveVectors
      ensures Valid() && damagedAreas == old(damagedAreas) + [rect]
      ensures movedSrcRect.IsDefault() ||
              (movedSrcRect.IsValid() && ExactMove(imageBefore.image, imageAfter.image, movedSrcRect, rect))
      ensures if old(movedRectSearchEnabled)
              then IsAnswer(Answers(rect), rect, old(lastSuccessfulMoveVectors), additionalSearchAreas, searchRadius, movedSrcRect,
                            searchMissesThreshold, old(movedRectSearchMisses), movedRectSearchMisses)
              else movedSrcRect.IsDefault() && movedRectSearchMisses == old(movedRectSearchMisses)
      ensures movedRectSearchEnabled ==
              (old(movedRectSearchEnabled) && !Spent(searchMissesThreshold, old(movedRectSearchMisses), movedRectSearchMisses))
      ensures old(movedRectSearchMisses) <= movedRectSearchMisses <= old(movedRectSearchMisses) + |additionalSearchAreas| + 1
      ensures movedRectSearchEnabled && !useFingerPrints && HasCopy(imageBefore.image, imageAfter.image, rect, searchRadius) ==>
                movedSrcRect.IsValid()
      ensures if movedSrcRect.IsDefault() then lastSuccessfulMoveVectors == old(lastSuccessfulMoveVectors)
              else MovedToFront(old(lastSuccessfulMoveVectors), lastSuccessfulMoveVectors,
                                VectorEstimate(rect.TopLeft().Minus(movedSrcRect.TopLeft()), 0, 0))
    {
      hide Valid, ExactMove, Searchable, Answers, IsAnswer, HasCopy, MovedToFront, AllValid;
      SearchableIsValid(rect, imageAfter.image, templateWidth);
      RecordDamage(rect);
      movedSrcRect := rect.Default();
      if movedRectSearchEnabled {
        movedSrcRect := FindSource(rect, additionalSearchAreas);
        CopyIsFound(rect, additionalSearchAreas, movedSrcRect, lastSuccessfulMoveVectors, old(movedRectSearchMisses), movedRectSearchMisses);
        if !movedSrcRect.IsEmpty() {
          Remember(VectorEstimate(rect.TopLeft().Minus(movedSrcRect.TopLeft()), 0, 0));
        }
      }
    }

    method RecordDamage(rect: Rect)
      requires Valid() && rect.IsValid()
      modifies this`damagedAreas
      ensures Valid() && damagedAreas == old(damagedAreas) + [rect]
    {
      damagedAreas := damagedAreas + [rect];
    }

    /** The two loops of processRect. */
    method FindSource(rect: Rect, additionalSearchAreas: seq<Rect>) returns (found: Rect)
      requires Valid() && Searchable(rect, imageAfter.image, templateWidth) && AllValid(additionalSearchAreas) && movedRectSearchEnabled
      modifies this`movedRectSearchMisses, this`movedRectSearchEnabled
      ensures Valid()
      ensures found.IsDefault() || (found.IsValid() && ExactMove(imageBefore.image, imageAfter.image, found, rect))
      ensures IsAnswer(Answers(rect), rect, lastSuccessfulMoveVectors, additionalSearchAreas, searchRadius, found, searchMissesThreshold,
                       old(movedRectSearchMisses), movedRectSearchMisses)
      ensures movedRectSearchEnabled == !Spent(searchMissesThreshold, old(movedRectSearchMisses), movedRectSearchMisses)
    {
      hide Valid, ExactMove, Searchable, Answers, FirstMiss, FoundAmong, FoundOnBudget, KnownAreas, HasCopy;
      SearchableIsValid(rect, imageAfter.image, templateWidth);
      found := SearchWithKnownVectors(rect);
      if found.IsNull() {
        var radius: int := searchRadius;
        found := SearchAreas(rect, additionalSearchAreas + [rect.Adjusted(-radius, -radius, radius, radius)]);
      }
    }

    /** The exhaustive search finds a copy of the tile within the radius, unless the budget of misses is used up in the
        areas before. */
    lemma CopyIsFound(rect: Rect, additional: seq<Rect>, found: Rect, known: seq<VectorEstimate>, from: int, to: int)
      requires Valid() && Searchable(rect, imageAfter.image, templateWidth)
      requires IsAnswer(Answers(rect), rect, known, additional, searchRadius, found, searchMissesThreshold, from, to)
      ensures !useFingerPrints && HasCopy(imageBefore.image, imageAfter.image, rect, searchRadius) ==>
                Spent(searchMissesThreshold, from, to) || !found.IsDefault()
      ensures !useFingerPrints && HasCopy(imageBefore.image, imageAfter.image, rect, searchRadius) ==>
                from < searchMissesThreshold <= from + |additional| || !found.IsDefault()
      ensures from <= to <= from + |additional| + 1
    {
      hide HasCopy, Misses, Answers;
      var areas := additional + [Enlarged(rect, searchRadius)];
      if !useFingerPrints && HasCopy(imageBefore.image, imageAfter.image, rect, searchRadius) && FirstMiss(Answers(rect), areas, |areas|) {
        assert Misses(Answers(rect), areas[|areas| - 1]);
        SurroundingsHaveCopy(rect);
        assert false;
      }
    }

    lemma SurroundingsHaveCopy(rect: Rect)
      requires Valid() && rect.IsValid() && !useFingerPrints && HasCopy(imageBefore.image, imageAfter.image, rect, searchRadius)
      ensures !Misses(Answers(rect), Enlarged(rect, searchRadius))
    {
      var p :| IsNear(rect, p, searchRadius) && IsCopyAt(imageBefore.image, imageAfter.image, rect, p);
      CopyMatches(Enlarged(rect, searchRadius), rect, p);
    }

    /** A copy of the tile inside the area searched is a match of the exhaustive search. */
    lemma CopyMatches(area: Rect, rect: Rect, p: Point)
      requires Valid() && rect.IsValid() && area.IsValid() && IsCopyAt(imageBefore.image, imageAfter.image, rect, p)
      requires area.Contains(RectAt(p, (rect.right - rect.left + 1), (rect.bottom - rect.top + 1)))
      ensures MatchesIn(imageBefore, imageAfter, SearchRegion(area), rect, p)
    {
      var d := p.Minus(rect.TopLeft());
      forall x, y | rect.Has(x, y) ensures MatchAt(imageBefore, imageAfter, d, x, y) {
        assert MovedPixel(imageBefore.image, imageAfter.image, d, x, y);
      }
    }

    /** A vector that was remembered leads to every tile that has moved by it, however far and without any budget. */
    lemma KnownCopyIsFound(rect: Rect, additional: seq<Rect>, found: Rect, known: seq<VectorEstimate>, from: int, to: int, v: Point)
      requires Valid() && rect.IsValid() && !useFingerPrints
      requires VectorEstimate(v, 0, 0) in known && IsCopyAt(imageBefore.image, imageAfter.image, rect, rect.TopLeft().Minus(v))
      requires IsAnswer(Answers(rect), rect, known, additional, searchRadius, found, searchMissesThreshold, from, to)
      ensures !found.IsDefault() && to == from
    {
      hide IsCopyAt, FoundOnBudget;
      var i :| 0 <= i < |known| && known[i] == VectorEstimate(v, 0, 0);
      var area := KnownArea(rect, known[i]);
      assert area == RectAt(rect.TopLeft().Minus(v), (rect.right - rect.left + 1), (rect.bottom - rect.top + 1));
      CopyMatches(area, rect, rect.TopLeft().Minus(v));
      assert !Misses(Answers(rect), area);
      assert KnownAreas(rect, known)[i] == area;
    }

    /** The first loop of processRect: the places where the known move vectors point to. */
    method SearchWithKnownVectors(rect: Rect) returns (found: Rect)
      requires Valid() && Searchable(rect, imageAfter.image, templateWidth)
      ensures found.IsDefault() || (found.IsValid() && ExactMove(imageBefore.image, imageAfter.image, found, rect))
      ensures if found.IsDefault()
              then FirstMiss(Answers(rect), KnownAreas(rect, lastSuccessfulMoveVectors), |lastSuccessfulMoveVectors|)
              else FoundAmong(Answers(rect), KnownAreas(rect, lastSuccessfulMoveVectors), found)
    {
      hide Valid, ExactMove, Searchable, Answers, FirstMiss, FoundAmong, FoundOnBudget, KnownAreas, HasCopy, KnownArea;
      SearchableIsValid(rect, imageAfter.image, templateWidth);
      found := rect.Default();
      var list := lastSuccessfulMoveVectors;
      ghost var areas, answers := KnownAreas(rect, list), Answers(rect);
      NothingMissed(answers, areas);
      for i := 0 to |list|
        invariant found.IsDefault() && FirstMiss(answers, areas, i)
      {
        var area := AreaOf(rect, list[i]);
        found := FindMovedRect(area, rect);
        if !found.IsEmpty() {
          FirstFound(answers, areas, i, found);
          break;
        }
        OneMoreMiss(answers, areas, i, found);
      }
    }

    static method AreaOf(rect: Rect, v: VectorEstimate) returns (area: Rect)
      requires rect.IsValid()
      ensures area == KnownArea(rect, v) && area.IsValid()
    {
      area := rect.Translated(Point(0, 0).Minus(v.vector));
      var x: int, y: int := v.extentX, v.extentY;
      if x > 0 || y > 0 {
        area := area.Adjusted(-x, -y, x, y);
      }
    }

    /** The search of one area. A miss counts, and the one that reaches the threshold switches the search off. */
    method SearchArea(rect: Rect, searchArea: Rect) returns (found: Rect, spent: bool)
      requires Valid() && Searchable(rect, imageAfter.image, templateWidth) && searchArea.IsValid()
      modifies this`movedRectSearchMisses, this`movedRectSearchEnabled
      ensures found.IsDefault() || (found.IsValid() && ExactMove(imageBefore.image, imageAfter.image, found, rect))
      ensures (searchArea, found) in Answers(rect)
      ensures movedRectSearchMisses == old(movedRectSearchMisses) + (if found.IsDefault() then 1 else 0)
      ensures spent == (found.IsDefault() && movedRectSearchMisses == searchMissesThreshold)
      ensures movedRectSearchEnabled == (old(movedRectSearchEnabled) && !spent)
    {
      hide IsMovedRect, ExactMove, Answers;
      spent := false;
      found := FindMovedRect(searchArea, rect);
      if found.IsEmpty() {
        movedRectSearchMisses := movedRectSearchMisses + 1;
        if movedRectSearchMisses == searchMissesThreshold {
          movedRectSearchEnabled := false;
          spent := true;
        }
      }
    }

    /** The second loop: further areas one after the other, until one has the template or the budget of misses is
        used up. */
    method SearchAreas(rect: Rect, searchAreas: seq<Rect>) returns (found: Rect)
      requires Valid() && Searchable(rect, imageAfter.image, templateWidth) && AllValid(searchAreas)
      modifies this`movedRectSearchMisses, this`movedRectSearchEnabled
      ensures Valid()
      ensures found.IsDefault() || (found.IsValid() && ExactMove(imageBefore.image, imageAfter.image, found, rect))
      ensures movedRectSearchEnabled ==
              (old(movedRectSearchEnabled) && !Spent(searchMissesThreshold, old(movedRectSearchMisses), movedRectSearchMisses))
      ensures FoundOnBudget(Answers(rect), searchAreas, found, searchMissesThreshold, old(movedRectSearchMisses), movedRectSearchMisses)
    {
      hide Valid, ExactMove, Searchable, Answers, FirstMiss, FoundAmong, FoundOnBudget, KnownAreas, HasCopy, Budgeted;
      ghost var answers, from := Answers(rect), movedRectSearchMisses;
      found := rect.Default();
      NothingMissed(answers, searchAreas);
      for i := 0 to |searchAreas|
        invariant found.IsDefault() && FirstMiss(answers, searchAreas, i)
        invariant movedRectSearchMisses == from + i && movedRectSearchEnabled == old(movedRectSearchEnabled)
        invariant !(from < searchMissesThreshold <= movedRectSearchMisses)
      {
        assert searchAreas[i] in searchAreas;
        var spent;
        found, spent := SearchArea(rect, searchAreas[i]);
        if found.IsDefault() {
          OneMoreMiss(answers, searchAreas, i, found);
        }
        if spent || !found.IsEmpty() {
          SearchEnds(answers, searchAreas, found, searchMissesThreshold, from, movedRectSearchMisses);
          return;
        }
      }
      SearchEnds(answers, searchAreas, found, searchMissesThreshold, from, movedRectSearchMisses);
    }

    /** Moves the vector to the front of the history. */
    method Remember(v: VectorEstimate)
      modifies this`lastSuccessfulMoveVectors
      ensures MovedToFront(old(lastSuccessfulMoveVectors), lastSuccessfulMoveVectors, v)
    {
      var list := lastSuccessfulMoveVectors;
      for index := 0 to |list|
        invariant v !in list[..index]
      {
        if list[index] == v {
          lastSuccessfulMoveVectors := [v] + list[..index] + list[index + 1..];
          return;
        }
      }
      assert list[..|list|] == list;
      lastSuccessfulMoveVectors := [v] + list;
    }

    method SearchTiles(searchArea: Rect) returns (tiles: seq<Rect>)
      requires Valid() && searchArea.IsValid() && (imageAfter.image.Bounds().Contains(searchArea) || OffImage(searchArea))
      ensures forall t :: t in tiles ==> Searchable(t, imageAfter.image, templateWidth) && searchArea.Contains(t)
      ensures IsTiling(tiles, searchArea, templateWidth)
    {
      tiles := SplitRectIntoTiles(searchArea, templateWidth, templateWidth);
      forall t | t in tiles ensures Searchable(t, imageAfter.image, templateWidth) && searchArea.Contains(t) {
        TileIsSearchable(searchArea, t, imageAfter.image, templateWidth);
      }
    }

    /** Every tile of the area is either moved exactly or left over; and as long as the budget of misses is not used up,
        the exhaustive search moves every tile that has a copy in its surroundings. */
    method FindMoveOperations(searchArea: Rect, additionalSearchAreas: seq<Rect>)
      returns (result: seq<MoveOperation>, leftovers: Region, ghost tiles: seq<Rect>)
      requires Valid() && AllValid(additionalSearchAreas)
      requires searchArea.IsValid() && (imageAfter.image.Bounds().Contains(searchArea) || OffImage(searchArea))
      modifies this`damagedAreas, this`movedRectSearchMisses, this`movedRectSearchEnabled, this`lastSuccessfulMoveVectors
      ensures Valid()
      ensures MovesExact(result, imageBefore.image, imageAfter.image)
      ensures IsTiling(tiles, searchArea, templateWidth) && MovesTiles(result, tiles)
      ensures forall x, y :: searchArea.Has(x, y) ==> (Point(x, y) in leftovers <==> !MovedTo(result, x, y))
      ensures forall p :: p in leftovers ==> searchArea.Has(p.x, p.y)
      ensures movedRectSearchEnabled && !useFingerPrints ==>
                CopiesMoved(tiles, result, imageBefore.image, imageAfter.image, searchRadius)
      ensures movedRectSearchEnabled == !Spent(searchMissesThreshold, 0, movedRectSearchMisses)
      ensures movedRectSearchMisses <= |tiles| * (|additionalSearchAreas| + 1)
    {
      hide Valid, ExactMove, Searchable, Answers, IsAnswer, HasCopy, MovedToFront, AllValid, IsTiling, OffImage;
      hide MovesExact, MovesTiles, SplitUp, CopiesMoved, Destination, MovedTo, Rect.Contains;
      result, leftovers := [], {};
      StartNewSearch();
      var all := SearchTiles(searchArea);
      tiles := all;
      ghost var before, after, areas := imageBefore.image, imageAfter.image, |additionalSearchAreas| + 1;
      NothingMoved(before, after, searchRadius);
      for i := 0 to |all|
        invariant Valid() && imageBefore.image == before && imageAfter.image == after
        invariant MovesExact(result, before, after) && MovesTiles(result, all[..i]) && SplitUp(all[..i], leftovers, result)
        invariant movedRectSearchEnabled && !useFingerPrints ==> CopiesMoved(all[..i], result, before, after, searchRadius)
        invariant movedRectSearchEnabled == !Spent(searchMissesThreshold, 0, movedRectSearchMisses)
        invariant 0 <= movedRectSearchMisses <= i * areas
      {
        var rect := all[i];
        assert rect in all && all[..i + 1] == all[..i] + [rect];
        var movedSrcRect := ProcessRect(rect, additionalSearchAreas);
        assert (i + 1) * areas == i * areas + areas;
        TileIsNew(all, searchArea, templateWidth, i);
        if movedSrcRect.IsEmpty() {
          SplitUpLeftover(all[..i], leftovers, result, rect);
          CopiesMovedLeftover(all[..i], result, rect, before, after, searchRadius);
          leftovers := leftovers + Pixels(rect);
        } else {
          var op := MoveOperation(movedSrcRect, rect.TopLeft());
          MovedAlso(all[..i], result, op, rect, before, after, searchRadius);
          SplitUpMoved(all[..i], leftovers, result, op);
          result := result + [op];
        }
      }
      assert all[..|all|] == all;
      SplitUpArea(all, searchArea, templateWidth, leftovers, result);
    }

    /** Exchanges the images, forgets old vectors and re-hashes the damaged areas of the index, which then belongs to
        the new image before: the entries with a damaged pixel behind their first column are hashes of that image,
        and the others are what they were. */
    method Swap()
      requires Valid()
      modifies this`imageBefore, this`imageAfter, this`damagedAreas, this`lastSuccessfulMoveVectors, searchAreaFingerPrints
      ensures Valid()
      ensures imageBefore == old(imageAfter) && imageAfter == old(imageBefore)
      ensures damagedAreas == []
      ensures lastSuccessfulMoveVectors == LatestVectors(old(lastSuccessfulMoveVectors))
      ensures templateWidth >= 2 ==>
                Rehashed(old(searchAreaFingerPrints.columns), searchAreaFingerPrints.columns, imageBefore.image, templateWidth, old(damagedAreas))
    {
      hide Rehashed;
      ghost var areas, was := damagedAreas, searchAreaFingerPrints.columns;
      var region := RegionOf(damagedAreas);
      damagedAreas := [];
      ForgetVectors();
      imageBefore, imageAfter := imageAfter, imageBefore;
      var rects := RegionRects(region);
      UpdateAreas(rects);
      SamePixelsRehashed(was, searchAreaFingerPrints.columns, imageBefore.image, templateWidth, rects, areas);
    }

    /** region += rect over the areas. */
    static method RegionOf(areas: seq<Rect>) returns (region: Region)
      ensures forall p :: p in region <==> Covered(areas, p.x, p.y)
    {
      region := {};
      for i := 0 to |areas|
        invariant forall p :: p in region <==> Covered(areas[..i], p.x, p.y)
      {
        assert areas[..i + 1] == areas[..i] + [areas[i]];
        CoveredAppend(areas[..i], areas[i]);
        region := region + Pixels(areas[i]);
      }
      assert areas[..|areas|] == areas;
    }

    /** The last vectors of the history go, down to 200. */
    method ForgetVectors()
      modifies this`lastSuccessfulMoveVectors
      ensures lastSuccessfulMoveVectors == LatestVectors(old(lastSuccessfulMoveVectors))
    {
      while |lastSuccessfulMoveVectors| > 200
        invariant lastSuccessfulMoveVectors <= old(lastSuccessfulMoveVectors)
        invariant |lastSuccessfulMoveVectors| >= Min(200, |old(lastSuccessfulMoveVectors)|)
      {
        lastSuccessfulMoveVectors := lastSuccessfulMoveVectors[..|lastSuccessfulMoveVectors| - 1];
      }
    }

    /** updateArea for every rectangle. */
    method UpdateAreas(rects: seq<Rect>)
      requires Valid() && AllValid(rects)
      modifies searchAreaFingerPrints
      ensures Valid()
      ensures templateWidth >= 2 ==>
                Rehashed(old(searchAreaFingerPrints.columns), searchAreaFingerPrints.columns, imageBefore.image, templateWidth, rects)
    {
      hide Rehashed;
      ghost var was := searchAreaFingerPrints.columns;
      NothingRehashed(was, imageBefore.image, templateWidth);
      for i := 0 to |rects|
        invariant Valid()
        invariant templateWidth >= 2 ==> Rehashed(was, searchAreaFingerPrints.columns, imageBefore.image, templateWidth, rects[..i])
      {
        assert rects[i] in rects;
        ghost var mid := searchAreaFingerPrints.columns;
        searchAreaFingerPrints.UpdateFromImage(imageBefore.image, rects[i]);
        assert rects[..i + 1] == rects[..i] + [rects[i]];
        if templateWidth >= 2 {
          RehashedAlso(was, mid, searchAreaFingerPrints.columns, imageBefore.image, templateWidth, rects[..i], rects[i]);
        }
      }
      assert rects[..|rects|] == rects;
    }
  }

  lemma NothingMissed(answers: AnswerSet, areas: seq<Rect>)
    ensures FirstMiss(answers, areas, 0)
  {
  }

  lemma OneMoreMiss(answers: AnswerSet, areas: seq<Rect>, n: nat, found: Rect)
    requires n < |areas| && FirstMiss(answers, areas, n) && found.IsDefault() && (areas[n], found) in answers
    ensures FirstMiss(answers, areas, n + 1)
  {
  }

  lemma FirstFound(answers: AnswerSet, areas: seq<Rect>, n: nat, found: Rect)
    requires n < |areas| && FirstMiss(answers, areas, n) && (areas[n], found) in answers && !found.IsDefault()
    ensures FoundAmong(answers, areas, found)
  {
  }

  lemma SearchEnds(answers: AnswerSet, areas: seq<Rect>, found: Rect, threshold: int, from: int, to: int)
    requires from <= to <= from + |areas| && FirstMiss(answers, areas, to - from) && !(from < threshold < to)
    requires if found.IsDefault() then Spent(threshold, from, to) || to == from + |areas|
             else to < from + |areas| && !Spent(threshold, from, to) && (areas[to - from], found) in answers
    ensures FoundOnBudget(answers, areas, found, threshold, from, to)
  {
  }

  function Destination(op: MoveOperation): Rect {
    RectAt(op.dstPoint, (op.srcRect.right - op.srcRect.left + 1), (op.srcRect.bottom - op.srcRect.top + 1))
  }

  ghost predicate MovesExact(moves: seq<MoveOperation>, before: Image, after: Image) {
    forall op :: op in moves ==> op.srcRect.IsValid() && ExactMove(before, after, op.srcRect, Destination(op))
  }

  predicate MovedTo(moves: seq<MoveOperation>, x: int, y: int) {
    exists op :: op in moves && Destination(op).Has(x, y)
  }

  /** Tiles of the given size, or as large as what is left over, that cover the area without overlapping. */
  ghost predicate IsTiling(tiles: seq<Rect>, area: Rect, tileWidth: int) {
    && tileWidth >= 1 && AllValid(tiles) && PairwiseDisjoint(tiles)
    && (forall t :: t in tiles ==> IsTileOf(area, tileWidth, tileWidth, t))
    && forall x, y :: Covered(tiles, x, y) <==> area.Has(x, y)
  }

  predicate MovesTile(moves: seq<MoveOperation>, tile: Rect) {
    exists op :: op in moves && Destination(op) == tile
  }

  /** The moves go to tiles. */
  ghost predicate MovesTiles(moves: seq<MoveOperation>, tiles: seq<Rect>) {
    forall op :: op in moves ==> Destination(op) in tiles
  }

  ghost predicate CopiesMoved(tiles: seq<Rect>, moves: seq<MoveOperation>, before: Image, after: Image, radius: nat) {
    forall t :: t in tiles && HasCopy(before, after, t, radius) ==> MovesTile(moves, t)
  }

  /** The pixels of the tiles are those moved to and those left over, and no pixel is both. */
  ghost predicate SplitUp(tiles: seq<Rect>, leftovers: Region, moves: seq<MoveOperation>) {
    && (forall x, y :: Covered(tiles, x, y) <==> Point(x, y) in leftovers || MovedTo(moves, x, y))
    && forall x, y :: Point(x, y) in leftovers ==> !MovedTo(moves, x, y)
  }

  lemma NothingMoved(before: Image, after: Image, radius: nat)
    ensures MovesExact([], before, after) && MovesTiles([], []) && SplitUp([], {}, []) && CopiesMoved([], [], before, after, radius)
  {
  }

  lemma SplitUpArea(tiles: seq<Rect>, area: Rect, tileWidth: int, leftovers: Region, moves: seq<MoveOperation>)
    requires IsTiling(tiles, area, tileWidth) && SplitUp(tiles, leftovers, moves)
    ensures forall x, y :: area.Has(x, y) ==> (Point(x, y) in leftovers <==> !MovedTo(moves, x, y))
    ensures forall p :: p in leftovers ==> area.Has(p.x, p.y)
  {
    forall p | p in leftovers ensures area.Has(p.x, p.y) {
      assert Point(p.x, p.y) in leftovers;
      assert Covered(tiles, p.x, p.y);
    }
  }

  lemma TileIsNew(tiles: seq<Rect>, area: Rect, tileWidth: int, i: nat)
    requires IsTiling(tiles, area, tileWidth) && i < |tiles|
    ensures tiles[i].IsValid() && forall x, y :: Covered(tiles[..i], x, y) ==> !tiles[i].Has(x, y)
  {
    assert tiles[i] in tiles;
    forall x, y | Covered(tiles[..i], x, y) ensures !tiles[i].Has(x, y) {
      var t :| t in tiles[..i] && t.Has(x, y);
      var j :| 0 <= j < i && tiles[j] == t;
    }
  }

  lemma SplitUpLeftover(tiles: seq<Rect>, leftovers: Region, moves: seq<MoveOperation>, tile: Rect)
    requires SplitUp(tiles, leftovers, moves) && forall x, y :: Covered(tiles, x, y) ==> !tile.Has(x, y)
    ensures SplitUp(tiles + [tile], leftovers + Pixels(tile), moves)
  {
    CoveredAppend(tiles, tile);
  }

  lemma MovedToAppend(moves: seq<MoveOperation>, op: MoveOperation)
    ensures forall x, y :: MovedTo(moves + [op], x, y) <==> MovedTo(moves, x, y) || Destination(op).Has(x, y)
  {
    forall x, y | MovedTo(moves, x, y) || Destination(op).Has(x, y) ensures MovedTo(moves + [op], x, y) {
      if MovedTo(moves, x, y) {
        var o :| o in moves && Destination(o).Has(x, y);
        assert o in moves + [op];
      } else {
        assert op in moves + [op];
      }
    }
  }

  lemma SplitUpMoved(tiles: seq<Rect>, leftovers: Region, moves: seq<MoveOperation>, op: MoveOperation)
    requires SplitUp(tiles, leftovers, moves) && forall x, y :: Covered(tiles, x, y) ==> !Destination(op).Has(x, y)
    ensures SplitUp(tiles + [Destination(op)], leftovers, moves + [op])
  {
    CoveredAppend(tiles, Destination(op));
    MovedToAppend(moves, op);
  }

  /** A tile that is left over has no copy in its surroundings. */
  lemma CopiesMovedLeftover(tiles: seq<Rect>, moves: seq<MoveOperation>, tile: Rect, before: Image, after: Image, radius: nat)
    ensures MovesTiles(moves, tiles) ==> MovesTiles(moves, tiles + [tile])
    ensures CopiesMoved(tiles, moves, before, after, radius) && !HasCopy(before, after, tile, radius) ==>
              CopiesMoved(tiles + [tile], moves, before, after, radius)
  {
  }

  lemma MovedAlso(tiles: seq<Rect>, moves: seq<MoveOperation>, op: MoveOperation, tile: Rect, before: Image, after: Image, radius: nat)
    requires MovesTiles(moves, tiles) && MovesExact(moves, before, after)
    requires op.srcRect.IsValid() && ExactMove(before, after, op.srcRect, tile) && op.dstPoint == tile.TopLeft()
    ensures Destination(op) == tile && MovesTiles(moves + [op], tiles + [tile]) && MovesExact(moves + [op], before, after)
    ensures CopiesMoved(tiles, moves, before, after, radius) ==> CopiesMoved(tiles + [tile], moves + [op], before, after, radius)
  {
    assert Destination(op) == tile;
    hide ExactMove, HasCopy;
    forall t | MovesTile(moves, t) || t == tile ensures MovesTile(moves + [op], t) {
      if MovesTile(moves, t) {
        var o :| o in moves && Destination(o) == t;
        assert o in moves + [op];
      } else {
        assert op in moves + [op];
      }
    }
  }

  lemma TileIsSearchable(area: Rect, tile: Rect, image: Image, tileWidth: int)
    requires tileWidth >= 1 && area.IsValid() && (image.Bounds().Contains(area) || OffImage(area))
    requires IsTileOf(area, tileWidth, tileWidth, tile)
    ensures Searchable(tile, image, tileWidth)
  {
    if !image.Bounds().Contains(area) {
      LeftoverOfTwo(tileWidth);
    }
  }

  lemma LeftoverOfTwo(tile: int)
    requires tile >= 1
    ensures Leftover(2, tile) == if tile > 2 then 2 else 0
  {
    assert tile == 1 ==> Leftover(1, 1) == 0;
  }
}
