/** src/display/comparer/areafingerprint.h and .cpp: row hashes of image columns and searching them. */
module FingerPrint {
  import opened Geometry
  import opened Images
  import opened ImageAux

  /** Two running 32-bit values over the pixels of a row. */
  datatype Hash = Hash(hash: Pixel, average: Pixel) {
    function Add(pixel: Pixel): Hash {
      Hash((hash + pixel) % 0x1_0000_0000, (average + pixel) % 0x1_0000_0000 / 2)
    }
  }

  const EMPTY_HASH := Hash(0, 0)

  // ---------- AreaFingerPrint::indexOf

  /** The rows that are compared: one for a single-row needle, otherwise all except the last two. */
  function ComparedRows(needle: seq<Hash>): int {
    if |needle| == 1 then 1 else |needle| - 2
  }

  predicate RowsAgree(haystack: seq<Hash>, needle: seq<Hash>, index: int)
    requires 0 <= index && index + |needle| <= |haystack|
  {
    forall i :: 0 <= i < ComparedRows(needle) ==> needle[i] == haystack[index + i]
  }

  /** The first index of the window at which the compared rows agree. Needles of two or three rows match
      nowhere. */
  ghost predicate IsFirstIndex(haystack: seq<Hash>, needle: seq<Hash>, start: int, end: int, index: int)
    requires 0 <= start && end + |needle| <= |haystack|
  {
    if |needle| == 2 || |needle| == 3 then index == -1
    else if index == -1 then forall j :: start <= j <= end ==> !RowsAgree(haystack, needle, j)
    else start <= index <= end && RowsAgree(haystack, needle, index) &&
         forall j :: start <= j < index ==> !RowsAgree(haystack, needle, j)
  }

  /** The last index that is searched; an end of zero or less, or past the last possible one, searches all. */
  function LastIndex(haystackSize: int, needleSize: int, endIndex: int): int {
    if endIndex <= 0 || endIndex > haystackSize - needleSize then haystackSize - needleSize else endIndex
  }

  /** indexOf: the first index of the clamped window, or -1 when there is none or nothing to search. */
  ghost predicate IsIndexOf(haystack: seq<Hash>, needle: seq<Hash>, startIndex: nat, endIndex: int, result: int) {
    if |needle| > |haystack| || |needle| == 0 || LastIndex(|haystack|, |needle|, endIndex) < startIndex then result == -1
    else IsFirstIndex(haystack, needle, startIndex, LastIndex(|haystack|, |needle|, endIndex), result)
  }

  /** An end of zero does not stop the search at the first row: it goes through the whole column. */
  lemma EndZeroSearchesAll(haystack: seq<Hash>, needle: seq<Hash>, startIndex: nat, endIndex: int, result: int, j: nat)
    requires IsIndexOf(haystack, needle, startIndex, endIndex, result) && endIndex <= 0
    requires |needle| == 1 || |needle| >= 4
    requires startIndex <= j && j + |needle| <= |haystack| && RowsAgree(haystack, needle, j)
    ensures startIndex <= result <= j
  {
  }

  /** Not-So-Naive search. The shifts k and l skip positions without looking at them. */
  method IndexOf(haystack: seq<Hash>, needle: seq<Hash>, startIndex: nat, endIndex: int) returns (result: int)
    ensures IsIndexOf(haystack, needle, startIndex, endIndex, result)
    ensures result > -1 ==> 0 < |needle| && startIndex <= result <= |haystack| - |needle|
  {
    if |needle| > |haystack| || |needle| == 0 || |haystack| == 0 || startIndex > |haystack| {
      return -1;
    }
    var end := LastIndex(|haystack|, |needle|, endIndex);
    if end < startIndex {
      return -1;
    }
    if |needle| == 1 {
      for index := startIndex to end + 1
        invariant forall j :: startIndex <= j < index ==> !RowsAgree(haystack, needle, j)
      {
        if haystack[index] == needle[0] {
          return index;
        }
        assert needle[0] != haystack[index + 0];
      }
      return -1;
    }
    var needleSize2 := |needle| - 2;
    var k, l := if needle[0] == needle[1] then 2 else 1, if needle[0] == needle[1] then 1 else 2;
    var index: int := startIndex;
    while index <= end
      invariant startIndex <= index
      invariant needleSize2 >= 2 ==> forall j :: startIndex <= j < index && j <= end ==> !RowsAgree(haystack, needle, j)
    {
      if needle[1] != haystack[index + 1] {
        NoMatch(haystack, needle, index, end, k);
        index := index + k;
      } else {
        if needle[0] == haystack[index] {
          var i := 2;
          while i < needleSize2
            invariant 2 <= i && (i <= needleSize2 || i == 2)
            invariant forall j :: 0 <= j < i ==> needle[j] == haystack[index + j]
          {
            if needle[i] != haystack[index + i] {
              break;
            }
            i := i + 1;
          }
          if i == needleSize2 {
            return index;
          }
          assert i < needleSize2 ==> needle[i] != haystack[index + i];
        }
        NoMatch(haystack, needle, index, end, l);
        index := index + l;
      }
    }
    return -1;
  }

  /** Why a shift skips no match: a row known to differ from its counterpart at each skipped position. */
  lemma NoMatch(haystack: seq<Hash>, needle: seq<Hash>, index: int, end: int, shift: int)
    requires |needle| >= 2 && 0 <= index <= end && end + |needle| <= |haystack|
    requires shift == 1 || shift == 2
    requires needle[1] != haystack[index + 1] ==> shift == (if needle[0] == needle[1] then 2 else 1)
    requires needle[1] == haystack[index + 1] ==> shift == (if needle[0] == needle[1] then 1 else 2)
    requires |needle| >= 4 && needle[1] == haystack[index + 1] ==> !RowsAgree(haystack, needle, index)
    ensures |needle| >= 4 ==> forall j :: index <= j < index + shift && j <= end ==> !RowsAgree(haystack, needle, j)
  {
    if |needle| >= 4 {
      FirstRowsAgree(haystack, needle, index);
      if index + 1 <= end {
        FirstRowsAgree(haystack, needle, index + 1);
      }
    }
  }

  lemma FirstRowsAgree(haystack: seq<Hash>, needle: seq<Hash>, index: int)
    requires |needle| >= 4 && 0 <= index && index + |needle| <= |haystack|
    ensures RowsAgree(haystack, needle, index) ==> needle[0] == haystack[index] && needle[1] == haystack[index + 1]
  {
    assert RowsAgree(haystack, needle, index) ==> needle[0] == haystack[index + 0] && needle[1] == haystack[index + 1];
  }

  // ---------- hashing image rows

  function HashOf(pixels: seq<Pixel>): Hash {
    if pixels == [] then EMPTY_HASH else HashOf(pixels[..|pixels| - 1]).Add(pixels[|pixels| - 1])
  }

  /** The hash of the pixels of row y from x on. */
  function RowHash(image: Image, x: int, y: int, width: nat): Hash
    requires 0 <= x && x + width <= image.width && 0 <= y < image.height
  {
    HashOf(image.rows[y][x..x + width])
  }

  /** internalUpdateFromImage: overwrites the hashes from startIndex on with those of the rows of rect. */
  method UpdateColumn(data: seq<Hash>, image: Image, rect: Rect, startIndex: nat) returns (out: seq<Hash>)
    requires startIndex <= |data|
    requires rect.IsDefault() || (rect.IsValid() && image.Bounds().Contains(rect))
    ensures |out| == |data|
    ensures forall r :: 0 <= r < |data| ==>
              out[r] == if startIndex <= r < startIndex + (rect.bottom - rect.top + 1)
                        then RowHash(image, rect.left, rect.top + r - startIndex, (rect.right - rect.left + 1)) else data[r]
  {
    out := data;
    var limY := Min((rect.bottom - rect.top + 1), |data| - startIndex);
    for y := 0 to limY
      invariant |out| == |data|
      invariant forall r :: 0 <= r < |data| ==>
                  out[r] == if startIndex <= r < startIndex + y
                            then RowHash(image, rect.left, rect.top + r - startIndex, (rect.right - rect.left + 1)) else data[r]
    {
      var hash := EMPTY_HASH;
      ghost var row := image.rows[rect.top + y];
      for x := 0 to (rect.right - rect.left + 1)
        invariant hash == HashOf(row[rect.left..rect.left + x])
      {
        assert row[rect.left..rect.left + x + 1] == row[rect.left..rect.left + x] + [row[rect.left + x]];
        hash := hash.Add(image.At(rect.left + x, rect.top + y));
      }
      out := out[startIndex + y := hash];
    }
  }

  ghost predicate ColumnRefreshed(was: seq<Hash>, now: seq<Hash>, image: Image, rect: Rect, tw: int, c: int)
    requires |was| == image.height && 0 <= c <= image.width - tw && tw >= 1
  {
    |now| == |was| &&
    forall r :: 0 <= r < |was| ==> now[r] == if rect.top <= r <= rect.bottom then RowHash(image, c, r, tw) else was[r]
  }

  method RefreshColumn(column: seq<Hash>, image: Image, rect: Rect, tw: int, x: int) returns (updated: seq<Hash>)
    requires tw >= 1 && 0 <= x <= image.width - tw && |column| == image.height && rect.IsValid() && image.Bounds().Contains(rect)
    ensures ColumnRefreshed(column, updated, image, rect, tw, x)
  {
    hide *;
    ColumnInside(image, rect, tw, x);
    var template := RectAt(Point(x, rect.top), tw, (rect.bottom - rect.top + 1)).Intersected(image.Bounds());
    updated := UpdateColumn(column, image, template, rect.top);
    ColumnIsRefreshed(column, updated, image, rect, tw, x);
  }

  lemma ColumnInside(image: Image, rect: Rect, tw: int, x: int)
    requires tw >= 1 && 0 <= x <= image.width - tw && rect.IsValid() && image.Bounds().Contains(rect)
    ensures var column := RectAt(Point(x, rect.top), tw, rect.bottom - rect.top + 1);
            column.IsValid() && image.Bounds().IsValid() && column.Intersected(image.Bounds()) == Rect(x, rect.top, x + tw - 1, rect.bottom)
    ensures 0 <= rect.top <= rect.bottom < image.height && image.Bounds().Contains(Rect(x, rect.top, x + tw - 1, rect.bottom))
  {
  }

  lemma ColumnIsRefreshed(was: seq<Hash>, now: seq<Hash>, image: Image, rect: Rect, tw: int, x: int)
    requires |was| == |now| == image.height && tw >= 1 && 0 <= x <= image.width - tw && 0 <= rect.top <= rect.bottom < image.height
    requires forall r :: 0 <= r < |was| ==>
               now[r] == if rect.top <= r < rect.top + (rect.bottom - rect.top + 1)
                         then RowHash(image, x, rect.top + r - rect.top, (x + tw - 1 - x + 1)) else was[r]
    ensures ColumnRefreshed(was, now, image, rect, tw, x)
  {
    hide RowHash;
  }

  /** The column loop of updateFromImage over an index whose columns start at x = 0. */
  method RefreshColumns(columns: seq<seq<Hash>>, image: Image, rect: Rect, tw: int) returns (out: seq<seq<Hash>>)
    requires tw >= 1 && |columns| == image.width - tw + 1
    requires forall c :: 0 <= c < |columns| ==> |columns[c]| == image.height
    requires rect.IsDefault() || (rect.IsValid() && image.Bounds().Contains(rect))
    ensures |out| == |columns|
    ensures forall c :: 0 <= c < |columns| ==>
              if rect.left - tw + 1 <= c < rect.right then ColumnRefreshed(columns[c], out[c], image, rect, tw, c)
              else out[c] == columns[c]
  {
    hide ColumnRefreshed;
    out := columns;
    var leftLimit := Max(0, rect.left - tw + 1);
    var rightLimit := Min(image.width - tw + 1, rect.left + (rect.right - rect.left + 1) - 1);
    var x := leftLimit;
    while x < rightLimit
      invariant leftLimit <= x
      invariant |out| == |columns|
      invariant forall c :: 0 <= c < |columns| ==>
                  if rect.left - tw + 1 <= c < rect.right && c < x then ColumnRefreshed(columns[c], out[c], image, rect, tw, c)
                  else out[c] == columns[c]
    {
      var updated := RefreshColumn(out[x], image, rect, tw, x);
      out := out[x := updated];
      x := x + 1;
    }
  }

  /** AreaFingerPrints over a whole image: one column of row hashes for every template position. */
  class AreaFingerPrints {
    var width: int
    var height: int
    var columns: seq<seq<Hash>>
    var hashedArea: Rect

    ghost predicate Valid()
      reads this
    {
      && width == |columns| && height == (hashedArea.bottom - hashedArea.top + 1)
      && (forall c :: 0 <= c < |columns| ==> |columns[c]| == height)
      && hashedArea.left == 0 && hashedArea.top == 0
      && hashedArea.IsValid()
      && width <= (hashedArea.right - hashedArea.left + 1)
    }

    function TemplateWidth(): int
      reads this
    {
      (hashedArea.right - hashedArea.left + 1) - width + 1
    }

    /** The entry for column c and row r is the hash of the image there. */
    ghost predicate FreshAt(image: Image, c: int, r: int)
      requires Valid() && image.Bounds() == hashedArea
      requires 0 <= c < width && 0 <= r < height
      reads this
    {
      columns[c][r] == RowHash(image, c, r, TemplateWidth())
    }

    /** initFromImage with the rectangle of the whole image. */
    constructor InitFromImage(image: Image, templateWidth: int)
      requires templateWidth >= 1
      ensures Valid() && hashedArea == image.Bounds()
      ensures width == Max(0, image.width - templateWidth + 1)
      ensures templateWidth >= 2 ==>
                forall c, r :: 0 <= c < width && 0 <= r < height ==> FreshAt(image, c, r)
    {
      width := Max(0, image.width - templateWidth + 1);
      height := image.height;
      columns := seq(Max(0, image.width - templateWidth + 1), c => seq(image.height, r => EMPTY_HASH));
      hashedArea := image.Bounds();
      new;
      UpdateFromImage(image, hashedArea);
    }

    /** updateFromImage. A pixel of column area.right belongs to the templates that start there, too, but the
        refresh stops one column early; see RefreshMissesLastColumn. */
    method UpdateFromImage(image: Image, area: Rect)
      requires Valid() && image.Bounds() == hashedArea
      requires area.IsValid()
      modifies this
      ensures Valid() && hashedArea == old(hashedArea) && width == old(width) && height == old(height)
      ensures forall c, r :: 0 <= c < width && 0 <= r < height ==>
                if Refreshed(area.Intersected(image.Bounds()), TemplateWidth(), c, r) then FreshAt(image, c, r)
                else columns[c][r] == old(columns)[c][r]
    {
      var rect := hashedArea.Intersected(area.Intersected(image.Bounds()));
      ghost var was := columns;
      columns := RefreshColumns(columns, image, rect, TemplateWidth());
      assert forall c :: 0 <= c < width ==> |columns[c]| == height;
    }

    /** The column's first index does not exist, or the matcher refuses it; no other index of the column is tried. */
    ghost predicate Rejects(c: nat, needle: seq<Hash>, start: nat, end: int, imageBefore: Buffer, imageAfter: Buffer, templateRect: Rect)
      requires c < |columns| && templateRect.IsValid()
      reads this, imageBefore, imageAfter
    {
      exists i :: IsIndexOf(columns[c], needle, start, end, i) && (i <= -1 || !ClippedMatch(imageBefore, imageAfter, Point(c, i), templateRect))
    }

    /** The answer of findPosition: the first column of the search area whose first index the matcher accepts. */
    ghost predicate IsPosition(needle: seq<Hash>, searchArea: Rect, imageBefore: Buffer, imageAfter: Buffer, templateRect: Rect,
                               found: bool, result: Point)
      requires Valid() && searchArea.IsValid() && templateRect.IsValid()
      reads this, imageBefore, imageAfter
    {
      var rect := hashedArea.Intersected(searchArea);
      var end := rect.bottom + 1 - |needle|;
      var last := rect.right - TemplateWidth() + 1;
      if rect.bottom - rect.top + 1 < |needle| then !found
      else if found then
        && rect.left <= result.x <= last && result.y > -1
        && IsIndexOf(columns[result.x], needle, rect.top, end, result.y)
        && ClippedMatch(imageBefore, imageAfter, result, templateRect)
        && forall c :: rect.left <= c < result.x ==> Rejects(c, needle, rect.top, end, imageBefore, imageAfter, templateRect)
      else
        forall c :: rect.left <= c <= last ==> Rejects(c, needle, rect.top, end, imageBefore, imageAfter, templateRect)
    }

    /** findPosition over a search area. The matcher's comparison of pixels decides, never the hashes. */
    method FindPosition(needle: seq<Hash>, searchArea: Rect, imageBefore: Buffer, imageAfter: Buffer, templateRect: Rect)
      returns (found: bool, result: Point)
      requires Valid() && searchArea.IsValid() && templateRect.IsValid()
      ensures IsPosition(needle, searchArea, imageBefore, imageAfter, templateRect, found, result)
      ensures found ==> ClippedMatch(imageBefore, imageAfter, result, templateRect)
      ensures found ==> 0 <= result.x < width && 0 < |needle| && 0 <= result.y <= height - |needle|
    {
      hide IsIndexOf, ClippedMatch;
      var rect := hashedArea.Intersected(searchArea);
      result := Point(0, 0);
      if (rect.bottom - rect.top + 1) < |needle| {
        return false, result;
      }
      var tempWidth := TemplateWidth();
      rect := rect.(right := rect.left + ((rect.right - rect.left + 1) - tempWidth + 1) - 1);
      rect := rect.Translated(Point(-hashedArea.left, -hashedArea.top));
      var startIndex := rect.top;
      var endIndex := rect.bottom + 1 - |needle|;
      var column := rect.left;
      while column < rect.right + 1
        invariant rect.left <= column
        invariant forall c :: rect.left <= c < column && c <= rect.right ==>
                    Rejects(c, needle, startIndex, endIndex, imageBefore, imageAfter, templateRect)
      {
        var index := IndexOf(columns[column], needle, startIndex, endIndex);
        if index > -1 {
          result := Point(column, index);
          var matches := ContentMatches(imageBefore, imageAfter, result, templateRect);
          if matches {
            return true, result;
          }
        }
        column := column + 1;
      }
      return false, result;
    }
  }

  /** The entries that updateFromImage recomputes for a changed rectangle. */
  predicate Refreshed(rect: Rect, templateWidth: int, c: int, r: int) {
    rect.left - templateWidth + 1 <= c < rect.right && rect.top <= r <= rect.bottom
  }

  /** A pixel of the areas lies in the row of the entry, behind its first column. */
  predicate Touched(areas: seq<Rect>, templateWidth: int, c: int, r: int) {
    exists x :: c < x < c + templateWidth && Covered(areas, x, r)
  }

  lemma RefreshedIsTouched(area: Rect, image: Image, templateWidth: int, c: int, r: int)
    requires area.IsValid() && templateWidth >= 2 && 0 <= c <= image.width - templateWidth && 0 <= r < image.height
    ensures Refreshed(area.Intersected(image.Bounds()), templateWidth, c, r) <==> exists x :: c < x < c + templateWidth && area.Has(x, r)
  {
    var rect := area.Intersected(image.Bounds());
    if Refreshed(rect, templateWidth, c, r) {
      assert area.Has(Max(rect.left, c + 1), r);
    }
    if x :| c < x < c + templateWidth && area.Has(x, r) {
      assert rect.Has(x, r);
    }
  }

  lemma TouchedAppend(areas: seq<Rect>, area: Rect, templateWidth: int, c: int, r: int)
    ensures Touched(areas + [area], templateWidth, c, r) <==>
            Touched(areas, templateWidth, c, r) || exists x :: c < x < c + templateWidth && area.Has(x, r)
  {
    CoveredAppend(areas, area);
  }

  /** The index for an image after areas of the image were hashed again. */
  ghost predicate Rehashed(was: seq<seq<Hash>>, now: seq<seq<Hash>>, image: Image, templateWidth: nat, areas: seq<Rect>) {
    && |now| == |was| && |was| <= Max(0, image.width - templateWidth + 1)
    && forall c, r :: 0 <= c < |was| && 0 <= r < image.height ==> RehashedAt(was, now, image, templateWidth, areas, c, r)
  }

  predicate RehashedAt(was: seq<seq<Hash>>, now: seq<seq<Hash>>, image: Image, templateWidth: nat, areas: seq<Rect>, c: int, r: int)
    requires |now| == |was| && 0 <= c < |was| && c + templateWidth <= image.width && 0 <= r < image.height
  {
    && |was[c]| == |now[c]| == image.height
    && now[c][r] == if Touched(areas, templateWidth, c, r) then RowHash(image, c, r, templateWidth) else was[c][r]
  }

  lemma SamePixelsRehashed(was: seq<seq<Hash>>, now: seq<seq<Hash>>, image: Image, templateWidth: nat, a: seq<Rect>, b: seq<Rect>)
    requires forall p: Point :: Covered(a, p.x, p.y) <==> Covered(b, p.x, p.y)
    ensures Rehashed(was, now, image, templateWidth, a) ==> Rehashed(was, now, image, templateWidth, b)
  {
    hide Covered, RowHash;
    if Rehashed(was, now, image, templateWidth, a) {
      forall c, r | 0 <= c < |was| && 0 <= r < image.height ensures RehashedAt(was, now, image, templateWidth, b, c, r) {
        assert RehashedAt(was, now, image, templateWidth, a, c, r);
        SamePixelsTouched(a, b, templateWidth, c, r);
      }
    }
  }

  lemma SamePixelsTouched(a: seq<Rect>, b: seq<Rect>, templateWidth: int, c: int, r: int)
    requires forall p: Point :: Covered(a, p.x, p.y) <==> Covered(b, p.x, p.y)
    ensures Touched(a, templateWidth, c, r) <==> Touched(b, templateWidth, c, r)
  {
    hide Covered;
    forall x ensures Covered(a, x, r) <==> Covered(b, x, r) {
      assert Covered(a, Point(x, r).x, Point(x, r).y) <==> Covered(b, Point(x, r).x, Point(x, r).y);
    }
  }

  lemma NothingRehashed(was: seq<seq<Hash>>, image: Image, templateWidth: nat)
    requires |was| <= Max(0, image.width - templateWidth + 1) && forall c :: 0 <= c < |was| ==> |was[c]| == image.height
    ensures Rehashed(was, was, image, templateWidth, [])
  {
  }

  lemma RehashedAlso(was: seq<seq<Hash>>, mid: seq<seq<Hash>>, now: seq<seq<Hash>>, image: Image, templateWidth: nat, areas: seq<Rect>, area: Rect)
    requires templateWidth >= 2 && area.IsValid() && Rehashed(was, mid, image, templateWidth, areas) && |now| == |mid|
    requires forall c, r :: 0 <= c < |now| && 0 <= r < image.height ==>
               && |now[c]| == |mid[c]| == image.height
               && now[c][r] == if Refreshed(area.Intersected(image.Bounds()), templateWidth, c, r) then RowHash(image, c, r, templateWidth)
                               else mid[c][r]
    ensures Rehashed(was, now, image, templateWidth, areas + [area])
  {
    hide RowHash, Refreshed, Touched;
    forall c, r | 0 <= c < |was| && 0 <= r < image.height ensures RehashedAt(was, now, image, templateWidth, areas + [area], c, r) {
      assert RehashedAt(was, mid, image, templateWidth, areas, c, r);
      RefreshedIsTouched(area, image, templateWidth, c, r);
      TouchedAppend(areas, area, templateWidth, c, r);
    }
  }

  /** A hash depends on nothing but its own pixels. */
  lemma RowHashDepends(a: Image, b: Image, x: int, y: int, width: nat)
    requires 0 <= x && x + width <= a.width && 0 <= y < a.height && a.SameSize(b)
    requires forall u :: x <= u < x + width ==> a.At(u, y) == b.At(u, y)
    ensures RowHash(a, x, y, width) == RowHash(b, x, y, width)
  {
    var s, t := a.rows[y][x..x + width], b.rows[y][x..x + width];
    forall i | 0 <= i < width ensures s[i] == t[i] {
      assert a.At(x + i, y) == b.At(x + i, y);
    }
    assert s == t;
  }

  /** A change of images of a given size inside a rectangle. */
  ghost predicate ChangedWithin(was: Image, now: Image, size: Image, changed: Rect) {
    && was.SameSize(size) && now.SameSize(size)
    && forall x, y :: Differs(was, now, x, y) ==> changed.Has(x, y)
  }

  /** The entry for column c and row r is the same before and after every change inside the rectangle. */
  ghost predicate StaysRight(size: Image, changed: Rect, templateWidth: nat, c: int, r: int)
    requires 0 <= c <= size.width - templateWidth && 0 <= r < size.height
  {
    forall was: Image, now: Image :: ChangedWithin(was, now, size, changed) ==>
                                       RowHash(was, c, r, templateWidth) == RowHash(now, c, r, templateWidth)
  }

  /** The entries that start in the last changed column. */
  predicate InLastColumn(changed: Rect, c: int, r: int) {
    c == changed.right && changed.top <= r <= changed.bottom
  }

  /** The entries that the refresh leaves alone stay right, except those that start in the last changed column. */
  lemma UntouchedEntryStaysRight(was: Image, now: Image, size: Image, changed: Rect, templateWidth: nat, c: int, r: int)
    requires ChangedWithin(was, now, size, changed)
    requires templateWidth >= 1 && 0 <= c <= size.width - templateWidth && 0 <= r < size.height
    requires !Refreshed(changed, templateWidth, c, r) && !InLastColumn(changed, c, r)
    ensures RowHash(was, c, r, templateWidth) == RowHash(now, c, r, templateWidth)
  {
    forall u | c <= u < c + templateWidth ensures was.At(u, r) == now.At(u, r) {
      assert Differs(was, now, u, r) || was.At(u, r) == now.At(u, r);
    }
    RowHashDepends(was, now, c, r, templateWidth);
  }

  function Total(pixels: seq<Pixel>): nat {
    if pixels == [] then 0 else Total(pixels[..|pixels| - 1]) + pixels[|pixels| - 1]
  }

  lemma SumWraps(a: nat, b: nat)
    ensures (a % 0x1_0000_0000 + b) % 0x1_0000_0000 == (a + b) % 0x1_0000_0000
  {
  }

  /** The hash is the sum of the pixels modulo 2 to the power of 32, in which their order is lost. */
  lemma {:induction false} HashIsTotal(pixels: seq<Pixel>)
    ensures HashOf(pixels).hash == Total(pixels) % 0x1_0000_0000
  {
    if pixels != [] {
      var n := |pixels| - 1;
      HashIsTotal(pixels[..n]);
      SumWraps(Total(pixels[..n]), pixels[n]);
    }
  }

  /** The average halves with every pixel. */
  lemma AverageHalves(pixels: seq<Pixel>, pixel: Pixel)
    ensures 2 * HashOf(pixels + [pixel]).average <= (HashOf(pixels).average + pixel) % 0x1_0000_0000 <= 2 * HashOf(pixels + [pixel]).average + 1
  {
    assert (pixels + [pixel])[..|pixels|] == pixels;
  }

  lemma {:induction false} ZerosHash(pixels: seq<Pixel>)
    requires forall i :: 0 <= i < |pixels| ==> pixels[i] == 0
    ensures HashOf(pixels) == EMPTY_HASH
  {
    if pixels != [] {
      ZerosHash(pixels[..|pixels| - 1]);
    }
  }

  lemma {:induction false} LeadingOneHashes(pixels: seq<Pixel>)
    requires pixels != [] && pixels[0] == 1 && forall i :: 1 <= i < |pixels| ==> pixels[i] == 0
    ensures HashOf(pixels).hash == 1
  {
    if |pixels| > 1 {
      LeadingOneHashes(pixels[..|pixels| - 1]);
    } else {
      ZerosHash(pixels[..0]);
    }
  }

  /** An image with a single pixel that is not zero. */
  function Dot(size: Image, c: int, r: int, pixel: Pixel): (i: Image)
    ensures i.SameSize(size)
    ensures forall x, y :: i.Has(x, y) ==> i.At(x, y) == if x == c && y == r then pixel else 0
  {
    Make(size.width, size.height, (x, y) => if x == c && y == r then pixel else 0)
  }

  lemma DotHash(size: Image, c: int, r: int, templateWidth: nat)
    requires templateWidth >= 1 && 0 <= c <= size.width - templateWidth && 0 <= r < size.height
    ensures RowHash(Dot(size, c, r, 0), c, r, templateWidth) != RowHash(Dot(size, c, r, 1), c, r, templateWidth)
  {
    hide Dot, HashOf;
    var was, now := Dot(size, c, r, 0), Dot(size, c, r, 1);
    var zeros, one := was.rows[r][c..c + templateWidth], now.rows[r][c..c + templateWidth];
    forall i | 0 <= i < templateWidth ensures zeros[i] == 0 && one[i] == if i == 0 then 1 else 0 {
      assert zeros[i] == was.At(c + i, r) && one[i] == now.At(c + i, r);
    }
    ZerosHash(zeros);
    LeadingOneHashes(one);
  }

  /** A change of the pixel at which an entry of the last changed column starts goes unnoticed. */
  lemma LastColumnGoesStale(size: Image, changed: Rect, templateWidth: nat, c: int, r: int)
    requires templateWidth >= 1 && 0 <= c <= size.width - templateWidth && 0 <= r < size.height
    requires changed.IsValid() && InLastColumn(changed, c, r)
    ensures !StaysRight(size, changed, templateWidth, c, r)
  {
    hide Dot, RowHash;
    DotHash(size, c, r, templateWidth);
    assert ChangedWithin(Dot(size, c, r, 0), Dot(size, c, r, 1), size, changed);
  }

  /** The index after an image has changed inside a rectangle, and the rectangle was refreshed: an entry is right,
      whatever the change was, exactly when it was refreshed or does not start in the last changed column. */
  lemma RefreshMissesLastColumn(size: Image, changed: Rect, templateWidth: nat, c: int, r: int)
    requires templateWidth >= 1 && 0 <= c <= size.width - templateWidth && 0 <= r < size.height && changed.IsValid()
    ensures Refreshed(changed, templateWidth, c, r) || StaysRight(size, changed, templateWidth, c, r)
            <==> Refreshed(changed, templateWidth, c, r) || !InLastColumn(changed, c, r)
  {
    if InLastColumn(changed, c, r) {
      LastColumnGoesStale(size, changed, templateWidth, c, r);
    } else if !Refreshed(changed, templateWidth, c, r) {
      forall was: Image, now: Image | ChangedWithin(was, now, size, changed)
        ensures RowHash(was, c, r, templateWidth) == RowHash(now, c, r, templateWidth)
      {
        UntouchedEntryStaysRight(was, now, size, changed, templateWidth, c, r);
      }
    }
  }
}
