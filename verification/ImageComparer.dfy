/** src/display/comparer/imagecomparer.h and .cpp: the encoder, from two images to update operations. */
module ImageComparers {
  import opened Geometry
  import opened Images
  import opened ImageAux
  import opened OpTools
  import opened Tiles
  import opened Canvas
  import opened MoveAnalyzers
  import opened Sequences

  datatype ComparerSettings = ComparerSettings(
    tileWidth: int,
    useMultithreading: bool,
    minifyTiles: bool,
    minifyTileCountThreshold: int,
    analyzeFills: bool,
    analyzeMoves: bool,
    fineGrainedMoves: bool)
  {
    predicate Usable() { tileWidth >= (if fineGrainedMoves then 2 else 1) }

    function MoveTileWidth(): int { if fineGrainedMoves then tileWidth / 2 else tileWidth }

    /** Moves are searched tile by tile, when a tile has not got one colour. */
    predicate MovesWholeTiles() { analyzeMoves && !fineGrainedMoves }

    predicate Minifies(tiles: nat) { minifyTiles && (minifyTileCountThreshold == -1 || tiles <= minifyTileCountThreshold) }
  }

  const DEFAULT_SETTINGS := ComparerSettings(32, true, true, 10, true, false, false)

  /** The operation writes only right pixels. */
  ghost predicate OpSound(op: UpdateOperation, before: Image, after: Image) {
    !op.kind.NoOp? && forall w :: op.Writes(w) ==> WriteSound(w, before, after)
  }

  ghost predicate OpWritesTo(op: UpdateOperation, x: int, y: int) {
    exists w :: op.Writes(w) && w.dst == Point(x, y)
  }

  /** The operation writes nothing outside the area. */
  ghost predicate OpWithin(op: UpdateOperation, area: Rect) {
    forall w :: op.Writes(w) ==> area.Has(w.dst.x, w.dst.y)
  }

  ghost predicate OpsWithin(ops: seq<UpdateOperation>, areas: seq<Rect>) {
    forall w :: ListWrites(ops, w) ==> Covered(areas, w.dst.x, w.dst.y)
  }

  lemma FillIsSound(op: UpdateOperation, before: Image, after: Image)
    requires op.kind.Fill?
    requires forall x, y :: op.srcRect.Has(x, y) && after.Has(x, y) ==> after.At(x, y) == op.fillColor
    ensures OpSound(op, before, after)
    ensures forall x, y :: op.srcRect.Has(x, y) ==> OpWritesTo(op, x, y)
  {
    forall x, y | op.srcRect.Has(x, y) ensures OpWritesTo(op, x, y) {
      assert op.Writes(SetColor(Point(x, y), op.fillColor));
    }
  }

  lemma UpdateIsSound(op: UpdateOperation, before: Image, after: Image)
    requires op.kind.Update? && op.dstPoint == op.srcRect.TopLeft()
    ensures OpSound(op, before, after)
    ensures forall x, y :: op.srcRect.Has(x, y) ==> OpWritesTo(op, x, y)
  {
    forall x, y | op.srcRect.Has(x, y) ensures OpWritesTo(op, x, y) {
      assert op.Writes(Copy(Update, Point(x, y), Point(x, y)));
    }
  }

  lemma MoveIsSound(op: UpdateOperation, before: Image, after: Image)
    requires op.kind.Move?
    requires ExactMove(before, after, op.srcRect, RectAt(op.dstPoint, (op.srcRect.right - op.srcRect.left + 1), (op.srcRect.bottom - op.srcRect.top + 1)))
    ensures OpSound(op, before, after)
    ensures forall x, y :: RectAt(op.dstPoint, (op.srcRect.right - op.srcRect.left + 1), (op.srcRect.bottom - op.srcRect.top + 1)).Has(x, y) ==>
                             OpWritesTo(op, x, y)
    ensures OpWithin(op, RectAt(op.dstPoint, (op.srcRect.right - op.srcRect.left + 1), (op.srcRect.bottom - op.srcRect.top + 1)))
  {
    var dst := RectAt(op.dstPoint, (op.srcRect.right - op.srcRect.left + 1), (op.srcRect.bottom - op.srcRect.top + 1));
    forall w | op.Writes(w) ensures WriteSound(w, before, after) {
      assert dst.Has(w.dst.x, w.dst.y);
      if after.Has(w.dst.x, w.dst.y) {
        assert MovedPixel(before, after, op.srcRect.TopLeft().Minus(dst.TopLeft()), w.dst.x, w.dst.y);
      }
    }
    forall x, y | dst.Has(x, y) ensures OpWritesTo(op, x, y) {
      var w := Copy(Move, Point(x, y), Point(x, y).Plus(op.Vector()));
      assert op.Writes(w);
    }
  }

  /** Every differing pixel that the tiles cover still has its tile to come or is written already. */
  ghost predicate Progress(tiles: seq<Rect>, rest: seq<Rect>, ops: seq<UpdateOperation>, before: Image, after: Image) {
    && OpsSound(ops, before, after)
    && forall x, y :: Covered(tiles, x, y) && Differs(before, after, x, y) ==> Covered(rest, x, y) || WritesTo(ops, x, y)
  }

  lemma WritesToAppend(ops: seq<UpdateOperation>, op: UpdateOperation)
    ensures forall x, y :: WritesTo(ops, x, y) || OpWritesTo(op, x, y) ==> WritesTo(ops + [op], x, y)
    ensures forall w :: ListWrites(ops + [op], w) <==> ListWrites(ops, w) || op.Writes(w)
  {
    WritesConcat(ops, [op]);
    Single(op);
    forall x, y | WritesTo(ops, x, y) || OpWritesTo(op, x, y) ensures WritesTo(ops + [op], x, y) {
      if WritesTo(ops, x, y) {
        var w :| ListWrites(ops, w) && w.dst == Point(x, y);
        assert ListWrites(ops + [op], w);
      } else {
        var w :| op.Writes(w) && w.dst == Point(x, y);
        assert ListWrites(ops + [op], w);
      }
    }
  }

  /** Processing any one of the remaining tiles keeps the progress. */
  lemma ProgressStep(tiles: seq<Rect>, rest: seq<Rect>, i: nat, ops: seq<UpdateOperation>, emit: bool, op: UpdateOperation,
                     before: Image, after: Image)
    requires i < |rest| && Progress(tiles, rest, ops, before, after)
    requires emit ==> OpSound(op, before, after)
    requires forall x, y :: rest[i].Has(x, y) && Differs(before, after, x, y) ==> emit && OpWritesTo(op, x, y)
    ensures Progress(tiles, rest[..i] + rest[i + 1..], if emit then ops + [op] else ops, before, after)
  {
    WritesToAppend(ops, op);
    var less := rest[..i] + rest[i + 1..];
    forall x, y | Covered(rest, x, y) && !rest[i].Has(x, y) ensures Covered(less, x, y) {
      var r :| r in rest && r.Has(x, y);
      var j :| 0 <= j < |rest| && rest[j] == r;
      assert r == less[if j < i then j else j - 1];
    }
  }

  ghost predicate CoverOnlyDifferences(rects: seq<Rect>, before: Image, after: Image) {
    forall x, y :: Covered(rects, x, y) ==> Differs(before, after, x, y)
  }

  lemma ExactCoverIsInside(rects: seq<Rect>, before: Image, after: Image)
    requires AllValid(rects) && CoverOnlyDifferences(rects, before, after)
    ensures AllInside(rects, after)
  {
    forall r | r in rects ensures after.Bounds().Contains(r) {
      assert Covered(rects, r.left, r.top) && Covered(rects, r.right, r.bottom);
    }
  }

  lemma WithinIsThrifty(ops: seq<UpdateOperation>, rects: seq<Rect>, before: Image, after: Image)
    requires OpsWithin(ops, rects) && CoverOnlyDifferences(rects, before, after)
    ensures Thrifty(ops, before, after)
  {
  }

  /** A difference less than two tiles away. */
  ghost predicate IsClose(before: Image, after: Image, tileWidth: int, p: Point) {
    exists u, v :: Differs(before, after, u, v) && p.x - 2 * tileWidth < u < p.x + 2 * tileWidth && p.y - 2 * tileWidth < v < p.y + 2 * tileWidth
  }

  ghost predicate StaysClose(before: Image, after: Image, tileWidth: int, region: Region) {
    forall p :: p in region ==> IsClose(before, after, tileWidth, p)
  }

  /** Damage that has its reasons: none without a difference, and with tiles of one pixel only differences. */
  ghost predicate IsJustified(before: Image, after: Image, tileWidth: int, region: Region) {
    && (before == after ==> region == {})
    && (tileWidth == 1 ==> OnlyDifferences(before, after, region))
    && StaysClose(before, after, tileWidth, region)
  }

  ghost predicate OnlyDifferences(before: Image, after: Image, region: Region) {
    forall p :: p in region ==> Differs(before, after, p.x, p.y)
  }

  ghost predicate AllInside(rects: seq<Rect>, image: Image) {
    forall r :: r in rects ==> image.Bounds().Contains(r)
  }

  lemma WithinAppend(ops: seq<UpdateOperation>, op: UpdateOperation, areas: seq<Rect>, area: Rect)
    requires area in areas
    ensures OpsWithin(ops, areas) && OpWithin(op, area) ==> OpsWithin(ops + [op], areas)
  {
    WritesToAppend(ops, op);
  }

  lemma StillAppend(ops: seq<UpdateOperation>, op: UpdateOperation)
    ensures MovesNothing(ops) && !op.kind.Move? ==> MovesNothing(ops + [op])
  {
    WritesToAppend(ops, op);
  }

  lemma WithinParts(ops: seq<UpdateOperation>, parts: seq<Rect>, area: Rect)
    requires OpsWithin(ops, parts) && forall t :: t in parts ==> area.Contains(t)
    ensures OpsWithin(ops, [area])
  {
    forall w | ListWrites(ops, w) ensures Covered([area], w.dst.x, w.dst.y) {
      var t :| t in parts && t.Has(w.dst.x, w.dst.y);
      assert area in [area];
    }
  }

  ghost predicate ContainsDifferences(before: Image, after: Image, region: Region, area: Rect) {
    forall u, v :: area.Has(u, v) && Differs(before, after, u, v) ==> Point(u, v) in region
  }

  lemma NothingIsProcessed(tiles: seq<Rect>, ops: seq<UpdateOperation>, drawing: Drawing)
    requires OpsSound(ops, drawing.before, drawing.after)
    ensures Progress(tiles, tiles, ops, drawing.before, drawing.after) && drawing.DrawsSoFar([], tiles, tiles) && ops == ops + []
    ensures IsProcessed(drawing, [], tiles, tiles)
    ensures ops == [] ==> OpsWithin(ops, tiles) && MovesNothing(ops)
  {
    Neutral(ops);
  }

  /** The tiles before the rest are drawn in their order. */
  ghost predicate IsProcessed(drawing: Drawing, drawn: seq<UpdateOperation>, tiles: seq<Rect>, rest: seq<Rect>) {
    |rest| <= |tiles| && rest == tiles[|tiles| - |rest|..] && drawing.DrawsInOrder(drawn, tiles[..|tiles| - |rest|])
  }

  lemma FirstIsProcessed(drawing: Drawing, drawn: seq<UpdateOperation>, tiles: seq<Rect>, rest: seq<Rect>, emit: bool, op: UpdateOperation, still: bool)
    requires rest != [] && IsProcessed(drawing, drawn, tiles, rest) && (still ==> drawing.sure)
    requires emit <==> IsChanged(drawing.before, drawing.after, rest[0])
    requires emit ==> drawing.(sure := still).DrawsTile(op, rest[0])
    ensures IsProcessed(drawing.(sure := still), if emit then drawn + [op] else drawn, tiles, rest[..0] + rest[1..])
  {
    hide Drawing.DrawsInOrder, Drawing.DrawsTile, IsChanged;
    var n := |tiles| - |rest|;
    drawing.DrawsNext(drawn, tiles[..n], rest[0], emit, op, still);
    assert tiles[..n] + [rest[0]] == tiles[..n + 1];
    assert rest[..0] + rest[1..] == rest[1..] == tiles[n + 1..];
  }

  lemma AllIsProcessed(tiles: seq<Rect>, ops: seq<UpdateOperation>, drawn: seq<UpdateOperation>, result: seq<UpdateOperation>, drawing: Drawing,
                       inOrder: bool)
    requires inOrder ==> IsProcessed(drawing, drawn, tiles, [])
    requires result == ops + drawn && Progress(tiles, [], result, drawing.before, drawing.after) && drawing.DrawsSoFar(drawn, tiles, [])
    ensures ops <= result && (inOrder ==> drawing.DrawsInOrder(result[|ops|..], tiles))
    ensures drawing.DrawsAll(result[|ops|..], tiles) && OpsSound(result, drawing.before, drawing.after)
    ensures forall x, y :: Covered(tiles, x, y) && Differs(drawing.before, drawing.after, x, y) ==> WritesTo(result, x, y)
  {
    assert result[|ops|..] == drawn;
    assert tiles[..|tiles|] == tiles;
  }

  lemma TileIsValid(tiles: seq<Rect>, tile: Rect)
    requires AllValid(tiles) && tile in tiles
    ensures tile.IsValid()
  {
  }

  lemma KindsAppend(ops: seq<UpdateOperation>, op: UpdateOperation, tiles: seq<Rect>, tile: Rect, after: Image)
    requires tile in tiles && (after.Bounds().Contains(tile) ==> OpWithin(op, tile))
    ensures OpsWithin(ops, tiles) && AllInside(tiles, after) ==> OpsWithin(ops + [op], tiles)
    ensures MovesNothing(ops) && !op.kind.Move? ==> MovesNothing(ops + [op])
  {
    WithinAppend(ops, op, tiles, tile);
    StillAppend(ops, op);
  }

  lemma NothingIsDrawn(settings: ComparerSettings, before: Image, after: Image, searchArea: Rect, box: Rect, radius: nat, sure: bool)
    requires searchArea.IsValid() && IsChangedRect(before, after, searchArea, box) && box.IsEmpty()
    ensures IsDrawn([], settings, before, after, searchArea, radius, sure) && OpsSound([], before, after)
    ensures OpsWithin([], [searchArea]) && MovesNothing([])
  {
  }

  lemma MinifiedBySettings(settings: ComparerSettings, tiles: nat, minified: bool)
    requires minified == (settings.minifyTiles && (settings.minifyTileCountThreshold == -1 || tiles <= settings.minifyTileCountThreshold))
    ensures minified == settings.Minifies(tiles)
  {
  }

  lemma TilesAreDrawn(result: seq<UpdateOperation>, settings: ComparerSettings, before: Image, after: Image, searchArea: Rect, box: Rect,
                      ops: seq<UpdateOperation>, tiles: seq<Rect>, radius: nat, sure: bool, still: bool)
    requires searchArea.IsValid() && IsChangedRect(before, after, searchArea, box) && !box.IsEmpty() && (still ==> sure)
    requires IsTiled(settings, before, after, box, ops, tiles, radius, sure) && ops <= result
    requires Drawing(settings, before, after, settings.Minifies(|tiles|), radius, still).DrawsAll(result[|ops|..], tiles)
    ensures IsDrawn(result, settings, before, after, searchArea, radius, still)
  {
    hide IsChangedRect, IsTiling, CopiesMoved, MovedTo, Covered;
    assert IsTiled(settings, before, after, box, ops, tiles, radius, still);
  }

  lemma TilesStayInside(tiles: seq<Rect>, box: Rect, searchArea: Rect, after: Image)
    requires searchArea.Contains(box) && after.Bounds().Contains(searchArea) && forall t :: t in tiles ==> box.Contains(t)
    ensures AllInside(tiles, after) && forall t :: t in tiles ==> searchArea.Contains(t)
  {
  }

  lemma AllIsWritten(area: Rect, box: Rect, tiles: seq<Rect>, ops: seq<UpdateOperation>, result: seq<UpdateOperation>, before: Image, after: Image)
    requires forall x, y :: area.Has(x, y) && Differs(before, after, x, y) ==> box.Has(x, y) && box.IsValid()
    requires forall x, y :: box.Has(x, y) ==> Covered(tiles, x, y) || WritesTo(ops, x, y)
    requires forall x, y :: Covered(tiles, x, y) && Differs(before, after, x, y) ==> WritesTo(result, x, y)
    requires ops <= result
    ensures forall x, y :: area.Has(x, y) && Differs(before, after, x, y) ==> WritesTo(result, x, y)
  {
    hide Differs, Covered;
    forall x, y | area.Has(x, y) && Differs(before, after, x, y) ensures WritesTo(result, x, y) {
      if WritesTo(ops, x, y) {
        var w :| ListWrites(ops, w) && w.dst == Point(x, y);
        var op :| op in ops && op.Writes(w);
        assert op in result;
      }
    }
  }

  ghost predicate NoFills(ops: seq<UpdateOperation>) { forall w :: ListWrites(ops, w) ==> !w.SetColor? }

  ghost predicate OnlyFills(ops: seq<UpdateOperation>) { forall w :: ListWrites(ops, w) ==> w.SetColor? }

  /** What the settings allow, and what they ask for: fills only when they are analyzed; and then, with no fine-grained moves
      before them, an image of one colour is sent as fills. */
  ghost predicate FillsAsAsked(ops: seq<UpdateOperation>, settings: ComparerSettings, after: Image) {
    && (!settings.analyzeFills ==> NoFills(ops))
    && (settings.analyzeFills && !(settings.analyzeMoves && settings.fineGrainedMoves) && HasOneColour(after, after.Bounds()) ==> OnlyFills(ops))
  }

  lemma DrawnFillsAsAsked(result: seq<UpdateOperation>, settings: ComparerSettings, before: Image, after: Image, searchArea: Rect,
                          radius: nat, sure: bool)
    requires searchArea.IsValid() && IsDrawn(result, settings, before, after, searchArea, radius, sure)
    ensures FillsAsAsked(result, settings, after)
  {
    hide IsTiled, Drawing.DrawsAll, IsChangedRect, FillsAsAsked, KindAsAsked, ComparerSettings.Minifies;
    var box :| IsChangedRect(before, after, searchArea, box) &&
    if box.IsEmpty() then result == []
    else
      exists ops, tiles ::
        && ops <= result && IsTiled(settings, before, after, box, ops, tiles, radius, sure)
        && Drawing(settings, before, after, settings.Minifies(|tiles|), radius, sure).DrawsAll(result[|ops|..], tiles);
    if box.IsEmpty() {
      KindsFill(result, settings, after);
    } else {
      var ops, tiles :| && ops <= result && IsTiled(settings, before, after, box, ops, tiles, radius, sure)
      && Drawing(settings, before, after, settings.Minifies(|tiles|), radius, sure).DrawsAll(result[|ops|..], tiles);
      var drawing := Drawing(settings, before, after, settings.Minifies(|tiles|), radius, sure);
      assert result == ops + result[|ops|..];
      forall op | op in result ensures KindAsAsked(op, settings, after) {
        if op in ops {
          MovesFill(settings, before, after, box, ops, tiles, radius, sure, op);
        } else {
          drawing.DrawnKind(result[|ops|..], tiles, op);
        }
      }
      KindsFill(result, settings, after);
    }
  }

  /** FillsAsAsked for one operation. */
  ghost predicate KindAsAsked(op: UpdateOperation, settings: ComparerSettings, after: Image) {
    && (!settings.analyzeFills ==> !op.kind.Fill?)
    && (settings.analyzeFills && !(settings.analyzeMoves && settings.fineGrainedMoves) && HasOneColour(after, after.Bounds()) ==> op.kind.Fill?)
  }

  lemma KindsFill(ops: seq<UpdateOperation>, settings: ComparerSettings, after: Image)
    requires forall op :: op in ops ==> KindAsAsked(op, settings, after)
    ensures FillsAsAsked(ops, settings, after)
  {
  }

  lemma MovesFill(settings: ComparerSettings, before: Image, after: Image, box: Rect, ops: seq<UpdateOperation>, tiles: seq<Rect>,
                  radius: nat, sure: bool, op: UpdateOperation)
    requires IsTiled(settings, before, after, box, ops, tiles, radius, sure) && op in ops
    ensures KindAsAsked(op, settings, after)
  {
    hide IsTiling, CopiesMoved, MovedTo, Covered;
  }

  lemma OneColourEverywhere(image: Image, area: Rect)
    requires HasOneColour(image, image.Bounds())
    ensures HasOneColour(image, area)
  {
    var color :| IsSolid(image, image.Bounds(), color);
    assert IsSolid(image, area, color);
  }

  lemma TileIsDrawn(drawing: Drawing, op: UpdateOperation, tile: Rect, box: Rect)
    requires tile.IsValid() && IsChangedRect(drawing.before, drawing.after, tile, box) && box.IsValid()
    requires Draws(op, drawing.settings, drawing.before, drawing.after, tile, if drawing.minified then box else tile, drawing.radius, drawing.sure)
    ensures drawing.DrawsTile(op, tile) && (!drawing.settings.analyzeMoves ==> !op.kind.Move?)
  {
    hide IsChangedRect, HasCopy, ExactMove, IsSolid, HasOneColour;
    assert Changes(drawing.before, drawing.after, tile, box);
  }

  lemma FillIsRight(op: UpdateOperation, before: Image, after: Image, tile: Rect, area: Rect)
    requires op.kind.Fill? && op.srcRect == area && IsSolid(after, area, op.fillColor)
    ensures OpSound(op, before, after)
    ensures forall x, y :: tile.Has(x, y) && area.Has(x, y) ==> OpWritesTo(op, x, y)
    ensures tile.Contains(area) ==> OpWithin(op, tile)
  {
    FillIsSound(op, before, after);
  }

  lemma UpdateIsRight(op: UpdateOperation, before: Image, after: Image, tile: Rect, area: Rect)
    requires op.kind.Update? && op.srcRect == area && op.dstPoint == area.TopLeft()
    ensures OpSound(op, before, after)
    ensures forall x, y :: tile.Has(x, y) && area.Has(x, y) ==> OpWritesTo(op, x, y)
    ensures tile.Contains(area) ==> OpWithin(op, tile)
  {
    UpdateIsSound(op, before, after);
  }

  lemma SourceIsRight(op: UpdateOperation, before: Image, after: Image, tile: Rect)
    requires op.kind.Move? && op.dstPoint == tile.TopLeft() && op.srcRect.IsValid() && tile.IsValid()
    requires ExactMove(before, after, op.srcRect, tile)
    ensures OpSound(op, before, after) && OpWithin(op, tile) && forall x, y :: tile.Has(x, y) ==> OpWritesTo(op, x, y)
  {
    assert RectAt(op.dstPoint, (op.srcRect.right - op.srcRect.left + 1), (op.srcRect.bottom - op.srcRect.top + 1)) == tile;
    MoveIsSound(op, before, after);
  }

  // ---------- which operation draws what

  /** The operation draws a tile: area is what is drawn of it unless it is moved. A fill comes before a move, and a move
      before an update; with a sure search, a tile that has a copy in its surroundings is not sent as an update. */
  ghost predicate Draws(op: UpdateOperation, settings: ComparerSettings, before: Image, after: Image, tile: Rect, area: Rect,
                        radius: nat, sure: bool)
  {
    match op.kind
    case Fill => settings.analyzeFills && op.srcRect == area && op.dstPoint == area.TopLeft() && IsSolid(after, area, op.fillColor)
    case Move =>
      && !(settings.analyzeFills && HasOneColour(after, area)) && settings.MovesWholeTiles()
      && op.dstPoint == tile.TopLeft() && ExactMove(before, after, op.srcRect, tile)
    case Update =>
      && !(settings.analyzeFills && HasOneColour(after, area)) && op.srcRect == area && op.dstPoint == area.TopLeft()
      && !(settings.MovesWholeTiles() && sure && HasCopy(before, after, tile, radius))
    case NoOp => false
  }

  ghost predicate Changes(before: Image, after: Image, tile: Rect, box: Rect) {
    tile.IsValid() && IsChangedRect(before, after, tile, box) && box.IsValid()
  }

  ghost predicate IsChanged(before: Image, after: Image, tile: Rect) { exists box :: Changes(before, after, tile, box) }

  /** How tiles are drawn: the settings, the images, whether tiles are cut down to what has changed in them, and the search. */
  datatype Drawing = Drawing(settings: ComparerSettings, before: Image, after: Image, minified: bool, radius: nat, sure: bool) {
    ghost predicate DrawsTile(op: UpdateOperation, tile: Rect) {
      exists box :: Changes(before, after, tile, box) && Draws(op, settings, before, after, tile, if minified then box else tile, radius, sure)
    }

    /** One operation for every changed tile, in some order. */
    ghost predicate DrawsAll(ops: seq<UpdateOperation>, tiles: seq<Rect>) {
      && |ops| == Count(tiles)
      && (forall op :: op in ops ==> exists t :: t in tiles && DrawsTile(op, t))
      && (forall t :: t in tiles && IsChanged(before, after, t) ==> exists op :: op in ops && DrawsTile(op, t))
    }

    /** The same in the order of the tiles. */
    ghost predicate DrawsInOrder(ops: seq<UpdateOperation>, tiles: seq<Rect>)
      decreases |tiles|
    {
      if tiles == [] then ops == []
      else if !IsChanged(before, after, tiles[0]) then DrawsInOrder(ops, tiles[1..])
      else ops != [] && DrawsTile(ops[0], tiles[0]) && DrawsInOrder(ops[1..], tiles[1..])
    }

    lemma {:induction false} DrawsNext(ops: seq<UpdateOperation>, tiles: seq<Rect>, tile: Rect, emit: bool, op: UpdateOperation, still: bool)
      requires DrawsInOrder(ops, tiles) && (still ==> sure)
      requires emit <==> IsChanged(before, after, tile)
      requires emit ==> this.(sure := still).DrawsTile(op, tile)
      ensures this.(sure := still).DrawsInOrder(if emit then ops + [op] else ops, tiles + [tile])
      decreases |tiles|
    {
      hide DrawsTile, IsChanged;
      var all := tiles + [tile];
      if tiles == [] {
        assert all == [tile] && all[1..] == [] && [op][1..] == [] && ops + [op] == [op];
      } else {
        assert all[1..] == tiles[1..] + [tile];
        if IsChanged(before, after, tiles[0]) {
          assert (ops + [op])[1..] == ops[1..] + [op];
          LessSure(ops[0], tiles[0], still);
          DrawsNext(ops[1..], tiles[1..], tile, emit, op, still);
        } else {
          DrawsNext(ops, tiles[1..], tile, emit, op, still);
        }
      }
    }

    /** How many of the tiles have changed. */
    ghost function Count(tiles: seq<Rect>): nat {
      if tiles == [] then 0 else (if IsChanged(before, after, tiles[0]) then 1 else 0) + Count(tiles[1..])
    }

    lemma {:induction false} CountConcat(a: seq<Rect>, b: seq<Rect>)
      ensures Count(a + b) == Count(a) + Count(b)
    {
      if a == [] {
        assert a + b == b;
      } else {
        assert (a + b)[1..] == a[1..] + b;
        CountConcat(a[1..], b);
      }
    }

    lemma CountWithout(rest: seq<Rect>, i: nat)
      requires i < |rest|
      ensures Count(rest) == Count(rest[..i] + rest[i + 1..]) + if IsChanged(before, after, rest[i]) then 1 else 0
    {
      assert rest == rest[..i] + ([rest[i]] + rest[i + 1..]);
      assert [rest[i]][1..] == [];
      CountConcat(rest[..i], [rest[i]] + rest[i + 1..]);
      CountConcat([rest[i]], rest[i + 1..]);
      CountConcat(rest[..i], rest[i + 1..]);
    }

    /** The operations for the tiles that are not in the rest. */
    ghost predicate DrawsSoFar(ops: seq<UpdateOperation>, tiles: seq<Rect>, rest: seq<Rect>) {
      && |ops| + Count(rest) == Count(tiles)
      && (forall op :: op in ops ==> exists t :: t in tiles && DrawsTile(op, t))
      && (forall t :: t in tiles && IsChanged(before, after, t) ==> t in rest || exists op :: op in ops && DrawsTile(op, t))
    }

    lemma LessSure(op: UpdateOperation, tile: Rect, still: bool)
      requires DrawsTile(op, tile) && (still ==> sure)
      ensures this.(sure := still).DrawsTile(op, tile)
    {
      var box :| Changes(before, after, tile, box) && Draws(op, settings, before, after, tile, if minified then box else tile, radius, sure);
      assert Draws(op, settings, before, after, tile, if minified then box else tile, radius, still);
    }

    lemma DrawsOneMore(ops: seq<UpdateOperation>, tiles: seq<Rect>, rest: seq<Rect>, i: nat, emit: bool, op: UpdateOperation, still: bool)
      requires DrawsSoFar(ops, tiles, rest) && i < |rest| && rest[i] in tiles && (still ==> sure)
      requires emit <==> IsChanged(before, after, rest[i])
      requires emit ==> this.(sure := still).DrawsTile(op, rest[i])
      ensures this.(sure := still).DrawsSoFar(if emit then ops + [op] else ops, tiles, rest[..i] + rest[i + 1..])
    {
      hide DrawsTile, IsChanged;
      var next := this.(sure := still);
      var more := if emit then ops + [op] else ops;
      CountWithout(rest, i);
      SameCount(rest[..i] + rest[i + 1..], still);
      SameCount(tiles, still);
      forall o | o in more ensures exists t :: t in tiles && next.DrawsTile(o, t) {
        if o in ops {
          var t :| t in tiles && DrawsTile(o, t);
          LessSure(o, t, still);
        }
      }
      forall t | t in tiles && IsChanged(before, after, t) && t !in rest[..i] + rest[i + 1..]
        ensures exists o :: o in more && next.DrawsTile(o, t)
      {
        if t == rest[i] {
          assert op in more;
        } else {
          assert t !in rest by {
            if t in rest {
              OthersStay(rest, i, t);
            }
          }
          var o :| o in ops && DrawsTile(o, t);
          LessSure(o, t, still);
          assert o in more;
        }
      }
    }

    lemma DrawnKind(ops: seq<UpdateOperation>, tiles: seq<Rect>, op: UpdateOperation)
      requires DrawsAll(ops, tiles) && op in ops
      ensures KindAsAsked(op, settings, after)
    {
      hide Changes, IsChanged, HasCopy, ExactMove, HasOneColour;
      var t :| t in tiles && DrawsTile(op, t);
      var box :| Changes(before, after, t, box) && Draws(op, settings, before, after, t, if minified then box else t, radius, sure);
      if HasOneColour(after, after.Bounds()) {
        OneColourEverywhere(after, if minified then box else t);
      }
    }

    lemma {:induction false} SameCount(tiles: seq<Rect>, still: bool)
      ensures this.(sure := still).Count(tiles) == Count(tiles)
      decreases |tiles|
    {
      if tiles != [] {
        SameCount(tiles[1..], still);
      }
    }
  }

  /** The operations are those moves. */
  predicate AreMoves(ops: seq<UpdateOperation>, moves: seq<MoveOperation>) {
    |ops| == |moves| && forall i :: 0 <= i < |ops| ==> ops[i] == UpdateOperation(Move, moves[i].srcRect, moves[i].dstPoint, 0)
  }

  /** The two ways of tiling a changed rectangle: fine-grained moves first, and then tiles of what they leave over; or tiles
      at once. */
  ghost predicate IsTiled(settings: ComparerSettings, before: Image, after: Image, box: Rect, ops: seq<UpdateOperation>, tiles: seq<Rect>,
                          radius: nat, sure: bool)
  {
    if settings.analyzeMoves && settings.fineGrainedMoves then
      exists moves, small ::
        && IsTiling(small, box, settings.tileWidth / 2) && AreMoves(ops, moves) && MoveAnalyzers.MovesTiles(moves, small)
        && (sure ==> CopiesMoved(small, moves, before, after, radius))
        && forall x, y :: Covered(tiles, x, y) <==> box.Has(x, y) && !MovedTo(moves, x, y)
    else ops == [] && IsTiling(tiles, box, settings.tileWidth)
  }

  /** What findUpdateOperations answers: nothing when nothing has changed, and otherwise the moves and the operations for the
      tiles of the changed rectangle. */
  ghost predicate IsDrawn(result: seq<UpdateOperation>, settings: ComparerSettings, before: Image, after: Image, searchArea: Rect,
                          radius: nat, sure: bool)
    requires searchArea.IsValid()
  {
    exists box :: IsChangedRect(before, after, searchArea, box) &&
      if box.IsEmpty() then result == []
      else
        exists ops, tiles ::
          && ops <= result && IsTiled(settings, before, after, box, ops, tiles, radius, sure)
          && Drawing(settings, before, after, settings.Minifies(|tiles|), radius, sure).DrawsAll(result[|ops|..], tiles)
  }

  lemma StaysJustified(before: Image, after: Image, tileWidth: int, region: Region, rect: Rect)
    requires tileWidth >= 1 && rect.IsValid() && rect.left >= 0 && rect.top >= 0 && rect == RectAt(rect.TopLeft(), tileWidth, tileWidth)
    requires exists u, v :: rect.Has(u, v) && Differs(before, after, u, v)
    requires IsJustified(before, after, tileWidth, region)
    ensures IsJustified(before, after, tileWidth, region + Pixels(Aligned(rect, tileWidth, tileWidth)))
  {
    hide IsClose, Aligned;
    var u, v :| rect.Has(u, v) && Differs(before, after, u, v);
    forall p | p in Pixels(Aligned(rect, tileWidth, tileWidth))
      ensures IsClose(before, after, tileWidth, p) && (tileWidth == 1 ==> Differs(before, after, p.x, p.y))
    {
      AlignedIsClose(before, after, rect, tileWidth, u, v, p);
    }
  }

  lemma AlignedIsClose(before: Image, after: Image, rect: Rect, tileWidth: int, u: int, v: int, p: Point)
    requires tileWidth >= 1 && rect.IsValid() && rect.left >= 0 && rect.top >= 0 && rect == RectAt(rect.TopLeft(), tileWidth, tileWidth)
    requires rect.Has(u, v) && Differs(before, after, u, v) && p in Pixels(Aligned(rect, tileWidth, tileWidth))
    ensures IsClose(before, after, tileWidth, p) && (tileWidth == 1 ==> p == Point(u, v))
  {
    AlignedCovers(rect, tileWidth, tileWidth);
    assert tileWidth == 1 ==> Aligned(rect, 1, 1) == rect;
  }

  lemma NothingIsFound(before: Image, after: Image, tileWidth: int)
    requires tileWidth >= 1
    ensures IsJustified(before, after, tileWidth, {})
    ensures ContainsDifferences(before, after, {}, Rect(0, 0, before.width, TileStart(0, tileWidth) - 1))
  {
  }

  lemma RowStarts(before: Image, after: Image, region: Region, top: int, bottom: int, tileWidth: int)
    requires tileWidth >= 1
    ensures ContainsDifferences(before, after, region, Rect(0, top, TileStart(0, tileWidth) - 1, bottom - 1))
  {
  }

  lemma TileIsDone(before: Image, after: Image, was: Region, region: Region, x: nat, y: nat, tileWidth: int, rect: Rect)
    requires tileWidth >= 1 && rect == RectAt(Point(TileStart(x, tileWidth), TileStart(y, tileWidth)), tileWidth, tileWidth)
    requires was <= region && ContainsDifferences(before, after, region, rect)
    requires ContainsDifferences(before, after, was, Rect(0, 0, before.width, TileStart(y, tileWidth) - 1))
    requires ContainsDifferences(before, after, was, Rect(0, TileStart(y, tileWidth), TileStart(x, tileWidth) - 1, TileStart(y + 1, tileWidth) - 1))
    ensures ContainsDifferences(before, after, region, Rect(0, 0, before.width, TileStart(y, tileWidth) - 1))
    ensures ContainsDifferences(before, after, region, Rect(0, TileStart(y, tileWidth), TileStart(x + 1, tileWidth) - 1, TileStart(y + 1, tileWidth) - 1))
  {
  }

  lemma RowIsDone(before: Image, after: Image, region: Region, width: nat, y: nat, tileWidth: int)
    requires tileWidth >= 1 && TileStart(width, tileWidth) >= before.width
    requires ContainsDifferences(before, after, region, Rect(0, 0, before.width, TileStart(y, tileWidth) - 1))
    requires ContainsDifferences(before, after, region, Rect(0, TileStart(y, tileWidth), TileStart(width, tileWidth) - 1, TileStart(y + 1, tileWidth) - 1))
    ensures ContainsDifferences(before, after, region, Rect(0, 0, before.width, TileStart(y + 1, tileWidth) - 1))
  {
  }

  lemma DifferencesAreFound(before: Image, after: Image, region: Region, rects: seq<Rect>, height: nat, tileWidth: int)
    requires tileWidth >= 1 && TileStart(height, tileWidth) >= before.height && IsJustified(before, after, tileWidth, region)
    requires ContainsDifferences(before, after, region, Rect(0, 0, before.width, TileStart(height, tileWidth) - 1))
    requires forall x, y :: Covered(rects, x, y) <==> Point(x, y) in region
    ensures forall x, y :: Differs(before, after, x, y) ==> Covered(rects, x, y)
    ensures forall x, y :: Covered(rects, x, y) ==> IsClose(before, after, tileWidth, Point(x, y))
    ensures tileWidth == 1 ==> CoverOnlyDifferences(rects, before, after)
    ensures before == after ==> region == {}
  {
    hide IsClose;
  }

  class ImageComparer {
    var imageBefore: Buffer
    var imageAfter: Buffer
    const useFingerPrints: bool
    var moveAnalyzer: MoveAnalyzer
    var settings: ComparerSettings

    ghost predicate Valid()
      reads this, imageBefore, imageAfter, moveAnalyzer, moveAnalyzer.imageBefore, moveAnalyzer.imageAfter, moveAnalyzer.searchAreaFingerPrints
    {
      && settings.Usable()
      && imageBefore.image.SameSize(imageAfter.image)
      && moveAnalyzer.Valid() && moveAnalyzer.templateWidth == settings.MoveTileWidth()
      && ((moveAnalyzer.imageBefore == imageBefore && moveAnalyzer.imageAfter == imageAfter) ||
          (!settings.analyzeMoves && moveAnalyzer.imageBefore == imageAfter && moveAnalyzer.imageAfter == imageBefore))
    }

    constructor (imageBefore: Buffer, imageAfter: Buffer, useFingerPrints: bool)
      requires imageBefore.image.SameSize(imageAfter.image)
      ensures Valid() && fresh(moveAnalyzer) && fresh(moveAnalyzer.searchAreaFingerPrints)
      ensures this.imageBefore == imageBefore && this.imageAfter == imageAfter && settings == DEFAULT_SETTINGS
      ensures this.useFingerPrints == useFingerPrints && HasNewAnalyzer()
    {
      this.imageBefore, this.imageAfter, this.useFingerPrints := imageBefore, imageAfter, useFingerPrints;
      settings := DEFAULT_SETTINGS;
      moveAnalyzer := new MoveAnalyzer(imageBefore, imageAfter, 32, useFingerPrints);
    }

    ghost predicate HasNewAnalyzer()
      reads this`moveAnalyzer, moveAnalyzer
    {
      && moveAnalyzer.useFingerPrints == useFingerPrints && moveAnalyzer.searchRadius == 200 && moveAnalyzer.searchMissesThreshold == 50
      && moveAnalyzer.lastSuccessfulMoveVectors == [] && moveAnalyzer.damagedAreas == []
    }

    /** A new analyzer starts on the comparer's current images, however often those were swapped before. */
    method SetSettings(settings: ComparerSettings)
      requires Valid() && settings.Usable()
      modifies this`settings, this`moveAnalyzer
      ensures Valid() && this.settings == settings
      ensures fresh(moveAnalyzer) && fresh(moveAnalyzer.searchAreaFingerPrints)
      ensures moveAnalyzer.imageBefore == imageBefore && moveAnalyzer.imageAfter == imageAfter && HasNewAnalyzer()
    {
      this.settings := settings;
      moveAnalyzer := new MoveAnalyzer(imageBefore, imageAfter, settings.MoveTileWidth(), useFingerPrints);
    }

    /** Exchanges the images here and, when moves are analyzed, in the analyzer. */
    method Swap()
      requires Valid()
      modifies this`imageBefore, this`imageAfter, moveAnalyzer, moveAnalyzer.searchAreaFingerPrints
      ensures Valid() && settings == old(settings)
      ensures imageBefore == old(imageAfter) && imageAfter == old(imageBefore)
    {
      imageBefore, imageAfter := imageAfter, imageBefore;
      if settings.analyzeMoves {
        moveAnalyzer.Swap();
      }
    }

    /** Rectangles that cover every differing pixel, and none that is two tiles away from all of them. */
    method FindDifferences() returns (rects: seq<Rect>)
      requires settings.tileWidth >= 1 && imageBefore.image.SameSize(imageAfter.image)
      ensures AllValid(rects) && PairwiseDisjoint(rects)
      ensures forall x, y :: Differs(imageBefore.image, imageAfter.image, x, y) ==> Covered(rects, x, y)
      ensures forall x, y :: Covered(rects, x, y) ==> IsClose(imageBefore.image, imageAfter.image, settings.tileWidth, Point(x, y))
      ensures settings.tileWidth == 1 ==> CoverOnlyDifferences(rects, imageBefore.image, imageAfter.image)
      ensures imageBefore.image == imageAfter.image ==> rects == []
    {
      hide *;
      var tw := settings.tileWidth;
      var region := new TiledRegion(tw, tw);
      ghost var before, after := imageBefore.image, imageAfter.image;
      var width := TileCount(imageBefore.image.width, tw);
      var height := TileCount(imageBefore.image.height, tw);
      NothingIsFound(before, after, tw);
      for y := 0 to height
        invariant IsJustified(before, after, tw, region.region)
        invariant ContainsDifferences(before, after, region.region, Rect(0, 0, before.width, TileStart(y, tw) - 1))
      {
        RowStarts(before, after, region.region, TileStart(y, tw), TileStart(y + 1, tw), tw);
        for x := 0 to width
          invariant IsJustified(before, after, tw, region.region)
          invariant ContainsDifferences(before, after, region.region, Rect(0, 0, before.width, TileStart(y, tw) - 1))
          invariant ContainsDifferences(before, after, region.region, Rect(0, TileStart(y, tw), TileStart(x, tw) - 1, TileStart(y + 1, tw) - 1))
        {
          var rect := TileRect(x, y, tw);
          ghost var was := region.region;
          AddIfDifferent(region, rect);
          TileIsDone(before, after, was, region.region, x, y, tw, rect);
        }
        RowIsDone(before, after, region.region, width, y, tw);
      }
      rects := region.Rects();
      DifferencesAreFound(before, after, region.region, rects, height, tw);
    }

    method AddIfDifferent(region: TiledRegion, rect: Rect)
      requires imageBefore.image.SameSize(imageAfter.image)
      requires region.tileWidth >= 1 && region.tileHeight == region.tileWidth
      requires rect.IsValid() && rect.left >= 0 && rect.top >= 0 && rect == RectAt(rect.TopLeft(), region.tileWidth, region.tileWidth)
      requires IsJustified(imageBefore.image, imageAfter.image, region.tileWidth, region.region)
      modifies region
      ensures old(region.region) <= region.region && ContainsDifferences(imageBefore.image, imageAfter.image, region.region, rect)
      ensures IsJustified(imageBefore.image, imageAfter.image, region.tileWidth, region.region)
    {
      hide StaysClose, OnlyDifferences, IsJustified;
      ClippedMatchInPlace(imageBefore, imageAfter, rect);
      var same := ContentMatches(imageBefore, imageAfter, rect.TopLeft(), rect);
      if !same {
        StaysJustified(imageBefore.image, imageAfter.image, region.tileWidth, region.region, rect);
        region.Add(rect);
      }
    }

    /** Whether the exhaustive search was left with some budget. */
    ghost predicate SearchIsSure()
      reads this`moveAnalyzer, moveAnalyzer`movedRectSearchEnabled
    {
      moveAnalyzer.movedRectSearchEnabled && !moveAnalyzer.useFingerPrints
    }

    /** One tile: no operation when nothing in it has changed, otherwise one sound operation that writes every differing
        pixel. The fields of op that are not set keep their values. */
    method ProcessRect(rect: Rect, given: UpdateOperation, useMinifiedTile: bool) returns (emit: bool, op: UpdateOperation)
      requires Valid() && rect.IsValid()
      requires settings.MovesWholeTiles() ==> Searchable(rect, imageAfter.image, settings.tileWidth)
      modifies moveAnalyzer`damagedAreas, moveAnalyzer`movedRectSearchMisses, moveAnalyzer`movedRectSearchEnabled, moveAnalyzer`lastSuccessfulMoveVectors
      ensures Valid()
      ensures emit ==> OpSound(op, imageBefore.image, imageAfter.image)
      ensures forall x, y :: rect.Has(x, y) && Differs(imageBefore.image, imageAfter.image, x, y) ==> emit && OpWritesTo(op, x, y)
      ensures emit && imageAfter.image.Bounds().Contains(rect) ==> OpWithin(op, rect)
      ensures emit && !settings.analyzeMoves ==> !op.kind.Move?
      ensures emit <==> IsChanged(imageBefore.image, imageAfter.image, rect)
      ensures emit ==> Drawing(settings, imageBefore.image, imageAfter.image, useMinifiedTile, moveAnalyzer.searchRadius, SearchIsSure()).DrawsTile(op, rect)
      ensures SearchIsSure() ==> old(SearchIsSure())
    {
      hide Valid, IsChangedRect, IsChanged, Draws, OpSound, OpWithin, OpWritesTo, Searchable, OffImage, Differs, SearchIsSure, Drawing.DrawsTile;
      op := given;
      var box := ChangedRect(rect);
      ChangedExactly(imageBefore.image, imageAfter.image, rect, box);
      if box.IsEmpty() {
        return false, op;
      }
      var minRect := box;
      if !useMinifiedTile {
        minRect := rect;
      }
      op := ChooseOperation(rect, minRect, op);
      emit := true;
      ghost var drawing := Drawing(settings, imageBefore.image, imageAfter.image, useMinifiedTile, moveAnalyzer.searchRadius, SearchIsSure());
      TileIsDrawn(drawing, op, rect, box);
    }

    /** The rest of processRect: a fill if the area has one colour, a move if the tile was elsewhere before,
        otherwise an update. */
    method ChooseOperation(rect: Rect, minRect: Rect, given: UpdateOperation) returns (op: UpdateOperation)
      requires Valid() && rect.IsValid() && minRect.IsValid()
      requires settings.MovesWholeTiles() ==> Searchable(rect, imageAfter.image, settings.tileWidth)
      modifies moveAnalyzer`damagedAreas, moveAnalyzer`movedRectSearchMisses, moveAnalyzer`movedRectSearchEnabled, moveAnalyzer`lastSuccessfulMoveVectors
      ensures Valid()
      ensures OpSound(op, imageBefore.image, imageAfter.image)
      ensures forall x, y :: rect.Has(x, y) && minRect.Has(x, y) ==> OpWritesTo(op, x, y)
      ensures rect.Contains(minRect) ==> OpWithin(op, rect)
      ensures Draws(op, settings, imageBefore.image, imageAfter.image, rect, minRect, moveAnalyzer.searchRadius, SearchIsSure())
      ensures settings.MovesWholeTiles() && !op.kind.Fill? && old(moveAnalyzer.movedRectSearchEnabled) ==>
                exists found ::
                  && IsAnswer(moveAnalyzer.Answers(rect), rect, old(moveAnalyzer.lastSuccessfulMoveVectors), [], moveAnalyzer.searchRadius,
                              found, moveAnalyzer.searchMissesThreshold, old(moveAnalyzer.movedRectSearchMisses), moveAnalyzer.movedRectSearchMisses)
                  && if found.IsDefault() then op.kind.Update? else op.kind.Move? && op.srcRect == found
      ensures SearchIsSure() ==> old(SearchIsSure())
    {
      hide Valid, OpSound, OpWritesTo, OpWithin, HasOneColour, IsSolid, Searchable, HasCopy, ExactMove, SearchIsSure, IsAnswer, MoveAnalyzer.Answers;
      var filled, moved;
      ghost var source;
      filled, op := FillFor(minRect, given);
      if filled {
        FillIsRight(op, imageBefore.image, imageAfter.image, rect, minRect);
        return;
      }
      if settings.analyzeMoves && !settings.fineGrainedMoves {
        moved, op, source := MoveFor(rect, op);
        if moved {
          return;
        }
      }
      op := op.(kind := Update, srcRect := minRect, dstPoint := minRect.TopLeft());
      UpdateIsRight(op, imageBefore.image, imageAfter.image, rect, minRect);
    }

    method FillFor(minRect: Rect, given: UpdateOperation) returns (filled: bool, op: UpdateOperation)
      requires minRect.IsValid()
      ensures filled <==> settings.analyzeFills && HasOneColour(imageAfter.image, minRect)
      ensures filled ==> op.kind.Fill? && op.srcRect == minRect && op.dstPoint == minRect.TopLeft() && IsSolid(imageAfter.image, minRect, op.fillColor)
    {
      filled, op := false, given;
      if settings.analyzeFills {
        var solidColor := GetSolidRectColor(imageAfter, minRect);
        if solidColor.Some? {
          op := op.(kind := Fill, srcRect := minRect, dstPoint := minRect.TopLeft(), fillColor := solidColor.value);
          filled := true;
        }
      }
    }

    /** The analyzer is asked where the tile was; source is its answer. */
    method MoveFor(rect: Rect, given: UpdateOperation) returns (moved: bool, op: UpdateOperation, ghost source: Rect)
      requires Valid() && settings.MovesWholeTiles() && Searchable(rect, imageAfter.image, settings.tileWidth)
      modifies moveAnalyzer`damagedAreas, moveAnalyzer`movedRectSearchMisses, moveAnalyzer`movedRectSearchEnabled, moveAnalyzer`lastSuccessfulMoveVectors
      ensures Valid()
      ensures moved <==> !source.IsDefault()
      ensures moved ==> op.kind.Move? && op.srcRect == source && op.dstPoint == rect.TopLeft() && ExactMove(imageBefore.image, imageAfter.image, source, rect)
      ensures moved ==> OpSound(op, imageBefore.image, imageAfter.image) && OpWithin(op, rect) && forall x, y :: rect.Has(x, y) ==> OpWritesTo(op, x, y)
      ensures !moved ==> op == given && !(SearchIsSure() && HasCopy(imageBefore.image, imageAfter.image, rect, moveAnalyzer.searchRadius))
      ensures old(moveAnalyzer.movedRectSearchEnabled) ==>
                IsAnswer(moveAnalyzer.Answers(rect), rect, old(moveAnalyzer.lastSuccessfulMoveVectors), [], moveAnalyzer.searchRadius,
                         source, moveAnalyzer.searchMissesThreshold, old(moveAnalyzer.movedRectSearchMisses), moveAnalyzer.movedRectSearchMisses)
      ensures SearchIsSure() ==> old(SearchIsSure())
    {
      hide IsAnswer, MoveAnalyzer.Answers, MovedToFront, HasCopy, ExactMove, Searchable;
      var movedSrcRect := moveAnalyzer.ProcessRect(rect, []);
      moved, op, source := false, given, movedSrcRect;
      if !movedSrcRect.IsEmpty() {
        op := op.(kind := Move, srcRect := movedSrcRect, dstPoint := rect.TopLeft());
        moved := true;
        SourceIsRight(op, imageBefore.image, imageAfter.image, rect);
      }
    }

    /** What findChangedRect32 means for the encoder: the answer has all differences of the area, and is a part of
        the image or the off-image rectangle. */
    method ChangedRect(area: Rect) returns (box: Rect)
      requires Valid() && area.IsValid()
      ensures box.IsValid() ==> imageAfter.image.Bounds().Contains(box) || OffImage(box)
      ensures box.IsValid() && imageAfter.image.Bounds().Contains(area) ==> area.Contains(box)
      ensures forall x, y :: area.Has(x, y) && Differs(imageBefore.image, imageAfter.image, x, y) ==> box.Has(x, y) && box.IsValid()
      ensures IsChangedRect(imageBefore.image, imageAfter.image, area, box)
    {
      box := FindChangedRect32(imageBefore, imageAfter, area);
      BoxHasDifferences(imageBefore.image, imageAfter.image, area, box);
    }

    /** findUpdateOperations: sound operations that write every differing pixel of the search area, one for every tile
        that has changed, and each of the kind that the settings and the tile ask for. */
    method FindUpdateOperations(searchArea: Rect, additionalSearchAreas: seq<Rect>) returns (result: seq<UpdateOperation>)
      requires Valid() && searchArea.IsValid() && AllValid(additionalSearchAreas)
      modifies moveAnalyzer`damagedAreas, moveAnalyzer`movedRectSearchMisses, moveAnalyzer`movedRectSearchEnabled, moveAnalyzer`lastSuccessfulMoveVectors
      ensures Valid()
      ensures OpsSound(result, imageBefore.image, imageAfter.image)
      ensures forall x, y :: searchArea.Has(x, y) && Differs(imageBefore.image, imageAfter.image, x, y) ==> WritesTo(result, x, y)
      ensures imageAfter.image.Bounds().Contains(searchArea) && !settings.fineGrainedMoves ==> OpsWithin(result, [searchArea])
      ensures !settings.analyzeMoves ==> MovesNothing(result)
      ensures IsDrawn(result, settings, imageBefore.image, imageAfter.image, searchArea, moveAnalyzer.searchRadius, SearchIsSure())
    {
      hide Valid, OpsSound, WritesTo, OpsWithin, MovesNothing, IsDrawn, IsTiled, IsChangedRect, Covered, Differs, AllInside, AllValid;
      hide Searchable, OffImage, SearchIsSure, Drawing.DrawsAll, ComparerSettings.Minifies;
      result := [];
      ghost var before, after := imageBefore.image, imageAfter.image;
      var minSearchRect := ChangedRect(searchArea);
      if minSearchRect.IsEmpty() {
        NothingIsDrawn(settings, before, after, searchArea, minSearchRect, moveAnalyzer.searchRadius, SearchIsSure());
        return;
      }
      var ops, tiles := MovesAndTiles(minSearchRect, additionalSearchAreas);
      ghost var sure := SearchIsSure();
      var useMinifiedTile := settings.minifyTiles &&
      (settings.minifyTileCountThreshold == -1 || |tiles| <= settings.minifyTileCountThreshold);
      MinifiedBySettings(settings, |tiles|, useMinifiedTile);
      result := ProcessTiles(tiles, ops, useMinifiedTile);
      TilesAreDrawn(result, settings, before, after, searchArea, minSearchRect, ops, tiles, moveAnalyzer.searchRadius, sure, SearchIsSure());
      if !settings.fineGrainedMoves && after.Bounds().Contains(searchArea) {
        TilesStayInside(tiles, minSearchRect, searchArea, after);
        WithinParts(result, tiles, searchArea);
      }
      AllIsWritten(searchArea, minSearchRect, tiles, ops, result, before, after);
    }

    /** The two ways of tiling the changed rectangle: fine-grained moves first and tiles for what they leave
        over, or tiles at once. */
    method MovesAndTiles(minSearchRect: Rect, additionalSearchAreas: seq<Rect>) returns (ops: seq<UpdateOperation>, tiles: seq<Rect>)
      requires Valid() && AllValid(additionalSearchAreas) && minSearchRect.IsValid()
      requires imageAfter.image.Bounds().Contains(minSearchRect) || OffImage(minSearchRect)
      modifies moveAnalyzer`damagedAreas, moveAnalyzer`movedRectSearchMisses, moveAnalyzer`movedRectSearchEnabled, moveAnalyzer`lastSuccessfulMoveVectors
      ensures Valid()
      ensures OpsSound(ops, imageBefore.image, imageAfter.image)
      ensures AllValid(tiles)
      ensures settings.MovesWholeTiles() ==>
                && moveAnalyzer.movedRectSearchEnabled && moveAnalyzer.movedRectSearchMisses == 0
                && forall t :: t in tiles ==> Searchable(t, imageAfter.image, settings.tileWidth)
      ensures forall x, y :: minSearchRect.Has(x, y) ==> Covered(tiles, x, y) || WritesTo(ops, x, y)
      ensures !settings.fineGrainedMoves ==> ops == [] && forall t :: t in tiles ==> minSearchRect.Contains(t)
      ensures !settings.analyzeMoves ==> ops == []
      ensures IsTiled(settings, imageBefore.image, imageAfter.image, minSearchRect, ops, tiles, moveAnalyzer.searchRadius, SearchIsSure())
    {
      ops, tiles := [], [];
      if settings.analyzeMoves && settings.fineGrainedMoves {
        ops, tiles := FineMovesAndTiles(minSearchRect, additionalSearchAreas);
      } else {
        if settings.analyzeMoves {
          moveAnalyzer.StartNewSearch();
        }
        tiles := SplitRectIntoTiles(minSearchRect, settings.tileWidth, settings.tileWidth);
        if settings.analyzeMoves {
          forall t | t in tiles ensures Searchable(t, imageAfter.image, settings.tileWidth) {
            TileIsSearchable(minSearchRect, t, imageAfter.image, settings.tileWidth);
          }
        }
      }
    }

    method FineMovesAndTiles(minSearchRect: Rect, additionalSearchAreas: seq<Rect>) returns (ops: seq<UpdateOperation>, tiles: seq<Rect>)
      requires Valid() && AllValid(additionalSearchAreas) && minSearchRect.IsValid() && settings.analyzeMoves && settings.fineGrainedMoves
      requires imageAfter.image.Bounds().Contains(minSearchRect) || OffImage(minSearchRect)
      modifies moveAnalyzer`damagedAreas, moveAnalyzer`movedRectSearchMisses, moveAnalyzer`movedRectSearchEnabled, moveAnalyzer`lastSuccessfulMoveVectors
      ensures Valid() && AllValid(tiles)
      ensures OpsSound(ops, imageBefore.image, imageAfter.image)
      ensures forall x, y :: minSearchRect.Has(x, y) ==> Covered(tiles, x, y) || WritesTo(ops, x, y)
      ensures IsTiled(settings, imageBefore.image, imageAfter.image, minSearchRect, ops, tiles, moveAnalyzer.searchRadius, SearchIsSure())
    {
      hide MovesExact, CopiesMoved, ExactMove, IsTiling, OpsSound, WritesTo, Covered, MovedTo;
      var moves, leftovers, small := moveAnalyzer.FindMoveOperations(minSearchRect, additionalSearchAreas);
      ops := MoveUpdates(moves);
      var searchRects := UnitedRegionRects(leftovers);
      tiles := TilesOf(searchRects, settings.tileWidth);
      forall x, y ensures Covered(tiles, x, y) <==> minSearchRect.Has(x, y) && !MovedTo(moves, x, y) {
        assert Covered(searchRects, x, y) <==> Point(x, y) in leftovers;
        assert Point(x, y) in leftovers ==> minSearchRect.Has(Point(x, y).x, Point(x, y).y);
      }
    }

    method MoveUpdates(moves: seq<MoveOperation>) returns (ops: seq<UpdateOperation>)
      requires MovesExact(moves, imageBefore.image, imageAfter.image)
      ensures OpsSound(ops, imageBefore.image, imageAfter.image) && AreMoves(ops, moves)
      ensures forall x, y :: MovedTo(moves, x, y) ==> WritesTo(ops, x, y)
    {
      ops := [];
      for i := 0 to |moves|
        invariant OpsSound(ops, imageBefore.image, imageAfter.image) && AreMoves(ops, moves[..i])
        invariant forall x, y :: MovedTo(moves[..i], x, y) ==> WritesTo(ops, x, y)
      {
        assert moves[i] in moves && moves[..i + 1] == moves[..i] + [moves[i]];
        var op := UpdateOperation(Move, moves[i].srcRect, moves[i].dstPoint, 0);
        MoveIsSound(op, imageBefore.image, imageAfter.image);
        WritesToAppend(ops, op);
        ops := ops + [op];
      }
      assert moves[..|moves|] == moves;
    }

    /** Tiles one after the other, in their order, or by several threads that finish in any order. */
    method ProcessTiles(tiles: seq<Rect>, ops: seq<UpdateOperation>, useMinifiedTile: bool) returns (result: seq<UpdateOperation>)
      requires Valid() && AllValid(tiles)
      requires settings.MovesWholeTiles() ==> forall t :: t in tiles ==> Searchable(t, imageAfter.image, settings.tileWidth)
      requires OpsSound(ops, imageBefore.image, imageAfter.image)
      modifies moveAnalyzer`damagedAreas, moveAnalyzer`movedRectSearchMisses, moveAnalyzer`movedRectSearchEnabled, moveAnalyzer`lastSuccessfulMoveVectors
      ensures Valid()
      ensures ops <= result
      ensures OpsSound(result, imageBefore.image, imageAfter.image)
      ensures forall x, y :: Covered(tiles, x, y) && Differs(imageBefore.image, imageAfter.image, x, y) ==> WritesTo(result, x, y)
      ensures ops == [] && AllInside(tiles, imageAfter.image) ==> OpsWithin(result, tiles)
      ensures ops == [] && !settings.analyzeMoves ==> MovesNothing(result)
      ensures Drawing(settings, imageBefore.image, imageAfter.image, useMinifiedTile, moveAnalyzer.searchRadius, SearchIsSure())
              .DrawsAll(result[|ops|..], tiles)
      ensures !settings.useMultithreading ==>
                Drawing(settings, imageBefore.image, imageAfter.image, useMinifiedTile, moveAnalyzer.searchRadius, SearchIsSure())
                .DrawsInOrder(result[|ops|..], tiles)
      ensures SearchIsSure() ==> old(SearchIsSure())
    {
      hide *;
      ghost var before, after := imageBefore.image, imageAfter.image;
      ghost var drawing := Drawing(settings, before, after, useMinifiedTile, moveAnalyzer.searchRadius, SearchIsSure());
      ghost var drawn := [];
      result := ops;
      var rest := tiles;
      var op := UpdateOperation(NoOp, Rect(0, 0, 0, 0), Point(0, 0), 0);
      NothingIsProcessed(tiles, ops, drawing);
      while rest != []
        invariant Valid() && imageBefore.image == before && imageAfter.image == after
        invariant forall t :: t in rest ==> t in tiles
        invariant result == ops + drawn && Progress(tiles, rest, result, before, after)
        invariant ops == [] && AllInside(tiles, after) ==> OpsWithin(result, tiles)
        invariant ops == [] && !settings.analyzeMoves ==> MovesNothing(result)
        invariant drawing == Drawing(settings, before, after, useMinifiedTile, moveAnalyzer.searchRadius, SearchIsSure())
        invariant SearchIsSure() ==> old(SearchIsSure())
        invariant drawing.DrawsSoFar(drawn, tiles, rest) && (!settings.useMultithreading ==> IsProcessed(drawing, drawn, tiles, rest))
        decreases |rest|
      {
        var i := 0;
        if settings.useMultithreading {
          i :| 0 <= i < |rest|;
        }
        assert rest[i] in rest;
        TileIsValid(tiles, rest[i]);
        var emit;
        emit, op := ProcessRect(rest[i], op, useMinifiedTile);
        ProgressStep(tiles, rest, i, result, emit, op, before, after);
        drawing.DrawsOneMore(drawn, tiles, rest, i, emit, op, SearchIsSure());
        if !settings.useMultithreading {
          FirstIsProcessed(drawing, drawn, tiles, rest, emit, op, SearchIsSure());
        }
        drawing := drawing.(sure := SearchIsSure());
        if emit {
          KindsAppend(result, op, tiles, rest[i], after);
          Assoc(ops, drawn, [op]);
          result := result + [op];
          drawn := drawn + [op];
        }
        rest := rest[..i] + rest[i + 1..];
      }
      AllIsProcessed(tiles, ops, drawn, result, drawing, !settings.useMultithreading);
    }
  }

  /** tiles += splitRectIntoTiles(rect) over the rectangles. */
  method TilesOf(rects: seq<Rect>, tileWidth: int) returns (tiles: seq<Rect>)
    requires tileWidth >= 1
    ensures AllValid(tiles)
    ensures forall x, y :: Covered(tiles, x, y) <==> Covered(rects, x, y)
  {
    tiles := [];
    for i := 0 to |rects|
      invariant AllValid(tiles)
      invariant forall x, y :: Covered(tiles, x, y) <==> Covered(rects[..i], x, y)
    {
      var more := SplitRectIntoTiles(rects[i], tileWidth, tileWidth);
      assert rects[..i + 1] == rects[..i] + [rects[i]];
      CoveredAppend(rects[..i], rects[i]);
      CoveredConcat(tiles, more);
      tiles := tiles + more;
    }
    assert rects[..|rects|] == rects;
  }

  lemma CoveredConcat(a: seq<Rect>, b: seq<Rect>)
    ensures forall x, y :: Covered(a + b, x, y) <==> Covered(a, x, y) || Covered(b, x, y)
  {
    forall x, y | Covered(a, x, y) || Covered(b, x, y) ensures Covered(a + b, x, y) {
      if Covered(a, x, y) {
        var r :| r in a && r.Has(x, y);
        assert r in a + b;
      } else {
        var r :| r in b && r.Has(x, y);
        assert r in a + b;
      }
    }
  }

  /** findChangedRect32 has one answer, and it is valid exactly when the area has changed. */
  lemma ChangedExactly(before: Image, after: Image, area: Rect, box: Rect)
    requires area.IsValid() && IsChangedRect(before, after, area, box)
    ensures IsChanged(before, after, area) <==> box.IsValid()
  {
    if box.IsValid() {
      assert Changes(before, after, area, box);
    }
  }

  lemma BoxHasDifferences(before: Image, after: Image, rect: Rect, box: Rect)
    requires rect.IsValid() && before.SameSize(after)
    requires var roi := rect.Intersected(before.Bounds()).Intersected(after.Bounds());
             (exists x, y :: roi.Has(x, y) && Differs(before, after, x, y)) ==>
               IsBoundingBox(before, after, roi, box) && box.IsValid()
    ensures forall x, y :: rect.Has(x, y) && Differs(before, after, x, y) ==> box.Has(x, y) && box.IsValid()
  {
    var roi := rect.Intersected(before.Bounds()).Intersected(after.Bounds());
    forall x, y | rect.Has(x, y) && Differs(before, after, x, y) ensures box.Has(x, y) && box.IsValid() {
      assert roi.Has(x, y);
    }
  }

  /** index * tile, as the sum it stands for. */
  function TileStart(index: nat, tile: nat): nat {
    if index == 0 then 0 else TileStart(index - 1, tile) + tile
  }

  lemma {:induction false} TileStartIsProduct(index: nat, tile: nat)
    ensures TileStart(index, tile) == index * tile
  {
    if index > 0 {
      TileStartIsProduct(index - 1, tile);
    }
  }

  method TileRect(x: nat, y: nat, tile: nat) returns (rect: Rect)
    ensures rect == RectAt(Point(TileStart(x, tile), TileStart(y, tile)), tile, tile) == RectAt(rect.TopLeft(), tile, tile)
    ensures rect.left >= 0 && rect.top >= 0 && (tile >= 1 ==> rect.IsValid())
  {
    TileStartIsProduct(x, tile);
    TileStartIsProduct(y, tile);
    rect := RectAt(Point(x * tile, y * tile), tile, tile);
  }

  method TileCount(length: nat, tile: nat) returns (n: nat)
    requires tile >= 1
    ensures TileStart(n, tile) >= length
  {
    n := length / tile + (if length % tile != 0 then 1 else 0);
    assert length == length / tile * tile + length % tile;
    TileStartIsProduct(length / tile, tile);
  }
}
