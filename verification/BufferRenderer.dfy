/** src/display/graphicsscenebufferrenderer.h and .cpp: the double buffer, its damage and the frames it yields. */
module BufferRenderers {
  import opened Geometry
  import opened Images
  import opened ImageAux
  import opened OpTools
  import opened Tiles
  import opened Canvas
  import opened ImageComparers

  /** The scene adapter: rendering copies the scene's pixels; the scene is transparent outside its image. */
  class SceneAdapter {
    var scene: Image

    constructor (scene: Image)
      ensures this.scene == scene
    {
      this.scene := scene;
    }
  }

  function ColorOf(scene: Image, x: int, y: int): Pixel {
    if scene.Has(x, y) then scene.At(x, y) else TRANSPARENT
  }

  /** An erased canvas. */
  const CLEAR: Image := Raster(1, 1, [[TRANSPARENT]])

  /** The buffer shows the scene at every pixel that is neither damaged nor waiting to be reported. */
  ghost predicate ShowsScene(work: Image, scene: Image, damage: Region, unreported: Region) {
    forall x, y :: work.Has(x, y) && Point(x, y) !in damage && Point(x, y) !in unreported ==>
                     work.At(x, y) == ColorOf(scene, x, y)
  }

  function PaintedPixel(work: Image, scene: Image, area: Region, x: int, y: int): Pixel {
    if Point(x, y) in area then ColorOf(scene, x, y) else if work.Has(x, y) then work.At(x, y) else TRANSPARENT
  }

  /** The image after the scene was rendered in an area of work. */
  ghost predicate IsRendered(i: Image, work: Image, scene: Image, area: Region) {
    && i.SameSize(work)
    && forall x, y :: i.Has(x, y) ==> i.At(x, y) == PaintedPixel(work, scene, area, x, y)
  }

  /** The next frame: the scene in the damaged area over the last frame, or all of a pushed frame. */
  ghost predicate IsNextFrame(i: Image, work: Image, scene: Option<Image>, pushed: Option<Image>, damage: Region) {
    if scene.Some? then IsRendered(i, work, scene.value, damage)
    else if pushed.Some? then i.SameSize(work) && forall x, y :: i.Has(x, y) ==> i.At(x, y) == ColorOf(pushed.value, x, y)
    else i == work
  }

  /** Painting the damage brings the buffer up to the scene, except where the scene has changed unreported. */
  lemma NextFrameShowsScene(next: Image, work: Image, scene: Image, damage: Region, unreported: Region)
    requires IsRendered(next, work, scene, damage)
    ensures ShowsScene(work, scene, damage, unreported) ==> ShowsScene(next, scene, {}, unreported)
  {
  }

  method PaintRect(work: Image, scene: Image, r: Rect) returns (i: Image)
    ensures IsRendered(i, work, scene, Pixels(r))
  {
    i := Make(work.width, work.height, (x, y) => PaintedPixel(work, scene, Pixels(r), x, y));
  }

  /** Painting one rectangle after the other. */
  method PaintRects(work: Image, scene: Image, rects: seq<Rect>, ghost area: Region) returns (painted: Image)
    requires forall p :: p in area <==> Covered(rects, p.x, p.y)
    ensures IsRendered(painted, work, scene, area)
  {
    painted := work;
    ghost var done: Region := {};
    for i := 0 to |rects|
      invariant IsRendered(painted, work, scene, done)
      invariant forall p :: p in done <==> Covered(rects[..i], p.x, p.y)
    {
      assert rects[..i + 1] == rects[..i] + [rects[i]];
      CoveredAppend(rects[..i], rects[i]);
      var next := PaintRect(painted, scene, rects[i]);
      RenderedBoth(work, painted, next, scene, done, Pixels(rects[i]));
      painted := next;
      done := done + Pixels(rects[i]);
    }
    assert rects[..|rects|] == rects;
    assert done == area;
  }

  lemma RenderedBoth(work: Image, mid: Image, end: Image, scene: Image, a: Region, b: Region)
    requires IsRendered(mid, work, scene, a) && IsRendered(end, mid, scene, b)
    ensures IsRendered(end, work, scene, a + b)
  {
  }

  lemma RenderedOver(work: Image, erased: Image, end: Image, clear: Image, scene: Image, a: Region)
    requires IsRendered(erased, work, clear, a) && IsRendered(end, erased, scene, a)
    ensures IsRendered(end, work, scene, a)
  {
  }

  method DrawFrame(work: Image, frame: Image) returns (i: Image)
    ensures i.SameSize(work) && forall x, y :: i.Has(x, y) ==> i.At(x, y) == ColorOf(frame, x, y)
  {
    i := Make(work.width, work.height, (x, y) => ColorOf(frame, x, y));
  }

  ghost predicate IsFilled(i: Image, size: Image, c: Pixel) {
    i.SameSize(size) && forall x, y :: i.Has(x, y) ==> i.At(x, y) == c
  }

  method FillImage(width: nat, height: nat, c: Pixel) returns (i: Image)
    requires width >= 1 && height >= 1
    ensures i.width == width && i.height == height && IsFilled(i, i, c)
  {
    i := Make(width, height, (x, y) => c);
  }

  /** QImage::copy(0, 0, width, height): crops, or extends with zero pixels. */
  ghost predicate IsResized(i: Image, from: Image, width: nat, height: nat) {
    && i.width == width && i.height == height
    && forall x, y :: i.Has(x, y) ==> i.At(x, y) == if from.Has(x, y) then from.At(x, y) else 0
  }

  method Resize(from: Image, width: nat, height: nat) returns (i: Image)
    requires width >= 1 && height >= 1
    ensures IsResized(i, from, width, height)
  {
    i := Make(width, height, (x, y) => if from.Has(x, y) then from.At(x, y) else 0);
  }

  class GraphicsSceneBufferRenderer {
    var adapter: SceneAdapter?
    var minimizeDamageRegion: bool
    var updatesAvailable: bool
    const buffer1: Buffer
    const buffer2: Buffer
    var workBuffer: Buffer
    var otherBuffer: Buffer
    const damageRegion: TiledRegion
    const useFingerPrints: bool
    var comparer: ImageComparer
    var settings: ComparerSettings
    var pushedFullFrame: Option<Image>
    ghost var unreported: Region  // pixels of the scene that changed since sceneChanged was last emitted

    /** The pointers: two buffers of one size, and a comparer that names them in the right roles. */
    ghost predicate Valid()
      reads this`workBuffer, this`otherBuffer, this`comparer, this`settings, comparer, comparer.imageBefore, comparer.imageAfter
      reads comparer.moveAnalyzer, comparer.moveAnalyzer.imageBefore, comparer.moveAnalyzer.imageAfter, comparer.moveAnalyzer.searchAreaFingerPrints
    {
      && buffer1 != buffer2
      && ((workBuffer == buffer1 && otherBuffer == buffer2) || (workBuffer == buffer2 && otherBuffer == buffer1))
      && comparer.imageBefore == otherBuffer && comparer.imageAfter == workBuffer
      && comparer.Valid() && comparer.settings == settings
      && damageRegion.tileWidth >= 1 && damageRegion.tileHeight >= 1
    }

    /** The damage invariant. */
    ghost predicate Tracks()
      reads this`adapter, this`workBuffer, this`unreported, workBuffer, damageRegion, adapter
    {
      adapter != null ==> ShowsScene(workBuffer.image, adapter.scene, damageRegion.region, unreported)
    }

    /** New pixels in buffers of unchanged size leave everything wired as it was. */
    twostate lemma StillValid()
      requires old(Valid())
      requires unchanged(this`workBuffer, this`otherBuffer, this`comparer, this`settings)
      requires unchanged(comparer)
      requires unchanged(comparer.moveAnalyzer)
      requires unchanged(comparer.moveAnalyzer.searchAreaFingerPrints)
      requires buffer1.image.SameSize(old(buffer1.image)) && buffer2.image.SameSize(old(buffer2.image))
      ensures Valid()
    {
    }

    /** A renderer that has been attached to its scene, or to none, and given its first size. */
    constructor (adapter: SceneAdapter?, width: nat, height: nat, useFingerPrints: bool, memory: map<Point, Pixel>)
      requires width >= 1 && height >= 1
      ensures Valid() && Tracks() && fresh(buffer1) && fresh(buffer2) && fresh(damageRegion)
      ensures fresh(comparer) && fresh(comparer.moveAnalyzer) && fresh(comparer.moveAnalyzer.searchAreaFingerPrints)
      ensures this.adapter == adapter && updatesAvailable && settings == DEFAULT_SETTINGS && minimizeDamageRegion && pushedFullFrame.None?
      ensures this.useFingerPrints == useFingerPrints && damageRegion.tileWidth == 20 && damageRegion.tileHeight == 20
      ensures workBuffer.image.width == width && workBuffer.image.height == height
      ensures IsFilled(workBuffer.image, workBuffer.image, 0) && AllDamaged()
    {
      var b1, b2, damage := NewBuffers(width, height, memory);
      buffer1, buffer2, workBuffer, otherBuffer := b1, b2, b1, b2;
      this.adapter := adapter;
      minimizeDamageRegion := true;
      updatesAvailable := true;
      damageRegion := damage;
      this.useFingerPrints := useFingerPrints;
      settings := DEFAULT_SETTINGS;
      pushedFullFrame := None;
      unreported := {};
      comparer := new ImageComparer(b2, b1, useFingerPrints);
    }

    /** Two zero buffers, and a damage region that holds all of them. */
    static method NewBuffers(width: nat, height: nat, memory: map<Point, Pixel>) returns (b1: Buffer, b2: Buffer, damage: TiledRegion)
      requires width >= 1 && height >= 1
      ensures fresh(b1) && fresh(b2) && fresh(damage) && b1 != b2
      ensures b1.image == b2.image && b1.image.width == width && b1.image.height == height && IsFilled(b1.image, b1.image, 0)
      ensures damage.tileWidth == 20 && damage.tileHeight == 20
      ensures forall x, y :: b1.image.Has(x, y) ==> Point(x, y) in damage.region
    {
      var zero := FillImage(width, height, 0);
      b1 := new Buffer(zero, memory);
      b2 := new Buffer(zero, memory);
      damage := new TiledRegion(20, 20);
      var bounds := zero.Bounds();
      damage.Add(bounds);
      forall x, y | zero.Has(x, y) ensures Point(x, y) in damage.region {
        assert Point(x, y) in Pixels(bounds);
      }
    }

    /** initComparer. */
    method InitComparer()
      requires buffer1 != buffer2 && settings.Usable()
      requires (workBuffer == buffer1 && otherBuffer == buffer2) || (workBuffer == buffer2 && otherBuffer == buffer1)
      requires buffer1.image.SameSize(buffer2.image)
      requires damageRegion.tileWidth >= 1 && damageRegion.tileHeight >= 1
      modifies this`comparer
      ensures Valid() && fresh(comparer) && fresh(comparer.moveAnalyzer) && fresh(comparer.moveAnalyzer.searchAreaFingerPrints)
    {
      comparer := new ImageComparer(otherBuffer, workBuffer, useFingerPrints);
      comparer.SetSettings(settings);
    }

    method SetSettings(settings: ComparerSettings)
      requires Valid() && settings.Usable()
      modifies this`settings, comparer`settings, comparer`moveAnalyzer
      ensures Valid() && this.settings == settings && comparer == old(comparer)
      ensures fresh(comparer.moveAnalyzer) && fresh(comparer.moveAnalyzer.searchAreaFingerPrints)
    {
      this.settings := settings;
      comparer.SetSettings(settings);
    }

    /** Exchanges the buffers, lets the comparer follow, and copies the frame on to the new work buffer. */
    method SwapWorkBuffer()
      requires Valid()
      modifies this`workBuffer, this`otherBuffer, buffer1, buffer2
      modifies comparer`imageBefore, comparer`imageAfter, comparer.moveAnalyzer, comparer.moveAnalyzer.searchAreaFingerPrints
      ensures Valid()
      ensures workBuffer == old(otherBuffer) && otherBuffer == old(workBuffer)
      ensures workBuffer.image == otherBuffer.image == old(workBuffer.image)
    {
      SwapPointers();
      label swapped:
      workBuffer.image := otherBuffer.image;
      StillValid@swapped();
    }

    method SwapPointers()
      requires Valid()
      modifies this`workBuffer, this`otherBuffer
      modifies comparer`imageBefore, comparer`imageAfter, comparer.moveAnalyzer, comparer.moveAnalyzer.searchAreaFingerPrints
      ensures Valid()
      ensures workBuffer == old(otherBuffer) && otherBuffer == old(workBuffer)
    {
      if workBuffer == buffer1 {
        workBuffer := buffer2;
        otherBuffer := buffer1;
      } else {
        workBuffer := buffer1;
        otherBuffer := buffer2;
      }
      comparer.Swap();
    }

    ghost function Scene(): Option<Image>
      reads this`adapter, adapter
    {
      if adapter != null then Some(adapter.scene) else None
    }

    method AdvanceFrame()
      requires Valid()
      modifies this`workBuffer, this`otherBuffer, buffer1, buffer2
      modifies comparer`imageBefore, comparer`imageAfter, comparer.moveAnalyzer, comparer.moveAnalyzer.searchAreaFingerPrints
      ensures Valid()
      ensures otherBuffer.image == old(workBuffer.image)
      ensures IsNextFrame(workBuffer.image, old(workBuffer.image), Scene(), pushedFullFrame, damageRegion.region)
    {
      SwapWorkBuffer();
      PaintWorkBuffer();
    }

    /** paintUpdatesToBuffer: paints the next frame, keeps the last one, and returns where they differ. */
    method PaintUpdatesToBuffer() returns (rects: seq<Rect>)
      requires Valid()
      modifies this`workBuffer, this`otherBuffer, this`updatesAvailable, buffer1, buffer2, damageRegion
      modifies comparer`imageBefore, comparer`imageAfter, comparer.moveAnalyzer, comparer.moveAnalyzer.searchAreaFingerPrints
      ensures Valid()
      ensures otherBuffer.image == old(workBuffer.image)
      ensures IsNextFrame(workBuffer.image, old(workBuffer.image), Scene(), pushedFullFrame, old(damageRegion.region))
      ensures AllValid(rects) && (otherBuffer.image == workBuffer.image ==> rects == [])
      ensures forall x, y :: Differs(otherBuffer.image, workBuffer.image, x, y) ==> Covered(rects, x, y)
      ensures settings.tileWidth == 1 ==> CoverOnlyDifferences(rects, otherBuffer.image, workBuffer.image)
      ensures damageRegion.region == {} && !updatesAvailable && (old(Tracks()) ==> Tracks())
    {
      hide IsNextFrame, ShowsScene, Covered;
      ghost var last := workBuffer.image;
      rects := AdvanceAndCompare();
      ForgetDamage(last);
    }

    method AdvanceAndCompare() returns (rects: seq<Rect>)
      requires Valid()
      modifies this`workBuffer, this`otherBuffer, buffer1, buffer2
      modifies comparer`imageBefore, comparer`imageAfter, comparer.moveAnalyzer, comparer.moveAnalyzer.searchAreaFingerPrints
      ensures Valid()
      ensures otherBuffer.image == old(workBuffer.image)
      ensures IsNextFrame(workBuffer.image, old(workBuffer.image), Scene(), pushedFullFrame, damageRegion.region)
      ensures AllValid(rects) && (otherBuffer.image == workBuffer.image ==> rects == [])
      ensures forall x, y :: Differs(otherBuffer.image, workBuffer.image, x, y) ==> Covered(rects, x, y)
      ensures settings.tileWidth == 1 ==> CoverOnlyDifferences(rects, otherBuffer.image, workBuffer.image)
    {
      AdvanceFrame();
      rects := Differences();
    }

    method Differences() returns (rects: seq<Rect>)
      requires Valid()
      requires adapter == null && pushedFullFrame.None? ==> otherBuffer.image == workBuffer.image
      ensures AllValid(rects) && (otherBuffer.image == workBuffer.image ==> rects == [])
      ensures forall x, y :: Differs(otherBuffer.image, workBuffer.image, x, y) ==> Covered(rects, x, y)
      ensures settings.tileWidth == 1 ==> CoverOnlyDifferences(rects, otherBuffer.image, workBuffer.image)
    {
      rects := [];
      if adapter != null || pushedFullFrame.Some? {
        rects := comparer.FindDifferences();
      }
    }

    method ForgetDamage(ghost last: Image)
      requires Valid()
      requires IsNextFrame(workBuffer.image, last, Scene(), pushedFullFrame, damageRegion.region)
      modifies this`updatesAvailable, damageRegion
      ensures Valid() && damageRegion.region == {} && !updatesAvailable
      ensures adapter != null && ShowsScene(last, adapter.scene, old(damageRegion.region), unreported) ==> Tracks()
    {
      if adapter != null {
        NextFrameShowsScene(workBuffer.image, last, adapter.scene, damageRegion.region, unreported);
      }
      damageRegion.Clear();
      updatesAvailable := false;
    }

    /** Erases the damaged rectangles and renders the scene into them, or draws the pushed frame. */
    method PaintWorkBuffer()
      requires Valid()
      modifies workBuffer
      ensures Valid()
      ensures IsNextFrame(workBuffer.image, old(workBuffer.image), Scene(), pushedFullFrame, damageRegion.region)
    {
      if adapter != null {
        var rects := damageRegion.Rects();
        var erased := PaintRects(workBuffer.image, CLEAR, rects, damageRegion.region);
        var painted := PaintRects(erased, adapter.scene, rects, damageRegion.region);
        RenderedOver(workBuffer.image, erased, painted, CLEAR, adapter.scene, damageRegion.region);
        workBuffer.image := painted;
      } else if pushedFullFrame.Some? {
        var drawn := DrawFrame(workBuffer.image, pushedFullFrame.value);
        workBuffer.image := drawn;
      }
      StillValid();
    }

    /** The frame as update operations: they encode the step from the last frame to the next, for all settings. */
    method UpdateBufferAndGetUpdateOperations() returns (ops: seq<UpdateOperation>)
      requires Valid()
      modifies this`workBuffer, this`otherBuffer, this`updatesAvailable, buffer1, buffer2, damageRegion
      modifies comparer`imageBefore, comparer`imageAfter, comparer.moveAnalyzer, comparer.moveAnalyzer.searchAreaFingerPrints
      ensures Valid()
      ensures otherBuffer.image == old(workBuffer.image)
      ensures IsNextFrame(workBuffer.image, old(workBuffer.image), Scene(), pushedFullFrame, old(damageRegion.region))
      ensures Encodes(ops, old(workBuffer.image), workBuffer.image)
      ensures workBuffer.image == old(workBuffer.image) ==> ops == []
      ensures settings.tileWidth == 1 ==> Thrifty(ops, old(workBuffer.image), workBuffer.image)
      ensures !settings.analyzeMoves ==> MovesNothing(ops)
      ensures if minimizeDamageRegion then FillsAsAsked(ops, settings, workBuffer.image) else forall op :: op in ops ==> op.kind.Update?
      ensures damageRegion.region == {} && !updatesAvailable && (old(Tracks()) ==> Tracks())
    {
      hide IsNextFrame, ShowsScene, Encodes, Thrifty, Covered, CoverOnlyDifferences, MovesNothing;
      var rects := PaintUpdatesToBuffer();
      ops := OperationsFor(rects);
    }

    /** The two ways of turning the differing rectangles into operations. */
    method OperationsFor(rects: seq<Rect>) returns (ops: seq<UpdateOperation>)
      requires Valid() && AllValid(rects)
      requires forall x, y :: Differs(otherBuffer.image, workBuffer.image, x, y) ==> Covered(rects, x, y)
      requires settings.tileWidth == 1 ==> CoverOnlyDifferences(rects, otherBuffer.image, workBuffer.image)
      modifies comparer.moveAnalyzer
      ensures Valid()
      ensures Encodes(ops, otherBuffer.image, workBuffer.image) && (rects == [] ==> ops == [])
      ensures settings.tileWidth == 1 ==> Thrifty(ops, otherBuffer.image, workBuffer.image)
      ensures !settings.analyzeMoves ==> MovesNothing(ops)
      ensures if minimizeDamageRegion
              then FillsAsAsked(ops, settings, workBuffer.image) && exists found :: SameWrites(found, ops) && IsOptimized(found, ops)
              else AreUpdates(ops, rects)
    {
      hide Encodes, Thrifty, OpsWithin, CoverOnlyDifferences, MovesNothing, IsOptimized, SameWrites, FillsAsAsked;
      if minimizeDamageRegion {
        ops := MinimizedOperations(rects);
        ThriftyWhenExact(rects, ops);
        var optimized := OptimizeUpdateOperations(ops);
        SameWritesEncode(ops, optimized, otherBuffer.image, workBuffer.image);
        SameWritesThrifty(ops, optimized, otherBuffer.image, workBuffer.image);
        SameWritesFill(ops, optimized, settings, workBuffer.image);
        ops := optimized;
      } else {
        ops := PlainOperations(rects, otherBuffer.image, workBuffer.image);
        ThriftyWhenExact(rects, ops);
      }
    }

    lemma ThriftyWhenExact(rects: seq<Rect>, ops: seq<UpdateOperation>)
      requires Valid() && AllValid(rects)
      requires AllInside(rects, workBuffer.image) && !settings.fineGrainedMoves ==> OpsWithin(ops, rects)
      requires settings.tileWidth == 1 ==> CoverOnlyDifferences(rects, otherBuffer.image, workBuffer.image)
      ensures settings.tileWidth == 1 ==> Thrifty(ops, otherBuffer.image, workBuffer.image)
    {
      if settings.tileWidth == 1 {
        ExactCoverIsInside(rects, otherBuffer.image, workBuffer.image);
        WithinIsThrifty(ops, rects, otherBuffer.image, workBuffer.image);
      }
    }

    method MinimizedOperations(rects: seq<Rect>) returns (ops: seq<UpdateOperation>)
      requires Valid() && AllValid(rects)
      requires forall x, y :: Differs(otherBuffer.image, workBuffer.image, x, y) ==> Covered(rects, x, y)
      modifies comparer.moveAnalyzer
      ensures Valid()
      ensures Encodes(ops, otherBuffer.image, workBuffer.image) && (rects == [] ==> ops == [])
      ensures AllInside(rects, workBuffer.image) && !settings.fineGrainedMoves ==> OpsWithin(ops, rects)
      ensures !settings.analyzeMoves ==> MovesNothing(ops)
      ensures FillsAsAsked(ops, settings, workBuffer.image)
    {
      hide FillsAsAsked, IsDrawn;
      NothingFills(settings, workBuffer.image);
      ops := [];
      ghost var before, after := otherBuffer.image, workBuffer.image;
      for i := 0 to |rects|
        invariant Valid() && comparer.moveAnalyzer == old(comparer.moveAnalyzer) && (i == 0 ==> ops == [])
        invariant OpsSound(ops, before, after)
        invariant forall x, y :: Covered(rects[..i], x, y) && Differs(before, after, x, y) ==> WritesTo(ops, x, y)
        invariant AllInside(rects, after) && !settings.fineGrainedMoves ==> OpsWithin(ops, rects)
        invariant !settings.analyzeMoves ==> MovesNothing(ops)
        invariant FillsAsAsked(ops, settings, after)
      {
        var more := comparer.FindUpdateOperations(rects[i], rects);
        DrawnFillsAsAsked(more, settings, before, after, rects[i], comparer.moveAnalyzer.searchRadius, comparer.SearchIsSure());
        FillsConcat(ops, more, settings, after);
        assert rects[..i + 1] == rects[..i] + [rects[i]];
        CoveredAppend(rects[..i], rects[i]);
        WritesToConcat(ops, more);
        WithinOne(ops, more, rects, rects[i]);
        ops := ops + more;
      }
      assert rects[..|rects|] == rects;
    }

    method PushFullFrame(image: Image)
      modifies this`pushedFullFrame, this`updatesAvailable
      ensures adapter == null ==> pushedFullFrame == Some(image) && updatesAvailable
      ensures adapter != null ==> pushedFullFrame == old(pushedFullFrame) && updatesAvailable == old(updatesAvailable)
    {
      if adapter == null {
        pushedFullFrame := Some(image);
        updatesAvailable := true;
      }
    }

    /** fullUpdate: forgets the frame on both buffers and damages everything. */
    method FullUpdate()
      requires Valid()
      modifies this`updatesAvailable, buffer1, buffer2, damageRegion
      ensures Valid() && Tracks() && updatesAvailable
      ensures IsFilled(workBuffer.image, old(workBuffer.image), 0) && IsFilled(otherBuffer.image, old(otherBuffer.image), 0xFFFF_FFFF)
      ensures AllDamaged()
    {
      var white := FillImage(otherBuffer.image.width, otherBuffer.image.height, 0xFFFF_FFFF);
      var zero := FillImage(workBuffer.image.width, workBuffer.image.height, 0);
      otherBuffer.image := white;
      workBuffer.image := zero;
      StillValid();
      DamageAll();
      updatesAvailable := true;
    }

    ghost predicate AllDamaged()
      reads this`workBuffer, workBuffer, damageRegion
    {
      forall x, y :: workBuffer.image.Has(x, y) ==> Point(x, y) in damageRegion.region
    }

    /** The damage that the rectangle of the whole buffer makes. */
    ghost function WholeDamage(): Region
      requires damageRegion.tileWidth >= 1 && damageRegion.tileHeight >= 1
      reads this`workBuffer, workBuffer
    {
      Pixels(Aligned(workBuffer.image.Bounds(), damageRegion.tileWidth, damageRegion.tileHeight))
    }

    method DamageAll()
      requires damageRegion.tileWidth >= 1 && damageRegion.tileHeight >= 1
      modifies damageRegion
      ensures AllDamaged() && Tracks()
      ensures damageRegion.region == old(damageRegion.region) + WholeDamage()
    {
      var bounds := workBuffer.image.Bounds();
      damageRegion.Add(bounds);
      forall x, y | workBuffer.image.Has(x, y) ensures Point(x, y) in damageRegion.region {
        assert Point(x, y) in Pixels(bounds);
      }
    }

    method ResizeBuffers(width: nat, height: nat)
      requires Valid() && width >= 1 && height >= 1
      modifies this`comparer, buffer1, buffer2
      ensures Valid() && fresh(comparer) && fresh(comparer.moveAnalyzer) && fresh(comparer.moveAnalyzer.searchAreaFingerPrints)
      ensures IsResized(workBuffer.image, old(workBuffer.image), width, height)
    {
      var image1 := Resize(buffer1.image, width, height);
      var image2 := Resize(buffer2.image, width, height);
      buffer1.image := image1;
      buffer2.image := image2;
      InitComparer();
    }

    /** setSize: keeps the common part of both buffers, starts a new comparer and damages everything. */
    method SetSize(width: nat, height: nat)
      requires Valid() && Tracks()
      modifies this`updatesAvailable, this`comparer, buffer1, buffer2, damageRegion
      ensures Valid() && Tracks()
      ensures if width == 0 || height == 0 || (old(workBuffer.image).width == width && old(workBuffer.image).height == height)
              then workBuffer.image == old(workBuffer.image) && comparer == old(comparer) &&
                   damageRegion.region == old(damageRegion.region) && updatesAvailable == old(updatesAvailable)
              else IsResized(workBuffer.image, old(workBuffer.image), width, height) && AllDamaged() && updatesAvailable &&
                   damageRegion.region == WholeDamage() &&
                   fresh(comparer) && fresh(comparer.moveAnalyzer) && fresh(comparer.moveAnalyzer.searchAreaFingerPrints)
    {
      if width == 0 || height == 0 {
        return;
      }
      if buffer1.image.width != width || buffer1.image.height != height {
        ResizeBuffers(width, height);
        DamageAnew();
      }
    }

    method DamageAnew()
      requires damageRegion.tileWidth >= 1 && damageRegion.tileHeight >= 1
      modifies this`updatesAvailable, damageRegion
      ensures AllDamaged() && Tracks() && updatesAvailable && damageRegion.region == WholeDamage()
    {
      damageRegion.Clear();
      DamageAll();
      updatesAvailable := true;
    }

    /** The application draws into its scene. The renderer hears about the changed pixels only later. */
    method SceneIsDrawn(scene: Image, ghost changed: Region)
      requires Valid() && Tracks() && adapter != null
      requires forall x, y :: ColorOf(adapter.scene, x, y) != ColorOf(scene, x, y) ==> Point(x, y) in changed
      modifies adapter, this`unreported
      ensures Valid() && Tracks() && adapter.scene == scene && unreported == old(unreported) + changed
    {
      adapter.scene := scene;
      unreported := unreported + changed;
    }

    /** The sceneChanged slot: the reported rectangles, enlarged and clipped, become damage. */
    method SceneChanged(rects: seq<Rect>)
      requires Valid() && Tracks()
      requires forall r :: r in rects ==> (r.right - r.left + 1) >= 0 && (r.bottom - r.top + 1) >= 0
      modifies this`updatesAvailable, this`unreported, damageRegion
      ensures Valid() && Tracks() && updatesAvailable
      ensures old(damageRegion.region) <= damageRegion.region
      ensures unreported == set p | p in old(unreported) && !Covered(rects, p.x, p.y)
      ensures forall x, y :: CloseTo(rects, 2, 2, x, y) && workBuffer.image.Has(x, y) ==> Point(x, y) in damageRegion.region
      ensures forall p :: p in damageRegion.region && p !in old(damageRegion.region) ==>
                MayDamage(rects, workBuffer.image.Bounds(), damageRegion.tileWidth, damageRegion.tileHeight, p.x, p.y)
    {
      AddDamage(rects);
      CoveredIsClose(rects);
      unreported := set p | p in unreported && !Covered(rects, p.x, p.y);
      updatesAvailable := true;
    }

    method AddDamage(rects: seq<Rect>)
      requires damageRegion.tileWidth >= 1 && damageRegion.tileHeight >= 1
      requires forall r :: r in rects ==> (r.right - r.left + 1) >= 0 && (r.bottom - r.top + 1) >= 0
      modifies damageRegion
      ensures old(damageRegion.region) <= damageRegion.region
      ensures forall x, y :: CloseTo(rects, 2, 2, x, y) && workBuffer.image.Has(x, y) ==> Point(x, y) in damageRegion.region
      ensures forall p :: p in damageRegion.region && p !in old(damageRegion.region) ==>
                MayDamage(rects, workBuffer.image.Bounds(), damageRegion.tileWidth, damageRegion.tileHeight, p.x, p.y)
    {
      hide CloseTo, MayDamage, DamageOf;
      var bounds := workBuffer.image.Bounds();
      ghost var tw, th := damageRegion.tileWidth, damageRegion.tileHeight;
      CloseToNothing();
      for i := 0 to |rects|
        invariant old(damageRegion.region) <= damageRegion.region
        invariant forall x, y :: CloseTo(rects[..i], 2, 2, x, y) && bounds.Has(x, y) ==> Point(x, y) in damageRegion.region
        invariant forall p :: p in damageRegion.region && p !in old(damageRegion.region) ==>
                    MayDamage(rects[..i], bounds, tw, th, p.x, p.y)
      {
        assert rects[i] in rects && rects[..i + 1] == rects[..i] + [rects[i]];
        CloseToAppend(rects[..i], rects[i], 2, 2);
        MayDamageAppend(rects[..i], rects[i], bounds, tw, th);
        AddOne(rects[i], bounds);
      }
      assert rects[..|rects|] == rects;
    }

    /** One reported rectangle, enlarged by two pixels and clipped. */
    method AddOne(r: Rect, bounds: Rect)
      requires damageRegion.tileWidth >= 1 && damageRegion.tileHeight >= 1
      requires (r.right - r.left + 1) >= 0 && (r.bottom - r.top + 1) >= 0
      requires bounds.left == 0 && bounds.top == 0 && bounds.IsValid()
      modifies damageRegion
      ensures old(damageRegion.region) <= damageRegion.region
      ensures forall x, y :: r.Adjusted(-2, -2, 2, 2).Has(x, y) && bounds.Has(x, y) ==> Point(x, y) in damageRegion.region
      ensures forall p :: p in damageRegion.region && p !in old(damageRegion.region) ==>
                DamageOf(r, bounds, damageRegion.tileWidth, damageRegion.tileHeight, p.x, p.y)
    {
      hide Aligned, Rect.Intersected, DamageOf;
      var newRect := r.Adjusted(-2, -2, 2, 2).Intersected(bounds);
      ClippedDamage(r, bounds, newRect, damageRegion.tileWidth, damageRegion.tileHeight);
      damageRegion.Add(newRect);
    }
  }

  /** A rectangle lies that close. */
  predicate CloseTo(rects: seq<Rect>, dx: int, dy: int, x: int, y: int) {
    exists r :: r in rects && r.Adjusted(-dx, -dy, dx, dy).Has(x, y)
  }

  lemma CloseToNothing()
    ensures forall dx, dy, x, y :: !CloseTo([], dx, dy, x, y)
  {
  }

  lemma CloseToAppend(rects: seq<Rect>, r: Rect, dx: int, dy: int)
    ensures forall x, y :: CloseTo(rects + [r], dx, dy, x, y) <==> CloseTo(rects, dx, dy, x, y) || r.Adjusted(-dx, -dy, dx, dy).Has(x, y)
  {
    forall x, y | CloseTo(rects, dx, dy, x, y) ensures CloseTo(rects + [r], dx, dy, x, y) {
      var q :| q in rects && q.Adjusted(-dx, -dy, dx, dy).Has(x, y);
      assert q in rects + [r];
    }
    forall x, y | r.Adjusted(-dx, -dy, dx, dy).Has(x, y) ensures CloseTo(rects + [r], dx, dy, x, y) {
      assert r in rects + [r];
    }
  }

  lemma CoveredIsClose(rects: seq<Rect>)
    ensures forall x, y :: Covered(rects, x, y) ==> CloseTo(rects, 2, 2, x, y)
  {
    forall x, y | Covered(rects, x, y) ensures CloseTo(rects, 2, 2, x, y) {
      var r :| r in rects && r.Has(x, y);
      assert r.Adjusted(-2, -2, 2, 2).Has(x, y);
    }
  }

  /** What a reported rectangle may damage: pixels less than a tile and two pixels away; or, when it lies beside the buffer,
      the first tile. */
  predicate DamageOf(r: Rect, bounds: Rect, tileWidth: int, tileHeight: int, x: int, y: int) {
    if r.Adjusted(-2, -2, 2, 2).Overlaps(bounds) then r.Adjusted(-1 - tileWidth, -1 - tileHeight, 1 + tileWidth, 1 + tileHeight).Has(x, y)
    else Rect(0, 0, tileWidth, tileHeight).Has(x, y)
  }

  predicate MayDamage(rects: seq<Rect>, bounds: Rect, tileWidth: int, tileHeight: int, x: int, y: int) {
    exists r :: r in rects && DamageOf(r, bounds, tileWidth, tileHeight, x, y)
  }

  lemma MayDamageAppend(rects: seq<Rect>, r: Rect, bounds: Rect, tileWidth: int, tileHeight: int)
    ensures forall x, y :: MayDamage(rects, bounds, tileWidth, tileHeight, x, y) || DamageOf(r, bounds, tileWidth, tileHeight, x, y) ==>
                             MayDamage(rects + [r], bounds, tileWidth, tileHeight, x, y)
  {
    hide DamageOf;
    forall x, y | MayDamage(rects, bounds, tileWidth, tileHeight, x, y) || DamageOf(r, bounds, tileWidth, tileHeight, x, y)
      ensures MayDamage(rects + [r], bounds, tileWidth, tileHeight, x, y)
    {
      if DamageOf(r, bounds, tileWidth, tileHeight, x, y) {
        assert r in rects + [r];
      } else {
        var q :| q in rects && DamageOf(q, bounds, tileWidth, tileHeight, x, y);
        assert q in rects + [r];
      }
    }
  }

  lemma ClippedDamage(r: Rect, bounds: Rect, newRect: Rect, tileWidth: int, tileHeight: int)
    requires tileWidth >= 1 && tileHeight >= 1 && (r.right - r.left + 1) >= 0 && (r.bottom - r.top + 1) >= 0
    requires bounds.left == 0 && bounds.top == 0 && bounds.IsValid() && newRect == r.Adjusted(-2, -2, 2, 2).Intersected(bounds)
    ensures var added := Pixels(Aligned(newRect, tileWidth, tileHeight));
            && (forall x, y :: r.Adjusted(-2, -2, 2, 2).Has(x, y) && bounds.Has(x, y) ==> Point(x, y) in added)
            && forall p :: p in added ==> DamageOf(r, bounds, tileWidth, tileHeight, p.x, p.y)
  {
    if r.Adjusted(-2, -2, 2, 2).Overlaps(bounds) {
      AlignedCovers(newRect, tileWidth, tileHeight);
    } else {
      NothingAligned(newRect, tileWidth, tileHeight);
    }
  }

  /** Adding the null rectangle adds the whole first tile, unless tiles are a single pixel: the edges -1 are rounded up to 0,
      and then a tile further. */
  lemma NothingAligned(r: Rect, tileWidth: int, tileHeight: int)
    requires r.IsDefault() && tileWidth >= 1 && tileHeight >= 1
    ensures Aligned(r, tileWidth, tileHeight)
            == Rect(0, 0, if tileWidth == 1 then -1 else tileWidth, if tileHeight == 1 then -1 else tileHeight)
  {
    FirstEdge(tileWidth);
    FirstEdge(tileHeight);
  }

  lemma FirstEdge(tile: int)
    requires tile >= 1
    ensures AlignedUp(-1, tile) == if tile == 1 then -1 else tile
  {
    if tile > 1 {
      assert 1 / tile == 0 && 1 % tile == 1;
    }
  }

  lemma NothingFills(settings: ComparerSettings, after: Image)
    ensures FillsAsAsked([], settings, after)
  {
  }

  lemma FillsConcat(ops: seq<UpdateOperation>, more: seq<UpdateOperation>, settings: ComparerSettings, after: Image)
    requires FillsAsAsked(ops, settings, after) && FillsAsAsked(more, settings, after)
    ensures FillsAsAsked(ops + more, settings, after)
  {
    WritesConcat(ops, more);
  }

  lemma SameWritesFill(ops: seq<UpdateOperation>, other: seq<UpdateOperation>, settings: ComparerSettings, after: Image)
    requires SameWrites(ops, other) && FillsAsAsked(ops, settings, after)
    ensures FillsAsAsked(other, settings, after)
  {
  }

  /** One update for every rectangle, in order. */
  predicate AreUpdates(ops: seq<UpdateOperation>, rects: seq<Rect>) {
    |ops| == |rects| && forall i :: 0 <= i < |rects| ==> ops[i] == UpdateOperation(Update, rects[i], rects[i].TopLeft(), 0)
  }

  lemma WithinOne(ops: seq<UpdateOperation>, more: seq<UpdateOperation>, rects: seq<Rect>, r: Rect)
    requires r in rects
    ensures OpsWithin(ops, rects) && OpsWithin(more, [r]) ==> OpsWithin(ops + more, rects)
  {
    WritesConcat(ops, more);
  }

  lemma WritesToConcat(a: seq<UpdateOperation>, b: seq<UpdateOperation>)
    ensures forall x, y :: WritesTo(a, x, y) || WritesTo(b, x, y) ==> WritesTo(a + b, x, y)
    ensures forall w :: ListWrites(a + b, w) <==> ListWrites(a, w) || ListWrites(b, w)
  {
    WritesConcat(a, b);
    forall x, y | WritesTo(a, x, y) || WritesTo(b, x, y) ensures WritesTo(a + b, x, y) {
      var w :| (ListWrites(a, w) || ListWrites(b, w)) && w.dst == Point(x, y);
      assert ListWrites(a + b, w);
    }
  }

  /** Without minimizing: one update for every rectangle. */
  method PlainOperations(rects: seq<Rect>, before: Image, after: Image) returns (ops: seq<UpdateOperation>)
    requires before.SameSize(after)
    requires forall x, y :: Differs(before, after, x, y) ==> Covered(rects, x, y)
    ensures Encodes(ops, before, after) && (rects == [] ==> ops == [])
    ensures OpsWithin(ops, rects) && MovesNothing(ops) && AreUpdates(ops, rects)
  {
    ops := [];
    for i := 0 to |rects|
      invariant AreUpdates(ops, rects[..i])
      invariant OpsSound(ops, before, after) && OpsWithin(ops, rects) && MovesNothing(ops)
      invariant forall x, y :: Covered(rects[..i], x, y) ==> WritesTo(ops, x, y)
    {
      var op := UpdateOperation(Update, rects[i], rects[i].TopLeft(), 0);
      assert rects[..i + 1] == rects[..i] + [rects[i]];
      CoveredAppend(rects[..i], rects[i]);
      UpdateIsSound(op, before, after);
      WithinAppend(ops, op, rects, rects[i]);
      StillAppend(ops, op);
      WritesToAppend(ops, op);
      ops := ops + [op];
    }
    assert rects[..|rects|] == rects;
  }
}
