/** A full update through the methods of the renderer. */
module FullFrames {
  import opened Images
  import opened OpTools
  import opened Canvas
  import opened FullUpdates
  import opened BufferRenderers

  /** fullUpdate and the frame after it, for all settings: the frame encodes the step from a blank buffer; a blank
      scene sends nothing at all; and tiles of one pixel resynchronize every page exactly when the scene has no
      all-zero pixel. */
  method FullFrame(renderer: GraphicsSceneBufferRenderer) returns (ops: seq<UpdateOperation>, ghost zero: Image)
    requires renderer.Valid()
    modifies renderer`workBuffer, renderer`otherBuffer, renderer`updatesAvailable, renderer.buffer1, renderer.buffer2
    modifies renderer.damageRegion, renderer.comparer`imageBefore, renderer.comparer`imageAfter, renderer.comparer.moveAnalyzer
    modifies renderer.comparer.moveAnalyzer.searchAreaFingerPrints
    ensures renderer.Valid() && AllZero(zero) && Encodes(ops, zero, renderer.workBuffer.image)
    ensures AllZero(renderer.workBuffer.image) ==> ops == []
    ensures HasNoZeroPixel(renderer.workBuffer.image) ==> EveryPageShows(ops, renderer.workBuffer.image)
    ensures renderer.settings.tileWidth == 1 ==>
              (EveryPageShows(ops, renderer.workBuffer.image) <==> HasNoZeroPixel(renderer.workBuffer.image))
  {
    renderer.FullUpdate();
    zero := renderer.workBuffer.image;
    ops := renderer.UpdateBufferAndGetUpdateOperations();
    FullFrameReaches(ops, zero, renderer.workBuffer.image, renderer.settings.tileWidth == 1);
  }
}
