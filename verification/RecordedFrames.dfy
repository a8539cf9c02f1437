/** Recording a frame after the size of the buffer was set, through the methods of the renderer. */
module RecordedFrames {
  import opened Images
  import opened OpTools
  import opened Canvas
  import opened BufferRenderers
  import opened Players

  lemma ResizedIsUnique(i: Image, work: Image)
    requires IsResized(i, work, i.width, i.height)
    ensures i == Resized(work, i.width, i.height)
  {
    SameContentIsEqual(i, Resized(work, i.width, i.height));
  }

  /** setSize and the frame after it. Without move analysis, which is the default, the recorded frame plays back
      exactly, to whatever size the buffer has grown; with move analysis it does exactly when its differing pixels are
      written playably. */
  method ResizedFrame(renderer: GraphicsSceneBufferRenderer, width: nat, height: nat)
    returns (ops: seq<UpdateOperation>, ghost work: Image)
    requires renderer.Valid() && renderer.Tracks() && width >= 1 && height >= 1
    modifies renderer`workBuffer, renderer`otherBuffer, renderer`updatesAvailable, renderer`comparer
    modifies renderer.buffer1, renderer.buffer2, renderer.damageRegion
    modifies renderer.comparer`imageBefore, renderer.comparer`imageAfter, renderer.comparer.moveAnalyzer
    modifies renderer.comparer.moveAnalyzer.searchAreaFingerPrints
    ensures renderer.Valid() && work == old(renderer.workBuffer.image)
    ensures renderer.workBuffer.image.width == width && renderer.workBuffer.image.height == height
    ensures Encodes(ops, Resized(work, width, height), renderer.workBuffer.image)
    ensures !renderer.settings.analyzeMoves ==> forall frame, large :: PlaysBack(work, ops, renderer.workBuffer.image, frame, large)
    ensures forall frame, large :: PlaysBack(work, ops, renderer.workBuffer.image, frame, large)
                                   <==> PlayableThroughout(ops, work, Resized(work, width, height), renderer.workBuffer.image)
  {
    work := renderer.workBuffer.image;
    renderer.SetSize(width, height);
    if work.width == width && work.height == height {
      SameSizeIsUnchanged(work);
    } else {
      ResizedIsUnique(renderer.workBuffer.image, work);
    }
    ops := renderer.UpdateBufferAndGetUpdateOperations();
    FramesPlay(work, ops, renderer.workBuffer.image);
  }

  lemma FramesPlay(work: Image, ops: seq<UpdateOperation>, after: Image)
    requires Encodes(ops, Resized(work, after.width, after.height), after)
    ensures MovesNothing(ops) ==> PlayableThroughout(ops, work, Resized(work, after.width, after.height), after)
    ensures forall frame, large :: PlaysBack(work, ops, after, frame, large)
                                   <==> PlayableThroughout(ops, work, Resized(work, after.width, after.height), after)
  {
    hide PlaysBack, Encodes, PlayableThroughout;
    if MovesNothing(ops) {
      PlayableFrames(work, ops, after);
    }
    forall frame, large
      ensures PlaysBack(work, ops, after, frame, large) <==> PlayableThroughout(ops, work, Resized(work, after.width, after.height), after)
    {
      FramePlaysExactly(work, ops, after, frame, large);
    }
  }
}
