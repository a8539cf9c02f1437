/** src/display/graphicsscenedisplay.cpp: the server half of the frame protocol, as the object that owns the
    renderer. Every method is tied to the step function of the protocol with the same name. */
module Displays {
  import opened Images
  import opened ImageAux
  import opened OpTools
  import opened Canvas
  import opened BufferRenderers
  import P = Protocol
  import ProtocolSafety

  lemma FilledIsZero(i: Image, size: Image)
    requires IsFilled(i, size, 0)
    ensures i == P.Zero(size)
  {
    var z := Make(size.width, size.height, (x, y) => 0);
    assert SameContent(i, z);
    SameContentIsEqual(i, z);
  }

  class GraphicsSceneDisplay {
    const renderer: GraphicsSceneBufferRenderer
    var updateAvailable: bool
    var frame: int
    var clientReady: bool
    var patches: P.Patches
    var fullUpdateRequested: bool
    var updateCheckTimerActive: bool

    ghost function State(): P.Server
      reads this, renderer`updatesAvailable, renderer`workBuffer, renderer.workBuffer
    {
      P.Server(clientReady, updateAvailable, frame, updateCheckTimerActive, fullUpdateRequested, patches,
               renderer.updatesAvailable, renderer.workBuffer.image)
    }

    constructor (renderer: GraphicsSceneBufferRenderer)
      ensures this.renderer == renderer
      ensures State() == P.Server(true, true, 0, true, true, map[], renderer.updatesAvailable, renderer.workBuffer.image)
    {
      this.renderer := renderer;
      updateAvailable, frame, clientReady, fullUpdateRequested, updateCheckTimerActive := true, 0, true, true, true;
      patches := map[];
    }

    /** Without a scene adapter a take is never refused. */
    predicate IsUpdateAvailable()
      reads this, renderer`adapter, renderer`updatesAvailable, renderer`workBuffer, renderer.workBuffer
      ensures IsUpdateAvailable() == (renderer.adapter == null || P.IsUpdateAvailable(State()))
    {
      if renderer.adapter != null then clientReady && |patches| == 0 && updateAvailable else true
    }

    method ClearPatches()
      modifies this`patches
      ensures patches == map[]
    {
      patches := map[];
    }

    method TriggerUpdateCheckTimer()
      modifies this`updateCheckTimerActive
      ensures updateCheckTimerActive
    {
      if !updateCheckTimerActive {
        updateCheckTimerActive := true;
      }
    }

    /** Slot for the renderer's damagedRegionAvailable. */
    method SceneDamagedRegionsAvailable()
      modifies this`updateCheckTimerActive
      ensures renderer.updatesAvailable ==> State() == P.SceneDamaged(old(State()))
      ensures updateCheckTimerActive
    {
      TriggerUpdateCheckTimer();
    }

    method TakePatch(id: (int, int)) returns (patch: Option<Image>)
      modifies this`patches
      ensures (State(), patch) == P.TakePatch(old(State()), id)
    {
      if id in patches {
        patch := Some(patches[id]);
        patches := patches - {id};
      } else {
        patch := None;
      }
    }

    /** The client has shown the last frame. */
    method ClientReady()
      modifies this`clientReady, this`fullUpdateRequested, this`patches, this`updateCheckTimerActive
      ensures State() == P.ClientReady(old(State()))
    {
      clientReady := true;
      fullUpdateRequested := false;
      if |patches| != 0 {
        ClearPatches();
      }
      assert patches == map[];
      if renderer.updatesAvailable {
        SceneDamagedRegionsAvailable();
      }
    }

    method UpdateCheckTimerTimeout()
      modifies this`updateCheckTimerActive, this`updateAvailable
      ensures State() == P.TimerTimeout(old(State()))
    {
      updateCheckTimerActive := false;
      if clientReady && |patches| == 0 {
        updateAvailable := true;
      }
    }

    /** One message for every operation; patches that are too large to be sent inline are stored for the client. */
    method AppendMessages(ops: seq<UpdateOperation>, marks: seq<P.Message>, large: set<int>) returns (messages: seq<P.Message>)
      modifies this`patches
      ensures messages == marks + P.MessagesUpTo(ops, |ops|, renderer.workBuffer.image, frame, large)
      ensures patches == P.PatchesUpTo(ops, |ops|, renderer.workBuffer.image, frame, large, old(patches))
    {
      messages := marks;
      var work := renderer.workBuffer.image;
      for i := 0 to |ops|
        invariant messages == marks + P.MessagesUpTo(ops, i, work, frame, large)
        invariant patches == P.PatchesUpTo(ops, i, work, frame, large, old(patches))
      {
        var op := ops[i];
        match op.kind
        case Update =>
          var patch := CreatePatch(work, op.srcRect);
          if i in large {
            patches := patches[(frame, i) := patch];
            messages := messages + [P.Draw(frame, P.DrawPatch(op.srcRect, P.Remote((frame, i))))];
          } else {
            messages := messages + [P.Draw(frame, P.DrawPatch(op.srcRect, P.Inline(patch)))];
          }
        case Move =>
          messages := messages + [P.Draw(frame, P.Direct(MoveImage(op.srcRect, op.dstPoint)))];
        case Fill =>
          messages := messages + [P.Draw(frame, P.Direct(FillRect(op.srcRect, op.fillColor)))];
        case NoOp =>
      }
    }

    method TakeUpdates() returns (ops: seq<UpdateOperation>)
      requires renderer.Valid()
      modifies this`updateAvailable
      modifies renderer`workBuffer, renderer`otherBuffer, renderer`updatesAvailable
      modifies renderer.buffer1, renderer.buffer2, renderer.damageRegion
      modifies renderer.comparer`imageBefore, renderer.comparer`imageAfter
      modifies renderer.comparer.moveAnalyzer, renderer.comparer.moveAnalyzer.searchAreaFingerPrints
      ensures renderer.Valid() && (old(renderer.Tracks()) ==> renderer.Tracks())
      ensures Encodes(ops, old(renderer.workBuffer.image), renderer.workBuffer.image)
      ensures renderer.workBuffer.image == old(renderer.workBuffer.image) ==> ops == []
      ensures State() == old(State()).(updateAvailable := false, updatesAvailable := false, work := renderer.workBuffer.image)
    {
      updateAvailable := false;
      ops := renderer.UpdateBufferAndGetUpdateOperations();
    }

    method CountFrame(drawn: bool)
      modifies this`clientReady, this`frame
      ensures State() == if drawn then old(State()).(clientReady := false, frame := old(frame) + 1) else old(State())
    {
      if drawn {
        clientReady := false;
        frame := frame + 1;
      }
    }

    /** The next frame of the renderer, counted when there is something to draw. */
    method NextFrame() returns (ops: seq<UpdateOperation>)
      requires renderer.Valid()
      modifies this`updateAvailable, this`clientReady, this`frame
      modifies renderer`workBuffer, renderer`otherBuffer, renderer`updatesAvailable
      modifies renderer.buffer1, renderer.buffer2, renderer.damageRegion
      modifies renderer.comparer`imageBefore, renderer.comparer`imageAfter
      modifies renderer.comparer.moveAnalyzer, renderer.comparer.moveAnalyzer.searchAreaFingerPrints
      ensures renderer.Valid() && (old(renderer.Tracks()) ==> renderer.Tracks())
      ensures Encodes(ops, old(renderer.workBuffer.image), renderer.workBuffer.image)
      ensures renderer.workBuffer.image == old(renderer.workBuffer.image) ==> ops == []
      ensures State() == P.NextFrame(old(State()), ops, renderer.workBuffer.image)
    {
      hide Encodes, GraphicsSceneBufferRenderer.Valid, GraphicsSceneBufferRenderer.Tracks;
      ops := TakeUpdates();
      CountFrame(|ops| > 0);
    }

    method FrameMessages(ops: seq<UpdateOperation>, large: set<int>, ghost before: P.Server) returns (messages: seq<P.Message>)
      requires State() == P.NextFrame(before, ops, renderer.workBuffer.image)
      modifies this`patches
      ensures (State(), messages) == P.TakeFrame(before, ops, renderer.workBuffer.image, large)
    {
      messages := [];
      if fullUpdateRequested {
        messages := messages + [P.FullUpdate(frame)];
      }
      ghost var marks := messages;
      messages := AppendMessages(ops, messages, large);
      assert messages + [] == messages;
      if |ops| > 0 {
        messages := messages + [P.End(frame)];
      }
      assert marks == if fullUpdateRequested then [P.FullUpdate(frame)] else [];
    }

    /** takePendingMessages: one faithful Take step of the protocol. The operations are those of the renderer. */
    method TakePendingMessages(large: set<int>) returns (messages: seq<P.Message>, ghost ops: seq<UpdateOperation>)
      requires renderer.Valid()
      modifies this`updateAvailable, this`clientReady, this`frame, this`patches
      modifies renderer`workBuffer, renderer`otherBuffer, renderer`updatesAvailable
      modifies renderer.buffer1, renderer.buffer2, renderer.damageRegion
      modifies renderer.comparer`imageBefore, renderer.comparer`imageAfter
      modifies renderer.comparer.moveAnalyzer, renderer.comparer.moveAnalyzer.searchAreaFingerPrints
      ensures renderer.Valid() && (old(renderer.Tracks()) ==> renderer.Tracks())
      ensures old(IsUpdateAvailable()) ==>
                (State(), messages) == P.TakeFrame(old(State()), ops, renderer.workBuffer.image, large)
                && Encodes(ops, old(renderer.workBuffer.image), renderer.workBuffer.image)
                && (renderer.workBuffer.image == old(renderer.workBuffer.image) ==> ops == [])
      ensures !old(IsUpdateAvailable()) ==> State() == old(State()) && messages == []
    {
      hide Encodes, P.TakeFrame, P.NextFrame;
      if !IsUpdateAvailable() {
        return [], [];
      }
      var updates := NextFrame();
      messages := FrameMessages(updates, large, old(State()));
      ops := updates;
    }

    method ResetRenderer(forced: bool)
      requires renderer.Valid()
      modifies this`patches, renderer`updatesAvailable, renderer.buffer1, renderer.buffer2, renderer.damageRegion
      ensures renderer.Valid() && renderer.Tracks() && renderer.AllDamaged() && renderer.updatesAvailable
      ensures State() == old(State()).(patches := if forced then map[] else old(patches), updatesAvailable := true,
                                       work := P.Zero(old(renderer.workBuffer.image)))
    {
      if forced {
        ClearPatches();
      }
      renderer.FullUpdate();
      FilledIsZero(renderer.workBuffer.image, old(renderer.workBuffer.image));
    }

    /** What follows the renderer's full update: its damage signal, and readiness when the update was forced. */
    method FullUpdateIsPending(forced: bool)
      requires renderer.updatesAvailable
      modifies this`clientReady, this`fullUpdateRequested, this`patches, this`updateCheckTimerActive
      ensures State() == (if forced then P.ClientReady(P.SceneDamaged(old(State()))) else P.SceneDamaged(old(State()))).(fullUpdateRequested := true)
    {
      SceneDamagedRegionsAvailable();
      if forced {
        ClientReady();
      }
      fullUpdateRequested := true;
    }

    method RequestFullUpdate(forced: bool)
      requires renderer.Valid()
      modifies this`clientReady, this`fullUpdateRequested, this`patches, this`updateCheckTimerActive
      modifies renderer`updatesAvailable, renderer.buffer1, renderer.buffer2, renderer.damageRegion
      ensures renderer.Valid()
      ensures State() == P.FullUpdateRequested(old(State()), forced, P.Zero(old(renderer.workBuffer.image)))
      ensures !old(fullUpdateRequested) ==> renderer.Tracks() && renderer.AllDamaged()
    {
      if fullUpdateRequested {
        return;
      }
      ResetRenderer(forced);
      FullUpdateIsPending(forced);
    }
  }

  /** Codec, protocol and renderer together: at every hand-over both canvases of the page show the scene, wherever it
      has not changed since it was last painted, reported or not. */
  lemma PageShowsScene(display: GraphicsSceneDisplay, adapter: SceneAdapter, states: seq<P.System>, events: seq<P.Event>, k: nat)
    requires P.IsRun(states, events) && k < |states| && states[k].server == display.State() && display.clientReady
    requires display.renderer.adapter == adapter && display.renderer.Tracks()
    ensures var damage, unreported := display.renderer.damageRegion.region, display.renderer.unreported;
            && ShowsScene(states[k].client.frontCanvas, adapter.scene, damage, unreported)
            && ShowsScene(states[k].client.canvas, adapter.scene, damage, unreported)
  {
    ProtocolSafety.HandOver(states, events, k);
  }
}
