/** src/js/DisplayRenderer.js: the client half of the frame protocol, as the object whose callbacks the browser
    runs. Every callback is tied to the step function of the protocol with the same name. */
module DisplayRenderers {
  import opened Images
  import opened ImageAux
  import opened Canvas
  import P = Protocol

  class DisplayRenderer {
    var lastFrame: Option<int>
    var frameEndReceived: bool
    var frameErrors: nat
    var pendingPatchesCount: int
    var waitingForFullUpdate: bool
    var canvas: Image
    var frontCanvas: Image
    var loads: seq<P.Load>  // the image elements whose onload or onerror is still to come
    var sent: seq<P.ClientMessage>

    ghost function State(): P.Client
      reads this
    {
      P.Client(lastFrame, frameEndReceived, frameErrors, pendingPatchesCount, waitingForFullUpdate, canvas, frontCanvas, loads)
    }

    /** The state and the messages sent since. */
    twostate predicate Stepped(next: (P.Client, seq<P.ClientMessage>))
      reads this
    {
      State() == next.0 && sent == old(sent) + next.1
    }

    constructor (canvas: Image)
      ensures State() == P.Client(None, true, 0, 0, false, canvas, canvas, []) && sent == []
    {
      lastFrame, frameEndReceived, frameErrors, pendingPatchesCount := None, true, 0, 0;
      waitingForFullUpdate, loads, sent := false, [], [];
      this.canvas, frontCanvas := canvas, canvas;
    }

    method RequestFullUpdate(forced: bool)
      modifies this`waitingForFullUpdate, this`sent
      ensures waitingForFullUpdate && sent == old(sent) + [P.RequestFullUpdate(forced)]
    {
      waitingForFullUpdate := true;
      sent := sent + [P.RequestFullUpdate(forced)];
    }

    /** The back canvas has the size of the server's buffer, and the front canvas takes it over. */
    method FlipToFront()
      modifies this`frontCanvas
      ensures frontCanvas == canvas
    {
      frontCanvas := canvas;
    }

    method DetermineReadyState()
      modifies this
      ensures Stepped(P.DetermineReadyState(old(State())))
    {
      if frameEndReceived && pendingPatchesCount == 0 {
        if frameErrors > 0 {
          sent := sent + [P.Ready];
          RequestFullUpdate(true);
        } else {
          FlipToFront();
          sent := sent + [P.Ready];
        }
        frameErrors := 0;
      }
    }

    method ImageDone()
      modifies this
      ensures Stepped(P.ImageDone(old(State())))
    {
      pendingPatchesCount := pendingPatchesCount - 1;
      DetermineReadyState();
    }

    /** onload: the image replaces what the back canvas shows in its rectangle. */
    method ImageLoaded(i: nat)
      requires i < |loads| && loads[i].patch.Inline?
      modifies this
      ensures Stepped(P.ImageLoaded(old(State()), i))
    {
      canvas := Paint(canvas, frontCanvas, DrawImage(loads[i].rect, loads[i].patch.image));
      loads := P.Without(loads, i);
      ImageDone();
    }

    /** onerror. */
    method ImageFailed(i: nat)
      requires i < |loads|
      modifies this
      ensures Stepped(P.ImageFailed(old(State()), i))
    {
      frameErrors := frameErrors + 1;
      loads := P.Without(loads, i);
      ImageDone();
    }

    /** The commands of a frame: fR and mI draw at once, dI starts an image, and end closes the frame. */
    method Execute(m: P.Message)
      modifies this
      ensures Stepped(P.Execute(old(State()), m))
    {
      match m
      case FullUpdate(_) =>
      case Draw(_, payload) =>
        match payload {
          case Direct(command) =>
            canvas := Paint(canvas, frontCanvas, command);
          case DrawPatch(rect, patch) =>
            pendingPatchesCount := pendingPatchesCount + 1;
            loads := loads + [P.Load(rect, patch)];
        }
      case End(_) =>
        frameEndReceived := true;
        DetermineReadyState();
    }

    method MessageCallback(m: P.Message)
      modifies this
      ensures Stepped(P.MessageCallback(old(State()), m))
    {
      if waitingForFullUpdate && !m.FullUpdate? {
        return;
      }
      if m.FullUpdate? {
        waitingForFullUpdate := false;
        pendingPatchesCount := 0;
      }
      if lastFrame != Some(m.frame) {
        lastFrame := Some(m.frame);
        if pendingPatchesCount != 0 {
          pendingPatchesCount := 0;
          RequestFullUpdate(false);
          return;
        }
        frameEndReceived := false;
      }
      Execute(m);
    }
  }
}
