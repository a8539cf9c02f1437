/** The lock-step frame protocol: what the server half (src/display/graphicsscenedisplay.cpp) and the client half
    (src/js/DisplayRenderer.js) do at each step, as functions on their states. */
module Protocol {
  import opened Geometry
  import opened Images
  import opened ImageAux
  import opened OpTools
  import opened Canvas

  // ---------- messages

  /** A patch travels inside the message, or is fetched from the server by its id: frame and index. */
  datatype Patch = Inline(image: Image) | Remote(id: (int, int))

  datatype Payload =
    | DrawPatch(rect: Rect, patch: Patch)
    | Direct(command: Command)

  datatype Message =
    | FullUpdate(frame: int)
    | Draw(frame: int, payload: Payload)
    | End(frame: int)

  datatype ClientMessage = Ready | RequestFullUpdate(forced: bool)

  type Patches = map<(int, int), Image>

  // ---------- server

  datatype Server = Server(
    clientReady: bool,
    updateAvailable: bool,
    frame: int,
    timerActive: bool,
    fullUpdateRequested: bool,
    patches: Patches,
    updatesAvailable: bool,
    work: Image)

  predicate IsUpdateAvailable(s: Server) {
    s.clientReady && |s.patches| == 0 && s.updateAvailable
  }

  /** damagedRegionAvailable reaches the display. */
  function SceneDamaged(s: Server): Server {
    s.(updatesAvailable := true, timerActive := true)
  }

  function ClientReady(s: Server): Server {
    s.(clientReady := true, fullUpdateRequested := false, patches := map[], timerActive := s.timerActive || s.updatesAvailable)
  }

  function TimerTimeout(s: Server): Server {
    s.(timerActive := false, updateAvailable := s.updateAvailable || (s.clientReady && |s.patches| == 0))
  }

  function TakePatch(s: Server, id: (int, int)): (Server, Option<Image>) {
    if id in s.patches then (s.(patches := s.patches - {id}), Some(s.patches[id])) else (s, None)
  }

  /** The message for the operation at index i; large patches are left at the server. */
  function MessageOf(ops: seq<UpdateOperation>, i: nat, work: Image, frame: int, large: set<int>): seq<Message>
    requires i < |ops|
  {
    var op := ops[i];
    match op.kind
    case Update => [Draw(frame, DrawPatch(op.srcRect, if i in large then Remote((frame, i)) else Inline(CreatePatch(work, op.srcRect))))]
    case Move => [Draw(frame, Direct(MoveImage(op.srcRect, op.dstPoint)))]
    case Fill => [Draw(frame, Direct(FillRect(op.srcRect, op.fillColor)))]
    case NoOp => []
  }

  function MessagesUpTo(ops: seq<UpdateOperation>, n: nat, work: Image, frame: int, large: set<int>): seq<Message>
    requires n <= |ops|
  {
    if n == 0 then [] else MessagesUpTo(ops, n - 1, work, frame, large) + MessageOf(ops, n - 1, work, frame, large)
  }

  function PatchesUpTo(ops: seq<UpdateOperation>, n: nat, work: Image, frame: int, large: set<int>, patches: Patches): Patches
    requires n <= |ops|
  {
    if n == 0 then patches
    else if ops[n - 1].kind.Update? && n - 1 in large then
      PatchesUpTo(ops, n - 1, work, frame, large, patches)[(frame, n - 1) := CreatePatch(work, ops[n - 1].srcRect)]
    else PatchesUpTo(ops, n - 1, work, frame, large, patches)
  }

  function FrameMessages(marked: bool, ops: seq<UpdateOperation>, work: Image, frame: int, large: set<int>): seq<Message> {
    (if marked then [FullUpdate(frame)] else [])
    + MessagesUpTo(ops, |ops|, work, frame, large)
    + (if |ops| > 0 then [End(frame)] else [])
  }

  /** The renderer has delivered ops and a new work buffer; a frame with nothing to draw is not counted. */
  function NextFrame(s: Server, ops: seq<UpdateOperation>, work: Image): Server {
    s.(updateAvailable := false, updatesAvailable := false, work := work,
       frame := if |ops| > 0 then s.frame + 1 else s.frame, clientReady := s.clientReady && |ops| == 0)
  }

  /** takePendingMessages when an update is available. */
  function TakeFrame(s: Server, ops: seq<UpdateOperation>, work: Image, large: set<int>): (Server, seq<Message>) {
    var next := NextFrame(s, ops, work);
    (next.(patches := PatchesUpTo(ops, |ops|, work, next.frame, large, s.patches)),
     FrameMessages(s.fullUpdateRequested, ops, work, next.frame, large))
  }

  /** requestFullUpdate; zero is the work buffer after the renderer's fullUpdate. */
  function FullUpdateRequested(s: Server, forced: bool, zero: Image): Server {
    if s.fullUpdateRequested then s
    else
      var cleared := if forced then s.(patches := map[]) else s;
      var updated := SceneDamaged(cleared.(work := zero));
      (if forced then ClientReady(updated) else updated).(fullUpdateRequested := true)
  }

  // ---------- client

  /** An image element whose source is still loading. */
  datatype Load = Load(rect: Rect, patch: Patch)

  datatype Client = Client(
    lastFrame: Option<int>,
    frameEndReceived: bool,
    frameErrors: nat,
    pendingPatchesCount: int,
    waitingForFullUpdate: bool,
    canvas: Image,
    frontCanvas: Image,
    loads: seq<Load>)

  function Sent(c: Client, messages: seq<ClientMessage>): (Client, seq<ClientMessage>) { (c, messages) }

  /** _determineReadyState with _flipToFront. */
  function DetermineReadyState(c: Client): (Client, seq<ClientMessage>) {
    if !(c.frameEndReceived && c.pendingPatchesCount == 0) then Sent(c, [])
    else if c.frameErrors > 0 then Sent(c.(waitingForFullUpdate := true, frameErrors := 0), [Ready, RequestFullUpdate(true)])
    else Sent(c.(frontCanvas := c.canvas, frameErrors := 0), [Ready])
  }

  /** The tail of _messageCallback: the drawing commands and the end of a frame. */
  function Execute(c: Client, m: Message): (Client, seq<ClientMessage>) {
    match m
    case FullUpdate(_) => Sent(c, [])
    case Draw(_, Direct(command)) => Sent(c.(canvas := Paint(c.canvas, c.frontCanvas, command)), [])
    case Draw(_, DrawPatch(rect, patch)) =>
      Sent(c.(pendingPatchesCount := c.pendingPatchesCount + 1, loads := c.loads + [Load(rect, patch)]), [])
    case End(_) => DetermineReadyState(c.(frameEndReceived := true))
  }

  /** _messageCallback. */
  function MessageCallback(c: Client, m: Message): (Client, seq<ClientMessage>) {
    if c.waitingForFullUpdate && !m.FullUpdate? then Sent(c, [])
    else
      var c1 := if m.FullUpdate? then c.(waitingForFullUpdate := false, pendingPatchesCount := 0) else c;
      if c1.lastFrame == Some(m.frame) then Execute(c1, m)
      else if c1.pendingPatchesCount != 0 then
        Sent(c1.(lastFrame := Some(m.frame), pendingPatchesCount := 0, waitingForFullUpdate := true), [RequestFullUpdate(false)])
      else Execute(c1.(lastFrame := Some(m.frame), frameEndReceived := false), m)
  }

  function ImageDone(c: Client): (Client, seq<ClientMessage>) {
    DetermineReadyState(c.(pendingPatchesCount := c.pendingPatchesCount - 1))
  }

  function Without<T>(s: seq<T>, i: nat): seq<T>
    requires i < |s|
  {
    s[..i] + s[i + 1..]
  }

  /** onload of an image whose data has arrived. */
  function ImageLoaded(c: Client, i: nat): (Client, seq<ClientMessage>)
    requires i < |c.loads| && c.loads[i].patch.Inline?
  {
    var l := c.loads[i];
    ImageDone(c.(canvas := Paint(c.canvas, c.frontCanvas, DrawImage(l.rect, l.patch.image)), loads := Without(c.loads, i)))
  }

  /** onerror. */
  function ImageFailed(c: Client, i: nat): (Client, seq<ClientMessage>)
    requires i < |c.loads|
  {
    ImageDone(c.(frameErrors := c.frameErrors + 1, loads := Without(c.loads, i)))
  }

  // ---------- the whole system

  datatype System = System(server: Server, client: Client, toClient: seq<Message>, toServer: seq<ClientMessage>)

  datatype Event =
    | Damage
    | Timer
    | Take(ops: seq<UpdateOperation>, work: Image, large: set<int>)
    | Deliver
    | Fetch(i: nat)
    | Loaded(i: nat)
    | Answer

  predicate Enabled(s: System, e: Event) {
    match e
    case Damage => true
    case Timer => s.server.timerActive
    case Take(_, _, _) => true
    case Deliver => s.toClient != []
    case Fetch(i) => i < |s.client.loads| && s.client.loads[i].patch.Remote?
    case Loaded(i) => i < |s.client.loads| && s.client.loads[i].patch.Inline?
    case Answer => s.toServer != []
  }

  /** The encoder's promise about the operations of a frame; every other event is unconstrained. */
  ghost predicate Faithful(s: System, e: Event) {
    e.Take? ==> Encodes(e.ops, s.server.work, e.work)
  }

  /** A fetch that the server cannot answer makes the image fail. */
  function Fetched(s: System, i: nat): System
    requires Enabled(s, Fetch(i))
  {
    var l := s.client.loads[i];
    var (server, image) := TakePatch(s.server, l.patch.id);
    match image
    case Some(data) => s.(server := server, client := s.client.(loads := s.client.loads[i := Load(l.rect, Inline(data))]))
    case None =>
      var (client, sent) := ImageFailed(s.client, i);
      s.(server := server, client := client, toServer := s.toServer + sent)
  }

  /** What the client's next message does at the server; zero is the renderer's work buffer after fullUpdate. */
  function Answered(s: System, zero: Image): System
    requires Enabled(s, Answer)
  {
    s.(toServer := s.toServer[1..],
       server := match s.toServer[0]
                 case Ready => ClientReady(s.server)
                 case RequestFullUpdate(forced) => FullUpdateRequested(s.server, forced, zero))
  }

  function Zero(i: Image): (z: Image)
    ensures z.SameSize(i)
  {
    Make(i.width, i.height, (x, y) => 0)
  }

  function Step(s: System, e: Event): System
    requires Enabled(s, e)
  {
    match e
    case Damage => s.(server := SceneDamaged(s.server))
    case Timer => s.(server := TimerTimeout(s.server))
    case Take(ops, work, large) =>
      if !IsUpdateAvailable(s.server) then s
      else
        var (server, messages) := TakeFrame(s.server, ops, work, large);
        s.(server := server, toClient := s.toClient + messages)
    case Deliver =>
      var (client, sent) := MessageCallback(s.client, s.toClient[0]);
      s.(client := client, toClient := s.toClient[1..], toServer := s.toServer + sent)
    case Fetch(i) => Fetched(s, i)
    case Loaded(i) =>
      var (client, sent) := ImageLoaded(s.client, i);
      s.(client := client, toServer := s.toServer + sent)
    case Answer => Answered(s, Zero(s.server.work))
  }

  /** A new display and a new page: equal blank buffers, and the first full update owed. */
  ghost predicate Initial(s: System) {
    && s.server.clientReady && s.server.updateAvailable && s.server.timerActive && s.server.fullUpdateRequested
    && s.server.frame == 0 && s.server.patches == map[]
    && s.client == Client(None, true, 0, 0, false, s.server.work, s.server.work, [])
    && s.toClient == [] && s.toServer == []
  }

  /** A run: from an initial state, one enabled and faithful event after the other. */
  ghost predicate IsRun(states: seq<System>, events: seq<Event>) {
    && |states| == |events| + 1 && Initial(states[0])
    && forall k :: 0 <= k < |events| ==>
         Enabled(states[k], events[k]) && Faithful(states[k], events[k]) && states[k + 1] == Step(states[k], events[k])
  }
}
