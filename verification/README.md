# Viridity: frames, streams and sessions

A model of three protocol cores of Viridity, with proofs.

**Screen frames.** The server keeps two frame buffers and paints only what was damaged. It compares the buffers tile
by tile, looks for moved content, and emits update, fill and move operations, which an optimizer merges and reorders.
The browser page replays them on a back canvas, reads moves from the front canvas, flips, and answers that it is
ready. The main results are that replaying an encoding gives exactly the next frame, in any order and for all
settings, and that over whole runs the page shows the server's buffer at every hand-over.

**Byte streams.** The incremental WebSocket frame parser, the HTTP response writer and the query-string printer and
parser of the bundled Tufao library, each against what its reader has to get back.

**Sessions.** Use counts that change through event queues, the debounced attached and detached signals, and the
sweeps that remove expired sessions after a grace mark.

## How it is built

| files | contents |
|---|---|
| `Geometry`, `Images`, `ImageAux`, `Tiles` | rectangles with inclusive edges, regions, images, comparing and tiling |
| `FingerPrint`, `MoveAnalyzer` | the hash index, the Not-So-Naive search, the move search |
| `OpTools`, `ImageComparer`, `BufferRenderer` | the encoder: operations, optimizer, comparer, double buffer with damage |
| `Canvas`, `OptimizedReplay`, `Player`, `RecordedFrames` | decoders: what the page and the dump player make of the operations |
| `Protocol`, `ProtocolSafety` | both halves of the frame protocol as step functions, and their runs |
| `Continuations`, `FullUpdates`, `FullFrames`, `LostPages`, `MetRequests`, `Recovery`, `Reattachment` | what can happen from a state on: full updates, requests that are lost or met, recovery from failures and from lost connections |
| `Display`, `DisplayRenderer` | the server and the page as objects, tied to the step functions |
| `Bytes`, `Sequences`, `WebSocket`, `WebSocketDecoding`, `WebSocketNode` | the parser as functions, what it receives, the parser as an object |
| `HttpResponse`, `HttpHistory`, `HttpFraming`, `HttpRuns`, `HttpHeads`, `HttpServerResponse` | the writer as functions, what the order of calls says, the reader, bodies and heads after any calls, the writer as an object |
| `Session`, `SessionRuns`, `SessionUses`, `SessionManager` | sessions, the manager over whole runs, their lifetime told by the events, both as objects |
| `QueryString` | printing, parsing and the round trip |

Code that changes objects step by step is a class with methods; each such method states its new state as a function of
the old one, and the lemmas are about that function. An operation is *sound* if it writes only pixels of the next
frame, and a list is *complete* if it writes every pixel that differs. Sound and complete lists reach the next frame in
any order; this carries over to commands that are split into patches fetched and loaded in any order.

## What the code does where one might expect otherwise

Each of these is proved, and where the expected property depends on something, with the exact condition under which it
holds.

- A page that comes back after its connection was lost is answered with a forced full update. If the server heeds that
  request, the page is mended in every continuation exactly when no image of it is still loading
  (`Reattachment.ForcedFullUpdateResyncs`, `Reattachment.ComingBack`; `Recovery.MendingPage` and
  `Reattachment.HeededPageGoesOn` say what mending means for it). If the server ignores the request, the page is not,
  unless it still draws images of a frame whose end it has seen, which it will answer; for the page that was connected
  `Reattachment.OldPageComesBack` has the whole condition. The server ignores the request while an earlier full update
  is pending and unanswered (src/display/graphicsscenedisplay.cpp:459), as it is during the very first frame: then the
  new page stays blank (`Reattachment.LostDuringFirstFrame`). A page that has seen the end of the frame while it was
  offline queues its answer and sends it first (src/js/Viridity.js:546-572, 750), and is heeded. An image that still
  loads when the mark arrives takes one off a count that the mark has just set to zero, and the page may never answer
  again (`Reattachment.LateImagesStrand`). All this is about one display; one that nobody has used for two minutes is
  removed (src/display/graphicsscenedisplaymanager.cpp:298-309), and the page then gets a new one.
- A full update compares with an all-zero frame. Scenes without all-zero pixels are brought to every page, for all
  settings; an all-zero scene sends nothing; and where the encoder writes nothing but differing pixels, as it does with
  tiles of one pixel, the condition is exact (`FullFrames.FullFrame`). The larger tiles of other settings may happen to
  overwrite an all-zero pixel, so that for them `FullUpdates.ResyncExactly` is a claim about what an encoding is allowed
  to do.
- A page that asks for an unforced full update, and does not ask again, never gets one if a frame is on its way to it or
  being drawn (`LostPages.UnforcedRequestLosesPage`). In the first case it ignores the end of the frame and never
  answers; in the second its answer makes the server forget the request, and a second request helps
  (`MetRequests.AskingAgainHelps`). If no frame is on its way, one that the server sends before the request arrives
  loses the page just the same; no continuation does exactly when a mark is sure already
  (`MetRequests.RequestIsSurelyMet`). The only unforced request of the page is at src/js/DisplayRenderer.js:366, in a
  branch that is never reached, neither in runs without failures (`ProtocolSafety.NoTrouble`) nor in runs in which images
  fail (`Recovery.FailuresAreMended`); the debug button of line 181 passes its event object, which makes the request a
  forced one.
- A message in more than one WebSocket frame is never delivered as sent, and an empty one is not delivered at all
  (`WebSocketDecoding.DeliveredExactly`, and `WebSocketDecoding.DeliveredBetweenControls` with pings between the
  fragments); the last fragment's data appears in front of the next message or in the answer to the next ping
  (`WebSocketDecoding.FragmentLeaks`, `WebSocketDecoding.FragmentLeaksIntoControl`).
- `end` takes a chunk after trailers and drops it (`HttpRuns.TakenIsDelivered`).
- Query strings whose percent sign is the ampersand do not round-trip (`QueryStrings.RoundTripExactly`).
- The dump player loses moves out of the part by which a buffer has grown: a recorded frame plays back exactly when it
  does without them (`Players.FramePlaysExactly`). Without move analysis, which is the default, it always does
  (`RecordedFrames.ResizedFrame`); `Players.PlaysBackExactly` is a claim about what an encoding is allowed to do.
- The search never matches needles of two or three rows, and ignores the last two rows of longer ones
  (`FingerPrint.IndexOf`); the index refresh stops one column early (`FingerPrint.RefreshMissesLastColumn`). Moves
  stay exact, because the pixels decide (`MoveAnalyzers.MoveAnalyzer.ProcessRect`).
- The changed rectangle of an area without changes is not always empty (`ImageAux.FindChangedRect32`), and a tiled
  region covers what is added but is not aligned (`Tiles.AlignedOvershoots`); a change reported beside the buffer damages
  its first tile (`BufferRenderers.NothingAligned`).

## Model

| member | source | states |
|---|---|---|
| `ProtocolSafety.HandOver` | src/display/graphicsscenedisplay.cpp:165-452 | in every state of every run in which the server holds the client's readiness, both canvases of the page equal the server's work buffer, no drawing is outstanding, no patch is stored and no message is on its way back |
| `ProtocolSafety.OneToken` | src/display/graphicsscenedisplay.cpp:165-180 | in every state of every run exactly one of these holds: the server is ready to send, an end of frame is on its way, the page is still drawing a closed frame, the answer is on its way; stored patches imply that the server is not ready |
| `ProtocolSafety.NoTrouble` | src/js/DisplayRenderer.js:357-371 | over runs without load errors neither side reaches its trouble branch: a ready message finds no stored patches, a new frame finds no pending images, a patch that is asked for is there, and no frame is given up |
| `ProtocolSafety.DamageIsNoticed` | src/display/graphicsscenedisplay.cpp:120-186 | while the server may send, reported damage always leaves the check timer running or an update flagged |
| `ProtocolSafety.DamageIsServed` | src/display/graphicsscenedisplay.cpp:120-186 | the same told by the events: damage that no take has used up is served, however long the client had kept the server waiting |
| `ProtocolSafety.TimerRests` | src/display/graphicsscenedisplay.cpp:286-300 | the check timer rests when it has run out, until there is damage or an answer |
| `ProtocolSafety.TakesArePaced` | src/display/graphicsscenedisplay.cpp:286-345 | between two takes that leave messages for the page the check timer has run out while the server was free to send, however often a dispatch is asked for |
| `ProtocolSafety.WaitingEnds` | src/display/graphicsscenedisplay.cpp:165-452 | while the server waits, some step of the frame in transit is enabled, every such step shortens a natural-number distance, and damage, timer and take change neither that distance nor the waiting: no deadlock, no livelock |
| `ProtocolSafety.ForwardShortens` | src/js/DisplayRenderer.js:320-624 | delivering, fetching, loading and answering each shorten the distance to the next hand-over |
| `ProtocolSafety.RunKeepsInv` | src/display/graphicsscenedisplay.cpp:165-452 | the protocol invariant holds in every state of every run, for every interleaving of damage, timer, frames, deliveries, patch fetches and image loads |
| `ProtocolSafety.StepKeepsInv` | src/js/DisplayRenderer.js:320-624 | each single step of either side keeps the invariant |
| `ProtocolSafety.TakeFrameKeepsInv` | src/display/graphicsscenedisplay.cpp:323-452 | sending a frame turns the idle state into one whose outstanding drawing leads, in any order, to the new work buffer |
| `ProtocolSafety.TakeNothingKeepsInv` | src/display/graphicsscenedisplay.cpp:333-345 | a take without operations changes nothing that the page shows and keeps the server ready |
| `ProtocolSafety.FrameResolves` | src/display/graphicsscenedisplay.cpp:374-443 | the messages of a frame, with remote patches looked up among those stored, are exactly the drawing commands of its operations, and every stored patch is named by one message |
| `ProtocolSafety.DeliverDrawKeepsInv` | src/js/DisplayRenderer.js:392-430 | executing a fill or a move at once, or starting an image, keeps the rest of the frame sound and complete |
| `ProtocolSafety.DeliverEndKeepsInv` | src/js/DisplayRenderer.js:618-623 | the end of a frame with nothing pending flips and answers only when the back canvas equals the server's buffer |
| `ProtocolSafety.FetchKeepsInv` | src/display/graphicsscenedisplay.cpp:149-163 | a patch the page asks for is stored, is handed out once, and keeps its meaning on the way |
| `ProtocolSafety.LoadedKeepsInv` | src/js/DisplayRenderer.js:439-485 | images may finish loading in any order; the last one after the end of the frame flips and answers with both canvases equal to the server's buffer |
| `ProtocolSafety.ExecutedKeepsConverging` | src/js/DisplayRenderer.js:392-485 | executing any one of the outstanding commands, wherever it stands, keeps the rest converging |
| `Reattachment.ForcedFullUpdateResyncs` | src/display/graphicsscenedisplaymanager.cpp:217-228 | a page that comes back, with any canvases, any failed images and perhaps an answer in its queue, is answered with a forced full update; if the server heeds it, every state of every continuation, failing images included, is in the protocol invariant or at a stage of the recovery, exactly when no image of the page is still loading; otherwise, or if the server ignores it, some continuation leads to where nothing can bring the page back, except perhaps for a page that still draws images of a frame whose end it has seen |
| `Recovery.MendingPage` | src/display/graphicsscenedisplay.cpp:454-476 | what that means: whenever the server may send, has nothing to hear and owes no full update, both canvases equal its buffer, and out of the invariant some step leads on once the server has noticed its damage |
| `Reattachment.HeededPageGoesOn` | src/display/graphicsscenedisplay.cpp:286-305 | after a request that met no earlier one some step leads on in every state of every continuation until the invariant holds |
| `Reattachment.ComingBack` | src/display/graphicsscenedisplay.cpp:454-476 | the same for any page, old or new, that comes back at the end of any run, whatever failures and requests the run had |
| `Reattachment.OldPageComesBack` | src/display/graphicsscenedisplay.cpp:454-476 | for the page that was connected, at every moment of every run in which any images may fail: having lost what was on its way and attaching again at once, it is mended in every continuation exactly when its request is heeded and it has no image loading, or its request is ignored and it is still drawing a frame whose end it has seen |
| `Reattachment.LateImagesStrand` | src/js/DisplayRenderer.js:350-355 | the mark sets the count of pending patches to zero without stopping the images that are loading; they take the count below zero, and then the page never answers and no further request is heeded |
| `Reattachment.StrandedForever` | src/display/graphicsscenedisplay.cpp:457-459 | a forced request that meets a pending full update of a waiting server changes nothing, and no later step, request or attachment does: both canvases stay as they are |
| `Reattachment.LostDuringFirstFrame` | src/display/graphicsscenedisplay.cpp:337-342 | the failing input: the connection is lost during the first frame of a new display, and the new page that comes back stays blank for ever, whatever happens then |
| `Reattachment.ServerStaysSound` | src/display/graphicsscenedisplay.cpp:454-476 | in every run, lost connections and returning pages included, a server that may send stores no patches, and its buffer is blank while a full update is pending |
| `Recovery.FailuresAreMended` | src/js/DisplayRenderer.js:106-131 | over runs in which any images may fail: whenever the server may send and the page waits for no full update, both canvases equal the server's buffer; the page never asks for an unforced full update; and every state is at a stage of the recovery from which some step leads on and from which the protocol can come back to its invariant |
| `Recovery.RecoveryAdvances` | src/js/DisplayRenderer.js:106-131 | no step leads back to an earlier stage of a recovery, and within a stage every step that leads on uses up a natural number: delivering, fetching, loading, answering, and the timer and the take of a server that owes an update |
| `Recovery.RecoveryNeverRests` | src/display/graphicsscenedisplay.cpp:286-345 | out of the invariant some step that leads on is enabled |
| `Recovery.RecoveryGoesOn` | src/js/DisplayRenderer.js:111-117 | each step and each failing image leads from the invariant or a stage of a recovery to the invariant or a stage, and a page that waits for the mark goes on waiting until the invariant holds or a frame is spoiled again |
| `Recovery.SpoiledForwardShortens` | src/js/DisplayRenderer.js:433-485 | the messages, fetches and loads of a frame with a failed image each shorten a distance, so that the page comes to report the failure |
| `Recovery.SpoiledReturns` | src/js/DisplayRenderer.js:106-131 | from a frame with a failed image some continuation leads through the report and the full update back to the invariant |
| `Recovery.OwedTake` | src/display/graphicsscenedisplay.cpp:374-443 | the full-update frame is sent behind whatever the page still ignores, and once its mark is seen the rest leads every canvas to the scene |
| `FullFrames.FullFrame` | src/display/graphicsscenebufferrenderer.cpp:176-233 | fullUpdate and the frame after it, through the methods and for all settings: a scene without all-zero pixels is brought to every page, an all-zero scene sends nothing at all, and with tiles of one pixel every page is brought to the scene exactly when no pixel of it is all-zero |
| `FullUpdates.ThriftyResyncsExactly` | src/display/graphicsscenebufferrenderer.cpp:225-233 | a full frame that writes nothing but differing pixels brings every canvas to the scene exactly when no pixel of the scene is all-zero |
| `FullUpdates.ResyncExactly` | src/display/graphicsscenebufferrenderer.cpp:225-233 | what the contract of an encoding is worth after a full update: all lists of operations that encode the step from a blank frame bring every canvas to the scene exactly when no pixel of the scene is all-zero |
| `FullUpdates.FullFrameSuitsEveryCanvas` | src/display/graphicsscenebufferrenderer.cpp:123-174 | for a scene without all-zero pixels the frame after a full update writes every pixel and contains no usable move |
| `FullUpdates.ZeroPixelSurvives` | src/display/graphicsscenebufferrenderer.cpp:225-233 | an encoding may leave an all-zero pixel out, and then a canvas that shows anything else there keeps it |
| `LostPages.UnforcedRequestLosesPage` | src/js/DisplayRenderer.js:154-162 | a page that asks for an unforced full update, and does not ask again, waits in every continuation exactly when a frame without a full-update mark ahead of it is on its way or being drawn; otherwise some continuation brings it a mark |
| `MetRequests.RequestIsSurelyMet` | src/js/DisplayRenderer.js:154-162 | no continuation of an unforced request loses the page exactly when a full-update mark is on its way already, or a pending request is held by a server that may send |
| `MetRequests.FrameBeforeRequestLoses` | src/display/graphicsscenedisplay.cpp:337-382 | the race: a frame sent before the request arrives carries no mark, and the page then waits for ever |
| `MetRequests.AskingAgainHelps` | src/js/DisplayRenderer.js:106-131 | with any number of further unforced requests a page waits in every continuation exactly when a frame without a mark ahead of it is still on its way; one that is being drawn is answered, and a second request then finds the server ready |
| `MetRequests.StepKeepsSure` | src/js/DisplayRenderer.js:346-355 | every step of either side keeps what makes the mark sure, and a page that has got it does not wait again |
| `MetRequests.StepKeepsDoomed` | src/js/DisplayRenderer.js:346-347 | a page that ignores the end of a frame never answers it, and the server goes on waiting |
| `LostPages.LostForever` | src/display/graphicsscenedisplay.cpp:165-169 | while no mark is on its way and the server, whenever it may send, has none to send, the page goes on waiting in every continuation without a further request |
| `LostPages.InterruptedPageWaits` | src/js/DisplayRenderer.js:357-371 | a page that another frame interrupts while images load asks once, unforced, and ignores everything up to the mark |
| `LostPages.StepKeepsLost` | src/js/DisplayRenderer.js:346-347 | each step of either side keeps a lost page lost, including fetches and loads of the frame it had begun to draw |
| `LostPages.RequestCanBeMet` | src/display/graphicsscenedisplay.cpp:374-382 | when the server is ready, or about to be, or a mark is on its way, some continuation ends the waiting |
| `Displays.PageShowsScene` | src/display/graphicsscenebufferrenderer.cpp:123-174 | at every hand-over of every run both canvases of the page show the scene at each pixel that is neither damaged nor changed without having been reported |
| `Displays.GraphicsSceneDisplay.TakePendingMessages` | src/display/graphicsscenedisplay.cpp:323-452 | one take: a faithful protocol step whose operations encode the step from the last frame to the next, and no operations at all when the frame has not changed; nothing when no update is available |
| `Displays.GraphicsSceneDisplay.AppendMessages` | src/display/graphicsscenedisplay.cpp:383-443 | one message for every operation in order, with large patches stored under frame and index |
| `Displays.GraphicsSceneDisplay.ClientReady` | src/display/graphicsscenedisplay.cpp:165-180 | readiness clears the full-update flag and leftover patches, and restarts the timer when damage waits |
| `Displays.GraphicsSceneDisplay.UpdateCheckTimerTimeout` | src/display/graphicsscenedisplay.cpp:286-305 | the timer stops, and an update is flagged only for a ready client without stored patches |
| `Displays.GraphicsSceneDisplay.TakePatch` | src/display/graphicsscenedisplay.cpp:149-163 | a stored patch is returned and removed, an unknown id changes nothing |
| `Displays.GraphicsSceneDisplay.RequestFullUpdate` | src/display/graphicsscenedisplay.cpp:454-476 | a pending request is not repeated; otherwise the frame is forgotten, everything is damaged, and a forced request also makes the client ready |
| `DisplayRenderers.DisplayRenderer.MessageCallback` | src/js/DisplayRenderer.js:320-624 | the page's message handler is the protocol step: ignored messages, full-update marks, new frames, drawing and ends |
| `DisplayRenderers.DisplayRenderer.Execute` | src/js/DisplayRenderer.js:392-623 | drawing commands act on the back canvas and read moves from the front canvas |
| `DisplayRenderers.DisplayRenderer.DetermineReadyState` | src/js/DisplayRenderer.js:106-131 | ready is sent exactly when the frame is closed and nothing is pending; with load errors it is followed by a forced full-update request |
| `DisplayRenderers.DisplayRenderer.ImageLoaded` | src/js/DisplayRenderer.js:439-485 | a loaded image is drawn and counted down |
| `DisplayRenderers.DisplayRenderer.ImageFailed` | src/js/DisplayRenderer.js:433-437 | a failed image is counted as an error and counted down |
| `Canvas.DecodeEncoding` | src/js/DisplayRenderer.js:392-485 | the commands of any encoding, replayed on the image before in any order and with moves read from it, give exactly the image after |
| `Canvas.ReplayInAnyOrder` | src/js/DisplayRenderer.js:392-485 | sound and complete commands reach the image whatever their order |
| `Canvas.PaintKeepsComplete` | src/js/DisplayRenderer.js:392-485 | executing one command, not only the first, keeps the others complete |
| `Canvas.EncodingIsComplete` | src/display/graphicsscenedisplay.cpp:374-443 | the commands of an encoding write only right pixels, and write every pixel that differs |
| `Canvas.CreatePatch` | src/display/graphicsscenedisplay.cpp:188-214 | a patch has the size of its rectangle and the pixels of the work buffer below it |
| `ImageComparers.ImageComparer.FindDifferences` | src/display/comparer/imagecomparer.cpp:68-89 | disjoint rectangles that cover every differing pixel and no pixel two tiles away from all of them, none for equal images, and nothing but differing pixels for tiles of one pixel |
| `ImageComparers.ImageComparer.FindUpdateOperations` | src/display/comparer/imagecomparer.cpp:122-181 | for all settings the operations write only right pixels and write every differing pixel of the search area; without fine-grained moves they write nothing outside it; nothing is sent when nothing has changed, and otherwise the fine-grained moves and one operation for every changed tile, of the kind that the settings and the tile ask for |
| `ImageComparers.ImageComparer.MovesAndTiles` | src/display/comparer/imagecomparer.cpp:133-160 | the moves of small tiles, including every one with a copy around it while the search has budget left, and tiles for exactly what they leave over; or tiles of the changed rectangle at once, with a new search |
| `ImageComparers.ImageComparer.ProcessTiles` | src/display/comparer/imagecomparer.cpp:161-181 | tile after tile, in their order, or by threads in any order: as many operations as tiles have changed, each of them drawing a changed tile and every changed tile drawn by one; every differing pixel gets written |
| `ImageComparers.ImageComparer.ProcessRect` | src/display/comparer/imagecomparer.cpp:196-251 | an operation exactly for a tile that has changed: one sound operation that writes all its differing pixels and nothing outside the tile, for the changed box when tiles are minified and for the whole tile otherwise |
| `ImageComparers.ImageComparer.ChooseOperation` | src/display/comparer/imagecomparer.cpp:207-250 | a fill with that colour exactly when fills are analyzed and the area has one colour; otherwise a move exactly when moves of whole tiles are analyzed and the analyzer has a source, from that source; otherwise an update of the area |
| `ImageComparers.ImageComparer.SetSettings` | src/display/comparer/imagecomparer.cpp:55-66 | new settings come with a new analyzer wired to the same images |
| `ImageComparers.ImageComparer.Swap` | src/display/comparer/imagecomparer.cpp:183-194 | before and after change places here and in the analyzer |
| `ImageComparers.MoveIsSound` | src/display/comparer/imagecomparer.cpp:226-240 | an exact move writes only right pixels, and writes all of its destination |
| `ImageComparers.DrawnFillsAsAsked` | src/display/comparer/imagecomparer.cpp:207-219 | there are no fills unless they are analyzed; and when they are, with no fine-grained moves before them, an image of one colour is sent as fills only |
| `OpTools.OptimizeUpdateOperations` | src/display/comparer/imagecompareroptools.cpp:118-174 | the result makes exactly the same pixel writes of every kind and has no more operations than the input; kind by kind they are merged where that makes fewer, and then no pixel is taken up twice in a bucket |
| `OpTools.OptimizeVectorizedOperations` | src/display/comparer/imagecompareroptools.cpp:56-84 | merging buckets of one move vector, in any order of the hash, keeps exactly their writes |
| `OpTools.OptimizeFillOperations` | src/display/comparer/imagecompareroptools.cpp:86-116 | merging buckets of one colour keeps exactly their writes |
| `OpTools.MergeVectorBucket` | src/display/comparer/imagecompareroptools.cpp:62-80 | the rectangles of the united region, shifted by the vector, write what the bucket wrote |
| `OptimizedReplays.SameWritesReplayAlike` | src/display/comparer/imagecompareroptools.cpp:118-174 | two lists with the same writes, and no pixel written with two values, replay to the same picture on every canvas |
| `OptimizedReplays.ReplayOfWrites` | src/display/comparer/imagecompareroptools.cpp:118-174 | what a conflict-free list leaves at a pixel is the value of any of its writes there, and otherwise the old pixel |
| `Players.GraphicsSceneDisplayDumpIterator.AdvanceToNextFrame` | src/display/tools/graphicsscenedisplayplayer.cpp:80-207 | a full entry replaces the buffer; a diff entry resizes it and plays its messages in order, with moves read from a copy of the last frame |
| `Players.FramePlaysExactly` | src/display/tools/graphicsscenedisplayplayer.cpp:112-190 | the recorded messages and patches of a frame play back exactly when each of its differing pixels is written by an operation that does not move it out of the part by which the buffer has grown |
| `RecordedFrames.ResizedFrame` | src/display/graphicsscenebufferrenderer.cpp:176-262 | setSize and the frame after it, through the methods: without move analysis, the default, the recorded frame plays back at every size; with it, exactly under the condition of the frame |
| `Players.PlayableFrames` | src/display/tools/graphicsscenedisplayplayer.cpp:112-190 | a frame that moves nothing, one whose buffer has not grown, and one over a blank buffer meet that condition |
| `Players.PlaysBackExactly` | src/display/tools/graphicsscenedisplayplayer.cpp:112-190 | what the contract of an encoding is worth to the player: all lists of operations that encode a frame of a given size play back exactly when the buffer does not grow or shows nothing but zero pixels |
| `Players.EncodingPlays` | src/display/tools/graphicsscenedisplayplayer.cpp:128-190 | the commands of an encoding, played without clearing and drawing only what their sources have, reach the frame exactly when its differing pixels are written playably |
| `Players.PlayedFrameIsCommands` | src/display/tools/graphicsscenedisplayplayer.cpp:128-190 | the recorded messages and patches of a frame play the commands of its operations |
| `Players.GrownFrameFails` | src/display/tools/graphicsscenedisplayplayer.cpp:116-128 | an encoding may move a zero pixel out of the part by which the buffer has grown, and then the player loses it |
| `BufferRenderers.GraphicsSceneBufferRenderer.UpdateBufferAndGetUpdateOperations` | src/display/graphicsscenebufferrenderer.cpp:176-214 | the operations encode the step from the last to the next frame, for all settings; none when nothing changed; with tiles of one pixel nothing but differing pixels is written, without move analysis nothing is moved, without minimizing everything is an update, and with it an image of one colour is sent as fills when these are analyzed, and nothing as a fill when they are not; damage is used up and its invariant kept |
| `BufferRenderers.GraphicsSceneBufferRenderer.PaintUpdatesToBuffer` | src/display/graphicsscenebufferrenderer.cpp:123-174 | the last frame is kept in the other buffer, the damage is painted into the work buffer, and the answer covers every difference |
| `BufferRenderers.GraphicsSceneBufferRenderer.PaintWorkBuffer` | src/display/graphicsscenebufferrenderer.cpp:137-160 | erasing and rendering the damaged rectangles gives the scene there and leaves the rest |
| `BufferRenderers.GraphicsSceneBufferRenderer.SwapWorkBuffer` | src/display/graphicsscenebufferrenderer.cpp:330-349 | the buffers change places, the comparer follows, and the frame is copied on |
| `BufferRenderers.GraphicsSceneBufferRenderer.FullUpdate` | src/display/graphicsscenebufferrenderer.cpp:225-233 | work buffer all zero, other buffer all ones, everything damaged |
| `BufferRenderers.GraphicsSceneBufferRenderer.SetSize` | src/display/graphicsscenebufferrenderer.cpp:235-272 | a new size keeps the common part, starts a new comparer and damages everything; an equal or empty size changes nothing |
| `BufferRenderers.GraphicsSceneBufferRenderer.SceneChanged` | src/display/graphicsscenebufferrenderer.cpp:289-308 | every pixel of the buffer within two pixels of a reported rectangle becomes damage, and nothing a tile and two pixels away from all of them does, except for the first tile when a report lies beside the buffer |
| `BufferRenderers.NothingAligned` | src/display/comparer/tiles.cpp:123-135 | that is what adding an empty rectangle to a tiled region does, unless tiles are a single pixel |
| `BufferRenderers.GraphicsSceneBufferRenderer.SceneIsDrawn` | src/display/graphicsscenebufferrenderer.cpp:289-308 | drawing in the scene keeps the damage invariant as long as the changed pixels are still to be reported |
| `BufferRenderers.GraphicsSceneBufferRenderer.SetSettings` | src/display/graphicsscenebufferrenderer.cpp:115-121 | settings reach the comparer and keep the wiring of the buffers |
| `BufferRenderers.GraphicsSceneBufferRenderer.PushFullFrame` | src/display/graphicsscenebufferrenderer.cpp:216-223 | a pushed frame is taken only without a scene adapter |
| `BufferRenderers.GraphicsSceneBufferRenderer.InitComparer` | src/display/graphicsscenebufferrenderer.cpp:94-103 | the new comparer names the other buffer as before and the work buffer as after |
| `BufferRenderers.NextFrameShowsScene` | src/display/graphicsscenebufferrenderer.cpp:123-174 | painting the damage makes the buffer show the scene everywhere but at unreported changes |
| `BufferRenderers.PlainOperations` | src/display/graphicsscenebufferrenderer.cpp:203-214 | without minimizing, exactly one update for every rectangle, in order, is an encoding that writes nothing outside the rectangles |
| `BufferRenderers.GraphicsSceneBufferRenderer.OperationsFor` | src/display/graphicsscenebufferrenderer.cpp:190-214 | the minimized and optimized operations, or one update for every rectangle, as the setting says; either encodes the step |
| `MoveAnalyzers.MoveAnalyzer.ProcessRect` | src/display/comparer/moveanalyzer.cpp:136-228 | every source returned is an exact copy inside the image, and the one that the order of the search says: that of the first known vector that leads to the tile, from the latest to the oldest; without one that of the first of the given areas and the surroundings; none when all these miss, the miss that reaches the threshold came first, or the search is off. While it stays on, the exhaustive search finds every copy in the surroundings. A hit moves its vector to the front |
| `MoveAnalyzers.MoveAnalyzer.CopyIsFound` | src/display/comparer/moveanalyzer.cpp:182-210 | a copy of the tile within the search radius is always found by the exhaustive search, unless the misses in the areas before it reach the threshold |
| `MoveAnalyzers.MoveAnalyzer.KnownCopyIsFound` | src/display/comparer/moveanalyzer.cpp:150-180 | a vector that was remembered leads to every tile that has moved by it, however far and whatever the budget |
| `MoveAnalyzers.MoveAnalyzer.FindMovedRectExhaustive` | src/display/comparer/moveanalyzer.cpp:296-371 | the first position in row-major order in the clipped area whose pixels match, and an empty rectangle exactly when there is none |
| `MoveAnalyzers.MoveAnalyzer.FindMovedRectAreaFingerPrint` | src/display/comparer/moveanalyzer.cpp:280-294 | the answer is where the index finds the row hashes of the template and the pixels match, and an empty rectangle exactly when the index has no such position; it is an exact move |
| `MoveAnalyzers.MoveAnalyzer.FindMovedRect` | src/display/comparer/moveanalyzer.cpp:269-278 | the answer of the index when there is one and the width fits, otherwise that of the exhaustive search; either is an exact move |
| `MoveAnalyzers.MoveAnalyzer.FindMoveOperations` | src/display/comparer/moveanalyzer.cpp:230-267 | a new search; every tile of the area is moved exactly or left over, and no pixel both; while the budget of misses lasts, the exhaustive search moves every tile that has a copy in its surroundings |
| `MoveAnalyzers.MoveAnalyzer.SearchAreas` | src/display/comparer/moveanalyzer.cpp:182-210 | the areas are searched in their order until one has the template; every area without it is a miss, the miss that reaches the threshold switches the search off and ends it, and nothing else ends it early |
| `MoveAnalyzers.MoveAnalyzer.Remember` | src/display/comparer/moveanalyzer.cpp:211-226 | the vector is in front, once if it was there once, and the others follow in their order |
| `MoveAnalyzers.MoveAnalyzer.Swap` | src/display/comparer/moveanalyzer.cpp:83-109 | the images change places, the latest 200 vectors stay, and exactly the index entries with a damaged pixel behind their first column are hashes of the new image before, the others being what they were |
| `FingerPrint.IndexOf` | src/display/comparer/areafingerprint.cpp:127-224 | the Not-So-Naive search returns the first index of the clamped window at which the compared rows agree, -1 if there is none, and -1 for needles of two or three rows |
| `FingerPrint.NoMatch` | src/display/comparer/areafingerprint.cpp:178-218 | the shifts k and l skip no match |
| `FingerPrint.AreaFingerPrints.InitFromImage` | src/display/comparer/areafingerprint.cpp:276-285 | for templates of at least two columns every entry is the hash of its pixels |
| `FingerPrint.AreaFingerPrints.UpdateFromImage` | src/display/comparer/areafingerprint.cpp:287-326 | the refreshed entries are fresh, all others unchanged |
| `FingerPrint.AreaFingerPrints.FindPosition` | src/display/comparer/areafingerprint.cpp:388-418 | the first column of the search area whose first index exists and is accepted by the matcher, and no position when there is no such column or the area is lower than the needle; a column whose first index is refused is given up |
| `FingerPrint.UpdateColumn` | src/display/comparer/areafingerprint.cpp:103-125 | a column of row hashes is overwritten from the start index on |
| `FingerPrint.RefreshMissesLastColumn` | src/display/comparer/areafingerprint.cpp:287-326 | for every image size, changed rectangle and template width: after the refresh an entry is right, whatever was changed inside the rectangle, exactly when it was refreshed or does not start in the last changed column |
| `FingerPrint.LastColumnGoesStale` | src/display/comparer/areafingerprint.cpp:295-301 | for each entry that starts in the last changed column some change inside the rectangle gives its pixels another hash |
| `FingerPrint.RowHashDepends` | src/display/comparer/areafingerprint.h:31-39 | a row hash depends on nothing but its own pixels |
| `FingerPrint.HashIsTotal` | src/display/comparer/areafingerprint.h:35-39 | the hash of a row is the sum of its pixels modulo 2 to the power of 32 |
| `FingerPrint.EndZeroSearchesAll` | src/display/comparer/areafingerprint.cpp:138-140 | an end index of zero or less does not stop the search at the first row: it goes through the whole column |
| `Tiles.VerticallyUniteRects` | src/display/comparer/tiles.cpp:29-63 | the in-place loop computes the fold of uniting each rectangle into every result rectangle it fits |
| `Tiles.UniteAllCover` | src/display/comparer/tiles.cpp:29-63 | uniting covers exactly the same pixels with no more rectangles |
| `Tiles.UniteAllDisjoint` | src/display/comparer/tiles.cpp:29-63 | on disjoint banded rectangles the united ones are disjoint again |
| `Tiles.UnitedRegionRects` | src/display/comparer/tiles.cpp:118-121 | the rectangles of a region after uniting are an exact disjoint cover of it |
| `Tiles.SplitRectIntoTiles` | src/display/comparer/tiles.cpp:65-97 | an exact disjoint partition into tiles of full or left-over size, in both directions |
| `Tiles.TiledRegion.Add` | src/display/comparer/tiles.cpp:123-135 | the region grows by the aligned rectangle, which contains every non-negative rectangle added |
| `Tiles.AlignedCovers` | src/display/comparer/tiles.cpp:123-135 | the aligned form contains the rectangle and is less than a tile larger on each side |
| `Tiles.AlignedOvershoots` | src/display/comparer/tiles.cpp:130-131 | the aligned form is one pixel wider and higher than a whole number of tiles |
| `ImageAux.RowsMatch` | src/display/comparer/imageaux.h:44-57 | two moving row pointers compare exactly the pixels of the area |
| `ImageAux.ContentMatches` | src/display/comparer/imageaux.h:72-82 | two clipped areas match when they have the same size and the same pixels |
| `ImageAux.ClippedMatchInside` | src/display/comparer/imageaux.h:72-82 | for an area inside the second image a match is exact and lies inside the first image |
| `ImageAux.ClippedMatchInPlace` | src/display/comparer/imageaux.h:72-82 | at its own place an area matches exactly when no pixel of it differs |
| `ImageAux.FindChangedRect32` | src/display/comparer/imageaux.cpp:134-169 | the bounding box of all differing pixels; without differences an empty rectangle, except for a single pixel and for an area off the images or without pixels |
| `ImageAux.GetSolidRectColor` | src/display/comparer/imageaux.cpp:98-132 | a colour exactly when all pixels of the area inside the image have it |
| `WebSocketDecoding.MessagesArrive` | 3rdparty/tufao/src/websocket.cpp:548-774 | unfragmented non-empty messages, pings and pongs arrive exactly, in order and once each, for all three length forms and for every way of cutting the bytes into reads |
| `WebSocketDecoding.ClosingHandshake` | 3rdparty/tufao/src/websocket.cpp:776-793 | whichever side begins and however the bytes are read, the peer returns the code in a close frame, both sides end up closing, the one who began closes the socket when it hears the answer, and the peer closes it at once exactly if it is the server |
| `WebSocketDecoding.OwnRoleIsRefused` | 3rdparty/tufao/src/websocket.cpp:603-627 | a frame masked as the reader itself would mask is refused: close with a protocol error, and no message from there on |
| `WebSocketDecoding.ViolationIsRefused` | 3rdparty/tufao/src/websocket.cpp:603-627 | so is every frame with the wrong masking bit and every fragmented control frame |
| `WebSocketDecoding.UnknownControlIsRefused` | 3rdparty/tufao/src/websocket.cpp:804-810 | a control frame of no known kind is an error that closes the connection |
| `WebSocketDecoding.DeliveredExactly` | 3rdparty/tufao/src/websocket.cpp:736-760 | from a clean boundary a message is delivered as it was sent exactly when it is a single frame with some data |
| `WebSocketDecoding.FragmentLeaks` | 3rdparty/tufao/src/websocket.cpp:739-752 | the data of a final continuation is put in front of the next message |
| `WebSocketDecoding.FragmentLeaksIntoControl` | 3rdparty/tufao/src/websocket.cpp:736-811 | the same into a control frame: a ping is answered, a pong reported and a close frame returned with that data in front of its own |
| `WebSocketDecoding.ControlsAreApart` | 3rdparty/tufao/src/websocket.cpp:736-760 | pings and pongs between the fragments of a message are answered as they were sent and change nothing about the message |
| `WebSocketDecoding.DeliveredBetweenControls` | 3rdparty/tufao/src/websocket.cpp:736-760 | with pings and pongs between its fragments, too, a message is delivered as it was sent exactly when it is one frame with data |
| `WebSocketDecoding.TailIsReceived` | 3rdparty/tufao/src/websocket.cpp:736-760 | what the continuations of a message yield: with data in the last, all the data before it, and the last data stays behind; without, nothing, and the whole message stays behind |
| `WebSocketDecoding.ReadsReceiveFrames` | 3rdparty/tufao/src/websocket.cpp:548-601 | whatever the reads are, the parser goes through the frames the peer has written, one by one |
| `WebSocketDecoding.FrameIsReceived` | 3rdparty/tufao/src/websocket.cpp:603-763 | a frame at the head of the buffer is received whole, and the rest is parsed from there |
| `WebSocketDecoding.UnmaskMask` | 3rdparty/tufao/src/websocket.cpp:765-774 | unmasking undoes masking, also where the 8-bit masking index wraps around |
| `WebSocketDecoding.SizeIsParsed` | 3rdparty/tufao/src/websocket.cpp:603-686 | all three length forms are read back |
| `WebSockets.ReadsAreOneRead` | 3rdparty/tufao/src/websocket.cpp:548-601 | reads that are not refused are parsed as one read of all their bytes |
| `WebSockets.ReadTwice` | 3rdparty/tufao/src/websocket.cpp:548-601 | two reads are one read of both, unless the first was refused: then one read leaves the second part unread in the buffer |
| `WebSockets.ParseWithMore` | 3rdparty/tufao/src/websocket.cpp:581-601 | more bytes in the buffer change nothing that has been parsed |
| `WebSockets.StepWithMore` | 3rdparty/tufao/src/websocket.cpp:603-763 | a step that does not wait for data does not look at what follows |
| `WebSockets.TakeChunkTwice` | 3rdparty/tufao/src/websocket.cpp:722-734 | a payload taken in two chunks is the payload taken in one, with the masking index carried over |
| `WebSockets.Step` | 3rdparty/tufao/src/websocket.cpp:581-601 | every turn of the loop uses up bytes, or leaves an empty payload for the next frame: the loop ends |
| `WebSocketNodes.WebSocket.ReadData` | 3rdparty/tufao/src/websocket.cpp:548-579 | one read appends to the buffer and parses as far as the bytes go, with the signals and socket calls of the step function in order; a closed socket parses nothing |
| `WebSocketNodes.WebSocket.ParseBuffer` | 3rdparty/tufao/src/websocket.cpp:581-601 | the loop runs the steps until one waits or refuses |
| `WebSocketNodes.WebSocket.ParseFrame` | 3rdparty/tufao/src/websocket.cpp:603-642 | header checks, refusals and the choice of the length form |
| `WebSocketNodes.WebSocket.ParsePayloadData` | 3rdparty/tufao/src/websocket.cpp:705-763 | empty payloads, partial chunks, and the end of control, single, first and continued frames |
| `WebSocketNodes.WebSocket.DecodeFragment` | 3rdparty/tufao/src/websocket.cpp:765-774 | byte by byte the key is applied and the index advances and wraps |
| `WebSocketNodes.WebSocket.EvaluateControlFrame` | 3rdparty/tufao/src/websocket.cpp:776-813 | close, ping, pong and unknown control frames, each with its answer; the payload is cleared |
| `HttpRuns.ChunkedResponseDecodes` | 3rdparty/tufao/src/httpserverresponse.cpp:186-392 | after any calls with an end in them, an HTTP/1.1 body decodes (RFC 7230, section 4.1) to the chunks and trailers that the order of the calls says, and the device is closed unless kept alive |
| `HttpRuns.TakenIsDelivered` | 3rdparty/tufao/src/httpserverresponse.cpp:381-390 | every chunk that a call took is in the decoded body exactly when end is not called with data after trailers |
| `HttpRuns.BufferedResponseIsWhole` | 3rdparty/tufao/src/httpserverresponse.cpp:191-200 | after any calls with an end in them, an HTTP/1.0 body is all chunks that the order of the calls says are taken, in order |
| `HttpHeads.ContentLengthIsBodyLength` | 3rdparty/tufao/src/httpserverresponse.cpp:336-353 | the length that an HTTP/1.0 head states is the length of its body, which is all chunks taken |
| `HttpHistories.TakenExactly` | 3rdparty/tufao/src/httpserverresponse.cpp:80-392 | whether a call takes its argument, told by the kinds and the order of the calls before it: a chunk when it is not empty, a head was written and neither trailers nor an end came before, a head once, trailers after data and before the end |
| `HttpHistories.HistoryTellsState` | 3rdparty/tufao/src/httpserverresponse.cpp:80-392 | the state of the writer after any calls is what their order says |
| `HttpHeads.HeadCarriesHeaders` | 3rdparty/tufao/src/httpserverresponse.cpp:80-353 | after any calls that have sent the header fields, the bytes at the device read as the version, the status code, the phrase and the fields of the first writeHead, then under every name the values last set by the caller, with those the writer adds or replaces, and then the body |
| `HttpHeads.HeadDecodes` | 3rdparty/tufao/src/httpserverresponse.cpp:80-110 | status line, fields and blank line are read back (RFC 7230, sections 3.1.2 and 3.2) |
| `HttpHeads.SentValues` | 3rdparty/tufao/src/httpserverresponse.cpp:208-222 | transfer encoding and connection are announced, or the length stated, each as the first value of its name; the values of all other names are those the caller has set |
| `HttpHeads.ReplacedValues` | 3rdparty/tufao/src/httpserverresponse.cpp:345-353 | replacing a header replaces its first value or adds one, and leaves the values of every other name |
| `HttpHeads.SameNameExactly` | 3rdparty/tufao/src/ibytearray.h:110-113 | header names are the same when they differ in nothing but the case of their letters |
| `HttpRuns.FinishedOnce` | 3rdparty/tufao/src/httpserverresponse.cpp:297-392 | the state only advances, and finished is emitted once, when the response ends |
| `HttpRuns.StateAdvances` | 3rdparty/tufao/src/httpserverresponse.cpp:80-392 | no call goes back to an earlier state, and after the end no call changes anything but the headers |
| `HttpRuns.RunKeepsChunked` | 3rdparty/tufao/src/httpserverresponse.cpp:186-392 | in every state the HTTP/1.1 body is what its state and the order of the calls say: chunks, the last chunk, trailers, the final line |
| `HttpFraming.BodyDecodes` | 3rdparty/tufao/src/httpserverresponse.cpp:232-240 | chunks, last chunk and well-formed trailers decode to their data and fields, with nothing left over |
| `HttpFraming.ChunkDecodes` | 3rdparty/tufao/src/httpserverresponse.cpp:232-240 | a chunk with its hexadecimal size decodes to its data |
| `HttpFraming.NumberFolds` | 3rdparty/tufao/src/httpserverresponse.cpp:232-240 | a size printed in base 16 reads back |
| `HttpServerResponses.HttpServerResponse.Write` | 3rdparty/tufao/src/httpserverresponse.cpp:186-243 | HTTP/1.0 buffers the chunk; HTTP/1.1 flushes the headers first and writes the chunk with its size; empty chunks and chunks before the head, after trailers or after the end are refused |
| `HttpServerResponses.HttpServerResponse.WriteHead` | 3rdparty/tufao/src/httpserverresponse.cpp:80-184 | status line and fields once, and only in the first state |
| `HttpServerResponses.HttpServerResponse.AddTrailers` | 3rdparty/tufao/src/httpserverresponse.cpp:245-295 | the last chunk once, then trailers, in HTTP/1.1 after a body only |
| `HttpServerResponses.HttpServerResponse.EndWith` | 3rdparty/tufao/src/httpserverresponse.cpp:297-392 | headers if still due, the rest of the body, the end of the message, and finished |
| `SessionManagers.UseCountsAccount` | src/viriditysessionmanager.cpp:148-186 | in every state of every run the use count is not negative, use count plus queued increments minus queued decrements is the number of holders, a session in use is attached, an attached one without use has its timer running, and attached and detached alternate |
| `SessionUses.RemovedExactly` | src/viriditysessionmanager.cpp:823-860 | a session is removed exactly by a sweep that finds it unused for the timeout, without holders that were counted and without a test under way, when every look-up of it was followed by another sweep that had found it so; told by the events alone |
| `SessionUses.RemovedAfterQuiet` | src/viriditysessionmanager.cpp:155-193 | in the timeout before a removal the session was not created, no increment of it ran, nobody acquired it directly and the page did not interact |
| `SessionUses.LastUsedIsLastUse` | src/viriditysessionmanager.cpp:188-193 | the time of last use is that of the last of these events |
| `SessionUses.HoldersAreCounted` | src/viriditysessionmanager.cpp:148-186 | the use count is what the increments and decrements that ran have left, and with those still queued it is the number of holders since the creation, the creator among them |
| `SessionUses.CreatedOnly` | src/viriditysessionmanager.cpp:550-575 | a session is there as soon as it is created, with its creator's increment on the way, and nothing else makes one |
| `SessionUses.UnusedGoes` | src/viriditysessionmanager.cpp:823-860 | a session that is neither in use nor under test is gone after the timeout and two sweeps |
| `SessionManagers.RemovalTakesTwoSweeps` | src/viriditysessionmanager.cpp:599-623 | between any look-up of a session and its removal two sweeps find it expired, unused and untested |
| `SessionManagers.RemovedSessionHolders` | src/viriditysessionmanager.cpp:823-860 | a removed session has no holder, unless an increment is still queued |
| `SessionManagers.DetachedAfterQuiet` | src/viriditysessionmanager.cpp:462-469 | detached is emitted only when the count was zero throughout the defer interval before |
| `SessionManagers.MarkStays` | src/viriditysessionmanager.cpp:823-860 | a grace mark goes only in a sweep that finds the session expired |
| `SessionManagers.CountSinceStart` | src/viriditysessionmanager.cpp:170-186 | since the defer timer was last started the count has not gone down |
| `Sessions.ActKeepsInv` | src/viriditysessionmanager.cpp:148-186 | every action of a holder, the queue, the timer or the page keeps the account and the turn of the signals |
| `SessionManagerObjects.ViriditySession.IncrementUseCount` | src/viriditysessionmanager.cpp:148-168 | counts, renews the last use, and attaches on the first use |
| `SessionManagerObjects.ViriditySession.DecrementUseCount` | src/viriditysessionmanager.cpp:170-186 | counts down and starts the defer timer anew |
| `SessionManagerObjects.ViriditySession.DetachDeferTimerTimeout` | src/viriditysessionmanager.cpp:462-469 | detaches only without use |
| `SessionManagerObjects.SessionManager.KillExpiredSessions` | src/viriditysessionmanager.cpp:823-860 | one sweep in any order: an expired session loses its mark, and without one it is removed; nothing else changes |
| `SessionManagerObjects.SessionManager.GetSession` | src/viriditysessionmanager.cpp:599-611 | a session that is there is marked and returned |
| `SessionManagerObjects.SessionManager.AcquireSession` | src/viriditysessionmanager.cpp:613-623 | a session that is there is marked and an increment queued; other sessions stay as they are |
| `SessionManagerObjects.SessionManager.ReleaseSession` | src/viriditysessionmanager.cpp:625-629 | a decrement is queued |
| `SessionManagerObjects.SessionManager.GetNewSession` | src/viriditysessionmanager.cpp:550-575 | the sessions and marks are those that the sweep leaves, with the new session under its name and its creator's increment queued |
| `QueryStrings.RoundTrip` | 3rdparty/tufao/src/querystring.cpp:25-135 | with distinct separators outside the encoder's alphabet, parse undoes stringify for every order of the keys, exactly for the maps without an empty key |
| `QueryStrings.RoundTripExactly` | 3rdparty/tufao/src/querystring.cpp:52-62 | among such styles, exactly those round-trip whose percent sign is not the ampersand, which parse skips at the start |
| `QueryStrings.EncodeRoundTrip` | 3rdparty/tufao/src/querystring.cpp:30-38 | percent encoding (RFC 3986, section 2.1) decodes back and yields only unreserved characters and the percent sign |
| `QueryStrings.Stringify` | 3rdparty/tufao/src/querystring.cpp:25-50 | the text is the entries of the map, each once, with a separator after each but the last |
| `QueryStrings.Parse` | 3rdparty/tufao/src/querystring.cpp:52-135 | the loops compute the fold of the fields from left to right |
| `QueryStrings.FieldsAreParsed` | 3rdparty/tufao/src/querystring.cpp:52-135 | every text of fields, with or without percent encoding and with ampersands before it: from left to right a field without a key means nothing, one without an assignment an entry that is there at least, and any other its entry |
| `QueryStrings.PlainRoundTrip` | 3rdparty/tufao/src/querystring.cpp:25-135 | without percent encoding the round trip holds for maps whose keys have no separators, whose values have no field separator, and whose first key does not start with an ampersand |
| `QueryStrings.ParsedHasNoEmptyKey` | 3rdparty/tufao/src/querystring.cpp:62-101 | a field with an empty key is dropped |

## Left out

- JPEG patches, artefact margins, packed alpha and PNG or BMP encoding: a patch is the exact pixels of its rectangle.
- Painting, scene adapters and input events: the scene is a pixel function, and rendering copies it over rectangles.
  Blending is left out: a fill replaces what it covers, as it does after clearing.
- The size of an encoded patch, which decides whether it is sent inline: a set of indices that may be any.
- Fractional rectangles from the scene and their rounding: damage is reported in whole pixels.
- The null image, which a detached scene leaves behind, and negative sizes: images have at least one pixel.
- Memory beside an image that row pointers may look at: it may hold anything, and the searches are shown not to need it.
- `QRegion::rects()`: taken by its promise, disjoint rectangles in bands that cover the region; the body given here is
  only a witness that the promise can be kept.
- The order in which Qt's hashes and maps are visited: any order; HTTP header lines and query entries are sorted in the
  original.
- Locks and threads: steps are atomic and happen in any order; a timer callback that finds its lock taken just happens
  later. The threaded variants of the fingerprint index are not part of this model.
- A display without scene adapter in the runs of the protocol: there an update is always available; the display object
  has this case, the runs do not.
- ProtocolSafety.HandOver: runs have no resizing, reconnecting, requests by the page or image loads that fail for other
  reasons than a missing patch. The last three have runs of their own in `Reattachment`, `MetRequests` and
  `Recovery`. The `info` message and what the page does while it is offline are not modelled, apart from the answers it
  queues.
- Reattachment.ForcedFullUpdateResyncs: the canvases have the size of the server's buffer, so that the resizing of a page
  that comes back changes nothing; a page whose request is ignored while it draws images of a frame whose end it has
  seen is decided only for the page that was connected (`Reattachment.OldPageComesBack`); and a full-update frame that
  is taken out of the invariant shows a scene without all-zero pixels.
- Reattachment.ComingBack: as `Reattachment.ForcedFullUpdateResyncs`.
- Recovery.FailuresAreMended: a full-update frame that is taken out of the invariant shows a scene without all-zero
  pixels. All other frames, the first one included, show any scene.
- MetRequests.AskingAgainHelps: further requests are unforced, and no image fails.
- ImageAux.FindChangedRect32: of the rectangles without pixels only the null rectangle is an argument; how Qt intersects
  the others is not part of this model.
- ImageAux.GetSolidRectColor: the same.
- The page's canvas resizing in `_flipToFront`: both canvases have the size of the server's buffer.
- ImageComparers.ImageComparer.FindUpdateOperations: tiles have at least one column, and at least two with fine-grained
  moves, where the analyzer's template would be empty otherwise.
- Negative search radii and vector extents.
- MoveAnalyzers.MoveAnalyzer.ProcessRect: that copies are found is stated for the exhaustive search; what the index finds
  is `MoveAnalyzers.MoveAnalyzer.FindMovedRectAreaFingerPrint`.
- The client side of the WebSocket handshake, what a closed socket calls back into the parser, and the socket itself:
  signals and socket calls are an ordered list of outputs.
- WebSocketDecoding.MessagesArrive: payloads have less than 2 to the power of 31 bytes, the sizes that the writer's
  integer can hold; the parser cuts larger sizes to 32 bits, as `WebSockets.LeftArgument` says.
- Responses without a device, `writeContinue`, `flush` and the table of reason phrases; a response has exactly one of
  the two version options.
- HttpRuns.ChunkedResponseDecodes: trailers have names without colons and line ends and values without line ends and
  leading white space; others are written as they are and do not come back.
- HttpHeads.HeadCarriesHeaders: header fields have such names and values, too, and the phrase has no line end.
- HttpFraming.BodyDecodes: the reader knows no chunk extensions, which the writer never sends.
- QueryStrings.PlainRoundTrip: that these are the only maps that round-trip is not stated.
- Percent escapes that are cut off or have no hexadecimal digits, which the original leaves to Qt, stand for themselves.
- Message dispatch, handlers and user data of sessions, `killAllSessions` and the waiting loops of the interactivity
  check, of which only the counter is modelled.
- Sessions.ActKeepsInv: every holder releases the way it has acquired, through the queue or on the session's own thread.
- Multipart uploads, range requests, file serving, URL rewriting and the transports that carry the messages.
