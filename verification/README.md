# Video surveillance pipeline: a verified model

A camera server captures pictures and streams them over one TCP connection; a Java client reads
two such streams, buffers the frames and shows them, at once or with a constant delay, and tells
the servers which mode to run in. This project models that path from the server's header to the
displayed frame in Dafny 4.11 and proves what it keeps over whole runs. `dafny verify
dfyconfig.toml` checks everything.

| file | models |
|---|---|
| `Words.dfy` | machine words: `&`, `\|`, shifts, sign extension and Java's shift distances, bit by bit |
| `Wire.dfy` | the layout of a frame on the stream |
| `SocketWriter.dfy` | the server's encoder and the two statics that a header samples |
| `ModeHandler.dfy` | the server's mode and its heap-linked callback list |
| `SocketListener.dfy` | the server's command loop with its junk budget |
| `Scanner.dfy` | the client's start-flag matcher |
| `ServerReader.dfy` | `read()` and `run()` of the client's reader |
| `StreamTheorems.dfy` | encoder against reader: round trip, recovery, truncation |
| `MotionPath.dfy` | server history to client mode changes |
| `FrameBuffer.dfy` | the playout list as a priority queue |
| `Averages.dfy` | the truncated moving average of a camera's delays |
| `Playout.dfy` | the monitor, its producers, its updater and the clock as a transition system |
| `Cascades.dfy` | what the reentrant observer callbacks settle in |
| `Surroundings.dfy` | what other threads do to the monitor while its lock is free |
| `Monitors.dfy` | the monitor and model classes with their loops, waits and reentrant calls |
| `SettingsRace.dfy` | the settings cascade with the two threads interleaved access by access |
| `CameraRace.dfy` | the camera cascade with clicks, mode changes and displays interleaved access by access |
| `Pipeline.dfy` | two servers, two readers, updater, clock and user together |
| `Modes.dfy`, `Options.dfy`, `Sequences.dfy` | shared enumerations and regrouping lemmas |

## Choices

- 0.8 and 0.2 are exactly 4/5 and 1/5; the cast to `long` truncates toward zero. Times and
  averages are unbounded integers. Header fields and mode octets are exact machine words.
- The clock never goes back, memory is sequentially consistent, and there is one updater thread
  (Client/GUI/Window.java:124). In `Playout`, `Monitors` and `Pipeline` a stretch of code under
  the monitor's lock is one step. The updater gives the lock up in its two waits and between two
  calls of `update()` (Client/Control/Updater.java:16-22). What other threads do there is a
  parameter - `script` for the waits of one call, `Round` for a call and what comes before it -,
  so every interleaving of locked stretches is some argument; when the script is used up the
  updater stays in its wait. A click counts as one stretch there. That its accesses outside the
  lock may fall inside other stretches is the subject of `SettingsRace` and `CameraRace`.
- The contracts of the updater's methods keep a `Journal`: the events of the playout model that
  the call is, and what other threads have done meanwhile. Frames, coherent cameras and settings
  that agree change by that and by the updater's own switch only.
- `Playout.Settings` lets the two flags that the updater reads change to anything at any moment
  the lock is free, so the theorems about runs do not depend on the settings cascade. The updater's
  own notification, which may take over the model's auto flag, is such a change as well; no
  contract of `Monitors` asks for flags that agree with the model.
- A finite stream stands for a connection that is closed at its end: further reads give -1
  (0xFF as a byte), `available()` gives 0. A read that then never returns is `Blocked`, an
  unchecked exception is `Threw`; both end the reader. A frame of size 0 or of negative size
  throws.
- The octet of the mode is the low byte of an `int` on a little-endian machine. Calls on the mode
  handler and headers are atomic with respect to each other.
- The methods `MotionPath.Serve` and `Monitors.UpdaterRun` are the sequential composition of the
  threads' steps; their arguments choose the interleaving.

## Where the code departs from its description

- `register_on_change_callback` walks to the end of the list and says that it appends, but puts
  the new node in front (Server/mode_handler.c:103-118); callbacks run latest registered first.
- The growth of the sync delay compares camera one's average with itself
  (Client/Control/Monitor.java:92), so camera two's delays never matter.
- The shift distances for the size field are negative (Client/Control/ServerReader.java:107-111);
  Java's rule of using their low five bits makes them the intended ones.
- A stream that ends inside a header makes the missing mode octet read as 0xFF, which has the
  motion bit, and the client then reports motion that nobody sent (`TruncationSafe`).
- The settings mirror can break. `java.util.Observable` keeps one mark for "changed", so two
  overlapping notifications can become one; two fast clicks within one automatic switch then
  leave the monitor switching automatically while the model and the button have automatic mode
  off (`MirrorCanBreak`). `QuietMirrorIff` says exactly when the mirror holds, `QuietMirror` that
  it always does when no notification is swallowed, `BrokenMirrorHistory` what a run that breaks
  it must contain.
- So can the cameras. `changeMode` and the camera callback write the mode after tests of the movie
  flag that are out of date by then (Client/Control/Monitor.java:193-212 and 255-276). A click on
  "Idle" within a mode change leaves a camera in movie mode with the button off
  (`ClickInChangeBreaks`); two clicks within the display of a frame leave it idle with the button
  on (`ClicksInDisplayBreak`). `QuietCoherentIff` says exactly when the cameras are coherent,
  `QuietCoherent` that they always are when no notification is swallowed.

## Model

| member | source | states |
|---|---|---|
| Words.MaskCancelsSignExtension | Client/Control/ServerReader.java:101-111 | the mask with 0xFF gives back the octet that was sign-extended into a Java `int` or `long` |
| ServerReader.ParseStep | Client/Control/ServerReader.java:101-111 | one round of either header loop - mask, shift, mask, or - appends one octet to the big-endian value read so far |
| ServerReader.ParseTimestamp | Client/Control/ServerReader.java:101-105 | the timestamp loop computes the big-endian value of the first eight octets, for all octets |
| ServerReader.ParseImageSize | Client/Control/ServerReader.java:107-111 | the size loop, in spite of its negative shift distances, computes the big-endian value of octets 8 to 11 |
| SocketWriter.OctetStep | Server/socket_writer.c:134-144 | one shift-and-write round emits the next octet of the big-endian form |
| SocketWriter.Writer.CaptureAndOutput | Server/socket_writer.c:74-165 | flag, header and picture go out in this order and form exactly one encoded frame with the mode octet of the moment |
| SocketWriter.Writer.SocketSetMode | Server/socket_writer.c:168-185 | the new mode and motion bit; a repeated mode changes neither |
| Wire.Layout | Server/socket_writer.c:74-150 | the octets of a frame place by place: "STARTFRAME", eight octets of time and four of size with the most significant first, the mode octet, the picture |
| Wire.OctetsRoundTrip | Server/socket_writer.c:134-144 | reading the written octets gives the value modulo the field width |
| Scanner.IndexIsMatchedPrefix | Client/Control/ServerReader.java:64-79 | the matcher's index is always the length of a flag prefix that the scanned octets end with |
| Scanner.StopsOnFlag | Client/Control/ServerReader.java:68-79 | when the scan stops, the last ten octets are the flag |
| Scanner.AcceptedIffIndexZero | Client/Control/ServerReader.java:68-79 | an occurrence of the flag is accepted if and only if the index is 0 where it begins |
| Scanner.StopsAtFirstAlignedFlag | Client/Control/ServerReader.java:68-79 | the scan stops at the first occurrence that begins with index 0, and never if there is none |
| Scanner.FlagAfterCleanJunk | Client/Control/ServerReader.java:68-79 | junk without a flag and without a flag prefix at its end never hides the next flag |
| Scanner.FlagAfterStrayS | Client/Control/ServerReader.java:68-79 | after n stray 'S' the flag is accepted exactly when n is even |
| Scanner.EndOfStreamNeverFound | Client/Control/ServerReader.java:68-79 | at the end of the stream the scan never stops, from any index |
| ServerReader.Reader.AwaitStartFlag | Client/Control/ServerReader.java:61-79 | the scanning loop takes exactly the octets up to the first accepted flag |
| ServerReader.Reader.DetectMotion | Client/Control/ServerReader.java:113-124 | the motion flag goes up with the bit of value two and down with the bit of value one, and a mode change is raised exactly when it goes up |
| ServerReader.Reader.Read | Client/Control/ServerReader.java:39-163 | one `read()`: status, frame, octets consumed, motion flag and mode change, with all drop, block and exception cases |
| ServerReader.Reader.Run | Client/Control/ServerReader.java:165-185 | all calls made on the monitor over a stream, in order |
| StreamTheorems.RoundTrip | Client/Control/ServerReader.java:39-185 | for every sequence of frames and every payload, the reader makes exactly the calls the frames stand for and is then at the octet behind the last one |
| StreamTheorems.FramesRoundTrip | Server/socket_writer.c:98-104 | the frames delivered from an encoded stream are the frames captured: timestamps, pictures octet by octet, and order, for sizes up to 100000000 |
| StreamTheorems.DroppedFrame | Client/Control/ServerReader.java:126-132 | a negative timestamp or oversized image drops the frame after 23 octets, its payload unread, its mode octet acted on |
| StreamTheorems.FatalHeader | Client/Control/ServerReader.java:137-154 | a size that is zero or negative ends the session: an exception, or a wait for good, and nothing behind it is delivered |
| StreamTheorems.FrameSurvivesIff | Client/Control/ServerReader.java:68-163 | the next frame is read intact at its own place if and only if the unread payload holds no accepted flag and leaves the index at 0 |
| StreamTheorems.Recovery | Client/Control/ServerReader.java:126-163 | under that condition the frame after a dropped one is delivered and reading goes on behind it |
| StreamTheorems.TruncationSafe | Client/Control/ServerReader.java:68-163 | cutting the stream at any octet delivers exactly the frames wholly before the cut, and says which mode change the torn frame still raises |
| ModeHandler.Handler.SetMode | Server/mode_handler.c:67-86 | a real change reaches every node of the list once, in list order; a redundant one reaches none |
| ModeHandler.Handler.RegisterOnChangeCallback | Server/mode_handler.c:99-124 | the new node comes first and the others stay as they were; without memory nothing changes |
| ModeHandler.Handler.CloseModeHandler | Server/mode_handler.c:48-65 | the nodes are freed each exactly once, in list order; a freed node promises nothing about its link, so it is read before |
| ModeHandler.ServerHistory | Server/mode_handler.c:67-124 | after any history the encoder's mode is the handler's, namely the last one asked for, and its motion bit is 2 exactly while a movie period runs that motion began |
| ModeHandler.NotificationHistory | Server/mode_handler.c:67-86 | callbacks run only on real changes, each registered one exactly once, latest registered first |
| ModeHandler.NotifiedOnce | Server/socket_writer.c:168-185 | registering `socket_set_mode` more than once makes no difference to the encoder |
| SocketListener.StreamListenerCallback | Server/socket_listener.c:34-77 | the loop ends with the read that brings the eleventh of those that are neither '0' nor '1' nor '2', having made exactly the commanded mode calls; the mode is that of the last one |
| SocketListener.ClosingReadUnique | Server/socket_listener.c:50-59 | the closing read is determined by the stream |
| SocketListener.CommandedMode | Server/socket_listener.c:63-72 | the resulting mode is that of the last '0' or '1' before the close, or the starting one |
| SocketListener.CommandsCarryNoMotion | Server/socket_listener.c:63-72 | no command raises the motion flag |
| MotionPath.SampledOctet | Server/socket_writer.c:113-150 | a header's octet is 0 in idle mode, 3 in a movie period that motion began, 1 in any other |
| MotionPath.CaptureIsSent | Server/socket_writer.c:80-150 | every capture is sent, in its place, with its time, its picture and the octet of the moment |
| MotionPath.MotionAccount | Server/socket_writer.c:168-185 | at every point of a history, mode changes so far plus an unnoticed motion period are at most the motion starts so far |
| MotionPath.EdgesAreEpisodes | Client/Control/ServerReader.java:113-124 | the client's mode changes number exactly the sampled motion headers with no earlier one since the last idle header |
| MotionPath.MotionEndToEnd | Client/Control/ServerReader.java:113-124 | over any server history and through the wire: mode changes equal sampled motion episodes, at most the movie periods begun by motion, and every frame arrives |
| MotionPath.CommandsDoNotBounce | Server/socket_listener.c:63-72 | a history without detected motion causes no mode change at the client |
| MotionPath.Serve | Server/http_server.c:39-60 | the server's objects, driven through any history, have written the encoding of the frames sent |
| MotionPath.Transmit | Client/Control/ServerReader.java:165-185 | the end-to-end result for the encoder and reader objects joined together |
| FrameBuffer.Buffer.Add | Client/Control/FrameBuffer.java:38-58 | the iterator loop inserts before the first frame that was sent earlier |
| FrameBuffer.InsertKeepsOrder | Client/Control/FrameBuffer.java:38-58 | the list stays newest first |
| FrameBuffer.InsertKeepsFrames | Client/Control/FrameBuffer.java:38-58 | adding keeps all frames held and adds one |
| FrameBuffer.InsertPushes | Client/Control/FrameBuffer.java:47-57 | the frames of each sent time form a stack: adding pushes on its own time's stack and touches no other |
| FrameBuffer.TakePops | Client/Control/FrameBuffer.java:19-21 | taking gives a frame of least sent time, the last added among those, and touches no other time |
| FrameBuffer.DrainSorts | Client/Control/FrameBuffer.java:19-58 | draining yields a permutation of the held frames, oldest first |
| Averages.GapStep | Client/Control/Monitor.java:239-243 | what one frame makes of the gap between average and delay, exactly, for averages and delays of either sign |
| Averages.MovesToward | Client/Control/Monitor.java:239-243 | the average moves monotonically toward the delay and never past it, for delays of either sign |
| Averages.SteadyMirrored | Client/Control/Monitor.java:239-243 | negative delays are filtered as their opposites |
| Averages.FixedPoints | Client/Control/Monitor.java:239-243 | it stands still exactly at the delay and up to four from it on the side of zero |
| Averages.Converges | Client/Control/Monitor.java:239-243 | once (5/4)^n exceeds the excess, n frames have brought it to the delay from above, or four below it from below, where it stays |
| Averages.EnoughFrames | Client/Control/Monitor.java:239-243 | four times the excess is always enough frames |
| Averages.LeavesNegative | Client/Control/Monitor.java:239-243 | a negative average is not negative any more after as many frames as it is large |
| Playout.DisplaySafety | Client/Control/Monitor.java:61-141 | in every run: no peek or pop on an empty buffer, no synchronous display before sent time plus sync delay, and frames added are frames shown plus frames held |
| Playout.ShowsIffDue | Client/Control/Monitor.java:72-126 | the updater shows a frame exactly when some buffered frame may be shown, with the delay it then has |
| Playout.ResumesExactly | Client/Control/Monitor.java:64-126 | which branch shows the frame, and in which wait the updater ends up otherwise |
| Playout.AveragesFold | Client/Control/Monitor.java:234-244 | in every run each camera's average is the filter folded over the delays, received less sent, of its frames |
| Playout.AverageConverges | Client/Control/Monitor.java:234-244 | in every run: a camera with constant delay has the average of that many steady frames, and rests within four of the delay once (5/4)^n exceeds it |
| Playout.PlayoutOrderIff | Client/Control/Monitor.java:87-126 | nothing shown or still held is older than a frame shown synchronously ahead of it, if and only if no frame was added after a newer one had been shown synchronously |
| Playout.PlayoutOrder | Client/Control/Monitor.java:87-126 | in particular: if each frame is added within 500 ms of being sent, nothing older than a synchronously shown frame is ever shown after it, in either mode |
| Playout.PlayoutOrderIsTight | Client/Control/Monitor.java:87-126 | at 501 ms the order can fail |
| Playout.CameraFifo | Client/Control/Monitor.java:61-141 | a camera whose frames arrive with increasing sent times has them shown in that order without gaps |
| Playout.SyncDelayStep | Client/Control/Monitor.java:92-96 | the sync delay changes only when the updater looks at the clock anew, and grows fourfold exactly when camera one's average is over twice the delay |
| Playout.SyncDelayKeepsUp | Client/Control/Monitor.java:92-96 | after n such looks with an average of at least a, where 1000 * 4^n >= a, twice the delay is at least a |
| Playout.SyncDelayGrows | Client/Control/Monitor.java:92-96 | the sync delay is 500 times a power of four and never shrinks |
| Playout.SyncDelayBound | Client/Control/Monitor.java:92-96 | it stays within max(500, 2D) when camera one's delays are at most D |
| Playout.SwitchesExactly | Client/Control/Monitor.java:75-124 | with auto on, an asynchronous display ends in synchronous mode exactly when the averages are less than 450 ms apart, a synchronous one in asynchronous mode exactly when they are more than 550 ms apart; nothing else but a click changes the mode |
| Playout.SwitchesOn | Client/Control/Monitor.java:75-81 | hands off, auto on and the averages kept less than 450 ms apart: the next display leaves synchronous mode on for good |
| Playout.SwitchesOff | Client/Control/Monitor.java:118-124 | kept more than 550 ms apart: asynchronous mode |
| Playout.SwitchAccount | Client/Control/Monitor.java:75-124 | without manual changes every switch but the first is paid for by 102 ms of movement of the averages |
| Playout.BoundedSwitching | Client/Control/Monitor.java:75-124 | so the switches are at most 1 + movement / 102, from any state on |
| Playout.SwitchingSettles | Client/Control/Monitor.java:234-244 | under constant delays d1, d2 of either sign the switches of a run of any length are at most 1 + (abs(d1) + abs(d2)) / 102 |
| Cascades.SettingsMirror | Client/Control/Monitor.java:280-292 | after any sequence of manual and automatic changes that do not interfere, the monitor's flags are the model's |
| Cascades.WhoSwitches | Client/Model/SettingsModel.java:18-30 | a manual change of mode ends with automatic mode off on both sides, an automatic one leaves it, a repeated one does nothing |
| Cascades.CallbackRestoresIff | Client/Control/Monitor.java:283-291 | one callback restores the mirror from any state except a changed sync flag with auto off in the model and on in the monitor |
| Cascades.CamerasStayCoherent | Client/Control/Monitor.java:186-279 | after every mode change of either server and every toggle that do not interfere: mode is MOVIE exactly with the movie flag, motion implies movie, at most one motion; and the last one has had the effect asked for, a reported motion showing on exactly its camera |
| Monitors.SettingsModel.SetSyncMode | Client/Model/SettingsModel.java:18-36 | the settled state after the setter's synchronous callback, which terminates |
| Monitors.SettingsModel.SetAutoMode | Client/Model/SettingsModel.java:27-36 | the same for the auto flag, also when called from within the callback |
| Monitors.CameraModel.SetMovieMode | Client/Model/CameraControlModel.java:49-67 | the camera's settled state after the setter, from any state; the other camera is untouched |
| Monitors.CameraModel.SetMotionDetected | Client/Model/CameraControlModel.java:54-67 | the same for the motion flag, also when called from within the callback |
| Monitors.Monitor.UpdateGuiSettings | Client/Control/Monitor.java:280-292 | the reentrant callback settles the settings from any state |
| Monitors.Monitor.UpdateGuiCamera | Client/Control/Monitor.java:249-279 | the reentrant callback settles the camera from any state |
| Monitors.Monitor.ChangeMode | Client/Control/Monitor.java:186-232 | the cameras after a mode change of any server from any state, through the transient MOVIE of an idle request |
| Monitors.Monitor.AddFrame | Client/Control/Monitor.java:234-247 | the frame is in the buffer, and the average of its camera, and of no other, has taken in received less sent |
| Monitors.Monitor.AwaitFrame | Client/Control/Monitor.java:64-66 | the first wait ends only with a frame in the buffer, whatever happens during it; nothing else has happened meanwhile |
| Monitors.Monitor.AwaitDisplayTime | Client/Control/Monitor.java:102-116 | the wait loop ends only when the frame then oldest is due, whatever arrives during the waits; nothing else has happened meanwhile |
| Monitors.Monitor.UpdateSync | Client/Control/Monitor.java:87-128 | the synchronous branch is a run of the playout model, shows one frame and returns it |
| Monitors.Monitor.GrowSyncTime | Client/Control/Monitor.java:92-96 | four times the delay exactly when camera one's average is over twice of it |
| Monitors.Monitor.UpdateAsync | Client/Control/Monitor.java:72-81 | shows the oldest frame; synchronous mode on, in monitor and model, exactly with auto on and the averages less than 450 ms apart |
| Monitors.Monitor.FinishSync | Client/Control/Monitor.java:118-126 | shows the oldest frame; asynchronous mode, in monitor and model, exactly with auto on and the averages more than 550 ms apart |
| Monitors.Monitor.GiveUpLock | Client/Control/Monitor.java:64-107 | what other threads do happens, all of it, in order, and nothing else: frames, clock, settings and cameras are those of their calls |
| Monitors.Monitor.Update | Client/Control/Monitor.java:61-142 | one `update()` with its waits is a run of the playout model, from any flags; it shows exactly one frame, which is then on its camera's model with its delay, or waits for good; nothing else happens but what other threads do |
| Monitors.UpdaterRun | Client/Control/Updater.java:15-27 | the whole life of the updater thread, with what other threads do during its waits and between its calls, is a run of the playout model, hence safe and in order, one frame a call; cameras and settings follow the others' calls; without clicks on the settings its switches are bounded |
| SettingsRace.QuietMirrorIff | Client/Control/Monitor.java:280-292 | in every interleaving without pending notification the mode agrees, and the mirror holds if and only if the last callback to end did not take over a changed sync flag with auto off in the model and on in the monitor |
| SettingsRace.QuietMirror | Client/Model/SettingsModel.java:18-36 | the mirror holds in every interleaving in which no notification is swallowed |
| SettingsRace.BrokenMirrorHistory | Client/Model/SettingsModel.java:32-36 | a broken mirror has a swallowed notification behind it, then a callback that loses the automatic mode, and no callback ending after that |
| SettingsRace.MirrorCanBreak | Client/Control/Monitor.java:75-81 | the run of two clicks that breaks it |
| SettingsRace.CallbackAlone | Client/Control/Monitor.java:280-292 | an undisturbed callback with its nested setters ends within nine steps in the settled state |
| SettingsRace.SwitchAlone | Client/Control/Monitor.java:75-81 | an undisturbed automatic switch is the atomic one, and takes place in automatic mode only |
| SettingsRace.UserCallbackAlone | Client/Control/Monitor.java:280-292 | the user's callback ends in the settled state, and loses the automatic mode exactly when it leaves the mirror broken |
| CameraRace.QuietCoherentIff | Client/Control/Monitor.java:186-279 | in every interleaving of clicks with mode changes and displays, without pending notification: at most one motion, none in idle mode, and the cameras are coherent if and only if for neither the last write of its mode disagreed with the movie flag at that moment, the flag being unchanged since |
| CameraRace.QuietCoherent | Client/Model/CameraControlModel.java:49-67 | the cameras are coherent in every interleaving in which no notification is swallowed |
| CameraRace.ClickInChangeBreaks | Client/Control/Monitor.java:192-212 | one click within a mode change leaves movie mode and motion with the movie flag off |
| CameraRace.ClicksInDisplayBreak | Client/Control/Monitor.java:258-263 | two clicks within a display leave idle mode with the movie flag on |
| CameraRace.SectionAlone | Client/Control/Monitor.java:186-279 | an undisturbed mode change or display ends within 38 accesses in the cameras of the atomic one |
| CameraRace.UserCallbackAlone | Client/Control/Monitor.java:249-279 | the user's callback is the undisturbed access-by-access one, the mark included |
| CameraRace.IdleRequestWavers | Client/Control/Monitor.java:214-220 | an idle request for a camera in movie mode writes idle, goes back to movie and then to idle |
| Pipeline.CamerasRun | Client/Control/Monitor.java:186-232 | the cameras of a run are those that its mode changes, each with its reader's number, and its toggles make |
| Pipeline.MotionIsShown | Client/Control/ServerReader.java:113-124 | after a mode change by one reader exactly its camera shows motion, until a toggle or the other reader's mode change |
| Pipeline.ShownAreCaptured | Client/Control/Monitor.java:61-142 | through encoder, wire, reader, buffer and updater the pictures shown for a camera are the first ones its server captured, in order and without gaps, and all of them once session and buffer are through |
| Pipeline.EndToEnd | Client/GUI/Window.java:76-124 | for two servers with any histories of deliverable frames with increasing times, and every interleaving of whole calls: the shown pictures as above for both cameras, no more mode changes than motion began movie periods, coherent cameras, and a reported motion on the reporting server's camera and no other |

## Left out

- Sockets, accept and listen, signals, polling, logging and the web page: operating-system calls and string output.
- Capture, image comparison and the image decoder: foreign code.
- The Swing views, except for the setter calls that clicks make on the models.
- `nextMode` and `ServerWriter`: the relay samples the old mode on entry and promises neither every mode nor the latest.
- The unused checksums of encoder and reader.
- The torn read of mode and motion bit while `socket_set_mode` runs beside `output_header`.
- `closeThread` of the reader, which only an interrupt or a broken connection sets.
- Overflow of `long` times, and IEEE rounding of 0.8 and 1.0 - 0.8.
- SocketListener.StreamListenerCallback: does not model another thread closing the sockets meanwhile; the loop's own close is the only one.
