# Verified models of the jb-p1lot bridge

jb-p1lot connects a host (a Go program) to a jailbroken iOS device (an Objective-C daemon and a
SpringBoard agent). Most of it moves bytes and calls system services, but it rests on a number of
small stateful protocols. This project models those protocols in Dafny, one module each, and proves
what they are for. `dafny verify dfyconfig.toml` checks all of it.

| file | models | main result |
|---|---|---|
| `Upload.dfy` | chunked upload over a link that loses requests and replies | reported success means the destination is the data, and the exact condition on the link for success |
| `Download.dfy` | ranged download | the result is the file as it was during the last read |
| `Framing.dfy` | length-prefixed frames, the daemon's receive buffer and replies | however a stream is cut, the daemon handles the same requests; the host reads its replies back |
| `Replay.dfy`, `Correlation.dfy` | replay window, matching replies to calls | every successful call returns the reply to its own frame; error replies are the call's own exactly when no cancel frame draws the id of a later call |
| `ClientCache.dfy` | cache of connections, dialled outside the lock | no interleaving caches or hands out an invalidated connection |
| `Blackout.dfy` | display blackout with an input window | a panel lit for input always goes dark again, and when; in an open window it stays lit exactly when the setting is not re-applied |
| `HealthPolicy.dfy`, `HealthConfig.dfy` | charging and thermal hysteresis, configuration merge | escalation is nested exactly when thresholds are ordered; the charge limit equals its history; merges are idempotent |
| `ButtonCombo.dfy` | button combinations | a toggle is posted exactly on an unused combination |
| `Typing.dfy`, `PathGesture.dfy` | text as key events, eased drags | a HID keyboard reads the typed text back; samples lie where they should |
| `Sessions.dfy`, `Quoting.dfy`, `Discovery.dfy` | bounded output, shell quoting, device discovery | output is the tail of what was accepted; a quoted value is one word; the list does not depend on map order |

Where the source changes state in place, the model is a class (or a method with a loop) whose
contract equates its new state with a function of the old one, and the results are proved about
runs of that function. What the environment decides (lost messages, failing system calls, times,
iteration orders, dispatch failures) is a parameter the results quantify over.

Assumptions made by the models:

- Upload: a request the host gave up on is not applied after its retry, and nobody else writes the
  part file. `LateRequestDefeatsSizeCheck` shows that the first of these is needed.
- Framing: the JSON libraries are an encoder and decoders that undo it (`Lawful`), with non-empty
  output. Nothing else is assumed of them.
- Correlation: the daemon echoes the id of the frame it answers, answers only frames that were
  sent, each at most once and in order; calls end on frame boundaries. A call that times out also
  writes a cancel frame with a random id (internal/transport/transport.go:157). It names no method,
  so the daemon answers it with an error (device/daemon/Service.m:461, 566). If that id is the id of
  a later call, this call can fail with that error (`CancelIdCanClash`), but no call ever succeeds
  with a foreign reply (`EverySuccessIsOwn`). `ReplyIsOwnExactlyWhenNoIdClash` (one call) and
  `RunsAreCorrelatedExactlyWhenNoClash` (a run) say exactly when error replies are the call's own.
- Blackout: one clock, panel requests that succeed, delayed blocks that never run early.
- Health: the thresholds' order is not checked by `configure`; `NestedExactlyWhenOrdered` shows
  that nesting holds exactly when they are ordered. Configuration from disk is not validated by the
  source, so `ConfigurationStaysSound` says exactly when the limits are in range.
- Path gesture: exact reals; `hypot` is any distance that is zero only between equal points.

## Model

| member | source | states |
|---|---|---|
| Upload.Device.AppendFile | device/daemon/Service.m:117-138 | the append, one system call at a time: which bytes are in the file and whether it was renamed, at every point where a call can fail |
| Upload.Device.FileWrite | device/daemon/Service.m:257-274 | truncating append, plain append, or atomic whole write |
| Upload.TransferChunks | internal/device/manager.go:765-774 | the loop yields the chunk sequence |
| Upload.ChunksRejoin | internal/device/manager.go:765-774 | the chunks concatenate to the data; more than one chunk's data gives several, none empty, none over the size |
| Upload.CallWithRetry | internal/device/manager.go:355-374 | one call, and one retry of the same request on a new connection |
| Upload.SendChunks | internal/device/manager.go:375-387 | chunks go out in order and the first failure ends the transfer |
| Upload.FileTransfer | internal/device/manager.go:347-391 | the whole upload: size limit, chunks, final size check |
| Upload.FirstChunk | internal/device/manager.go:781-787 | the first chunk restarts the part file, also after a failed attempt; it is exactly that chunk precisely when a stale file could be unlinked or was empty |
| Upload.MiddleChunk | device/daemon/Service.m:117-128 | an append, partial, repeated or clean, keeps the part file covering what was acknowledged, with the same length only if equal |
| Upload.LastChunk | device/daemon/Service.m:129-137 | the size reported after the rename equals the expected one exactly when every byte is right, including when the last chunk is repeated after its rename |
| Upload.PartFile | internal/device/manager.go:376-387 | before the last chunk only the part file changed, it covers the acknowledged chunks, and it equals them exactly when every exchange was clean |
| Upload.WholeTransfer | device/daemon/Service.m:267-273 | data of one chunk: the destination is old or new, never partial, and a repeat is harmless |
| Upload.UploadIsExact | internal/device/manager.go:347-391 | for data of any size and every pattern of losses and partial writes, success implies the destination equals the data, and if every chunk was acknowledged in the end success is equivalent to that; no other file changes; exactly data over the limit is reported too large, and then no file changes |
| Upload.OtherCountsAreRefused | internal/device/manager.go:750-806 | an answer about another number of bytes ends the transfer, another size in the end fails it |
| Upload.UploadSucceedsExactlyWhenClean | internal/device/manager.go:355-391 | for every part file found and every failure, success exactly when each chunk was acknowledged, the first by an attempt that restarts the part file (unlinked or empty, else created), and no failed attempt at a later chunk left a byte |
| Upload.DestinationKeptUntilLastChunk | internal/device/manager.go:776-792 | until the last chunk is sent the destination is untouched, and a transfer that fails earlier never touches it |
| Upload.LateRequestDefeatsSizeCheck | internal/device/manager.go:363-369 | if an abandoned first chunk is applied after the second one, a transfer can be acknowledged in full and pass the size check with wrong bytes |
| Download.DownloadChunks | internal/device/manager.go:830-848 | the loop with its four exits; ends against any responder if maxBytes is positive, else if sizes are bounded |
| Download.LastReadDecides | internal/device/manager.go:830-848 | against any responder the last read decides: a failed one fails the download, one at another offset is reported as that, and success means it came at its place and ended the file or filled maxBytes |
| Download.OneRead | device/daemon/Service.m:102-115 | one ranged read, however short and even if the file grows between its size and its read, extends what was read along the file; the loop's end conditions hold exactly when the file's size is reached |
| Download.DownloadIsExact | internal/device/manager.go:830-848 | for a file growing at any moment and any short reads, the result is the file as it was during the last read, between its size and its read, or its first maxBytes bytes; the offset check never fails |
| Download.FixedFileIsDownloadedWhole | internal/device/manager.go:830-848 | for an unchanged file with answered reads, the result is the file or its first maxBytes bytes |
| Framing.HeaderLength | internal/protocol/protocol.go:155-156 | a header has the most significant byte first, and is read back as the length it was made from, for every 32-bit length |
| Framing.Codec.Write | internal/protocol/protocol.go:141-164 | header and body are sent, or nothing and the reason, or as much as the connection took before it failed |
| Framing.ValidExactly | internal/protocol/protocol.go:98-124 | a frame passes exactly with version 1, a non-zero id, one of the six kinds, a method if it is a request, and no deadline or one at most a day past; a late one that is proper otherwise is stale, any other is invalid |
| Framing.WrittenExactly | internal/protocol/protocol.go:141-164 | a frame is written, as header and body, exactly when it is proper, timely and within the limit, and otherwise which error stands for what |
| Framing.FailedWriteIsNoRequest | internal/protocol/protocol.go:159-163 | a write succeeds exactly when the connection does not fail it, and then the whole frame is on the wire; else exactly the part that got out, of which the daemon takes no request unless it is the whole frame |
| Framing.Codec.ReadFull | internal/protocol/protocol.go:169-179 | all the bytes asked for, or an error and the input used up |
| Framing.Codec.Read | internal/protocol/protocol.go:166-187 | the next frame or error, and exactly which bytes are consumed |
| Framing.ReadExactly | internal/protocol/protocol.go:166-187 | a frame is read exactly when it stands whole at the front with a legal length, decodes, and is proper and timely |
| Framing.ReadFailsExactly | internal/protocol/protocol.go:169-187 | which failure stands for which input, and what is consumed then |
| Framing.Codec.SetMaxFrameBytes | internal/protocol/protocol.go:135-139 | the limit only ever becomes a legal one |
| Framing.WrittenIsReadBack | internal/protocol/protocol.go:98-187 | a written frame is read back with its own bytes consumed, unless its deadline went stale in between, and exactly then not |
| Framing.CallFramesPass | internal/transport/transport.go:129-157 | every request frame with a method and an id and every cancel frame of a call is written and read back as it was |
| Framing.PrintedReadsBack | internal/protocol/protocol.go:141-187 | a printed stream is read back frame by frame in order, each at its own time, and exactly the frames that went stale since are refused |
| Framing.RepliesReadBack | device/common/Frame.m:8-18 | of any replies of the daemon the host reads exactly those that could be encoded within the frame limit, as they were and in order; for the others nothing is sent |
| Framing.Connection.DrainBuffer | device/daemon/Service.m:545-583 | the buffer loop takes every finished frame off the front, in order, and stops at an unfinished or fatal one |
| Framing.Connection.Receive | device/daemon/Service.m:533-590 | one completion of a receive, with its error and end-of-stream cases |
| Framing.TakeFrame | device/common/Frame.m:20-33 | the frame cut from the buffer passes the helper's own length checks |
| Framing.DrainSplit | device/daemon/Service.m:545-583 | later bytes never change what earlier bytes meant |
| Framing.DrainIsParse | device/daemon/Service.m:545-583 | the requests taken are the bodies of the frames at the front, in order and none left out, up to an unfinished frame, an illegal length or a body that is no request |
| Framing.SegmentationIndependence | device/daemon/Service.m:533-590 | any cutting of a stream gives the requests and verdict of a one-shot parse, and the same leftover while alive |
| Framing.DaemonHandlesWhatWasPrinted | device/daemon/Service.m:545-563 | after any part of a printed stream the daemon is alive and has handled an initial run of its frames; after all of it, exactly those frames |
| Replay.ReplayGuard.Mark | internal/protocol/protocol.go:203-220 | a non-zero id is accepted exactly when it is not among the last limit accepted ids; set and queue stay in step |
| Replay.WindowIsDistinct | internal/protocol/protocol.go:203-220 | over every run, limit + 1 consecutive accepted ids are distinct |
| Replay.FreshIdsAreAccepted | internal/protocol/protocol.go:209-211 | distinct non-zero ids are never refused |
| Replay.RememberedExactly | internal/protocol/protocol.go:209-218 | an id is refused as a replay exactly until limit other ids were accepted after it |
| Correlation.Client.ReadUntil | internal/transport/transport.go:153-165 | the read loop skips foreign ids and stops at the first reply with its own |
| Correlation.Client.Call | internal/transport/transport.go:116-175 | the call's outcome, success and error reply told apart, and what it leaves on the connection, for every place it can end |
| Correlation.FreeCallAsExpected | internal/transport/transport.go:116-175 | a call with a new id that no frame still to be answered has succeeds exactly when its own reply arrives as a response, fails with it exactly when it arrives as an error, and has no reply exactly when it does not arrive |
| Correlation.CallUsesUp | internal/transport/transport.go:132-173 | no reply is lost: a call uses up foreign replies and its answer, the rest waits; the id is remembered, written or not; only a call that times out writes a cancel frame |
| Correlation.EverySuccessIsOwn | internal/transport/transport.go:116-173 | over fewer than 2^64 ids, in any lock order, with any losses, timeouts, late replies and cancel ids: every call succeeds, fails or has no reply as its own reply has it, except that it can fail with the error reply to a cancel frame of its id; so every success is the reply to its own frame, and only a zero id is refused, never as a replay |
| Correlation.ReplyIsOwnExactlyWhenNoIdClash | internal/transport/transport.go:163-165 | a call can only be answered, with a success or an error, by the reply to its own frame, whatever arrives, exactly when no frame whose reply is unread or still to come has its id |
| Correlation.CancelIdCanClash | internal/transport/transport.go:156-160 | a cancel frame whose random id is a later call's id can make that call fail with the error reply to the cancel frame |
| Correlation.EveryReplyIsOwn | internal/transport/transport.go:116-175 | in runs without such a clash every call succeeds, fails or has no reply exactly as its own reply has it |
| Correlation.RunsAreCorrelatedExactlyWhenNoClash | internal/transport/transport.go:116-175 | for the ids a run draws, every call comes to what its own reply says in every way the run can go, exactly when no cancel frame of an earlier call has the id of a later one |
| ClientCache.Manager.ClientFor | internal/device/manager.go:223-250 | a cached client is returned as is; otherwise a new open one is filed under its device, or none |
| ClientCache.Manager.Invalidate | internal/device/manager.go:252-263 | the client is closed, and leaves the cache only if it is the one filed |
| ClientCache.StepKeepsInv | internal/device/manager.go:223-263 | every critical section and dial, in any thread, keeps the cache sound and unfiled clients private |
| ClientCache.CacheIsSafe | internal/device/manager.go:223-263 | in every interleaving a cached client is open and filed under its own device |
| ClientCache.InvalidationTakesOnlyItsOwn | internal/device/manager.go:256-261 | invalidating an old client never evicts another |
| ClientCache.RetiredIsNeverHandedOut | internal/device/manager.go:224-228 | once its invalidation has begun, a client is never in the cache again |
| ClientCache.LookUpFinds | internal/device/manager.go:224-229 | a look-up gives the client filed under the device, and leads to a dial exactly when there is none |
| ClientCache.FilingCaches | internal/device/manager.go:246-250 | filing puts the dialled client under its device and changes no other entry |
| ClientCache.CachedUntilInvalidated | internal/device/manager.go:223-263 | in every interleaving what was filed stays cached until it is invalidated or another is filed for its device |
| ClientCache.ClosedExactlyByInvalidation | internal/device/manager.go:252-263 | a client is closed by the end of its invalidation and by nothing else, and stays closed |
| Blackout.DisplayQueue.PowerPanelForInput | device/daemon/Display.m:165-176 | opens or extends the window, powers the panel if it was closed, schedules the close after the wake time |
| Blackout.DisplayQueue.FinishPanelInput | device/daemon/Display.m:178-184 | shortens an open window and schedules its close |
| Blackout.DisplayQueue.CloseInputWindow | device/daemon/Display.m:95-105 | a close in an open window or outside blackout does nothing, else it darkens |
| Blackout.DisplayQueue.ReassertBlackout | device/daemon/Display.m:107-118 | a reassertion leaves the panel dark or as it was |
| Blackout.DisplayQueue.ToggleBlackout | device/daemon/Display.m:130-135 | the button combination flips the setting and applies it |
| Blackout.DisplayQueue.ChangeBlackout | device/daemon/Display.m:147-156 | a new setting is applied to the panel at once |
| Blackout.DisplayQueue.RefreshBlackout | device/daemon/Display.m:158-163 | re-applies the setting only during blackout |
| Blackout.SettingIsApplied | device/daemon/Display.m:130-156 | a request or toggle sets blackout to what it asks for and the panel to the opposite; no other block changes the setting |
| Blackout.LitExactlyBy | device/daemon/Display.m:74-184 | a dark panel is lit exactly by the end of blackout or an input that finds its window closed |
| Blackout.DarkenedExactlyBy | device/daemon/Display.m:74-184 | a lit panel is darkened exactly by a request for blackout, a refresh during it, or outside a window a close or a reassertion that finds the light on |
| Blackout.LitOutsideBlackout | device/daemon/Display.m:74-184 | in every run, outside blackout the panel is lit |
| Blackout.StepKeepsPromise | device/daemon/Display.m:74-184 | every block keeps a close pending that will darken a lit panel, within a limit if no input follows |
| Blackout.BlackoutReturnsToDark | device/daemon/Display.m:91-105 | in every run a panel lit during blackout has a close due no earlier than the window's end; with no close pending it is dark |
| Blackout.DarkSoonAfterFinish | device/daemon/Display.m:178-184 | after a finish that found the window open and no further input, dark once the closes due within 0.45 s have run |
| Blackout.DarkAfterSafetyWindow | device/daemon/Display.m:165-176 | after an input that is never finished, and no further one, dark once the closes due by the end of its safety window have run |
| Blackout.OpenWindowStaysLit | device/daemon/Display.m:91-118 | through any opening and closing of windows, an open window is lit if the setting is not re-applied |
| Blackout.LitExactlyWhenNeverReapplied | device/daemon/Display.m:91-184 | while a window stays open in blackout, the panel is lit in the end exactly when it was lit at the start and the setting was never re-applied; further inputs do not light it again |
| Blackout.InputStaysLit | device/daemon/Display.m:165-176 | after an input, with no other and no re-application, the panel is lit for 30 seconds |
| Blackout.RefreshDarkensOpenWindow | device/daemon/Display.m:158-176 | a refresh inside the window darkens it, and the next input then does not light it |
| HealthPolicy.Health.EvaluatePolicy | device/daemon/Health.m:222-253 | one tick: latches, charging, throttling, dimming, the blackout request and the alerts, in order |
| HealthPolicy.Health.RecordAlert | device/daemon/Health.m:76-82 | the kept alerts are the last 200 of all recorded |
| HealthPolicy.Health.Inhibit | device/daemon/Health.m:208-220 | the SMC register, the reported reason and control, and the alert when inhibiting fails |
| HealthPolicy.NestedExactlyWhenOrdered | device/daemon/Health.m:226-252 | a tick keeps dimmed within throttling within thermal pause, for every state and reading, exactly when the thresholds are ordered |
| HealthPolicy.EscalationStaysNested | device/daemon/Health.m:222-253 | over every run of ticks and ordered settings escalation stays nested |
| HealthPolicy.InhibitedExactlyAsDemanded | device/daemon/Health.m:236-239 | the register after a tick, the reported control and the reported reason, exactly, for every mode, latch and SMC failure |
| HealthPolicy.TickAlertsExactly | device/daemon/Health.m:219-252 | a tick records exactly the changes of heat and throttling, the beginning of dimming and an inhibit that could not be written, once each and in order |
| HealthPolicy.DisabledIsOff | device/daemon/Health.m:225-251 | a disabled limit or thermal section leaves its flags off |
| HealthPolicy.LimitIsItsHistory | device/daemon/Health.m:233-235 | the holding flag is true exactly when some reading reached high and every later one stayed above low |
| HealthPolicy.RunHoldsByHistory | device/daemon/Health.m:232-235 | the same of the policy's own flag over whole runs, whatever modes, heat and SMC do |
| HealthPolicy.HeatByHistory | device/daemon/Health.m:226-252 | over whole runs charging is paused and performance throttled exactly when some reading reached the threshold and all later ones stayed above the resume temperature; dimming follows the last reading |
| HealthPolicy.HoldThenReleaseSpansTheBand | device/daemon/Health.m:233-235 | from hold to release the charge fell by at least high - low |
| HealthConfig.MergedCovers | device/daemon/Health.m:48-57 | a merge has a value for every default and keeps every section a section, at every depth |
| HealthConfig.CoveringIsAbsorbed | device/daemon/Health.m:48-57 | merging a complete configuration changes nothing |
| HealthConfig.MergeIsIdempotent | device/daemon/Health.m:48-57 | merging what was merged once gives it again |
| HealthConfig.LeafIsOverrideOrDefault | device/daemon/Health.m:51-54 | at every leaf of the defaults a merge has the override unless it is missing or null |
| HealthConfig.CollectOverrides | device/daemon/Health.m:411-413 | exactly the known sections that are dictionaries |
| HealthConfig.CheckLimits | device/daemon/Health.m:420-422 | the check is about the values the policy will read |
| HealthConfig.HealthStore.constructor | device/daemon/Health.m:313 | the load merges what was stored over the defaults |
| HealthConfig.HealthStore.Configure | device/daemon/Health.m:410-424 | a rejected request changes nothing, an accepted one installs the merged configuration |
| HealthConfig.ConfigurationStaysSound | device/daemon/Health.m:410-427 | whatever was stored and over every sequence of requests, sections stay sections, a store and load gives the result back, and 5 <= low < high <= 100 for the values read exactly when that held of the loaded ones or some request was accepted |
| HealthConfig.AcceptedExactly | device/daemon/Health.m:414-422 | a request is accepted exactly when its mode is one of the three and the limits it leads to are in range; otherwise nothing changes |
| HealthConfig.RequestTakesEffect | device/daemon/Health.m:411-423 | an accepted request merges what it asks for into the three sections, sets the mode it names, and changes nothing else |
| HealthConfig.ModeIsRead | device/daemon/Health.m:236 | the mode the policy reads is the one the last accepted request named |
| HealthConfig.DefaultSettings | device/daemon/Health.m:27-34 | the settings read from the built-in defaults, which are ordered |
| HealthConfig.FlagAfterRequest | device/daemon/Health.m:48-70 | after an accepted request a section's flag can be read exactly when it was no dictionary before and what is asked for, or else what was there, is no list or dictionary |
| HealthConfig.ConfiguredLimitHoldsByHistory | device/daemon/Health.m:232-235 | after any sequence of requests with one accepted, or from loaded limits in range, the policy at work on the resulting settings holds the charge exactly by its history |
| ButtonCombo.Detector.RegisterButtonPress | device/springboard/DisplayControl.m:80-96 | one press: reset after a gap, trim to three, match, clear on a toggle |
| ButtonCombo.MemoryIsRunEnd | device/springboard/DisplayControl.m:86-91 | the remembered presses are the last three since the last toggle and the last gap |
| ButtonCombo.ToggleExactlyOnUnusedCombo | device/springboard/DisplayControl.m:80-96 | of recognised buttons: a toggle is posted exactly when this and the two presses before it form a combination, are close enough, and neither of those posted one |
| ButtonCombo.OthersAreIgnored | device/springboard/DisplayControl.m:81-82 | presses of other buttons change nothing |
| ButtonCombo.ToggleInAnyHistory | device/springboard/DisplayControl.m:80-96 | of every timed sequence of presses of any buttons: a toggle is posted exactly when the press and the two recognised presses before it form a combination, are close enough, and neither of those posted one |
| Typing.TypeableHaveKeys | device/springboard/InputInjector.m:67-126 | exactly printable ASCII and four controls have a key |
| Typing.KeysMeanTheirCharacters | device/springboard/InputInjector.m:67-126 | the key of a character means that character on the HID keyboard page, with carriage return as line end |
| Typing.EventClient.TypeKey | device/springboard/InputInjector.m:153-161 | the events tried for one key, with shift released after a failed stroke |
| Typing.EventClient.InsertText | device/springboard/InputInjector.m:147-165 | keys in order, ending at the first failure |
| Typing.KeysAreRead | device/springboard/InputInjector.m:147-165 | under any failures a keyboard on which a held key types once reads an initial part of the text, and the keys left down are exactly those whose release failed |
| Typing.TypedTextIsRead | device/springboard/InputInjector.m:147-165 | success exactly when the text is typeable and every dispatch works; then the text is read back, repeated letters included, and no key is down |
| PathGesture.EaseClimbs | device/springboard/InputInjector.m:864-872 | every easing climbs from 0 to 1, the halves of ease_in_out included |
| PathGesture.EaseBends | device/springboard/InputInjector.m:864-872 | easing in is behind linear in between, easing out is its mirror, in and out is easing in at double speed and its mirror, anything else is linear |
| PathGesture.Offsets | device/springboard/InputInjector.m:910-915 | the offsets are the path's lengths up to each corner |
| PathGesture.BetweenIsOnTheWay | device/springboard/InputInjector.m:884 | an interpolated point is the given fraction of the way in both coordinates |
| PathGesture.PointAlongPath | device/springboard/InputInjector.m:874-887 | the sample for a distance lies exactly that far along the path, and for the full length is the final point |
| PathGesture.OnePointAtADistance | device/springboard/InputInjector.m:874-887 | a distance along the path determines its point |
| PathGesture.TravelledClimbs | device/springboard/InputInjector.m:928-931 | sampled distances never decrease, stay on the path and end at its end |
| PathGesture.PacedAsNamed | device/springboard/InputInjector.m:929-930 | between start and end a drag eased in lags behind an even pace, eased out it is ahead, linear it keeps it |
| PathGesture.FramesLast | device/springboard/InputInjector.m:921 | the frames are the fewest 8 ms frames that last the duration, and at least two |
| PathGesture.Drag | device/springboard/InputInjector.m:923-937 | one touch down, moves as planned, one touch up; a failed move is followed by a touch up where the finger was; success exactly when every touch was dispatched |
| PathGesture.PerformPathGesture | device/springboard/InputInjector.m:909-938 | the same for the eased samples of the source, ending at the final point |
| Sessions.Manager.Start | internal/session/session.go:50-59 | a session begins where the runs below begin: running, without output |
| Sessions.Manager.Write | internal/session/session.go:105-124 | accepted exactly while running, keeping the last maxSize bytes |
| Sessions.Manager.Complete | internal/session/session.go:60-75 | a runner's end leaves the session stopped or failed |
| Sessions.Manager.Stop | internal/session/session.go:126-136 | stops a known session, keeps its output and the error text of an earlier failure |
| Sessions.Manager.Read | internal/session/session.go:89-103 | the record with the requested tail of its output |
| Sessions.OutputIsTailOfAccepted | internal/session/session.go:105-136 | over any interleaving the output is the last maxSize bytes of all accepted writes, and the session runs exactly until the first stop or end |
| Sessions.StateIsLastEnding | internal/session/session.go:67-74 | a session is failed exactly when the last thing that ended it was its runner's error, stopped after any other end; the error text is that of the last error |
| Sessions.LeavingIsFinal | internal/session/session.go:112-114 | a session that left Running never returns and its output never changes |
| Sessions.ReadIsTailOfAccepted | internal/session/session.go:99-101 | a read is the end of all accepted writes, as much as was asked for and kept, with the session's state and error |
| Quoting.QuoteIsOneWord | internal/device/manager.go:621-623 | a POSIX shell reads a quoted value as one word, the value itself |
| Quoting.QuotedIsKept | device/daemon/Service.m:87-89 | the same wherever in a command the value stands, whatever its characters |
| Quoting.ArgumentsStayApart | device/daemon/Service.m:323 | quoted arguments after a command are exactly its further words |
| Quoting.RemoveCommandIsExact | internal/device/manager.go:618 | the clean-up command's words are rm, -f and the path |
| Quoting.FindCommandIsExact | device/daemon/Service.m:295 | up to its pipe the search command's words are find, the root, -iname, the pattern and -print |
| Discovery.LessIsTotal | internal/discovery/discovery.go:97 | comparing ids orders any two different ones |
| Discovery.LessIsLexicographic | internal/discovery/discovery.go:97 | that order is the lexicographic one |
| Discovery.MatchByName | internal/discovery/discovery.go:434-455 | the device of a name is the same in every iteration order |
| Discovery.BestIsUnique | internal/discovery/discovery.go:444-450 | USB first, then the smaller id, leaves one device |
| Discovery.BestIsUsbThenFirst | internal/discovery/discovery.go:444-450 | the device chosen is on USB if any of the name is, and has the first id of those alike in this |
| Discovery.TargetIsAbout | internal/discovery/discovery.go:407-420 | an announcement is about the best device of the host's name, else the only device, else an entry of its own |
| Discovery.MergeBonjourEndpoint | internal/discovery/discovery.go:407-432 | the merged map is the same in every iteration order |
| Discovery.EndpointKeeps | internal/discovery/discovery.go:421-431 | no entry is lost and a USB entry keeps all but three marks |
| Discovery.EndpointMarksOne | internal/discovery/discovery.go:417-431 | that entry becomes reachable and paired, over WiFi at the announced address unless it is on USB, and keeps its name, product and version; the others stay |
| Discovery.ListedIsWellFiled | internal/discovery/discovery.go:64-69 | the map before any announcement has every listed id, with its last listed device |
| Discovery.Discover | internal/discovery/discovery.go:64-98 | the result is the ordered list of the merged map, for every iteration order |
| Discovery.DiscoveryIsDetermined | internal/discovery/discovery.go:64-98 | that list is unique, strictly increasing, keeps every listed id, and never turns a USB device into a WiFi one |
| Discovery.Preferred | helpers/idevice/src/main.rs:101-112 | for every UDID its last USB entry, or its first entry if it has none over USB, in the order in which the UDIDs first occur |

## Left out

- TLS, sockets, process spawning, SSH, SMC, IOKit and private frameworks: foreign effects; only their outcomes appear, as parameters.
- JSON and base64: library code; JSON is an encoder with decoders that undo it, base64 does not appear. Booleans of the configuration are numbers 0 and 1, as `doubleValue` reads them.
- File modes and `chmod`: not modelled, nor is the temporary name of an atomic write.
- Upload.FileTransfer: replies without a size or byte count, and a reply frame whose status but not kind is an error, are not modelled, because this daemon never sends them; the destination after a failed last chunk is not claimed to be intact, because the rename precedes the size check.
- Download.DownloadIsExact: a file that shrinks during the download is not covered.
- Framing.Connection.Receive: the reply to each request is not modelled; replies are determined by the sequence of requests and their handler.
- Correlation.Client.Call: parameters that cannot be encoded as JSON are not modelled; no id is drawn for them.
- Correlation.EverySuccessIsOwn: a timeout or a failed write inside a frame is not covered, because the connection then no longer stands at the start of a frame.
- ClientCache.Manager.ClientFor: address resolution and USB forwarding are reduced to whether the dial succeeds; a client overwritten by a second dial stays open, as in the source.
- Blackout: persistence, the agent's own brightness change and the backlight reading are parameters or absent; the 0.8 s and 3 s reassertions may come at any time.
- HealthPolicy.Health.EvaluatePolicy: alerts carry their kind but no text, time or details; memory, storage and crash alerts are left out.
- HealthConfig.ConfiguredLimitHoldsByHistory: a flag that is a list or a dictionary, because reading it raises and the tick ends there; `FlagAfterRequest` says when that is so.
- HealthConfig.HealthStore.Configure: writing the file and the tick that follows are left out.
- PathGesture.PerformPathGesture: floating-point rounding, sleeping and the tick arithmetic are left out.
- Typing: pasting and the on-screen keyboard are left out; a character outside the 16-bit range counts as one untypeable character rather than two.
- Sessions: listing, timestamps, and the chance that two random session ids collide.
- Quoting: pipes and redirections in the daemon's own command texts; the recogniser knows no double quotes, expansions or operators and refuses text that uses them outside quotes; quoted values never do.
- Discovery.Discover: parsing of the helper's and `dns-sd`'s output, name normalisation (a parameter) and device selection.
- Discovery: the details of each listed device, whose look-ups finish in any order.
- Setup, self update, port forwarding, artifacts, the command line, the MCP server and the device app: plumbing with easy branch facts only.
