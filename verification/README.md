# Monidroid, verified

Monidroid turns a phone into a monitor of a computer. A server accepts the phone's connection, identifies
it, plugs in a virtual monitor for it, and streams the monitor's picture as JPEG frames. On Windows the picture
comes from an indirect display driver, on Linux from EVDI. A control panel shows the connected devices.

This project is a Dafny model of the parts of that program where something can go wrong, with proofs. Code
that works by changing fields in place is a class whose methods are proved against specification functions;
the theorems are about those functions, for all inputs, all runs and all interleavings.

| files | what they model |
|---|---|
| `FrameHandoff.dfy`, `MonitorProcessor.dfy` | the hand-off of frames between the driver's processor thread and the requesting thread: every interleaving of their accesses to the flag, the two events and the frame slot, and the code of both threads, each call of which adds to such an interleaving |
| `Iddcx.dfy` | what becomes of the hand-off's answer on Windows: the driver's monitor object, the device call, and the status that the streaming loop gets |
| `Handshake.dfy` | the identification of a device: the incremental parser, fed with whatever pieces the socket delivers, against a decoder that sees the whole stream |
| `Streaming.dfy` | the rule by which the streaming loop gives up, stated on the trace of frame statuses, and the two counters that decide it |
| `StreamFraming.dfy`, `Wire.dfy` | the messages sent to a device, and the device's reading of them |
| `SessionLog.dfy`, `Client.dfy` | one device's session: identification, streaming and the ends of a session, while other threads shut the socket down and overwrite the state at any moment |
| `Serving.dfy` | the same session as steps of its thread: how long it can go on, with and without a disconnect |
| `ServerOwnership.dfy`, `Server.dfy` | who joins or detaches each client's thread when the server is destroyed, and whether a join returns: the acceptor, the clients' threads with their sessions, and the destructor under any schedule, and the code of all three |
| `Bits.dfy`, `EdidTiming.dfy`, `Edid.dfy` | the EDID block: the blanking formula, the packing of the preferred timing into bytes, the checksum, and the driver's decoder |
| `Evdi.dfy` | the Linux monitor's event handlers, frame request and map, composed with the streaming rule |
| `Notices.dfy` | the two notices that the panel gets of a client, over every run of the server, and what the window lists by them |
| `RequestTable.dfy`, `ControlServer.dfy`, `ControlPanel.dfy` | the control panel's requests from `request` through the server's message handler and back to the promise, over any reordering and any loss of the connection |
| `DeviceIndex.dfy`, `ControlPanel.dfy` | the panel's device map and the window's list, against the history of events |
| `Wrappers.dfy` | an option type |

`dafny verify dfyconfig.toml` checks all of it.

Some expected properties do not hold of the code as it stands. Each is shown by a concrete run, next to the
exact condition under which the property does hold:

- The driver can hand out a texture with the metadata of another frame, and can find the slot empty after
  checking it, once a request has timed out (`TimeOutTearsPair`, `TimeOutEmptiesCheckedSlot`). From a request
  on, frames are matched again exactly if no stale signal is pending or being given when it is made, or if the
  processor has finished and left in the slot the last frame that it acquired, or none (`MatchedIffNoHazard`).
- The handshake parser asks for a whole name even when part of it has been read ahead, so a complete
  handshake may leave it waiting; this can happen exactly to names of more than 12 bytes
  (`StallsIffNameExceedsMode`).
- A handshake that announces no name, with a length of zero or less, is accepted although no mode was read,
  and the client is not marked as identified (`SegmentationIndependence`). Names longer than the 256-byte
  receive buffer are read in several pieces and need no special treatment.
- The refresh rate survives the EDID exactly if the pixel rate is a multiple of 10 kHz that fits the clock
  field (`HertzRecovered`); the block's own default mode of 60 Hz is read back as 59 (`ShippedModeLosesOneHertz`).
- The driver divides by zero on a block that the program itself has written exactly if the mode's lines and its
  blanking are both multiples of 4096 (`DriverReadsWrittenMode`), for example 155648 lines at 159 Hz
  (`ModeWithoutLines`).
- A client's thread handle is stored after the thread has started. The thread detaches a handle that is not
  there exactly if it comes to `detach` before that (`FaultsIffDetachedBeforeStore`, `DetachBeforeStore`); the
  destructor passes a handle over, which then stays joinable for good, exactly if it comes to it before that
  (`SkippedIffTakenBeforeStore`, `HandleLeftJoinable`).
- A client that was announced to the panel but refused a monitor is never reported as disconnected; every other
  one is, once, when its thread ends (`NoticesPairUp`). Such a client, and once its thread has ended only such a
  one, stays in the window's list for good (`ListedForGoodIffRefused`).
- A forced disconnect can be lost: it is heeded exactly if the streaming loop had been started before the state
  was overwritten, or the thread had already turned away from it (`HeededIffStarted`, `HeededIffStartedBefore`). Otherwise the loop goes on exactly as long as
  its passes attempt no write (`GoesOnWhileSilent`, `SendFrames`), and the server's destructor, which waits for
  it, may wait through any number of passes (`LostDisconnect`, `JoinBoundedIffHeeded`).
- On Linux a mode change that is not followed by an update is reported as a ready frame, in every request until
  an update comes, though nothing was grabbed into the new buffer (`ModeChangeMapsUngrabbedBuffer`); a mapped
  frame was grabbed exactly if an update was, after the last mode change (`BufferIsGrabbed`, `Stream`).
- A request that the panel has failed because the connection was lost may have been served, or be served
  later (`ServedThenLost`, `LostThenServed`): exactly if its handler had run, or the socket still holds it
  (`ServedDespiteClose`).
- The window keeps the first description of a device that is announced twice, the backend the last: they are
  alike exactly if every device that is there was last announced as it was when it came
  (`AlikeIffLastAsFirst`). After `getAllClients` the window lists a device twice exactly if one that it listed
  is there again and has not left since (`ListedTwiceAfterClear`).

## Model

| member | source | states |
|---|---|---|
| `FrameHandoff.NoLostRequest` | iddcx-driver/Monitor.cpp:181-303 | in every interleaving a waiting requester has the flag set, the event signalled or the processor about to signal, and a finished processor has set the stop event |
| `FrameHandoff.EveryFrameAnswers` | iddcx-driver/Monitor.cpp:181-303 | in every continuation in which the processor exits, or finishes one frame that it has acquired since, whatever fails on the way, the waiting requester can return |
| `FrameHandoff.NeverStranded` | iddcx-driver/Monitor.cpp:181-303 | and there always is such a continuation: from every reachable state with a waiting requester, at most nine steps of the processor alone can bring it about |
| `FrameHandoff.FlagsMean` | iddcx-driver/Monitor.cpp:239-265 | in every run a frame is asked for exactly if it was requested and the request not taken back since, the ready event is signalled exactly if it was set and has woken nobody since, and the stop event exactly if the owner or the leaving processor has set it |
| `FrameHandoff.Conservation` | iddcx-driver/Monitor.cpp:239-287 | in every run, time-outs included: delivered ≤ wake-ups ≤ signals ≤ copies ≤ requests |
| `FrameHandoff.DeliveredInOrder` | iddcx-driver/Monitor.cpp:305-325 | in every run, if acquired frame numbers never decrease, neither do delivered ones, and delivered textures never go back either |
| `FrameHandoff.ExclusiveHandOff` | iddcx-driver/Monitor.cpp:239-287 | when no request times out or aborts: one copy per answered request; from wake-up to return the flag is clear and the processor is not copying; texture and metadata are of one acquire that is the last one before the request or later; also if `CopyFrame` fails at times |
| `FrameHandoff.MatchedIffNoHazard` | iddcx-driver/Monitor.cpp:239-303 | whatever was abandoned before, all frames handed out from a request on are matched, in every continuation that abandons none, if and only if no stale signal is pending or being given when it is made, or the processor has finished and left in the slot the last acquired frame, or none |
| `FrameHandoff.TimeOutTearsPair` | iddcx-driver/Monitor.cpp:260-287 | a run in which, after one time-out, a texture is returned with another frame's metadata |
| `FrameHandoff.TimeOutEmptiesCheckedSlot` | iddcx-driver/Monitor.cpp:273-277 | a run in which the slot becomes null between the requester's check and its use |
| `DriverMonitor.MonitorProcessor.StartPrivate` | iddcx-driver/Monitor.cpp:204-258 | the loop over what the swap chain answers, with the requester running between any two accesses: the frames are processed in order, every copy has been signalled when the loop is at its top or left, and it is left exactly if something fails or if a wait ends without a new frame after the owner has set the stop event; the call adds to one run of the protocol |
| `DriverMonitor.MonitorProcessor.CopyFrame` | iddcx-driver/Monitor.cpp:305-325 | afterwards slot and metadata are those of the frame at hand and the texture is filled, or, if it could not be made, the slot is null |
| `DriverMonitor.MonitorProcessor.ThreadProc` | iddcx-driver/Monitor.cpp:181-202 | however the loop ends, the stop event is set after it and a waiting requester can return; it ends only for the reasons of `StartPrivate` |
| `DriverMonitor.MonitorProcessor.AwaitFrame` | iddcx-driver/Monitor.cpp:218-238 | a wait for the next frame goes on exactly if there is a new frame, or the time has passed and nobody has set the stop event |
| `DriverMonitor.MonitorProcessor.RequestFrame` | iddcx-driver/Monitor.cpp:260-303 | the wait, its switch and the use of the slot, with the processor running between any two accesses. The answer is what the caller's own steps met: unexpected if and only if the wait failed, aborted if and only if it ended by the stop event with no frame ready, no updates if and only if it timed out with neither, and then no frame was acquired and finished since the request; out of memory if and only if the slot was null when checked. If there was no hazard when the request was made, a delivered frame has its own metadata, is filled and not older than the last one before the request, and the slot is never used when null; nothing else is delivered |
| `WindowsMonitor.MonitorContext.RequestFrame` | iddcx-driver/Monitor.cpp:73-94 | the driver's answer around the processor's: the monitor counts as on exactly after a delivery or a time-out, as off if it is not enabled, has no processor, or its processor has stopped, which is no error; any other answer of the processor is one |
| `WindowsMonitor.Monitor.RequestFrame` | server/win32/iddcx.cpp:242-332 | the status, exactly: off, no updates, a frame of the same size or of another one, or an error, by what ended the processor's wait and by what could be done with the frame |
| `WindowsMonitor.Monitor.Stream` | server/win32/iddcx.cpp:319-331 | over every run a change of mode is reported exactly with the frames whose size is not that of the latest usable frame before them |
| `Handshake.SegmentationIndependence` | server/client.cpp:38-113 | for every way the socket cuts the stream and every name length, what the parser accepts and rejects is what the one-shot decoder says, field by field, with the bytes after the handshake kept |
| `Handshake.AcceptedMeans` | server/client.cpp:38-113 | an accepted handshake is the decoding of the whole stream, whatever of it is still unread |
| `Handshake.OverReadBound` | server/client.cpp:45-110 | bytes received are 9 + n + 12 and the leftover; the leftover is at most max(11, min(256, n) − 1); there are at most 21 + n reads |
| `Handshake.FullReadsLeftover` | server/client.cpp:45-110 | when no read is short, the leftover is what rounds the name up to whole reads, and is empty for names of up to 256 bytes |
| `Handshake.ShortNamesNeverStall` | server/client.cpp:47-85 | with a name of up to 12 bytes the client is identified as soon as its handshake has arrived, however it was cut |
| `Handshake.LongNamesCanStall` | server/client.cpp:47-85 | for every complete handshake with a longer name, a segmentation after which the parser still waits |
| `Handshake.StallsIffNameExceedsMode` | server/client.cpp:47-85 | a complete handshake can stall if and only if its name has more than 12 bytes |
| `Handshake.HandshakeRoundTrip` | server/client.cpp:57-110 | what a device encodes and sends in any pieces is what it is identified by: kind, name, and the mode rounded to even sizes in landscape |
| `Handshake.HandshakeBytes` | common/monidroid/protocol.h:33-34 | the layout, in bytes: one of two words, the length of the name, the name, and three numbers, all little-endian |
| `Handshake.HeaderDecides` | server/client.cpp:59-76 | rejected is exactly what has nine bytes and starts with neither word; a length of zero or less ends the handshake after those nine bytes |
| `ClientSession.Client.TakeField` | server/client.cpp:57-109 | one field is taken off the buffer exactly as the parser's specification says |
| `ClientSession.Client.ReadOnce` | server/client.cpp:47-110 | one pass of the loop keeps fields and locals equal to the parser fed with the reads so far, and uses up input; it fails exactly if its read does or the parser rejects |
| `ClientSession.Client.IdentifyClient` | server/client.cpp:38-113 | with other threads interfering, returns true exactly if no read failed and the stream is not one that the one-shot decoder rejects, whatever the pieces, with or without a name; that is, exactly if the parser accepts; then the fields decode the stream, and nothing has been sent |
| `StreamFraming.ReadEncode` | server/client.cpp:250-259 | one message is read back whatever follows it |
| `StreamFraming.EncodeRead` | server/client.cpp:250-259 | whatever is read encodes back to exactly the bytes consumed |
| `StreamFraming.ParseStream` | server/client.cpp:250-341 | parsing the concatenated messages, and any unreadable rest, returns the same sequence and the same rest |
| `StreamFraming.ParseIsExact` | server/client.cpp:250-341 | whatever bytes arrive, the parsed messages account for all of them but the rest, which starts no message unless an error ended the stream |
| `StreamFraming.UniqueStream` | server/client.cpp:250-341 | no two message sequences have the same bytes |
| `StreamFraming.CutMessageIsUnread` | server/client.cpp:258-263 | a message cut short by a failed write is never taken for a message |
| `StreamFraming.EmptyFrameMeansMonitorOff` | server/client.cpp:270-279 | length 0, and only it, means that the monitor is off |
| `StreamFraming.MessageBytes` | server/client.cpp:250-341 | the layout of every message, in bytes: its word, little-endian numbers, and the data |
| `Wire.DecodeEncodeInt` | server/client.cpp:71 | a 32-bit little-endian integer is read back |
| `Wire.EncodeDecodeInt` | server/client.cpp:254 | and four bytes encode one integer only |
| `Wire.OnTheWire` | server/client.cpp:254 | the bytes of a number are those of its two's complement, the lowest first, written and read |
| `Streaming.FrameFailsMeaning` | server/client.cpp:139-178 | the first counter is at least k exactly if the last k statuses are all failures |
| `Streaming.MapFailsMeaning` | server/client.cpp:141-158 | the second is at least k exactly if k map failures have come with no successful map since the first, other statuses allowed between them |
| `Streaming.CountersDecide` | server/client.cpp:153-176 | the limits 15 and 10 on the two counters are the rule on the trace |
| `Streaming.NeverEarly` | server/client.cpp:153-176 | the rule first fires on a failed request or map, and not before ten passes |
| `Streaming.MustStopMeans` | server/client.cpp:141-176 | that rule in terms of the statuses alone: fifteen passes in a row with `Error`, `BufferTooSmall` or `NotAvailable`, or ten frames that could not be mapped with none mapped since the first of them |
| `Streaming.OutputsAreDue` | server/client.cpp:141-168 | the messages of a run, one to one and in order: "monitor off" for each pass with that status, the JPEG of each pass whose frame was there, mapped and compressed, and nothing else |
| `ClientSession.Client.RunPass` | server/client.cpp:139-179 | one pass: both counters, the message attempted, which is the frame or the "monitor off" that the status owes and nothing else, and an error state exactly at a limit |
| `ClientSession.Client.SendFrames` | server/client.cpp:127-180 | under any interference the passes are a prefix of what happened, and the messages attempted are exactly those that they owe, one to one and in order, and error 12 at the end if it gives up; the loop ends with `Error` exactly when the trace demands it, otherwise only because it was disconnected after its start or its last write failed; if the connection was gone at the start, it goes on exactly as long as its passes attempt no write and it is not disconnected again |
| `ClientSession.Client.SendFullFrame` | server/client.cpp:229-267 | one frame is attempted unless its compression failed; a failed write closes the connection and the state |
| `ClientSession.Client.SendMonitorOff` | server/client.cpp:270-287 | the same for the "monitor off" message |
| `ClientSession.Client.SendError` | server/client.cpp:314-341 | the error message is the last: the socket is shut down after it |
| `ClientSession.Client.ConnectMonitor` | server/client.cpp:115-125 | the state becomes `Connected` or `Error` and nothing is sent |
| `ClientSession.Client.DisconnectMonitor` | server/client.cpp:289-301 | nothing is sent and the socket is shut down |
| `ClientSession.Client.ForceDisconnect` | server/client.cpp:306-312 | without an error message it is one of the interferences that every other method tolerates |
| `ClientSession.Client.Communicate` | server/server.cpp:107-142 | a whole session from its first byte, nameless devices and interference from the start included: who is identified, what is attempted, message by message against the passes, when it gives up, also when connecting the monitor fails or throws; the device reads a prefix of it, and at most one frame is attempted after the connection is gone |
| `SessionLog.AtMostOneLateWrite` | server/client.cpp:115-180 | once the connection is gone, at most one more frame or "monitor off" is attempted, none of its bytes go out, and after it there is no pass, no write and no return to `Streaming`; `Communicate` establishes this for every session |
| `SessionLog.ForcedIsHeeded` | server/client.cpp:139 | a pass after another thread's disconnect means that the loop was started in between |
| `Serving.HeededIffStarted` | server/client.cpp:122-139 | after a disconnect no continuation has a pass, and the thread's remaining steps are bounded, if and only if `m_state = Streaming` came before it or the thread had already turned away from the loop: it was refused, threw or ended early |
| `Serving.GoesOnWhileSilent` | server/client.cpp:139-178 | in the loop with the socket gone, left alone, the thread goes on exactly as long as its passes attempt no write |
| `SessionLog.DeviceReadsWhatWasSent` | server/client.cpp:258-287 | the device parses exactly the messages that went out whole, and the cut-off one is the rest |
| `SessionLog.SentIsPrefix` | server/client.cpp:258-287 | what goes out whole is a prefix of what was attempted |
| `SessionLog.DeviceReadsAPrefix` | server/client.cpp:229-341 | end to end, the device reads a prefix of the attempted messages and then at most a cut-off one |
| `SessionLog.UndisturbedStep` | server/client.cpp:303-312 | a disconnect by another thread at any moment changes nothing the client's thread relies on |
| `ServerOwnership.JoinedOrDetachedOnce` | server/server.cpp:24-50 | in every run a handle is joined or detached at most once and never both; only who erased itself is detached, only who was moved out is joined, after its thread has ended |
| `ServerOwnership.RegisteredSomewhere` | server/server.cpp:99-150 | a registered context is in the set, moved out or erased, exactly one of them, early returns included |
| `ServerOwnership.DestructorJoinsWhatItMoved` | server/server.cpp:31-47 | the finished destructor has joined exactly what it moved out and found joinable |
| `ServerOwnership.JoinsWithoutLock` | server/server.cpp:29-47 | joining never holds the lock |
| `ServerOwnership.FaultsIffDetachedBeforeStore` | server/server.cpp:85-148 | in every run a thread detaches a handle that is not there if and only if it comes to `detach` before the handle is stored |
| `ServerOwnership.SkippedIffTakenBeforeStore` | server/server.cpp:42-45 | in every run the destructor passes a context over if and only if it comes to its handle before that is stored |
| `ServerOwnership.JoinedOrDetachedIffStoredInTime` | server/server.cpp:24-154 | after the destructor, a context that was moved out or has erased itself was joined or detached, once, if and only if its handle was stored before whichever came to it; any other registered context is still in the set |
| `ServerOwnership.DetachBeforeStore` | server/server.cpp:85-87 | a run in which a thread detaches a handle that has not been stored |
| `ServerOwnership.HandleLeftJoinable` | server/server.cpp:42-45 | a run that leaves a joinable handle which nobody joins or detaches |
| `ServerOwnership.HeededIffStartedBefore` | server/server.cpp:41 | when the destructor overwrites a client's state, no continuation has a pass of that client's loop if and only if the loop had been started or the thread had already turned away from it |
| `ServerOwnership.JoinBoundedIffHeeded` | server/server.cpp:43-45 | while the destructor waits for a thread, the thread's remaining steps are bounded if and only if the disconnect was heeded |
| `ServerOwnership.LostDisconnect` | server/server.cpp:41-45 | for every n, a run in which the destructor still waits for a client that has made n passes since it was waited for, and can make more |
| `ServerOwnership.EveryStepCounts` | server/server.cpp:24-50 | once the destructor has started, every step of any thread uses up a rank, but for passes that end well and disturbances from outside, which add nothing to it |
| `ServerOwnership.ShutdownIsBounded` | server/server.cpp:24-50 | so a shutdown has, under every schedule, no more steps than the rank beside those |
| `ServerOwnership.NoDeadlock` | server/server.cpp:24-50 | until the destructor has finished some thread can take a step that uses up rank, unless the destructor waits for a thread that has not heeded its disconnect, and that thread can go on |
| `ServerOwnership.ShutdownCompletes` | server/server.cpp:24-50 | a run that nothing but the outside could continue has a finished destructor |
| `ServerObject.Server.OnAccept` | server/server.cpp:76-97 | the context gets the number of contexts accepted before it, then a thread, and then, by this call, its handle, which nobody had stored before, with the other threads running in between; nothing is accepted exactly if the acceptor has been closed |
| `ServerObject.Server.CommunicationMain` | server/server.cpp:99-154 | the whole thread under interference: it erases itself only if it is still in the set, and then its handle is detached, once, if it was there; after an early return or when it was moved out it leaves the handle alone; it is not at its end only while another thread has the lock or its session goes on |
| `ServerObject.Server.Destroy` | server/server.cpp:24-50 | under interference: if it returns, every context it moved out was joined once and none detached, except those whose handle was not there yet; it waits only for the lock while another thread has it, and for a thread that has not ended, and then does not hold the lock |
| `Notices.NoticesOnce` | server/server.cpp:107-153 | in every run a client is announced at most once and said farewell to at most once |
| `Notices.NoticesPairUp` | server/server.cpp:107-153 | in every run a farewell follows an announcement, and when its thread has ended an announced client has had one if and only if it was not refused a monitor |
| `Notices.ListedForGoodIffRefused` | server/server.cpp:117-130 | the panel's window, fed with these notices, lists a client from its announcement on while its thread lives; once that has ended, if and only if the client was refused a monitor, whatever follows |
| `EdidTiming.VBlankIsLeast` | common/monidroid/edid.h:85-93 | the blanking is the least number of lines, at least 15, that covers 460 µs; so the vertical offset is at least 1 |
| `EdidTiming.CoversInMicroseconds` | common/monidroid/edid.h:87-89 | the integer form of that condition is the one on the estimated line period |
| `EdidTiming.VBlankIsMonotone` | common/monidroid/edid.h:85-93 | more lines or a higher rate never need less blanking |
| `EdidTiming.PackingRoundTrip` | common/monidroid/edid.h:95-116 | reading the 18 bytes by the E-EDID standard gives back every field, reduced to the width of its bits; no bits overlap |
| `EdidTiming.UnchangedIffFits` | common/monidroid/edid.h:95-116 | sizes and blanking come back unchanged exactly below 4096, the vertical offset exactly below 64 |
| `EdidTiming.DriverAgrees` | iddcx-driver/Main.cpp:218-223 | on any descriptor the driver's masks and shifts read what the standard defines |
| `EdidTiming.ClockWithinRange` | common/monidroid/edid.h:96 | no 16- or 32-bit wrap on the way to the clock field while the pixel rate is below 655,360,000 |
| `EdidTiming.ClockMeans` | common/monidroid/edid.h:96 | the clock field for any mode: the pixel rate modulo 2^32 in tens of kilohertz, modulo 2^16 |
| `EdidTiming.HertzRecovered` | iddcx-driver/Main.cpp:218-225 | the driver recovers the rate if and only if the pixel rate is a multiple of 10 kHz below 655,360,000 |
| `EdidTiming.HertzLost` | iddcx-driver/Main.cpp:218-225 | within that range and with a frame of at least 10,000 pixels, the rate comes back exactly or one less |
| `EdidBlock.Edid.SetDefaultMode` | common/monidroid/edid.h:85-117 | the block becomes the one with the mode's descriptor in its first data block |
| `EdidBlock.WrittenModeReads` | common/monidroid/edid.h:95-116 | by the E-EDID standard that block announces the given mode with its blanking and offsets, and all other bytes stay |
| `EdidBlock.Edid.Prepare` | server/linux/evdi.cpp:185-187 | the block given to the kernel carries the mode and a valid checksum |
| `EdidBlock.Edid.Commit` | common/monidroid/edid.h:119-127 | the 128 bytes add up to 0 modulo 256 and the other 127 stay |
| `EdidBlock.SumAdds` | common/monidroid/edid.h:119-127 | the sum of the bytes is that: of two parts the sum of both |
| `EdidBlock.ChecksumIsUnique` | common/monidroid/edid.h:119-127 | the other bytes determine the checksum, so the old one plays no part and committing twice is committing once |
| `EdidBlock.SingleByteBreaksSum` | common/monidroid/edid.h:119-127 | changing any single byte breaks the sum |
| `EdidBlock.DriverReadsWrittenMode` | iddcx-driver/Main.cpp:218-226 | from end to end, for every mode: the driver reads the written sizes reduced to 12 bits; it finds no lines, and would divide by zero, if and only if lines and blanking are both multiples of 4096; where they fit, it reads the rate exactly under the condition of `HertzRecovered` |
| `EdidBlock.ModeWithoutLines` | iddcx-driver/Main.cpp:218-226 | such modes exist: 155648 lines at 159 Hz, of any width |
| `EdidBlock.ShippedModeLosesOneHertz` | common/monidroid/edid.h:188-195 | the default 2400x1500 mode of 60 Hz is read as 59 Hz |
| `EdidBlock.ParseMonitorDescription` | iddcx-driver/Main.cpp:11-239 | a short buffer is left alone and told the count, whatever the descriptor; otherwise a descriptor without lines, and only such a one, divides by zero; else the list is, field by field, the mode that the descriptor announces by the standard, at the rate computed from its clock, and 1920x1080, 640x480, 800x600 and 1024x768 at 60 Hz, with their pixel and line rates modulo 2^32 |
| `EdidBlock.WrittenModeIsListed` | iddcx-driver/Main.cpp:218-236 | from the device to that list: a mode that fits the descriptor is listed by its own sizes, and by its own rate exactly if its pixel rate is a multiple of 10 kHz below 655,360,000 |
| `EvdiMonitor.MonitorContext.RequestFrame` | server/linux/evdi.cpp:221-264 | the status, exactly: after a batch of events `MonitorOff` if and only if the monitor is not on by its history, `ModeChanged` if and only if it is and its latest update reported no rectangles, and `FrameReady` otherwise; also for a ready update, a failed poll and a time-out |
| `EvdiMonitor.MonitorContext.HandleEvents` | server/linux/evdi.cpp:109-143 | any batch of events keeps the buffer's dimensions those of the mode, with room for a frame |
| `EvdiMonitor.MonitorContext.AllocFrameBuffer` | server/linux/evdi.cpp:94-107 | the buffer is registered under the mode's dimensions and never shrinks |
| `EvdiMonitor.MonitorContext.ModeHandler` | server/linux/evdi.cpp:115-132 | the new mode and its buffer come together |
| `EvdiMonitor.MonitorContext.UpdateHandler` | server/linux/evdi.cpp:134-143 | pixels are grabbed only while the monitor is on |
| `EvdiMonitor.MonitorContext.MapCurrent` | server/linux/evdi.cpp:291-302 | a map has data exactly if the monitor is on, something was grabbed and there is storage, and then has the current dimensions |
| `EvdiMonitor.MonitorContext.Stream` | server/client.cpp:139-158 | over every run of requests every status means that of the whole history before it; a frame is mapped exactly when the status is `FrameReady`, and its buffer was grabbed exactly if an update was grabbed after the last mode change of the run |
| `EvdiMonitor.LinuxGivesUp` | server/client.cpp:141-176 | so the loop gives up over maps exactly after ten `ModeChanged` with no `FrameReady` between, over requests exactly after fifteen failed polls in a row |
| `EvdiMonitor.BufferIsGrabbed` | server/linux/evdi.cpp:94-143 | from any state and over every run, the buffer holds grabbed pixels if and only if an update was grabbed, on request or while the monitor was on, after the last mode change |
| `EvdiMonitor.ModeChangeMapsUngrabbedBuffer` | server/linux/evdi.cpp:249-263 | a mode change alone is reported as a ready frame, and so is a batch of other events after it |
| `RequestTable.IssuedIsConserved` | control/backend/wsservice.ts:50-97 | in every run issued = resolved + rejected + pending, as sets and in number, and each request is settled once or, while pending, not at all |
| `RequestTable.VerdictIsItsOwn` | control/backend/wsservice.ts:61-68 | a request is resolved or refused only as its own handler decided; one without a handler ends only with the connection |
| `RequestTable.SettledByReplyOrClose` | control/backend/wsservice.ts:50-68 | in every run each settled request was pending until one step, the delivery of a reply bearing its id or a close, and has the verdict of that step |
| `RequestTable.VerdictIsFinal` | control/backend/wsservice.ts:61-68 | a settled request keeps its verdict however the run goes on |
| `RequestTable.CloseLeavesNonePending` | control/backend/wsservice.ts:50-57 | a close fails exactly what was pending and leaves nothing pending |
| `RequestTable.PendingCanBeSettled` | control/backend/wsservice.ts:86-98 | no request is forgotten: serving and delivery settle any pending request that has a handler |
| `RequestTable.RepliesInAnyOrder` | control/backend/wsservice.ts:58-68 | in every run the replies under way may be delivered in any order with the same result |
| `RequestTable.AnsweredAtMostOnce` | server/control.h:55-82 | the server answers a request at most once, with its own id, and only if it was issued and has a handler |
| `RequestTable.RequestIsAnswered` | server/control.h:65-76 | the reply to an encoded request exists exactly if a handler is registered and carries its id and result |
| `RequestTable.RespondMeans` | server/control.h:55-82 | what becomes of any message, case by case and exactly: ignored, an exception, answered with its own id and either data or an error, given to its event handler, or unknown |
| `RequestTable.EncodeMeans` | control/backend/wsservice.ts:86-98 | a request carries its id, its message, and its data unless they are undefined, and nothing else |
| `RequestTable.ServedThenLost` | control/backend/wsservice.ts:50-54 | a run in which a request that was failed by a close had been served |
| `RequestTable.LostThenServed` | control/backend/wsservice.ts:50-54 | a run in which it is served after it was failed |
| `RequestTable.ServedDespiteClose` | control/backend/wsservice.ts:50-54 | a request failed by a close had been served exactly if its handler had run, and otherwise some continuation serves it if and only if it is among what the socket kept |
| `ControlServer.MDApp.OnMessage` | server/control.h:55-82 | every message is ignored, answered, handed to its event handler or unknown, exactly as `RespondMeans` says, with one reply at most, and the handler called is the one registered last |
| `ControlServer.MDApp.SetupControl` | server/main.cpp:87-153 | afterwards the requests with a handler are the three that the panel makes, and the other messages its two, each with its own handler |
| `ControlServer.PanelIsAnswered` | server/main.cpp:87-153 | so every request that the panel makes can be settled: whatever has happened, at most two more steps do it |
| `ControlServer.PanelIsHeard` | server/main.cpp:141-152 | and the panel's two messages without a reply reach their event handlers |
| `ControlPanel.ControlClient.MakeRequest` | control/backend/wsservice.ts:86-98 | one more request is pending, and its encoding is sent |
| `ControlPanel.ControlClient.OnMessage` | control/backend/wsservice.ts:58-75 | a response only touches the table, an event only the map and the notices, as specified |
| `ControlPanel.ControlClient.OnClose` | control/backend/wsservice.ts:50-57 | the loop over the pending requests fails each of them once |
| `ControlPanel.ControlClient.FollowEvents` | control/backend/wsservice.ts:29-44 | over every history the notices make the window show exactly the devices present, in order of arrival |
| `ControlPanel.ControlClient.GetAllClients` | control/backend/wsservice.ts:104-108 | the map is emptied before the request is sent |
| `ControlPanel.ControlClient.Shutdown` | control/backend/wsservice.ts:123-126 | the message that `PanelIsHeard` is about, and nothing pending for it |
| `ControlPanel.ControlClient.ForceDisconnect` | control/backend/wsservice.ts:114-117 | the same, with the device's id |
| `DeviceIndex.MapIsTheHistory` | control/backend/wsservice.ts:29-44 | the map holds exactly the devices whose latest event connected them, as that event described them |
| `DeviceIndex.NoticesTell` | control/backend/wsservice.ts:29-44 | the window is told of every device that comes in, and whether it was there already, and of one that leaves only if it was there |
| `DeviceIndex.ListIsTheHistory` | control/src/App.tsx:80-91 | the window's list is the devices that came in and have not left, in that order |
| `DeviceIndex.ListHasTheKeys` | control/src/App.tsx:80-91 | the list's ids are the keys of the map |
| `DeviceIndex.NeverTwice` | control/src/App.tsx:80-91 | the list never has a device twice |
| `DeviceIndex.AlikeIffLastAsFirst` | control/src/App.tsx:81-85 | over every history list and map describe their devices alike if and only if every device that is there was last announced as it was when it came |
| `DeviceIndex.AlikeUntilAnnouncedAnew` | control/backend/wsservice.ts:30-34 | one event keeps them alike unless, and only unless, it announces a device that is there with other details |
| `DeviceIndex.ListedTwiceAfterClear` | control/backend/wsservice.ts:104-108 | after any events, `getAllClients` and any further events, the window lists a device twice if and only if one that it listed is there again and has not left since while it was there |

## Left out

- Sockets, Direct3D, IddCx, EVDI, libusb, uinput, JPEG compression and `adb`: what they return is a
  nondeterministic choice or a parameter.
- Rounding of floating point in `setDefaultMode`: the formula is taken over exact rationals.
- EdidTiming.VBlankIsLeast: rates above 2173 Hz, for which no time is left after the minimum blanking, and
  negative sizes and rates are excluded, because the code then converts a negative number to an unsigned one
  without a defined result.
- FrameHandoff.NoLostRequest: one requester per monitor, as the streaming loop is the only caller; the slot's
  metadata are read and written in one step; replacing the swap chain during a request is not part of the model.
- DriverMonitor.MonitorProcessor.RequestFrame: the threads interleave by whole accesses to shared fields.
- WindowsMonitor.Monitor.RequestFrame: a driver that has used a null slot is taken to fail the device call; the
  monitor is not switched on or off, and its swap chain not replaced, within one run of requests.
- ServerOwnership.JoinedOrDetachedIffStoredInTime: a connection accepted while the destructor runs, and the
  destruction of the server's memory under a thread that registers late, are not modelled.
- ClientSession.Client.ForceDisconnect: the error message that the panel's "disconnect" sends from another
  thread is not modelled, because two threads then write to one socket at once; the framing theorems are about
  what the client's own thread writes.
- ClientSession.Client.Communicate: an exception is modelled where the monitor is connected, not in the
  middle of the streaming loop.
- ClientSession.Client.SendFrames: the input thread that reads mouse events is left out.
- Serving.HeededIffStarted: what a pass comes to is left open there; `Client` settles it by the two counters.
- EvdiMonitor.MonitorContext.Stream: starts from a non-empty mode, and modes whose width times height
  overflows an `int` are excluded.
- RequestTable.IssuedIsConserved: request ids are distinct, as `crypto.randomUUID` gives them; JSON is
  modelled as maps of members, and reconnecting as a choice of what was under way that survives.
- DeviceIndex.ListIsTheHistory: the window is open all the time, and `getAllClients` is not called.
- The driver's table of monitor slots, EVDI device numbering, the echo message and mode commit: their
  properties would be easy members.
- USB discovery, the Windows service wrapper, the Electron shell, the React pages and mouse input.
