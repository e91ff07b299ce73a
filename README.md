# liteRadar driver model

A Dafny model of `liteRadar.cpp`, the Arduino driver for the Seeed 24GHz Human
Static Presence Lite radar module. The driver talks to the module over a serial
stream of framed bytes. A frame starts with HEAD1 HEAD2, carries a control and a
command byte, and ends with END1 END2; a request frame is ten bytes long and carries
its value at offset 6 and an 8-bit checksum at offset 7. The driver:

- reads one frame from the stream (`getFrame`);
- builds and checksums a request, writes it, and waits for the module's
  acknowledgement (`calculateChecksum`, `putFrame`, `setParam`, and the ten setters
  from `resetRadar` to `setMotionRange`);
- keeps the last reported presence and motion bytes (`updateStatus`, `isPresent`,
  `isMoving`).

Modules:

- `Bytes`: the 8-bit `byte` and the 32-bit `unsigned long` of the clock, with their
  wrapping arithmetic.
- `Wire`: the marker bytes and the command codes, both kept abstract. It also holds
  the frame offsets, the checksum and the request layout.
- `Framing`: what one call of `getFrame` does, as a function of the stream and the
  read cursor (`ReadFrame`). The lemmas describe noise, false starts, exhaustion and
  the request round trip.
- `Protocol`: the acknowledgement loop of `setParam` as a function (`Poll`). The
  lemmas describe when it succeeds, times out or never returns.
- `Tracker`: the presence/motion state machine of `updateStatus`.
- `Driver`: the `Frame` buffer and the `Radar` class. Its methods are imperative:
  loops over a stream cursor and writes into a ten-byte array. Each method is proved
  against the functions above.

The stream is a `seq<byte>` of every byte the module sends (`rx`) with a read
cursor `pos`. Everything the driver writes is appended to `tx`. `clock(n)` is the
value of the n-th call of `millis()`, and `ticks` counts the calls made so far.

The model follows the code as written, including the behaviour below, even where
the doc comments say otherwise:

- `getFrame` reads after HEAD1 and inside its terminator loop without checking
  `available()`. A read with no byte left ends the call with the outcome
  `Underrun` (`Framing.TruncatedFrame`, `Framing.TruncatedHead`).
- `getFrame` does not bound its counter `l`. A write at index 10 of the
  ten-byte buffer ends the call with the outcome `Overflow`
  (`Framing.LongFrame`).
- A false start is HEAD1 followed by a byte other than HEAD2. It consumes both
  bytes and does not reset `l`, so a later frame is stored one byte further on
  (`Framing.FalseStartShiftsFrame`). Each false start leaves one more stale
  HEAD1 in the buffer: after ten of them in one call the buffer is full, and
  the next HEAD1 is written at index 10, past it (`Framing.TooManyFalseStarts`).
- `setParam` checks its 2000 ms deadline only after a frame has arrived. With no
  further frame it never returns. The model reports `Stalled` once the stream is
  exhausted (`Protocol.SilenceNeverTimesOut`).
- The doc comment of `setParam` speaks of "up to 10 following frames". The code
  uses the 2000 ms deadline, and the model follows the code.
- `updateStatus` has no `return` on the path where no frame is read. The model
  returns `false` there and leaves the state unchanged.
- `isPresent` converts the presence byte to `bool`, so any non-zero byte counts as
  present.

## Model

| member | source | states |
|---|---|---|
| Framing.ScanBounds | liteRadar.cpp:24-50 | the framer stays within the stream and the ten-byte buffer; "no frame" only at the end of the stream; a frame only after at least three bytes, ending in END2 |
| Framing.ReadFrame | liteRadar.cpp:24-50 | one framer call from a cursor: the cursor only advances, at most ten bytes are written, a frame ends in END2 |
| Driver.Radar.GetFrame | liteRadar.cpp:24-50 | outcome, cursor, buffer contents and length are those of `ReadFrame`; `l = 0` when no frame was found, the full frame length when one was |
| Driver.Radar.ReadHead | liteRadar.cpp:29-45 | storing HEAD1 and checking HEAD2 either resumes the scan with HEAD1 kept (false start) or ends the call exactly as `ScanFrom` does |
| Driver.Radar.ReadTail | liteRadar.cpp:36-44 | the terminator loop copies bytes up to and including END2 exactly as `Body` does, and sets `l` only on success |
| Framing.ReadFrameTaken | liteRadar.cpp:24-50 | a frame the framer reports is a HEAD1 HEAD2 ... END2 run of the stream at or after the cursor, ending at its first END2, stored behind the HEAD1 bytes of earlier false starts; so without such a run there is no frame |
| Framing.ScanFound | liteRadar.cpp:27-44 | from a buffer holding only stale HEAD1 bytes, a reported frame is a HEAD1 HEAD2 ... first-END2 run of the stream at or after the cursor, stored behind those bytes |
| Framing.BodyFound | liteRadar.cpp:36-44 | a frame reported by the terminator loop is the bytes stored so far followed by the stream up to and including its first END2 |
| Framing.SkipNoise | liteRadar.cpp:27-29 | bytes other than HEAD1 are consumed without touching the buffer |
| Framing.CopyToEnd | liteRadar.cpp:37-44 | after the header, every byte up to the first END2 is copied and the cursor sits just past END2 |
| Framing.FrameAt | liteRadar.cpp:27-44 | a HEAD1 HEAD2 ... END2 run after noise is returned as exactly those bytes with the cursor just past END2 |
| Framing.FrameAfterNoise | liteRadar.cpp:27-44 | noise, then HEAD1 HEAD2 b1..bk END2 with no bi = END2: found, the frame holds exactly those k+3 bytes, and the cursor sits just past END2 |
| Framing.Exhausted | liteRadar.cpp:27-49 | a stream with no HEAD1 left gives "no frame", nothing written and the cursor at the end |
| Framing.FalseStart | liteRadar.cpp:25-35 | HEAD1 followed by a non-HEAD2 byte consumes both bytes and leaves HEAD1 stored with `l` at 1 |
| Framing.FalseStartShiftsFrame | liteRadar.cpp:25-44 | after a false start the next frame is stored behind the stale HEAD1, so its control byte is read from HEAD2 |
| Framing.FalseStartRun | liteRadar.cpp:25-35 | n false starts in a row consume 2n bytes and store n more HEAD1 bytes, the counter never being reset |
| Framing.FalseStartsThenSilence | liteRadar.cpp:25-35 | up to ten false starts followed by no HEAD1: no frame, the cursor at the end, and one stale HEAD1 stored per false start |
| Framing.TooManyFalseStarts | liteRadar.cpp:25-35 | ten false starts followed by HEAD1: that HEAD1 is stored at index 10, past the buffer (Overflow) |
| Framing.ScanFrom | liteRadar.cpp:27-35 | definition of the outer scan (skip to HEAD1, store it, check HEAD2, keep the counter after a false start); its properties are stated in `ScanBounds`, `SkipNoise`, `Exhausted`, `FalseStart` and `FalseStartShiftsFrame` |
| Framing.Body | liteRadar.cpp:36-44 | definition of the terminator loop; its properties are stated in `BodyBounds`, `CopyRun` and `CopyToEnd` |
| Framing.BodyBounds | liteRadar.cpp:36-44 | the terminator loop stays within the stream and the buffer, never reports "no frame", and a frame it reports ends in END2 |
| Framing.CopyRun | liteRadar.cpp:37-41 | a run of bytes other than END2 after the header is appended to the buffer byte by byte while it has room |
| Framing.LongFrame | liteRadar.cpp:30-43 | a frame with eight bytes after its header and no END2 among them fills the ten-byte buffer; the next byte is read and stored past it (Overflow), the cursor just after it |
| Framing.TruncatedFrame | liteRadar.cpp:36-40 | a header followed by bytes without END2 up to the end of the stream: the read after the last byte finds nothing (Underrun), with the bytes received so far in the buffer |
| Framing.TruncatedHead | liteRadar.cpp:28-32 | HEAD1 as the last byte of the stream is stored and the read after it finds nothing (Underrun) |
| Framing.RequestAt | liteRadar.cpp:27-44 | a request with no END2 in bytes 2..8, starting exactly at the cursor `h`, is read as exactly those ten bytes and the cursor stops right after it |
| Framing.OverlayPush | liteRadar.cpp:30-43 | storing one more byte at index `l` extends the written prefix by that byte |
| Bytes.Sum8Step | liteRadar.cpp:89-91 | adding one byte with 8-bit wrap-around keeps the running checksum equal to the sum modulo 256 |
| Driver.Radar.CalculateChecksum | liteRadar.cpp:84-93 | the frame becomes `WithChecksum`: slot l-3 holds the 8-bit sum of the bytes before it |
| Wire.WithChecksum | liteRadar.cpp:84-93 | definition of the checksum step; its properties are stated in `ChecksumWritten`, `ChecksumIgnoresSlot` and `ChecksumIdempotent`, and `CalculateChecksum` is proved equal to it |
| Wire.ChecksumWritten | liteRadar.cpp:84-93 | the checksum slot holds the sum of the preceding bytes and no other byte changes |
| Wire.ChecksumIgnoresSlot | liteRadar.cpp:84-93 | what the checksum slot held before does not affect the result |
| Wire.ChecksumIdempotent | liteRadar.cpp:84-93 | a second checksum computation changes nothing |
| Wire.RequestLayout | liteRadar.cpp:104-116 | the request is HEAD1, HEAD2, control, command, 0x00, 0x01, value, the sum of bytes 0..6, END1, END2 |
| Wire.Request | liteRadar.cpp:104-116 | definition of the request bytes (template, value at DATA, checksum over ten bytes); its layout is stated in `RequestLayout` and its read-back in `RequestRoundTrip` |
| Framing.RequestRoundTrip | liteRadar.cpp:29-44 | a built request with no END2 in bytes 2..8, read back, is the identical ten-byte frame |
| Driver.Radar.PutFrame | liteRadar.cpp:74-77 | the first `l` bytes of the frame are appended to the output |
| Driver.Radar.Millis | liteRadar.cpp:118 | one clock reading: the next value of the supplied clock |
| Driver.Radar.SetParam | liteRadar.cpp:103-136 | the request is written exactly once, before polling; the reply, cursor and clock readings are those of `Poll`; presence and motion are untouched |
| Driver.Radar.AwaitAck | liteRadar.cpp:121-134 | the polling loop's reply, cursor and clock readings are those of `Poll` from the reply buffer it is given (zeroed by `SetParam`) |
| Driver.Radar.PollOnce | liteRadar.cpp:122-133 | one round of the loop either ends with the reply, cursor and clock readings of `Poll`, or consumes at least one byte and leaves a state from which `Poll` gives the same result |
| Protocol.Poll | liteRadar.cpp:121-134 | the polling loop only advances the cursor; it stalls only at the end of the stream |
| Protocol.AckAfterRejectedFrame | liteRadar.cpp:121-133 | a non-acknowledging frame read before the deadline does not end the wait; the echoed request that follows it gives success on the second round, with the request in the reply buffer and two clock readings taken |
| Protocol.Acknowledges | liteRadar.cpp:123-124 | definition: control byte equal and command byte equal to the command or INIT_COMPLETE; its consequences are stated in `AckedOnlyOnMatch`, `EchoAcknowledges` and `AckAfterRejectedFrame` |
| Protocol.AckedOnlyOnMatch | liteRadar.cpp:122-127 | success only for a frame whose control byte matches and whose command byte is the command or INIT_COMPLETE |
| Protocol.TimedOutOnlyAfterDeadline | liteRadar.cpp:122-132 | failure only for a non-acknowledging frame read when at least 2000 ms (modulo 2^32) have elapsed |
| Protocol.NoTimeoutBeforeDeadline | liteRadar.cpp:129-132 | while the clock readings from now on stay below the deadline, the loop never reports failure |
| Protocol.LateRejectedFrameTimesOut | liteRadar.cpp:122-131 | a non-acknowledging frame read once 2000 ms (modulo 2^32) have elapsed ends the wait with failure, that frame in the reply buffer and one more clock reading taken |
| Protocol.RejectedFrameSkipped | liteRadar.cpp:122-133 | a non-acknowledging frame read before the deadline does not end the wait: it goes on from the next byte with that frame in the reply buffer and one more clock reading taken |
| Protocol.SilenceNeverTimesOut | liteRadar.cpp:121-134 | with no frame left in the stream the loop never reports a result (Stalled), whatever the clock says |
| Protocol.EchoAcknowledges | liteRadar.cpp:103-127 | a module that echoes the request back is acknowledged on the first poll |
| Bytes.Elapsed | liteRadar.cpp:125-129 | `millis() - start` on `unsigned long`: the difference, wrapped modulo 2^32 |
| Driver.Radar.ResetRadar | liteRadar.cpp:144-146 | one request (SYSTEM, RESET, ZERO_F) |
| Driver.Radar.SetScenario | liteRadar.cpp:156-158 | one request (WORKING_STATUS, SET_SCENARIO, scenario) |
| Driver.Radar.SetSensitivity | liteRadar.cpp:166-168 | one request (WORKING_STATUS, SET_SENSITIVITY, value) |
| Driver.Radar.OpenCustomMode | liteRadar.cpp:176-178 | one request (WORKING_STATUS, OPEN_CUSTOM, mode) |
| Driver.Radar.ExitCustomMode | liteRadar.cpp:185-187 | one request (WORKING_STATUS, EXIT_CUSTOM, ZERO_F) |
| Driver.Radar.SetPresenceThreshold | liteRadar.cpp:195-197 | one request (CUSTOM, SET_PRESENCE_THRESHOLD, threshold) |
| Driver.Radar.SetPresenceRange | liteRadar.cpp:205-207 | one request (CUSTOM, SET_PRESENCE_RANGE, range) |
| Driver.Radar.SetTimeOfAbsence | liteRadar.cpp:215-217 | one request (WORKING_STATUS, SET_TIME_OF_ABSENCE, t) |
| Driver.Radar.SetMotionThreshold | liteRadar.cpp:225-227 | one request (CUSTOM, SET_MOTION_THRESHOLD, threshold) |
| Driver.Radar.SetMotionRange | liteRadar.cpp:235-237 | one request (CUSTOM, SET_MOTION_RANGE, range) |
| Driver.Radar.IsPresent | liteRadar.cpp:244-246 | present exactly when the presence byte is non-zero |
| Driver.Radar.IsMoving | liteRadar.cpp:253-256 | moving exactly when the motion byte is 0x02 |
| Driver.Radar.UpdateStatus | liteRadar.cpp:265-292 | a found frame is applied with `Track` and its change flag returned; with no frame the state is unchanged and the result is false |
| Tracker.Track | liteRadar.cpp:269-290 | definition of applying one frame to the presence/motion state; its properties are stated in `ChangedIffDiffers`, `PresenceReport`, `MotionReport` and `PresenceSequence` |
| Tracker.ChangedIffDiffers | liteRadar.cpp:269-290 | true is returned exactly when the state changed; only the reported field changes, and only to the reported value |
| Tracker.PresenceReport | liteRadar.cpp:244-277 | a HUMAN_STATUS/PRESENCE report stores its value, returns whether it differed, and presence then holds exactly for a non-zero value |
| Tracker.MotionReport | liteRadar.cpp:253-283 | a HUMAN_STATUS/MOTION report stores its value, returns whether it differed, and motion then holds exactly for 0x02 |
| Tracker.PresenceSequence | liteRadar.cpp:244-277 | presence reports 0x01, 0x01, 0x00 give changed, unchanged, changed, with present true, true, false |

## Left out

- `printFrame` (liteRadar.cpp:58-67) is left out: it only formats a frame for the debug console.
- The constructor (liteRadar.cpp:13-16) only stores the stream it is given. `Driver.Radar.constructor` takes the whole input stream, the clock and the initial state instead.
- The Arduino `Stream` is not modelled: no `available()`, `read()`, `write()` or `flush()`. Input is the finite sequence `rx` with a cursor, and output is the log `tx`.
- Driver.Radar.GetFrame: a `read()` with no byte available returns -1 (0xFF once stored), and the source carries on with it. The model stops the call with `Underrun` instead.
- Driver.Radar.GetFrame: a write past the ten-byte buffer is undefined behaviour in the source. The model stops the call with `Overflow` instead.
- Driver.Radar.SetParam: bytes that arrive while the loop spins are not modelled, because the stream is fixed in advance. Blocking forever on an empty stream is reported as `Stalled`, and a framer fault as `Fault`.
- `millis()` is a supplied function `clock` from the number of calls made to a 32-bit value. Real time is not modelled.
- The values of HEAD1, HEAD2, END1, END2 and the command codes are in `liteRadar.h`, which is not part of this model. They stay parameters (`Wire.Markers`, `Wire.Codes`).
- Driver.Radar.UpdateStatus: the source reads into an uninitialised local frame. The model takes its initial bytes as the parameter `stack`.
- The value ranges that the setter doc comments mention (for example 1-3, or 0 to 0x0A) are not checked by the source, and not by the model either.
