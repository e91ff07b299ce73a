/** The acknowledgement wait of a parameter request: after the request is
    written, frames are read one after another into the same ten-byte buffer
    until one acknowledges the request or, once a frame has arrived, the
    2000 ms deadline has passed. */
module Protocol {
  import opened Bytes
  import opened Wire
  import opened Framing

  /** How a request ends. `Acked` and `TimedOut` are the source's `true` and
      `false`. `Stalled`: the stream ran dry without a frame, where the source
      keeps polling forever because the deadline is only checked after a frame.
      `Fault`: the framer read past the available bytes or past the buffer. */
  datatype Reply = Acked | TimedOut | Stalled | Fault(status: ReadStatus)

  /** The reply, the cursor afterwards, the reply buffer's last contents and
      the number of clock readings taken so far. */
  datatype PollEnd = PollEnd(reply: Reply, next: nat, buf: seq<byte>, ticks: nat)

  const TIMEOUT: u32 := 2000

  /** A frame in `buf` acknowledges the request when its control byte matches
      and its command byte is the request's command or INIT_COMPLETE. */
  predicate Acknowledges(cd: Codes, buf: seq<byte>, control: byte, command: byte)
    requires |buf| == CAP
  {
    buf[CONTROL] == control && (buf[COMMAND] == command || buf[COMMAND] == cd.initComplete)
  }

  /** The polling loop from cursor `i`, reply buffer `buf`, `t` clock readings
      taken, `clock(n)` being the n-th reading and `start` the first. */
  function Poll(k: Markers, cd: Codes, s: seq<byte>, i: nat, buf: seq<byte>,
                clock: nat -> u32, t: nat, start: u32, control: byte, command: byte): (p: PollEnd)
    requires i <= |s| && |buf| == CAP
    ensures i <= p.next <= |s| && |p.buf| == CAP && t <= p.ticks
    ensures p.reply == Stalled ==> p.next == |s|
    decreases |s| - i
  {
    var sc := ReadFrame(k, s, i);
    var buf' := Overlay(sc.written, buf);
    if sc.status == NoFrame then PollEnd(Stalled, sc.next, buf', t)
    else if sc.status != Found then PollEnd(Fault(sc.status), sc.next, buf', t)
    else if Acknowledges(cd, buf', control, command) then PollEnd(Acked, sc.next, buf', t + 1)
    else if Elapsed(start, clock(t)) >= TIMEOUT then PollEnd(TimedOut, sc.next, buf', t + 1)
    else Poll(k, cd, s, sc.next, buf', clock, t + 1, start, control, command)
  }

  /** One round of the loop: what happens after the next read. */
  lemma PollStep(k: Markers, cd: Codes, s: seq<byte>, i: nat, buf: seq<byte>,
                 clock: nat -> u32, t: nat, start: u32, control: byte, command: byte)
    requires i <= |s| && |buf| == CAP
    ensures var sc := ReadFrame(k, s, i);
            var buf' := Overlay(sc.written, buf);
            var p := Poll(k, cd, s, i, buf, clock, t, start, control, command);
            (sc.status == NoFrame ==> p == PollEnd(Stalled, sc.next, buf', t))
            && (sc.status == Underrun || sc.status == Overflow ==>
                  p == PollEnd(Fault(sc.status), sc.next, buf', t))
            && (sc.status == Found && Acknowledges(cd, buf', control, command) ==>
                  p == PollEnd(Acked, sc.next, buf', t + 1))
            && (sc.status == Found && !Acknowledges(cd, buf', control, command) ==>
                  p == if Elapsed(start, clock(t)) >= TIMEOUT
                       then PollEnd(TimedOut, sc.next, buf', t + 1)
                       else Poll(k, cd, s, sc.next, buf', clock, t + 1, start, control, command))
  {
  }

  /** Success is reported only for a frame that acknowledges the request. */
  lemma {:induction false} AckedOnlyOnMatch(k: Markers, cd: Codes, s: seq<byte>, i: nat, buf: seq<byte>,
                                            clock: nat -> u32, t: nat, start: u32, control: byte, command: byte)
    requires i <= |s| && |buf| == CAP
    ensures var p := Poll(k, cd, s, i, buf, clock, t, start, control, command);
            p.reply == Acked ==> Acknowledges(cd, p.buf, control, command)
    decreases |s| - i
  {
    var sc := ReadFrame(k, s, i);
    var buf' := Overlay(sc.written, buf);
    if sc.status == Found && !Acknowledges(cd, buf', control, command)
       && Elapsed(start, clock(t)) < TIMEOUT {
      AckedOnlyOnMatch(k, cd, s, sc.next, buf', clock, t + 1, start, control, command);
    }
  }

  /** Failure is reported only after a frame that does not acknowledge the
      request, read when the deadline had passed by the last clock reading. */
  lemma {:induction false} TimedOutOnlyAfterDeadline(k: Markers, cd: Codes, s: seq<byte>, i: nat, buf: seq<byte>,
                                                     clock: nat -> u32, t: nat, start: u32, control: byte, command: byte)
    requires i <= |s| && |buf| == CAP
    ensures var p := Poll(k, cd, s, i, buf, clock, t, start, control, command);
            p.reply == TimedOut ==>
              (0 < p.ticks && !Acknowledges(cd, p.buf, control, command)
               && Elapsed(start, clock(p.ticks - 1)) >= TIMEOUT)
    decreases |s| - i
  {
    var sc := ReadFrame(k, s, i);
    var buf' := Overlay(sc.written, buf);
    if sc.status == Found && !Acknowledges(cd, buf', control, command)
       && Elapsed(start, clock(t)) < TIMEOUT {
      TimedOutOnlyAfterDeadline(k, cd, s, sc.next, buf', clock, t + 1, start, control, command);
    }
  }

  /** Every frame that arrives in time and does not acknowledge is skipped:
      with a clock that never reaches the deadline, the request never times
      out, whatever non-matching frames arrive. */
  lemma {:induction false} NoTimeoutBeforeDeadline(k: Markers, cd: Codes, s: seq<byte>, i: nat, buf: seq<byte>,
                                                   clock: nat -> u32, t: nat, start: u32, control: byte, command: byte)
    requires i <= |s| && |buf| == CAP
    requires forall n: nat | t <= n :: Elapsed(start, clock(n)) < TIMEOUT
    ensures Poll(k, cd, s, i, buf, clock, t, start, control, command).reply != TimedOut
    decreases |s| - i
  {
    var sc := ReadFrame(k, s, i);
    if sc.status == Found {
      NoTimeoutBeforeDeadline(k, cd, s, sc.next, Overlay(sc.written, buf), clock, t + 1, start, control, command);
    }
  }

  /** With no frame left in the stream the request never times out, however
      late the clock: the deadline is only checked after a frame arrives. */
  lemma SilenceNeverTimesOut(k: Markers, cd: Codes, s: seq<byte>, i: nat, buf: seq<byte>,
                             clock: nat -> u32, t: nat, start: u32, control: byte, command: byte)
    requires i <= |s| && |buf| == CAP
    requires forall n | i <= n < |s| :: s[n] != k.head1
    ensures Poll(k, cd, s, i, buf, clock, t, start, control, command).reply == Stalled
  {
    Exhausted(k, s, i);
  }

  /** A module that echoes the request back acknowledges it at once, provided
      bytes 2..8 of the request avoid END2, whatever the clock says. */
  lemma EchoAcknowledges(k: Markers, cd: Codes, control: byte, command: byte, value: byte,
                         buf: seq<byte>, clock: nat -> u32, t: nat, start: u32)
    requires |buf| == CAP
    requires forall n | 2 <= n < 9 :: Request(k, control, command, value)[n] != k.end2
    ensures var req := Request(k, control, command, value);
            Poll(k, cd, req, 0, buf, clock, t, start, control, command).reply == Acked
  {
    RequestRoundTrip(k, control, command, value, []);
    assert Request(k, control, command, value) + [] == Request(k, control, command, value);
  }

  /** A frame that does not acknowledge, read while the deadline has not
      passed, is skipped: the wait goes on from the next byte with that frame
      left in the reply buffer and one more clock reading taken. */
  lemma RejectedFrameSkipped(k: Markers, cd: Codes, s: seq<byte>, i: nat, buf: seq<byte>,
                             clock: nat -> u32, t: nat, start: u32, control: byte, command: byte)
    requires i <= |s| && |buf| == CAP
    requires ReadFrame(k, s, i).status == Found
    requires !Acknowledges(cd, Overlay(ReadFrame(k, s, i).written, buf), control, command)
    requires Elapsed(start, clock(t)) < TIMEOUT
    ensures var sc := ReadFrame(k, s, i);
            Poll(k, cd, s, i, buf, clock, t, start, control, command)
              == Poll(k, cd, s, sc.next, Overlay(sc.written, buf), clock, t + 1, start, control, command)
  {
  }

  /** A frame that does not acknowledge, read once the deadline has passed,
      ends the wait with failure, that frame left in the reply buffer and one
      more clock reading taken. */
  lemma LateRejectedFrameTimesOut(k: Markers, cd: Codes, s: seq<byte>, i: nat, buf: seq<byte>,
                                  clock: nat -> u32, t: nat, start: u32, control: byte, command: byte)
    requires i <= |s| && |buf| == CAP
    requires ReadFrame(k, s, i).status == Found
    requires !Acknowledges(cd, Overlay(ReadFrame(k, s, i).written, buf), control, command)
    requires Elapsed(start, clock(t)) >= TIMEOUT
    ensures var sc := ReadFrame(k, s, i);
            Poll(k, cd, s, i, buf, clock, t, start, control, command)
              == PollEnd(TimedOut, sc.next, Overlay(sc.written, buf), t + 1)
  {
  }

  /** A full ten-byte frame that acknowledges ends the wait with success, the
      frame in the reply buffer, whatever the clock says. */
  lemma AcknowledgingFrameAccepted(k: Markers, cd: Codes, s: seq<byte>, i: nat, buf: seq<byte>,
                                   clock: nat -> u32, t: nat, start: u32, control: byte, command: byte,
                                   f: seq<byte>, n: nat)
    requires i <= |s| && |buf| == CAP
    requires ReadFrame(k, s, i) == Scan(Found, f, n) && |f| == CAP
    requires Acknowledges(cd, f, control, command)
    ensures Poll(k, cd, s, i, buf, clock, t, start, control, command) == PollEnd(Acked, n, f, t + 1)
  {
  }

  /** A frame that does not acknowledge, read before the deadline, does not end
      the wait: the echoed request that follows it is accepted on the second
      round, with the request in the reply buffer. */
  lemma AckAfterRejectedFrame(k: Markers, cd: Codes, payload: seq<byte>,
                              control: byte, command: byte, value: byte, rest: seq<byte>,
                              buf: seq<byte>, clock: nat -> u32, t: nat, start: u32)
    requires |buf| == CAP
    requires forall n | 0 <= n < |payload| :: payload[n] != k.end2
    requires |payload| + 3 <= CAP
    requires forall n | 2 <= n < 9 :: Request(k, control, command, value)[n] != k.end2
    requires !Acknowledges(cd, Overlay([k.head1, k.head2] + payload + [k.end2], buf), control, command)
    requires Elapsed(start, clock(t)) < TIMEOUT
    ensures var frame := [k.head1, k.head2] + payload + [k.end2];
            var req := Request(k, control, command, value);
            Poll(k, cd, frame + req + rest, 0, buf, clock, t, start, control, command)
              == PollEnd(Acked, |frame| + CAP, req, t + 2)
  {
    var frame := [k.head1, k.head2] + payload + [k.end2];
    var req := Request(k, control, command, value);
    var s := frame + req + rest;
    var h := |frame|;
    FrameAfterNoise(k, [], payload, req + rest);
    assert [] + [k.head1, k.head2] + payload + [k.end2] + (req + rest) == s;
    RejectedFrameSkipped(k, cd, s, 0, buf, clock, t, start, control, command);
    assert s[h..h + CAP] == req;
    RequestAt(k, s, h, control, command, value);
    RequestLayout(k, control, command, value);
    assert req[CONTROL] == control && req[COMMAND] == command;
    AcknowledgingFrameAccepted(k, cd, s, h, Overlay(frame, buf), clock, t + 1, start, control, command, req, h + CAP);
  }
}
