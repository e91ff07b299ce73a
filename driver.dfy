/** The driver object: a frame buffer class and the `Radar` class whose
    methods read and write the serial stream and keep the presence/motion
    state. Each method is proved against the functions of `Framing`,
    `Protocol` and `Tracker`. */
module Driver {
  import opened Bytes
  import opened Wire
  import opened Framing
  import opened Protocol
  import opened Tracker

  /** A frame: a ten-byte buffer and the number of bytes it holds. */
  class Frame {
    const msg: array<byte>
    var l: int

    constructor (init: seq<byte>, len: int)
      requires |init| == CAP
      ensures fresh(msg) && msg[..] == init && l == len
    {
      msg := new byte[CAP](n => if 0 <= n < |init| then init[n] else 0);
      l := len;
    }

    /** `msg[at] = c` on a buffer whose first `at` bytes were overwritten by `w`. */
    method Store(at: nat, c: byte, ghost w: seq<byte>, ghost init: seq<byte>)
      requires msg.Length == |init| && at == |w| < msg.Length
      requires msg[..] == Overlay(w, init)
      modifies msg
      ensures msg[..] == Overlay(w + [c], init)
    {
      msg[at] := c;
      OverlayPush(w, c, init);
    }
  }

  /** The zeroed reply buffer of a parameter request. */
  function Zeros(): seq<byte>
  {
    seq(CAP, n => 0)
  }

  class Radar {
    const mk: Markers
    const cd: Codes
    /** `clock(n)` is the value the n-th call of the millisecond clock returns. */
    const clock: nat -> u32
    /** Every byte the module sends; `pos` of them have been read. */
    var rx: seq<byte>
    var pos: nat
    /** Every byte written to the module. */
    var tx: seq<byte>
    /** Number of clock readings taken. */
    var ticks: nat
    var presence: byte
    var motion: byte

    ghost predicate Valid()
      reads this
    {
      pos <= |rx|
    }

    function State(): Status
      reads this
    {
      Status(presence, motion)
    }

    constructor (mk: Markers, cd: Codes, clock: nat -> u32, rx: seq<byte>, st: Status)
      ensures Valid() && this.mk == mk && this.cd == cd && this.clock == clock
      ensures this.rx == rx && pos == 0 && tx == [] && ticks == 0 && State() == st
    {
      this.mk, this.cd, this.clock := mk, cd, clock;
      this.rx, pos, tx, ticks := rx, 0, [], 0;
      presence, motion := st.presence, st.motion;
    }

    /** One reading of the millisecond clock. */
    method Millis() returns (now: u32)
      modifies this`ticks
      ensures now == clock(old(ticks)) && ticks == old(ticks) + 1
    {
      now := clock(ticks);
      ticks := ticks + 1;
    }

    /** Reads at most one frame into `f`, consuming bytes from the cursor on. */
    method GetFrame(f: Frame) returns (st: ReadStatus)
      requires Valid() && f.msg.Length == CAP
      modifies this`pos, f`l, f.msg
      ensures Valid()
      ensures var sc := ReadFrame(mk, rx, old(pos));
              && st == sc.status && pos == sc.next
              && f.msg[..] == Overlay(sc.written, old(f.msg[..]))
              && (st == Found ==> f.l == |sc.written|)
              && (st == NoFrame ==> f.l == 0)
              && (st == Underrun || st == Overflow ==> f.l == old(f.l))
    {
      var s, k := rx, mk;
      ghost var goal := ReadFrame(k, s, pos);
      ghost var init := f.msg[..];
      ghost var w: seq<byte> := [];
      var l := 0;
      while pos < |s|
        invariant pos <= |s| && l == |w| <= CAP
        invariant ScanFrom(k, s, pos, w) == goal
        invariant f.msg[..] == Overlay(w, init) && f.l == old(f.l)
        decreases |s| - pos
      {
        var c := s[pos];
        pos := pos + 1;
        if c != k.head1 {
          SkipStep(k, s, pos - 1, w);
        } else {
          var resume;
          resume, st := ReadHead(f, l, w, init);
          if !resume {
            return;
          }
          w, l := w + [k.head1], l + 1;
        }
      }
      f.l := 0;
      return NoFrame;
    }

    /** The part of `GetFrame` after a HEAD1 was read at `pos - 1`, with `l0`
        bytes `w0` stored: store HEAD1 and check for HEAD2. On a false start
        (`resume`) the outer scan goes on with HEAD1 stored; otherwise the
        call's outcome is decided here. */
    method ReadHead(f: Frame, l0: nat, ghost w0: seq<byte>, ghost init: seq<byte>)
      returns (resume: bool, st: ReadStatus)
      requires Valid() && 0 < pos && rx[pos - 1] == mk.head1
      requires f.msg.Length == CAP && |init| == CAP && l0 == |w0| <= CAP
      requires f.msg[..] == Overlay(w0, init)
      modifies this`pos, f`l, f.msg
      ensures Valid()
      ensures resume ==>
                && |w0| < CAP && old(pos) < pos
                && ScanFrom(mk, rx, old(pos) - 1, w0) == ScanFrom(mk, rx, pos, w0 + [mk.head1])
                && f.msg[..] == Overlay(w0 + [mk.head1], init) && f.l == old(f.l)
      ensures !resume ==>
                var sc := ScanFrom(mk, rx, old(pos) - 1, w0);
                && st == sc.status && st != NoFrame && pos == sc.next
                && |sc.written| <= CAP && f.msg[..] == Overlay(sc.written, init)
                && f.l == if st == Found then |sc.written| else old(f.l)
    {
      var s, k := rx, mk;
      ghost var at := pos - 1;
      var l := l0;
      if l == CAP {
        return false, Overflow;
      }
      f.Store(l, k.head1, w0, init);
      ghost var w := w0 + [k.head1];
      l := l + 1;
      if pos == |s| {
        return false, Underrun;
      }
      var c := s[pos];
      pos := pos + 1;
      if c != k.head2 {
        FalseStartStep(k, s, at, w0);
        return true, NoFrame;
      }
      if l == CAP {
        return false, Overflow;
      }
      f.Store(l, c, w, init);
      l := l + 1;
      HeaderStart(k, s, at, w0);
      assert w + [c] == w0 + [k.head1, k.head2];
      st := ReadTail(f, l, w + [c], init);
      return false, st;
    }

    /** The terminator loop of `GetFrame`: after HEAD1 HEAD2, with `l0` bytes
        `w0` stored, copies bytes up to and including END2. */
    method ReadTail(f: Frame, l0: nat, ghost w0: seq<byte>, ghost init: seq<byte>) returns (st: ReadStatus)
      requires Valid() && f.msg.Length == CAP && |init| == CAP && l0 == |w0| <= CAP
      requires f.msg[..] == Overlay(w0, init)
      modifies this`pos, f`l, f.msg
      ensures Valid()
      ensures var sc := Body(mk, rx, old(pos), w0);
              && st == sc.status && st != NoFrame && pos == sc.next
              && |sc.written| <= CAP && f.msg[..] == Overlay(sc.written, init)
              && f.l == if st == Found then |sc.written| else old(f.l)
    {
      var s, k := rx, mk;
      ghost var goal := Body(k, s, pos, w0);
      ghost var w := w0;
      var l := l0;
      if pos == |s| {
        return Underrun;
      }
      var c := s[pos];
      pos := pos + 1;
      while c != k.end2
        invariant 0 < pos <= |s| && c == s[pos - 1] && l == |w| <= CAP
        invariant Body(k, s, pos - 1, w) == goal
        invariant f.msg[..] == Overlay(w, init) && f.l == old(f.l)
        decreases |s| - pos
      {
        if l == CAP {
          return Overflow;
        }
        CopyStep(k, s, pos - 1, w);
        f.Store(l, c, w, init);
        w, l := w + [c], l + 1;
        if pos == |s| {
          return Underrun;
        }
        c := s[pos];
        pos := pos + 1;
      }
      if l == CAP {
        return Overflow;
      }
      f.l := l + 1;
      f.Store(l, c, w, init);
      return Found;
    }

    /** Appends the frame's first `l` bytes to the output. */
    method PutFrame(f: Frame)
      requires 0 <= f.l <= f.msg.Length
      modifies this`tx
      ensures tx == old(tx) + f.msg[..f.l]
    {
      tx := tx + f.msg[..f.l];
    }

    /** Writes the checksum of an `l`-byte frame into its slot `l - 3`. */
    method CalculateChecksum(f: Frame)
      requires 3 <= f.l <= f.msg.Length
      modifies f.msg
      ensures f.msg[..] == WithChecksum(old(f.msg[..]), f.l)
    {
      var checksum: byte := 0;
      var csByte := f.l - 3;
      var i := 0;
      while i < csByte
        invariant 0 <= i <= csByte
        invariant f.msg[..] == old(f.msg[..])
        invariant checksum == Sum8(f.msg[..i])
      {
        Sum8Step(f.msg[..i], f.msg[i]);
        assert f.msg[..i + 1] == f.msg[..i] + [f.msg[i]];
        checksum := AddByte(checksum, f.msg[i]);
        i := i + 1;
      }
      f.msg[csByte] := checksum;
    }

    /** The effect of one parameter request: the request is written once and
        the reply, cursor and clock readings are those of the polling loop
        that starts right after the first clock reading. */
    twostate predicate Exchanged(control: byte, command: byte, value: byte, r: Reply)
      requires old(pos) <= |old(rx)|
      reads this
    {
      && rx == old(rx)
      && tx == old(tx) + Request(mk, control, command, value)
      && var p := Poll(mk, cd, old(rx), old(pos), Zeros(), clock, old(ticks) + 1,
                       clock(old(ticks)), control, command);
         r == p.reply && pos == p.next && ticks == p.ticks
    }

    /** Sends (`control`, `command`, `value`) and waits for its acknowledgement. */
    method SetParam(control: byte, command: byte, value: byte) returns (r: Reply)
      requires Valid()
      modifies this`pos, this`tx, this`ticks
      ensures Valid() && State() == old(State())
      ensures Exchanged(control, command, value, r)
    {
      var req := new Frame(Template(mk, control, command), 10);
      var ret := new Frame(Zeros(), 0);
      req.msg[DATA] := value;
      CalculateChecksum(req);
      var start := Millis();
      PutFrame(req);
      r := AwaitAck(ret, control, command, start);
    }

    /** The polling loop of `SetParam`: reads frames into the one reply buffer
        `ret` until one acknowledges the request or a frame arrives after the
        deadline. */
    method AwaitAck(ret: Frame, control: byte, command: byte, start: u32) returns (r: Reply)
      requires Valid() && ret.msg.Length == CAP
      modifies this`pos, this`ticks, ret`l, ret.msg
      ensures Valid()
      ensures var p := Poll(mk, cd, rx, old(pos), old(ret.msg[..]), clock, old(ticks), start, control, command);
              r == p.reply && pos == p.next && ticks == p.ticks
    {
      ghost var s := rx;
      ghost var goal := Poll(mk, cd, s, pos, ret.msg[..], clock, ticks, start, control, command);
      var done := false;
      r := Stalled;
      while !done
        invariant Valid() && rx == s
        invariant !done ==> Poll(mk, cd, s, pos, ret.msg[..], clock, ticks, start, control, command) == goal
        invariant done ==> r == goal.reply && pos == goal.next && ticks == goal.ticks
        decreases |s| - pos, !done
      {
        done, r := PollOnce(ret, control, command, start);
      }
    }

    /** One round of the polling loop: read a frame into `ret`, then accept it,
        give up on the deadline, or report that the round must be repeated. */
    method PollOnce(ret: Frame, control: byte, command: byte, start: u32) returns (done: bool, r: Reply)
      requires Valid() && ret.msg.Length == CAP
      modifies this`pos, this`ticks, ret`l, ret.msg
      ensures Valid() && old(pos) <= pos && (done || old(pos) < pos)
      ensures var p := Poll(mk, cd, rx, old(pos), old(ret.msg[..]), clock, old(ticks), start, control, command);
              if done then r == p.reply && pos == p.next && ticks == p.ticks
              else Poll(mk, cd, rx, pos, ret.msg[..], clock, ticks, start, control, command) == p
    {
      ghost var s, k, c, i0, t0, b0 := rx, mk, cd, pos, ticks, ret.msg[..];
      ghost var sc := ReadFrame(k, s, i0);
      ghost var buf := Overlay(sc.written, b0);
      ghost var p := Poll(k, c, s, i0, b0, clock, t0, start, control, command);
      PollStep(k, c, s, i0, b0, clock, t0, start, control, command);
      var got := GetFrame(ret);
      assert got == sc.status && pos == sc.next && ret.msg[..] == buf;
      if got == Found {
        if ret.msg[CONTROL] == control && (ret.msg[COMMAND] == command || ret.msg[COMMAND] == cd.initComplete) {
          assert Acknowledges(c, buf, control, command);
          assert p == PollEnd(Acked, sc.next, buf, t0 + 1);
          var _ := Millis();
          return true, Acked;
        }
        assert !Acknowledges(c, buf, control, command);
        var now := Millis();
        if Elapsed(start, now) >= TIMEOUT {
          assert p == PollEnd(TimedOut, sc.next, buf, t0 + 1);
          return true, TimedOut;
        }
        assert p == Poll(k, c, s, pos, ret.msg[..], clock, ticks, start, control, command);
        return false, Stalled;
      } else if got == NoFrame {
        // The stream is exhausted: every later poll returns no frame and the
        // deadline is never consulted, so the source never leaves its loop.
        assert p == PollEnd(Stalled, sc.next, buf, t0);
        return true, Stalled;
      }
      assert p == PollEnd(Fault(got), sc.next, buf, t0);
      return true, Fault(got);
    }

    method ResetRadar() returns (r: Reply)
      requires Valid()
      modifies this`pos, this`tx, this`ticks
      ensures Valid() && State() == old(State())
      ensures Exchanged(cd.system, cd.reset, cd.zeroF, r)
    {
      r := SetParam(cd.system, cd.reset, cd.zeroF);
    }

    method SetScenario(scenario: byte) returns (r: Reply)
      requires Valid()
      modifies this`pos, this`tx, this`ticks
      ensures Valid() && State() == old(State())
      ensures Exchanged(cd.workingStatus, cd.setScenario, scenario, r)
    {
      r := SetParam(cd.workingStatus, cd.setScenario, scenario);
    }

    method SetSensitivity(sensitivity: byte) returns (r: Reply)
      requires Valid()
      modifies this`pos, this`tx, this`ticks
      ensures Valid() && State() == old(State())
      ensures Exchanged(cd.workingStatus, cd.setSensitivity, sensitivity, r)
    {
      r := SetParam(cd.workingStatus, cd.setSensitivity, sensitivity);
    }

    method OpenCustomMode(mode: byte) returns (r: Reply)
      requires Valid()
      modifies this`pos, this`tx, this`ticks
      ensures Valid() && State() == old(State())
      ensures Exchanged(cd.workingStatus, cd.openCustom, mode, r)
    {
      r := SetParam(cd.workingStatus, cd.openCustom, mode);
    }

    method ExitCustomMode() returns (r: Reply)
      requires Valid()
      modifies this`pos, this`tx, this`ticks
      ensures Valid() && State() == old(State())
      ensures Exchanged(cd.workingStatus, cd.exitCustom, cd.zeroF, r)
    {
      r := SetParam(cd.workingStatus, cd.exitCustom, cd.zeroF);
    }

    method SetPresenceThreshold(threshold: byte) returns (r: Reply)
      requires Valid()
      modifies this`pos, this`tx, this`ticks
      ensures Valid() && State() == old(State())
      ensures Exchanged(cd.custom, cd.setPresenceThreshold, threshold, r)
    {
      r := SetParam(cd.custom, cd.setPresenceThreshold, threshold);
    }

    method SetPresenceRange(range: byte) returns (r: Reply)
      requires Valid()
      modifies this`pos, this`tx, this`ticks
      ensures Valid() && State() == old(State())
      ensures Exchanged(cd.custom, cd.setPresenceRange, range, r)
    {
      r := SetParam(cd.custom, cd.setPresenceRange, range);
    }

    method SetTimeOfAbsence(t: byte) returns (r: Reply)
      requires Valid()
      modifies this`pos, this`tx, this`ticks
      ensures Valid() && State() == old(State())
      ensures Exchanged(cd.workingStatus, cd.setTimeOfAbsence, t, r)
    {
      r := SetParam(cd.workingStatus, cd.setTimeOfAbsence, t);
    }

    method SetMotionThreshold(threshold: byte) returns (r: Reply)
      requires Valid()
      modifies this`pos, this`tx, this`ticks
      ensures Valid() && State() == old(State())
      ensures Exchanged(cd.custom, cd.setMotionThreshold, threshold, r)
    {
      r := SetParam(cd.custom, cd.setMotionThreshold, threshold);
    }

    method SetMotionRange(range: byte) returns (r: Reply)
      requires Valid()
      modifies this`pos, this`tx, this`ticks
      ensures Valid() && State() == old(State())
      ensures Exchanged(cd.custom, cd.setMotionRange, range, r)
    {
      r := SetParam(cd.custom, cd.setMotionRange, range);
    }

    /** Presence is reported for any non-zero presence byte. */
    function IsPresent(): (b: bool)
      reads this
      ensures b <==> presence != 0
    {
      Present(State())
    }

    /** Motion is reported only for the motion byte 0x02. */
    function IsMoving(): (b: bool)
      reads this
      ensures b <==> motion == 0x02
    {
      Moving(State())
    }

    /** Reads at most one frame into a local buffer whose bytes start as
        `stack` (the source does not initialise it) and applies it to the
        presence/motion state. With no frame the call reports no change. */
    method UpdateStatus(stack: seq<byte>) returns (changed: bool)
      requires Valid() && |stack| == CAP
      modifies this`pos, this`presence, this`motion
      ensures Valid()
      ensures var sc := ReadFrame(mk, rx, old(pos));
              (pos == sc.next
               && if sc.status == Found then
                    var u := Track(cd, old(State()), Overlay(sc.written, stack));
                    State() == u.status && changed == u.changed
                  else
                    State() == old(State()) && !changed)
    {
      var f := new Frame(stack, 0);
      changed := false;
      var got := GetFrame(f);
      if got == Found {
        if f.msg[CONTROL] == cd.humanStatus {
          if f.msg[COMMAND] == cd.presence {
            if f.msg[DATA] != presence {
              presence := f.msg[DATA];
              changed := true;
            }
          } else if f.msg[COMMAND] == cd.motion {
            if f.msg[DATA] != motion {
              motion := f.msg[DATA];
              changed := true;
            }
          } else {
            changed := false;
          }
        }
      }
    }
  }
}
