/** What one call of the framer does to a byte stream, as a function of the
    stream and the read cursor. The imperative framer (`Driver.Radar.GetFrame`)
    is proved to follow it; the lemmas here say what it means. */
module Framing {
  import opened Bytes
  import opened Wire

  /** How a call ends. `Found` and `NoFrame` are the source's `true` and
      `false`; `Underrun` is a read with no byte available, `Overflow` a write
      at index CAP of the frame buffer, both of which the source does not guard. */
  datatype ReadStatus = Found | NoFrame | Underrun | Overflow

  /** The outcome, the bytes written into the frame buffer from index 0 on
      (the local counter `l` is their number) and the cursor afterwards. */
  datatype Scan = Scan(status: ReadStatus, written: seq<byte>, next: nat)

  /** A buffer whose first `|w|` bytes were overwritten by `w`. */
  function Overlay(w: seq<byte>, buf: seq<byte>): (r: seq<byte>)
    requires |w| <= |buf|
    ensures |r| == |buf|
  {
    w + buf[|w|..]
  }

  /** The outer loop: look for HEAD1 at cursor `i`, `w` written so far.
      A HEAD1 is stored before the next byte is looked at, and `w` is not
      reset after a false start. */
  function ScanFrom(k: Markers, s: seq<byte>, i: nat, w: seq<byte>): Scan
    requires i <= |s| && |w| <= CAP
    decreases |s| - i
  {
    if i == |s| then Scan(NoFrame, w, i)
    else if s[i] != k.head1 then ScanFrom(k, s, i + 1, w)
    else if |w| == CAP then Scan(Overflow, w, i + 1)
    else if i + 1 == |s| then Scan(Underrun, w + [k.head1], i + 1)
    else if s[i + 1] != k.head2 then ScanFrom(k, s, i + 2, w + [k.head1])
    else if |w| + 1 == CAP then Scan(Overflow, w + [k.head1], i + 2)
    else Body(k, s, i + 2, w + [k.head1, k.head2])
  }

  /** The inner loop after HEAD1 HEAD2: copy every byte up to and including END2. */
  function Body(k: Markers, s: seq<byte>, i: nat, w: seq<byte>): Scan
    requires i <= |s| && |w| <= CAP
    decreases |s| - i
  {
    if i == |s| then Scan(Underrun, w, i)
    else if |w| == CAP then Scan(Overflow, w, i + 1)
    else if s[i] == k.end2 then Scan(Found, w + [s[i]], i + 1)
    else Body(k, s, i + 1, w + [s[i]])
  }

  /** The outer loop never reads past the stream or writes past the buffer,
      and keeps what was already written; it reports no frame only at the end
      of the stream, and a frame only after consuming at least three bytes
      and storing three more, the last of them END2. */
  lemma {:induction false} ScanBounds(k: Markers, s: seq<byte>, i: nat, w: seq<byte>)
    requires i <= |s| && |w| <= CAP
    ensures var r := ScanFrom(k, s, i, w);
            && i <= r.next <= |s|
            && |w| <= |r.written| <= CAP && r.written[..|w|] == w
            && (r.status == NoFrame ==> r.next == |s|)
            && (r.status == Found ==>
                  i + 3 <= r.next && |w| + 3 <= |r.written| && r.written[|r.written| - 1] == k.end2)
    decreases |s| - i
  {
    if i == |s| || (s[i] == k.head1 && (|w| == CAP || i + 1 == |s|)) {
    } else if s[i] != k.head1 {
      ScanBounds(k, s, i + 1, w);
    } else if s[i + 1] != k.head2 {
      ScanBounds(k, s, i + 2, w + [k.head1]);
      assert (w + [k.head1])[..|w|] == w;
    } else if |w| + 1 == CAP {
    } else {
      BodyBounds(k, s, i + 2, w + [k.head1, k.head2]);
      assert (w + [k.head1, k.head2])[..|w|] == w;
    }
  }

  /** The inner loop's counterpart of `ScanBounds`; it never reports "no frame". */
  lemma {:induction false} BodyBounds(k: Markers, s: seq<byte>, i: nat, w: seq<byte>)
    requires i <= |s| && |w| <= CAP
    ensures var r := Body(k, s, i, w);
            && i <= r.next <= |s| && r.status != NoFrame
            && |w| <= |r.written| <= CAP && r.written[..|w|] == w
            && (r.status == Found ==>
                  i < r.next && |w| < |r.written| && r.written[|r.written| - 1] == k.end2)
    decreases |s| - i
  {
    if i < |s| && |w| < CAP {
      assert (w + [s[i]])[..|w|] == w;
      if s[i] != k.end2 {
        BodyBounds(k, s, i + 1, w + [s[i]]);
      }
    }
  }

  /** `written` ends with the run `s[h..e]` of the stream (HEAD1 HEAD2, bytes
      other than END2, then END2) and holds only stale HEAD1 bytes before it. */
  predicate StoredFrame(k: Markers, s: seq<byte>, written: seq<byte>, h: nat, e: nat)
  {
    && h + 3 <= e <= |s| && e - h <= |written|
    && s[h] == k.head1 && s[h + 1] == k.head2 && s[e - 1] == k.end2
    && (forall n | h + 2 <= n < e - 1 :: s[n] != k.end2)
    && written[|written| - (e - h)..] == s[h..e]
    && (forall n | 0 <= n < |written| - (e - h) :: written[n] == k.head1)
  }

  /** A frame reported by the terminator loop from cursor `i` is `w` followed
      by the stream's bytes up to the first END2. */
  predicate Copied(k: Markers, s: seq<byte>, i: nat, w: seq<byte>, r: Scan)
  {
    r.status == Found ==>
      && i < r.next <= |s| && r.written == w + s[i..r.next] && s[r.next - 1] == k.end2
      && forall n | i <= n < r.next - 1 :: s[n] != k.end2
  }

  /** A frame reported from cursor `i` is a run of the stream at or after `i`,
      in the sense of `StoredFrame`. */
  predicate TakenFrom(k: Markers, s: seq<byte>, i: nat, r: Scan)
  {
    r.status == Found ==> exists h | i <= h < r.next :: StoredFrame(k, s, r.written, h, r.next)
  }

  /** Every stored byte is HEAD1: what false starts leave in the buffer. */
  predicate AllHeads(k: Markers, w: seq<byte>)
  {
    forall n | 0 <= n < |w| :: w[n] == k.head1
  }

  /** The terminator loop reports a frame only when it copied the stream up
      to and including its first END2. */
  lemma {:induction false} BodyFound(k: Markers, s: seq<byte>, i: nat, w: seq<byte>)
    requires i <= |s| && |w| <= CAP
    ensures Copied(k, s, i, w, Body(k, s, i, w))
    decreases |s| - i
  {
    if i < |s| && |w| < CAP {
      if s[i] == k.end2 {
        assert s[i..i + 1] == [s[i]];
      } else {
        BodyFound(k, s, i + 1, w + [s[i]]);
        var r := Body(k, s, i + 1, w + [s[i]]);
        if r.status == Found {
          assert s[i..r.next] == [s[i]] + s[i + 1..r.next];
          assert w + s[i..r.next] == w + [s[i]] + s[i + 1..r.next];
        }
      }
    }
  }

  /** A frame reported by the outer scan, started with only HEAD1 bytes
      stored, is a HEAD1 HEAD2 ... END2 run of the stream at or after the
      cursor, stored behind those HEAD1 bytes. */
  lemma {:induction false} ScanFound(k: Markers, s: seq<byte>, i: nat, w: seq<byte>)
    requires i <= |s| && |w| <= CAP && AllHeads(k, w)
    ensures TakenFrom(k, s, i, ScanFrom(k, s, i, w))
    decreases |s| - i
  {
    if i == |s| || (s[i] == k.head1 && (|w| == CAP || i + 1 == |s|)) {
    } else if s[i] != k.head1 {
      ScanFound(k, s, i + 1, w);
    } else if s[i + 1] != k.head2 {
      assert AllHeads(k, w + [k.head1]);
      ScanFound(k, s, i + 2, w + [k.head1]);
    } else if |w| + 1 < CAP {
      var w2 := w + [k.head1, k.head2];
      BodyFound(k, s, i + 2, w2);
      var r := Body(k, s, i + 2, w2);
      if r.status == Found {
        assert s[i..r.next] == [k.head1, k.head2] + s[i + 2..r.next];
        assert r.written == w + s[i..r.next];
        assert r.written[|w|..] == s[i..r.next];
        assert StoredFrame(k, s, r.written, i, r.next);
      }
    }
  }

  /** One call of the framer from cursor `i`, with the counter starting at 0:
      it stays within the stream and the buffer, and a frame it reports ends
      in END2. */
  function ReadFrame(k: Markers, s: seq<byte>, i: nat): (r: Scan)
    requires i <= |s|
    ensures i <= r.next <= |s| && |r.written| <= CAP
    ensures r.status == NoFrame ==> r.next == |s|
    ensures r.status == Found ==>
              i + 3 <= r.next && 3 <= |r.written| && r.written[|r.written| - 1] == k.end2
  {
    ScanBounds(k, s, i, []);
    ScanFrom(k, s, i, [])
  }

  /** A frame the framer reports is a HEAD1 HEAD2 ... END2 run of the stream
      at or after the cursor, ending at its first END2 and stored behind the
      HEAD1 bytes of earlier false starts. Read the other way round: without
      such a run there is no frame. */
  lemma ReadFrameTaken(k: Markers, s: seq<byte>, i: nat)
    requires i <= |s|
    ensures TakenFrom(k, s, i, ReadFrame(k, s, i))
  {
    ScanFound(k, s, i, []);
  }

  /** Bytes other than HEAD1 are consumed without touching the buffer. */
  lemma {:induction false} SkipNoise(k: Markers, s: seq<byte>, i: nat, j: nat, w: seq<byte>)
    requires i <= j <= |s| && |w| <= CAP
    requires forall n | i <= n < j :: s[n] != k.head1
    ensures ScanFrom(k, s, i, w) == ScanFrom(k, s, j, w)
    decreases j - i
  {
    if i < j {
      SkipNoise(k, s, i + 1, j, w);
    }
  }

  /** Writing one more byte into a buffer overlaid with `w`. */
  lemma OverlayPush(w: seq<byte>, c: byte, buf: seq<byte>)
    requires |w| < |buf|
    ensures Overlay(w + [c], buf) == Overlay(w, buf)[|w| := c]
  {
    assert (w + [c]) + buf[|w| + 1..] == (w + buf[|w|..])[|w| := c];
  }

  /** A byte other than HEAD1 at the cursor is skipped. */
  lemma SkipStep(k: Markers, s: seq<byte>, i: nat, w: seq<byte>)
    requires i < |s| && s[i] != k.head1 && |w| <= CAP
    ensures ScanFrom(k, s, i, w) == ScanFrom(k, s, i + 1, w)
  {
  }

  /** Inside a frame, a byte other than END2 is copied. */
  lemma CopyStep(k: Markers, s: seq<byte>, i: nat, w: seq<byte>)
    requires i < |s| && s[i] != k.end2 && |w| < CAP
    ensures Body(k, s, i, w) == Body(k, s, i + 1, w + [s[i]])
  {
  }

  /** HEAD1 then HEAD2 at the cursor: both are stored and copying begins. */
  lemma HeaderStart(k: Markers, s: seq<byte>, i: nat, w: seq<byte>)
    requires i + 1 < |s| && s[i] == k.head1 && s[i + 1] == k.head2
    requires |w| + 2 <= CAP
    ensures ScanFrom(k, s, i, w) == Body(k, s, i + 2, w + [k.head1, k.head2])
  {
  }

  /** HEAD1 then a byte other than HEAD2: both bytes are consumed, HEAD1 stays
      stored and the counter is not reset. */
  lemma FalseStartStep(k: Markers, s: seq<byte>, i: nat, w: seq<byte>)
    requires i + 1 < |s| && s[i] == k.head1 && s[i + 1] != k.head2
    requires |w| < CAP
    ensures ScanFrom(k, s, i, w) == ScanFrom(k, s, i + 2, w + [k.head1])
  {
  }

  /** After the header, the bytes up to the first END2 are copied verbatim. */
  lemma {:induction false} CopyToEnd(k: Markers, s: seq<byte>, i: nat, e: nat, w: seq<byte>)
    requires i <= e < |s| && s[e] == k.end2
    requires forall n | i <= n < e :: s[n] != k.end2
    requires |w| + (e - i) + 1 <= CAP
    ensures Body(k, s, i, w) == Scan(Found, w + s[i..e + 1], e + 1)
    decreases e - i
  {
    if i < e {
      assert s[i] != k.end2 && |w| < CAP;
      assert Body(k, s, i, w) == Body(k, s, i + 1, w + [s[i]]);
      CopyToEnd(k, s, i + 1, e, w + [s[i]]);
      assert s[i..e + 1] == [s[i]] + s[i + 1..e + 1];
    } else {
      assert s[i..e + 1] == [s[i]];
    }
  }

  /** Bytes other than END2 after the header are copied one by one while the
      buffer has room. */
  lemma {:induction false} CopyRun(k: Markers, s: seq<byte>, i: nat, j: nat, w: seq<byte>)
    requires i <= j <= |s| && |w| + (j - i) <= CAP
    requires forall n | i <= n < j :: s[n] != k.end2
    ensures Body(k, s, i, w) == Body(k, s, j, w + s[i..j])
    decreases j - i
  {
    if i < j {
      CopyStep(k, s, i, w);
      CopyRun(k, s, i + 1, j, w + [s[i]]);
      assert s[i..j] == [s[i]] + s[i + 1..j];
      assert w + [s[i]] + s[i + 1..j] == w + s[i..j];
    } else {
      assert w + s[i..j] == w;
    }
  }

  /** A frame starting at `h` after HEAD1-free noise and ending at the first
      END2 at `e`: one call returns exactly `s[h..e]` and stops after END2. */
  lemma FrameAt(k: Markers, s: seq<byte>, i: nat, h: nat, e: nat)
    requires i <= h && h + 2 <= e < |s|
    requires forall n | i <= n < h :: s[n] != k.head1
    requires s[h] == k.head1 && s[h + 1] == k.head2
    requires forall n | h + 2 <= n < e :: s[n] != k.end2
    requires s[e] == k.end2 && e + 1 - h <= CAP
    ensures ReadFrame(k, s, i) == Scan(Found, s[h..e + 1], e + 1)
  {
    var w: seq<byte> := [];
    SkipNoise(k, s, i, h, w);
    HeaderStart(k, s, h, w);
    CopyToEnd(k, s, h + 2, e, w + [k.head1, k.head2]);
    assert s[h..h + 2] == [k.head1, k.head2];
    assert s[h..e + 1] == s[h..h + 2] + s[h + 2..e + 1];
  }

  /** Noise without HEAD1, then HEAD1 HEAD2, a payload without END2 and END2:
      the frame is exactly those bytes, and the cursor stops right after END2
      whatever follows. */
  lemma FrameAfterNoise(k: Markers, noise: seq<byte>, payload: seq<byte>, rest: seq<byte>)
    requires forall n | 0 <= n < |noise| :: noise[n] != k.head1
    requires forall n | 0 <= n < |payload| :: payload[n] != k.end2
    requires |payload| + 3 <= CAP
    ensures ReadFrame(k, noise + [k.head1, k.head2] + payload + [k.end2] + rest, 0)
         == Scan(Found, [k.head1, k.head2] + payload + [k.end2], |noise| + |payload| + 3)
  {
    var frame := [k.head1, k.head2] + payload + [k.end2];
    var s := noise + frame + rest;
    assert s == noise + [k.head1, k.head2] + payload + [k.end2] + rest;
    var h, e := |noise|, |noise| + 2 + |payload|;
    assert forall n | 0 <= n < h :: s[n] == noise[n];
    assert forall n | h <= n <= e :: s[n] == frame[n - h];
    FrameAt(k, s, 0, h, e);
    assert s[h..e + 1] == frame;
  }

  /** A frame whose eight bytes after the header contain no END2 fills the
      ten-byte buffer; the next byte, whatever it is, is read and stored at
      index 10, past the buffer. */
  lemma LongFrame(k: Markers, noise: seq<byte>, payload: seq<byte>, c: byte, rest: seq<byte>)
    requires forall n | 0 <= n < |noise| :: noise[n] != k.head1
    requires |payload| == CAP - 2
    requires forall n | 0 <= n < |payload| :: payload[n] != k.end2
    ensures ReadFrame(k, noise + [k.head1, k.head2] + payload + [c] + rest, 0)
         == Scan(Overflow, [k.head1, k.head2] + payload, |noise| + CAP + 1)
  {
    var s := noise + [k.head1, k.head2] + payload + [c] + rest;
    var h := |noise|;
    var w: seq<byte> := [];
    assert forall n | 0 <= n < h :: s[n] == noise[n];
    SkipNoise(k, s, 0, h, w);
    HeaderStart(k, s, h, w);
    assert forall n | h + 2 <= n < h + CAP :: s[n] == payload[n - h - 2];
    CopyRun(k, s, h + 2, h + CAP, w + [k.head1, k.head2]);
    assert s[h + 2..h + CAP] == payload;
  }

  /** A frame cut off by the end of the stream after its header ends the call
      with a read that has no byte behind it; the bytes received so far are
      in the buffer. */
  lemma TruncatedFrame(k: Markers, noise: seq<byte>, payload: seq<byte>)
    requires forall n | 0 <= n < |noise| :: noise[n] != k.head1
    requires |payload| + 2 <= CAP
    requires forall n | 0 <= n < |payload| :: payload[n] != k.end2
    ensures var s := noise + [k.head1, k.head2] + payload;
            ReadFrame(k, s, 0) == Scan(Underrun, [k.head1, k.head2] + payload, |s|)
  {
    var s := noise + [k.head1, k.head2] + payload;
    var h := |noise|;
    var w: seq<byte> := [];
    assert forall n | 0 <= n < h :: s[n] == noise[n];
    SkipNoise(k, s, 0, h, w);
    HeaderStart(k, s, h, w);
    assert forall n | h + 2 <= n < |s| :: s[n] == payload[n - h - 2];
    CopyRun(k, s, h + 2, |s|, w + [k.head1, k.head2]);
    assert s[h + 2..] == payload;
  }

  /** A HEAD1 as the last byte of the stream is stored, and the read of the
      byte after it finds nothing. */
  lemma TruncatedHead(k: Markers, noise: seq<byte>)
    requires forall n | 0 <= n < |noise| :: noise[n] != k.head1
    ensures ReadFrame(k, noise + [k.head1], 0) == Scan(Underrun, [k.head1], |noise| + 1)
  {
    var s := noise + [k.head1];
    var w: seq<byte> := [];
    assert forall n | 0 <= n < |noise| :: s[n] == noise[n];
    SkipNoise(k, s, 0, |noise|, w);
    assert w + [k.head1] == [k.head1];
  }

  /** `n` HEAD1 bytes: what `n` false starts leave in the buffer. */
  function Heads(k: Markers, n: nat): (r: seq<byte>)
    ensures |r| == n && AllHeads(k, r)
  {
    seq(n, j => k.head1)
  }

  /** `n` false starts from cursor `i`: HEAD1 followed by a byte other than
      HEAD2, `n` times over. */
  predicate FalseStartsAt(k: Markers, s: seq<byte>, i: nat, n: nat)
    decreases n
  {
    n == 0 || (i + 1 < |s| && s[i] == k.head1 && s[i + 1] != k.head2 && FalseStartsAt(k, s, i + 2, n - 1))
  }

  /** Each false start consumes two bytes and stores one more HEAD1, since the
      counter is never reset. */
  lemma {:induction false} FalseStartRun(k: Markers, s: seq<byte>, i: nat, n: nat, w: seq<byte>)
    requires i <= |s| && |w| + n <= CAP && FalseStartsAt(k, s, i, n)
    ensures i + 2 * n <= |s|
    ensures ScanFrom(k, s, i, w) == ScanFrom(k, s, i + 2 * n, w + Heads(k, n))
    decreases n
  {
    if n == 0 {
      assert w + Heads(k, 0) == w;
    } else {
      FalseStartStep(k, s, i, w);
      FalseStartRun(k, s, i + 2, n - 1, w + [k.head1]);
      assert w + [k.head1] + Heads(k, n - 1) == w + Heads(k, n);
    }
  }

  /** Up to ten false starts and then no HEAD1: no frame, with one stale HEAD1
      stored per false start. */
  lemma FalseStartsThenSilence(k: Markers, s: seq<byte>, n: nat)
    requires n <= CAP && FalseStartsAt(k, s, 0, n)
    requires forall m | 2 * n <= m < |s| :: s[m] != k.head1
    ensures ReadFrame(k, s, 0) == Scan(NoFrame, Heads(k, n), |s|)
  {
    var w: seq<byte> := [];
    FalseStartRun(k, s, 0, n, w);
    assert w + Heads(k, n) == Heads(k, n);
    SkipNoise(k, s, 2 * n, |s|, Heads(k, n));
  }

  /** Ten false starts fill the buffer with HEAD1, so the next HEAD1 is stored
      at index 10, past the buffer. */
  lemma TooManyFalseStarts(k: Markers, s: seq<byte>)
    requires FalseStartsAt(k, s, 0, CAP) && 2 * CAP < |s| && s[2 * CAP] == k.head1
    ensures ReadFrame(k, s, 0) == Scan(Overflow, Heads(k, CAP), 2 * CAP + 1)
  {
    var w: seq<byte> := [];
    FalseStartRun(k, s, 0, CAP, w);
    assert w + Heads(k, CAP) == Heads(k, CAP);
  }

  /** A stream with no HEAD1 left yields no frame: everything is consumed and
      the buffer is not touched. */
  lemma Exhausted(k: Markers, s: seq<byte>, i: nat)
    requires i <= |s|
    requires forall n | i <= n < |s| :: s[n] != k.head1
    ensures ReadFrame(k, s, i) == Scan(NoFrame, [], |s|)
  {
    SkipNoise(k, s, i, |s|, []);
  }

  /** HEAD1 followed by a byte other than HEAD2 consumes both bytes and leaves
      the counter at 1; if no HEAD1 follows, the call returns no frame. */
  lemma FalseStart(k: Markers, noise: seq<byte>, x: byte, tail: seq<byte>)
    requires x != k.head2
    requires forall n | 0 <= n < |noise| :: noise[n] != k.head1
    requires forall n | 0 <= n < |tail| :: tail[n] != k.head1
    ensures var s := noise + [k.head1, x] + tail;
            (ScanFrom(k, s, |noise|, []) == ScanFrom(k, s, |noise| + 2, [k.head1])
             && ReadFrame(k, s, 0) == Scan(NoFrame, [k.head1], |s|))
  {
    var s := noise + [k.head1, x] + tail;
    SkipNoise(k, s, 0, |noise|, []);
    FalseStartStep(k, s, |noise|, []);
    assert [] + [k.head1] == [k.head1];
    SkipNoise(k, s, |noise| + 2, |s|, [k.head1]);
  }

  /** Because the counter is not reset, a frame that follows a false start is
      stored one byte further on: its control byte lands at index 3 and index
      CONTROL holds HEAD2. */
  lemma FalseStartShiftsFrame(k: Markers, x: byte, payload: seq<byte>)
    requires x != k.head2
    requires forall n | 0 <= n < |payload| :: payload[n] != k.end2
    requires |payload| + 4 <= CAP
    ensures var s := [k.head1, x, k.head1, k.head2] + payload + [k.end2];
            (ReadFrame(k, s, 0) == Scan(Found, [k.head1, k.head1, k.head2] + payload + [k.end2], |s|)
             && ReadFrame(k, s, 0).written[CONTROL] == k.head2)
  {
    var s := [k.head1, x, k.head1, k.head2] + payload + [k.end2];
    FalseStartStep(k, s, 0, []);
    assert [] + [k.head1] == [k.head1];
    HeaderStart(k, s, 2, [k.head1]);
    assert [k.head1] + [k.head1, k.head2] == [k.head1, k.head1, k.head2];
    CopyToEnd(k, s, 4, 4 + |payload|, [k.head1, k.head1, k.head2]);
    assert s[4..5 + |payload|] == payload + [k.end2];
  }

  /** A request whose bytes 2..8 avoid END2, found at cursor `h`, is read as
      exactly itself and the cursor stops right after it. */
  lemma RequestAt(k: Markers, s: seq<byte>, h: nat, control: byte, command: byte, value: byte)
    requires h + CAP <= |s| && s[h..h + CAP] == Request(k, control, command, value)
    requires forall n | 2 <= n < 9 :: Request(k, control, command, value)[n] != k.end2
    ensures ReadFrame(k, s, h) == Scan(Found, Request(k, control, command, value), h + CAP)
  {
    var req := Request(k, control, command, value);
    RequestLayout(k, control, command, value);
    assert forall n | h <= n < h + CAP :: s[n] == req[n - h];
    FrameAt(k, s, h, h, h + 9);
  }

  /** A request whose bytes 2..8 avoid END2 is read back as exactly itself,
      with its control, command and value in place. */
  lemma RequestRoundTrip(k: Markers, control: byte, command: byte, value: byte, rest: seq<byte>)
    requires forall n | 2 <= n < 9 :: Request(k, control, command, value)[n] != k.end2
    ensures var req := Request(k, control, command, value);
            var sc := ReadFrame(k, req + rest, 0);
            (sc == Scan(Found, req, CAP)
             && sc.written[CONTROL] == control && sc.written[COMMAND] == command
             && sc.written[DATA] == value)
  {
    var req := Request(k, control, command, value);
    assert (req + rest)[0..CAP] == req;
    RequestAt(k, req + rest, 0, control, command, value);
    RequestLayout(k, control, command, value);
  }
}
