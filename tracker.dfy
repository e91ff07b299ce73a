/** The presence/motion state the driver keeps from the module's unsolicited
    human-status reports. */
module Tracker {
  import opened Bytes
  import opened Wire

  datatype Status = Status(presence: byte, motion: byte)

  /** The state after a report and whether it changed. */
  datatype Update = Update(status: Status, changed: bool)

  /** One received frame, read from the buffer `msg`: a HUMAN_STATUS report
      of PRESENCE or MOTION stores the value at DATA when it differs. */
  function Track(cd: Codes, st: Status, msg: seq<byte>): Update
    requires |msg| == CAP
  {
    if msg[CONTROL] != cd.humanStatus then Update(st, false)
    else if msg[COMMAND] == cd.presence then
      if msg[DATA] != st.presence then Update(st.(presence := msg[DATA]), true) else Update(st, false)
    else if msg[COMMAND] == cd.motion then
      if msg[DATA] != st.motion then Update(st.(motion := msg[DATA]), true) else Update(st, false)
    else Update(st, false)
  }

  /** Someone is present when the stored presence byte is non-zero. */
  predicate Present(st: Status)
  {
    st.presence != 0
  }

  /** Motion is reported by the value 0x02. */
  predicate Moving(st: Status)
  {
    st.motion == 0x02
  }

  /** A report is flagged as a change exactly when the state changed, and at
      most the reported field changed, to the reported value. */
  lemma ChangedIffDiffers(cd: Codes, st: Status, msg: seq<byte>)
    requires |msg| == CAP
    ensures var u := Track(cd, st, msg);
            (u.changed <==> u.status != st)
            && (u.status.presence != st.presence ==>
                  msg[CONTROL] == cd.humanStatus && msg[COMMAND] == cd.presence
                  && u.status == st.(presence := msg[DATA]))
            && (u.status.motion != st.motion ==>
                  msg[CONTROL] == cd.humanStatus && msg[COMMAND] == cd.motion
                  && msg[COMMAND] != cd.presence && u.status == st.(motion := msg[DATA]))
  {
  }

  /** After a presence report the stored presence is the reported value, and
      `Present` reflects whether it is non-zero; motion is untouched. */
  lemma PresenceReport(cd: Codes, st: Status, msg: seq<byte>)
    requires |msg| == CAP
    requires msg[CONTROL] == cd.humanStatus && msg[COMMAND] == cd.presence
    ensures var u := Track(cd, st, msg);
            u.status == st.(presence := msg[DATA])
            && (Present(u.status) <==> msg[DATA] != 0)
            && u.changed == (msg[DATA] != st.presence)
  {
  }

  /** After a motion report (not also the presence code) the stored motion is
      the reported value, and `Moving` holds exactly for 0x02. */
  lemma MotionReport(cd: Codes, st: Status, msg: seq<byte>)
    requires |msg| == CAP
    requires msg[CONTROL] == cd.humanStatus && msg[COMMAND] == cd.motion
    requires cd.motion != cd.presence
    ensures var u := Track(cd, st, msg);
            u.status == st.(motion := msg[DATA])
            && (Moving(u.status) <==> msg[DATA] == 0x02)
            && u.changed == (msg[DATA] != st.motion)
  {
  }

  /** Presence reported as 0x01, 0x01 again and then 0x00: changed, unchanged,
      changed, with `Present` true, true and false. */
  lemma PresenceSequence(cd: Codes, st: Status, m1: seq<byte>, m0: seq<byte>)
    requires |m1| == CAP && |m0| == CAP
    requires m1[CONTROL] == cd.humanStatus && m1[COMMAND] == cd.presence && m1[DATA] == 0x01
    requires m0[CONTROL] == cd.humanStatus && m0[COMMAND] == cd.presence && m0[DATA] == 0x00
    requires st.presence != 0x01
    ensures var u1 := Track(cd, st, m1);
            var u2 := Track(cd, u1.status, m1);
            var u3 := Track(cd, u2.status, m0);
            u1.changed && Present(u1.status)
            && !u2.changed && Present(u2.status)
            && u3.changed && !Present(u3.status)
  {
  }
}
