/** The frame layout of the radar's serial protocol: the marker bytes, the
    control/command catalogue, the byte offsets within a frame, the checksum
    and the ten-byte request that every setter sends. */
module Wire {
  import opened Bytes

  /** The framing bytes. Their values live in a header that is not part of
      this model, so they stay parameters. */
  datatype Markers = Markers(head1: byte, head2: byte, end1: byte, end2: byte)

  /** The control and command codes the driver uses, equally abstract.
      `zeroF` is the filler value sent with commands that take no argument. */
  datatype Codes = Codes(
    system: byte, workingStatus: byte, custom: byte, humanStatus: byte,
    reset: byte, setScenario: byte, setSensitivity: byte, openCustom: byte,
    exitCustom: byte, setPresenceThreshold: byte, setPresenceRange: byte,
    setTimeOfAbsence: byte, setMotionThreshold: byte, setMotionRange: byte,
    initComplete: byte, presence: byte, motion: byte, zeroF: byte)

  /** Capacity of a frame buffer: the ten bytes of a single-value request. */
  const CAP: nat := 10
  const CONTROL: nat := 2
  const COMMAND: nat := 3
  const DATA: nat := 6

  /** `msg` with its checksum slot (index `l - 3` of an `l`-byte frame) set to
      the 8-bit sum of the bytes before that slot. */
  function WithChecksum(msg: seq<byte>, l: nat): seq<byte>
    requires 3 <= l <= |msg|
  {
    msg[l - 3 := Sum8(msg[..l - 3])]
  }

  /** The checksum slot holds the sum of the preceding bytes and nothing else changes. */
  lemma ChecksumWritten(msg: seq<byte>, l: nat)
    requires 3 <= l <= |msg|
    ensures |WithChecksum(msg, l)| == |msg|
    ensures WithChecksum(msg, l)[l - 3] == Sum8(msg[..l - 3])
    ensures forall i | 0 <= i < |msg| && i != l - 3 :: WithChecksum(msg, l)[i] == msg[i]
  {
  }

  /** Whatever the checksum slot held before does not affect the outcome. */
  lemma ChecksumIgnoresSlot(msg: seq<byte>, l: nat, garbage: byte)
    requires 3 <= l <= |msg|
    ensures WithChecksum(msg[l - 3 := garbage], l) == WithChecksum(msg, l)
  {
  }

  /** Computing the checksum a second time changes nothing. */
  lemma ChecksumIdempotent(msg: seq<byte>, l: nat)
    requires 3 <= l <= |msg|
    ensures WithChecksum(WithChecksum(msg, l), l) == WithChecksum(msg, l)
  {
  }

  /** The request frame before its value and checksum are filled in. */
  function Template(k: Markers, control: byte, command: byte): seq<byte>
  {
    [k.head1, k.head2, control, command, 0x00, 0x01, 0x00, 0x00, k.end1, k.end2]
  }

  /** The ten bytes sent for (`control`, `command`, `value`): the template with
      the value at DATA and the checksum computed over a ten-byte frame. */
  function Request(k: Markers, control: byte, command: byte, value: byte): seq<byte>
  {
    WithChecksum(Template(k, control, command)[DATA := value], CAP)
  }

  /** The request's layout, byte by byte; its checksum covers bytes 0..6. */
  lemma RequestLayout(k: Markers, control: byte, command: byte, value: byte)
    ensures Request(k, control, command, value)
         == [k.head1, k.head2, control, command, 0x00, 0x01, value,
             Sum8([k.head1, k.head2, control, command, 0x00, 0x01, value]),
             k.end1, k.end2]
  {
    assert Template(k, control, command)[DATA := value][..7]
        == [k.head1, k.head2, control, command, 0x00, 0x01, value];
  }
}
