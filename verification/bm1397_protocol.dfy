/** The BM1397 chip link: header bit fields, the two wire frame shapes
    (command frames with a 5-bit CRC, job frames with a 16-bit CRC), and the
    packed byte layouts of a job packet and a nonce response. */
module Bm1397Protocol {
  import opened Base

  // Header bit fields.
  const TYPE_JOB: byte := 0x20
  const TYPE_CMD: byte := 0x40
  const GROUP_SINGLE: byte := 0x00
  const GROUP_ALL: byte := 0x10
  const CMD_SETADDRESS: byte := 0x00
  const CMD_WRITE: byte := 0x01
  const CMD_READ: byte := 0x02
  const CMD_INACTIVE: byte := 0x03

  const CRC5_MASK: byte := 0x1F

  const PREAMBLE_0: byte := 0x55
  const PREAMBLE_1: byte := 0xAA

  /** A byte holding a 5-bit CRC: nothing outside `CRC5_MASK` is set. */
  type Crc5 = b: byte | b <= CRC5_MASK

  /** The two CRC routines of the firmware. Their definitions are not part of
      this model: they are supplied by the caller and only their output
      widths are known. */
  datatype Checksums = Checksums(crc5: seq<byte> -> Crc5, crc16: seq<byte> -> u16)

  datatype PacketType = JobFrame | CmdFrame

  /** The frame class is decided by the TYPE_JOB bit (bit 5) of the header alone. */
  function PacketTypeOf(header: byte): PacketType {
    if Bit(header, 5) then JobFrame else CmdFrame
  }

  lemma JobBitIsBit5(header: byte)
    ensures Bit(header, 5) <==> header / 0x20 % 2 == 1
  {
    assert Bit(header, 5) == Bit(header / 2, 4) == Bit(header / 4, 3) == Bit(header / 8, 2)
        == Bit(header / 16, 1) == Bit(header / 32, 0);
  }

  function CrcWidth(header: byte): nat {
    if PacketTypeOf(header) == JobFrame then 2 else 1
  }

  /** One value of each header field. */
  predicate ValidFields(typ: byte, group: byte, cmd: byte) {
    && (typ == TYPE_JOB || typ == TYPE_CMD)
    && (group == GROUP_SINGLE || group == GROUP_ALL)
    && cmd <= CMD_INACTIVE
  }

  /** `typ | group | cmd`, computed bitwise. */
  function MakeHeader(typ: byte, group: byte, cmd: byte): byte {
    ((typ as bv8) | (group as bv8) | (cmd as bv8)) as int
  }

  /** The type, group and command fields occupy disjoint bits (bits 5-6,
      bit 4, bits 0-1), so each can be read back from the combined header and
      only the type field decides the frame class. */
  lemma HeaderDecomposes(typ: byte, group: byte, cmd: byte)
    requires ValidFields(typ, group, cmd)
    ensures MakeHeader(typ, group, cmd) == typ + group + cmd
    ensures MakeHeader(typ, group, cmd) / 0x20 * 0x20 == typ
    ensures MakeHeader(typ, group, cmd) / 0x10 % 2 * 0x10 == group
    ensures MakeHeader(typ, group, cmd) % 0x10 == cmd
    ensures PacketTypeOf(MakeHeader(typ, group, cmd)) == (if typ == TYPE_JOB then JobFrame else CmdFrame)
  {
    HeaderIsSum(typ, group, cmd);
    JobBitIsBit5(MakeHeader(typ, group, cmd));
  }

  /** The fields share no bit, so or-ing them adds them. */
  lemma HeaderIsSum(typ: byte, group: byte, cmd: byte)
    requires ValidFields(typ, group, cmd)
    ensures MakeHeader(typ, group, cmd) == typ + group + cmd
  {
  }


  /** Consequently two field combinations give the same header only when they are the same. */
  lemma HeaderInjective(t1: byte, g1: byte, c1: byte, t2: byte, g2: byte, c2: byte)
    requires ValidFields(t1, g1, c1) && ValidFields(t2, g2, c2)
    requires MakeHeader(t1, g1, c1) == MakeHeader(t2, g2, c2)
    ensures t1 == t2 && g1 == g2 && c1 == c2
  {
    HeaderDecomposes(t1, g1, c1);
    HeaderDecomposes(t2, g2, c2);
  }

  /** A frame before serialisation: its header byte and payload. The firmware
      passes these to `send_BM1397`; the model lists them in sending order. */
  datatype Command = Command(header: byte, payload: seq<byte>)

  /** Payloads above this size would wrap the 8-bit total length. */
  const MAX_PAYLOAD := 249

  /** `send_BM1397`: the bytes written to the serial port for one frame. */
  function BuildFrame(crc: Checksums, header: byte, data: seq<byte>): (buf: seq<byte>)
    requires |data| <= MAX_PAYLOAD
    ensures |buf| == |data| + 4 + CrcWidth(header)
    ensures PacketTypeOf(header) == JobFrame ==> |buf| == |data| + 6
    ensures PacketTypeOf(header) == CmdFrame ==> |buf| == |data| + 5
    ensures buf[0] == PREAMBLE_0 && buf[1] == PREAMBLE_1 && buf[2] == header
    ensures buf[3] == |data| + 2 + CrcWidth(header)
    ensures buf[4..4 + |data|] == data
    // the CRC covers header, length byte and payload, never the preamble
    ensures PacketTypeOf(header) == JobFrame ==>
              buf[4 + |data|..] == BigEndian16(crc.crc16(buf[2..4 + |data|]))
    ensures PacketTypeOf(header) == CmdFrame ==>
              buf[4 + |data|..] == [crc.crc5(buf[2..4 + |data|])]
  {
    var lenByte := |data| + 2 + CrcWidth(header);
    var covered := [header, lenByte] + data;
    var tail := if PacketTypeOf(header) == JobFrame then BigEndian16(crc.crc16(covered))
                else [crc.crc5(covered)];
    assert ([PREAMBLE_0, PREAMBLE_1] + covered + tail)[2..4 + |data|] == covered;
    [PREAMBLE_0, PREAMBLE_1] + covered + tail
  }

  /** Reading a frame back: preamble, length byte and CRC are all checked.
      This is the receiving side of the link layout. */
  function ParseFrame(crc: Checksums, buf: seq<byte>): (r: Option<(byte, seq<byte>)>)
    ensures r.Some? ==> |r.value.1| <= MAX_PAYLOAD
  {
    if |buf| < 5 || buf[0] != PREAMBLE_0 || buf[1] != PREAMBLE_1 then None
    else
      var header := buf[2];
      var n := |buf| - 4 - CrcWidth(header);
      if n < 0 || n > MAX_PAYLOAD || buf[3] != |buf| - 2 then None
      else
        var covered := buf[2..4 + n];
        var tail := buf[4 + n..];
        var expected := if PacketTypeOf(header) == JobFrame then BigEndian16(crc.crc16(covered))
                        else [crc.crc5(covered)];
        if tail != expected then None else Some((header, buf[4..4 + n]))
  }

  /** Every frame the firmware builds is accepted by the parser, which
      recovers the header and the payload. */
  lemma FrameRoundTrip(crc: Checksums, header: byte, data: seq<byte>)
    requires |data| <= MAX_PAYLOAD
    ensures ParseFrame(crc, BuildFrame(crc, header, data)) == Some((header, data))
  {
    var buf := BuildFrame(crc, header, data);
    assert buf[2..4 + |data|] == [header, buf[3]] + data;
  }

  /** And every byte string the parser accepts is exactly the frame built
      from what it returned: the wire form is canonical. */
  lemma FrameCanonical(crc: Checksums, buf: seq<byte>)
    requires ParseFrame(crc, buf).Some?
    ensures var (h, d) := ParseFrame(crc, buf).value; BuildFrame(crc, h, d) == buf
  {
    var (h, d) := ParseFrame(crc, buf).value;
    var b := BuildFrame(crc, h, d);
    assert |b| == |buf|;
    assert b[..4] == buf[..4];
    assert b[2..4 + |d|] == buf[2..4 + |d|];
    assert b[4 + |d|..] == buf[4 + |d|..];
    assert b == b[..4] + b[4..4 + |d|] + b[4 + |d|..];
    assert buf == buf[..4] + buf[4..4 + |d|] + buf[4 + |d|..];
  }

  /** A command frame's CRC byte never has a bit outside `CRC5_MASK`. */
  lemma CommandCrcFitsMask(crc: Checksums, header: byte, data: seq<byte>)
    requires |data| <= MAX_PAYLOAD
    requires PacketTypeOf(header) == CmdFrame
    ensures var buf := BuildFrame(crc, header, data); buf[|buf| - 1] <= CRC5_MASK
  {
    var buf := BuildFrame(crc, header, data);
    assert buf[|buf| - 1] == buf[4 + |data|..][0];
  }

  // ---------------------------------------------------------------------
  // Packed records

  type Bytes32 = s: seq<byte> | |s| == 32 witness seq(32, _ => 0)

  /** `struct job_packet` (packed): the payload of a job frame. */
  datatype JobPacket = JobPacket(
    jobId: byte,
    numMidstates: byte,
    startingNonce: Bytes4,
    nbits: Bytes4,
    ntime: Bytes4,
    merkle4: Bytes4,
    midstate: Bytes32)

  const JOB_PACKET_SIZE := 50

  function SerializeJob(j: JobPacket): (b: seq<byte>)
    ensures |b| == JOB_PACKET_SIZE
    ensures b[0] == j.jobId && b[1] == j.numMidstates
    ensures b[2..6] == j.startingNonce && b[6..10] == j.nbits
    ensures b[10..14] == j.ntime && b[14..18] == j.merkle4
    ensures b[18..50] == j.midstate
  {
    [j.jobId, j.numMidstates] + j.startingNonce + j.nbits + j.ntime + j.merkle4 + j.midstate
  }

  function ParseJob(b: seq<byte>): JobPacket
    requires |b| == JOB_PACKET_SIZE
  {
    JobPacket(b[0], b[1], b[2..6], b[6..10], b[10..14], b[14..18], b[18..50])
  }

  lemma JobRoundTrip(j: JobPacket)
    ensures ParseJob(SerializeJob(j)) == j
  {
  }

  lemma JobLayoutCanonical(b: seq<byte>)
    requires |b| == JOB_PACKET_SIZE
    ensures SerializeJob(ParseJob(b)) == b
  {
    var s := SerializeJob(ParseJob(b));
    assert s[..2] == b[..2];
    assert s == s[..2] + s[2..6] + s[6..10] + s[10..14] + s[14..18] + s[18..50];
    assert b == b[..2] + b[2..6] + b[6..10] + b[10..14] + b[14..18] + b[18..50];
  }

  /** `struct nonce_response` (packed). `nonce` is a `uint32_t` in the
      memory order of the little-endian target. */
  datatype NonceResponse = NonceResponse(
    preamble: (byte, byte),
    nonce: u32,
    midstateNum: byte,
    jobId: byte,
    crc: byte)

  const NONCE_RESPONSE_SIZE := 9

  function SerializeNonceResponse(r: NonceResponse): (b: seq<byte>)
    ensures |b| == NONCE_RESPONSE_SIZE
    ensures b[0] == r.preamble.0 && b[1] == r.preamble.1
    ensures LittleEndian32(b[2..6]) == r.nonce
    ensures b[6] == r.midstateNum && b[7] == r.jobId && b[8] == r.crc
  {
    LittleEndianRoundTrip(r.nonce);
    var b := [r.preamble.0, r.preamble.1] + ToLittleEndian32(r.nonce) + [r.midstateNum, r.jobId, r.crc];
    assert b[2..6] == ToLittleEndian32(r.nonce);
    b
  }

  function ParseNonceResponse(b: seq<byte>): NonceResponse
    requires |b| == NONCE_RESPONSE_SIZE
  {
    NonceResponse((b[0], b[1]), LittleEndian32(b[2..6]), b[6], b[7], b[8])
  }

  lemma NonceResponseRoundTrip(r: NonceResponse)
    ensures ParseNonceResponse(SerializeNonceResponse(r)) == r
  {
  }

  lemma NonceResponseCanonical(b: seq<byte>)
    requires |b| == NONCE_RESPONSE_SIZE
    ensures SerializeNonceResponse(ParseNonceResponse(b)) == b
  {
    var r := ParseNonceResponse(b);
    LittleEndianCanonical(b[2..6]);
    var s := SerializeNonceResponse(r);
    assert s[2..6] == ToLittleEndian32(r.nonce) == b[2..6];
    assert s == s[..2] + s[2..6] + s[6..];
    assert b == b[..2] + b[2..6] + b[6..];
  }
}
