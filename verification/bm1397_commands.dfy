/** The command sequences the BM1397 driver sends: the fixed read-address,
    chain-inactive and set-address commands, the register writes of
    `send_init`, the maximum-baud write, job frames, and the four frames of
    `send_hash_frequency`. The serial port is not modelled; each operation
    returns the commands in sending order, and `Wire` turns them into bytes. */
module Bm1397Commands {
  import opened Base
  import opened Bm1397Protocol
  import Bm1397Frequency

  const HEADER_INACTIVE: byte := MakeHeader(TYPE_CMD, GROUP_ALL, CMD_INACTIVE)
  const HEADER_READ: byte := MakeHeader(TYPE_CMD, GROUP_ALL, CMD_READ)
  const HEADER_SET_ADDRESS: byte := MakeHeader(TYPE_CMD, GROUP_SINGLE, CMD_SETADDRESS)
  const HEADER_WRITE_ALL: byte := MakeHeader(TYPE_CMD, GROUP_ALL, CMD_WRITE)
  const HEADER_JOB: byte := MakeHeader(TYPE_JOB, GROUP_SINGLE, CMD_WRITE)

  /** The five headers the driver uses; only the job header selects a job frame. */
  lemma HeaderValues()
    ensures HEADER_INACTIVE == 0x53 && HEADER_READ == 0x52 && HEADER_SET_ADDRESS == 0x40
    ensures HEADER_WRITE_ALL == 0x51 && HEADER_JOB == 0x21
    ensures PacketTypeOf(HEADER_JOB) == JobFrame
    ensures PacketTypeOf(HEADER_INACTIVE) == CmdFrame && PacketTypeOf(HEADER_READ) == CmdFrame
    ensures PacketTypeOf(HEADER_SET_ADDRESS) == CmdFrame && PacketTypeOf(HEADER_WRITE_ALL) == CmdFrame
  {
    HeaderDecomposes(TYPE_CMD, GROUP_ALL, CMD_INACTIVE);
    HeaderDecomposes(TYPE_CMD, GROUP_ALL, CMD_READ);
    HeaderDecomposes(TYPE_CMD, GROUP_SINGLE, CMD_SETADDRESS);
    HeaderDecomposes(TYPE_CMD, GROUP_ALL, CMD_WRITE);
    HeaderDecomposes(TYPE_JOB, GROUP_SINGLE, CMD_WRITE);
  }

  function SendReadAddress(): Command {
    Command(HEADER_READ, [0x00, 0x00])
  }

  function SendChainInactive(): Command {
    Command(HEADER_INACTIVE, [0x00, 0x00])
  }

  function SetChipAddress(chipAddr: byte): Command {
    Command(HEADER_SET_ADDRESS, [chipAddr, 0x00])
  }

  function SetMaxBaud(): Command {
    Command(HEADER_WRITE_ALL, [0x00, 0x18, 0x00, 0x00, 0x70, 0x30])
  }

  function SendWork(job: JobPacket): Command {
    Command(HEADER_JOB, SerializeJob(job))
  }

  /** The register writes of `send_init` between the address assignment and
      the frequency program, in order (clock order control 0 and 1, ordered
      clock enable, init 4, pll3 parameter twice, fast UART configuration,
      misc control / baud rate). */
  const INIT_WRITES: seq<seq<byte>> := [
    [0x00, 0x80, 0x00, 0x00, 0x00, 0x00],
    [0x00, 0x84, 0x00, 0x00, 0x00, 0x00],
    [0x00, 0x20, 0x00, 0x00, 0x00, 0x01],
    [0x00, 0x3C, 0x80, 0x00, 0x80, 0x74],
    [0x00, 0x68, 0xC0, 0x70, 0x01, 0x11],
    [0x00, 0x68, 0xC0, 0x70, 0x01, 0x11],
    [0x00, 0x28, 0x06, 0x00, 0x00, 0x0F],
    [0x00, 0x18, 0x00, 0x00, 0x7A, 0x31]
  ]

  function WriteAll(payloads: seq<seq<byte>>): (cs: seq<Command>)
    ensures |cs| == |payloads|
    ensures forall i :: 0 <= i < |cs| ==> cs[i] == Command(HEADER_WRITE_ALL, payloads[i])
  {
    seq(|payloads|, i requires 0 <= i < |payloads| => Command(HEADER_WRITE_ALL, payloads[i]))
  }

  /** `send_hash_frequency`: the pll0_divider write twice, then the solved
      pll0_parameter write twice, and the frequency the chip ends up at. */
  function SendHashFrequency(frequency: int): (r: (seq<Command>, real))
    ensures |r.0| == 4
    ensures forall i :: 0 <= i < 4 ==> r.0[i].header == HEADER_WRITE_ALL
    ensures r.0[0].payload == r.0[1].payload == Bm1397Frequency.PREFREQ_PAYLOAD
    ensures r.0[2].payload == r.0[3].payload
    ensures var p := r.0[2].payload;
      && |p| == 6 && p[..3] == Bm1397Frequency.PLL0_PREFIX
      && Bm1397Frequency.DecodeFreqPayload(p) == r.1
      && Bm1397Frequency.Clamp(frequency) as real <= r.1
  {
    var setting := Bm1397Frequency.Solve(frequency);
    Bm1397Frequency.PayloadEncodesAchieved(frequency);
    Bm1397Frequency.AchievedCloseAbove(frequency);
    var pre := Command(HEADER_WRITE_ALL, Bm1397Frequency.PREFREQ_PAYLOAD);
    var freq := Command(HEADER_WRITE_ALL, Bm1397Frequency.FreqPayload(setting));
    ([pre, pre, freq, freq], Bm1397Frequency.Achieved(setting))
  }

  /** `send_init`: chain inactive, address 0 for the first chip, the fixed
      register writes, then the frequency program for the configured frequency. */
  function SendInit(frequency: int): (cs: seq<Command>)
    ensures |cs| == 14
    ensures cs[0] == SendChainInactive() && cs[1] == SetChipAddress(0)
    ensures forall i :: 2 <= i < 14 ==> cs[i].header == HEADER_WRITE_ALL
    ensures cs[10..] == SendHashFrequency(frequency).0
  {
    [SendChainInactive(), SetChipAddress(0)] + WriteAll(INIT_WRITES) + SendHashFrequency(frequency).0
  }

  /** The bytes put on the serial line for a sequence of commands. */
  function Wire(crc: Checksums, cs: seq<Command>): (frames: seq<seq<byte>>)
    requires forall i :: 0 <= i < |cs| ==> |cs[i].payload| <= MAX_PAYLOAD
    ensures |frames| == |cs|
    ensures forall i :: 0 <= i < |cs| ==> frames[i] == BuildFrame(crc, cs[i].header, cs[i].payload)
  {
    if |cs| == 0 then [] else [BuildFrame(crc, cs[0].header, cs[0].payload)] + Wire(crc, cs[1..])
  }

  /** The shape of every command `send_init` sends: a command-class header
      and a 2- or 6-byte payload. */
  predicate InitShaped(c: Command) {
    c.header in {HEADER_INACTIVE, HEADER_SET_ADDRESS, HEADER_WRITE_ALL}
    && (|c.payload| == 2 || |c.payload| == 6)
  }

  lemma InitCommandsShaped(frequency: int)
    ensures forall i :: 0 <= i < |SendInit(frequency)| ==> InitShaped(SendInit(frequency)[i])
  {
    var cs := SendInit(frequency);
    forall i | 0 <= i < |cs|
      ensures InitShaped(cs[i])
    {
      if 2 <= i < 10 {
        assert cs[i].payload == INIT_WRITES[i - 2];
      }
    }
  }

  /** Every frame of the init sequence is a command frame of 7 or 11 bytes
      whose header and payload read back from the wire unchanged. */
  lemma InitFramesAreCommands(crc: Checksums, frequency: int)
    ensures var cs := SendInit(frequency);
      forall i :: 0 <= i < |cs| ==>
        && PacketTypeOf(cs[i].header) == CmdFrame
        && (|cs[i].payload| == 2 || |cs[i].payload| == 6)
        && |BuildFrame(crc, cs[i].header, cs[i].payload)| == |cs[i].payload| + 5
        && ParseFrame(crc, BuildFrame(crc, cs[i].header, cs[i].payload)) == Some((cs[i].header, cs[i].payload))
  {
    HeaderValues();
    InitCommandsShaped(frequency);
    var cs := SendInit(frequency);
    forall i | 0 <= i < |cs|
      ensures ParseFrame(crc, BuildFrame(crc, cs[i].header, cs[i].payload)) == Some((cs[i].header, cs[i].payload))
    {
      FrameRoundTrip(crc, cs[i].header, cs[i].payload);
    }
  }

  /** The read-address broadcast and the maximum-baud write are 7- and
      11-byte command frames ending in a 5-bit CRC, and the set-address
      command carries the chip address in its first payload byte. */
  lemma FixedCommandFrames(crc: Checksums, chipAddr: byte)
    ensures var f := BuildFrame(crc, SendReadAddress().header, SendReadAddress().payload);
      |f| == 7 && f[2] == 0x52 && f[3] == 5 && f[6] <= CRC5_MASK
    ensures var f := BuildFrame(crc, SetMaxBaud().header, SetMaxBaud().payload);
      |f| == 11 && f[2] == 0x51 && f[3] == 9 && f[10] <= CRC5_MASK
    ensures var f := BuildFrame(crc, SetChipAddress(chipAddr).header, SetChipAddress(chipAddr).payload);
      |f| == 7 && f[2] == 0x40 && f[4] == chipAddr && f[6] <= CRC5_MASK
  {
    HeaderValues();
    CommandCrcFitsMask(crc, SendReadAddress().header, SendReadAddress().payload);
    CommandCrcFitsMask(crc, SetMaxBaud().header, SetMaxBaud().payload);
    CommandCrcFitsMask(crc, SetChipAddress(chipAddr).header, SetChipAddress(chipAddr).payload);
  }

  /** A job goes out as a 56-byte job frame: length byte 54, the packed job
      at offsets 4..53, and a big-endian CRC16 over bytes 2..53. */
  lemma WorkFrameLayout(crc: Checksums, job: JobPacket)
    ensures var f := BuildFrame(crc, SendWork(job).header, SendWork(job).payload);
      && |f| == 56 && f[2] == 0x21 && f[3] == 54
      && f[4..54] == SerializeJob(job)
      && f[54..] == BigEndian16(crc.crc16(f[2..54]))
      && ParseFrame(crc, f) == Some((HEADER_JOB, SerializeJob(job)))
  {
    HeaderValues();
    FrameRoundTrip(crc, HEADER_JOB, SerializeJob(job));
  }
}
