/** The register protocol between the miner and its display board (BAP):
    outgoing `[reg, len, data]` frames, validation of a register read-back,
    the settings records the display sends back (`FF AA reg len data`), and
    the status-flags register. The I2C transport is not modelled: what it
    returns is a parameter, and what it would send is a result. */
module BapDisplay {
  import opened Base
  import opened NvsConfig

  /** Size of the display and settings buffers. */
  const MAX_BUFFER_SIZE := 512
  /** `LVGL_REG_FLAGS`. */
  const REG_FLAGS: byte := 0x50
  const SETTINGS_PREAMBLE_0: byte := 0xFF
  const SETTINGS_PREAMBLE_1: byte := 0xAA

  /** The `esp_err_t` values this code returns; `Transport` passes an I2C
      error code through unchanged. */
  datatype Status = Ok | NoMem | InvalidResponse | InvalidSize | InvalidState | Transport(code: int)

  // ---------------------------------------------------------------------
  // sendRegisterData

  /** `sendRegisterData`: the bytes handed to the I2C write, or `None` for
      ESP_ERR_NO_MEM when register, length and data exceed the buffer. The
      length byte is the data length cast to 8 bits. */
  function SendRegisterData(reg: byte, data: seq<byte>): (r: Option<seq<byte>>)
    ensures r.None? <==> |data| + 2 > MAX_BUFFER_SIZE
    ensures r.Some? ==> |r.value| == |data| + 2 && r.value[0] == reg && r.value[2..] == data
  {
    if |data| + 2 > MAX_BUFFER_SIZE then None
    else Some([reg, |data| % 0x100] + data)
  }

  /** The display's reading of a register frame: register, length byte, and
      that many data bytes. */
  function DecodeRegisterFrame(f: seq<byte>): Option<(byte, seq<byte>)> {
    if |f| < 2 || |f| < 2 + (f[1] as int) then None else Some((f[0], f[2..2 + f[1]]))
  }

  /** Up to 255 data bytes, the display reads back exactly what was sent. */
  lemma RegisterFrameRoundTrip(reg: byte, data: seq<byte>)
    requires |data| < 0x100
    ensures SendRegisterData(reg, data).Some?
    ensures DecodeRegisterFrame(SendRegisterData(reg, data).value) == Some((reg, data))
  {
    var f := SendRegisterData(reg, data).value;
    assert f[2..2 + f[1]] == data;
  }

  /** From 256 data bytes on, the cast length byte wraps: the frame is still
      sent in full, but it announces only `len - 256` bytes. */
  lemma LengthByteWraps(reg: byte, data: seq<byte>)
    requires 0x100 <= |data| <= MAX_BUFFER_SIZE - 2
    ensures SendRegisterData(reg, data).Some?
    ensures |SendRegisterData(reg, data).value| == |data| + 2
    ensures DecodeRegisterFrame(SendRegisterData(reg, data).value) == Some((reg, data[..|data| - 0x100]))
  {
    var f := SendRegisterData(reg, data).value;
    assert f[1] == |data| - 0x100;
    assert f[2..2 + f[1]] == data[..|data| - 0x100];
  }

  // ---------------------------------------------------------------------
  // lvglReadRegisterData

  /** What the I2C register read produced: an error code, or the
      `dataLen + 2` bytes requested. */
  datatype I2cRead = ReadFailed(code: int) | Received(bytes: seq<byte>)

  datatype ReadOutcome = ReadOk(data: seq<byte>) | ReadError(status: Status)

  /** `lvglReadRegisterData`: the response must echo the register and announce
      no more than `dataLen` bytes; exactly the announced bytes are returned. */
  function ReadRegister(reg: byte, dataLen: nat, read: I2cRead): (r: ReadOutcome)
    requires read.ReadFailed? ==> read.code != 0
    requires read.Received? ==> |read.bytes| == dataLen + 2
    ensures dataLen + 2 > MAX_BUFFER_SIZE ==> r == ReadError(NoMem)
    ensures dataLen + 2 <= MAX_BUFFER_SIZE && read.ReadFailed? ==> r == ReadError(Transport(read.code))
    ensures r.ReadOk? <==>
      dataLen + 2 <= MAX_BUFFER_SIZE && read.Received? && read.bytes[0] == reg && read.bytes[1] <= dataLen
    ensures r.ReadOk? ==> |r.data| == read.bytes[1] && r.data == read.bytes[2..2 + |r.data|]
    ensures r == ReadError(InvalidResponse) <==>
      dataLen + 2 <= MAX_BUFFER_SIZE && read.Received? && read.bytes[0] != reg
    ensures r == ReadError(InvalidSize) <==>
      dataLen + 2 <= MAX_BUFFER_SIZE && read.Received? && read.bytes[0] == reg && read.bytes[1] > dataLen
  {
    if dataLen + 2 > MAX_BUFFER_SIZE then ReadError(NoMem)
    else match read
      case ReadFailed(code) => ReadError(Transport(code))
      case Received(bytes) =>
        if bytes[0] != reg then ReadError(InvalidResponse)
        else if bytes[1] > dataLen then ReadError(InvalidSize)
        else ReadOk(bytes[2..2 + bytes[1]])
  }

  /** A read whose response is a register frame (padded to the requested
      length) returns the frame's data unchanged. */
  lemma ReadBackOfSentFrame(reg: byte, data: seq<byte>, dataLen: nat, pad: seq<byte>)
    requires |data| < 0x100 && |data| <= dataLen && dataLen + 2 <= MAX_BUFFER_SIZE
    requires |pad| == dataLen - |data|
    ensures SendRegisterData(reg, data).Some?
    ensures ReadRegister(reg, dataLen, Received(SendRegisterData(reg, data).value + pad)) == ReadOk(data)
  {
    var f := SendRegisterData(reg, data).value + pad;
    assert f[1] == |data|;
    assert f[2..2 + f[1]] == data;
  }

  // ---------------------------------------------------------------------
  // parseSettingsData

  /** The settings the display can send. */
  datatype Setting =
    | Hostname | WifiSsid | WifiPassword
    | StratumUrl | StratumPort | StratumUser | StratumPassword
    | FallbackUrl | FallbackPort | FallbackUser | FallbackPassword
    | AsicVoltage | AsicFrequency | FanSpeed | AutoFanSpeed

  /** The register number of each setting (`LVGL_REG_SETTINGS_*`). Their
      values are defined outside this code, so the map is a parameter;
      registers not in it are unknown and skipped. */
  type RegisterMap = map<byte, Setting>

  function KeyOf(s: Setting): Key {
    match s
    case Hostname => HOSTNAME
    case WifiSsid => WIFI_SSID
    case WifiPassword => WIFI_PASS
    case StratumUrl => STRATUM_URL
    case StratumPort => STRATUM_PORT
    case StratumUser => STRATUM_USER
    case StratumPassword => STRATUM_PASS
    case FallbackUrl => FALLBACK_STRATUM_URL
    case FallbackPort => FALLBACK_STRATUM_PORT
    case FallbackUser => FALLBACK_STRATUM_USER
    case FallbackPassword => FALLBACK_STRATUM_PASS
    case AsicVoltage => ASIC_VOLTAGE
    case AsicFrequency => ASIC_FREQ
    case FanSpeed => FAN_SPEED
    case AutoFanSpeed => AUTO_FAN_SPEED
  }

  predicate IsStringSetting(s: Setting) {
    s in {Hostname, WifiSsid, WifiPassword, StratumUrl, StratumUser, StratumPassword,
          FallbackUrl, FallbackUser, FallbackPassword}
  }

  /** The configuration writes one record makes (none or one). `data` is
      the record's `len` bytes; `text` is what a string setting stores. */
  function SettingWrites(s: Setting, data: seq<byte>, text: seq<byte>): seq<ConfigWrite>
  {
    if IsStringSetting(s) then [SetString(KeyOf(s), text)]
    else if s == AutoFanSpeed then
      (if |data| == 1 then [SetU16(KeyOf(s), if data[0] != 0 then 1 else 0)] else [])
    else if |data| != 2 then []
    else
      var v := FromBigEndian16(data);
      match s
      case AsicVoltage => if 1000 <= v <= 1250 then [SetU16(KeyOf(s), v)] else []
      case AsicFrequency => if 200 <= v <= 625 then [SetU16(KeyOf(s), v)] else []
      case FanSpeed => if v <= 100 then [SetU16(KeyOf(s), v)] else []
      case _ => [SetU16(KeyOf(s), v)]
  }

  /** What each setting stores: string settings their text, ports any
      2-byte big-endian value, and the guarded settings only values in range
      (voltage 1000..1250 mV, frequency 200..625 MHz, fan speed at most 100 %),
      auto-fan only from a 1-byte record and normalised to 0 or 1. Every
      other record stores nothing. */
  lemma SettingGuards(s: Setting, data: seq<byte>, text: seq<byte>)
    ensures var ws := SettingWrites(s, data, text);
      && |ws| <= 1
      && (forall w :: w in ws ==> w.key == KeyOf(s) && (w.SetString? <==> IsStringSetting(s)))
      && (IsStringSetting(s) ==> ws == [SetString(KeyOf(s), text)])
      && (s == StratumPort || s == FallbackPort ==>
            ws == (if |data| == 2 then [SetU16(KeyOf(s), FromBigEndian16(data))] else []))
      && (s == AsicVoltage ==> (ws != [] <==> |data| == 2 && 1000 <= FromBigEndian16(data) <= 1250))
      && (s == AsicFrequency ==> (ws != [] <==> |data| == 2 && 200 <= FromBigEndian16(data) <= 625))
      && (s == FanSpeed ==> (ws != [] <==> |data| == 2 && FromBigEndian16(data) <= 100))
      && (s in {AsicVoltage, AsicFrequency, FanSpeed} && ws != [] ==> ws == [SetU16(KeyOf(s), FromBigEndian16(data))])
      && (s == AutoFanSpeed ==> ws == (if |data| == 1 then [SetU16(KeyOf(s), if data[0] != 0 then 1 else 0)] else []))
  {
  }

  /** The bytes of a buffer up to its first zero byte: what a C string
      starting there contains. */
  function BeforeNul(b: seq<byte>): (r: seq<byte>)
    ensures r <= b && 0 !in r
    ensures |r| < |b| ==> b[|r|] == 0
  {
    if |b| == 0 || b[0] == 0 then [] else [b[0]] + BeforeNul(b[1..])
  }

  /** Where a string setting's value ends: at the record's length, or (as
      the source passes the data pointer as a C string) at the next zero byte. */
  datatype StringExtent = RecordLength | FirstNul

  function TextOf(buf: seq<byte>, start: nat, len: nat, extent: StringExtent): seq<byte>
    requires start + len <= |buf|
  {
    if extent == RecordLength then buf[start..start + len] else BeforeNul(buf[start..])
  }

  datatype ParseResult = ParseResult(writes: seq<ConfigWrite>, status: Status)

  /** The loop of `parseSettingsData` on the bytes from the cursor on: a
      record is only examined while more than four bytes remain; a bad
      preamble stops with INVALID_STATE and a record running past the buffer
      with INVALID_SIZE, keeping the writes made before. */
  function ParseFrom(regs: RegisterMap, rest: seq<byte>, extent: StringExtent): (r: ParseResult)
    ensures r.status in {Ok, InvalidState, InvalidSize}
    decreases |rest|
  {
    if |rest| <= 4 then ParseResult([], Ok)
    else if rest[0] != SETTINGS_PREAMBLE_0 || rest[1] != SETTINGS_PREAMBLE_1 then ParseResult([], InvalidState)
    else if 4 + rest[3] > |rest| then ParseResult([], InvalidSize)
    else
      var next := ParseFrom(regs, rest[4 + rest[3]..], extent);
      ParseResult(StepWrites(regs, rest, extent) + next.writes, next.status)
  }

  /** The writes of the record at the start of `rest`; an unknown register
      makes none. */
  function StepWrites(regs: RegisterMap, rest: seq<byte>, extent: StringExtent): seq<ConfigWrite>
    requires 4 <= |rest| && 4 + rest[3] <= |rest|
  {
    var reg, len := rest[2], rest[3];
    if reg in regs then SettingWrites(regs[reg], rest[4..4 + len], TextOf(rest, 4, len, extent)) else []
  }

  /** One step of the loop at cursor `pos`: a well-formed record's writes
      come first, then those of the parse after it. */
  lemma ParseFromStep(regs: RegisterMap, buf: seq<byte>, pos: nat, extent: StringExtent)
    requires pos + 4 < |buf| && buf[pos] == SETTINGS_PREAMBLE_0 && buf[pos + 1] == SETTINGS_PREAMBLE_1
    requires pos + 4 + buf[pos + 3] <= |buf|
    ensures var next := ParseFrom(regs, buf[pos + 4 + buf[pos + 3]..], extent);
      ParseFrom(regs, buf[pos..], extent) == ParseResult(StepWrites(regs, buf[pos..], extent) + next.writes, next.status)
  {
    var rest := buf[pos..];
    assert rest[0] == buf[pos] && rest[1] == buf[pos + 1] && rest[3] == buf[pos + 3];
    assert rest[4 + rest[3]..] == buf[pos + 4 + buf[pos + 3]..];
  }

  /** `parseSettingsData` with string values bounded by the record length. */
  function ParseSettings(regs: RegisterMap, buf: seq<byte>): ParseResult {
    ParseFrom(regs, buf, RecordLength)
  }

  /** `parseSettingsData` as written: string values run to the next zero byte. */
  function ParseSettingsAsWritten(regs: RegisterMap, buf: seq<byte>): ParseResult {
    ParseFrom(regs, buf, FirstNul)
  }

  /** The `while` loop of `parseSettingsData`, cursor and all. */
  method ParseSettingsLoop(regs: RegisterMap, buf: seq<byte>) returns (writes: seq<ConfigWrite>, status: Status)
    ensures ParseResult(writes, status) == ParseSettings(regs, buf)
  {
    var pos: nat := 0;
    writes := [];
    assert buf[pos..] == buf;
    while pos + 4 < |buf|
      invariant pos <= |buf| && LoopKeeps(regs, buf, pos, writes)
      decreases |buf| - pos
    {
      if buf[pos] != SETTINGS_PREAMBLE_0 || buf[pos + 1] != SETTINGS_PREAMBLE_1 {
        LoopExit(regs, buf, pos, writes);
        return writes, InvalidState;
      }
      var reg, len := buf[pos + 2], buf[pos + 3];
      if pos + 4 + len > |buf| {
        LoopExit(regs, buf, pos, writes);
        return writes, InvalidSize;
      }
      LoopStep(regs, buf, pos, writes);
      writes := writes + StepWrites(regs, buf[pos..], RecordLength);
      pos := pos + 4 + len;
    }
    LoopExit(regs, buf, pos, writes);
    status := Ok;
  }

  /** The loop's invariant: the writes made so far, followed by those of
      the parse from the cursor, are those of the whole parse, and the parse
      from the cursor ends as the whole parse does. */
  predicate LoopKeeps(regs: RegisterMap, buf: seq<byte>, pos: nat, writes: seq<ConfigWrite>)
    requires pos <= |buf|
  {
    var here, whole := ParseFrom(regs, buf[pos..], RecordLength), ParseSettings(regs, buf);
    writes + here.writes == whole.writes && here.status == whole.status
  }

  /** A well-formed record moves the cursor past it and adds its writes. */
  lemma LoopStep(regs: RegisterMap, buf: seq<byte>, pos: nat, writes: seq<ConfigWrite>)
    requires pos + 4 < |buf| && buf[pos] == SETTINGS_PREAMBLE_0 && buf[pos + 1] == SETTINGS_PREAMBLE_1
    requires pos + 4 + buf[pos + 3] <= |buf| && LoopKeeps(regs, buf, pos, writes)
    ensures LoopKeeps(regs, buf, pos + 4 + buf[pos + 3], writes + StepWrites(regs, buf[pos..], RecordLength))
  {
    var step, next := StepWrites(regs, buf[pos..], RecordLength), ParseFrom(regs, buf[pos + 4 + buf[pos + 3]..], RecordLength);
    ParseFromStep(regs, buf, pos, RecordLength);
    assert writes + (step + next.writes) == (writes + step) + next.writes;
  }

  /** Where the loop leaves, the writes so far and the status it returns
      are those of the whole parse. */
  lemma LoopExit(regs: RegisterMap, buf: seq<byte>, pos: nat, writes: seq<ConfigWrite>)
    requires pos <= |buf| && LoopKeeps(regs, buf, pos, writes)
    ensures pos + 4 >= |buf| ==> ParseSettings(regs, buf) == ParseResult(writes, Ok)
    ensures pos + 4 < |buf| && (buf[pos] != SETTINGS_PREAMBLE_0 || buf[pos + 1] != SETTINGS_PREAMBLE_1) ==>
      ParseSettings(regs, buf) == ParseResult(writes, InvalidState)
    ensures pos + 4 < |buf| && buf[pos] == SETTINGS_PREAMBLE_0 && buf[pos + 1] == SETTINGS_PREAMBLE_1 && pos + 4 + buf[pos + 3] > |buf| ==>
      ParseSettings(regs, buf) == ParseResult(writes, InvalidSize)
  {
    assert writes + [] == writes;
  }

  // ---------------------------------------------------------------------
  // Records as the display builds them

  /** One settings record: preamble, register, length, data. */
  function EncodeRecord(reg: byte, data: seq<byte>): (b: seq<byte>)
    requires |data| < 0x100
    ensures |b| == 4 + |data|
  {
    [SETTINGS_PREAMBLE_0, SETTINGS_PREAMBLE_1, reg, |data|] + data
  }

  predicate ValidRecords(rs: seq<(byte, seq<byte>)>) {
    forall i :: 0 <= i < |rs| ==> |rs[i].1| < 0x100
  }

  function EncodeRecords(rs: seq<(byte, seq<byte>)>): seq<byte>
    requires ValidRecords(rs)
  {
    if |rs| == 0 then [] else EncodeRecord(rs[0].0, rs[0].1) + EncodeRecords(rs[1..])
  }

  /** The writes a sequence of records asks for, record by record: the
      reference the parser is measured against. */
  function RecordWrites(regs: RegisterMap, rs: seq<(byte, seq<byte>)>): seq<ConfigWrite> {
    if |rs| == 0 then []
    else (if rs[0].0 in regs then SettingWrites(regs[rs[0].0], rs[0].1, rs[0].1) else [])
         + RecordWrites(regs, rs[1..])
  }

  /** Records followed by at least one more byte are each parsed in turn:
      the cursor advances by exactly `4 + len`, the writes are those the
      records ask for, and the rest of the buffer decides the status. */
  lemma {:induction false} ParseEncodedRecords(regs: RegisterMap, rs: seq<(byte, seq<byte>)>, tail: seq<byte>)
    requires ValidRecords(rs) && |tail| > 0
    ensures ParseSettings(regs, EncodeRecords(rs) + tail)
         == ParseResult(RecordWrites(regs, rs) + ParseSettings(regs, tail).writes, ParseSettings(regs, tail).status)
  {
    if |rs| == 0 {
      assert EncodeRecords(rs) + tail == tail;
    } else {
      var r := EncodeRecord(rs[0].0, rs[0].1);
      var rest := EncodeRecords(rs[1..]) + tail;
      var first := if rs[0].0 in regs then SettingWrites(regs[rs[0].0], rs[0].1, rs[0].1) else [];
      var later, after := RecordWrites(regs, rs[1..]), ParseSettings(regs, tail);
      calc {
        ParseSettings(regs, EncodeRecords(rs) + tail);
        { assert EncodeRecords(rs) + tail == r + rest; }
        ParseSettings(regs, r + rest);
        { ParseFirstRecord(regs, rs[0].0, rs[0].1, rest); }
        ParseResult(first + ParseSettings(regs, rest).writes, ParseSettings(regs, rest).status);
        { ParseEncodedRecords(regs, rs[1..], tail); }
        ParseResult(first + (later + after.writes), after.status);
        { assert first + (later + after.writes) == (first + later) + after.writes; }
        ParseResult(RecordWrites(regs, rs) + after.writes, after.status);
      }
    }
  }

  /** One record in front of a non-empty rest: its writes, then the rest's parse. */
  lemma ParseFirstRecord(regs: RegisterMap, reg: byte, d: seq<byte>, rest: seq<byte>)
    requires |d| < 0x100 && |rest| > 0
    ensures var next := ParseSettings(regs, rest);
      ParseSettings(regs, EncodeRecord(reg, d) + rest)
        == ParseResult((if reg in regs then SettingWrites(regs[reg], d, d) else []) + next.writes, next.status)
  {
    var r := EncodeRecord(reg, d);
    var buf := r + rest;
    assert buf[0] == SETTINGS_PREAMBLE_0 && buf[1] == SETTINGS_PREAMBLE_1;
    assert buf[2] == reg && buf[3] == |d|;
    assert buf[4..4 + |d|] == d;
    assert buf[4 + |d|..] == rest;
  }

  /** Five bytes or more after the records that do not start with the
      preamble (zero padding, say) end the parse with INVALID_STATE, with every record's writes already made; shorter
      padding ends it with ESP_OK. A record cut off by the end of the buffer
      gives INVALID_SIZE, again after the earlier writes. */
  lemma ParseStatusAfterRecords(regs: RegisterMap, rs: seq<(byte, seq<byte>)>, pad: seq<byte>, reg: byte, len: byte, short: seq<byte>)
    requires ValidRecords(rs)
    ensures |pad| >= 5 && (pad[0] != SETTINGS_PREAMBLE_0 || pad[1] != SETTINGS_PREAMBLE_1) ==>
      ParseSettings(regs, EncodeRecords(rs) + pad) == ParseResult(RecordWrites(regs, rs), InvalidState)
    ensures 1 <= |pad| <= 4 ==>
      ParseSettings(regs, EncodeRecords(rs) + pad) == ParseResult(RecordWrites(regs, rs), Ok)
    ensures 0 < |short| < len ==>
      ParseSettings(regs, EncodeRecords(rs) + [SETTINGS_PREAMBLE_0, SETTINGS_PREAMBLE_1, reg, len] + short)
        == ParseResult(RecordWrites(regs, rs), InvalidSize)
  {
    if |pad| > 0 {
      ParseEncodedRecords(regs, rs, pad);
    }
    var cut := [SETTINGS_PREAMBLE_0, SETTINGS_PREAMBLE_1, reg, len] + short;
    ParseEncodedRecords(regs, rs, cut);
    assert EncodeRecords(rs) + [SETTINGS_PREAMBLE_0, SETTINGS_PREAMBLE_1, reg, len] + short == EncodeRecords(rs) + cut;
  }

  /** A C string read from bytes that hold no zero runs on into what follows. */
  lemma {:induction false} BeforeNulRunsOn(s: seq<byte>, r: seq<byte>)
    requires 0 !in s
    ensures BeforeNul(s + r) == s + BeforeNul(r)
  {
    if |s| > 0 {
      assert (s + r)[0] == s[0] != 0;
      assert (s + r)[1..] == s[1..] + r;
      assert 0 !in s[1..];
      BeforeNulRunsOn(s[1..], r);
      assert [s[0]] + (s[1..] + BeforeNul(r)) == s + BeforeNul(r);
    } else {
      assert s + r == r;
    }
  }

  /** A string record followed by more bytes: the parse with the record's
      length stores exactly the record's data, while the as-written parse
      stores the data and then whatever follows up to the next zero byte —
      for instance a hostname "abc" followed by an SSID record is stored as
      "abc" plus that record's header. */
  lemma StringRunsPastRecord(regs: RegisterMap, reg: byte, d: seq<byte>, rest: seq<byte>)
    requires reg in regs && IsStringSetting(regs[reg])
    requires |d| < 0x100 && 0 !in d && |rest| > 0 && rest[0] != 0
    ensures var key, buf := KeyOf(regs[reg]), EncodeRecord(reg, d) + rest;
      && |ParseSettings(regs, buf).writes| > 0 && |ParseSettingsAsWritten(regs, buf).writes| > 0
      && ParseSettings(regs, buf).writes[0] == SetString(key, d)
      && ParseSettingsAsWritten(regs, buf).writes[0] == SetString(key, d + BeforeNul(rest))
      && |d + BeforeNul(rest)| > |d|
  {
    var buf := EncodeRecord(reg, d) + rest;
    assert buf[0] == SETTINGS_PREAMBLE_0 && buf[1] == SETTINGS_PREAMBLE_1;
    assert buf[2] == reg && buf[3] == |d|;
    assert buf[4..4 + |d|] == d;
    assert buf[4..] == d + rest;
    BeforeNulRunsOn(d, rest);
  }

  // ---------------------------------------------------------------------
  // lvglGetSettings

  /** `lvglGetSettings` once the throttle lets it run: the whole 512-byte
      settings buffer is parsed unless its first byte is zero. */
  function GetSettings(regs: RegisterMap, buf: seq<byte>): (r: ParseResult)
    requires |buf| == MAX_BUFFER_SIZE
    ensures r.writes == ParseSettings(regs, buf).writes
    ensures buf[0] == 0 ==> r == ParseResult([], Ok) && ParseSettings(regs, buf).status == InvalidState
    ensures buf[0] != 0 ==> r.status == ParseSettings(regs, buf).status
  {
    if buf[0] == 0 then ParseResult([], Ok) else ParseSettings(regs, buf)
  }

  // ---------------------------------------------------------------------
  // Status flags

  /** The flags byte: bit 0 found block, bit 1 startup done, bit 2 overheat mode. */
  function FlagsByte(foundBlock: bool, startupDone: bool, overheat: bool): (f: byte)
    ensures f < 8
    ensures Bit(f, 0) == foundBlock && Bit(f, 1) == startupDone && Bit(f, 2) == overheat
  {
    var f := (if foundBlock then 1 else 0) + (if startupDone then 2 else 0) + (if overheat then 4 else 0);
    LowBits(f);
    f
  }

  lemma LowBits(f: nat)
    ensures Bit(f, 1) == (f / 2 % 2 == 1) && Bit(f, 2) == (f / 4 % 2 == 1)
  {
    assert Bit(f, 2) == Bit(f / 2, 1) == Bit(f / 2 / 2, 0);
    assert f / 2 / 2 == f / 4;
  }

  datatype FlagsUpdate = FlagsUpdate(frame: Option<seq<byte>>, lastFlags: byte, status: Status)

  /** The flags step of `lvglUpdateDisplayDeviceStatus`: the register is
      written only when the flags differ from the last value sent, and the
      remembered value changes only when the write succeeds. */
  function UpdateFlags(lastFlags: byte, foundBlock: bool, startupDone: bool, overheat: bool, writeStatus: Status): (r: FlagsUpdate)
    requires writeStatus == Ok || writeStatus.Transport?
    ensures var flags := FlagsByte(foundBlock, startupDone, overheat);
      && (r.frame.Some? <==> flags != lastFlags)
      && (r.frame.Some? ==> DecodeRegisterFrame(r.frame.value) == Some((REG_FLAGS, [flags])))
      && (r.status == Ok ==> r.lastFlags == flags)
      && (r.status != Ok ==> r.lastFlags == lastFlags && r.status == writeStatus && r.frame.Some?)
  {
    var flags := FlagsByte(foundBlock, startupDone, overheat);
    if lastFlags == flags then FlagsUpdate(None, lastFlags, Ok)
    else
      RegisterFrameRoundTrip(REG_FLAGS, [flags]);
      var frame := SendRegisterData(REG_FLAGS, [flags]).value;
      if writeStatus != Ok then FlagsUpdate(Some(frame), lastFlags, writeStatus)
      else FlagsUpdate(Some(frame), flags, Ok)
  }

  /** Once a flags write succeeds, the same state is not sent again. */
  lemma FlagsSentOnce(lastFlags: byte, foundBlock: bool, startupDone: bool, overheat: bool, w1: Status, w2: Status)
    requires w1 == Ok || w1.Transport?
    requires w2 == Ok || w2.Transport?
    requires UpdateFlags(lastFlags, foundBlock, startupDone, overheat, w1).status == Ok
    ensures var next := UpdateFlags(lastFlags, foundBlock, startupDone, overheat, w1).lastFlags;
      UpdateFlags(next, foundBlock, startupDone, overheat, w2) == FlagsUpdate(None, next, Ok)
  {
  }
}
