/** Shared vocabulary of the firmware model: optional values, fixed-width
    integers, bytes and the C-string conventions the firmware relies on
    (a string ends at its first NUL; `snprintf`/`strncpy` keep a prefix). */
module Base {

  datatype Option<+T> = None | Some(value: T)

  /** An unsigned 8-bit value (`uint8_t`); bit operations on it are written
      out arithmetically where they are needed. */
  type byte = x: int | 0 <= x < 0x100

  /** C `uint16_t` / `uint32_t` values held as mathematical integers. */
  type u16 = x: int | 0 <= x < 0x1_0000
  type u32 = x: int | 0 <= x < 0x1_0000_0000
  /** C `int` on the target (32-bit two's complement). */
  type int32 = x: int | -0x8000_0000 <= x < 0x8000_0000

  /** The C conversion of an `int` to `uint16_t`: the value modulo 2^16. */
  function ToU16(v: int): (r: u16)
    ensures (r - v) % 0x1_0000 == 0
    ensures 0 <= v < 0x1_0000 ==> r == v
  {
    v % 0x1_0000
  }

  /** `(c >> 8) & 0xFF, c & 0xFF`: a 16-bit value high byte first. */
  function BigEndian16(c: u16): (r: seq<byte>)
    ensures |r| == 2 && (r[0] as int) * 0x100 + r[1] == c
  {
    [c / 0x100, c % 0x100]
  }

  /** `(b[0] << 8) | b[1]`: two bytes read high byte first. */
  function FromBigEndian16(b: seq<byte>): (c: u16)
    requires |b| == 2
    ensures c / 0x100 == b[0] && c % 0x100 == b[1]
  {
    (b[0] as int) * 0x100 + b[1]
  }

  lemma BigEndian16RoundTrip(c: u16, b: seq<byte>)
    ensures FromBigEndian16(BigEndian16(c)) == c
    ensures |b| == 2 ==> BigEndian16(FromBigEndian16(b)) == b
  {
  }

  type Bytes4 = s: seq<byte> | |s| == 4 witness [0, 0, 0, 0]

  /** A `uint32_t` as the little-endian ESP32 loads it from four bytes in memory. */
  function LittleEndian32(b: Bytes4): (n: u32)
  {
    (b[0] as int) + 0x100 * ((b[1] as int) + 0x100 * ((b[2] as int) + 0x100 * (b[3] as int)))
  }

  function ToLittleEndian32(n: u32): (b: Bytes4)
  {
    var n1 := n / 0x100;
    var n2 := n1 / 0x100;
    [n % 0x100, n1 % 0x100, n2 % 0x100, n2 / 0x100]
  }

  lemma LittleEndianRoundTrip(n: u32)
    ensures LittleEndian32(ToLittleEndian32(n)) == n
  {
  }

  lemma LittleEndianCanonical(b: Bytes4)
    ensures ToLittleEndian32(LittleEndian32(b)) == b
  {
    var m2 := (b[2] as int) + 0x100 * (b[3] as int);
    var m1 := (b[1] as int) + 0x100 * m2;
    DivModByte(b[0], m1);
    DivModByte(b[1], m2);
    DivModByte(b[2], b[3]);
  }

  lemma DivModByte(lo: byte, hi: int)
    ensures ((lo as int) + 0x100 * hi) / 0x100 == hi
    ensures ((lo as int) + 0x100 * hi) % 0x100 == lo
  {
  }

  function Pow2(k: nat): (p: nat)
    ensures p >= 1
  {
    if k == 0 then 1 else 2 * Pow2(k - 1)
  }

  /** Bit `i` of `x` (what `x & (1 << i)` tests). */
  predicate Bit(x: nat, i: nat) {
    if i == 0 then x % 2 == 1 else Bit(x / 2, i - 1)
  }

  function Min(a: int, b: int): int {
    if a <= b then a else b
  }

  /** The first `n` elements of `s`, or all of `s` when it is shorter:
      what a bounded copy (`strncpy`, `snprintf` with a size) keeps. */
  function Prefix<T>(s: seq<T>, n: nat): (r: seq<T>)
    ensures |r| == Min(|s|, n)
    ensures r <= s
  {
    if |s| <= n then s else s[..n]
  }

  /** The text a C function sees in a buffer: everything before the first NUL. */
  function CStr(s: string): (r: string)
    ensures r <= s
    ensures '\0' !in r
    ensures |r| < |s| ==> s[|r|] == '\0'
  {
    if |s| == 0 then []
    else if s[0] == '\0' then []
    else [s[0]] + CStr(s[1..])
  }

  /** Lower-casing of ASCII letters only, as `strcasecmp` compares. */
  function ToLowerAscii(c: char): char {
    if 'A' <= c <= 'Z' then (c as int + 32) as char else c
  }

  function LowerAscii(s: string): (r: string)
    ensures |r| == |s|
    ensures forall i :: 0 <= i < |s| ==> r[i] == ToLowerAscii(s[i])
  {
    if |s| == 0 then [] else [ToLowerAscii(s[0])] + LowerAscii(s[1..])
  }

  /** `s` ends with `suffix`, comparing ASCII letters case-insensitively. */
  predicate EndsWithIgnoreCase(s: string, suffix: string) {
    && |suffix| <= |s|
    && forall i :: 0 <= i < |suffix| ==> SameLetterFromEnd(s, suffix, i)
  }

  /** Character `i` of `suffix` matches, ignoring case, the character of `s`
      aligned with it when `suffix` is placed at the end of `s`. */
  predicate SameLetterFromEnd(s: string, suffix: string, i: nat)
    requires |suffix| <= |s| && i < |suffix|
  {
    ToLowerAscii(s[|s| - |suffix| + i]) == ToLowerAscii(suffix[i])
  }
}
