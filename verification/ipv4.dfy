/** IPv4 addresses as the HTTP server handles them: 32-bit values in
    network byte order as they sit in memory on the little-endian ESP32,
    `ntohl`, the dotted-decimal parser behind `inet_addr`, and the
    private-range test of `ip_in_private_range`. */
module Ipv4 {
  import opened Base
  import opened Decimal

  /** `INADDR_NONE`, what `inet_addr` returns for text it cannot parse. */
  const INADDR_NONE: u32 := 0xFFFF_FFFF

  /** The network-order value of `a.b.c.d` as the little-endian CPU loads
      it: the first octet is the lowest byte. */
  function FromOctets(a: byte, b: byte, c: byte, d: byte): u32 {
    LittleEndian32([a, b, c, d])
  }

  /** The four octets of a network-order value, first octet first. */
  function Octets(x: u32): Bytes4 {
    ToLittleEndian32(x)
  }

  /** `ntohl` on a little-endian CPU: the four bytes reversed, so the first
      octet becomes the most significant. */
  function Ntohl(x: u32): u32 {
    var o := Octets(x);
    LittleEndian32([o[3], o[2], o[1], o[0]])
  }

  /** The host-order value weighs the octets from the first down. */
  lemma NtohlWeighsOctets(x: u32)
    ensures var o := Octets(x);
      Ntohl(x) == (o[0] as int) * 0x100_0000 + (o[1] as int) * 0x1_0000 + (o[2] as int) * 0x100 + o[3]
    ensures Ntohl(Ntohl(x)) == x
  {
    var o := Octets(x);
    var r: Bytes4 := [o[3], o[2], o[1], o[0]];
    LittleEndianCanonical(r);
    LittleEndianRoundTrip(x);
  }

  // ---------------------------------------------------------------------
  // ip_in_private_range

  /** `ip_in_private_range`: the host-order value lies in 10.0.0.0-10.255.255.255,
      172.16.0.0-172.31.255.255 or 192.168.0.0-192.168.255.255. */
  predicate IpInPrivateRange(address: u32) {
    var ip := Ntohl(address);
    (0x0A00_0000 <= ip <= 0x0AFF_FFFF)
    || (0xAC10_0000 <= ip <= 0xAC1F_FFFF)
    || (0xC0A8_0000 <= ip <= 0xC0A8_FFFF)
  }

  /** The three blocks of section 3 of RFC 1918, stated on the octets:
      10/8, 172.16/12 and 192.168/16. */
  predicate Rfc1918(a: byte, b: byte) {
    a == 10 || (a == 172 && 16 <= b <= 31) || (a == 192 && b == 168)
  }

  /** The numeric ranges are exactly the RFC 1918 blocks, for every address. */
  lemma PrivateRangeIsRfc1918(address: u32)
    ensures var o := Octets(address); IpInPrivateRange(address) <==> Rfc1918(o[0], o[1])
  {
    var o := Octets(address);
    NtohlWeighsOctets(address);
    var low := (o[2] as int) * 0x100 + o[3];
    var rest := (o[1] as int) * 0x1_0000 + low;
    assert 0 <= low < 0x1_0000;
    assert 0 <= rest < 0x100_0000;
    assert Ntohl(address) == (o[0] as int) * 0x100_0000 + rest;
  }

  /** The same, for an address given by its octets. */
  lemma PrivateOctets(a: byte, b: byte, c: byte, d: byte)
    ensures IpInPrivateRange(FromOctets(a, b, c, d)) <==> Rfc1918(a, b)
  {
    LittleEndianCanonical([a, b, c, d]);
    PrivateRangeIsRfc1918(FromOctets(a, b, c, d));
  }

  // ---------------------------------------------------------------------
  // inet_addr

  /** `s` split at every `sep`: the pieces between separators, in order. */
  function Split(s: string, sep: char): (parts: seq<string>)
    ensures |parts| >= 1
    decreases |s|
  {
    if sep !in s then [s]
    else
      var i := FirstIndex(s, sep);
      [s[..i]] + Split(s[i + 1..], sep)
  }

  function FirstIndex(s: string, c: char): (i: nat)
    requires c in s
    ensures i < |s| && s[i] == c && c !in s[..i]
  {
    if s[0] == c then 0 else 1 + FirstIndex(s[1..], c)
  }

  lemma SplitJoin(a: string, sep: char, b: string)
    requires sep !in a
    ensures Split(a + [sep] + b, sep) == [a] + Split(b, sep)
  {
    var s := a + [sep] + b;
    assert s[|a|] == sep;
    FirstIndexOfJoin(a, sep, b);
    assert s[..|a|] == a;
    assert s[|a| + 1..] == b;
  }

  lemma {:induction false} FirstIndexOfJoin(a: string, sep: char, b: string)
    requires sep !in a
    ensures sep in a + [sep] + b && FirstIndex(a + [sep] + b, sep) == |a|
  {
    var s := a + [sep] + b;
    assert s[|a|] == sep;
    if |a| > 0 {
      assert s[1..] == a[1..] + [sep] + b;
      FirstIndexOfJoin(a[1..], sep, b);
    }
  }

  /** A character other than the separator lands in one of the pieces. */
  lemma {:induction false} SplitKeeps(s: string, sep: char, c: char)
    requires c in s && c != sep
    ensures exists i :: 0 <= i < |Split(s, sep)| && c in Split(s, sep)[i]
    decreases |s|
  {
    var parts := Split(s, sep);
    if sep !in s {
      assert parts[0] == s;
    } else {
      var k := FirstIndex(s, sep);
      assert parts == [s[..k]] + Split(s[k + 1..], sep);
      var j :| 0 <= j < |s| && s[j] == c;
      if j < k {
        assert s[..k][j] == c;
        assert c in parts[0];
      } else {
        assert j > k;
        assert s[k + 1..][j - k - 1] == c;
        SplitKeeps(s[k + 1..], sep, c);
        var i :| 0 <= i < |Split(s[k + 1..], sep)| && c in Split(s[k + 1..], sep)[i];
        assert parts[i + 1] == Split(s[k + 1..], sep)[i];
      }
    }
  }

  /** The summed lengths of a sequence of strings. */
  function TotalLength(parts: seq<string>): nat {
    if |parts| == 0 then 0 else |parts[0]| + TotalLength(parts[1..])
  }

  /** Splitting loses exactly the separators: one fewer than the pieces. */
  lemma {:induction false} SplitLength(s: string, sep: char)
    ensures |s| == TotalLength(Split(s, sep)) + |Split(s, sep)| - 1
    decreases |s|
  {
    var parts := Split(s, sep);
    if sep !in s {
      assert TotalLength(parts) == |s| + TotalLength([]);
    } else {
      var k := FirstIndex(s, sep);
      var rest := Split(s[k + 1..], sep);
      assert parts == [s[..k]] + rest;
      assert parts[1..] == rest;
      SplitLength(s[k + 1..], sep);
    }
  }

  /** One dotted-decimal part: 1 to 3 digits, no leading zero, at most 255. */
  function ParseOctet(g: string): (r: Option<byte>)
    ensures r.Some? ==> AllDigits(g) && 1 <= |g| <= 3
  {
    if 1 <= |g| <= 3 && AllDigits(g) && (|g| == 1 || g[0] != '0') && DecValue(g) <= 255
    then Some(DecValue(g)) else None
  }

  /** The dotted-quad text `a.b.c.d` parsed to a network-order value. */
  function ParseDottedQuad(s: string): (r: Option<u32>)
    ensures r.Some? ==> forall i :: 0 <= i < |s| ==> s[i] == '.' || IsDigit(s[i])
  {
    var parts := Split(s, '.');
    if |parts| != 4 then None
    else match (ParseOctet(parts[0]), ParseOctet(parts[1]), ParseOctet(parts[2]), ParseOctet(parts[3]))
      case (Some(a), Some(b), Some(c), Some(d)) =>
        DottedCharacters(s, parts);
        Some(FromOctets(a, b, c, d))
      case _ => None
  }

  lemma DottedCharacters(s: string, parts: seq<string>)
    requires parts == Split(s, '.') && |parts| == 4
    requires forall i :: 0 <= i < 4 ==> AllDigits(parts[i])
    ensures forall i :: 0 <= i < |s| ==> s[i] == '.' || IsDigit(s[i])
  {
    forall i | 0 <= i < |s| && s[i] != '.'
      ensures IsDigit(s[i])
    {
      SplitKeeps(s, '.', s[i]);
    }
  }

  /** Four parts of at most three digits and three dots: a parsable
      address is at most 15 characters long. */
  lemma DottedQuadLength(s: string)
    ensures ParseDottedQuad(s).Some? ==> |s| <= 15
  {
    var parts := Split(s, '.');
    SplitLength(s, '.');
    if ParseDottedQuad(s).Some? {
      var p1, p2, p3 := parts[1..], parts[2..], parts[3..];
      assert p1[1..] == p2 && p2[1..] == p3 && p3[1..] == [];
      assert TotalLength(p3) == |parts[3]|;
      assert TotalLength(p2) == |parts[2]| + TotalLength(p3);
      assert TotalLength(p1) == |parts[1]| + TotalLength(p2);
    }
  }

  /** `inet_addr`: the parsed value, or `INADDR_NONE`. */
  function InetAddr(s: string): (ip: u32)
    ensures ParseDottedQuad(s).None? ==> ip == INADDR_NONE
    ensures ip != INADDR_NONE ==> ParseDottedQuad(s) == Some(ip) && |s| <= 15
  {
    DottedQuadLength(s);
    match ParseDottedQuad(s)
    case Some(v) => v
    case None => INADDR_NONE
  }

  /** `a.b.c.d` written in decimal. */
  function FormatDottedQuad(a: byte, b: byte, c: byte, d: byte): string {
    NatToDec(a) + ['.'] + (NatToDec(b) + ['.'] + (NatToDec(c) + ['.'] + NatToDec(d)))
  }

  lemma OctetRoundTrip(x: byte)
    ensures ParseOctet(NatToDec(x)) == Some(x)
    ensures |NatToDec(x)| <= 3 && '.' !in NatToDec(x)
  {
    DecRoundTrip(x);
    DecLength(x, 3);
    assert Pow10(3) == 1000;
    if x == 0 {
      assert NatToDec(x) == "0";
    }
  }

  /** Parsing the decimal text of an address gives the address back; the
      text is at most 15 characters. */
  lemma DottedQuadRoundTrip(a: byte, b: byte, c: byte, d: byte)
    ensures ParseDottedQuad(FormatDottedQuad(a, b, c, d)) == Some(FromOctets(a, b, c, d))
    ensures InetAddr(FormatDottedQuad(a, b, c, d)) == FromOctets(a, b, c, d)
    ensures |FormatDottedQuad(a, b, c, d)| <= 15
  {
    OctetRoundTrip(a);
    OctetRoundTrip(b);
    OctetRoundTrip(c);
    OctetRoundTrip(d);
    SplitFour(NatToDec(a), NatToDec(b), NatToDec(c), NatToDec(d));
  }

  lemma SplitFour(sa: string, sb: string, sc: string, sd: string)
    requires '.' !in sa && '.' !in sb && '.' !in sc && '.' !in sd
    ensures Split(sa + ['.'] + (sb + ['.'] + (sc + ['.'] + sd)), '.') == [sa, sb, sc, sd]
  {
    SplitThree(sb, sc, sd);
    SplitJoin(sa, '.', sb + ['.'] + (sc + ['.'] + sd));
  }

  lemma SplitThree(sb: string, sc: string, sd: string)
    requires '.' !in sb && '.' !in sc && '.' !in sd
    ensures Split(sb + ['.'] + (sc + ['.'] + sd), '.') == [sb, sc, sd]
  {
    SplitJoin(sb, '.', sc + ['.'] + sd);
    SplitTwo(sc, sd);
  }

  lemma SplitTwo(sc: string, sd: string)
    requires '.' !in sc && '.' !in sd
    ensures Split(sc + ['.'] + sd, '.') == [sc, sd]
  {
    SplitJoin(sc, '.', sd);
    assert Split(sd, '.') == [sd];
  }

  /** Text holding any character other than digits and dots, a `:port` for
      instance, does not parse: `inet_addr` gives `INADDR_NONE`. */
  lemma ForeignCharacterRejected(s: string, i: nat)
    requires i < |s| && s[i] != '.' && !IsDigit(s[i])
    ensures ParseDottedQuad(s) == None
    ensures InetAddr(s) == INADDR_NONE
  {
  }
}
