/** The HTTP server's access decision: the Origin header's host is read as
    an IPv4 address (`extract_origin_ip_addr`) and a request is allowed when
    the device is an access point, or when both the origin and the peer are
    in a private range (`is_network_allowed`). The request itself is not
    modelled: the header value and the peer address are parameters. */
module HttpAccess {
  import opened Base
  import opened Ipv4

  const HTTP_PREFIX := "http://"
  /** Size of the buffer the Origin header is copied into. */
  const ORIGIN_BUFFER_SIZE := 128
  /** Size of the buffer the host is copied into before `inet_addr`. */
  const IP_STR_SIZE := 16

  /** `pat` occurs in `s` at position `j`. */
  predicate OccursAt(s: string, pat: string, j: nat) {
    j + |pat| <= |s| && s[j..j + |pat|] == pat
  }

  /** `strstr` from position `i`: the first place at or after `i` where
      `pat` occurs in `s`. */
  function FindFrom(s: string, pat: string, i: nat): (r: Option<nat>)
    requires i <= |s|
    ensures r.Some? ==> i <= r.value && OccursAt(s, pat, r.value)
    ensures r.Some? ==> forall j :: i <= j < r.value ==> !OccursAt(s, pat, j)
    ensures r.None? ==> forall j :: i <= j ==> !OccursAt(s, pat, j)
    decreases |s| - i
  {
    if i + |pat| > |s| then None
    else if s[i..i + |pat|] == pat then Some(i)
    else FindFrom(s, pat, i + 1)
  }

  /** The host of an Origin value: the text after the first "http://" up to
      the next '/', or to the end; `None` when there is no "http://". */
  function OriginHost(origin: string): (r: Option<string>)
    ensures r.Some? ==> '/' !in r.value
  {
    match FindFrom(origin, HTTP_PREFIX, 0)
    case None => None
    case Some(i) =>
      var rest := origin[i + |HTTP_PREFIX|..];
      if '/' in rest then Some(rest[..FirstIndex(rest, '/')]) else Some(rest)
  }

  /** `extract_origin_ip_addr`: 0 when there is no Origin header, when it
      does not fit its 128-byte buffer, when it has no "http://", or when the
      host is 16 characters or longer; otherwise what `inet_addr` makes of
      the host. */
  function ExtractOriginIp(header: Option<string>): (ip: u32)
    ensures header.None? || |header.value| >= ORIGIN_BUFFER_SIZE || OriginHost(header.value).None? ==> ip == 0
    ensures ip != 0 ==>
      && header.Some? && OriginHost(header.value).Some?
      && |OriginHost(header.value).value| < IP_STR_SIZE && ip == InetAddr(OriginHost(header.value).value)
  {
    if header.None? || |header.value| >= ORIGIN_BUFFER_SIZE then 0
    else match OriginHost(header.value)
      case None => 0
      case Some(host) => if |host| < IP_STR_SIZE then InetAddr(host) else 0
  }

  /** `is_network_allowed`. `peer` is the address `getpeername` reports
      (`None` when it fails). An origin address of 0 is replaced by the peer. */
  predicate IsNetworkAllowed(apEnabled: bool, peer: Option<u32>, origin: Option<string>) {
    if apEnabled then true
    else if peer.None? then false
    else
      var originIp := ExtractOriginIp(origin);
      var effective := if originIp == 0 then peer.value else originIp;
      IpInPrivateRange(effective) && IpInPrivateRange(peer.value)
  }

  // ---------------------------------------------------------------------
  // Properties

  /** An Origin value that starts with "http://" has its host read from
      right after the prefix. */
  lemma HostAfterPrefix(host: string, path: string)
    requires '/' !in host && (path == [] || path[0] == '/')
    ensures OriginHost(HTTP_PREFIX + host + path) == Some(host)
  {
    var origin := HTTP_PREFIX + host + path;
    assert origin[0..|HTTP_PREFIX|] == HTTP_PREFIX;
    assert FindFrom(origin, HTTP_PREFIX, 0) == Some(0);
    var rest := origin[|HTTP_PREFIX|..];
    assert rest == host + path;
    if path != [] {
      FirstSlash(host, path);
      assert rest[..|host|] == host;
      assert OriginHost(origin) == Some(rest[..FirstIndex(rest, '/')]);
    } else {
      assert rest == host;
      assert OriginHost(origin) == Some(rest);
    }
  }

  lemma {:induction false} FirstSlash(host: string, path: string)
    requires '/' !in host && |path| > 0 && path[0] == '/'
    ensures '/' in host + path && FirstIndex(host + path, '/') == |host|
  {
    assert (host + path)[|host|] == '/';
    if |host| > 0 {
      assert (host + path)[1..] == host[1..] + path;
      FirstSlash(host[1..], path);
    }
  }

  /** With the access point on, every request is allowed. */
  lemma ApModeAllowsAll(peer: Option<u32>, origin: Option<string>)
    ensures IsNetworkAllowed(true, peer, origin)
  {
  }

  /** Without an Origin header, the peer alone decides. */
  lemma NoOriginUsesPeer(peer: u32)
    ensures IsNetworkAllowed(false, Some(peer), None) <==> IpInPrivateRange(peer)
  {
  }

  /** Outside access-point mode a request is only ever allowed from a peer
      in a private range whose address `getpeername` could read. */
  lemma AllowedPeerIsPrivate(peer: Option<u32>, origin: Option<string>)
    requires IsNetworkAllowed(false, peer, origin)
    ensures peer.Some? && IpInPrivateRange(peer.value)
    ensures ExtractOriginIp(origin) != 0 ==> IpInPrivateRange(ExtractOriginIp(origin))
  {
  }

  /** For an Origin naming an IPv4 address `http://a.b.c.d[/…]` (other than
      0.0.0.0), the request is allowed exactly when both that address and the
      peer lie in RFC 1918 blocks. */
  lemma DottedOriginDecides(a: byte, b: byte, c: byte, d: byte, path: string, peer: u32)
    requires FromOctets(a, b, c, d) != 0
    requires path == [] || path[0] == '/'
    requires |path| < ORIGIN_BUFFER_SIZE - 22
    ensures var origin := HTTP_PREFIX + FormatDottedQuad(a, b, c, d) + path;
      var p := Octets(peer);
      && ExtractOriginIp(Some(origin)) == FromOctets(a, b, c, d)
      && (IsNetworkAllowed(false, Some(peer), Some(origin)) <==> Rfc1918(a, b) && Rfc1918(p[0], p[1]))
  {
    var host := FormatDottedQuad(a, b, c, d);
    DottedQuadRoundTrip(a, b, c, d);
    OctetRoundTrip(a);
    OctetRoundTrip(b);
    OctetRoundTrip(c);
    OctetRoundTrip(d);
    assert '/' !in host;
    HostAfterPrefix(host, path);
    PrivateOctets(a, b, c, d);
    PrivateRangeIsRfc1918(peer);
  }

  /** `INADDR_NONE` (255.255.255.255) is not private. */
  lemma NoneIsNotPrivate()
    ensures !IpInPrivateRange(INADDR_NONE)
  {
    LittleEndianCanonical([0xFF, 0xFF, 0xFF, 0xFF]);
    PrivateOctets(0xFF, 0xFF, 0xFF, 0xFF);
  }

  /** A short host that is not a dotted quad, `192.168.1.5:80` or
      `bitaxe.local` for instance, becomes `INADDR_NONE` and the request is
      refused whatever the peer. */
  lemma UnparsableShortHostRefused(host: string, path: string, peer: Option<u32>)
    requires '/' !in host && (path == [] || path[0] == '/')
    requires |host| < IP_STR_SIZE && |HTTP_PREFIX + host + path| < ORIGIN_BUFFER_SIZE
    requires ParseDottedQuad(host).None?
    ensures ExtractOriginIp(Some(HTTP_PREFIX + host + path)) == INADDR_NONE
    ensures !IsNetworkAllowed(false, peer, Some(HTTP_PREFIX + host + path))
  {
    HostAfterPrefix(host, path);
    NoneIsNotPrivate();
  }

  /** A host of 16 characters or more is treated like a missing Origin
      header: the origin check is skipped and a private peer is allowed. */
  lemma LongHostSkipsOriginCheck(host: string, path: string, peer: u32)
    requires '/' !in host && (path == [] || path[0] == '/')
    requires |host| >= IP_STR_SIZE && |HTTP_PREFIX + host + path| < ORIGIN_BUFFER_SIZE
    ensures ExtractOriginIp(Some(HTTP_PREFIX + host + path)) == 0
    ensures IsNetworkAllowed(false, Some(peer), Some(HTTP_PREFIX + host + path)) <==> IpInPrivateRange(peer)
  {
    HostAfterPrefix(host, path);
  }

  /** The concrete case: an Origin of `http://attacker.example.com` from a
      peer at 192.168.1.10 is allowed ... */
  lemma LongHostExample(host: string, peer: u32)
    requires host == "attacker.example.com" && peer == FromOctets(192, 168, 1, 10)
    ensures IsNetworkAllowed(false, Some(peer), Some(HTTP_PREFIX + host))
  {
    PrivateOctets(192, 168, 1, 10);
    assert HTTP_PREFIX + host == HTTP_PREFIX + host + [];
    LongHostSkipsOriginCheck(host, [], peer);
  }

  /** ... while `http://evil.example` from the same peer is refused. */
  lemma ShortHostExample(host: string, peer: u32)
    requires host == "evil.example" && peer == FromOctets(192, 168, 1, 10)
    ensures !IsNetworkAllowed(false, Some(peer), Some(HTTP_PREFIX + host))
  {
    assert HTTP_PREFIX + host == HTTP_PREFIX + host + [];
    assert host[0] == 'e';
    ForeignCharacterRejected(host, 0);
    UnparsableShortHostRefused(host, [], Some(peer));
  }

  // ---------------------------------------------------------------------
  // Corrected origin extraction

  /** The origin address with every Origin header that names no IPv4 host
      treated like a host that is not an address: an over-long header, one
      without "http://" (an `https://` origin, say) and an over-long host
      all give `INADDR_NONE`. Only a missing header gives 0. */
  function ExtractOriginIpStrict(header: Option<string>): (ip: u32)
    ensures header.None? ==> ip == 0
    ensures header.Some? && |header.value| < ORIGIN_BUFFER_SIZE && OriginHost(header.value).Some? ==>
      ip == InetAddr(OriginHost(header.value).value)
    ensures header.Some? && (|header.value| >= ORIGIN_BUFFER_SIZE || OriginHost(header.value).None?) ==>
      ip == INADDR_NONE
  {
    if header.None? then 0
    else if |header.value| >= ORIGIN_BUFFER_SIZE then INADDR_NONE
    else match OriginHost(header.value)
      case None => INADDR_NONE
      case Some(host) =>
        if |host| < IP_STR_SIZE then InetAddr(host)
        else
          DottedQuadLength(host);
          INADDR_NONE
  }

  predicate IsNetworkAllowedStrict(apEnabled: bool, peer: Option<u32>, origin: Option<string>) {
    if apEnabled then true
    else if peer.None? then false
    else
      var originIp := ExtractOriginIpStrict(origin);
      var effective := if originIp == 0 then peer.value else originIp;
      IpInPrivateRange(effective) && IpInPrivateRange(peer.value)
  }

  /** With the corrected extraction, a request carrying an Origin header is
      allowed only when the header fits its buffer and names, after
      "http://", a dotted-quad address in a private range (or 0.0.0.0),
      whatever the host's length. */
  lemma StrictOriginMustBePrivate(peer: Option<u32>, origin: string)
    requires IsNetworkAllowedStrict(false, peer, Some(origin))
    ensures |origin| < ORIGIN_BUFFER_SIZE && OriginHost(origin).Some?
    ensures var parsed := ParseDottedQuad(OriginHost(origin).value);
      parsed.Some? && (parsed.value == 0 || IpInPrivateRange(parsed.value))
  {
    NoneIsNotPrivate();
  }

  /** An `https://` origin, which the as-written check lets through on the
      peer alone, is refused. */
  lemma StrictRefusesUnreadOrigins(host: string, peer: u32)
    requires ':' !in host
    ensures !IsNetworkAllowedStrict(false, Some(peer), Some(HTTPS_PREFIX + host))
  {
    NoHttpInHttps(host);
    NoneIsNotPrivate();
  }

  // ---------------------------------------------------------------------
  // Origins without "http://"

  const HTTPS_PREFIX := "https://"

  /** An `https://` origin whose host holds no ':' contains no "http://":
      the only ':' is at position 5, where "http://" would need an 'h' at 1. */
  lemma NoHttpInHttps(host: string)
    requires ':' !in host
    ensures FindFrom(HTTPS_PREFIX + host, HTTP_PREFIX, 0).None?
    ensures OriginHost(HTTPS_PREFIX + host).None?
  {
    var s := HTTPS_PREFIX + host;
    forall j | 0 <= j
      ensures !OccursAt(s, HTTP_PREFIX, j)
    {
      if j + |HTTP_PREFIX| <= |s| {
        assert s[j..j + |HTTP_PREFIX|][4] == s[j + 4];
        assert s[j..j + |HTTP_PREFIX|][0] == s[j];
      }
    }
  }

  /** As written, an `https://` origin gives address 0, so the origin check
      is skipped and the peer alone decides. */
  lemma HttpsOriginSkipsOriginCheck(host: string, peer: u32)
    requires ':' !in host
    ensures ExtractOriginIp(Some(HTTPS_PREFIX + host)) == 0
    ensures IsNetworkAllowed(false, Some(peer), Some(HTTPS_PREFIX + host)) <==> IpInPrivateRange(peer)
  {
    NoHttpInHttps(host);
  }
}
