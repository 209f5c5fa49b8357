/** The request-independent rules of the HTTP server's handlers: the
    content type of a static file, the path a static file is read from, the
    `limit` query value of the log endpoints, the numeric writes of the
    settings PATCH, and the shaping of log lines for the log queue and the
    websocket. Requests, responses, the file system and the JSON parser are
    not modelled: their results enter as parameters. */
module HttpRoutes {
  import opened Base
  import opened Decimal
  import opened NvsConfig

  // ---------------------------------------------------------------------
  // Content type by file extension

  /** `CHECK_FILE_EXTENSION`: a case-insensitive suffix test. A name shorter
      than the extension does not match. */
  predicate HasExtension(name: string, ext: string) {
    EndsWithIgnoreCase(name, ext)
  }

  /** `set_content_type_from_file`: the first matching extension decides. */
  function ContentType(path: string): string {
    if HasExtension(path, ".html") then "text/html"
    else if HasExtension(path, ".js") then "application/javascript"
    else if HasExtension(path, ".css") then "text/css"
    else if HasExtension(path, ".png") then "image/png"
    else if HasExtension(path, ".ico") then "image/x-icon"
    else if HasExtension(path, ".svg") then "text/xml"
    else "text/plain"
  }

  lemma ExtensionIgnoresCase(path: string, ext: string)
    ensures HasExtension(LowerAscii(path), ext) <==> HasExtension(path, ext)
  {
    var lower := LowerAscii(path);
    if |ext| <= |path| {
      forall i | 0 <= i < |ext|
        ensures SameLetterFromEnd(lower, ext, i) <==> SameLetterFromEnd(path, ext, i)
      {
        var j := |path| - |ext| + i;
        assert lower[j] == ToLowerAscii(path[j]);
        LowerTwice(path[j]);
      }
    }
  }

  lemma LowerTwice(c: char)
    ensures ToLowerAscii(ToLowerAscii(c)) == ToLowerAscii(c)
  {
  }

  /** Upper and lower case give the same content type. */
  lemma ContentTypeIgnoresCase(path: string)
    ensures ContentType(LowerAscii(path)) == ContentType(path)
  {
    ExtensionIgnoresCase(path, ".html");
    ExtensionIgnoresCase(path, ".js");
    ExtensionIgnoresCase(path, ".css");
    ExtensionIgnoresCase(path, ".png");
    ExtensionIgnoresCase(path, ".ico");
    ExtensionIgnoresCase(path, ".svg");
  }

  /** The character `k` places from the end decides a mismatch. */
  lemma Mismatch(path: string, ext: string, k: nat)
    requires 1 <= k <= |ext|
    requires |ext| <= |path| ==> ToLowerAscii(path[|path| - k]) != ToLowerAscii(ext[|ext| - k])
    ensures !HasExtension(path, ext)
  {
    if |ext| <= |path| {
      assert |path| - |ext| + (|ext| - k) == |path| - k;
      assert !SameLetterFromEnd(path, ext, |ext| - k);
    }
  }

  lemma HasOwnExtension(stem: string, ext: string)
    ensures HasExtension(stem + ext, ext)
  {
    var s := stem + ext;
    forall i | 0 <= i < |ext|
      ensures SameLetterFromEnd(s, ext, i)
    {
      assert s[|s| - |ext| + i] == ext[i];
    }
  }

  /** Each listed extension, in any case and after any stem, selects its
      type: no earlier extension in the list can also match. */
  lemma ContentTypeOfExtension(stem: string)
    ensures ContentType(stem + ".html") == "text/html"
    ensures ContentType(stem + ".js") == "application/javascript"
    ensures ContentType(stem + ".css") == "text/css"
    ensures ContentType(stem + ".png") == "image/png"
    ensures ContentType(stem + ".ico") == "image/x-icon"
    ensures ContentType(stem + ".svg") == "text/xml"
  {
    HasOwnExtension(stem, ".html");
    JsType(stem);
    CssType(stem);
    PngType(stem);
    IcoType(stem);
    SvgType(stem);
  }

  lemma JsType(stem: string)
    ensures ContentType(stem + ".js") == "application/javascript"
  {
    var s := stem + ".js";
    HasOwnExtension(stem, ".js");
    Mismatch(s, ".html", 1);
  }

  lemma CssType(stem: string)
    ensures ContentType(stem + ".css") == "text/css"
  {
    var s := stem + ".css";
    HasOwnExtension(stem, ".css");
    Mismatch(s, ".html", 1);
    Mismatch(s, ".js", 3);
  }

  lemma PngType(stem: string)
    ensures ContentType(stem + ".png") == "image/png"
  {
    var s := stem + ".png";
    HasOwnExtension(stem, ".png");
    Mismatch(s, ".html", 1);
    Mismatch(s, ".js", 1);
    Mismatch(s, ".css", 1);
  }

  lemma IcoType(stem: string)
    ensures ContentType(stem + ".ico") == "image/x-icon"
  {
    var s := stem + ".ico";
    HasOwnExtension(stem, ".ico");
    Mismatch(s, ".html", 1);
    Mismatch(s, ".js", 1);
    Mismatch(s, ".css", 1);
    Mismatch(s, ".png", 1);
  }

  lemma SvgType(stem: string)
    ensures ContentType(stem + ".svg") == "text/xml"
  {
    var s := stem + ".svg";
    HasOwnExtension(stem, ".svg");
    Mismatch(s, ".html", 1);
    Mismatch(s, ".js", 1);
    Mismatch(s, ".css", 1);
    Mismatch(s, ".png", 3);
    Mismatch(s, ".ico", 1);
  }

  // ---------------------------------------------------------------------
  // Static file path

  /** `ESP_VFS_PATH_MAX` of the ESP-IDF virtual file system. */
  const ESP_VFS_PATH_MAX := 15
  const FILE_PATH_MAX := ESP_VFS_PATH_MAX + 128
  /** The SPIFFS partition is mounted at the empty base path. */
  const BASE_PATH := ""
  const INDEX_PAGE := "/index.html"
  const GZ_SUFFIX := ".gz"

  /** The path `rest_common_get_handler` builds before compressing: the base
      path, then `/index.html` for a URI ending in '/' and the URI itself
      otherwise, cut by `strlcpy`/`strlcat` to fit the buffer with its NUL. */
  function RequestedPath(uri: string): (p: string)
    requires |uri| > 0
    ensures |p| <= FILE_PATH_MAX - 1
    ensures uri[|uri| - 1] == '/' ==> p == INDEX_PAGE
    ensures uri[|uri| - 1] != '/' ==> p == Prefix(uri, FILE_PATH_MAX - 1)
  {
    Prefix(BASE_PATH + (if uri[|uri| - 1] == '/' then INDEX_PAGE else uri), FILE_PATH_MAX - 1)
  }

  /** The unbounded `strcat(filepath, ".gz")`: the path it leaves and the
      number of bytes, NUL included, it stores from the start of the
      `FILE_PATH_MAX`-byte buffer. */
  function GzPathAsWritten(uri: string): (r: (string, nat))
    requires |uri| > 0
    ensures r.1 == |r.0| + 1
  {
    var p := RequestedPath(uri) + GZ_SUFFIX;
    (p, |p| + 1)
  }

  /** The bytes stored overrun the buffer exactly when the URI does not end
      in '/' and has 140 characters or more. */
  lemma GzOverflowCondition(uri: string)
    requires |uri| > 0
    ensures GzPathAsWritten(uri).1 > FILE_PATH_MAX <==> uri[|uri| - 1] != '/' && |uri| >= 140
  {
  }

  /** A 142-character URI makes `strcat` store 146 bytes into 143. */
  lemma GzOverflowExample(uri: string)
    requires |uri| == 142 && uri[|uri| - 1] != '/'
    ensures GzPathAsWritten(uri).1 == 146 && FILE_PATH_MAX == 143
  {
  }

  /** The compressed file's path, or `None` when it would not fit the buffer,
      in which case the handler answers as for a missing file. */
  function GzPath(uri: string): (r: Option<string>)
    requires |uri| > 0
    ensures r.Some? ==> |r.value| + 1 <= FILE_PATH_MAX
    ensures r.Some? ==> r.value == RequestedPath(uri) + GZ_SUFFIX
    ensures r.None? <==> GzPathAsWritten(uri).1 > FILE_PATH_MAX
  {
    var p := RequestedPath(uri);
    if |p| + |GZ_SUFFIX| + 1 <= FILE_PATH_MAX then Some(p + GZ_SUFFIX) else None
  }

  /** A URI ending in '/' serves the compressed index page as HTML. */
  lemma IndexForDirectory(uri: string)
    requires |uri| > 0 && uri[|uri| - 1] == '/'
    ensures GzPath(uri) == Some(INDEX_PAGE + GZ_SUFFIX)
    ensures ContentType(RequestedPath(uri)) == "text/html"
  {
    assert INDEX_PAGE == "/index" + ".html";
    HasOwnExtension("/index", ".html");
  }

  /** Any other URI of up to 139 characters serves `uri.gz` with the type
      of `uri`. */
  lemma CompressedFileForUri(uri: string)
    requires |uri| > 0 && uri[|uri| - 1] != '/'
    requires |uri| + |GZ_SUFFIX| < FILE_PATH_MAX
    ensures GzPath(uri) == Some(uri + GZ_SUFFIX)
    ensures ContentType(RequestedPath(uri)) == ContentType(uri)
  {
  }

  // ---------------------------------------------------------------------
  // The `limit` query value of the log endpoints

  /** Size of the buffer the `limit` value is copied into. */
  const LIMIT_VALUE_SIZE := 16

  /** The value `httpd_query_key_value` hands over, or `None` when it
      reports an error: no query, no `limit` key, or a value that does not
      fit its buffer with the NUL. */
  function QueryValue(value: Option<string>): Option<string> {
    if value.Some? && |value.value| < LIMIT_VALUE_SIZE then value else None
  }

  /** `GET_recent_logs`: 50 unless the value reads as 1..100. */
  function RecentLogsLimit(value: Option<string>): (limit: int32)
    ensures 1 <= limit <= 100
    ensures limit != 50 ==> QueryValue(value).Some? && Atoi(QueryValue(value).value) == limit
  {
    match QueryValue(value)
    case None => 50
    case Some(v) => var parsed := Atoi(v); if 0 < parsed <= 100 then parsed else 50
  }

  /** `GET_error_logs` and `GET_critical_logs`: 0 (all entries) unless the
      value reads as a positive number. */
  function ErrorLogsLimit(value: Option<string>): (limit: int32)
    ensures limit >= 0
    ensures limit != 0 ==> QueryValue(value).Some? && Atoi(QueryValue(value).value) == limit
  {
    match QueryValue(value)
    case None => 0
    case Some(v) => var parsed := Atoi(v); if parsed > 0 then parsed else 0
  }

  /** Decimal text of a 32-bit count fits the value buffer. */
  lemma CountTextFits(n: nat)
    requires n < 0x8000_0000
    ensures |NatToDec(n)| <= 10
  {
    DecLength(n, 10);
    assert Pow10(10) == 10_000_000_000;
  }

  /** Every count the recent-logs endpoint accepts is taken as written,
      and every other written count falls back to 50. */
  lemma RecentLogsLimitOfNumber(n: nat)
    requires n < 0x8000_0000
    ensures 1 <= n <= 100 ==> RecentLogsLimit(Some(NatToDec(n))) == n
    ensures (n == 0 || n > 100) ==> RecentLogsLimit(Some(NatToDec(n))) == 50
  {
    CountTextFits(n);
    AtoiOfDec(n);
  }

  /** The error and critical endpoints take every positive count as
      written ... */
  lemma ErrorLogsLimitOfNumber(n: nat)
    requires 0 < n < 0x8000_0000
    ensures ErrorLogsLimit(Some(NatToDec(n))) == n
  {
    CountTextFits(n);
    AtoiOfDec(n);
  }

  /** ... and read a negative one as "all". */
  lemma ErrorLogsLimitOfNegative(n: nat)
    requires 0 < n < 0x8000_0000
    ensures ErrorLogsLimit(Some("-" + NatToDec(n))) == 0
  {
    CountTextFits(n);
    AtoiOfNegative(n);
  }

  /** A value too long for its buffer is ignored even when it is a number
      in range with leading zeros. */
  lemma OverlongLimitIgnored(v: string)
    requires |v| >= LIMIT_VALUE_SIZE
    ensures RecentLogsLimit(Some(v)) == 50 && ErrorLogsLimit(Some(v)) == 0
  {
  }

  // ---------------------------------------------------------------------
  // Numeric fields of PATCH /api/system

  /** A numeric settings field: its JSON name, the configuration key it is
      stored under, and whether only positive values are stored. */
  datatype U16Field = U16Field(name: string, key: Key, positiveOnly: bool)

  /** The numeric fields in the order the handler looks them up. */
  const PATCH_U16_FIELDS: seq<U16Field> := [
    U16Field("stratumPort", STRATUM_PORT, false),
    U16Field("fallbackStratumPort", FALLBACK_STRATUM_PORT, false),
    U16Field("coreVoltage", ASIC_VOLTAGE, true),
    U16Field("frequency", ASIC_FREQ, true),
    U16Field("flipscreen", FLIP_SCREEN, false),
    U16Field("overheat_mode", OVERHEAT_MODE, false),
    U16Field("invertscreen", INVERT_SCREEN, false),
    U16Field("invertfanpolarity", INVERT_FAN_POLARITY, false),
    U16Field("autofanspeed", AUTO_FAN_SPEED, false),
    U16Field("fanspeed", FAN_SPEED, false),
    U16Field("autotune", AUTOTUNE_FLAG, false)
  ]

  /** Whether the handler stores field `f`, given the `valueint` of every
      field present in the request body. */
  predicate Stores(f: U16Field, body: map<string, int32>) {
    f.name in body && (!f.positiveOnly || body[f.name] > 0)
  }

  predicate DistinctKeys(fields: seq<U16Field>) {
    forall i, j :: 0 <= i < j < |fields| ==> fields[i].key != fields[j].key
  }

  /** The `nvs_config_set_u16` calls for `fields`, in order. */
  function U16Writes(fields: seq<U16Field>, body: map<string, int32>): (ws: seq<ConfigWrite>)
    ensures |ws| <= |fields|
    ensures forall w :: w in ws ==> w.SetU16?
  {
    if |fields| == 0 then []
    else
      var f := fields[0];
      (if Stores(f, body) then [SetU16(f.key, ToU16(body[f.name]))] else []) + U16Writes(fields[1..], body)
  }

  /** The numeric writes of `PATCH_update_settings`. */
  function PatchU16Writes(body: map<string, int32>): seq<ConfigWrite> {
    U16Writes(PATCH_U16_FIELDS, body)
  }

  /** A key outside the field list is never written. */
  lemma {:induction false} WrittenKeysListed(fields: seq<U16Field>, body: map<string, int32>, key: Key, v: u16)
    requires forall i :: 0 <= i < |fields| ==> fields[i].key != key
    ensures SetU16(key, v) !in U16Writes(fields, body)
  {
    if |fields| > 0 {
      WrittenKeysListed(fields[1..], body, key, v);
    }
  }

  /** With distinct keys, field `i` is written, with its value cut to 16
      bits, exactly when the handler stores it. */
  lemma {:induction false} U16WriteOf(fields: seq<U16Field>, body: map<string, int32>, i: nat, v: u16)
    requires i < |fields| && DistinctKeys(fields)
    ensures SetU16(fields[i].key, v) in U16Writes(fields, body) <==>
      Stores(fields[i], body) && v == ToU16(body[fields[i].name])
  {
    var f := fields[0];
    var head := if Stores(f, body) then [SetU16(f.key, ToU16(body[f.name]))] else [];
    assert U16Writes(fields, body) == head + U16Writes(fields[1..], body);
    if i == 0 {
      WrittenKeysListed(fields[1..], body, f.key, v);
    } else {
      assert fields[i] == fields[1..][i - 1];
      U16WriteOf(fields[1..], body, i - 1, v);
    }
  }

  lemma PatchKeysDistinct()
    ensures DistinctKeys(PATCH_U16_FIELDS)
  {
  }

  /** Core voltage and frequency are stored only when positive; the stratum
      ports are stored whatever their value, cut to 16 bits (-1 becomes 65535). */
  lemma PatchGuards(body: map<string, int32>, v: u16)
    ensures SetU16(ASIC_VOLTAGE, v) in PatchU16Writes(body) <==>
      "coreVoltage" in body && body["coreVoltage"] > 0 && v == ToU16(body["coreVoltage"])
    ensures SetU16(ASIC_FREQ, v) in PatchU16Writes(body) <==>
      "frequency" in body && body["frequency"] > 0 && v == ToU16(body["frequency"])
    ensures SetU16(STRATUM_PORT, v) in PatchU16Writes(body) <==>
      "stratumPort" in body && v == ToU16(body["stratumPort"])
  {
    PatchKeysDistinct();
    U16WriteOf(PATCH_U16_FIELDS, body, 2, v);
    U16WriteOf(PATCH_U16_FIELDS, body, 3, v);
    U16WriteOf(PATCH_U16_FIELDS, body, 0, v);
  }

  // ---------------------------------------------------------------------
  // Log lines

  const MAX_LOG_BUFFER_SIZE := 1024
  const MAX_WS_FRAME_SIZE := 1024

  /** The longest text `vsnprintf` leaves in the log buffer. */
  const LOG_TEXT_MAX := MAX_LOG_BUFFER_SIZE - 2

  /** The text `log_to_queue` queues for a formatted message (`None` when
      formatting fails): what `vsnprintf` kept of it up to the first NUL,
      with a newline added when it lacks one and there is room. */
  function LogLine(formatted: Option<string>): (line: Option<string>)
    ensures line.None? <==> formatted.None?
    ensures line.Some? ==> |line.value| <= LOG_TEXT_MAX && '\0' !in line.value
  {
    match formatted
    case None => None
    case Some(text) =>
      Some(WithNewline(CStr(Prefix(text, LOG_TEXT_MAX))))
  }

  /** The newline `log_to_queue` adds to a kept text that lacks one, when
      there is room. */
  function WithNewline(kept: string): string {
    if |kept| > 0 && kept[|kept| - 1] != '\n' && |kept| < LOG_TEXT_MAX then kept + "\n" else kept
  }

  /** The queued line is the kept text, possibly with one newline added;
      it ends in a newline unless it is empty or filled the whole buffer. */
  lemma NewlineAdded(kept: string)
    ensures var line := WithNewline(kept);
      && (line == kept || line == kept + "\n")
      && (|line| > 0 && line[|line| - 1] == '\n' <==> |kept| > 0 && (kept[|kept| - 1] == '\n' || |kept| < LOG_TEXT_MAX))
  {
    var line := WithNewline(kept);
    if line != kept {
      assert line[|line| - 1] == '\n';
    }
  }

  lemma CStrOfNulFree(s: string)
    requires '\0' !in s
    ensures CStr(s) == s
  {
  }

  /** Formatting a queued line again changes nothing. */
  lemma LogLineIdempotent(text: string)
    ensures LogLine(LogLine(Some(text))) == LogLine(Some(text))
  {
    var line := LogLine(Some(text)).value;
    CStrOfNulFree(line);
  }

  /** Short NUL-free text is kept whole: at most a newline is added. */
  lemma ShortLogKept(text: string)
    requires '\0' !in text && |text| < LOG_TEXT_MAX
    ensures LogLine(Some(text)).value[..|text|] == text
  {
    CStrOfNulFree(text);
  }

  /** `send_log_to_websocket`: the message up to its NUL, cut to leave room
      for a terminator in the frame buffer. */
  function WsPayload(message: string): (payload: string)
    ensures |payload| < MAX_WS_FRAME_SIZE && payload <= message && '\0' !in payload
  {
    Prefix(CStr(message), MAX_WS_FRAME_SIZE - 1)
  }

  /** Every queued log line reaches the websocket unchanged. */
  lemma QueuedLineSentWhole(text: string)
    ensures WsPayload(LogLine(Some(text)).value) == LogLine(Some(text)).value
  {
    CStrOfNulFree(LogLine(Some(text)).value);
  }
}
