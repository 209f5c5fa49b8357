# acs-esp-miner core protocols in Dafny

This project models the protocol and request-handling core of the
acs-esp-miner Bitcoin-miner firmware. Each part is a pure model with
proved properties:

- **BM1397 chip protocol.** The driver talks to BM1397 ASICs over UART.
  - Command headers combine a type, a group and a command.
  - Frames consist of the preamble 0x55 0xAA, the header, a length byte,
    the payload, and a CRC: 5-bit for commands, big-endian 16-bit for jobs.
  - Also modelled: the packed `job_packet` and `nonce_response` layouts,
    the fixed commands and the `send_init` sequence, the PLL solver of
    `send_hash_frequency`, `largestPowerOfTwo`, `reverseBits` and
    `set_job_difficulty_mask`.
  - The two CRC functions are parameters (`Checksums`).
- **Display (BAP) register protocol.** The firmware talks to an external
  display over I2C.
  - Register frames are register, length, data.
  - Register read-back is validated.
  - The flags register is written only when it changes.
  - `parseSettingsData` decodes a buffer of settings records (0xFF 0xAA,
    register, length, data) into configuration writes. Records are range
    checked and errors stop the parse.
- **HTTP access and routing.**
  - The Origin-header/peer private-network check (`extract_origin_ip_addr`,
    `is_network_allowed`, `ip_in_private_range`, with `inet_addr` and
    `ntohl`).
  - The content type chosen from a file extension.
  - The static-file path and its `.gz` variant.
  - The `limit` query handling of the log endpoints (`atoi`).
  - The 16-bit configuration writes of the system PATCH handler.
  - The log-line shaping of `log_to_queue` and `send_log_to_websocket`.
- **Theme presets.**
  - The preset/name conversions and palettes.
  - Write-if-changed saving.
  - The theme PATCH handler.
  - The fallback theme list.
- **Wi-Fi status text.** The 20-byte status line `MINER_set_wifi_status`
  writes.

Configuration storage (NVS) is represented by the writes an operation makes
(`NvsConfig.ConfigWrite`). The I2C, UART and HTTP transports are replaced by
their inputs and outputs.

## Model

| member | source | states |
|---|---|---|
| Base.ToU16 | main/http_server/http_server.c:453-491 | the value stored in a 16-bit field is congruent to the input modulo 2^16 and is the input itself when it fits |
| Base.BigEndian16RoundTrip | main/lvglDisplay.c:640-643 | the two bytes `(data[0] << 8) \| data[1]` decode back to the 16-bit value they encode, and only those two bytes do |
| Base.LittleEndianRoundTrip | components/bm1397/include/bm1397.h:55-61 | a 32-bit value stored little-endian in four bytes is read back unchanged |
| Decimal.DecRoundTrip | main/main.c:201-211 | the decimal text `%d` prints reads back as the same number |
| Decimal.DecLength | main/main.c:201-211 | a number's decimal text has at most k digits exactly when the number is below 10^k |
| Decimal.NatToDecInjective | main/main.c:201-211 | different numbers print as different decimal texts |
| Decimal.Atoi | main/http_server/http_server.c:1166 | definition of newlib `atoi` (leading white space, an optional sign, the leading digits, clamped to 32 bits); AtoiOfDec, AtoiOfNegative and Saturate32 state what it returns |
| Decimal.AtoiOfDec | main/http_server/http_server.c:1166 | `atoi` of the decimal text of any non-negative 32-bit int gives that number |
| Decimal.AtoiOfNegative | main/http_server/http_server.c:1221 | `atoi` of a minus sign followed by digits gives the negative number |
| Decimal.Saturate32 | main/http_server/http_server.c:1166 | a conversion result out of 32-bit range is clamped to INT_MAX or INT_MIN; an in-range one is kept |
| Bm1397Protocol.JobBitIsBit5 | components/bm1397/bm1397.c:54 | `header & TYPE_JOB` tests exactly bit 5 of the header |
| Bm1397Protocol.HeaderDecomposes | components/bm1397/include/bm1397.h:9-20 | OR-ing a type, group and command gives their sum, each field can be recovered from the header, and the job type alone selects a job frame |
| Bm1397Protocol.HeaderInjective | components/bm1397/include/bm1397.h:9-20 | different (type, group, command) triples give different header bytes |
| Bm1397Protocol.BuildFrame | components/bm1397/bm1397.c:53-86 | a frame is data+6 bytes for jobs and data+5 for commands; it holds the preamble, the header, a length byte counting header-to-CRC, the payload, and a big-endian CRC16 or a CRC5 over header..payload |
| Bm1397Protocol.FrameRoundTrip | components/bm1397/bm1397.c:53-86 | parsing a built frame gives back its header and payload |
| Bm1397Protocol.FrameCanonical | components/bm1397/bm1397.c:53-86 | every byte string the parser accepts is exactly the frame built from what it parsed |
| Bm1397Protocol.CommandCrcFitsMask | components/bm1397/include/bm1397.h:24 | the last byte of a command frame is a CRC5 within `CRC5_MASK` |
| Bm1397Protocol.SerializeJob | components/bm1397/include/bm1397.h:45-53 | the packed job is 50 bytes with each field at its struct offset |
| Bm1397Protocol.JobRoundTrip | components/bm1397/include/bm1397.h:45-53 | decoding a packed job gives back the job |
| Bm1397Protocol.JobLayoutCanonical | components/bm1397/include/bm1397.h:45-53 | every 50-byte buffer is the packing of the job decoded from it |
| Bm1397Protocol.SerializeNonceResponse | components/bm1397/include/bm1397.h:55-61 | a nonce response is 9 bytes: preamble, little-endian nonce, midstate number, job id, crc |
| Bm1397Protocol.NonceResponseRoundTrip | components/bm1397/include/bm1397.h:55-61 | decoding a packed nonce response gives back the response |
| Bm1397Protocol.NonceResponseCanonical | components/bm1397/include/bm1397.h:55-61 | every 9-byte buffer is the packing of the response decoded from it |
| Bm1397Frequency.Clamp | components/bm1397/bm1397.c:223-229 | the request is bounded to 100..800 MHz and left alone inside that band |
| Bm1397Frequency.RoundUpToStep | components/bm1397/bm1397.c:247 | `ceil(x / 25) * 25` is the least multiple of 25 not below x |
| Bm1397Frequency.Solve | components/bm1397/bm1397.c:209-262 | definition of the PLL search; SolveClamped, FaInRange and AchievedCloseAbove state what it finds |
| Bm1397Frequency.SolveClamped | components/bm1397/bm1397.c:232-262 | every clamped request is programmed, never the default: with the band's dividers and fa in 100..200, fa·25 is the least multiple of 25 not below the request times fb·fc1·fc2 |
| Bm1397Frequency.FreqPayload | components/bm1397/bm1397.c:211-262 | the pll0 payload is six bytes: the solved parameters, or the default |
| Bm1397Frequency.FaInRange | components/bm1397/bm1397.c:232-262 | for every request, fa lies in 100..200, so the fallback branch is never taken |
| Bm1397Frequency.AchievedCloseAbove | components/bm1397/bm1397.c:247-250 | the achieved frequency is at least the clamped request and exceeds it by less than 25 / (fb·fc1·fc2) MHz |
| Bm1397Frequency.PayloadEncodesAchieved | components/bm1397/bm1397.c:253-271 | the register bytes sent decode, on the chip side, to the achieved frequency |
| Bm1397Frequency.DefaultPayloadIs200MHz | components/bm1397/bm1397.c:214 | the default pll0 payload programs 200 MHz |
| Bm1397Mask.FloorLog2 | components/bm1397/bm1397.c:191-200 | k is the exponent with 2^k <= num < 2^(k+1), or 0 for num <= 1 |
| Bm1397Mask.LargestPowerOfTwo | components/bm1397/bm1397.c:191-200 | the result is the largest power of two not above num, or 1 for num <= 1 |
| Bm1397Mask.LargestPowerOfTwoLoop | components/bm1397/bm1397.c:191-200 | the doubling loop computes that largest power of two |
| Bm1397Mask.FloorLog2Unique | components/bm1397/bm1397.c:191-200 | any k with 2^k <= n < 2^(k+1) is the exponent found |
| Bm1397Mask.MaskHasNoHoles | components/bm1397/bm1397.c:159-162 | the mask `largestPowerOfTwo(d) - 1` has exactly its low k bits set, with no holes |
| Bm1397Mask.ReverseBits | components/bm1397/bm1397.c:178-189 | bit i of the result is bit 7-i of the input |
| Bm1397Mask.ReverseBitsLoop | components/bm1397/bm1397.c:178-189 | the shifting loop computes that bit reversal |
| Bm1397Mask.ReverseBitsInvolution | components/bm1397/bm1397.c:178-189 | reversing twice gives the byte back |
| Bm1397Mask.SetJobDifficultyMask | components/bm1397/bm1397.c:154-176 | the broadcast write always carries the ticket-mask payload of difficulty 256 |
| Bm1397Mask.DifficultyIgnored | components/bm1397/bm1397.c:154-176 | every difficulty gives the same command, whose mask bytes equal the mask of difficulty 256 |
| Bm1397Commands.HeaderValues | components/bm1397/bm1397.c:88-107 | the driver's headers are 0x53, 0x52, 0x40, 0x51 and 0x21, and only 0x21 selects a job frame |
| Bm1397Commands.WriteAll | components/bm1397/bm1397.c:109-147 | each payload is sent once, in order, as a broadcast register write |
| Bm1397Commands.SendHashFrequency | components/bm1397/bm1397.c:264-271 | four broadcast writes: the divider prefix twice, then the same pll0 payload twice |
| Bm1397Commands.SendInit | components/bm1397/bm1397.c:109-147 | 14 commands: chain-inactive, set address 0, eight register writes, then the frequency program |
| Bm1397Commands.Wire | components/bm1397/bm1397.c:53-86 | the bytes on the wire are each command's frame, in order |
| Bm1397Commands.InitFramesAreCommands | components/bm1397/bm1397.c:109-147 | every init frame is a 7- or 11-byte command frame that parses back to its command |
| Bm1397Commands.FixedCommandFrames | components/bm1397/bm1397.c:88-152 | the read-address, set-address and maximum-baud frames have the expected length, header and length byte, and a 5-bit CRC |
| Bm1397Commands.WorkFrameLayout | components/bm1397/bm1397.c:203-205 | a job is a 56-byte frame with the packed job at offsets 4..53 and a big-endian CRC16 over bytes 2..53 |
| BapDisplay.SendRegisterData | main/lvglDisplay.c:123-146 | a register write fails with no-memory exactly when data+2 exceeds 512 bytes; otherwise it is register, length, data |
| BapDisplay.RegisterFrameRoundTrip | main/lvglDisplay.c:123-146 | with fewer than 256 data bytes the display decodes exactly the register and data sent |
| BapDisplay.LengthByteWraps | main/lvglDisplay.c:133 | from 256 data bytes on, the length byte wraps modulo 256 |
| BapDisplay.ReadRegister | main/lvglDisplay.c:154-210 | a read fails with no-memory when too large and passes on transport errors; a response with another register is an invalid response, and one announcing more than was asked is an invalid size; otherwise it returns exactly the announced bytes |
| BapDisplay.ReadBackOfSentFrame | main/lvglDisplay.c:154-210 | reading back a sent register frame yields the data that was sent |
| BapDisplay.SettingWrites | main/lvglDisplay.c:622-711 | definition of the writes one record causes; SettingGuards states which values each setting stores |
| BapDisplay.SettingGuards | main/lvglDisplay.c:622-711 | string settings store their text; ports store any 2-byte value; voltage, frequency and fan speed store only 1000..1250, 200..625 and <= 100; auto-fan stores 0/1 from a 1-byte record; anything else stores nothing |
| BapDisplay.BeforeNul | main/lvglDisplay.c:625 | the C string read from a buffer is its longest zero-free prefix |
| BapDisplay.ParseFrom | main/lvglDisplay.c:599-717 | the parse ends Ok, with invalid state or with invalid size; ParseStatusAfterRecords states which input gives which |
| BapDisplay.ParseSettingsLoop | main/lvglDisplay.c:599-717 | the cursor loop makes exactly the writes, and ends with exactly the status, of the record-by-record definition |
| BapDisplay.ParseEncodedRecords | main/lvglDisplay.c:599-717 | encoded records are parsed in order, each giving the writes its setting asks for |
| BapDisplay.ParseStatusAfterRecords | main/lvglDisplay.c:603-616 | five or more bytes after the records that do not start with the preamble (zero padding among them) end in invalid state after all records' writes; one to four bytes end Ok; a truncated record gives invalid size |
| BapDisplay.ParseSettingsAsWritten | main/lvglDisplay.c:599-717 | definition of the parse with strings read to the next zero byte; StringRunsPastRecord states how it differs from the bounded parse |
| BapDisplay.StringRunsPastRecord | main/lvglDisplay.c:624-625 | a string record followed by non-zero bytes: the as-written parse stores the record's data plus everything up to the next zero byte, strictly more than the record holds, while the bounded parse stores exactly the data |
| BapDisplay.GetSettings | main/lvglDisplay.c:561-597 | a buffer whose first byte is zero is reported as "no settings" (Ok, no writes); otherwise the parse's writes and status are returned |
| BapDisplay.FlagsByte | main/lvglDisplay.c:418-422 | bit 0 is the found-block flag, bit 1 startup-done and bit 2 overheat mode |
| BapDisplay.UpdateFlags | main/lvglDisplay.c:418-430 | the flags register is sent iff it differs from the last sent value, and that value is updated only on success |
| BapDisplay.FlagsSentOnce | main/lvglDisplay.c:424-430 | after a successful write the same flags are not sent again |
| Ipv4.NtohlWeighsOctets | main/http_server/http_server.c:122 | `ntohl` makes the first octet the most significant, and applying it twice is the identity |
| Ipv4.IpInPrivateRange | main/http_server/http_server.c:121-140 | definition of the private-range test; PrivateRangeIsRfc1918 and PrivateOctets state what it accepts |
| Ipv4.InetAddr | main/http_server/http_server.c:169 | text that is not a dotted quad gives INADDR_NONE; any other result is the parsed address of a text of at most 15 characters |
| Ipv4.PrivateRangeIsRfc1918 | main/http_server/http_server.c:121-140 | the three numeric ranges are exactly the 10/8, 172.16/12 and 192.168/16 blocks of section 3 of RFC 1918 |
| Ipv4.PrivateOctets | main/http_server/http_server.c:121-140 | the address a.b.c.d is private exactly when a.b lies in those blocks |
| Ipv4.SplitLength | main/http_server/http_server.c:169 | splitting text at a separator loses exactly the separators |
| Ipv4.ParseDottedQuad | main/http_server/http_server.c:169 | text that parses as an address holds only digits and dots |
| Ipv4.DottedQuadLength | main/http_server/http_server.c:165-169 | a text that parses as an address is at most 15 characters |
| Ipv4.DottedQuadRoundTrip | main/http_server/http_server.c:169 | the dotted-decimal text of any address parses back to it and is at most 15 characters |
| Ipv4.ForeignCharacterRejected | main/http_server/http_server.c:169-171 | text with any character other than digits and dots, such as a `:port`, gives INADDR_NONE |
| HttpAccess.ExtractOriginIp | main/http_server/http_server.c:142-181 | the origin address is 0 without a header, with a header of 128 bytes or more, or without "http://"; a non-zero address is `inet_addr` of a host shorter than 16 characters |
| HttpAccess.IsNetworkAllowed | main/http_server/http_server.c:183-219 | definition of the access rule; its meaning is stated by ApModeAllowsAll, NoOriginUsesPeer, AllowedPeerIsPrivate and DottedOriginDecides |
| HttpAccess.FindFrom | main/http_server/http_server.c:157 | `strstr` returns the first occurrence of the pattern, or none when the pattern does not occur |
| HttpAccess.HostAfterPrefix | main/http_server/http_server.c:156-164 | for `http://host/path` the host read is exactly the text between the prefix and the first '/' |
| HttpAccess.ApModeAllowsAll | main/http_server/http_server.c:185-188 | in access-point mode every request is allowed |
| HttpAccess.NoOriginUsesPeer | main/http_server/http_server.c:142-215 | without an Origin header the peer alone decides |
| HttpAccess.AllowedPeerIsPrivate | main/http_server/http_server.c:196-215 | outside AP mode an allowed request has a readable private peer, and a non-zero origin address is private too |
| HttpAccess.DottedOriginDecides | main/http_server/http_server.c:142-215 | for an Origin `http://a.b.c.d[/…]` the request is allowed iff both a.b and the peer lie in RFC 1918 blocks |
| HttpAccess.UnparsableShortHostRefused | main/http_server/http_server.c:165-215 | a short host that is not a dotted quad becomes INADDR_NONE and the request is refused |
| HttpAccess.LongHostSkipsOriginCheck | main/http_server/http_server.c:165-211 | a host of 16 or more characters gives origin 0, so a private peer is allowed whatever the origin |
| HttpAccess.LongHostExample | main/http_server/http_server.c:165-211 | `http://attacker.example.com` from 192.168.1.10 is allowed |
| HttpAccess.ShortHostExample | main/http_server/http_server.c:165-215 | `http://evil.example` from 192.168.1.10 is refused |
| HttpAccess.ExtractOriginIpStrict | main/http_server/http_server.c:142-181 | with the correction, 0 only without an Origin header; a header of 128 bytes or more, one without "http://" and an over-long host all give INADDR_NONE; otherwise the host goes to `inet_addr` |
| HttpAccess.StrictOriginMustBePrivate | main/http_server/http_server.c:183-219 | with the correction, an allowed "http://" origin is always a dotted quad in a private range (or 0.0.0.0) |
| HttpAccess.NoHttpInHttps | main/http_server/http_server.c:157-158 | an "https://" origin without ':' in its host contains no "http://", so no host is read from it |
| HttpAccess.HttpsOriginSkipsOriginCheck | main/http_server/http_server.c:157-211 | an "https://" origin leaves the origin address 0, so the request is allowed iff the peer is private |
| HttpAccess.StrictRefusesUnreadOrigins | main/http_server/http_server.c:142-219 | with the correction, an "https://" origin is refused whatever the peer |
| HttpRoutes.ExtensionIgnoresCase | main/http_server/http_server.c:119 | the extension test is case-insensitive |
| HttpRoutes.ContentTypeIgnoresCase | main/http_server/http_server.c:257-274 | the content type does not depend on letter case |
| HttpRoutes.HasOwnExtension | main/http_server/http_server.c:119 | every name ending in an extension passes that extension's test |
| HttpRoutes.ContentType | main/http_server/http_server.c:257-274 | definition of the content-type choice; ContentTypeOfExtension and ContentTypeIgnoresCase state what it gives |
| HttpRoutes.ContentTypeOfExtension | main/http_server/http_server.c:257-274 | .html, .js, .css, .png, .ico and .svg names get text/html, application/javascript, text/css, image/png, image/x-icon and text/xml |
| HttpRoutes.RequestedPath | main/http_server/http_server.c:313-322 | a URI ending in '/' serves /index.html; any other URI is cut to 142 characters |
| HttpRoutes.GzPathAsWritten | main/http_server/http_server.c:324 | the bytes written include the terminating NUL after the ".gz" appended without a bound |
| HttpRoutes.GzOverflowCondition | main/http_server/http_server.c:313-324 | the ".gz" append overflows the 143-byte buffer iff the URI does not end in '/' and has 140 or more characters |
| HttpRoutes.GzOverflowExample | main/http_server/http_server.c:313-324 | a 142-character URI makes the append write 146 bytes into 143 |
| HttpRoutes.GzPath | main/http_server/http_server.c:313-324 | with the correction, the compressed path is the requested path plus ".gz"; it is refused exactly when it would not fit |
| HttpRoutes.IndexForDirectory | main/http_server/http_server.c:318-323 | a directory URI serves /index.html.gz as text/html |
| HttpRoutes.CompressedFileForUri | main/http_server/http_server.c:320-324 | a short file URI serves URI.gz with the URI's own content type |
| HttpRoutes.RecentLogsLimit | main/http_server/http_server.c:1161-1171 | the recent-logs limit is in 1..100; anything other than 50 came from the query's `atoi` |
| HttpRoutes.ErrorLogsLimit | main/http_server/http_server.c:1216-1226 | the error-logs limit is non-negative; anything other than 0 came from the query's `atoi` |
| HttpRoutes.RecentLogsLimitOfNumber | main/http_server/http_server.c:1161-1171 | a decimal limit in 1..100 is used; 0 or above 100 gives the default 50 |
| HttpRoutes.ErrorLogsLimitOfNumber | main/http_server/http_server.c:1216-1226 | any positive decimal limit is used as is |
| HttpRoutes.ErrorLogsLimitOfNegative | main/http_server/http_server.c:1216-1226 | a negative limit gives the default 0 ("all") |
| HttpRoutes.OverlongLimitIgnored | main/http_server/http_server.c:1164-1165 | a value too long for the 16-byte buffer leaves both defaults |
| HttpRoutes.U16Writes | main/http_server/http_server.c:453-491 | only 16-bit writes are made, at most one per field |
| HttpRoutes.PatchU16Writes | main/http_server/http_server.c:453-491 | definition of the 16-bit writes of the PATCH handler; U16WriteOf and PatchGuards state which values are written |
| HttpRoutes.WrittenKeysListed | main/http_server/http_server.c:453-491 | no key outside the field list is ever written |
| HttpRoutes.U16WriteOf | main/http_server/http_server.c:453-491 | a field's key is written, with the value cut to 16 bits, iff the body holds the field and passes its guard |
| HttpRoutes.PatchKeysDistinct | main/http_server/http_server.c:453-491 | the eleven PATCH fields write eleven different keys |
| HttpRoutes.PatchGuards | main/http_server/http_server.c:453-473 | coreVoltage and frequency are written only when positive; stratumPort whenever present, truncated to 16 bits |
| HttpRoutes.LogLine | main/http_server/http_server.c:1007-1046 | a formatting error queues nothing; otherwise the line is NUL-free and at most 1022 characters |
| HttpRoutes.NewlineAdded | main/http_server/http_server.c:1018-1026 | the queued line is the kept text, plus a newline only when one is missing and there is room for it; it ends in a newline exactly when the kept text is non-empty and either has one or left room |
| HttpRoutes.LogLineIdempotent | main/http_server/http_server.c:1018-1026 | shaping a queued line again leaves it unchanged |
| HttpRoutes.ShortLogKept | main/http_server/http_server.c:1013-1026 | a short NUL-free message is kept whole at the start of the line |
| HttpRoutes.WsPayload | main/http_server/http_server.c:1051-1066 | the frame payload is a NUL-free prefix of the message, shorter than 1024 bytes |
| HttpRoutes.QueuedLineSentWhole | main/http_server/http_server.c:1013-1066 | every line the logger queues fits a websocket frame whole |
| ThemeApi.PresetFromName | main/http_server/theme_api.c:68-83 | every name maps to a valid preset |
| ThemeApi.PresetName | main/http_server/theme_api.c:50-65 | definition of the preset names; NameRoundTrip, NamesDistinct and OutOfRangeNamedDefault state their properties |
| ThemeApi.NameRoundTrip | main/http_server/theme_api.c:50-83 | converting a preset to its name and back gives the preset |
| ThemeApi.NamesDistinct | main/http_server/theme_api.c:50-65 | different presets have different names |
| ThemeApi.NameRecognised | main/http_server/theme_api.c:68-83 | a non-default result comes only from that preset's own name; any other name gives the default |
| ThemeApi.OutOfRangeNamedDefault | main/http_server/theme_api.c:62-63 | an out-of-range preset is named like the default |
| ThemeApi.StoreColor | main/http_server/theme_api.h:22-26 | a stored colour is a prefix of the given one that fits the 8-byte field |
| ThemeApi.InitializeTheme | main/http_server/theme_api.c:96-207 | a valid preset becomes the current preset; any other value leaves the theme unchanged |
| ThemeApi.HexColorStoredWhole | main/http_server/theme_api.h:22 | a "#RRGGBB" colour is stored whole |
| ThemeApi.PalettesFit | main/http_server/theme_api.c:96-207 | every preset's palette is five well-formed "#RRGGBB" colours, and initialising installs exactly it |
| ThemeApi.SaveTheme | main/http_server/theme_api.c:210-223 | the preset is written iff it differs from the stored one, and the theme is initialised either way |
| ThemeApi.SaveThemeIdempotent | main/http_server/theme_api.c:210-223 | saving the same preset again writes nothing and changes nothing |
| ThemeApi.ThemeNameFromUri | main/http_server/theme_api.c:291-300 | there is no name iff the URI has no '/'; a name contains no '/' and fits the 32-byte buffer |
| ThemeApi.NameAfterLastSlash | main/http_server/theme_api.c:293-300 | the name is the text after the last '/', whatever precedes it, cut to 31 characters |
| ThemeApi.PatchTheme | main/http_server/theme_api.c:285-325 | with the correction, the logged previous theme is the one in use before the request |
| ThemeApi.PatchAcceptsPresetNames | main/http_server/theme_api.c:285-325 | a URI without '/' is invalid; a request is applied iff its last segment names a preset, and then that preset's palette is installed and written only if changed |
| ThemeApi.OverlongNameRefused | main/http_server/theme_api.c:299-310 | a last segment of 32 or more characters is cut to 31 and refused |
| ThemeApi.PatchThemeAsWritten | main/http_server/theme_api.c:285-325 | definition of the handler as written; PreviousThemeIsNewTheme and PatchVariantsAgree state how it differs from the corrected one |
| ThemeApi.PatchVariantsAgree | main/http_server/theme_api.c:285-325 | the as-written and corrected handlers agree on everything except the logged previous theme |
| ThemeApi.PreviousThemeIsNewTheme | main/http_server/theme_api.c:313-321 | as written, the logged "previousTheme" is always the new theme |
| ThemeApi.PreviousThemeExample | main/http_server/theme_api.c:313-321 | switching from BITAXE_RED to SOLO_SATOSHI logs SOLO_SATOSHI as previous (corrected: BITAXE_RED) |
| ThemeApi.LastIndex | main/http_server/theme_api.c:293 | `strrchr` finds the last '/' |
| ThemeApi.FallbackThemesComplete | main/http_server/theme_api.c:397-405 | the fallback list names all six presets, each once, in enum order |
| WifiStatus.SetWifiStatus | main/main.c:190-215 | a known status replaces the line with text of at most 19 characters; an unknown one leaves it unchanged |
| WifiStatus.Message | main/main.c:190-215 | definition of the status texts; ShownReadBack, PasswordLineComplete, NoApLineComplete and ConnectionLines state what is shown |
| WifiStatus.ShownReadBack | main/main.c:190-215 | whatever the numbers, the text kept still tells which case occurred |
| WifiStatus.PasswordLineComplete | main/main.c:205-208 | the password-error line is shown whole iff the retry count is below 100 |
| WifiStatus.NoApLineComplete | main/main.c:202-204 | the no-AP line is shown whole for retry counts below 100000 |
| WifiStatus.ConnectionLines | main/main.c:193-198 | the connecting and connected messages are shown whole |

## Left out

- The transports are not modelled: UART, I2C, the HTTP server, SPIFFS files, the NVS flash store, the log database and FreeRTOS queues. Operations take their inputs and return the bytes or configuration writes they would hand on. `malloc` failure is not modelled either.
- The CRC5 and CRC16 functions (`crc5`, `crc16_false`) are defined outside the BM1397 driver. They are parameters; only their output widths are used.
- `reset_BM1397`, `init_BM1397` and the UART setup are GPIO/UART calls and are not modelled.
- Bm1397Frequency.Solve: the request is taken in whole MHz rather than as a `float`. The achieved frequency is exact (`real`), not single-precision.
- The `LVGL_REG_SETTINGS_*` and other display register numbers are defined in a header that is not part of this model, so the register map is a parameter. The throttles and tick counters of the display functions are not modelled.
- `lvglReadRegisterData` writes a terminating zero after the copied data. That write is not modelled.
- Only the flags register of `lvglUpdateDisplayDeviceStatus` is modelled. The board-info and clock-sync registers are left out, and so are the other `lvglUpdateDisplay*` functions (float and statistics payloads).
- `inet_addr` is modelled as a strict dotted-decimal parser. lwIP also accepts octal, hexadecimal and shortened forms, and text that continues after white space (such as `10.0.0.1 x`); these are not modelled.
- `getpeername` and the IPv6-mapped peer address are replaced by an optional IPv4 peer parameter.
- HttpRoutes.HasExtension: a name shorter than the extension is treated as not matching. The C macro indexes before the start of the string in that case.
- `ESP_VFS_PATH_MAX` comes from ESP-IDF. It is taken as 15, which makes `FILE_PATH_MAX` 143.
- The response headers (Cache-Control, Content-Encoding), file chunking and the 404 path of `rest_common_get_handler` are not modelled.
- The query-string extraction of `httpd_query_key_value` is not modelled: the raw `limit` value is a parameter. The critical-events limit (lines 1273-1283) follows the error-logs rule and is covered by `ErrorLogsLimit`.
- The PATCH handler's string fields, `presetName` and the JSON response are not modelled; only its 16-bit writes are. `valueint` is taken as the 32-bit integer cJSON provides.
- The theme-change log's JSON text and its 256-byte bound, the database calls, the BAP theme message, and the GET and list JSON bodies are not modelled.
- `loadThemefromNVS` and the theme persistence in the database are not modelled.
- The job builder, result matcher and mining pipeline are not part of this model.
- `MINER_set_wifi_status` logs a warning for an unknown status. The warning is not modelled.
- Bm1397Commands.SendReadAddress, SendChainInactive, SetChipAddress, SetMaxBaud and SendWork: these have no contract of their own. Their frames are described by `FixedCommandFrames` and `WorkFrameLayout`.
- BapDisplay.ParseSettingsLoop, BapDisplay.GetSettings: string values are bounded by the record's length, while the source reads them to the next zero byte (see Findings and `ParseSettingsAsWritten`).
- Bm1397Protocol.BuildFrame: requires at most 249 payload bytes. The source's `uint8_t total_length` wraps for `data_len` 250..255; that wrap is not modelled, and the driver never sends such payloads.
- A `string` stands for a C byte string, one character per byte. No encoding is modelled.
- Concurrency is not modelled: each call runs alone. For example, `log_to_queue` formats into one static `log_buffer` that any logging task may use (http_server.c:1005-1038).
- HttpRoutes.Stores: tests `f.name in body` exactly, while `cJSON_GetObjectItem` matches keys case-insensitively; a body with "CoreVoltage" is not modelled as setting the voltage.

## Findings

| source | as written | input that shows it | evidently intended | confidence | as-written member | corrected member |
|---|---|---|---|---|---|---|
| main/lvglDisplay.c:624-671 | string settings are stored with `(const char*)data`, which reads to the next zero byte, past the record's length | `FF AA 01 03 'a' 'b' 'c' FF AA 02 01 'x' 00` (hostname "abc", then SSID "x") stores the hostname as "abc" followed by the SSID record's bytes | store exactly the record's `len` bytes | high, not executed | BapDisplay.StringRunsPastRecord | BapDisplay.ParseEncodedRecords |
| main/http_server/http_server.c:165-211 | a host of 16 or more characters leaves the origin address 0, and 0 is replaced by the peer, so the origin check is skipped | Origin `http://attacker.example.com` from peer 192.168.1.10 is allowed, while `http://evil.example` is refused; an Origin of 128 bytes or more is skipped the same way | an over-long host or header is rejected like any other host that is not an address | high, not executed | HttpAccess.LongHostExample | HttpAccess.ExtractOriginIpStrict |
| main/http_server/http_server.c:313-324 | `strcat(filepath, ".gz")` follows a `strlcat` that may already fill the 143-byte buffer | a 142-character URI not ending in '/' makes 146 bytes be written into 143 | refuse, or bound, the compressed path when it does not fit | high, not executed | HttpRoutes.GzOverflowExample | HttpRoutes.GzPath |
| main/http_server/theme_api.c:313-321 | the "previousTheme" of the theme-change log is read after `saveThemetoNVS` has already switched the theme | switching from THEME_BITAXE_RED to THEME_SOLO_SATOSHI logs previousTheme THEME_SOLO_SATOSHI | log the theme in use before the change | high, not executed | ThemeApi.PreviousThemeExample | ThemeApi.PatchTheme |
| main/http_server/http_server.c:157-211 | only an "http://" origin is read; any other origin, such as "https://…", leaves the origin address 0, which is replaced by the peer | Origin `https://evil.example` from peer 192.168.1.10 is allowed | refuse an Origin that names no readable address | medium, not executed | HttpAccess.HttpsOriginSkipsOriginCheck | HttpAccess.StrictRefusesUnreadOrigins |
