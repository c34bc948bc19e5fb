# Clash subscription converter — a Dafny model

The worker (`worker.js`) turns proxy share links into a Clash configuration. A
`POST /convert` request carries a `subscriptionUrl`: an http(s) address to fetch,
a list of `vmess://`, `ss://` and `trojan://` links, or the base64 of such a list.
The handler then:

- splits the subscription body into links;
- decodes each link into a proxy record with `parseVmess`, `parseShadowsocks`
  or `parseTrojan`;
- builds the configuration object in `convertToClash`, with three policy
  groups and seven rules;
- renders it as YAML in `generateClashYAML`;
- answers with a download link `/clash/<id>`, where the id holds the document
  itself as `encodeURIComponent(btoa(yaml))`.

A `GET /clash/<id>` request reads the document back with
`atob(decodeURIComponent(id))`.

The model is split into modules:

- `Wrappers`: `Option` and `Result`.
- `Text`: the ECMAScript string operations the worker uses:
  - `split` on one character, `join`, `startsWith`, `includes`;
  - `trim`, over ECMAScript's WhiteSpace and LineTerminator characters;
  - the UTF-16 `length`;
  - decimal numerals.
- `JsValue`: the JavaScript values `JSON.parse` yields, plus `undefined` and
  `NaN`, with the operations applied to them:
  - truthiness;
  - `String(v)`;
  - property access;
  - object spread;
  - `parseInt` (section 19.2.5 of ECMA-262).
- `Utf8`: UTF-8 encoding and the lossy UTF-8 decoder of the WHATWG Encoding
  standard.
- `Base64`: `atob` and `btoa` of the HTML standard, over the alphabet of
  section 4 of RFC 4648.
- `Percent`: the WHATWG percent-encode sets, `encodeURIComponent`, and
  `decodeURIComponent`, which throws on a bad escape.
- `Url`: `new URL(link)` of the WHATWG URL standard (the basic URL parser) for
  the non-special `ss` and `trojan` schemes. It exposes `username`,
  `hostname`, `port`, `hash` and `searchParams.get`.
- `Decoders`: the three link decoders. `JSON.parse` is a parameter.
- `Convert`: `convertToClash`, as a method whose loop is proved against a
  function of the accepted records.
- `Yaml`: `generateClashYAML`. The clock and `JSON.stringify(x, null, 2)` are
  parameters.
- `Subscription`: the splitter of the request handler, as a method proved
  against a function.
- `Download`: the link codec and the download route.
- `Pipeline`: the conversion handler from its request fields to its reply.

## Where SIP002 and the code disagree

Take a shadowsocks link whose base64 userinfo ends in `=` padding
(`ss://YWVzLTI1Ni1nY206cGFzczEyMw==@host:8388`). A SIP002 producer that pads
its base64 means method `aes-256-gcm` and password `pass123` by it.

The code does something else:

- `new URL` percent-encodes every `=` of the userinfo as `%3D`, so
  `url.username` holds `%3D`.
- `atob(url.username)` then throws.
- The fallback branch (worker.js:248-256) finds no `:` in the username.

The result is method `aes-256-gcm` with the still-encoded base64 text as the
password. The model follows the code: see
`Decoders.ShadowsocksPaddedUserinfo` and `Decoders.ShadowsocksFallback`.

Unpadded SIP002 userinfo decodes to the method and password it encodes: see
`Decoders.ShadowsocksOfParts`.

## Model

| member | source | states |
|---|---|---|
| Subscription.SplitBody | worker.js:86-102 | The splitter assigns `servers` exactly as `Servers` says: the atob branch when the body has no `://` and is longer than 20 code units, the caught-exception branch, and the plain branch. Every line it keeps is non-blank and holds no line break. |
| Subscription.NonBlank | worker.js:94 | The filter never keeps more lines than it is given. |
| Subscription.NonBlankLinesSingle | worker.js:94-101 | Every line kept from a text is one line of it (no `\n`) and does not trim to the empty string. |
| Subscription.NonBlankMember | worker.js:94 | A line is kept if and only if it is one of the input lines and is not blank. |
| Subscription.NonBlankAppend | worker.js:94 | The filter keeps the order: filtering two runs of lines is filtering each and concatenating. |
| Subscription.NonBlankAll | worker.js:94 | Lines none of which is blank are all kept, untrimmed. |
| Subscription.EncodedLooksEncoded | worker.js:92-93 | Base64 text longer than 20 characters passes the encoded-body test and is its own trim. |
| Subscription.EncodedBody | worker.js:92-94 | The base64 of a list of non-blank links, when longer than 20 characters, splits back into exactly those links in order. |
| Subscription.PlainBody | worker.js:92-97 | A body in which some line holds `://` is split as it is, into its lines in order. |
| Subscription.UndecodableBody | worker.js:99-101 | A body that looks encoded but holds a character atob refuses falls back to splitting the body itself. |
| Convert.ConvertToClash | worker.js:141-214 | The loop fails with the no-proxies message exactly when no line yields an accepted record. Otherwise it returns the configuration of the accepted records in input order, with the given name, the three groups and the seven rules. |
| Convert.Check | worker.js:166-172 | A record is accepted if and only if the decoder returned one (not `null`) with a truthy name and a truthy server, and then it is that record. |
| Convert.Decode | worker.js:151-164 | Only the `vmess://`, `ss://` and `trojan://` prefixes select a decoder; `vless://` and any other prefix are skipped. |
| Convert.Classify | worker.js:145-175 | A line is skipped as blank if and only if it trims to nothing. A non-blank line is skipped as unsupported if and only if its prefix is none of the three. An accepted record comes from a supported line and has a truthy name and server. |
| Convert.Kept | worker.js:145-176 | The loop keeps at most one record per line. |
| Convert.AcceptedProxies | worker.js:166-168 | Every record `convertToClash` keeps has a truthy name and server. |
| Convert.KeptAppend | worker.js:145-176 | The records of two runs of lines are the records of the first followed by those of the second. |
| Convert.KeptStep | worker.js:145-176 | One more line appends that line's record, if it is accepted, and nothing otherwise. |
| Convert.KeptDropped | worker.js:173-175 | A line that yields no record (blank, unsupported, throwing or rejected) changes nothing, wherever it stands: one bad link drops only itself. |
| Convert.DroppedLine | worker.js:148-175 | The same, stated for the converter's own classification of lines. |
| Convert.KeptMembership | worker.js:145-176 | A record is kept if and only if some line is accepted with it. |
| Convert.KeptNone | worker.js:178-180 | When no line is accepted, no record is kept. |
| Convert.UnsupportedOnly | worker.js:157-180 | A batch without a supported prefix keeps no record, so the conversion fails. |
| Convert.Names | worker.js:168 | `proxyNames` holds the name of each kept record, in order. |
| Convert.Groups | worker.js:185-203 | There are three policy groups. |
| Convert.GroupMembers | worker.js:185-203 | The selector offers auto-select, direct and every node. The url-test group tests exactly the nodes, probing the gstatic URL every 300 seconds. The direct group holds `DIRECT`. Every member of a group is a node, `DIRECT` or the name of a group. |
| Convert.RulesText | worker.js:204-212 | There are seven rules, from the local-domain rule to the catch-all `MATCH` to the selector. |
| Convert.RulesTarget | worker.js:204-212 | The last comma field of each rule is the policy it was written with. |
| Convert.RulePolicies | worker.js:205-211 | The first five rules route to `DIRECT`, the GeoIP rule to the direct group and the last to the selector. |
| Convert.TargetOf | worker.js:204-212 | A policy without a comma is the last comma field of a rule. |
| Convert.ConfigOf | worker.js:182-213 | The configuration carries the given name, exactly the given records, three groups and the fixed rules. |
| Convert.ConfigName | worker.js:105 | `configName \|\| 'My Clash Config'` is always truthy and is the requested name when that one is truthy. |
| Decoders.ParseVmess | worker.js:216-231 | A vmess link yields a vmess record or an exception. Malformed base64 after `vmess://` throws; otherwise the result is that of the decoded JSON text. |
| Decoders.VmessOfText | worker.js:217 | Text that `JSON.parse` rejects makes the decoder throw. |
| Decoders.VmessFromJson | worker.js:217-230 | Reading the fields throws if and only if the parsed value is `null` or `undefined`; otherwise a vmess record results. |
| Decoders.VmessOfEncodedText | worker.js:217 | A link that carries the base64 of a binary string hands exactly that string to `JSON.parse`. |
| Decoders.VmessUtf8Text | worker.js:217 | A JSON text with any non-ASCII character, carried as the base64 of its UTF-8 bytes, reaches `JSON.parse` as a different, longer text. |
| Decoders.VmessName | worker.js:219-221 | The name is `ps` when truthy, else `add:port`; it is always truthy. The server is `add`. |
| Decoders.VmessSettings | worker.js:226-227 | The network defaults to `tcp`, and `tls` holds if and only if the field is the string `tls`. |
| Decoders.VmessNumbers | worker.js:222-224 | The port and the alterId are `parseInt` of the text of `port` and of `aid \|\| 0`. |
| Decoders.VmessPort | worker.js:222 | A port written as a JSON number or as its decimal string comes out as that integer. |
| Decoders.VmessAlterId | worker.js:224 | A non-zero alterId, as a number or a decimal string, comes out as that integer. |
| Decoders.VmessAlterIdDefault | worker.js:224 | Without a truthy `aid`, the alterId is 0. |
| Decoders.VmessWsOpts | worker.js:228-229 | `ws-opts` is present if and only if `path` or `host` is truthy. With a host, it is the raw `ws-opts` object with `headers` set to `{Host: host}`, and otherwise unchanged, so the `path` is lost unless the raw object had one. With only a path, it is `{path}`. |
| Decoders.MethodPassword | worker.js:241-251 | The destructured method and password hold no colon. |
| Decoders.ParseShadowsocks | worker.js:233-280 | The result is `null` if and only if `new URL` throws; otherwise it is the ss record built from the parsed URL. |
| Decoders.ShadowsocksFromUrl | worker.js:268-275 | The record's server is `url.hostname`. |
| Decoders.ShadowsocksOfParts | worker.js:235-275 | A SIP002 link `ss://base64(method:password)@host:port#name` without padding or `/` in the base64 yields that method, password, host, port and name. |
| Decoders.CredentialsOfBase64 | worker.js:240-242 | The base64 of `method:password` decodes to that method and password. |
| Decoders.ShadowsocksFallback | worker.js:248-256 | When `atob(url.username)` throws, the method is always `aes-256-gcm` and the password is the username: the colon test of the fallback never holds on a parsed username. |
| Decoders.ShadowsocksPaddedUserinfo | worker.js:235-256 | A userinfo with `=` padding comes out of the URL parser percent-encoded. The decoder then uses `aes-256-gcm` with the encoded text, which holds a `%`, as the password. |
| Decoders.ShadowsocksBadEscape | worker.js:259-266 | A name that `decodeURIComponent` rejects is kept as written after the `#`. |
| Decoders.ShadowsocksLink | worker.js:233-275 | A well-formed ss link yields the record of the URL of its parts. |
| Decoders.ParseTrojan | worker.js:282-292 | A trojan link yields a trojan record or an exception. It throws when `new URL` throws; otherwise the result is the record built from the parsed URL. |
| Decoders.TrojanFromUrl | worker.js:284-291 | The decoder throws if and only if the hash does not decode. Otherwise the server is `url.hostname` and the password is `url.username`. |
| Decoders.TrojanFromUrlNamed | worker.js:284-291 | With a hash that decodes to a non-empty name, the record has that name, the host, the port, the username as the password, and the `sni` parameter, or the host when that is absent or empty. |
| Decoders.TrojanOfParts | worker.js:282-292 | A trojan link built from parts yields the name, the encoded host, the port, the encoded userinfo as the password, and the SNI of its query or else the host. |
| Decoders.TrojanSni | worker.js:290 | `?sni=value` sets the SNI to that value. |
| Decoders.TrojanBadEscape | worker.js:285 | A `%` in the name that starts no escape makes the trojan decoder throw, so the line is dropped. |
| Decoders.TrojanLink | worker.js:282-292 | A well-formed trojan link yields the record of the URL of its parts. |
| Decoders.PortTextValue | worker.js:272 | `parseInt(url.port)` is the port number, or `NaN` when the link has none. |
| Decoders.HashDecodes | worker.js:285 | A non-empty name without `%` survives `url.hash.slice(1)` and `decodeURIComponent`. |
| Decoders.LinkUrl | worker.js:283 | The URL of a link's parts has the port of its port text and an empty password. |
| Decoders.ParseLinkNoColon | worker.js:283 | `new URL` takes a link without a colon in its userinfo apart into that URL. |
| Decoders.Base64Userinfo | worker.js:235-240 | Base64 text without `/` is a well-formed userinfo without a colon. |
| Decoders.Base64Unescaped | worker.js:235-240 | Base64 text without `/` or `=` passes the userinfo percent-encoding unchanged. |
| Yaml.ItemLines | worker.js:319-322 | An item is `'  - '` before the first line of its JSON text and four spaces before each other line; no item line holds a line break. |
| Yaml.ItemJoin | worker.js:319-322 | The item text is its lines joined with line breaks. |
| Yaml.BlockLines | worker.js:319-322 | A list of items is at least one line, and none holds a line break. |
| Yaml.BlockJoin | worker.js:319-322 | Joining the items is joining their lines. |
| Yaml.DocumentJoin | worker.js:294-328 | The generated document is its lines joined with line breaks. |
| Yaml.DocumentSingleLines | worker.js:294-328 | No line of the document holds a line break when the name, the time and the rules hold none. |
| Yaml.GenerateLines | worker.js:294-328 | Splitting the document at line breaks gives back its lines. |
| Yaml.DocumentHead | worker.js:295-319 | The document opens with the title, the name and the time, then the fixed settings ending in `proxies:`, then the proxy lines, an empty line and `proxy-groups:`. |
| Yaml.DocumentTail | worker.js:324-326 | The document closes with `rules:`, one `  - ` line per rule in order (one empty line when there are none) and a final line break. |
| Yaml.HeadShape | worker.js:295-321 | The head lines, position by position. |
| Yaml.TailShape | worker.js:324-326 | The tail lines, position by position. |
| Yaml.SettingsEnd | worker.js:298-318 | The fixed block has 21 lines and ends with `proxies:`. |
| Yaml.Items | worker.js:319-322 | One item per text. |
| Yaml.ProxyTexts | worker.js:319 | One JSON text per proxy. |
| Yaml.GroupTexts | worker.js:322 | One JSON text per group. |
| Download.EncodeConfig | worker.js:109 | The link encoding throws if and only if the document has a character above U+00FF. |
| Download.DecodeConfig | worker.js:39 | What the route decodes is a binary string. |
| Download.ConfigRoundTrip | worker.js:109 | For binary strings, the route's decoding undoes the link encoding. |
| Download.GeneratedNotLatin1 | worker.js:295 | Character 8 of every generated document is U+914D, so the document is not a binary string. |
| Download.EncodeGeneratedFails | worker.js:106-109 | `btoa` throws on every generated document. |
| Download.Utf8ConfigRoundTrip | worker.js:109 | The corrected codec, going through UTF-8 bytes, round-trips every document. |
| Download.DownloadResponse | worker.js:33-53 | An empty id is the invalid-id 400; otherwise the route fails if and only if decoding the id fails. |
| Download.LinkIdRead | worker.js:110 | A link id is non-empty and holds no `/`, so the route reads back exactly the id. |
| Download.DownloadOfLink | worker.js:30-53 | With the codec as written, a link made from a non-empty binary string downloads that string. |
| Download.DownloadOfGenerated | worker.js:30-53 | With the corrected codec, every generated document downloads as it was generated. |
| Download.Before | worker.js:33 | The text up to a separator is a prefix of the path. |
| Pipeline.HandleConvert | worker.js:57-136 | The handler returns what `ConvertReply` says. An empty input is the 400. No accepted record is a 500 with the no-proxies message. An encoder that throws is a 500 with its message. Otherwise it answers with the configuration, the document and `origin + '/clash/' + id`. |
| Pipeline.AsWrittenNeverConverts | worker.js:105-135 | With `encodeURIComponent(btoa(yaml))` as written, no request is ever converted. A request with an input and an accepted record is a 500 carrying the message `btoa` throws. |
| Pipeline.CorrectedConverts | worker.js:105-123 | With the corrected encoder, a request with an input is converted if and only if some record is accepted, and otherwise gets the no-proxies 500. The reply carries the configuration of the accepted records and its document, and its link downloads that document. |
| JsValue.Lookup | worker.js:219-229 | The value is that of the first property of that name, and `undefined` when there is none. |
| JsValue.Get | worker.js:219-229 | Reading a property throws if and only if the value is `null` or `undefined`; on an object it is the first property of that name. |
| JsValue.Put | worker.js:229 | Setting a property makes it read back the new value and leaves every other property as it was. |
| JsValue.Spread | worker.js:229 | Spreading an object copies its properties; spreading `null`, `undefined`, a number or a boolean copies nothing. |
| JsValue.ParseIntOfNumeral | worker.js:272 | `parseInt` reads back the decimal numeral of every integer. |
| JsValue.ParseIntOfNumber | worker.js:222-224 | `parseInt(String(v))` of an integer or of its decimal string is that integer. |
| JsValue.ParseIntNoDigits | worker.js:272 | `parseInt` of a text without a sign, a digit or white space up front is `NaN` (the empty port, `undefined`, `null`). |
| JsValue.ParseIntDigit | worker.js:222 | A text that starts with a digit is read by the unsigned steps alone. |
| JsValue.ParseIntMinus | worker.js:222 | A leading minus negates the value the unsigned steps read. |
| JsValue.ParseUnsignedOfNumeral | worker.js:222 | The unsigned steps read back the decimal numeral of a natural number followed by a non-digit. |
| JsValue.DigitRunOfDigits | worker.js:222 | The run of digits of a numeral followed by a non-digit is the whole numeral. |
| Text.Split | worker.js:94 | `split` never returns an empty list. |
| Text.SplitParts | worker.js:241-242 | The text holds the separator if and only if it splits into two parts or more, and no part holds the separator. |
| Text.SplitJoin | worker.js:94 | Splitting a joined list of parts, none of which holds the separator, gives back the parts. |
| Text.SplitConcat | worker.js:242 | Splitting distributes over a separator between two texts. |
| Text.SplitNoSeparator | worker.js:242 | A text without the separator splits into itself alone. |
| Text.JoinAppend | worker.js:319-325 | Joining two non-empty runs of parts is joining each and putting the separator between them. |
| Text.JoinPrefixed | worker.js:319 | Putting a prefix after each separator and in front of the whole is prefixing every part. |
| Text.ContainsJoin | worker.js:92 | A joined text contains whatever any of its parts contains. |
| Text.TrimStartShape | worker.js:94 | `trimStart` drops the longest run of white space at the start. |
| Text.TrimEndShape | worker.js:94 | `trimEnd` drops the longest run of white space at the end. |
| Text.TrimEmptyIffBlank | worker.js:94 | A string trims to nothing if and only if all of it is white space. |
| Text.TrimWithoutWhiteSpace | worker.js:93 | A text without white space trims to itself. |
| Text.Utf16Length | worker.js:92 | `length` counts one or two code units per character: exactly the number of characters when every character is in the Basic Multilingual Plane, more otherwise. |
| Text.Utf16LengthAppend | worker.js:92 | The length of a concatenation is the sum of the lengths, and one character counts 2 above U+FFFF and 1 otherwise. |
| Text.NatToString | worker.js:269 | A numeral is a non-empty string of digits without a leading zero. |
| Text.NatToStringValue | worker.js:219-222 | Reading a numeral back gives the number it was made from. |
| Base64.Btoa | worker.js:109 | `btoa` throws if and only if some character is above U+00FF. Otherwise it produces a multiple of four characters from the alphabet and `=`. |
| Base64.Atob | worker.js:93 | `atob` produces a binary string. |
| Base64.AtobIgnoresWhiteSpace | worker.js:93 | `atob` ignores ASCII white space anywhere in its input. |
| Base64.AtobUnpadded | worker.js:217 | `atob` accepts the encoding without its `=` padding and gives back the text. |
| Base64.AtobRejects | worker.js:93 | A character that is not white space, not `=` and not in the alphabet makes `atob` throw. |
| Base64.AtobBtoa | worker.js:109 | `atob(btoa(s)) == s` for every binary string. |
| Base64.DecodeEncodeDigits | worker.js:109 | Decoding the unpadded digits of an encoding gives back the text. |
| Base64.GroupRoundTrip | worker.js:109 | Each group of one to three bytes round-trips through its digits. |
| Base64.StripPaddingOfEncoding | worker.js:109 | Removing the padding of an encoding leaves its digits. |
| Base64.PaddedDigits | worker.js:109 | The padded encoding has a length that is a multiple of four, and only alphabet characters and `=`. |
| Base64.RemoveAsciiWhiteSpace | worker.js:93 | Removing white space leaves no white space and keeps every other character. |
| Base64.DigitValue | worker.js:93 | Each alphabet character has a six-bit value whose digit is that character. |
| Utf8.EncodeCharWellFormed | worker.js:109 | Every character encodes to a well-formed sequence that decodes back to it. |
| Utf8.EncodeCharInjective | worker.js:109 | Different characters have different encodings. |
| Utf8.DecodeLossyEncode | worker.js:290 | The Encoding standard's decoder reads back every encoding. |
| Utf8.BinaryBytes | worker.js:39 | The bytes of a binary string make that string again. |
| Utf8.EncodeLonger | worker.js:217 | A text with a character outside ASCII has more UTF-8 bytes than characters. |
| Percent.DecodeEncodeURIComponent | worker.js:109 | `decodeURIComponent(encodeURIComponent(s)) == s` for every well-formed string. |
| Percent.DecodePercentEncode | worker.js:285 | `decodeURIComponent` undoes the URL parser's percent-encoding of a fragment. |
| Percent.DecodeWithoutEscapes | worker.js:285 | Text without `%` decodes to itself. |
| Percent.DecodeRejectsBadEscape | worker.js:285 | A `%` that starts no two-digit escape makes `decodeURIComponent` throw. |
| Percent.PercentEncodeUnchanged | worker.js:283 | Text with nothing in the encode set is left as it is. |
| Percent.PercentEncodeEscapes | worker.js:235-240 | A character of the encode set leaves a `%` in the encoding. |
| Percent.PercentEncodeAbsent | worker.js:235-241 | Encoding introduces no character other than `%` and hexadecimal digits. |
| Percent.PercentEncodeOmits | worker.js:109-110 | An encoded character such as `/` never appears in the encoding. |
| Percent.EscapeBytesAt | worker.js:39 | The escapes of a byte sequence decode position by position to those bytes. |
| Url.ParseLink | worker.js:283 | `new URL` takes a well-formed link apart. The username and password are the userinfo split at its first colon; the host, query and fragment come back percent-encoded with their own sets, and the port is the port number. |
| Url.Parse | worker.js:283 | A parsed URL's username holds no colon. |
| Url.ParsePort | worker.js:288 | A parsed port is at most 65535. |
| Url.ParsePortOf | worker.js:288 | A port of digits up to 65535 parses as its value, and an empty one as no port. |
| Url.FormGet | worker.js:290 | `searchParams.get` returns the value of the first pair of that name, and `null` if and only if there is none. |
| Url.FormGetSingle | worker.js:290 | The query `name=value`, with nothing to decode, gives back the value. |
| Url.FormDecodeUnchanged | worker.js:290 | Form decoding leaves text without `+` and `%` as it is. |
| Url.LastIndexOf | worker.js:235 | The userinfo ends at the last `@` of the authority. |

## Left out

- Routing is not modelled: method and path dispatch, the OPTIONS/CORS answer,
  the response headers, the 404 and the HTML page (worker.js:1-27, 138,
  330-445). These are transport and presentation, not conversion.
- `fetch` of a remote subscription is a parameter: the `fetched` field holds
  the text the server returned. Network failures and the `await` are not
  modelled.
- `request.json()` and the JSON body are replaced by the request's fields.
  A `subscriptionUrl` that is not a string is not modelled.
- `JSON.parse`, `JSON.stringify(x, null, 2)` and `new Date().toISOString()`
  are parameters of the model. Their own behaviour is not modelled.
- The message of the exception `btoa` throws is a parameter.
- `console.log` and `console.error` are left out; they have no effect on the
  result.
- Numbers are integers. Non-integer JSON numbers and `String` of a fractional
  or exponent number are not modelled.
- Objects are ordered lists of properties in insertion order. The ECMAScript
  rule that integer-like keys come first, and duplicate keys in parsed JSON,
  are not modelled.
- Spreading a string into an object is modelled one character per property.
  Characters outside the Basic Multilingual Plane, which take two UTF-16
  properties, are not modelled.
- `Url.Parse` covers non-special schemes with an authority and an opaque
  host. IPv6 `[...]` hosts and the other failure paths of the WHATWG parser
  are not modelled, and a bracket in the host is a failure.
- `Url.ParseLink`: the round trip is stated only for the well-formed parts
  `WellFormedParts` describes.
- `JsValue.ParseIntOfNumeral`: stated for the whole numeral alone.
  `ParseUnsignedOfNumeral` covers a numeral followed by other text.
- Strings are sequences of Unicode scalar values. Lone surrogates, on which
  `encodeURIComponent` throws and `new URL` substitutes U+FFFD, are not
  modelled.
- `Download.EncodeConfig`: the id is `None` when `btoa` throws; the exception
  object itself is not modelled.

## Findings

| source | as written | input that shows it | evidently intended | confidence | as-written member | corrected member |
|---|---|---|---|---|---|---|
| worker.js:109 | `encodeURIComponent(btoa(yamlContent))`, where `btoa` throws on any character above U+00FF. | Any request that yields an accepted record. The generated document's title line `# Clash 配置文件` puts U+914D at index 8, so `btoa` throws and the handler answers 500. | Encode the document's UTF-8 bytes (as a binary string) before `btoa`, and decode them back after `atob` on the download route. The link then carries the document, and the route returns it. | high, not executed | Download.EncodeGeneratedFails, Pipeline.AsWrittenNeverConverts | Download.DownloadOfGenerated, Pipeline.CorrectedConverts |
