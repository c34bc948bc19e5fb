/** The download link. The conversion stores the document in the link itself
    as `encodeURIComponent(btoa(yaml))` after `/clash/`, and the download
    route reads it back with `atob(decodeURIComponent(id))`. `btoa` only
    takes binary strings (every character at most U+00FF) and the generated
    document always holds Chinese text, so the encoding as written always
    throws; the corrected codec goes through the UTF-8 bytes of the
    document first. */
module Download {
  import opened Wrappers
  import opened Text
  import opened JsValue
  import opened Base64
  import opened Percent
  import Utf8
  import opened Convert
  import opened Yaml

  /** `encodeURIComponent(btoa(yaml))`: `None` when `btoa` throws. */
  function EncodeConfig(yaml: string): (id: Option<string>)
    ensures id.None? <==> exists k :: 0 <= k < |yaml| && yaml[k] as int > 255
  {
    match Btoa(yaml)
    case None => None
    case Some(encoded) => Some(EncodeURIComponent(encoded))
  }

  /** `atob(decodeURIComponent(configId))`: `None` when either throws. */
  function DecodeConfig(id: string): (yaml: Option<string>)
    ensures yaml.Some? ==> IsLatin1(yaml.value)
  {
    match DecodeURIComponent(id)
    case None => None
    case Some(encoded) => Atob(encoded)
  }

  /** The codec round-trips binary strings. */
  lemma ConfigRoundTrip(yaml: string)
    requires IsLatin1(yaml)
    ensures EncodeConfig(yaml).Some? && DecodeConfig(EncodeConfig(yaml).value) == Some(yaml)
  {
    AtobBtoa(yaml);
    DecodeEncodeURIComponent(Btoa(yaml).value);
  }

  /** The first line of a joined text starts it. */
  lemma JoinHead(parts: seq<string>, sep: string, k: nat)
    requires |parts| >= 1 && k < |parts[0]|
    ensures k < |Join(parts, sep)| && Join(parts, sep)[k] == parts[0][k]
  {
  }

  /** The ninth character of every generated document is the U+914D of its
      title line. */
  lemma GeneratedNotLatin1(config: Config, timestamp: string, stringify: Value -> string)
    ensures var yaml := GenerateClashYaml(config, timestamp, stringify);
      |yaml| > 8 && yaml[8] == '配' && !IsLatin1(yaml)
  {
    var lines := HeaderLines(config.name, timestamp) + SettingsLines;
    assert lines[0] == "# Clash 配置文件";
    JoinHead(lines, "\n", 8);
  }

  /** `btoa` throws on every generated document, so the conversion as
      written never produces a link. */
  lemma EncodeGeneratedFails(config: Config, timestamp: string, stringify: Value -> string)
    ensures EncodeConfig(GenerateClashYaml(config, timestamp, stringify)) == None
  {
    GeneratedNotLatin1(config, timestamp, stringify);
  }

  // ------------------------------------------------- the corrected codec

  /** `encodeURIComponent(btoa(binary))` where `binary` holds one character
      per UTF-8 byte of the document. */
  function EncodeUtf8Config(yaml: string): (id: string)
  {
    var binary := Utf8.BinaryString(Utf8.Encode(yaml));
    assert IsLatin1(binary);
    EncodeURIComponent(Btoa(binary).value)
  }

  /** The inverse: `atob(decodeURIComponent(id))` read as UTF-8 bytes. */
  function DecodeUtf8Config(id: string): Option<string>
  {
    match DecodeConfig(id)
    case None => None
    case Some(binary) => Some(Utf8.DecodeLossy(Utf8.BinaryBytes(binary)))
  }

  lemma BinaryStringInjective(a: seq<Utf8.Byte>, b: seq<Utf8.Byte>)
    requires Utf8.BinaryString(a) == Utf8.BinaryString(b)
    ensures a == b
  {
    assert |a| == |b|;
    forall k | 0 <= k < |a| ensures a[k] == b[k] {
      assert Utf8.BinaryString(a)[k] == Utf8.BinaryString(b)[k];
    }
  }

  /** The corrected codec round-trips every document. */
  lemma Utf8ConfigRoundTrip(yaml: string)
    ensures DecodeUtf8Config(EncodeUtf8Config(yaml)) == Some(yaml)
  {
    var bytes := Utf8.Encode(yaml);
    var binary := Utf8.BinaryString(bytes);
    ConfigRoundTrip(binary);
    assert DecodeConfig(EncodeUtf8Config(yaml)) == Some(binary);
    BinaryStringInjective(Utf8.BinaryBytes(binary), bytes);
    Utf8.DecodeLossyEncode(yaml);
  }

  // ------------------------------------------------------ the route

  /** The text of `s` up to the first occurrence of `sep`. */
  function Before(s: string, sep: string): (r: string)
    requires |sep| > 0
    ensures |r| <= |s| && r == s[..|r|]
    decreases |s|
  {
    if |s| == 0 || StartsWith(s, sep) then "" else [s[0]] + Before(s[1..], sep)
  }

  lemma {:induction false} BeforeAbsent(s: string, sep: string)
    requires |sep| > 0 && sep[0] !in s
    ensures Before(s, sep) == s
    decreases |s|
  {
    if |s| > 0 {
      BeforeAbsent(s[1..], sep);
      assert [s[0]] + s[1..] == s;
    }
  }

  const Route: string := "/clash/"

  /** `url.pathname.split('/clash/')[1]` for a path the route accepted. */
  function ConfigId(pathname: string): string
    requires StartsWith(pathname, Route)
  {
    Before(pathname[|Route|..], Route)
  }

  const InvalidId: string := "配置ID无效"
  const ParseFailed: string := "配置解析失败"

  /** The body of the download response, or the text of the 400 response. */
  function DownloadResponse(pathname: string, decode: string -> Option<string>): (r: Result<string, string>)
    requires StartsWith(pathname, Route)
    ensures ConfigId(pathname) == "" ==> r == Failure(InvalidId)
    ensures ConfigId(pathname) != "" ==> (r.Failure? <==> decode(ConfigId(pathname)).None?)
  {
    var id := ConfigId(pathname);
    if id == "" then Failure(InvalidId)
    else
      match decode(id)
      case None => Failure(ParseFailed)
      case Some(yaml) => Success(yaml)
  }

  /** A link id is never empty for a non-empty document and never holds a
      `/`, so the route reads back exactly the id. */
  lemma LinkIdRead(id: string, encoded: string)
    requires encoded != "" && id == EncodeURIComponent(encoded)
    ensures ConfigId(Route + id) == id && id != ""
  {
    DecodeEncodeURIComponent(encoded);
    PercentEncodeOmits(encoded, Component, '/');
    BeforeAbsent(id, Route);
    assert (Route + id)[|Route|..] == id;
  }

  /** With the codec as written, a link made from a non-empty binary string
      downloads that string. */
  lemma DownloadOfLink(yaml: string)
    requires IsLatin1(yaml) && yaml != ""
    ensures EncodeConfig(yaml).Some?
    ensures DownloadResponse(Route + EncodeConfig(yaml).value, DecodeConfig) == Success(yaml)
  {
    ConfigRoundTrip(yaml);
    var encoded := Btoa(yaml).value;
    LinkIdRead(EncodeConfig(yaml).value, encoded);
  }

  /** With the corrected codec, every generated document downloads as it was
      generated. */
  lemma DownloadOfGenerated(config: Config, timestamp: string, stringify: Value -> string)
    ensures var yaml := GenerateClashYaml(config, timestamp, stringify);
      DownloadResponse(Route + EncodeUtf8Config(yaml), DecodeUtf8Config) == Success(yaml)
  {
    var yaml := GenerateClashYaml(config, timestamp, stringify);
    GeneratedNotLatin1(config, timestamp, stringify);
    var binary := Utf8.BinaryString(Utf8.Encode(yaml));
    Utf8.EncodeLonger(yaml);
    var encoded := Btoa(binary).value;
    AtobBtoa(binary);
    LinkIdRead(EncodeUtf8Config(yaml), encoded);
    Utf8ConfigRoundTrip(yaml);
  }
}
