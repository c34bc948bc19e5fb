/** The three share-link decoders: `parseVmess`, `parseShadowsocks` and
    `parseTrojan`, each from a link already known to carry its scheme. */
module Decoders {
  import opened Wrappers
  import opened Text
  import opened JsValue
  import opened Base64
  import opened Percent
  import Url

  /** A decoded proxy record. Fields that the source copies from the JSON
      object unchanged keep their JavaScript value; a port or alterId that
      `parseInt` cannot read is `None` (`NaN`). */
  datatype Proxy =
    | Vmess(title: Value, address: Value, port: Option<int>, uuid: Value, alterId: Option<int>,
            network: Value, tls: bool, wsOpts: Option<seq<(string, Value)>>)
    | Shadowsocks(name: string, server: string, port: Option<int>, cipher: string, password: string)
    | Trojan(name: string, server: string, port: Option<int>, password: string, sni: string)
  {
    /** `proxy.name` */
    function Name(): Value
    {
      if Vmess? then title else Str(name)
    }

    /** `proxy.server` */
    function Server(): Value
    {
      if Vmess? then address else Str(server)
    }

    /** The object handed to `JSON.stringify`, properties in source order. */
    function ToValue(): Value
    {
      match this
      case Vmess(name, server, port, uuid, alterId, network, tls, wsOpts) =>
        Obj([("name", name), ("type", Str("vmess")), ("server", server), ("port", NumberOf(port)),
             ("uuid", uuid), ("alterId", NumberOf(alterId)), ("cipher", Str("auto")),
             ("network", network), ("tls", Bool(tls))]
            + (if wsOpts.Some? then [("ws-opts", Obj(wsOpts.value))] else []))
      case Shadowsocks(name, server, port, cipher, password) =>
        Obj([("name", Str(name)), ("type", Str("ss")), ("server", Str(server)),
             ("port", NumberOf(port)), ("cipher", Str(cipher)), ("password", Str(password))])
      case Trojan(name, server, port, password, sni) =>
        Obj([("name", Str(name)), ("type", Str("trojan")), ("server", Str(server)),
             ("port", NumberOf(port)), ("password", Str(password)), ("sni", Str(sni))])
    }
  }

  function NumberOf(n: Option<int>): Value
  {
    if n.Some? then Num(n.value) else NaN
  }

  /** `s.slice(1)` */
  function DropFirst(s: string): string
  {
    if |s| == 0 then "" else s[1..]
  }

  // ---------------------------------------------------------------- vmess

  /** `parseVmess(link)`: base64 after the 8-character `vmess://`, then
      `JSON.parse` and the record (`VmessOfText`). `Failure` is an exception. */
  function ParseVmess(link: string, parse: string -> Option<Value>): (r: Result<Proxy, string>)
    requires StartsWith(link, "vmess://")
    ensures r.Success? ==> r.value.Vmess?
    ensures Atob(link[8..]).None? ==> r.Failure?
    ensures Atob(link[8..]).Some? ==> r == VmessOfText(Atob(link[8..]).value, parse)
  {
    match Atob(link[8..])
    case None => Failure("atob: invalid base64")
    case Some(text) => VmessOfText(text, parse)
  }

  /** `JSON.parse` (the parameter `parse`, `None` when it throws) of the text
      `atob` produced, then the record. */
  function VmessOfText(text: string, parse: string -> Option<Value>): (r: Result<Proxy, string>)
    ensures r.Success? ==> r.value.Vmess?
    ensures parse(text).None? ==> r.Failure?
  {
    var data := parse(text);
    if data.None? then Failure("JSON.parse: invalid JSON")
    else VmessFromJson(data.value)
  }

  /** The object literal of `parseVmess` over the parsed JSON value `data`. */
  function VmessFromJson(data: Value): (r: Result<Proxy, string>)
    ensures r.Failure? <==> data.Null? || data.Undefined?
    ensures r.Success? ==> r.value.Vmess?
  {
    if data.Null? || data.Undefined? then Failure("TypeError: property of " + ToString(data))
    else
      var ps := Get(data, "ps").value;
      var add := Get(data, "add").value;
      var port := Get(data, "port").value;
      var aid := Get(data, "aid").value;
      var net := Get(data, "net").value;
      var path := Get(data, "path").value;
      var host := Get(data, "host").value;
      Success(Vmess(
        title := if Truthy(ps) then ps else Str(ToString(add) + ":" + ToString(port)),
        address := add,
        port := ParseInt(ToString(port)),
        uuid := Get(data, "id").value,
        alterId := ParseInt(ToString(if Truthy(aid) then aid else Num(0))),
        network := if Truthy(net) then net else Str("tcp"),
        tls := Get(data, "tls").value == Str("tls"),
        wsOpts :=
          if Truthy(host) then
            Some(Put(Spread(Get(data, "ws-opts").value), "headers", Obj([("Host", host)])))
          else if Truthy(path) then Some([("path", path)])
          else None))
  }

  /** A vmess link carrying the base64 of a binary string hands exactly that
      string to `JSON.parse`. */
  lemma VmessOfEncodedText(text: string, parse: string -> Option<Value>)
    requires IsLatin1(text)
    ensures var link := "vmess://" + Btoa(text).value;
      StartsWith(link, "vmess://") && ParseVmess(link, parse) == VmessOfText(text, parse)
  {
    AtobBtoa(text);
    var link := "vmess://" + Btoa(text).value;
    assert link[..8] == "vmess://" && link[8..] == Btoa(text).value;
  }

  /** Share links carry the base64 of the JSON text's UTF-8 bytes. `atob`
      yields those bytes one character each, so a JSON text with any
      character outside ASCII (a node name in Chinese, an emoji) reaches
      `JSON.parse` as a different, longer text. */
  lemma VmessUtf8Text(json: string, parse: string -> Option<Value>)
    requires exists k :: 0 <= k < |json| && json[k] as int >= 0x80
    ensures var bytes := Utf8.BinaryString(Utf8.Encode(json));
      var link := "vmess://" + Btoa(bytes).value;
      StartsWith(link, "vmess://") && ParseVmess(link, parse) == VmessOfText(bytes, parse)
      && |bytes| > |json| && bytes != json
  {
    var bytes := Utf8.BinaryString(Utf8.Encode(json));
    VmessOfEncodedText(bytes, parse);
    Utf8.EncodeLonger(json);
  }

  /** The name of a vmess record is `ps`, else `add:port`; either way it is
      truthy, so only the server can make the batch drop the record. */
  lemma VmessName(fields: seq<(string, Value)>)
    ensures var r := VmessFromJson(Obj(fields));
      var add, port := Lookup(fields, "add"), Lookup(fields, "port");
      && r.Success?
      && r.value.Name() == (if Truthy(Lookup(fields, "ps")) then Lookup(fields, "ps")
                            else Str(ToString(add) + ":" + ToString(port)))
      && Truthy(r.value.Name())
      && r.value.Server() == add
  {
  }

  /** The network defaults to `tcp`, and `tls`
      holds exactly when the field is the string `tls`. */
  lemma VmessSettings(fields: seq<(string, Value)>)
    ensures var r := VmessFromJson(Obj(fields));
      && r.Success?
      && r.value.network == (if Truthy(Lookup(fields, "net")) then Lookup(fields, "net") else Str("tcp"))
      && (r.value.tls <==> Lookup(fields, "tls") == Str("tls"))
  {
  }

  /** Without a truthy `aid` the alterId is 0. */
  lemma VmessAlterIdDefault(fields: seq<(string, Value)>)
    requires !Truthy(Lookup(fields, "aid"))
    ensures var r := VmessFromJson(Obj(fields));
      r.Success? && r.value.alterId == Some(0)
  {
    VmessNumbers(fields);
    ParseIntOfNumber(Num(0), 0);
  }

  /** The port and the alterId go through `parseInt` of their text. */
  lemma VmessNumbers(fields: seq<(string, Value)>)
    ensures var r := VmessFromJson(Obj(fields));
      var aid := Lookup(fields, "aid");
      && r.Success?
      && r.value.port == ParseInt(ToString(Lookup(fields, "port")))
      && r.value.alterId == ParseInt(ToString(if Truthy(aid) then aid else Num(0)))
  {
  }

  /** A port written as a JSON number or as its decimal string comes out as
      that integer. */
  lemma VmessPort(fields: seq<(string, Value)>, port: int)
    requires Lookup(fields, "port") == Num(port) || Lookup(fields, "port") == Str(IntToString(port))
    ensures var r := VmessFromJson(Obj(fields));
      r.Success? && r.value.port == Some(port)
  {
    VmessNumbers(fields);
    ParseIntOfNumber(Lookup(fields, "port"), port);
  }

  /** So does a non-zero alterId. */
  lemma VmessAlterId(fields: seq<(string, Value)>, aid: int)
    requires aid != 0
    requires Lookup(fields, "aid") == Num(aid) || Lookup(fields, "aid") == Str(IntToString(aid))
    ensures var r := VmessFromJson(Obj(fields));
      r.Success? && r.value.alterId == Some(aid)
  {
    assert Truthy(Lookup(fields, "aid")) by {
      assert |IntToString(aid)| >= 1;
    }
    VmessNumbers(fields);
    ParseIntOfNumber(Lookup(fields, "aid"), aid);
  }

  /** `ws-opts` is present exactly when `path` or `host` is truthy. With a
      `host`, the later spread replaces the one built from `path`: the result
      is the raw `ws-opts` object with `headers` set to `{Host: host}`, so
      `path` survives only if the raw object had one. With only a `path`, it
      is `{path}`. */
  lemma VmessWsOpts(fields: seq<(string, Value)>)
    ensures var r := VmessFromJson(Obj(fields));
      var path, host, raw := Lookup(fields, "path"), Lookup(fields, "host"), Lookup(fields, "ws-opts");
      && r.Success?
      && (r.value.wsOpts.Some? <==> Truthy(path) || Truthy(host))
      && (Truthy(host) ==>
            && Lookup(r.value.wsOpts.value, "headers") == Obj([("Host", host)])
            && (forall key :: key != "headers" ==> Lookup(r.value.wsOpts.value, key) == Lookup(Spread(raw), key)))
      && (Truthy(host) && Lookup(Spread(raw), "path") == Undefined ==> Lookup(r.value.wsOpts.value, "path") == Undefined)
      && (!Truthy(host) && Truthy(path) ==> r.value.wsOpts == Some([("path", path)]))
  {
  }

  // ---------------------------------------------------------- shadowsocks

  /** `[method, password] = s.split(':')`: the text before the first colon
      and the text between the first and the second. */
  function MethodPassword(s: string): (mp: (string, string))
    requires ':' in s
    ensures ':' !in mp.0 && ':' !in mp.1
  {
    var parts := Split(s, ':');
    SplitParts(s, ':');
    (parts[0], parts[1])
  }

  /** The method and password of `parseShadowsocks` from `url.username`. */
  function Credentials(username: string): (string, string)
  {
    match Atob(username)
    case Some(userinfo) =>
      if ':' in userinfo then MethodPassword(userinfo) else ("aes-256-gcm", userinfo)
    case None =>
      if ':' in username then MethodPassword(username) else ("aes-256-gcm", username)
  }

  /** `parseShadowsocks(link)`: `None` is the `null` it returns when `new URL` throws. */
  function ParseShadowsocks(link: string): (r: Option<Proxy>)
    requires StartsWith(link, "ss://")
    ensures var parsed := Url.Parse(link, "ss");
            (r.None? <==> parsed.Failure?) && (r.Some? ==> r.value == ShadowsocksFromUrl(parsed.value))
  {
    var parsed := Url.Parse(link, "ss");
    if parsed.Failure? then None else Some(ShadowsocksFromUrl(parsed.value))
  }

  /** The record `parseShadowsocks` builds from the parsed URL. */
  function ShadowsocksFromUrl(url: Url.Url): (p: Proxy)
    ensures p.Shadowsocks? && p.server == url.hostname
  {
    var (cipher, password) := Credentials(url.username);
    var nodeName := NodeName(url.Hash());
    Shadowsocks(
      name := if nodeName != "" then nodeName else url.hostname + ":" + url.PortText(),
      server := url.hostname,
      port := ParseInt(url.PortText()),
      cipher := cipher,
      password := password)
  }

  /** The name from `url.hash`: empty without one, else the hash without its
      `#`, decoded when `decodeURIComponent` accepts it and as it is otherwise. */
  function NodeName(hash: string): string
  {
    var raw := DropFirst(hash);
    if hash == "" then ""
    else match DecodeURIComponent(raw) case Some(n) => n case None => raw
  }

  // --------------------------------------------------------------- trojan

  /** `parseTrojan(link)`: `Failure` when `new URL` or `decodeURIComponent` throws. */
  function ParseTrojan(link: string): (r: Result<Proxy, string>)
    requires StartsWith(link, "trojan://")
    ensures r.Success? ==> r.value.Trojan?
    ensures var parsed := Url.Parse(link, "trojan");
            (parsed.Failure? ==> r.Failure?) && (parsed.Success? ==> r == TrojanFromUrl(parsed.value))
  {
    var parsed := Url.Parse(link, "trojan");
    if parsed.Failure? then Failure(parsed.error) else TrojanFromUrl(parsed.value)
  }

  /** The record `parseTrojan` builds from the parsed URL. */
  function TrojanFromUrl(url: Url.Url): (r: Result<Proxy, string>)
    ensures r.Failure? <==> DecodeURIComponent(DropFirst(url.Hash())).None?
    ensures r.Success? ==> r.value.Trojan? && r.value.server == url.hostname && r.value.password == url.username
  {
    var decoded := DecodeURIComponent(DropFirst(url.Hash()));
    if decoded.None? then Failure("URIError: malformed URI sequence")
    else
      var sni := url.SearchParam("sni");
      Success(Trojan(
        name := if decoded.value != "" then decoded.value else url.hostname + ":" + url.PortText(),
        server := url.hostname,
        port := ParseInt(url.PortText()),
        password := url.username,
        sni := if sni.Some? && sni.value != "" then sni.value else url.hostname))
  }

  // ------------------------------------------------------------ properties

  /** `parseInt(url.port)`: the port number, or `NaN` when the link has none. */
  lemma PortTextValue(url: Url.Url)
    ensures ParseInt(url.PortText()) == if url.port.None? then None else Some(url.port.value as int)
  {
    if url.port.Some? {
      ParseIntOfNumeral(url.port.value);
    }
  }

  /** A non-empty fragment without `%` reaches `decodeURIComponent` intact
      through `url.hash.slice(1)`. */
  lemma HashDecodes(url: Url.Url, name: string)
    requires name != "" && '%' !in name && url.fragment == Some(PercentEncode(name, Fragment))
    ensures url.Hash() != "" && DecodeURIComponent(DropFirst(url.Hash())) == Some(name)
  {
    var encoded := PercentEncode(name, Fragment);
    assert encoded == EncodeChar(Fragment, name[0]) + PercentEncode(name[1..], Fragment);
    assert |EncodeChar(Fragment, name[0])| > 0;
    assert DropFirst("#" + encoded) == encoded;
    DecodePercentEncode(name, Fragment);
  }

  /** `parseTrojan` on a URL whose hash decodes to a non-empty name. */
  lemma TrojanFromUrlNamed(url: Url.Url, name: string)
    requires DecodeURIComponent(DropFirst(url.Hash())) == Some(name) && name != ""
    ensures var sni := url.SearchParam("sni");
      TrojanFromUrl(url)
      == Success(Trojan(name, url.hostname, ParseInt(url.PortText()), url.username,
                        if sni.Some? && sni.value != "" then sni.value else url.hostname))
  {
  }

  /** When `atob(url.username)` throws, the method is always `aes-256-gcm` and
      the password is the username itself: the parser leaves no `:` in a
      username, so the colon test of that fallback never holds. */
  lemma ShadowsocksFallback(link: string)
    requires StartsWith(link, "ss://")
    requires Url.Parse(link, "ss").Success? && Atob(Url.Parse(link, "ss").value.username).None?
    ensures ParseShadowsocks(link).Some?
    ensures ParseShadowsocks(link).value.cipher == "aes-256-gcm"
    ensures ParseShadowsocks(link).value.password == Url.Parse(link, "ss").value.username
  {
  }

  /** The URL `new URL` makes of the link `Url.Link(scheme, userinfo, host,
      port, query, fragment)` when the userinfo has no `:` (`ParseLinkNoColon`). */
  function LinkUrl(userinfo: string, host: string, port: string,
                   query: Option<string>, fragment: Option<string>): (url: Url.Url)
    requires Url.ValidPort(port)
    ensures url.port == Url.PortValue(port) && url.password == ""
  {
    Url.Url(PercentEncode(userinfo, Userinfo), "", PercentEncode(host, C0Control), Url.PortValue(port),
            Url.EncodeOption(query, Query), Url.EncodeOption(fragment, Fragment))
  }

  lemma ParseLinkNoColon(scheme: string, userinfo: string, host: string, port: string,
                         query: Option<string>, fragment: Option<string>)
    requires Url.IsLinkScheme(scheme)
    requires Url.WellFormedParts(userinfo, host, port, query, fragment) && ':' !in userinfo
    ensures StartsWith(Url.Link(scheme, userinfo, host, port, query, fragment), scheme + "://")
    ensures Url.Parse(Url.Link(scheme, userinfo, host, port, query, fragment), scheme)
         == Success(LinkUrl(userinfo, host, port, query, fragment))
  {
    Url.ParseLink(scheme, userinfo, host, port, query, fragment);
    Url.FirstOfConcat(userinfo, "", {':'});
    assert userinfo + "" == userinfo && userinfo[..|userinfo|] == userinfo;
  }

  lemma ParseTrojanOf(link: string, url: Url.Url)
    requires StartsWith(link, "trojan://") && Url.Parse(link, "trojan") == Success(url)
    ensures ParseTrojan(link) == TrojanFromUrl(url)
  {
  }

  lemma ParseShadowsocksOf(link: string, url: Url.Url)
    requires StartsWith(link, "ss://") && Url.Parse(link, "ss") == Success(url)
    ensures ParseShadowsocks(link) == Some(ShadowsocksFromUrl(url))
  {
  }

  lemma SchemePrefixes()
    ensures "trojan" + "://" == "trojan://" && "ss" + "://" == "ss://"
  {
  }

  /** A well-formed trojan link decodes as the record of the URL of its parts. */
  lemma TrojanLink(userinfo: string, host: string, port: string, query: Option<string>, name: string)
    requires Url.WellFormedParts(userinfo, host, port, query, Some(name)) && ':' !in userinfo
    ensures var link := Url.Link("trojan", userinfo, host, port, query, Some(name));
      StartsWith(link, "trojan://") && ParseTrojan(link) == TrojanFromUrl(LinkUrl(userinfo, host, port, query, Some(name)))
  {
    var link := Url.Link("trojan", userinfo, host, port, query, Some(name));
    var url := LinkUrl(userinfo, host, port, query, Some(name));
    assert StartsWith(link, "trojan://") && Url.Parse(link, "trojan") == Success(url) by {
      ParseLinkNoColon("trojan", userinfo, host, port, query, Some(name));
      SchemePrefixes();
    }
    ParseTrojanOf(link, url);
  }

  /** A well-formed shadowsocks link decodes as the record of the URL of its parts. */
  lemma ShadowsocksLink(userinfo: string, host: string, port: string, name: string)
    requires Url.WellFormedParts(userinfo, host, port, None, Some(name)) && ':' !in userinfo
    ensures var link := Url.Link("ss", userinfo, host, port, None, Some(name));
      StartsWith(link, "ss://") && ParseShadowsocks(link) == Some(ShadowsocksFromUrl(LinkUrl(userinfo, host, port, None, Some(name))))
  {
    var link := Url.Link("ss", userinfo, host, port, None, Some(name));
    var url := LinkUrl(userinfo, host, port, None, Some(name));
    assert StartsWith(link, "ss://") && Url.Parse(link, "ss") == Success(url) by {
      ParseLinkNoColon("ss", userinfo, host, port, None, Some(name));
      SchemePrefixes();
    }
    ParseShadowsocksOf(link, url);
  }

  /** SIP002, `ss://base64(method:password)@host:port#name`: when the base64
      text has neither padding nor `/`, the record holds the method, the
      password, the host, the port and the name. */
  lemma ShadowsocksOfParts(cipher: string, password: string, host: string, port: string, name: string)
    requires IsLatin1(cipher + ":" + password) && ':' !in cipher && ':' !in password
    requires var b := Btoa(cipher + ":" + password).value; '/' !in b && '=' !in b
    requires Url.ValidPort(port) && name != "" && '%' !in name
    ensures ShadowsocksFromUrl(LinkUrl(Btoa(cipher + ":" + password).value, host, port, None, Some(name)))
         == Shadowsocks(name, PercentEncode(host, C0Control), Url.PortValue(port), cipher, password)
  {
    var b := Btoa(cipher + ":" + password).value;
    var url := LinkUrl(b, host, port, None, Some(name));
    assert Credentials(url.username) == (cipher, password) by {
      Base64Unescaped(b);
      CredentialsOfBase64(cipher, password);
    }
    assert NodeName(url.Hash()) == name by {
      HashDecodes(url, name);
    }
    assert ParseInt(url.PortText()) == Url.PortValue(port) by {
      PortTextValue(url);
    }
  }

  /** Base64 text without `/` or `=` passes the userinfo encoding unchanged. */
  lemma Base64Unescaped(b: string)
    requires forall k :: 0 <= k < |b| ==> IsBase64Char(b[k]) || b[k] == '='
    requires '/' !in b && '=' !in b
    ensures PercentEncode(b, Userinfo) == b
  {
    forall k | 0 <= k < |b| ensures !InSet(Userinfo, b[k]) {
      Base64CharUnescaped(b[k]);
    }
    PercentEncodeUnchanged(b, Userinfo);
  }

  lemma Base64CharUnescaped(c: char)
    requires IsBase64Char(c) && c != '/'
    ensures !InSet(Userinfo, c)
  {
    assert c !in " \"#<>?`{}/:;=@[\\]^|";
  }

  /** The base64 of `method:password` decodes to the method and the password. */
  lemma CredentialsOfBase64(cipher: string, password: string)
    requires IsLatin1(cipher + ":" + password) && ':' !in cipher && ':' !in password
    ensures Credentials(Btoa(cipher + ":" + password).value) == (cipher, password)
  {
    var text := cipher + ":" + password;
    AtobBtoa(text);
    assert ':' in text by { assert text[|cipher|] == ':'; }
    SplitConcat(cipher, password, ':');
    SplitNoSeparator(cipher, ':');
    SplitNoSeparator(password, ':');
    assert cipher + [':'] + password == text;
  }

  /** The base64 text of a SIP002 userinfo is a well-formed userinfo without `:`. */
  lemma Base64Userinfo(b: string)
    requires forall k :: 0 <= k < |b| ==> IsBase64Char(b[k]) || b[k] == '='
    requires '/' !in b
    ensures Url.ValidUserinfo(b) && ':' !in b
  {
    assert forall k :: 0 <= k < |b| ==> b[k] != '/';
  }

  /** A userinfo with base64 padding (`=`) comes out of the URL parser
      percent-encoded (`%3D`), `atob` then throws, and the decoder falls back
      to `aes-256-gcm` with the encoded text as the password. */
  lemma ShadowsocksPaddedUserinfo(userinfo: string, host: string, port: string, fragment: Option<string>)
    requires Url.ValidPort(port) && '=' in userinfo && ':' !in userinfo
    ensures var p := ShadowsocksFromUrl(LinkUrl(userinfo, host, port, None, fragment));
      && p.cipher == "aes-256-gcm"
      && p.password == PercentEncode(userinfo, Userinfo)
      && '%' in p.password
  {
    var username := PercentEncode(userinfo, Userinfo);
    assert '%' in username by {
      var k :| 0 <= k < |userinfo| && userinfo[k] == '=';
      PercentEncodeEscapes(userinfo, Userinfo, k);
    }
    assert Credentials(username) == ("aes-256-gcm", username) by {
      var i :| 0 <= i < |username| && username[i] == '%';
      AtobRejects(username, i);
      PercentEncodeAbsent(userinfo, Userinfo, ':');
    }
  }

  /** The record of a trojan link's URL: host, port and name as written, the
      userinfo as the password, and the `sni` query parameter as the SNI when
      it is present and non-empty, the host otherwise. */
  lemma TrojanOfParts(userinfo: string, host: string, port: string, query: Option<string>, name: string)
    requires Url.ValidPort(port) && name != "" && '%' !in name
    ensures var hostname := PercentEncode(host, C0Control);
      var sni := if query.Some? then Url.FormGet(Url.FormPairs(PercentEncode(query.value, Query)), "sni") else None;
      TrojanFromUrl(LinkUrl(userinfo, host, port, query, Some(name)))
      == Success(Trojan(name, hostname, Url.PortValue(port), PercentEncode(userinfo, Userinfo),
                        if sni.Some? && sni.value != "" then sni.value else hostname))
  {
    var url := LinkUrl(userinfo, host, port, query, Some(name));
    HashDecodes(url, name);
    PortTextValue(url);
    TrojanFromUrlNamed(url, name);
  }

  /** `?sni=value`, with a value that the query encoding and form decoding
      leave alone, sets the SNI to that value. */
  lemma TrojanSni(userinfo: string, host: string, port: string, value: string, name: string)
    requires Url.ValidPort(port) && name != "" && '%' !in name
    requires value != "" && forall k :: 0 <= k < |value| ==> !InSet(Query, value[k]) && value[k] !in "&+%"
    ensures var r := TrojanFromUrl(LinkUrl(userinfo, host, port, Some("sni=" + value), Some(name)));
      r.Success? && r.value.sni == value
  {
    var q := "sni=" + value;
    assert Url.FormGet(Url.FormPairs(PercentEncode(q, Query)), "sni") == Some(value) by {
      forall k | 0 <= k < |q| ensures !InSet(Query, q[k]) {
        if k >= 4 { assert q[k] == value[k - 4]; }
      }
      PercentEncodeUnchanged(q, Query);
      assert '&' !in "sni" + value && '+' !in "sni" + value && '%' !in "sni" + value by {
        assert forall k :: 0 <= k < |value| ==> ("sni" + value)[k + 3] == value[k];
      }
      assert q == "sni" + "=" + value;
      Url.FormGetSingle("sni", value);
    }
    TrojanOfParts(userinfo, host, port, Some(q), name);
  }

  lemma PercentNameUnchanged(name: string)
    requires forall k :: 0 <= k < |name| ==> !InSet(Fragment, name[k])
    ensures PercentEncode("%" + name, Fragment) == "%" + name
  {
    var t := "%" + name;
    forall k | 0 <= k < |t| ensures !InSet(Fragment, t[k]) {
      if k > 0 {
        assert t[k] == name[k - 1];
      }
    }
    PercentEncodeUnchanged(t, Fragment);
  }

  /** A `%` that starts no escape in a trojan link's name makes
      `decodeURIComponent` throw, so the decoder throws too. */
  lemma TrojanBadEscape(userinfo: string, host: string, port: string, query: Option<string>, name: string)
    requires Url.ValidPort(port)
    requires forall k :: 0 <= k < |name| ==> !InSet(Fragment, name[k])
    requires |name| == 0 || !IsHexDigit(name[0])
    ensures TrojanFromUrl(LinkUrl(userinfo, host, port, query, Some("%" + name))).Failure?
  {
    var url := LinkUrl(userinfo, host, port, query, Some("%" + name));
    PercentNameUnchanged(name);
    assert DropFirst(url.Hash()) == "%" + name;
  }

  /** The same name in a shadowsocks link is kept as written. */
  lemma ShadowsocksBadEscape(userinfo: string, host: string, port: string, name: string)
    requires Url.ValidPort(port)
    requires forall k :: 0 <= k < |name| ==> !InSet(Fragment, name[k])
    requires |name| == 0 || !IsHexDigit(name[0])
    ensures ShadowsocksFromUrl(LinkUrl(userinfo, host, port, None, Some("%" + name))).name == "%" + name
  {
    var url := LinkUrl(userinfo, host, port, None, Some("%" + name));
    PercentNameUnchanged(name);
    assert DropFirst(url.Hash()) == "%" + name;
  }
}
