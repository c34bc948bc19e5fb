/** `new URL(link)` of the WHATWG URL standard (section 4.4, the basic URL
    parser) for the links the decoders see: a non-special scheme followed by
    `://`, an authority `userinfo@host:port`, then a path, a query and a
    fragment. Only the parts the decoders read are kept: `username`,
    `hostname`, `port`, the query behind `searchParams` and the fragment
    behind `hash`. */
module Url {
  import opened Wrappers
  import opened Text
  import Utf8
  import opened Percent

  datatype Url = Url(
    username: string,        // percent-encoded with the userinfo set
    password: string,
    hostname: string,        // an opaque host, percent-encoded with the C0 control set
    port: Option<nat>,       // at most 65535; no default port for these schemes
    query: Option<string>,   // percent-encoded with the query set
    fragment: Option<string>) // percent-encoded with the fragment set
  {
    /** `url.port`: empty when there is no port. */
    function PortText(): string
    {
      if port.None? then "" else NatToString(port.value)
    }

    /** `url.hash`: empty for no fragment or an empty one, else `#` and the fragment. */
    function Hash(): string
    {
      if fragment.None? || fragment.value == "" then "" else "#" + fragment.value
    }

    /** `url.searchParams.get(name)`: `None` stands for `null`. */
    function SearchParam(name: string): Option<string>
    {
      if query.None? then None else FormGet(FormPairs(query.value), name)
    }
  }

  /** The schemes the converter hands to `new URL`. */
  predicate IsLinkScheme(scheme: string)
  {
    scheme == "ss" || scheme == "trojan"
  }

  /** The index of the first character of `s` in `cs`, or `|s|`. */
  function FirstOf(s: string, cs: set<char>): (i: nat)
    ensures i <= |s|
    ensures forall k :: 0 <= k < i ==> s[k] !in cs
    ensures i < |s| ==> s[i] in cs
  {
    if |s| == 0 || s[0] in cs then 0 else 1 + FirstOf(s[1..], cs)
  }

  /** The index of the last `c` in `s`. */
  function LastIndexOf(s: string, c: char): (r: Option<nat>)
    ensures r.None? <==> c !in s
    ensures r.Some? ==> r.value < |s| && s[r.value] == c && c !in s[r.value + 1..]
  {
    if |s| == 0 then None
    else if s[|s| - 1] == c then Some(|s| - 1)
    else
      var r := LastIndexOf(s[..|s| - 1], c);
      assert r.Some? ==> s[r.value + 1..] == s[..|s| - 1][r.value + 1..] + [s[|s| - 1]];
      r
  }

  predicate IsC0ControlOrSpace(c: char)
  {
    c as int <= 0x20
  }

  /** Removes trailing C0 controls and spaces. (The parser strips leading ones
      too, but a link that starts with its scheme has none.) */
  function StripTrailingC0Space(s: string): (t: string)
    ensures |t| <= |s|
    decreases |s|
  {
    if |s| > 0 && IsC0ControlOrSpace(s[|s| - 1]) then StripTrailingC0Space(s[..|s| - 1]) else s
  }

  /** Removes every tab, LF and CR. */
  function RemoveTabNewline(s: string): (t: string)
    ensures forall k :: 0 <= k < |t| ==> t[k] !in "\t\n\r"
  {
    if |s| == 0 then ""
    else if s[0] in "\t\n\r" then RemoveTabNewline(s[1..])
    else [s[0]] + RemoveTabNewline(s[1..])
  }

  /** The code points an opaque host may not contain (`%` aside). Brackets are
      among them, so an IPv6 literal makes the parse fail. */
  predicate IsForbiddenHostCodePoint(c: char)
  {
    c == '\0' || c in "\t\n\r #/:<>?@[\\]^|"
  }

  function ParsePort(t: string): (r: Result<Option<nat>, string>)
    ensures r.Success? && r.value.Some? ==> r.value.value <= 65535
  {
    if exists k :: 0 <= k < |t| && !IsDigit(t[k]) then Failure("invalid port")
    else if |t| == 0 then Success(None)
    else
      var v := RadixValue(t, 10);
      if v > 65535 then Failure("port out of range") else Success(Some(v))
  }

  /** The basic URL parser on a link that starts with `ss://` or `trojan://`;
      `Failure` is the TypeError `new URL` throws. */
  function Parse(link: string, scheme: string): (r: Result<Url, string>)
    requires IsLinkScheme(scheme) && StartsWith(link, scheme + "://")
    ensures r.Success? ==> ':' !in r.value.username
  {
    ParseRest(RemoveTabNewline(StripTrailingC0Space(link[|scheme| + 3..])))
  }

  /** What follows `scheme://`, once cleaned: the authority runs to the first
      `/`, `?` or `#`. */
  function ParseRest(rest: string): (r: Result<Url, string>)
    ensures r.Success? ==> ':' !in r.value.username
  {
    var authorityEnd := FirstOf(rest, {'/', '?', '#'});
    var authority := ParseAuthority(rest[..authorityEnd]);
    if authority.Failure? then Failure(authority.error)
    else
      var (username, password, hostname, port) := authority.value;
      var (query, fragment) := ParseQueryFragment(rest[authorityEnd..]);
      Success(Url(username, password, hostname, port, query, fragment))
  }

  /** The authority state: userinfo up to the last `@`, then the host and port. */
  function ParseAuthority(authority: string): (r: Result<(string, string, string, Option<nat>), string>)
    ensures r.Success? ==> ':' !in r.value.0
  {
    var at := LastIndexOf(authority, '@');
    var (username, password) := if at.Some? then UserinfoParts(authority[..at.value]) else ("", "");
    var hostPort := if at.Some? then authority[at.value + 1..] else authority;
    if at.Some? && |hostPort| == 0 then Failure("missing host")
    else
      var host := ParseHostPort(hostPort);
      if host.Failure? then Failure(host.error)
      else Success((username, password, host.value.0, host.value.1))
  }

  /** Username up to the first `:` of the userinfo, password after it, both
      percent-encoded with the userinfo set. */
  function UserinfoParts(userinfo: string): (parts: (string, string))
    ensures ':' !in parts.0
  {
    var colon := FirstOf(userinfo, {':'});
    assert ':' !in userinfo[..colon] by {
      assert forall k :: 0 <= k < colon ==> userinfo[..colon][k] == userinfo[k];
    }
    PercentEncodeAbsent(userinfo[..colon], Userinfo, ':');
    (PercentEncode(userinfo[..colon], Userinfo),
     if colon < |userinfo| then PercentEncode(userinfo[colon + 1..], Userinfo) else "")
  }

  /** The host state and the port state: an opaque host up to the first `:`,
      then an optional port. */
  function ParseHostPort(hostPort: string): (r: Result<(string, Option<nat>), string>)
  {
    var hostEnd := FirstOf(hostPort, {':'});
    var hostText := hostPort[..hostEnd];
    if hostEnd < |hostPort| && |hostText| == 0 then Failure("missing host")
    else if exists k :: 0 <= k < |hostText| && IsForbiddenHostCodePoint(hostText[k]) then
      Failure("invalid host code point")
    else
      var port := ParsePort(if hostEnd < |hostPort| then hostPort[hostEnd + 1..] else "");
      if port.Failure? then Failure(port.error)
      else Success((PercentEncode(hostText, C0Control), port.value))
  }

  /** What follows the authority: a path (not kept), then `?query`, then `#fragment`. */
  function ParseQueryFragment(tail: string): (Option<string>, Option<string>)
  {
    var queryStart := FirstOf(tail, {'?', '#'});
    var hashAt := FirstOf(tail, {'#'});
    var query :=
      if queryStart < |tail| && tail[queryStart] == '?' then
        Some(PercentEncode(tail[queryStart + 1..hashAt], Query))
      else None;
    var fragment :=
      if hashAt < |tail| then Some(PercentEncode(tail[hashAt + 1..], Fragment)) else None;
    (query, fragment)
  }

  /** `+` read as a space, as application/x-www-form-urlencoded does. */
  function PlusAsSpace(s: string): (t: string)
    ensures |t| == |s|
  {
    if |s| == 0 then "" else [if s[0] == '+' then ' ' else s[0]] + PlusAsSpace(s[1..])
  }

  predicate IsHexByte(b: Utf8.Byte)
  {
    ('0' as int <= b <= '9' as int) || ('a' as int <= b <= 'f' as int) || ('A' as int <= b <= 'F' as int)
  }

  function HexByteValue(b: Utf8.Byte): (v: nat)
    requires IsHexByte(b)
    ensures v < 16
  {
    DigitValue(b as char)
  }

  /** The WHATWG percent-decoding of bytes: a `%` with two hexadecimal digits
      becomes that byte; any other byte, a stray `%` included, stays. */
  function PercentDecodeBytes(bs: seq<Utf8.Byte>): seq<Utf8.Byte>
  {
    if |bs| == 0 then []
    else if bs[0] == '%' as int && |bs| >= 3 && IsHexByte(bs[1]) && IsHexByte(bs[2]) then
      [HexByteValue(bs[1]) * 16 + HexByteValue(bs[2])] + PercentDecodeBytes(bs[3..])
    else [bs[0]] + PercentDecodeBytes(bs[1..])
  }

  function FormDecode(s: string): string
  {
    Utf8.DecodeLossy(PercentDecodeBytes(Utf8.Encode(PlusAsSpace(s))))
  }

  /** The name/value list of an application/x-www-form-urlencoded text: the
      non-empty `&`-separated pieces, each split at its first `=`. */
  function FormPairs(query: string): seq<(string, string)>
  {
    FormPairsOf(Split(query, '&'))
  }

  function FormPairsOf(pieces: seq<string>): seq<(string, string)>
  {
    if |pieces| == 0 then []
    else if pieces[0] == "" then FormPairsOf(pieces[1..])
    else
      var piece := pieces[0];
      var eq := FirstOf(piece, {'='});
      var value := if eq < |piece| then piece[eq + 1..] else "";
      [(FormDecode(piece[..eq]), FormDecode(value))] + FormPairsOf(pieces[1..])
  }

  /** The value of the first pair named `name`. */
  function FormGet(pairs: seq<(string, string)>, name: string): (r: Option<string>)
    ensures r.Some? ==> exists k :: 0 <= k < |pairs| && pairs[k] == (name, r.value)
    ensures r.None? <==> forall k :: 0 <= k < |pairs| ==> pairs[k].0 != name
    ensures forall k :: 0 <= k < |pairs| && pairs[k].0 == name && (forall j :: 0 <= j < k ==> pairs[j].0 != name)
                        ==> r == Some(pairs[k].1)
  {
    if |pairs| == 0 then None
    else if pairs[0].0 == name then Some(pairs[0].1)
    else FormGet(pairs[1..], name)
  }

  // ------------------------------------------------ links built from parts

  /** No C0 control, space, tab or newline: nothing the parser strips. */
  predicate Printable(s: string)
  {
    forall k :: 0 <= k < |s| ==> s[k] as int > 0x20
  }

  function PortSuffix(port: string): string
  {
    if port == "" then "" else ":" + port
  }

  function QuerySuffix(query: Option<string>): string
  {
    if query.Some? then "?" + query.value else ""
  }

  function FragmentSuffix(fragment: Option<string>): string
  {
    if fragment.Some? then "#" + fragment.value else ""
  }

  /** `userinfo@host[:port]` */
  function Authority(userinfo: string, host: string, port: string): string
  {
    userinfo + "@" + (host + PortSuffix(port))
  }

  /** `[?query][#fragment]` */
  function Tail(query: Option<string>, fragment: Option<string>): string
  {
    QuerySuffix(query) + FragmentSuffix(fragment)
  }

  /** `scheme://userinfo@host[:port][?query][#fragment]` */
  function Link(scheme: string, userinfo: string, host: string, port: string,
                query: Option<string>, fragment: Option<string>): string
  {
    scheme + "://" + Authority(userinfo, host, port) + Tail(query, fragment)
  }

  /** Userinfo that ends at its `@`: no `/`, `?`, `#` or `@` of its own. */
  predicate ValidUserinfo(userinfo: string)
  {
    Printable(userinfo) && (forall k :: 0 <= k < |userinfo| ==> userinfo[k] !in "@/?#")
  }

  /** A non-empty opaque host. */
  predicate ValidHost(host: string)
  {
    |host| > 0 && Printable(host) && (forall k :: 0 <= k < |host| ==> !IsForbiddenHostCodePoint(host[k]))
  }

  /** Decimal digits of a value at most 65535, or nothing. */
  predicate ValidPort(port: string)
  {
    (forall k :: 0 <= k < |port| ==> IsDigit(port[k])) && RadixValue(port, 10) <= 65535
  }

  predicate ValidQuery(query: Option<string>)
  {
    query.Some? ==> Printable(query.value) && '#' !in query.value
  }

  predicate ValidFragment(fragment: Option<string>)
  {
    fragment.Some? ==> Printable(fragment.value)
  }

  /** The parts of a link the parser takes apart without surprises. */
  predicate WellFormedParts(userinfo: string, host: string, port: string,
                            query: Option<string>, fragment: Option<string>)
  {
    ValidUserinfo(userinfo) && ValidHost(host) && ValidPort(port) && ValidQuery(query) && ValidFragment(fragment)
  }

  /** The port a valid port text denotes. */
  function PortValue(port: string): (r: Option<nat>)
    requires ValidPort(port)
    ensures r.Some? ==> r.value <= 65535
  {
    if port == "" then None else Some(RadixValue(port, 10))
  }

  function EncodeOption(o: Option<string>, e: EncodeSet): Option<string>
  {
    if o.Some? then Some(PercentEncode(o.value, e)) else None
  }

  /** `new URL` takes a well-formed link back apart: username and password
      are the userinfo split at its first `:`, and each part comes back
      percent-encoded with its own set. */
  lemma ParseLink(scheme: string, userinfo: string, host: string, port: string,
                  query: Option<string>, fragment: Option<string>)
    requires IsLinkScheme(scheme)
    requires WellFormedParts(userinfo, host, port, query, fragment)
    ensures StartsWith(Link(scheme, userinfo, host, port, query, fragment), scheme + "://")
    ensures Parse(Link(scheme, userinfo, host, port, query, fragment), scheme)
         == Success(Url(UserinfoParts(userinfo).0, UserinfoParts(userinfo).1, PercentEncode(host, C0Control),
                        PortValue(port),
                        EncodeOption(query, Query), EncodeOption(fragment, Fragment)))
  {
    var authority := Authority(userinfo, host, port);
    var tail := Tail(query, fragment);
    var a := ParseAuthority(authority);
    var (q, f) := ParseQueryFragment(tail);
    assert Parse(scheme + "://" + authority + tail, scheme)
        == if a.Failure? then Failure(a.error) else Success(Url(a.value.0, a.value.1, a.value.2, a.value.3, q, f)) by {
      RestPrintable(userinfo, host, port, query, fragment);
      AuthorityHasNoDelimiter(userinfo, host, port);
      ParseAt(scheme, authority, tail);
    }
    assert a == Success((UserinfoParts(userinfo).0, UserinfoParts(userinfo).1, PercentEncode(host, C0Control),
                         PortValue(port))) by {
      ParseAuthorityOf(userinfo, host, port);
    }
    assert q == EncodeOption(query, Query) && f == EncodeOption(fragment, Fragment) by {
      ParseQueryFragmentOf(query, fragment);
    }
  }

  /** A link whose authority ends at a `/`, `?` or `#` (or at the end) parses
      as its authority and its tail parse. */
  lemma ParseAt(scheme: string, authority: string, tail: string)
    requires IsLinkScheme(scheme)
    requires Printable(authority + tail)
    requires forall k :: 0 <= k < |authority| ==> authority[k] !in {'/', '?', '#'}
    requires |tail| == 0 || tail[0] in {'/', '?', '#'}
    ensures StartsWith(scheme + "://" + authority + tail, scheme + "://")
    ensures var a := ParseAuthority(authority);
      var (query, fragment) := ParseQueryFragment(tail);
      Parse(scheme + "://" + authority + tail, scheme)
      == if a.Failure? then Failure(a.error)
         else Success(Url(a.value.0, a.value.1, a.value.2, a.value.3, query, fragment))
  {
    CleanedRest(scheme, authority, tail);
    ParseRestAt(authority, tail);
  }

  /** A printable link is not changed by the parser's clean-up. */
  lemma CleanedRest(scheme: string, authority: string, tail: string)
    requires Printable(authority + tail)
    ensures var link := scheme + "://" + authority + tail;
      StartsWith(link, scheme + "://")
      && RemoveTabNewline(StripTrailingC0Space(link[|scheme| + 3..])) == authority + tail
  {
    var link := scheme + "://" + authority + tail;
    var rest := authority + tail;
    assert link[..|scheme| + 3] == scheme + "://";
    assert link[|scheme| + 3..] == rest;
    assert StripTrailingC0Space(rest) == rest;
    RemoveTabNewlineUnchanged(rest);
  }

  lemma ParseRestAt(authority: string, tail: string)
    requires forall k :: 0 <= k < |authority| ==> authority[k] !in {'/', '?', '#'}
    requires |tail| == 0 || tail[0] in {'/', '?', '#'}
    ensures var a := ParseAuthority(authority);
      var (query, fragment) := ParseQueryFragment(tail);
      ParseRest(authority + tail)
      == if a.Failure? then Failure(a.error)
         else Success(Url(a.value.0, a.value.1, a.value.2, a.value.3, query, fragment))
  {
    var rest := authority + tail;
    FirstOfConcat(authority, tail, {'/', '?', '#'});
    assert rest[..|authority|] == authority;
    assert rest[|authority|..] == tail;
  }

  lemma PrintableAppend(a: string, b: string)
    requires Printable(a) && Printable(b)
    ensures Printable(a + b)
  {
    forall k | 0 <= k < |a + b| ensures (a + b)[k] as int > 0x20 {
      if k >= |a| {
        assert (a + b)[k] == b[k - |a|];
      }
    }
  }

  lemma RestPrintable(userinfo: string, host: string, port: string,
                      query: Option<string>, fragment: Option<string>)
    requires WellFormedParts(userinfo, host, port, query, fragment)
    ensures Printable(Authority(userinfo, host, port) + Tail(query, fragment))
  {
    assert Printable(PortSuffix(port)) by {
      if port != "" {
        assert Printable(port) by {
          forall k | 0 <= k < |port| ensures port[k] as int > 0x20 {
            assert IsDigit(port[k]);
          }
        }
        PrintableAppend(":", port);
      }
    }
    PrintableAppend(host, PortSuffix(port));
    PrintableAppend(userinfo, "@");
    PrintableAppend(userinfo + "@", host + PortSuffix(port));
    assert Printable(QuerySuffix(query)) by {
      if query.Some? { PrintableAppend("?", query.value); }
    }
    assert Printable(FragmentSuffix(fragment)) by {
      if fragment.Some? { PrintableAppend("#", fragment.value); }
    }
    PrintableAppend(QuerySuffix(query), FragmentSuffix(fragment));
    PrintableAppend(Authority(userinfo, host, port), Tail(query, fragment));
  }

  lemma AuthorityHasNoDelimiter(userinfo: string, host: string, port: string)
    requires forall k :: 0 <= k < |userinfo| ==> userinfo[k] !in "@/?#"
    requires forall k :: 0 <= k < |host| ==> !IsForbiddenHostCodePoint(host[k])
    requires forall k :: 0 <= k < |port| ==> IsDigit(port[k])
    ensures var authority := Authority(userinfo, host, port);
      forall k :: 0 <= k < |authority| ==> authority[k] !in {'/', '?', '#'}
  {
    var authority := Authority(userinfo, host, port);
    forall k | 0 <= k < |authority| ensures authority[k] !in {'/', '?', '#'} {
      if k < |userinfo| {
        assert authority[k] == userinfo[k];
      } else if |userinfo| < k < |userinfo| + 1 + |host| {
        assert authority[k] == host[k - |userinfo| - 1];
        assert !IsForbiddenHostCodePoint(host[k - |userinfo| - 1]);
      } else if |userinfo| + 1 + |host| < k {
        assert authority[k] == port[k - |userinfo| - 2 - |host|];
      }
    }
  }

  lemma {:induction false} RemoveTabNewlineUnchanged(s: string)
    requires Printable(s)
    ensures RemoveTabNewline(s) == s
    decreases |s|
  {
    if |s| > 0 {
      assert s[0] !in "\t\n\r";
      RemoveTabNewlineUnchanged(s[1..]);
      assert [s[0]] + s[1..] == s;
    }
  }

  /** The first character of `cs` in `a + b` is the first of `b`, when `a`
      has none and `b` starts with one (or is empty). */
  lemma {:induction false} FirstOfConcat(a: string, b: string, cs: set<char>)
    requires forall k :: 0 <= k < |a| ==> a[k] !in cs
    requires |b| == 0 || b[0] in cs
    ensures FirstOf(a + b, cs) == |a|
    decreases |a|
  {
    if |a| > 0 {
      assert (a + b)[1..] == a[1..] + b;
      FirstOfConcat(a[1..], b, cs);
    } else {
      assert a + b == b;
    }
  }

  /** The last `c` of `u + [c] + t` is the one after `u` when `t` has none. */
  lemma {:induction false} LastIndexOfAfter(u: string, c: char, t: string)
    requires c !in t
    ensures LastIndexOf(u + [c] + t, c) == Some(|u|)
    decreases |t|
  {
    var s := u + [c] + t;
    if |t| > 0 {
      assert s[..|s| - 1] == u + [c] + t[..|t| - 1];
      assert c !in t[..|t| - 1] by {
        assert forall k :: 0 <= k < |t| ==> t[k] != c;
      }
      LastIndexOfAfter(u, c, t[..|t| - 1]);
    }
  }

  lemma HostPortOf(host: string, port: string)
    requires |host| > 0 && (forall k :: 0 <= k < |host| ==> !IsForbiddenHostCodePoint(host[k]))
    requires forall k :: 0 <= k < |port| ==> IsDigit(port[k])
    ensures '@' !in host + PortSuffix(port)
    ensures FirstOf(host + PortSuffix(port), {':'}) == |host|
    ensures (host + PortSuffix(port))[..|host|] == host
    ensures port != "" ==> (host + PortSuffix(port))[|host| + 1..] == port
  {
    HostPortNoAt(host, port);
    HostFirstColon(host, port);
    HostPortSlices(host, port);
  }

  lemma HostFirstColon(host: string, port: string)
    requires forall k :: 0 <= k < |host| ==> !IsForbiddenHostCodePoint(host[k])
    ensures FirstOf(host + PortSuffix(port), {':'}) == |host|
  {
    forall k | 0 <= k < |host| ensures host[k] !in {':'} {
      assert !IsForbiddenHostCodePoint(host[k]);
    }
    FirstOfConcat(host, PortSuffix(port), {':'});
  }

  lemma HostPortSlices(host: string, port: string)
    ensures (host + PortSuffix(port))[..|host|] == host
    ensures port != "" ==> (host + PortSuffix(port))[|host| + 1..] == port
  {
    assert (host + PortSuffix(port))[..|host|] == host;
    if port != "" {
      assert (host + PortSuffix(port))[|host| + 1..] == port;
    }
  }

  lemma HostPortNoAt(host: string, port: string)
    requires forall k :: 0 <= k < |host| ==> !IsForbiddenHostCodePoint(host[k])
    requires forall k :: 0 <= k < |port| ==> IsDigit(port[k])
    ensures '@' !in host + PortSuffix(port)
  {
    assert '@' !in host by {
      forall k | 0 <= k < |host| ensures host[k] != '@' {
        assert !IsForbiddenHostCodePoint(host[k]);
      }
    }
    assert '@' !in port by {
      forall k | 0 <= k < |port| ensures port[k] != '@' {
        assert IsDigit(port[k]);
      }
    }
    assert '@' !in PortSuffix(port);
  }

  lemma ParsePortOf(port: string)
    requires (forall k :: 0 <= k < |port| ==> IsDigit(port[k])) && RadixValue(port, 10) <= 65535
    ensures ParsePort(port) == Success(if port == "" then None else Some(RadixValue(port, 10)))
  {
  }

  lemma ParseHostPortOf(host: string, port: string)
    requires |host| > 0 && (forall k :: 0 <= k < |host| ==> !IsForbiddenHostCodePoint(host[k]))
    requires (forall k :: 0 <= k < |port| ==> IsDigit(port[k])) && RadixValue(port, 10) <= 65535
    ensures ParseHostPort(host + PortSuffix(port))
         == Success((PercentEncode(host, C0Control), PortValue(port)))
  {
    var hostPort := host + PortSuffix(port);
    HostPortOf(host, port);
    var hostEnd := FirstOf(hostPort, {':'});
    assert hostPort[..hostEnd] == host;
    assert !exists k :: 0 <= k < |host| && IsForbiddenHostCodePoint(host[k]);
    var portText := if hostEnd < |hostPort| then hostPort[hostEnd + 1..] else "";
    assert portText == port;
    ParsePortOf(port);
  }

  /** With no `@` after the userinfo, the authority splits at the one before it. */
  lemma ParseAuthorityAt(userinfo: string, hostPort: string)
    requires '@' !in hostPort && |hostPort| > 0
    ensures var h := ParseHostPort(hostPort);
      ParseAuthority(userinfo + "@" + hostPort)
      == if h.Failure? then Failure(h.error)
         else Success((UserinfoParts(userinfo).0, UserinfoParts(userinfo).1, h.value.0, h.value.1))
  {
    var authority := userinfo + "@" + hostPort;
    LastIndexOfAfter(userinfo, '@', hostPort);
    assert authority[..|userinfo|] == userinfo;
    assert authority[|userinfo| + 1..] == hostPort;
  }

  lemma ParseAuthorityOf(userinfo: string, host: string, port: string)
    requires |host| > 0 && (forall k :: 0 <= k < |host| ==> !IsForbiddenHostCodePoint(host[k]))
    requires (forall k :: 0 <= k < |port| ==> IsDigit(port[k])) && RadixValue(port, 10) <= 65535
    ensures ParseAuthority(Authority(userinfo, host, port))
         == Success((UserinfoParts(userinfo).0, UserinfoParts(userinfo).1, PercentEncode(host, C0Control),
                     PortValue(port)))
  {
    var hostPort := host + PortSuffix(port);
    HostPortOf(host, port);
    ParseAuthorityAt(userinfo, hostPort);
    ParseHostPortOf(host, port);
  }

  lemma ParseQueryFragmentOf(query: Option<string>, fragment: Option<string>)
    requires query.Some? ==> '#' !in query.value
    ensures ParseQueryFragment(Tail(query, fragment))
         == (EncodeOption(query, Query), EncodeOption(fragment, Fragment))
  {
    var q := QuerySuffix(query);
    var f := FragmentSuffix(fragment);
    var tail := q + f;
    var queryStart := FirstOf(tail, {'?', '#'});
    var hashAt := FirstOf(tail, {'#'});
    if query.Some? {
      assert tail[0] == '?';
      assert queryStart == 0;
      FirstOfConcat(q, f, {'#'});
      assert tail[1..hashAt] == query.value;
    } else {
      assert tail == f;
      if fragment.Some? {
        assert queryStart == 0 && hashAt == 0;
      }
    }
    if fragment.Some? {
      assert tail[|q| + 1..] == fragment.value;
    }
  }

  // ------------------------------------------------------ search parameters

  /** Form decoding leaves text without `+` and `%` as it is. */
  lemma FormDecodeUnchanged(s: string)
    requires '+' !in s && '%' !in s
    ensures FormDecode(s) == s
  {
    PlusAsSpaceUnchanged(s);
    EncodeHasNoPercent(s);
    PercentDecodeBytesUnchanged(Utf8.Encode(s));
    Utf8.DecodeLossyEncode(s);
  }

  lemma {:induction false} PlusAsSpaceUnchanged(s: string)
    requires '+' !in s
    ensures PlusAsSpace(s) == s
    decreases |s|
  {
    if |s| > 0 {
      assert '+' !in s[1..];
      PlusAsSpaceUnchanged(s[1..]);
      assert [s[0]] + s[1..] == s;
    }
  }

  /** Only `%` itself encodes to the byte of `%`. */
  lemma {:induction false} EncodeHasNoPercent(s: string)
    requires '%' !in s
    ensures '%' as int !in Utf8.Encode(s)
    decreases |s|
  {
    if |s| > 0 {
      assert '%' !in s[1..];
      EncodeHasNoPercent(s[1..]);
      var e := Utf8.EncodeChar(s[0]);
      assert forall k :: 0 <= k < |e| ==> e[k] != '%' as int;
    }
  }

  lemma {:induction false} PercentDecodeBytesUnchanged(bs: seq<Utf8.Byte>)
    requires '%' as int !in bs
    ensures PercentDecodeBytes(bs) == bs
    decreases |bs|
  {
    if |bs| > 0 {
      assert '%' as int !in bs[1..];
      PercentDecodeBytesUnchanged(bs[1..]);
      assert [bs[0]] + bs[1..] == bs;
    }
  }

  /** A query that is the single parameter `name=value`, with nothing in
      either that form decoding alters, yields `value` for `name`. */
  lemma FormGetSingle(name: string, value: string)
    requires name != "" && '=' !in name && '&' !in name + value
    requires '+' !in name + value && '%' !in name + value
    ensures FormGet(FormPairs(name + "=" + value), name) == Some(value)
  {
    var piece := name + "=" + value;
    assert FormPairs(piece) == [(FormDecode(name), FormDecode(value))] by {
      SplitNoSeparator(piece, '&');
      PieceParts(name, value);
      assert FormPairsOf([piece])[1..] == FormPairsOf([]);
    }
    FormDecodeUnchanged(name);
    FormDecodeUnchanged(value);
  }

  lemma PieceParts(name: string, value: string)
    requires '=' !in name
    ensures var piece := name + "=" + value;
      FirstOf(piece, {'='}) == |name| && piece[..|name|] == name && piece[|name| + 1..] == value
  {
    var piece := name + "=" + value;
    FirstOfConcat(name, "=" + value, {'='});
    assert piece == name + ("=" + value);
    assert piece[..|name|] == name;
    assert piece[|name| + 1..] == value;
  }
}
