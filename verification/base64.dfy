/** `atob` and `btoa` as the HTML standard defines them over the alphabet of
    section 4 of RFC 4648. `btoa` takes a "binary string" (every character at
    most U+00FF, one byte each) and throws for any other character; `atob` is
    the forgiving decoder: it drops ASCII white space, accepts missing padding,
    and fails on any other character outside the alphabet. */
module Base64 {
  import opened Wrappers
  import opened Text

  /** Every character is one byte wide (at most U+00FF). */
  predicate IsLatin1(s: string)
  {
    forall k :: 0 <= k < |s| ==> s[k] as int < 256
  }

  predicate IsBase64Char(c: char)
  {
    ('A' <= c <= 'Z') || ('a' <= c <= 'z') || ('0' <= c <= '9') || c == '+' || c == '/'
  }

  /** ASCII white space as the forgiving decoder strips it: tab, LF, FF, CR, space. */
  predicate IsAsciiWhiteSpace(c: char)
  {
    c == '\t' || c == '\n' || c == '\U{0C}' || c == '\r' || c == ' '
  }

  function Digit(v: nat): (c: char)
    requires v < 64
    ensures IsBase64Char(c)
  {
    if v < 26 then (v + 'A' as int) as char
    else if v < 52 then (v - 26 + 'a' as int) as char
    else if v < 62 then (v - 52 + '0' as int) as char
    else if v == 62 then '+'
    else '/'
  }

  function DigitValue(c: char): (v: nat)
    requires IsBase64Char(c)
    ensures v < 64 && Digit(v) == c
  {
    if 'A' <= c <= 'Z' then c as int - 'A' as int
    else if 'a' <= c <= 'z' then c as int - 'a' as int + 26
    else if '0' <= c <= '9' then c as int - '0' as int + 52
    else if c == '+' then 62
    else 63
  }

  lemma DigitRoundTrip(v: nat)
    requires v < 64
    ensures DigitValue(Digit(v)) == v
  {
  }

  function Byte(s: string, k: nat): (b: nat)
    requires k < |s| && IsLatin1(s)
    ensures b < 256
  {
    s[k] as int
  }

  /** One group of one to three bytes as two to four alphabet characters. */
  function EncodeGroup(s: string): (e: string)
    requires 1 <= |s| <= 3 && IsLatin1(s)
    ensures |e| == |s| + 1
    ensures forall k :: 0 <= k < |e| ==> IsBase64Char(e[k])
  {
    var b0 := Byte(s, 0);
    var b1 := if |s| > 1 then Byte(s, 1) else 0;
    var b2 := if |s| > 2 then Byte(s, 2) else 0;
    [Digit(b0 / 4), Digit(b0 % 4 * 16 + b1 / 16), Digit(b1 % 16 * 4 + b2 / 64), Digit(b2 % 64)][..|s| + 1]
  }

  /** The alphabet characters of the encoding, before padding. */
  function EncodeDigits(s: string): (e: string)
    requires IsLatin1(s)
    ensures forall k :: 0 <= k < |e| ==> IsBase64Char(e[k])
    ensures |s| % 3 == 0 ==> |e| % 4 == 0
    ensures |s| % 3 == 1 ==> |e| % 4 == 2
    ensures |s| % 3 == 2 ==> |e| % 4 == 3
    decreases |s|
  {
    if |s| == 0 then ""
    else if |s| < 3 then EncodeGroup(s)
    else
      var rest := EncodeDigits(s[3..]);
      GroupShift(|s|, |rest|);
      EncodeGroup(s[..3]) + rest
  }

  /** One more group of three bytes adds four characters. */
  lemma GroupShift(n: nat, m: nat)
    requires n >= 3
    requires (n - 3) % 3 == 0 ==> m % 4 == 0
    requires (n - 3) % 3 == 1 ==> m % 4 == 2
    requires (n - 3) % 3 == 2 ==> m % 4 == 3
    ensures n % 3 == 0 ==> (m + 4) % 4 == 0
    ensures n % 3 == 1 ==> (m + 4) % 4 == 2
    ensures n % 3 == 2 ==> (m + 4) % 4 == 3
  {
  }

  function Padding(s: string): string
  {
    if |s| % 3 == 1 then "==" else if |s| % 3 == 2 then "=" else ""
  }

  /** `btoa(s)`: `None` when it throws, that is exactly when some character is
      wider than one byte. */
  function Btoa(s: string): (r: Option<string>)
    ensures r.None? <==> exists k :: 0 <= k < |s| && s[k] as int > 255
    ensures r.Some? ==> |r.value| % 4 == 0
    ensures r.Some? ==> forall k :: 0 <= k < |r.value| ==> IsBase64Char(r.value[k]) || r.value[k] == '='
  {
    if IsLatin1(s) then
      PaddedDigits(s);
      Some(EncodeDigits(s) + Padding(s))
    else None
  }

  /** Padding completes the last group of four. */
  lemma PaddedDigits(s: string)
    requires IsLatin1(s)
    ensures var r := EncodeDigits(s) + Padding(s);
      |r| % 4 == 0 && forall k :: 0 <= k < |r| ==> IsBase64Char(r[k]) || r[k] == '='
  {
    var e, p := EncodeDigits(s), Padding(s);
    PaddingShape(|s|);
    PaddedLength(|s|, |e|, |p|);
    PaddedChars(e, p);
  }

  lemma PaddingShape(n: nat)
    ensures var p := if n % 3 == 1 then "==" else if n % 3 == 2 then "=" else "";
      && (n % 3 == 0 ==> |p| == 0) && (n % 3 == 1 ==> |p| == 2) && (n % 3 == 2 ==> |p| == 1)
      && forall k :: 0 <= k < |p| ==> p[k] == '='
  {
  }

  lemma PaddedChars(e: string, p: string)
    requires forall k :: 0 <= k < |e| ==> IsBase64Char(e[k])
    requires forall k :: 0 <= k < |p| ==> p[k] == '='
    ensures forall k :: 0 <= k < |e + p| ==> IsBase64Char((e + p)[k]) || (e + p)[k] == '='
  {
  }

  lemma PaddedLength(n: nat, m: nat, p: nat)
    requires n % 3 == 0 ==> m % 4 == 0 && p == 0
    requires n % 3 == 1 ==> m % 4 == 2 && p == 2
    requires n % 3 == 2 ==> m % 4 == 3 && p == 1
    ensures (m + p) % 4 == 0
  {
  }

  function RemoveAsciiWhiteSpace(s: string): (t: string)
    ensures forall k :: 0 <= k < |t| ==> !IsAsciiWhiteSpace(t[k])
    ensures forall k :: 0 <= k < |s| && !IsAsciiWhiteSpace(s[k]) ==> s[k] in t
  {
    if |s| == 0 then ""
    else if IsAsciiWhiteSpace(s[0]) then RemoveAsciiWhiteSpace(s[1..])
    else [s[0]] + RemoveAsciiWhiteSpace(s[1..])
  }

  /** Drops one or two trailing `=` from a text whose length is a multiple of four. */
  function StripPadding(d: string): string
  {
    if |d| % 4 == 0 && EndsWith(d, "==") then d[..|d| - 2]
    else if |d| % 4 == 0 && EndsWith(d, "=") then d[..|d| - 1]
    else d
  }

  /** Two to four alphabet characters as one to three bytes; the bits left
      over at the end of a short group are dropped. */
  function DecodeGroup(d: string): (s: string)
    requires 2 <= |d| <= 4 && forall k :: 0 <= k < |d| ==> IsBase64Char(d[k])
    ensures |s| == |d| - 1 && IsLatin1(s)
  {
    var v0, v1 := DigitValue(d[0]), DigitValue(d[1]);
    var v2 := if |d| > 2 then DigitValue(d[2]) else 0;
    var v3 := if |d| > 3 then DigitValue(d[3]) else 0;
    [(v0 * 4 + v1 / 16) as char, (v1 % 16 * 16 + v2 / 4) as char, (v2 % 4 * 64 + v3) as char][..|d| - 1]
  }

  function DecodeDigits(d: string): (s: string)
    requires forall k :: 0 <= k < |d| ==> IsBase64Char(d[k])
    requires |d| % 4 != 1
    ensures IsLatin1(s)
    decreases |d|
  {
    if |d| == 0 then ""
    else if |d| < 4 then DecodeGroup(d)
    else DecodeGroup(d[..4]) + DecodeDigits(d[4..])
  }

  /** `atob(s)`: `None` when it throws. The result is a binary string. */
  function Atob(s: string): (r: Option<string>)
    ensures r.Some? ==> IsLatin1(r.value)
  {
    var d := StripPadding(RemoveAsciiWhiteSpace(s));
    if |d| % 4 == 1 then None
    else if exists k :: 0 <= k < |d| && !IsBase64Char(d[k]) then None
    else Some(DecodeDigits(d))
  }

  /** A character that is neither white space, nor `=`, nor in the alphabet
      makes `atob` throw, wherever it stands. */
  lemma AtobRejects(s: string, k: nat)
    requires k < |s| && !IsBase64Char(s[k]) && !IsAsciiWhiteSpace(s[k]) && s[k] != '='
    ensures Atob(s) == None
  {
    var t := RemoveAsciiWhiteSpace(s);
    assert s[k] in t;
    var i :| 0 <= i < |t| && t[i] == s[k];
    var d := StripPadding(t);
    assert |d| <= |t| && d == t[..|d|];
    assert forall j :: |d| <= j < |t| ==> t[j] == '=';
    assert d[i] == s[k];
  }

  lemma {:induction false} RemoveWhiteSpaceOfNone(s: string)
    requires forall k :: 0 <= k < |s| ==> !IsAsciiWhiteSpace(s[k])
    ensures RemoveAsciiWhiteSpace(s) == s
    decreases |s|
  {
    if |s| > 0 {
      RemoveWhiteSpaceOfNone(s[1..]);
      assert [s[0]] + s[1..] == s;
    }
  }

  lemma GroupArithmetic(b0: nat, b1: nat, b2: nat)
    requires b0 < 256 && b1 < 256 && b2 < 256
    ensures (b0 / 4) * 4 + (b0 % 4 * 16 + b1 / 16) / 16 == b0
    ensures (b0 % 4 * 16 + b1 / 16) % 16 * 16 + (b1 % 16 * 4 + b2 / 64) / 4 == b1
    ensures (b1 % 16 * 4 + b2 / 64) % 4 * 64 + b2 % 64 == b2
  {
  }

  lemma GroupRoundTrip(s: string)
    requires 1 <= |s| <= 3 && IsLatin1(s)
    ensures DecodeGroup(EncodeGroup(s)) == s
  {
    var b0 := Byte(s, 0);
    var b1 := if |s| > 1 then Byte(s, 1) else 0;
    var b2 := if |s| > 2 then Byte(s, 2) else 0;
    var e := EncodeGroup(s);
    EncodedGroupValues(s, b0, b1, b2);
    DecodedGroupBytes(e, b0, b1, b2);
    var r := DecodeGroup(e);
    assert |s| > 1 ==> r[1] == s[1];
    assert |s| > 2 ==> r[2] == s[2];
  }

  /** The digits of an encoded group carry six bits each. */
  lemma EncodedGroupValues(s: string, b0: nat, b1: nat, b2: nat)
    requires 1 <= |s| <= 3 && IsLatin1(s)
    requires b0 == Byte(s, 0) && b1 == (if |s| > 1 then Byte(s, 1) else 0) && b2 == (if |s| > 2 then Byte(s, 2) else 0)
    ensures var e := EncodeGroup(s);
      && DigitValue(e[0]) == b0 / 4 && DigitValue(e[1]) == b0 % 4 * 16 + b1 / 16
      && (|e| > 2 ==> DigitValue(e[2]) == b1 % 16 * 4 + b2 / 64)
      && (|e| > 3 ==> DigitValue(e[3]) == b2 % 64)
  {
    DigitRoundTrip(b0 / 4);
    DigitRoundTrip(b0 % 4 * 16 + b1 / 16);
    DigitRoundTrip(b1 % 16 * 4 + b2 / 64);
    DigitRoundTrip(b2 % 64);
  }

  /** Decoding the digits of a group gives back its bytes. */
  lemma DecodedGroupBytes(e: string, b0: nat, b1: nat, b2: nat)
    requires 2 <= |e| <= 4 && forall k :: 0 <= k < |e| ==> IsBase64Char(e[k])
    requires b0 < 256 && b1 < 256 && b2 < 256
    requires DigitValue(e[0]) == b0 / 4 && DigitValue(e[1]) == b0 % 4 * 16 + b1 / 16
    requires |e| > 2 ==> DigitValue(e[2]) == b1 % 16 * 4 + b2 / 64
    requires |e| > 3 ==> DigitValue(e[3]) == b2 % 64
    ensures var r := DecodeGroup(e);
      && r[0] as int == b0
      && (|e| > 2 ==> r[1] as int == b1)
      && (|e| > 3 ==> r[2] as int == b2)
  {
    GroupArithmetic(b0, b1, b2);
  }

  lemma {:induction false} DecodeEncodeDigits(s: string)
    requires IsLatin1(s)
    ensures DecodeDigits(EncodeDigits(s)) == s
    decreases |s|
  {
    if 0 < |s| < 3 {
      GroupRoundTrip(s);
    } else if |s| >= 3 {
      var g := EncodeGroup(s[..3]);
      var e := EncodeDigits(s);
      assert e == g + EncodeDigits(s[3..]);
      assert e[..4] == g && e[4..] == EncodeDigits(s[3..]);
      GroupRoundTrip(s[..3]);
      DecodeEncodeDigits(s[3..]);
      assert s == s[..3] + s[3..];
    }
  }

  lemma StripNoPadding(u: string)
    requires |u| % 4 == 0 && (|u| == 0 || IsBase64Char(u[|u| - 1]))
    ensures StripPadding(u) == u
  {
    if |u| > 0 {
      assert u[|u| - 1..][0] == u[|u| - 1];
      assert u[|u| - 2..][1] == u[|u| - 1];
    }
  }

  lemma StripTwo(u: string)
    requires |u| % 4 == 2
    ensures StripPadding(u + "==") == u
  {
    var e := u + "==";
    assert (|u| + 2) % 4 == 0;
    assert e[|e| - 2..] == "==";
    assert e[..|e| - 2] == u;
  }

  lemma StripOne(u: string)
    requires |u| % 4 == 3 && IsBase64Char(u[|u| - 1])
    ensures StripPadding(u + "=") == u
  {
    var e := u + "=";
    assert (|u| + 1) % 4 == 0;
    assert e[|e| - 2..][0] == u[|u| - 1];
    assert e[|e| - 1..] == "=";
    assert e[..|e| - 1] == u;
  }

  lemma StripPaddingOfEncoding(s: string)
    requires IsLatin1(s)
    ensures StripPadding(EncodeDigits(s) + Padding(s)) == EncodeDigits(s)
  {
    var u := EncodeDigits(s);
    if |s| % 3 == 0 {
      assert u + Padding(s) == u;
      StripNoPadding(u);
    } else if |s| % 3 == 1 {
      StripTwo(u);
    } else {
      StripOne(u);
    }
  }

  /** `atob` ignores ASCII white space: a line-wrapped or CRLF-terminated
      body decodes as the same text without its white space. */
  lemma AtobIgnoresWhiteSpace(s: string)
    ensures Atob(s) == Atob(RemoveAsciiWhiteSpace(s))
  {
    RemoveWhiteSpaceOfNone(RemoveAsciiWhiteSpace(s));
  }

  /** Padding is optional: the unpadded digits of an encoding decode to the
      text too. */
  lemma AtobUnpadded(s: string)
    requires IsLatin1(s)
    ensures Atob(EncodeDigits(s)) == Some(s)
  {
    var u := EncodeDigits(s);
    assert forall k :: 0 <= k < |u| ==> !IsAsciiWhiteSpace(u[k]) by {
      forall k | 0 <= k < |u| ensures !IsAsciiWhiteSpace(u[k]) {
        assert IsBase64Char(u[k]);
      }
    }
    RemoveWhiteSpaceOfNone(u);
    if |u| % 4 == 0 {
      StripNoPadding(u);
    }
    DecodeEncodeDigits(s);
  }

  /** Section 4 of RFC 4648 round trip: `atob(btoa(s)) == s` for every binary string. */
  lemma AtobBtoa(s: string)
    requires IsLatin1(s)
    ensures Btoa(s).Some? && Atob(Btoa(s).value) == Some(s)
  {
    var u := EncodeDigits(s);
    var e := u + Padding(s);
    assert forall k :: 0 <= k < |e| ==> !IsAsciiWhiteSpace(e[k]) by {
      forall k | 0 <= k < |e| ensures !IsAsciiWhiteSpace(e[k]) {
        if k < |u| { assert IsBase64Char(u[k]); } else { assert e[k] == '='; }
      }
    }
    RemoveWhiteSpaceOfNone(e);
    StripPaddingOfEncoding(s);
    DecodeEncodeDigits(s);
  }
}
