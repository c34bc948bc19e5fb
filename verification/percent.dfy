/** Percent-encoding (section 2.1 of RFC 3986): the WHATWG URL standard's
    UTF-8 percent-encoding with its encode sets, ECMAScript's
    `encodeURIComponent`, and ECMAScript's `decodeURIComponent` (the Decode
    operation of ECMA-262 with an empty reserved set), which throws on a
    malformed escape or on escapes that are not well-formed UTF-8. */
module Percent {
  import opened Wrappers
  import opened Text
  import opened Utf8

  /** The code points each encoding escapes. */
  datatype EncodeSet = C0Control | Fragment | Query | Path | Userinfo | Component

  predicate InC0ControlSet(c: char)
  {
    c as int < 0x20 || c as int > 0x7E
  }

  predicate InQuerySet(c: char)
  {
    InC0ControlSet(c) || c in " \"#<>"
  }

  predicate InPathSet(c: char)
  {
    InQuerySet(c) || c in "?`{}"
  }

  predicate InSet(e: EncodeSet, c: char)
  {
    match e
    case C0Control => InC0ControlSet(c)
    case Fragment => InC0ControlSet(c) || c in " \"<>`"
    case Query => InQuerySet(c)
    case Path => InPathSet(c)
    case Userinfo => InPathSet(c) || c in "/:;=@[\\]^|"
    case Component =>
      !(('A' <= c <= 'Z') || ('a' <= c <= 'z') || ('0' <= c <= '9') || c in "-_.!~*'()")
  }

  lemma NonAsciiInEverySet(e: EncodeSet, c: char)
    requires c as int >= 0x80
    ensures InSet(e, c)
  {
  }

  function HexUpper(d: nat): (c: char)
    requires d < 16
    ensures IsHexDigit(c) && DigitValue(c) == d
  {
    if d < 10 then (d + '0' as int) as char else (d - 10 + 'A' as int) as char
  }

  /** `%XX` with upper-case hexadecimal digits. */
  function EscapeByte(b: Byte): string
  {
    ['%', HexUpper(b / 16), HexUpper(b % 16)]
  }

  function EscapeBytes(bs: seq<Byte>): (s: string)
    ensures |s| == 3 * |bs|
  {
    if |bs| == 0 then "" else EscapeByte(bs[0]) + EscapeBytes(bs[1..])
  }

  /** Each character in the set becomes the escapes of its UTF-8 bytes. */
  function EncodeChar(e: EncodeSet, c: char): string
  {
    if InSet(e, c) then EscapeBytes(Utf8.EncodeChar(c)) else [c]
  }

  function PercentEncode(s: string, e: EncodeSet): string
  {
    if |s| == 0 then "" else EncodeChar(e, s[0]) + PercentEncode(s[1..], e)
  }

  /** `encodeURIComponent(s)`. */
  function EncodeURIComponent(s: string): string
  {
    PercentEncode(s, Component)
  }

  /** A well-formed escape `%XX` starts at index `i`. */
  predicate IsEscape(s: string, i: nat)
  {
    i + 3 <= |s| && s[i] == '%' && IsHexDigit(s[i + 1]) && IsHexDigit(s[i + 2])
  }

  function EscapedByte(s: string, i: nat): Byte
    requires IsEscape(s, i)
  {
    DigitValue(s[i + 1]) * 16 + DigitValue(s[i + 2])
  }

  /** The number of leading one bits of a byte, five standing for five or more. */
  function LeadingOnes(b: Byte): nat
  {
    if b < 0x80 then 0 else if b < 0xC0 then 1 else if b < 0xE0 then 2
    else if b < 0xF0 then 3 else if b < 0xF8 then 4 else 5
  }

  function Prepend(c: char, r: Option<string>): Option<string>
  {
    match r
    case None => None
    case Some(t) => Some([c] + t)
  }

  /** `decodeURIComponent(s)`: `None` when it throws a URIError. */
  function DecodeURIComponent(s: string): (r: Option<string>)
    decreases |s|
  {
    if |s| == 0 then Some("")
    else if s[0] != '%' then Prepend(s[0], DecodeURIComponent(s[1..]))
    else if !IsEscape(s, 0) then None
    else
      var b := EscapedByte(s, 0);
      if b < 0x80 then Prepend(b as char, DecodeURIComponent(s[3..]))
      else
        var n := LeadingOnes(b);
        if n < 2 || n > 4 || |s| < 3 * n then None
        else if exists j :: 1 <= j < n && !IsEscape(s, 3 * j) then None
        else
          var octets := seq(n, j requires 0 <= j < n => EscapedByte(s, 3 * j));
          if !WellFormed(octets) then None
          else Prepend(DecodeSequence(octets), DecodeURIComponent(s[3 * n..]))
  }

  /** Text without `%` decodes to itself. */
  lemma {:induction false} DecodeWithoutEscapes(s: string)
    requires '%' !in s
    ensures DecodeURIComponent(s) == Some(s)
    decreases |s|
  {
    if |s| > 0 {
      DecodeWithoutEscapes(s[1..]);
      assert [s[0]] + s[1..] == s;
    }
  }

  /** A `%` that does not start a well-formed escape makes the decoding throw,
      wherever it stands. */
  lemma {:induction false} DecodeRejectsBadEscape(s: string, i: nat)
    requires i < |s| && s[i] == '%' && !IsEscape(s, i)
    ensures DecodeURIComponent(s) == None
    decreases |s|
  {
    if s[0] != '%' {
      DecodeRejectsBadEscape(s[1..], i - 1);
    } else if IsEscape(s, 0) {
      assert i >= 3;
      var b := EscapedByte(s, 0);
      if b < 0x80 {
        DecodeRejectsBadEscape(s[3..], i - 3);
      } else {
        var n := LeadingOnes(b);
        if 2 <= n <= 4 && |s| >= 3 * n && forall j :: 1 <= j < n ==> IsEscape(s, 3 * j) {
          EscapeRun(s, n);
          assert i >= 3 * n;
          DecodeRejectsBadEscape(s[3 * n..], i - 3 * n);
        }
      }
    }
  }

  /** Inside a run of `n` escapes, every third character starts an escape and
      the others are hexadecimal digits. */
  lemma EscapeRun(s: string, n: nat)
    requires 3 * n <= |s|
    requires forall j :: 0 <= j < n ==> IsEscape(s, 3 * j)
    ensures forall i :: 0 <= i < 3 * n && i % 3 == 0 ==> IsEscape(s, i)
    ensures forall i :: 0 <= i < 3 * n && i % 3 != 0 ==> IsHexDigit(s[i])
  {
    forall i | 0 <= i < 3 * n
      ensures i % 3 == 0 ==> IsEscape(s, i)
      ensures i % 3 != 0 ==> IsHexDigit(s[i])
    {
      var j := i / 3;
      assert IsEscape(s, 3 * j);
      assert i == 3 * j || i == 3 * j + 1 || i == 3 * j + 2;
    }
  }

  lemma {:induction false} EscapeBytesAt(bs: seq<Byte>, rest: string, j: nat)
    requires j < |bs|
    ensures IsEscape(EscapeBytes(bs) + rest, 3 * j)
    ensures EscapedByte(EscapeBytes(bs) + rest, 3 * j) == bs[j]
    decreases j
  {
    var s := EscapeBytes(bs) + rest;
    if j == 0 {
      assert s[..3] == EscapeByte(bs[0]);
    } else {
      assert s == EscapeByte(bs[0]) + (EscapeBytes(bs[1..]) + rest);
      EscapeBytesAt(bs[1..], rest, j - 1);
      var t := EscapeBytes(bs[1..]) + rest;
      assert t[3 * (j - 1)..3 * j] == s[3 * j..3 * j + 3];
    }
  }

  /** The escapes of one character's UTF-8 bytes decode to that character. */
  lemma DecodeEscapedChar(c: char, rest: string)
    ensures DecodeURIComponent(EscapeBytes(Utf8.EncodeChar(c)) + rest)
         == Prepend(c, DecodeURIComponent(rest))
  {
    var bs := Utf8.EncodeChar(c);
    var n := |bs|;
    var s := EscapeBytes(bs) + rest;
    forall j | 0 <= j < n ensures IsEscape(s, 3 * j) && EscapedByte(s, 3 * j) == bs[j] {
      EscapeBytesAt(bs, rest, j);
    }
    assert s[3 * n..] == rest;
    EncodeCharWellFormed(c);
    if n > 1 {
      assert LeadingOnes(bs[0]) == n;
      var octets := seq(n, j requires 0 <= j < n => EscapedByte(s, 3 * j));
      assert octets == bs;
    }
  }

  /** `decodeURIComponent` undoes percent-encoding with any of the sets, as
      long as a literal `%` in the text is itself escaped. */
  lemma {:induction false} DecodePercentEncode(s: string, e: EncodeSet)
    requires '%' in s ==> InSet(e, '%')
    ensures DecodeURIComponent(PercentEncode(s, e)) == Some(s)
    decreases |s|
  {
    if |s| > 0 {
      var rest := PercentEncode(s[1..], e);
      assert '%' in s[1..] ==> '%' in s;
      DecodePercentEncode(s[1..], e);
      if InSet(e, s[0]) {
        DecodeEscapedChar(s[0], rest);
      } else {
        assert ([s[0]] + rest)[1..] == rest;
      }
      assert [s[0]] + s[1..] == s;
    }
  }

  /** `decodeURIComponent(encodeURIComponent(s)) == s` for every string. */
  lemma DecodeEncodeURIComponent(s: string)
    ensures DecodeURIComponent(EncodeURIComponent(s)) == Some(s)
  {
    DecodePercentEncode(s, Component);
  }

  /** Text with nothing in the set is left as it is. */
  lemma {:induction false} PercentEncodeUnchanged(s: string, e: EncodeSet)
    requires forall k :: 0 <= k < |s| ==> !InSet(e, s[k])
    ensures PercentEncode(s, e) == s
    decreases |s|
  {
    if |s| > 0 {
      PercentEncodeUnchanged(s[1..], e);
      assert [s[0]] + s[1..] == s;
    }
  }

  /** Encoding adds only `%` and hexadecimal digits, so any other character
      absent from the text is absent from its encoding. */
  lemma {:induction false} PercentEncodeAbsent(s: string, e: EncodeSet, c: char)
    requires c !in s && c != '%' && !IsHexDigit(c)
    ensures c !in PercentEncode(s, e)
    decreases |s|
  {
    if |s| > 0 {
      assert c !in s[1..];
      PercentEncodeAbsent(s[1..], e, c);
      if InSet(e, s[0]) {
        EscapeBytesAbsent(Utf8.EncodeChar(s[0]), c);
      }
    }
  }

  lemma {:induction false} EscapeBytesAbsent(bs: seq<Byte>, c: char)
    requires c != '%' && !IsHexDigit(c)
    ensures c !in EscapeBytes(bs)
    decreases |bs|
  {
    if |bs| > 0 {
      EscapeBytesAbsent(bs[1..], c);
    }
  }

  /** A character of the set at index `k` leaves a `%` in the encoding. */
  lemma {:induction false} PercentEncodeEscapes(s: string, e: EncodeSet, k: nat)
    requires k < |s| && InSet(e, s[k])
    ensures '%' in PercentEncode(s, e)
    decreases k
  {
    if k == 0 {
      var bs := Utf8.EncodeChar(s[0]);
      assert EscapeBytes(bs)[0] == '%';
    } else {
      PercentEncodeEscapes(s[1..], e, k - 1);
      var head := EncodeChar(e, s[0]);
      var tail := PercentEncode(s[1..], e);
      var i :| 0 <= i < |tail| && tail[i] == '%';
      assert (head + tail)[|head| + i] == '%';
    }
  }

  /** A character of the set other than `%` and the hexadecimal digits is
      never left in the encoding. */
  lemma {:induction false} PercentEncodeOmits(s: string, e: EncodeSet, c: char)
    requires InSet(e, c) && c != '%' && !IsHexDigit(c)
    ensures c !in PercentEncode(s, e)
    decreases |s|
  {
    if |s| > 0 {
      PercentEncodeOmits(s[1..], e, c);
      if InSet(e, s[0]) {
        EscapeBytesAbsent(Utf8.EncodeChar(s[0]), c);
      }
    }
  }
}
