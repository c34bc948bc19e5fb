/** UTF-8 as both ECMAScript (`encodeURIComponent`, `decodeURIComponent`) and
    the WHATWG URL and Encoding standards use it: the encoding of one scalar
    value, the well-formed byte sequences of Table 3-7 of the Unicode
    standard, and the Encoding standard's decoder, which turns every
    ill-formed sequence into U+FFFD. */
module Utf8 {

  type Byte = b: int | 0 <= b < 256

  const Replacement: char := '\U{FFFD}'

  /** The encoding of one scalar value: one byte below U+0080, else a lead byte
      and one to three continuation bytes. */
  function EncodeChar(c: char): (bs: seq<Byte>)
    ensures 1 <= |bs| <= 4
    ensures |bs| == 1 <==> c as int < 0x80
    ensures |bs| == 1 ==> bs[0] == c as int
  {
    var v := c as int;
    if v < 0x80 then [v]
    else if v < 0x800 then [0xC0 + v / 64, 0x80 + v % 64]
    else if v < 0x1_0000 then [0xE0 + v / 4096, 0x80 + v / 64 % 64, 0x80 + v % 64]
    else [0xF0 + v / 262144, 0x80 + v / 4096 % 64, 0x80 + v / 64 % 64, 0x80 + v % 64]
  }

  function Encode(s: string): seq<Byte>
  {
    if |s| == 0 then [] else EncodeChar(s[0]) + Encode(s[1..])
  }

  /** How many bytes a sequence starting with `lead` has; 0 for a byte that
      cannot start one (a continuation byte, C0, C1, F5 to FF). */
  function SequenceLength(lead: Byte): nat
  {
    if lead < 0x80 then 1
    else if 0xC2 <= lead <= 0xDF then 2
    else if 0xE0 <= lead <= 0xEF then 3
    else if 0xF0 <= lead <= 0xF4 then 4
    else 0
  }

  /** The bytes allowed right after `lead`, which rule out overlong forms,
      surrogates and values above U+10FFFF. */
  function SecondLow(lead: Byte): Byte
  {
    if lead == 0xE0 then 0xA0 else if lead == 0xF0 then 0x90 else 0x80
  }

  function SecondHigh(lead: Byte): Byte
  {
    if lead == 0xED then 0x9F else if lead == 0xF4 then 0x8F else 0xBF
  }

  /** Whether byte `k` (1 <= k) of a sequence led by `lead` may be `b`. */
  predicate Continues(lead: Byte, k: nat, b: Byte)
  {
    if k == 1 then SecondLow(lead) <= b <= SecondHigh(lead) else 0x80 <= b <= 0xBF
  }

  /** One well-formed multi-byte sequence or a single ASCII byte. */
  predicate WellFormed(bs: seq<Byte>)
  {
    |bs| >= 1 && SequenceLength(bs[0]) == |bs|
    && forall k :: 1 <= k < |bs| ==> Continues(bs[0], k, bs[k])
  }

  /** The scalar value a well-formed sequence encodes. */
  function DecodeSequence(bs: seq<Byte>): (c: char)
    requires WellFormed(bs)
    ensures EncodeChar(c) == bs
  {
    var n := |bs|;
    if n == 1 then bs[0] as char
    else if n == 2 then
      DecodeTwo(bs[0], bs[1])
    else if n == 3 then
      assert Continues(bs[0], 1, bs[1]) && Continues(bs[0], 2, bs[2]);
      DecodeThree(bs[0], bs[1], bs[2])
    else
      assert Continues(bs[0], 1, bs[1]) && Continues(bs[0], 2, bs[2]) && Continues(bs[0], 3, bs[3]);
      DecodeFour(bs[0], bs[1], bs[2], bs[3])
  }

  function DecodeTwo(b0: Byte, b1: Byte): (c: char)
    requires 0xC2 <= b0 <= 0xDF && 0x80 <= b1 <= 0xBF
    ensures EncodeChar(c) == [b0, b1]
  {
    var v := (b0 - 0xC0) * 64 + (b1 - 0x80);
    assert 0x80 <= v < 0x800;
    v as char
  }

  function DecodeThree(b0: Byte, b1: Byte, b2: Byte): (c: char)
    requires 0xE0 <= b0 <= 0xEF && SecondLow(b0) <= b1 <= SecondHigh(b0) && 0x80 <= b2 <= 0xBF
    ensures EncodeChar(c) == [b0, b1, b2]
  {
    var v := (b0 - 0xE0) * 4096 + (b1 - 0x80) * 64 + (b2 - 0x80);
    assert 0x800 <= v < 0xD800 || 0xE000 <= v < 0x1_0000;
    ThreeDigits(b0 - 0xE0, b1 - 0x80, b2 - 0x80);
    v as char
  }

  /** The base-64 digits of a three-byte scalar value. */
  lemma ThreeDigits(d0: int, d1: int, d2: int)
    requires 0 <= d0 < 16 && 0 <= d1 < 64 && 0 <= d2 < 64
    ensures var v := d0 * 4096 + d1 * 64 + d2;
      v / 4096 == d0 && v / 64 % 64 == d1 && v % 64 == d2
  {
    var v := d0 * 4096 + d1 * 64 + d2;
    Split64(d0 * 64 + d1, d2);
    assert v == (d0 * 64 + d1) * 64 + d2;
    Split64(d0, d1);
    DivideTwice(v);
  }

  function DecodeFour(b0: Byte, b1: Byte, b2: Byte, b3: Byte): (c: char)
    requires 0xF0 <= b0 <= 0xF4 && SecondLow(b0) <= b1 <= SecondHigh(b0)
    requires 0x80 <= b2 <= 0xBF && 0x80 <= b3 <= 0xBF
    ensures EncodeChar(c) == [b0, b1, b2, b3]
  {
    var v := (b0 - 0xF0) * 262144 + (b1 - 0x80) * 4096 + (b2 - 0x80) * 64 + (b3 - 0x80);
    assert 0x1_0000 <= v < 0x11_0000;
    FourDigits(b0 - 0xF0, b1 - 0x80, b2 - 0x80, b3 - 0x80);
    v as char
  }

  /** The base-64 digits of a four-byte scalar value. */
  lemma FourDigits(d0: int, d1: int, d2: int, d3: int)
    requires 0 <= d0 <= 4 && 0 <= d1 < 64 && 0 <= d2 < 64 && 0 <= d3 < 64
    ensures var v := d0 * 262144 + d1 * 4096 + d2 * 64 + d3;
      v / 262144 == d0 && v / 4096 % 64 == d1 && v / 64 % 64 == d2 && v % 64 == d3
  {
    var v := d0 * 262144 + d1 * 4096 + d2 * 64 + d3;
    Split64(d0 * 4096 + d1 * 64 + d2, d3);
    assert v == (d0 * 4096 + d1 * 64 + d2) * 64 + d3;
    Split64(d0 * 64 + d1, d2);
    assert d0 * 4096 + d1 * 64 + d2 == (d0 * 64 + d1) * 64 + d2;
    Split64(d0, d1);
    DivideTwice(v);
  }

  lemma Split64(a: int, r: int)
    requires 0 <= r < 64
    ensures (a * 64 + r) / 64 == a && (a * 64 + r) % 64 == r
  {
  }

  lemma Split4096(a: int, r: int)
    requires 0 <= r < 4096
    ensures (a * 4096 + r) / 4096 == a && (a * 4096 + r) % 4096 == r
  {
  }

  lemma Split262144(a: int, r: int)
    requires 0 <= r < 262144
    ensures (a * 262144 + r) / 262144 == a
  {
  }

  /** Every scalar value encodes to a well-formed sequence that decodes back to it. */
  lemma EncodeCharWellFormed(c: char)
    ensures WellFormed(EncodeChar(c)) && DecodeSequence(EncodeChar(c)) == c
  {
    var v := c as int;
    var bs := EncodeChar(c);
    if v < 0x80 {
    } else if v < 0x800 {
      assert bs[0] == 0xC0 + v / 64;
    } else if v < 0x1_0000 {
      assert bs[0] == 0xE0 + v / 4096 && bs[1] == 0x80 + v / 64 % 64;
      assert v / 4096 == 0 ==> v / 64 % 64 >= 32;
      assert v / 4096 == 13 ==> v / 64 % 64 < 32;
    } else {
      assert bs[0] == 0xF0 + v / 262144 && bs[1] == 0x80 + v / 4096 % 64;
      assert v / 262144 == 0 ==> v / 4096 % 64 >= 16;
      assert v / 262144 == 4 ==> v / 4096 % 64 < 16;
    }
    assert WellFormed(bs);
    var d := DecodeSequence(bs);
    assert EncodeChar(d) == bs;
    EncodeCharInjective(c, d);
  }

  lemma EncodeCharInjective(c: char, d: char)
    requires EncodeChar(c) == EncodeChar(d)
    ensures c == d
  {
    var v, w := c as int, d as int;
    var bs := EncodeChar(c);
    if |bs| == 2 {
      assert bs[0] == 0xC0 + v / 64 == 0xC0 + w / 64;
      SameBase64Digits(v, w);
    } else if |bs| == 3 {
      assert bs[0] == 0xE0 + v / 4096 == 0xE0 + w / 4096;
      DivideTwice(v);
      DivideTwice(w);
      SameBase64Digits(v / 64, w / 64);
      SameBase64Digits(v, w);
    } else if |bs| == 4 {
      assert bs[0] == 0xF0 + v / 262144 == 0xF0 + w / 262144;
      DivideTwice(v);
      DivideTwice(w);
      SameBase64Digits(v / 4096, w / 4096);
      SameBase64Digits(v / 64, w / 64);
      SameBase64Digits(v, w);
    }
  }

  /** Two naturals with the same quotient and remainder by 64 are equal. */
  lemma SameBase64Digits(v: int, w: int)
    requires v >= 0 && w >= 0 && v / 64 == w / 64 && v % 64 == w % 64
    ensures v == w
  {
    assert v == (v / 64) * 64 + v % 64;
    assert w == (w / 64) * 64 + w % 64;
  }

  lemma DivideTwice(v: int)
    requires v >= 0
    ensures v / 64 / 64 == v / 4096 && v / 4096 / 64 == v / 262144
  {
  }

  /** How many bytes after the lead, counting from index `k`, continue the
      sequence `bs[0]` starts, up to the `n - 1` it needs. */
  function Matched(bs: seq<Byte>, n: nat, k: nat): (m: nat)
    requires 1 <= k <= n && |bs| >= 1
    requires forall j :: 1 <= j < k ==> j < |bs| && Continues(bs[0], j, bs[j])
    ensures k - 1 <= m <= n - 1 && m < |bs|
    ensures forall j :: 1 <= j <= m ==> Continues(bs[0], j, bs[j])
    ensures m < n - 1 ==> m + 1 == |bs| || !Continues(bs[0], m + 1, bs[m + 1])
    decreases n - k
  {
    assert k == 1 || Continues(bs[0], k - 1, bs[k - 1]);
    if k == n || k >= |bs| || !Continues(bs[0], k, bs[k]) then k - 1 else Matched(bs, n, k + 1)
  }

  /** The UTF-8 decoder of the Encoding standard: each maximal ill-formed
      prefix of a sequence becomes one U+FFFD and decoding resumes at the
      first byte that did not fit. */
  function DecodeLossy(bs: seq<Byte>): string
    decreases |bs|
  {
    if |bs| == 0 then ""
    else
      var n := SequenceLength(bs[0]);
      if n == 0 then [Replacement] + DecodeLossy(bs[1..])
      else if n == 1 then [bs[0] as char] + DecodeLossy(bs[1..])
      else
        var m := Matched(bs, n, 1);
        if m == n - 1 then
          assert WellFormed(bs[..n]);
          [DecodeSequence(bs[..n])] + DecodeLossy(bs[n..])
        else [Replacement] + DecodeLossy(bs[1 + m..])
  }

  lemma {:induction false} MatchedAll(bs: seq<Byte>, n: nat, k: nat)
    requires 1 <= k <= n <= |bs|
    requires forall j :: 1 <= j < n ==> Continues(bs[0], j, bs[j])
    ensures Matched(bs, n, k) == n - 1
    decreases n - k
  {
    if k < n {
      MatchedAll(bs, n, k + 1);
    }
  }

  /** The decoder reads back every encoding: `decode(encode(s)) == s`. */
  lemma {:induction false} DecodeLossyEncode(s: string)
    ensures DecodeLossy(Encode(s)) == s
    decreases |s|
  {
    if |s| > 0 {
      var e := EncodeChar(s[0]);
      var rest := Encode(s[1..]);
      var bs := e + rest;
      assert bs == Encode(s);
      EncodeCharWellFormed(s[0]);
      var n := |e|;
      assert bs[0] == e[0] && SequenceLength(bs[0]) == n;
      assert bs[..n] == e && bs[n..] == rest;
      if n > 1 {
        forall j | 1 <= j < n ensures Continues(bs[0], j, bs[j]) {
          assert bs[j] == e[j];
        }
        MatchedAll(bs, n, 1);
      }
      DecodeLossyEncode(s[1..]);
      assert [s[0]] + s[1..] == s;
    }
  }

  /** The binary string of a byte sequence: one character per byte, as
      `atob` produces and `btoa` consumes. */
  function BinaryString(bs: seq<Byte>): (s: string)
    ensures |s| == |bs|
    ensures forall k :: 0 <= k < |s| ==> s[k] as int == bs[k]
  {
    seq(|bs|, k requires 0 <= k < |bs| => bs[k] as char)
  }

  /** The bytes of a binary string. */
  function BinaryBytes(s: string): (bs: seq<Byte>)
    requires forall k :: 0 <= k < |s| ==> s[k] as int < 256
    ensures BinaryString(bs) == s
  {
    seq(|s|, k requires 0 <= k < |s| => s[k] as int)
  }

  /** A text with a character outside ASCII has more UTF-8 bytes than characters. */
  lemma {:induction false} EncodeLonger(s: string)
    ensures |Encode(s)| >= |s|
    ensures (exists k :: 0 <= k < |s| && s[k] as int >= 0x80) ==> |Encode(s)| > |s|
    decreases |s|
  {
    if |s| > 0 {
      EncodeLonger(s[1..]);
      if exists k :: 0 <= k < |s| && s[k] as int >= 0x80 {
        var k :| 0 <= k < |s| && s[k] as int >= 0x80;
        if k > 0 {
          assert s[1..][k - 1] as int >= 0x80;
        }
      }
    }
  }
}
