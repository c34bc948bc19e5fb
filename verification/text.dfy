/** String operations of ECMAScript used by the converter: `split` on one
    character, `join`, `startsWith`, `includes`, `trim`, the UTF-16 `length`,
    and decimal numerals. Strings are sequences of Unicode scalar values. */
module Text {

  predicate StartsWith(s: string, prefix: string)
  {
    |prefix| <= |s| && s[..|prefix|] == prefix
  }

  predicate EndsWith(s: string, suffix: string)
  {
    |suffix| <= |s| && s[|s| - |suffix|..] == suffix
  }

  /** `s.includes(sub)` */
  predicate Contains(s: string, sub: string)
    decreases |s|
  {
    StartsWith(s, sub) || (|s| > 0 && Contains(s[1..], sub))
  }

  lemma {:induction false} ContainsAt(s: string, sub: string, i: nat)
    requires i + |sub| <= |s| && s[i..i + |sub|] == sub
    ensures Contains(s, sub)
    decreases i
  {
    if i > 0 {
      assert s[1..][i - 1..i - 1 + |sub|] == s[i..i + |sub|];
      ContainsAt(s[1..], sub, i - 1);
    }
  }

  /** `s.split(sep)` for a one-character separator: never empty. */
  function Split(s: string, sep: char): (parts: seq<string>)
    ensures |parts| >= 1
    decreases |s|
  {
    if |s| == 0 then [""]
    else if s[0] == sep then [""] + Split(s[1..], sep)
    else
      var rest := Split(s[1..], sep);
      [[s[0]] + rest[0]] + rest[1..]
  }

  /** The separator occurs in no part, and there are two parts or more
      exactly when the text holds the separator. */
  lemma {:induction false} SplitParts(s: string, sep: char)
    ensures sep in s <==> |Split(s, sep)| >= 2
    ensures forall k :: 0 <= k < |Split(s, sep)| ==> sep !in Split(s, sep)[k]
    decreases |s|
  {
    if |s| > 0 {
      SplitParts(s[1..], sep);
      var rest := Split(s[1..], sep);
      if s[0] != sep {
        assert s == [s[0]] + s[1..];
        assert ([s[0]] + rest[0])[0] == s[0];
      }
    }
  }

  /** `parts.join(sep)` */
  function Join(parts: seq<string>, sep: string): string
  {
    if |parts| == 0 then ""
    else if |parts| == 1 then parts[0]
    else parts[0] + sep + Join(parts[1..], sep)
  }

  lemma {:induction false} SplitNoSeparator(s: string, sep: char)
    requires sep !in s
    ensures Split(s, sep) == [s]
    decreases |s|
  {
    if |s| > 0 {
      SplitNoSeparator(s[1..], sep);
      assert [s[0]] + s[1..] == s;
    }
  }

  /** Splitting distributes over a separator between two texts. */
  lemma {:induction false} SplitConcat(a: string, b: string, sep: char)
    ensures Split(a + [sep] + b, sep) == Split(a, sep) + Split(b, sep)
    decreases |a|
  {
    if |a| == 0 {
      assert a + [sep] + b == [sep] + b;
      assert ([sep] + b)[1..] == b;
    } else {
      var s := a + [sep] + b;
      assert s[0] == a[0];
      assert s[1..] == a[1..] + [sep] + b;
      SplitConcat(a[1..], b, sep);
    }
  }

  /** `join` and `split` are inverse when no part holds the separator. */
  lemma {:induction false} SplitJoin(parts: seq<string>, sep: char)
    requires |parts| >= 1
    requires forall k :: 0 <= k < |parts| ==> sep !in parts[k]
    ensures Split(Join(parts, [sep]), sep) == parts
    decreases |parts|
  {
    if |parts| == 1 {
      SplitNoSeparator(parts[0], sep);
    } else {
      SplitJoin(parts[1..], sep);
      SplitNoSeparator(parts[0], sep);
      SplitConcat(parts[0], Join(parts[1..], [sep]), sep);
      assert parts[0] + [sep] + Join(parts[1..], [sep]) == Join(parts, [sep]);
      assert [parts[0]] + parts[1..] == parts;
    }
  }

  /** Joining a sequence extended by one part. */
  lemma {:induction false} JoinSnoc(parts: seq<string>, last: string, sep: string)
    requires |parts| >= 1
    ensures Join(parts + [last], sep) == Join(parts, sep) + sep + last
    decreases |parts|
  {
    if |parts| == 1 {
      assert parts + [last] == [parts[0], last];
    } else {
      assert (parts + [last])[1..] == parts[1..] + [last];
      JoinSnoc(parts[1..], last, sep);
    }
  }

  /** Joining two non-empty runs of parts. */
  lemma {:induction false} JoinAppend(a: seq<string>, b: seq<string>, sep: string)
    requires |a| >= 1 && |b| >= 1
    ensures Join(a + b, sep) == Join(a, sep) + sep + Join(b, sep)
    decreases |a|
  {
    if |a| == 1 {
      assert (a + b)[1..] == b;
    } else {
      assert (a + b)[1..] == a[1..] + b;
      JoinAppend(a[1..], b, sep);
    }
  }

  /** Every part with `prefix` in front. */
  function Prefixed(prefix: string, parts: seq<string>): (r: seq<string>)
    ensures |r| == |parts|
    ensures forall k :: 0 <= k < |parts| ==> r[k] == prefix + parts[k]
  {
    seq(|parts|, k requires 0 <= k < |parts| => prefix + parts[k])
  }

  /** A first line followed by the other parts with `prefix` in front. */
  lemma PrefixedRest(first: string, prefix: string, parts: seq<string>)
    requires |parts| >= 1
    ensures var lines := [first] + Prefixed(prefix, parts[1..]);
      |lines| == |parts| && forall k :: 1 <= k < |lines| ==> lines[k] == prefix + parts[k]
  {
    var lines := [first] + Prefixed(prefix, parts[1..]);
    forall k | 1 <= k < |lines| ensures lines[k] == prefix + parts[k] {
      assert lines[k] == Prefixed(prefix, parts[1..])[k - 1];
      assert parts[1..][k - 1] == parts[k];
    }
  }

  /** Putting `prefix` after each separator and in front of the whole is
      putting it in front of each part. */
  lemma {:induction false} JoinPrefixed(prefix: string, parts: seq<string>, sep: string)
    requires |parts| >= 1
    ensures Join(Prefixed(prefix, parts), sep) == prefix + Join(parts, sep + prefix)
    decreases |parts|
  {
    if |parts| > 1 {
      JoinPrefixed(prefix, parts[1..], sep);
      assert Prefixed(prefix, parts)[1..] == Prefixed(prefix, parts[1..]);
    }
  }

  /** A text that contains `sub` contains its first character. */
  lemma {:induction false} ContainsFirst(s: string, sub: string)
    requires |sub| > 0 && Contains(s, sub)
    ensures sub[0] in s
    decreases |s|
  {
    if !StartsWith(s, sub) {
      ContainsFirst(s[1..], sub);
    } else {
      assert s[0] == sub[0];
    }
  }

  lemma {:induction false} ContainsLeft(a: string, b: string, sub: string)
    requires Contains(a, sub)
    ensures Contains(a + b, sub)
    decreases |a|
  {
    if StartsWith(a, sub) {
      assert (a + b)[..|sub|] == a[..|sub|];
    } else {
      ContainsLeft(a[1..], b, sub);
      assert (a + b)[1..] == a[1..] + b;
    }
  }

  lemma {:induction false} ContainsRight(a: string, b: string, sub: string)
    requires Contains(b, sub)
    ensures Contains(a + b, sub)
    decreases |a|
  {
    if |a| > 0 {
      ContainsRight(a[1..], b, sub);
      assert (a + b)[1..] == a[1..] + b;
    } else {
      assert a + b == b;
    }
  }

  /** A joined text contains what any of its parts contains. */
  lemma {:induction false} ContainsJoin(parts: seq<string>, sep: string, i: nat, sub: string)
    requires i < |parts| && Contains(parts[i], sub)
    ensures Contains(Join(parts, sep), sub)
    decreases |parts|
  {
    if |parts| > 1 {
      if i == 0 {
        ContainsLeft(parts[0] + sep, Join(parts[1..], sep), sub) by {
          ContainsLeft(parts[0], sep, sub);
        }
      } else {
        ContainsJoin(parts[1..], sep, i - 1, sub);
        ContainsRight(parts[0] + sep, Join(parts[1..], sep), sub);
      }
    }
  }

  /** The characters `String.prototype.trim` removes: ECMAScript's WhiteSpace
      (tab, vertical tab, form feed, no-break space, the byte-order mark and
      every space separator) and LineTerminator (LF, CR, U+2028, U+2029). */
  predicate IsJsWhiteSpace(c: char)
  {
    var v := c as int;
    v == 0x09 || v == 0x0A || v == 0x0B || v == 0x0C || v == 0x0D || v == 0x20
    || v == 0xA0 || v == 0x1680 || (0x2000 <= v <= 0x200A)
    || v == 0x2028 || v == 0x2029 || v == 0x202F || v == 0x205F
    || v == 0x3000 || v == 0xFEFF
  }

  /** `s.trimStart()` */
  function TrimStart(s: string): string
    decreases |s|
  {
    if |s| > 0 && IsJsWhiteSpace(s[0]) then TrimStart(s[1..]) else s
  }

  /** `s.trimEnd()` */
  function TrimEnd(s: string): string
    decreases |s|
  {
    if |s| > 0 && IsJsWhiteSpace(s[|s| - 1]) then TrimEnd(s[..|s| - 1]) else s
  }

  /** `trimStart` drops the longest run of white space at the start. */
  lemma {:induction false} TrimStartShape(s: string)
    ensures var t := TrimStart(s);
      && |t| <= |s| && t == s[|s| - |t|..]
      && (|t| > 0 ==> !IsJsWhiteSpace(t[0]))
      && forall k :: 0 <= k < |s| - |t| ==> IsJsWhiteSpace(s[k])
    decreases |s|
  {
    if |s| > 0 && IsJsWhiteSpace(s[0]) {
      TrimStartShape(s[1..]);
      var t := TrimStart(s);
      assert s[1..][|s| - 1 - |t|..] == s[|s| - |t|..];
      forall k | 0 <= k < |s| - |t| ensures IsJsWhiteSpace(s[k]) {
        if k > 0 {
          assert s[k] == s[1..][k - 1];
        }
      }
    }
  }

  /** `trimEnd` drops the longest run of white space at the end. */
  lemma {:induction false} TrimEndShape(s: string)
    ensures var t := TrimEnd(s);
      && |t| <= |s| && t == s[..|t|]
      && (|t| > 0 ==> !IsJsWhiteSpace(t[|t| - 1]))
      && forall k :: |t| <= k < |s| ==> IsJsWhiteSpace(s[k])
    decreases |s|
  {
    if |s| > 0 && IsJsWhiteSpace(s[|s| - 1]) {
      TrimEndShape(s[..|s| - 1]);
      var t := TrimEnd(s);
      assert s[..|s| - 1][..|t|] == s[..|t|];
      forall k | |t| <= k < |s| ensures IsJsWhiteSpace(s[k]) {
        if k < |s| - 1 {
          assert s[k] == s[..|s| - 1][k];
        }
      }
    }
  }

  /** Text that does not start with white space keeps its start. */
  lemma TrimStartKeeps(s: string)
    requires |s| > 0 && !IsJsWhiteSpace(s[0])
    ensures TrimStart(s) == s
  {
  }

  /** `s.trim()` */
  function Trim(s: string): string
  {
    TrimEnd(TrimStart(s))
  }

  /** Text without white space trims to itself. */
  lemma TrimWithoutWhiteSpace(s: string)
    requires forall k :: 0 <= k < |s| ==> !IsJsWhiteSpace(s[k])
    ensures Trim(s) == s
  {
    if |s| > 0 {
      assert !IsJsWhiteSpace(s[0]) && !IsJsWhiteSpace(s[|s| - 1]);
    }
  }

  /** A string trims to the empty string exactly when all of it is white space. */
  lemma TrimEmptyIffBlank(s: string)
    ensures Trim(s) == "" <==> forall k :: 0 <= k < |s| ==> IsJsWhiteSpace(s[k])
  {
    TrimStartShape(s);
    var t := TrimStart(s);
    TrimEndShape(t);
    if |t| > 0 {
      assert !IsJsWhiteSpace(s[|s| - |t|]);
      assert TrimEnd(t) != "";
    }
  }

  /** `s.length`: the number of UTF-16 code units, two for a character outside
      the Basic Multilingual Plane. */
  function Utf16Length(s: string): (n: nat)
    ensures |s| <= n <= 2 * |s|
    ensures (forall k :: 0 <= k < |s| ==> s[k] as int < 0x1_0000) ==> n == |s|
    ensures (exists k :: 0 <= k < |s| && s[k] as int >= 0x1_0000) ==> n > |s|
  {
    if |s| == 0 then 0
    else (if s[0] as int >= 0x1_0000 then 2 else 1) + Utf16Length(s[1..])
  }

  /** The length of a text is the sum of the lengths of its characters: one
      code unit in the Basic Multilingual Plane, two (a surrogate pair) above it. */
  lemma {:induction false} Utf16LengthAppend(a: string, b: string)
    ensures Utf16Length(a + b) == Utf16Length(a) + Utf16Length(b)
    ensures |a| == 1 ==> Utf16Length(a) == if a[0] as int >= 0x1_0000 then 2 else 1
    decreases |a|
  {
    if |a| == 0 {
      assert a + b == b;
    } else {
      assert (a + b)[1..] == a[1..] + b;
      Utf16LengthAppend(a[1..], b);
    }
  }

  predicate IsDigit(c: char)
  {
    '0' <= c <= '9'
  }

  function DigitChar(d: nat): (c: char)
    requires d < 10
    ensures IsDigit(c) && c as int - '0' as int == d
  {
    (d + '0' as int) as char
  }

  /** The decimal numeral of a natural number, without leading zeros. */
  function NatToString(n: nat): (s: string)
    ensures |s| >= 1 && (forall k :: 0 <= k < |s| ==> IsDigit(s[k]))
    ensures |s| > 1 ==> s[0] != '0'
  {
    if n < 10 then [DigitChar(n)] else NatToString(n / 10) + [DigitChar(n % 10)]
  }

  /** `String(n)` for an integer-valued number. */
  function IntToString(n: int): string
  {
    if n < 0 then "-" + NatToString(-n) else NatToString(n)
  }

  /** The value of a string of radix-10 or radix-16 digits. */
  function RadixValue(ds: string, radix: nat): nat
    requires radix == 10 || radix == 16
    requires forall k :: 0 <= k < |ds| ==> IsRadixDigit(ds[k], radix)
    decreases |ds|
  {
    if |ds| == 0 then 0
    else
      assert IsRadixDigit(ds[|ds| - 1], radix);
      RadixValue(ds[..|ds| - 1], radix) * radix + DigitValue(ds[|ds| - 1])
  }

  predicate IsHexDigit(c: char)
  {
    IsDigit(c) || ('a' <= c <= 'f') || ('A' <= c <= 'F')
  }

  predicate IsRadixDigit(c: char, radix: nat)
  {
    if radix == 16 then IsHexDigit(c) else IsDigit(c)
  }

  function DigitValue(c: char): (d: nat)
    requires IsHexDigit(c)
    ensures d < 16
    ensures IsDigit(c) ==> d < 10
  {
    if IsDigit(c) then c as int - '0' as int
    else if 'a' <= c <= 'f' then c as int - 'a' as int + 10
    else c as int - 'A' as int + 10
  }

  /** Reading a decimal numeral back gives the number it was made from. */
  lemma {:induction false} NatToStringValue(n: nat)
    ensures RadixValue(NatToString(n), 10) == n
    decreases n
  {
    var s := NatToString(n);
    if n >= 10 {
      NatToStringValue(n / 10);
      assert s[..|s| - 1] == NatToString(n / 10);
    }
  }
}
