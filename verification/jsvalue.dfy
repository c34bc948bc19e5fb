/** The JavaScript values the converter handles (what `JSON.parse` yields, plus
    `undefined` and `NaN`), with the ECMAScript operations applied to them:
    truthiness (`||`, `&&`, `if`), `String(v)` as used by template literals,
    property access, object spread and `parseInt`. Objects keep their
    properties in insertion order. Numbers are integers. */
module JsValue {
  import opened Wrappers
  import opened Text

  datatype Value =
    | Undefined
    | Null
    | Bool(b: bool)
    | Num(n: int)
    | NaN
    | Str(s: string)
    | Arr(items: seq<Value>)
    | Obj(fields: seq<(string, Value)>)

  /** ECMAScript ToBoolean. */
  predicate Truthy(v: Value)
  {
    match v
    case Undefined => false
    case Null => false
    case Bool(b) => b
    case Num(n) => n != 0
    case NaN => false
    case Str(s) => s != ""
    case Arr(_) => true
    case Obj(_) => true
  }

  /** ECMAScript ToString, for the values above (an array joins its elements
      with commas, writing `null` and `undefined` elements as empty text). */
  function ToString(v: Value): string
  {
    match v
    case Undefined => "undefined"
    case Null => "null"
    case Bool(b) => if b then "true" else "false"
    case Num(n) => IntToString(n)
    case NaN => "NaN"
    case Str(s) => s
    case Arr(items) => JoinElements(items)
    case Obj(_) => "[object Object]"
  }

  function JoinElements(items: seq<Value>): string
    decreases items
  {
    if |items| == 0 then ""
    else
      var first := if items[0].Undefined? || items[0].Null? then "" else ToString(items[0]);
      if |items| == 1 then first else first + "," + JoinElements(items[1..])
  }

  /** The value of the first property named `key`, `undefined` when there is none. */
  function Lookup(fields: seq<(string, Value)>, key: string): (v: Value)
    ensures v != Undefined ==> exists k :: 0 <= k < |fields| && fields[k] == (key, v)
    ensures (forall k :: 0 <= k < |fields| ==> fields[k].0 != key) ==> v == Undefined
    ensures forall k :: 0 <= k < |fields| && fields[k].0 == key && (forall j :: 0 <= j < k ==> fields[j].0 != key)
                        ==> v == fields[k].1
  {
    if |fields| == 0 then Undefined
    else if fields[0].0 == key then fields[0].1
    else Lookup(fields[1..], key)
  }

  /** `v[key]`: reading a property of `null` or `undefined` throws a TypeError
      (`None`); a primitive or an array has none of the keys read here. */
  function Get(v: Value, key: string): (r: Option<Value>)
    ensures r.None? <==> v.Undefined? || v.Null?
    ensures v.Obj? ==> r == Some(Lookup(v.fields, key))
  {
    match v
    case Undefined => None
    case Null => None
    case Obj(fields) => Some(Lookup(fields, key))
    case _ => Some(Undefined)
  }

  /** Sets property `key`: an existing property keeps its position and takes the
      new value; a new one goes last. */
  function Put(fields: seq<(string, Value)>, key: string, v: Value): (r: seq<(string, Value)>)
    ensures Lookup(r, key) == v
    ensures forall k :: k != key ==> Lookup(r, k) == Lookup(fields, k)
  {
    if |fields| == 0 then [(key, v)]
    else if fields[0].0 == key then [(key, v)] + fields[1..]
    else [fields[0]] + Put(fields[1..], key, v)
  }

  /** The own enumerable properties that `{...v}` copies: an object's
      properties, an array's or a string's elements under their indices, and
      nothing for the other primitives, `null` and `undefined`. */
  function Spread(v: Value): (r: seq<(string, Value)>)
    ensures v.Obj? ==> r == v.fields
    ensures !(v.Obj? || v.Arr? || v.Str?) ==> r == []
  {
    match v
    case Obj(fields) => fields
    case Arr(items) => seq(|items|, k requires 0 <= k < |items| => (IntToString(k), items[k]))
    case Str(s) => seq(|s|, k requires 0 <= k < |s| => (IntToString(k), Str([s[k]])))
    case _ => []
  }

  /** Section 19.2.5 of ECMA-262, `parseInt(s)` with no radix: skip leading
      white space, read an optional sign, then an unsigned numeral; `None`
      stands for `NaN`. */
  function ParseInt(s: string): (r: Option<int>)
  {
    var t := TrimStart(s);
    var signed := |t| > 0 && (t[0] == '-' || t[0] == '+');
    var v := ParseUnsigned(if signed then t[1..] else t);
    if signed && t[0] == '-' && v.Some? then Some(-v.value) else v
  }

  /** The steps of `parseInt` after the sign: an optional `0x`/`0X` prefix
      selects radix 16, then the longest run of digits of the radix is read. */
  function ParseUnsigned(u: string): (r: Option<int>)
    ensures r.Some? ==> r.value >= 0
  {
    var hex := |u| >= 2 && u[0] == '0' && (u[1] == 'x' || u[1] == 'X');
    var radix := if hex then 16 else 10;
    var body := if hex then u[2..] else u;
    var n := DigitRun(body, radix);
    if n == 0 then None else Some(RadixValue(body[..n], radix))
  }

  /** The length of the longest prefix of radix digits. */
  function DigitRun(s: string, radix: nat): (n: nat)
    ensures n <= |s|
    ensures forall k :: 0 <= k < n ==> IsRadixDigit(s[k], radix)
    ensures n < |s| ==> !IsRadixDigit(s[n], radix)
  {
    if |s| > 0 && IsRadixDigit(s[0], radix) then 1 + DigitRun(s[1..], radix) else 0
  }

  lemma {:induction false} DigitRunOfDigits(ds: string, rest: string, radix: nat)
    requires forall k :: 0 <= k < |ds| ==> IsRadixDigit(ds[k], radix)
    requires |rest| == 0 || !IsRadixDigit(rest[0], radix)
    ensures DigitRun(ds + rest, radix) == |ds|
    decreases |ds|
  {
    if |ds| > 0 {
      assert (ds + rest)[1..] == ds[1..] + rest;
      DigitRunOfDigits(ds[1..], rest, radix);
    }
  }

  /** `parseInt` reads back the decimal numeral of any integer. */
  lemma ParseIntOfNumeral(n: int)
    ensures ParseInt(IntToString(n)) == Some(n)
  {
    var m: nat := if n < 0 then -n else n;
    ParseUnsignedOfNumeral(m, "");
    assert NatToString(m) + "" == NatToString(m);
    if n < 0 {
      ParseIntMinus(IntToString(n), NatToString(m), m);
    } else {
      ParseIntDigit(IntToString(n));
    }
  }

  /** `parseInt(String(v))` of an integer or of its decimal string is that integer. */
  lemma ParseIntOfNumber(v: Value, n: int)
    requires v == Num(n) || v == Str(IntToString(n))
    ensures ParseInt(ToString(v)) == Some(n)
  {
    assert ToString(v) == IntToString(n);
    ParseIntOfNumeral(n);
  }

  /** A text that starts with a digit is read by the unsigned steps alone. */
  lemma ParseIntDigit(u: string)
    requires |u| > 0 && IsDigit(u[0])
    ensures ParseInt(u) == ParseUnsigned(u)
  {
    TrimStartKeeps(u);
  }

  /** A minus sign in front of a digit negates what the unsigned steps read. */
  lemma ParseIntMinus(s: string, u: string, v: int)
    requires s == "-" + u
    requires ParseUnsigned(u) == Some(v)
    ensures ParseInt(s) == Some(-v)
  {
    TrimStartKeeps(s);
    assert s[1..] == u;
  }

  /** The unsigned steps read back the decimal numeral of a natural number. */
  lemma ParseUnsignedOfNumeral(m: nat, rest: string)
    requires |rest| == 0 || !(IsDigit(rest[0]) || rest[0] == 'x' || rest[0] == 'X')
    ensures ParseUnsigned(NatToString(m) + rest) == Some(m)
  {
    var ds := NatToString(m);
    var unsigned := ds + rest;
    assert !(|unsigned| >= 2 && unsigned[0] == '0' && (unsigned[1] == 'x' || unsigned[1] == 'X')) by {
      if |ds| > 1 {
        assert unsigned[0] == ds[0] && ds[0] != '0';
      } else {
        assert |unsigned| >= 2 ==> unsigned[1] == rest[0];
      }
    }
    DigitRunOfDigits(ds, rest, 10);
    assert unsigned[..|ds|] == ds;
    NatToStringValue(m);
  }

  /** `parseInt` of a string without any digit up front is `NaN`; this covers
      `"undefined"`, `"null"`, `"[object Object]"` and the empty string. */
  lemma ParseIntNoDigits(s: string)
    requires |s| == 0 || !(IsJsWhiteSpace(s[0]) || IsDigit(s[0]) || s[0] == '-' || s[0] == '+')
    ensures ParseInt(s) == None
  {
  }
}
