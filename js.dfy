/**
 * The few JavaScript value semantics the site's handlers rely on: truthiness,
 * `typeof`, `String(v)`, `Number(v)`, `parseInt`, `isNaN`, strict and loose
 * equality, and the flat request bodies (`req.body`, `req.query`) whose keys
 * come back from `Object.keys` in insertion order.
 *
 * Numbers are integers here: the handlers only ever compare, count or parse
 * whole numbers (week numbers, ids, tallies).
 */
module Js {

  datatype Option<T> = None | Some(value: T)

  /** A JavaScript value as far as the handlers can observe it.
      `Obj(ref)` is an object; two objects are the same object when their refs agree. */
  datatype JsValue =
    | Undefined
    | Null
    | Bool(b: bool)
    | Num(n: int)
    | Str(s: string)
    | Obj(ref: nat)

  /** `!!v` */
  predicate Truthy(v: JsValue)
  {
    match v
    case Undefined => false
    case Null => false
    case Bool(b) => b
    case Num(n) => n != 0
    case Str(s) => s != ""
    case Obj(_) => true
  }

  /** `v == null`: undefined and null are the only nullish values. */
  predicate Nullish(v: JsValue)
  {
    v.Undefined? || v.Null?
  }

  /** `typeof v` */
  function TypeOf(v: JsValue): (t: string)
    ensures t == "string" <==> v.Str?
    ensures t == "undefined" <==> v.Undefined?
  {
    match v
    case Undefined => "undefined"
    case Null => "object"
    case Bool(_) => "boolean"
    case Num(_) => "number"
    case Str(_) => "string"
    case Obj(_) => "object"
  }

  // ---------------------------------------------------------------------------
  // Decimal digits

  predicate IsDigit(c: char)
  {
    '0' <= c <= '9'
  }

  function DigitChar(d: nat): (c: char)
    requires d < 10
    ensures IsDigit(c)
  {
    ['0', '1', '2', '3', '4', '5', '6', '7', '8', '9'][d]
  }

  function DigitOf(c: char): (d: nat)
    requires IsDigit(c)
    ensures d < 10
  {
    (c as int - '0' as int) as nat
  }

  lemma DigitRoundTrip(d: nat)
    requires d < 10
    ensures DigitOf(DigitChar(d)) == d
  {
  }

  predicate AllDigits(s: string)
  {
    forall i :: 0 <= i < |s| ==> IsDigit(s[i])
  }

  /** The value of a string of decimal digits, most significant first. */
  function DigitsValue(s: string): nat
    requires AllDigits(s)
  {
    if s == [] then 0 else 10 * DigitsValue(s[..|s| - 1]) + DigitOf(s[|s| - 1])
  }

  /** The decimal text of a natural number, without leading zeros. */
  function NatToText(n: nat): (s: string)
    ensures s != [] && AllDigits(s)
    decreases n
  {
    if n < 10 then [DigitChar(n)] else NatToText(n / 10) + [DigitChar(n % 10)]
  }

  lemma {:induction false} NatToTextValue(n: nat)
    ensures DigitsValue(NatToText(n)) == n
    decreases n
  {
    var s := NatToText(n);
    if n < 10 {
      DigitRoundTrip(n);
    } else {
      NatToTextValue(n / 10);
      DigitRoundTrip(n % 10);
      assert s[..|s| - 1] == NatToText(n / 10);
    }
  }

  /** `String(n)` for an integer. */
  function IntToText(n: int): (s: string)
    ensures s != [] && (s[0] == '-' || IsDigit(s[0]))
  {
    if n < 0 then "-" + NatToText(-n) else NatToText(n)
  }

  /** `String(v)`, as used in template literals and concatenation. */
  function ToText(v: JsValue): string
  {
    match v
    case Undefined => "undefined"
    case Null => "null"
    case Bool(b) => if b then "true" else "false"
    case Num(n) => IntToText(n)
    case Str(s) => s
    case Obj(_) => "[object Object]"
  }

  // ---------------------------------------------------------------------------
  // White space, as trimmed by Number() and parseInt() and matched by /\s/

  predicate IsJsSpace(c: char)
  {
    c == ' ' || c == '\t' || c == '\n' || c == '\r' || c == '\U{000B}' || c == '\U{000C}'
    || c == '\U{00A0}' || c == '\U{1680}' || ('\U{2000}' <= c <= '\U{200A}')
    || c == '\U{2028}' || c == '\U{2029}' || c == '\U{202F}' || c == '\U{205F}'
    || c == '\U{3000}' || c == '\U{FEFF}'
  }

  function TrimStart(s: string): (t: string)
    ensures |t| <= |s| && t == s[|s| - |t|..]
    ensures t == [] || !IsJsSpace(t[0])
  {
    if s != [] && IsJsSpace(s[0]) then TrimStart(s[1..]) else s
  }

  function TrimEnd(s: string): (t: string)
    ensures |t| <= |s| && t == s[..|t|]
    ensures t == [] || !IsJsSpace(t[|t| - 1])
  {
    if s != [] && IsJsSpace(s[|s| - 1]) then TrimEnd(s[..|s| - 1]) else s
  }

  /** The longest prefix of `s` made of decimal digits. */
  function DigitPrefix(s: string): (p: string)
    ensures AllDigits(p) && |p| <= |s| && p == s[..|p|]
    ensures |p| < |s| ==> !IsDigit(s[|p|])
  {
    if s == [] || !IsDigit(s[0]) then [] else [s[0]] + DigitPrefix(s[1..])
  }

  lemma {:induction false} DigitPrefixOfDigits(s: string)
    requires AllDigits(s)
    ensures DigitPrefix(s) == s
  {
    if s != [] {
      DigitPrefixOfDigits(s[1..]);
    }
  }

  /** `parseInt(s)` for a string: leading white space, an optional sign and the
      longest run of decimal digits; NaN (None) when there is no digit. */
  function ParseIntText(s: string): (r: Option<int>)
  {
    var t := TrimStart(s);
    var neg := t != [] && t[0] == '-';
    var body := if t != [] && (t[0] == '-' || t[0] == '+') then t[1..] else t;
    var digits := DigitPrefix(body);
    var value: int := if digits == [] then 0 else DigitsValue(digits);
    if digits == [] then None
    else if neg then Some(-value)
    else Some(value)
  }

  /** `parseInt(v)`: the value is first converted with String(v); a number's
      text parses back to the number itself (`ParseIntIsParseOfText`). */
  function ParseInt(v: JsValue): Option<int>
  {
    if v.Num? then Some(v.n) else ParseIntText(ToText(v))
  }

  /** parseInt reads a run of digits as its value. */
  lemma ParseDigits(d: string)
    requires d != [] && AllDigits(d)
    ensures ParseIntText(d) == Some(DigitsValue(d))
  {
    assert !IsJsSpace(d[0]);
    assert TrimStart(d) == d;
    DigitPrefixOfDigits(d);
  }

  /** parseInt reads a minus sign and a run of digits as the negated value. */
  lemma ParseNegativeDigits(d: string)
    requires d != [] && AllDigits(d)
    ensures ParseIntText("-" + d) == Some(-(DigitsValue(d) as int))
  {
    var m := "-" + d;
    var t := TrimStart(m);
    assert t == m by {
      assert m[0] == '-';
      assert !IsJsSpace(m[0]);
    }
    assert t[1..] == d;
    DigitPrefixOfDigits(d);
    SignedParse(m, d);
  }

  lemma SignedParse(t: string, d: string)
    requires TrimStart(t) == t && t != [] && t[0] == '-' && t[1..] == d
    requires d != [] && DigitPrefix(d) == d
    ensures ParseIntText(t) == Some(-(DigitsValue(d) as int))
  {
  }

  /** parseInt undoes String() on integers. */
  lemma IntTextRoundTrip(n: int)
    ensures ParseIntText(IntToText(n)) == Some(n)
  {
    var m: nat := if n < 0 then -n else n;
    NatToTextValue(m);
    if n < 0 {
      ParseNegativeDigits(NatToText(m));
    } else {
      ParseDigits(NatToText(m));
    }
  }

  /** `ParseInt` is `parseInt(String(v))` for every value. */
  lemma ParseIntIsParseOfText(v: JsValue)
    ensures ParseInt(v) == ParseIntText(ToText(v))
  {
    if v.Num? {
      IntTextRoundTrip(v.n);
    }
  }

  /** A number and its decimal text parse to the same integer. */
  lemma ParseIntNumberOrText(n: int)
    ensures ParseInt(Num(n)) == Some(n)
    ensures ParseInt(Str(IntToText(n))) == Some(n)
  {
    IntTextRoundTrip(n);
  }

  /** `Number(s)` for a string, for the integer forms: after trimming, the empty
      string is 0 and an optionally signed run of digits is its value; anything
      else is NaN (None). */
  function TextToNumber(s: string): (r: Option<int>)
  {
    var t := TrimStart(TrimEnd(s));
    if t == [] then Some(0)
    else
      var neg := t[0] == '-';
      var body := if t[0] == '-' || t[0] == '+' then t[1..] else t;
      if body != [] && AllDigits(body) then
        var value: int := DigitsValue(body);
        Some(if neg then -value else value)
      else None
  }

  /** Number() reads a run of digits as its value. */
  lemma NumberDigits(d: string)
    requires d != [] && AllDigits(d)
    ensures TextToNumber(d) == Some(DigitsValue(d))
  {
    assert TrimEnd(d) == d by {
      assert !IsJsSpace(d[|d| - 1]);
    }
    assert TrimStart(d) == d by {
      assert !IsJsSpace(d[0]);
    }
    assert d[0] != '-' && d[0] != '+';
  }

  /** Number() reads a minus sign and a run of digits as the negated value. */
  lemma NumberNegativeDigits(d: string)
    requires d != [] && AllDigits(d)
    ensures TextToNumber("-" + d) == Some(-(DigitsValue(d) as int))
  {
    var m := "-" + d;
    assert TrimEnd(m) == m by {
      assert m[|m| - 1] == d[|d| - 1];
      assert !IsJsSpace(m[|m| - 1]);
    }
    assert TrimStart(m) == m by {
      assert m[0] == '-';
    }
    var body := m[1..];
    assert body == d;
  }

  /** Number() undoes String() on integers, as parseInt does. */
  lemma NumberOfIntText(n: int)
    ensures TextToNumber(IntToText(n)) == Some(n)
  {
    var m: nat := if n < 0 then -n else n;
    NatToTextValue(m);
    if n < 0 {
      NumberNegativeDigits(NatToText(m));
    } else {
      NumberDigits(NatToText(m));
    }
  }

  /** `Number(v)`, for the integer results: null and false are 0, true is 1,
      a string as `TextToNumber` reads it; undefined and objects are NaN (None). */
  function NumberOf(v: JsValue): (r: Option<int>)
    ensures v.Num? ==> r == Some(v.n)
    ensures r.None? <==> IsNaN(v)
  {
    match v
    case Undefined => None
    case Null => Some(0)
    case Bool(b) => Some(if b then 1 else 0)
    case Num(n) => Some(n)
    case Str(s) => TextToNumber(s)
    case Obj(_) => None
  }

  /** `isNaN(v)`: whether Number(v) is NaN. */
  predicate IsNaN(v: JsValue)
  {
    match v
    case Undefined => true
    case Null => false
    case Bool(_) => false
    case Num(_) => false
    case Str(s) => TextToNumber(s).None?
    case Obj(_) => true
  }

  // ---------------------------------------------------------------------------
  // Equality

  /** `a === b` */
  predicate StrictEquals(a: JsValue, b: JsValue)
  {
    a == b
  }

  /** Booleans compare as the numbers 0 and 1 under `==`. */
  function BoolAsNumber(v: JsValue): (r: JsValue)
    ensures !r.Bool?
  {
    if v.Bool? then Num(if v.b then 1 else 0) else v
  }

  /** `a == b` once booleans are numbers: objects compare by identity, and
      against primitives through their text "[object Object]". */
  predicate LooseNonBool(a: JsValue, b: JsValue)
    requires !a.Bool? && !b.Bool?
  {
    if Nullish(a) || Nullish(b) then Nullish(a) && Nullish(b)
    else match (a, b)
      case (Num(x), Num(y)) => x == y
      case (Str(x), Str(y)) => x == y
      case (Obj(x), Obj(y)) => x == y
      case (Num(x), Str(y)) => TextToNumber(y) == Some(x)
      case (Str(x), Num(y)) => TextToNumber(x) == Some(y)
      case (Obj(_), Str(y)) => y == "[object Object]"
      case (Str(x), Obj(_)) => x == "[object Object]"
      case _ => false
  }

  /** `a == b` */
  predicate LooseEquals(a: JsValue, b: JsValue)
  {
    LooseNonBool(BoolAsNumber(a), BoolAsNumber(b))
  }

  lemma LooseEqualsSymmetric(a: JsValue, b: JsValue)
    ensures LooseEquals(a, b) <==> LooseEquals(b, a)
  {
  }

  lemma LooseEqualsOnStrings(x: string, y: string)
    ensures LooseEquals(Str(x), Str(y)) <==> x == y
  {
  }

  // ---------------------------------------------------------------------------
  // Request bodies

  /** One `key=value` pair of a submitted form. */
  datatype Field = Field(key: string, value: string)

  /** A parsed form body; `Object.keys(body)` lists its keys in this order. */
  type Form = seq<Field>

  /** `Object.keys(body)` */
  function Keys(body: Form): (ks: seq<string>)
    ensures |ks| == |body|
    ensures forall i :: 0 <= i < |body| ==> ks[i] == body[i].key
  {
    seq(|body|, i requires 0 <= i < |body| => body[i].key)
  }

  /** `body[key]`; None is `undefined`. */
  function Get(body: Form, key: string): (r: Option<string>)
    ensures r.Some? <==> key in Keys(body)
    ensures r.Some? ==> Field(key, r.value) in body
  {
    if body == [] then None
    else if body[0].key == key then Some(body[0].value)
    else
      var r := Get(body[1..], key);
      assert Keys(body) == [body[0].key] + Keys(body[1..]);
      r
  }

  /** `body[key]` as a JavaScript value. */
  function Value(body: Form, key: string): (v: JsValue)
    ensures v.Undefined? || v.Str?
    ensures v.Str? <==> key in Keys(body)
  {
    match Get(body, key)
    case Some(s) => Str(s)
    case None => Undefined
  }

  /** `!!body[key]` */
  predicate Filled(v: Option<string>)
  {
    v.Some? && v.value != ""
  }
}
