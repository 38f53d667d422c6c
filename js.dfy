/**
 * The JavaScript values that flow through request bodies, table rows and
 * search documents, with the coercions the shop's JavaScript relies on: truthiness
 * (`!x`, `x || d`), `String(x)` in template literals, `parseFloat`/`parseInt`
 * and `JSON.stringify` of an object.
 *
 * Numbers are integers. There is no NaN: every NaN the shop's code can compute
 * ends up in a JSON body, where `JSON.stringify` writes it as `null`, so the
 * parsers below return `Null` directly.
 */
module Js {
  import opened Wrappers

  datatype Val = Undefined | Null | Bool(b: bool) | Num(n: int) | Str(s: string)

  /** JavaScript truthiness: `undefined`, `null`, `false`, `0` and `""` are falsy. */
  predicate Truthy(v: Val) {
    match v
    case Undefined => false
    case Null => false
    case Bool(b) => b
    case Num(n) => n != 0
    case Str(s) => s != ""
  }

  /** `a || b` */
  function Or(a: Val, b: Val): Val {
    if Truthy(a) then a else b
  }

  /** `obj[key]` on a plain object: undefined when the property is missing. */
  function Prop(obj: map<string, Val>, key: string): (v: Val)
    ensures key !in obj ==> v == Undefined
    ensures key in obj ==> v == obj[key]
  {
    if key in obj then obj[key] else Undefined
  }

  /** A JavaScript object that has an `id` property; `fields` holds the others. */
  datatype Record = Record(id: Val, fields: map<string, Val>)

  // ---------------------------------------------------------------- digits

  predicate IsDigit(c: char) {
    '0' <= c <= '9'
  }

  predicate AllDigits(s: string) {
    forall i :: 0 <= i < |s| ==> IsDigit(s[i])
  }

  function DigitChar(d: nat): (c: char)
    requires d < 10
    ensures IsDigit(c)
  {
    "0123456789"[d]
  }

  function DigitValue(c: char): (d: nat)
    requires IsDigit(c)
    ensures d < 10
  {
    c as int - '0' as int
  }

  /** Decimal text of a natural number, as `n.toString()` writes it. */
  function NatToString(n: nat): (s: string)
    ensures |s| >= 1 && AllDigits(s)
    ensures n >= 10 ==> |s| >= 2
  {
    if n < 10 then [DigitChar(n)] else NatToString(n / 10) + [DigitChar(n % 10)]
  }

  function IntToString(n: int): string {
    if n < 0 then "-" + NatToString(-n) else NatToString(n)
  }

  /** Value of a string of decimal digits, read left to right. */
  function DigitsValue(s: string): nat
    requires AllDigits(s)
  {
    if s == [] then 0 else DigitsValue(s[..|s| - 1]) * 10 + DigitValue(s[|s| - 1])
  }

  lemma {:induction false} DigitCharValue(d: nat)
    requires d < 10
    ensures DigitValue(DigitChar(d)) == d
  {
    assert "0123456789"[0] == '0' && "0123456789"[1] == '1' && "0123456789"[2] == '2';
    assert "0123456789"[3] == '3' && "0123456789"[4] == '4' && "0123456789"[5] == '5';
    assert "0123456789"[6] == '6' && "0123456789"[7] == '7' && "0123456789"[8] == '8';
    assert "0123456789"[9] == '9';
  }

  /** Reading back the decimal text of `n` gives `n`. */
  lemma {:induction false} NatToStringRoundTrip(n: nat)
    ensures DigitsValue(NatToString(n)) == n
  {
    if n < 10 {
      DigitCharValue(n);
    } else {
      var s := NatToString(n);
      assert s[..|s| - 1] == NatToString(n / 10);
      NatToStringRoundTrip(n / 10);
      DigitCharValue(n % 10);
    }
  }

  /** Distinct ids have distinct `toString()` keys. */
  lemma NatToStringInjective(m: nat, n: nat)
    ensures NatToString(m) == NatToString(n) <==> m == n
  {
    if NatToString(m) == NatToString(n) {
      NatToStringRoundTrip(m);
      NatToStringRoundTrip(n);
    }
  }

  /** The longest prefix of `s` made of decimal digits. */
  function LeadingDigits(s: string): (d: string)
    ensures |d| <= |s| && d == s[..|d|] && AllDigits(d)
    ensures |d| < |s| ==> !IsDigit(s[|d|])
  {
    if s == [] || !IsDigit(s[0]) then [] else [s[0]] + LeadingDigits(s[1..])
  }

  lemma {:induction false} LeadingDigitsOfDigits(s: string)
    requires AllDigits(s)
    ensures LeadingDigits(s) == s
  {
    if s != [] {
      LeadingDigitsOfDigits(s[1..]);
    }
  }

  /** The white space and line terminators `parseInt` and `parseFloat` skip. */
  predicate IsJsSpace(c: char) {
    var n := c as int;
    || 9 <= n <= 13 || n == 0x20 || n == 0xA0 || n == 0x1680 || 0x2000 <= n <= 0x200A
    || n == 0x2028 || n == 0x2029 || n == 0x202F || n == 0x205F || n == 0x3000 || n == 0xFEFF
  }

  /**
   * The integer at the start of `s` after leading white space and an
   * optional sign, as `parseInt` (and `parseFloat`, for integer text) reads
   * it; `None` when there is no digit. Fractions and exponents are not
   * modelled.
   */
  function LeadingInt(s: string): Option<int> {
    if s != [] && IsJsSpace(s[0]) then LeadingInt(s[1..])
    else if s != [] && (s[0] == '-' || s[0] == '+') then
      var d := LeadingDigits(s[1..]);
      var k: int := if d == [] then 0 else DigitsValue(d);
      if d == [] then None else if s[0] == '-' then Some(-k) else Some(k)
    else
      var d := LeadingDigits(s);
      if d == [] then None else Some(DigitsValue(d) as int)
  }

  /** `parseFloat(v)` / `parseInt(v)`; the NaN they return for junk is written `Null`. */
  function ParseNumber(v: Val): (r: Val)
    ensures r.Num? || r == Null
  {
    match v
    case Num(n) => Num(n)
    case Str(s) => (match LeadingInt(s) case Some(k) => Num(k) case None => Null)
    case _ => Null
  }

  /** `parseFloat(" 12")` is 12: leading white space is skipped. */
  lemma ParseSkipsSpace()
    ensures ParseNumber(Str(" 12")) == Num(12)
  {
    var s := " 12";
    assert s[1..] == "12";
    assert LeadingDigits("12") == "12" by {
      assert "12"[1..] == "2";
    }
    assert DigitsValue("12") == 12;
  }

  /** `String(v)`, as a template literal `${v}` converts it. */
  function ToStr(v: Val): string {
    match v
    case Undefined => "undefined"
    case Null => "null"
    case Bool(b) => if b then "true" else "false"
    case Num(n) => IntToString(n)
    case Str(s) => s
  }

  /** `JSON.stringify` of an object: members whose value is `undefined` are dropped. */
  function JsonObject<K(!new)>(fields: map<K, Val>): (r: map<K, Val>)
    ensures forall k :: k in r <==> k in fields && fields[k] != Undefined
    ensures forall k :: k in r ==> r[k] == fields[k]
  {
    map k | k in fields && fields[k] != Undefined :: fields[k]
  }
}
