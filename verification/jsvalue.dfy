/**
 The JavaScript values a decoded ANT+ sensor payload can carry, the
 truthiness test the bridge applies to them (`if (data)`), and the
 `String(...)` coercion it uses before publishing.

 Numbers are modelled as unbounded integers; `String` renders them in
 decimal, which is what JavaScript does for every integer of magnitude
 below 10^21.
 A decimal parser is defined alongside as the printer's inverse.
 */
module JsValue {

  /** A payload field as JavaScript sees it: `undefined` when the key is
      missing, `null`, a number, a string or a boolean. */
  datatype Value =
    | Undefined
    | Null
    | Num(n: int)
    | Str(s: string)
    | Bool(b: bool)

  /** JavaScript truthiness: `undefined`, `null`, `0`, `""` and `false` are falsy. */
  predicate Truthy(v: Value) {
    match v
    case Undefined => false
    case Null => false
    case Num(n) => n != 0
    case Str(s) => s != ""
    case Bool(b) => b
  }

  predicate IsDigit(c: char) {
    '0' <= c <= '9'
  }

  function DigitChar(d: nat): (c: char)
    requires d < 10
    ensures IsDigit(c)
  {
    "0123456789"[d]
  }

  function DigitValue(c: char): nat
    requires IsDigit(c)
  {
    (c as int - '0' as int) as nat
  }

  lemma DigitRoundTrip(d: nat)
    requires d < 10
    ensures DigitValue(DigitChar(d)) == d
  {
  }

  /** Decimal digits of a natural number, most significant first, no leading zeros. */
  function NatToString(n: nat): (r: string)
    ensures |r| >= 1
    ensures forall i :: 0 <= i < |r| ==> IsDigit(r[i])
    decreases n
  {
    if n < 10 then [DigitChar(n)] else NatToString(n / 10) + [DigitChar(n % 10)]
  }

  /** Decimal rendering of an integer, with a leading `-` when negative. */
  function IntToString(n: int): (r: string)
    ensures |r| >= 1
    ensures '/' !in r
  {
    if n < 0 then "-" + NatToString(-n) else NatToString(n)
  }

  /** Reads a string of decimal digits, least significant digit last. */
  function ParseNat(s: string): nat
    requires forall i :: 0 <= i < |s| ==> IsDigit(s[i])
    decreases |s|
  {
    if s == [] then 0 else ParseNat(s[..|s| - 1]) * 10 + DigitValue(s[|s| - 1])
  }

  predicate IsDecimal(s: string) {
    if |s| > 0 && s[0] == '-' then
      |s| > 1 && forall i :: 1 <= i < |s| ==> IsDigit(s[i])
    else
      |s| > 0 && forall i :: 0 <= i < |s| ==> IsDigit(s[i])
  }

  /** Reads back what `IntToString` writes. */
  function ParseInt(s: string): int
    requires IsDecimal(s)
  {
    if s[0] == '-' then 0 - ParseNat(s[1..]) as int else ParseNat(s)
  }

  lemma {:induction false} NatRoundTrip(n: nat)
    ensures ParseNat(NatToString(n)) == n
    decreases n
  {
    if n < 10 {
      DigitRoundTrip(n);
    } else {
      var s := NatToString(n);
      var head := NatToString(n / 10);
      assert s == head + [DigitChar(n % 10)];
      assert s[..|s| - 1] == head;
      NatRoundTrip(n / 10);
      DigitRoundTrip(n % 10);
    }
  }

  /** Parsing the decimal rendering of any integer gives the integer back. */
  lemma IntRoundTrip(n: int)
    ensures IsDecimal(IntToString(n))
    ensures ParseInt(IntToString(n)) == n
  {
    var s := IntToString(n);
    if n < 0 {
      var digits := NatToString(-n);
      assert s == "-" + digits;
      assert s[1..] == digits;
      assert forall i :: 1 <= i < |s| ==> s[i] == digits[i - 1];
      NatRoundTrip(-n);
    } else {
      assert s == NatToString(n);
      assert IsDigit(s[0]);
      NatRoundTrip(n);
    }
  }

  /** Distinct integers render to distinct strings. */
  lemma IntToStringInjective(m: int, n: int)
    ensures IntToString(m) == IntToString(n) <==> m == n
  {
    IntRoundTrip(m);
    IntRoundTrip(n);
  }

  /** JavaScript's `String(v)` for the values a payload carries. */
  function ToStr(v: Value): string {
    match v
    case Undefined => "undefined"
    case Null => "null"
    case Num(n) => IntToString(n)
    case Str(s) => s
    case Bool(b) => if b then "true" else "false"
  }

  /** A truthy value never coerces to the empty string, so its string form is truthy too. */
  lemma ToStrOfTruthy(v: Value)
    requires Truthy(v)
    ensures Truthy(Str(ToStr(v)))
    ensures v.Num? ==> ParseInt(ToStr(v)) == v.n
    ensures v.Str? ==> ToStr(v) == v.s
  {
    if v.Num? {
      IntRoundTrip(v.n);
    }
  }
}
