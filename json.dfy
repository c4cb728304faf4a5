/**
 * JavaScript values as they occur in parsed JSON request bodies and stored
 * records, with the few coercions the server code relies on: truthiness,
 * `String(v)` and `toLowerCase()`.
 */
module Json {

  /** A primitive JavaScript value. Numbers are integral in this model. */
  datatype Value = Undefined | Null | Bool(b: bool) | Num(n: int) | Str(s: string)

  /** A plain JavaScript object: its own keys and their values. */
  type Record = map<string, Value>

  /** `obj[k]`: a key the object does not have reads as `undefined`. */
  function Field(obj: Record, k: string): Value {
    if k in obj then obj[k] else Undefined
  }

  /** JavaScript truthiness, the test behind `if (v)`, `!v` and `v || d`. */
  predicate Truthy(v: Value) {
    match v
    case Undefined => false
    case Null => false
    case Bool(b) => b
    case Num(n) => n != 0
    case Str(s) => s != ""
  }

  predicate IsDigit(c: char) {
    '0' <= c <= '9'
  }

  predicate AllDigits(s: string) {
    forall i :: 0 <= i < |s| ==> IsDigit(s[i])
  }

  /** The number a string of decimal digits spells. */
  function DigitsValue(s: string): nat
    requires AllDigits(s)
  {
    if s == [] then 0 else 10 * DigitsValue(s[..|s| - 1]) + (s[|s| - 1] as int - '0' as int)
  }

  /** The character of a decimal digit. */
  function DigitChar(d: int): (c: char)
    requires 0 <= d < 10
    ensures IsDigit(c) && c as int - '0' as int == d
  {
    ('0' as int + d) as char
  }

  /** The decimal spelling of a natural number, without leading zeros. */
  function NatToDecimal(n: nat): (r: string)
    ensures |r| >= 1 && AllDigits(r)
    ensures DigitsValue(r) == n
    ensures n == 0 ==> r == "0"
    ensures n > 0 ==> r[0] != '0'
  {
    if n < 10 then
      assert [DigitChar(n)][..0] == [];
      [DigitChar(n)]
    else
      var init := NatToDecimal(n / 10);
      var r := init + [DigitChar(n % 10)];
      assert r[..|r| - 1] == init;
      r
  }

  /** `String(v)`: a string is itself, a number its decimal spelling. */
  function ToJsString(v: Value): (r: string)
    ensures v.Str? ==> r == v.s
    ensures v.Num? && v.n >= 0 ==> |r| >= 1 && AllDigits(r) && DigitsValue(r) == v.n && (r == "0" || r[0] != '0')
    ensures v.Num? && v.n < 0 ==> |r| >= 2 && r[0] == '-' && AllDigits(r[1..]) && DigitsValue(r[1..]) == -v.n && r[1] != '0'
    ensures v.Bool? ==> r == if v.b then "true" else "false"
    ensures v == Null ==> r == "null"
    ensures v == Undefined ==> r == "undefined"
  {
    match v
    case Undefined => "undefined"
    case Null => "null"
    case Bool(b) => if b then "true" else "false"
    case Num(n) =>
      if n < 0 then
        var r := "-" + NatToDecimal(-n);
        assert r[1..] == NatToDecimal(-n);
        r
      else NatToDecimal(n)
    case Str(s) => s
  }

  /** Lower-case mapping of one character (ASCII letters only). */
  function LowerChar(c: char): char {
    if 'A' <= c <= 'Z' then (c as int + 32) as char else c
  }

  /** `s.toLowerCase()`: every character mapped on its own, length kept. */
  function Lower(s: string): (r: string)
    ensures |r| == |s|
    ensures forall i :: 0 <= i < |s| ==> r[i] == LowerChar(s[i])
  {
    if s == [] then [] else [LowerChar(s[0])] + Lower(s[1..])
  }

  /** Lower-casing twice is lower-casing once. */
  lemma LowerIdempotent(s: string)
    ensures Lower(Lower(s)) == Lower(s)
  {
    var once := Lower(s);
    assert forall i :: 0 <= i < |s| ==> Lower(once)[i] == once[i];
  }
}
