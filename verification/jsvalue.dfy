/** The slice of JavaScript's value semantics that the explorer, character
    and comic pages rely on: truthiness, the `||` operator, `String(v)` and
    property keys. Numbers are modelled as integers only. */
module JsValue {

  /** A JavaScript primitive as it arrives from the REST API or from a form. */
  datatype JsVal = Undefined | Null | Bool(b: bool) | Num(n: int) | Str(s: string)

  /** ToBoolean restricted to the modelled values. */
  predicate Truthy(v: JsVal) {
    match v
    case Undefined => false
    case Null => false
    case Bool(b) => b
    case Num(n) => n != 0
    case Str(s) => s != []
  }

  /** `a || b`: the first operand when it is truthy, else the second. */
  function Or(a: JsVal, b: JsVal): JsVal {
    if Truthy(a) then a else b
  }

  function DigitChar(d: nat): char
    requires d < 10
  {
    ('0' as int + d) as char
  }

  /** Decimal digits of a natural number, most significant first. */
  function NatToString(n: nat): (r: string)
    ensures |r| >= 1
    ensures |r| == 1 <==> n < 10
    ensures forall i :: 0 <= i < |r| ==> '0' <= r[i] <= '9'
    ensures r[0] == '0' ==> n == 0
    decreases n
  {
    if n < 10 then [DigitChar(n)] else NatToString(n / 10) + [DigitChar(n % 10)]
  }

  /** `String(n)` for an integer `n` (below 10^21 in magnitude, where JavaScript
      switches to exponent notation). */
  function IntToString(n: int): string {
    if n < 0 then "-" + NatToString(-n) else NatToString(n)
  }

  /** `String(v)`, which is also the property key `obj[v]` uses. */
  function ToJsString(v: JsVal): string {
    match v
    case Undefined => "undefined"
    case Null => "null"
    case Bool(b) => if b then "true" else "false"
    case Num(n) => IntToString(n)
    case Str(s) => s
  }

  /** The key under which `obj[v] = x` stores `x`: objects key by string, so
      the number 5 and the string "5" name the same entry. */
  function Key(v: JsVal): string {
    ToJsString(v)
  }

  /** Distinct naturals print differently. */
  lemma {:induction false} NatToStringInjective(a: nat, b: nat)
    requires NatToString(a) == NatToString(b)
    ensures a == b
    decreases a
  {
    if a < 10 && b < 10 {
      assert NatToString(a)[0] == DigitChar(a);
    } else {
      assert a >= 10 && b >= 10;
      var ra, rb := NatToString(a / 10), NatToString(b / 10);
      assert NatToString(a) == ra + [DigitChar(a % 10)];
      assert NatToString(b) == rb + [DigitChar(b % 10)];
      assert |ra| == |rb|;
      assert ra == NatToString(a)[..|ra|];
      assert rb == NatToString(b)[..|rb|];
      NatToStringInjective(a / 10, b / 10);
      assert NatToString(a)[|ra|] == DigitChar(a % 10);
      assert NatToString(b)[|rb|] == DigitChar(b % 10);
    }
  }

  /** Distinct integers print differently, so `String(p)` picks out one number. */
  lemma IntToStringInjective(a: int, b: int)
    requires IntToString(a) == IntToString(b)
    ensures a == b
  {
    if a < 0 && b < 0 {
      assert NatToString(-a) == IntToString(a)[1..];
      assert NatToString(-b) == IntToString(b)[1..];
      NatToStringInjective(-a, -b);
    } else if a >= 0 && b >= 0 {
      NatToStringInjective(a, b);
    }
  }
}
