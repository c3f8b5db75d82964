/**
 * The JavaScript values a parameter object can hold, with the two operations the
 * HTTP wrapper applies to them: the `typeof` operator and `String(value)`.
 */
module JsValues {

  /**
   * A JavaScript value. Numbers are integers here; an array or a plain object keeps
   * its elements or its own enumerable entries in enumeration order.
   */
  datatype JsValue =
    | Undefined
    | Null
    | Boolean(b: bool)
    | Number(n: int)
    | Str(s: string)
    | Array(items: seq<JsValue>)
    | Object(entries: seq<(string, JsValue)>)

  /** The `typeof` operator: "object" for null, arrays and plain objects alike. */
  function TypeOf(v: JsValue): string
  {
    match v
    case Undefined => "undefined"
    case Null => "object"
    case Boolean(_) => "boolean"
    case Number(_) => "number"
    case Str(_) => "string"
    case Array(_) => "object"
    case Object(_) => "object"
  }

  /** Decimal digits of a natural number, most significant first, without leading zeros. */
  function Decimal(n: nat): (r: string)
    ensures |r| >= 1
    ensures forall i :: 0 <= i < |r| ==> '0' <= r[i] <= '9'
    ensures |r| > 1 ==> r[0] != '0'
  {
    var digit := ('0' as int + n % 10) as char;
    if n < 10 then [digit] else Decimal(n / 10) + [digit]
  }

  /** `String(value)` for the values whose `typeof` is not "object". */
  function ToString(v: JsValue): string
    requires TypeOf(v) != "object"
  {
    match v
    case Undefined => "undefined"
    case Boolean(b) => if b then "true" else "false"
    case Number(n) => if n < 0 then "-" + Decimal(-n) else Decimal(n)
    case Str(s) => s
  }

  /** The number a string of decimal digits denotes. */
  function DigitsValue(s: string): nat
    requires forall i :: 0 <= i < |s| ==> '0' <= s[i] <= '9'
  {
    if s == [] then 0 else DigitsValue(s[..|s| - 1]) * 10 + (s[|s| - 1] as int - '0' as int)
  }

  lemma {:induction false} DecimalValue(n: nat)
    ensures DigitsValue(Decimal(n)) == n
  {
    var r := Decimal(n);
    if n >= 10 {
      DecimalValue(n / 10);
      assert r[..|r| - 1] == Decimal(n / 10);
    }
  }

  /**
   * `String(n)` of an integer: an optional minus sign, then the canonical decimal digits
   * of its magnitude, which read back as that magnitude.
   */
  lemma NumberText(n: int)
    ensures var r := ToString(Number(n));
      && |r| >= 1
      && (r[0] == '-' <==> n < 0)
      && var digits := if n < 0 then r[1..] else r;
      && |digits| >= 1
      && (forall i :: 0 <= i < |digits| ==> '0' <= digits[i] <= '9')
      && (|digits| > 1 ==> digits[0] != '0')
      && DigitsValue(digits) == if n < 0 then -n else n
  {
    if n < 0 {
      DecimalValue(-n);
      assert ToString(Number(n))[1..] == Decimal(-n);
    } else {
      DecimalValue(n);
    }
  }
}
