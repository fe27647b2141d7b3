/** The slice of JavaScript's value semantics that the feedback queries and
    the legacy merge depend on: truthiness (`!!x`, `if (x)`, `x && y`) and the
    conversion of a value to a property key (`obj[x]`). */
module JsValues {
  import Decimal

  /** A JavaScript value. Numbers are restricted to integers plus `NaN`;
      `Obj` stands for any plain object. */
  datatype JsValue =
    | Undefined
    | Null
    | Bool(b: bool)
    | Num(n: int)
    | NaN
    | Str(s: string)
    | Obj

  /** JavaScript truthiness, the boolean `!!v` yields: `undefined`, `null`,
      `false`, `0`, `NaN` and the empty string are falsy; every other value
      is truthy. */
  function ToBoolean(v: JsValue): (r: bool)
    ensures r <==> !(v.Undefined? || v.Null? || v == Bool(false) || v == Num(0) || v.NaN? || v == Str(""))
  {
    match v
    case Undefined => false
    case Null => false
    case Bool(b) => b
    case Num(n) => n != 0
    case NaN => false
    case Str(s) => s != ""
    case Obj => true
  }

  /** `String(i)` for an integral number: a minus sign exactly for negative
      numbers, followed by the decimal digits of the magnitude. */
  function IntToString(i: int): (s: string)
    ensures |s| > 0 && (s[0] == '-' <==> i < 0)
  {
    if i < 0 then "-" + Decimal.NatToString(-i) else Decimal.NatToString(i)
  }

  /** The property key that `obj[v]` uses: `String(v)` for a primitive and
      `"[object Object]"` for a plain object. */
  function ToPropertyKey(v: JsValue): (key: string) {
    match v
    case Undefined => "undefined"
    case Null => "null"
    case Bool(b) => if b then "true" else "false"
    case Num(n) => IntToString(n)
    case NaN => "NaN"
    case Str(s) => s
    case Obj => "[object Object]"
  }

  /** An integral number and its decimal string address the same slot, and
      two different numbers address different slots. */
  lemma PropertyKeyOfNumberIsItsDecimal(n: int, m: int)
    ensures ToPropertyKey(Num(n)) == ToPropertyKey(Str(IntToString(n)))
    ensures n != m ==> ToPropertyKey(Num(n)) != ToPropertyKey(Num(m))
  {
    var a := IntToString(n);
    var b := IntToString(m);
    if n != m && a == b {
      if n >= 0 && m >= 0 {
        Decimal.PrintedInjective(n, m);
      } else if n < 0 && m < 0 {
        assert a[1..] == Decimal.NatToString(-n);
        assert b[1..] == Decimal.NatToString(-m);
        Decimal.PrintedInjective(-n, -m);
      }
    }
  }

  /** The coercion `!!` keeps booleans and turns the values a payload may
      carry for "done" into `true`, including `1` and the string `"0"`. */
  lemma CoercionExamples()
    ensures forall b: bool :: ToBoolean(Bool(b)) == b
    ensures ToBoolean(Num(1)) && ToBoolean(Str("0")) && ToBoolean(Str("false")) && ToBoolean(Obj)
    ensures !ToBoolean(Num(0)) && !ToBoolean(Str("")) && !ToBoolean(Undefined) && !ToBoolean(Null)
  {
  }
}
