/** The JavaScript values a page script reads from a parsed JSON payload, and the
    coercions the scripts apply to them: `Number(x)`, `String(x)`, truthiness, `x || 0`,
    `>` and `===` on numbers. */
module JsValues {
  import opened Wrappers
  import opened Strings

  /** An IEEE double as a script sees it. Finite values are kept exact: rounding is not
      modelled, and +0 and -0 are one value. */
  datatype Number = NaN | Infinity | NegInfinity | Finite(value: real)

  /** A value produced by `JSON.parse`, plus `undefined` for a missing property. */
  datatype JsValue =
    | Undefined
    | Null
    | Bool(b: bool)
    | Num(n: Number)
    | Str(s: String)
    | Arr(items: seq<JsValue>)
    | Obj(fields: map<String, JsValue>)

  /** The engine's own conversions, left abstract: StringToNumber (`Number("…")`),
      Number::toString (`String(n)`) and `Array.prototype.toString`. */
  datatype Runtime = Runtime(
    parseNumber: String -> Number,
    numberText: Number -> String,
    arrayText: seq<JsValue> -> String)

  /** Falsy values are `undefined`, `null`, `false`, `NaN`, `0` and `""`. */
  predicate Truthy(v: JsValue) {
    match v
    case Undefined => false
    case Null => false
    case Bool(b) => b
    case Num(n) => n != NaN && n != Finite(0.0)
    case Str(s) => s != ""
    case Arr(_) => true
    case Obj(_) => true
  }

  /** `Number(v)`. An object without a `valueOf` of its own converts through
      "[object Object]", which is not numeric. */
  function ToNumber(rt: Runtime, v: JsValue): (n: Number)
    ensures v == Undefined ==> n == NaN
    ensures v == Null ==> n == Finite(0.0)
    ensures v.Num? ==> n == v.n
    ensures v.Str? ==> n == rt.parseNumber(v.s)
  {
    match v
    case Undefined => NaN
    case Null => Finite(0.0)
    case Bool(b) => Finite(if b then 1.0 else 0.0)
    case Num(n) => n
    case Str(s) => rt.parseNumber(s)
    case Arr(items) => rt.parseNumber(rt.arrayText(items))
    case Obj(_) => NaN
  }

  /** `String(v)`. */
  function ToText(rt: Runtime, v: JsValue): (s: String)
    ensures v.Str? ==> s == v.s
    ensures v.Num? ==> s == rt.numberText(v.n)
  {
    match v
    case Undefined => "undefined"
    case Null => "null"
    case Bool(b) => if b then "true" else "false"
    case Num(n) => rt.numberText(n)
    case Str(s) => s
    case Arr(items) => rt.arrayText(items)
    case Obj(_) => "[object Object]"
  }

  /** `n || 0` on a number: `NaN` and zero become zero, everything else is kept. */
  function OrZero(n: Number): (r: Number)
    ensures r != NaN
    ensures n == NaN || n == Finite(0.0) ==> r == Finite(0.0)
    ensures n != NaN ==> r == n
  {
    if n == NaN then Finite(0.0) else n
  }

  /** `Number(v) || 0`: never `NaN`; a missing or non-numeric value gives zero. */
  lemma NumberOrZero(rt: Runtime, v: JsValue)
    ensures OrZero(ToNumber(rt, v)) != NaN
    ensures v == Undefined || v.Obj? ==> OrZero(ToNumber(rt, v)) == Finite(0.0)
    ensures v.Num? && v.n != NaN ==> OrZero(ToNumber(rt, v)) == v.n
    ensures v.Str? && rt.parseNumber(v.s) == NaN ==> OrZero(ToNumber(rt, v)) == Finite(0.0)
  {
  }

  /** `String(v || "").trim()` (`safeText`). */
  function SafeText(rt: Runtime, v: JsValue): (s: String)
    ensures Trimmed(s)
    ensures !Truthy(v) ==> s == ""
    ensures v.Str? ==> s == Trim(v.s)
  {
    if Truthy(v) then Trim(ToText(rt, v)) else ""
  }

  /** `v[name]` for a property the payload itself defines or lacks: `None` when reading a
      property of `null` or `undefined` throws a `TypeError`. Strings and arrays carry
      `length`; the other property names read here are not indices. */
  function Get(v: JsValue, name: String): (r: Option<JsValue>)
    ensures r.None? <==> v == Undefined || v == Null
    ensures v.Obj? ==> r == Some(if name in v.fields then v.fields[name] else Undefined)
  {
    match v
    case Undefined => None
    case Null => None
    case Str(s) => Some(if name == "length" then Num(Finite(|s| as real)) else Undefined)
    case Arr(items) => Some(if name == "length" then Num(Finite(|items| as real)) else Undefined)
    case Obj(fields) => Some(if name in fields then fields[name] else Undefined)
    case _ => Some(Undefined)
  }

  /** `Number.isFinite(n)`. */
  predicate IsFinite(n: Number) {
    n.Finite?
  }

  /** `a > b`: false whenever either side is `NaN`. */
  predicate Greater(a: Number, b: Number) {
    match (a, b)
    case (NaN, _) => false
    case (_, NaN) => false
    case (Infinity, _) => b != Infinity
    case (NegInfinity, _) => false
    case (Finite(x), NegInfinity) => true
    case (Finite(x), Finite(y)) => x > y
    case (Finite(_), Infinity) => false
  }

  /** `a === b` on numbers: `NaN` equals nothing, not even itself. */
  predicate StrictEquals(a: Number, b: Number) {
    a != NaN && a == b
  }

  /** On finite numbers `>` and `===` are the comparisons of the values. */
  lemma FiniteComparisons(a: Number, b: Number)
    requires IsFinite(a) && IsFinite(b)
    ensures Greater(a, b) <==> a.value > b.value
    ensures StrictEquals(a, b) <==> a.value == b.value
  {
  }

  /** `>` is irreflexive and asymmetric, and `===` is symmetric and never holds with a
      greater value. */
  lemma ComparisonLaws(a: Number, b: Number)
    ensures !Greater(a, a)
    ensures Greater(a, b) ==> !Greater(b, a)
    ensures StrictEquals(a, b) == StrictEquals(b, a)
    ensures StrictEquals(a, b) ==> !Greater(a, b)
    ensures !StrictEquals(NaN, NaN)
  {
  }
}
