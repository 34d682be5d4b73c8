/** The JSON values a request body carries, the errors a handler answers with, and Python's
    `int()`, `float()` and comparisons applied to those values. */
module Requests {
  import opened Base
  import opened Numbers

  /** A decoded JSON value. `Null` stands for both JSON null and a missing key (`data.get(k)` is
      None for either); `Other` is an array or an object. */
  datatype Value = Null | Bool(b: bool) | Int(i: int) | Float(f: Decimal) | Str(s: string) | Other

  /** Every answer a handler gives other than success. All but `Uncaught` are HTTP 400 replies with
      an error message; `Uncaught` is a TypeError that escapes the handler (HTTP 500). None of them
      writes to the store. */
  datatype Error =
    | BlankName          // vendor name empty after strip
    | WeightNotNumber    // int(weight) raised
    | NegativeWeight     // int(weight) < 0
    | DuplicateName      // another vendor already has the name
    | BadIndex           // index outside the list read from the store
    | BlankDate          // meal date empty after strip
    | BlankOrder         // meal order empty after strip
    | BadPrice           // price missing or negative
    | RateNotNumber      // float(rate) raised (half-step service)
    | RateOutOfRange     // rate missing, outside the allowed range, or not on a half step
    | NoFile             // upload without a file part
    | EmptyFilename      // upload whose file name is empty
    | ExtensionNotAllowed
    | Uncaught

  /** Python's `int(v)`: `None` where it raises TypeError or ValueError. A float is truncated
      toward zero, a string must be a base-10 integer literal. */
  function IntOf(v: Value): (r: Option<int>)
    ensures v.Int? ==> r == Some(v.i)
    ensures v.Null? || v.Other? ==> r == None
    ensures v.Float? ==> r.Some? && var d := Normalise(v.f);
      0 - Pow10(d.scale) < d.units - Pow10(d.scale) * r.value < Pow10(d.scale)
      && (d.units >= 0 ==> r.value >= 0) && (d.units <= 0 ==> r.value <= 0)
    ensures v.Float? ==> r == Some(Truncate(Normalise(v.f)))
    ensures v.Str? ==> r == ParseInt(v.s)
    ensures v.Bool? ==> r == Some(if v.b then 1 else 0)
  {
    match v
    case Null => None
    case Bool(b) => Some(if b then 1 else 0)
    case Int(i) => Some(i)
    case Float(d) => Some(Truncate(Normalise(d)))
    case Str(s) => ParseInt(s)
    case Other => None
  }

  /** Python's `float(v)`: `None` where it raises TypeError or ValueError. */
  function FloatOf(v: Value): (r: Option<Decimal>)
    ensures r.Some? ==> Normal(r.value)
    ensures v.Int? ==> r == Some(FromInt(v.i))
    ensures v.Float? ==> r == Some(Normalise(v.f))
    ensures v.Str? ==> r == ParseDecimal(v.s)
    ensures v.Bool? ==> r == Some(Decimal(if v.b then 1 else 0, 0))
    ensures v.Null? || v.Other? ==> r == None
  {
    match v
    case Null => None
    case Bool(b) => Some(FromInt(if b then 1 else 0))
    case Int(i) => Some(FromInt(i))
    case Float(d) => Some(Normalise(d))
    case Str(s) => ParseDecimal(s)
    case Other => None
  }

  /** The number a value stands for when Python compares it with a number (`v < 0`): `None` for
      a string, array or object, where the comparison raises TypeError, and for null. */
  function NumberOf(v: Value): (r: Option<Decimal>)
    ensures r.Some? <==> (v.Bool? || v.Int? || v.Float?)
    ensures r.Some? ==> Normal(r.value) && FloatOf(v) == r
  {
    match v
    case Bool(b) => Some(FromInt(if b then 1 else 0))
    case Int(i) => Some(FromInt(i))
    case Float(d) => Some(Normalise(d))
    case _ => None
  }
}
