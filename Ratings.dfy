/** The one place where the two services differ: how a meal's rate is read from its cell, written
    back, and validated when a request supplies one. */
module Ratings {
  import opened Base
  import opened Text
  import opened Numbers
  import opened Requests

  /** The management service keeps a rate as whole points (1..5); the public service keeps it as
      half points, so that the integer `h` stands for `h / 2` stars (1..10 for 0.5..5). */
  datatype Service = Manage | Public

  /** The number `h / 2`. */
  function Halves(h: int): (d: Decimal)
    ensures Normal(d) && Shift(h, d.scale) == 2 * d.units
  {
    var d := Normalise(Decimal(5 * h, 1));
    assert Shift(d.units, 1 - d.scale) == 5 * h;
    d
  }

  /** The number `2 * d`. */
  function Twice(d: Decimal): Decimal {
    Decimal(2 * d.units, d.scale)
  }

  function Clamp(x: int, lo: int, hi: int): (r: int)
    requires lo <= hi
    ensures lo <= r <= hi
    ensures lo <= x <= hi ==> r == x
  {
    if x < lo then lo else if x > hi then hi else x
  }

  /** The rates a service can hold for a meal and write back unchanged. */
  predicate RateInRange(svc: Service, r: int) {
    match svc
    case Manage => r != 0
    case Public => 1 <= r <= 10
  }

  /** The rate a service's reader takes from a cell: `int()` of it for the management service, and
      `float()` rounded to a half point and clamped to 0.5..5 for the public service. A missing or
      empty cell means 1, and so does a cell that does not parse. */
  function ReadRate(svc: Service, cell: Option<string>): (r: int)
    ensures svc == Public ==> 1 <= r <= 10
    ensures cell.None? || cell == Some("") ==> r == match svc case Manage => 1 case Public => 2
    ensures cell.Some? && cell.value != "" && svc == Manage ==> r == ParseInt(cell.value).GetOr(1)
    ensures cell.Some? && cell.value != "" && svc == Public ==>
      r == (if ParseDecimal(cell.value).None? then 2 else Clamp(Round(Twice(ParseDecimal(cell.value).value)), 1, 10))
  {
    var text := cell.GetOr("");
    match svc
    case Manage =>
      if text == "" then 1 else ParseInt(text).GetOr(1)
    case Public =>
      if text == "" then 2
      else
        match ParseDecimal(text)
        case None => 2
        case Some(d) => Clamp(Round(Twice(d)), 1, 10)
  }

  /** What a service's writer puts in the rate cell: `int(rate or 1)` for the management service,
      `round(float(rate or 1) * 2) / 2` for the public service. */
  function WriteRate(svc: Service, r: int): string {
    match svc
    case Manage => FormatInt(if r == 0 then 1 else r)
    case Public => FormatDecimal(Halves(if r == 0 then 2 else r))
  }

  /** The management writer's cell reads back with `int()` as the rate, the public writer's with
      `float()` as half the half points; a rate of 0 is written as the default. */
  lemma WriteRateReadsBack(svc: Service, r: int)
    ensures svc == Manage ==> ParseInt(WriteRate(svc, r)) == Some(if r == 0 then 1 else r)
    ensures svc == Public ==> ParseDecimal(WriteRate(svc, r)) == Some(Halves(if r == 0 then 2 else r))
  {
    match svc
    case Manage => ParseFormatInt(if r == 0 then 1 else r);
    case Public => ParseFormatDecimal(Halves(if r == 0 then 2 else r));
  }

  /** The rate a request supplies, as the add handlers check it. */
  function CheckRate(svc: Service, rate: Value): (r: Result<int, Error>)
    ensures r.Ok? ==> RateInRange(svc, r.value)
  {
    match svc
    case Manage => CheckWholeRate(rate)
    case Public => CheckHalfRate(rate)
  }

  /** The management service compares the value with 1 and 5 (a JSON null fails, a string cannot
      be compared) and keeps `int()` of it. */
  function CheckWholeRate(rate: Value): (r: Result<int, Error>)
    ensures r.Ok? ==> 1 <= r.value <= 5 && IntOf(rate) == Some(r.value)
    ensures r == Err(Uncaught) <==> rate.Str? || rate.Other?
    ensures rate.Null? ==> r == Err(RateOutOfRange)
    ensures r.Ok? <==> NumberOf(rate).Some? && !Below(NumberOf(rate).value, 1) && !Exceeds(NumberOf(rate).value, 5)
    ensures r.Ok? ==> r.value == Truncate(NumberOf(rate).value)
    ensures r.Err? && !rate.Str? && !rate.Other? ==> r.error == RateOutOfRange
  {
    if rate.Null? then Err(RateOutOfRange)
    else
      match NumberOf(rate)
      case None => Err(Uncaught)
      case Some(d) =>
        if Below(d, 1) || Exceeds(d, 5) then Err(RateOutOfRange)
        else
          TruncateWithin(d, 1, 5);
          Ok(Truncate(d))
  }

  /** The public service needs `float()` of the value to succeed and to be a multiple of 0.5 in
      0.5..5, and keeps it as half points. */
  function CheckHalfRate(rate: Value): (r: Result<int, Error>)
    ensures r.Ok? ==> 1 <= r.value <= 10
    ensures r == Err(RateNotNumber) <==> FloatOf(rate).None?
    ensures FloatOf(rate).Some? && r.Err? ==> r.error == RateOutOfRange
    ensures r.Ok? ==> Shift(r.value, FloatOf(rate).value.scale) == 2 * FloatOf(rate).value.units
  {
    match FloatOf(rate)
    case None => Err(RateNotNumber)
    case Some(d) =>
      var t := Normalise(Twice(d));
      if t.scale == 0 && 1 <= t.units <= 10 then Ok(t.units) else Err(RateOutOfRange)
  }

  /** `int()` of a number between two positive integers lies between them too. */
  lemma TruncateWithin(d: Decimal, lo: int, hi: int)
    requires 0 < lo && !Below(d, lo) && !Exceeds(d, hi)
    ensures lo <= Truncate(d) <= hi
  {
    var p := Pow10(d.scale);
    assert p * lo <= d.units;
    BetweenMultiples(p, d.units, Truncate(d), lo, hi);
  }

  /** If `p * r <= u < p * r + p` and `u` lies between `p * lo` and `p * hi`, then `r` lies
      between `lo` and `hi`. */
  lemma BetweenMultiples(p: int, u: int, r: int, lo: int, hi: int)
    requires p > 0 && lo * p <= u <= hi * p
    requires p * r <= u < p * r + p
    ensures lo <= r <= hi
  {
    assert p * (r + 1) > p * lo;
    assert p * r <= p * hi;
  }

  /** The public service accepts a rate exactly when it is `h / 2` for some `h` in 1..10. */
  lemma PublicRateAccepted(rate: Value)
    ensures CheckHalfRate(rate).Ok? <==>
      FloatOf(rate).Some? && exists h :: 1 <= h <= 10 && Shift(h, FloatOf(rate).value.scale) == 2 * FloatOf(rate).value.units
  {
    if FloatOf(rate).Some? {
      var d := FloatOf(rate).value;
      if CheckHalfRate(rate).Ok? {
        assert Shift(CheckHalfRate(rate).value, d.scale) == 2 * d.units;
      } else {
        forall h | 1 <= h <= 10
          ensures Shift(h, d.scale) != 2 * d.units
        {
          if Shift(h, d.scale) == 2 * d.units {
            HalfStepAccepted(d, h);
          }
        }
      }
    }
  }

  lemma HalfStepAccepted(d: Decimal, h: int)
    requires 1 <= h <= 10 && Shift(h, d.scale) == 2 * d.units
    ensures Normalise(Twice(d)) == Decimal(h, 0)
  {
    var t := Normalise(Twice(d));
    ShiftAdd(h, t.scale, d.scale - t.scale);
    ShiftInjective(Shift(h, t.scale), t.units, d.scale - t.scale);
    NormalIntegerValue(t, h);
  }

  /** A rate the service holds is read back unchanged from what the service writes. */
  lemma RateRoundTrip(svc: Service, r: int)
    requires RateInRange(svc, r)
    ensures ReadRate(svc, Some(WriteRate(svc, r))) == r
  {
    match svc
    case Manage =>
      ParseFormatInt(r);
    case Public =>
      var d := Halves(r);
      ParseFormatDecimal(d);
      assert Shift(r, d.scale) == Twice(d).units;
      RoundExact(Twice(d), r);
  }

  /** The management reader reads a stored 0 as 0, but its writer stores a 0 as 1. */
  lemma ManageZeroRate()
    ensures ReadRate(Manage, Some(FormatInt(0))) == 0
    ensures WriteRate(Manage, 0) == FormatInt(1)
  {
    ParseFormatInt(0);
  }

  /** Both services share the meal file, but the management reader cannot read what the public
      writer stores: `int()` rejects the point in "4.0" or "4.5", so every such rate reads as 1. */
  lemma ManageReadsPublicRate(h: int)
    requires RateInRange(Public, h)
    ensures ReadRate(Manage, Some(WriteRate(Public, h))) == 1
  {
    var d := Halves(h);
    var a := if d.units < 0 then -d.units else d.units;
    FormatDecimalParts(d);
    var sign := if d.units < 0 then "-" else "";
    var s := sign + WholeDigits(a, d.scale) + "." + FractionDigits(a, d.scale);
    assert s[|sign + WholeDigits(a, d.scale)|] == '.';
    ParseIntRejectsNonDigit(s, |sign + WholeDigits(a, d.scale)|);
  }

  /** The public reader reads a whole-point rate k in 1..5 stored by the management writer as k stars. */
  lemma PublicReadsManageRate(k: int)
    requires 1 <= k <= 5
    ensures ReadRate(Public, Some(WriteRate(Manage, k))) == 2 * k
  {
    ParseFormatIntAsDecimal(k);
    RoundExact(Twice(FromInt(k)), 2 * k);
  }
}
