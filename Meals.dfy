/** The meal records: how a row of db_meal.csv is read and written under each service's rate
    policy, and the validation and update rules of the add, update and delete handlers. */
module Meals {
  import opened Base
  import opened Text
  import opened Numbers
  import opened Requests
  import opened Ratings

  /** A row of db_meal.csv as the CSV reader yields it. `orderText` is the legacy `order_text`
      column, consulted when `order` is empty; the writers never produce it. */
  datatype MealRow = MealRow(
    date: Option<string>, order: Option<string>, orderText: Option<string>,
    price: Option<string>, rate: Option<string>, image: Option<string>)

  /** A meal; `rate` counts whole points or half points according to the service (see `Service`). */
  datatype Meal = Meal(date: string, order: string, price: Decimal, rate: int, image: string)

  /** `float(cell or 0)`, or 0.0 when it does not parse. */
  function PriceOf(cell: Option<string>): (d: Decimal)
    ensures Normal(d)
  {
    var text := cell.GetOr("");
    if text == "" then Zero else ParseDecimal(text).GetOr(Zero)
  }

  /** `(order or order_text or '').strip()`: the legacy column is used only when `order` is empty. */
  function OrderOf(row: MealRow): string {
    if row.order.GetOr("") != "" then Strip(row.order.GetOr("")) else Strip(row.orderText.GetOr(""))
  }

  /** The meal a row stands for under a service's reader. Reading never fails: a price that does
      not parse is 0.0 and a rate that does not parse is 1. */
  function MealOf(svc: Service, row: MealRow): (m: Meal)
    ensures m.date == Strip(row.date.GetOr("")) && m.image == Strip(row.image.GetOr(""))
    ensures Normal(m.price) && m.rate == ReadRate(svc, row.rate)
    ensures (row.price.None? || row.price == Some("") || ParseDecimal(row.price.value).None?) ==> m.price == Zero
    ensures row.price.Some? && ParseDecimal(row.price.value).Some? ==> m.price == ParseDecimal(row.price.value).value
    ensures m.order == if row.order.GetOr("") != "" then Strip(row.order.GetOr("")) else Strip(row.orderText.GetOr(""))
  {
    Meal(Strip(row.date.GetOr("")), OrderOf(row), PriceOf(row.price), ReadRate(svc, row.rate),
         Strip(row.image.GetOr("")))
  }

  /** The rows in file order, each tagged with its row index, as `enumerate` over the reader gives them. */
  function Parsed(svc: Service, rows: seq<MealRow>): (r: seq<Listed<Meal>>)
    ensures |r| == |rows|
    ensures forall k :: 0 <= k < |rows| ==> r[k] == Listed(k, MealOf(svc, rows[k]))
  {
    seq(|rows|, k requires 0 <= k < |rows| => Listed(k, MealOf(svc, rows[k])))
  }

  lemma ParsedLast(svc: Service, rows: seq<MealRow>)
    requires rows != []
    ensures Parsed(svc, rows) == Parsed(svc, rows[..|rows| - 1]) + [Listed(|rows| - 1, MealOf(svc, rows[|rows| - 1]))]
  {
    var n := |rows| - 1;
    var a, b := Parsed(svc, rows), Parsed(svc, rows[..n]) + [Listed(n, MealOf(svc, rows[n]))];
    assert |a| == |b|;
    forall k | 0 <= k < |a|
      ensures a[k] == b[k]
    {
      if k < n {
        assert rows[..n][k] == rows[k];
      }
    }
  }

  /** The row `save_meals` writes for a meal: text fields stripped, the price as a float, and the
      rate by the service's writer. The legacy column is not written. */
  function SaveRow(svc: Service, m: Meal): MealRow {
    MealRow(Some(Strip(m.date)), Some(Strip(m.order)), None, Some(FormatDecimal(Normalise(m.price))),
            Some(WriteRate(svc, m.rate)), Some(Strip(m.image)))
  }

  /** The cells of a written row: the text fields are trimmed (and unchanged when they already
      were), the legacy column is empty, the price cell reads back as the price, and the rate
      cell is the service's writer's. */
  lemma SaveRowCells(svc: Service, m: Meal)
    ensures var row := SaveRow(svc, m);
      && row.orderText.None?
      && row.date.Some? && Trimmed(row.date.value) && (Trimmed(m.date) ==> row.date.value == m.date)
      && row.order.Some? && Trimmed(row.order.value) && (Trimmed(m.order) ==> row.order.value == m.order)
      && row.image.Some? && Trimmed(row.image.value) && (Trimmed(m.image) ==> row.image.value == m.image)
      && row.price.Some? && ParseDecimal(row.price.value) == Some(Normalise(m.price))
      && row.rate == Some(WriteRate(svc, m.rate))
  {
    StripSpec(m.date);
    StripSpec(m.order);
    StripSpec(m.image);
    ParseFormatDecimal(Normalise(m.price));
  }

  function SaveRows(svc: Service, ms: seq<Meal>): (rows: seq<MealRow>)
    ensures |rows| == |ms|
    ensures forall k :: 0 <= k < |ms| ==> rows[k] == SaveRow(svc, ms[k])
  {
    seq(|ms|, k requires 0 <= k < |ms| => SaveRow(svc, ms[k]))
  }

  lemma SaveRowsLast(svc: Service, ms: seq<Meal>)
    requires ms != []
    ensures SaveRows(svc, ms) == SaveRows(svc, ms[..|ms| - 1]) + [SaveRow(svc, ms[|ms| - 1])]
  {
    SaveRowsPointwise(SaveRows(svc, ms), SaveRows(svc, ms[..|ms| - 1]), SaveRow(svc, ms[|ms| - 1]));
  }

  /** Two row lists that agree up to the last row of the first. */
  lemma SaveRowsPointwise(a: seq<MealRow>, b: seq<MealRow>, last: MealRow)
    requires |a| == |b| + 1 && a[|b|] == last
    requires forall k :: 0 <= k < |b| ==> a[k] == b[k]
    ensures a == b + [last]
  {
    assert forall k :: 0 <= k < |a| ==> a[k] == (b + [last])[k];
  }

  /** A meal as the reader can deliver it and the writer store unchanged. */
  predicate WellFormed(svc: Service, m: Meal) {
    Trimmed(m.date) && Trimmed(m.order) && Trimmed(m.image) && Normal(m.price) && RateInRange(svc, m.rate)
  }

  predicate AllWellFormed(svc: Service, ms: seq<Meal>) {
    forall k :: 0 <= k < |ms| ==> WellFormed(svc, ms[k])
  }

  /** A well-formed meal is read back unchanged from the row written for it. */
  lemma MealRoundTrip(svc: Service, m: Meal)
    requires WellFormed(svc, m)
    ensures MealOf(svc, SaveRow(svc, m)) == m
  {
    StripSpec(m.date);
    StripSpec(m.order);
    StripSpec(m.image);
    ParseFormatDecimal(m.price);
    RateRoundTrip(svc, m.rate);
    assert Normalise(m.price) == m.price;
    assert FormatDecimal(m.price) != "";
  }

  /** Reading back saved rows gives the saved meals, tagged with their positions. */
  lemma ParsedSaved(svc: Service, ms: seq<Meal>)
    requires AllWellFormed(svc, ms)
    ensures Parsed(svc, SaveRows(svc, ms)) == Numbered(ms)
  {
    forall k | 0 <= k < |ms|
      ensures MealOf(svc, SaveRows(svc, ms)[k]) == ms[k]
    {
      MealRoundTrip(svc, ms[k]);
    }
  }

  /** Everything the public reader delivers is well formed; so is everything the management reader
      delivers except a stored rate of 0, which it reads as 0. */
  lemma ReadIsWellFormed(svc: Service, row: MealRow)
    requires svc == Public || ReadRate(Manage, row.rate) != 0
    ensures WellFormed(svc, MealOf(svc, row))
  {
    StripSpec(row.date.GetOr(""));
    StripSpec(row.order.GetOr(""));
    StripSpec(row.orderText.GetOr(""));
    StripSpec(row.image.GetOr(""));
  }

  /** A price as the handlers check it: present, comparable with 0, and not negative. */
  function CheckPrice(price: Value): (r: Result<Decimal, Error>)
    ensures r.Ok? <==> NumberOf(price).Some? && NumberOf(price).value.units >= 0
    ensures r.Ok? ==> FloatOf(price) == Some(r.value)
    ensures price.Null? ==> r == Err(BadPrice)
    ensures r == Err(Uncaught) <==> price.Str? || price.Other?
    ensures r.Err? && !price.Str? && !price.Other? ==> r.error == BadPrice
  {
    if price.Null? then Err(BadPrice)
    else
      match NumberOf(price)
      case None => Err(Uncaught)
      case Some(d) => if Below(d, 0) then Err(BadPrice) else Ok(d)
  }

  /** The image name a request supplies: `str(image).strip()`, or empty when it is absent. */
  function ImageOf(image: Option<string>): string {
    match image
    case None => ""
    case Some(s) => Strip(s)
  }

  /** `add_meal` on the sorted view read from the store: date and order must be non-blank after
      strip, the price present and not negative, and the rate valid for the service; the new meal
      goes last. */
  function AddMeal(svc: Service, ms: seq<Meal>, date: string, order: string, price: Value, rate: Value,
                   image: Option<string>): (r: Result<seq<Meal>, Error>)
    ensures Strip(date) == "" ==> r == Err(BlankDate)
    ensures Strip(date) != "" && Strip(order) == "" ==> r == Err(BlankOrder)
    ensures Strip(date) != "" && Strip(order) != "" && CheckPrice(price).Err? ==> r == Err(CheckPrice(price).error)
    ensures Strip(date) != "" && Strip(order) != "" && CheckPrice(price).Ok? && CheckRate(svc, rate).Err? ==>
      r == Err(CheckRate(svc, rate).error)
    ensures r.Ok? <==> Strip(date) != "" && Strip(order) != "" && CheckPrice(price).Ok? && CheckRate(svc, rate).Ok?
    ensures r.Ok? ==> |r.value| == |ms| + 1 && r.value[..|ms|] == ms
    ensures r.Ok? ==> var m := r.value[|ms|];
      m.date == Strip(date) && m.order == Strip(order) && m.image == ImageOf(image)
      && Some(m.price) == FloatOf(price) && m.price.units >= 0 && m.rate == CheckRate(svc, rate).value
  {
    var d := Strip(date);
    var o := Strip(order);
    if d == "" then Err(BlankDate)
    else if o == "" then Err(BlankOrder)
    else
      match CheckPrice(price)
      case Err(e) => Err(e)
      case Ok(p) =>
        match CheckRate(svc, rate)
        case Err(e) => Err(e)
        case Ok(rt) => Ok(ms + [Meal(d, o, p, rt, ImageOf(image))])
  }

  /** `update_meal` on the sorted view: position `index` takes each supplied field. A blank date or
      order, or an absent price, rate or image, keeps the old value; a supplied price or rate is
      checked as in `AddMeal`, and any failure leaves the list as it was. */
  function UpdateMeal(svc: Service, ms: seq<Meal>, index: int, date: string, order: string, price: Value,
                      rate: Value, image: Option<string>): (r: Result<seq<Meal>, Error>)
    ensures r == Err(BadIndex) <==> !(0 <= index < |ms|)
    ensures 0 <= index < |ms| && !price.Null? && CheckPrice(price).Err? ==> r == Err(CheckPrice(price).error)
    ensures 0 <= index < |ms| && (price.Null? || CheckPrice(price).Ok?) && !rate.Null? && CheckRate(svc, rate).Err? ==>
      r == Err(CheckRate(svc, rate).error)
    ensures r.Ok? <==> 0 <= index < |ms| && (price.Null? || CheckPrice(price).Ok?)
                       && (rate.Null? || CheckRate(svc, rate).Ok?)
    ensures r.Ok? ==> |r.value| == |ms| && forall k :: 0 <= k < |ms| && k != index ==> r.value[k] == ms[k]
    ensures r.Ok? ==> var m, old_ := r.value[index], ms[index];
      && m.date == (if Strip(date) == "" then old_.date else Strip(date))
      && m.order == (if Strip(order) == "" then old_.order else Strip(order))
      && m.price == (if price.Null? then old_.price else FloatOf(price).value)
      && m.rate == (if rate.Null? then old_.rate else CheckRate(svc, rate).value)
      && m.image == (if image.None? then old_.image else Strip(image.value))
  {
    if !(0 <= index < |ms|) then Err(BadIndex)
    else
      var m := ms[index];
      var d := Strip(date);
      var o := Strip(order);
      var m := m.(date := if d != "" then d else m.date, order := if o != "" then o else m.order);
      if !price.Null? && CheckPrice(price).Err? then Err(CheckPrice(price).error)
      else if !rate.Null? && CheckRate(svc, rate).Err? then Err(CheckRate(svc, rate).error)
      else
        var m := m.(price := if price.Null? then m.price else CheckPrice(price).value,
                    rate := if rate.Null? then m.rate else CheckRate(svc, rate).value,
                    image := if image.None? then m.image else Strip(image.value));
        Ok(ms[index := m])
  }

  /** `delete_meal`: position `index` of the sorted view is removed. */
  function DeleteMeal(ms: seq<Meal>, index: int): (r: Result<seq<Meal>, Error>)
    ensures r.Ok? <==> 0 <= index < |ms|
    ensures r.Err? ==> r.error == BadIndex
    ensures r.Ok? ==> r.value == Remove(ms, index)
  {
    if 0 <= index < |ms| then Ok(Remove(ms, index)) else Err(BadIndex)
  }

  /** A request that supplies nothing changes nothing. */
  lemma EmptyUpdateKeepsMeal(svc: Service, ms: seq<Meal>, index: int)
    requires 0 <= index < |ms|
    ensures UpdateMeal(svc, ms, index, "", "", Null, Null, None) == Ok(ms)
  {
    StripSpec("");
    assert ms[index := ms[index]] == ms;
  }

  /** Adding and updating keep every meal well formed; deleting does too. */
  lemma AddMealKeepsWellFormed(svc: Service, ms: seq<Meal>, date: string, order: string, price: Value,
                               rate: Value, image: Option<string>)
    requires AllWellFormed(svc, ms)
    requires AddMeal(svc, ms, date, order, price, rate, image).Ok?
    ensures AllWellFormed(svc, AddMeal(svc, ms, date, order, price, rate, image).value)
  {
    StripSpec(date);
    StripSpec(order);
    if image.Some? {
      StripSpec(image.value);
    }
  }

  /** An update that supplies no date keeps the date at every position. */
  lemma UpdateMealKeepsDates(svc: Service, ms: seq<Meal>, index: int, order: string,
                             price: Value, rate: Value, image: Option<string>)
    requires UpdateMeal(svc, ms, index, "", order, price, rate, image).Ok?
    ensures var u := UpdateMeal(svc, ms, index, "", order, price, rate, image).value;
      |u| == |ms| && forall k :: 0 <= k < |ms| ==> u[k].date == ms[k].date
  {
    StripSpec("");
  }

  lemma UpdateMealKeepsWellFormed(svc: Service, ms: seq<Meal>, index: int, date: string, order: string,
                                  price: Value, rate: Value, image: Option<string>)
    requires AllWellFormed(svc, ms)
    requires UpdateMeal(svc, ms, index, date, order, price, rate, image).Ok?
    ensures AllWellFormed(svc, UpdateMeal(svc, ms, index, date, order, price, rate, image).value)
  {
    StripSpec(date);
    StripSpec(order);
    if image.Some? {
      StripSpec(image.value);
    }
  }

  lemma DeleteMealKeepsWellFormed(svc: Service, ms: seq<Meal>, index: int)
    requires AllWellFormed(svc, ms) && 0 <= index < |ms|
    ensures AllWellFormed(svc, DeleteMeal(ms, index).value)
  {
  }
}
