/** The CSV-backed store and the request handlers of both services. Each handler reads the whole
    file, validates the request, changes one element of the list it read (or appends or pops one),
    writes the whole list back, and answers with what a fresh read returns. */
module Store {
  import opened Base
  import opened Text
  import opened Numbers
  import opened Requests
  import opened Vendors
  import opened Ratings
  import opened Meals
  import opened MealOrder

  /** db.csv and db_meal.csv, as the rows the CSV reader yields from them. A file that does not
      exist reads as no rows. */
  class Database {
    var vendorRows: seq<VendorRow>
    var mealRows: seq<MealRow>

    /** `ensure_db`: both files exist and hold only their header. */
    constructor ()
      ensures vendorRows == [] && mealRows == []
    {
      vendorRows := [];
      mealRows := [];
    }

    /** `read_vendors`. */
    method ReadVendors() returns (vendors: seq<Listed<Vendor>>)
      ensures vendors == VendorsOf(vendorRows)
    {
      vendors := [];
      var idx := 0;
      while idx < |vendorRows|
        invariant 0 <= idx <= |vendorRows|
        invariant vendors == VendorsOf(vendorRows[..idx])
      {
        var row := vendorRows[idx];
        assert vendorRows[..idx + 1][..idx] == vendorRows[..idx];
        var name := Strip(row.vendor.GetOr(""));
        if name != "" {
          vendors := vendors + [Listed(idx, Vendor(name, WeightOf(row.weight)))];
        }
        idx := idx + 1;
      }
      assert vendorRows[..idx] == vendorRows;
    }

    /** `save_vendors`: one row per vendor, in list order. */
    method SaveVendors(vendors: seq<Vendor>)
      modifies this
      ensures vendorRows == RowsOf(vendors) && mealRows == old(mealRows)
    {
      var rows: seq<VendorRow> := [];
      var i := 0;
      while i < |vendors|
        invariant 0 <= i <= |vendors|
        invariant rows == RowsOf(vendors[..i])
      {
        rows := rows + [VendorRow(Some(vendors[i].name), Some(FormatInt(vendors[i].weight)))];
        i := i + 1;
      }
      assert vendors[..i] == vendors;
      vendorRows := rows;
    }

    /** `read_meals` under a service's reader: parse every row, sort newest first, renumber. */
    method ReadMeals(svc: Service) returns (meals: seq<Listed<Meal>>)
      ensures meals == MealsOf(svc, mealRows)
    {
      var parsed: seq<Listed<Meal>> := [];
      var idx := 0;
      while idx < |mealRows|
        invariant 0 <= idx <= |mealRows|
        invariant parsed == Parsed(svc, mealRows[..idx])
      {
        var row := mealRows[idx];
        var price := PriceOf(row.price);
        var rate := ReadRate(svc, row.rate);
        var meal := Meal(Strip(row.date.GetOr("")), OrderOf(row), price, rate, Strip(row.image.GetOr("")));
        assert meal == MealOf(svc, row);
        ParseStep(svc, mealRows, idx, parsed);
        parsed := parsed + [Listed(idx, meal)];
        idx := idx + 1;
      }
      assert mealRows[..idx] == mealRows;
      var sorted := SortDesc(parsed);
      meals := sorted;
      var i := 0;
      while i < |meals|
        invariant 0 <= i <= |meals| == |sorted|
        invariant forall k :: 0 <= k < i ==> meals[k] == Listed(k, sorted[k].item)
        invariant forall k :: i <= k < |meals| ==> meals[k] == sorted[k]
      {
        meals := meals[i := Listed(i, meals[i].item)];
        i := i + 1;
      }
      RenumberedIsNumbered(meals, sorted);
    }

    /** `save_meals` under a service's writer: one row per meal, in list order. */
    method SaveMeals(svc: Service, meals: seq<Meal>)
      modifies this
      ensures mealRows == SaveRows(svc, meals) && vendorRows == old(vendorRows)
    {
      var rows: seq<MealRow> := [];
      var i := 0;
      while i < |meals|
        invariant 0 <= i <= |meals|
        invariant rows == SaveRows(svc, meals)[..i]
        invariant vendorRows == old(vendorRows)
      {
        assert SaveRows(svc, meals)[..i + 1] == rows + [SaveRow(svc, meals[i])];
        rows := rows + [SaveRow(svc, meals[i])];
        i := i + 1;
      }
      mealRows := rows;
    }

    /** `get_vendor_by_index`: the vendor at list position `index`, and the list. */
    method GetVendorByIndex(index: int) returns (vendor: Option<Listed<Vendor>>, vendors: seq<Listed<Vendor>>)
      ensures vendors == VendorsOf(vendorRows)
      ensures vendor.Some? <==> 0 <= index < |vendors|
      ensures vendor.Some? ==> vendor.value == vendors[index]
    {
      vendors := ReadVendors();
      vendor := ItemAt(vendors, index);
    }

    /** `get_meal_by_index`: the meal at position `index` of the sorted list, and the list. */
    method GetMealByIndex(svc: Service, index: int) returns (meal: Option<Listed<Meal>>, meals: seq<Listed<Meal>>)
      ensures meals == MealsOf(svc, mealRows)
      ensures meal.Some? <==> 0 <= index < |meals|
      ensures meal.Some? ==> meal.value == meals[index] && meal.value.id == index
    {
      meals := ReadMeals(svc);
      meal := ItemAt(meals, index);
    }

    /** `add_vendor`. On success the answer lists the new vendors numbered 0..n-1. */
    method AddVendor(name: string, weight: Option<Value>) returns (r: Result<seq<Listed<Vendor>>, Error>)
      modifies this
      ensures var expected := Vendors.AddVendor(Records(old(VendorsOf(vendorRows))), name, weight);
        && (expected.Err? ==> r == Err(expected.error) && vendorRows == old(vendorRows))
        && (expected.Ok? ==> vendorRows == RowsOf(expected.value) && r == Ok(Numbered(expected.value)))
      ensures mealRows == old(mealRows)
    {
      var vendorName := Strip(name);
      if vendorName == "" {
        return Err(BlankName);
      }
      var weightValue := CheckWeight(weight.GetOr(Int(100)));
      if weightValue.Err? {
        return Err(weightValue.error);
      }
      var vendors := ReadVendors();
      var list := Records(vendors);
      if NameTaken(list, vendorName, -1) {
        return Err(DuplicateName);
      }
      list := list + [Vendor(vendorName, weightValue.value)];
      Vendors.ReadIsWellFormed(vendorRows);
      AddVendorKeepsInvariant(Records(vendors), name, weight);
      SaveVendors(list);
      VendorRoundTrip(list);
      vendors := ReadVendors();
      r := Ok(vendors);
    }

    /** `update_vendor`. */
    method UpdateVendor(index: int, name: string, weight: Value) returns (r: Result<seq<Listed<Vendor>>, Error>)
      modifies this
      ensures var expected := Vendors.UpdateVendor(Records(old(VendorsOf(vendorRows))), index, name, weight);
        && (expected.Err? ==> r == Err(expected.error) && vendorRows == old(vendorRows))
        && (expected.Ok? ==> vendorRows == RowsOf(expected.value) && r == Ok(Numbered(expected.value)))
      ensures mealRows == old(mealRows)
    {
      var vendor, vendors := GetVendorByIndex(index);
      if vendor.None? {
        return Err(BadIndex);
      }
      var list := Records(vendors);
      var newName := Strip(name);
      if newName != "" && NameTaken(list, newName, index) {
        return Err(DuplicateName);
      }
      var newWeight := vendor.value.item.weight;
      if !weight.Null? {
        var checked := CheckWeight(weight);
        if checked.Err? {
          return Err(checked.error);
        }
        newWeight := checked.value;
      }
      Vendors.ReadIsWellFormed(vendorRows);
      UpdateVendorKeepsInvariant(list, index, name, weight);
      list := list[index := Vendor(if newName != "" then newName else vendor.value.item.name, newWeight)];
      SaveVendors(list);
      VendorRoundTrip(list);
      vendors := ReadVendors();
      r := Ok(vendors);
    }

    /** `delete_vendor`. */
    method DeleteVendor(index: int) returns (r: Result<seq<Listed<Vendor>>, Error>)
      modifies this
      ensures var expected := Vendors.DeleteVendor(Records(old(VendorsOf(vendorRows))), index);
        && (expected.Err? ==> r == Err(expected.error) && vendorRows == old(vendorRows))
        && (expected.Ok? ==> vendorRows == RowsOf(expected.value) && r == Ok(Numbered(expected.value)))
      ensures mealRows == old(mealRows)
    {
      var vendor, vendors := GetVendorByIndex(index);
      if vendor.None? {
        return Err(BadIndex);
      }
      var list := Remove(Records(vendors), index);
      Vendors.ReadIsWellFormed(vendorRows);
      DeleteVendorKeepsInvariant(Records(vendors), index);
      SaveVendors(list);
      VendorRoundTrip(list);
      vendors := ReadVendors();
      r := Ok(vendors);
    }

    /** `add_meal`: the checks come before the read; the new meal is appended to the sorted list,
        which is written back in that order. */
    method AddMeal(svc: Service, date: string, order: string, price: Value, rate: Value, image: Option<string>)
      returns (r: Result<seq<Listed<Meal>>, Error>)
      modifies this
      ensures var expected := Meals.AddMeal(svc, Records(old(MealsOf(svc, mealRows))), date, order, price, rate, image);
        && (expected.Err? ==> r == Err(expected.error) && mealRows == old(mealRows))
        && (expected.Ok? ==> mealRows == SaveRows(svc, expected.value) && r == Ok(MealsOf(svc, mealRows)))
      ensures vendorRows == old(vendorRows)
    {
      var d := Strip(date);
      var o := Strip(order);
      if d == "" {
        return Err(BlankDate);
      }
      if o == "" {
        return Err(BlankOrder);
      }
      var checkedPrice := CheckPrice(price);
      if checkedPrice.Err? {
        return Err(checkedPrice.error);
      }
      var checkedRate := CheckRate(svc, rate);
      if checkedRate.Err? {
        return Err(checkedRate.error);
      }
      var meals := ReadMeals(svc);
      var list := Records(meals) + [Meal(d, o, checkedPrice.value, checkedRate.value, ImageOf(image))];
      SaveMeals(svc, list);
      meals := ReadMeals(svc);
      r := Ok(meals);
    }

    /** `update_meal`: `index` is a position of the sorted list; the fields are changed one after
        another on the meal read, and a failed check returns before anything is written. */
    method UpdateMeal(svc: Service, index: int, date: string, order: string, price: Value, rate: Value,
                      image: Option<string>) returns (r: Result<seq<Listed<Meal>>, Error>)
      modifies this
      ensures var expected := Meals.UpdateMeal(svc, Records(old(MealsOf(svc, mealRows))), index, date, order,
                                               price, rate, image);
        && (expected.Err? ==> r == Err(expected.error) && mealRows == old(mealRows))
        && (expected.Ok? ==> mealRows == SaveRows(svc, expected.value) && r == Ok(MealsOf(svc, mealRows)))
      ensures vendorRows == old(vendorRows)
    {
      var meal, meals := GetMealByIndex(svc, index);
      if meal.None? {
        return Err(BadIndex);
      }
      var m := meal.value.item;
      var d := Strip(date);
      if d != "" {
        m := m.(date := d);
      }
      var o := Strip(order);
      if o != "" {
        m := m.(order := o);
      }
      if !price.Null? {
        var checkedPrice := CheckPrice(price);
        if checkedPrice.Err? {
          return Err(checkedPrice.error);
        }
        m := m.(price := checkedPrice.value);
      }
      if !rate.Null? {
        var checkedRate := CheckRate(svc, rate);
        if checkedRate.Err? {
          return Err(checkedRate.error);
        }
        m := m.(rate := checkedRate.value);
      }
      if image.Some? {
        m := m.(image := Strip(image.value));
      }
      var list := Records(meals)[index := m];
      assert Meals.UpdateMeal(svc, Records(meals), index, date, order, price, rate, image) == Ok(list);
      SaveMeals(svc, list);
      meals := ReadMeals(svc);
      r := Ok(meals);
    }

    /** `delete_meal`: position `index` of the sorted list is popped and the rest written back. */
    method DeleteMeal(svc: Service, index: int) returns (r: Result<seq<Listed<Meal>>, Error>)
      modifies this
      ensures var expected := Meals.DeleteMeal(Records(old(MealsOf(svc, mealRows))), index);
        && (expected.Err? ==> r == Err(expected.error) && mealRows == old(mealRows))
        && (expected.Ok? ==> mealRows == SaveRows(svc, expected.value) && r == Ok(MealsOf(svc, mealRows)))
      ensures vendorRows == old(vendorRows)
    {
      var meal, meals := GetMealByIndex(svc, index);
      if meal.None? {
        return Err(BadIndex);
      }
      var list := Remove(Records(meals), index);
      SaveMeals(svc, list);
      meals := ReadMeals(svc);
      r := Ok(meals);
    }
  }

  /** Parsing one more row of the file appends that row's meal, tagged with its row index. */
  lemma ParseStep(svc: Service, rows: seq<MealRow>, idx: nat, parsed: seq<Listed<Meal>>)
    requires idx < |rows| && parsed == Parsed(svc, rows[..idx])
    ensures parsed + [Listed(idx, MealOf(svc, rows[idx]))] == Parsed(svc, rows[..idx + 1])
  {
    ParsedLast(svc, rows[..idx + 1]);
    assert rows[..idx + 1][..idx] == rows[..idx];
  }

  /** A list whose every position holds the sorted meal at that position, tagged with the position,
      is the sorted list numbered 0..n-1. */
  lemma RenumberedIsNumbered(meals: seq<Listed<Meal>>, sorted: seq<Listed<Meal>>)
    requires |meals| == |sorted|
    requires forall k :: 0 <= k < |meals| ==> meals[k] == Listed(k, sorted[k].item)
    ensures meals == Numbered(Records(sorted))
  {
  }

  /** A list of one well-formed meal, written and read back, is that meal with id 0. */
  lemma SingleMealView(svc: Service, m: Meal)
    requires Meals.WellFormed(svc, m)
    ensures MealsOf(svc, SaveRows(svc, [m])) == [Listed(0, m)]
  {
    ParsedSaved(svc, [m]);
    assert Numbered([m]) == [Listed(0, m)];
  }

  /** The repository's vendor test as a run of the model: on a fresh store, adding "Test Vendor"
      with weight 80 answers with that vendor alone, and the file holds one row whose weight cell
      reads back as 80. */
  method AddAndReadVendor() returns (answer: Result<seq<Listed<Vendor>>, Error>, rows: seq<VendorRow>)
    ensures answer == Ok([Listed(0, Vendor("Test Vendor", 80))])
    ensures |rows| == 1 && rows[0].vendor == Some("Test Vendor")
    ensures rows[0].weight.Some? && ParseInt(rows[0].weight.value) == Some(80)
  {
    var db := new Database();
    var v := Vendor("Test Vendor", 80);
    TestVendorAdded();
    answer := db.AddVendor("Test Vendor", Some(Int(80)));
    assert Numbered([v]) == [Listed(0, v)];
    rows := db.vendorRows;
    ParseFormatInt(80);
  }

  lemma TestVendorAdded()
    ensures Records(VendorsOf([])) == []
    ensures Vendors.AddVendor([], "Test Vendor", Some(Int(80))) == Ok([Vendor("Test Vendor", 80)])
  {
    StripSpec("Test Vendor");
  }

  /** The meal of the repository's meal test. */
  function Noodles(): Meal {
    Meal("2024-01-02", "Noodles", Decimal(105, 1), 4, "pic.png")
  }

  lemma NoodlesAdded()
    ensures Records(MealsOf(Manage, [])) == []
    ensures Meals.WellFormed(Manage, Noodles())
    ensures Meals.AddMeal(Manage, [], "2024-01-02", "Noodles", Float(Decimal(105, 1)), Int(4), Some("pic.png"))
         == Ok([Noodles()])
  {
    NoodlesChecked();
    var r := Meals.AddMeal(Manage, [], "2024-01-02", "Noodles", Float(Decimal(105, 1)), Int(4), Some("pic.png"));
    assert r.value[0] == Noodles();
  }

  /** The fields of the test meal pass the checks unchanged. */
  lemma NoodlesChecked()
    ensures Strip("2024-01-02") == "2024-01-02" && Strip("Noodles") == "Noodles" && Strip("pic.png") == "pic.png"
    ensures Trimmed("2024-01-02") && Trimmed("Noodles") && Trimmed("pic.png")
    ensures FloatOf(Float(Decimal(105, 1))) == Some(Decimal(105, 1))
    ensures CheckPrice(Float(Decimal(105, 1))) == Ok(Decimal(105, 1))
    ensures CheckRate(Manage, Int(4)) == Ok(4)
  {
    StripSpec("2024-01-02");
    StripSpec("Noodles");
    StripSpec("pic.png");
    assert Normalise(Decimal(105, 1)) == Decimal(105, 1);
    assert Truncate(Decimal(4, 0)) == 4;
  }

  lemma NoodlesUpdated()
    ensures Meals.WellFormed(Manage, Noodles().(price := Decimal(12, 0), rate := 5))
    ensures Meals.UpdateMeal(Manage, [Noodles()], 0, "", "", Float(Decimal(120, 1)), Int(5), None)
         == Ok([Noodles().(price := Decimal(12, 0), rate := 5)])
  {
    NoodlesAdded();
    StripSpec("");
    assert Normalise(Decimal(120, 1)) == Decimal(12, 0);
    assert Truncate(Decimal(5, 0)) == 5;
    assert CheckPrice(Float(Decimal(120, 1))) == Ok(Decimal(12, 0));
    assert CheckRate(Manage, Int(5)) == Ok(5);
    var m := Noodles().(price := Decimal(12, 0), rate := 5);
    assert [Noodles()][0 := m] == [m];
  }

  /** The repository's meal test as a run of the management service: a meal added to a fresh store
      is answered as the only meal; updating its price to 12.0 and its rate to 5 at position 0 is
      answered with those values, and the file's cells read back as 12.0 and 5. */
  method AddAndUpdateMeal() returns (created: Result<seq<Listed<Meal>>, Error>,
                                     updated: Result<seq<Listed<Meal>>, Error>, rows: seq<MealRow>)
    ensures created == Ok([Listed(0, Meal("2024-01-02", "Noodles", Decimal(105, 1), 4, "pic.png"))])
    ensures updated.Ok? && |updated.value| == 1
    ensures updated.value[0].item.price == Decimal(12, 0) && updated.value[0].item.rate == 5
    ensures |rows| == 1 && rows[0].price.Some? && ParseDecimal(rows[0].price.value) == Some(Decimal(12, 0))
    ensures rows[0].rate.Some? && ParseInt(rows[0].rate.value) == Some(5)
  {
    var db := new Database();
    NoodlesAdded();
    created := db.AddMeal(Manage, "2024-01-02", "Noodles", Float(Decimal(105, 1)), Int(4), Some("pic.png"));
    SingleMealView(Manage, Noodles());
    NoodlesUpdated();
    updated := db.UpdateMeal(Manage, 0, "", "", Float(Decimal(120, 1)), Int(5), None);
    SingleMealView(Manage, Noodles().(price := Decimal(12, 0), rate := 5));
    rows := db.mealRows;
    ParseFormatDecimal(Decimal(12, 0));
    ParseFormatInt(5);
  }
}
