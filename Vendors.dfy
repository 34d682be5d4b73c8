/** The vendor list: how rows of db.csv are read and written, and the validation and update rules
    of the add, update and delete handlers (identical in both services). */
module Vendors {
  import opened Base
  import opened Text
  import opened Numbers
  import opened Requests

  /** A row of db.csv as the CSV reader yields it; a cell is `None` when its column is missing or
      the row is too short to reach it. */
  datatype VendorRow = VendorRow(vendor: Option<string>, weight: Option<string>)

  datatype Vendor = Vendor(name: string, weight: int)

  /** The weight a row stands for: `int()` of its cell, or 0 when the cell is missing or does not parse. */
  function WeightOf(cell: Option<string>): int {
    match cell
    case None => 0
    case Some(s) => ParseInt(s).GetOr(0)
  }

  /** The vendor a row stands for, or `None` when its name is blank and the reader skips it. */
  function VendorOf(row: VendorRow): (r: Option<Vendor>)
    ensures r.Some? <==> Strip(row.vendor.GetOr("")) != ""
    ensures r.Some? ==> r.value.name == Strip(row.vendor.GetOr("")) && Trimmed(r.value.name)
    ensures r.Some? ==> r.value.weight == WeightOf(row.weight)
  {
    StripSpec(row.vendor.GetOr(""));
    var name := Strip(row.vendor.GetOr(""));
    if name == "" then None else Some(Vendor(name, WeightOf(row.weight)))
  }

  /** What `read_vendors` returns: the kept rows in file order, each tagged with its RAW row
      index, so that skipped rows leave gaps among the ids. */
  function VendorsOf(rows: seq<VendorRow>): (r: seq<Listed<Vendor>>)
    ensures |r| <= |rows|
    ensures forall i :: 0 <= i < |r| ==> r[i].id < |rows| && VendorOf(rows[r[i].id]) == Some(r[i].item)
    ensures forall i, j :: 0 <= i < j < |r| ==> r[i].id < r[j].id
  {
    if rows == [] then []
    else
      var prefix := VendorsOf(rows[..|rows| - 1]);
      match VendorOf(rows[|rows| - 1])
      case None => prefix
      case Some(v) => prefix + [Listed(|rows| - 1, v)]
  }

  /** Every row with a non-blank name is read, tagged with its row index. */
  lemma {:induction false} ReadKeepsNamedRows(rows: seq<VendorRow>, k: nat)
    requires k < |rows| && VendorOf(rows[k]).Some?
    ensures Listed(k, VendorOf(rows[k]).value) in VendorsOf(rows)
  {
    var n := |rows| - 1;
    if k < n {
      ReadKeepsNamedRows(rows[..n], k);
    }
  }

  /** What `save_vendors` writes for a vendor list, in list order. */
  function RowsOf(vs: seq<Vendor>): (rows: seq<VendorRow>)
    ensures |rows| == |vs|
    ensures forall i :: 0 <= i < |vs| ==> rows[i] == VendorRow(Some(vs[i].name), Some(FormatInt(vs[i].weight)))
  {
    seq(|vs|, i requires 0 <= i < |vs| => VendorRow(Some(vs[i].name), Some(FormatInt(vs[i].weight))))
  }

  /** Every name is non-blank and carries no surrounding white space, as the reader delivers them. */
  predicate WellFormed(vs: seq<Vendor>) {
    forall i :: 0 <= i < |vs| ==> vs[i].name != "" && Trimmed(vs[i].name)
  }

  predicate UniqueNames(vs: seq<Vendor>) {
    forall i, j :: 0 <= i < j < |vs| ==> vs[i].name != vs[j].name
  }

  /** Some position other than `except` holds a vendor called `name`. */
  predicate NameTaken(vs: seq<Vendor>, name: string, except: int) {
    exists j :: 0 <= j < |vs| && j != except && vs[j].name == name
  }

  lemma ReadIsWellFormed(rows: seq<VendorRow>)
    ensures WellFormed(Records(VendorsOf(rows)))
  {
    var r := VendorsOf(rows);
    forall i | 0 <= i < |r|
      ensures r[i].item.name != "" && Trimmed(r[i].item.name)
    {
      assert VendorOf(rows[r[i].id]) == Some(r[i].item);
    }
  }

  /** The row written for a well-formed vendor reads back as that vendor. */
  lemma ReadSavedRow(v: Vendor)
    requires v.name != "" && Trimmed(v.name)
    ensures VendorOf(VendorRow(Some(v.name), Some(FormatInt(v.weight)))) == Some(v)
  {
    StripSpec(v.name);
    ParseFormatInt(v.weight);
  }

  /** Reading back what was saved gives the same vendors, numbered 0..n-1 with no gaps. */
  lemma {:induction false} VendorRoundTrip(vs: seq<Vendor>)
    requires WellFormed(vs)
    ensures VendorsOf(RowsOf(vs)) == Numbered(vs)
  {
    if vs != [] {
      var n := |vs| - 1;
      var rows := RowsOf(vs);
      assert rows[..n] == RowsOf(vs[..n]);
      VendorRoundTrip(vs[..n]);
      assert rows[n] == VendorRow(Some(vs[n].name), Some(FormatInt(vs[n].weight)));
      ReadSavedRow(vs[n]);
      ReadKeptLastRow(rows, vs[n]);
      NumberedLast(vs);
    }
  }

  lemma ReadKeptLastRow(rows: seq<VendorRow>, v: Vendor)
    requires rows != [] && VendorOf(rows[|rows| - 1]) == Some(v)
    ensures VendorsOf(rows) == VendorsOf(rows[..|rows| - 1]) + [Listed(|rows| - 1, v)]
  {
  }

  /** A blank row before a vendor: the reader skips it, and the vendor at list position 0 has id 1;
      its weight cell does not parse, so its weight is 0. */
  lemma IdsCountSkippedRows(name: string)
    requires name != "" && Trimmed(name)
    ensures VendorsOf([VendorRow(Some(" "), Some("5")), VendorRow(Some(name), Some("x"))])
      == [Listed(1, Vendor(name, 0))]
  {
    StripSpec(" ");
    ParseIntRejectsNonDigit("x", 0);
    UnparsedWeightIsZero(name, Some("x"));
    StripSpec(name);
    SkippedRowShiftsId(VendorRow(Some(" "), Some("5")), VendorRow(Some(name), Some("x")), Vendor(name, 0));
  }

  /** A skipped row followed by a kept one reads as that one vendor, with id 1. */
  lemma SkippedRowShiftsId(first: VendorRow, second: VendorRow, v: Vendor)
    requires VendorOf(first).None? && VendorOf(second) == Some(v)
    ensures VendorsOf([first, second]) == [Listed(1, v)]
  {
    var rows := [first, second];
    assert rows[..1] == [first] && [first][..0] == [];
    ReadKeptLastRow(rows, v);
  }

  /** A row whose name is empty or only white space yields no vendor: no entry of the list read
      carries its row index. */
  lemma BlankRowSkipped(rows: seq<VendorRow>, i: nat)
    requires i < |rows| && Strip(rows[i].vendor.GetOr("")) == ""
    ensures forall e :: e in VendorsOf(rows) ==> e.id != i
  {
    var r := VendorsOf(rows);
    forall e | e in r
      ensures e.id != i
    {
      var k :| 0 <= k < |r| && r[k] == e;
      assert VendorOf(rows[r[k].id]).Some?;
    }
  }

  /** A weight cell that is missing or that `int()` rejects reads as weight 0. */
  lemma UnparsedWeightIsZero(name: string, weight: Option<string>)
    requires Strip(name) != ""
    requires weight.None? || ParseInt(weight.value).None?
    ensures VendorOf(VendorRow(Some(name), weight)) == Some(Vendor(Strip(name), 0))
  {
  }

  /** `int(weight)` for a requested weight, which must succeed and not be negative. */
  function CheckWeight(weight: Value): (r: Result<int, Error>)
    ensures r.Ok? <==> IntOf(weight).Some? && IntOf(weight).value >= 0
    ensures r.Ok? ==> r.value == IntOf(weight).value
    ensures r.Err? ==> r.error == (if IntOf(weight).None? then WeightNotNumber else NegativeWeight)
  {
    match IntOf(weight)
    case None => Err(WeightNotNumber)
    case Some(w) => if w < 0 then Err(NegativeWeight) else Ok(w)
  }

  /** `add_vendor` on the list read from the store. `weight` is `None` when the key is absent,
      which means 100; a JSON null is `Some(Null)`, which `int()` rejects. */
  function AddVendor(vs: seq<Vendor>, name: string, weight: Option<Value>): (r: Result<seq<Vendor>, Error>)
    ensures Strip(name) == "" ==> r == Err(BlankName)
    ensures r.Ok? <==> Strip(name) != "" && CheckWeight(weight.GetOr(Int(100))).Ok? && !NameTaken(vs, Strip(name), -1)
    ensures r.Ok? ==> |r.value| == |vs| + 1 && r.value[..|vs|] == vs
    ensures r.Ok? ==> r.value[|vs|] == Vendor(Strip(name), IntOf(weight.GetOr(Int(100))).value)
    ensures r.Err? && r.error == DuplicateName ==> exists j :: 0 <= j < |vs| && vs[j].name == Strip(name)
    ensures Strip(name) != "" && CheckWeight(weight.GetOr(Int(100))).Err? ==>
      r == Err(CheckWeight(weight.GetOr(Int(100))).error)
    ensures Strip(name) != "" && CheckWeight(weight.GetOr(Int(100))).Ok? && NameTaken(vs, Strip(name), -1) ==>
      r == Err(DuplicateName)
  {
    var n := Strip(name);
    if n == "" then Err(BlankName)
    else
      match CheckWeight(weight.GetOr(Int(100)))
      case Err(e) => Err(e)
      case Ok(w) => if NameTaken(vs, n, -1) then Err(DuplicateName) else Ok(vs + [Vendor(n, w)])
  }

  /** `update_vendor`: position `index` gets the new name unless it is blank, and the new weight
      unless it is absent; the duplicate check skips the vendor being renamed. */
  function UpdateVendor(vs: seq<Vendor>, index: int, name: string, weight: Value): (r: Result<seq<Vendor>, Error>)
    ensures r == Err(BadIndex) <==> !(0 <= index < |vs|)
    ensures r == Err(DuplicateName) <==> 0 <= index < |vs| && Strip(name) != "" && NameTaken(vs, Strip(name), index)
    ensures r.Ok? <==> (0 <= index < |vs| && !(Strip(name) != "" && NameTaken(vs, Strip(name), index))
                        && (weight.Null? || CheckWeight(weight).Ok?))
    ensures (0 <= index < |vs| && !(Strip(name) != "" && NameTaken(vs, Strip(name), index))
             && !weight.Null? && CheckWeight(weight).Err?) ==>
      r == Err(CheckWeight(weight).error)
    ensures r.Ok? ==> |r.value| == |vs| && forall j :: 0 <= j < |vs| && j != index ==> r.value[j] == vs[j]
    ensures r.Ok? ==> r.value[index].name == if Strip(name) == "" then vs[index].name else Strip(name)
    ensures r.Ok? ==> r.value[index].weight == if weight.Null? then vs[index].weight else IntOf(weight).value
  {
    var n := Strip(name);
    if !(0 <= index < |vs|) then Err(BadIndex)
    else if n != "" && NameTaken(vs, n, index) then Err(DuplicateName)
    else if !weight.Null? && CheckWeight(weight).Err? then Err(CheckWeight(weight).error)
    else
      var w := if weight.Null? then vs[index].weight else CheckWeight(weight).value;
      Ok(vs[index := Vendor(if n != "" then n else vs[index].name, w)])
  }

  /** `delete_vendor`: position `index` is removed, the others keep their order. */
  function DeleteVendor(vs: seq<Vendor>, index: int): (r: Result<seq<Vendor>, Error>)
    ensures r.Ok? <==> 0 <= index < |vs|
    ensures r.Err? ==> r.error == BadIndex
    ensures r.Ok? ==> r.value == Remove(vs, index)
  {
    if 0 <= index < |vs| then Ok(Remove(vs, index)) else Err(BadIndex)
  }

  /** A missing weight is 100; a weight of -0.5 truncates to 0 and is accepted. */
  lemma AddVendorWeights(vs: seq<Vendor>, name: string)
    requires Strip(name) != "" && !NameTaken(vs, Strip(name), -1)
    ensures AddVendor(vs, name, None) == Ok(vs + [Vendor(Strip(name), 100)])
    ensures AddVendor(vs, name, Some(Float(Decimal(-5, 1)))) == Ok(vs + [Vendor(Strip(name), 0)])
  {
    assert Truncate(Decimal(-5, 1)) == 0 by {
      assert Pow10(1) == 10;
    }
  }

  /** Adding keeps the names unique and well formed. */
  lemma AddVendorKeepsInvariant(vs: seq<Vendor>, name: string, weight: Option<Value>)
    requires WellFormed(vs)
    requires AddVendor(vs, name, weight).Ok?
    ensures WellFormed(AddVendor(vs, name, weight).value)
    ensures UniqueNames(vs) ==> UniqueNames(AddVendor(vs, name, weight).value)
  {
    StripSpec(name);
  }

  /** Updating keeps the names unique and well formed: a new name is stripped, non-blank, and no
      other position holds it. */
  lemma UpdateVendorKeepsInvariant(vs: seq<Vendor>, index: int, name: string, weight: Value)
    requires WellFormed(vs)
    requires UpdateVendor(vs, index, name, weight).Ok?
    ensures WellFormed(UpdateVendor(vs, index, name, weight).value)
    ensures UniqueNames(vs) ==> UniqueNames(UpdateVendor(vs, index, name, weight).value)
  {
    StripSpec(name);
    ReplaceKeepsInvariant(vs, UpdateVendor(vs, index, name, weight).value, index);
  }

  /** Replacing one vendor by one whose name is well formed and held by no other position keeps
      the invariant. */
  lemma ReplaceKeepsInvariant(vs: seq<Vendor>, r: seq<Vendor>, index: int)
    requires WellFormed(vs)
    requires 0 <= index < |vs| == |r|
    requires forall j :: 0 <= j < |vs| && j != index ==> r[j] == vs[j]
    requires r[index].name != "" && Trimmed(r[index].name)
    requires r[index].name == vs[index].name || !NameTaken(vs, r[index].name, index)
    ensures WellFormed(r)
    ensures UniqueNames(vs) ==> UniqueNames(r)
  {
    if UniqueNames(vs) {
      forall i, j | 0 <= i < j < |r|
        ensures r[i].name != r[j].name
      {
        if i == index || j == index {
          var other := if i == index then j else i;
          assert vs[other].name != vs[index].name;
        }
      }
    }
  }

  /** Submitting a vendor's own name and no weight changes nothing: the duplicate scan skips it. */
  lemma UpdateVendorOwnName(vs: seq<Vendor>, index: int)
    requires WellFormed(vs) && UniqueNames(vs) && 0 <= index < |vs|
    ensures UpdateVendor(vs, index, vs[index].name, Null) == Ok(vs)
  {
    StripSpec(vs[index].name);
    assert vs[index := vs[index]] == vs;
  }

  /** Deleting keeps the names unique and well formed, and a unique name is gone afterwards. */
  lemma DeleteVendorKeepsInvariant(vs: seq<Vendor>, index: int)
    requires WellFormed(vs) && 0 <= index < |vs|
    ensures WellFormed(DeleteVendor(vs, index).value)
    ensures UniqueNames(vs) ==> UniqueNames(DeleteVendor(vs, index).value)
    ensures UniqueNames(vs) ==> !NameTaken(DeleteVendor(vs, index).value, vs[index].name, -1)
  {
  }

  /** Deleting the vendor just added restores the list. */
  lemma DeleteUndoesAdd(vs: seq<Vendor>, name: string, weight: Option<Value>)
    requires AddVendor(vs, name, weight).Ok?
    ensures DeleteVendor(AddVendor(vs, name, weight).value, |vs|) == Ok(vs)
  {
    var r := AddVendor(vs, name, weight).value;
    assert r[..|vs|] + r[|vs| + 1..] == vs;
  }
}
