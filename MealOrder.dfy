/** The order in which `read_meals` hands meals to its callers: newest date first, and among meals
    of one date the later row of the file first; then positions 0..n-1 become the meals' ids.
    Because `save_meals` writes the list in that order and the row index is the tie-breaker, a save
    followed by a read reverses every run of meals that share a date. */
module MealOrder {
  import opened Base
  import opened Text
  import opened Requests
  import opened Ratings
  import opened Meals

  /** Python's tuple comparison `(a.date, a.id) < (b.date, b.id)`. */
  predicate KeyLess(a: Listed<Meal>, b: Listed<Meal>) {
    StrLess(a.item.date, b.item.date) || (a.item.date == b.item.date && a.id < b.id)
  }

  lemma KeyLessTransitive(a: Listed<Meal>, b: Listed<Meal>, c: Listed<Meal>)
    requires KeyLess(a, b) && KeyLess(b, c)
    ensures KeyLess(a, c)
  {
    if StrLess(a.item.date, b.item.date) && StrLess(b.item.date, c.item.date) {
      StrLessTransitive(a.item.date, b.item.date, c.item.date);
    }
  }

  /** Keys with different row indices are always ordered. */
  lemma KeyLessTotal(a: Listed<Meal>, b: Listed<Meal>)
    requires a.id != b.id
    ensures KeyLess(a, b) || KeyLess(b, a)
  {
    if a.item.date != b.item.date {
      StrLessTotal(a.item.date, b.item.date);
    }
  }

  lemma KeyLessAsymmetric(a: Listed<Meal>, b: Listed<Meal>)
    requires KeyLess(a, b)
    ensures !KeyLess(b, a)
  {
    if StrLess(a.item.date, b.item.date) {
      StrLessAsymmetric(a.item.date, b.item.date);
    } else {
      StrLessIrreflexive(a.item.date);
    }
  }

  /** The order `sorted(..., reverse=True)` leaves: every key is larger than every later key. */
  predicate SortedDesc(s: seq<Listed<Meal>>) {
    forall i, j :: 0 <= i < j < |s| ==> KeyLess(s[j], s[i])
  }

  /** No two elements carry the same row index. */
  predicate DistinctIds(s: seq<Listed<Meal>>) {
    forall i, j :: 0 <= i < j < |s| ==> s[i].id != s[j].id
  }

  /** `x` put in front of the first element whose key is smaller than its own. */
  function Insert(x: Listed<Meal>, s: seq<Listed<Meal>>): (r: seq<Listed<Meal>>)
    ensures |r| == |s| + 1
    ensures multiset(r) == multiset(s) + multiset{x}
  {
    if s == [] then [x]
    else if KeyLess(s[0], x) then [x] + s
    else
      assert s == [s[0]] + s[1..];
      [s[0]] + Insert(x, s[1..])
  }

  /** Insertion sort, descending by key. */
  function SortDesc(s: seq<Listed<Meal>>): (r: seq<Listed<Meal>>)
    ensures |r| == |s|
    ensures multiset(r) == multiset(s)
  {
    if s == [] then []
    else
      assert s == s[..|s| - 1] + [s[|s| - 1]];
      Insert(s[|s| - 1], SortDesc(s[..|s| - 1]))
  }

  lemma {:induction false} InsertSorted(x: Listed<Meal>, s: seq<Listed<Meal>>)
    requires SortedDesc(s)
    requires forall e :: e in s ==> e.id != x.id
    ensures SortedDesc(Insert(x, s))
  {
    if s == [] {
    } else if KeyLess(s[0], x) {
      InsertFront(x, s);
    } else {
      var t := s[1..];
      KeyLessTotal(s[0], x);
      InsertSorted(x, t);
      TailBelowHead(s);
      InsertBelow(x, t, s[0]);
      InsertBehind(s[0], Insert(x, t));
    }
  }

  /** `x` above the head of a descending list goes in front, and the list stays descending. */
  lemma InsertFront(x: Listed<Meal>, s: seq<Listed<Meal>>)
    requires s != [] && SortedDesc(s) && KeyLess(s[0], x)
    ensures SortedDesc([x] + s)
  {
    forall j | 1 <= j < |s|
      ensures KeyLess(s[j], x)
    {
      KeyLessTransitive(s[j], s[0], x);
    }
    var r := [x] + s;
    forall i, j | 0 <= i < j < |r|
      ensures KeyLess(r[j], r[i])
    {
      if i > 0 {
        assert r[i] == s[i - 1] && r[j] == s[j - 1];
      }
    }
  }

  /** A list of keys below `h`, descending, stays descending behind `h`. */
  lemma InsertBehind(h: Listed<Meal>, u: seq<Listed<Meal>>)
    requires SortedDesc(u) && forall e :: e in u ==> KeyLess(e, h)
    ensures SortedDesc([h] + u)
  {
    ConcatSorted([h], u);
  }

  /** In a descending list every later key is below the head. */
  lemma TailBelowHead(s: seq<Listed<Meal>>)
    requires s != [] && SortedDesc(s)
    ensures forall e :: e in s[1..] ==> KeyLess(e, s[0])
  {
    var t := s[1..];
    forall e | e in t
      ensures KeyLess(e, s[0])
    {
      var k :| 0 <= k < |t| && t[k] == e;
      assert s[k + 1] == e;
    }
  }

  /** Inserting a key below `h` into a list of keys below `h` leaves only keys below `h`. */
  lemma InsertBelow(x: Listed<Meal>, t: seq<Listed<Meal>>, h: Listed<Meal>)
    requires KeyLess(x, h) && forall e :: e in t ==> KeyLess(e, h)
    ensures forall e :: e in Insert(x, t) ==> KeyLess(e, h)
  {
    var u := Insert(x, t);
    forall e | e in u
      ensures KeyLess(e, h)
    {
      assert e in multiset(u);
      if e != x {
        assert e in multiset(t);
      }
    }
  }

  /** Sorting rows with distinct row indices leaves them sorted. */
  lemma {:induction false} SortDescSorted(s: seq<Listed<Meal>>)
    requires DistinctIds(s)
    ensures SortedDesc(SortDesc(s))
  {
    if s != [] {
      var p, x := s[..|s| - 1], s[|s| - 1];
      SortDescSorted(p);
      forall e | e in SortDesc(p)
        ensures e.id != x.id
      {
        assert e in multiset(SortDesc(p));
        assert e in p;
      }
      InsertSorted(x, SortDesc(p));
    }
  }

  /** Two sorted arrangements of the same elements are the same sequence: the sorted order is unique. */
  lemma {:induction false} SortedUnique(a: seq<Listed<Meal>>, b: seq<Listed<Meal>>)
    requires SortedDesc(a) && SortedDesc(b) && multiset(a) == multiset(b)
    ensures a == b
    decreases |a|
  {
    if a != [] {
      assert |b| == |multiset(b)| == |multiset(a)| == |a|;
      SortedHeadsEqual(a, b);
      MultisetTail(a);
      MultisetTail(b);
      SortedTail(a);
      SortedTail(b);
      SortedUnique(a[1..], b[1..]);
      assert a == [a[0]] + a[1..] && b == [b[0]] + b[1..];
    }
  }

  /** The first element of each sorted arrangement is the largest of the common elements. */
  lemma SortedHeadsEqual(a: seq<Listed<Meal>>, b: seq<Listed<Meal>>)
    requires a != [] && b != [] && SortedDesc(a) && SortedDesc(b) && multiset(a) == multiset(b)
    ensures a[0] == b[0]
  {
    assert a[0] in multiset(b);
    assert b[0] in multiset(a);
    var i :| 0 <= i < |b| && b[i] == a[0];
    var j :| 0 <= j < |a| && a[j] == b[0];
    if i != 0 && j != 0 {
      KeyLessAsymmetric(a[j], a[0]);
    }
  }

  lemma SortedTail(a: seq<Listed<Meal>>)
    requires a != [] && SortedDesc(a)
    ensures SortedDesc(a[1..])
  {
  }

  lemma MultisetTail<T>(s: seq<T>)
    requires s != []
    ensures multiset(s[1..]) == multiset(s) - multiset{s[0]}
  {
    assert s == [s[0]] + s[1..];
  }

  /** The meals of the file in the order `read_meals` sorts them, each still tagged with its row index. */
  function ViewOrder(svc: Service, rows: seq<MealRow>): seq<Listed<Meal>> {
    SortDesc(Parsed(svc, rows))
  }

  /** `read_meals`: the sorted meals, numbered 0..n-1 in their new order. */
  function MealsOf(svc: Service, rows: seq<MealRow>): (r: seq<Listed<Meal>>)
    ensures |r| == |rows|
    ensures forall k :: 0 <= k < |r| ==> r[k].id == k
  {
    Numbered(Records(ViewOrder(svc, rows)))
  }

  /** What `read_meals` returns is every row of the file once, read by the service's reader, with the
      newest date first and, among rows of one date, the later row first. */
  lemma ReadMealsOrder(svc: Service, rows: seq<MealRow>)
    ensures multiset(ViewOrder(svc, rows)) == multiset(Parsed(svc, rows))
    ensures SortedDesc(ViewOrder(svc, rows))
    ensures Records(MealsOf(svc, rows)) == Records(ViewOrder(svc, rows))
  {
    var p := Parsed(svc, rows);
    assert DistinctIds(p);
    SortDescSorted(p);
    RecordsOfNumbered(Records(ViewOrder(svc, rows)));
  }

  /** The list `read_meals` returns never has a later date after an earlier one. */
  predicate DatesNonIncreasing(ms: seq<Meal>) {
    forall i, j :: 0 <= i < j < |ms| ==> !StrLess(ms[i].date, ms[j].date)
  }

  lemma ReadMealsNewestFirst(svc: Service, rows: seq<MealRow>)
    ensures DatesNonIncreasing(Records(MealsOf(svc, rows)))
  {
    ReadMealsOrder(svc, rows);
    var v := ViewOrder(svc, rows);
    forall i, j | 0 <= i < j < |v|
      ensures !StrLess(v[i].item.date, v[j].item.date)
    {
      if StrLess(v[i].item.date, v[j].item.date) {
        KeyLessAsymmetric(v[j], v[i]);
        assert KeyLess(v[i], v[j]);
      }
    }
  }

  function Reverse<T>(s: seq<T>): (r: seq<T>)
    ensures |r| == |s|
    ensures forall i :: 0 <= i < |s| ==> r[i] == s[|s| - 1 - i]
  {
    seq(|s|, i requires 0 <= i < |s| => s[|s| - 1 - i])
  }

  lemma {:induction false} ReversePermutes<T>(s: seq<T>)
    ensures multiset(Reverse(s)) == multiset(s)
  {
    if s != [] {
      ReversePermutes(s[1..]);
      assert Reverse(s) == Reverse(s[1..]) + [s[0]];
      assert s == [s[0]] + s[1..];
    }
  }

  lemma ReverseReverse<T>(s: seq<T>)
    ensures Reverse(Reverse(s)) == s
  {
  }

  /** The length of the leading run of meals that share the first meal's date. */
  function RunLength(ms: seq<Meal>): (n: nat)
    requires ms != []
    ensures 1 <= n <= |ms|
    ensures forall k :: 0 <= k < n ==> ms[k].date == ms[0].date
    ensures n < |ms| ==> ms[n].date != ms[0].date
  {
    if |ms| == 1 || ms[1].date != ms[0].date then 1 else 1 + RunLength(ms[1..])
  }

  /** A run of `n` equal dates followed by a different date has length `n`. */
  lemma {:induction false} RunLengthIs(ms: seq<Meal>, n: nat)
    requires 1 <= n <= |ms|
    requires forall k :: 0 <= k < n ==> ms[k].date == ms[0].date
    requires n < |ms| ==> ms[n].date != ms[0].date
    ensures RunLength(ms) == n
  {
    if n > 1 {
      RunLengthIs(ms[1..], n - 1);
    }
  }

  /** The list with each maximal run of equal dates reversed in place. */
  function FlipTies(ms: seq<Meal>): (r: seq<Meal>)
    ensures |r| == |ms|
    decreases |ms|
  {
    if ms == [] then []
    else
      var n := RunLength(ms);
      Reverse(ms[..n]) + FlipTies(ms[n..])
  }

  /** `FlipTies` on meals still tagged with their row index. */
  function FlipRuns(t: seq<Listed<Meal>>): (r: seq<Listed<Meal>>)
    ensures |r| == |t|
    ensures multiset(r) == multiset(t)
    decreases |t|
  {
    if t == [] then []
    else
      var n := RunLength(Records(t));
      assert t == t[..n] + t[n..];
      ReversePermutes(t[..n]);
      Reverse(t[..n]) + FlipRuns(t[n..])
  }

  lemma RecordsConcat(a: seq<Listed<Meal>>, b: seq<Listed<Meal>>)
    ensures Records(a + b) == Records(a) + Records(b)
  {
  }

  lemma RecordsSlices(t: seq<Listed<Meal>>, n: nat)
    requires n <= |t|
    ensures Records(t[..n]) == Records(t)[..n] && Records(t[n..]) == Records(t)[n..]
  {
  }

  lemma RecordsReverse(t: seq<Listed<Meal>>)
    ensures Records(Reverse(t)) == Reverse(Records(t))
  {
  }

  lemma {:induction false} FlipRunsRecords(t: seq<Listed<Meal>>)
    ensures Records(FlipRuns(t)) == FlipTies(Records(t))
    decreases |t|
  {
    if t != [] {
      var n := RunLength(Records(t));
      RecordsSlices(t, n);
      FlipRunsRecords(t[n..]);
      RecordsReverse(t[..n]);
      RecordsConcat(Reverse(t[..n]), FlipRuns(t[n..]));
    }
  }

  /** Row indices in increasing order, as `enumerate` hands them out. */
  predicate AscendingIds(t: seq<Listed<Meal>>) {
    forall i, j :: 0 <= i < j < |t| ==> t[i].id < t[j].id
  }

  /** In a newest-first list, every meal after the leading run is older than the run. */
  lemma AfterRunOlder(ms: seq<Meal>)
    requires ms != [] && DatesNonIncreasing(ms)
    ensures forall m :: RunLength(ms) <= m < |ms| ==> StrLess(ms[m].date, ms[0].date)
  {
    var n := RunLength(ms);
    var d := ms[0].date;
    if n < |ms| {
      StrLessTotal(d, ms[n].date);
      forall m | n < m < |ms|
        ensures StrLess(ms[m].date, d)
      {
        assert !StrLess(ms[n].date, ms[m].date);
        if ms[m].date != ms[n].date {
          StrLessTotal(ms[n].date, ms[m].date);
          StrLessTransitive(ms[m].date, ms[n].date, d);
        }
      }
    }
  }

  /** A run of one date with increasing row indices is sorted once reversed. */
  lemma RunReversedSorted(t: seq<Listed<Meal>>)
    requires AscendingIds(t)
    requires forall k :: 0 <= k < |t| ==> t[k].item.date == t[0].item.date
    ensures SortedDesc(Reverse(t))
  {
    var r := Reverse(t);
    forall i, j | 0 <= i < j < |r|
      ensures KeyLess(r[j], r[i])
    {
      assert r[i] == t[|t| - 1 - i] && r[j] == t[|t| - 1 - j];
    }
  }

  lemma ConcatSorted(a: seq<Listed<Meal>>, b: seq<Listed<Meal>>)
    requires SortedDesc(a) && SortedDesc(b)
    requires forall x, y :: x in a && y in b ==> KeyLess(y, x)
    ensures SortedDesc(a + b)
  {
    var r := a + b;
    forall i, j | 0 <= i < j < |r|
      ensures KeyLess(r[j], r[i])
    {
      if j < |a| {
        assert r[i] == a[i] && r[j] == a[j];
      } else if i < |a| {
        assert r[i] == a[i] && r[j] == b[j - |a|];
        assert r[i] in a && r[j] in b;
      } else {
        assert r[i] == b[i - |a|] && r[j] == b[j - |a|];
      }
    }
  }

  /** When the file already lists dates newest first, reversing each run of equal dates is the
      sorted order. */
  lemma {:induction false} FlipRunsSorted(t: seq<Listed<Meal>>)
    requires AscendingIds(t) && DatesNonIncreasing(Records(t))
    ensures SortedDesc(FlipRuns(t))
    decreases |t|
  {
    if t != [] {
      var n := RunLength(Records(t));
      var run, rest := t[..n], t[n..];
      RunAndRest(t);
      FlipRunsSorted(rest);
      RunReversedSorted(run);
      RunAboveRest(t);
      var a, b := Reverse(run), FlipRuns(rest);
      ReversePermutes(run);
      AboveAfterPermuting(run, rest, a, b);
      ConcatSorted(a, b);
    }
  }

  /** The leading run of equal dates and the rest of the file each meet the conditions of the
      sortedness lemmas. */
  lemma RunAndRest(t: seq<Listed<Meal>>)
    requires t != [] && AscendingIds(t) && DatesNonIncreasing(Records(t))
    ensures var n := RunLength(Records(t));
      && AscendingIds(t[..n]) && (forall k :: 0 <= k < n ==> t[..n][k].item.date == t[..n][0].item.date)
      && AscendingIds(t[n..]) && DatesNonIncreasing(Records(t[n..]))
  {
    var ms := Records(t);
    var n := RunLength(ms);
    RecordsSlices(t, n);
    assert forall k :: 0 <= k < n ==> t[..n][k].item == ms[k];
  }

  /** Every entry of the leading run sorts above every entry after it. */
  lemma RunAboveRest(t: seq<Listed<Meal>>)
    requires t != [] && AscendingIds(t) && DatesNonIncreasing(Records(t))
    ensures var n := RunLength(Records(t));
      forall x, y :: x in t[..n] && y in t[n..] ==> KeyLess(y, x)
  {
    var ms := Records(t);
    var n := RunLength(ms);
    AfterRunOlder(ms);
    forall x, y | x in t[..n] && y in t[n..]
      ensures KeyLess(y, x)
    {
      var i :| 0 <= i < n && t[..n][i] == x;
      var m :| 0 <= m < |t| - n && t[n..][m] == y;
      assert ms[i] == x.item && ms[n + m] == y.item;
    }
  }

  lemma AboveAfterPermuting(run: seq<Listed<Meal>>, rest: seq<Listed<Meal>>, a: seq<Listed<Meal>>, b: seq<Listed<Meal>>)
    requires multiset(a) == multiset(run) && multiset(b) == multiset(rest)
    requires forall x, y :: x in run && y in rest ==> KeyLess(y, x)
    ensures forall x, y :: x in a && y in b ==> KeyLess(y, x)
  {
    forall x, y | x in a && y in b
      ensures KeyLess(y, x)
    {
      assert x in multiset(a) && y in multiset(b);
      assert x in run && y in rest;
    }
  }

  /** A save followed by a read hands back the saved list with each run of equal dates reversed,
      provided the list was newest first, as every list `read_meals` returns is. */
  lemma SaveThenRead(svc: Service, ms: seq<Meal>)
    requires AllWellFormed(svc, ms) && DatesNonIncreasing(ms)
    ensures Records(MealsOf(svc, SaveRows(svc, ms))) == FlipTies(ms)
  {
    var rows := SaveRows(svc, ms);
    var t := Numbered(ms);
    ParsedSaved(svc, ms);
    RecordsOfNumbered(ms);
    ReadMealsOrder(svc, rows);
    FlipRunsSorted(t);
    SortedUnique(ViewOrder(svc, rows), FlipRuns(t));
    FlipRunsRecords(t);
  }

  lemma FlipTiesUnfold(ms: seq<Meal>)
    requires ms != []
    ensures FlipTies(ms)[..RunLength(ms)] == Reverse(ms[..RunLength(ms)])
    ensures FlipTies(ms)[RunLength(ms)..] == FlipTies(ms[RunLength(ms)..])
  {
  }

  /** Reversing runs moves meals only among meals of the same date. */
  lemma {:induction false} FlipTiesKeepsDates(ms: seq<Meal>)
    ensures forall k :: 0 <= k < |ms| ==> FlipTies(ms)[k].date == ms[k].date
    decreases |ms|
  {
    if ms != [] {
      var n := RunLength(ms);
      FlipTiesUnfold(ms);
      FlipTiesKeepsDates(ms[n..]);
      RunKeepsDates(ms, FlipTies(ms), FlipTies(ms[n..]), n);
    }
  }

  /** A list whose first `n` elements are the reversed run and whose rest `g` has the dates of the
      rest of `ms` has the dates of `ms`. */
  lemma RunKeepsDates(ms: seq<Meal>, f: seq<Meal>, g: seq<Meal>, n: nat)
    requires n <= |ms| == |f|
    requires forall j :: 0 <= j < n ==> ms[j].date == ms[0].date
    requires f[..n] == Reverse(ms[..n]) && f[n..] == g
    requires forall j :: 0 <= j < |ms[n..]| ==> g[j].date == ms[n..][j].date
    ensures forall k :: 0 <= k < |ms| ==> f[k].date == ms[k].date
  {
    forall k | 0 <= k < |ms|
      ensures f[k].date == ms[k].date
    {
      if k < n {
        assert f[k] == f[..n][k] == ms[..n][n - 1 - k];
      } else {
        assert f[k] == g[k - n] && ms[k] == ms[n..][k - n];
      }
    }
  }

  lemma SplitAt<T>(s: seq<T>, n: nat)
    requires n <= |s|
    ensures s[..n] + s[n..] == s
  {
  }

  /** Flipping twice flips the leading run twice and the rest twice. */
  lemma FlipTwiceUnfold(ms: seq<Meal>)
    requires ms != []
    ensures FlipTies(FlipTies(ms))
         == Reverse(Reverse(ms[..RunLength(ms)])) + FlipTies(FlipTies(ms[RunLength(ms)..]))
  {
    var n := RunLength(ms);
    var f := FlipTies(ms);
    FlipTiesUnfold(ms);
    FlipTiesKeepsDates(ms);
    RunLengthIs(f, n);
  }

  /** A second save and read restores the first order. */
  lemma {:induction false} FlipTiesInvolution(ms: seq<Meal>)
    ensures FlipTies(FlipTies(ms)) == ms
    decreases |ms|
  {
    if ms != [] {
      var n := RunLength(ms);
      FlipTwiceUnfold(ms);
      ReverseReverse(ms[..n]);
      FlipTiesInvolution(ms[n..]);
      SplitAt(ms, n);
    }
  }

  /** Two meals of one date saved in one order come back in the other. */
  lemma SameDaySwap(svc: Service, a: Meal, b: Meal)
    requires WellFormed(svc, a) && WellFormed(svc, b) && a.date == b.date
    ensures Records(MealsOf(svc, SaveRows(svc, [a, b]))) == [b, a]
  {
    var ms := [a, b];
    StrLessIrreflexive(a.date);
    assert DatesNonIncreasing(ms);
    assert AllWellFormed(svc, ms);
    SaveThenRead(svc, ms);
    SameDayFlip(a, b);
  }

  lemma SameDayFlip(a: Meal, b: Meal)
    requires a.date == b.date
    ensures FlipTies([a, b]) == [b, a]
  {
    var ms := [a, b];
    RunLengthIs(ms, 2);
    assert ms[..2] == ms && ms[2..] == [];
    assert Reverse(ms) == [b, a];
  }

  /** The rows a service's reader reads as well-formed meals: every row for the public service, and
      for the management service every row whose rate cell does not read as 0. */
  predicate Readable(svc: Service, rows: seq<MealRow>) {
    svc == Public || forall j :: 0 <= j < |rows| ==> ReadRate(Manage, rows[j].rate) != 0
  }

  /** Every meal of the list `read_meals` returns is well formed when the rows are readable. */
  lemma ViewWellFormed(svc: Service, rows: seq<MealRow>)
    requires Readable(svc, rows)
    ensures AllWellFormed(svc, Records(MealsOf(svc, rows)))
  {
    ReadMealsOrder(svc, rows);
    var v := ViewOrder(svc, rows);
    var p := Parsed(svc, rows);
    forall k | 0 <= k < |v|
      ensures WellFormed(svc, v[k].item)
    {
      assert v[k] in multiset(p);
      var j :| 0 <= j < |p| && p[j] == v[k];
      ReadIsWellFormed(svc, rows[j]);
    }
  }

  /** After `delete_meal`, the answer is the remaining meals with each run of one date reversed. */
  lemma DeleteThenRead(svc: Service, rows: seq<MealRow>, index: int)
    requires Readable(svc, rows) && 0 <= index < |rows|
    ensures var view := Records(MealsOf(svc, rows));
      Records(MealsOf(svc, SaveRows(svc, DeleteMeal(view, index).value))) == FlipTies(Remove(view, index))
  {
    var view := Records(MealsOf(svc, rows));
    ViewWellFormed(svc, rows);
    ReadMealsNewestFirst(svc, rows);
    DeleteMealKeepsWellFormed(svc, view, index);
    var rest := Remove(view, index);
    forall i, j | 0 <= i < j < |rest|
      ensures !StrLess(rest[i].date, rest[j].date)
    {
      var i', j' := if i < index then i else i + 1, if j < index then j else j + 1;
      assert rest[i] == view[i'] && rest[j] == view[j'];
    }
    SaveThenRead(svc, rest);
  }

  /** After an `update_meal` that leaves the date alone, the answer is the updated list with each run
      of one date reversed: the meal updated at position `index` need not stay at `index`. */
  lemma UpdateThenRead(svc: Service, rows: seq<MealRow>, index: int, order: string, price: Value,
                       rate: Value, image: Option<string>)
    requires Readable(svc, rows)
    requires UpdateMeal(svc, Records(MealsOf(svc, rows)), index, "", order, price, rate, image).Ok?
    ensures var updated := UpdateMeal(svc, Records(MealsOf(svc, rows)), index, "", order, price, rate, image).value;
      Records(MealsOf(svc, SaveRows(svc, updated))) == FlipTies(updated)
  {
    var view := Records(MealsOf(svc, rows));
    var updated := UpdateMeal(svc, view, index, "", order, price, rate, image).value;
    ViewWellFormed(svc, rows);
    ReadMealsNewestFirst(svc, rows);
    UpdateMealKeepsWellFormed(svc, view, index, "", order, price, rate, image);
    UpdateMealKeepsDates(svc, view, index, order, price, rate, image);
    SameDatesNewestFirst(view, updated);
    SaveThenRead(svc, updated);
  }

  /** A list with the dates of a newest-first list, position by position, is newest first too. */
  lemma SameDatesNewestFirst(view: seq<Meal>, updated: seq<Meal>)
    requires DatesNonIncreasing(view)
    requires |updated| == |view| && forall k :: 0 <= k < |view| ==> updated[k].date == view[k].date
    ensures DatesNonIncreasing(updated)
  {
  }
}
