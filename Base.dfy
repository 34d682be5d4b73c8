/** Small shared datatypes: optional values, results, and list entries that carry an `id`. */
module Base {

  datatype Option<+T> = None | Some(value: T) {
    function GetOr(default: T): T {
      match this
      case Some(v) => v
      case None => default
    }
  }

  datatype Result<+T, +E> = Ok(value: T) | Err(error: E)

  /** A dictionary of a read result: the record plus the `id` key the readers attach to it. */
  datatype Listed<+T> = Listed(id: nat, item: T)

  /** The records of a read result, with the `id` keys dropped (the writers never store them). */
  function Records<T>(s: seq<Listed<T>>): (r: seq<T>)
    ensures |r| == |s|
    ensures forall i :: 0 <= i < |s| ==> r[i] == s[i].item
  {
    seq(|s|, i requires 0 <= i < |s| => s[i].item)
  }

  /** `s` with each element's `id` set to its position, as `for idx, x in enumerate(s): x['id'] = idx` does. */
  function Numbered<T>(s: seq<T>): (r: seq<Listed<T>>)
    ensures |r| == |s|
    ensures forall i :: 0 <= i < |s| ==> r[i] == Listed(i, s[i])
  {
    seq(|s|, i requires 0 <= i < |s| => Listed(i, s[i]))
  }

  lemma NumberedLast<T>(s: seq<T>)
    requires s != []
    ensures Numbered(s) == Numbered(s[..|s| - 1]) + [Listed(|s| - 1, s[|s| - 1])]
  {
  }

  lemma RecordsOfNumbered<T>(s: seq<T>)
    ensures Records(Numbered(s)) == s
  {
  }

  /** The element at list position `index`, or `None` when `index` is outside the list, as
      `get_vendor_by_index` and `get_meal_by_index` look it up. */
  function ItemAt<T>(s: seq<T>, index: int): (r: Option<T>)
    ensures r.Some? <==> 0 <= index < |s|
    ensures r.Some? ==> r.value == s[index]
  {
    if 0 <= index < |s| then Some(s[index]) else None
  }

  /** `s` without its element at position `i`, as `list.pop(i)` leaves it. */
  function Remove<T>(s: seq<T>, i: nat): (r: seq<T>)
    requires i < |s|
    ensures |r| == |s| - 1
    ensures forall j :: 0 <= j < i ==> r[j] == s[j]
    ensures forall j :: i <= j < |r| ==> r[j] == s[j + 1]
    ensures multiset(r) + multiset{s[i]} == multiset(s)
  {
    assert s == s[..i] + [s[i]] + s[i + 1..];
    s[..i] + s[i + 1..]
  }
}
