/** The table's sort state, the header-click transition that changes it, the
    comparator on field values, and the sorted view of the rows. */
module TableSort {
  import opened Options
  import opened TableModel
  import StableSort

  datatype Order = Asc | Desc

  /** The active sort field (none at first) and the direction. */
  datatype SortState = SortState(key: Option<Field>, order: Order)

  const InitialSort: SortState := SortState(None, Asc)

  function Flip(o: Order): Order {
    if o == Asc then Desc else Asc
  }

  /** A click on the header of the column reading `key`: a non-sortable header
      does nothing, a new key becomes active in ascending order, and the active
      key flips its direction. */
  function ToggleSort(s: SortState, key: Field, sortable: Option<bool>): (r: SortState)
    ensures !Flag(sortable) ==> r == s
    ensures Flag(sortable) && s.key != Some(key) ==> r == SortState(Some(key), Asc)
    ensures Flag(sortable) && s.key == Some(key) ==> r.key == s.key && r.order != s.order
    ensures s.key.Some? ==> r.key.Some?
  {
    if !Flag(sortable) then s
    else if s.key == Some(key) then SortState(s.key, Flip(s.order))
    else SortState(Some(key), Asc)
  }

  /** The state after `n` clicks on the header of a sortable column reading `key`. */
  function Clicks(s: SortState, key: Field, n: nat): SortState {
    if n == 0 then s else ToggleSort(Clicks(s, key, n - 1), key, Some(true))
  }

  /** Repeated clicks on one sortable header: the key becomes active and stays
      so, and the direction alternates, starting from ascending when the key
      was not active (never back to "unsorted"). */
  lemma {:induction false} RepeatedClicks(s: SortState, key: Field, n: nat)
    requires n >= 1
    ensures Clicks(s, key, n).key == Some(key)
    ensures s.key != Some(key) ==> (Clicks(s, key, n).order == Asc <==> n % 2 == 1)
    ensures s.key == Some(key) ==> (Clicks(s, key, n).order == s.order <==> n % 2 == 0)
  {
    if n > 1 {
      RepeatedClicks(s, key, n - 1);
    }
  }

  /** The comparator handed to the array sort, for one direction. `collate`
      stands for the host's `localeCompare`. A number against a string compares
      as against `NaN`: both relational tests are false. */
  function Compare(a: Value, b: Value, order: Order, collate: (string, string) -> int): (r: int)
    ensures a == b ==> r == 0
    ensures a.Null? && !b.Null? ==> r == 1
    ensures !a.Null? && b.Null? ==> r == -1
    ensures a.Num? && b.Num? && a != b ==>
      r != 0 && (r < 0 <==> (if order == Asc then a.n < b.n else a.n > b.n))
    ensures a.Str? && b.Str? && a != b ==>
      r == (if order == Asc then collate(a.s, b.s) else collate(b.s, a.s))
    ensures (a.Num? && b.Str?) || (a.Str? && b.Num?) ==> r == -1
  {
    if a == b then 0
    else if a.Null? then 1
    else if b.Null? then -1
    else if a.Str? && b.Str? then
      (if order == Asc then collate(a.s, b.s) else collate(b.s, a.s))
    else if a.Num? && b.Num? then
      (if order == Asc then (if a.n > b.n then 1 else -1)
       else (if a.n < b.n then 1 else -1))
    else -1
  }

  /** Two distinct non-null values of the same kind: the descending comparator
      has the opposite sign of the ascending one (for numbers, exactly the
      negation), and neither calls them equal. */
  lemma DescNegatesAsc(a: Value, b: Value, collate: (string, string) -> int)
    requires a != b && !a.Null? && !b.Null?
    requires (a.Num? && b.Num?) || (a.Str? && b.Str? && StableSort.Consistent(collate, {a.s, b.s}))
    ensures Compare(a, b, Asc, collate) != 0 && Compare(a, b, Desc, collate) != 0
    ensures Compare(a, b, Desc, collate) < 0 <==> Compare(a, b, Asc, collate) > 0
    ensures a.Num? ==> Compare(a, b, Desc, collate) == -Compare(a, b, Asc, collate)
  {
    if a.Str? {
      assert a.s != b.s;
      assert a.s in {a.s, b.s} && b.s in {a.s, b.s};
    }
  }

  /** No number and string under the same column. */
  ghost predicate Homogeneous(vs: set<Value>) {
    (forall v | v in vs :: !v.Str?) || (forall v | v in vs :: !v.Num?)
  }

  ghost function StringsOf(vs: set<Value>): set<string> {
    set v | v in vs && v.Str? :: v.s
  }

  function ValueOrder(order: Order, collate: (string, string) -> int): (Value, Value) -> int {
    (a, b) => Compare(a, b, order, collate)
  }

  lemma CompareAntisymmetric(a: Value, b: Value, order: Order, collate: (string, string) -> int, vs: set<Value>)
    requires Homogeneous(vs) && StableSort.Consistent(collate, StringsOf(vs))
    requires a in vs && b in vs
    ensures Compare(a, b, order, collate) == 0 <==> a == b
    ensures Compare(a, b, order, collate) < 0 <==> Compare(b, a, order, collate) > 0
  {
    if a.Str? && b.Str? {
      assert a.s in StringsOf(vs) && b.s in StringsOf(vs);
    }
  }

  lemma CompareTransitive(a: Value, b: Value, c: Value, order: Order, collate: (string, string) -> int, vs: set<Value>)
    requires Homogeneous(vs) && StableSort.Consistent(collate, StringsOf(vs))
    requires a in vs && b in vs && c in vs
    requires Compare(a, b, order, collate) < 0 && Compare(b, c, order, collate) < 0
    ensures Compare(a, c, order, collate) < 0
  {
    CompareAntisymmetric(a, b, order, collate, vs);
    CompareAntisymmetric(b, c, order, collate, vs);
    if a.Str? && b.Str? && c.Str? {
      assert a.s in StringsOf(vs) && b.s in StringsOf(vs) && c.s in StringsOf(vs);
    }
  }

  /** On a column without mixed kinds, and with a collation that is consistent
      on its strings, the comparator is consistent in either direction. */
  lemma CompareConsistent(order: Order, collate: (string, string) -> int, vs: set<Value>)
    requires Homogeneous(vs) && StableSort.Consistent(collate, StringsOf(vs))
    ensures StableSort.Consistent(ValueOrder(order, collate), vs)
  {
    var cmp := ValueOrder(order, collate);
    forall a, b | a in vs && b in vs
      ensures cmp(a, b) == 0 <==> a == b
      ensures cmp(a, b) < 0 <==> cmp(b, a) > 0
    {
      CompareAntisymmetric(a, b, order, collate, vs);
    }
    forall a, b, c | a in vs && b in vs && c in vs && cmp(a, b) < 0 && cmp(b, c) < 0
      ensures cmp(a, c) < 0
    {
      CompareTransitive(a, b, c, order, collate, vs);
    }
  }

  function CellKey(f: Field): Row -> Value {
    row => Cell(row, f)
  }

  /** The values the column reading `f` holds. */
  ghost function ColumnValues(data: seq<Row>, f: Field): set<Value> {
    set r | r in data :: Cell(r, f)
  }

  /** `if (!sortKey)`: no key, or a key that is the (falsy) empty field name. */
  predicate Unsorted(s: SortState) {
    s.key.None? || s.key.value == ""
  }

  /** The rows in display order: the input itself when unsorted, otherwise a
      sorted copy. */
  function SortedView(data: seq<Row>, s: SortState, collate: (string, string) -> int): (r: seq<Row>)
    ensures Unsorted(s) ==> r == data
    ensures multiset(r) == multiset(data)
    ensures |r| == |data|
  {
    if Unsorted(s) then data
    else
      assert |multiset(StableSort.Sort(data, CellKey(s.key.value), ValueOrder(s.order, collate)))| == |multiset(data)|;
      StableSort.Sort(data, CellKey(s.key.value), ValueOrder(s.order, collate))
  }

  /** Rows with equal values in the sort column keep their input order, in
      either direction. */
  lemma SortedViewStable(data: seq<Row>, s: SortState, collate: (string, string) -> int, v: Value)
    requires !Unsorted(s)
    ensures StableSort.WithKey(SortedView(data, s, collate), CellKey(s.key.value), v)
            == StableSort.WithKey(data, CellKey(s.key.value), v)
  {
    var key := CellKey(s.key.value);
    var cmp := ValueOrder(s.order, collate);
    forall x | x in data ensures cmp(key(x), key(x)) == 0 { }
    StableSort.SortStable(data, key, cmp, v);
  }

  /** On a homogeneous column with a consistent collation, the displayed rows
      are ordered by the active comparator. */
  lemma SortedViewOrdered(data: seq<Row>, s: SortState, collate: (string, string) -> int)
    requires !Unsorted(s)
    requires Homogeneous(ColumnValues(data, s.key.value))
    requires StableSort.Consistent(collate, StringsOf(ColumnValues(data, s.key.value)))
    ensures StableSort.SortedBy(SortedView(data, s, collate), CellKey(s.key.value), ValueOrder(s.order, collate))
  {
    var vs := ColumnValues(data, s.key.value);
    CompareConsistent(s.order, collate, vs);
    var key := CellKey(s.key.value);
    assert StableSort.KeysIn(data, key, vs) by {
      forall x | x in data ensures key(x) in vs { }
    }
    StableSort.SortSorted(data, key, ValueOrder(s.order, collate), vs);
  }

  /** Empty cells in the sort column come after every non-empty one, in both
      directions. */
  lemma NullsLast(data: seq<Row>, s: SortState, collate: (string, string) -> int, i: int, j: int)
    requires !Unsorted(s)
    requires Homogeneous(ColumnValues(data, s.key.value))
    requires StableSort.Consistent(collate, StringsOf(ColumnValues(data, s.key.value)))
    requires 0 <= i < j < |data|
    requires Cell(SortedView(data, s, collate)[i], s.key.value).Null?
    ensures Cell(SortedView(data, s, collate)[j], s.key.value).Null?
  {
    SortedViewOrdered(data, s, collate);
    var r := SortedView(data, s, collate);
    assert ValueOrder(s.order, collate)(CellKey(s.key.value)(r[i]), CellKey(s.key.value)(r[j])) <= 0;
  }

  /** The column reading `f` holds numbers and empty cells only. */
  ghost predicate NumberColumn(data: seq<Row>, f: Field) {
    forall r | r in data :: !Cell(r, f).Str?
  }

  /** What the directions mean on a number column: ascending shows the
      numbers in non-decreasing order, descending in non-increasing order. */
  lemma SortedNumbersFollowOrder(data: seq<Row>, s: SortState, collate: (string, string) -> int, i: int, j: int)
    requires !Unsorted(s) && NumberColumn(data, s.key.value)
    requires 0 <= i < j < |data|
    requires Cell(SortedView(data, s, collate)[i], s.key.value).Num?
    requires Cell(SortedView(data, s, collate)[j], s.key.value).Num?
    ensures s.order == Asc ==>
      Cell(SortedView(data, s, collate)[i], s.key.value).n <= Cell(SortedView(data, s, collate)[j], s.key.value).n
    ensures s.order == Desc ==>
      Cell(SortedView(data, s, collate)[i], s.key.value).n >= Cell(SortedView(data, s, collate)[j], s.key.value).n
  {
    var f := s.key.value;
    var vs := ColumnValues(data, f);
    assert Homogeneous(vs) by {
      forall v | v in vs ensures !v.Str? {
        var r :| r in data && Cell(r, f) == v;
      }
    }
    assert StringsOf(vs) == {};
    assert StableSort.Consistent(collate, StringsOf(vs));
    SortedViewOrdered(data, s, collate);
    var r := SortedView(data, s, collate);
    var a := Cell(r[i], f);
    var b := Cell(r[j], f);
    assert ValueOrder(s.order, collate)(CellKey(f)(r[i]), CellKey(f)(r[j])) <= 0;
    assert Compare(a, b, s.order, collate) <= 0;
  }
}
