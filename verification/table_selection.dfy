/** Row selection: a set of row identifiers, changed by a row's checkbox and by
    the header's "select all" checkbox. Each change reports the selected rows,
    looked up in the rows as given (not as displayed). */
module TableSelection {
  import opened Options
  import opened TableModel

  /** The identifiers of the rows. */
  ghost function Ids(data: seq<Row>): set<Id> {
    set r | r in data :: r.id
  }

  /** No two rows share an identifier: what the widget asks of its caller. */
  ghost predicate UniqueIds(data: seq<Row>) {
    forall i, j | 0 <= i < j < |data| :: data[i].id != data[j].id
  }

  /** `data.filter(row => sel.has(row.id))`. */
  function RowsIn(data: seq<Row>, sel: set<Id>): (r: seq<Row>)
    ensures |r| <= |data|
    ensures forall x :: x in r <==> x in data && x.id in sel
  {
    if |data| == 0 then []
    else (if data[0].id in sel then [data[0]] else []) + RowsIn(data[1..], sel)
  }

  /** Filtering keeps the input order: it distributes over concatenation. */
  lemma {:induction false} RowsInConcat(a: seq<Row>, b: seq<Row>, sel: set<Id>)
    ensures RowsIn(a + b, sel) == RowsIn(a, sel) + RowsIn(b, sel)
  {
    if |a| == 0 {
      assert a + b == b;
    } else {
      assert (a + b)[0] == a[0];
      assert (a + b)[1..] == a[1..] + b;
      RowsInConcat(a[1..], b, sel);
    }
  }

  /** Selecting every identifier reports every row, in order. */
  lemma {:induction false} RowsInAll(data: seq<Row>, sel: set<Id>)
    requires Ids(data) <= sel
    ensures RowsIn(data, sel) == data
  {
    if |data| > 0 {
      assert data[0] in data;
      assert Ids(data[1..]) <= Ids(data) by {
        forall x | x in data[1..] ensures x in data { }
      }
      RowsInAll(data[1..], sel);
      assert data == [data[0]] + data[1..];
    }
  }

  /** The new selection and the rows reported to `onRowSelect`. */
  datatype SelectionChange = SelectionChange(selected: set<Id>, reported: seq<Row>)

  /** A row checkbox: flips the membership of `id` alone. */
  function ToggleSelectRow(data: seq<Row>, sel: set<Id>, id: Id): (r: SelectionChange)
    ensures id in r.selected <==> id !in sel
    ensures forall x | x != id :: x in r.selected <==> x in sel
    ensures forall x :: x in r.reported <==> x in data && x.id in r.selected
  {
    var next := if id in sel then sel - {id} else sel + {id};
    SelectionChange(next, RowsIn(data, next))
  }

  /** Two clicks on the same row checkbox restore the selection. */
  lemma ToggleSelectRowTwice(data: seq<Row>, sel: set<Id>, id: Id)
    ensures ToggleSelectRow(data, ToggleSelectRow(data, sel, id).selected, id).selected == sel
  {
    var once := ToggleSelectRow(data, sel, id).selected;
    var twice := ToggleSelectRow(data, once, id).selected;
    assert forall x :: x in twice <==> x in sel;
  }

  /** The header checkbox is checked when as many ids are selected as there are rows. */
  predicate AllChecked(data: seq<Row>, sel: set<Id>) {
    |sel| == |data|
  }

  /** The header checkbox: clears a full selection, otherwise selects every row. */
  function ToggleSelectAll(data: seq<Row>, sel: set<Id>): (r: SelectionChange)
    ensures AllChecked(data, sel) ==> r.selected == {} && r.reported == []
    ensures !AllChecked(data, sel) ==> r.selected == Ids(data) && r.reported == data
  {
    if AllChecked(data, sel) then SelectionChange({}, [])
    else SelectionChange(set r | r in data :: r.id, data)
  }

  /** A row checkbox reports exactly the rows whose id ends up selected, in
      the order they were given. */
  lemma RowToggleReportsSelection(data: seq<Row>, sel: set<Id>, id: Id)
    ensures ToggleSelectRow(data, sel, id).reported == RowsIn(data, ToggleSelectRow(data, sel, id).selected)
  {
  }

  /** "Select all" reports exactly the rows whose id ends up selected, in the
      order they were given. */
  lemma SelectAllReportsSelection(data: seq<Row>, sel: set<Id>)
    ensures ToggleSelectAll(data, sel).reported == RowsIn(data, ToggleSelectAll(data, sel).selected)
  {
    if !AllChecked(data, sel) {
      RowsInAll(data, Ids(data));
    } else {
      RowsInNone(data);
    }
  }

  lemma {:induction false} RowsInNone(data: seq<Row>)
    ensures RowsIn(data, {}) == []
  {
    if |data| > 0 {
      RowsInNone(data[1..]);
    }
  }

  lemma IdsCons(data: seq<Row>)
    requires |data| > 0
    ensures Ids(data) == {data[0].id} + Ids(data[1..])
  {
    assert data == [data[0]] + data[1..];
  }

  lemma UniqueCons(data: seq<Row>)
    requires |data| > 0
    ensures UniqueIds(data) <==> data[0].id !in Ids(data[1..]) && UniqueIds(data[1..])
  {
    var t := data[1..];
    if data[0].id in Ids(t) {
      var k :| 0 <= k < |t| && t[k].id == data[0].id;
      assert data[k + 1].id == data[0].id;
    } else if !UniqueIds(t) {
      var i, j :| 0 <= i < j < |t| && t[i].id == t[j].id;
      assert data[i + 1].id == data[j + 1].id;
    } else {
      forall i, j | 0 <= i < j < |data| ensures data[i].id != data[j].id {
        if i == 0 {
          assert data[j] in t;
        } else {
          assert data[i] == t[i - 1] && data[j] == t[j - 1];
        }
      }
    }
  }

  /** There are no more distinct identifiers than rows, and as many exactly
      when the identifiers are unique. */
  lemma {:induction false} IdsCount(data: seq<Row>)
    ensures |Ids(data)| <= |data|
    ensures UniqueIds(data) <==> |Ids(data)| == |data|
  {
    if |data| > 0 {
      var t := data[1..];
      IdsCount(t);
      IdsCons(data);
      UniqueCons(data);
      if data[0].id !in Ids(t) {
        assert |Ids(data)| == |Ids(t)| + 1;
      }
    }
  }

  /** With unique identifiers and no stale ones, the cardinality test of the
      header checkbox means exactly "every row is selected". */
  lemma AllCheckedMeansEveryRow(data: seq<Row>, sel: set<Id>)
    requires UniqueIds(data) && sel <= Ids(data)
    ensures AllChecked(data, sel) <==> sel == Ids(data)
  {
    IdsCount(data);
    if sel != Ids(data) {
      StrictSubsetCard(sel, Ids(data));
    }
  }

  /** With a repeated identifier the header checkbox can never be checked by a
      selection of the rows' own ids, so "select all" always selects and never
      clears. */
  lemma DuplicateIdsNeverAllChecked(data: seq<Row>, sel: set<Id>)
    requires !UniqueIds(data) && sel <= Ids(data)
    ensures !AllChecked(data, sel)
    ensures ToggleSelectAll(data, sel).selected == Ids(data)
  {
    IdsCount(data);
    assert |sel| <= |Ids(data)| by {
      SubsetCard(sel, Ids(data));
    }
  }

  lemma StrictSubsetCard(a: set<Id>, b: set<Id>)
    requires a < b
    ensures |a| < |b|
  {
    var rest := b - a;
    assert b == a + rest && a !! rest;
    assert rest != {};
  }

  lemma SubsetCard(a: set<Id>, b: set<Id>)
    requires a <= b
    ensures |a| <= |b|
  {
    assert b == a + (b - a);
  }

  /** Selection holds no identifier absent from the rows. */
  ghost predicate NoStaleIds(data: seq<Row>, sel: set<Id>) {
    sel <= Ids(data)
  }

  /** A row checkbox, which only exists for a shown row, keeps the selection
      free of stale identifiers. */
  lemma RowToggleKeepsNoStaleIds(data: seq<Row>, sel: set<Id>, id: Id)
    requires NoStaleIds(data, sel) && id in Ids(data)
    ensures NoStaleIds(data, ToggleSelectRow(data, sel, id).selected)
  {
  }

  /** "Select all" keeps the selection free of stale identifiers. */
  lemma SelectAllKeepsNoStaleIds(data: seq<Row>, sel: set<Id>)
    requires NoStaleIds(data, sel)
    ensures NoStaleIds(data, ToggleSelectAll(data, sel).selected)
  {
  }

  /** From an empty selection of unique rows, "select all" checks the header
      and reports every row; a second click clears and reports nothing. */
  lemma SelectAllTwice(data: seq<Row>)
    requires |data| > 0 && UniqueIds(data)
    ensures ToggleSelectAll(data, {}).reported == data
    ensures AllChecked(data, ToggleSelectAll(data, {}).selected)
    ensures ToggleSelectAll(data, ToggleSelectAll(data, {}).selected) == SelectionChange({}, [])
  {
    IdsCount(data);
  }
}
