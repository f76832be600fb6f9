/** What the table widget shows for given properties and state, and how its
    clickable elements change that state. */
module TableView {
  import opened Options
  import opened TableModel
  import opened TableSort
  import opened TableSelection
  import StableSort

  /** The widget's properties; `loading` and `selectable` default to false. */
  datatype TableProps = TableProps(
    data: seq<Row>,
    columns: seq<Column>,
    loading: Option<bool>,
    selectable: Option<bool>,
    hasOnRowSelect: bool)

  /** The widget's own state: sort and selection. */
  datatype TableState = TableState(sort: SortState, selected: set<Id>)

  const InitialState: TableState := TableState(InitialSort, {})

  datatype HeaderCell = HeaderCell(key: string, title: string, ariaSort: string, indicator: Option<string>)

  /** A body row: its id, whether it is highlighted as selected, its checkbox
      (present when the table is selectable) and its cell texts. */
  datatype BodyRow = BodyRow(id: Id, highlighted: bool, checkbox: Option<bool>, cells: seq<string>)

  /** The three display states. */
  datatype Display =
    | Loading
    | NoData
    | Table(selectAll: Option<bool>, headers: seq<HeaderCell>, body: seq<BodyRow>)

  const Ascending: string := "ascending"
  const Descending: string := "descending"
  const NoSort: string := "none"

  /** The `aria-sort` attribute of the header of a column reading `f`. */
  function AriaSort(s: SortState, f: Field): string {
    if s.key == Some(f) then (if s.order == Asc then Ascending else Descending)
    else NoSort
  }

  /** Reads an `aria-sort` value back as the direction it announces. */
  function AnnouncedOrder(aria: string): Option<Order> {
    if aria == Ascending then Some(Asc)
    else if aria == Descending then Some(Desc)
    else None
  }

  /** A header announces a direction exactly when its column's field is the
      active key, and then announces the active direction. */
  lemma AriaSortAnnouncesState(s: SortState, f: Field)
    ensures AnnouncedOrder(AriaSort(s, f)) == (if s.key == Some(f) then Some(s.order) else None)
  {
  }

  /** The glyph after a sortable column's title. */
  function Indicator(s: SortState, c: Column): (g: Option<string>)
    ensures g.Some? <==> Flag(c.sortable)
    ensures g == Some("\U{25B2}") <==> Flag(c.sortable) && AriaSort(s, c.dataIndex) == Ascending
    ensures g == Some("\U{25BC}") <==> Flag(c.sortable) && AriaSort(s, c.dataIndex) == Descending
    ensures g == Some("\U{21C5}") <==> Flag(c.sortable) && AriaSort(s, c.dataIndex) == NoSort
  {
    if !Flag(c.sortable) then None
    else if s.key == Some(c.dataIndex) then
      (if s.order == Asc then Some("\U{25B2}") else Some("\U{25BC}"))
    else Some("\U{21C5}")
  }

  function Header(s: SortState, c: Column): HeaderCell {
    HeaderCell(c.key, c.title, AriaSort(s, c.dataIndex), Indicator(s, c))
  }

  function BodyRowOf(p: TableProps, st: TableState, row: Row): BodyRow {
    BodyRow(
      row.id,
      row.id in st.selected,
      if Flag(p.selectable) then Some(row.id in st.selected) else None,
      seq(|p.columns|, c requires 0 <= c < |p.columns| => CellText(Cell(row, p.columns[c].dataIndex))))
  }

  /** Loading wins over everything; otherwise no rows means the empty state;
      otherwise the table. Its header checkbox, when selectable, is checked
      exactly when as many ids are selected as there are rows. Each header
      announces the sort of its column. The body lists the rows in sorted
      order, each highlighted and checked exactly when its id is selected,
      with one cell per column showing the text of that column's field. */
  function Render(p: TableProps, st: TableState, collate: (string, string) -> int): (d: Display)
    ensures Flag(p.loading) ==> d == Loading
    ensures !Flag(p.loading) && |p.data| == 0 ==> d == NoData
    ensures !Flag(p.loading) && |p.data| > 0 ==>
      && d.Table?
      && |d.headers| == |p.columns|
      && |d.body| == |p.data|
      && d.selectAll == (if Flag(p.selectable) then Some(|st.selected| == |p.data|) else None)
      && (forall c | 0 <= c < |p.columns| ::
            && d.headers[c].key == p.columns[c].key
            && d.headers[c].title == p.columns[c].title
            && d.headers[c].ariaSort == AriaSort(st.sort, p.columns[c].dataIndex)
            && d.headers[c].indicator == Indicator(st.sort, p.columns[c]))
    ensures !Flag(p.loading) && |p.data| > 0 ==>
      var rows := SortedView(p.data, st.sort, collate);
      forall i | 0 <= i < |d.body| ::
        && d.body[i].id == rows[i].id
        && (d.body[i].highlighted <==> rows[i].id in st.selected)
        && d.body[i].checkbox == (if Flag(p.selectable) then Some(rows[i].id in st.selected) else None)
        && |d.body[i].cells| == |p.columns|
        && (forall c | 0 <= c < |p.columns| :: d.body[i].cells[c] == CellText(Cell(rows[i], p.columns[c].dataIndex)))
  {
    if Flag(p.loading) then Loading
    else if |p.data| == 0 then NoData
    else
      var rows := SortedView(p.data, st.sort, collate);
      Table(
        if Flag(p.selectable) then Some(AllChecked(p.data, st.selected)) else None,
        seq(|p.columns|, c requires 0 <= c < |p.columns| => Header(st.sort, p.columns[c])),
        seq(|rows|, i requires 0 <= i < |rows| => BodyRowOf(p, st, rows[i])))
  }

  /** The table is on screen. */
  predicate Shown(p: TableProps) {
    !Flag(p.loading) && |p.data| > 0
  }

  /** In the table, the only headers announcing a direction are those of
      columns reading the active key. */
  lemma HeadersAnnounceActiveKey(p: TableProps, st: TableState, collate: (string, string) -> int, c: nat)
    requires Shown(p) && c < |p.columns|
    ensures Render(p, st, collate).headers[c].ariaSort != NoSort <==> st.sort.key == Some(p.columns[c].dataIndex)
  {
  }

  /** Every given row is shown, whatever the sort, and its highlight follows
      its id's membership in the selection: selection survives re-sorting. */
  lemma BodyShowsEveryRow(p: TableProps, st: TableState, collate: (string, string) -> int, r: Row)
    requires Shown(p) && r in p.data
    ensures exists i :: 0 <= i < |Render(p, st, collate).body|
                     && Render(p, st, collate).body[i].id == r.id
                     && Render(p, st, collate).body[i].highlighted == (r.id in st.selected)
  {
    var rows := SortedView(p.data, st.sort, collate);
    assert r in multiset(rows);
    var i :| 0 <= i < |rows| && rows[i] == r;
    assert Render(p, st, collate).body[i] == BodyRowOf(p, st, r);
  }

  /** The clickable elements of the table. */
  datatype Event = HeaderClick(column: nat) | RowCheckbox(id: Id) | SelectAllCheckbox

  /** The new state, and the rows passed to `onRowSelect` when it is given and called. */
  datatype Outcome = Outcome(state: TableState, notified: Option<seq<Row>>)

  /** Whether the element an event targets is on screen: headers exist in the
      table, checkboxes only in a selectable table, and a row checkbox only for
      a shown row. */
  predicate Clickable(p: TableProps, ev: Event) {
    Shown(p) &&
    match ev
    case HeaderClick(c) => c < |p.columns|
    case RowCheckbox(id) => Flag(p.selectable) && exists r | r in p.data :: r.id == id
    case SelectAllCheckbox => Flag(p.selectable)
  }

  function Notify(p: TableProps, rows: seq<Row>): Option<seq<Row>> {
    if p.hasOnRowSelect then Some(rows) else None
  }

  /** One interaction; an event on an element that is not on screen changes
      nothing. A header click applies `toggleSort` for its column; a row
      checkbox applies `toggleSelectRow` and the header checkbox
      `toggleSelectAll`, and either one calls `onRowSelect`, when given, with
      the rows whose id ends up selected. */
  function Step(p: TableProps, st: TableState, ev: Event): (o: Outcome)
    ensures !Clickable(p, ev) ==> o == Outcome(st, None)
    ensures ev.HeaderClick? ==> o.state.selected == st.selected && o.notified.None?
    ensures !ev.HeaderClick? ==> o.state.sort == st.sort
    ensures Clickable(p, ev) && ev.HeaderClick? ==>
      o.state.sort == ToggleSort(st.sort, p.columns[ev.column].dataIndex, p.columns[ev.column].sortable)
    ensures Clickable(p, ev) && ev.RowCheckbox? ==>
      o.state.selected == ToggleSelectRow(p.data, st.selected, ev.id).selected
    ensures Clickable(p, ev) && ev.SelectAllCheckbox? ==>
      o.state.selected == ToggleSelectAll(p.data, st.selected).selected
    ensures Clickable(p, ev) && !ev.HeaderClick? ==> (o.notified.Some? <==> p.hasOnRowSelect)
    ensures o.notified.Some? ==> p.hasOnRowSelect && o.notified.value == RowsIn(p.data, o.state.selected)
  {
    if !Clickable(p, ev) then Outcome(st, None)
    else
      match ev
      case HeaderClick(c) =>
        var col := p.columns[c];
        Outcome(TableState(ToggleSort(st.sort, col.dataIndex, col.sortable), st.selected), None)
      case RowCheckbox(id) =>
        var ch := ToggleSelectRow(p.data, st.selected, id);
        RowToggleReportsSelection(p.data, st.selected, id);
        Outcome(TableState(st.sort, ch.selected), Notify(p, ch.reported))
      case SelectAllCheckbox =>
        var ch := ToggleSelectAll(p.data, st.selected);
        SelectAllReportsSelection(p.data, st.selected);
        Outcome(TableState(st.sort, ch.selected), Notify(p, ch.reported))
  }

  /** After a click on a sortable header, that header announces ascending
      when its column was not the active one, and the other direction when
      it was. */
  lemma HeaderClickAnnounced(p: TableProps, st: TableState, collate: (string, string) -> int, c: nat)
    requires Shown(p) && c < |p.columns| && Flag(p.columns[c].sortable)
    ensures
      var f := p.columns[c].dataIndex;
      AnnouncedOrder(Render(p, Step(p, st, HeaderClick(c)).state, collate).headers[c].ariaSort)
        == Some(if st.sort.key == Some(f) then Flip(st.sort.order) else Asc)
  {
    var next := Step(p, st, HeaderClick(c)).state;
    AriaSortAnnouncesState(next.sort, p.columns[c].dataIndex);
  }

  /** With unique row ids, each click on the header checkbox flips whether it
      is checked. */
  lemma SelectAllFlipsHeaderCheckbox(p: TableProps, st: TableState, collate: (string, string) -> int)
    requires Shown(p) && Flag(p.selectable) && UniqueIds(p.data)
    ensures Render(p, Step(p, st, SelectAllCheckbox).state, collate).selectAll
            == Some(Render(p, st, collate).selectAll != Some(true))
  {
    IdsCount(p.data);
  }

  /** A sequence of interactions with the same properties. */
  function Run(p: TableProps, st: TableState, evs: seq<Event>): TableState
    decreases |evs|
  {
    if |evs| == 0 then st else Run(p, Step(p, st, evs[0]).state, evs[1..])
  }

  /** Under unchanged properties, interactions never put an identifier in the
      selection that no row carries, and never clear an active sort key. */
  lemma {:induction false} RunInvariants(p: TableProps, st: TableState, evs: seq<Event>)
    requires NoStaleIds(p.data, st.selected)
    ensures NoStaleIds(p.data, Run(p, st, evs).selected)
    ensures st.sort.key.Some? ==> Run(p, st, evs).sort.key.Some?
    decreases |evs|
  {
    if |evs| > 0 {
      var ev := evs[0];
      var next := Step(p, st, ev).state;
      match ev {
        case RowCheckbox(id) =>
          if Clickable(p, ev) {
            var r :| r in p.data && r.id == id;
            RowToggleKeepsNoStaleIds(p.data, st.selected, id);
          }
        case SelectAllCheckbox =>
          SelectAllKeepsNoStaleIds(p.data, st.selected);
        case HeaderClick(c) =>
      }
      RunInvariants(p, next, evs[1..]);
    }
  }
}
