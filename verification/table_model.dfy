/** The data the table widget is given: rows carrying an identifier, and the
    column descriptors that say which field of a row each column shows. */
module TableModel {
  import opened Options
  import Decimal

  /** The name of a field of a row (`keyof T`). */
  type Field = string

  /** A field value: a missing field, `null` and `undefined` are all `Null`;
      numbers are integer-valued. */
  datatype Value = Null | Num(n: int) | Str(s: string)

  /** A row identifier is a number or a string; `1` and `"1"` are different ids. */
  datatype Id = IdNum(n: int) | IdStr(s: string)

  /** A row: its identifier, kept in the `id` field, and its other fields. */
  datatype Row = Row(id: Id, fields: map<Field, Value>)

  /** A column descriptor; `sortable` is optional and absent means not sortable. */
  datatype Column = Column(key: string, title: string, dataIndex: Field, sortable: Option<bool>)

  const IdField: Field := "id"

  function IdValue(id: Id): Value {
    match id
    case IdNum(n) => Num(n)
    case IdStr(s) => Str(s)
  }

  /** `row[field]`: the identifier for the `id` field, `Null` for a field the row lacks. */
  function Cell(row: Row, f: Field): Value {
    if f == IdField then IdValue(row.id)
    else if f in row.fields then row.fields[f]
    else Null
  }

  /** `String(row[field] ?? "")`: the text a body cell shows. A number is
      written with its exact digits, as JavaScript does up to 2^53 in magnitude. */
  function CellText(v: Value): (t: string)
    ensures v.Null? ==> t == ""
    ensures v.Str? ==> t == v.s
    ensures v.Num? ==> Decimal.Canonical(t) && Decimal.ParseInt(t) == Some(v.n)
  {
    match v
    case Null => ""
    case Num(n) => Decimal.IntRoundTrip(n); Decimal.IntToString(n)
    case Str(s) => s
  }

  /** A number cell shows the one canonical decimal text of its number: any
      canonical text reading back as `n` is the cell's text. */
  lemma NumberTextUnique(n: int, t: string)
    requires Decimal.Canonical(t) && Decimal.ParseInt(t) == Some(n)
    ensures CellText(Num(n)) == t
  {
    Decimal.CanonicalRoundTrip(t);
  }
}
