/** The DataFrame the dashboard works on, taken as an abstract table: an
    ordered list of column names and a list of rows, each row mapping every
    column name to a cell that is either missing (pandas' NaN) or a value. */
module Tables {
  import opened Options
  import opened Decimals
  import opened Seqs

  /** Text as read from the file, a coerced number, or the `mes_ano` entry,
      kept opaque: it records only the year and month it is built from. */
  datatype Value = Text(text: string) | Num(number: Number) | Stamp(year: Option<Number>, month: Option<Number>)

  type Cell = Option<Value>

  type Row = map<string, Cell>

  datatype Table = Table(columns: seq<string>, rows: seq<Row>)

  const Year := "ano"
  const Month := "mes"
  const Period := "mes_ano"

  /** The columns that are neither year, month nor period: the crime
      metrics (dashboard.py lines 45 and 84 use the same list). */
  predicate IsMetricColumn(c: string) {
    c != Year && c != Month && c != Period
  }

  function ColumnSet(cols: seq<string>): set<string> {
    set c | c in cols
  }

  /** Column names are distinct and every row has exactly these columns. */
  predicate WellFormed(t: Table) {
    && Distinct(t.columns)
    && forall i :: 0 <= i < |t.rows| ==> t.rows[i].Keys == ColumnSet(t.columns)
  }

  /** A cell that pandas would report as not missing (`notna`). */
  predicate Present(row: Row, c: string) {
    c in row && row[c].Some?
  }

  /** The number in column `c` of a row, or None when the cell is missing or
      not numeric. */
  function NumberAt(row: Row, c: string): (r: Option<Number>)
    ensures r.Some? ==> Present(row, c) && row[c] == Some(Num(r.value))
  {
    if c in row && row[c].Some? && row[c].value.Num? then Some(row[c].value.number) else None
  }

  /** A cell holding the outcome of a numeric coercion. */
  function NumCell(n: Option<Number>): (r: Cell)
    ensures r.Some? <==> n.Some?
  {
    match n
    case None => None
    case Some(x) => Some(Num(x))
  }

  /** A cell as the file reader leaves it: missing or text. */
  predicate IsTextCell(x: Cell) {
    x.None? || x.value.Text?
  }

  /** All cells are text or missing, as `read_csv(..., dtype=str)` gives. */
  predicate IsRaw(t: Table) {
    forall i, c :: 0 <= i < |t.rows| && c in t.rows[i] ==> IsTextCell(t.rows[i][c])
  }
}
