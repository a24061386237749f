/** `carregar_dados` (dashboard.py lines 18-57): cleans the table read from
    the file. The file read itself is not modelled; the table arrives as
    the reader would leave it, every cell text or missing. */
module Loader {
  import opened Options
  import opened Decimals
  import opened Seqs
  import opened Text
  import opened Numbers
  import opened Tables

  // ---- Line 29: strip and unquote every text cell ----

  /** The per-cell function of line 29: a text cell is stripped and loses
      its double quotes; any other cell is returned as it is. */
  function CleanCell(x: Cell): Cell {
    if x.Some? && x.value.Text? then Some(Text(CleanText(x.value.text))) else x
  }

  /** `df.applymap(...)`: the table with `CleanCell` applied to every cell. */
  function CleanCells(t: Table): (r: Table)
    ensures r.columns == t.columns && |r.rows| == |t.rows|
    ensures forall i :: 0 <= i < |t.rows| ==> r.rows[i].Keys == t.rows[i].Keys
    ensures forall i, c :: 0 <= i < |t.rows| && c in t.rows[i] ==> r.rows[i][c] == CleanCell(t.rows[i][c])
  {
    Table(t.columns, seq(|t.rows|, i requires 0 <= i < |t.rows| =>
      map c | c in t.rows[i] :: CleanCell(t.rows[i][c])))
  }

  /** After line 29 no text cell holds a double quote, every other cell is
      unchanged, and the table keeps its shape and stays raw text. */
  lemma CleanCellsRemovesQuotes(t: Table)
    requires WellFormed(t) && IsRaw(t)
    ensures WellFormed(CleanCells(t)) && IsRaw(CleanCells(t))
    ensures forall i, c :: 0 <= i < |t.rows| && c in t.rows[i] && CleanCells(t).rows[i][c].Some? ==>
      '"' !in CleanCells(t).rows[i][c].value.text
    ensures forall i, c :: 0 <= i < |t.rows| && c in t.rows[i] && !Present(t.rows[i], c) ==>
      CleanCells(t).rows[i][c] == t.rows[i][c]
  {
  }

  // ---- Lines 33-34: year and month to numbers ----

  /** `pd.to_numeric(x, errors="coerce")` on one cell: missing stays
      missing, a text becomes its number or, if it does not parse, missing. */
  function ToNumericCell(x: Cell): (r: Cell)
    requires IsTextCell(x)
    ensures r.Some? <==> x.Some? && ParseNumber(x.value.text).Some?
    ensures r.Some? ==> r == Some(Num(ParseNumber(x.value.text).value))
  {
    if x.None? then None else NumCell(ParseNumber(x.value.text))
  }

  /** True when every cell in column `c` is text or missing. */
  predicate TextColumn(t: Table, c: string) {
    forall i :: 0 <= i < |t.rows| && c in t.rows[i] ==> IsTextCell(t.rows[i][c])
  }

  /** `df[c] = pd.to_numeric(df[c], errors="coerce")`: only column `c`
      changes. */
  function ToNumericColumn(t: Table, c: string): (r: Table)
    requires WellFormed(t) && c in t.columns && TextColumn(t, c)
    ensures WellFormed(r) && r.columns == t.columns && |r.rows| == |t.rows|
    ensures forall i :: 0 <= i < |t.rows| ==> r.rows[i].Keys == t.rows[i].Keys
    ensures forall i, d :: 0 <= i < |t.rows| && d in t.rows[i] ==>
      r.rows[i][d] == if d == c then ToNumericCell(t.rows[i][c]) else t.rows[i][d]
  {
    Table(t.columns, seq(|t.rows|, i requires 0 <= i < |t.rows| =>
      t.rows[i][c := ToNumericCell(t.rows[i][c])]))
  }

  // ---- Line 40: the period column ----

  /** Column names after loading: the file's, then `mes_ano` unless the file
      already had it. */
  function LoadedColumns(cols: seq<string>): seq<string> {
    cols + (if Period in cols then [] else [Period])
  }

  /** `df["mes_ano"] = ...`: sets, or appends at the end when it is not
      there yet, the period column; its entry records the row's year and
      month. The date construction itself is not modelled. */
  function AddPeriod(t: Table): (r: Table)
    requires WellFormed(t)
    ensures WellFormed(r) && |r.rows| == |t.rows|
    ensures r.columns == LoadedColumns(t.columns)
    ensures forall i :: 0 <= i < |t.rows| ==> r.rows[i].Keys == t.rows[i].Keys + {Period}
    ensures forall i :: 0 <= i < |t.rows| ==>
      r.rows[i][Period] == Some(Stamp(NumberAt(t.rows[i], Year), NumberAt(t.rows[i], Month)))
    ensures forall i, d :: 0 <= i < |t.rows| && d in t.rows[i] && d != Period ==> r.rows[i][d] == t.rows[i][d]
  {
    var cols := if Period in t.columns then t.columns else t.columns + [Period];
    assert Distinct(cols);
    Table(cols, seq(|t.rows|, i requires 0 <= i < |t.rows| =>
      t.rows[i][Period := Some(Stamp(NumberAt(t.rows[i], Year), NumberAt(t.rows[i], Month)))]))
  }

  // ---- Lines 44-54: the metric columns ----

  /** `.astype(str)` of a text-or-missing cell: NaN prints as "nan". */
  function AsText(x: Cell): string
    requires IsTextCell(x)
  {
    if x.None? then "nan" else x.value.text
  }

  /** Lines 48-54 on one text: commas to periods, drop everything but
      digits, '.' and '-', then coerce. */
  function CoerceMetricText(s: string): Option<Number> {
    ParseNumber(NormaliseMetric(s))
  }

  function CoerceMetricCell(x: Cell): Cell
    requires IsTextCell(x)
  {
    NumCell(CoerceMetricText(AsText(x)))
  }

  /** A metric text becomes a number exactly when its normalised form is a
      numeral: a '-' only in front, at most one '.', and some digit. */
  lemma CoerceMetricAccepts(s: string)
    ensures var t := NormaliseMetric(s);
      CoerceMetricText(s).Some? <==>
        && (forall k :: 0 < k < |t| ==> t[k] != '-')
        && multiset(t)['.'] <= 1
        && (exists k :: 0 <= k < |t| && IsDigit(t[k]))
  {
    var t := NormaliseMetric(s);
    NormaliseMetricAlphabet(s);
    ParseAcceptsNumerals(t);
    var b := Unsigned(t);
    if HasSign(t) {
      assert t == [t[0]] + b;
      assert multiset(t)['.'] == multiset(b)['.'];
      assert forall k :: 0 < k < |t| ==> t[k] == b[k - 1];
      assert (exists k :: 0 <= k < |t| && IsDigit(t[k])) ==> exists k :: 0 <= k < |b| && IsDigit(b[k]) by {
        if exists k :: 0 <= k < |t| && IsDigit(t[k]) {
          var k :| 0 <= k < |t| && IsDigit(t[k]);
          assert k > 0 && IsDigit(b[k - 1]);
        }
      }
    } else if t != [] {
      assert t[0] != '-';
    }
  }

  /** Coercing the plain notation of a number gives the same number:
      running the cleaning again on clean values changes nothing. */
  lemma CoerceMetricRender(n: Number)
    ensures CoerceMetricText(Render(n)) == Some(n)
  {
    var s := Render(n);
    RenderSplits(n);
    forall k | 0 <= k < |s| ensures IsNumericChar(s[k]) {
      RenderAlphabet(n, k);
    }
    NormaliseMetricFixesNumeric(s);
    ParseRender(n);
  }

  /** A missing metric cell stays missing: NaN prints as "nan", which the
      filter empties, and the empty text does not parse. */
  lemma MissingMetricStaysMissing()
    ensures CoerceMetricCell(None) == None
  {
    assert NormaliseMetric("nan") == [] by {
      assert CommaToDot("nan") == "nan";
      assert KeepNumeric("nan") == KeepNumeric("an") == KeepNumeric("n") == KeepNumeric("");
    }
  }

  lemma NormaliseSymbolsExample()
    ensures NormaliseMetric("R$ 45") == "45"
  {
    assert CommaToDot("R$ 45") == "R$ 45";
    KeepNumericDropsPrefix("R$ 45", 3);
    assert "R$ 45"[3..] == "45";
    KeepNumericKeepsNumeric("45");
  }

  /** Stray symbols are dropped: "R$ 45" reads as 45. */
  lemma CoerceMetricDropsSymbols()
    ensures CoerceMetricText("R$ 45") == Some(Decimal(45, 0))
  {
    NormaliseSymbolsExample();
    assert Unsigned("45") == "45";
    assert Scan("45", 0, false, false, 0) == Scan("5", 4, true, false, 0) == Scan("", 45, true, false, 0);
  }

  lemma NormaliseCommaExample()
    ensures NormaliseMetric("12,5") == "12.5"
  {
    assert CommaToDot("12,5") == "12.5";
    KeepNumericKeepsNumeric("12.5");
  }

  lemma ScanCommaExample()
    ensures Scan("12.5", 0, false, false, 0) == Some((125, 1))
  {
    assert Scan("12.5", 0, false, false, 0) == Scan("2.5", 1, true, false, 0) == Scan(".5", 12, true, false, 0);
    assert Scan(".5", 12, true, false, 0) == Scan("5", 12, true, true, 0) == Scan("", 125, true, true, 1);
  }

  /** A decimal comma is read as a decimal point: "12,5" reads as 12.5. */
  lemma CoerceMetricDecimalComma()
    ensures CoerceMetricText("12,5") == Some(Decimal(125, 1))
  {
    NormaliseCommaExample();
    assert Unsigned("12.5") == "12.5";
    ScanCommaExample();
    assert Canonical(Decimal(125, 1));
    assert ParseNumber("12.5") == Some(Normalise(Decimal(125, 1)));
  }

  lemma NormaliseThousandsExample()
    ensures NormaliseMetric("1.234,56") == "1.234.56"
  {
    assert CommaToDot("1.234,56") == "1.234.56";
    KeepNumericKeepsNumeric("1.234.56");
  }

  /** The European "1.234,56" becomes "1.234.56", with two periods, so it is
      missing rather than 1234.56. */
  lemma CoerceMetricThousandsSeparator()
    ensures CoerceMetricText("1.234,56") == None
  {
    var t := "1.234.56";
    NormaliseThousandsExample();
    assert Unsigned(t) == t;
    // The scan reads "1.234" and then stops at the second period.
    assert t[1..] == ".234.56" && t[2..] == "234.56";
    assert t[5..] == ".56" && t[2..][1..] == "34.56" && t[2..][2..] == "4.56" && t[2..][3..] == t[5..];
    assert Scan(t[5..], 1234, true, true, 3) == None;
    assert Scan(t, 0, false, false, 0) == Scan(t[5..], 1234, true, true, 3);
  }

  /** "--" and the empty text do not parse, so they are missing. */
  lemma CoerceMetricRejects()
    ensures CoerceMetricText("--") == None
    ensures CoerceMetricText("") == None
  {
    assert NormaliseMetric("--") == "--" by {
      assert CommaToDot("--") == "--";
      KeepNumericKeepsNumeric("--");
    }
    assert Unsigned("--") == "-";
    assert CommaToDot("") == "";
  }

  /** The two assignments to `df[c]` in the loop body: only column `c`
      changes. */
  function CoerceMetricColumn(t: Table, c: string): (r: Table)
    requires WellFormed(t) && c in t.columns && TextColumn(t, c)
    ensures WellFormed(r) && r.columns == t.columns && |r.rows| == |t.rows|
    ensures forall i :: 0 <= i < |t.rows| ==> r.rows[i].Keys == t.rows[i].Keys
    ensures forall i, d :: 0 <= i < |t.rows| && d in t.rows[i] ==>
      r.rows[i][d] == if d == c then CoerceMetricCell(t.rows[i][c]) else t.rows[i][d]
  {
    Table(t.columns, seq(|t.rows|, i requires 0 <= i < |t.rows| =>
      t.rows[i][c := CoerceMetricCell(t.rows[i][c])]))
  }

  /** The metric columns of `t` hold only text or missing cells. */
  predicate TextMetrics(t: Table) {
    forall i, c :: 0 <= i < |t.rows| && c in t.rows[i] && IsMetricColumn(c) ==> IsTextCell(t.rows[i][c])
  }

  /** A cell of `row` once the metric columns in `done` have been coerced. */
  function CoercedIn(row: Row, c: string, done: set<string>): Cell
    requires c in row && (IsMetricColumn(c) ==> IsTextCell(row[c]))
  {
    if IsMetricColumn(c) && c in done then CoerceMetricCell(row[c]) else row[c]
  }

  /** The loop `for c in df.columns: if c not in [...]: df[c] = ...`
      (lines 44-54): each metric column is coerced in turn; the year, month
      and period columns, the column order and the row count stay as they
      are. */
  method CoerceMetrics(df: Table) returns (out: Table)
    requires WellFormed(df) && TextMetrics(df)
    ensures WellFormed(out) && out.columns == df.columns && |out.rows| == |df.rows|
    ensures forall i :: 0 <= i < |df.rows| ==> out.rows[i].Keys == df.rows[i].Keys
    ensures forall i, c :: 0 <= i < |df.rows| && c in df.rows[i] ==>
      out.rows[i][c] == if IsMetricColumn(c) then CoerceMetricCell(df.rows[i][c]) else df.rows[i][c]
  {
    out := df;
    ghost var done: set<string> := {};
    for j := 0 to |df.columns|
      invariant WellFormed(out) && out.columns == df.columns && |out.rows| == |df.rows|
      invariant forall i :: 0 <= i < |df.rows| ==> out.rows[i].Keys == df.rows[i].Keys
      invariant done == set k | 0 <= k < j :: df.columns[k]
      invariant forall i, c :: 0 <= i < |df.rows| && c in df.rows[i] ==> out.rows[i][c] == CoercedIn(df.rows[i], c, done)
    {
      var c := df.columns[j];
      assert c !in done;
      ghost var before := out;
      if IsMetricColumn(c) {
        out := CoerceMetricColumn(out, c);
      }
      forall i, d | 0 <= i < |df.rows| && d in df.rows[i]
        ensures out.rows[i][d] == CoercedIn(df.rows[i], d, done + {c})
      {
        assert before.rows[i][d] == CoercedIn(df.rows[i], d, done);
        if d != c {
          assert out.rows[i][d] == before.rows[i][d];
        }
      }
      done := done + {c};
    }
    assert forall c :: c in df.columns ==> c in done;
  }

  // ---- The whole of carregar_dados ----

  /** The year and month columns are distinct, and neither they nor the
      period column is a metric. */
  lemma NamedColumns()
    ensures Year != Month && Year != Period && Month != Period
    ensures !IsMetricColumn(Year) && !IsMetricColumn(Month) && !IsMetricColumn(Period)
  {
    assert Year[0] != Month[1];
    assert |Year| != |Period| && |Month| != |Period|;
  }

  /** Lines 29-40: the cleaned table with `ano` and `mes` parsed and the
      period column set, before the metric loop. */
  function Prepare(raw: Table): (r: Table)
    requires WellFormed(raw) && IsRaw(raw) && Year in raw.columns && Month in raw.columns
    ensures WellFormed(r) && r.columns == LoadedColumns(raw.columns) && |r.rows| == |raw.rows|
    ensures TextMetrics(r)
  {
    NamedColumns();
    CleanCellsRemovesQuotes(raw);
    var t1 := CleanCells(raw);
    var t2 := ToNumericColumn(t1, Year);
    var t3 := ToNumericColumn(t2, Month);
    var t4 := AddPeriod(t3);
    assert TextMetrics(t4) by {
      forall i, c | 0 <= i < |t4.rows| && c in t4.rows[i] && IsMetricColumn(c)
        ensures IsTextCell(t4.rows[i][c])
      {
        assert t4.rows[i][c] == t3.rows[i][c] == t2.rows[i][c] == t1.rows[i][c];
      }
    }
    t4
  }

  /** Before the metric loop, every metric cell is the cleaned cell of the
      file. */
  lemma PrepareMetricCells(raw: Table, i: int, c: string)
    requires WellFormed(raw) && IsRaw(raw) && Year in raw.columns && Month in raw.columns
    requires 0 <= i < |raw.rows| && c in raw.columns && IsMetricColumn(c)
    ensures c in Prepare(raw).rows[i] && Prepare(raw).rows[i][c] == CleanCell(raw.rows[i][c])
  {
    NamedColumns();
    CleanCellsRemovesQuotes(raw);
    var t1 := CleanCells(raw);
    var t2 := ToNumericColumn(t1, Year);
    var t3 := ToNumericColumn(t2, Month);
    assert c in t3.rows[i];
    assert AddPeriod(t3).rows[i][c] == t3.rows[i][c] == t2.rows[i][c] == t1.rows[i][c];
  }

  /** Before the metric loop, `ano` and `mes` hold the parsed cleaned cells
      and `mes_ano` records them. */
  lemma PrepareDateCells(raw: Table, i: int)
    requires WellFormed(raw) && IsRaw(raw) && Year in raw.columns && Month in raw.columns
    requires 0 <= i < |raw.rows|
    ensures Year in Prepare(raw).rows[i] && Month in Prepare(raw).rows[i] && Period in Prepare(raw).rows[i]
    ensures Prepare(raw).rows[i][Year] == ToNumericCell(CleanCell(raw.rows[i][Year]))
    ensures Prepare(raw).rows[i][Month] == ToNumericCell(CleanCell(raw.rows[i][Month]))
    ensures Prepare(raw).rows[i][Period] ==
      Some(Stamp(NumberAt(Prepare(raw).rows[i], Year), NumberAt(Prepare(raw).rows[i], Month)))
  {
    NamedColumns();
    CleanCellsRemovesQuotes(raw);
    var t1 := CleanCells(raw);
    var t2 := ToNumericColumn(t1, Year);
    var t3 := ToNumericColumn(t2, Month);
    var t4 := AddPeriod(t3);
    assert Year in t1.rows[i] && Month in t1.rows[i];
    assert t3.rows[i][Year] == t2.rows[i][Year] == ToNumericCell(t1.rows[i][Year]);
    assert t3.rows[i][Month] == ToNumericCell(t2.rows[i][Month]);
    assert t4.rows[i][Year] == t3.rows[i][Year] && t4.rows[i][Month] == t3.rows[i][Month];
  }

  /** `carregar_dados`. Reading `df["ano"]` or `df["mes"]` raises when the
      column is absent; that is the None result. Otherwise every row is kept
      and each cell is the cleaned, coerced form of the file's cell. */
  method Load(raw: Table) returns (r: Option<Table>)
    requires WellFormed(raw) && IsRaw(raw)
    ensures r.None? <==> Year !in raw.columns || Month !in raw.columns
    ensures r.Some? ==> WellFormed(r.value) && r.value.columns == LoadedColumns(raw.columns)
    ensures r.Some? ==> |r.value.rows| == |raw.rows|
    ensures r.Some? ==> forall i, c :: 0 <= i < |raw.rows| && c in raw.columns && IsMetricColumn(c) ==>
      r.value.rows[i][c] == CoerceMetricCell(CleanCell(raw.rows[i][c]))
    ensures r.Some? ==> forall i :: 0 <= i < |raw.rows| ==>
      && r.value.rows[i][Year] == ToNumericCell(CleanCell(raw.rows[i][Year]))
      && r.value.rows[i][Month] == ToNumericCell(CleanCell(raw.rows[i][Month]))
      && r.value.rows[i][Period] == Some(Stamp(NumberAt(r.value.rows[i], Year), NumberAt(r.value.rows[i], Month)))
  {
    if Year !in raw.columns || Month !in raw.columns {
      return None;
    }
    NamedColumns();
    var df := Prepare(raw);
    ghost var prepared := df;
    df := CoerceMetrics(df);
    forall i, c | 0 <= i < |raw.rows| && c in raw.columns && IsMetricColumn(c)
      ensures df.rows[i][c] == CoerceMetricCell(CleanCell(raw.rows[i][c]))
    {
      PrepareMetricCells(raw, i, c);
    }
    forall i | 0 <= i < |raw.rows|
      ensures df.rows[i][Year] == ToNumericCell(CleanCell(raw.rows[i][Year]))
      ensures df.rows[i][Month] == ToNumericCell(CleanCell(raw.rows[i][Month]))
      ensures df.rows[i][Period] == Some(Stamp(NumberAt(df.rows[i], Year), NumberAt(df.rows[i], Month)))
    {
      PrepareDateCells(raw, i);
      assert df.rows[i][Year] == prepared.rows[i][Year];
      assert df.rows[i][Month] == prepared.rows[i][Month];
      assert df.rows[i][Period] == prepared.rows[i][Period];
    }
    return Some(df);
  }
}
