/** The derivations dashboard.py makes from the loaded table (lines 73-121):
    the year list and the slider defaults, the metric columns and the default
    selection, the year-range filter, the projection shown as a table, and
    the decision between drawing the chart and showing the warning. The
    choices a user makes in the widgets are parameters. */
module Dashboard {
  import opened Options
  import opened Decimals
  import opened Seqs
  import opened Tables

  // ---- The year list: sorted(df["ano"].dropna().unique()) ----

  function YearOf(row: Row): Option<Number> {
    NumberAt(row, Year)
  }

  /** Some row of the table has the year `y`. */
  predicate HasYear(t: Table, y: Number) {
    exists i :: 0 <= i < |t.rows| && YearOf(t.rows[i]) == Some(y)
  }

  /** `dropna()`: the years of the rows that have one, in row order. */
  function NonMissingYears(rows: seq<Row>): seq<Number> {
    if rows == [] then []
    else
      match YearOf(rows[0])
      case None => NonMissingYears(rows[1..])
      case Some(y) => [y] + NonMissingYears(rows[1..])
  }

  /** `unique()`: every value once, at its first occurrence. */
  function Unique(s: seq<Number>): seq<Number> {
    if s == [] then []
    else
      var r := Unique(s[..|s| - 1]);
      if s[|s| - 1] in r then r else r + [s[|s| - 1]]
  }

  /** Inserts `x` before the first element it is not above. */
  function Insert(x: Number, s: seq<Number>): seq<Number> {
    if s == [] then [x]
    else if LessEq(x, s[0]) then [x] + s
    else [s[0]] + Insert(x, s[1..])
  }

  /** `sorted`, as an insertion sort on the numeric order. */
  function SortAscending(s: seq<Number>): seq<Number> {
    if s == [] then [] else Insert(s[0], SortAscending(s[1..]))
  }

  predicate StrictlyAscending(s: seq<Number>) {
    forall i, j :: 0 <= i < j < |s| ==> Less(s[i], s[j])
  }

  /** The slider's options `anos`. */
  function Years(t: Table): seq<Number> {
    SortAscending(Unique(NonMissingYears(t.rows)))
  }

  lemma {:induction false} NonMissingYearsMembers(rows: seq<Row>, y: Number)
    ensures y in NonMissingYears(rows) <==> exists i :: 0 <= i < |rows| && YearOf(rows[i]) == Some(y)
  {
    if rows != [] {
      var tail := rows[1..];
      NonMissingYearsMembers(tail, y);
      if exists i :: 0 <= i < |tail| && YearOf(tail[i]) == Some(y) {
        var i :| 0 <= i < |tail| && YearOf(tail[i]) == Some(y);
        assert YearOf(rows[i + 1]) == Some(y);
      }
      if exists i :: 0 <= i < |rows| && YearOf(rows[i]) == Some(y) {
        var i :| 0 <= i < |rows| && YearOf(rows[i]) == Some(y);
        if i > 0 {
          assert YearOf(tail[i - 1]) == Some(y);
        }
      }
    }
  }

  /** `unique()` keeps exactly the values of its input, each once. */
  lemma {:induction false} UniqueDistinct(s: seq<Number>)
    ensures Distinct(Unique(s))
    ensures forall y :: y in Unique(s) <==> y in s
  {
    if s != [] {
      var init, x := s[..|s| - 1], s[|s| - 1];
      UniqueDistinct(init);
      assert s == init + [x];
      var r := Unique(init);
      if x !in r {
        forall i, j | 0 <= i < j < |r + [x]|
          ensures (r + [x])[i] != (r + [x])[j]
        {
          if j == |r| {
            assert (r + [x])[i] == r[i];
          } else {
            assert (r + [x])[i] == r[i] && (r + [x])[j] == r[j];
          }
        }
      }
    }
  }

  lemma {:induction false} InsertPermutes(x: Number, s: seq<Number>)
    ensures multiset(Insert(x, s)) == multiset(s) + multiset{x}
  {
    if s != [] {
      assert s == [s[0]] + s[1..];
      if !LessEq(x, s[0]) {
        InsertPermutes(x, s[1..]);
      }
    }
  }

  /** Inserting a new value into a strictly ascending list keeps it so. */
  lemma {:induction false} InsertAscending(x: Number, s: seq<Number>)
    requires StrictlyAscending(s) && x !in s
    ensures StrictlyAscending(Insert(x, s))
  {
    if s != [] {
      if LessEq(x, s[0]) {
        Trichotomy(x, s[0]);
        assert Less(x, s[0]);
        forall j | 0 < j < |s| ensures Less(x, s[j]) {
          LessTransitive(x, s[0], s[j]);
        }
        var r := [x] + s;
        forall i, j | 0 <= i < j < |r| ensures Less(r[i], r[j]) {
          assert r[j] == s[j - 1];
          if i > 0 {
            assert r[i] == s[i - 1];
          }
        }
      } else {
        assert Less(s[0], x);
        var tail := s[1..];
        var rest := Insert(x, tail);
        InsertAscending(x, tail);
        InsertPermutes(x, tail);
        forall k | 0 <= k < |rest| ensures Less(s[0], rest[k]) {
          assert rest[k] in multiset(rest);
          if rest[k] != x {
            assert rest[k] in multiset(tail);
            var j :| 0 <= j < |tail| && tail[j] == rest[k];
            assert Less(s[0], s[j + 1]);
          }
        }
        var r := [s[0]] + rest;
        forall i, j | 0 <= i < j < |r| ensures Less(r[i], r[j]) {
          assert r[j] == rest[j - 1];
          if i > 0 {
            assert r[i] == rest[i - 1];
          }
        }
      }
    }
  }

  /** The sort is a permutation of its input. */
  lemma {:induction false} SortPermutes(s: seq<Number>)
    ensures multiset(SortAscending(s)) == multiset(s)
  {
    if s != [] {
      assert s == [s[0]] + s[1..];
      SortPermutes(s[1..]);
      InsertPermutes(s[0], SortAscending(s[1..]));
    }
  }

  /** Sorting distinct values gives a strictly ascending list. */
  lemma {:induction false} SortStrictlyAscending(s: seq<Number>)
    requires Distinct(s)
    ensures StrictlyAscending(SortAscending(s))
  {
    if s != [] {
      var tail := s[1..];
      assert Distinct(tail) by {
        forall i, j | 0 <= i < j < |tail| ensures tail[i] != tail[j] {
          assert tail[i] == s[i + 1] && tail[j] == s[j + 1];
        }
      }
      SortStrictlyAscending(tail);
      SortPermutes(tail);
      assert s[0] !in tail by {
        forall j | 0 <= j < |tail| ensures tail[j] != s[0] {
          assert tail[j] == s[j + 1];
        }
      }
      assert s[0] !in multiset(SortAscending(tail));
      InsertAscending(s[0], SortAscending(tail));
    }
  }

  /** `anos` is strictly ascending, so it has no duplicates; it holds no
      missing value by its element type. */
  lemma YearsAscending(t: Table)
    ensures StrictlyAscending(Years(t))
    ensures Distinct(Years(t))
  {
    var u := Unique(NonMissingYears(t.rows));
    UniqueDistinct(NonMissingYears(t.rows));
    SortStrictlyAscending(u);
    var ys := Years(t);
    forall i, j | 0 <= i < j < |ys| ensures ys[i] != ys[j] {
      LessIrreflexive(ys[i]);
    }
  }

  /** `anos` holds exactly the years that occur in some row. */
  lemma YearsMembers(t: Table)
    ensures forall y :: y in Years(t) <==> HasYear(t, y)
  {
    var u := Unique(NonMissingYears(t.rows));
    UniqueDistinct(NonMissingYears(t.rows));
    SortPermutes(u);
    forall y ensures y in Years(t) <==> HasYear(t, y) {
      NonMissingYearsMembers(t.rows, y);
      assert y in Years(t) <==> y in multiset(u);
    }
  }

  // ---- The slider defaults: (anos[0], anos[-1]) ----

  /** The default range of the year slider, the first and the last option;
      None where indexing the empty list raises IndexError. */
  function SliderDefaults(years: seq<Number>): (r: Option<(Number, Number)>)
    ensures r.Some? <==> years != []
    ensures r.Some? ==> r.value.0 in years && r.value.1 in years
  {
    if years == [] then None else Some((years[0], years[|years| - 1]))
  }

  /** The defaults are the smallest and the largest year of the table, and
      there are none exactly when no row has a year. */
  lemma SliderDefaultsAreExtremes(t: Table)
    ensures SliderDefaults(Years(t)).None? <==> forall i :: 0 <= i < |t.rows| ==> YearOf(t.rows[i]).None?
    ensures SliderDefaults(Years(t)).Some? ==>
      var (lo, hi) := SliderDefaults(Years(t)).value;
      && HasYear(t, lo) && HasYear(t, hi)
      && forall i :: 0 <= i < |t.rows| && YearOf(t.rows[i]).Some? ==>
           LessEq(lo, YearOf(t.rows[i]).value) && LessEq(YearOf(t.rows[i]).value, hi)
  {
    var ys := Years(t);
    YearsAscending(t);
    YearsMembers(t);
    if ys == [] {
      forall i | 0 <= i < |t.rows| ensures YearOf(t.rows[i]).None? {
        if YearOf(t.rows[i]).Some? {
          assert HasYear(t, YearOf(t.rows[i]).value);
        }
      }
    } else {
      var lo, hi := ys[0], ys[|ys| - 1];
      assert lo in ys && hi in ys;
      forall i | 0 <= i < |t.rows| && YearOf(t.rows[i]).Some?
        ensures LessEq(lo, YearOf(t.rows[i]).value) && LessEq(YearOf(t.rows[i]).value, hi)
      {
        var y := YearOf(t.rows[i]).value;
        assert HasYear(t, y);
        var k :| 0 <= k < |ys| && ys[k] == y;
        if k > 0 {
          LessEqOfLess(lo, y);
        }
        if k < |ys| - 1 {
          LessEqOfLess(y, hi);
        }
      }
    }
  }

  // ---- The metric columns and the default selection (lines 84, 90) ----

  /** `crime_cols`: the columns other than ano, mes and mes_ano. */
  function MetricColumns(cols: seq<string>): (r: seq<string>)
    ensures forall c :: c in r <==> c in cols && IsMetricColumn(c)
  {
    if cols == [] then []
    else (if IsMetricColumn(cols[0]) then [cols[0]] else []) + MetricColumns(cols[1..])
  }

  /** The metric columns keep the table's column order. */
  lemma {:induction false} MetricColumnsInOrder(cols: seq<string>)
    ensures IsSubsequence(MetricColumns(cols), cols)
  {
    if cols != [] {
      var rest := MetricColumns(cols[1..]);
      MetricColumnsInOrder(cols[1..]);
      if IsMetricColumn(cols[0]) {
        assert ([cols[0]] + rest)[1..] == rest;
      } else {
        assert MetricColumns(cols) == rest;
      }
    }
  }

  /** `default=[crime_cols[0]]`; None where indexing the empty list raises
      IndexError. */
  function DefaultSelection(crimeCols: seq<string>): (r: Option<seq<string>>)
    ensures r.Some? <==> crimeCols != []
    ensures r.Some? ==> |r.value| == 1 && r.value[0] in crimeCols
  {
    if crimeCols == [] then None else Some([crimeCols[0]])
  }

  /** Column `k` is a metric column and none before it is. */
  predicate FirstMetricAt(cols: seq<string>, k: int) {
    0 <= k < |cols| && IsMetricColumn(cols[k]) && forall j :: 0 <= j < k ==> !IsMetricColumn(cols[j])
  }

  lemma {:induction false} MetricColumnsHead(cols: seq<string>)
    requires MetricColumns(cols) != []
    ensures exists k :: FirstMetricAt(cols, k) && MetricColumns(cols)[0] == cols[k]
  {
    var tail := cols[1..];
    if IsMetricColumn(cols[0]) {
      assert FirstMetricAt(cols, 0);
    } else {
      assert MetricColumns(cols) == MetricColumns(tail);
      MetricColumnsHead(tail);
      var k :| FirstMetricAt(tail, k) && MetricColumns(tail)[0] == tail[k];
      assert cols[k + 1] == tail[k];
      forall j | 0 <= j < k + 1 ensures !IsMetricColumn(cols[j]) {
        if j > 0 {
          assert cols[j] == tail[j - 1];
        }
      }
      assert FirstMetricAt(cols, k + 1);
    }
  }

  /** The default selection is the metric column that comes first in the
      table, and there is none exactly when the table has no metric column. */
  lemma DefaultSelectionIsFirstMetric(cols: seq<string>)
    ensures DefaultSelection(MetricColumns(cols)).None? <==> forall k :: 0 <= k < |cols| ==> !IsMetricColumn(cols[k])
    ensures DefaultSelection(MetricColumns(cols)).Some? ==>
      exists k :: FirstMetricAt(cols, k) && DefaultSelection(MetricColumns(cols)).value == [cols[k]]
  {
    var m := MetricColumns(cols);
    if m == [] {
      forall k | 0 <= k < |cols| ensures !IsMetricColumn(cols[k]) {
        assert cols[k] in cols;
      }
    } else {
      MetricColumnsHead(cols);
      assert m[0] in m;
    }
  }

  // ---- The year-range filter: df[(df["ano"] >= lo) & (df["ano"] <= hi)] ----

  /** The row mask; a missing year compares false on both sides. */
  predicate InRange(row: Row, lo: Number, hi: Number) {
    YearOf(row).Some? && LessEq(lo, YearOf(row).value) && LessEq(YearOf(row).value, hi)
  }

  function FilterRows(rows: seq<Row>, lo: Number, hi: Number): (r: seq<Row>)
    ensures forall k :: 0 <= k < |r| ==> InRange(r[k], lo, hi)
  {
    if rows == [] then []
    else
      var rest := FilterRows(rows[1..], lo, hi);
      if InRange(rows[0], lo, hi) then [rows[0]] + rest else rest
  }

  /** `df_filtrado`: the same columns, only the rows whose year lies in the
      inclusive range. */
  function FilterYears(t: Table, lo: Number, hi: Number): (r: Table)
    ensures r.columns == t.columns
    ensures forall k :: 0 <= k < |r.rows| ==> InRange(r.rows[k], lo, hi)
  {
    Table(t.columns, FilterRows(t.rows, lo, hi))
  }

  /** The filter keeps the rows in their order, and keeps every row in the
      range as often as it occurs while dropping every other. */
  lemma {:induction false} FilterRowsExact(rows: seq<Row>, lo: Number, hi: Number)
    ensures IsSubsequence(FilterRows(rows, lo, hi), rows)
    ensures forall r :: multiset(FilterRows(rows, lo, hi))[r] == if InRange(r, lo, hi) then multiset(rows)[r] else 0
  {
    if rows != [] {
      var rest := FilterRows(rows[1..], lo, hi);
      FilterRowsExact(rows[1..], lo, hi);
      assert rows == [rows[0]] + rows[1..];
      if InRange(rows[0], lo, hi) {
        assert ([rows[0]] + rest)[1..] == rest;
      }
    }
  }

  /** Every row of the table that lies in the range is kept. */
  lemma FilterYearsComplete(t: Table, lo: Number, hi: Number, i: int)
    requires 0 <= i < |t.rows| && InRange(t.rows[i], lo, hi)
    ensures t.rows[i] in FilterYears(t, lo, hi).rows
  {
    FilterRowsExact(t.rows, lo, hi);
    assert t.rows[i] in multiset(t.rows);
  }

  /** The filtered table is still a table of the same columns. */
  lemma FilterYearsWellFormed(t: Table, lo: Number, hi: Number)
    requires WellFormed(t)
    ensures WellFormed(FilterYears(t, lo, hi))
  {
    var f := FilterYears(t, lo, hi);
    FilterRowsExact(t.rows, lo, hi);
    forall k | 0 <= k < |f.rows| ensures f.rows[k].Keys == ColumnSet(t.columns) {
      assert f.rows[k] in multiset(f.rows);
      assert f.rows[k] in multiset(t.rows);
    }
  }

  /** At the slider defaults the filter drops only the rows without a year. */
  lemma FilterAtDefaults(t: Table)
    requires SliderDefaults(Years(t)).Some?
    ensures forall i :: 0 <= i < |t.rows| ==>
      (InRange(t.rows[i], SliderDefaults(Years(t)).value.0, SliderDefaults(Years(t)).value.1) <==> YearOf(t.rows[i]).Some?)
  {
    SliderDefaultsAreExtremes(t);
  }

  /** A range whose start lies above its end keeps no row. */
  lemma FilterEmptyRange(t: Table, lo: Number, hi: Number)
    requires Less(hi, lo)
    ensures FilterYears(t, lo, hi).rows == []
  {
    var f := FilterYears(t, lo, hi);
    if f.rows != [] {
      var y := YearOf(f.rows[0]).value;
      LessLessEqTransitive(y, hi, lo);
      LessEqOfLess(y, lo);
    }
  }

  // ---- The projection: df_filtrado[["mes_ano", "ano"] + sel] ----

  /** The columns the table view shows. */
  function ShownColumns(sel: seq<string>): seq<string> {
    [Period, Year] + sel
  }

  /** Selects the columns `cols`; None where pandas raises KeyError because
      one of them is not in the table. */
  function Project(t: Table, cols: seq<string>): (r: Option<Table>)
    requires WellFormed(t)
    ensures r.Some? <==> forall c :: c in cols ==> c in t.columns
    ensures r.Some? ==> r.value.columns == cols && |r.value.rows| == |t.rows|
    ensures r.Some? ==> forall i :: 0 <= i < |t.rows| ==> r.value.rows[i].Keys == ColumnSet(cols)
    ensures r.Some? ==> forall i, c :: 0 <= i < |t.rows| && c in cols ==>
      c in r.value.rows[i] && c in t.rows[i] && r.value.rows[i][c] == t.rows[i][c]
  {
    if forall c :: c in cols ==> c in t.columns then
      Some(Table(cols, seq(|t.rows|, i requires 0 <= i < |t.rows| => map c | c in ColumnSet(cols) :: t.rows[i][c])))
    else
      None
  }

  /** The shown table is a table again when the selection names distinct
      metric columns. */
  lemma ProjectWellFormed(t: Table, sel: seq<string>)
    requires WellFormed(t) && Project(t, ShownColumns(sel)).Some?
    requires Distinct(sel) && Period !in sel && Year !in sel
    ensures WellFormed(Project(t, ShownColumns(sel)).value)
  {
    var cols := ShownColumns(sel);
    assert Period != Year;
    forall i, j | 0 <= i < j < |cols| ensures cols[i] != cols[j] {
      if j >= 2 {
        assert cols[j] == sel[j - 2];
        if i >= 2 {
          assert cols[i] == sel[i - 2];
        }
      }
    }
  }

  // ---- The chart-or-warning decision (lines 106-121) ----

  datatype Outcome = Chart | Warning

  /** `df_filtrado[c].notna().any()`. */
  predicate ColumnHasData(rows: seq<Row>, c: string) {
    rows != [] && (Present(rows[0], c) || ColumnHasData(rows[1..], c))
  }

  /** `any(df_filtrado[c].notna().any() for c in sel)`, evaluated lazily from
      the first selected column: None where a column reached before a
      column with data is not in the table, as pandas raises KeyError. */
  function AnySelectedHasData(t: Table, sel: seq<string>): Option<bool> {
    if sel == [] then Some(false)
    else if sel[0] !in t.columns then None
    else if ColumnHasData(t.rows, sel[0]) then Some(true)
    else AnySelectedHasData(t, sel[1..])
  }

  /** `DataFrame.empty`: no rows or no columns. */
  predicate IsEmpty(t: Table) {
    |t.rows| == 0 || |t.columns| == 0
  }

  /** The guard of line 106; None where evaluating it raises KeyError. */
  function Decide(filtered: Table, sel: seq<string>): Option<Outcome> {
    if IsEmpty(filtered) then Some(Warning)
    else
      match AnySelectedHasData(filtered, sel)
      case None => None
      case Some(b) => Some(if b then Chart else Warning)
  }

  lemma {:induction false} ColumnHasDataExists(rows: seq<Row>, c: string)
    ensures ColumnHasData(rows, c) <==> exists i :: 0 <= i < |rows| && Present(rows[i], c)
  {
    if rows != [] {
      var tail := rows[1..];
      ColumnHasDataExists(tail, c);
      if exists i :: 0 <= i < |tail| && Present(tail[i], c) {
        var i :| 0 <= i < |tail| && Present(tail[i], c);
        assert tail[i] == rows[i + 1];
      }
      if exists i :: 0 <= i < |rows| && Present(rows[i], c) {
        var i :| 0 <= i < |rows| && Present(rows[i], c);
        if i > 0 {
          assert tail[i - 1] == rows[i];
        }
      }
    }
  }

  lemma {:induction false} AnySelectedExact(t: Table, sel: seq<string>)
    requires forall c :: c in sel ==> c in t.columns
    ensures AnySelectedHasData(t, sel) == Some(exists c :: c in sel && ColumnHasData(t.rows, c))
  {
    if sel != [] {
      var tail := sel[1..];
      assert sel == [sel[0]] + tail;
      AnySelectedExact(t, tail);
      assert (exists c :: c in sel && ColumnHasData(t.rows, c)) <==>
        ColumnHasData(t.rows, sel[0]) || exists c :: c in tail && ColumnHasData(t.rows, c);
    }
  }

  /** With every selected column in the table, the guard never raises, and
      it draws the chart exactly when the filtered table is not empty and
      some selected column has a value in some row; otherwise, in
      particular for an empty selection, it warns. */
  lemma DecideChart(t: Table, sel: seq<string>)
    requires forall c :: c in sel ==> c in t.columns
    ensures Decide(t, sel).Some?
    ensures Decide(t, sel) == Some(Chart) <==>
      !IsEmpty(t) && exists i, c :: 0 <= i < |t.rows| && c in sel && Present(t.rows[i], c)
    ensures sel == [] ==> Decide(t, sel) == Some(Warning)
  {
    AnySelectedExact(t, sel);
    forall c | c in sel {
      ColumnHasDataExists(t.rows, c);
    }
  }

  /** A selection made from the metric options never makes the table view
      or the guard raise, on a table that has mes_ano and ano; and the
      number of rows shown depends only on the year range, not on the
      selection. */
  lemma SelectionFromOptions(t: Table, lo: Number, hi: Number, sel: seq<string>)
    requires WellFormed(t) && Period in t.columns && Year in t.columns
    requires forall c :: c in sel ==> c in MetricColumns(t.columns)
    ensures WellFormed(FilterYears(t, lo, hi))
    ensures Project(FilterYears(t, lo, hi), ShownColumns(sel)).Some?
    ensures |Project(FilterYears(t, lo, hi), ShownColumns(sel)).value.rows| == |FilterYears(t, lo, hi).rows|
    ensures Decide(FilterYears(t, lo, hi), sel).Some?
  {
    var f := FilterYears(t, lo, hi);
    FilterYearsWellFormed(t, lo, hi);
    DecideChart(f, sel);
  }
}
