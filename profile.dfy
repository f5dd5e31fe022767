/** The profiling helpers of the EDA agent: whether to recommend EDA, missing counts,
    duplicates, the per-column summary and the IQR outlier counts. */
module EdaProfile {
  import opened Frame
  import opened Stats

  // ---------------------------------------------------------------------------------------
  // Missing cells

  /** `df.isnull().sum().sum()`: missing cells over the whole table. */
  function TotalMissing(rows: seq<Row>): nat {
    if rows == [] then 0 else CountMissing(rows[0]) + TotalMissing(rows[1..])
  }

  predicate HasMissingCell(rows: seq<Row>) {
    exists i, j | 0 <= i < |rows| && 0 <= j < |rows[i]| :: rows[i][j].Missing?
  }

  lemma CountMissingPositive(cells: seq<Cell>)
    ensures CountMissing(cells) > 0 <==> exists j | 0 <= j < |cells| :: cells[j].Missing?
  {
    NoMissingCount(cells);
  }

  lemma {:induction false} TotalMissingPositive(rows: seq<Row>)
    ensures TotalMissing(rows) > 0 <==> HasMissingCell(rows)
  {
    if rows != [] {
      TotalMissingPositive(rows[1..]);
      CountMissingPositive(rows[0]);
      if HasMissingCell(rows[1..]) {
        var i, j :| 0 <= i < |rows[1..]| && 0 <= j < |rows[1..][i]| && rows[1..][i][j].Missing?;
        assert rows[i + 1][j].Missing?;
      }
      if HasMissingCell(rows) {
        var i, j :| 0 <= i < |rows| && 0 <= j < |rows[i]| && rows[i][j].Missing?;
        if i > 0 {
          assert rows[1..][i - 1][j].Missing?;
        }
      }
    }
  }

  /** Per column, its count of missing cells when it has any. */
  function MissingCounts(t: Table): (vals: seq<Option<nat>>)
    requires WellFormed(t)
    ensures |vals| == |t.names|
    ensures forall j | 0 <= j < |t.names| ::
      vals[j] == if CountMissing(Column(t.rows, j)) > 0 then Some(CountMissing(Column(t.rows, j))) else None
  {
    seq(|t.names|, j requires 0 <= j < |t.names| =>
      if CountMissing(Column(t.rows, j)) > 0 then Some(CountMissing(Column(t.rows, j))) else None)
  }

  /** `get_missing_columns`: each column with a missing cell, mapped to its count of them. */
  function GetMissingColumns(t: Table): (m: map<string, nat>)
    requires WellFormed(t)
    ensures forall k | k in m :: k in t.names
    ensures forall j | 0 <= j < |t.names| ::
      (t.names[j] in m <==> exists i | 0 <= i < |t.rows| :: t.rows[i][j].Missing?)
    ensures forall j | 0 <= j < |t.names| && t.names[j] in m ::
      m[t.names[j]] == CountMissing(Column(t.rows, j)) && m[t.names[j]] > 0
  {
    ColumnsMissingPositive(t);
    Keyed(t.names, MissingCounts(t))
  }

  /** A column's missing count is positive exactly when one of its cells is missing. */
  lemma ColumnsMissingPositive(t: Table)
    requires WellFormed(t)
    ensures forall j | 0 <= j < |t.names| ::
      (CountMissing(Column(t.rows, j)) > 0 <==> exists i | 0 <= i < |t.rows| :: t.rows[i][j].Missing?)
  {
    forall j | 0 <= j < |t.names| {
      CountMissingPositive(Column(t.rows, j));
    }
  }

  // ---------------------------------------------------------------------------------------
  // Duplicates

  predicate AllDistinct(rows: seq<Row>) {
    forall i, j | 0 <= i < j < |rows| :: rows[i] != rows[j]
  }

  /** `df.duplicated().sum()`: rows equal to some earlier row (missing cells compare equal). */
  function DuplicateCount(rows: seq<Row>): (n: nat)
    ensures n <= |rows|
    ensures n == 0 <==> AllDistinct(rows)
  {
    if rows == [] then 0
    else
      var init := rows[..|rows| - 1];
      var last := rows[|rows| - 1];
      assert AllDistinct(rows) <==> AllDistinct(init) && last !in init by {
        if AllDistinct(init) && last !in init {
          forall i, j | 0 <= i < j < |rows| ensures rows[i] != rows[j] {
            if j == |rows| - 1 {
              assert rows[i] == init[i];
            } else {
              assert rows[i] == init[i] && rows[j] == init[j];
            }
          }
        }
        if AllDistinct(rows) {
          forall i, j | 0 <= i < j < |init| ensures init[i] != init[j] {
            assert init[i] == rows[i] && init[j] == rows[j];
          }
          forall i | 0 <= i < |init| ensures init[i] != last {
            assert init[i] == rows[i];
          }
        }
      }
      DuplicateCount(init) + (if last in init then 1 else 0)
  }

  /** The duplicates are the rows beyond the distinct ones. */
  lemma {:induction false} DuplicateCountDistinct(rows: seq<Row>)
    ensures DuplicateCount(rows) == |rows| - |Elements(rows)|
  {
    if rows != [] {
      var init := rows[..|rows| - 1];
      var last := rows[|rows| - 1];
      DuplicateCountDistinct(init);
      assert rows == init + [last];
      assert Elements(rows) == Elements(init) + {last};
      ElementsBound(init);
      assert DuplicateCount(rows) == DuplicateCount(init) + (if last in init then 1 else 0);
      if last in init {
        assert Elements(rows) == Elements(init);
      } else {
        assert last !in Elements(init);
        assert |Elements(rows)| == |Elements(init)| + 1;
      }
    }
  }

  // ---------------------------------------------------------------------------------------
  // needs_eda

  /** Why EDA is recommended; `Message` gives the text the agent returns. */
  datatype Reason = MissingValues | ManyColumns(count: nat) | Categorical | ManyDuplicates | LooksClean

  function DigitChar(d: nat): char
    requires d < 10
  {
    "0123456789"[d]
  }

  predicate AllDigits(d: string) {
    forall i | 0 <= i < |d| :: '0' <= d[i] <= '9'
  }

  /** The number a string of decimal digits reads as. */
  function DecimalValue(d: string): nat
    requires AllDigits(d)
  {
    if d == [] then 0 else DecimalValue(d[..|d| - 1]) * 10 + (d[|d| - 1] as int - '0' as int)
  }

  /** Python's `str(n)` for a natural number: decimal digits that read back as `n`. */
  function Decimal(n: nat): (d: string)
    decreases n
    ensures |d| > 0 && AllDigits(d)
    ensures DecimalValue(d) == n
    ensures d[0] != '0' || n == 0
  {
    if n < 10 then [DigitChar(n)]
    else
      var h := Decimal(n / 10);
      var d := h + [DigitChar(n % 10)];
      assert d[..|d| - 1] == h;
      d
  }

  /** The text `needs_eda` returns with each reason; the column-count text carries the count,
      which reads back from it. */
  function Message(r: Reason): (m: string)
    ensures r.ManyColumns? ==>
      && |m| > 37 && AllDigits(m[12..|m| - 25]) && DecimalValue(m[12..|m| - 25]) == r.count
      && (m[12] != '0' || r.count == 0)
  {
    match r
    case MissingValues => "Dataset has missing Values."
    case ManyColumns(n) =>
      var m := "Dataset has " + Decimal(n) + " columns. EDA recommended";
      assert m[12..|m| - 25] == Decimal(n);
      m
    case Categorical => "Dataset has categorical or textual data"
    case ManyDuplicates => "Dataset has a large number of duplicates"
    case LooksClean => "Datasets apperas clean. EDA optional"
  }

  predicate HasTextColumn(kinds: seq<Kind>) {
    exists j | 0 <= j < |kinds| :: kinds[j] == Textual
  }

  /** `needs_eda`: always recommends EDA; the reason is the first that applies among a missing
      cell, more than 20 columns, an object column and more than 100 duplicate rows. */
  function NeedsEda(t: Table): (r: (bool, Reason))
    ensures r.0
    ensures r.1 == MissingValues <==> HasMissingCell(t.rows)
    ensures r.1.ManyColumns? <==> !HasMissingCell(t.rows) && |t.names| > 20
    ensures r.1.ManyColumns? ==> r.1.count == |t.names|
    ensures r.1 == Categorical <==>
      !HasMissingCell(t.rows) && |t.names| <= 20 && HasTextColumn(t.kinds)
    ensures r.1 == ManyDuplicates <==>
      !HasMissingCell(t.rows) && |t.names| <= 20 && !HasTextColumn(t.kinds) && |t.rows| - |Elements(t.rows)| > 100
    ensures r.1 == LooksClean <==>
      !HasMissingCell(t.rows) && |t.names| <= 20 && !HasTextColumn(t.kinds) && |t.rows| - |Elements(t.rows)| <= 100
  {
    TotalMissingPositive(t.rows);
    DuplicateCountDistinct(t.rows);
    if TotalMissing(t.rows) > 0 then (true, MissingValues)
    else if |t.names| > 20 then (true, ManyColumns(|t.names|))
    else if HasTextColumn(t.kinds) then (true, Categorical)
    else if DuplicateCount(t.rows) > 100 then (true, ManyDuplicates)
    else (true, LooksClean)
  }

  /** The missing-column map is empty exactly when no cell is missing. */
  lemma MissingColumnsNonEmpty(t: Table)
    requires WellFormed(t)
    ensures GetMissingColumns(t) != map[] <==> HasMissingCell(t.rows)
  {
    if HasMissingCell(t.rows) {
      MissingCellReported(t);
    }
    if GetMissingColumns(t) != map[] {
      ReportedColumnMissing(t);
    }
  }

  lemma MissingCellReported(t: Table)
    requires WellFormed(t) && HasMissingCell(t.rows)
    ensures GetMissingColumns(t) != map[]
  {
    var i, j :| 0 <= i < |t.rows| && 0 <= j < |t.rows[i]| && t.rows[i][j].Missing?;
    assert t.names[j] in GetMissingColumns(t);
  }

  lemma ReportedColumnMissing(t: Table)
    requires WellFormed(t) && GetMissingColumns(t) != map[]
    ensures HasMissingCell(t.rows)
  {
    var m := GetMissingColumns(t);
    var k :| k in m;
    assert k in t.names;
    var j :| 0 <= j < |t.names| && t.names[j] == k;
    assert t.names[j] in m;
    var i :| 0 <= i < |t.rows| && t.rows[i][j].Missing?;
  }

  /** The first reason and the missing-column map agree: the reason is "missing values"
      exactly when some column is reported as having missing cells. */
  lemma MissingReasonAgrees(t: Table)
    requires WellFormed(t)
    ensures NeedsEda(t).1 == MissingValues <==> GetMissingColumns(t) != map[]
  {
    MissingColumnsNonEmpty(t);
  }

  // ---------------------------------------------------------------------------------------
  // get_data_summary

  /** One entry of the summary, without the entropy score. */
  datatype ColumnSummary = ColumnSummary(
    column: string,
    dtype: Kind,
    uniqueCount: nat,
    mode: Option<Cell>,
    cardinality: Option<real>,
    dominance: Option<real>)

  /** `c / n` lies in (0, 1] when `0 < c <= n`. */
  lemma RatioInUnit(c: real, n: real)
    requires 0.0 < c <= n
    ensures 0.0 < c / n <= 1.0
  {
    RatioMonotone(c, n, n);
    assert n / n == 1.0;
  }

  lemma RatioMonotone(a: real, b: real, n: real)
    requires 0.0 <= a <= b && 0.0 < n
    ensures a / n <= b / n
  {
    assert b / n - a / n == (b - a) / n;
  }

  /** Share of `c` out of `n`, as a percentage. */
  function Percent(c: nat, n: nat): (p: real)
    requires 0 < n
    ensures 0 < c <= n ==> 0.0 < p <= 100.0
  {
    assert 0 < c <= n ==> 0.0 < c as real / n as real <= 1.0 by {
      if 0 < c <= n {
        RatioInUnit(c as real, n as real);
      }
    }
    100.0 * (c as real / n as real)
  }

  lemma PercentMonotone(a: nat, b: nat, n: nat)
    requires a <= b && 0 < n
    ensures Percent(a, n) <= Percent(b, n)
  {
    RatioMonotone(a as real, b as real, n as real);
  }

  /** The cardinality ratio: distinct values over the row count (line 52). */
  function Cardinality(unique: nat, rows: nat): (r: real)
    requires 0 < unique <= rows
    ensures 0.0 < r <= 1.0
    ensures r == unique as real / rows as real
  {
    RatioInUnit(unique as real, rows as real);
    unique as real / rows as real
  }

  /** The dominance ratio: the share of the commonest value, as a percentage (lines 50, 53). */
  function Dominance(p: seq<Cell>, m: Cell): (d: real)
    requires IsModeOf(p, m)
    ensures 0.0 < d <= 100.0
    ensures forall w | w in p :: Percent(Count(p, w), |p|) <= d
    ensures exists w | w in p :: Percent(Count(p, w), |p|) == d
  {
    assert forall w | w in p :: Percent(Count(p, w), |p|) <= Percent(Count(p, m), |p|) by {
      forall w | w in p ensures Percent(Count(p, w), |p|) <= Percent(Count(p, m), |p|) {
        PercentMonotone(Count(p, w), Count(p, m), |p|);
      }
    }
    Percent(Count(p, m), |p|)
  }

  /** The entry for a column named `name` of dtype `kind` whose values are `p`, in a table of
      `rows` rows: its distinct and modal values, the distinct values relative to all rows, and
      the share of the commonest value. */
  function Summarize(name: string, kind: Kind, p: seq<Cell>, rows: nat): (s: ColumnSummary)
    requires p != [] && |p| <= rows
    ensures s.column == name && s.dtype == kind
    ensures s.uniqueCount == |Elements(p)|
    ensures s.mode.Some? && IsModeOf(p, s.mode.value)
    ensures s.cardinality.Some? && 0.0 < s.cardinality.value <= 1.0
    ensures s.cardinality.value == s.uniqueCount as real / rows as real
    ensures s.dominance.Some? && 0.0 < s.dominance.value <= 100.0
    ensures forall w | w in p :: Percent(Count(p, w), |p|) <= s.dominance.value
    ensures exists w | w in p :: Percent(Count(p, w), |p|) == s.dominance.value
  {
    var unique := |Elements(p)|;
    ElementsBound(p);
    assert p[0] in Elements(p);
    var m := Mode(p).value;
    ColumnSummary(name, kind, unique, Some(m), Some(Cardinality(unique, rows)), Some(Dominance(p, m)))
  }

  /** The summary entry of column `j` (lines 41-64). */
  function ColumnEntry(t: Table, j: nat): ColumnSummary
    requires WellFormed(t) && j < |t.names| && |Present(Column(t.rows, j))| > 0
  {
    var p := Present(Column(t.rows, j));
    Summarize(t.names[j], t.kinds[j], p, |t.rows|)
  }

  /** Lines 41-64 for column `j`: nothing when it has no value (`total_count == 0`), otherwise
      its entry. */
  function EntryOf(t: Table): int -> Option<ColumnSummary>
    requires WellFormed(t)
  {
    j => if 0 <= j < |t.names| && |Present(Column(t.rows, j))| > 0 then Some(ColumnEntry(t, j)) else None
  }

  /** Per column, its entry when it has at least one value. */
  function Entries(t: Table): (es: seq<Option<ColumnSummary>>)
    requires WellFormed(t)
    ensures |es| == |t.names|
    ensures forall j | 0 <= j < |t.names| ::
      es[j] == if |Present(Column(t.rows, j))| > 0 then Some(ColumnEntry(t, j)) else None
  {
    seq(|t.names|, EntryOf(t))
  }

  /** The columns `get_data_summary` reports. */
  function Emitted(t: Table): (cols: seq<nat>)
    requires WellFormed(t)
    ensures forall k | 0 <= k < |cols| :: cols[k] < |t.names| && Present(Column(t.rows, cols[k])) != []
  {
    Positions(Entries(t), |t.names|)
  }

  /** Lines 39-46: a column is reported exactly when it has a value, once, in column order. */
  lemma EmittedExact(t: Table, c: nat)
    requires WellFormed(t)
    ensures c in Emitted(t) <==> c < |t.names| && Present(Column(t.rows, c)) != []
    ensures forall k, l | 0 <= k < l < |Emitted(t)| :: Emitted(t)[k] < Emitted(t)[l]
  {
    PositionsExact(Entries(t), |t.names|, c);
  }

  /** The list `get_data_summary` returns. */
  function Summaries(t: Table): seq<ColumnSummary>
    requires WellFormed(t)
  {
    ValuesBelow(Entries(t), |t.names|)
  }

  /** `get_data_summary`. */
  method GetDataSummary(t: Table) returns (summary: seq<ColumnSummary>)
    requires WellFormed(t)
    ensures summary == Summaries(t)
  {
    summary := CollectValues(|t.names|, EntryOf(t));
  }

  /** One entry per reported column, in column order. */
  lemma SummariesExact(t: Table)
    requires WellFormed(t)
    ensures |Summaries(t)| == |Emitted(t)|
    ensures forall k | 0 <= k < |Summaries(t)| :: Summaries(t)[k] == ColumnEntry(t, Emitted(t)[k])
  {
    ValuesBelowAt(Entries(t), |t.names|);
  }

  // ---------------------------------------------------------------------------------------
  // detect_outliers

  /** Values strictly below `lo` or strictly above `hi`. */
  function Outside(xs: seq<real>, lo: real, hi: real): (n: nat)
    ensures n <= |xs|
  {
    if xs == [] then 0 else (if xs[0] < lo || xs[0] > hi then 1 else 0) + Outside(xs[1..], lo, hi)
  }

  /** Widening the bounds can only lower the count. */
  lemma {:induction false} OutsideMonotone(xs: seq<real>, lo: real, hi: real, lo': real, hi': real)
    requires lo <= lo' && hi' <= hi
    ensures Outside(xs, lo, hi) <= Outside(xs, lo', hi')
  {
    if xs != [] {
      OutsideMonotone(xs[1..], lo, hi, lo', hi');
    }
  }

  /** The fences of lines 71-75: 1.5 inter-quartile ranges below Q1 and above Q3. */
  function LowerFence(q1: real, q3: real): real {
    q1 - 1.5 * (q3 - q1)
  }

  function UpperFence(q1: real, q3: real): real {
    q3 + 1.5 * (q3 - q1)
  }

  /** Lines 71-76 for one column's values: the values beyond the fences. A column without
      values has NaN quartiles, so no comparison holds and nothing is counted. */
  function OutlierCount(xs: seq<real>): (n: nat)
    ensures n <= |xs|
  {
    if xs == [] then 0
    else
      var q1 := Quantile(xs, 0.25);
      var q3 := Quantile(xs, 0.75);
      Outside(xs, LowerFence(q1, q3), UpperFence(q1, q3))
  }

  /** Every outlier lies outside the quartiles, so there are no more outliers than values
      outside them. */
  lemma OutliersBeyondQuartiles(xs: seq<real>)
    requires xs != []
    ensures var q1 := Quantile(xs, 0.25); var q3 := Quantile(xs, 0.75);
      forall i | 0 <= i < |xs| && (xs[i] < LowerFence(q1, q3) || xs[i] > UpperFence(q1, q3)) ::
        xs[i] < q1 || xs[i] > q3
    ensures OutlierCount(xs) <= Outside(xs, Quantile(xs, 0.25), Quantile(xs, 0.75))
  {
    var q1 := Quantile(xs, 0.25);
    var q3 := Quantile(xs, 0.75);
    QuartilesOrdered(xs);
    assert OutlierCount(xs) == Outside(xs, LowerFence(q1, q3), UpperFence(q1, q3));
    OutsideMonotone(xs, LowerFence(q1, q3), UpperFence(q1, q3), q1, q3);
  }

  /** For 1, 2, 3, 4, 5, 100 the quartiles are 2.25 and 4.75, the fences -1.5 and 8.5, and only
      100 lies beyond them. */
  lemma OutlierExample()
    ensures OutlierCount([1.0, 2.0, 3.0, 4.0, 5.0, 100.0]) == 1
  {
    var xs := [1.0, 2.0, 3.0, 4.0, 5.0, 100.0];
    ExampleQuartiles(xs);
    assert LowerFence(2.25, 4.75) == -1.5 && UpperFence(2.25, 4.75) == 8.5;
    ExampleOutside(xs);
  }

  lemma ExampleQuartiles(xs: seq<real>)
    requires xs == [1.0, 2.0, 3.0, 4.0, 5.0, 100.0]
    ensures Quantile(xs, 0.25) == 2.25 && Quantile(xs, 0.75) == 4.75
  {
    ExampleLowerQuartile(xs);
    ExampleUpperQuartile(xs);
  }

  lemma ExampleLowerQuartile(xs: seq<real>)
    requires xs == [1.0, 2.0, 3.0, 4.0, 5.0, 100.0]
    ensures Quantile(xs, 0.25) == 2.25
  {
    ExampleSorted(xs);
    assert Quantile(xs, 0.25) == Interpolate(xs, 1.0 + 0.25);
    InterpolateFraction(xs, 1, 0.25);
  }

  lemma ExampleUpperQuartile(xs: seq<real>)
    requires xs == [1.0, 2.0, 3.0, 4.0, 5.0, 100.0]
    ensures Quantile(xs, 0.75) == 4.75
  {
    ExampleSorted(xs);
    assert Quantile(xs, 0.75) == Interpolate(xs, 3.0 + 0.75);
    InterpolateFraction(xs, 3, 0.75);
  }

  lemma ExampleSorted(xs: seq<real>)
    requires xs == [1.0, 2.0, 3.0, 4.0, 5.0, 100.0]
    ensures SortReals(xs) == xs
  {
    assert SortedReals(xs);
    SortOfSorted(xs);
  }

  lemma ExampleOutside(xs: seq<real>)
    requires xs == [1.0, 2.0, 3.0, 4.0, 5.0, 100.0]
    ensures Outside(xs, -1.5, 8.5) == 1
  {
    assert Outside(xs[5..], -1.5, 8.5) == 1;
    assert Outside(xs[4..], -1.5, 8.5) == 1;
    assert Outside(xs[3..], -1.5, 8.5) == 1;
    assert Outside(xs[2..], -1.5, 8.5) == 1;
    assert Outside(xs[1..], -1.5, 8.5) == 1;
  }

  /** A column holding one repeated value has no outliers. */
  lemma ConstantNoOutliers(xs: seq<real>, c: real)
    requires forall i | 0 <= i < |xs| :: xs[i] == c
    ensures OutlierCount(xs) == 0
  {
    if xs != [] {
      var s := SortReals(xs);
      ConstantSorted(xs, c);
      var a := (|s| - 1) as real;
      ScaleWithin(a, 0.25);
      ScaleWithin(a, 0.75);
      ConstantQuantile(s, c, a * 0.25);
      ConstantQuantile(s, c, a * 0.75);
      assert Quantile(xs, 0.25) == c && Quantile(xs, 0.75) == c;
      assert LowerFence(c, c) == c && UpperFence(c, c) == c;
      OutsideConstant(xs, c);
    }
  }

  lemma ConstantSorted(xs: seq<real>, c: real)
    requires forall i | 0 <= i < |xs| :: xs[i] == c
    ensures forall i | 0 <= i < |SortReals(xs)| :: SortReals(xs)[i] == c
  {
    var s := SortReals(xs);
    forall i | 0 <= i < |s| ensures s[i] == c {
      assert s[i] in multiset(s);
      assert s[i] in multiset(xs);
    }
  }

  lemma ConstantQuantile(s: seq<real>, c: real, pos: real)
    requires forall i | 0 <= i < |s| :: s[i] == c
    requires 0.0 <= pos <= (|s| - 1) as real
    ensures Interpolate(s, pos) == c
  {
    FloorBounds(pos);
  }

  lemma {:induction false} OutsideConstant(xs: seq<real>, c: real)
    requires forall i | 0 <= i < |xs| :: xs[i] == c
    ensures Outside(xs, c, c) == 0
  {
    if xs != [] {
      OutsideConstant(xs[1..], c);
    }
  }

  /** Per column, `stat` of its values when it is numeric (`select_dtypes(include=[np.number])`). */
  function NumericPlan(t: Table, stat: seq<real> -> nat): (vals: seq<Option<nat>>)
    requires WellFormed(t)
    ensures |vals| == |t.names|
    ensures forall j | 0 <= j < |t.names| ::
      vals[j] == if t.kinds[j] == Numeric then Some(stat(Numbers(Column(t.rows, j)))) else None
  {
    seq(|t.names|, j requires 0 <= j < |t.names| =>
      if t.kinds[j] == Numeric then Some(stat(Numbers(Column(t.rows, j)))) else None)
  }

  /** The loop of `detect_outliers`, for any per-column statistic. */
  method NumericColumns(t: Table, stat: seq<real> -> nat) returns (counts: map<string, nat>)
    requires WellFormed(t)
    ensures counts == KeyedBelow(t.names, NumericPlan(t, stat), |t.names|)
  {
    ghost var vals := NumericPlan(t, stat);
    counts := map[];
    var j := 0;
    while j < |t.names|
      invariant 0 <= j <= |t.names|
      invariant counts == KeyedBelow(t.names, vals, j)
    {
      if t.kinds[j] == Numeric {
        counts := counts[t.names[j] := stat(Numbers(Column(t.rows, j)))];
      }
      j := j + 1;
    }
  }

  /** The counts `detect_outliers` reports. */
  function Outliers(t: Table): map<string, nat>
    requires WellFormed(t)
  {
    KeyedBelow(t.names, NumericPlan(t, OutlierCount), |t.names|)
  }

  /** `detect_outliers`. */
  method DetectOutliers(t: Table) returns (counts: map<string, nat>)
    requires WellFormed(t)
    ensures counts == Outliers(t)
  {
    counts := NumericColumns(t, OutlierCount);
  }

  /** One key per numeric column, holding the count of that column's values beyond the fences. */
  lemma OutliersExact(t: Table)
    requires WellFormed(t)
    ensures var counts := Outliers(t);
      && (forall k | k in counts :: k in t.names)
      && (forall j | 0 <= j < |t.names| :: t.names[j] in counts <==> t.kinds[j] == Numeric)
      && (forall j | 0 <= j < |t.names| && t.kinds[j] == Numeric ::
            counts[t.names[j]] == OutlierCount(Numbers(Column(t.rows, j))))
  {
    assert Outliers(t) == Keyed(t.names, NumericPlan(t, OutlierCount));
  }
}
