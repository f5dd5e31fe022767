/** The chart list of `perform_eda`: which plots are drawn and the order of their web paths. The
    plotting and the files themselves are not modelled; only the decisions and the list are. */
module Charts {
  import opened Frame

  /** One drawn chart and the column it is about. */
  datatype Chart = Heatmap | Histogram(column: string) | Pie(column: string) | Bar(column: string)

  /** The web path each chart is reported under (lines 95, 128, 140): a pie and a bar chart
      of the same column share the `_cat.png` file. */
  function WebPath(c: Chart): (path: string)
    ensures c.Histogram? ==> path == "/static/charts/" + c.column + "_hist.png"
    ensures (c.Pie? || c.Bar?) ==> path == "/static/charts/" + c.column + "_cat.png"
  {
    match c
    case Heatmap => "/static/charts/correlation_heatmap.png"
    case Histogram(col) => "/static/charts/" + col + "_hist.png"
    case Pie(col) => "/static/charts/" + col + "_cat.png"
    case Bar(col) => "/static/charts/" + col + "_cat.png"
  }

  /** The list `perform_eda` returns, or the `ZeroDivisionError` it raises at a column. */
  datatype Outcome = Charts(charts: seq<Chart>) | ZeroDivision(column: string)

  /** What the categorical loop does for one object column. */
  datatype Decision = Skip | Draw(chart: Chart) | DivideByZero

  /** Lines 100-107 as written for the column `name` with `unique` distinct values among its
      `total` non-missing ones: more than 20 distinct values skips it before the division is
      reached; otherwise the distinct values are divided by the value count, which is zero for
      a column without values. */
  function CategoryDecision(name: string, unique: nat, total: nat): (d: Decision)
    requires unique <= total
    ensures d == DivideByZero <==> total == 0
    ensures d.Draw? ==> d.chart == Pie(name) || d.chart == Bar(name)
  {
    if unique > 20 then Skip
    else if total == 0 then DivideByZero
    else if unique as real / total as real > 0.9 then Skip
    else if unique < 10 then Draw(Pie(name))
    else Draw(Bar(name))
  }

  /** The evident intent: a column without values is skipped, the rest as written. */
  function CategoryChart(name: string, unique: nat, total: nat): (c: Option<Chart>)
    requires unique <= total
    ensures c.Some? ==> c.value == Pie(name) || c.value == Bar(name)
  {
    match CategoryDecision(name, unique, total)
    case Draw(chart) => Some(chart)
    case _ => None
  }

  /** The categorical rule of lines 100-107 spelled out: skipped when there are more than 20
      distinct values or they exceed 90% of the values, else a pie below 10 distinct values and
      a bar otherwise. */
  lemma CategoryRule(name: string, unique: nat, total: nat)
    requires unique <= total && total > 0
    ensures var ratio := unique as real / total as real;
      && (CategoryChart(name, unique, total) == None <==> unique > 20 || ratio > 0.9)
      && (CategoryChart(name, unique, total) == Some(Pie(name)) <==> unique < 10 && ratio <= 0.9)
      && (CategoryChart(name, unique, total) == Some(Bar(name)) <==> 10 <= unique <= 20 && ratio <= 0.9)
  {
  }

  /** `nunique(dropna=True)` and `len(dropna())` of column `j`. */
  function Distinct(t: Table, j: nat): (n: nat)
    requires WellFormed(t) && j < |t.names|
    ensures n <= |Present(Column(t.rows, j))|
  {
    ElementsBound(Present(Column(t.rows, j)));
    |Elements(Present(Column(t.rows, j)))|
  }

  function Total(t: Table, j: nat): nat
    requires WellFormed(t) && j < |t.names|
  {
    |Present(Column(t.rows, j))|
  }

  /** The columns of `select_dtypes(include="number")` and of `include=['object', ...]`. */
  function HistogramPlan(t: Table): (plan: seq<Option<Chart>>)
    requires WellFormed(t)
    ensures |plan| == |t.names|
    ensures forall j | 0 <= j < |t.names| ::
      plan[j] == if t.kinds[j] == Numeric then Some(Histogram(t.names[j])) else None
  {
    seq(|t.names|, j requires 0 <= j < |t.names| =>
      if t.kinds[j] == Numeric then Some(Histogram(t.names[j])) else None)
  }

  function CategoryPlan(t: Table): (plan: seq<Option<Chart>>)
    requires WellFormed(t)
    ensures |plan| == |t.names|
    ensures forall j | 0 <= j < |t.names| ::
      plan[j] == if t.kinds[j] == Textual then CategoryChart(t.names[j], Distinct(t, j), Total(t, j)) else None
  {
    seq(|t.names|, j requires 0 <= j < |t.names| =>
      if t.kinds[j] == Textual then CategoryChart(t.names[j], Distinct(t, j), Total(t, j)) else None)
  }

  /** The chart list with the evident intent: the heatmap, then the histograms, then the
      categorical charts, each group in column order. */
  function IntendedCharts(t: Table): (charts: seq<Chart>)
    requires WellFormed(t)
    ensures |charts| >= 1 && charts[0] == Heatmap
    ensures |charts| <= 1 + |t.names|
  {
    DisjointValuesBelowLength(HistogramPlan(t), CategoryPlan(t), |t.names|);
    [Heatmap] + ValuesBelow(HistogramPlan(t), |t.names|) + ValuesBelow(CategoryPlan(t), |t.names|)
  }

  /** An object column without values: the one that makes line 102 divide by zero. */
  predicate EmptyText(t: Table, j: nat)
    requires WellFormed(t) && j < |t.names|
  {
    t.kinds[j] == Textual && Total(t, j) == 0
  }

  /** Lines 87-96: a histogram for each numeric column, in column order. */
  method HistogramCharts(t: Table) returns (charts: seq<Chart>)
    requires WellFormed(t)
    ensures charts == ValuesBelow(HistogramPlan(t), |t.names|)
  {
    ghost var plan := HistogramPlan(t);
    charts := [];
    var j := 0;
    while j < |t.names|
      invariant 0 <= j <= |t.names|
      invariant charts == ValuesBelow(plan, j)
    {
      if t.kinds[j] == Numeric {
        charts := charts + [Histogram(t.names[j])];
      }
      j := j + 1;
    }
  }

  /** Lines 99-129 as written: the categorical charts in column order, or `ZeroDivisionError`
      at the first object column without values. */
  method CategoricalCharts(t: Table) returns (out: Outcome)
    requires WellFormed(t)
    ensures out.ZeroDivision? <==> exists j | 0 <= j < |t.names| :: EmptyText(t, j)
    ensures out.ZeroDivision? ==> exists j | 0 <= j < |t.names| ::
      && out.column == t.names[j] && EmptyText(t, j)
      && forall c | 0 <= c < j :: !EmptyText(t, c)
    ensures out.Charts? ==> out.charts == ValuesBelow(CategoryPlan(t), |t.names|)
  {
    ghost var plan := CategoryPlan(t);
    var charts: seq<Chart> := [];
    var j := 0;
    while j < |t.names|
      invariant 0 <= j <= |t.names|
      invariant charts == ValuesBelow(plan, j)
      invariant forall c | 0 <= c < j :: !EmptyText(t, c)
    {
      if t.kinds[j] == Textual {
        var uniqueVals := Distinct(t, j);
        var totalCounts := Total(t, j);
        match CategoryDecision(t.names[j], uniqueVals, totalCounts)
        case DivideByZero =>
          assert EmptyText(t, j);
          return ZeroDivision(t.names[j]);
        case Skip =>
        case Draw(chart) =>
          charts := charts + [chart];
      }
      j := j + 1;
    }
    out := Charts(charts);
  }

  /** Lines 87-140 as written: the histograms, then the categorical charts, then the heatmap
      inserted at the front; an object column without values raises before the list is
      returned. */
  method PerformEdaCharts(t: Table) returns (out: Outcome)
    requires WellFormed(t)
    ensures out.ZeroDivision? <==> exists j | 0 <= j < |t.names| :: EmptyText(t, j)
    ensures out.ZeroDivision? ==> exists j | 0 <= j < |t.names| ::
      && out.column == t.names[j] && EmptyText(t, j)
      && forall c | 0 <= c < j :: !EmptyText(t, c)
    ensures out.Charts? ==> out.charts == IntendedCharts(t)
  {
    var charts := HistogramCharts(t);
    var categorical := CategoricalCharts(t);
    if categorical.ZeroDivision? {
      return categorical;
    }
    charts := charts + categorical.charts;
    charts := [Heatmap] + charts;
    out := Charts(charts);
  }

  // ---------------------------------------------------------------------------------------
  // Properties of the chart list

  /** The heatmap comes first and only there (line 140). */
  lemma HeatmapFirst(t: Table)
    requires WellFormed(t)
    ensures IntendedCharts(t)[0] == Heatmap
    ensures Heatmap !in IntendedCharts(t)[1..]
  {
    var hplan := HistogramPlan(t);
    var cplan := CategoryPlan(t);
    var rest := ValuesBelow(hplan, |t.names|) + ValuesBelow(cplan, |t.names|);
    assert IntendedCharts(t)[1..] == rest;
    ValuesBelowContains(hplan, |t.names|, Heatmap);
    ValuesBelowContains(cplan, |t.names|, Heatmap);
  }

  /** Lines 87-96: right after the heatmap, one histogram per numeric column, in column order. */
  lemma HistogramsExact(t: Table)
    requires WellFormed(t)
    ensures var plan := HistogramPlan(t);
      var hs := ValuesBelow(plan, |t.names|);
      && IntendedCharts(t)[1..1 + |hs|] == hs
      && |hs| == |Positions(plan, |t.names|)|
      && (forall k | 0 <= k < |hs| :: hs[k] == Histogram(t.names[Positions(plan, |t.names|)[k]]))
      && (forall c: nat :: c in Positions(plan, |t.names|) <==> c < |t.names| && t.kinds[c] == Numeric)
  {
    var plan := HistogramPlan(t);
    ValuesBelowAt(plan, |t.names|);
    forall c: nat ensures c in Positions(plan, |t.names|) <==> c < |t.names| && t.kinds[c] == Numeric {
      PositionsExact(plan, |t.names|, c);
    }
  }

  /** A column has a histogram exactly when it is numeric. */
  lemma HistogramIffNumeric(t: Table, j: nat)
    requires WellFormed(t) && j < |t.names|
    ensures Histogram(t.names[j]) in IntendedCharts(t) <==> t.kinds[j] == Numeric
  {
    var hplan := HistogramPlan(t);
    var cplan := CategoryPlan(t);
    var x := Histogram(t.names[j]);
    ValuesBelowContains(hplan, |t.names|, x);
    ValuesBelowContains(cplan, |t.names|, x);
    if t.kinds[j] == Numeric {
      assert hplan[j] == Some(x);
    }
    if exists c | 0 <= c < |t.names| :: hplan[c] == Some(x) {
      var c :| 0 <= c < |t.names| && hplan[c] == Some(x);
      assert t.names[c] == t.names[j];
    }
  }

  /** Lines 100-107 on the list: an object column with values gets a pie chart below 10
      distinct values and a bar chart from 10 to 20, unless its distinct values exceed 90% of
      its values; no other column gets either. */
  lemma CategoryChartsExact(t: Table, j: nat)
    requires WellFormed(t) && j < |t.names|
    ensures Pie(t.names[j]) in IntendedCharts(t) <==>
      && t.kinds[j] == Textual && Total(t, j) > 0 && Distinct(t, j) < 10
      && Distinct(t, j) as real / Total(t, j) as real <= 0.9
    ensures Bar(t.names[j]) in IntendedCharts(t) <==>
      && t.kinds[j] == Textual && Total(t, j) > 0 && 10 <= Distinct(t, j) <= 20
      && Distinct(t, j) as real / Total(t, j) as real <= 0.9
  {
    PlannedCategory(t, j, Pie(t.names[j]));
    PlannedCategory(t, j, Bar(t.names[j]));
    if Total(t, j) > 0 {
      CategoryRule(t.names[j], Distinct(t, j), Total(t, j));
    }
  }

  /** A pie or bar chart of column `j` is in the list exactly when column `j` plans it. */
  lemma PlannedCategory(t: Table, j: nat, x: Chart)
    requires WellFormed(t) && j < |t.names|
    requires x == Pie(t.names[j]) || x == Bar(t.names[j])
    ensures x in IntendedCharts(t) <==> CategoryPlan(t)[j] == Some(x)
  {
    var hplan := HistogramPlan(t);
    var cplan := CategoryPlan(t);
    var hs := ValuesBelow(hplan, |t.names|);
    var cs := ValuesBelow(cplan, |t.names|);
    assert IntendedCharts(t) == [Heatmap] + hs + cs;
    ValuesBelowContains(hplan, |t.names|, x);
    assert x !in hs;
    ValuesBelowContains(cplan, |t.names|, x);
    if x in cs {
      var c :| 0 <= c < |t.names| && cplan[c] == Some(x);
      SameColumn(t, c, j, x);
    }
  }

  lemma SameColumn(t: Table, c: nat, j: nat, x: Chart)
    requires WellFormed(t) && c < |t.names| && j < |t.names|
    requires x == Pie(t.names[j]) || x == Bar(t.names[j])
    requires CategoryPlan(t)[c] == Some(x)
    ensures c == j
  {
    assert CategoryChart(t.names[c], Distinct(t, c), Total(t, c)) == Some(x);
    assert t.names[c] == t.names[j];
  }

  /** A table whose only column is an object column and which has no rows (as `clean_data`
      leaves it when every row is dropped): the code as written divides 0 by 0 at line 102,
      while the intended list is just the heatmap. */
  lemma EmptyObjectColumnRaises()
    ensures var t := Table(["city"], [Textual], []);
      && WellFormed(t)
      && CategoryDecision("city", Distinct(t, 0), Total(t, 0)) == DivideByZero
      && (exists j | 0 <= j < |t.names| :: EmptyText(t, j))
      && IntendedCharts(t) == [Heatmap]
  {
    var t := Table(["city"], [Textual], []);
    assert Column(t.rows, 0) == [];
    assert EmptyText(t, 0);
    assert HistogramPlan(t) == [None];
    assert CategoryPlan(t) == [None];
    assert ValuesBelow(HistogramPlan(t), 1) == [];
    assert ValuesBelow(CategoryPlan(t), 1) == [];
  }
}
