/** Missing-value remediation (agents/data_cleaner.py): plan normalisation, the fill value of
    `_compute_fill_value`, and the drop / fill / residual-fill / reindex passes of `clean_data`
    with their audit log. */
module DataCleaner {
  import opened Frame
  import opened Strings
  import opened Stats

  const DefaultNumeric: real := 0.0
  const DefaultText: string := "Unknown"

  // ---------------------------------------------------------------------------------------
  // The cleaning plan

  /** `(method or "").strip().lower()` */
  function NormalizeMethod(m: Option<string>): (r: string)
    ensures m.None? ==> r == ""
    ensures r == [] || (!IsSpace(r[0]) && !IsSpace(r[|r| - 1]))
    ensures forall i | 0 <= i < |r| :: !IsUpper(r[i])
  {
    match m
    case None => ""
    case Some(s) => Lower(Strip(s))
  }

  /** `r` is the stretch of `s` starting at `a`, lower-cased, with only whitespace around it. */
  predicate LoweredStretchAt(s: string, r: string, a: int) {
    && 0 <= a && a + |r| <= |s|
    && (forall i | 0 <= i < a :: IsSpace(s[i]))
    && (forall i | a + |r| <= i < |s| :: IsSpace(s[i]))
    && (forall i | 0 <= i < |r| :: r[i] == LowerChar(s[a + i]))
  }

  /** What normalising means for a given method: the result is a stretch of the input with
      only whitespace around it, each character lower-cased. */
  lemma NormalizeIsLoweredStrip(s: string)
    ensures exists a :: LoweredStretchAt(s, NormalizeMethod(Some(s)), a)
  {
    var r := NormalizeMethod(Some(s));
    var a := |s| - |TrimStart(s)|;
    StripIsInnerSlice(s);
    var t := Strip(s);
    assert r == Lower(t) && |r| == |t|;
    forall i | 0 <= i < |r| ensures r[i] == LowerChar(s[a + i]) {
      assert t[i] == s[a..a + |t|][i];
    }
    assert LoweredStretchAt(s, r, a);
  }

  /** Normalising an already normalised method changes nothing. */
  lemma NormalizeIdempotent(m: Option<string>)
    ensures NormalizeMethod(Some(NormalizeMethod(m))) == NormalizeMethod(m)
  {
    var r := NormalizeMethod(m);
    StripOfTrimmed(r);
    assert Lower(r) == r;
  }

  /** Case and surrounding whitespace do not matter. */
  lemma NormalizeExample()
    ensures NormalizeMethod(Some(" MeAn\t")) == "mean"
    ensures NormalizeMethod(None) == ""
  {
    var s := " MeAn\t";
    var u := "MeAn\t";
    var v := "MeAn";
    assert s[1..] == u && IsSpace(s[0]) && !IsSpace(u[0]);
    assert TrimStart(u) == u;
    assert TrimStart(s) == u;
    assert u[..|u| - 1] == v && IsSpace(u[|u| - 1]) && !IsSpace(v[|v| - 1]);
    assert TrimEnd(v) == v;
    assert TrimEnd(u) == v;
    var l := Lower(v);
    assert l[0] == 'm' && l[1] == 'e' && l[2] == 'a' && l[3] == 'n';
    assert l == "mean";
  }

  /** `strip` removes every Unicode space, the no-break space included. */
  lemma NormalizeNoBreakSpace()
    ensures NormalizeMethod(Some("mean\U{A0}")) == "mean"
  {
    assert "mean\U{A0}" == "mean" + ['\U{A0}'];
    StripTrailingSpace("mean", '\U{A0}');
    assert Lower("mean") == "mean";
  }

  /** The plan after line 21: every method normalised, the same columns. */
  function NormalizePlan(plan: map<string, Option<string>>): (p: map<string, string>)
    ensures p.Keys == plan.Keys
    ensures forall c | c in plan :: p[c] == NormalizeMethod(plan[c])
  {
    map c | c in plan :: NormalizeMethod(plan[c])
  }

  // ---------------------------------------------------------------------------------------
  // `_compute_fill_value`

  predicate Recognised(strategy: string) {
    strategy == "mean" || strategy == "median" || strategy == "mode"
  }

  /** The branches that answer with the column's mode: "mode" always, and "mean" and
      "median" on a column that is not numeric. */
  predicate UsesMode(kind: Kind, strategy: string) {
    strategy == "mode" || (kind != Numeric && (strategy == "mean" || strategy == "median"))
  }

  /** `DEFAULT_NUMERIC_VALUE` for a numeric column, `DEFAULT_TEXT_VALUE` otherwise. */
  function Sentinel(kind: Kind): Cell {
    if kind == Numeric then Num(DefaultNumeric) else Text(DefaultText)
  }

  /** The value written into a single gap of column `col` (dtype `kind`) under `strategy`.
      `Missing` stands for the NaN that the mean or median of a numeric column without
      numbers evaluates to. */
  function FillValue(col: seq<Cell>, kind: Kind, strategy: string): (v: Cell)
    ensures v.Missing? <==> kind == Numeric && (strategy == "mean" || strategy == "median") && Numbers(col) == []
    ensures kind == Numeric && strategy == "mean" && Numbers(col) != [] ==>
      && v.Num? && v.x * |Numbers(col)| as real == Sum(Numbers(col))
      && forall lo, hi | AllWithin(Numbers(col), lo, hi) :: lo <= v.x <= hi
    ensures kind == Numeric && strategy == "median" && Numbers(col) != [] ==>
      v.Num? && v.x == Quantile(Numbers(col), 0.5) && IsMedianOf(Numbers(col), v.x)
    ensures UsesMode(kind, strategy) && Present(col) == [] ==> v == Text(DefaultText)
    ensures UsesMode(kind, strategy) && Present(col) != [] ==> IsModeOf(Present(col), v)
    ensures !Recognised(strategy) ==> v == Sentinel(kind)
  {
    if kind == Numeric && strategy == "mean" then
      var xs := Numbers(col);
      if xs == [] then Missing
      else Num(Mean(xs))
    else if kind == Numeric && strategy == "median" then
      var xs := Numbers(col);
      if xs == [] then Missing
      else Num(Median(xs))
    else if UsesMode(kind, strategy) then
      match Mode(Present(col))
      case Some(m) => m
      case None => Text(DefaultText)
    else
      Sentinel(kind)
  }

  /** An unrecognised method (including "drop" and the empty method) gives the sentinel. */
  lemma UnrecognisedFallback(col: seq<Cell>)
    ensures FillValue(col, Numeric, "bogus-method") == Num(0.0)
    ensures FillValue(col, Textual, "bogus-method") == Text("Unknown")
    ensures FillValue(col, Numeric, "drop") == Num(0.0)
    ensures FillValue(col, Textual, "") == Text("Unknown")
  {
  }

  /** pandas upcasts a float or datetime column to object when text is written into it. */
  function KindAfterWrite(k: Kind, v: Cell): (k': Kind)
    ensures v.Text? ==> k' == Textual
    ensures !v.Text? ==> k' == k
  {
    if v.Text? then Textual else k
  }

  // ---------------------------------------------------------------------------------------
  // The audit log

  /** One audit line: the drop summary of line 29, or a fill (line 41) or a no-plan note (line 43)
      for the row with original index `row`. */
  datatype Entry =
    | Dropped(count: nat)
    | Filled(row: nat, column: string, value: Cell, strategy: string)
    | NoPlan(row: nat, column: string)

  /** A row that keeps its original index label through the passes. */
  datatype Labeled = Labeled(index: nat, cells: Row)

  // ---------------------------------------------------------------------------------------
  // Pass 1: dropping rows with more than one gap

  function DroppedFrom(rows: seq<Row>, i: nat): (n: nat)
    requires i <= |rows|
    decreases |rows| - i
    ensures n <= |rows| - i
  {
    if i == |rows| then 0
    else (if CountMissing(rows[i]) > 1 then 1 else 0) + DroppedFrom(rows, i + 1)
  }

  /** Number of rows with more than one missing cell. */
  function DroppedCount(rows: seq<Row>): nat {
    DroppedFrom(rows, 0)
  }

  /** The rows from position `i` on that have at most one gap, each with its position as label. */
  function SurvivorsFrom(rows: seq<Row>, i: nat): (kept: seq<Labeled>)
    requires i <= |rows|
    decreases |rows| - i
    ensures |kept| == |rows| - i - DroppedFrom(rows, i)
    ensures forall k | 0 <= k < |kept| ::
      i <= kept[k].index < |rows| && kept[k].cells == rows[kept[k].index] && CountMissing(kept[k].cells) <= 1
    ensures forall k, l | 0 <= k < l < |kept| :: kept[k].index < kept[l].index
  {
    if i == |rows| then []
    else (if CountMissing(rows[i]) <= 1 then [Labeled(i, rows[i])] else []) + SurvivorsFrom(rows, i + 1)
  }

  /** `df_cleaned.loc[~multi_missing_mask]`, with the original index labels. */
  function Survivors(rows: seq<Row>): seq<Labeled> {
    SurvivorsFrom(rows, 0)
  }

  lemma {:induction false} SurvivorsFromComplete(rows: seq<Row>, i: nat, r: nat)
    requires i <= r < |rows| && CountMissing(rows[r]) <= 1
    ensures exists k | 0 <= k < |SurvivorsFrom(rows, i)| :: SurvivorsFrom(rows, i)[k].index == r
    decreases r - i
  {
    var kept := SurvivorsFrom(rows, i);
    var head := if CountMissing(rows[i]) <= 1 then [Labeled(i, rows[i])] else [];
    var rest := SurvivorsFrom(rows, i + 1);
    assert kept == head + rest;
    if r == i {
      assert kept[0] == Labeled(i, rows[i]);
    } else {
      SurvivorsFromComplete(rows, i + 1, r);
      var k :| 0 <= k < |rest| && rest[k].index == r;
      assert kept[|head| + k] == rest[k];
    }
  }

  /** The drop threshold: a row survives exactly when it has at most one missing cell; the
      survivors keep their relative order and their cells. */
  lemma DropThreshold(rows: seq<Row>, r: nat)
    requires r < |rows|
    ensures CountMissing(rows[r]) <= 1 <==>
      exists k | 0 <= k < |Survivors(rows)| :: Survivors(rows)[k].index == r
  {
    assert Survivors(rows) == SurvivorsFrom(rows, 0);
    if CountMissing(rows[r]) <= 1 {
      SurvivorsFromComplete(rows, 0, r);
    }
  }

  // ---------------------------------------------------------------------------------------
  // Pass 2: filling single gaps

  /** The column of the single gap of a row (`missing_cols[0]` when `len(missing_cols) == 1`). */
  function OnlyGap(cells: Row): (j: nat)
    requires CountMissing(cells) == 1
    ensures j < |cells| && cells[j].Missing?
    ensures forall c | 0 <= c < |cells| && c != j :: !cells[c].Missing?
  {
    if cells[0].Missing? then
      NoMissingCount(cells[1..]);
      assert forall c | 1 <= c < |cells| :: cells[c] == cells[1..][c - 1];
      0
    else
      var j := OnlyGap(cells[1..]);
      assert forall c | 1 <= c < |cells| :: cells[c] == cells[1..][c - 1];
      1 + j
  }

  /** The state of `clean_data` during the fill loop: the rows, the column dtypes, the log. */
  datatype FillState = FillState(rows: seq<Labeled>, kinds: seq<Kind>, log: seq<Entry>)

  predicate Shaped(s: FillState, width: nat) {
    |s.kinds| == width && forall k | 0 <= k < |s.rows| :: |s.rows[k].cells| == width
  }

  /** Only object columns hold text. */
  predicate Typed(s: FillState)
    requires Shaped(s, |s.kinds|)
  {
    forall k, j | 0 <= k < |s.rows| && 0 <= j < |s.kinds| :: s.rows[k].cells[j].Text? ==> s.kinds[j] == Textual
  }

  /** The current `df_cleaned[col]`. */
  function LabeledColumn(rows: seq<Labeled>, j: nat): (c: seq<Cell>)
    requires forall k | 0 <= k < |rows| :: j < |rows[k].cells|
    ensures |c| == |rows| && forall k | 0 <= k < |rows| :: c[k] == rows[k].cells[j]
  {
    seq(|rows|, k requires 0 <= k < |rows| => rows[k].cells[j])
  }

  /** One iteration of the loop at lines 33-43, on the row at position `i`. */
  function FillStep(names: seq<string>, plan: map<string, string>, s: FillState, i: nat): (s': FillState)
    requires Shaped(s, |names|) && i < |s.rows|
    ensures Shaped(s', |names|) && |s'.rows| == |s.rows|
    ensures Typed(s) ==> Typed(s')
    ensures forall k | 0 <= k < |s.rows| && k != i :: s'.rows[k] == s.rows[k]
    ensures s'.rows[i].index == s.rows[i].index
    ensures forall c | 0 <= c < |names| && !s.rows[i].cells[c].Missing? ::
      s'.rows[i].cells[c] == s.rows[i].cells[c]
    ensures CountMissing(s.rows[i].cells) != 1 ==> s' == s
    ensures |s'.log| >= |s.log|
  {
    var r := s.rows[i];
    if CountMissing(r.cells) != 1 then s
    else
      var j := OnlyGap(r.cells);
      var col := names[j];
      if col in plan then
        var m := plan[col];
        var v := FillValue(LabeledColumn(s.rows, j), s.kinds[j], m);
        FillState(s.rows[i := Labeled(r.index, r.cells[j := v])],
                  s.kinds[j := KindAfterWrite(s.kinds[j], v)],
                  s.log + [Filled(r.index, col, v, m)])
      else
        FillState(s.rows, s.kinds, s.log + [NoPlan(r.index, col)])
  }

  /** The loop from position `i` to the end. */
  function FillFrom(names: seq<string>, plan: map<string, string>, s: FillState, i: nat): (r: FillState)
    requires Shaped(s, |names|) && i <= |s.rows|
    decreases |s.rows| - i
    ensures Shaped(r, |names|) && |r.rows| == |s.rows|
    ensures Typed(s) ==> Typed(r)
    ensures |r.log| >= |s.log|
  {
    if i == |s.rows| then s else FillFrom(names, plan, FillStep(names, plan, s, i), i + 1)
  }

  /** What one iteration writes: for a row with one gap whose column the plan covers, the fill
      value of the current column goes into the gap, the column's dtype follows the write, and
      a "filled" line carries the value and the method; without a plan entry only a
      "no plan" line is appended. */
  lemma FillStepWrites(names: seq<string>, plan: map<string, string>, s: FillState, i: nat)
    requires Shaped(s, |names|) && i < |s.rows|
    ensures var s' := FillStep(names, plan, s, i);
      CountMissing(s.rows[i].cells) == 1 && names[OnlyGap(s.rows[i].cells)] in plan ==>
      var j := OnlyGap(s.rows[i].cells);
      var m := plan[names[j]];
      var v := FillValue(LabeledColumn(s.rows, j), s.kinds[j], m);
      && s'.rows[i].cells[j] == v
      && s'.kinds == s.kinds[j := KindAfterWrite(s.kinds[j], v)]
      && s'.log == s.log + [Filled(s.rows[i].index, names[j], v, m)]
    ensures var s' := FillStep(names, plan, s, i);
      CountMissing(s.rows[i].cells) == 1 && names[OnlyGap(s.rows[i].cells)] !in plan ==>
      && s'.rows == s.rows && s'.kinds == s.kinds
      && s'.log == s.log + [NoPlan(s.rows[i].index, names[OnlyGap(s.rows[i].cells)])]
  {
  }

  /** The loop from position `i` leaves the rows before `i` alone, keeps every row's index and
      every present cell, and leaves a row without exactly one gap unchanged. */
  lemma {:induction false} FillFromFrame(names: seq<string>, plan: map<string, string>, s: FillState, i: nat)
    requires Shaped(s, |names|) && i <= |s.rows|
    decreases |s.rows| - i
    ensures forall k | 0 <= k < i :: FillFrom(names, plan, s, i).rows[k] == s.rows[k]
    ensures forall k | 0 <= k < |s.rows| :: FillFrom(names, plan, s, i).rows[k].index == s.rows[k].index
    ensures forall k, c | 0 <= k < |s.rows| && 0 <= c < |names| && !s.rows[k].cells[c].Missing? ::
      FillFrom(names, plan, s, i).rows[k].cells[c] == s.rows[k].cells[c]
    ensures forall k | 0 <= k < |s.rows| && CountMissing(s.rows[k].cells) != 1 ::
      FillFrom(names, plan, s, i).rows[k] == s.rows[k]
  {
    if i < |s.rows| {
      FillFromFrame(names, plan, FillStep(names, plan, s, i), i + 1);
    }
  }

  /** The state after the first `k` iterations of the loop. */
  function FillPrefix(names: seq<string>, plan: map<string, string>, s: FillState, k: nat): (p: FillState)
    requires Shaped(s, |names|) && k <= |s.rows|
    ensures Shaped(p, |names|) && |p.rows| == |s.rows|
    ensures forall m | k <= m < |s.rows| :: p.rows[m] == s.rows[m]
    ensures p.rows[k..] == s.rows[k..]
  {
    if k == 0 then s else FillStep(names, plan, FillPrefix(names, plan, s, k - 1), k - 1)
  }

  /** Running the first `k` iterations and then the rest is running the whole loop. */
  lemma {:induction false} FillPrefixThenRest(names: seq<string>, plan: map<string, string>, s: FillState, k: nat)
    requires Shaped(s, |names|) && k <= |s.rows|
    ensures FillFrom(names, plan, FillPrefix(names, plan, s, k), k) == FillFrom(names, plan, s, 0)
  {
    if k > 0 {
      FillPrefixThenRest(names, plan, s, k - 1);
    }
  }

  /** The first `k` iterations already give the rows before `k` their final contents. */
  lemma FillPrefixFinal(names: seq<string>, plan: map<string, string>, s: FillState, k: nat)
    requires Shaped(s, |names|) && k <= |s.rows|
    ensures FillPrefix(names, plan, s, k).rows[..k] == FillFrom(names, plan, s, 0).rows[..k]
  {
    var p := FillPrefix(names, plan, s, k);
    FillPrefixThenRest(names, plan, s, k);
    FillFromFrame(names, plan, p, k);
  }

  /** On reaching row `k` the loop has its final rows before `k`, and row `k` ends up as the
      iteration at `k` leaves it. */
  lemma FillPrefixSeen(names: seq<string>, plan: map<string, string>, s: FillState, k: nat)
    requires Shaped(s, |names|) && k < |s.rows|
    ensures var r := FillFrom(names, plan, s, 0);
      var p := FillPrefix(names, plan, s, k);
      && p.rows[..k] == r.rows[..k]
      && r.rows[k] == FillStep(names, plan, p, k).rows[k]
  {
    var r := FillFrom(names, plan, s, 0);
    var p := FillPrefix(names, plan, s, k);
    var p' := FillStep(names, plan, p, k);
    assert FillPrefix(names, plan, s, k + 1) == p';
    FillPrefixFinal(names, plan, s, k + 1);
    assert r.rows[k] == r.rows[..k + 1][k] == p'.rows[..k + 1][k];
    assert p.rows[..k] == p'.rows[..k];
    assert r.rows[..k] == r.rows[..k + 1][..k];
    assert p'.rows[..k] == p'.rows[..k + 1][..k];
  }

  /** What the loop leaves in the gap of row `k`: the fill value of that gap's column as the
      loop finds it on reaching row `k` (the rows before `k` as they end up, row `k` and the
      rows after it as they started), or the gap itself when the plan does not cover it. */
  lemma FillFromWrites(names: seq<string>, plan: map<string, string>, s: FillState, k: nat)
    requires Shaped(s, |names|) && k < |s.rows| && CountMissing(s.rows[k].cells) == 1
    ensures var r := FillFrom(names, plan, s, 0);
      var p := FillPrefix(names, plan, s, k);
      var j := OnlyGap(s.rows[k].cells);
      && p.rows[..k] == r.rows[..k] && p.rows[k..] == s.rows[k..]
      && (names[j] in plan ==>
            r.rows[k].cells[j] == FillValue(LabeledColumn(p.rows, j), p.kinds[j], plan[names[j]]))
      && (names[j] !in plan ==> r.rows[k] == s.rows[k])
  {
    var p := FillPrefix(names, plan, s, k);
    FillPrefixSeen(names, plan, s, k);
    assert p.rows[k] == s.rows[k];
    FillStepWrites(names, plan, p, k);
  }

  // ---------------------------------------------------------------------------------------
  // Pass 3 and the reindex

  /** The dtype after `fillna`: filling "Unknown" into a datetime column with gaps makes it object. */
  function ResidualKind(k: Kind, col: seq<Cell>): (k': Kind)
    ensures k == Numeric ==> k' == Numeric
    ensures k != Numeric && Missing in col ==> k' == Textual
    ensures Missing !in col ==> k' == k
  {
    if k != Numeric && Missing in col then Textual else k
  }

  function ResidualKinds(kinds: seq<Kind>, rows: seq<Labeled>): (ks: seq<Kind>)
    requires forall k | 0 <= k < |rows| :: |rows[k].cells| == |kinds|
    ensures |ks| == |kinds|
    ensures forall j | 0 <= j < |kinds| :: ks[j] == ResidualKind(kinds[j], LabeledColumn(rows, j))
  {
    seq(|kinds|, j requires 0 <= j < |kinds| => ResidualKind(kinds[j], LabeledColumn(rows, j)))
  }

  /** Line 46 followed by `reset_index(drop=True)`: every remaining gap gets the sentinel of its
      column's dtype, and the rows are renumbered from 0 by position. */
  function Residual(kinds: seq<Kind>, rows: seq<Labeled>): (out: seq<Row>)
    requires forall k | 0 <= k < |rows| :: |rows[k].cells| == |kinds|
    ensures |out| == |rows| && Rectangular(out, |kinds|)
    ensures forall k, j | 0 <= k < |rows| && 0 <= j < |kinds| ::
      out[k][j] == if rows[k].cells[j].Missing? then Sentinel(kinds[j]) else rows[k].cells[j]
    ensures forall k, j | 0 <= k < |rows| && 0 <= j < |kinds| :: !out[k][j].Missing?
  {
    seq(|rows|, k requires 0 <= k < |rows| =>
      seq(|kinds|, j requires 0 <= j < |kinds| =>
        if rows[k].cells[j].Missing? then Sentinel(kinds[j]) else rows[k].cells[j]))
  }

  /** With no gap left, line 46 changes nothing and only the index labels are dropped. */
  lemma ResidualWithoutGaps(kinds: seq<Kind>, rows: seq<Labeled>)
    requires forall k | 0 <= k < |rows| :: |rows[k].cells| == |kinds|
    requires forall k, j | 0 <= k < |rows| && 0 <= j < |kinds| :: !rows[k].cells[j].Missing?
    ensures Residual(kinds, rows) == seq(|rows|, k requires 0 <= k < |rows| => rows[k].cells)
  {
    var out := Residual(kinds, rows);
    forall k | 0 <= k < |rows| ensures out[k] == rows[k].cells {
      assert |out[k]| == |rows[k].cells|;
    }
  }

  // ---------------------------------------------------------------------------------------
  // `clean_data`

  /** The summary line of lines 27-29: present exactly when some row was removed, and then
      holding the number of rows removed. */
  function DropLog(rows: seq<Row>): (e: seq<Entry>)
    ensures e == [] <==> |Survivors(rows)| == |rows|
    ensures e != [] ==> e == [Dropped(|rows| - |Survivors(rows)|)]
  {
    if DroppedCount(rows) > 0 then [Dropped(DroppedCount(rows))] else []
  }

  /** The state entering the fill loop. */
  function AfterDrop(t: Table): (s: FillState)
    requires WellFormed(t)
    ensures Shaped(s, |t.names|) && Typed(s)
  {
    FillState(Survivors(t.rows), t.kinds, DropLog(t.rows))
  }

  /** The state leaving the fill loop. */
  function AfterFill(t: Table, plan: map<string, Option<string>>): (s: FillState)
    requires WellFormed(t)
    ensures Shaped(s, |t.names|) && Typed(s)
    ensures |s.rows| == |Survivors(t.rows)|
    ensures |s.log| >= |DropLog(t.rows)| && s.log[..|DropLog(t.rows)|] == DropLog(t.rows)
  {
    FillFromLog(t.names, NormalizePlan(plan), AfterDrop(t), 0);
    FillFrom(t.names, NormalizePlan(plan), AfterDrop(t), 0)
  }

  /** `clean_data(df, cleaning_plan)`: the cleaned table and the audit log. */
  function Clean(t: Table, plan: map<string, Option<string>>): (r: (Table, seq<Entry>))
    requires WellFormed(t)
    ensures r.0.names == t.names && |r.0.kinds| == |t.names|
    ensures |r.0.rows| == |t.rows| - DroppedCount(t.rows) && Rectangular(r.0.rows, |t.names|)
    ensures NoMissing(r.0.rows)
    ensures |r.1| >= |DropLog(t.rows)| && r.1[..|DropLog(t.rows)|] == DropLog(t.rows)
  {
    var s := AfterFill(t, plan);
    (Table(t.names, ResidualKinds(s.kinds, s.rows), Residual(s.kinds, s.rows)), s.log)
  }

  predicate NoMissing(rows: seq<Row>) {
    forall k, j | 0 <= k < |rows| && 0 <= j < |rows[k]| :: !rows[k][j].Missing?
  }

  /** The loop at lines 33-43: each row with exactly one gap gets its gap filled from the
      plan, or a "no plan" line in the log. */
  method FillSingleGaps(names: seq<string>, p: map<string, string>, rows0: seq<Labeled>, kinds0: seq<Kind>, log0: seq<Entry>)
    returns (rows: seq<Labeled>, kinds: seq<Kind>, log: seq<Entry>)
    requires Shaped(FillState(rows0, kinds0, log0), |names|)
    ensures FillState(rows, kinds, log) == FillFrom(names, p, FillState(rows0, kinds0, log0), 0)
  {
    rows, kinds, log := rows0, kinds0, log0;
    var i := 0;
    while i < |rows|
      invariant 0 <= i <= |rows| == |rows0|
      invariant Shaped(FillState(rows, kinds, log), |names|)
      invariant FillFrom(names, p, FillState(rows, kinds, log), i) == FillFrom(names, p, FillState(rows0, kinds0, log0), 0)
    {
      ghost var before := FillState(rows, kinds, log);
      var r := rows[i];
      if CountMissing(r.cells) == 1 {
        var j := OnlyGap(r.cells);
        var col := names[j];
        if col in p {
          var m := p[col];
          var v := FillValue(LabeledColumn(rows, j), kinds[j], m);
          rows := rows[i := Labeled(r.index, r.cells[j := v])];
          kinds := kinds[j := KindAfterWrite(kinds[j], v)];
          log := log + [Filled(r.index, col, v, m)];
        } else {
          log := log + [NoPlan(r.index, col)];
        }
      }
      assert FillState(rows, kinds, log) == FillStep(names, p, before, i);
      i := i + 1;
    }
  }

  /** The imperative pipeline of lines 18-47. */
  method CleanData(t: Table, plan: map<string, Option<string>>) returns (out: Table, log: seq<Entry>)
    requires WellFormed(t)
    ensures (out, log) == Clean(t, plan)
    ensures WellFormed(out) && out.names == t.names
    ensures NoMissing(out.rows)
    ensures |out.rows| == |t.rows| - DroppedCount(t.rows)
    ensures forall k, j | 0 <= k < |Survivors(t.rows)| && 0 <= j < |t.names| &&
      !Survivors(t.rows)[k].cells[j].Missing? :: out.rows[k][j] == Survivors(t.rows)[k].cells[j]
  {
    var p := NormalizePlan(plan);
    log := [];
    var rowsBefore := |t.rows|;
    var rows := Survivors(t.rows);
    if |rows| < rowsBefore {
      log := log + [Dropped(rowsBefore - |rows|)];
    }
    var kinds := t.kinds;
    assert FillState(rows, kinds, log) == AfterDrop(t);
    rows, kinds, log := FillSingleGaps(t.names, p, rows, kinds, log);
    out := Table(t.names, ResidualKinds(kinds, rows), Residual(kinds, rows));
    CleanWellFormed(t, plan);
    CleanKeepsSurvivors(t, plan);
  }

  /** The cleaned table is well formed, has no gaps and one row per surviving row. */
  lemma CleanWellFormed(t: Table, plan: map<string, Option<string>>)
    requires WellFormed(t)
    ensures var (out, _) := Clean(t, plan);
      WellFormed(out) && out.names == t.names && NoMissing(out.rows) &&
      |out.rows| == |t.rows| - DroppedCount(t.rows)
  {
    var s := AfterFill(t, plan);
    var (out, _) := Clean(t, plan);
    var ks := ResidualKinds(s.kinds, s.rows);
    forall k, j | 0 <= k < |out.rows| && 0 <= j < |ks| && out.rows[k][j].Text?
      ensures ks[j] == Textual
    {
      if s.rows[k].cells[j].Missing? {
        assert LabeledColumn(s.rows, j)[k] == Missing;
      }
    }
  }

  /** Output row `k` is the `k`-th surviving row: every cell present in it is kept, so a row
      without gaps comes out unchanged. */
  lemma CleanKeepsSurvivors(t: Table, plan: map<string, Option<string>>)
    requires WellFormed(t)
    ensures var (out, _) := Clean(t, plan);
      var sv := Survivors(t.rows);
      && |out.rows| == |sv|
      && (forall k, j | 0 <= k < |sv| && 0 <= j < |t.names| && !sv[k].cells[j].Missing? ::
            out.rows[k][j] == sv[k].cells[j])
      && (forall k | 0 <= k < |sv| && CountMissing(sv[k].cells) == 0 :: out.rows[k] == sv[k].cells)
  {
    var (out, _) := Clean(t, plan);
    var sv := Survivors(t.rows);
    FillFromFrame(t.names, NormalizePlan(plan), AfterDrop(t), 0);
    forall k | 0 <= k < |sv| && CountMissing(sv[k].cells) == 0 ensures out.rows[k] == sv[k].cells {
      NoMissingCount(sv[k].cells);
    }
  }

  /** What ends up in the single gap of surviving row `k`: the fill value computed from the
      column as the loop finds it on reaching row `k`, or, when that is NaN or the plan does not
      cover the column, the sentinel of the column's dtype after the fill loop. */
  lemma CleanFillsGap(t: Table, plan: map<string, Option<string>>, k: nat)
    requires WellFormed(t) && k < |Survivors(t.rows)| && CountMissing(Survivors(t.rows)[k].cells) == 1
    ensures var (out, _) := Clean(t, plan);
      var sv := Survivors(t.rows);
      var p := NormalizePlan(plan);
      var j := OnlyGap(sv[k].cells);
      var before := FillPrefix(t.names, p, AfterDrop(t), k);
      var kinds := AfterFill(t, plan).kinds;
      && (t.names[j] in plan ==>
            var v := FillValue(LabeledColumn(before.rows, j), before.kinds[j], p[t.names[j]]);
            out.rows[k][j] == if v.Missing? then Sentinel(kinds[j]) else v)
      && (t.names[j] !in plan ==> out.rows[k][j] == Sentinel(kinds[j]))
  {
    var s := AfterDrop(t);
    FillFromWrites(t.names, NormalizePlan(plan), s, k);
  }

  // ---------------------------------------------------------------------------------------
  // Audit completeness

  /** What an audit line says, without the fill value: the row label, the column, and whether
      the plan covered that column ("Filled") or not ("no plan provided"). */
  datatype Tag = Tag(row: nat, column: string, planned: bool)

  function TagOf(e: Entry): Tag {
    match e
    case Filled(r, c, _, _) => Tag(r, c, true)
    case NoPlan(r, c) => Tag(r, c, false)
    case Dropped(_) => Tag(0, "", false)
  }

  function Tags(es: seq<Entry>): (ts: seq<Tag>)
    ensures |ts| == |es| && forall k | 0 <= k < |es| :: ts[k] == TagOf(es[k])
  {
    seq(|es|, k requires 0 <= k < |es| => TagOf(es[k]))
  }

  predicate NoDropEntry(es: seq<Entry>) {
    forall k | 0 <= k < |es| :: !es[k].Dropped?
  }

  predicate Widths(rows: seq<Labeled>, width: nat) {
    forall k | 0 <= k < |rows| :: |rows[k].cells| == width
  }

  /** The audit line owed for row `r` when it has exactly one gap. */
  predicate Owed(names: seq<string>, plan: map<string, string>, r: Labeled, tag: Tag)
    requires |r.cells| == |names|
  {
    CountMissing(r.cells) == 1 &&
    var col := names[OnlyGap(r.cells)];
    tag == Tag(r.index, col, col in plan)
  }

  function OwedFor(names: seq<string>, plan: map<string, string>, r: Labeled): (ts: seq<Tag>)
    requires |r.cells| == |names|
    ensures |ts| <= 1
    ensures |ts| == 1 <==> CountMissing(r.cells) == 1
    ensures |ts| == 1 ==> Owed(names, plan, r, ts[0])
  {
    if CountMissing(r.cells) == 1 then
      var col := names[OnlyGap(r.cells)];
      [Tag(r.index, col, col in plan)]
    else []
  }

  /** The audit lines the fill pass owes: one per row with exactly one gap, in row order. */
  function GapTags(names: seq<string>, plan: map<string, string>, rows: seq<Labeled>): seq<Tag>
    requires Widths(rows, |names|)
  {
    if rows == [] then [] else OwedFor(names, plan, rows[0]) + GapTags(names, plan, rows[1..])
  }

  lemma FillStepLog(names: seq<string>, plan: map<string, string>, s: FillState, i: nat)
    requires Shaped(s, |names|) && i < |s.rows|
    ensures var s' := FillStep(names, plan, s, i);
      s'.log[..|s.log|] == s.log &&
      NoDropEntry(s'.log[|s.log|..]) && Tags(s'.log[|s.log|..]) == OwedFor(names, plan, s.rows[i])
  {
  }

  /** Three logs, each extending the one before. */
  lemma LogsExtend(x: seq<Entry>, y: seq<Entry>, z: seq<Entry>)
    requires |x| <= |y| <= |z| && y[..|x|] == x && z[..|y|] == y
    ensures z[..|x|] == x
    ensures z[|x|..] == y[|x|..] + z[|y|..]
    ensures Tags(z[|x|..]) == Tags(y[|x|..]) + Tags(z[|y|..])
    ensures NoDropEntry(y[|x|..]) && NoDropEntry(z[|y|..]) ==> NoDropEntry(z[|x|..])
  {
    assert z[|x|..] == y[|x|..] + z[|y|..];
  }

  lemma {:induction false} FillFromLog(names: seq<string>, plan: map<string, string>, s: FillState, i: nat)
    requires Shaped(s, |names|) && i <= |s.rows|
    decreases |s.rows| - i
    ensures var r := FillFrom(names, plan, s, i);
      r.log[..|s.log|] == s.log &&
      NoDropEntry(r.log[|s.log|..]) &&
      Tags(r.log[|s.log|..]) == GapTags(names, plan, s.rows[i..])
  {
    if i == |s.rows| {
      assert s.rows[i..] == [];
    } else {
      var s' := FillStep(names, plan, s, i);
      var r := FillFrom(names, plan, s', i + 1);
      FillStepLog(names, plan, s, i);
      FillFromLog(names, plan, s', i + 1);
      LogsExtend(s.log, s'.log, r.log);
      assert s'.rows[i + 1..] == s.rows[i + 1..];
      assert s.rows[i..][1..] == s.rows[i + 1..];
    }
  }

  /** The drop summary comes first and exactly when rows were dropped, with their count; after
      it come exactly the lines owed for the surviving rows, and no other drop summary. */
  lemma CleanLog(t: Table, plan: map<string, Option<string>>)
    requires WellFormed(t)
    ensures var log := AfterFill(t, plan).log;
      var d := DroppedCount(t.rows);
      var n := |DropLog(t.rows)|;
      && n <= |log|
      && (d > 0 ==> log[0] == Dropped(d))
      && (d == 0 ==> NoDropEntry(log))
      && NoDropEntry(log[n..])
      && Tags(log[n..]) == GapTags(t.names, NormalizePlan(plan), Survivors(t.rows))
  {
    var s := AfterDrop(t);
    var log := AfterFill(t, plan).log;
    FillFromLog(t.names, NormalizePlan(plan), s, 0);
    assert s.rows[0..] == s.rows;
    if DroppedCount(t.rows) > 0 {
      assert log[..1] == s.log == [Dropped(DroppedCount(t.rows))];
      assert log[0] == log[..1][0];
    } else {
      assert log[0..] == log;
    }
  }

  /** Every owed line comes from some row with exactly one gap, and names that row's gap. */
  lemma {:induction false} GapTagsSound(names: seq<string>, plan: map<string, string>, rows: seq<Labeled>)
    requires Widths(rows, |names|)
    ensures forall a | 0 <= a < |GapTags(names, plan, rows)| ::
      exists k | 0 <= k < |rows| :: Owed(names, plan, rows[k], GapTags(names, plan, rows)[a])
  {
    if rows == [] {
      assert GapTags(names, plan, rows) == [];
    } else {
      var tail := rows[1..];
      GapTagsSound(names, plan, tail);
      var ts := GapTags(names, plan, rows);
      var head := OwedFor(names, plan, rows[0]);
      var rest := GapTags(names, plan, tail);
      assert ts == head + rest;
      forall a | 0 <= a < |ts|
        ensures exists k | 0 <= k < |rows| :: Owed(names, plan, rows[k], ts[a])
      {
        if a < |head| {
          assert ts[a] == head[0];
          assert Owed(names, plan, rows[0], ts[a]);
        } else {
          assert ts[a] == rest[a - |head|];
          var k :| 0 <= k < |tail| && Owed(names, plan, tail[k], rest[a - |head|]);
          assert rows[k + 1] == tail[k];
        }
      }
    }
  }

  /** The owed lines follow the rows' order. */
  lemma {:induction false} GapTagsAscending(names: seq<string>, plan: map<string, string>, rows: seq<Labeled>)
    requires Widths(rows, |names|)
    requires forall k, l | 0 <= k < l < |rows| :: rows[k].index < rows[l].index
    ensures forall a, b | 0 <= a < b < |GapTags(names, plan, rows)| ::
      GapTags(names, plan, rows)[a].row < GapTags(names, plan, rows)[b].row
  {
    if rows == [] {
      assert GapTags(names, plan, rows) == [];
    } else {
      var tail := rows[1..];
      GapTagsSound(names, plan, tail);
      GapTagsAscending(names, plan, tail);
      var ts := GapTags(names, plan, rows);
      var head := OwedFor(names, plan, rows[0]);
      var rest := GapTags(names, plan, tail);
      assert ts == head + rest;
      forall a | 0 <= a < |rest| ensures rows[0].index < rest[a].row {
        var k :| 0 <= k < |tail| && Owed(names, plan, tail[k], rest[a]);
        assert rows[k + 1] == tail[k];
      }
      forall a, b | 0 <= a < b < |ts| ensures ts[a].row < ts[b].row {
        if a < |head| {
          assert ts[a] == head[0];
          assert ts[b] == rest[b - |head|];
        } else {
          assert ts[a] == rest[a - |head|] && ts[b] == rest[b - |head|];
        }
      }
    }
  }

  lemma {:induction false} GapTagsComplete(names: seq<string>, plan: map<string, string>, rows: seq<Labeled>, k: nat)
    requires Widths(rows, |names|)
    requires k < |rows| && CountMissing(rows[k].cells) == 1
    ensures exists a | 0 <= a < |GapTags(names, plan, rows)| :: GapTags(names, plan, rows)[a].row == rows[k].index
  {
    var ts := GapTags(names, plan, rows);
    var head := OwedFor(names, plan, rows[0]);
    var tail := rows[1..];
    var rest := GapTags(names, plan, tail);
    assert ts == head + rest;
    if k == 0 {
      assert ts[0].row == rows[0].index;
    } else {
      assert tail[k - 1] == rows[k];
      GapTagsComplete(names, plan, tail, k - 1);
      var a :| 0 <= a < |rest| && rest[a].row == rows[k].index;
      assert ts[a + |head|] == rest[a];
    }
  }

  /** The owed lines, exactly: one per row with a single gap, each naming that row's gap, in
      row order. */
  lemma GapTagsExact(names: seq<string>, plan: map<string, string>, rows: seq<Labeled>)
    requires Widths(rows, |names|)
    requires forall k, l | 0 <= k < l < |rows| :: rows[k].index < rows[l].index
    ensures var ts := GapTags(names, plan, rows);
      && (forall k | 0 <= k < |rows| ::
            CountMissing(rows[k].cells) == 1 <==> exists a | 0 <= a < |ts| :: ts[a].row == rows[k].index)
      && (forall a | 0 <= a < |ts| :: exists k | 0 <= k < |rows| :: Owed(names, plan, rows[k], ts[a]))
      && (forall a | 0 <= a < |ts| :: ts[a].planned <==> ts[a].column in plan)
      && (forall a, b | 0 <= a < b < |ts| :: ts[a].row < ts[b].row)
  {
    var ts := GapTags(names, plan, rows);
    GapTagsSound(names, plan, rows);
    GapTagsAscending(names, plan, rows);
    forall a | 0 <= a < |ts| ensures ts[a].planned <==> ts[a].column in plan {
      var k :| 0 <= k < |rows| && Owed(names, plan, rows[k], ts[a]);
    }
    forall k | 0 <= k < |rows| && CountMissing(rows[k].cells) == 1
      ensures exists a | 0 <= a < |ts| :: ts[a].row == rows[k].index
    {
      GapTagsComplete(names, plan, rows, k);
    }
    forall k, a | 0 <= k < |rows| && 0 <= a < |ts| && ts[a].row == rows[k].index
      ensures CountMissing(rows[k].cells) == 1
    {
      var k' :| 0 <= k' < |rows| && Owed(names, plan, rows[k'], ts[a]);
      assert rows[k'].index == rows[k].index;
      assert k' == k;
    }
  }

  /** Audit completeness: after the optional drop summary, the log has one line for each
      surviving row with exactly one gap and none for any other row, in ascending original row
      order; a line says "Filled" exactly when the plan names the gap's column. */
  lemma AuditCompleteness(t: Table, plan: map<string, Option<string>>)
    requires WellFormed(t)
    ensures var log := Clean(t, plan).1;
      var kept := Survivors(t.rows);
      var n := |DropLog(t.rows)|;
      && n <= |log|
      && var ts := Tags(log[n..]);
      && (forall k | 0 <= k < |kept| ::
            CountMissing(kept[k].cells) == 1 <==> exists a | 0 <= a < |ts| :: ts[a].row == kept[k].index)
      && (forall a | 0 <= a < |ts| ::
            exists k | 0 <= k < |kept| :: Owed(t.names, NormalizePlan(plan), kept[k], ts[a]))
      && (forall a | 0 <= a < |ts| :: ts[a].planned <==> ts[a].column in plan)
      && (forall a, b | 0 <= a < b < |ts| :: ts[a].row < ts[b].row)
  {
    assert Clean(t, plan).1 == AfterFill(t, plan).log;
    CleanLog(t, plan);
    GapTagsExact(t.names, NormalizePlan(plan), Survivors(t.rows));
  }

  // ---------------------------------------------------------------------------------------
  // A worked example: column A planned with "mean"; row 2 has two gaps and is dropped, row 1's
  // gap in A gets the mean 2.0 of the A values 1.0 and 3.0 left after the drop.

  const ExampleRow0: Row := [Num(1.0), Num(5.0)]
  const ExampleRow1: Row := [Missing, Num(6.0)]
  const ExampleRow2: Row := [Missing, Missing]
  const ExampleRow3: Row := [Num(3.0), Num(7.0)]
  const ExampleFilledRow1: Row := [Num(2.0), Num(6.0)]
  const ExampleTable: Table := Table(["A", "B"], [Numeric, Numeric], [ExampleRow0, ExampleRow1, ExampleRow2, ExampleRow3])
  const ExamplePlan: map<string, Option<string>> := map["A" := Some("mean")]
  /** The state entering the fill loop, and the state leaving it. */
  const ExampleStart: FillState :=
    FillState([Labeled(0, ExampleRow0), Labeled(1, ExampleRow1), Labeled(3, ExampleRow3)], [Numeric, Numeric], [Dropped(1)])
  const ExampleEnd: FillState :=
    FillState([Labeled(0, ExampleRow0), Labeled(1, ExampleFilledRow1), Labeled(3, ExampleRow3)], [Numeric, Numeric],
              [Dropped(1), Filled(1, "A", Num(2.0), "mean")])

  lemma ExampleSurvivors()
    ensures Survivors(ExampleTable.rows) == ExampleStart.rows
    ensures DroppedCount(ExampleTable.rows) == 1
  {
    var rows := ExampleTable.rows;
    assert CountMissing(ExampleRow0) == 0 && CountMissing(ExampleRow1) == 1;
    assert CountMissing(ExampleRow2) == 2 && CountMissing(ExampleRow3) == 0;
    assert SurvivorsFrom(rows, 3) == [Labeled(3, ExampleRow3)];
    assert SurvivorsFrom(rows, 2) == [Labeled(3, ExampleRow3)];
    assert SurvivorsFrom(rows, 1) == [Labeled(1, ExampleRow1), Labeled(3, ExampleRow3)];
    assert DroppedFrom(rows, 3) == 0 && DroppedFrom(rows, 2) == 1 && DroppedFrom(rows, 1) == 1;
  }

  lemma ExampleMean()
    ensures FillValue([Num(1.0), Missing, Num(3.0)], Numeric, "mean") == Num(2.0)
  {
    var col := [Num(1.0), Missing, Num(3.0)];
    assert Numbers([Num(3.0)]) == [3.0];
    assert col[1..] == [Missing, Num(3.0)] && col[1..][1..] == [Num(3.0)];
    assert Numbers(col) == [1.0, 3.0];
    assert Mean([1.0, 3.0]) == 2.0;
  }

  /** Row 1 has its only gap in A, which the plan fills with the mean of A. */
  lemma ExampleFillRow1()
    ensures FillStep(ExampleTable.names, map["A" := "mean"], ExampleStart, 1) == ExampleEnd
  {
    assert CountMissing(ExampleRow1) == 1;
    assert OnlyGap(ExampleRow1) == 0;
    assert LabeledColumn(ExampleStart.rows, 0) == [Num(1.0), Missing, Num(3.0)];
    ExampleMean();
    assert ExampleRow1[0 := Num(2.0)] == ExampleFilledRow1;
  }

  lemma ExampleFillLoop()
    ensures FillFrom(ExampleTable.names, map["A" := "mean"], ExampleStart, 0) == ExampleEnd
  {
    var names := ExampleTable.names;
    var p := map["A" := "mean"];
    assert CountMissing(ExampleRow0) == 0 && CountMissing(ExampleRow3) == 0;
    assert FillStep(names, p, ExampleStart, 0) == ExampleStart;
    ExampleFillRow1();
    assert FillStep(names, p, ExampleEnd, 2) == ExampleEnd;
    assert FillFrom(names, p, ExampleEnd, 3) == ExampleEnd;
    assert FillFrom(names, p, ExampleEnd, 2) == ExampleEnd;
    assert FillFrom(names, p, ExampleStart, 1) == ExampleEnd;
  }

  lemma ExampleNormalizedPlan()
    ensures NormalizePlan(ExamplePlan) == map["A" := "mean"]
  {
    StripOfTrimmed("mean");
    assert Lower("mean") == "mean";
  }

  lemma ExampleAfterFill()
    ensures AfterFill(ExampleTable, ExamplePlan) == ExampleEnd
  {
    ExampleSurvivors();
    ExampleNormalizedPlan();
    assert AfterDrop(ExampleTable) == ExampleStart;
    ExampleFillLoop();
  }

  lemma ExampleResidual()
    ensures Residual(ExampleEnd.kinds, ExampleEnd.rows) == [ExampleRow0, ExampleFilledRow1, ExampleRow3]
  {
    ResidualWithoutGaps(ExampleEnd.kinds, ExampleEnd.rows);
  }

  /** `clean_data` on the example: row 2 is dropped and logged, row 1's gap in A gets 2.0 and is
      logged, and the three remaining rows are renumbered 0, 1, 2. */
  lemma CleanExample()
    ensures Clean(ExampleTable, ExamplePlan) ==
      (Table(["A", "B"], [Numeric, Numeric], [ExampleRow0, ExampleFilledRow1, ExampleRow3]),
       [Dropped(1), Filled(1, "A", Num(2.0), "mean")])
  {
    ExampleAfterFill();
    ExampleResidual();
    assert ResidualKinds(ExampleEnd.kinds, ExampleEnd.rows) == [Numeric, Numeric];
  }
}
