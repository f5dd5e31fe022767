/** `check_for_date`: the columns whose name mentions "date" are converted to datetimes. */
module DateColumns {
  import opened Frame
  import opened Strings

  /** The selection rule: the lower-cased column name contains "date". */
  predicate IsDateName(name: string)
    ensures IsDateName(name) <==> exists i :: DateAt(name, i)
  {
    DateStretch(name);
    Contains(Lower(name), "date")
  }

  /** The four characters of `name` at `i` lower-case to "date". */
  predicate DateAt(name: string, i: int) {
    0 <= i <= |name| - 4 && Lower(name[i..i + 4]) == "date"
  }

  lemma DateStretch(name: string)
    ensures Contains(Lower(name), "date") <==> exists i :: DateAt(name, i)
  {
    var l := Lower(name);
    if Contains(l, "date") {
      var i :| 0 <= i <= |l| - 4 && OccursAt(l, "date", i);
      assert l[i..i + 4] == Lower(name[i..i + 4]);
      assert DateAt(name, i);
    }
    if exists i :: DateAt(name, i) {
      var i :| DateAt(name, i);
      assert l[i..i + 4] == Lower(name[i..i + 4]);
      assert OccursAt(l, "date", i);
    }
  }

  /** The rule ignores case: a name and its lower-cased form are selected alike. */
  lemma IsDateNameIgnoresCase(name: string)
    ensures IsDateName(name) <==> IsDateName(Lower(name))
  {
    LowerIdempotent(name);
  }

  /** `pd.to_datetime(..., errors='coerce')` on one cell, with the parser itself abstract:
      a missing cell stays missing, an unparseable one becomes NaT (missing), a parsed one
      becomes its timestamp. */
  function Coerce(parse: Cell -> Option<real>, c: Cell): (d: Cell)
    ensures c.Missing? ==> d.Missing?
    ensures !d.Text?
  {
    if c.Missing? then Missing
    else match parse(c)
      case None => Missing
      case Some(ts) => Num(ts)
  }

  /** The rows with column `j` replaced by `col` (`data[col] = ...`). */
  function WithColumn(rows: seq<Row>, j: nat, col: seq<Cell>): (out: seq<Row>)
    requires forall i | 0 <= i < |rows| :: j < |rows[i]|
    requires |col| == |rows|
    ensures |out| == |rows|
    ensures forall i | 0 <= i < |rows| :: out[i] == rows[i][j := col[i]]
  {
    seq(|rows|, i requires 0 <= i < |rows| => rows[i][j := col[i]])
  }

  /** The converted column `j`. */
  function CoerceColumn(parse: Cell -> Option<real>, rows: seq<Row>, j: nat): (col: seq<Cell>)
    requires forall i | 0 <= i < |rows| :: j < |rows[i]|
    ensures |col| == |rows|
    ensures forall i | 0 <= i < |rows| :: col[i] == Coerce(parse, rows[i][j])
  {
    seq(|rows|, i requires 0 <= i < |rows| => Coerce(parse, rows[i][j]))
  }

  /** Lines 49-57: every column picked by the rule is converted and becomes a datetime column;
      every other column, and every name, is returned unchanged; the table stays well formed. */
  method CheckForDate(t: Table, parse: Cell -> Option<real>) returns (out: Table)
    requires WellFormed(t)
    ensures WellFormed(out)
    ensures out.names == t.names && |out.rows| == |t.rows|
    ensures forall j | 0 <= j < |t.names| ::
      out.kinds[j] == if IsDateName(t.names[j]) then Temporal else t.kinds[j]
    ensures forall i, j | 0 <= i < |t.rows| && 0 <= j < |t.names| ::
      out.rows[i][j] == if IsDateName(t.names[j]) then Coerce(parse, t.rows[i][j]) else t.rows[i][j]
  {
    var rows := t.rows;
    var kinds := t.kinds;
    var j := 0;
    while j < |t.names|
      invariant 0 <= j <= |t.names|
      invariant |rows| == |t.rows| && Rectangular(rows, |t.names|) && |kinds| == |t.names|
      invariant forall c | 0 <= c < |t.names| ::
        kinds[c] == if c < j && IsDateName(t.names[c]) then Temporal else t.kinds[c]
      invariant forall i, c | 0 <= i < |t.rows| && 0 <= c < |t.names| ::
        rows[i][c] == if c < j && IsDateName(t.names[c]) then Coerce(parse, t.rows[i][c]) else t.rows[i][c]
    {
      if IsDateName(t.names[j]) {
        rows := WithColumn(rows, j, CoerceColumn(parse, rows, j));
        kinds := kinds[j := Temporal];
      }
      j := j + 1;
    }
    out := Table(t.names, kinds, rows);
  }

  /** The rule is case-insensitive and matches anywhere in the name. */
  lemma SelectionExamples()
    ensures IsDateName("Updated")
    ensures IsDateName("ORDER_DATE")
    ensures !IsDateName("Day")
  {
    assert OccursAt(Lower("Updated"), "date", 2) by {
      assert Lower("Updated")[2..6] == "date";
    }
    assert OccursAt(Lower("ORDER_DATE"), "date", 6) by {
      assert Lower("ORDER_DATE")[6..10] == "date";
    }
  }
}
