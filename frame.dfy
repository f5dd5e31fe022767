/** The table both agents work on: a pandas DataFrame reduced to what the decisions look at. */
module Frame {

  datatype Option<T> = None | Some(value: T)

  /** One cell: pandas' missing marker (NaN, None or NaT), a number, or a text value.
      Datetime values produced by the date-column step are carried as `Num` timestamps. */
  datatype Cell = Missing | Num(x: real) | Text(s: string)

  /** The dtype class of a column: numeric (`is_numeric_dtype`), object, or datetime64. */
  datatype Kind = Numeric | Textual | Temporal

  type Row = seq<Cell>

  /** Column names, one dtype tag per column, and the rows in index order. */
  datatype Table = Table(names: seq<string>, kinds: seq<Kind>, rows: seq<Row>)

  predicate Rectangular(rows: seq<Row>, width: nat) {
    forall i | 0 <= i < |rows| :: |rows[i]| == width
  }

  /** pandas' CSV reader renames repeated headers, so column names are distinct. */
  predicate DistinctNames(names: seq<string>) {
    forall i, j | 0 <= i < j < |names| :: names[i] != names[j]
  }

  /** Only an object column can hold text. */
  predicate KindsRespected(kinds: seq<Kind>, rows: seq<Row>)
    requires Rectangular(rows, |kinds|)
  {
    forall i, j | 0 <= i < |rows| && 0 <= j < |kinds| :: rows[i][j].Text? ==> kinds[j] == Textual
  }

  predicate WellFormed(t: Table) {
    && |t.kinds| == |t.names|
    && DistinctNames(t.names)
    && Rectangular(t.rows, |t.names|)
    && KindsRespected(t.kinds, t.rows)
  }

  /** Column `j` read top to bottom (`df[col]`). */
  function Column(rows: seq<Row>, j: nat): (c: seq<Cell>)
    requires forall i | 0 <= i < |rows| :: j < |rows[i]|
    ensures |c| == |rows|
    ensures forall i | 0 <= i < |rows| :: c[i] == rows[i][j]
  {
    seq(|rows|, i requires 0 <= i < |rows| => rows[i][j])
  }

  /** Number of missing cells (`isna().sum()`). */
  function CountMissing(cells: seq<Cell>): nat
  {
    if cells == [] then 0 else (if cells[0].Missing? then 1 else 0) + CountMissing(cells[1..])
  }

  /** The non-missing cells in order (`dropna()`). */
  function Present(cells: seq<Cell>): (p: seq<Cell>)
    ensures |p| + CountMissing(cells) == |cells|
    ensures forall c | c in p :: c in cells && !c.Missing?
    ensures forall c | c in cells && !c.Missing? :: c in p
  {
    if cells == [] then []
    else if cells[0].Missing? then Present(cells[1..])
    else [cells[0]] + Present(cells[1..])
  }

  /** The numbers of a column in order; for a numeric column these are exactly its present values. */
  function Numbers(cells: seq<Cell>): seq<real>
  {
    if cells == [] then []
    else if cells[0].Num? then [cells[0].x] + Numbers(cells[1..])
    else Numbers(cells[1..])
  }

  lemma {:induction false} NoMissingCount(cells: seq<Cell>)
    ensures CountMissing(cells) == 0 <==> forall i | 0 <= i < |cells| :: !cells[i].Missing?
  {
    if cells != [] {
      NoMissingCount(cells[1..]);
      assert forall i | 1 <= i < |cells| :: cells[1..][i - 1] == cells[i];
    }
  }

  function Count<T(==)>(s: seq<T>, x: T): (n: nat)
    ensures n <= |s|
    ensures n > 0 <==> x in s
  {
    if s == [] then 0 else (if s[0] == x then 1 else 0) + Count(s[1..], x)
  }

  function Elements<T>(s: seq<T>): set<T> {
    set x | x in s
  }

  lemma {:induction false} ElementsBound<T>(s: seq<T>)
    ensures |Elements(s)| <= |s|
  {
    if s != [] {
      ElementsBound(s[1..]);
      assert Elements(s) == Elements(s[1..]) + {s[0]};
    }
  }

  /** A dictionary keyed by column name, built column by column: column `c` before `j`
      contributes the entry `names[c]: vals[c]` when it has a value. */
  function KeyedBelow<V>(names: seq<string>, vals: seq<Option<V>>, j: nat): (m: map<string, V>)
    requires |vals| == |names| && DistinctNames(names) && j <= |names|
    ensures forall c | 0 <= c < |names| :: names[c] in m <==> c < j && vals[c].Some?
    ensures forall c | 0 <= c < |names| && names[c] in m :: m[names[c]] == vals[c].value
  {
    if j == 0 then map[]
    else
      var m := KeyedBelow(names, vals, j - 1);
      match vals[j - 1]
      case None => m
      case Some(v) => m[names[j - 1] := v]
  }

  /** Every key is one of the first `j` names. */
  lemma {:induction false} KeyedBelowKeys<V>(names: seq<string>, vals: seq<Option<V>>, j: nat)
    requires |vals| == |names| && DistinctNames(names) && j <= |names|
    ensures forall k | k in KeyedBelow(names, vals, j) :: k in names[..j]
  {
    if j > 0 {
      KeyedBelowKeys(names, vals, j - 1);
      assert names[..j] == names[..j - 1] + [names[j - 1]];
    }
  }

  /** The dictionary over all columns. */
  function Keyed<V>(names: seq<string>, vals: seq<Option<V>>): (m: map<string, V>)
    requires |vals| == |names| && DistinctNames(names)
    ensures forall k | k in m :: k in names
    ensures forall c | 0 <= c < |names| :: names[c] in m <==> vals[c].Some?
    ensures forall c | 0 <= c < |names| && names[c] in m :: m[names[c]] == vals[c].value
  {
    KeyedBelowKeys(names, vals, |names|);
    assert names[..|names|] == names;
    KeyedBelow(names, vals, |names|)
  }

  /** The positions before `j` that hold a value, in order. */
  function Positions<V>(vals: seq<Option<V>>, j: nat): (cols: seq<nat>)
    requires j <= |vals|
    ensures forall k | 0 <= k < |cols| :: cols[k] < j && vals[cols[k]].Some?
    ensures forall k, l | 0 <= k < l < |cols| :: cols[k] < cols[l]
  {
    if j == 0 then [] else Positions(vals, j - 1) + (if vals[j - 1].Some? then [j - 1] else [])
  }

  lemma {:induction false} PositionsExact<V>(vals: seq<Option<V>>, j: nat, c: nat)
    requires j <= |vals|
    ensures c in Positions(vals, j) <==> c < j && vals[c].Some?
  {
    if j > 0 {
      PositionsExact(vals, j - 1, c);
    }
  }

  /** The values before `j`, in order, skipping the positions without one (a list built by
      appending inside a loop). */
  function ValuesBelow<V>(vals: seq<Option<V>>, j: nat): seq<V>
    requires j <= |vals|
  {
    if j == 0 then []
    else ValuesBelow(vals, j - 1) + (if vals[j - 1].Some? then [vals[j - 1].value] else [])
  }

  /** At most one value per position is kept. */
  lemma {:induction false} ValuesBelowLength<V>(vals: seq<Option<V>>, j: nat)
    requires j <= |vals|
    ensures |ValuesBelow(vals, j)| <= j
  {
    if j > 0 {
      ValuesBelowLength(vals, j - 1);
    }
  }

  /** Two lists built over the same positions, where no position contributes to both, hold at
      most one value per position between them. */
  lemma {:induction false} DisjointValuesBelowLength<V, W>(a: seq<Option<V>>, b: seq<Option<W>>, j: nat)
    requires j <= |a| && j <= |b|
    requires forall c | 0 <= c < j :: a[c].None? || b[c].None?
    ensures |ValuesBelow(a, j)| + |ValuesBelow(b, j)| <= j
  {
    if j > 0 {
      DisjointValuesBelowLength(a, b, j - 1);
    }
  }

  /** The `k`-th value kept is the value at the `k`-th position holding one. */
  lemma {:induction false} ValuesBelowAt<V>(vals: seq<Option<V>>, j: nat)
    requires j <= |vals|
    ensures |ValuesBelow(vals, j)| == |Positions(vals, j)|
    ensures forall k | 0 <= k < |ValuesBelow(vals, j)| ::
      ValuesBelow(vals, j)[k] == vals[Positions(vals, j)[k]].value
  {
    if j > 0 {
      ValuesBelowAt(vals, j - 1);
    }
  }

  /** A value is kept exactly when some position before `j` holds it. */
  lemma {:induction false} ValuesBelowContains<V>(vals: seq<Option<V>>, j: nat, x: V)
    requires j <= |vals|
    ensures x in ValuesBelow(vals, j) <==> exists c | 0 <= c < j :: vals[c] == Some(x)
  {
    if j > 0 {
      ValuesBelowContains(vals, j - 1, x);
      if vals[j - 1] == Some(x) {
        assert x in ValuesBelow(vals, j);
      }
    }
  }

  /** A list built by appending inside a `for` loop over positions `0 .. n-1`: position `j`
      contributes `entry(j)` when it has one. */
  method CollectValues<V>(n: nat, entry: int -> Option<V>) returns (out: seq<V>)
    ensures out == ValuesBelow(seq(n, entry), n)
  {
    ghost var vals := seq(n, entry);
    out := [];
    var j := 0;
    while j < n
      invariant 0 <= j <= n
      invariant out == ValuesBelow(vals, j)
    {
      var e := entry(j);
      if e.Some? {
        out := out + [e.value];
      }
      j := j + 1;
    }
  }
}
