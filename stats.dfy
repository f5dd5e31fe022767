/** The statistics pandas computes for the agents: mean, median, linear-interpolation
    quantiles and the mode, over exact reals. */
module Stats {
  import opened Frame

  function Sum(xs: seq<real>): real {
    if xs == [] then 0.0 else xs[0] + Sum(xs[1..])
  }

  /** `Series.mean(skipna=True)` over the present numbers: the value that, taken once per
      element, adds up to the sum, and so lies between any bounds of the values. */
  function Mean(xs: seq<real>): (m: real)
    requires |xs| > 0
    ensures m * |xs| as real == Sum(xs)
    ensures forall lo, hi | AllWithin(xs, lo, hi) :: lo <= m <= hi
  {
    QuotientWithinAll(xs);
    Sum(xs) / |xs| as real
  }

  predicate AllWithin(xs: seq<real>, lo: real, hi: real) {
    forall i | 0 <= i < |xs| :: lo <= xs[i] <= hi
  }

  lemma {:induction false} SumWithin(xs: seq<real>, lo: real, hi: real)
    requires AllWithin(xs, lo, hi)
    ensures |xs| as real * lo <= Sum(xs) <= |xs| as real * hi
  {
    if xs != [] {
      assert AllWithin(xs[1..], lo, hi) by {
        forall i | 0 <= i < |xs| - 1 ensures lo <= xs[1..][i] <= hi {
          assert xs[1..][i] == xs[i + 1];
        }
      }
      SumWithin(xs[1..], lo, hi);
      assert |xs| as real * lo == (|xs| - 1) as real * lo + lo;
      assert |xs| as real * hi == (|xs| - 1) as real * hi + hi;
    }
  }

  /** The sum divided by the count lies between any bounds of the values. */
  lemma QuotientWithin(xs: seq<real>, lo: real, hi: real)
    requires |xs| > 0 && AllWithin(xs, lo, hi)
    ensures lo <= Sum(xs) / |xs| as real <= hi
  {
    SumWithin(xs, lo, hi);
    var n := |xs| as real;
    var t := Sum(xs);
    DivideWithin(t, n, lo, hi);
  }

  lemma DivideWithin(t: real, n: real, lo: real, hi: real)
    requires n > 0.0 && n * lo <= t <= n * hi
    ensures lo <= t / n <= hi
  {
    assert t / n - lo == (t - n * lo) / n;
    assert hi - t / n == (n * hi - t) / n;
  }

  lemma QuotientWithinAll(xs: seq<real>)
    requires |xs| > 0
    ensures forall lo, hi | AllWithin(xs, lo, hi) :: lo <= Sum(xs) / |xs| as real <= hi
  {
    forall lo, hi | AllWithin(xs, lo, hi) ensures lo <= Sum(xs) / |xs| as real <= hi {
      QuotientWithin(xs, lo, hi);
    }
  }

  predicate SortedReals(s: seq<real>) {
    forall i, j | 0 <= i < j < |s| :: s[i] <= s[j]
  }

  function Insert(x: real, s: seq<real>): (r: seq<real>)
    ensures multiset(r) == multiset(s) + multiset{x}
    ensures |r| == |s| + 1
  {
    if s == [] || x <= s[0] then [x] + s
    else
      assert multiset(s) == multiset{s[0]} + multiset(s[1..]) by { assert s == [s[0]] + s[1..]; }
      [s[0]] + Insert(x, s[1..])
  }

  lemma {:induction false} InsertSorted(x: real, s: seq<real>, b: real)
    requires SortedReals(s)
    requires b <= x && forall i | 0 <= i < |s| :: b <= s[i]
    ensures SortedReals(Insert(x, s))
    ensures forall i | 0 <= i < |Insert(x, s)| :: b <= Insert(x, s)[i]
  {
    var r := Insert(x, s);
    if s == [] || x <= s[0] {
      assert r == [x] + s;
    } else {
      var t := Insert(x, s[1..]);
      InsertSorted(x, s[1..], s[0]);
      assert r == [s[0]] + t;
      forall i, j | 0 <= i < j < |r| ensures r[i] <= r[j] {
        if i > 0 {
          assert r[i] == t[i - 1] && r[j] == t[j - 1];
        } else {
          assert r[j] == t[j - 1];
        }
      }
    }
  }

  /** The present numbers in ascending order. */
  function SortReals(s: seq<real>): (r: seq<real>)
    ensures SortedReals(r)
    ensures multiset(r) == multiset(s)
    ensures |r| == |s|
  {
    if s == [] then []
    else
      assert multiset(s) == multiset{s[0]} + multiset(s[1..]) by { assert s == [s[0]] + s[1..]; }
      var t := SortReals(s[1..]);
      var m := if t == [] || s[0] <= t[0] then s[0] else t[0];
      InsertSorted(s[0], t, m);
      Insert(s[0], t)
  }

  lemma {:induction false} SortOfSorted(s: seq<real>)
    requires SortedReals(s)
    ensures SortReals(s) == s
  {
    if s != [] {
      SortOfSorted(s[1..]);
    }
  }

  function CountAtMost(xs: seq<real>, m: real): nat {
    if xs == [] then 0 else (if xs[0] <= m then 1 else 0) + CountAtMost(xs[1..], m)
  }

  function CountAtLeast(xs: seq<real>, m: real): nat {
    if xs == [] then 0 else (if xs[0] >= m then 1 else 0) + CountAtLeast(xs[1..], m)
  }

  lemma {:induction false} InsertCounts(x: real, s: seq<real>, m: real)
    requires SortedReals(s)
    ensures CountAtMost(Insert(x, s), m) == CountAtMost(s, m) + (if x <= m then 1 else 0)
    ensures CountAtLeast(Insert(x, s), m) == CountAtLeast(s, m) + (if x >= m then 1 else 0)
  {
    if s == [] || x <= s[0] {
      assert Insert(x, s)[1..] == s;
    } else {
      InsertCounts(x, s[1..], m);
      assert Insert(x, s)[1..] == Insert(x, s[1..]);
    }
  }

  lemma {:induction false} SortCounts(s: seq<real>, m: real)
    ensures CountAtMost(SortReals(s), m) == CountAtMost(s, m)
    ensures CountAtLeast(SortReals(s), m) == CountAtLeast(s, m)
  {
    if s != [] {
      SortCounts(s[1..], m);
      InsertCounts(s[0], SortReals(s[1..]), m);
    }
  }

  lemma {:induction false} SortedPrefixAtMost(s: seq<real>, k: nat, m: real)
    requires SortedReals(s) && k < |s| && s[k] <= m
    ensures CountAtMost(s, m) >= k + 1
  {
    if k > 0 {
      SortedPrefixAtMost(s[1..], k - 1, m);
    }
  }

  lemma {:induction false} SortedSuffixAtLeast(s: seq<real>, k: nat, m: real)
    requires SortedReals(s) && k < |s| && s[k] >= m
    ensures CountAtLeast(s, m) >= |s| - k
  {
    if k > 0 {
      SortedSuffixAtLeast(s[1..], k - 1, m);
    } else if |s| > 1 {
      SortedSuffixAtLeast(s[1..], 0, m);
    }
  }

  /** The middle element of a sorted sequence, or the mean of its two middle elements. */
  function Middle(s: seq<real>): real
    requires |s| > 0
  {
    var n := |s|;
    if n % 2 == 1 then s[n / 2] else (s[n / 2 - 1] + s[n / 2]) / 2.0
  }

  /** At least half of the values lie at or below the median, and at least half at or above. */
  predicate IsMedianOf(xs: seq<real>, m: real) {
    2 * CountAtMost(xs, m) >= |xs| && 2 * CountAtLeast(xs, m) >= |xs|
  }

  /** `Series.median()`: the 0.5 quantile, which splits the values in half. */
  function Median(xs: seq<real>): (m: real)
    requires |xs| > 0
    ensures IsMedianOf(xs, m)
    ensures m == Quantile(xs, 0.5)
  {
    MiddleSplits(xs);
    MiddleIsHalfQuantile(SortReals(xs));
    Middle(SortReals(xs))
  }

  /** The middle of sorted values has at least half of them on each side. */
  lemma MiddleSplitsSorted(s: seq<real>)
    requires |s| > 0 && SortedReals(s)
    ensures IsMedianOf(s, Middle(s))
  {
    var n := |s|;
    var m := Middle(s);
    if n % 2 == 1 {
      assert m == s[n / 2];
      SortedPrefixAtMost(s, n / 2, m);
      SortedSuffixAtLeast(s, n / 2, m);
    } else {
      assert m == (s[n / 2 - 1] + s[n / 2]) / 2.0;
      assert s[n / 2 - 1] <= s[n / 2];
      SortedPrefixAtMost(s, n / 2 - 1, m);
      SortedSuffixAtLeast(s, n / 2, m);
    }
  }

  lemma MiddleSplits(xs: seq<real>)
    requires |xs| > 0
    ensures IsMedianOf(xs, Middle(SortReals(xs)))
  {
    var s := SortReals(xs);
    MiddleSplitsSorted(s);
    SortCounts(xs, Middle(s));
  }

  lemma ScaleWithin(a: real, q: real)
    requires a >= 0.0 && 0.0 <= q <= 1.0
    ensures 0.0 <= a * q <= a
  {
  }

  lemma FloorBounds(p: real)
    requires p >= 0.0
    ensures 0 <= p.Floor
    ensures p.Floor as real <= p < p.Floor as real + 1.0
  {
  }

  /** The value at fractional position `pos` of the sorted `s`, interpolated linearly
      between its two neighbours. */
  function Interpolate(s: seq<real>, pos: real): real
    requires 0.0 <= pos <= (|s| - 1) as real
  {
    FloorBounds(pos);
    var lo := pos.Floor;
    var hi := if lo + 1 < |s| then lo + 1 else lo;
    s[lo] + (pos - lo as real) * (s[hi] - s[lo])
  }

  /** `Series.quantile(q)` with pandas' default linear interpolation: position (n-1)*q in the
      sorted values. */
  function Quantile(xs: seq<real>, q: real): (v: real)
    requires |xs| > 0 && 0.0 <= q <= 1.0
    ensures forall lo, hi | AllWithin(xs, lo, hi) :: lo <= v <= hi
  {
    QuantileWithinAll(xs, q);
    QuantileOfSorted(SortReals(xs), q)
  }

  function QuantileOfSorted(s: seq<real>, q: real): real
    requires |s| > 0 && 0.0 <= q <= 1.0
  {
    var a := (|s| - 1) as real;
    ScaleWithin(a, q);
    Interpolate(s, a * q)
  }

  /** Sorting keeps every bound of the values. */
  lemma SortWithin(xs: seq<real>, lo: real, hi: real)
    requires AllWithin(xs, lo, hi)
    ensures AllWithin(SortReals(xs), lo, hi)
  {
    var s := SortReals(xs);
    forall i | 0 <= i < |s| ensures lo <= s[i] <= hi {
      assert s[i] in multiset(s);
      assert s[i] in xs;
    }
  }

  /** A value interpolated between two neighbours lies between any bounds of the values. */
  lemma InterpolateWithin(s: seq<real>, pos: real, lo: real, hi: real)
    requires SortedReals(s) && 0.0 <= pos <= (|s| - 1) as real && AllWithin(s, lo, hi)
    ensures lo <= Interpolate(s, pos) <= hi
  {
    InterpolateBetween(s, pos);
    var l := pos.Floor;
    var h := if l + 1 < |s| then l + 1 else l;
    assert lo <= s[l] && s[h] <= hi;
  }

  /** A quantile of sorted values lies between any bounds of them. */
  lemma QuantileOfSortedWithin(s: seq<real>, q: real, lo: real, hi: real)
    requires |s| > 0 && 0.0 <= q <= 1.0 && SortedReals(s) && AllWithin(s, lo, hi)
    ensures lo <= QuantileOfSorted(s, q) <= hi
  {
    var a := (|s| - 1) as real;
    ScaleWithin(a, q);
    InterpolateWithin(s, a * q, lo, hi);
  }

  lemma QuantileWithinAll(xs: seq<real>, q: real)
    requires |xs| > 0 && 0.0 <= q <= 1.0
    ensures forall lo, hi | AllWithin(xs, lo, hi) :: lo <= QuantileOfSorted(SortReals(xs), q) <= hi
  {
    forall lo, hi | AllWithin(xs, lo, hi) ensures lo <= QuantileOfSorted(SortReals(xs), q) <= hi {
      SortWithin(xs, lo, hi);
      QuantileOfSortedWithin(SortReals(xs), q, lo, hi);
    }
  }

  lemma MulMonotone(a: real, b: real, d: real)
    requires a <= b && d >= 0.0
    ensures a * d <= b * d
  {
    assert b * d - a * d == (b - a) * d;
  }

  /** The interpolated value lies between its two neighbours. */
  lemma InterpolateBetween(s: seq<real>, pos: real)
    requires SortedReals(s) && 0.0 <= pos <= (|s| - 1) as real
    ensures 0 <= pos.Floor < |s|
    ensures s[pos.Floor] <= Interpolate(s, pos)
    ensures Interpolate(s, pos) <= s[if pos.Floor + 1 < |s| then pos.Floor + 1 else pos.Floor]
  {
    FloorBounds(pos);
    var lo := pos.Floor;
    var hi := if lo + 1 < |s| then lo + 1 else lo;
    var f := pos - lo as real;
    var d := s[hi] - s[lo];
    assert d >= 0.0;
    assert Interpolate(s, pos) == s[lo] + f * d;
    MulMonotone(0.0, f, d);
    MulMonotone(f, 1.0, d);
    assert f * d <= d;
  }

  /** Two positions between the same pair of neighbours. */
  lemma InterpolateSameCell(s: seq<real>, x: real, y: real)
    requires SortedReals(s) && 0.0 <= x <= y <= (|s| - 1) as real && x.Floor == y.Floor
    ensures Interpolate(s, x) <= Interpolate(s, y)
  {
    FloorBounds(x);
    var lo := x.Floor;
    var hi := if lo + 1 < |s| then lo + 1 else lo;
    var d := s[hi] - s[lo];
    var fx := x - lo as real;
    var fy := y - lo as real;
    assert d >= 0.0;
    assert Interpolate(s, x) == s[lo] + fx * d;
    assert Interpolate(s, y) == s[lo] + fy * d;
    MulMonotone(fx, fy, d);
  }

  lemma InterpolateMonotone(s: seq<real>, x: real, y: real)
    requires SortedReals(s) && 0.0 <= x <= y <= (|s| - 1) as real
    ensures Interpolate(s, x) <= Interpolate(s, y)
  {
    FloorBounds(x);
    FloorBounds(y);
    var lx := x.Floor;
    var ly := y.Floor;
    if lx < ly {
      InterpolateBetween(s, x);
      InterpolateBetween(s, y);
      assert lx + 1 < |s|;
      assert s[lx + 1] <= s[ly];
    } else {
      InterpolateSameCell(s, x, y);
    }
  }

  /** Q1 <= Q3, so the inter-quartile range is never negative. */
  lemma QuartilesOrdered(xs: seq<real>)
    requires |xs| > 0
    ensures Quantile(xs, 0.25) <= Quantile(xs, 0.75)
  {
    var s := SortReals(xs);
    var a := (|s| - 1) as real;
    InterpolateMonotone(s, a * 0.25, a * 0.75);
  }

  /** Interpolating at a whole position `k` gives the value there. */
  lemma InterpolateWhole(s: seq<real>, k: nat)
    requires k < |s|
    ensures Interpolate(s, k as real) == s[k]
  {
    assert (k as real).Floor == k;
  }

  /** Interpolating halfway between positions `k` and `k + 1` gives their mean. */
  lemma InterpolateHalf(s: seq<real>, k: nat)
    requires k + 1 < |s|
    ensures Interpolate(s, k as real + 0.5) == (s[k] + s[k + 1]) / 2.0
  {
    assert (k as real + 0.5).Floor == k;
  }

  /** Interpolating at the fraction `f` of the way from position `k` to `k + 1`. */
  lemma InterpolateFraction(s: seq<real>, k: nat, f: real)
    requires k + 1 < |s| && 0.0 <= f < 1.0
    ensures Interpolate(s, k as real + f) == s[k] + f * (s[k + 1] - s[k])
  {
    assert (k as real + f).Floor == k;
  }

  /** The middle of a sequence is what interpolation at its middle position gives. */
  lemma MiddleIsHalfQuantile(s: seq<real>)
    requires |s| > 0
    ensures Middle(s) == QuantileOfSorted(s, 0.5)
  {
    var n := |s|;
    var h := n / 2;
    var pos := (n - 1) as real * 0.5;
    assert QuantileOfSorted(s, 0.5) == Interpolate(s, pos);
    if n % 2 == 1 {
      assert pos == h as real;
      InterpolateWhole(s, h);
    } else {
      assert pos == (h - 1) as real + 0.5;
      InterpolateHalf(s, h - 1);
    }
  }

  /** A total order on cells, used to break ties among modes the way pandas' sorted
      `mode()` does: numbers by value, text by code points, numbers before text. */
  predicate TextLe(a: string, b: string) {
    |a| == 0 || (|b| > 0 && (a[0] < b[0] || (a[0] == b[0] && TextLe(a[1..], b[1..]))))
  }

  lemma TextLeTotal(a: string, b: string)
    ensures TextLe(a, b) || TextLe(b, a)
  {
  }

  lemma TextLeReflexive(a: string)
    ensures TextLe(a, a)
  {
  }

  lemma TextLeTransitive(a: string, b: string, c: string)
    requires TextLe(a, b) && TextLe(b, c)
    ensures TextLe(a, c)
  {
  }

  predicate CellLe(a: Cell, b: Cell) {
    match (a, b)
    case (Missing, _) => true
    case (Num(x), Num(y)) => x <= y
    case (Num(_), Text(_)) => true
    case (Text(x), Text(y)) => TextLe(x, y)
    case _ => false
  }

  lemma CellLeTotal(a: Cell, b: Cell)
    ensures CellLe(a, b) || CellLe(b, a)
  {
    if a.Text? && b.Text? {
      TextLeTotal(a.s, b.s);
    }
  }

  lemma CellLeReflexive(a: Cell)
    ensures CellLe(a, a)
  {
    if a.Text? {
      TextLeReflexive(a.s);
    }
  }

  lemma CellLeTransitive(a: Cell, b: Cell, c: Cell)
    requires CellLe(a, b) && CellLe(b, c)
    ensures CellLe(a, c)
  {
    if a.Text? && b.Text? && c.Text? {
      TextLeTransitive(a.s, b.s, c.s);
    }
  }

  /** `m` is pandas' `mode().iloc[0]` of `vs`: most frequent, and least among equally frequent. */
  ghost predicate IsModeOf(vs: seq<Cell>, m: Cell) {
    && m in vs
    && (forall w | w in vs :: Count(vs, w) <= Count(vs, m))
    && (forall w | w in vs && Count(vs, w) == Count(vs, m) :: CellLe(m, w))
  }

  function MostFrequent(vs: seq<Cell>, cands: seq<Cell>): (m: Cell)
    requires |cands| > 0
    ensures m in cands
    ensures forall w | w in cands ::
      Count(vs, w) < Count(vs, m) || (Count(vs, w) == Count(vs, m) && CellLe(m, w))
  {
    if |cands| == 1 then
      CellLeReflexive(cands[0]);
      cands[0]
    else
      var b := MostFrequent(vs, cands[1..]);
      var c := cands[0];
      if Count(vs, c) > Count(vs, b) || (Count(vs, c) == Count(vs, b) && CellLe(c, b)) then
        assert forall w | w in cands[1..] && Count(vs, w) == Count(vs, c) :: CellLe(c, w) by {
          forall w | w in cands[1..] && Count(vs, w) == Count(vs, c) ensures CellLe(c, w) {
            CellLeTransitive(c, b, w);
          }
        }
        CellLeReflexive(c);
        c
      else
        CellLeTotal(c, b);
        b
  }

  /** `Series.mode().iloc[0]` over the present values, or nothing when the column has none. */
  function Mode(vs: seq<Cell>): (r: Option<Cell>)
    ensures r.None? <==> vs == []
    ensures r.Some? ==> IsModeOf(vs, r.value)
  {
    if vs == [] then None else Some(MostFrequent(vs, vs))
  }
}
