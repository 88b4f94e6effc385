/** The descriptive statistics 3_analysis.py takes from pandas, defined over a column
    of reals: minimum, maximum, mean, sample variance, mode, sorting, quantiles by
    linear interpolation (pandas' default) and frequency counts keyed in ascending
    order. */
module Stats {
  import opened Outcomes
  import opened Seqs

  /** The smallest value of a non-empty column. */
  function Min(xs: seq<real>): (m: real)
    requires xs != []
    ensures m in xs && forall i :: 0 <= i < |xs| ==> m <= xs[i]
  {
    if |xs| == 1 then xs[0]
    else
      var rest := Min(xs[1..]);
      assert forall i :: 1 <= i < |xs| ==> xs[i] == xs[1..][i - 1];
      if xs[0] <= rest then xs[0] else rest
  }

  /** The largest value of a non-empty column. */
  function Max(xs: seq<real>): (m: real)
    requires xs != []
    ensures m in xs && forall i :: 0 <= i < |xs| ==> xs[i] <= m
  {
    if |xs| == 1 then xs[0]
    else
      var rest := Max(xs[1..]);
      assert forall i :: 1 <= i < |xs| ==> xs[i] == xs[1..][i - 1];
      if xs[0] >= rest then xs[0] else rest
  }

  /** max() - min(): never negative. */
  function Range(xs: seq<real>): (r: real)
    requires xs != []
    ensures r >= 0.0
    ensures forall i, j :: 0 <= i < |xs| && 0 <= j < |xs| ==> xs[i] - xs[j] <= r
  {
    Max(xs) - Min(xs)
  }

  /** The arithmetic mean of a non-empty column: between its minimum and maximum. */
  function Mean(xs: seq<real>): (m: real)
    requires xs != []
    ensures Min(xs) <= m <= Max(xs)
  {
    MeanWithin(xs);
    Sum(xs) / |xs| as real
  }

  /** The sum over the count lies between the least and the greatest value. */
  lemma MeanWithin(xs: seq<real>)
    requires xs != []
    ensures Min(xs) <= Sum(xs) / |xs| as real <= Max(xs)
  {
    var lo, hi := Min(xs), Max(xs);
    assert forall i :: 0 <= i < |xs| ==> lo <= xs[i] <= hi;
    SumBounds(xs, lo, hi);
    MeanBounds(Sum(xs), |xs| as real, lo, hi);
  }

  /** The sum of squared deviations from a centre. */
  function SquaredDeviations(xs: seq<real>, centre: real): (d: real)
    ensures d >= 0.0
  {
    if xs == [] then 0.0
    else
      var d := xs[0] - centre;
      assert d * d >= 0.0;
      d * d + SquaredDeviations(xs[1..], centre)
  }

  /** std(ddof=1) before its square root: the sample variance, which pandas leaves
      undefined (NaN) below two values. */
  function SampleVariance(xs: seq<real>): (v: Option<real>)
    ensures v.Some? <==> |xs| >= 2
    ensures v.Some? ==> v.value >= 0.0
  {
    if |xs| < 2 then None
    else Some(SquaredDeviations(xs, Mean(xs)) / (|xs| - 1) as real)
  }

  /** How often v occurs in the column. */
  function Count<T(==)>(xs: seq<T>, v: T): nat {
    multiset(xs)[v]
  }

  /** A value among `candidates` that occurs most often in xs, the smallest such. */
  function ModeAmong(xs: seq<real>, candidates: seq<real>): (m: real)
    requires candidates != []
    ensures m in candidates
    ensures forall i :: 0 <= i < |candidates| ==>
      Count(xs, candidates[i]) < Count(xs, m)
      || (Count(xs, candidates[i]) == Count(xs, m) && m <= candidates[i])
  {
    if |candidates| == 1 then candidates[0]
    else
      var c := candidates[0];
      var best := ModeAmong(xs, candidates[1..]);
      assert forall i :: 1 <= i < |candidates| ==> candidates[i] == candidates[1..][i - 1];
      if Count(xs, c) > Count(xs, best) || (Count(xs, c) == Count(xs, best) && c <= best) then c
      else best
  }

  /** mode().iloc[0]: pandas lists the most frequent values in ascending order, so
      the first is the smallest value of highest count. */
  function Mode(xs: seq<real>): (m: real)
    requires xs != []
    ensures m in xs
    ensures forall i :: 0 <= i < |xs| ==> Count(xs, xs[i]) <= Count(xs, m)
    ensures forall i :: 0 <= i < |xs| && Count(xs, xs[i]) == Count(xs, m) ==> m <= xs[i]
  {
    ModeAmong(xs, xs)
  }

  predicate Ascending(s: seq<real>) {
    forall i, j :: 0 <= i < j < |s| ==> s[i] <= s[j]
  }

  /** The tail of an ascending column is ascending. */
  lemma AscendingTail(s: seq<real>)
    requires Ascending(s) && s != []
    ensures Ascending(s[1..])
  {
    forall i, j | 0 <= i < j < |s[1..]| ensures s[1..][i] <= s[1..][j] {
      assert s[1..][i] == s[i + 1] && s[1..][j] == s[j + 1];
    }
  }

  /** An ascending column with a value no greater than its first put in front. */
  lemma AscendingCons(h: real, rest: seq<real>)
    requires Ascending(rest) && (rest != [] ==> h <= rest[0])
    ensures Ascending([h] + rest)
  {
    var r := [h] + rest;
    forall i, j | 0 <= i < j < |r| ensures r[i] <= r[j] {
      if i > 0 {
        assert r[i] == rest[i - 1] && r[j] == rest[j - 1];
      } else {
        assert r[j] == rest[j - 1];
      }
    }
  }

  /** x put into an ascending column at its place. */
  function InsertAscending(s: seq<real>, x: real): (r: seq<real>)
    requires Ascending(s)
    ensures Ascending(r) && multiset(r) == multiset(s) + multiset{x} && |r| == |s| + 1
    ensures r[0] == (if s == [] || x <= s[0] then x else s[0])
  {
    if s == [] then [x]
    else if x <= s[0] then
      AscendingCons(x, s);
      [x] + s
    else
      AscendingTail(s);
      var rest := InsertAscending(s[1..], x);
      ConsMultiset(s, rest, x);
      AscendingCons(s[0], rest);
      [s[0]] + rest
  }

  /** The column in ascending order: sorted and a permutation of the input. */
  function Sort(xs: seq<real>): (s: seq<real>)
    ensures Ascending(s) && multiset(s) == multiset(xs) && |s| == |xs|
  {
    if xs == [] then []
    else
      var init := xs[..|xs| - 1];
      assert xs == init + [xs[|xs| - 1]];
      InsertAscending(Sort(init), xs[|xs| - 1])
  }

  lemma MulNonNegative(x: real, y: real)
    requires x >= 0.0 && y >= 0.0
    ensures x * y >= 0.0
  {
  }

  lemma MulMonotone(f1: real, f2: real, d: real)
    requires f1 <= f2 && d >= 0.0
    ensures f1 * d <= f2 * d
  {
    MulNonNegative(f2 - f1, d);
    assert (f2 - f1) * d == f2 * d - f1 * d;
  }

  /** A fraction q of the way from 0 to m. */
  lemma ScaleWithin(q: real, m: real)
    requires 0.0 <= q <= 1.0 && m >= 0.0
    ensures 0.0 <= q * m <= m
  {
    MulNonNegative(q, m);
    MulNonNegative(1.0 - q, m);
    assert (1.0 - q) * m == m - q * m;
  }

  /** A fraction f of the way from x to y lies between them. */
  lemma LerpBounds(x: real, y: real, f: real)
    requires x <= y && 0.0 <= f <= 1.0
    ensures x <= x + f * y - f * x <= y
  {
    MulNonNegative(f, y - x);
    MulNonNegative(1.0 - f, y - x);
    assert f * (y - x) == f * y - f * x;
    assert (1.0 - f) * (y - x) == y - x - f * y + f * x;
  }

  /** A larger fraction of the way from x to y lands no nearer x. */
  lemma LerpMonotone(x: real, y: real, f1: real, f2: real)
    requires x <= y && f1 <= f2
    ensures x + f1 * y - f1 * x <= x + f2 * y - f2 * x
  {
    MulNonNegative(f2 - f1, y - x);
    assert (f2 - f1) * (y - x) == f2 * y - f2 * x - f1 * y + f1 * x;
  }

  /** The value a fraction frac of the way from s[lo] to the next value, or s[lo]
      itself at the end of the column. */
  function Interpolate(s: seq<real>, lo: nat, frac: real): (r: real)
    requires lo < |s| && Ascending(s) && 0.0 <= frac < 1.0
    ensures s[lo] <= r && (lo + 1 < |s| ==> r <= s[lo + 1]) && (lo + 1 == |s| ==> r == s[lo])
  {
    if lo + 1 < |s| then
      LerpBounds(s[lo], s[lo + 1], frac);
      s[lo] + frac * s[lo + 1] - frac * s[lo]
    else s[lo]
  }

  /** A position from 0 to last split into its whole and fractional parts. */
  function Position(last: nat, pos: real): (p: (nat, real))
    requires 0.0 <= pos <= last as real
    ensures p.0 <= last && 0.0 <= p.1 < 1.0 && p.0 as real + p.1 == pos
  {
    var lo := pos.Floor;
    (lo, pos - lo as real)
  }

  /** The position q * last of the q-quantile in a column whose last index is
      last, split into its whole and fractional parts. */
  function QuantilePosition(last: nat, q: real): (p: (nat, real))
    requires 0.0 <= q <= 1.0
    ensures p.0 <= last && 0.0 <= p.1 < 1.0 && p.0 as real + p.1 == q * last as real
  {
    ScaleWithin(q, last as real);
    Position(last, q * last as real)
  }

  /** The index of the last value of a non-empty column. */
  function LastIndex(s: seq<real>): (last: nat)
    requires s != []
    ensures last < |s| && last + 1 == |s|
  {
    |s| - 1
  }

  /** The quantile at q of an ascending column by linear interpolation: the value at
      position q * (n - 1), interpolated between its two neighbours. */
  function QuantileOfSorted(s: seq<real>, q: real): (r: real)
    requires s != [] && Ascending(s) && 0.0 <= q <= 1.0
    ensures s[0] <= r <= s[|s| - 1]
  {
    var p := QuantilePosition(LastIndex(s), q);
    Interpolate(s, p.0, p.1)
  }

  /** Series.quantile(q): the quantile of the sorted column; it lies between the
      column's minimum and maximum. */
  function Quantile(xs: seq<real>, q: real): (r: real)
    requires xs != [] && 0.0 <= q <= 1.0
    ensures Min(xs) <= r <= Max(xs)
  {
    var s := Sort(xs);
    assert s[0] in multiset(xs) && s[|s| - 1] in multiset(xs);
    QuantileOfSorted(s, q)
  }

  /** median(): the quantile at one half, the middle value or the mean of the two
      middle values. */
  function Median(xs: seq<real>): (r: real)
    requires xs != []
    ensures Min(xs) <= r <= Max(xs)
  {
    Quantile(xs, 0.5)
  }

  /** Of two positions split into whole and fractional parts, the later one has a
      whole part no smaller, and with the same whole part a fractional part no
      smaller. */
  lemma SplitMonotone(a: (nat, real), x: real, b: (nat, real), y: real)
    requires 0.0 <= a.1 < 1.0 && 0.0 <= b.1 < 1.0
    requires a.0 as real + a.1 == x && b.0 as real + b.1 == y && x <= y
    ensures a.0 < b.0 || (a.0 == b.0 && a.1 <= b.1)
  {
  }

  /** Interpolation moves forward with the position. */
  lemma InterpolateMonotone(s: seq<real>, lo1: nat, f1: real, lo2: nat, f2: real)
    requires lo1 < |s| && lo2 < |s| && Ascending(s) && 0.0 <= f1 < 1.0 && 0.0 <= f2 < 1.0
    requires lo1 < lo2 || (lo1 == lo2 && f1 <= f2)
    ensures Interpolate(s, lo1, f1) <= Interpolate(s, lo2, f2)
  {
    if lo1 == lo2 {
      if lo1 + 1 < |s| {
        LerpMonotone(s[lo1], s[lo1 + 1], f1, f2);
      }
    } else {
      assert Interpolate(s, lo1, f1) <= s[lo1 + 1] <= s[lo2] <= Interpolate(s, lo2, f2);
    }
  }

  /** The quantile position moves forward with q. */
  lemma QuantilePositionMonotone(last: nat, p: real, q: real)
    requires 0.0 <= p <= q <= 1.0
    ensures QuantilePosition(last, p).0 < QuantilePosition(last, q).0
      || (QuantilePosition(last, p).0 == QuantilePosition(last, q).0
          && QuantilePosition(last, p).1 <= QuantilePosition(last, q).1)
  {
    var m := last as real;
    MulMonotone(p, q, m);
    var x, y := p * m, q * m;
    assert x <= y;
    var a, b := QuantilePosition(last, p), QuantilePosition(last, q);
    SplitMonotone(a, x, b, y);
  }

  /** On an ascending column, a higher q never gives a lower quantile. */
  lemma QuantileOfSortedMonotone(s: seq<real>, p: real, q: real)
    requires s != [] && Ascending(s) && 0.0 <= p <= q <= 1.0
    ensures QuantileOfSorted(s, p) <= QuantileOfSorted(s, q)
  {
    QuantilePositionMonotone(LastIndex(s), p, q);
    var a, b := QuantilePosition(LastIndex(s), p), QuantilePosition(LastIndex(s), q);
    InterpolateMonotone(s, a.0, a.1, b.0, b.1);
  }

  /** A higher q never gives a lower quantile. */
  lemma QuantileMonotone(xs: seq<real>, p: real, q: real)
    requires xs != [] && 0.0 <= p <= q <= 1.0
    ensures Quantile(xs, p) <= Quantile(xs, q)
  {
    QuantileOfSortedMonotone(Sort(xs), p, q);
  }

  /** A frequency table: values with their counts. */
  type Table = seq<(real, nat)>

  predicate KeysAscending(t: Table) {
    forall i, j :: 0 <= i < j < |t| ==> t[i].0 < t[j].0
  }

  /** The count a table records for v, 0 when v is no key. */
  function CountIn(t: Table, v: real): nat {
    if t == [] then 0 else (if t[0].0 == v then t[0].1 else 0) + CountIn(t[1..], v)
  }

  /** The sum of all counts. */
  function Total(t: Table): nat {
    if t == [] then 0 else t[0].1 + Total(t[1..])
  }

  /** Every recorded count is positive. */
  predicate Positive(t: Table) {
    forall i :: 0 <= i < |t| ==> t[i].1 > 0
  }

  /** The tail of a table keeps ascending keys and positive counts, and its keys
      all exceed the head's. */
  lemma KeysTail(t: Table)
    requires KeysAscending(t) && t != []
    ensures KeysAscending(t[1..])
    ensures |t| > 1 ==> t[0].0 < t[1].0
    ensures Positive(t) ==> Positive(t[1..])
  {
    forall i, j | 0 <= i < j < |t[1..]| ensures t[1..][i].0 < t[1..][j].0 {
      assert t[1..][i] == t[i + 1] && t[1..][j] == t[j + 1];
    }
    if Positive(t) {
      forall i | 0 <= i < |t[1..]| ensures t[1..][i].1 > 0 {
        assert t[1..][i] == t[i + 1];
      }
    }
  }

  /** A table with ascending keys and a smaller key put in front. */
  lemma KeysCons(h: (real, nat), rest: Table)
    requires KeysAscending(rest) && (rest != [] ==> h.0 < rest[0].0)
    ensures KeysAscending([h] + rest)
  {
    var r := [h] + rest;
    forall i, j | 0 <= i < j < |r| ensures r[i].0 < r[j].0 {
      if i > 0 {
        assert r[i] == rest[i - 1] && r[j] == rest[j - 1];
      } else {
        assert r[j] == rest[j - 1];
      }
    }
  }

  /** With ascending keys, the count of a key is the count listed beside it. */
  lemma {:induction false} CountAtKey(t: Table, i: nat)
    requires KeysAscending(t) && i < |t|
    ensures CountIn(t, t[i].0) == t[i].1
  {
    if i == 0 {
      CountAbsent(t[1..], t[0].0);
    } else {
      CountAtKey(t[1..], i - 1);
    }
  }

  /** A value below every key has no count. */
  lemma {:induction false} CountAbsent(t: Table, v: real)
    requires KeysAscending(t) && forall i :: 0 <= i < |t| ==> v < t[i].0
    ensures CountIn(t, v) == 0
  {
    if t != [] {
      CountAbsent(t[1..], v);
    }
  }

  /** Counting in a table with one more entry in front. */
  lemma CountCons(h: (real, nat), rest: Table)
    ensures forall v :: CountIn([h] + rest, v) == (if h.0 == v then h.1 else 0) + CountIn(rest, v)
    ensures Total([h] + rest) == h.1 + Total(rest)
  {
    assert ([h] + rest)[1..] == rest;
  }

  /** One more occurrence of x recorded, keeping the keys ascending. */
  function Bump(t: Table, x: real): (r: Table)
    requires KeysAscending(t)
    ensures KeysAscending(r) && Total(r) == Total(t) + 1
    ensures r != [] && r[0].0 == (if t == [] || x < t[0].0 then x else t[0].0)
    ensures forall v :: CountIn(r, v) == CountIn(t, v) + (if v == x then 1 else 0)
    ensures Positive(t) ==> Positive(r)
  {
    if t == [] then [(x, 1)]
    else
      assert t == [t[0]] + t[1..];
      KeysTail(t);
      CountCons(t[0], t[1..]);
      if x < t[0].0 then
        CountCons((x, 1), t);
        KeysCons((x, 1), t);
        [(x, 1)] + t
      else if x == t[0].0 then
        CountCons((x, t[0].1 + 1), t[1..]);
        KeysCons((x, t[0].1 + 1), t[1..]);
        [(x, t[0].1 + 1)] + t[1..]
      else
        var rest := Bump(t[1..], x);
        CountCons(t[0], rest);
        KeysCons(t[0], rest);
        [t[0]] + rest
  }

  /** value_counts(): the count of each value, tallied in column order. */
  function Tally(xs: seq<real>): (t: Table)
    ensures KeysAscending(t) && Positive(t) && Total(t) == |xs|
    ensures forall v :: CountIn(t, v) == Count(xs, v)
  {
    if xs == [] then []
    else
      var init := xs[..|xs| - 1];
      assert xs == init + [xs[|xs| - 1]];
      Bump(Tally(init), xs[|xs| - 1])
  }

  /** value_counts().sort_index(): each value of the column listed once, in
      ascending order, beside the number of rows holding it, and nothing else
      listed. */
  lemma TallyCounts(xs: seq<real>)
    ensures KeysAscending(Tally(xs)) && Total(Tally(xs)) == |xs|
    ensures forall i :: 0 <= i < |Tally(xs)| ==>
      Tally(xs)[i].0 in xs && Tally(xs)[i].1 == Count(xs, Tally(xs)[i].0)
    ensures forall i :: 0 <= i < |xs| ==> CountIn(Tally(xs), xs[i]) == Count(xs, xs[i]) > 0
  {
    var t := Tally(xs);
    forall i | 0 <= i < |t| ensures t[i].0 in xs && t[i].1 == Count(xs, t[i].0) {
      CountAtKey(t, i);
    }
    forall i | 0 <= i < |xs| ensures CountIn(t, xs[i]) == Count(xs, xs[i]) > 0 {
      assert xs[i] in multiset(xs);
    }
  }
}
