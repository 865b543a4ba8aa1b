/** Multiple-testing correction of a vector of p-values: the
    Benjamini-Hochberg step-up procedure the expander uses, and the
    Bonferroni and Bonferroni-Holm variants the same routine offers. */
module MultipleTesting {

  /** A p-value paired with its position in the input: the `(pvalue, i)`
      tuples the correction sorts. */
  datatype Ranked = Ranked(p: real, index: nat)

  /** Python's order on `(pvalue, i)` tuples: by p-value, then by index. */
  predicate TupleLess(a: Ranked, b: Ranked)
  {
    a.p < b.p || (a.p == b.p && a.index < b.index)
  }

  /** Strictly decreasing in tuple order. Sorting distinct tuples and then
      reversing the list gives the one sequence of this shape. */
  ghost predicate StrictlyDescending(s: seq<Ranked>)
  {
    forall i, j :: 0 <= i < j < |s| ==> TupleLess(s[j], s[i])
  }

  ghost predicate Distinct(s: seq<Ranked>)
  {
    forall i, j :: 0 <= i < j < |s| ==> s[i] != s[j]
  }

  ghost predicate NonNegative(ps: seq<real>)
  {
    forall i :: 0 <= i < |ps| ==> 0.0 <= ps[i]
  }

  /** The natural number k as a real. Counting up keeps k out of the
      solver's integer reasoning wherever it multiplies a p-value;
      AsRealIsCast relates it to `k as real`. */
  function AsReal(k: nat): (r: real)
    ensures k > 0 ==> 1.0 <= r
  {
    if k == 0 then 0.0 else AsReal(k - 1) + 1.0
  }

  lemma {:induction false} AsRealIsCast(k: nat)
    ensures AsReal(k) == k as real
  {
    if k > 0 {
      AsRealIsCast(k - 1);
    }
  }

  /** `[(pvalue, i) for i, pvalue in enumerate(pvalues)]` */
  function Enumerate(ps: seq<real>): (r: seq<Ranked>)
    ensures |r| == |ps|
    ensures forall i :: 0 <= i < |ps| ==> r[i] == Ranked(ps[i], i)
  {
    seq(|ps|, i requires 0 <= i < |ps| => Ranked(ps[i], i))
  }

  /** Inserts x in front of the first element below it in tuple order. */
  function InsertDescending(x: Ranked, s: seq<Ranked>): (r: seq<Ranked>)
    ensures |r| == |s| + 1
    ensures forall y :: y in r <==> y == x || y in s
  {
    if s == [] || TupleLess(s[0], x) then
      [x] + s
    else
      assert forall y :: y in s <==> y == s[0] || y in s[1..];
      [s[0]] + InsertDescending(x, s[1..])
  }

  /** Inserting a new tuple into a strictly descending sequence keeps it
      strictly descending. */
  lemma {:induction false} InsertDescendingStrict(x: Ranked, s: seq<Ranked>)
    requires StrictlyDescending(s) && x !in s
    ensures StrictlyDescending(InsertDescending(x, s))
  {
    if s != [] && !TupleLess(s[0], x) {
      var tail := s[1..];
      assert StrictlyDescending(tail) by {
        forall i, j | 0 <= i < j < |tail| ensures TupleLess(tail[j], tail[i]) {
          assert tail[i] == s[i + 1] && tail[j] == s[j + 1];
        }
      }
      assert x !in tail;
      InsertDescendingStrict(x, tail);
      var rest := InsertDescending(x, tail);
      forall y | y in rest ensures TupleLess(y, s[0]) {
        if y != x {
          var j :| 0 <= j < |tail| && tail[j] == y;
          assert s[j + 1] == y;
        }
      }
      var r := [s[0]] + rest;
      forall i, j | 0 <= i < j < |r| ensures TupleLess(r[j], r[i]) {
        if i == 0 {
          assert r[j] == rest[j - 1];
          assert r[j] in rest;
        } else {
          assert r[i] == rest[i - 1] && r[j] == rest[j - 1];
        }
      }
    }
  }

  /** `values.sort(); values.reverse()` on tuples: the descending order. */
  function SortDescending(s: seq<Ranked>): (r: seq<Ranked>)
    ensures |r| == |s|
    ensures forall y :: y in r <==> y in s
  {
    if s == [] then []
    else
      assert forall y :: y in s <==> y == s[0] || y in s[1..];
      InsertDescending(s[0], SortDescending(s[1..]))
  }

  /** Sorting distinct tuples gives a strictly descending sequence. */
  lemma {:induction false} SortDescendingStrict(s: seq<Ranked>)
    requires Distinct(s)
    ensures StrictlyDescending(SortDescending(s))
  {
    if s != [] {
      var tail := s[1..];
      assert Distinct(tail) by {
        forall i, j | 0 <= i < j < |tail| ensures tail[i] != tail[j] {
          assert tail[i] == s[i + 1] && tail[j] == s[j + 1];
        }
      }
      assert s[0] !in tail by {
        forall j | 0 <= j < |tail| ensures tail[j] != s[0] {
          assert tail[j] == s[j + 1];
        }
      }
      SortDescendingStrict(tail);
      InsertDescendingStrict(s[0], SortDescending(tail));
    }
  }

  /** The `(pvalue, i)` pairs of the input, largest tuple first: each input
      position occurs exactly once, carrying its own p-value, p-values
      never increase along the sequence, and among equal p-values the larger
      position comes first. */
  function DescendingPairs(ps: seq<real>): (v: seq<Ranked>)
    ensures |v| == |ps|
    ensures forall k :: 0 <= k < |v| ==> v[k].index < |ps| && v[k].p == ps[v[k].index]
    ensures forall i :: 0 <= i < |ps| ==> PositionOf(v, i) < |v|
    ensures forall k, l :: 0 <= k < l < |v| ==> v[l].p <= v[k].p && v[k].index != v[l].index
    ensures forall k, l :: 0 <= k < l < |v| && v[k].p == v[l].p ==> v[l].index < v[k].index
  {
    var e := Enumerate(ps);
    assert Distinct(e);
    SortDescendingStrict(e);
    var v := SortDescending(e);
    assert forall k :: 0 <= k < |v| ==> v[k] in e;
    forall i | 0 <= i < |ps| ensures PositionOf(v, i) < |v| {
      assert e[i] in e;
      var k :| 0 <= k < |v| && v[k] == e[i];
    }
    v
  }

  /** The first position of `v` holding input position i (|v| when none). */
  function PositionOf(v: seq<Ranked>, i: nat): (r: nat)
    ensures r <= |v|
    ensures r < |v| ==> v[r].index == i
    ensures forall k :: 0 <= k < |v| && v[k].index == i ==> r <= k
  {
    if v == [] then 0
    else if v[0].index == i then 0
    else
      var r := 1 + PositionOf(v[1..], i);
      assert forall k :: 1 <= k < |v| ==> v[k] == v[1..][k - 1];
      r
  }


  /** The raw adjusted value at descending position k, whose rank
      (1 = smallest p-value) is n - k: p * n / rank. */
  function Adjusted(v: seq<Ranked>, k: nat): real
    requires k < |v|
  {
    (AsReal(|v|) / AsReal(|v| - k)) * v[k].p
  }

  /** The first m raw adjusted values, in descending order of the pairs:
      the list the first pass of the routine appends to. */
  function AdjustedPrefix(v: seq<Ranked>, m: nat): (a: seq<real>)
    requires m <= |v|
    ensures |a| == m
  {
    if m == 0 then [] else AdjustedPrefix(v, m - 1) + [Adjusted(v, m - 1)]
  }

  function AdjustedValues(v: seq<Ranked>): (a: seq<real>)
    ensures |a| == |v|
  {
    AdjustedPrefix(v, |v|)
  }

  lemma {:induction false} AdjustedPrefixAt(v: seq<Ranked>, m: nat, k: nat)
    requires k < m <= |v|
    ensures AdjustedPrefix(v, m)[k] == Adjusted(v, k)
  {
    if k < m - 1 {
      AdjustedPrefixAt(v, m - 1, k);
    }
  }

  lemma AdjustedValuesAt(v: seq<Ranked>, k: nat)
    requires k < |v|
    ensures AdjustedValues(v)[k] == (AsReal(|v|) / AsReal(|v| - k)) * v[k].p
  {
    AdjustedPrefixAt(v, |v|, k);
  }

  /** The value at position k after the forward clamping pass over a. */
  function PrefixMin(a: seq<real>, k: nat): real
    requires k < |a|
  {
    if k == 0 then a[0]
    else
      var prev := PrefixMin(a, k - 1);
      if prev < a[k] then prev else a[k]
  }

  /** The clamped value at k is the least of a[0..k]: no larger than any of
      them, and equal to one of them. */
  lemma {:induction false} PrefixMinIsLeast(a: seq<real>, k: nat)
    requires k < |a|
    ensures forall j :: 0 <= j <= k ==> PrefixMin(a, k) <= a[j]
    ensures exists j :: 0 <= j <= k && PrefixMin(a, k) == a[j]
  {
    if k > 0 {
      PrefixMinIsLeast(a, k - 1);
      var j :| 0 <= j <= k - 1 && PrefixMin(a, k - 1) == a[j];
      if PrefixMin(a, k - 1) < a[k] {
        assert PrefixMin(a, k) == a[j];
      } else {
        assert PrefixMin(a, k) == a[k];
      }
    } else {
      assert PrefixMin(a, 0) == a[0];
    }
  }

  /** qs is the Benjamini-Hochberg correction of ps: one value per input
      position, the input position at descending position k receiving the
      least raw adjusted value at positions 0..k, that is, over all ranks
      at least its own (the step-up minimum). */
  predicate IsBH(ps: seq<real>, qs: seq<real>)
  {
    var v := DescendingPairs(ps);
    var a := AdjustedValues(v);
    |qs| == |ps| &&
    forall k :: 0 <= k < |v| ==> v[k].index < |qs| && qs[v[k].index] == PrefixMin(a, k)
  }

  /** The Benjamini-Hochberg q-values as a function of the p-values. */
  function BenjaminiHochberg(ps: seq<real>): (qs: seq<real>)
    ensures IsBH(ps, qs)
  {
    var v := DescendingPairs(ps);
    var a := AdjustedValues(v);
    var qs := seq(|ps|, i requires 0 <= i < |ps| =>
      var k := PositionOf(v, i);
      if k < |v| then PrefixMin(a, k) else 0.0);
    assert forall k :: 0 <= k < |v| ==> PositionOf(v, v[k].index) == k by {
      forall k | 0 <= k < |v| ensures PositionOf(v, v[k].index) == k {
        var r := PositionOf(v, v[k].index);
      }
    }
    qs
  }

  /** IsBH determines the q-values completely. */
  lemma BHUnique(ps: seq<real>, q1: seq<real>, q2: seq<real>)
    requires IsBH(ps, q1) && IsBH(ps, q2)
    ensures q1 == q2
  {
    var v := DescendingPairs(ps);
    forall i | 0 <= i < |ps| ensures q1[i] == q2[i] {
      var k := PositionOf(v, i);
    }
  }

  /** The kinds of correction the routine offers. */
  datatype Correction = Bonferroni | BonferroniHolm | BenjaminiHochbergFdr

  /** The first m Bonferroni values: p-values multiplied by n = |ps|. */
  function BonferroniPrefix(ps: seq<real>, m: nat): (b: seq<real>)
    requires m <= |ps|
    ensures |b| == m
  {
    if m == 0 then [] else BonferroniPrefix(ps, m - 1) + [AsReal(|ps|) * ps[m - 1]]
  }

  lemma {:induction false} BonferroniPrefixAt(ps: seq<real>, m: nat, i: nat)
    requires i < m <= |ps|
    ensures BonferroniPrefix(ps, m)[i] == AsReal(|ps|) * ps[i]
  {
    if i < m - 1 {
      BonferroniPrefixAt(ps, m - 1, i);
    }
  }

  /** Bonferroni: every p-value multiplied by n. */
  predicate IsBonferroni(ps: seq<real>, qs: seq<real>)
  {
    qs == BonferroniPrefix(ps, |ps|)
  }

  /** The first m Bonferroni-Holm values in descending order of the pairs.
      Ascending rank r (0-based) is descending position n - 1 - r and gets
      the factor n - r, so descending position k gets the factor k + 1. */
  function HolmPrefix(v: seq<Ranked>, m: nat): (h: seq<real>)
    requires m <= |v|
    ensures |h| == m
  {
    if m == 0 then [] else HolmPrefix(v, m - 1) + [AsReal(m) * v[m - 1].p]
  }

  function HolmValues(v: seq<Ranked>): (h: seq<real>)
    ensures |h| == |v|
  {
    HolmPrefix(v, |v|)
  }

  lemma {:induction false} HolmPrefixAt(v: seq<Ranked>, m: nat, k: nat)
    requires k < m <= |v|
    ensures HolmPrefix(v, m)[k] == AsReal(k + 1) * v[k].p
  {
    if k < m - 1 {
      HolmPrefixAt(v, m - 1, k);
    }
  }

  lemma HolmValuesAt(v: seq<Ranked>, k: nat)
    requires k < |v|
    ensures HolmValues(v)[k] == AsReal(k + 1) * v[k].p
  {
    HolmPrefixAt(v, |v|, k);
  }

  /** Bonferroni-Holm as the routine computes it: the p-value at ascending
      rank r scaled by n - r. No monotonicity pass follows. */
  predicate IsHolm(ps: seq<real>, qs: seq<real>)
  {
    var v := DescendingPairs(ps);
    var h := HolmValues(v);
    |qs| == |ps| &&
    forall k :: 0 <= k < |v| ==> v[k].index < |qs| && qs[v[k].index] == h[k]
  }

  /** `correct_pvalues_for_multiple_testing`: the corrected vector for each
      of the three recognised correction types. */
  method CorrectPValuesForMultipleTesting(pvalues: seq<real>, correction: Correction)
    returns (qvalues: seq<real>)
    ensures correction == BenjaminiHochbergFdr ==> IsBH(pvalues, qvalues)
    ensures correction == Bonferroni ==> IsBonferroni(pvalues, qvalues)
    ensures correction == BonferroniHolm ==> IsHolm(pvalues, qvalues)
  {
    match correction {
      case Bonferroni => qvalues := BonferroniCorrection(pvalues);
      case BonferroniHolm => qvalues := HolmCorrection(pvalues);
      case BenjaminiHochbergFdr => qvalues := BenjaminiHochbergCorrection(pvalues);
    }
  }

  /** `new_pvalues = n * pvalues` */
  method BonferroniCorrection(pvalues: seq<real>) returns (qvalues: seq<real>)
    ensures IsBonferroni(pvalues, qvalues)
  {
    var n := |pvalues|;
    var newPvalues := new real[n];
    AsRealIsCast(n);
    for i := 0 to n
      invariant forall j :: 0 <= j < i ==> newPvalues[j] == AsReal(n) * pvalues[j]
    {
      newPvalues[i] := n as real * pvalues[i];
    }
    qvalues := newPvalues[..];
    forall i | 0 <= i < n ensures qvalues[i] == BonferroniPrefix(pvalues, n)[i] {
      BonferroniPrefixAt(pvalues, n, i);
    }
  }

  /** The Bonferroni-Holm branch: walk the pairs in ascending order and
      scale the p-value at ascending rank r by n - r. */
  method HolmCorrection(pvalues: seq<real>) returns (qvalues: seq<real>)
    ensures IsHolm(pvalues, qvalues)
  {
    var n := |pvalues|;
    var newPvalues := new real[n];
    var values := DescendingPairs(pvalues);
    ghost var h := HolmValues(values);
    for rank := 0 to n
      invariant forall k :: n - rank <= k < n ==> newPvalues[values[k].index] == h[k]
    {
      var pair := values[n - 1 - rank];
      AsRealIsCast(n - rank);
      HolmValuesAt(values, n - 1 - rank);
      newPvalues[pair.index] := (n - rank) as real * pair.p;
    }
    qvalues := newPvalues[..];
  }

  /** The Benjamini-Hochberg branch: scale the pair at descending position
      i by n / rank with rank = n - i, clamp each value to at most its
      predecessor in one forward pass, and scatter the results back to the
      original positions. */
  method BenjaminiHochbergCorrection(pvalues: seq<real>) returns (qvalues: seq<real>)
    ensures IsBH(pvalues, qvalues)
  {
    var n := |pvalues|;
    var values := DescendingPairs(pvalues);
    ghost var a := AdjustedValues(values);
    var newValues := new real[n];
    for i := 0 to n
      invariant forall k :: 0 <= k < i ==> newValues[k] == a[k]
    {
      var rank := n - i;
      AdjustedValueComputed(values, i, rank);
      newValues[i] := (n as real / rank as real) * values[i].p;
    }
    assert newValues[..] == a;
    ClampForward(newValues);
    qvalues := ScatterBack(values, newValues[..]);
  }

  /** The last pass of the Benjamini-Hochberg branch: the k-th value in
      descending order is written back to the original position of the
      k-th p-value. */
  method ScatterBack(values: seq<Ranked>, clamped: seq<real>) returns (out: seq<real>)
    requires |clamped| == |values|
    requires forall k :: 0 <= k < |values| ==> values[k].index < |values|
    requires forall k, l :: 0 <= k < l < |values| ==> values[k].index != values[l].index
    ensures |out| == |values|
    ensures forall k :: 0 <= k < |values| ==> out[values[k].index] == clamped[k]
  {
    var newPvalues := new real[|values|];
    for j := 0 to |values|
      invariant forall k :: 0 <= k < j ==> newPvalues[values[k].index] == clamped[k]
    {
      newPvalues[values[j].index] := clamped[j];
    }
    out := newPvalues[..];
  }

  /** The clamping pass of the Benjamini-Hochberg branch: each value is
      lowered to its predecessor when that is smaller, from left to right,
      which leaves at each position the least value up to it. */
  method ClampForward(values: array<real>)
    modifies values
    ensures forall k :: 0 <= k < values.Length ==> values[k] == PrefixMin(old(values[..]), k)
  {
    ghost var a := values[..];
    var n := values.Length;
    var i := 0;
    while i + 1 < n
      invariant i == 0 || i < n
      invariant forall k :: 0 <= k <= i && k < n ==> values[k] == PrefixMin(a, k)
      invariant forall k :: i < k < n ==> values[k] == a[k]
    {
      if values[i] < values[i + 1] {
        values[i + 1] := values[i];
      }
      i := i + 1;
    }
  }

  /** The value the first pass computes with `n / rank` on integers is the
      raw adjusted value. */
  lemma AdjustedValueComputed(v: seq<Ranked>, i: nat, rank: nat)
    requires i < |v| && rank == |v| - i
    ensures AdjustedValues(v)[i] == (|v| as real / rank as real) * v[i].p
  {
    AsRealIsCast(|v|);
    AsRealIsCast(rank);
    AdjustedValuesAt(v, i);
  }

  /** 1 <= n / (n - a) <= n / (n - b) for a <= b < n. */
  lemma FactorMonotone(n: nat, a: nat, b: nat)
    requires a <= b < n
    ensures 1.0 <= AsReal(n) / AsReal(n - a) <= AsReal(n) / AsReal(n - b)
  {
    AsRealMonotone(n - a, n);
    AsRealMonotone(n - b, n - a);
    QuotientAtLeastOne(AsReal(n), AsReal(n - a));
    QuotientGrows(AsReal(n), AsReal(n - a), AsReal(n - b));
  }

  lemma QuotientAtLeastOne(m: real, x: real)
    requires 0.0 < x <= m
    ensures 1.0 <= m / x
  {
    var r := m / x;
    assert r * x == m;
    assert (r - 1.0) * x == m - x;
    SignOfFactor(r - 1.0, x);
  }

  lemma QuotientGrows(m: real, x: real, y: real)
    requires 0.0 < y <= x && 0.0 <= m
    ensures m / x <= m / y
  {
    var r1, r2 := m / x, m / y;
    assert r1 * x == m;
    assert r2 * y == m;
    SignOfFactor(r1, x);
    assert (r2 - r1) * y == r1 * (x - y);
    ScaleMonotone(0.0, x - y, r1);
    SignOfFactor(r2 - r1, y);
  }

  lemma SignOfFactor(c: real, x: real)
    requires 0.0 < x && 0.0 <= c * x
    ensures 0.0 <= c
  {
  }

  lemma ScaleMonotone(c1: real, c2: real, p: real)
    requires c1 <= c2 && 0.0 <= p
    ensures c1 * p <= c2 * p
  {
    assert (c2 - c1) * p >= 0.0;
  }

  /** p <= c * p <= d * p for 1 <= c <= d and p >= 0. */
  lemma ScaleBetween(c: real, d: real, p: real)
    requires 1.0 <= c <= d && 0.0 <= p
    ensures p <= c * p <= d * p
  {
    ScaleMonotone(1.0, c, p);
    ScaleMonotone(c, d, p);
  }

  /** Between positions a <= b holding the same non-negative p-value, the
      raw adjusted value grows, since the rank falls; and it is never below
      the p-value. */
  lemma AdjustedGrowsAt(v: seq<Ranked>, a: nat, b: nat)
    requires a <= b < |v| && v[a].p == v[b].p && 0.0 <= v[a].p
    ensures v[a].p <= AdjustedValues(v)[a] <= AdjustedValues(v)[b]
  {
    var n := |v|;
    AdjustedValuesAt(v, a);
    AdjustedValuesAt(v, b);
    FactorMonotone(n, a, b);
    ScaleBetween(AsReal(n) / AsReal(n - a), AsReal(n) / AsReal(n - b), v[a].p);
  }

  /** At descending position 0 the rank is n and the factor n / n is 1. */
  lemma AdjustedAtTop(v: seq<Ranked>)
    requires |v| > 0
    ensures AdjustedValues(v)[0] == v[0].p
  {
    AdjustedValuesAt(v, 0);
    UnitFactor(AsReal(|v|), v[0].p);
  }

  lemma UnitFactor(c: real, p: real)
    requires c != 0.0
    ensures (c / c) * p == p
  {
  }

  /** With non-negative p-values every raw adjusted value is at least its
      p-value, the value at position 0 is its p-value exactly, and along a
      run of equal p-values the raw adjusted values grow. */
  lemma AdjustedValuesGrow(v: seq<Ranked>)
    requires forall k :: 0 <= k < |v| ==> 0.0 <= v[k].p
    ensures forall k :: 0 <= k < |v| ==> v[k].p <= AdjustedValues(v)[k]
    ensures |v| > 0 ==> AdjustedValues(v)[0] == v[0].p
    ensures forall k, l :: 0 <= k <= l < |v| && v[k].p == v[l].p ==>
              AdjustedValues(v)[k] <= AdjustedValues(v)[l]
  {
    if |v| > 0 {
      AdjustedAtTop(v);
    }
    forall k, l | 0 <= k <= l < |v| && v[k].p == v[l].p
      ensures AdjustedValues(v)[k] <= AdjustedValues(v)[l]
    {
      AdjustedGrowsAt(v, k, l);
    }
    forall k | 0 <= k < |v| ensures v[k].p <= AdjustedValues(v)[k] {
      AdjustedGrowsAt(v, k, k);
    }
  }

  /** The largest of a non-empty vector. */
  function MaxOf(ps: seq<real>): (m: real)
    requires |ps| > 0
    ensures forall i :: 0 <= i < |ps| ==> ps[i] <= m
    ensures exists i :: 0 <= i < |ps| && ps[i] == m
  {
    if |ps| == 1 then ps[0]
    else
      var rest := MaxOf(ps[1..]);
      assert forall i :: 1 <= i < |ps| ==> ps[i] == ps[1..][i - 1];
      if ps[0] < rest then rest else ps[0]
  }

  /** The pair with the largest tuple (rank n, factor n/n = 1) keeps its
      p-value exactly, and that p-value is the largest of the input. */
  lemma BHLargestKeepsValue(ps: seq<real>, qs: seq<real>)
    requires IsBH(ps, qs) && |ps| > 0
    ensures var v := DescendingPairs(ps);
            qs[v[0].index] == ps[v[0].index] && ps[v[0].index] == MaxOf(ps)
  {
    var v := DescendingPairs(ps);
    AdjustedAtTop(v);
    assert qs[v[0].index] == PrefixMin(AdjustedValues(v), 0);
    TopIsMax(ps);
  }

  /** An input of length 0 or 1 comes back unchanged. */
  lemma BHSmallInputUnchanged(ps: seq<real>, qs: seq<real>)
    requires IsBH(ps, qs) && |ps| <= 1
    ensures qs == ps
  {
    if |ps| == 1 {
      BHLargestKeepsValue(ps, qs);
      assert DescendingPairs(ps)[0].index == 0;
    }
  }

  /** Along a run of equal keys, where the values a do not drop, the prefix
      minimum does not drop either. */
  lemma PrefixMinAcrossTies(a: seq<real>, v: seq<Ranked>, x: nat, y: nat)
    requires |a| == |v| && x <= y < |v| && v[x].p == v[y].p
    requires forall k, l :: 0 <= k < l < |v| ==> v[l].p <= v[k].p
    requires forall k, l :: 0 <= k <= l < |v| && v[k].p == v[l].p ==> a[k] <= a[l]
    ensures PrefixMin(a, x) <= PrefixMin(a, y)
  {
    PrefixMinIsLeast(a, x);
    PrefixMinIsLeast(a, y);
    var j :| 0 <= j <= y && PrefixMin(a, y) == a[j];
    if x < j {
      assert v[j].p == v[x].p;
    }
  }

  /** The step-up minimum over any values a that grow along runs of equal
      p-values is monotone in the p-value. */
  lemma StepUpMonotone(ps: seq<real>, v: seq<Ranked>, a: seq<real>, qs: seq<real>)
    requires |v| == |ps| == |a| && |qs| == |ps|
    requires forall k :: 0 <= k < |v| ==> v[k].index < |ps| && v[k].p == ps[v[k].index]
    requires forall i :: 0 <= i < |ps| ==> PositionOf(v, i) < |v|
    requires forall k, l :: 0 <= k < l < |v| ==> v[l].p <= v[k].p
    requires forall k, l :: 0 <= k <= l < |v| && v[k].p == v[l].p ==> a[k] <= a[l]
    requires forall k :: 0 <= k < |v| ==> qs[v[k].index] == PrefixMin(a, k)
    ensures forall i, j :: 0 <= i < |ps| && 0 <= j < |ps| && ps[i] <= ps[j] ==> qs[i] <= qs[j]
  {
    forall i, j | 0 <= i < |ps| && 0 <= j < |ps| && ps[i] <= ps[j]
      ensures qs[i] <= qs[j]
    {
      StepUpPair(v, a, PositionOf(v, i), PositionOf(v, j));
    }
  }

  /** One pair of positions of StepUpMonotone: the pair with the smaller
      p-value has the smaller prefix minimum. */
  lemma StepUpPair(v: seq<Ranked>, a: seq<real>, ki: nat, kj: nat)
    requires |a| == |v| && ki < |v| && kj < |v| && v[ki].p <= v[kj].p
    requires forall k, l :: 0 <= k < l < |v| ==> v[l].p <= v[k].p
    requires forall k, l :: 0 <= k <= l < |v| && v[k].p == v[l].p ==> a[k] <= a[l]
    ensures PrefixMin(a, ki) <= PrefixMin(a, kj)
  {
    PrefixMinIsLeast(a, kj);
    if kj <= ki {
      PrefixMinIsLeast(a, ki);
    } else {
      assert v[kj].p <= v[ki].p;
      PrefixMinAcrossTies(a, v, ki, kj);
    }
  }

  /** Monotonicity: a p-value no larger than another gets a q-value no
      larger than the other's; equal p-values get equal q-values. */
  lemma BHMonotone(ps: seq<real>, qs: seq<real>)
    requires IsBH(ps, qs) && NonNegative(ps)
    ensures forall i, j :: 0 <= i < |ps| && 0 <= j < |ps| && ps[i] <= ps[j] ==> qs[i] <= qs[j]
    ensures forall i, j :: 0 <= i < |ps| && 0 <= j < |ps| && ps[i] == ps[j] ==> qs[i] == qs[j]
  {
    var v := DescendingPairs(ps);
    AdjustedValuesGrow(v);
    StepUpMonotone(ps, v, AdjustedValues(v), qs);
  }

  /** The step-up minimum over values a that are at least their p-values,
      and equal to it at position 0, lies between the p-value and the
      p-value at position 0. */
  lemma StepUpBounds(ps: seq<real>, v: seq<Ranked>, a: seq<real>, qs: seq<real>)
    requires |v| == |ps| == |a| && |qs| == |ps| && |ps| > 0
    requires forall k :: 0 <= k < |v| ==> v[k].index < |ps| && v[k].p == ps[v[k].index]
    requires forall i :: 0 <= i < |ps| ==> PositionOf(v, i) < |v|
    requires forall k, l :: 0 <= k < l < |v| ==> v[l].p <= v[k].p
    requires forall k :: 0 <= k < |v| ==> v[k].p <= a[k]
    requires a[0] == v[0].p
    requires forall k :: 0 <= k < |v| ==> qs[v[k].index] == PrefixMin(a, k)
    ensures forall i :: 0 <= i < |ps| ==> ps[i] <= qs[i] <= v[0].p
  {
    forall i | 0 <= i < |ps| ensures ps[i] <= qs[i] <= v[0].p {
      var k := PositionOf(v, i);
      PrefixMinIsLeast(a, k);
      var j :| 0 <= j <= k && PrefixMin(a, k) == a[j];
      assert v[k].p <= v[j].p;
    }
  }

  /** The first pair of the descending order carries the largest p-value. */
  lemma TopIsMax(ps: seq<real>)
    requires |ps| > 0
    ensures DescendingPairs(ps)[0].p == MaxOf(ps)
  {
    var v := DescendingPairs(ps);
    var i :| 0 <= i < |ps| && ps[i] == MaxOf(ps);
    var k := PositionOf(v, i);
    assert v[k].p <= v[0].p;
  }

  /** The step-up minimum never exceeds the raw adjusted value at its own
      position: q <= p * n / rank. */
  lemma BHBelowAdjusted(ps: seq<real>, qs: seq<real>, k: nat)
    requires IsBH(ps, qs)
    requires k < |ps|
    ensures var v := DescendingPairs(ps);
            qs[v[k].index] <= (AsReal(|v|) / AsReal(|v| - k)) * ps[v[k].index]
  {
    var v := DescendingPairs(ps);
    PrefixMinIsLeast(AdjustedValues(v), k);
    AdjustedValuesAt(v, k);
  }

  /** Bounds: p <= q, and no q-value exceeds the largest p-value. */
  lemma BHBounds(ps: seq<real>, qs: seq<real>)
    requires IsBH(ps, qs) && NonNegative(ps)
    ensures forall i :: 0 <= i < |ps| ==> ps[i] <= qs[i] <= MaxOf(ps)
  {
    var v := DescendingPairs(ps);
    if |ps| > 0 {
      AdjustedValuesGrow(v);
      StepUpBounds(ps, v, AdjustedValues(v), qs);
      TopIsMax(ps);
    }
  }

  /** Probabilities in, probabilities out: with every p-value in [0, 1] the
      q-values are in [0, 1], although no explicit cap is applied. */
  lemma BHProbabilities(ps: seq<real>, qs: seq<real>)
    requires IsBH(ps, qs)
    requires forall i :: 0 <= i < |ps| ==> 0.0 <= ps[i] <= 1.0
    ensures forall i :: 0 <= i < |qs| ==> 0.0 <= qs[i] <= 1.0
  {
    if |ps| > 0 {
      BHBounds(ps, qs);
      var m := MaxOf(ps);
      var i :| 0 <= i < |ps| && ps[i] == m;
    }
  }

  /** The same bounds stated on the correction function itself. */
  lemma BHOfProbabilities(ps: seq<real>)
    requires forall i :: 0 <= i < |ps| ==> 0.0 <= ps[i] <= 1.0
    ensures forall i :: 0 <= i < |ps| ==> ps[i] <= BenjaminiHochberg(ps)[i] <= 1.0
  {
    var qs := BenjaminiHochberg(ps);
    BHBounds(ps, qs);
    BHProbabilities(ps, qs);
  }

  lemma {:induction false} AsRealMonotone(a: nat, b: nat)
    requires a <= b
    ensures AsReal(a) <= AsReal(b)
  {
    AsRealIsCast(a);
    AsRealIsCast(b);
  }

  /** With a non-negative p-value, the Bonferroni-Holm value at descending
      position k lies between the p-value and n times it. */
  lemma HolmBoundAt(v: seq<Ranked>, k: nat, p: real, n: nat)
    requires k < |v| && p == v[k].p && n == |v| && 0.0 <= p
    ensures p <= HolmValues(v)[k] <= AsReal(n) * p
  {
    HolmValuesAt(v, k);
    AsRealMonotone(k + 1, n);
    ScaleBetween(AsReal(k + 1), AsReal(n), p);
  }

  /** Scattering values that lie between their p-values and bounds b back
      to the input positions keeps each corrected value between its p-value
      and its bound. */
  lemma ScatterBounds(ps: seq<real>, v: seq<Ranked>, h: seq<real>, qs: seq<real>, b: seq<real>)
    requires |v| == |ps| == |h| && |qs| == |ps| && |b| == |ps|
    requires forall k :: 0 <= k < |v| ==> v[k].index < |ps| && v[k].p == ps[v[k].index]
    requires forall i :: 0 <= i < |ps| ==> PositionOf(v, i) < |v|
    requires forall k :: 0 <= k < |v| ==> v[k].p <= h[k] <= b[v[k].index]
    requires forall k :: 0 <= k < |v| ==> qs[v[k].index] == h[k]
    ensures forall i :: 0 <= i < |ps| ==> ps[i] <= qs[i] <= b[i]
  {
    forall i | 0 <= i < |ps| ensures ps[i] <= qs[i] <= b[i] {
      var k := PositionOf(v, i);
    }
  }

  /** With non-negative p-values every Bonferroni-Holm value lies between
      its p-value and the Bonferroni value of the same input position. */
  lemma HolmValuesBounds(ps: seq<real>, v: seq<Ranked>)
    requires |v| == |ps|
    requires forall k :: 0 <= k < |v| ==> v[k].index < |ps| && v[k].p == ps[v[k].index]
    requires forall k :: 0 <= k < |v| ==> 0.0 <= v[k].p
    ensures forall k :: 0 <= k < |v| ==>
              v[k].p <= HolmValues(v)[k] <= BonferroniPrefix(ps, |ps|)[v[k].index]
  {
    forall k | 0 <= k < |v|
      ensures v[k].p <= HolmValues(v)[k] <= BonferroniPrefix(ps, |ps|)[v[k].index]
    {
      HolmBelowBonferroniAt(ps, v, k);
    }
  }

  lemma HolmBelowBonferroniAt(ps: seq<real>, v: seq<Ranked>, k: nat)
    requires |v| == |ps| && k < |v| && v[k].index < |ps| && v[k].p == ps[v[k].index]
    requires 0.0 <= v[k].p
    ensures v[k].p <= HolmValues(v)[k] <= BonferroniPrefix(ps, |ps|)[v[k].index]
  {
    var i := v[k].index;
    var h, b := HolmValues(v)[k], BonferroniPrefix(ps, |ps|)[i];
    HolmBoundAt(v, k, ps[i], |ps|);
    assert v[k].p <= h <= AsReal(|ps|) * ps[i];
    BonferroniPrefixAt(ps, |ps|, i);
    assert b == AsReal(|ps|) * ps[i];
  }

  /** Bonferroni-Holm as computed: with non-negative p-values every
      corrected value lies between its p-value and its Bonferroni value
      n * p. */
  lemma HolmBetweenPAndBonferroni(ps: seq<real>, qs: seq<real>, bs: seq<real>)
    requires IsHolm(ps, qs) && IsBonferroni(ps, bs) && NonNegative(ps)
    ensures forall i :: 0 <= i < |ps| ==> ps[i] <= qs[i] <= bs[i]
  {
    var v := DescendingPairs(ps);
    HolmValuesBounds(ps, v);
    ScatterBounds(ps, v, HolmValues(v), qs, bs);
  }
}
