/** The evaluation metrics: each is a state record advanced by `evaluate` once per
    recommendation list and read by `getResults`. Samples are exact ratios of integers
    (`real`); the mean of no samples, NaN in the source, is `None`. */
module Metrics {
  import opened Wrappers
  import opened Seqs

  /** The default cut-off: only the first `k` recommendations are considered. */
  const DefaultK: int := 10

  // ---------------------------------------------------------------------------
  // Mean of the samples

  /** `getAvg`: the arithmetic mean, absent (NaN) for no samples. */
  function Avg(s: seq<real>): (r: Option<real>)
    ensures r.None? <==> |s| == 0
    ensures r.Some? ==> r.value * |s| as real == SumReal(s)
  {
    if |s| == 0 then None else Some(SumReal(s) / |s| as real)
  }

  /** The mean lies within the bounds of the samples. */
  lemma AvgBounds(s: seq<real>, lo: real, hi: real)
    requires |s| > 0
    requires forall i :: 0 <= i < |s| ==> lo <= s[i] <= hi
    ensures lo <= Avg(s).value <= hi
  {
    SumRealBounds(s, lo, hi);
    var n := |s| as real;
    var a := Avg(s).value;
    assert a * n == SumReal(s);
    assert n * lo <= a * n <= n * hi;
  }

  /** The mean does not depend on the order in which the samples were recorded. */
  lemma AvgPermutation(a: seq<real>, b: seq<real>)
    requires multiset(a) == multiset(b)
    ensures Avg(a) == Avg(b)
  {
    assert |a| == |multiset(a)| == |multiset(b)| == |b|;
    SumRealPermutation(a, b);
  }

  // ---------------------------------------------------------------------------
  // Hit counting

  /** The first `k` recommendations (`realK = min(k, size)`), none when `k` is not
      positive. */
  function Top(recs: seq<int>, k: int): (r: seq<int>)
    ensures |r| == (if k <= 0 then 0 else Min(k, |recs|))
    ensures r == recs[..|r|]
  {
    if k <= 0 then [] else recs[..Min(k, |recs|)]
  }

  /** The number of positions of `top` that hold a ground-truth id. */
  function HitCount(top: seq<int>, gt: set<int>): (n: nat)
    ensures n <= |top|
  {
    if |top| == 0 then 0 else (if top[0] in gt then 1 else 0) + HitCount(top[1..], gt)
  }

  /** The nested loop of the source: for every ground-truth id in iteration order, the
      number of top positions equal to it. */
  function LoopHits(order: seq<int>, top: seq<int>): nat {
    if |order| == 0 then 0 else Count(top, order[0]) + LoopHits(order[1..], top)
  }

  lemma {:induction false} HitCountSplit(top: seq<int>, gt: set<int>, x: int)
    requires x in gt
    ensures HitCount(top, gt) == Count(top, x) + HitCount(top, gt - {x})
  {
    if |top| > 0 {
      HitCountSplit(top[1..], gt, x);
    }
  }

  /** Counting per ground-truth id, in any iteration order, counts the hit positions. */
  lemma {:induction false} LoopHitsCountsPositions(order: seq<int>, top: seq<int>, gt: set<int>)
    requires Enumerates(order, gt)
    ensures LoopHits(order, top) == HitCount(top, gt)
    decreases |order|
  {
    if |order| == 0 {
      HitCountEmpty(top, gt);
    } else {
      var x := order[0];
      HitCountSplit(top, gt, x);
      assert Enumerates(order[1..], gt - {x}) by {
        forall y ensures y in order[1..] <==> y in gt - {x} {
          if y in order[1..] {
            var j :| 0 <= j < |order[1..]| && order[1..][j] == y;
            assert order[j + 1] == y;
          }
        }
      }
      LoopHitsCountsPositions(order[1..], top, gt - {x});
    }
  }

  lemma {:induction false} HitCountEmpty(top: seq<int>, gt: set<int>)
    requires gt == {}
    ensures HitCount(top, gt) == 0
  {
    if |top| > 0 {
      HitCountEmpty(top[1..], gt);
    }
  }

  /** Without duplicates the hits are the ids both recommended and relevant. */
  lemma {:induction false} DistinctHits(top: seq<int>, gt: set<int>)
    requires Distinct(top)
    ensures HitCount(top, gt) == |Elems(top) * gt|
  {
    if |top| > 0 {
      var x := top[0];
      var rest := top[1..];
      DistinctHits(rest, gt);
      var a := Elems(rest) * gt;
      assert x !in rest by {
        forall j | 0 <= j < |rest| ensures rest[j] != x {
          assert rest[j] == top[j + 1];
        }
      }
      IntersectCons(top, gt);
      if x in gt {
        assert x !in a;
        assert |{x} + a| == |a| + 1;
      }
    }
  }

  lemma IntersectCons(top: seq<int>, gt: set<int>)
    requires |top| > 0
    ensures Elems(top) * gt == (if top[0] in gt then {top[0]} else {}) + Elems(top[1..]) * gt
  {
    assert top == [top[0]] + top[1..];
  }

  lemma IntersectionBound(a: set<int>, b: set<int>)
    ensures |a * b| <= |a| && |a * b| <= |b|
  {
    assert a == (a * b) + (a - b);
    assert b == (a * b) + (b - a);
  }

  // ---------------------------------------------------------------------------
  // Precision and Recall

  datatype PRKind = Undefined | Precision | Recall

  datatype PR = PR(kind: PRKind, k: int, results: seq<real>)

  /** `PrecisionOrRecall.evaluate`. No ground truth records nothing; no recommendations
      record 0; a duplicate among the top `k` and an undefined kind throw; otherwise the
      sample is the number of relevant top ids over the list length (Precision) or over
      the number of relevant ids (Recall). */
  function EvaluatePR(pr: PR, recs: seq<int>, gt: Option<set<int>>): (r: Result<PR>)
    requires pr.k > 0
    ensures gt.None? || gt.value == {} ==> r == Ok(pr)
    ensures gt.Some? && gt.value != {} && |recs| == 0 ==> r == Ok(pr.(results := pr.results + [0.0]))
    ensures gt.Some? && gt.value != {} && |recs| > 0 ==>
      (r.Err? <==> !Distinct(Top(recs, pr.k)) || pr.kind == Undefined)
    ensures gt.Some? && gt.value != {} && |recs| > 0 && r.Ok? ==>
      r == Ok(pr.(results := pr.results + [PRSample(pr.kind, Top(recs, pr.k), gt.value)]))
  {
    if gt.None? || gt.value == {} then Ok(pr)
    else if |recs| == 0 then Ok(pr.(results := pr.results + [0.0]))
    else
      var top := Top(recs, pr.k);
      if !Distinct(top) then Err("Duplicate recommendation.")
      else
        if pr.kind == Undefined then Err("Neither precision nor recall defined.")
        else Ok(pr.(results := pr.results + [PRSample(pr.kind, top, gt.value)]))
  }

  /** One Precision or Recall sample of a duplicate-free top list: the hits over the
      list length or over the number of relevant ids. */
  function PRSample(kind: PRKind, top: seq<int>, gt: set<int>): (r: real)
    requires kind != Undefined && |top| > 0 && gt != {} && Distinct(top)
    ensures 0.0 <= r <= 1.0
    ensures kind == Precision ==> r == |Elems(top) * gt| as real / |top| as real
    ensures kind == Recall ==> r == |Elems(top) * gt| as real / |gt| as real
  {
    var hits := HitCount(top, gt);
    HitsWithin(top, gt);
    if kind == Precision then
      Ratio(hits, |top|);
      hits as real / |top| as real
    else
      Ratio(hits, |gt|);
      hits as real / |gt| as real
  }

  /** The hits of a duplicate-free list count the ground truth it meets, which is no more
      than either side. */
  lemma HitsWithin(top: seq<int>, gt: set<int>)
    requires Distinct(top)
    ensures HitCount(top, gt) == |Elems(top) * gt| <= |top|
    ensures HitCount(top, gt) <= |gt|
  {
    DistinctHits(top, gt);
    IntersectionBound(Elems(top), gt);
    DistinctBySize(top);
  }

  /** A count over a positive total at least as large is a fraction in [0, 1]. */
  lemma Ratio(n: nat, d: nat)
    requires 0 < d && n <= d
    ensures 0.0 <= n as real / d as real <= 1.0
  {
    DivWithin(0.0, n as real, 1.0, d as real);
  }

  lemma {:induction false} DistinctBySize(s: seq<int>)
    ensures |Elems(s)| <= |s|
  {
    if |s| > 0 {
      DistinctBySize(s[1..]);
      assert Elems(s) == {s[0]} + Elems(s[1..]) by {
        assert s == [s[0]] + s[1..];
      }
    }
  }

  /** The source's counting loop agrees with the hit count for any iteration order of the
      ground truth. */
  lemma PRSampleFromLoop(order: seq<int>, recs: seq<int>, k: int, gt: set<int>)
    requires Enumerates(order, gt)
    ensures LoopHits(order, Top(recs, k)) == HitCount(Top(recs, k), gt)
  {
    LoopHitsCountsPositions(order, Top(recs, k), gt);
  }

  // ---------------------------------------------------------------------------
  // MRR

  datatype Samples = Samples(k: int, results: seq<real>)

  /** `order[j]` is the first ground-truth id, in iteration order, among the top
      recommendations. */
  predicate FirstHit(order: seq<int>, top: seq<int>, j: int) {
    0 <= j < |order| && order[j] in top && forall l :: 0 <= l < j ==> order[l] !in top
  }

  /** No ground-truth id is among the top recommendations. */
  predicate NoHit(order: seq<int>, top: seq<int>) {
    forall j :: 0 <= j < |order| ==> order[j] !in top
  }

  /** The reciprocal of a 0-based rank. */
  function Reciprocal(rank: nat): (r: real)
    ensures 0.0 < r <= 1.0
  {
    1.0 / (rank + 1) as real
  }

  /** The reciprocal rank of the first ground-truth id, in iteration order, that occurs
      among the top recommendations; 0 if none does. */
  function MrrSample(order: seq<int>, top: seq<int>): (r: real)
    ensures 0.0 <= r <= 1.0
    ensures r == 0.0 <==> NoHit(order, top)
    ensures r > 0.0 ==> exists j :: FirstHit(order, top, j) && r == Reciprocal(FirstIndex(top, order[j]))
  {
    if |order| == 0 then 0.0
    else if order[0] in top then
      assert FirstHit(order, top, 0);
      Reciprocal(FirstIndex(top, order[0]))
    else
      var r := MrrSample(order[1..], top);
      HitShift(order, top);
      if r > 0.0 then
        var j :| FirstHit(order[1..], top, j) && r == Reciprocal(FirstIndex(top, order[1..][j]));
        assert FirstHit(order, top, j + 1) && order[j + 1] == order[1..][j];
        r
      else r
  }

  /** Past a head that misses, hits are those of the tail, one further on. */
  lemma HitShift(order: seq<int>, top: seq<int>)
    requires |order| > 0 && order[0] !in top
    ensures NoHit(order, top) <==> NoHit(order[1..], top)
    ensures forall j :: FirstHit(order[1..], top, j) ==> FirstHit(order, top, j + 1)
  {
    assert forall j :: 1 <= j < |order| ==> order[j] == order[1..][j - 1];
  }

  /** `MRR.evaluate`: no sample without ground truth, 0 without recommendations, otherwise
      the reciprocal rank above. There is no duplicate check. */
  function EvaluateMrr(st: Samples, recs: seq<int>, gt: Option<set<int>>, order: seq<int>): (r: Samples)
    requires gt.Some? ==> Enumerates(order, gt.value)
    ensures |r.results| == |st.results| + (if gt.Some? && gt.value != {} then 1 else 0)
    ensures r.k == st.k && r.results[..|st.results|] == st.results
    ensures forall i :: |st.results| <= i < |r.results| ==> 0.0 <= r.results[i] <= 1.0
    ensures |r.results| > |st.results| ==>
      (r.results[|st.results|] == 0.0 <==> Elems(Top(recs, st.k)) * gt.value == {})
    ensures gt.Some? && gt.value != {} ==> r.results == st.results + [MrrSample(order, Top(recs, st.k))]
  {
    if gt.None? || gt.value == {} then st
    else if |recs| == 0 then
      assert NoHit(order, Top(recs, st.k));
      st.(results := st.results + [0.0])
    else
      var top := Top(recs, st.k);
      var s := MrrSample(order, top);
      assert s == 0.0 <==> Elems(top) * gt.value == {} by {
        if s == 0.0 {
          forall x | x in gt.value ensures x !in top {
            var j :| 0 <= j < |order| && order[j] == x;
          }
        }
        if s != 0.0 {
          var j :| 0 <= j < |order| && order[j] in top;
          assert order[j] in Elems(top) * gt.value;
        }
      }
      st.(results := st.results + [s])
  }

  /** The sample depends on the iteration order of the ground-truth set and is not the
      best rank: with the top list [5, 7] and relevant ids {5, 7}, one order gives 1 and
      the other 1/2. */
  lemma MrrDependsOnOrder()
    ensures Enumerates([5, 7], {5, 7}) && Enumerates([7, 5], {5, 7})
    ensures MrrSample([5, 7], [5, 7]) == 1.0
    ensures MrrSample([7, 5], [5, 7]) == 0.5
  {
    assert FirstIndex([5, 7], 7) == 1 by {
      assert [5, 7][1..] == [7];
    }
  }

  // ---------------------------------------------------------------------------
  // Coverage

  /** `Coverage.evaluate`: one sample per call, the list length capped at `k`. */
  function EvaluateCoverage(st: Samples, recs: seq<int>): (r: Samples)
    ensures |r.results| == |st.results| + 1
    ensures r.k == st.k && r.results[..|st.results|] == st.results
    ensures st.k >= 0 ==> 0.0 <= r.results[|st.results|] <= st.k as real
    ensures r.results[|st.results|] == st.k as real <==> |recs| >= st.k
    ensures |recs| < st.k ==> r.results[|st.results|] == |recs| as real
    ensures st.k >= 0 ==> r.results[|st.results|] == |Top(recs, st.k)| as real
  {
    st.(results := st.results + [Min(|recs|, st.k) as real])
  }

  /** `Coverage.getResults`: the mean sample over `k`; NaN for no samples or `k` = 0. */
  function CoverageResult(st: Samples): (r: Option<real>)
    ensures r.Some? <==> |st.results| > 0 && st.k != 0
  {
    match Avg(st.results)
    case None => None
    case Some(a) => if st.k == 0 then None else Some(a / st.k as real)
  }

  /** Coverage after evaluating `lists` from scratch. */
  function CoverageOf(k: int, lists: seq<seq<int>>): (r: Samples)
    ensures r.k == k && |r.results| == |lists|
  {
    if |lists| == 0 then Samples(k, [])
    else EvaluateCoverage(CoverageOf(k, lists[..|lists| - 1]), lists[|lists| - 1])
  }

  lemma {:induction false} CoverageSamples(k: int, lists: seq<seq<int>>)
    requires k > 0
    ensures forall i :: 0 <= i < |lists| ==>
      0.0 <= CoverageOf(k, lists).results[i] <= k as real &&
      (CoverageOf(k, lists).results[i] == k as real <==> |lists[i]| >= k)
  {
    if |lists| > 0 {
      CoverageSamples(k, lists[..|lists| - 1]);
    }
  }

  /** Coverage lies in [0, 1], and is 1 exactly when every list had at least `k` entries. */
  lemma CoverageOneIffFull(k: int, lists: seq<seq<int>>)
    requires k > 0 && |lists| > 0
    ensures 0.0 <= CoverageResult(CoverageOf(k, lists)).value <= 1.0
    ensures CoverageResult(CoverageOf(k, lists)) == Some(1.0) <==> forall i :: 0 <= i < |lists| ==> |lists[i]| >= k
  {
    var s := CoverageOf(k, lists).results;
    CoverageSamples(k, lists);
    CoverageRange(s, k);
    AvgAtMax(s, k as real);
    var a := Avg(s).value;
    assert CoverageResult(CoverageOf(k, lists)) == Some(a / k as real);
    DivIsOne(a, k as real);
    if forall i :: 0 <= i < |lists| ==> |lists[i]| >= k {
      assert forall i :: 0 <= i < |s| ==> s[i] == k as real;
    }
  }

  lemma DivIsOne(a: real, d: real)
    requires d > 0.0
    ensures a / d == 1.0 <==> a == d
  {
    DivMul(a, d);
  }

  /** Samples bounded by `hi` average to `hi` exactly when all of them equal it. */
  lemma AvgAtMax(s: seq<real>, hi: real)
    requires |s| > 0
    requires forall i :: 0 <= i < |s| ==> s[i] <= hi
    ensures Avg(s).value == hi <==> forall i :: 0 <= i < |s| ==> s[i] == hi
  {
    if forall i :: 0 <= i < |s| ==> s[i] == hi {
      SumRealConst(s, hi);
    }
    if Avg(s).value == hi {
      SumRealAtMax(s, hi);
    }
  }

  lemma CoverageRange(s: seq<real>, k: int)
    requires k > 0 && |s| > 0
    requires forall i :: 0 <= i < |s| ==> 0.0 <= s[i] <= k as real
    ensures 0.0 <= Avg(s).value / k as real <= 1.0
  {
    AvgBounds(s, 0.0, k as real);
  }

  lemma {:induction false} SumRealConst(s: seq<real>, c: real)
    requires forall i :: 0 <= i < |s| ==> s[i] == c
    ensures SumReal(s) == |s| as real * c
  {
    if |s| > 0 {
      SumRealConst(s[1..], c);
    }
  }

  /** Samples bounded by `hi` that sum to `|s| * hi` all equal `hi`. */
  lemma {:induction false} SumRealAtMax(s: seq<real>, hi: real)
    requires forall i :: 0 <= i < |s| ==> s[i] <= hi
    requires SumReal(s) == |s| as real * hi
    ensures forall i :: 0 <= i < |s| ==> s[i] == hi
  {
    if |s| > 0 {
      var rest := s[1..];
      assert forall i :: 0 <= i < |rest| ==> rest[i] <= hi;
      UpperSum(rest, hi);
      assert |s| as real * hi == hi + |rest| as real * hi;
      assert SumReal(s) == s[0] + SumReal(rest);
      assert s[0] == hi;
      SumRealAtMax(rest, hi);
      forall i | 1 <= i < |s| ensures s[i] == hi {
        assert s[i] == rest[i - 1];
      }
    }
  }

  lemma {:induction false} UpperSum(s: seq<real>, hi: real)
    requires forall i :: 0 <= i < |s| ==> s[i] <= hi
    ensures SumReal(s) <= |s| as real * hi
  {
    if |s| > 0 {
      UpperSum(s[1..], hi);
    }
  }

  // ---------------------------------------------------------------------------
  // NbRecItems

  datatype Distinctness = Distinctness(k: int, unique: set<int>)

  /** `NbRecItems.evaluate`: the first `k` recommendations join the set of distinct
      recommended ids; a negative `k` makes the sub-list request throw. */
  function EvaluateNb(st: Distinctness, recs: seq<int>): (r: Result<Distinctness>)
    ensures r.Err? <==> st.k < 0
    ensures r.Ok? ==> r.value.k == st.k
    ensures r.Ok? ==> forall x :: x in r.value.unique <==> x in st.unique || x in recs[..Min(|recs|, st.k)]
  {
    if st.k < 0 then Err("IndexOutOfBoundsException")
    else Ok(st.(unique := st.unique + Elems(recs[..Min(|recs|, st.k)])))
  }

  /** `NbRecItems.getResults`: the number of distinct ids recommended. */
  function NbResult(st: Distinctness): nat {
    |st.unique|
  }

  /** The count never decreases, and evaluating the same list again changes nothing. */
  lemma NbMonotoneIdempotent(st: Distinctness, recs: seq<int>)
    requires st.k >= 0
    ensures NbResult(st) <= NbResult(EvaluateNb(st, recs).value)
    ensures EvaluateNb(EvaluateNb(st, recs).value, recs) == EvaluateNb(st, recs)
  {
    var r := EvaluateNb(st, recs).value;
    assert st.unique <= r.unique;
    SubsetCard(st.unique, r.unique);
  }

  lemma SubsetCard(a: set<int>, b: set<int>)
    requires a <= b
    ensures |a| <= |b|
  {
    assert b == a + (b - a);
  }

  // ---------------------------------------------------------------------------
  // F1 and MeanF1

  /** The harmonic mean used by both F1 variants, 0 when both inputs are 0. */
  function Harmonic(p: real, r: real): real {
    if p + r == 0.0 then 0.0 else 2.0 * (p * r) / (p + r)
  }

  /** The harmonic mean is symmetric and, for non-negative inputs, lies between them. */
  lemma HarmonicBetween(p: real, r: real)
    requires p >= 0.0 && r >= 0.0
    ensures Harmonic(p, r) == Harmonic(r, p)
    ensures Min2(p, r) <= Harmonic(p, r) <= Max2(p, r)
  {
    if p + r != 0.0 {
      assert p * r == r * p;
      if p <= r {
        HarmonicOrdered(p, r);
      } else {
        HarmonicOrdered(r, p);
      }
    }
  }

  lemma HarmonicOrdered(lo: real, hi: real)
    requires 0.0 <= lo <= hi && lo + hi != 0.0
    ensures lo <= 2.0 * (lo * hi) / (lo + hi) <= hi
  {
    var d := lo + hi;
    MulMono(lo, hi, lo);
    MulMono(lo, hi, hi);
    assert lo * d == lo * lo + lo * hi;
    assert hi * d == hi * lo + hi * hi;
    assert lo * hi == hi * lo;
    DivWithin(lo, 2.0 * (lo * hi), hi, d);
  }

  lemma MulMono(a: real, b: real, c: real)
    requires a <= b && c >= 0.0
    ensures a * c <= b * c
  {
  }

  lemma DivMul(num: real, d: real)
    requires d > 0.0
    ensures (num / d) * d == num
  {
  }

  /** A quotient lies between two bounds when the numerator lies between their
      multiples. */
  lemma DivWithin(lo: real, num: real, hi: real, d: real)
    requires d > 0.0
    requires lo * d <= num <= hi * d
    ensures lo <= num / d <= hi
  {
  }

  function Min2(a: real, b: real): real {
    if a <= b then a else b
  }

  function Max2(a: real, b: real): real {
    if a <= b then b else a
  }

  /** The Precision and Recall delegates, created on the first evaluation with the
      metric's `k` at that time. */
  datatype Delegates = Delegates(precision: PR, recall: PR)

  function NewDelegates(k: int): Delegates {
    Delegates(PR(Precision, k, []), PR(Recall, k, []))
  }

  /** Both delegates evaluate the same list; Precision first. */
  function EvaluateDelegates(d: Option<Delegates>, k: int, recs: seq<int>, gt: Option<set<int>>): (r: Result<Delegates>)
    requires d.Some? ==> d.value.precision.k > 0 && d.value.recall.k > 0
    requires d.None? ==> k > 0
    ensures r.Ok? ==> r.value.precision.kind == (if d.Some? then d.value.precision.kind else Precision)
    ensures r.Ok? ==> r.value.recall.kind == (if d.Some? then d.value.recall.kind else Recall)
    ensures r.Ok? ==> r.value.precision.k > 0 && r.value.recall.k > 0
    ensures d.None? ==> r.Ok? ==> r.value.precision.k == k && r.value.recall.k == k
  {
    var ds := if d.Some? then d.value else NewDelegates(k);
    var p :- EvaluatePR(ds.precision, recs, gt);
    var q :- EvaluatePR(ds.recall, recs, gt);
    Ok(Delegates(p, q))
  }

  /** Precision and Recall with the same `k` record a sample under the same conditions,
      so their sample lists pair up index by index. */
  lemma DelegatesPair(d: Option<Delegates>, k: int, recs: seq<int>, gt: Option<set<int>>)
    requires d.Some? ==> d.value.precision == PR(Precision, d.value.precision.k, d.value.precision.results)
    requires d.Some? ==> d.value.recall == PR(Recall, d.value.precision.k, d.value.recall.results)
    requires d.Some? ==> d.value.precision.k > 0 && |d.value.precision.results| == |d.value.recall.results|
    requires d.None? ==> k > 0
    ensures var r := EvaluateDelegates(d, k, recs, gt);
      r.Ok? ==> r.value.recall.k == r.value.precision.k &&
                |r.value.precision.results| == |r.value.recall.results|
  {
  }

  /** `F1.getResults`: the harmonic mean of the mean Precision and mean Recall; a null
      delegate (no evaluation yet) throws, and a NaN mean gives NaN. */
  function F1Result(d: Option<Delegates>): (r: Result<Option<real>>)
    ensures r.Err? <==> d.None?
    ensures r.Ok? ==> (r.value.Some? <==> |d.value.precision.results| > 0 && |d.value.recall.results| > 0)
    ensures r.Ok? && r.value.Some? ==>
      r.value.value == Harmonic(Avg(d.value.precision.results).value, Avg(d.value.recall.results).value)
  {
    if d.None? then Err("NullPointerException")
    else
      match (Avg(d.value.precision.results), Avg(d.value.recall.results))
      case (Some(p), Some(r)) => Ok(Some(Harmonic(p, r)))
      case _ => Ok(None)
  }

  /** The per-sample F1 values of two paired sample lists. */
  function PairwiseF1(ps: seq<real>, rs: seq<real>): (r: seq<real>)
    requires |rs| >= |ps|
    ensures |r| == |ps|
    ensures forall i :: 0 <= i < |ps| ==> r[i] == Harmonic(ps[i], rs[i])
  {
    if |ps| == 0 then [] else [Harmonic(ps[0], rs[0])] + PairwiseF1(ps[1..], rs[1..])
  }

  datatype MeanF1State = MeanF1State(k: int, delegates: Option<Delegates>, cache: Option<seq<real>>)

  /** `MeanF1.getResults`: computes the per-sample F1 list once and keeps it; the mean of
      that list is the result. A missing delegate throws, and so does a Recall list
      shorter than the Precision list. */
  function MeanF1Results(st: MeanF1State): (r: Result<(MeanF1State, Option<real>)>)
    ensures st.cache.Some? ==> r == Ok((st, Avg(st.cache.value)))
    ensures st.cache.None? ==> (r.Err? <==>
      st.delegates.None? || |st.delegates.value.recall.results| < |st.delegates.value.precision.results|)
    ensures r.Ok? ==> r.value.0.cache.Some? && r.value.1 == Avg(r.value.0.cache.value)
    ensures r.Ok? ==> r.value.0.k == st.k && r.value.0.delegates == st.delegates
    ensures r.Ok? && st.cache.None? ==>
      |r.value.0.cache.value| == |st.delegates.value.precision.results| &&
      forall i :: 0 <= i < |r.value.0.cache.value| ==>
        r.value.0.cache.value[i]
        == Harmonic(st.delegates.value.precision.results[i], st.delegates.value.recall.results[i])
  {
    if st.cache.Some? then Ok((st, Avg(st.cache.value)))
    else if st.delegates.None? then Err("NullPointerException")
    else
      var ps := st.delegates.value.precision.results;
      var rs := st.delegates.value.recall.results;
      if |rs| < |ps| then Err("IndexOutOfBoundsException")
      else
        var cache := PairwiseF1(ps, rs);
        Ok((st.(cache := Some(cache)), Avg(cache)))
  }

  // ---------------------------------------------------------------------------
  // Runtime

  datatype RuntimeType = Training | Testing | InBetweenTraining

  datatype Resolution = Milliseconds | Seconds | Minutes | Hours

  /** `value` is the stored duration; `None` stands for a value that is not a finite number
      (NaN or Infinity, as a division by an empty queue's size gives). */
  datatype RuntimeState = RuntimeState(rtype: RuntimeType, resolution: Option<Resolution>, value: Option<real>)

  /** Milliseconds per unit of each resolution. */
  function MillisPerUnit(res: Resolution): real {
    match res
    case Milliseconds => 1.0
    case Seconds => 1000.0
    case Minutes => 60000.0
    case Hours => 3600000.0
  }

  /** `setRuntime`: stores a duration in milliseconds converted to the configured unit by
      successive divisions; switching on an unset resolution throws. A value that is not a
      finite number stays one. */
  function SetRuntime(st: RuntimeState, millis: Option<real>): (r: Result<RuntimeState>)
    ensures r.Err? <==> st.resolution.None?
    ensures r.Ok? ==> r.value.rtype == st.rtype && r.value.resolution == st.resolution
    ensures r.Ok? ==> (r.value.value.None? <==> millis.None?)
    ensures r.Ok? && millis.Some? ==> r.value.value.value * MillisPerUnit(st.resolution.value) == millis.value
  {
    match st.resolution
    case None => Err("NullPointerException")
    case Some(res) =>
      match millis
      case None => Ok(st.(value := None))
      case Some(ms) =>
        match res
        case Seconds => Ok(st.(value := Some(ms / 1000.0)))
        case Minutes => Ok(st.(value := Some(ms / 1000.0 / 60.0)))
        case Hours => Ok(st.(value := Some(ms / 1000.0 / 60.0 / 60.0)))
        case Milliseconds => Ok(st.(value := Some(ms)))
  }

  // ---------------------------------------------------------------------------
  // The metric objects

  datatype Body =
    | PrecisionOrRecall(pr: PR)
    | Mrr(mrr: Samples)
    | Coverage(coverage: Samples)
    | NbRecItems(nb: Distinctness)
    | F1(f1k: int, f1: Option<Delegates>)
    | MeanF1(meanF1: MeanF1State)
    | Runtime(runtime: RuntimeState)

  /** A configured metric: its name, the algorithm it belongs to and its state. */
  datatype Metric = Metric(name: string, algorithm: string, body: Body)

  /** The cut-off `k` of a metric's state, for the kinds that have one. */
  function KOf(b: Body): int {
    match b
    case PrecisionOrRecall(pr) => pr.k
    case Mrr(s) => s.k
    case Coverage(s) => s.k
    case NbRecItems(n) => n.k
    case F1(k, _) => k
    case MeanF1(m) => m.k
    case Runtime(_) => DefaultK
  }

  /** `setK` on a metric that has not evaluated yet; delegates created later take it. */
  function SetK(m: Metric, k: int): (r: Metric)
    ensures r.name == m.name && r.algorithm == m.algorithm
    ensures !m.body.Runtime? ==> KOf(r.body) == k
    ensures m.body.Runtime? ==> r == m
  {
    match m.body
    case PrecisionOrRecall(pr) => m.(body := PrecisionOrRecall(pr.(k := k)))
    case Mrr(s) => m.(body := Mrr(s.(k := k)))
    case Coverage(s) => m.(body := Coverage(s.(k := k)))
    case NbRecItems(n) => m.(body := NbRecItems(n.(k := k)))
    case F1(_, d) => m.(body := F1(k, d))
    case MeanF1(s) => m.(body := MeanF1(s.(k := k)))
    case Runtime(_) => m
  }

  /** The metric states `evaluate` can be called on: Precision, Recall and the F1
      variants with a positive `k` (their delegates included). */
  ghost predicate Evaluable(m: Metric) {
    match m.body
    case PrecisionOrRecall(pr) => pr.k > 0
    case F1(k, d) => (d.None? ==> k > 0) && (d.Some? ==> d.value.precision.k > 0 && d.value.recall.k > 0)
    case MeanF1(s) => (s.delegates.None? ==> s.k > 0)
                      && (s.delegates.Some? ==> s.delegates.value.precision.k > 0 && s.delegates.value.recall.k > 0)
    case _ => true
  }

  /** `evaluate` on any metric. The click itself is read by no metric. `order` is the
      iteration order of the ground-truth set. */
  function Evaluate(m: Metric, recs: seq<int>, gt: Option<set<int>>, order: seq<int>): (r: Result<Metric>)
    requires Evaluable(m)
    requires gt.Some? ==> Enumerates(order, gt.value)
    ensures r.Ok? ==> r.value.name == m.name && r.value.algorithm == m.algorithm
    ensures r.Ok? ==> Evaluable(r.value)
    ensures r.Ok? ==> KOf(r.value.body) == KOf(m.body)
    ensures m.body.Runtime? ==> r == Ok(m)
    ensures m.body.Mrr? || m.body.Coverage? || m.body.Runtime? ==> r.Ok?
    ensures r.Err? ==> m.body.PrecisionOrRecall? || m.body.NbRecItems? || m.body.F1? || m.body.MeanF1?
    ensures r.Ok? && m.body.MeanF1? ==> r.value.body.MeanF1? && r.value.body.meanF1.cache == m.body.meanF1.cache
  {
    match m.body
    case PrecisionOrRecall(pr) =>
      var pr' :- EvaluatePR(pr, recs, gt);
      Ok(m.(body := PrecisionOrRecall(pr')))
    case Mrr(s) => Ok(m.(body := Mrr(EvaluateMrr(s, recs, gt, order))))
    case Coverage(s) => Ok(m.(body := Coverage(EvaluateCoverage(s, recs))))
    case NbRecItems(n) =>
      var n' :- EvaluateNb(n, recs);
      Ok(m.(body := NbRecItems(n')))
    case F1(k, d) =>
      var d' :- EvaluateDelegates(d, k, recs, gt);
      Ok(m.(body := F1(k, Some(d'))))
    case MeanF1(s) =>
      var d' :- EvaluateDelegates(s.delegates, s.k, recs, gt);
      Ok(m.(body := MeanF1(s.(delegates := Some(d')))))
    case Runtime(_) => Ok(m)
  }

  /** `getResults` on any metric, with the state after the call (only MeanF1 changes,
      by filling its cache). `None` is NaN. */
  function GetResults(m: Metric): (r: Result<(Metric, Option<real>)>)
    ensures r.Ok? ==> r.value.0.name == m.name && r.value.0.algorithm == m.algorithm
    ensures !m.body.MeanF1? && r.Ok? ==> r.value.0 == m
    ensures r.Err? ==> m.body.F1? || m.body.MeanF1?
    ensures m.body.Runtime? ==> r == Ok((m, m.body.runtime.value))
  {
    match m.body
    case PrecisionOrRecall(pr) => Ok((m, Avg(pr.results)))
    case Mrr(s) => Ok((m, Avg(s.results)))
    case Coverage(s) => Ok((m, CoverageResult(s)))
    case NbRecItems(n) => Ok((m, Some(NbResult(n) as real)))
    case F1(_, d) =>
      var v :- F1Result(d);
      Ok((m, v))
    case MeanF1(s) =>
      var (s', v) :- MeanF1Results(s);
      Ok((m.(body := MeanF1(s')), v))
    case Runtime(rt) => Ok((m, rt.value))
  }

  /** Once MeanF1 has produced its result, later evaluations do not change it. */
  lemma MeanF1Cached(m: Metric, recs: seq<int>, gt: Option<set<int>>, order: seq<int>)
    requires m.body.MeanF1? && Evaluable(m)
    requires gt.Some? ==> Enumerates(order, gt.value)
    requires GetResults(m).Ok?
    ensures var m1 := GetResults(m).value.0;
      Evaluable(m1) && (Evaluate(m1, recs, gt, order).Ok? ==>
        GetResults(Evaluate(m1, recs, gt, order).value).Ok? &&
        GetResults(Evaluate(m1, recs, gt, order).value).value.1 == GetResults(m).value.1)
  {
  }
}
