/** `AlgorithmWrapper`: one algorithm's pass over the test queue (bulk training, then per
    package: training on an article; recommendation, training and evaluation on a click),
    the progress percentages it reports, the runtime values it fills in, the result line
    it writes, and the aggregation of all algorithms' progress reports. */
module Wrapper {
  import opened Wrappers
  import opened Seqs
  import opened Events
  import opened JavaNum
  import opened JavaText
  import opened Metrics
  import opened Replay

  /** An algorithm as the wrapper sees it: `train` on new items and clicks, and
      `recommend`, which may update the algorithm's state. Either may throw; the wrapper
      does not catch what they throw. */
  datatype Algo<!S> = Algo(
    train: (S, seq<Item>, seq<ClickData>) -> Result<S>,
    recommend: (S, ClickData) -> Result<(S, seq<int>)>)

  /** The algorithm never throws. */
  ghost predicate NeverThrows<S(!new)>(a: Algo<S>) {
    (forall s, items, clicks :: a.train(s, items, clicks).Ok?) &&
    (forall s, cd :: a.recommend(s, cd).Ok?)
  }

  /** The observable calls the wrapper makes, in order. */
  datatype Call =
    | TrainCall(items: seq<Item>, clicks: seq<ClickData>)
    | RecommendCall(cd: ClickData)
    | EvaluateCall(cd: ClickData, recs: seq<int>, groundTruth: Option<set<int>>)

  datatype Outcome<S> = Outcome(algo: S, metrics: seq<Metric>, calls: seq<Call>)

  /** The hash-set iteration order assumed for every ground-truth set. */
  ghost predicate OrderFor(order: set<int> -> seq<int>) {
    forall s :: Enumerates(order(s), s)
  }

  ghost predicate AllEvaluable(ms: seq<Metric>) {
    forall j :: 0 <= j < |ms| ==> Evaluable(ms[j])
  }

  // ---------------------------------------------------------------------------
  // Metric evaluation

  /** Metric `j` is the first of the list whose evaluation throws. */
  predicate FirstFailure(ms: seq<Metric>, recs: seq<int>, gt: Option<set<int>>, order: seq<int>, j: int)
    requires AllEvaluable(ms)
    requires gt.Some? ==> Enumerates(order, gt.value)
  {
    0 <= j < |ms| && Evaluate(ms[j], recs, gt, order).Err? &&
    forall l :: 0 <= l < j ==> Evaluate(ms[l], recs, gt, order).Ok?
  }

  /** Every metric of the list evaluates without throwing. */
  predicate NoFailure(ms: seq<Metric>, recs: seq<int>, gt: Option<set<int>>, order: seq<int>)
    requires AllEvaluable(ms)
    requires gt.Some? ==> Enumerates(order, gt.value)
  {
    forall j :: 0 <= j < |ms| ==> Evaluate(ms[j], recs, gt, order).Ok?
  }

  /** `out` holds, in order, what every metric of `ms` evaluates to. */
  ghost predicate Evaluated(ms: seq<Metric>, recs: seq<int>, gt: Option<set<int>>, order: seq<int>, out: seq<Metric>)
    requires AllEvaluable(ms)
    requires gt.Some? ==> Enumerates(order, gt.value)
  {
    |out| == |ms| && AllEvaluable(out) &&
    forall j :: 0 <= j < |ms| ==>
      (Evaluate(ms[j], recs, gt, order).Ok? && out[j] == Evaluate(ms[j], recs, gt, order).value)
  }

  /** Every metric in list order evaluates the same list; the first exception is
      rethrown with the algorithm's name in front of its message. */
  function EvaluateAll(name: string, ms: seq<Metric>, recs: seq<int>, gt: Option<set<int>>, order: seq<int>)
    : (r: Result<seq<Metric>>)
    requires AllEvaluable(ms)
    requires gt.Some? ==> Enumerates(order, gt.value)
    ensures r.Ok? <==> NoFailure(ms, recs, gt, order)
    ensures r.Ok? ==> Evaluated(ms, recs, gt, order, r.value)
    ensures r.Err? ==> exists j :: (FirstFailure(ms, recs, gt, order, j) &&
      r.msg == name + ": " + Evaluate(ms[j], recs, gt, order).msg)
  {
    if |ms| == 0 then Ok([])
    else
      match Evaluate(ms[0], recs, gt, order)
      case Err(e) =>
        assert FirstFailure(ms, recs, gt, order, 0);
        Err(name + ": " + e)
      case Ok(m) =>
        var rest := EvaluateAll(name, ms[1..], recs, gt, order);
        match rest
        case Ok(ms') =>
          TailNoFailure(ms, recs, gt, order);
          EvaluatedCons(ms, recs, gt, order, ms');
          Ok([m] + ms')
        case Err(e) =>
          TailNoFailure(ms, recs, gt, order);
          var j :| FirstFailure(ms[1..], recs, gt, order, j) && e == name + ": " + Evaluate(ms[1..][j], recs, gt, order).msg;
          FailureShift(ms, recs, gt, order, j);
          Err(e)
  }

  lemma EvaluatedCons(ms: seq<Metric>, recs: seq<int>, gt: Option<set<int>>, order: seq<int>, out: seq<Metric>)
    requires AllEvaluable(ms) && |ms| > 0
    requires gt.Some? ==> Enumerates(order, gt.value)
    requires Evaluate(ms[0], recs, gt, order).Ok?
    requires AllEvaluable(ms[1..]) && Evaluated(ms[1..], recs, gt, order, out)
    ensures Evaluated(ms, recs, gt, order, [Evaluate(ms[0], recs, gt, order).value] + out)
  {
    var r := [Evaluate(ms[0], recs, gt, order).value] + out;
    forall j | 0 <= j < |ms|
      ensures Evaluable(r[j])
      ensures Evaluate(ms[j], recs, gt, order).Ok? && r[j] == Evaluate(ms[j], recs, gt, order).value
    {
      if j > 0 {
        assert r[j] == out[j - 1] && ms[1..][j - 1] == ms[j];
      }
    }
  }

  /** A list whose head evaluates fails nowhere exactly when its tail fails nowhere. */
  lemma TailNoFailure(ms: seq<Metric>, recs: seq<int>, gt: Option<set<int>>, order: seq<int>)
    requires AllEvaluable(ms) && |ms| > 0
    requires gt.Some? ==> Enumerates(order, gt.value)
    requires Evaluate(ms[0], recs, gt, order).Ok?
    ensures AllEvaluable(ms[1..])
    ensures NoFailure(ms, recs, gt, order) <==> NoFailure(ms[1..], recs, gt, order)
  {
    assert forall j :: 1 <= j < |ms| ==> ms[1..][j - 1] == ms[j];
  }

  /** The first failure of the tail, one further on, is the first failure of the list. */
  lemma FailureShift(ms: seq<Metric>, recs: seq<int>, gt: Option<set<int>>, order: seq<int>, j: int)
    requires AllEvaluable(ms) && |ms| > 0
    requires gt.Some? ==> Enumerates(order, gt.value)
    requires Evaluate(ms[0], recs, gt, order).Ok?
    requires AllEvaluable(ms[1..]) && FirstFailure(ms[1..], recs, gt, order, j)
    ensures FirstFailure(ms, recs, gt, order, j + 1) && ms[j + 1] == ms[1..][j]
  {
    assert forall l :: 1 <= l < |ms| ==> ms[1..][l - 1] == ms[l];
  }

  // ---------------------------------------------------------------------------
  // The dispatch loop

  /** One work package. An exception of the algorithm's `recommend` or `train` leaves the
      package as it is, without the algorithm's name; a metric's exception is rethrown with
      it. */
  function Step<S>(name: string, a: Algo<S>, order: set<int> -> seq<int>, o: Outcome<S>, wp: WorkPackage)
    : (r: Result<Outcome<S>>)
    requires OrderFor(order) && AllEvaluable(o.metrics)
    ensures wp.ArticlePackage? ==> var t := a.train(o.algo, [wp.item], []);
      (t.Err? ==> r == Err(t.msg)) &&
      (t.Ok? ==> r == Ok(Outcome(t.value, o.metrics, o.calls + [TrainCall([wp.item], [])])))
    ensures r.Ok? ==> AllEvaluable(r.value.metrics) && |r.value.metrics| == |o.metrics|
    ensures wp.ClickPackage? && a.recommend(o.algo, wp.clickData).Err? ==>
      r == Err(a.recommend(o.algo, wp.clickData).msg)
    ensures wp.ClickPackage? && a.recommend(o.algo, wp.clickData).Ok? ==>
      var (s1, recs) := a.recommend(o.algo, wp.clickData).value;
      var t := a.train(s1, [], [wp.clickData]);
      var gt := wp.groundTruth;
      (t.Err? ==> r == Err(t.msg)) &&
      (t.Ok? ==> (r.Err? <==> EvaluateAll(name, o.metrics, recs, gt, if gt.Some? then order(gt.value) else []).Err?)) &&
      (t.Ok? && r.Err? ==> r.msg == EvaluateAll(name, o.metrics, recs, gt, if gt.Some? then order(gt.value) else []).msg) &&
      (r.Ok? ==> (t.Ok? && r.value.algo == t.value &&
                  r.value.calls == o.calls + [RecommendCall(wp.clickData), TrainCall([], [wp.clickData]),
                                              EvaluateCall(wp.clickData, recs, gt)]))
  {
    match wp
    case ArticlePackage(item) =>
      var s1 :- a.train(o.algo, [item], []);
      Ok(Outcome(s1, o.metrics, o.calls + [TrainCall([item], [])]))
    case ClickPackage(cd, gt) =>
      var rec :- a.recommend(o.algo, cd);
      var s2 :- a.train(rec.0, [], [cd]);
      var ms :- EvaluateAll(name, o.metrics, rec.1, gt, if gt.Some? then order(gt.value) else []);
      Ok(Outcome(s2, ms, o.calls + [RecommendCall(cd), TrainCall([], [cd]), EvaluateCall(cd, rec.1, gt)]))
  }

  /** The packages in queue order; the first exception ends the run. */
  function RunQueue<S(!new)>(name: string, a: Algo<S>, order: set<int> -> seq<int>, o: Outcome<S>, queue: seq<WorkPackage>)
    : (r: Result<Outcome<S>>)
    requires OrderFor(order) && AllEvaluable(o.metrics)
    ensures r.Ok? ==> AllEvaluable(r.value.metrics) && |r.value.metrics| == |o.metrics|
    ensures r.Ok? ==> |o.calls| <= |r.value.calls| && r.value.calls[..|o.calls|] == o.calls
    ensures r.Err? && NeverThrows(a) ==> |r.msg| >= |name| + 2 && r.msg[..|name| + 2] == name + ": "
    decreases |queue|
  {
    if |queue| == 0 then Ok(o)
    else
      var o1 :- Step(name, a, order, o, queue[0]);
      RunQueue(name, a, order, o1, queue[1..])
  }

  /** `run`: one bulk training call on the training data, then the test queue. */
  function Run<S(!new)>(name: string, a: Algo<S>, order: set<int> -> seq<int>, s: S, ms: seq<Metric>,
                  trainItems: seq<Item>, trainClicks: seq<ClickData>, queue: seq<WorkPackage>)
    : (r: Result<Outcome<S>>)
    requires OrderFor(order) && AllEvaluable(ms)
    ensures a.train(s, trainItems, trainClicks).Err? ==> r == Err(a.train(s, trainItems, trainClicks).msg)
    ensures r.Ok? ==> |r.value.calls| > 0 && r.value.calls[0] == TrainCall(trainItems, trainClicks)
  {
    var s0 :- a.train(s, trainItems, trainClicks);
    RunQueue(name, a, order, Outcome(s0, ms, [TrainCall(trainItems, trainClicks)]), queue)
  }

  // ---------------------------------------------------------------------------
  // Properties of the call trace

  /** What a package hands to `train`: the article, or the click. */
  function PackageBatch(wp: WorkPackage): Call {
    match wp
    case ArticlePackage(item) => TrainCall([item], [])
    case ClickPackage(cd, _) => TrainCall([], [cd])
  }

  function PackageBatches(queue: seq<WorkPackage>): seq<Call> {
    if |queue| == 0 then [] else [PackageBatch(queue[0])] + PackageBatches(queue[1..])
  }

  function PackageClicks(wp: WorkPackage): seq<ClickData> {
    if wp.ClickPackage? then [wp.clickData] else []
  }

  /** The training calls of a trace, in order. */
  function TrainCalls(calls: seq<Call>): (r: seq<Call>)
    ensures forall i :: 0 <= i < |r| ==> r[i].TrainCall?
  {
    if |calls| == 0 then []
    else (if calls[0].TrainCall? then [calls[0]] else []) + TrainCalls(calls[1..])
  }

  /** The click data of every click package, in queue order. */
  function ClickDatas(queue: seq<WorkPackage>): seq<ClickData> {
    if |queue| == 0 then []
    else PackageClicks(queue[0]) + ClickDatas(queue[1..])
  }

  /** The click data passed to `recommend`, in order. */
  function Recommended(calls: seq<Call>): seq<ClickData> {
    if |calls| == 0 then []
    else (if calls[0].RecommendCall? then [calls[0].cd] else []) + Recommended(calls[1..])
  }

  lemma {:induction false} TrainCallsAppend(a: seq<Call>, b: seq<Call>)
    ensures TrainCalls(a + b) == TrainCalls(a) + TrainCalls(b)
  {
    if |a| == 0 {
      assert a + b == b;
    } else {
      assert (a + b)[0] == a[0] && (a + b)[1..] == a[1..] + b;
      TrainCallsAppend(a[1..], b);
    }
  }

  lemma {:induction false} RecommendedAppend(a: seq<Call>, b: seq<Call>)
    ensures Recommended(a + b) == Recommended(a) + Recommended(b)
  {
    if |a| == 0 {
      assert a + b == b;
    } else {
      assert (a + b)[0] == a[0] && (a + b)[1..] == a[1..] + b;
      RecommendedAppend(a[1..], b);
    }
  }

  /** One package adds its training call, and for a click its recommendation call, to
      the trace. */
  lemma StepTrace<S>(name: string, a: Algo<S>, order: set<int> -> seq<int>, o: Outcome<S>, wp: WorkPackage)
    requires OrderFor(order) && AllEvaluable(o.metrics)
    requires Step(name, a, order, o, wp).Ok?
    ensures var calls := Step(name, a, order, o, wp).value.calls;
      TrainCalls(calls) == TrainCalls(o.calls) + [PackageBatch(wp)] &&
      Recommended(calls) == Recommended(o.calls) + PackageClicks(wp)
  {
    var o1 := Step(name, a, order, o, wp).value;
    match wp
    case ArticlePackage(item) =>
      var added := [TrainCall([item], [])];
      assert o1.calls == o.calls + added;
      ArticleCallsTrace(item);
      TrainCallsAppend(o.calls, added);
      RecommendedAppend(o.calls, added);
    case ClickPackage(cd, gt) =>
      var recs := a.recommend(o.algo, cd).value.1;
      var added := [RecommendCall(cd), TrainCall([], [cd]), EvaluateCall(cd, recs, gt)];
      assert o1.calls == o.calls + added;
      ClickCallsTrace(cd, recs, gt);
      TrainCallsAppend(o.calls, added);
      RecommendedAppend(o.calls, added);
  }

  lemma ArticleCallsTrace(item: Item)
    ensures TrainCalls([TrainCall([item], [])]) == [TrainCall([item], [])]
    ensures Recommended([TrainCall([item], [])]) == []
  {
    assert [TrainCall([item], [])][1..] == [];
  }

  lemma ClickCallsTrace(cd: ClickData, recs: seq<int>, gt: Option<set<int>>)
    ensures TrainCalls([RecommendCall(cd), TrainCall([], [cd]), EvaluateCall(cd, recs, gt)]) == [TrainCall([], [cd])]
    ensures Recommended([RecommendCall(cd), TrainCall([], [cd]), EvaluateCall(cd, recs, gt)]) == [cd]
  {
    var e := [EvaluateCall(cd, recs, gt)];
    assert e[1..] == [];
    assert TrainCalls(e) == [] && Recommended(e) == [];
    var t := [TrainCall([], [cd])] + e;
    assert t[1..] == e;
    assert TrainCalls(t) == [TrainCall([], [cd])] && Recommended(t) == [];
    var added := [RecommendCall(cd)] + t;
    assert added[1..] == t;
    assert added == [RecommendCall(cd), TrainCall([], [cd]), EvaluateCall(cd, recs, gt)];
  }

  /** A completed queue trains on exactly one batch per package, in queue order, and
      asks for recommendations exactly once per click, in queue order. */
  lemma {:induction false} RunQueueTrace<S(!new)>(name: string, a: Algo<S>, order: set<int> -> seq<int>, o: Outcome<S>,
                                            queue: seq<WorkPackage>)
    requires OrderFor(order) && AllEvaluable(o.metrics)
    requires RunQueue(name, a, order, o, queue).Ok?
    ensures var calls := RunQueue(name, a, order, o, queue).value.calls;
      TrainCalls(calls) == TrainCalls(o.calls) + PackageBatches(queue) &&
      Recommended(calls) == Recommended(o.calls) + ClickDatas(queue)
    decreases |queue|
  {
    if |queue| > 0 {
      var o1 := Step(name, a, order, o, queue[0]).value;
      StepTrace(name, a, order, o, queue[0]);
      RunQueueTrace(name, a, order, o1, queue[1..]);
      assert RunQueue(name, a, order, o, queue) == RunQueue(name, a, order, o1, queue[1..]);
      var t0, t1 := TrainCalls(o.calls), TrainCalls(o1.calls);
      assert t1 == t0 + [PackageBatch(queue[0])];
      var r0, r1 := Recommended(o.calls), Recommended(o1.calls);
      assert r1 == r0 + PackageClicks(queue[0]);
      assert (t0 + [PackageBatch(queue[0])]) + PackageBatches(queue[1..]) == t0 + PackageBatches(queue);
      assert (r0 + PackageClicks(queue[0])) + ClickDatas(queue[1..]) == r0 + ClickDatas(queue);
    } else {
      assert RunQueue(name, a, order, o, queue) == Ok(o);
    }
  }

  /** A whole run trains first on the bulk training data and then once per package, and
      recommends once per click. */
  lemma RunTrace<S(!new)>(name: string, a: Algo<S>, order: set<int> -> seq<int>, s: S, ms: seq<Metric>,
                    trainItems: seq<Item>, trainClicks: seq<ClickData>, queue: seq<WorkPackage>)
    requires OrderFor(order) && AllEvaluable(ms)
    requires Run(name, a, order, s, ms, trainItems, trainClicks, queue).Ok?
    ensures var calls := Run(name, a, order, s, ms, trainItems, trainClicks, queue).value.calls;
      TrainCalls(calls) == [TrainCall(trainItems, trainClicks)] + PackageBatches(queue) &&
      Recommended(calls) == ClickDatas(queue)
  {
    var o := Outcome(a.train(s, trainItems, trainClicks).value, ms, [TrainCall(trainItems, trainClicks)]);
    RunQueueTrace(name, a, order, o, queue);
    assert TrainCalls(o.calls) == [TrainCall(trainItems, trainClicks)];
    assert Recommended(o.calls) == [];
  }

  /** Every evaluation in a trace uses the list just recommended for the same click, with
      the click's training call in between. */
  ghost predicate EvaluationsFollowRecommendations(calls: seq<Call>) {
    forall i :: 0 <= i < |calls| && calls[i].EvaluateCall? ==>
      i >= 2 && calls[i - 2] == RecommendCall(calls[i].cd) && calls[i - 1] == TrainCall([], [calls[i].cd])
  }

  lemma {:induction false} RunQueueEvaluations<S(!new)>(name: string, a: Algo<S>, order: set<int> -> seq<int>, o: Outcome<S>,
                                                  queue: seq<WorkPackage>)
    requires OrderFor(order) && AllEvaluable(o.metrics)
    requires EvaluationsFollowRecommendations(o.calls)
    requires RunQueue(name, a, order, o, queue).Ok?
    ensures EvaluationsFollowRecommendations(RunQueue(name, a, order, o, queue).value.calls)
    decreases |queue|
  {
    if |queue| > 0 {
      var o1 := Step(name, a, order, o, queue[0]).value;
      assert EvaluationsFollowRecommendations(o1.calls) by {
        var n := |o.calls|;
        forall i | 0 <= i < |o1.calls| && o1.calls[i].EvaluateCall?
          ensures i >= 2 && o1.calls[i - 2] == RecommendCall(o1.calls[i].cd)
                  && o1.calls[i - 1] == TrainCall([], [o1.calls[i].cd])
        {
          if i < n {
            assert o1.calls[i] == o.calls[i];
            assert o1.calls[i - 1] == o.calls[i - 1] && o1.calls[i - 2] == o.calls[i - 2];
          }
        }
      }
      RunQueueEvaluations(name, a, order, o1, queue[1..]);
    }
  }

  // ---------------------------------------------------------------------------
  // Progress percentages

  /** `(int)((i + 1) / n * 100)`: the percentage of the queue done after package `i`. */
  function Percentage(i: nat, n: nat): (p: int)
    requires i < n
    ensures 0 <= p <= 100
  {
    var p := (100 * (i + 1)) / n;
    PercentageBounds(i, n, p);
    p
  }

  /** The percentage is the share of the queue done, truncated to a whole number. */
  lemma PercentageTruncates(i: nat, n: nat)
    requires i < n
    ensures var p := Percentage(i, n);
      p as real <= (i + 1) as real / n as real * 100.0 < p as real + 1.0
  {
    PercentageBounds(i, n, Percentage(i, n));
  }

  lemma PercentageBounds(i: nat, n: nat, p: int)
    requires i < n && p == (100 * (i + 1)) / n
    ensures 0 <= p <= 100
    ensures p as real <= (i + 1) as real / n as real * 100.0 < p as real + 1.0
  {
    var num := 100 * (i + 1);
    assert p * n <= num < p * n + n by {
      DivBounds(num, n);
    }
    assert p <= 100 by {
      if p > 100 {
        MulLe(101, p, n);
      }
    }
    var x := (i + 1) as real / n as real * 100.0;
    assert x * n as real == num as real;
    assert (p * n) as real == p as real * n as real;
    assert ((p + 1) * n) as real == (p as real + 1.0) * n as real;
    DivWithinStrict(p as real, num as real, p as real + 1.0, n as real);
    assert x == num as real / n as real;
  }

  lemma MulLe(a: int, b: int, n: int)
    requires a <= b && n >= 0
    ensures a * n <= b * n
  {
  }

  lemma DivWithinStrict(lo: real, num: real, hi: real, d: real)
    requires d > 0.0
    requires lo * d <= num < hi * d
    ensures lo <= num / d < hi
  {
  }

  /** With at least 100 packages the percentage grows by at most one per package. */
  lemma PercentageStep(i: nat, n: nat)
    requires i + 1 < n && n >= 100
    ensures Percentage(i, n) <= Percentage(i + 1, n) <= Percentage(i, n) + 1
  {
    DivBounds(100 * (i + 1), n);
    DivBounds(100 * (i + 2), n);
    QuotientStep(100 * (i + 1), 100 * (i + 2), n, Percentage(i, n), Percentage(i + 1, n));
  }

  /** Quotients by `n` of two numbers at most `n` apart differ by at most one. */
  lemma QuotientStep(a: int, b: int, n: int, p: int, q: int)
    requires n > 0 && a <= b <= a + n
    requires p * n <= a < p * n + n && q * n <= b < q * n + n
    ensures p <= q <= p + 1
  {
    if q < p {
      MulSucc(q, n);
      MulLe(q + 1, p, n);
    }
    if q > p + 1 {
      MulSucc(p, n);
      MulSucc(p + 1, n);
      MulLe(p + 2, q, n);
    }
  }

  lemma MulSucc(a: int, n: int)
    ensures (a + 1) * n == a * n + n
  {
  }

  /** The percentages reported while the loop runs over `n` packages: a percentage is
      reported when it equals the next expected one, which then moves up by one. */
  method ProgressReports(n: nat) returns (reports: seq<int>)
    ensures n > 100 ==> reports == Range(0, 101)
    ensures n <= 100 ==> reports == []
  {
    reports := [];
    var next := 0;
    var i := 0;
    while i < n
      invariant 0 <= i <= n
      invariant n > 100 && i > 0 ==> next == Percentage(i - 1, n) + 1 && reports == Range(0, next)
      invariant n > 100 && i == 0 ==> next == 0 && reports == []
      invariant n <= 100 ==> next == 0 && reports == []
    {
      var percentage := Percentage(i, n);
      if n <= 100 {
        PercentageAtLeastOne(i, n);
      } else if i == 0 {
        PercentageFirst(n);
      } else {
        PercentageStep(i - 1, n);
      }
      if percentage == next {
        next := next + 1;
        reports := reports + [percentage];
      }
      i := i + 1;
    }
    if n > 100 {
      PercentageLast(n);
    }
  }

  /** The integers from `lo` up to but not including `hi`. */
  function Range(lo: int, hi: int): (r: seq<int>)
    ensures |r| == if lo <= hi then hi - lo else 0
    ensures forall j :: 0 <= j < |r| ==> r[j] == lo + j
    decreases hi - lo
  {
    if lo >= hi then [] else Range(lo, hi - 1) + [hi - 1]
  }

  lemma PercentageAtLeastOne(i: nat, n: nat)
    requires i < n <= 100
    ensures Percentage(i, n) >= 1
  {
    DivBounds(100 * (i + 1), n);
    var p := Percentage(i, n);
    assert 100 * (i + 1) >= n;
  }

  lemma PercentageFirst(n: nat)
    requires n > 100
    ensures Percentage(0, n) == 0
  {
  }

  lemma PercentageLast(n: nat)
    requires n > 100
    ensures Percentage(n - 1, n) == 100
  {
    var p := Percentage(n - 1, n);
    DivBounds(100 * n, n);
    if p < 100 {
      MulLe(p + 1, 100, n);
    }
  }

  // ---------------------------------------------------------------------------
  // Runtime values

  /** The duration a runtime metric of type `t` receives: bulk training, in-between
      training, or the test time averaged over the packages. The average is a double
      division, so an empty queue gives NaN or Infinity instead of throwing. */
  function MeasuredMillis(t: RuntimeType, trainMs: int, inBetweenMs: int, testMs: int, queueSize: nat): (r: Option<real>)
    ensures r.None? <==> t == Testing && queueSize == 0
    ensures t == Training ==> r == Some(trainMs as real)
    ensures t == InBetweenTraining ==> r == Some(inBetweenMs as real)
    ensures t == Testing && r.Some? ==> r.value * queueSize as real == testMs as real
  {
    match t
    case Training => Some(trainMs as real)
    case InBetweenTraining => Some(inBetweenMs as real)
    case Testing => if queueSize == 0 then None else Some(testMs as real / queueSize as real)
  }

  /** A runtime metric is filled in with its measured duration in its own unit; any other
      metric is left alone. */
  function FillRuntime(m: Metric, trainMs: int, inBetweenMs: int, testMs: int, queueSize: nat): (r: Result<Metric>)
    ensures r.Err? <==> m.body.Runtime? && m.body.runtime.resolution.None?
    ensures r.Ok? && !m.body.Runtime? ==> r.value == m
    ensures r.Ok? && m.body.Runtime? ==>
      r.value.name == m.name && r.value.algorithm == m.algorithm && r.value.body.Runtime? &&
      r.value.body.runtime.rtype == m.body.runtime.rtype &&
      r.value.body.runtime.resolution == m.body.runtime.resolution &&
      (r.value.body.runtime.value.None? <==> m.body.runtime.rtype == Testing && queueSize == 0) &&
      (r.value.body.runtime.value.Some? ==>
        r.value.body.runtime.value.value * MillisPerUnit(m.body.runtime.resolution.value)
          == MeasuredMillis(m.body.runtime.rtype, trainMs, inBetweenMs, testMs, queueSize).value)
  {
    match m.body
    case Runtime(rt) =>
      var rt' :- SetRuntime(rt, MeasuredMillis(rt.rtype, trainMs, inBetweenMs, testMs, queueSize));
      Ok(m.(body := Runtime(rt')))
    case _ => Ok(m)
  }

  /** Every metric of the list filled in, in order; an unset resolution throws. */
  function FillRuntimes(ms: seq<Metric>, trainMs: int, inBetweenMs: int, testMs: int, queueSize: nat)
    : (r: Result<seq<Metric>>)
    ensures r.Err? <==> exists j :: 0 <= j < |ms| && FillRuntime(ms[j], trainMs, inBetweenMs, testMs, queueSize).Err?
    ensures r.Ok? ==> |r.value| == |ms|
    ensures r.Ok? ==> forall j :: 0 <= j < |ms| ==>
      r.value[j] == FillRuntime(ms[j], trainMs, inBetweenMs, testMs, queueSize).value
  {
    if |ms| == 0 then Ok([])
    else
      assert forall j :: 1 <= j < |ms| ==> ms[1..][j - 1] == ms[j];
      match FillRuntime(ms[0], trainMs, inBetweenMs, testMs, queueSize)
      case Err(e) => Err(e)
      case Ok(m) =>
        match FillRuntimes(ms[1..], trainMs, inBetweenMs, testMs, queueSize)
        case Err(e) =>
          var j :| 0 <= j < |ms[1..]| && FillRuntime(ms[1..][j], trainMs, inBetweenMs, testMs, queueSize).Err?;
          assert FillRuntime(ms[j + 1], trainMs, inBetweenMs, testMs, queueSize).Err?;
          Err(e)
        case Ok(rest) => Ok([m] + rest)
  }

  // ---------------------------------------------------------------------------
  // The result line

  /** `name;metric1;value1;metric2;value2;...;`: each metric's name and its formatted
      result, every field followed by ';'. */
  function ResultLine(name: string, pairs: seq<(string, string)>): string {
    name + ";" + PairsText(pairs)
  }

  function PairsText(pairs: seq<(string, string)>): string {
    if |pairs| == 0 then "" else pairs[0].0 + ";" + pairs[0].1 + ";" + PairsText(pairs[1..])
  }

  /** The metric fields of a result line: every metric name followed by its value. */
  function PairFields(pairs: seq<(string, string)>): (r: seq<string>)
    ensures |r| == 2 * |pairs|
    ensures forall j :: 0 <= j < |pairs| ==> r[2 * j] == pairs[j].0 && r[2 * j + 1] == pairs[j].1
  {
    if |pairs| == 0 then []
    else
      var rest := PairFields(pairs[1..]);
      assert forall j :: 1 <= j < |pairs| ==> pairs[1..][j - 1] == pairs[j];
      [pairs[0].0, pairs[0].1] + rest
  }

  /** Each field followed by ';': the metric part of the line. */
  lemma {:induction false} PairsTextTerminates(pairs: seq<(string, string)>)
    ensures PairsText(pairs) == if |pairs| == 0 then "" else Join(PairFields(pairs), ';') + ";"
  {
    if |pairs| > 0 {
      PairsTextTerminates(pairs[1..]);
      var rest := PairFields(pairs[1..]);
      var fields := PairFields(pairs);
      assert fields == [pairs[0].0, pairs[0].1] + rest;
      assert fields[1..] == [pairs[0].1] + rest;
      assert fields[1..][1..] == rest;
      if |pairs| == 1 {
        assert Join(fields, ';') == pairs[0].0 + ";" + pairs[0].1;
      } else {
        assert Join(fields, ';') == pairs[0].0 + ";" + (pairs[0].1 + ";" + Join(rest, ';'));
      }
    }
  }

  /** The line is the name and every metric field, each followed by ';'. */
  lemma ResultLineIsJoin(name: string, pairs: seq<(string, string)>)
    ensures ResultLine(name, pairs) == Join([name] + PairFields(pairs), ';') + ";"
  {
    PairsTextTerminates(pairs);
    var fields := [name] + PairFields(pairs);
    assert fields[1..] == PairFields(pairs);
    if |pairs| > 0 {
      assert Join(fields, ';') == name + ";" + Join(PairFields(pairs), ';');
    }
  }

  /** Splitting a result line on ';' gives back the name and every metric name and value,
      when no field contains ';' and the last field is not empty. */
  lemma ResultLineSplits(name: string, pairs: seq<(string, string)>)
    requires NoSep([name] + PairFields(pairs), ';')
    requires ([name] + PairFields(pairs))[2 * |pairs|] != ""
    ensures Split(ResultLine(name, pairs), ';') == [name] + PairFields(pairs)
  {
    ResultLineIsJoin(name, pairs);
    SplitJoinTerminated([name] + PairFields(pairs), ';');
  }

  /** `writeResult`: reads every metric's result in order and formats it. */
  function WriteResult(name: string, ms: seq<Metric>, format: Option<real> -> string)
    : (r: Result<(seq<Metric>, string)>)
    ensures r.Err? <==> exists j :: 0 <= j < |ms| && GetResults(ms[j]).Err?
    ensures r.Ok? ==> |r.value.0| == |ms|
    ensures r.Ok? ==> forall j :: 0 <= j < |ms| ==> r.value.0[j] == GetResults(ms[j]).value.0
    ensures r.Ok? ==> r.value.1 == ResultLine(name, ResultPairs(ms, format))
  {
    var results :- ReadResults(ms);
    Ok((Firsts(results), ResultLine(name, ResultPairs(ms, format))))
  }

  /** The results of every metric, in order. */
  function ReadResults(ms: seq<Metric>): (r: Result<seq<(Metric, Option<real>)>>)
    ensures r.Err? <==> exists j :: 0 <= j < |ms| && GetResults(ms[j]).Err?
    ensures r.Ok? ==> |r.value| == |ms| && forall j :: 0 <= j < |ms| ==> r.value[j] == GetResults(ms[j]).value
  {
    if |ms| == 0 then Ok([])
    else
      assert forall j :: 1 <= j < |ms| ==> ms[1..][j - 1] == ms[j];
      match GetResults(ms[0])
      case Err(e) => Err(e)
      case Ok(x) =>
        match ReadResults(ms[1..])
        case Err(e) =>
          var j :| 0 <= j < |ms[1..]| && GetResults(ms[1..][j]).Err?;
          assert GetResults(ms[j + 1]).Err?;
          Err(e)
        case Ok(xs) => Ok([x] + xs)
  }

  function Firsts(xs: seq<(Metric, Option<real>)>): (r: seq<Metric>)
    ensures |r| == |xs| && forall j :: 0 <= j < |xs| ==> r[j] == xs[j].0
  {
    if |xs| == 0 then [] else [xs[0].0] + Firsts(xs[1..])
  }

  /** Each metric's name with its formatted result; the result is the one read first,
      which for MeanF1 is also the cached one. */
  function ResultPairs(ms: seq<Metric>, format: Option<real> -> string): (r: seq<(string, string)>)
    ensures |r| == |ms|
    ensures forall j :: 0 <= j < |ms| ==> r[j].0 == ms[j].name
    ensures forall j :: 0 <= j < |ms| && GetResults(ms[j]).Ok? ==> r[j].1 == format(GetResults(ms[j]).value.1)
  {
    if |ms| == 0 then []
    else
      var v := match GetResults(ms[0]) case Ok(x) => format(x.1) case Err(_) => "";
      assert forall j :: 1 <= j < |ms| ==> ms[1..][j - 1] == ms[j];
      [(ms[0].name, v)] + ResultPairs(ms[1..], format)
  }

  // ---------------------------------------------------------------------------
  // Progress aggregation across algorithms

  /** The number of reporters whose latest percentage is at least `p`. */
  function CountAtLeast(latest: seq<int>, p: int): (c: nat)
    ensures c <= |latest|
  {
    if |latest| == 0 then 0 else (if latest[0] >= p then 1 else 0) + CountAtLeast(latest[1..], p)
  }

  /** The sum of the latest percentages that are at least `p`. */
  function SumAtLeast(latest: seq<int>, p: int): int {
    if |latest| == 0 then 0 else (if latest[0] >= p then latest[0] else 0) + SumAtLeast(latest[1..], p)
  }

  function CountEq(latest: seq<int>, p: int): nat {
    if |latest| == 0 then 0 else (if latest[0] == p then 1 else 0) + CountEq(latest[1..], p)
  }

  /** The shared counter after every reporter has reported 0, 1, … up to its latest
      percentage: each percentage maps to the number of reports of it, and percentages
      nobody reached are absent. */
  function CounterOf(latest: seq<int>): map<int, int> {
    map p | 0 <= p <= 100 && CountAtLeast(latest, p) > 0 :: CountAtLeast(latest, p)
  }

  /** One report of percentage `p`: its count goes up by one. */
  function Report(counter: map<int, int>, p: int): (r: map<int, int>)
    ensures r.Keys == counter.Keys + {p}
    ensures r[p] == (if p in counter then counter[p] else 0) + 1
    ensures forall q :: q in counter && q != p ==> r[q] == counter[q]
  {
    counter[p := (if p in counter then counter[p] else 0) + 1]
  }

  /** The scan of `progress` from 100 down to `i`: the accumulated progress and the
      number of algorithms accounted for. */
  function Scan(counter: map<int, int>, i: int): (int, int)
    requires 0 <= i <= 101
    decreases 101 - i
  {
    if i == 101 then (0, 0)
    else
      var (acc, accountedFor) := Scan(counter, i + 1);
      if i in counter then
        var cleaned := counter[i] - accountedFor;
        (if cleaned > 0 then acc + i * cleaned else acc, accountedFor + cleaned)
      else (acc, accountedFor)
  }

  /** `progress`: the overall progress summed over algorithms, and how many algorithms
      have not reported yet. */
  function Aggregate(counter: map<int, int>, nbOfAlgorithms: int): (r: (int, int)) {
    var scanned := Scan(counter, 0);
    (scanned.0, nbOfAlgorithms - scanned.1)
  }

  lemma {:induction false} CountSplit(latest: seq<int>, p: int)
    ensures CountAtLeast(latest, p) == CountAtLeast(latest, p + 1) + CountEq(latest, p)
    ensures SumAtLeast(latest, p) == SumAtLeast(latest, p + 1) + p * CountEq(latest, p)
  {
    if |latest| > 0 {
      CountSplit(latest[1..], p);
    }
  }

  lemma {:induction false} NoneAbove(latest: seq<int>)
    requires forall j :: 0 <= j < |latest| ==> 0 <= latest[j] <= 100
    ensures CountAtLeast(latest, 101) == 0 && SumAtLeast(latest, 101) == 0
    ensures CountAtLeast(latest, 0) == |latest| && SumAtLeast(latest, 0) == Sum(latest)
  {
    if |latest| > 0 {
      NoneAbove(latest[1..]);
    }
  }

  /** `counter` holds, for each percentage, the number of reporters that reached it. */
  ghost predicate Tallies(counter: map<int, int>, latest: seq<int>) {
    forall p :: 0 <= p <= 100 ==>
      (p in counter <==> CountAtLeast(latest, p) > 0) && (p in counter ==> counter[p] == CountAtLeast(latest, p))
  }

  lemma CounterOfTallies(latest: seq<int>)
    ensures Tallies(CounterOf(latest), latest)
  {
  }

  lemma {:induction false} ScanInvariant(latest: seq<int>, counter: map<int, int>, i: int)
    requires 0 <= i <= 101
    requires forall j :: 0 <= j < |latest| ==> 0 <= latest[j] <= 100
    requires Tallies(counter, latest)
    ensures Scan(counter, i) == (SumAtLeast(latest, i), CountAtLeast(latest, i))
    decreases 101 - i
  {
    if i == 101 {
      NoneAbove(latest);
    } else {
      ScanInvariant(latest, counter, i + 1);
      CountSplit(latest, i);
      var eq := CountEq(latest, i);
      var above := CountAtLeast(latest, i + 1);
      if CountAtLeast(latest, i) > 0 {
        assert i in counter && counter[i] - above == eq;
        if eq == 0 {
          MulZero(i, eq);
        }
      } else {
        assert i !in counter;
        MulZero(i, eq);
      }
    }
  }

  lemma MulZero(a: int, b: int)
    requires b == 0
    ensures a * b == 0
  {
  }

  /** When every reporter has reported each percentage up to its latest one, the scan
      yields the sum of the latest percentages, and the algorithms not yet reporting are
      the rest. */
  lemma AggregateCountsReporters(latest: seq<int>, counter: map<int, int>, nbOfAlgorithms: int)
    requires forall j :: 0 <= j < |latest| ==> 0 <= latest[j] <= 100
    requires Tallies(counter, latest)
    ensures Aggregate(counter, nbOfAlgorithms) == (Sum(latest), nbOfAlgorithms - |latest|)
  {
    ScanTotals(latest, counter);
  }

  lemma ScanTotals(latest: seq<int>, counter: map<int, int>)
    requires forall j :: 0 <= j < |latest| ==> 0 <= latest[j] <= 100
    requires Tallies(counter, latest)
    ensures Scan(counter, 0) == (Sum(latest), |latest|)
  {
    ScanInvariant(latest, counter, 0);
    NoneAbove(latest);
  }

  lemma {:induction false} CountAtLeastSnoc(latest: seq<int>, x: int, p: int)
    ensures CountAtLeast(latest + [x], p) == CountAtLeast(latest, p) + (if x >= p then 1 else 0)
  {
    if |latest| > 0 {
      assert (latest + [x])[1..] == latest[1..] + [x];
      CountAtLeastSnoc(latest[1..], x, p);
    }
  }

  lemma {:induction false} CountAtLeastUpdate(latest: seq<int>, j: int, p: int, q: int)
    requires 0 <= j < |latest| && latest[j] == p - 1
    ensures CountAtLeast(latest[j := p], q) == CountAtLeast(latest, q) + (if q == p then 1 else 0)
  {
    if j > 0 {
      assert latest[j := p][1..] == latest[1..][j - 1 := p];
      CountAtLeastUpdate(latest[1..], j - 1, p, q);
    }
  }

  /** A new algorithm's first report (0) adds it to the counter. */
  lemma ReportNewcomer(latest: seq<int>)
    ensures Report(CounterOf(latest), 0) == CounterOf(latest + [0])
  {
    forall q ensures CountAtLeast(latest + [0], q) == CountAtLeast(latest, q) + (if 0 >= q then 1 else 0) {
      CountAtLeastSnoc(latest, 0, q);
    }
    var a := Report(CounterOf(latest), 0);
    var b := CounterOf(latest + [0]);
    assert a.Keys == b.Keys;
    forall q | q in a ensures a[q] == b[q] {
    }
  }

  /** An algorithm moving from `p - 1` to `p` reports `p`. */
  lemma ReportAdvance(latest: seq<int>, j: int, p: int)
    requires 0 <= j < |latest| && latest[j] == p - 1 && 1 <= p <= 100
    ensures Report(CounterOf(latest), p) == CounterOf(latest[j := p])
  {
    forall q ensures CountAtLeast(latest[j := p], q) == CountAtLeast(latest, q) + (if q == p then 1 else 0) {
      CountAtLeastUpdate(latest, j, p, q);
    }
    var a := Report(CounterOf(latest), p);
    var b := CounterOf(latest[j := p]);
    assert a.Keys == b.Keys;
    forall q | q in a ensures a[q] == b[q] {
    }
  }

  /** `remainingMs`: the remaining percentage points at the pace of the last 20 points,
      whose duration is `elapsedMs`. */
  function RemainingMs(nbOfAlgorithms: int, acc: int, elapsedMs: int): (r: int)
    ensures 0 <= acc <= nbOfAlgorithms * 100 && elapsedMs >= 0 ==> r >= 0
    ensures acc == nbOfAlgorithms * 100 ==> r == 0
  {
    Trunc((nbOfAlgorithms as real * 100.0 - acc as real) * elapsedMs as real / 20.0)
  }
}
