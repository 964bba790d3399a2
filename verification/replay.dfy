/** Preparing the replay: the duplicate-name guard, the session-length filter, and the
    work packages the algorithms are fed (a published article, or a click with its
    session so far, the user's history and the ground truth to evaluate against). */
module Replay {
  import opened Wrappers
  import opened Seqs
  import opened Events
  import opened Sessions

  // ---------------------------------------------------------------------------
  // Start-up guard

  /** The first algorithm name that repeats an earlier one, in configuration order. */
  function FirstDuplicate(names: seq<string>): (r: Option<string>)
    ensures r.None? <==> Distinct(names)
    ensures r.Some? ==> exists i, j :: 0 <= i < j < |names| && names[i] == names[j] == r.value
                                       && Distinct(names[..j])
  {
    FirstDuplicateFrom(names, 0)
  }

  function FirstDuplicateFrom(names: seq<string>, j: nat): (r: Option<string>)
    requires j <= |names| && Distinct(names[..j])
    ensures r.None? <==> Distinct(names)
    ensures r.Some? ==> exists i, k :: 0 <= i < k < |names| && names[i] == names[k] == r.value
                                       && Distinct(names[..k])
    decreases |names| - j
  {
    if j == |names| then
      assert names[..j] == names;
      None
    else if names[j] in names[..j] then
      var i :| 0 <= i < j && names[..j][i] == names[j];
      assert names[i] == names[j];
      Some(names[j])
    else
      assert names[..j + 1] == names[..j] + [names[j]];
      FirstDuplicateFrom(names, j + 1)
  }

  /** How start-up ends: stopped on a duplicate name (before any data is read), or ready
      to read the data. */
  datatype Startup = Terminated(duplicate: string) | ReadData

  function CheckNames(names: seq<string>): (r: Startup)
    ensures r.ReadData? <==> Distinct(names)
  {
    match FirstDuplicate(names)
    case Some(n) => Terminated(n)
    case None => ReadData
  }

  // ---------------------------------------------------------------------------
  // Session-length filter

  /** The clicks that a session of at most `limit` clicks holds. */
  function ShortSessionClicks(e: Extractor, limit: int): (r: set<Click>)
    ensures forall c :: c in r <==>
      exists u, i :: u in e.sessions && 0 <= i < |e.sessions[u]| && |e.sessions[u][i]| <= limit
                     && c in e.sessions[u][i]
  {
    set u, i, c | u in e.sessions && 0 <= i < |e.sessions[u]| && |e.sessions[u][i]| <= limit
                  && c in e.sessions[u][i] :: c
  }

  /** Keeps the clicks outside `short`. */
  function Outside(short: set<Click>): Click -> bool {
    c => c !in short
  }

  /** The filter before splitting: with a positive limit, the clicks a fresh extractor puts
      into sessions of at most `limit` clicks are dropped, the others kept in order. The
      removal share printed afterwards divides by the number of clicks, an integer division
      that throws when there are none. */
  function FilterShortSessions(clicks: seq<Click>, limit: int, rule: SessionRule): (r: Result<seq<Click>>)
    ensures limit <= 0 ==> r == Ok(clicks)
    ensures r.Err? <==> limit > 0 && |clicks| == 0
    ensures r.Err? ==> r.msg == "ArithmeticException"
    ensures r.Ok? ==> IsOrderPreserving(r.value, clicks)
    ensures r.Ok? && limit > 0 ==> forall c ::
      c in r.value <==> c in clicks && OnlyInLongSessions(AddAll(Empty(), rule, clicks), limit, c)
  {
    if limit <= 0 then
      assert IsOrderPreserving(clicks, clicks) by {
        FilterKeepsAll(clicks);
      }
      Ok(clicks)
    else if |clicks| == 0 then Err("ArithmeticException")
    else
      var e := AddAll(Empty(), rule, clicks);
      var short := ShortSessionClicks(e, limit);
      var kept := Filter(clicks, Outside(short));
      assert IsOrderPreserving(kept, clicks) by {
        FilterIsSubseq(clicks, Outside(short));
      }
      assert forall c :: c in kept <==> c in clicks && OnlyInLongSessions(e, limit, c) by {
        forall c ensures c in kept <==> c in clicks && OnlyInLongSessions(e, limit, c) {
          assert c in kept <==> c in clicks && c !in short;
          OutsideShort(e, limit, c);
        }
      }
      Ok(kept)
  }

  /** Every session of `e` that holds `c` has more than `limit` clicks. */
  ghost predicate OnlyInLongSessions(e: Extractor, limit: int, c: Click) {
    forall u, i :: u in e.sessions && 0 <= i < |e.sessions[u]| && c in e.sessions[u][i]
                   ==> |e.sessions[u][i]| > limit
  }

  /** A click is outside the short sessions' clicks iff every session holding it is
      long. */
  lemma OutsideShort(e: Extractor, limit: int, c: Click)
    ensures c !in ShortSessionClicks(e, limit) <==> OnlyInLongSessions(e, limit, c)
  {
    if c in ShortSessionClicks(e, limit) {
      var u, i :| u in e.sessions && 0 <= i < |e.sessions[u]| && |e.sessions[u][i]| <= limit
                  && c in e.sessions[u][i];
    }
  }

  /** `a` is `b` with some elements left out. */
  ghost predicate IsOrderPreserving(a: seq<Click>, b: seq<Click>) {
    exists p: Click -> bool :: a == Filter(b, p)
  }

  lemma {:induction false} FilterKeepsAll(s: seq<Click>)
    ensures Filter(s, c => true) == s
  {
    if |s| > 0 {
      FilterKeepsAll(s[1..]);
      assert [s[0]] + s[1..] == s;
    }
  }

  lemma FilterIsSubseq(s: seq<Click>, p: Click -> bool)
    ensures IsOrderPreserving(Filter(s, p), s)
  {
  }

  // ---------------------------------------------------------------------------
  // Work packages

  /** A published article, or a click with its context and (in the test phase) the item
      ids still ahead in its session. */
  datatype WorkPackage =
    | ArticlePackage(item: Item)
    | ClickPackage(clickData: ClickData, groundTruth: Option<set<int>>)

  /** The state shared by all packages: the causal extractor, fed every click in package
      order, and each user's click history. */
  datatype Builder = Builder(causal: Extractor, history: map<int, seq<Click>>)

  function HistoryOf(h: map<int, seq<Click>>, u: int): seq<Click> {
    if u in h then h[u] else []
  }

  /** The ground truth of a click: the item ids of its whole session, as the extractor fed
      all test clicks sees it, minus the item ids of the session so far. Clicks without an
      item and a session that cannot be found throw in the source. */
  function GroundTruth(soFar: seq<Click>, oracle: Extractor, c: Click): (r: Result<set<int>>)
    ensures r.Ok? ==> AllHaveItems(soFar) && r.value !! ItemIds(soFar)
    ensures r.Ok? ==> (c.userId in oracle.sessions && GetSession(oracle, c).Some? &&
                       AllHaveItems(GetSession(oracle, c).value) &&
                       r.value == ItemIds(GetSession(oracle, c).value) - ItemIds(soFar))
  {
    if !AllHaveItems(soFar) || c.userId !in oracle.sessions then Err("NullPointerException")
    else match GetSession(oracle, c)
    case None => Err("NullPointerException")
    case Some(whole) =>
      if !AllHaveItems(whole) then Err("NullPointerException")
      else Ok(ItemIds(whole) - ItemIds(soFar))
  }

  /** `getWorkPackage`. An item becomes an article package. A click goes to the causal
      extractor; its session so far is what the extractor returns, its history the user's
      clicks including this one; with an evaluation extractor it also gets a ground truth. */
  function GetWorkPackage(ev: Event, b: Builder, oracle: Option<Extractor>, rule: SessionRule)
    : (r: Result<(WorkPackage, Builder)>)
    requires Valid(b.causal)
    ensures ev.ItemEvent? ==> r == Ok((ArticlePackage(ev.item), b))
    ensures r.Ok? && ev.ClickEvent? ==>
      var c := ev.click;
      var (wp, b') := r.value;
      var (causal', session) := AddClick(b.causal, rule, c);
      wp.ClickPackage? && wp.clickData.click == c &&
      wp.clickData.session == session && session[|session| - 1] == c &&
      wp.clickData.wholeUserHistory == HistoryOf(b.history, c.userId) + [c] &&
      b'.causal == causal' &&
      b'.history == b.history[c.userId := wp.clickData.wholeUserHistory] &&
      (oracle.None? <==> wp.groundTruth.None?) &&
      (oracle.Some? ==> Ok(wp.groundTruth.value) == GroundTruth(session, oracle.value, c))
    ensures r.Err? ==> ev.ClickEvent? && oracle.Some?
  {
    match ev
    case ItemEvent(item) => Ok((ArticlePackage(item), b))
    case ClickEvent(c) =>
      var (causal', session) := AddClick(b.causal, rule, c);
      var history := HistoryOf(b.history, c.userId) + [c];
      var cd := ClickData(c, session, history);
      var b' := Builder(causal', b.history[c.userId := history]);
      match oracle
      case None => Ok((ClickPackage(cd, None), b'))
      case Some(o) =>
        match GroundTruth(session, o, c)
        case Err(e) => Err(e)
        case Ok(gt) => Ok((ClickPackage(cd, Some(gt)), b'))
  }

  /** The builder after `fed` clicks went through it, starting empty. */
  ghost predicate Tracks(b: Builder, rule: SessionRule, fed: seq<Click>) {
    b.causal == AddAll(Empty(), rule, fed) &&
    forall u :: HistoryOf(b.history, u) == OfUser(fed, u)
  }

  /** A click package only looks back: its session and history hold only clicks fed so
      far (this one included), the history is all of the user's clicks in feed order, and
      the builder goes on tracking the feed. */
  lemma ClickPackageLooksBack(b: Builder, rule: SessionRule, fed: seq<Click>, c: Click, oracle: Option<Extractor>)
    requires Tracks(b, rule, fed)
    requires GetWorkPackage(ClickEvent(c), b, oracle, rule).Ok?
    ensures var (wp, b') := GetWorkPackage(ClickEvent(c), b, oracle, rule).value;
      Tracks(b', rule, fed + [c]) &&
      wp.clickData.wholeUserHistory == OfUser(fed + [c], c.userId) &&
      forall x :: x in wp.clickData.session ==> x in fed + [c]
  {
    var (wp, b') := GetWorkPackage(ClickEvent(c), b, oracle, rule).value;
    TracksStep(b, rule, fed, c, oracle);
    var ss := b'.causal.sessions[c.userId];
    assert wp.clickData.session == ss[|ss| - 1];
    SessionOfFeed(rule, fed + [c], c.userId, |ss| - 1);
  }

  lemma TracksStep(b: Builder, rule: SessionRule, fed: seq<Click>, c: Click, oracle: Option<Extractor>)
    requires Tracks(b, rule, fed)
    requires GetWorkPackage(ClickEvent(c), b, oracle, rule).Ok?
    ensures Tracks(GetWorkPackage(ClickEvent(c), b, oracle, rule).value.1, rule, fed + [c])
  {
    var b' := GetWorkPackage(ClickEvent(c), b, oracle, rule).value.1;
    var fed' := fed + [c];
    assert fed'[..|fed'| - 1] == fed;
    assert b'.causal == AddAll(Empty(), rule, fed');
    forall u ensures HistoryOf(b'.history, u) == OfUser(fed', u) {
      OfUserSnoc(fed, c, u);
    }
  }

  /** Every session of the extractor fed `clicks` holds only clicks of that feed. */
  lemma SessionOfFeed(rule: SessionRule, clicks: seq<Click>, u: int, i: int)
    requires u in AddAll(Empty(), rule, clicks).sessions
    requires 0 <= i < |AddAll(Empty(), rule, clicks).sessions[u]|
    ensures forall x :: x in AddAll(Empty(), rule, clicks).sessions[u][i] ==> x in clicks
  {
    var ss := AddAll(Empty(), rule, clicks).sessions[u];
    SessionsPartitionClicks(rule, clicks, u);
    forall x | x in ss[i] ensures x in clicks {
      assert x in Flatten(ss);
      OfUserSubset(clicks, u, x);
    }
  }

  lemma {:induction false} OfUserSubset(clicks: seq<Click>, u: int, x: Click)
    requires x in OfUser(clicks, u)
    ensures x in clicks
  {
    if clicks[0] != x {
      OfUserSubset(clicks[1..], u, x);
    }
  }

  /** With the evaluation extractor fed every test click, the ground truth of a test click
      whose items are all known exists and is disjoint from the session so far. */
  lemma TestGroundTruthExists(soFar: seq<Click>, rule: SessionRule, tests: seq<Click>, c: Click)
    requires c in tests && AllHaveItems(soFar) && AllHaveItems(tests)
    ensures var gt := GroundTruth(soFar, AddAll(Empty(), rule, tests), c);
      gt.Ok? && gt.value !! ItemIds(soFar)
  {
    var o := AddAll(Empty(), rule, tests);
    FedClickFound(rule, tests, c);
    var whole := GetSession(o, c).value;
    var i :| 0 <= i < |o.sessions[c.userId]| && whole == o.sessions[c.userId][i];
    SessionOfFeed(rule, tests, c.userId, i);
    forall k | 0 <= k < |whole| ensures HasItem(whole[k]) {
      assert whole[k] in tests;
    }
    assert GroundTruth(soFar, o, c) == Ok(ItemIds(whole) - ItemIds(soFar));
  }

  /** Training packages: the click data of every training click, built without an
      evaluation extractor, so none carries a ground truth. */
  function TrainingPackages(clicks: seq<Click>, b: Builder, rule: SessionRule): (r: (seq<ClickData>, Builder))
    requires Valid(b.causal)
    ensures |r.0| == |clicks|
    ensures Valid(r.1.causal)
    ensures forall i :: 0 <= i < |clicks| ==> r.0[i].click == clicks[i]
    decreases |clicks|
  {
    if |clicks| == 0 then ([], b)
    else
      var (cds, b1) := TrainingPackages(clicks[..|clicks| - 1], b, rule);
      var c := clicks[|clicks| - 1];
      var (wp, b2) := GetWorkPackage(ClickEvent(c), b1, None, rule).value;
      AddAllValid(b1, rule, c);
      (cds + [wp.clickData], b2)
  }

  lemma AddAllValid(b: Builder, rule: SessionRule, c: Click)
    requires Valid(b.causal)
    ensures GetWorkPackage(ClickEvent(c), b, None, rule).Ok?
    ensures Valid(GetWorkPackage(ClickEvent(c), b, None, rule).value.1.causal)
  {
  }

  // ---------------------------------------------------------------------------
  // Metric bookkeeping

  /** The three lookup maps of the run: metrics by algorithm, the algorithm of each metric,
      metrics by name. The linked maps' key orders are kept beside them. */
  datatype MetricMaps<M(==)> = MetricMaps(
    byAlgorithm: map<string, seq<M>>, algorithmOrder: seq<string>,
    toAlgorithm: map<M, string>,
    byName: map<string, seq<M>>, nameOrder: seq<string>)

  function EmptyMaps<M(==)>(): MetricMaps<M> {
    MetricMaps(map[], [], map[], map[], [])
  }

  function ListOf<M>(m: map<string, seq<M>>, k: string): seq<M> {
    if k in m then m[k] else []
  }

  /** `addMetricToMaps`: records the metric's algorithm and appends it to its name's list
      and to its algorithm's list, creating missing lists at the end of the key order. */
  function AddMetricToMaps<M(==)>(mm: MetricMaps<M>, metric: M, algorithm: string, name: string): (r: MetricMaps<M>)
    ensures r.toAlgorithm == mm.toAlgorithm[metric := algorithm]
    ensures ListOf(r.byName, name) == ListOf(mm.byName, name) + [metric]
    ensures ListOf(r.byAlgorithm, algorithm) == ListOf(mm.byAlgorithm, algorithm) + [metric]
    ensures forall n :: n != name ==> ListOf(r.byName, n) == ListOf(mm.byName, n)
    ensures forall a :: a != algorithm ==> ListOf(r.byAlgorithm, a) == ListOf(mm.byAlgorithm, a)
    ensures r.nameOrder == mm.nameOrder + (if name in mm.byName then [] else [name])
    ensures r.algorithmOrder == mm.algorithmOrder + (if algorithm in mm.byAlgorithm then [] else [algorithm])
  {
    MetricMaps(
      mm.byAlgorithm[algorithm := ListOf(mm.byAlgorithm, algorithm) + [metric]],
      mm.algorithmOrder + (if algorithm in mm.byAlgorithm then [] else [algorithm]),
      mm.toAlgorithm[metric := algorithm],
      mm.byName[name := ListOf(mm.byName, name) + [metric]],
      mm.nameOrder + (if name in mm.byName then [] else [name]))
  }

  /** The maps agree: a metric is listed under an algorithm iff it is recorded with that
      algorithm, and every listed metric is recorded. */
  ghost predicate Agree<M>(mm: MetricMaps<M>) {
    (forall a, i :: a in mm.byAlgorithm && 0 <= i < |mm.byAlgorithm[a]| ==>
       mm.byAlgorithm[a][i] in mm.toAlgorithm && mm.toAlgorithm[mm.byAlgorithm[a][i]] == a) &&
    (forall m :: m in mm.toAlgorithm ==> m in ListOf(mm.byAlgorithm, mm.toAlgorithm[m])) &&
    (forall n, i :: n in mm.byName && 0 <= i < |mm.byName[n]| ==> mm.byName[n][i] in mm.toAlgorithm)
  }

  /** Adding a fresh metric keeps the maps in agreement. */
  lemma AddMetricKeepsAgreement<M>(mm: MetricMaps<M>, metric: M, algorithm: string, name: string)
    requires Agree(mm) && metric !in mm.toAlgorithm
    ensures Agree(AddMetricToMaps(mm, metric, algorithm, name))
  {
    var r := AddMetricToMaps(mm, metric, algorithm, name);
    forall m | m in r.toAlgorithm ensures m in ListOf(r.byAlgorithm, r.toAlgorithm[m]) {
      if m != metric {
        var a := mm.toAlgorithm[m];
        assert m in ListOf(mm.byAlgorithm, a);
      }
    }
    forall a, i | a in r.byAlgorithm && 0 <= i < |r.byAlgorithm[a]|
      ensures r.byAlgorithm[a][i] in r.toAlgorithm && r.toAlgorithm[r.byAlgorithm[a][i]] == a
    {
      var l := ListOf(r.byAlgorithm, a);
      assert r.byAlgorithm[a] == l;
      if a == algorithm && i == |l| - 1 {
      } else {
        assert l[i] == ListOf(mm.byAlgorithm, a)[i];
        assert a in mm.byAlgorithm;
      }
    }
    forall n, i | n in r.byName && 0 <= i < |r.byName[n]| ensures r.byName[n][i] in r.toAlgorithm {
      var l := ListOf(r.byName, n);
      assert r.byName[n] == l;
      if !(n == name && i == |l| - 1) {
        assert l[i] == ListOf(mm.byName, n)[i];
        assert n in mm.byName;
      }
    }
  }
}
