/** The post-filters: each wraps another algorithm, records a per-item attribute from the
    training clicks, and reorders the wrapped algorithm's list so that the items passing
    a test come first, dropping the others unless `fallback` is set. The wrapped
    algorithm's list is a parameter. */
module PostFilter {
  import opened Wrappers
  import opened Seqs
  import opened Events
  import Popular

  // ---------------------------------------------------------------------------
  // Split with fallback

  /** The passing items in list order, then, with `fallback`, the failing ones in list
      order. */
  function WithFallback(inner: seq<int>, pass: int -> bool, fallback: bool): seq<int> {
    Filter(inner, pass) + (if fallback then Filter(inner, Fails(pass)) else [])
  }

  /** The complement of a test. */
  function Fails(pass: int -> bool): (fail: int -> bool)
    ensures forall x :: fail(x) <==> !pass(x)
  {
    x => !pass(x)
  }

  /** The items of `r` that pass come before the ones that fail; the passing ones are
      those of `inner` in `inner`'s order, and the failing ones are too with `fallback`,
      while without it there are none. */
  ghost predicate PassingFirst(r: seq<int>, inner: seq<int>, pass: int -> bool, fallback: bool) {
    (forall i, j :: 0 <= i < j < |r| && pass(r[j]) ==> pass(r[i])) &&
    Filter(r, pass) == Filter(inner, pass) &&
    Filter(r, Fails(pass)) == (if fallback then Filter(inner, Fails(pass)) else [])
  }

  /** `a` is `b` with some elements left out, the others in order. */
  predicate Subseq(a: seq<int>, b: seq<int>)
    decreases |b|
  {
    if |a| == 0 then true
    else if |b| == 0 then false
    else if a[0] == b[0] then Subseq(a[1..], b[1..])
    else Subseq(a, b[1..])
  }

  lemma {:induction false} FilterSubseq(s: seq<int>, p: int -> bool)
    ensures Subseq(Filter(s, p), s)
    decreases |s|
  {
    if |s| > 0 {
      FilterSubseq(s[1..], p);
      if p(s[0]) {
        assert Filter(s, p)[1..] == Filter(s[1..], p);
      }
    }
  }

  /** The filter loop: the passing items are appended to one list, with `fallback` the
      failing ones to another, and the second list is appended to the first. */
  method FilterLoop(inner: seq<int>, pass: int -> bool, fallback: bool) returns (r: seq<int>)
    ensures r == WithFallback(inner, pass, fallback)
  {
    var matching: seq<int> := [];
    var notMatching: seq<int> := [];
    for j := 0 to |inner|
      invariant matching == Filter(inner[..j], pass)
      invariant notMatching == (if fallback then Filter(inner[..j], Fails(pass)) else [])
    {
      FilterSnoc(inner, j, pass);
      FilterSnoc(inner, j, Fails(pass));
      assert Fails(pass)(inner[j]) == !pass(inner[j]);
      if pass(inner[j]) {
        matching := matching + [inner[j]];
      } else if fallback {
        notMatching := notMatching + [inner[j]];
      }
    }
    assert inner[..|inner|] == inner;
    r := matching + notMatching;
  }

  /** With `fallback` the result reorders the list; without, it is the ordered sublist of
      the passing items. Either way the passing items come first. */
  lemma FallbackFacts(inner: seq<int>, pass: int -> bool, fallback: bool)
    ensures var r := WithFallback(inner, pass, fallback);
      (fallback ==> multiset(r) == multiset(inner)) &&
      (!fallback ==> Subseq(r, inner)) &&
      (forall x :: x in r <==> x in inner && (fallback || pass(x))) &&
      PassingFirst(r, inner, pass, fallback)
  {
    var r := WithFallback(inner, pass, fallback);
    var yes, no := Filter(inner, pass), Filter(inner, Fails(pass));
    var tail := if fallback then no else [];
    FilterPartition(inner, pass, Fails(pass));
    FilterSubseq(inner, pass);
    assert !fallback ==> r == yes;
    forall i, j | 0 <= i < j < |r| && pass(r[j]) ensures pass(r[i]) {
      assert j < |yes|;
    }
    FilterAppend(yes, tail, pass);
    FilterAppend(yes, tail, Fails(pass));
    FilterAllOrNone(yes, pass);
    FilterAllOrNone(yes, Fails(pass));
    FilterAllOrNone(tail, pass);
    FilterAllOrNone(tail, Fails(pass));
  }

  /** A list with the passing items first is fixed by its passing and failing items, so
      `WithFallback` is the only list of which `PassingFirst` holds. */
  lemma {:induction false} PassingFirstUnique(r: seq<int>, inner: seq<int>, pass: int -> bool, fallback: bool)
    requires PassingFirst(r, inner, pass, fallback)
    ensures r == WithFallback(inner, pass, fallback)
  {
    PassingPrefix(r, pass);
  }

  /** In a list whose passing items come first, they form a prefix and the failing ones
      the rest. */
  lemma {:induction false} PassingPrefix(r: seq<int>, pass: int -> bool)
    requires forall i, j :: 0 <= i < j < |r| && pass(r[j]) ==> pass(r[i])
    ensures r == Filter(r, pass) + Filter(r, Fails(pass))
    decreases |r|
  {
    if |r| > 0 {
      var t := r[1..];
      assert forall i, j :: 0 <= i < j < |t| && pass(t[j]) ==> pass(t[i]) by {
        forall i, j | 0 <= i < j < |t| && pass(t[j]) ensures pass(t[i]) {
          assert t[i] == r[i + 1] && t[j] == r[j + 1];
        }
      }
      PassingPrefix(t, pass);
      if !pass(r[0]) {
        assert forall x :: x in t ==> !pass(x) by {
          forall x | x in t ensures !pass(x) {
            var j :| 0 <= j < |t| && t[j] == x;
            assert r[j + 1] == x;
          }
        }
        FilterAllOrNone(t, pass);
      }
    }
  }

  // ---------------------------------------------------------------------------
  // Recorded attributes

  /** The attribute of a click that a filter records for the clicked item. */
  datatype Field = Category | CreatedAt | ClickTime

  function FieldOf(f: Field, c: Click): int
    requires HasItem(c)
  {
    match f
    case Category => c.item.value.category
    case CreatedAt => c.item.value.createdAt
    case ClickTime => c.timestamp
  }

  /** `put(item.id, attribute)` for every click in order: the last click on an item wins. */
  function Put(m: map<int, int>, clicks: seq<ClickData>, f: Field): (r: map<int, int>)
    requires AllClicked(clicks)
    ensures r.Keys == m.Keys + Elems(ClickedIds(clicks))
    decreases |clicks|
  {
    if |clicks| == 0 then m
    else
      var init := clicks[..|clicks| - 1];
      var last := clicks[|clicks| - 1].click;
      assert ClickedIds(clicks) == ClickedIds(init) + [ItemId(last)];
      Put(m, init, f)[ItemId(last) := FieldOf(f, last)]
  }

  /** Training a filter: the attribute of every clicked item is recorded; a click without
      an item dereferences null. */
  function Record(m: map<int, int>, clicks: seq<ClickData>, f: Field): (r: Result<map<int, int>>)
    ensures r.Ok? <==> AllClicked(clicks)
    ensures r.Err? ==> r.msg == "NullPointerException"
  {
    if AllClicked(clicks) then Ok(Put(m, clicks, f)) else Err("NullPointerException")
  }

  /** No click after position `i` is on the same item. */
  ghost predicate LastOn(clicks: seq<ClickData>, i: int)
    requires AllClicked(clicks) && 0 <= i < |clicks|
  {
    forall j :: i < j < |clicks| ==> ItemId(clicks[j].click) != ItemId(clicks[i].click)
  }

  /** The recorded attribute of an item is that of its last click. */
  lemma {:induction false} RecordLastWins(m: map<int, int>, clicks: seq<ClickData>, f: Field, i: int)
    requires AllClicked(clicks) && 0 <= i < |clicks| && LastOn(clicks, i)
    ensures var r := Record(m, clicks, f).value;
      ItemId(clicks[i].click) in r && r[ItemId(clicks[i].click)] == FieldOf(f, clicks[i].click)
    decreases |clicks|
  {
    var init := clicks[..|clicks| - 1];
    if i < |clicks| - 1 {
      assert ItemId(clicks[|clicks| - 1].click) != ItemId(clicks[i].click);
      assert LastOn(init, i) by {
        forall j | i < j < |init| ensures ItemId(init[j].click) != ItemId(init[i].click) {
          assert init[j] == clicks[j];
        }
      }
      RecordLastWins(m, init, f, i);
    }
  }

  /** An item no click names keeps its recorded attribute, or its absence. */
  lemma {:induction false} RecordUntouched(m: map<int, int>, clicks: seq<ClickData>, f: Field, x: int)
    requires AllClicked(clicks) && x !in ClickedIds(clicks)
    ensures var r := Record(m, clicks, f).value;
      (x in r <==> x in m) && (x in m ==> r[x] == m[x])
    decreases |clicks|
  {
    if |clicks| > 0 {
      var init := clicks[..|clicks| - 1];
      assert ClickedIds(clicks) == ClickedIds(init) + [ItemId(clicks[|clicks| - 1].click)];
      RecordUntouched(m, init, f, x);
    }
  }

  /** `Long2IntOpenHashMap.get` and `Long2LongOpenHashMap.get`: 0 for a missing key. */
  function GetOr0(m: map<int, int>, x: int): (r: int)
    ensures x !in m ==> r == 0
    ensures x in m ==> r == m[x]
  {
    if x in m then m[x] else 0
  }

  // ---------------------------------------------------------------------------
  // CategoryPostFiltering

  /** The categories of the session's items; a session click without an item dereferences
      null. */
  function SessionCategories(session: seq<Click>): (r: Result<set<int>>)
    ensures r.Ok? <==> AllHaveItems(session)
    ensures r.Ok? ==> forall c :: c in r.value <==> exists i :: 0 <= i < |session| && session[i].item.value.category == c
  {
    if AllHaveItems(session) then Ok(set i | 0 <= i < |session| :: session[i].item.value.category)
    else Err("NullPointerException")
  }

  /** An item matches when its recorded category (0 if never clicked) is the clicked
      item's, or, with `considerSession`, one of the session's categories. */
  function CategoryTest(cats: map<int, int>, clicked: int, sessionCats: set<int>, considerSession: bool): (pass: int -> bool)
    ensures forall x :: pass(x) <==> if considerSession then GetOr0(cats, x) in sessionCats else GetOr0(cats, x) == clicked
  {
    x => if considerSession then GetOr0(cats, x) in sessionCats else GetOr0(cats, x) == clicked
  }

  /** `recommendInternal` of the category filter on the wrapped algorithm's list `inner`.
      Reading the clicked item's category dereferences null when the click has no item
      and the list is not empty; collecting the session's categories does so for a session
      click without an item. */
  function CategoryRecommend(cats: map<int, int>, inner: seq<int>, cd: ClickData, considerSession: bool, fallback: bool)
    : (r: Result<seq<int>>)
    ensures r.Err? <==> (considerSession && !AllHaveItems(cd.session)) || (!considerSession && |inner| > 0 && !HasItem(cd.click))
    ensures r.Ok? && fallback ==> multiset(r.value) == multiset(inner)
    ensures r.Ok? && !fallback ==> Subseq(r.value, inner)
    ensures r.Ok? && !considerSession && !fallback ==>
      forall x :: x in r.value <==> x in inner && GetOr0(cats, x) == cd.click.item.value.category
    ensures r.Ok? && considerSession && !fallback ==>
      forall x :: x in r.value <==> x in inner && exists i :: 0 <= i < |cd.session| && cd.session[i].item.value.category == GetOr0(cats, x)
    ensures r.Ok? && !considerSession && |inner| > 0 ==>
      PassingFirst(r.value, inner, CategoryTest(cats, cd.click.item.value.category, {}, false), fallback)
    ensures r.Ok? && considerSession ==>
      PassingFirst(r.value, inner, CategoryTest(cats, 0, SessionCategories(cd.session).value, true), fallback)
  {
    if considerSession && !AllHaveItems(cd.session) then Err("NullPointerException")
    else if !considerSession && |inner| > 0 && !HasItem(cd.click) then Err("NullPointerException")
    else
      var sessionCats := if considerSession then SessionCategories(cd.session).value else {};
      var clicked := if !considerSession && HasItem(cd.click) then cd.click.item.value.category else 0;
      var pass := CategoryTest(cats, clicked, sessionCats, considerSession);
      FallbackFacts(inner, pass, fallback);
      if !fallback && |inner| == 0 then
        assert WithFallback(inner, pass, fallback) == [];
        Ok([])
      else
        Ok(WithFallback(inner, pass, fallback))
  }

  // ---------------------------------------------------------------------------
  // PopularityPostFiltering

  const DefaultMinClickCount := 100

  /** An item passes when it has been clicked at least `minClickCount` times. */
  function PopularTest(counts: map<int, int>, minClickCount: int): (pass: int -> bool)
    ensures forall x :: pass(x) <==> x in counts && counts[x] >= minClickCount
  {
    x => x in counts && counts[x] >= minClickCount
  }

  /** `recommendInternal` of the popularity filter: an item passes when it has been clicked
      at least `minClickCount` times. Training counts as `MostPopular` does. */
  function PopularityRecommend(counts: map<int, int>, inner: seq<int>, minClickCount: int, fallback: bool)
    : (r: seq<int>)
    ensures fallback ==> multiset(r) == multiset(inner)
    ensures !fallback ==> Subseq(r, inner)
    ensures forall x :: x in r <==> x in inner && (fallback || (x in counts && counts[x] >= minClickCount))
    ensures forall i, j :: 0 <= i < j < |r| && r[j] in counts && counts[r[j]] >= minClickCount ==>
      r[i] in counts && counts[r[i]] >= minClickCount
    ensures PassingFirst(r, inner, PopularTest(counts, minClickCount), fallback)
  {
    var pass := PopularTest(counts, minClickCount);
    FallbackFacts(inner, pass, fallback);
    WithFallback(inner, pass, fallback)
  }

  /** Trained from nothing, an item passes the popularity filter exactly when the training
      clicks name it at least `minClickCount` times (for a positive threshold). */
  lemma PopularityFromClicks(clicks: seq<ClickData>, inner: seq<int>, minClickCount: int, x: int)
    requires AllClicked(clicks) && minClickCount > 0 && x in inner
    ensures var counts := Popular.Train(map[], clicks).value;
      x in PopularityRecommend(counts, inner, minClickCount, false) <==> Popular.ClicksOn(clicks, x) >= minClickCount
  {
    Popular.TrainCounts(map[], clicks, x);
  }

  // ---------------------------------------------------------------------------
  // RecencyPostFiltering

  const DefaultRecencyFilterTime := 24 * 60 * 60 * 1000

  /** An item passes when it was published (time 0 if never recorded) strictly before `t`
      and at most `filterTime` before it. */
  function RecencyTest(created: map<int, int>, t: int, filterTime: int): (pass: int -> bool)
    ensures forall x :: pass(x) <==> 0 < t - GetOr0(created, x) <= filterTime
  {
    x => t - GetOr0(created, x) <= filterTime && t - GetOr0(created, x) > 0
  }

  /** `recommend` of the recency filter: an item passes when it was published (time 0 if
      never recorded) strictly before the click and at most `filterTime` before it. The
      wrapped list comes from the wrapped algorithm's public `recommend`. */
  function RecencyRecommend(created: map<int, int>, inner: seq<int>, cd: ClickData, filterTime: int, fallback: bool)
    : (r: seq<int>)
    ensures fallback ==> multiset(r) == multiset(inner)
    ensures !fallback ==> Subseq(r, inner)
    ensures forall x :: x in r <==>
      x in inner && (fallback || 0 < cd.click.timestamp - GetOr0(created, x) <= filterTime)
    ensures forall i, j :: 0 <= i < j < |r| && 0 < cd.click.timestamp - GetOr0(created, r[j]) <= filterTime ==>
      0 < cd.click.timestamp - GetOr0(created, r[i]) <= filterTime
    ensures PassingFirst(r, inner, RecencyTest(created, cd.click.timestamp, filterTime), fallback)
  {
    var pass := RecencyTest(created, cd.click.timestamp, filterTime);
    FallbackFacts(inner, pass, fallback);
    WithFallback(inner, pass, fallback)
  }

  // ---------------------------------------------------------------------------
  // RecentlyClickedPostFiltering

  const DefaultClickedFilterTime := 3 * 60 * 60 * 1000

  /** An item passes when it has a recorded last click less than `filterTime` before `t`. */
  function ClickedTest(lastClick: map<int, int>, t: int, filterTime: int): (pass: int -> bool)
    ensures forall x :: pass(x) <==> x in lastClick && t - lastClick[x] < filterTime
  {
    x => x in lastClick && t - lastClick[x] < filterTime
  }

  /** `recommendInternal` of the recently-clicked filter: an item passes when it has a
      recorded last click less than `filterTime` before the current click. */
  function ClickedRecommend(lastClick: map<int, int>, inner: seq<int>, cd: ClickData, filterTime: int, fallback: bool)
    : (r: seq<int>)
    ensures fallback ==> multiset(r) == multiset(inner)
    ensures !fallback ==> Subseq(r, inner)
    ensures forall x :: x in r <==>
      x in inner && (fallback || (x in lastClick && cd.click.timestamp - lastClick[x] < filterTime))
    ensures forall i, j :: 0 <= i < j < |r| && r[j] in lastClick && cd.click.timestamp - lastClick[r[j]] < filterTime ==>
      r[i] in lastClick && cd.click.timestamp - lastClick[r[i]] < filterTime
    ensures PassingFirst(r, inner, ClickedTest(lastClick, cd.click.timestamp, filterTime), fallback)
  {
    var pass := ClickedTest(lastClick, cd.click.timestamp, filterTime);
    FallbackFacts(inner, pass, fallback);
    WithFallback(inner, pass, fallback)
  }

  /** After training, an item passes the recently-clicked filter exactly when its last
      training click lies less than `filterTime` before the current click. */
  lemma ClickedFromLastClick(m: map<int, int>, clicks: seq<ClickData>, i: int, inner: seq<int>, cd: ClickData, filterTime: int)
    requires AllClicked(clicks) && 0 <= i < |clicks| && LastOn(clicks, i)
    requires ItemId(clicks[i].click) in inner
    ensures var lastClick := Record(m, clicks, ClickTime).value;
      ItemId(clicks[i].click) in ClickedRecommend(lastClick, inner, cd, filterTime, false)
      <==> cd.click.timestamp - clicks[i].click.timestamp < filterTime
  {
    RecordLastWins(m, clicks, ClickTime, i);
  }
}
