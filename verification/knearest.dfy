/** `KNearestNeighbor`: session-based kNN over whole sessions. Every trained session is
    stored under each of its items and the time of its first click; a recommendation
    compares the current session with the newest stored sessions that share an item with
    it, keeps the most similar ones and scores their other items by summed similarity. */
module KNearest {
  import opened Wrappers
  import opened Seqs
  import opened Events
  import opened StableSort
  import opened Util
  import Jaccard
  import Knn

  /** Item id to first-click time to the sessions stored there, in insertion order. */
  type Index = map<int, map<int, seq<seq<Click>>>>

  /** The sessions stored under an item and a first-click time; none when missing. */
  function Stored(idx: Index, item: int, t: int): seq<seq<Click>> {
    if item in idx && t in idx[item] then idx[item][t] else []
  }

  /** What training stores: sessions that are not empty and whose clicks all have items. */
  ghost predicate Wellformed(idx: Index) {
    forall item, t, s :: item in idx && t in idx[item] && s in idx[item][t] ==> |s| > 0 && AllHaveItems(s)
  }

  /** The de-duplication loop: the stored sessions whose first click is not `user`'s, in
      order. Reading the first click of an empty stored session is an index error. */
  function RemoveUser(lst: seq<seq<Click>>, user: int): (r: Result<seq<seq<Click>>>)
    ensures r.Ok? <==> forall s :: s in lst ==> |s| > 0
    ensures r.Ok? ==> forall s: seq<Click> :: s in r.value <==> s in lst && |s| > 0 && s[0].userId != user
  {
    if |lst| == 0 then Ok([])
    else if |lst[0]| == 0 then Err("IndexOutOfBoundsException")
    else
      match RemoveUser(lst[1..], user)
      case Err(e) =>
        var s :| s in lst[1..] && |s| == 0;
        assert s in lst;
        Err(e)
      case Ok(rest) =>
        assert forall s :: s in lst <==> s == lst[0] || s in lst[1..];
        Ok(if lst[0][0].userId == user then rest else [lst[0]] + rest)
  }

  /** One click of a trained session: the session replaces the stored sessions of the
      click's user under the click's item and the session's first-click time. A click
      without an item dereferences null. */
  function Put(idx: Index, session: seq<Click>, t: int, c: Click): (r: Result<Index>)
    ensures r.Ok? ==> HasItem(c)
    ensures HasItem(c) ==> (r.Ok? <==> forall s :: s in Stored(idx, ItemId(c), t) ==> |s| > 0)
    ensures r.Ok? ==> forall item, t' :: item != ItemId(c) || t' != t ==> Stored(r.value, item, t') == Stored(idx, item, t')
    ensures r.Ok? ==> forall s: seq<Click> :: s in Stored(r.value, ItemId(c), t) <==>
      s == session || (s in Stored(idx, ItemId(c), t) && |s| > 0 && s[0].userId != c.userId)
    ensures r.Ok? && Wellformed(idx) && |session| > 0 && AllHaveItems(session) ==> Wellformed(r.value)
  {
    if !HasItem(c) then Err("NullPointerException")
    else
      var id := ItemId(c);
      match RemoveUser(Stored(idx, id, t), c.userId)
      case Err(e) => Err(e)
      case Ok(kept) =>
        var r := Store(idx, id, t, kept + [session]);
        assert Wellformed(idx) && |session| > 0 && AllHaveItems(session) ==> Wellformed(r) by {
          if Wellformed(idx) && |session| > 0 && AllHaveItems(session) {
            StoreWellformed(idx, id, t, kept + [session]);
          }
        }
        Ok(r)
  }

  /** `idx` with the sessions under `item` and `t` replaced by `lst`. */
  function Store(idx: Index, item: int, t: int, lst: seq<seq<Click>>): (r: Index)
    ensures Stored(r, item, t) == lst
    ensures forall item', t' :: item' != item || t' != t ==> Stored(r, item', t') == Stored(idx, item', t')
  {
    var inner := if item in idx then idx[item] else map[];
    idx[item := inner[t := lst]]
  }

  lemma StoreWellformed(idx: Index, item: int, t: int, lst: seq<seq<Click>>)
    requires Wellformed(idx)
    requires forall s :: s in lst ==> |s| > 0 && AllHaveItems(s)
    ensures Wellformed(Store(idx, item, t, lst))
  {
    var r := Store(idx, item, t, lst);
    forall item', t', s | item' in r && t' in r[item'] && s in r[item'][t'] ensures |s| > 0 && AllHaveItems(s) {
      assert s in Stored(r, item', t');
      if item' != item || t' != t {
        assert s in Stored(idx, item', t');
      }
    }
  }

  /** The click loop of one session, from click `i` on. */
  function Loop(idx: Index, session: seq<Click>, i: nat): (r: Result<Index>)
    requires 0 < |session| && i <= |session|
    ensures r.Ok? ==> forall j :: i <= j < |session| ==> HasItem(session[j])
    ensures Wellformed(idx) && AllHaveItems(session) ==> r.Ok? && Wellformed(r.value)
    decreases |session| - i
  {
    if i == |session| then Ok(idx)
    else
      match Put(idx, session, session[0].timestamp, session[i])
      case Err(e) => Err(e)
      case Ok(idx1) => Loop(idx1, session, i + 1)
  }

  /** `trainInternal` for one click's session; an empty session stores nothing. */
  function TrainSession(idx: Index, session: seq<Click>): (r: Result<Index>)
    ensures |session| == 0 ==> r == Ok(idx)
    ensures r.Ok? ==> AllHaveItems(session)
    ensures Wellformed(idx) ==> (r.Ok? <==> AllHaveItems(session)) && (r.Ok? ==> Wellformed(r.value))
  {
    if |session| == 0 then Ok(idx) else Loop(idx, session, 0)
  }

  /** `trainInternal`: the sessions of the batch in order. */
  function Train(idx: Index, clicks: seq<ClickData>): (r: Result<Index>)
    ensures Wellformed(idx) && r.Ok? ==> Wellformed(r.value)
    ensures r.Ok? ==> forall i :: 0 <= i < |clicks| ==> AllHaveItems(clicks[i].session)
    decreases |clicks|
  {
    if |clicks| == 0 then Ok(idx)
    else
      match TrainSession(idx, clicks[0].session)
      case Err(e) => Err(e)
      case Ok(idx1) =>
        var r := Train(idx1, clicks[1..]);
        assert r.Ok? ==> forall i :: 0 < i < |clicks| ==> AllHaveItems(clicks[i].session) by {
          if r.Ok? {
            forall i | 0 < i < |clicks| ensures AllHaveItems(clicks[i].session) {
              assert clicks[i] == clicks[1..][i - 1];
            }
          }
        }
        r
  }

  /** Under `item` and the session's first-click time, `session` is stored, and it is the
      only stored session whose first click is `user`'s. */
  ghost predicate Holds(idx: Index, session: seq<Click>, item: int, user: int)
    requires |session| > 0
  {
    var lst := Stored(idx, item, session[0].timestamp);
    session in lst && forall s: seq<Click> :: s in lst && |s| > 0 && s[0].userId == user ==> s == session
  }

  /** Storing the same session under further clicks keeps what earlier clicks stored. */
  lemma {:induction false} LoopKeeps(idx: Index, session: seq<Click>, i: nat, item: int, user: int)
    requires 0 < |session| && i <= |session|
    requires Loop(idx, session, i).Ok? && Holds(idx, session, item, user)
    ensures Holds(Loop(idx, session, i).value, session, item, user)
    decreases |session| - i
  {
    if i < |session| {
      var t := session[0].timestamp;
      var idx1 := Put(idx, session, t, session[i]).value;
      if item == ItemId(session[i]) {
        forall s: seq<Click> | s in Stored(idx1, item, t) && |s| > 0 && s[0].userId == user ensures s == session {
          assert s in Stored(idx, item, t);
        }
      } else {
        assert Stored(idx1, item, t) == Stored(idx, item, t);
      }
      LoopKeeps(idx1, session, i + 1, item, user);
    }
  }

  /** A trained session is stored under each of its items and its first-click time, as
      the only stored session there of each of its clicks' users. */
  lemma {:induction false} TrainSessionStores(idx: Index, session: seq<Click>, j: int)
    requires TrainSession(idx, session).Ok?
    requires 0 <= j < |session|
    ensures HasItem(session[j]) && Holds(TrainSession(idx, session).value, session, ItemId(session[j]), session[j].userId)
  {
    LoopStores(idx, session, 0, j);
  }

  lemma {:induction false} LoopStores(idx: Index, session: seq<Click>, i: nat, j: int)
    requires 0 < |session| && i <= j < |session|
    requires Loop(idx, session, i).Ok?
    ensures HasItem(session[j]) && Holds(Loop(idx, session, i).value, session, ItemId(session[j]), session[j].userId)
    decreases |session| - i
  {
    var t := session[0].timestamp;
    var idx1 := Put(idx, session, t, session[i]).value;
    if i == j {
      assert Holds(idx1, session, ItemId(session[j]), session[j].userId);
      LoopKeeps(idx1, session, i + 1, ItemId(session[j]), session[j].userId);
    } else {
      LoopStores(idx1, session, i + 1, j);
    }
  }

  /** The scoring methods modelled; the cosine variants are not. */
  datatype ScoringMethod = DecayVector | JaccardScore | DecayVectorJaccard

  function ClickTime(c: Click): real {
    c.timestamp as real
  }

  /** The current session's items, most recent click first, each once. A click without
      an item dereferences null. */
  function SessionItems(session: seq<Click>): (r: Result<seq<int>>)
    ensures r.Ok? ==> Distinct(r.value)
  {
    var sorted := Sort(session, ClickTime, false);
    if AllHaveItems(sorted) then Ok(Dedup(ItemIdSeq(sorted))) else Err("NullPointerException")
  }

  /** Sorting keeps the clicks of the session. */
  lemma SortedClicks(session: seq<Click>)
    ensures forall c :: c in Sort(session, ClickTime, false) <==> c in session
    ensures AllHaveItems(Sort(session, ClickTime, false)) <==> AllHaveItems(session)
    ensures SortedBy(Sort(session, ClickTime, false), ClickTime, false)
  {
    var sorted := Sort(session, ClickTime, false);
    SortCorrect(session, ClickTime, false);
    forall c ensures c in sorted <==> c in session {
      assert c in sorted <==> c in multiset(sorted);
      assert c in session <==> c in multiset(session);
    }
    if AllHaveItems(sorted) {
      forall i | 0 <= i < |session| ensures HasItem(session[i]) {
        assert session[i] in sorted;
        var k :| 0 <= k < |sorted| && sorted[k] == session[i];
      }
    }
    if AllHaveItems(session) {
      forall k | 0 <= k < |sorted| ensures HasItem(sorted[k]) {
        assert sorted[k] in session;
        var i :| 0 <= i < |session| && session[i] == sorted[k];
      }
    }
  }

  /** The current items are exactly the session's items. */
  lemma SessionItemsSpec(session: seq<Click>)
    ensures SessionItems(session).Ok? <==> AllHaveItems(session)
    ensures SessionItems(session).Ok? ==> Elems(SessionItems(session).value) == ItemIds(session)
  {
    var sorted := Sort(session, ClickTime, false);
    SortedClicks(session);
    if AllHaveItems(session) {
      var ids := ItemIdSeq(sorted);
      var items := Dedup(ids);
      forall x ensures x in Elems(items) <==> x in ItemIds(session) {
        if x in ItemIds(session) {
          var i :| 0 <= i < |session| && ItemId(session[i]) == x;
          assert session[i] in sorted;
          var k :| 0 <= k < |sorted| && sorted[k] == session[i];
          assert ids[k] == x;
        }
        if x in Elems(items) {
          var k :| 0 <= k < |ids| && ids[k] == x;
          assert sorted[k] in session;
        }
      }
    }
  }

  /** The first current item is the item of a latest click. */
  lemma SessionItemsLatest(session: seq<Click>)
    requires SessionItems(session).Ok? && |session| > 0
    ensures var items := SessionItems(session).value;
      |items| > 0 && exists i :: (0 <= i < |session| && HasItem(session[i]) && items[0] == ItemId(session[i]) &&
        forall j :: 0 <= j < |session| ==> session[j].timestamp <= session[i].timestamp)
  {
    var sorted := Sort(session, ClickTime, false);
    SortedClicks(session);
    var ids := ItemIdSeq(sorted);
    var items := Dedup(ids);
    assert items[0] == ids[0] == ItemId(sorted[0]);
    assert sorted[0] in session;
    var i :| 0 <= i < |session| && session[i] == sorted[0];
    forall j | 0 <= j < |session| ensures session[j].timestamp <= session[i].timestamp {
      assert session[j] in sorted;
      var k :| 0 <= k < |sorted| && sorted[k] == session[j];
      if k > 0 {
        assert InOrder(ClickTime(sorted[0]), ClickTime(sorted[k]), false);
      }
    }
  }

  /** `decayVectorScore` from position `i` on: the i-th current item adds `1 / (i + 1)` in
      integer division when the neighbour has it. */
  function DecayFrom(n: set<int>, items: seq<int>, i: nat): int
    requires i <= |items|
    decreases |items| - i
  {
    if i == |items| then 0 else (if items[i] in n then 1 / (i + 1) else 0) + DecayFrom(n, items, i + 1)
  }

  /** Past the first position the integer division contributes nothing. */
  lemma {:induction false} DecayTail(n: set<int>, items: seq<int>, i: nat)
    requires 1 <= i <= |items|
    ensures DecayFrom(n, items, i) == 0
    decreases |items| - i
  {
    if i < |items| {
      DecayTail(n, items, i + 1);
    }
  }

  /** `decayVectorScore`: only the most recent current item counts, so the score is 1 when
      the neighbour has it and 0 otherwise. */
  function DecayScore(n: set<int>, items: seq<int>): (r: int)
    ensures r == if |items| > 0 && items[0] in n then 1 else 0
  {
    if |items| > 0 then DecayTail(n, items, 1); DecayFrom(n, items, 0)
    else DecayFrom(n, items, 0)
  }

  /** The `DecayVectorJaccard` score: the decay score over the size of the union. */
  function DecayJaccard(n: set<int>, items: seq<int>): (r: real)
    ensures r == if |items| > 0 && items[0] in n then 1.0 / (|n + Elems(items)| as real) else 0.0
    ensures 0.0 <= r <= 1.0
  {
    var d := DecayScore(n, items);
    if d == 0 then 0.0
    else
      assert items[0] in n + Elems(items);
      assert |n + Elems(items)| >= 1;
      (d as real) / (|n + Elems(items)| as real)
  }

  /** `similarity` of a neighbour's item set with the current items; the Jaccard score
      is the shared set similarity, 0 when nothing is shared. */
  function Similarity(scoring: ScoringMethod, n: set<int>, items: seq<int>): (r: real)
    ensures 0.0 <= r <= 1.0
    ensures scoring == DecayVector ==> r == if |items| > 0 && items[0] in n then 1.0 else 0.0
    ensures scoring != JaccardScore && r > 0.0 ==> |items| > 0 && items[0] in n
  {
    if n == {} && |items| == 0 then 0.0
    else
      match scoring
      case DecayVector => DecayScore(n, items) as real
      case JaccardScore => Jaccard.Similarity(n, Elems(items))
      case DecayVectorJaccard => DecayJaccard(n, items)
  }

  /** The neighbour filter `!= 0 || != 1`: no value is both, so every neighbour passes. */
  function Accept(v: real): (r: bool)
    ensures r
  {
    v != 0.0 || v != 1.0
  }

  /** The first `n` elements of `s` stably sorted by non-increasing `key`. */
  function Top<T(!new)>(s: seq<T>, key: T -> real, n: nat): (r: seq<T>)
    ensures |r| == Min(n, |s|)
    ensures SortedBy(r, key, false)
    ensures forall x :: x in r ==> x in s
    ensures forall x, y :: x in s && x !in r && y in r ==> key(y) >= key(x)
  {
    var sorted := Sort(s, key, false);
    SortCorrect(s, key, false);
    var r := sorted[..Min(n, |s|)];
    assert forall x :: x in sorted <==> x in s by {
      forall x ensures x in sorted <==> x in s {
        assert x in sorted <==> x in multiset(sorted);
        assert x in s <==> x in multiset(s);
      }
    }
    forall x, y | x in s && x !in r && y in r ensures key(y) >= key(x) {
      var p :| 0 <= p < |sorted| && sorted[p] == x;
      var q :| 0 <= q < |r| && r[q] == y;
      assert p >= |r|;
      assert InOrder(key(sorted[q]), key(sorted[p]), false);
    }
    r
  }

  /** The time keys of every stored item come with their map's iteration order. */
  ghost predicate TimesFit(idx: Index, timeOrders: map<int, seq<int>>) {
    forall item :: item in idx ==> item in timeOrders && Enumerates(timeOrders[item], idx[item].Keys)
  }

  lemma TimesAt(idx: Index, timeOrders: map<int, seq<int>>, item: int)
    requires TimesFit(idx, timeOrders) && item in idx
    ensures item in timeOrders && forall t :: t in timeOrders[item] <==> t in idx[item]
  {
  }

  /** The sessions stored under one item, time key by time key. */
  function TimeSessions(inner: map<int, seq<seq<Click>>>, times: seq<int>): (r: seq<seq<Click>>)
    requires forall t :: t in times ==> t in inner
    ensures forall s :: s in r <==> exists t :: t in times && s in inner[t]
    decreases |times|
  {
    if |times| == 0 then []
    else
      var rest := TimeSessions(inner, times[1..]);
      assert forall t :: t in times <==> t == times[0] || t in times[1..];
      inner[times[0]] + rest
  }

  /** The candidate neighbours: for each current item in order, the sessions stored
      under it. */
  function Pool(idx: Index, items: seq<int>, timeOrders: map<int, seq<int>>): (r: seq<seq<Click>>)
    requires TimesFit(idx, timeOrders)
    ensures forall s :: s in r <==> exists i, t :: 0 <= i < |items| && s in Stored(idx, items[i], t)
    decreases |items|
  {
    if |items| == 0 then []
    else
      var here := if items[0] in idx then
        TimesAt(idx, timeOrders, items[0]);
        TimeSessions(idx[items[0]], timeOrders[items[0]])
      else [];
      var rest := Pool(idx, items[1..], timeOrders);
      assert forall s :: s in here <==> exists t :: s in Stored(idx, items[0], t) by {
        forall s ensures s in here <==> exists t :: s in Stored(idx, items[0], t) {
          if s in here {
            var t :| t in timeOrders[items[0]] && s in idx[items[0]][t];
            assert s in Stored(idx, items[0], t);
          }
          if exists t :: s in Stored(idx, items[0], t) {
            var t :| s in Stored(idx, items[0], t);
            assert t in timeOrders[items[0]];
          }
        }
      }
      assert forall s :: s in here + rest <==> exists i, t :: 0 <= i < |items| && s in Stored(idx, items[i], t) by {
        forall s ensures s in here + rest <==> exists i, t :: 0 <= i < |items| && s in Stored(idx, items[i], t) {
          if s in rest {
            var i, t :| 0 <= i < |items[1..]| && s in Stored(idx, items[1..][i], t);
            assert s in Stored(idx, items[i + 1], t);
          }
          if exists i, t :: 0 <= i < |items| && s in Stored(idx, items[i], t) {
            var i, t :| 0 <= i < |items| && s in Stored(idx, items[i], t);
            if i > 0 {
              assert items[1..][i - 1] == items[i];
            }
          }
        }
      }
      here + rest
  }

  function FirstTime(s: seq<Click>): real {
    if |s| > 0 then s[0].timestamp as real else 0.0
  }

  function Sim(e: (set<int>, real)): real {
    e.1
  }

  /** A neighbour: its item set and its similarity with the current items. */
  function Scored(scoring: ScoringMethod, s: seq<Click>, items: seq<int>): (r: (set<int>, real))
    requires AllHaveItems(s)
    ensures r.0 == ItemIds(s) && r.1 == Similarity(scoring, ItemIds(s), items)
  {
    (ItemIds(s), Similarity(scoring, ItemIds(s), items))
  }

  function ScoreAll(scoring: ScoringMethod, ss: seq<seq<Click>>, items: seq<int>): (r: seq<(set<int>, real)>)
    requires forall s :: s in ss ==> AllHaveItems(s)
    ensures |r| == |ss| && forall i :: 0 <= i < |ss| ==> r[i] == Scored(scoring, ss[i], items)
  {
    seq(|ss|, i requires 0 <= i < |ss| => Scored(scoring, ss[i], items))
  }

  /** The neighbourhood can be formed: no candidate session is empty, and every click of
      the `filterNumber` newest has an item. */
  predicate Formed(pool: seq<seq<Click>>, filterNumber: nat) {
    (forall s :: s in pool ==> |s| > 0) &&
    forall s :: s in Top(pool, FirstTime, filterNumber) ==> AllHaveItems(s)
  }

  /** The neighbourhood: the `filterNumber` sessions with the newest first click, scored,
      filtered, and the `k` most similar of them. Sorting reads every candidate's first
      click; scoring reads the items of the newest ones. */
  function Neighbours(pool: seq<seq<Click>>, items: seq<int>, scoring: ScoringMethod, filterNumber: nat, k: nat)
    : (r: Result<seq<(set<int>, real)>>)
    ensures r.Ok? <==> Formed(pool, filterNumber)
    ensures r.Ok? ==> |r.value| <= k && |r.value| <= filterNumber && SortedBy(r.value, Sim, false)
    ensures r.Ok? ==> ScoredFrom(r.value, Top(pool, FirstTime, filterNumber), scoring, items)
  {
    if exists s :: s in pool && |s| == 0 then Err("IndexOutOfBoundsException")
    else
      var newest := Top(pool, FirstTime, filterNumber);
      if exists s :: s in newest && !AllHaveItems(s) then Err("NullPointerException")
      else
        var r := Top(Filter(ScoreAll(scoring, newest, items), e => Accept(Sim(e))), Sim, k);
        KeptScoredFrom(scoring, newest, items, k);
        assert Formed(pool, filterNumber);
        Ok(r)
  }

  /** Every neighbour is the scoring of one of `sessions`, all of whose clicks have items. */
  ghost predicate ScoredFrom(ns: seq<(set<int>, real)>, sessions: seq<seq<Click>>, scoring: ScoringMethod, items: seq<int>) {
    forall e :: e in ns ==> exists s :: s in sessions && AllHaveItems(s) && e == Scored(scoring, s, items)
  }

  lemma KeptScoredFrom(scoring: ScoringMethod, newest: seq<seq<Click>>, items: seq<int>, k: nat)
    requires forall s :: s in newest ==> AllHaveItems(s)
    ensures ScoredFrom(Top(Filter(ScoreAll(scoring, newest, items), e => Accept(Sim(e))), Sim, k), newest, scoring, items)
  {
    var scored := ScoreAll(scoring, newest, items);
    var kept := Filter(scored, e => Accept(Sim(e)));
    var r := Top(kept, Sim, k);
    forall e | e in r ensures exists s :: s in newest && AllHaveItems(s) && e == Scored(scoring, s, items) {
      assert e in kept;
      assert e in scored;
      var i :| 0 <= i < |scored| && scored[i] == e;
      assert newest[i] in newest && e == Scored(scoring, newest[i], items);
    }
  }

  /** Every candidate neighbour of a trained index is a stored session, so the
      neighbourhood is always formed. */
  lemma NeighboursOfTrained(idx: Index, items: seq<int>, timeOrders: map<int, seq<int>>, scoring: ScoringMethod,
                            filterNumber: nat, k: nat)
    requires Wellformed(idx) && TimesFit(idx, timeOrders)
    ensures Neighbours(Pool(idx, items, timeOrders), items, scoring, filterNumber, k).Ok?
  {
    var pool := Pool(idx, items, timeOrders);
    forall s | s in pool ensures |s| > 0 && AllHaveItems(s) {
      var i, t :| 0 <= i < |items| && s in Stored(idx, items[i], t);
      StoredWellformed(idx, items[i], t, s);
    }
    var newest := Top(pool, FirstTime, filterNumber);
    assert forall s :: s in newest ==> AllHaveItems(s);
    assert Formed(pool, filterNumber);
  }

  lemma StoredWellformed(idx: Index, item: int, t: int, s: seq<Click>)
    requires Wellformed(idx) && s in Stored(idx, item, t)
    ensures |s| > 0 && AllHaveItems(s)
  {
  }

  /** An item is scored exactly when it is not a current item and some neighbour has it,
      and its score is the sum of those neighbours' similarities. */
  lemma NeighbourScore(ns: seq<(set<int>, real)>, items: seq<int>, x: int)
    ensures x in Knn.NeighbourScores(ns, Elems(items)) <==>
      x !in items && exists i :: 0 <= i < |ns| && x in ns[i].0
    ensures x in Knn.NeighbourScores(ns, Elems(items)) ==>
      Knn.NeighbourScores(ns, Elems(items))[x] == SumReal(Knn.Contributions(ns, x))
  {
    Knn.ScoreIsSum(ns, Elems(items), x);
  }

  /** What the recommendation needs of the score map's iteration order `scoreOrder`. */
  ghost predicate ScoreOrderFits(idx: Index, session: seq<Click>, scoring: ScoringMethod, filterNumber: nat, k: nat,
                                 timeOrders: map<int, seq<int>>, scoreOrder: seq<int>)
    requires TimesFit(idx, timeOrders)
  {
    var l := SessionItems(session);
    l.Ok? ==>
      var n := Neighbours(Pool(idx, l.value, timeOrders), l.value, scoring, filterNumber, k);
      n.Ok? ==> Enumerates(scoreOrder, Knn.NeighbourScores(n.value, Elems(l.value)).Keys)
  }

  /** `recommendInternal`: the items of the neighbourhood that are not current items, by
      non-increasing summed similarity, ties in the score map's iteration order. A
      negative `filterNumber` or `k` is rejected when the stream is built. */
  function Recommend(idx: Index, cd: ClickData, scoring: ScoringMethod, filterNumber: int, k: int,
                     timeOrders: map<int, seq<int>>, scoreOrder: seq<int>)
    : (r: Result<seq<int>>)
    requires TimesFit(idx, timeOrders)
    requires 0 <= filterNumber && 0 <= k ==> ScoreOrderFits(idx, cd.session, scoring, filterNumber, k, timeOrders, scoreOrder)
    ensures r.Ok? <==> (SessionItems(cd.session).Ok? && 0 <= filterNumber && 0 <= k &&
      Neighbours(Pool(idx, SessionItems(cd.session).value, timeOrders), SessionItems(cd.session).value,
                 scoring, filterNumber, k).Ok?)
    ensures r.Ok? ==>
      var items := SessionItems(cd.session).value;
      var ns := Neighbours(Pool(idx, items, timeOrders), items, scoring, filterNumber, k).value;
      var scores := Knn.NeighbourScores(ns, Elems(items));
      Distinct(r.value) && Elems(r.value) == scores.Keys && KeysSorted(scores, r.value, false)
  {
    match SessionItems(cd.session)
    case Err(e) => Err(e)
    case Ok(items) =>
      if filterNumber < 0 || k < 0 then Err("IllegalArgumentException")
      else
        match Neighbours(Pool(idx, items, timeOrders), items, scoring, filterNumber, k)
        case Err(e) => Err(e)
        case Ok(ns) => Ok(Ranked(Knn.NeighbourScores(ns, Elems(items)), scoreOrder))
  }
}
