/** `KNN` and `KNNRecentSession`: session kNN over the sets of items clicked per session.
    A session is keyed by its first click; its items are kept as a set of small integer ids
    (the bitmap of the source). Neighbours are stored sessions whose Jaccard similarity to
    the current session lies strictly between 0 and 1; candidates are the neighbours' items
    the current session lacks, scored by summed similarity. */
module Knn {
  import opened Wrappers
  import opened Seqs
  import opened Events
  import opened StableSort
  import opened Util
  import opened Jaccard

  /** `itemIds` maps item ids to bitmap ids handed out from `next` on; `itemMap` is the
      reverse lookup filled in by training; `sessions` holds each session's bitmap. */
  datatype KnnState = KnnState(
    itemIds: map<int, int>,
    next: int,
    itemMap: map<int, int>,
    sessions: map<Click, set<int>>)

  /** The empty state of a new instance. */
  const Initial := KnnState(map[], 0, map[], map[])

  /** `mapItemID`: the stored bitmap id of a known item, otherwise the next free one. The
      item then holds the returned id, every other item keeps its id, and ids handed out
      stay below the counter and distinct. */
  function MapItemId(st: KnnState, item: int): (r: (KnnState, int))
    ensures item in st.itemIds ==> r == (st, st.itemIds[item])
    ensures item !in st.itemIds ==> r.1 == st.next && r.0.next == st.next + 1
    ensures r.0.sessions == st.sessions && r.0.itemMap == st.itemMap
    ensures r.0.itemIds.Keys == st.itemIds.Keys + {item} && r.0.itemIds[item] == r.1
    ensures forall x :: x in st.itemIds ==> r.0.itemIds[x] == st.itemIds[x]
    ensures IdsValid(st) ==> IdsValid(r.0)
  {
    if item in st.itemIds then (st, st.itemIds[item])
    else
      var st' := st.(itemIds := st.itemIds[item := st.next], next := st.next + 1);
      assert IdsValid(st) ==> IdsValid(st') by {
        if IdsValid(st) {
          FreshIdValid(st, item);
        }
      }
      (st', st.next)
  }

  /** Bitmap ids are below the counter and distinct items get distinct ids. */
  ghost predicate IdsValid(st: KnnState) {
    0 <= st.next &&
    (forall x :: x in st.itemIds ==> 0 <= st.itemIds[x] < st.next) &&
    (forall x, y :: x in st.itemIds && y in st.itemIds && x != y ==> st.itemIds[x] != st.itemIds[y])
  }

  /** Handing the counter to a new item keeps the ids below the counter and distinct. */
  lemma FreshIdValid(st: KnnState, item: int)
    requires IdsValid(st) && item !in st.itemIds
    ensures IdsValid(st.(itemIds := st.itemIds[item := st.next], next := st.next + 1))
  {
    var st' := st.(itemIds := st.itemIds[item := st.next], next := st.next + 1);
    forall x | x in st'.itemIds ensures 0 <= st'.itemIds[x] < st'.next {
      if x != item {
        assert st'.itemIds[x] == st.itemIds[x];
      }
    }
    forall x, y | x in st'.itemIds && y in st'.itemIds && x != y ensures st'.itemIds[x] != st'.itemIds[y] {
      if x != item && y != item {
        assert st'.itemIds[x] == st.itemIds[x] && st'.itemIds[y] == st.itemIds[y];
      }
    }
  }

  /** `convert2BitMap`: the first click of a session creates its bitmap from the first
      item; a later click adds the last item to the bitmap stored under the first click.
      Returns the new state and the session's bitmap. An empty session is an index error;
      a missing item, or a later click of a session that was never started, dereferences
      null. */
  function Convert(st: KnnState, session: seq<Click>): (r: Result<(KnnState, set<int>)>)
    ensures |session| == 0 ==> r == Err("IndexOutOfBoundsException")
    ensures |session| > 0 ==>
      (r.Ok? <==> HasItem(session[|session| - 1]) && (|session| == 1 || session[0] in st.sessions))
    ensures r.Ok? ==>
      var (st', bits) := r.value;
      var (_, n) := MapItemId(st, ItemId(session[|session| - 1]));
      st'.sessions == st.sessions[session[0] := bits] &&
      bits == (if |session| == 1 then {n} else st.sessions[session[0]] + {n}) &&
      st'.itemMap == st.itemMap
  {
    if |session| == 0 then Err("IndexOutOfBoundsException")
    else if !HasItem(session[|session| - 1]) then Err("NullPointerException")
    else
      var key := session[0];
      var (st1, n) := MapItemId(st, ItemId(session[|session| - 1]));
      if |session| == 1 then Ok((st1.(sessions := st1.sessions[key := {n}]), {n}))
      else if key !in st1.sessions then Err("NullPointerException")
      else
        var bits := st1.sessions[key] + {n};
        Ok((st1.(sessions := st1.sessions[key := bits]), bits))
  }

  /** Converting the same session twice has the effect of converting it once. */
  lemma ConvertTwice(st: KnnState, session: seq<Click>)
    requires Convert(st, session).Ok?
    ensures Convert(Convert(st, session).value.0, session) == Convert(st, session)
  {
    var (st1, bits) := Convert(st, session).value;
    var item := ItemId(session[|session| - 1]);
    assert item in st1.itemIds && st1.itemIds[item] == MapItemId(st, item).1;
    assert MapItemId(st1, item) == (st1, MapItemId(st, item).1);
    assert st1.sessions[session[0] := bits] == st1.sessions;
  }

  /** `trainInternal`: each click's session converted, and the clicked item entered in
      the reverse lookup. */
  function Train(st: KnnState, clicks: seq<ClickData>): (r: Result<KnnState>)
    ensures r.Ok? ==> st.sessions.Keys <= r.value.sessions.Keys && st.itemIds.Keys <= r.value.itemIds.Keys
    ensures r.Ok? ==> forall i :: 0 <= i < |clicks| ==>
      |clicks[i].session| > 0 && clicks[i].session[0] in r.value.sessions &&
      HasItem(clicks[i].click) && ItemId(clicks[i].click) in r.value.itemIds
    decreases |clicks|
  {
    if |clicks| == 0 then Ok(st)
    else
      match Convert(st, clicks[0].session)
      case Err(e) => Err(e)
      case Ok((st1, _)) =>
        if !HasItem(clicks[0].click) then Err("NullPointerException")
        else
          var item := ItemId(clicks[0].click);
          var (st2, n) := MapItemId(st1, item);
          var r := Train(st2.(itemMap := st2.itemMap[n := item]), clicks[1..]);
          assert r.Ok? ==> forall i :: 1 <= i < |clicks| ==> clicks[i] == clicks[1..][i - 1];
          r
  }

  // ---------------------------------------------------------------------------
  // Scoring

  /** The neighbour candidates with their similarity: the stored bitmaps whose similarity
      to the current one is neither 0 nor 1. Bitmaps compare by content, so equal sets
      are one entry. */
  function Neighbours(bitmaps: set<set<int>>, cur: set<int>): (r: map<set<int>, real>)
    ensures forall v :: v in r <==> v in bitmaps && v * cur != {} && v != cur
    ensures forall v :: v in r ==> r[v] == Similarity(cur, v) && 0.0 < r[v] < 1.0
  {
    map v | v in bitmaps && 0.0 < Similarity(cur, v) < 1.0 :: Similarity(cur, v)
  }

  /** How many neighbours the scoring loop visits: it stops after the one that takes the
      count above `k`, so `k + 1` of them, and at least the first. */
  function Visited(k: int, n: nat): (r: nat)
    ensures r <= n
    ensures n > 0 ==> r >= 1
    ensures k >= 0 ==> r == Min(k + 1, n)
  {
    if k + 1 < 1 then Min(1, n) else Min(k + 1, n)
  }

  /** Every item of `xs` gains `s`. */
  function AddAll(m: map<int, real>, xs: set<int>, s: real): (r: map<int, real>)
    ensures r.Keys == m.Keys + xs
  {
    map x | x in m.Keys + xs :: (if x in m then m[x] else 0.0) + (if x in xs then s else 0.0)
  }

  /** The item scores of the visited neighbours: each neighbour adds its similarity to its
      items that are not in the current session. */
  function NeighbourScores(ns: seq<(set<int>, real)>, cur: set<int>): map<int, real> {
    if |ns| == 0 then map[] else AddAll(NeighbourScores(ns[1..], cur), ns[0].0 - cur, ns[0].1)
  }

  /** The similarities of the neighbours that contain `x`, in visiting order. */
  function Contributions(ns: seq<(set<int>, real)>, x: int): seq<real> {
    if |ns| == 0 then [] else (if x in ns[0].0 then [ns[0].1] else []) + Contributions(ns[1..], x)
  }

  /** An item is scored exactly when it is not in the current session and some visited
      neighbour has it, and its score is the sum of those neighbours' similarities. */
  lemma {:induction false} ScoreIsSum(ns: seq<(set<int>, real)>, cur: set<int>, x: int)
    ensures x in NeighbourScores(ns, cur) <==> x !in cur && exists i :: 0 <= i < |ns| && x in ns[i].0
    ensures x in NeighbourScores(ns, cur) ==> NeighbourScores(ns, cur)[x] == SumReal(Contributions(ns, x))
  {
    if |ns| > 0 {
      ScoreIsSum(ns[1..], cur, x);
      var rest := NeighbourScores(ns[1..], cur);
      if x !in cur && exists i :: 0 <= i < |ns| && x in ns[i].0 {
        var i :| 0 <= i < |ns| && x in ns[i].0;
        if i > 0 {
          assert x in ns[1..][i - 1].0;
        }
      }
      if x in rest {
        var i :| 0 <= i < |ns[1..]| && x in ns[1..][i].0;
        assert x in ns[i + 1].0;
      }
      if x in NeighbourScores(ns, cur) {
        var mine: seq<real> := if x in ns[0].0 then [ns[0].1] else [];
        assert Contributions(ns, x) == mine + Contributions(ns[1..], x);
        SumRealAppend(mine, Contributions(ns[1..], x));
        assert SumReal(mine) == if x in ns[0].0 then ns[0].1 else 0.0 by {
          if x in ns[0].0 {
            assert mine[1..] == [];
          }
        }
        if x !in rest {
          ContributionsEmpty(ns[1..], x);
        }
      }
    } else {
      assert Contributions(ns, x) == [];
    }
  }

  lemma {:induction false} ContributionsEmpty(ns: seq<(set<int>, real)>, x: int)
    requires forall i :: 0 <= i < |ns| ==> x !in ns[i].0
    ensures Contributions(ns, x) == []
  {
    if |ns| > 0 {
      assert forall i :: 0 <= i < |ns[1..]| ==> x !in ns[1..][i].0 by {
        forall i | 0 <= i < |ns[1..]| ensures x !in ns[1..][i].0 {
          assert ns[1..][i] == ns[i + 1];
        }
      }
      ContributionsEmpty(ns[1..], x);
    }
  }

  /** The neighbours the scoring loop visits: the candidates by non-increasing similarity,
      ties in the similarity map's iteration order `simOrder`, cut after `Visited`. */
  function Visit(sims: map<set<int>, real>, k: int, simOrder: seq<set<int>>): (r: seq<(set<int>, real)>)
    requires Enumerates(simOrder, sims.Keys)
    ensures |r| == Visited(k, |sims|)
    ensures forall i :: 0 <= i < |r| ==> r[i].0 in sims && sims[r[i].0] == r[i].1
    ensures forall i, j :: 0 <= i < j < |r| ==> r[i].1 >= r[j].1
  {
    var sorted := SortByValue(sims, simOrder, false);
    var r := sorted[..Visited(k, |sims|)];
    assert forall i :: 0 <= i < |r| ==> r[i] in sorted;
    assert forall i, j :: 0 <= i < j < |r| ==> InOrder(Value(r[i]), Value(r[j]), false) by {
      forall i, j | 0 <= i < j < |r| ensures InOrder(Value(r[i]), Value(r[j]), false) {
        assert r[i] == sorted[i] && r[j] == sorted[j];
      }
    }
    r
  }

  /** The item scores a recommendation is ranked by. */
  function Scores(sims: map<set<int>, real>, cur: set<int>, k: int, simOrder: seq<set<int>>): map<int, real>
    requires Enumerates(simOrder, sims.Keys)
  {
    NeighbourScores(Visit(sims, k, simOrder), cur)
  }

  /** Each bitmap id turned back into an item id through the reverse lookup (0 when it
      has none). */
  function Remap(keys: seq<int>, itemMap: map<int, int>): (r: seq<int>)
    ensures |r| == |keys| && forall i :: 0 <= i < |keys| ==> r[i] == GetOr0(itemMap, keys[i])
  {
    seq(|keys|, i requires 0 <= i < |keys| => GetOr0(itemMap, keys[i]))
  }

  function GetOr0(m: map<int, int>, x: int): int {
    if x in m then m[x] else 0
  }

  // ---------------------------------------------------------------------------
  // KNN

  /** What a recommendation needs of the iteration orders: `simOrder` enumerates the
      neighbour candidates and `scoreOrder` the scored items. */
  ghost predicate OrdersFit(sims: map<set<int>, real>, cur: set<int>, k: int, simOrder: seq<set<int>>, scoreOrder: seq<int>) {
    Enumerates(simOrder, sims.Keys) && Enumerates(scoreOrder, Scores(sims, cur, k, simOrder).Keys)
  }

  /** `recommend` of `KNN`: the current click is registered first (the state changes), then
      every stored session is a neighbour candidate. */
  function Recommend(st: KnnState, cd: ClickData, k: int, simOrder: seq<set<int>>, scoreOrder: seq<int>)
    : (r: Result<(KnnState, seq<int>)>)
    requires var c := Convert(st, cd.session);
      c.Ok? ==> OrdersFit(Neighbours(c.value.0.sessions.Values, c.value.1), c.value.1, k, simOrder, scoreOrder)
    ensures r.Ok? <==> Convert(st, cd.session).Ok?
    ensures r.Ok? ==> r.value.0 == Convert(st, cd.session).value.0
    ensures r.Ok? ==>
      var (st', cur) := Convert(st, cd.session).value;
      RanksScores(Scores(Neighbours(st'.sessions.Values, cur), cur, k, simOrder), st'.itemMap, r.value.1)
  {
    match Convert(st, cd.session)
    case Err(e) => Err(e)
    case Ok((st1, cur)) =>
      var sims := Neighbours(st1.sessions.Values, cur);
      var keys := Ranked(Scores(sims, cur, k, simOrder), scoreOrder);
      assert RankedKeys(Scores(sims, cur, k, simOrder), keys);
      Ok((st1, Remap(keys, st1.itemMap)))
  }

  /** `keys` lists every scored bitmap id once, by non-increasing score. */
  ghost predicate RankedKeys(scores: map<int, real>, keys: seq<int>) {
    Distinct(keys) && Elems(keys) == scores.Keys && KeysSorted(scores, keys, false)
  }

  /** `recs` is a ranking of the scored bitmap ids, each turned back into its item id. */
  ghost predicate RanksScores(scores: map<int, real>, itemMap: map<int, int>, recs: seq<int>) {
    exists keys :: RankedKeys(scores, keys) && recs == Remap(keys, itemMap)
  }

  /** Converting registers the click: afterwards the item of the session's last click has
      a bitmap id, and that id is in the bitmap stored under the session's first click.
      `recommend` keeps the converted state, so it registers the current click. */
  lemma ConvertRegisters(st: KnnState, session: seq<Click>)
    requires Convert(st, session).Ok?
    ensures var st' := Convert(st, session).value.0;
      var item := ItemId(session[|session| - 1]);
      session[0] in st'.sessions && item in st'.itemIds && st'.itemIds[item] in st'.sessions[session[0]]
  {
    var (st1, bits) := Convert(st, session).value;
    var item := ItemId(session[|session| - 1]);
    var (m, n) := MapItemId(st, item);
    assert item in m.itemIds && m.itemIds[item] == n;
    assert st1.itemIds == m.itemIds;
    assert n in bits;
  }

  /** A recommended bitmap id belongs to a visited neighbour, not to the current session,
      and its score is the summed similarity of the visited neighbours that hold it. */
  lemma RecommendScores(sims: map<set<int>, real>, cur: set<int>, k: int, simOrder: seq<set<int>>, x: int)
    requires Enumerates(simOrder, sims.Keys)
    requires x in Scores(sims, cur, k, simOrder)
    ensures x !in cur
    ensures var ns := Visit(sims, k, simOrder);
      (exists i :: 0 <= i < |ns| && x in ns[i].0 && ns[i].0 in sims) &&
      Scores(sims, cur, k, simOrder)[x] == SumReal(Contributions(ns, x))
  {
    ScoreIsSum(Visit(sims, k, simOrder), cur, x);
  }

  // ---------------------------------------------------------------------------
  // KNNRecentSession

  /** The default age limit: one day in milliseconds; and the default session count. */
  const DefaultFilterTime := 24 * 60 * 60 * 1000
  const DefaultFilterNumber := 10000

  /** The recency map: session keys, least recently active first. Each key's value is its
      own timestamp, so the keys alone carry it. */
  datatype RecentState = RecentState(knn: KnnState, recent: seq<Click>)

  /** Time mode: front keys are dropped while the newest click is more than `filterTime`
      after them, up to the first that is recent enough. */
  function DropOld(recent: seq<Click>, now: int, filterTime: int): (r: seq<Click>)
    ensures |r| <= |recent| && r == recent[|recent| - |r|..]
    ensures forall i :: 0 <= i < |recent| - |r| ==> now - recent[i].timestamp > filterTime
    ensures |r| > 0 ==> now - r[0].timestamp <= filterTime
    decreases |recent|
  {
    if |recent| > 0 && now - recent[0].timestamp > filterTime then
      var r := DropOld(recent[1..], now, filterTime);
      assert forall i :: 1 <= i < |recent| - |r| ==> recent[i] == recent[1..][i - 1];
      r
    else recent
  }

  /** The recency bookkeeping of `convert2BitMap`: the session's key moves to the end, then
      old keys leave, by age or, in count mode, one from the front when there are more
      than `filterNumber`. The keys stay distinct, only the session's key can join, it is
      last whenever it is kept, and count mode never grows the map beyond `filterNumber`
      once it is within it. */
  function Touch(recent: seq<Click>, session: seq<Click>, timeBased: bool, filterTime: int, filterNumber: int)
    : (r: seq<Click>)
    requires |session| > 0
    ensures timeBased ==> r == DropOld(Remove(recent, session[0]) + [session[0]], session[|session| - 1].timestamp, filterTime)
    ensures !timeBased ==> var moved := Remove(recent, session[0]) + [session[0]];
      r == if |moved| > filterNumber then moved[1..] else moved
    ensures Distinct(recent) ==> Distinct(r)
    ensures forall c :: c in r ==> c in recent || c == session[0]
    ensures |r| > 0 ==> r[|r| - 1] == session[0]
    ensures !timeBased && Distinct(recent) && |recent| <= filterNumber ==> |r| <= filterNumber
  {
    var key := session[0];
    var moved := Remove(recent, key) + [key];
    assert Distinct(recent) ==> Distinct(moved) by {
      if Distinct(recent) {
        MovedKeyLast(recent, key);
      }
    }
    assert Distinct(recent) ==> |moved| <= |recent| + 1 by {
      if Distinct(recent) {
        RemoveLength(recent, key);
      }
    }
    var r :=
      if timeBased then DropOld(moved, session[|session| - 1].timestamp, filterTime)
      else if |moved| > filterNumber then moved[1..]
      else moved;
    SuffixFacts(moved, |moved| - |r|);
    assert r == moved[|moved| - |r|..];
    r
  }

  /** A suffix of a list without repeats has none, ends where the list ends and holds
      only the list's elements. */
  lemma SuffixFacts(s: seq<Click>, k: int)
    requires 0 <= k <= |s|
    ensures Distinct(s) ==> Distinct(s[k..])
    ensures k < |s| ==> s[k..][|s| - k - 1] == s[|s| - 1]
    ensures forall c :: c in s[k..] ==> c in s
  {
    if Distinct(s) {
      forall a, b | 0 <= a < b < |s| - k ensures s[k..][a] != s[k..][b] {
        assert s[k..][a] == s[k + a] && s[k..][b] == s[k + b];
      }
    }
  }

  /** Moving the key to the end keeps the keys distinct and puts the key last. */
  lemma MovedKeyLast(recent: seq<Click>, key: Click)
    requires Distinct(recent)
    ensures var moved := Remove(recent, key) + [key];
      Distinct(moved) && moved[|moved| - 1] == key && Elems(moved) == Elems(recent) + {key}
  {
    var moved := Remove(recent, key) + [key];
    assert key !in Remove(recent, key);
    forall i, j | 0 <= i < j < |moved| ensures moved[i] != moved[j] {
      if j < |moved| - 1 {
        assert moved[i] == Remove(recent, key)[i] && moved[j] == Remove(recent, key)[j];
      }
    }
  }

  lemma {:induction false} RemoveLength(s: seq<Click>, x: Click)
    requires Distinct(s)
    ensures |Remove(s, x)| == if x in s then |s| - 1 else |s|
  {
    if |s| > 0 {
      assert Distinct(s[1..]);
      RemoveLength(s[1..], x);
    }
  }

  /** `convert2BitMap` of `KNNRecentSession`: the recency bookkeeping, then the bitmap
      update of `KNN`. */
  function ConvertRecent(st: RecentState, session: seq<Click>, timeBased: bool, filterTime: int, filterNumber: int)
    : (r: Result<(RecentState, set<int>)>)
    ensures r.Ok? <==> Convert(st.knn, session).Ok?
    ensures r.Ok? ==> r.value.0.knn == Convert(st.knn, session).value.0 && r.value.1 == Convert(st.knn, session).value.1
    ensures r.Ok? ==> r.value.0.recent == Touch(st.recent, session, timeBased, filterTime, filterNumber)
    ensures r.Ok? ==> st.knn.sessions.Keys <= r.value.0.knn.sessions.Keys
  {
    match Convert(st.knn, session)
    case Err(e) => Err(e)
    case Ok((knn, bits)) => Ok((RecentState(knn, Touch(st.recent, session, timeBased, filterTime, filterNumber)), bits))
  }

  /** Every key of the recency map has a stored bitmap: what lets `similarities` look
      them up. */
  ghost predicate RecentStored(st: RecentState) {
    forall c :: c in st.recent ==> c in st.knn.sessions
  }

  /** The recency map stays within the stored sessions, and evicted sessions keep their
      bitmaps. */
  lemma ConvertRecentStored(st: RecentState, session: seq<Click>, timeBased: bool, filterTime: int, filterNumber: int)
    requires RecentStored(st)
    requires ConvertRecent(st, session, timeBased, filterTime, filterNumber).Ok?
    ensures RecentStored(ConvertRecent(st, session, timeBased, filterTime, filterNumber).value.0)
  {
    var st' := ConvertRecent(st, session, timeBased, filterTime, filterNumber).value.0;
    var moved := Remove(st.recent, session[0]) + [session[0]];
    forall c | c in st'.recent ensures c in st'.knn.sessions {
      assert c in moved;
    }
  }

  /** `trainInternal` of `KNN` with the recency-tracking conversion. */
  function TrainRecent(st: RecentState, clicks: seq<ClickData>, timeBased: bool, filterTime: int, filterNumber: int)
    : (r: Result<RecentState>)
    ensures r.Ok? ==> st.knn.sessions.Keys <= r.value.knn.sessions.Keys
    ensures r.Ok? && RecentStored(st) ==> RecentStored(r.value)
    decreases |clicks|
  {
    if |clicks| == 0 then Ok(st)
    else
      match ConvertRecent(st, clicks[0].session, timeBased, filterTime, filterNumber)
      case Err(e) => Err(e)
      case Ok((st1, _)) =>
        assert RecentStored(st) ==> RecentStored(st1) by {
          if RecentStored(st) {
            ConvertRecentStored(st, clicks[0].session, timeBased, filterTime, filterNumber);
          }
        }
        if !HasItem(clicks[0].click) then Err("NullPointerException")
        else
          var item := ItemId(clicks[0].click);
          var (knn, n) := MapItemId(st1.knn, item);
          TrainRecent(RecentState(knn.(itemMap := knn.itemMap[n := item]), st1.recent), clicks[1..], timeBased, filterTime, filterNumber)
  }

  /** The bitmaps of the recent sessions; `None` when a key has none, where the source
      dereferences null. */
  function RecentBitmaps(st: RecentState): (r: Option<set<set<int>>>)
    ensures RecentStored(st) ==> r.Some?
    ensures r.Some? ==> forall v :: v in r.value <==> exists c :: c in st.recent && c in st.knn.sessions && st.knn.sessions[c] == v
  {
    if forall c :: c in st.recent ==> c in st.knn.sessions then
      Some(set c | c in st.recent :: st.knn.sessions[c])
    else None
  }

  /** `recommend` of `KNNRecentSession`: as `KNN`, with only the recent sessions as
      neighbour candidates. */
  function RecommendRecent(st: RecentState, cd: ClickData, timeBased: bool, filterTime: int, filterNumber: int, k: int,
                           simOrder: seq<set<int>>, scoreOrder: seq<int>)
    : (r: Result<(RecentState, seq<int>)>)
    requires var c := ConvertRecent(st, cd.session, timeBased, filterTime, filterNumber);
      c.Ok? && RecentBitmaps(c.value.0).Some? ==>
        OrdersFit(Neighbours(RecentBitmaps(c.value.0).value, c.value.1), c.value.1, k, simOrder, scoreOrder)
    ensures RecentStored(st) ==> (r.Ok? <==> Convert(st.knn, cd.session).Ok?)
    ensures r.Ok? ==> var c := ConvertRecent(st, cd.session, timeBased, filterTime, filterNumber);
      c.Ok? && r.value.0 == c.value.0 && RecentBitmaps(c.value.0).Some? &&
      RanksScores(Scores(Neighbours(RecentBitmaps(c.value.0).value, c.value.1), c.value.1, k, simOrder),
                  c.value.0.knn.itemMap, r.value.1)
  {
    match ConvertRecent(st, cd.session, timeBased, filterTime, filterNumber)
    case Err(e) => Err(e)
    case Ok((st1, cur)) =>
      match RecentBitmaps(st1)
      case None => Err("NullPointerException")
      case Some(bitmaps) =>
        var sims := Neighbours(bitmaps, cur);
        var keys := Ranked(Scores(sims, cur, k, simOrder), scoreOrder);
        assert RankedKeys(Scores(sims, cur, k, simOrder), keys);
        Ok((st1, Remap(keys, st1.knn.itemMap)))
  }

  /** Only recent sessions are compared: every neighbour candidate is the bitmap of a key
      still in the recency map. */
  lemma RecentNeighbours(st: RecentState, cur: set<int>, v: set<int>)
    requires RecentBitmaps(st).Some? && v in Neighbours(RecentBitmaps(st).value, cur)
    ensures exists c :: c in st.recent && c in st.knn.sessions && st.knn.sessions[c] == v
    ensures 0.0 < Similarity(cur, v) < 1.0
  {
  }
}
