/** `SequentialPattern`, `SequentialSubPattern` and `SequentialSubPatternAll`: a tree of
    click sequences with a support count per node, grown from the training sessions and
    walked along the current session to find the clicks that followed it. A node is
    identified by its path of item ids from the root (the root is the empty path), so the
    tree is a map from paths to supports. */
module Patterns {
  import opened Wrappers
  import opened Seqs
  import opened Events
  import opened StableSort
  import opened Util
  import opened Ranking

  type Tree = map<seq<int>, int>

  /** A node's support, 0 for a node that does not exist. */
  function Sup(t: Tree, p: seq<int>): int {
    if p in t then t[p] else 0
  }

  /** The nodes along path `p` that are missing, created with support 0. */
  function Ensure(t: Tree, p: seq<int>): (r: Tree)
    ensures t.Keys <= r.Keys
    ensures forall k :: 0 < k <= |p| ==> p[..k] in r
    ensures forall q :: Sup(r, q) == Sup(t, q)
    decreases |p|
  {
    if |p| == 0 then t
    else
      var t1 := Ensure(t, p[..|p| - 1]);
      var r := if p in t1 then t1 else t1[p := 0];
      assert forall k :: 0 < k < |p| ==> p[..k] == p[..|p| - 1][..k];
      assert p[..|p|] == p;
      r
  }

  // ---------------------------------------------------------------------------
  // SequentialPattern

  /** `updateMap` of `SequentialPattern` on the session's item ids: the path is created as
      needed, the node of the whole session gains one support and the node of the session
      without its last click loses one. */
  function UpdateIds(t: Tree, ids: seq<int>): (r: Tree)
    ensures t.Keys <= r.Keys
    ensures forall k :: 0 < k <= |ids| ==> ids[..k] in r
  {
    if |ids| == 0 then t
    else
      var t1 := Ensure(t, ids);
      var t2 := t1[ids := t1[ids] + 1];
      if |ids| == 1 then t2 else t2[ids[..|ids| - 1] := t2[ids[..|ids| - 1]] - 1]
  }

  lemma UpdateIdsSupport(t: Tree, ids: seq<int>, p: seq<int>)
    ensures Sup(UpdateIds(t, ids), p)
         == Sup(t, p) + (if |ids| > 0 && p == ids then 1 else 0) - (if |ids| >= 2 && p == ids[..|ids| - 1] then 1 else 0)
  {
    if |ids| > 0 {
      var t1 := Ensure(t, ids);
      assert Sup(t1, p) == Sup(t, p) && Sup(t1, ids) == Sup(t, ids);
      if |ids| >= 2 {
        assert ids[..|ids| - 1] != ids;
        assert Sup(t1, ids[..|ids| - 1]) == Sup(t, ids[..|ids| - 1]);
      }
    }
  }

  /** `updateMap` on a session: a click without an item dereferences null. */
  function Update(t: Tree, session: seq<Click>): (r: Result<Tree>)
    ensures r.Ok? <==> AllHaveItems(session)
    ensures r.Ok? ==> t.Keys <= r.value.Keys
  {
    if AllHaveItems(session) then Ok(UpdateIds(t, ItemIdSeq(session))) else Err("NullPointerException")
  }

  /** The session as training sees it click by click: `ids[..1]`, then `ids[..2]`, up to
      `ids[..n]`. */
  function Feed(t: Tree, ids: seq<int>, n: nat): Tree
    requires n <= |ids|
  {
    if n == 0 then t else UpdateIds(Feed(t, ids, n - 1), ids[..n])
  }

  /** Feeding a session's growing prefixes nets one support on the node of the full
      session and none on any shorter prefix. */
  lemma {:induction false} FeedNet(t: Tree, ids: seq<int>, n: nat, p: seq<int>)
    requires n <= |ids|
    ensures Sup(Feed(t, ids, n), p) == Sup(t, p) + (if n > 0 && p == ids[..n] then 1 else 0)
  {
    if n > 0 {
      FeedNet(t, ids, n - 1, p);
      UpdateIdsSupport(Feed(t, ids, n - 1), ids[..n], p);
      assert ids[..n][..n - 1] == ids[..n - 1];
    }
  }

  /** The keys of the children of node `p`. */
  function ChildKeys(t: Tree, p: seq<int>): set<int> {
    set q | q in t && |q| == |p| + 1 && q[..|p|] == p :: q[|p|]
  }

  lemma ChildKeyAt(t: Tree, p: seq<int>, k: int)
    ensures k in ChildKeys(t, p) <==> p + [k] in t
  {
    var q := p + [k];
    assert q[..|p|] == p && q[|p|] == k;
    if k in ChildKeys(t, p) {
      var q' :| q' in t && |q'| == |p| + 1 && q'[..|p|] == p && q'[|p|] == k;
      assert q' == q;
    }
  }

  /** The children of node `p` with their supports. */
  function Children(t: Tree, p: seq<int>): map<int, int> {
    map k | k in ChildKeys(t, p) :: Sup(t, p + [k])
  }

  /** The walk of `recommendInternal` from node `p` along the remaining clicks: `None` as
      soon as a click has no matching child. A click reached without an item dereferences
      null. */
  function Walk(t: Tree, p: seq<int>, rest: seq<Click>): Result<Option<seq<int>>>
    decreases |rest|
  {
    if |rest| == 0 then Ok(Some(p))
    else if !HasItem(rest[0]) then Err("NullPointerException")
    else if p + [ItemId(rest[0])] !in t then Ok(None)
    else Walk(t, p + [ItemId(rest[0])], rest[1..])
  }

  lemma ItemIdSeqCons(s: seq<Click>)
    requires |s| > 0 && HasItem(s[0]) && AllHaveItems(s[1..])
    ensures AllHaveItems(s) && ItemIdSeq(s) == [ItemId(s[0])] + ItemIdSeq(s[1..])
  {
    assert forall i :: 1 <= i < |s| ==> s[i] == s[1..][i - 1];
  }

  /** A walk past its first click that gets through steps to that click's node. */
  lemma WalkThrough(t: Tree, p: seq<int>, rest: seq<Click>)
    requires |rest| > 0 && Walk(t, p, rest).Ok? && Walk(t, p, rest).value.Some?
    ensures HasItem(rest[0]) && Walk(t, p, rest) == Walk(t, p + [ItemId(rest[0])], rest[1..])
  {
  }

  lemma AppendAssoc(a: seq<int>, b: seq<int>, c: seq<int>)
    ensures (a + b) + c == a + (b + c)
  {
  }

  /** A walk that gets through ends at the node of the whole session, and every click on
      the way names an item. */
  lemma {:induction false} WalkEnd(t: Tree, p: seq<int>, rest: seq<Click>)
    requires Walk(t, p, rest).Ok? && Walk(t, p, rest).value.Some?
    ensures AllHaveItems(rest) && Walk(t, p, rest).value.value == p + ItemIdSeq(rest)
    decreases |rest|
  {
    if |rest| == 0 {
      assert p + ItemIdSeq(rest) == p;
    } else {
      WalkThrough(t, p, rest);
      var x := ItemId(rest[0]);
      WalkEnd(t, p + [x], rest[1..]);
      ItemIdSeqCons(rest);
      AppendAssoc(p, [x], ItemIdSeq(rest[1..]));
    }
  }

  /** A walk that gets through passes only through existing nodes. */
  lemma {:induction false} WalkFound(t: Tree, p: seq<int>, rest: seq<Click>, k: int)
    requires Walk(t, p, rest).Ok? && Walk(t, p, rest).value.Some?
    requires AllHaveItems(rest) && 0 < k <= |rest|
    ensures p + ItemIdSeq(rest)[..k] in t
    decreases |rest|
  {
    var x := ItemId(rest[0]);
    var q := p + [x];
    WalkEnd(t, q, rest[1..]);
    ItemIdSeqCons(rest);
    if k > 1 {
      WalkFound(t, q, rest[1..], k - 1);
      assert q + ItemIdSeq(rest[1..])[..k - 1] == p + ItemIdSeq(rest)[..k];
    } else {
      assert p + ItemIdSeq(rest)[..k] == q;
    }
  }

  /** When every click names an item and every node along the way exists, the walk gets
      through. */
  lemma {:induction false} WalkComplete(t: Tree, p: seq<int>, rest: seq<Click>)
    requires AllHaveItems(rest)
    requires forall k :: 0 < k <= |rest| ==> p + ItemIdSeq(rest)[..k] in t
    ensures Walk(t, p, rest) == Ok(Some(p + ItemIdSeq(rest)))
    decreases |rest|
  {
    var ids := ItemIdSeq(rest);
    if |rest| == 0 {
      assert p + ids == p;
    } else {
      var tail := rest[1..];
      assert AllHaveItems(tail) by {
        forall i | 0 <= i < |tail| ensures HasItem(tail[i]) {
          assert tail[i] == rest[i + 1];
        }
      }
      ItemIdSeqCons(rest);
      var q := p + [ids[0]];
      assert ItemIdSeq(tail) == ids[1..];
      TailOnPath(t, p, ids);
      WalkComplete(t, q, tail);
      WalkStep(t, p, rest);
      ConsShift(p, ids);
    }
  }

  lemma ConsShift(p: seq<int>, ids: seq<int>)
    requires |ids| > 0
    ensures (p + [ids[0]]) + ids[1..] == p + ids
  {
    assert ids == [ids[0]] + ids[1..];
  }

  lemma WalkStep(t: Tree, p: seq<int>, rest: seq<Click>)
    requires |rest| > 0 && HasItem(rest[0]) && p + [ItemId(rest[0])] in t
    ensures Walk(t, p, rest) == Walk(t, p + [ItemId(rest[0])], rest[1..])
  {
  }

  /** The path from the first child on is on the tree when the whole path is. */
  lemma TailOnPath(t: Tree, p: seq<int>, ids: seq<int>)
    requires |ids| > 0
    requires forall k :: 0 < k <= |ids| ==> p + ids[..k] in t
    ensures p + [ids[0]] in t
    ensures forall k :: 0 < k <= |ids| - 1 ==> (p + [ids[0]]) + ids[1..][..k] in t
  {
    assert ids[..1] == [ids[0]];
    assert p + ids[..1] in t;
    forall k | 0 < k <= |ids| - 1 ensures (p + [ids[0]]) + ids[1..][..k] in t {
      assert ids[..k + 1] == [ids[0]] + ids[1..][..k];
      assert p + ids[..k + 1] in t;
      assert (p + [ids[0]]) + ids[1..][..k] == p + ids[..k + 1];
    }
  }

  /** `recommendInternal` of `SequentialPattern`: the empty list unless the whole session
      is a path of the tree; then the children of its end node, once each, by
      non-increasing support, ties in the child map's iteration order `order`. */
  function Recommend(t: Tree, session: seq<Click>, order: seq<int>): (r: Result<seq<int>>)
    requires Walk(t, [], session).Ok? && Walk(t, [], session).value.Some? ==>
      Enumerates(order, ChildKeys(t, Walk(t, [], session).value.value))
    ensures r.Ok? <==> Walk(t, [], session).Ok?
    ensures r.Ok? && Walk(t, [], session).value.None? ==> r.value == []
    ensures r.Ok? && Walk(t, [], session).value.Some? ==>
      var end := Walk(t, [], session).value.value;
      Distinct(r.value) && Elems(r.value) == ChildKeys(t, end) && PopDescending(Children(t, end), r.value)
  {
    match Walk(t, [], session)
    case Err(e) => Err(e)
    case Ok(None) => Ok([])
    case Ok(Some(end)) => Ok(Descending(Children(t, end), order))
  }

  /** Each recommended item followed the whole session in training, and the items come by
      non-increasing support of that continuation. */
  lemma RecommendRanking(t: Tree, session: seq<Click>, order: seq<int>, i: int, j: int)
    requires Walk(t, [], session).Ok? && Walk(t, [], session).value.Some?
    requires Enumerates(order, ChildKeys(t, Walk(t, [], session).value.value))
    requires 0 <= i < j < |Recommend(t, session, order).value|
    ensures AllHaveItems(session)
    ensures var ids := ItemIdSeq(session);
      var r := Recommend(t, session, order).value;
      ids + [r[i]] in t && ids + [r[j]] in t && Sup(t, ids + [r[i]]) >= Sup(t, ids + [r[j]])
  {
    WalkEnd(t, [], session);
    var ids := ItemIdSeq(session);
    var end := Walk(t, [], session).value.value;
    assert end == ids;
    var c := Children(t, end);
    var r := Descending(c, order);
    assert Recommend(t, session, order).value == r;
    DescendingAt(c, r, i, j);
    assert r[i] in Elems(r) && r[j] in Elems(r);
    ChildKeyAt(t, ids, r[i]);
    ChildKeyAt(t, ids, r[j]);
  }

  // ---------------------------------------------------------------------------
  // SequentialSubPattern

  /** `updateMap` of `SequentialSubPattern` from start `j` on: each suffix `ids[j'..]` with
      `j <= j' < |ids| - 1` is created as needed and its end node gains one support. */
  function SubFrom(t: Tree, ids: seq<int>, j: nat): (r: Tree)
    ensures t.Keys <= r.Keys
    decreases |ids| - j
  {
    if j + 1 >= |ids| then t
    else
      var t1 := Ensure(t, ids[j..]);
      SubFrom(t1[ids[j..] := t1[ids[j..]] + 1], ids, j + 1)
  }

  /** A suffix of at least two clicks, starting at or after `j`. */
  predicate LongSuffix(ids: seq<int>, j: nat, p: seq<int>) {
    2 <= |p| <= |ids| - j && p == ids[|ids| - |p|..]
  }

  lemma {:induction false} SubFromSupport(t: Tree, ids: seq<int>, j: nat, p: seq<int>)
    ensures Sup(SubFrom(t, ids, j), p) == Sup(t, p) + (if LongSuffix(ids, j, p) then 1 else 0)
    decreases |ids| - j
  {
    if j + 1 < |ids| {
      var t1 := Ensure(t, ids[j..]);
      var t2 := t1[ids[j..] := t1[ids[j..]] + 1];
      SubFromSupport(t2, ids, j + 1, p);
      assert Sup(t1, p) == Sup(t, p) && Sup(t1, ids[j..]) == Sup(t, ids[j..]);
      assert p == ids[j..] <==> |p| == |ids| - j && p == ids[|ids| - |p|..];
    }
  }

  /** `updateMap` of `SequentialSubPattern`: every suffix of at least two clicks gains one
      support, nothing loses any, and a single click changes nothing. Keys of all clicks
      are built once the session has two clicks, so a click without an item then
      dereferences null. */
  function UpdateSub(t: Tree, session: seq<Click>): (r: Result<Tree>)
    ensures r.Ok? <==> |session| < 2 || AllHaveItems(session)
    ensures r.Ok? && |session| < 2 ==> r.value == t
    ensures r.Ok? ==> t.Keys <= r.value.Keys
  {
    if |session| < 2 then Ok(t)
    else if !AllHaveItems(session) then Err("NullPointerException")
    else Ok(SubFrom(t, ItemIdSeq(session), 0))
  }

  /** Training on a session adds one support to each of its suffixes of two or more clicks
      and changes no other support. */
  lemma UpdateSubSupport(t: Tree, session: seq<Click>, p: seq<int>)
    requires |session| >= 2 && AllHaveItems(session)
    ensures var ids := ItemIdSeq(session);
      Sup(UpdateSub(t, session).value, p) == Sup(t, p) + (if LongSuffix(ids, 0, p) then 1 else 0)
  {
    SubFromSupport(t, ItemIdSeq(session), 0, p);
  }

  // ---------------------------------------------------------------------------
  // SequentialSubPatternAll

  /** The lenient walk of `SequentialSubPatternAll`: a click with no matching child is
      skipped and the walk stays where it is. */
  function SkipWalk(t: Tree, p: seq<int>, ids: seq<int>): seq<int>
    decreases |ids|
  {
    if |ids| == 0 then p
    else if p + [ids[0]] in t then SkipWalk(t, p + [ids[0]], ids[1..])
    else SkipWalk(t, p, ids[1..])
  }

  /** When no click matches a child of the root, the walk ends at the root. */
  lemma {:induction false} NoMatchStaysAtRoot(t: Tree, ids: seq<int>)
    requires forall i :: 0 <= i < |ids| ==> [ids[i]] !in t
    ensures SkipWalk(t, [], ids) == []
    decreases |ids|
  {
    if |ids| > 0 {
      assert [] + [ids[0]] == [ids[0]];
      assert forall i :: 0 <= i < |ids[1..]| ==> [ids[1..][i]] !in t by {
        forall i | 0 <= i < |ids[1..]| ensures [ids[1..][i]] !in t {
          assert ids[1..][i] == ids[i + 1];
        }
      }
      NoMatchStaysAtRoot(t, ids[1..]);
    }
  }

  /** The score a child contributes from start `j`: its support, divided by `j + 1` when
      weighting is on. */
  function ChildScore(support: int, j: nat, weight: bool): real {
    if weight then 1.0 / ((j + 1) as real) * support as real else support as real
  }

  /** The scores of the children of the node reached from start `j`. */
  function StartScores(t: Tree, ids: seq<int>, j: nat, weight: bool): (r: map<int, real>)
    requires j <= |ids|
    ensures r.Keys == ChildKeys(t, SkipWalk(t, [], ids[j..]))
  {
    var node := SkipWalk(t, [], ids[j..]);
    map k | k in ChildKeys(t, node) :: ChildScore(Sup(t, node + [k]), j, weight)
  }

  /** Maps written one over the other: a later map's value wins. */
  function Overlay(ms: seq<map<int, real>>): map<int, real> {
    if |ms| == 0 then map[] else Overlay(ms[..|ms| - 1]) + ms[|ms| - 1]
  }

  /** A key is in the overlay exactly when it is in one of the maps, with its value from
      the last map that has it. */
  lemma {:induction false} OverlayLatest(ms: seq<map<int, real>>, k: int, j: int)
    requires 0 <= j < |ms| && k in ms[j]
    requires forall j' :: j < j' < |ms| ==> k !in ms[j']
    ensures k in Overlay(ms) && Overlay(ms)[k] == ms[j][k]
  {
    var init := ms[..|ms| - 1];
    if j < |ms| - 1 {
      assert init[j] == ms[j];
      forall j' | j < j' < |init| ensures k !in init[j'] {
        assert init[j'] == ms[j'];
      }
      OverlayLatest(init, k, j);
    }
  }

  lemma {:induction false} OverlayFrom(ms: seq<map<int, real>>, k: int) returns (j: int)
    requires k in Overlay(ms)
    ensures 0 <= j < |ms| && k in ms[j]
  {
    var init := ms[..|ms| - 1];
    if k in ms[|ms| - 1] {
      j := |ms| - 1;
    } else {
      j := OverlayFrom(init, k);
      assert init[j] == ms[j];
    }
  }

  /** The child scores of every start, in start order. */
  function StartMaps(t: Tree, ids: seq<int>, weight: bool): (r: seq<map<int, real>>)
    ensures |r| == |ids| && forall j :: 0 <= j < |ids| ==> r[j] == StartScores(t, ids, j, weight)
  {
    seq(|ids|, j requires 0 <= j < |ids| => StartScores(t, ids, j, weight))
  }

  /** The score map after every start: each start's child scores are written over the
      earlier ones (the summing write is overwritten at once). */
  function Scores(t: Tree, ids: seq<int>, weight: bool): map<int, real> {
    Overlay(StartMaps(t, ids, weight))
  }

  /** An item scored by a start whose node has it as a child keeps that start's score
      unless a later start's node has it as a child too. */
  lemma ScoreIsLatest(t: Tree, ids: seq<int>, weight: bool, k: int, j: nat)
    requires j < |ids|
    requires k in ChildKeys(t, SkipWalk(t, [], ids[j..]))
    requires forall j' :: j < j' < |ids| ==> k !in ChildKeys(t, SkipWalk(t, [], ids[j'..]))
    ensures k in Scores(t, ids, weight)
    ensures Scores(t, ids, weight)[k] == ChildScore(Sup(t, SkipWalk(t, [], ids[j..]) + [k]), j, weight)
  {
    var ms := StartMaps(t, ids, weight);
    forall j' | j < j' < |ms| ensures k !in ms[j'] {
      assert ms[j'] == StartScores(t, ids, j', weight);
    }
    OverlayLatest(ms, k, j);
  }

  /** Only children of reached nodes are scored. */
  lemma ScoredIsChild(t: Tree, ids: seq<int>, weight: bool, k: int) returns (j: int)
    requires k in Scores(t, ids, weight)
    ensures 0 <= j < |ids| && k in ChildKeys(t, SkipWalk(t, [], ids[j..]))
  {
    j := OverlayFrom(StartMaps(t, ids, weight), k);
  }

  /** `recommend` of `SequentialSubPatternAll`: every scored item once, by non-increasing
      score, ties in the score map's iteration order `order`. Building the key of a
      session click without an item dereferences null. */
  function RecommendAll(t: Tree, session: seq<Click>, weight: bool, order: seq<int>): (r: Result<seq<int>>)
    requires AllHaveItems(session) ==> Enumerates(order, Scores(t, ItemIdSeq(session), weight).Keys)
    ensures r.Ok? <==> AllHaveItems(session)
    ensures r.Ok? ==>
      var scores := Scores(t, ItemIdSeq(session), weight);
      Distinct(r.value) && Elems(r.value) == scores.Keys && KeysSorted(scores, r.value, false)
  {
    if !AllHaveItems(session) then Err("NullPointerException")
    else
      var scores := Scores(t, ItemIdSeq(session), weight);
      Ok(Ranked(scores, order))
  }
}
