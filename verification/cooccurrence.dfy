/** `FastSessionCoOccurrence`: counts how often two items were clicked in one session
    (the newest click of a session paired with each earlier one, both ways round),
    optionally only over the most recent pairs, and recommends the items that co-occur
    most with the current click. Item ids stand for the source's string keys. */
module CoOccurrence {
  import opened Wrappers
  import opened Seqs
  import opened Events
  import opened Ranking

  /** The co-occurrence map and the queue of counted pairs (filled in buffer mode only). */
  datatype CoState = CoState(co: map<int, map<int, int>>, ring: seq<(int, int)>)

  /** The inner map of `a`, empty when there is none. */
  function Inner(co: map<int, map<int, int>>, a: int): map<int, int> {
    if a in co then co[a] else map[]
  }

  /** How often `b` was counted with `a`. */
  function Cnt(co: map<int, map<int, int>>, a: int, b: int): int {
    PopOf(Inner(co, a), b)
  }

  /** `addTuple(a, b)`: the pair is queued in buffer mode, and `b`'s count in `a`'s inner
      map, created if missing, goes up by one. */
  function AddTuple(st: CoState, a: int, b: int, buffer: bool): (r: CoState)
    ensures Cnt(r.co, a, b) == Cnt(st.co, a, b) + 1
    ensures forall c, d :: (c, d) != (a, b) ==> Cnt(r.co, c, d) == Cnt(st.co, c, d)
    ensures r.ring == st.ring + (if buffer then [(a, b)] else [])
  {
    var inner := Inner(st.co, a);
    CoState(st.co[a := inner[b := PopOf(inner, b) + 1]], if buffer then st.ring + [(a, b)] else st.ring)
  }

  /** The loop of `updateMap`: every earlier click `x` of the session is paired with the
      newest click `last` as (x, last) and (last, x). The self-pair guard compares two
      freshly built strings by reference, so it never skips a pair. */
  function AddPairs(st: CoState, earlier: seq<int>, last: int, buffer: bool): (r: CoState)
    decreases |earlier|
  {
    if |earlier| == 0 then st
    else AddPairs(AddTuple(AddTuple(st, earlier[0], last, buffer), last, earlier[0], buffer), earlier[1..], last, buffer)
  }

  /** Each earlier click adds one to (x, last) and one to (last, x); a self-pair, from an
      earlier click on the newest item, thus adds two. */
  lemma {:induction false} AddPairsCounts(st: CoState, earlier: seq<int>, last: int, buffer: bool, a: int, b: int)
    ensures Cnt(AddPairs(st, earlier, last, buffer).co, a, b)
         == Cnt(st.co, a, b) + (if b == last then Count(earlier, a) else 0) + (if a == last then Count(earlier, b) else 0)
    decreases |earlier|
  {
    if |earlier| > 0 {
      var x := earlier[0];
      var st1 := AddTuple(st, x, last, buffer);
      var st2 := AddTuple(st1, last, x, buffer);
      AddPairsCounts(st2, earlier[1..], last, buffer, a, b);
    }
  }

  /** The pairs queued for the earlier clicks, in queueing order. */
  function Tuples(earlier: seq<int>, last: int): seq<(int, int)>
    decreases |earlier|
  {
    if |earlier| == 0 then [] else [(earlier[0], last), (last, earlier[0])] + Tuples(earlier[1..], last)
  }

  lemma {:induction false} AddPairsRing(st: CoState, earlier: seq<int>, last: int, buffer: bool)
    ensures AddPairs(st, earlier, last, buffer).ring == st.ring + (if buffer then Tuples(earlier, last) else [])
    decreases |earlier|
  {
    if |earlier| > 0 {
      var x := earlier[0];
      var st2 := AddTuple(AddTuple(st, x, last, buffer), last, x, buffer);
      AddPairsRing(st2, earlier[1..], last, buffer);
    }
  }

  /** The eviction loop of buffer mode: while more than `bufferSize` pairs are queued, the
      oldest one's count goes down by one, and an entry that reaches 0 is removed. Polling
      an empty queue, or a pair whose inner map is missing, dereferences null. */
  function Evict(st: CoState, bufferSize: int): (r: Result<CoState>)
    ensures r.Ok? ==> |r.value.ring| <= bufferSize
    ensures r.Ok? ==> IsSuffixOf(r.value.ring, st.ring)
    ensures r.Err? ==> r.msg == "NullPointerException"
    decreases |st.ring|
  {
    if |st.ring| <= bufferSize then Ok(st)
    else if |st.ring| == 0 || st.ring[0].0 !in st.co then Err("NullPointerException")
    else
      var r := Evict(Poll(st), bufferSize);
      assert r.Ok? ==> IsSuffixOf(r.value.ring, st.ring) by {
        if r.Ok? {
          var s := r.value.ring;
          assert st.ring[1..][|st.ring| - 1 - |s|..] == st.ring[|st.ring| - |s|..];
        }
      }
      r
  }

  /** One step of the eviction loop: the oldest pair is dequeued and uncounted, and its
      entry is removed when its count reaches 0. */
  function Poll(st: CoState): (r: CoState)
    requires |st.ring| > 0 && st.ring[0].0 in st.co
    ensures r.ring == st.ring[1..]
  {
    var (a, b) := st.ring[0];
    var inner := st.co[a][b := PopOf(st.co[a], b) - 1];
    var inner' := if inner[b] == 0 then inner - {b} else inner;
    CoState(st.co[a := inner'], st.ring[1..])
  }

  /** `w` is `s` without some of its oldest elements. */
  predicate IsSuffixOf(w: seq<(int, int)>, s: seq<(int, int)>) {
    |w| <= |s| && w == s[|s| - |w|..]
  }

  /** `updateMap(session)`: nothing for a session of fewer than two clicks; otherwise the
      pairs are counted and, in buffer mode, the queue is cut back to `bufferSize`. Building
      a key of a click without an item dereferences null. */
  function Update(st: CoState, session: seq<Click>, buffer: bool, bufferSize: int): (r: Result<CoState>)
    ensures |session| >= 2 && !AllHaveItems(session) ==> r == Err("NullPointerException")
    ensures !buffer && (|session| < 2 || AllHaveItems(session)) ==> r.Ok? && r.value.ring == st.ring
    ensures buffer && r.Ok? ==> |r.value.ring| <= bufferSize
  {
    if |session| < 2 then
      if buffer then Evict(st, bufferSize) else Ok(st)
    else if !AllHaveItems(session) then Err("NullPointerException")
    else
      var ids := ItemIdSeq(session);
      var st' := AddPairs(st, ids[..|ids| - 1], ids[|ids| - 1], buffer);
      AddPairsRing(st, ids[..|ids| - 1], ids[|ids| - 1], buffer);
      if buffer then Evict(st', bufferSize) else Ok(st')
  }

  /** `trainInternal`: `updateMap` on the session of every click of the batch, in order. */
  function Train(st: CoState, clicks: seq<ClickData>, buffer: bool, bufferSize: int): (r: Result<CoState>)
    ensures buffer && r.Ok? && |clicks| > 0 ==> |r.value.ring| <= bufferSize
    decreases |clicks|
  {
    if |clicks| == 0 then Ok(st)
    else
      match Update(st, clicks[0].session, buffer, bufferSize)
      case Err(e) => Err(e)
      case Ok(st') =>
        var r := Train(st', clicks[1..], buffer, bufferSize);
        assert buffer && r.Ok? && |clicks| == 1 ==> r == Ok(st');
        r
  }

  // ---------------------------------------------------------------------------
  // Symmetry without buffer

  /** Every pair was counted as often one way round as the other. */
  ghost predicate Symmetric(co: map<int, map<int, int>>) {
    forall a, b :: Cnt(co, a, b) == Cnt(co, b, a)
  }

  lemma SymmetricAt(co: map<int, map<int, int>>, a: int, b: int)
    requires Symmetric(co)
    ensures Cnt(co, a, b) == Cnt(co, b, a)
  {
  }

  /** Without a buffer, `updateMap` keeps the counts symmetric. */
  lemma UpdateKeepsSymmetric(st: CoState, session: seq<Click>, bufferSize: int)
    requires Symmetric(st.co) && Update(st, session, false, bufferSize).Ok?
    ensures Symmetric(Update(st, session, false, bufferSize).value.co)
  {
    if |session| >= 2 {
      var ids := ItemIdSeq(session);
      var earlier, last := ids[..|ids| - 1], ids[|ids| - 1];
      var r := Update(st, session, false, bufferSize).value;
      forall a, b ensures Cnt(r.co, a, b) == Cnt(r.co, b, a) {
        AddPairsCounts(st, earlier, last, false, a, b);
        AddPairsCounts(st, earlier, last, false, b, a);
        SymmetricAt(st.co, a, b);
      }
    }
  }

  /** Without a buffer, training on a batch keeps the counts symmetric. */
  lemma {:induction false} TrainKeepsSymmetric(st: CoState, clicks: seq<ClickData>, bufferSize: int)
    requires Symmetric(st.co) && Train(st, clicks, false, bufferSize).Ok?
    ensures Symmetric(Train(st, clicks, false, bufferSize).value.co)
    decreases |clicks|
  {
    if |clicks| > 0 {
      UpdateKeepsSymmetric(st, clicks[0].session, bufferSize);
      TrainKeepsSymmetric(Update(st, clicks[0].session, false, bufferSize).value, clicks[1..], bufferSize);
    }
  }

  /** A session of two clicks on the same item adds two to that item's self count. */
  lemma SelfPairCountsTwice(st: CoState, c1: Click, c2: Click, bufferSize: int)
    requires HasItem(c1) && HasItem(c2) && ItemId(c1) == ItemId(c2)
    ensures var x := ItemId(c1);
      Update(st, [c1, c2], false, bufferSize).Ok? &&
      Cnt(Update(st, [c1, c2], false, bufferSize).value.co, x, x) == Cnt(st.co, x, x) + 2
  {
    var x := ItemId(c1);
    var ids := ItemIdSeq([c1, c2]);
    assert ids[..1] == [x] && ids[1] == x;
    AddPairsCounts(st, [x], x, false, x, x);
  }

  // ---------------------------------------------------------------------------
  // Buffer mode: the counts are those of the queued pairs

  /** Every count is the number of times its pair is queued. */
  ghost predicate CountsRing(st: CoState) {
    forall a, b :: Cnt(st.co, a, b) == Count(st.ring, (a, b))
  }

  lemma CountsRingAt(st: CoState, a: int, b: int)
    requires CountsRing(st)
    ensures Cnt(st.co, a, b) == Count(st.ring, (a, b))
  {
  }

  lemma AddTupleKeepsCounts(st: CoState, a: int, b: int)
    requires CountsRing(st)
    ensures CountsRing(AddTuple(st, a, b, true))
  {
    var r := AddTuple(st, a, b, true);
    forall c, d ensures Cnt(r.co, c, d) == Count(r.ring, (c, d)) {
      CountAppend(st.ring, [(a, b)], (c, d));
      CountsRingAt(st, c, d);
    }
  }

  lemma {:induction false} AddPairsKeepsCounts(st: CoState, earlier: seq<int>, last: int)
    requires CountsRing(st)
    ensures CountsRing(AddPairs(st, earlier, last, true))
    decreases |earlier|
  {
    if |earlier| > 0 {
      var x := earlier[0];
      var st1 := AddTuple(st, x, last, true);
      AddTupleKeepsCounts(st, x, last);
      AddTupleKeepsCounts(st1, last, x);
      AddPairsKeepsCounts(AddTuple(st1, last, x, true), earlier[1..], last);
    }
  }

  /** Under the invariant, eviction succeeds for a non-negative buffer size and keeps the
      counts equal to the queued pairs. */
  lemma {:induction false} EvictKeepsCounts(st: CoState, bufferSize: int)
    requires CountsRing(st) && bufferSize >= 0
    ensures Evict(st, bufferSize).Ok? && CountsRing(Evict(st, bufferSize).value)
    decreases |st.ring|
  {
    if |st.ring| > bufferSize {
      PollKeepsCounts(st);
      EvictKeepsCounts(Poll(st), bufferSize);
    }
  }

  /** Dequeuing the oldest pair: its inner map exists, and the counts stay those of the
      queue. */
  lemma PollKeepsCounts(st: CoState)
    requires CountsRing(st) && |st.ring| > 0
    ensures st.ring[0].0 in st.co && CountsRing(Poll(st))
  {
    var (a, b) := st.ring[0];
    PollFirst(st);
    forall c, d ensures Cnt(Poll(st).co, c, d) == Count(Poll(st).ring, (c, d)) {
      PollAt(st, c, d);
    }
  }

  lemma PollFirst(st: CoState)
    requires CountsRing(st) && |st.ring| > 0
    ensures st.ring[0].0 in st.co && Cnt(st.co, st.ring[0].0, st.ring[0].1) >= 1
  {
    assert st.ring == [st.ring[0]] + st.ring[1..];
    CountAppend([st.ring[0]], st.ring[1..], st.ring[0]);
    CountsRingAt(st, st.ring[0].0, st.ring[0].1);
  }

  lemma PollAt(st: CoState, c: int, d: int)
    requires CountsRing(st) && |st.ring| > 0 && st.ring[0].0 in st.co
    ensures Cnt(Poll(st).co, c, d) == Count(Poll(st).ring, (c, d))
  {
    assert st.ring == [st.ring[0]] + st.ring[1..];
    CountAppend([st.ring[0]], st.ring[1..], (c, d));
    CountsRingAt(st, c, d);
  }

  /** In buffer mode the map counts exactly the most recent `bufferSize` pairs: a fresh
      state satisfies this, and every successful `updateMap` keeps it. */
  lemma UpdateKeepsCounts(st: CoState, session: seq<Click>, bufferSize: int)
    requires CountsRing(st) && bufferSize >= 0 && (|session| < 2 || AllHaveItems(session))
    ensures Update(st, session, true, bufferSize).Ok?
    ensures CountsRing(Update(st, session, true, bufferSize).value)
  {
    if |session| < 2 {
      EvictKeepsCounts(st, bufferSize);
    } else {
      var ids := ItemIdSeq(session);
      AddPairsKeepsCounts(st, ids[..|ids| - 1], ids[|ids| - 1]);
      EvictKeepsCounts(AddPairs(st, ids[..|ids| - 1], ids[|ids| - 1], true), bufferSize);
    }
  }

  /** Session clicks that all name an item. */
  ghost predicate SessionsClicked(clicks: seq<ClickData>) {
    forall i :: 0 <= i < |clicks| ==> AllHaveItems(clicks[i].session)
  }

  /** In buffer mode, training on a batch whose sessions name their items succeeds and
      keeps the counts equal to the queued pairs. */
  lemma {:induction false} TrainKeepsCounts(st: CoState, clicks: seq<ClickData>, bufferSize: int)
    requires CountsRing(st) && bufferSize >= 0 && SessionsClicked(clicks)
    ensures Train(st, clicks, true, bufferSize).Ok?
    ensures CountsRing(Train(st, clicks, true, bufferSize).value)
    decreases |clicks|
  {
    if |clicks| > 0 {
      assert AllHaveItems(clicks[0].session);
      UpdateKeepsCounts(st, clicks[0].session, bufferSize);
      assert SessionsClicked(clicks[1..]) by {
        forall i | 0 <= i < |clicks[1..]| ensures AllHaveItems(clicks[1..][i].session) {
          assert clicks[1..][i] == clicks[i + 1];
        }
      }
      TrainKeepsCounts(Update(st, clicks[0].session, true, bufferSize).value, clicks[1..], bufferSize);
    }
  }

  lemma InitialCountsRing()
    ensures CountsRing(CoState(map[], []))
  {
  }

  // ---------------------------------------------------------------------------
  // Recommendation

  /** The item ids whose co-occurrences are summed: the newest click's, or with
      `wholeSession` every session click's. Reading the newest click of an empty session is
      an index error; a considered click without an item dereferences null. */
  function Considered(session: seq<Click>, wholeSession: bool): (r: Result<seq<int>>)
    ensures wholeSession ==> (r.Ok? <==> AllHaveItems(session))
    ensures !wholeSession ==> (r.Ok? <==> |session| > 0 && HasItem(session[|session| - 1]))
    ensures r.Ok? && !wholeSession ==> |r.value| == 1 && r.value[0] == ItemId(session[|session| - 1])
    ensures r.Ok? && wholeSession ==> r.value == ItemIdSeq(session)
  {
    if wholeSession then
      if AllHaveItems(session) then Ok(ItemIdSeq(session)) else Err("NullPointerException")
    else if |session| == 0 then Err("IndexOutOfBoundsException")
    else if HasItem(session[|session| - 1]) then Ok([ItemId(session[|session| - 1])])
    else Err("NullPointerException")
  }

  /** Adds up two weight maps entry by entry. */
  function Merge(m1: map<int, int>, m2: map<int, int>): (r: map<int, int>)
    ensures r.Keys == m1.Keys + m2.Keys
    ensures forall k :: PopOf(r, k) == PopOf(m1, k) + PopOf(m2, k)
  {
    map k | k in m1.Keys + m2.Keys :: PopOf(m1, k) + PopOf(m2, k)
  }

  /** The summed co-occurrence weights of the considered clicks; a click with no inner map
      adds nothing. */
  function Weights(co: map<int, map<int, int>>, ids: seq<int>): map<int, int>
    decreases |ids|
  {
    if |ids| == 0 then map[] else Merge(Inner(co, ids[0]), Weights(co, ids[1..]))
  }

  /** The total count of `x` with the considered clicks. */
  function SumCnt(co: map<int, map<int, int>>, ids: seq<int>, x: int): int
    decreases |ids|
  {
    if |ids| == 0 then 0 else Cnt(co, ids[0], x) + SumCnt(co, ids[1..], x)
  }

  /** `x` was counted with one of the considered clicks. */
  predicate CountedWith(co: map<int, map<int, int>>, ids: seq<int>, x: int) {
    exists k :: 0 <= k < |ids| && x in Inner(co, ids[k])
  }

  /** An item's weight is its total count with the considered clicks, and it has a weight
      exactly when one of their inner maps holds it. */
  lemma {:induction false} WeightsAt(co: map<int, map<int, int>>, ids: seq<int>, x: int)
    ensures PopOf(Weights(co, ids), x) == SumCnt(co, ids, x)
    ensures x in Weights(co, ids) <==> CountedWith(co, ids, x)
    decreases |ids|
  {
    if |ids| > 0 {
      WeightsAt(co, ids[1..], x);
      if x in Weights(co, ids[1..]) {
        var i :| 0 <= i < |ids[1..]| && x in Inner(co, ids[1..][i]);
        assert x in Inner(co, ids[i + 1]);
      }
      if CountedWith(co, ids, x) {
        var i :| 0 <= i < |ids| && x in Inner(co, ids[i]);
        if i > 0 {
          assert ids[1..][i - 1] == ids[i];
        }
      }
    }
  }

  /** `recommend`: every item with a weight once, by non-increasing weight, ties in the
      weight map's iteration order `order`. The current item is not excluded. */
  function Recommend(co: map<int, map<int, int>>, session: seq<Click>, wholeSession: bool, order: seq<int>)
    : (r: Result<seq<int>>)
    requires Considered(session, wholeSession).Ok? ==>
      Enumerates(order, Weights(co, Considered(session, wholeSession).value).Keys)
    ensures r.Ok? <==> Considered(session, wholeSession).Ok?
    ensures r.Ok? ==>
      Distinct(r.value) &&
      Elems(r.value) == Weights(co, Considered(session, wholeSession).value).Keys &&
      PopDescending(Weights(co, Considered(session, wholeSession).value), r.value)
  {
    match Considered(session, wholeSession)
    case Err(e) => Err(e)
    case Ok(ids) => Ok(Descending(Weights(co, ids), order))
  }

  /** The recommended items come by non-increasing total co-occurrence count with the
      considered clicks, and each co-occurred with one of them. */
  lemma RecommendRanking(co: map<int, map<int, int>>, session: seq<Click>, wholeSession: bool, order: seq<int>, i: int, j: int)
    requires Considered(session, wholeSession).Ok?
    requires Enumerates(order, Weights(co, Considered(session, wholeSession).value).Keys)
    requires 0 <= i < j < |Recommend(co, session, wholeSession, order).value|
    ensures InRankOrder(co, Considered(session, wholeSession).value, Recommend(co, session, wholeSession, order).value, i, j)
  {
    RankedPair(co, Considered(session, wholeSession).value, Recommend(co, session, wholeSession, order).value, i, j);
  }

  /** Position `i` of the ranking `r` has a summed count at least that of the later
      position `j`, and the item at `j` was counted with a considered click. */
  predicate InRankOrder(co: map<int, map<int, int>>, ids: seq<int>, r: seq<int>, i: int, j: int)
    requires 0 <= i < j < |r|
  {
    SumCnt(co, ids, r[i]) >= SumCnt(co, ids, r[j]) && CountedWith(co, ids, r[j])
  }

  lemma RankedPair(co: map<int, map<int, int>>, ids: seq<int>, r: seq<int>, i: int, j: int)
    requires Distinct(r) && Elems(r) == Weights(co, ids).Keys && PopDescending(Weights(co, ids), r)
    requires 0 <= i < j < |r|
    ensures InRankOrder(co, ids, r, i, j)
  {
    var w := Weights(co, ids);
    DescendingAt(w, r, i, j);
    WeightsAt(co, ids, r[i]);
    WeightsAt(co, ids, r[j]);
    assert r[j] in Elems(r);
  }
}
