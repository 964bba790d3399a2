/** `DataManagement`, the bookkeeping of the matrix-factorisation recommender: dense
    indices for user and item ids, the boolean rating matrix, each user's items, and the
    popularity aggregates used for sampling. */
module DataMgmt {
  import opened Wrappers
  import opened Seqs
  import opened Events
  import opened StableSort
  import opened Util
  import opened Ranking
  import Sparse

  // ---------------------------------------------------------------------------
  // Dense indices

  /** An index: from dense index to id, from id to dense index, and the next index. */
  datatype Index = Index(ids: map<int, int>, indices: map<int, int>, next: int)

  function EmptyIndex(): Index {
    Index(map[], map[], 0)
  }

  /** `addUser` / `addItem`: the id gets the next index. */
  function Add(ix: Index, id: int): (r: Index)
    ensures r.next == ix.next + 1
    ensures r.indices.Keys == ix.indices.Keys + {id} && r.indices[id] == ix.next
    ensures r.ids.Keys == ix.ids.Keys + {ix.next} && r.ids[ix.next] == id
  {
    Index(ix.ids[ix.next := id], ix.indices[id := ix.next], ix.next + 1)
  }

  /** The two maps are mutual inverses over the indices `0 .. next - 1`. */
  ghost predicate Inverse(ix: Index) {
    ix.next >= 0 &&
    (forall k :: k in ix.ids <==> 0 <= k < ix.next) &&
    (forall k :: k in ix.ids ==> ix.ids[k] in ix.indices && ix.indices[ix.ids[k]] == k) &&
    (forall id :: id in ix.indices ==> ix.indices[id] in ix.ids && ix.ids[ix.indices[id]] == id)
  }

  /** Adding an id not yet indexed keeps the maps inverse. */
  lemma AddKeepsInverse(ix: Index, id: int)
    requires Inverse(ix) && id !in ix.indices
    ensures Inverse(Add(ix, id))
  {
    var r := Add(ix, id);
    forall k | k in r.ids ensures r.ids[k] in r.indices && r.indices[r.ids[k]] == k {
      if k != ix.next {
        assert ix.ids[k] != id;
      }
    }
  }

  /** The ids added in order, each getting the next index. */
  function AddAll(ix: Index, ids: seq<int>): (r: Index)
    ensures r.next == ix.next + |ids|
    decreases |ids|
  {
    if |ids| == 0 then ix else AddAll(Add(ix, ids[0]), ids[1..])
  }

  /** `init`'s indexing: each id of the set, in its iteration order, gets the next index
      from 0, so the ids are numbered `0 .. |ids| - 1` and the maps are inverse. */
  lemma IndexAll(ix: Index, ids: seq<int>)
    requires Inverse(ix) && Distinct(ids)
    requires forall i :: 0 <= i < |ids| ==> ids[i] !in ix.indices
    ensures Inverse(AddAll(ix, ids))
    ensures forall i :: 0 <= i < |ids| ==>
      ids[i] in AddAll(ix, ids).indices && AddAll(ix, ids).indices[ids[i]] == ix.next + i
    ensures forall id :: id in ix.indices ==>
      id in AddAll(ix, ids).indices && AddAll(ix, ids).indices[id] == ix.indices[id]
    ensures AddAll(ix, ids).indices.Keys == ix.indices.Keys + Elems(ids)
  {
    IndexAllInverse(ix, ids);
    IndexAllNumbers(ix, ids);
  }

  /** Adding fresh distinct ids keeps the maps inverse. */
  lemma {:induction false} IndexAllInverse(ix: Index, ids: seq<int>)
    requires Inverse(ix) && Distinct(ids)
    requires forall i :: 0 <= i < |ids| ==> ids[i] !in ix.indices
    ensures Inverse(AddAll(ix, ids))
    decreases |ids|
  {
    if |ids| > 0 {
      AddKeepsInverse(ix, ids[0]);
      var tail := ids[1..];
      assert forall i :: 0 <= i < |tail| ==> tail[i] == ids[i + 1] && ids[i + 1] != ids[0];
      IndexAllInverse(Add(ix, ids[0]), tail);
    }
  }

  /** Fresh distinct ids get the indices from `next` on, and the indexed ids keep theirs. */
  lemma IndexAllNumbers(ix: Index, ids: seq<int>)
    requires Distinct(ids)
    requires forall i :: 0 <= i < |ids| ==> ids[i] !in ix.indices
    ensures forall i :: 0 <= i < |ids| ==>
      ids[i] in AddAll(ix, ids).indices && AddAll(ix, ids).indices[ids[i]] == ix.next + i
    ensures forall id :: id in ix.indices ==>
      id in AddAll(ix, ids).indices && AddAll(ix, ids).indices[id] == ix.indices[id]
    ensures AddAll(ix, ids).indices.Keys == ix.indices.Keys + Elems(ids)
  {
    IndexAllKeys(ix, ids);
    forall id | id in ix.indices ensures id in AddAll(ix, ids).indices && AddAll(ix, ids).indices[id] == ix.indices[id] {
      IndexAllKeeps(ix, ids, id);
    }
    forall i | 0 <= i < |ids| ensures ids[i] in AddAll(ix, ids).indices && AddAll(ix, ids).indices[ids[i]] == ix.next + i {
      IndexAllPosition(ix, ids, i);
    }
  }

  /** The indexed ids are the old ones and the added ones. */
  lemma {:induction false} IndexAllKeys(ix: Index, ids: seq<int>)
    ensures AddAll(ix, ids).indices.Keys == ix.indices.Keys + Elems(ids)
    decreases |ids|
  {
    if |ids| > 0 {
      IndexAllKeys(Add(ix, ids[0]), ids[1..]);
      assert Elems(ids) == {ids[0]} + Elems(ids[1..]);
    }
  }

  /** An id that is not added keeps its index. */
  lemma {:induction false} IndexAllKeeps(ix: Index, ids: seq<int>, id: int)
    requires id in ix.indices && id !in ids
    ensures id in AddAll(ix, ids).indices && AddAll(ix, ids).indices[id] == ix.indices[id]
    decreases |ids|
  {
    if |ids| > 0 {
      var ix1 := Add(ix, ids[0]);
      assert id in ix1.indices && ix1.indices[id] == ix.indices[id];
      assert id !in ids[1..];
      IndexAllKeeps(ix1, ids[1..], id);
    }
  }

  /** The `i`-th added id gets index `next + i`. */
  lemma {:induction false} IndexAllPosition(ix: Index, ids: seq<int>, i: int)
    requires Distinct(ids) && 0 <= i < |ids|
    ensures ids[i] in AddAll(ix, ids).indices && AddAll(ix, ids).indices[ids[i]] == ix.next + i
    decreases |ids|
  {
    var ix1 := Add(ix, ids[0]);
    var tail := ids[1..];
    assert AddAll(ix, ids) == AddAll(ix1, tail);
    if i > 0 {
      assert ids[i] == tail[i - 1];
      assert Distinct(tail);
      IndexAllPosition(ix1, tail, i - 1);
    } else {
      assert ids[0] !in tail;
      IndexAllKeeps(ix1, tail, ids[0]);
    }
  }

  /** `init` on the user and item sets enumerated by `users` and `items`. */
  function Init(users: seq<int>, items: seq<int>): (r: (Index, Index))
    requires Distinct(users) && Distinct(items)
    ensures Inverse(r.0) && Inverse(r.1)
    ensures r.0.next == |users| && r.1.next == |items|
    ensures r.0.indices.Keys == Elems(users) && r.1.indices.Keys == Elems(items)
    ensures forall i :: 0 <= i < |users| ==> r.0.indices[users[i]] == i
    ensures forall i :: 0 <= i < |items| ==> r.1.indices[items[i]] == i
  {
    IndexAll(EmptyIndex(), users);
    IndexAll(EmptyIndex(), items);
    (AddAll(EmptyIndex(), users), AddAll(EmptyIndex(), items))
  }

  // ---------------------------------------------------------------------------
  // Boolean ratings

  /** Each click as a (user index, item index) pair; an unindexed user or item, or a
      click without an item, throws when unboxed. */
  function IndexPairs(clicks: seq<Click>, users: Index, items: Index): (r: Result<seq<(int, int)>>)
    ensures r.Err? <==> exists i :: 0 <= i < |clicks| && !Indexed(clicks[i], users, items)
    ensures r.Ok? ==> |r.value| == |clicks|
    ensures r.Ok? ==> forall i :: 0 <= i < |clicks| ==>
      Indexed(clicks[i], users, items) &&
      r.value[i] == (users.indices[clicks[i].userId], items.indices[clicks[i].item.value.id])
  {
    if |clicks| == 0 then Ok([])
    else
      assert forall i :: 1 <= i < |clicks| ==> clicks[1..][i - 1] == clicks[i];
      var c := clicks[0];
      if !Indexed(c, users, items) then Err("NullPointerException")
      else match IndexPairs(clicks[1..], users, items)
        case Err(e) =>
          var j :| 0 <= j < |clicks[1..]| && !Indexed(clicks[1..][j], users, items);
          assert !Indexed(clicks[j + 1], users, items);
          Err(e)
        case Ok(ps) => Ok([(users.indices[c.userId], items.indices[c.item.value.id])] + ps)
  }

  predicate Indexed(c: Click, users: Index, items: Index) {
    c.userId in users.indices && c.item.Some? && c.item.value.id in items.indices
  }

  datatype Ratings = Ratings(
    matrix: Sparse.Matrix,
    userMatrix: map<int, seq<int>>,
    numPosentries: int,
    popularity: map<int, int>)

  /** A user's item list, empty when the user has none. */
  function Row(m: map<int, seq<int>>, u: int): seq<int> {
    if u in m then m[u] else []
  }


  /** The items of user `u`'s pairs, in order. */
  function ItemsOf(pairs: seq<(int, int)>, u: int): (r: seq<int>)
    ensures |r| <= |pairs|
  {
    if |pairs| == 0 then []
    else ItemsOf(pairs[..|pairs| - 1], u) + (if pairs[|pairs| - 1].0 == u then [pairs[|pairs| - 1].1] else [])
  }

  /** The item of each pair. */
  function Items(pairs: seq<(int, int)>): (r: seq<int>)
    ensures |r| == |pairs| && forall i :: 0 <= i < |r| ==> r[i] == pairs[i].1
  {
    seq(|pairs|, i requires 0 <= i < |pairs| => pairs[i].1)
  }

  /** One pair: the matrix cell set true, the item appended to the user's list, one more
      positive entry, and with advanced sampling one more click for the item. */
  function Rate(st: Ratings, p: (int, int), advanced: bool): (r: Ratings)
    ensures Sparse.Valid(st.matrix) ==> Sparse.Valid(r.matrix)
  {
    Ratings(Sparse.SetBool(st.matrix, p.0, p.1, true),
            st.userMatrix[p.0 := Row(st.userMatrix, p.0) + [p.1]],
            st.numPosentries + 1,
            if advanced then st.popularity[p.1 := PopOf(st.popularity, p.1) + 1] else st.popularity)
  }

  /** The pairs rated in order. */
  function RateAll(st: Ratings, pairs: seq<(int, int)>, advanced: bool): (r: Ratings)
    requires Sparse.Valid(st.matrix)
    ensures Sparse.Valid(r.matrix)
    ensures r.numPosentries == st.numPosentries + |pairs|
    decreases |pairs|
  {
    if |pairs| == 0 then st
    else Rate(RateAll(st, pairs[..|pairs| - 1], advanced), pairs[|pairs| - 1], advanced)
  }

  /** Exactly the rated cells become true; the others read as before. */
  lemma {:induction false} RateAllCells(st: Ratings, pairs: seq<(int, int)>, advanced: bool)
    requires Sparse.Valid(st.matrix)
    ensures forall u, i :: Sparse.GetBool(RateAll(st, pairs, advanced).matrix, u, i) <==>
      Sparse.GetBool(st.matrix, u, i) || (u, i) in pairs
    decreases |pairs|
  {
    if |pairs| > 0 {
      var n := |pairs| - 1;
      var prev := RateAll(st, pairs[..n], advanced);
      RateAllCells(st, pairs[..n], advanced);
      Sparse.SetReads(prev.matrix, pairs[n].0, pairs[n].1, 1);
      assert forall p :: p in pairs <==> p in pairs[..n] || p == pairs[n];
    }
  }

  /** Each user's list gains the user's items in the order they were rated. */
  lemma {:induction false} RateAllRows(st: Ratings, pairs: seq<(int, int)>, advanced: bool)
    requires Sparse.Valid(st.matrix)
    ensures forall u :: Row(RateAll(st, pairs, advanced).userMatrix, u) == Row(st.userMatrix, u) + ItemsOf(pairs, u)
    decreases |pairs|
  {
    if |pairs| == 0 {
      assert forall u :: ItemsOf(pairs, u) == [];
    } else {
      var n := |pairs| - 1;
      RateAllRows(st, pairs[..n], advanced);
    }
  }

  /** With advanced sampling each item's popularity grows by its number of ratings. */
  lemma RateAllPopularity(st: Ratings, pairs: seq<(int, int)>)
    requires Sparse.Valid(st.matrix)
    ensures forall i :: PopOf(RateAll(st, pairs, true).popularity, i) == PopOf(st.popularity, i) + Count(Items(pairs), i)
  {
    forall i ensures PopOf(RateAll(st, pairs, true).popularity, i) == PopOf(st.popularity, i) + Count(Items(pairs), i) {
      RateAllPopularityOf(st, pairs, i);
    }
  }

  lemma {:induction false} RateAllPopularityOf(st: Ratings, pairs: seq<(int, int)>, i: int)
    requires Sparse.Valid(st.matrix)
    ensures PopOf(RateAll(st, pairs, true).popularity, i) == PopOf(st.popularity, i) + Count(Items(pairs), i)
    decreases |pairs|
  {
    if |pairs| > 0 {
      var n := |pairs| - 1;
      RateAllPopularityOf(st, pairs[..n], i);
      ItemsSnoc(pairs);
      CountAppend(Items(pairs[..n]), [pairs[n].1], i);
      assert Count([pairs[n].1], i) == if pairs[n].1 == i then 1 else 0;
    }
  }

  lemma RatePopularKeys(st: Ratings, p: (int, int))
    ensures Rate(st, p, true).popularity.Keys == st.popularity.Keys + {p.1}
  {
  }

  lemma ItemsSnoc(pairs: seq<(int, int)>)
    requires |pairs| > 0
    ensures Items(pairs) == Items(pairs[..|pairs| - 1]) + [pairs[|pairs| - 1].1]
  {
  }

  /** With advanced sampling exactly the rated items gain a popularity entry. */
  lemma {:induction false} RateAllPopularKeys(st: Ratings, pairs: seq<(int, int)>)
    requires Sparse.Valid(st.matrix)
    ensures RateAll(st, pairs, true).popularity.Keys == st.popularity.Keys + Elems(Items(pairs))
    decreases |pairs|
  {
    if |pairs| > 0 {
      var n := |pairs| - 1;
      RateAllPopularKeys(st, pairs[..n]);
      ItemsSnoc(pairs);
      RatePopularKeys(RateAll(st, pairs[..n], true), pairs[n]);
      ElemsSnoc(Items(pairs[..n]), pairs[n].1);
    }
  }

  /** The state `init` leaves: an empty matrix of the given dimensions, no user lists,
      no positive entries and an empty popularity map. */
  function Initial(numUsers: int, numItems: int): (r: Ratings)
    ensures Sparse.Valid(r.matrix)
  {
    Ratings(Sparse.WithDims(numUsers, numItems), map[], 0, map[])
  }

  /** `booleanRatings` after `init`: every click rated in order; the first click whose
      user or item is not indexed, or that has no item, throws. */
  function BooleanRatings(clicks: seq<Click>, users: Index, items: Index, numUsers: int, numItems: int,
                          advanced: bool): (r: Result<Ratings>)
    ensures r.Err? <==> exists i :: 0 <= i < |clicks| && !Indexed(clicks[i], users, items)
    ensures r.Ok? ==> r.value.numPosentries == |clicks| && Sparse.Valid(r.value.matrix)
  {
    var pairs :- IndexPairs(clicks, users, items);
    Ok(RateAll(Initial(numUsers, numItems), pairs, advanced))
  }

  /** A cell of the rating matrix is true exactly when some click rated that user and
      item. */
  lemma RatedCells(clicks: seq<Click>, users: Index, items: Index, numUsers: int, numItems: int, advanced: bool)
    requires BooleanRatings(clicks, users, items, numUsers, numItems, advanced).Ok?
    ensures var m := BooleanRatings(clicks, users, items, numUsers, numItems, advanced).value.matrix;
      forall u, i :: Sparse.GetBool(m, u, i) <==>
        (exists c :: c in clicks && Indexed(c, users, items) && u == users.indices[c.userId] &&
                     i == items.indices[c.item.value.id])
  {
    var pairs := IndexPairs(clicks, users, items).value;
    RateAllCells(Initial(numUsers, numItems), pairs, advanced);
    forall u, i ensures (u, i) in pairs <==> (exists c :: (c in clicks && Indexed(c, users, items) &&
      u == users.indices[c.userId] && i == items.indices[c.item.value.id])) {
      if (u, i) in pairs {
        var k :| 0 <= k < |pairs| && pairs[k] == (u, i);
        assert clicks[k] in clicks;
      }
      if exists c :: (c in clicks && Indexed(c, users, items) &&
         u == users.indices[c.userId] && i == items.indices[c.item.value.id]) {
        var c :| c in clicks && Indexed(c, users, items) &&
                 u == users.indices[c.userId] && i == items.indices[c.item.value.id];
        var k :| 0 <= k < |clicks| && clicks[k] == c;
        assert pairs[k] == (u, i);
      }
    }
  }

  /** Each user's list holds the user's items, click by click, in click order. */
  lemma RatedRows(clicks: seq<Click>, users: Index, items: Index, numUsers: int, numItems: int, advanced: bool)
    requires BooleanRatings(clicks, users, items, numUsers, numItems, advanced).Ok?
    ensures var r := BooleanRatings(clicks, users, items, numUsers, numItems, advanced).value;
      forall u :: Row(r.userMatrix, u) == ItemsOf(IndexPairs(clicks, users, items).value, u)
  {
    RateAllRows(Initial(numUsers, numItems), IndexPairs(clicks, users, items).value, advanced);
  }

  // ---------------------------------------------------------------------------
  // Popularity sums

  /** The sum of the popularities of `keys`. */
  function SumPop(keys: seq<int>, pop: map<int, int>): int {
    if |keys| == 0 then 0 else PopOf(pop, keys[0]) + SumPop(keys[1..], pop)
  }

  lemma {:induction false} SumPopSnoc(keys: seq<int>, x: int, pop: map<int, int>)
    ensures SumPop(keys + [x], pop) == SumPop(keys, pop) + PopOf(pop, x)
    decreases |keys|
  {
    if |keys| > 0 {
      assert (keys + [x])[1..] == keys[1..] + [x];
      SumPopSnoc(keys[1..], x, pop);
    }
  }

  /** Summing the counts of a sequence over distinct keys covering it gives its length. */
  lemma {:induction false} SumOfCounts(keys: seq<int>, s: seq<int>, pop: map<int, int>)
    requires Distinct(keys) && forall i :: 0 <= i < |s| ==> s[i] in keys
    requires forall k :: k in keys ==> PopOf(pop, k) == Count(s, k)
    ensures SumPop(keys, pop) == |s|
    decreases |keys|
  {
    if |keys| == 0 {
    } else {
      var k := keys[0];
      var rest := Remove(s, k);
      RemoveCount(s, k);
      forall i | 0 <= i < |rest| ensures rest[i] in keys[1..] {
        var x := rest[i];
        assert x in rest && x in s;
        var l :| 0 <= l < |s| && s[l] == x;
        var j :| 0 <= j < |keys| && keys[j] == x;
        assert j != 0;
        assert keys[1..][j - 1] == x;
      }
      forall x | x in keys[1..] ensures PopOf(pop, x) == Count(rest, x) {
        assert x in keys && x != k;
      }
      SumOfCounts(keys[1..], rest, pop);
    }
  }

  lemma {:induction false} RemoveCount(s: seq<int>, k: int)
    ensures |Remove(s, k)| == |s| - Count(s, k)
    ensures forall x :: x != k ==> Count(Remove(s, k), x) == Count(s, x)
  {
    if |s| > 0 {
      RemoveCount(s[1..], k);
    }
  }

  // ---------------------------------------------------------------------------
  // Advanced sampling


  /** The weight of an item in a running sum: its popularity, or, reversed, `base` minus
      its popularity. */
  function Weight(pop: map<int, int>, base: int, reversed: bool, x: int): int {
    if reversed then base - PopOf(pop, x) else PopOf(pop, x)
  }

  /** Running sums of the weights of `keys`: an aggregated map's entries in insertion
      order. */
  function Running(keys: seq<int>, pop: map<int, int>, base: int, reversed: bool): (r: seq<(int, int)>)
    ensures |r| == |keys|
    ensures forall i :: 0 <= i < |r| ==> r[i].0 == keys[i]
    decreases |keys|
  {
    if |keys| == 0 then []
    else
      var n := |keys| - 1;
      var prev := Running(keys[..n], pop, base, reversed);
      prev + [(keys[n], (if n == 0 then 0 else prev[n - 1].1) + Weight(pop, base, reversed, keys[n]))]
  }

  /** Each running sum adds the next key's weight to the one before it. */
  lemma {:induction false} RunningSteps(keys: seq<int>, pop: map<int, int>, base: int, reversed: bool)
    ensures var r := Running(keys, pop, base, reversed);
      (|r| > 0 ==> r[0].1 == Weight(pop, base, reversed, keys[0])) &&
      forall i :: 0 < i < |r| ==> r[i].1 == r[i - 1].1 + Weight(pop, base, reversed, keys[i])
    decreases |keys|
  {
    if |keys| > 0 {
      var n := |keys| - 1;
      RunningSteps(keys[..n], pop, base, reversed);
    }
  }

  /** The last running sum is the total: the sum of the popularities, or, reversed,
      `|keys|` times `base` minus it. */
  lemma {:induction false} RunningLast(keys: seq<int>, pop: map<int, int>, base: int, reversed: bool)
    requires |keys| > 0
    ensures Running(keys, pop, base, reversed)[|keys| - 1].1 ==
      if reversed then |keys| * base - SumPop(keys, pop) else SumPop(keys, pop)
    decreases |keys|
  {
    var n := |keys| - 1;
    var prev := Running(keys[..n], pop, base, reversed);
    var w := Weight(pop, base, reversed, keys[n]);
    assert Running(keys, pop, base, reversed)[n].1 == (if n == 0 then 0 else prev[n - 1].1) + w;
    assert keys[..n] + [keys[n]] == keys;
    SumPopSnoc(keys[..n], keys[n], pop);
    if n > 0 {
      RunningLast(keys[..n], pop, base, reversed);
      assert |keys| * base == n * base + base;
    }
  }

  /** Per user: the user's items by ascending popularity, their reversed-popularity
      running sums, and the last of those sums (0 without items). */
  datatype UserSampling = UserSampling(ascending: seq<int>, aggregated: seq<(int, int)>, sum: int)

  datatype Sampling = Sampling(
    popularityListDescending: seq<int>,
    aggregatedPopularityDescending: seq<(int, int)>,
    perUser: map<int, UserSampling>)

  /** The descending list restricted to the user's items, then reversed. */
  function UserItemsAscending(descending: seq<int>, userItems: seq<int>): seq<int> {
    Reverse(Filter(descending, x => x in userItems))
  }

  function ForUser(descending: seq<int>, pop: map<int, int>, userItems: seq<int>): (r: UserSampling) {
    var asc := UserItemsAscending(descending, userItems);
    var agg := Running(asc, pop, SumPop(asc, pop), true);
    UserSampling(asc, agg, if |asc| == 0 then 0 else agg[|asc| - 1].1)
  }

  /** `doAdvancedSampling` on the popularity map iterated in `popOrder`. */
  function DoAdvancedSampling(pop: map<int, int>, popOrder: seq<int>, userMatrix: map<int, seq<int>>)
    : (r: Sampling)
    requires Enumerates(popOrder, pop.Keys)
    ensures r.perUser.Keys == userMatrix.Keys
    ensures r.popularityListDescending == Descending(pop, popOrder)
    ensures forall u :: u in userMatrix ==> r.perUser[u] == ForUser(r.popularityListDescending, pop, userMatrix[u])
  {
    var desc := Descending(pop, popOrder);
    Sampling(desc, Running(desc, pop, 0, false), map u | u in userMatrix :: ForUser(desc, pop, userMatrix[u]))
  }

  /** The aggregated popularities run up to the total popularity. */
  lemma DescendingTotal(pop: map<int, int>, popOrder: seq<int>, userMatrix: map<int, seq<int>>)
    requires Enumerates(popOrder, pop.Keys) && |pop| > 0
    ensures var s := DoAdvancedSampling(pop, popOrder, userMatrix);
      |s.aggregatedPopularityDescending| == |pop| &&
      s.aggregatedPopularityDescending[|pop| - 1].1 == SumPop(s.popularityListDescending, pop)
  {
    var desc := Descending(pop, popOrder);
    ElemsSize(desc);
    DistinctSize(desc);
    RunningLast(desc, pop, 0, false);
  }

  lemma {:induction false} DistinctSize(s: seq<int>)
    requires Distinct(s)
    ensures |Elems(s)| == |s|
  {
    if |s| > 0 {
      assert Elems(s) == Elems(s[1..]) + {s[0]};
      assert s[0] !in s[1..];
      DistinctSize(s[1..]);
    }
  }

  /** The popularity map of `booleanRatings` counts each item's clicks. */
  lemma PopularityCounts(clicks: seq<Click>, users: Index, items: Index, numUsers: int, numItems: int)
    requires BooleanRatings(clicks, users, items, numUsers, numItems, true).Ok?
    ensures var r := BooleanRatings(clicks, users, items, numUsers, numItems, true).value;
      var clicked := Items(IndexPairs(clicks, users, items).value);
      r.popularity.Keys == Elems(clicked) && forall i :: PopOf(r.popularity, i) == Count(clicked, i)
  {
    RateAllPopularity(Initial(numUsers, numItems), IndexPairs(clicks, users, items).value);
    RateAllPopularKeys(Initial(numUsers, numItems), IndexPairs(clicks, users, items).value);
  }

  /** Popularities that count the clicks of `s` add up to `|s|` over any order of the
      clicked items. */
  lemma TotalOfCounts(pop: map<int, int>, keys: seq<int>, s: seq<int>)
    requires Distinct(keys) && Elems(keys) == Elems(s)
    requires forall i :: PopOf(pop, i) == Count(s, i)
    ensures SumPop(keys, pop) == |s|
  {
    forall i | 0 <= i < |s| ensures s[i] in keys {
      assert s[i] in Elems(s);
    }
    SumOfCounts(keys, s, pop);
  }

  /** The last aggregated popularity is `numPosentries`: every rating adds one click to
      one item. */
  lemma AggregateIsNumPosentries(clicks: seq<Click>, users: Index, items: Index, numUsers: int, numItems: int,
                                 popOrder: seq<int>)
    requires BooleanRatings(clicks, users, items, numUsers, numItems, true).Ok?
    requires |clicks| > 0
    requires Enumerates(popOrder, BooleanRatings(clicks, users, items, numUsers, numItems, true).value.popularity.Keys)
    ensures var r := BooleanRatings(clicks, users, items, numUsers, numItems, true).value;
      var s := DoAdvancedSampling(r.popularity, popOrder, r.userMatrix);
      |s.aggregatedPopularityDescending| > 0 &&
      s.aggregatedPopularityDescending[|s.aggregatedPopularityDescending| - 1].1 == r.numPosentries
  {
    var r := BooleanRatings(clicks, users, items, numUsers, numItems, true).value;
    var clicked := Items(IndexPairs(clicks, users, items).value);
    PopularityCounts(clicks, users, items, numUsers, numItems);
    assert clicked[0] in r.popularity;
    DescendingTotal(r.popularity, popOrder, r.userMatrix);
    TotalOfCounts(r.popularity, Descending(r.popularity, popOrder), clicked);
  }

  /** Filtering keeps a list distinct and sorted by descending popularity. */
  lemma {:induction false} FilterDescending(s: seq<int>, p: int -> bool, pop: map<int, int>)
    requires Distinct(s) && PopDescending(pop, s)
    ensures Distinct(Filter(s, p)) && PopDescending(pop, Filter(s, p))
    decreases |s|
  {
    if |s| > 0 {
      var rest := Filter(s[1..], p);
      assert PopDescending(pop, s[1..]) by {
        forall i, j | 0 <= i < j < |s[1..]| ensures PopOf(pop, s[1..][i]) >= PopOf(pop, s[1..][j]) {
          DescendingAt(pop, s, i + 1, j + 1);
        }
      }
      FilterDescending(s[1..], p, pop);
      if p(s[0]) {
        var f := [s[0]] + rest;
        forall i, j | 0 <= i < j < |f| ensures PopOf(pop, f[i]) >= PopOf(pop, f[j]) && f[i] != f[j] {
          if i == 0 {
            assert f[j] == rest[j - 1] && f[j] in s[1..];
            var k :| 0 <= k < |s[1..]| && s[1..][k] == f[j];
            DescendingAt(pop, s, 0, k + 1);
          } else {
            DescendingAt(pop, rest, i - 1, j - 1);
          }
        }
      }
    }
  }


  /** A user's sampling list holds each of the user's items that has a popularity once,
      from least to most popular. */
  lemma UserAscending(descending: seq<int>, pop: map<int, int>, userItems: seq<int>)
    requires Distinct(descending) && PopDescending(pop, descending)
    ensures var asc := ForUser(descending, pop, userItems).ascending;
      Distinct(asc) && Elems(asc) == Elems(userItems) * Elems(descending) && PopAscending(pop, asc)
  {
    var f := Filter(descending, x => x in userItems);
    FilterDescending(descending, x => x in userItems, pop);
    ReverseAscending(pop, f);
    assert Elems(f) == Elems(userItems) * Elems(descending);
  }

  /** Reversing a descending list gives an ascending one with the same elements. */
  lemma ReverseAscending(pop: map<int, int>, f: seq<int>)
    requires Distinct(f) && PopDescending(pop, f)
    ensures Distinct(Reverse(f)) && PopAscending(pop, Reverse(f)) && Elems(Reverse(f)) == Elems(f)
  {
    var asc := Reverse(f);
    forall i, j | 0 <= i < j < |asc| ensures PopOf(pop, asc[i]) <= PopOf(pop, asc[j]) && asc[i] != asc[j] {
      assert asc[i] == f[|f| - 1 - i] && asc[j] == f[|f| - 1 - j];
      DescendingAt(pop, f, |f| - 1 - j, |f| - 1 - i);
    }
    forall x | x in f ensures x in asc {
      var i :| 0 <= i < |f| && f[i] == x;
      assert asc[|f| - 1 - i] == x;
    }
  }

  /** In `doAdvancedSampling`, every user's list is that user's rated items from least
      to most popular. */
  lemma SamplingAscending(pop: map<int, int>, popOrder: seq<int>, userMatrix: map<int, seq<int>>, u: int)
    requires Enumerates(popOrder, pop.Keys) && u in userMatrix
    ensures var asc := DoAdvancedSampling(pop, popOrder, userMatrix).perUser[u].ascending;
      Distinct(asc) && Elems(asc) == Elems(userMatrix[u]) * pop.Keys && PopAscending(pop, asc)
  {
    UserAscending(Descending(pop, popOrder), pop, userMatrix[u]);
  }

  /** A user's aggregated reversed popularity is `(n - 1) * S` for `n` items of total
      popularity `S`: each item contributes `S` minus its own popularity. */
  lemma UserSumClosedForm(descending: seq<int>, pop: map<int, int>, userItems: seq<int>)
    ensures var us := ForUser(descending, pop, userItems);
      us.sum == (|us.ascending| - 1) * SumPop(us.ascending, pop)
  {
    var asc := UserItemsAscending(descending, userItems);
    var s := SumPop(asc, pop);
    if |asc| > 0 {
      RunningLast(asc, pop, s, true);
      assert |asc| * s - s == (|asc| - 1) * s;
    } else {
      assert s == 0;
    }
  }
}
