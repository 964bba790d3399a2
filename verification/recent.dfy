/** `RecentlyClicked` and `MostRecent`: lists of item ids kept in move-to-front order, of
    clicked items and of published items respectively. */
module Recent {
  import opened Wrappers
  import opened Seqs
  import opened Events

  /** `rem(x)`: the first occurrence of `x` taken out, the rest in order. */
  function RemoveFirst(s: seq<int>, x: int): (r: seq<int>)
    ensures Elems(r) <= Elems(s) && Elems(s) - {x} <= Elems(r)
    ensures Distinct(s) ==> r == Remove(s, x)
  {
    if |s| == 0 then []
    else if s[0] == x then
      assert Distinct(s) ==> x !in s[1..];
      s[1..]
    else [s[0]] + RemoveFirst(s[1..], x)
  }

  /** Move `x` to the front: `addAndMoveToFirst` on a linked hash set, or `rem` followed by
      `add(0, x)` on a list. */
  function MoveToFront(s: seq<int>, x: int): (r: seq<int>)
    ensures |r| > 0 && r[0] == x
    ensures Elems(r) == Elems(s) + {x}
    ensures Distinct(s) ==> Distinct(r) && r == [x] + Remove(s, x)
  {
    var rest := RemoveFirst(s, x);
    assert Distinct(s) ==> x !in rest;
    [x] + RemoveFirst(s, x)
  }

  /** Each id moved to the front in turn. */
  function MoveAll(s: seq<int>, ids: seq<int>): (r: seq<int>)
    ensures Elems(r) == Elems(s) + Elems(ids)
    ensures Distinct(s) ==> Distinct(r)
    ensures |ids| > 0 ==> |r| > 0 && r[0] == ids[|ids| - 1]
  {
    if |ids| == 0 then s
    else MoveToFront(MoveAll(s, ids[..|ids| - 1]), ids[|ids| - 1])
  }

  /** The list after moving `ids` to the front is the ids from the latest to the earliest,
      each at its latest position, followed by the untouched rest of the old list. */
  lemma {:induction false} MoveAllIsLatestFirst(s: seq<int>, ids: seq<int>)
    requires Distinct(s)
    ensures MoveAll(s, ids) == Dedup(Reverse(ids) + s)
  {
    if |ids| == 0 {
      assert Reverse(ids) + s == s;
      DedupDistinct(s);
    } else {
      var init := ids[..|ids| - 1];
      var x := ids[|ids| - 1];
      var t := Reverse(init) + s;
      MoveAllIsLatestFirst(s, init);
      MoveAllSnoc(s, ids);
      DedupCons(x, t);
      assert MoveAll(s, ids) == Dedup([x] + t);
      ReverseLast(ids, s);
      assert Reverse(ids) + s == [x] + t;
    }
  }

  /** One more id: the list of the earlier ids with the last one moved to the front. */
  lemma MoveAllSnoc(s: seq<int>, ids: seq<int>)
    requires Distinct(s) && |ids| > 0
    ensures MoveAll(s, ids) == [ids[|ids| - 1]] + Remove(MoveAll(s, ids[..|ids| - 1]), ids[|ids| - 1])
  {
  }

  lemma DedupCons(x: int, t: seq<int>)
    ensures Dedup([x] + t) == [x] + Remove(Dedup(t), x)
  {
    assert ([x] + t)[1..] == t;
  }

  lemma ReverseLast(ids: seq<int>, s: seq<int>)
    requires |ids| > 0
    ensures Reverse(ids) + s == [ids[|ids| - 1]] + (Reverse(ids[..|ids| - 1]) + s)
  {
    var init := ids[..|ids| - 1];
    var a := Reverse(ids);
    var b := [ids[|ids| - 1]] + Reverse(init);
    forall k | 0 <= k < |a| ensures a[k] == b[k] {
      if k > 0 {
        assert b[k] == Reverse(init)[k - 1] == init[|init| - k];
      }
    }
    assert a == b;
  }

  lemma {:induction false} DedupDistinct(s: seq<int>)
    requires Distinct(s)
    ensures Dedup(s) == s
  {
    if |s| > 0 {
      DedupDistinct(s[1..]);
      assert s[0] !in s[1..];
    }
  }

  // ---------------------------------------------------------------------------
  // RecentlyClicked

  /** `trainInternal`: every clicked item moved to the front, in click order; a click
      without an item dereferences null. */
  function TrainClicked(clicked: seq<int>, clicks: seq<ClickData>): (r: Result<seq<int>>)
    ensures r.Ok? <==> AllClicked(clicks)
    ensures r.Err? ==> r.msg == "NullPointerException"
  {
    if AllClicked(clicks) then Ok(MoveAll(clicked, ClickedIds(clicks)))
    else Err("NullPointerException")
  }

  /** The clicked ids stay distinct, every clicked id is among them, and the newest click
      leads; from nothing, the list is the clicked items by their latest click, newest
      first. */
  lemma ClickedOrder(clicked: seq<int>, clicks: seq<ClickData>)
    requires Distinct(clicked) && AllClicked(clicks)
    ensures var r := TrainClicked(clicked, clicks).value;
      Distinct(r) && Elems(r) == Elems(clicked) + Elems(ClickedIds(clicks)) &&
      r == Dedup(Reverse(ClickedIds(clicks)) + clicked) &&
      (|clicks| > 0 ==> r[0] == ItemId(clicks[|clicks| - 1].click))
  {
    MoveAllIsLatestFirst(clicked, ClickedIds(clicks));
  }

  /** `recommendInternal`: a copy of the list, whatever the click. */
  function RecommendClicked(clicked: seq<int>, cd: ClickData): (r: seq<int>)
    ensures r == clicked
  {
    clicked
  }

  /** Trained from nothing, the recommendation lists every clicked item once, ordered by
      its latest click, newest first, whatever the current click. */
  lemma ClickedRecommendation(clicks: seq<ClickData>, cd: ClickData)
    requires AllClicked(clicks)
    ensures var r := RecommendClicked(TrainClicked([], clicks).value, cd);
      Distinct(r) && Elems(r) == Elems(ClickedIds(clicks)) &&
      r == Dedup(Reverse(ClickedIds(clicks))) &&
      (|clicks| > 0 ==> r[0] == ItemId(clicks[|clicks| - 1].click))
  {
    ClickedOrder([], clicks);
    assert Reverse(ClickedIds(clicks)) + [] == Reverse(ClickedIds(clicks));
  }

  // ---------------------------------------------------------------------------
  // MostRecent

  function ItemIdsOf(items: seq<Item>): (r: seq<int>)
    ensures |r| == |items| && forall i :: 0 <= i < |items| ==> r[i] == items[i].id
  {
    seq(|items|, i requires 0 <= i < |items| => items[i].id)
  }

  /** `trainInternal`: each published item's id moved to the front, in stream order; the
      batch's clicks play no part. */
  function TrainRecent(recent: seq<int>, items: seq<Item>, clicks: seq<ClickData>): (r: seq<int>)
    ensures Elems(r) == Elems(recent) + Elems(ItemIdsOf(items))
    ensures Distinct(recent) ==> Distinct(r)
    ensures |items| > 0 ==> |r| > 0 && r[0] == items[|items| - 1].id
  {
    MoveAll(recent, ItemIdsOf(items))
  }

  /** The list holds the published items newest first, each id once at its latest
      publication, then the ids of earlier batches not published again. */
  lemma RecentOrder(recent: seq<int>, items: seq<Item>, clicks: seq<ClickData>)
    requires Distinct(recent)
    ensures TrainRecent(recent, items, clicks) == Dedup(Reverse(ItemIdsOf(items)) + recent)
  {
    MoveAllIsLatestFirst(recent, ItemIdsOf(items));
  }
}
