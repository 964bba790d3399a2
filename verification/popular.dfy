/** `MostPopular` and `RecentlyPopular`: a click counter per item, ranked by count; the
    recent variant keeps the counted clicks in a sliding time window and uncounts the
    clicks that leave it. */
module Popular {
  import opened Wrappers
  import opened Seqs
  import opened Events
  import opened Ranking

  // ---------------------------------------------------------------------------
  // MostPopular

  /** `addTo(id, delta)` on the click counter: a missing id starts at 0. */
  function AddTo(counter: map<int, int>, id: int, delta: int): (r: map<int, int>)
    ensures r.Keys == counter.Keys + {id}
    ensures PopOf(r, id) == PopOf(counter, id) + delta
    ensures forall x :: x != id ==> PopOf(r, x) == PopOf(counter, x)
  {
    counter[id := PopOf(counter, id) + delta]
  }

  /** The number of clicks of `clicks` on item `x`; clicks without an item count for none. */
  function ClicksOn(clicks: seq<ClickData>, x: int): nat {
    if |clicks| == 0 then 0
    else (if clicks[0].click.item == None || clicks[0].click.item.value.id != x then 0 else 1) + ClicksOn(clicks[1..], x)
  }

  /** `trainInternal`: one count per click, in click order; a click without an item
      dereferences null. */
  function Train(counter: map<int, int>, clicks: seq<ClickData>): (r: Result<map<int, int>>)
    ensures r.Ok? <==> AllClicked(clicks)
    ensures r.Err? ==> r.msg == "NullPointerException"
    ensures r.Ok? ==> counter.Keys <= r.value.Keys
    decreases |clicks|
  {
    if |clicks| == 0 then Ok(counter)
    else if clicks[0].click.item == None then Err("NullPointerException")
    else
      var r := Train(AddTo(counter, clicks[0].click.item.value.id, 1), clicks[1..]);
      assert AllClicked(clicks) <==> AllClicked(clicks[1..]) by {
        if AllClicked(clicks[1..]) {
          forall i | 0 <= i < |clicks| ensures HasItem(clicks[i].click) {
            if i > 0 {
              assert clicks[i] == clicks[1..][i - 1];
            }
          }
        }
      }
      r
  }

  /** After training, each item's count grew by its clicks in the batch, and an item is a
      key exactly when it was one before or was clicked. */
  lemma {:induction false} TrainCounts(counter: map<int, int>, clicks: seq<ClickData>, x: int)
    requires Train(counter, clicks).Ok?
    ensures PopOf(Train(counter, clicks).value, x) == PopOf(counter, x) + ClicksOn(clicks, x)
    ensures x in Train(counter, clicks).value <==> x in counter || ClicksOn(clicks, x) > 0
    decreases |clicks|
  {
    if |clicks| > 0 {
      TrainCounts(AddTo(counter, clicks[0].click.item.value.id, 1), clicks[1..], x);
    }
  }

  /** `recommend`: every counted item once, by non-increasing count, ties in the counter's
      iteration order `order`; the current click plays no part. */
  function Recommend(counter: map<int, int>, order: seq<int>): (r: seq<int>)
    requires Enumerates(order, counter.Keys)
    ensures Distinct(r) && Elems(r) == counter.Keys
    ensures PopDescending(counter, r)
  {
    Descending(counter, order)
  }

  /** Trained from scratch, the recommendation lists exactly the clicked items, the more
      often clicked first. */
  lemma MostClickedFirst(clicks: seq<ClickData>, order: seq<int>, i: int, j: int)
    requires Train(map[], clicks).Ok?
    requires Enumerates(order, Train(map[], clicks).value.Keys)
    requires 0 <= i < j < |Recommend(Train(map[], clicks).value, order)|
    ensures var r := Recommend(Train(map[], clicks).value, order);
      ClicksOn(clicks, r[i]) >= ClicksOn(clicks, r[j]) > 0
  {
    var counter := Train(map[], clicks).value;
    var r := Recommend(counter, order);
    DescendingAt(counter, r, i, j);
    TrainCounts(map[], clicks, r[i]);
    TrainCounts(map[], clicks, r[j]);
    assert r[j] in Elems(r);
  }

  // ---------------------------------------------------------------------------
  // RecentlyPopular

  /** The default window: one day in milliseconds. */
  const DefaultFilterTime := 24 * 60 * 60 * 1000

  datatype RecentState = RecentState(counter: map<int, int>, window: seq<ClickData>)

  function Time(cd: ClickData): int {
    cd.click.timestamp
  }

  /** The time between the oldest and the newest click of a non-empty window. */
  function Span(window: seq<ClickData>): int
    requires |window| > 0
  {
    Time(window[|window| - 1]) - Time(window[0])
  }

  /** `w` is what is left of `window` after dropping clicks from its front. */
  predicate IsSuffix(w: seq<ClickData>, window: seq<ClickData>) {
    |w| <= |window| && forall i :: 0 <= i < |w| ==> w[i] == window[|window| - |w| + i]
  }

  /** Eviction stopped at the first click it could keep: when any click was dropped, the
      last one dropped lay more than `filterTime` before the newest click. */
  predicate LastEvictedTooOld(w: seq<ClickData>, window: seq<ClickData>, filterTime: int)
    requires |w| > 0 && IsSuffix(w, window)
  {
    |w| < |window| ==> Time(window[|window| - 1]) - Time(window[|window| - |w| - 1]) > filterTime
  }

  /** The eviction loop: while the window spans more than `filterTime`, its oldest click is
      uncounted (when it names an item) and dropped. Reading the newest click of an emptied
      window is an index error. */
  function Evict(counter: map<int, int>, window: seq<ClickData>, filterTime: int): (r: Result<RecentState>)
    ensures |window| == 0 ==> r.Err?
    ensures filterTime >= 0 && |window| > 0 ==> r.Ok?
    ensures r.Err? ==> r.msg == "IndexOutOfBoundsException"
    ensures r.Ok? ==> |r.value.window| > 0 && IsSuffix(r.value.window, window)
    ensures r.Ok? ==> Span(r.value.window) <= filterTime
    ensures r.Ok? ==> LastEvictedTooOld(r.value.window, window, filterTime)
    ensures r.Ok? ==> counter.Keys <= r.value.counter.Keys
    decreases |window|
  {
    if |window| == 0 then Err("IndexOutOfBoundsException")
    else if Span(window) > filterTime then
      var first := window[0].click.item;
      var counter' := if first.Some? then AddTo(counter, first.value.id, -1) else counter;
      var r := Evict(counter', window[1..], filterTime);
      assert |window| == 1 ==> Span(window) == 0;
      assert |window| > 1 ==> window[|window| - 1] == window[1..][|window| - 2];
      r
    else Ok(RecentState(counter, window))
  }

  /** Eviction uncounts exactly the clicks it drops. */
  lemma {:induction false} EvictCounts(counter: map<int, int>, window: seq<ClickData>, filterTime: int, x: int)
    requires Evict(counter, window, filterTime).Ok?
    ensures var st := Evict(counter, window, filterTime).value;
      PopOf(st.counter, x) - ClicksOn(st.window, x) == PopOf(counter, x) - ClicksOn(window, x)
    decreases |window|
  {
    if Span(window) > filterTime {
      var first := window[0].click.item;
      var counter' := if first.Some? then AddTo(counter, first.value.id, -1) else counter;
      EvictCounts(counter', window[1..], filterTime, x);
    }
  }

  /** `trainInternal`: count the batch as `MostPopular` does, append it to the window, then
      evict. */
  function TrainRecent(st: RecentState, clicks: seq<ClickData>, filterTime: int): (r: Result<RecentState>)
    ensures !AllClicked(clicks) ==> r == Err("NullPointerException")
    ensures AllClicked(clicks) && filterTime >= 0 && |st.window| + |clicks| > 0 ==> r.Ok?
    ensures |st.window| + |clicks| == 0 ==> r.Err?
    ensures r.Ok? ==> |r.value.window| > 0 && IsSuffix(r.value.window, st.window + clicks)
    ensures r.Ok? ==> Span(r.value.window) <= filterTime
    ensures r.Ok? ==> st.counter.Keys <= r.value.counter.Keys
  {
    match Train(st.counter, clicks)
    case Err(e) => Err(e)
    case Ok(counter) =>
      Evict(counter, st.window + clicks, filterTime)
  }

  /** The counter holds the clicks of the window: the invariant `RecentlyPopular` keeps. */
  ghost predicate CountsWindow(st: RecentState) {
    forall x :: PopOf(st.counter, x) == ClicksOn(st.window, x)
  }

  lemma CountsAt(st: RecentState, x: int)
    requires CountsWindow(st)
    ensures PopOf(st.counter, x) == ClicksOn(st.window, x)
  {
  }

  lemma {:induction false} ClicksOnAppend(a: seq<ClickData>, b: seq<ClickData>, x: int)
    ensures ClicksOn(a + b, x) == ClicksOn(a, x) + ClicksOn(b, x)
    decreases |a|
  {
    if |a| == 0 {
      assert a + b == b;
    } else {
      assert (a + b)[1..] == a[1..] + b;
      ClicksOnAppend(a[1..], b, x);
    }
  }

  /** A fresh `RecentlyPopular` counts nothing and holds nothing. */
  lemma InitialCountsWindow()
    ensures CountsWindow(RecentState(map[], []))
  {
  }

  /** Training keeps the counter equal to the clicks of the window, so every count is the
      number of clicks on the item within the last `filterTime` milliseconds. */
  lemma TrainRecentCounts(st: RecentState, clicks: seq<ClickData>, filterTime: int)
    requires CountsWindow(st)
    requires TrainRecent(st, clicks, filterTime).Ok?
    ensures CountsWindow(TrainRecent(st, clicks, filterTime).value)
  {
    var counter := Train(st.counter, clicks).value;
    var r := TrainRecent(st, clicks, filterTime).value;
    forall x ensures PopOf(r.counter, x) == ClicksOn(r.window, x) {
      TrainCounts(st.counter, clicks, x);
      ClicksOnAppend(st.window, clicks, x);
      EvictCounts(counter, st.window + clicks, filterTime, x);
      CountsAt(st, x);
    }
  }

  /** `RecentlyPopular` recommends as `MostPopular` does: under the invariant the items come
      by non-increasing number of clicks within the window, items whose clicks all left the
      window (count 0) included. */
  lemma RecentRanking(st: RecentState, order: seq<int>, i: int, j: int)
    requires CountsWindow(st) && Enumerates(order, st.counter.Keys)
    requires 0 <= i < j < |Recommend(st.counter, order)|
    ensures var r := Recommend(st.counter, order);
      r[i] in st.counter && r[j] in st.counter && ClicksOn(st.window, r[i]) >= ClicksOn(st.window, r[j])
  {
    var r := Recommend(st.counter, order);
    DescendingAt(st.counter, r, i, j);
    CountsAt(st, r[i]);
    CountsAt(st, r[j]);
    assert r[i] in Elems(r) && r[j] in Elems(r);
  }
}
