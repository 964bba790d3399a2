/** `ItemItemCF`: items are similar when the same users clicked them. Each item keeps the
    set of (small integer) ids of the users who clicked it, each user id the set of items
    the user clicked; in buffer mode only the most recent distinct (user, item) clicks are
    kept, and older ones are taken out of both indexes. */
module ItemCf {
  import opened Wrappers
  import opened Seqs
  import opened Events
  import ItemSim
  import Util

  /** `itemUsers`: item to user ids; `userIds`: user to user id, handed out from
      `counter + 1` on; `ring`: the buffered (user, item) clicks, oldest first;
      `userItems`: user id to items. */
  datatype CfState = CfState(
    itemUsers: map<int, set<int>>,
    userIds: map<int, int>,
    counter: int,
    ring: seq<(int, int)>,
    userItems: map<int, set<int>>)

  const Initial := CfState(map[], map[], 0, [], map[])

  /** The default ring size. */
  const DefaultBufferSize := 1000

  /** A set-valued entry, empty when missing. */
  function GetSet(m: map<int, set<int>>, k: int): set<int> {
    if k in m then m[k] else {}
  }

  /** The state the training keeps: every known user's id has an item set, and no item set
      sits under an id not yet handed out. */
  ghost predicate Valid(st: CfState) {
    (forall user :: user in st.userIds ==> st.userIds[user] in st.userItems) &&
    (forall u :: u in st.userItems ==> u <= st.counter)
  }

  /** `updateMap`: an unknown user gets the next id, counting from 1, with an empty item
      set; then the user id joins the item's users and the item joins the user's items.
      A known user whose id has no item set dereferences null. */
  function UpdateMap(st: CfState, user: int, item: int): (r: Result<CfState>)
    ensures r.Ok? <==> user !in st.userIds || st.userIds[user] in st.userItems
    ensures user !in st.userIds ==> (r.Ok? &&
      r.value.counter == st.counter + 1 && r.value.userIds == st.userIds[user := st.counter + 1] &&
      r.value.userItems == st.userItems[st.counter + 1 := {item}])
    ensures user in st.userIds && r.Ok? ==>
      r.value.counter == st.counter && r.value.userIds == st.userIds &&
      r.value.userItems == st.userItems[st.userIds[user] := st.userItems[st.userIds[user]] + {item}]
    ensures r.Ok? ==> (user in r.value.userIds &&
      r.value.itemUsers == st.itemUsers[item := GetSet(st.itemUsers, item) + {r.value.userIds[user]}])
    ensures r.Ok? ==> r.value.ring == st.ring
  {
    if user in st.userIds then
      var u := st.userIds[user];
      if u !in st.userItems then Err("NullPointerException")
      else
        Ok(st.(itemUsers := st.itemUsers[item := GetSet(st.itemUsers, item) + {u}],
               userItems := st.userItems[u := st.userItems[u] + {item}]))
    else
      var u := st.counter + 1;
      Ok(st.(itemUsers := st.itemUsers[item := GetSet(st.itemUsers, item) + {u}],
             userIds := st.userIds[user := u], counter := u,
             userItems := st.userItems[u := {item}]))
  }

  /** `b` extends `a`: user ids kept, index sets only larger. */
  ghost predicate Grows(a: CfState, b: CfState) {
    (forall user :: user in a.userIds ==> user in b.userIds && b.userIds[user] == a.userIds[user]) &&
    (forall i :: GetSet(a.itemUsers, i) <= GetSet(b.itemUsers, i)) &&
    (forall u :: GetSet(a.userItems, u) <= GetSet(b.userItems, u))
  }

  lemma GrowsTrans(a: CfState, b: CfState, c: CfState)
    requires Grows(a, b) && Grows(b, c)
    ensures Grows(a, c)
  {
    forall i ensures GetSet(a.itemUsers, i) <= GetSet(c.itemUsers, i) {
      assert GetSet(a.itemUsers, i) <= GetSet(b.itemUsers, i);
    }
    forall u ensures GetSet(a.userItems, u) <= GetSet(c.userItems, u) {
      assert GetSet(a.userItems, u) <= GetSet(b.userItems, u);
    }
  }

  /** One click of the training loop: indexed, and in buffer mode its (user, item) pair
      moved to the end of the ring. A click without an item dereferences null. */
  function Step(st: CfState, cd: ClickData, buffer: bool): (r: Result<CfState>)
    ensures r.Ok? && Valid(st) ==> Valid(r.value) && Grows(st, r.value)
    ensures Valid(st) ==> (r.Ok? <==> HasItem(cd.click))
    ensures r.Ok? ==> (HasItem(cd.click) && cd.click.userId in r.value.userIds &&
      r.value.userIds[cd.click.userId] in GetSet(r.value.itemUsers, ItemId(cd.click)) &&
      ItemId(cd.click) in GetSet(r.value.userItems, r.value.userIds[cd.click.userId]))
    ensures r.Ok? && !buffer ==> r.value.ring == st.ring
    ensures r.Ok? && buffer ==> r.value.ring == Remove(st.ring, (cd.click.userId, ItemId(cd.click))) + [(cd.click.userId, ItemId(cd.click))]
  {
    if !HasItem(cd.click) then Err("NullPointerException")
    else
      var pair := (cd.click.userId, ItemId(cd.click));
      match UpdateMap(st, pair.0, pair.1)
      case Err(e) => Err(e)
      case Ok(st1) =>
        var st2 := if buffer then st1.(ring := Remove(st1.ring, pair) + [pair]) else st1;
        assert Valid(st) ==> Grows(st, st2) by {
          if Valid(st) {
            forall u ensures GetSet(st.userItems, u) <= GetSet(st2.userItems, u) {
              if pair.0 !in st.userIds && u == st.counter + 1 {
                assert u !in st.userItems;
              }
            }
          }
        }
        Ok(st2)
  }

  /** The click loop of `trainInternal`. */
  function Apply(st: CfState, clicks: seq<ClickData>, buffer: bool): (r: Result<CfState>)
    ensures r.Ok? && Valid(st) ==> Valid(r.value) && Grows(st, r.value)
    ensures Valid(st) ==> (r.Ok? <==> AllClicked(clicks))
    ensures r.Ok? && !buffer ==> r.value.ring == st.ring
    ensures r.Ok? && buffer && Distinct(st.ring) ==> Distinct(r.value.ring)
    decreases |clicks|
  {
    if |clicks| == 0 then Ok(st)
    else
      match Step(st, clicks[0], buffer)
      case Err(e) => Err(e)
      case Ok(st1) =>
        var r := Apply(st1, clicks[1..], buffer);
        assert Valid(st) && r.Ok? ==> Grows(st, r.value) by {
          if Valid(st) && r.Ok? {
            GrowsTrans(st, st1, r.value);
          }
        }
        assert buffer && Distinct(st.ring) ==> Distinct(st1.ring) by {
          if buffer && Distinct(st.ring) {
            var pair := (clicks[0].click.userId, ItemId(clicks[0].click));
            DistinctSnoc(Remove(st.ring, pair), pair);
          }
        }
        assert AllClicked(clicks) <==> HasItem(clicks[0].click) && AllClicked(clicks[1..]) by {
          if HasItem(clicks[0].click) && AllClicked(clicks[1..]) {
            forall i | 0 < i < |clicks| ensures HasItem(clicks[i].click) {
              assert clicks[i] == clicks[1..][i - 1];
            }
          }
        }
        r
  }

  lemma DistinctSnoc(s: seq<(int, int)>, x: (int, int))
    requires Distinct(s) && x !in s
    ensures Distinct(s + [x])
  {
  }

  /** After indexing a batch, each click's user knows the item and the item knows the
      user. */
  lemma {:induction false} ApplyIndexes(st: CfState, clicks: seq<ClickData>, buffer: bool, j: int)
    requires Valid(st) && Apply(st, clicks, buffer).Ok?
    requires 0 <= j < |clicks|
    ensures HasItem(clicks[j].click)
    ensures var r := Apply(st, clicks, buffer).value;
      var user := clicks[j].click.userId;
      user in r.userIds &&
      r.userIds[user] in GetSet(r.itemUsers, ItemId(clicks[j].click)) &&
      ItemId(clicks[j].click) in GetSet(r.userItems, r.userIds[user])
    decreases |clicks|
  {
    var st1 := Step(st, clicks[0], buffer).value;
    if j > 0 {
      ApplyIndexes(st1, clicks[1..], buffer, j - 1);
      assert clicks[1..][j - 1] == clicks[j];
    } else {
      var r := Apply(st1, clicks[1..], buffer).value;
      assert Grows(st1, r);
      var user := clicks[0].click.userId;
      assert GetSet(st1.itemUsers, ItemId(clicks[0].click)) <= GetSet(r.itemUsers, ItemId(clicks[0].click));
      assert GetSet(st1.userItems, st1.userIds[user]) <= GetSet(r.userItems, st1.userIds[user]);
    }
  }

  /** `b` is `a` with index entries only removed and the users kept. */
  ghost predicate Shrinks(a: CfState, b: CfState) {
    b.userIds == a.userIds &&
    (forall i :: GetSet(b.itemUsers, i) <= GetSet(a.itemUsers, i)) &&
    (forall u :: GetSet(b.userItems, u) <= GetSet(a.userItems, u))
  }

  /** The eviction loop: while the ring holds more than `bufferSize` pairs, the oldest pair
      leaves the ring and both indexes. A missing index entry dereferences null; running
      out of pairs (a negative size) fails the iterator. */
  function Evict(st: CfState, bufferSize: int): (r: Result<CfState>)
    ensures r.Ok? ==> |r.value.ring| <= |st.ring| && r.value.ring == st.ring[|st.ring| - |r.value.ring|..]
    ensures r.Ok? ==> |r.value.ring| == if |st.ring| > bufferSize then bufferSize else |st.ring|
    ensures r.Ok? ==> Shrinks(st, r.value)
    ensures r.Ok? && Valid(st) ==> Valid(r.value)
    decreases |st.ring|
  {
    if |st.ring| <= bufferSize then Ok(st)
    else if |st.ring| == 0 then Err("NoSuchElementException")
    else
      var user, item := st.ring[0].0, st.ring[0].1;
      if item !in st.itemUsers || user !in st.userIds || st.userIds[user] !in st.userItems then
        Err("NullPointerException")
      else
        var st1 := Drop(st);
        var r := Evict(st1, bufferSize);
        assert r.Ok? ==> r.value.ring == st.ring[|st.ring| - |r.value.ring|..] by {
          if r.Ok? {
            SuffixOfTail(st.ring, |r.value.ring|);
          }
        }
        r
  }

  /** One eviction: the oldest pair out of the ring and out of both indexes. */
  function Drop(st: CfState): (r: CfState)
    requires |st.ring| > 0 && st.ring[0].1 in st.itemUsers && st.ring[0].0 in st.userIds
    requires st.userIds[st.ring[0].0] in st.userItems
    ensures r.ring == st.ring[1..] && Shrinks(st, r) && (Valid(st) ==> Valid(r))
    ensures st.userIds[st.ring[0].0] !in GetSet(r.itemUsers, st.ring[0].1)
    ensures st.ring[0].1 !in GetSet(r.userItems, st.userIds[st.ring[0].0])
  {
    var user, item := st.ring[0].0, st.ring[0].1;
    var u := st.userIds[user];
    st.(itemUsers := st.itemUsers[item := st.itemUsers[item] - {u}],
        userItems := st.userItems[u := st.userItems[u] - {item}],
        ring := st.ring[1..])
  }

  lemma SuffixOfTail(s: seq<(int, int)>, n: int)
    requires 0 < |s| && 0 <= n <= |s| - 1
    ensures s[1..][|s| - 1 - n..] == s[|s| - n..]
  {
  }

  /** The user of pair `p` is known, and the pair is in neither index. */
  ghost predicate Unindexed(r: CfState, p: (int, int)) {
    p.0 in r.userIds &&
    r.userIds[p.0] !in GetSet(r.itemUsers, p.1) && p.1 !in GetSet(r.userItems, r.userIds[p.0])
  }

  /** Every pair the eviction dropped is gone from both indexes. */
  lemma {:induction false} EvictRemoves(st: CfState, bufferSize: int, j: int)
    requires Evict(st, bufferSize).Ok?
    requires 0 <= j < |st.ring| - |Evict(st, bufferSize).value.ring|
    ensures Unindexed(Evict(st, bufferSize).value, st.ring[j])
    decreases |st.ring|
  {
    var st1 := Drop(st);
    var r := Evict(st1, bufferSize).value;
    assert Evict(st, bufferSize).value == r;
    if j > 0 {
      EvictRemoves(st1, bufferSize, j - 1);
      assert st1.ring[j - 1] == st.ring[j];
    } else {
      var user, item := st.ring[0].0, st.ring[0].1;
      var u := st.userIds[user];
      assert u !in GetSet(st1.itemUsers, item) && item !in GetSet(st1.userItems, u);
      assert Shrinks(st1, r);
      assert GetSet(r.itemUsers, item) <= GetSet(st1.itemUsers, item);
      assert GetSet(r.userItems, u) <= GetSet(st1.userItems, u);
    }
  }

  /** The batch a buffered training step works on: when the batch is longer than the
      ring, the ring is cleared and the batch cut to its last `bufferSize` clicks, which
      fails for a batch shorter than that. */
  function CutBatch(st: CfState, clicks: seq<ClickData>, buffer: bool, bufferSize: int)
    : (r: Result<(CfState, seq<ClickData>)>)
    ensures !(buffer && |clicks| > |st.ring|) ==> r == Ok((st, clicks))
    ensures buffer && |clicks| > |st.ring| ==>
      (r.Ok? <==> 0 <= bufferSize <= |clicks|) &&
      (r.Ok? ==> r.value == (st.(ring := []), clicks[|clicks| - bufferSize..]))
  {
    if buffer && |clicks| > |st.ring| then
      var from := |clicks| - bufferSize;
      if from < 0 then Err("IndexOutOfBoundsException")
      else if from > |clicks| then Err("IllegalArgumentException")
      else Ok((st.(ring := []), clicks[from..]))
    else Ok((st, clicks))
  }

  /** `trainInternal`: the (possibly cut) batch indexed, then in buffer mode the oldest
      pairs evicted down to `bufferSize`. */
  function Train(st: CfState, clicks: seq<ClickData>, buffer: bool, bufferSize: int): (r: Result<CfState>)
    ensures r.Ok? && Valid(st) ==> Valid(r.value)
    ensures r.Ok? && !buffer ==> r.value.ring == st.ring && (Valid(st) ==> Grows(st, r.value))
    ensures Valid(st) && !buffer ==> (r.Ok? <==> AllClicked(clicks))
    ensures r.Ok? && buffer ==> |r.value.ring| <= bufferSize
    ensures r.Ok? && buffer && Distinct(st.ring) ==> Distinct(r.value.ring)
  {
    match CutBatch(st, clicks, buffer, bufferSize)
    case Err(e) => Err(e)
    case Ok((st0, batch)) =>
      match Apply(st0, batch, buffer)
      case Err(e) => Err(e)
      case Ok(st1) =>
        if !buffer then Ok(st1)
        else
          var r := Evict(st1, bufferSize);
          assert r.Ok? && Distinct(st1.ring) ==> Distinct(r.value.ring) by {
            if r.Ok? && Distinct(st1.ring) {
              SuffixDistinct(st1.ring, |st1.ring| - |r.value.ring|);
            }
          }
          r
  }

  lemma SuffixDistinct(s: seq<(int, int)>, k: int)
    requires Distinct(s) && 0 <= k <= |s|
    ensures Distinct(s[k..])
  {
    forall a, b | 0 <= a < b < |s| - k ensures s[k..][a] != s[k..][b] {
      assert s[k..][a] == s[k + a] && s[k..][b] == s[k + b];
    }
  }

  /** `recommend`: the shared item-to-item scoring over the users of each item. */
  function Recommend(st: CfState, cd: ClickData, wholeSession: bool, compareOrder: seq<int>, scoreOrder: seq<int>)
    : (r: Result<seq<int>>)
    requires var c := ItemSim.CompareIds(cd, wholeSession);
      c.Ok? && HasItem(cd.click) ==>
        ItemSim.OrdersFit(st.itemUsers, st.userItems, c.value, ItemId(cd.click), compareOrder, scoreOrder)
    ensures r.Ok? <==>
      (ItemSim.CompareIds(cd, wholeSession).Ok? && HasItem(cd.click) &&
       ItemSim.Candidates(st.itemUsers, st.userItems, ItemSim.CompareIds(cd, wholeSession).value, ItemId(cd.click)).Some?)
    ensures r.Ok? ==>
      var cands := ItemSim.Candidates(st.itemUsers, st.userItems, ItemSim.CompareIds(cd, wholeSession).value, ItemId(cd.click)).value;
      var scores := ItemSim.Scores(st.itemUsers, compareOrder, cands);
      Distinct(r.value) && Elems(r.value) == scores.Keys && Util.KeysSorted(scores, r.value, false)
  {
    ItemSim.Recommend(st.itemUsers, st.userItems, cd, wholeSession, compareOrder, scoreOrder)
  }
}
