/** `KeywordJaccard`: items are similar when they share keywords. Each keyword gets a small
    integer id; each item keeps the set of its keyword ids and each keyword id the set of
    items that carry it. */
module KeywordJaccard {
  import opened Wrappers
  import opened Seqs
  import opened Events
  import ItemSim
  import Util

  /** `itemKeywords`: item to keyword ids; `keywordIds`: keyword to id, handed out from
      `counter + 1` on; `keywordItems`: keyword id to items. */
  datatype KwState = KwState(
    itemKeywords: map<int, set<int>>,
    keywordIds: map<string, int>,
    counter: int,
    keywordItems: map<int, set<int>>)

  const Initial := KwState(map[], map[], 0, map[])

  /** Every known keyword's id has an item set, and no item set sits under an id not yet
      handed out. */
  ghost predicate Valid(st: KwState) {
    (forall kw :: kw in st.keywordIds ==> st.keywordIds[kw] in st.keywordItems) &&
    (forall k :: k in st.keywordItems ==> k <= st.counter)
  }

  /** `b`'s reverse lookup extends `a`'s. */
  ghost predicate ItemsGrow(a: KwState, b: KwState) {
    forall k :: k in a.keywordItems ==> k in b.keywordItems && a.keywordItems[k] <= b.keywordItems[k]
  }

  /** The ids of the given keywords. */
  ghost function IdsOf(ids: map<string, int>, kws: set<string>): set<int>
    requires kws <= ids.Keys
  {
    set kw | kw in kws :: ids[kw]
  }

  /** One keyword of an item whose keyword set exists: an unknown keyword gets the next
      id, counting from 1, with an empty item set; then the keyword id joins the item's
      set and the item joins the keyword's items. A known keyword whose id has no item set
      dereferences null. */
  function AddKeyword(st: KwState, id: int, kw: string): (r: Result<KwState>)
    requires id in st.itemKeywords
    ensures r.Ok? <==> kw !in st.keywordIds || st.keywordIds[kw] in st.keywordItems
    ensures kw !in st.keywordIds ==> (r.Ok? &&
      r.value.counter == st.counter + 1 && r.value.keywordIds == st.keywordIds[kw := st.counter + 1])
    ensures kw in st.keywordIds && r.Ok? ==>
      r.value.counter == st.counter && r.value.keywordIds == st.keywordIds
    ensures r.Ok? ==> (kw in r.value.keywordIds &&
      r.value.itemKeywords == st.itemKeywords[id := st.itemKeywords[id] + {r.value.keywordIds[kw]}] &&
      r.value.keywordIds[kw] in r.value.keywordItems && id in r.value.keywordItems[r.value.keywordIds[kw]])
    ensures r.Ok? && Valid(st) ==> Valid(r.value) && ItemsGrow(st, r.value)
  {
    var st1 := if kw in st.keywordIds then st
      else st.(keywordIds := st.keywordIds[kw := st.counter + 1], counter := st.counter + 1,
               keywordItems := st.keywordItems[st.counter + 1 := {}]);
    var k := st1.keywordIds[kw];
    if k !in st1.keywordItems then Err("NullPointerException")
    else
      Ok(st1.(itemKeywords := st1.itemKeywords[id := st1.itemKeywords[id] + {k}],
              keywordItems := st1.keywordItems[k := st1.keywordItems[k] + {id}]))
  }

  /** The keyword loop, in the keyword map's iteration order. */
  function AddKeywords(st: KwState, id: int, kws: seq<string>): (r: Result<KwState>)
    requires id in st.itemKeywords
    ensures r.Ok? ==> id in r.value.itemKeywords
    ensures r.Ok? ==> r.value.keywordIds.Keys == st.keywordIds.Keys + Elems(kws)
    ensures r.Ok? ==> forall kw :: kw in st.keywordIds ==> r.value.keywordIds[kw] == st.keywordIds[kw]
    ensures r.Ok? ==>
      r.value.itemKeywords[id] == st.itemKeywords[id] + IdsOf(r.value.keywordIds, Elems(kws))
    decreases |kws|
  {
    if |kws| == 0 then Ok(st)
    else
      match AddKeyword(st, id, kws[0])
      case Err(e) => Err(e)
      case Ok(st1) =>
        var r := AddKeywords(st1, id, kws[1..]);
        assert Elems(kws) == {kws[0]} + Elems(kws[1..]) by {
          ElemsCons(kws);
        }
        assert r.Ok? ==> r.value.itemKeywords[id] == st.itemKeywords[id] + IdsOf(r.value.keywordIds, Elems(kws)) by {
          if r.Ok? {
            IdsOfCons(st1.keywordIds, r.value.keywordIds, kws[0], Elems(kws[1..]));
          }
        }
        r
  }

  /** From a valid state the keyword loop cannot fail, stays valid and only grows the
      reverse lookup. */
  lemma {:induction false} AddKeywordsValid(st: KwState, id: int, kws: seq<string>)
    requires Valid(st) && id in st.itemKeywords
    ensures AddKeywords(st, id, kws).Ok?
    ensures Valid(AddKeywords(st, id, kws).value) && ItemsGrow(st, AddKeywords(st, id, kws).value)
    decreases |kws|
  {
    if |kws| > 0 {
      var st1 := AddKeyword(st, id, kws[0]).value;
      AddKeywordsValid(st1, id, kws[1..]);
      GrowTrans(st, st1, AddKeywords(st1, id, kws[1..]).value);
    }
  }

  /** The ids of one more keyword, kept from an earlier id map. */
  lemma IdsOfCons(before: map<string, int>, ids: map<string, int>, kw: string, rest: set<string>)
    requires kw in before && {kw} + rest <= ids.Keys
    requires forall k :: k in before ==> k in ids && ids[k] == before[k]
    ensures IdsOf(ids, {kw} + rest) == {before[kw]} + IdsOf(ids, rest)
  {
  }

  lemma GrowTrans(a: KwState, b: KwState, c: KwState)
    requires ItemsGrow(a, b) && ItemsGrow(b, c)
    ensures ItemsGrow(a, c)
  {
  }

  lemma ElemsCons(s: seq<string>)
    requires |s| > 0
    ensures Elems(s) == {s[0]} + Elems(s[1..])
  {
    forall x | x in Elems(s) ensures x in {s[0]} + Elems(s[1..]) {
      var i :| 0 <= i < |s| && s[i] == x;
      if i > 0 {
        assert s[1..][i - 1] == x;
      }
    }
  }

  /** One item of `trainInternal`: an item without keywords is skipped; otherwise its
      keyword set is rebuilt from empty over its keywords, in the order `order`. */
  function TrainItem(st: KwState, item: Item, order: seq<string>): (r: Result<KwState>)
    requires item.keywords.Some? ==> Enumerates(order, item.keywords.value.Keys)
    ensures item.keywords.None? ==> r == Ok(st)
    ensures item.keywords.Some? && r.Ok? ==>
      item.keywords.value.Keys <= r.value.keywordIds.Keys && item.id in r.value.itemKeywords &&
      r.value.itemKeywords[item.id] == IdsOf(r.value.keywordIds, item.keywords.value.Keys)
    ensures Valid(st) ==> r.Ok? && Valid(r.value)
  {
    if item.keywords.None? then Ok(st)
    else
      var st0 := st.(itemKeywords := st.itemKeywords[item.id := {}]);
      var r := AddKeywords(st0, item.id, order);
      assert Elems(order) == item.keywords.value.Keys;
      assert Valid(st) ==> r.Ok? && Valid(r.value) by {
        if Valid(st) {
          AddKeywordsValid(st0, item.id, order);
        }
      }
      r
  }

  /** `trainInternal`: the items in order, each with the iteration order of its keyword
      map. */
  function Train(st: KwState, items: seq<Item>, orders: seq<seq<string>>): (r: Result<KwState>)
    requires |orders| == |items|
    requires forall i :: 0 <= i < |items| && items[i].keywords.Some? ==>
      Enumerates(orders[i], items[i].keywords.value.Keys)
    ensures Valid(st) ==> r.Ok? && Valid(r.value)
    decreases |items|
  {
    if |items| == 0 then Ok(st)
    else
      match TrainItem(st, items[0], orders[0])
      case Err(e) => Err(e)
      case Ok(st1) => Train(st1, items[1..], orders[1..])
  }

  /** A keyword carried by a trained item links the item into the keyword's reverse
      lookup. */
  lemma {:induction false} AddKeywordsIndexes(st: KwState, id: int, kws: seq<string>, j: int)
    requires Valid(st) && id in st.itemKeywords
    requires 0 <= j < |kws|
    ensures AddKeywords(st, id, kws).Ok?
    ensures var r := AddKeywords(st, id, kws).value;
      kws[j] in r.keywordIds && r.keywordIds[kws[j]] in r.keywordItems &&
      id in r.keywordItems[r.keywordIds[kws[j]]]
    decreases |kws|
  {
    AddKeywordsValid(st, id, kws);
    var st1 := AddKeyword(st, id, kws[0]).value;
    AddKeywordsValid(st1, id, kws[1..]);
    if j > 0 {
      AddKeywordsIndexes(st1, id, kws[1..], j - 1);
      assert kws[1..][j - 1] == kws[j];
    } else {
      var r := AddKeywords(st1, id, kws[1..]).value;
      assert ItemsGrow(st1, r);
      assert r.keywordIds[kws[0]] == st1.keywordIds[kws[0]];
    }
  }

  /** `recommendInternal`: the shared item-to-item scoring over the keywords of each
      item. */
  function Recommend(st: KwState, cd: ClickData, wholeSession: bool, compareOrder: seq<int>, scoreOrder: seq<int>)
    : (r: Result<seq<int>>)
    requires var c := ItemSim.CompareIds(cd, wholeSession);
      c.Ok? && HasItem(cd.click) ==>
        ItemSim.OrdersFit(st.itemKeywords, st.keywordItems, c.value, ItemId(cd.click), compareOrder, scoreOrder)
    ensures r.Ok? <==>
      (ItemSim.CompareIds(cd, wholeSession).Ok? && HasItem(cd.click) &&
       ItemSim.Candidates(st.itemKeywords, st.keywordItems, ItemSim.CompareIds(cd, wholeSession).value, ItemId(cd.click)).Some?)
    ensures r.Ok? ==>
      var cands := ItemSim.Candidates(st.itemKeywords, st.keywordItems, ItemSim.CompareIds(cd, wholeSession).value, ItemId(cd.click)).value;
      var scores := ItemSim.Scores(st.itemKeywords, compareOrder, cands);
      Distinct(r.value) && Elems(r.value) == scores.Keys && Util.KeysSorted(scores, r.value, false)
  {
    ItemSim.Recommend(st.itemKeywords, st.keywordItems, cd, wholeSession, compareOrder, scoreOrder)
  }
}
