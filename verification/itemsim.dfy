/** The item-to-item scoring shared by `ItemItemCF` and `KeywordJaccard`. Each item has a
    set of features (the users who clicked it, or its keyword ids) and each feature a set of
    items (the reverse lookup). The items of the current session are compared with every
    item that shares a feature with one of them; a candidate's score is the sum of its
    Jaccard similarities with the compared items, and only positive scores are ranked. */
module ItemSim {
  import opened Wrappers
  import opened Seqs
  import opened Events
  import opened StableSort
  import opened Util
  import opened Jaccard

  /** The items to compare with: every item of the session when `wholeSession`, otherwise
      the clicked item. A click without an item dereferences null. */
  function CompareIds(cd: ClickData, wholeSession: bool): (r: Result<set<int>>)
    ensures wholeSession ==> (r.Ok? <==> AllHaveItems(cd.session))
    ensures !wholeSession ==> (r.Ok? <==> HasItem(cd.click))
    ensures r.Ok? && wholeSession ==> r.value == ItemIds(cd.session)
    ensures r.Ok? && !wholeSession ==> r.value == {ItemId(cd.click)}
  {
    if wholeSession then
      if AllHaveItems(cd.session) then Ok(ItemIds(cd.session)) else Err("NullPointerException")
    else if HasItem(cd.click) then Ok({ItemId(cd.click)}) else Err("NullPointerException")
  }

  /** The features of the compared items that have an entry. */
  function Features(f: map<int, set<int>>, compare: set<int>): (r: set<int>)
    ensures forall x :: x in r <==> exists c :: c in compare && c in f && x in f[c]
  {
    set c, x | c in compare && c in f && x in f[c] :: x
  }

  /** The items sharing a feature with a compared item. */
  function Sharing(rev: map<int, set<int>>, features: set<int>): (r: set<int>)
    requires features <= rev.Keys
    ensures forall i :: i in r <==> exists x :: x in features && i in rev[x]
  {
    set x, i | x in features && i in rev[x] :: i
  }

  /** A candidate's score: its similarities with the compared items that have an entry,
      summed in the compared set's iteration order `compareOrder`. */
  function Score(f: map<int, set<int>>, compareOrder: seq<int>, cand: int): (r: real)
    requires cand in f
    ensures r >= 0.0
    ensures r > 0.0 <==> exists i :: 0 <= i < |compareOrder| && compareOrder[i] in f && f[compareOrder[i]] * f[cand] != {}
    decreases |compareOrder|
  {
    if |compareOrder| == 0 then 0.0
    else
      var c := compareOrder[0];
      var rest := Score(f, compareOrder[1..], cand);
      assert (exists i :: 0 <= i < |compareOrder| && compareOrder[i] in f && f[compareOrder[i]] * f[cand] != {}) <==>
        (c in f && f[c] * f[cand] != {}) ||
        (exists i :: 0 <= i < |compareOrder[1..]| && compareOrder[1..][i] in f && f[compareOrder[1..][i]] * f[cand] != {}) by {
        forall i | 0 < i < |compareOrder| ensures compareOrder[i] == compareOrder[1..][i - 1] {}
      }
      (if c in f then Similarity(f[c], f[cand]) else 0.0) + rest
  }

  /** The scores of the candidates: positive scores only. */
  function Scores(f: map<int, set<int>>, compareOrder: seq<int>, cands: set<int>): (r: map<int, real>)
    requires cands <= f.Keys
    ensures forall x :: x in r <==> x in cands && Score(f, compareOrder, x) > 0.0
    ensures forall x :: x in r ==> r[x] == Score(f, compareOrder, x)
  {
    map x | x in cands && Score(f, compareOrder, x) > 0.0 :: Score(f, compareOrder, x)
  }

  /** The candidates: items sharing a feature with a compared item, without the clicked
      item. `None` where the source looks up a missing entry and dereferences null: a
      feature without a reverse entry, or a candidate without features. */
  function Candidates(f: map<int, set<int>>, rev: map<int, set<int>>, compare: set<int>, clicked: int)
    : (r: Option<set<int>>)
    ensures r.Some? ==> Features(f, compare) <= rev.Keys && r.value <= f.Keys
    ensures r.Some? ==> r.value == Sharing(rev, Features(f, compare)) - {clicked}
    ensures r.None? <==> !(Features(f, compare) <= rev.Keys) || !(Sharing(rev, Features(f, compare)) - {clicked} <= f.Keys)
  {
    var features := Features(f, compare);
    if !(features <= rev.Keys) then None
    else
      var cands := Sharing(rev, features) - {clicked};
      if !(cands <= f.Keys) then None else Some(cands)
  }

  /** What the recommendation needs of the iteration orders: `compareOrder` enumerates
      the compared items and `scoreOrder` the positively scored candidates. */
  ghost predicate OrdersFit(f: map<int, set<int>>, rev: map<int, set<int>>, compare: set<int>, clicked: int,
                            compareOrder: seq<int>, scoreOrder: seq<int>) {
    Enumerates(compareOrder, compare) &&
    (Candidates(f, rev, compare, clicked).Some? ==>
      Enumerates(scoreOrder, Scores(f, compareOrder, Candidates(f, rev, compare, clicked).value).Keys))
  }

  /** `recommend`: the candidates with a positive score, by non-increasing score, ties in
      the score map's iteration order. Removing the clicked item from the candidates
      dereferences it, so a click without an item fails in both modes. */
  function Recommend(f: map<int, set<int>>, rev: map<int, set<int>>, cd: ClickData, wholeSession: bool,
                     compareOrder: seq<int>, scoreOrder: seq<int>)
    : (r: Result<seq<int>>)
    requires var c := CompareIds(cd, wholeSession);
      c.Ok? && HasItem(cd.click) ==> OrdersFit(f, rev, c.value, ItemId(cd.click), compareOrder, scoreOrder)
    ensures r.Ok? <==>
      (CompareIds(cd, wholeSession).Ok? && HasItem(cd.click) &&
       Candidates(f, rev, CompareIds(cd, wholeSession).value, ItemId(cd.click)).Some?)
    ensures r.Ok? ==>
      var cands := Candidates(f, rev, CompareIds(cd, wholeSession).value, ItemId(cd.click)).value;
      var scores := Scores(f, compareOrder, cands);
      Distinct(r.value) && Elems(r.value) == scores.Keys && KeysSorted(scores, r.value, false)
  {
    match CompareIds(cd, wholeSession)
    case Err(e) => Err(e)
    case Ok(compare) =>
      if !HasItem(cd.click) then Err("NullPointerException")
      else
        match Candidates(f, rev, compare, ItemId(cd.click))
        case None => Err("NullPointerException")
        case Some(cands) => Ok(Ranked(Scores(f, compareOrder, cands), scoreOrder))
  }

  /** A scored item is not the clicked one, is reached from a compared item through a
      shared feature in the reverse lookup, and has a feature in common with a compared
      item. */
  lemma ScoredShares(f: map<int, set<int>>, rev: map<int, set<int>>, compare: set<int>, clicked: int,
                     compareOrder: seq<int>, x: int)
    requires Enumerates(compareOrder, compare)
    requires Candidates(f, rev, compare, clicked).Some?
    requires x in Scores(f, compareOrder, Candidates(f, rev, compare, clicked).value)
    ensures x != clicked
    ensures exists c, feature :: c in compare && c in f && feature in f[c] && feature in rev && x in rev[feature]
    ensures exists c :: c in compare && c in f && x in f && f[c] * f[x] != {}
  {
    var features := Features(f, compare);
    var cands := Candidates(f, rev, compare, clicked).value;
    assert x in cands && Score(f, compareOrder, x) > 0.0;
    var i :| 0 <= i < |compareOrder| && compareOrder[i] in f && f[compareOrder[i]] * f[x] != {};
    var c := compareOrder[i];
    assert c in compare && c in f && x in f && f[c] * f[x] != {};
    assert x in Sharing(rev, features);
    var feature :| feature in features && x in rev[feature];
    var c' :| c' in compare && c' in f && feature in f[c'];
    assert c' in compare && c' in f && feature in f[c'] && feature in rev && x in rev[feature];
  }
}
