/** Items ranked by an integer count (clicks, popularity, support): the count-descending
    order `Util.sortByValueAndGetKeys` produces, and the facts the rankings rest on. */
module Ranking {
  import opened Seqs
  import opened StableSort
  import opened Util

  /** An item's popularity, 0 when it has none. */
  function PopOf(pop: map<int, int>, i: int): int {
    if i in pop then pop[i] else 0
  }

  /** The popularities as the values the sort compares. */
  function PopReal(pop: map<int, int>): (r: map<int, real>)
    ensures r.Keys == pop.Keys && forall k :: k in pop ==> r[k] == pop[k] as real
  {
    map k | k in pop :: pop[k] as real
  }

  /** `s` lists items from most to least popular. */
  ghost predicate PopDescending(pop: map<int, int>, s: seq<int>) {
    forall i, j :: 0 <= i < j < |s| ==> PopOf(pop, s[i]) >= PopOf(pop, s[j])
  }

  /** `s` lists items from least to most popular. */
  ghost predicate PopAscending(pop: map<int, int>, s: seq<int>) {
    forall i, j :: 0 <= i < j < |s| ==> PopOf(pop, s[i]) <= PopOf(pop, s[j])
  }

  /** `m` holds each popularity as a real. */
  ghost predicate AsReals(pop: map<int, int>, m: map<int, real>) {
    m.Keys == pop.Keys && forall k :: k in pop ==> m[k] == pop[k] as real
  }

  /** `popularityListDescending`: the items sorted by descending popularity, ties in the
      popularity map's iteration order `popOrder`. */
  function Descending(pop: map<int, int>, popOrder: seq<int>): (r: seq<int>)
    requires Enumerates(popOrder, pop.Keys)
    ensures Distinct(r) && Elems(r) == pop.Keys && PopDescending(pop, r)
  {
    var m := PopReal(pop);
    assert AsReals(pop, m) && Enumerates(popOrder, m.Keys);
    var r := SortByValueAndGetKeys(m, popOrder, false, []);
    DescendingKeys(m, popOrder);
    DescendingOrder(pop, m, r);
    r
  }

  lemma DescendingKeys(m: map<int, real>, popOrder: seq<int>)
    requires Enumerates(popOrder, m.Keys)
    ensures var r := SortByValueAndGetKeys(m, popOrder, false, []);
      Distinct(r) && Elems(r) == m.Keys && KeysSorted(m, r, false)
  {
    var r := SortByValueAndGetKeys(m, popOrder, false, []);
    var e: seq<int> := [];
    SortedKeysDistinct(m, popOrder, false, e);
    assert r[|e|..] == r;
  }

  /** Keys in descending real-valued popularity are in descending popularity. */
  lemma DescendingOrder(pop: map<int, int>, m: map<int, real>, r: seq<int>)
    requires AsReals(pop, m) && KeysSorted(m, r, false)
    ensures PopDescending(pop, r)
  {
    forall i, j | 0 <= i < j < |r| ensures PopOf(pop, r[i]) >= PopOf(pop, r[j]) {
      DescendingPair(pop, m, r, i, j);
    }
  }

  lemma DescendingPair(pop: map<int, int>, m: map<int, real>, r: seq<int>, i: int, j: int)
    requires AsReals(pop, m) && KeysSorted(m, r, false) && 0 <= i < j < |r|
    ensures PopOf(pop, r[i]) >= PopOf(pop, r[j])
  {
    assert r[i] in m && r[j] in m && InOrder(m[r[i]], m[r[j]], false);
    NotBefore(m[r[i]], m[r[j]]);
  }

  lemma NotBefore(a: real, b: real)
    requires InOrder(a, b, false)
    ensures a >= b
  {
  }

  lemma DescendingAt(pop: map<int, int>, s: seq<int>, i: int, j: int)
    requires PopDescending(pop, s) && Distinct(s) && 0 <= i < j < |s|
    ensures PopOf(pop, s[i]) >= PopOf(pop, s[j]) && s[i] != s[j]
  {
  }
}
