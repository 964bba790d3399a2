/** A stable sort by a real-valued key: the behaviour of `Collections.sort` (a stable
    merge sort) with a comparator on one numeric field, ascending or descending. */
module StableSort {
  import opened Seqs

  /** `a` may come before `b` in the requested direction. */
  predicate InOrder(a: real, b: real, ascending: bool) {
    if ascending then a <= b else a >= b
  }

  /** `a` must come before `b`: strictly ahead in the requested direction. */
  predicate StrictlyBefore(a: real, b: real, ascending: bool) {
    if ascending then a < b else a > b
  }

  ghost predicate SortedBy<T>(s: seq<T>, key: T -> real, ascending: bool) {
    forall i, j :: 0 <= i < j < |s| ==> InOrder(key(s[i]), key(s[j]), ascending)
  }

  /** The elements of `s` whose key is `v`, in order. */
  function WithKey<T>(s: seq<T>, key: T -> real, v: real): (r: seq<T>)
    ensures |r| <= |s|
  {
    if |s| == 0 then []
    else (if key(s[0]) == v then [s[0]] else []) + WithKey(s[1..], key, v)
  }

  /** Puts `x` behind every element that may precede it, so equal keys keep arrival order. */
  function Insert<T>(x: T, s: seq<T>, key: T -> real, ascending: bool): (r: seq<T>)
    ensures |r| == |s| + 1
  {
    if |s| == 0 || StrictlyBefore(key(x), key(s[0]), ascending) then [x] + s
    else [s[0]] + Insert(x, s[1..], key, ascending)
  }

  /** Insertion sort, inserting the elements from first to last. */
  function Sort<T>(s: seq<T>, key: T -> real, ascending: bool): (r: seq<T>)
    ensures |r| == |s|
  {
    if |s| == 0 then [] else Insert(s[|s| - 1], Sort(s[..|s| - 1], key, ascending), key, ascending)
  }

  lemma {:induction false} InsertMultiset<T>(x: T, s: seq<T>, key: T -> real, ascending: bool)
    ensures multiset(Insert(x, s, key, ascending)) == multiset(s) + multiset{x}
  {
    if |s| > 0 && !StrictlyBefore(key(x), key(s[0]), ascending) {
      InsertMultiset(x, s[1..], key, ascending);
      assert s == [s[0]] + s[1..];
    }
  }

  lemma {:induction false} InsertSorted<T>(x: T, s: seq<T>, key: T -> real, ascending: bool)
    requires SortedBy(s, key, ascending)
    ensures SortedBy(Insert(x, s, key, ascending), key, ascending)
  {
    var r := Insert(x, s, key, ascending);
    if |s| > 0 && !StrictlyBefore(key(x), key(s[0]), ascending) {
      InsertSorted(x, s[1..], key, ascending);
      var t := Insert(x, s[1..], key, ascending);
      InsertMultiset(x, s[1..], key, ascending);
      assert r == [s[0]] + t;
      forall j | 0 < j < |r| ensures InOrder(key(s[0]), key(r[j]), ascending) {
        assert r[j] == t[j - 1];
        assert r[j] in multiset(t);
        if r[j] != x {
          assert r[j] in multiset(s[1..]);
          var m :| 0 <= m < |s[1..]| && s[1..][m] == r[j];
          assert s[m + 1] == r[j];
        }
      }
    }
  }

  lemma {:induction false} InsertWithKey<T>(x: T, s: seq<T>, key: T -> real, ascending: bool, v: real)
    requires SortedBy(s, key, ascending)
    ensures WithKey(Insert(x, s, key, ascending), key, v)
            == WithKey(s, key, v) + (if key(x) == v then [x] else [])
  {
    var r := Insert(x, s, key, ascending);
    if |s| == 0 {
    } else if StrictlyBefore(key(x), key(s[0]), ascending) {
      assert r[1..] == s;
      if key(x) == v {
        NoneWithKey(s, key, v, ascending);
      }
    } else {
      InsertWithKey(x, s[1..], key, ascending, v);
      assert r[1..] == Insert(x, s[1..], key, ascending);
    }
  }

  /** Nothing in a sorted list has a key that sorts strictly before its head. */
  lemma {:induction false} NoneWithKey<T>(s: seq<T>, key: T -> real, v: real, ascending: bool)
    requires |s| > 0 && SortedBy(s, key, ascending) && StrictlyBefore(v, key(s[0]), ascending)
    ensures WithKey(s, key, v) == []
    decreases |s|
  {
    if |s| > 1 {
      assert SortedBy(s[1..], key, ascending);
      NoneWithKey(s[1..], key, v, ascending);
    }
  }

  lemma {:induction false} WithKeySnoc<T>(s: seq<T>, x: T, key: T -> real, v: real)
    ensures WithKey(s + [x], key, v) == WithKey(s, key, v) + (if key(x) == v then [x] else [])
  {
    if |s| > 0 {
      assert (s + [x])[1..] == s[1..] + [x];
      WithKeySnoc(s[1..], x, key, v);
    }
  }

  /** `Sort` returns the same elements, ordered by key, and elements with equal keys
      keep their relative order. */
  lemma {:induction false} SortCorrect<T>(s: seq<T>, key: T -> real, ascending: bool)
    ensures SortedBy(Sort(s, key, ascending), key, ascending)
    ensures multiset(Sort(s, key, ascending)) == multiset(s)
    ensures forall v :: WithKey(Sort(s, key, ascending), key, v) == WithKey(s, key, v)
  {
    if |s| > 0 {
      var init := s[..|s| - 1];
      var x := s[|s| - 1];
      SortCorrect(init, key, ascending);
      var sorted := Sort(init, key, ascending);
      InsertSorted(x, sorted, key, ascending);
      InsertMultiset(x, sorted, key, ascending);
      assert s == init + [x];
      forall v ensures WithKey(Sort(s, key, ascending), key, v) == WithKey(s, key, v) {
        InsertWithKey(x, sorted, key, ascending, v);
        WithKeySnoc(init, x, key, v);
      }
    }
  }
}
