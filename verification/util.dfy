/** The helpers of `Util`: separating events by type, sorting map entries by value, and
    printing a duration as hours, minutes and seconds. */
module Util {
  import opened Wrappers
  import opened Seqs
  import opened Events
  import opened StableSort
  import opened JavaNum
  import opened JavaText
  import Splitter

  // ---------------------------------------------------------------------------
  // Event types

  /** The items of the item events, in order (read from the back). */
  function ItemsOf(events: seq<Event>): seq<Item> {
    if |events| == 0 then []
    else
      var e := events[|events| - 1];
      ItemsOf(events[..|events| - 1]) + (if e.ItemEvent? then [e.item] else [])
  }

  /** The clicks of the click events, in order (read from the back). */
  function ClicksOf(events: seq<Event>): seq<Click> {
    if |events| == 0 then []
    else
      var e := events[|events| - 1];
      ClicksOf(events[..|events| - 1]) + (if e.ClickEvent? then [e.click] else [])
  }

  /** Both lists of a non-empty event list start with what its first event contributes. */
  lemma OfFront(events: seq<Event>)
    requires |events| > 0
    ensures ItemsOf(events) == (if events[0].ItemEvent? then [events[0].item] else []) + ItemsOf(events[1..])
    ensures ClicksOf(events) == (if events[0].ClickEvent? then [events[0].click] else []) + ClicksOf(events[1..])
  {
    ItemsFront(events);
    ClicksFront(events);
  }

  lemma {:induction false} ItemsFront(events: seq<Event>)
    requires |events| > 0
    ensures ItemsOf(events) == (if events[0].ItemEvent? then [events[0].item] else []) + ItemsOf(events[1..])
    decreases |events|
  {
    var n := |events|;
    if n > 1 {
      var init, last := events[..n - 1], events[n - 1];
      var tail := events[1..];
      var own := if last.ItemEvent? then [last.item] else [];
      ItemsFront(init);
      assert init[1..] == tail[..n - 2];
      assert tail[n - 2] == last;
      assert ItemsOf(events) == ItemsOf(init) + own;
      assert ItemsOf(tail) == ItemsOf(init[1..]) + own;
    } else {
      assert events[1..] == [];
      assert events[..0] == [];
    }
  }

  lemma {:induction false} ClicksFront(events: seq<Event>)
    requires |events| > 0
    ensures ClicksOf(events) == (if events[0].ClickEvent? then [events[0].click] else []) + ClicksOf(events[1..])
    decreases |events|
  {
    var n := |events|;
    if n > 1 {
      var init, last := events[..n - 1], events[n - 1];
      var tail := events[1..];
      var own := if last.ClickEvent? then [last.click] else [];
      ClicksFront(init);
      assert init[1..] == tail[..n - 2];
      assert tail[n - 2] == last;
      assert ClicksOf(events) == ClicksOf(init) + own;
      assert ClicksOf(tail) == ClicksOf(init[1..]) + own;
    } else {
      assert events[1..] == [];
      assert events[..0] == [];
    }
  }

  /** `extractEventTypes`: items are appended to the item list and every other event to
      the click list, both in input order, after what the lists already hold. */
  function ExtractEventTypes(events: seq<Event>, items: seq<Item>, clicks: seq<Click>)
    : (r: (seq<Item>, seq<Click>))
    ensures r.0 == items + ItemsOf(events)
    ensures r.1 == clicks + ClicksOf(events)
    decreases |events|
  {
    if |events| == 0 then (items, clicks)
    else
      OfFront(events);
      match events[0]
      case ItemEvent(x) =>
        assert items + [x] + ItemsOf(events[1..]) == items + ItemsOf(events);
        ExtractEventTypes(events[1..], items + [x], clicks)
      case ClickEvent(c) =>
        assert clicks + [c] + ClicksOf(events[1..]) == clicks + ClicksOf(events);
        ExtractEventTypes(events[1..], items, clicks + [c])
  }

  /** Every event lands in exactly one of the two lists: the items are those of the item
      events and the clicks those of the click events. */
  lemma {:induction false} EventsPartition(events: seq<Event>)
    ensures |ItemsOf(events)| + |ClicksOf(events)| == |events|
    ensures forall x :: x in ItemsOf(events) <==> ItemEvent(x) in events
    ensures forall c :: c in ClicksOf(events) <==> ClickEvent(c) in events
    decreases |events|
  {
    if |events| > 0 {
      var n := |events|;
      var init := events[..n - 1];
      EventsPartition(init);
      assert events == init + [events[n - 1]];
      forall x ensures ItemEvent(x) in events <==> ItemEvent(x) in init || events[n - 1] == ItemEvent(x) {
      }
      forall c ensures ClickEvent(c) in events <==> ClickEvent(c) in init || events[n - 1] == ClickEvent(c) {
      }
    }
  }

  /** Separating the event types undoes merging items and clicks into one event list. */
  lemma ExtractUndoesMerge(itemValues: seq<Item>, clicks: seq<Click>, items0: seq<Item>, clicks0: seq<Click>)
    ensures ExtractEventTypes(Splitter.Merge(itemValues, clicks), items0, clicks0) == (items0 + itemValues, clicks0 + clicks)
  {
    MergeOf(itemValues, clicks);
  }

  lemma {:induction false} MergeOf(itemValues: seq<Item>, clicks: seq<Click>)
    ensures ItemsOf(Splitter.Merge(itemValues, clicks)) == itemValues
    ensures ClicksOf(Splitter.Merge(itemValues, clicks)) == clicks
    decreases |itemValues| + |clicks|
  {
    var m := Splitter.Merge(itemValues, clicks);
    if |clicks| > 0 {
      var n := |clicks|;
      MergeOf(itemValues, clicks[..n - 1]);
      assert m[..|m| - 1] == Splitter.Merge(itemValues, clicks[..n - 1]);
      assert clicks[..n - 1] + [clicks[n - 1]] == clicks;
    } else if |itemValues| > 0 {
      var n := |itemValues|;
      MergeOf(itemValues[..n - 1], []);
      assert m[..|m| - 1] == Splitter.Merge(itemValues[..n - 1], []);
      assert itemValues[..n - 1] + [itemValues[n - 1]] == itemValues;
    }
  }

  // ---------------------------------------------------------------------------
  // Sorting map entries by value

  function Value<K(!new)>(e: (K, real)): real {
    e.1
  }

  /** The entries of `m` in the iteration order `order`. */
  function Entries<K(!new)>(m: map<K, real>, order: seq<K>): (r: seq<(K, real)>)
    requires forall k :: k in order ==> k in m
    ensures |r| == |order|
    ensures forall i :: 0 <= i < |r| ==> r[i] == (order[i], m[order[i]])
  {
    seq(|order|, i requires 0 <= i < |order| => (order[i], m[order[i]]))
  }

  /** `sortByValue`: the entries of `m`, iterated in `order`, stably sorted by value. */
  function SortByValue<K(!new)>(m: map<K, real>, order: seq<K>, ascending: bool): (r: seq<(K, real)>)
    requires Enumerates(order, m.Keys)
    ensures |r| == |m|
    ensures SortedBy(r, Value, ascending)
    ensures forall e :: e in r <==> e.0 in m && m[e.0] == e.1
    ensures forall v :: WithKey(r, Value, v) == WithKey(Entries(m, order), Value, v)
  {
    var es := Entries(m, order);
    SortCorrect(es, Value, ascending);
    assert forall e :: e in es <==> e.0 in m && m[e.0] == e.1 by {
      forall e ensures e in es <==> e.0 in m && m[e.0] == e.1 {
        if e.0 in m && m[e.0] == e.1 {
          var i :| 0 <= i < |order| && order[i] == e.0;
          assert es[i] == e;
        }
      }
    }
    assert forall e :: e in Sort(es, Value, ascending) <==> e in multiset(es);
    EnumerationSize(order, m.Keys);
    Sort(es, Value, ascending)
  }

  lemma {:induction false} EnumerationSize<K(!new)>(order: seq<K>, keys: set<K>)
    requires Enumerates(order, keys)
    ensures |order| == |keys|
  {
    if |order| > 0 {
      var rest := order[1..];
      assert order[0] !in rest;
      assert Enumerates(rest, keys - {order[0]});
      EnumerationSize(rest, keys - {order[0]});
    }
  }

  function KeysOf<K(!new)>(es: seq<(K, real)>): (r: seq<K>)
    ensures |r| == |es| && forall i :: 0 <= i < |r| ==> r[i] == es[i].0
  {
    seq(|es|, i requires 0 <= i < |es| => es[i].0)
  }

  /** Every key of `keys` is in `m`, and the keys are in value order. */
  ghost predicate KeysSorted<K(!new)>(m: map<K, real>, keys: seq<K>, ascending: bool) {
    forall i, j :: 0 <= i < j < |keys| ==> keys[i] in m && keys[j] in m && InOrder(m[keys[i]], m[keys[j]], ascending)
  }

  /** `sortByValueAndGetKeys`: each key of `m` once, in value order, after `output`. */
  function SortByValueAndGetKeys<K(!new)>(m: map<K, real>, order: seq<K>, ascending: bool, output: seq<K>)
    : (r: seq<K>)
    requires Enumerates(order, m.Keys)
    ensures output <= r && |r| == |output| + |m|
    ensures forall k :: k in r[|output|..] <==> k in m
    ensures KeysSorted(m, r[|output|..], ascending)
  {
    var sorted := SortByValue(m, order, ascending);
    var r := output + KeysOf(sorted);
    var keys := KeysOf(sorted);
    assert r[|output|..] == keys;
    forall i, j | 0 <= i < j < |keys| ensures keys[i] in m && keys[j] in m && InOrder(m[keys[i]], m[keys[j]], ascending) {
      assert sorted[i] in sorted && sorted[j] in sorted;
    }
    forall k | k in m ensures k in r[|output|..] {
      assert (k, m[k]) in sorted;
      var i :| 0 <= i < |sorted| && sorted[i] == (k, m[k]);
      assert KeysOf(sorted)[i] == k;
    }
    r
  }

  /** The added keys are distinct: `sortByValueAndGetKeys` lists each key exactly once. */
  lemma SortedKeysDistinct<K(!new)>(m: map<K, real>, order: seq<K>, ascending: bool, output: seq<K>)
    requires Enumerates(order, m.Keys)
    ensures Distinct(SortByValueAndGetKeys(m, order, ascending, output)[|output|..])
  {
    var r := SortByValueAndGetKeys(m, order, ascending, output);
    var added := r[|output|..];
    assert Elems(added) == m.Keys;
    EnumerationSize(order, m.Keys);
    DistinctBySize(added);
  }

  /** The keys of `m` by non-increasing value, ties in the iteration order `order`: each
      key once. The common use of `sortByValueAndGetKeys` with an empty output list. */
  function Ranked<K(!new)>(m: map<K, real>, order: seq<K>): (r: seq<K>)
    requires Enumerates(order, m.Keys)
    ensures Distinct(r) && Elems(r) == m.Keys
    ensures KeysSorted(m, r, false)
  {
    var e: seq<K> := [];
    var r := SortByValueAndGetKeys(m, order, false, e);
    SortedKeysDistinct(m, order, false, e);
    assert r[|e|..] == r;
    r
  }

  /** A sequence with as many distinct values as elements repeats nothing. */
  lemma {:induction false} DistinctBySize<T(!new)>(s: seq<T>)
    requires |Elems(s)| == |s|
    ensures Distinct(s)
  {
    if |s| > 0 {
      if s[0] in s[1..] {
        assert Elems(s) == Elems(s[1..]);
        ElemsSize(s[1..]);
        assert false;
      }
      assert Elems(s[1..]) == Elems(s) - {s[0]};
      DistinctBySize(s[1..]);
    }
  }

  lemma {:induction false} ElemsSize<T(!new)>(s: seq<T>)
    ensures |Elems(s)| <= |s|
  {
    if |s| > 0 {
      assert Elems(s) == Elems(s[1..]) + {s[0]};
      ElemsSize(s[1..]);
    }
  }

  // ---------------------------------------------------------------------------
  // Durations

  /** `String.format("%02d", n)`: at least two characters, zero-padded. */
  function Pad2(n: int): (r: string)
    ensures |r| >= 2
    ensures 0 <= n ==> AllDigits(r)
  {
    var s := IntToString(n);
    if |s| < 2 then "0" + s else s
  }

  /** The hours, minutes and seconds `printETA` extracts, each by truncating conversion
      of what the larger units left over. */
  function EtaParts(ms: int): (r: (int, int, int))
    ensures ms >= 0 ==> r.0 >= 0 && 0 <= r.1 < 60 && 0 <= r.2 < 60 &&
                        0 <= ms - (r.0 * 3600 + r.1 * 60 + r.2) * 1000 < 1000
    ensures ms < 0 ==> r.0 <= 0 && -60 < r.1 <= 0 && -60 < r.2 <= 0 &&
                       -1000 < ms - (r.0 * 3600 + r.1 * 60 + r.2) * 1000 <= 0
  {
    var h := JavaDiv(ms, 3600000);
    var rest := JavaRem(ms, 3600000);
    var m := JavaDiv(rest, 60000);
    var rest2 := JavaRem(rest, 60000);
    var s := JavaDiv(rest2, 1000);
    var _ := JavaRem(rest2, 1000);
    (h, m, s)
  }

  /** `printETA`: "HH h MM m SS s ". */
  function PrintEta(ms: int): string {
    var (h, m, s) := EtaParts(ms);
    Pad2(h) + " h " + Pad2(m) + " m " + Pad2(s) + " s "
  }

  lemma ParsePad2(n: int)
    requires 0 <= n <= IntMax
    ensures ParseInt(Pad2(n)) == Some(n)
  {
    ParsePrintedInt(n);
    var s := IntToString(n);
    if |s| < 2 {
      assert s == NatToString(n);
      assert ("0" + s)[..1] == "0";
      assert DigitsValue("0" + s) == DigitsValue(s);
    }
  }

  /** Splitting the printed layout on spaces yields the three numbers and unit letters. */
  lemma EtaFields(hs: string, ms: string, ss: string)
    requires AllDigits(hs) && AllDigits(ms) && AllDigits(ss)
    ensures Split(hs + " h " + ms + " m " + ss + " s ", ' ') == [hs, "h", ms, "m", ss, "s"]
  {
    var parts := [hs, "h", ms, "m", ss, "s"];
    assert NoSep(parts, ' ') by {
      forall i | 0 <= i < |parts| ensures ' ' !in parts[i] {
        if i % 2 == 0 {
          assert AllDigits(parts[i]);
        }
      }
    }
    assert Join(parts[5..], ' ') == "s";
    assert Join(parts[4..], ' ') == ss + " s";
    assert Join(parts[3..], ' ') == "m " + ss + " s";
    assert Join(parts[2..], ' ') == ms + " m " + ss + " s";
    assert Join(parts[1..], ' ') == "h " + ms + " m " + ss + " s";
    assert Join(parts, ' ') + [' '] == hs + " h " + ms + " m " + ss + " s ";
    SplitJoinTerminated(parts, ' ');
  }

  /** Reading the printed duration back: split on spaces it gives the three numbers with
      their unit letters, and they add up to the whole seconds of the input. */
  lemma EtaReadsBack(ms: int)
    requires 0 <= ms <= IntMax
    ensures var f := Split(PrintEta(ms), ' ');
      |f| == 6 && f[1] == "h" && f[3] == "m" && f[5] == "s" &&
      ParseInt(f[0]).Some? && ParseInt(f[2]).Some? && ParseInt(f[4]).Some? &&
      (ParseInt(f[0]).value * 3600 + ParseInt(f[2]).value * 60 + ParseInt(f[4]).value) * 1000
        == ms - ms % 1000
  {
    var (h, m, s) := EtaParts(ms);
    EtaPartsRange(ms);
    assert PrintEta(ms) == Pad2(h) + " h " + Pad2(m) + " m " + Pad2(s) + " s ";
    FieldsRead(h, m, s);
    WholeSeconds(ms, h * 3600 + m * 60 + s);
  }

  /** `f` reads as `h` hours, `m` minutes and `s` seconds with their unit letters. */
  predicate ReadsAsDuration(f: seq<string>, h: int, m: int, s: int) {
    |f| == 6 && f[1] == "h" && f[3] == "m" && f[5] == "s" &&
    ParseInt(f[0]) == Some(h) && ParseInt(f[2]) == Some(m) && ParseInt(f[4]) == Some(s)
  }

  lemma FieldsRead(h: int, m: int, s: int)
    requires 0 <= h <= IntMax && 0 <= m < 60 && 0 <= s < 60
    ensures ReadsAsDuration(Split(Pad2(h) + " h " + Pad2(m) + " m " + Pad2(s) + " s ", ' '), h, m, s)
  {
    var hs, ms, ss := Pad2(h), Pad2(m), Pad2(s);
    EtaFields(hs, ms, ss);
    ParsePad2(h);
    ParsePad2(m);
    ParsePad2(s);
    DurationFields(Split(hs + " h " + ms + " m " + ss + " s ", ' '), hs, ms, ss, h, m, s);
  }

  lemma DurationFields(f: seq<string>, hs: string, ms: string, ss: string, h: int, m: int, s: int)
    requires f == [hs, "h", ms, "m", ss, "s"]
    requires ParseInt(hs) == Some(h) && ParseInt(ms) == Some(m) && ParseInt(ss) == Some(s)
    ensures ReadsAsDuration(f, h, m, s)
  {
    assert f[0] == hs && f[2] == ms && f[4] == ss;
  }

  lemma EtaPartsRange(ms: int)
    requires 0 <= ms <= IntMax
    ensures EtaParts(ms).0 <= IntMax
  {
    var (h, m, s) := EtaParts(ms);
    assert (h * 3600 + m * 60 + s) * 1000 <= ms;
  }

  lemma WholeSeconds(ms: int, q: int)
    requires 0 <= ms - q * 1000 < 1000
    ensures q * 1000 == ms - ms % 1000
  {
  }
}
