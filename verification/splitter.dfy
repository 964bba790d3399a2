/** Splitting the data set into a training and a test part, after merging items and
    clicks into one list ordered by event time. */
module Splitter {
  import opened Wrappers
  import opened Seqs
  import opened Events
  import opened StableSort
  import opened JavaNum

  function TimeKey(e: Event): real {
    EventTime(e) as real
  }

  /** The items (in the item map's iteration order) followed by the clicks, as events. */
  function Merge(itemValues: seq<Item>, clicks: seq<Click>): (r: seq<Event>)
    ensures |r| == |itemValues| + |clicks|
    ensures forall i :: 0 <= i < |itemValues| ==> r[i] == ItemEvent(itemValues[i])
    ensures forall i :: 0 <= i < |clicks| ==> r[|itemValues| + i] == ClickEvent(clicks[i])
  {
    seq(|itemValues|, i requires 0 <= i < |itemValues| => ItemEvent(itemValues[i])) +
    seq(|clicks|, i requires 0 <= i < |clicks| => ClickEvent(clicks[i]))
  }

  /** All events, stably sorted by ascending event time: events of equal time keep their
      merged order, items before clicks. */
  function AllEvents(itemValues: seq<Item>, clicks: seq<Click>): (r: seq<Event>)
    ensures SortedBy(r, TimeKey, true)
    ensures multiset(r) == multiset(Merge(itemValues, clicks))
    ensures forall t :: WithKey(r, TimeKey, t) == WithKey(Merge(itemValues, clicks), TimeKey, t)
  {
    var m := Merge(itemValues, clicks);
    SortCorrect(m, TimeKey, true);
    Sort(m, TimeKey, true)
  }

  datatype SplitMode = ByNumberOfEvents | ByTime
  datatype SplitData = SplitData(training: seq<Event>, test: seq<Event>)

  /** Count mode: the first `(int)(n * threshold)` events train; a cut outside [0, n] makes
      `subList` throw. */
  function SplitByCount(all: seq<Event>, threshold: real): (r: Result<SplitData>)
    ensures r.Ok? <==> 0 <= Trunc(|all| as real * threshold) <= |all|
    ensures r.Ok? ==> r.value.training + r.value.test == all
    ensures r.Ok? ==> |r.value.training| == Trunc(|all| as real * threshold)
  {
    var cut := Trunc(|all| as real * threshold);
    if cut < 0 || cut > |all| then Err("IndexOutOfBoundsException")
    else
      assert all[..cut] + all[cut..] == all;
      Ok(SplitData(all[..cut], all[cut..]))
  }

  /** The cut-off time of time mode: the first event's time plus the truncated share of the
      covered time span. */
  function CutOffTime(all: seq<Event>, threshold: real): int
    requires |all| > 0
  {
    var start := EventTime(all[0]);
    var end := EventTime(all[|all| - 1]);
    start + Trunc((end - start) as real * threshold)
  }

  /** Time mode: an event trains iff its time is strictly before the cut-off time. Reading
      the first and last events of an empty list throws. */
  function SplitByTime(all: seq<Event>, threshold: real): (r: Result<SplitData>)
    ensures r.Ok? <==> |all| > 0
    ensures r.Ok? ==>
      (forall e :: e in r.value.training <==> e in all && EventTime(e) < CutOffTime(all, threshold)) &&
      (forall e :: e in r.value.test <==> e in all && EventTime(e) >= CutOffTime(all, threshold))
  {
    if |all| == 0 then Err("IndexOutOfBoundsException")
    else
      var cut := CutOffTime(all, threshold);
      Ok(SplitData(Before(all, cut), NotBefore(all, cut)))
  }

  /** `splitData`. */
  function SplitEvents(itemValues: seq<Item>, clicks: seq<Click>, mode: SplitMode, threshold: real)
    : (r: Result<SplitData>)
    ensures mode.ByTime? ==> r == SplitByTime(AllEvents(itemValues, clicks), threshold)
    ensures mode.ByNumberOfEvents? ==> r == SplitByCount(AllEvents(itemValues, clicks), threshold)
  {
    var all := AllEvents(itemValues, clicks);
    match mode
    case ByNumberOfEvents => SplitByCount(all, threshold)
    case ByTime => SplitByTime(all, threshold)
  }

  /** The events strictly before `cut`, in order. */
  function Before(s: seq<Event>, cut: int): (r: seq<Event>)
    ensures forall e :: e in r <==> e in s && EventTime(e) < cut
  {
    if |s| == 0 then []
    else (if EventTime(s[0]) < cut then [s[0]] else []) + Before(s[1..], cut)
  }

  /** The events at or after `cut`, in order. */
  function NotBefore(s: seq<Event>, cut: int): (r: seq<Event>)
    ensures forall e :: e in r <==> e in s && EventTime(e) >= cut
  {
    if |s| == 0 then []
    else (if EventTime(s[0]) < cut then [] else [s[0]]) + NotBefore(s[1..], cut)
  }

  /** On a time-ordered list, the events before a cut-off time form a prefix. */
  lemma {:induction false} EarlyEventsArePrefix(s: seq<Event>, cut: int) returns (k: nat)
    requires SortedBy(s, TimeKey, true)
    ensures k <= |s| && Before(s, cut) == s[..k] && NotBefore(s, cut) == s[k..]
  {
    if |s| == 0 {
      k := 0;
    } else if EventTime(s[0]) < cut {
      var k' := EarlyEventsArePrefix(s[1..], cut);
      k := k' + 1;
      assert s[..k] == [s[0]] + s[1..][..k'];
      assert s[k..] == s[1..][k'..];
    } else {
      NoneEarly(s, cut);
      k := 0;
    }
  }

  lemma {:induction false} NoneEarly(s: seq<Event>, cut: int)
    requires SortedBy(s, TimeKey, true)
    requires |s| > 0 && EventTime(s[0]) >= cut
    ensures Before(s, cut) == [] && NotBefore(s, cut) == s
  {
    if |s| > 1 {
      assert TimeKey(s[0]) <= TimeKey(s[1]);
      NoneEarly(s[1..], cut);
      assert s == [s[0]] + s[1..];
    }
  }

  /** In a time-ordered list, nothing after position `k` is earlier than anything before it. */
  lemma CutOrdered(all: seq<Event>, k: nat)
    requires SortedBy(all, TimeKey, true) && k <= |all|
    ensures forall a, b :: a in all[..k] && b in all[k..] ==> EventTime(a) <= EventTime(b)
  {
    forall a, b | a in all[..k] && b in all[k..] ensures EventTime(a) <= EventTime(b) {
      var i :| 0 <= i < k && all[i] == a;
      var j :| k <= j < |all| && all[j] == b;
      assert TimeKey(all[i]) <= TimeKey(all[j]);
    }
  }

  lemma TimeSplitOrdered(all: seq<Event>, threshold: real)
    requires SortedBy(all, TimeKey, true) && |all| > 0
    ensures var d := SplitByTime(all, threshold).value;
      d.training + d.test == all &&
      forall a, b :: a in d.training && b in d.test ==> EventTime(a) <= EventTime(b)
  {
    var k := EarlyEventsArePrefix(all, CutOffTime(all, threshold));
    assert all[..k] + all[k..] == all;
    CutOrdered(all, k);
  }

  lemma CountSplitOrdered(all: seq<Event>, threshold: real)
    requires SortedBy(all, TimeKey, true) && SplitByCount(all, threshold).Ok?
    ensures var d := SplitByCount(all, threshold).value;
      d.training + d.test == all &&
      forall a, b :: a in d.training && b in d.test ==> EventTime(a) <= EventTime(b)
  {
    var d := SplitByCount(all, threshold).value;
    var k := |d.training|;
    assert d.training == all[..k] && d.test == all[k..];
    CutOrdered(all, k);
  }

  /** In both modes the training part followed by the test part is the time-ordered event
      list, so no test event is earlier than a training event. */
  lemma SplitKeepsOrder(itemValues: seq<Item>, clicks: seq<Click>, mode: SplitMode, threshold: real)
    requires SplitEvents(itemValues, clicks, mode, threshold).Ok?
    ensures var d := SplitEvents(itemValues, clicks, mode, threshold).value;
      d.training + d.test == AllEvents(itemValues, clicks) &&
      forall a, b :: a in d.training && b in d.test ==> EventTime(a) <= EventTime(b)
  {
    var all := AllEvents(itemValues, clicks);
    if mode.ByTime? {
      TimeSplitOrdered(all, threshold);
    } else {
      CountSplitOrdered(all, threshold);
    }
  }
}
