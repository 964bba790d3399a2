/** `FilteredDataReader.readFilteredData` without the files: the item lines become a map
    by id, the click lines become clicks, and clicks repeating the same user and item
    within a minute of a kept click are dropped. */
module Reader {
  import opened Wrappers
  import opened Events
  import opened ItemCsv
  import opened TransactionCsv

  /** Clicks closer than this (in ms) to a kept click of the same user and item are
      duplicates. */
  const DuplicateWindow: int := 60000

  // ---------------------------------------------------------------------------
  // Items

  /** The items of the item file (header already dropped), parsed by `parse`, by id; a
      later line with the same id replaces the earlier one. */
  function ReadItems(lines: seq<string>, parse: string -> Result<Item>): (r: Result<map<int, Item>>)
    ensures r.Ok? <==> forall i :: 0 <= i < |lines| ==> parse(lines[i]).Ok?
    decreases |lines|
  {
    if |lines| == 0 then Ok(map[])
    else
      var n := |lines| - 1;
      assert forall i :: 0 <= i < n ==> lines[..n][i] == lines[i];
      var m :- ReadItems(lines[..n], parse);
      var item :- parse(lines[n]);
      Ok(m[item.id := item])
  }

  /** Every item read is in the map under its id, the map holds nothing else, and each
      id maps to the item of its last line. */
  lemma ReadItemsLastWins(lines: seq<string>, parse: string -> Result<Item>)
    requires ReadItems(lines, parse).Ok?
    ensures forall i :: 0 <= i < |lines| ==> parse(lines[i]).Ok?
    ensures var m := ReadItems(lines, parse).value;
      (forall i :: 0 <= i < |lines| && LastWithId(lines, parse, parse(lines[i]).value.id, i) ==>
         parse(lines[i]).value.id in m && m[parse(lines[i]).value.id] == parse(lines[i]).value) &&
      (forall id :: id in m ==> exists i :: 0 <= i < |lines| && LastWithId(lines, parse, id, i))
  {
    forall i | 0 <= i < |lines| && LastWithId(lines, parse, parse(lines[i]).value.id, i)
      ensures parse(lines[i]).value.id in ReadItems(lines, parse).value
      ensures ReadItems(lines, parse).value[parse(lines[i]).value.id] == parse(lines[i]).value
    {
      ReadItemsLast(lines, parse, i);
    }
    ReadItemsOnlyRead(lines, parse);
  }

  /** The item of the last line with its id is in the map. */
  lemma {:induction false} ReadItemsLast(lines: seq<string>, parse: string -> Result<Item>, i: int)
    requires ReadItems(lines, parse).Ok? && 0 <= i < |lines|
    requires LastWithId(lines, parse, parse(lines[i]).value.id, i)
    ensures parse(lines[i]).value.id in ReadItems(lines, parse).value
    ensures ReadItems(lines, parse).value[parse(lines[i]).value.id] == parse(lines[i]).value
    decreases |lines|
  {
    var n := |lines| - 1;
    var prefix := lines[..n];
    var item := parse(lines[n]).value;
    assert ReadItems(lines, parse).value == ReadItems(prefix, parse).value[item.id := item];
    if i < n {
      assert prefix[i] == lines[i];
      assert LastWithId(prefix, parse, parse(prefix[i]).value.id, i) by {
        forall l | i < l < n ensures prefix[l] == lines[l] {}
      }
      ReadItemsLast(prefix, parse, i);
    }
  }

  /** Every id in the map comes from a line that is the last with that id. */
  lemma {:induction false} ReadItemsOnlyRead(lines: seq<string>, parse: string -> Result<Item>)
    requires ReadItems(lines, parse).Ok?
    ensures forall id :: id in ReadItems(lines, parse).value ==>
      exists i :: 0 <= i < |lines| && LastWithId(lines, parse, id, i)
    decreases |lines|
  {
    if |lines| > 0 {
      var n := |lines| - 1;
      var prefix := lines[..n];
      assert forall i :: 0 <= i < n ==> prefix[i] == lines[i];
      ReadItemsOnlyRead(prefix, parse);
      var m := ReadItems(prefix, parse).value;
      var item := parse(lines[n]).value;
      var m' := m[item.id := item];
      assert ReadItems(lines, parse).value == m';
      forall id | id in m'
        ensures exists i :: 0 <= i < |lines| && LastWithId(lines, parse, id, i)
      {
        if id == item.id {
          assert LastWithId(lines, parse, id, n);
        } else {
          var i :| 0 <= i < n && LastWithId(prefix, parse, id, i);
          assert LastWithId(lines, parse, id, i);
        }
      }
    }
  }

  /** Line `i` holds the last item with this id. */
  ghost predicate LastWithId(lines: seq<string>, parse: string -> Result<Item>, id: int, i: int)
    requires 0 <= i < |lines|
  {
    parse(lines[i]).Ok? && parse(lines[i]).value.id == id &&
    forall l :: i < l < |lines| && parse(lines[l]).Ok? ==> parse(lines[l]).value.id != id
  }

  // ---------------------------------------------------------------------------
  // De-duplication

  /** The same user clicked the same item; both clicks must have an item. */
  predicate SameClick(a: Click, b: Click)
    requires a.item.Some? && b.item.Some?
  {
    a.item.value.id == b.item.value.id && a.userId == b.userId
  }

  /** Every kept click from position `j` to `i` is less than a minute older than `t`. */
  ghost predicate InWindow(kept: seq<Click>, t: Click, j: int, i: int)
    requires -1 <= i < |kept|
  {
    forall l :: j <= l <= i && 0 <= l ==> t.timestamp - kept[l].timestamp < DuplicateWindow
  }

  /** The backward scan from kept click `i` while the kept click is less than a minute
      older than `t`: `true` at the first one of the same user and item; reading the id of
      a missing item throws. */
  function ScanBack(kept: seq<Click>, t: Click, i: int): (r: Result<bool>)
    requires -1 <= i < |kept|
    ensures r == Ok(true) ==> exists j :: (0 <= j <= i && InWindow(kept, t, j, i) &&
                                           t.item.Some? && kept[j].item.Some? && SameClick(t, kept[j]))
    ensures r == Ok(false) ==> forall j :: 0 <= j <= i && InWindow(kept, t, j, i) ==>
                                           t.item.Some? && kept[j].item.Some? && !SameClick(t, kept[j])
    ensures r.Err? ==> r.msg == "NullPointerException" &&
                       exists j :: 0 <= j <= i && InWindow(kept, t, j, i) && (t.item.None? || kept[j].item.None?)
    decreases i + 1
  {
    if i < 0 || t.timestamp - kept[i].timestamp >= DuplicateWindow then Ok(false)
    else if t.item.None? || kept[i].item.None? then Err("NullPointerException")
    else if SameClick(t, kept[i]) then Ok(true)
    else
      var r := ScanBack(kept, t, i - 1);
      assert forall j :: 0 <= j <= i - 1 && InWindow(kept, t, j, i) ==> InWindow(kept, t, j, i - 1);
      assert forall j :: 0 <= j <= i - 1 && InWindow(kept, t, j, i - 1) ==> InWindow(kept, t, j, i);
      r
  }

  /** The scan from the newest kept click. */
  function IsDuplicate(kept: seq<Click>, t: Click): Result<bool> {
    ScanBack(kept, t, |kept| - 1)
  }

  /** The clicks kept, marked by `flags`, in their order. */
  function Select(s: seq<Click>, flags: seq<bool>): (r: seq<Click>)
    requires |flags| == |s|
    ensures |r| <= |s|
    decreases |s|
  {
    if |s| == 0 then []
    else Select(s[..|s| - 1], flags[..|s| - 1]) + (if flags[|s| - 1] then [s[|s| - 1]] else [])
  }

  datatype Dedup = Dedup(kept: seq<Click>, flags: seq<bool>, duplicateCount: nat)

  /** Click `i` is kept exactly when de-duplication is off or the scan over the clicks
      kept before it completes without finding it. */
  ghost predicate ScanDecides(clicks: seq<Click>, flags: seq<bool>, deduplicate: bool, i: int)
    requires |flags| == |clicks| && 0 <= i < |clicks|
  {
    flags[i] <==> !deduplicate || IsDuplicate(Select(clicks[..i], flags[..i]), clicks[i]) == Ok(false)
  }

  /** The de-duplication loop over the parsed clicks, in file order: a click is kept
      unless the scan over the clicks kept so far finds it; without de-duplication every
      click is kept. */
  function Deduplicate(clicks: seq<Click>, deduplicate: bool): (r: Result<Dedup>)
    ensures r.Ok? ==> Scanned(clicks, r.value, deduplicate)
    ensures !deduplicate ==> r.Ok? && r.value.kept == clicks && r.value.duplicateCount == 0
    decreases |clicks|
  {
    if |clicks| == 0 then Ok(Dedup([], [], 0))
    else
      var n := |clicks| - 1;
      var prev :- Deduplicate(clicks[..n], deduplicate);
      var t := clicks[n];
      ScannedSnoc(clicks, prev, deduplicate, !deduplicate || IsDuplicate(prev.kept, t) == Ok(false));
      assert clicks[..n] + [t] == clicks;
      Step(prev, t, deduplicate)
  }

  /** `d` is what the loop leaves after `clicks`: one flag per click, the flagged clicks
      kept in order, the others counted, and each flag set by the scan over the clicks
      kept before it. */
  ghost predicate Scanned(clicks: seq<Click>, d: Dedup, deduplicate: bool) {
    |d.flags| == |clicks| && d.kept == Select(clicks, d.flags) &&
    |d.kept| + d.duplicateCount == |clicks| &&
    forall i :: 0 <= i < |clicks| ==> ScanDecides(clicks, d.flags, deduplicate, i)
  }

  /** One more click, kept or counted as the scan decides. */
  lemma ScannedSnoc(clicks: seq<Click>, prev: Dedup, deduplicate: bool, keep: bool)
    requires |clicks| > 0 && Scanned(clicks[..|clicks| - 1], prev, deduplicate)
    requires keep <==> !deduplicate || IsDuplicate(prev.kept, clicks[|clicks| - 1]) == Ok(false)
    ensures Scanned(clicks, Dedup(prev.kept + (if keep then [clicks[|clicks| - 1]] else []), prev.flags + [keep],
                                  prev.duplicateCount + (if keep then 0 else 1)), deduplicate)
  {
    ScanDecidesSnoc(clicks, prev.flags, deduplicate, keep);
  }

  /** Deciding click `i` looks only at the clicks before it. */
  lemma ScanDecidesPrefix(clicks: seq<Click>, flags: seq<bool>, deduplicate: bool, i: int, n: int)
    requires |flags| == |clicks| && 0 <= i < n <= |clicks|
    requires ScanDecides(clicks[..n], flags[..n], deduplicate, i)
    ensures ScanDecides(clicks, flags, deduplicate, i)
  {
    assert clicks[..n][..i] == clicks[..i] && flags[..n][..i] == flags[..i];
    assert clicks[..n][i] == clicks[i] && flags[..n][i] == flags[i];
  }

  lemma SelectSnoc(clicks: seq<Click>, flags: seq<bool>, keep: bool)
    requires |clicks| > 0 && |flags| == |clicks| - 1
    ensures Select(clicks, flags + [keep]) == Select(clicks[..|flags|], flags) + (if keep then [clicks[|flags|]] else [])
  {
    assert (flags + [keep])[..|flags|] == flags;
  }

  lemma ScanDecidesSnoc(clicks: seq<Click>, flags: seq<bool>, deduplicate: bool, keep: bool)
    requires |clicks| > 0 && |flags| == |clicks| - 1
    requires forall i :: 0 <= i < |flags| ==> ScanDecides(clicks[..|flags|], flags, deduplicate, i)
    requires keep <==> !deduplicate || IsDuplicate(Select(clicks[..|flags|], flags), clicks[|flags|]) == Ok(false)
    ensures Select(clicks, flags + [keep]) == Select(clicks[..|flags|], flags) + (if keep then [clicks[|flags|]] else [])
    ensures forall i :: 0 <= i < |clicks| ==> ScanDecides(clicks, flags + [keep], deduplicate, i)
  {
    SelectSnoc(clicks, flags, keep);
    var n := |flags|;
    var f := flags + [keep];
    assert f[..n] == flags;
    forall i | 0 <= i < |clicks| ensures ScanDecides(clicks, f, deduplicate, i) {
      if i < n {
        assert ScanDecides(clicks[..n], f[..n], deduplicate, i);
        ScanDecidesPrefix(clicks, f, deduplicate, i, n);
      } else {
        assert clicks[..i] == clicks[..n] && f[..i] == flags;
      }
    }
  }

  /** The click loop of `readFilteredData`, one line at a time: each line is parsed
      against the item map and then, with de-duplication on, scanned against the clicks
      kept so far, before the next line is read. It ends as parsing every line and then
      de-duplicating would, and fails where that does; the exception reported is the one
      of the first line that fails (`FirstFailureReported`). */
  function ReadClicks(lines: seq<string>, items: map<int, Item>,
                      parse: (string, map<int, Item>) -> Result<Click>, deduplicate: bool)
    : (r: Result<Dedup>)
    ensures r.Ok? <==> (ParseClicks(lines, items, parse).Ok? &&
                        Deduplicate(ParseClicks(lines, items, parse).value, deduplicate).Ok?)
    ensures r.Ok? ==> r == Deduplicate(ParseClicks(lines, items, parse).value, deduplicate)
    decreases |lines|
  {
    if |lines| == 0 then Ok(Dedup([], [], 0))
    else
      var n := |lines| - 1;
      var all := ParseClicks(lines, items, parse);
      var front := ParseClicks(lines[..n], items, parse);
      ParseClicksSnoc(lines, items, parse);
      assert all.Ok? ==>
        Deduplicate(all.value, deduplicate) == StepAfter(Deduplicate(front.value, deduplicate), parse(lines[n], items).value, deduplicate)
      by {
        if all.Ok? { DeduplicateSnoc(front.value, parse(lines[n], items).value, deduplicate); }
      }
      var prev :- ReadClicks(lines[..n], items, parse, deduplicate);
      var t :- parse(lines[n], items);
      Step(prev, t, deduplicate)
  }

  /** One click through the de-duplication loop: kept unless the scan over the clicks kept
      so far finds it, or the scan throws. */
  function Step(prev: Dedup, t: Click, deduplicate: bool): (r: Result<Dedup>)
    ensures r.Err? <==> deduplicate && IsDuplicate(prev.kept, t).Err?
    ensures r.Err? ==> r.msg == "NullPointerException"
    ensures r.Ok? ==> var keep := !deduplicate || IsDuplicate(prev.kept, t) == Ok(false);
      r.value == Dedup(prev.kept + (if keep then [t] else []), prev.flags + [keep],
                       prev.duplicateCount + (if keep then 0 else 1))
  {
    if !deduplicate then Ok(Dedup(prev.kept + [t], prev.flags + [true], prev.duplicateCount))
    else
      match IsDuplicate(prev.kept, t)
      case Err(e) => Err(e)
      case Ok(dup) =>
        if dup then Ok(Dedup(prev.kept, prev.flags + [false], prev.duplicateCount + 1))
        else Ok(Dedup(prev.kept + [t], prev.flags + [true], prev.duplicateCount))
  }

  /** The step after a loop that may already have failed. */
  function StepAfter(d: Result<Dedup>, t: Click, deduplicate: bool): Result<Dedup> {
    if d.Err? then Err(d.msg) else Step(d.value, t, deduplicate)
  }

  /** De-duplicating one more click is one more step of the loop. */
  lemma DeduplicateSnoc(front: seq<Click>, t: Click, deduplicate: bool)
    ensures Deduplicate(front + [t], deduplicate) == StepAfter(Deduplicate(front, deduplicate), t, deduplicate)
  {
    var clicks := front + [t];
    assert clicks[..|front|] == front && clicks[|front|] == t;
  }

  /** Parsing all lines succeeds exactly when parsing all but the last does and the last
      line parses; the clicks are then those of the shorter list and the last line's. */
  lemma ParseClicksSnoc(lines: seq<string>, items: map<int, Item>, parse: (string, map<int, Item>) -> Result<Click>)
    requires |lines| > 0
    ensures var n := |lines| - 1;
      ParseClicks(lines, items, parse).Ok? <==>
        (ParseClicks(lines[..n], items, parse).Ok? && parse(lines[n], items).Ok?)
    ensures var n := |lines| - 1;
      ParseClicks(lines, items, parse).Ok? ==>
        ParseClicks(lines, items, parse).value ==
          ParseClicks(lines[..n], items, parse).value + [parse(lines[n], items).value]
  {
    var n := |lines| - 1;
    var front := lines[..n];
    if ParseClicks(lines, items, parse).Ok? {
      ParseClicksFront(lines, items, parse);
    } else if ParseClicks(front, items, parse).Ok? && parse(lines[n], items).Ok? {
      forall i | 0 <= i < |lines| ensures parse(lines[i], items).Ok? {
        if i < n { assert front[i] == lines[i]; }
      }
      assert false;
    }
  }

  /** The clicks of all lines are those of all but the last, then the last line's. */
  lemma ParseClicksFront(lines: seq<string>, items: map<int, Item>, parse: (string, map<int, Item>) -> Result<Click>)
    requires |lines| > 0 && ParseClicks(lines, items, parse).Ok?
    ensures var n := |lines| - 1;
      ParseClicks(lines[..n], items, parse).Ok? &&
      ParseClicks(lines, items, parse).value ==
        ParseClicks(lines[..n], items, parse).value + [parse(lines[n], items).value]
  {
    var n := |lines| - 1;
    var front := lines[..n];
    var p := ParseClicks(lines, items, parse).value;
    forall i | 0 <= i < n ensures parse(front[i], items).Ok? {
      assert front[i] == lines[i];
    }
    var want := ParseClicks(front, items, parse).value + [parse(lines[n], items).value];
    forall i | 0 <= i < |lines| ensures p[i] == want[i] {
      if i < n { assert front[i] == lines[i]; }
    }
  }

  /** The last line is read only after the lines before it succeed, and is scanned only
      once it parses. */
  lemma ReadClicksSnoc(lines: seq<string>, items: map<int, Item>,
                       parse: (string, map<int, Item>) -> Result<Click>, deduplicate: bool)
    requires |lines| > 0
    ensures var n := |lines| - 1;
      var prev := ReadClicks(lines[..n], items, parse, deduplicate);
      ReadClicks(lines, items, parse, deduplicate) ==
        if prev.Err? then Err(prev.msg)
        else if parse(lines[n], items).Err? then Err(parse(lines[n], items).msg)
        else Step(prev.value, parse(lines[n], items).value, deduplicate)
  {
  }

  /** Once the lines up to `m` fail, the whole loop fails with the same exception: no
      later line is read. */
  lemma {:induction false} FailureStays(lines: seq<string>, items: map<int, Item>,
                                        parse: (string, map<int, Item>) -> Result<Click>, deduplicate: bool, m: int)
    requires 0 <= m <= |lines|
    requires ReadClicks(lines[..m], items, parse, deduplicate).Err?
    ensures ReadClicks(lines, items, parse, deduplicate) == ReadClicks(lines[..m], items, parse, deduplicate)
    decreases |lines| - m
  {
    if m < |lines| {
      var n := |lines| - 1;
      assert lines[..n][..m] == lines[..m];
      FailureStays(lines[..n], items, parse, deduplicate, m);
      ReadClicksSnoc(lines, items, parse, deduplicate);
    } else {
      assert lines[..m] == lines;
    }
  }

  /** The loop reports the exception of the first line that fails: when every line before
      line `n` parses and de-duplicates, and line `n` does not parse, its parse error is
      reported; when it parses but its scan reads a missing item, a NullPointerException
      is, whatever the later lines hold. */
  lemma FirstFailureReported(lines: seq<string>, items: map<int, Item>,
                             parse: (string, map<int, Item>) -> Result<Click>, deduplicate: bool, n: int)
    requires 0 <= n < |lines|
    requires ParseClicks(lines[..n], items, parse).Ok?
    requires Deduplicate(ParseClicks(lines[..n], items, parse).value, deduplicate).Ok?
    requires parse(lines[n], items).Err? ||
             (deduplicate && IsDuplicate(Deduplicate(ParseClicks(lines[..n], items, parse).value, deduplicate).value.kept,
                                         parse(lines[n], items).value).Err?)
    ensures ReadClicks(lines, items, parse, deduplicate) ==
      Err(if parse(lines[n], items).Err? then parse(lines[n], items).msg else "NullPointerException")
  {
    var head := lines[..n + 1];
    assert |head| - 1 == n;
    assert head[..|head| - 1] == lines[..n] && head[|head| - 1] == lines[n];
    var prev := ReadClicks(lines[..n], items, parse, deduplicate);
    assert prev.Ok? && prev == Deduplicate(ParseClicks(lines[..n], items, parse).value, deduplicate);
    var line := parse(lines[n], items);
    assert line.Err? || (deduplicate && IsDuplicate(prev.value.kept, line.value).Err?);
    LastLineFails(head, items, parse, deduplicate);
    assert ReadClicks(head, items, parse, deduplicate) == Err(if line.Err? then line.msg else "NullPointerException");
    FailureStays(lines, items, parse, deduplicate, n + 1);
  }

  /** After lines that succeed, a last line that does not parse, or whose scan throws,
      ends the loop with that exception. */
  lemma LastLineFails(lines: seq<string>, items: map<int, Item>,
                      parse: (string, map<int, Item>) -> Result<Click>, deduplicate: bool)
    requires |lines| > 0
    requires ReadClicks(lines[..|lines| - 1], items, parse, deduplicate).Ok?
    requires parse(lines[|lines| - 1], items).Err? ||
             (deduplicate && IsDuplicate(ReadClicks(lines[..|lines| - 1], items, parse, deduplicate).value.kept,
                                         parse(lines[|lines| - 1], items).value).Err?)
    ensures ReadClicks(lines, items, parse, deduplicate) ==
      Err(if parse(lines[|lines| - 1], items).Err? then parse(lines[|lines| - 1], items).msg else "NullPointerException")
  {
    ReadClicksSnoc(lines, items, parse, deduplicate);
  }

  /** A scan that reads a missing item fails before a later unparsable line is read: two
      clicks without an item ten milliseconds apart, then a bad line, report the
      NullPointerException of the second click's scan. */
  lemma MissingItemThrowsFirst(items: map<int, Item>, parse: (string, map<int, Item>) -> Result<Click>,
                               a: string, b: string, x: string, user: int)
    requires parse(a, items) == Ok(Click(None, user, 0)) && parse(b, items) == Ok(Click(None, user, 10))
    requires parse(x, items).Err?
    ensures ReadClicks([a, b, x], items, parse, true) == Err("NullPointerException")
  {
    var lines := [a, b, x];
    var c0, c1 := Click(None, user, 0), Click(None, user, 10);
    assert lines[..2] == [a, b] && [a, b][..1] == [a] && [a][..0] == [];
    ReadClicksSnoc([a], items, parse, true);
    assert ReadClicks([], items, parse, true) == Ok(Dedup([], [], 0));
    assert IsDuplicate([], c0) == ScanBack([], c0, -1) == Ok(false);
    assert Step(Dedup([], [], 0), c0, true) == Ok(Dedup([] + [c0], [] + [true], 0));
    assert [] + [c0] == [c0] && [] + [true] == [true];
    ReadClicksSnoc([a, b], items, parse, true);
    assert IsDuplicate([c0], c1) == ScanBack([c0], c1, 0) == Err("NullPointerException");
    ReadClicksSnoc(lines, items, parse, true);
  }

  /** `readFilteredData` on the lines of both files (headers already dropped), given the
      line parsers: the item map, then the clicks read line by line against it. Reading
      the first kept click's item for the format check throws when nothing is kept; with
      statistics on, reading a missing item's category throws. */
  function ReadFilteredData(itemLines: seq<string>, clickLines: seq<string>,
                            parseItem: string -> Result<Item>,
                            parseClick: (string, map<int, Item>) -> Result<Click>,
                            printStats: bool, deduplicate: bool)
    : (r: Result<(map<int, Item>, seq<Click>)>)
    ensures r.Ok? ==> ReadItems(itemLines, parseItem) == Ok(r.value.0)
    ensures r.Ok? ==> |r.value.1| > 0
    ensures r.Ok? && printStats ==> forall i :: 0 <= i < |r.value.1| ==> r.value.1[i].item.Some?
    ensures r.Ok? ==> (ParseClicks(clickLines, r.value.0, parseClick).Ok? &&
      Deduplicate(ParseClicks(clickLines, r.value.0, parseClick).value, deduplicate).Ok? &&
      r.value.1 == Deduplicate(ParseClicks(clickLines, r.value.0, parseClick).value, deduplicate).value.kept)
    ensures ReadItems(itemLines, parseItem).Err? ==> r == Err(ReadItems(itemLines, parseItem).msg)
    ensures ReadItems(itemLines, parseItem).Ok? ==>
      var d := ReadClicks(clickLines, ReadItems(itemLines, parseItem).value, parseClick, deduplicate);
      (d.Err? ==> r == Err(d.msg)) &&
      (d.Ok? && |d.value.kept| == 0 ==> r == Err("IndexOutOfBoundsException")) &&
      (d.Ok? && |d.value.kept| > 0 ==>
        (r.Err? <==> printStats && exists i :: 0 <= i < |d.value.kept| && d.value.kept[i].item.None?) &&
        (r.Err? ==> r.msg == "NullPointerException"))
  {
    var items :- ReadItems(itemLines, parseItem);
    var d :- ReadClicks(clickLines, items, parseClick, deduplicate);
    if |d.kept| == 0 then Err("IndexOutOfBoundsException")
    else if printStats && exists i :: 0 <= i < |d.kept| && d.kept[i].item.None? then Err("NullPointerException")
    else Ok((items, d.kept))
  }

  /** The reader with the item and transaction line formats. */
  function ReadFiles(itemLines: seq<string>, clickLines: seq<string>, dates: DateCodec,
                     printStats: bool, deduplicate: bool, oldFormat: bool): Result<(map<int, Item>, seq<Click>)>
  {
    ReadFilteredData(itemLines, clickLines, l => ParseItem(l, dates), (l, m) => ParseClick(l, m, oldFormat),
                     printStats, deduplicate)
  }

  /** Every click line parsed against the item map, in file order. */
  function ParseClicks(lines: seq<string>, items: map<int, Item>, parse: (string, map<int, Item>) -> Result<Click>)
    : (r: Result<seq<Click>>)
    ensures r.Ok? <==> forall i :: 0 <= i < |lines| ==> parse(lines[i], items).Ok?
    ensures r.Ok? ==> |r.value| == |lines|
    ensures r.Ok? ==> forall i :: 0 <= i < |lines| ==> r.value[i] == parse(lines[i], items).value
  {
    if |lines| == 0 then Ok([])
    else
      assert forall i :: 1 <= i < |lines| ==> lines[1..][i - 1] == lines[i];
      var c :- parse(lines[0], items);
      var cs :- ParseClicks(lines[1..], items, parse);
      Ok([c] + cs)
  }

  // ---------------------------------------------------------------------------
  // Properties

  /** A kept click is never a duplicate of an earlier kept click within the window: no two
      kept clicks of the same user and item are less than a minute apart when everything
      in between is also that recent. */
  lemma KeptHaveNoRecentTwin(clicks: seq<Click>, deduplicate: bool, i: int)
    requires deduplicate && Deduplicate(clicks, deduplicate).Ok?
    requires 0 <= i < |clicks| && Deduplicate(clicks, deduplicate).value.flags[i]
    ensures NoRecentTwin(Select(clicks[..i], Deduplicate(clicks, deduplicate).value.flags[..i]), clicks[i])
  {
    var flags := Deduplicate(clicks, deduplicate).value.flags;
    assert ScanDecides(clicks, flags, deduplicate, i);
    ScanClear(Select(clicks[..i], flags[..i]), clicks[i]);
  }

  /** No kept click in the unbroken run of recent kept clicks before `t` is of the same
      user and item, and all of them (and `t`) have an item. */
  ghost predicate NoRecentTwin(kept: seq<Click>, t: Click) {
    forall j :: 0 <= j < |kept| && InWindow(kept, t, j, |kept| - 1) ==>
      t.item.Some? && kept[j].item.Some? && !SameClick(t, kept[j])
  }

  /** A scan that finds nothing means no recent twin. */
  lemma ScanClear(kept: seq<Click>, t: Click)
    requires IsDuplicate(kept, t) == Ok(false)
    ensures NoRecentTwin(kept, t)
  {
    assert ScanBack(kept, t, |kept| - 1) == Ok(false);
  }

  /** The scan stops at the first kept click a minute or more older, even when an earlier
      kept click is a recent twin: with the kept clicks at 100 ms (same user and item) and
      at 0 ms (another item), a click at 60050 ms is kept. */
  lemma ScanStopsAtFirstOldClick(item: Item, other: Item)
    requires item.id != other.id
    ensures var kept := [Click(Some(item), 1, 100), Click(Some(other), 1, 0)];
      IsDuplicate(kept, Click(Some(item), 1, 60050)) == Ok(false) &&
      IsDuplicate(kept[..1], Click(Some(item), 1, 60050)) == Ok(true)
  {
    var kept := [Click(Some(item), 1, 100), Click(Some(other), 1, 0)];
    assert kept[..1] == [Click(Some(item), 1, 100)];
  }

  /** Two clicks of the same user and item within the minute: the second is dropped. */
  lemma RepeatIsDropped(c: Click, gap: int)
    requires c.item.Some? && 0 <= gap < DuplicateWindow
    ensures var clicks := [c, c.(timestamp := c.timestamp + gap)];
      Deduplicate(clicks, true) == Ok(Dedup([c], [true, false], 1))
  {
    var clicks := [c, c.(timestamp := c.timestamp + gap)];
    assert clicks[..1] == [c];
    assert [c][..0] == [];
    assert Deduplicate([], true) == Ok(Dedup([], [], 0));
    assert IsDuplicate([], c) == ScanBack([], c, -1) == Ok(false);
    assert [c][..0] == [] && [] + [c] == [c] && [] + [true] == [true];
    assert Deduplicate([c], true) == Ok(Dedup([] + [c], [] + [true], 0));
    assert IsDuplicate([c], clicks[1]) == ScanBack([c], clicks[1], 0) == Ok(true);
    assert [true] + [false] == [true, false];
  }
}
