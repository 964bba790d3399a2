/** The intermediate plista record used while converting raw logs: a click that also
    carries publisher, category and keywords, and its comma-separated form. */
module PlistaCsv {
  import opened Wrappers
  import opened JavaText
  import opened Seqs
  import opened Events
  import ItemCsv
  import TransactionCsv

  datatype PlistaRecord = PlistaRecord(
    publisher: int,
    item: Option<Item>,
    category: int,
    cookie: int,
    timestamp: int,
    keywords: Option<map<string, int>>)

  /** Parsing may rewrite the category of a shared item, so it yields the item map after
      the parse alongside the record (or the exception). */
  datatype PlistaParse = PlistaParse(record: Result<PlistaRecord>, items: map<int, Item>)

  /** The six fields of a record line. */
  function PlistaFields(x: PlistaRecord, order: seq<string>): (r: seq<string>)
    requires x.keywords.Some? ==> Enumerates(order, x.keywords.value.Keys)
    ensures |r| == 6
  {
    [IntToString(x.publisher), IntToString(x.category), TransactionCsv.ItemIdField(x.item),
     IntToString(x.cookie), IntToString(x.timestamp), ItemCsv.EncodeKeywords(x.keywords, order)]
  }

  /** `TmpPlistaTransaction.toString`: publisher, category, item id ("null" if absent),
      cookie, timestamp, keywords. */
  function PlistaToString(x: PlistaRecord, order: seq<string>): string
    requires x.keywords.Some? ==> Enumerates(order, x.keywords.value.Keys)
  {
    Join(PlistaFields(x, order), ',')
  }

  /** What the first three fields give: publisher, item and category after the category
      reconciliation, and the item map with the reconciled item. */
  datatype Head = Head(publisher: int, item: Option<Item>, category: int, items: map<int, Item>)

  /** Fields 0-2 of the record constructor. The item is looked up only when field 2 is not
      "null", the category is read only when field 1 is not "null" (0 otherwise). A found
      item with category 0 takes the line's category, in the shared map; otherwise the
      record takes the item's category. */
  function ParseHead(f: seq<string>, items: map<int, Item>): (r: Result<Head>)
    ensures r.Ok? ==> |f| >= 3 && ParseInt(f[0]) == Some(r.value.publisher)
    ensures r.Ok? && f[2] == "null" ==> r.value.item.None? && r.value.items == items
    ensures r.Ok? && r.value.item.None? ==> r.value.items == items
    ensures r.Ok? && f[1] == "null" && r.value.item.None? ==> r.value.category == 0
    ensures r.Ok? && r.value.item.Some? ==>
      var it := r.value.item.value;
      ParseLong(f[2]).Some? && ParseLong(f[2]).value in items &&
      var k := ParseLong(f[2]).value;
      r.value.items == items[k := it] && it == items[k].(category := it.category) &&
      it.category == r.value.category &&
      (items[k].category != 0 ==> it == items[k])
  {
    if |f| < 1 then Err("ArrayIndexOutOfBoundsException")
    else match ParseInt(f[0])
    case None => Err("NumberFormatException")
    case Some(publisher) =>
      if |f| < 3 then Err("ArrayIndexOutOfBoundsException")
      else
        var idR := if f[2] == "null" then Some(None) else
                   match ParseLong(f[2]) case None => None case Some(id) => Some(Some(id));
        if idR.None? then Err("NumberFormatException")
        else
          var catR := if f[1] == "null" then Some(0) else ParseInt(f[1]);
          if catR.None? then Err("NumberFormatException")
          else if idR.value.Some? && idR.value.value in items then
            var k := idR.value.value;
            var found := items[k];
            var category := if found.category != 0 then found.category else catR.value;
            var item := found.(category := category);
            Ok(Head(publisher, Some(item), category, items[k := item]))
          else Ok(Head(publisher, None, catR.value, items))
  }

  /** Fields 3-5: cookie, timestamp and, when there are more than five fields, keywords. */
  function ParseTail(f: seq<string>, h: Head): (r: PlistaParse)
    requires |f| >= 3
    ensures r.items == h.items
    ensures r.record.Ok? ==> (|f| >= 5 &&
      r.record.value.publisher == h.publisher && r.record.value.item == h.item &&
      r.record.value.category == h.category &&
      ParseLong(f[3]) == Some(r.record.value.cookie) &&
      ParseLong(f[4]) == Some(r.record.value.timestamp) &&
      (r.record.value.keywords.Some? <==> |f| > 5))
  {
    if |f| < 4 then PlistaParse(Err("ArrayIndexOutOfBoundsException"), h.items)
    else match ParseLong(f[3])
    case None => PlistaParse(Err("NumberFormatException"), h.items)
    case Some(cookie) =>
      if |f| < 5 then PlistaParse(Err("ArrayIndexOutOfBoundsException"), h.items)
      else match ParseLong(f[4])
      case None => PlistaParse(Err("NumberFormatException"), h.items)
      case Some(ts) =>
        var base := PlistaRecord(h.publisher, h.item, h.category, cookie, ts, None);
        if |f| > 5 then
          match ItemCsv.DecodeKeywords(f[5])
          case Err(e) => PlistaParse(Err(e), h.items)
          case Ok(kw) => PlistaParse(Ok(base.(keywords := Some(kw))), h.items)
        else PlistaParse(Ok(base), h.items)
  }

  /** The record constructor: fields 0-2, then fields 3-5. An exception after the category
      reconciliation leaves the rewritten item in the map. */
  function ParsePlista(line: string, items: map<int, Item>): PlistaParse {
    var f := Split(line, ',');
    match ParseHead(f, items)
    case Err(e) => PlistaParse(Err(e), items)
    case Ok(h) => ParseTail(f, h)
  }

  /** A parse rewrites only a stored item whose category is 0, and only its category:
      every other stored item is left as it was. */
  lemma ParseKeepsCategorised(line: string, items: map<int, Item>, k: int)
    requires k in items
    ensures k in ParsePlista(line, items).items
    ensures ParsePlista(line, items).items[k] == items[k].(category := ParsePlista(line, items).items[k].category)
    ensures items[k].category != 0 ==> ParsePlista(line, items).items[k] == items[k]
  {
  }

  /** `toTransaction`: the same item and time, with the cookie as user id. */
  function ToClick(x: PlistaRecord): (c: Click)
    ensures c.item == x.item && c.userId == x.cookie && c.timestamp == x.timestamp
  {
    Click(x.item, x.cookie, x.timestamp)
  }

  /** A record as it comes out of a parse: numbers in range, item (if any) stored in the
      map under its id with the record's category, keywords absent or encodable. */
  ghost predicate Consistent(x: PlistaRecord, items: map<int, Item>) {
    IntMin <= x.publisher <= IntMax && IntMin <= x.category <= IntMax &&
    LongMin <= x.cookie <= LongMax && LongMin <= x.timestamp <= LongMax &&
    (x.item.Some? ==> LongMin <= x.item.value.id <= LongMax && x.item.value.id in items &&
                      items[x.item.value.id] == x.item.value && x.item.value.category == x.category) &&
    (x.keywords.Some? ==> ItemCsv.Encodable(x.keywords.value))
  }

  lemma NoCommaInKeywords(m: map<string, int>, order: seq<string>)
    requires ItemCsv.Encodable(m) && Enumerates(order, m.Keys)
    ensures ',' !in ItemCsv.EncodeKeywords(Some(m), order)
  {
    var es := ItemCsv.KeywordEntries(m, order);
    forall j | 0 <= j < |es| ensures ',' !in es[j] {
      ItemCsv.NoHashInEntry(order[j], m[order[j]]);
    }
    ItemCsv.JoinNoSep(es, '#', ',');
  }

  lemma HeadOfFields(x: PlistaRecord, items: map<int, Item>, f: seq<string>)
    requires Consistent(x, items) && |f| >= 3
    requires f[0] == IntToString(x.publisher) && f[1] == IntToString(x.category)
    requires f[2] == TransactionCsv.ItemIdField(x.item)
    ensures ParseHead(f, items) == Ok(Head(x.publisher, x.item, x.category, items))
  {
    ParsePrintedInt(x.publisher);
    ParsePrintedInt(x.category);
    assert IntToString(x.category) != "null";
    if x.item.Some? {
      ParsePrintedLong(x.item.value.id);
      assert IntToString(x.item.value.id) != "null";
      assert items[x.item.value.id := x.item.value] == items;
    }
  }

  lemma TailOfFields(x: PlistaRecord, items: map<int, Item>, f: seq<string>, order: seq<string>)
    requires Consistent(x, items) && |f| >= 5
    requires x.keywords.Some? ==> Enumerates(order, x.keywords.value.Keys)
    requires f[3] == IntToString(x.cookie) && f[4] == IntToString(x.timestamp)
    requires x.keywords.None? ==> |f| == 5
    requires x.keywords.Some? ==> |f| == 6 && f[5] == ItemCsv.EncodeKeywords(x.keywords, order)
    ensures ParseTail(f, Head(x.publisher, x.item, x.category, items)) == PlistaParse(Ok(x), items)
  {
    ParsePrintedLong(x.cookie);
    ParsePrintedLong(x.timestamp);
    if x.keywords.Some? {
      ItemCsv.KeywordsRoundTrip(x.keywords.value, order);
    }
  }

  /** The fields a consistent record writes are read back as the record. */
  lemma ParseOfFields(x: PlistaRecord, items: map<int, Item>, order: seq<string>, line: string)
    requires Consistent(x, items)
    requires x.keywords.Some? ==> Enumerates(order, x.keywords.value.Keys)
    requires var f := PlistaFields(x, order);
      Split(line, ',') == (if x.keywords.Some? then f else f[..5])
    ensures ParsePlista(line, items) == PlistaParse(Ok(x), items)
  {
    var f := Split(line, ',');
    var g := PlistaFields(x, order);
    assert |f| >= 5 && f[..5] == g[..5];
    assert f[0] == g[0] && f[1] == g[1] && f[2] == g[2] && f[3] == g[3] && f[4] == g[4];
    assert x.keywords.Some? ==> |f| == 6 && f[5] == g[5];
    HeadOfFields(x, items, f);
    TailOfFields(x, items, f, order);
    var h := Head(x.publisher, x.item, x.category, items);
    assert ParseHead(f, items) == Ok(h);
    assert ParsePlista(line, items) == ParseTail(f, h);
  }

  /** Writing a consistent record and reading it back restores the record and leaves the
      item map as it was. */
  lemma PlistaRoundTrip(x: PlistaRecord, items: map<int, Item>, order: seq<string>)
    requires Consistent(x, items)
    requires x.keywords.Some? ==> Enumerates(order, x.keywords.value.Keys)
    ensures ParsePlista(PlistaToString(x, order), items) == PlistaParse(Ok(x), items)
  {
    var f := PlistaFields(x, order);
    var line := PlistaToString(x, order);
    if x.keywords.Some? {
      NoCommaInKeywords(x.keywords.value, order);
      assert NoSep(f, ',');
      ItemCsv.KeywordNonEmpty(x.keywords.value, order);
      SplitJoin(f, ',');
    } else {
      assert NoSep(f, ',');
      SplitJoinEmptyLast(f, ',');
    }
    ParseOfFields(x, items, order, line);
  }

  /** A consistent record written and read back converts to the click of the record's
      cookie, item and time, and its item is the one the map stores under its id. */
  lemma PlistaToClick(x: PlistaRecord, items: map<int, Item>, order: seq<string>)
    requires Consistent(x, items)
    requires x.keywords.Some? ==> Enumerates(order, x.keywords.value.Keys)
    ensures var p := ParsePlista(PlistaToString(x, order), items);
      p.record.Ok? &&
      var c := ToClick(p.record.value);
      c.userId == x.cookie && c.timestamp == x.timestamp && c.item == x.item &&
      (HasItem(c) ==> ItemId(c) in p.items && p.items[ItemId(c)] == c.item.value)
  {
    PlistaRoundTrip(x, items, order);
  }
}
