/** The comma-separated form of a click: `itemId,userId,timestamp`, or, in the older
    plista-derived layout, the same three values in fields 2, 3 and 4. */
module TransactionCsv {
  import opened Wrappers
  import opened JavaText
  import opened Events

  /** The item id field: "null" when the click has no item. */
  function ItemIdField(item: Option<Item>): string {
    if item.None? then "null" else IntToString(item.value.id)
  }

  /** The three fields of a click line. */
  function ClickFields(c: Click): seq<string> {
    [ItemIdField(c.item), IntToString(c.userId), IntToString(c.timestamp)]
  }

  /** `Transaction.toString`: item id, user id and timestamp, comma-separated. */
  function ClickToString(c: Click): string {
    Join(ClickFields(c), ',')
  }

  /** The transaction constructor: item id, user id and timestamp from fields 0-2 (new
      layout) or 2-4 (old layout); an item id missing from `items` gives a null item. */
  function ParseClick(line: string, items: map<int, Item>, oldFormat: bool): (r: Result<Click>)
    ensures r.Ok? ==> var f := Split(line, ','); var base := if oldFormat then 2 else 0;
      |f| > base + 2 &&
      ParseLong(f[base]).Some? &&
      (ParseLong(f[base]).value in items ==> r.value.item == Some(items[ParseLong(f[base]).value])) &&
      (ParseLong(f[base]).value !in items ==> r.value.item.None?) &&
      ParseLong(f[base + 1]) == Some(r.value.userId) &&
      ParseLong(f[base + 2]) == Some(r.value.timestamp)
  {
    var f := Split(line, ',');
    var base := if oldFormat then 2 else 0;
    if |f| <= base then Err("ArrayIndexOutOfBoundsException")
    else match ParseLong(f[base])
    case None => Err("NumberFormatException")
    case Some(id) =>
      var item := if id in items then Some(items[id]) else None;
      if |f| <= base + 1 then Err("ArrayIndexOutOfBoundsException")
      else match ParseLong(f[base + 1])
      case None => Err("NumberFormatException")
      case Some(userId) =>
        if |f| <= base + 2 then Err("ArrayIndexOutOfBoundsException")
        else match ParseLong(f[base + 2])
        case None => Err("NumberFormatException")
        case Some(ts) => Ok(Click(item, userId, ts))
  }

  ghost predicate InLongRange(c: Click) {
    LongMin <= c.userId <= LongMax && LongMin <= c.timestamp <= LongMax &&
    (c.item.Some? ==> LongMin <= c.item.value.id <= LongMax)
  }

  /** A click with an item, written and read back in the new layout with a map that knows
      its item, is restored exactly. */
  lemma ClickRoundTrip(c: Click, items: map<int, Item>)
    requires InLongRange(c) && c.item.Some?
    requires c.item.value.id in items && items[c.item.value.id] == c.item.value
    ensures ParseClick(ClickToString(c), items, false) == Ok(c)
  {
    var f := ClickFields(c);
    assert NoSep(f, ',');
    SplitJoin(f, ',');
    ParsePrintedLong(c.item.value.id);
    ParsePrintedLong(c.userId);
    ParsePrintedLong(c.timestamp);
  }

  /** A click without an item is written with the id "null", which does not parse: such a
      line cannot be read back, in the new layout because of the id and in the old one
      because the three written fields are too few. */
  lemma NullItemUnreadable(c: Click, items: map<int, Item>, oldFormat: bool)
    requires c.item.None?
    ensures ParseClick(ClickToString(c), items, oldFormat).Err?
  {
    var f := ClickFields(c);
    assert NoSep(f, ',');
    SplitJoin(f, ',');
    assert !IsDigit('n');
  }

  /** The old layout reads the fields two places further on: the first two fields are
      ignored. */
  lemma OldLayoutSkipsTwoFields(a: string, b: string, c: Click, items: map<int, Item>)
    requires InLongRange(c) && c.item.Some?
    requires c.item.value.id in items && items[c.item.value.id] == c.item.value
    requires ',' !in a && ',' !in b
    ensures ParseClick(Join([a, b] + ClickFields(c), ','), items, true) == Ok(c)
  {
    var f := [a, b] + ClickFields(c);
    assert NoSep(f, ',');
    SplitJoin(f, ',');
    ParsePrintedLong(c.item.value.id);
    ParsePrintedLong(c.userId);
    ParsePrintedLong(c.timestamp);
  }

  /** A click sorts by its timestamp. */
  lemma ClickEventTime(c: Click)
    ensures EventTime(ClickEvent(c)) == c.timestamp
  {
  }
}
