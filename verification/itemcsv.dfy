/** The comma-separated form of an item and the `k-v#k-v` encoding of its keywords. */
module ItemCsv {
  import opened Wrappers
  import opened JavaText
  import opened Seqs
  import opened Events

  /** The date pattern `yyyy-MM-dd hh:mm:ss`, left abstract: how an instant is printed and
      how a printed date is read back (`None` where parsing throws). The pattern uses a
      12-hour clock without an AM/PM marker, so `parse(format(t))` need not be `t`. */
  datatype DateCodec = DateCodec(format: int -> string, parse: string -> Option<int>)

  /** `Object2IntOpenHashMap.addTo`: adds to the current value (0 when absent), with 32-bit
      wrap-around. */
  function AddTo(m: map<string, int>, k: string, v: int): (r: map<string, int>)
    ensures r.Keys == m.Keys + {k}
    ensures forall x :: x in m && x != k ==> r[x] == m[x]
    ensures IntMin <= (if k in m then m[k] else 0) + v <= IntMax ==> r[k] == (if k in m then m[k] else 0) + v
  {
    m[k := Wrap32((if k in m then m[k] else 0) + v)]
  }

  /** Reduction of an integer to the signed 32-bit range, as Java `int` addition does. */
  function Wrap32(x: int): (r: int)
    ensures IntMin <= r <= IntMax
    ensures IntMin <= x <= IntMax ==> r == x
  {
    (x - IntMin) % 0x1_0000_0000 + IntMin
  }

  /** One serialised keyword: the key with '-' and '#' stripped, a '-', the weight. */
  function KeywordEntry(k: string, v: int): (r: string)
    ensures '#' !in r && ',' !in k ==> ',' !in r
    ensures '-' in r
  {
    var key := RemoveChar(RemoveChar(k, '-'), '#');
    assert key + "-" + IntToString(v) == key + ['-'] + IntToString(v);
    assert (key + ['-'] + IntToString(v))[|key|] == '-';
    key + "-" + IntToString(v)
  }

  function KeywordEntries(m: map<string, int>, order: seq<string>): (r: seq<string>)
    requires forall i :: 0 <= i < |order| ==> order[i] in m
    ensures |r| == |order|
    ensures forall i :: 0 <= i < |order| ==> r[i] == KeywordEntry(order[i], m[order[i]])
  {
    seq(|order|, i requires 0 <= i < |order| => KeywordEntry(order[i], m[order[i]]))
  }

  /** The keywords field: entries in the map's iteration order `order`, joined by '#';
      null keywords give the empty field. */
  function EncodeKeywords(kw: Option<map<string, int>>, order: seq<string>): (r: string)
    requires kw.Some? ==> Enumerates(order, kw.value.Keys)
    ensures kw.None? ==> r == ""
    ensures kw.Some? ==> r == Join(KeywordEntries(kw.value, order), '#')
  {
    if kw.None? then "" else Join(KeywordEntries(kw.value, order), '#')
  }

  /** Reads '#'-separated entries, each split on '-' into key and weight; repeated keys
      add up. A missing weight or a weight that is not a number throws. */
  function DecodeEntries(entries: seq<string>, acc: map<string, int>): (r: Result<map<string, int>>)
    ensures r.Ok? ==> acc.Keys <= r.value.Keys
    decreases |entries|
  {
    if |entries| == 0 then Ok(acc)
    else
      var kv := Split(entries[0], '-');
      if |kv| < 2 then Err("ArrayIndexOutOfBoundsException")
      else
        match ParseInt(kv[1])
        case None => Err("NumberFormatException")
        case Some(v) => DecodeEntries(entries[1..], AddTo(acc, kv[0], v))
  }

  function DecodeKeywords(field: string): Result<map<string, int>> {
    DecodeEntries(Split(field, '#'), map[])
  }

  /** A keyword map that survives encoding: not empty, keys free of the three separators,
      weights non-negative 32-bit numbers. */
  ghost predicate Encodable(m: map<string, int>) {
    |m| > 0 &&
    forall k :: k in m ==> '-' !in k && '#' !in k && ',' !in k && 0 <= m[k] <= IntMax
  }

  lemma EntrySplits(k: string, v: int)
    requires '-' !in k && '#' !in k && 0 <= v
    ensures Split(KeywordEntry(k, v), '-') == [k, IntToString(v)]
  {
    var d := IntToString(v);
    assert RemoveChar(RemoveChar(k, '-'), '#') == k;
    assert Join([k, d], '-') == KeywordEntry(k, v);
    SplitJoin([k, d], '-');
  }

  /** The part of `m` whose keys come first in `order`. */
  function Prefix(m: map<string, int>, order: seq<string>, j: nat): map<string, int>
    requires j <= |order| && forall i :: 0 <= i < |order| ==> order[i] in m
  {
    map k | k in order[..j] :: m[k]
  }

  lemma PrefixStep(m: map<string, int>, order: seq<string>, j: nat)
    requires Enumerates(order, m.Keys) && j < |order|
    ensures order[j] !in Prefix(m, order, j)
    ensures Prefix(m, order, j + 1) == Prefix(m, order, j)[order[j] := m[order[j]]]
  {
    assert order[..j + 1] == order[..j] + [order[j]];
    assert forall i :: 0 <= i < j ==> order[i] != order[j];
  }

  lemma PrefixAll(m: map<string, int>, order: seq<string>)
    requires Enumerates(order, m.Keys)
    ensures Prefix(m, order, |order|) == m
    ensures Prefix(m, order, 0) == map[]
  {
    assert order[..|order|] == order;
  }

  lemma DecodeStep(k: string, v: int, acc: map<string, int>, rest: seq<string>)
    requires '-' !in k && '#' !in k && 0 <= v <= IntMax && k !in acc
    ensures DecodeEntries([KeywordEntry(k, v)] + rest, acc) == DecodeEntries(rest, acc[k := v])
  {
    EntrySplits(k, v);
    ParsePrintedInt(v);
    var es := [KeywordEntry(k, v)] + rest;
    assert es[0] == KeywordEntry(k, v) && es[1..] == rest;
    assert AddTo(acc, k, v) == acc[k := v];
  }

  lemma SliceHead<T>(s: seq<T>, j: nat)
    requires j < |s|
    ensures s[j..] == [s[j]] + s[j + 1..]
  {
  }

  lemma DecodeOneMore(m: map<string, int>, order: seq<string>, j: nat)
    requires Encodable(m) && Enumerates(order, m.Keys) && j < |order|
    ensures DecodeEntries(KeywordEntries(m, order)[j..], Prefix(m, order, j))
            == DecodeEntries(KeywordEntries(m, order)[j + 1..], Prefix(m, order, j + 1))
  {
    var es := KeywordEntries(m, order);
    var k := order[j];
    var v := m[k];
    PrefixStep(m, order, j);
    SliceHead(es, j);
    assert k in m;
    assert '-' !in k && '#' !in k && 0 <= v <= IntMax;
    DecodeStep(k, v, Prefix(m, order, j), es[j + 1..]);
  }

  lemma {:induction false} DecodeEncoded(m: map<string, int>, order: seq<string>, j: nat)
    requires Encodable(m) && Enumerates(order, m.Keys) && j <= |order|
    ensures DecodeEntries(KeywordEntries(m, order)[j..], Prefix(m, order, j)) == Ok(m)
    decreases |order| - j
  {
    var es := KeywordEntries(m, order);
    if j == |order| {
      PrefixAll(m, order);
    } else {
      DecodeOneMore(m, order, j);
      DecodeEncoded(m, order, j + 1);
    }
  }

  /** Decoding undoes encoding for every encodable keyword map, whatever the iteration
      order used to write it. */
  lemma KeywordsRoundTrip(m: map<string, int>, order: seq<string>)
    requires Encodable(m) && Enumerates(order, m.Keys)
    ensures DecodeKeywords(EncodeKeywords(Some(m), order)) == Ok(m)
  {
    var es := KeywordEntries(m, order);
    assert |order| > 0 by {
      var k :| k in m;
      assert k in order;
    }
    forall i | 0 <= i < |es| ensures '#' !in es[i] {
      NoHashInEntry(order[i], m[order[i]]);
    }
    assert NoSep(es, '#');
    assert '-' in es[|es| - 1];
    SplitJoin(es, '#');
    assert Split(EncodeKeywords(Some(m), order), '#') == es;
    PrefixAll(m, order);
    DecodeEncoded(m, order, 0);
    assert es[0..] == es;
    assert DecodeEntries(es, map[]) == Ok(m);
  }

  lemma NoHashInEntry(k: string, v: int)
    ensures '#' !in KeywordEntry(k, v)
  {
    var key := RemoveChar(RemoveChar(k, '-'), '#');
    var d := IntToString(v);
    assert KeywordEntry(k, v) == key + "-" + d;
  }

  // ---------------------------------------------------------------------------
  // Items

  /** The text field as written: a null text prints as "null". */
  function TextField(t: Option<string>): string {
    if t.None? then "null" else t.value
  }

  /** The eight fields of an item line. */
  function ItemFields(i: Item, dates: DateCodec, order: seq<string>): (r: seq<string>)
    requires i.keywords.Some? ==> Enumerates(order, i.keywords.value.Keys)
    ensures |r| == 8
    ensures r[0] == IntToString(i.publisher) && r[1] == dates.format(i.createdAt)
    ensures r[2] == IntToString(i.id) && r[3] == i.url && r[4] == i.title
    ensures r[5] == IntToString(i.category) && r[6] == TextField(i.text)
    ensures r[7] == EncodeKeywords(i.keywords, order)
  {
    [IntToString(i.publisher), dates.format(i.createdAt), IntToString(i.id), i.url, i.title,
     IntToString(i.category), TextField(i.text), EncodeKeywords(i.keywords, order)]
  }

  /** `Item.toString`: publisher, date, id, url, title, category, text, keywords. */
  function ItemToString(i: Item, dates: DateCodec, order: seq<string>): string
    requires i.keywords.Some? ==> Enumerates(order, i.keywords.value.Keys)
  {
    Join(ItemFields(i, dates, order), ',')
  }

  /** The item constructor from a CSV line: fields 0-4 are required; category, text and
      keywords are read only when the line has more than 5, 6 and 7 fields. */
  function ParseItem(line: string, dates: DateCodec): Result<Item> {
    ParseItemFields(Split(line, ','), dates)
  }

  /** The item constructor on the fields of the line. */
  function ParseItemFields(f: seq<string>, dates: DateCodec): (r: Result<Item>)
    ensures r.Ok? <==> (|f| >= 5 && ParseInt(f[0]).Some? && dates.parse(f[1]).Some? && ParseLong(f[2]).Some? &&
                        (|f| > 5 ==> ParseInt(f[5]).Some?) && (|f| > 7 ==> DecodeKeywords(f[7]).Ok?))
    ensures r.Ok? ==>
      Some(r.value.publisher) == ParseInt(f[0]) && Some(r.value.id) == ParseLong(f[2]) &&
      Some(r.value.createdAt) == dates.parse(f[1]) &&
      r.value.url == f[3] && r.value.title == f[4] &&
      (|f| > 5 ==> ParseInt(f[5]) == Some(r.value.category)) &&
      (|f| <= 5 ==> r.value.category == 0) &&
      (r.value.text.Some? <==> |f| > 6) &&
      (r.value.keywords.Some? <==> |f| > 7)
    ensures r.Ok? && |f| > 6 ==> r.value.text == Some(f[6])
    ensures r.Ok? && |f| > 7 ==> DecodeKeywords(f[7]) == Ok(r.value.keywords.value)
  {
    if |f| < 1 then Err("ArrayIndexOutOfBoundsException")
    else match ParseInt(f[0])
    case None => Err("NumberFormatException")
    case Some(publisher) =>
      if |f| < 2 then Err("ArrayIndexOutOfBoundsException")
      else match dates.parse(f[1])
      case None => Err("ParseException")
      case Some(createdAt) =>
        if |f| < 3 then Err("ArrayIndexOutOfBoundsException")
        else match ParseLong(f[2])
        case None => Err("NumberFormatException")
        case Some(id) =>
          if |f| < 5 then Err("ArrayIndexOutOfBoundsException")
          else
            var category := if |f| > 5 then ParseInt(f[5]) else Some(0);
            if category.None? then Err("NumberFormatException")
            else
              var text := if |f| > 6 then Some(f[6]) else None;
              var base := Item(publisher, createdAt, id, f[3], f[4], category.value, text, None);
              if |f| > 7 then
                match DecodeKeywords(f[7])
                case Err(e) => Err(e)
                case Ok(kw) => Ok(base.(keywords := Some(kw)))
              else Ok(base)
  }

  /** The numeric fields fit their Java types and no text field holds a comma. */
  ghost predicate Writable(i: Item, dates: DateCodec) {
    IntMin <= i.publisher <= IntMax && IntMin <= i.category <= IntMax &&
    LongMin <= i.id <= LongMax &&
    ',' !in i.url && ',' !in i.title && ',' !in dates.format(i.createdAt) &&
    (i.text.Some? ==> ',' !in i.text.value)
  }

  lemma WritableFields(i: Item, dates: DateCodec, order: seq<string>)
    requires Writable(i, dates)
    requires i.keywords.Some? ==> Encodable(i.keywords.value) && Enumerates(order, i.keywords.value.Keys)
    ensures NoSep(ItemFields(i, dates, order), ',')
  {
    var f := ItemFields(i, dates, order);
    if i.keywords.Some? {
      var es := KeywordEntries(i.keywords.value, order);
      forall j | 0 <= j < |es| ensures ',' !in es[j] && '#' !in es[j] {
        NoHashInEntry(order[j], i.keywords.value[order[j]]);
      }
      JoinNoSep(es, '#', ',');
    }
  }

  lemma {:induction false} JoinNoSep(parts: seq<string>, sep: char, c: char)
    requires c != sep && NoSep(parts, c)
    ensures c !in Join(parts, sep)
  {
    if |parts| > 1 {
      JoinNoSep(parts[1..], sep, c);
      assert Join(parts, sep) == parts[0] + [sep] + Join(parts[1..], sep);
    }
  }

  /** The fields of a writable item parse back to the item, up to the date. */
  lemma ItemOfFields(i: Item, dates: DateCodec, order: seq<string>, f: seq<string>)
    requires Writable(i, dates) && i.text.Some?
    requires i.keywords.Some? ==> Encodable(i.keywords.value) && Enumerates(order, i.keywords.value.Keys)
    requires dates.parse(dates.format(i.createdAt)).Some?
    requires var g := ItemFields(i, dates, order); f == if i.keywords.Some? then g else g[..7]
    ensures ParseItemFields(f, dates) == Ok(i.(createdAt := dates.parse(dates.format(i.createdAt)).value))
  {
    ParsePrintedInt(i.publisher);
    ParsePrintedInt(i.category);
    ParsePrintedLong(i.id);
    if i.keywords.Some? {
      KeywordsRoundTrip(i.keywords.value, order);
    }
  }

  /** Reading back a written item with encodable keywords and a text gives the item, with
      `createdAt` replaced by what the date pattern reads back from its own output. */
  lemma ItemRoundTrip(i: Item, dates: DateCodec, order: seq<string>)
    requires Writable(i, dates) && i.text.Some?
    requires i.keywords.Some? && Encodable(i.keywords.value) && Enumerates(order, i.keywords.value.Keys)
    requires dates.parse(dates.format(i.createdAt)).Some?
    ensures ParseItem(ItemToString(i, dates, order), dates)
            == Ok(i.(createdAt := dates.parse(dates.format(i.createdAt)).value))
  {
    var f := ItemFields(i, dates, order);
    WritableFields(i, dates, order);
    KeywordNonEmpty(i.keywords.value, order);
    SplitJoin(f, ',');
    ItemOfFields(i, dates, order, f);
  }

  lemma KeywordNonEmpty(m: map<string, int>, order: seq<string>)
    requires Encodable(m) && Enumerates(order, m.Keys)
    ensures EncodeKeywords(Some(m), order) != ""
  {
    var k :| k in m;
    assert k in order;
    var es := KeywordEntries(m, order);
    assert '-' in es[0];
    JoinLength(es, '#');
  }

  lemma JoinLength(parts: seq<string>, sep: char)
    requires |parts| > 0
    ensures |Join(parts, sep)| >= |parts[0]|
  {
  }

  /** Null keywords write an empty last field, which `split` drops: the item reads back
      with null keywords, provided the text field before it is not empty. */
  lemma ItemRoundTripNoKeywords(i: Item, dates: DateCodec, order: seq<string>)
    requires Writable(i, dates) && i.text.Some? && i.text.value != "" && i.keywords.None?
    requires dates.parse(dates.format(i.createdAt)).Some?
    ensures ParseItem(ItemToString(i, dates, order), dates)
            == Ok(i.(createdAt := dates.parse(dates.format(i.createdAt)).value))
  {
    var f := ItemFields(i, dates, order);
    WritableFields(i, dates, order);
    SplitJoinEmptyLast(f, ',');
    ItemOfFields(i, dates, order, f[..7]);
  }

  /** An empty keyword map is written like null keywords, so it reads back as null. */
  lemma EmptyKeywordsReadBackNull(i: Item, dates: DateCodec)
    requires Writable(i, dates) && i.text.Some? && i.text.value != "" && i.keywords == Some(map[])
    requires dates.parse(dates.format(i.createdAt)).Some?
    ensures ParseItem(ItemToString(i, dates, []), dates)
            == Ok(i.(createdAt := dates.parse(dates.format(i.createdAt)).value, keywords := None))
  {
    var j := i.(keywords := None);
    assert ItemFields(i, dates, []) == ItemFields(j, dates, []);
    ItemRoundTripNoKeywords(j, dates, []);
  }

  /** A null text is written as "null" and reads back as the four-letter text "null". */
  lemma NullTextReadsBackAsWord(i: Item, dates: DateCodec, order: seq<string>)
    requires Writable(i, dates) && i.text.None?
    requires i.keywords.Some? && Encodable(i.keywords.value) && Enumerates(order, i.keywords.value.Keys)
    requires dates.parse(dates.format(i.createdAt)).Some?
    ensures ParseItem(ItemToString(i, dates, order), dates)
            == Ok(i.(createdAt := dates.parse(dates.format(i.createdAt)).value, text := Some("null")))
  {
    var j := i.(text := Some("null"));
    assert ',' !in "null";
    assert Writable(j, dates);
    assert ItemFields(i, dates, order) == ItemFields(j, dates, order) by {
      var a, b := ItemFields(i, dates, order), ItemFields(j, dates, order);
      assert a[6] == b[6];
      assert forall k | 0 <= k < 8 :: a[k] == b[k];
    }
    ItemRoundTrip(j, dates, order);
    assert j.(createdAt := dates.parse(dates.format(i.createdAt)).value)
        == i.(createdAt := dates.parse(dates.format(i.createdAt)).value, text := Some("null"));
  }
}
