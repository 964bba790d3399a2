/** The records of the data set: news items (articles), clicks (transactions), the
    event union both belong to, and the per-click context handed to algorithms. */
module Events {
  import opened Wrappers
  import JavaText

  /** An article with its meta data. Dates are milliseconds since the epoch; text and
      keywords may be null. Keywords map a keyword to an integer weight. */
  datatype Item = Item(
    publisher: int,
    createdAt: int,
    id: int,
    url: string,
    title: string,
    category: int,
    text: Option<string>,
    keywords: Option<map<string, int>>)

  /** A click of a user on an item; the item is null when its id was not in the item
      file. */
  datatype Click = Click(item: Option<Item>, userId: int, timestamp: int)

  /** An event of the merged stream: a publication or a click. */
  datatype Event = ItemEvent(item: Item) | ClickEvent(click: Click)

  /** What an algorithm sees of a click: the click, its session so far and all of the
      user's clicks so far. */
  datatype ClickData = ClickData(click: Click, session: seq<Click>, wholeUserHistory: seq<Click>)

  /** The sorting criterion of the merged stream: publication time for items, click time
      for clicks. */
  function EventTime(e: Event): (t: int)
    ensures e.ItemEvent? ==> t == e.item.createdAt
    ensures e.ClickEvent? ==> t == e.click.timestamp
  {
    match e
    case ItemEvent(i) => i.createdAt
    case ClickEvent(c) => c.timestamp
  }

  predicate HasItem(c: Click) {
    c.item.Some?
  }

  /** The clicked item's id; the source dereferences the item, so it must be present. */
  function ItemId(c: Click): int
    requires HasItem(c)
  {
    c.item.value.id
  }

  predicate AllHaveItems(s: seq<Click>) {
    forall i :: 0 <= i < |s| ==> HasItem(s[i])
  }

  /** The item ids of a list of clicks, as a set. */
  function ItemIds(s: seq<Click>): (r: set<int>)
    requires AllHaveItems(s)
    ensures forall i :: 0 <= i < |s| ==> ItemId(s[i]) in r
    ensures forall x :: x in r ==> exists i :: 0 <= i < |s| && ItemId(s[i]) == x
  {
    set i | 0 <= i < |s| :: ItemId(s[i])
  }

  /** The item ids of a list of clicks, in click order, repetitions included. */
  function ItemIdSeq(s: seq<Click>): (r: seq<int>)
    requires AllHaveItems(s)
    ensures |r| == |s| && forall i :: 0 <= i < |s| ==> r[i] == ItemId(s[i])
  {
    seq(|s|, i requires 0 <= i < |s| => ItemId(s[i]))
  }

  /** Every click of a training batch names an item. */
  predicate AllClicked(clicks: seq<ClickData>) {
    forall i :: 0 <= i < |clicks| ==> HasItem(clicks[i].click)
  }

  /** The clicked item ids of a training batch, in click order. */
  function ClickedIds(clicks: seq<ClickData>): (r: seq<int>)
    requires AllClicked(clicks)
    ensures |r| == |clicks| && forall i :: 0 <= i < |clicks| ==> r[i] == ItemId(clicks[i].click)
  {
    seq(|clicks|, i requires 0 <= i < |clicks| => ItemId(clicks[i].click))
  }

  /** Item equality: two items are the same article iff their ids agree. */
  predicate SameItem(a: Item, b: Item) {
    a.id == b.id
  }

  /** `Long.hashCode`: the two 32-bit halves of the two's-complement value xor-ed and read
      as a signed 32-bit number. */
  function LongHashCode(v: int): (h: int)
    requires JavaText.LongMin <= v <= JavaText.LongMax
    ensures JavaText.IntMin <= h <= JavaText.IntMax
  {
    var u := v % 0x1_0000_0000_0000_0000;
    var lo, hi := u % 0x1_0000_0000, u / 0x1_0000_0000;
    Pow2Value();
    XorBound(lo, hi, 32);
    var folded := Xor(lo, hi);
    if folded >= 0x8000_0000 then folded - 0x1_0000_0000 else folded
  }

  function Pow2(n: nat): (r: nat)
    ensures r > 0
  {
    if n == 0 then 1 else 2 * Pow2(n - 1)
  }

  /** Bitwise exclusive or of two non-negative numbers. */
  function Xor(a: nat, b: nat): nat
    decreases a + b
  {
    if a == 0 && b == 0 then 0
    else (if a % 2 == b % 2 then 0 else 1) + 2 * Xor(a / 2, b / 2)
  }

  /** The exclusive or of two `n`-bit numbers has `n` bits. */
  lemma {:induction false} XorBound(a: nat, b: nat, n: nat)
    requires a < Pow2(n) && b < Pow2(n)
    ensures Xor(a, b) < Pow2(n)
    decreases n
  {
    if n > 0 && (a > 0 || b > 0) {
      XorBound(a / 2, b / 2, n - 1);
    }
  }

  /** Exclusive or with zero, on either side, changes nothing. */
  lemma {:induction false} XorZero(a: nat)
    ensures Xor(a, 0) == a && Xor(0, a) == a
    decreases a
  {
    if a > 0 {
      XorZero(a / 2);
    }
  }

  /** Exclusive or with `n` one bits complements an `n`-bit number. */
  lemma {:induction false} XorOnes(a: nat, n: nat)
    requires a < Pow2(n)
    ensures Xor(a, Pow2(n) - 1) == Pow2(n) - 1 - a
    decreases n
  {
    if n > 0 {
      XorOnes(a / 2, n - 1);
      assert (Pow2(n) - 1) / 2 == Pow2(n - 1) - 1;
    }
  }

  /** The item's hash code, taken from its id alone. */
  function ItemHashCode(i: Item): int
    requires JavaText.LongMin <= i.id <= JavaText.LongMax
  {
    LongHashCode(i.id)
  }

  /** Equal items have equal hash codes, and item equality is an equivalence. */
  lemma SameItemConsistent(a: Item, b: Item, c: Item)
    requires JavaText.LongMin <= a.id <= JavaText.LongMax
    requires JavaText.LongMin <= b.id <= JavaText.LongMax
    ensures SameItem(a, b) ==> ItemHashCode(a) == ItemHashCode(b)
    ensures SameItem(a, a)
    ensures SameItem(a, b) ==> SameItem(b, a)
    ensures SameItem(a, b) && SameItem(b, c) ==> SameItem(a, c)
  {
  }

  /** A long within the int range hashes to itself when non-negative and to its bitwise
      complement `-1 - v` when negative: the high half is all zero or all one bits. */
  lemma IntRangeHash(v: int)
    requires JavaText.IntMin <= v <= JavaText.IntMax
    ensures LongHashCode(v) == if v >= 0 then v else -1 - v
  {
    if v >= 0 {
      XorZero(v);
    } else {
      Pow2Value();
      XorOnes(v + 0x1_0000_0000, 32);
    }
  }

  /** A non-negative long whose low half is zero hashes to its high half. */
  lemma HighHalfHash(h: int)
    requires 0 <= h <= JavaText.IntMax
    ensures LongHashCode(h * 0x1_0000_0000) == h
  {
    XorZero(h);
  }

  lemma {:induction false} Pow2Add(a: nat, b: nat)
    ensures Pow2(a + b) == Pow2(a) * Pow2(b)
    decreases a
  {
    if a > 0 {
      Pow2Add(a - 1, b);
    }
  }

  lemma Pow2Value()
    ensures Pow2(32) == 0x1_0000_0000
  {
    Pow2Add(2, 2);
    Pow2Add(4, 4);
    Pow2Add(8, 8);
    Pow2Add(16, 16);
  }
}
