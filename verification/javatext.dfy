/** The Java string operations the system relies on, written out exactly:
    `String.split` with a one-character separator, decimal printing of integers,
    `Integer.parseInt`/`Long.parseLong`, `trim`, `replace` of one character by nothing,
    and right padding with spaces. */
module JavaText {
  import opened Wrappers

  const IntMin: int := -0x8000_0000
  const IntMax: int := 0x7FFF_FFFF
  const LongMin: int := -0x8000_0000_0000_0000
  const LongMax: int := 0x7FFF_FFFF_FFFF_FFFF

  // ---------------------------------------------------------------------------
  // Splitting and joining

  /** Every field between separators, empty fields included: one more field than
      there are separators. */
  function Pieces(s: string, sep: char): (r: seq<string>)
    ensures |r| >= 1
    ensures forall i :: 0 <= i < |r| ==> sep !in r[i]
    decreases |s|
  {
    if |s| == 0 then [""]
    else
      var rest := Pieces(s[1..], sep);
      if s[0] == sep then [""] + rest
      else [[s[0]] + rest[0]] + rest[1..]
  }

  /** Drops the empty fields at the end, as `split` does with its default limit. */
  function DropTrailingEmpty(parts: seq<string>): (r: seq<string>)
    ensures r <= parts
    ensures |r| > 0 ==> r[|r| - 1] != ""
    ensures forall i :: |r| <= i < |parts| ==> parts[i] == ""
  {
    if |parts| > 0 && parts[|parts| - 1] == "" then DropTrailingEmpty(parts[..|parts| - 1])
    else parts
  }

  /** Java's `s.split(sep)` for a one-character separator: a string without the
      separator comes back whole (even the empty string); otherwise the fields, with
      trailing empty fields removed. */
  function Split(s: string, sep: char): (r: seq<string>)
    ensures sep !in s ==> r == [s]
    ensures forall i :: 0 <= i < |r| ==> sep !in r[i]
  {
    if sep !in s then [s] else DropTrailingEmpty(Pieces(s, sep))
  }

  /** The fields written one after another with `sep` between neighbours. */
  function Join(parts: seq<string>, sep: char): string
  {
    if |parts| == 0 then ""
    else if |parts| == 1 then parts[0]
    else parts[0] + [sep] + Join(parts[1..], sep)
  }

  predicate NoSep(parts: seq<string>, sep: char) {
    forall i :: 0 <= i < |parts| ==> sep !in parts[i]
  }

  lemma {:induction false} PiecesPrefix(a: string, s: string, sep: char)
    requires sep !in a
    ensures Pieces(a + s, sep) == [a + Pieces(s, sep)[0]] + Pieces(s, sep)[1..]
    decreases |a|
  {
    if |a| == 0 {
      var ps := Pieces(s, sep);
      assert a + s == s;
      assert a + ps[0] == ps[0];
      assert [ps[0]] + ps[1..] == ps;
    } else {
      assert (a + s)[1..] == a[1..] + s;
      PiecesPrefix(a[1..], s, sep);
      assert [a[0]] + (a[1..] + Pieces(s, sep)[0]) == a + Pieces(s, sep)[0];
    }
  }

  /** Splitting the joined fields into pieces gives the fields back. */
  lemma {:induction false} PiecesJoin(parts: seq<string>, sep: char)
    requires |parts| >= 1 && NoSep(parts, sep)
    ensures Pieces(Join(parts, sep), sep) == parts
    decreases |parts|
  {
    if |parts| == 1 {
      PiecesPrefix(parts[0], "", sep);
      assert parts[0] + "" == parts[0];
    } else {
      var tail := Join(parts[1..], sep);
      assert Join(parts, sep) == parts[0] + ([sep] + tail);
      PiecesPrefix(parts[0], [sep] + tail, sep);
      assert ([sep] + tail)[1..] == tail;
      PiecesJoin(parts[1..], sep);
      assert parts[0] + "" == parts[0];
    }
  }

  lemma JoinHasSep(parts: seq<string>, sep: char)
    requires |parts| >= 2
    ensures sep in Join(parts, sep)
  {
    assert Join(parts, sep)[|parts[0]|] == sep;
  }

  /** `split` undoes `Join` when no field holds the separator and the last field is
      not empty (a single field may be empty). */
  lemma SplitJoin(parts: seq<string>, sep: char)
    requires |parts| >= 1 && NoSep(parts, sep)
    requires |parts| == 1 || parts[|parts| - 1] != ""
    ensures Split(Join(parts, sep), sep) == parts
  {
    if |parts| == 1 {
    } else {
      JoinHasSep(parts, sep);
      PiecesJoin(parts, sep);
    }
  }

  lemma {:induction false} JoinSnoc(parts: seq<string>, last: string, sep: char)
    requires |parts| >= 1
    ensures Join(parts + [last], sep) == Join(parts, sep) + [sep] + last
    decreases |parts|
  {
    if |parts| == 1 {
    } else {
      assert (parts + [last])[1..] == parts[1..] + [last];
      JoinSnoc(parts[1..], last, sep);
    }
  }

  /** `split` undoes writing every field followed by the separator, the layout of the
      result lines, when the last field is not empty. */
  lemma SplitJoinTerminated(parts: seq<string>, sep: char)
    requires |parts| >= 1 && NoSep(parts, sep)
    requires parts[|parts| - 1] != ""
    ensures Split(Join(parts, sep) + [sep], sep) == parts
  {
    var ext := parts + [""];
    JoinSnoc(parts, "", sep);
    assert Join(parts, sep) + [sep] == Join(ext, sep);
    assert NoSep(ext, sep);
    JoinHasSep(ext, sep);
    PiecesJoin(ext, sep);
    DropLastEmpty(parts);
  }

  lemma DropLastEmpty(parts: seq<string>)
    requires |parts| >= 1 && parts[|parts| - 1] != ""
    ensures DropTrailingEmpty(parts + [""]) == parts
  {
    var ext := parts + [""];
    assert ext[..|ext| - 1] == parts;
  }

  /** A last field left empty is dropped by `split`, when the field before it is not. */
  lemma SplitJoinEmptyLast(parts: seq<string>, sep: char)
    requires |parts| >= 2 && NoSep(parts, sep)
    requires parts[|parts| - 1] == "" && parts[|parts| - 2] != ""
    ensures Split(Join(parts, sep), sep) == parts[..|parts| - 1]
  {
    var g := parts[..|parts| - 1];
    assert parts == g + [""];
    JoinSnoc(g, "", sep);
    assert Join(g, sep) + [sep] + "" == Join(g, sep) + [sep];
    SplitJoinTerminated(g, sep);
  }

  // ---------------------------------------------------------------------------
  // Decimal numbers

  /** An ASCII decimal digit. Java's `Character.digit` also accepts the decimal digits
      of other scripts; the model reads only these. */
  predicate IsDigit(c: char) {
    '0' <= c <= '9'
  }

  predicate AllDigits(s: string) {
    forall i :: 0 <= i < |s| ==> IsDigit(s[i])
  }

  function DigitChar(d: int): (c: char)
    requires 0 <= d < 10
    ensures IsDigit(c) && c as int - '0' as int == d
  {
    ('0' as int + d) as char
  }

  /** The value of a string of decimal digits. */
  function DigitsValue(s: string): nat
    requires AllDigits(s)
  {
    if |s| == 0 then 0
    else DigitsValue(s[..|s| - 1]) * 10 + (s[|s| - 1] as int - '0' as int)
  }

  /** `String.valueOf` of a non-negative number: no leading zeros. */
  function NatToString(n: nat): (r: string)
    ensures |r| >= 1 && AllDigits(r)
    ensures r[0] != '0' || n == 0
  {
    if n < 10 then [DigitChar(n)] else NatToString(n / 10) + [DigitChar(n % 10)]
  }

  /** `String.valueOf` of an integer: a minus sign for negative numbers. */
  function IntToString(n: int): (r: string)
    ensures |r| >= 1
    ensures n < 0 <==> r[0] == '-'
    ensures n >= 0 ==> AllDigits(r) && '-' !in r
    ensures ',' !in r && ';' !in r && '#' !in r && '\t' !in r
  {
    if n < 0 then "-" + NatToString(-n) else NatToString(n)
  }

  /** The decimal integer `s` if it lies in [lo, hi]: an optional sign followed by at
      least one ASCII digit, the strings `Integer.parseInt` and `Long.parseLong` accept
      when the digits are ASCII; `None` where they throw `NumberFormatException` (and
      also for digits of other scripts, which Java would accept). */
  function ParseInteger(s: string, lo: int, hi: int): (r: Option<int>)
    ensures r.Some? ==> lo <= r.value <= hi
    ensures r.Some? ==> |s| >= 1 && (IsDigit(s[0]) || s[0] == '-' || s[0] == '+')
    ensures AllDigits(s) && |s| >= 1 && lo <= DigitsValue(s) <= hi ==> r == Some(DigitsValue(s))
  {
    if |s| == 0 then None
    else
      var digits := if s[0] == '-' || s[0] == '+' then s[1..] else s;
      if |digits| == 0 || !AllDigits(digits) then None
      else
        var v: int := if s[0] == '-' then 0 - (DigitsValue(digits) as int) else DigitsValue(digits);
        if lo <= v <= hi then Some(v) else None
  }

  /** `Integer.parseInt`. */
  function ParseInt(s: string): Option<int> {
    ParseInteger(s, IntMin, IntMax)
  }

  /** `Long.parseLong`. */
  function ParseLong(s: string): Option<int> {
    ParseInteger(s, LongMin, LongMax)
  }

  lemma {:induction false} DigitsOfNat(n: nat)
    ensures DigitsValue(NatToString(n)) == n
  {
    if n >= 10 {
      var p := NatToString(n / 10);
      var s := p + [DigitChar(n % 10)];
      assert s[..|s| - 1] == p;
      DigitsOfNat(n / 10);
    }
  }

  /** Parsing undoes printing for every number in range. */
  lemma ParsePrinted(n: int, lo: int, hi: int)
    requires lo <= n <= hi
    ensures ParseInteger(IntToString(n), lo, hi) == Some(n)
  {
    if n < 0 {
      ParseNegative(-n, lo, hi);
    } else {
      DigitsOfNat(n);
    }
  }

  lemma ParseNegative(m: int, lo: int, hi: int)
    requires m > 0 && lo <= -m <= hi
    ensures ParseInteger("-" + NatToString(m), lo, hi) == Some(-m)
  {
    var digits := NatToString(m);
    var s := "-" + digits;
    assert s[0] == '-' && s[1..] == digits;
    DigitsOfNat(m);
    assert AllDigits(digits) && |digits| > 0;
  }

  lemma ParsePrintedInt(n: int)
    requires IntMin <= n <= IntMax
    ensures ParseInt(IntToString(n)) == Some(n)
  {
    ParsePrinted(n, IntMin, IntMax);
  }

  lemma ParsePrintedLong(n: int)
    requires LongMin <= n <= LongMax
    ensures ParseLong(IntToString(n)) == Some(n)
  {
    ParsePrinted(n, LongMin, LongMax);
  }

  // ---------------------------------------------------------------------------
  // Other string operations

  /** `s.replace(c, "")`: every occurrence of `c` removed, the rest in order. */
  function RemoveChar(s: string, c: char): (r: string)
    ensures c !in r
    ensures c !in s ==> r == s
    ensures forall x :: x in r ==> x in s
  {
    if |s| == 0 then ""
    else if s[0] == c then RemoveChar(s[1..], c)
    else [s[0]] + RemoveChar(s[1..], c)
  }

  /** Characters `trim` removes: code points up to and including the space. */
  predicate IsBlank(c: char) {
    c <= ' '
  }

  predicate IsTrimmed(s: string) {
    |s| == 0 || (!IsBlank(s[0]) && !IsBlank(s[|s| - 1]))
  }

  function TrimStart(s: string): (r: string)
    ensures |r| <= |s| && r == s[|s| - |r|..]
    ensures |r| == 0 || !IsBlank(r[0])
    ensures |s| > 0 && !IsBlank(s[0]) ==> r == s
  {
    if |s| > 0 && IsBlank(s[0]) then TrimStart(s[1..]) else s
  }

  function TrimEnd(s: string): (r: string)
    ensures r <= s
    ensures |r| == 0 || !IsBlank(r[|r| - 1])
    ensures |s| > 0 && !IsBlank(s[|s| - 1]) ==> r == s
  {
    if |s| > 0 && IsBlank(s[|s| - 1]) then TrimEnd(s[..|s| - 1]) else s
  }

  /** Java's `trim`: blanks removed from both ends. */
  function Trim(s: string): (r: string)
    ensures IsTrimmed(r)
    ensures IsTrimmed(s) ==> r == s
  {
    var t := TrimStart(s);
    var r := TrimEnd(t);
    assert |r| > 0 ==> r[0] == t[0];
    r
  }

  /** `StringUtils.rightPad(s, n)`: spaces appended up to length `n`; longer strings are
      left alone. */
  function RightPad(s: string, n: int): (r: string)
    ensures |r| == if |s| >= n then |s| else n
    ensures s <= r
    ensures forall i :: |s| <= i < |r| ==> r[i] == ' '
  {
    if |s| >= n then s else s + seq(n - |s|, _ => ' ')
  }

  /** `s.indexOf(c)`: the first position of `c`, or -1. */
  function IndexOf(s: string, c: char): (r: int)
    ensures -1 <= r < |s|
    ensures r == -1 <==> c !in s
    ensures r >= 0 ==> s[r] == c && c !in s[..r]
  {
    if |s| == 0 then -1
    else if s[0] == c then 0
    else
      var k := IndexOf(s[1..], c);
      assert k >= 0 ==> s[..k + 1] == [s[0]] + s[1..][..k];
      if k == -1 then -1 else k + 1
  }
}
