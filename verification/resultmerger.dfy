/** `CsvResultMerger`: reads the result lines the algorithm passes wrote, one
    `name;metric;value;metric;value;…` line per algorithm, into a table from publisher,
    metric and algorithm name to a cell holding the padded name, a tab and the value, and
    looks values up again for the merged sheet. */
module ResultMerger {
  import opened Wrappers
  import opened Seqs
  import opened JavaText
  import Wrapper

  /** Publisher to metric to algorithm name to cell. */
  type Table = map<int, map<string, map<string, string>>>

  /** The publisher the next result lines belong to, and the table so far. */
  datatype MergeState = MergeState(publisher: int, table: Table)

  /** No publisher extracted yet. */
  const Initial := MergeState(-1, map[])

  const InputFilesPrefix := "#Input files: "

  /** The width the algorithm name is padded to. */
  const NameWidth := 70

  /** The cell stored for an algorithm's value. */
  function Cell(algo: string, value: string): string {
    RightPad(algo, NameWidth) + "\t" + value
  }

  /** The cell under a publisher, metric and algorithm, if any. */
  function Get(table: Table, p: int, metric: string, algo: string): Option<string> {
    if p in table && metric in table[p] && algo in table[p][metric] then Some(table[p][metric][algo])
    else None
  }

  /** The cell under `p`, `metric` and `algo` set to `cell`, creating the inner maps as
      needed. */
  function Put(table: Table, p: int, metric: string, algo: string, cell: string): (r: Table)
    ensures Get(r, p, metric, algo) == Some(cell)
    ensures forall p', m', a' :: p' != p || m' != metric || a' != algo ==> Get(r, p', m', a') == Get(table, p', m', a')
  {
    var byMetric := if p in table then table[p] else map[];
    var byAlgo := if metric in byMetric then byMetric[metric] else map[];
    table[p := byMetric[metric := byAlgo[algo := cell]]]
  }

  /** `n` fields make whole (metric, value) pairs. Kept recursive so that the parity of
      a field count stays out of arithmetic. */
  predicate Paired(n: nat)
    decreases n
  {
    n == 0 || (n >= 2 && Paired(n - 2))
  }

  /** Fields pair up exactly when their number is even. */
  lemma {:induction false} PairedIsEven(n: nat)
    ensures Paired(n) <==> n % 2 == 0
  {
    if n >= 2 {
      PairedIsEven(n - 2);
    }
  }

  /** The metric loop of a result line: `fields` are the fields after the algorithm
      name, read as (metric, value) pairs. An odd number of them reads past the end of
      the array. */
  function AddPairs(table: Table, p: int, algo: string, fields: seq<string>): (r: Result<Table>)
    ensures r.Ok? <==> Paired(|fields|)
    decreases |fields|
  {
    if |fields| == 0 then Ok(table)
    else if |fields| == 1 then Err("ArrayIndexOutOfBoundsException")
    else AddPairs(Put(table, p, fields[0], algo, Cell(algo, fields[1])), p, algo, fields[2..])
  }

  /** Cells the line does not name are left alone. */
  lemma {:induction false} AddPairsOther(table: Table, p: int, algo: string, fields: seq<string>,
                                         p': int, m': string, a': string)
    requires AddPairs(table, p, algo, fields).Ok?
    requires p' != p || a' != algo || forall k :: 0 <= k && 2 * k + 1 < |fields| ==> fields[2 * k] != m'
    ensures Get(AddPairs(table, p, algo, fields).value, p', m', a') == Get(table, p', m', a')
    decreases |fields|
  {
    if |fields| > 0 {
      var t1 := Put(table, p, fields[0], algo, Cell(algo, fields[1]));
      if p == p' && a' == algo {
        assert fields[2 * 0] != m';
        forall k | 0 <= k && 2 * k + 1 < |fields[2..]| ensures fields[2..][2 * k] != m' {
          assert fields[2..][2 * k] == fields[2 * (k + 1)];
        }
      }
      AddPairsOther(t1, p, algo, fields[2..], p', m', a');
    }
  }

  /** Each metric of the line holds its last value in the line. */
  lemma {:induction false} AddPairsLast(table: Table, p: int, algo: string, fields: seq<string>, j: int)
    requires AddPairs(table, p, algo, fields).Ok?
    requires 0 <= j && 2 * j + 1 < |fields|
    requires forall k :: j < k && 2 * k + 1 < |fields| ==> fields[2 * k] != fields[2 * j]
    ensures Get(AddPairs(table, p, algo, fields).value, p, fields[2 * j], algo) == Some(Cell(algo, fields[2 * j + 1]))
    decreases |fields|
  {
    var t1 := Put(table, p, fields[0], algo, Cell(algo, fields[1]));
    var rest := fields[2..];
    if j == 0 {
      forall k | 0 <= k && 2 * k + 1 < |rest| ensures rest[2 * k] != fields[0] {
        assert rest[2 * k] == fields[2 * (k + 1)];
      }
      AddPairsOther(t1, p, algo, rest, p, fields[0], algo);
    } else {
      assert rest[2 * (j - 1)] == fields[2 * j] && rest[2 * (j - 1) + 1] == fields[2 * j + 1];
      forall k | j - 1 < k && 2 * k + 1 < |rest| ensures rest[2 * k] != rest[2 * (j - 1)] {
        assert rest[2 * k] == fields[2 * (k + 1)];
      }
      AddPairsLast(t1, p, algo, rest, j - 1);
    }
  }

  /** One line of the merged files. A comment line only matters when it starts with
      `#Input files: ` and a publisher pattern is given: `extract` stands for matching the
      pattern and parsing its first group, which fails when nothing matches or the group is
      not a number. Any other line is a result line. */
  function ProcessLine(st: MergeState, line: string, extract: Option<string -> Result<int>>): (r: Result<MergeState>)
    ensures "#" <= line && !(InputFilesPrefix <= line && extract.Some?) ==> r == Ok(st)
    ensures "#" <= line && InputFilesPrefix <= line && extract.Some? ==>
      (r.Ok? <==> extract.value(line).Ok?) &&
      (r.Ok? ==> r.value == st.(publisher := extract.value(line).value))
    ensures r.Ok? ==> !("#" <= line) ==> r.value.publisher == st.publisher
  {
    if "#" <= line then
      if InputFilesPrefix <= line && extract.Some? then
        match extract.value(line)
        case Err(e) => Err(e)
        case Ok(p) => Ok(st.(publisher := p))
      else Ok(st)
    else
      var fields := Split(line, ';');
      if |fields| == 0 then Ok(st)
      else
        match AddPairs(st.table, st.publisher, fields[0], fields[1..])
        case Err(e) => Err(e)
        case Ok(t) => Ok(st.(table := t))
  }

  /** A result line is accepted exactly when the fields after the algorithm name pair up
      (a line with no fields at all is skipped). */
  lemma ResultLineAccepted(st: MergeState, line: string, extract: Option<string -> Result<int>>)
    requires !("#" <= line)
    ensures ProcessLine(st, line, extract).Ok? <==> |Split(line, ';')| == 0 || Paired(|Split(line, ';')| - 1)
  {
  }

  /** The line loop of `main`, from the initial publisher -1. */
  function Merge(st: MergeState, lines: seq<string>, extract: Option<string -> Result<int>>): (r: Result<MergeState>)
    ensures extract.None? && r.Ok? ==> r.value.publisher == st.publisher
    decreases |lines|
  {
    if |lines| == 0 then Ok(st)
    else
      match ProcessLine(st, lines[0], extract)
      case Err(e) => Err(e)
      case Ok(st1) => Merge(st1, lines[1..], extract)
  }

  /** `getAlgo`: the trimmed text before the first tab; a cell without a tab makes
      `substring` fail. */
  function GetAlgo(cell: string): (r: Result<string>)
    ensures r.Ok? <==> '\t' in cell
    ensures r.Ok? ==> IsTrimmed(r.value) && '\t' !in r.value
  {
    var k := IndexOf(cell, '\t');
    if k < 0 then Err("StringIndexOutOfBoundsException") else Ok(Trim(cell[..k]))
  }

  /** The printed value of a cell: the trimmed text from the first tab on. */
  function CellValue(cell: string): (r: Result<string>)
    ensures r.Ok? <==> '\t' in cell
    ensures r.Ok? ==> IsTrimmed(r.value)
  {
    var k := IndexOf(cell, '\t');
    if k < 0 then Err("StringIndexOutOfBoundsException") else Ok(Trim(cell[k..]))
  }

  /** The table lookup of the merged sheet: "n/a" for a missing cell. */
  function Lookup(table: Table, p: int, metric: string, algo: string): (r: Result<string>)
    ensures Get(table, p, metric, algo).None? ==> r == Ok("n/a")
    ensures Get(table, p, metric, algo).Some? ==> r == CellValue(Get(table, p, metric, algo).value)
  {
    match Get(table, p, metric, algo)
    case None => Ok("n/a")
    case Some(cell) => CellValue(cell)
  }

  lemma TrimPadded(s: string, n: int)
    requires IsTrimmed(s)
    ensures Trim(RightPad(s, n)) == s
  {
    var padded := RightPad(s, n);
    if |s| == 0 {
      TrimAllBlank(padded);
    } else {
      assert TrimStart(padded) == padded;
      TrimEndPadding(s, padded);
    }
  }

  lemma {:induction false} TrimAllBlank(s: string)
    requires forall i :: 0 <= i < |s| ==> s[i] == ' '
    ensures Trim(s) == ""
    decreases |s|
  {
    if |s| > 0 {
      assert TrimStart(s) == TrimStart(s[1..]);
      TrimAllBlank(s[1..]);
    }
  }

  lemma {:induction false} TrimEndPadding(s: string, padded: string)
    requires |s| > 0 && !IsBlank(s[|s| - 1])
    requires s <= padded && forall i :: |s| <= i < |padded| ==> padded[i] == ' '
    ensures TrimEnd(padded) == s
    decreases |padded|
  {
    if |padded| > |s| {
      var shorter := padded[..|padded| - 1];
      assert s <= shorter;
      TrimEndPadding(s, shorter);
    }
  }

  /** The cell is the padded name, then the value behind the first tab. */
  lemma CellParts(algo: string, value: string)
    requires '\t' !in algo
    ensures var padded := RightPad(algo, NameWidth);
      var cell := Cell(algo, value);
      IndexOf(cell, '\t') == |padded| && cell[..|padded|] == padded && cell[|padded|..] == "\t" + value
  {
    var padded := RightPad(algo, NameWidth);
    assert Cell(algo, value) == padded + ("\t" + value);
    forall i | 0 <= i < |padded| ensures padded[i] != '\t' {
      if i < |algo| {
        assert padded[i] == algo[i];
      }
    }
    IndexOfAfter(padded, "\t" + value);
  }

  /** `getAlgo` reads back the name a cell was made for, when the name has no tab and no
      surrounding blanks. */
  lemma GetAlgoCell(algo: string, value: string)
    requires '\t' !in algo && IsTrimmed(algo)
    ensures GetAlgo(Cell(algo, value)) == Ok(algo)
  {
    var padded := RightPad(algo, NameWidth);
    CellParts(algo, value);
    TrimPadded(algo, NameWidth);
  }

  /** The printed value of a cell is its value, trimmed. */
  lemma CellValueOf(algo: string, value: string)
    requires '\t' !in algo
    ensures CellValue(Cell(algo, value)) == Ok(Trim(value))
  {
    CellParts(algo, value);
    TrimTab(value);
  }

  lemma TrimTab(value: string)
    ensures Trim("\t" + value) == Trim(value)
  {
    assert ("\t" + value)[1..] == value;
    assert TrimStart("\t" + value) == TrimStart(value);
  }

  lemma {:induction false} IndexOfAfter(a: string, b: string)
    requires '\t' !in a && |b| > 0 && b[0] == '\t'
    ensures IndexOf(a + b, '\t') == |a|
    decreases |a|
  {
    if |a| > 0 {
      assert (a + b)[1..] == a[1..] + b;
      IndexOfAfter(a[1..], b);
    }
  }

  /** `line` is a result line whose fields are `name` followed by the fields of `pairs`. */
  predicate ReadsAs(line: string, name: string, pairs: seq<(string, string)>) {
    !("#" <= line) && Split(line, ';') == [name] + Wrapper.PairFields(pairs)
  }

  /** A result line is not a comment, and splits into its fields. */
  lemma ResultLineFields(name: string, pairs: seq<(string, string)>)
    requires NoSep([name] + Wrapper.PairFields(pairs), ';')
    requires ([name] + Wrapper.PairFields(pairs))[2 * |pairs|] != ""
    requires |name| > 0 && name[0] != '#'
    ensures ReadsAs(Wrapper.ResultLine(name, pairs), name, pairs)
  {
    Wrapper.ResultLineSplits(name, pairs);
    NotComment(name, ";" + Wrapper.PairsText(pairs));
  }

  lemma NotComment(name: string, tail: string)
    requires |name| > 0 && name[0] != '#'
    ensures !("#" <= name + tail)
  {
    assert (name + tail)[0] == name[0];
  }

  /** A result line is read into the table under the current publisher. */
  lemma ProcessFields(st: MergeState, line: string, extract: Option<string -> Result<int>>,
                      algo: string, rest: seq<string>)
    requires !("#" <= line) && Split(line, ';') == [algo] + rest && Paired(|rest|)
    ensures var r := ProcessLine(st, line, extract);
      r.Ok? && r.value.publisher == st.publisher &&
      r.value.table == AddPairs(st.table, st.publisher, algo, rest).value
  {
    assert ([algo] + rest)[1..] == rest;
  }

  /** Pair `j` is the last one naming its metric. */
  predicate LastOfMetric(pairs: seq<(string, string)>, j: int) {
    0 <= j < |pairs| && forall k :: j < k < |pairs| ==> pairs[k].0 != pairs[j].0
  }

  lemma PairFieldsLast(pairs: seq<(string, string)>, j: int)
    requires LastOfMetric(pairs, j)
    ensures var rest := Wrapper.PairFields(pairs);
      rest[2 * j] == pairs[j].0 && rest[2 * j + 1] == pairs[j].1 &&
      forall k :: j < k && 2 * k + 1 < |rest| ==> rest[2 * k] != rest[2 * j]
  {
    var rest := Wrapper.PairFields(pairs);
    forall k | j < k && 2 * k + 1 < |rest| ensures rest[2 * k] != rest[2 * j] {
      assert rest[2 * k] == pairs[k].0;
    }
  }

  lemma {:induction false} PairedDouble(n: nat)
    ensures Paired(2 * n)
  {
    if n > 0 {
      PairedDouble(n - 1);
    }
  }

  /** A line that splits into a name and the fields of `pairs` reads back each metric's
      last value. */
  /** Adding a result line's pairs stores the trimmed last value of each metric. */
  lemma LookupLast(table: Table, p: int, name: string, pairs: seq<(string, string)>, j: int)
    requires '\t' !in name
    requires LastOfMetric(pairs, j)
    ensures var r := AddPairs(table, p, name, Wrapper.PairFields(pairs));
      r.Ok? && Lookup(r.value, p, pairs[j].0, name) == Ok(Trim(pairs[j].1))
  {
    var rest := Wrapper.PairFields(pairs);
    PairedDouble(|pairs|);
    PairFieldsLast(pairs, j);
    AddPairsLast(table, p, name, rest, j);
    CellValueOf(name, pairs[j].1);
    var t := AddPairs(table, p, name, rest).value;
    assert Get(t, p, pairs[j].0, name) == Some(Cell(name, pairs[j].1));
  }

  lemma FieldsReadBack(st: MergeState, line: string, extract: Option<string -> Result<int>>,
                       name: string, pairs: seq<(string, string)>, j: int)
    requires ReadsAs(line, name, pairs)
    requires '\t' !in name
    requires LastOfMetric(pairs, j)
    ensures var r := ProcessLine(st, line, extract);
      r.Ok? && r.value.publisher == st.publisher &&
      Lookup(r.value.table, st.publisher, pairs[j].0, name) == Ok(Trim(pairs[j].1))
  {
    LookupLast(st.table, st.publisher, name, pairs, j);
    PairedDouble(|pairs|);
    ProcessFields(st, line, extract, name, Wrapper.PairFields(pairs));
    var r := ProcessLine(st, line, extract);
    var t := AddPairs(st.table, st.publisher, name, Wrapper.PairFields(pairs));
    assert r.Ok? && t.Ok? && r.value.table == t.value;
    assert Lookup(t.value, st.publisher, pairs[j].0, name) == Ok(Trim(pairs[j].1));
    assert Lookup(r.value.table, st.publisher, pairs[j].0, name) == Ok(Trim(pairs[j].1));
  }

  /** A result line as the algorithm pass writes it reads back: each metric's last value
      is printed for the line's algorithm under the current publisher. */
  lemma ResultLineReadsBack(st: MergeState, name: string, pairs: seq<(string, string)>,
                            extract: Option<string -> Result<int>>, j: int)
    requires NoSep([name] + Wrapper.PairFields(pairs), ';')
    requires ([name] + Wrapper.PairFields(pairs))[2 * |pairs|] != ""
    requires |name| > 0 && name[0] != '#' && '\t' !in name
    requires LastOfMetric(pairs, j)
    ensures var r := ProcessLine(st, Wrapper.ResultLine(name, pairs), extract);
      r.Ok? && r.value.publisher == st.publisher &&
      Lookup(r.value.table, st.publisher, pairs[j].0, name) == Ok(Trim(pairs[j].1))
  {
    var line := Wrapper.ResultLine(name, pairs);
    ResultLineFields(name, pairs);
    FieldsReadBack(st, line, extract, name, pairs, j);
    var r := ProcessLine(st, line, extract);
    assert r.Ok? && r.value.publisher == st.publisher;
    assert Lookup(r.value.table, st.publisher, pairs[j].0, name) == Ok(Trim(pairs[j].1));
  }
}
