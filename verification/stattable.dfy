/** The layout of the pairwise significance tables of `Util.executeStatisticalTests`: one
    block per metric name, a header of the distinct algorithms in order of first
    appearance, one row per algorithm, empty cells on the diagonal and where the two
    result lists differ in length. */
module StatTable {
  import opened Wrappers
  import opened Seqs

  /** A metric able to take part in a paired test: its name, its algorithm and the sample
      of every evaluated recommendation list. */
  datatype TestMetric = TestMetric(name: string, algorithm: string, samples: seq<real>)

  /** `stream().distinct()`: each value once, where it first appears. */
  function Distinctly<T(==,!new)>(s: seq<T>): (r: seq<T>)
    ensures Distinct(r)
    ensures forall x :: x in r <==> x in s
    ensures forall i, j :: 0 <= i < j < |r| ==> FirstIndex(s, r[i]) < FirstIndex(s, r[j])
  {
    if |s| == 0 then []
    else
      var init := s[..|s| - 1];
      var y := s[|s| - 1];
      var prev := Distinctly(init);
      assert forall x :: x in s <==> x in init || x == y by {
        assert s == init + [y];
      }
      assert s == init + [y];
      forall x | x in init ensures FirstIndex(s, x) == FirstIndex(init, x) {
        FirstIndexSnoc(init, y, x);
      }
      if y in init then prev
      else
        assert FirstIndex(s, y) == |s| - 1;
        prev + [y]
  }

  function AlgorithmsOf(metrics: seq<TestMetric>): seq<string> {
    seq(|metrics|, i requires 0 <= i < |metrics| => metrics[i].algorithm)
  }

  function WithName(metrics: seq<TestMetric>, name: string): (r: seq<TestMetric>)
    ensures forall m :: m in r <==> m in metrics && m.name == name
  {
    if |metrics| == 0 then []
    else (if metrics[0].name == name then [metrics[0]] else []) + WithName(metrics[1..], name)
  }

  /** `Collectors.toMap` by algorithm: a second metric for the same algorithm throws. */
  function ByAlgorithm(metrics: seq<TestMetric>): (r: Result<map<string, TestMetric>>)
    ensures r.Ok? ==> forall i :: 0 <= i < |metrics| ==>
                        metrics[i].algorithm in r.value && r.value[metrics[i].algorithm] == metrics[i]
    ensures r.Ok? ==> forall a :: a in r.value ==> r.value[a].algorithm == a
    ensures r.Ok? ==> forall a :: a in r.value ==> exists i :: 0 <= i < |metrics| && r.value[a] == metrics[i]
  {
    if |metrics| == 0 then Ok(map[])
    else
      var m := metrics[|metrics| - 1];
      var init := metrics[..|metrics| - 1];
      assert metrics == init + [m];
      match ByAlgorithm(init)
      case Err(e) => Err(e)
      case Ok(table) =>
        if m.algorithm in table then Err("IllegalStateException: Duplicate key " + m.algorithm)
        else
          var r := table[m.algorithm := m];
          assert forall i :: 0 <= i < |init| ==> metrics[i] == init[i];
          assert forall a :: a in table ==> exists i :: 0 <= i < |init| && table[a] == init[i];
          Ok(r)
  }

  /** The grouping throws exactly when two metrics share an algorithm. */
  lemma {:induction false} ByAlgorithmFails(metrics: seq<TestMetric>)
    ensures ByAlgorithm(metrics).Err? <==> !Distinct(AlgorithmsOf(metrics))
  {
    if |metrics| > 0 {
      var m := metrics[|metrics| - 1];
      var init := metrics[..|metrics| - 1];
      ByAlgorithmFails(init);
      AlgorithmsSnoc(metrics);
      var prev := ByAlgorithm(init);
      if prev.Err? {
        DuplicateInPrefix(AlgorithmsOf(init), m.algorithm);
      } else if m.algorithm in prev.value {
        var i :| 0 <= i < |init| && prev.value[m.algorithm] == init[i];
        assert AlgorithmsOf(init)[i] == m.algorithm;
        DuplicateOfLast(AlgorithmsOf(init), m.algorithm, i);
      } else {
        forall i | 0 <= i < |init| ensures AlgorithmsOf(init)[i] != m.algorithm {
          assert init[i].algorithm in prev.value;
        }
        DistinctSnoc(AlgorithmsOf(init), m.algorithm);
      }
    }
  }

  lemma AlgorithmsSnoc(metrics: seq<TestMetric>)
    requires |metrics| > 0
    ensures AlgorithmsOf(metrics) == AlgorithmsOf(metrics[..|metrics| - 1]) + [metrics[|metrics| - 1].algorithm]
  {
  }

  lemma DuplicateInPrefix(s: seq<string>, x: string)
    requires !Distinct(s)
    ensures !Distinct(s + [x])
  {
    var i, j :| 0 <= i < j < |s| && s[i] == s[j];
    assert (s + [x])[i] == (s + [x])[j];
  }

  lemma DuplicateOfLast(s: seq<string>, x: string, i: int)
    requires 0 <= i < |s| && s[i] == x
    ensures !Distinct(s + [x])
  {
    assert (s + [x])[i] == (s + [x])[|s|];
  }

  lemma DistinctSnoc(s: seq<string>, x: string)
    requires Distinct(s) && forall i :: 0 <= i < |s| ==> s[i] != x
    ensures Distinct(s + [x])
  {
  }

  datatype Row = Row(algorithm: string, cells: seq<string>)
  datatype Block = Block(name: string, header: seq<string>, rows: seq<Row>)

  /** One cell of a block: empty on the diagonal and when the two sample lists have
      different lengths (the caught dimension mismatch), otherwise the formatted p-value.
      An algorithm without this metric throws. So does the paired t-test on fewer than
      two pairs: no pairs is no data, one pair too few to estimate a variance; neither
      exception is the caught one. `pValue` is the test's answer for two or more pairs. */
  function Cell(table: map<string, TestMetric>, a1: string, a2: string,
                pValue: (seq<real>, seq<real>) -> real, format: real -> string): (r: Result<string>)
    ensures r.Err? <==>
      (a1 != a2 && (a1 !in table || a2 !in table || (|table[a1].samples| == |table[a2].samples| && |table[a1].samples| < 2)))
    ensures r.Err? && a1 in table && a2 in table ==>
      r.msg == if |table[a1].samples| == 0 then "NoDataException" else "NumberIsTooSmallException"
    ensures r.Ok? && a1 == a2 ==> r.value == ""
    ensures r.Ok? && a1 != a2 ==>
      r.value == (if |table[a1].samples| != |table[a2].samples| then "" else format(pValue(table[a1].samples, table[a2].samples)))
  {
    if a1 == a2 then Ok("")
    else if a1 !in table || a2 !in table then Err("NullPointerException")
    else if |table[a1].samples| != |table[a2].samples| then Ok("")
    else if |table[a1].samples| == 0 then Err("NoDataException")
    else if |table[a1].samples| == 1 then Err("NumberIsTooSmallException")
    else Ok(format(pValue(table[a1].samples, table[a2].samples)))
  }

  function Cells(table: map<string, TestMetric>, a1: string, algos: seq<string>,
                 pValue: (seq<real>, seq<real>) -> real, format: real -> string): (r: Result<seq<string>>)
    ensures r.Ok? <==> forall j :: 0 <= j < |algos| ==> Cell(table, a1, algos[j], pValue, format).Ok?
    ensures r.Ok? ==> |r.value| == |algos|
    ensures r.Ok? ==> forall j :: 0 <= j < |algos| ==> r.value[j] == Cell(table, a1, algos[j], pValue, format).value
  {
    if |algos| == 0 then Ok([])
    else
      match Cell(table, a1, algos[0], pValue, format)
      case Err(e) => Err(e)
      case Ok(c) =>
        match Cells(table, a1, algos[1..], pValue, format)
        case Err(e) =>
          Err(e)
        case Ok(cs) =>
          Ok([c] + cs)
  }

  function Rows(table: map<string, TestMetric>, rowAlgos: seq<string>, algos: seq<string>,
                pValue: (seq<real>, seq<real>) -> real, format: real -> string): (r: Result<seq<Row>>)
    ensures r.Ok? ==> |r.value| == |rowAlgos|
    ensures r.Ok? ==> forall i :: 0 <= i < |rowAlgos| ==> r.value[i].algorithm == rowAlgos[i]
    ensures r.Ok? ==> forall i :: 0 <= i < |rowAlgos| ==> Cells(table, rowAlgos[i], algos, pValue, format) == Ok(r.value[i].cells)
  {
    if |rowAlgos| == 0 then Ok([])
    else
      match Cells(table, rowAlgos[0], algos, pValue, format)
      case Err(e) => Err(e)
      case Ok(cs) =>
        match Rows(table, rowAlgos[1..], algos, pValue, format)
        case Err(e) => Err(e)
        case Ok(rs) => Ok([Row(rowAlgos[0], cs)] + rs)
  }

  /** The block of one metric name. */
  function MetricBlock(metrics: seq<TestMetric>, name: string,
                       pValue: (seq<real>, seq<real>) -> real, format: real -> string): (r: Result<Block>)
  {
    var algos := Distinctly(AlgorithmsOf(metrics));
    var table :- ByAlgorithm(WithName(metrics, name));
    var rows :- Rows(table, algos, algos, pValue, format);
    Ok(Block(name, algos, rows))
  }

  /** All blocks, one per metric name in the iteration order `names` of the grouping map. */
  function Blocks(metrics: seq<TestMetric>, names: seq<string>,
                  pValue: (seq<real>, seq<real>) -> real, format: real -> string): (r: Result<seq<Block>>)
    ensures r.Ok? ==> |r.value| == |names|
    ensures r.Ok? ==> forall i :: 0 <= i < |names| ==> MetricBlock(metrics, names[i], pValue, format) == Ok(r.value[i])
  {
    if |names| == 0 then Ok([])
    else
      var b :- MetricBlock(metrics, names[0], pValue, format);
      var bs :- Blocks(metrics, names[1..], pValue, format);
      Ok([b] + bs)
  }

  /** The shape of a block: the header lists the distinct algorithms of all metrics in
      order of first appearance; there is one row per header entry, as long as the header,
      empty on the diagonal; off the diagonal a cell is empty exactly when the two sample
      lists differ in length. */
  lemma BlockShape(metrics: seq<TestMetric>, name: string,
                   pValue: (seq<real>, seq<real>) -> real, format: real -> string)
    requires MetricBlock(metrics, name, pValue, format).Ok?
    ensures var b := MetricBlock(metrics, name, pValue, format).value;
      var algos := AlgorithmsOf(metrics);
      Distinct(b.header) && (forall a :: a in b.header <==> a in algos) &&
      (forall i, j :: 0 <= i < j < |b.header| ==> FirstIndex(algos, b.header[i]) < FirstIndex(algos, b.header[j])) &&
      |b.rows| == |b.header| &&
      forall i :: 0 <= i < |b.rows| ==>
        b.rows[i].algorithm == b.header[i] && |b.rows[i].cells| == |b.header| && b.rows[i].cells[i] == ""
  {
    var algos := Distinctly(AlgorithmsOf(metrics));
    var table := ByAlgorithm(WithName(metrics, name)).value;
    var rows := Rows(table, algos, algos, pValue, format).value;
    forall i | 0 <= i < |rows| ensures rows[i].cells[i] == "" {
      assert Cells(table, algos[i], algos, pValue, format) == Ok(rows[i].cells);
    }
  }

  /** Every algorithm must report the metric: when algorithm `a` lacks metric `name`, which
      the metric at position `k` reports, the block throws instead of printing. */
  lemma MissingMetricThrows(metrics: seq<TestMetric>, name: string, a: string, k: nat,
                            pValue: (seq<real>, seq<real>) -> real, format: real -> string)
    requires a in AlgorithmsOf(metrics)
    requires forall i :: 0 <= i < |metrics| && metrics[i].name == name ==> metrics[i].algorithm != a
    requires k < |metrics| && metrics[k].name == name
    ensures MetricBlock(metrics, name, pValue, format).Err?
  {
    var algos := Distinctly(AlgorithmsOf(metrics));
    var table := ByAlgorithm(WithName(metrics, name));
    if table.Ok? {
      var b := metrics[k].algorithm;
      assert AlgorithmsOf(metrics)[k] == b;
      InHeader(metrics, a);
      InHeader(metrics, b);
      InTable(metrics, name, k);
      NotInTable(metrics, name, a);
      NoRowsWhenMissing(table.value, algos, a, b, pValue, format);
      BlockFails(metrics, name, pValue, format);
    }
  }

  /** Two algorithms reporting a metric with fewer than two samples each make the t-test
      throw, and with it the metric's block. */
  lemma FewSamplesThrow(metrics: seq<TestMetric>, name: string, k1: nat, k2: nat,
                        pValue: (seq<real>, seq<real>) -> real, format: real -> string)
    requires k1 < |metrics| && k2 < |metrics|
    requires metrics[k1].name == name && metrics[k2].name == name
    requires metrics[k1].algorithm != metrics[k2].algorithm
    requires |metrics[k1].samples| == |metrics[k2].samples| && |metrics[k1].samples| < 2
    ensures MetricBlock(metrics, name, pValue, format).Err?
  {
    var algos := Distinctly(AlgorithmsOf(metrics));
    var table := ByAlgorithm(WithName(metrics, name));
    if table.Ok? {
      var a, b := metrics[k1].algorithm, metrics[k2].algorithm;
      assert AlgorithmsOf(metrics)[k1] == a && AlgorithmsOf(metrics)[k2] == b;
      InHeader(metrics, a);
      InHeader(metrics, b);
      TableHolds(metrics, name, k1);
      TableHolds(metrics, name, k2);
      var i :| 0 <= i < |algos| && algos[i] == a;
      var j :| 0 <= j < |algos| && algos[j] == b;
      CellsErr(table.value, a, algos, j, pValue, format);
      RowsErr(table.value, algos, algos, i, pValue, format);
      BlockFails(metrics, name, pValue, format);
    }
  }

  /** A successful grouping maps a named metric's algorithm to that metric. */
  lemma TableHolds(metrics: seq<TestMetric>, name: string, k: nat)
    requires k < |metrics| && metrics[k].name == name
    requires ByAlgorithm(WithName(metrics, name)).Ok?
    ensures var table := ByAlgorithm(WithName(metrics, name)).value;
      metrics[k].algorithm in table && table[metrics[k].algorithm] == metrics[k]
  {
    var named := WithName(metrics, name);
    assert metrics[k] in named;
    var j :| 0 <= j < |named| && named[j] == metrics[k];
  }

  lemma InHeader(metrics: seq<TestMetric>, a: string)
    requires a in AlgorithmsOf(metrics)
    ensures a in Distinctly(AlgorithmsOf(metrics))
  {
  }

  lemma InTable(metrics: seq<TestMetric>, name: string, k: nat)
    requires k < |metrics| && metrics[k].name == name
    requires ByAlgorithm(WithName(metrics, name)).Ok?
    ensures metrics[k].algorithm in ByAlgorithm(WithName(metrics, name)).value
  {
    var named := WithName(metrics, name);
    assert metrics[k] in named;
    var j :| 0 <= j < |named| && named[j] == metrics[k];
  }

  lemma NotInTable(metrics: seq<TestMetric>, name: string, a: string)
    requires forall i :: 0 <= i < |metrics| && metrics[i].name == name ==> metrics[i].algorithm != a
    requires ByAlgorithm(WithName(metrics, name)).Ok?
    ensures a !in ByAlgorithm(WithName(metrics, name)).value
  {
    var named := WithName(metrics, name);
    var table := ByAlgorithm(named).value;
    forall x | x in table ensures x != a {
      var j :| 0 <= j < |named| && table[x] == named[j];
      assert named[j] in named;
    }
  }

  lemma BlockFails(metrics: seq<TestMetric>, name: string, pValue: (seq<real>, seq<real>) -> real, format: real -> string)
    requires ByAlgorithm(WithName(metrics, name)).Ok?
    requires Rows(ByAlgorithm(WithName(metrics, name)).value, Distinctly(AlgorithmsOf(metrics)),
                  Distinctly(AlgorithmsOf(metrics)), pValue, format).Err?
    ensures MetricBlock(metrics, name, pValue, format).Err?
  {
  }

  lemma NoRowsWhenMissing(table: map<string, TestMetric>, algos: seq<string>, a: string, b: string,
                          pValue: (seq<real>, seq<real>) -> real, format: real -> string)
    requires a in algos && b in algos && a !in table && b in table
    ensures Rows(table, algos, algos, pValue, format).Err?
  {
    var i :| 0 <= i < |algos| && algos[i] == a;
    var j :| 0 <= j < |algos| && algos[j] == b;
    CellsErr(table, a, algos, j, pValue, format);
    RowsErr(table, algos, algos, i, pValue, format);
  }

  lemma {:induction false} CellsErr(table: map<string, TestMetric>, a1: string, algos: seq<string>, j: int,
                                    pValue: (seq<real>, seq<real>) -> real, format: real -> string)
    requires 0 <= j < |algos| && Cell(table, a1, algos[j], pValue, format).Err?
    ensures Cells(table, a1, algos, pValue, format).Err?
  {
  }

  lemma {:induction false} RowsErr(table: map<string, TestMetric>, rowAlgos: seq<string>, algos: seq<string>, i: int,
                                   pValue: (seq<real>, seq<real>) -> real, format: real -> string)
    requires 0 <= i < |rowAlgos| && Cells(table, rowAlgos[i], algos, pValue, format).Err?
    ensures Rows(table, rowAlgos, algos, pValue, format).Err?
  {
    if i > 0 {
      RowsErr(table, rowAlgos[1..], algos, i - 1, pValue, format);
    }
  }

  // ---------------------------------------------------------------------------
  // Rendering

  const Sep := ";"
  const LineSep := "\r\n"

  function Concat(parts: seq<string>): string {
    if |parts| == 0 then "" else parts[0] + Concat(parts[1..])
  }

  function Terminated(cells: seq<string>): string {
    Concat(seq(|cells|, i requires 0 <= i < |cells| => cells[i] + Sep))
  }

  function RenderRow(r: Row): string {
    r.algorithm + Sep + Terminated(r.cells) + LineSep
  }

  /** A block: its name, the header row after an empty first cell, the rows, and two
      empty lines. */
  function RenderBlock(b: Block): string {
    b.name + LineSep + Sep + Terminated(b.header) + LineSep +
    Concat(seq(|b.rows|, i requires 0 <= i < |b.rows| => RenderRow(b.rows[i]))) + LineSep + LineSep
  }

  /** `executeStatisticalTests`: the rendered blocks one after another. */
  function ExecuteStatisticalTests(metrics: seq<TestMetric>, names: seq<string>,
                                   pValue: (seq<real>, seq<real>) -> real, format: real -> string)
    : (r: Result<string>)
    requires Enumerates(names, set m | m in metrics :: m.name)
    ensures r.Ok? <==> Blocks(metrics, names, pValue, format).Ok?
    ensures r.Ok? ==> var bs := Blocks(metrics, names, pValue, format).value;
      r.value == Concat(seq(|bs|, i requires 0 <= i < |bs| => RenderBlock(bs[i])))
  {
    var bs :- Blocks(metrics, names, pValue, format);
    Ok(Concat(seq(|bs|, i requires 0 <= i < |bs| => RenderBlock(bs[i]))))
  }
}
