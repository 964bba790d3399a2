/** `SparseByteMatrix`: a matrix of bytes stored as a map of rows, each a map of the
    non-zero cells, with a count of the stored cells. */
module Sparse {

  /** Java's `byte`. */
  type Byte = x: int | -128 <= x < 128

  datatype Matrix = Matrix(rows: map<int, map<int, Byte>>, m: int, n: int, numberOfEntries: int)

  /** The positions of the stored cells. */
  function Cells(rows: map<int, map<int, Byte>>): set<(int, int)> {
    set i, j | i in rows && j in rows[i] :: (i, j)
  }

  /** The matrix invariant: only non-zero values are stored, and the counter is the
      number of stored cells. */
  ghost predicate Valid(mat: Matrix) {
    NonZero(mat.rows) && mat.numberOfEntries == |Cells(mat.rows)|
  }

  /** The no-argument constructor: no rows, dimensions 0. */
  function Empty(): (r: Matrix)
    ensures Valid(r) && r.m == 0 && r.n == 0
  {
    Matrix(map[], 0, 0, 0)
  }

  /** The constructor with dimensions, which are only stored: they bound no index. */
  function WithDims(m: int, n: int): (r: Matrix)
    ensures Valid(r) && r.m == m && r.n == n
  {
    Matrix(map[], m, n, 0)
  }

  /** `get`: the stored value, 0 for a cell never set. */
  function Get(mat: Matrix, i: int, j: int): (r: Byte)
    ensures (i, j) !in Cells(mat.rows) ==> r == 0
  {
    if i in mat.rows && j in mat.rows[i] then mat.rows[i][j] else 0
  }

  /** `getBool`: whether the cell is non-zero. */
  function GetBool(mat: Matrix, i: int, j: int): (r: bool)
    ensures r <==> Get(mat, i, j) != 0
  {
    if i in mat.rows then (if j in mat.rows[i] then mat.rows[i][j] != 0 else false) else false
  }

  /** `set`: zero into a missing row does nothing; zero over a stored cell removes it;
      anything else is stored, counting a cell that was 0 before. */
  function Set(mat: Matrix, i: int, j: int, b: Byte): (r: Matrix)
    ensures r.m == mat.m && r.n == mat.n
    ensures b == 0 && i !in mat.rows ==> r == mat
    ensures b == 0 ==> r.rows.Keys == mat.rows.Keys
    ensures b != 0 ==> r.rows.Keys == mat.rows.Keys + {i}
  {
    var row := if i in mat.rows then mat.rows[i] else map[];
    if i !in mat.rows && b == 0 then mat
    else if b == 0 then
      if j !in row || row[j] == 0 then mat
      else Matrix(mat.rows[i := row - {j}], mat.m, mat.n, mat.numberOfEntries - 1)
    else
      Matrix(mat.rows[i := Put(row, j, b)], mat.m, mat.n,
             if j !in row || row[j] == 0 then mat.numberOfEntries + 1 else mat.numberOfEntries)
  }

  function Put(row: map<int, Byte>, j: int, b: Byte): (r: map<int, Byte>)
    ensures r.Keys == row.Keys + {j} && r[j] == b
    ensures forall l :: l in row && l != j ==> r[l] == row[l]
  {
    row[j := b]
  }

  /** `setBool`: 1 for true, 0 for false. */
  function SetBool(mat: Matrix, i: int, j: int, b: bool): (r: Matrix)
    ensures Valid(mat) ==> Valid(r) && GetBool(r, i, j) == b
  {
    SetKeepsValid(mat, i, j, if b then 1 else 0);
    SetReads(mat, i, j, if b then 1 else 0);
    Set(mat, i, j, if b then 1 else 0)
  }

  // ---------------------------------------------------------------------------
  // Properties of `set`

  /** After `set(i, j, b)` the cell reads `b` and every other cell reads as before. */
  lemma SetReads(mat: Matrix, i: int, j: int, b: Byte)
    ensures Get(Set(mat, i, j, b), i, j) == b || (b == 0 && Get(mat, i, j) == 0 && Get(Set(mat, i, j, b), i, j) == 0)
    ensures Valid(mat) ==> Get(Set(mat, i, j, b), i, j) == b
    ensures forall k, l :: (k, l) != (i, j) ==> Get(Set(mat, i, j, b), k, l) == Get(mat, k, l)
  {
  }

  lemma CellsAdd(rows: map<int, map<int, Byte>>, i: int, j: int, b: Byte)
    requires (i, j) !in Cells(rows)
    ensures var row := if i in rows then rows[i] else map[];
      Cells(rows[i := Put(row, j, b)]) == Cells(rows) + {(i, j)}
  {
    var row := if i in rows then rows[i] else map[];
    var rows' := rows[i := Put(row, j, b)];
    forall c | c in Cells(rows') ensures c in Cells(rows) + {(i, j)} {
      var (k, l) := c;
      assert k in rows' && l in rows'[k];
      if k != i {
        assert (k, l) in Cells(rows);
      } else if l != j {
        assert l in rows[i];
        assert (k, l) in Cells(rows);
      }
    }
    forall c | c in Cells(rows) + {(i, j)} ensures c in Cells(rows') {
      var (k, l) := c;
      if c != (i, j) {
        assert k in rows && l in rows[k];
        assert k in rows' && l in rows'[k];
      } else {
        assert k in rows' && l in rows'[k];
      }
    }
  }

  lemma CellsReplace(rows: map<int, map<int, Byte>>, i: int, j: int, b: Byte)
    requires (i, j) in Cells(rows)
    ensures i in rows && Cells(rows[i := Put(rows[i], j, b)]) == Cells(rows)
  {
    var rows' := rows[i := Put(rows[i], j, b)];
    forall c | c in Cells(rows') ensures c in Cells(rows) {
      var (k, l) := c;
      assert k in rows' && l in rows'[k];
      if k == i && l != j {
        assert l in rows[i];
      }
      assert k in rows && l in rows[k];
    }
    forall c | c in Cells(rows) ensures c in Cells(rows') {
      var (k, l) := c;
      assert k in rows && l in rows[k];
      assert k in rows' && l in rows'[k];
    }
  }

  lemma CellsRemove(rows: map<int, map<int, Byte>>, i: int, j: int)
    requires (i, j) in Cells(rows)
    ensures i in rows && Cells(rows[i := rows[i] - {j}]) == Cells(rows) - {(i, j)}
  {
    var rows' := rows[i := rows[i] - {j}];
    forall c | c in Cells(rows') ensures c in Cells(rows) - {(i, j)} {
      var (k, l) := c;
      assert k in rows' && l in rows'[k];
      assert k in rows && l in rows[k];
    }
    forall c | c in Cells(rows) - {(i, j)} ensures c in Cells(rows') {
      var (k, l) := c;
      assert k in rows && l in rows[k];
      assert k in rows' && l in rows'[k];
    }
  }

  /** Only non-zero values are stored. */
  ghost predicate NonZero(rows: map<int, map<int, Byte>>) {
    forall i, j :: i in rows && j in rows[i] ==> rows[i][j] != 0
  }

  lemma SetKeepsNonZero(mat: Matrix, i: int, j: int, b: Byte)
    requires NonZero(mat.rows)
    ensures NonZero(Set(mat, i, j, b).rows)
  {
  }

  lemma SetKeepsCount(mat: Matrix, i: int, j: int, b: Byte)
    requires NonZero(mat.rows) && mat.numberOfEntries == |Cells(mat.rows)|
    ensures Set(mat, i, j, b).numberOfEntries == |Cells(Set(mat, i, j, b).rows)|
  {
    var row := if i in mat.rows then mat.rows[i] else map[];
    if i !in mat.rows && b == 0 {
    } else if b == 0 {
      if j in row {
        assert (i, j) in Cells(mat.rows);
        CellsRemove(mat.rows, i, j);
      }
    } else if j in row {
      assert (i, j) in Cells(mat.rows);
      CellsReplace(mat.rows, i, j, b);
    } else {
      assert (i, j) !in Cells(mat.rows);
      CellsAdd(mat.rows, i, j, b);
    }
  }

  /** `set` keeps the invariant: the counter follows the stored cells. */
  lemma SetKeepsValid(mat: Matrix, i: int, j: int, b: Byte)
    ensures Valid(mat) ==> Valid(Set(mat, i, j, b))
  {
    if Valid(mat) {
      SetKeepsNonZero(mat, i, j, b);
      SetKeepsCount(mat, i, j, b);
    }
  }

  // ---------------------------------------------------------------------------
  // Copy

  /** The stored cells with their values, in the iteration order `order`. */
  ghost predicate EnumeratesCells(mat: Matrix, order: seq<(int, int)>) {
    (forall c :: c in order <==> c in Cells(mat.rows)) &&
    forall p, q :: 0 <= p < q < |order| ==> order[p] != order[q]
  }

  /** `copy`: a fresh matrix (dimensions 0) receiving every stored cell by `set`. */
  function Copy(mat: Matrix, order: seq<(int, int)>): (r: Matrix)
    requires Valid(mat) && EnumeratesCells(mat, order)
    ensures Valid(r) && r.m == 0 && r.n == 0
    ensures forall i, j :: Get(r, i, j) == Get(mat, i, j)
    ensures r.numberOfEntries == mat.numberOfEntries
  {
    var r := CopyCells(mat, order, Empty());
    CopyCount(mat, order);
    r
  }

  /** The cells of `order` set into `into`, one after the other. */
  function CopyCells(mat: Matrix, order: seq<(int, int)>, into: Matrix): (r: Matrix)
    requires Valid(into)
    ensures Valid(r) && r.m == into.m && r.n == into.n
    ensures forall i, j :: (i, j) in order ==> Get(r, i, j) == Get(mat, i, j)
    ensures forall i, j :: (i, j) !in order ==> Get(r, i, j) == Get(into, i, j)
    decreases |order|
  {
    if |order| == 0 then into
    else
      var (i, j) := order[|order| - 1];
      var prev := CopyCells(mat, order[..|order| - 1], into);
      SetKeepsValid(prev, i, j, Get(mat, i, j));
      SetReads(prev, i, j, Get(mat, i, j));
      assert forall c :: c in order <==> c in order[..|order| - 1] || c == order[|order| - 1];
      Set(prev, i, j, Get(mat, i, j))
  }

  /** Copying every stored cell into the empty matrix reproduces the count. */
  lemma CopyCount(mat: Matrix, order: seq<(int, int)>)
    requires Valid(mat) && EnumeratesCells(mat, order)
    ensures CopyCells(mat, order, Empty()).numberOfEntries == mat.numberOfEntries
    ensures forall i, j :: Get(CopyCells(mat, order, Empty()), i, j) == Get(mat, i, j)
  {
    var r := CopyCells(mat, order, Empty());
    forall i, j ensures Get(r, i, j) == Get(mat, i, j) {
      if (i, j) !in order {
        assert (i, j) !in Cells(mat.rows);
      } else {
        assert (i, j) in Cells(mat.rows);
      }
    }
    assert Cells(r.rows) == Cells(mat.rows) by {
      forall c | c in Cells(r.rows) ensures c in Cells(mat.rows) {
        var (i, j) := c;
        assert Get(r, i, j) != 0;
      }
      forall c | c in Cells(mat.rows) ensures c in Cells(r.rows) {
        var (i, j) := c;
        assert Get(mat, i, j) != 0;
      }
    }
  }

  /** The copy is independent: setting a cell of the copy leaves the original as it is,
      and the copy still reads the original everywhere else. */
  lemma CopyIndependent(mat: Matrix, order: seq<(int, int)>, i: int, j: int, b: Byte)
    requires Valid(mat) && EnumeratesCells(mat, order)
    ensures forall k, l :: (k, l) != (i, j) ==> Get(Set(Copy(mat, order), i, j, b), k, l) == Get(mat, k, l)
    ensures Get(Set(Copy(mat, order), i, j, b), i, j) == b
  {
    SetReads(Copy(mat, order), i, j, b);
  }
}
