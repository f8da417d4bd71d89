/** The triangle index buffer of the surface mesh (src/App.jsx, `generateGraph`,
    the second pair of nested loops). Each lattice cell (i, j) with
    i, j < res - 1 becomes two triangles over its four corner vertices. */
module MeshIndices {
  import opened Arith

  /** The two triangles (a, b, c) and (b, d, c) of cell (i, j), where a is the
      cell's corner vertex, b its neighbour in j, c its neighbour in i and d
      the opposite corner. */
  function CellTriangles(res: nat, i: nat, j: nat): (t: seq<int>)
    requires res >= 2
    ensures |t| == 6
  {
    var a := i * res + j;
    var b := a + 1;
    var c := (i + 1) * res + j;
    var d := c + 1;
    [a, b, c, b, d, c]
  }

  /** Both triangles of an inner cell have three distinct corners, all of them
      vertices of the lattice. */
  lemma CellTrianglesWellFormed(res: nat, i: nat, j: nat)
    requires res >= 2 && i < res - 1 && j < res - 1
    ensures forall s :: 0 <= s < 6 ==> 0 <= CellTriangles(res, i, j)[s] < res * res
    ensures var t := CellTriangles(res, i, j);
            t[0] != t[1] && t[1] != t[2] && t[0] != t[2] && t[3] != t[4] && t[4] != t[5] && t[3] != t[5]
  {
    CornerBelowVertexCount(res, i, j);
    assert (i + 1) * res == i * res + res;
  }

  /** The far corner of an inner cell is still a vertex of the lattice. */
  lemma CornerBelowVertexCount(res: nat, i: nat, j: nat)
    requires i < res - 1 && j < res - 1
    ensures (i + 1) * res + j + 1 < res * res
  {
    MulMonotone(i + 1, res - 1, res);
  }

  lemma Distribute(a: int, n: int)
    ensures a * (n - 1) + a == a * n
  {
  }

  /** The triangles of the first `m` cells of row `i`, in loop order. */
  function RowCells(res: nat, i: nat, m: nat): (r: seq<int>)
    requires res >= 2
    ensures |r| == 6 * m
  {
    if m == 0 then [] else RowCells(res, i, m - 1) + CellTriangles(res, i, m - 1)
  }

  lemma {:induction false} RowCellsBounds(res: nat, i: nat, m: nat)
    requires res >= 2 && i < res - 1 && m <= res - 1
    ensures forall t :: 0 <= t < |RowCells(res, i, m)| ==> 0 <= RowCells(res, i, m)[t] < res * res
  {
    if m > 0 {
      RowCellsBounds(res, i, m - 1);
      CellTrianglesWellFormed(res, i, m - 1);
    }
  }

  /** The triangles of the first `n` full rows, in loop order. */
  function Rows(res: nat, n: nat): seq<int>
    requires res >= 2
  {
    if n == 0 then [] else Rows(res, n - 1) + RowCells(res, n - 1, res - 1)
  }

  lemma {:induction false} RowsLength(res: nat, n: nat)
    requires res >= 2
    ensures |Rows(res, n)| == 6 * (res - 1) * n
  {
    if n > 0 {
      RowsLength(res, n - 1);
      var row := 6 * (res - 1);
      assert |RowCells(res, n - 1, res - 1)| == row;
      Distribute(row, n);
    }
  }

  lemma {:induction false} RowsBounds(res: nat, n: nat)
    requires res >= 2 && n <= res - 1
    ensures forall t :: 0 <= t < |Rows(res, n)| ==> 0 <= Rows(res, n)[t] < res * res
  {
    if n > 0 {
      RowsBounds(res, n - 1);
      RowCellsBounds(res, n - 1, res - 1);
    }
  }

  /** The complete index buffer: every cell of the lattice. */
  function IndexBuffer(res: nat): (r: seq<int>)
    requires res >= 2
    ensures |r| == 6 * (res - 1) * (res - 1)
    ensures forall t :: 0 <= t < |r| ==> 0 <= r[t] < res * res
  {
    RowsLength(res, res - 1);
    RowsBounds(res, res - 1);
    Rows(res, res - 1)
  }

  /** The nested loops of the source, pushing (a, b, c) then (b, d, c) per cell. */
  method BuildIndices(res: nat) returns (indices: seq<int>)
    requires res >= 2
    ensures indices == IndexBuffer(res)
    ensures |indices| == 6 * (res - 1) * (res - 1)
    ensures forall t :: 0 <= t < |indices| ==> 0 <= indices[t] < res * res
  {
    RowsLength(res, res - 1);
    indices := [];
    var i := 0;
    while i < res - 1
      invariant 0 <= i <= res - 1
      invariant indices == Rows(res, i)
    {
      var j := 0;
      while j < res - 1
        invariant 0 <= j <= res - 1
        invariant indices == Rows(res, i) + RowCells(res, i, j)
      {
        var a := i * res + j;
        var b := a + 1;
        var c := (i + 1) * res + j;
        var d := c + 1;
        indices := indices + [a, b, c];
        indices := indices + [b, d, c];
        j := j + 1;
      }
      i := i + 1;
    }
  }

  /** Within a row, cell `j` occupies entries [6j, 6j + 6). */
  lemma {:induction false} CellInRow(res: nat, i: nat, j: nat, m: nat)
    requires res >= 2 && j < m
    ensures RowCells(res, i, m)[6 * j .. 6 * j + 6] == CellTriangles(res, i, j)
    decreases m
  {
    if j < m - 1 {
      CellInRow(res, i, j, m - 1);
      assert RowCells(res, i, m)[..6 * (m - 1)] == RowCells(res, i, m - 1);
    } else {
      assert RowCells(res, i, m)[6 * j ..] == CellTriangles(res, i, j);
    }
  }

  /** The first `k` full rows are a prefix of the first `n`. */
  lemma {:induction false} RowsPrefix(res: nat, k: nat, n: nat)
    requires res >= 2 && k <= n
    ensures |Rows(res, k)| <= |Rows(res, n)|
    ensures Rows(res, n)[..|Rows(res, k)|] == Rows(res, k)
    decreases n
  {
    if k < n {
      RowsPrefix(res, k, n - 1);
      assert Rows(res, n)[..|Rows(res, n - 1)|] == Rows(res, n - 1);
    }
  }

  /** Cell (i, j) occupies entries [6(i(res-1) + j), 6(i(res-1) + j) + 6) of the
      index buffer and holds exactly its two triangles. */
  lemma CellInBuffer(res: nat, i: nat, j: nat)
    requires res >= 2 && i < res - 1 && j < res - 1
    ensures 6 * (i * (res - 1) + j) + 6 <= |IndexBuffer(res)|
    ensures IndexBuffer(res)[6 * (i * (res - 1) + j) .. 6 * (i * (res - 1) + j) + 6]
            == CellTriangles(res, i, j)
  {
    var w := res - 1;
    var base := |Rows(res, i)|;
    assert base == 6 * (i * w) by {
      RowsLength(res, i);
      assert 6 * w * i == 6 * (i * w);
    }
    assert IndexBuffer(res) == Rows(res, w);
    CellAfterRows(res, i, j);
  }

  /** Cell (i, j) follows the first i full rows in the whole buffer. */
  lemma CellAfterRows(res: nat, i: nat, j: nat)
    requires res >= 2 && i < res - 1 && j < res - 1
    ensures |Rows(res, i)| + 6 * j + 6 <= |Rows(res, res - 1)|
    ensures Rows(res, res - 1)[|Rows(res, i)| + 6 * j .. |Rows(res, i)| + 6 * j + 6]
            == CellTriangles(res, i, j)
  {
    var all, upto := Rows(res, res - 1), Rows(res, i + 1);
    var p := |Rows(res, i)| + 6 * j;
    assert p + 6 <= |upto| && upto[p .. p + 6] == CellTriangles(res, i, j) by {
      CellInRows(res, i, j);
    }
    assert |upto| <= |all| && all[..|upto|] == upto by {
      RowsPrefix(res, i + 1, res - 1);
    }
    SliceOfPrefix(all, upto, p);
  }

  /** Cell (i, j) sits right after the first i rows. */
  lemma CellInRows(res: nat, i: nat, j: nat)
    requires res >= 2 && i < res - 1 && j < res - 1
    ensures |Rows(res, i)| + 6 * j + 6 <= |Rows(res, i + 1)|
    ensures Rows(res, i + 1)[|Rows(res, i)| + 6 * j .. |Rows(res, i)| + 6 * j + 6]
            == CellTriangles(res, i, j)
  {
    var before, row := Rows(res, i), RowCells(res, i, res - 1);
    assert Rows(res, i + 1) == before + row;
    assert row[6 * j .. 6 * j + 6] == CellTriangles(res, i, j) by {
      CellInRow(res, i, j, res - 1);
    }
    SliceAfter(before, row, 6 * j);
  }

  lemma SliceAfter(x: seq<int>, y: seq<int>, s: nat)
    requires s + 6 <= |y|
    ensures (x + y)[|x| + s .. |x| + s + 6] == y[s .. s + 6]
  {
  }

  lemma SliceOfPrefix(big: seq<int>, pre: seq<int>, p: nat)
    requires |pre| <= |big| && big[..|pre|] == pre && p + 6 <= |pre|
    ensures big[p .. p + 6] == pre[p .. p + 6]
  {
  }
}
