/**
 * A tile grid as a value, indexed `g[y][x]` like the source's `int[,]` (`data[y, x]`, with
 * `GetLength(0)` rows and `GetLength(1)` columns), and the row-major scans the source builds
 * on it. `GetAll` and `Shape` are called by the source but not shown; these are their
 * assumed definitions.
 */
module Grids {
  import opened Geometry
  import Seqs

  type Grid = seq<seq<int>>

  /** `g` has `shape.y` rows of `shape.x` cells each (shape = (width, height)). */
  predicate IsShape(g: Grid, shape: Vec) {
    |g| == shape.y && forall y :: 0 <= y < |g| ==> |g[y]| == shape.x
  }

  predicate InBounds(g: Grid, p: Vec) {
    0 <= p.y < |g| && 0 <= p.x < |g[p.y]|
  }

  /** The tile at `p` (the source's `data[p.y, p.x]`). */
  function At(g: Grid, p: Vec): int
    requires InBounds(g, p)
  {
    g[p.y][p.x]
  }

  /** The grid held by an array right now. */
  function Snapshot(a: array2<int>): (g: Grid)
    reads a
    ensures IsShape(g, Vec(a.Length1, a.Length0))
    ensures forall y, x :: 0 <= y < a.Length0 && 0 <= x < a.Length1 ==> g[y][x] == a[y, x]
  {
    SnapshotRows(a, a.Length0)
  }

  /** The first `n` rows of an array. */
  function SnapshotRows(a: array2<int>, n: nat): (g: Grid)
    requires n <= a.Length0
    reads a
    ensures IsShape(g, Vec(a.Length1, n))
    ensures forall y, x :: 0 <= y < n && 0 <= x < a.Length1 ==> g[y][x] == a[y, x]
  {
    if n == 0 then [] else SnapshotRows(a, n - 1) + [SnapshotRow(a, n - 1, a.Length1)]
  }

  /** The first `n` cells of row `y` of an array. */
  function SnapshotRow(a: array2<int>, y: nat, n: nat): (row: seq<int>)
    requires y < a.Length0 && n <= a.Length1
    reads a
    ensures |row| == n
    ensures forall x :: 0 <= x < n ==> row[x] == a[y, x]
  {
    if n == 0 then [] else SnapshotRow(a, y, n - 1) + [a[y, n - 1]]
  }

  /** A position and the tile value found there (the source's KeyValuePair<Vector2Int, int>). */
  datatype Cell = Cell(pos: Vec, value: int)

  function Keys(cs: seq<Cell>): (ks: seq<Vec>)
    ensures |ks| == |cs|
    ensures forall i :: 0 <= i < |cs| ==> ks[i] == cs[i].pos
  {
    seq(|cs|, i requires 0 <= i < |cs| => cs[i].pos)
  }

  predicate NonZero(v: int) { v != 0 }

  /** `a` comes strictly before `b` in a row-major scan (y outer, x inner). */
  predicate Before(a: Vec, b: Vec) {
    a.y < b.y || (a.y == b.y && a.x < b.x)
  }

  predicate Sorted(cs: seq<Cell>) {
    forall i, j :: 0 <= i < j < |cs| ==> Before(cs[i].pos, cs[j].pos)
  }

  /** The cells among `row[..n]` (row `y`) whose value satisfies `p`, left to right. */
  function RowCells(row: seq<int>, y: int, n: nat, p: int -> bool): seq<Cell>
    requires n <= |row|
  {
    if n == 0 then []
    else RowCells(row, y, n - 1, p) + (if p(row[n - 1]) then [Cell(Vec(n - 1, y), row[n - 1])] else [])
  }

  /** The cells of rows `0 .. n-1` whose value satisfies `p`, in row-major order. */
  function Cells(g: Grid, n: nat, p: int -> bool): seq<Cell>
    requires n <= |g|
  {
    if n == 0 then [] else Cells(g, n - 1, p) + RowCells(g[n - 1], n - 1, |g[n - 1]|, p)
  }

  /** Assumed GetAll(pred): every cell whose value satisfies `pred`, in row-major order. */
  function GetAll(g: Grid, p: int -> bool): seq<Cell> {
    Cells(g, |g|, p)
  }

  lemma {:induction false} RowCellsMembers(row: seq<int>, y: int, n: nat, p: int -> bool, c: Cell)
    requires n <= |row|
    ensures c in RowCells(row, y, n, p) <==>
      c.pos.y == y && 0 <= c.pos.x < n && c.value == row[c.pos.x] && p(c.value)
  {
    if n > 0 {
      RowCellsMembers(row, y, n - 1, p, c);
    }
  }

  lemma {:induction false} RowCellsSorted(row: seq<int>, y: int, n: nat, p: int -> bool)
    requires n <= |row|
    ensures Sorted(RowCells(row, y, n, p))
    ensures forall c :: c in RowCells(row, y, n, p) ==> c.pos.y == y && 0 <= c.pos.x < n
  {
    if n > 0 {
      RowCellsSorted(row, y, n - 1, p);
      forall c | c in RowCells(row, y, n, p) ensures c.pos.y == y && 0 <= c.pos.x < n {
        RowCellsMembers(row, y, n, p, c);
      }
    }
  }

  lemma {:induction false} CellsMembers(g: Grid, n: nat, p: int -> bool, c: Cell)
    requires n <= |g|
    ensures c in Cells(g, n, p) <==>
      0 <= c.pos.y < n && InBounds(g, c.pos) && c.value == g[c.pos.y][c.pos.x] && p(c.value)
  {
    if n > 0 {
      CellsMembers(g, n - 1, p, c);
      RowCellsMembers(g[n - 1], n - 1, |g[n - 1]|, p, c);
    }
  }

  lemma {:induction false} CellsSorted(g: Grid, n: nat, p: int -> bool)
    requires n <= |g|
    ensures Sorted(Cells(g, n, p))
    ensures forall c :: c in Cells(g, n, p) ==> 0 <= c.pos.y < n
  {
    if n > 0 {
      CellsSorted(g, n - 1, p);
      RowCellsSorted(g[n - 1], n - 1, |g[n - 1]|, p);
      forall c | c in Cells(g, n, p) ensures 0 <= c.pos.y < n {
        CellsMembers(g, n, p, c);
      }
      var a: seq<Cell>, b: seq<Cell> := Cells(g, n - 1, p), RowCells(g[n - 1], n - 1, |g[n - 1]|, p);
      forall i, j | 0 <= i < j < |a + b| ensures Before((a + b)[i].pos, (a + b)[j].pos) {
        if j < |a| {
        } else if i >= |a| {
          assert (a + b)[i] == b[i - |a|] && (a + b)[j] == b[j - |a|];
        } else {
          assert (a + b)[i] == a[i] && a[i] in a;
          assert (a + b)[j] == b[j - |a|] && b[j - |a|] in b;
        }
      }
    }
  }

  /** GetAll finds exactly the cells whose value satisfies the predicate. */
  lemma GetAllMembers(g: Grid, p: int -> bool, c: Cell)
    ensures c in GetAll(g, p) <==> InBounds(g, c.pos) && c.value == g[c.pos.y][c.pos.x] && p(c.value)
  {
    CellsMembers(g, |g|, p, c);
  }

  /** GetAll's cells come in strict row-major order, so no position is listed twice. */
  lemma GetAllSorted(g: Grid, p: int -> bool)
    ensures Sorted(GetAll(g, p))
  {
    CellsSorted(g, |g|, p);
  }

  lemma SortedKeysDistinct(cs: seq<Cell>)
    requires Sorted(cs)
    ensures Seqs.Distinct(Keys(cs))
  {
  }

  /** Scanning row `y` one cell further extends the scan by at most that cell. */
  lemma RowCellsStep(g: Grid, y: nat, x: nat, p: int -> bool)
    requires y < |g| && x < |g[y]|
    ensures RowCells(g[y], y, x + 1, p) ==
      RowCells(g[y], y, x, p) + (if p(g[y][x]) then [Cell(Vec(x, y), g[y][x])] else [])
  {
  }

  /** A partial row-major scan is a prefix of the whole scan. */
  lemma {:induction false} ScanPrefix(g: Grid, y: nat, x: nat, p: int -> bool)
    requires y < |g| && x <= |g[y]|
    ensures Cells(g, y, p) + RowCells(g[y], y, x, p) <= GetAll(g, p)
  {
    RowPrefix(g[y], y, x, |g[y]|, p);
    CellsPrefix(g, y + 1, |g|, p);
  }

  lemma {:induction false} RowPrefix(row: seq<int>, y: int, n: nat, m: nat, p: int -> bool)
    requires n <= m <= |row|
    ensures RowCells(row, y, n, p) <= RowCells(row, y, m, p)
    decreases m - n
  {
    if n < m {
      RowPrefix(row, y, n, m - 1, p);
    }
  }

  lemma {:induction false} CellsPrefix(g: Grid, n: nat, m: nat, p: int -> bool)
    requires n <= m <= |g|
    ensures Cells(g, n, p) <= Cells(g, m, p)
    decreases m - n
  {
    if n < m {
      CellsPrefix(g, n, m - 1, p);
    }
  }

  /** The positions of the cells whose value satisfies `p`, in row-major order. */
  function Positions(g: Grid, p: int -> bool): seq<Vec> {
    Keys(GetAll(g, p))
  }

  /** Positions lists exactly the in-bounds cells whose value satisfies the predicate. */
  lemma PositionsMembers(g: Grid, p: int -> bool, c: Vec)
    ensures c in Positions(g, p) <==> InBounds(g, c) && p(At(g, c))
  {
    var cells := GetAll(g, p);
    if c in Positions(g, p) {
      var k :| 0 <= k < |cells| && cells[k].pos == c;
      assert cells[k] in cells;
      GetAllMembers(g, p, cells[k]);
    }
    if InBounds(g, c) && p(At(g, c)) {
      GetAllMembers(g, p, Cell(c, At(g, c)));
      var k :| 0 <= k < |cells| && cells[k] == Cell(c, At(g, c));
      assert Positions(g, p)[k] == c;
    }
  }

  /** `data` holds `orig` with `tile` written at each of `cells`. */
  ghost predicate Stamped(data: array2<int>, orig: Grid, cells: seq<Vec>, tile: int)
    reads data
  {
    && IsShape(orig, Vec(data.Length1, data.Length0))
    && forall y, x :: 0 <= y < data.Length0 && 0 <= x < data.Length1 ==>
      data[y, x] == if Vec(x, y) in cells then tile else orig[y][x]
  }

  /** `data[cell.y, cell.x] = tile`, seen as one more cell stamped over the original grid. */
  method Stamp(data: array2<int>, ghost orig: Grid, ghost cells: seq<Vec>, cell: Vec, tile: int)
    requires Stamped(data, orig, cells, tile) && InBounds(orig, cell)
    modifies data
    ensures Stamped(data, orig, cells + [cell], tile)
  {
    data[cell.y, cell.x] := tile;
    forall y, x | 0 <= y < data.Length0 && 0 <= x < data.Length1
      ensures data[y, x] == if Vec(x, y) in cells + [cell] then tile else orig[y][x]
    {
      if Vec(x, y) != cell {
        assert data[y, x] == old(data[y, x]);
        assert Vec(x, y) in cells + [cell] <==> Vec(x, y) in cells;
      }
    }
  }

  /** Nothing stamped yet: the array reads as the original grid. */
  lemma StampedNone(data: array2<int>, orig: Grid, tile: int)
    requires Stamped(data, orig, [], tile)
    ensures Snapshot(data) == orig
  {
    var g := Snapshot(data);
    forall y | 0 <= y < |g| ensures g[y] == orig[y] {
      assert forall x :: 0 <= x < |g[y]| ==> g[y][x] == data[y, x] == orig[y][x];
    }
  }
}
