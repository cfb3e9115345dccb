/** MathHelpers: the true modulus, placement of an inset inside a container, and scans of a tile array. */
module MathHelpers {
  import opened Geometry
  import opened Grids
  import opened Wrappers
  import Random

  /** C#'s `x % m` on int: truncated division, so the remainder takes the sign of `x`. */
  function CsRem(x: int, m: int): (r: int)
    requires m != 0
    ensures Abs(r) < Abs(m)
    ensures x >= 0 ==> r >= 0
    ensures x <= 0 ==> r <= 0
  {
    var r := Abs(x) % Abs(m);
    if x < 0 then -r else r
  }

  /** Mod: `(x % m + m) % m` with C#'s truncating `%`; 32-bit overflow of `x % m + m` is not modelled. */
  function Mod(x: int, m: int): int
    requires m != 0
  {
    CsRem(CsRem(x, m) + m, m)
  }

  lemma {:induction false} MulAtLeast(k: int, m: int)
    requires k >= 1 && m > 0
    ensures k * m >= m
  {
    if k > 1 {
      MulAtLeast(k - 1, m);
      assert k * m == (k - 1) * m + m;
    }
  }

  /** Euclidean division is unique: a remainder in [0, m) for some quotient is THE remainder. */
  lemma EuclidUnique(a: int, m: int, q: int, r: int)
    requires m > 0 && 0 <= r < m && a == q * m + r
    ensures a % m == r
  {
    var q', r' := a / m, a % m;
    var d := q' - q;
    assert d * m == r - r' by {
      assert q' * m + r' == q * m + r;
      assert d * m == q' * m - q * m;
    }
    if d >= 1 {
      MulAtLeast(d, m);
    } else if d <= -1 {
      MulAtLeast(-d, m);
    }
  }

  /** For a positive modulus, Mod is the mathematical modulus: in [0, m) and congruent to `x`. */
  lemma ModIsEuclidean(x: int, m: int)
    requires m > 0
    ensures Mod(x, m) == x % m
    ensures 0 <= Mod(x, m) < m
    ensures (x - Mod(x, m)) % m == 0
  {
    if x >= 0 {
      var s := x % m;
      assert CsRem(x, m) == s;
      EuclidUnique(s + m, m, 1, s);
    } else {
      var q, t := (-x) / m, (-x) % m;
      assert -x == q * m + t;
      assert CsRem(x, m) == -t;
      if t == 0 {
        EuclidUnique(m, m, 1, 0);
        EuclidUnique(x, m, -q, 0);
      } else {
        EuclidUnique(m - t, m, 0, m - t);
        EuclidUnique(x, m, -q - 1, m - t);
      }
    }
    var k := x / m;
    assert x - x % m == k * m;
    EuclidUnique(k * m, m, k, 0);
  }

  /**
   * RandomShapeOffset: a random corner at which `inset` fits inside `container`, each coordinate
   * drawn with Random.Range(0, container - inset). None stands for the ArgumentException.
   */
  method RandomShapeOffset(container: Vec, inset: Vec) returns (r: Option<Vec>)
    ensures r.None? <==> container.x < inset.x || container.y < inset.y
    ensures r.Some? ==> 0 <= r.value.x <= container.x - inset.x && 0 <= r.value.y <= container.y - inset.y
    ensures r.Some? && container.x > inset.x ==> r.value.x < container.x - inset.x
    ensures r.Some? && container.y > inset.y ==> r.value.y < container.y - inset.y
  {
    if container.x < inset.x || container.y < inset.y {
      return None;
    }
    var x := Random.Range(0, container.x - inset.x);
    var y := Random.Range(0, container.y - inset.y);
    r := Some(Vec(x, y));
  }

  /** One axis of ClampInside: pull `a` back so that `a + inset < container`; None when that is negative. */
  function ClampAxis(a: int, container: int, inset: int): (r: Option<int>)
    ensures a + inset < container ==> r == Some(a)
    ensures a + inset >= container ==>
      r == (if container - 1 - inset < 0 then None else Some(container - 1 - inset))
  {
    if a + inset >= container then
      var c := a - ((a + inset) - (container - 1));
      if c < 0 then None else Some(c)
    else Some(a)
  }

  /**
   * ClampInside: move `anchor` so that the `inset`-sized rectangle at it ends before the
   * container's last row and column. None stands for the ArgumentException (x checked first).
   */
  function ClampInside(anchor: Vec, container: Vec, inset: Vec): (r: Option<Vec>)
    ensures r.Some? <==> ClampAxis(anchor.x, container.x, inset.x).Some? && ClampAxis(anchor.y, container.y, inset.y).Some?
    ensures r.Some? ==> r.value == Vec(ClampAxis(anchor.x, container.x, inset.x).value, ClampAxis(anchor.y, container.y, inset.y).value)
  {
    match ClampAxis(anchor.x, container.x, inset.x)
    case None => None
    case Some(x) =>
      match ClampAxis(anchor.y, container.y, inset.y)
      case None => None
      case Some(y) => Some(Vec(x, y))
  }

  /** Whatever ClampInside returns lies inside the container with room for the inset, never past the anchor. */
  lemma ClampInsideFits(anchor: Vec, container: Vec, inset: Vec)
    requires ClampInside(anchor, container, inset).Some?
    ensures var r := ClampInside(anchor, container, inset).value;
      r.x + inset.x < container.x && r.y + inset.y < container.y && r.x <= anchor.x && r.y <= anchor.y
  {
  }

  /** Every non-zero cell of `g`, in row-major order. */
  function Filled(g: Grid): seq<Cell> { GetAll(g, NonZero) }

  /** CountNonZero: the number of non-zero cells. */
  method CountNonZero(data: array2<int>) returns (count: int)
    ensures count == |Filled(Snapshot(data))|
  {
    ghost var g := Snapshot(data);
    count := 0;
    var y, maxY := 0, data.Length0;
    while y < maxY
      invariant 0 <= y <= maxY
      invariant count == |Cells(g, y, NonZero)|
    {
      var x, maxX := 0, data.Length1;
      while x < maxX
        invariant 0 <= x <= maxX
        invariant count == |Cells(g, y, NonZero) + RowCells(g[y], y, x, NonZero)|
      {
        RowCellsStep(g, y, x, NonZero);
        if data[y, x] != 0 {
          count := count + 1;
        }
        x := x + 1;
      }
      y := y + 1;
    }
  }

  /** Some cell of the rectangle `rect` holds a non-zero value. */
  predicate RegionHasNonZero(g: Grid, rect: Rect) {
    exists y, x :: rect.YMin() <= y < rect.YMax() && rect.XMin() <= x < rect.XMax()
      && InBounds(g, Vec(x, y)) && g[y][x] != 0
  }

  /** The rectangle lies inside the array, so scanning it indexes no cell out of range. */
  predicate RectInside(data: array2<int>, rect: Rect) reads {} {
    0 <= rect.XMin() && rect.XMax() <= data.Length1 && 0 <= rect.YMin() && rect.YMax() <= data.Length0
  }

  /**
   * HasNonZero, as intended: true iff some cell of `rect` is non-zero. The source's inner loop
   * starts at `rect.xMax` instead of `rect.xMin` (see HasNonZeroAsWritten).
   */
  method HasNonZero(data: array2<int>, rect: Rect) returns (found: bool)
    requires RectInside(data, rect)
    ensures found <==> RegionHasNonZero(Snapshot(data), rect)
  {
    ghost var g := Snapshot(data);
    var y := rect.YMin();
    while y < rect.YMax()
      invariant rect.YMin() <= y <= rect.YMax()
      invariant forall y', x' :: rect.YMin() <= y' < y && rect.XMin() <= x' < rect.XMax() ==> g[y'][x'] == 0
    {
      var x := rect.XMin();
      while x < rect.XMax()
        invariant rect.XMin() <= x <= rect.XMax()
        invariant forall x' :: rect.XMin() <= x' < x ==> g[y][x'] == 0
      {
        if data[y, x] != 0 {
          assert InBounds(g, Vec(x, y)) && g[y][x] != 0;
          return true;
        }
        x := x + 1;
      }
      y := y + 1;
    }
    return false;
  }

  /**
   * What HasNonZero as written inspects: its inner loop runs x from `rect.xMax` while x < `rect.xMax`,
   * so the cells it reads are those with xMax <= x < xMax.
   */
  predicate HasNonZeroAsWritten(g: Grid, rect: Rect) {
    exists y, x :: InBounds(g, Vec(x, y)) && g[y][x] != 0
      && rect.YMin() <= y < rect.YMax() && rect.XMax() <= x < rect.XMax()
  }

  /** As written the scan reads no cell, so it answers false even for the one-cell grid [[1]]. */
  lemma HasNonZeroAsWrittenMissesCell(g: Grid, rect: Rect)
    ensures !HasNonZeroAsWritten(g, rect)
    ensures RegionHasNonZero([[1]], Rect(0, 0, 1, 1)) && !HasNonZeroAsWritten([[1]], Rect(0, 0, 1, 1))
  {
    assert InBounds([[1]], Vec(0, 0));
  }

  /**
   * GetNthFilled(position): the position of the filled cell with exactly `position` filled cells
   * before it in row-major order. None stands for the ArgumentException when there is none.
   */
  method GetNthFilled(data: array2<int>, position: int) returns (r: Option<Vec>)
    ensures var f := Filled(Snapshot(data));
      r == if 0 <= position < |f| then Some(f[position].pos) else None
  {
    ghost var g := Snapshot(data);
    var pos := position;
    var y, maxY := 0, data.Length0;
    while y < maxY
      invariant 0 <= y <= maxY
      invariant pos == position - |Cells(g, y, NonZero)|
      invariant position < 0 || pos >= 0
    {
      var x, maxX := 0, data.Length1;
      while x < maxX
        invariant 0 <= x <= maxX
        invariant pos == position - |Cells(g, y, NonZero) + RowCells(g[y], y, x, NonZero)|
        invariant position < 0 || pos >= 0
      {
        RowCellsStep(g, y, x, NonZero);
        if data[y, x] != 0 {
          if pos == 0 {
            ScanPrefix(g, y, x + 1, NonZero);
            ghost var seen := Cells(g, y, NonZero) + RowCells(g[y], y, x + 1, NonZero);
            assert seen[position] == Cell(Vec(x, y), g[y][x]);
            return Some(Vec(x, y));
          } else {
            pos := pos - 1;
          }
        }
        x := x + 1;
      }
      y := y + 1;
    }
    return None;
  }
}
