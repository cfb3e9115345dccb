/**
 * DungeonBlock: a shape-checked tile grid with a mutable anchor and orientation, its
 * block-to-dungeon transform, its world extent, the enumeration of its filled cells and the
 * collision test between two blocks.
 */
module Blocks {
  import opened Geometry
  import opened Grids
  import opened FourDirections
  import Tiles
  import Seqs
  import MathHelpers

  class DungeonBlock {
    /** (columns, rows) of the local tile grid; fixed at construction. */
    const Shape: Vec
    /** Local rotation centre, floor(Shape / 2). */
    const Pivot: Vec
    /** Dungeon grid offset of the pivot. */
    var Anchor: Vec
    /** The tiles, `data[y][x]`; replaced only by UpdateData. */
    var data: Grid
    /** North is the unrotated orientation; East is a quarter turn clockwise. */
    var Orientation: FourDirection

    /** The tile grid always has the block's shape, and the pivot is its centre. */
    ghost predicate Valid()
      reads this
    {
      Shape.x >= 0 && IsShape(data, Shape) && Pivot == Vec(Shape.x / 2, Shape.y / 2)
    }

    constructor (tiles: array2<int>)
      ensures Valid()
      ensures Shape == Vec(tiles.Length1, tiles.Length0) && Pivot == Vec(tiles.Length1 / 2, tiles.Length0 / 2)
      ensures Anchor == Zero && Orientation == North && data == Snapshot(tiles)
    {
      Shape := Vec(tiles.Length1, tiles.Length0);
      Pivot := Vec(tiles.Length1 / 2, tiles.Length0 / 2);
      Anchor := Zero;
      Orientation := North;
      data := Snapshot(tiles);
    }

    /** UpdateData: replace the tiles when the new array has the block's shape; otherwise fail (the source throws). */
    method UpdateData(tiles: array2<int>) returns (ok: bool)
      requires Valid()
      modifies this`data
      ensures Valid()
      ensures ok <==> Vec(tiles.Length1, tiles.Length0) == Shape
      ensures data == if ok then Snapshot(tiles) else old(data)
    {
      if Vec(tiles.Length1, tiles.Length0) != Shape {
        return false;
      }
      data := Snapshot(tiles);
      return true;
    }

    /** BlockCoordinatesToDungeon: rotate about the pivot by the orientation, then move to the anchor. */
    function BlockCoordinatesToDungeon(c: Vec): Vec
      reads this
    {
      Add(RotateVector(Orientation, Sub(c, Pivot)), Anchor)
    }

    /**
     * The dungeon-to-block transform that GetValue needs (not shown in the source). It rotates by the
     * inverse orientation; rotating by the block's own orientation would not undo East or West.
     */
    function DungeonCoordinatesToBlock(w: Vec): Vec
      reads this
    {
      Add(RotateVector(Inverse(Orientation), Sub(w, Anchor)), Pivot)
    }

    /** The two transforms are inverse to each other, for every orientation. */
    lemma TransformRoundTrip(c: Vec, w: Vec)
      ensures DungeonCoordinatesToBlock(BlockCoordinatesToDungeon(c)) == c
      ensures BlockCoordinatesToDungeon(DungeonCoordinatesToBlock(w)) == w
    {
      RotateInverse(Orientation, Sub(c, Pivot));
      RotateInverse(Orientation, Sub(w, Anchor));
    }

    /** The pivot lands on the anchor, and no two block cells land on the same dungeon cell. */
    lemma TransformPivotAndInjective(a: Vec, b: Vec)
      ensures BlockCoordinatesToDungeon(Pivot) == Anchor
      ensures BlockCoordinatesToDungeon(a) == BlockCoordinatesToDungeon(b) ==> a == b
    {
      TransformRoundTrip(a, Zero);
      TransformRoundTrip(b, Zero);
    }

    /**
     * DungeonExtent, as intended: the bounding rectangle of the transformed corners (0,0) and
     * Shape - (1,1), one cell wider and taller than their distance. The source leaves out the +1
     * (see DungeonExtentAsWritten).
     */
    function DungeonExtent(): Rect
      reads this
    {
      var nw := BlockCoordinatesToDungeon(Zero);
      var se := BlockCoordinatesToDungeon(Sub(Shape, One));
      Rect(Min(nw.x, se.x), Min(nw.y, se.y), Abs(nw.x - se.x) + 1, Abs(nw.y - se.y) + 1)
    }

    /** DungeonExtent as written: the size is the corners' distance, without +1. */
    function DungeonExtentAsWritten(): Rect
      reads this
    {
      var nw := BlockCoordinatesToDungeon(Zero);
      var se := BlockCoordinatesToDungeon(Sub(Shape, One));
      Rect(Min(nw.x, se.x), Min(nw.y, se.y), Abs(nw.x - se.x), Abs(nw.y - se.y))
    }

    /** Every cell of the block lands inside its extent. */
    lemma ExtentCoversBlock(c: Vec)
      requires Valid() && 0 <= c.x < Shape.x && 0 <= c.y < Shape.y
      ensures DungeonExtent().Contains(BlockCoordinatesToDungeon(c))
    {
    }

    /** The as-written extent never holds both corner cells, and a 1x1 block's extent holds no cell at all. */
    lemma ExtentAsWrittenMissesCorner(w: Vec)
      requires Shape.x >= 1 && Shape.y >= 1
      ensures !(DungeonExtentAsWritten().Contains(BlockCoordinatesToDungeon(Zero))
             && DungeonExtentAsWritten().Contains(BlockCoordinatesToDungeon(Sub(Shape, One))))
      ensures Shape == One ==> !DungeonExtentAsWritten().Contains(w)
    {
    }

    /** The block's size in dungeon coordinates (DungeonShape): width and height swap for East and West. */
    function DungeonShape(): Vec
      reads this
    {
      if Orientation == North || Orientation == South then Shape else Vec(Shape.y, Shape.x)
    }

    lemma DungeonShapeIsExtentSize()
      requires Shape.x >= 1 && Shape.y >= 1
      ensures DungeonShape() == Vec(DungeonExtent().width, DungeonExtent().height)
    {
    }

    /** Intersects: the extents of the two blocks overlap. */
    predicate Intersects(other: DungeonBlock)
      reads this, other
    {
      DungeonExtent().Overlaps(other.DungeonExtent())
    }

    /** Local cells moved to dungeon coordinates, values kept. */
    function ToDungeonCells(cs: seq<Cell>): (r: seq<Cell>)
      reads this
      ensures |r| == |cs|
      ensures forall i :: 0 <= i < |cs| ==> r[i] == Cell(BlockCoordinatesToDungeon(cs[i].pos), cs[i].value)
    {
      seq(|cs|, i requires 0 <= i < |cs| reads this => Cell(BlockCoordinatesToDungeon(cs[i].pos), cs[i].value))
    }

    /** Assumed DungeonPositions(pred): the cells whose value satisfies `pred`, row-major, in dungeon coordinates. */
    function DungeonPositions(p: int -> bool): seq<Cell>
      reads this
    {
      ToDungeonCells(GetAll(data, p))
    }

    /** A dungeon cell is listed with value v exactly when some block cell transformed to it holds v and v passes. */
    lemma DungeonPositionsMembers(p: int -> bool, w: Vec, v: int)
      ensures Cell(w, v) in DungeonPositions(p) <==>
        exists c :: InBounds(data, c) && w == BlockCoordinatesToDungeon(c) && v == data[c.y][c.x] && p(v)
    {
      var cs := GetAll(data, p);
      if Cell(w, v) in DungeonPositions(p) {
        var i :| 0 <= i < |cs| && DungeonPositions(p)[i] == Cell(w, v);
        GetAllMembers(data, p, cs[i]);
        assert cs[i] in cs;
      }
      if exists c :: InBounds(data, c) && w == BlockCoordinatesToDungeon(c) && v == data[c.y][c.x] && p(v) {
        var c :| InBounds(data, c) && w == BlockCoordinatesToDungeon(c) && v == data[c.y][c.x] && p(v);
        GetAllMembers(data, p, Cell(c, v));
        var i :| 0 <= i < |cs| && cs[i] == Cell(c, v);
        assert DungeonPositions(p)[i] == Cell(w, v);
      }
    }

    /** Each dungeon cell is listed at most once. */
    lemma DungeonPositionsDistinct(p: int -> bool)
      ensures Seqs.Distinct(Keys(DungeonPositions(p)))
    {
      var cs := GetAll(data, p);
      GetAllSorted(data, p);
      forall i, j | 0 <= i < j < |cs|
        ensures Keys(DungeonPositions(p))[i] != Keys(DungeonPositions(p))[j]
      {
        TransformPivotAndInjective(cs[i].pos, cs[j].pos);
      }
    }

    /** GetValue (not shown in the source): the tile at a dungeon cell, Nothing outside the block. */
    function GetValue(w: Vec): int
      reads this
    {
      var c := DungeonCoordinatesToBlock(w);
      if InBounds(data, c) then data[c.y][c.x] else Tiles.Nothing
    }

    /** Looking up a listed dungeon cell gives back the value listed with it. */
    lemma GetValueOfPosition(p: int -> bool, i: nat)
      requires i < |DungeonPositions(p)|
      ensures GetValue(DungeonPositions(p)[i].pos) == DungeonPositions(p)[i].value
    {
      var cs := GetAll(data, p);
      GetAllMembers(data, p, cs[i]);
      assert cs[i] in cs;
      TransformRoundTrip(cs[i].pos, Zero);
    }

    /**
     * FilledDungeonPositions: the non-zero cells in row-major order with their dungeon
     * coordinates and values; there are as many as CountNonZero counts.
     */
    method FilledDungeonPositions() returns (r: seq<Cell>)
      requires Valid()
      ensures r == DungeonPositions(NonZero)
      ensures |r| == |MathHelpers.Filled(data)|
    {
      r := [];
      var y := 0;
      while y < Shape.y
        invariant 0 <= y <= Shape.y
        invariant r == ToDungeonCells(Cells(data, y, NonZero))
      {
        var x := 0;
        while x < Shape.x
          invariant 0 <= x <= Shape.x
          invariant r == ToDungeonCells(Cells(data, y, NonZero) + RowCells(data[y], y, x, NonZero))
        {
          RowCellsStep(data, y, x, NonZero);
          var value := data[y][x];
          if value != 0 {
            r := r + [Cell(BlockCoordinatesToDungeon(Vec(x, y)), value)];
          }
          x := x + 1;
        }
        y := y + 1;
      }
    }

    /**
     * CollidesWith: false with no positions when the extents do not overlap; otherwise the other
     * block's filled dungeon cells that are also filled here, and whether there are any.
     */
    function CollidesWith(other: DungeonBlock): (r: (bool, seq<Vec>))
      reads this, other
      ensures !Intersects(other) ==> r == (false, [])
      ensures r.0 <==> |r.1| > 0
      ensures forall i :: 0 <= i < |r.1| ==>
        r.1[i] in Keys(DungeonPositions(NonZero)) && r.1[i] in Keys(other.DungeonPositions(NonZero))
    {
      if !Intersects(other) then (false, [])
      else
        var mine := Keys(DungeonPositions(NonZero));
        var colliding := Seqs.Filter(Keys(other.DungeonPositions(NonZero)), q => q in mine);
        (|colliding| > 0, colliding)
    }

    /** A filled dungeon cell always lies in the block's extent. */
    lemma FilledInExtent(w: Vec)
      requires Valid() && w in Keys(DungeonPositions(NonZero))
      ensures DungeonExtent().Contains(w)
    {
      var ks := Keys(DungeonPositions(NonZero));
      var i :| 0 <= i < |ks| && ks[i] == w;
      var c := DungeonPositions(NonZero)[i];
      assert c in DungeonPositions(NonZero);
      DungeonPositionsMembers(NonZero, c.pos, c.value);
      var l :| InBounds(data, l) && c.pos == BlockCoordinatesToDungeon(l) && c.value == data[l.y][l.x];
      ExtentCoversBlock(l);
    }

    /** The extent test drops no collision: the positions are exactly the cells filled in both blocks. */
    lemma CollidesWithExact(other: DungeonBlock, w: Vec)
      requires Valid() && other.Valid()
      ensures w in CollidesWith(other).1 <==>
        w in Keys(DungeonPositions(NonZero)) && w in Keys(other.DungeonPositions(NonZero))
    {
      var theirs := Keys(other.DungeonPositions(NonZero));
      if w in Keys(DungeonPositions(NonZero)) && w in theirs {
        FilledInExtent(w);
        other.FilledInExtent(w);
        if !Intersects(other) {
          NoOverlapNoCommonCell(DungeonExtent(), other.DungeonExtent(), w);
        }
        var i :| 0 <= i < |theirs| && theirs[i] == w;
        assert w in CollidesWith(other).1;
      }
      if w in CollidesWith(other).1 {
        var i :| 0 <= i < |CollidesWith(other).1| && CollidesWith(other).1[i] == w;
      }
    }

    /** Collision is symmetric: the same answer and the same set of positions whichever block asks. */
    lemma CollidesWithSymmetric(other: DungeonBlock)
      ensures CollidesWith(other).0 == other.CollidesWith(this).0
      ensures forall w :: w in CollidesWith(other).1 <==> w in other.CollidesWith(this).1
    {
      OverlapsSymmetric(DungeonExtent(), other.DungeonExtent());
      var a, b := CollidesWith(other).1, other.CollidesWith(this).1;
      forall w ensures w in a <==> w in b {
        if w in a {
          var i :| 0 <= i < |a| && a[i] == w;
          var mine := Keys(DungeonPositions(NonZero));
          var j :| 0 <= j < |mine| && mine[j] == w;
        }
        if w in b {
          var i :| 0 <= i < |b| && b[i] == w;
          var theirs := Keys(other.DungeonPositions(NonZero));
          var j :| 0 <= j < |theirs| && theirs[j] == w;
        }
      }
      if |a| > 0 {
        assert a[0] in b;
      }
      if |b| > 0 {
        assert b[0] in a;
      }
    }
  }
}
