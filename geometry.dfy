/**
 * Integer grid geometry: stand-ins for the engine's Vector2Int and RectInt and for the
 * vector helpers (ManhattanDistance, IsUnit) that the dungeon code calls but does not show.
 */
module Geometry {

  /** A Vector2Int. */
  datatype Vec = Vec(x: int, y: int)

  const Zero := Vec(0, 0)
  const One := Vec(1, 1)

  function Add(a: Vec, b: Vec): Vec { Vec(a.x + b.x, a.y + b.y) }
  function Sub(a: Vec, b: Vec): Vec { Vec(a.x - b.x, a.y - b.y) }

  function Abs(n: int): nat { if n < 0 then -n else n }
  function Min(a: int, b: int): int { if a <= b then a else b }
  function Max(a: int, b: int): int { if a <= b then b else a }

  /** Assumed ManhattanDistance: |x| + |y| of a difference vector. */
  function Manhattan(v: Vec): nat { Abs(v.x) + Abs(v.y) }

  /** Assumed IsUnit: the vector is one of the four cardinal unit steps. */
  predicate IsUnit(v: Vec) { Manhattan(v) == 1 }

  /** A RectInt: corner (x, y) and signed size; the covered cells are half-open on both axes. */
  datatype Rect = Rect(x: int, y: int, width: int, height: int) {
    function XMin(): int { Min(x, x + width) }
    function XMax(): int { Max(x, x + width) }
    function YMin(): int { Min(y, y + height) }
    function YMax(): int { Max(y, y + height) }

    predicate Contains(p: Vec) {
      XMin() <= p.x < XMax() && YMin() <= p.y < YMax()
    }

    /** RectInt.Overlaps: the half-open rectangles share an interior cell range on both axes. */
    predicate Overlaps(other: Rect) {
      other.XMin() < XMax() && other.XMax() > XMin() && other.YMin() < YMax() && other.YMax() > YMin()
    }
  }

  /** The triangle inequality for grid distance. */
  lemma ManhattanTriangle(a: Vec, b: Vec, c: Vec)
    ensures Manhattan(Sub(a, c)) <= Manhattan(Sub(a, b)) + Manhattan(Sub(b, c))
  {
  }

  /** A cell one step from `a` is at least two steps from anything more than two steps from `a`. */
  lemma StepKeepsApart(a: Vec, b: Vec, c: Vec)
    requires IsUnit(Sub(b, a)) && Manhattan(Sub(a, c)) > 2
    ensures Manhattan(Sub(c, b)) >= 2
  {
    ManhattanTriangle(a, b, c);
  }

  /** The rectangle with the given corner and size (new RectInt(offset, shape)). */
  function RectAt(offset: Vec, size: Vec): Rect { Rect(offset.x, offset.y, size.x, size.y) }

  lemma OverlapsSymmetric(a: Rect, b: Rect)
    ensures a.Overlaps(b) == b.Overlaps(a)
  {
  }

  /** Rectangles that do not overlap share no cell: the overlap test is a sound pre-filter. */
  lemma NoOverlapNoCommonCell(a: Rect, b: Rect, p: Vec)
    requires !a.Overlaps(b)
    ensures !(a.Contains(p) && b.Contains(p))
  {
  }

  /** Grid distance does not depend on the direction it is measured in. */
  lemma ManhattanSymmetric(a: Vec, b: Vec)
    ensures Manhattan(Sub(a, b)) == Manhattan(Sub(b, a))
  {
  }

  /** The cells of `cs` more than `d` steps from `p` (a Where on ManhattanDistance), in their order. */
  function FartherThan(cs: seq<Vec>, p: Vec, d: int): seq<Vec> {
    if cs == [] then []
    else (if Manhattan(Sub(cs[0], p)) > d then [cs[0]] else []) + FartherThan(cs[1..], p, d)
  }

  lemma {:induction false} FartherThanMembers(cs: seq<Vec>, p: Vec, d: int)
    ensures forall c :: c in FartherThan(cs, p, d) <==> c in cs && Manhattan(Sub(c, p)) > d
  {
    if cs != [] {
      FartherThanMembers(cs[1..], p, d);
      assert cs == [cs[0]] + cs[1..];
    }
  }

  /** `p` is one step from some cell of `cs`. */
  predicate NextToSome(cs: seq<Vec>, p: Vec) {
    exists c :: c in cs && IsUnit(Sub(p, c))
  }
}
