/** FourDirection: the four orientations, their unit vectors, vector rotation and cyclic rotation. */
module FourDirections {
  import opened Geometry
  import opened Wrappers
  import MathHelpers

  datatype FourDirection = North | East | South | West

  /** The fixed cyclic order used for rotation arithmetic. */
  const Directions: seq<FourDirection> := [North, East, South, West]

  /** AsVector: the unit vector a direction points along. */
  function AsVector(direction: FourDirection): (v: Vec)
    ensures IsUnit(v)
  {
    match direction
    case North => Vec(0, 1)
    case West => Vec(-1, 0)
    case South => Vec(0, -1)
    case East => Vec(1, 0)
  }

  /** AsDirections: the unit vectors of the directions, in North, East, South, West order. */
  function AsDirections(): (vs: seq<Vec>)
    ensures vs == [Vec(0, 1), Vec(1, 0), Vec(0, -1), Vec(-1, 0)]
  {
    seq(|Directions|, i requires 0 <= i < |Directions| => AsVector(Directions[i]))
  }

  /** The four direction vectors are exactly the unit steps of the grid. */
  lemma UnitVectorsAreDirections(v: Vec)
    ensures IsUnit(v) <==> v in AsDirections()
  {
    if IsUnit(v) {
      assert v.x == 0 || v.y == 0;
    }
  }

  /** RotateVector: express `vector`, given for up = North, for the orientation `up`. */
  function RotateVector(up: FourDirection, vector: Vec): Vec {
    match up
    case North => vector
    case South => Vec(-vector.x, -vector.y)
    case East => Vec(vector.y, -vector.x)
    case West => Vec(-vector.y, vector.x)
  }

  /** The orientation whose rotation undoes `d`'s: East and West swap, North and South are their own. */
  function Inverse(d: FourDirection): FourDirection {
    match d
    case North => North
    case East => West
    case South => South
    case West => East
  }

  lemma RotateNorthIsIdentity(v: Vec)
    ensures RotateVector(North, v) == v
  {
  }

  /** Every rotation keeps the Manhattan length of a vector. */
  lemma RotatePreservesManhattan(d: FourDirection, v: Vec)
    ensures Manhattan(RotateVector(d, v)) == Manhattan(v)
  {
  }

  /** Rotating by the inverse orientation restores the vector (West after East, South after South). */
  lemma RotateInverse(d: FourDirection, v: Vec)
    ensures RotateVector(Inverse(d), RotateVector(d, v)) == v
    ensures RotateVector(d, RotateVector(Inverse(d), v)) == v
  {
  }

  /** Rotating by the same orientation twice is not the identity for East or West. */
  lemma SameOrientationIsNotInverse()
    ensures RotateVector(East, RotateVector(East, Vec(1, 0))) != Vec(1, 0)
    ensures RotateVector(West, RotateVector(West, Vec(1, 0))) != Vec(1, 0)
  {
  }

  /** Rotation is linear: it distributes over vector addition and subtraction. */
  lemma RotateLinear(d: FourDirection, a: Vec, b: Vec)
    ensures RotateVector(d, Add(a, b)) == Add(RotateVector(d, a), RotateVector(d, b))
    ensures RotateVector(d, Sub(a, b)) == Sub(RotateVector(d, a), RotateVector(d, b))
  {
  }

  /** The position of a direction in the cyclic order. */
  function IndexOf(d: FourDirection): (i: nat)
    ensures i < |Directions| && Directions[i] == d
  {
    match d
    case North => 0
    case East => 1
    case South => 2
    case West => 3
  }

  /**
   * RotateCW, as intended by "number of 90 degrees steps": move `steps` places along the cycle.
   * The source reduces the index by `steps` instead of 4 (see RotateCWAsWritten).
   */
  function RotateCW(direction: FourDirection, steps: int := 1): FourDirection {
    MathHelpers.ModIsEuclidean(IndexOf(direction) + steps, 4);
    Directions[MathHelpers.Mod(IndexOf(direction) + steps, 4)]
  }

  /** RotateCCW: a clockwise rotation by `-steps`. */
  function RotateCCW(direction: FourDirection, steps: int := 1): FourDirection {
    RotateCW(direction, -steps)
  }

  /** The index of a rotated direction is the start index plus the steps, modulo 4. */
  lemma IndexOfRotateCW(d: FourDirection, steps: int)
    ensures IndexOf(RotateCW(d, steps)) == (IndexOf(d) + steps) % 4
  {
    MathHelpers.ModIsEuclidean(IndexOf(d) + steps, 4);
    var i := (IndexOf(d) + steps) % 4;
    assert Directions[i] == RotateCW(d, steps);
  }

  /** Two rotations compose to one by the summed number of steps. */
  lemma RotateCWAdds(d: FourDirection, a: int, b: int)
    ensures RotateCW(RotateCW(d, a), b) == RotateCW(d, a + b)
  {
    var x := IndexOf(d) + a;
    IndexOfRotateCW(d, a);
    IndexOfRotateCW(RotateCW(d, a), b);
    IndexOfRotateCW(d, a + b);
    DivMod4(x);
    ModShift(x + b, x / 4);
    IndexOfInjective(RotateCW(RotateCW(d, a), b), RotateCW(d, a + b));
  }

  lemma DivMod4(x: int)
    ensures x == 4 * (x / 4) + x % 4
  {
  }

  lemma ModShift(x: int, k: int)
    ensures (x - 4 * k) % 4 == x % 4
  {
    MathHelpers.EuclidUnique(x - 4 * k, 4, x / 4 - k, x % 4);
  }

  /** Directions that agree on their index are equal. */
  lemma IndexOfInjective(a: FourDirection, b: FourDirection)
    requires IndexOf(a) == IndexOf(b)
    ensures a == b
  {
  }

  /** One quarter turn clockwise: North, East, South, West, North. */
  lemma RotateCWOnce(d: FourDirection)
    ensures RotateCW(d) == match d case North => East case East => South case South => West case West => North
  {
    IndexOfRotateCW(d, 1);
    var i := IndexOf(d);
    if i == 3 {
      MathHelpers.EuclidUnique(4, 4, 1, 0);
    } else {
      MathHelpers.EuclidUnique(i + 1, 4, 0, i + 1);
    }
    assert IndexOf(RotateCW(d, 1)) == (i + 1) % 4;
  }

  /** Four quarter turns clockwise return to the start. */
  lemma RotateCWFourTimes(d: FourDirection)
    ensures RotateCW(RotateCW(RotateCW(RotateCW(d, 1), 1), 1), 1) == d
    ensures RotateCW(d, 4) == d
  {
    var d1 := RotateCW(d, 1);
    var d2 := RotateCW(d1, 1);
    var d3 := RotateCW(d2, 1);
    RotateCWOnce(d);
    RotateCWOnce(d1);
    RotateCWOnce(d2);
    RotateCWOnce(d3);
    IndexOfRotateCW(d, 4);
    MathHelpers.EuclidUnique(IndexOf(d) + 4, 4, 1, IndexOf(d));
    IndexOfInjective(RotateCW(d, 4), d);
  }

  /** A counter-clockwise rotation by k undoes a clockwise rotation by k, and conversely. */
  lemma RotateCCWUndoesCW(d: FourDirection, k: int)
    ensures RotateCCW(RotateCW(d, k), k) == d
    ensures RotateCW(RotateCCW(d, k), k) == d
  {
    RotateCWAdds(d, k, -k);
    RotateCWAdds(d, -k, k);
    IndexOfRotateCW(d, 0);
    IndexOfInjective(RotateCW(d, 0), d);
  }

  /** One quarter turn counter-clockwise, the default step: North, West, South, East, North. */
  lemma RotateCCWOnce(d: FourDirection)
    ensures RotateCCW(d) == match d case North => West case East => North case South => East case West => South
  {
    var e := match d case North => West case East => North case South => East case West => South;
    RotateCWOnce(e);
    RotateCCWUndoesCW(e, 1);
  }

  /** Rotating a vector by East turns each direction's vector into that of the next direction clockwise. */
  lemma RotateEastTurnsClockwise(d: FourDirection)
    ensures RotateVector(East, AsVector(d)) == AsVector(RotateCW(d, 1))
  {
    RotateCWOnce(d);
  }

  /** A vector rotation by East after one by `d` is the rotation by the next direction clockwise. */
  lemma RotateEastComposes(d: FourDirection, v: Vec)
    ensures RotateVector(East, RotateVector(d, v)) == RotateVector(RotateCW(d, 1), v)
  {
    RotateCWOnce(d);
  }

  /**
   * RotateCW as written: `directions[pos.Mod(steps)]`. None stands for the exceptions it can raise:
   * division by zero when `steps == 0`, and an index outside the list.
   */
  function RotateCWAsWritten(direction: FourDirection, steps: int): Option<FourDirection> {
    if steps == 0 then None
    else
      var i := MathHelpers.Mod(IndexOf(direction) + steps, steps);
      if 0 <= i < |Directions| then Some(Directions[i]) else None
  }

  /** As written, one step clockwise (and one counter-clockwise) always lands on North, and zero steps throw. */
  lemma RotateCWAsWrittenIsWrong(d: FourDirection)
    ensures RotateCWAsWritten(d, 1) == Some(North)
    ensures RotateCWAsWritten(d, -1) == Some(North)
    ensures RotateCWAsWritten(d, 0) == None
    ensures RotateCWAsWritten(North, 1) != Some(RotateCW(North, 1))
  {
    IndexOfRotateCW(North, 1);
  }
}
