/**
 * HallBlockGenerator: mark a few well-spaced Exit tiles on the outer rings of an empty block,
 * then dig Hall tiles between them by random walks over the cells still free to dig.
 */
module HallGeneration {
  import opened Geometry
  import opened Grids
  import opened Wrappers
  import Tiles
  import Seqs
  import Random
  import Blocks

  /** The generator's serialized settings. */
  datatype HallConfig = HallConfig(
    blockShape: Vec,
    exitOptions: seq<int>,
    exitRings: int,
    closestExitProximity: int)

  /** The field initialisers of the source class. */
  const DefaultConfig := HallConfig(Vec(9, 9), [1, 2, 2, 3, 3, 3, 3, 3, 4], 2, 7)

  /**
   * Settings Generate can run on: a non-negative block shape (it sizes an array) and a non-empty
   * option list (indexed by a random draw). The proximity may be any integer.
   */
  predicate ValidConfig(cfg: HallConfig) {
    && cfg.blockShape.x >= 0 && cfg.blockShape.y >= 0
    && |cfg.exitOptions| > 0
  }

  predicate IsNothing(v: int) { v == Tiles.Nothing }

  // ---------------------------------------------------------------------------------------------
  // Exits

  /** `c` is a cell of a `shape` grid fewer than `rings` cells from its border. */
  predicate InRing(shape: Vec, rings: int, c: Vec) {
    && 0 <= c.x < shape.x && 0 <= c.y < shape.y
    && (c.x < rings || c.y < rings || c.x >= shape.x - rings || c.y >= shape.y - rings)
  }

  /** The ring cells among the first `n` cells of row `y`. */
  function RingRow(shape: Vec, rings: int, y: int, n: nat): seq<Vec> {
    if n == 0 then []
    else RingRow(shape, rings, y, n - 1) + (if InRing(shape, rings, Vec(n - 1, y)) then [Vec(n - 1, y)] else [])
  }

  /** The ring cells of the first `n` rows. */
  function RingRows(shape: Vec, rings: int, n: nat): seq<Vec>
    requires shape.x >= 0
  {
    if n == 0 then [] else RingRows(shape, rings, n - 1) + RingRow(shape, rings, n - 1, shape.x)
  }

  /** Assumed GetOuterRingCoordinates(rings): the cells fewer than `rings` cells from the border, row-major. */
  function OuterRing(shape: Vec, rings: int): seq<Vec>
    requires shape.x >= 0 && shape.y >= 0
  {
    RingRows(shape, rings, shape.y)
  }

  lemma {:induction false} RingRowMembers(shape: Vec, rings: int, y: int, n: nat, c: Vec)
    ensures c in RingRow(shape, rings, y, n) <==> c.y == y && 0 <= c.x < n && InRing(shape, rings, c)
  {
    if n > 0 {
      RingRowMembers(shape, rings, y, n - 1, c);
    }
  }

  lemma {:induction false} RingRowsMembers(shape: Vec, rings: int, n: nat, c: Vec)
    requires shape.x >= 0
    ensures c in RingRows(shape, rings, n) <==> 0 <= c.y < n && InRing(shape, rings, c)
  {
    if n > 0 {
      RingRowsMembers(shape, rings, n - 1, c);
      RingRowMembers(shape, rings, n - 1, shape.x, c);
    }
  }

  /** The outer ring holds exactly the cells near the border. */
  lemma OuterRingMembers(shape: Vec, rings: int, c: Vec)
    requires shape.x >= 0 && shape.y >= 0
    ensures c in OuterRing(shape, rings) <==> InRing(shape, rings, c)
  {
    RingRowsMembers(shape, rings, shape.y, c);
  }

  /** Each later cell of `cs` is more than `d` steps from every earlier one. */
  predicate Spaced(cs: seq<Vec>, d: int) {
    forall i, j :: 0 <= i < j < |cs| ==> Manhattan(Sub(cs[j], cs[i])) > d
  }

  /** Cells spaced by a non-negative distance are distinct. */
  lemma SpacedDistinct(cs: seq<Vec>, d: int)
    requires d >= 0 && Spaced(cs, d)
    ensures Seqs.Distinct(cs)
  {
    forall i, j | 0 <= i < j < |cs| ensures cs[i] != cs[j] {
      assert Manhattan(Sub(cs[j], cs[i])) > d;
    }
  }

  /** Every candidate is more than `d` steps from every placed cell. */
  predicate AllFarther(cs: seq<Vec>, placed: seq<Vec>, d: int) {
    forall c, i :: c in cs && 0 <= i < |placed| ==> Manhattan(Sub(c, placed[i])) > d
  }

  /** Placing a candidate and keeping only the candidates far from it keeps both spacing facts. */
  lemma PlaceFarther(cs: seq<Vec>, placed: seq<Vec>, d: int, e: Vec)
    requires e in cs && AllFarther(cs, placed, d) && Spaced(placed, d)
    ensures AllFarther(FartherThan(cs, e, d), placed + [e], d) && Spaced(placed + [e], d)
    ensures forall c :: c in FartherThan(cs, e, d) ==> c in cs
  {
    FartherThanMembers(cs, e, d);
    KeepFarther(FartherThan(cs, e, d), cs, placed, d, e);
    PlaceSpaced(cs, placed, d, e);
  }

  lemma KeepFarther(kept: seq<Vec>, cs: seq<Vec>, placed: seq<Vec>, d: int, e: Vec)
    requires forall c :: c in kept ==> c in cs && Manhattan(Sub(c, e)) > d
    requires AllFarther(cs, placed, d)
    ensures AllFarther(kept, placed + [e], d)
  {
    var placed' := placed + [e];
    forall c, i | c in kept && 0 <= i < |placed'| ensures Manhattan(Sub(c, placed'[i])) > d {
      if i < |placed| {
        assert placed'[i] == placed[i];
      }
    }
  }

  lemma PlaceSpaced(cs: seq<Vec>, placed: seq<Vec>, d: int, e: Vec)
    requires e in cs && AllFarther(cs, placed, d) && Spaced(placed, d)
    ensures Spaced(placed + [e], d)
  {
    var placed' := placed + [e];
    forall i, j | 0 <= i < j < |placed'| ensures Manhattan(Sub(placed'[j], placed'[i])) > d {
      assert placed'[i] == placed[i];
      if j < |placed| {
        assert placed'[j] == placed[j];
      }
    }
  }

  /** Some exit lies within `d` steps of `c`. */
  predicate Near(exits: seq<Vec>, c: Vec, d: int) {
    exists i :: 0 <= i < |exits| && Manhattan(Sub(c, exits[i])) <= d
  }

  /** An exit placed after the others makes a cell near exactly when it alone is close enough. */
  lemma NearSnoc(exits: seq<Vec>, e: Vec, c: Vec, d: int)
    ensures Near(exits + [e], c, d) <==> Near(exits, c, d) || Manhattan(Sub(c, e)) <= d
  {
    var exits' := exits + [e];
    if Near(exits', c, d) {
      var i :| 0 <= i < |exits'| && Manhattan(Sub(c, exits'[i])) <= d;
      if i < |exits| {
        assert exits'[i] == exits[i];
      }
    }
    if Near(exits, c, d) {
      var i :| 0 <= i < |exits| && Manhattan(Sub(c, exits[i])) <= d;
      assert exits'[i] == exits[i];
    }
    if Manhattan(Sub(c, e)) <= d {
      assert exits'[|exits|] == e;
    }
  }

  /** Every ring cell not near an exit is still a candidate. */
  ghost predicate RingKept(cfg: HallConfig, candidates: seq<Vec>, exits: seq<Vec>) {
    forall c :: InRing(cfg.blockShape, cfg.exitRings, c) && !Near(exits, c, cfg.closestExitProximity) ==> c in candidates
  }

  /**
   * One pass of the exit loop: pick a random remaining candidate, mark it Exit, and keep the
   * candidates more than `closestExitProximity` steps from it.
   */
  method ExitStep(cfg: HallConfig, data: array2<int>, ghost orig: Grid, candidates: seq<Vec>, exits: seq<Vec>)
    returns (candidates': seq<Vec>, exits': seq<Vec>)
    requires IsShape(orig, cfg.blockShape) && |candidates| > 0
    requires forall c :: c in candidates ==> InRing(cfg.blockShape, cfg.exitRings, c)
    requires forall k :: 0 <= k < |exits| ==> InRing(cfg.blockShape, cfg.exitRings, exits[k])
    requires AllFarther(candidates, exits, cfg.closestExitProximity) && Spaced(exits, cfg.closestExitProximity)
    requires RingKept(cfg, candidates, exits)
    requires Stamped(data, orig, exits, Tiles.Exit)
    modifies data
    ensures |exits'| == |exits| + 1 && exits' == exits + [exits'[|exits|]]
    ensures exits'[|exits|] in candidates
    ensures forall c :: c in candidates' ==> c in candidates
    ensures forall k :: 0 <= k < |exits'| ==> InRing(cfg.blockShape, cfg.exitRings, exits'[k])
    ensures AllFarther(candidates', exits', cfg.closestExitProximity) && Spaced(exits', cfg.closestExitProximity)
    ensures RingKept(cfg, candidates', exits')
    ensures Stamped(data, orig, exits', Tiles.Exit)
  {
    var pick := Random.Range(0, |candidates|);
    var exit := candidates[pick];
    assert exit in candidates;
    PlaceFarther(candidates, exits, cfg.closestExitProximity, exit);
    candidates' := FartherThan(candidates, exit, cfg.closestExitProximity);
    exits' := exits + [exit];
    forall k | 0 <= k < |exits'| ensures InRing(cfg.blockShape, cfg.exitRings, exits'[k]) {
      if k < |exits| {
        assert exits'[k] == exits[k];
      }
    }
    forall c | InRing(cfg.blockShape, cfg.exitRings, c) && !Near(exits', c, cfg.closestExitProximity)
      ensures c in candidates'
    {
      NearSnoc(exits, exit, c, cfg.closestExitProximity);
      FartherThanMembers(candidates, exit, cfg.closestExitProximity);
    }
    Stamp(data, orig, exits, exit, Tiles.Exit);
  }

  /**
   * AddExits: draw the number of exits `nExits`, then repeatedly mark a random outer-ring
   * candidate as Exit and drop the candidates within `closestExitProximity` of it, until `nExits`
   * exits are placed or no candidate is left. `ok == false` stands for indexing the empty
   * candidate list on the first pass.
   */
  method AddExits(cfg: HallConfig, data: array2<int>, ghost orig: Grid) returns (ok: bool, exits: seq<Vec>, ghost nExits: int)
    requires ValidConfig(cfg) && IsShape(orig, cfg.blockShape)
    requires Stamped(data, orig, [], Tiles.Exit)
    modifies data
    ensures nExits in cfg.exitOptions
    ensures !ok <==> OuterRing(cfg.blockShape, cfg.exitRings) == [] && nExits > 0
    ensures !ok ==> exits == []
    ensures |exits| <= Max(nExits, 0) && (ok && nExits > 0 ==> |exits| > 0)
    ensures ok && |exits| < nExits ==>
      forall c :: InRing(cfg.blockShape, cfg.exitRings, c) ==> Near(exits, c, cfg.closestExitProximity)
    ensures forall i :: 0 <= i < |exits| ==> InRing(cfg.blockShape, cfg.exitRings, exits[i])
    ensures Spaced(exits, cfg.closestExitProximity)
    ensures Stamped(data, orig, exits, Tiles.Exit)
  {
    var optionPick := Random.Range(0, |cfg.exitOptions|);
    var n := cfg.exitOptions[optionPick];
    nExits := n;
    var exitCandidates := OuterRing(cfg.blockShape, cfg.exitRings);
    forall c | c in exitCandidates ensures InRing(cfg.blockShape, cfg.exitRings, c) {
      OuterRingMembers(cfg.blockShape, cfg.exitRings, c);
    }
    forall c | InRing(cfg.blockShape, cfg.exitRings, c) ensures c in exitCandidates {
      OuterRingMembers(cfg.blockShape, cfg.exitRings, c);
    }
    exits := [];
    var i := 0;
    while i < n
      invariant 0 <= i == |exits| && (i > 0 ==> i <= n)
      invariant i == 0 ==> exitCandidates == OuterRing(cfg.blockShape, cfg.exitRings)
      invariant i > 0 ==> |exitCandidates| > 0 && OuterRing(cfg.blockShape, cfg.exitRings) != []
      invariant forall c :: c in exitCandidates ==> InRing(cfg.blockShape, cfg.exitRings, c)
      invariant forall k :: 0 <= k < |exits| ==> InRing(cfg.blockShape, cfg.exitRings, exits[k])
      invariant AllFarther(exitCandidates, exits, cfg.closestExitProximity) && Spaced(exits, cfg.closestExitProximity)
      invariant RingKept(cfg, exitCandidates, exits)
      invariant Stamped(data, orig, exits, Tiles.Exit)
      decreases n - i
    {
      if |exitCandidates| == 0 {
        return false, exits, nExits;
      }
      exitCandidates, exits := ExitStep(cfg, data, orig, exitCandidates, exits);
      i := i + 1;
      if |exitCandidates| == 0 {
        break;
      }
    }
    ok := true;
  }

  // ---------------------------------------------------------------------------------------------
  // Dig targets

  /** The Nothing cells more than `d` steps from `source`: the last-resort targets of GetDigTarget. */
  function FarEmptyCells(g: Grid, source: Vec, d: int): seq<Vec> {
    FartherThan(Positions(g, IsNothing), source, d)
  }

  lemma FarEmptyCellsMembers(g: Grid, source: Vec, d: int, c: Vec)
    ensures c in FarEmptyCells(g, source, d) <==>
      InBounds(g, c) && At(g, c) == Tiles.Nothing && Manhattan(Sub(c, source)) > d
  {
    FartherThanMembers(Positions(g, IsNothing), source, d);
    PositionsMembers(g, IsNothing, c);
  }

  /**
   * GetDigTarget: a random pending exit when there is one (and then `fromExits`), else a random
   * dug hall, else a random Nothing cell far from the source. `ok == false` stands for the
   * ArgumentException when none of the three exists.
   */
  method GetDigTarget(cfg: HallConfig, source: Vec, exits: seq<Vec>, halls: seq<Vec>, data: array2<int>)
    returns (ok: bool, fromExits: bool, target: Vec)
    ensures !ok <==> exits == [] && halls == [] && FarEmptyCells(Snapshot(data), source, cfg.closestExitProximity) == []
    ensures ok ==> (fromExits <==> exits != [])
    ensures ok && exits != [] ==> target in exits
    ensures ok && exits == [] && halls != [] ==> target in halls
    ensures ok && exits == [] && halls == [] ==>
      && InBounds(Snapshot(data), target) && At(Snapshot(data), target) == Tiles.Nothing
      && Manhattan(Sub(target, source)) > cfg.closestExitProximity
  {
    if |exits| > 0 {
      var pick := Random.Range(0, |exits|);
      return true, true, exits[pick];
    } else if |halls| > 0 {
      var pick := Random.Range(0, |halls|);
      return true, false, halls[pick];
    }
    var options := FarEmptyCells(Snapshot(data), source, cfg.closestExitProximity);
    if |options| == 0 {
      return false, false, source;
    }
    var pick := Random.Range(0, |options|);
    target := options[pick];
    assert target in options;
    FarEmptyCellsMembers(Snapshot(data), source, cfg.closestExitProximity, target);
    return true, false, target;
  }

  // ---------------------------------------------------------------------------------------------
  // Walks

  /** The cells of `cs` one step from `p`, in their order. */
  function Adjacent(cs: seq<Vec>, p: Vec): (r: seq<Vec>)
    ensures forall c :: c in r <==> c in cs && IsUnit(Sub(c, p))
  {
    if cs == [] then []
    else
      assert cs == [cs[0]] + cs[1..];
      (if IsUnit(Sub(cs[0], p)) then [cs[0]] else []) + Adjacent(cs[1..], p)
  }

  /** The cells of `cs` not one step from `p`, in their order. */
  function NotAdjacent(cs: seq<Vec>, p: Vec): (r: seq<Vec>)
    ensures forall c :: c in r <==> c in cs && !IsUnit(Sub(c, p))
    ensures |r| <= |cs|
  {
    if cs == [] then []
    else
      assert cs == [cs[0]] + cs[1..];
      (if IsUnit(Sub(cs[0], p)) then [] else [cs[0]]) + NotAdjacent(cs[1..], p)
  }

  /** Dropping the neighbours of `p` drops at least the neighbour `q`. */
  lemma {:induction false} NotAdjacentShrinks(cs: seq<Vec>, p: Vec, q: Vec)
    requires q in cs && IsUnit(Sub(q, p))
    ensures |NotAdjacent(cs, p)| < |cs|
  {
    if cs[0] != q {
      assert q in cs[1..];
      NotAdjacentShrinks(cs[1..], p, q);
    }
  }

  /** `cs.First(c => (p - c).IsUnit())`, or None when no cell of `cs` is next to `p`. */
  function FirstAdjacent(cs: seq<Vec>, p: Vec): (r: Option<Vec>)
    ensures r.Some? ==> r.value in cs && IsUnit(Sub(p, r.value))
    ensures r.Some? ==> exists i :: 0 <= i < |cs| && cs[i] == r.value && forall j :: 0 <= j < i ==> !IsUnit(Sub(p, cs[j]))
    ensures r.None? ==> forall c :: c in cs ==> !IsUnit(Sub(p, c))
  {
    if cs == [] then None
    else if IsUnit(Sub(p, cs[0])) then Some(cs[0])
    else
      assert cs == [cs[0]] + cs[1..];
      FirstAdjacent(cs[1..], p)
  }

  /** No cell of `cs` is one step from `p`. */
  predicate NoneAdjacent(cs: seq<Vec>, p: Vec) {
    forall c :: c in cs ==> !IsUnit(Sub(c, p))
  }

  /** Where a walk from `source` through `hs` stands. */
  function Last(source: Vec, hs: seq<Vec>): Vec {
    if hs == [] then source else hs[|hs| - 1]
  }

  /** `hs` is a walk from `source`: each cell one step from the one before it. */
  predicate Walk(source: Vec, hs: seq<Vec>)
    decreases |hs|
  {
    hs == [] || (Walk(source, hs[..|hs| - 1]) && IsUnit(Sub(hs[|hs| - 1], Last(source, hs[..|hs| - 1]))))
  }

  lemma WalkSnoc(source: Vec, hs: seq<Vec>, h: Vec)
    ensures Walk(source, hs + [h]) <==> Walk(source, hs) && IsUnit(Sub(h, Last(source, hs)))
  {
    assert (hs + [h])[..|hs|] == hs;
  }

  /** Each cell of `hs` is one step from an anchor or from an earlier cell of `hs`. */
  predicate Grown(anchors: seq<Vec>, hs: seq<Vec>)
    decreases |hs|
  {
    hs == [] || (Grown(anchors, hs[..|hs| - 1]) && NextToSome(anchors + hs[..|hs| - 1], hs[|hs| - 1]))
  }

  /** Halls grown from anchors stay grown when a walk from an anchor is appended. */
  lemma {:induction false} GrownWalk(anchors: seq<Vec>, prior: seq<Vec>, source: Vec, walk: seq<Vec>)
    requires source in anchors && Grown(anchors, prior) && Walk(source, walk)
    ensures Grown(anchors, prior + walk)
    decreases |walk|
  {
    if walk == [] {
      assert prior + walk == prior;
    } else {
      var n := |walk| - 1;
      var w, h := walk[..n], walk[n];
      assert walk == w + [h];
      WalkSnoc(source, w, h);
      GrownWalk(anchors, prior, source, w);
      var hs := prior + walk;
      assert hs[..|hs| - 1] == prior + w && hs[|hs| - 1] == h;
      var from := Last(source, w);
      assert from in anchors + (prior + w);
      assert IsUnit(Sub(h, from));
    }
  }

  /**
   * One step of Connect once a diggable neighbour exists: pick one at random; drop the cells
   * next to the position when it is an Exit, else just the picked cell; then either the pick is the
   * target (`reached`) or it is dug as Hall.
   */
  method WalkStep(data: array2<int>, ghost orig: Grid, ghost dug: seq<Vec>, position: Vec, target: Vec, cur: seq<Vec>)
    returns (cur': seq<Vec>, next: Vec, reached: bool)
    requires Stamped(data, orig, dug, Tiles.Hall)
    requires InBounds(orig, position) && InBounds(orig, target)
    requires forall c :: c in cur ==> InBounds(orig, c)
    requires Adjacent(cur, position) != []
    modifies data
    ensures |cur'| < |cur| && (forall c :: c in cur' ==> c in cur)
    ensures next in cur && next !in cur' && IsUnit(Sub(next, position))
    ensures reached <==> next == target
    ensures var left := if old(data[position.y, position.x]) == Tiles.Exit then NotAdjacent(cur, position) else Seqs.Remove(cur, next);
      cur' == if reached && old(data[target.y, target.x]) == Tiles.Exit then NotAdjacent(left, position) else left
    ensures reached ==> Stamped(data, orig, dug, Tiles.Hall)
    ensures !reached ==> Stamped(data, orig, dug + [next], Tiles.Hall)
  {
    var candidates := Adjacent(cur, position);
    var pick := Random.Range(0, |candidates|);
    next := candidates[pick];
    assert next in candidates;
    if data[position.y, position.x] == Tiles.Exit {
      NotAdjacentShrinks(cur, position, next);
      cur' := NotAdjacent(cur, position);
    } else {
      cur' := Seqs.Remove(cur, next);
    }
    reached := next == target;
    if reached {
      if data[target.y, target.x] == Tiles.Exit {
        cur' := NotAdjacent(cur', position);
      }
    } else {
      Stamp(data, orig, dug, next, Tiles.Hall);
    }
  }

  /** A step onto a fresh diggable cell other than the target keeps the walk's bookkeeping. */
  lemma WalkExtends(source: Vec, target: Vec, diggable: seq<Vec>, cur: seq<Vec>, cur': seq<Vec>, halls: seq<Vec>, next: Vec)
    requires Walk(source, halls) && Seqs.Distinct(halls) && target !in halls
    requires forall h :: h in halls ==> h in diggable && h !in cur
    requires forall c :: c in cur ==> c in diggable
    requires forall c :: c in cur' ==> c in cur
    requires next in cur && next !in cur' && next != target && IsUnit(Sub(next, Last(source, halls)))
    ensures Walk(source, halls + [next]) && Seqs.Distinct(halls + [next]) && target !in halls + [next]
    ensures forall h :: h in halls + [next] ==> h in diggable && h !in cur'
  {
    WalkSnoc(source, halls, next);
    Seqs.DistinctSnoc(halls, next);
  }

  /** Standing at the end of the walk `hs` from `source`, Connect is neither next to `target` nor next to one of `otherExits`. */
  predicate Unstopped(source: Vec, target: Vec, otherExits: seq<Vec>, hs: seq<Vec>) {
    !IsUnit(Sub(Last(source, hs), target)) && FirstAdjacent(otherExits, Last(source, hs)).None?
  }

  /** Connect dug each cell of `halls` from a position where it did not have to stop. */
  predicate NoEarlyStop(source: Vec, target: Vec, otherExits: seq<Vec>, halls: seq<Vec>) {
    forall k :: 0 <= k < |halls| ==> Unstopped(source, target, otherExits, halls[..k])
  }

  lemma NoEarlyStopSnoc(source: Vec, target: Vec, otherExits: seq<Vec>, halls: seq<Vec>, h: Vec)
    requires NoEarlyStop(source, target, otherExits, halls) && Unstopped(source, target, otherExits, halls)
    ensures NoEarlyStop(source, target, otherExits, halls + [h])
  {
    var hs := halls + [h];
    forall k | 0 <= k < |hs| ensures Unstopped(source, target, otherExits, hs[..k]) {
      assert hs[..k] == halls[..k];
    }
  }

  /**
   * Connect: walk from `source` through diggable cells towards `target`, digging each step as
   * Hall, until next to `target` (success), next to another exit (stop, and the cells next to that
   * exit are no longer diggable), with no diggable neighbour, or with no diggable cell left. Leaving
   * an Exit cell (the first step) drops every diggable cell next to it; otherwise only the cell
   * stepped on is dropped.
   */
  method Connect(data: array2<int>, ghost orig: Grid, ghost prior: seq<Vec>, source: Vec, target: Vec,
                 otherExits: seq<Vec>, diggable: seq<Vec>)
    returns (diggable': seq<Vec>, halls: seq<Vec>, success: bool, ghost stop: Option<Vec>)
    requires Stamped(data, orig, prior, Tiles.Hall)
    requires InBounds(orig, source) && InBounds(orig, target)
    requires forall c :: c in diggable ==> InBounds(orig, c) && c !in prior
    modifies data
    ensures Walk(source, halls) && Seqs.Distinct(halls) && target !in halls
    ensures forall h :: h in halls ==> h in diggable && h !in diggable'
    ensures forall c :: c in diggable' ==> c in diggable
    ensures |diggable'| + |halls| <= |diggable|
    ensures Stamped(data, orig, prior + halls, Tiles.Hall)
    ensures success ==> IsUnit(Sub(Last(source, halls), target)) && stop.None?
    ensures stop.Some? ==>
      stop.value in otherExits && IsUnit(Sub(Last(source, halls), stop.value)) && NoneAdjacent(diggable', stop.value)
    ensures !success && stop.None? ==> diggable' == [] || NoneAdjacent(diggable', Last(source, halls))
    ensures NoEarlyStop(source, target, otherExits, halls)
    ensures stop.Some? ==> !IsUnit(Sub(Last(source, halls), target)) && stop == FirstAdjacent(otherExits, Last(source, halls))
    ensures !success && stop.None? && diggable' != [] ==> Unstopped(source, target, otherExits, halls)
    ensures forall c :: c in diggable && c !in diggable' ==>
      || c in halls
      || (IsUnit(Sub(c, source)) && old(data[source.y, source.x]) == Tiles.Exit)
      || (success && (c == target || IsUnit(Sub(c, Last(source, halls)))))
      || (stop.Some? && IsUnit(Sub(c, stop.value)))
  {
    diggable' := diggable;
    halls := [];
    stop := None;
    var position := source;
    ghost var dug := prior;
    assert prior + halls == prior;
    while true
      invariant position == Last(source, halls) && InBounds(orig, position)
      invariant Walk(source, halls) && Seqs.Distinct(halls) && target !in halls
      invariant forall h :: h in halls ==> h in diggable && h !in diggable'
      invariant forall c :: c in diggable' ==> c in diggable
      invariant |diggable'| + |halls| <= |diggable|
      invariant dug == prior + halls && Stamped(data, orig, dug, Tiles.Hall)
      invariant NoEarlyStop(source, target, otherExits, halls)
      invariant halls == [] ==> data[source.y, source.x] == old(data[source.y, source.x])
      invariant halls != [] ==> data[position.y, position.x] == Tiles.Hall
      invariant forall c :: c in diggable && c !in diggable' ==>
        c in halls || (IsUnit(Sub(c, source)) && old(data[source.y, source.x]) == Tiles.Exit)
      decreases |diggable'|
    {
      if IsUnit(Sub(position, target)) {
        success := true;
        return;
      }
      var accidental := FirstAdjacent(otherExits, position);
      if accidental.Some? {
        ghost var before := diggable';
        diggable' := NotAdjacent(diggable', accidental.value);
        assert forall c :: c in before && c !in diggable' ==> IsUnit(Sub(c, accidental.value));
        success, stop := false, accidental;
        return;
      }
      if Adjacent(diggable', position) == [] {
        success := false;
        return;
      }
      var next, reached;
      ghost var cur := diggable';
      diggable', next, reached := WalkStep(data, orig, dug, position, target, diggable');
      if reached {
        ManhattanSymmetric(next, position);
        success := true;
        return;
      }
      WalkExtends(source, target, diggable, cur, diggable', halls, next);
      NoEarlyStopSnoc(source, target, otherExits, halls, next);
      Seqs.SnocAssoc(prior, halls, next);
      halls, dug := halls + [next], dug + [next];
      if |diggable'| == 0 {
        success := false;
        return;
      }
      position := next;
    }
  }

  // ---------------------------------------------------------------------------------------------
  // Digging

  /** A cell digging may use: inside the grid, empty in `g`, and not an exit. */
  predicate EmptyCell(g: Grid, exits: seq<Vec>, c: Vec) {
    InBounds(g, c) && At(g, c) == Tiles.Nothing && !(c in exits)
  }

  /** Some exit has no empty cell of `g` farther than `d` steps: GetDigTarget's error case for it. */
  predicate Isolated(g: Grid, exits: seq<Vec>, d: int) {
    exists s :: s in exits && FarEmptyCells(g, s, d) == []
  }

  /**
   * What DigHalls keeps between passes: the dug halls are stamped over `orig`, were empty non-exit
   * cells, are distinct and each lies next to an exit or an earlier hall; the pending exits are
   * exits; the diggable cells are empty non-exit cells not yet dug.
   */
  ghost predicate Digging(data: array2<int>, orig: Grid, exits: seq<Vec>, pending: seq<Vec>, halls: seq<Vec>, diggable: seq<Vec>)
    reads data
  {
    && Stamped(data, orig, halls, Tiles.Hall)
    && (forall e :: e in exits ==> InBounds(orig, e))
    && (forall e :: e in pending ==> e in exits)
    && (forall c :: c in diggable ==> EmptyCell(orig, exits, c) && c !in halls)
    && (forall h :: h in halls ==> EmptyCell(orig, exits, h))
    && Seqs.Distinct(halls)
    && Grown(exits, halls)
  }

  /** Appending the halls of one Connect call, a walk from an exit over diggable cells, keeps the digging invariant. */
  lemma DiggingAfterConnect(data: array2<int>, orig: Grid, exits: seq<Vec>, halls: seq<Vec>,
                            diggable: seq<Vec>, source: Vec, newHalls: seq<Vec>, diggable': seq<Vec>, pending': seq<Vec>)
    requires Stamped(data, orig, halls + newHalls, Tiles.Hall)
    requires forall e :: e in exits ==> InBounds(orig, e)
    requires forall e :: e in pending' ==> e in exits
    requires forall c :: c in diggable ==> EmptyCell(orig, exits, c) && c !in halls
    requires forall h :: h in halls ==> EmptyCell(orig, exits, h)
    requires Seqs.Distinct(halls) && Grown(exits, halls)
    requires source in exits && Walk(source, newHalls) && Seqs.Distinct(newHalls)
    requires forall h :: h in newHalls ==> h in diggable && h !in diggable'
    requires forall c :: c in diggable' ==> c in diggable
    ensures Digging(data, orig, exits, pending', halls + newHalls, diggable')
  {
    Seqs.DistinctAppend(halls, newHalls);
    GrownWalk(exits, halls, source, newHalls);
  }

  /**
   * What one pass of DigHalls did: its source, its target and whether that came from the pending
   * exits, the halls Connect dug, whether it succeeded, the other exit it stopped beside, if any,
   * whether the target tile was Exit afterwards, and whether the pool of diggable cells ran out.
   */
  datatype Pass = Pass(source: Vec, target: Vec, fromExits: bool, dug: seq<Vec>, success: bool, stop: Option<Vec>,
                       targetIsExit: bool, exhausted: bool)

  /** The exits Connect may stumble upon: every exit but the source and the target. */
  function OtherExits(exits: seq<Vec>, source: Vec, target: Vec): seq<Vec> {
    Seqs.Remove(Seqs.Remove(exits, source), target)
  }

  /** After a failed connection towards an Exit tile, the target is queued again unless digging stops. */
  predicate Requeued(p: Pass) {
    !p.success && p.targetIsExit && !p.exhausted
  }

  /** The pending exits after a pass: the source leaves, a target drawn from them leaves, a requeued target comes back last. */
  function NextPending(pending: seq<Vec>, p: Pass): seq<Vec> {
    var rest := Seqs.Remove(pending, p.source);
    (if p.fromExits then Seqs.Remove(rest, p.target) else rest) + (if Requeued(p) then [p.target] else [])
  }

  /** A pass whose source was pending, and which requeues only a target it drew from them, shrinks the queue to pending cells. */
  lemma NextPendingShrinks(pending: seq<Vec>, p: Pass)
    requires p.source in pending && (p.fromExits ==> p.target in pending && p.target != p.source)
    requires Requeued(p) ==> p.fromExits
    ensures |NextPending(pending, p)| < |pending|
    ensures forall e :: e in NextPending(pending, p) ==> e in pending
  {
    var rest := Seqs.Remove(pending, p.source);
    if p.fromExits {
      assert p.target in rest by {
        var k :| 0 <= k < |pending| && pending[k] == p.target;
      }
      assert |Seqs.Remove(rest, p.target)| < |rest|;
    }
  }

  /** `queues` holds the pending exits before each pass of `trace` and after the last, starting from `exits`. */
  predicate Replays(exits: seq<Vec>, trace: seq<Pass>, queues: seq<seq<Vec>>) {
    && |queues| == |trace| + 1 && queues[0] == exits
    && forall i :: 0 <= i < |trace| ==>
      && trace[i].source in queues[i]
      && (trace[i].fromExits <==> Seqs.Remove(queues[i], trace[i].source) != [])
      && (trace[i].fromExits ==> trace[i].target in queues[i] && trace[i].target != trace[i].source)
      && queues[i + 1] == NextPending(queues[i], trace[i])
  }

  /** Recording one more pass that started from the last queue keeps the replay. */
  lemma ReplaysSnoc(exits: seq<Vec>, trace: seq<Pass>, queues: seq<seq<Vec>>, p: Pass)
    requires Replays(exits, trace, queues)
    requires p.source in queues[|trace|] && (p.fromExits ==> p.target in queues[|trace|] && p.target != p.source)
    requires p.fromExits <==> Seqs.Remove(queues[|trace|], p.source) != []
    ensures Replays(exits, trace + [p], queues + [NextPending(queues[|trace|], p)])
  {
    var trace', queues' := trace + [p], queues + [NextPending(queues[|trace|], p)];
    forall i | 0 <= i < |trace'|
      ensures trace'[i].source in queues'[i]
      ensures trace'[i].fromExits <==> Seqs.Remove(queues'[i], trace'[i].source) != []
      ensures trace'[i].fromExits ==> trace'[i].target in queues'[i] && trace'[i].target != trace'[i].source
      ensures queues'[i + 1] == NextPending(queues'[i], trace'[i])
    {
      assert queues'[i] == queues[i];
      if i < |trace| {
        assert trace'[i] == trace[i] && queues'[i + 1] == queues[i + 1];
      }
    }
  }

  /**
   * Why pass `p` took `c` out of the pool: it became a hall, it lies next to an Exit-tile source,
   * on success it is the target or next to the end of the walk, or it lies next to the exit the
   * walk stopped beside.
   */
  ghost predicate Dropped(orig: Grid, p: Pass, c: Vec) {
    || c in p.dug
    || (IsUnit(Sub(c, p.source)) && InBounds(orig, p.source) && At(orig, p.source) == Tiles.Exit)
    || (p.success && (c == p.target || IsUnit(Sub(c, Last(p.source, p.dug)))))
    || (p.stop.Some? && IsUnit(Sub(c, p.stop.value)))
  }

  /**
   * Pass `p` ran Connect on the pool `before` and left the pool `after`: its halls are a walk from
   * the source over distinct cells of `before`, the pool only lost cells for a reason `Dropped`
   * names, and the walk ended as Connect ends.
   */
  ghost predicate PassDug(orig: Grid, exits: seq<Vec>, p: Pass, before: seq<Vec>, after: seq<Vec>) {
    && Walk(p.source, p.dug) && Seqs.Distinct(p.dug) && p.target !in p.dug
    && (forall h :: h in p.dug ==> h in before && h !in after)
    && (forall c :: c in after ==> c in before)
    && (forall c :: c in before && c !in after ==> Dropped(orig, p, c))
    && (p.exhausted <==> after == [])
    && (p.success ==> IsUnit(Sub(Last(p.source, p.dug), p.target)) && p.stop.None?)
    && (!p.success && p.stop.None? ==> after == [] || NoneAdjacent(after, Last(p.source, p.dug)))
    && NoEarlyStop(p.source, p.target, OtherExits(exits, p.source, p.target), p.dug)
    && (p.stop.Some? ==>
      && p.stop.value in exits && p.stop.value != p.source && p.stop.value != p.target
      && p.stop == FirstAdjacent(OtherExits(exits, p.source, p.target), Last(p.source, p.dug)))
  }

  /** `pools` holds the pool of diggable cells before each pass of `trace` and after the last. */
  ghost predicate Pools(orig: Grid, exits: seq<Vec>, trace: seq<Pass>, pools: seq<seq<Vec>>) {
    && |pools| == |trace| + 1
    && forall i :: 0 <= i < |trace| ==> PassDug(orig, exits, trace[i], pools[i], pools[i + 1])
  }

  lemma PoolsSnoc(orig: Grid, exits: seq<Vec>, trace: seq<Pass>, pools: seq<seq<Vec>>, p: Pass, after: seq<Vec>)
    requires Pools(orig, exits, trace, pools) && PassDug(orig, exits, p, pools[|trace|], after)
    ensures Pools(orig, exits, trace + [p], pools + [after])
  {
    var trace', pools' := trace + [p], pools + [after];
    forall i | 0 <= i < |trace'| ensures PassDug(orig, exits, trace'[i], pools'[i], pools'[i + 1]) {
      assert pools'[i] == pools[i];
      if i < |trace| {
        assert trace'[i] == trace[i] && pools'[i + 1] == pools[i + 1];
      }
    }
  }

  /** The halls of all passes, in order. */
  function AllDug(trace: seq<Pass>): seq<Vec> {
    if trace == [] then [] else AllDug(trace[..|trace| - 1]) + trace[|trace| - 1].dug
  }

  lemma AllDugSnoc(trace: seq<Pass>, p: Pass)
    ensures AllDug(trace + [p]) == AllDug(trace) + p.dug
  {
    assert (trace + [p])[..|trace|] == trace;
  }

  /**
   * The record DigHalls keeps: the passes replay the queue from the exits and the pool from all
   * empty non-exit cells, ending at `pending` and `diggable`, and the halls are those of the passes.
   */
  ghost predicate Recorded(orig: Grid, exits: seq<Vec>, trace: seq<Pass>, queues: seq<seq<Vec>>, pools: seq<seq<Vec>>,
                           pending: seq<Vec>, halls: seq<Vec>, diggable: seq<Vec>) {
    && Replays(exits, trace, queues) && queues[|trace|] == pending
    && Pools(orig, exits, trace, pools) && pools[|trace|] == diggable && halls == AllDug(trace)
    && pools[0] == Seqs.Without(Positions(orig, IsNothing), exits)
  }

  lemma RecordedSnoc(orig: Grid, exits: seq<Vec>, trace: seq<Pass>, queues: seq<seq<Vec>>, pools: seq<seq<Vec>>,
                     pending: seq<Vec>, halls: seq<Vec>, diggable: seq<Vec>,
                     p: Pass, pending': seq<Vec>, halls': seq<Vec>, diggable': seq<Vec>)
    requires Recorded(orig, exits, trace, queues, pools, pending, halls, diggable)
    requires p.source in pending && (p.fromExits ==> p.target in pending && p.target != p.source)
    requires p.fromExits <==> Seqs.Remove(pending, p.source) != []
    requires pending' == NextPending(pending, p) && halls' == halls + p.dug
    requires PassDug(orig, exits, p, diggable, diggable')
    ensures Recorded(orig, exits, trace + [p], queues + [pending'], pools + [diggable'], pending', halls', diggable')
  {
    ReplaysSnoc(exits, trace, queues, p);
    PoolsSnoc(orig, exits, trace, pools, p, diggable');
    AllDugSnoc(trace, p);
    assert (pools + [diggable'])[0] == pools[0];
  }

  /**
   * The Connect call of a pass from `source` to `target`, with every exit but those two to stop
   * beside, and the record of what it did. `targetIsExit` is read after the walk, as DigHalls does.
   */
  method ConnectPass(data: array2<int>, ghost orig: Grid, exits: seq<Vec>, halls: seq<Vec>, diggable: seq<Vec>,
                     source: Vec, target: Vec, fromExits: bool)
    returns (diggable': seq<Vec>, newHalls: seq<Vec>, success: bool, targetIsExit: bool, ghost pass: Pass)
    requires Stamped(data, orig, halls, Tiles.Hall)
    requires InBounds(orig, source) && InBounds(orig, target) && source !in halls
    requires forall c :: c in diggable ==> InBounds(orig, c) && c !in halls
    modifies data
    ensures pass.source == source && pass.target == target && pass.fromExits == fromExits
    ensures pass.dug == newHalls && pass.success == success && pass.targetIsExit == targetIsExit
    ensures PassDug(orig, exits, pass, diggable, diggable')
    ensures Stamped(data, orig, halls + newHalls, Tiles.Hall)
    ensures targetIsExit <==> data[target.y, target.x] == Tiles.Exit
  {
    var others := OtherExits(exits, source, target);
    assert data[source.y, source.x] == At(orig, source);
    ghost var stop;
    diggable', newHalls, success, stop := Connect(data, orig, halls, source, target, others, diggable);
    targetIsExit := data[target.y, target.x] == Tiles.Exit;
    pass := Pass(source, target, fromExits, newHalls, success, stop, targetIsExit, |diggable'| == 0);
    assert forall c :: c in diggable && c !in diggable' ==> Dropped(orig, pass, c);
  }

  /**
   * One pass of the DigHalls loop: take a random pending exit as source, get a dig target (a
   * pending exit is no longer pending), connect the two, and, unless the pool ran out, queue the
   * target again when the connection failed and the target is an Exit tile. `ok == false` stands
   * for GetDigTarget's exception, which needs no hall dug yet and the source isolated.
   */
  method DigStep(cfg: HallConfig, data: array2<int>, ghost orig: Grid, exits: seq<Vec>, pending: seq<Vec>, halls: seq<Vec>, diggable: seq<Vec>)
    returns (ok: bool, pending': seq<Vec>, halls': seq<Vec>, diggable': seq<Vec>, ghost pass: Pass)
    requires |pending| > 0 && Digging(data, orig, exits, pending, halls, diggable)
    modifies data
    ensures ok ==> Digging(data, orig, exits, pending', halls', diggable') && |pending'| < |pending|
    ensures ok ==> pass.source in pending && (pass.fromExits ==> pass.target in pending && pass.target != pass.source)
    ensures ok ==> (pass.fromExits <==> Seqs.Remove(pending, pass.source) != [])
    ensures ok && !pass.fromExits && halls != [] ==> pass.target in halls
    ensures ok && !pass.fromExits && halls == [] ==> pass.target in FarEmptyCells(orig, pass.source, cfg.closestExitProximity)
    ensures ok ==> pending' == NextPending(pending, pass)
    ensures ok ==> (pass.exhausted <==> diggable' == [])
    ensures ok ==> 0 <= pass.target.y < data.Length0 && 0 <= pass.target.x < data.Length1
    ensures ok ==> (pass.targetIsExit <==> data[pass.target.y, pass.target.x] == Tiles.Exit)
    ensures ok ==> |halls| <= |halls'| && halls'[..|halls|] == halls && Walk(pass.source, halls'[|halls|..])
    ensures ok && pass.success ==> IsUnit(Sub(Last(pass.source, halls'[|halls|..]), pass.target)) && pass.stop.None?
    ensures ok ==> NoEarlyStop(pass.source, pass.target, OtherExits(exits, pass.source, pass.target), halls'[|halls|..])
    ensures ok && pass.stop.Some? ==>
      && pass.stop.value in exits && pass.stop.value != pass.source && pass.stop.value != pass.target
      && pass.stop == FirstAdjacent(OtherExits(exits, pass.source, pass.target), Last(pass.source, halls'[|halls|..]))
    ensures ok ==> halls' == halls + pass.dug && PassDug(orig, exits, pass, diggable, diggable')
    ensures !ok ==> halls == [] && Stamped(data, orig, [], Tiles.Hall) && Isolated(orig, exits, cfg.closestExitProximity)
  {
    var pick := Random.Range(0, |pending|);
    var source := pending[pick];
    assert source in pending;
    var rest := Seqs.Remove(pending, source);
    var found, fromExits, target := GetDigTarget(cfg, source, rest, halls, data);
    if !found {
      StampedNone(data, orig, Tiles.Hall);
      return false, pending, halls, diggable, Pass(source, source, false, [], false, None, false, false);
    }
    if fromExits {
      assert target in rest;
      rest := Seqs.Remove(rest, target);
    } else if halls == [] {
      assert data[target.y, target.x] == Tiles.Nothing;
      StampedNone(data, orig, Tiles.Hall);
      FarEmptyCellsMembers(orig, source, cfg.closestExitProximity, target);
    }
    var diggable'', newHalls, success, targetIsExit;
    diggable'', newHalls, success, targetIsExit, pass := ConnectPass(data, orig, exits, halls, diggable, source, target, fromExits);
    diggable' := diggable'';
    halls' := halls + newHalls;
    assert halls'[..|halls|] == halls && halls'[|halls|..] == newHalls;
    pending' := rest;
    if |diggable'| > 0 && !success && targetIsExit {
      pending' := pending' + [target];
    }
    ok := true;
    DiggingAfterConnect(data, orig, exits, halls, diggable, source, newHalls, diggable', pending');
    NextPendingShrinks(pending, pass);
  }

  /** One pass of DigStep, appended to the record DigHalls keeps. */
  method RecordedStep(cfg: HallConfig, data: array2<int>, ghost orig: Grid, exits: seq<Vec>,
                      pending: seq<Vec>, halls: seq<Vec>, diggable: seq<Vec>,
                      ghost trace: seq<Pass>, ghost queues: seq<seq<Vec>>, ghost pools: seq<seq<Vec>>)
    returns (ok: bool, pending': seq<Vec>, halls': seq<Vec>, diggable': seq<Vec>,
             ghost trace': seq<Pass>, ghost queues': seq<seq<Vec>>, ghost pools': seq<seq<Vec>>, ghost pass: Pass)
    requires |pending| > 0 && Digging(data, orig, exits, pending, halls, diggable)
    requires Recorded(orig, exits, trace, queues, pools, pending, halls, diggable)
    modifies data
    ensures ok ==> Digging(data, orig, exits, pending', halls', diggable') && |pending'| < |pending|
    ensures ok ==> Recorded(orig, exits, trace', queues', pools', pending', halls', diggable')
    ensures ok ==> trace' == trace + [pass] && (pass.exhausted <==> diggable' == [])
    ensures !ok ==> trace' == trace && queues' == queues && pools' == pools
    ensures !ok ==> halls == [] && Stamped(data, orig, [], Tiles.Hall) && Isolated(orig, exits, cfg.closestExitProximity)
  {
    ok, pending', halls', diggable', pass := DigStep(cfg, data, orig, exits, pending, halls, diggable);
    trace', queues', pools' := trace, queues, pools;
    if ok {
      RecordedSnoc(orig, exits, trace, queues, pools, pending, halls, diggable, pass, pending', halls', diggable');
      trace', queues', pools' := trace + [pass], queues + [pending'], pools + [diggable'];
    }
  }

  /**
   * DigHalls: the diggable cells are the empty cells that are not exits; while exits are pending,
   * run a dig pass, and stop once the pool of diggable cells is empty. `ok == false` stands for
   * GetDigTarget's exception. `trace` records the passes, `queues` the pending exits and `pools`
   * the diggable cells before each pass and after the last.
   */
  method DigHalls(cfg: HallConfig, data: array2<int>, ghost orig: Grid, exits: seq<Vec>)
    returns (ok: bool, ghost halls: seq<Vec>, ghost pending: seq<Vec>, ghost diggable: seq<Vec>,
             ghost trace: seq<Pass>, ghost queues: seq<seq<Vec>>, ghost pools: seq<seq<Vec>>)
    requires Stamped(data, orig, [], Tiles.Hall)
    requires forall e :: e in exits ==> InBounds(orig, e)
    modifies data
    ensures ok ==> pending == [] || diggable == []
    ensures ok ==> Digging(data, orig, exits, pending, halls, diggable)
    ensures !ok ==> Stamped(data, orig, [], Tiles.Hall) && Isolated(orig, exits, cfg.closestExitProximity)
    ensures Recorded(orig, exits, trace, queues, pools, pending, halls, diggable)
    ensures forall i :: 0 <= i < |trace| && trace[i].exhausted ==> i == |trace| - 1
    ensures |trace| <= |exits|
  {
    StampedNone(data, orig, Tiles.Hall);
    var dug: seq<Vec> := [];
    var toConnect := exits;
    var free := Seqs.Without(Positions(Snapshot(data), IsNothing), exits);
    forall c | c in free ensures EmptyCell(orig, exits, c) {
      PositionsMembers(orig, IsNothing, c);
    }
    trace, queues, pools := [], [exits], [free];
    assert Recorded(orig, exits, trace, queues, pools, toConnect, dug, free);
    ok := true;
    while |toConnect| > 0
      invariant Digging(data, orig, exits, toConnect, dug, free)
      invariant Recorded(orig, exits, trace, queues, pools, toConnect, dug, free)
      invariant forall i :: 0 <= i < |trace| ==> !trace[i].exhausted
      invariant |toConnect| + |trace| <= |exits|
      decreases |toConnect|
    {
      var stepped, toConnect', dug', free';
      ghost var before := trace;
      ghost var pass;
      stepped, toConnect', dug', free', trace, queues, pools, pass :=
        RecordedStep(cfg, data, orig, exits, toConnect, dug, free, trace, queues, pools);
      if !stepped {
        ok := false;
        break;
      }
      toConnect, dug, free := toConnect', dug', free';
      assert forall i :: 0 <= i < |before| ==> trace[i] == before[i];
      if |free| == 0 {
        break;
      }
    }
    halls, pending, diggable := dug, toConnect, free;
  }

  /**
   * Generate: an empty block, exits marked on its outer rings, halls dug between them. None stands
   * for the exceptions of AddExits (no ring cell while exits are wanted) and of GetDigTarget (an
   * isolated exit). `nExits` is the drawn number of exits; `trace`, `queues` and `pools` record
   * the dig passes, the pending exits and the diggable cells, as DigHalls returns them.
   */
  method Generate(cfg: HallConfig)
    returns (r: Option<Blocks.DungeonBlock>, ghost marked: Grid, ghost exits: seq<Vec>, ghost halls: seq<Vec>, ghost nExits: int,
             ghost trace: seq<Pass>, ghost queues: seq<seq<Vec>>, ghost pools: seq<seq<Vec>>)
    requires ValidConfig(cfg)
    ensures IsShape(marked, cfg.blockShape)
    ensures forall y, x :: 0 <= y < cfg.blockShape.y && 0 <= x < cfg.blockShape.x ==>
      marked[y][x] == if Vec(x, y) in exits then Tiles.Exit else Tiles.Nothing
    ensures nExits in cfg.exitOptions
    ensures forall i :: 0 <= i < |exits| ==> InRing(cfg.blockShape, cfg.exitRings, exits[i])
    ensures Spaced(exits, cfg.closestExitProximity)
    ensures OuterRing(cfg.blockShape, cfg.exitRings) == [] && nExits > 0 ==> r.None?
    ensures r.None? ==> (OuterRing(cfg.blockShape, cfg.exitRings) == [] && nExits > 0) || Isolated(marked, exits, cfg.closestExitProximity)
    ensures r.Some? ==> |exits| <= Max(nExits, 0) && (nExits > 0 ==> |exits| > 0)
    ensures r.Some? && |exits| < nExits ==>
      forall c :: InRing(cfg.blockShape, cfg.exitRings, c) ==> Near(exits, c, cfg.closestExitProximity)
    ensures r.Some? ==> fresh(r.value) && r.value.Valid() && r.value.Shape == cfg.blockShape
    ensures r.Some? ==> forall y, x :: 0 <= y < cfg.blockShape.y && 0 <= x < cfg.blockShape.x ==>
      r.value.data[y][x] == if Vec(x, y) in halls then Tiles.Hall else marked[y][x]
    ensures r.Some? ==> forall h :: h in halls ==> EmptyCell(marked, exits, h)
    ensures r.Some? ==> Seqs.Distinct(halls) && Grown(exits, halls)
    ensures r.Some? ==> Replays(exits, trace, queues) && Pools(marked, exits, trace, pools) && halls == AllDug(trace)
    ensures r.Some? ==> pools[0] == Seqs.Without(Positions(marked, IsNothing), exits)
    ensures r.Some? ==> queues[|trace|] == [] || pools[|trace|] == []
  {
    var data := new int[cfg.blockShape.y, cfg.blockShape.x]((_, _) => Tiles.Nothing);
    ghost var empty := Snapshot(data);
    var ok, placed;
    ok, placed, nExits := AddExits(cfg, data, empty);
    exits := placed;
    marked := Snapshot(data);
    halls := [];
    trace, queues, pools := [], [exits], [[]];
    if !ok {
      return None, marked, exits, halls, nExits, trace, queues, pools;
    }
    forall e | e in exits ensures InBounds(marked, e) {
      var i :| 0 <= i < |exits| && exits[i] == e;
      assert InRing(cfg.blockShape, cfg.exitRings, exits[i]);
    }
    var dug;
    ghost var pending, diggable;
    dug, halls, pending, diggable, trace, queues, pools := DigHalls(cfg, data, marked, placed);
    if !dug {
      return None, marked, exits, halls, nExits, trace, queues, pools;
    }
    var block := new Blocks.DungeonBlock(data);
    forall y, x | 0 <= y < cfg.blockShape.y && 0 <= x < cfg.blockShape.x
      ensures block.data[y][x] == if Vec(x, y) in halls then Tiles.Hall else marked[y][x]
    {
      assert block.data[y][x] == data[y, x];
    }
    r := Some(block);
  }
}
