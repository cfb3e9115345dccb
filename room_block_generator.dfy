/**
 * RoomBlockGenerator: stamp a few overlapping rectangles of Room tiles into an empty block,
 * find the Room cells that sit on a straight wall (door anchors), and turn a Nothing neighbour
 * of some of them into Door tiles, keeping the doors apart.
 */
module RoomGeneration {
  import opened Geometry
  import opened Grids
  import opened Wrappers
  import opened FourDirections
  import Tiles
  import Seqs
  import Random
  import MathHelpers
  import Blocks

  /** The generator's serialized settings. */
  datatype RoomConfig = RoomConfig(
    blockShape: Vec,
    doorsPossibilities: seq<int>,
    numberOfBaseShapePossibilities: seq<int>,
    minBaseShape: Vec,
    maxBaseShape: Vec)

  /** The field initialisers of the source class. */
  const DefaultConfig := RoomConfig(
    Vec(7, 7), [1, 1, 1, 1, 2, 2, 2, 3, 4], [1, 1, 2, 2, 3, 4, 5], Vec(3, 3), Vec(5, 5))

  /**
   * Settings Generate can run on: a non-negative block shape (it sizes an array), non-empty option
   * lists (Generate indexes them with a random draw) and a non-empty, non-negative shape range.
   */
  predicate ValidConfig(cfg: RoomConfig) {
    && cfg.blockShape.x >= 0 && cfg.blockShape.y >= 0
    && |cfg.doorsPossibilities| > 0 && |cfg.numberOfBaseShapePossibilities| > 0
    && 0 <= cfg.minBaseShape.x <= cfg.maxBaseShape.x
    && 0 <= cfg.minBaseShape.y <= cfg.maxBaseShape.y
  }

  predicate IsRoom(v: int) { v == Tiles.Room }

  /** Every tile is Nothing or Room, as in the block before doors are placed. */
  predicate OnlyNothingOrRoom(g: Grid) {
    forall y, x :: 0 <= y < |g| && 0 <= x < |g[y]| ==> g[y][x] == Tiles.Nothing || g[y][x] == Tiles.Room
  }

  /** The tiles a generated room block may hold. */
  predicate RoomTile(v: int) {
    v == Tiles.Nothing || v == Tiles.Room || v == Tiles.Door
  }

  /** RandomShape: each side drawn with Random.Range(min, max), so below `max` unless the range is a single value. */
  method RandomShape(cfg: RoomConfig) returns (shape: Vec)
    requires cfg.minBaseShape.x <= cfg.maxBaseShape.x && cfg.minBaseShape.y <= cfg.maxBaseShape.y
    ensures cfg.minBaseShape.x <= shape.x <= cfg.maxBaseShape.x
    ensures cfg.minBaseShape.y <= shape.y <= cfg.maxBaseShape.y
    ensures cfg.minBaseShape.x < cfg.maxBaseShape.x ==> shape.x < cfg.maxBaseShape.x
    ensures cfg.minBaseShape.y < cfg.maxBaseShape.y ==> shape.y < cfg.maxBaseShape.y
  {
    var x := Random.Range(cfg.minBaseShape.x, cfg.maxBaseShape.x);
    var y := Random.Range(cfg.minBaseShape.y, cfg.maxBaseShape.y);
    shape := Vec(x, y);
  }

  // ---------------------------------------------------------------------------------------------
  // RoomFill

  /** `p` lies in the rectangle at `offset` of size `shape` grown by one cell past its far sides. */
  predicate WithinReach(offset: Vec, shape: Vec, p: Vec) {
    offset.x <= p.x <= offset.x + shape.x && offset.y <= p.y <= offset.y + shape.y
  }

  /**
   * Clamping a cell of the container keeps it within reach of the clamped rectangle. It can end up
   * one past the far edge: ClampInside keeps the rectangle off the container's last row and column.
   */
  lemma ClampKeepsReach(anchor: Vec, container: Vec, inset: Vec)
    requires 0 <= anchor.x < container.x && 0 <= anchor.y < container.y
    requires 0 <= inset.x && 0 <= inset.y
    requires MathHelpers.ClampInside(anchor, container, inset).Some?
    ensures WithinReach(MathHelpers.ClampInside(anchor, container, inset).value, inset, anchor)
  {
    var r := MathHelpers.ClampInside(anchor, container, inset).value;
    assert r.x == MathHelpers.ClampAxis(anchor.x, container.x, inset.x).value;
    assert r.y == MathHelpers.ClampAxis(anchor.y, container.y, inset.y).value;
  }

  /** A filled cell of the rectangle at `offset` is within its reach. */
  lemma RegionReach(g: Grid, offset: Vec, shape: Vec)
    requires 0 <= shape.x && 0 <= shape.y
    requires MathHelpers.RegionHasNonZero(g, RectAt(offset, shape))
    ensures exists c :: c in MathHelpers.Filled(g) && WithinReach(offset, shape, c.pos)
  {
    var r := RectAt(offset, shape);
    var y, x :| r.YMin() <= y < r.YMax() && r.XMin() <= x < r.XMax() && InBounds(g, Vec(x, y)) && g[y][x] != 0;
    GetAllMembers(g, NonZero, Cell(Vec(x, y), g[y][x]));
    assert WithinReach(offset, shape, Cell(Vec(x, y), g[y][x]).pos);
  }

  /** Clamping the `n`-th filled cell into the block gives a corner in the block that keeps the cell within reach. */
  lemma FilledReach(g: Grid, n: int, container: Vec, shape: Vec)
    requires IsShape(g, container) && 0 <= shape.x && 0 <= shape.y
    requires 0 <= n < |MathHelpers.Filled(g)|
    requires MathHelpers.ClampInside(MathHelpers.Filled(g)[n].pos, container, shape).Some?
    ensures var offset := MathHelpers.ClampInside(MathHelpers.Filled(g)[n].pos, container, shape).value;
      0 <= offset.x && 0 <= offset.y && exists c :: c in MathHelpers.Filled(g) && WithinReach(offset, shape, c.pos)
  {
    var cell := MathHelpers.Filled(g)[n];
    assert cell in MathHelpers.Filled(g);
    GetAllMembers(g, NonZero, cell);
    ClampKeepsReach(cell.pos, container, shape);
  }

  /**
   * The corner RoomFill stamps at: a random corner for a `shape` rectangle; when it must connect to
   * what is already filled and the rectangle covers no filled cell, a random filled cell clamped
   * into the block instead. `ok == false` stands for the exceptions of RandomInsetAnchor (shape
   * larger than the block) and ClampInside (no room to clamp into).
   */
  method RoomOffset(cfg: RoomConfig, data: array2<int>, shape: Vec, connectPrevious: bool)
    returns (ok: bool, offset: Vec)
    requires data.Length0 == cfg.blockShape.y && data.Length1 == cfg.blockShape.x
    requires 0 <= shape.x && 0 <= shape.y
    ensures shape.x > cfg.blockShape.x || shape.y > cfg.blockShape.y ==> !ok
    ensures shape.x < cfg.blockShape.x && shape.y < cfg.blockShape.y ==> ok
    ensures ok ==> 0 <= offset.x && offset.x + shape.x <= cfg.blockShape.x
    ensures ok ==> 0 <= offset.y && offset.y + shape.y <= cfg.blockShape.y
    ensures ok && connectPrevious && |MathHelpers.Filled(Snapshot(data))| > 0 ==>
      exists c :: c in MathHelpers.Filled(Snapshot(data)) && WithinReach(offset, shape, c.pos)
  {
    ghost var g := Snapshot(data);
    var inset := MathHelpers.RandomShapeOffset(cfg.blockShape, shape);
    if inset.None? {
      return false, Zero;
    }
    ok, offset := true, inset.value;
    if connectPrevious {
      var hasMatch := MathHelpers.HasNonZero(data, RectAt(offset, shape));
      if hasMatch {
        RegionReach(g, offset, shape);
      } else {
        var fillCount := MathHelpers.CountNonZero(data);
        if fillCount > 0 {
          var n := Random.Range(0, fillCount);
          var anchor := MathHelpers.GetNthFilled(data, n);
          var clamped := MathHelpers.ClampInside(anchor.value, cfg.blockShape, shape);
          if clamped.None? {
            return false, offset;
          }
          MathHelpers.ClampInsideFits(anchor.value, cfg.blockShape, shape);
          FilledReach(g, n, cfg.blockShape, shape);
          offset := clamped.value;
        }
        // Otherwise the source logs an error and keeps the random corner.
      }
    }
  }

  /** `after` is `before` with every cell of `rect` set to `value`. */
  predicate StampedRect(before: Grid, after: Grid, rect: Rect, value: int) {
    && |after| == |before| && (forall y :: 0 <= y < |before| ==> |after[y]| == |before[y]|)
    && forall y, x :: 0 <= y < |before| && 0 <= x < |before[y]| ==>
      after[y][x] == if rect.Contains(Vec(x, y)) then value else before[y][x]
  }

  /**
   * RoomFill: set every cell of the `shape` rectangle at RoomOffset's corner to `value`, and
   * nothing else. It returns true whenever it does not throw.
   */
  method RoomFill(cfg: RoomConfig, data: array2<int>, shape: Vec, value: int, connectPrevious: bool)
    returns (ok: bool, offset: Vec)
    requires data.Length0 == cfg.blockShape.y && data.Length1 == cfg.blockShape.x
    requires 0 <= shape.x && 0 <= shape.y
    modifies data
    ensures shape.x > cfg.blockShape.x || shape.y > cfg.blockShape.y ==> !ok
    ensures shape.x < cfg.blockShape.x && shape.y < cfg.blockShape.y ==> ok
    ensures !ok ==> unchanged(data)
    ensures ok ==> 0 <= offset.x && offset.x + shape.x <= cfg.blockShape.x
    ensures ok ==> 0 <= offset.y && offset.y + shape.y <= cfg.blockShape.y
    ensures ok ==> StampedRect(old(Snapshot(data)), Snapshot(data), RectAt(offset, shape), value)
    ensures ok && connectPrevious && |MathHelpers.Filled(old(Snapshot(data)))| > 0 ==>
      exists c :: c in MathHelpers.Filled(old(Snapshot(data))) && WithinReach(offset, shape, c.pos)
  {
    ghost var before := Snapshot(data);
    ok, offset := RoomOffset(cfg, data, shape, connectPrevious);
    if !ok {
      return;
    }
    var y, yMax := offset.y, offset.y + shape.y;
    while y < yMax
      invariant offset.y <= y <= yMax
      invariant forall y', x' :: 0 <= y' < data.Length0 && 0 <= x' < data.Length1 ==>
        data[y', x'] == if offset.y <= y' < y && offset.x <= x' < offset.x + shape.x then value else before[y'][x']
    {
      var x, xMax := offset.x, offset.x + shape.x;
      while x < xMax
        invariant offset.x <= x <= xMax
        invariant forall y', x' :: 0 <= y' < data.Length0 && 0 <= x' < data.Length1 ==>
          data[y', x'] ==
            if (offset.y <= y' < y && offset.x <= x' < xMax) || (y' == y && offset.x <= x' < x) then value
            else before[y'][x']
      {
        data[y, x] := value;
        x := x + 1;
      }
      y := y + 1;
    }
  }

  /** Every Room cell of `before` is still a Room cell in `after`. */
  predicate RoomsKept(before: Grid, after: Grid) {
    forall y, x :: 0 <= y < |before| && 0 <= x < |before[y]| && before[y][x] == Tiles.Room ==>
      y < |after| && x < |after[y]| && after[y][x] == Tiles.Room
  }

  /** Some cell holds Room. */
  predicate HasRoom(g: Grid) {
    exists y, x :: 0 <= y < |g| && 0 <= x < |g[y]| && g[y][x] == Tiles.Room
  }

  /**
   * Stamping Room over a rectangle of a Nothing-and-Room grid keeps it a Nothing-and-Room grid,
   * keeps its Room cells, and adds the rectangle's cells.
   */
  lemma StampRoomsKeeps(before: Grid, after: Grid, size: Vec, offset: Vec, shape: Vec)
    requires IsShape(before, size) && OnlyNothingOrRoom(before)
    requires 0 <= offset.x && offset.x + shape.x <= size.x && 0 <= offset.y && offset.y + shape.y <= size.y
    requires StampedRect(before, after, RectAt(offset, shape), Tiles.Room)
    ensures OnlyNothingOrRoom(after) && RoomsKept(before, after)
    ensures HasRoom(before) || (shape.x > 0 && shape.y > 0) ==> HasRoom(after)
  {
    if HasRoom(before) {
      var y, x :| 0 <= y < |before| && 0 <= x < |before[y]| && before[y][x] == Tiles.Room;
      assert after[y][x] == Tiles.Room;
    }
    if shape.x > 0 && shape.y > 0 {
      assert RectAt(offset, shape).Contains(offset);
      assert after[offset.y][offset.x] == Tiles.Room;
    }
  }

  lemma RoomsKeptTransitive(a: Grid, b: Grid, c: Grid)
    requires RoomsKept(a, b) && RoomsKept(b, c)
    ensures RoomsKept(a, c)
  {
  }

  /** `p` lies in one of `rects`. */
  predicate Covers(rects: seq<Rect>, p: Vec) {
    exists i :: 0 <= i < |rects| && rects[i].Contains(p)
  }

  lemma CoversSnoc(rects: seq<Rect>, r: Rect, p: Vec)
    ensures Covers(rects + [r], p) <==> Covers(rects, p) || r.Contains(p)
  {
    var rs := rects + [r];
    if Covers(rs, p) {
      var i :| 0 <= i < |rs| && rs[i].Contains(p);
      if i < |rects| {
        assert rects[i] == rs[i];
      }
    }
    if Covers(rects, p) {
      var i :| 0 <= i < |rects| && rects[i].Contains(p);
      assert rs[i] == rects[i];
    }
    assert rs[|rects|] == r;
  }

  /** `g` is `start` with every cell of `rects` set to Room. */
  ghost predicate RoomsStamped(start: Grid, g: Grid, rects: seq<Rect>) {
    && |g| == |start| && (forall y :: 0 <= y < |start| ==> |g[y]| == |start[y]|)
    && forall y, x :: 0 <= y < |start| && 0 <= x < |start[y]| ==>
      g[y][x] == if Covers(rects, Vec(x, y)) then Tiles.Room else start[y][x]
  }

  lemma RoomsStampedSnoc(start: Grid, before: Grid, after: Grid, rects: seq<Rect>, r: Rect)
    requires RoomsStamped(start, before, rects) && StampedRect(before, after, r, Tiles.Room)
    ensures RoomsStamped(start, after, rects + [r])
  {
    forall y, x | 0 <= y < |start| && 0 <= x < |start[y]|
      ensures after[y][x] == if Covers(rects + [r], Vec(x, y)) then Tiles.Room else start[y][x]
    {
      CoversSnoc(rects, r, Vec(x, y));
    }
  }

  /** `p` was filled before the rectangles after `rects`: non-zero in `start` or covered by one of `rects`. */
  ghost predicate FilledBefore(start: Grid, rects: seq<Rect>, p: Vec) {
    InBounds(start, p) && (start[p.y][p.x] != Tiles.Nothing || Covers(rects, p))
  }

  /** In a grid stamped from `start`, the filled cells are exactly those filled before. */
  lemma FilledBeforeMeans(start: Grid, g: Grid, rects: seq<Rect>, p: Vec)
    requires RoomsStamped(start, g, rects)
    ensures FilledBefore(start, rects, p) <==> InBounds(g, p) && g[p.y][p.x] != Tiles.Nothing
  {
  }

  /** Rectangle `i` reaches a cell filled before it, whenever one is filled. */
  ghost predicate JoinsEarlier(start: Grid, rects: seq<Rect>, i: int)
    requires 0 <= i < |rects|
  {
    (exists q :: FilledBefore(start, rects[..i], q)) ==>
      exists p :: FilledBefore(start, rects[..i], p) && WithinReach(Vec(rects[i].x, rects[i].y), Vec(rects[i].width, rects[i].height), p)
  }

  /** Every rectangle after the first reaches a cell filled before it. */
  ghost predicate Joined(start: Grid, rects: seq<Rect>) {
    forall i :: 0 < i < |rects| ==> JoinsEarlier(start, rects, i)
  }

  /** A new rectangle that reaches a filled cell of the current grid keeps the rectangles joined. */
  lemma JoinedSnoc(start: Grid, g: Grid, rects: seq<Rect>, r: Rect)
    requires RoomsStamped(start, g, rects) && Joined(start, rects)
    requires rects != [] && |MathHelpers.Filled(g)| > 0 ==>
      exists c :: c in MathHelpers.Filled(g) && WithinReach(Vec(r.x, r.y), Vec(r.width, r.height), c.pos)
    ensures Joined(start, rects + [r])
  {
    var rs := rects + [r];
    forall i | 0 < i < |rs| ensures JoinsEarlier(start, rs, i) {
      assert rs[..i] == if i < |rects| then rects[..i] else rects;
      if i < |rects| {
        assert rs[i] == rects[i];
        assert JoinsEarlier(start, rects, i);
      } else if q :| FilledBefore(start, rects, q) {
        FilledBeforeMeans(start, g, rects, q);
        GetAllMembers(g, NonZero, Cell(q, g[q.y][q.x]));
        var c :| c in MathHelpers.Filled(g) && WithinReach(Vec(r.x, r.y), Vec(r.width, r.height), c.pos);
        GetAllMembers(g, NonZero, c);
        FilledBeforeMeans(start, g, rects, c.pos);
        assert rs[i] == r;
      }
    }
  }

  /** Every rectangle lies inside the block and has a size drawn from the shape range. */
  predicate RectsFit(cfg: RoomConfig, rects: seq<Rect>) {
    forall i :: 0 <= i < |rects| ==>
      && 0 <= rects[i].x && rects[i].x + rects[i].width <= cfg.blockShape.x
      && 0 <= rects[i].y && rects[i].y + rects[i].height <= cfg.blockShape.y
      && cfg.minBaseShape.x <= rects[i].width <= cfg.maxBaseShape.x
      && cfg.minBaseShape.y <= rects[i].height <= cfg.maxBaseShape.y
  }

  /**
   * One pass of the room loop: RoomFill with a random shape, connecting to the filled cells unless
   * it is the first rectangle. `ok == false` stands for RoomFill's exception.
   */
  method RoomStep(cfg: RoomConfig, data: array2<int>, connect: bool, ghost start: Grid, ghost rects: seq<Rect>)
    returns (ok: bool, ghost r: Rect, ghost shape: Vec)
    requires ValidConfig(cfg)
    requires connect <==> rects != []
    requires data.Length0 == cfg.blockShape.y && data.Length1 == cfg.blockShape.x
    requires RoomsStamped(start, Snapshot(data), rects) && Joined(start, rects) && RectsFit(cfg, rects)
    requires OnlyNothingOrRoom(Snapshot(data)) && RoomsKept(start, Snapshot(data))
    modifies data
    ensures cfg.minBaseShape.x <= shape.x <= cfg.maxBaseShape.x && cfg.minBaseShape.y <= shape.y <= cfg.maxBaseShape.y
    ensures cfg.maxBaseShape.x < cfg.blockShape.x && cfg.maxBaseShape.y < cfg.blockShape.y ==> ok
    ensures !ok ==> (shape.x >= cfg.blockShape.x || shape.y >= cfg.blockShape.y) && unchanged(data)
    ensures ok ==> RoomsStamped(start, Snapshot(data), rects + [r]) && Joined(start, rects + [r]) && RectsFit(cfg, rects + [r])
    ensures ok ==> OnlyNothingOrRoom(Snapshot(data)) && RoomsKept(start, Snapshot(data))
    ensures ok && cfg.minBaseShape.x > 0 && cfg.minBaseShape.y > 0 ==> HasRoom(Snapshot(data))
  {
    var drawn := RandomShape(cfg);
    shape := drawn;
    ghost var before := Snapshot(data);
    var filled, offset := RoomFill(cfg, data, drawn, Tiles.Room, connect);
    ok, r := filled, RectAt(offset, drawn);
    if !filled {
      return;
    }
    StampRoomsKeeps(before, Snapshot(data), cfg.blockShape, offset, drawn);
    RoomsKeptTransitive(start, before, Snapshot(data));
    RoomsStampedSnoc(start, before, Snapshot(data), rects, r);
    JoinedSnoc(start, before, rects, r);
    var rs := rects + [r];
    forall i | 0 <= i < |rs| ensures
      && 0 <= rs[i].x && rs[i].x + rs[i].width <= cfg.blockShape.x
      && 0 <= rs[i].y && rs[i].y + rs[i].height <= cfg.blockShape.y
      && cfg.minBaseShape.x <= rs[i].width <= cfg.maxBaseShape.x
      && cfg.minBaseShape.y <= rs[i].height <= cfg.maxBaseShape.y
    {
      if i < |rects| {
        assert rs[i] == rects[i];
      }
    }
  }

  /**
   * The room loop of Generate: `nShapes` RoomFill calls with random shapes, each after the first
   * connecting to what is already filled. `rects` are the filled rectangles. `ok == false` stands
   * for an exception in one of them, whose drawn shape `misfit` does not fit strictly inside the block.
   */
  method PlaceRooms(cfg: RoomConfig, data: array2<int>, nShapes: int)
    returns (ok: bool, actualShapes: int, ghost rects: seq<Rect>, ghost misfit: Vec)
    requires ValidConfig(cfg)
    requires data.Length0 == cfg.blockShape.y && data.Length1 == cfg.blockShape.x
    requires OnlyNothingOrRoom(Snapshot(data))
    modifies data
    ensures RoomsStamped(old(Snapshot(data)), Snapshot(data), rects)
    ensures Joined(old(Snapshot(data)), rects) && RectsFit(cfg, rects)
    ensures OnlyNothingOrRoom(Snapshot(data)) && RoomsKept(old(Snapshot(data)), Snapshot(data))
    ensures cfg.maxBaseShape.x < cfg.blockShape.x && cfg.maxBaseShape.y < cfg.blockShape.y ==> ok
    ensures ok ==> actualShapes == |rects| == if nShapes < 0 then 0 else nShapes
    ensures !ok ==> |rects| < nShapes
    ensures !ok ==> cfg.minBaseShape.x <= misfit.x <= cfg.maxBaseShape.x && cfg.minBaseShape.y <= misfit.y <= cfg.maxBaseShape.y
    ensures !ok ==> misfit.x >= cfg.blockShape.x || misfit.y >= cfg.blockShape.y
    ensures ok && nShapes > 0 && cfg.minBaseShape.x > 0 && cfg.minBaseShape.y > 0 ==> HasRoom(Snapshot(data))
  {
    ghost var start := Snapshot(data);
    ok, actualShapes, rects, misfit := true, 0, [], Zero;
    assert RoomsStamped(start, Snapshot(data), rects);
    var i := 0;
    while i < nShapes
      invariant 0 <= i == actualShapes == |rects| && (i > 0 ==> i <= nShapes)
      invariant RoomsStamped(start, Snapshot(data), rects) && Joined(start, rects) && RectsFit(cfg, rects)
      invariant OnlyNothingOrRoom(Snapshot(data)) && RoomsKept(start, Snapshot(data))
      invariant i > 0 && cfg.minBaseShape.x > 0 && cfg.minBaseShape.y > 0 ==> HasRoom(Snapshot(data))
    {
      var filled;
      ghost var r, shape;
      filled, r, shape := RoomStep(cfg, data, i > 0, start, rects);
      if !filled {
        return false, actualShapes, rects, shape;
      }
      rects := rects + [r];
      actualShapes := actualShapes + 1;
      i := i + 1;
    }
  }

  // ---------------------------------------------------------------------------------------------
  // Door anchors

  /** The border test of IsDoorAnchorLocation (it checks `== 0`, not `<= 0`, on the low side). */
  predicate OnBorder(shape: Vec, c: Vec) {
    c.x == 0 || c.x >= shape.x - 1 || c.y == 0 || c.y >= shape.y - 1
  }

  /** The 3x3 neighbourhood of `c` lies inside a grid of the given shape. */
  predicate Interior(g: Grid, shape: Vec, c: Vec) {
    IsShape(g, shape) && 1 <= c.x && c.x + 1 < shape.x && 1 <= c.y && c.y + 1 < shape.y
  }

  /** The neighbourhood cell in column `xi` and row `yi` (0..2, counted from the low corner). */
  function Near(g: Grid, shape: Vec, c: Vec, xi: int, yi: int): int
    requires Interior(g, shape, c) && 0 <= xi < 3 && 0 <= yi < 3
  {
    g[c.y - 1 + yi][c.x - 1 + xi]
  }

  /** 1 when that neighbourhood cell is Room. */
  function Hit(g: Grid, shape: Vec, c: Vec, xi: int, yi: int): nat
    requires Interior(g, shape, c) && 0 <= xi < 3 && 0 <= yi < 3
  {
    if Near(g, shape, c, xi, yi) == Tiles.Room then 1 else 0
  }

  /** Room cells among the first `k` cells of neighbourhood row `yi`. */
  function RowPrefix(g: Grid, shape: Vec, c: Vec, yi: int, k: int): nat
    requires Interior(g, shape, c) && 0 <= yi < 3 && 0 <= k <= 3
  {
    if k == 0 then 0 else RowPrefix(g, shape, c, yi, k - 1) + Hit(g, shape, c, k - 1, yi)
  }

  /** Room cells among the first `k` cells of neighbourhood column `xi`. */
  function ColPrefix(g: Grid, shape: Vec, c: Vec, xi: int, k: int): nat
    requires Interior(g, shape, c) && 0 <= xi < 3 && 0 <= k <= 3
  {
    if k == 0 then 0 else ColPrefix(g, shape, c, xi, k - 1) + Hit(g, shape, c, xi, k - 1)
  }

  /** The final `rowHits` of IsDoorAnchorLocation. */
  function RowHits(g: Grid, shape: Vec, c: Vec): seq<int>
    requires Interior(g, shape, c)
  {
    [RowPrefix(g, shape, c, 0, 3), RowPrefix(g, shape, c, 1, 3), RowPrefix(g, shape, c, 2, 3)]
  }

  /** The final `colHits` of IsDoorAnchorLocation. */
  function ColHits(g: Grid, shape: Vec, c: Vec): seq<int>
    requires Interior(g, shape, c)
  {
    [ColPrefix(g, shape, c, 0, 3), ColPrefix(g, shape, c, 1, 3), ColPrefix(g, shape, c, 2, 3)]
  }

  /** LINQ Count(h => h == v). */
  function Count(s: seq<int>, v: int): (r: nat)
    ensures r <= |s|
    ensures r > 0 <==> v in s
  {
    if s == [] then 0 else (if s[0] == v then 1 else 0) + Count(s[1..], v)
  }

  /** Two rows (or columns) of the neighbourhood are all Room and the third has no Room. */
  predicate TwoFullOneEmpty(hits: seq<int>) {
    Count(hits, 3) == 2 && Count(hits, 0) == 1
  }

  /** What IsDoorAnchorLocation decides for the cell `c` of a grid of the given shape. */
  predicate IsDoorAnchor(g: Grid, shape: Vec, c: Vec) {
    && IsShape(g, shape) && InBounds(g, c) && !OnBorder(shape, c)
    && (TwoFullOneEmpty(RowHits(g, shape, c)) || TwoFullOneEmpty(ColHits(g, shape, c)))
  }

  /** A row count of 3 means the whole neighbourhood row is Room, and 0 means none of it is. */
  lemma RowHitsMeaning(g: Grid, shape: Vec, c: Vec, yi: int)
    requires Interior(g, shape, c) && 0 <= yi < 3
    ensures RowPrefix(g, shape, c, yi, 3) == 3 <==> forall xi :: 0 <= xi < 3 ==> Near(g, shape, c, xi, yi) == Tiles.Room
    ensures RowPrefix(g, shape, c, yi, 3) == 0 <==> forall xi :: 0 <= xi < 3 ==> Near(g, shape, c, xi, yi) != Tiles.Room
  {
    assert RowPrefix(g, shape, c, yi, 1) == Hit(g, shape, c, 0, yi);
    assert RowPrefix(g, shape, c, yi, 2) == Hit(g, shape, c, 0, yi) + Hit(g, shape, c, 1, yi);
  }

  /** A column count of 3 means the whole neighbourhood column is Room, and 0 means none of it is. */
  lemma ColHitsMeaning(g: Grid, shape: Vec, c: Vec, xi: int)
    requires Interior(g, shape, c) && 0 <= xi < 3
    ensures ColPrefix(g, shape, c, xi, 3) == 3 <==> forall yi :: 0 <= yi < 3 ==> Near(g, shape, c, xi, yi) == Tiles.Room
    ensures ColPrefix(g, shape, c, xi, 3) == 0 <==> forall yi :: 0 <= yi < 3 ==> Near(g, shape, c, xi, yi) != Tiles.Room
  {
    assert ColPrefix(g, shape, c, xi, 1) == Hit(g, shape, c, xi, 0);
    assert ColPrefix(g, shape, c, xi, 2) == Hit(g, shape, c, xi, 0) + Hit(g, shape, c, xi, 1);
  }

  /** `rowHits[j]` of IsDoorAnchorLocation once it has scanned `xi` cells of neighbourhood row `yi`. */
  ghost function RowState(g: Grid, shape: Vec, c: Vec, yi: int, xi: int, j: int): int
    requires Interior(g, shape, c) && 0 <= yi <= 3 && 0 <= xi <= 3 && 0 <= j < 3
  {
    if j < yi then RowPrefix(g, shape, c, j, 3) else if j == yi then RowPrefix(g, shape, c, j, xi) else 0
  }

  /** `colHits[j]` of IsDoorAnchorLocation at the same point of the scan. */
  ghost function ColState(g: Grid, shape: Vec, c: Vec, yi: int, xi: int, j: int): int
    requires Interior(g, shape, c) && 0 <= yi <= 3 && 0 <= xi <= 3 && 0 <= j < 3
  {
    ColPrefix(g, shape, c, j, if yi < 3 && j < xi then yi + 1 else yi)
  }

  /** The counters of IsDoorAnchorLocation hold these values at that point of the scan. */
  ghost predicate Scanned(g: Grid, shape: Vec, c: Vec, yi: int, xi: int, rows: seq<int>, cols: seq<int>)
    requires Interior(g, shape, c) && 0 <= yi <= 3 && 0 <= xi <= 3
  {
    |rows| == 3 && |cols| == 3
    && forall j :: 0 <= j < 3 ==> rows[j] == RowState(g, shape, c, yi, xi, j) && cols[j] == ColState(g, shape, c, yi, xi, j)
  }

  /** Scanning one more neighbourhood cell adds its Hit to its row's and its column's counter. */
  lemma ScanStep(g: Grid, shape: Vec, c: Vec, yi: int, xi: int, rows: seq<int>, cols: seq<int>)
    requires Interior(g, shape, c) && 0 <= yi < 3 && 0 <= xi < 3
    requires Scanned(g, shape, c, yi, xi, rows, cols)
    ensures var h := Hit(g, shape, c, xi, yi);
      Scanned(g, shape, c, yi, xi + 1, rows[yi := rows[yi] + h], cols[xi := cols[xi] + h])
  {
  }

  /** A finished neighbourhood row is the start of the next. */
  lemma ScanRowDone(g: Grid, shape: Vec, c: Vec, yi: int, rows: seq<int>, cols: seq<int>)
    requires Interior(g, shape, c) && 0 <= yi < 3
    requires Scanned(g, shape, c, yi, 3, rows, cols)
    ensures Scanned(g, shape, c, yi + 1, 0, rows, cols)
  {
  }

  /** After the whole neighbourhood the counters are RowHits and ColHits. */
  lemma ScanDone(g: Grid, shape: Vec, c: Vec, rows: seq<int>, cols: seq<int>)
    requires Interior(g, shape, c)
    requires Scanned(g, shape, c, 3, 0, rows, cols)
    ensures rows == RowHits(g, shape, c) && cols == ColHits(g, shape, c)
  {
    assert rows == RowHits(g, shape, c);
    assert cols == ColHits(g, shape, c);
  }

  /**
   * The counting loops of IsDoorAnchorLocation: the Room cells of each row and each column of the
   * 3x3 neighbourhood of an interior cell.
   */
  method CountNeighbourhood(data: array2<int>, position: Vec, dataShape: Vec) returns (rowHits: seq<int>, colHits: seq<int>)
    requires dataShape == Vec(data.Length1, data.Length0)
    requires Interior(Snapshot(data), dataShape, position)
    ensures rowHits == RowHits(Snapshot(data), dataShape, position)
    ensures colHits == ColHits(Snapshot(data), dataShape, position)
  {
    ghost var g := Snapshot(data);
    rowHits, colHits := [0, 0, 0], [0, 0, 0];
    var y, maxY, yi := position.y - 1, position.y + 1, 0;
    while y <= maxY
      invariant 0 <= yi <= 3 && y == position.y - 1 + yi
      invariant Scanned(g, dataShape, position, yi, 0, rowHits, colHits)
    {
      var x, maxX, xi := position.x - 1, position.x + 1, 0;
      while x <= maxX
        invariant 0 <= xi <= 3 && x == position.x - 1 + xi
        invariant Scanned(g, dataShape, position, yi, xi, rowHits, colHits)
      {
        ScanStep(g, dataShape, position, yi, xi, rowHits, colHits);
        assert data[y, x] == Near(g, dataShape, position, xi, yi);
        if data[y, x] == Tiles.Room {
          rowHits := rowHits[yi := rowHits[yi] + 1];
          colHits := colHits[xi := colHits[xi] + 1];
        }
        x, xi := x + 1, xi + 1;
      }
      ScanRowDone(g, dataShape, position, yi, rowHits, colHits);
      y, yi := y + 1, yi + 1;
    }
    assert yi == 3;
    ScanDone(g, dataShape, position, rowHits, colHits);
  }

  /**
   * IsDoorAnchorLocation: false on the border; otherwise accept two full neighbourhood rows and
   * an empty one, or the same for columns. The position comes from a scan of the grid, so it is
   * inside it.
   */
  method IsDoorAnchorLocation(data: array2<int>, position: Vec, dataShape: Vec) returns (r: bool)
    requires dataShape == Vec(data.Length1, data.Length0)
    requires InBounds(Snapshot(data), position)
    ensures r == IsDoorAnchor(Snapshot(data), dataShape, position)
  {
    if position.x == 0 || position.x >= dataShape.x - 1 || position.y == 0 || position.y >= dataShape.y - 1 {
      return false;
    }
    var rowHits, colHits := CountNeighbourhood(data, position, dataShape);
    var nFullRows := Count(rowHits, 3);
    var nEmptyRows := Count(rowHits, 0);
    var nFullCols := Count(colHits, 3);
    var nEmptyCols := Count(colHits, 0);
    if nFullRows == 2 && nEmptyRows == 1 {
      return true;
    } else if nFullCols == 2 && nEmptyCols == 1 {
      return true;
    }
    return false;
  }

  /** The Room cells of the grid, in row-major order. */
  function RoomCells(g: Grid): seq<Vec> {
    Positions(g, IsRoom)
  }

  /** RoomCells lists exactly the Room cells. */
  lemma RoomCellsMembers(g: Grid, c: Vec)
    ensures c in RoomCells(g) <==> InBounds(g, c) && At(g, c) == Tiles.Room
  {
    PositionsMembers(g, IsRoom, c);
  }

  /** The cells of `cs` that are door anchors, in their order. */
  function AnchorsAmong(g: Grid, shape: Vec, cs: seq<Vec>): seq<Vec> {
    if cs == [] then []
    else AnchorsAmong(g, shape, cs[..|cs| - 1]) + (if IsDoorAnchor(g, shape, cs[|cs| - 1]) then [cs[|cs| - 1]] else [])
  }

  lemma {:induction false} AnchorsAmongMembers(g: Grid, shape: Vec, cs: seq<Vec>, c: Vec)
    ensures c in AnchorsAmong(g, shape, cs) <==> c in cs && IsDoorAnchor(g, shape, c)
  {
    if cs != [] {
      var init := cs[..|cs| - 1];
      AnchorsAmongMembers(g, shape, init, c);
      assert cs == init + [cs[|cs| - 1]];
    }
  }

  /** PossibleDoorAnchors: the Room cells, in row-major order, that pass IsDoorAnchorLocation. */
  method PossibleDoorAnchors(data: array2<int>) returns (anchors: seq<Vec>)
    ensures anchors == AnchorsAmong(Snapshot(data), Vec(data.Length1, data.Length0), RoomCells(Snapshot(data)))
  {
    ghost var g := Snapshot(data);
    var dataShape := Vec(data.Length1, data.Length0);
    var rooms := RoomCells(Snapshot(data));
    anchors := [];
    var i := 0;
    while i < |rooms|
      invariant 0 <= i <= |rooms|
      invariant anchors == AnchorsAmong(g, dataShape, rooms[..i])
    {
      RoomCellsMembers(g, rooms[i]);
      var isAnchor := IsDoorAnchorLocation(data, rooms[i], dataShape);
      assert rooms[..i + 1][..i] == rooms[..i];
      if isAnchor {
        anchors := anchors + [rooms[i]];
      }
      i := i + 1;
    }
    assert rooms[..i] == rooms;
  }

  /** The door anchors PossibleDoorAnchors lists are exactly the Room cells that are door anchors. */
  lemma PossibleDoorAnchorsMembers(g: Grid, shape: Vec, c: Vec)
    ensures c in AnchorsAmong(g, shape, RoomCells(g)) <==> InBounds(g, c) && At(g, c) == Tiles.Room && IsDoorAnchor(g, shape, c)
  {
    AnchorsAmongMembers(g, shape, RoomCells(g), c);
    RoomCellsMembers(g, c);
  }

  // ---------------------------------------------------------------------------------------------
  // Doors

  /** The neighbour of `anchor` in direction `i` of AsDirections (North, East, South, West). */
  function Neighbour(anchor: Vec, i: int): Vec
    requires 0 <= i < 4
  {
    Add(anchor, [Vec(0, 1), Vec(1, 0), Vec(0, -1), Vec(-1, 0)][i])
  }

  /** Neighbour steps along the i-th vector of AsDirections. */
  lemma NeighbourAlongAsDirections(anchor: Vec, i: int)
    requires 0 <= i < 4
    ensures Neighbour(anchor, i) == Add(anchor, AsDirections()[i])
  {
  }

  /** Each neighbour is one step away. */
  lemma NeighbourIsUnit(anchor: Vec, i: int)
    requires 0 <= i < 4
    ensures IsUnit(Sub(Neighbour(anchor, i), anchor))
  {
    if i == 0 {
    } else if i == 1 {
    } else if i == 2 {
    } else {
    }
  }

  /** The four cardinal neighbours of `anchor` are inside the grid. */
  predicate NeighboursInBounds(g: Grid, anchor: Vec) {
    forall i :: 0 <= i < 4 ==> InBounds(g, Neighbour(anchor, i))
  }

  /** The index of the first of the directions `k..3` whose neighbour is a Nothing tile. */
  function FirstEmptyFrom(g: Grid, anchor: Vec, k: nat): (r: Option<nat>)
    requires NeighboursInBounds(g, anchor) && k <= 4
    ensures r.Some? ==> k <= r.value < 4 && At(g, Neighbour(anchor, r.value)) == Tiles.Nothing
    ensures r.Some? ==> forall j :: k <= j < r.value ==> At(g, Neighbour(anchor, j)) != Tiles.Nothing
    ensures r.None? ==> forall j :: k <= j < 4 ==> At(g, Neighbour(anchor, j)) != Tiles.Nothing
    decreases 4 - k
  {
    if k == 4 then None
    else if At(g, Neighbour(anchor, k)) == Tiles.Nothing then Some(k)
    else FirstEmptyFrom(g, anchor, k + 1)
  }

  /** DoorFromAnchor: the first neighbour, in North, East, South, West order, holding Nothing. */
  function DoorFromAnchor(g: Grid, anchor: Vec): (r: Option<Vec>)
    requires NeighboursInBounds(g, anchor)
    ensures r.Some? ==> IsUnit(Sub(r.value, anchor)) && InBounds(g, r.value) && At(g, r.value) == Tiles.Nothing
    ensures r.Some? ==>
      exists i :: 0 <= i < 4 && r.value == Neighbour(anchor, i) &&
        forall j :: 0 <= j < i ==> At(g, Neighbour(anchor, j)) != Tiles.Nothing
    ensures r.None? <==> forall j :: 0 <= j < 4 ==> At(g, Neighbour(anchor, j)) != Tiles.Nothing
  {
    match FirstEmptyFrom(g, anchor, 0)
    case None => None
    case Some(i) =>
      NeighbourIsUnit(anchor, i);
      Some(Neighbour(anchor, i))
  }

  /** DoorFromAnchor looks only at the four neighbours. */
  lemma DoorFromAnchorLocal(g: Grid, h: Grid, anchor: Vec)
    requires NeighboursInBounds(g, anchor) && NeighboursInBounds(h, anchor)
    requires forall i :: 0 <= i < 4 ==> At(g, Neighbour(anchor, i)) == At(h, Neighbour(anchor, i))
    ensures DoorFromAnchor(g, anchor) == DoorFromAnchor(h, anchor)
  {
    assert FirstEmptyFrom(g, anchor, 4) == FirstEmptyFrom(h, anchor, 4);
    assert FirstEmptyFrom(g, anchor, 3) == FirstEmptyFrom(h, anchor, 3);
    assert FirstEmptyFrom(g, anchor, 2) == FirstEmptyFrom(h, anchor, 2);
    assert FirstEmptyFrom(g, anchor, 1) == FirstEmptyFrom(h, anchor, 1);
  }

  /** An interior cell has its four neighbours inside the grid. */
  lemma InteriorNeighbours(g: Grid, shape: Vec, c: Vec)
    requires Interior(g, shape, c)
    ensures NeighboursInBounds(g, c)
  {
    forall i | 0 <= i < 4 ensures InBounds(g, Neighbour(c, i)) {
      NeighbourIsUnit(c, i);
    }
  }

  /** A three-entry count list whose middle entry is not 0 has its 0 at one end. */
  lemma ZeroAtEnd(s: seq<int>)
    requires |s| == 3 && TwoFullOneEmpty(s) && s[1] != 0
    ensures s[0] == 0 || s[2] == 0
  {
    assert 0 in s;
  }

  /** A Room-free outer row has a Nothing cell straight above or below the centre. */
  lemma EmptyRowGivesNothing(g: Grid, shape: Vec, c: Vec, yi: int)
    requires Interior(g, shape, c) && OnlyNothingOrRoom(g) && (yi == 0 || yi == 2)
    requires RowPrefix(g, shape, c, yi, 3) == 0
    ensures NeighboursInBounds(g, c)
    ensures At(g, Neighbour(c, if yi == 0 then 2 else 0)) == Tiles.Nothing
  {
    InteriorNeighbours(g, shape, c);
    RowHitsMeaning(g, shape, c, yi);
    assert Near(g, shape, c, 1, yi) != Tiles.Room;
    assert At(g, Neighbour(c, if yi == 0 then 2 else 0)) == Near(g, shape, c, 1, yi);
  }

  /** A Room-free outer column has a Nothing cell straight left or right of the centre. */
  lemma EmptyColGivesNothing(g: Grid, shape: Vec, c: Vec, xi: int)
    requires Interior(g, shape, c) && OnlyNothingOrRoom(g) && (xi == 0 || xi == 2)
    requires ColPrefix(g, shape, c, xi, 3) == 0
    ensures NeighboursInBounds(g, c)
    ensures At(g, Neighbour(c, if xi == 0 then 3 else 1)) == Tiles.Nothing
  {
    InteriorNeighbours(g, shape, c);
    ColHitsMeaning(g, shape, c, xi);
    assert Near(g, shape, c, xi, 1) != Tiles.Room;
    assert At(g, Neighbour(c, if xi == 0 then 3 else 1)) == Near(g, shape, c, xi, 1);
  }

  /**
   * On a grid of Nothing and Room tiles, a Room door anchor always has a Nothing neighbour: its
   * centre row and column contain the Room centre, so the Room-free row or column is an outer one,
   * and its middle cell is a cardinal neighbour.
   */
  lemma DoorAnchorHasDoor(g: Grid, shape: Vec, c: Vec)
    requires IsDoorAnchor(g, shape, c) && At(g, c) == Tiles.Room && OnlyNothingOrRoom(g)
    ensures NeighboursInBounds(g, c) && DoorFromAnchor(g, c).Some?
  {
    InteriorNeighbours(g, shape, c);
    assert Near(g, shape, c, 1, 1) == Tiles.Room;
    if TwoFullOneEmpty(RowHits(g, shape, c)) {
      RowHitsMeaning(g, shape, c, 1);
      ZeroAtEnd(RowHits(g, shape, c));
      if RowPrefix(g, shape, c, 0, 3) == 0 {
        EmptyRowGivesNothing(g, shape, c, 0);
      } else {
        EmptyRowGivesNothing(g, shape, c, 2);
      }
    } else {
      ColHitsMeaning(g, shape, c, 1);
      ZeroAtEnd(ColHits(g, shape, c));
      if ColPrefix(g, shape, c, 0, 3) == 0 {
        EmptyColGivesNothing(g, shape, c, 0);
      } else {
        EmptyColGivesNothing(g, shape, c, 2);
      }
    }
  }

  /** `c` lies within two steps of one of `doors`, so the door filter has dropped it. */
  predicate NearDoor(doors: seq<Vec>, c: Vec) {
    exists d :: 0 <= d < |doors| && Manhattan(Sub(c, doors[d])) <= 2
  }

  /**
   * One pass of the door loop of Generate: turn the Nothing neighbour that DoorFromAnchor finds
   * for `anchor` into a Door tile. The anchor is more than two steps from the doors already
   * placed, so it sees its original neighbours and the new door is at least two steps from them.
   */
  method PlaceDoor(data: array2<int>, ghost orig: Grid, ghost doors: seq<Vec>, anchor: Vec) returns (door: Vec)
    requires IsDoorAnchor(orig, Vec(data.Length1, data.Length0), anchor)
    requires OnlyNothingOrRoom(orig) && At(orig, anchor) == Tiles.Room
    requires Stamped(data, orig, doors, Tiles.Door)
    requires forall d :: 0 <= d < |doors| ==> Manhattan(Sub(anchor, doors[d])) > 2
    modifies data
    ensures NeighboursInBounds(orig, anchor) && DoorFromAnchor(orig, anchor) == Some(door)
    ensures IsUnit(Sub(door, anchor)) && InBounds(orig, door) && At(orig, door) == Tiles.Nothing
    ensures forall d :: 0 <= d < |doors| ==> Manhattan(Sub(doors[d], door)) >= 2
    ensures Stamped(data, orig, doors + [door], Tiles.Door)
  {
    ghost var shape := Vec(data.Length1, data.Length0);
    AnchorDoor(orig, shape, Snapshot(data), doors, anchor);
    door := DoorFromAnchor(Snapshot(data), anchor).value;
    forall d | 0 <= d < |doors| ensures Manhattan(Sub(doors[d], door)) >= 2 {
      StepKeepsApart(anchor, door, doors[d]);
    }
    assert NeighboursInBounds(orig, anchor) && DoorFromAnchor(orig, anchor) == Some(door);
    assert IsUnit(Sub(door, anchor)) && InBounds(orig, door) && At(orig, door) == Tiles.Nothing;
    Stamp(data, orig, doors, door, Tiles.Door);
  }

  /**
   * The doors placed so far: each the door DoorFromAnchor finds on the grid before the doors for
   * the candidate `used` at the same index, so a cell that was Nothing one step from it, and at
   * least two steps from every other door.
   */
  ghost predicate DoorsPlaced(orig: Grid, candidates: seq<Vec>, doors: seq<Vec>, used: seq<Vec>) {
    && |used| == |doors|
    && (forall d :: 0 <= d < |doors| ==>
      && InBounds(orig, doors[d]) && At(orig, doors[d]) == Tiles.Nothing
      && used[d] in candidates && IsUnit(Sub(doors[d], used[d]))
      && NeighboursInBounds(orig, used[d]) && DoorFromAnchor(orig, used[d]) == Some(doors[d]))
    && (forall a, b :: 0 <= a < b < |doors| ==> Manhattan(Sub(doors[a], doors[b])) >= 2)
  }

  lemma DoorsPlacedSnoc(orig: Grid, candidates: seq<Vec>, doors: seq<Vec>, used: seq<Vec>, door: Vec, anchor: Vec)
    requires DoorsPlaced(orig, candidates, doors, used)
    requires InBounds(orig, door) && At(orig, door) == Tiles.Nothing
    requires anchor in candidates && IsUnit(Sub(door, anchor))
    requires NeighboursInBounds(orig, anchor) && DoorFromAnchor(orig, anchor) == Some(door)
    requires forall d :: 0 <= d < |doors| ==> Manhattan(Sub(doors[d], door)) >= 2
    ensures DoorsPlaced(orig, candidates, doors + [door], used + [anchor])
  {
    var doors', used' := doors + [door], used + [anchor];
    forall d | 0 <= d < |doors'|
      ensures && InBounds(orig, doors'[d]) && At(orig, doors'[d]) == Tiles.Nothing
        && used'[d] in candidates && IsUnit(Sub(doors'[d], used'[d]))
        && NeighboursInBounds(orig, used'[d]) && DoorFromAnchor(orig, used'[d]) == Some(doors'[d])
    {
      if d < |doors| {
        assert doors'[d] == doors[d] && used'[d] == used[d];
      }
    }
    forall a, b | 0 <= a < b < |doors'| ensures Manhattan(Sub(doors'[a], doors'[b])) >= 2 {
      if b < |doors| {
        assert doors'[a] == doors[a] && doors'[b] == doors[b];
      } else {
        assert doors'[a] == doors[a] && doors'[b] == door;
      }
    }
  }

  /** Every candidate is more than two steps from every door. */
  predicate AllFar(cs: seq<Vec>, doors: seq<Vec>) {
    forall c, d :: c in cs && 0 <= d < |doors| ==> Manhattan(Sub(c, doors[d])) > 2
  }

  /** Keeping the candidates far from a new door keeps them far from all doors. */
  lemma AllFarStep(cs: seq<Vec>, doors: seq<Vec>, door: Vec)
    requires AllFar(cs, doors)
    ensures AllFar(FartherThan(cs, door, 2), doors + [door])
    ensures forall c :: c in FartherThan(cs, door, 2) ==> c in cs
  {
    FartherThanMembers(cs, door, 2);
    var doors' := doors + [door];
    forall c, d | c in FartherThan(cs, door, 2) && 0 <= d < |doors'| ensures Manhattan(Sub(c, doors'[d])) > 2 {
      if d < |doors| {
        assert doors'[d] == doors[d];
      } else {
        assert doors'[d] == door;
      }
    }
  }

  /** A candidate dropped now lies near the new door; one dropped earlier stays near its old door. */
  lemma NearDoorStep(candidates: seq<Vec>, doorCandidates: seq<Vec>, doors: seq<Vec>, door: Vec)
    requires forall c :: c in candidates && c !in doorCandidates ==> NearDoor(doors, c)
    ensures forall c :: c in candidates && c !in FartherThan(doorCandidates, door, 2) ==> NearDoor(doors + [door], c)
  {
    FartherThanMembers(doorCandidates, door, 2);
    var doors' := doors + [door];
    forall c | c in candidates && c !in FartherThan(doorCandidates, door, 2) ensures NearDoor(doors', c) {
      if c in doorCandidates {
        assert doors'[|doors|] == door;
      } else {
        var d :| 0 <= d < |doors| && Manhattan(Sub(c, doors[d])) <= 2;
        assert doors'[d] == doors[d];
      }
    }
  }

  /**
   * One pass of the door loop: pick a random remaining candidate, place its door, and keep the
   * candidates more than two steps from it.
   */
  method DoorStep(data: array2<int>, ghost orig: Grid, ghost candidates: seq<Vec>, doorCandidates: seq<Vec>,
                  doors: seq<Vec>, ghost used: seq<Vec>)
    returns (doorCandidates': seq<Vec>, doors': seq<Vec>, ghost used': seq<Vec>)
    requires OnlyNothingOrRoom(orig)
    requires forall c :: c in candidates ==>
      IsDoorAnchor(orig, Vec(data.Length1, data.Length0), c) && At(orig, c) == Tiles.Room
    requires |doorCandidates| > 0 && forall c :: c in doorCandidates ==> c in candidates
    requires AllFar(doorCandidates, doors) && DoorsPlaced(orig, candidates, doors, used)
    requires forall c :: c in candidates && c !in doorCandidates ==> NearDoor(doors, c)
    requires Stamped(data, orig, doors, Tiles.Door)
    modifies data
    ensures |doors'| == |doors| + 1 && doors' == doors + [doors'[|doors|]] && |used'| == |used| + 1
    ensures used' == used + [used'[|used|]] && used'[|used|] in doorCandidates
    ensures NeighboursInBounds(orig, used'[|used|]) && DoorFromAnchor(orig, used'[|used|]) == Some(doors'[|doors|])
    ensures doorCandidates' == FartherThan(doorCandidates, doors'[|doors|], 2)
    ensures forall c :: c in doorCandidates' ==> c in doorCandidates
    ensures forall c :: c in doorCandidates && c !in doorCandidates' ==> Manhattan(Sub(c, doors'[|doors|])) <= 2
    ensures AllFar(doorCandidates', doors') && DoorsPlaced(orig, candidates, doors', used')
    ensures forall c :: c in candidates && c !in doorCandidates' ==> NearDoor(doors', c)
    ensures Stamped(data, orig, doors', Tiles.Door)
  {
    var pick := Random.Range(0, |doorCandidates|);
    var doorAnchor := doorCandidates[pick];
    assert doorAnchor in doorCandidates && doorAnchor in candidates;
    var door := PlaceDoor(data, orig, doors, doorAnchor);
    DoorsPlacedSnoc(orig, candidates, doors, used, door, doorAnchor);
    AllFarStep(doorCandidates, doors, door);
    FartherThanMembers(doorCandidates, door, 2);
    doorCandidates', doors', used' := FartherThan(doorCandidates, door, 2), doors + [door], used + [doorAnchor];
    NearDoorStep(candidates, doorCandidates, doors, door);
  }

  /**
   * The door loop of Generate: pick a random candidate, turn its door neighbour into a Door tile,
   * and keep only the candidates more than two steps from that door; stop after `nDoors` doors or
   * when no candidate is left. `ok == false` stands for indexing the empty candidate list on the
   * first pass. Every remaining candidate stays more than two steps from every door, so the
   * neighbourhoods of the candidates never see a door.
   */
  method PlaceDoors(data: array2<int>, ghost orig: Grid, candidates: seq<Vec>, nDoors: int)
    returns (ok: bool, doors: seq<Vec>, ghost used: seq<Vec>)
    requires Stamped(data, orig, [], Tiles.Door) && OnlyNothingOrRoom(orig)
    requires forall c :: c in candidates ==>
      IsDoorAnchor(orig, Vec(data.Length1, data.Length0), c) && At(orig, c) == Tiles.Room
    modifies data
    ensures !ok <==> nDoors > 0 && candidates == []
    ensures !ok ==> doors == []
    ensures |doors| <= if nDoors < 0 then 0 else nDoors
    ensures ok && nDoors > 0 ==> |doors| > 0
    ensures forall i :: 0 <= i < |doors| ==>
      && InBounds(orig, doors[i]) && At(orig, doors[i]) == Tiles.Nothing
      && NextToSome(candidates, doors[i])
    ensures forall i, j :: 0 <= i < j < |doors| ==> Manhattan(Sub(doors[i], doors[j])) >= 2
    ensures |used| == |doors| && forall i :: 0 <= i < |doors| ==>
      used[i] in candidates && NeighboursInBounds(orig, used[i]) && DoorFromAnchor(orig, used[i]) == Some(doors[i])
    ensures ok && |doors| < nDoors ==> forall c :: c in candidates ==> NearDoor(doors, c)
    ensures Stamped(data, orig, doors, Tiles.Door)
  {
    var doorCandidates := candidates;
    doors := [];
    used := [];
    var i := 0;
    while i < nDoors
      invariant 0 <= i == |doors| == |used| && (i > 0 ==> i <= nDoors)
      invariant candidates == [] ==> i == 0
      invariant i == 0 ==> doorCandidates == candidates
      invariant i > 0 ==> |doorCandidates| > 0
      invariant forall c :: c in doorCandidates ==> c in candidates
      invariant AllFar(doorCandidates, doors)
      invariant DoorsPlaced(orig, candidates, doors, used)
      invariant forall c :: c in candidates && c !in doorCandidates ==> NearDoor(doors, c)
      invariant Stamped(data, orig, doors, Tiles.Door)
      decreases nDoors - i
    {
      if |doorCandidates| == 0 {
        return false, doors, used;
      }
      doorCandidates, doors, used := DoorStep(data, orig, candidates, doorCandidates, doors, used);
      i := i + 1;
      if |doorCandidates| == 0 {
        break;
      }
    }
    // The loop stops early only once every candidate has been dropped near some door.
    assert |doors| < nDoors ==> doorCandidates == [];
    ok := true;
    DoorsPlacedNear(orig, candidates, doors, used);
  }

  /** Each placed door is one step from some candidate: the one recorded for it. */
  lemma DoorsPlacedNear(orig: Grid, candidates: seq<Vec>, doors: seq<Vec>, used: seq<Vec>)
    requires DoorsPlaced(orig, candidates, doors, used)
    ensures forall i :: 0 <= i < |doors| ==> NextToSome(candidates, doors[i])
  {
    forall i | 0 <= i < |doors| ensures NextToSome(candidates, doors[i]) {
      var c := used[i];
      assert c in candidates && IsUnit(Sub(doors[i], c));
    }
  }

  /**
   * A candidate more than two steps from every door still sees its original neighbours, so the
   * current grid yields the same door as the original one, and that door exists.
   */
  lemma AnchorDoor(orig: Grid, shape: Vec, now: Grid, doors: seq<Vec>, a: Vec)
    requires OnlyNothingOrRoom(orig) && IsDoorAnchor(orig, shape, a) && At(orig, a) == Tiles.Room
    requires IsShape(now, shape)
    requires forall y, x :: 0 <= y < |now| && 0 <= x < |now[y]| ==>
      now[y][x] == if Vec(x, y) in doors then Tiles.Door else orig[y][x]
    requires forall d :: 0 <= d < |doors| ==> Manhattan(Sub(a, doors[d])) > 2
    ensures NeighboursInBounds(now, a) && DoorFromAnchor(now, a) == DoorFromAnchor(orig, a)
    ensures DoorFromAnchor(now, a).Some?
  {
    DoorAnchorHasDoor(orig, shape, a);
    forall i | 0 <= i < 4 ensures InBounds(now, Neighbour(a, i)) && At(now, Neighbour(a, i)) == At(orig, Neighbour(a, i)) {
      var n := Neighbour(a, i);
      NeighbourIsUnit(a, i);
      assert n !in doors by {
        assert forall d :: 0 <= d < |doors| ==> doors[d] != n;
      }
    }
    DoorFromAnchorLocal(now, orig, a);
  }

  // ---------------------------------------------------------------------------------------------
  // Generate

  /** The all-Nothing grid of a shape: a freshly allocated `int[,]`. */
  function Blank(shape: Vec): (g: Grid)
    requires shape.x >= 0 && shape.y >= 0
    ensures IsShape(g, shape)
    ensures forall y, x :: 0 <= y < shape.y && 0 <= x < shape.x ==> g[y][x] == Tiles.Nothing
  {
    seq(shape.y, _ => seq(shape.x, _ => Tiles.Nothing))
  }

  lemma SnapshotBlank(data: array2<int>)
    requires forall y, x :: 0 <= y < data.Length0 && 0 <= x < data.Length1 ==> data[y, x] == Tiles.Nothing
    ensures Snapshot(data) == Blank(Vec(data.Length1, data.Length0))
  {
    var g, b := Snapshot(data), Blank(Vec(data.Length1, data.Length0));
    forall y | 0 <= y < |g| ensures g[y] == b[y] {
      assert forall x :: 0 <= x < |g[y]| ==> g[y][x] == b[y][x];
    }
  }

  /**
   * The door phase of Generate on the room grid `rooms` held in `data`: collect the door anchors,
   * place up to `nDoors` spaced doors and wrap the array in a block. None stands for indexing the
   * empty anchor list when doors are wanted.
   */
  method FinishDoors(cfg: RoomConfig, data: array2<int>, ghost rooms: Grid, nDoors: int)
    returns (r: Option<Blocks.DungeonBlock>, ghost doors: seq<Vec>, ghost anchors: seq<Vec>)
    requires Vec(data.Length1, data.Length0) == cfg.blockShape && Snapshot(data) == rooms
    requires IsShape(rooms, cfg.blockShape) && OnlyNothingOrRoom(rooms)
    modifies data
    ensures r.None? <==> nDoors > 0 && AnchorsAmong(rooms, cfg.blockShape, RoomCells(rooms)) == []
    ensures r.Some? ==> fresh(r.value) && r.value.Valid() && r.value.Shape == cfg.blockShape
    ensures r.Some? ==> forall y, x :: 0 <= y < cfg.blockShape.y && 0 <= x < cfg.blockShape.x ==>
      r.value.data[y][x] == (if Vec(x, y) in doors then Tiles.Door else rooms[y][x]) && RoomTile(r.value.data[y][x])
    ensures r.Some? ==> |doors| <= Max(nDoors, 0) && (nDoors > 0 ==> |doors| > 0)
    ensures r.Some? ==> forall i :: 0 <= i < |doors| ==>
      && InBounds(rooms, doors[i]) && At(rooms, doors[i]) == Tiles.Nothing
      && NextToSome(AnchorsAmong(rooms, cfg.blockShape, RoomCells(rooms)), doors[i])
    ensures r.Some? ==> forall i, j :: 0 <= i < j < |doors| ==> Manhattan(Sub(doors[i], doors[j])) >= 2
    ensures r.Some? ==> |anchors| == |doors| && forall i :: 0 <= i < |doors| ==>
      && anchors[i] in AnchorsAmong(rooms, cfg.blockShape, RoomCells(rooms))
      && NeighboursInBounds(rooms, anchors[i]) && DoorFromAnchor(rooms, anchors[i]) == Some(doors[i])
    ensures r.Some? && |doors| < nDoors ==> forall c :: c in AnchorsAmong(rooms, cfg.blockShape, RoomCells(rooms)) ==> NearDoor(doors, c)
  {
    var doorCandidates := PossibleDoorAnchors(data);
    assert Vec(data.Length1, data.Length0) == cfg.blockShape && Snapshot(data) == rooms;
    assert doorCandidates == AnchorsAmong(rooms, cfg.blockShape, RoomCells(rooms));
    forall c | c in doorCandidates ensures IsDoorAnchor(rooms, cfg.blockShape, c) && At(rooms, c) == Tiles.Room {
      PossibleDoorAnchorsMembers(rooms, cfg.blockShape, c);
    }
    var ok;
    ok, doors, anchors := PlaceDoors(data, rooms, doorCandidates, nDoors);
    if !ok {
      return None, doors, anchors;
    }
    var block := new Blocks.DungeonBlock(data);
    forall y, x | 0 <= y < cfg.blockShape.y && 0 <= x < cfg.blockShape.x
      ensures block.data[y][x] == (if Vec(x, y) in doors then Tiles.Door else rooms[y][x]) && RoomTile(block.data[y][x])
    {
      assert block.data[y][x] == data[y, x];
    }
    r := Some(block);
  }

  /**
   * Generate: an empty `blockShape` array, `nShapes` room rectangles (the drawn number), the door
   * anchors of the result, and up to `nDoors` spaced doors (the drawn number); the block wraps the
   * final array. `rooms` is the grid before the doors are placed and `rects` its rectangles. None
   * stands for an exception: a drawn room shape `misfit` that does not fit the block, or no door
   * anchor at all when doors are wanted.
   */
  method Generate(cfg: RoomConfig)
    returns (r: Option<Blocks.DungeonBlock>, ghost rooms: Grid, ghost doors: seq<Vec>,
             ghost rects: seq<Rect>, ghost nShapes: int, ghost nDoors: int, ghost misfit: Option<Vec>,
             ghost anchors: seq<Vec>)
    requires ValidConfig(cfg)
    ensures nShapes in cfg.numberOfBaseShapePossibilities && nDoors in cfg.doorsPossibilities
    ensures IsShape(rooms, cfg.blockShape) && OnlyNothingOrRoom(rooms)
    ensures RoomsStamped(Blank(cfg.blockShape), rooms, rects) && Joined(Blank(cfg.blockShape), rects) && RectsFit(cfg, rects)
    ensures misfit.None? ==> |rects| == Max(nShapes, 0)
    ensures misfit.Some? ==> r.None? && |rects| < nShapes
    ensures misfit.Some? ==>
      && cfg.minBaseShape.x <= misfit.value.x <= cfg.maxBaseShape.x && cfg.minBaseShape.y <= misfit.value.y <= cfg.maxBaseShape.y
      && (misfit.value.x >= cfg.blockShape.x || misfit.value.y >= cfg.blockShape.y)
    ensures cfg.maxBaseShape.x < cfg.blockShape.x && cfg.maxBaseShape.y < cfg.blockShape.y ==> misfit.None?
    ensures misfit.None? && nDoors > 0 && AnchorsAmong(rooms, cfg.blockShape, RoomCells(rooms)) == [] ==> r.None?
    ensures r.None? ==> misfit.Some? || (nDoors > 0 && AnchorsAmong(rooms, cfg.blockShape, RoomCells(rooms)) == [])
    ensures r.Some? ==> fresh(r.value) && r.value.Valid() && r.value.Shape == cfg.blockShape
    ensures r.Some? ==> forall y, x :: 0 <= y < cfg.blockShape.y && 0 <= x < cfg.blockShape.x ==>
      r.value.data[y][x] == (if Vec(x, y) in doors then Tiles.Door else rooms[y][x]) && RoomTile(r.value.data[y][x])
    ensures r.Some? ==> |doors| <= Max(nDoors, 0) && (nDoors > 0 ==> |doors| > 0)
    ensures r.Some? ==> forall i :: 0 <= i < |doors| ==>
      && InBounds(rooms, doors[i]) && At(rooms, doors[i]) == Tiles.Nothing
      && NextToSome(AnchorsAmong(rooms, cfg.blockShape, RoomCells(rooms)), doors[i])
    ensures r.Some? ==> forall i, j :: 0 <= i < j < |doors| ==> Manhattan(Sub(doors[i], doors[j])) >= 2
    ensures r.Some? ==> |anchors| == |doors| && forall i :: 0 <= i < |doors| ==>
      && anchors[i] in AnchorsAmong(rooms, cfg.blockShape, RoomCells(rooms))
      && NeighboursInBounds(rooms, anchors[i]) && DoorFromAnchor(rooms, anchors[i]) == Some(doors[i])
    ensures r.Some? && |doors| < nDoors ==> forall c :: c in AnchorsAmong(rooms, cfg.blockShape, RoomCells(rooms)) ==> NearDoor(doors, c)
  {
    var data := new int[cfg.blockShape.y, cfg.blockShape.x]((_, _) => Tiles.Nothing);
    SnapshotBlank(data);
    var shapePick := Random.Range(0, |cfg.numberOfBaseShapePossibilities|);
    var shapeCount := cfg.numberOfBaseShapePossibilities[shapePick];
    var doorPick := Random.Range(0, |cfg.doorsPossibilities|);
    var doorCount := cfg.doorsPossibilities[doorPick];
    nShapes, nDoors := shapeCount, doorCount;
    doors, anchors := [], [];
    var ok, actualShapes;
    ghost var failed;
    ok, actualShapes, rects, failed := PlaceRooms(cfg, data, shapeCount);
    rooms := Snapshot(data);
    if !ok {
      return None, rooms, doors, rects, nShapes, nDoors, Some(failed), anchors;
    }
    misfit := None;
    r, doors, anchors := FinishDoors(cfg, data, rooms, doorCount);
  }
}
