/** BlockConnector: a dungeon cell where one block waits for a second one to join it. */
module Connectors {
  import opened Geometry
  import opened Grids
  import opened Blocks
  import Tiles

  /** DungeonOvelap: how a dungeon cell relates to the connectors. */
  datatype DungeonOverlap = Nothing | Connection | Collision

  /** IsConnector: the tile can form a connector (Exit or Door). */
  predicate IsConnector(value: int) {
    value == Tiles.Exit || value == Tiles.Door
  }

  /** IsNotConnector: a filled tile that cannot form a connector. */
  predicate IsNotConnector(value: int) {
    value != Tiles.Nothing && !IsConnector(value)
  }

  /** Nothing, connector tiles and non-connector tiles partition the tile values. */
  lemma TileClassesPartition(value: int)
    ensures (value == Tiles.Nothing) != (IsConnector(value) || IsNotConnector(value))
    ensures !(IsConnector(value) && IsNotConnector(value))
  {
  }

  /** The block has a connector tile at dungeon cell `w`. */
  predicate HasConnectorAt(b: DungeonBlock, w: Vec)
    reads b
  {
    w in Keys(b.DungeonPositions(IsConnector))
  }

  /** A filled cell of a block is one of its connector cells exactly when its tile is a connector tile. */
  lemma FilledConnectorAt(b: DungeonBlock, w: Vec, v: int)
    requires Cell(w, v) in b.DungeonPositions(NonZero)
    ensures HasConnectorAt(b, w) <==> IsConnector(v)
  {
    b.DungeonPositionsMembers(NonZero, w, v);
    var c :| InBounds(b.data, c) && w == b.BlockCoordinatesToDungeon(c) && v == b.data[c.y][c.x];
    var ks := Keys(b.DungeonPositions(IsConnector));
    if IsConnector(v) {
      b.DungeonPositionsMembers(IsConnector, w, v);
      var i :| 0 <= i < |b.DungeonPositions(IsConnector)| && b.DungeonPositions(IsConnector)[i] == Cell(w, v);
      assert ks[i] == w;
    }
    if HasConnectorAt(b, w) {
      var i :| 0 <= i < |ks| && ks[i] == w;
      var cell := b.DungeonPositions(IsConnector)[i];
      assert cell in b.DungeonPositions(IsConnector);
      b.DungeonPositionsMembers(IsConnector, w, cell.value);
      var c' :| InBounds(b.data, c') && w == b.BlockCoordinatesToDungeon(c') && cell.value == b.data[c'.y][c'.x]
        && IsConnector(cell.value);
      b.TransformPivotAndInjective(c, c');
    }
  }

  class BlockConnector {
    const first: DungeonBlock
    const coordinates: Vec
    var second: DungeonBlock?

    constructor (first: DungeonBlock, coordinates: Vec)
      ensures this.first == first && this.coordinates == coordinates
      ensures IsOpen() && Connects() == [first]
    {
      this.first := first;
      this.coordinates := coordinates;
      second := null;
    }

    /** IsOpen: no second block has joined yet. */
    predicate IsOpen()
      reads this
    {
      second == null
    }

    /** Connects: the blocks that share this connector. */
    function Connects(): (r: seq<DungeonBlock>)
      reads this
      ensures |r| == if IsOpen() then 1 else 2
      ensures r[0] == first && (!IsOpen() ==> r[1] == second)
    {
      if IsOpen() then [first]
      else
        var s: DungeonBlock := second;
        [first, s]
    }

    /** GetOverlap: Nothing away from the connector, Connection while open, Collision once sealed. */
    function GetOverlap(c: Vec): (r: DungeonOverlap)
      reads this
      ensures r == Nothing <==> c != coordinates
      ensures r == Connection <==> c == coordinates && second == null
      ensures r == Collision <==> c == coordinates && second != null
    {
      if coordinates != c then Nothing
      else if IsOpen() then Connection else Collision
    }

    /** Connect: seal with `b` when `b` has a connector tile here; otherwise leave the connector as it is. */
    method Connect(b: DungeonBlock) returns (ok: bool)
      modifies this
      ensures ok <==> HasConnectorAt(b, coordinates)
      ensures second == if ok then b else old(second)
      ensures ok ==> Connects() == [first, b]
    {
      if coordinates in Keys(b.DungeonPositions(IsConnector)) {
        second := b;
        return true;
      }
      return false;
    }
  }
}
