/**
 * DungeonLevel: the committed blocks, the connectors between them, and a tentative block that
 * is checked against the placement rule before it is committed.
 */
module Levels {
  import opened Geometry
  import opened Grids
  import opened Blocks
  import opened Connectors
  import opened Wrappers
  import Seqs

  /** List.Find by coordinates: the index of the first connector at `coords`. */
  function FindConnector(cs: seq<BlockConnector>, coords: Vec): (r: Option<nat>)
    ensures r.Some? ==> r.value < |cs| && cs[r.value].coordinates == coords
    ensures r.Some? ==> forall j :: 0 <= j < r.value ==> cs[j].coordinates != coords
    ensures r.None? ==> forall j :: 0 <= j < |cs| ==> cs[j].coordinates != coords
  {
    if cs == [] then None
    else if cs[0].coordinates == coords then Some(0)
    else match FindConnector(cs[1..], coords)
      case None => None
      case Some(i) => Some(i + 1)
  }

  /** No two connectors share a dungeon cell: each one's cell is new to those listed before it. */
  predicate CoordinatesDistinct(cs: seq<BlockConnector>) {
    cs == [] || (var n := |cs| - 1; CoordinatesDistinct(cs[..n]) && cs[n].coordinates !in CoordinatesOf(cs[..n]))
  }

  lemma {:induction false} CoordinatesDistinctPairs(cs: seq<BlockConnector>, i: nat, j: nat)
    requires CoordinatesDistinct(cs) && i < j < |cs|
    ensures cs[i].coordinates != cs[j].coordinates
  {
    var n := |cs| - 1;
    if j < n {
      assert cs[..n][i] == cs[i] && cs[..n][j] == cs[j];
      CoordinatesDistinctPairs(cs[..n], i, j);
    } else {
      assert CoordinatesOf(cs[..n])[i] == cs[i].coordinates;
    }
  }

  /** The cells the connectors sit on, in list order. */
  function CoordinatesOf(cs: seq<BlockConnector>): (ws: seq<Vec>)
    ensures |ws| == |cs|
    ensures forall i {:trigger ws[i]} :: 0 <= i < |cs| ==> ws[i] == cs[i].coordinates
  {
    if cs == [] then [] else CoordinatesOf(cs[..|cs| - 1]) + [cs[|cs| - 1].coordinates]
  }

  lemma CoordinatesOfAppend(a: seq<BlockConnector>, b: seq<BlockConnector>)
    ensures CoordinatesOf(a + b) == CoordinatesOf(a) + CoordinatesOf(b)
  {
  }

  /** The block that sealed each connector, or null while it is open, in list order. */
  function Seconds(cs: seq<BlockConnector>): (r: seq<DungeonBlock?>)
    reads cs
    ensures |r| == |cs|
    ensures forall i {:trigger r[i]} :: 0 <= i < |cs| ==> r[i] == cs[i].second
  {
    if cs == [] then [] else Seconds(cs[..|cs| - 1]) + [cs[|cs| - 1].second]
  }

  /** The second blocks after sealing with `t` every connector whose cell is one of `tc`. */
  function Resealed(coords: seq<Vec>, tc: seq<Vec>, t: DungeonBlock, before: seq<DungeonBlock?>): (r: seq<DungeonBlock?>)
    requires |coords| == |before|
    ensures |r| == |coords|
    ensures forall i :: 0 <= i < |coords| ==> r[i] == if coords[i] in tc then t else before[i]
  {
    seq(|coords|, i requires 0 <= i < |coords| => if coords[i] in tc then t else before[i])
  }

  /** `connectors.Where(con => positions.Any(coord => coord == con.Coordinates))`. */
  function Fillers(cs: seq<BlockConnector>, positions: seq<Vec>): seq<BlockConnector> {
    if cs == [] then []
    else
      var n := |cs| - 1;
      Fillers(cs[..n], positions) + (if cs[n].coordinates in positions then [cs[n]] else [])
  }

  /** `positions.Where(coord => !taken.Any(w => w == coord))`. */
  function Unmatched(positions: seq<Vec>, taken: seq<Vec>): seq<Vec> {
    if positions == [] then []
    else
      var n := |positions| - 1;
      Unmatched(positions[..n], taken) + (if positions[n] in taken then [] else [positions[n]])
  }

  /** The fillers are exactly the connectors on one of the positions. */
  lemma {:induction false} FillersMembers(cs: seq<BlockConnector>, positions: seq<Vec>, c: BlockConnector)
    ensures c in Fillers(cs, positions) <==> c in cs && c.coordinates in positions
  {
    if cs != [] {
      var n := |cs| - 1;
      FillersMembers(cs[..n], positions, c);
      assert cs == cs[..n] + [cs[n]];
    }
  }

  /** The unmatched positions are exactly the positions not taken. */
  lemma {:induction false} UnmatchedMembers(positions: seq<Vec>, taken: seq<Vec>, w: Vec)
    ensures w in Unmatched(positions, taken) <==> w in positions && w !in taken
  {
    if positions != [] {
      var n := |positions| - 1;
      UnmatchedMembers(positions[..n], taken, w);
      assert positions == positions[..n] + [positions[n]];
    }
  }

  /** Distinct positions leave distinct unmatched positions. */
  lemma {:induction false} UnmatchedDistinct(positions: seq<Vec>, taken: seq<Vec>)
    requires Seqs.Distinct(positions)
    ensures Seqs.Distinct(Unmatched(positions, taken))
  {
    if positions != [] {
      var n := |positions| - 1;
      assert Seqs.Distinct(positions[..n]);
      UnmatchedDistinct(positions[..n], taken);
      if positions[n] !in taken {
        UnmatchedMembers(positions[..n], taken, positions[n]);
      }
    }
  }

  /** Two lists of taken cells that agree on every position leave the same positions unmatched. */
  lemma {:induction false} UnmatchedCongruent(positions: seq<Vec>, taken: seq<Vec>, taken': seq<Vec>)
    requires forall w :: w in positions ==> (w in taken <==> w in taken')
    ensures Unmatched(positions, taken) == Unmatched(positions, taken')
  {
    if positions != [] {
      var n := |positions| - 1;
      assert positions[n] in positions;
      UnmatchedCongruent(positions[..n], taken, taken');
    }
  }

  /** The two blocks overlap only on cells that are connector tiles in both. */
  ghost predicate SeamsOnly(b: DungeonBlock, t: DungeonBlock)
    reads b, t
  {
    forall w :: w in Keys(b.DungeonPositions(NonZero)) && w in Keys(t.DungeonPositions(NonZero)) ==>
      HasConnectorAt(b, w) && HasConnectorAt(t, w)
  }

  /** The source's rejection test for one committed block `b` against the tentative block `t`. */
  predicate BadCollision(b: DungeonBlock, t: DungeonBlock, tentativeConnectors: seq<Vec>)
    reads b, t
  {
    var (collides, positions) := b.CollidesWith(t);
    collides && exists p :: p in positions && (IsNotConnector(b.GetValue(p)) || p !in tentativeConnectors)
  }

  /** The collision test rejects exactly the blocks that overlap the tentative one off a connector seam. */
  lemma BadCollisionMeans(b: DungeonBlock, t: DungeonBlock)
    requires b.Valid() && t.Valid()
    ensures !BadCollision(b, t, Keys(t.DungeonPositions(IsConnector))) <==> SeamsOnly(b, t)
  {
    var tc := Keys(t.DungeonPositions(IsConnector));
    var positions := b.CollidesWith(t).1;
    var mine := b.DungeonPositions(NonZero);
    forall p | p in positions
      ensures (IsNotConnector(b.GetValue(p)) || p !in tc) <==> !(HasConnectorAt(b, p) && HasConnectorAt(t, p))
    {
      b.CollidesWithExact(t, p);
      var i :| 0 <= i < |mine| && mine[i].pos == p;
      b.GetValueOfPosition(NonZero, i);
      assert mine[i] in mine;
      GetAllMembers(b.data, NonZero, GetAll(b.data, NonZero)[i]);
      assert GetAll(b.data, NonZero)[i] in GetAll(b.data, NonZero);
      FilledConnectorAt(b, p, mine[i].value);
    }
    if SeamsOnly(b, t) {
      forall p | p in positions ensures !(IsNotConnector(b.GetValue(p)) || p !in tc) {
        b.CollidesWithExact(t, p);
      }
    } else {
      var w :| w in Keys(b.DungeonPositions(NonZero)) && w in Keys(t.DungeonPositions(NonZero))
        && !(HasConnectorAt(b, w) && HasConnectorAt(t, w));
      b.CollidesWithExact(t, w);
      assert w in positions;
    }
  }

  /** No committed block collides badly exactly when each overlaps the tentative one only on seams. */
  lemma NoBadCollisionMeans(bs: seq<DungeonBlock>, t: DungeonBlock)
    requires t.Valid() && forall b :: b in bs ==> b.Valid()
    ensures !(exists b :: b in bs && BadCollision(b, t, Keys(t.DungeonPositions(IsConnector)))) <==>
      forall b :: b in bs ==> SeamsOnly(b, t)
  {
    forall b | b in bs ensures !BadCollision(b, t, Keys(t.DungeonPositions(IsConnector))) <==> SeamsOnly(b, t) {
      BadCollisionMeans(b, t);
    }
  }

  /** With connectors on distinct cells, the lookup by a connector's own cell finds that connector. */
  lemma FindConnectorDistinct(cs: seq<BlockConnector>, k: nat)
    requires CoordinatesDistinct(cs) && k < |cs|
    ensures FindConnector(cs, cs[k].coordinates) == Some(k)
  {
    var r := FindConnector(cs, cs[k].coordinates);
    if r.Some? && r.value < k {
      CoordinatesDistinctPairs(cs, r.value, k);
    }
  }

  /** The fillers, the connectors on one of the positions, leave the same cells unmatched as all connectors do. */
  lemma UnmatchedByFillers(positions: seq<Vec>, cs: seq<BlockConnector>)
    ensures Unmatched(positions, CoordinatesOf(Fillers(cs, positions))) == Unmatched(positions, CoordinatesOf(cs))
  {
    var fillers := Fillers(cs, positions);
    forall w | w in positions ensures w in CoordinatesOf(fillers) <==> w in CoordinatesOf(cs) {
      if w in CoordinatesOf(cs) {
        var j :| 0 <= j < |cs| && CoordinatesOf(cs)[j] == w;
        FillersMembers(cs, positions, cs[j]);
        var k :| 0 <= k < |fillers| && fillers[k] == cs[j];
        assert CoordinatesOf(fillers)[k] == w;
      }
      if w in CoordinatesOf(fillers) {
        var k :| 0 <= k < |fillers| && CoordinatesOf(fillers)[k] == w;
        FillersMembers(cs, positions, fillers[k]);
        var j :| 0 <= j < |cs| && cs[j] == fillers[k];
        assert CoordinatesOf(cs)[j] == w;
      }
    }
    UnmatchedCongruent(positions, CoordinatesOf(fillers), CoordinatesOf(cs));
  }

  /** Appending connectors at distinct cells that no connector covers keeps all connector cells distinct. */
  lemma AppendUnmatchedDistinct(cs: seq<BlockConnector>, added: seq<BlockConnector>, positions: seq<Vec>)
    requires CoordinatesDistinct(cs) && Seqs.Distinct(positions)
    requires CoordinatesOf(added) == Unmatched(positions, CoordinatesOf(cs))
    ensures CoordinatesDistinct(cs + added)
  {
    var u := Unmatched(positions, CoordinatesOf(cs));
    UnmatchedDistinct(positions, CoordinatesOf(cs));
    forall w | w in u ensures w !in CoordinatesOf(cs) {
      UnmatchedMembers(positions, CoordinatesOf(cs), w);
    }
    AppendFreshDistinct(cs, added);
  }

  lemma AppendFreshDistinct(cs: seq<BlockConnector>, added: seq<BlockConnector>)
    requires CoordinatesDistinct(cs) && Seqs.Distinct(CoordinatesOf(added))
    requires forall w :: w in CoordinatesOf(added) ==> w !in CoordinatesOf(cs)
    ensures CoordinatesDistinct(cs + added)
  {
    CoordinatesDistinctMeans(cs);
    CoordinatesDistinctMeans(cs + added);
    CoordinatesOfAppend(cs, added);
    Seqs.DistinctAppend(CoordinatesOf(cs), CoordinatesOf(added));
  }

  /** The recursive distinctness test agrees with the pairwise one on the connectors' cells. */
  lemma {:induction false} CoordinatesDistinctMeans(cs: seq<BlockConnector>)
    ensures CoordinatesDistinct(cs) <==> Seqs.Distinct(CoordinatesOf(cs))
  {
    if cs != [] {
      var n := |cs| - 1;
      CoordinatesDistinctMeans(cs[..n]);
      assert CoordinatesOf(cs) == CoordinatesOf(cs[..n]) + [cs[n].coordinates];
      Seqs.DistinctSnoc(CoordinatesOf(cs[..n]), cs[n].coordinates);
    }
  }

  /**
   * Seal each of `fillers`, the connectors of `cs` on one of `positions`, with `t`, which has a
   * connector tile on each of those cells; the other connectors of `cs` keep their state.
   */
  method SealFillers(cs: seq<BlockConnector>, positions: seq<Vec>, fillers: seq<BlockConnector>, t: DungeonBlock)
    requires fillers == Fillers(cs, positions)
    requires forall w :: w in positions ==> HasConnectorAt(t, w)
    modifies cs
    ensures Seconds(cs) == Resealed(CoordinatesOf(cs), positions, t, old(Seconds(cs)))
  {
    ghost var before := Seconds(cs);
    var i := 0;
    while i < |fillers|
      invariant 0 <= i <= |fillers|
      invariant forall k :: 0 <= k < |cs| ==>
        cs[k].second == if cs[k] in fillers[..i] then t else before[k]
    {
      FillersMembers(cs, positions, fillers[i]);
      var _ := fillers[i].Connect(t);
      assert fillers[..i + 1] == fillers[..i] + [fillers[i]];
      i := i + 1;
    }
    assert fillers[..i] == fillers;
    forall k | 0 <= k < |cs|
      ensures Seconds(cs)[k] == Resealed(CoordinatesOf(cs), positions, t, before)[k]
    {
      FillersMembers(cs, positions, cs[k]);
    }
  }

  /** A new open connector owned by `t` on each of `positions` that no connector in `existing` covers. */
  method OpenConnectors(t: DungeonBlock, positions: seq<Vec>, existing: seq<BlockConnector>)
    returns (added: seq<BlockConnector>)
    ensures CoordinatesOf(added) == Unmatched(positions, CoordinatesOf(existing))
    ensures forall m :: 0 <= m < |added| ==> fresh(added[m]) && added[m].first == t && added[m].IsOpen()
  {
    ghost var taken := CoordinatesOf(existing);
    added := [];
    var k := 0;
    while k < |positions|
      invariant 0 <= k <= |positions|
      invariant CoordinatesOf(added) == Unmatched(positions[..k], taken)
      invariant forall m :: 0 <= m < |added| ==> fresh(added[m]) && added[m].first == t && added[m].IsOpen()
    {
      var coord := positions[k];
      assert positions[..k + 1][..k] == positions[..k];
      if forall j :: 0 <= j < |existing| ==> existing[j].coordinates != coord {
        assert coord !in taken;
        var con := new BlockConnector(t, coord);
        assert (added + [con])[..|added|] == added;
        added := added + [con];
      } else {
        var j :| 0 <= j < |existing| && existing[j].coordinates == coord;
        assert taken[j] == coord;
      }
      k := k + 1;
    }
    assert positions[..k] == positions;
  }

  class DungeonLevel {
    var blocks: seq<DungeonBlock>
    var connectors: seq<BlockConnector>
    var tentativeBlock: DungeonBlock?

    /**
     * Every block keeps its shape invariant, connectors sit on distinct cells and join committed
     * blocks, and there are no connectors before the first block.
     */
    ghost predicate Valid()
      reads this, blocks, connectors, tentativeBlock
    {
      && (forall b :: b in blocks ==> b.Valid())
      && (tentativeBlock != null ==> tentativeBlock.Valid())
      && CoordinatesDistinct(connectors)
      && (blocks == [] ==> connectors == [])
      && (forall i :: 0 <= i < |connectors| ==>
            connectors[i].first in blocks && (connectors[i].second != null ==> connectors[i].second in blocks))
    }

    constructor ()
      ensures Valid() && blocks == [] && connectors == [] && tentativeBlock == null
    {
      blocks := [];
      connectors := [];
      tentativeBlock := null;
    }

    predicate HasTentative()
      reads this
    {
      tentativeBlock != null
    }

    /** GetOverlap: classify a dungeon cell by the first connector on it. */
    function GetOverlap(coords: Vec): (r: DungeonOverlap)
      reads this, connectors
      ensures r == Nothing <==> forall j :: 0 <= j < |connectors| ==> connectors[j].coordinates != coords
      ensures r != Nothing ==>
        exists j :: 0 <= j < |connectors| && connectors[j].coordinates == coords && (r == Connection <==> connectors[j].IsOpen())
    {
      match FindConnector(connectors, coords)
      case None => Nothing
      case Some(i) => connectors[i].GetOverlap(coords)
    }

    /** The dungeon cells of the tentative block's connector tiles. */
    function TentativeConnectors(): seq<Vec>
      reads this, tentativeBlock
      requires tentativeBlock != null
    {
      Keys(tentativeBlock.DungeonPositions(IsConnector))
    }

    /**
     * MayPlaceTentativeBlock: there is a tentative block and either the level is empty, or it
     * reaches an open connector, meets no sealed one, and no committed block collides with it off
     * a connector seam.
     */
    predicate MayPlaceTentativeBlock()
      reads this, blocks, connectors, tentativeBlock
    {
      if tentativeBlock == null then false
      else
        var tc := TentativeConnectors();
        if |blocks| == 0 then true
        else
          && (exists i :: 0 <= i < |tc| && GetOverlap(tc[i]) == Connection)
          && !(exists i :: 0 <= i < |tc| && GetOverlap(tc[i]) == Collision)
          && !(exists b :: b in blocks && BadCollision(b, tentativeBlock, tc))
    }

    /** The status of a connector's own cell is that connector's status. */
    lemma OverlapAtConnector(k: nat)
      requires CoordinatesDistinct(connectors) && k < |connectors|
      ensures GetOverlap(connectors[k].coordinates) == (if connectors[k].IsOpen() then Connection else Collision)
    {
      FindConnectorDistinct(connectors, k);
    }

    /** Some cell in `tc` reports a connection exactly when an open connector sits on one of them. */
    lemma ConnectionStatusMeans(tc: seq<Vec>)
      requires CoordinatesDistinct(connectors)
      ensures (exists i :: 0 <= i < |tc| && GetOverlap(tc[i]) == Connection) <==>
        (exists c :: c in connectors && c.IsOpen() && c.coordinates in tc)
    {
      if exists i :: 0 <= i < |tc| && GetOverlap(tc[i]) == Connection {
        var i :| 0 <= i < |tc| && GetOverlap(tc[i]) == Connection;
        var j :| 0 <= j < |connectors| && connectors[j].coordinates == tc[i];
        OverlapAtConnector(j);
        assert connectors[j] in connectors;
      }
      if exists c :: c in connectors && c.IsOpen() && c.coordinates in tc {
        var c :| c in connectors && c.IsOpen() && c.coordinates in tc;
        var j :| 0 <= j < |connectors| && connectors[j] == c;
        OverlapAtConnector(j);
        var i :| 0 <= i < |tc| && tc[i] == c.coordinates;
      }
    }

    /** Some cell in `tc` reports a collision exactly when a sealed connector sits on one of them. */
    lemma CollisionStatusMeans(tc: seq<Vec>)
      requires CoordinatesDistinct(connectors)
      ensures (exists i :: 0 <= i < |tc| && GetOverlap(tc[i]) == Collision) <==>
        (exists c :: c in connectors && !c.IsOpen() && c.coordinates in tc)
    {
      if exists i :: 0 <= i < |tc| && GetOverlap(tc[i]) == Collision {
        var i :| 0 <= i < |tc| && GetOverlap(tc[i]) == Collision;
        var j :| 0 <= j < |connectors| && connectors[j].coordinates == tc[i];
        OverlapAtConnector(j);
        assert connectors[j] in connectors;
      }
      if exists c :: c in connectors && !c.IsOpen() && c.coordinates in tc {
        var c :| c in connectors && !c.IsOpen() && c.coordinates in tc;
        var j :| 0 <= j < |connectors| && connectors[j] == c;
        OverlapAtConnector(j);
        var i :| 0 <= i < |tc| && tc[i] == c.coordinates;
      }
    }

    /**
     * The placement rule in plain terms: a tentative block may join an empty level; otherwise it must
     * touch an open connector with a connector tile, touch no sealed one, and overlap every committed
     * block only on cells that are connector tiles in both.
     */
    lemma MayPlaceMeans()
      requires Valid()
      ensures MayPlaceTentativeBlock() <==>
        && tentativeBlock != null
        && (|| blocks == []
            || (&& (exists c :: c in connectors && c.IsOpen() && HasConnectorAt(tentativeBlock, c.coordinates))
                && (forall c :: c in connectors && HasConnectorAt(tentativeBlock, c.coordinates) ==> c.IsOpen())
                && (forall b :: b in blocks ==> SeamsOnly(b, tentativeBlock))))
    {
      if tentativeBlock != null {
        var tc := TentativeConnectors();
        ConnectionStatusMeans(tc);
        CollisionStatusMeans(tc);
        NoBadCollisionMeans(blocks, tentativeBlock);
      }
    }

    /** SetTentativeBlock: put `block` in the tentative slot (null empties it); nothing else changes. */
    method SetTentativeBlock(block: DungeonBlock?)
      requires Valid() && (block != null ==> block.Valid())
      modifies this`tentativeBlock
      ensures Valid() && tentativeBlock == block && (HasTentative() <==> block != null)
      ensures blocks == old(blocks) && connectors == old(connectors)
    {
      tentativeBlock := block;
    }

    /** ClearTentativeBlock: empty the tentative slot; nothing else changes. */
    method ClearTentativeBlock()
      requires Valid()
      modifies this`tentativeBlock
      ensures Valid() && tentativeBlock == null && !HasTentative()
      ensures blocks == old(blocks) && connectors == old(connectors)
    {
      tentativeBlock := null;
    }

    /**
     * PlaceBlock: when placement is allowed, commit the tentative block, seal every connector at one
     * of its connector cells (all of them open) with it, add an open connector owned by it at each of
     * its connector cells that had none, and clear the slot. Otherwise do nothing.
     */
    method PlaceBlock()
      requires Valid()
      modifies this, connectors
      ensures Valid()
      ensures !old(MayPlaceTentativeBlock()) ==> unchanged(this) && Seconds(connectors) == old(Seconds(connectors))
      ensures old(MayPlaceTentativeBlock()) ==>
        Committed(old(tentativeBlock), old(TentativeConnectors()), old(blocks), old(connectors))
      ensures old(MayPlaceTentativeBlock()) ==>
        Seconds(old(connectors))
          == Resealed(CoordinatesOf(old(connectors)), old(TentativeConnectors()), old(tentativeBlock), old(Seconds(connectors)))
      ensures old(MayPlaceTentativeBlock()) ==> forall i :: 0 <= i < |old(connectors)| ==>
        old(connectors)[i].coordinates in old(TentativeConnectors()) ==> old(Seconds(connectors))[i] == null
      ensures old(MayPlaceTentativeBlock()) ==> forall i :: |old(connectors)| <= i < |connectors| ==>
        fresh(connectors[i])
    {
      if !MayPlaceTentativeBlock() {
        return;
      }
      var t: DungeonBlock := tentativeBlock;
      // List all connections need handling.
      var connections := Keys(t.DungeonPositions(IsConnector));
      t.DungeonPositionsDistinct(IsConnector);
      CollisionStatusMeans(connections);
      forall i | 0 <= i < |connectors| && connectors[i].coordinates in connections
        ensures Seconds(connectors)[i] == null
      {
        assert connectors[i] in connectors;
      }
      Commit(t, connections);
    }

    /**
     * The state after committing `t`, whose connector cells are `tc`, to a level that held `oldBlocks`
     * and `oldConnectors`: `t` is the last block, the slot is empty, the old connectors come first,
     * then one new open connector owned by `t` on each cell of `tc` that had none, in order.
     */
    ghost predicate Committed(t: DungeonBlock, tc: seq<Vec>, oldBlocks: seq<DungeonBlock>, oldConnectors: seq<BlockConnector>)
      reads this, connectors
    {
      var n := |oldConnectors|;
      && blocks == oldBlocks + [t]
      && tentativeBlock == null
      && n <= |connectors|
      && connectors[..n] == oldConnectors
      && CoordinatesOf(connectors) == CoordinatesOf(oldConnectors) + Unmatched(tc, CoordinatesOf(oldConnectors))
      && (forall i :: n <= i < |connectors| ==> connectors[i].first == t && connectors[i].IsOpen())
    }

    /** The success path of PlaceBlock. */
    method Commit(t: DungeonBlock, connections: seq<Vec>)
      requires Valid() && tentativeBlock == t
      requires Seqs.Distinct(connections) && forall w :: w in connections ==> HasConnectorAt(t, w)
      modifies this, connectors
      ensures Valid()
      ensures Committed(t, connections, old(blocks), old(connectors))
      ensures forall i :: |old(connectors)| <= i < |connectors| ==> fresh(connectors[i])
      ensures Seconds(old(connectors)) == Resealed(CoordinatesOf(old(connectors)), connections, t, old(Seconds(connectors)))
    {
      // Complete the connectors where needed.
      var fillers := Fillers(connectors, connections);
      UnmatchedByFillers(connections, connectors);
      SealFillers(connectors, connections, fillers, t);
      forall i | 0 <= i < |connectors|
        ensures connectors[i].first in blocks && (connectors[i].second != null ==> connectors[i].second in blocks + [t])
      {
        assert Seconds(connectors)[i] == Resealed(CoordinatesOf(connectors), connections, t, old(Seconds(connectors)))[i];
        assert old(Seconds(connectors))[i] == old(connectors[i].second);
      }

      // Create new open connectors where needed.
      var added := OpenConnectors(t, connections, fillers);
      AppendUnmatchedDistinct(connectors, added, connections);
      Append(t, added, connections);
    }

    /** Add `t` to the blocks and `added` to the connectors, and clear the slot. */
    method Append(t: DungeonBlock, added: seq<BlockConnector>, ghost connections: seq<Vec>)
      requires tentativeBlock == t && t.Valid() && forall b :: b in blocks ==> b.Valid()
      requires CoordinatesDistinct(connectors + added)
      requires forall i :: 0 <= i < |connectors| ==>
        connectors[i].first in blocks && (connectors[i].second != null ==> connectors[i].second in blocks + [t])
      requires forall m :: 0 <= m < |added| ==> added[m].first == t && added[m].IsOpen()
      requires CoordinatesOf(added) == Unmatched(connections, CoordinatesOf(connectors))
      modifies this
      ensures Valid()
      ensures Committed(t, connections, old(blocks), old(connectors))
      ensures connectors == old(connectors) + added
      ensures Seconds(old(connectors)) == old(Seconds(connectors))
    {
      ghost var oldConnectors, seconds := connectors, Seconds(connectors);
      CoordinatesOfAppend(oldConnectors, added);
      blocks, connectors, tentativeBlock := blocks + [t], connectors + added, null;
      assert Seconds(oldConnectors) == seconds;
      assert connectors[..|oldConnectors|] == oldConnectors;
      forall i | 0 <= i < |connectors|
        ensures connectors[i].first in blocks && (connectors[i].second != null ==> connectors[i].second in blocks)
      {
        if i < |oldConnectors| {
          assert connectors[i] == oldConnectors[i];
        } else {
          assert connectors[i] == added[i - |oldConnectors|];
        }
      }
    }
  }
}
