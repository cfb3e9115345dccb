# Dungeon blocks, connectors and block generators

This project models the dungeon-block layer of *dungeonz*, a Unity dungeon designer. Its proofs are written in Dafny.

A dungeon is built from **blocks**. A block is a rectangular grid of tiles with an anchor (its offset in the dungeon grid) and an orientation (North, East, South or West). Blocks are generated one at a time:

- A room generator stamps overlapping Room rectangles and cuts spaced Doors into their straight walls.
- A hall generator marks spaced Exits near the border and digs Hall walks between them.

The **level** holds one tentative block. The tentative block may be committed when all of these hold:

- it reaches an open **connector**;
- it touches no sealed connector;
- its tiles overlap the committed blocks only where both sides have connector tiles (Exit or Door).

Committing the block does three things:

- it seals the connectors it meets;
- it opens new connectors at its other connector tiles;
- it clears the slot.

The model follows the C# classes file by file. There is one module per source file:

| module | source file |
|---|---|
| `FourDirections` | `FourDirection.cs` |
| `MathHelpers` | `MathHelpers.cs` |
| `Blocks` | `DungeonBlock.cs` |
| `Connectors` | `BlockConnector.cs` |
| `Levels` | `DungeonLevel.cs` |
| `RoomGeneration` | `RoomBlockGenerator.cs` |
| `HallGeneration` | `HallBlockGenerator.cs` |

Small stand-in modules supply what the code calls but does not show:

- `Geometry`: `Vector2Int`, `RectInt`, `ManhattanDistance` and `IsUnit`.
- `Grids`: the `int[,]` grid as a value, and the `GetAll` row-major scan.
- `Seqs`: the LINQ filters.
- `Tiles`: `BlockTileTypes`.
- `Random`: `Random.Range`, as a nondeterministic choice.
- `Wrappers`: `Option`.

The style of each part follows the source:

- Pure code becomes functions and lemmas.
- The loops over arrays become methods with loop invariants.
- Objects whose fields change become classes. These are `DungeonBlock`, `BlockConnector` and `DungeonLevel`.
- The generators write an `array2<int>` in place. Each writing method is specified against a ghost copy of the grid from before the writes: the array equals that copy with given cells stamped with given tiles.
- Every property of a generator holds for every outcome of every random draw.
- An exception in the code becomes an `Option` or an `ok` flag in the model. The contract says when it happens. Where a random draw decides whether it happens, the contract names that draw as a ghost output, or states the failure one way only (see "## Left out").

Cases where the model and the code, or the design, diverge:

- **Three source defects.** The code has three evident defects: see "## Findings". The model uses the intended behaviour, and proves the as-written code wrong next to it.
- **Clearing cells at hall line 130.** When a hall walk steps onto its own Exit target, the comment at `HallBlockGenerator.cs:128-129` speaks of clearing the cells around the target. The code clears the cells around the current position. The model follows the code.
- **Rooms that do not quite touch.** By design, a room that is moved to join the earlier rooms then touches them. `ClampInside` keeps a rectangle off the block's last row and column, so the moved room can end one cell past the filled cell it was moved to. `RoomGeneration.RoomFill` states exactly this: the filled cell lies within the rectangle grown by one cell on its far sides.
- **Door choice.** By design, the door is "the unique" Nothing neighbour of an anchor. The code takes the first Nothing neighbour in North, East, South, West order. The model follows the code.

## Model

| member | source | states |
|---|---|---|
| FourDirections.AsVector | Assets/Scripts/Dungeon/FourDirection.cs:21-36 | every direction's vector is a single grid step |
| FourDirections.AsDirections | Assets/Scripts/Dungeon/FourDirection.cs:42 | the direction vectors come in North, East, South, West order: (0,1), (1,0), (0,-1), (-1,0) |
| FourDirections.UnitVectorsAreDirections | Assets/Scripts/Dungeon/FourDirection.cs:8-14 | a vector is a unit step iff it is one of the four direction vectors |
| FourDirections.RotateNorthIsIdentity | Assets/Scripts/Dungeon/FourDirection.cs:54-55 | rotating for North leaves every vector unchanged |
| FourDirections.RotatePreservesManhattan | Assets/Scripts/Dungeon/FourDirection.cs:50-65 | every orientation keeps \|x\|+\|y\| |
| FourDirections.RotateInverse | Assets/Scripts/Dungeon/FourDirection.cs:56-61 | West undoes East and East undoes West; North and South each undo themselves; both orders |
| FourDirections.SameOrientationIsNotInverse | Assets/Scripts/Dungeon/FourDirection.cs:58-61 | rotating twice by East, or twice by West, does not restore (1,0): an inverse transform must use the opposite orientation |
| FourDirections.RotateLinear | Assets/Scripts/Dungeon/FourDirection.cs:50-65 | rotation distributes over vector addition and subtraction |
| FourDirections.IndexOf | Assets/Scripts/Dungeon/FourDirection.cs:8-14 | the index lies in the direction list and points back at the direction |
| FourDirections.IndexOfRotateCW | Assets/Scripts/Dungeon/FourDirection.cs:73-77 | the rotated direction's index is (index + steps) mod 4 |
| FourDirections.RotateCWAdds | Assets/Scripts/Dungeon/FourDirection.cs:73-77 | two rotations compose to one by the summed steps, for all integer step counts |
| FourDirections.RotateCWOnce | Assets/Scripts/Dungeon/FourDirection.cs:67-77 | one step clockwise, the default step count, maps North to East, East to South, South to West and West to North |
| FourDirections.RotateCCWOnce | Assets/Scripts/Dungeon/FourDirection.cs:79-85 | one step counter-clockwise, the default step count, maps North to West, West to South, South to East and East to North |
| FourDirections.RotateCWFourTimes | Assets/Scripts/Dungeon/FourDirection.cs:67-77 | four single steps, or one rotation by 4, return to the start |
| FourDirections.RotateCCWUndoesCW | Assets/Scripts/Dungeon/FourDirection.cs:79-85 | RotateCCW by k undoes RotateCW by k and the reverse, for every k |
| FourDirections.RotateEastTurnsClockwise | Assets/Scripts/Dungeon/FourDirection.cs:58-59 | rotating a direction's vector by East gives the vector of the next direction clockwise |
| FourDirections.RotateEastComposes | Assets/Scripts/Dungeon/FourDirection.cs:50-65 | a rotation by East after a rotation by d equals the rotation by RotateCW(d, 1) |
| FourDirections.RotateCWAsWrittenIsWrong | Assets/Scripts/Dungeon/FourDirection.cs:76 | as written, a step of +1 or -1 always yields North and 0 steps throws, so one step from North is not East |
| MathHelpers.CsRem | Assets/Scripts/MathHelpers.cs:15 | C#'s `%`: the remainder is smaller than the modulus in size and takes the sign of the dividend |
| MathHelpers.ModIsEuclidean | Assets/Scripts/MathHelpers.cs:13-16 | for m > 0, Mod(x, m) lies in [0, m), is congruent to x, and is the Euclidean remainder |
| MathHelpers.RandomShapeOffset | Assets/Scripts/MathHelpers.cs:20-28 | fails iff the inset is larger than the container on some axis; otherwise 0 <= offset <= container - inset on each axis, strictly below it when the range is not empty |
| MathHelpers.ClampAxis | Assets/Scripts/MathHelpers.cs:32-40 | the coordinate is kept when coordinate + inset < container; otherwise it becomes container - 1 - inset, and fails if that is negative |
| MathHelpers.ClampInside | Assets/Scripts/MathHelpers.cs:30-54 | succeeds iff both axes succeed, with the per-axis results |
| MathHelpers.ClampInsideFits | Assets/Scripts/MathHelpers.cs:33-51 | a clamped anchor has result + inset < container on both axes and never moves past the anchor |
| MathHelpers.CountNonZero | Assets/Scripts/MathHelpers.cs:60-71 | the count is the number of non-zero cells |
| MathHelpers.HasNonZero | Assets/Scripts/MathHelpers.cs:74-84 | corrected scan: true iff some cell of the rectangle is non-zero |
| MathHelpers.HasNonZeroAsWrittenMissesCell | Assets/Scripts/MathHelpers.cs:78 | as written, the scan reads no cell, so it is false for every rectangle, even for the one-cell grid [[1]] |
| MathHelpers.GetNthFilled | Assets/Scripts/MathHelpers.cs:86-106 | returns the position of the n-th non-zero cell in row-major order; fails iff n < 0 or n >= the number of non-zero cells |
| Blocks.DungeonBlock.constructor | Assets/Scripts/Dungeon/DungeonBlock.cs:24-40 | Shape = (columns, rows), Pivot = Shape / 2 rounded down, Anchor = (0,0), Orientation = North, tiles = the array |
| Blocks.DungeonBlock.UpdateData | Assets/Scripts/Dungeon/DungeonBlock.cs:45-55 | succeeds iff the new array has the block's shape; then the tiles are replaced, otherwise kept; the shape invariant holds either way |
| Blocks.DungeonBlock.TransformPivotAndInjective | Assets/Scripts/Dungeon/DungeonBlock.cs:65-66 | the pivot lands on the anchor, and distinct block cells land on distinct dungeon cells |
| Blocks.DungeonBlock.TransformRoundTrip | Assets/Scripts/Dungeon/DungeonBlock.cs:65-66 | the dungeon-to-block transform (rotation by the inverse orientation) and BlockCoordinatesToDungeon undo each other |
| Blocks.DungeonBlock.ExtentCoversBlock | Assets/Scripts/Dungeon/DungeonBlock.cs:71-84 | corrected extent: every cell of the block lands inside it |
| Blocks.DungeonBlock.ExtentAsWrittenMissesCorner | Assets/Scripts/Dungeon/DungeonBlock.cs:80-81 | the as-written extent never holds both transformed corners, and holds no cell at all for a 1x1 block |
| Blocks.DungeonBlock.DungeonShapeIsExtentSize | Assets/Scripts/Dungeon/DungeonBlock.cs:71-84 | the corrected extent is the block's shape, with width and height swapped for East and West |
| Blocks.DungeonBlock.DungeonPositionsMembers | Assets/Scripts/Dungeon/DungeonLevel.cs:47-50 | a dungeon cell with a value is listed iff some block cell holding that value lands on it and the value passes the predicate |
| Blocks.DungeonBlock.DungeonPositionsDistinct | Assets/Scripts/Dungeon/DungeonLevel.cs:94 | no dungeon cell is listed twice |
| Blocks.DungeonBlock.GetValueOfPosition | Assets/Scripts/Dungeon/DungeonLevel.cs:78 | GetValue at a listed dungeon cell gives back the value listed with it |
| Blocks.DungeonBlock.FilledDungeonPositions | Assets/Scripts/Dungeon/DungeonBlock.cs:100-116 | returns the non-zero cells in row-major order, each with its dungeon cell and value; there are exactly as many as CountNonZero counts |
| Blocks.DungeonBlock.CollidesWith | Assets/Scripts/Dungeon/DungeonBlock.cs:124-146 | false with no positions when the extents do not overlap; true iff positions are reported; each reported position is filled in both blocks |
| Blocks.DungeonBlock.FilledInExtent | Assets/Scripts/Dungeon/DungeonBlock.cs:124-130 | every filled dungeon cell lies in the block's extent, so the extent pre-filter drops no collision |
| Blocks.DungeonBlock.CollidesWithExact | Assets/Scripts/Dungeon/DungeonBlock.cs:124-146 | a cell is reported iff it is filled in both blocks |
| Blocks.DungeonBlock.CollidesWithSymmetric | Assets/Scripts/Dungeon/DungeonBlock.cs:132-145 | both blocks give the same answer and the same set of positions, whichever of them asks |
| Connectors.TileClassesPartition | Assets/Scripts/Dungeon/BlockConnector.cs:58-66 | Nothing, connector tiles (Exit, Door) and non-connector tiles partition the tile values |
| Connectors.FilledConnectorAt | Assets/Scripts/Dungeon/BlockConnector.cs:58-61 | a filled cell of a block is one of its connector cells iff its tile is Exit or Door |
| Connectors.BlockConnector.constructor | Assets/Scripts/Dungeon/BlockConnector.cs:32-39 | a new connector keeps its owner and cell, is open, and connects only its owner |
| Connectors.BlockConnector.Connects | Assets/Scripts/Dungeon/BlockConnector.cs:20-30 | [first] while open, [first, second] once sealed |
| Connectors.BlockConnector.GetOverlap | Assets/Scripts/Dungeon/BlockConnector.cs:51-56 | Nothing iff another cell; Connection iff this cell and open; Collision iff this cell and sealed |
| Connectors.BlockConnector.Connect | Assets/Scripts/Dungeon/BlockConnector.cs:68-76 | succeeds iff the block has a connector tile on the connector's cell; then second is that block and Connects = [first, block], otherwise second is unchanged |
| Levels.FindConnector | Assets/Scripts/Dungeon/DungeonLevel.cs:27 | the index of the first connector on the cell, or None when no connector is on it |
| Levels.FindConnectorDistinct | Assets/Scripts/Dungeon/DungeonLevel.cs:27 | with connectors on distinct cells, looking up a connector's own cell finds that connector |
| Levels.FillersMembers | Assets/Scripts/Dungeon/DungeonLevel.cs:97 | the fillers are exactly the connectors on one of the new block's connector cells |
| Levels.UnmatchedMembers | Assets/Scripts/Dungeon/DungeonLevel.cs:106 | the unmatched cells are exactly the connector cells that no filler covers |
| Levels.UnmatchedByFillers | Assets/Scripts/Dungeon/DungeonLevel.cs:104-108 | matching against the fillers leaves the same cells unmatched as matching against all connectors |
| Levels.BadCollisionMeans | Assets/Scripts/Dungeon/DungeonLevel.cs:73-83 | a committed block passes the collision test iff it overlaps the tentative block only on cells that are connector tiles in both |
| Levels.NoBadCollisionMeans | Assets/Scripts/Dungeon/DungeonLevel.cs:73-83 | no committed block fails the test iff every committed block overlaps the tentative one only on connector seams |
| Levels.SealFillers | Assets/Scripts/Dungeon/DungeonLevel.cs:97-101 | every connector on one of the cells is sealed with the new block; every other connector keeps its second block |
| Levels.OpenConnectors | Assets/Scripts/Dungeon/DungeonLevel.cs:104-108 | one fresh open connector owned by the new block on each cell no existing connector covers, in order |
| Levels.DungeonLevel.constructor | Assets/Scripts/Dungeon/DungeonLevel.cs:9-15 | an empty level: no blocks, no connectors, no tentative block, and the invariant holds |
| Levels.DungeonLevel.GetOverlap | Assets/Scripts/Dungeon/DungeonLevel.cs:24-34 | Nothing iff no connector is on the cell; otherwise a connector on the cell gives Connection iff it is open |
| Levels.DungeonLevel.OverlapAtConnector | Assets/Scripts/Dungeon/DungeonLevel.cs:24-34 | the status of a connector's own cell is that connector's status |
| Levels.DungeonLevel.ConnectionStatusMeans | Assets/Scripts/Dungeon/DungeonLevel.cs:58-66 | some tentative connector cell reports Connection iff an open connector sits on one of them |
| Levels.DungeonLevel.CollisionStatusMeans | Assets/Scripts/Dungeon/DungeonLevel.cs:58-67 | some tentative connector cell reports Collision iff a sealed connector sits on one of them |
| Levels.DungeonLevel.MayPlaceMeans | Assets/Scripts/Dungeon/DungeonLevel.cs:36-85 | placement is allowed iff there is a tentative block and either no committed block, or: it meets an open connector with a connector tile, every connector it meets is open, and it overlaps every committed block only on connector seams |
| Levels.DungeonLevel.SetTentativeBlock | Assets/Scripts/Dungeon/DungeonLevel.cs:117-120 | the slot holds the block, HasTentative holds iff the block is not null, and blocks and connectors are unchanged |
| Levels.DungeonLevel.ClearTentativeBlock | Assets/Scripts/Dungeon/DungeonLevel.cs:112-115 | the slot is empty, HasTentative is false, and blocks and connectors are unchanged |
| Levels.DungeonLevel.PlaceBlock | Assets/Scripts/Dungeon/DungeonLevel.cs:87-110 | a no-op when placement is not allowed. Otherwise: the block is appended, every connector on its connector cells (all of them open before) is sealed with it, the others keep their state, a fresh open connector owned by it is added per unmatched cell, the slot is cleared, and the level invariant holds |
| Levels.DungeonLevel.Commit | Assets/Scripts/Dungeon/DungeonLevel.cs:91-109 | the success path of PlaceBlock: the committed state and the resealed connectors, with the level invariant kept |
| Levels.DungeonLevel.Append | Assets/Scripts/Dungeon/DungeonLevel.cs:91 | the block and the new connectors are appended after the old ones, the slot is cleared, old connectors keep their state, and the invariant holds |
| RoomGeneration.RandomShape | Assets/Scripts/Dungeon/RoomBlockGenerator.cs:23-26 | each side lies in [min, max], strictly below max when min < max |
| RoomGeneration.ClampKeepsReach | Assets/Scripts/Dungeon/RoomBlockGenerator.cs:37 | a cell clamped into the block stays within the clamped rectangle grown by one cell on its far sides |
| RoomGeneration.RegionReach | Assets/Scripts/Dungeon/RoomBlockGenerator.cs:31 | a rectangle covering a filled cell reaches that filled cell |
| RoomGeneration.FilledReach | Assets/Scripts/Dungeon/RoomBlockGenerator.cs:33-37 | clamping the n-th filled cell gives a non-negative corner whose rectangle reaches a filled cell |
| RoomGeneration.RoomOffset | Assets/Scripts/Dungeon/RoomBlockGenerator.cs:30-42 | fails if the shape is larger than the block; succeeds if it is smaller; a successful corner keeps the rectangle inside the block and, when connecting, within reach of an earlier filled cell |
| RoomGeneration.RoomFill | Assets/Scripts/Dungeon/RoomBlockGenerator.cs:28-53 | on success every cell of the rectangle becomes `value` and no other cell changes; on failure the array is unchanged; plus RoomOffset's placement facts |
| RoomGeneration.StampRoomsKeeps | Assets/Scripts/Dungeon/RoomBlockGenerator.cs:44-50 | stamping Room keeps a grid of Nothing and Room tiles, keeps its Room cells, and adds at least one for a non-empty rectangle |
| RoomGeneration.RoomsKeptTransitive | Assets/Scripts/Dungeon/RoomBlockGenerator.cs:121-124 | keeping the Room cells is transitive over successive fills |
| RoomGeneration.RoomStep | Assets/Scripts/Dungeon/RoomBlockGenerator.cs:121-124 | one RoomFill with a drawn shape in [min, max]: on success one more rectangle is stamped Room, stays in the block and reaches the earlier rooms; a failure leaves the array unchanged and only with a shape not strictly smaller than the block |
| RoomGeneration.RoomsStampedSnoc | Assets/Scripts/Dungeon/RoomBlockGenerator.cs:44-50 | stamping one more rectangle Room extends the record of stamped rectangles |
| RoomGeneration.JoinedSnoc | Assets/Scripts/Dungeon/RoomBlockGenerator.cs:31-37 | a rectangle that reaches a filled cell of the current grid reaches a cell filled before it |
| RoomGeneration.CoversSnoc | Assets/Scripts/Dungeon/RoomBlockGenerator.cs:44-50 | a cell is covered by the rectangles plus one iff it is covered by them or by the new one |
| RoomGeneration.PlaceRooms | Assets/Scripts/Dungeon/RoomBlockGenerator.cs:119-124 | the grid is the old grid with exactly the cells of the returned rectangles set to Room; every rectangle lies in the block with sides drawn from [min, max]; each rectangle after the first reaches a cell filled before it; all fills succeed when the largest room fits; then nShapes rectangles are placed and some Room cell exists. A failure comes with the drawn shape, in [min, max] and not strictly smaller than the block |
| RoomGeneration.Count | Assets/Scripts/Dungeon/RoomBlockGenerator.cs:73-76 | Count(v) lies between 0 and the length, and is positive iff v occurs |
| RoomGeneration.RowHitsMeaning | Assets/Scripts/Dungeon/RoomBlockGenerator.cs:61-71 | a row count of 3 means the whole neighbourhood row is Room; 0 means none of it is |
| RoomGeneration.ColHitsMeaning | Assets/Scripts/Dungeon/RoomBlockGenerator.cs:61-71 | the same for a neighbourhood column |
| RoomGeneration.ScanStep | Assets/Scripts/Dungeon/RoomBlockGenerator.cs:65-69 | scanning one more cell adds its hit to its row's and its column's counter |
| RoomGeneration.ScanDone | Assets/Scripts/Dungeon/RoomBlockGenerator.cs:61-71 | after the whole neighbourhood, the counters are the row and column Room counts |
| RoomGeneration.CountNeighbourhood | Assets/Scripts/Dungeon/RoomBlockGenerator.cs:58-71 | the counters are the Room counts of each row and each column of the 3x3 neighbourhood |
| RoomGeneration.IsDoorAnchorLocation | Assets/Scripts/Dungeon/RoomBlockGenerator.cs:55-89 | false on the border; for an interior cell, true iff the neighbourhood has two all-Room rows and one Room-free row, or the same for columns |
| RoomGeneration.RoomCellsMembers | Assets/Scripts/Dungeon/RoomBlockGenerator.cs:95 | the scanned cells are exactly the Room cells |
| RoomGeneration.AnchorsAmongMembers | Assets/Scripts/Dungeon/RoomBlockGenerator.cs:96 | the filter keeps exactly the listed cells that are door anchors |
| RoomGeneration.PossibleDoorAnchors | Assets/Scripts/Dungeon/RoomBlockGenerator.cs:91-98 | the door anchors among the Room cells, in row-major order |
| RoomGeneration.PossibleDoorAnchorsMembers | Assets/Scripts/Dungeon/RoomBlockGenerator.cs:91-98 | a cell is listed iff it is a Room cell that passes IsDoorAnchorLocation |
| RoomGeneration.NeighbourAlongAsDirections | Assets/Scripts/Dungeon/RoomBlockGenerator.cs:101-105 | the i-th neighbour is the anchor plus the i-th vector of AsDirections |
| RoomGeneration.NeighbourIsUnit | Assets/Scripts/Dungeon/RoomBlockGenerator.cs:105 | every neighbour is one step from the anchor |
| RoomGeneration.FirstEmptyFrom | Assets/Scripts/Dungeon/RoomBlockGenerator.cs:109 | the first direction from k on whose neighbour is Nothing, or None when no such neighbour exists |
| RoomGeneration.DoorFromAnchor | Assets/Scripts/Dungeon/RoomBlockGenerator.cs:100-110 | the door is a Nothing neighbour one step away, and every neighbour earlier in North, East, South, West order is not Nothing; None iff no neighbour is Nothing |
| RoomGeneration.DoorFromAnchorLocal | Assets/Scripts/Dungeon/RoomBlockGenerator.cs:100-110 | the door depends only on the four neighbours |
| RoomGeneration.InteriorNeighbours | Assets/Scripts/Dungeon/RoomBlockGenerator.cs:56 | an interior cell's neighbours are in the grid, so DoorFromAnchor indexes no cell out of range |
| RoomGeneration.EmptyRowGivesNothing | Assets/Scripts/Dungeon/RoomBlockGenerator.cs:61-71 | a Room-free outer row has a Nothing cell straight below or above the centre |
| RoomGeneration.EmptyColGivesNothing | Assets/Scripts/Dungeon/RoomBlockGenerator.cs:61-71 | a Room-free outer column has a Nothing cell straight left or right of the centre |
| RoomGeneration.DoorAnchorHasDoor | Assets/Scripts/Dungeon/RoomBlockGenerator.cs:55-110 | on a grid of Nothing and Room, every Room door anchor has a door |
| RoomGeneration.AnchorDoor | Assets/Scripts/Dungeon/RoomBlockGenerator.cs:131-132 | a candidate more than two steps from every door finds the same door on the current grid as on the grid before the doors, and that door exists |
| RoomGeneration.PlaceDoor | Assets/Scripts/Dungeon/RoomBlockGenerator.cs:132-136 | the new door is DoorFromAnchor of the grid before the doors: one step from the anchor, was Nothing, at least two steps from earlier doors, and is stamped Door |
| RoomGeneration.DoorsPlacedSnoc | Assets/Scripts/Dungeon/RoomBlockGenerator.cs:136-137 | a new door that DoorFromAnchor finds for a candidate, spaced from the earlier doors, extends the record of placed doors |
| RoomGeneration.AllFarStep | Assets/Scripts/Dungeon/RoomBlockGenerator.cs:134 | after the filter, every remaining candidate is more than two steps from every door, the new one included |
| RoomGeneration.DoorStep | Assets/Scripts/Dungeon/RoomBlockGenerator.cs:131-137 | one door is added: the door DoorFromAnchor finds on the grid before the doors for a picked remaining candidate. The candidates become exactly those more than two steps from it, so each dropped candidate is within two steps of it. The spacing and placement invariants are kept |
| RoomGeneration.NearDoorStep | Assets/Scripts/Dungeon/RoomBlockGenerator.cs:133-136 | every candidate that the filter around a new door drops is within two steps of that door, and a candidate dropped earlier stays within two steps of its earlier door |
| RoomGeneration.PlaceDoors | Assets/Scripts/Dungeon/RoomBlockGenerator.cs:126-143 | fails iff doors are wanted and there is no candidate; at most nDoors doors, at least one when nDoors > 0; each door is DoorFromAnchor of its recorded candidate, was Nothing and lies next to it; doors are pairwise at least two steps apart; fewer than nDoors doors only when every candidate is within two steps of a door; exactly the doors are stamped Door |
| RoomGeneration.FinishDoors | Assets/Scripts/Dungeon/RoomBlockGenerator.cs:125-145 | the door phase on the room grid fails iff doors are wanted and there is no anchor. On success it gives a fresh block of the block shape whose tiles are Door at the doors and the room grid elsewhere; at most nDoors doors, at least one when nDoors > 0; each door is DoorFromAnchor of a recorded anchor, was Nothing and is pairwise at least two steps from the others; fewer than nDoors only when every anchor is within two steps of a door |
| RoomGeneration.DoorsPlacedNear | Assets/Scripts/Dungeon/RoomBlockGenerator.cs:131-132 | every placed door lies next to a door anchor |
| RoomGeneration.Generate | Assets/Scripts/Dungeon/RoomBlockGenerator.cs:113-146 | nShapes and nDoors are drawn from their options. The rooms grid is the blank grid with exactly the cells of the rectangles set to Room, each in the block with sides in [min, max], each after the first reaching an earlier one. Failure is exactly: a drawn shape that does not fit strictly inside the block (never when the largest room fits), or, after all rooms, doors wanted and no door anchor. On success: a fresh block of shape blockShape whose tiles are the rooms grid with Door at the doors, all Nothing, Room or Door; at most nDoors doors, at least one when nDoors > 0; doors once Nothing, next to anchors, at least two steps apart. Each door is DoorFromAnchor of its recorded door anchor, and there are fewer than nDoors doors only when every door anchor is within two steps of a door |
| HallGeneration.RingRowMembers | Assets/Scripts/Dungeon/HallBlockGenerator.cs:23-24 | a row prefix of the ring scan lists exactly its ring cells |
| HallGeneration.OuterRingMembers | Assets/Scripts/Dungeon/HallBlockGenerator.cs:23-24 | the outer-ring candidates are exactly the in-grid cells fewer than exitRings cells from the border |
| HallGeneration.SpacedDistinct | Assets/Scripts/Dungeon/HallBlockGenerator.cs:30-36 | exits spaced by a non-negative distance are distinct |
| HallGeneration.PlaceFarther | Assets/Scripts/Dungeon/HallBlockGenerator.cs:30-36 | placing a candidate and filtering by distance keeps the placed cells spaced and every candidate far from all of them |
| HallGeneration.ExitStep | Assets/Scripts/Dungeon/HallBlockGenerator.cs:30-37 | one candidate becomes an exit and is stamped Exit; the candidates shrink to a subset; spacing is kept; every exit lies in the ring; every ring cell not near an exit stays a candidate |
| HallGeneration.AddExits | Assets/Scripts/Dungeon/HallBlockGenerator.cs:20-46 | the drawn nExits is an option; fails iff the ring is empty and nExits > 0, and then places nothing; at most nExits exits, at least one on success when nExits > 0; fewer than nExits only when every ring cell is within closestExitProximity of an exit; every exit in the ring; exits pairwise more than closestExitProximity apart; exactly the exits stamped Exit |
| HallGeneration.FarEmptyCellsMembers | Assets/Scripts/Dungeon/HallBlockGenerator.cs:59 | the fallback targets are exactly the Nothing cells more than closestExitProximity from the source |
| HallGeneration.GetDigTarget | Assets/Scripts/Dungeon/HallBlockGenerator.cs:48-66 | fails iff there are no exits, no halls and no far Nothing cell; reports true iff the target is a remaining exit; otherwise the target is a hall, or else a far Nothing cell |
| HallGeneration.Adjacent | Assets/Scripts/Dungeon/HallBlockGenerator.cs:99 | keeps exactly the cells one step from the position |
| HallGeneration.NotAdjacent | Assets/Scripts/Dungeon/HallBlockGenerator.cs:114 | keeps exactly the cells not one step from the position, and never grows |
| HallGeneration.NotAdjacentShrinks | Assets/Scripts/Dungeon/HallBlockGenerator.cs:110-115 | leaving an Exit drops at least the chosen neighbour, so the pool shrinks |
| HallGeneration.FirstAdjacent | Assets/Scripts/Dungeon/HallBlockGenerator.cs:87-90 | an exit next to the position with no earlier exit of the list next to it, or None iff none is next to it |
| HallGeneration.WalkSnoc | Assets/Scripts/Dungeon/HallBlockGenerator.cs:137-149 | a walk extended by a cell stays a walk iff the cell is one step from the walk's end |
| HallGeneration.GrownWalk | Assets/Scripts/Dungeon/HallBlockGenerator.cs:188 | halls grown from the exits stay grown when the walk of a Connect from an exit is appended |
| HallGeneration.WalkStep | Assets/Scripts/Dungeon/HallBlockGenerator.cs:109-139 | the step goes to a diggable neighbour of the position, reached iff it is the target, and otherwise it is stamped Hall. The new pool is exact: when leaving an Exit tile every cell next to it is dropped, otherwise just the step; on reaching an Exit target the cells next to the position are dropped as well |
| HallGeneration.WalkExtends | Assets/Scripts/Dungeon/HallBlockGenerator.cs:134-149 | a step onto a fresh non-target cell keeps the walk distinct, inside the input pool, and out of the remaining pool |
| HallGeneration.NoEarlyStopSnoc | Assets/Scripts/Dungeon/HallBlockGenerator.cs:73-91 | a step taken from a position next to neither the target nor another exit keeps the walk free of early stops |
| HallGeneration.Connect | Assets/Scripts/Dungeon/HallBlockGenerator.cs:68-151 | the dug halls form a walk from the source over distinct input-diggable cells, never the target, stamped Hall. The returned pool is a subset without them, shrunk by at least their number. No hall was dug from a position next to the target or to another exit. Success means ending next to the target. A stop means ending not next to the target but next to another exit, the first such in the list, whose neighbours leave the pool. Any other failure leaves no diggable neighbour or an empty pool. A cell leaves the pool only as a hall, as a neighbour of an Exit-tile source, on success as the target or a neighbour of the end, or as a neighbour of the stop exit |
| HallGeneration.DiggingAfterConnect | Assets/Scripts/Dungeon/HallBlockGenerator.cs:178-188 | appending one Connect's halls keeps the digging invariant: halls stamped, empty non-exit cells, distinct, grown from the exits; the pool stays empty non-exit undug cells |
| HallGeneration.NextPendingShrinks | Assets/Scripts/Dungeon/HallBlockGenerator.cs:168-199 | a pass from a pending source that requeues only a target drawn from the pending exits leaves fewer pending exits, all of them pending before |
| HallGeneration.RecordedSnoc | Assets/Scripts/Dungeon/HallBlockGenerator.cs:166-199 | one more pass taken from the last queue and the last pool extends the replay of queues, pools and halls |
| HallGeneration.ConnectPass | Assets/Scripts/Dungeon/HallBlockGenerator.cs:178-199 | one Connect call against the current pool, avoiding every exit except the source and the target. The recorded pass digs a walk of distinct pool cells, never the target, and the new pool no longer holds them. Every cell leaving the pool is one the pass dug or stepped next to. The pool is empty exactly when the pass exhausted it. Success means ending next to the target; a stop ends next to one of the other exits. The dug cells are stamped Hall, and targetIsExit says whether the target tile is an Exit afterwards |
| HallGeneration.DigStep | Assets/Scripts/Dungeon/HallBlockGenerator.cs:166-199 | one pass keeps the digging invariant. The source was pending. The target comes from the pending exits iff some other exit is pending, and then differs from the source. Otherwise it is a hall, or, before any hall exists, a Nothing cell farther than closestExitProximity from the source. The new queue drops the source and such a target, and appends the target when Connect failed, the target tile is Exit and the pool is not empty; so the queue strictly shrinks. The halls are appended as a walk from the source that never passed next to the target or to another exit, ending next to the target on success. A stop is recorded with its exit: one of the exits, not the source or the target, the first next to the end of the walk. Failure comes only before any hall is dug, with the source isolated. The pass records its halls: they came from the input pool, and the new pool is a subset of it that lost each cell for a reason Connect gives (a hall, a neighbour of an Exit-tile source, the target or a neighbour of the end on success, a neighbour of the stop exit) |
| HallGeneration.RecordedStep | Assets/Scripts/Dungeon/HallBlockGenerator.cs:166-199 | one pass of the digging loop that keeps the digging invariant and extends the recorded replay by exactly that pass, or, when no target can be found, stops with no halls and an isolated exit |
| HallGeneration.DigHalls | Assets/Scripts/Dungeon/HallBlockGenerator.cs:153-202 | the pool is the Nothing cells that are not exits. The recorded passes replay the queue from the exits: each source was pending, each target came from the queue iff another exit was pending, and each queue is the one before it after that pass. The pool runs out only on the last pass, and there are at most as many passes as exits. At the end the pending exits or the pool have run out, with the digging invariant; failure means an isolated exit and nothing dug. The recorded pools start from exactly the Nothing cells that are not exits, each pass digs from and shrinks the pool before it as DigStep states, and the halls are the passes' halls in order |
| HallGeneration.Generate | Assets/Scripts/Dungeon/HallBlockGenerator.cs:204-212 | the drawn nExits is an option; the exits lie in the ring, spaced. An empty ring with nExits > 0 fails; any failure means that or an isolated exit. On success: a fresh block of shape blockShape; at most nExits exits, at least one when nExits > 0, and fewer only when every ring cell is near an exit; tiles are Exit at exits, Hall at halls, Nothing elsewhere; halls were empty non-exit cells, distinct, each next to an exit or an earlier hall. On success the passes replay the queue from the exits and the pool from the Nothing cells that are not exits, the halls are the passes' halls, and digging ended with no pending exit or an empty pool |

## Left out

- Input and output: `Debug.Log`, `ToString`, the Unity serialisation attributes and the inspector are not modelled.
- Random distributions: every draw of `Random.Range` is a nondeterministic choice, so the model says nothing about which outcomes are likely.
- MathHelpers.Mod: the 32-bit overflow of `x % m + m` is not modelled, because integers are unbounded. Every other integer operation is also taken without wrap-around.
- Exceptions are modelled as an `Option` result or an `ok` flag on the method that throws. Any partial writes the exception leaves behind are kept in the model's array, as in the code.
- Helpers that are called but not shown get stand-in definitions:
  - `GetOuterRingCoordinates` is `HallGeneration.OuterRing`, in row-major order.
  - `GetAll` is `Grids.GetAll`, a row-major scan.
  - `DungeonPositions` is `Blocks.DungeonBlock.DungeonPositions`.
  - `GetValue` is `Blocks.DungeonBlock.GetValue`: Nothing outside the block.
  - `DungeonShape` is `Blocks.DungeonBlock.DungeonShape`.
  - `ManhattanDistance` and `IsUnit` are in `Geometry`.
  - `RectInt.Overlaps` is `Geometry.Rect.Overlaps`, over half-open rectangles.
  - The tile values other than Nothing = 0 are assumed to be distinct and non-zero.
- RandomInsetAnchor, HasMatch, CountMatches and GetNth are modelled by their relatives in `MathHelpers.cs`, because their own code is not part of this model:
  - `RandomShapeOffset` for RandomInsetAnchor;
  - the corrected `HasNonZero` for HasMatch;
  - `CountNonZero` for CountMatches;
  - `GetNthFilled` for GetNth.
- Blocks.DungeonBlock.constructor: the block keeps a value copy of the array's tiles. Later writes to an array shared with a generator are therefore not seen. The generators finish writing before they build the block.
- Levels.DungeonLevel.PlaceBlock: the code adds the block to `blocks` before it seals the connectors, and the model appends it after them. No step in between reads `blocks`.
- HallGeneration.DigHalls: the pending exits, the pool and the record of the passes it returns are ghost values, because the code keeps them in local variables.
- HallGeneration.Generate: an isolated exit is stated only as a consequence of failure. Whether GetDigTarget is ever asked for a target from an isolated exit depends on the random draws of the earlier passes, so the converse cannot be stated for every draw.
- RoomGeneration.Generate: a drawn room shape the size of the block does not always fail. RandomInsetAnchor may still find a corner for it, depending on a draw that is not modelled. So `misfit` records the shape that failed, and failure is not stated as following from such a shape.
- RoomGeneration.ValidConfig: it requires non-empty `doorsPossibilities` and `numberOfBaseShapePossibilities`, a non-negative `blockShape`, and `0 <= minBaseShape <= maxBaseShape` on each axis. The code throws on an empty option list and on a negative array size, and `Random.Range` with reversed bounds is not modelled. Only the inspector keeps the shapes ordered.
- HallGeneration.ValidConfig: it requires a non-empty `exitOptions` and a non-negative `blockShape`, on which the code throws. Every `closestExitProximity` is accepted.
- The `Workers` classes, `Dice.cs`, the designer controller and the debug generators are outside this model.
- Corridor erosion with the `FalseHall` tile, and biased digging, are not in the code, so they are not modelled. The tile value itself is `Tiles.FalseHall`.

## Findings

| source | as written | input that shows it | evidently intended | confidence | as-written member | corrected member |
|---|---|---|---|---|---|---|
| Assets/Scripts/Dungeon/FourDirection.cs:76 | the index is reduced with `pos.Mod(steps)` | `RotateCW(North, 1)` gives `directions[1 mod 1] = North`, and `steps = 0` divides by zero | reduce modulo 4, so one step moves one place along North, East, South, West | not executed | FourDirections.RotateCWAsWritten, shown wrong by FourDirections.RotateCWAsWrittenIsWrong | FourDirections.RotateCW, proved by FourDirections.RotateCWFourTimes and FourDirections.RotateCCWUndoesCW |
| Assets/Scripts/MathHelpers.cs:78 | the inner loop starts at `x = rect.xMax` | the grid [[1]] with the rectangle (0, 0, 1, 1) gives false | start at `rect.xMin`, so the answer is true iff the rectangle holds a non-zero cell | not executed | MathHelpers.HasNonZeroAsWritten, shown wrong by MathHelpers.HasNonZeroAsWrittenMissesCell | MathHelpers.HasNonZero |
| Assets/Scripts/Dungeon/DungeonBlock.cs:80-81 | the width and height are the distance between the corner cells | a 1x1 block gets a 0x0 extent, which contains none of its cells | add 1 to each, so the extent covers every cell of the block | not executed | Blocks.DungeonBlock.DungeonExtentAsWritten, shown wrong by Blocks.DungeonBlock.ExtentAsWrittenMissesCorner | Blocks.DungeonBlock.DungeonExtent, proved by Blocks.DungeonBlock.ExtentCoversBlock |
