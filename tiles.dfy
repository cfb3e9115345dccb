/**
 * The tile values of a block's grid (BlockTileTypes). Only `Nothing == 0` is implied by the
 * code (its `!= 0` and `== 0` tests); the other values are assumed, distinct and non-zero.
 */
module Tiles {
  const Nothing: int := 0
  const Room: int := 1
  const Hall: int := 2
  const Door: int := 3
  const Exit: int := 4
  const FalseHall: int := 5
}
