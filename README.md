# Underground mine engine, modelled in Dafny

This project models the underground mine of pokeclicker
(`src/modules/underground/mine/Mine.ts`). A mine is a `width * height` board
of tiles stored row-major (`y * width + x`). Each tile has a number of layers
left to dig, an optional copy of a buried treasure (a *reward*) and a survey
hint.

- **Generation.** Generation draws a depth for every tile. It then places the
  footprints of a drawn number of treasures, allowing each reward index up to
  1000 random tries.
- **Play.** Digging lowers one tile's depth. Surveying sets one tile's hint.
  A treasure can be collected once every tile of its footprint is at depth 0.
  The layer completes once everything buried has been found.
- **Counters.** Three counters (buried, found, partially found) are kept
  equal to what the grid says: each operation recomputes the counters its
  change can affect, and no others.
- **Persistence.** The mine can be saved and loaded back.

The model is organised as follows:

- `mine_types.dfy` (`MineTypes`) holds the values: coordinates, rewards,
  tiles, the mine properties and their defaults. It also holds the clamping
  `layerDepth` setter.
- `grid_index.dfy` (`GridIndex`) holds the coordinate/index arithmetic and the
  proof that the two conversions are inverse.
- `counters.dfy` (`Counters`) defines the three counters as cardinalities of
  sets of reward ids over the grid. It also proves what each grid change does
  to them.
- `discovery.dfy` (`Discovery`) covers when a reward may be collected and what
  collecting changes.
- `placement.dfy` (`Placement`) is the pure specification of generation:
  - the fit test;
  - the grid after one footprint is committed;
  - the retry loop with its attempt budget;
  - the whole placement phase.
- `mine.dfy` (`MineEngine`) holds the `Mine` class. Its tile array and
  counter fields are updated in place by methods with loops, each proved
  against the functions above. The module also holds save/load.
  - `Valid()` says the counters are equal to what the grid says. The public
    operations keep it: the constructor, `Load`, `Generate`, `Survey`,
    `AttemptBreakTile` and `AttemptFindItem` establish it, and `Tick` and
    `AttemptCompleteLayer` keep it because they leave the grid and the
    counter fields it depends on unchanged.
  - The generation helpers `GenerateGrid` and `AttemptPlaceReward` change the
    grid without recounting and do not keep `Valid()`, as in the original.
    `GenerateUndergroundItems` derives the counters anew once placement ends.
- `scenario.dfy` (`MineScenario`) follows a two-tile mine from generation to
  completion.

Randomness is an input: each random draw becomes a parameter of the method
that makes it. This covers:

- the depth of every tile;
- the extra item count;
- per reward index, the item id and the stream of tries, where each try is a
  rotation count, the rotated mask, the rotated background-position matrix
  and a coordinate.

The Knockout observables are plain fields. Times are `real`. Depths, survey
hints, ids and layers are `int`.

Two behaviours are modelled as the code writes them:

- The partially found counter counts reward ids with **at least one** tile at
  depth 0 (`Mine.ts:445`). It does not wait for the whole footprint.
  `MineScenario.DigFirst` exhibits this.
- Loading falls back to `timeToDiscover` when the saved timer is missing **or
  exactly 0**, because `load` uses `||` (`Mine.ts:460`).

## Model

| member | source | states |
|---|---|---|
| GridIndex.GridIndexForCoordinate | src/modules/underground/mine/Mine.ts:309-316 | -1 exactly when x or y is negative or at least width/height; otherwise `y * width + x`, which lies in `[0, width * height)` |
| GridIndex.CoordinateForGridIndex | src/modules/underground/mine/Mine.ts:299-307 | a coordinate exactly for indices in `[0, grid length)`; that coordinate has `0 <= x < width`, `y >= 0` and recombines to the index |
| GridIndex.CoordinateThenIndex | src/modules/underground/mine/Mine.ts:299-316 | on every in-range index of a `width * height` grid, index → coordinate → index is the identity |
| GridIndex.IndexThenCoordinate | src/modules/underground/mine/Mine.ts:299-316 | on every in-bounds coordinate, coordinate → index → coordinate is the identity |
| GridIndex.TileIndexForCoordinate | src/modules/underground/mine/Mine.ts:318-324 | a tile exactly when the coordinate is in bounds and its index lies inside the array, and then it is the row-major index |
| MineTypes.NewTile | src/modules/underground/mine/Mine.ts:106-109 | a new tile keeps the given depth unclamped, has no reward and has survey -1 |
| MineTypes.WithLayerDepth | src/modules/underground/mine/Mine.ts:115-117 | the stored depth is never negative; a non-negative value is stored as is; a value at or below 0 exposes the tile; reward and survey are untouched |
| MineTypes.MinimumDepth | src/modules/underground/mine/Mine.ts:191 | an unset minimum depth defaults to 3, and a set one (0 included) is kept |
| MineTypes.MaximumExtraLayers | src/modules/underground/mine/Mine.ts:191 | an unset maximum of extra layers defaults to 2, and a set one is kept |
| MineTypes.ItemsToGenerate | src/modules/underground/mine/Mine.ts:199-202 | the fixed item count when the configuration has one, otherwise the minimum plus the drawn extra; a negative count gives 0 reward indices |
| MineEngine.GeneratedDepths | src/modules/underground/mine/Mine.ts:189-192 | after generation, every tile's depth lies in `[minimumDepth, minimumDepth + maximumExtraLayers]` with the defaults applied, and every hint is unset |
| MineEngine.GeneratedRewards | src/modules/underground/mine/Mine.ts:205-219 | after generation, every reward copy has a reward index below the number of draws and the item drawn for that index, and is not collected |
| MineEngine.GeneratedCounters | src/modules/underground/mine/Mine.ts:194-224 | after generation nothing is found, the copies of each reward agree, and at most one reward is buried per reward index |
| MineEngine.InitialGrid | src/modules/underground/mine/Mine.ts:189-192 | one tile per depth draw, in index order, at depth draw + minimum depth, with no reward and an unset hint |
| Placement.Fits | src/modules/underground/mine/Mine.ts:226-250 | a footprint fits when the grid is nonempty, it stays inside width and height, and every nonzero mask cell lands on a tile without a reward |
| Placement.Place | src/modules/underground/mine/Mine.ts:268-287 | the grid after committing a footprint: each tile under a nonzero mask cell receives that cell's reward copy, every other tile is as it was |
| Placement.TryPlace | src/modules/underground/mine/Mine.ts:207-218 | the retry loop from try `k` on: it commits the first fitting try below 1000, otherwise leaves the grid; the grid keeps its length |
| Placement.PlaceAll | src/modules/underground/mine/Mine.ts:205-219 | the placement phase: every reward index in turn, each retry loop on the grid the earlier ones left; the grid keeps its length |
| Placement.PlaceWritesMask | src/modules/underground/mine/Mine.ts:268-287 | committing a footprint gives every nonzero mask cell a copy with this reward index and item, its local coordinate, its background position and the rotation count, not collected |
| Placement.PlaceTouchesOnlyMask | src/modules/underground/mine/Mine.ts:268-287 | committing a fitting footprint never overwrites a tile that already holds a reward; it changes only tiles under nonzero mask cells, and keeps depths and hints |
| Placement.TryPlaceFirstFit | src/modules/underground/mine/Mine.ts:205-219 | the retry loop commits the first try within the budget that fits, and leaves the grid unchanged when none of the 1000 fits |
| Placement.TryPlaceUsesBudgetOnly | src/modules/underground/mine/Mine.ts:210 | no try past `MAXIMUM_PLACEMENT_ATTEMPTS` (1000) is ever read: cutting the tries down to 1000 changes nothing |
| Placement.TryPlaceKeepsGrid | src/modules/underground/mine/Mine.ts:205-219 | one reward index keeps depths, hints and the rewards already placed; every tile it changes holds a copy of this index and item, not collected |
| Placement.PlaceAllKeepsGrid | src/modules/underground/mine/Mine.ts:205-219 | the whole placement phase keeps depths, hints and the rewards already there; every new copy has an index below the number of draws and that draw's item |
| Counters.BuriedIds | src/modules/underground/mine/Mine.ts:437 | the set of reward ids held by some tile of the grid |
| Counters.FoundIds | src/modules/underground/mine/Mine.ts:441 | the set of reward ids with some collected tile |
| Counters.PartiallyFoundIds | src/modules/underground/mine/Mine.ts:445 | the set of reward ids with some tile at depth 0 |
| Counters.ItemsBuried | src/modules/underground/mine/Mine.ts:436-438 | the buried counter: the number of distinct ids in `BuriedIds` |
| Counters.ItemsFound | src/modules/underground/mine/Mine.ts:440-442 | the found counter: the number of distinct ids in `FoundIds` |
| Counters.ItemsPartiallyFound | src/modules/underground/mine/Mine.ts:444-446 | the partially found counter: the number of distinct ids in `PartiallyFoundIds` |
| Counters.CountedIds | src/modules/underground/mine/Mine.ts:436-446 | an id is counted as buried / found / partially found exactly when some tile with that id has a reward / a collected reward / depth 0 |
| Counters.CountersBounded | src/modules/underground/mine/Mine.ts:436-446 | neither found nor partially found rewards can outnumber the buried ones |
| Counters.AllFoundWhenCountsMatch | src/modules/underground/mine/Mine.ts:384 | equal found and buried counts mean every buried reward id has a collected tile |
| Counters.DepthChangeKeepsCounters | src/modules/underground/mine/Mine.ts:339-345 | digging a tile that stays above depth 0 changes none of the three counters, which is why only a tile reaching 0 triggers a recount |
| Counters.DepthChangeKeepsBuriedAndFound | src/modules/underground/mine/Mine.ts:339-345 | a depth change never changes the buried or the found counter |
| Counters.SurveyKeepsCounters | src/modules/underground/mine/Mine.ts:326-334 | a survey hint changes no counter |
| Discovery.Collectable | src/modules/underground/mine/Mine.ts:356-364 | a tile's reward may be collected when it has one, the tile is not deeper than 0, it is not collected yet, and every tile of its reward is at depth 0 |
| Discovery.MarkRewarded | src/modules/underground/mine/Mine.ts:360-368 | exactly the tiles of the reward group are marked collected, and every other tile is left as it was |
| Discovery.SecondCollectFails | src/modules/underground/mine/Mine.ts:356 | once a reward is collected, collecting it again from any of its tiles is refused |
| Discovery.MarkKeepsGroupsAgree | src/modules/underground/mine/Mine.ts:366-368 | after collecting, all copies of every reward still agree on whether it is collected |
| Discovery.MarkKeepsBuriedAndPartial | src/modules/underground/mine/Mine.ts:366-370 | collecting changes neither the buried nor the partially found counter |
| Discovery.MarkAddsFoundId | src/modules/underground/mine/Mine.ts:366-370 | collecting reward `id` adds exactly `id` to the found ids |
| Discovery.CollectCountsOnce | src/modules/underground/mine/Mine.ts:360-370 | when all copies of every reward agree on whether it is collected (as after generation), a successful collection raises the found counter by exactly one |
| MineEngine.Mine.constructor | src/modules/underground/mine/Mine.ts:173-176 | a new mine keeps its properties, has no tiles, has the timer at `timeToDiscover`, and is not completed |
| MineEngine.Mine.Tick | src/modules/underground/mine/Mine.ts:178-182 | the timer drops by `deltaTime` while the mine is not completed, and does not move once it is; the counters stay correct |
| MineEngine.Mine.Generate | src/modules/underground/mine/Mine.ts:184-187 | the new grid has `width * height` tiles and equals the placement phase over the drawn depths; every depth lies in the drawn range; nothing is found; the counters are derived from the grid |
| MineEngine.Mine.GenerateGrid | src/modules/underground/mine/Mine.ts:189-192 | a fresh array holding one unclamped tile per cell, with depth = draw + minimumDepth |
| MineEngine.Mine.GenerateUndergroundItems | src/modules/underground/mine/Mine.ts:194-224 | the for/while retry loops leave exactly the grid the placement phase specifies, and the three counters are derived from it |
| MineEngine.Mine.CanPlaceReward | src/modules/underground/mine/Mine.ts:226-250 | true exactly when the grid is nonempty, the footprint stays inside width and height, and no nonzero mask cell lands on a tile with a reward |
| MineEngine.Mine.AttemptPlaceReward | src/modules/underground/mine/Mine.ts:252-290 | true exactly when the footprint fits; on true the grid becomes the committed footprint, on false it is unchanged |
| MineEngine.Mine.Survey | src/modules/underground/mine/Mine.ts:326-334 | only the addressed tile's hint changes, and nothing changes when the coordinate addresses no tile; the counters stay correct |
| MineEngine.Mine.AttemptBreakTile | src/modules/underground/mine/Mine.ts:336-351 | true exactly when the coordinate addresses a tile deeper than 0, which is then lowered by `layers` (1 by default) through the clamping setter; on false nothing changes; the counters stay correct |
| MineEngine.Mine.AttemptFindItem | src/modules/underground/mine/Mine.ts:353-381 | an item exactly when the tile exists, has a reward, is not deeper than 0, is not collected and its whole footprint is at depth 0; then every tile of that reward is marked collected and the item id and amount are returned; otherwise nothing changes |
| MineEngine.Mine.AttemptCompleteLayer | src/modules/underground/mine/Mine.ts:383-394 | true exactly when the mine is not completed, something is buried and found equals buried; once completed it never fires again; when it fires every buried reward has been found; the counters stay correct |
| MineEngine.Mine.UpdateItemsBuried | src/modules/underground/mine/Mine.ts:436-438 | the buried counter becomes the number of distinct reward ids in the grid |
| MineEngine.Mine.UpdateItemsFound | src/modules/underground/mine/Mine.ts:440-442 | the found counter becomes the number of distinct ids with a collected tile |
| MineEngine.Mine.UpdateItemsPartiallyFound | src/modules/underground/mine/Mine.ts:444-446 | the partially found counter becomes the number of distinct ids with some tile at depth 0 |
| MineEngine.Mine.Save | src/modules/underground/mine/Mine.ts:448-455 | the save always carries the timer and the completion flag |
| MineEngine.RestoredTimeUntilDiscovery | src/modules/underground/mine/Mine.ts:460 | a saved timer is kept unless it is missing or exactly 0, in which case `timeToDiscover` is used |
| MineEngine.RestoredCompleted | src/modules/underground/mine/Mine.ts:461 | completed after loading exactly when the save says `true`, and false when the flag is missing |
| MineEngine.Mine.Load | src/modules/underground/mine/Mine.ts:457-468 | load rebuilds the grid in index order, restores the timer and the flag with their fallbacks, and derives the three counters from the rebuilt grid |
| MineEngine.SaveThenLoad | src/modules/underground/mine/Mine.ts:448-468 | `load(save(m))` has m's properties, the same tiles in a grid of its own, the same flag and counters, and the same timer unless it stood at 0 |
| MineScenario.TwoTileMine | src/modules/underground/mine/Mine.ts:184-394 | a one-item 2 x 1 mine is generated, dug out tile by tile, collected once, and completed exactly once |
| MineScenario.DigFirst | src/modules/underground/mine/Mine.ts:445 | after one of the two tiles is exposed, the partially found counter is already 1 and collecting is refused |
| MineScenario.DigOutsideGrid | src/modules/underground/mine/Mine.ts:336-351 | digging at a coordinate left of the grid fails and changes no tile |

## Left out

- Randomness (`Rand.intBetween`, `Rand.floor`, `Rand.fromWeightedArray`) and `getRandomCoordinate` (`Mine.ts:292-297`). The draws are parameters, constrained only to their ranges. The weights and distributions are not modelled.
- `UndergroundController.rotateMatrix90Clockwise` is not part of this model. Each try is given its rotated mask and rotated background-position matrix. They are required to be rectangular, nonempty and of the same shape.
- `backgroundPosition` strings (`Mine.ts:261-266`) are built with floating-point `toFixed(2)`. They are carried as opaque strings supplied with each try.
- `Mine.Generate` and `Mine.GenerateUndergroundItems` require `config` to be present, because the original reads `config.fixedItemCount` and `config.getAvailableItems()` unguarded. `getAvailableItems` and item weights appear only as the drawn item id.
- `Mine.GenerateUndergroundItems` requires a grid of `width * height` tiles. Its fallback call to `_generateGrid` for an empty grid (`Mine.ts:195-197`) is not modelled. Through `generate`, the grid it would rebuild is the same empty grid.
- `Mine.CanPlaceReward` and `Mine.AttemptPlaceReward` require a non-negative coordinate. A negative origin is not modelled. Where a nonzero mask cell lands left of or above the grid, the original reads outside the array and throws; a negative origin whose nonzero cells all land inside would still be placed. Every origin drawn by generation is non-negative.
- `MineTypes.MineProperties` takes the width and height as natural numbers. Non-integer or negative dimensions, which the original's plain numbers would admit, are not modelled.
- `GridIndex.CoordinateForGridIndex` excludes a nonempty grid of width 0, where the original divides by zero and yields NaN.
- External side effects are not modelled: the battery charge, the oak item uses, the statistics increments, and `UndergroundItems.getById`. `calculateRewardAmountFromMining` is an `amount` parameter of `Mine.AttemptFindItem`, and the item is returned as its id.
- Knockout reactivity and subscriptions are not modelled. Observables are plain fields.
- `Tile.save`/`Tile.load` and `Reward.save`/`Reward.load` (`Mine.ts:83-98`, `135-150`) are identities on the value model. A saved tile is a `Tile`. No JSON is modelled.
- Tiles and rewards are values, not objects with identity. Nothing in the engine shares a tile or reward between two grid cells, so no aliasing is lost.
- Before `generate`, the original grid is `undefined`. The model starts with an empty array. Saving an ungenerated mine, which would throw in the original, is therefore not modelled.
- The static UI fields `bestI`, `bestJ` and `bestToolToUse`, the commented-out `indicateOptimalSpotToBreak`, and the unused `MineStateType` enum are not modelled.
- The getters (`Mine.ts:396-434`) are not modelled. They read the fields directly.
- `src/modules/types/DamageCalculator.ts` is not part of this model.
- JavaScript number semantics (NaN, infinities, rounding) are not modelled. Integers are unbounded and times are exact reals.
