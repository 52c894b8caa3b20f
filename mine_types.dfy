/** The values the underground mine is built from: coordinates, rewards, tiles
    and the properties a mine is created with, together with the defaults the
    mine applies when an optional property is unset. */
module MineTypes {

  datatype Option<+T> = None | Some(value: T)

  /** Grid-local position: `x` is the column, `y` the row. */
  datatype Coordinate = Coordinate(x: int, y: int)

  /** One cell's copy of a buried treasure. Every tile an item's footprint
      covers holds its own copy; the copies share `id` (the reward index the
      item was placed under). Only `rewarded` ever changes after placement. */
  datatype Reward = Reward(
    id: int,
    undergroundItemID: int,
    localCoordinate: Coordinate,
    backgroundPosition: string,
    rotations: int,
    rewarded: bool)

  /** One grid cell: the layers left to dig, the treasure copy buried there,
      and the survey hint (-1 while unset). */
  datatype Tile = Tile(layerDepth: int, reward: Option<Reward>, survey: int)

  /** The survey value of a freshly created tile. */
  const UnsetSurvey: int := -1

  /** A tile is exposed once its depth is exactly zero. */
  predicate Exposed(t: Tile) {
    t.layerDepth == 0
  }

  /** The tile created for a freshly drawn depth; the constructor does not clamp. */
  function NewTile(layerDepth: int): (t: Tile)
    ensures t.layerDepth == layerDepth && t.reward.None? && t.survey == UnsetSurvey
  {
    Tile(layerDepth, None, UnsetSurvey)
  }

  /** The `layerDepth` setter: a negative value is stored as zero, and nothing
      else about the tile changes. */
  function WithLayerDepth(t: Tile, value: int): (r: Tile)
    ensures r.layerDepth >= 0
    ensures value >= 0 ==> r.layerDepth == value
    ensures value <= 0 ==> Exposed(r)
    ensures r.reward == t.reward && r.survey == t.survey
  {
    t.(layerDepth := if value > 0 then value else 0)
  }

  /** The part of the mine configuration the engine reads: an optional fixed
      number of items and the mine type (opaque to the engine). */
  datatype MineConfig = MineConfig(fixedItemCount: Option<int>, mineType: int)

  /** The properties a mine is created with. The width and height are taken
      as natural numbers; their product is the length of the grid. */
  datatype MineProperties = MineProperties(
    width: nat,
    height: nat,
    minimumDepth: Option<int>,
    maximumExtraLayers: Option<int>,
    minimumItemsToGenerate: int,
    extraItemsToGenerate: int,
    timeToDiscover: real,
    config: Option<MineConfig>)

  const DefaultMinimumDepth: int := 3
  const DefaultMaximumExtraLayers: int := 2
  const MaximumPlacementAttempts: nat := 1000

  /** The minimum depth, or 3 when the property is unset; a set value, 0
      included, is kept. */
  function MinimumDepth(p: MineProperties): (d: int)
    ensures p.minimumDepth.None? ==> d == DefaultMinimumDepth
    ensures p.minimumDepth.Some? ==> d == p.minimumDepth.value
  {
    match p.minimumDepth
    case Some(d) => d
    case None => DefaultMinimumDepth
  }

  /** The maximum of extra layers, or 2 when the property is unset. */
  function MaximumExtraLayers(p: MineProperties): (d: int)
    ensures p.maximumExtraLayers.None? ==> d == DefaultMaximumExtraLayers
    ensures p.maximumExtraLayers.Some? ==> d == p.maximumExtraLayers.value
  {
    match p.maximumExtraLayers
    case Some(d) => d
    case None => DefaultMaximumExtraLayers
  }

  /** The number of reward indices the generation loop runs over: the fixed
      count of the configuration when it has one, otherwise the minimum plus
      the drawn extra. A negative count runs the loop zero times. */
  function ItemsToGenerate(config: MineConfig, p: MineProperties, extraDraw: int): (n: nat)
    ensures config.fixedItemCount.Some? && config.fixedItemCount.value < 0 ==> n == 0
    ensures config.fixedItemCount.None? && p.minimumItemsToGenerate + extraDraw < 0 ==> n == 0
    ensures config.fixedItemCount.Some? && config.fixedItemCount.value >= 0 ==> n == config.fixedItemCount.value
    ensures config.fixedItemCount.None? && p.minimumItemsToGenerate + extraDraw >= 0 ==>
              n == p.minimumItemsToGenerate + extraDraw
  {
    var count := match config.fixedItemCount
                 case Some(c) => c
                 case None => p.minimumItemsToGenerate + extraDraw;
    if count < 0 then 0 else count
  }
}
