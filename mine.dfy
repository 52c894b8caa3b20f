/** The mine engine: a grid of tiles that generation fills with buried
    treasure and that digging, surveying and collecting then change in place,
    three counters kept equal to what the grid says, completion, the discovery
    timer, and the save/load round trip. */
module MineEngine {
  import opened MineTypes
  import opened GridIndex
  import opened Counters
  import opened Discovery
  import opened Placement

  /** What a successful attemptFindItem hands back: the treasure's item id and
      the amount the reward-amount collaborator chose. */
  datatype FoundItem = FoundItem(undergroundItemID: int, amount: int)

  /** The persisted form of a mine. A saved tile carries exactly the three
      fields of a tile, so it is a `Tile`; the timer and the completion flag
      may be missing from older saves. */
  datatype MineSave = MineSave(
    properties: MineProperties,
    grid: seq<Tile>,
    timeUntilDiscovery: Option<real>,
    completed: Option<bool>)

  /** The timer a load restores: the saved one, except that a missing timer
      and a timer of exactly 0 both fall back to the configured time. */
  function RestoredTimeUntilDiscovery(saved: Option<real>, timeToDiscover: real): (t: real)
    ensures saved.Some? && saved.value != 0.0 ==> t == saved.value
    ensures saved.None? || saved.value == 0.0 ==> t == timeToDiscover
  {
    if saved.Some? && saved.value != 0.0 then saved.value else timeToDiscover
  }

  /** The completion flag a load restores: the saved flag, false when it is
      missing. */
  function RestoredCompleted(saved: Option<bool>): (b: bool)
    ensures b <==> saved == Some(true)
  {
    match saved
    case Some(c) => c
    case None => false
  }

  /** The grid _generateGrid builds from one depth draw per tile, in index order. */
  function InitialGrid(p: MineProperties, depthDraws: seq<int>): (g: seq<Tile>)
    ensures |g| == |depthDraws|
    ensures forall i :: 0 <= i < |g| ==> g[i].reward.None? && g[i].survey == UnsetSurvey
    ensures forall i :: 0 <= i < |g| ==> g[i].layerDepth - MinimumDepth(p) == depthDraws[i]
  {
    seq(|depthDraws|, i requires 0 <= i < |depthDraws| => NewTile(depthDraws[i] + MinimumDepth(p)))
  }

  /** `{0, ..., n - 1}`. */
  function Indices(n: nat): (s: set<int>)
    ensures |s| == n
    ensures forall k :: k in s <==> 0 <= k < n
  {
    if n == 0 then {} else Indices(n - 1) + {n - 1}
  }

  /** A freshly generated mine has every depth in
      `[minimumDepth, minimumDepth + maximumExtraLayers]` and every hint unset. */
  lemma {:induction false} GeneratedDepths(p: MineProperties, depthDraws: seq<int>, draws: seq<RewardDraw>)
    requires |depthDraws| == p.width * p.height
    requires forall i :: 0 <= i < |depthDraws| ==> 0 <= depthDraws[i] <= MaximumExtraLayers(p)
    requires forall n :: 0 <= n < |draws| ==> ValidDraw(draws[n], p.width, p.height)
    ensures forall i :: 0 <= i < |depthDraws| ==>
              MinimumDepth(p) <= PlaceAll(InitialGrid(p, depthDraws), p.width, p.height, draws)[i].layerDepth
                              <= MinimumDepth(p) + MaximumExtraLayers(p)
    ensures forall i :: 0 <= i < |depthDraws| ==>
              PlaceAll(InitialGrid(p, depthDraws), p.width, p.height, draws)[i].survey == UnsetSurvey
  {
    var g0 := InitialGrid(p, depthDraws);
    assert forall i :: 0 <= i < |g0| ==>
             MinimumDepth(p) <= g0[i].layerDepth <= MinimumDepth(p) + MaximumExtraLayers(p) && g0[i].survey == UnsetSurvey;
    PlaceAllKeepsGrid(g0, p.width, p.height, draws);
  }

  /** In a freshly generated mine every reward copy carries a reward index
      below the number of draws and the item drawn for that index, and is not
      collected. */
  lemma {:induction false} GeneratedRewards(p: MineProperties, depthDraws: seq<int>, draws: seq<RewardDraw>)
    requires |depthDraws| == p.width * p.height
    requires forall n :: 0 <= n < |draws| ==> ValidDraw(draws[n], p.width, p.height)
    ensures forall i :: 0 <= i < |depthDraws| && PlaceAll(InitialGrid(p, depthDraws), p.width, p.height, draws)[i].reward.Some? ==>
              var rw := PlaceAll(InitialGrid(p, depthDraws), p.width, p.height, draws)[i].reward.value;
              0 <= rw.id < |draws| && !rw.rewarded && rw.undergroundItemID == draws[rw.id].undergroundItemID
  {
    var g0 := InitialGrid(p, depthDraws);
    PlaceAllKeepsGrid(g0, p.width, p.height, draws);
    assert forall i :: 0 <= i < |g0| ==> g0[i].reward.None?;
  }

  /** A freshly generated mine has nothing found, its reward copies agree, and
      no more rewards buried than reward indices drawn (a reward index whose
      tries all failed is simply missing). */
  lemma {:induction false} GeneratedCounters(p: MineProperties, depthDraws: seq<int>, draws: seq<RewardDraw>)
    requires |depthDraws| == p.width * p.height
    requires forall n :: 0 <= n < |draws| ==> ValidDraw(draws[n], p.width, p.height)
    ensures ItemsFound(PlaceAll(InitialGrid(p, depthDraws), p.width, p.height, draws)) == 0
    ensures GroupsAgree(PlaceAll(InitialGrid(p, depthDraws), p.width, p.height, draws))
    ensures ItemsBuried(PlaceAll(InitialGrid(p, depthDraws), p.width, p.height, draws)) <= |draws|
  {
    var g := PlaceAll(InitialGrid(p, depthDraws), p.width, p.height, draws);
    GeneratedRewards(p, depthDraws, draws);
    assert FoundIds(g) == {};
    assert BuriedIds(g) <= Indices(|draws|);
    SubsetCardinality(BuriedIds(g), Indices(|draws|));
  }

  class Mine {
    const properties: MineProperties
    var grid: array<Tile>
    var timeUntilDiscovery: real
    var itemsBuried: nat
    var itemsFound: nat
    var itemsPartiallyFound: nat
    var completed: bool

    /** The counters agree with the grid they are derived from. */
    ghost predicate Valid()
      reads this, grid
    {
      && itemsBuried == ItemsBuried(grid[..])
      && itemsFound == ItemsFound(grid[..])
      && itemsPartiallyFound == ItemsPartiallyFound(grid[..])
    }

    /** The grid has one tile per cell of a `width * height` board. */
    ghost predicate Shaped()
      reads this
    {
      grid.Length == properties.width * properties.height
    }

    /** A new mine has no grid yet (an empty one here) and its timer set to
        the configured time to discover. */
    constructor (p: MineProperties)
      ensures properties == p && fresh(grid) && grid.Length == 0
      ensures timeUntilDiscovery == p.timeToDiscover && !completed
      ensures Valid()
    {
      properties := p;
      grid := new Tile[0];
      timeUntilDiscovery := p.timeToDiscover;
      itemsBuried, itemsFound, itemsPartiallyFound := 0, 0, 0;
      completed := false;
      new;
      assert grid[..] == [];
    }

    /** The discovery timer runs down only while the mine is not completed. */
    method Tick(deltaTime: real)
      modifies this`timeUntilDiscovery
      ensures timeUntilDiscovery == if completed then old(timeUntilDiscovery) else old(timeUntilDiscovery) - deltaTime
      ensures old(Valid()) ==> Valid()
    {
      if !completed {
        timeUntilDiscovery := timeUntilDiscovery - deltaTime;
      }
    }

    /** Builds the depth grid, then places the treasure. `depthDraws` are the
        per-tile draws between 0 and the maximum of extra layers, `extraItemsDraw`
        the drawn number of items above the minimum, `rewardDraws` the item and
        placement tries drawn for each reward index. */
    method Generate(depthDraws: seq<int>, extraItemsDraw: int, rewardDraws: seq<RewardDraw>)
      requires properties.config.Some?
      requires |depthDraws| == properties.width * properties.height
      requires forall i :: 0 <= i < |depthDraws| ==> 0 <= depthDraws[i] <= MaximumExtraLayers(properties)
      requires properties.config.value.fixedItemCount.None? ==> 0 <= extraItemsDraw <= properties.extraItemsToGenerate
      requires |rewardDraws| == ItemsToGenerate(properties.config.value, properties, extraItemsDraw)
      requires forall n :: 0 <= n < |rewardDraws| ==> ValidDraw(rewardDraws[n], properties.width, properties.height)
      modifies this`grid, this`itemsBuried, this`itemsFound, this`itemsPartiallyFound
      ensures fresh(grid) && Shaped() && Valid()
      ensures grid[..] == PlaceAll(InitialGrid(properties, depthDraws), properties.width, properties.height, rewardDraws)
      ensures forall i :: 0 <= i < grid.Length ==>
                MinimumDepth(properties) <= grid[i].layerDepth <= MinimumDepth(properties) + MaximumExtraLayers(properties)
      ensures forall i :: 0 <= i < grid.Length && grid[i].reward.Some? ==>
                0 <= grid[i].reward.value.id < |rewardDraws| && !grid[i].reward.value.rewarded
      ensures itemsFound == 0 && itemsBuried <= |rewardDraws|
    {
      GenerateGrid(depthDraws);
      GenerateUndergroundItems(extraItemsDraw, rewardDraws);
      GeneratedDepths(properties, depthDraws, rewardDraws);
      GeneratedRewards(properties, depthDraws, rewardDraws);
      GeneratedCounters(properties, depthDraws, rewardDraws);
    }

    /** _generateGrid: one fresh tile per cell, at depth
        `minimumDepth + draw`, in index order. */
    method GenerateGrid(depthDraws: seq<int>)
      requires |depthDraws| == properties.width * properties.height
      requires forall i :: 0 <= i < |depthDraws| ==> 0 <= depthDraws[i] <= MaximumExtraLayers(properties)
      modifies this`grid
      ensures fresh(grid) && Shaped()
      ensures grid[..] == InitialGrid(properties, depthDraws)
    {
      var minimumDepth := MinimumDepth(properties);
      grid := new Tile[|depthDraws|](i requires 0 <= i < |depthDraws| => NewTile(depthDraws[i] + minimumDepth));
    }

    /** _generateUndergroundItems: for each reward index, up to
        MAXIMUM_PLACEMENT_ATTEMPTS tries, stopping at the first that fits; an
        index with no fitting try is skipped. Then the counters are derived
        from the grid. (The original first regenerates an empty grid; with the
        grid already shaped, regenerating an empty grid yields an empty grid.) */
    method GenerateUndergroundItems(extraItemsDraw: int, rewardDraws: seq<RewardDraw>)
      requires properties.config.Some? && Shaped()
      requires properties.config.value.fixedItemCount.None? ==> 0 <= extraItemsDraw <= properties.extraItemsToGenerate
      requires |rewardDraws| == ItemsToGenerate(properties.config.value, properties, extraItemsDraw)
      requires forall n :: 0 <= n < |rewardDraws| ==> ValidDraw(rewardDraws[n], properties.width, properties.height)
      modifies grid, this`itemsBuried, this`itemsFound, this`itemsPartiallyFound
      ensures grid[..] == PlaceAll(old(grid[..]), properties.width, properties.height, rewardDraws)
      ensures Valid()
    {
      var width, height := properties.width, properties.height;
      var numberOfItemsToGenerate := ItemsToGenerate(properties.config.value, properties, extraItemsDraw);
      for rewardIndex := 0 to numberOfItemsToGenerate
        invariant grid[..] == PlaceAll(old(grid[..]), width, height, rewardDraws[..rewardIndex])
      {
        var draw := rewardDraws[rewardIndex];
        ghost var before := grid[..];
        var placementAttemptSucceeded := false;
        var attemptCount := 0;
        while !placementAttemptSucceeded && attemptCount < MaximumPlacementAttempts
          invariant 0 <= attemptCount <= MaximumPlacementAttempts
          invariant !placementAttemptSucceeded ==>
                      grid[..] == before &&
                      TryPlace(before, width, height, rewardIndex, draw, attemptCount) == TryPlace(before, width, height, rewardIndex, draw, 0)
          invariant placementAttemptSucceeded ==> grid[..] == TryPlace(before, width, height, rewardIndex, draw, 0)
          decreases MaximumPlacementAttempts - attemptCount
        {
          // the rotation, the rotated mask and the origin of this try were
          // all drawn in advance
          var attempt := draw.attempts[attemptCount];
          placementAttemptSucceeded := AttemptPlaceReward(draw.undergroundItemID, rewardIndex, attempt.coordinate,
                                                          attempt.localSpace, attempt.rotations, attempt.backgroundSpace);
          attemptCount := attemptCount + 1;
        }
        assert rewardDraws[..rewardIndex + 1][..rewardIndex] == rewardDraws[..rewardIndex];
      }
      assert rewardDraws[..numberOfItemsToGenerate] == rewardDraws;
      UpdateItemsBuried();
      UpdateItemsFound();
      UpdateItemsPartiallyFound();
    }

    /** _canPlaceReward: true exactly when the footprint fits (see `Fits`). */
    method CanPlaceReward(coordinate: Coordinate, localSpace: seq<seq<int>>) returns (ok: bool)
      requires Shaped() && Rectangular(localSpace) && 0 <= coordinate.x && 0 <= coordinate.y
      ensures ok == Fits(grid[..], properties.width, properties.height, coordinate, localSpace)
    {
      var width, height := properties.width, properties.height;
      if grid.Length == 0 {
        return false;
      }
      var rewardWidth := |localSpace[0]|;
      var rewardHeight := |localSpace|;
      if coordinate.x + rewardWidth > width || coordinate.y + rewardHeight > height {
        return false;
      }
      for localX := 0 to rewardWidth
        invariant forall ly, lx :: 0 <= ly < rewardHeight && 0 <= lx < localX && localSpace[ly][lx] != 0 ==>
                    grid[GridIndexForCoordinate(width, height, Coordinate(coordinate.x + lx, coordinate.y + ly))].reward.None?
      {
        for localY := 0 to rewardHeight
          invariant forall ly, lx :: 0 <= ly < rewardHeight && 0 <= lx < localX && localSpace[ly][lx] != 0 ==>
                      grid[GridIndexForCoordinate(width, height, Coordinate(coordinate.x + lx, coordinate.y + ly))].reward.None?
          invariant forall ly :: 0 <= ly < localY && localSpace[ly][localX] != 0 ==>
                      grid[GridIndexForCoordinate(width, height, Coordinate(coordinate.x + localX, coordinate.y + ly))].reward.None?
        {
          if localSpace[localY][localX] != 0 {
            var index := GridIndexForCoordinate(width, height, Coordinate(coordinate.x + localX, coordinate.y + localY));
            if grid[index].reward.Some? {
              return false;
            }
          }
        }
      }
      return true;
    }

    /** _attemptPlaceReward: when the footprint fits, writes a fresh reward copy
        to every nonzero mask cell, column by column; otherwise changes nothing. */
    method AttemptPlaceReward(undergroundItemID: int, rewardIndex: int, coordinate: Coordinate,
                              localSpace: seq<seq<int>>, rotations: int, backgroundSpace: seq<seq<string>>)
      returns (ok: bool)
      requires Shaped() && Rectangular(localSpace) && SameShape(backgroundSpace, localSpace)
      requires 0 <= coordinate.x && 0 <= coordinate.y
      modifies grid
      ensures ok == Fits(old(grid[..]), properties.width, properties.height, coordinate, localSpace)
      ensures grid[..] == if ok then Place(old(grid[..]), properties.width, properties.height, rewardIndex, undergroundItemID,
                                           coordinate, localSpace, backgroundSpace, rotations)
                          else old(grid[..])
    {
      ok := CanPlaceReward(coordinate, localSpace);
      if !ok {
        return;
      }
      var width, height := properties.width, properties.height;
      var rewardWidth := |localSpace[0]|;
      var rewardHeight := |localSpace|;
      assert width > 0;
      ghost var g0 := grid[..];
      for localX := 0 to rewardWidth
        invariant CommittedUpTo(grid[..], g0, width, height, rewardIndex, undergroundItemID, coordinate, localSpace,
                                backgroundSpace, rotations, localX, 0)
      {
        for localY := 0 to rewardHeight
          invariant CommittedUpTo(grid[..], g0, width, height, rewardIndex, undergroundItemID, coordinate, localSpace,
                                  backgroundSpace, rotations, localX, localY)
        {
          CommitStep(grid[..], g0, width, height, rewardIndex, undergroundItemID, coordinate, localSpace,
                     backgroundSpace, rotations, localX, localY);
          if localSpace[localY][localX] != 0 {
            LocalCellAt(width, height, coordinate, localSpace, localX, localY);
            var index := GridIndexForCoordinate(width, height, Coordinate(coordinate.x + localX, coordinate.y + localY));
            grid[index] := grid[index].(reward := Some(NewReward(rewardIndex, undergroundItemID, Coordinate(localX, localY),
                                                                 backgroundSpace[localY][localX], rotations)));
          }
        }
      }
      assert grid[..] == Place(g0, width, height, rewardIndex, undergroundItemID, coordinate, localSpace, backgroundSpace, rotations);
    }

    /** survey: sets the hint of the addressed tile, and does nothing when the
        coordinate addresses no tile. */
    method Survey(coordinate: Coordinate, range: int)
      requires Valid()
      modifies grid
      ensures Valid()
      ensures match TileIndexForCoordinate(properties.width, properties.height, grid.Length, coordinate)
              case None => grid[..] == old(grid[..])
              case Some(k) => grid[..] == old(grid[..])[k := old(grid[k]).(survey := range)]
    {
      var index := TileIndexForCoordinate(properties.width, properties.height, grid.Length, coordinate);
      if index.None? {
        return;
      }
      SurveyKeepsCounters(grid[..], index.value, range);
      grid[index.value] := grid[index.value].(survey := range);
    }

    /** attemptBreakTile: refuses, changing nothing, when the coordinate
        addresses no tile or the tile is not deeper than 0; otherwise lowers the
        tile by `layers` through the clamping setter. The partially found
        counter is recomputed only when the tile reaches depth 0, which is
        enough to keep every counter equal to what the grid says. */
    method AttemptBreakTile(coordinate: Coordinate, layers: int := 1) returns (ok: bool)
      requires Valid()
      modifies grid, this`itemsPartiallyFound
      ensures Valid()
      ensures var index := TileIndexForCoordinate(properties.width, properties.height, grid.Length, coordinate);
              && (ok <==> index.Some? && old(grid[index.value].layerDepth) > 0)
              && (ok ==> grid[..] == old(grid[..])[index.value := WithLayerDepth(old(grid[index.value]), old(grid[index.value].layerDepth) - layers)])
              && (!ok ==> grid[..] == old(grid[..]) && itemsPartiallyFound == old(itemsPartiallyFound))
    {
      var index := TileIndexForCoordinate(properties.width, properties.height, grid.Length, coordinate);
      if index.Some? && grid[index.value].layerDepth > 0 {
        var k := index.value;
        ghost var g0 := grid[..];
        grid[k] := WithLayerDepth(grid[k], grid[k].layerDepth - layers);
        assert grid[..] == g0[k := g0[k].(layerDepth := grid[k].layerDepth)];
        DepthChangeKeepsBuriedAndFound(g0, k, grid[k].layerDepth);
        if grid[k].layerDepth == 0 {
          UpdateItemsPartiallyFound();
        } else {
          DepthChangeKeepsCounters(g0, k, grid[k].layerDepth);
        }
        // the battery charge is an external side effect
        return true;
      }
      return false;
    }

    /** attemptFindItem: refuses, changing nothing, when the coordinate
        addresses no tile, the tile has no reward, is deeper than 0, is already
        collected, or any tile of its reward is not at depth 0. Otherwise every
        tile of that reward is marked collected, the found counter recomputed,
        and the item returned with the amount the collaborator chose. */
    method AttemptFindItem(coordinate: Coordinate, amount: int) returns (found: Option<FoundItem>)
      requires Valid()
      modifies grid, this`itemsFound
      ensures Valid()
      ensures var index := TileIndexForCoordinate(properties.width, properties.height, grid.Length, coordinate);
              && (found.None? <==> index.None? || !Collectable(old(grid[..]), index.value))
              && (found.None? ==> grid[..] == old(grid[..]) && itemsFound == old(itemsFound))
              && (found.Some? ==>
                    && grid[..] == MarkRewarded(old(grid[..]), old(grid[index.value].reward.value.id))
                    && found.value == FoundItem(old(grid[index.value].reward.value.undergroundItemID), amount))
    {
      var index := TileIndexForCoordinate(properties.width, properties.height, grid.Length, coordinate);
      if index.None? {
        return None;
      }
      var digTile := grid[index.value];
      if digTile.reward.None? || digTile.layerDepth > 0 || digTile.reward.value.rewarded {
        return None;
      }
      var rewardID := digTile.reward.value.id;
      // refuse unless every tile of the group is exposed
      var i := 0;
      while i < grid.Length
        invariant 0 <= i <= grid.Length
        invariant forall j :: 0 <= j < i && InGroup(grid[j], rewardID) ==> Exposed(grid[j])
      {
        if InGroup(grid[i], rewardID) && !Exposed(grid[i]) {
          return None;
        }
        i := i + 1;
      }
      ghost var g0 := grid[..];
      // mark every copy of the reward collected
      for j := 0 to grid.Length
        invariant forall m :: 0 <= m < j ==> grid[m] == MarkRewarded(g0, rewardID)[m]
        invariant forall m :: j <= m < grid.Length ==> grid[m] == g0[m]
      {
        if InGroup(grid[j], rewardID) {
          grid[j] := grid[j].(reward := Some(grid[j].reward.value.(rewarded := true)));
        }
      }
      assert grid[..] == MarkRewarded(g0, rewardID);
      MarkKeepsBuriedAndPartial(g0, rewardID);
      UpdateItemsFound();
      // the treasure-scanner use and the statistics increment are external
      return Some(FoundItem(digTile.reward.value.undergroundItemID, amount));
    }

    /** attemptCompleteLayer: fires exactly when the mine is not completed yet,
        something is buried and everything buried is found; fired once, it
        never fires again. When it fires, every buried reward has been found. */
    method AttemptCompleteLayer() returns (ok: bool)
      modifies this`completed
      ensures ok == (!old(completed) && itemsBuried > 0 && itemsFound == itemsBuried)
      ensures completed == (old(completed) || ok)
      ensures old(completed) ==> !ok
      ensures old(Valid()) ==> Valid()
      ensures ok && Valid() ==> FoundIds(grid[..]) == BuriedIds(grid[..])
    {
      if !completed && itemsBuried > 0 && itemsFound == itemsBuried {
        completed := true;
        if Valid() {
          AllFoundWhenCountsMatch(grid[..]);
        }
        // the layer statistics and the explosive-charge use are external
        return true;
      }
      return false;
    }

    /** _updateItemsBuriedObservable */
    method UpdateItemsBuried()
      modifies this`itemsBuried
      ensures itemsBuried == ItemsBuried(grid[..])
    {
      itemsBuried := ItemsBuried(grid[..]);
    }

    /** _updateItemsFoundObservable */
    method UpdateItemsFound()
      modifies this`itemsFound
      ensures itemsFound == ItemsFound(grid[..])
    {
      itemsFound := ItemsFound(grid[..]);
    }

    /** _updateItemsPartiallyFoundObservable */
    method UpdateItemsPartiallyFound()
      modifies this`itemsPartiallyFound
      ensures itemsPartiallyFound == ItemsPartiallyFound(grid[..])
    {
      itemsPartiallyFound := ItemsPartiallyFound(grid[..]);
    }

    /** save: the properties, every tile in index order, the timer and the
        completion flag. */
    function Save(): (s: MineSave)
      reads this, grid
      ensures s.timeUntilDiscovery.Some? && s.completed.Some?
    {
      MineSave(properties, grid[..], Some(timeUntilDiscovery), Some(completed))
    }

    /** load: rebuilds the grid in index order, restores the timer (falling
        back to the configured time) and the completion flag (defaulting to
        false), and derives the counters from the rebuilt grid. */
    constructor Load(s: MineSave)
      ensures properties == s.properties && fresh(grid) && grid[..] == s.grid
      ensures timeUntilDiscovery == RestoredTimeUntilDiscovery(s.timeUntilDiscovery, s.properties.timeToDiscover)
      ensures completed == RestoredCompleted(s.completed)
      ensures Valid()
    {
      properties := s.properties;
      grid := new Tile[|s.grid|](i requires 0 <= i < |s.grid| => s.grid[i]);
      timeUntilDiscovery := RestoredTimeUntilDiscovery(s.timeUntilDiscovery, s.properties.timeToDiscover);
      completed := RestoredCompleted(s.completed);
      itemsBuried, itemsFound, itemsPartiallyFound := 0, 0, 0;
      new;
      UpdateItemsBuried();
      UpdateItemsFound();
      UpdateItemsPartiallyFound();
    }
  }

  /** `load(save(m))` reproduces the properties, every tile, the completion
      flag and (derived anew) the three counters of `m`, in a grid of its own;
      the timer comes back unchanged unless it stood at exactly 0, in which
      case it is reset to the configured time to discover. */
  method SaveThenLoad(m: Mine) returns (copy: Mine)
    requires m.Valid()
    ensures copy.properties == m.properties && copy.grid != m.grid
    ensures copy.grid[..] == m.grid[..]
    ensures copy.completed == m.completed
    ensures copy.timeUntilDiscovery == if m.timeUntilDiscovery != 0.0 then m.timeUntilDiscovery else m.properties.timeToDiscover
    ensures copy.itemsBuried == m.itemsBuried && copy.itemsFound == m.itemsFound
    ensures copy.itemsPartiallyFound == m.itemsPartiallyFound
    ensures copy.Valid()
  {
    copy := new Mine.Load(m.Save());
  }
}
