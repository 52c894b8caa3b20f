/** A two-tile mine followed from generation to completion: one item whose
    footprint `[[1, 1]]` covers the whole 2 x 1 grid, each tile one layer deep. */
module MineScenario {
  import opened MineTypes
  import opened GridIndex
  import opened Counters
  import opened Discovery
  import opened Placement
  import opened MineEngine

  function Properties(): MineProperties {
    MineProperties(2, 1, Some(1), Some(0), 1, 0, 10.0, Some(MineConfig(None, 0)))
  }

  function Draw(): RewardDraw {
    RewardDraw(7, seq(MaximumPlacementAttempts, _ => PlacementAttempt(0, [[1, 1]], [["0.00% 0.00%", "100.00% 0.00%"]], Coordinate(0, 0))))
  }

  function Copy(x: int, rewarded: bool): Reward {
    Reward(0, 7, Coordinate(x, 0), if x == 0 then "0.00% 0.00%" else "100.00% 0.00%", 0, rewarded)
  }

  /** The first try fits, so both tiles receive a copy of reward 0. */
  lemma {:induction false} Placed()
    ensures PlaceAll(InitialGrid(Properties(), [0, 0]), 2, 1, [Draw()]) == Grid(1, 1, false)
  {
    var g0 := InitialGrid(Properties(), [0, 0]);
    assert g0 == [Tile(1, None, -1), Tile(1, None, -1)];
    var space := [[1, 1]];
    assert Fits(g0, 2, 1, Coordinate(0, 0), space);
    assert LocalCell(2, Coordinate(0, 0), space, 0) == Some(Coordinate(0, 0));
    assert LocalCell(2, Coordinate(0, 0), space, 1) == Some(Coordinate(1, 0));
    assert [Draw()][..0] == [];
    assert PlaceAll(g0, 2, 1, [Draw()]) == TryPlace(g0, 2, 1, 0, Draw(), 0);
  }

  /** The scenario's grid: both tiles carry a copy of reward 0. */
  function Grid(d0: int, d1: int, rewarded: bool): seq<Tile> {
    [Tile(d0, Some(Copy(0, rewarded)), -1), Tile(d1, Some(Copy(1, rewarded)), -1)]
  }

  lemma {:induction false} Counted(d0: int, d1: int, rewarded: bool)
    ensures BuriedIds(Grid(d0, d1, rewarded)) == {0}
    ensures FoundIds(Grid(d0, d1, rewarded)) == if rewarded then {0} else {}
    ensures PartiallyFoundIds(Grid(d0, d1, rewarded)) == if d0 == 0 || d1 == 0 then {0} else {}
  {
    var g := Grid(d0, d1, rewarded);
    forall id ensures id in BuriedIds(g) <==> id == 0 {
      CountedIds(g, id);
      assert g[0].reward.Some? && g[0].reward.value.id == 0;
    }
    forall id ensures id in FoundIds(g) <==> rewarded && id == 0 {
      CountedIds(g, id);
      assert g[0].reward.Some? && g[0].reward.value.id == 0;
    }
    forall id ensures id in PartiallyFoundIds(g) <==> (d0 == 0 || d1 == 0) && id == 0 {
      CountedIds(g, id);
      if d0 == 0 {
        assert g[0].reward.Some? && g[0].reward.value.id == 0 && Exposed(g[0]);
      } else if d1 == 0 {
        assert g[1].reward.Some? && g[1].reward.value.id == 0 && Exposed(g[1]);
      }
    }
  }

  /** Generation buries the one item under both tiles and finds nothing. */
  method Generated() returns (mine: Mine)
    ensures fresh(mine) && fresh(mine.grid) && mine.Valid() && mine.properties == Properties()
    ensures mine.grid[..] == Grid(1, 1, false)
    ensures mine.itemsBuried == 1 && mine.itemsFound == 0 && !mine.completed
  {
    mine := new Mine(Properties());
    mine.Generate([0, 0], 0, [Draw()]);
    Placed();
    Counted(1, 1, false);
  }

  /** Digging the first tile exposes it; one exposed tile is enough for the
      partially found counter, but the reward cannot be collected yet. */
  method DigFirst(mine: Mine)
    requires mine.Valid() && mine.properties == Properties() && mine.grid[..] == Grid(1, 1, false)
    modifies mine.grid, mine`itemsPartiallyFound, mine`itemsFound
    ensures mine.Valid() && mine.grid[..] == Grid(0, 1, false)
    ensures mine.itemsPartiallyFound == 1 && mine.itemsFound == 0
  {
    var ok := mine.AttemptBreakTile(Coordinate(0, 0), 1);
    assert mine.grid[..] == Grid(0, 1, false);
    Counted(0, 1, false);
    var found := mine.AttemptFindItem(Coordinate(0, 0), 1);
    assert Grid(0, 1, false)[1].layerDepth == 1;
    assert !Collectable(Grid(0, 1, false), 0);
    assert mine.grid[..] == Grid(0, 1, false);
  }

  /** Digging the second tile exposes the whole footprint: collecting now
      yields the item once, and a second attempt from the other tile fails. */
  method DigSecond(mine: Mine) returns (found: Option<FoundItem>)
    requires mine.Valid() && mine.properties == Properties() && mine.grid[..] == Grid(0, 1, false)
    modifies mine.grid, mine`itemsPartiallyFound, mine`itemsFound
    ensures mine.Valid() && mine.grid[..] == Grid(0, 0, true)
    ensures found == Some(FoundItem(7, 1)) && mine.itemsFound == 1
  {
    var ok := mine.AttemptBreakTile(Coordinate(1, 0));  // one layer, the default
    assert mine.grid[..] == Grid(0, 0, false);
    found := mine.AttemptFindItem(Coordinate(0, 0), 1);
    assert Collectable(Grid(0, 0, false), 0);
    assert MarkRewarded(Grid(0, 0, false), 0) == Grid(0, 0, true);
    Counted(0, 0, true);
    var again := mine.AttemptFindItem(Coordinate(1, 0), 1);
    assert !Collectable(Grid(0, 0, true), 1);
  }

  /** The whole walk: the layer completes once, and only once. */
  method TwoTileMine() returns (mine: Mine)
    ensures mine.completed && mine.itemsBuried == 1 && mine.itemsFound == 1
  {
    mine := Generated();
    DigFirst(mine);
    var found := DigSecond(mine);
    Counted(0, 0, true);
    var completedNow := mine.AttemptCompleteLayer();
    assert completedNow;
    completedNow := mine.AttemptCompleteLayer();
    assert !completedNow;
  }

  /** A coordinate left of the grid addresses no tile: digging there fails and
      changes nothing. */
  method DigOutsideGrid(mine: Mine) returns (ok: bool)
    requires mine.Valid()
    modifies mine.grid, mine`itemsPartiallyFound
    ensures !ok && mine.grid[..] == old(mine.grid[..])
  {
    ok := mine.AttemptBreakTile(Coordinate(-1, 0), 1);
  }
}
