/** Where generation puts treasure: the fit test for one footprint, the grid
    after committing one footprint, the bounded retry for one reward index, and
    the whole placement phase, all as functions of the grid and of the random
    draws (which are inputs here). */
module Placement {
  import opened MineTypes
  import opened GridIndex

  /** Nonempty and every row as long as the first. */
  predicate Rectangular<T>(m: seq<seq<T>>) {
    |m| > 0 && forall r :: 0 <= r < |m| ==> |m[r]| == |m[0]|
  }

  predicate SameShape<T, U>(a: seq<seq<T>>, b: seq<seq<U>>) {
    |a| == |b| && forall r :: 0 <= r < |a| ==> |a[r]| == |b[r]|
  }

  /** One try of the retry loop: the drawn rotation count, the item's mask and
      its background-position matrix after that rotation, and the drawn origin. */
  datatype PlacementAttempt = PlacementAttempt(
    rotations: int,
    localSpace: seq<seq<int>>,
    backgroundSpace: seq<seq<string>>,
    coordinate: Coordinate)

  /** What one reward index draws: the item (by id) and its stream of tries. */
  datatype RewardDraw = RewardDraw(undergroundItemID: int, attempts: seq<PlacementAttempt>)

  /** The ranges the random draws come from: a rotation count below 4, and an
      origin column below the width and row below the height. On a board
      of width or height 0 that draw is 0, so the origin is only required to
      be non-negative, and inside the board whenever the board has room. */
  predicate ValidAttempt(a: PlacementAttempt, width: nat, height: nat) {
    && 0 <= a.rotations < 4
    && Rectangular(a.localSpace)
    && SameShape(a.backgroundSpace, a.localSpace)
    && 0 <= a.coordinate.x && (width > 0 ==> a.coordinate.x < width)
    && 0 <= a.coordinate.y && (height > 0 ==> a.coordinate.y < height)
  }

  predicate ValidDraw(d: RewardDraw, width: nat, height: nat) {
    && |d.attempts| >= MaximumPlacementAttempts
    && forall k :: 0 <= k < |d.attempts| ==> ValidAttempt(d.attempts[k], width, height)
  }

  /** _canPlaceReward: the grid is nonempty, the footprint stays inside the grid,
      and no nonzero mask cell lands on a tile that already holds a reward. */
  predicate Fits(g: seq<Tile>, width: nat, height: nat, c: Coordinate, space: seq<seq<int>>)
    requires |g| == width * height && Rectangular(space) && 0 <= c.x && 0 <= c.y
  {
    && |g| > 0
    && c.x + |space[0]| <= width
    && c.y + |space| <= height
    && forall ly, lx :: 0 <= ly < |space| && 0 <= lx < |space[0]| && space[ly][lx] != 0 ==>
         g[GridIndexForCoordinate(width, height, Coordinate(c.x + lx, c.y + ly))].reward.None?
  }

  /** The mask cell that grid index `i` falls on, when it is a nonzero cell of
      the footprint placed at `c`. */
  function LocalCell(width: nat, c: Coordinate, space: seq<seq<int>>, i: nat): Option<Coordinate>
    requires width > 0 && Rectangular(space)
  {
    var lx := i % width - c.x;
    var ly := i / width - c.y;
    if 0 <= lx < |space[0]| && 0 <= ly < |space| && space[ly][lx] != 0 then Some(Coordinate(lx, ly)) else None
  }

  /** The reward copy committed to the tile under mask cell `local`. */
  function NewReward(rewardIndex: int, itemID: int, local: Coordinate, background: string, rotations: int): Reward {
    Reward(rewardIndex, itemID, local, background, rotations, false)
  }

  /** The grid after _attemptPlaceReward commits a footprint. */
  function Place(g: seq<Tile>, width: nat, height: nat, rewardIndex: int, itemID: int,
                 c: Coordinate, space: seq<seq<int>>, backgrounds: seq<seq<string>>, rotations: int): seq<Tile>
    requires |g| == width * height && Rectangular(space) && SameShape(backgrounds, space)
  {
    seq(|g|, i requires 0 <= i < |g| =>
      match LocalCell(width, c, space, i)
      case None => g[i]
      case Some(l) => g[i].(reward := Some(NewReward(rewardIndex, itemID, l, backgrounds[l.y][l.x], rotations))))
  }

  /** The grid index of mask cell (lx, ly) of a footprint at `c` that fits
      inside the grid, and the mask cell that index falls back on. */
  lemma {:induction false} LocalCellAt(width: nat, height: nat, c: Coordinate, space: seq<seq<int>>, lx: int, ly: int)
    requires Rectangular(space) && 0 <= c.x && 0 <= c.y
    requires c.x + |space[0]| <= width && c.y + |space| <= height
    requires 0 <= lx < |space[0]| && 0 <= ly < |space|
    ensures GridIndexForCoordinate(width, height, Coordinate(c.x + lx, c.y + ly)) == (c.y + ly) * width + c.x + lx
    ensures 0 <= (c.y + ly) * width + c.x + lx < width * height
    ensures LocalCell(width, c, space, (c.y + ly) * width + c.x + lx) ==
              if space[ly][lx] != 0 then Some(Coordinate(lx, ly)) else None
  {
    IndexSplits(c.x + lx, c.y + ly, width);
  }

  /** An index that falls on mask cell `l` is that cell's grid index, so no
      two indices fall on the same cell. */
  lemma {:induction false} LocalCellIndex(width: nat, c: Coordinate, space: seq<seq<int>>, i: nat)
    requires width > 0 && Rectangular(space)
    requires LocalCell(width, c, space, i).Some?
    ensures i == (c.y + LocalCell(width, c, space, i).value.y) * width + c.x + LocalCell(width, c, space, i).value.x
  {
    assert i == (i / width) * width + i % width;
  }

  /** Every nonzero mask cell of a committed footprint receives its reward
      copy: this reward index and item, its local coordinate, the background
      position of that cell, the rotation count, not collected. */
  lemma {:induction false} PlaceWritesMask(g: seq<Tile>, width: nat, height: nat, rewardIndex: int, itemID: int,
                                           c: Coordinate, space: seq<seq<int>>, backgrounds: seq<seq<string>>, rotations: int)
    requires |g| == width * height && Rectangular(space) && SameShape(backgrounds, space) && 0 <= c.x && 0 <= c.y
    requires Fits(g, width, height, c, space)
    ensures forall ly, lx :: 0 <= ly < |space| && 0 <= lx < |space[0]| && space[ly][lx] != 0 ==>
              (c.y + ly) * width + c.x + lx < |g| &&
              Place(g, width, height, rewardIndex, itemID, c, space, backgrounds, rotations)[(c.y + ly) * width + c.x + lx] ==
              g[(c.y + ly) * width + c.x + lx].(reward := Some(NewReward(rewardIndex, itemID, Coordinate(lx, ly), backgrounds[ly][lx], rotations)))
  {
    forall ly, lx | 0 <= ly < |space| && 0 <= lx < |space[0]| && space[ly][lx] != 0
      ensures (c.y + ly) * width + c.x + lx < |g| &&
              Place(g, width, height, rewardIndex, itemID, c, space, backgrounds, rotations)[(c.y + ly) * width + c.x + lx] ==
              g[(c.y + ly) * width + c.x + lx].(reward := Some(NewReward(rewardIndex, itemID, Coordinate(lx, ly), backgrounds[ly][lx], rotations)))
    {
      LocalCellAt(width, height, c, space, lx, ly);
    }
  }

  /** Committing a footprint that fits changes only tiles that held no reward,
      each of them on a nonzero mask cell at the origin plus the local
      coordinate its new reward records; depths and survey hints stay. */
  lemma {:induction false} PlaceTouchesOnlyMask(g: seq<Tile>, width: nat, height: nat, rewardIndex: int, itemID: int,
                                                c: Coordinate, space: seq<seq<int>>, backgrounds: seq<seq<string>>, rotations: int)
    requires |g| == width * height && Rectangular(space) && SameShape(backgrounds, space) && 0 <= c.x && 0 <= c.y
    requires Fits(g, width, height, c, space)
    ensures forall i :: 0 <= i < |g| && g[i].reward.Some? ==>
              Place(g, width, height, rewardIndex, itemID, c, space, backgrounds, rotations)[i] == g[i]
    ensures forall i :: 0 <= i < |g| && Place(g, width, height, rewardIndex, itemID, c, space, backgrounds, rotations)[i] != g[i] ==>
              OnMask(Place(g, width, height, rewardIndex, itemID, c, space, backgrounds, rotations)[i], width, c, space, i)
    ensures forall i :: 0 <= i < |g| ==>
              Place(g, width, height, rewardIndex, itemID, c, space, backgrounds, rotations)[i].layerDepth == g[i].layerDepth &&
              Place(g, width, height, rewardIndex, itemID, c, space, backgrounds, rotations)[i].survey == g[i].survey
  {
    var p := Place(g, width, height, rewardIndex, itemID, c, space, backgrounds, rotations);
    forall i | 0 <= i < |g| && LocalCell(width, c, space, i).Some?
      ensures g[i].reward.None? && OnMask(p[i], width, c, space, i)
    {
      LocalCellIndex(width, c, space, i);
      var l := LocalCell(width, c, space, i).value;
      LocalCellAt(width, height, c, space, l.x, l.y);
    }
  }

  /** Tile `t` at index `i` holds a reward whose local coordinate is a nonzero
      cell of `space`, and `i` is the origin `c` plus that coordinate. */
  predicate OnMask(t: Tile, width: nat, c: Coordinate, space: seq<seq<int>>, i: int)
    requires Rectangular(space)
  {
    && t.reward.Some?
    && var l := t.reward.value.localCoordinate;
    && 0 <= l.y < |space| && 0 <= l.x < |space[0]| && space[l.y][l.x] != 0
    && i == (c.y + l.y) * width + c.x + l.x
  }

  /** Index `i` falls on a nonzero mask cell that the column-by-column,
      row-by-row commit loop has already written when it stands at column
      `lx`, row `ly`. */
  ghost predicate WrittenBefore(width: nat, c: Coordinate, space: seq<seq<int>>, i: nat, lx: int, ly: int)
    requires width > 0 && Rectangular(space)
  {
    && LocalCell(width, c, space, i).Some?
    && var l := LocalCell(width, c, space, i).value;
    && (l.x < lx || (l.x == lx && l.y < ly))
  }

  /** The commit loop of _attemptPlaceReward, standing at column `lx`, row
      `ly`, has written exactly the mask cells before that position. */
  ghost predicate CommittedUpTo(cur: seq<Tile>, g0: seq<Tile>, width: nat, height: nat, rewardIndex: int, itemID: int,
                                c: Coordinate, space: seq<seq<int>>, backgrounds: seq<seq<string>>, rotations: int,
                                lx: int, ly: int)
    requires |g0| == width * height && width > 0 && Rectangular(space) && SameShape(backgrounds, space)
  {
    && |cur| == |g0|
    && forall i :: 0 <= i < |g0| ==>
         cur[i] == if WrittenBefore(width, c, space, i, lx, ly)
                   then Place(g0, width, height, rewardIndex, itemID, c, space, backgrounds, rotations)[i]
                   else g0[i]
  }

  /** One step of the commit loop: writing mask cell (lx, ly), when it is
      nonzero, moves the loop on to the next row. */
  lemma {:induction false} CommitStep(cur: seq<Tile>, g0: seq<Tile>, width: nat, height: nat, rewardIndex: int, itemID: int,
                                      c: Coordinate, space: seq<seq<int>>, backgrounds: seq<seq<string>>, rotations: int,
                                      lx: int, ly: int)
    requires |g0| == width * height && width > 0 && Rectangular(space) && SameShape(backgrounds, space)
    requires 0 <= c.x && 0 <= c.y && c.x + |space[0]| <= width && c.y + |space| <= height
    requires 0 <= lx < |space[0]| && 0 <= ly < |space|
    requires CommittedUpTo(cur, g0, width, height, rewardIndex, itemID, c, space, backgrounds, rotations, lx, ly)
    ensures space[ly][lx] == 0 ==>
              CommittedUpTo(cur, g0, width, height, rewardIndex, itemID, c, space, backgrounds, rotations, lx, ly + 1)
    ensures space[ly][lx] != 0 ==>
              var k := (c.y + ly) * width + c.x + lx;
              && 0 <= k < |cur|
              && CommittedUpTo(cur[k := cur[k].(reward := Some(NewReward(rewardIndex, itemID, Coordinate(lx, ly), backgrounds[ly][lx], rotations)))],
                               g0, width, height, rewardIndex, itemID, c, space, backgrounds, rotations, lx, ly + 1)
  {
    LocalCellAt(width, height, c, space, lx, ly);
    var k := (c.y + ly) * width + c.x + lx;
    var p := Place(g0, width, height, rewardIndex, itemID, c, space, backgrounds, rotations);
    forall i | 0 <= i < |g0| && LocalCell(width, c, space, i).Some?
      ensures i == (c.y + LocalCell(width, c, space, i).value.y) * width + c.x + LocalCell(width, c, space, i).value.x
    {
      LocalCellIndex(width, c, space, i);
    }
    if space[ly][lx] != 0 {
      var next := cur[k := cur[k].(reward := Some(NewReward(rewardIndex, itemID, Coordinate(lx, ly), backgrounds[ly][lx], rotations)))];
      assert !WrittenBefore(width, c, space, k, lx, ly);
      assert next[k] == p[k];
      forall i | 0 <= i < |g0| && i != k
        ensures WrittenBefore(width, c, space, i, lx, ly + 1) == WrittenBefore(width, c, space, i, lx, ly)
      {
      }
    }
  }

  /** The retry loop for reward index `rewardIndex`, from try `k` on: the first
      try (below the attempt budget) whose footprint fits is committed; when
      none fits, the grid is left as it is. */
  function TryPlace(g: seq<Tile>, width: nat, height: nat, rewardIndex: int, d: RewardDraw, k: nat): (r: seq<Tile>)
    requires |g| == width * height && ValidDraw(d, width, height) && k <= MaximumPlacementAttempts
    ensures |r| == |g|
    decreases MaximumPlacementAttempts - k
  {
    if k == MaximumPlacementAttempts then g
    else
      var a := d.attempts[k];
      if Fits(g, width, height, a.coordinate, a.localSpace)
      then Place(g, width, height, rewardIndex, d.undergroundItemID, a.coordinate, a.localSpace, a.backgroundSpace, a.rotations)
      else TryPlace(g, width, height, rewardIndex, d, k + 1)
  }

  /** The placement phase: every reward index in turn, each on the grid the
      previous ones left behind. */
  function PlaceAll(g: seq<Tile>, width: nat, height: nat, draws: seq<RewardDraw>): (r: seq<Tile>)
    requires |g| == width * height
    requires forall n :: 0 <= n < |draws| ==> ValidDraw(draws[n], width, height)
    ensures |r| == |g|
    decreases |draws|
  {
    if draws == [] then g
    else TryPlace(PlaceAll(g, width, height, draws[..|draws| - 1]), width, height, |draws| - 1, draws[|draws| - 1], 0)
  }

  /** The retry loop reads no try past the attempt budget: cutting the stream
      of tries down to MAXIMUM_PLACEMENT_ATTEMPTS changes nothing. */
  lemma {:induction false} TryPlaceUsesBudgetOnly(g: seq<Tile>, width: nat, height: nat, rewardIndex: int, d: RewardDraw, k: nat)
    requires |g| == width * height && ValidDraw(d, width, height) && k <= MaximumPlacementAttempts
    ensures ValidDraw(d.(attempts := d.attempts[..MaximumPlacementAttempts]), width, height)
    ensures TryPlace(g, width, height, rewardIndex, d, k) ==
            TryPlace(g, width, height, rewardIndex, d.(attempts := d.attempts[..MaximumPlacementAttempts]), k)
    decreases MaximumPlacementAttempts - k
  {
    var cut := d.(attempts := d.attempts[..MaximumPlacementAttempts]);
    assert ValidDraw(cut, width, height);
    if k < MaximumPlacementAttempts {
      assert cut.attempts[k] == d.attempts[k];
      TryPlaceUsesBudgetOnly(g, width, height, rewardIndex, d, k + 1);
    }
  }

  /** The retry loop commits the first fitting try within the budget, and
      silently gives up when no try within the budget fits. */
  lemma {:induction false} TryPlaceFirstFit(g: seq<Tile>, width: nat, height: nat, rewardIndex: int, d: RewardDraw, k: nat, j: nat)
    requires |g| == width * height && ValidDraw(d, width, height) && k <= j <= MaximumPlacementAttempts
    requires forall m :: k <= m < j ==> !Fits(g, width, height, d.attempts[m].coordinate, d.attempts[m].localSpace)
    ensures j == MaximumPlacementAttempts ==> TryPlace(g, width, height, rewardIndex, d, k) == g
    ensures j < MaximumPlacementAttempts && Fits(g, width, height, d.attempts[j].coordinate, d.attempts[j].localSpace) ==>
              TryPlace(g, width, height, rewardIndex, d, k) ==
              Place(g, width, height, rewardIndex, d.undergroundItemID, d.attempts[j].coordinate, d.attempts[j].localSpace,
                    d.attempts[j].backgroundSpace, d.attempts[j].rotations)
    decreases j - k
  {
    if k < j {
      TryPlaceFirstFit(g, width, height, rewardIndex, d, k + 1, j);
    }
  }

  /** What one reward index leaves behind: depths and hints untouched, rewards
      already in the grid untouched, and every new reward copy carrying this
      index and this item, not yet collected. */
  lemma {:induction false} TryPlaceKeepsGrid(g: seq<Tile>, width: nat, height: nat, rewardIndex: int, d: RewardDraw, k: nat)
    requires |g| == width * height && ValidDraw(d, width, height) && k <= MaximumPlacementAttempts
    ensures forall i :: 0 <= i < |g| ==>
              TryPlace(g, width, height, rewardIndex, d, k)[i].layerDepth == g[i].layerDepth &&
              TryPlace(g, width, height, rewardIndex, d, k)[i].survey == g[i].survey
    ensures forall i :: 0 <= i < |g| && g[i].reward.Some? ==> TryPlace(g, width, height, rewardIndex, d, k)[i] == g[i]
    ensures forall i :: 0 <= i < |g| && TryPlace(g, width, height, rewardIndex, d, k)[i] != g[i] ==>
              TryPlace(g, width, height, rewardIndex, d, k)[i].reward.Some? &&
              TryPlace(g, width, height, rewardIndex, d, k)[i].reward.value.id == rewardIndex &&
              TryPlace(g, width, height, rewardIndex, d, k)[i].reward.value.undergroundItemID == d.undergroundItemID &&
              !TryPlace(g, width, height, rewardIndex, d, k)[i].reward.value.rewarded
    decreases MaximumPlacementAttempts - k
  {
    if k < MaximumPlacementAttempts {
      var a := d.attempts[k];
      if Fits(g, width, height, a.coordinate, a.localSpace) {
        PlaceTouchesOnlyMask(g, width, height, rewardIndex, d.undergroundItemID, a.coordinate, a.localSpace, a.backgroundSpace, a.rotations);
      } else {
        TryPlaceKeepsGrid(g, width, height, rewardIndex, d, k + 1);
      }
    }
  }

  /** The whole placement phase: depths and hints untouched, rewards already
      in the grid untouched, and every new reward copy carrying a reward index
      below the number of draws, the item drawn for that index, not collected. */
  lemma {:induction false} PlaceAllKeepsGrid(g: seq<Tile>, width: nat, height: nat, draws: seq<RewardDraw>)
    requires |g| == width * height
    requires forall n :: 0 <= n < |draws| ==> ValidDraw(draws[n], width, height)
    ensures forall i :: 0 <= i < |g| ==>
              PlaceAll(g, width, height, draws)[i].layerDepth == g[i].layerDepth &&
              PlaceAll(g, width, height, draws)[i].survey == g[i].survey
    ensures forall i :: 0 <= i < |g| && g[i].reward.Some? ==> PlaceAll(g, width, height, draws)[i] == g[i]
    ensures forall i :: 0 <= i < |g| && PlaceAll(g, width, height, draws)[i] != g[i] ==>
              var rw := PlaceAll(g, width, height, draws)[i].reward;
              rw.Some? && 0 <= rw.value.id < |draws| && rw.value.undergroundItemID == draws[rw.value.id].undergroundItemID &&
              !rw.value.rewarded
    decreases |draws|
  {
    if draws != [] {
      var n := |draws| - 1;
      var prefix := draws[..n];
      var before := PlaceAll(g, width, height, prefix);
      PlaceAllKeepsGrid(g, width, height, prefix);
      TryPlaceKeepsGrid(before, width, height, n, draws[n], 0);
      forall i | 0 <= i < |g| && PlaceAll(g, width, height, draws)[i] != g[i]
        ensures var rw := PlaceAll(g, width, height, draws)[i].reward;
                rw.Some? && 0 <= rw.value.id < |draws| && rw.value.undergroundItemID == draws[rw.value.id].undergroundItemID &&
                !rw.value.rewarded
      {
        if before[i] == g[i] {
        } else {
          assert draws[before[i].reward.value.id] == prefix[before[i].reward.value.id];
        }
      }
    }
  }
}
