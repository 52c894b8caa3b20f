/** Row-major addressing of the mine grid: the tile at column `x`, row `y`
    of a grid `width` tiles wide lives at index `y * width + x`. */
module GridIndex {
  import opened MineTypes

  lemma MulAtLeast(a: int, w: int)
    requires a >= 1 && w > 0
    ensures a * w >= w
  {
  }

  lemma MulCancelLess(a: int, b: int, w: int)
    requires w > 0 && a * w < b * w
    ensures a < b
  {
  }

  /** Euclidean division recovers the row and column of a row-major index. */
  lemma IndexSplits(x: int, y: int, w: int)
    requires 0 <= x < w && 0 <= y
    ensures (y * w + x) % w == x && (y * w + x) / w == y
  {
    var i := y * w + x;
    var q, r := i / w, i % w;
    assert i == q * w + r;
    assert (y - q) * w == r - x;
    if y - q >= 1 { MulAtLeast(y - q, w); }
    if q - y >= 1 { assert (q - y) * w == x - r; MulAtLeast(q - y, w); }
  }

  /** A row below `height` and a column below `width` address a tile of a
      `width * height` grid. */
  lemma IndexInGrid(x: int, y: int, width: nat, height: nat)
    requires 0 <= x < width && 0 <= y < height
    ensures 0 <= y * width + x < width * height
  {
    MulAtLeast(height - y, width);
    assert (height - y) * width == height * width - y * width;
  }

  predicate InBounds(width: nat, height: nat, c: Coordinate) {
    0 <= c.x < width && 0 <= c.y < height
  }

  /** getGridIndexForCoordinate: -1 exactly for a coordinate outside the grid,
      otherwise the row-major index, which lies inside `[0, width * height)`. */
  function GridIndexForCoordinate(width: nat, height: nat, c: Coordinate): (index: int)
    ensures index == -1 <==> !InBounds(width, height, c)
    ensures index != -1 ==> 0 <= index < width * height && index == c.y * width + c.x
  {
    if c.x < 0 || c.y < 0 then -1
    else if c.x >= width || c.y >= height then -1
    else
      IndexInGrid(c.x, c.y, width, height);
      c.y * width + c.x
  }

  /** getCoordinateForGridIndex: null outside `[0, gridLength)`, otherwise the
      column and row of the index. A nonempty grid of width 0 would divide by
      zero (NaN in the original), so it is excluded. */
  function CoordinateForGridIndex(width: nat, gridLength: nat, index: int): (c: Option<Coordinate>)
    requires width > 0 || gridLength == 0
    ensures c.Some? <==> 0 <= index < gridLength
    ensures c.Some? ==> 0 <= c.value.x < width && 0 <= c.value.y && c.value.y * width + c.value.x == index
  {
    if index < 0 || index >= gridLength then None
    else Some(Coordinate(index % width, index / width))
  }

  /** getCoordinateForGridIndex inverts getGridIndexForCoordinate on every
      in-range index of a `width * height` grid ... */
  lemma {:induction false} CoordinateThenIndex(width: nat, height: nat, index: int)
    requires 0 <= index < width * height
    ensures CoordinateForGridIndex(width, width * height, index).Some?
    ensures GridIndexForCoordinate(width, height, CoordinateForGridIndex(width, width * height, index).value) == index
  {
    var c := CoordinateForGridIndex(width, width * height, index).value;
    MulCancelLess(c.y, height, width);
  }

  /** ... and getGridIndexForCoordinate inverts getCoordinateForGridIndex on
      every coordinate inside the grid. */
  lemma {:induction false} IndexThenCoordinate(width: nat, height: nat, c: Coordinate)
    requires InBounds(width, height, c)
    ensures CoordinateForGridIndex(width, width * height, GridIndexForCoordinate(width, height, c)) == Some(c)
  {
    IndexSplits(c.x, c.y, width);
  }

  /** getTileForCoordinate, as the index of the tile it returns: none when the
      coordinate is outside the grid or past the end of the array. */
  function TileIndexForCoordinate(width: nat, height: nat, gridLength: nat, c: Coordinate): (r: Option<nat>)
    ensures r.Some? <==> InBounds(width, height, c) && c.y * width + c.x < gridLength
    ensures r.Some? ==> r.value == c.y * width + c.x && r.value < gridLength
  {
    var index := GridIndexForCoordinate(width, height, c);
    if index < 0 || index >= gridLength then None else Some(index)
  }
}
