/** The tile map of the renderer and its collision oracle `hasWallAt`.
    The map is built once and never written afterwards, so it is a value here. */
module Grid {

  const TILE_SIZE: int := 64
  const MAP_NUM_ROWS: int := 11
  const MAP_NUM_COLS: int := 15

  const WINDOW_WIDTH: int := MAP_NUM_COLS * TILE_SIZE
  const WINDOW_HEIGHT: int := MAP_NUM_ROWS * TILE_SIZE

  /** The largest collision radius for which a well-formed map never throws (half a tile). */
  const MAX_SAFE_RADIUS: real := TILE_SIZE as real / 2.0

  /** What JavaScript yields for `grid[row][col]` once `grid[row]` exists:
      a number, or `undefined` when the column is past either end of the row. */
  datatype Slot = Number(n: int) | Undefined

  /** A computation that may raise: indexing a column of a row that does not exist
      (`undefined[col]`) throws a TypeError in JavaScript. */
  datatype Result<T> = Ok(value: T) | TypeError

  /** JavaScript's `slot == 1`: only the number 1 is a wall; `undefined == 1` is false. */
  predicate IsWall(s: Slot)
  {
    s == Number(1)
  }

  /** The tile index of a world coordinate, `Math.floor(p / TILE_SIZE)`:
      the unique tile whose span contains `p`. */
  function CellIndex(p: real): (k: int)
    ensures k as real * TILE_SIZE as real <= p < (k + 1) as real * TILE_SIZE as real
  {
    (p / TILE_SIZE as real).Floor
  }

  /** Tile (row, col) covers the point (px, py): its half-open square contains it. */
  predicate CellSpans(row: int, col: int, px: real, py: real)
  {
    && col as real * TILE_SIZE as real <= px < (col + 1) as real * TILE_SIZE as real
    && row as real * TILE_SIZE as real <= py < (row + 1) as real * TILE_SIZE as real
  }

  /** Every tile of the row is a wall. */
  predicate SolidRow(tiles: seq<int>)
  {
    forall col :: 0 <= col < |tiles| ==> tiles[col] == 1
  }

  /** The square of half-width r centred at (x, y) leaves the window rectangle. */
  predicate OutsideWindow(x: real, y: real, r: real)
  {
    x - r < 0.0 || x + r > WINDOW_WIDTH as real || y - r < 0.0 || y + r > WINDOW_HEIGHT as real
  }

  /** A row-major tile map; `grid[row][col]` is the tile value (1 = wall). */
  datatype Map = Map(grid: seq<seq<int>>) {

    /** Every row exists and has MAP_NUM_COLS tiles. */
    predicate Shaped()
    {
      |grid| == MAP_NUM_ROWS && forall row :: 0 <= row < |grid| ==> |grid[row]| == MAP_NUM_COLS
    }

    /** The outermost ring of tiles is wall. */
    predicate Bordered()
      requires Shaped()
    {
      && SolidRow(grid[0])
      && SolidRow(grid[MAP_NUM_ROWS - 1])
      && (forall row :: 0 <= row < MAP_NUM_ROWS ==> grid[row][0] == 1 && grid[row][MAP_NUM_COLS - 1] == 1)
    }

    predicate WellFormed()
    {
      Shaped() && Bordered()
    }

    /** Reading `this.grid[row][col]` with JavaScript's rules: a missing row throws,
        a missing column reads `undefined`. */
    function Read(row: int, col: int): Result<Slot>
    {
      if row < 0 || row >= |grid| then TypeError
      else if col < 0 || col >= |grid[row]| then Ok(Undefined)
      else Ok(Number(grid[row][col]))
    }

    /** The same map with every tile value other than 1 replaced by 0. */
    function WallMask(): (w: Map)
      ensures |w.grid| == |grid|
      ensures forall row :: 0 <= row < |grid| ==> |w.grid[row]| == |grid[row]|
      ensures forall row, col :: 0 <= row < |grid| && 0 <= col < |grid[row]| ==>
                (w.grid[row][col] == 1 <==> grid[row][col] == 1) && w.grid[row][col] in {0, 1}
    {
      Map(seq(|grid|, row requires 0 <= row < |grid| =>
        seq(|grid[row]|, col requires 0 <= col < |grid[row]| => if grid[row][col] == 1 then 1 else 0)))
    }

    /** Some wall tile of the map covers the point (px, py). */
    ghost predicate WallCovers(px: real, py: real)
    {
      exists row, col :: 0 <= row < |grid| && 0 <= col < |grid[row]| && grid[row][col] == 1 && CellSpans(row, col, px, py)
    }

    /** `hasWallAt(x, y, r)`: fail-closed outside the window; inside it, only the tiles under
        the top-left and bottom-right corners of the square are read, and `||` stops after
        the first one when that one is a wall. */
    function HasWallAt(x: real, y: real, r: real): (res: Result<bool>)
      ensures OutsideWindow(x, y, r) ==> res == Ok(true)
      ensures res == TypeError ==> !(0 <= CellIndex(y - r) < |grid|) || !(0 <= CellIndex(y + r) < |grid|)
    {
      if OutsideWindow(x, y, r) then Ok(true)
      else
        var p1x, p1y := CellIndex(x - r), CellIndex(y - r);
        var p2x, p2y := CellIndex(x + r), CellIndex(y + r);
        match Read(p1y, p1x)
        case TypeError => TypeError
        case Ok(s1) =>
          if IsWall(s1) then Ok(true)
          else
            match Read(p2y, p2x)
            case TypeError => TypeError
            case Ok(s2) => Ok(IsWall(s2))
    }
  }

  /** The map built by the `Map` constructor. */
  function NewMap(): (m: Map)
    ensures m.WellFormed()
  {
    Map([
      [1, 1, 1, 1, 1, 1, 1, 1, 1, 1, 1, 1, 1, 1, 1],
      [1, 0, 0, 0, 0, 0, 0, 0, 0, 0, 0, 0, 1, 0, 1],
      [1, 0, 0, 0, 0, 1, 0, 0, 0, 0, 0, 0, 1, 0, 1],
      [1, 1, 1, 1, 0, 0, 0, 0, 0, 0, 1, 0, 1, 0, 1],
      [1, 0, 0, 0, 0, 0, 0, 0, 0, 0, 1, 0, 1, 0, 1],
      [1, 0, 0, 0, 0, 0, 0, 0, 1, 1, 1, 1, 1, 0, 1],
      [1, 0, 0, 0, 0, 0, 0, 0, 0, 0, 0, 0, 0, 0, 1],
      [1, 0, 0, 0, 0, 0, 0, 0, 0, 0, 0, 0, 0, 0, 1],
      [1, 1, 1, 1, 1, 1, 0, 0, 0, 1, 1, 1, 1, 0, 1],
      [1, 0, 0, 0, 0, 0, 0, 0, 0, 0, 0, 0, 0, 0, 1],
      [1, 1, 1, 1, 1, 1, 1, 1, 1, 1, 1, 1, 1, 1, 1]
    ])
  }

  /** A tile spans a point exactly when it is the tile `CellIndex` picks for it. */
  lemma SpanningCellIsIndexed(row: int, col: int, px: real, py: real)
    ensures CellSpans(row, col, px, py) <==> row == CellIndex(py) && col == CellIndex(px)
  {
    var i, j := CellIndex(py), CellIndex(px);
    if CellSpans(row, col, px, py) {
      // two half-open tile spans that share a point are the same span
      assert row as real * TILE_SIZE as real < (i + 1) as real * TILE_SIZE as real;
      assert i as real * TILE_SIZE as real < (row + 1) as real * TILE_SIZE as real;
      assert row < i + 1 && i < row + 1;
      assert col as real * TILE_SIZE as real < (j + 1) as real * TILE_SIZE as real;
      assert j as real * TILE_SIZE as real < (col + 1) as real * TILE_SIZE as real;
      assert col < j + 1 && j < col + 1;
    }
  }

  /** Reading a corner's tile finds a wall exactly when a wall tile of the map covers that corner. */
  lemma ReadFindsCoveringWall(m: Map, px: real, py: real)
    requires m.Read(CellIndex(py), CellIndex(px)).Ok?
    ensures IsWall(m.Read(CellIndex(py), CellIndex(px)).value) <==> m.WallCovers(px, py)
  {
    var row, col := CellIndex(py), CellIndex(px);
    SpanningCellIsIndexed(row, col, px, py);
    if IsWall(m.Read(row, col).value) {
      assert 0 <= row < |m.grid| && 0 <= col < |m.grid[row]| && m.grid[row][col] == 1;
    }
    if m.WallCovers(px, py) {
      var row', col' :| 0 <= row' < |m.grid| && 0 <= col' < |m.grid[row']| && m.grid[row'][col'] == 1
                        && CellSpans(row', col', px, py);
      SpanningCellIsIndexed(row', col', px, py);
    }
  }

  /** Inside the window, a result of `hasWallAt` is true exactly when a wall tile covers the
      top-left or the bottom-right corner of the square; no other tile and no value but 1 matters. */
  lemma CornersDecide(m: Map, x: real, y: real, r: real)
    requires !OutsideWindow(x, y, r)
    requires m.HasWallAt(x, y, r).Ok?
    ensures m.HasWallAt(x, y, r).value <==> m.WallCovers(x - r, y - r) || m.WallCovers(x + r, y + r)
  {
    ReadFindsCoveringWall(m, x - r, y - r);
    if !IsWall(m.Read(CellIndex(y - r), CellIndex(x - r)).value) {
      ReadFindsCoveringWall(m, x + r, y + r);
    }
  }

  /** Only the value 1 is a wall: clearing every other value to 0 changes no answer of
      `hasWallAt`, neither a result nor a throw. */
  lemma OnlyOneIsWall(m: Map, x: real, y: real, r: real)
    ensures m.WallMask().HasWallAt(x, y, r) == m.HasWallAt(x, y, r)
  {
    var w := m.WallMask();
    forall row: int, col: int
      ensures w.Read(row, col).Ok? == m.Read(row, col).Ok?
      ensures w.Read(row, col).Ok? ==> (IsWall(w.Read(row, col).value) <==> IsWall(m.Read(row, col).value))
    {
    }
  }

  /** On an 11 x 15 map with a solid border, a square of half-width 0 < r <= TILE_SIZE / 2
      never makes `hasWallAt` read a missing row: when the bottom-right corner lies on the
      bottom edge of the window, the top-left corner is already in the bottom wall row. */
  lemma NeverThrows(m: Map, x: real, y: real, r: real)
    requires m.WellFormed()
    requires 0.0 < r <= MAX_SAFE_RADIUS
    ensures m.HasWallAt(x, y, r).Ok?
  {
    if !OutsideWindow(x, y, r) {
      var p1x, p1y := CellIndex(x - r), CellIndex(y - r);
      var p2x, p2y := CellIndex(x + r), CellIndex(y + r);
      assert 0 <= p1y < MAP_NUM_ROWS && 0 <= p1x < MAP_NUM_COLS;
      assert 0 <= p2y <= MAP_NUM_ROWS;
      if p2y == MAP_NUM_ROWS {
        assert p1y == MAP_NUM_ROWS - 1;
        assert m.grid[MAP_NUM_ROWS - 1][p1x] == 1;
        assert m.Read(p1y, p1x) == Ok(Number(1));
      }
    }
  }

  /** Half a tile is the largest radius that never throws: on the constructed map a square of
      half-width 33 touching the bottom edge has its top-left corner on an empty tile of row 9,
      so `||` goes on to read row 11, which does not exist. */
  lemma RadiusAboveHalfTileThrows()
    ensures NewMap().HasWallAt(100.0, 671.0, MAX_SAFE_RADIUS + 1.0) == TypeError
  {
    var m := NewMap();
    assert CellIndex(638.0) == 9 && CellIndex(67.0) == 1;
    assert CellIndex(704.0) == 11;
    assert m.Read(9, 1) == Ok(Number(0));
  }

  /** The out-of-range rules are observable with a zero radius: a probe on the right edge of
      the window reads column 15 as `undefined` and reports no wall, and a probe on the bottom
      edge reads row 11 and throws. */
  lemma ZeroRadiusEdges()
    ensures NewMap().HasWallAt(WINDOW_WIDTH as real, 352.0, 0.0) == Ok(false)
    ensures NewMap().HasWallAt(480.0, WINDOW_HEIGHT as real, 0.0) == TypeError
  {
    var m := NewMap();
    assert CellIndex(WINDOW_WIDTH as real) == MAP_NUM_COLS;
    assert CellIndex(352.0) == 5;
    assert m.Read(5, MAP_NUM_COLS) == Ok(Undefined);
    assert CellIndex(WINDOW_HEIGHT as real) == MAP_NUM_ROWS;
  }
}
