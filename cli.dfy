/**
 * The state behind the interactive pattern editor: a height-by-width matrix of
 * tri-state tiles and a cursor that wraps around the edges. Drawing the grid
 * and reading the keyboard are not part of this module.
 */
module Cli {

  /** Tile states: gray, yellow, green. */
  const TileStates := 3

  /** The next tile state in the cycle gray, yellow, green, gray. */
  function Cycle(v: int): (r: int)
    ensures 0 <= r < TileStates
    ensures 0 <= v < TileStates - 1 ==> r == v + 1
    ensures v == TileStates - 1 ==> r == 0
  {
    (v + 1) % TileStates
  }

  /** A cursor coordinate moved by d and wrapped into 0 .. size - 1 (Python's `%` with a positive divisor). */
  function Wrap(x: int, d: int, size: int): (r: int)
    requires size > 0
    ensures 0 <= r < size
    ensures 0 <= x + d < size ==> r == x + d
    ensures -size <= x + d < 0 ==> r == x + d + size
    ensures size <= x + d < 2 * size ==> r == x + d - size
    ensures (x + d - r) % size == 0
  {
    var r := (x + d) % size;
    assert -size <= x + d < 0 ==> r == x + d + size by {
      if -size <= x + d < 0 {
        RemainderUnique(x + d, -1, x + d + size, size);
      }
    }
    assert size <= x + d < 2 * size ==> r == x + d - size by {
      if size <= x + d < 2 * size {
        RemainderUnique(x + d, 1, x + d - size, size);
      }
    }
    assert (x + d - r) % size == 0 by {
      var q := (x + d) / size;
      assert x + d - r == q * size;
      RemainderUnique(x + d - r, q, 0, size);
    }
    r
  }

  /** Cycling a tile three times gives back its state. */
  lemma CycleThrice(v: int)
    requires 0 <= v < TileStates
    ensures Cycle(Cycle(Cycle(v))) == v
  {
  }

  /** Moving by d and then by -d puts a coordinate back where it was. */
  lemma WrapInverse(x: int, d: int, size: int)
    requires size > 0 && 0 <= x < size
    ensures Wrap(Wrap(x, d, size), -d, size) == x
  {
    var y := Wrap(x, d, size);
    var q := (x + d) / size;
    assert x + d == q * size + y;
    MulNeg(q, size);
    assert y - d == x + (-q) * size;
    RemainderUnique(y - d, -q, x, size);
  }

  lemma MulNeg(q: int, size: int)
    ensures (-q) * size == -(q * size)
  {
  }

  /** If z is k sizes plus a remainder r in range, then z % size is r. */
  lemma RemainderUnique(z: int, k: int, r: int, size: int)
    requires size > 0 && 0 <= r < size && z == k * size + r
    ensures z % size == r
  {
    var q, m := z / size, z % size;
    assert z == q * size + m;
    MulSub(q, k, size);
    assert (q - k) * size == r - m;
    if q - k >= 1 {
      MulAtLeast(q - k, size);
    } else if q - k <= -1 {
      MulAtLeast(k - q, size);
      MulNeg(q - k, size);
    }
  }

  lemma MulSub(a: int, b: int, size: int)
    ensures (a - b) * size == a * size - b * size
  {
  }

  lemma MulAtLeast(a: int, size: int)
    requires a >= 1 && size > 0
    ensures a * size >= size
  {
  }

  /** A grid of the given shape whose tiles all hold a valid state. */
  ghost predicate WellShaped(g: seq<seq<int>>, width: int, height: int)
  {
    |g| == height &&
    forall y :: 0 <= y < height ==>
      |g[y]| == width && forall x :: 0 <= x < width ==> 0 <= g[y][x] < TileStates
  }

  /** The grid with the tile at (x, y) advanced to its next state. */
  ghost function Toggled(g: seq<seq<int>>, x: int, y: int): seq<seq<int>>
    requires 0 <= y < |g| && 0 <= x < |g[y]|
  {
    g[y := g[y][x := Cycle(g[y][x])]]
  }

  /** Toggling the same tile three times restores a well-shaped grid. */
  lemma ToggleThrice(g: seq<seq<int>>, width: int, height: int, x: int, y: int)
    requires WellShaped(g, width, height) && 0 <= x < width && 0 <= y < height
    ensures WellShaped(Toggled(g, x, y), width, height)
    ensures Toggled(Toggled(Toggled(g, x, y), x, y), x, y) == g
  {
    CycleThrice(g[y][x]);
    var g3 := Toggled(Toggled(Toggled(g, x, y), x, y), x, y);
    assert g3[y] == g[y];
  }

  class Grid {
    const width: nat
    const height: nat
    /** Rows of tiles, `grid[y][x]`. */
    var grid: seq<seq<int>>
    var cursorX: int
    var cursorY: int

    /** The grid keeps its shape, every tile is in range, and the cursor is on a tile when there is one. */
    ghost predicate Valid()
      reads this
    {
      WellShaped(grid, width, height) &&
      0 <= cursorX && (cursorX < width || cursorX == 0) &&
      0 <= cursorY && (cursorY < height || cursorY == 0)
    }

    /** A fresh grid: all gray, cursor at the top-left tile. */
    constructor (width: nat, height: nat)
      ensures this.width == width && this.height == height
      ensures Valid()
      ensures forall y, x :: 0 <= y < height && 0 <= x < width ==> grid[y][x] == 0
      ensures cursorX == 0 && cursorY == 0
    {
      this.width := width;
      this.height := height;
      grid := seq(height, _ => seq(width, _ => 0));
      cursorX := 0;
      cursorY := 0;
    }

    /** Advance the tile under the cursor to its next state; nothing else changes. */
    method ToggleCell()
      requires Valid() && width > 0 && height > 0
      modifies this`grid
      ensures Valid()
      ensures grid == Toggled(old(grid), cursorX, cursorY)
      ensures grid[cursorY][cursorX] == Cycle(old(grid[cursorY][cursorX]))
      ensures forall y, x :: 0 <= y < height && 0 <= x < width && (y != cursorY || x != cursorX) ==>
        grid[y][x] == old(grid[y][x])
    {
      var current := grid[cursorY][cursorX];
      grid := grid[cursorY := grid[cursorY][cursorX := Cycle(current)]];
    }

    /** Move the cursor by (dx, dy), wrapping around both edges; the tiles do not change. */
    method MoveCursor(dx: int, dy: int)
      requires Valid() && width > 0 && height > 0
      modifies this`cursorX, this`cursorY
      ensures Valid()
      ensures cursorX == Wrap(old(cursorX), dx, width) && cursorY == Wrap(old(cursorY), dy, height)
    {
      cursorX := Wrap(cursorX, dx, width);
      cursorY := Wrap(cursorY, dy, height);
    }
  }
}
