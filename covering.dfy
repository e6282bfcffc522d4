/**
 * The rectangle covering shared by the main-field and the subfield pass:
 * a care area is covered by a regular grid of square tiles anchored at its
 * lower corner, the far edges of the last column and row clipped to the area.
 */
module Covering {

  /** An axis-aligned box with bounds (x1, x2, y1, y2): a care area or a tile.
      As a set of points it is half-open, [x1, x2) x [y1, y2). */
  datatype Box = Box(x1: int, x2: int, y1: int, y2: int)

  /** Point (px, py) lies in the half-open box b. */
  predicate Contains(b: Box, px: int, py: int)
  {
    b.x1 <= px < b.x2 && b.y1 <= py < b.y2
  }

  /** Tile t lies inside box r on both axes. */
  predicate Within(t: Box, r: Box)
  {
    r.x1 <= t.x1 <= t.x2 <= r.x2 && r.y1 <= t.y1 <= t.y2 <= r.y2
  }

  function Min(a: int, b: int): (m: int)
    ensures m <= a && m <= b && (m == a || m == b)
  {
    if a <= b then a else b
  }

  /** The number of tiles of side `size` along an axis of length `extent`:
      the ceiling of extent / size, and none when the extent is not positive
      (a non-positive step count gives an empty range). */
  function Steps(extent: int, size: int): (n: nat)
    requires size > 0
    ensures extent <= 0 ==> n == 0
    ensures extent > 0 ==> (n - 1) * size < extent <= n * size
  {
    if extent <= 0 then 0
    else
      var q := (extent + size - 1) / size;
      assert q * size + (extent + size - 1) % size == extent + size - 1;
      assert (q - 1) * size == q * size - size;
      q
  }

  /** Number of tile columns (tile positions along x). */
  function XSteps(r: Box, size: int): nat
    requires size > 0
  {
    Steps(r.x2 - r.x1, size)
  }

  /** Number of tile rows (tile positions along y). */
  function YSteps(r: Box, size: int): nat
    requires size > 0
  {
    Steps(r.y2 - r.y1, size)
  }

  /** The tile at grid position (i, j): its near edges advance by i * size and
      j * size from the box's lower corner, its far edges are clipped to the box. */
  function TileAt(r: Box, size: int, i: int, j: int): Box
  {
    var x := r.x1 + i * size;
    var y := r.y1 + j * size;
    Box(x, Min(x + size, r.x2), y, Min(y + size, r.y2))
  }

  /** All tiles covering r with step `size`, in row-major order: the outer loop
      runs over the columns i, the inner one over the rows j, so position k holds
      the tile at grid position (k / ySteps, k % ySteps). */
  function Cover(r: Box, size: int): seq<Box>
    requires size > 0
  {
    var ny := YSteps(r, size);
    seq(XSteps(r, size) * ny, k requires 0 <= k < XSteps(r, size) * ny => TileAt(r, size, k / ny, k % ny))
  }

  // ---------------------------------------------------------------------------
  // Arithmetic helpers

  lemma MulMono(a: int, b: int, c: int)
    requires a <= b && 0 <= c
    ensures a * c <= b * c
  {
    assert b * c - a * c == (b - a) * c;
  }

  /** A grid position below the step count starts strictly inside the extent. */
  lemma StepInside(extent: int, size: int, i: int)
    requires size > 0 && 0 <= i < Steps(extent, size)
    ensures 0 <= i * size && i * size + size <= Steps(extent, size) * size
    ensures i * size < extent
  {
    var n := Steps(extent, size);
    MulMono(i, n - 1, size);
    MulMono(0, i, size);
    assert (n - 1) * size == n * size - size;
  }

  lemma DivBounds(d: int, size: int)
    requires size > 0 && 0 <= d
    ensures 0 <= d / size
    ensures (d / size) * size <= d < (d / size) * size + size
  {
    var q, m := d / size, d % size;
    assert q * size + m == d && 0 <= m < size;
    if q < 0 {
      MulMono(q, -1, size);
    }
  }

  lemma DivBelow(d: int, size: int, n: int)
    requires size > 0 && 0 <= d < n * size
    ensures d / size < n
  {
    DivBounds(d, size);
    if d / size >= n {
      MulMono(n, d / size, size);
    }
  }

  /** The position of the grid cell holding offset d along an axis. */
  lemma CellOf(extent: int, size: int, d: int)
    requires size > 0 && 0 <= d < extent
    ensures 0 <= d / size < Steps(extent, size)
    ensures (d / size) * size <= d < (d / size) * size + size
  {
    var n := Steps(extent, size);
    assert d < n * size;
    DivBounds(d, size);
    DivBelow(d, size, n);
  }

  /** Cells at different grid positions do not overlap. */
  lemma CellUnique(size: int, i1: int, i2: int, d: int)
    requires size > 0
    requires i1 * size <= d < i1 * size + size
    requires i2 * size <= d < i2 * size + size
    ensures i1 == i2
  {
    if i1 < i2 {
      MulMono(i1 + 1, i2, size);
    } else if i2 < i1 {
      MulMono(i2 + 1, i1, size);
    }
  }

  /** Row-major decomposition of a position in an nx-by-ny grid. */
  lemma GridPosition(k: int, nx: nat, ny: nat)
    requires 0 <= k < nx * ny
    ensures ny > 0 && 0 <= k / ny < nx && 0 <= k % ny < ny
    ensures k == (k / ny) * ny + k % ny
  {
    if ny > 0 && k / ny >= nx {
      MulMono(nx, k / ny, ny);
    }
  }

  /** Grid position (i, j) of an nx-by-ny grid, numbered row-major, and back. */
  lemma RowMajor(i: int, j: int, nx: int, ny: int)
    requires 0 <= i < nx && 0 <= j < ny
    ensures 0 <= i * ny + j < nx * ny
    ensures (i * ny + j) / ny == i && (i * ny + j) % ny == j
  {
    var k := i * ny + j;
    MulMono(0, i, ny);
    MulMono(i + 1, nx, ny);
    assert (i + 1) * ny == i * ny + ny;
    DivBounds(k, ny);
    CellUnique(ny, k / ny, i, k);
    assert k == (k / ny) * ny + k % ny;
  }

  // ---------------------------------------------------------------------------
  // Count and order

  /** Tile count: Steps(width) * Steps(height) tiles, that is
      ceil(width / size) * ceil(height / size) when both extents are positive
      and none otherwise. */
  lemma CoverCount(r: Box, size: int)
    requires size > 0
    ensures |Cover(r, size)| == XSteps(r, size) * YSteps(r, size)
  {
  }

  /** Ordering: tile (i, j) sits at position i * ySteps + j, i outer and j inner. */
  lemma CoverAt(r: Box, size: int, i: int, j: int)
    requires size > 0
    requires 0 <= i < XSteps(r, size) && 0 <= j < YSteps(r, size)
    ensures 0 <= i * YSteps(r, size) + j < |Cover(r, size)|
    ensures Cover(r, size)[i * YSteps(r, size) + j] == TileAt(r, size, i, j)
  {
    RowMajor(i, j, XSteps(r, size), YSteps(r, size));
  }

  /** Every position of the cover holds the tile of a grid position inside the grid. */
  lemma CoverIndex(r: Box, size: int, k: int)
    requires size > 0 && 0 <= k < |Cover(r, size)|
    ensures YSteps(r, size) > 0
    ensures 0 <= k / YSteps(r, size) < XSteps(r, size)
    ensures Cover(r, size)[k] == TileAt(r, size, k / YSteps(r, size), k % YSteps(r, size))
  {
    GridPosition(k, XSteps(r, size), YSteps(r, size));
  }

  /** The cover grows one tile at a time in loop order: after i full columns and
      j tiles of the next one, the next tile is (i, j). */
  lemma CoverPrefixStep(r: Box, size: int, i: int, j: int)
    requires size > 0
    requires 0 <= i < XSteps(r, size) && 0 <= j < YSteps(r, size)
    ensures i * YSteps(r, size) + j + 1 <= |Cover(r, size)|
    ensures Cover(r, size)[..i * YSteps(r, size) + j + 1]
         == Cover(r, size)[..i * YSteps(r, size) + j] + [TileAt(r, size, i, j)]
  {
    var k := i * YSteps(r, size) + j;
    CoverAt(r, size, i, j);
    assert Cover(r, size)[..k + 1] == Cover(r, size)[..k] + [Cover(r, size)[k]];
  }

  /** Degenerate areas: no tiles exactly when an extent is zero or negative. */
  lemma CoverEmptyIff(r: Box, size: int)
    requires size > 0
    ensures Cover(r, size) == [] <==> (r.x2 <= r.x1 || r.y2 <= r.y1)
  {
    var nx, ny := XSteps(r, size), YSteps(r, size);
    if r.x2 > r.x1 && r.y2 > r.y1 {
      assert nx > 0 && ny > 0;
      MulMono(1, nx, ny);
    }
  }

  // ---------------------------------------------------------------------------
  // Bounds, size and exact cover

  /** No overshoot and positive, bounded size; only the last column (row) may be
      narrower than `size`. */
  lemma TileBounds(r: Box, size: int, i: int, j: int)
    requires size > 0
    requires 0 <= i < XSteps(r, size) && 0 <= j < YSteps(r, size)
    ensures Within(TileAt(r, size, i, j), r)
    ensures 0 < TileAt(r, size, i, j).x2 - TileAt(r, size, i, j).x1 <= size
    ensures 0 < TileAt(r, size, i, j).y2 - TileAt(r, size, i, j).y1 <= size
    ensures TileAt(r, size, i, j).x2 - TileAt(r, size, i, j).x1 < size ==> i == XSteps(r, size) - 1
    ensures TileAt(r, size, i, j).y2 - TileAt(r, size, i, j).y1 < size ==> j == YSteps(r, size) - 1
  {
    StepInside(r.x2 - r.x1, size, i);
    StepInside(r.y2 - r.y1, size, j);
    if i < XSteps(r, size) - 1 {
      StepInside(r.x2 - r.x1, size, i + 1);
      assert (i + 1) * size == i * size + size;
    }
    if j < YSteps(r, size) - 1 {
      StepInside(r.y2 - r.y1, size, j + 1);
      assert (j + 1) * size == j * size + size;
    }
  }

  /** Every tile of the cover lies inside the area and has sides in (0, size]. */
  lemma CoverWithin(r: Box, size: int)
    requires size > 0
    ensures forall t :: t in Cover(r, size) ==>
      Within(t, r) && 0 < t.x2 - t.x1 <= size && 0 < t.y2 - t.y1 <= size
  {
    forall t | t in Cover(r, size)
      ensures Within(t, r) && 0 < t.x2 - t.x1 <= size && 0 < t.y2 - t.y1 <= size
    {
      var k :| 0 <= k < |Cover(r, size)| && Cover(r, size)[k] == t;
      CoverIndex(r, size, k);
      TileBounds(r, size, k / YSteps(r, size), k % YSteps(r, size));
    }
  }

  /** Along one axis, cell i's unclipped far edge is the next cell's near edge
      inside the extent, and for the last cell it reaches the extent. */
  lemma EdgeStep(extent: int, size: int, i: int)
    requires size > 0 && 0 <= i < Steps(extent, size)
    ensures (i + 1) * size == i * size + size
    ensures i + 1 < Steps(extent, size) ==> i * size + size < extent
    ensures i + 1 == Steps(extent, size) ==> extent <= i * size + size
  {
    assert (i + 1) * size == i * size + size;
    if i + 1 < Steps(extent, size) {
      StepInside(extent, size, i + 1);
    }
  }

  /** Gap-free along each axis: the grid starts at (x1, y1), each tile's far edge
      is the next tile's near edge, and the last column (row) ends on x2 (y2). */
  lemma GapFree(r: Box, size: int, i: int, j: int)
    requires size > 0
    requires 0 <= i < XSteps(r, size) && 0 <= j < YSteps(r, size)
    ensures TileAt(r, size, 0, j).x1 == r.x1 && TileAt(r, size, i, 0).y1 == r.y1
    ensures i + 1 < XSteps(r, size) ==> TileAt(r, size, i, j).x2 == TileAt(r, size, i + 1, j).x1
    ensures j + 1 < YSteps(r, size) ==> TileAt(r, size, i, j).y2 == TileAt(r, size, i, j + 1).y1
    ensures i + 1 == XSteps(r, size) ==> TileAt(r, size, i, j).x2 == r.x2
    ensures j + 1 == YSteps(r, size) ==> TileAt(r, size, i, j).y2 == r.y2
  {
    EdgeStep(r.x2 - r.x1, size, i);
    EdgeStep(r.y2 - r.y1, size, j);
  }

  /** Exact cover: a point lies in the area if and only if it lies in some tile. */
  lemma CoverExact(r: Box, size: int, px: int, py: int)
    requires size > 0
    ensures Contains(r, px, py) <==>
      exists k :: 0 <= k < |Cover(r, size)| && Contains(Cover(r, size)[k], px, py)
  {
    if Contains(r, px, py) {
      var i := (px - r.x1) / size;
      var j := (py - r.y1) / size;
      CellOf(r.x2 - r.x1, size, px - r.x1);
      CellOf(r.y2 - r.y1, size, py - r.y1);
      CoverAt(r, size, i, j);
      assert Contains(Cover(r, size)[i * YSteps(r, size) + j], px, py);
    }
    CoverWithin(r, size);
    if exists k :: 0 <= k < |Cover(r, size)| && Contains(Cover(r, size)[k], px, py) {
      var k :| 0 <= k < |Cover(r, size)| && Contains(Cover(r, size)[k], px, py);
      assert Cover(r, size)[k] in Cover(r, size);
    }
  }

  /** A point inside tile (i, j) lies in the i-th cell along x and the j-th along y. */
  lemma TileHolds(r: Box, size: int, i: int, j: int, px: int, py: int)
    requires Contains(TileAt(r, size, i, j), px, py)
    ensures i * size <= px - r.x1 < i * size + size
    ensures j * size <= py - r.y1 < j * size + size
  {
  }

  lemma SamePosition(k1: int, k2: int, n: int)
    requires n > 0 && k1 / n == k2 / n && k1 % n == k2 % n
    ensures k1 == k2
  {
    assert k1 == (k1 / n) * n + k1 % n;
    assert k2 == (k2 / n) * n + k2 % n;
  }

  /** No overlap: a point lies in at most one tile of the cover. */
  lemma CoverDisjoint(r: Box, size: int, k1: int, k2: int, px: int, py: int)
    requires size > 0
    requires 0 <= k1 < |Cover(r, size)| && 0 <= k2 < |Cover(r, size)|
    requires Contains(Cover(r, size)[k1], px, py) && Contains(Cover(r, size)[k2], px, py)
    ensures k1 == k2
  {
    var ny := YSteps(r, size);
    CoverIndex(r, size, k1);
    CoverIndex(r, size, k2);
    TileHolds(r, size, k1 / ny, k1 % ny, px, py);
    TileHolds(r, size, k2 / ny, k2 % ny, px, py);
    CellUnique(size, k1 / ny, k2 / ny, px - r.x1);
    CellUnique(size, k1 % ny, k2 % ny, py - r.y1);
    SamePosition(k1, k2, ny);
  }

  /** The care area (0, 250, 0, 250) with step 100: nine tiles, the last column
      clipped to (200, 250) rather than (200, 300). */
  lemma WorkedExample()
    ensures |Cover(Box(0, 250, 0, 250), 100)| == 9
    ensures Cover(Box(0, 250, 0, 250), 100)[0] == Box(0, 100, 0, 100)
    ensures Cover(Box(0, 250, 0, 250), 100)[6] == Box(200, 250, 0, 100)
    ensures Cover(Box(0, 250, 0, 250), 100)[8] == Box(200, 250, 200, 250)
  {
    assert Steps(250, 100) == 3;
  }
}
