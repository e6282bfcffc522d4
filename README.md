# Care-area tiler: main fields and subfields

This project models the core of a two-level rectangle tiler in Dafny. The
input is a list of axis-aligned care areas `(x1, x2, y1, y2)`. The tiler
computes two lists from it:

- **Main fields**: for each care area, in input order, a grid of square tiles
  of the main-field size. The grid is anchored at the area's lower corner
  `(x1, y1)`. Tiles are enumerated column by column (`i` outer, `j` inner).
  The far edges of the last column and row are clipped to `x2` and `y2`.
- **Subfields**: the same covering with the subfield size. Each record also
  carries the index of the care area it was cut from.

Two modules make up the model:

- `Covering` (`covering.dfy`) defines the covering of one area:
  - `Steps` is the ceiling of extent / size. It is zero for an empty or
    inverted extent.
  - `TileAt` gives the clipped tile at grid position `(i, j)`.
  - `Cover` gives all tiles of one area in loop order.
  - Lemmas prove the tile count, the order, the bounds, gap-freeness, the
    exact cover (with no overlap) and a worked example.
- `Placer` (`placer.dfy`) defines the two passes. Each is an imperative
  method with the source's three nested loops. The method appends to a
  sequence and is proved equal to a specification function (`MainFields`,
  `Subfields`). Lemmas about those functions prove:
  - the ordering across care areas;
  - that the subfield pass is the main-field covering with the subfield size;
  - parent linkage.

Coordinates and sizes are integers. Both passes require a positive size.

The code validates nothing, and the model follows the code:

- A non-positive size is excluded by a precondition (see "Left out").
- A rectangle with `x2 <= x1` or `y2 <= y1` gets a step count of zero or
  less. The loop range is then empty, so the rectangle produces no tiles.
  `Covering.CoverEmptyIff` proves this. It produces no zero- or
  negative-extent tiles either.
- An empty list of care areas gives two empty outputs.

## Model

| member | source | states |
|---|---|---|
| Covering.TileAt | milestone1.py:29-32 | Definition: the tile at grid position (i, j) starts i * size and j * size from the area's lower corner; its far edges are the lesser of start + size and the area's x2 (y2) |
| Covering.Cover | milestone1.py:27-34 | Definition: one area's tiles in the order of the two nested loops, i outer and j inner, so output position k holds tile (k / ySteps, k % ySteps) |
| Covering.Steps | milestone1.py:24-25 | The step count is the ceiling of extent / size: zero when the extent is not positive, otherwise the least n with extent <= n * size, i.e. (n - 1) * size < extent <= n * size |
| Covering.CoverCount | milestone1.py:24-28 | One area yields XSteps * YSteps tiles, each factor being `Steps`: for positive width and height that is ceil(width / size) * ceil(height / size), and for a zero or negative width or height none at all |
| Covering.CoverAt | milestone1.py:27-34 | Tile (i, j) of the nested loops is appended at position i * ySteps + j of the area's output |
| Covering.CoverPrefixStep | milestone1.py:27-34 | After i full columns and j tiles of the next, the next append is tile (i, j): the output grows one tile at a time in loop order |
| Covering.CoverEmptyIff | milestone1.py:24-28 | An area yields no tiles if and only if its width or height is zero or negative |
| Covering.TileBounds | milestone1.py:29-32 | Each tile lies inside its area, has sides in (0, size], and only the last column (row) can be narrower than size |
| Covering.CoverWithin | milestone1.py:29-34 | Every appended tile lies inside the area, with sides in (0, size] |
| Covering.GapFree | milestone1.py:24-32 | The first column and row start at x1 and y1, each tile's far edge is the next tile's near edge, and the last column and row end exactly on x2 and y2 |
| Covering.CoverExact | milestone1.py:24-34 | A point lies in the care area if and only if it lies in some tile of the cover |
| Covering.CoverDisjoint | milestone1.py:27-34 | A point lies in at most one tile of the cover: tiles do not overlap |
| Covering.WorkedExample | milestone1.py:24-34 | Area (0, 250, 0, 250) with step 100 gives 9 tiles; the first is (0, 100, 0, 100) and the last column is clipped to (200, 250) |
| Placer.MainFields | milestone1.py:19-36 | Definition: the covers of all care areas, each with the given size, concatenated in input order |
| Placer.Subfields | milestone1.py:45-59 | Definition: the covers of all care areas, concatenated in input order, each tile paired with the index of the area it was cut from |
| Placer.MainFieldsCount | milestone1.py:20-34 | The main-field pass yields, over all care areas, the sum of XSteps * YSteps tiles: ceil(width / size) * ceil(height / size) for an area with positive width and height, zero for an empty or inverted one |
| Placer.PlaceMainFields | milestone1.py:18-36 | The main-field pass returns exactly MainFields: each care area's cover, concatenated in input order |
| Placer.PlaceSubfields | milestone1.py:44-61 | The subfield pass returns exactly Subfields: each care area's cover with the subfield size, each tile tagged with its area's index |
| Placer.MainFieldsStep | milestone1.py:20-34 | Processing one more care area appends exactly that area's cover |
| Placer.SubfieldsStep | milestone1.py:46-59 | Processing one more care area appends exactly that area's cover, tagged with its index |
| Placer.MainFieldsAppend | milestone1.py:19-36 | The main fields of two lists of care areas concatenated are the two results concatenated |
| Placer.MainFieldsOrder | milestone1.py:20-34 | Care area k's tiles form one contiguous block, in loop order, right after all tiles of areas 0..k-1 |
| Placer.SubfieldsAppend | milestone1.py:45-59 | Appending care areas keeps every subfield already placed, with its index, as a prefix of the output |
| Placer.SubfieldsOrder | milestone1.py:46-59 | The records cut from care area k form one contiguous block right after those of areas 0..k-1, and its t-th record is tile t of area k's cover carrying index k |
| Placer.SubfieldsShareCover | milestone1.py:49-59 | The subfield bounds are exactly the main-field pass run with the subfield size (same count, same boxes at every position) |
| Placer.SubfieldParent | milestone1.py:46-59 | Every subfield's index names a care area of the input; the subfield is one of that area's tiles and lies inside it |
| Placer.SubfieldParentsOrdered | milestone1.py:46-59 | Parent indices never decrease along the subfield output |
| Placer.MainFieldWithin | milestone1.py:20-34 | Every main field lies inside some care area of the input |
| Placer.TwoAreaExample | milestone1.py:44-61 | Areas (0, 100, 0, 100) and (50, 60, 50, 60) with subfield size 40 give 10 subfields; the ninth is (80, 100, 80, 100) of area 0 and the tenth is the whole second area, tagged 1 |

## Left out

- Reading the care areas and the metadata from CSV files (milestone1.py:8-13), and writing the results to CSV (milestone1.py:39-41, 61-65): file I/O. The passes take the care areas and the size as parameters and return the lists.
- The diagnostic prints (milestone1.py:14-15, 22): output only, with no effect on the result.
- The first CSV column of a care area (an identifier) is never read by the tiler. A care area is modelled by its four bounds only. The `index` recorded in a subfield is the area's position in the input.
- The subfield table names its last column `MainFieldID` (milestone1.py:61), but the value stored there is the index of the care area (milestone1.py:59). The model follows the value: `Subfield.parent` is the care-area index.
- Pandas data frames: the subfield pass's table with named columns (milestone1.py:61) is modelled as a sequence of `Subfield` records.
- Floating point: coordinates and sizes are modelled as integers. The ceiling of a float quotient is modelled as an exact integer ceiling. Rounding of non-integer coordinates is not modelled. Integer width: pandas holds the values as int64, which wraps past 2^63, or as float64, which rounds integers past 2^53; the model's unbounded integers capture neither.
- Placer.PlaceMainFields, Placer.PlaceSubfields: require a positive size, which the code does not check. With a zero size the division at milestone1.py:24 gives an infinite or undefined quotient, and `math.ceil` then raises; with no care areas nothing fails at all. With a negative size an inverted rectangle gets a positive step count (x1 = 100, x2 = 0, size = -30 gives 4 steps), and the loops emit inverted tiles such as (100, 0, ...) and (10, -20, ...). None of this is modelled.
- Error results: the code checks neither the sizes nor the rectangles, so the model has none. Inverted or empty rectangles silently yield no tiles (Covering.CoverEmptyIff).
- The prose around the script in milestone1.py (lines 1-2 and 68-72) describes an intention to reduce overlap. The covering is proved non-overlapping within one care area (Covering.CoverDisjoint). Overlap between tiles of different care areas is not prevented by the code, and the model states nothing about it.
