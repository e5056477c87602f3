# Cell decomposition of polygons on a latitude/longitude grid

This project models the core of `jrc`'s `CellUdtf`, a Hive table function. It
cuts the globe into square cells of a fixed size in degrees and numbers them
row-major from the south-west corner (-90°, -180°). For each polygon it
forwards one row per cell the polygon intersects, with a flag saying whether
the polygon contains the whole cell.

The model has three modules:

- `Grid` (`grid.dfy`) holds the grid arithmetic. It computes the grid
  dimensions from the cell size. It maps a point to a cell id, and it splits
  an id into a row and a column. It gives the box of a cell.
- `Enumerator` (`enumerator.dfy`) covers one call of `getCellsEnclosedBy`:
  - It widens the envelope by one cell and clamps it to the domain.
  - It turns the two corners into an id range and a column window.
  - It walks the range and classifies each candidate.

  The candidate range is a function, `CandidatePlan`. The walk is a method,
  `GetCellsEnclosedBy`, with a `while` loop. That method is proved equal to
  the function `Decomposition`, and the lemmas are stated about that function.
- `CellUdtf` (`cell_udtf.dfy`) is the table function's state. The class
  `CellUdtf` has these fields:
  - the cell size, which is set once;
  - the two grid dimensions;
  - `output`, the rows forwarded so far.

  `Process` screens the geometry, calls `GetCellsEnclosedBy` and appends the
  forwarded rows to `output`.

Arithmetic is on exact reals and unbounded integers. The geometry engine is
represented by two predicates on boxes inside `Shape`: `intersects` and
`contains`. The decoded geometry is a value made of four parts:
- its type name;
- its emptiness;
- its envelope;
- its `Shape`.

Java's `%` truncates toward zero, while Dafny's is Euclidean. `JavaRem` models
Java's operator. On the ids that actually reach `%`, the two agree, and every
id is ≥ 0 on a grid that has cells. On a grid with no rows, the upper id is
-1. There `maxLonCell` is 1, so both operators give 0.

The model follows the code at the domain's north and east edges. There the
clamp in `toCellId` has two effects, and the model proves both in general.

- **North edge.** Latitude 90 is one row past the last. The clamp pulls every
  point on the north edge to the last cell, the top row's last column,
  whatever its longitude (`Grid.NorthEdgeClamped`). Suppose the buffered
  north edge of an envelope reaches the top of the last whole row. Then the
  upper id is the last cell, and the column window runs to `maxLonCell - 1`.
  The walk then classifies more candidates than the envelope needs. This is
  safe, because every candidate is still tested against the geometry.
- **East edge.** A longitude whose column index is `maxLonCell` lies one
  column past the last. Longitude 180 always does (`Grid.EastEdgeIndex`).
  When the cell size does not divide 360, so does the whole strip east of
  the last whole column. Below the top row, such a point lands on column 0 of
  the next row up, not on the last column of its own row
  (`Grid.EastEdgeWrapsToNextRow`). With 7° cells the strip is 3° wide. The
  point (0, 178) gets id 13·51, column 0 of row 13 (`Grid.SevenDegreeEastStrip`).

The `omitRight == 0` rule in `getCellsEnclosedBy` makes up for the east-edge
effect: the window then runs to `maxLonCell`. `Enumerator.CandidatesCoverEnvelope`
proves that, with both effects, no cell touching the envelope is lost.

The column window is computed once and reused for every row of the range.
`Enumerator.CandidatesCoverEnvelope` and `Enumerator.DecompositionExact` show
that this narrowing is safe. For an envelope inside the domain that bounds
the geometry, the window loses no cell.

## Model

| member | source | states |
|---|---|---|
| Grid.GridFor | src/main/java/jrc/CellUdtf.java:121-125 | The grid has floor(360/size) columns and floor(180/size) rows. It has a column exactly when size ≤ 360 and a row exactly when size ≤ 180. There are 2·rows or 2·rows+1 columns. The grid is valid exactly when size ≤ 360. |
| Grid.JavaRem | src/main/java/jrc/CellUdtf.java:233-234 | Java's truncating remainder: strictly between -b and b. It has the sign of the dividend and differs from it by a multiple of b. |
| Grid.Row | src/main/java/jrc/CellUdtf.java:164-165 | A cell's row is never negative, and it is below the row count exactly when the id is below the cell count. |
| Grid.Col | src/main/java/jrc/CellUdtf.java:164-166 | A cell's column lies in `[0, maxLonCell)`, and row·maxLonCell + column gives back the id. |
| Grid.RowColOfId | src/main/java/jrc/CellUdtf.java:164-166 | Splitting the id composed from a row and a column in range gives that row and column back. |
| Grid.LatitudeId | src/main/java/jrc/CellUdtf.java:188-190 | For a latitude in [-90, 90], the row's first id lies in [0, cell count]. |
| Grid.LongitudeId | src/main/java/jrc/CellUdtf.java:196-198 | For a longitude in [-180, 180], the column lies in [0, maxLonCell]. Longitude 180 gives maxLonCell, one past the last column. |
| Grid.ToCellId | src/main/java/jrc/CellUdtf.java:175-183 | Fails with InvalidCoordinates exactly when the point lies outside [-90, 90] × [-180, 180]. Otherwise the id is clamped to [0, count-1], or is -1 on a grid with no cells. |
| Grid.ToCellIdOfRowCol | src/main/java/jrc/CellUdtf.java:175-198 | A point whose row and column exist maps to row·maxLonCell + column, and that id splits back into the same row and column. |
| Grid.ToCellIdMonotone | src/main/java/jrc/CellUdtf.java:175-198 | Moving a point north or east in the domain never lowers its id. |
| Grid.InitCellEnvelope | src/main/java/jrc/CellUdtf.java:164-173 | A cell's box is cellSize on each side, with its south-west corner at (-90 + row·size, -180 + col·size). For a real cell the box lies inside the domain. |
| Grid.ToCellIdOfCell | src/main/java/jrc/CellUdtf.java:164-183 | A point in a cell's row and column maps to that cell. |
| Grid.PointOfCell | src/main/java/jrc/CellUdtf.java:164-198 | A point of a cell's box, north and east edges excepted, lies in the domain, in the cell's row and in its column. |
| Grid.CellRoundTrip | src/main/java/jrc/CellUdtf.java:164-198 | Every point of a cell's box, north and east edges excepted, maps back to that cell id. |
| Grid.GridCorners | src/main/java/jrc/CellUdtf.java:175-183 | (-90, -180) maps to cell 0 and (90, 180) maps to the last cell. |
| Grid.NorthEdgeClamped | src/main/java/jrc/CellUdtf.java:175-190 | On a grid with cells, every point with latitude 90, whatever its longitude, maps to the last cell. |
| Grid.EastEdgeWrapsToNextRow | src/main/java/jrc/CellUdtf.java:175-198 | Below the top row, every longitude whose column index is `maxLonCell` maps to column 0 of the next row up, not to the last column of its own row. |
| Grid.EastEdgeIndex | src/main/java/jrc/CellUdtf.java:196-198 | Longitude 180 always has column index `maxLonCell`, one past the last column. |
| Grid.SevenDegreeEastStrip | src/main/java/jrc/CellUdtf.java:121-198 | With 7° cells the grid has 51 columns and 25 rows, and (0, 178) maps to id 13·51, column 0 of row 13. |
| Enumerator.CandidatePlan | src/main/java/jrc/CellUdtf.java:215-237 | After the one-cell buffer, the envelope is rejected exactly when a corner is still outside the domain. Otherwise lower ≥ 0 and upper ≤ count-1, omitLeft is in [0, maxLonCell) and omitRight in (0, maxLonCell]. |
| Enumerator.WindowRightBound | src/main/java/jrc/CellUdtf.java:229-234 | The remainder of the clipped upper id is never negative, even when the grid has no rows and the id is -1. |
| Enumerator.Classify | src/main/java/jrc/CellUdtf.java:244-256 | One candidate yields at most one row, and that row carries the candidate's own id. |
| Enumerator.GetCellsEnclosedBy | src/main/java/jrc/CellUdtf.java:200-260 | The step-by-step buffer, clip, window and loop give exactly `Decomposition`: the error from either corner, or the rows of every walked candidate in the window, in id order. |
| Enumerator.ScannedOrdered | src/main/java/jrc/CellUdtf.java:243-259 | The forwarded ids lie in the walked range and strictly increase, so no cell is forwarded twice. |
| Enumerator.ScannedMembership | src/main/java/jrc/CellUdtf.java:243-259 | (id, flag) is forwarded if and only if the id was walked, its column is in the window and the geometry intersects its box. The flag is then whether the geometry contains the box. |
| Enumerator.DecompositionRows | src/main/java/jrc/CellUdtf.java:200-260 | A successful call forwards valid cell ids in strictly increasing order. Each one is intersected by the geometry, so a fully covered cell is always an intersected one, and its flag equals containment. |
| Enumerator.PlanOfDomainEnvelope | src/main/java/jrc/CellUdtf.java:215-229 | An ordered envelope inside the domain is never rejected. On a grid with cells its clipped range is non-empty. |
| Enumerator.BufferedLowSlot | src/main/java/jrc/CellUdtf.java:216-217 | A lower bound reaching a slot's top, once buffered and clamped, falls in a slot between 0 and that slot. |
| Enumerator.BufferedHighSlot | src/main/java/jrc/CellUdtf.java:219-220 | An upper bound reaching a slot's bottom, once buffered and clamped, falls in a slot no lower than that one and no higher than the number of whole slots on the axis. |
| Enumerator.SouthWestCorner | src/main/java/jrc/CellUdtf.java:215-233 | For a cell the envelope reaches, the buffered south-west corner's id lies in [0, cell], and its column is at most the cell's column. |
| Enumerator.NorthEastCorner | src/main/java/jrc/CellUdtf.java:215-237 | For a cell the envelope reaches, the buffered north-east corner's id is at least the cell. Its remainder is 0 (read as the last column) or at least the cell's column. |
| Enumerator.NorthEastSlots | src/main/java/jrc/CellUdtf.java:219-223 | The buffered north-east corner's row and column are at least the cell's, and at most the grid's row and column counts. |
| Enumerator.WindowRightEdge | src/main/java/jrc/CellUdtf.java:228-237 | A clipped upper id composed from a row and column at least a cell's is at least that cell. With the 0 → maxLonCell rule, its window edge is at or past the cell's column. |
| Enumerator.CandidatesCoverEnvelope | src/main/java/jrc/CellUdtf.java:215-244 | Every cell whose box touches an in-domain envelope is walked and passes the column window, so narrowing to the window loses no cell. |
| Enumerator.DecompositionExact | src/main/java/jrc/CellUdtf.java:200-260 | Suppose the envelope lies in the domain and bounds the geometry. Then (id, flag) is forwarded if and only if the id is a cell the geometry intersects and the flag is containment. |
| Enumerator.OriginSquarePlan | src/main/java/jrc/CellUdtf.java:215-237 | On the 1° grid (360 × 180 cells), the 2°×2° square around the origin is walked from row 88, column 178 to row 92, column 182, with window [178, 182]. |
| CellUdtf.CellsOf | src/main/java/jrc/CellUdtf.java:127-158 | A null, empty or non-polygon geometry, or an empty envelope, forwards nothing and raises nothing. Otherwise the rows are valid, strictly increasing, intersected ids, each flagged with containment. |
| CellUdtf.PolygonCellsExact | src/main/java/jrc/CellUdtf.java:144-158 | A polygon whose in-domain envelope bounds it is never rejected. Exactly the cells it intersects are forwarded, each flagged with containment. |
| CellUdtf.PolygonRejected | src/main/java/jrc/CellUdtf.java:151-158 | A polygon raises an error exactly when its envelope, widened by one cell, still misses the domain on some side. |
| CellUdtf.CellUdtf.CurrentGrid | src/main/java/jrc/CellUdtf.java:50-52 | The stored cell size and dimensions form a grid with at least one column. |
| CellUdtf.CellUdtf.constructor | src/main/java/jrc/CellUdtf.java:50-52 | A new function has no cell size yet and has forwarded nothing. |
| CellUdtf.CellUdtf.Process | src/main/java/jrc/CellUdtf.java:120-158 | The first call fixes the grid from its cell size, and later calls leave it unchanged. The output grows by exactly the geometry's rows, or the call raises the error and the output is unchanged. |

## Left out

- IEEE doubles are left out: `Math.floor` on doubles, the `(int)` casts in `process` and the `longValue()` casts in the id functions become exact floors of reals and unbounded integers. Rounding at cell edges is therefore not modelled.
- Integer overflow is left out. A cell size so small that floor(360/size) exceeds the `int` range saturates the cast in Java. Here the count is unbounded.
- CellUdtf.CellUdtf.Process: requires a first cell size in (0, 360]. With a larger size `maxLonCell` is 0 and Java's `lower % maxLonCell` throws an ArithmeticException. A size of 0, a negative size or NaN gives a grid the model does not describe.
- The Hive plumbing is left out because it has no effect on the decomposition: `initialize` with its argument checks, the object inspectors, `close`, the writables and `forward`. Forwarding is modelled as appending to `output`. This is equivalent because `getCellsEnclosedBy` can only throw before its loop.
- `main`, the logging calls and `accelerateGeometry` are left out. They are a demonstration, diagnostics and a performance hint, and none changes what is forwarded.
- Decoding the Esri shape bytes and the Esri `intersects`/`contains` operators are left out. They are foreign code, given here as the `Shape` predicates and the `Geometry` value's type name, emptiness and envelope.
- CellUdtf.CellUdtf.Process: a later row's cell size is ignored, as in the source. The model does not flag a caller who passes a different size.
- Scenarios whose outcome depends on the geometry engine are stated relative to `Shape` (`DecompositionExact`, `PolygonCellsExact`) and not computed for concrete polygons:
  - the 2°×2° square, where Esri `intersects` is also true for cells that only touch the boundary;
  - the whole globe;
  - the polygon from 170° to -170°, whose planar envelope spans -170° to 170°, not the antimeridian.
