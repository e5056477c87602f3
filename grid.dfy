/**
 * The global equirectangular cell grid: the arithmetic between a
 * (latitude, longitude) pair in degrees and a linear cell id
 * `row * maxLonCell + col`, with row 0 / column 0 at (-90, -180).
 *
 * Coordinates and the cell size are exact reals; the source computes with
 * IEEE doubles, so rounding in its divisions and floors is not modelled.
 */
module Grid {

  const MinLat: real := -90.0
  const MaxLat: real := 90.0
  const MinLon: real := -180.0
  const MaxLon: real := 180.0

  /** The only structural error of the core: a coordinate outside the domain. */
  datatype CellError = InvalidCoordinates

  datatype Result<T> = Ok(value: T) | Err(error: CellError)

  /** An axis-aligned box in degrees (x is longitude, y latitude), or no box at all. */
  datatype Envelope =
    | EmptyEnvelope
    | Envelope(xMin: real, yMin: real, xMax: real, yMax: real)

  /** Grid parameters: a cell size and the number of columns and rows it gives. */
  datatype Grid = Grid(cellSize: real, maxLonCell: int, maxLatCell: int) {

    /**
     * The dimensions are the numbers of whole cells that fit in 360 and 180
     * degrees, that is floor(360 / size) and floor(180 / size), and there is
     * at least one column.
     */
    predicate Valid() {
      && cellSize > 0.0
      && maxLonCell > 0 && maxLatCell >= 0
      && maxLonCell as real * cellSize <= 2.0 * MaxLon < (maxLonCell + 1) as real * cellSize
      && maxLatCell as real * cellSize <= 2.0 * MaxLat < (maxLatCell + 1) as real * cellSize
    }

    function CellCount(): int {
      maxLatCell * maxLonCell
    }
  }

  /** The grid parameters fixed from a cell size: floor(360 / size) columns, floor(180 / size) rows. */
  function GridFor(cellSize: real): (g: Grid)
    requires cellSize > 0.0
    ensures g.cellSize == cellSize
    ensures g.maxLonCell > 0 <==> cellSize <= 2.0 * MaxLon
    ensures g.maxLatCell > 0 <==> cellSize <= 2.0 * MaxLat
    ensures 0 <= g.maxLatCell && 2 * g.maxLatCell <= g.maxLonCell <= 2 * g.maxLatCell + 1
    ensures g.Valid() <==> cellSize <= 2.0 * MaxLon
  {
    var lonCells := ((2.0 * MaxLon) / cellSize).Floor;
    var latCells := ((2.0 * MaxLat) / cellSize).Floor;
    CellCountsFor(cellSize);
    FloorDivBounds(2.0 * MaxLon, cellSize);
    FloorDivBounds(2.0 * MaxLat, cellSize);
    Grid(cellSize, lonCells, latCells)
  }

  /** A valid grid's dimensions are the floors of 360 and 180 over the cell size. */
  lemma DimensionsAreFloors(g: Grid)
    requires g.Valid()
    ensures g.maxLonCell == ((2.0 * MaxLon) / g.cellSize).Floor
    ensures g.maxLatCell == ((2.0 * MaxLat) / g.cellSize).Floor
  {
    FloorDivAtLeast(2.0 * MaxLon, g.maxLonCell, g.cellSize);
    FloorDivAtMost(2.0 * MaxLon, g.maxLonCell, g.cellSize);
    FloorDivAtLeast(2.0 * MaxLat, g.maxLatCell, g.cellSize);
    FloorDivAtMost(2.0 * MaxLat, g.maxLatCell, g.cellSize);
  }

  lemma CellCountsFor(size: real)
    requires size > 0.0
    ensures var lonCells, latCells := (360.0 / size).Floor, (180.0 / size).Floor;
      && (lonCells > 0 <==> size <= 360.0)
      && (latCells > 0 <==> size <= 180.0)
      && 0 <= latCells && 2 * latCells <= lonCells <= 2 * latCells + 1
  {
    if size <= 360.0 { FloorDivAtLeast(360.0, 1, size); } else { FloorDivAtMost(360.0, 0, size); }
    if size <= 180.0 { FloorDivAtLeast(180.0, 1, size); } else { FloorDivAtMost(180.0, 0, size); }
    FloorDivAtLeast(180.0, 0, size);
    FloorOfDouble(180.0, size);
  }

  /** Doubling a length at most doubles its cell count, plus one. */
  lemma FloorOfDouble(x: real, size: real)
    requires size > 0.0
    ensures var k := (x / size).Floor;
      2 * k <= ((2.0 * x) / size).Floor <= 2 * k + 1
  {
    var k := (x / size).Floor;
    FloorDivBounds(x, size);
    var a := k as real * size;
    var b := (k + 1) as real * size;
    assert a <= x < b;
    assert (2 * k) as real * size == 2.0 * a by { Distribute(2, k, size); }
    assert (2 * k + 2) as real * size == 2.0 * b by { Distribute(2, k + 1, size); }
    FloorDivAtLeast(2.0 * x, 2 * k, size);
    FloorDivAtMost(2.0 * x, 2 * k + 1, size);
  }

  lemma Distribute(m: int, k: int, size: real)
    ensures (m * k) as real * size == m as real * (k as real * size)
  {}

  /** Java's `%` on `long`: truncates toward zero, so the result takes the sign of `a`. */
  function JavaRem(a: int, b: int): (r: int)
    requires b > 0
    ensures -b < r < b
    ensures a >= 0 ==> 0 <= r && (a - r) % b == 0
    ensures a < 0 ==> r <= 0 && (a - r) % b == 0
  {
    JavaRemFacts(a, b);
    if a >= 0 then a % b else -((-a) % b)
  }

  lemma JavaRemFacts(a: int, b: int)
    requires b > 0
    ensures a >= 0 ==> (a - a % b) % b == 0
    ensures a < 0 ==> (a + (-a) % b) % b == 0
  {
    var n := if a >= 0 then a else -a;
    var q := n / b;
    assert n - n % b == q * b;
    DivModUnique(q, 0, b);
    DivModUnique(-q, 0, b);
    assert (-q) * b == -(q * b);
  }

  // ---------------------------------------------------------------------
  // Cell ids and their rows and columns

  /** The row of a cell id: how many whole rows of `maxLonCell` ids lie below it. */
  function Row(g: Grid, cell: int): (row: int)
    requires g.Valid() && cell >= 0
    ensures 0 <= row
    ensures cell < g.CellCount() <==> row < g.maxLatCell
  {
    RowBelowCount(cell, g.maxLonCell, g.maxLatCell);
    cell / g.maxLonCell
  }

  lemma RowBelowCount(cell: int, m: int, n: int)
    requires cell >= 0 && m > 0
    ensures cell < n * m <==> cell / m < n
  {
    var row := cell / m;
    if row < n {
      MulAtLeast(row + 1, n, m);
    } else {
      MulAtLeast(n, row, m);
    }
  }

  /** The column of a cell id, counted eastwards from -180. */
  function Col(g: Grid, cell: int): (col: int)
    requires g.Valid() && cell >= 0
    ensures 0 <= col < g.maxLonCell
    ensures Row(g, cell) * g.maxLonCell + col == cell
  {
    cell % g.maxLonCell
  }

  lemma MulAtLeast(a: int, b: int, m: int)
    requires a <= b && m > 0
    ensures a * m <= b * m
  {}

  /** Composing a row and a column and splitting the id again gives them back. */
  lemma RowColOfId(g: Grid, row: int, col: int)
    requires g.Valid() && 0 <= row && 0 <= col < g.maxLonCell
    ensures row * g.maxLonCell + col >= 0
    ensures Row(g, row * g.maxLonCell + col) == row
    ensures Col(g, row * g.maxLonCell + col) == col
  {
    DivModUnique(row, col, g.maxLonCell);
  }

  /** Euclidean division recovers the quotient and remainder an id was built from. */
  lemma DivModUnique(q: int, r: int, m: int)
    requires 0 <= r < m
    ensures (q * m + r) / m == q && (q * m + r) % m == r
  {
    var id := q * m + r;
    var q', r' := id / m, id % m;
    assert q' * m + r' == id;
    if q' < q {
      MulAtLeast(q' + 1, q, m);
    } else if q' > q {
      MulAtLeast(q + 1, q', m);
    }
  }

  // ---------------------------------------------------------------------
  // Coordinates to cell ids

  predicate InDomain(lat: real, lon: real) {
    MinLat <= lat <= MaxLat && MinLon <= lon <= MaxLon
  }

  /** The row index of a latitude, scaled to the first id of that row. */
  function LatitudeId(g: Grid, lat: real): (first: int)
    requires g.Valid()
    ensures MinLat <= lat <= MaxLat ==> 0 <= first <= g.CellCount()
  {
    LatitudeRowBounds(g, lat);
    ((lat + MaxLat) / g.cellSize).Floor * g.maxLonCell
  }

  lemma LatitudeRowBounds(g: Grid, lat: real)
    requires g.Valid()
    ensures var row := ((lat + MaxLat) / g.cellSize).Floor;
      MinLat <= lat <= MaxLat ==>
        0 <= row <= g.maxLatCell && 0 <= row * g.maxLonCell <= g.CellCount()
  {
    var row := ((lat + MaxLat) / g.cellSize).Floor;
    if MinLat <= lat <= MaxLat {
      FloorDivAtLeast(lat + MaxLat, 0, g.cellSize);
      FloorDivMonotone(lat + MaxLat, 2.0 * MaxLat, g.cellSize);
      MulAtLeast(row, g.maxLatCell, g.maxLonCell);
      MulAtLeast(0, row, g.maxLonCell);
    }
  }

  /** The column index of a longitude; `MaxLon` itself gets index `maxLonCell`, one past the last column. */
  function LongitudeId(g: Grid, lon: real): (col: int)
    requires g.Valid()
    ensures MinLon <= lon <= MaxLon ==> 0 <= col <= g.maxLonCell
    ensures lon == MaxLon ==> col == g.maxLonCell
  {
    LongitudeColBounds(g, lon);
    ((lon + MaxLon) / g.cellSize).Floor
  }

  lemma LongitudeColBounds(g: Grid, lon: real)
    requires g.Valid()
    ensures var col := ((lon + MaxLon) / g.cellSize).Floor;
      MinLon <= lon <= MaxLon ==> 0 <= col <= g.maxLonCell
  {
    if MinLon <= lon <= MaxLon {
      FloorDivAtLeast(lon + MaxLon, 0, g.cellSize);
      FloorDivMonotone(lon + MaxLon, 2.0 * MaxLon, g.cellSize);
    }
  }

  /** The id of the cell holding (lat, lon), clamped into the id range; fails outside the domain. */
  function ToCellId(g: Grid, lat: real, lon: real): (r: Result<int>)
    requires g.Valid()
    ensures r.Err? <==> !InDomain(lat, lon)
    ensures r.Ok? ==> r.value <= g.CellCount() - 1
    ensures r.Ok? && g.CellCount() > 0 ==> 0 <= r.value
    ensures r.Ok? && g.CellCount() == 0 ==> r.value == -1
  {
    if lat < MinLat || lat > MaxLat || lon < MinLon || lon > MaxLon then
      Err(InvalidCoordinates)
    else
      var la := LatitudeId(g, lat);
      var lo := LongitudeId(g, lon);
      Ok(Min(Max(la + lo, 0), g.CellCount() - 1))
  }

  function Min(a: int, b: int): int { if a <= b then a else b }

  function Max(a: int, b: int): int { if a >= b then a else b }

  /** A point whose row and column both exist in the grid maps to exactly that cell. */
  lemma ToCellIdOfRowCol(g: Grid, lat: real, lon: real, row: int, col: int)
    requires g.Valid() && InDomain(lat, lon)
    requires row == ((lat + MaxLat) / g.cellSize).Floor < g.maxLatCell
    requires col == ((lon + MaxLon) / g.cellSize).Floor < g.maxLonCell
    ensures ToCellId(g, lat, lon) == Ok(row * g.maxLonCell + col)
    ensures Row(g, row * g.maxLonCell + col) == row
    ensures Col(g, row * g.maxLonCell + col) == col
  {
    LatitudeRowBounds(g, lat);
    LongitudeColBounds(g, lon);
    RowColOfId(g, row, col);
    MulAtLeast(row + 1, g.maxLatCell, g.maxLonCell);
  }

  /** Moving a point north or east never lowers its cell id. */
  lemma ToCellIdMonotone(g: Grid, lat0: real, lon0: real, lat1: real, lon1: real)
    requires g.Valid() && InDomain(lat0, lon0) && InDomain(lat1, lon1)
    requires lat0 <= lat1 && lon0 <= lon1
    ensures ToCellId(g, lat0, lon0).value <= ToCellId(g, lat1, lon1).value
  {
    var row0, row1 := ((lat0 + MaxLat) / g.cellSize).Floor, ((lat1 + MaxLat) / g.cellSize).Floor;
    FloorDivMonotone(lat0 + MaxLat, lat1 + MaxLat, g.cellSize);
    FloorDivMonotone(lon0 + MaxLon, lon1 + MaxLon, g.cellSize);
    MulAtLeast(row0, row1, g.maxLonCell);
    assert LatitudeId(g, lat0) <= LatitudeId(g, lat1);
    assert LongitudeId(g, lon0) <= LongitudeId(g, lon1);
  }

  // ---------------------------------------------------------------------
  // Cell ids to boxes

  /** The box of a cell: one cell size wide and high, with its south-west corner at its row and column. */
  function InitCellEnvelope(g: Grid, cell: int): (e: Envelope)
    requires g.Valid() && cell >= 0
    ensures e.Envelope?
    ensures e.xMax - e.xMin == g.cellSize && e.yMax - e.yMin == g.cellSize
    ensures e.xMin == MinLon + Col(g, cell) as real * g.cellSize
    ensures e.yMin == MinLat + Row(g, cell) as real * g.cellSize
    ensures cell < g.CellCount() ==>
      MinLon <= e.xMin && e.xMax <= MaxLon && MinLat <= e.yMin && e.yMax <= MaxLat
  {
    var row := Row(g, cell);
    var col := Col(g, cell);
    DimensionsAreFloors(g);
    CornerInside(col, g.maxLonCell, 2.0 * MaxLon, g.cellSize);
    CornerInside(row, g.maxLatCell, 2.0 * MaxLat, g.cellSize);
    Envelope(MinLon + col as real * g.cellSize,
             MinLat + row as real * g.cellSize,
             MinLon + col as real * g.cellSize + g.cellSize,
             MinLat + row as real * g.cellSize + g.cellSize)
  }

  /** Index `i` below `floor(extent / size)` gives a cell `[i*size, (i+1)*size]` inside `[0, extent]`. */
  lemma CornerInside(i: int, n: int, extent: real, size: real)
    requires size > 0.0 && n == (extent / size).Floor && 0 <= i
    ensures i < n ==> 0.0 <= i as real * size && i as real * size + size <= extent
  {
    if i < n {
      FloorDivBounds(extent, size);
      MulMonotone(0.0, i as real, size);
      MulMonotone((i + 1) as real, n as real, size);
      Distribute1(i, size);
    }
  }

  lemma Distribute1(i: int, size: real)
    ensures (i + 1) as real * size == i as real * size + size
  {}

  /** A point whose row and column are those of `cell` maps to `cell`. */
  lemma ToCellIdOfCell(g: Grid, cell: int, lat: real, lon: real)
    requires g.Valid() && 0 <= cell < g.CellCount() && InDomain(lat, lon)
    requires ((lat + MaxLat) / g.cellSize).Floor == Row(g, cell)
    requires ((lon + MaxLon) / g.cellSize).Floor == Col(g, cell)
    ensures ToCellId(g, lat, lon) == Ok(cell)
  {
    ToCellIdOfRowCol(g, lat, lon, Row(g, cell), Col(g, cell));
  }

  /** Every point of a cell's box, east and north edges excepted, maps back to that cell. */
  lemma CellRoundTrip(g: Grid, cell: int, lat: real, lon: real)
    requires g.Valid() && 0 <= cell < g.CellCount()
    requires var e := InitCellEnvelope(g, cell);
      e.yMin <= lat < e.yMax && e.xMin <= lon < e.xMax
    ensures ToCellId(g, lat, lon) == Ok(cell)
  {
    PointOfCell(g, cell, lat, lon);
    ToCellIdOfCell(g, cell, lat, lon);
  }

  /** A point of a cell's box lies in the domain, in the cell's row and in its column. */
  lemma PointOfCell(g: Grid, cell: int, lat: real, lon: real)
    requires g.Valid() && 0 <= cell < g.CellCount()
    requires var e := InitCellEnvelope(g, cell);
      e.yMin <= lat < e.yMax && e.xMin <= lon < e.xMax
    ensures InDomain(lat, lon)
    ensures ((lat + MaxLat) / g.cellSize).Floor == Row(g, cell)
    ensures ((lon + MaxLon) / g.cellSize).Floor == Col(g, cell)
  {
    var e := InitCellEnvelope(g, cell);
    assert MinLat <= lat <= MaxLat && MinLon <= lon <= MaxLon;
    assert ((lat + MaxLat) / g.cellSize).Floor == Row(g, cell) by {
      PointInSlot(lat, Row(g, cell), g.cellSize, MinLat, MaxLat, e.yMin, e.yMax);
    }
    assert ((lon + MaxLon) / g.cellSize).Floor == Col(g, cell) by {
      PointInSlot(lon, Col(g, cell), g.cellSize, MinLon, MaxLon, e.xMin, e.xMax);
    }
  }

  /**
   * Along one axis starting at `lo` (offset by `shift == -lo`): a coordinate
   * in the half-open box of slot `k` lies in slot `k`.
   */
  lemma PointInSlot(v: real, k: int, size: real, lo: real, shift: real, boxMin: real, boxMax: real)
    requires size > 0.0 && shift == -lo
    requires boxMin == lo + k as real * size && boxMax - boxMin == size
    requires boxMin <= v < boxMax
    ensures ((v + shift) / size).Floor == k
  {
    FloorInCell(v + shift, boxMin + shift, k, size);
  }

  /** The south-west corner of the domain is cell 0 and the north-east corner the last cell. */
  lemma GridCorners(g: Grid)
    requires g.Valid() && g.CellCount() > 0
    ensures ToCellId(g, MinLat, MinLon) == Ok(0)
    ensures ToCellId(g, MaxLat, MaxLon) == Ok(g.CellCount() - 1)
  {
    DimensionsAreFloors(g);
    assert ((MinLat + MaxLat) / g.cellSize).Floor == 0;
    assert ((MinLon + MaxLon) / g.cellSize).Floor == 0;
    MulAtLeast(1, g.maxLatCell, g.maxLonCell);
  }

  /**
   * Latitude 90 is one row past the last; the clamp pulls every point on the
   * north edge, whatever its longitude, to the last cell, the top row's last column.
   */
  lemma NorthEdgeClamped(g: Grid, lon: real)
    requires g.Valid() && g.CellCount() > 0 && MinLon <= lon <= MaxLon
    ensures ToCellId(g, MaxLat, lon) == Ok(g.CellCount() - 1)
  {
    DimensionsAreFloors(g);
    LongitudeColBounds(g, lon);
    assert LatitudeId(g, MaxLat) == g.CellCount();
  }

  /**
   * Every longitude whose column index is `maxLonCell` lies one column past
   * the last: longitude 180 always, and the whole strip east of the last whole
   * column when the cell size does not divide 360. Below the top row such a
   * point lands on column 0 of the next row up; only in the top row does the
   * clamp pull it back.
   */
  lemma EastEdgeWrapsToNextRow(g: Grid, lat: real, lon: real)
    requires g.Valid() && MinLat <= lat <= MaxLat && MinLon <= lon <= MaxLon
    requires ((lon + MaxLon) / g.cellSize).Floor == g.maxLonCell
    requires ((lat + MaxLat) / g.cellSize).Floor + 1 < g.maxLatCell
    ensures ToCellId(g, lat, lon).Ok?
    ensures Row(g, ToCellId(g, lat, lon).value) == ((lat + MaxLat) / g.cellSize).Floor + 1
    ensures Col(g, ToCellId(g, lat, lon).value) == 0
  {
    var row := ((lat + MaxLat) / g.cellSize).Floor;
    FloorDivAtLeast(lat + MaxLat, 0, g.cellSize);
    RowColOfId(g, row + 1, 0);
    MulAtLeast(row + 2, g.maxLatCell, g.maxLonCell);
    assert ToCellId(g, lat, lon).value == (row + 1) * g.maxLonCell;
  }

  /** Longitude 180 is always in the strip past the last column. */
  lemma EastEdgeIndex(g: Grid)
    requires g.Valid()
    ensures ((MaxLon + MaxLon) / g.cellSize).Floor == g.maxLonCell
  {
    DimensionsAreFloors(g);
  }

  /**
   * With 7-degree cells (51 columns, 25 rows) the strip reaches 3 degrees west
   * of 180: the point (0, 178) of row 12 gets id 13 * 51, column 0 of row 13.
   */
  lemma SevenDegreeEastStrip()
    ensures GridFor(7.0) == Grid(7.0, 51, 25)
    ensures ToCellId(GridFor(7.0), 0.0, 178.0) == Ok(13 * 51)
  {
    var g := GridFor(7.0);
    assert g == Grid(7.0, 51, 25);
    EastEdgeWrapsToNextRow(g, 0.0, 178.0);
    assert ToCellId(g, 0.0, 178.0).value == 12 * 51 + 51;
  }

  // ---------------------------------------------------------------------
  // Floor of a quotient by a positive cell size

  lemma FloorDivMonotone(x: real, y: real, size: real)
    requires size > 0.0 && x <= y
    ensures (x / size).Floor <= (y / size).Floor
  {
    FloorDivBounds(y, size);
    FloorDivAtMost(x, (y / size).Floor, size);
  }


  lemma FloorDivBounds(x: real, size: real)
    requires size > 0.0
    ensures (x / size).Floor as real * size <= x < ((x / size).Floor + 1) as real * size
  {
    var q := x / size;
    var k := q.Floor;
    assert q * size == x;
    assert k as real <= q < (k + 1) as real;
    MulMonotone(k as real, q, size);
    MulStrictMonotone(q, (k + 1) as real, size);
    assert q * size < (k + 1) as real * size;
    assert x < (k + 1) as real * size;
  }

  lemma MulMonotone(a: real, b: real, c: real)
    requires a <= b && c > 0.0
    ensures a * c <= b * c
  {}

  lemma MulStrictMonotone(a: real, b: real, c: real)
    requires a < b && c > 0.0
    ensures a * c < b * c
  {}

  /** A point less than `k + 1` cells from the origin lies in a cell of index at most `k`. */
  lemma FloorDivAtMost(x: real, k: int, size: real)
    requires size > 0.0 && x < (k + 1) as real * size
    ensures (x / size).Floor <= k
  {
    var q := x / size;
    assert q * size == x;
    MulLessCancel(q, (k + 1) as real, size);
  }

  /** A point at least `k` cells from the origin lies in a cell of index at least `k`. */
  lemma FloorDivAtLeast(x: real, k: int, size: real)
    requires size > 0.0 && k as real * size <= x
    ensures (x / size).Floor >= k
  {
    var q := x / size;
    assert q * size == x;
    MulAtMostCancel(k as real, q, size);
  }

  lemma MulLessCancel(a: real, b: real, c: real)
    requires c > 0.0 && a * c < b * c
    ensures a < b
  {
    if a >= b {
      MulMonotone(b, a, c);
    }
  }

  lemma MulAtMostCancel(a: real, b: real, c: real)
    requires c > 0.0 && a * c <= b * c
    ensures a <= b
  {
    if a > b {
      MulStrictMonotone(b, a, c);
    }
  }

  /** A point of the cell `[k*size, (k+1)*size)` lies in cell `k`. */
  lemma FloorInCell(x: real, lo: real, k: int, size: real)
    requires size > 0.0 && lo == k as real * size && lo <= x < lo + size
    ensures (x / size).Floor == k
  {
    FloorDivOfCorner(k, x - lo, size);
  }

  /** An offset of less than one cell from the corner of cell `k` stays in cell `k`. */
  lemma FloorDivOfCorner(k: int, d: real, size: real)
    requires size > 0.0 && 0.0 <= d < size
    ensures ((k as real * size + d) / size).Floor == k
  {
    FloorDivAtLeast(k as real * size + d, k, size);
    FloorDivAtMost(k as real * size + d, k, size);
  }
}
