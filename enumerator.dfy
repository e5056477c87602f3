/**
 * Candidate enumeration and classification for one geometry: buffer its
 * envelope by a cell, turn the two corners into an id range and a column
 * window, walk the range in increasing id order and emit every cell that
 * the geometry intersects, flagged with whether it contains the cell.
 */
module Enumerator {
  import opened Grid

  /**
   * The geometry as the geometry engine answers queries about it: whether it
   * intersects a box, and whether it contains the box entirely.
   */
  datatype Shape = Shape(intersects: Envelope -> bool, contains: Envelope -> bool)

  /** One forwarded row: a cell id and whether the geometry fully covers that cell. */
  datatype CellRecord = CellRecord(cell: int, fullyCovered: bool)

  /** The id range `[lower, upper]` to walk and the column window `[omitLeft, omitRight]` to keep. */
  datatype Plan = Plan(lower: int, upper: int, omitLeft: int, omitRight: int)

  function RealMin(a: real, b: real): real { if a <= b then a else b }

  function RealMax(a: real, b: real): real { if a >= b then a else b }

  /**
   * The candidate range of an envelope: widened by one cell and clamped to the
   * domain, its corners mapped to ids, the ids clipped to the grid, and the
   * column window read off the two clipped ids.
   */
  function CandidatePlan(g: Grid, minLat: real, maxLat: real, minLon: real, maxLon: real): (r: Result<Plan>)
    requires g.Valid()
    ensures r.Err? <==>
      || minLat - g.cellSize > MaxLat || minLon - g.cellSize > MaxLon
      || maxLat + g.cellSize < MinLat || maxLon + g.cellSize < MinLon
    ensures r.Ok? ==> 0 <= r.value.lower && r.value.upper <= g.CellCount() - 1
    ensures r.Ok? ==> 0 <= r.value.omitLeft < g.maxLonCell && 0 < r.value.omitRight <= g.maxLonCell
  {
    var south := RealMax(MinLat, minLat - g.cellSize);
    var west := RealMax(MinLon, minLon - g.cellSize);
    var north := RealMin(MaxLat, maxLat + g.cellSize);
    var east := RealMin(MaxLon, maxLon + g.cellSize);
    var lowerId := ToCellId(g, south, west);
    var upperId := ToCellId(g, north, east);
    if lowerId.Err? then Err(lowerId.error)
    else if upperId.Err? then Err(upperId.error)
    else
      var lower := Max(0, lowerId.value);
      var upper := Min(g.CellCount() - 1, upperId.value);
      var right := JavaRem(upper, g.maxLonCell);
      WindowRightBound(g, upper);
      Ok(Plan(lower, upper, JavaRem(lower, g.maxLonCell), if right == 0 then g.maxLonCell else right))
  }

  /** The last id is either a real id or -1 on a grid without rows, where there is one column only. */
  lemma WindowRightBound(g: Grid, upper: int)
    requires g.Valid() && upper <= g.CellCount() - 1 && (g.CellCount() > 0 ==> 0 <= upper)
    requires g.CellCount() == 0 ==> upper == -1
    ensures 0 <= JavaRem(upper, g.maxLonCell)
  {
    if g.CellCount() == 0 {
      assert g.maxLatCell == 0;
      assert g.maxLonCell == 1;
    }
  }

  /** Whether the column of id `i` lies in the plan's column window. */
  predicate InWindow(g: Grid, p: Plan, i: int)
    requires g.Valid() && 0 <= i
  {
    p.omitLeft <= i % g.maxLonCell <= p.omitRight
  }

  /** What the loop forwards for candidate `i`: nothing, or the cell with its coverage flag. */
  function Classify(g: Grid, shape: Shape, p: Plan, i: int): (rows: seq<CellRecord>)
    requires g.Valid() && 0 <= i
    ensures |rows| <= 1 && forall k :: 0 <= k < |rows| ==> rows[k].cell == i
  {
    if InWindow(g, p, i) && shape.intersects(InitCellEnvelope(g, i)) then
      [CellRecord(i, shape.contains(InitCellEnvelope(g, i)))]
    else
      []
  }

  /** The rows forwarded for the ids `p.lower .. hi - 1`, in increasing id order. */
  function Scanned(g: Grid, shape: Shape, p: Plan, hi: int): seq<CellRecord>
    requires g.Valid() && 0 <= p.lower
    decreases hi - p.lower
  {
    if hi <= p.lower then [] else Scanned(g, shape, p, hi - 1) + Classify(g, shape, p, hi - 1)
  }

  /** Everything forwarded for an envelope, or the error that aborts the call before anything is forwarded. */
  function Decomposition(g: Grid, minLat: real, maxLat: real, minLon: real, maxLon: real, shape: Shape)
    : Result<seq<CellRecord>>
    requires g.Valid()
  {
    match CandidatePlan(g, minLat, maxLat, minLon, maxLon)
    case Err(e) => Err(e)
    case Ok(p) => Ok(Scanned(g, shape, p, p.upper + 1))
  }

  /**
   * Buffers the envelope, computes the id range and the column window step by
   * step, then walks the range and appends a record for every candidate the
   * geometry intersects.
   */
  method GetCellsEnclosedBy(g: Grid, minLat: real, maxLat: real, minLon: real, maxLon: real,
                            cellSize: real, shape: Shape)
    returns (r: Result<seq<CellRecord>>)
    requires g.Valid() && cellSize == g.cellSize
    ensures r == Decomposition(g, minLat, maxLat, minLon, maxLon, shape)
  {
    // a one-cell buffer around the envelope, kept inside the domain
    var south := RealMax(MinLat, minLat - cellSize);
    var west := RealMax(MinLon, minLon - cellSize);
    var north := RealMin(MaxLat, maxLat + cellSize);
    var east := RealMin(MaxLon, maxLon + cellSize);

    var lowerId := ToCellId(g, south, west);
    if lowerId.Err? {
      return Err(lowerId.error);
    }
    var upperId := ToCellId(g, north, east);
    if upperId.Err? {
      return Err(upperId.error);
    }
    var lower := lowerId.value;
    var upper := upperId.value;

    // clip to the cell limit
    lower := Max(0, lower);
    upper := Min(g.CellCount() - 1, upper);

    var omitLeft := JavaRem(lower, g.maxLonCell);
    var omitRight := JavaRem(upper, g.maxLonCell);
    if omitRight == 0 {
      omitRight := g.maxLonCell;
    }
    ghost var p := Plan(lower, upper, omitLeft, omitRight);
    assert CandidatePlan(g, minLat, maxLat, minLon, maxLon) == Ok(p);

    var rows: seq<CellRecord> := [];
    var i := lower;
    while i <= upper
      invariant lower <= i && (i <= upper + 1 || i == lower)
      invariant rows == Scanned(g, shape, p, i)
    {
      if i % g.maxLonCell >= omitLeft && i % g.maxLonCell <= omitRight {
        var cell := InitCellEnvelope(g, i);
        if shape.intersects(cell) {
          if shape.contains(cell) {
            rows := rows + [CellRecord(i, true)];
          } else {
            rows := rows + [CellRecord(i, false)];
          }
        }
      }
      i := i + 1;
    }
    if i == lower {
      assert Scanned(g, shape, p, upper + 1) == [];
    }
    return Ok(rows);
  }

  // ---------------------------------------------------------------------
  // What is forwarded

  /** The records' ids strictly increase, so no cell appears twice. */
  predicate StrictlyIncreasing(rows: seq<CellRecord>) {
    forall j, k :: 0 <= j < k < |rows| ==> rows[j].cell < rows[k].cell
  }

  /** Every record's id lies in `[lo, hi)`. */
  predicate CellsWithin(rows: seq<CellRecord>, lo: int, hi: int) {
    forall k :: 0 <= k < |rows| ==> lo <= rows[k].cell < hi
  }

  /** Forwarded ids lie in the walked range and strictly increase, so no cell is forwarded twice. */
  lemma {:induction false} ScannedOrdered(g: Grid, shape: Shape, p: Plan, hi: int)
    requires g.Valid() && 0 <= p.lower
    ensures CellsWithin(Scanned(g, shape, p, hi), p.lower, hi)
    ensures StrictlyIncreasing(Scanned(g, shape, p, hi))
    decreases hi - p.lower
  {
    if hi > p.lower {
      ScannedOrdered(g, shape, p, hi - 1);
    }
  }

  /**
   * A record is forwarded exactly when its id was walked, its column is in the
   * window and the geometry intersects the cell; its flag is then whether the
   * geometry contains the cell.
   */
  lemma {:induction false} ScannedMembership(g: Grid, shape: Shape, p: Plan, hi: int, i: int, fullyCovered: bool)
    requires g.Valid() && 0 <= p.lower
    ensures CellRecord(i, fullyCovered) in Scanned(g, shape, p, hi) <==>
      && p.lower <= i < hi
      && InWindow(g, p, i)
      && shape.intersects(InitCellEnvelope(g, i))
      && fullyCovered == shape.contains(InitCellEnvelope(g, i))
    decreases hi - p.lower
  {
    if hi > p.lower {
      ScannedMembership(g, shape, p, hi - 1, i, fullyCovered);
    }
  }

  /**
   * What one call forwards: valid cell ids in strictly increasing order, each
   * one intersected by the geometry, each flagged fully covered exactly when
   * the geometry contains it.
   */
  lemma DecompositionRows(g: Grid, minLat: real, maxLat: real, minLon: real, maxLon: real, shape: Shape)
    requires g.Valid()
    ensures Decomposition(g, minLat, maxLat, minLon, maxLon, shape).Ok? ==>
      && CellsWithin(Decomposition(g, minLat, maxLat, minLon, maxLon, shape).value, 0, g.CellCount())
      && StrictlyIncreasing(Decomposition(g, minLat, maxLat, minLon, maxLon, shape).value)
      && Classified(g, shape, Decomposition(g, minLat, maxLat, minLon, maxLon, shape).value)
  {
    var plan := CandidatePlan(g, minLat, maxLat, minLon, maxLon);
    if plan.Ok? {
      var p := plan.value;
      var rows := Scanned(g, shape, p, p.upper + 1);
      ScannedOrdered(g, shape, p, p.upper + 1);
      forall k | 0 <= k < |rows|
        ensures shape.intersects(InitCellEnvelope(g, rows[k].cell))
        ensures rows[k].fullyCovered == shape.contains(InitCellEnvelope(g, rows[k].cell))
      {
        ScannedMembership(g, shape, p, p.upper + 1, rows[k].cell, rows[k].fullyCovered);
      }
    }
  }

  /** Every record names a cell the geometry intersects, flagged with whether the geometry contains it. */
  predicate Classified(g: Grid, shape: Shape, rows: seq<CellRecord>)
    requires g.Valid()
  {
    forall k :: 0 <= k < |rows| ==>
      && 0 <= rows[k].cell
      && shape.intersects(InitCellEnvelope(g, rows[k].cell))
      && rows[k].fullyCovered == shape.contains(InitCellEnvelope(g, rows[k].cell))
  }

  // ---------------------------------------------------------------------
  // The candidate range misses no cell near the envelope

  /** Whether box `e` touches the envelope `[minLat, maxLat] x [minLon, maxLon]` (closed on both sides). */
  predicate Meets(e: Envelope, minLat: real, maxLat: real, minLon: real, maxLon: real)
    requires e.Envelope?
  {
    e.yMin <= maxLat && minLat <= e.yMax && e.xMin <= maxLon && minLon <= e.xMax
  }

  /** An envelope inside the domain with its corners in order gives a plan, and a non-empty range on a grid with cells. */
  lemma PlanOfDomainEnvelope(g: Grid, minLat: real, maxLat: real, minLon: real, maxLon: real)
    requires g.Valid()
    requires MinLat <= minLat <= maxLat <= MaxLat && MinLon <= minLon <= maxLon <= MaxLon
    ensures CandidatePlan(g, minLat, maxLat, minLon, maxLon).Ok?
    ensures g.CellCount() > 0 ==>
      CandidatePlan(g, minLat, maxLat, minLon, maxLon).value.lower
        <= CandidatePlan(g, minLat, maxLat, minLon, maxLon).value.upper
  {
    var south := RealMax(MinLat, minLat - g.cellSize);
    var west := RealMax(MinLon, minLon - g.cellSize);
    var north := RealMin(MaxLat, maxLat + g.cellSize);
    var east := RealMin(MaxLon, maxLon + g.cellSize);
    ToCellIdMonotone(g, south, west, north, east);
  }

  /**
   * Along one axis running from `lo` (offset by `shift == -lo` to start at
   * 0): a lower bound `v` that reaches up to the top of the box of slot `k`,
   * buffered by one cell and clamped, falls in a slot between 0 and `k`.
   */
  lemma BufferedLowSlot(v: real, k: int, cs: real, lo: real, shift: real, boxMin: real, boxMax: real)
    requires cs > 0.0 && shift == -lo && 0 <= k
    requires boxMin == lo + k as real * cs && boxMax - boxMin == cs
    requires lo <= v <= boxMax
    ensures 0 <= ((RealMax(lo, v - cs) + shift) / cs).Floor <= k
  {
    var b := RealMax(lo, v - cs);
    assert b + shift <= k as real * cs by {
      if b == lo {
        MulMonotone(0.0, k as real, cs);
      }
    }
    Distribute1(k, cs);
    FloorDivAtMost(b + shift, k, cs);
    FloorDivAtLeast(b + shift, 0, cs);
  }

  /**
   * Along one axis running from `lo` to `hi` (offset by `shift == -lo`) and
   * holding `n` whole slots: an upper bound `v` that reaches down to the
   * bottom of the box of slot `k`, buffered by one cell and clamped, falls in
   * a slot between `k` and `n`.
   */
  lemma BufferedHighSlot(v: real, k: int, n: int, cs: real, lo: real, hi: real, shift: real, boxMin: real)
    requires cs > 0.0 && shift == -lo && 0 <= k
    requires n as real * cs <= hi + shift < (n + 1) as real * cs
    requires boxMin == lo + k as real * cs && boxMin <= v <= hi
    ensures k <= ((RealMin(hi, v + cs) + shift) / cs).Floor <= n
  {
    var b := RealMin(hi, v + cs);
    assert k as real * cs <= b + shift;
    FloorDivAtLeast(b + shift, k, cs);
    FloorDivAtMost(b + shift, n, cs);
  }

  /**
   * The buffered south-west corner of an envelope that reaches up to a cell's
   * box lies in a row and a column no greater than the cell's.
   */
  lemma SouthWestCorner(g: Grid, minLat: real, minLon: real, cell: int)
    requires g.Valid() && 0 <= cell < g.CellCount() && InDomain(minLat, minLon)
    requires minLat <= InitCellEnvelope(g, cell).yMax && minLon <= InitCellEnvelope(g, cell).xMax
    ensures ToCellId(g, RealMax(MinLat, minLat - g.cellSize), RealMax(MinLon, minLon - g.cellSize)).Ok?
    ensures 0 <= ToCellId(g, RealMax(MinLat, minLat - g.cellSize), RealMax(MinLon, minLon - g.cellSize)).value <= cell
    ensures JavaRem(ToCellId(g, RealMax(MinLat, minLat - g.cellSize), RealMax(MinLon, minLon - g.cellSize)).value,
                    g.maxLonCell) <= Col(g, cell)
  {
    var cs, m := g.cellSize, g.maxLonCell;
    var south := RealMax(MinLat, minLat - cs);
    var west := RealMax(MinLon, minLon - cs);
    var row, col := Row(g, cell), Col(g, cell);
    SouthRow(g, minLat, cell);
    WestColumn(g, minLon, cell);
    var rowLo, colLo := ((south + MaxLat) / cs).Floor, ((west + MaxLon) / cs).Floor;
    ToCellIdOfRowCol(g, south, west, rowLo, colLo);
    MulAtLeast(rowLo, row, m);
  }

  lemma SouthRow(g: Grid, minLat: real, cell: int)
    requires g.Valid() && 0 <= cell < g.CellCount() && MinLat <= minLat <= MaxLat
    requires minLat <= InitCellEnvelope(g, cell).yMax
    ensures 0 <= ((RealMax(MinLat, minLat - g.cellSize) + MaxLat) / g.cellSize).Floor <= Row(g, cell)
  {
    var e := InitCellEnvelope(g, cell);
    BufferedLowSlot(minLat, Row(g, cell), g.cellSize, MinLat, MaxLat, e.yMin, e.yMax);
  }

  lemma WestColumn(g: Grid, minLon: real, cell: int)
    requires g.Valid() && 0 <= cell < g.CellCount() && MinLon <= minLon <= MaxLon
    requires minLon <= InitCellEnvelope(g, cell).xMax
    ensures 0 <= ((RealMax(MinLon, minLon - g.cellSize) + MaxLon) / g.cellSize).Floor <= Col(g, cell)
  {
    var e := InitCellEnvelope(g, cell);
    BufferedLowSlot(minLon, Col(g, cell), g.cellSize, MinLon, MaxLon, e.xMin, e.xMax);
  }

  /**
   * The buffered north-east corner of an envelope that reaches down to a
   * cell's box gives an id no smaller than the cell, and a window whose right
   * edge (a remainder of 0 standing for the last column) is no left of the
   * cell's column once the id is clipped to the grid.
   */
  lemma NorthEastCorner(g: Grid, maxLat: real, maxLon: real, cell: int)
    requires g.Valid() && 0 <= cell < g.CellCount() && InDomain(maxLat, maxLon)
    requires InitCellEnvelope(g, cell).yMin <= maxLat && InitCellEnvelope(g, cell).xMin <= maxLon
    ensures ToCellId(g, RealMin(MaxLat, maxLat + g.cellSize), RealMin(MaxLon, maxLon + g.cellSize)).Ok?
    ensures cell <= ToCellId(g, RealMin(MaxLat, maxLat + g.cellSize), RealMin(MaxLon, maxLon + g.cellSize)).value
    ensures
      var right := JavaRem(ToCellId(g, RealMin(MaxLat, maxLat + g.cellSize), RealMin(MaxLon, maxLon + g.cellSize)).value,
                           g.maxLonCell);
      right == 0 || Col(g, cell) <= right
  {
    var cs, m := g.cellSize, g.maxLonCell;
    var north := RealMin(MaxLat, maxLat + cs);
    var east := RealMin(MaxLon, maxLon + cs);
    var rowHi, colHi := ((north + MaxLat) / cs).Floor, ((east + MaxLon) / cs).Floor;
    NorthEastSlots(g, maxLat, maxLon, cell);
    assert ToCellId(g, north, east) == Ok(Min(Max(rowHi * m + colHi, 0), g.maxLatCell * m - 1));
    WindowRightEdge(m, g.maxLatCell, rowHi, colHi, Row(g, cell), Col(g, cell));
  }

  /** The real-valued half of the north-east corner: its row and column are at least the cell's, and inside the grid. */
  lemma NorthEastSlots(g: Grid, maxLat: real, maxLon: real, cell: int)
    requires g.Valid() && 0 <= cell < g.CellCount() && InDomain(maxLat, maxLon)
    requires InitCellEnvelope(g, cell).yMin <= maxLat && InitCellEnvelope(g, cell).xMin <= maxLon
    ensures Row(g, cell) <= ((RealMin(MaxLat, maxLat + g.cellSize) + MaxLat) / g.cellSize).Floor <= g.maxLatCell
    ensures Col(g, cell) <= ((RealMin(MaxLon, maxLon + g.cellSize) + MaxLon) / g.cellSize).Floor <= g.maxLonCell
  {
    NorthRow(g, maxLat, cell);
    EastColumn(g, maxLon, cell);
  }

  lemma NorthRow(g: Grid, maxLat: real, cell: int)
    requires g.Valid() && 0 <= cell < g.CellCount() && MinLat <= maxLat <= MaxLat
    requires InitCellEnvelope(g, cell).yMin <= maxLat
    ensures Row(g, cell) <= ((RealMin(MaxLat, maxLat + g.cellSize) + MaxLat) / g.cellSize).Floor <= g.maxLatCell
  {
    var e := InitCellEnvelope(g, cell);
    BufferedHighSlot(maxLat, Row(g, cell), g.maxLatCell, g.cellSize, MinLat, MaxLat, MaxLat, e.yMin);
  }

  lemma EastColumn(g: Grid, maxLon: real, cell: int)
    requires g.Valid() && 0 <= cell < g.CellCount() && MinLon <= maxLon <= MaxLon
    requires InitCellEnvelope(g, cell).xMin <= maxLon
    ensures Col(g, cell) <= ((RealMin(MaxLon, maxLon + g.cellSize) + MaxLon) / g.cellSize).Floor <= g.maxLonCell
  {
    var e := InitCellEnvelope(g, cell);
    BufferedHighSlot(maxLon, Col(g, cell), g.maxLonCell, g.cellSize, MinLon, MaxLon, MaxLon, e.xMin);
  }

  /**
   * The integer half of the north-east corner, on a grid of `rows` rows of
   * `m` columns: an id composed of a row and a column (a column of `m` being
   * the east edge) at least those of a cell, once clipped, is no smaller than
   * the cell and keeps the cell's column in the window.
   */
  lemma WindowRightEdge(m: int, rows: int, rowHi: int, colHi: int, row: int, col: int)
    requires 0 <= row <= rowHi <= rows && 0 <= col <= colHi <= m
    requires row < rows && col < m
    ensures row * m + col <= Min(Max(rowHi * m + colHi, 0), rows * m - 1)
    ensures JavaRem(Min(Max(rowHi * m + colHi, 0), rows * m - 1), m) == 0 ||
            col <= JavaRem(Min(Max(rowHi * m + colHi, 0), rows * m - 1), m)
  {
    var raw := rowHi * m + colHi;
    MulAtLeast(row, rowHi, m);
    MulAtLeast(row + 1, rows, m);
    assert (row + 1) * m == row * m + m;
    assert row * m + col <= raw && row * m + col <= rows * m - 1;
    if raw <= rows * m - 1 {
      assert Min(Max(raw, 0), rows * m - 1) == raw;
      if colHi < m {
        DivModUnique(rowHi, colHi, m);
      } else {
        assert raw == (rowHi + 1) * m + 0;
        DivModUnique(rowHi + 1, 0, m);
      }
    } else {
      assert Min(Max(raw, 0), rows * m - 1) == rows * m - 1;
      assert rows * m - 1 == (rows - 1) * m + (m - 1);
      DivModUnique(rows - 1, m - 1, m);
    }
  }

  /**
   * Conservativeness of the candidate range: every cell whose box touches an
   * envelope inside the domain is walked and passes the column window.
   */
  lemma CandidatesCoverEnvelope(g: Grid, minLat: real, maxLat: real, minLon: real, maxLon: real, cell: int)
    requires g.Valid() && InDomain(minLat, minLon) && InDomain(maxLat, maxLon)
    requires 0 <= cell < g.CellCount() && Meets(InitCellEnvelope(g, cell), minLat, maxLat, minLon, maxLon)
    ensures CandidatePlan(g, minLat, maxLat, minLon, maxLon).Ok?
    ensures CandidatePlan(g, minLat, maxLat, minLon, maxLon).value.lower <= cell
              <= CandidatePlan(g, minLat, maxLat, minLon, maxLon).value.upper
    ensures InWindow(g, CandidatePlan(g, minLat, maxLat, minLon, maxLon).value, cell)
  {
    SouthWestCorner(g, minLat, minLon, cell);
    NorthEastCorner(g, maxLat, maxLon, cell);
  }

  /** Whether every box the geometry intersects touches the envelope: the envelope bounds the geometry. */
  ghost predicate BoundedBy(shape: Shape, minLat: real, maxLat: real, minLon: real, maxLon: real) {
    forall b: Envelope | b.Envelope? && shape.intersects(b) :: Meets(b, minLat, maxLat, minLon, maxLon)
  }

  /**
   * For an envelope inside the domain that bounds the geometry, the call
   * forwards exactly the cells the geometry intersects, each once, each
   * flagged with whether the geometry contains it: narrowing to the window
   * loses no cell.
   */
  lemma {:induction false} DecompositionExact(g: Grid, minLat: real, maxLat: real, minLon: real, maxLon: real,
                                              shape: Shape, cell: int, fullyCovered: bool)
    requires g.Valid() && InDomain(minLat, minLon) && InDomain(maxLat, maxLon)
    requires BoundedBy(shape, minLat, maxLat, minLon, maxLon)
    ensures Decomposition(g, minLat, maxLat, minLon, maxLon, shape).Ok?
    ensures CellRecord(cell, fullyCovered) in Decomposition(g, minLat, maxLat, minLon, maxLon, shape).value <==>
      && 0 <= cell < g.CellCount()
      && shape.intersects(InitCellEnvelope(g, cell))
      && fullyCovered == shape.contains(InitCellEnvelope(g, cell))
  {
    var plan := CandidatePlan(g, minLat, maxLat, minLon, maxLon);
    assert plan.Ok?;
    var p := plan.value;
    ScannedMembership(g, shape, p, p.upper + 1, cell, fullyCovered);
    if 0 <= cell < g.CellCount() && shape.intersects(InitCellEnvelope(g, cell)) {
      CandidatesCoverEnvelope(g, minLat, maxLat, minLon, maxLon, cell);
    }
  }

  /**
   * On the one-degree grid, a 2-by-2 degree square around the origin is
   * widened to 4-by-4 degrees: rows 88 to 92, columns 178 to 182.
   */
  lemma OriginSquarePlan()
    ensures GridFor(1.0) == Grid(1.0, 360, 180)
    ensures CandidatePlan(GridFor(1.0), -1.0, 1.0, -1.0, 1.0) == Ok(Plan(88 * 360 + 178, 92 * 360 + 182, 178, 182))
  {
    var g := GridFor(1.0);
    assert g == Grid(1.0, 360, 180);
    ToCellIdOfRowCol(g, -2.0, -2.0, 88, 178);
    ToCellIdOfRowCol(g, 2.0, 2.0, 92, 182);
  }
}
