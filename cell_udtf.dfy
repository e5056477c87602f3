/**
 * The table function itself: the grid parameters are fixed by the first row
 * it processes, and every later row's geometry is screened and, when it is a
 * non-empty polygon with a non-empty envelope, decomposed into the cells it
 * intersects, which are appended to the forwarded output.
 */
module CellUdtf {
  import opened Grid
  import opened Enumerator

  datatype Option<T> = None | Some(value: T)

  /**
   * A decoded geometry as the table function inspects it: its type name, whether
   * it has no points, its bounding envelope, and the engine's answers about it.
   */
  datatype Geometry = Geometry(geometryType: string, isEmpty: bool, envelope: Envelope, shape: Shape)

  /** How one call ends: normally, or by raising the error that aborts the query. */
  datatype Outcome = Completed | Raised(error: CellError)

  /** Whether a row's geometry gets decomposed at all; every other row is skipped with a warning. */
  predicate Decomposable(geometry: Option<Geometry>) {
    && geometry.Some?
    && !geometry.value.isEmpty
    && (geometry.value.geometryType == "Polygon" || geometry.value.geometryType == "MultiPolygon")
    && geometry.value.envelope.Envelope?
  }

  /**
   * What one row forwards: nothing for a skipped geometry, otherwise the
   * decomposition of its envelope. Whatever is forwarded is a strictly
   * increasing run of valid cell ids, each intersected by the geometry and
   * flagged with whether the geometry contains it.
   */
  function CellsOf(g: Grid, geometry: Option<Geometry>): (r: Result<seq<CellRecord>>)
    requires g.Valid()
    ensures !Decomposable(geometry) ==> r == Ok([])
    ensures r.Ok? && Decomposable(geometry) ==>
      && CellsWithin(r.value, 0, g.CellCount())
      && StrictlyIncreasing(r.value)
      && Classified(g, geometry.value.shape, r.value)
  {
    if !Decomposable(geometry) then Ok([])
    else
      var env := geometry.value.envelope;
      DecompositionRows(g, env.yMin, env.yMax, env.xMin, env.xMax, geometry.value.shape);
      Decomposition(g, env.yMin, env.yMax, env.xMin, env.xMax, geometry.value.shape)
  }

  /**
   * A polygon whose envelope lies inside the domain and bounds it is never
   * rejected, and exactly the cells it intersects are forwarded for it, each
   * with its coverage flag.
   */
  lemma {:induction false} PolygonCellsExact(g: Grid, geometry: Geometry, cell: int, fullyCovered: bool)
    requires g.Valid() && Decomposable(Some(geometry))
    requires InDomain(geometry.envelope.yMin, geometry.envelope.xMin)
    requires InDomain(geometry.envelope.yMax, geometry.envelope.xMax)
    requires BoundedBy(geometry.shape, geometry.envelope.yMin, geometry.envelope.yMax,
                       geometry.envelope.xMin, geometry.envelope.xMax)
    ensures CellsOf(g, Some(geometry)).Ok?
    ensures CellRecord(cell, fullyCovered) in CellsOf(g, Some(geometry)).value <==>
      && 0 <= cell < g.CellCount()
      && geometry.shape.intersects(InitCellEnvelope(g, cell))
      && fullyCovered == geometry.shape.contains(InitCellEnvelope(g, cell))
  {
    var env := geometry.envelope;
    DecompositionExact(g, env.yMin, env.yMax, env.xMin, env.xMax, geometry.shape, cell, fullyCovered);
  }

  /**
   * A polygon envelope is rejected with an error exactly when its corners,
   * widened by one cell, still miss the domain on some side.
   */
  lemma PolygonRejected(g: Grid, geometry: Geometry)
    requires g.Valid() && Decomposable(Some(geometry))
    ensures CellsOf(g, Some(geometry)).Err? <==>
      || geometry.envelope.yMin - g.cellSize > MaxLat || geometry.envelope.xMin - g.cellSize > MaxLon
      || geometry.envelope.yMax + g.cellSize < MinLat || geometry.envelope.xMax + g.cellSize < MinLon
  {
    var env := geometry.envelope;
    assert CandidatePlan(g, env.yMin, env.yMax, env.xMin, env.xMax).Err? <==>
      Decomposition(g, env.yMin, env.yMax, env.xMin, env.xMax, geometry.shape).Err?;
  }

  /**
   * The table function's state: the cell size and the grid dimensions, set
   * once by the first row, and the rows forwarded so far.
   */
  class CellUdtf {
    var cellSize: Option<real>
    var maxLonCell: int
    var maxLatCell: int
    var output: seq<CellRecord>

    /** Once the cell size is known, the dimensions are the ones it determines. */
    ghost predicate Valid()
      reads this
    {
      cellSize.Some? ==> cellSize.value > 0.0 && Grid(cellSize.value, maxLonCell, maxLatCell).Valid()
    }

    /** The grid the stored parameters describe. */
    function CurrentGrid(): (g: Grid)
      reads this
      requires Valid() && cellSize.Some?
      ensures g.Valid() && g.cellSize == cellSize.value
    {
      Grid(cellSize.value, maxLonCell, maxLatCell)
    }

    constructor()
      ensures Valid() && cellSize.None? && output == []
    {
      cellSize := None;
      maxLonCell := 0;
      maxLatCell := 0;
      output := [];
    }

    /**
     * Processes one row. The first row fixes the cell size and the grid; later
     * rows' cell sizes are ignored. A skipped geometry forwards nothing and
     * raises nothing; otherwise the geometry's cells are forwarded, or the
     * call raises before forwarding anything.
     */
    method Process(argCellSize: real, geometry: Option<Geometry>) returns (status: Outcome)
      requires Valid()
      requires cellSize.None? ==> 0.0 < argCellSize <= 2.0 * MaxLon
      modifies this
      ensures Valid() && cellSize.Some?
      ensures old(cellSize).Some? ==>
        cellSize == old(cellSize) && maxLonCell == old(maxLonCell) && maxLatCell == old(maxLatCell)
      ensures old(cellSize).None? ==> CurrentGrid() == GridFor(argCellSize)
      ensures CellsOf(CurrentGrid(), geometry).Ok? ==>
        status == Completed && output == old(output) + CellsOf(CurrentGrid(), geometry).value
      ensures CellsOf(CurrentGrid(), geometry).Err? ==>
        status == Raised(CellsOf(CurrentGrid(), geometry).error) && output == old(output)
    {
      if cellSize.None? {
        cellSize := Some(argCellSize);
        maxLonCell := ((2.0 * MaxLon) / argCellSize).Floor;
        maxLatCell := ((2.0 * MaxLat) / argCellSize).Floor;
        assert Grid(argCellSize, maxLonCell, maxLatCell) == GridFor(argCellSize);
      }
      var g := Grid(cellSize.value, maxLonCell, maxLatCell);

      if geometry.None? {
        return Completed;
      }
      var geom := geometry.value;
      if geom.isEmpty {
        return Completed;
      }
      if geom.geometryType != "Polygon" && geom.geometryType != "MultiPolygon" {
        return Completed;
      }
      var envBound := geom.envelope;
      if envBound.EmptyEnvelope? {
        return Completed;
      }

      var cells := GetCellsEnclosedBy(g, envBound.yMin, envBound.yMax, envBound.xMin, envBound.xMax,
                                      cellSize.value, geom.shape);
      match cells
      case Err(e) =>
        return Raised(e);
      case Ok(rows) =>
        output := output + rows;
        return Completed;
    }
  }
}
