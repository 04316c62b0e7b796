/**
 * `RoiFile.get_markers_per_structure` of cell_sorting.py: the sorting of the
 * markers of one file into its regions, returning the number of markers per
 * region. This copy raises `ValueError` for a marker outside every region, for
 * unknown acronyms and for a pair of regions that are not nested, and fails an
 * `assert` for a marker in three or more regions and for the closing check.
 */
module CellSorting {
  import opened Outcomes
  import opened Atlas
  import opened Tables
  import opened Sorting
  import Resolution

  /** The exception class this copy raises for each failure. */
  function ExceptionFor(f: Failure): (e: Exception)
    ensures e == AssertionError <==> f.TooManyStructures? || f == NotSingleRegion
  {
    match f
    case TooManyStructures(_) => AssertionError
    case NotSingleRegion => AssertionError
    case _ => ValueError
  }

  /**
   * Builds the membership table one region at a time, sorts it, and returns the
   * surviving region names with their marker counts (`sum(axis=0)`).
   */
  method GetMarkersPerStructure<Point, Polygon>(markers: seq<Point>, rois: seq<(string, Polygon)>,
                                                inside: (Point, Polygon) -> bool, o: Ontology)
    returns (r: Result<(seq<string>, seq<nat>), Raised>)
    requires Distinct(RegionNames(rois))
    ensures var s := Resolved(Membership(markers, rois, inside), o);
      && (r.Ok? <==> s.Ok?)
      && (r.Ok? ==> r.value == (s.value.cols, ColumnSums(s.value)))
      && (r.Err? ==> r.error.failure == s.error)
    ensures r.Ok? ==> |r.value.0| == |r.value.1| && Total(r.value.1) == |markers|
    ensures (r.Err? && r.error.failure == NoRegion) <==>
      exists i | 0 <= i < |markers| :: forall j | 0 <= j < |rois| :: !inside(markers[i], rois[j].1)
    ensures r.Err? ==> !r.error.failure.UnknownInRow?
    ensures r.Err? ==> (r.error.exception == AssertionError <==>
      r.error.failure.TooManyStructures? || r.error.failure.NotSingleRegion?)
    ensures Consistent(o) ==> !(r.Err? && r.error.failure == NotSingleRegion)
  {
    var t := BuildTable(markers, rois, inside);
    Resolution.MembershipCovered(markers, rois, inside);
    Resolution.RowAcronymCheckUnreachable(t, o);
    if Consistent(o) {
      Resolution.ClosingCheckNeverFails(t, o);
    }
    var s := Resolve(t, o);
    match s
    case Err(f) =>
      r := Err(Raised(ExceptionFor(f), f));
    case Ok(out) =>
      Resolution.ResolvedCounts(t, o);
      r := Ok((out.cols, ColumnSums(out)));
  }
}
