/**
 * Sorting markers into regions: the algorithm shared by the three copies of
 * `get_markers_per_structure` / `markers_per_struct`. The membership table is
 * built column by column from a point-in-polygon test, checked, pruned,
 * validated against the ontology, and every marker that lies in two regions is
 * given to the deeper of the two.
 */
module Sorting {
  import opened Outcomes
  import opened Atlas
  import opened Tables

  /** Why a sorting run stops; each copy raises these as its own exception class. */
  datatype Failure =
    | NoRegion                                  // a marker lies in no region
    | UnknownAcronyms(names: seq<string>)       // every surviving region name the ontology lacks
    | UnknownInRow(names: seq<string>)          // the per-marker re-check of the acronyms
    | TooManyStructures(structures: seq<Structure>)  // a marker in more than two regions
    | NotNested(inner: Structure, outer: Structure)  // the deeper region is not inside the shallower
    | NotSingleRegion                           // the closing check that each marker has one region

  /** The two exception classes the source raises. */
  datatype Exception = ValueError | AssertionError

  datatype Raised = Raised(exception: Exception, failure: Failure)

  /** The region names of a dictionary of regions, in iteration order. */
  function RegionNames<Polygon>(rois: seq<(string, Polygon)>): (names: seq<string>)
    ensures |names| == |rois|
  {
    seq(|rois|, j requires 0 <= j < |rois| => rois[j].0)
  }

  /** The table the column-filling loop builds: cell (i, j) is `inside(markers[i], rois[j])`. */
  function Membership<Point, Polygon>(markers: seq<Point>, rois: seq<(string, Polygon)>,
                                      inside: (Point, Polygon) -> bool): (t: Table)
    ensures WellFormed(t) && |t.rows| == |markers| && t.cols == RegionNames(rois)
  {
    Table(RegionNames(rois),
          seq(|markers|, i requires 0 <= i < |markers| =>
            seq(|rois|, j requires 0 <= j < |rois| => inside(markers[i], rois[j].1))))
  }

  /**
   * Fills the table one region (column) at a time, as
   * `sorted_markers[roi_name] = path.contains_points(markers)` does.
   */
  method BuildTable<Point, Polygon>(markers: seq<Point>, rois: seq<(string, Polygon)>,
                                    inside: (Point, Polygon) -> bool) returns (t: Table)
    ensures t == Membership(markers, rois, inside)
  {
    var cols: seq<string> := [];
    var rows: seq<seq<bool>> := seq(|markers|, i => []);
    for j := 0 to |rois|
      invariant cols == RegionNames(rois[..j])
      invariant |rows| == |markers|
      invariant forall i | 0 <= i < |markers| :: |rows[i]| == j
      invariant forall i, l | 0 <= i < |markers| && 0 <= l < j :: rows[i][l] == inside(markers[i], rois[l].1)
    {
      var (name, polygon) := rois[j];
      cols := cols + [name];
      rows := seq(|markers|, i requires 0 <= i < |markers| => rows[i] + [inside(markers[i], polygon)]);
    }
    assert rois[..|rois|] == rois;
    t := Table(cols, rows);
    forall i | 0 <= i < |markers|
      ensures rows[i] == Membership(markers, rois, inside).rows[i]
    {
    }
  }

  /** The column names the ontology does not know, in column order. */
  function UnknownNames(names: seq<string>, o: Ontology): (bad: seq<string>)
    ensures forall n :: n in bad <==> n in names && o.lookup(n).None?
  {
    if names == [] then []
    else (if o.lookup(names[0]).None? then [names[0]] else []) + UnknownNames(names[1..], o)
  }

  /** The indices of the rows with more than one region (`t.sum(1) > 1`), ascending. */
  function AmbiguousRows(rows: seq<seq<bool>>, n: nat): (idx: seq<nat>)
    requires n <= |rows|
    ensures forall k | 0 <= k < |idx| :: idx[k] < n
    ensures forall k, l | 0 <= k < l < |idx| :: idx[k] < idx[l]
    ensures forall i | 0 <= i < n :: i in idx <==> RowSum(rows[i]) > 1
  {
    if n == 0 then []
    else AmbiguousRows(rows, n - 1) + (if RowSum(rows[n - 1]) > 1 then [n - 1] else [])
  }

  /** With no marker in two regions there is nothing to disambiguate. */
  lemma {:induction false} NoAmbiguousRows(rows: seq<seq<bool>>, n: nat)
    requires n <= |rows|
    requires forall i | 0 <= i < n :: RowSum(rows[i]) <= 1
    ensures AmbiguousRows(rows, n) == []
  {
    if n > 0 {
      NoAmbiguousRows(rows, n - 1);
    }
  }

  /** The list of unknown names is empty exactly when every name is known. */
  lemma {:induction false} UnknownNamesEmpty(names: seq<string>, o: Ontology)
    ensures UnknownNames(names, o) == [] <==> AllKnown(names, o)
  {
    if names != [] {
      UnknownNamesEmpty(names[1..], o);
      assert forall k | 1 <= k < |names| :: names[1..][k - 1] == names[k];
    }
  }

  /** The indices of a row's true cells, ascending (`ser[ser]`). */
  function TrueColumns(row: seq<bool>): (js: seq<nat>)
    ensures |js| == RowSum(row)
    ensures forall k | 0 <= k < |js| :: js[k] < |row| && row[js[k]]
    ensures forall k, l | 0 <= k < l < |js| :: js[k] < js[l]
    ensures forall j | 0 <= j < |row| && row[j] :: j in js
  {
    if row == [] then []
    else
      var init := row[..|row| - 1];
      RowSumAppend(init, [row[|row| - 1]]);
      assert init + [row[|row| - 1]] == row;
      TrueColumns(init) + (if row[|row| - 1] then [|row| - 1] else [])
  }

  /** The names of the regions a marker lies in, in column order. */
  function TrueNames(row: seq<bool>, cols: seq<string>): (names: seq<string>)
    requires |row| == |cols|
    ensures |names| == RowSum(row)
  {
    var js := TrueColumns(row);
    seq(|js|, k requires 0 <= k < |js| => cols[js[k]])
  }

  /** Every name has an entry in the ontology. */
  predicate AllKnown(names: seq<string>, o: Ontology)
  {
    forall k | 0 <= k < |names| :: o.lookup(names[k]).Some?
  }

  /**
   * Columns `s` and `d` are two distinct regions the marker lies in, both known to
   * the ontology, and the structure of `s` contains that of `d`.
   */
  ghost predicate Nested(o: Ontology, row: seq<bool>, cols: seq<string>, s: int, d: int)
    requires |row| == |cols|
  {
    && 0 <= s < |row| && 0 <= d < |row| && s != d && row[s] && row[d]
    && o.lookup(cols[s]).Some? && o.lookup(cols[d]).Some?
    && o.contains(o.lookup(cols[s]).value, o.lookup(cols[d]).value)
  }

  /** `[ontology[key] for key in names]`, once none of them is missing. */
  function Structures(names: seq<string>, o: Ontology): (s: seq<Structure>)
    requires forall k | 0 <= k < |names| :: o.lookup(names[k]).Some?
    ensures |s| == |names|
  {
    seq(|names|, k requires 0 <= k < |names| => o.lookup(names[k]).value)
  }

  /** `isin.sort()` on a two-element list: the pair is swapped only if the second precedes the first. */
  function SortPair(o: Ontology, a: Structure, b: Structure): (r: (Structure, Structure))
    ensures multiset{r.0, r.1} == multiset{a, b}
    ensures !o.precedes(b, a) ==> r == (a, b)
    ensures (forall x, y :: o.precedes(x, y) ==> !o.precedes(y, x)) ==> !o.precedes(r.1, r.0)
  {
    if o.precedes(b, a) then (b, a) else (a, b)
  }

  /**
   * The decision for one marker that lies in more than one region: the acronym
   * of the region whose cell is to be cleared, or the reason to stop.
   */
  function Disambiguate(row: seq<bool>, cols: seq<string>, o: Ontology): (r: Result<string, Failure>)
    requires |row| == |cols|
    ensures r.Err? ==> r.error.UnknownInRow? || r.error.TooManyStructures? || r.error.NotNested?
  {
    var names := TrueNames(row, cols);
    if exists k | 0 <= k < |names| :: o.lookup(names[k]).None? then Err(UnknownInRow(names))
    else
      var isin := Structures(names, o);
      if |isin| != 2 then Err(TooManyStructures(isin))
      else
        var (shallow, deep) := SortPair(o, isin[0], isin[1]);
        if !o.contains(shallow, deep) then Err(NotNested(deep, shallow))
        else Ok(shallow.acronym)
  }

  /**
   * What the decision for one marker means: it clears the cell of a region that
   * contains the marker's only other region; it refuses a marker in three or more
   * regions, and a pair that is not nested; its acronym re-check fails only on a
   * name the ontology lacks.
   */
  lemma DisambiguateSpec(row: seq<bool>, cols: seq<string>, o: Ontology)
    requires |row| == |cols|
    ensures var r := Disambiguate(row, cols, o);
      && (r.Ok? ==> RowSum(row) == 2)
      && (r.Ok? ==> exists s, d :: Nested(o, row, cols, s, d) && r.value == o.lookup(cols[s]).value.acronym)
      && (r.Err? && r.error.UnknownInRow? ==> exists j | 0 <= j < |row| :: row[j] && o.lookup(cols[j]).None?)
      && (AllKnown(cols, o) && RowSum(row) > 2 ==> r == Err(TooManyStructures(Structures(TrueNames(row, cols), o))))
      && (r.Err? && r.error.NotNested? ==> RowSum(row) == 2 && !o.contains(r.error.outer, r.error.inner))
  {
    var names := TrueNames(row, cols);
    var js := TrueColumns(row);
    if !exists k | 0 <= k < |names| :: o.lookup(names[k]).None? {
      var isin := Structures(names, o);
      if |isin| == 2 {
        var (s, d) := if o.precedes(isin[1], isin[0]) then (js[1], js[0]) else (js[0], js[1]);
        if Disambiguate(row, cols, o).Ok? {
          assert Nested(o, row, cols, s, d);
        }
      }
    } else {
      var k :| 0 <= k < |names| && o.lookup(names[k]).None?;
      assert row[js[k]] && o.lookup(cols[js[k]]).None?;
      assert !AllKnown(cols, o);
    }
  }

  /**
   * The decision for a marker in exactly two known regions: the two structures
   * are sorted, and the marker is kept only in the second when the first contains
   * it; otherwise the sorting stops with the pair as sorted.
   */
  lemma DisambiguatePair(row: seq<bool>, cols: seq<string>, o: Ontology)
    requires |row| == |cols| && RowSum(row) == 2 && AllKnown(TrueNames(row, cols), o)
    ensures var isin := Structures(TrueNames(row, cols), o);
      var sorted := SortPair(o, isin[0], isin[1]);
      var r := Disambiguate(row, cols, o);
      && (r.Ok? <==> o.contains(sorted.0, sorted.1))
      && (r.Ok? ==> r.value == sorted.0.acronym)
      && (r.Err? ==> r.error == NotNested(sorted.1, sorted.0))
  {
    var names := TrueNames(row, cols);
    assert !exists k | 0 <= k < |names| :: o.lookup(names[k]).None?;
  }

  /** The first column named `name`, if any (pandas label lookup). */
  function IndexOf(cols: seq<string>, name: string): (r: Option<nat>)
    ensures r.None? <==> name !in cols
    ensures r.Some? ==> r.value < |cols| && cols[r.value] == name
    ensures r.Some? ==> forall k | 0 <= k < r.value :: cols[k] != name
  {
    if cols == [] then None
    else if cols[0] == name then Some(0)
    else match IndexOf(cols[1..], name)
      case None => None
      case Some(k) => Some(k + 1)
  }

  /**
   * `sorted_markers.loc[indx][acronym] = False`: the cell of the column labelled
   * `acronym` is cleared; a label that is not a column changes nothing.
   */
  function Clear(row: seq<bool>, cols: seq<string>, acronym: string): (r: seq<bool>)
    requires |row| == |cols|
    ensures |r| == |row|
    ensures Distinct(cols) ==> forall j | 0 <= j < |row| :: r[j] == (row[j] && cols[j] != acronym)
  {
    match IndexOf(cols, acronym)
    case None => row
    case Some(j) => row[j := false]
  }

  /**
   * Walks the given rows in order, deciding each on its current contents and
   * clearing the cell the decision names; the first failure stops the walk.
   */
  function ResolveRows(t: Table, idx: seq<nat>, o: Ontology): (r: Result<Table, Failure>)
    requires WellFormed(t)
    requires forall k | 0 <= k < |idx| :: idx[k] < |t.rows|
    ensures r.Ok? ==> WellFormed(r.value) && r.value.cols == t.cols && |r.value.rows| == |t.rows|
    ensures r.Err? ==> r.error.UnknownInRow? || r.error.TooManyStructures? || r.error.NotNested?
    decreases |idx|
  {
    if idx == [] then Ok(t)
    else
      var i := idx[0];
      match Disambiguate(t.rows[i], t.cols, o)
      case Err(e) => Err(e)
      case Ok(acronym) =>
        ResolveRows(Table(t.cols, t.rows[i := Clear(t.rows[i], t.cols, acronym)]), idx[1..], o)
  }

  /** The whole sorting, step by step as the source orders its checks. */
  function Resolved(t: Table, o: Ontology): (r: Result<Table, Failure>)
    requires WellFormed(t)
    ensures r == Err(NoRegion) <==> !Covered(t.rows)
    ensures r.Ok? ==> WellFormed(r.value) && SingleRegion(r.value.rows)
    ensures r.Ok? ==> r.value.cols == Prune(t).cols && |r.value.rows| == |t.rows|
  {
    if !Covered(t.rows) then Err(NoRegion)
    else
      var p := Prune(t);
      var unknown := UnknownNames(p.cols, o);
      if unknown != [] then Err(UnknownAcronyms(unknown))
      else
        match ResolveRows(p, AmbiguousRows(p.rows, |p.rows|), o)
        case Err(e) => Err(e)
        case Ok(out) => if SingleRegion(out.rows) then Ok(out) else Err(NotSingleRegion)
  }

  /**
   * The loop over the precomputed ambiguous rows: each is decided on its current
   * contents and one of its cells is cleared in place; the first failure stops it.
   */
  method ResolveInPlace(rows: array<seq<bool>>, cols: seq<string>, ambiguous: seq<nat>, o: Ontology)
    returns (failure: Option<Failure>)
    requires WellFormed(Table(cols, rows[..]))
    requires forall k | 0 <= k < |ambiguous| :: ambiguous[k] < rows.Length
    modifies rows
    ensures failure.None? ==> ResolveRows(Table(cols, old(rows[..])), ambiguous, o) == Ok(Table(cols, rows[..]))
    ensures failure.Some? ==> ResolveRows(Table(cols, old(rows[..])), ambiguous, o) == Err(failure.value)
  {
    ghost var start := Table(cols, rows[..]);
    for k := 0 to |ambiguous|
      invariant WellFormed(Table(cols, rows[..]))
      invariant ResolveRows(Table(cols, rows[..]), ambiguous[k..], o) == ResolveRows(start, ambiguous, o)
    {
      var i := ambiguous[k];
      ghost var before := Table(cols, rows[..]);
      assert ambiguous[k..][0] == i && ambiguous[k..][1..] == ambiguous[k + 1..];
      match Disambiguate(rows[i], cols, o)
      case Err(e) =>
        return Some(e);
      case Ok(acronym) =>
        rows[i] := Clear(rows[i], cols, acronym);
        assert rows[..] == before.rows[i := Clear(before.rows[i], cols, acronym)];
    }
    assert ambiguous[|ambiguous|..] == [];
    return None;
  }

  /**
   * The sorting as the source runs it: the checks over the whole table, then the
   * in-place pass over the ambiguous rows, then the closing check.
   */
  method Resolve(t: Table, o: Ontology) returns (r: Result<Table, Failure>)
    requires WellFormed(t)
    ensures r == Resolved(t, o)
  {
    if !Covered(t.rows) {
      return Err(NoRegion);
    }
    var p := Prune(t);
    var unknown := UnknownNames(p.cols, o);
    if unknown != [] {
      return Err(UnknownAcronyms(unknown));
    }
    var ambiguous := AmbiguousRows(p.rows, |p.rows|);
    var rows := new seq<bool>[|p.rows|](i requires 0 <= i < |p.rows| => p.rows[i]);
    assert rows[..] == p.rows;
    var failure := ResolveInPlace(rows, p.cols, ambiguous, o);
    if failure.Some? {
      return Err(failure.value);
    }
    var out := Table(p.cols, rows[..]);
    if !SingleRegion(out.rows) {
      return Err(NotSingleRegion);
    }
    return Ok(out);
  }
}
