/**
 * What the sorting guarantees: which rows it touches and how, which failure it
 * reports, that the per-marker acronym re-check can never fire, that the closing
 * check can never fail against a consistent ontology, and that sorting a sorted
 * table changes nothing.
 */
module Resolution {
  import opened Outcomes
  import opened Atlas
  import opened Tables
  import opened Sorting

  predicate NoRepeats(idx: seq<nat>)
  {
    forall k, l | 0 <= k < l < |idx| :: idx[k] != idx[l]
  }

  /**
   * Every row is decided on the contents it had before the walk began: a listed
   * row loses exactly the cell its decision names, every other row is untouched.
   */
  lemma {:induction false} ResolveRowsFrame(t: Table, idx: seq<nat>, o: Ontology)
    requires WellFormed(t)
    requires forall k | 0 <= k < |idx| :: idx[k] < |t.rows|
    requires NoRepeats(idx)
    requires ResolveRows(t, idx, o).Ok?
    ensures forall i | 0 <= i < |t.rows| && i !in idx :: ResolveRows(t, idx, o).value.rows[i] == t.rows[i]
    ensures forall i | 0 <= i < |t.rows| && i in idx ::
      && Disambiguate(t.rows[i], t.cols, o).Ok?
      && ResolveRows(t, idx, o).value.rows[i]
         == Clear(t.rows[i], t.cols, Disambiguate(t.rows[i], t.cols, o).value)
    decreases |idx|
  {
    if idx != [] {
      var i := idx[0];
      var acronym := Disambiguate(t.rows[i], t.cols, o).value;
      var next := Table(t.cols, t.rows[i := Clear(t.rows[i], t.cols, acronym)]);
      assert NoRepeats(idx[1..]);
      ResolveRowsFrame(next, idx[1..], o);
      var out := ResolveRows(t, idx, o).value;
      assert out == ResolveRows(next, idx[1..], o).value;
      forall j | 0 <= j < |t.rows|
        ensures j !in idx ==> out.rows[j] == t.rows[j]
        ensures j in idx ==>
          Disambiguate(t.rows[j], t.cols, o).Ok? &&
          out.rows[j] == Clear(t.rows[j], t.cols, Disambiguate(t.rows[j], t.cols, o).value)
      {
        if j == i {
          assert j !in idx[1..];
        } else {
          assert j in idx <==> j in idx[1..];
          assert next.rows[j] == t.rows[j];
        }
      }
    }
  }

  /**
   * The failure of the first listed row whose decision, taken on the row as it
   * stands in `t`, fails.
   */
  function FirstFailure(t: Table, idx: seq<nat>, o: Ontology): Option<Failure>
    requires WellFormed(t)
    requires forall k | 0 <= k < |idx| :: idx[k] < |t.rows|
  {
    if idx == [] then None
    else
      match Disambiguate(t.rows[idx[0]], t.cols, o)
      case Err(e) => Some(e)
      case Ok(_) => FirstFailure(t, idx[1..], o)
  }

  /**
   * A failure is reported exactly when some listed row's decision fails, and it
   * is that of the first such row: every listed row before it decides successfully.
   */
  lemma FirstFailureSpec(t: Table, idx: seq<nat>, o: Ontology)
    requires WellFormed(t)
    requires forall k | 0 <= k < |idx| :: idx[k] < |t.rows|
    ensures (exists k | 0 <= k < |idx| :: Disambiguate(t.rows[idx[k]], t.cols, o).Err?) ==> FirstFailure(t, idx, o).Some?
    ensures FirstFailure(t, idx, o).Some? ==>
      (exists k | 0 <= k < |idx| :: Disambiguate(t.rows[idx[k]], t.cols, o) == Err(FirstFailure(t, idx, o).value)
        && forall l | 0 <= l < k :: Disambiguate(t.rows[idx[l]], t.cols, o).Ok?)
  {
    var ds := Decisions(t, idx, o);
    FirstFailureDecisions(t, idx, o);
    FirstErrSpec(ds);
    if exists k | 0 <= k < |idx| :: Disambiguate(t.rows[idx[k]], t.cols, o).Err? {
      var k :| 0 <= k < |idx| && Disambiguate(t.rows[idx[k]], t.cols, o).Err?;
      assert ds[k].Err?;
    }
    if FirstErr(ds).Some? {
      var e := FirstErr(ds).value;
      var k :| 0 <= k < |ds| && ds[k] == Err(e) && forall l | 0 <= l < k :: ds[l].Ok?;
      assert forall l | 0 <= l < k :: Disambiguate(t.rows[idx[l]], t.cols, o) == ds[l];
      assert Disambiguate(t.rows[idx[k]], t.cols, o) == Err(e);
    }
  }

  /** The decisions for the listed rows, each taken on the row as it stands in `t`. */
  function Decisions(t: Table, idx: seq<nat>, o: Ontology): (ds: seq<Result<string, Failure>>)
    requires WellFormed(t)
    requires forall k | 0 <= k < |idx| :: idx[k] < |t.rows|
    ensures |ds| == |idx|
  {
    seq(|idx|, k requires 0 <= k < |idx| => Disambiguate(t.rows[idx[k]], t.cols, o))
  }

  /** The error of the first failed decision, if any. */
  function FirstErr(ds: seq<Result<string, Failure>>): Option<Failure>
  {
    if ds == [] then None
    else if ds[0].Err? then Some(ds[0].error)
    else FirstErr(ds[1..])
  }

  lemma {:induction false} FirstErrSpec(ds: seq<Result<string, Failure>>)
    ensures (exists k | 0 <= k < |ds| :: ds[k].Err?) ==> FirstErr(ds).Some?
    ensures FirstErr(ds).Some? ==>
      (exists k | 0 <= k < |ds| :: ds[k] == Err(FirstErr(ds).value) && forall l | 0 <= l < k :: ds[l].Ok?)
  {
    if ds != [] && ds[0].Ok? {
      var rest := ds[1..];
      FirstErrSpec(rest);
      if exists k | 0 <= k < |ds| :: ds[k].Err? {
        var k :| 0 <= k < |ds| && ds[k].Err?;
        assert rest[k - 1].Err?;
      }
      if FirstErr(ds).Some? {
        var k :| 0 <= k < |rest| && rest[k] == Err(FirstErr(ds).value) && forall l | 0 <= l < k :: rest[l].Ok?;
        assert ds[k + 1] == rest[k];
        assert forall l | 1 <= l < k + 1 :: ds[l] == rest[l - 1];
      }
    }
  }

  lemma {:induction false} FirstFailureDecisions(t: Table, idx: seq<nat>, o: Ontology)
    requires WellFormed(t)
    requires forall k | 0 <= k < |idx| :: idx[k] < |t.rows|
    ensures FirstFailure(t, idx, o) == FirstErr(Decisions(t, idx, o))
  {
    if idx != [] {
      var ds := Decisions(t, idx, o);
      FirstFailureDecisions(t, idx[1..], o);
      assert ds[0] == Disambiguate(t.rows[idx[0]], t.cols, o);
      assert ds[1..] == Decisions(t, idx[1..], o);
    }
  }

  /** Rows that agree on the listed indices have the same first failure. */
  lemma {:induction false} FirstFailureFrame(t: Table, u: Table, idx: seq<nat>, o: Ontology)
    requires WellFormed(t) && WellFormed(u) && t.cols == u.cols
    requires forall k | 0 <= k < |idx| :: idx[k] < |t.rows| && idx[k] < |u.rows| && t.rows[idx[k]] == u.rows[idx[k]]
    ensures FirstFailure(t, idx, o) == FirstFailure(u, idx, o)
  {
    if idx != [] {
      FirstFailureFrame(t, u, idx[1..], o);
    }
  }

  /**
   * The walk fails exactly when the decision for one of its rows, taken on the
   * contents the row had before the walk began, fails, and then with the failure
   * of the first such row.
   */
  lemma {:induction false} ResolveRowsFailure(t: Table, idx: seq<nat>, o: Ontology)
    requires WellFormed(t)
    requires forall k | 0 <= k < |idx| :: idx[k] < |t.rows|
    requires NoRepeats(idx)
    ensures ResolveRows(t, idx, o).Err? <==> FirstFailure(t, idx, o).Some?
    ensures ResolveRows(t, idx, o).Err? ==> ResolveRows(t, idx, o).error == FirstFailure(t, idx, o).value
    decreases |idx|
  {
    if idx != [] {
      var i := idx[0];
      match Disambiguate(t.rows[i], t.cols, o)
      case Err(e) =>
      case Ok(acronym) =>
        var next := Table(t.cols, t.rows[i := Clear(t.rows[i], t.cols, acronym)]);
        assert NoRepeats(idx[1..]);
        ResolveRowsFailure(next, idx[1..], o);
        FirstFailureFrame(t, next, idx[1..], o);
    }
  }

  /**
   * The re-check of the acronyms inside the loop over ambiguous markers can never
   * fail: every name it looks up is a surviving column, and all of those passed
   * the check over the whole table.
   */
  lemma RowAcronymCheckUnreachable(t: Table, o: Ontology)
    requires WellFormed(t)
    ensures !(Resolved(t, o).Err? && Resolved(t, o).error.UnknownInRow?)
  {
    if Covered(t.rows) && UnknownNames(Prune(t).cols, o) == [] {
      var p := Prune(t);
      var ambiguous := AmbiguousRows(p.rows, |p.rows|);
      ResolveRowsFailure(p, ambiguous, o);
      FirstFailureSpec(p, ambiguous, o);
      if ResolveRows(p, ambiguous, o).Err? {
        var k :| 0 <= k < |ambiguous| && Disambiguate(p.rows[ambiguous[k]], p.cols, o) == Err(FirstFailure(p, ambiguous, o).value);
        var row := p.rows[ambiguous[k]];
        DisambiguateSpec(row, p.cols, o);
        forall j | 0 <= j < |row| && row[j]
          ensures o.lookup(p.cols[j]).Some?
        {
          assert p.cols[j] !in UnknownNames(p.cols, o);
        }
      }
    }
  }

  /**
   * If every marker lies in some region, the unknown acronyms among the regions
   * that hold a marker are reported all together, and nothing else is.
   */
  lemma UnknownAcronymsListed(t: Table, o: Ontology, j: nat)
    requires WellFormed(t) && Covered(t.rows)
    requires j < |t.cols| && ColumnSum(t.rows, j) > 0 && o.lookup(t.cols[j]).None?
    ensures Resolved(t, o) == Err(UnknownAcronyms(UnknownNames(Prune(t).cols, o)))
    ensures forall n :: n in UnknownNames(Prune(t).cols, o) <==>
      o.lookup(n).None? && exists c | 0 <= c < |t.cols| :: t.cols[c] == n && ColumnSum(t.rows, c) > 0
  {
    PruneKeepsMarkedColumns(t);
    var p := Prune(t);
    assert t.cols[j] in UnknownNames(p.cols, o);
  }

  /**
   * A marker in three or more regions makes the sorting fail once the acronyms
   * are valid: no resolution is ever made for it.
   */
  lemma TooManyRegionsFail(t: Table, o: Ontology, i: nat)
    requires WellFormed(t) && Covered(t.rows) && AllKnown(Prune(t).cols, o)
    requires i < |t.rows| && RowSum(t.rows[i]) > 2
    ensures Resolved(t, o).Err?
    ensures Resolved(t, o).error.TooManyStructures? || Resolved(t, o).error.NotNested?
  {
    PruneRowSums(t);
    var p := Prune(t);
    var ambiguous := AmbiguousRows(p.rows, |p.rows|);
    UnknownNamesEmpty(p.cols, o);
    assert i in ambiguous;
    var k :| 0 <= k < |ambiguous| && ambiguous[k] == i;
    DisambiguateSpec(p.rows[i], p.cols, o);
    assert Disambiguate(p.rows[ambiguous[k]], p.cols, o).Err?;
    ResolveRowsFailure(p, ambiguous, o);
    FirstFailureSpec(p, ambiguous, o);
    RowAcronymCheckUnreachable(t, o);
  }

  /**
   * A marker in two regions neither of which contains the other makes the
   * sorting fail once the acronyms are valid: its cell is never cleared.
   */
  lemma UnnestedPairFails(t: Table, o: Ontology, i: nat)
    requires WellFormed(t) && Covered(t.rows) && AllKnown(Prune(t).cols, o)
    requires i < |t.rows| && RowSum(t.rows[i]) == 2
    requires forall s, d :: !Nested(o, Prune(t).rows[i], Prune(t).cols, s, d)
    ensures Resolved(t, o).Err?
    ensures Resolved(t, o).error.TooManyStructures? || Resolved(t, o).error.NotNested?
  {
    PruneRowSums(t);
    var p := Prune(t);
    var ambiguous := AmbiguousRows(p.rows, |p.rows|);
    UnknownNamesEmpty(p.cols, o);
    assert i in ambiguous;
    var k :| 0 <= k < |ambiguous| && ambiguous[k] == i;
    DisambiguateSpec(p.rows[i], p.cols, o);
    assert Disambiguate(p.rows[ambiguous[k]], p.cols, o).Err?;
    ResolveRowsFailure(p, ambiguous, o);
    FirstFailureSpec(p, ambiguous, o);
    RowAcronymCheckUnreachable(t, o);
  }

  /**
   * A marker in two regions whose structures, once sorted, are not nested first
   * around second makes the sorting fail once the acronyms are valid, even when
   * the second structure contains the first.
   */
  lemma NotNestedPairFails(t: Table, o: Ontology, i: nat)
    requires WellFormed(t) && Covered(t.rows) && AllKnown(Prune(t).cols, o)
    requires i < |t.rows| && RowSum(Prune(t).rows[i]) == 2
    requires AllKnown(TrueNames(Prune(t).rows[i], Prune(t).cols), o)
    requires var isin := Structures(TrueNames(Prune(t).rows[i], Prune(t).cols), o);
      var sorted := SortPair(o, isin[0], isin[1]);
      !o.contains(sorted.0, sorted.1)
    ensures Resolved(t, o).Err?
    ensures Resolved(t, o).error.TooManyStructures? || Resolved(t, o).error.NotNested?
  {
    PruneRowSums(t);
    var p := Prune(t);
    var ambiguous := AmbiguousRows(p.rows, |p.rows|);
    UnknownNamesEmpty(p.cols, o);
    assert i in ambiguous;
    var k :| 0 <= k < |ambiguous| && ambiguous[k] == i;
    DisambiguatePair(p.rows[i], p.cols, o);
    assert Disambiguate(p.rows[ambiguous[k]], p.cols, o).Err?;
    ResolveRowsFailure(p, ambiguous, o);
    FirstFailureSpec(p, ambiguous, o);
    RowAcronymCheckUnreachable(t, o);
  }

  /**
   * With an ontology that files each structure under its own acronym and
   * distinct region names, the resolution keeps the row of every marker in one
   * region, and for a marker in two regions clears exactly the cell of the one
   * that contains the other; so every marker ends in exactly one region.
   */
  lemma ResolvedRows(t: Table, o: Ontology)
    requires WellFormed(t) && Distinct(t.cols) && Consistent(o)
    requires Covered(t.rows)
    requires ResolveRows(Prune(t), AmbiguousRows(Prune(t).rows, |t.rows|), o).Ok?
    ensures var p := Prune(t);
      var out := ResolveRows(p, AmbiguousRows(p.rows, |p.rows|), o).value;
      && SingleRegion(out.rows)
      && (forall i | 0 <= i < |t.rows| && RowSum(t.rows[i]) == 1 :: out.rows[i] == p.rows[i])
      && (forall i | 0 <= i < |t.rows| && RowSum(t.rows[i]) > 1 ::
            exists s, d :: Nested(o, p.rows[i], p.cols, s, d) && out.rows[i] == p.rows[i][s := false])
  {
    PruneRowSums(t);
    PruneDistinct(t);
    var p := Prune(t);
    var ambiguous := AmbiguousRows(p.rows, |p.rows|);
    ResolveRowsFrame(p, ambiguous, o);
    var out := ResolveRows(p, ambiguous, o).value;
    forall i | 0 <= i < |t.rows|
      ensures RowSum(out.rows[i]) == 1
      ensures RowSum(t.rows[i]) == 1 ==> out.rows[i] == p.rows[i]
      ensures RowSum(t.rows[i]) > 1 ==>
        exists s, d :: Nested(o, p.rows[i], p.cols, s, d) && out.rows[i] == p.rows[i][s := false]
    {
      if RowSum(p.rows[i]) > 1 {
        assert i in ambiguous;
        AmbiguousRowCleared(p.rows[i], p.cols, o);
      } else {
        assert i !in ambiguous;
      }
    }
  }

  /**
   * A marker in several regions that is resolved loses exactly the cell of the
   * region containing the other one, and is left in one region.
   */
  lemma AmbiguousRowCleared(row: seq<bool>, cols: seq<string>, o: Ontology)
    requires |row| == |cols| && Distinct(cols) && Consistent(o)
    requires RowSum(row) > 1 && Disambiguate(row, cols, o).Ok?
    ensures exists s, d :: Nested(o, row, cols, s, d) && Clear(row, cols, Disambiguate(row, cols, o).value) == row[s := false]
    ensures RowSum(Clear(row, cols, Disambiguate(row, cols, o).value)) == 1
  {
    var acronym := Disambiguate(row, cols, o).value;
    assert RowSum(row) == 2 && exists s, d :: Nested(o, row, cols, s, d) && acronym == o.lookup(cols[s]).value.acronym by {
      DisambiguateSpec(row, cols, o);
    }
    var s, d :| Nested(o, row, cols, s, d) && acronym == o.lookup(cols[s]).value.acronym;
    ClearNested(row, cols, o, s, d);
    RowSumClear(row, s);
  }

  /** Clearing the shallower region of a nested pair clears exactly its cell. */
  lemma ClearNested(row: seq<bool>, cols: seq<string>, o: Ontology, s: int, d: int)
    requires |row| == |cols| && Distinct(cols) && Consistent(o) && Nested(o, row, cols, s, d)
    ensures Clear(row, cols, o.lookup(cols[s]).value.acronym) == row[s := false]
  {
    assert o.lookup(cols[s]).value.acronym == cols[s];
  }

  /**
   * With a consistent ontology and distinct region names the closing check of
   * the sorting never fails.
   */
  lemma ClosingCheckNeverFails(t: Table, o: Ontology)
    requires WellFormed(t) && Distinct(t.cols) && Consistent(o)
    ensures Resolved(t, o) != Err(NotSingleRegion)
  {
    if Covered(t.rows) && ResolveRows(Prune(t), AmbiguousRows(Prune(t).rows, |t.rows|), o).Ok? {
      ResolvedRows(t, o);
    }
  }

  /** On success the per-region counts add up to the number of markers. */
  lemma ResolvedCounts(t: Table, o: Ontology)
    requires WellFormed(t) && Resolved(t, o).Ok?
    ensures Total(ColumnSums(Resolved(t, o).value)) == |t.rows|
  {
    SingleRegionCounts(Resolved(t, o).value);
  }

  /**
   * A table in which every marker lies in exactly one region, every region holds
   * a marker and every name is known comes back unchanged.
   */
  lemma ResolvedIsFixedPoint(t: Table, o: Ontology)
    requires WellFormed(t) && SingleRegion(t.rows) && AllKnown(t.cols, o)
    requires forall j | 0 <= j < |t.cols| :: ColumnSum(t.rows, j) > 0
    ensures Resolved(t, o) == Ok(t)
  {
    PruneNothingToDrop(t);
    UnknownNamesEmpty(t.cols, o);
    NoAmbiguousRows(t.rows, |t.rows|);
  }

  /** Every region name of a successful sorting is known to the ontology. */
  lemma ResolvedKnown(t: Table, o: Ontology)
    requires WellFormed(t) && Resolved(t, o).Ok?
    ensures AllKnown(Resolved(t, o).value.cols, o)
  {
    UnknownNamesEmpty(Prune(t).cols, o);
  }

  /** Pruning keeps only names that were there, so known names stay known. */
  lemma PruneKeepsKnown(t: Table, o: Ontology)
    requires WellFormed(t) && AllKnown(t.cols, o)
    ensures AllKnown(Prune(t).cols, o)
  {
  }

  /**
   * Sorting the output of a successful sorting again fails nowhere and changes
   * no marker's region; it only drops the regions the first run emptied.
   */
  lemma ResolveTwice(t: Table, o: Ontology)
    requires WellFormed(t) && Resolved(t, o).Ok?
    ensures Resolved(Resolved(t, o).value, o) == Ok(Prune(Resolved(t, o).value))
  {
    var out := Resolved(t, o).value;
    ResolvedKnown(t, o);
    PruneKeepsKnown(out, o);
    PruneRowSums(out);
    var q := Prune(out);
    UnknownNamesEmpty(q.cols, o);
    NoAmbiguousRows(q.rows, |q.rows|);
  }

  /** Every marker lies in some region exactly when its row of the built table has a true cell. */
  lemma MembershipCovered<Point, Polygon>(markers: seq<Point>, rois: seq<(string, Polygon)>,
                                          inside: (Point, Polygon) -> bool)
    ensures Covered(Membership(markers, rois, inside).rows) <==>
      forall i | 0 <= i < |markers| :: exists j | 0 <= j < |rois| :: inside(markers[i], rois[j].1)
  {
    var t := Membership(markers, rois, inside);
    forall i | 0 <= i < |markers|
      ensures RowSum(t.rows[i]) > 0 <==> exists j | 0 <= j < |rois| :: inside(markers[i], rois[j].1)
    {
      RowSumZero(t.rows[i]);
      assert forall j | 0 <= j < |rois| :: t.rows[i][j] == inside(markers[i], rois[j].1);
    }
    assert Covered(t.rows) <==> forall i | 0 <= i < |markers| :: RowSum(t.rows[i]) > 0;
  }

  /** The membership table of the three-marker scenario, before and after sorting. */
  function ScenarioTable(): Table
  {
    Table(["CTX", "ACB"], [[true, false], [true, true], [true, false]])
  }

  function ScenarioSorted(): Table
  {
    Table(["CTX", "ACB"], [[true, false], [false, true], [true, false]])
  }

  lemma ScenarioPrune()
    ensures WellFormed(ScenarioTable()) && Covered(ScenarioTable().rows)
    ensures Prune(ScenarioTable()) == ScenarioTable()
  {
    var t := ScenarioTable();
    assert ColumnSum(t.rows, 0) > 0 && ColumnSum(t.rows, 1) > 0;
    PruneNothingToDrop(t);
    assert RowSum([true, false]) == 1 && RowSum([true, true]) == 2;
  }

  lemma ScenarioAmbiguous()
    ensures AmbiguousRows(ScenarioTable().rows, 3) == [1]
  {
    assert RowSum([true, false]) == 1 && RowSum([true, true]) == 2;
  }

  lemma ScenarioCounts()
    ensures WellFormed(ScenarioSorted()) && SingleRegion(ScenarioSorted().rows)
    ensures ColumnSums(ScenarioSorted()) == [2, 1]
  {
    assert RowSum([true, false]) == 1 && RowSum([false, true]) == 1;
    var out := ScenarioSorted();
    assert ColumnSum(out.rows, 0) == 2 && ColumnSum(out.rows, 1) == 1;
  }

  lemma ScenarioDecision(o: Ontology, ctx: Structure, acb: Structure)
    requires o.lookup("CTX") == Some(ctx) && o.lookup("ACB") == Some(acb)
    requires ctx.acronym == "CTX" && o.contains(ctx, acb) && !o.precedes(acb, ctx)
    ensures Disambiguate([true, true], ["CTX", "ACB"], o) == Ok("CTX")
  {
    ScenarioNames();
    DisambiguateNestedPair([true, true], ["CTX", "ACB"], o, ctx, acb);
  }

  /** A marker in exactly two known regions, the first containing the second. */
  lemma DisambiguateNestedPair(row: seq<bool>, cols: seq<string>, o: Ontology, a: Structure, b: Structure)
    requires |row| == |cols| && |TrueNames(row, cols)| == 2
    requires o.lookup(TrueNames(row, cols)[0]) == Some(a) && o.lookup(TrueNames(row, cols)[1]) == Some(b)
    requires o.contains(a, b) && !o.precedes(b, a)
    ensures Disambiguate(row, cols, o) == Ok(a.acronym)
  {
    assert Structures(TrueNames(row, cols), o) == [a, b];
  }

  lemma ScenarioNames()
    ensures TrueNames([true, true], ["CTX", "ACB"]) == ["CTX", "ACB"]
  {
    assert [true, true][..1] == [true];
    assert TrueColumns([true]) == [0];
    assert TrueColumns([true, true]) == [0, 1];
  }

  lemma ScenarioKnown(o: Ontology)
    requires o.lookup("CTX").Some? && o.lookup("ACB").Some?
    ensures UnknownNames(ScenarioTable().cols, o) == []
  {
    var cols := ScenarioTable().cols;
    assert cols[0] == "CTX" && cols[1] == "ACB";
    UnknownNamesEmpty(cols, o);
  }

  lemma ScenarioWalk(o: Ontology)
    requires Disambiguate([true, true], ["CTX", "ACB"], o) == Ok("CTX")
    ensures ResolveRows(ScenarioTable(), [1], o) == Ok(ScenarioSorted())
  {
    var t := ScenarioTable();
    assert IndexOf(t.cols, "CTX") == Some(0);
    assert Clear([true, true], t.cols, "CTX") == [false, true];
    assert t.rows[1 := [false, true]] == ScenarioSorted().rows;
    assert [1][1..] == [];
  }

  /**
   * Three markers, all inside CTX and the second also inside ACB, with ACB
   * inside CTX and CTX sorting first: the second marker goes to ACB and the
   * counts are two for CTX and one for ACB.
   */
  lemma NestedPairScenario(o: Ontology, ctx: Structure, acb: Structure)
    requires o.lookup("CTX") == Some(ctx) && o.lookup("ACB") == Some(acb)
    requires ctx.acronym == "CTX" && o.contains(ctx, acb) && !o.precedes(acb, ctx)
    ensures Resolved(ScenarioTable(), o) == Ok(ScenarioSorted())
    ensures ColumnSums(Resolved(ScenarioTable(), o).value) == [2, 1]
  {
    ScenarioPrune();
    ScenarioAmbiguous();
    ScenarioCounts();
    ScenarioDecision(o, ctx, acb);
    ScenarioWalk(o);
    ScenarioKnown(o);
  }
}
