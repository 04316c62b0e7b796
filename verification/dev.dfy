/**
 * dev.py: `markers_per_struct`, the copy of the sorting that returns the sorted
 * membership table itself and fails an `assert` for a marker outside every
 * region and for a pair of regions that are not nested; and the rule of the
 * script body that files each counted structure under one of eight major brain
 * divisions (its "level"), tested in a fixed order.
 */
module Dev {
  import opened Outcomes
  import opened Atlas
  import opened Tables
  import opened Sorting
  import Resolution

  /** The exception class this copy raises for each failure. */
  function ExceptionFor(f: Failure): (e: Exception)
    ensures e == ValueError <==> f.UnknownAcronyms? || f.UnknownInRow?
  {
    match f
    case UnknownAcronyms(_) => ValueError
    case UnknownInRow(_) => ValueError
    case _ => AssertionError
  }

  /** Builds the membership table one region at a time and returns it sorted. */
  method MarkersPerStruct<Point, Polygon>(markers: seq<Point>, rois: seq<(string, Polygon)>,
                                          inside: (Point, Polygon) -> bool, o: Ontology)
    returns (r: Result<Table, Raised>)
    requires Distinct(RegionNames(rois))
    ensures var s := Resolved(Membership(markers, rois, inside), o);
      && (r.Ok? <==> s.Ok?)
      && (r.Ok? ==> r.value == s.value)
      && (r.Err? ==> r.error.failure == s.error)
    ensures r.Ok? ==> WellFormed(r.value) && SingleRegion(r.value.rows) && |r.value.rows| == |markers|
    ensures (r.Err? && r.error.failure == NoRegion) <==>
      exists i | 0 <= i < |markers| :: forall j | 0 <= j < |rois| :: !inside(markers[i], rois[j].1)
    ensures r.Err? ==> !r.error.failure.UnknownInRow?
    ensures r.Err? ==> (r.error.exception == ValueError <==> r.error.failure.UnknownAcronyms?)
    ensures Consistent(o) ==> !(r.Err? && r.error.failure == NotSingleRegion)
  {
    var t := BuildTable(markers, rois, inside);
    Resolution.MembershipCovered(markers, rois, inside);
    Resolution.RowAcronymCheckUnreachable(t, o);
    if Consistent(o) {
      Resolution.ClosingCheckNeverFails(t, o);
    }
    var s := Resolve(t, o);
    match s
    case Err(f) =>
      r := Err(Raised(ExceptionFor(f), f));
    case Ok(out) =>
      r := Ok(out);
  }

  /** The major divisions the script looks up before grouping. */
  datatype Majors = Majors(cnu: Structure, hpf: Structure, ctx: Structure, th: Structure,
                           hy: Structure, mb: Structure, my: Structure, p: Structure)

  /** The level a structure is given when nothing before it matches. */
  const Unfiled: nat := 8

  /**
   * The divisions in the order the script tests them, each with the level it
   * gives. The hippocampal formation is tested before the cortex because every
   * structure inside it is also inside the cortex.
   */
  function Order(m: Majors): (order: seq<(Structure, nat)>)
    ensures |order| == 8
  {
    [(m.cnu, 1), (m.hpf, 2), (m.ctx, 0), (m.th, 3), (m.hy, 4), (m.mb, 5), (m.my, 6), (m.p, 7)]
  }

  /** The `if`/`elif` chain that files structure `s`: `s in major or s == major`, in order. */
  function Level(o: Ontology, m: Majors, s: Structure): (level: nat)
    ensures level <= Unfiled
  {
    if Within(o, s, m.cnu) then 1
    else if Within(o, s, m.hpf) then 2
    else if Within(o, s, m.ctx) then 0
    else if Within(o, s, m.th) then 3
    else if Within(o, s, m.hy) then 4
    else if Within(o, s, m.mb) then 5
    else if Within(o, s, m.my) then 6
    else if Within(o, s, m.p) then 7
    else Unfiled
  }

  /** The level of the first division in `order`, from position `k` on, that holds `s`, or `Unfiled`. */
  function FirstMatch(o: Ontology, order: seq<(Structure, nat)>, s: Structure, k: nat): (level: nat)
    decreases |order| - k
  {
    if k >= |order| then Unfiled
    else if Within(o, s, order[k].0) then order[k].1
    else FirstMatch(o, order, s, k + 1)
  }

  /**
   * The first match from position `k` on is the level of a division that holds
   * `s` with none before it (from `k`) holding it, or `Unfiled` when none does.
   */
  lemma {:induction false} FirstMatchSpec(o: Ontology, order: seq<(Structure, nat)>, s: Structure, k: nat)
    requires k <= |order|
    ensures (forall l | k <= l < |order| :: !Within(o, s, order[l].0)) ==> FirstMatch(o, order, s, k) == Unfiled
    ensures (exists l | k <= l < |order| :: Within(o, s, order[l].0)) ==>
      exists l | k <= l < |order| :: FirstMatch(o, order, s, k) == order[l].1 && Within(o, s, order[l].0)
        && forall l' | k <= l' < l :: !Within(o, s, order[l'].0)
    decreases |order| - k
  {
    if k < |order| && !Within(o, s, order[k].0) {
      FirstMatchSpec(o, order, s, k + 1);
    }
  }

  /**
   * The chain files a structure under the first division in the test order that
   * holds it, and under `Unfiled` exactly when no division holds it.
   */
  lemma LevelIsFirstMatch(o: Ontology, m: Majors, s: Structure)
    ensures Level(o, m, s) == FirstMatch(o, Order(m), s, 0)
    ensures Level(o, m, s) == Unfiled <==> forall k | 0 <= k < 8 :: !Within(o, s, Order(m)[k].0)
    ensures Level(o, m, s) != Unfiled ==>
      exists k | 0 <= k < 8 :: Level(o, m, s) == Order(m)[k].1 && Within(o, s, Order(m)[k].0)
        && forall l | 0 <= l < k :: !Within(o, s, Order(m)[l].0)
  {
    var q := Order(m);
    assert FirstMatch(o, q, s, 8) == Unfiled;
    assert FirstMatch(o, q, s, 7) == if Within(o, s, m.p) then 7 else Unfiled;
    assert FirstMatch(o, q, s, 6) == if Within(o, s, m.my) then 6 else FirstMatch(o, q, s, 7);
    assert FirstMatch(o, q, s, 5) == if Within(o, s, m.mb) then 5 else FirstMatch(o, q, s, 6);
    assert FirstMatch(o, q, s, 4) == if Within(o, s, m.hy) then 4 else FirstMatch(o, q, s, 5);
    assert FirstMatch(o, q, s, 3) == if Within(o, s, m.th) then 3 else FirstMatch(o, q, s, 4);
    assert FirstMatch(o, q, s, 2) == if Within(o, s, m.ctx) then 0 else FirstMatch(o, q, s, 3);
    assert FirstMatch(o, q, s, 1) == if Within(o, s, m.hpf) then 2 else FirstMatch(o, q, s, 2);
    assert FirstMatch(o, q, s, 0) == if Within(o, s, m.cnu) then 1 else FirstMatch(o, q, s, 1);
    FirstMatchSpec(o, q, s, 0);
  }

  /**
   * A structure inside the hippocampal formation (and outside the cerebral
   * nuclei) gets level 2 even though the cortex holds it too.
   */
  lemma HippocampusBeforeCortex(o: Ontology, m: Majors, s: Structure)
    requires Within(o, s, m.hpf) && !Within(o, s, m.cnu)
    ensures Level(o, m, s) == 2
  {
  }

  /**
   * The loop over the counted structure names: looks each name up and records its
   * level, as `t['level'][t.index == name] = level` does row by row.
   */
  method AssignLevels(names: seq<string>, o: Ontology, m: Majors) returns (levels: seq<nat>)
    requires forall k | 0 <= k < |names| :: o.lookup(names[k]).Some?
    ensures |levels| == |names|
    ensures forall k | 0 <= k < |names| :: levels[k] == Level(o, m, o.lookup(names[k]).value)
    ensures forall k | 0 <= k < |names| :: levels[k] <= Unfiled
  {
    levels := [];
    for k := 0 to |names|
      invariant |levels| == k
      invariant forall l | 0 <= l < k :: levels[l] == Level(o, m, o.lookup(names[l]).value)
    {
      var s := o.lookup(names[k]).value;
      levels := levels + [Level(o, m, s)];
    }
  }
}
