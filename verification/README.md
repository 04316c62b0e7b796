# Sorting cell markers into brain regions

The repository counts labelled cells ("markers") in images of brain sections.
Each image has markers and named regions of interest (ROIs) drawn as polygons.
Each region is named after a structure acronym of the Allen mouse brain ontology.
The counting step sorts every marker into the regions that contain it, then
reduces that to one region per marker. Where a marker lies in two nested
regions, the deeper region wins. The step exists in three near-identical
copies:

- `RoiFile.get_markers_per_structure` in `cell_sorting.py`;
- `DataFile.get_markers_per_structure` in `cellsInRoi.py`;
- `markers_per_struct` in `dev.py`.

`dev.py` also files each counted structure under one of eight major brain
divisions (its "level"). The `RoiListModel` of `rois.py` holds the ROIs while
they are drawn and keeps their names unique.

The model has these modules:

- `Atlas`: the ontology as an abstract value. It has a `lookup` from acronym
  to structure, the `precedes` order that `list.sort` uses on two structures,
  and the `contains` relation (`inner in outer`).
- `Tables`: the marker × region boolean table, row and column sums, and
  pruning of the empty regions.
- `Sorting`: the shared algorithm.
  - `BuildTable` fills the table column by column.
  - `Resolved` is the whole procedure as a function.
  - `ResolveInPlace` and `Resolve` are the loop over the ambiguous markers,
    which clears cells of an array in place, proved equal to `Resolved`.
- `Resolution`: what the procedure guarantees.
- `CellSorting`, `CellsInRoi`, `Dev`: the three copies. Each has its own
  mapping from failure to exception class (`ValueError` or a failed
  `assert`) and its own return value. `Dev` also has the level rule.
- `Rois`: the ROI registry as a class with `entries` and `isDirty` fields.

The point-in-polygon test is a parameter `inside`. The ontology is a
parameter `o`.

The code is followed where the copies differ:

- `cell_sorting.py` raises `ValueError` for a pair of regions that are not
  nested. The other two copies fail an `assert` there.
- `dev.py` fails an `assert` for a marker in no region. The other two raise
  `ValueError`.
- `dev.py` returns the sorted table. The other two return the per-region
  counts.

All three copies look each acronym up a second time inside the loop over
ambiguous markers. This second check can never fail: every name it sees
already passed the check over the whole table
(`Resolution.RowAcronymCheckUnreachable`).

## Model

| member | source | states |
|---|---|---|
| Sorting.BuildTable | cell_sorting.py:148-152 | the column-filling loop yields the table whose cell (i, j) says whether marker i lies inside region j, with the regions in dictionary order |
| Tables.RowSumZero | cell_sorting.py:156 | a marker's row sums to zero exactly when none of its cells is true |
| Resolution.MembershipCovered | cell_sorting.py:156-159 | the no-region check passes exactly when every marker lies inside at least one region polygon |
| Sorting.Resolved | cell_sorting.py:156-228 | the procedure fails with the no-region failure exactly when some marker is in no region; on success every marker is in exactly one region, the regions are the surviving ones and no marker is lost |
| Sorting.Resolve | cell_sorting.py:156-228 | running the checks and then the in-place loop gives exactly the result of the whole procedure |
| Sorting.ResolveInPlace | cell_sorting.py:186-225 | walking the precomputed ambiguous rows and clearing one cell per row in place ends in the table, or the first failure, of the row-by-row walk |
| Sorting.ResolveRows | cell_sorting.py:187-225 | the walk keeps the region names and the number of markers, and can only stop with an unknown-acronym, too-many-regions or not-nested failure |
| Tables.KeptColumnsSpec | cell_sorting.py:162-163 | the kept column indices ascend and are exactly the columns with at least one true cell |
| Tables.PruneRowSums | cell_sorting.py:162-163 | dropping the empty regions changes no marker's number of regions |
| Tables.PruneColumnsHoldMarkers | cell_sorting.py:162-163 | every region that survives pruning holds at least one marker |
| Tables.PruneKeepsMarkedColumns | cell_sorting.py:162-163 | a name survives pruning exactly when some region of that name holds a marker |
| Tables.PruneNothingToDrop | cell_sorting.py:162-163 | a table whose every region holds a marker is left as it is |
| Tables.PruneColumnCells | dev.py:45 | each surviving column is an original column that holds a marker, with its name and every cell unchanged |
| Tables.Prune | cell_sorting.py:162-163 | pruning keeps every marker's row and yields a well-formed table |
| Tables.PruneDistinct | cell_sorting.py:162-163 | distinct region names stay distinct after pruning |
| Sorting.UnknownNames | cell_sorting.py:167-177 | the reported list holds exactly the surviving names that the ontology lacks |
| Sorting.UnknownNamesEmpty | cell_sorting.py:169 | no name is reported exactly when the ontology knows every surviving name |
| Resolution.UnknownAcronymsListed | cell_sorting.py:167-177 | once every marker has a region, one unknown name on a region with a marker makes the procedure fail, listing exactly the unknown names among the regions that hold a marker |
| Sorting.AmbiguousRows | cell_sorting.py:186-187 | the rows to disambiguate, fixed before the loop, are in ascending order and are exactly the markers in more than one region |
| Sorting.NoAmbiguousRows | cell_sorting.py:186-187 | with no marker in two regions there is no row to disambiguate |
| Sorting.TrueColumns | cell_sorting.py:189 | `ser[ser]`: one ascending index for each true cell of the row, and no other |
| Sorting.SortPair | cell_sorting.py:213 | sorting two structures keeps both, swaps them only when the second precedes the first, and leaves them in order under an asymmetric order |
| Sorting.DisambiguateSpec | cell_sorting.py:193-225 | a decision that succeeds names the acronym of the outer structure of a nested pair and only happens for a marker in exactly two regions; with known names three or more regions fail; a not-nested failure comes from two regions the first of which does not contain the second; the row's acronym re-check fails only on a name the ontology lacks |
| Sorting.Disambiguate | cell_sorting.py:189-217 | the decision for one marker fails only with an unknown-acronym, too-many-regions or not-nested failure |
| Sorting.DisambiguatePair | cell_sorting.py:193-225 | for a marker in exactly two known regions, sorted as `isin.sort()` sorts them, the decision succeeds exactly when the first contains the second, then names the first, and otherwise fails with the pair as sorted; so a nested pair whose inner structure sorts first is rejected |
| Resolution.DisambiguateNestedPair | cell_sorting.py:193-225 | a marker in two known regions, the first containing the second and not sorting after it, gets a decision that names the first structure's acronym |
| Sorting.IndexOf | cell_sorting.py:225 | the label lookup finds the first column with that name, and finds nothing exactly when no column has it |
| Sorting.Clear | cell_sorting.py:225 | with distinct region names, writing False under the acronym clears exactly the cell of that region and keeps every other cell |
| Tables.RowSumClear | cell_sorting.py:225 | clearing one true cell lowers the marker's number of regions by exactly one |
| Resolution.ResolveRowsFrame | cell_sorting.py:186-225 | each listed row is decided on its contents from before the loop and loses exactly the cell its decision names; every other row is untouched |
| Resolution.FirstFailureSpec | cell_sorting.py:199-217 | a failure is reported exactly when some listed row's decision fails, and it is the failure of the first such row: every listed row before it decides successfully |
| Resolution.ResolveRowsFailure | cell_sorting.py:187-217 | the loop stops exactly when some row's decision fails, with the failure of the first such row |
| Resolution.RowAcronymCheckUnreachable | cell_sorting.py:199-202 | the per-marker acronym re-check never fires |
| Resolution.TooManyRegionsFail | cell_sorting.py:206-208 | once every marker has a region and with valid acronyms, a marker in three or more regions makes the procedure fail, with a too-many-regions or a not-nested failure |
| Resolution.UnnestedPairFails | cell_sorting.py:213-217 | once every marker has a region and with valid acronyms, a marker in two regions neither of which contains the other makes the procedure fail |
| Resolution.NotNestedPairFails | cell_sorting.py:213-217 | once every marker has a region and with valid acronyms, a marker in two regions whose sorted first structure does not contain the second makes the procedure fail |
| Resolution.AmbiguousRowCleared | cell_sorting.py:213-225 | with a consistent ontology and distinct region names, a resolved marker in two regions loses exactly the cell of the region that contains the other, and ends in one region |
| Resolution.ClearNested | cell_sorting.py:225 | for a nested pair, clearing the outer structure's acronym clears exactly the outer region's cell, given a consistent ontology and distinct names |
| Resolution.ResolvedRows | cell_sorting.py:186-228 | with a consistent ontology and distinct region names, after the loop every marker is in one region; markers already in one region keep their row; a marker in two regions keeps only the deeper one |
| Resolution.ClosingCheckNeverFails | cell_sorting.py:228 | with a consistent ontology and distinct region names, the closing one-region check never fails |
| Tables.SingleRegionCounts | cell_sorting.py:228-232 | when every marker is in exactly one region, the per-region counts add up to the number of markers |
| Resolution.ResolvedCounts | cell_sorting.py:228-232 | on success the returned counts add up to the number of markers |
| Tables.TotalColumnSums | cell_sorting.py:232 | the sum of the per-region counts equals the sum of the per-marker counts |
| Resolution.ResolvedKnown | cell_sorting.py:167-177 | every region name of a successful sorting is known to the ontology |
| Resolution.ResolvedIsFixedPoint | cell_sorting.py:186-189 | a table where every marker is in one region, every region holds a marker and every name is known comes back unchanged |
| Resolution.ResolveTwice | cell_sorting.py:186-189 | sorting the result of a successful sorting again succeeds and changes no marker's region; it only drops the regions the first run emptied |
| Resolution.NestedPairScenario | cell_sorting.py:136-232 | three markers in CTX, the second also in ACB (which CTX contains): the second marker goes to ACB and the counts are 2 for CTX and 1 for ACB |
| CellSorting.GetMarkersPerStructure | cell_sorting.py:136-232 | returns each surviving region with its count, the counts adding up to the number of markers; fails with the no-region `ValueError` exactly when a marker is outside every polygon; asserts only for too many regions and the closing check; never fails the row acronym re-check nor, with a consistent ontology, the closing check |
| CellsInRoi.GetMarkersPerStructure | cellsInRoi.py:88-166 | the same result and guarantees as the first copy; raises `ValueError` exactly for the no-region and unknown-acronym failures and asserts for the rest |
| Dev.MarkersPerStruct | dev.py:36-93 | returns the sorted table, one region per marker and one row per marker; asserts exactly when a marker is in no region, and for too many regions, a pair that is not nested and the closing check; raises `ValueError` only for unknown acronyms; with a consistent ontology the closing check never fails |
| CellSorting.ExceptionFor | cell_sorting.py:159-228 | this copy fails an `assert` only for a marker in more than two regions and for the closing check, and raises `ValueError` for everything else |
| CellsInRoi.ExceptionFor | cellsInRoi.py:97-162 | this copy raises `ValueError` only for a marker in no region and for unknown acronyms, and fails an `assert` for the rest |
| Dev.ExceptionFor | dev.py:41-91 | this copy raises `ValueError` only for unknown acronyms, and fails an `assert` for the rest |
| Dev.Level | dev.py:149-160 | every structure gets a level between 0 and 8 |
| Dev.FirstMatchSpec | dev.py:147-161 | the first match is the level of a division that holds the structure, with no division before it holding it, or 8 when none does |
| Dev.LevelIsFirstMatch | dev.py:149-160 | the chain files a structure under the first of CNU, HPF, CTX, TH, HY, MB, MY, P that holds or equals it, and under 8 exactly when none does |
| Dev.HippocampusBeforeCortex | dev.py:150-154 | a structure inside the hippocampal formation and outside the cerebral nuclei gets level 2, even though the cortex holds it too |
| Dev.AssignLevels | dev.py:147-161 | the loop gives each counted name the level of its structure, each between 0 and 8 |
| Rois.DecimalInjective | rois.py:154-159 | different counters have different decimal forms |
| Rois.SuffixedInjective | rois.py:154-159 | different counters give different `name_n` strings |
| Rois.CandidatesSize | rois.py:154-159 | a name and its first c suffixed forms are c + 1 different strings |
| Rois.CandidatesBound | rois.py:154-159 | if a name and its first c suffixed forms are all in use, more than c names are in use, so the search for a free suffix ends |
| Rois.UniqueNameDeterminate | rois.py:147-159 | the unique name is determined by the name and the names in use, and it is never a name in use |
| Rois.NameInUseIsSuffixed | rois.py:117-121 | asking for a name in use never returns it, so renaming a row to its current name gives `name_1` when that is free |
| Rois.PopIndex | rois.py:132 | `list.pop(position)` accepts exactly the positions from -length to length - 1, and counts negative positions from the end |
| Rois.RoiListModel.constructor | rois.py:72-80 | a new model is empty, clean and valid |
| Rois.RoiListModel.Clear | rois.py:82-87 | clearing leaves the list empty and the model clean |
| Rois.RoiListModel.GetUniqueName | rois.py:138-159 | returns the name when it is not in use, and otherwise `name_n` for the least n >= 1 that is not in use |
| Rois.RoiListModel.InsertRow | rois.py:161-177 | appends exactly one entry at the end under the unique name, renames the region to it, keeps the earlier entries, marks the model dirty and keeps the names distinct |
| Rois.RoiListModel.SetData | rois.py:112-126 | with a valid row and a non-empty value, renames only that row and its region to the unique form of the value and marks the model dirty; otherwise returns false and changes nothing; names stay distinct |
| Rois.RoiListModel.RemoveRow | rois.py:128-136 | on an empty list returns false and changes nothing; otherwise removes exactly the entry `list.pop` picks, keeps the order of the rest and marks the model dirty, or raises `IndexError` with nothing changed; names stay distinct |

## Left out

- Point-in-polygon: matplotlib's `Path.contains_points` and `points_inside_poly` become the parameter `inside`. Their floating-point boundary behaviour is not modelled.
- The Allen ontology is an abstract value. `ontology(name)` and `ontology[key]` are the same `lookup`. `precedes` is any relation, so `Sorting.SortPair` puts the pair in order only when `precedes` is asymmetric. `in` between structures is the `contains` relation.
- CellSorting.GetMarkersPerStructure, CellsInRoi.GetMarkersPerStructure, Dev.MarkersPerStruct: require distinct region names. The regions come from a dictionary, whose keys are distinct; `Membership` and `BuildTable` themselves accept any list of names.
- Resolution.ClosingCheckNeverFails: holds only for an ontology that files each structure under its own acronym, and for distinct region names. The source clears the cell by `acronym`, so other ontologies can make the closing check fail.
- Pandas chained assignment (`sorted_markers.loc[indx][acronym] = False`, and the same in the other copies) is modelled as the intended write to that one cell. Whether pandas writes to a copy is not modelled.
- Exception messages, the file name inside them, and the `self.ISW` attribute set before the unknown-acronym error (cell_sorting.py:176) are not modelled. A failure carries only its kind and the names or structures involved.
- HDF5 loading, plotting, and the `dev.py` script body apart from the level rule are not modelled. This covers the directory walk, concatenation, `t.sort_index(by='level')` (dev.py:163), the unused `cb` lookup, the bar chart and the file output.
- Dev.Level: the eight major divisions (dev.py:134-141) are taken as structures found in the ontology. If one of those lookups returned `None`, the source's `s in None` would raise `TypeError`; the model cannot express that case.
- Dev.AssignLevels: requires every name to be known to the ontology. The source would fail on an unknown name in a way that depends on the ontology library. The names it is given come from successful sortings, whose names are all known (`Resolution.ResolvedKnown`).
- Qt side effects in rois.py are not modelled: `beginInsertRows`/`endInsertRows`, `beginRemoveRows`/`endRemoveRows`, `polygon.remove()`, and the `rowCount`, `data`, `flags`, `__iter__` and `set_visible` members. `beginRemoveRows` runs before `list.pop` can raise `IndexError`; only the list and the flag are modelled.
- The `Roi` class is reduced to an identity and a name. In the source the list entry and the caller share one `Roi` object that is renamed in place. The model returns the renamed value instead (`InsertRow`'s result, the entry `SetData` writes), so that aliasing is not modelled.
- Rois.RoiListModel.InsertRow, SetData and RemoveRow: require the class invariant `Valid()` (distinct names, each entry named like its region). The constructor and every operation establish it; the source states no such requirement.
