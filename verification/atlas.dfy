/**
 * The structure ontology the sorting consults. It is an external service
 * (the Allen brain atlas ontology); the model only fixes the three questions
 * the sorting asks of it.
 */
module Atlas {
  import opened Outcomes

  /** One node of the ontology: a brain structure and its acronym. */
  datatype Structure = Structure(id: int, acronym: string)

  /**
   * `lookup` answers `ontology(name)` and `ontology[name]` alike (None when the
   * acronym is unknown); `precedes(a, b)` is the `a < b` that sorting a list of
   * structures uses (shallower structures come first); `contains(outer, inner)`
   * is `inner in outer`.
   */
  datatype Ontology = Ontology(
    lookup: string -> Option<Structure>,
    precedes: (Structure, Structure) -> bool,
    contains: (Structure, Structure) -> bool)

  /** An ontology whose lookup returns a structure under the acronym it was asked for. */
  ghost predicate Consistent(o: Ontology)
  {
    forall name: string :: o.lookup(name).Some? ==> o.lookup(name).value.acronym == name
  }

  /** The `s in major or s == major` test of the grouping rule. */
  predicate Within(o: Ontology, s: Structure, major: Structure)
  {
    o.contains(major, s) || s == major
  }
}
