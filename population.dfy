/**
 * Members of the evolutionary population.  The source keeps one dictionary
 * per candidate tree; its fixed keys (the id, the log's activities, the tree
 * and the aggregated quality) become fields, and the per-metric entries that
 * evaluation writes become the map `scores` from metric name to value.
 */
module Population {
  import opened Wrappers
  import opened ProcessTrees

  class Individual {
    var id: nat
    var logActivities: seq<Label>
    var tree: PTree
    var scores: map<string, real>
    var quality: Option<real>

    /** A new dictionary holding an id, the log's activities and a tree, and nothing evaluated yet. */
    constructor (id: nat, logActivities: seq<Label>, tree: PTree)
      ensures this.id == id && this.logActivities == logActivities && this.tree == tree
      ensures scores == map[] && quality == None
    {
      this.id := id;
      this.logActivities := logActivities;
      this.tree := tree;
      scores := map[];
      quality := None;
    }

    /** `deepcopy`: a new individual with the same contents as `other`. */
    constructor Copy(other: Individual)
      ensures SameContents(this, other)
    {
      id := other.id;
      logActivities := other.logActivities;
      tree := other.tree;
      scores := other.scores;
      quality := other.quality;
    }
  }

  /** Two individuals hold the same entries (what a deep copy preserves). */
  predicate SameContents(a: Individual, b: Individual)
    reads a, b
  {
    a.id == b.id && a.logActivities == b.logActivities && a.tree == b.tree &&
    a.scores == b.scores && a.quality == b.quality
  }
}
