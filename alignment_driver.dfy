/**
 * The entry point of the process-tree alignments: aligning one trace, or a
 * whole log with a cache per trace variant and a cache of reduced trees per
 * activity set, followed by the fitness that puts each cost in relation to
 * the trace length and to the cost of aligning the empty trace.
 */
module AlignmentDriver {
  import opened Wrappers
  import opened ProcessTrees
  import opened SearchStates
  import opened Reconstruction
  import opened SearchGraph

  /** The alignment reported for one trace of a log: the search result with its fitness, the cost scaled by 10000. */
  datatype TraceAlignment = TraceAlignment(cost: int, moves: seq<Move>, optimal: bool, fitness: real)

  /** Why a log could not be aligned: the search for this variant returned no alignment. */
  datatype DriverError = NoAlignment(variant: seq<Label>)

  /** The tree reduction for a trace: the reduced tree and its leaves. */
  type Reducer = (PTree, seq<Label>) -> (PTree, seq<NodeId>)

  /** The reduction hands back a leaf list fit for the search: positions of leaves of the reduced tree. */
  ghost predicate ReducerOk(reduce: Reducer)
  {
    forall t, trace :: LeafSetOk(reduce(t, trace).0, reduce(t, trace).1)
  }

  /** The activity set of a trace, the key of the reduced-tree cache. */
  function Activities(trace: seq<Label>): (acts: set<Label>)
    ensures forall a :: a in acts <==> a in trace
  {
    set i | 0 <= i < |trace| :: trace[i]
  }

  /** Factor that makes process-tree costs uniform with Petri-net alignment costs. */
  const CostScale: int := 10000

  /**
   * Fitness as for Petri-net alignments: one minus the cost relative to the
   * trace length plus the cost of the empty trace, and 0 when that sum is
   * not positive.
   */
  function Fitness(cost: int, traceLength: nat, bestWorstCost: int): (f: real)
    ensures traceLength + bestWorstCost <= 0 ==> f == 0.0
    ensures traceLength + bestWorstCost > 0 ==> (f == 1.0 <==> cost == 0)
    ensures traceLength + bestWorstCost > 0 && cost >= 0 ==> f <= 1.0
    ensures traceLength + bestWorstCost > 0 && cost <= traceLength + bestWorstCost ==> f >= 0.0
  {
    var d := traceLength + bestWorstCost;
    if d > 0 then
      FractionBounds(cost as real, d as real);
      1.0 - (cost as real) / (d as real)
    else 0.0
  }

  lemma FractionBounds(c: real, d: real)
    requires d > 0.0
    ensures c / d == 0.0 <==> c == 0.0
    ensures c >= 0.0 ==> c / d >= 0.0
    ensures c <= d ==> c / d <= 1.0
  {
  }

  /** What the driver promises about the alignment it reports for `variant`. */
  ghost predicate Reported(variant: seq<Label>, al: TraceAlignment, bestWorstCost: int)
  {
    al.optimal && al.cost >= 0 && al.cost % CostScale == 0 &&
    LogSide(al.moves) == variant &&
    al.fitness == Fitness(al.cost / CostScale, |variant|, bestWorstCost)
  }

  /** Trace `j` is the first trace of the log whose activity set is `acts`. */
  ghost predicate FirstWith(log: seq<seq<Label>>, j: nat, acts: set<Label>)
  {
    j < |log| && Activities(log[j]) == acts && forall k :: 0 <= k < j ==> Activities(log[k]) != acts
  }

  /**
   * Every reduced-tree cache entry was computed for the first trace with its
   * activity set, trace `first[acts]`, one of the first `bound` traces.
   */
  ghost predicate ReducedAtFirst(log: seq<seq<Label>>, bound: nat, pt: PTree, reduce: Reducer,
                                 reductions: map<set<Label>, (PTree, seq<NodeId>)>, first: map<set<Label>, nat>)
  {
    forall acts :: acts in reductions ==>
      acts in first && first[acts] < bound && FirstWith(log, first[acts], acts) &&
      reductions[acts] == reduce(pt, log[first[acts]])
  }

  /** The first `i` results are the cached alignments of the first `i` traces. */
  ghost predicate Listed(log: seq<seq<Label>>, i: nat, ret: seq<TraceAlignment>,
                         alignDict: map<seq<Label>, TraceAlignment>)
  {
    i <= |log| && |ret| == i && forall k :: 0 <= k < i ==> log[k] in alignDict && ret[k] == alignDict[log[k]]
  }

  /** The reduced-tree cache after the first `i` traces: fit for the search, filled at first occurrence, covering them all. */
  ghost predicate ReducedSoFar(log: seq<seq<Label>>, i: nat, pt: PTree, reduce: Reducer,
                               treeRedDict: map<set<Label>, (PTree, seq<NodeId>)>, first: map<set<Label>, nat>)
  {
    i <= |log| &&
    (forall acts :: acts in treeRedDict ==> LeafSetOk(treeRedDict[acts].0, treeRedDict[acts].1)) &&
    ReducedAtFirst(log, i, pt, reduce, treeRedDict, first) &&
    (forall k :: 0 <= k < i ==> Activities(log[k]) in treeRedDict)
  }

  lemma ListedStepHit(log: seq<seq<Label>>, i: nat, ret: seq<TraceAlignment>,
                      alignDict: map<seq<Label>, TraceAlignment>)
    requires Listed(log, i, ret, alignDict) && i < |log| && log[i] in alignDict
    ensures Listed(log, i + 1, ret + [alignDict[log[i]]], alignDict)
  {
  }

  lemma ListedStepNew(log: seq<seq<Label>>, i: nat, ret: seq<TraceAlignment>,
                      alignDict: map<seq<Label>, TraceAlignment>, al: TraceAlignment)
    requires Listed(log, i, ret, alignDict) && i < |log| && log[i] !in alignDict
    ensures Listed(log, i + 1, ret + [al], alignDict[log[i] := al])
  {
    var d := alignDict[log[i] := al];
    var r := ret + [al];
    forall k | 0 <= k < i + 1
      ensures log[k] in d && r[k] == d[log[k]]
    {
      if k < i {
        assert log[k] in alignDict && log[k] != log[i];
      }
    }
  }

  lemma ReducedStepHit(log: seq<seq<Label>>, i: nat, pt: PTree, reduce: Reducer,
                       treeRedDict: map<set<Label>, (PTree, seq<NodeId>)>, first: map<set<Label>, nat>)
    requires ReducedSoFar(log, i, pt, reduce, treeRedDict, first) && i < |log| && Activities(log[i]) in treeRedDict
    ensures ReducedSoFar(log, i + 1, pt, reduce, treeRedDict, first)
  {
  }

  lemma ReducedStepMiss(log: seq<seq<Label>>, i: nat, pt: PTree, reduce: Reducer,
                        treeRedDict: map<set<Label>, (PTree, seq<NodeId>)>, first: map<set<Label>, nat>)
    requires ReducerOk(reduce)
    requires ReducedSoFar(log, i, pt, reduce, treeRedDict, first) && i < |log| && Activities(log[i]) !in treeRedDict
    ensures ReducedSoFar(log, i + 1, pt, reduce, treeRedDict[Activities(log[i]) := reduce(pt, log[i])],
                         first[Activities(log[i]) := i])
  {
    var acts0 := Activities(log[i]);
    assert FirstWith(log, i, acts0);
  }

  /** Traces with equal variants get equal results. */
  lemma ListedShared(log: seq<seq<Label>>, ret: seq<TraceAlignment>, alignDict: map<seq<Label>, TraceAlignment>)
    requires Listed(log, |log|, ret, alignDict)
    ensures forall i, j :: 0 <= i < |log| && 0 <= j < |log| && log[i] == log[j] ==> ret[i] == ret[j]
  {
  }

  /** Aligns a single trace against the tree reduced for it. */
  method ApplyToTrace(trace: seq<Label>, pt: PTree, oracle: Oracle, reduce: Reducer, fuel: nat)
    returns (outcome: SearchOutcome)
    requires KeepsKeys(oracle) && CloseOpensLeaf(oracle) && ReducerOk(reduce)
    ensures outcome.Found? ==>
              outcome.record.optimal && outcome.record.cost >= 0 && LogSide(outcome.record.moves) == trace
  {
    var reduced := reduce(pt, trace);
    outcome := ApplyVariant(trace, reduced.1, reduced.0, oracle, fuel);
  }

  /** Looks up the reduced tree for trace `i` in the cache, reducing and caching it at the first trace with its activity set. */
  method ReducedTree(log: seq<seq<Label>>, i: nat, pt: PTree, reduce: Reducer,
                     treeRedDict: map<set<Label>, (PTree, seq<NodeId>)>, ghost first: map<set<Label>, nat>)
    returns (reduced: (PTree, seq<NodeId>), treeRedDict': map<set<Label>, (PTree, seq<NodeId>)>,
             ghost first': map<set<Label>, nat>)
    requires ReducerOk(reduce) && i < |log| && ReducedSoFar(log, i, pt, reduce, treeRedDict, first)
    ensures ReducedSoFar(log, i + 1, pt, reduce, treeRedDict', first')
    ensures treeRedDict' == if Activities(log[i]) in treeRedDict then treeRedDict
                            else treeRedDict[Activities(log[i]) := reduce(pt, log[i])]
    ensures reduced == treeRedDict'[Activities(log[i])] && LeafSetOk(reduced.0, reduced.1)
    ensures forall acts :: acts in treeRedDict ==> acts in treeRedDict'
  {
    var activities := Activities(log[i]);
    if activities !in treeRedDict {
      reduced := reduce(pt, log[i]);
      ReducedStepMiss(log, i, pt, reduce, treeRedDict, first);
      treeRedDict' := treeRedDict[activities := reduced];
      first' := first[activities := i];
    } else {
      reduced := treeRedDict[activities];
      ReducedStepHit(log, i, pt, reduce, treeRedDict, first);
      treeRedDict' := treeRedDict;
      first' := first;
    }
  }

  /** Aligns one variant on its reduced tree; on success adds the fitness and scales the cost. */
  method AlignVariant(variant: seq<Label>, reduced: (PTree, seq<NodeId>), oracle: Oracle, fuel: nat, bwc: int)
    returns (res: Option<TraceAlignment>)
    requires KeepsKeys(oracle) && CloseOpensLeaf(oracle) && LeafSetOk(reduced.0, reduced.1)
    ensures res.Some? ==> Reported(variant, res.value, bwc)
  {
    var outcome := ApplyVariant(variant, reduced.1, reduced.0, oracle, fuel);
    if !outcome.Found? {
      return None;
    }
    var al := outcome.record;
    var fitness := Fitness(al.cost, |variant|, bwc);
    var scaled := TraceAlignment(al.cost * CostScale, al.moves, al.optimal, fitness);
    assert scaled.cost / CostScale == al.cost;
    return Some(scaled);
  }

  /** The state of the driver after the first `i` traces of the log. */
  ghost predicate DriverInv(log: seq<seq<Label>>, i: nat, pt: PTree, reduce: Reducer, bwc: int,
                            ret: seq<TraceAlignment>, alignDict: map<seq<Label>, TraceAlignment>,
                            treeRedDict: map<set<Label>, (PTree, seq<NodeId>)>, first: map<set<Label>, nat>)
  {
    (forall v :: v in alignDict ==> Reported(v, alignDict[v], bwc) && Activities(v) in treeRedDict) &&
    Listed(log, i, ret, alignDict) &&
    ReducedSoFar(log, i, pt, reduce, treeRedDict, first)
  }

  lemma DriverInvNew(log: seq<seq<Label>>, i: nat, pt: PTree, reduce: Reducer, bwc: int,
                     ret: seq<TraceAlignment>, alignDict: map<seq<Label>, TraceAlignment>,
                     treeRedDict: map<set<Label>, (PTree, seq<NodeId>)>, first: map<set<Label>, nat>,
                     treeRedDict': map<set<Label>, (PTree, seq<NodeId>)>, first': map<set<Label>, nat>,
                     al: TraceAlignment)
    requires i < |log| && DriverInv(log, i, pt, reduce, bwc, ret, alignDict, treeRedDict, first)
    requires log[i] !in alignDict && Reported(log[i], al, bwc)
    requires ReducedSoFar(log, i + 1, pt, reduce, treeRedDict', first')
    requires forall acts :: acts in treeRedDict ==> acts in treeRedDict'
    ensures DriverInv(log, i + 1, pt, reduce, bwc, ret + [al], alignDict[log[i] := al], treeRedDict', first')
  {
    ListedStepNew(log, i, ret, alignDict, al);
    assert Activities(log[i]) in treeRedDict';
  }

  lemma DriverInvHit(log: seq<seq<Label>>, i: nat, pt: PTree, reduce: Reducer, bwc: int,
                     ret: seq<TraceAlignment>, alignDict: map<seq<Label>, TraceAlignment>,
                     treeRedDict: map<set<Label>, (PTree, seq<NodeId>)>, first: map<set<Label>, nat>)
    requires i < |log| && DriverInv(log, i, pt, reduce, bwc, ret, alignDict, treeRedDict, first)
    requires log[i] in alignDict
    ensures DriverInv(log, i + 1, pt, reduce, bwc, ret + [alignDict[log[i]]], alignDict, treeRedDict, first)
  {
    ReducedStepHit(log, i, pt, reduce, treeRedDict, first);
    ListedStepHit(log, i, ret, alignDict);
  }

  /**
   * One round of the loop over the log: reports the cached alignment of the
   * variant of trace `i`, or searches, scores and caches it first.  Returns
   * false when the search finds no alignment.
   */
  method AlignTrace(log: seq<seq<Label>>, i: nat, pt: PTree, oracle: Oracle, reduce: Reducer, fuel: nat, bwc: int,
                    ret: seq<TraceAlignment>, alignDict: map<seq<Label>, TraceAlignment>,
                    treeRedDict: map<set<Label>, (PTree, seq<NodeId>)>, ghost first: map<set<Label>, nat>)
    returns (ok: bool, ret': seq<TraceAlignment>, alignDict': map<seq<Label>, TraceAlignment>,
             treeRedDict': map<set<Label>, (PTree, seq<NodeId>)>, ghost first': map<set<Label>, nat>)
    requires KeepsKeys(oracle) && CloseOpensLeaf(oracle) && ReducerOk(reduce)
    requires i < |log| && DriverInv(log, i, pt, reduce, bwc, ret, alignDict, treeRedDict, first)
    ensures ok ==> DriverInv(log, i + 1, pt, reduce, bwc, ret', alignDict', treeRedDict', first')
    ensures ReducedSoFar(log, i + 1, pt, reduce, treeRedDict', first')
    ensures ok ==> log[i] in alignDict' && ret' == ret + [alignDict'[log[i]]]
    ensures log[i] in alignDict ==> ok && alignDict' == alignDict && treeRedDict' == treeRedDict
  {
    var variant := log[i];
    if variant !in alignDict {
      var reduced;
      reduced, treeRedDict', first' := ReducedTree(log, i, pt, reduce, treeRedDict, first);
      var al := AlignVariant(variant, reduced, oracle, fuel, bwc);
      if al.None? {
        return false, ret, alignDict, treeRedDict', first';
      }
      DriverInvNew(log, i, pt, reduce, bwc, ret, alignDict, treeRedDict, first, treeRedDict', first', al.value);
      alignDict' := alignDict[variant := al.value];
      ret' := ret + [al.value];
    } else {
      DriverInvHit(log, i, pt, reduce, bwc, ret, alignDict, treeRedDict, first);
      treeRedDict', first', alignDict' := treeRedDict, first, alignDict;
      ret' := ret + [alignDict[variant]];
    }
    ok := true;
  }

  /**
   * Aligns every trace of a log, in order.  The empty trace is aligned first
   * on the whole tree; its cost is the best worst cost of the fitness
   * (`empty` is that alignment).  Each
   * variant is searched once and its alignment reported for every trace of
   * that variant; each activity set is reduced once, for the first trace
   * that has it.  A search that returns no alignment fails the whole log.
   */
  method ApplyToLog(log: seq<seq<Label>>, pt: PTree, leaves: seq<NodeId>, oracle: Oracle,
                    reduce: Reducer, fuel: nat)
    returns (r: Result<seq<TraceAlignment>, DriverError>, ghost bestWorstCost: int, ghost empty: AlignmentRecord,
             ghost reductions: map<set<Label>, (PTree, seq<NodeId>)>, ghost first: map<set<Label>, nat>)
    requires KeepsKeys(oracle) && CloseOpensLeaf(oracle) && LeafSetOk(pt, leaves) && ReducerOk(reduce)
    ensures r.Success? ==> bestWorstCost >= 0 && |r.value| == |log|
    ensures r.Success? ==> empty.optimal && LogSide(empty.moves) == [] && empty.cost == bestWorstCost
    ensures r.Success? ==> forall i :: 0 <= i < |log| ==> Reported(log[i], r.value[i], bestWorstCost)
    ensures r.Success? ==> forall i, j :: 0 <= i < |log| && 0 <= j < |log| && log[i] == log[j] ==>
                                          r.value[i] == r.value[j]
    ensures r.Success? ==> forall i :: 0 <= i < |log| ==> Activities(log[i]) in reductions
    ensures ReducedAtFirst(log, |log|, pt, reduce, reductions, first)
  {
    var emptyOutcome := ApplyVariant([], leaves, pt, oracle, fuel);
    if !emptyOutcome.Found? {
      return Failure(NoAlignment([])), 0, AlignmentRecord(0, [], false), map[], map[];
    }
    empty := emptyOutcome.record;
    var bwc := emptyOutcome.record.cost;
    var ret: seq<TraceAlignment> := [];
    var alignDict: map<seq<Label>, TraceAlignment> := map[];
    var treeRedDict: map<set<Label>, (PTree, seq<NodeId>)> := map[];
    first := map[];
    var i := 0;
    while i < |log|
      invariant i <= |log| && DriverInv(log, i, pt, reduce, bwc, ret, alignDict, treeRedDict, first)
    {
      var ok;
      ok, ret, alignDict, treeRedDict, first := AlignTrace(log, i, pt, oracle, reduce, fuel, bwc,
                                                           ret, alignDict, treeRedDict, first);
      if !ok {
        return Failure(NoAlignment(log[i])), bwc, empty, treeRedDict, first;
      }
      i := i + 1;
    }
    ListedShared(log, ret, alignDict);
    return Success(ret), bwc, empty, treeRedDict, first;
  }
}
