/**
 * Turning the search state that reached the goal into an alignment: walk
 * the parent links back to the initial state, translate each transition into
 * log moves, model moves and synchronous moves, and reverse.
 */
module Reconstruction {
  import opened Wrappers
  import opened ProcessTrees
  import opened Sequences
  import opened SearchStates

  /**
   * One alignment move: the trace event (None is the skip symbol ">>") and
   * the model leaf (None is the skip symbol).  A log move has no leaf, a
   * model move no event, a synchronous move both.
   */
  datatype Move = Move(log: Option<Label>, model: Option<NodeId>)

  /** The result record of one trace variant: its cost, its moves, and the optimality flag. */
  datatype AlignmentRecord = AlignmentRecord(cost: int, moves: seq<Move>, optimal: bool)

  /** The events that the moves explain, in order (the log side of the alignment). */
  function LogSide(ms: seq<Move>): seq<Label>
  {
    if ms == [] then []
    else (if ms[0].log.Some? then [ms[0].log.value] else []) + LogSide(ms[1..])
  }

  /** The model leaves that the moves execute, in order (the model side of the alignment). */
  function ModelSide(ms: seq<Move>): seq<NodeId>
  {
    if ms == [] then []
    else (if ms[0].model.Some? then [ms[0].model.value] else []) + ModelSide(ms[1..])
  }

  /** Both sides of concatenated moves are the concatenated sides. */
  lemma SidesAppend(p: seq<Move>, q: seq<Move>)
    ensures LogSide(p + q) == LogSide(p) + LogSide(q)
    ensures ModelSide(p + q) == ModelSide(p) + ModelSide(q)
  {
    LogSideAppend(p, q);
    ModelSideAppend(p, q);
  }

  lemma {:induction false} LogSideAppend(p: seq<Move>, q: seq<Move>)
    ensures LogSide(p + q) == LogSide(p) + LogSide(q)
    decreases |p|
  {
    if p == [] {
      assert p + q == q;
    } else {
      assert (p + q)[1..] == p[1..] + q;
      LogSideAppend(p[1..], q);
    }
  }

  lemma {:induction false} ModelSideAppend(p: seq<Move>, q: seq<Move>)
    ensures ModelSide(p + q) == ModelSide(p) + ModelSide(q)
    decreases |p|
  {
    if p == [] {
      assert p + q == q;
    } else {
      assert (p + q)[1..] == p[1..] + q;
      ModelSideAppend(p[1..], q);
    }
  }

  /** The label of the leaf at position `l` (None for a silent leaf or a position outside the tree). */
  function LeafLabel(tree: PTree, l: NodeId): Option<Label>
  {
    match NodeAt(tree, l)
    case None => None
    case Some(n) => n.activity
  }

  /** How many of the leaves carry a label: the model moves that cost. */
  function CountLabelled(tree: PTree, ls: seq<NodeId>): (n: nat)
    ensures n <= |ls|
  {
    if ls == [] then 0
    else (if LeafLabel(tree, ls[0]).Some? then 1 else 0) + CountLabelled(tree, ls[1..])
  }

  /** Counting labelled leaves is additive over concatenation. */
  lemma {:induction false} CountLabelledAppend(tree: PTree, xs: seq<NodeId>, ys: seq<NodeId>)
    ensures CountLabelled(tree, xs + ys) == CountLabelled(tree, xs) + CountLabelled(tree, ys)
    decreases |xs|
  {
    if xs == [] {
      assert xs + ys == ys;
    } else {
      assert (xs + ys)[0] == xs[0];
      assert (xs + ys)[1..] == xs[1..] + ys;
      CountLabelledAppend(tree, xs[1..], ys);
    }
  }

  /**
   * Among all the leaves a path opens, the labelled ones are exactly the
   * leaves recorded without silent ones: charging the latter charges the
   * labelled part of the former.
   */
  lemma {:induction false} CountLabelledOfPath(tree: PTree, path: Path)
    ensures CountLabelled(tree, LeavesOfPath(tree, path, true)) == |LeavesOfPath(tree, path, false)|
    decreases |path|
  {
    if path != [] {
      CountLabelledOfPath(tree, path[1..]);
      var rest := LeavesOfPath(tree, path[1..], true);
      if OpensLeaf(tree, path[0], true) {
        assert LeavesOfPath(tree, path, true) == [path[0].node] + rest;
        assert LeavesOfPath(tree, path, true)[1..] == rest;
        assert OpensLeaf(tree, path[0], false) <==> LeafLabel(tree, path[0].node).Some?;
      } else {
        assert LeavesOfPath(tree, path, true) == rest;
        assert LeavesOfPath(tree, path, false) == LeavesOfPath(tree, path[1..], false);
      }
    }
  }

  /** The last position of a leaf labelled `sym`, if any. */
  function LastLabelled(tree: PTree, ls: seq<NodeId>, sym: Label): (r: Option<nat>)
    ensures r.Some? ==> r.value < |ls| && LeafLabel(tree, ls[r.value]) == Some(sym) &&
                        forall j :: r.value < j < |ls| ==> LeafLabel(tree, ls[j]) != Some(sym)
    ensures r.None? ==> forall j :: 0 <= j < |ls| ==> LeafLabel(tree, ls[j]) != Some(sym)
    decreases |ls|
  {
    if ls == [] then None
    else if LeafLabel(tree, ls[|ls| - 1]) == Some(sym) then Some(|ls| - 1)
    else LastLabelled(tree, ls[..|ls| - 1], sym)
  }

  /** A leaf labelled `sym` among the leaves means the last such leaf exists. */
  lemma LabelledLeafFound(tree: PTree, ls: seq<NodeId>, sym: Label, j: nat)
    requires j < |ls| && LeafLabel(tree, ls[j]) == Some(sym)
    ensures LastLabelled(tree, ls, sym).Some?
  {
  }

  /** Model moves (skip on the log side) for the given leaves. */
  function ModelMoves(ls: seq<NodeId>): (r: seq<Move>)
    ensures ModelSide(r) == ls && LogSide(r) == []
  {
    if ls == [] then []
    else
      var r := [Move(None, Some(ls[0]))] + ModelMoves(ls[1..]);
      assert r[0] == Move(None, Some(ls[0])) && r[1..] == ModelMoves(ls[1..]);
      r
  }

  /** Model moves for the leaves, except a synchronous move with `sym` at position `i`. */
  function MarkedMoves(ls: seq<NodeId>, i: nat, sym: Label): seq<Move>
    requires i < |ls|
  {
    ModelMoves(ls[..i]) + [Move(Some(sym), Some(ls[i]))] + ModelMoves(ls[i + 1..])
  }

  /**
   * The final step explains no trace event: it did record leaves, none of
   * them carries the last event's label, and its cost, less `modelCost`, is
   * not above the parent's cost.
   */
  predicate LogMoveOmitted(tree: PTree, variant: seq<Label>, par: SearchState, cur: SearchState, modelCost: int)
    requires 0 < |variant|
  {
    cur.index == |variant| && cur.leaves != [] &&
    LastLabelled(tree, cur.leaves, variant[|variant| - 1]).None? &&
    !(cur.costs - modelCost > par.costs)
  }

  /**
   * The moves for the transition from `par` to `cur`, in alignment order.
   * `modelCost` is what the final step deducts from the cost increase to
   * decide whether the last trace event was a log move.
   */
  function StepMovesDeducting(tree: PTree, variant: seq<Label>, par: SearchState, cur: SearchState, modelCost: int): seq<Move>
    requires par.index + 1 == cur.index <= |variant|
  {
    var ls := cur.leaves;
    if ls == [] then
      [Move(Some(variant[par.index]), None)]
    else if cur.index == |variant| then
      match LastLabelled(tree, ls, variant[|variant| - 1])
      case Some(i) => MarkedMoves(ls, i, variant[|variant| - 1])
      case None =>
        ModelMoves(ls) +
        (if cur.costs - modelCost > par.costs then [Move(Some(variant[par.index]), None)] else [])
    else
      ModelMoves(ls[..|ls| - 1]) + [Move(Some(variant[par.index]), Some(ls[|ls| - 1]))]
  }

  /** The step as the reconstruction is written: it deducts every recorded leaf, silent ones included. */
  function StepMovesAsWritten(tree: PTree, variant: seq<Label>, par: SearchState, cur: SearchState): seq<Move>
    requires par.index + 1 == cur.index <= |variant|
  {
    StepMovesDeducting(tree, variant, par, cur, |cur.leaves|)
  }

  /** The step with only the labelled leaves deducted: the model moves that were actually charged. */
  function StepMoves(tree: PTree, variant: seq<Label>, par: SearchState, cur: SearchState): seq<Move>
    requires par.index + 1 == cur.index <= |variant|
  {
    StepMovesDeducting(tree, variant, par, cur, CountLabelled(tree, cur.leaves))
  }

  /** The sides of a single move. */
  lemma OneMoveSides(m: Move)
    ensures LogSide([m]) == if m.log.Some? then [m.log.value] else []
    ensures ModelSide([m]) == if m.model.Some? then [m.model.value] else []
  {
    assert [m][1..] == [];
  }

  /**
   * Every step executes exactly the leaves its transition recorded, in
   * order, and explains the event at the parent's trace position unless
   * the final step omits the log move.
   */
  lemma StepMovesSides(tree: PTree, variant: seq<Label>, par: SearchState, cur: SearchState, modelCost: int)
    requires par.index + 1 == cur.index <= |variant|
    ensures ModelSide(StepMovesDeducting(tree, variant, par, cur, modelCost)) == cur.leaves
    ensures LogSide(StepMovesDeducting(tree, variant, par, cur, modelCost)) ==
            if LogMoveOmitted(tree, variant, par, cur, modelCost) then [] else [variant[par.index]]
  {
    var ls := cur.leaves;
    if ls == [] {
      OneMoveSides(Move(Some(variant[par.index]), None));
    } else if cur.index == |variant| {
      match LastLabelled(tree, ls, variant[|variant| - 1])
      case Some(i) => MarkedMovesSides(ls, i, variant[|variant| - 1]);
      case None => UnmarkedFinalSides(ls, variant[par.index], cur.costs - modelCost > par.costs);
    } else {
      LastMarkedSides(ls, variant[par.index]);
    }
  }

  /** A final step without a matching leaf: model moves, then the log move if one was charged. */
  lemma UnmarkedFinalSides(ls: seq<NodeId>, sym: Label, charged: bool)
    ensures var log: seq<Move> := if charged then [Move(Some(sym), None)] else [];
            ModelSide(ModelMoves(ls) + log) == ls &&
            LogSide(ModelMoves(ls) + log) == if charged then [sym] else []
  {
    var log: seq<Move> := if charged then [Move(Some(sym), None)] else [];
    OneMoveSides(Move(Some(sym), None));
    SidesAppend(ModelMoves(ls), log);
  }

  /** A step before the end of the trace: the last recorded leaf is the synchronous move. */
  lemma LastMarkedSides(ls: seq<NodeId>, sym: Label)
    requires ls != []
    ensures ModelSide(ModelMoves(ls[..|ls| - 1]) + [Move(Some(sym), Some(ls[|ls| - 1]))]) == ls
    ensures LogSide(ModelMoves(ls[..|ls| - 1]) + [Move(Some(sym), Some(ls[|ls| - 1]))]) == [sym]
  {
    var pre, sync := ModelMoves(ls[..|ls| - 1]), [Move(Some(sym), Some(ls[|ls| - 1]))];
    OneMoveSides(sync[0]);
    SidesAppend(pre, sync);
    assert ls[..|ls| - 1] + [ls[|ls| - 1]] == ls;
  }

  /** The marked leaf gives the only event; every leaf is executed once, in order. */
  lemma MarkedMovesSides(ls: seq<NodeId>, i: nat, sym: Label)
    requires i < |ls|
    ensures ModelSide(MarkedMoves(ls, i, sym)) == ls
    ensures LogSide(MarkedMoves(ls, i, sym)) == [sym]
  {
    var pre, sync, post := ModelMoves(ls[..i]), [Move(Some(sym), Some(ls[i]))], ModelMoves(ls[i + 1..]);
    assert MarkedMoves(ls, i, sym) == pre + sync + post;
    OneMoveSides(sync[0]);
    SidesAppend(pre, sync);
    SidesAppend(pre + sync, post);
    SplitAround(ls, i);
  }

  /**
   * The recorded tree is the search tree of the alignment search: the
   * parent links go one trace event back, and the only state without a
   * parent is at the start of the trace.
   */
  ghost predicate Rooted(a: seq<SearchState>, n: nat)
  {
    ParentsOk(a, n) && forall k :: 0 <= k < |a| && a[k].parent.None? ==> a[k].index == 0
  }

  /** The alignment of the search state `k`: the moves of its ancestors' steps, oldest first. */
  function Reconstruct(tree: PTree, variant: seq<Label>, a: seq<SearchState>, k: nat): seq<Move>
    requires ParentsOk(a, |variant|) && k < |a|
    decreases a[k].index
  {
    assert LinkOk(a, |variant|, k);
    match a[k].parent
    case None => []
    case Some(p) => Reconstruct(tree, variant, a, p) + StepMoves(tree, variant, a[p], a[k])
  }

  /** One step of the reconstruction: the parent's alignment followed by the step's moves. */
  lemma ReconstructUnfold(tree: PTree, variant: seq<Label>, a: seq<SearchState>, k: nat)
    requires ParentsOk(a, |variant|) && k < |a| && a[k].parent.Some?
    ensures a[k].parent.value < |a| && a[a[k].parent.value].index + 1 == a[k].index <= |variant|
    ensures Reconstruct(tree, variant, a, k) ==
            Reconstruct(tree, variant, a, a[k].parent.value) + StepMoves(tree, variant, a[a[k].parent.value], a[k])
  {
    assert LinkOk(a, |variant|, k);
  }

  /** The leaves recorded along the parent chain of `k`, oldest first. */
  function LeafTrail(a: seq<SearchState>, k: nat, n: nat): seq<NodeId>
    requires ParentsOk(a, n) && k < |a|
    decreases a[k].index
  {
    assert LinkOk(a, n, k);
    match a[k].parent
    case None => []
    case Some(p) => LeafTrail(a, p, n) + a[k].leaves
  }

  /** The model side of the alignment lists every leaf any step of the chain recorded, in order. */
  lemma {:induction false} ReconstructModelSide(tree: PTree, variant: seq<Label>, a: seq<SearchState>, k: nat)
    requires ParentsOk(a, |variant|) && k < |a|
    ensures ModelSide(Reconstruct(tree, variant, a, k)) == LeafTrail(a, k, |variant|)
    decreases a[k].index
  {
    match a[k].parent
    case None =>
    case Some(p) =>
      ReconstructUnfold(tree, variant, a, k);
      ReconstructModelSide(tree, variant, a, p);
      StepMovesSides(tree, variant, a[p], a[k], CountLabelled(tree, a[k].leaves));
      SidesAppend(Reconstruct(tree, variant, a, p), StepMoves(tree, variant, a[p], a[k]));
  }

  /** Before the end of the trace, the log side of the alignment is exactly the explained prefix of the trace. */
  lemma {:induction false} ReconstructLogSide(tree: PTree, variant: seq<Label>, a: seq<SearchState>, k: nat)
    requires Rooted(a, |variant|) && k < |a|
    requires a[k].index < |variant|
    ensures LogSide(Reconstruct(tree, variant, a, k)) == variant[..a[k].index]
    decreases a[k].index
  {
    match a[k].parent
    case None =>
    case Some(p) =>
      ReconstructUnfold(tree, variant, a, k);
      ReconstructLogSide(tree, variant, a, p);
      var before, step := Reconstruct(tree, variant, a, p), StepMoves(tree, variant, a[p], a[k]);
      StepLogSide(tree, variant, a[p], a[k]);
      LogSideAppend(before, step);
      PrefixSnoc(variant, a[p].index);
  }

  /** The log side of one step: the event at the parent's position, unless the final step omits its log move. */
  lemma StepLogSide(tree: PTree, variant: seq<Label>, par: SearchState, cur: SearchState)
    requires par.index + 1 == cur.index <= |variant|
    ensures LogSide(StepMoves(tree, variant, par, cur)) ==
            if LogMoveOmitted(tree, variant, par, cur, CountLabelled(tree, cur.leaves)) then [] else [variant[par.index]]
  {
    StepMovesSides(tree, variant, par, cur, CountLabelled(tree, cur.leaves));
  }

  /**
   * At the end of the trace the log side is the whole trace, except that
   * the last event is missing exactly when the final step omits its log move.
   */
  lemma ReconstructLogSideFinal(tree: PTree, variant: seq<Label>, a: seq<SearchState>, k: nat)
    requires Rooted(a, |variant|) && k < |a|
    requires 0 < |variant| && a[k].index == |variant|
    ensures a[k].parent.Some? && a[k].parent.value < |a|
    ensures var p := a[k].parent.value;
            LogSide(Reconstruct(tree, variant, a, k)) ==
            if LogMoveOmitted(tree, variant, a[p], a[k], CountLabelled(tree, a[k].leaves))
            then variant[..|variant| - 1] else variant
  {
    assert LinkOk(a, |variant|, k);
    var p := a[k].parent.value;
    var before, step := Reconstruct(tree, variant, a, p), StepMoves(tree, variant, a[p], a[k]);
    ReconstructUnfold(tree, variant, a, k);
    ReconstructLogSide(tree, variant, a, p);
    StepLogSide(tree, variant, a[p], a[k]);
    LogSideAppend(before, step);
    SplitLast(variant);
  }

  /**
   * A final step keeps the last event when it either charged a log move or
   * recorded a leaf labelled with that event.
   */
  lemma FinalStepKeepsEvent(tree: PTree, variant: seq<Label>, par: SearchState, cur: SearchState)
    requires par.index + 1 == cur.index == |variant|
    requires cur.costs == par.costs + 1 + CountLabelled(tree, cur.leaves) ||
             exists j :: 0 <= j < |cur.leaves| && LeafLabel(tree, cur.leaves[j]) == Some(variant[par.index])
    ensures !LogMoveOmitted(tree, variant, par, cur, CountLabelled(tree, cur.leaves))
  {
    if cur.costs != par.costs + 1 + CountLabelled(tree, cur.leaves) {
      var j :| 0 <= j < |cur.leaves| && LeafLabel(tree, cur.leaves[j]) == Some(variant[par.index]);
      LabelledLeafFound(tree, cur.leaves, variant[|variant| - 1], j);
    }
  }

  /** A state without a parent has the empty alignment. */
  lemma ReconstructAtStart(tree: PTree, variant: seq<Label>, a: seq<SearchState>, k: nat)
    requires ParentsOk(a, |variant|) && k < |a| && a[k].parent.None?
    ensures Reconstruct(tree, variant, a, k) == []
  {
  }

  /**
   * A final step that was a log move followed by closing the tree charges
   * one for the log move plus its labelled leaves, so with the labelled
   * leaves deducted the log move is never omitted.
   */
  lemma FinishAfterLogMoveKeepsEvent(tree: PTree, variant: seq<Label>, par: SearchState, cur: SearchState)
    requires par.index + 1 == cur.index == |variant|
    requires cur.costs == par.costs + 1 + CountLabelled(tree, cur.leaves)
    ensures !LogMoveOmitted(tree, variant, par, cur, CountLabelled(tree, cur.leaves))
    ensures LogSide(StepMoves(tree, variant, par, cur)) == [variant[|variant| - 1]]
  {
    StepMovesSides(tree, variant, par, cur, CountLabelled(tree, cur.leaves));
  }

  /**
   * The reconstruction as written drops that log move whenever the closing
   * path opened a silent leaf: for the tree SEQUENCE(B, tau) and the trace
   * [A], the goal state (cost 2, leaves B and tau) is reached by a log move
   * on A and closing the tree, but its moves explain no event.
   */
  lemma SilentLeafDropsLogMove()
    ensures var tree := PTree(Some(Sequence), None, [Leaf("B"), Tau()]);
            var par := SearchState(0, 0, map[], [], None, {});
            var cur := SearchState(2, 1, map[], [[0], [1]], Some(0), {});
            cur.costs == par.costs + 1 + CountLabelled(tree, cur.leaves) &&
            LogSide(StepMovesAsWritten(tree, ["A"], par, cur)) == [] &&
            LogSide(StepMoves(tree, ["A"], par, cur)) == ["A"]
  {
    var tree := PTree(Some(Sequence), None, [Leaf("B"), Tau()]);
    var par := SearchState(0, 0, map[], [], None, {});
    var cur := SearchState(2, 1, map[], [[0], [1]], Some(0), {});
    assert NodeAt(tree, [0]) == Some(Leaf("B"));
    assert NodeAt(tree, [1]) == Some(Tau());
    assert CountLabelled(tree, cur.leaves) == 1;
    assert LastLabelled(tree, cur.leaves, "A").None?;
    StepMovesSides(tree, ["A"], par, cur, |cur.leaves|);
    StepMovesSides(tree, ["A"], par, cur, 1);
  }

  /** A silent leaf among the recorded leaves leaves fewer labelled leaves than recorded ones. */
  lemma {:induction false} SilentLeafUncounted(tree: PTree, ls: seq<NodeId>, j: nat)
    requires j < |ls| && LeafLabel(tree, ls[j]).None?
    ensures CountLabelled(tree, ls) < |ls|
    decreases |ls|
  {
    if j > 0 {
      SilentLeafUncounted(tree, ls[1..], j - 1);
    }
  }

  /** When every recorded leaf is labelled, all of them are counted. */
  lemma {:induction false} AllLabelledCounted(tree: PTree, ls: seq<NodeId>)
    requires forall j :: 0 <= j < |ls| ==> LeafLabel(tree, ls[j]).Some?
    ensures CountLabelled(tree, ls) == |ls|
    decreases |ls|
  {
    if ls != [] {
      AllLabelledCounted(tree, ls[1..]);
    }
  }

  /**
   * The final step as written, after a log move on the last event and
   * closing the tree without a leaf labelled with that event: the step
   * explains no event exactly when the closing recorded a silent leaf.
   */
  lemma AsWrittenDropsLogMove(tree: PTree, variant: seq<Label>, par: SearchState, cur: SearchState)
    requires par.index + 1 == cur.index == |variant|
    requires cur.costs == par.costs + 1 + CountLabelled(tree, cur.leaves)
    requires forall j :: 0 <= j < |cur.leaves| ==> LeafLabel(tree, cur.leaves[j]) != Some(variant[|variant| - 1])
    ensures LogSide(StepMovesAsWritten(tree, variant, par, cur)) ==
            if exists j :: 0 <= j < |cur.leaves| && LeafLabel(tree, cur.leaves[j]).None?
            then [] else [variant[|variant| - 1]]
  {
    StepMovesSides(tree, variant, par, cur, |cur.leaves|);
    if exists j :: 0 <= j < |cur.leaves| && LeafLabel(tree, cur.leaves[j]).None? {
      var j :| 0 <= j < |cur.leaves| && LeafLabel(tree, cur.leaves[j]).None?;
      SilentLeafUncounted(tree, cur.leaves, j);
    } else {
      AllLabelledCounted(tree, cur.leaves);
    }
  }

  /**
   * The alignment of the search state `k` as the reconstruction is written:
   * every step deducts all of its recorded leaves.
   */
  function ReconstructAsWritten(tree: PTree, variant: seq<Label>, a: seq<SearchState>, k: nat): seq<Move>
    requires ParentsOk(a, |variant|) && k < |a|
    decreases a[k].index
  {
    assert LinkOk(a, |variant|, k);
    match a[k].parent
    case None => []
    case Some(p) => ReconstructAsWritten(tree, variant, a, p) + StepMovesAsWritten(tree, variant, a[p], a[k])
  }

  /** Before the end of the trace no step deducts anything, so both reconstructions agree. */
  lemma {:induction false} AsWrittenAgreesBeforeEnd(tree: PTree, variant: seq<Label>, a: seq<SearchState>, k: nat)
    requires ParentsOk(a, |variant|) && k < |a| && a[k].index < |variant|
    ensures ReconstructAsWritten(tree, variant, a, k) == Reconstruct(tree, variant, a, k)
    decreases a[k].index
  {
    assert LinkOk(a, |variant|, k);
    match a[k].parent
    case None =>
    case Some(p) =>
      ReconstructUnfold(tree, variant, a, k);
      AsWrittenAgreesBeforeEnd(tree, variant, a, p);
  }

  /**
   * The reconstruction as written, at the end of the trace: the whole trace,
   * except that the last event is missing exactly when the final step,
   * deducting all of its recorded leaves, leaves out its log move.
   */
  lemma ReconstructAsWrittenLogSideFinal(tree: PTree, variant: seq<Label>, a: seq<SearchState>, k: nat)
    requires Rooted(a, |variant|) && k < |a|
    requires 0 < |variant| && a[k].index == |variant|
    ensures a[k].parent.Some? && a[k].parent.value < |a|
    ensures var p := a[k].parent.value;
            LogSide(ReconstructAsWritten(tree, variant, a, k)) ==
            if LogMoveOmitted(tree, variant, a[p], a[k], |a[k].leaves|)
            then variant[..|variant| - 1] else variant
  {
    assert LinkOk(a, |variant|, k);
    var p := a[k].parent.value;
    var before, step := ReconstructAsWritten(tree, variant, a, p), StepMovesAsWritten(tree, variant, a[p], a[k]);
    AsWrittenAgreesBeforeEnd(tree, variant, a, p);
    ReconstructLogSide(tree, variant, a, p);
    StepMovesSides(tree, variant, a[p], a[k], |a[k].leaves|);
    LogSideAppend(before, step);
    SplitLast(variant);
  }

  /** Collecting a step's moves backwards puts them in front of the reversed tail. */
  lemma PrependStep(init: seq<Move>, step: seq<Move>, alignment: seq<Move>)
    ensures (init + step) + Reverse(alignment) == init + Reverse(alignment + Reverse(step))
  {
    ReverseAppend(alignment, Reverse(step));
    ReverseInvolution(step);
  }

  /**
   * Walks the parent links from the goal state `t`, collecting each step's
   * moves backwards, and reverses them at the end.
   */
  method ConstructResult(tree: PTree, variant: seq<Label>, a: seq<SearchState>, t: nat) returns (r: AlignmentRecord)
    requires ParentsOk(a, |variant|) && t < |a|
    ensures r.cost == a[t].costs && r.optimal
    ensures r.moves == Reconstruct(tree, variant, a, t)
  {
    var alignment: seq<Move> := [];
    var cur: nat := t;
    while a[cur].parent.Some?
      invariant cur < |a|
      invariant Reconstruct(tree, variant, a, t) == Reconstruct(tree, variant, a, cur) + Reverse(alignment)
      decreases a[cur].index
    {
      ReconstructUnfold(tree, variant, a, cur);
      var p := a[cur].parent.value;
      var step := StepMoves(tree, variant, a[p], a[cur]);
      PrependStep(Reconstruct(tree, variant, a, p), step, alignment);
      alignment := alignment + Reverse(step);
      cur := p;
    }
    ReverseInvolution(alignment);
    r := AlignmentRecord(a[t].costs, Reverse(alignment), true);
  }
}
