/**
 * Search states of the process-tree alignment search and the pure rules the
 * search applies to them: the priority order, the leaves recorded on a
 * transition path, the "log move is unavoidable" analysis and the successor
 * rule.  The replay semantics of process trees is an `Oracle` given by the
 * caller.
 */
module SearchStates {
  import opened Wrappers
  import opened ProcessTrees
  import opened Sequences

  /** Replay state of one node of the process tree. */
  datatype OpState = Future | Open | Closed

  /** Global replay state: one entry per tree node, keyed by node position. */
  type TreeState = map<NodeId, OpState>

  /** One element of a transition path: a node and the state it was moved to. */
  datatype Step = Step(node: NodeId, state: OpState)

  type Path = seq<Step>

  /** What the replay oracle returns: a transition path and the state it reaches. */
  datatype Transition = Transition(path: Path, state: TreeState)

  /**
   * The replay semantics (initial state, shortest path that enables a leaf,
   * shortest path that closes a node).  `enable` answers None when the
   * current state forbids enabling the leaf.
   */
  datatype Oracle = Oracle(
    initial: PTree -> TreeState,
    enable: (PTree, NodeId, TreeState) -> Option<Transition>,
    close: (PTree, NodeId, TreeState) -> Transition)

  /**
   * The oracle's snapshots always carry the root, and a transition never adds
   * or drops nodes: the new snapshot has the keys of the old one.
   */
  ghost predicate KeepsKeys(o: Oracle)
  {
    (forall t :: [] in o.initial(t)) &&
    (forall t, n, s :: o.enable(t, n, s).Some? ==> o.enable(t, n, s).value.state.Keys == s.Keys) &&
    (forall t, n, s :: o.close(t, n, s).state.Keys == s.Keys)
  }

  /** The whole tree is closed: its root is CLOSED. */
  predicate IsFinalTreeState(s: TreeState)
    requires [] in s
  {
    s[[]] == Closed
  }

  // ---------------------------------------------------------------------
  // Leaves recorded on a transition path
  // ---------------------------------------------------------------------

  /** The step moves a leaf (a node without operator) to OPEN; a silent leaf counts only with `includeTau`. */
  predicate OpensLeaf(tree: PTree, st: Step, includeTau: bool)
  {
    st.state == Open &&
    match NodeAt(tree, st.node)
    case None => false
    case Some(n) => n.operator.None? && (includeTau || n.activity.Some?)
  }

  /** The leaves opened along `path`, in path order. */
  function LeavesOfPath(tree: PTree, path: Path, includeTau: bool): (r: seq<NodeId>)
    ensures |r| <= |path|
  {
    if path == [] then []
    else (if OpensLeaf(tree, path[0], includeTau) then [path[0].node] else [])
         + LeavesOfPath(tree, path[1..], includeTau)
  }

  /** Every recorded leaf is a node the path opens. */
  lemma {:induction false} LeavesOfPathMembers(tree: PTree, path: Path, includeTau: bool, x: NodeId)
    requires x in LeavesOfPath(tree, path, includeTau)
    ensures exists i :: 0 <= i < |path| && path[i].node == x && OpensLeaf(tree, path[i], includeTau)
  {
    if OpensLeaf(tree, path[0], includeTau) && x == path[0].node {
      assert path[0].node == x;
    } else {
      LeavesOfPathMembers(tree, path[1..], includeTau, x);
      var i :| 0 <= i < |path[1..]| && path[1..][i].node == x && OpensLeaf(tree, path[1..][i], includeTau);
      assert path[i + 1] == path[1..][i];
    }
  }

  /** Every leaf the path opens is recorded. */
  lemma {:induction false} LeavesOfPathContains(tree: PTree, path: Path, includeTau: bool, i: nat)
    requires i < |path| && OpensLeaf(tree, path[i], includeTau)
    ensures path[i].node in LeavesOfPath(tree, path, includeTau)
  {
    if i > 0 {
      assert path[1..][i - 1] == path[i];
      LeavesOfPathContains(tree, path[1..], includeTau, i - 1);
    }
  }

  /** Recording leaves commutes with concatenating paths. */
  lemma {:induction false} LeavesOfPathAppend(tree: PTree, p: Path, q: Path, includeTau: bool)
    ensures LeavesOfPath(tree, p + q, includeTau) == LeavesOfPath(tree, p, includeTau) + LeavesOfPath(tree, q, includeTau)
    decreases |p|
  {
    if p == [] {
      assert p + q == q;
    } else {
      assert (p + q)[0] == p[0];
      assert (p + q)[1..] == p[1..] + q;
      LeavesOfPathAppend(tree, p[1..], q, includeTau);
    }
  }

  /** The labelled leaves of a path are a subsequence of all its leaves (silent ones included). */
  lemma {:induction false} LabelledLeavesAreSubsequence(tree: PTree, path: Path)
    ensures IsSubsequence(LeavesOfPath(tree, path, false), LeavesOfPath(tree, path, true))
    decreases |path|
  {
    if path != [] {
      LabelledLeavesAreSubsequence(tree, path[1..]);
      var rest := LeavesOfPath(tree, path[1..], true);
      if OpensLeaf(tree, path[0], false) {
        assert LeavesOfPath(tree, path, true) == [path[0].node] + rest;
        assert LeavesOfPath(tree, path, true)[1..] == rest;
      } else if OpensLeaf(tree, path[0], true) {
        assert LeavesOfPath(tree, path, true) == [path[0].node] + rest;
        assert LeavesOfPath(tree, path, true)[1..] == rest;
        assert LeavesOfPath(tree, path, false) == LeavesOfPath(tree, path[1..], false);
      } else {
        assert LeavesOfPath(tree, path, true) == rest;
        assert LeavesOfPath(tree, path, false) == LeavesOfPath(tree, path[1..], false);
      }
    }
  }

  // ---------------------------------------------------------------------
  // Search states and their priority order
  // ---------------------------------------------------------------------

  /**
   * A search state: the cost so far, the number of trace events explained,
   * the replay snapshot, the leaves visited on the transition that produced
   * it, and, as arena indices, its parent and the states it produced.
   */
  datatype SearchState = SearchState(
    costs: int,
    index: nat,
    state: TreeState,
    leaves: seq<NodeId>,
    parent: Option<nat>,
    children: set<nat>)

  /** The deduplication key: same trace position and same replay snapshot. */
  predicate Equivalent(a: SearchState, b: SearchState)
  {
    a.index == b.index && a.state == b.state
  }

  /** Priority order: cheaper first; on equal cost, more of the trace explained first. */
  predicate Less(a: SearchState, b: SearchState)
  {
    if a.costs < b.costs then true
    else if a.costs == b.costs then a.index > b.index
    else false
  }

  lemma LessIsStrictWeakOrder(a: SearchState, b: SearchState, c: SearchState)
    ensures Less(a, b) <==> (a.costs < b.costs || (a.costs == b.costs && a.index > b.index))
    ensures !Less(a, a)
    ensures Less(a, b) ==> !Less(b, a)
    ensures Less(a, b) && Less(b, c) ==> Less(a, c)
    ensures (!Less(a, b) && !Less(b, a)) <==> (a.costs == b.costs && a.index == b.index)
  {
  }

  /** `i` is an entry of `open` that no other entry of `open` precedes. */
  predicate IsMinimum(a: seq<SearchState>, open: multiset<nat>, i: nat)
  {
    i in open && i < |a| && forall j :: j in open && j < |a| ==> !Less(a[j], a[i])
  }

  /** A non-empty frontier always has a minimum, so a pop is always possible. */
  lemma {:induction false} MinimumExists(a: seq<SearchState>, open: multiset<nat>)
    requires open != multiset{}
    requires forall j :: j in open ==> j < |a|
    ensures exists i :: IsMinimum(a, open, i)
    decreases |open|
  {
    var x :| x in open;
    var rest := open - multiset{x};
    assert open == rest + multiset{x};
    if rest == multiset{} {
      assert IsMinimum(a, open, x);
    } else {
      MinimumExists(a, rest);
      var m: nat :| IsMinimum(a, rest, m);
      MinimumOfAdded(a, rest, x, m);
    }
  }

  /** Adding `x` to a frontier whose minimum is `m`: the new minimum is the earlier of the two. */
  lemma MinimumOfAdded(a: seq<SearchState>, rest: multiset<nat>, x: nat, m: nat)
    requires IsMinimum(a, rest, m) && x < |a|
    ensures IsMinimum(a, rest + multiset{x}, if Less(a[x], a[m]) then x else m)
  {
    var i := if Less(a[x], a[m]) then x else m;
    forall j | j in rest + multiset{x} && j < |a| ensures !Less(a[j], a[i]) {
      if j != x {
        assert j in rest;
      }
    }
  }

  /**
   * The parent links of an arena: a parent is an arena entry one trace
   * position behind, and no state is past the end of the trace.
   */
  ghost predicate ParentsOk(a: seq<SearchState>, n: nat)
  {
    forall k :: 0 <= k < |a| ==> LinkOk(a, n, k)
  }

  /** Entry `k` of the arena is within the trace and its parent, if any, is one event behind. */
  predicate LinkOk(a: seq<SearchState>, n: nat, k: nat)
    requires k < |a|
  {
    a[k].index <= n &&
    (a[k].parent.Some? ==> a[k].parent.value < |a| && a[a[k].parent.value].index + 1 == a[k].index)
  }

  // ---------------------------------------------------------------------
  // When is a log move unavoidable
  // ---------------------------------------------------------------------

  function ChildId(c: NodeId, i: nat): NodeId { c + [i] }

  /** The node was FUTURE or CLOSED before the move. */
  predicate Settled(s: TreeState, n: NodeId)
  {
    n in s && (s[n] == Future || s[n] == Closed)
  }

  /** A FUTURE or CLOSED node changed its state. */
  predicate Moved(before: TreeState, after: TreeState, n: NodeId)
    requires before.Keys <= after.Keys
  {
    Settled(before, n) && before[n] != after[n]
  }

  /** The node is a choice point: an XOR or a LOOP. */
  predicate IsChoice(tree: PTree, c: NodeId)
  {
    NodeAt(tree, c).Some? && NodeAt(tree, c).value.operator in {Some(Xor), Some(Loop)}
  }

  /** An XOR moved out of FUTURE/CLOSED, or one of a LOOP's children did. */
  predicate ChoiceCommitted(tree: PTree, before: TreeState, after: TreeState, c: NodeId)
    requires before.Keys <= after.Keys
  {
    match NodeAt(tree, c)
    case None => false
    case Some(node) =>
      (node.operator == Some(Xor) && Moved(before, after, c)) ||
      (node.operator == Some(Loop) &&
       exists i :: 0 <= i < |node.children| && Moved(before, after, ChildId(c, i)))
  }

  /**
   * The enabling path opened some leaf, or some choice point of the old
   * snapshot committed differently: then a log move is offered as well.
   */
  predicate LogMoveForced(tree: PTree, before: TreeState, after: TreeState, enablePath: Path)
    requires before.Keys <= after.Keys
  {
    |LeavesOfPath(tree, enablePath, true)| > 0 ||
    exists c :: c in before && ChoiceCommitted(tree, before, after, c)
  }

  /** The search over the choice points of the old snapshot. */
  method NeedLogMove(tree: PTree, before: TreeState, after: TreeState, path: Path) returns (b: bool)
    requires before.Keys <= after.Keys
    ensures b == LogMoveForced(tree, before, after, path)
  {
    if |LeavesOfPath(tree, path, true)| > 0 {
      return true;
    }
    var choices := set c | c in before.Keys && IsChoice(tree, c);
    while choices != {}
      invariant choices <= before.Keys
      invariant forall c :: c in before.Keys && c !in choices ==> !ChoiceCommitted(tree, before, after, c)
      decreases choices
    {
      var c :| c in choices;
      var node := NodeAt(tree, c).value;
      if node.operator == Some(Xor) {
        if Moved(before, after, c) {
          return true;
        }
      } else {
        var i := 0;
        while i < |node.children|
          invariant 0 <= i <= |node.children|
          invariant forall j :: 0 <= j < i ==> !Moved(before, after, ChildId(c, j))
        {
          if Moved(before, after, ChildId(c, i)) {
            return true;
          }
          i := i + 1;
        }
      }
      choices := choices - {c};
    }
    return false;
  }

  // ---------------------------------------------------------------------
  // The successor rule
  // ---------------------------------------------------------------------

  /** The node is a leaf labelled `symbol`. */
  predicate HasLabel(tree: PTree, l: NodeId, symbol: Label)
  {
    NodeAt(tree, l).Some? && NodeAt(tree, l).value.activity == Some(symbol)
  }

  /** The leaves of the leaf set that carry the trace symbol, in leaf-set order. */
  function Candidates(tree: PTree, leafSet: seq<NodeId>, symbol: Label): (r: seq<NodeId>)
    ensures IsSubsequence(r, leafSet)
    ensures forall l :: l in r <==> l in leafSet && HasLabel(tree, l, symbol)
    ensures r == [] <==> forall l :: l in leafSet ==> !HasLabel(tree, l, symbol)
  {
    if leafSet == [] then []
    else if HasLabel(tree, leafSet[0], symbol) then
      assert leafSet[0] == ([leafSet[0]] + Candidates(tree, leafSet[1..], symbol))[0];
      [leafSet[0]] + Candidates(tree, leafSet[1..], symbol)
    else
      Candidates(tree, leafSet[1..], symbol)
  }

  /**
   * The synchronous move on `leaf` from state `s` (arena index `p`): enable
   * the leaf, then close it.  It costs the labelled leaves opened by the
   * enabling path; it records every leaf opened on the enabling and the
   * closing path.
   */
  function SyncSuccessor(tree: PTree, oracle: Oracle, s: SearchState, p: nat, leaf: NodeId): Option<SearchState>
  {
    match oracle.enable(tree, leaf, s.state)
    case None => None
    case Some(en) =>
      var cl := oracle.close(tree, leaf, en.state);
      Some(SearchState(s.costs + |LeavesOfPath(tree, en.path, false)|, s.index + 1, cl.state,
                       LeavesOfPath(tree, en.path + cl.path, true), Some(p), {}))
  }

  /** The synchronous successors of the candidates whose leaf can be enabled, in candidate order. */
  function SyncSuccessors(tree: PTree, oracle: Oracle, s: SearchState, p: nat, cands: seq<NodeId>): (r: seq<SearchState>)
    ensures |r| <= |cands|
    ensures forall c :: c in r ==>
      c.index == s.index + 1 && c.parent == Some(p) && c.children == {} && c.costs >= s.costs
    decreases |cands|
  {
    if cands == [] then []
    else
      SyncSuccessors(tree, oracle, s, p, cands[..|cands| - 1]) +
      match SyncSuccessor(tree, oracle, s, p, cands[|cands| - 1])
      case None => []
      case Some(c) => [c]
  }

  /** One more candidate adds its synchronous successor, if it has one, at the end. */
  lemma SyncSuccessorsSnoc(tree: PTree, oracle: Oracle, s: SearchState, p: nat, seen: seq<NodeId>, leaf: NodeId)
    ensures SyncSuccessors(tree, oracle, s, p, seen + [leaf]) ==
            SyncSuccessors(tree, oracle, s, p, seen) +
            match SyncSuccessor(tree, oracle, s, p, leaf)
            case None => []
            case Some(c) => [c]
  {
    assert (seen + [leaf])[..|seen|] == seen;
  }

  /** A candidate whose leaf cannot be enabled adds no synchronous successor. */
  lemma SyncSuccessorsSkip(tree: PTree, oracle: Oracle, s: SearchState, p: nat, seen: seq<NodeId>, leaf: NodeId)
    requires oracle.enable(tree, leaf, s.state).None?
    ensures SyncSuccessors(tree, oracle, s, p, seen + [leaf]) == SyncSuccessors(tree, oracle, s, p, seen)
  {
    SyncSuccessorsSnoc(tree, oracle, s, p, seen, leaf);
  }

  /** Every synchronous successor comes from one of the candidates. */
  lemma {:induction false} SyncSuccessorsFrom(tree: PTree, oracle: Oracle, s: SearchState, p: nat, cands: seq<NodeId>, c: SearchState)
    requires c in SyncSuccessors(tree, oracle, s, p, cands)
    ensures exists j :: 0 <= j < |cands| && SyncSuccessor(tree, oracle, s, p, cands[j]) == Some(c)
    decreases |cands|
  {
    var init := cands[..|cands| - 1];
    if c in SyncSuccessors(tree, oracle, s, p, init) {
      SyncSuccessorsFrom(tree, oracle, s, p, init, c);
      var j :| 0 <= j < |init| && SyncSuccessor(tree, oracle, s, p, init[j]) == Some(c);
      assert cands[j] == init[j];
    } else {
      assert SyncSuccessor(tree, oracle, s, p, cands[|cands| - 1]) == Some(c);
    }
  }

  /** This candidate forces a log move: it cannot be enabled, or its enabling commits the model. */
  predicate ForcesLogMove(tree: PTree, oracle: Oracle, s: SearchState, leaf: NodeId)
    requires KeepsKeys(oracle)
  {
    match oracle.enable(tree, leaf, s.state)
    case None => true
    case Some(en) => LogMoveForced(tree, s.state, en.state, en.path)
  }

  /** Looking at one more candidate: the log move becomes needed when that candidate forces one. */
  lemma LogMoveNeededSnoc(tree: PTree, oracle: Oracle, s: SearchState, none: bool, seen: seq<NodeId>, leaf: NodeId,
                          before: bool, after: bool)
    requires KeepsKeys(oracle)
    requires before <==> none || exists l :: l in seen && ForcesLogMove(tree, oracle, s, l)
    requires after <==> before || ForcesLogMove(tree, oracle, s, leaf)
    ensures after <==> none || exists l :: l in seen + [leaf] && ForcesLogMove(tree, oracle, s, l)
  {
    if after && !none && !before {
      assert leaf in seen + [leaf];
    }
  }

  /** A log move is offered when there is no candidate or some candidate forces one. */
  predicate LogMoveNeeded(tree: PTree, oracle: Oracle, s: SearchState, cands: seq<NodeId>)
    requires KeepsKeys(oracle)
  {
    |cands| == 0 || exists j :: 0 <= j < |cands| && ForcesLogMove(tree, oracle, s, cands[j])
  }

  /** The log move: the trace event is skipped at cost 1 and the model does not move. */
  function LogMoveSuccessor(s: SearchState, p: nat): SearchState
  {
    SearchState(s.costs + 1, s.index + 1, s.state, [], Some(p), {})
  }

  /** Every state offered for insertion when `s` (arena index `p`) is expanded, in offering order. */
  function Successors(tree: PTree, leafSet: seq<NodeId>, variant: seq<Label>, oracle: Oracle,
                      s: SearchState, p: nat): seq<SearchState>
    requires KeepsKeys(oracle)
    requires s.index < |variant|
  {
    var cands := Candidates(tree, leafSet, variant[s.index]);
    SyncSuccessors(tree, oracle, s, p, cands) +
    (if LogMoveNeeded(tree, oracle, s, cands) then [LogMoveSuccessor(s, p)] else [])
  }

  /** Once every candidate has been looked at, the successors are those collected plus the log move if needed. */
  lemma SuccessorsCollected(tree: PTree, leafSet: seq<NodeId>, variant: seq<Label>, oracle: Oracle,
                            s: SearchState, p: nat, cands: seq<NodeId>, seen: seq<NodeId>, rest: seq<NodeId>,
                            needLog: bool)
    requires KeepsKeys(oracle) && s.index < |variant| && cands == Candidates(tree, leafSet, variant[s.index])
    requires seen + rest == cands && rest == []
    requires needLog <==> |cands| == 0 || exists l :: l in seen && ForcesLogMove(tree, oracle, s, l)
    ensures Successors(tree, leafSet, variant, oracle, s, p) ==
            SyncSuccessors(tree, oracle, s, p, seen) + (if needLog then [LogMoveSuccessor(s, p)] else [])
  {
    assert seen == cands;
    if needLog && |cands| > 0 {
      var l :| l in seen && ForcesLogMove(tree, oracle, s, l);
      var j :| 0 <= j < |cands| && cands[j] == l;
    }
  }

  /** Every successor explains exactly one more trace event, is a fresh child of `p`, and costs no less. */
  lemma SuccessorsAdvanceOneEvent(tree: PTree, leafSet: seq<NodeId>, variant: seq<Label>, oracle: Oracle,
                                  s: SearchState, p: nat, c: SearchState)
    requires KeepsKeys(oracle)
    requires s.index < |variant|
    requires c in Successors(tree, leafSet, variant, oracle, s, p)
    ensures c.index == s.index + 1 && c.parent == Some(p) && c.children == {} && c.costs >= s.costs
  {
  }

  /**
   * A synchronous successor costs the labelled leaves of the enabling path
   * only, and records the leaves of the enabling path followed by those of
   * the closing path.
   */
  lemma SyncSuccessorCost(tree: PTree, oracle: Oracle, s: SearchState, p: nat, leaf: NodeId)
    requires oracle.enable(tree, leaf, s.state).Some?
    ensures var en := oracle.enable(tree, leaf, s.state).value;
            var cl := oracle.close(tree, leaf, en.state);
            var c := SyncSuccessor(tree, oracle, s, p, leaf).value;
            c.costs == s.costs + |LeavesOfPath(tree, en.path, false)| &&
            c.leaves == LeavesOfPath(tree, en.path, true) + LeavesOfPath(tree, cl.path, true) &&
            c.state == cl.state
  {
    var en := oracle.enable(tree, leaf, s.state).value;
    var cl := oracle.close(tree, leaf, en.state);
    LeavesOfPathAppend(tree, en.path, cl.path, true);
  }

  /** Without a candidate leaf the only successor is the log move. */
  lemma NoCandidateOnlyLogMove(tree: PTree, leafSet: seq<NodeId>, variant: seq<Label>, oracle: Oracle,
                               s: SearchState, p: nat)
    requires KeepsKeys(oracle)
    requires s.index < |variant|
    requires forall l :: l in leafSet ==> !HasLabel(tree, l, variant[s.index])
    ensures Successors(tree, leafSet, variant, oracle, s, p) == [LogMoveSuccessor(s, p)]
  {
    var cands := Candidates(tree, leafSet, variant[s.index]);
    assert cands == [];
  }

  /** A candidate that cannot be enabled makes the log move one of the successors. */
  lemma BlockedCandidateOffersLogMove(tree: PTree, leafSet: seq<NodeId>, variant: seq<Label>, oracle: Oracle,
                                      s: SearchState, p: nat, leaf: NodeId)
    requires KeepsKeys(oracle)
    requires s.index < |variant|
    requires leaf in leafSet && HasLabel(tree, leaf, variant[s.index])
    requires oracle.enable(tree, leaf, s.state).None?
    ensures LogMoveSuccessor(s, p) in Successors(tree, leafSet, variant, oracle, s, p)
  {
    var cands := Candidates(tree, leafSet, variant[s.index]);
    assert leaf in cands;
    var j :| 0 <= j < |cands| && cands[j] == leaf;
    assert ForcesLogMove(tree, oracle, s, cands[j]);
  }

  /** When every candidate can be enabled, each yields one synchronous successor. */
  lemma {:induction false} AllEnabledSyncCount(tree: PTree, oracle: Oracle, s: SearchState, p: nat, cands: seq<NodeId>)
    requires forall j :: 0 <= j < |cands| ==> oracle.enable(tree, cands[j], s.state).Some?
    ensures |SyncSuccessors(tree, oracle, s, p, cands)| == |cands|
    decreases |cands|
  {
    if cands != [] {
      var init := cands[..|cands| - 1];
      forall j | 0 <= j < |init| ensures oracle.enable(tree, init[j], s.state).Some? {
        assert init[j] == cands[j];
      }
      AllEnabledSyncCount(tree, oracle, s, p, init);
    }
  }

  /** Expansion never dead-ends: some successor is always offered. */
  lemma SuccessorsNonEmpty(tree: PTree, leafSet: seq<NodeId>, variant: seq<Label>, oracle: Oracle,
                           s: SearchState, p: nat)
    requires KeepsKeys(oracle)
    requires s.index < |variant|
    ensures |Successors(tree, leafSet, variant, oracle, s, p)| > 0
  {
    var cands := Candidates(tree, leafSet, variant[s.index]);
    if !LogMoveNeeded(tree, oracle, s, cands) {
      forall j | 0 <= j < |cands| ensures oracle.enable(tree, cands[j], s.state).Some? {
        assert !ForcesLogMove(tree, oracle, s, cands[j]);
      }
      AllEnabledSyncCount(tree, oracle, s, p, cands);
    }
  }
}
