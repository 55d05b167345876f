/**
 * Process trees as immutable values: an operator node (SEQUENCE, XOR,
 * PARALLEL, LOOP, OR) with an ordered list of children, or a leaf carrying an
 * activity label (a silent "tau" leaf carries none; the field `activity` holds the label).  A node is identified by
 * its position: the list of child indices that leads to it from the root.
 */
module ProcessTrees {
  import opened Wrappers

  type Label = string

  datatype Operator = Sequence | Xor | Parallel | Loop | Or

  datatype PTree = PTree(operator: Option<Operator>, activity: Option<Label>, children: seq<PTree>)

  function Leaf(a: Label): PTree { PTree(None, Some(a), []) }

  function Tau(): PTree { PTree(None, None, []) }

  /** A leaf: no operator and no children. */
  predicate IsLeaf(t: PTree) { t.operator.None? && |t.children| == 0 }

  /** A silent leaf: a leaf without a label. */
  predicate IsTauLeaf(t: PTree) { IsLeaf(t) && t.activity.None? }

  /** Python truthiness of a node's label: present and non-empty. */
  predicate HasTruthyLabel(t: PTree) { t.activity.Some? && t.activity.value != "" }

  /** Position of a node: child indices from the root. */
  type NodeId = seq<nat>

  /** The node at position `p`, if there is one. */
  function NodeAt(t: PTree, p: NodeId): (r: Option<PTree>)
    ensures p == [] ==> r == Some(t)
    decreases |p|
  {
    if p == [] then Some(t)
    else if p[0] < |t.children| then NodeAt(t.children[p[0]], p[1..])
    else None
  }

  /** Number of nodes of a tree (the reference definition of count_nodes). */
  function Size(t: PTree): (n: nat)
    ensures n >= 1
    decreases t
  {
    1 + SizeOf(t.children)
  }

  function SizeOf(ts: seq<PTree>): nat
    decreases ts
  {
    if ts == [] then 0 else Size(ts[0]) + SizeOf(ts[1..])
  }

  lemma {:induction false} SizeOfAppend(ts: seq<PTree>, t: PTree)
    ensures SizeOf(ts + [t]) == SizeOf(ts) + Size(t)
  {
    if ts != [] {
      assert (ts + [t])[1..] == ts[1..] + [t];
      SizeOfAppend(ts[1..], t);
    }
  }

  /** Every node without an operator is a leaf (has no children). */
  predicate WellFormed(t: PTree)
    decreases t
  {
    (t.operator.None? ==> |t.children| == 0) &&
    forall i :: 0 <= i < |t.children| ==> WellFormed(t.children[i])
  }
}
