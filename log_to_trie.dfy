/**
 * Prefix tree ("trie") of the activity variants of a log.  Each node holds
 * an activity label, its parent, its ordered children, a `final` flag and
 * its depth.  The nodes live in an arena: node 0 is the unlabelled root and
 * a node refers to its parent and children by arena index.
 */
module LogToTrie {
  import opened Wrappers
  import opened ProcessTrees

  datatype TrieNode = TrieNode(activity: Option<Label>, parent: Option<nat>, children: seq<nat>, final: bool, depth: nat)

  /** A fresh trie node: no label, no parent, no children, not final, depth 0. */
  function RootNode(): TrieNode { TrieNode(None, None, [], false, 0) }

  /** The first child among `cs` that is a node of the arena labelled `a`. */
  function ChildWith(nodes: seq<TrieNode>, cs: seq<nat>, a: Label): (r: Option<nat>)
    ensures r.Some? ==> r.value in cs && r.value < |nodes| && nodes[r.value].activity == Some(a)
    ensures r.None? ==> forall c :: c in cs && c < |nodes| ==> nodes[c].activity != Some(a)
  {
    if cs == [] then None
    else if cs[0] < |nodes| && nodes[cs[0]].activity == Some(a) then Some(cs[0])
    else ChildWith(nodes, cs[1..], a)
  }

  /** The node reached from `cur` by following the labels of `w`, if every step has a matching child. */
  function Walk(nodes: seq<TrieNode>, cur: nat, w: seq<Label>): (r: Option<nat>)
    decreases |w|
  {
    if w == [] then Some(cur)
    else match ChildWith(nodes, if cur < |nodes| then nodes[cur].children else [], w[0])
      case None => None
      case Some(c) => Walk(nodes, c, w[1..])
  }

  /** How many leading activities of `w` already have a path from `cur`. */
  function Matched(nodes: seq<TrieNode>, cur: nat, w: seq<Label>): (m: nat)
    ensures m <= |w|
    decreases |w|
  {
    if w == [] then 0
    else match ChildWith(nodes, if cur < |nodes| then nodes[cur].children else [], w[0])
      case None => 0
      case Some(c) => 1 + Matched(nodes, c, w[1..])
  }

  /** Appends a new child labelled `a` below `cur`, at depth one more than `cur`. */
  function Extend(nodes: seq<TrieNode>, cur: nat, a: Label, isLast: bool): seq<TrieNode>
    requires cur < |nodes|
  {
    nodes[cur := nodes[cur].(children := nodes[cur].children + [|nodes|])] +
    [TrieNode(Some(a), Some(cur), [], isLast, nodes[cur].depth + 1)]
  }

  /**
   * Reference definition of the insertion of `w` below `cur`: follow an
   * existing child with the activity's label, otherwise create one; the node
   * created for the last activity is final.
   */
  function InsertFrom(nodes: seq<TrieNode>, cur: nat, w: seq<Label>): (r: seq<TrieNode>)
    requires cur < |nodes|
    ensures |r| >= |nodes|
    decreases |w|
  {
    if w == [] then nodes
    else match ChildWith(nodes, nodes[cur].children, w[0])
      case Some(c) => InsertFrom(nodes, c, w[1..])
      case None => InsertFrom(Extend(nodes, cur, w[0], |w| == 1), |nodes|, w[1..])
  }

  /** The trie after inserting every variant in order, starting from a lone root. */
  function Build(variants: seq<seq<Label>>): (r: seq<TrieNode>)
    ensures |r| > 0
    decreases |variants|
  {
    if variants == [] then [RootNode()]
    else InsertFrom(Build(variants[..|variants| - 1]), 0, variants[|variants| - 1])
  }

  /** Every node but the root has a label and an earlier parent whose child list holds it. */
  ghost predicate ParentsOk(nodes: seq<TrieNode>)
  {
    forall k: nat :: 0 < k < |nodes| ==>
      nodes[k].activity.Some? && nodes[k].parent.Some? && nodes[k].parent.value < k &&
      k in nodes[nodes[k].parent.value].children
  }

  /** Every child is a later node that points back to its parent, one level deeper. */
  ghost predicate ChildrenOk(nodes: seq<TrieNode>)
  {
    forall k: nat, j: nat :: k < |nodes| && j < |nodes[k].children| ==>
      k < nodes[k].children[j] < |nodes| && nodes[nodes[k].children[j]].parent == Some(k) &&
      nodes[nodes[k].children[j]].depth == nodes[k].depth + 1
  }

  lemma ChildLink(nodes: seq<TrieNode>, k: nat, c: nat)
    requires ChildrenOk(nodes) && k < |nodes| && c in nodes[k].children
    ensures k < c < |nodes| && nodes[c].parent == Some(k) && nodes[c].depth == nodes[k].depth + 1
  {
    var j :| 0 <= j < |nodes[k].children| && nodes[k].children[j] == c;
  }

  /** No two children of a node share a label. */
  ghost predicate LabelsDistinct(nodes: seq<TrieNode>)
  {
    forall k: nat, i: nat, j: nat ::
      (k < |nodes| && i < |nodes[k].children| && j < |nodes[k].children| &&
       nodes[k].children[i] < |nodes| && nodes[k].children[j] < |nodes| &&
       nodes[nodes[k].children[i]].activity == nodes[nodes[k].children[j]].activity) ==>
      nodes[k].children[i] == nodes[k].children[j]
  }

  /**
   * The shape of a trie: node 0 is the root at depth 0; every other node has
   * a label and an earlier parent that lists it; every child points back to
   * its parent one level deeper; no two children of a node share a label.
   */
  ghost predicate TrieOk(nodes: seq<TrieNode>)
  {
    |nodes| > 0 && nodes[0].parent.None? && nodes[0].depth == 0 &&
    ParentsOk(nodes) && ChildrenOk(nodes) && LabelsDistinct(nodes)
  }

  /** Every node of `x` keeps its activity in `r`. */
  ghost predicate SameActivities(x: seq<TrieNode>, r: seq<TrieNode>)
  {
    |x| <= |r| && forall k :: 0 <= k < |x| ==> r[k].activity == x[k].activity
  }

  /** `r` keeps every node of `nodes`: label, parent, depth and final flag unchanged, children only appended to. */
  ghost predicate Keeps(nodes: seq<TrieNode>, r: seq<TrieNode>)
  {
    SameActivities(nodes, r) &&
    forall k :: 0 <= k < |nodes| ==>
      r[k].parent == nodes[k].parent && r[k].depth == nodes[k].depth &&
      r[k].final == nodes[k].final && nodes[k].children <= r[k].children
  }

  lemma KeepsTrans(a: seq<TrieNode>, b: seq<TrieNode>, c: seq<TrieNode>)
    requires Keeps(a, b) && Keeps(b, c)
    ensures Keeps(a, c)
  {
    forall k | 0 <= k < |a|
      ensures a[k].children <= c[k].children
    {
      assert a[k].children <= b[k].children <= c[k].children;
    }
  }

  lemma ExtendKeeps(nodes: seq<TrieNode>, cur: nat, a: Label, isLast: bool)
    requires cur < |nodes|
    ensures Keeps(nodes, Extend(nodes, cur, a, isLast))
  {
  }

  /** What `Extend` changes: the parent's child list grows by the new node, which comes last. */
  lemma ExtendShape(nodes: seq<TrieNode>, cur: nat, a: Label, isLast: bool)
    requires cur < |nodes|
    ensures var r := Extend(nodes, cur, a, isLast);
            |r| == |nodes| + 1 &&
            (forall k :: 0 <= k < |nodes| && k != cur ==> r[k] == nodes[k]) &&
            r[cur] == nodes[cur].(children := nodes[cur].children + [|nodes|]) &&
            r[|nodes|] == TrieNode(Some(a), Some(cur), [], isLast, nodes[cur].depth + 1)
  {
  }

  lemma ExtendParentsOk(nodes: seq<TrieNode>, cur: nat, a: Label, isLast: bool)
    requires cur < |nodes| && ParentsOk(nodes)
    ensures ParentsOk(Extend(nodes, cur, a, isLast))
  {
    var r := Extend(nodes, cur, a, isLast);
    ExtendShape(nodes, cur, a, isLast);
    forall k: nat | 0 < k < |r|
      ensures r[k].activity.Some? && r[k].parent.Some? && r[k].parent.value < k && k in r[r[k].parent.value].children
    {
      if k < |nodes| {
        var p := nodes[k].parent.value;
        assert k in nodes[p].children;
        assert nodes[p].children <= r[p].children;
      }
    }
  }

  lemma ExtendChildrenOk(nodes: seq<TrieNode>, cur: nat, a: Label, isLast: bool)
    requires cur < |nodes| && ChildrenOk(nodes)
    ensures ChildrenOk(Extend(nodes, cur, a, isLast))
  {
    var r := Extend(nodes, cur, a, isLast);
    var n := |nodes|;
    ExtendShape(nodes, cur, a, isLast);
    forall k: nat, j: nat | k < |r| && j < |r[k].children|
      ensures k < r[k].children[j] < |r| && r[r[k].children[j]].parent == Some(k) &&
              r[r[k].children[j]].depth == r[k].depth + 1
    {
      var c := r[k].children[j];
      if k == cur && j == |nodes[cur].children| {
        assert c == n;
      } else {
        assert k < n && j < |nodes[k].children| && c == nodes[k].children[j];
      }
    }
  }

  lemma ExtendLabelsDistinct(nodes: seq<TrieNode>, cur: nat, a: Label, isLast: bool)
    requires cur < |nodes| && ChildrenOk(nodes) && LabelsDistinct(nodes)
    requires ChildWith(nodes, nodes[cur].children, a).None?
    ensures LabelsDistinct(Extend(nodes, cur, a, isLast))
  {
    var r := Extend(nodes, cur, a, isLast);
    var n := |nodes|;
    ExtendShape(nodes, cur, a, isLast);
    forall k: nat, i: nat, j: nat | k < |r| && i < |r[k].children| && j < |r[k].children| &&
                                    r[k].children[i] < |r| && r[k].children[j] < |r| &&
                                    r[r[k].children[i]].activity == r[r[k].children[j]].activity
      ensures r[k].children[i] == r[k].children[j]
    {
      var m := |nodes[cur].children|;
      if k == cur && (i == m || j == m) {
        if i != m || j != m {
          // one of the two is the new child, labelled `a`, which no earlier child of `cur` carries
          assert false;
        }
      } else if k < n {
        assert i < |nodes[k].children| && j < |nodes[k].children|;
        assert r[k].children[i] == nodes[k].children[i] && r[k].children[j] == nodes[k].children[j];
        ChildLink(nodes, k, nodes[k].children[i]);
        ChildLink(nodes, k, nodes[k].children[j]);
      }
    }
  }

  /** Creating a child whose label no child of `cur` carries keeps the trie's shape. */
  lemma ExtendOk(nodes: seq<TrieNode>, cur: nat, a: Label, isLast: bool)
    requires TrieOk(nodes) && cur < |nodes| && ChildWith(nodes, nodes[cur].children, a).None?
    ensures TrieOk(Extend(nodes, cur, a, isLast))
  {
    ExtendShape(nodes, cur, a, isLast);
    ExtendParentsOk(nodes, cur, a, isLast);
    ExtendChildrenOk(nodes, cur, a, isLast);
    ExtendLabelsDistinct(nodes, cur, a, isLast);
  }

  /** A child found in a prefix of the children is still the first match once children are appended. */
  lemma {:induction false} ChildWithKept(x: seq<TrieNode>, r: seq<TrieNode>, cs: seq<nat>, cs': seq<nat>, a: Label)
    requires SameActivities(x, r) && cs <= cs' && (forall e :: e in cs ==> e < |x|)
    requires ChildWith(x, cs, a).Some?
    ensures ChildWith(r, cs', a) == ChildWith(x, cs, a)
    decreases |cs|
  {
    assert cs != [] && cs' != [] && cs'[0] == cs[0];
    var e := cs[0];
    assert e in cs && e < |x| <= |r|;
    assert r[e].activity == x[e].activity;
    if x[e].activity != Some(a) {
      assert cs[1..] <= cs'[1..];
      assert forall y :: y in cs[1..] ==> y in cs;
      assert ChildWith(x, cs, a) == ChildWith(x, cs[1..], a);
      assert ChildWith(r, cs', a) == ChildWith(r, cs'[1..], a);
      ChildWithKept(x, r, cs[1..], cs'[1..], a);
    }
  }

  /** After a miss over `cs`, a child appended right after `cs` with the label is the first match. */
  lemma {:induction false} ChildWithAfterMiss(x: seq<TrieNode>, r: seq<TrieNode>, cs: seq<nat>, n: nat, cs': seq<nat>, a: Label)
    requires SameActivities(x, r) && cs + [n] <= cs' && (forall e :: e in cs ==> e < |x|)
    requires ChildWith(x, cs, a).None? && n < |r| && r[n].activity == Some(a)
    ensures ChildWith(r, cs', a) == Some(n)
    decreases |cs|
  {
    if cs != [] {
      var e := cs[0];
      assert e in cs && cs'[0] == e && e < |x| <= |r|;
      assert x[e].activity != Some(a);
      assert r[e].activity == x[e].activity;
      assert cs[1..] + [n] <= cs'[1..];
      assert forall y :: y in cs[1..] ==> y in cs;
      assert ChildWith(x, cs, a) == ChildWith(x, cs[1..], a);
      assert ChildWith(r, cs', a) == ChildWith(r, cs'[1..], a);
      ChildWithAfterMiss(x, r, cs[1..], n, cs'[1..], a);
    } else {
      assert cs'[0] == n;
    }
  }

  /** Insertion keeps every existing node, apart from appending to child lists. */
  lemma {:induction false} InsertKeeps(nodes: seq<TrieNode>, cur: nat, w: seq<Label>)
    requires cur < |nodes|
    ensures Keeps(nodes, InsertFrom(nodes, cur, w))
    decreases |w|
  {
    if w != [] {
      match ChildWith(nodes, nodes[cur].children, w[0])
      case Some(c) =>
        InsertKeeps(nodes, c, w[1..]);
      case None =>
        var e := Extend(nodes, cur, w[0], |w| == 1);
        ExtendKeeps(nodes, cur, w[0], |w| == 1);
        InsertKeeps(e, |nodes|, w[1..]);
        KeepsTrans(nodes, e, InsertFrom(e, |nodes|, w[1..]));
    }
  }

  /** Insertion keeps the shape of the trie. */
  lemma {:induction false} InsertOk(nodes: seq<TrieNode>, cur: nat, w: seq<Label>)
    requires TrieOk(nodes) && cur < |nodes|
    ensures TrieOk(InsertFrom(nodes, cur, w))
    decreases |w|
  {
    if w != [] {
      match ChildWith(nodes, nodes[cur].children, w[0])
      case Some(c) =>
        InsertOk(nodes, c, w[1..]);
      case None =>
        ExtendOk(nodes, cur, w[0], |w| == 1);
        InsertOk(Extend(nodes, cur, w[0], |w| == 1), |nodes|, w[1..]);
    }
  }

  /** Following `w` from `cur` in `r` succeeds and, for a non-empty `w`, ends on a node labelled with its last activity. */
  ghost predicate Spelled(r: seq<TrieNode>, cur: nat, w: seq<Label>)
  {
    Walk(r, cur, w).Some? &&
    (w != [] ==> Walk(r, cur, w).value < |r| && r[Walk(r, cur, w).value].activity == Some(w[|w| - 1]))
  }

  lemma WalkStep(r: seq<TrieNode>, cur: nat, w: seq<Label>, c: nat)
    requires w != [] && cur < |r| && ChildWith(r, r[cur].children, w[0]) == Some(c)
    ensures Walk(r, cur, w) == Walk(r, c, w[1..])
  {
  }

  lemma ChildrenInArena(nodes: seq<TrieNode>, cur: nat)
    requires ChildrenOk(nodes) && cur < |nodes|
    ensures forall e :: e in nodes[cur].children ==> e < |nodes|
  {
    forall e | e in nodes[cur].children
      ensures e < |nodes|
    {
      ChildLink(nodes, cur, e);
    }
  }

  /** One step of `InsertSpells` through an existing child `c`. */
  lemma SpelledThroughChild(nodes: seq<TrieNode>, r: seq<TrieNode>, cur: nat, w: seq<Label>, c: nat)
    requires ChildrenOk(nodes) && cur < |nodes| && w != [] && Keeps(nodes, r)
    requires ChildWith(nodes, nodes[cur].children, w[0]) == Some(c)
    requires Spelled(r, c, w[1..])
    ensures Spelled(r, cur, w)
  {
    ChildrenInArena(nodes, cur);
    ChildWithKept(nodes, r, nodes[cur].children, r[cur].children, w[0]);
    WalkStep(r, cur, w, c);
    var rest := w[1..];
    if |w| > 1 {
      assert rest[|rest| - 1] == w[|w| - 1];
    } else {
      assert rest == [];
      assert c < |nodes| && r[c].activity == nodes[c].activity;
    }
  }

  /** What survives of `Extend` in any later arena that keeps its nodes: the new child, listed after the old ones. */
  lemma NewChildListed(nodes: seq<TrieNode>, e: seq<TrieNode>, r: seq<TrieNode>, cur: nat, a: Label, isLast: bool)
    requires cur < |nodes| && e == Extend(nodes, cur, a, isLast) && Keeps(e, r)
    ensures SameActivities(nodes, r) && nodes[cur].children + [|nodes|] <= r[cur].children
    ensures |nodes| < |r| && r[|nodes|].activity == Some(a)
  {
    ExtendShape(nodes, cur, a, isLast);
    ExtendKeeps(nodes, cur, a, isLast);
    KeepsTrans(nodes, e, r);
    assert e[cur].children == nodes[cur].children + [|nodes|];
  }

  /** One step of `InsertSpells` through the child `n` just created. */
  lemma SpelledThroughNew(nodes: seq<TrieNode>, r: seq<TrieNode>, cur: nat, w: seq<Label>)
    requires ChildrenOk(nodes) && cur < |nodes| && w != []
    requires ChildWith(nodes, nodes[cur].children, w[0]).None?
    requires SameActivities(nodes, r) && nodes[cur].children + [|nodes|] <= r[cur].children
    requires |nodes| < |r| && r[|nodes|].activity == Some(w[0])
    requires Spelled(r, |nodes|, w[1..])
    ensures Spelled(r, cur, w)
  {
    var n := |nodes|;
    ChildrenInArena(nodes, cur);
    ChildWithAfterMiss(nodes, r, nodes[cur].children, n, r[cur].children, w[0]);
    WalkStep(r, cur, w, n);
    var rest := w[1..];
    if |w| > 1 {
      assert rest[|rest| - 1] == w[|w| - 1];
    } else {
      assert rest == [];
    }
  }

  /** After insertion, following `w` from `cur` succeeds, and for a non-empty `w` ends on a node labelled with its last activity. */
  lemma {:induction false} InsertSpells(nodes: seq<TrieNode>, cur: nat, w: seq<Label>)
    requires TrieOk(nodes) && cur < |nodes|
    ensures Spelled(InsertFrom(nodes, cur, w), cur, w)
    decreases |w|
  {
    if w != [] {
      var r := InsertFrom(nodes, cur, w);
      var rest := w[1..];
      match ChildWith(nodes, nodes[cur].children, w[0])
      case Some(c) =>
        InsertSpells(nodes, c, rest);
        InsertKeeps(nodes, c, rest);
        SpelledThroughChild(nodes, r, cur, w, c);
      case None =>
        var e := Extend(nodes, cur, w[0], |w| == 1);
        ExtendOk(nodes, cur, w[0], |w| == 1);
        InsertSpells(e, |nodes|, rest);
        InsertKeeps(e, |nodes|, rest);
        NewChildListed(nodes, e, r, cur, w[0], |w| == 1);
        SpelledThroughNew(nodes, r, cur, w);
    }
  }

  /** From a node without children, every activity creates a node. */
  lemma {:induction false} InsertFromLeafCount(nodes: seq<TrieNode>, cur: nat, w: seq<Label>)
    requires cur < |nodes| && nodes[cur].children == []
    ensures |InsertFrom(nodes, cur, w)| == |nodes| + |w|
    decreases |w|
  {
    if w != [] {
      InsertFromLeafCount(Extend(nodes, cur, w[0], |w| == 1), |nodes|, w[1..]);
    }
  }

  /** Insertion creates exactly one node per activity after the longest prefix already present. */
  lemma {:induction false} InsertCount(nodes: seq<TrieNode>, cur: nat, w: seq<Label>)
    requires cur < |nodes|
    ensures |InsertFrom(nodes, cur, w)| == |nodes| + |w| - Matched(nodes, cur, w)
    decreases |w|
  {
    if w != [] {
      match ChildWith(nodes, nodes[cur].children, w[0])
      case Some(c) =>
        InsertCount(nodes, c, w[1..]);
      case None =>
        InsertFromLeafCount(Extend(nodes, cur, w[0], |w| == 1), |nodes|, w[1..]);
    }
  }

  /** Of the nodes created, only the last one, created for the last activity, is final. */
  lemma {:induction false} InsertFinal(nodes: seq<TrieNode>, cur: nat, w: seq<Label>)
    requires cur < |nodes|
    ensures var r := InsertFrom(nodes, cur, w);
            forall k :: |nodes| <= k < |r| ==> (r[k].final <==> k == |r| - 1)
    decreases |w|
  {
    if w != [] {
      match ChildWith(nodes, nodes[cur].children, w[0])
      case Some(c) =>
        assert InsertFrom(nodes, cur, w) == InsertFrom(nodes, c, w[1..]);
        InsertFinal(nodes, c, w[1..]);
      case None =>
        var e := Extend(nodes, cur, w[0], |w| == 1);
        var n := |nodes|;
        var r := InsertFrom(e, n, w[1..]);
        ExtendShape(nodes, cur, w[0], |w| == 1);
        InsertFinal(e, n, w[1..]);
        InsertKeeps(e, n, w[1..]);
        InsertFromLeafCount(e, n, w[1..]);
        assert n < |e| && r[n].final == e[n].final;
        assert e[n].final == (|w| == 1);
        assert |r| == n + |w|;
    }
  }

  /** A variant whose whole path already exists leaves the trie as it was: its end node is not marked final. */
  lemma {:induction false} InsertPresent(nodes: seq<TrieNode>, cur: nat, w: seq<Label>)
    requires cur < |nodes| && Walk(nodes, cur, w).Some?
    ensures InsertFrom(nodes, cur, w) == nodes
    decreases |w|
  {
    if w != [] {
      var c := ChildWith(nodes, nodes[cur].children, w[0]).value;
      InsertPresent(nodes, c, w[1..]);
    }
  }

  /** Paths present before an insertion still lead to the same nodes afterwards. */
  lemma {:induction false} WalkKept(x: seq<TrieNode>, r: seq<TrieNode>, cur: nat, w: seq<Label>)
    requires TrieOk(x) && Keeps(x, r) && cur < |x| && Walk(x, cur, w).Some?
    ensures Walk(r, cur, w) == Walk(x, cur, w)
    decreases |w|
  {
    if w != [] {
      forall e | e in x[cur].children
        ensures e < |x|
      {
        assert 0 <= cur < |x| && e in x[cur].children;
      }
      ChildWithKept(x, r, x[cur].children, r[cur].children, w[0]);
      var c := ChildWith(x, x[cur].children, w[0]).value;
      WalkKept(x, r, c, w[1..]);
    }
  }

  /** The built trie has the trie shape and spells every variant from its root. */
  lemma {:induction false} BuildSpells(variants: seq<seq<Label>>)
    ensures TrieOk(Build(variants))
    ensures forall i :: 0 <= i < |variants| ==> Walk(Build(variants), 0, variants[i]).Some?
    decreases |variants|
  {
    if variants != [] {
      var pre := variants[..|variants| - 1];
      var v := variants[|variants| - 1];
      var t := Build(pre);
      var r := Build(variants);
      BuildSpells(pre);
      InsertOk(t, 0, v);
      InsertSpells(t, 0, v);
      InsertKeeps(t, 0, v);
      forall i | 0 <= i < |variants|
        ensures Walk(r, 0, variants[i]).Some?
      {
        if i < |variants| - 1 {
          assert variants[i] == pre[i];
          WalkKept(t, r, 0, variants[i]);
        }
      }
    }
  }

  /** The trie under construction: the node arena, node 0 being the root. */
  class Trie {
    var nodes: seq<TrieNode>

    constructor ()
      ensures nodes == [RootNode()]
    {
      nodes := [RootNode()];
    }

    /** The children of `cur` are scanned in order for the first one labelled `activity`. */
    method FindChild(cur: nat, activity: Label) returns (r: Option<nat>)
      requires cur < |nodes|
      ensures r == ChildWith(nodes, nodes[cur].children, activity)
    {
      var cs := nodes[cur].children;
      var j := 0;
      while j < |cs|
        invariant j <= |cs|
        invariant ChildWith(nodes, cs[j..], activity) == ChildWith(nodes, cs, activity)
      {
        assert cs[j..][1..] == cs[j + 1..];
        var c := cs[j];
        if c < |nodes| && nodes[c].activity == Some(activity) {
          return Some(c);
        }
        j := j + 1;
      }
      return None;
    }

    /**
     * Inserts one variant: moves a cursor down from the root, reusing a child
     * with the activity's label and otherwise appending a new child one level
     * deeper, final when it is created for the last activity.
     */
    method Insert(variant: seq<Label>)
      requires |nodes| > 0
      modifies this
      ensures nodes == InsertFrom(old(nodes), 0, variant)
    {
      var cur: nat := 0;
      var i := 0;
      while i < |variant|
        invariant i <= |variant| && cur < |nodes|
        invariant InsertFrom(nodes, cur, variant[i..]) == InsertFrom(old(nodes), 0, variant)
      {
        assert variant[i..][1..] == variant[i + 1..];
        var activity := variant[i];
        var found := FindChild(cur, activity);
        if found.Some? {
          cur := found.value;
        } else {
          var node := TrieNode(Some(activity), Some(cur), [], i == |variant| - 1, nodes[cur].depth + 1);
          var n := |nodes|;
          nodes := nodes[cur := nodes[cur].(children := nodes[cur].children + [n])] + [node];
          cur := n;
        }
        i := i + 1;
      }
    }
  }

  /** Builds the trie of a list of variants, inserting them in order. */
  method Apply(variants: seq<seq<Label>>) returns (root: Trie)
    ensures fresh(root) && root.nodes == Build(variants)
  {
    root := new Trie();
    var i := 0;
    while i < |variants|
      invariant i <= |variants|
      invariant root.nodes == Build(variants[..i])
    {
      assert variants[..i + 1][..i] == variants[..i];
      root.Insert(variants[i]);
      i := i + 1;
    }
    assert variants[..i] == variants;
  }
}
