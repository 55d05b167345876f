/**
 * Simplicity metrics of the evolutionary tree miner.  An individual is a
 * process tree together with the list of activities of the log it was built
 * for.  Three scores are modelled: the size score, the occurrence score
 * (duplicated and missing activities) and the useless-node score.
 */
module Simplicity {
  import opened Wrappers
  import opened ProcessTrees

  // ---------------------------------------------------------------------------
  // Size score
  // ---------------------------------------------------------------------------

  lemma RatioBounds(x: real, d: real)
    requires 0.0 < x <= d
    ensures 0.0 < x / d <= 1.0
    ensures x / d == 1.0 <==> x == d
  {
  }

  /**
   * `(a + 1) / (a + n)` for `a` log activities and `n` tree nodes: in (0, 1],
   * and 1 exactly for a single-node tree.
   */
  function SimplicitySize(activities: seq<Label>, t: PTree): (s: real)
    ensures 0.0 < s <= 1.0
    ensures s == 1.0 <==> Size(t) == 1
  {
    var a := |activities|;
    RatioBounds((a + 1) as real, (a + Size(t)) as real);
    (a + 1) as real / (a + Size(t)) as real
  }

  // ---------------------------------------------------------------------------
  // Totals of dictionary values
  // ---------------------------------------------------------------------------

  /** The sum of the values of `m` at `keys`. */
  ghost function SumOver<K>(m: map<K, nat>, keys: set<K>): nat
    requires keys <= m.Keys
  {
    if keys == {} then 0
    else
      var k :| k in keys;
      m[k] + SumOver(m, keys - {k})
  }

  /** The sum of the values of a dictionary. */
  ghost function MapTotal<K>(m: map<K, nat>): nat
  {
    SumOver(m, m.Keys)
  }

  lemma SumOverRemove<K>(m: map<K, nat>, keys: set<K>, k: K)
    requires keys <= m.Keys && k in keys
    ensures SumOver(m, keys) == m[k] + SumOver(m, keys - {k})
  {
    var k0 :| k0 in keys && SumOver(m, keys) == m[k0] + SumOver(m, keys - {k0});
    if k0 != k {
      SumOverRemove(m, keys - {k0}, k);
      SumOverRemove(m, keys - {k}, k0);
      assert keys - {k0} - {k} == keys - {k} - {k0};
    }
  }

  lemma SumOverAgree<K>(m: map<K, nat>, m': map<K, nat>, keys: set<K>)
    requires keys <= m.Keys && keys <= m'.Keys
    requires forall k :: k in keys ==> m[k] == m'[k]
    ensures SumOver(m, keys) == SumOver(m', keys)
  {
    if keys != {} {
      var k :| k in keys;
      SumOverRemove(m, keys, k);
      SumOverRemove(m', keys, k);
      SumOverAgree(m, m', keys - {k});
    }
  }

  lemma SumOverZero<K>(m: map<K, nat>, keys: set<K>)
    requires keys <= m.Keys && forall k :: k in keys ==> m[k] == 0
    ensures SumOver(m, keys) == 0
  {
    if keys != {} {
      var k :| k in keys;
      SumOverRemove(m, keys, k);
      SumOverZero(m, keys - {k});
    }
  }

  lemma MapTotalRemove<K>(m: map<K, nat>, k: K)
    requires k in m
    ensures MapTotal(m) == m[k] + MapTotal(m - {k})
  {
    SumOverRemove(m, m.Keys, k);
    assert (m - {k}).Keys == m.Keys - {k};
    SumOverAgree(m, m - {k}, m.Keys - {k});
  }

  lemma MapTotalUpdate<K>(m: map<K, nat>, k: K, v: nat)
    requires k in m
    ensures MapTotal(m[k := v]) == MapTotal(m) - m[k] + v
  {
    var m' := m[k := v];
    assert m'.Keys == m.Keys;
    SumOverRemove(m, m.Keys, k);
    SumOverRemove(m', m.Keys, k);
    SumOverAgree(m, m', m.Keys - {k});
  }

  lemma MapTotalZero<K>(m: map<K, nat>)
    requires forall k :: k in m ==> m[k] == 0
    ensures MapTotal(m) == 0
  {
    SumOverZero(m, m.Keys);
  }

  /** `sum(d.values())`. */
  method SumValues<K>(m: map<K, nat>) returns (total: nat)
    ensures total == MapTotal(m)
  {
    total := 0;
    var rest := m;
    while rest != map[]
      invariant total + MapTotal(rest) == MapTotal(m)
      decreases rest
    {
      var k :| k in rest;
      MapTotalRemove(rest, k);
      total := total + rest[k];
      rest := rest - {k};
    }
  }

  // ---------------------------------------------------------------------------
  // Occurrence score
  // ---------------------------------------------------------------------------

  /** The labels (silent nodes have none) of a tree's nodes. */
  function Labels(t: PTree): multiset<Label>
    decreases t
  {
    OwnLabel(t) + LabelsOf(t.children)
  }

  /** The node's own label, when it has one. */
  function OwnLabel(t: PTree): multiset<Label>
  {
    if t.activity.Some? then multiset{t.activity.value} else multiset{}
  }

  function LabelsOf(ts: seq<PTree>): multiset<Label>
    decreases ts
  {
    if ts == [] then multiset{} else Labels(ts[0]) + LabelsOf(ts[1..])
  }

  lemma {:induction false} LabelsOfAppend(ts: seq<PTree>, t: PTree)
    ensures LabelsOf(ts + [t]) == LabelsOf(ts) + Labels(t)
  {
    if ts != [] {
      assert (ts + [t])[1..] == ts[1..] + [t];
      LabelsOfAppend(ts[1..], t);
    }
  }

  /** A tree has at most one label per node. */
  lemma {:induction false} LabelsBound(t: PTree)
    ensures |Labels(t)| <= Size(t)
    decreases t, 1
  {
    LabelsOfBound(t.children);
  }

  lemma {:induction false} LabelsOfBound(ts: seq<PTree>)
    ensures |LabelsOf(ts)| <= SizeOf(ts)
    decreases ts, 0
  {
    if ts != [] {
      LabelsBound(ts[0]);
      LabelsOfBound(ts[1..]);
    }
  }

  /** The distinct labels of a multiset. */
  function Distinct(m: multiset<Label>): set<Label>
  {
    set l | l in m
  }

  lemma {:induction false} DistinctBound(m: multiset<Label>)
    ensures |Distinct(m)| <= |m|
    decreases |m|
  {
    if |m| > 0 {
      var x :| x in m;
      var rest := m - multiset{x};
      DistinctBound(rest);
      assert m == rest + multiset{x};
      forall y | y in Distinct(m) ensures y in Distinct(rest) + {x} {
        assert y in m;
        if y != x {
          assert y in rest;
        }
      }
      forall y | y in Distinct(rest) + {x} ensures y in Distinct(m) {
        if y != x {
          assert y in rest;
        }
      }
      assert Distinct(m) == Distinct(rest) + {x};
    }
  }

  lemma SubsetCard<T>(a: set<T>, b: set<T>)
    requires a <= b
    ensures |a| <= |b|
  {
    assert b == a + (b - a);
  }

  /** A list holds at least as many entries as distinct ones. */
  lemma {:induction false} SeqSetBound(s: seq<Label>)
    ensures |set a | a in s| <= |s|
  {
    if s != [] {
      SeqSetBound(s[1..]);
      assert (set a | a in s) == {s[0]} + set a | a in s[1..];
    }
  }

  /**
   * The counter after visiting nodes whose labels are `m`, starting from
   * `occ0`/`seen0`: the labels join the seen set, and a label's counter grows
   * by every occurrence except the one that first put it in the seen set.
   */
  ghost predicate Tallied(occ0: map<Label, nat>, seen0: set<Label>, occ: map<Label, nat>, seen: set<Label>, m: multiset<Label>)
  {
    occ.Keys == occ0.Keys && seen == seen0 + Distinct(m) &&
    forall l :: l in occ0 ==>
      occ[l] == occ0[l] + (if l in seen0 then m[l] else if m[l] > 0 then m[l] - 1 else 0)
  }

  lemma TalliedNothing(occ: map<Label, nat>, seen: set<Label>)
    ensures Tallied(occ, seen, occ, seen, multiset{})
  {
    assert Distinct(multiset{}) == {};
  }

  lemma TalliedTrans(occ0: map<Label, nat>, seen0: set<Label>, occ1: map<Label, nat>, seen1: set<Label>,
                     occ2: map<Label, nat>, seen2: set<Label>, m1: multiset<Label>, m2: multiset<Label>)
    requires Tallied(occ0, seen0, occ1, seen1, m1) && Tallied(occ1, seen1, occ2, seen2, m2)
    ensures Tallied(occ0, seen0, occ2, seen2, m1 + m2)
  {
    assert Distinct(m1 + m2) == Distinct(m1) + Distinct(m2);
  }

  /** A tally that also keeps the conservation law: each label visited adds one to duplicates or to the seen set. */
  ghost predicate Visited(occ0: map<Label, nat>, seen0: set<Label>, occ: map<Label, nat>, seen: set<Label>, m: multiset<Label>)
  {
    Tallied(occ0, seen0, occ, seen, m) && MapTotal(occ) + |seen| == MapTotal(occ0) + |seen0| + |m|
  }

  lemma VisitedNothing(occ: map<Label, nat>, seen: set<Label>)
    ensures Visited(occ, seen, occ, seen, multiset{})
  {
    TalliedNothing(occ, seen);
  }

  lemma VisitedTrans(occ0: map<Label, nat>, seen0: set<Label>, occ1: map<Label, nat>, seen1: set<Label>,
                     occ2: map<Label, nat>, seen2: set<Label>, m1: multiset<Label>, m2: multiset<Label>)
    requires Visited(occ0, seen0, occ1, seen1, m1) && Visited(occ1, seen1, occ2, seen2, m2)
    ensures Visited(occ0, seen0, occ2, seen2, m1 + m2)
  {
    TalliedTrans(occ0, seen0, occ1, seen1, occ2, seen2, m1, m2);
  }

  /** One labelled node: a seen label counts one more duplicate, a new one joins the seen set. */
  lemma VisitedOne(occ: map<Label, nat>, seen: set<Label>, l: Label)
    requires l in seen ==> l in occ
    ensures Visited(occ, seen, if l in seen then occ[l := occ[l] + 1] else occ, seen + {l}, multiset{l})
  {
    assert Distinct(multiset{l}) == {l};
    if l in seen {
      MapTotalUpdate(occ, l, occ[l] + 1);
      assert seen + {l} == seen;
    }
  }

  /** Every label among the nodes below the root has a counter. */
  ghost predicate Counted(ts: seq<PTree>, occ: map<Label, nat>)
  {
    forall l :: l in LabelsOf(ts) ==> l in occ
  }

  /** The counters `count_occurences` fills: one per log activity, the labels seen, the nodes visited. */
  class OccurrenceCounter {
    var occurrences: map<Label, nat>
    var treeActivities: set<Label>
    var nodeCount: nat

    constructor (activities: seq<Label>)
      ensures occurrences == (map a | a in activities :: 0)
      ensures treeActivities == {} && nodeCount == 1
    {
      occurrences := map a | a in activities :: 0;
      treeActivities := {};
      nodeCount := 1;
    }

    /** The visit of one node itself: its label, when it has one, and one more node. */
    method VisitLabel(child: PTree)
      modifies this
      requires child.activity.Some? ==> child.activity.value in occurrences
      ensures nodeCount == old(nodeCount) + 1
      ensures Visited(old(occurrences), old(treeActivities), occurrences, treeActivities, OwnLabel(child))
    {
      if child.activity.Some? {
        var l := child.activity.value;
        VisitedOne(occurrences, treeActivities, l);
        if l in treeActivities {
          occurrences := occurrences[l := occurrences[l] + 1];
        }
        treeActivities := treeActivities + {l};
      } else {
        VisitedNothing(occurrences, treeActivities);
      }
      nodeCount := nodeCount + 1;
    }

    /**
     * Visits the nodes below `t` in pre-order: each labelled node counts as a
     * duplicate when its label was seen before, and each node adds one to the
     * node count.
     */
    method CountOccurrences(t: PTree)
      modifies this
      requires Counted(t.children, occurrences)
      ensures nodeCount == old(nodeCount) + SizeOf(t.children)
      ensures Visited(old(occurrences), old(treeActivities), occurrences, treeActivities, LabelsOf(t.children))
      decreases t, 1
    {
      VisitedNothing(occurrences, treeActivities);
      for i := 0 to |t.children|
        invariant nodeCount == old(nodeCount) + SizeOf(t.children[..i])
        invariant Visited(old(occurrences), old(treeActivities), occurrences, treeActivities, LabelsOf(t.children[..i]))
        invariant Counted(t.children, occurrences)
      {
        VisitChild(t.children, i);
        ghost var occ0, seen0 := occurrences, treeActivities;
        VisitSubtree(t, i);
        VisitedTrans(old(occurrences), old(treeActivities), occ0, seen0, occurrences, treeActivities,
                     LabelsOf(t.children[..i]), Labels(t.children[i]));
      }
      assert t.children[..|t.children|] == t.children;
    }

    /** The visit of child `i` of `t` and of everything below it. */
    method VisitSubtree(t: PTree, i: nat)
      modifies this
      requires i < |t.children| && Counted(t.children, occurrences)
      requires Labels(t.children[i]) <= LabelsOf(t.children)
      ensures nodeCount == old(nodeCount) + Size(t.children[i])
      ensures Visited(old(occurrences), old(treeActivities), occurrences, treeActivities, Labels(t.children[i]))
      ensures Counted(t.children, occurrences)
      decreases t, 0
    {
      var child := t.children[i];
      ChildCounted(t.children, i, occurrences);
      VisitLabel(child);
      ghost var occ1, seen1 := occurrences, treeActivities;
      CountedKeys(t.children, old(occurrences), occ1, old(treeActivities), seen1, OwnLabel(child));
      CountedKeys(child.children, old(occurrences), occ1, old(treeActivities), seen1, OwnLabel(child));
      CountOccurrences(child);
      VisitedTrans(old(occurrences), old(treeActivities), occ1, seen1, occurrences, treeActivities,
                   OwnLabel(child), LabelsOf(child.children));
      CountedKeys(t.children, occ1, occurrences, seen1, treeActivities, LabelsOf(child.children));
    }
  }

  /** A tally keeps the counters' keys, so what was counted stays counted. */
  lemma CountedKeys(ts: seq<PTree>, occ0: map<Label, nat>, occ: map<Label, nat>, seen0: set<Label>, seen: set<Label>,
                    m: multiset<Label>)
    requires Counted(ts, occ0) && Tallied(occ0, seen0, occ, seen, m)
    ensures Counted(ts, occ)
  {
  }

  /** The child's own label and the labels below it have counters when all labels below the parent do. */
  lemma ChildCounted(cs: seq<PTree>, i: nat, occ: map<Label, nat>)
    requires i < |cs| && Counted(cs, occ)
    requires Labels(cs[i]) <= LabelsOf(cs)
    ensures Counted(cs[i].children, occ)
    ensures cs[i].activity.Some? ==> cs[i].activity.value in occ
  {
    if cs[i].activity.Some? {
      assert cs[i].activity.value in OwnLabel(cs[i]);
    }
  }

  /** The facts about child `i` the visit of `CountOccurrences` relies on. */
  lemma VisitChild(cs: seq<PTree>, i: nat)
    requires i < |cs|
    ensures SizeOf(cs[..i + 1]) == SizeOf(cs[..i]) + Size(cs[i])
    ensures LabelsOf(cs[..i + 1]) == LabelsOf(cs[..i]) + Labels(cs[i])
    ensures Labels(cs[i]) <= LabelsOf(cs)
  {
    assert cs[..i + 1] == cs[..i] + [cs[i]];
    SizeOfAppend(cs[..i], cs[i]);
    LabelsOfAppend(cs[..i], cs[i]);
    LabelsOfAppend(cs[..i + 1], cs[i]);
    assert cs == cs[..i + 1] + cs[i + 1..];
    LabelsOfConcat(cs[..i + 1], cs[i + 1..]);
  }

  lemma {:induction false} LabelsOfConcat(xs: seq<PTree>, ys: seq<PTree>)
    ensures LabelsOf(xs + ys) == LabelsOf(xs) + LabelsOf(ys)
  {
    if xs == [] {
      assert xs + ys == ys;
    } else {
      assert (xs + ys)[0] == xs[0];
      assert (xs + ys)[1..] == xs[1..] + ys;
      LabelsOfConcat(xs[1..], ys);
    }
  }

  /** Labels of the nodes below the root. */
  function NonRootLabels(t: PTree): multiset<Label>
  {
    LabelsOf(t.children)
  }

  /**
   * `1 - (duplicates + missing) / (nodes + event classes)`, where the
   * duplicates are the labelled non-root nodes beyond the first of each label
   * and the missing activities are the log's activities with no such node; a
   * labelled root scores `1 - (a - 1) / (1 + a)`.
   */
  method SimplicityOccurrence(activities: seq<Label>, t: PTree) returns (s: real)
    requires forall l :: l in NonRootLabels(t) ==> l in activities
    ensures HasTruthyLabel(t) ==> s == 1.0 - (|activities| - 1) as real / (1 + |activities|) as real
    ensures !HasTruthyLabel(t) ==>
      var m := NonRootLabels(t);
      s == 1.0 - ((|m| - |Distinct(m)|) + (|activities| - |Distinct(m)|)) as real / (Size(t) + |activities|) as real
    ensures !HasTruthyLabel(t) || |activities| > 0 ==> 0.0 < s <= 1.0
  {
    if t.activity.Some? && t.activity.value != "" {
      var missing := |activities| - 1;
      var classes := |activities|;
      s := 1.0 - missing as real / (1 + classes) as real;
      if |activities| > 0 {
        FractionUnder(missing, 1 + classes);
      }
      return;
    }
    var duplicates, missing, nodes := OccurrenceCounts(activities, t);
    var classes := |activities|;
    s := 1.0 - (duplicates + missing) as real / (nodes + classes) as real;
    OccurrenceBounds(activities, t);
    FractionUnder(duplicates + missing, nodes + classes);
  }

  /** The integer counts behind the occurrence score, from one pre-order visit of the non-root nodes. */
  method OccurrenceCounts(activities: seq<Label>, t: PTree) returns (duplicates: int, missing: int, nodes: int)
    requires forall l :: l in NonRootLabels(t) ==> l in activities
    ensures duplicates == |NonRootLabels(t)| - |Distinct(NonRootLabels(t))|
    ensures missing == |activities| - |Distinct(NonRootLabels(t))|
    ensures nodes == Size(t)
  {
    var counter := new OccurrenceCounter(activities);
    ghost var m := NonRootLabels(t);
    MapTotalZero(counter.occurrences);
    counter.CountOccurrences(t);
    assert counter.treeActivities == Distinct(m);
    duplicates := SumValues(counter.occurrences);
    missing := |activities| - |counter.treeActivities|;
    nodes := counter.nodeCount;
  }

  /** `1 - x / d` lies in (0, 1] for a numerator below the denominator. */
  lemma FractionUnder(x: int, d: int)
    requires 0 <= x < d
    ensures 0.0 < 1.0 - x as real / d as real <= 1.0
  {
    if x > 0 {
      RatioBounds(x as real, d as real);
    }
  }

  /**
   * Duplicates plus missing activities never reach the node count plus the
   * activity count: duplicates stay below the non-root node count and the
   * labels seen are among the activities.
   */
  lemma OccurrenceBounds(activities: seq<Label>, t: PTree)
    requires forall l :: l in NonRootLabels(t) ==> l in activities
    ensures var m := NonRootLabels(t);
      0 <= (|m| - |Distinct(m)|) + (|activities| - |Distinct(m)|) < Size(t) + |activities|
  {
    var m := NonRootLabels(t);
    DistinctBound(m);
    LabelsOfBound(t.children);
    SeqSetBound(activities);
    assert Distinct(m) <= set a | a in activities;
    SubsetCard(Distinct(m), set a | a in activities);
  }

  // ---------------------------------------------------------------------------
  // Useless-node score
  // ---------------------------------------------------------------------------

  /**
   * The verdicts written into a copied node: `useless` is set on every child
   * of a judged node, `rule6` on a silent leaf removed by rule 6; `below`
   * holds the marks of the node's own children.
   */
  datatype Marks = Marks(useless: Option<bool>, rule6: bool, below: seq<Marks>)

  /** Nodes judged by the leaf rules: a truthy label, or a silent leaf. */
  predicate LeafBranch(n: PTree)
  {
    HasTruthyLabel(n) || IsTauLeaf(n)
  }

  /** A label that reaches the leaf rules: none (silent) or a non-empty one. */
  predicate Judgeable(k: Option<Label>)
  {
    k.None? || k.value != ""
  }

  /** Leaves among `cs` carrying label `k`. */
  function LeafCount(cs: seq<PTree>, k: Option<Label>): nat
  {
    if cs == [] then 0 else (if IsLeaf(cs[0]) && cs[0].activity == k then 1 else 0) + LeafCount(cs[1..], k)
  }

  /** Leaves among `cs`. */
  function LeafTotal(cs: seq<PTree>): nat
  {
    if cs == [] then 0 else (if IsLeaf(cs[0]) then 1 else 0) + LeafTotal(cs[1..])
  }

  /** Nodes among `cs` with operator `op`. */
  function OpCount(cs: seq<PTree>, op: Operator): nat
  {
    if cs == [] then 0 else (if cs[0].operator == Some(op) then 1 else 0) + OpCount(cs[1..], op)
  }

  /** Operator nodes among `cs`. */
  function OpTotal(cs: seq<PTree>): nat
  {
    if cs == [] then 0 else (if cs[0].operator.Some? then 1 else 0) + OpTotal(cs[1..])
  }

  predicate AllOperators(ops: map<Operator, nat>)
  {
    forall op: Operator :: op in ops
  }

  /** `sum(operators.values())` over the five operators. */
  function OpSum(ops: map<Operator, nat>): nat
    requires AllOperators(ops)
  {
    ops[Sequence] + ops[Xor] + ops[Parallel] + ops[Loop] + ops[Or]
  }

  lemma {:induction false} OpCountsSum(cs: seq<PTree>)
    ensures OpCount(cs, Sequence) + OpCount(cs, Xor) + OpCount(cs, Parallel) + OpCount(cs, Loop) + OpCount(cs, Or)
            == OpTotal(cs)
  {
    if cs != [] {
      OpCountsSum(cs[1..]);
      match cs[0].operator
      case None =>
      case Some(op) =>
        match op
        case Sequence =>
        case Xor =>
        case Parallel =>
        case Loop =>
        case Or =>
    }
  }

  /**
   * Rules 2, 7, 3 and 5 for a node the leaf rules do not judge: fewer than two
   * children; the parent's operator other than LOOP; no child judged useful;
   * a LOOP of three children one of which was removed by rule 6.
   */
  predicate OperatorRule(n: PTree, parentOp: Option<Operator>, below: seq<Marks>)
  {
    |n.children| < 2
    || (parentOp == n.operator && n.operator != Some(Loop))
    || (forall j :: 0 <= j < |below| ==> below[j].useless != Some(false))
    || (n.operator == Some(Loop) && |n.children| == 3 && exists j :: 0 <= j < |below| && below[j].rule6)
  }

  /** Rule 6's siblings: exactly two silent leaves and one LOOP node, and no other leaf or operator node. */
  predicate Rule6Shape(cs: seq<PTree>)
  {
    LeafCount(cs, None) == 2 && LeafTotal(cs) == 2 && OpCount(cs, Loop) == 1 && OpTotal(cs) == 1
  }

  /** Rule 6 fires for child `i` of `t`: a silent leaf under a LOOP with rule 6's siblings. */
  predicate Rule6Fires(t: PTree, i: nat)
    requires i < |t.children|
  {
    t.operator == Some(Loop) && IsTauLeaf(t.children[i]) && Rule6Shape(t.children)
  }

  /**
   * Whether child `i` of `t` is useless, stated over its siblings: a silent
   * leaf under SEQUENCE/PARALLEL (rule 1); under XOR/OR a leaf with a later
   * sibling leaf of the same label (rule 4); rule 6 under LOOP; otherwise the
   * operator rules.
   */
  predicate Verdict(t: PTree, i: nat, below: seq<Marks>)
    requires i < |t.children|
  {
    var c := t.children[i];
    if !LeafBranch(c) then OperatorRule(c, t.operator, below)
    else if t.operator == Some(Sequence) || t.operator == Some(Parallel) then IsTauLeaf(c)
    else if t.operator == Some(Xor) || t.operator == Some(Or) then IsLeaf(c) && LeafCount(t.children[i + 1..], c.activity) > 0
    else if t.operator == Some(Loop) then Rule6Fires(t, i)
    else false
  }

  /**
   * The marks of the whole judged tree below `t`: every child carries its
   * verdict and rule-6 flag, operator children recursively, leaves have
   * nothing below.
   */
  predicate JudgedTree(t: PTree, ms: seq<Marks>)
    decreases t
  {
    |ms| == |t.children| &&
    forall i :: 0 <= i < |ms| ==>
      ms[i].useless == Some(Verdict(t, i, ms[i].below)) && ms[i].rule6 == Rule6Fires(t, i) &&
      (if t.children[i].operator.Some? then JudgedTree(t.children[i], ms[i].below) else ms[i].below == [])
  }

  /** What the recursion leaves for one child: its judged subtree, or nothing for a leaf. */
  predicate SubOk(c: PTree, sub: seq<Marks>)
  {
    if c.operator.Some? then JudgedTree(c, sub) else sub == []
  }

  function Flag(m: Marks): nat
  {
    if m.useless == Some(true) then 1 else 0
  }

  /** Nodes marked useless anywhere in `ms`. */
  function UselessIn(ms: seq<Marks>): nat
    decreases ms
  {
    if |ms| == 0 then 0
    else UselessIn(ms[..|ms| - 1]) + Flag(ms[|ms| - 1]) + UselessIn(ms[|ms| - 1].below)
  }

  /** Nodes marked useless in a list of mark lists. */
  function SubTotal(subs: seq<seq<Marks>>): nat
  {
    if |subs| == 0 then 0 else SubTotal(subs[..|subs| - 1]) + UselessIn(subs[|subs| - 1])
  }

  /** At most every node below the root is useless. */
  lemma {:induction false} UselessBounded(t: PTree, ms: seq<Marks>)
    requires JudgedTree(t, ms)
    ensures UselessIn(ms) <= Size(t) - 1
    decreases t, 1
  {
    UselessPrefix(t, ms, |ms|);
    assert ms[..|ms|] == ms;
    assert t.children[..|ms|] == t.children;
  }

  lemma {:induction false} UselessPrefix(t: PTree, ms: seq<Marks>, n: nat)
    requires JudgedTree(t, ms) && n <= |ms|
    ensures UselessIn(ms[..n]) <= SizeOf(t.children[..n])
    decreases t, 0, n
  {
    if n > 0 {
      UselessPrefix(t, ms, n - 1);
      var c := t.children[n - 1];
      assert ms[..n][..n - 1] == ms[..n - 1];
      assert t.children[..n] == t.children[..n - 1] + [c];
      SizeOfAppend(t.children[..n - 1], c);
      if c.operator.Some? {
        UselessBounded(c, ms[n - 1].below);
      } else {
        assert ms[n - 1].below == [];
      }
    }
  }

  /** Every leaf below the root carries a label the activity dictionary knows. */
  predicate LeafLabelsKnown(t: PTree, keys: set<Option<Label>>)
    decreases t
  {
    forall i :: 0 <= i < |t.children| ==>
      (IsLeaf(t.children[i]) ==> t.children[i].activity in keys) && LeafLabelsKnown(t.children[i], keys)
  }

  /** The keys of the activity dictionary: the log's activities and the silent label. */
  function ActivityKeys(activities: seq<Label>): set<Option<Label>>
  {
    (set a | a in activities :: Some(a)) + {None}
  }

  /** Tallies of a node's children, as the preliminary loop of `count_useless` leaves them. */
  ghost predicate Tallies(cs: seq<PTree>, ops: map<Operator, nat>, acts: map<Option<Label>, nat>)
  {
    AllOperators(ops) && (forall op: Operator :: ops[op] == OpCount(cs, op)) &&
    None in acts && (forall k :: k in acts ==> acts[k] == LeafCount(cs, k)) &&
    (forall j :: 0 <= j < |cs| && IsLeaf(cs[j]) ==> cs[j].activity in acts) &&
    MapTotal(acts) == LeafTotal(cs)
  }

  /** The tallies after the first `i` children: what remains to be counted is in `cs[i..]`. */
  ghost predicate TalliedUpTo(cs: seq<PTree>, i: nat, ops: map<Operator, nat>, acts: map<Option<Label>, nat>)
    requires i <= |cs|
  {
    AllOperators(ops) && (forall op: Operator :: ops[op] + OpCount(cs[i..], op) == OpCount(cs, op)) &&
    (forall k :: k in acts ==> acts[k] + LeafCount(cs[i..], k) == LeafCount(cs, k)) &&
    MapTotal(acts) + LeafTotal(cs[i..]) == LeafTotal(cs)
  }

  lemma TallyStart(cs: seq<PTree>, ops: map<Operator, nat>, acts: map<Option<Label>, nat>)
    requires ops == map[Sequence := 0, Xor := 0, Parallel := 0, Loop := 0, Or := 0]
    requires forall k :: k in acts ==> acts[k] == 0
    ensures TalliedUpTo(cs, 0, ops, acts)
  {
    forall op: Operator ensures op in ops {
      match op
      case Sequence =>
      case Xor =>
      case Parallel =>
      case Loop =>
      case Or =>
    }
    MapTotalZero(acts);
    assert cs[0..] == cs;
  }

  /** One child's contribution to the operator tally. */
  function BumpOperator(ops: map<Operator, nat>, c: PTree): (r: map<Operator, nat>)
    requires AllOperators(ops)
    ensures AllOperators(r)
    ensures forall op: Operator :: r[op] == ops[op] + (if c.operator == Some(op) then 1 else 0)
  {
    if c.operator.Some? then ops[c.operator.value := ops[c.operator.value] + 1] else ops
  }

  /** One child's contribution to the leaf tally: only leaves without an operator count. */
  function BumpActivity(acts: map<Option<Label>, nat>, c: PTree): (r: map<Option<Label>, nat>)
    requires IsLeaf(c) ==> c.activity in acts
    ensures r.Keys == acts.Keys
    ensures forall k :: k in acts ==> r[k] == acts[k] + (if c.operator.None? && IsLeaf(c) && c.activity == k then 1 else 0)
  {
    if c.operator.None? && IsLeaf(c) then acts[c.activity := acts[c.activity] + 1] else acts
  }

  lemma TallyStep(cs: seq<PTree>, i: nat, ops: map<Operator, nat>, acts: map<Option<Label>, nat>)
    requires i < |cs| && TalliedUpTo(cs, i, ops, acts)
    requires IsLeaf(cs[i]) ==> cs[i].activity in acts
    ensures TalliedUpTo(cs, i + 1, BumpOperator(ops, cs[i]), BumpActivity(acts, cs[i]))
  {
    var c := cs[i];
    assert cs[i..][1..] == cs[i + 1..];
    if c.operator.None? && IsLeaf(c) {
      MapTotalUpdate(acts, c.activity, acts[c.activity] + 1);
    }
  }

  lemma TallyEnd(cs: seq<PTree>, ops: map<Operator, nat>, acts: map<Option<Label>, nat>)
    requires TalliedUpTo(cs, |cs|, ops, acts) && None in acts
    requires forall j :: 0 <= j < |cs| && IsLeaf(cs[j]) ==> cs[j].activity in acts
    ensures Tallies(cs, ops, acts)
  {
    assert cs[|cs|..] == [];
  }

  /**
   * The judging loop's view of the activity tallies: under XOR/OR each
   * judgeable label's tally is the number of its leaves from `i` on, or 1
   * once the last of them has passed; under any other parent it is unchanged.
   */
  predicate ActivitiesAt(t: PTree, i: nat, acts0: map<Option<Label>, nat>, acts: map<Option<Label>, nat>)
    requires i <= |t.children|
  {
    acts.Keys == acts0.Keys &&
    if t.operator == Some(Xor) || t.operator == Some(Or) then
      forall k :: k in acts && Judgeable(k) ==>
        acts[k] == LeafCount(t.children[i..], k) || (acts[k] == 1 && LeafCount(t.children[i..], k) == 0)
    else acts == acts0
  }

  /**
   * `is_useless`: the rules a child is judged by, given its parent's
   * operator, the tallies of its siblings and the marks of its own children.
   * Rule 4 uses up one tally of the label; rule 6 marks the node.
   */
  method IsUseless(node: PTree, below: seq<Marks>, parentOp: Option<Operator>,
                   operators: map<Operator, nat>, activities: map<Option<Label>, nat>)
    returns (useless: bool, rule6: bool, activities': map<Option<Label>, nat>)
    requires AllOperators(operators) && None in activities
    requires IsLeaf(node) ==> node.activity in activities
    ensures !LeafBranch(node) ==>
      useless == OperatorRule(node, parentOp, below) && !rule6 && activities' == activities
    ensures LeafBranch(node) && (parentOp == Some(Sequence) || parentOp == Some(Parallel)) ==>
      useless == IsTauLeaf(node) && !rule6 && activities' == activities
    ensures LeafBranch(node) && (parentOp == Some(Xor) || parentOp == Some(Or)) ==>
      useless == (IsLeaf(node) && activities[node.activity] > 1) && !rule6 &&
      activities' == if useless then activities[node.activity := activities[node.activity] - 1] else activities
    ensures LeafBranch(node) && parentOp == Some(Loop) ==>
      useless == rule6 && activities' == activities &&
      (rule6 <==> IsTauLeaf(node) && activities[None] == 2 && MapTotal(activities) == 2 &&
                  operators[Loop] == 1 && OpSum(operators) == 1)
    ensures LeafBranch(node) && parentOp.None? ==> !useless && !rule6 && activities' == activities
  {
    useless, rule6, activities' := false, false, activities;
    if (node.activity.Some? && node.activity.value != "") || IsTauLeaf(node) {
      if parentOp == Some(Sequence) || parentOp == Some(Parallel) {
        if IsTauLeaf(node) {
          useless := true;
        }
      } else if parentOp == Some(Xor) || parentOp == Some(Or) {
        if IsLeaf(node) && activities[node.activity] > 1 {
          activities' := activities[node.activity := activities[node.activity] - 1];
          useless := true;
        }
      } else if parentOp == Some(Loop) {
        if IsTauLeaf(node) && activities[None] == 2 {
          var total := SumValues(activities);
          if total == 2 && operators[Loop] == 1 && OpSum(operators) == 1 {
            rule6 := true;
            useless := true;
          }
        }
      }
    } else {
      if |node.children| < 2 {
        useless := true;
      } else if parentOp == node.operator && node.operator != Some(Loop) {
        useless := true;
      } else if forall j :: 0 <= j < |below| ==> below[j].useless != Some(false) {
        useless := true;
      } else if node.operator == Some(Loop) && |node.children| == 3 {
        useless := exists j :: 0 <= j < |below| && below[j].rule6;
      }
    }
  }

  /** One step of the judging loop keeps the tallies' invariant and yields the verdict. */
  lemma JudgeStep(t: PTree, i: nat, below: seq<Marks>, acts0: map<Option<Label>, nat>, acts: map<Option<Label>, nat>,
                  ops: map<Operator, nat>, useless: bool, rule6: bool, acts': map<Option<Label>, nat>)
    requires i < |t.children| && Tallies(t.children, ops, acts0) && ActivitiesAt(t, i, acts0, acts)
    requires var node := t.children[i];
      AllOperators(ops) && None in acts && (IsLeaf(node) ==> node.activity in acts) &&
      (!LeafBranch(node) ==> useless == OperatorRule(node, t.operator, below) && !rule6 && acts' == acts) &&
      (LeafBranch(node) && (t.operator == Some(Sequence) || t.operator == Some(Parallel)) ==>
        useless == IsTauLeaf(node) && !rule6 && acts' == acts) &&
      (LeafBranch(node) && (t.operator == Some(Xor) || t.operator == Some(Or)) ==>
        useless == (IsLeaf(node) && acts[node.activity] > 1) && !rule6 &&
        acts' == if useless then acts[node.activity := acts[node.activity] - 1] else acts) &&
      (LeafBranch(node) && t.operator == Some(Loop) ==>
        useless == rule6 && acts' == acts &&
        (rule6 <==> IsTauLeaf(node) && acts[None] == 2 && MapTotal(acts) == 2 && ops[Loop] == 1 && OpSum(ops) == 1)) &&
      (LeafBranch(node) && t.operator.None? ==> !useless && !rule6 && acts' == acts)
    ensures useless == Verdict(t, i, below) && rule6 == Rule6Fires(t, i)
    ensures ActivitiesAt(t, i + 1, acts0, acts')
  {
    var node := t.children[i];
    if !LeafBranch(node) {
      PassOver(t, i, acts0, acts);
    } else {
      match t.operator
      case Some(Xor) => ChoiceStep(t, i, acts0, acts, useless, acts');
      case Some(Or) => ChoiceStep(t, i, acts0, acts, useless, acts');
      case Some(Loop) => LoopStep(t, i, ops, acts0, acts, rule6);
      case Some(Sequence) =>
      case Some(Parallel) =>
      case None =>
    }
  }

  /** The leaves from `i` on: child `i`'s own share plus those after it. */
  lemma LeafCountStep(cs: seq<PTree>, i: nat, k: Option<Label>)
    requires i < |cs|
    ensures LeafCount(cs[i..], k) == (if IsLeaf(cs[i]) && cs[i].activity == k then 1 else 0) + LeafCount(cs[i + 1..], k)
  {
    assert cs[i..][1..] == cs[i + 1..];
  }

  /** A child the leaf rules do not judge leaves the tallies as they are. */
  lemma PassOver(t: PTree, i: nat, acts0: map<Option<Label>, nat>, acts: map<Option<Label>, nat>)
    requires i < |t.children| && !LeafBranch(t.children[i]) && ActivitiesAt(t, i, acts0, acts)
    ensures ActivitiesAt(t, i + 1, acts0, acts)
  {
    forall k | Judgeable(k) ensures LeafCount(t.children[i..], k) == LeafCount(t.children[i + 1..], k) {
      LeafCountStep(t.children, i, k);
    }
  }

  /** Rule 4: under XOR/OR a leaf is useless exactly when a later sibling leaf has its label. */
  lemma ChoiceStep(t: PTree, i: nat, acts0: map<Option<Label>, nat>, acts: map<Option<Label>, nat>,
                   useless: bool, acts': map<Option<Label>, nat>)
    requires i < |t.children| && LeafBranch(t.children[i]) && (t.operator == Some(Xor) || t.operator == Some(Or))
    requires ActivitiesAt(t, i, acts0, acts)
    requires IsLeaf(t.children[i]) ==> t.children[i].activity in acts
    requires var node := t.children[i];
      useless == (IsLeaf(node) && acts[node.activity] > 1) &&
      acts' == if useless then acts[node.activity := acts[node.activity] - 1] else acts
    ensures useless == (IsLeaf(t.children[i]) && LeafCount(t.children[i + 1..], t.children[i].activity) > 0)
    ensures ActivitiesAt(t, i + 1, acts0, acts')
  {
    var cs := t.children;
    var node := cs[i];
    forall k | k in acts' && Judgeable(k)
      ensures acts'[k] == LeafCount(cs[i + 1..], k) || (acts'[k] == 1 && LeafCount(cs[i + 1..], k) == 0)
    {
      LeafCountStep(cs, i, k);
    }
    if IsLeaf(node) {
      LeafCountStep(cs, i, node.activity);
      assert Judgeable(node.activity);
    }
  }

  /** Rule 6: under LOOP the untouched tallies are the siblings' counts. */
  lemma LoopStep(t: PTree, i: nat, ops: map<Operator, nat>, acts0: map<Option<Label>, nat>,
                 acts: map<Option<Label>, nat>, rule6: bool)
    requires i < |t.children| && t.operator == Some(Loop)
    requires Tallies(t.children, ops, acts0) && ActivitiesAt(t, i, acts0, acts)
    requires rule6 <==> IsTauLeaf(t.children[i]) && acts[None] == 2 && MapTotal(acts) == 2 && ops[Loop] == 1 && OpSum(ops) == 1
    ensures rule6 == Rule6Fires(t, i)
  {
    OpCountsSum(t.children);
  }

  /** The counters `count_useless` fills: judged-useless nodes and nodes visited. */
  class UselessCounter {
    const activityList: set<Option<Label>>
    var useless: nat
    var nodeCount: nat

    constructor (activities: seq<Label>)
      ensures activityList == ActivityKeys(activities) && useless == 0 && nodeCount == 1
    {
      activityList := ActivityKeys(activities);
      useless := 0;
      nodeCount := 1;
    }

    /** The preliminary loop: operator and leaf tallies of the children; each child is one more node. */
    method Tally(cs: seq<PTree>) returns (operators: map<Operator, nat>, activities: map<Option<Label>, nat>)
      modifies this
      requires None in activityList
      requires forall j :: 0 <= j < |cs| && IsLeaf(cs[j]) ==> cs[j].activity in activityList
      ensures Tallies(cs, operators, activities) && activities.Keys == activityList
      ensures nodeCount == old(nodeCount) + |cs| && useless == old(useless)
    {
      operators := map[Sequence := 0, Xor := 0, Parallel := 0, Loop := 0, Or := 0];
      activities := map k | k in activityList :: 0;
      TallyStart(cs, operators, activities);
      for i := 0 to |cs|
        invariant activities.Keys == activityList && TalliedUpTo(cs, i, operators, activities)
        invariant nodeCount == old(nodeCount) + i && useless == old(useless)
      {
        TallyStep(cs, i, operators, activities);
        operators := BumpOperator(operators, cs[i]);
        activities := BumpActivity(activities, cs[i]);
        nodeCount := nodeCount + 1;
      }
      TallyEnd(cs, operators, activities);
    }

    /** The judging loop: every child gets a verdict; each useless one is counted. */
    method JudgeChildren(t: PTree, subs: seq<seq<Marks>>, operators: map<Operator, nat>, activities: map<Option<Label>, nat>)
      returns (below: seq<Marks>)
      modifies this
      requires |subs| == |t.children| && Tallies(t.children, operators, activities)
      ensures |below| == |t.children|
      ensures forall i :: 0 <= i < |below| ==>
        below[i] == Marks(Some(Verdict(t, i, subs[i])), Rule6Fires(t, i), subs[i])
      ensures useless + SubTotal(subs) == old(useless) + UselessIn(below)
      ensures nodeCount == old(nodeCount)
    {
      below := [];
      var acts := activities;
      for i := 0 to |t.children|
        invariant |below| == i
        invariant forall j :: 0 <= j < i ==>
          below[j] == Marks(Some(Verdict(t, j, subs[j])), Rule6Fires(t, j), subs[j])
        invariant ActivitiesAt(t, i, activities, acts)
        invariant useless + SubTotal(subs[..i]) == old(useless) + UselessIn(below)
        invariant nodeCount == old(nodeCount)
      {
        var mark;
        mark, acts := JudgeChild(t, i, subs[i], operators, activities, acts);
        assert (below + [mark])[..i] == below;
        assert subs[..i + 1][..i] == subs[..i];
        below := below + [mark];
      }
      assert subs[..|subs|] == subs;
    }

    /** The verdict on child `i`, counted when useless, and the tallies rule 4 leaves. */
    method JudgeChild(t: PTree, i: nat, sub: seq<Marks>, operators: map<Operator, nat>,
                      activities: map<Option<Label>, nat>, acts: map<Option<Label>, nat>)
      returns (mark: Marks, acts': map<Option<Label>, nat>)
      modifies this
      requires i < |t.children| && Tallies(t.children, operators, activities)
      requires ActivitiesAt(t, i, activities, acts)
      ensures mark == Marks(Some(Verdict(t, i, sub)), Rule6Fires(t, i), sub)
      ensures ActivitiesAt(t, i + 1, activities, acts')
      ensures useless == old(useless) + Flag(mark) && nodeCount == old(nodeCount)
    {
      var r, r6;
      r, r6, acts' := IsUseless(t.children[i], sub, t.operator, operators, acts);
      JudgeStep(t, i, sub, activities, acts, operators, r, r6, acts');
      if r {
        useless := useless + 1;
      }
      mark := Marks(Some(r), r6, sub);
    }

    /**
     * `count_useless`: the operator children first (bottom up), then the
     * tallies, then the verdict on every child.
     */
    method CountUseless(t: PTree) returns (below: seq<Marks>)
      modifies this
      requires WellFormed(t) && LeafLabelsKnown(t, activityList) && None in activityList
      ensures JudgedTree(t, below)
      ensures nodeCount == old(nodeCount) + Size(t) - 1
      ensures useless == old(useless) + UselessIn(below)
      decreases t, 1
    {
      var subs: seq<seq<Marks>> := [];
      for i := 0 to |t.children|
        invariant |subs| == i
        invariant forall j :: 0 <= j < i ==> SubOk(t.children[j], subs[j])
        invariant nodeCount + i == old(nodeCount) + SizeOf(t.children[..i])
        invariant useless == old(useless) + SubTotal(subs)
      {
        SizePrefixStep(t.children, i);
        var sub := CountBelow(t, i);
        assert (subs + [sub])[..i] == subs;
        subs := subs + [sub];
      }
      assert t.children[..|t.children|] == t.children;
      var operators, activities := Tally(t.children);
      below := JudgeChildren(t, subs, operators, activities);
    }

    /** The bottom-up pass for child `i`: an operator child is judged through, a leaf has nothing below. */
    method CountBelow(t: PTree, i: nat) returns (sub: seq<Marks>)
      modifies this
      requires i < |t.children| && WellFormed(t) && LeafLabelsKnown(t, activityList) && None in activityList
      ensures SubOk(t.children[i], sub)
      ensures nodeCount + 1 == old(nodeCount) + Size(t.children[i])
      ensures useless == old(useless) + UselessIn(sub)
      decreases t, 0
    {
      var child := t.children[i];
      WellFormedChild(t, i);
      sub := [];
      if child.operator.Some? {
        sub := CountUseless(child);
      } else {
        assert SizeOf(child.children) == 0;
      }
    }
  }

  lemma SizePrefixStep(cs: seq<PTree>, i: nat)
    requires i < |cs|
    ensures SizeOf(cs[..i + 1]) == SizeOf(cs[..i]) + Size(cs[i])
  {
    assert cs[..i + 1] == cs[..i] + [cs[i]];
    SizeOfAppend(cs[..i], cs[i]);
  }

  /** A well-formed tree's children are well formed, and their leaves are known too. */
  lemma WellFormedChild(t: PTree, i: nat)
    requires i < |t.children| && WellFormed(t)
    ensures WellFormed(t.children[i])
    ensures forall keys :: LeafLabelsKnown(t, keys) ==> LeafLabelsKnown(t.children[i], keys)
    ensures t.children[i].operator.None? ==> t.children[i].children == []
  {
  }

  /** The integer counts behind the useless-node score, from one bottom-up pass over a copy of the tree. */
  method UselessCounts(activities: seq<Label>, t: PTree) returns (useless: nat, nodes: nat, ghost marks: seq<Marks>)
    requires WellFormed(t) && LeafLabelsKnown(t, ActivityKeys(activities))
    ensures JudgedTree(t, marks) && useless == UselessIn(marks) && nodes == Size(t)
  {
    var counter := new UselessCounter(activities);
    marks := counter.CountUseless(t);
    useless, nodes := counter.useless, counter.nodeCount;
  }

  /**
   * `1 - useless / nodes` on a copy of the tree: 1 for a labelled root,
   * otherwise the share of nodes the rules leave useful; always in (0, 1].
   */
  method SimplicityUselessNodes(activities: seq<Label>, t: PTree) returns (s: real, ghost marks: seq<Marks>)
    requires WellFormed(t) && LeafLabelsKnown(t, ActivityKeys(activities))
    ensures HasTruthyLabel(t) ==> s == 1.0
    ensures !HasTruthyLabel(t) ==> JudgedTree(t, marks) && s == 1.0 - UselessIn(marks) as real / Size(t) as real
    ensures 0.0 < s <= 1.0
  {
    marks := [];
    if t.activity.Some? && t.activity.value != "" {
      return 1.0, marks;
    }
    var useless, nodes;
    useless, nodes, marks := UselessCounts(activities, t);
    UselessBounded(t, marks);
    s := 1.0 - useless as real / nodes as real;
    if useless > 0 {
      RatioBounds(useless as real, nodes as real);
    }
  }
}
