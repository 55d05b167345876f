/**
 * Initial populations for the evolutionary tree miner: one SEQUENCE tree per
 * trace (repeated activities folded into a single LOOP), random trees grown
 * until every operator has two children, the single-trace strategy that hands
 * out each trace's tree once, and the population builder that rejects trees
 * it already holds.  Every `randint` draw is a caller-supplied natural number
 * brought into the drawn range, so every outcome of the draw is reachable.
 */
module InitialGeneration {
  import opened Wrappers
  import opened ProcessTrees
  import opened Population
  import opened Sequences

  // ---------------------------------------------------------------------------
  // Draws and small sequence facts
  // ---------------------------------------------------------------------------

  /** `randint(lo, hi)`: the draw brought into the inclusive range `[lo, hi]`. */
  function Randint(draw: nat, lo: int, hi: int): (r: int)
    requires lo <= hi
    ensures lo <= r <= hi
  {
    lo + draw % (hi - lo + 1)
  }

  /**
   * Iteration over a Python set: every element once, in an order the model
   * leaves open.
   */
  method Enumerate<T>(s: set<T>) returns (order: seq<T>)
    ensures Distinct(order) && forall x :: x in order <==> x in s
  {
    order := [];
    var rest := s;
    while rest != {}
      invariant rest <= s && Distinct(order)
      invariant forall x :: x in order <==> x in s && x !in rest
      decreases |rest|
    {
      var x :| x in rest;
      order := order + [x];
      rest := rest - {x};
    }
  }

  /** The leaves labelled by `xs`, in order. */
  function LeavesOf(xs: seq<Label>): seq<PTree>
  {
    seq(|xs|, i requires 0 <= i < |xs| => Leaf(xs[i]))
  }

  lemma LeavesOfAppend(xs: seq<Label>, ys: seq<Label>)
    ensures LeavesOf(xs + ys) == LeavesOf(xs) + LeavesOf(ys)
  {
    assert |LeavesOf(xs + ys)| == |LeavesOf(xs) + LeavesOf(ys)|;
  }

  // ---------------------------------------------------------------------------
  // Repeated activities of a trace
  // ---------------------------------------------------------------------------

  /** `x` occurs at least twice in `s`. */
  predicate Repeats(s: seq<Label>, x: Label)
  {
    multiset(s)[x] >= 2
  }

  /**
   * `dups` comes in the order of second occurrences: whenever a prefix of the
   * trace already repeats a later entry, it repeats every earlier one too.
   */
  ghost predicate RepeatOrder(events: seq<Label>, dups: seq<Label>)
  {
    forall i, j, n :: 0 <= i < j < |dups| && 0 <= n <= |events| && Repeats(events[..n], dups[j]) ==>
      Repeats(events[..n], dups[i])
  }

  /** The list `ev_duplicates` built over the events seen so far. */
  function RepeatedActivities(events: seq<Label>): seq<Label>
  {
    if events == [] then []
    else
      var init := events[..|events| - 1];
      var ev := events[|events| - 1];
      var d := RepeatedActivities(init);
      if ev in init && ev !in d then d + [ev] else d
  }

  /** A prefix repeats no more than a longer prefix. */
  lemma PrefixRepeats(s: seq<Label>, n: nat, m: nat, x: Label)
    requires n <= m <= |s| && Repeats(s[..n], x)
    ensures Repeats(s[..m], x)
  {
    assert s[..m] == s[..n] + s[n..m];
  }

  /**
   * The repeated activities are exactly those occurring at least twice, each
   * listed once, in the order of their second occurrences.
   */
  lemma {:induction false} RepeatedActivitiesSpec(events: seq<Label>)
    ensures var d := RepeatedActivities(events);
      (forall x :: x in d <==> Repeats(events, x)) && Distinct(d) && RepeatOrder(events, d)
  {
    if events != [] {
      var init := events[..|events| - 1];
      var ev := events[|events| - 1];
      RepeatedActivitiesSpec(init);
      var d := RepeatedActivities(init);
      var d' := RepeatedActivities(events);
      assert events == init + [ev];
      assert multiset(events) == multiset(init) + multiset{ev};
      forall x ensures x in d' <==> Repeats(events, x) {
        assert Repeats(events, x) <==> Repeats(init, x) || (x == ev && ev in multiset(init));
      }
      forall i, j, n | 0 <= i < j < |d'| && 0 <= n <= |events| && Repeats(events[..n], d'[j])
        ensures Repeats(events[..n], d'[i])
      {
        if n == |events| {
          assert events[..n] == events;
          assert d'[i] in d';
        } else {
          assert events[..n] == init[..n];
          if j == |d| {
            assert init[..|init|] == init;
            PrefixRepeats(init, n, |init|, d'[j]);
            assert false;
          }
        }
      }
    }
  }

  /** A repeated activity occurs in the trace. */
  lemma RepeatedInTrace(events: seq<Label>, x: Label)
    requires Repeats(events, x)
    ensures x in events
  {
    assert x in multiset(events);
  }

  /**
   * The first pass of `create_trace_trees`: `ev_duplicates` lists each
   * activity occurring more than once, once, in the order of its second
   * occurrence.
   */
  method Duplicates(events: seq<Label>) returns (dups: seq<Label>)
    ensures dups == RepeatedActivities(events)
    ensures (forall x :: x in dups <==> Repeats(events, x)) && Distinct(dups) && RepeatOrder(events, dups)
  {
    var executions: set<Label> := {};
    dups := [];
    for i := 0 to |events|
      invariant dups == RepeatedActivities(events[..i])
      invariant forall x :: x in executions <==> x in events[..i]
    {
      var ev := events[i];
      assert events[..i + 1][..i] == events[..i];
      if ev in executions && ev !in dups {
        dups := dups + [ev];
      } else {
        executions := executions + {ev};
      }
    }
    assert events[..|events|] == events;
    RepeatedActivitiesSpec(events);
  }

  // ---------------------------------------------------------------------------
  // generate_loop
  // ---------------------------------------------------------------------------

  /** The activities of the SEQUENCE child: the duplicates except the singled-out one. */
  function SeqChoice(duplicates: seq<Label>, choice: nat): set<Label>
  {
    set i | 0 <= i < |duplicates| && i != choice :: duplicates[i]
  }

  /**
   * The node `generate_loop` builds: a LOOP whose first two children are the
   * single node (a silent leaf when the choice is past the duplicates) and a
   * SEQUENCE of one leaf per remaining activity, in the drawn order, and whose
   * third child is a silent leaf.
   */
  ghost predicate LoopShape(loop: PTree, duplicates: seq<Label>, choice: nat, singleFirst: bool)
    requires choice <= |duplicates|
  {
    loop.operator == Some(Loop) && loop.activity.None? && |loop.children| == 3 && loop.children[2] == Tau() &&
    loop.children[if singleFirst then 0 else 1] == (if choice == |duplicates| then Tau() else Leaf(duplicates[choice])) &&
    var sq := loop.children[if singleFirst then 1 else 0];
    sq.operator == Some(Sequence) && sq.activity.None? &&
    exists order :: Distinct(order) && (forall a :: a in order <==> a in SeqChoice(duplicates, choice)) &&
      sq.children == LeavesOf(order)
  }

  /** `generate_loop`: `singleDraw` picks the singled-out activity, `orderDraw` which child comes first. */
  method GenerateLoop(duplicates: seq<Label>, singleDraw: nat, orderDraw: nat) returns (loop: PTree)
    ensures LoopShape(loop, duplicates, Randint(singleDraw, 0, |duplicates|), Randint(orderDraw, 0, 1) == 1)
  {
    var seqLength := |duplicates|;
    var singleChoice := Randint(singleDraw, 0, seqLength);
    var single := if singleChoice == seqLength then Tau() else Leaf(duplicates[singleChoice]);
    var order := Enumerate(SeqChoice(duplicates, singleChoice));
    var sq := PTree(Some(Sequence), None, LeavesOf(order));
    var children := if Randint(orderDraw, 0, 1) == 1 then [single, sq] else [sq, single];
    loop := PTree(Some(Loop), None, children + [Tau()]);
  }

  /**
   * Every duplicate appears in the loop exactly where the draw put it: as the
   * single leaf, or as a leaf of the SEQUENCE child, and nothing else does.
   */
  lemma LoopCoversDuplicates(loop: PTree, duplicates: seq<Label>, choice: nat, singleFirst: bool, a: Label)
    requires choice <= |duplicates| && LoopShape(loop, duplicates, choice, singleFirst)
    ensures a in duplicates <==>
      loop.children[if singleFirst then 0 else 1] == Leaf(a) || Leaf(a) in loop.children[if singleFirst then 1 else 0].children
  {
    var sq := loop.children[if singleFirst then 1 else 0];
    var order :| Distinct(order) && (forall a :: a in order <==> a in SeqChoice(duplicates, choice)) &&
      sq.children == LeavesOf(order);
    if a in duplicates {
      var i :| 0 <= i < |duplicates| && duplicates[i] == a;
      if i != choice {
        assert a in SeqChoice(duplicates, choice);
        var k :| 0 <= k < |order| && order[k] == a;
        assert sq.children[k] == Leaf(a);
      }
    }
    if Leaf(a) in sq.children {
      var k :| 0 <= k < |sq.children| && sq.children[k] == Leaf(a);
      assert order[k] == a;
      assert a in SeqChoice(duplicates, choice);
    }
  }

  // ---------------------------------------------------------------------------
  // create_trace_trees
  // ---------------------------------------------------------------------------

  /** The events that are not repeated activities, in trace order. */
  function Unrepeated(xs: seq<Label>, dups: seq<Label>): (r: seq<Label>)
    ensures forall x :: x in r <==> x in xs && x !in dups
  {
    if xs == [] then []
    else Unrepeated(xs[..|xs| - 1], dups) + (if xs[|xs| - 1] in dups then [] else [xs[|xs| - 1]])
  }

  /** Position of the first event that is a repeated activity (`|xs|` when there is none). */
  function FirstIn(xs: seq<Label>, dups: seq<Label>): (r: nat)
    ensures r <= |xs| && (r < |xs| ==> xs[r] in dups)
    ensures forall q :: 0 <= q < r ==> xs[q] !in dups
  {
    if xs == [] then 0 else if xs[0] in dups then 0 else 1 + FirstIn(xs[1..], dups)
  }

  /**
   * The children of a trace tree with repeated activities: the unrepeated
   * events before the first repeated one, the loop, then the unrepeated
   * events after it.
   */
  function TraceChildren(events: seq<Label>, dups: seq<Label>, loop: PTree): seq<PTree>
  {
    var p := FirstIn(events, dups);
    if p == |events| then LeavesOf(Unrepeated(events, dups))
    else LeavesOf(Unrepeated(events[..p], dups)) + [loop] + LeavesOf(Unrepeated(events[p + 1..], dups))
  }

  /** One trace's draws for `generate_loop`: the singled-out activity and the order of the two first children. */
  datatype LoopDraw = LoopDraw(single: nat, order: nat)

  /**
   * The tree `create_trace_trees` builds for one trace: a SEQUENCE of the
   * trace's events as leaves when nothing repeats, and otherwise the
   * unrepeated events with one generated LOOP at the first repeated activity.
   */
  ghost predicate IsTraceTree(events: seq<Label>, draw: LoopDraw, pt: PTree)
  {
    var dups := RepeatedActivities(events);
    pt.operator == Some(Sequence) && pt.activity.None? &&
    (|dups| == 0 ==> pt.children == LeavesOf(events)) &&
    (|dups| > 0 ==> exists loop :: LoopShape(loop, dups, Randint(draw.single, 0, |dups|), Randint(draw.order, 0, 1) == 1) &&
                                   pt.children == TraceChildren(events, dups, loop))
  }

  /** `Unrepeated` and `LeavesOf` grow by one event at a time. */
  lemma UnrepeatedSnoc(xs: seq<Label>, lo: nat, i: nat, dups: seq<Label>)
    requires lo <= i < |xs|
    ensures LeavesOf(Unrepeated(xs[lo..i + 1], dups)) ==
      LeavesOf(Unrepeated(xs[lo..i], dups)) + (if xs[i] in dups then [] else [Leaf(xs[i])])
  {
    var ys := xs[lo..i + 1];
    assert ys[..|ys| - 1] == xs[lo..i] && ys[|ys| - 1] == xs[i];
    assert Unrepeated(ys, dups) == Unrepeated(xs[lo..i], dups) + (if xs[i] in dups then [] else [xs[i]]);
    LeavesOfAppend(Unrepeated(xs[lo..i], dups), if xs[i] in dups then [] else [xs[i]]);
  }

  /**
   * The children built after the first `i` events: the unrepeated ones so
   * far, and the loop in place once the first repeated activity (at `p`) has
   * passed.
   */
  predicate Built(events: seq<Label>, dups: seq<Label>, p: nat, i: nat, hasLooped: bool, loop: PTree, children: seq<PTree>)
    requires p <= |events| && i <= |events|
  {
    (hasLooped <==> p < i) &&
    (!hasLooped ==> children == LeavesOf(Unrepeated(events[0..i], dups))) &&
    (hasLooped ==> children == LeavesOf(Unrepeated(events[0..p], dups)) + [loop] + LeavesOf(Unrepeated(events[p + 1..i], dups)))
  }

  lemma BuiltLeaf(events: seq<Label>, dups: seq<Label>, i: nat, hasLooped: bool, loop: PTree, children: seq<PTree>)
    requires i < |events| && events[i] !in dups
    requires Built(events, dups, FirstIn(events, dups), i, hasLooped, loop, children)
    ensures Built(events, dups, FirstIn(events, dups), i + 1, hasLooped, loop, children + [Leaf(events[i])])
  {
    if hasLooped {
      BuiltLeafAfter(events, dups, i, loop, children);
    } else {
      UnrepeatedSnoc(events, 0, i, dups);
    }
  }

  lemma BuiltLeafAfter(events: seq<Label>, dups: seq<Label>, i: nat, loop: PTree, children: seq<PTree>)
    requires i < |events| && events[i] !in dups
    requires Built(events, dups, FirstIn(events, dups), i, true, loop, children)
    ensures Built(events, dups, FirstIn(events, dups), i + 1, true, loop, children + [Leaf(events[i])])
  {
    var p := FirstIn(events, dups);
    UnrepeatedSnoc(events, p + 1, i, dups);
    SnocAfter(LeavesOf(Unrepeated(events[0..p], dups)), loop, LeavesOf(Unrepeated(events[p + 1..i], dups)), Leaf(events[i]));
  }

  lemma SnocAfter<T>(a: seq<T>, m: T, b: seq<T>, x: T)
    ensures a + [m] + b + [x] == a + [m] + (b + [x])
  {
  }

  lemma BuiltSkip(events: seq<Label>, dups: seq<Label>, i: nat, loop: PTree, children: seq<PTree>)
    requires i < |events| && events[i] in dups
    requires Built(events, dups, FirstIn(events, dups), i, true, loop, children)
    ensures Built(events, dups, FirstIn(events, dups), i + 1, true, loop, children)
  {
    UnrepeatedSnoc(events, FirstIn(events, dups) + 1, i, dups);
  }

  lemma BuiltLoop(events: seq<Label>, dups: seq<Label>, i: nat, loop: PTree, loop': PTree, children: seq<PTree>)
    requires i < |events| && events[i] in dups
    requires Built(events, dups, FirstIn(events, dups), i, false, loop, children)
    ensures Built(events, dups, FirstIn(events, dups), i + 1, true, loop', children + [loop'])
  {
    assert FirstIn(events, dups) == i;
    assert events[i + 1..i + 1] == [];
  }

  lemma BuiltDone(events: seq<Label>, dups: seq<Label>, hasLooped: bool, loop: PTree, children: seq<PTree>)
    requires Built(events, dups, FirstIn(events, dups), |events|, hasLooped, loop, children)
    requires FirstIn(events, dups) < |events|
    ensures hasLooped && children == TraceChildren(events, dups, loop)
  {
    var p := FirstIn(events, dups);
    assert events[0..p] == events[..p] && events[p + 1..|events|] == events[p + 1..];
  }

  /** The body of the outer loop of `create_trace_trees` for one trace. */
  method TraceTree(events: seq<Label>, draw: LoopDraw) returns (pt: PTree)
    ensures IsTraceTree(events, draw, pt)
  {
    var dups := Duplicates(events);
    if |dups| == 0 {
      pt := PTree(Some(Sequence), None, LeavesOf(events));
      return;
    }
    var children: seq<PTree> := [];
    var hasLooped := false;
    var loop := Tau();
    RepeatedInTrace(events, dups[0]);
    assert events[0..0] == [];
    for i := 0 to |events|
      invariant Built(events, dups, FirstIn(events, dups), i, hasLooped, loop, children)
      invariant hasLooped ==> LoopShape(loop, dups, Randint(draw.single, 0, |dups|), Randint(draw.order, 0, 1) == 1)
    {
      var ev := events[i];
      if ev !in dups {
        BuiltLeaf(events, dups, i, hasLooped, loop, children);
        children := children + [Leaf(ev)];
      } else if !hasLooped {
        var loop' := GenerateLoop(dups, draw.single, draw.order);
        BuiltLoop(events, dups, i, loop, loop', children);
        loop := loop';
        children := children + [loop];
        hasLooped := true;
      } else {
        BuiltSkip(events, dups, i, loop, children);
      }
    }
    BuiltDone(events, dups, hasLooped, loop, children);
    pt := PTree(Some(Sequence), None, children);
  }

  /** `create_trace_trees`: one trace tree per trace, in log order. */
  method CreateTraceTrees(log: seq<seq<Label>>, draws: seq<LoopDraw>) returns (trees: seq<PTree>)
    requires |draws| == |log|
    ensures |trees| == |log| && forall i :: 0 <= i < |log| ==> IsTraceTree(log[i], draws[i], trees[i])
  {
    trees := [];
    for i := 0 to |log|
      invariant |trees| == i && forall k :: 0 <= k < i ==> IsTraceTree(log[k], draws[k], trees[k])
    {
      var pt := TraceTree(log[i], draws[i]);
      trees := trees + [pt];
    }
  }

  /** Child `k` is a LOOP and every other child is a leaf of an activity that does not repeat. */
  predicate LoopOnlyAt(events: seq<Label>, pt: PTree, k: int)
  {
    0 <= k < |pt.children| && pt.children[k].operator == Some(Loop) &&
    forall q :: 0 <= q < |pt.children| && q != k ==>
      IsLeaf(pt.children[q]) && pt.children[q].activity.Some? && !Repeats(events, pt.children[q].activity.value)
  }

  /** The leaves of unrepeated events are labelled leaves of activities outside `dups`. */
  lemma UnrepeatedLeaf(xs: seq<Label>, dups: seq<Label>, q: nat)
    requires q < |LeavesOf(Unrepeated(xs, dups))|
    ensures var c := LeavesOf(Unrepeated(xs, dups))[q];
      IsLeaf(c) && c.activity.Some? && c.activity.value !in dups
  {
    assert Unrepeated(xs, dups)[q] in Unrepeated(xs, dups);
  }

  /** The loop sits after the unrepeated events before the first repeated one; every other child is such a leaf. */
  lemma TraceChildrenShape(events: seq<Label>, dups: seq<Label>, loop: PTree)
    requires FirstIn(events, dups) < |events|
    ensures var cs := TraceChildren(events, dups, loop);
      var k := |LeavesOf(Unrepeated(events[..FirstIn(events, dups)], dups))|;
      k < |cs| && cs[k] == loop &&
      forall q :: 0 <= q < |cs| && q != k ==>
        IsLeaf(cs[q]) && cs[q].activity.Some? && cs[q].activity.value !in dups
  {
    var p := FirstIn(events, dups);
    var before := LeavesOf(Unrepeated(events[..p], dups));
    var after := LeavesOf(Unrepeated(events[p + 1..], dups));
    var cs := TraceChildren(events, dups, loop);
    assert cs == before + [loop] + after;
    var k := |before|;
    forall q | 0 <= q < |cs| && q != k
      ensures IsLeaf(cs[q]) && cs[q].activity.Some? && cs[q].activity.value !in dups
    {
      if q < k {
        UnrepeatedLeaf(events[..p], dups, q);
      } else {
        UnrepeatedLeaf(events[p + 1..], dups, q - k - 1);
      }
    }
  }

  /**
   * A trace tree with repeated activities has exactly one operator child, the
   * LOOP, and every other child is a leaf of an activity that does not repeat.
   */
  lemma TraceTreeOneLoop(events: seq<Label>, draw: LoopDraw, pt: PTree)
    requires IsTraceTree(events, draw, pt) && |RepeatedActivities(events)| > 0
    ensures exists k :: LoopOnlyAt(events, pt, k)
  {
    var dups := RepeatedActivities(events);
    RepeatedActivitiesSpec(events);
    assert dups[0] in dups;
    var loop :| LoopShape(loop, dups, Randint(draw.single, 0, |dups|), Randint(draw.order, 0, 1) == 1) &&
                pt.children == TraceChildren(events, dups, loop);
    RepeatedInTrace(events, dups[0]);
    TraceChildrenShape(events, dups, loop);
    var k := |LeavesOf(Unrepeated(events[..FirstIn(events, dups)], dups))|;
    assert LoopOnlyAt(events, pt, k);
  }

  // ---------------------------------------------------------------------------
  // Random trees
  // ---------------------------------------------------------------------------

  /** `operators`: the operators random generation draws from (OR is never drawn). */
  const DrawnOperators: seq<Operator> := [Sequence, Xor, Parallel, Loop]

  /** A node as `random_selection` makes it: no children, and either a drawn operator or a log label. */
  predicate Drawn(n: PTree, labels: seq<Label>)
  {
    n.children == [] &&
    if n.activity.Some? then n.operator.None? && n.activity.value in labels
    else n.operator.Some? && n.operator.value in DrawnOperators
  }

  /**
   * A randomly grown tree: a leaf labelled by a log activity, or a drawn
   * operator with exactly two grown children.
   */
  predicate Grown(t: PTree, labels: seq<Label>)
    decreases t
  {
    if t.activity.Some? then t.operator.None? && t.children == [] && t.activity.value in labels
    else t.operator.Some? && t.operator.value in DrawnOperators && |t.children| == 2 &&
         Grown(t.children[0], labels) && Grown(t.children[1], labels)
  }

  /**
   * `random_selection` with its two draws: operator or activity, then which
   * one.  Drawing an activity from an empty label list is the error `None`.
   */
  function RandomSelection(labels: seq<Label>, opDraw: nat, idDraw: nat): (n: Option<PTree>)
    ensures n.None? <==> Randint(opDraw, 0, 1) == 0 && |labels| == 0
    ensures n.Some? ==> Drawn(n.value, labels) && (n.value.operator.Some? <==> Randint(opDraw, 0, 1) == 1)
  {
    if Randint(opDraw, 0, 1) == 1 then Some(PTree(Some(DrawnOperators[Randint(idDraw, 0, |DrawnOperators| - 1)]), None, []))
    else if |labels| == 0 then None
    else Some(Leaf(labels[Randint(idDraw, 0, |labels| - 1)]))
  }

  /**
   * `generate_tree`: a labelled node is returned as it is; an unlabelled one
   * gets random children appended, each grown in turn, until it has two.
   * `ok` is false when the draws run out or an activity is drawn from no labels.
   */
  method GenerateTree(node: PTree, labels: seq<Label>, draws: seq<nat>) returns (t: PTree, rest: seq<nat>, ok: bool)
    ensures |rest| <= |draws|
    ensures node.activity.Some? ==> t == node && ok
    ensures t.operator == node.operator && t.activity == node.activity
    ensures |t.children| >= |node.children| && t.children[..|node.children|] == node.children
    ensures ok && node.activity.None? ==> |t.children| == if |node.children| < 2 then 2 else |node.children|
    ensures ok ==> forall i :: |node.children| <= i < |t.children| ==> Grown(t.children[i], labels)
    ensures ok && Drawn(node, labels) ==> Grown(t, labels)
    decreases |draws|
  {
    t, rest, ok := node, draws, true;
    if node.activity.Some? {
      return;
    }
    var children := node.children;
    while |children| < 2
      invariant |rest| <= |draws|
      invariant |children| >= |node.children| && children[..|node.children|] == node.children
      invariant |node.children| >= 2 ==> children == node.children
      invariant ok ==> forall i :: |node.children| <= i < |children| ==> Grown(children[i], labels)
      invariant ok && |node.children| < 2 ==> |children| <= 2
      invariant !ok ==> |children| <= 2
      decreases 2 - |children|, if ok then 1 else 0
    {
      if |rest| < 2 {
        ok := false;
        break;
      }
      var sel := RandomSelection(labels, rest[0], rest[1]);
      if sel.None? {
        ok := false;
        break;
      }
      var sub, rest', subOk := GenerateTree(sel.value, labels, rest[2..]);
      children := children + [sub];
      rest := rest';
      if !subOk {
        ok := false;
        break;
      }
    }
    t := PTree(node.operator, node.activity, children);
  }

  /** `random_generation`: a drawn root, grown when it is not an activity. */
  method RandomGeneration(labels: seq<Label>, draws: seq<nat>) returns (t: Option<PTree>)
    ensures t.Some? ==> Grown(t.value, labels)
  {
    if |draws| < 2 {
      return None;
    }
    var root := RandomSelection(labels, draws[0], draws[1]);
    if root.None? {
      return None;
    }
    var grown, _, ok := GenerateTree(root.value, labels, draws[2..]);
    t := if ok then Some(grown) else None;
  }

  /** A grown tree is well formed, and only log activities label it. */
  lemma {:induction false} GrownWellFormed(t: PTree, labels: seq<Label>)
    requires Grown(t, labels)
    ensures WellFormed(t) && |t.children| <= 2
    ensures t.activity.Some? ==> t.activity.value in labels
    decreases t
  {
    if t.activity.None? {
      GrownWellFormed(t.children[0], labels);
      GrownWellFormed(t.children[1], labels);
      assert forall i :: 0 <= i < |t.children| ==> t.children[i] == t.children[0] || t.children[i] == t.children[1];
    }
  }

  /** A grown tree is a full binary tree: one leaf more than it has operator nodes, so an odd size. */
  lemma {:induction false} GrownSizeOdd(t: PTree, labels: seq<Label>)
    requires Grown(t, labels)
    ensures Size(t) % 2 == 1
    decreases t
  {
    if t.activity.None? {
      GrownSizeOdd(t.children[0], labels);
      GrownSizeOdd(t.children[1], labels);
      assert t.children[1..][1..] == [];
      assert SizeOf(t.children[1..]) == Size(t.children[1]) + SizeOf(t.children[1..][1..]);
      assert SizeOf(t.children) == Size(t.children[0]) + Size(t.children[1]);
    } else {
      assert SizeOf(t.children) == 0;
    }
  }

  // ---------------------------------------------------------------------------
  // single_trace_model
  // ---------------------------------------------------------------------------

  /** The ids `0 .. n - 1`. */
  function Ids(n: nat): (r: set<nat>)
    ensures forall k :: k in r <==> 0 <= k < n
  {
    if n == 0 then {} else Ids(n - 1) + {n - 1}
  }

  /** Fewer used ids than traces leave a trace unused. */
  lemma {:induction false} UnusedExists(n: nat, used: set<nat>) returns (k: nat)
    requires used <= Ids(n) && |used| < n
    ensures k < n && k !in used
  {
    if n - 1 in used {
      var fewer := used - {n - 1};
      forall x | x in fewer
        ensures x in Ids(n - 1)
      {
        assert x in Ids(n) && x != n - 1;
      }
      k := UnusedExists(n - 1, fewer);
    } else {
      k := n - 1;
    }
  }

  /**
   * The id `single_trace_model` hands out: the drawn entry of the ids not yet
   * used, in some order (the source lists a set, whose order is not fixed).
   */
  method PickUnused(n: nat, used: set<nat>, selectorDraw: nat) returns (id: nat)
    requires used <= Ids(n) && |used| < n
    ensures id < n && id !in used
  {
    ghost var k := UnusedExists(n, used);
    var remainingIds := Enumerate(Ids(n) - used);
    assert k in remainingIds;
    var selector := Randint(selectorDraw, 0, |remainingIds| - 1);
    id := remainingIds[selector];
    assert id in Ids(n) - used;
  }

  /**
   * The entries `single_trace_model` keeps in the parameters dictionary: the
   * trace trees, built on first use, and the ids of the traces handed out.
   */
  class TraceCache {
    var traceTrees: Option<seq<PTree>>
    var traceIdUsed: Option<set<nat>>

    constructor ()
      ensures traceTrees == None && traceIdUsed == None
    {
      traceTrees := None;
      traceIdUsed := None;
    }

    /** The cache fits a log of `n` traces: one tree per trace, used ids among the traces. */
    predicate Valid(n: nat)
      reads this
    {
      (traceTrees.Some? ==> |traceTrees.value| == n) &&
      (traceIdUsed.Some? ==> traceIdUsed.value <= Ids(n))
    }

    /** The ids handed out so far. */
    function Used(): set<nat>
      reads this
    {
      if traceIdUsed.Some? then traceIdUsed.value else {}
    }

    /**
     * `single_trace_model`: the tree of a trace not handed out before, marked
     * as used; once every trace is used, a random tree.
     */
    method SingleTraceModel(log: seq<seq<Label>>, labels: seq<Label>, loopDraws: seq<LoopDraw>,
                            selectorDraw: nat, randomDraws: seq<nat>)
      returns (tree: Option<PTree>, id: nat)
      modifies this
      requires |loopDraws| == |log| && Valid(|log|)
      ensures Valid(|log|) && traceTrees.Some? && traceIdUsed.Some?
      ensures old(traceTrees).Some? ==> traceTrees == old(traceTrees)
      ensures old(traceTrees).None? ==>
        forall i :: 0 <= i < |log| ==> IsTraceTree(log[i], loopDraws[i], traceTrees.value[i])
      ensures old(|Used()|) >= |log| ==> Used() == old(Used()) && (tree.Some? ==> Grown(tree.value, labels))
      ensures old(|Used()|) < |log| ==>
        id < |log| && id !in old(Used()) && Used() == old(Used()) + {id} && tree == Some(traceTrees.value[id])
    {
      id := 0;
      if traceTrees.None? {
        var trees := CreateTraceTrees(log, loopDraws);
        traceTrees := Some(trees);
      }
      if traceIdUsed.None? {
        traceIdUsed := Some({});
      }
      var used := traceIdUsed.value;
      if |used| >= |log| {
        tree := RandomGeneration(labels, randomDraws);
        return;
      }
      id := PickUnused(|log|, used, selectorDraw);
      traceIdUsed := Some(used + {id});
      tree := Some(traceTrees.value[id]);
    }
  }

  // ---------------------------------------------------------------------------
  // generate_initial_population
  // ---------------------------------------------------------------------------

  /** The distinct trees of `xs` in order of first appearance. */
  function Dedup(xs: seq<PTree>): seq<PTree>
  {
    if xs == [] then []
    else
      var d := Dedup(xs[..|xs| - 1]);
      if xs[|xs| - 1] in d then d else d + [xs[|xs| - 1]]
  }

  /** The deduplicated list holds each tree of the input once and nothing else. */
  lemma {:induction false} DedupSpec(xs: seq<PTree>)
    ensures Distinct(Dedup(xs)) && forall x :: x in Dedup(xs) <==> x in xs
  {
    if xs != [] {
      DedupSpec(xs[..|xs| - 1]);
      assert xs == xs[..|xs| - 1] + [xs[|xs| - 1]];
    }
  }

  /**
   * The inner loop of `generate_initial_population`: the variant's next
   * result that the population does not hold yet.
   */
  method NextNew(candidates: seq<PTree>, start: nat, trees: set<PTree>, ghost chosen: seq<PTree>)
    returns (found: bool, tree: PTree, next: nat)
    requires start <= |candidates| && chosen == Dedup(candidates[..start])
    requires forall t :: t in trees <==> t in chosen
    ensures start <= next <= |candidates|
    ensures found ==> tree !in trees && chosen + [tree] == Dedup(candidates[..next])
    ensures !found ==> next == |candidates| && chosen == Dedup(candidates[..next])
  {
    next := start;
    while next < |candidates|
      invariant start <= next <= |candidates| && chosen == Dedup(candidates[..next])
    {
      var c := candidates[next];
      assert candidates[..next + 1][..next] == candidates[..next];
      next := next + 1;
      if c !in trees {
        return true, c, next;
      }
    }
    return false, Tau(), next;
  }

  /**
   * `generate_initial_population`: `size` new individuals with ids `0 ..
   * size - 1`, each holding the next tree the variant yields that the
   * population does not hold yet.  The variant's successive results are
   * `candidates`; `ok` is false when they run out first (the source would go
   * on calling the variant).
   */
  method GenerateInitialPopulation(labels: seq<Label>, size: nat, candidates: seq<PTree>)
    returns (population: seq<Individual>, ok: bool, ghost consumed: nat)
    ensures consumed <= |candidates|
    ensures forall i :: 0 <= i < |population| ==>
      fresh(population[i]) && population[i].id == i && population[i].logActivities == labels
    ensures forall i, j :: 0 <= i < j < |population| ==> population[i] != population[j]
    ensures |population| <= size && (ok <==> |population| == size)
    ensures |population| == |Dedup(candidates[..consumed])| &&
      forall i :: 0 <= i < |population| ==> population[i].tree == Dedup(candidates[..consumed])[i]
    ensures !ok ==> consumed == |candidates|
  {
    population := [];
    ghost var chosen: seq<PTree> := [];
    var trees: set<PTree> := {};
    var next := 0;
    ok := true;
    consumed := 0;
    for treeid := 0 to size
      invariant next <= |candidates| && |population| == treeid && consumed == next
      invariant chosen == Dedup(candidates[..next]) && |chosen| == treeid
      invariant forall t :: t in trees <==> t in chosen
      invariant forall i :: 0 <= i < treeid ==>
        fresh(population[i]) && population[i].id == i && population[i].logActivities == labels &&
        population[i].tree == chosen[i]
      invariant forall i, j :: 0 <= i < j < treeid ==> population[i] != population[j]
    {
      var found, newTree, next' := NextNew(candidates, next, trees, chosen);
      next := next';
      consumed := next;
      if !found {
        ok := false;
        return;
      }
      var individual := new Individual(treeid, labels, newTree);
      population := population + [individual];
      chosen := chosen + [newTree];
      trees := trees + {newTree};
    }
  }
}
