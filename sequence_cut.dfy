/**
 * Sequence-cut detection of the inductive miner ("im_clean" variant) and the
 * projection of a log onto the groups of a cut.
 *
 * The alphabet is a set of activities; it is modelled as the order in which
 * `product(alphabet, alphabet)` visits it, a list without repetitions.  A group
 * of the cut is a set of activities and the cut is a list of groups.  The
 * transitive predecessor and successor relations of the directly-follows graph
 * are maps from an activity to the set of activities before / after it.
 */
module SequenceCut {
  import opened Wrappers
  import opened ProcessTrees
  import opened Sequences

  type Group = set<Label>
  type Relation = map<Label, set<Label>>

  /** The activities of the alphabet as a set. */
  function ActivitySet(alphabet: seq<Label>): set<Label>
  {
    set a | a in alphabet
  }

  /** Every activity of the alphabet has an entry in the relation. */
  predicate Covers(rel: Relation, alphabet: seq<Label>)
  {
    forall a :: a in alphabet ==> a in rel
  }

  /** The set of activities occurring in some group. */
  function Union(gs: seq<Group>): (u: set<Label>)
    ensures forall k :: 0 <= k < |gs| ==> gs[k] <= u
  {
    if |gs| == 0 then {} else gs[0] + Union(gs[1..])
  }

  /** No group is listed twice. */
  predicate NoDup(gs: seq<Group>)
  {
    |gs| == 0 || (gs[0] !in gs[1..] && NoDup(gs[1..]))
  }

  /** Different groups share no activity. */
  predicate Disjoint(gs: seq<Group>)
  {
    forall g, h :: g in gs && h in gs && g != h ==> g !! h
  }

  /** The groups are non-empty, pairwise disjoint, listed once, and cover exactly `alphabet`. */
  predicate Partition(gs: seq<Group>, alphabet: set<Label>)
  {
    (forall g :: g in gs ==> g != {}) && Disjoint(gs) && NoDup(gs) && Union(gs) == alphabet
  }

  /** Activities `a` and `b` sit in a common group. */
  predicate Together(gs: seq<Group>, a: Label, b: Label)
  {
    exists g :: g in gs && a in g && b in g
  }

  /**
   * The condition under which the cut puts `a` and `b` together: each reaches
   * the other, or neither reaches the other.
   */
  predicate Related(succ: Relation, a: Label, b: Label)
    requires a in succ && b in succ
  {
    (b in succ[a] && a in succ[b]) || (b !in succ[a] && a !in succ[b])
  }

  /** Some activity of `part` is related to an activity of `g` outside `part`. */
  ghost predicate Bridged(succ: Relation, g: Group, part: set<Label>)
  {
    exists p, q :: p in part && q in g && q !in part && p in succ && q in succ && Related(succ, p, q)
  }

  /**
   * The group cannot be split into two non-empty sides without a related
   * pair across them: it is connected by the relation.
   */
  ghost predicate Connected(succ: Relation, g: Group)
  {
    forall part :: part < g && part != {} ==> Bridged(succ, g, part)
  }

  /** Every group is connected by the relation. */
  ghost predicate AllConnected(succ: Relation, gs: seq<Group>)
  {
    forall g :: g in gs ==> Connected(succ, g)
  }

  lemma UnionMember(gs: seq<Group>, a: Label)
    ensures a in Union(gs) <==> exists g :: g in gs && a in g
  {
    if |gs| > 0 {
      UnionMember(gs[1..], a);
      if a in Union(gs[1..]) {
        var g :| g in gs[1..] && a in g;
        assert g in gs;
      }
    }
  }

  /** The initial cut: one singleton group per activity, in alphabet order. */
  function Singletons(alphabet: seq<Label>): (gs: seq<Group>)
    ensures |gs| == |alphabet|
    ensures forall k :: 0 <= k < |gs| ==> gs[k] == {alphabet[k]}
  {
    if |alphabet| == 0 then [] else [{alphabet[0]}] + Singletons(alphabet[1..])
  }

  lemma {:induction false} SingletonsUnion(alphabet: seq<Label>)
    ensures Union(Singletons(alphabet)) == ActivitySet(alphabet)
  {
    if |alphabet| > 0 {
      var rest := alphabet[1..];
      SingletonsUnion(rest);
      assert Singletons(alphabet)[1..] == Singletons(rest);
      assert alphabet == [alphabet[0]] + rest;
      assert (ActivitySet(alphabet)) == {alphabet[0]} + ActivitySet(rest);
    }
  }

  lemma {:induction false} SingletonsNoDup(alphabet: seq<Label>)
    requires Distinct(alphabet)
    ensures NoDup(Singletons(alphabet))
  {
    if |alphabet| > 0 {
      var gs := Singletons(alphabet);
      var rest := alphabet[1..];
      SingletonsNoDup(rest);
      assert gs[1..] == Singletons(rest);
      assert {alphabet[0]} !in gs[1..] by {
        forall k | 0 <= k < |gs[1..]| ensures gs[1..][k] != {alphabet[0]} {
          assert gs[1..][k] == {alphabet[k + 1]};
          assert alphabet[0] != alphabet[k + 1];
        }
      }
    }
  }

  /** The singleton groups of a list without repetitions partition its activities. */
  lemma SingletonsPartition(alphabet: seq<Label>)
    requires Distinct(alphabet)
    ensures Partition(Singletons(alphabet), ActivitySet(alphabet))
  {
    var gs := Singletons(alphabet);
    SingletonsUnion(alphabet);
    SingletonsNoDup(alphabet);
    SingletonsDisjoint(alphabet);
  }

  /** A single activity is trivially connected. */
  lemma SingletonsConnected(succ: Relation, alphabet: seq<Label>)
    ensures AllConnected(succ, Singletons(alphabet))
  {
    var gs := Singletons(alphabet);
    forall g | g in gs ensures Connected(succ, g) {
      var i :| 0 <= i < |gs| && gs[i] == g;
      forall part ensures part <= g ==> part == {} || part == g {
        SingletonParts(part, alphabet[i]);
      }
    }
  }

  /** The only subsets of a singleton are the empty set and itself. */
  lemma SingletonParts(part: set<Label>, x: Label)
    ensures part <= {x} ==> part == {} || part == {x}
  {
    if part != {} && part <= {x} {
      var y :| y in part;
      assert y == x;
    }
  }

  lemma SingletonsDisjoint(alphabet: seq<Label>)
    ensures Disjoint(Singletons(alphabet))
  {
    var gs := Singletons(alphabet);
    forall g, h | g in gs && h in gs && g != h ensures g !! h {
      var i :| 0 <= i < |gs| && gs[i] == g;
      var j :| 0 <= j < |gs| && gs[j] == h;
      assert g == {alphabet[i]} && h == {alphabet[j]};
    }
  }

  /**
   * The group holding `a`: the loop over the groups keeps the last one
   * containing it, or none.
   */
  function GroupOf(gs: seq<Group>, a: Label): (r: Option<Group>)
    ensures r.Some? ==> r.value in gs && a in r.value
    ensures r.None? ==> forall g :: g in gs ==> a !in g
  {
    if |gs| == 0 then None
    else match GroupOf(gs[1..], a)
      case Some(g) => Some(g)
      case None => if a in gs[0] then Some(gs[0]) else None
  }

  /** The groups other than `x` and `y`, in their order. */
  function Without(gs: seq<Group>, x: Group, y: Group): (r: seq<Group>)
    ensures forall g :: g in r <==> g in gs && g != x && g != y
  {
    if |gs| == 0 then []
    else (if gs[0] != x && gs[0] != y then [gs[0]] else []) + Without(gs[1..], x, y)
  }

  lemma {:induction false} WithoutNoDup(gs: seq<Group>, x: Group, y: Group)
    requires NoDup(gs)
    ensures NoDup(Without(gs, x, y))
  {
    if |gs| > 0 {
      WithoutNoDup(gs[1..], x, y);
      var r := Without(gs, x, y);
      if gs[0] != x && gs[0] != y {
        assert r == [gs[0]] + Without(gs[1..], x, y);
        assert r[1..] == Without(gs[1..], x, y);
      } else {
        assert r == Without(gs[1..], x, y);
      }
    }
  }

  /**
   * Merging the groups of `a` and `b`: both are dropped from the list and
   * their union is put in front.
   */
  function Merge(gs: seq<Group>, a: Label, b: Label): (r: seq<Group>)
    requires a in Union(gs) && b in Union(gs)
  {
    UnionMember(gs, a);
    UnionMember(gs, b);
    var ga := GroupOf(gs, a).value;
    var gb := GroupOf(gs, b).value;
    [ga + gb] + Without(gs, ga, gb)
  }

  /**
   * Merging keeps a partition of the same alphabet, puts `a` and `b`
   * together, and separates no activities that were together.
   */
  lemma MergeOk(gs: seq<Group>, alphabet: set<Label>, a: Label, b: Label)
    requires Partition(gs, alphabet) && a in alphabet && b in alphabet
    ensures Partition(Merge(gs, a, b), alphabet)
    ensures Together(Merge(gs, a, b), a, b)
    ensures forall x, y :: Together(gs, x, y) ==> Together(Merge(gs, a, b), x, y)
    ensures forall x, y :: Together(Merge(gs, a, b), x, y) ==>
              Together(gs, x, y) ||
              ((Together(gs, x, a) || Together(gs, x, b)) && (Together(gs, y, a) || Together(gs, y, b)))
  {
    UnionMember(gs, a);
    UnionMember(gs, b);
    var ga := GroupOf(gs, a).value;
    var gb := GroupOf(gs, b).value;
    var rest := Without(gs, ga, gb);
    var r := Merge(gs, a, b);
    assert r == [ga + gb] + rest;
    assert ga + gb in r;
    assert ga + gb !in rest;
    WithoutNoDup(gs, ga, gb);
    assert r[1..] == rest;
    forall g, h | g in r && h in r && g != h ensures g !! h {
      if g == ga + gb {
        assert h in rest;
      } else if h == ga + gb {
        assert g in rest;
      }
    }
    forall x | x in Union(r) ensures x in alphabet {
      UnionMember(r, x);
      var g :| g in r && x in g;
      if g != ga + gb {
        assert g in rest;
        UnionMember(gs, x);
      } else {
        UnionMember(gs, x);
      }
    }
    forall x | x in alphabet ensures x in Union(r) {
      UnionMember(gs, x);
      var g :| g in gs && x in g;
      UnionMember(r, x);
      if g == ga || g == gb {
        assert x in ga + gb;
      } else {
        assert g in rest;
      }
    }
    forall x, y | Together(gs, x, y) ensures Together(r, x, y) {
      var g :| g in gs && x in g && y in g;
      if g == ga || g == gb {
        assert ga + gb in r;
      } else {
        assert g in rest;
      }
    }
    forall x, y | Together(r, x, y)
      ensures Together(gs, x, y) ||
              ((Together(gs, x, a) || Together(gs, x, b)) && (Together(gs, y, a) || Together(gs, y, b)))
    {
      var g :| g in r && x in g && y in g;
      if g != ga + gb {
        assert g in rest;
      } else {
        assert x in ga ==> Together(gs, x, a);
        assert x in gb ==> Together(gs, x, b);
        assert y in ga ==> Together(gs, y, a);
        assert y in gb ==> Together(gs, y, b);
      }
    }
  }

  /**
   * Merging the groups of a related pair keeps every group connected: a
   * split of the merged group either splits one of the two old groups, or
   * puts `a` and `b` on different sides.
   */
  lemma MergeConnected(gs: seq<Group>, alphabet: set<Label>, succ: Relation, a: Label, b: Label)
    requires Partition(gs, alphabet) && a in alphabet && b in alphabet
    requires a in succ && b in succ && Related(succ, a, b)
    requires AllConnected(succ, gs)
    ensures AllConnected(succ, Merge(gs, a, b))
  {
    UnionMember(gs, a);
    UnionMember(gs, b);
    var ga := GroupOf(gs, a).value;
    var gb := GroupOf(gs, b).value;
    var r := Merge(gs, a, b);
    assert r == [ga + gb] + Without(gs, ga, gb);
    forall g | g in r ensures Connected(succ, g) {
      if g != ga + gb {
        assert g in Without(gs, ga, gb);
      } else {
        forall part | part < g && part != {} ensures Bridged(succ, g, part) {
          MergedSplit(succ, ga, gb, part, a, b);
        }
      }
    }
  }

  /**
   * The case analysis of `MergeConnected` for one split of `ga + gb`: the
   * related pair `a`, `b` crosses it, or it splits `ga` or `gb`.
   */
  lemma MergedSplit(succ: Relation, ga: Group, gb: Group, part: set<Label>, a: Label, b: Label)
    requires Connected(succ, ga) && Connected(succ, gb)
    requires a in ga && b in gb && a in succ && b in succ && Related(succ, a, b)
    requires part < ga + gb && part != {}
    ensures Bridged(succ, ga + gb, part)
  {
    var g := ga + gb;
    var x :| x in part;
    assert exists y :: y in g && y !in part;
    var y :| y in g && y !in part;
    if a in part && b !in part {
      assert b in g;
    } else if b in part && a !in part {
      assert a in g && Related(succ, b, a);
    } else if a in part {
      if y in ga {
        BridgeInside(succ, ga, g, part, a, y);
      } else {
        BridgeInside(succ, gb, g, part, b, y);
      }
    } else {
      if x in ga {
        BridgeInside(succ, ga, g, part, x, a);
      } else {
        BridgeInside(succ, gb, g, part, x, b);
      }
    }
  }

  /** A split of a connected part `g` of `big` is bridged inside `g`. */
  lemma BridgeInside(succ: Relation, g: Group, big: Group, part: set<Label>, p: Label, q: Label)
    requires Connected(succ, g) && g <= big
    requires p in g && p in part && q in g && q !in part
    ensures Bridged(succ, big, part)
  {
    var pg := part * g;
    assert p in pg && q !in pg;
    assert Bridged(succ, g, pg);
    var u, v :| u in pg && v in g && v !in pg && u in succ && v in succ && Related(succ, u, v);
    assert u in part && v in big && v !in part;
  }

  /** Every related pair among the first `i` activities (against all) and the `j` first partners of activity `i` is together. */
  predicate MergedSoFar(alphabet: seq<Label>, succ: Relation, gs: seq<Group>, i: nat, j: nat)
    requires Covers(succ, alphabet)
  {
    forall p, q ::
      (0 <= p < |alphabet| && 0 <= q < |alphabet| && (p < i || (p == i && q < j)) &&
       Related(succ, alphabet[p], alphabet[q])) ==> Together(gs, alphabet[p], alphabet[q])
  }

  /** Handling the pair (`i`, `j`) extends the merged pairs by that one. */
  lemma MergeStep(alphabet: seq<Label>, succ: Relation, gs: seq<Group>, i: nat, j: nat)
    requires Distinct(alphabet) && Covers(succ, alphabet)
    requires i < |alphabet| && j < |alphabet|
    requires Partition(gs, ActivitySet(alphabet)) && MergedSoFar(alphabet, succ, gs, i, j)
    requires AllConnected(succ, gs)
    ensures Related(succ, alphabet[i], alphabet[j]) ==>
      var next := Merge(gs, alphabet[i], alphabet[j]);
      Partition(next, ActivitySet(alphabet)) && MergedSoFar(alphabet, succ, next, i, j + 1) &&
      AllConnected(succ, next)
    ensures !Related(succ, alphabet[i], alphabet[j]) ==> MergedSoFar(alphabet, succ, gs, i, j + 1)
  {
    if Related(succ, alphabet[i], alphabet[j]) {
      MergeOk(gs, ActivitySet(alphabet), alphabet[i], alphabet[j]);
      MergeConnected(gs, ActivitySet(alphabet), succ, alphabet[i], alphabet[j]);
    }
  }

  /** Finishing the partners of activity `i` moves on to activity `i + 1`. */
  lemma NextActivity(alphabet: seq<Label>, succ: Relation, gs: seq<Group>, i: nat)
    requires Covers(succ, alphabet) && MergedSoFar(alphabet, succ, gs, i, |alphabet|)
    ensures MergedSoFar(alphabet, succ, gs, i + 1, 0)
  {
  }

  /**
   * Steps 1 to 3 of the cut: a singleton group per activity, then the groups
   * of every mutually reachable or mutually unreachable pair are merged.  The
   * result is the partition into the connected components of `Related`:
   * related activities end up together, and no group can be split without
   * separating a related pair.
   */
  method MergeGroups(alphabet: seq<Label>, succ: Relation) returns (groups: seq<Group>)
    requires Distinct(alphabet) && Covers(succ, alphabet)
    ensures Partition(groups, ActivitySet(alphabet))
    ensures forall a, b :: a in alphabet && b in alphabet && Related(succ, a, b) ==> Together(groups, a, b)
    ensures AllConnected(succ, groups)
  {
    groups := Singletons(alphabet);
    SingletonsPartition(alphabet);
    SingletonsConnected(succ, alphabet);
    for i := 0 to |alphabet|
      invariant Partition(groups, ActivitySet(alphabet))
      invariant MergedSoFar(alphabet, succ, groups, i, 0)
      invariant AllConnected(succ, groups)
    {
      for j := 0 to |alphabet|
        invariant Partition(groups, ActivitySet(alphabet))
        invariant MergedSoFar(alphabet, succ, groups, i, j)
        invariant AllConnected(succ, groups)
      {
        var a, b := alphabet[i], alphabet[j];
        MergeStep(alphabet, succ, groups, i, j);
        if (b in succ[a] && a in succ[b]) || (b !in succ[a] && a !in succ[b]) {
          groups := Merge(groups, a, b);
        }
      }
      NextActivity(alphabet, succ, groups, i);
    }
    AllMerged(alphabet, succ, groups);
  }

  lemma AllMerged(alphabet: seq<Label>, succ: Relation, gs: seq<Group>)
    requires Covers(succ, alphabet) && MergedSoFar(alphabet, succ, gs, |alphabet|, 0)
    ensures forall a, b :: a in alphabet && b in alphabet && Related(succ, a, b) ==> Together(gs, a, b)
  {
    forall a, b | a in alphabet && b in alphabet && Related(succ, a, b) ensures Together(gs, a, b) {
      var p :| 0 <= p < |alphabet| && alphabet[p] == a;
      var q :| 0 <= q < |alphabet| && alphabet[q] == b;
    }
  }

  /** The sort key of a group with representative `rep`. */
  function Rank(pred: Relation, succ: Relation, n: nat, rep: Label): int
    requires rep in pred && rep in succ
  {
    |pred[rep]| + (n - |succ[rep]|)
  }

  /** Ascending by the key of each group. */
  predicate SortedBy(gs: seq<Group>, keys: map<Group, int>)
  {
    (forall g :: g in gs ==> g in keys) &&
    forall i, j :: 0 <= i < j < |gs| ==> keys[gs[i]] <= keys[gs[j]]
  }

  /** Puts `g` into a list sorted by key, before the first larger key. */
  function InsertByKey(g: Group, gs: seq<Group>, keys: map<Group, int>): (r: seq<Group>)
    requires g in keys && SortedBy(gs, keys)
    ensures multiset(r) == multiset(gs) + multiset{g}
    ensures SortedBy(r, keys)
  {
    if |gs| == 0 || keys[g] <= keys[gs[0]] then [g] + gs
    else
      var tail := InsertByKey(g, gs[1..], keys);
      assert gs == [gs[0]] + gs[1..];
      SortedHeadLeast(gs, keys);
      forall h | h in tail ensures keys[gs[0]] <= keys[h] {
        assert h in multiset(tail);
        if h != g {
          assert h in multiset(gs[1..]);
        }
      }
      SortedCons(gs[0], tail, keys);
      [gs[0]] + tail
  }

  lemma SortedHeadLeast(gs: seq<Group>, keys: map<Group, int>)
    requires SortedBy(gs, keys) && |gs| > 0
    ensures SortedBy(gs[1..], keys)
    ensures forall h :: h in gs[1..] ==> keys[gs[0]] <= keys[h]
  {
    forall h | h in gs[1..] ensures keys[gs[0]] <= keys[h] {
      var m :| 0 <= m < |gs[1..]| && gs[1..][m] == h;
      assert gs[m + 1] == h;
    }
  }

  lemma SortedCons(x: Group, gs: seq<Group>, keys: map<Group, int>)
    requires SortedBy(gs, keys) && x in keys
    requires forall h :: h in gs ==> keys[x] <= keys[h]
    ensures SortedBy([x] + gs, keys)
  {
    var r := [x] + gs;
    forall i, j | 0 <= i < j < |r| ensures keys[r[i]] <= keys[r[j]] {
      assert r[j] == gs[j - 1];
      if i > 0 {
        assert r[i] == gs[i - 1];
      }
    }
  }

  /** A stable insertion sort by key, standing for `sorted(groups, key=...)`. */
  function SortByKey(gs: seq<Group>, keys: map<Group, int>): (r: seq<Group>)
    requires forall g :: g in gs ==> g in keys
    ensures multiset(r) == multiset(gs)
    ensures SortedBy(r, keys)
  {
    if |gs| == 0 then []
    else
      assert gs == [gs[0]] + gs[1..];
      InsertByKey(gs[0], SortByKey(gs[1..], keys), keys)
  }

  /**
   * The returned groups ascend by the rank of a representative `reps[g]` of
   * each group `g`.
   */
  predicate Ranked(gs: seq<Group>, reps: map<Group, Label>, pred: Relation, succ: Relation, n: nat)
  {
    (forall g :: g in gs ==> g in reps && reps[g] in g && reps[g] in pred && reps[g] in succ) &&
    forall i, j :: 0 <= i < j < |gs| ==> Rank(pred, succ, n, reps[gs[i]]) <= Rank(pred, succ, n, reps[gs[j]])
  }

  /** The sort key of every group, ranked by an arbitrary member `reps[g]` of each. */
  method RankGroups(groups: seq<Group>, pred: Relation, succ: Relation, n: nat)
    returns (keys: map<Group, int>, ghost reps: map<Group, Label>)
    requires forall g :: g in groups ==> g != {} && forall a :: a in g ==> a in pred && a in succ
    ensures forall g :: g in groups ==> g in keys
    ensures forall g :: g in keys ==> g in reps && reps[g] in g && reps[g] in pred && reps[g] in succ
    ensures forall g :: g in keys ==> keys[g] == Rank(pred, succ, n, reps[g])
  {
    keys, reps := map[], map[];
    for k := 0 to |groups|
      invariant forall g :: g in keys ==> g in reps && reps[g] in g && reps[g] in pred && reps[g] in succ
      invariant forall g :: g in keys ==> keys[g] == Rank(pred, succ, n, reps[g])
      invariant forall m :: 0 <= m < k ==> groups[m] in keys
    {
      var g := groups[k];
      assert g in groups;
      var rep :| rep in g;
      reps := reps[g := rep];
      keys := keys[g := |pred[rep]| + (n - |succ[rep]|)];
    }
  }

  /** Sorting by keys that are the ranks of representatives sorts by rank. */
  lemma SortedRanked(gs: seq<Group>, keys: map<Group, int>, reps: map<Group, Label>, pred: Relation, succ: Relation, n: nat)
    requires SortedBy(gs, keys)
    requires forall g :: g in keys ==> g in reps && reps[g] in g && reps[g] in pred && reps[g] in succ
    requires forall g :: g in keys ==> keys[g] == Rank(pred, succ, n, reps[g])
    ensures Ranked(gs, reps, pred, succ, n)
  {
  }

  /**
   * The sequence cut: no cut for an empty alphabet; otherwise the merged
   * groups, sorted by rank of an arbitrary member, when at least two remain.
   * `merged` is the partition before sorting; `reps` the member each group
   * was ranked by.
   */
  method Detect(alphabet: seq<Label>, pred: Relation, succ: Relation)
    returns (r: Option<seq<Group>>, ghost merged: seq<Group>, ghost reps: map<Group, Label>)
    requires Distinct(alphabet) && Covers(pred, alphabet) && Covers(succ, alphabet)
    ensures |alphabet| == 0 ==> r.None?
    ensures |alphabet| > 0 ==> Partition(merged, ActivitySet(alphabet))
    ensures |alphabet| > 0 ==>
      forall a, b :: a in alphabet && b in alphabet && Related(succ, a, b) ==> Together(merged, a, b)
    ensures |alphabet| > 0 ==> AllConnected(succ, merged)
    ensures |alphabet| > 0 ==> (r.None? <==> |merged| < 2)
    ensures r.Some? ==> multiset(r.value) == multiset(merged) && Ranked(r.value, reps, pred, succ, |alphabet|)
  {
    merged, reps := [], map[];
    if |alphabet| == 0 {
      return None, merged, reps;
    }
    var groups := MergeGroups(alphabet, succ);
    merged := groups;
    forall g | g in groups ensures g <= ActivitySet(alphabet) {
      var k :| 0 <= k < |groups| && groups[k] == g;
    }
    var keys;
    keys, reps := RankGroups(groups, pred, succ, |alphabet|);
    var sorted := SortByKey(groups, keys);
    SortedRanked(sorted, keys, reps, pred, succ, |alphabet|);
    r := if |sorted| > 1 then Some(sorted) else None;
  }

  /** The events of `trace` whose activity is in `g`, in their order. */
  function Restrict(trace: seq<Label>, g: Group): (r: seq<Label>)
    ensures |r| <= |trace|
    ensures forall e :: e in r <==> e in trace && e in g
  {
    if |trace| == 0 then []
    else (if trace[0] in g then [trace[0]] else []) + Restrict(trace[1..], g)
  }

  /** Each activity keeps its number of occurrences when in `g` and loses all otherwise. */
  lemma {:induction false} RestrictCounts(trace: seq<Label>, g: Group, e: Label)
    ensures multiset(Restrict(trace, g))[e] == if e in g then multiset(trace)[e] else 0
  {
    if |trace| > 0 {
      RestrictCounts(trace[1..], g, e);
      assert trace == [trace[0]] + trace[1..];
    }
  }

  /** Restricting to two disjoint groups splits the events between them. */
  lemma {:induction false} RestrictSplit(trace: seq<Label>, g: Group, h: Group)
    requires g !! h
    ensures |Restrict(trace, g + h)| == |Restrict(trace, g)| + |Restrict(trace, h)|
  {
    if |trace| > 0 {
      RestrictSplit(trace[1..], g, h);
    }
  }

  /** Restricting to no activity leaves no event. */
  lemma {:induction false} RestrictNothing(trace: seq<Label>)
    ensures Restrict(trace, {}) == []
  {
    if |trace| > 0 {
      RestrictNothing(trace[1..]);
    }
  }

  /** Restricting to a set holding every event keeps the trace. */
  lemma {:induction false} RestrictAll(trace: seq<Label>, g: Group)
    requires forall e :: e in trace ==> e in g
    ensures Restrict(trace, g) == trace
  {
    if |trace| > 0 {
      RestrictAll(trace[1..], g);
      assert trace == [trace[0]] + trace[1..];
    }
  }

  /** The projection of the whole log onto group `g`. */
  predicate ProjectedOnto(proj: seq<seq<Label>>, log: seq<seq<Label>>, g: Group)
  {
    |proj| == |log| && forall t :: 0 <= t < |log| ==> proj[t] == Restrict(log[t], g)
  }

  /** One log per group; each trace restricted to the group's activities. */
  method Project(log: seq<seq<Label>>, groups: seq<Group>) returns (logs: seq<seq<seq<Label>>>)
    ensures |logs| == |groups|
    ensures forall k :: 0 <= k < |groups| ==> ProjectedOnto(logs[k], log, groups[k])
  {
    logs := [];
    for k := 0 to |groups|
      invariant |logs| == k
      invariant forall m :: 0 <= m < k ==> ProjectedOnto(logs[m], log, groups[m])
    {
      var proj: seq<seq<Label>> := [];
      for t := 0 to |log|
        invariant |proj| == t
        invariant forall s :: 0 <= s < t ==> proj[s] == Restrict(log[s], groups[k])
      {
        proj := proj + [Restrict(log[t], groups[k])];
      }
      logs := logs + [proj];
    }
  }

  /** Total number of events of `trace` over the projections onto all groups. */
  function ProjectedLength(trace: seq<Label>, gs: seq<Group>): nat
  {
    if |gs| == 0 then 0 else |Restrict(trace, gs[0])| + ProjectedLength(trace, gs[1..])
  }

  lemma {:induction false} ProjectedLengthUnion(trace: seq<Label>, gs: seq<Group>)
    requires Disjoint(gs) && NoDup(gs)
    ensures ProjectedLength(trace, gs) == |Restrict(trace, Union(gs))|
  {
    if |gs| > 0 {
      var tail := gs[1..];
      assert Disjoint(tail) by {
        forall g, h | g in tail && h in tail && g != h ensures g !! h {
          assert g in gs && h in gs;
        }
      }
      ProjectedLengthUnion(trace, tail);
      assert gs[0] !! Union(tail) by {
        forall x | x in Union(tail) ensures x !in gs[0] {
          UnionMember(tail, x);
          var h :| h in tail && x in h;
          assert h in gs && h != gs[0] && gs[0] in gs;
          assert Disjoint(gs);
        }
      }
      RestrictSplit(trace, gs[0], Union(tail));
      assert Union(gs) == gs[0] + Union(tail);
    } else {
      RestrictNothing(trace);
    }
  }

  /**
   * Projecting a trace over the activities of a partition loses no event and
   * duplicates none: the projected traces together hold every event once.
   */
  lemma ProjectionKeepsEvents(trace: seq<Label>, gs: seq<Group>, alphabet: set<Label>)
    requires Partition(gs, alphabet)
    requires forall e :: e in trace ==> e in alphabet
    ensures ProjectedLength(trace, gs) == |trace|
  {
    ProjectedLengthUnion(trace, gs);
    RestrictAll(trace, alphabet);
  }

  /** `A` is a subset of `B` and differs from it. */
  predicate IsStrictSubset(a: set<Label>, b: set<Label>)
  {
    a != b && a <= b
  }

  /** `A` is a superset of `B` and differs from it. */
  predicate IsStrictSuperset(a: set<Label>, b: set<Label>)
  {
    a != b && a >= b
  }

  /** The two tests are each other's mirror image and are proper inclusion. */
  lemma StrictDual(a: set<Label>, b: set<Label>)
    ensures IsStrictSuperset(a, b) <==> IsStrictSubset(b, a)
    ensures IsStrictSubset(a, b) <==> a < b
  {
  }

  /** A strict subset is strictly smaller and misses an element of the larger set. */
  lemma StrictSubsetSmaller(a: set<Label>, b: set<Label>)
    requires IsStrictSubset(a, b)
    ensures |a| < |b|
    ensures exists x :: x in b && x !in a
  {
    assert b - a != {};
    var x :| x in b - a;
    assert b == a + (b - a);
  }

  /** Strict inclusion is irreflexive and transitive. */
  lemma StrictSubsetOrder(a: set<Label>, b: set<Label>, c: set<Label>)
    ensures !IsStrictSubset(a, a)
    ensures IsStrictSubset(a, b) && IsStrictSubset(b, c) ==> IsStrictSubset(a, c)
  {
    if IsStrictSubset(a, b) && IsStrictSubset(b, c) {
      StrictSubsetSmaller(a, b);
      StrictSubsetSmaller(b, c);
    }
  }
}
