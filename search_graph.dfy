/**
 * The search graph of the alignment search: an arena of search states
 * addressed by index, with the parent links used for reconstruction and the
 * `children` sets along which a cost decrease is pushed down.
 */
module SearchGraph {
  import opened Wrappers
  import opened ProcessTrees
  import opened Sequences
  import opened SearchStates
  import opened Reconstruction

  // ---------------------------------------------------------------------
  // Shape of the children graph
  // ---------------------------------------------------------------------

  /** Every child of entry `k` is an arena entry one trace event further. */
  predicate ChildLinksOk(a: seq<SearchState>, k: nat)
    requires k < |a|
  {
    forall c :: c in a[k].children ==> c < |a| && a[c].index == a[k].index + 1
  }

  /** No entry is the child of two entries: the children graph is a forest. */
  ghost predicate Forest(a: seq<SearchState>)
  {
    forall j, k, c :: 0 <= j < |a| && 0 <= k < |a| && c in a[j].children && c in a[k].children ==> j == k
  }

  /** Parent links and children links are well formed and the children graph is a forest. */
  ghost predicate Shaped(a: seq<SearchState>, n: nat)
  {
    ParentsOk(a, n) && (forall k :: 0 <= k < |a| ==> ChildLinksOk(a, k)) && Forest(a)
  }

  /** Two arenas that differ at most in costs, parents, leaves and states. */
  ghost predicate SameShape(a: seq<SearchState>, b: seq<SearchState>)
  {
    |a| == |b| && forall k :: 0 <= k < |a| ==> a[k].index == b[k].index && a[k].children == b[k].children
  }

  /** All members of `s` are arena entries at trace position `level`. */
  ghost predicate AtLevel(a: seq<SearchState>, s: set<nat>, level: nat)
  {
    forall x :: x in s ==> x < |a| && a[x].index == level
  }

  /** The children of the members of `s`. */
  ghost function Next(a: seq<SearchState>, s: set<nat>): set<nat>
    requires forall x :: x in s ==> x < |a|
  {
    set x, c | x in s && c in a[x].children :: c
  }

  lemma NextLevel(a: seq<SearchState>, n: nat, s: set<nat>, level: nat)
    requires Shaped(a, n) && AtLevel(a, s, level)
    ensures AtLevel(a, Next(a, s), level + 1)
    ensures s != {} ==> level <= n
  {
    forall c | c in Next(a, s) ensures c < |a| && a[c].index == level + 1 {
      var x :| x in s && c in a[x].children;
      assert ChildLinksOk(a, x);
    }
    if s != {} {
      var x :| x in s;
      assert LinkOk(a, n, x);
    }
  }

  /** The entries reachable from `s` through `children`, `s` included. */
  ghost function Reach(a: seq<SearchState>, n: nat, s: set<nat>, level: nat): set<nat>
    requires Shaped(a, n) && AtLevel(a, s, level)
    decreases n + 1 - level
  {
    NextLevel(a, n, s, level);
    if s == {} then {} else s + Reach(a, n, Next(a, s), level + 1)
  }

  /** Everything reachable is an arena entry at or below the starting level, and only the start is at that level. */
  lemma {:induction false} ReachLevels(a: seq<SearchState>, n: nat, s: set<nat>, level: nat, k: nat)
    requires Shaped(a, n) && AtLevel(a, s, level)
    requires k in Reach(a, n, s, level)
    ensures k < |a| && a[k].index >= level
    ensures a[k].index == level ==> k in s
    decreases n + 1 - level
  {
    NextLevel(a, n, s, level);
    if k !in s {
      ReachLevels(a, n, Next(a, s), level + 1, k);
    }
  }

  /** An entry above the starting level, or at it but not started from, is not reached. */
  lemma {:induction false} ReachOutside(a: seq<SearchState>, n: nat, s: set<nat>, level: nat, k: nat)
    requires Shaped(a, n) && AtLevel(a, s, level) && k < |a|
    requires a[k].index < level || (a[k].index == level && k !in s)
    ensures k !in Reach(a, n, s, level)
    decreases n + 1 - level
  {
    NextLevel(a, n, s, level);
    if s != {} {
      ReachOutside(a, n, Next(a, s), level + 1, k);
    }
  }

  lemma {:induction false} ReachEmpty(a: seq<SearchState>, n: nat, level: nat)
    requires Shaped(a, n)
    ensures Reach(a, n, {}, level) == {}
  {
  }

  /** Reach distributes over union. */
  lemma {:induction false} ReachUnion(a: seq<SearchState>, n: nat, s: set<nat>, t: set<nat>, level: nat)
    requires Shaped(a, n) && AtLevel(a, s, level) && AtLevel(a, t, level)
    ensures Reach(a, n, s + t, level) == Reach(a, n, s, level) + Reach(a, n, t, level)
    decreases n + 1 - level
  {
    NextLevel(a, n, s, level);
    NextLevel(a, n, t, level);
    NextLevel(a, n, s + t, level);
    if s == {} {
      assert s + t == t;
    } else if t == {} {
      assert s + t == s;
    } else {
      assert Next(a, s + t) == Next(a, s) + Next(a, t);
      ReachUnion(a, n, Next(a, s), Next(a, t), level + 1);
      calc {
        Reach(a, n, s + t, level);
        (s + t) + Reach(a, n, Next(a, s + t), level + 1);
        (s + t) + (Reach(a, n, Next(a, s), level + 1) + Reach(a, n, Next(a, t), level + 1));
        (s + Reach(a, n, Next(a, s), level + 1)) + (t + Reach(a, n, Next(a, t), level + 1));
      }
    }
  }

  /** One entry reaches itself and what its children reach. */
  lemma ReachSingle(a: seq<SearchState>, n: nat, x: nat, level: nat)
    requires Shaped(a, n) && x < |a| && a[x].index == level
    ensures AtLevel(a, {x}, level) && AtLevel(a, a[x].children, level + 1)
    ensures Reach(a, n, {x}, level) == {x} + Reach(a, n, a[x].children, level + 1)
  {
    NextLevel(a, n, {x}, level);
    assert Next(a, {x}) == a[x].children;
  }

  /** In a forest, the children of disjoint sets are disjoint. */
  lemma NextDisjoint(a: seq<SearchState>, n: nat, s: set<nat>, t: set<nat>, level: nat)
    requires Shaped(a, n) && AtLevel(a, s, level) && AtLevel(a, t, level)
    requires s * t == {}
    ensures Next(a, s) * Next(a, t) == {}
  {
    forall c | c in Next(a, s) ensures c !in Next(a, t) {
      var x :| x in s && c in a[x].children;
      forall y | y in t ensures c !in a[y].children {
        assert x !in s * t;
      }
    }
  }

  /** What lies below a level does not meet that level. */
  lemma BelowLevel(a: seq<SearchState>, n: nat, s: set<nat>, t: set<nat>, level: nat)
    requires Shaped(a, n) && AtLevel(a, s, level) && AtLevel(a, t, level + 1)
    ensures s * Reach(a, n, t, level + 1) == {}
  {
    forall k | k in Reach(a, n, t, level + 1) ensures k !in s {
      ReachLevels(a, n, t, level + 1, k);
    }
  }

  /** In a forest, disjoint starting sets reach disjoint sets. */
  lemma {:induction false} ReachDisjoint(a: seq<SearchState>, n: nat, s: set<nat>, t: set<nat>, level: nat)
    requires Shaped(a, n) && AtLevel(a, s, level) && AtLevel(a, t, level)
    requires s * t == {}
    ensures Reach(a, n, s, level) * Reach(a, n, t, level) == {}
    decreases n + 1 - level
  {
    NextLevel(a, n, s, level);
    NextLevel(a, n, t, level);
    if s != {} && t != {} {
      var ns, nt := Next(a, s), Next(a, t);
      NextDisjoint(a, n, s, t, level);
      ReachDisjoint(a, n, ns, nt, level + 1);
      BelowLevel(a, n, s, nt, level);
      BelowLevel(a, n, t, ns, level);
      assert Reach(a, n, s, level) == s + Reach(a, n, ns, level + 1);
      assert Reach(a, n, t, level) == t + Reach(a, n, nt, level + 1);
    }
  }

  /** Reach depends only on indices and children. */
  lemma {:induction false} ReachSameShape(a: seq<SearchState>, b: seq<SearchState>, n: nat, s: set<nat>, level: nat)
    requires Shaped(a, n) && Shaped(b, n) && SameShape(a, b) && AtLevel(a, s, level)
    ensures AtLevel(b, s, level)
    ensures Reach(a, n, s, level) == Reach(b, n, s, level)
    decreases n + 1 - level
  {
    NextLevel(a, n, s, level);
    NextLevel(b, n, s, level);
    assert Next(a, s) == Next(b, s);
    if s != {} {
      ReachSameShape(a, b, n, Next(a, s), level + 1);
    }
  }

  /** Only costs, parents and leaves changed: the shape predicates carry over. */
  lemma ShapedCarries(a: seq<SearchState>, b: seq<SearchState>, n: nat)
    requires Shaped(a, n) && SameShape(a, b)
    requires forall k :: 0 <= k < |a| && b[k].parent != a[k].parent ==> LinkOk(b, n, k)
    ensures Shaped(b, n)
  {
    forall k | 0 <= k < |b| ensures LinkOk(b, n, k) && ChildLinksOk(b, k) {
      assert LinkOk(a, n, k) && ChildLinksOk(a, k);
    }
  }

  // ---------------------------------------------------------------------
  // Relaxation of equivalent entries
  // ---------------------------------------------------------------------

  /** Entry `k` of `coll` is equivalent to the candidate and strictly more expensive. */
  ghost predicate Relaxes(a: seq<SearchState>, cand: SearchState, coll: set<nat>, k: nat)
  {
    k in coll && k < |a| && Equivalent(a[k], cand) && cand.costs < a[k].costs
  }

  /** Entry `k` lies below the relaxed entry `r`, so it loses what `r` lost. */
  ghost predicate DropsUnder(a: seq<SearchState>, n: nat, cand: SearchState, coll: set<nat>, r: nat, k: nat)
    requires Shaped(a, n)
  {
    Relaxes(a, cand, coll, r) &&
    (assert ChildLinksOk(a, r); k in Reach(a, n, a[r].children, a[r].index + 1))
  }

  /** Two different relaxed entries have nothing below them in common. */
  lemma DropsUnderSeparate(a: seq<SearchState>, n: nat, cand: SearchState, coll: set<nat>, r1: nat, r2: nat, k: nat)
    requires Shaped(a, n) && r1 != r2
    requires DropsUnder(a, n, cand, coll, r1, k) && Relaxes(a, cand, coll, r2)
    ensures !DropsUnder(a, n, cand, coll, r2, k)
  {
    assert ChildLinksOk(a, r1) && ChildLinksOk(a, r2);
    var lvl := cand.index + 1;
    assert a[r1].children * a[r2].children == {} by {
      forall c | c in a[r1].children ensures c !in a[r2].children {
      }
    }
    ReachDisjoint(a, n, a[r1].children, a[r2].children, lvl);
    assert a[r1].index + 1 == lvl && a[r2].index + 1 == lvl;
    var R1, R2 := Reach(a, n, a[r1].children, lvl), Reach(a, n, a[r2].children, lvl);
    assert R1 * R2 == {};
    assert k in R1;
    assert k !in R1 * R2;
    assert k !in R2;
  }

  /** In a forest, an entry lies below at most one relaxed entry. */
  lemma DropsUnderUnique(a: seq<SearchState>, n: nat, cand: SearchState, coll: set<nat>, k: nat)
    requires Shaped(a, n)
    ensures forall r1: nat, r2: nat :: DropsUnder(a, n, cand, coll, r1, k) && DropsUnder(a, n, cand, coll, r2, k) ==> r1 == r2
  {
    forall r1: nat, r2: nat | DropsUnder(a, n, cand, coll, r1, k) && DropsUnder(a, n, cand, coll, r2, k) ensures r1 == r2 {
      if r1 != r2 {
        DropsUnderSeparate(a, n, cand, coll, r1, r2, k);
      }
    }
  }

  /**
   * Entry `k` after the candidate was checked against `coll`: an equivalent,
   * more expensive entry takes the candidate's cost, parent and leaves; an
   * entry below such an entry drops by the same amount; every other entry is
   * unchanged.
   */
  ghost function RelaxedEntry(a: seq<SearchState>, n: nat, cand: SearchState, coll: set<nat>, k: nat): SearchState
    requires Shaped(a, n) && k < |a|
  {
    if Relaxes(a, cand, coll, k) then
      a[k].(costs := cand.costs, parent := cand.parent, leaves := cand.leaves)
    else if exists r: nat :: DropsUnder(a, n, cand, coll, r, k) then
      var r: nat :| DropsUnder(a, n, cand, coll, r, k);
      a[k].(costs := a[k].costs - (a[r].costs - cand.costs))
    else
      a[k]
  }

  /** `b` is `a` after checking the candidate against `coll`. */
  ghost predicate RelaxedFrom(a: seq<SearchState>, b: seq<SearchState>, n: nat, cand: SearchState, coll: set<nat>)
    requires Shaped(a, n)
  {
    |b| == |a| && forall k :: 0 <= k < |a| ==> b[k] == RelaxedEntry(a, n, cand, coll, k)
  }

  /** Some member of `coll` is equivalent to the candidate. */
  ghost predicate HasEquivalent(a: seq<SearchState>, cand: SearchState, coll: set<nat>)
  {
    exists k :: k in coll && k < |a| && Equivalent(a[k], cand)
  }

  /** Checking against the empty collection changes nothing. */
  lemma RelaxedNothing(a: seq<SearchState>, n: nat, cand: SearchState)
    requires Shaped(a, n)
    ensures RelaxedFrom(a, a, n, cand, {})
  {
  }

  /** Adding one entry `x` of the collection to the entries already checked. */
  lemma RelaxedStep(a: seq<SearchState>, n: nat, cand: SearchState, done: set<nat>, x: nat, k: nat)
    requires Shaped(a, n) && k < |a| && x < |a| && x !in done
    ensures ChildLinksOk(a, x) && AtLevel(a, a[x].children, a[x].index + 1)
    ensures !Relaxes(a, cand, {x}, x) ==>
              RelaxedEntry(a, n, cand, done + {x}, k) == RelaxedEntry(a, n, cand, done, k)
    ensures Relaxes(a, cand, {x}, x) && k == x ==>
              RelaxedEntry(a, n, cand, done + {x}, k) == a[x].(costs := cand.costs, parent := cand.parent, leaves := cand.leaves)
    ensures Relaxes(a, cand, {x}, x) && k != x && k !in Reach(a, n, a[x].children, a[x].index + 1) ==>
              RelaxedEntry(a, n, cand, done + {x}, k) == RelaxedEntry(a, n, cand, done, k)
    ensures Relaxes(a, cand, {x}, x) && k in Reach(a, n, a[x].children, a[x].index + 1) ==>
              RelaxedEntry(a, n, cand, done, k) == a[k] &&
              RelaxedEntry(a, n, cand, done + {x}, k) == a[k].(costs := a[k].costs - (a[x].costs - cand.costs))
  {
    assert ChildLinksOk(a, x);
    var d := done + {x};
    DropsUnderUnique(a, n, cand, d, k);
    DropsUnderUnique(a, n, cand, done, k);
    if !Relaxes(a, cand, {x}, x) {
      assert Relaxes(a, cand, d, k) == Relaxes(a, cand, done, k);
      forall r: nat ensures DropsUnder(a, n, cand, d, r, k) == DropsUnder(a, n, cand, done, r, k) {
      }
    } else if k in Reach(a, n, a[x].children, a[x].index + 1) {
      ReachLevels(a, n, a[x].children, a[x].index + 1, k);
      assert !Relaxes(a, cand, d, k);
      assert DropsUnder(a, n, cand, d, x, k);
      forall r: nat ensures !DropsUnder(a, n, cand, done, r, k) {
        if Relaxes(a, cand, done, r) && r != x {
          DropsUnderSeparate(a, n, cand, d, x, r, k);
        }
      }
    } else if k != x {
      assert Relaxes(a, cand, d, k) == Relaxes(a, cand, done, k);
      forall r: nat ensures DropsUnder(a, n, cand, d, r, k) == DropsUnder(a, n, cand, done, r, k) {
      }
    }
  }

  /** When no relaxed entry has children, relaxation touches only the relaxed entries. */
  lemma RelaxedLeavesOthers(a: seq<SearchState>, n: nat, cand: SearchState, coll: set<nat>, k: nat)
    requires Shaped(a, n) && k < |a|
    requires forall r :: 0 <= r < |a| && Relaxes(a, cand, coll, r) ==> a[r].children == {}
    ensures RelaxedEntry(a, n, cand, coll, k) ==
            if Relaxes(a, cand, coll, k) then a[k].(costs := cand.costs, parent := cand.parent, leaves := cand.leaves)
            else a[k]
  {
    forall r: nat | Relaxes(a, cand, coll, r) ensures !DropsUnder(a, n, cand, coll, r, k) {
      assert a[r].children == {};
      ReachEmpty(a, n, a[r].index + 1);
    }
  }

  /** An entry at the candidate's trace position is never below a relaxed entry. */
  lemma NotBelowRelaxed(a: seq<SearchState>, n: nat, cand: SearchState, coll: set<nat>, x: nat)
    requires Shaped(a, n) && x < |a| && a[x].index == cand.index
    ensures forall r: nat :: !DropsUnder(a, n, cand, coll, r, x)
  {
    forall r: nat | Relaxes(a, cand, coll, r) ensures !DropsUnder(a, n, cand, coll, r, x) {
      assert ChildLinksOk(a, r);
      ReachOutside(a, n, a[r].children, a[r].index + 1, x);
    }
  }

  /** The arena with every entry of `r` cheaper by `delta`. */
  function Lowered(a: seq<SearchState>, r: set<nat>, delta: int): seq<SearchState>
  {
    seq(|a|, k requires 0 <= k < |a| => a[k].(costs := a[k].costs - (if k in r then delta else 0)))
  }

  /** Lowering costs keeps the shape. */
  lemma LoweredShape(a: seq<SearchState>, r: set<nat>, delta: int, n: nat)
    requires Shaped(a, n)
    ensures SameShape(a, Lowered(a, r, delta)) && Shaped(Lowered(a, r, delta), n)
  {
    ShapedCarries(a, Lowered(a, r, delta), n);
  }

  /** Lowering a single entry is updating its cost in place. */
  lemma LoweredSingle(a: seq<SearchState>, s: nat, delta: int)
    requires s < |a|
    ensures a[s := a[s].(costs := a[s].costs - delta)] == Lowered(a, {s}, delta)
  {
    var b, c := a[s := a[s].(costs := a[s].costs - delta)], Lowered(a, {s}, delta);
    forall k | 0 <= k < |a| ensures b[k] == c[k] {
    }
  }

  /** Lowering two disjoint sets in turn lowers their union. */
  lemma LoweredTwice(a: seq<SearchState>, r1: set<nat>, r2: set<nat>, delta: int)
    requires r1 * r2 == {}
    ensures Lowered(Lowered(a, r1, delta), r2, delta) == Lowered(a, r1 + r2, delta)
  {
    var b, c := Lowered(Lowered(a, r1, delta), r2, delta), Lowered(a, r1 + r2, delta);
    forall k | 0 <= k < |a| ensures b[k] == c[k] {
      assert k !in r1 * r2;
    }
  }

  /** Visiting entry `alt`: it is still as it was, and it decides whether an equivalent was seen. */
  lemma CheckVisit(a0: seq<SearchState>, n: nat, cand: SearchState, done: set<nat>, alt: nat, b: seq<SearchState>)
    requires Shaped(a0, n) && alt < |a0| && alt !in done
    requires RelaxedFrom(a0, b, n, cand, done)
    ensures b[alt].index == a0[alt].index && b[alt].state == a0[alt].state
    ensures Equivalent(a0[alt], cand) ==> b[alt] == a0[alt]
    ensures HasEquivalent(a0, cand, done + {alt}) <==> HasEquivalent(a0, cand, done) || Equivalent(a0[alt], cand)
  {
    assert b[alt] == RelaxedEntry(a0, n, cand, done, alt);
    if Equivalent(a0[alt], cand) {
      NotBelowRelaxed(a0, n, cand, done, alt);
    }
  }

  /** Checking an entry that is not relaxed changes nothing. */
  lemma CheckSkip(a0: seq<SearchState>, n: nat, cand: SearchState, done: set<nat>, alt: nat, b: seq<SearchState>)
    requires Shaped(a0, n) && alt < |a0| && alt !in done
    requires RelaxedFrom(a0, b, n, cand, done) && !Relaxes(a0, cand, {alt}, alt)
    ensures RelaxedFrom(a0, b, n, cand, done + {alt})
  {
    forall k | 0 <= k < |b| ensures b[k] == RelaxedEntry(a0, n, cand, done + {alt}, k) {
      RelaxedStep(a0, n, cand, done, alt, k);
    }
  }

  /**
   * Relaxing entry `alt`: its subtree drops by what it loses (`m`), then it
   * takes the candidate's cost, parent and leaves (`c`).
   */
  lemma CheckRelax(a0: seq<SearchState>, n: nat, cand: SearchState, done: set<nat>, alt: nat,
                   b: seq<SearchState>, below: set<nat>, level: nat, delta: int, m: seq<SearchState>, c: seq<SearchState>)
    requires Shaped(a0, n) && alt < |a0| && alt !in done
    requires SameShape(a0, b) && Shaped(b, n) && b[alt] == a0[alt] && ChildLinksOk(b, alt)
    requires RelaxedFrom(a0, b, n, cand, done) && Relaxes(a0, cand, {alt}, alt)
    requires cand.parent.Some? ==> cand.parent.value < |a0| && a0[cand.parent.value].index + 1 == cand.index
    requires below == b[alt].children && level == b[alt].index + 1 && delta == b[alt].costs - cand.costs
    requires m == Lowered(b, Reach(b, n, below, level), delta)
    requires c == m[alt := m[alt].(costs := cand.costs, parent := cand.parent, leaves := cand.leaves)]
    ensures RelaxedFrom(a0, c, n, cand, done + {alt}) && SameShape(a0, c) && Shaped(c, n)
  {
    assert ChildLinksOk(a0, alt) && LinkOk(a0, n, alt);
    LoweredShape(b, Reach(b, n, below, level), delta, n);
    assert LinkOk(c, n, alt);
    ShapedCarries(m, c, n);
    ReachSameShape(a0, b, n, a0[alt].children, a0[alt].index + 1);
    forall k | 0 <= k < |c| ensures c[k] == RelaxedEntry(a0, n, cand, done + {alt}, k) {
      RelaxedStep(a0, n, cand, done, alt, k);
    }
  }

  /** Lowering entry `s` alone: the arena keeps its shape and `s` its children. */
  lemma LowerEntry(a: seq<SearchState>, n: nat, s: nat, level: nat, delta: int, mid: seq<SearchState>)
    requires Shaped(a, n) && s < |a| && a[s].index == level
    requires mid == a[s := a[s].(costs := a[s].costs - delta)]
    ensures mid == Lowered(a, {s}, delta) && level <= n
    ensures Shaped(mid, n) && mid[s].children == a[s].children && AtLevel(mid, a[s].children, level + 1)
  {
    assert LinkOk(a, n, s);
    LoweredSingle(a, s, delta);
    LoweredShape(a, {s}, delta, n);
    ReachSingle(a, n, s, level);
  }

  /** After lowering `s` and then everything below it, exactly what is reachable from `s` was lowered. */
  lemma LowerSubtreeDone(a: seq<SearchState>, n: nat, s: nat, level: nat, delta: int,
                         mid: seq<SearchState>, after: seq<SearchState>)
    requires Shaped(a, n) && s < |a| && a[s].index == level
    requires mid == Lowered(a, {s}, delta) && Shaped(mid, n) && AtLevel(mid, a[s].children, level + 1)
    requires after == Lowered(mid, Reach(mid, n, a[s].children, level + 1), delta)
    ensures after == Lowered(a, Reach(a, n, {s}, level), delta)
  {
    ReachSingle(a, n, s, level);
    LoweredShape(a, {s}, delta, n);
    ReachSameShape(a, mid, n, a[s].children, level + 1);
    BelowLevel(a, n, {s}, a[s].children, level);
    LoweredTwice(a, {s}, Reach(a, n, a[s].children, level + 1), delta);
  }

  /** One round of the push-down loop: lowering what is reachable from `s` extends what was lowered before. */
  lemma PushDownRound(a0: seq<SearchState>, n: nat, done: set<nat>, s: nat, level: nat, delta: int,
                      before: seq<SearchState>, after: seq<SearchState>)
    requires Shaped(a0, n) && AtLevel(a0, done, level) && s < |a0| && a0[s].index == level && s !in done
    requires before == Lowered(a0, Reach(a0, n, done, level), delta)
    requires Shaped(before, n) && AtLevel(before, {s}, level)
    requires after == Lowered(before, Reach(before, n, {s}, level), delta)
    ensures AtLevel(a0, done + {s}, level)
    ensures after == Lowered(a0, Reach(a0, n, done + {s}, level), delta)
  {
    var rd := Reach(a0, n, done, level);
    LoweredShape(a0, rd, delta, n);
    ReachSameShape(a0, before, n, {s}, level);
    ReachUnion(a0, n, done, {s}, level);
    ReachDisjoint(a0, n, done, {s}, level);
    LoweredTwice(a0, rd, Reach(a0, n, {s}, level), delta);
  }

  // ---------------------------------------------------------------------
  // The search
  // ---------------------------------------------------------------------

  /** Every node of the leaf set is a leaf of the tree. */
  predicate LeafSetOk(tree: PTree, leafSet: seq<NodeId>)
  {
    forall l :: l in leafSet ==> NodeAt(tree, l).Some? && NodeAt(tree, l).value.operator.None?
  }

  /** Closing a leaf that was just enabled passes through opening it. */
  ghost predicate CloseOpensLeaf(o: Oracle)
  {
    forall t, l, s ::
      o.enable(t, l, s).Some? && NodeAt(t, l).Some? && NodeAt(t, l).value.operator.None? ==>
      Step(l, Open) in o.close(t, l, o.enable(t, l, s).value.state).path
  }

  /**
   * How `cur` came from its parent `par`: a log move (cost one) followed by
   * closing steps that charged their labelled leaves, or a transition that
   * opened a leaf labelled with the event at the parent's position.
   */
  predicate Derived(tree: PTree, variant: seq<Label>, par: SearchState, cur: SearchState)
    requires par.index < |variant|
  {
    cur.costs == par.costs + 1 + CountLabelled(tree, cur.leaves) ||
    exists j :: 0 <= j < |cur.leaves| && LeafLabel(tree, cur.leaves[j]) == Some(variant[par.index])
  }

  /**
   * Entry `k` carries the root in its snapshot and a non-negative cost; an
   * entry with children, and an entry that is some entry's parent, costs at
   * most `last`; and the entry is derived from its parent.
   */
  predicate EntryOk(tree: PTree, variant: seq<Label>, a: seq<SearchState>, k: nat, last: int)
    requires k < |a|
  {
    [] in a[k].state && a[k].costs >= 0 &&
    (a[k].children != {} ==> a[k].costs <= last) &&
    (a[k].parent.Some? ==>
       var p := a[k].parent.value;
       p < |a| && a[p].costs <= last && a[p].index < |variant| && Derived(tree, variant, a[p], a[k]))
  }

  /** The state `c` is covered: an equivalent entry in the frontier or among the expanded states costs no more. */
  ghost predicate Represented(a: seq<SearchState>, open: multiset<nat>, closed: set<nat>, c: SearchState)
  {
    exists k :: 0 <= k < |a| && (k in open || k in closed) && Equivalent(a[k], c) && a[k].costs <= c.costs
  }

  /** Entries keep their trace position and snapshot and never get more expensive; new ones may be appended. */
  ghost predicate Grows(a: seq<SearchState>, b: seq<SearchState>)
  {
    |a| <= |b| &&
    forall k :: 0 <= k < |a| ==> b[k].index == a[k].index && b[k].state == a[k].state && b[k].costs <= a[k].costs
  }

  lemma RepresentedStays(a: seq<SearchState>, open: multiset<nat>, closed: set<nat>,
                         b: seq<SearchState>, open': multiset<nat>, closed': set<nat>, c: SearchState)
    requires Represented(a, open, closed, c) && Grows(a, b) && open <= open' && closed <= closed'
    ensures Represented(b, open', closed', c)
  {
    var k :| 0 <= k < |a| && (k in open || k in closed) && Equivalent(a[k], c) && a[k].costs <= c.costs;
    assert Equivalent(b[k], c) && b[k].costs <= c.costs;
  }

  /** The members of the frontier, each once. */
  function OpenSet(open: multiset<nat>): set<nat>
  {
    set j | j in open
  }

  /** The search invariant over the arena, the frontier, the expanded states and the last popped cost. */
  ghost predicate Inv(tree: PTree, leafSet: seq<NodeId>, variant: seq<Label>, oracle: Oracle,
                      a: seq<SearchState>, open: multiset<nat>, closed: set<nat>, last: int)
  {
    KeepsKeys(oracle) && CloseOpensLeaf(oracle) && LeafSetOk(tree, leafSet) &&
    Shaped(a, |variant|) && Rooted(a, |variant|) &&
    (forall k :: 0 <= k < |a| ==> EntryOk(tree, variant, a, k, last)) &&
    (forall j :: j in open ==> j < |a| && a[j].costs >= last) &&
    (forall j :: j in closed ==> j < |a|) &&
    last >= 0
  }

  /** `cand` is a successor of the expanded entry `p`, derived from it and no cheaper than `last`. */
  ghost predicate SuccessorOk(tree: PTree, variant: seq<Label>, a: seq<SearchState>, p: nat, cand: SearchState, last: int)
  {
    p < |a| && a[p].index < |variant| && a[p].costs <= last &&
    cand.parent == Some(p) && cand.index == a[p].index + 1 && cand.children == {} &&
    cand.costs >= last && [] in cand.state && Derived(tree, variant, a[p], cand)
  }

  /** Relaxing against a collection keeps the invariant and covers the candidate when it found an equivalent. */
  lemma InvAfterRelax(tree: PTree, leafSet: seq<NodeId>, variant: seq<Label>, oracle: Oracle,
                      a: seq<SearchState>, b: seq<SearchState>, open: multiset<nat>, closed: set<nat>, last: int,
                      cand: SearchState, coll: set<nat>, p: nat)
    requires Inv(tree, leafSet, variant, oracle, a, open, closed, last)
    requires SuccessorOk(tree, variant, a, p, cand, last)
    requires forall x :: x in coll ==> x < |a|
    requires RelaxedFrom(a, b, |variant|, cand, coll) && SameShape(a, b) && Shaped(b, |variant|)
    ensures Inv(tree, leafSet, variant, oracle, b, open, closed, last)
    ensures Grows(a, b) && b[p] == a[p]
    ensures HasEquivalent(a, cand, coll) ==>
              exists k :: k in coll && k < |b| && Equivalent(b[k], cand) && b[k].costs <= cand.costs
  {
    var n := |variant|;
    forall r | 0 <= r < |a| && Relaxes(a, cand, coll, r) ensures a[r].children == {} {
      assert EntryOk(tree, variant, a, r, last);
    }
    forall k | 0 <= k < |a|
      ensures b[k] == if Relaxes(a, cand, coll, k) then a[k].(costs := cand.costs, parent := cand.parent, leaves := cand.leaves)
                      else a[k]
    {
      RelaxedLeavesOthers(a, n, cand, coll, k);
    }
    assert !Relaxes(a, cand, coll, p);
    forall k | 0 <= k < |b| ensures EntryOk(tree, variant, b, k, last) {
      assert EntryOk(tree, variant, a, k, last);
      if b[k].parent.Some? && !Relaxes(a, cand, coll, k) {
        var q := b[k].parent.value;
        assert !Relaxes(a, cand, coll, q);
      }
    }
    if HasEquivalent(a, cand, coll) {
      var k :| k in coll && k < |a| && Equivalent(a[k], cand);
      assert Equivalent(b[k], cand) && b[k].costs <= cand.costs;
    }
  }

  /** Appending a fresh candidate as a new child of `p` keeps the invariant. */
  lemma InvAfterPush(tree: PTree, leafSet: seq<NodeId>, variant: seq<Label>, oracle: Oracle,
                     a: seq<SearchState>, open: multiset<nat>, closed: set<nat>, last: int,
                     cand: SearchState, p: nat)
    requires Inv(tree, leafSet, variant, oracle, a, open, closed, last)
    requires SuccessorOk(tree, variant, a, p, cand, last)
    ensures var b := a[p := a[p].(children := a[p].children + {|a|})] + [cand];
            Inv(tree, leafSet, variant, oracle, b, open + multiset{|a|}, closed, last) &&
            Grows(a, b) && b[p].index == a[p].index && b[p].state == a[p].state && b[p].costs == a[p].costs
  {
    var n := |variant|;
    var N := |a|;
    var b := a[p := a[p].(children := a[p].children + {N})] + [cand];
    assert LinkOk(a, n, p);
    PushShaped(a, n, p, cand);
    forall k | 0 <= k < |b| ensures EntryOk(tree, variant, b, k, last) {
      if k < N {
        assert EntryOk(tree, variant, a, k, last);
      }
    }
  }

  /** The arena after checking the candidate against `coll` (see `RelaxedEntry`). */
  ghost function Relaxed(a: seq<SearchState>, n: nat, cand: SearchState, coll: set<nat>): seq<SearchState>
    requires Shaped(a, n)
  {
    seq(|a|, k requires 0 <= k < |a| => RelaxedEntry(a, n, cand, coll, k))
  }

  /** The relaxed arena is the only arena `RelaxedFrom` admits, and it keeps the shape. */
  lemma RelaxedIsShaped(a: seq<SearchState>, b: seq<SearchState>, n: nat, cand: SearchState, coll: set<nat>)
    requires Shaped(a, n) && cand.index <= n
    requires cand.parent.Some? ==> cand.parent.value < |a| && a[cand.parent.value].index + 1 == cand.index
    requires b == Relaxed(a, n, cand, coll)
    ensures RelaxedFrom(a, b, n, cand, coll) && SameShape(a, b) && Shaped(b, n)
  {
    forall k | 0 <= k < |a|
      ensures b[k].index == a[k].index && b[k].children == a[k].children
      ensures b[k].parent != a[k].parent ==> LinkOk(b, n, k)
    {
      assert LinkOk(a, n, k);
      if Relaxes(a, cand, coll, k) && b[k].parent.Some? {
        var q := b[k].parent.value;
        assert b[q].index == a[q].index;
      }
    }
    ShapedCarries(a, b, n);
  }

  /** Two arenas that `RelaxedFrom` admits are the same. */
  lemma RelaxedUnique(a: seq<SearchState>, b: seq<SearchState>, c: seq<SearchState>, n: nat, cand: SearchState, coll: set<nat>)
    requires Shaped(a, n) && RelaxedFrom(a, b, n, cand, coll) && RelaxedFrom(a, c, n, cand, coll)
    ensures b == c
  {
  }

  /** Without an equivalent entry in the collection, the check changes nothing. */
  lemma NoEquivalentNoChange(a: seq<SearchState>, n: nat, cand: SearchState, coll: set<nat>)
    requires Shaped(a, n) && !HasEquivalent(a, cand, coll)
    ensures Relaxed(a, n, cand, coll) == a
  {
    forall k | 0 <= k < |a| ensures RelaxedEntry(a, n, cand, coll, k) == a[k] {
      assert !Relaxes(a, cand, coll, k);
      forall r: nat ensures !DropsUnder(a, n, cand, coll, r, k) {
        assert !Relaxes(a, cand, coll, r);
      }
    }
  }

  /**
   * The arena and frontier after adding the successor `cand` of entry `p`:
   * an equivalent expanded entry is relaxed if more expensive; failing that,
   * an equivalent frontier entry is; failing that, the candidate becomes a
   * new child of `p` and joins the frontier.
   */
  ghost function Added(a: seq<SearchState>, open: multiset<nat>, closed: set<nat>, n: nat,
                       cand: SearchState, p: nat): (seq<SearchState>, multiset<nat>)
    requires Shaped(a, n) && p < |a|
  {
    if HasEquivalent(a, cand, closed) then (Relaxed(a, n, cand, closed), open)
    else if HasEquivalent(a, cand, OpenSet(open)) then (Relaxed(a, n, cand, OpenSet(open)), open)
    else (a[p := a[p].(children := a[p].children + {|a|})] + [cand], open + multiset{|a|})
  }

  /** `cand` can hang under entry `p`: one event further, within the trace, and without children yet. */
  predicate Fits(a: seq<SearchState>, n: nat, p: nat, cand: SearchState)
  {
    p < |a| && cand.parent == Some(p) && cand.index == a[p].index + 1 && cand.index <= n && cand.children == {}
  }

  /** Appending a fitting entry under `p` keeps the shape. */
  lemma PushShaped(a: seq<SearchState>, n: nat, p: nat, cand: SearchState)
    requires Shaped(a, n) && Fits(a, n, p, cand)
    ensures var b := a[p := a[p].(children := a[p].children + {|a|})] + [cand];
            Shaped(b, n) && b[p].index == a[p].index
  {
    var N := |a|;
    var b := a[p := a[p].(children := a[p].children + {N})] + [cand];
    forall k | 0 <= k < |b| ensures LinkOk(b, n, k) && ChildLinksOk(b, k) {
      if k < N {
        assert LinkOk(a, n, k) && ChildLinksOk(a, k);
      }
    }
    forall j, k, c | 0 <= j < |b| && 0 <= k < |b| && c in b[j].children && c in b[k].children ensures j == k {
      if c == N {
        if j != p {
          assert ChildLinksOk(a, j);
        }
        if k != p {
          assert ChildLinksOk(a, k);
        }
      } else {
        assert c in a[j].children && c in a[k].children;
      }
    }
  }

  /** Adding a fitting successor keeps the shape and the position of `p`. */
  lemma AddedShaped(a: seq<SearchState>, open: multiset<nat>, closed: set<nat>, n: nat, cand: SearchState, p: nat)
    requires Shaped(a, n) && Fits(a, n, p, cand)
    ensures var r := Added(a, open, closed, n, cand, p);
            Shaped(r.0, n) && p < |r.0| && r.0[p].index == a[p].index
  {
    if HasEquivalent(a, cand, closed) {
      RelaxedIsShaped(a, Relaxed(a, n, cand, closed), n, cand, closed);
    } else if HasEquivalent(a, cand, OpenSet(open)) {
      RelaxedIsShaped(a, Relaxed(a, n, cand, OpenSet(open)), n, cand, OpenSet(open));
    } else {
      PushShaped(a, n, p, cand);
    }
  }

  /**
   * Adding a successor keeps the search invariant, covers the successor,
   * only lowers costs, keeps the frontier's members, and leaves the
   * expanded entry `p` as it was.
   */
  lemma AddedKeepsInv(tree: PTree, leafSet: seq<NodeId>, variant: seq<Label>, oracle: Oracle,
                      a: seq<SearchState>, open: multiset<nat>, closed: set<nat>, last: int,
                      cand: SearchState, p: nat)
    requires Inv(tree, leafSet, variant, oracle, a, open, closed, last)
    requires SuccessorOk(tree, variant, a, p, cand, last)
    ensures var (b, o) := Added(a, open, closed, |variant|, cand, p);
            Inv(tree, leafSet, variant, oracle, b, o, closed, last) &&
            Represented(b, o, closed, cand) && Grows(a, b) && open <= o &&
            b[p].index == a[p].index && b[p].state == a[p].state && b[p].costs == a[p].costs
  {
    var n := |variant|;
    assert LinkOk(a, n, p);
    if HasEquivalent(a, cand, closed) {
      var b := Relaxed(a, n, cand, closed);
      RelaxedIsShaped(a, b, n, cand, closed);
      InvAfterRelax(tree, leafSet, variant, oracle, a, b, open, closed, last, cand, closed, p);
    } else if HasEquivalent(a, cand, OpenSet(open)) {
      var b := Relaxed(a, n, cand, OpenSet(open));
      RelaxedIsShaped(a, b, n, cand, OpenSet(open));
      InvAfterRelax(tree, leafSet, variant, oracle, a, b, open, closed, last, cand, OpenSet(open), p);
    } else {
      InvAfterPush(tree, leafSet, variant, oracle, a, open, closed, last, cand, p);
      var b := a[p := a[p].(children := a[p].children + {|a|})] + [cand];
      assert Equivalent(b[|a|], cand);
    }
  }

  /** A synchronous successor records the candidate leaf it synchronised on. */
  lemma SyncSuccessorRecordsLeaf(tree: PTree, leafSet: seq<NodeId>, oracle: Oracle, s: SearchState, p: nat, leaf: NodeId)
    requires CloseOpensLeaf(oracle) && LeafSetOk(tree, leafSet) && leaf in leafSet
    requires SyncSuccessor(tree, oracle, s, p, leaf).Some?
    ensures leaf in SyncSuccessor(tree, oracle, s, p, leaf).value.leaves
  {
    var en := oracle.enable(tree, leaf, s.state).value;
    var cl := oracle.close(tree, leaf, en.state);
    assert Step(leaf, Open) in cl.path;
    var i :| 0 <= i < |cl.path| && cl.path[i] == Step(leaf, Open);
    assert (en.path + cl.path)[|en.path| + i] == Step(leaf, Open);
    LeavesOfPathContains(tree, en.path + cl.path, true, |en.path| + i);
  }

  /** The synchronous successor on a candidate leaf is a proper successor of the popped entry `p`. */
  lemma SyncSuccessorOk(tree: PTree, leafSet: seq<NodeId>, variant: seq<Label>, oracle: Oracle,
                        a: seq<SearchState>, last: int, p: nat, leaf: NodeId, c: SearchState)
    requires KeepsKeys(oracle) && CloseOpensLeaf(oracle) && LeafSetOk(tree, leafSet)
    requires p < |a| && a[p].index < |variant| && a[p].costs == last && [] in a[p].state
    requires leaf in leafSet && HasLabel(tree, leaf, variant[a[p].index])
    requires SyncSuccessor(tree, oracle, a[p], p, leaf) == Some(c)
    ensures SuccessorOk(tree, variant, a, p, c, last)
  {
    SyncSuccessorRecordsLeaf(tree, leafSet, oracle, a[p], p, leaf);
    var k :| 0 <= k < |c.leaves| && c.leaves[k] == leaf;
    assert LeafLabel(tree, c.leaves[k]) == Some(variant[a[p].index]);
  }

  /** Every successor of the popped entry `p` is a proper successor: derived from it and no cheaper. */
  lemma SuccessorsOk(tree: PTree, leafSet: seq<NodeId>, variant: seq<Label>, oracle: Oracle,
                     a: seq<SearchState>, open: multiset<nat>, closed: set<nat>, last: int, p: nat)
    requires Inv(tree, leafSet, variant, oracle, a, open, closed, last)
    requires p < |a| && a[p].index < |variant| && a[p].costs == last
    ensures forall c :: c in Successors(tree, leafSet, variant, oracle, a[p], p) ==>
              SuccessorOk(tree, variant, a, p, c, last)
  {
    assert EntryOk(tree, variant, a, p, last);
    SuccessorsOkFrom(tree, leafSet, variant, oracle, a, last, p);
  }

  lemma SuccessorsOkFrom(tree: PTree, leafSet: seq<NodeId>, variant: seq<Label>, oracle: Oracle,
                         a: seq<SearchState>, last: int, p: nat)
    requires KeepsKeys(oracle) && CloseOpensLeaf(oracle) && LeafSetOk(tree, leafSet)
    requires p < |a| && a[p].index < |variant| && a[p].costs == last && [] in a[p].state
    ensures forall c :: c in Successors(tree, leafSet, variant, oracle, a[p], p) ==>
              SuccessorOk(tree, variant, a, p, c, last)
  {
    var s := a[p];
    var cands := Candidates(tree, leafSet, variant[s.index]);
    forall c | c in Successors(tree, leafSet, variant, oracle, s, p)
      ensures SuccessorOk(tree, variant, a, p, c, last)
    {
      if c in SyncSuccessors(tree, oracle, s, p, cands) {
        SyncSuccessorsFrom(tree, oracle, s, p, cands, c);
        var j :| 0 <= j < |cands| && SyncSuccessor(tree, oracle, s, p, cands[j]) == Some(c);
        assert cands[j] in cands;
        SyncSuccessorOk(tree, leafSet, variant, oracle, a, last, p, cands[j], c);
      } else {
        assert c == LogMoveSuccessor(s, p);
        assert CountLabelled(tree, c.leaves) == 0;
      }
    }
  }

  /** A successor stays a proper successor while its parent keeps position, snapshot and cost. */
  lemma SuccessorOkStays(tree: PTree, variant: seq<Label>, a: seq<SearchState>, b: seq<SearchState>,
                         p: nat, cand: SearchState, last: int)
    requires SuccessorOk(tree, variant, a, p, cand, last) && Grows(a, b)
    requires b[p].index == a[p].index && b[p].costs == a[p].costs
    ensures SuccessorOk(tree, variant, b, p, cand, last)
  {
  }

  /** `Grows` is transitive. */
  lemma GrowsTrans(a: seq<SearchState>, b: seq<SearchState>, c: seq<SearchState>)
    requires Grows(a, b) && Grows(b, c)
    ensures Grows(a, c)
  {
  }

  /**
   * The arena and frontier after adding the successors `xs` of entry `p`
   * one after the other; the shape is kept throughout.
   */
  ghost function AddedAll(a: seq<SearchState>, open: multiset<nat>, closed: set<nat>, n: nat,
                          xs: seq<SearchState>, p: nat): (r: (seq<SearchState>, multiset<nat>))
    requires Shaped(a, n) && p < |a|
    requires forall c :: c in xs ==> Fits(a, n, p, c)
    ensures Shaped(r.0, n) && p < |r.0| && r.0[p].index == a[p].index
    decreases |xs|
  {
    if xs == [] then (a, open)
    else
      var init, x := xs[..|xs| - 1], xs[|xs| - 1];
      assert forall c :: c in init ==> c in xs;
      var r := AddedAll(a, open, closed, n, init, p);
      assert x in xs && Fits(a, n, p, x);
      AddedShaped(r.0, r.1, closed, n, x, p);
      Added(r.0, r.1, closed, n, x, p)
  }

  /**
   * Adding proper successors one after the other keeps the search invariant,
   * covers every one of them, only lowers costs, only grows the frontier,
   * and leaves `p` as it was.
   */
  lemma {:induction false} AddedAllKeepsInv(tree: PTree, leafSet: seq<NodeId>, variant: seq<Label>, oracle: Oracle,
                                            a: seq<SearchState>, open: multiset<nat>, closed: set<nat>, last: int,
                                            xs: seq<SearchState>, p: nat)
    requires Inv(tree, leafSet, variant, oracle, a, open, closed, last) && p < |a|
    requires forall c :: c in xs ==> SuccessorOk(tree, variant, a, p, c, last)
    ensures forall c :: c in xs ==> Fits(a, |variant|, p, c)
    ensures var r := AddedAll(a, open, closed, |variant|, xs, p);
            AddedSoFar(tree, leafSet, variant, oracle, a, open, closed, last, xs, p, r.0, r.1)
    decreases |xs|
  {
    if xs != [] {
      var init := xs[..|xs| - 1];
      assert forall c :: c in init ==> c in xs;
      AddedAllKeepsInv(tree, leafSet, variant, oracle, a, open, closed, last, init, p);
      var r := AddedAll(a, open, closed, |variant|, init, p);
      AddedAllStep(tree, leafSet, variant, oracle, a, open, closed, last, xs, p, r.0, r.1);
    }
  }

  /** What holds after adding the successors `xs`, with `b` and `o` the arena and frontier reached. */
  ghost predicate AddedSoFar(tree: PTree, leafSet: seq<NodeId>, variant: seq<Label>, oracle: Oracle,
                             a: seq<SearchState>, open: multiset<nat>, closed: set<nat>, last: int,
                             xs: seq<SearchState>, p: nat, b: seq<SearchState>, o: multiset<nat>)
    requires p < |a|
  {
    Inv(tree, leafSet, variant, oracle, b, o, closed, last) &&
    Grows(a, b) && open <= o && p < |b| &&
    b[p].index == a[p].index && b[p].state == a[p].state && b[p].costs == a[p].costs &&
    (forall c :: c in xs ==> Represented(b, o, closed, c))
  }

  /** One more insertion keeps `AddedSoFar`. */
  lemma AddedAllStep(tree: PTree, leafSet: seq<NodeId>, variant: seq<Label>, oracle: Oracle,
                     a: seq<SearchState>, open: multiset<nat>, closed: set<nat>, last: int,
                     xs: seq<SearchState>, p: nat, b: seq<SearchState>, o: multiset<nat>)
    requires p < |a| && xs != []
    requires forall c :: c in xs ==> SuccessorOk(tree, variant, a, p, c, last)
    requires AddedSoFar(tree, leafSet, variant, oracle, a, open, closed, last, xs[..|xs| - 1], p, b, o)
    ensures AddedSoFar(tree, leafSet, variant, oracle, a, open, closed, last, xs, p,
                       Added(b, o, closed, |variant|, xs[|xs| - 1], p).0, Added(b, o, closed, |variant|, xs[|xs| - 1], p).1)
  {
    var init, x := xs[..|xs| - 1], xs[|xs| - 1];
    SuccessorOkStays(tree, variant, a, b, p, x, last);
    AddedKeepsInv(tree, leafSet, variant, oracle, b, o, closed, last, x, p);
    var r := Added(b, o, closed, |variant|, x, p);
    GrowsTrans(a, b, r.0);
    AddedAllKeepsCovered(b, o, r.0, r.1, closed, init);
    assert forall c :: c in xs ==> c in init || c == x;
  }

  /** Adding one more successor at the end: one more insertion after the others. */
  lemma AddedAllSnoc(a: seq<SearchState>, open: multiset<nat>, closed: set<nat>, n: nat,
                     xs: seq<SearchState>, x: SearchState, p: nat)
    requires Shaped(a, n) && p < |a|
    requires forall c :: c in xs + [x] ==> Fits(a, n, p, c)
    ensures forall c :: c in xs ==> Fits(a, n, p, c)
    ensures var r := AddedAll(a, open, closed, n, xs, p);
            AddedAll(a, open, closed, n, xs + [x], p) == Added(r.0, r.1, closed, n, x, p)
  {
    assert forall c :: c in xs ==> c in xs + [x];
    assert (xs + [x])[..|xs|] == xs;
  }

  /** The synchronous successors of the candidates looked at so far are proper successors of `p`. */
  lemma SyncPrefixOk(tree: PTree, leafSet: seq<NodeId>, variant: seq<Label>, oracle: Oracle,
                     a: seq<SearchState>, last: int, p: nat, cands: seq<NodeId>, seen: seq<NodeId>, rest: seq<NodeId>)
    requires KeepsKeys(oracle) && CloseOpensLeaf(oracle) && LeafSetOk(tree, leafSet)
    requires p < |a| && a[p].index < |variant| && a[p].costs == last && [] in a[p].state
    requires cands == Candidates(tree, leafSet, variant[a[p].index]) && seen + rest == cands
    ensures forall c :: c in SyncSuccessors(tree, oracle, a[p], p, seen) ==> SuccessorOk(tree, variant, a, p, c, last)
  {
    forall c | c in SyncSuccessors(tree, oracle, a[p], p, seen)
      ensures SuccessorOk(tree, variant, a, p, c, last)
    {
      SyncSuccessorsFrom(tree, oracle, a[p], p, seen, c);
      var j :| 0 <= j < |seen| && SyncSuccessor(tree, oracle, a[p], p, seen[j]) == Some(c);
      assert seen[j] == cands[j] && cands[j] in cands;
      SyncSuccessorOk(tree, leafSet, variant, oracle, a, last, p, seen[j], c);
    }
  }

  /**
   * One synchronous successor during expansion: it may be added to the
   * arena reached so far, and adding it extends the fold by one.
   */
  lemma ExpandSyncStep(tree: PTree, leafSet: seq<NodeId>, variant: seq<Label>, oracle: Oracle,
                       a0: seq<SearchState>, open0: multiset<nat>, closed: set<nat>, last: int, p: nat,
                       cands: seq<NodeId>, seen: seq<NodeId>, rest: seq<NodeId>,
                       b: seq<SearchState>, o: multiset<nat>, c: SearchState)
    requires Inv(tree, leafSet, variant, oracle, a0, open0, closed, last)
    requires p < |a0| && a0[p].index < |variant| && a0[p].costs == last
    requires cands == Candidates(tree, leafSet, variant[a0[p].index]) && seen + rest == cands && rest != []
    requires forall x :: x in SyncSuccessors(tree, oracle, a0[p], p, seen) ==> Fits(a0, |variant|, p, x)
    requires (b, o) == AddedAll(a0, open0, closed, |variant|, SyncSuccessors(tree, oracle, a0[p], p, seen), p)
    requires SyncSuccessor(tree, oracle, a0[p], p, rest[0]) == Some(c)
    ensures Inv(tree, leafSet, variant, oracle, b, o, closed, last) && SuccessorOk(tree, variant, b, p, c, last)
    ensures (seen + [rest[0]]) + rest[1..] == cands
    ensures forall x :: x in SyncSuccessors(tree, oracle, a0[p], p, seen + [rest[0]]) ==> Fits(a0, |variant|, p, x)
    ensures AddedAll(a0, open0, closed, |variant|, SyncSuccessors(tree, oracle, a0[p], p, seen + [rest[0]]), p) ==
            Added(b, o, closed, |variant|, c, p)
  {
    var done := SyncSuccessors(tree, oracle, a0[p], p, seen);
    ExpandSoFar(tree, leafSet, variant, oracle, a0, open0, closed, last, p, cands, seen, rest, b, o);
    SyncSuccessorsSnoc(tree, oracle, a0[p], p, seen, rest[0]);
    MoveFirst(seen, rest, cands);
    assert EntryOk(tree, variant, a0, p, last);
    SyncSuccessorOk(tree, leafSet, variant, oracle, a0, last, p, rest[0], c);
    SuccessorOkStays(tree, variant, a0, b, p, c, last);
    AddedAllSnoc(a0, open0, closed, |variant|, done, c, p);
  }

  /** Moving the first remaining candidate to the ones looked at. */
  lemma MoveFirst(seen: seq<NodeId>, rest: seq<NodeId>, cands: seq<NodeId>)
    requires seen + rest == cands && rest != []
    ensures (seen + [rest[0]]) + rest[1..] == cands && rest[0] in cands
  {
    assert (seen + [rest[0]]) + rest[1..] == seen + rest;
    assert cands[|seen|] == rest[0];
  }

  /** Before each insertion the arena reached so far satisfies the invariant and `p` is unchanged. */
  lemma ExpandSoFar(tree: PTree, leafSet: seq<NodeId>, variant: seq<Label>, oracle: Oracle,
                    a0: seq<SearchState>, open0: multiset<nat>, closed: set<nat>, last: int, p: nat,
                    cands: seq<NodeId>, seen: seq<NodeId>, rest: seq<NodeId>, b: seq<SearchState>, o: multiset<nat>)
    requires Inv(tree, leafSet, variant, oracle, a0, open0, closed, last)
    requires p < |a0| && a0[p].index < |variant| && a0[p].costs == last
    requires cands == Candidates(tree, leafSet, variant[a0[p].index]) && seen + rest == cands
    requires forall x :: x in SyncSuccessors(tree, oracle, a0[p], p, seen) ==> Fits(a0, |variant|, p, x)
    requires (b, o) == AddedAll(a0, open0, closed, |variant|, SyncSuccessors(tree, oracle, a0[p], p, seen), p)
    ensures forall x :: x in SyncSuccessors(tree, oracle, a0[p], p, seen) ==> SuccessorOk(tree, variant, a0, p, x, last)
    ensures Inv(tree, leafSet, variant, oracle, b, o, closed, last) && Grows(a0, b) && p < |b| &&
            b[p].index == a0[p].index && b[p].costs == a0[p].costs
  {
    assert EntryOk(tree, variant, a0, p, last);
    SyncPrefixOk(tree, leafSet, variant, oracle, a0, last, p, cands, seen, rest);
    AddedAllKeepsInv(tree, leafSet, variant, oracle, a0, open0, closed, last, SyncSuccessors(tree, oracle, a0[p], p, seen), p);
  }

  /** A candidate whose leaf cannot be enabled is passed over. */
  lemma ExpandSkipStep(tree: PTree, oracle: Oracle, s: SearchState, p: nat,
                       cands: seq<NodeId>, seen: seq<NodeId>, rest: seq<NodeId>)
    requires seen + rest == cands && rest != [] && oracle.enable(tree, rest[0], s.state).None?
    ensures (seen + [rest[0]]) + rest[1..] == cands
    ensures SyncSuccessors(tree, oracle, s, p, seen + [rest[0]]) == SyncSuccessors(tree, oracle, s, p, seen)
  {
    SyncSuccessorsSkip(tree, oracle, s, p, seen, rest[0]);
    assert (seen + [rest[0]]) + rest[1..] == seen + rest;
  }

  /** The closing log move during expansion: it may be added, and adding it completes the fold. */
  lemma ExpandLogStep(tree: PTree, leafSet: seq<NodeId>, variant: seq<Label>, oracle: Oracle,
                      a0: seq<SearchState>, open0: multiset<nat>, closed: set<nat>, last: int, p: nat,
                      cands: seq<NodeId>, seen: seq<NodeId>, rest: seq<NodeId>, b: seq<SearchState>, o: multiset<nat>)
    requires Inv(tree, leafSet, variant, oracle, a0, open0, closed, last)
    requires p < |a0| && a0[p].index < |variant| && a0[p].costs == last
    requires cands == Candidates(tree, leafSet, variant[a0[p].index]) && seen + rest == cands
    requires forall x :: x in SyncSuccessors(tree, oracle, a0[p], p, seen) ==> Fits(a0, |variant|, p, x)
    requires (b, o) == AddedAll(a0, open0, closed, |variant|, SyncSuccessors(tree, oracle, a0[p], p, seen), p)
    ensures Inv(tree, leafSet, variant, oracle, b, o, closed, last)
    ensures SuccessorOk(tree, variant, b, p, LogMoveSuccessor(a0[p], p), last)
    ensures forall x :: x in SyncSuccessors(tree, oracle, a0[p], p, seen) + [LogMoveSuccessor(a0[p], p)] ==>
              Fits(a0, |variant|, p, x)
    ensures AddedAll(a0, open0, closed, |variant|,
                     SyncSuccessors(tree, oracle, a0[p], p, seen) + [LogMoveSuccessor(a0[p], p)], p) ==
            Added(b, o, closed, |variant|, LogMoveSuccessor(a0[p], p), p)
  {
    var done := SyncSuccessors(tree, oracle, a0[p], p, seen);
    ExpandSoFar(tree, leafSet, variant, oracle, a0, open0, closed, last, p, cands, seen, rest, b, o);
    assert EntryOk(tree, variant, a0, p, last);
    var c := LogMoveSuccessor(a0[p], p);
    assert CountLabelled(tree, c.leaves) == 0;
    SuccessorOkStays(tree, variant, a0, b, p, c, last);
    AddedAllSnoc(a0, open0, closed, |variant|, done, c, p);
  }

  /** Entries covered before an insertion stay covered after it. */
  lemma AddedAllKeepsCovered(a: seq<SearchState>, open: multiset<nat>, b: seq<SearchState>, open': multiset<nat>,
                             closed: set<nat>, xs: seq<SearchState>)
    requires Grows(a, b) && open <= open'
    requires forall c :: c in xs ==> Represented(a, open, closed, c)
    ensures forall c :: c in xs ==> Represented(b, open', closed, c)
  {
    forall c | c in xs ensures Represented(b, open', closed, c) {
      RepresentedStays(a, open, closed, b, open', closed, c);
    }
  }

  // ---------------------------------------------------------------------
  // Popping, closing the tree at the end of the trace, and the goal
  // ---------------------------------------------------------------------

  /**
   * The entry `s` after the whole tree was closed from its snapshot: the
   * labelled leaves of the closing path are charged and all of its leaves
   * are recorded after the ones already there.
   */
  function Finished(tree: PTree, oracle: Oracle, s: SearchState): (r: SearchState)
    ensures r.index == s.index && r.parent == s.parent && r.children == s.children
    ensures |s.leaves| <= |r.leaves| && r.leaves[..|s.leaves|] == s.leaves
    ensures r.costs == s.costs + CountLabelled(tree, r.leaves) - CountLabelled(tree, s.leaves)
    ensures r.state == oracle.close(tree, [], s.state).state
  {
    var cl := oracle.close(tree, [], s.state);
    var added := LeavesOfPath(tree, cl.path, true);
    CountLabelledOfPath(tree, cl.path);
    CountLabelledAppend(tree, s.leaves, added);
    assert (s.leaves + added)[..|s.leaves|] == s.leaves;
    s.(state := cl.state, costs := s.costs + |LeavesOfPath(tree, cl.path, false)|, leaves := s.leaves + added)
  }

  /** An entry at the end of the trace has no children and is nobody's parent. */
  lemma AtEndIsLeaf(a: seq<SearchState>, n: nat, p: nat)
    requires Shaped(a, n) && p < |a| && a[p].index == n
    ensures a[p].children == {}
    ensures forall k :: 0 <= k < |a| ==> a[k].parent != Some(p)
  {
    assert ChildLinksOk(a, p);
    assert forall c :: c in a[p].children ==> LinkOk(a, n, c);
    forall k | 0 <= k < |a| ensures a[k].parent != Some(p) {
      assert LinkOk(a, n, k);
    }
  }

  /** The closed-up entry is still derived from its parent: it only gained charged leaves. */
  lemma FinishedEntryOk(tree: PTree, variant: seq<Label>, oracle: Oracle, a: seq<SearchState>, last: int, p: nat)
    requires KeepsKeys(oracle) && p < |a| && EntryOk(tree, variant, a, p, last) && a[p].children == {}
    requires a[p].parent != Some(p)
    ensures EntryOk(tree, variant, a[p := Finished(tree, oracle, a[p])], p, last)
  {
    var f := Finished(tree, oracle, a[p]);
    CountLabelledAppend(tree, a[p].leaves, f.leaves[|a[p].leaves|..]);
    assert f.leaves == a[p].leaves + f.leaves[|a[p].leaves|..];
    if a[p].parent.Some? {
      var q := a[p].parent.value;
      if !(a[p].costs == a[q].costs + 1 + CountLabelled(tree, a[p].leaves)) {
        var j :| 0 <= j < |a[p].leaves| && LeafLabel(tree, a[p].leaves[j]) == Some(variant[a[q].index]);
        assert f.leaves[j] == a[p].leaves[j];
      }
    }
  }

  /** Closing the tree of an entry at the end of the trace and pushing it back keeps the search invariant. */
  lemma FinishKeepsInv(tree: PTree, leafSet: seq<NodeId>, variant: seq<Label>, oracle: Oracle,
                       a: seq<SearchState>, open: multiset<nat>, closed: set<nat>, last: int, p: nat)
    requires Inv(tree, leafSet, variant, oracle, a, open, closed, last)
    requires p < |a| && a[p].index == |variant| && a[p].costs >= last
    ensures Inv(tree, leafSet, variant, oracle, a[p := Finished(tree, oracle, a[p])], open + multiset{p}, closed, last)
  {
    var n := |variant|;
    var b := a[p := Finished(tree, oracle, a[p])];
    AtEndIsLeaf(a, n, p);
    ShapedCarries(a, b, n);
    forall k | 0 <= k < |b| ensures EntryOk(tree, variant, b, k, last) {
      assert EntryOk(tree, variant, a, k, last);
      if k == p {
        FinishedEntryOk(tree, variant, oracle, a, last, p);
      }
    }
  }

  /** Popping a minimum of the frontier keeps the invariant with `last` raised to its cost, which never falls. */
  lemma PopKeepsInv(tree: PTree, leafSet: seq<NodeId>, variant: seq<Label>, oracle: Oracle,
                    a: seq<SearchState>, open: multiset<nat>, closed: set<nat>, last: int, m: nat)
    requires Inv(tree, leafSet, variant, oracle, a, open, closed, last)
    requires IsMinimum(a, open, m)
    ensures last <= a[m].costs
    ensures Inv(tree, leafSet, variant, oracle, a, open - multiset{m}, closed, a[m].costs)
    ensures forall j :: j in open ==> a[m].costs <= a[j].costs
  {
    forall k | 0 <= k < |a| ensures EntryOk(tree, variant, a, k, a[m].costs) {
      assert EntryOk(tree, variant, a, k, last);
    }
    assert EntryOk(tree, variant, a, m, last);
  }

  /**
   * The alignment of an entry at the end of the trace explains the whole
   * trace: its log side is the trace.
   */
  lemma GoalExplainsTrace(tree: PTree, variant: seq<Label>, a: seq<SearchState>, last: int, t: nat)
    requires Rooted(a, |variant|) && t < |a| && a[t].index == |variant|
    requires EntryOk(tree, variant, a, t, last)
    ensures LogSide(Reconstruct(tree, variant, a, t)) == variant
  {
    assert LinkOk(a, |variant|, t);
    if |variant| > 0 {
      var p := a[t].parent.value;
      assert Derived(tree, variant, a[p], a[t]);
      FinalStepKeepsEvent(tree, variant, a[p], a[t]);
      ReconstructLogSideFinal(tree, variant, a, t);
    } else {
      ReconstructAtStart(tree, variant, a, t);
    }
  }

  /** The outcome of the search for one trace variant. */
  datatype SearchOutcome = Found(record: AlignmentRecord) | Exhausted | OutOfFuel

  class AlignmentSearch {
    const tree: PTree
    const leafSet: seq<NodeId>
    const variant: seq<Label>
    const oracle: Oracle
    /** Every search state ever created, addressed by index. */
    var arena: seq<SearchState>
    /** The frontier (a binary heap in the original). */
    var open: multiset<nat>
    /** The expanded states. */
    var closed: set<nat>
    /** The cost of the most recently popped state. */
    ghost var last: int

    ghost predicate Valid()
      reads this
    {
      Inv(tree, leafSet, variant, oracle, arena, open, closed, last)
    }

    /** The search starts from the initial snapshot at trace position 0, cost 0. */
    constructor (tree: PTree, leafSet: seq<NodeId>, variant: seq<Label>, oracle: Oracle)
      requires KeepsKeys(oracle) && CloseOpensLeaf(oracle) && LeafSetOk(tree, leafSet)
      ensures Valid()
      ensures this.tree == tree && this.leafSet == leafSet && this.variant == variant && this.oracle == oracle
      ensures arena == [SearchState(0, 0, oracle.initial(tree), [], None, {})]
      ensures open == multiset{0} && closed == {}
    {
      this.tree := tree;
      this.leafSet := leafSet;
      this.variant := variant;
      this.oracle := oracle;
      arena := [SearchState(0, 0, oracle.initial(tree), [], None, {})];
      open := multiset{0};
      closed := {};
      last := 0;
      new;
      assert LinkOk(arena, |variant|, 0) && ChildLinksOk(arena, 0);
    }

    /**
     * Pushes a cost decrease down the children graph: every entry reachable
     * from `states` loses exactly `delta`, and nothing else changes.
     */
    method UpdateCostsRecursive(delta: int, states: set<nat>, ghost level: nat)
      requires Shaped(arena, |variant|) && AtLevel(arena, states, level)
      modifies this
      ensures arena == Lowered(old(arena), Reach(old(arena), |variant|, states, level), delta)
      ensures SameShape(old(arena), arena) && Shaped(arena, |variant|)
      ensures open == old(open) && closed == old(closed) && last == old(last)
      decreases |variant| + 1 - level, 1
    {
      ghost var a0 := arena;
      ghost var n := |variant|;
      var todo := states;
      ghost var done: set<nat> := {};
      ReachEmpty(a0, n, level);
      assert arena == Lowered(a0, {}, delta);
      while todo != {}
        invariant todo + done == states && todo * done == {}
        invariant AtLevel(a0, done, level)
        invariant arena == Lowered(a0, Reach(a0, n, done, level), delta)
        invariant open == old(open) && closed == old(closed) && last == old(last)
        decreases todo
      {
        var s :| s in todo;
        LoweredShape(a0, Reach(a0, n, done, level), delta, n);
        ghost var before := arena;
        LowerSubtree(delta, s, level);
        PushDownRound(a0, n, done, s, level, delta, before, arena);
        todo := todo - {s};
        done := done + {s};
      }
      LoweredShape(a0, Reach(a0, n, states, level), delta, n);
    }

    /** One turn of the loop above: entry `s` loses `delta`, then so does everything below it. */
    method LowerSubtree(delta: int, s: nat, ghost level: nat)
      requires Shaped(arena, |variant|) && s < |arena| && arena[s].index == level
      modifies this
      ensures arena == Lowered(old(arena), Reach(old(arena), |variant|, {s}, level), delta)
      ensures open == old(open) && closed == old(closed) && last == old(last)
      decreases |variant| + 1 - level, 0
    {
      ghost var a := arena;
      arena := arena[s := arena[s].(costs := arena[s].costs - delta)];
      LowerEntry(a, |variant|, s, level, delta, arena);
      ghost var mid := arena;
      var children := arena[s].children;
      UpdateCostsRecursive(delta, children, level + 1);
      LowerSubtreeDone(a, |variant|, s, level, delta, mid, arena);
    }

    /**
     * Checks the candidate against the collection: answers whether some
     * entry is equivalent to it, and relaxes every equivalent entry that is
     * more expensive (see `RelaxedEntry`).
     */
    method CheckIfStateExistsAndUpdate(cand: SearchState, coll: set<nat>) returns (found: bool)
      requires Shaped(arena, |variant|) && forall x :: x in coll ==> x < |arena|
      requires cand.index <= |variant|
      requires cand.parent.Some? ==> cand.parent.value < |arena| && arena[cand.parent.value].index + 1 == cand.index
      modifies this
      ensures found <==> HasEquivalent(old(arena), cand, coll)
      ensures RelaxedFrom(old(arena), arena, |variant|, cand, coll)
      ensures SameShape(old(arena), arena) && Shaped(arena, |variant|)
      ensures open == old(open) && closed == old(closed) && last == old(last)
    {
      ghost var a0 := arena;
      ghost var n := |variant|;
      found := false;
      var todo := coll;
      ghost var done: set<nat> := {};
      RelaxedNothing(a0, n, cand);
      while todo != {}
        invariant todo + done == coll && todo * done == {}
        invariant SameShape(a0, arena) && Shaped(arena, n)
        invariant RelaxedFrom(a0, arena, n, cand, done)
        invariant found <==> HasEquivalent(a0, cand, done)
        invariant open == old(open) && closed == old(closed) && last == old(last)
        decreases todo
      {
        var alt :| alt in todo;
        CheckVisit(a0, n, cand, done, alt, arena);
        if arena[alt].index == cand.index && arena[alt].state == cand.state {
          found := true;
          if cand.costs < arena[alt].costs {
            ghost var b := arena;
            assert ChildLinksOk(arena, alt);
            var delta := arena[alt].costs - cand.costs;
            var below := arena[alt].children;
            ghost var level := arena[alt].index + 1;
            UpdateCostsRecursive(delta, below, level);
            ghost var m := arena;
            arena := arena[alt := arena[alt].(costs := cand.costs, parent := cand.parent, leaves := cand.leaves)];
            CheckRelax(a0, n, cand, done, alt, b, below, level, delta, m, arena);
          } else {
            CheckSkip(a0, n, cand, done, alt, arena);
          }
        } else {
          CheckSkip(a0, n, cand, done, alt, arena);
        }
        todo := todo - {alt};
        done := done + {alt};
      }
    }

    /** Adds the successor `cand` of the expanded entry `p` (see `Added`). */
    method AddNewState(cand: SearchState, p: nat)
      requires Valid() && SuccessorOk(tree, variant, arena, p, cand, last)
      modifies this
      ensures (arena, open) == Added(old(arena), old(open), old(closed), |variant|, cand, p)
      ensures closed == old(closed) && last == old(last)
    {
      ghost var a0, open0 := arena, open;
      ghost var n := |variant|;
      assert LinkOk(arena, n, p);
      var inClosed := CheckIfStateExistsAndUpdate(cand, closed);
      RelaxedIsShaped(a0, Relaxed(a0, n, cand, closed), n, cand, closed);
      RelaxedUnique(a0, arena, Relaxed(a0, n, cand, closed), n, cand, closed);
      if !inClosed {
        NoEquivalentNoChange(a0, n, cand, closed);
        var inOpen := CheckIfStateExistsAndUpdate(cand, OpenSet(open));
        RelaxedIsShaped(a0, Relaxed(a0, n, cand, OpenSet(open0)), n, cand, OpenSet(open0));
        RelaxedUnique(a0, arena, Relaxed(a0, n, cand, OpenSet(open0)), n, cand, OpenSet(open0));
        if !inOpen {
          NoEquivalentNoChange(a0, n, cand, OpenSet(open0));
          var id := |arena|;
          arena := arena[p := arena[p].(children := arena[p].children + {id})] + [cand];
          open := open + multiset{id};
        }
      }
    }

    /**
     * Expands the popped entry `p`: a synchronous move on every candidate leaf
     * that can be enabled, in leaf-set order, then the log move when no
     * candidate exists or some candidate forces one (see `Successors`).
     */
    method Expand(p: nat)
      requires Valid() && p < |arena| && arena[p].index < |variant| && arena[p].costs == last
      modifies this
      ensures closed == old(closed) && last == old(last)
      ensures forall c :: c in Successors(tree, leafSet, variant, oracle, old(arena)[p], p) ==>
                SuccessorOk(tree, variant, old(arena), p, c, last)
      ensures (arena, open) == AddedAll(old(arena), old(open), closed, |variant|,
                                        Successors(tree, leafSet, variant, oracle, old(arena)[p], p), p)
    {
      ghost var a0, open0, closed0, last0 := arena, open, closed, last;
      ghost var n := |variant|;
      assert EntryOk(tree, variant, arena, p, last);
      var s := arena[p];
      var cands := Candidates(tree, leafSet, variant[s.index]);
      var needLog := |cands| == 0;
      var rest := cands;
      ghost var seen: seq<NodeId> := [];
      while rest != []
        invariant seen + rest == cands && KeepsKeys(oracle) && s == a0[p]
        invariant closed == closed0 && last == last0
        invariant Inv(tree, leafSet, variant, oracle, a0, open0, closed0, last0)
        invariant forall c :: c in SyncSuccessors(tree, oracle, s, p, seen) ==> Fits(a0, n, p, c)
        invariant (arena, open) == AddedAll(a0, open0, closed0, n, SyncSuccessors(tree, oracle, s, p, seen), p)
        invariant needLog <==> |cands| == 0 || exists l :: l in seen && ForcesLogMove(tree, oracle, s, l)
        decreases |rest|
      {
        var leaf := rest[0];
        ghost var needBefore := needLog;
        var en := oracle.enable(tree, leaf, s.state);
        if en.None? {
          ExpandSkipStep(tree, oracle, s, p, cands, seen, rest);
          needLog := true;
        } else {
          if !needLog {
            needLog := NeedLogMove(tree, s.state, en.value.state, en.value.path);
          }
          var c := SyncSuccessor(tree, oracle, s, p, leaf).value;
          ExpandSyncStep(tree, leafSet, variant, oracle, a0, open0, closed0, last0, p, cands, seen, rest, arena, open, c);
          AddNewState(c, p);
        }
        LogMoveNeededSnoc(tree, oracle, s, |cands| == 0, seen, leaf, needBefore, needLog);
        seen := seen + [leaf];
        rest := rest[1..];
      }
      SuccessorsCollected(tree, leafSet, variant, oracle, s, p, cands, seen, rest, needLog);
      ghost var done := SyncSuccessors(tree, oracle, s, p, seen);
      if needLog {
        var c := LogMoveSuccessor(s, p);
        ExpandLogStep(tree, leafSet, variant, oracle, a0, open0, closed0, last0, p, cands, seen, rest, arena, open);
        AddNewState(c, p);
        done := done + [c];
      }
      assert (arena, open) == AddedAll(a0, open0, closed0, n, done, p);
      assert done == Successors(tree, leafSet, variant, oracle, a0[p], p);
      SuccessorsOkFrom(tree, leafSet, variant, oracle, a0, last, p);
    }

    /**
     * At the end of the trace: closes the whole tree from the snapshot of
     * `p`, charges the labelled leaves of the closing path, records all of
     * its leaves, and pushes `p` back onto the frontier.
     */
    method Finish(p: nat)
      requires Valid() && p < |arena| && arena[p].index == |variant| && arena[p].costs >= last
      modifies this
      ensures arena == old(arena)[p := Finished(tree, oracle, old(arena)[p])]
      ensures open == old(open) + multiset{p} && closed == old(closed) && last == old(last)
      ensures Valid()
    {
      FinishKeepsInv(tree, leafSet, variant, oracle, arena, open, closed, last, p);
      var s := arena[p];
      var cl := oracle.close(tree, [], s.state);
      var modelMoves := LeavesOfPath(tree, cl.path, false);
      arena := arena[p := s.(state := cl.state, costs := s.costs + |modelMoves|,
                             leaves := s.leaves + LeavesOfPath(tree, cl.path, true))];
      open := open + multiset{p};
    }

    /** Pops a cheapest entry of the frontier, on equal cost the one further along the trace. */
    method PopCheapest() returns (m: nat)
      requires Valid() && open != multiset{}
      modifies this
      ensures m < |arena| && IsMinimum(arena, old(open), m)
      ensures open == old(open) - multiset{m} && arena == old(arena) && closed == old(closed)
      ensures old(last) <= last == arena[m].costs
      ensures Valid() && [] in arena[m].state && arena[m].costs >= 0
      ensures forall j :: j in open ==> arena[m].costs <= arena[j].costs
    {
      MinimumExists(arena, open);
      m :| IsMinimum(arena, open, m);
      PopKeepsInv(tree, leafSet, variant, oracle, arena, open, closed, last, m);
      assert EntryOk(tree, variant, arena, m, last);
      open := open - multiset{m};
      last := arena[m].costs;
    }

    /**
     * Marks the popped entry `m` expanded, then expands it or, at the end of
     * the trace, closes up its tree and pushes it back.
     */
    method Advance(m: nat)
      requires Valid() && m < |arena| && arena[m].costs == last
      modifies this
      ensures Valid() && last == old(last) && closed == old(closed) + {m}
      ensures old(arena)[m].index < |variant| ==>
                (arena, open) == AddedAll(old(arena), old(open), old(closed) + {m}, |variant|,
                                          Successors(tree, leafSet, variant, oracle, old(arena)[m], m), m)
      ensures old(arena)[m].index >= |variant| ==>
                arena == old(arena)[m := Finished(tree, oracle, old(arena)[m])] && open == old(open) + multiset{m}
    {
      closed := closed + {m};
      assert LinkOk(arena, |variant|, m);
      if arena[m].index < |variant| {
        ghost var a1, o1 := arena, open;
        Expand(m);
        AddedAllKeepsInv(tree, leafSet, variant, oracle, a1, o1, closed, last,
                         Successors(tree, leafSet, variant, oracle, a1[m], m), m);
      } else {
        Finish(m);
      }
    }

    /**
     * The search loop: a closed tree at the end of the trace is the answer;
     * any other popped entry is advanced.  An empty frontier ends the search
     * without an answer; `fuel` bounds the number of pops.
     */
    method Search(fuel: nat) returns (outcome: SearchOutcome, ghost goal: nat)
      requires Valid()
      modifies this
      ensures Valid()
      ensures outcome.Exhausted? ==> open == multiset{}
      ensures outcome.Found? ==>
                goal < |arena| && arena[goal].index == |variant| &&
                [] in arena[goal].state && IsFinalTreeState(arena[goal].state) &&
                outcome.record == AlignmentRecord(arena[goal].costs, Reconstruct(tree, variant, arena, goal), true) &&
                outcome.record.cost >= 0 &&
                (forall j :: j in open ==> outcome.record.cost <= arena[j].costs) &&
                LogSide(outcome.record.moves) == variant &&
                ModelSide(outcome.record.moves) == LeafTrail(arena, goal, |variant|)
    {
      goal := 0;
      var budget := fuel;
      while budget > 0
        invariant Valid()
        decreases budget
      {
        if open == multiset{} {
          return Exhausted, goal;
        }
        budget := budget - 1;
        var m := PopCheapest();
        var s := arena[m];
        if IsFinalTreeState(s.state) && s.index == |variant| {
          assert EntryOk(tree, variant, arena, m, last);
          GoalExplainsTrace(tree, variant, arena, last, m);
          ReconstructModelSide(tree, variant, arena, m);
          var record := ConstructResult(tree, variant, arena, m);
          return Found(record), m;
        }
        Advance(m);
      }
      outcome := OutOfFuel;
    }
  }

  /**
   * Aligns one trace variant against the tree, starting from the initial
   * snapshot at cost 0; `fuel` bounds the number of pops.
   */
  method ApplyVariant(variant: seq<Label>, leafSet: seq<NodeId>, tree: PTree, oracle: Oracle, fuel: nat)
    returns (outcome: SearchOutcome)
    requires KeepsKeys(oracle) && CloseOpensLeaf(oracle) && LeafSetOk(tree, leafSet)
    ensures outcome.Found? ==>
              outcome.record.optimal && outcome.record.cost >= 0 && LogSide(outcome.record.moves) == variant
  {
    var search := new AlignmentSearch(tree, leafSet, variant, oracle);
    ghost var goal;
    outcome, goal := search.Search(fuel);
  }
}
