/**
 * Candidate selection of the evolutionary tree miner.  The elite is made of
 * deep copies of the best-quality individuals; quality-proportional selection
 * then draws the rest of the next generation from the population list and
 * removes each pick from that list.  Each weighted draw is a caller-supplied
 * natural number brought into the range of the members still undecided, so
 * every member can be the one drawn.
 */
module CandidateSelection {
  import opened Sequences
  import opened Population

  // ---------------------------------------------------------------------------
  // Ranking by quality
  // ---------------------------------------------------------------------------

  /** Every entry of `order` is an index below `n`. */
  predicate IndicesBelow(order: seq<nat>, n: nat)
  {
    forall a :: 0 <= a < |order| ==> order[a] < n
  }

  /** Index `i` placed after every index of `order` whose quality is at least its own. */
  function Insert(qs: seq<real>, i: nat, order: seq<nat>): (r: seq<nat>)
    requires i < |qs| && IndicesBelow(order, |qs|)
    ensures |r| == |order| + 1 && IndicesBelow(r, |qs|)
    ensures forall k :: k in r <==> k == i || k in order
  {
    if order == [] then [i]
    else if qs[order[0]] >= qs[i] then [order[0]] + Insert(qs, i, order[1..])
    else [i] + order
  }

  /**
   * `sorted(..., key=quality, reverse=True)` on the first `n` members, as the
   * list of their indices: every index below `n` exactly once.
   */
  function Ranking(qs: seq<real>, n: nat): (r: seq<nat>)
    requires n <= |qs|
    ensures |r| == n && IndicesBelow(r, n) && forall k :: k in r <==> 0 <= k < n
  {
    if n == 0 then []
    else
      var r := Insert(qs, n - 1, Ranking(qs, n - 1));
      assert forall a :: 0 <= a < |r| ==> r[a] in r;
      r
  }

  /** Index `x` comes before index `y`: higher quality, or equal quality and earlier in the list. */
  predicate Before(qs: seq<real>, x: nat, y: nat)
    requires x < |qs| && y < |qs|
  {
    qs[x] > qs[y] || (qs[x] == qs[y] && x < y)
  }

  /**
   * Descending quality, and equal qualities in list order (Python's sort is
   * stable, also when it sorts in reverse).
   */
  predicate RankedBy(qs: seq<real>, order: seq<nat>)
    requires IndicesBelow(order, |qs|)
  {
    forall a, b :: 0 <= a < b < |order| ==> Before(qs, order[a], order[b])
  }

  /** A ranking's first index comes before all others, and the rest is a ranking. */
  lemma RankedTail(qs: seq<real>, order: seq<nat>)
    requires order != [] && IndicesBelow(order, |qs|) && RankedBy(qs, order)
    ensures IndicesBelow(order[1..], |qs|) && RankedBy(qs, order[1..])
    ensures forall y :: y in order[1..] ==> Before(qs, order[0], y)
  {
    var rest := order[1..];
    forall a, b | 0 <= a < b < |rest|
      ensures Before(qs, rest[a], rest[b])
    {
      assert rest[a] == order[a + 1] && rest[b] == order[b + 1];
    }
    forall y | y in rest
      ensures Before(qs, order[0], y)
    {
      var c :| 0 <= c < |rest| && rest[c] == y;
      assert order[c + 1] == y;
    }
  }

  /** An index that comes before every index of a ranking can head it. */
  lemma RankedCons(qs: seq<real>, x: nat, order: seq<nat>)
    requires x < |qs| && IndicesBelow(order, |qs|) && RankedBy(qs, order)
    requires forall y :: y in order ==> Before(qs, x, y)
    ensures IndicesBelow([x] + order, |qs|) && RankedBy(qs, [x] + order)
  {
    var r := [x] + order;
    forall a, b | 0 <= a < b < |r|
      ensures Before(qs, r[a], r[b])
    {
      assert r[b] == order[b - 1];
      if a > 0 {
        assert r[a] == order[a - 1];
      }
    }
  }

  /** Inserting the next index into a ranking of earlier indices keeps it a ranking. */
  lemma {:induction false} InsertRanked(qs: seq<real>, i: nat, order: seq<nat>)
    requires i < |qs| && IndicesBelow(order, i) && RankedBy(qs, order)
    ensures RankedBy(qs, Insert(qs, i, order))
    decreases order
  {
    if order != [] {
      RankedTail(qs, order);
      var rest := order[1..];
      if qs[order[0]] >= qs[i] {
        InsertRanked(qs, i, rest);
        RankedCons(qs, order[0], Insert(qs, i, rest));
      } else {
        assert forall y :: y in order ==> y == order[0] || y in rest;
        RankedCons(qs, i, order);
      }
    }
  }

  /** The ranking is ordered by descending quality, ties in list order. */
  lemma {:induction false} RankingRanked(qs: seq<real>, n: nat)
    requires n <= |qs|
    ensures RankedBy(qs, Ranking(qs, n))
  {
    if n > 0 {
      RankingRanked(qs, n - 1);
      InsertRanked(qs, n - 1, Ranking(qs, n - 1));
    }
  }

  /** The length of Python's `xs[:e]` for a list of `n` items; a negative `e` counts from the end. */
  function SliceEnd(n: nat, e: int): (k: nat)
    ensures k <= n
  {
    if e >= 0 then (if e < n then e else n) else if n + e >= 0 then n + e else 0
  }

  /**
   * The elite are the best: no member left out of the first `SliceEnd(n, e)`
   * ranked indices has a higher quality than any member taken.
   */
  lemma EliteIsTop(qs: seq<real>, e: int, a: nat, j: nat)
    requires a < SliceEnd(|qs|, e) && j < |qs|
    requires j !in Ranking(qs, |qs|)[..SliceEnd(|qs|, e)]
    ensures qs[j] <= qs[Ranking(qs, |qs|)[a]]
  {
    var r := Ranking(qs, |qs|);
    RankingRanked(qs, |qs|);
    var top := r[..SliceEnd(|qs|, e)];
    assert forall c :: 0 <= c < |top| ==> top[c] == r[c] && top[c] in top;
    assert j in r;
    var b :| 0 <= b < |r| && r[b] == j;
    assert a < b;
  }

  /** The qualities of the members, in list order. */
  function Qualities(ps: seq<Individual>): (qs: seq<real>)
    reads ps
    requires forall i :: 0 <= i < |ps| ==> ps[i].quality.Some?
    ensures |qs| == |ps| && forall i :: 0 <= i < |qs| ==> qs[i] == ps[i].quality.value
  {
    if ps == [] then [] else [ps[0].quality.value] + Qualities(ps[1..])
  }

  /** The sort key of every member, read in list order. */
  method CollectQualities(population: seq<Individual>) returns (qs: seq<real>)
    requires forall i :: 0 <= i < |population| ==> population[i].quality.Some?
    ensures qs == Qualities(population)
  {
    qs := [];
    for i := 0 to |population|
      invariant |qs| == i && forall j :: 0 <= j < i ==> qs[j] == population[j].quality.value
    {
      qs := qs + [population[i].quality.value];
    }
  }

  /**
   * The elite of `select_candidates`: deep copies of the members the ranking
   * puts first, as many as the slice `[:eliteSize]` keeps.
   */
  method Elite(population: seq<Individual>, eliteSize: int) returns (elite: seq<Individual>)
    requires forall i :: 0 <= i < |population| ==> population[i].quality.Some?
    ensures |elite| == SliceEnd(|population|, eliteSize)
    ensures forall a :: 0 <= a < |elite| ==>
      fresh(elite[a]) && SameContents(elite[a], population[Ranking(Qualities(population), |population|)[a]])
  {
    var qs := CollectQualities(population);
    var order := Ranking(qs, |qs|);
    elite := DeepCopies(population, order[..SliceEnd(|population|, eliteSize)]);
  }

  /** `[deepcopy(p) for p in ...]` over the members at the given indices. */
  method DeepCopies(population: seq<Individual>, order: seq<nat>) returns (copies: seq<Individual>)
    requires IndicesBelow(order, |population|)
    ensures |copies| == |order|
    ensures forall a :: 0 <= a < |copies| ==> fresh(copies[a]) && SameContents(copies[a], population[order[a]])
  {
    copies := [];
    for a := 0 to |order|
      invariant |copies| == a
      invariant forall b :: 0 <= b < a ==> fresh(copies[b]) && SameContents(copies[b], population[order[b]])
    {
      var copy := new Individual.Copy(population[order[a]]);
      copies := copies + [copy];
    }
  }

  // ---------------------------------------------------------------------------
  // Quality-proportional selection
  // ---------------------------------------------------------------------------

  /** `POPULATION_SIZE - ELITE_SIZE` picks; `range` of a negative count is empty. */
  function Quantity(populationSize: int, eliteSize: int): nat
  {
    if populationSize - eliteSize > 0 then populationSize - eliteSize else 0
  }

  /**
   * The picks and the members left after drawing one member per draw from
   * the members still undecided and removing it, stopping when none is left.
   */
  /** The list without its entry at `k` (`list.remove` of that entry). */
  function RemoveAt<T>(pop: seq<T>, k: nat): (r: seq<T>)
    requires k < |pop|
    ensures |r| == |pop| - 1
  {
    pop[..k] + pop[k + 1..]
  }

  /** Removing an entry takes exactly one occurrence of it out of the list. */
  lemma RemoveAtMultiset<T>(pop: seq<T>, k: nat)
    requires k < |pop|
    ensures multiset(pop) == multiset(RemoveAt(pop, k)) + multiset{pop[k]}
  {
    assert pop == pop[..k] + [pop[k]] + pop[k + 1..];
  }

  /** Removing an entry from a list without repeats leaves no copy of it. */
  lemma RemoveAtDistinct<T>(pop: seq<T>, k: nat)
    requires k < |pop| && Distinct(pop)
    ensures Distinct(RemoveAt(pop, k)) && pop[k] !in RemoveAt(pop, k)
  {
    var r := RemoveAt(pop, k);
    forall a | 0 <= a < |r|
      ensures r[a] == pop[if a < k then a else a + 1]
    {
    }
  }

  function Draw<T>(pop: seq<T>, draws: seq<nat>): (r: (seq<T>, seq<T>))
    ensures |r.0| == (if |draws| <= |pop| then |draws| else |pop|)
    ensures |r.0| + |r.1| == |pop|
    decreases draws
  {
    if draws == [] || pop == [] then ([], pop)
    else
      var k := draws[0] % |pop|;
      var next := Draw(RemoveAt(pop, k), draws[1..]);
      ([pop[k]] + next.0, next.1)
  }

  /** The picks and the members left together are the population, rearranged. */
  lemma {:induction false} DrawPermutes<T>(pop: seq<T>, draws: seq<nat>)
    ensures multiset(Draw(pop, draws).0) + multiset(Draw(pop, draws).1) == multiset(pop)
    decreases draws
  {
    if draws != [] && pop != [] {
      var k := draws[0] % |pop|;
      DrawPermutes(RemoveAt(pop, k), draws[1..]);
      RemoveAtMultiset(pop, k);
    }
  }

  /** Picks and remaining members are all members of the population. */
  lemma DrawWithin<T>(pop: seq<T>, draws: seq<nat>)
    ensures forall x :: x in Draw(pop, draws).0 ==> x in pop
    ensures forall x :: x in Draw(pop, draws).1 ==> x in pop
  {
    var r := Draw(pop, draws);
    DrawPermutes(pop, draws);
    forall x | x in r.0
      ensures x in pop
    {
      assert multiset(r.0)[x] > 0;
      assert multiset(pop)[x] >= multiset(r.0)[x];
    }
    forall x | x in r.1
      ensures x in pop
    {
      assert multiset(r.1)[x] > 0;
      assert multiset(pop)[x] >= multiset(r.1)[x];
    }
  }

  /** A fresh element in front of a list without repeats. */
  lemma DistinctCons<T>(x: T, s: seq<T>)
    requires Distinct(s) && x !in s
    ensures Distinct([x] + s)
  {
    var r := [x] + s;
    forall a, b | 0 <= a < b < |r|
      ensures r[a] != r[b]
    {
      assert r[b] == s[b - 1];
      if a > 0 {
        assert r[a] == s[a - 1];
      }
    }
  }

  /**
   * In a population that lists each member once, the picks are distinct
   * members and none of them is still in the population.
   */
  lemma {:induction false} DrawDistinct<T>(pop: seq<T>, draws: seq<nat>)
    requires Distinct(pop)
    ensures Distinct(Draw(pop, draws).0)
    ensures forall x :: x in Draw(pop, draws).0 ==> x in pop && x !in Draw(pop, draws).1
    decreases draws
  {
    if draws != [] && pop != [] {
      var k := draws[0] % |pop|;
      var pop' := RemoveAt(pop, k);
      RemoveAtDistinct(pop, k);
      DrawDistinct(pop', draws[1..]);
      DrawWithin(pop', draws[1..]);
      DrawWithin(pop, draws);
      var next := Draw(pop', draws[1..]);
      DistinctCons(pop[k], next.0);
    }
  }

  /** One draw: the pick at the drawn index, then the draws that follow on the list without it. */
  lemma DrawStep<T>(pop: seq<T>, draws: seq<nat>, i: nat)
    requires i < |draws| && pop != []
    ensures Draw(pop, draws[i..]).0 ==
      [pop[draws[i] % |pop|]] + Draw(RemoveAt(pop, draws[i] % |pop|), draws[i + 1..]).0
    ensures Draw(pop, draws[i..]).1 == Draw(RemoveAt(pop, draws[i] % |pop|), draws[i + 1..]).1
  {
    assert draws[i..][0] == draws[i] && draws[i..][1..] == draws[i + 1..];
  }

  /** The selection loop's invariant: the picks so far, then what the remaining draws pick from the rest. */
  ghost predicate DrawnSoFar<T>(start: seq<T>, draws: seq<nat>, i: nat, selection: seq<T>, rest: seq<T>)
    requires i <= |draws|
  {
    Draw(start, draws).0 == selection + Draw(rest, draws[i..]).0 &&
    Draw(start, draws).1 == Draw(rest, draws[i..]).1
  }

  /** The selection loop's invariant carries over one draw. */
  lemma DrawAdvance<T>(start: seq<T>, draws: seq<nat>, i: nat, selection: seq<T>, rest: seq<T>)
    requires i < |draws| && rest != [] && DrawnSoFar(start, draws, i, selection, rest)
    ensures DrawnSoFar(start, draws, i + 1, selection + [rest[draws[i] % |rest|]], RemoveAt(rest, draws[i] % |rest|))
  {
    var k := draws[i] % |rest|;
    var next := Draw(RemoveAt(rest, k), draws[i + 1..]);
    DrawStep(rest, draws, i);
    assert selection + ([rest[k]] + next.0) == selection + [rest[k]] + next.0;
  }

  /** The population list that selection removes its picks from, in place. */
  class PopulationList {
    var members: seq<Individual>

    constructor (members: seq<Individual>)
      ensures this.members == members
    {
      this.members := members;
    }

    /** One weighted draw: the drawn member, removed from the list. */
    method PickOne(draw: nat) returns (pick: Individual)
      modifies this
      requires members != []
      ensures pick == old(members)[draw % |old(members)|]
      ensures members == RemoveAt(old(members), draw % |old(members)|)
    {
      var k := draw % |members|;
      pick := members[k];
      members := RemoveAt(members, k);
    }

    /**
     * `quality_proportional`: `POPULATION_SIZE - ELITE_SIZE` times, draw a
     * member still in the list, append it to the selection and remove it
     * from the list.  `ok` is false when the list runs empty first (the
     * weighted draw from an empty list raises).
     */
    method QualityProportional(populationSize: int, eliteSize: int, draws: seq<nat>)
      returns (selection: seq<Individual>, ok: bool)
      modifies this
      requires forall i :: 0 <= i < |members| ==> members[i].quality.Some?
      requires |draws| == Quantity(populationSize, eliteSize)
      ensures ok <==> |draws| <= |old(members)|
      ensures selection == Draw(old(members), draws).0 && members == Draw(old(members), draws).1
    {
      selection := [];
      ghost var start := members;
      var i := 0;
      assert draws[0..] == draws && [] + Draw(start, draws).0 == Draw(start, draws).0;
      assert DrawnSoFar(start, draws, 0, selection, members);
      while i < |draws|
        invariant i <= |draws| && i <= |start| && |members| + i == |start|
        invariant DrawnSoFar(start, draws, i, selection, members)
      {
        if members == [] {
          assert selection + [] == selection;
          return selection, false;
        }
        DrawAdvance(start, draws, i, selection, members);
        var pick := PickOne(draws[i]);
        selection := selection + [pick];
        i := i + 1;
      }
      ok := true;
    }
  }

  /**
   * `select_candidates`: the elite is taken from the population before the
   * selection removes anything from it, and consists of fresh copies that
   * the removals leave alone.
   */
  method SelectCandidates(population: PopulationList, populationSize: int, eliteSize: int, draws: seq<nat>)
    returns (elite: seq<Individual>, selection: seq<Individual>, ok: bool)
    modifies population
    requires forall i :: 0 <= i < |population.members| ==> population.members[i].quality.Some?
    requires |draws| == Quantity(populationSize, eliteSize)
    ensures |elite| == SliceEnd(|old(population.members)|, eliteSize)
    ensures forall a :: 0 <= a < |elite| ==>
      fresh(elite[a]) && SameContents(elite[a], old(population.members)[old(Ranking(Qualities(population.members), |population.members|))[a]])
    ensures ok <==> |draws| <= |old(population.members)|
    ensures selection == Draw(old(population.members), draws).0
    ensures population.members == Draw(old(population.members), draws).1
  {
    ghost var before := population.members;
    ghost var order := Ranking(Qualities(before), |before|);
    elite := Elite(population.members, eliteSize);
    assert forall a :: 0 <= a < |elite| ==> fresh(elite[a]) && SameContents(elite[a], before[order[a]]);
    selection, ok := population.QualityProportional(populationSize, eliteSize, draws);
  }
}
