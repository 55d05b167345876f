/**
 * Evaluation of the evolutionary tree miner's individuals.  Every configured
 * metric's result, floored at zero, is stored under the metric's name, and
 * the individual's quality is the weighted mean of the stored values.  The
 * metric functions themselves (fitness, simplicity, ...) are computed outside
 * this part of the model: their results are inputs, one per metric and
 * individual.
 */
module Evaluation {
  import opened Wrappers
  import opened ProcessTrees
  import opened Population

  /**
   * An entry of the configured metric list: a bare metric, a one-element
   * tuple, or a (metric, weight) pair.  A metric is known here by its name.
   */
  datatype MetricEntry = Bare(name: string) | Single(name: string) | Weighted(name: string, weight: real)

  /** A metric name with its weight, the shape every entry is meant to have. */
  datatype Weighting = Weighting(name: string, weight: real)

  // ---------------------------------------------------------------------------
  // Weights of the configured metrics
  // ---------------------------------------------------------------------------

  /**
   * The normalisation loop as written: it rebinds only its loop variable, so
   * the configured list comes back as it was.
   */
  function NormaliseAsWritten(entries: seq<MetricEntry>): seq<MetricEntry>
  {
    entries
  }

  /**
   * The weights `calculate_quality` reads from the configured list: `metric[1]`
   * of every entry, which fails on a bare metric or a one-element tuple.
   */
  function WeightsOf(entries: seq<MetricEntry>): (r: Option<seq<Weighting>>)
    ensures r.Some? <==> forall i :: 0 <= i < |entries| ==> entries[i].Weighted?
    ensures r.Some? ==> |r.value| == |entries|
    ensures r.Some? ==> forall i :: 0 <= i < |entries| ==> r.value[i] == Weighting(entries[i].name, entries[i].weight)
  {
    if entries == [] then Some([])
    else
      match WeightsOf(entries[1..])
      case None => None
      case Some(rest) =>
        if entries[0].Weighted? then Some([Weighting(entries[0].name, entries[0].weight)] + rest) else None
  }

  /** The weight a metric is meant to get: its configured weight, and 1 when none is given. */
  function Normalise(entries: seq<MetricEntry>): (r: seq<Weighting>)
    ensures |r| == |entries|
    ensures forall i :: 0 <= i < |entries| ==> r[i].name == entries[i].name
    ensures forall i :: 0 <= i < |entries| ==> r[i].weight == if entries[i].Weighted? then entries[i].weight else 1.0
  {
    seq(|entries|, i requires 0 <= i < |entries| =>
      Weighting(entries[i].name, if entries[i].Weighted? then entries[i].weight else 1.0))
  }

  /** Where the configured list can be read as written, the normalised one reads the same. */
  lemma NormaliseAgrees(entries: seq<MetricEntry>)
    requires WeightsOf(NormaliseAsWritten(entries)).Some?
    ensures WeightsOf(NormaliseAsWritten(entries)).value == Normalise(entries)
  {
  }

  /**
   * A one-element tuple is left without a weight by the normalisation as
   * written, so reading the weights fails; normalised, it weighs 1.
   */
  lemma UnweightedEntryFails()
    ensures WeightsOf(NormaliseAsWritten([Single("fitness")])).None?
    ensures Normalise([Single("fitness")]) == [Weighting("fitness", 1.0)]
  {
    assert !NormaliseAsWritten([Single("fitness")])[0].Weighted?;
  }

  // ---------------------------------------------------------------------------
  // evaluate_tree
  // ---------------------------------------------------------------------------

  /** `max(0, v)`. */
  function Floor0(v: real): (r: real)
    ensures r >= 0.0 && r >= v && (r == v || r == 0.0)
  {
    if v > 0.0 then v else 0.0
  }

  /**
   * The entries `evaluate_tree` writes: each metric's floored result under its
   * name, a later metric of the same name overwriting an earlier one.
   */
  function Stored(ws: seq<Weighting>, results: seq<real>): (m: map<string, real>)
    requires |results| == |ws|
    ensures forall i :: 0 <= i < |ws| ==> ws[i].name in m
    ensures forall k :: k in m ==> m[k] >= 0.0
  {
    if ws == [] then map[]
    else Stored(ws[..|ws| - 1], results[..|ws| - 1])[ws[|ws| - 1].name := Floor0(results[|ws| - 1])]
  }

  /** Only the configured metrics' names are written. */
  lemma {:induction false} StoredOnlyNames(ws: seq<Weighting>, results: seq<real>, k: string)
    requires |results| == |ws| && k in Stored(ws, results)
    ensures exists i :: 0 <= i < |ws| && ws[i].name == k
  {
    var n := |ws| - 1;
    if ws[n].name != k {
      StoredOnlyNames(ws[..n], results[..n], k);
      var i :| 0 <= i < n && ws[..n][i].name == k;
      assert ws[i].name == k;
    }
  }

  /** A metric that no later metric shares its name with keeps its own floored result. */
  lemma {:induction false} StoredLastWins(ws: seq<Weighting>, results: seq<real>, i: nat)
    requires |results| == |ws| && i < |ws|
    requires forall j :: i < j < |ws| ==> ws[j].name != ws[i].name
    ensures Stored(ws, results)[ws[i].name] == Floor0(results[i])
  {
    var n := |ws| - 1;
    if i < n {
      forall j | i < j < n
        ensures ws[..n][j].name != ws[..n][i].name
      {
      }
      StoredLastWins(ws[..n], results[..n], i);
    }
  }

  /** One more metric written. */
  lemma StoredStep(ws: seq<Weighting>, results: seq<real>, i: nat)
    requires |results| == |ws| && i < |ws|
    ensures Stored(ws[..i + 1], results[..i + 1]) == Stored(ws[..i], results[..i])[ws[i].name := Floor0(results[i])]
  {
    assert ws[..i + 1][..i] == ws[..i] && results[..i + 1][..i] == results[..i];
  }

  /** Writing into a union writes into its right-hand side. */
  lemma UnionUpdate<K, V>(a: map<K, V>, b: map<K, V>, k: K, v: V)
    ensures (a + b)[k := v] == a + b[k := v]
  {
  }

  /**
   * `evaluate_tree`: for each metric in turn, its result floored at zero is
   * written under its name; entries of other names stay as they were.
   */
  method EvaluateTree(individual: Individual, ws: seq<Weighting>, results: seq<real>)
    modifies individual
    requires |results| == |ws|
    ensures individual.scores == old(individual.scores) + Stored(ws, results)
    ensures individual.id == old(individual.id) && individual.tree == old(individual.tree)
    ensures individual.logActivities == old(individual.logActivities) && individual.quality == old(individual.quality)
  {
    for i := 0 to |ws|
      invariant individual.scores == old(individual.scores) + Stored(ws[..i], results[..i])
      invariant individual.id == old(individual.id) && individual.tree == old(individual.tree)
      invariant individual.logActivities == old(individual.logActivities) && individual.quality == old(individual.quality)
    {
      StoredStep(ws, results, i);
      UnionUpdate(old(individual.scores), Stored(ws[..i], results[..i]), ws[i].name, Floor0(results[i]));
      individual.scores := individual.scores[ws[i].name := Floor0(results[i])];
    }
    assert ws[..|ws|] == ws && results[..|ws|] == results;
  }

  // ---------------------------------------------------------------------------
  // calculate_quality
  // ---------------------------------------------------------------------------

  /** `sum` of the weights. */
  function WeightSum(ws: seq<Weighting>): real
  {
    if ws == [] then 0.0 else WeightSum(ws[..|ws| - 1]) + ws[|ws| - 1].weight
  }

  /** Every metric has an entry to read. */
  predicate Readable(ws: seq<Weighting>, scores: map<string, real>)
  {
    forall i :: 0 <= i < |ws| ==> ws[i].name in scores
  }

  /** The sum of weight times stored value. */
  function WeightedSum(ws: seq<Weighting>, scores: map<string, real>): real
    requires Readable(ws, scores)
  {
    if ws == [] then 0.0
    else WeightedSum(ws[..|ws| - 1], scores) + ws[|ws| - 1].weight * scores[ws[|ws| - 1].name]
  }

  /** The quality: the weighted mean of the stored values, and 0 with no metrics. */
  function Quality(ws: seq<Weighting>, scores: map<string, real>): real
    requires Readable(ws, scores) && (ws == [] || WeightSum(ws) != 0.0)
  {
    if ws == [] then 0.0 else WeightedSum(ws, scores) / WeightSum(ws)
  }

  /** Adding one weighted share to a running quality. */
  lemma ShareStep(acc: real, w: real, v: real, total: real)
    requires total != 0.0
    ensures acc / total + (w / total) * v == (acc + w * v) / total
  {
  }

  /** One more metric accumulated. */
  lemma WeightedStep(ws: seq<Weighting>, scores: map<string, real>, i: nat)
    requires Readable(ws, scores) && i < |ws|
    ensures Readable(ws[..i], scores) && Readable(ws[..i + 1], scores)
    ensures WeightedSum(ws[..i + 1], scores) == WeightedSum(ws[..i], scores) + ws[i].weight * scores[ws[i].name]
  {
    assert ws[..i + 1][..i] == ws[..i];
  }

  /**
   * `calculate_quality`: the sum of `weight / weight_sum * value` over the
   * metrics, stored as the quality.  With metrics whose weights sum to zero
   * the division fails (`ok` false) before anything is stored.
   */
  method CalculateQuality(individual: Individual, ws: seq<Weighting>) returns (ok: bool)
    modifies individual
    requires Readable(ws, individual.scores)
    ensures individual.scores == old(individual.scores) && individual.id == old(individual.id)
    ensures individual.tree == old(individual.tree) && individual.logActivities == old(individual.logActivities)
    ensures ok <==> ws == [] || WeightSum(ws) != 0.0
    ensures ok ==> individual.quality == Some(Quality(ws, individual.scores))
    ensures !ok ==> individual.quality == old(individual.quality)
  {
    var scores := individual.scores;
    var weightSum := WeightSum(ws);
    if ws != [] && weightSum == 0.0 {
      return false;
    }
    var quality := 0.0;
    if ws != [] {
      quality := WeightedMean(ws, scores, weightSum);
    }
    individual.quality := Some(quality);
    ok := true;
  }

  /** The accumulation loop of `calculate_quality`. */
  method WeightedMean(ws: seq<Weighting>, scores: map<string, real>, weightSum: real) returns (quality: real)
    requires Readable(ws, scores) && ws != [] && weightSum == WeightSum(ws) && weightSum != 0.0
    ensures quality == Quality(ws, scores)
  {
    quality := 0.0;
    for i := 0 to |ws|
      invariant Readable(ws[..i], scores)
      invariant quality == WeightedSum(ws[..i], scores) / weightSum
    {
      WeightedStep(ws, scores, i);
      ShareStep(WeightedSum(ws[..i], scores), ws[i].weight, scores[ws[i].name], weightSum);
      quality := quality + (ws[i].weight / weightSum) * scores[ws[i].name];
    }
    assert ws[..|ws|] == ws;
  }

  /** Weighted sums lie between the weight total times a lower and an upper bound of the values. */
  lemma {:induction false} WeightedSumBetween(ws: seq<Weighting>, scores: map<string, real>, lo: real, hi: real)
    requires Readable(ws, scores)
    requires forall i :: 0 <= i < |ws| ==> ws[i].weight >= 0.0 && lo <= scores[ws[i].name] <= hi
    ensures lo * WeightSum(ws) <= WeightedSum(ws, scores) <= hi * WeightSum(ws)
  {
    if ws != [] {
      var n := |ws| - 1;
      WeightedStep(ws, scores, n);
      assert ws[..n + 1] == ws;
      WeightedSumBetween(ws[..n], scores, lo, hi);
      ScaledBetween(ws[n].weight, scores[ws[n].name], lo, hi);
      Distribute(lo, WeightSum(ws[..n]), ws[n].weight);
      Distribute(hi, WeightSum(ws[..n]), ws[n].weight);
    }
  }

  /** A value between two bounds, scaled by a non-negative weight. */
  lemma ScaledBetween(w: real, v: real, lo: real, hi: real)
    requires w >= 0.0 && lo <= v <= hi
    ensures lo * w <= w * v <= hi * w
  {
    assert w * (v - lo) >= 0.0 && w * (hi - v) >= 0.0;
  }

  lemma Distribute(c: real, a: real, b: real)
    ensures c * (a + b) == c * a + c * b
  {
  }

  /** A bound on a total, divided by a positive count. */
  lemma DividedBetween(s: real, t: real, lo: real, hi: real)
    requires t > 0.0 && lo * t <= s <= hi * t
    ensures lo <= s / t <= hi
  {
    var q := s / t;
    assert q * t == s;
    assert (q - lo) * t >= 0.0 && (hi - q) * t >= 0.0;
  }

  /**
   * With non-negative weights of positive total, the quality lies between
   * any lower and any upper bound of the stored values of the metrics.
   */
  lemma QualityBetween(ws: seq<Weighting>, scores: map<string, real>, lo: real, hi: real)
    requires Readable(ws, scores) && ws != [] && WeightSum(ws) > 0.0
    requires forall i :: 0 <= i < |ws| ==> ws[i].weight >= 0.0 && lo <= scores[ws[i].name] <= hi
    ensures lo <= Quality(ws, scores) <= hi
  {
    WeightedSumBetween(ws, scores, lo, hi);
    DividedBetween(WeightedSum(ws, scores), WeightSum(ws), lo, hi);
  }

  /** The largest stored value among the metrics. */
  function MaxValue(ws: seq<Weighting>, scores: map<string, real>): (m: real)
    requires Readable(ws, scores) && ws != []
    ensures forall i :: 0 <= i < |ws| ==> scores[ws[i].name] <= m
    ensures exists i :: 0 <= i < |ws| && scores[ws[i].name] == m
  {
    var v := scores[ws[|ws| - 1].name];
    if |ws| == 1 then v
    else
      var m := MaxValue(ws[..|ws| - 1], scores);
      assert forall i :: 0 <= i < |ws| - 1 ==> ws[..|ws| - 1][i] == ws[i];
      if v > m then v else m
  }

  /** The smallest stored value among the metrics. */
  function MinValue(ws: seq<Weighting>, scores: map<string, real>): (m: real)
    requires Readable(ws, scores) && ws != []
    ensures forall i :: 0 <= i < |ws| ==> m <= scores[ws[i].name]
    ensures exists i :: 0 <= i < |ws| && scores[ws[i].name] == m
  {
    var v := scores[ws[|ws| - 1].name];
    if |ws| == 1 then v
    else
      var m := MinValue(ws[..|ws| - 1], scores);
      assert forall i :: 0 <= i < |ws| - 1 ==> ws[..|ws| - 1][i] == ws[i];
      if v < m then v else m
  }

  /** With positive weights, the quality lies between the smallest and the largest stored value. */
  lemma QualityWithinValues(ws: seq<Weighting>, scores: map<string, real>)
    requires Readable(ws, scores) && ws != []
    requires forall i :: 0 <= i < |ws| ==> ws[i].weight > 0.0
    ensures WeightSum(ws) > 0.0
    ensures MinValue(ws, scores) <= Quality(ws, scores) <= MaxValue(ws, scores)
  {
    WeightSumPositive(ws);
    QualityBetween(ws, scores, MinValue(ws, scores), MaxValue(ws, scores));
  }

  /** Positive weights have a positive sum. */
  lemma {:induction false} WeightSumPositive(ws: seq<Weighting>)
    requires ws != [] && forall i :: 0 <= i < |ws| ==> ws[i].weight > 0.0
    ensures WeightSum(ws) > 0.0
  {
    if |ws| > 1 {
      WeightSumPositive(ws[..|ws| - 1]);
    }
  }

  /** Values stored by evaluation are never negative, so neither is the quality over them. */
  lemma QualityNonNegative(ws: seq<Weighting>, before: map<string, real>, results: seq<real>)
    requires |results| == |ws| && ws != []
    requires forall i :: 0 <= i < |ws| ==> ws[i].weight > 0.0
    ensures WeightSum(ws) > 0.0 && Readable(ws, before + Stored(ws, results))
    ensures Quality(ws, before + Stored(ws, results)) >= 0.0
  {
    var scores := before + Stored(ws, results);
    QualityWithinValues(ws, scores);
  }

  // ---------------------------------------------------------------------------
  // evaluate_tree_list
  // ---------------------------------------------------------------------------

  /** An individual whose metrics have been stored and whose quality has been computed from them. */
  predicate Evaluated(scores: map<string, real>, quality: Option<real>, ws: seq<Weighting>)
  {
    Readable(ws, scores) && (ws == [] || WeightSum(ws) != 0.0) &&
    (forall i :: 0 <= i < |ws| ==> scores[ws[i].name] >= 0.0) &&
    quality == Some(Quality(ws, scores))
  }

  /**
   * Storing one set of results and then another over the same metrics
   * leaves only the second: both write exactly the metrics' names.
   */
  lemma StoredOverwrites(m: map<string, real>, ws: seq<Weighting>, first: seq<real>, second: seq<real>)
    requires |first| == |ws| && |second| == |ws|
    ensures (m + Stored(ws, first)) + Stored(ws, second) == m + Stored(ws, second)
  {
    forall k | k in Stored(ws, first)
      ensures k in Stored(ws, second)
    {
      StoredOnlyNames(ws, first, k);
    }
  }

  /** No position after `j` and before `n` holds the same individual as position `j`. */
  predicate LastBefore(trees: seq<Individual>, j: nat, n: nat)
    requires j < |trees| && n <= |trees|
  {
    forall i :: j < i < n ==> trees[i] != trees[j]
  }

  /** No position before `n` holds the same individual as position `j`. */
  predicate NotBefore(trees: seq<Individual>, j: nat, n: nat)
    requires j < |trees| && n <= |trees|
  {
    forall i :: 0 <= i < n ==> trees[i] != trees[j]
  }

  /** The last position before `k` holding the same individual as position `k`, when there is one. */
  lemma LastEarlier(trees: seq<Individual>, k: nat) returns (j: nat)
    requires k < |trees| && !NotBefore(trees, k, k)
    ensures j < k && trees[j] == trees[k] && LastBefore(trees, j, k)
  {
    j := k - 1;
    while trees[j] != trees[k]
      invariant j < k && forall i :: j < i < k ==> trees[i] != trees[k]
      invariant exists i :: 0 <= i <= j && trees[i] == trees[k]
      decreases j
    {
      j := j - 1;
    }
  }

  /** One round of `evaluate_tree_list`: store the member's metrics, then compute its quality. */
  method EvaluateMember(individual: Individual, ws: seq<Weighting>, results: seq<real>) returns (ok: bool)
    modifies individual
    requires |results| == |ws|
    ensures ok <==> ws == [] || WeightSum(ws) != 0.0
    ensures individual.scores == old(individual.scores) + Stored(ws, results)
    ensures individual.id == old(individual.id) && individual.tree == old(individual.tree)
    ensures individual.logActivities == old(individual.logActivities)
    ensures ok ==> Evaluated(individual.scores, individual.quality, ws)
  {
    EvaluateTree(individual, ws, results);
    ok := CalculateQuality(individual, ws);
  }

  /** The scores of the listed individuals, in list order. */
  ghost function ScoresOf(trees: seq<Individual>): (r: seq<map<string, real>>)
    reads set t | t in trees
    ensures |r| == |trees| && forall j :: 0 <= j < |trees| ==> r[j] == trees[j].scores
  {
    if trees == [] then [] else [trees[0].scores] + ScoresOf(trees[1..])
  }

  /** The qualities of the listed individuals, in list order. */
  ghost function QualitiesOf(trees: seq<Individual>): (r: seq<Option<real>>)
    reads set t | t in trees
    ensures |r| == |trees| && forall j :: 0 <= j < |trees| ==> r[j] == trees[j].quality
  {
    if trees == [] then [] else [trees[0].quality] + QualitiesOf(trees[1..])
  }

  /** The entries evaluation never writes (id, log activities, tree) of the listed individuals, in list order. */
  ghost function FixedOf(trees: seq<Individual>): (r: seq<(nat, seq<Label>, PTree)>)
    reads set t | t in trees
    ensures |r| == |trees|
    ensures forall j :: 0 <= j < |trees| ==> r[j] == (trees[j].id, trees[j].logActivities, trees[j].tree)
  {
    if trees == [] then [] else [(trees[0].id, trees[0].logActivities, trees[0].tree)] + FixedOf(trees[1..])
  }

  /** What each position is meant to hold once its round has run: its old scores with its results stored over them. */
  ghost function Targets(olds: seq<map<string, real>>, ws: seq<Weighting>, results: seq<seq<real>>): (r: seq<map<string, real>>)
    requires |olds| == |results| && forall j :: 0 <= j < |results| ==> |results[j]| == |ws|
    ensures |r| == |olds| && forall j :: 0 <= j < |olds| ==> r[j] == olds[j] + Stored(ws, results[j])
  {
    seq(|olds|, j requires 0 <= j < |olds| => olds[j] + Stored(ws, results[j]))
  }

  /**
   * The values after the first `k` rounds: an individual whose last position
   * so far is `j` holds `targets[j]`, and one not reached yet still holds
   * `olds`.
   */
  ghost predicate StoredSoFar<T>(trees: seq<Individual>, values: seq<T>, olds: seq<T>, targets: seq<T>, k: nat)
    requires k <= |trees| == |values| == |olds| == |targets|
  {
    (forall j :: 0 <= j < k && LastBefore(trees, j, k) ==> values[j] == targets[j]) &&
    (forall j :: k <= j < |trees| && NotBefore(trees, j, k) ==> values[j] == olds[j])
  }

  /** The first `k` positions are evaluated. */
  predicate EvaluatedSoFar(scores: seq<map<string, real>>, qualities: seq<Option<real>>, ws: seq<Weighting>, k: nat)
    requires k <= |scores| == |qualities|
  {
    forall j :: 0 <= j < k ==> Evaluated(scores[j], qualities[j], ws)
  }

  /** Round `k` wrote `x` into its individual, seen at every position holding it, and nothing else. */
  ghost predicate WrittenAt<T>(trees: seq<Individual>, before: seq<T>, after: seq<T>, k: nat, x: T)
    requires |trees| == |before| == |after| && k < |trees|
  {
    forall j :: 0 <= j < |trees| ==> after[j] == if trees[j] == trees[k] then x else before[j]
  }

  /**
   * Round `k` stores its results over what its individual holds, which is
   * either its old scores or an earlier round's results over them: either
   * way only round `k`'s results remain.
   */
  lemma RoundTarget(trees: seq<Individual>, before: seq<map<string, real>>, olds: seq<map<string, real>>,
                    ws: seq<Weighting>, results: seq<seq<real>>, k: nat)
    requires k < |trees| == |before| == |olds| == |results|
    requires forall j :: 0 <= j < |trees| ==> |results[j]| == |ws|
    requires forall j :: 0 <= j < |trees| && trees[j] == trees[k] ==> olds[j] == olds[k] && before[j] == before[k]
    requires StoredSoFar(trees, before, olds, Targets(olds, ws, results), k)
    ensures before[k] + Stored(ws, results[k]) == Targets(olds, ws, results)[k]
  {
    if !NotBefore(trees, k, k) {
      var j := LastEarlier(trees, k);
      assert before[k] == before[j] == olds[k] + Stored(ws, results[j]);
      StoredOverwrites(olds[k], ws, results[j], results[k]);
    }
  }

  /** Writing round `k`'s target keeps what the earlier rounds wrote. */
  lemma StoredRound<T>(trees: seq<Individual>, before: seq<T>, after: seq<T>, olds: seq<T>, targets: seq<T>, k: nat)
    requires k < |trees| == |before| == |after| == |olds| == |targets|
    requires StoredSoFar(trees, before, olds, targets, k)
    requires WrittenAt(trees, before, after, k, targets[k])
    ensures StoredSoFar(trees, after, olds, targets, k + 1)
  {
    forall j | 0 <= j < k + 1 && LastBefore(trees, j, k + 1)
      ensures after[j] == targets[j]
    {
      if j < k {
        assert LastBefore(trees, j, k) && trees[k] != trees[j];
      } else {
        assert j == k;
      }
    }
    forall j | k + 1 <= j < |trees| && NotBefore(trees, j, k + 1)
      ensures after[j] == olds[j]
    {
      assert NotBefore(trees, j, k) && trees[k] != trees[j];
    }
  }

  /** Evaluating round `k`'s individual keeps the earlier rounds evaluated. */
  lemma EvaluatedRound(trees: seq<Individual>, before: seq<map<string, real>>, after: seq<map<string, real>>,
                       beforeQ: seq<Option<real>>, afterQ: seq<Option<real>>, ws: seq<Weighting>, k: nat)
    requires k < |trees| == |before| == |after| == |beforeQ| == |afterQ|
    requires EvaluatedSoFar(before, beforeQ, ws, k) && Evaluated(after[k], afterQ[k], ws)
    requires WrittenAt(trees, before, after, k, after[k]) && WrittenAt(trees, beforeQ, afterQ, k, afterQ[k])
    ensures EvaluatedSoFar(after, afterQ, ws, k + 1)
  {
    forall j | 0 <= j < k + 1
      ensures Evaluated(after[j], afterQ[j], ws)
    {
      if trees[j] != trees[k] {
        assert after[j] == before[j] && afterQ[j] == beforeQ[j];
      }
    }
  }

  /** Round `k` of `evaluate_tree_list`, keeping what the earlier rounds wrote. */
  method EvaluateRound(trees: seq<Individual>, k: nat, ws: seq<Weighting>, results: seq<seq<real>>,
                       ghost olds: seq<map<string, real>>, ghost targets: seq<map<string, real>>)
    returns (ok: bool)
    modifies trees[k]
    requires k < |trees| == |olds| == |results| && forall j :: 0 <= j < |trees| ==> |results[j]| == |ws|
    requires targets == Targets(olds, ws, results)
    requires forall j :: 0 <= j < |trees| && trees[j] == trees[k] ==> olds[j] == olds[k]
    requires StoredSoFar(trees, ScoresOf(trees), olds, targets, k)
    requires EvaluatedSoFar(ScoresOf(trees), QualitiesOf(trees), ws, k)
    ensures ok <==> ws == [] || WeightSum(ws) != 0.0
    ensures FixedOf(trees) == old(FixedOf(trees))
    ensures ok ==> StoredSoFar(trees, ScoresOf(trees), olds, targets, k + 1)
    ensures ok ==> EvaluatedSoFar(ScoresOf(trees), QualitiesOf(trees), ws, k + 1)
  {
    ghost var before, beforeQ, fixed := ScoresOf(trees), QualitiesOf(trees), FixedOf(trees);
    RoundTarget(trees, before, olds, ws, results, k);
    ok := EvaluateMember(trees[k], ws, results[k]);
    ghost var after, afterQ, fixedAfter := ScoresOf(trees), QualitiesOf(trees), FixedOf(trees);
    assert WrittenAt(trees, before, after, k, targets[k]) && WrittenAt(trees, beforeQ, afterQ, k, afterQ[k]) &&
           fixedAfter == fixed by {
      forall j | 0 <= j < |trees|
        ensures after[j] == if trees[j] == trees[k] then targets[k] else before[j]
        ensures afterQ[j] == if trees[j] == trees[k] then afterQ[k] else beforeQ[j]
        ensures fixedAfter[j] == fixed[j]
      {
      }
    }
    if !ok {
      return;
    }
    StoredRound(trees, before, after, olds, targets, k);
    EvaluatedRound(trees, before, after, beforeQ, afterQ, ws, k);
  }

  /**
   * `evaluate_tree_list`: every individual gets its metrics stored and its
   * quality computed, in list order, with the configured metrics normalised
   * to carry a weight.  `results[k]` holds the metric results for the `k`-th
   * individual.  An individual listed more than once keeps the results of
   * its last position.  When the weights sum to zero, the first quality
   * computation fails (`ok` false).
   */
  method EvaluateTreeList(trees: seq<Individual>, entries: seq<MetricEntry>, results: seq<seq<real>>)
    returns (ok: bool)
    modifies set t | t in trees
    requires |results| == |trees| && forall k :: 0 <= k < |trees| ==> |results[k]| == |entries|
    ensures ok <==> trees == [] || entries == [] || WeightSum(Normalise(entries)) != 0.0
    ensures ok ==> forall k :: 0 <= k < |trees| ==> Evaluated(trees[k].scores, trees[k].quality, Normalise(entries))
    ensures ok ==> forall k :: 0 <= k < |trees| && LastBefore(trees, k, |trees|) ==>
                     trees[k].scores == old(trees[k].scores) + Stored(Normalise(entries), results[k])
    ensures forall k :: 0 <= k < |trees| ==>
              trees[k].id == old(trees[k].id) && trees[k].logActivities == old(trees[k].logActivities) &&
              trees[k].tree == old(trees[k].tree)
  {
    var ws := Normalise(entries);
    ghost var olds, fixed := ScoresOf(trees), FixedOf(trees);
    ghost var targets := Targets(olds, ws, results);
    for k := 0 to |trees|
      invariant forall j :: 0 <= j < |trees| ==> olds[j] == old(trees[j].scores)
      invariant k > 0 ==> ws == [] || WeightSum(ws) != 0.0
      invariant forall j :: 0 <= j < |trees| ==>
                  fixed[j] == (old(trees[j].id), old(trees[j].logActivities), old(trees[j].tree))
      invariant FixedOf(trees) == fixed
      invariant StoredSoFar(trees, ScoresOf(trees), olds, targets, k)
      invariant EvaluatedSoFar(ScoresOf(trees), QualitiesOf(trees), ws, k)
    {
      ok := EvaluateRound(trees, k, ws, results, olds, targets);
      if !ok {
        return;
      }
    }
    ok := true;
    ghost var final := ScoresOf(trees);
    assert StoredSoFar(trees, final, olds, targets, |trees|);
    assert EvaluatedSoFar(final, QualitiesOf(trees), ws, |trees|);
  }
}
