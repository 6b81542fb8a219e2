/**
 * The batch optimizer of mev_optimization.py. For every asset `j` other than the
 * base, it splits the trades into the forward leg (base -> j) and the reverse leg
 * (j -> base), sorts each by rate, finds each leg's best prefix of profits, acts on
 * the better leg when it is profitable, and closes the cycle with a synthetic
 * "mediator" trade in the opposite direction.
 */
module MevOptimization {
  import opened Wrappers
  import opened Canon
  import opened Transaction
  import opened PrefixArgmax
  import opened RateSort

  /** `helper`: the USD profit of one trade at exogenous prices. */
  function Helper(src: string, dst: string, q: real, r: real, exo: map<string, real>): real
    requires src in exo && dst in exo
  {
    q * (exo[src] - exo[dst] * r)
  }

  /**
   * The profit is zero exactly when the quantity is zero or the trade is at the
   * exogenous exchange rate; for a positive quantity it is positive exactly when the
   * rate is below that exchange rate.
   */
  lemma HelperSign(src: string, dst: string, q: real, r: real, exo: map<string, real>)
    requires src in exo && dst in exo
    ensures q > 0.0 ==> (Helper(src, dst, q, r, exo) > 0.0 <==> exo[src] > exo[dst] * r)
    ensures Helper(src, dst, q, r, exo) == 0.0 <==> (q == 0.0 || exo[src] == exo[dst] * r)
  {
  }

  /** For a fixed trade size and a non-negative destination price, a higher rate never earns more. */
  lemma HelperAntitoneInRate(src: string, dst: string, q: real, r1: real, r2: real, exo: map<string, real>)
    requires src in exo && dst in exo
    requires q >= 0.0 && exo[dst] >= 0.0 && r1 <= r2
    ensures Helper(src, dst, q, r2, exo) <= Helper(src, dst, q, r1, exo)
  {
    assert exo[dst] * r1 <= exo[dst] * r2 by {
      assert exo[dst] * (r2 - r1) >= 0.0;
    }
    assert q * (exo[dst] * r2 - exo[dst] * r1) >= 0.0;
  }

  /** The trades of `batch` from `src` to `dst`, in batch order (a list comprehension). */
  function Leg(batch: seq<Trade>, src: string, dst: string): (leg: seq<Trade>)
    ensures |leg| <= |batch|
    ensures forall t :: t in leg <==> t in batch && t.src == src && t.dst == dst
  {
    if batch == [] then []
    else (if batch[0].src == src && batch[0].dst == dst then [batch[0]] else []) + Leg(batch[1..], src, dst)
  }

  /** `[helper(...) for tx in side]`. */
  function Profits(side: seq<Trade>, exo: map<string, real>): seq<real>
    requires forall t :: t in side ==> t.src in exo && t.dst in exo
  {
    seq(|side|, i requires 0 <= i < |side| => Helper(side[i].src, side[i].dst, side[i].q, side[i].r, exo))
  }

  /** `sum(tx.q for tx in s)`. */
  function QtySum(s: seq<Trade>): real {
    if s == [] then 0.0 else s[0].q + QtySum(s[1..])
  }

  /** `sum(tx.r * tx.q for tx in s)`. */
  function NotionalSum(s: seq<Trade>): real {
    if s == [] then 0.0 else s[0].r * s[0].q + NotionalSum(s[1..])
  }

  /** Python's `max(total_qty, 1e-12)`. */
  function GuardedQty(totalQty: real): (d: real)
    ensures d > 0.0 && d >= totalQty
  {
    if totalQty >= 0.000000000001 then totalQty else 0.000000000001
  }

  /**
   * The mediator closing the cycle: it goes from `src` to `dst`, carries the total
   * executed quantity, and its rate is the reciprocal of the quantity-weighted
   * average executed rate. Built with the plain constructor, it has no symbols and
   * no gas fee.
   */
  function Mediator(executed: seq<Trade>, src: string, dst: string): (m: Trade)
    requires NotionalSum(executed) != 0.0
    ensures m.src == src && m.dst == dst && m.q == QtySum(executed)
    ensures m.r * (NotionalSum(executed) / GuardedQty(QtySum(executed))) == 1.0
    ensures m.srcSymbol == None && m.dstSymbol == None && m.gasFeeEth == None && m.gasFeeUsd == None
  {
    var totalQty := QtySum(executed);
    var avgRate := NotionalSum(executed) / GuardedQty(totalQty);
    NewTrade(src, dst, totalQty, 1.0 / avgRate)
  }

  /** What compute_batch is entitled to: positive trades, priced wherever a leg touches the base. */
  ghost predicate OptimizerInput(batch: seq<Trade>, exo: map<string, real>, base: string) {
    forall t :: t in batch ==>
      && t.q > 0.0 && t.r > 0.0
      && ((t.src == base) != (t.dst == base) ==> t.src in exo && t.dst in exo)
  }

  lemma {:induction false} NotionalSumPositive(s: seq<Trade>)
    requires s != [] && forall t :: t in s ==> t.q > 0.0 && t.r > 0.0
    ensures NotionalSum(s) > 0.0 && QtySum(s) > 0.0
  {
    assert s[0].r * s[0].q > 0.0;
    if |s| > 1 {
      NotionalSumPositive(s[1..]);
    }
  }

  datatype Decision = DoNothing | ExecuteForward | ExecuteReverse

  /** One entry of compute_batch's `results`, keyed `(base, other)`. */
  datatype PairResult = PairResult(base: string, other: string, decision: Decision, profit: real, executed: seq<Trade>)

  /** `profit <= 0`, where an empty leg's profit is the sentinel -inf. */
  predicate AtMostZero(b: Option<Best>) {
    b.None? || b.value.total <= 0.0
  }

  /** `profit1 >= profit2`, where an empty leg's profit is the sentinel -inf. */
  predicate AtLeastAsGood(b1: Option<Best>, b2: Option<Best>) {
    b2.None? || (b1.Some? && b1.value.total >= b2.value.total)
  }

  /** `fwd` (or `rev`) after `sort(key=lambda x: x.r)`. */
  function SortedLeg(batch: seq<Trade>, src: string, dst: string): (side: seq<Trade>)
    ensures forall t :: t in side <==> t in batch && t.src == src && t.dst == dst
  {
    SortByRate(Leg(batch, src, dst))
  }

  /** `cumulative_argmax` of a leg's profits. */
  function LegBest(batch: seq<Trade>, exo: map<string, real>, base: string, src: string, dst: string): Option<Best>
    requires OptimizerInput(batch, exo, base) && src != dst && (src == base || dst == base)
  {
    BestPrefix(Profits(SortedLeg(batch, src, dst), exo))
  }

  /** The chosen leg's best prefix `side[: idx + 1]` followed by its mediator from `mSrc` to `mDst`. */
  function Execute(side: seq<Trade>, idx: nat, mSrc: string, mDst: string): seq<Trade>
    requires idx < |side| && forall t :: t in side ==> t.q > 0.0 && t.r > 0.0
  {
    var executed := side[..idx + 1];
    NotionalSumPositive(executed);
    executed + [Mediator(executed, mSrc, mDst)]
  }

  /** The per-pair body of compute_batch's loop. */
  function DecidePair(batch: seq<Trade>, exo: map<string, real>, base: string, j: string): PairResult
    requires OptimizerInput(batch, exo, base) && j != base
  {
    var best1 := LegBest(batch, exo, base, base, j);
    var best2 := LegBest(batch, exo, base, j, base);
    if AtMostZero(best1) && AtMostZero(best2) then
      PairResult(base, j, DoNothing, 0.0, [])
    else if AtLeastAsGood(best1, best2) then
      PairResult(base, j, ExecuteForward, best1.value.total, Execute(SortedLeg(batch, base, j), best1.value.idx, j, base))
    else
      PairResult(base, j, ExecuteReverse, best2.value.total, Execute(SortedLeg(batch, j, base), best2.value.idx, base, j))
  }

  /**
   * The decision rule: nothing is done exactly when neither leg has a positive best
   * prefix; otherwise the forward leg is chosen exactly when its best prefix is at
   * least the reverse one (ties go forward), and the reverse leg exactly when it is
   * strictly better. Whatever is chosen has a positive profit.
   */
  lemma DecisionRule(batch: seq<Trade>, exo: map<string, real>, base: string, j: string)
    requires OptimizerInput(batch, exo, base) && j != base
    ensures var res := DecidePair(batch, exo, base, j);
            var b1 := LegBest(batch, exo, base, base, j);
            var b2 := LegBest(batch, exo, base, j, base);
            && (res.decision == DoNothing <==> AtMostZero(b1) && AtMostZero(b2))
            && (res.decision == ExecuteForward <==> b1.Some? && b1.value.total > 0.0 && AtLeastAsGood(b1, b2))
            && (res.decision == ExecuteReverse <==> b2.Some? && b2.value.total > 0.0 && !AtLeastAsGood(b1, b2))
            && (res.decision == DoNothing ==> res.profit == 0.0 && res.executed == [])
            && (res.decision != DoNothing ==> res.profit > 0.0 && res.executed != [])
  {
  }

  /**
   * What is executed: a prefix of the chosen rate-sorted leg, all of it trades of the
   * batch in the chosen direction only, followed by exactly one mediator in the
   * opposite direction whose quantity is the executed total and which carries no
   * symbol and no gas fee. The reported profit is
   * the sum of the executed trades' own profits.
   */
  lemma ExecutedShape(batch: seq<Trade>, exo: map<string, real>, base: string, j: string)
    requires OptimizerInput(batch, exo, base) && j != base
    ensures var res := DecidePair(batch, exo, base, j);
            res.decision == ExecuteForward ==> ExecutedFrom(res.executed, res.profit, batch, exo, base, j)
    ensures var res := DecidePair(batch, exo, base, j);
            res.decision == ExecuteReverse ==> ExecutedFrom(res.executed, res.profit, batch, exo, j, base)
  {
    var res := DecidePair(batch, exo, base, j);
    var b1 := LegBest(batch, exo, base, base, j);
    var b2 := LegBest(batch, exo, base, j, base);
    if res.decision == ExecuteForward {
      assert res.executed == Execute(SortedLeg(batch, base, j), b1.value.idx, j, base) && res.profit == b1.value.total;
      ChosenLegShape(batch, exo, base, base, j);
    } else if res.decision == ExecuteReverse {
      assert res.executed == Execute(SortedLeg(batch, j, base), b2.value.idx, base, j) && res.profit == b2.value.total;
      ChosenLegShape(batch, exo, base, j, base);
    }
  }

  /**
   * `executed` is a prefix of the rate-sorted leg from `src` to `dst` (trades of
   * the batch in that direction only) followed by one mediator from `dst` back to
   * `src` carrying the executed quantity, and `profit` is the executed trades' profit.
   */
  ghost predicate ExecutedFrom(executed: seq<Trade>, profit: real, batch: seq<Trade>, exo: map<string, real>, src: string, dst: string) {
    var n := |executed|;
    && 2 <= n <= |SortedLeg(batch, src, dst)| + 1
    && executed[..n - 1] == SortedLeg(batch, src, dst)[..n - 1]
    && (forall t :: t in executed[..n - 1] ==> t in batch && t.src == src && t.dst == dst)
    && executed[n - 1].src == dst && executed[n - 1].dst == src
    && executed[n - 1].q == QtySum(executed[..n - 1])
    && Unannotated(executed[n - 1])
    && (forall t :: t in executed[..n - 1] ==> t.src in exo && t.dst in exo)
    && profit == Sum(Profits(executed[..n - 1], exo))
  }

  /** A trade built by the plain constructor: no symbols and no gas fees. */
  predicate Unannotated(t: Trade) {
    t.srcSymbol == None && t.dstSymbol == None && t.gasFeeEth == None && t.gasFeeUsd == None
  }

  /** ExecutedShape for one leg, about the executed list built from it. */
  lemma ChosenLegShape(batch: seq<Trade>, exo: map<string, real>, base: string, src: string, dst: string)
    requires OptimizerInput(batch, exo, base) && src != dst && (src == base || dst == base)
    requires LegBest(batch, exo, base, src, dst).Some?
    ensures var b := LegBest(batch, exo, base, src, dst).value;
            ExecutedFrom(Execute(SortedLeg(batch, src, dst), b.idx, dst, src), b.total, batch, exo, src, dst)
  {
    var b := LegBest(batch, exo, base, src, dst).value;
    var side := SortedLeg(batch, src, dst);
    ExecuteShape(side, b.idx, dst, src);
    assert Profits(side, exo)[..b.idx + 1] == Profits(side[..b.idx + 1], exo);
  }

  lemma ExecuteShape(side: seq<Trade>, idx: nat, mSrc: string, mDst: string)
    requires idx < |side| && forall t :: t in side ==> t.q > 0.0 && t.r > 0.0
    ensures var e := Execute(side, idx, mSrc, mDst);
            && |e| == idx + 2
            && e[..idx + 1] == side[..idx + 1]
            && (forall t :: t in e[..idx + 1] ==> t in side)
            && e[idx + 1].src == mSrc && e[idx + 1].dst == mDst
            && e[idx + 1].q == QtySum(side[..idx + 1])
            && Unannotated(e[idx + 1])
  {
    var e := Execute(side, idx, mSrc, mDst);
    assert e[..idx + 1] == side[..idx + 1];
    forall t | t in e[..idx + 1] ensures t in side {
      var i :| 0 <= i < idx + 1 && side[..idx + 1][i] == t;
      assert side[i] == t;
    }
  }

  /** `sorted({tx.src for tx in batch} | {tx.dst for tx in batch})`. */
  function Endpoints(batch: seq<Trade>): set<string> {
    (set t | t in batch :: t.src) + (set t | t in batch :: t.dst)
  }

  function AssetList(batch: seq<Trade>): (assets: seq<string>)
    ensures StrictlySorted(assets)
    ensures forall a :: a in assets <==> a in Endpoints(batch)
  {
    if batch == [] then []
    else
      var rest := AssetList(batch[1..]);
      InsertSortedCorrect(batch[0].dst, rest);
      InsertSortedCorrect(batch[0].src, InsertSorted(batch[0].dst, rest));
      assert forall t :: t in batch <==> t == batch[0] || t in batch[1..];
      InsertSorted(batch[0].src, InsertSorted(batch[0].dst, rest))
  }

  /** `[a for a in assets if a != base_asset]`. */
  function WithoutAsset(assets: seq<string>, base: string): (others: seq<string>)
    ensures forall a :: a in others <==> a in assets && a != base
  {
    if assets == [] then []
    else WithoutAsset(assets[..|assets| - 1], base) + (if assets[|assets| - 1] != base then [assets[|assets| - 1]] else [])
  }

  lemma {:induction false} WithoutAssetSorted(assets: seq<string>, base: string)
    requires StrictlySorted(assets)
    ensures StrictlySorted(WithoutAsset(assets, base))
  {
    if assets != [] {
      var init := assets[..|assets| - 1];
      WithoutAssetSorted(init, base);
      var w := WithoutAsset(init, base);
      var last := assets[|assets| - 1];
      if last != base {
        var r := w + [last];
        forall i, k | 0 <= i < k < |r| ensures LexLess(r[i], r[k]) {
          if k == |w| {
            assert r[i] in init;
            var m :| 0 <= m < |init| && init[m] == r[i];
            assert assets[m] == r[i];
          }
        }
      }
    }
  }

  lemma WithoutAssetStep(assets: seq<string>, base: string, i: nat)
    requires i < |assets|
    ensures WithoutAsset(assets[..i + 1], base)
         == WithoutAsset(assets[..i], base) + (if assets[i] != base then [assets[i]] else [])
  {
    assert assets[..i + 1][..i] == assets[..i];
  }

  /** compute_batch's per-pair body, run with the loop of `cumulative_argmax`. */
  method ComputePair(batch: seq<Trade>, exo: map<string, real>, base: string, j: string) returns (res: PairResult)
    requires OptimizerInput(batch, exo, base) && j != base
    ensures res == DecidePair(batch, exo, base, j)
  {
    var fwd := SortedLeg(batch, base, j);
    var k1 := CumulativeArgmax(Profits(fwd, exo));
    var rev := SortedLeg(batch, j, base);
    var k2 := CumulativeArgmax(Profits(rev, exo));
    if AtMostZero(k1) && AtMostZero(k2) {
      res := PairResult(base, j, DoNothing, 0.0, []);
    } else if AtLeastAsGood(k1, k2) {
      var executed := fwd[..k1.value.idx + 1];
      NotionalSumPositive(executed);
      var mediator := Mediator(executed, j, base);
      executed := executed + [mediator];
      res := PairResult(base, j, ExecuteForward, k1.value.total, executed);
    } else {
      var executed := rev[..k2.value.idx + 1];
      NotionalSumPositive(executed);
      var mediator := Mediator(executed, base, j);
      executed := executed + [mediator];
      res := PairResult(base, j, ExecuteReverse, k2.value.total, executed);
    }
  }

  /** The results of compute_batch for the pairs `(base, others[i])`. */
  ghost predicate Decided(results: seq<PairResult>, batch: seq<Trade>, exo: map<string, real>, base: string, others: seq<string>)
    requires OptimizerInput(batch, exo, base)
  {
    |results| == |others| && forall i :: 0 <= i < |results| ==> others[i] != base && results[i] == DecidePair(batch, exo, base, others[i])
  }

  lemma DecidedAppend(results: seq<PairResult>, batch: seq<Trade>, exo: map<string, real>, base: string, others: seq<string>, j: string)
    requires OptimizerInput(batch, exo, base) && Decided(results, batch, exo, base, others) && j != base
    ensures Decided(results + [DecidePair(batch, exo, base, j)], batch, exo, base, others + [j])
  {
  }

  /**
   * compute_batch: one result per asset other than the base that occurs in the
   * batch, visited in sorted order, each the decision for the pair (base, asset).
   */
  method ComputeBatch(batch: seq<Trade>, exo: map<string, real>, base: string) returns (results: seq<PairResult>)
    requires OptimizerInput(batch, exo, base)
    ensures Decided(results, batch, exo, base, WithoutAsset(AssetList(batch), base))
    ensures StrictlySorted(WithoutAsset(AssetList(batch), base))
    ensures forall a :: a in WithoutAsset(AssetList(batch), base) <==> a in Endpoints(batch) && a != base
  {
    var assets := AssetList(batch);
    WithoutAssetSorted(assets, base);
    results := [];
    var i := 0;
    while i < |assets|
      invariant 0 <= i <= |assets|
      invariant Decided(results, batch, exo, base, WithoutAsset(assets[..i], base))
    {
      WithoutAssetStep(assets, base, i);
      if assets[i] != base {
        var res := ComputePair(batch, exo, base, assets[i]);
        DecidedAppend(results, batch, exo, base, WithoutAsset(assets[..i], base), assets[i]);
        results := results + [res];
      }
      i := i + 1;
    }
    assert assets[..i] == assets;
  }

  /** The number of leading positive entries. */
  function LeadingPositive(values: seq<real>): (p: nat)
    ensures p <= |values|
    ensures forall i :: 0 <= i < p ==> values[i] > 0.0
    ensures p < |values| ==> values[p] <= 0.0
  {
    if values == [] || values[0] <= 0.0 then 0 else 1 + LeadingPositive(values[1..])
  }

  lemma ProfitsConcat(a: seq<Trade>, b: seq<Trade>, exo: map<string, real>)
    requires forall t :: t in a + b ==> t.src in exo && t.dst in exo
    ensures Profits(a + b, exo) == Profits(a, exo) + Profits(b, exo)
  {
  }

  /** Sorting a leg does not change the sum of its positive profits. */
  lemma {:induction false} SumPositiveProfitsSorted(side: seq<Trade>, exo: map<string, real>)
    requires forall t :: t in side ==> t.src in exo && t.dst in exo
    ensures SumPositive(Profits(SortByRate(side), exo)) == SumPositive(Profits(side, exo))
  {
    if side != [] {
      var t := side[0];
      var u := SortByRate(side[1..]);
      SumPositiveProfitsSorted(side[1..], exo);
      var k := InsertSplits(t, u);
      assert u == u[..k] + u[k..];
      ProfitsConcat(u[..k] + [t], u[k..], exo);
      ProfitsConcat(u[..k], [t], exo);
      ProfitsConcat(u[..k], u[k..], exo);
      ProfitsConcat([t], side[1..], exo);
      assert side == [t] + side[1..];
      SumPositiveConcat(Profits(u[..k], exo) + Profits([t], exo), Profits(u[k..], exo));
      SumPositiveConcat(Profits(u[..k], exo), Profits([t], exo));
      SumPositiveConcat(Profits(u[..k], exo), Profits(u[k..], exo));
      SumPositiveConcat(Profits([t], exo), Profits(side[1..], exo));
    }
  }

  /**
   * Along a rate-sorted leg with positive quantities and a non-negative price for
   * the asset received, a profitable trade is preceded only by profitable trades.
   */
  lemma ProfitSignAntitone(side: seq<Trade>, exo: map<string, real>, src: string, dst: string, i: nat, k: nat)
    requires forall t :: t in side ==> t.src == src && t.dst == dst && t.q > 0.0
    requires src in exo && dst in exo && exo[dst] >= 0.0
    requires SortedByRate(side) && i < k < |side|
    requires Profits(side, exo)[k] > 0.0
    ensures Profits(side, exo)[i] > 0.0
  {
    assert side[i] in side && side[k] in side;
    HelperSign(src, dst, side[i].q, side[i].r, exo);
    HelperSign(src, dst, side[k].q, side[k].r, exo);
    assert exo[dst] * side[i].r <= exo[dst] * side[k].r by {
      assert exo[dst] * (side[k].r - side[i].r) >= 0.0;
    }
  }

  /**
   * The greedy choice is optimal: on a leg with at least one profitable trade, the
   * best prefix of the rate-sorted leg is exactly its profitable trades, and its
   * profit is the sum of all positive per-trade profits of the leg.
   */
  lemma SortedLegTakesAllProfitable(side: seq<Trade>, exo: map<string, real>, src: string, dst: string)
    requires forall t :: t in side ==> t.src == src && t.dst == dst && t.q > 0.0
    requires src in exo && dst in exo && exo[dst] >= 0.0
    requires exists t :: t in side && Helper(t.src, t.dst, t.q, t.r, exo) > 0.0
    ensures var sorted := SortByRate(side);
            var b := BestPrefix(Profits(sorted, exo));
            && b.Some?
            && b.value.total == SumPositive(Profits(side, exo))
            && forall i :: 0 <= i < |sorted| ==> (i <= b.value.idx <==> Profits(sorted, exo)[i] > 0.0)
  {
    var sorted := SortByRate(side);
    SortByRateSorted(side);
    var t :| t in side && Helper(t.src, t.dst, t.q, t.r, exo) > 0.0;
    var w :| 0 <= w < |sorted| && sorted[w] == t;
    var p := ProfitablePrefix(sorted, exo, src, dst, w);
    BestPrefixOfPositivesFirst(Profits(sorted, exo), p);
    SumPositiveProfitsSorted(side, exo);
  }

  /** On a rate-sorted leg with a profitable trade at `w`, the profitable trades form a non-empty prefix. */
  lemma ProfitablePrefix(sorted: seq<Trade>, exo: map<string, real>, src: string, dst: string, w: nat) returns (p: nat)
    requires forall t :: t in sorted ==> t.src == src && t.dst == dst && t.q > 0.0
    requires src in exo && dst in exo && exo[dst] >= 0.0
    requires SortedByRate(sorted) && w < |sorted| && Profits(sorted, exo)[w] > 0.0
    ensures p > 0 && PositivesFirst(Profits(sorted, exo), p)
  {
    var values := Profits(sorted, exo);
    p := LeadingPositive(values);
    if w > 0 {
      ProfitSignAntitone(sorted, exo, src, dst, 0, w);
    }
    forall i | p <= i < |values| ensures values[i] <= 0.0 {
      if i > p && values[i] > 0.0 {
        ProfitSignAntitone(sorted, exo, src, dst, p, i);
      }
    }
  }

  /** SortedLegTakesAllProfitable for a leg of compute_batch. */
  lemma LegBestTakesAllProfitable(batch: seq<Trade>, exo: map<string, real>, base: string, src: string, dst: string)
    requires OptimizerInput(batch, exo, base) && src != dst && (src == base || dst == base)
    requires dst in exo && exo[dst] >= 0.0
    requires exists t :: t in batch && t.src == src && t.dst == dst && Helper(t.src, t.dst, t.q, t.r, exo) > 0.0
    ensures var b := LegBest(batch, exo, base, src, dst);
            && b.Some?
            && b.value.total == SumPositive(Profits(Leg(batch, src, dst), exo))
            && forall i :: 0 <= i < |SortedLeg(batch, src, dst)| ==>
                 (i <= b.value.idx <==> Profits(SortedLeg(batch, src, dst), exo)[i] > 0.0)
  {
    var t :| t in batch && t.src == src && t.dst == dst && Helper(t.src, t.dst, t.q, t.r, exo) > 0.0;
    assert t in Leg(batch, src, dst);
    SortedLegTakesAllProfitable(Leg(batch, src, dst), exo, src, dst);
  }

  /** `sum(k * tx.q for tx in s)`, the quantity scaled trade by trade. */
  function ScaledQty(s: seq<Trade>, k: real): real {
    if s == [] then 0.0 else k * s[0].q + ScaledQty(s[1..], k)
  }

  lemma {:induction false} ScaledQtyIsProduct(s: seq<Trade>, k: real)
    ensures ScaledQty(s, k) == k * QtySum(s)
  {
    if s != [] {
      ScaledQtyIsProduct(s[1..], k);
      Distrib(k, s[0].q, QtySum(s[1..]));
    }
  }

  lemma Distrib(k: real, x: real, y: real)
    ensures k * (x + y) == k * x + k * y
  {
  }

  /** Trade by trade, the notional lies between the quantity scaled by the lowest and by the highest rate. */
  lemma {:induction false} NotionalBetween(s: seq<Trade>, lo: real, hi: real)
    requires forall t :: t in s ==> t.q > 0.0 && lo <= t.r <= hi
    ensures ScaledQty(s, lo) <= NotionalSum(s) <= ScaledQty(s, hi)
  {
    if s != [] {
      assert forall t :: t in s[1..] ==> t in s;
      NotionalBetween(s[1..], lo, hi);
      assert s[0] in s;
      StepBounds(lo, s[0].r, hi, s[0].q, ScaledQty(s[1..], lo), NotionalSum(s[1..]), ScaledQty(s[1..], hi));
    }
  }

  /** One more term of the sums keeps the bounds: `lo * q + x <= r * q + y <= hi * q + z`. */
  lemma StepBounds(lo: real, r: real, hi: real, q: real, x: real, y: real, z: real)
    requires lo <= r <= hi && q > 0.0 && x <= y <= z
    ensures lo * q + x <= r * q + y <= hi * q + z
  {
    MulMono(lo, r, q);
    MulMono(r, hi, q);
  }

  lemma MulMono(a: real, b: real, q: real)
    requires a <= b && q > 0.0
    ensures a * q <= b * q
  {
    assert (b - a) * q >= 0.0;
  }

  /** The notional of positive trades with rates in `[lo, hi]` lies between `lo` and `hi` times their quantity. */
  lemma NotionalBounds(s: seq<Trade>, lo: real, hi: real)
    requires forall t :: t in s ==> t.q > 0.0 && lo <= t.r <= hi
    ensures lo * QtySum(s) <= NotionalSum(s) <= hi * QtySum(s)
  {
    NotionalBetween(s, lo, hi);
    ScaledQtyIsProduct(s, lo);
    ScaledQtyIsProduct(s, hi);
  }

  lemma QuotientBounds(n: real, d: real, lo: real, hi: real)
    requires d > 0.0 && lo * d <= n <= hi * d
    ensures lo <= n / d <= hi
  {
    assert n / d - lo == (n - lo * d) / d;
    assert hi - n / d == (hi * d - n) / d;
  }

  lemma ReciprocalBounds(x: real, lo: real, hi: real)
    requires 0.0 < lo <= x <= hi
    ensures 1.0 / hi <= 1.0 / x <= 1.0 / lo
  {
    assert 1.0 / x - 1.0 / hi == (hi - x) / (x * hi);
    assert 1.0 / lo - 1.0 / x == (x - lo) / (lo * x);
  }

  /**
   * When the executed total quantity is at least the 1e-12 guard, the weighted
   * average rate lies between the smallest and largest executed rate, so the
   * mediator's rate lies between their reciprocals.
   */
  lemma MediatorRateBounds(executed: seq<Trade>, lo: real, hi: real, mSrc: string, mDst: string)
    requires 0.0 < lo && forall t :: t in executed ==> t.q > 0.0 && lo <= t.r <= hi
    requires QtySum(executed) >= 0.000000000001
    ensures NotionalSum(executed) > 0.0 && 1.0 / hi <= Mediator(executed, mSrc, mDst).r <= 1.0 / lo
  {
    AverageRateBounds(executed, lo, hi);
    MediatorInverse(executed, lo, hi, mSrc, mDst);
  }

  lemma MediatorInverse(executed: seq<Trade>, lo: real, hi: real, mSrc: string, mDst: string)
    requires 0.0 < lo && NotionalSum(executed) > 0.0
    requires lo <= NotionalSum(executed) / GuardedQty(QtySum(executed)) <= hi
    ensures 1.0 / hi <= Mediator(executed, mSrc, mDst).r <= 1.0 / lo
  {
    InverseBounds(Mediator(executed, mSrc, mDst).r, NotionalSum(executed) / GuardedQty(QtySum(executed)), lo, hi);
  }

  /** A number whose product with `y` in `[lo, hi]` is 1 lies between the reciprocals of the bounds. */
  lemma InverseBounds(x: real, y: real, lo: real, hi: real)
    requires x * y == 1.0 && 0.0 < lo <= y <= hi
    ensures 1.0 / hi <= x <= 1.0 / lo
  {
    ReciprocalOf(x, y);
    ReciprocalBounds(y, lo, hi);
  }

  /** Above the guard, the quantity-weighted average rate lies between the lowest and highest rate. */
  lemma AverageRateBounds(executed: seq<Trade>, lo: real, hi: real)
    requires 0.0 < lo && forall t :: t in executed ==> t.q > 0.0 && lo <= t.r <= hi
    requires QtySum(executed) >= 0.000000000001
    ensures NotionalSum(executed) > 0.0
    ensures lo <= NotionalSum(executed) / GuardedQty(QtySum(executed)) <= hi
  {
    var qty := QtySum(executed);
    var ns := NotionalSum(executed);
    NotionalBounds(executed, lo, hi);
    assert GuardedQty(qty) == qty;
    QuotientBounds(ns, qty, lo, hi);
    ProductPositive(lo, qty);
  }

  lemma ProductPositive(a: real, b: real)
    requires a > 0.0 && b > 0.0
    ensures a * b > 0.0
  {
  }

  lemma ReciprocalOf(x: real, y: real)
    requires x * y == 1.0
    ensures y != 0.0 && x == 1.0 / y
  {
  }

  /**
   * Below the guard the average is no longer an average: one executed trade of
   * quantity 1e-13 at rate 1 gives a mediator rate of 10, not 1.
   */
  lemma GuardDistortsTinyBatches()
    ensures var t := NewTrade("a", "b", 0.0000000000001, 1.0);
            NotionalSum([t]) > 0.0 && Mediator([t], "b", "a").r == 10.0
  {
    var t := NewTrade("a", "b", 0.0000000000001, 1.0);
    var m := Mediator([t], "b", "a");
    assert [t][1..] == [];
    assert NotionalSum([t]) / GuardedQty(QtySum([t])) == 0.1;
  }
}
