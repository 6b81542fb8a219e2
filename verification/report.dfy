/**
 * The per-pair report and the batch summary of run_mev_analysis.py: the gas paid by
 * the executed trades of a pair, the gas of all its candidate trades, the gas missed,
 * the profit net of the included gas, and the totals over all pairs.
 */
module Report {
  import opened Wrappers
  import opened Transaction
  import opened RateSort
  import opened MevOptimization

  datatype Currency = Eth | Usd

  /** `getattr(t, "gas_fee_eth", None)`, or the USD fee. */
  function FeeField(t: Trade, c: Currency): Option<real> {
    if c == Eth then t.gasFeeEth else t.gasFeeUsd
  }

  /** What a trade adds to a gas sum: its fee when present and non-zero, otherwise nothing. */
  function FeeOf(t: Trade, c: Currency): (f: real)
    ensures FeeField(t, c).None? ==> f == 0.0
    ensures FeeField(t, c).Some? ==> f == FeeField(t, c).value
  {
    var fee := FeeField(t, c);
    if fee.Some? && fee.value != 0.0 then fee.value else 0.0
  }

  /** `sum(fee for t in s if fee)`. */
  function GasSum(s: seq<Trade>, c: Currency): real {
    if s == [] then 0.0 else FeeOf(s[0], c) + GasSum(s[1..], c)
  }

  lemma {:induction false} GasSumConcat(a: seq<Trade>, b: seq<Trade>, c: Currency)
    ensures GasSum(a + b, c) == GasSum(a, c) + GasSum(b, c)
  {
    if a == [] {
      assert a + b == b;
    } else {
      assert (a + b)[1..] == a[1..] + b;
      GasSumConcat(a[1..], b, c);
    }
  }

  lemma {:induction false} GasSumNonNegative(s: seq<Trade>, c: Currency)
    requires forall t :: t in s ==> FeeOf(t, c) >= 0.0
    ensures GasSum(s, c) >= 0.0
  {
    if s != [] {
      assert s[0] in s;
      GasSumNonNegative(s[1..], c);
    }
  }

  /** Sorting by rate does not change a gas sum. */
  lemma {:induction false} GasSumSorted(s: seq<Trade>, c: Currency)
    ensures GasSum(SortByRate(s), c) == GasSum(s, c)
  {
    if s != [] {
      var u := SortByRate(s[1..]);
      GasSumSorted(s[1..], c);
      var k := InsertSplits(s[0], u);
      assert u == u[..k] + u[k..];
      GasSumConcat(u[..k] + [s[0]], u[k..], c);
      GasSumConcat(u[..k], [s[0]], c);
      GasSumConcat(u[..k], u[k..], c);
    }
  }

  /** With non-negative fees, a prefix pays no more gas than the whole. */
  lemma GasSumPrefix(s: seq<Trade>, n: nat, c: Currency)
    requires n <= |s| && forall t :: t in s ==> FeeOf(t, c) >= 0.0
    ensures 0.0 <= GasSum(s[..n], c) <= GasSum(s, c)
  {
    assert s == s[..n] + s[n..];
    GasSumConcat(s[..n], s[n..], c);
    GasSumNonNegative(s[..n], c);
    GasSumNonNegative(s[n..], c);
  }

  /** `candidates`: the trades of the batch between `base` and `other`, in either direction, in batch order. */
  function Candidates(batch: seq<Trade>, base: string, other: string): (cands: seq<Trade>)
    ensures forall t :: t in cands <==> t in batch && ((t.src == base && t.dst == other) || (t.src == other && t.dst == base))
  {
    if batch == [] then []
    else
      var t := batch[0];
      (if (t.src == base && t.dst == other) || (t.src == other && t.dst == base) then [t] else []) + Candidates(batch[1..], base, other)
  }

  /** The candidates of a pair are its forward leg and its reverse leg, as far as gas and counts go. */
  lemma {:induction false} CandidatesSplit(batch: seq<Trade>, base: string, other: string, c: Currency)
    requires base != other
    ensures GasSum(Candidates(batch, base, other), c) == GasSum(Leg(batch, base, other), c) + GasSum(Leg(batch, other, base), c)
    ensures |Candidates(batch, base, other)| == |Leg(batch, base, other)| + |Leg(batch, other, base)|
  {
    if batch != [] {
      var t := batch[0];
      CandidatesSplit(batch[1..], base, other, c);
      var head := if (t.src == base && t.dst == other) || (t.src == other && t.dst == base) then [t] else [];
      var fwd := if t.src == base && t.dst == other then [t] else [];
      var rev := if t.src == other && t.dst == base then [t] else [];
      GasSumConcat(head, Candidates(batch[1..], base, other), c);
      GasSumConcat(fwd, Leg(batch[1..], base, other), c);
      GasSumConcat(rev, Leg(batch[1..], other, base), c);
    }
  }

  /** `executed_real`: the executed trades carrying a native gas fee, that is, all but mediators. */
  function RealTrades(executed: seq<Trade>): (kept: seq<Trade>)
    ensures |kept| <= |executed|
    ensures forall t :: t in kept <==> t in executed && t.gasFeeEth.Some?
  {
    if executed == [] then []
    else (if executed[0].gasFeeEth.Some? then [executed[0]] else []) + RealTrades(executed[1..])
  }

  lemma {:induction false} RealTradesConcat(a: seq<Trade>, b: seq<Trade>)
    ensures RealTrades(a + b) == RealTrades(a) + RealTrades(b)
  {
    if a == [] {
      assert a + b == b;
    } else {
      assert (a + b)[1..] == a[1..] + b;
      RealTradesConcat(a[1..], b);
    }
  }

  lemma {:induction false} RealTradesAll(s: seq<Trade>)
    requires forall t :: t in s ==> t.gasFeeEth.Some?
    ensures RealTrades(s) == s
  {
    if s != [] {
      assert s[0] in s;
      RealTradesAll(s[1..]);
    }
  }

  /** `max(x, 0.0)`. */
  function AtLeastZero(x: real): (m: real)
    ensures m >= 0.0 && m >= x
    ensures x >= 0.0 ==> m == x
  {
    if x >= 0.0 then x else 0.0
  }

  /** The "src_symbol" of a pair: that of the first executed trade. */
  function SrcSymbol(executed: seq<Trade>): Option<string> {
    if executed == [] then None else executed[0].srcSymbol
  }

  /** The "dst_symbol" of a pair as the source computes it: that of the last executed entry. */
  function DstSymbolAsWritten(executed: seq<Trade>): Option<string> {
    if executed == [] then None else executed[|executed| - 1].dstSymbol
  }

  /** The intended "dst_symbol" of a pair: that of the last executed trade that is not a mediator. */
  function DstSymbol(executed: seq<Trade>): Option<string> {
    var realTrades := RealTrades(executed);
    if realTrades == [] then None else realTrades[|realTrades| - 1].dstSymbol
  }

  /** One entry of the serialised results. */
  datatype PairReport = PairReport(
    base: string,
    other: string,
    decision: Decision,
    profit: real,
    netProfitUsd: real,
    srcSymbol: Option<string>,
    dstSymbol: Option<string>,
    includedGasEth: real,
    includedGasUsd: real,
    candidateGasEth: real,
    candidateGasUsd: real,
    missedGasEth: real,
    missedGasUsd: real
  )

  /**
   * The report of one pair, as the script builds it. Missed gas is never negative, and
   * the net profit is the optimizer's profit less the gas in USD that the executed
   * trades paid. The "dst_symbol" is read from the last executed entry.
   */
  function ReportPair(batch: seq<Trade>, res: PairResult): (rep: PairReport)
    ensures rep.missedGasEth >= 0.0 && rep.missedGasUsd >= 0.0
    ensures rep.netProfitUsd == rep.profit - rep.includedGasUsd
    ensures rep.base == res.base && rep.other == res.other && rep.decision == res.decision && rep.profit == res.profit
  {
    var cands := Candidates(batch, res.base, res.other);
    var inclEth, inclUsd := GasSum(res.executed, Eth), GasSum(res.executed, Usd);
    var candEth, candUsd := GasSum(cands, Eth), GasSum(cands, Usd);
    PairReport(res.base, res.other, res.decision, res.profit, res.profit - inclUsd,
               SrcSymbol(res.executed), DstSymbolAsWritten(res.executed),
               inclEth, inclUsd, candEth, candUsd,
               AtLeastZero(candEth - inclEth), AtLeastZero(candUsd - inclUsd))
  }

  /** The gas an executed list built from the leg `src -> dst` pays is at most the leg's. */
  lemma LegGas(res: PairResult, batch: seq<Trade>, exo: map<string, real>, src: string, dst: string, c: Currency)
    requires ExecutedFrom(res.executed, res.profit, batch, exo, src, dst)
    requires forall t :: t in batch ==> FeeOf(t, c) >= 0.0
    ensures 0.0 <= GasSum(res.executed, c) <= GasSum(Leg(batch, src, dst), c)
  {
    var n := |res.executed|;
    var side := SortedLeg(batch, src, dst);
    assert res.executed == res.executed[..n - 1] + [res.executed[n - 1]];
    GasSumConcat(res.executed[..n - 1], [res.executed[n - 1]], c);
    assert GasSum([res.executed[n - 1]], c) == 0.0;
    GasSumPrefix(side, n - 1, c);
    GasSumSorted(Leg(batch, src, dst), c);
  }

  /**
   * Per-pair gas accounting: with non-negative fees, the executed trades pay no more
   * gas than all candidate trades of the pair, so the missed gas is exactly the
   * difference and included plus missed is the candidate total.
   */
  lemma PairGas(batch: seq<Trade>, exo: map<string, real>, base: string, j: string, c: Currency)
    requires OptimizerInput(batch, exo, base) && j != base
    requires forall t :: t in batch ==> FeeOf(t, c) >= 0.0
    ensures var res := DecidePair(batch, exo, base, j);
            0.0 <= GasSum(res.executed, c) <= GasSum(Candidates(batch, base, j), c)
  {
    var res := DecidePair(batch, exo, base, j);
    ExecutedShape(batch, exo, base, j);
    CandidatesSplit(batch, base, j, c);
    GasSumNonNegative(Leg(batch, base, j), c);
    GasSumNonNegative(Leg(batch, j, base), c);
    if res.decision == ExecuteForward {
      LegGas(res, batch, exo, base, j, c);
    } else if res.decision == ExecuteReverse {
      LegGas(res, batch, exo, j, base, c);
    }
  }

  lemma PairGasAccounting(batch: seq<Trade>, exo: map<string, real>, base: string, j: string)
    requires OptimizerInput(batch, exo, base) && j != base
    requires forall t :: t in batch ==> FeeOf(t, Eth) >= 0.0 && FeeOf(t, Usd) >= 0.0
    ensures var rep := ReportPair(batch, DecidePair(batch, exo, base, j));
            && 0.0 <= rep.includedGasEth <= rep.candidateGasEth
            && 0.0 <= rep.includedGasUsd <= rep.candidateGasUsd
            && rep.includedGasEth + rep.missedGasEth == rep.candidateGasEth
            && rep.includedGasUsd + rep.missedGasUsd == rep.candidateGasUsd
  {
    PairGas(batch, exo, base, j, Eth);
    PairGas(batch, exo, base, j, Usd);
  }

  /**
   * When every trade of the batch carries a native fee (as every ingested trade does),
   * the real executed trades of a pair are its executed list without the mediator:
   * none when nothing is done, at least one otherwise.
   */
  lemma ExecutedRealTrades(batch: seq<Trade>, exo: map<string, real>, base: string, j: string)
    requires OptimizerInput(batch, exo, base) && j != base
    requires forall t :: t in batch ==> t.gasFeeEth.Some?
    ensures var res := DecidePair(batch, exo, base, j);
            && (res.decision == DoNothing ==> RealTrades(res.executed) == [])
            && (res.decision != DoNothing ==> |res.executed| >= 2 && RealTrades(res.executed) == res.executed[..|res.executed| - 1])
  {
    var res := DecidePair(batch, exo, base, j);
    DecisionRule(batch, exo, base, j);
    ExecutedShape(batch, exo, base, j);
    if res.decision == ExecuteForward {
      ExecutedFromRealTrades(res.executed, res.profit, batch, exo, base, j);
    } else if res.decision == ExecuteReverse {
      ExecutedFromRealTrades(res.executed, res.profit, batch, exo, j, base);
    }
  }

  /** Of an executed list built from one leg, the real trades are all but the closing mediator. */
  lemma ExecutedFromRealTrades(executed: seq<Trade>, profit: real, batch: seq<Trade>, exo: map<string, real>, src: string, dst: string)
    requires ExecutedFrom(executed, profit, batch, exo, src, dst)
    requires forall t :: t in batch ==> t.gasFeeEth.Some?
    ensures RealTrades(executed) == executed[..|executed| - 1]
  {
    RealTradesDropLast(executed);
  }

  /** When only the last entry lacks a gas fee, the real trades are all the others. */
  lemma RealTradesDropLast(s: seq<Trade>)
    requires |s| >= 1 && s[|s| - 1].gasFeeEth.None?
    requires forall t :: t in s[..|s| - 1] ==> t.gasFeeEth.Some?
    ensures RealTrades(s) == s[..|s| - 1]
  {
    var chosen, last := s[..|s| - 1], s[|s| - 1];
    RealTradesDropMediator(chosen, last);
    assert s == chosen + [last];
  }

  lemma RealTradesDropMediator(chosen: seq<Trade>, mediator: Trade)
    requires forall t :: t in chosen ==> t.gasFeeEth.Some?
    requires mediator.gasFeeEth.None?
    ensures RealTrades(chosen + [mediator]) == chosen
  {
    RealTradesConcat(chosen, [mediator]);
    assert [mediator][1..] == [];
    RealTradesAll(chosen);
  }

  /**
   * The "dst_symbol" as the source computes it reads the last executed entry, which is
   * always the mediator, so it is `None` for every pair.
   */
  lemma DstSymbolAsWrittenIsNone(batch: seq<Trade>, exo: map<string, real>, base: string, j: string)
    requires OptimizerInput(batch, exo, base) && j != base
    ensures DstSymbolAsWritten(DecidePair(batch, exo, base, j).executed) == None
    ensures ReportPair(batch, DecidePair(batch, exo, base, j)).dstSymbol == None
  {
    ExecutedShape(batch, exo, base, j);
  }

  /** The report of one pair as evidently intended: the same, except for the "dst_symbol". */
  function ReportPairIntended(batch: seq<Trade>, res: PairResult): PairReport {
    ReportPair(batch, res).(dstSymbol := DstSymbol(res.executed))
  }

  /**
   * The intended report of a pair that acts names the destination symbol of its last
   * real trade, which is present; the script's report names none. Every other field of
   * the two reports agrees.
   */
  lemma IntendedReportDstSymbol(batch: seq<Trade>, exo: map<string, real>, base: string, j: string)
    requires OptimizerInput(batch, exo, base) && j != base
    requires forall t :: t in batch ==> t.gasFeeEth.Some? && t.dstSymbol.Some?
    ensures var res := DecidePair(batch, exo, base, j);
            var intended := ReportPairIntended(batch, res);
            && intended.(dstSymbol := None) == ReportPair(batch, res)
            && (res.decision != DoNothing ==>
                  && intended.dstSymbol.Some?
                  && intended.dstSymbol == res.executed[|res.executed| - 2].dstSymbol
                  && intended.dstSymbol != ReportPair(batch, res).dstSymbol)
  {
    DstSymbolAsWrittenIsNone(batch, exo, base, j);
    DstSymbolOfExecuted(batch, exo, base, j);
  }

  /**
   * The corrected "dst_symbol" is the destination symbol of the last executed trade of
   * the chosen leg, whose destination is `j` after forward and the base after reverse.
   */
  lemma DstSymbolOfExecuted(batch: seq<Trade>, exo: map<string, real>, base: string, j: string)
    requires OptimizerInput(batch, exo, base) && j != base
    requires forall t :: t in batch ==> t.gasFeeEth.Some? && t.dstSymbol.Some?
    ensures var res := DecidePair(batch, exo, base, j);
            res.decision != DoNothing ==>
              var last := res.executed[|res.executed| - 2];
              && DstSymbol(res.executed) == last.dstSymbol
              && last.dstSymbol.Some?
              && last in batch
              && last.dst == (if res.decision == ExecuteForward then j else base)
  {
    var res := DecidePair(batch, exo, base, j);
    ExecutedRealTrades(batch, exo, base, j);
    ExecutedShape(batch, exo, base, j);
    if res.decision != DoNothing {
      var n := |res.executed|;
      assert res.executed[n - 2] in res.executed[..n - 1];
    }
  }

  /** The global aggregates accumulated over the pairs. */
  datatype Totals = Totals(
    pairsTotal: nat,
    pairsExecuted: nat,
    candidateTxTotal: nat,
    executedTxTotal: nat,
    profitUsd: real,
    includedGasUsd: real,
    missedGasUsd: real
  )

  /** One pair's contribution to the aggregates. */
  function AddPair(acc: Totals, batch: seq<Trade>, res: PairResult): Totals {
    var rep := ReportPair(batch, res);
    var realTrades := RealTrades(res.executed);
    Totals(
      acc.pairsTotal + 1,
      acc.pairsExecuted + (if realTrades != [] then 1 else 0),
      acc.candidateTxTotal + |Candidates(batch, res.base, res.other)|,
      acc.executedTxTotal + |realTrades|,
      acc.profitUsd + res.profit,
      acc.includedGasUsd + rep.includedGasUsd,
      acc.missedGasUsd + rep.missedGasUsd)
  }

  function TotalsOf(batch: seq<Trade>, results: seq<PairResult>): Totals {
    if results == [] then Totals(0, 0, 0, 0, 0.0, 0.0, 0.0)
    else AddPair(TotalsOf(batch, results[..|results| - 1]), batch, results[|results| - 1])
  }

  /** Every pair is counted, at most all of them execute, and the missed gas total is never negative. */
  lemma {:induction false} TotalsBounds(batch: seq<Trade>, results: seq<PairResult>)
    ensures TotalsOf(batch, results).pairsTotal == |results|
    ensures TotalsOf(batch, results).pairsExecuted <= |results|
    ensures TotalsOf(batch, results).missedGasUsd >= 0.0
  {
    if results != [] {
      TotalsBounds(batch, results[..|results| - 1]);
    }
  }

  /** `_summary`. */
  datatype Summary = Summary(totals: Totals, netProfitUsd: real, ratio: Option<real>)

  /**
   * The summary of the aggregates: the net profit is the total profit less the
   * included gas, and the realised-to-missed ratio is absent exactly when no gas was
   * missed; otherwise it times the missed gas is the net profit.
   */
  function SummaryOfTotals(totals: Totals): (s: Summary)
    requires totals.missedGasUsd >= 0.0
    ensures s.totals == totals
    ensures s.netProfitUsd == totals.profitUsd - totals.includedGasUsd
    ensures s.ratio.None? <==> totals.missedGasUsd == 0.0
    ensures s.ratio.Some? ==> s.ratio.value * totals.missedGasUsd == s.netProfitUsd
  {
    var net := totals.profitUsd - totals.includedGasUsd;
    if totals.missedGasUsd > 0.0 then
      QuotientTimesDivisor(net, totals.missedGasUsd);
      Summary(totals, net, Some(net / totals.missedGasUsd))
    else
      Summary(totals, net, None)
  }

  lemma QuotientTimesDivisor(n: real, d: real)
    requires d != 0.0
    ensures (n / d) * d == n
  {
  }

  /** `_summary` of the results of a batch. */
  function SummaryOf(batch: seq<Trade>, results: seq<PairResult>): (s: Summary)
    ensures s.totals == TotalsOf(batch, results)
    ensures s.ratio.None? <==> s.totals.missedGasUsd == 0.0
  {
    TotalsBounds(batch, results);
    SummaryOfTotals(TotalsOf(batch, results))
  }

  /** The per-pair reports, in the order of the results. */
  function ReportsOf(batch: seq<Trade>, results: seq<PairResult>): (reports: seq<PairReport>)
    ensures |reports| == |results|
  {
    if results == [] then []
    else ReportsOf(batch, results[..|results| - 1]) + [ReportPair(batch, results[|results| - 1])]
  }

  /** One report per result, in the same order. */
  lemma {:induction false} ReportsOfIndex(batch: seq<Trade>, results: seq<PairResult>, i: nat)
    requires i < |results|
    ensures ReportsOf(batch, results)[i] == ReportPair(batch, results[i])
  {
    if i < |results| - 1 {
      ReportsOfIndex(batch, results[..|results| - 1], i);
    }
  }

  /** Extending the results by one pair appends its report and adds it to the totals. */
  lemma AccumulateStep(batch: seq<Trade>, results: seq<PairResult>, i: nat)
    requires i < |results|
    ensures ReportsOf(batch, results[..i + 1]) == ReportsOf(batch, results[..i]) + [ReportPair(batch, results[i])]
    ensures TotalsOf(batch, results[..i + 1]) == AddPair(TotalsOf(batch, results[..i]), batch, results[i])
  {
    assert results[..i + 1][..i] == results[..i];
  }

  /** The loop over the optimizer's results, building each pair's report and the global aggregates. */
  method AccumulatePairs(batch: seq<Trade>, results: seq<PairResult>) returns (reports: seq<PairReport>, totals: Totals)
    ensures reports == ReportsOf(batch, results)
    ensures totals == TotalsOf(batch, results)
  {
    reports := [];
    var totalProfitUsd, totalIncludedGasUsd, totalMissedGasUsd := 0.0, 0.0, 0.0;
    var pairsTotal: nat, pairsExecuted: nat, executedTxTotal: nat, candidateTxTotal: nat := 0, 0, 0, 0;
    for i := 0 to |results|
      invariant reports == ReportsOf(batch, results[..i])
      invariant pairsTotal == TotalsOf(batch, results[..i]).pairsTotal
      invariant pairsExecuted == TotalsOf(batch, results[..i]).pairsExecuted
      invariant candidateTxTotal == TotalsOf(batch, results[..i]).candidateTxTotal
      invariant executedTxTotal == TotalsOf(batch, results[..i]).executedTxTotal
      invariant totalProfitUsd == TotalsOf(batch, results[..i]).profitUsd
      invariant totalIncludedGasUsd == TotalsOf(batch, results[..i]).includedGasUsd
      invariant totalMissedGasUsd == TotalsOf(batch, results[..i]).missedGasUsd
    {
      AccumulateStep(batch, results, i);
      var info := results[i];
      var rep := ReportPair(batch, info);
      var executedReal := RealTrades(info.executed);
      totalProfitUsd := totalProfitUsd + info.profit;
      totalIncludedGasUsd := totalIncludedGasUsd + rep.includedGasUsd;
      totalMissedGasUsd := totalMissedGasUsd + rep.missedGasUsd;
      pairsTotal := pairsTotal + 1;
      if executedReal != [] {
        pairsExecuted := pairsExecuted + 1;
      }
      executedTxTotal := executedTxTotal + |executedReal|;
      candidateTxTotal := candidateTxTotal + |Candidates(batch, info.base, info.other)|;
      reports := reports + [rep];
    }
    assert results[..|results|] == results;
    totals := Totals(pairsTotal, pairsExecuted, candidateTxTotal, executedTxTotal,
                     totalProfitUsd, totalIncludedGasUsd, totalMissedGasUsd);
  }

  /** The per-pair reports and the `_summary` entry. */
  method Summarize(batch: seq<Trade>, results: seq<PairResult>) returns (reports: seq<PairReport>, summary: Summary)
    ensures reports == ReportsOf(batch, results)
    ensures summary == SummaryOf(batch, results)
  {
    var totals;
    reports, totals := AccumulatePairs(batch, results);
    var net := totals.profitUsd - totals.includedGasUsd;
    var ratio := if totals.missedGasUsd > 0.0 then Some(net / totals.missedGasUsd) else None;
    summary := Summary(totals, net, ratio);
  }

  /** The number of pairs whose decision is not "Do nothing". */
  function ExecutingPairs(results: seq<PairResult>): (n: nat)
    ensures n <= |results|
  {
    if results == [] then 0
    else ExecutingPairs(results[..|results| - 1]) + (if results[|results| - 1].decision != DoNothing then 1 else 0)
  }

  /** The candidate gas in USD summed over all pairs. */
  function CandidateGasUsd(batch: seq<Trade>, results: seq<PairResult>): real {
    if results == [] then 0.0
    else
      var res := results[|results| - 1];
      CandidateGasUsd(batch, results[..|results| - 1]) + GasSum(Candidates(batch, res.base, res.other), Usd)
  }

  /**
   * Over the optimizer's results on ingested trades, "pairs_executed" counts exactly
   * the pairs whose decision is not "Do nothing".
   */
  lemma {:induction false} SummaryCountsExecuting(batch: seq<Trade>, exo: map<string, real>, base: string, others: seq<string>, results: seq<PairResult>)
    requires OptimizerInput(batch, exo, base) && Decided(results, batch, exo, base, others)
    requires forall t :: t in batch ==> t.gasFeeEth.Some?
    ensures TotalsOf(batch, results).pairsExecuted == ExecutingPairs(results)
  {
    if results != [] {
      var n := |results| - 1;
      assert Decided(results[..n], batch, exo, base, others[..n]);
      SummaryCountsExecuting(batch, exo, base, others[..n], results[..n]);
      ExecutedRealTrades(batch, exo, base, others[n]);
    }
  }

  /**
   * Over the optimizer's results with non-negative fees, the included and missed gas
   * totals add up to the candidate gas of all pairs.
   */
  lemma {:induction false} SummaryGasAccounting(batch: seq<Trade>, exo: map<string, real>, base: string, others: seq<string>, results: seq<PairResult>)
    requires OptimizerInput(batch, exo, base) && Decided(results, batch, exo, base, others)
    requires forall t :: t in batch ==> FeeOf(t, Eth) >= 0.0 && FeeOf(t, Usd) >= 0.0
    ensures TotalsOf(batch, results).includedGasUsd + TotalsOf(batch, results).missedGasUsd == CandidateGasUsd(batch, results)
  {
    if results != [] {
      var n := |results| - 1;
      assert Decided(results[..n], batch, exo, base, others[..n]);
      SummaryGasAccounting(batch, exo, base, others[..n], results[..n]);
      PairGasAccounting(batch, exo, base, others[n]);
    }
  }
}
