/**
 * The batch pipeline of run_mev_analysis.py: normalise the price table, turn each
 * decoded swap into a trade, keep the trades whose two assets are priced, run the
 * optimizer with WETH as the base asset, and build the per-pair reports and the
 * summary.
 */
module Analysis {
  import opened Wrappers
  import opened Canon
  import opened Transaction
  import opened MevOptimization
  import opened PriceTable
  import opened Inference
  import opened Report

  /** The canonical WETH address on Ethereum mainnet, as the source spells it. */
  const WethAddress: string := "0xC02aaA39b223FE8D0A0e5C4F27eAD9083C756Cc2"

  /** The optimizer's base asset: the WETH address lower-cased, like every key of the price table. */
  function BaseAsset(): (base: string)
    ensures |base| == |WethAddress| && Lower(base) == base
  {
    LowerIdempotent(WethAddress);
    Lower(WethAddress)
  }

  /** `valid_batch`: the ingested trades whose two assets are in the normalised price table. */
  function ValidBatch(raw: seq<(string, RawEntry)>, swaps: seq<Swap>): seq<Trade> {
    var exo := NormalizedTable(raw);
    PricedTrades(IngestedBatch(swaps, exo), exo)
  }

  /**
   * Every trade that reaches the optimizer is positive, carries both symbols and both
   * fees, and has both assets priced, so the batch meets the optimizer's precondition
   * whatever the base asset.
   */
  lemma ValidBatchIsOptimizerInput(raw: seq<(string, RawEntry)>, swaps: seq<Swap>, base: string)
    ensures var exo := NormalizedTable(raw);
            && OptimizerInput(ValidBatch(raw, swaps), PriceMap(exo), base)
            && forall t :: t in ValidBatch(raw, swaps) ==> Ingested(t) && t.src in exo.entries && t.dst in exo.entries
  {
    var exo := NormalizedTable(raw);
    IngestedBatchValid(swaps, exo);
    PricedTradesMembers(IngestedBatch(swaps, exo), exo);
  }

  /** Every ingested trade's USD fee is its native fee times the WETH price of the table. */
  lemma {:induction false} IngestedFeesUsd(swaps: seq<Swap>, exo: Table)
    ensures forall t :: t in IngestedBatch(swaps, exo) ==> FeesInRatio(t, GasPriceUsd(exo))
  {
    if swaps != [] {
      var init := swaps[..|swaps| - 1];
      IngestedFeesUsd(init, exo);
      var last := InferTrade(swaps[|swaps| - 1], exo);
      var extra := if last.Some? then [last.value] else [];
      assert forall t :: t in extra ==> FeesInRatio(t, GasPriceUsd(exo));
      FeesInRatioConcat(IngestedBatch(init, exo), extra, GasPriceUsd(exo));
    }
  }

  lemma FeesInRatioConcat(a: seq<Trade>, b: seq<Trade>, price: real)
    requires forall t :: t in a ==> FeesInRatio(t, price)
    requires forall t :: t in b ==> FeesInRatio(t, price)
    ensures forall t :: t in a + b ==> FeesInRatio(t, price)
  {
  }

  /**
   * The fees of the trades that reach the optimizer are in one fixed ratio: USD fee =
   * native fee times the WETH price of the table (or the fallback price).
   */
  lemma ValidBatchFees(swaps: seq<Swap>, exo: Table)
    ensures forall t :: t in PricedTrades(IngestedBatch(swaps, exo), exo) ==> FeesInRatio(t, GasPriceUsd(exo))
  {
    IngestedFeesUsd(swaps, exo);
    PricedTradesMembers(IngestedBatch(swaps, exo), exo);
  }

  /**
   * The main script, from the decoded swaps and the raw price table to the per-pair
   * reports and the summary. One result is produced per asset of the valid batch other
   * than WETH, in ascending order; each is the optimizer's decision for that pair; the
   * reports and the summary are those of the results; "pairs_executed" counts the
   * pairs that do something; and, when no fee is negative, the included and missed gas
   * add up to the candidate gas of all pairs.
   */
  method AnalyzeBatch(raw: seq<(string, RawEntry)>, swaps: seq<Swap>)
    returns (results: seq<PairResult>, reports: seq<PairReport>, summary: Summary)
    ensures var valid := ValidBatch(raw, swaps);
            var exo := PriceMap(NormalizedTable(raw));
            && OptimizerInput(valid, exo, BaseAsset())
            && Decided(results, valid, exo, BaseAsset(), WithoutAsset(AssetList(valid), BaseAsset()))
            && reports == ReportsOf(valid, results)
            && summary == SummaryOf(valid, results)
            && summary.totals.pairsTotal == |results|
            && summary.totals.pairsExecuted == ExecutingPairs(results)
            && ((forall t :: t in valid ==> FeeOf(t, Eth) >= 0.0 && FeeOf(t, Usd) >= 0.0) ==>
                  summary.totals.includedGasUsd + summary.totals.missedGasUsd == CandidateGasUsd(valid, results))
  {
    var exo := NormalizePrices(raw);
    var batch := IngestSwaps(swaps, exo);
    var valid := FilterPriced(batch, exo);
    var prices := PriceMap(exo);
    var base := Lower(WethAddress);
    ValidBatchIsOptimizerInput(raw, swaps, base);
    results := ComputeBatch(valid, prices, base);
    reports, summary := Summarize(valid, results);
    var others := WithoutAsset(AssetList(valid), base);
    assert Decided(results, valid, prices, base, others);
    TotalsBounds(valid, results);
    SummaryCountsExecuting(valid, prices, base, others, results);
    if forall t :: t in valid ==> FeeOf(t, Eth) >= 0.0 && FeeOf(t, Usd) >= 0.0 {
      SummaryGasAccounting(valid, prices, base, others, results);
    }
  }
}
