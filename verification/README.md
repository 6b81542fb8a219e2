# MEV batch analysis, modelled in Dafny

This project models the analysis side of a small MEV study of Uniswap V2 router traffic.
A pending-transaction pool is filtered down to router calls and each call's calldata is decoded into a
swap record. The swap records and a table of exogenous USD prices are then turned into a batch of
trades `(src, dst, q, r)`. The paper's batch optimizer runs on that batch with WETH as the base asset:
for every other asset it looks at the forward leg (WETH → asset) and the reverse leg (asset → WETH).
It sorts each leg by rate and takes the most profitable prefix of the sorted leg. It then executes the better leg, plus one mediator
trade that closes the position. Last, the per-pair gas reports and the global summary are built.

Modules, one per concern of the source:

- `Wrappers`: `Option`.
- `Canon`: ASCII lower-casing of addresses, and the ordering of Python's `sorted` on strings.
- `Transaction`: the trade record and its textual form (`transaction.py`).
- `PrefixArgmax`: `cumulative_argmax`, as a specification function, a loop, and the lemmas that
  characterise it.
- `RateSort`: the stable sort of a leg by rate (`list.sort(key=lambda x: x.r)`).
- `MevOptimization`: `helper`, the legs, the decision rule, the mediator, and `compute_batch`
  (`mev_optimization.py`).
- `PaperExample`: the three-trade example of the paper, worked out completely.
- `PriceTable`: normalisation of the exogenous price table, with Python's dict insertion order
  (`run_mev_analysis.py`).
- `Inference`: from a decoded swap to a trade. This covers amount scaling, classification by function
  name, the clamp to ±10 % of the fair rate, gas fee inference and the "valid batch" filter.
- `Report`: the per-pair gas accounting and the summary.
- `Analysis`: the whole script, from the raw inputs to the results, reports and summary.
- `MempoolDecode`: the pure parts of the mempool decoder. These are the router filter, the selector
  table, argument pairing, `_hex_to_int`, the effective gas price and token metadata defaults.

Prices, quantities, rates and fees are `real`: exact arithmetic stands in for Python floats.
Wei amounts and gas are `int`.

Calls into code that is not visible become parameters:
- the ABI decoder (`eth_abi.decode`) is `abiDecode`;
- the on-chain token metadata lookup is `describe`;
- the latest block's base fee is `baseFeeAt`, indexed by the transaction's position;
- the number formatting used by `__repr__` is `fmt`.

## Model

| member | source | states |
|---|---|---|
| Transaction.NewTrade | transaction.py:2-6 | the new trade has exactly the given source, destination, quantity and rate; it carries no symbol and no gas fee (those attributes are absent until the script sets them) |
| Transaction.ReprRecoversSource | transaction.py:8-9 | the text form of a trade starts with its source token: cutting it at the first `-` gives the source back, for sources without `-` |
| Transaction.Repr | transaction.py:8-9 | no contract; the text form `src->dst q=… r=…`, characterised by Transaction.ReprRecoversSource |
| Canon.Lower | run_mev_analysis.py:47 | lower-casing keeps the length and maps each character on its own |
| Canon.LowerIdempotent | run_mev_analysis.py:61-62 | lower-casing an already lower-cased address changes nothing, so table keys and trade endpoints meet |
| Canon.StrictlySortedUnique | mev_optimization.py:19 | two strictly sorted lists with the same members are equal, so the sorted asset list is determined by the asset set |
| PrefixArgmax.BestPrefix | mev_optimization.py:8-14 | there is no best prefix exactly when the list is empty; otherwise the index is in range and the value is the sum of the prefix up to it |
| PrefixArgmax.CumulativeArgmax | mev_optimization.py:8-14 | the running-sum loop returns the best prefix |
| PrefixArgmax.BestPrefixIsEarliestMaximum | mev_optimization.py:12-13 | no prefix sum exceeds the returned value, and every shorter prefix is strictly smaller (the strict `>` keeps the earliest maximum) |
| PrefixArgmax.EarliestMaximumIsBestPrefix | mev_optimization.py:12-13 | conversely, the earliest index of a maximal prefix sum is the one returned |
| PrefixArgmax.WorkedExample | mev_optimization.py:8-14 | for profits 3, -1, 2, -5 the best prefix ends at index 2 with total 4 |
| PrefixArgmax.NegativeSingletonExample | mev_optimization.py:9-13 | a single negative value is still selected (the start is minus infinity), giving a non-positive total |
| PrefixArgmax.SumRises | mev_optimization.py:11 | extending a prefix by positive values strictly raises its sum |
| PrefixArgmax.SumFalls | mev_optimization.py:11 | extending a prefix by non-positive values never raises its sum |
| PrefixArgmax.BestPrefixOfPositivesFirst | mev_optimization.py:8-14 | when the positive values come first, the best prefix is exactly those values and its total is the sum of all positive values |
| RateSort.InsertByRate | mev_optimization.py:26 | inserting a trade adds exactly that trade |
| RateSort.SortByRate | mev_optimization.py:26 | sorting keeps the length and the members |
| RateSort.SortByRatePermutation | mev_optimization.py:26 | the sorted leg is a permutation of the leg (same multiset) |
| RateSort.SortByRateSorted | mev_optimization.py:26 | the sorted leg is ordered by non-decreasing rate |
| RateSort.SortByRateStable | mev_optimization.py:26 | trades of equal rate keep their batch order, as Python's stable sort does |
| MevOptimization.HelperSign | mev_optimization.py:4-5 | for a positive quantity, a trade's profit is positive exactly when the source price exceeds the destination price times the rate; the profit is zero exactly when the quantity is zero or the two are equal |
| MevOptimization.Helper | mev_optimization.py:4-5 | no contract; a trade's USD profit at the given prices, characterised by MevOptimization.HelperSign and MevOptimization.HelperAntitoneInRate |
| MevOptimization.HelperAntitoneInRate | mev_optimization.py:4-5 | with a non-negative destination price and quantity, a higher rate never gives a higher profit |
| MevOptimization.Leg | mev_optimization.py:25 | a leg holds exactly the batch trades from the given source to the given destination |
| MevOptimization.SortedLeg | mev_optimization.py:25-26 | the sorted leg holds exactly the batch trades in that direction |
| MevOptimization.GuardedQty | mev_optimization.py:48 | the divisor of the average is positive and at least the executed quantity |
| MevOptimization.Mediator | mev_optimization.py:47-50 | the mediator runs between the two given assets (the caller passes the reverse of the executed leg) with the executed total quantity; its rate times the guarded quantity-weighted average rate is 1; it carries no symbol and no fee |
| MevOptimization.NotionalSumPositive | mev_optimization.py:47-48 | a non-empty executed prefix of positive trades has positive quantity and notional, so `1 / avg_rate` is defined |
| MevOptimization.DecisionRule | mev_optimization.py:36-61 | nothing is done exactly when neither leg's best profit is positive; forward is chosen exactly when its profit is positive and at least the reverse one (ties go forward); reverse exactly when it is strictly better; a decision to act has positive profit and a non-empty executed list |
| MevOptimization.ExecutedShape | mev_optimization.py:41-61 | the executed list is a prefix of the chosen sorted leg, made only of batch trades in the chosen direction, followed by one mediator back with their total quantity; the reported profit is the sum of their profits |
| MevOptimization.ChosenLegShape | mev_optimization.py:43-50 | for one leg with a best prefix: the executed list is one or more trades of the leg's sorted prefix, each a batch trade in that direction, followed by a fee-less mediator back carrying their total quantity, and the reported profit is the sum of their profits |
| MevOptimization.ExecuteShape | mev_optimization.py:43-50 | the executed list is the first `k1 + 1` trades of the sorted leg followed by a mediator in the given direction |
| MevOptimization.AssetList | mev_optimization.py:19 | the assets are strictly sorted, and an asset is listed exactly when it is some trade's source or destination |
| MevOptimization.WithoutAsset | mev_optimization.py:22 | the pair list holds exactly the assets other than the base |
| MevOptimization.WithoutAssetSorted | mev_optimization.py:22 | removing the base keeps the assets strictly sorted |
| MevOptimization.ComputePair | mev_optimization.py:23-72 | the loop body's result for one pair is the decision of the decision rule |
| MevOptimization.DecidePair | mev_optimization.py:25-72 | no contract; the decision for one pair, characterised by MevOptimization.DecisionRule, MevOptimization.ExecutedShape and MevOptimization.LegBestTakesAllProfitable |
| MevOptimization.ComputeBatch | mev_optimization.py:18-74 | one result per non-base asset of the batch, in ascending order, and each is the decision for the pair (base, asset); the assets visited are exactly the batch endpoints other than the base |
| MevOptimization.DecidedAppend | mev_optimization.py:23-72 | deciding one more pair extends the list of decided pairs by that pair's decision |
| MevOptimization.LeadingPositive | mev_optimization.py:12 | the returned count is the length of the leading run of positive values |
| MevOptimization.ProfitSignAntitone | mev_optimization.py:26-27 | along a rate-sorted leg, a profitable trade is preceded only by profitable trades |
| MevOptimization.SortedLegTakesAllProfitable | mev_optimization.py:26-28 | sorting by rate makes the greedy prefix optimal: on a leg with a profitable trade, the best prefix is exactly the profitable trades, and its total is the sum of all positive per-trade profits |
| MevOptimization.LegBestTakesAllProfitable | mev_optimization.py:25-34 | the same, for each leg of a pair inside `compute_batch` |
| MevOptimization.NotionalBounds | mev_optimization.py:48 | the notional lies between the smallest and the largest rate times the quantity |
| MevOptimization.NotionalBetween | mev_optimization.py:48 | for positive quantities with rates in [lo, hi], the notional lies between lo and hi times the total quantity |
| MevOptimization.AverageRateBounds | mev_optimization.py:47-48 | when the executed quantity reaches the 1e-12 guard, the notional is positive and the average rate lies between the smallest and the largest executed rate |
| MevOptimization.MediatorRateBounds | mev_optimization.py:47-50 | when the executed quantity reaches the 1e-12 guard, `1 / avg_rate` is defined and the mediator's rate lies between the reciprocals of the largest and the smallest executed rate |
| MevOptimization.GuardDistortsTinyBatches | mev_optimization.py:48-49 | below the guard the "average" is not one: one trade of quantity 1e-13 at rate 1 yields a mediator rate of 10 |
| PaperExample.PaperInput | mev_optimization.py:79-84 | the paper's batch and prices meet the optimizer's input conditions |
| PaperExample.PaperPairs | mev_optimization.py:19-22 | for asset names a < b < c, with base a the pairs are visited in the order b, c |
| PaperExample.PaperLegs | mev_optimization.py:25 | the a→b leg and the c→a leg hold one trade each, and the b→a and a→c legs are empty |
| PaperExample.SingleMediator | mev_optimization.py:47-49 | the mediator of one trade carries its quantity back at the reciprocal of its rate |
| PaperExample.LoneProfitableTrade | mev_optimization.py:25-61 | a pair whose only trade runs one way and earns a profit executes that trade plus its mediator back, with that profit, forward or reverse by the trade's direction |
| PaperExample.PaperPairB | mev_optimization.py:36-50 | pair (a, b): forward a→b with profit 1 and mediator b→a of quantity 2 and rate 2 |
| PaperExample.PaperPairC | mev_optimization.py:52-61 | pair (a, c): reverse c→a with profit 2 and mediator a→c of quantity 4 and rate 2 |
| PaperExample.PaperRun | mev_optimization.py:77-86 | `compute_batch` on the example returns exactly those two results, (a, b) first |
| PriceTable.Empty | run_mev_analysis.py:42 | the table starts with no keys and no entries |
| PriceTable.Put | run_mev_analysis.py:48-52 | assignment overwrites the entry; a new key is appended to the key order, an existing key keeps its position |
| PriceTable.Normalize | run_mev_analysis.py:43-52 | an entry is kept exactly when it is an object with a symbol and a price; it keeps both, and decimals default to 18 |
| PriceTable.NormalizedTable | run_mev_analysis.py:42-52 | the normalised table's key order lists each entry exactly once |
| PriceTable.NormalizePrices | run_mev_analysis.py:42-52 | the normalisation loop builds the normalised table |
| PriceTable.NormalizedDomain | run_mev_analysis.py:43-48 | an address is in the table exactly when some well-formed raw entry lower-cases to it; every key is lower case |
| PriceTable.NormalizedFiled | run_mev_analysis.py:43-48 | the table's keys are exactly the lower-cased addresses of the well-formed raw entries |
| PriceTable.NormalizedLastWins | run_mev_analysis.py:47-52 | when raw addresses collide after lower-casing, the last well-formed entry is the one kept |
| PriceTable.NormalizedKeyOrder | run_mev_analysis.py:42-52 | without collisions, the key order is the order of the raw entries |
| PriceTable.DecimalsOf | run_mev_analysis.py:66-67 | a listed token's decimals, else 18 |
| PriceTable.PriceOf | run_mev_analysis.py:104-105 | a price is found exactly for listed tokens |
| PriceTable.FirstWeth | run_mev_analysis.py:145 | a WETH price is found exactly when some listed entry has symbol "WETH", and it comes from such an entry |
| PriceTable.PriceMap | run_mev_analysis.py:168 | the optimizer's price map has the table's keys and their USD prices |
| PriceTable.NormalizeExample | run_mev_analysis.py:43-52 | a mixed-case address is lower-cased, a non-object entry is dropped, an entry without symbol is dropped |
| Inference.OrOne | run_mev_analysis.py:17 | `x or 1` is never zero, and is `x` whenever `x` is truthy |
| Inference.InferRateAndQty | run_mev_analysis.py:8-32 | the quantity is never zero; for its three exact-input names `q = amountIn or 1`, and `q·r = amountOutMin` when both amounts are truthy, else rate 1; for exact-output names `q = amountOut or 1`, and `q·r = amountInMax` when both are truthy, else rate 1; any other name gives `(amountIn or 1, 1)` |
| Inference.ExactOutputConventions | run_mev_analysis.py:22-25 | for exact-output swaps with both amounts non-zero, the legacy function's rate and the script's rate are reciprocals, and the legacy quantity is `amountOut` where the script's is `amountInMax` |
| Inference.LegacyOmitsExactTokensForETH | run_mev_analysis.py:16 | the legacy function gives rate 1 for `swapExactTokensForETH`, while the script infers `amountOutMin / amountIn` |
| Inference.Pow10 | run_mev_analysis.py:76 | a power of ten is at least 1 |
| Inference.Scale | run_mev_analysis.py:76 | the scale `10 ** d` is positive, including for negative decimals |
| Inference.ToUnit | run_mev_analysis.py:75-81 | only numbers convert; the result times `10 ** d` is the raw amount, and it is zero exactly when the amount is |
| Inference.ClassifySwap | run_mev_analysis.py:85-99 | a quantity and rate are inferred exactly for a known name with both required amounts truthy; exact-input gives `q = amountIn` and `q·r = amountOutMin`; exact-output gives `q = amountInMax` and `q·r = amountOut` |
| Inference.ClampWithinBand | run_mev_analysis.py:103-114 | with positive prices, the clamped rate lies within ±10 % of the fair rate |
| Inference.ClampRate | run_mev_analysis.py:103-114 | no contract; the ±10 % clamp around the fair rate, characterised by Inference.ClampWithinBand, Inference.ClampKeepsInside, Inference.ClampIdempotent, Inference.ClampNegativeSourcePrice and Inference.ClampExamples |
| Inference.ClampKeepsInside | run_mev_analysis.py:103-114 | a rate already in the band, or with no usable fair rate, is left as it is |
| Inference.ClampIdempotent | run_mev_analysis.py:103-114 | clamping twice is clamping once |
| Inference.ClampNegativeSourcePrice | run_mev_analysis.py:106-114 | a negative source price passes the truthiness guard and turns a positive rate negative |
| Inference.ClampExamples | run_mev_analysis.py:107-114 | fair rate 2: rate 3 becomes 2.2, rate 1 becomes 1.8, rate 2.05 is kept |
| Inference.FirstNonZero | run_mev_analysis.py:129-136 | an `or` chain is zero exactly when every candidate is missing or zero; otherwise it is one of the candidates |
| Inference.GasPriceIsFirstNonZero | run_mev_analysis.py:129-133 | the gas price is the first non-zero of effectiveGasPrice, gasPrice, maxFeePerGas, maxPriorityFeePerGas |
| Inference.GasPriceWei | run_mev_analysis.py:129-133 | no contract; the gas price in wei, characterised by Inference.GasPriceIsFirstNonZero |
| Inference.GasUsedIsFirstNonZero | run_mev_analysis.py:136 | gas used is the first non-zero of gasUsed and gas |
| Inference.GasUsedOf | run_mev_analysis.py:136 | no contract; the gas quantity, characterised by Inference.GasUsedIsFirstNonZero |
| Inference.GasFeeEth | run_mev_analysis.py:137 | the fee is price times gas over 1e18, zero exactly when either is zero, and non-negative for non-negative inputs |
| Inference.GasPriceUsd | run_mev_analysis.py:144-151 | the first WETH price in the table, else the fallback 3842.42 |
| Inference.InferTrade | run_mev_analysis.py:56-153 | an inferred trade comes from a swap whose name the analysis classifies; it has positive quantity and rate, runs from the path's first to its last token, carries both symbols, its ETH fee is gas price times gas over 1e18 and its USD fee that times the WETH price; its quantity and rate are the validated ones |
| Inference.InferTradeRate | run_mev_analysis.py:85-119 | an inferred trade's rate: without a usable fair rate, quantity times rate is amountOutMin (exact input) or amountOut (exact output) in token units; with one, the fair rate is positive and the rate lies within ±10 % of it |
| Inference.ValidatedAmounts | run_mev_analysis.py:103-119 | amounts pass exactly when the classified quantity and rate are positive and the rate is still positive after the clamp; they are then the classified quantity and the clamped classified rate |
| Inference.ValidatedRate | run_mev_analysis.py:85-119 | a validated rate is the classified one when no fair rate is usable, so quantity times rate is the destination amount in token units; otherwise the fair rate is positive and the rate is within ±10 % of it |
| Inference.ClampedPositiveInBand | run_mev_analysis.py:103-117 | a positive rate that stays positive after the clamp had a positive fair rate and lies in the band (a negative source price makes the clamped rate negative, so the swap is skipped) |
| Inference.ValidatedQuantity | run_mev_analysis.py:89-119 | the validated quantity is amountIn (exact input) or amountInMax (exact output), converted to token units with the source token's decimals |
| Inference.ClassifiedRate | run_mev_analysis.py:87-96 | the classified quantity times the classified rate is amountOutMin (exact input) or amountOut (exact output) in token units |
| Inference.ClassifiedQuantity | run_mev_analysis.py:78-96 | the classified quantity is amountIn (exact input) or amountInMax (exact output) in token units |
| Inference.InferTradeRateInBand | run_mev_analysis.py:103-119 | with both prices positive, the trade's rate lies within ±10 % of the fair rate |
| Inference.NoAmountInNoTrade | run_mev_analysis.py:87-91 | an ETH-input swap without `amountIn` yields no trade |
| Inference.NoAmountInMaxNoTrade | run_mev_analysis.py:92-96 | an ETH-for-exact-tokens swap without `amountInMax` yields no trade |
| Inference.IngestSwaps | run_mev_analysis.py:55-153 | the ingestion loop produces the ingested batch |
| Inference.IngestedBatchValid | run_mev_analysis.py:117-153 | every ingested trade is positive and annotated, and there are no more trades than swaps |
| Inference.FilterPriced | run_mev_analysis.py:155-163 | the filter loop produces the priced trades |
| Inference.PricedTradesMembers | run_mev_analysis.py:156-159 | a trade is kept exactly when it is in the batch and both its assets are priced |
| Report.FeeOf | run_mev_analysis.py:195-197 | a missing fee counts as 0, a present one as itself |
| Report.GasSumConcat | run_mev_analysis.py:194-215 | gas sums add over concatenation |
| Report.GasSumNonNegative | run_mev_analysis.py:194-215 | non-negative fees give a non-negative sum |
| Report.GasSumSorted | run_mev_analysis.py:194-198 | sorting a leg by rate does not change its gas sum |
| Report.GasSumPrefix | run_mev_analysis.py:194-215 | with non-negative fees, a prefix's gas is between 0 and the whole |
| Report.Candidates | run_mev_analysis.py:186-189 | a candidate is exactly a batch trade between the base and the other asset, in either direction |
| Report.CandidatesSplit | run_mev_analysis.py:186-189 | the candidates' gas and count are those of the forward leg plus the reverse leg |
| Report.RealTrades | run_mev_analysis.py:223 | the real executed trades are exactly the executed ones with a native fee |
| Report.RealTradesConcat | run_mev_analysis.py:223 | filtering distributes over concatenation |
| Report.RealTradesAll | run_mev_analysis.py:223 | a list of fee-carrying trades is kept whole |
| Report.AtLeastZero | run_mev_analysis.py:218-219 | `max(x, 0.0)` is non-negative, at least `x`, and is `x` when `x` is non-negative |
| Report.ReportPair | run_mev_analysis.py:182-252 | the script's report of a pair: missed gas is non-negative; net profit is profit minus included gas; decision, profit and pair are carried over; the destination symbol is read from the last executed entry |
| Report.LegGas | run_mev_analysis.py:194-215 | the executed trades' gas is between 0 and the chosen leg's gas |
| Report.PairGas | run_mev_analysis.py:194-215 | the executed trades' gas is between 0 and the candidates' gas |
| Report.PairGasAccounting | run_mev_analysis.py:194-219 | with non-negative fees, included gas is at most the candidate gas, and included plus missed is exactly the candidate gas, in ETH and in USD |
| Report.ExecutedFromRealTrades | run_mev_analysis.py:223 | when every batch trade carries a fee, the real trades of an executed list are all its trades but the closing mediator |
| Report.ExecutedRealTrades | run_mev_analysis.py:223-232 | the real executed trades are the executed list without the mediator: none when nothing is done, at least one otherwise |
| Report.DstSymbolAsWrittenIsNone | run_mev_analysis.py:243 | as written, the last executed entry of every pair is the mediator or nothing, so the script's report names no destination symbol |
| Report.DstSymbolAsWritten | run_mev_analysis.py:243 | no contract; the symbol of the last executed entry, shown always absent by Report.DstSymbolAsWrittenIsNone |
| Report.DstSymbolOfExecuted | run_mev_analysis.py:242-243 | the corrected destination symbol is that of the last real executed trade, a batch trade ending at the other asset (forward) or the base (reverse) |
| Report.IntendedReportDstSymbol | run_mev_analysis.py:238-252 | the intended report agrees with the script's except for the destination symbol; for a pair that acts, it is present and is that of the last real trade, while the script's is absent |
| Report.ReportPairIntended | run_mev_analysis.py:238-252 | no contract; the script's report with the corrected destination symbol, characterised by Report.IntendedReportDstSymbol |
| Report.TotalsBounds | run_mev_analysis.py:227-234 | the pair count is the number of results, the executed count is at most that, and missed gas is non-negative |
| Report.SummaryOfTotals | run_mev_analysis.py:254-268 | the summary keeps the totals; net profit is total profit minus included gas; the ratio is absent exactly when missed gas is zero, else it times the missed gas is the net profit |
| Report.SummaryOf | run_mev_analysis.py:254-268 | the summary of the results carries their totals, and it has a ratio exactly when some gas was missed |
| Report.ReportsOf | run_mev_analysis.py:182-252 | one report per result |
| Report.ReportsOfIndex | run_mev_analysis.py:238-252 | the i-th report is the report of the i-th result |
| Report.AccumulateStep | run_mev_analysis.py:227-238 | one loop iteration appends one report and adds one pair to the totals |
| Report.AccumulatePairs | run_mev_analysis.py:174-252 | the pair loop builds all reports and the totals |
| Report.Summarize | run_mev_analysis.py:172-268 | the reports and the summary are the script's for the results, including the absent destination symbols |
| Report.ExecutingPairs | run_mev_analysis.py:231-232 | the number of acting pairs is at most the number of pairs |
| Report.SummaryCountsExecuting | run_mev_analysis.py:231-232 | "pairs_executed" counts exactly the pairs whose decision is to act |
| Report.SummaryGasAccounting | run_mev_analysis.py:228-229 | with non-negative fees, the total included plus the total missed gas is the total candidate gas |
| Analysis.BaseAsset | run_mev_analysis.py:6 | the base asset is the WETH address in lower case |
| Analysis.ValidBatchIsOptimizerInput | run_mev_analysis.py:156-169 | every trade reaching the optimizer is positive, annotated and priced |
| Analysis.ValidBatch | run_mev_analysis.py:156-163 | no contract; the ingested trades whose two assets are priced, characterised by Analysis.ValidBatchIsOptimizerInput and Analysis.ValidBatchFees |
| Analysis.IngestedFeesUsd | run_mev_analysis.py:142-151 | every ingested trade's USD fee is its ETH fee times the table's WETH price (or the fallback) |
| Analysis.ValidBatchFees | run_mev_analysis.py:142-151 | every valid trade's USD fee is its ETH fee times the WETH price |
| Analysis.AnalyzeBatch | run_mev_analysis.py:35-268 | one result per non-WETH asset, in order, each the optimizer's decision; reports and summary match; pairs counted; gas accounting closes |
| MempoolDecode.FilterRouterTxs | mempool_onchain_load_filter_decode.py:46-52 | the nested loop returns the router transactions |
| MempoolDecode.RouterTxsOfConcat | mempool_onchain_load_filter_decode.py:48-52 | filtering distributes over concatenation |
| MempoolDecode.RouterTxsOfMembers | mempool_onchain_load_filter_decode.py:50-52 | a transaction is kept exactly when it goes to a known router |
| MempoolDecode.IsRouterTx | mempool_onchain_load_filter_decode.py:50-51 | no contract; the router filter's test, characterised by MempoolDecode.RouterTxsOfMembers |
| MempoolDecode.RouterTxsInPoolOrder | mempool_onchain_load_filter_decode.py:48-52 | the kept transactions are those of the flattened pool, in pool order |
| MempoolDecode.SplitSelector | mempool_onchain_load_filter_decode.py:183-185 | selector and call data put together give the input, and the selector has at most ten characters |
| MempoolDecode.InputsShape | mempool_onchain_load_filter_decode.py:57-145 | every entry's argument names are distinct, and `path` is third from last |
| MempoolDecode.InputsAmountIn | mempool_onchain_load_filter_decode.py:57-145 | an entry declares `amountIn` exactly when it is exact-input in tokens |
| MempoolDecode.SwapFunctionsShape | mempool_onchain_load_filter_decode.py:57-145 | the table holds nine selectors, each ten characters starting with "0x", each with a function name and the argument list of its kind |
| MempoolDecode.SwapFunctions | mempool_onchain_load_filter_decode.py:57-145 | no contract; the selector table, characterised by MempoolDecode.SwapFunctionsShape, MempoolDecode.InputsShape and MempoolDecode.InputsAmountIn |
| MempoolDecode.TypesOf | mempool_onchain_load_filter_decode.py:211 | the expected types are the declared input types, in order |
| MempoolDecode.DecodeCall | mempool_onchain_load_filter_decode.py:191-217 | an unknown selector decodes to nothing; a decoded call uses that selector's table entry and its values have the declared types |
| MempoolDecode.HexOfBytes | mempool_onchain_load_filter_decode.py:239-241 | the hex text has two characters per byte |
| MempoolDecode.HexOfBytesRoundTrip | mempool_onchain_load_filter_decode.py:239-241 | each pair of hex characters reads back as its byte |
| MempoolDecode.DecodedArgs | mempool_onchain_load_filter_decode.py:223-226 | one named argument per decoded value |
| MempoolDecode.LookupFound | mempool_onchain_load_filter_decode.py:223-226 | with distinct names, a name's lookup gives its value |
| MempoolDecode.LookupMissing | mempool_onchain_load_filter_decode.py:223-226 | a name that is absent is not found |
| MempoolDecode.DecodedArgsLookup | mempool_onchain_load_filter_decode.py:223-228 | each argument name maps to the value at its position; undeclared names are absent |
| MempoolDecode.HexToInt | mempool_onchain_load_filter_decode.py:247-257 | null and non-numeric values give nothing; integers pass unchanged; a `0x` text never gives a negative number |
| MempoolDecode.HexStringRoundTrip | mempool_onchain_load_filter_decode.py:254 | every natural written as `0x` hex reads back as itself |
| MempoolDecode.DecimalStringRoundTrip | mempool_onchain_load_filter_decode.py:254 | every integer written in decimal reads back as itself |
| MempoolDecode.DigitsRoundTrip | mempool_onchain_load_filter_decode.py:254 | the digits of a number in any base from 2 to 16 read back as that number |
| MempoolDecode.NaturalDecimalRoundTrip | mempool_onchain_load_filter_decode.py:254 | every natural written in decimal reads back as itself |
| MempoolDecode.NegativeDecimalRoundTrip | mempool_onchain_load_filter_decode.py:254 | every negative integer written with a minus sign reads back as itself |
| MempoolDecode.MinusParses | mempool_onchain_load_filter_decode.py:254 | a minus sign before a decimal digit run negates its value |
| MempoolDecode.ByteDigitsValue | mempool_onchain_load_filter_decode.py:239-241 | the two hex digits of a byte read back as that byte |
| MempoolDecode.HexToIntHexExamples | mempool_onchain_load_filter_decode.py:254 | "0x1a" and "0x1A" are 26 |
| MempoolDecode.HexToIntDecimalExamples | mempool_onchain_load_filter_decode.py:254 | "26" is 26 and "-26" is -26 |
| MempoolDecode.HexToIntRejects | mempool_onchain_load_filter_decode.py:247-257 | "0x", "0X1a" and "1a" give nothing |
| MempoolDecode.EffectiveGasPrice | mempool_onchain_load_filter_decode.py:266-280 | a non-zero gas price wins; with a base fee the result is base fee plus tip, capped by a non-zero max fee; without one it is the max fee or else the tip |
| MempoolDecode.EffectiveGasPriceIsCap | mempool_onchain_load_filter_decode.py:275-277 | with a base fee, the result is the largest value under both caps |
| MempoolDecode.DescribeToken | mempool_onchain_load_filter_decode.py:148-171 | the address and decimals are kept; a missing or empty symbol or name becomes "UNKNOWN", and a present non-empty one is kept |
| MempoolDecode.Metas | mempool_onchain_load_filter_decode.py:230-233 | one metadata record per path address |
| MempoolDecode.LowerSetMembers | mempool_onchain_load_filter_decode.py:234 | the collected addresses are exactly the lower-cased path addresses |
| MempoolDecode.BuildSwap | mempool_onchain_load_filter_decode.py:237-296 | the record names the entry's function, has one path record per path address, and its effective price follows the rule above |
| MempoolDecode.PathStep | mempool_onchain_load_filter_decode.py:230-234 | one more path address appends its metadata record and adds its lower-cased form |
| MempoolDecode.DescribePath | mempool_onchain_load_filter_decode.py:230-234 | the path loop returns the metadata records and adds the lower-cased addresses to the collected set |
| MempoolDecode.DecodeStep | mempool_onchain_load_filter_decode.py:182-298 | one more transaction appends its decoded record, if it decodes, and adds its path's lower-cased addresses |
| MempoolDecode.DecodeAll | mempool_onchain_load_filter_decode.py:182-298 | the decode loop returns the decoded swaps and the collected token addresses |
| MempoolDecode.DecodedSwaps | mempool_onchain_load_filter_decode.py:182-298 | no contract; the decoded records in transaction order, built by MempoolDecode.DecodeAll and characterised by MempoolDecode.DecodeStep and MempoolDecode.BuildSwap |
| MempoolDecode.EthInputSwapsNeverTrade | mempool_onchain_load_filter_decode.py:58-124 | calls to the two exact-ETH-input functions (selectors 0x7ff36ab5 and 0xb6f9de95) either fail to decode or declare no `amountIn`, so no trade is ever inferred from them, whatever the price table |
| MempoolDecode.ToSwap | run_mev_analysis.py:57-73 | no contract; a decoded record as the analysis reads it (function name, path, the four amounts, the gas fields of lines 129-136, no gasUsed), used by MempoolDecode.EthInputSwapsNeverTrade, MempoolDecode.EthForExactTokensNeverTrades and MempoolDecode.FeeOnTransferTokensForTokensNeverTrades |
| MempoolDecode.EthForExactTokensNeverTrades | mempool_onchain_load_filter_decode.py:67-75 | calls with selector 0xfb3bdb41 either fail to decode or declare no `amountInMax`, which the exact-output inference needs, so they never trade |
| MempoolDecode.FeeOnTransferTokensForTokensNeverTrades | mempool_onchain_load_filter_decode.py:135-144 | calls with selector 0xded9382a decode to a function name the analysis does not classify, so they never trade |
| MempoolDecode.ClassifiedFunctions | mempool_onchain_load_filter_decode.py:57-145 | every other table function is one the analysis classifies as exact-input or exact-output; being classified does not make it trade (0xfb3bdb41 never does, see the row above) |

## Left out

- File and console I/O: reading `sample.dump`, `decoded_swaps.json` and `exo.json`, writing the results, the progress and warning prints, and the top-5 table. Inputs are parameters and outputs are results.
- Network calls become parameters: `eth_abi.decode` is `abiDecode`, the ERC-20 metadata calls are `describe`, and `get_block("latest")` is `baseFeeAt`.
- The 4byte directory lookup for unknown selectors only prints. The model drops those transactions, as the source does.
- `token_pricing.py`, `mempool_onchain_snapshot.py` and the `usd_values` enrichment (mempool_onchain_load_filter_decode.py:300-307) are not part of this model. They need network prices and do not feed the analysis.
- Floating point: amounts, prices and fees are exact reals, so rounding, overflow to infinity and NaN are not modelled.
- Lower-casing is ASCII only. Addresses are hex text.
- Non-numeric or null JSON values for `price_usd`, `decimals` and `symbol` are not modelled. A table entry holds a real price, an integer decimals count and a symbol string.
- The decision text (`"Execute A->B and mediator (B->A)"`) is a datatype `ExecuteForward` / `ExecuteReverse` / `DoNothing`.
- `Transaction.Repr` takes the float formatting as a parameter `fmt`.
- Python booleans used as integers are not modelled. `int(x)` is a bare digit run with an optional sign: whitespace and underscores count as failures.
- A decoder result that does not match the declared types is treated as a failed decode. A transaction without `input` is not modelled.
- The pending pool's `(sender, nonce)` keys are not used by the filter. The pool is a sequence of per-sender sequences in dict order.
- MevOptimization.ComputeBatch: requires every trade to have a positive quantity and rate, and every trade touching the base asset to have both assets priced. Without the prices Python raises a `KeyError`; with a zero quantity or rate the mediator's `1 / avg_rate` can divide by zero. The script only passes batches that meet both conditions.
- Inference.ClampIdempotent: requires a non-negative source price. With a negative source price the band is inverted, and clamping moves the rate (see `Inference.ClampNegativeSourcePrice`).
- MempoolDecode.DecodedArgs: requires as many values as declared inputs. A conforming decode always has that.
- The decoder's effective gas price and the analysis's gas price fallback follow the code: `maxFeePerGas or maxPriorityFeePerGas`, not the larger of the two caps.

## Findings

| source | as written | input that shows it | evidently intended | confidence | as-written member | corrected member |
|---|---|---|---|---|---|---|
| run_mev_analysis.py:243 | `dst_symbol` reads the last executed entry, which is always the mediator; the mediator never gets a symbol, so the value is always `None` | any pair whose decision is to execute | the destination symbol of the last real executed trade | not executed | Report.DstSymbolAsWrittenIsNone | Report.IntendedReportDstSymbol |

The reports of the pipeline (`Report.ReportPair`, `Report.Summarize`, `Analysis.AnalyzeBatch`) follow the code as written. `Report.ReportPairIntended` is the corrected report.
