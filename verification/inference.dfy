/**
 * From decoded swaps to trades (run_mev_analysis.py): the legacy `infer_rate_and_qty`,
 * and the main loop's decimal normalisation, function-name classification, fair-price
 * clamp, positivity validation and gas-fee estimate, followed by the priced-asset filter.
 */
module Inference {
  import opened Wrappers
  import opened Canon
  import opened Transaction
  import opened PriceTable

  /** A JSON amount of a decoded swap: absent, a number, or some other JSON value. */
  datatype Amount = Missing | Num(value: real) | NonNumeric

  /** One entry of a swap's "path": the token's "address" and "symbol" keys. */
  datatype PathToken = PathToken(address: Option<string>, symbol: Option<string>)

  /** One record of decoded_swaps.json, with the keys the analysis reads. */
  datatype Swap = Swap(
    fnName: Option<string>,
    path: seq<PathToken>,
    amountIn: Amount,
    amountOutMin: Amount,
    amountOut: Amount,
    amountInMax: Amount,
    effectiveGasPrice: Option<int>,
    gasPrice: Option<int>,
    maxFeePerGas: Option<int>,
    maxPriorityFeePerGas: Option<int>,
    gasUsed: Option<int>,
    gas: Option<int>
  )

  /** Python truthiness of an optional number: present and non-zero. */
  predicate Truthy(x: Option<real>) {
    x.Some? && x.value != 0.0
  }

  /** `x or 1`. */
  function OrOne(x: Option<real>): (v: real)
    ensures v != 0.0
    ensures Truthy(x) ==> v == x.value
  {
    if Truthy(x) then x.value else 1.0
  }

  /** The exact-input names of `infer_rate_and_qty`. */
  const LegacyExactInputNames: seq<string> :=
    ["swapExactTokensForTokens", "swapExactETHForTokens", "swapExactTokensForETHSupportingFeeOnTransferTokens"]

  /** The exact-output names, the same in `infer_rate_and_qty` and in the main loop. */
  const ExactOutputNames: seq<string> :=
    ["swapTokensForExactTokens", "swapETHForExactTokens", "swapTokensForExactETH"]

  /** The main loop's exact-input names: the legacy ones plus `swapExactTokensForETH`. */
  const ExactInputNames: seq<string> :=
    ["swapExactTokensForTokens", "swapExactETHForTokens", "swapExactTokensForETH", "swapExactTokensForETHSupportingFeeOnTransferTokens"]

  /** A function name the main loop knows how to turn into a trade. */
  predicate Classified(fnName: string) {
    fnName in ExactInputNames || fnName in ExactOutputNames
  }

  /**
   * `infer_rate_and_qty`, over a swap whose amounts are numbers or absent. The quantity
   * is never zero. With both amounts present and non-zero, quantity times rate gives
   * back the bound amount (the minimum output for exact input, the maximum input for
   * exact output); otherwise the rate is 1.
   */
  function InferRateAndQty(fnName: string, aIn: Option<real>, aOutMin: Option<real>, aOut: Option<real>, aInMax: Option<real>): (qr: (real, real))
    ensures qr.0 != 0.0
    ensures fnName in LegacyExactInputNames ==>
              && qr.0 == OrOne(aIn)
              && (Truthy(aIn) && Truthy(aOutMin) ==> qr.0 * qr.1 == aOutMin.value)
              && (!(Truthy(aIn) && Truthy(aOutMin)) ==> qr.1 == 1.0)
    ensures fnName in ExactOutputNames ==>
              && qr.0 == OrOne(aOut)
              && (Truthy(aOut) && Truthy(aInMax) ==> qr.0 * qr.1 == aInMax.value)
              && (!(Truthy(aOut) && Truthy(aInMax)) ==> qr.1 == 1.0)
    ensures fnName !in LegacyExactInputNames && fnName !in ExactOutputNames ==> qr == (OrOne(aIn), 1.0)
  {
    if fnName in LegacyExactInputNames then
      (OrOne(aIn), if Truthy(aIn) && Truthy(aOutMin) then aOutMin.value / aIn.value else 1.0)
    else if fnName in ExactOutputNames then
      (OrOne(aOut), if Truthy(aOut) && Truthy(aInMax) then aInMax.value / aOut.value else 1.0)
    else
      (OrOne(aIn), 1.0)
  }

  /** `10 ** d` for a non-negative exponent. */
  function Pow10(d: nat): (p: real)
    ensures p >= 1.0
  {
    if d == 0 then 1.0 else 10.0 * Pow10(d - 1)
  }

  /** `10 ** d` for any integer exponent (a negative one gives a fraction). */
  function Scale(d: int): (s: real)
    ensures s > 0.0
  {
    if d >= 0 then Pow10(d) else 1.0 / Pow10(-d)
  }

  /**
   * `to_unit`: a number is divided by `10 ** d`, so scaling back gives the raw amount
   * and zero stays zero; anything else becomes `None`.
   */
  function ToUnit(x: Amount, d: int): (u: Option<real>)
    ensures u.Some? <==> x.Num?
    ensures u.Some? ==> u.value * Scale(d) == x.value
    ensures u.Some? ==> (u.value == 0.0 <==> x.value == 0.0)
  {
    if x.Num? then Some(x.value / Scale(d)) else None
  }

  /**
   * The main loop's classification, on amounts already in token units. An exact-input
   * name with non-zero amountIn and amountOutMin, or an exact-output name with non-zero
   * amountOut and amountInMax, gives `(q, r)`: `q` is the source amount (amountIn or
   * amountInMax) and `q * r` the destination amount (amountOutMin or amountOut).
   * Everything else gives nothing.
   */
  function ClassifySwap(fnName: string, aIn: Option<real>, aOutMin: Option<real>, aOut: Option<real>, aInMax: Option<real>): (qr: Option<(real, real)>)
    ensures qr.Some? <==>
              || (fnName in ExactInputNames && Truthy(aIn) && Truthy(aOutMin))
              || (fnName in ExactOutputNames && Truthy(aOut) && Truthy(aInMax))
    ensures qr.Some? && fnName in ExactInputNames ==> qr.value.0 == aIn.value && qr.value.0 * qr.value.1 == aOutMin.value
    ensures qr.Some? && fnName in ExactOutputNames ==> qr.value.0 == aInMax.value && qr.value.0 * qr.value.1 == aOut.value
  {
    if fnName in ExactInputNames then
      if Truthy(aIn) && Truthy(aOutMin) then Some((aIn.value, aOutMin.value / aIn.value)) else None
    else if fnName in ExactOutputNames then
      if Truthy(aOut) && Truthy(aInMax) then Some((aInMax.value, aOut.value / aInMax.value)) else None
    else None
  }

  /**
   * The two exact-output conventions differ: on the same non-zero amounts the legacy
   * rate (source per destination) is the reciprocal of the main loop's rate
   * (destination per source), and the legacy quantity is the destination amount while
   * the main loop's is the source amount.
   */
  lemma ExactOutputConventions(fnName: string, aOut: real, aInMax: real)
    requires fnName in ExactOutputNames && aOut != 0.0 && aInMax != 0.0
    ensures var legacy := InferRateAndQty(fnName, None, None, Some(aOut), Some(aInMax));
            var main := ClassifySwap(fnName, None, None, Some(aOut), Some(aInMax));
            && main.Some?
            && legacy.1 * main.value.1 == 1.0
            && legacy.0 == aOut && main.value.0 == aInMax
  {
    var legacy := InferRateAndQty(fnName, None, None, Some(aOut), Some(aInMax));
    var main := ClassifySwap(fnName, None, None, Some(aOut), Some(aInMax));
    assert fnName !in ExactInputNames;
    assert legacy.1 == aInMax / aOut && main.value.1 == aOut / aInMax;
  }

  /** `swapExactTokensForETH` is exact input for the main loop but falls to the default case of the legacy function. */
  lemma LegacyOmitsExactTokensForETH(aIn: real, aOutMin: real)
    requires aIn != 0.0 && aOutMin != 0.0
    ensures InferRateAndQty("swapExactTokensForETH", Some(aIn), Some(aOutMin), None, None) == (aIn, 1.0)
    ensures var main := ClassifySwap("swapExactTokensForETH", Some(aIn), Some(aOutMin), None, None);
            main.Some? && main.value.0 * main.value.1 == aOutMin
  {
  }

  /** The allowed deviation from the fair rate. */
  const Tolerance: real := 0.10

  /** `src_price and dst_price and dst_price > 0`. */
  predicate FairRateKnown(srcPrice: Option<real>, dstPrice: Option<real>) {
    Truthy(srcPrice) && Truthy(dstPrice) && dstPrice.value > 0.0
  }

  function FairRate(srcPrice: Option<real>, dstPrice: Option<real>): real
    requires FairRateKnown(srcPrice, dstPrice)
  {
    srcPrice.value / dstPrice.value
  }

  /** The clamp into `[fair * 0.9, fair * 1.1]`; the rate is unchanged when the fair rate is unknown. */
  function ClampRate(r: real, srcPrice: Option<real>, dstPrice: Option<real>): real {
    if FairRateKnown(srcPrice, dstPrice) then
      var fair := FairRate(srcPrice, dstPrice);
      var low := fair * (1.0 - Tolerance);
      var high := fair * (1.0 + Tolerance);
      if r < low then low else if r > high then high else r
    else r
  }

  /** With positive prices the clamped rate lies in the band around the fair rate. */
  lemma ClampWithinBand(r: real, srcPrice: real, dstPrice: real)
    requires srcPrice > 0.0 && dstPrice > 0.0
    ensures var fair := srcPrice / dstPrice;
            var c := ClampRate(r, Some(srcPrice), Some(dstPrice));
            fair * 0.9 <= c <= fair * 1.1
  {
    var fair := srcPrice / dstPrice;
    assert fair > 0.0;
    assert fair * 0.9 <= fair * 1.1;
  }

  /** A rate already inside the band is left alone; an unknown fair rate leaves every rate alone. */
  lemma ClampKeepsInside(r: real, srcPrice: Option<real>, dstPrice: Option<real>)
    requires FairRateKnown(srcPrice, dstPrice) ==>
               FairRate(srcPrice, dstPrice) * 0.9 <= r <= FairRate(srcPrice, dstPrice) * 1.1
    ensures ClampRate(r, srcPrice, dstPrice) == r
  {
  }

  /** Clamping twice is clamping once, as long as the source price is not negative. */
  lemma ClampIdempotent(r: real, srcPrice: Option<real>, dstPrice: Option<real>)
    requires srcPrice.Some? ==> srcPrice.value >= 0.0
    ensures ClampRate(ClampRate(r, srcPrice, dstPrice), srcPrice, dstPrice) == ClampRate(r, srcPrice, dstPrice)
  {
    if FairRateKnown(srcPrice, dstPrice) {
      var fair := FairRate(srcPrice, dstPrice);
      assert fair > 0.0;
      assert fair * 0.9 <= fair * 1.1;
    }
  }

  /**
   * A negative source price inverts the band: every positive rate is then clamped to a
   * negative value, which validation rejects.
   */
  lemma ClampNegativeSourcePrice(r: real, srcPrice: real, dstPrice: real)
    requires r > 0.0 && srcPrice < 0.0 && dstPrice > 0.0
    ensures ClampRate(r, Some(srcPrice), Some(dstPrice)) < 0.0
  {
    var fair := srcPrice / dstPrice;
    assert fair < 0.0;
  }

  /** The clamp with a fair rate of 2: 3.0 becomes 2.2, 1.0 becomes 1.8, and 2.05 stays. */
  lemma ClampExamples()
    ensures ClampRate(3.0, Some(2.0), Some(1.0)) == 2.2
    ensures ClampRate(1.0, Some(2.0), Some(1.0)) == 1.8
    ensures ClampRate(2.05, Some(2.0), Some(1.0)) == 2.05
  {
  }

  /** `_coerce_int` of a value that is an integer or missing. */
  function CoerceInt(x: Option<int>): int {
    x.GetOr(0)
  }

  /** `a or b`. */
  function OrElse(a: Option<int>, b: Option<int>): Option<int> {
    if a.Some? && a.value != 0 then a else b
  }

  /** The first present and non-zero value of `xs`, or 0 when there is none. */
  function FirstNonZero(xs: seq<Option<int>>): (v: int)
    ensures v == 0 <==> forall i :: 0 <= i < |xs| ==> xs[i].None? || xs[i].value == 0
    ensures v != 0 ==> exists i :: && 0 <= i < |xs| && xs[i] == Some(v)
                                   && forall k :: 0 <= k < i ==> xs[k].None? || xs[k].value == 0
  {
    if xs == [] then 0
    else if xs[0].Some? && xs[0].value != 0 then xs[0].value
    else
      var v := FirstNonZero(xs[1..]);
      assert forall i :: 1 <= i < |xs| ==> xs[i] == xs[1..][i - 1];
      if v != 0 then
        var i :| && 0 <= i < |xs[1..]| && xs[1..][i] == Some(v)
                 && forall k :: 0 <= k < i ==> xs[1..][k].None? || xs[1..][k].value == 0;
        assert xs[i + 1] == Some(v);
        v
      else
        v
  }

  /**
   * The gas price in wei: `effectiveGasPrice or gasPrice or 0`, and when that is zero,
   * `maxFeePerGas or maxPriorityFeePerGas or 0`.
   */
  function GasPriceWei(s: Swap): int {
    var price := CoerceInt(OrElse(s.effectiveGasPrice, s.gasPrice));
    if price != 0 then price
    else
      var maxFee := CoerceInt(s.maxFeePerGas);
      var maxPrio := CoerceInt(s.maxPriorityFeePerGas);
      if maxFee != 0 then maxFee else maxPrio
  }

  /** The gas price is the first non-zero of the four price fields, in that order. */
  lemma GasPriceIsFirstNonZero(s: Swap)
    ensures GasPriceWei(s) == FirstNonZero([s.effectiveGasPrice, s.gasPrice, s.maxFeePerGas, s.maxPriorityFeePerGas])
  {
    var xs := [s.effectiveGasPrice, s.gasPrice, s.maxFeePerGas, s.maxPriorityFeePerGas];
    assert xs[1..] == [s.gasPrice, s.maxFeePerGas, s.maxPriorityFeePerGas];
    assert xs[1..][1..] == [s.maxFeePerGas, s.maxPriorityFeePerGas];
    assert xs[1..][1..][1..] == [s.maxPriorityFeePerGas];
    assert xs[1..][1..][1..][1..] == [];
    assert FirstNonZero(xs[1..][1..][1..]) == CoerceInt(s.maxPriorityFeePerGas);
    assert FirstNonZero(xs[1..][1..]) == (if CoerceInt(s.maxFeePerGas) != 0 then CoerceInt(s.maxFeePerGas) else CoerceInt(s.maxPriorityFeePerGas));
  }

  /** The gas quantity: `gasUsed or gas or 0` (the limit stands in when nothing was used). */
  function GasUsedOf(s: Swap): int {
    CoerceInt(OrElse(s.gasUsed, s.gas))
  }

  lemma GasUsedIsFirstNonZero(s: Swap)
    ensures GasUsedOf(s) == FirstNonZero([s.gasUsed, s.gas])
  {
    var xs := [s.gasUsed, s.gas];
    assert xs[1..] == [s.gas];
    assert xs[1..][1..] == [];
  }

  /**
   * The fee in native units: price times quantity over 10^18 when both are non-zero,
   * else 0. It is zero exactly when one of them is, and never negative for
   * non-negative inputs.
   */
  function GasFeeEth(priceWei: int, used: int): (fee: real)
    ensures fee == 0.0 <==> priceWei == 0 || used == 0
    ensures priceWei >= 0 && used >= 0 ==> fee >= 0.0
    ensures fee * 1000000000000000000.0 == (if priceWei != 0 && used != 0 then (priceWei * used) as real else 0.0)
  {
    if priceWei != 0 && used != 0 then (priceWei * used) as real / 1000000000000000000.0 else 0.0
  }

  /** The WETH price used when the table has no "WETH" entry. */
  const FallbackWethPriceUsd: real := 3842.42

  /** The USD value of one native unit: the first WETH entry's price, else the fallback. */
  function GasPriceUsd(exo: Table): (p: real)
    ensures WethPrice(exo).Some? ==> p == WethPrice(exo).value
    ensures WethPrice(exo).None? ==> p == FallbackWethPriceUsd
  {
    WethPrice(exo).GetOr(FallbackWethPriceUsd)
  }

  /** The trade carries both fees, and its USD fee is its native fee times `price`. */
  predicate FeesInRatio(t: Trade, price: real) {
    t.gasFeeEth.Some? && t.gasFeeUsd.Some? && t.gasFeeUsd.value == t.gasFeeEth.value * price
  }

  /** Decimal normalisation and classification (the amounts of the source token use its decimals, the others the destination's). */
  function InferredAmounts(s: Swap, exo: Table, src: string, dst: string): Option<(real, real)> {
    var srcDec := DecimalsOf(exo, src);
    var dstDec := DecimalsOf(exo, dst);
    ClassifySwap(s.fnName.GetOr(""), ToUnit(s.amountIn, srcDec), ToUnit(s.amountOutMin, dstDec),
                 ToUnit(s.amountOut, dstDec), ToUnit(s.amountInMax, srcDec))
  }

  function SourceOf(s: Swap): string
    requires |s.path| >= 2
  {
    Lower(s.path[0].address.GetOr(""))
  }

  function DestinationOf(s: Swap): string
    requires |s.path| >= 2
  {
    Lower(s.path[|s.path| - 1].address.GetOr(""))
  }

  /**
   * One iteration of the main loop: a swap with a path of at least two tokens, a known
   * function name and the amounts it needs becomes a trade from the first to the last
   * token of the path with a positive quantity and a positive (clamped) rate, carrying
   * both symbols and both gas fees; anything else is skipped.
   */
  function InferTrade(s: Swap, exo: Table): (t: Option<Trade>)
    ensures t.Some? ==> t.value.q > 0.0 && t.value.r > 0.0
    ensures t.Some? ==> && t.value.srcSymbol.Some? && t.value.dstSymbol.Some?
                        && t.value.gasFeeEth.Some? && t.value.gasFeeUsd.Some?
    ensures t.Some? ==> && |s.path| >= 2 && t.value.src == SourceOf(s) && t.value.dst == DestinationOf(s)
                        && Classified(s.fnName.GetOr(""))
    ensures t.Some? ==> && t.value.gasFeeEth.value == GasFeeEth(GasPriceWei(s), GasUsedOf(s))
                        && FeesInRatio(t.value, GasPriceUsd(exo))
    ensures t.Some? ==> ValidatedAmounts(s, exo, SourceOf(s), DestinationOf(s)) == Some((t.value.q, t.value.r))
  {
    if |s.path| < 2 then None
    else
      var src := SourceOf(s);
      var dst := DestinationOf(s);
      match ValidatedAmounts(s, exo, src, dst)
      case None => None
      case Some((q, r)) =>
        var fee := GasFeeEth(GasPriceWei(s), GasUsedOf(s));
        var price := GasPriceUsd(exo);
        var t := Trade(src, dst, q, r, Some(s.path[0].symbol.GetOr(src)), Some(s.path[|s.path| - 1].symbol.GetOr(dst)),
                       Some(fee), Some(fee * price));
        FeesInRatioIntro(t, fee, price);
        Some(t)
  }

  lemma FeesInRatioIntro(t: Trade, fee: real, price: real)
    requires t.gasFeeEth == Some(fee) && t.gasFeeUsd == Some(fee * price)
    ensures FeesInRatio(t, price)
  {
  }

  /**
   * The clamp applied to a positive inferred rate, then the positivity validation: the
   * amounts pass exactly when the classified quantity and rate are positive and the rate
   * stays positive once clamped; the quantity is kept and the rate is the clamped one.
   */
  function ValidatedAmounts(s: Swap, exo: Table, src: string, dst: string): (qr: Option<(real, real)>)
    ensures qr.Some? ==> qr.value.0 > 0.0 && qr.value.1 > 0.0
    ensures qr.Some? <==> var inferred := InferredAmounts(s, exo, src, dst);
                          && inferred.Some? && inferred.value.0 > 0.0 && inferred.value.1 > 0.0
                          && ClampRate(inferred.value.1, PriceOf(exo, src), PriceOf(exo, dst)) > 0.0
    ensures qr.Some? ==> var inferred := InferredAmounts(s, exo, src, dst).value;
                         qr.value == (inferred.0, ClampRate(inferred.1, PriceOf(exo, src), PriceOf(exo, dst)))
  {
    match InferredAmounts(s, exo, src, dst)
    case None => None
    case Some((q, r0)) =>
      var r := if r0 > 0.0 then ClampRate(r0, PriceOf(exo, src), PriceOf(exo, dst)) else r0;
      if q <= 0.0 || r <= 0.0 then None else Some((q, r))
  }

  /** The quantity of an inferred trade is the source amount in token units (see `ToUnit`). */
  lemma ValidatedQuantity(s: Swap, exo: Table, src: string, dst: string, q: real, r: real)
    requires ValidatedAmounts(s, exo, src, dst) == Some((q, r))
    ensures s.fnName.GetOr("") in ExactInputNames ==> ToUnit(s.amountIn, DecimalsOf(exo, src)) == Some(q)
    ensures s.fnName.GetOr("") in ExactOutputNames ==> ToUnit(s.amountInMax, DecimalsOf(exo, src)) == Some(q)
  {
    var inferred := InferredAmounts(s, exo, src, dst).value;
    assert InferredAmounts(s, exo, src, dst) == Some((q, inferred.1));
    ClassifiedQuantity(s.fnName.GetOr(""), s.amountIn, s.amountOutMin, s.amountOut, s.amountInMax,
                       DecimalsOf(exo, src), DecimalsOf(exo, dst), q, inferred.1);
  }

  /**
   * The rate of an inferred trade: without a usable fair rate it is the classified one,
   * so quantity times rate is the destination amount (amountOutMin for exact input,
   * amountOut for exact output) in token units; with one, the fair rate is positive and
   * the rate lies within 10% of it.
   */
  lemma ValidatedRate(s: Swap, exo: Table, src: string, dst: string, q: real, r: real)
    requires ValidatedAmounts(s, exo, src, dst) == Some((q, r))
    ensures !FairRateKnown(PriceOf(exo, src), PriceOf(exo, dst)) ==>
              && (s.fnName.GetOr("") in ExactInputNames ==> ToUnit(s.amountOutMin, DecimalsOf(exo, dst)) == Some(q * r))
              && (s.fnName.GetOr("") in ExactOutputNames ==> ToUnit(s.amountOut, DecimalsOf(exo, dst)) == Some(q * r))
    ensures FairRateKnown(PriceOf(exo, src), PriceOf(exo, dst)) ==>
              var fair := FairRate(PriceOf(exo, src), PriceOf(exo, dst));
              fair > 0.0 && fair * 0.9 <= r <= fair * 1.1
  {
    var srcPrice, dstPrice := PriceOf(exo, src), PriceOf(exo, dst);
    var inferred := InferredAmounts(s, exo, src, dst).value;
    if FairRateKnown(srcPrice, dstPrice) {
      ClampedPositiveInBand(inferred.1, srcPrice.value, dstPrice.value);
    } else {
      assert InferredAmounts(s, exo, src, dst) == Some((q, r));
      ClassifiedRate(s.fnName.GetOr(""), s.amountIn, s.amountOutMin, s.amountOut, s.amountInMax,
                     DecimalsOf(exo, src), DecimalsOf(exo, dst), q, r);
    }
  }

  /** A positive rate whose clamp stays positive had a positive fair rate, and lands in the band. */
  lemma ClampedPositiveInBand(r: real, srcPrice: real, dstPrice: real)
    requires r > 0.0 && srcPrice != 0.0 && dstPrice > 0.0
    requires ClampRate(r, Some(srcPrice), Some(dstPrice)) > 0.0
    ensures var fair := srcPrice / dstPrice;
            fair > 0.0 && fair * 0.9 <= ClampRate(r, Some(srcPrice), Some(dstPrice)) <= fair * 1.1
  {
    var fair := srcPrice / dstPrice;
    if srcPrice < 0.0 {
      assert false;
    }
    ClampWithinBand(r, srcPrice, dstPrice);
  }

  /** The classified quantity times the classified rate is the destination amount in token units. */
  lemma ClassifiedRate(name: string, aIn: Amount, aOutMin: Amount, aOut: Amount, aInMax: Amount, srcDec: int, dstDec: int, q: real, r: real)
    requires ClassifySwap(name, ToUnit(aIn, srcDec), ToUnit(aOutMin, dstDec), ToUnit(aOut, dstDec), ToUnit(aInMax, srcDec)) == Some((q, r))
    ensures name in ExactInputNames ==> ToUnit(aOutMin, dstDec) == Some(q * r)
    ensures name in ExactOutputNames ==> ToUnit(aOut, dstDec) == Some(q * r)
  {
    var outMin, out := ToUnit(aOutMin, dstDec), ToUnit(aOut, dstDec);
    var classified := ClassifySwap(name, ToUnit(aIn, srcDec), outMin, out, ToUnit(aInMax, srcDec)).value;
    if name in ExactInputNames {
      ProductIsAmount(outMin, classified.0, classified.1, q, r);
    }
    if name in ExactOutputNames {
      ProductIsAmount(out, classified.0, classified.1, q, r);
    }
  }

  lemma ProductIsAmount(amount: Option<real>, a: real, b: real, q: real, r: real)
    requires amount.Some? && a * b == amount.value && a == q && b == r
    ensures amount == Some(q * r)
  {
    var product := q * r;
    assert amount.value == product;
  }

  lemma ClassifiedQuantity(name: string, aIn: Amount, aOutMin: Amount, aOut: Amount, aInMax: Amount, srcDec: int, dstDec: int, q: real, r: real)
    requires ClassifySwap(name, ToUnit(aIn, srcDec), ToUnit(aOutMin, dstDec), ToUnit(aOut, dstDec), ToUnit(aInMax, srcDec)) == Some((q, r))
    ensures name in ExactInputNames ==> ToUnit(aIn, srcDec) == Some(q)
    ensures name in ExactOutputNames ==> ToUnit(aInMax, srcDec) == Some(q)
  {
  }

  /** With both tokens priced positively, an inferred trade's rate lies within 10% of the fair rate. */
  lemma InferTradeRateInBand(s: Swap, exo: Table)
    requires InferTrade(s, exo).Some?
    requires var t := InferTrade(s, exo).value;
             t.src in exo.entries && t.dst in exo.entries && exo.entries[t.src].priceUsd > 0.0 && exo.entries[t.dst].priceUsd > 0.0
    ensures var t := InferTrade(s, exo).value;
            var fair := exo.entries[t.src].priceUsd / exo.entries[t.dst].priceUsd;
            fair * 0.9 <= t.r <= fair * 1.1
  {
    var src, dst := SourceOf(s), DestinationOf(s);
    var r0 := InferredAmounts(s, exo, src, dst).value.1;
    assert InferTrade(s, exo).value.r == ValidatedAmounts(s, exo, src, dst).value.1;
    assert r0 > 0.0;
    ClampWithinBand(r0, exo.entries[src].priceUsd, exo.entries[dst].priceUsd);
  }

  /**
   * The rate of an inferred trade, in terms of the swap: without a usable fair rate,
   * quantity times rate is the destination amount in token units; with one, the rate
   * lies within 10% of the positive fair rate.
   */
  lemma InferTradeRate(s: Swap, exo: Table, t: Trade)
    requires InferTrade(s, exo) == Some(t)
    ensures !FairRateKnown(PriceOf(exo, t.src), PriceOf(exo, t.dst)) ==>
              && (s.fnName.GetOr("") in ExactInputNames ==> ToUnit(s.amountOutMin, DecimalsOf(exo, t.dst)) == Some(t.q * t.r))
              && (s.fnName.GetOr("") in ExactOutputNames ==> ToUnit(s.amountOut, DecimalsOf(exo, t.dst)) == Some(t.q * t.r))
    ensures FairRateKnown(PriceOf(exo, t.src), PriceOf(exo, t.dst)) ==>
              var fair := FairRate(PriceOf(exo, t.src), PriceOf(exo, t.dst));
              fair > 0.0 && fair * 0.9 <= t.r <= fair * 1.1
  {
    ValidatedRate(s, exo, t.src, t.dst, t.q, t.r);
  }

  /**
   * `swapETHForExactTokens` declares no amountInMax, so its decoded records have none
   * and never yield a trade.
   */
  lemma NoAmountInMaxNoTrade(s: Swap, exo: Table)
    requires s.fnName == Some("swapETHForExactTokens")
    requires s.amountInMax == Missing
    ensures InferTrade(s, exo).None?
  {
  }

  /**
   * `swapExactETHForTokens` and `swapExactETHForTokensSupportingFeeOnTransferTokens`
   * declare no amountIn, so their decoded records have none and never yield a trade.
   */
  lemma NoAmountInNoTrade(s: Swap, exo: Table)
    requires s.fnName == Some("swapExactETHForTokens") || s.fnName == Some("swapExactETHForTokensSupportingFeeOnTransferTokens")
    requires s.amountIn == Missing
    ensures InferTrade(s, exo).None?
  {
  }

  /** The main loop's `batch`, one swap after another. */
  function IngestedBatch(swaps: seq<Swap>, exo: Table): seq<Trade> {
    if swaps == [] then []
    else
      var t := InferTrade(swaps[|swaps| - 1], exo);
      IngestedBatch(swaps[..|swaps| - 1], exo) + (if t.Some? then [t.value] else [])
  }

  /** The main loop over decoded swaps, appending each inferred trade. */
  method IngestSwaps(swaps: seq<Swap>, exo: Table) returns (batch: seq<Trade>)
    ensures batch == IngestedBatch(swaps, exo)
  {
    batch := [];
    for i := 0 to |swaps|
      invariant batch == IngestedBatch(swaps[..i], exo)
    {
      assert swaps[..i + 1][..i] == swaps[..i];
      var t := InferTrade(swaps[i], exo);
      if t.Some? {
        batch := batch + [t.value];
      }
    }
    assert swaps[..|swaps|] == swaps;
  }

  /** A trade as the main loop appends it: positive, with both symbols and both fees set. */
  predicate Ingested(t: Trade) {
    && t.q > 0.0 && t.r > 0.0
    && t.srcSymbol.Some? && t.dstSymbol.Some? && t.gasFeeEth.Some? && t.gasFeeUsd.Some?
  }

  lemma {:induction false} IngestedBatchValid(swaps: seq<Swap>, exo: Table)
    ensures forall t :: t in IngestedBatch(swaps, exo) ==> Ingested(t)
    ensures |IngestedBatch(swaps, exo)| <= |swaps|
  {
    if swaps != [] {
      IngestedBatchValid(swaps[..|swaps| - 1], exo);
    }
  }

  /** `valid_batch`: the trades whose source and destination are both in the price table, in order. */
  function PricedTrades(batch: seq<Trade>, exo: Table): seq<Trade> {
    if batch == [] then []
    else
      var t := batch[|batch| - 1];
      PricedTrades(batch[..|batch| - 1], exo) + (if t.src in exo.entries && t.dst in exo.entries then [t] else [])
  }

  /** The filtering loop before optimisation. */
  method FilterPriced(batch: seq<Trade>, exo: Table) returns (valid: seq<Trade>)
    ensures valid == PricedTrades(batch, exo)
  {
    valid := [];
    for i := 0 to |batch|
      invariant valid == PricedTrades(batch[..i], exo)
    {
      assert batch[..i + 1][..i] == batch[..i];
      var t := batch[i];
      if t.src in exo.entries && t.dst in exo.entries {
        valid := valid + [t];
      }
    }
    assert batch[..|batch|] == batch;
  }

  /** A trade survives the filter exactly when it is in the batch and both its assets are priced. */
  lemma {:induction false} PricedTradesMembers(batch: seq<Trade>, exo: Table)
    ensures forall t :: t in PricedTrades(batch, exo) <==> t in batch && t.src in exo.entries && t.dst in exo.entries
    ensures |PricedTrades(batch, exo)| <= |batch|
  {
    if batch != [] {
      var init := batch[..|batch| - 1];
      PricedTradesMembers(init, exo);
      assert batch == init + [batch[|batch| - 1]];
    }
  }
}
