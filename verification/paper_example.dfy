/**
 * The worked example of mev_optimization.py: three trades A->B, B->C, C->A, every
 * asset priced at 1, base asset "A". The optimizer executes the A->B trade with a
 * mediator B->A for pair (A, B) and the C->A trade with a mediator A->C for pair
 * (A, C). The example is stated for any three asset names `a`, `b`, `c` in that
 * string order, as "A", "B", "C" are.
 */
module PaperExample {
  import opened Wrappers
  import opened Canon
  import opened Transaction
  import opened PrefixArgmax
  import opened RateSort
  import opened MevOptimization

  function PaperBatch(a: string, b: string, c: string): seq<Trade> {
    [NewTrade(a, b, 2.0, 0.5), NewTrade(b, c, 1.0, 4.0), NewTrade(c, a, 4.0, 0.5)]
  }

  function PaperPrices(a: string, b: string, c: string): map<string, real> {
    map[a := 1.0, b := 1.0, c := 1.0]
  }

  /** The example batch is a valid optimizer input with base asset `a`. */
  lemma PaperInput(a: string, b: string, c: string)
    ensures OptimizerInput(PaperBatch(a, b, c), PaperPrices(a, b, c), a)
  {
  }

  /** The asset list is `[a, b, c]`, so the pairs are visited as (a, b) then (a, c). */
  lemma PaperPairs(a: string, b: string, c: string)
    requires LexLess(a, b) && LexLess(b, c)
    ensures WithoutAsset(AssetList(PaperBatch(a, b, c)), a) == [b, c]
  {
    var batch := PaperBatch(a, b, c);
    var sorted := [a, b, c];
    LexLessTransitive(a, b, c);
    assert StrictlySorted(sorted);
    assert forall x :: x in Endpoints(batch) <==> x in sorted by {
      assert batch[0] in batch && batch[1] in batch && batch[2] in batch;
    }
    StrictlySortedUnique(AssetList(batch), sorted);
    LexLessIrreflexive(a);
    LexLessIrreflexive(b);
    assert sorted[..2] == [a, b] && sorted[..2][..1] == [a] && sorted[..2][..1][..0] == [];
    assert WithoutAsset(sorted[..2][..1], a) == [];
    assert WithoutAsset(sorted[..2], a) == [b];
  }

  /** The legs of the two pairs: one trade a->b, one trade c->a, nothing the other way. */
  lemma PaperLegs(a: string, b: string, c: string)
    requires a != b && b != c && a != c
    ensures var batch := PaperBatch(a, b, c);
            && Leg(batch, a, b) == [batch[0]] && Leg(batch, b, a) == []
            && Leg(batch, c, a) == [batch[2]] && Leg(batch, a, c) == []
  {
    var batch := PaperBatch(a, b, c);
    var tail1 := batch[1..];
    var tail2 := tail1[1..];
    assert tail2[1..] == [];
    assert Leg(tail2, a, b) == [] && Leg(tail2, b, a) == [] && Leg(tail2, c, a) == [batch[2]] && Leg(tail2, a, c) == [];
    assert Leg(tail1, a, b) == [] && Leg(tail1, b, a) == [] && Leg(tail1, c, a) == [batch[2]] && Leg(tail1, a, c) == [];
  }

  lemma SingletonBest(x: real)
    ensures BestPrefix([x]) == Some(Best(0, x))
  {
    assert [x][..0] == [];
    assert Sum([x]) == Sum([x][..0]) + x;
    assert [x][..1] == [x];
  }

  /** The mediator of a single trade carries its quantity back at the reciprocal rate. */
  lemma SingleMediator(t: Trade, src: string, dst: string)
    requires t.q >= 0.000000000001 && t.r > 0.0
    ensures NotionalSum([t]) > 0.0 && Mediator([t], src, dst) == NewTrade(src, dst, t.q, 1.0 / t.r)
  {
    assert [t][1..] == [];
    assert QtySum([t]) == t.q && NotionalSum([t]) == t.r * t.q;
    ProductPositive(t.r, t.q);
    CancelQuantity(t.r, t.q);
    ReciprocalOf(Mediator([t], src, dst).r, t.r);
  }

  lemma CancelQuantity(r: real, q: real)
    requires q > 0.0
    ensures (r * q) / q == r
  {
  }

  /** A pair whose only trade goes from `src` to `dst` and earns a profit executes that trade and its mediator. */
  lemma LoneProfitableTrade(batch: seq<Trade>, exo: map<string, real>, base: string, j: string, src: string, dst: string, t: Trade)
    requires OptimizerInput(batch, exo, base) && j != base
    requires (src == base && dst == j) || (src == j && dst == base)
    requires Leg(batch, src, dst) == [t] && Leg(batch, dst, src) == []
    requires t.q >= 0.000000000001
    requires t.src in exo && t.dst in exo && Helper(t.src, t.dst, t.q, t.r, exo) > 0.0
    ensures DecidePair(batch, exo, base, j)
         == PairResult(base, j, if src == base then ExecuteForward else ExecuteReverse,
                       Helper(t.src, t.dst, t.q, t.r, exo), [t, NewTrade(dst, src, t.q, 1.0 / t.r)])
  {
    assert t in Leg(batch, src, dst);
    assert SortedLeg(batch, src, dst) == [t];
    assert SortedLeg(batch, dst, src) == [];
    var p := Helper(t.src, t.dst, t.q, t.r, exo);
    assert Profits([t], exo) == [p];
    SingletonBest(p);
    assert LegBest(batch, exo, base, src, dst) == Some(Best(0, p));
    assert LegBest(batch, exo, base, dst, src) == None;
    assert [t][..1] == [t];
    SingleMediator(t, dst, src);
    assert Execute([t], 0, dst, src) == [t, NewTrade(dst, src, t.q, 1.0 / t.r)];
    if src == base {
      assert DecidePair(batch, exo, base, j) == PairResult(base, j, ExecuteForward, p, Execute([t], 0, dst, src));
    } else {
      assert DecidePair(batch, exo, base, j) == PairResult(base, j, ExecuteReverse, p, Execute([t], 0, dst, src));
    }
  }

  /** Pair (a, b): the forward trade earns 2 * (1 - 0.5) = 1 and is closed by b->a, q 2, r 2. */
  lemma PaperPairB(a: string, b: string, c: string)
    requires a != b && b != c && a != c
    ensures OptimizerInput(PaperBatch(a, b, c), PaperPrices(a, b, c), a)
    ensures DecidePair(PaperBatch(a, b, c), PaperPrices(a, b, c), a, b)
         == PairResult(a, b, ExecuteForward, 1.0, [NewTrade(a, b, 2.0, 0.5), NewTrade(b, a, 2.0, 2.0)])
  {
    var batch, exo := PaperBatch(a, b, c), PaperPrices(a, b, c);
    PaperInput(a, b, c);
    PaperLegs(a, b, c);
    var t := batch[0];
    assert Helper(t.src, t.dst, t.q, t.r, exo) == 1.0;
    LoneProfitableTrade(batch, exo, a, b, a, b, t);
  }

  /** Pair (a, c): the reverse trade earns 4 * (1 - 0.5) = 2 and is closed by a->c, q 4, r 2. */
  lemma PaperPairC(a: string, b: string, c: string)
    requires a != b && b != c && a != c
    ensures OptimizerInput(PaperBatch(a, b, c), PaperPrices(a, b, c), a)
    ensures DecidePair(PaperBatch(a, b, c), PaperPrices(a, b, c), a, c)
         == PairResult(a, c, ExecuteReverse, 2.0, [NewTrade(c, a, 4.0, 0.5), NewTrade(a, c, 4.0, 2.0)])
  {
    var batch, exo := PaperBatch(a, b, c), PaperPrices(a, b, c);
    PaperInput(a, b, c);
    PaperLegs(a, b, c);
    var t := batch[2];
    assert Helper(t.src, t.dst, t.q, t.r, exo) == 2.0;
    LoneProfitableTrade(batch, exo, a, c, c, a, t);
  }

  /** Running compute_batch on the example yields exactly these two results, in this order. */
  method PaperRun(a: string, b: string, c: string) returns (results: seq<PairResult>)
    requires LexLess(a, b) && LexLess(b, c)
    ensures results == [
      PairResult(a, b, ExecuteForward, 1.0, [NewTrade(a, b, 2.0, 0.5), NewTrade(b, a, 2.0, 2.0)]),
      PairResult(a, c, ExecuteReverse, 2.0, [NewTrade(c, a, 4.0, 0.5), NewTrade(a, c, 4.0, 2.0)])
    ]
  {
    LexLessIrreflexive(a);
    LexLessIrreflexive(b);
    LexLessTransitive(a, b, c);
    LexLessIrreflexive(c);
    PaperPairs(a, b, c);
    PaperPairB(a, b, c);
    PaperPairC(a, b, c);
    results := ComputeBatch(PaperBatch(a, b, c), PaperPrices(a, b, c), a);
    assert |results| == 2;
  }
}
