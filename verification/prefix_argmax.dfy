/**
 * `cumulative_argmax` of mev_optimization.py: scan a list of per-trade profits in
 * order, keep a running sum, and remember the index of the first strictly best
 * running sum. The source's sentinel `(-1, -inf)` for an empty list is `None`.
 */
module PrefixArgmax {
  import opened Wrappers

  /** Python's `sum` over a list of reals, accumulated from the front. */
  function Sum(s: seq<real>): real {
    if s == [] then 0.0 else Sum(s[..|s| - 1]) + s[|s| - 1]
  }

  lemma {:induction false} SumConcat(a: seq<real>, b: seq<real>)
    ensures Sum(a + b) == Sum(a) + Sum(b)
    decreases |b|
  {
    if b == [] {
      assert a + b == a;
    } else {
      assert (a + b)[..|a + b| - 1] == a + b[..|b| - 1];
      SumConcat(a, b[..|b| - 1]);
    }
  }

  /** A best prefix: it ends at index `idx` and its running sum is `total`. */
  datatype Best = Best(idx: nat, total: real)

  /**
   * The result of the scan, defined one element at a time as the loop runs: a
   * new running sum replaces the best only when it is strictly larger (the
   * sentinel `-inf` is beaten by anything).
   */
  function BestPrefix(values: seq<real>): (b: Option<Best>)
    ensures b.None? <==> values == []
    ensures b.Some? ==> b.value.idx < |values| && b.value.total == Sum(values[..b.value.idx + 1])
    decreases |values|
  {
    if values == [] then None
    else
      var prev := BestPrefix(values[..|values| - 1]);
      var running := Sum(values);
      assert values[..|values|] == values;
      assert prev.Some? ==> values[..|values| - 1][..prev.value.idx + 1] == values[..prev.value.idx + 1];
      if prev.None? || running > prev.value.total then Some(Best(|values| - 1, running))
      else prev
  }

  /** The loop of `cumulative_argmax`. */
  method CumulativeArgmax(values: seq<real>) returns (best: Option<Best>)
    ensures best == BestPrefix(values)
  {
    var running := 0.0;
    best := None;
    var i := 0;
    while i < |values|
      invariant 0 <= i <= |values|
      invariant running == Sum(values[..i])
      invariant best == BestPrefix(values[..i])
    {
      assert values[..i + 1][..i] == values[..i];
      running := running + values[i];
      if best.None? || running > best.value.total {
        best := Some(Best(i, running));
      }
      i := i + 1;
    }
    assert values[..i] == values;
  }

  /**
   * On a non-empty list the scan returns a real index (never the empty prefix);
   * its running sum is at least every non-empty prefix sum and strictly above
   * every earlier one, so the earliest maximum wins.
   */
  lemma {:induction false} BestPrefixIsEarliestMaximum(values: seq<real>)
    requires values != []
    ensures BestPrefix(values).Some?
    ensures forall n :: 1 <= n <= |values| ==> Sum(values[..n]) <= BestPrefix(values).value.total
    ensures forall n :: 1 <= n <= BestPrefix(values).value.idx ==> Sum(values[..n]) < BestPrefix(values).value.total
    decreases |values|
  {
    var m := |values|;
    var init := values[..m - 1];
    assert values[..m] == values;
    if init != [] {
      BestPrefixIsEarliestMaximum(init);
      var pb := BestPrefix(init).value;
      var b := BestPrefix(values).value;
      forall n | 1 <= n <= m - 1 ensures Sum(values[..n]) <= pb.total {
        assert values[..n] == init[..n];
      }
      forall n | 1 <= n <= pb.idx ensures Sum(values[..n]) < pb.total {
        assert values[..n] == init[..n];
      }
      if Sum(values) > pb.total {
        assert b == Best(m - 1, Sum(values));
      } else {
        assert b == pb;
      }
    }
  }

  /** Conversely, an index with the earliest-maximum property is what the scan returns. */
  lemma EarliestMaximumIsBestPrefix(values: seq<real>, i: nat)
    requires i < |values|
    requires forall n :: 1 <= n <= |values| ==> Sum(values[..n]) <= Sum(values[..i + 1])
    requires forall n :: 1 <= n <= i ==> Sum(values[..n]) < Sum(values[..i + 1])
    ensures BestPrefix(values) == Some(Best(i, Sum(values[..i + 1])))
  {
    BestPrefixIsEarliestMaximum(values);
    var b := BestPrefix(values).value;
    if b.idx != i {
      assert false;
    }
  }

  /** The example [3, -1, 2, -5] gives index 2 with sum 4. */
  lemma WorkedExample()
    ensures BestPrefix([3.0, -1.0, 2.0, -5.0]) == Some(Best(2, 4.0))
  {
    var v := [3.0, -1.0, 2.0, -5.0];
    assert v[..1] == [3.0] && v[..2] == [3.0, -1.0] && v[..3] == [3.0, -1.0, 2.0];
    assert [3.0, -1.0, 2.0][..2] == [3.0, -1.0] && [3.0, -1.0][..1] == [3.0];
    assert v[..4] == v;
    EarliestMaximumIsBestPrefix(v, 2);
  }

  /** Even when every profit is negative the first trade is chosen, not the empty prefix. */
  lemma NegativeSingletonExample()
    ensures BestPrefix([-1.0]) == Some(Best(0, -1.0))
  {
    assert [-1.0][..0] == [];
  }

  /** A profit list whose first `p` entries are positive and the rest are not. */
  ghost predicate PositivesFirst(values: seq<real>, p: nat) {
    && p <= |values|
    && (forall i :: 0 <= i < p ==> values[i] > 0.0)
    && (forall i :: p <= i < |values| ==> values[i] <= 0.0)
  }

  /** The sum of the positive entries only. */
  function SumPositive(values: seq<real>): real {
    if values == [] then 0.0
    else SumPositive(values[..|values| - 1]) + (if values[|values| - 1] > 0.0 then values[|values| - 1] else 0.0)
  }

  lemma {:induction false} SumPositiveConcat(a: seq<real>, b: seq<real>)
    ensures SumPositive(a + b) == SumPositive(a) + SumPositive(b)
    decreases |b|
  {
    if b == [] {
      assert a + b == a;
    } else {
      assert (a + b)[..|a + b| - 1] == a + b[..|b| - 1];
      SumPositiveConcat(a, b[..|b| - 1]);
    }
  }

  lemma {:induction false} SumRises(values: seq<real>, n: nat, m: nat)
    requires n < m <= |values|
    requires forall i :: n <= i < m ==> values[i] > 0.0
    ensures Sum(values[..n]) < Sum(values[..m])
    decreases m - n
  {
    assert values[..m][..m - 1] == values[..m - 1];
    if n < m - 1 {
      SumRises(values, n, m - 1);
    }
  }

  lemma {:induction false} SumFalls(values: seq<real>, n: nat, m: nat)
    requires n <= m <= |values|
    requires forall i :: n <= i < m ==> values[i] <= 0.0
    ensures Sum(values[..m]) <= Sum(values[..n])
    decreases m - n
  {
    if n < m {
      assert values[..m][..m - 1] == values[..m - 1];
      SumFalls(values, n, m - 1);
    }
  }

  lemma {:induction false} SumPositiveOfPositivesFirst(values: seq<real>, p: nat, n: nat)
    requires PositivesFirst(values, p) && n <= |values|
    ensures SumPositive(values[..n]) == Sum(values[..if n <= p then n else p])
    decreases n
  {
    if n > 0 {
      assert values[..n][..n - 1] == values[..n - 1];
      SumPositiveOfPositivesFirst(values, p, n - 1);
    }
  }

  /**
   * When the profitable trades come first, the scan stops exactly after the last
   * profitable one and its total is the sum of all positive profits.
   */
  lemma BestPrefixOfPositivesFirst(values: seq<real>, p: nat)
    requires PositivesFirst(values, p) && p > 0
    ensures BestPrefix(values) == Some(Best(p - 1, SumPositive(values)))
  {
    forall n | 1 <= n <= |values| ensures Sum(values[..n]) <= Sum(values[..p]) {
      if n < p {
        SumRises(values, n, p);
      } else {
        SumFalls(values, p, n);
      }
    }
    forall n | 1 <= n <= p - 1 ensures Sum(values[..n]) < Sum(values[..p]) {
      SumRises(values, n, p);
    }
    EarliestMaximumIsBestPrefix(values, p - 1);
    SumPositiveOfPositivesFirst(values, p, |values|);
    assert values[..|values|] == values;
  }
}
