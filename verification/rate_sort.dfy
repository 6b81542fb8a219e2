/**
 * `list.sort(key=lambda x: x.r)` as used by compute_batch: an ascending, stable
 * sort by rate. It is specified here by a stable insertion sort; the lemmas show
 * it is sorted, a permutation of its input, and keeps trades of equal rate in
 * their original order.
 */
module RateSort {
  import opened Transaction

  /** Places `t` before the first trade of `s` whose rate is not smaller. */
  function InsertByRate(t: Trade, s: seq<Trade>): (r: seq<Trade>)
    ensures |r| == |s| + 1 && forall x :: x in r <==> x == t || x in s
  {
    if s == [] then [t]
    else if t.r <= s[0].r then [t] + s
    else [s[0]] + InsertByRate(t, s[1..])
  }

  function SortByRate(s: seq<Trade>): (sorted: seq<Trade>)
    ensures |sorted| == |s| && forall x :: x in sorted <==> x in s
  {
    if s == [] then [] else InsertByRate(s[0], SortByRate(s[1..]))
  }

  ghost predicate SortedByRate(s: seq<Trade>) {
    forall i, k :: 0 <= i < k < |s| ==> s[i].r <= s[k].r
  }

  /** The trades of `s` whose rate is exactly `x`, in their order in `s`. */
  function WithRate(s: seq<Trade>, x: real): seq<Trade> {
    if s == [] then []
    else (if s[0].r == x then [s[0]] else []) + WithRate(s[1..], x)
  }

  /** Inserting splits the list at some position and puts `t` there. */
  lemma {:induction false} InsertSplits(t: Trade, s: seq<Trade>) returns (k: nat)
    ensures k <= |s| && InsertByRate(t, s) == s[..k] + [t] + s[k..]
  {
    if s == [] || t.r <= s[0].r {
      k := 0;
    } else {
      var k' := InsertSplits(t, s[1..]);
      k := k' + 1;
      assert s[..k] == [s[0]] + s[1..][..k'];
      assert s[k..] == s[1..][k'..];
    }
  }

  lemma {:induction false} SortByRatePermutation(s: seq<Trade>)
    ensures multiset(SortByRate(s)) == multiset(s)
  {
    if s != [] {
      SortByRatePermutation(s[1..]);
      var u := SortByRate(s[1..]);
      var k := InsertSplits(s[0], u);
      assert u == u[..k] + u[k..];
      assert s == [s[0]] + s[1..];
    }
  }

  lemma {:induction false} InsertByRateSorted(t: Trade, s: seq<Trade>)
    requires SortedByRate(s)
    ensures SortedByRate(InsertByRate(t, s))
  {
    if s != [] && t.r > s[0].r {
      InsertByRateSorted(t, s[1..]);
      var tail := InsertByRate(t, s[1..]);
      var k := InsertSplits(t, s[1..]);
      forall x | x in tail ensures s[0].r <= x.r {
        if x != t {
          var m :| 0 <= m < |s[1..]| && s[1..][m] == x;
          assert s[m + 1] == x;
        }
      }
    }
  }

  lemma {:induction false} SortByRateSorted(s: seq<Trade>)
    ensures SortedByRate(SortByRate(s))
  {
    if s != [] {
      SortByRateSorted(s[1..]);
      InsertByRateSorted(s[0], SortByRate(s[1..]));
    }
  }

  lemma {:induction false} WithRateInsert(t: Trade, s: seq<Trade>, x: real)
    ensures WithRate(InsertByRate(t, s), x) == (if t.r == x then [t] else []) + WithRate(s, x)
  {
    if s == [] {
    } else if t.r <= s[0].r {
      assert ([t] + s)[1..] == s;
    } else {
      WithRateInsert(t, s[1..], x);
      assert ([s[0]] + InsertByRate(t, s[1..]))[1..] == InsertByRate(t, s[1..]);
    }
  }

  /** Stability: among trades of equal rate, the sorted order is the input order. */
  lemma {:induction false} SortByRateStable(s: seq<Trade>, x: real)
    ensures WithRate(SortByRate(s), x) == WithRate(s, x)
  {
    if s != [] {
      SortByRateStable(s[1..], x);
      WithRateInsert(s[0], SortByRate(s[1..]), x);
    }
  }
}
