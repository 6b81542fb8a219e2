/**
 * Canonical asset identifiers: addresses are compared after ASCII lower-casing,
 * and the optimizer visits assets in Python's string order (code point by code point).
 */
module Canon {

  /** Python's `str.lower()` on one ASCII character. */
  function LowerChar(c: char): char {
    if 'A' <= c <= 'Z' then (c as int + 32) as char else c
  }

  /** Python's `str.lower()`, restricted to ASCII letters (addresses are hex strings). */
  function Lower(s: string): (l: string)
    ensures |l| == |s|
    ensures forall i :: 0 <= i < |s| ==> l[i] == LowerChar(s[i])
  {
    seq(|s|, i requires 0 <= i < |s| => LowerChar(s[i]))
  }

  /** Lower-casing twice is lower-casing once, so normalised keys are already canonical. */
  lemma LowerIdempotent(s: string)
    ensures Lower(Lower(s)) == Lower(s)
  {
  }

  /** Python's `a < b` on strings: lexicographic by code point, a proper prefix first. */
  predicate LexLess(a: string, b: string)
    decreases |a|
  {
    if |a| == 0 then |b| > 0
    else |b| > 0 && (a[0] < b[0] || (a[0] == b[0] && LexLess(a[1..], b[1..])))
  }

  lemma {:induction false} LexLessIrreflexive(a: string)
    ensures !LexLess(a, a)
    decreases |a|
  {
    if |a| > 0 {
      LexLessIrreflexive(a[1..]);
    }
  }

  lemma {:induction false} LexLessTransitive(a: string, b: string, c: string)
    requires LexLess(a, b) && LexLess(b, c)
    ensures LexLess(a, c)
    decreases |a|
  {
    if |a| > 0 && a[0] == b[0] && b[0] == c[0] {
      LexLessTransitive(a[1..], b[1..], c[1..]);
    }
  }

  lemma {:induction false} LexLessTotal(a: string, b: string)
    ensures a == b || LexLess(a, b) || LexLess(b, a)
    decreases |a|
  {
    if |a| > 0 && |b| > 0 && a[0] == b[0] {
      LexLessTotal(a[1..], b[1..]);
      if a[1..] == b[1..] {
        assert a == [a[0]] + a[1..] && b == [b[0]] + b[1..];
      }
    }
  }

  lemma LexLessAsymmetric(a: string, b: string)
    requires LexLess(a, b)
    ensures !LexLess(b, a)
  {
    if LexLess(b, a) {
      LexLessTransitive(a, b, a);
      LexLessIrreflexive(a);
    }
  }

  /** Every element is strictly before every later one: sorted and free of duplicates. */
  predicate StrictlySorted(s: seq<string>) {
    forall i, k :: 0 <= i < k < |s| ==> LexLess(s[i], s[k])
  }

  /** Adds `a` to a strictly sorted list unless it is already there. */
  function InsertSorted(a: string, s: seq<string>): seq<string> {
    if s == [] then [a]
    else if a == s[0] then s
    else if LexLess(a, s[0]) then [a] + s
    else [s[0]] + InsertSorted(a, s[1..])
  }

  lemma {:induction false} InsertSortedCorrect(a: string, s: seq<string>)
    requires StrictlySorted(s)
    ensures StrictlySorted(InsertSorted(a, s))
    ensures forall x :: x in InsertSorted(a, s) <==> x == a || x in s
  {
    if s == [] {
    } else if a == s[0] {
    } else if LexLess(a, s[0]) {
      var r := [a] + s;
      forall i, k | 0 <= i < k < |r| ensures LexLess(r[i], r[k]) {
        if i == 0 && k > 1 {
          LexLessTransitive(a, s[0], s[k - 1]);
        }
      }
    } else {
      LexLessTotal(a, s[0]);
      InsertSortedCorrect(a, s[1..]);
      var tail := InsertSorted(a, s[1..]);
      var r := [s[0]] + tail;
      forall i, k | 0 <= i < k < |r| ensures LexLess(r[i], r[k]) {
        if i == 0 {
          assert r[k] in tail;
          if r[k] != a {
            var m :| 0 <= m < |s[1..]| && s[1..][m] == r[k];
            assert s[m + 1] == r[k];
          }
        }
      }
    }
  }

  /** Two strictly sorted lists with the same elements are the same list. */
  lemma {:induction false} StrictlySortedUnique(s: seq<string>, t: seq<string>)
    requires StrictlySorted(s) && StrictlySorted(t)
    requires forall x :: x in s <==> x in t
    ensures s == t
    decreases |s|
  {
    assert s != [] ==> s[0] in t;
    assert t != [] ==> t[0] in s;
    if s != [] && t != [] {
      assert s[0] in s && t[0] in t;
      if s[0] != t[0] {
        var i :| 0 <= i < |t| && t[i] == s[0];
        var k :| 0 <= k < |s| && s[k] == t[0];
        assert LexLess(t[0], t[i]) && LexLess(s[0], s[k]);
        LexLessAsymmetric(s[0], t[0]);
        assert false;
      }
      assert s == [s[0]] + s[1..] && t == [t[0]] + t[1..];
      forall x ensures x in s[1..] <==> x in t[1..] {
        if x in s[1..] {
          var m :| 0 <= m < |s[1..]| && s[1..][m] == x;
          assert LexLess(s[0], s[m + 1]);
          LexLessIrreflexive(s[0]);
          assert x != t[0] && x in t;
        }
        if x in t[1..] {
          var m :| 0 <= m < |t[1..]| && t[1..][m] == x;
          assert LexLess(t[0], t[m + 1]);
          LexLessIrreflexive(t[0]);
          assert x != s[0] && x in s;
        }
      }
      StrictlySortedUnique(s[1..], t[1..]);
      assert s == [s[0]] + s[1..] && t == [t[0]] + t[1..];
    }
  }
}
