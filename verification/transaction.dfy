/**
 * The trade record of `transaction.py`. The source object gets its symbol and gas
 * annotations attached after construction (run_mev_analysis.py); here they are
 * optional fields from the start, and a freshly constructed trade has none of them.
 */
module Transaction {
  import opened Wrappers

  datatype Trade = Trade(
    src: string,                  // source asset identifier
    dst: string,                  // destination asset identifier
    q: real,                      // quantity, in source-asset units
    r: real,                      // rate, destination units per source unit
    srcSymbol: Option<string>,    // display symbol of `src`, set during ingestion
    dstSymbol: Option<string>,    // display symbol of `dst`, set during ingestion
    gasFeeEth: Option<real>,      // native gas fee, set during ingestion
    gasFeeUsd: Option<real>       // gas fee in USD, set during ingestion
  )

  /**
   * `Transaction(source_token, dest_token, quantity, rate)`: the four arguments are
   * stored unchanged, nothing is validated, and no annotation is set.
   */
  function NewTrade(sourceToken: string, destToken: string, quantity: real, rate: real): (t: Trade)
    ensures t.src == sourceToken && t.dst == destToken && t.q == quantity && t.r == rate
    ensures t.srcSymbol == None && t.dstSymbol == None
    ensures t.gasFeeEth == None && t.gasFeeUsd == None
  {
    Trade(sourceToken, destToken, quantity, rate, None, None, None, None)
  }

  /**
   * `__repr__`: "{src}->{dst} q={q} r={r}". Python's rendering of a number is
   * outside the model and is passed in as `fmt`.
   */
  function Repr(t: Trade, fmt: real -> string): string {
    t.src + "->" + t.dst + " q=" + fmt(t.q) + " r=" + fmt(t.r)
  }

  /** The longest prefix of `s` that does not contain `c`. */
  function TakeUntil(s: string, c: char): (p: string)
    ensures |p| <= |s| && p == s[..|p|] && c !in p
    ensures |p| < |s| ==> s[|p|] == c
  {
    if s == [] || s[0] == c then [] else [s[0]] + TakeUntil(s[1..], c)
  }

  lemma {:induction false} TakeUntilPrefix(a: string, b: string, c: char)
    requires c !in a && |b| > 0 && b[0] == c
    ensures TakeUntil(a + b, c) == a
  {
    if a != [] {
      assert (a + b)[1..] == a[1..] + b;
      TakeUntilPrefix(a[1..], b, c);
    }
  }

  /**
   * The rendering is readable back: when the source identifier has no '-', the
   * text before the first '-' of `Repr(t)` is exactly the source identifier.
   */
  lemma ReprRecoversSource(t: Trade, fmt: real -> string)
    requires '-' !in t.src
    ensures TakeUntil(Repr(t, fmt), '-') == t.src
  {
    var rest := "->" + t.dst + " q=" + fmt(t.q) + " r=" + fmt(t.r);
    assert Repr(t, fmt) == t.src + rest;
    TakeUntilPrefix(t.src, rest, '-');
  }
}
