/**
 * The pure parts of mempool_onchain_load_filter_decode.py: the filter that keeps the
 * pending transactions sent to the Uniswap V2 router, the split of a call's input into
 * selector and calldata, the table of swap functions, the record built from a decoded
 * call (`_hex_to_int`, the effective gas price estimate, the token metadata of the path),
 * and the decode loop. The ABI decoder, the token metadata calls and the latest
 * block's base fee are parameters.
 */
module MempoolDecode {
  import opened Wrappers
  import opened Canon
  import opened PriceTable
  import opened Inference

  /** A JSON value of a pending transaction's field, as far as `_hex_to_int` tells them apart. */
  datatype JsonValue = JNull | JInt(i: int) | JStr(s: string) | JOther

  /** One pending transaction of the pool dump; a missing key is `JNull` or `None`. */
  datatype PendingTx = PendingTx(
    to: Option<string>,
    input: string,
    gas: JsonValue,
    gasPrice: JsonValue,
    maxFeePerGas: JsonValue,
    maxPriorityFeePerGas: JsonValue,
    txType: JsonValue,
    nonce: JsonValue,
    value: JsonValue,
    hash: Option<string>,
    from: Option<string>
  )

  // ---------------------------------------------------------------------------
  // The router filter

  /** The Uniswap V2 Router02 address. */
  const KnownAddresses: set<string> := {"0x7a250d5630b4cf539739df2c5dacb4c659f2488d"}

  /** A transaction is kept when its `to` is present, non-empty and, lower-cased, a known router. */
  predicate IsRouterTx(tx: PendingTx) {
    tx.to.Some? && tx.to.value != "" && Lower(tx.to.value) in KnownAddresses
  }

  /** The router transactions of one sender's list, in nonce order. */
  function RouterTxsOf(txs: seq<PendingTx>): seq<PendingTx> {
    if txs == [] then []
    else RouterTxsOf(txs[..|txs| - 1]) + (if IsRouterTx(txs[|txs| - 1]) then [txs[|txs| - 1]] else [])
  }

  /** `filtered`: the router transactions of every sender, senders in pool order. */
  function RouterTxs(pending: seq<seq<PendingTx>>): seq<PendingTx> {
    if pending == [] then []
    else RouterTxs(pending[..|pending| - 1]) + RouterTxsOf(pending[|pending| - 1])
  }

  /** All the pending transactions, sender after sender. */
  function Flatten(pending: seq<seq<PendingTx>>): seq<PendingTx> {
    if pending == [] then []
    else Flatten(pending[..|pending| - 1]) + pending[|pending| - 1]
  }

  /** The nested filter loop over senders and their nonces. */
  method FilterRouterTxs(pending: seq<seq<PendingTx>>) returns (filtered: seq<PendingTx>)
    ensures filtered == RouterTxs(pending)
  {
    filtered := [];
    for i := 0 to |pending|
      invariant filtered == RouterTxs(pending[..i])
    {
      assert pending[..i + 1][..i] == pending[..i];
      var txs := pending[i];
      ghost var before := filtered;
      for j := 0 to |txs|
        invariant filtered == before + RouterTxsOf(txs[..j])
      {
        assert txs[..j + 1][..j] == txs[..j];
        if IsRouterTx(txs[j]) {
          filtered := filtered + [txs[j]];
        }
      }
      assert txs[..|txs|] == txs;
    }
    assert pending[..|pending|] == pending;
  }

  lemma {:induction false} RouterTxsOfConcat(a: seq<PendingTx>, b: seq<PendingTx>)
    ensures RouterTxsOf(a + b) == RouterTxsOf(a) + RouterTxsOf(b)
    decreases |b|
  {
    if b == [] {
      assert a + b == a;
    } else {
      var init := b[..|b| - 1];
      assert (a + b)[..|a + b| - 1] == a + init;
      RouterTxsOfConcat(a, init);
    }
  }

  /** A transaction survives the filter exactly when it is a router transaction. */
  lemma {:induction false} RouterTxsOfMembers(txs: seq<PendingTx>)
    ensures forall tx :: tx in RouterTxsOf(txs) <==> tx in txs && IsRouterTx(tx)
  {
    if txs != [] {
      var init := txs[..|txs| - 1];
      RouterTxsOfMembers(init);
      assert txs == init + [txs[|txs| - 1]];
    }
  }

  /**
   * The filter keeps the order of the pool: its result is the subsequence of router
   * transactions of all pending transactions, senders in order and each sender's in
   * nonce order, and a transaction is in it exactly when it is a pending router
   * transaction.
   */
  lemma {:induction false} RouterTxsInPoolOrder(pending: seq<seq<PendingTx>>)
    ensures RouterTxs(pending) == RouterTxsOf(Flatten(pending))
    ensures forall tx :: tx in RouterTxs(pending) <==> tx in Flatten(pending) && IsRouterTx(tx)
  {
    if pending != [] {
      var init := pending[..|pending| - 1];
      RouterTxsInPoolOrder(init);
      RouterTxsOfConcat(Flatten(init), pending[|pending| - 1]);
    }
    RouterTxsOfMembers(Flatten(pending));
  }

  // ---------------------------------------------------------------------------
  // Selector and the swap function table

  /** `input_data[:10]` and `input_data[10:]`, which clamp to the string's length. */
  function SplitSelector(input: string): (parts: (string, string))
    ensures parts.0 + parts.1 == input
    ensures |parts.0| == if |input| < 10 then |input| else 10
  {
    if |input| < 10 then (input, "") else (input[..10], input[10..])
  }

  datatype AbiType = Uint256 | Address | AddressArray | Bytes

  datatype AbiInput = AbiInput(name: string, ty: AbiType)

  datatype AbiEntry = AbiEntry(name: string, inputs: seq<AbiInput>)

  /** The four input lists of the table, by what the caller fixes: input or output, tokens or ETH. */
  datatype Kind = ExactIn | ExactOut | ExactEthIn | ExactEthOut

  /** The inputs of an entry of kind `k`: its amounts, then path, recipient and deadline. */
  function Inputs(k: Kind): seq<AbiInput> {
    var amounts := match k
      case ExactIn => [AbiInput("amountIn", Uint256), AbiInput("amountOutMin", Uint256)]
      case ExactOut => [AbiInput("amountOut", Uint256), AbiInput("amountInMax", Uint256)]
      case ExactEthIn => [AbiInput("amountOutMin", Uint256)]
      case ExactEthOut => [AbiInput("amountOut", Uint256)];
    amounts + [AbiInput("path", AddressArray), AbiInput("to", Address), AbiInput("deadline", Uint256)]
  }

  /** `SWAP_FUNCTIONS`: the nine Uniswap V2 router swap functions by 4-byte selector. */
  function SwapFunctions(): map<string, AbiEntry> {
    map[
      "0x7ff36ab5" := AbiEntry("swapExactETHForTokens", Inputs(ExactEthIn)),
      "0xfb3bdb41" := AbiEntry("swapETHForExactTokens", Inputs(ExactEthOut)),
      "0x38ed1739" := AbiEntry("swapExactTokensForTokens", Inputs(ExactIn)),
      "0x8803dbee" := AbiEntry("swapTokensForExactTokens", Inputs(ExactOut)),
      "0x18cbafe5" := AbiEntry("swapExactTokensForETH", Inputs(ExactIn)),
      "0x4a25d94a" := AbiEntry("swapTokensForExactETH", Inputs(ExactOut)),
      "0xb6f9de95" := AbiEntry("swapExactETHForTokensSupportingFeeOnTransferTokens", Inputs(ExactEthIn)),
      "0x791ac947" := AbiEntry("swapExactTokensForETHSupportingFeeOnTransferTokens", Inputs(ExactIn)),
      "0xded9382a" := AbiEntry("swapExactTokensForTokensSupportingFeeOnTransferTokens", Inputs(ExactIn))
    ]
  }

  /** The kind of each selector of the table. */
  function KindOf(sel: string): Option<Kind> {
    if sel in {"0x7ff36ab5", "0xb6f9de95"} then Some(ExactEthIn)
    else if sel == "0xfb3bdb41" then Some(ExactEthOut)
    else if sel in {"0x38ed1739", "0x18cbafe5", "0x791ac947", "0xded9382a"} then Some(ExactIn)
    else if sel in {"0x8803dbee", "0x4a25d94a"} then Some(ExactOut)
    else None
  }

  /** The names of an entry's inputs are pairwise distinct. */
  predicate DistinctNames(inputs: seq<AbiInput>) {
    forall i, k :: 0 <= i < k < |inputs| ==> inputs[i].name != inputs[k].name
  }

  /** Input names are distinct, and the third input from the end is "path", of type address[]. */
  lemma InputsShape(k: Kind)
    ensures DistinctNames(Inputs(k))
    ensures |Inputs(k)| >= 3 && Inputs(k)[|Inputs(k)| - 3] == AbiInput("path", AddressArray)
  {
  }

  /** Exactly the exact-input kinds declare "amountIn". */
  lemma InputsAmountIn(k: Kind)
    ensures (exists i :: 0 <= i < |Inputs(k)| && Inputs(k)[i].name == "amountIn") <==> k == ExactIn
  {
    if k == ExactIn {
      assert Inputs(k)[0].name == "amountIn";
    }
  }

  /**
   * The table has exactly the selectors of `KindOf`, each ten characters starting with
   * "0x", and each entry's inputs are those of its selector's kind.
   */
  lemma SwapFunctionsShape(sel: string)
    ensures sel in SwapFunctions() <==> KindOf(sel).Some?
    ensures sel in SwapFunctions() ==> && |sel| == 10 && sel[..2] == "0x"
                                       && SwapFunctions()[sel].inputs == Inputs(KindOf(sel).value)
  {
  }

  // ---------------------------------------------------------------------------
  // Decoded calls and the decoded-argument record

  /** A value the ABI decoder returns for one input. */
  datatype AbiValue = UintValue(n: nat) | AddressValue(a: string) | AddressListValue(addrs: seq<string>) | BytesValue(b: seq<bv8>)

  predicate OfType(v: AbiValue, t: AbiType) {
    match t
    case Uint256 => v.UintValue?
    case Address => v.AddressValue?
    case AddressArray => v.AddressListValue?
    case Bytes => v.BytesValue?
  }

  /** One value per declared type, each of that type. */
  predicate Conforms(values: seq<AbiValue>, types: seq<AbiType>) {
    |values| == |types| && forall i :: 0 <= i < |values| ==> OfType(values[i], types[i])
  }

  /** `expected_types`. */
  function TypesOf(entry: AbiEntry): (types: seq<AbiType>)
    ensures |types| == |entry.inputs|
    ensures forall i :: 0 <= i < |types| ==> types[i] == entry.inputs[i].ty
  {
    seq(|entry.inputs|, i requires 0 <= i < |entry.inputs| => entry.inputs[i].ty)
  }

  /** A successfully decoded call: the table entry of its selector and the decoded values. */
  datatype Call = Call(entry: AbiEntry, values: seq<AbiValue>)

  /**
   * The selector lookup and the ABI decode of the calldata. An unknown selector, a
   * decode failure (including calldata that is not hex) and a result that does not
   * match the declared types give no call.
   */
  function DecodeCall(input: string, abiDecode: (seq<AbiType>, string) -> Option<seq<AbiValue>>): (c: Option<Call>)
    ensures SplitSelector(input).0 !in SwapFunctions() ==> c.None?
    ensures c.Some? ==> && SplitSelector(input).0 in SwapFunctions()
                        && c.value.entry == SwapFunctions()[SplitSelector(input).0]
                        && Conforms(c.value.values, TypesOf(c.value.entry))
  {
    var parts := SplitSelector(input);
    if parts.0 !in SwapFunctions() then None
    else
      var entry := SwapFunctions()[parts.0];
      match abiDecode(TypesOf(entry), parts.1)
      case None => None
      case Some(values) => if Conforms(values, TypesOf(entry)) then Some(Call(entry, values)) else None
  }

  /** A decoded argument as the record stores it: byte strings become hex text. */
  datatype ArgValue = UintArg(n: nat) | AddressArg(a: string) | AddressListArg(addrs: seq<string>) | HexArg(hex: string)

  /** The hex digit of `d`, lower-case. */
  function DigitChar(d: nat): (c: char)
    requires d < 16
    ensures '0' <= c <= '9' || 'a' <= c <= 'f'
  {
    if d < 10 then ('0' as int + d) as char else ('a' as int + d - 10) as char
  }

  /** `bytes.hex()`: two lower-case hex digits per byte. */
  function HexOfBytes(b: seq<bv8>): (h: string)
    ensures |h| == 2 * |b|
  {
    if b == [] then []
    else [DigitChar(b[0] as nat / 16), DigitChar(b[0] as nat % 16)] + HexOfBytes(b[1..])
  }

  /** The two hex digits of a byte read back, in base 16, as the byte. */
  lemma ByteDigitsValue(x: nat)
    requires x < 256
    ensures DigitsValue([DigitChar(x / 16), DigitChar(x % 16)], 16) == Some(x)
  {
    var hi, lo := x / 16, x % 16;
    var pair := [DigitChar(hi), DigitChar(lo)];
    DigitCharValue(hi, 16);
    DigitCharValue(lo, 16);
    assert pair[..1] == [DigitChar(hi)] && [DigitChar(hi)][..0] == [];
    assert DigitsValue([DigitChar(hi)], 16) == Some(hi);
  }

  /** Each pair of hex digits reads back, in base 16, as the byte it encodes. */
  lemma {:induction false} HexOfBytesRoundTrip(b: seq<bv8>)
    ensures forall k :: 0 <= k < |b| ==> DigitsValue(HexOfBytes(b)[2 * k..2 * k + 2], 16) == Some(b[k] as nat)
  {
    if b != [] {
      var h, rest := HexOfBytes(b), HexOfBytes(b[1..]);
      HexOfBytesRoundTrip(b[1..]);
      var pair := [DigitChar(b[0] as nat / 16), DigitChar(b[0] as nat % 16)];
      assert h == pair + rest;
      ByteDigitsValue(b[0] as nat);
      forall k | 0 <= k < |b|
        ensures DigitsValue(h[2 * k..2 * k + 2], 16) == Some(b[k] as nat)
      {
        if k == 0 {
          assert h[0..2] == pair;
        } else {
          assert h[2 * k..2 * k + 2] == rest[2 * (k - 1)..2 * (k - 1) + 2];
          assert b[k] == b[1..][k - 1];
        }
      }
    }
  }

  function Render(v: AbiValue): ArgValue {
    match v
    case UintValue(n) => UintArg(n)
    case AddressValue(a) => AddressArg(a)
    case AddressListValue(addrs) => AddressListArg(addrs)
    case BytesValue(b) => HexArg(HexOfBytes(b))
  }

  /** `decoded_args`: each input's name with the decoded value at the same position. */
  function DecodedArgs(entry: AbiEntry, values: seq<AbiValue>): (args: seq<(string, ArgValue)>)
    requires |values| == |entry.inputs|
    ensures |args| == |values|
  {
    seq(|values|, i requires 0 <= i < |values| => (entry.inputs[i].name, Render(values[i])))
  }

  /** `args[name]`, or `None` when no argument has that name. */
  function Lookup(args: seq<(string, ArgValue)>, name: string): Option<ArgValue> {
    if args == [] then None
    else if args[0].0 == name then Some(args[0].1)
    else Lookup(args[1..], name)
  }

  lemma {:induction false} LookupFound(args: seq<(string, ArgValue)>, i: nat)
    requires i < |args|
    requires forall k :: 0 <= k < |args| && k != i ==> args[k].0 != args[i].0
    ensures Lookup(args, args[i].0) == Some(args[i].1)
  {
    if i > 0 {
      assert args[0].0 != args[i].0;
      LookupFound(args[1..], i - 1);
    }
  }

  lemma {:induction false} LookupMissing(args: seq<(string, ArgValue)>, name: string)
    requires forall k :: 0 <= k < |args| ==> args[k].0 != name
    ensures Lookup(args, name) == None
  {
    if args != [] {
      assert args[0].0 != name;
      LookupMissing(args[1..], name);
    }
  }

  /**
   * The decoded arguments pair names with values position by position: with distinct
   * names, the argument named after input `i` holds the rendering of value `i`, and a
   * name that is no input's has no argument.
   */
  lemma DecodedArgsLookup(entry: AbiEntry, values: seq<AbiValue>, name: string)
    requires |values| == |entry.inputs| && DistinctNames(entry.inputs)
    ensures forall i :: 0 <= i < |values| && entry.inputs[i].name == name ==>
              Lookup(DecodedArgs(entry, values), name) == Some(Render(values[i]))
    ensures (forall i :: 0 <= i < |values| ==> entry.inputs[i].name != name) ==>
              Lookup(DecodedArgs(entry, values), name) == None
  {
    var args := DecodedArgs(entry, values);
    forall i | 0 <= i < |values| && entry.inputs[i].name == name
      ensures Lookup(args, name) == Some(Render(values[i]))
    {
      LookupFound(args, i);
    }
    if forall i :: 0 <= i < |values| ==> entry.inputs[i].name != name {
      LookupMissing(args, name);
    }
  }

  // ---------------------------------------------------------------------------
  // `_hex_to_int`

  /** The value of `c` as a digit of `base` (hex digits in either case), if it is one. */
  function DigitValue(c: char, base: nat): Option<nat> {
    var v := if '0' <= c <= '9' then c as int - '0' as int
             else if 'a' <= c <= 'f' then c as int - 'a' as int + 10
             else if 'A' <= c <= 'F' then c as int - 'A' as int + 10
             else 16;
    if v < base && v < 16 then Some(v) else None
  }

  /** The value of a run of digits, most significant first; `None` at the first non-digit. */
  function DigitsValue(s: string, base: nat): Option<nat> {
    if s == [] then Some(0)
    else
      match DigitsValue(s[..|s| - 1], base)
      case None => None
      case Some(high) =>
        match DigitValue(s[|s| - 1], base)
        case None => None
        case Some(d) => Some(high * base + d)
  }

  /** `int(s, base)` over a bare run of digits: at least one digit and nothing else. */
  function ParseNat(s: string, base: nat): Option<nat> {
    if s == [] then None else DigitsValue(s, base)
  }

  /** `int(s)`: an optional sign, then decimal digits. */
  function ParseDecimal(s: string): Option<int> {
    if |s| > 0 && (s[0] == '-' || s[0] == '+') then
      match ParseNat(s[1..], 10)
      case None => None
      case Some(n) =>
        var m: int := n;
        Some(if s[0] == '-' then -m else m)
    else
      match ParseNat(s, 10)
      case None => None
      case Some(n) => Some(n)
  }

  predicate HexPrefixed(s: string) {
    |s| >= 2 && s[..2] == "0x"
  }

  /**
   * `_hex_to_int`: null and values that are neither integers nor strings give `None`, an
   * integer is returned unchanged, a "0x"-prefixed string is read as hex (so never
   * negative) and any other string as decimal; a string that does not parse gives `None`.
   */
  function HexToInt(x: JsonValue): (v: Option<int>)
    ensures x.JNull? || x.JOther? ==> v == None
    ensures x.JInt? ==> v == Some(x.i)
    ensures x.JStr? && HexPrefixed(x.s) && v.Some? ==> v.value >= 0
  {
    match x
    case JNull => None
    case JInt(i) => Some(i)
    case JStr(s) =>
      if HexPrefixed(s) then
        match ParseNat(s[2..], 16)
        case None => None
        case Some(n) => Some(n)
      else ParseDecimal(s)
    case JOther => None
  }

  /** The digits of `n` in `base`, most significant first, lower-case, without leading zeros. */
  function Digits(n: nat, base: nat): (s: string)
    requires 2 <= base <= 16
    ensures |s| >= 1
    ensures forall k :: 0 <= k < |s| ==> '0' <= s[k] <= '9' || 'a' <= s[k] <= 'f'
    decreases n
  {
    if n < base then [DigitChar(n)]
    else
      DivMod(n, base);
      Digits(n / base, base) + [DigitChar(n % base)]
  }

  lemma DigitCharValue(d: nat, base: nat)
    requires d < base <= 16
    ensures DigitValue(DigitChar(d), base) == Some(d)
  {
  }

  /** Digits of `n` in `base` are the digits of `n / base` followed by the digit `n % base`. */
  lemma DigitsStep(n: nat, base: nat)
    requires 2 <= base <= 16 && n >= base
    ensures Digits(n, base)[..|Digits(n, base)| - 1] == Digits(n / base, base)
    ensures Digits(n, base)[|Digits(n, base)| - 1] == DigitChar(n % base)
  {
    var high := Digits(n / base, base);
    assert Digits(n, base) == high + [DigitChar(n % base)];
    assert (high + [DigitChar(n % base)])[..|high|] == high;
  }

  lemma DivMod(n: nat, base: nat)
    requires 2 <= base <= n
    ensures (n / base) * base + n % base == n
    ensures n / base < n && n % base < base
  {
  }

  lemma {:induction false} DigitsRoundTrip(n: nat, base: nat)
    requires 2 <= base <= 16
    ensures DigitsValue(Digits(n, base), base) == Some(n)
    decreases n
  {
    var s := Digits(n, base);
    if n < base {
      assert s[..|s| - 1] == [];
      DigitCharValue(n, base);
    } else {
      DivMod(n, base);
      DigitsRoundTrip(n / base, base);
      DigitsStep(n, base);
      DigitCharValue(n % base, base);
      assert DigitsValue(s[..|s| - 1], base) == Some(n / base);
      assert DigitValue(s[|s| - 1], base) == Some(n % base);
      assert DigitsValue(s, base) == Some((n / base) * base + n % base);
    }
  }

  /** `hex(n)` for a non-negative integer. */
  function HexString(n: nat): string {
    "0x" + Digits(n, 16)
  }

  /** `str(i)`. */
  function DecimalString(i: int): string {
    if i < 0 then "-" + Digits(-i, 10) else Digits(i, 10)
  }

  /** A hex-encoded quantity, as the node writes one, reads back as the same number. */
  lemma HexStringRoundTrip(n: nat)
    ensures HexToInt(JStr(HexString(n))) == Some(n)
  {
    var s := HexString(n);
    assert s[..2] == "0x" && s[2..] == Digits(n, 16);
    DigitsRoundTrip(n, 16);
  }

  /** A decimal string reads back as the same number, negative ones included. */
  lemma DecimalStringRoundTrip(i: int)
    ensures HexToInt(JStr(DecimalString(i))) == Some(i)
  {
    if i < 0 {
      NegativeDecimalRoundTrip(i);
    } else {
      NaturalDecimalRoundTrip(i);
    }
  }

  lemma NegativeDecimalRoundTrip(i: int)
    requires i < 0
    ensures HexToInt(JStr(DecimalString(i))) == Some(i)
  {
    DigitsRoundTrip(-i, 10);
    MinusParses(Digits(-i, 10), -i);
  }

  /** A minus sign followed by a non-empty run of decimal digits reads as the negated value. */
  lemma MinusParses(d: string, n: nat)
    requires d != [] && DigitsValue(d, 10) == Some(n)
    ensures HexToInt(JStr("-" + d)) == Some(-(n as int))
  {
    var s := "-" + d;
    assert s[0] == '-' && s[1..] == d;
    assert !HexPrefixed(s);
  }

  lemma NaturalDecimalRoundTrip(i: nat)
    ensures HexToInt(JStr(DecimalString(i))) == Some(i)
  {
    var d := Digits(i, 10);
    assert d[0] != '-' && d[0] != '+';
    assert |d| >= 2 ==> d[1] != 'x';
    assert !HexPrefixed(d);
    DigitsRoundTrip(i, 10);
    assert ParseNat(d, 10) == Some(i);
  }

  /** Hex quantities read with either case of digit. */
  lemma HexToIntHexExamples()
    ensures HexToInt(JStr("0x1a")) == Some(26) && HexToInt(JStr("0x1A")) == Some(26)
  {
    assert "1"[..0] == [];
    assert DigitsValue("1", 16) == Some(1);
    assert "1a"[..1] == "1" && "1A"[..1] == "1";
    assert DigitsValue("1a", 16) == Some(26) && DigitsValue("1A", 16) == Some(26);
    assert "0x1a"[..2] == "0x" && "0x1a"[2..] == "1a";
    assert "0x1A"[..2] == "0x" && "0x1A"[2..] == "1A";
  }

  /** Strings without the "0x" prefix are decimal, with an optional sign. */
  lemma HexToIntDecimalExamples()
    ensures HexToInt(JStr("26")) == Some(26) && HexToInt(JStr("-26")) == Some(-26)
  {
    assert "2"[..0] == [];
    assert DigitsValue("2", 10) == Some(2);
    assert "26"[..1] == "2";
    assert DigitsValue("26", 10) == Some(26);
    assert "-26"[1..] == "26";
  }

  /** "0x" alone, a capital "0X" prefix and non-digits are all rejected. */
  lemma HexToIntRejects()
    ensures HexToInt(JStr("0x")) == None && HexToInt(JStr("0X1a")) == None && HexToInt(JStr("1a")) == None
  {
    assert "0x"[..2] == "0x" && "0x"[2..] == [];
    assert "1"[..0] == [];
    assert DigitsValue("1", 10) == Some(1);
    assert "1a"[..1] == "1";
    assert DigitsValue("1a", 10) == None;
    assert "0X1a"[..3] == "0X1" && "0X1"[..2] == "0X" && "0X"[..1] == "0" && "0"[..0] == [];
    assert DigitsValue("0X", 10) == None;
    assert DigitsValue("0X1a", 10) == None;
  }

  // ---------------------------------------------------------------------------
  // Effective gas price

  predicate NonZero(x: Option<int>) {
    x.Some? && x.value != 0
  }

  /**
   * The effective gas price estimate: a non-zero legacy gas price is taken as is; else,
   * when the latest block's base fee is known, the base fee plus the priority fee capped
   * by a non-zero max fee; else the max fee if non-zero, else the priority fee.
   */
  function EffectiveGasPrice(gasPrice: Option<int>, maxFee: Option<int>, prio: Option<int>, baseFee: Option<int>): (p: Option<int>)
    ensures NonZero(gasPrice) ==> p == gasPrice
    ensures !NonZero(gasPrice) && baseFee.Some? ==>
              var eff := baseFee.value + CoerceInt(prio);
              && p.Some? && p.value <= eff
              && (NonZero(maxFee) ==> p.value <= maxFee.value)
              && (p.value == eff || (NonZero(maxFee) && p.value == maxFee.value))
    ensures !NonZero(gasPrice) && baseFee.None? ==> p == OrElse(maxFee, prio)
  {
    if NonZero(gasPrice) then gasPrice
    else if baseFee.Some? then
      var eff := CoerceInt(baseFee) + CoerceInt(prio);
      var cap := if NonZero(maxFee) then maxFee.value else eff;
      Some(if cap <= eff then cap else eff)
    else OrElse(maxFee, prio)
  }

  /**
   * With a known base fee and no legacy price, the estimate is the largest price that
   * stays within both base fee plus priority fee and a non-zero max fee.
   */
  lemma EffectiveGasPriceIsCap(gasPrice: Option<int>, maxFee: Option<int>, prio: Option<int>, baseFee: Option<int>, x: int)
    requires !NonZero(gasPrice) && baseFee.Some?
    requires x <= baseFee.value + CoerceInt(prio) && (NonZero(maxFee) ==> x <= maxFee.value)
    ensures EffectiveGasPrice(gasPrice, maxFee, prio, baseFee).Some?
    ensures x <= EffectiveGasPrice(gasPrice, maxFee, prio, baseFee).value
  {
  }

  // ---------------------------------------------------------------------------
  // Token metadata and the swap record

  /** What the ERC-20 `symbol`, `name` and `decimals` calls of `describe_token` returned. */
  datatype TokenInfo = TokenInfo(checksumAddress: string, symbol: Option<string>, name: Option<string>, decimals: Option<int>)

  /** One entry of a record's "path". */
  datatype TokenMeta = TokenMeta(address: string, symbol: string, name: string, decimals: Option<int>)

  /** `describe_token`: a missing or empty symbol or name becomes "UNKNOWN". */
  function DescribeToken(info: TokenInfo): (m: TokenMeta)
    ensures m.address == info.checksumAddress && m.decimals == info.decimals
    ensures m.symbol != "" && m.name != ""
    ensures info.symbol.Some? && info.symbol.value != "" ==> m.symbol == info.symbol.value
    ensures info.symbol.None? || info.symbol.value == "" ==> m.symbol == "UNKNOWN"
    ensures info.name.Some? && info.name.value != "" ==> m.name == info.name.value
    ensures info.name.None? || info.name.value == "" ==> m.name == "UNKNOWN"
  {
    TokenMeta(info.checksumAddress,
              if info.symbol.Some? && info.symbol.value != "" then info.symbol.value else "UNKNOWN",
              if info.name.Some? && info.name.value != "" then info.name.value else "UNKNOWN",
              info.decimals)
  }

  /** The metadata of each address of a path, in order. */
  function Metas(path: seq<string>, describe: string -> TokenInfo): (metas: seq<TokenMeta>)
    ensures |metas| == |path|
  {
    if path == [] then []
    else Metas(path[..|path| - 1], describe) + [DescribeToken(describe(path[|path| - 1]))]
  }

  /** The lower-cased addresses of a path. */
  function LowerSet(path: seq<string>): set<string> {
    if path == [] then {}
    else LowerSet(path[..|path| - 1]) + {Lower(path[|path| - 1])}
  }

  lemma {:induction false} LowerSetMembers(path: seq<string>)
    ensures forall a :: a in LowerSet(path) <==> exists k :: 0 <= k < |path| && a == Lower(path[k])
  {
    if path != [] {
      var init := path[..|path| - 1];
      LowerSetMembers(init);
      forall a | a in LowerSet(path)
        ensures exists k :: 0 <= k < |path| && a == Lower(path[k])
      {
        if a != Lower(path[|path| - 1]) {
          assert a in LowerSet(init);
          var k :| 0 <= k < |init| && a == Lower(init[k]);
          assert path[k] == init[k];
        }
      }
      forall a | exists k :: 0 <= k < |path| && a == Lower(path[k])
        ensures a in LowerSet(path)
      {
        var k :| 0 <= k < |path| && a == Lower(path[k]);
        if k < |init| {
          assert init[k] == path[k];
        }
      }
    }
  }

  /** The addresses under the decoded "path" argument. */
  function PathAddresses(c: Call): seq<string>
    requires |c.values| == |c.entry.inputs|
  {
    match Lookup(DecodedArgs(c.entry, c.values), "path")
    case Some(AddressListArg(addrs)) => addrs
    case _ => []
  }

  /** A record of decoded_swaps.json. */
  datatype DecodedSwap = DecodedSwap(
    fnName: string,
    args: seq<(string, ArgValue)>,
    path: seq<TokenMeta>,
    gas: Option<int>,
    gasPrice: Option<int>,
    maxFeePerGas: Option<int>,
    maxPriorityFeePerGas: Option<int>,
    txType: Option<int>,
    effectiveGasPrice: Option<int>,
    hash: Option<string>,
    from: Option<string>,
    toRouter: Option<string>,
    nonce: Option<int>,
    value: Option<int>
  )

  /**
   * The record built from a decoded router call: the entry's name, the decoded arguments,
   * the path's token metadata, the gas fields read by `_hex_to_int`, and the effective
   * gas price from the base fee of the latest block.
   */
  function BuildSwap(tx: PendingTx, c: Call, describe: string -> TokenInfo, baseFee: Option<int>): (d: DecodedSwap)
    requires |c.values| == |c.entry.inputs|
    ensures d.fnName == c.entry.name && |d.path| == |PathAddresses(c)|
    ensures d.effectiveGasPrice == EffectiveGasPrice(d.gasPrice, d.maxFeePerGas, d.maxPriorityFeePerGas, baseFee)
  {
    var gasPrice, maxFee, prio := HexToInt(tx.gasPrice), HexToInt(tx.maxFeePerGas), HexToInt(tx.maxPriorityFeePerGas);
    DecodedSwap(c.entry.name, DecodedArgs(c.entry, c.values), Metas(PathAddresses(c), describe),
                HexToInt(tx.gas), gasPrice, maxFee, prio, HexToInt(tx.txType),
                EffectiveGasPrice(gasPrice, maxFee, prio, baseFee),
                tx.hash, tx.from, tx.to, HexToInt(tx.nonce), HexToInt(tx.value))
  }

  function DecodeTx(tx: PendingTx, abiDecode: (seq<AbiType>, string) -> Option<seq<AbiValue>>,
                    describe: string -> TokenInfo, baseFee: Option<int>): Option<DecodedSwap>
  {
    match DecodeCall(tx.input, abiDecode)
    case None => None
    case Some(c) => Some(BuildSwap(tx, c, describe, baseFee))
  }

  /** `decoded_swaps`; the base fee is that of the latest block when transaction `i` is decoded. */
  function DecodedSwaps(txs: seq<PendingTx>, abiDecode: (seq<AbiType>, string) -> Option<seq<AbiValue>>,
                        describe: string -> TokenInfo, baseFeeAt: nat -> Option<int>): seq<DecodedSwap>
  {
    if txs == [] then []
    else
      var n := |txs| - 1;
      DecodedSwaps(txs[..n], abiDecode, describe, baseFeeAt)
        + (match DecodeTx(txs[n], abiDecode, describe, baseFeeAt(n)) case None => [] case Some(d) => [d])
  }

  /** `token_addresses`: the lower-cased path addresses of every decoded call. */
  function TokenAddresses(txs: seq<PendingTx>, abiDecode: (seq<AbiType>, string) -> Option<seq<AbiValue>>): set<string> {
    if txs == [] then {}
    else
      var n := |txs| - 1;
      TokenAddresses(txs[..n], abiDecode)
        + (match DecodeCall(txs[n].input, abiDecode) case None => {} case Some(c) => LowerSet(PathAddresses(c)))
  }

  /** One more path address adds its description and its lower-cased form. */
  lemma PathStep(path: seq<string>, k: nat, describe: string -> TokenInfo)
    requires k < |path|
    ensures Metas(path[..k + 1], describe) == Metas(path[..k], describe) + [DescribeToken(describe(path[k]))]
    ensures LowerSet(path[..k + 1]) == LowerSet(path[..k]) + {Lower(path[k])}
  {
    assert path[..k + 1][..k] == path[..k];
  }

  /** The inner loop over a path: the token metadata in order, and the addresses collected. */
  method DescribePath(path: seq<string>, describe: string -> TokenInfo, tokens0: set<string>)
    returns (metas: seq<TokenMeta>, tokens: set<string>)
    ensures metas == Metas(path, describe)
    ensures tokens == tokens0 + LowerSet(path)
  {
    metas, tokens := [], tokens0;
    for k := 0 to |path|
      invariant metas == Metas(path[..k], describe)
      invariant tokens == tokens0 + LowerSet(path[..k])
    {
      PathStep(path, k, describe);
      metas := metas + [DescribeToken(describe(path[k]))];
      tokens := tokens + {Lower(path[k])};
    }
    assert path[..|path|] == path;
  }

  /** One more transaction adds its decoded record, if any, and its path addresses. */
  lemma DecodeStep(txs: seq<PendingTx>, i: nat, abiDecode: (seq<AbiType>, string) -> Option<seq<AbiValue>>,
                   describe: string -> TokenInfo, baseFeeAt: nat -> Option<int>)
    requires i < |txs|
    ensures DecodedSwaps(txs[..i + 1], abiDecode, describe, baseFeeAt)
         == DecodedSwaps(txs[..i], abiDecode, describe, baseFeeAt)
          + (match DecodeTx(txs[i], abiDecode, describe, baseFeeAt(i)) case None => [] case Some(d) => [d])
    ensures TokenAddresses(txs[..i + 1], abiDecode)
         == TokenAddresses(txs[..i], abiDecode)
          + (match DecodeCall(txs[i].input, abiDecode) case None => {} case Some(c) => LowerSet(PathAddresses(c)))
  {
    assert txs[..i + 1][..i] == txs[..i];
  }

  /** The decode loop over the router transactions. */
  method DecodeAll(filtered: seq<PendingTx>, abiDecode: (seq<AbiType>, string) -> Option<seq<AbiValue>>,
                   describe: string -> TokenInfo, baseFeeAt: nat -> Option<int>)
    returns (swaps: seq<DecodedSwap>, tokens: set<string>)
    ensures swaps == DecodedSwaps(filtered, abiDecode, describe, baseFeeAt)
    ensures tokens == TokenAddresses(filtered, abiDecode)
  {
    swaps, tokens := [], {};
    for i := 0 to |filtered|
      invariant swaps == DecodedSwaps(filtered[..i], abiDecode, describe, baseFeeAt)
      invariant tokens == TokenAddresses(filtered[..i], abiDecode)
    {
      DecodeStep(filtered, i, abiDecode, describe, baseFeeAt);
      var tx := filtered[i];
      var call := DecodeCall(tx.input, abiDecode);
      if call.None? {
        continue;
      }
      var c := call.value;
      var path := PathAddresses(c);
      var metas;
      metas, tokens := DescribePath(path, describe, tokens);
      var gasPrice := HexToInt(tx.gasPrice);
      var maxFee := HexToInt(tx.maxFeePerGas);
      var prio := HexToInt(tx.maxPriorityFeePerGas);
      var effective := EffectiveGasPrice(gasPrice, maxFee, prio, baseFeeAt(i));
      var trade := DecodedSwap(c.entry.name, DecodedArgs(c.entry, c.values), metas,
                               HexToInt(tx.gas), gasPrice, maxFee, prio, HexToInt(tx.txType), effective,
                               tx.hash, tx.from, tx.to, HexToInt(tx.nonce), HexToInt(tx.value));
      swaps := swaps + [trade];
    }
    assert filtered[..|filtered|] == filtered;
  }

  // ---------------------------------------------------------------------------
  // From a record to what the analysis reads

  /** A JSON amount as the analysis reads it: absent, an integer, or something else. */
  function AmountArg(args: seq<(string, ArgValue)>, name: string): Amount {
    match Lookup(args, name)
    case None => Missing
    case Some(UintArg(n)) => Num(n as real)
    case Some(_) => NonNumeric
  }

  /** The record of decoded_swaps.json as run_mev_analysis.py loads it; no record has "gasUsed". */
  function ToSwap(d: DecodedSwap): Swap {
    Swap(Some(d.fnName),
         seq(|d.path|, i requires 0 <= i < |d.path| => PathToken(Some(d.path[i].address), Some(d.path[i].symbol))),
         AmountArg(d.args, "amountIn"), AmountArg(d.args, "amountOutMin"),
         AmountArg(d.args, "amountOut"), AmountArg(d.args, "amountInMax"),
         d.effectiveGasPrice, d.gasPrice, d.maxFeePerGas, d.maxPriorityFeePerGas, None, d.gas)
  }

  /** An exact-ETH-input entry declares no "amountIn", so its decoded arguments have none. */
  lemma NoAmountInArg(entry: AbiEntry, values: seq<AbiValue>)
    requires entry.inputs == Inputs(ExactEthIn) && |values| == |entry.inputs|
    ensures Lookup(DecodedArgs(entry, values), "amountIn") == None
  {
    InputsAmountIn(ExactEthIn);
    InputsShape(ExactEthIn);
    DecodedArgsLookup(entry, values, "amountIn");
  }

  /**
   * The two exact-ETH-input swap functions declare no "amountIn", so no call to them
   * ever becomes a trade of the analysis, whatever the price table.
   */
  lemma EthInputSwapsNeverTrade(tx: PendingTx, abiDecode: (seq<AbiType>, string) -> Option<seq<AbiValue>>,
                                describe: string -> TokenInfo, baseFee: Option<int>, exo: Table)
    requires SplitSelector(tx.input).0 == "0x7ff36ab5" || SplitSelector(tx.input).0 == "0xb6f9de95"
    ensures DecodeTx(tx, abiDecode, describe, baseFee) == None
            || InferTrade(ToSwap(DecodeTx(tx, abiDecode, describe, baseFee).value), exo) == None
  {
    var sel := SplitSelector(tx.input).0;
    var call := DecodeCall(tx.input, abiDecode);
    if call.Some? {
      var c := call.value;
      SwapFunctionsShape(sel);
      assert c.entry.inputs == Inputs(ExactEthIn);
      assert c.entry.name == "swapExactETHForTokens" || c.entry.name == "swapExactETHForTokensSupportingFeeOnTransferTokens";
      NoAmountInArg(c.entry, c.values);
      var d := BuildSwap(tx, c, describe, baseFee);
      var swap := ToSwap(d);
      assert swap.amountIn == Missing;
      NoAmountInNoTrade(swap, exo);
    }
  }

  /** An exact-ETH-output entry declares no "amountInMax", so its decoded arguments have none. */
  lemma NoAmountInMaxArg(entry: AbiEntry, values: seq<AbiValue>)
    requires entry.inputs == Inputs(ExactEthOut) && |values| == |entry.inputs|
    ensures Lookup(DecodedArgs(entry, values), "amountInMax") == None
  {
    InputsShape(ExactEthOut);
    assert forall i :: 0 <= i < |values| ==> entry.inputs[i].name != "amountInMax";
    DecodedArgsLookup(entry, values, "amountInMax");
  }

  /**
   * `swapETHForExactTokens` is exact output for the analysis but declares no
   * "amountInMax", so no call to it ever becomes a trade either.
   */
  lemma EthForExactTokensNeverTrades(tx: PendingTx, abiDecode: (seq<AbiType>, string) -> Option<seq<AbiValue>>,
                                     describe: string -> TokenInfo, baseFee: Option<int>, exo: Table)
    requires SplitSelector(tx.input).0 == "0xfb3bdb41"
    ensures DecodeTx(tx, abiDecode, describe, baseFee) == None
            || InferTrade(ToSwap(DecodeTx(tx, abiDecode, describe, baseFee).value), exo) == None
  {
    var sel := SplitSelector(tx.input).0;
    var call := DecodeCall(tx.input, abiDecode);
    if call.Some? {
      var c := call.value;
      SwapFunctionsShape(sel);
      assert c.entry == AbiEntry("swapETHForExactTokens", Inputs(ExactEthOut));
      NoAmountInMaxArg(c.entry, c.values);
      var d := BuildSwap(tx, c, describe, baseFee);
      var swap := ToSwap(d);
      assert swap.amountInMax == Missing;
      NoAmountInMaxNoTrade(swap, exo);
    }
  }

  /**
   * The fee-on-transfer tokens-for-tokens function is decoded but its name is in
   * neither of the analysis's lists, so no call to it ever becomes a trade.
   */
  lemma FeeOnTransferTokensForTokensNeverTrades(tx: PendingTx, abiDecode: (seq<AbiType>, string) -> Option<seq<AbiValue>>,
                                                describe: string -> TokenInfo, baseFee: Option<int>, exo: Table)
    requires SplitSelector(tx.input).0 == "0xded9382a"
    ensures DecodeTx(tx, abiDecode, describe, baseFee) == None
            || InferTrade(ToSwap(DecodeTx(tx, abiDecode, describe, baseFee).value), exo) == None
  {
    var name := "swapExactTokensForTokensSupportingFeeOnTransferTokens";
    assert !Classified(name);
    assert SwapFunctions()["0xded9382a"].name == name;
  }

  /**
   * Every other function of the table is one the analysis classifies (which does not
   * make it trade: see `EthForExactTokensNeverTrades`).
   */
  lemma ClassifiedFunctions(sel: string)
    requires sel in SwapFunctions() && sel != "0xb6f9de95" && sel != "0xded9382a"
    ensures Classified(SwapFunctions()[sel].name)
  {
  }
}
