/**
 * The normalised exogenous price table built from exo.json (run_mev_analysis.py).
 * The source keeps it in a Python dict, whose iteration order is the order in which
 * keys were first inserted; a table here is that dict: its keys in insertion order
 * plus the map from key to entry.
 */
module PriceTable {
  import opened Wrappers
  import opened Canon

  /**
   * One value of exo.json. A JSON object is kept with the keys it has: a missing
   * "symbol", "price_usd" or "decimals" key is `None`. Anything that is not an
   * object is `NotObject`.
   */
  datatype RawEntry = NotObject | Object(symbol: Option<string>, priceUsd: Option<real>, decimals: Option<int>)

  /** A normalised entry: `{"symbol", "price_usd", "decimals"}`. */
  datatype PriceEntry = PriceEntry(symbol: string, priceUsd: real, decimals: int)

  /** An insertion-ordered dictionary from lower-cased address to entry. */
  datatype Table = Table(keys: seq<string>, entries: map<string, PriceEntry>)

  const DefaultDecimals: int := 18

  /** Python's dict invariant: every key once, and exactly the keys of the map. */
  ghost predicate WellFormed(t: Table) {
    && (forall i, k :: 0 <= i < k < |t.keys| ==> t.keys[i] != t.keys[k])
    && (forall a :: a in t.entries <==> a in t.keys)
  }

  /** The empty dict `{}`. */
  function Empty(): (t: Table)
    ensures WellFormed(t) && t.keys == [] && t.entries == map[]
  {
    Table([], map[])
  }

  /**
   * `d[k] = v`: the value is replaced, and a key already present keeps its place in
   * the order while a new key goes last.
   */
  function Put(t: Table, k: string, v: PriceEntry): (u: Table)
    requires WellFormed(t)
    ensures WellFormed(u)
    ensures u.entries == t.entries[k := v]
    ensures k in t.entries ==> u.keys == t.keys
    ensures k !in t.entries ==> u.keys == t.keys + [k]
  {
    if k in t.entries then Table(t.keys, t.entries[k := v])
    else Table(t.keys + [k], t.entries[k := v])
  }

  /**
   * The entry check and rebuild of one exo.json value: an object with both a
   * "symbol" and a "price_usd" key is kept, with "decimals" defaulting to 18;
   * everything else is skipped.
   */
  function Normalize(data: RawEntry): (e: Option<PriceEntry>)
    ensures e.Some? <==> data.Object? && data.symbol.Some? && data.priceUsd.Some?
    ensures e.Some? ==> e.value.symbol == data.symbol.value && e.value.priceUsd == data.priceUsd.value
    ensures e.Some? ==> e.value.decimals == (if data.decimals.Some? then data.decimals.value else DefaultDecimals)
  {
    match data
    case NotObject => None
    case Object(symbol, priceUsd, decimals) =>
      if symbol.Some? && priceUsd.Some? then Some(PriceEntry(symbol.value, priceUsd.value, decimals.GetOr(DefaultDecimals)))
      else None
  }

  /** The table after processing `raw` (exo.json's items, in file order) one item at a time. */
  function NormalizedTable(raw: seq<(string, RawEntry)>): (t: Table)
    ensures WellFormed(t)
  {
    if raw == [] then Empty()
    else
      var t := NormalizedTable(raw[..|raw| - 1]);
      var (addr, data) := raw[|raw| - 1];
      match Normalize(data)
      case None => t
      case Some(e) => Put(t, Lower(addr), e)
  }

  /** The validation loop over exo.json's items. */
  method NormalizePrices(raw: seq<(string, RawEntry)>) returns (exo: Table)
    ensures exo == NormalizedTable(raw)
  {
    exo := Empty();
    for i := 0 to |raw|
      invariant exo == NormalizedTable(raw[..i])
    {
      assert raw[..i + 1][..i] == raw[..i];
      var (addr, data) := raw[i];
      var entry := Normalize(data);
      if entry.Some? {
        var lowerAddr := Lower(addr);
        if lowerAddr in exo.entries {
          exo := Table(exo.keys, exo.entries[lowerAddr := entry.value]);
        } else {
          exo := Table(exo.keys + [lowerAddr], exo.entries[lowerAddr := entry.value]);
        }
      }
    }
    assert raw[..|raw|] == raw;
  }

  /** The addresses of the well-formed items, lower-cased, in file order. */
  function FiledKeys(raw: seq<(string, RawEntry)>): seq<string> {
    if raw == [] then []
    else FiledKeys(raw[..|raw| - 1]) + (if Normalize(raw[|raw| - 1].1).Some? then [Lower(raw[|raw| - 1].0)] else [])
  }

  lemma {:induction false} FiledKeysMembers(raw: seq<(string, RawEntry)>)
    ensures forall a :: a in FiledKeys(raw) <==>
              exists i :: 0 <= i < |raw| && Lower(raw[i].0) == a && Normalize(raw[i].1).Some?
  {
    if raw != [] {
      var init := raw[..|raw| - 1];
      FiledKeysMembers(init);
      forall a | a in FiledKeys(raw)
        ensures exists i :: 0 <= i < |raw| && Lower(raw[i].0) == a && Normalize(raw[i].1).Some?
      {
        if a in FiledKeys(init) {
          var i :| 0 <= i < |init| && Lower(init[i].0) == a && Normalize(init[i].1).Some?;
          assert raw[i] == init[i];
        } else {
          assert Lower(raw[|raw| - 1].0) == a;
        }
      }
      forall a | exists i :: 0 <= i < |raw| && Lower(raw[i].0) == a && Normalize(raw[i].1).Some?
        ensures a in FiledKeys(raw)
      {
        var i :| 0 <= i < |raw| && Lower(raw[i].0) == a && Normalize(raw[i].1).Some?;
        if i < |raw| - 1 {
          assert init[i] == raw[i];
        }
      }
    }
  }

  /**
   * An address is in the table exactly when some well-formed item lower-cases to it,
   * and every key is lower-case.
   */
  lemma {:induction false} NormalizedDomain(raw: seq<(string, RawEntry)>)
    ensures forall a :: a in NormalizedTable(raw).entries <==>
              exists i :: 0 <= i < |raw| && Lower(raw[i].0) == a && Normalize(raw[i].1).Some?
    ensures forall a :: a in NormalizedTable(raw).entries ==> Lower(a) == a
  {
    FiledKeysMembers(raw);
    NormalizedFiled(raw);
  }

  lemma {:induction false} NormalizedFiled(raw: seq<(string, RawEntry)>)
    ensures forall a :: a in NormalizedTable(raw).entries <==> a in FiledKeys(raw)
    ensures forall a :: a in NormalizedTable(raw).entries ==> Lower(a) == a
  {
    if raw != [] {
      NormalizedFiled(raw[..|raw| - 1]);
      LowerIdempotent(raw[|raw| - 1].0);
    }
  }

  /**
   * Later items win: the entry filed under an address is the normalised value of the
   * last well-formed item that lower-cases to it.
   */
  lemma {:induction false} NormalizedLastWins(raw: seq<(string, RawEntry)>, i: nat)
    requires i < |raw| && Normalize(raw[i].1).Some?
    requires forall j :: i < j < |raw| && Lower(raw[j].0) == Lower(raw[i].0) ==> Normalize(raw[j].1).None?
    ensures Lower(raw[i].0) in NormalizedTable(raw).entries
    ensures NormalizedTable(raw).entries[Lower(raw[i].0)] == Normalize(raw[i].1).value
  {
    var init := raw[..|raw| - 1];
    if i < |raw| - 1 {
      assert init[i] == raw[i];
      forall j | i < j < |init| && Lower(init[j].0) == Lower(init[i].0) ensures Normalize(init[j].1).None? {
        assert init[j] == raw[j];
      }
      NormalizedLastWins(init, i);
    }
  }

  /**
   * When no two well-formed items collide after lower-casing, the table's keys are
   * exactly the well-formed addresses in file order.
   */
  lemma {:induction false} NormalizedKeyOrder(raw: seq<(string, RawEntry)>)
    requires forall i, j :: 0 <= i < j < |raw| && Normalize(raw[i].1).Some? && Normalize(raw[j].1).Some? ==>
               Lower(raw[i].0) != Lower(raw[j].0)
    ensures NormalizedTable(raw).keys == FiledKeys(raw)
  {
    if raw != [] {
      var init := raw[..|raw| - 1];
      forall i, j | 0 <= i < j < |init| && Normalize(init[i].1).Some? && Normalize(init[j].1).Some?
        ensures Lower(init[i].0) != Lower(init[j].0)
      {
        assert init[i] == raw[i] && init[j] == raw[j];
      }
      NormalizedKeyOrder(init);
      NormalizedDomain(init);
      assert forall i :: 0 <= i < |init| ==> init[i] == raw[i];
    }
  }

  /** `exo.get(addr, {}).get("decimals", 18)`. */
  function DecimalsOf(t: Table, addr: string): (d: int)
    ensures addr in t.entries ==> d == t.entries[addr].decimals
    ensures addr !in t.entries ==> d == DefaultDecimals
  {
    if addr in t.entries then t.entries[addr].decimals else DefaultDecimals
  }

  /** `exo.get(addr, {}).get("price_usd")`. */
  function PriceOf(t: Table, addr: string): (p: Option<real>)
    ensures p.Some? <==> addr in t.entries
    ensures p.Some? ==> p.value == t.entries[addr].priceUsd
  {
    if addr in t.entries then Some(t.entries[addr].priceUsd) else None
  }

  /** The price of the first key, in `keys` order, whose entry has symbol "WETH". */
  function FirstWeth(keys: seq<string>, entries: map<string, PriceEntry>): (p: Option<real>)
    ensures p.Some? <==> exists i :: 0 <= i < |keys| && keys[i] in entries && entries[keys[i]].symbol == "WETH"
    ensures p.Some? ==> exists i :: && 0 <= i < |keys| && keys[i] in entries && entries[keys[i]].symbol == "WETH"
                                    && p.value == entries[keys[i]].priceUsd
                                    && forall k :: 0 <= k < i && keys[k] in entries ==> entries[keys[k]].symbol != "WETH"
  {
    if keys == [] then None
    else if keys[0] in entries && entries[keys[0]].symbol == "WETH" then Some(entries[keys[0]].priceUsd)
    else
      var p := FirstWeth(keys[1..], entries);
      assert forall i :: 0 < i < |keys| ==> keys[i] == keys[1..][i - 1];
      if p.Some? then
        var i :| && 0 <= i < |keys[1..]| && keys[1..][i] in entries && entries[keys[1..][i]].symbol == "WETH"
                 && p.value == entries[keys[1..][i]].priceUsd
                 && forall k :: 0 <= k < i && keys[1..][k] in entries ==> entries[keys[1..][k]].symbol != "WETH";
        assert forall k :: 0 <= k < i + 1 && keys[k] in entries ==> entries[keys[k]].symbol != "WETH" by {
          forall k | 0 < k < i + 1 && keys[k] in entries ensures entries[keys[k]].symbol != "WETH" {
            assert keys[k] == keys[1..][k - 1];
          }
        }
        p
      else
        p
  }

  /** `next((v for k, v in exo.items() if v["symbol"] == "WETH"), None)`, then its price. */
  function WethPrice(t: Table): (p: Option<real>) {
    FirstWeth(t.keys, t.entries)
  }

  /** `{addr: data["price_usd"] for addr, data in exo.items()}`. */
  function PriceMap(t: Table): (m: map<string, real>)
    ensures forall a :: a in m <==> a in t.entries
    ensures forall a :: a in m ==> m[a] == t.entries[a].priceUsd
  {
    map a | a in t.entries :: t.entries[a].priceUsd
  }

  /**
   * A small exo.json: a valid WETH entry under a mixed-case address, a value that is
   * not an object, and an object without "symbol". Only the first survives, under its
   * lower-cased address, with 18 decimals.
   */
  lemma NormalizeExample()
    ensures var t := NormalizedTable([("0xAB", Object(Some("WETH"), Some(2000.0), None)), ("0xcd", NotObject), ("0xef", Object(None, Some(1.0), Some(6)))]);
            t.keys == ["0xab"] && t.entries == map["0xab" := PriceEntry("WETH", 2000.0, 18)] && WethPrice(t) == Some(2000.0)
  {
    var raw := [("0xAB", Object(Some("WETH"), Some(2000.0), None)), ("0xcd", NotObject), ("0xef", Object(None, Some(1.0), Some(6)))];
    assert raw[..2][..1][..0] == [];
    assert raw[..2][..1] == [raw[0]];
    assert Lower("0xAB") == "0xab";
    assert NormalizedTable(raw[..1]) == Table(["0xab"], map["0xab" := PriceEntry("WETH", 2000.0, 18)]);
    assert raw[..2][..1] == raw[..1];
  }
}
