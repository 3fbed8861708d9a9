/**
 * The read-side hooks that turn batched contract reads into per-vault
 * figures: lib/hooks/useVaultAprs.ts, lib/hooks/useValueAssets.ts,
 * lib/hooks/useVaultBalance.ts and lib/hooks/useTotalSupplyValue.ts.
 *
 * A batch is what `useReadContracts` holds: nothing yet (`None`) or one
 * result per requested contract, in request order.
 */
module VaultReads {
  import opened Wrappers
  import opened Digits
  import opened Units
  import opened Chain
  import Wallet

  /** The vault symbols, in list order. */
  function Symbols(vaults: seq<Vault>): (s: seq<string>)
    ensures |s| == |vaults|
    ensures forall i :: 0 <= i < |vaults| ==> s[i] == vaults[i].symbol
  {
    seq(|vaults|, i requires 0 <= i < |vaults| => vaults[i].symbol)
  }

  /** No later key repeats the key at `i`: the assignment at `i` is the one that stays. */
  predicate LastOf(keys: seq<string>, i: nat)
    requires i < |keys|
  {
    forall j :: i < j < |keys| ==> keys[j] != keys[i]
  }

  /** Every key occurs once. */
  predicate Distinct(keys: seq<string>)
  {
    forall i, j :: 0 <= i < j < |keys| ==> keys[i] != keys[j]
  }

  /**
   * `keys.reduce((acc, k, i) => { acc[k] = values[i]; return acc }, {})`:
   * the record built by assigning the values in order.
   */
  function Keyed<T>(keys: seq<string>, values: seq<T>): map<string, T>
    requires |keys| == |values|
    decreases |keys|
  {
    if keys == [] then map[]
    else
      var n := |keys| - 1;
      Keyed(keys[..n], values[..n])[keys[n] := values[n]]
  }

  /**
   * The record has exactly one entry per key, and a key that is not
   * repeated later holds the value assigned with it: later assignments
   * overwrite earlier ones.
   */
  lemma {:induction false} KeyedEntries<T>(keys: seq<string>, values: seq<T>)
    requires |keys| == |values|
    ensures var m := Keyed(keys, values);
      && (forall i :: 0 <= i < |keys| ==> keys[i] in m)
      && (forall k :: k in m ==> exists i :: 0 <= i < |keys| && keys[i] == k)
      && (forall i :: 0 <= i < |keys| && LastOf(keys, i) ==> m[keys[i]] == values[i])
    decreases |keys|
  {
    if keys != [] {
      var n := |keys| - 1;
      var ks, vs := keys[..n], values[..n];
      KeyedEntries(ks, vs);
      var m0 := Keyed(ks, vs);
      var m := Keyed(keys, values);
      assert m == m0[keys[n] := values[n]];
      forall k | k in m
        ensures exists i :: 0 <= i < |keys| && keys[i] == k
      {
        if k != keys[n] {
          var i :| 0 <= i < n && ks[i] == k;
          assert keys[i] == k;
        }
      }
      forall i | 0 <= i < |keys| && LastOf(keys, i)
        ensures m[keys[i]] == values[i]
      {
        if i < n {
          assert LastOf(ks, i) && keys[i] != keys[n];
          assert ks[i] == keys[i] && vs[i] == values[i];
        }
      }
      forall i | 0 <= i < |keys|
        ensures keys[i] in m
      {
        if i < n {
          assert ks[i] == keys[i];
        }
      }
    }
  }

  /** With distinct keys every key maps to its own value. */
  lemma KeyedDistinct<T>(keys: seq<string>, values: seq<T>)
    requires |keys| == |values| && Distinct(keys)
    ensures forall i :: 0 <= i < |keys| ==> keys[i] in Keyed(keys, values) && Keyed(keys, values)[keys[i]] == values[i]
  {
    KeyedEntries(keys, values);
    forall i | 0 <= i < |keys|
      ensures Keyed(keys, values)[keys[i]] == values[i]
    {
      assert LastOf(keys, i);
    }
  }

  /** The integer a successful read carried, 0 for a failed one. */
  function OrZero(r: ReadResult): (v: nat)
    ensures r.ReadOk? ==> v == r.value
    ensures r.ReadFail? ==> v == 0
  {
    ReadOr0(Some(r))
  }

  /**
   * `useVaultAprs().aprData`: undefined until the batch has data, then the
   * APR of each vault keyed by its symbol, 0 for a failed read.
   * The batch holds one result per vault (one `getAPR` call each).
   */
  function VaultAprs(vaults: seq<Vault>, data: Option<seq<ReadResult>>): (r: Option<map<string, nat>>)
    requires data.Some? ==> |data.value| == |vaults|
    ensures r.None? <==> data.None?
    ensures r.Some? ==> forall i :: 0 <= i < |vaults| ==> vaults[i].symbol in r.value
    ensures r.Some? ==> forall k :: k in r.value ==> exists i :: 0 <= i < |vaults| && vaults[i].symbol == k
    ensures r.Some? ==> forall i :: 0 <= i < |vaults| && LastOf(Symbols(vaults), i) ==>
      r.value[vaults[i].symbol] == OrZero(data.value[i])
  {
    if data.None? then None
    else
      var results := data.value;
      var keys := Symbols(vaults);
      var aprs: seq<nat> := seq(|results|, i requires 0 <= i < |results| => OrZero(results[i]));
      KeyedEntries(keys, aprs);
      Some(Keyed(keys, aprs))
  }

  /** One failed APR read zeroes that vault's APR and no other. */
  lemma AprFailureIsLocal(vaults: seq<Vault>, data: seq<ReadResult>, k: nat, i: nat)
    requires |data| == |vaults| && Distinct(Symbols(vaults))
    requires k < |vaults| && i < |vaults| && i != k
    ensures var failed := data[k := ReadFail];
      && VaultAprs(vaults, Some(failed)).value[vaults[k].symbol] == 0
      && VaultAprs(vaults, Some(failed)).value[vaults[i].symbol] == VaultAprs(vaults, Some(data)).value[vaults[i].symbol]
  {
    assert LastOf(Symbols(vaults), k) && LastOf(Symbols(vaults), i);
  }

  /**
   * The text `useVaultAssets` stores for one vault: "0" for a failed read or
   * missing or zero decimals (no fallback to 18 here), otherwise the total
   * assets formatted with the vault's decimals.
   */
  function AssetText(symbol: string, decimalsMap: map<string, nat>, r: ReadResult): (t: string)
    ensures r.ReadFail? || symbol !in decimalsMap || decimalsMap[symbol] == 0 ==> t == "0"
  {
    if r.ReadFail? || symbol !in decimalsMap || decimalsMap[symbol] == 0 then "0"
    else FormatUnits(r.value, decimalsMap[symbol])
  }

  /** The stored text always reads back as the total assets in whole tokens (0 on failure). */
  lemma AssetTextValue(symbol: string, decimalsMap: map<string, nat>, r: ReadResult)
    ensures var t := AssetText(symbol, decimalsMap, r);
      && (r.ReadOk? && symbol in decimalsMap && decimalsMap[symbol] != 0 ==>
            NumberOf(t) == Some(r.value as real / Pow10(decimalsMap[symbol]) as real))
      && (!(r.ReadOk? && symbol in decimalsMap && decimalsMap[symbol] != 0) ==> NumberOf(t) == Some(0.0))
  {
    if r.ReadOk? && symbol in decimalsMap && decimalsMap[symbol] != 0 {
      FormatUnitsValue(r.value, decimalsMap[symbol]);
    } else {
      ZeroText();
    }
  }

  lemma ZeroText()
    ensures NumberOf("0") == Some(0.0)
  {
    assert AllDigits("0");
    OnlyDigits("0");
    assert "0"[..0] == "";
    assert Value("0") == 0;
  }

  /**
   * `useVaultAssets().assetAmounts`: undefined until the batch has data,
   * then the formatted total assets of each vault keyed by its symbol.
   */
  function VaultAssets(vaults: seq<Vault>, decimalsMap: map<string, nat>, data: Option<seq<ReadResult>>)
    : (r: Option<map<string, string>>)
    requires data.Some? ==> |data.value| == |vaults|
    ensures r.None? <==> data.None?
    ensures r.Some? ==> forall i :: 0 <= i < |vaults| ==> vaults[i].symbol in r.value
    ensures r.Some? ==> forall k :: k in r.value ==> exists i :: 0 <= i < |vaults| && vaults[i].symbol == k
    ensures r.Some? ==> forall i :: 0 <= i < |vaults| && LastOf(Symbols(vaults), i) ==>
      r.value[vaults[i].symbol] == AssetText(vaults[i].symbol, decimalsMap, data.value[i])
  {
    if data.None? then None
    else
      var results := data.value;
      var keys := Symbols(vaults);
      var texts := seq(|results|, i requires 0 <= i < |results| => AssetText(keys[i], decimalsMap, results[i]));
      KeyedEntries(keys, texts);
      Some(Keyed(keys, texts))
  }

  /** The figures `useVaultBalance` returns. */
  datatype Balance = Balance(
    shares: nat,
    assets: nat,
    assetsFormatted: string,
    /** Whether the `convertToAssets` read was requested. */
    converts: bool,
    isError: bool)

  /**
   * `useVaultBalance(vaultAddress, vaultSymbol)`: the caller's shares, the
   * assets they convert to, and the assets formatted with the vault's
   * decimals (18 when the map has none). `balanceRead` and `convertRead` are
   * the results of the two reads when they were made; the conversion is only
   * requested for a positive share count.
   */
  function VaultBalance(connected: bool, address: Option<string>, vaultAddress: Option<string>, vaultSymbol: string,
                        decimalsMap: map<string, nat>, balanceRead: Option<ReadResult>,
                        convertRead: Option<ReadResult>, balanceError: bool, assetsError: bool): (b: Balance)
    ensures b.converts <==> connected && address.Some? && vaultAddress.Some? && b.shares > 0
    ensures b.shares > 0 ==> connected && address.Some? && vaultAddress.Some? && balanceRead == Some(ReadOk(b.shares))
    ensures connected && address.Some? && vaultAddress.Some? && balanceRead.Some? && balanceRead.value.ReadOk? ==>
      b.shares == balanceRead.value.value
    ensures b.assets > 0 ==> b.converts && convertRead == Some(ReadOk(b.assets))
    ensures b.converts && convertRead.Some? && convertRead.value.ReadOk? ==> b.assets == convertRead.value.value
    ensures b.isError <==> balanceError || assetsError
  {
    var enabled := connected && address.Some? && vaultAddress.Some?;
    var shares := if enabled then ReadOr0(balanceRead) else 0;
    var converts := enabled && shares > 0;
    var assets := if converts then ReadOr0(convertRead) else 0;
    var decimals := DecimalsOf(decimalsMap, vaultSymbol);
    var formatted := if assets > 0 then FormatUnits(assets, decimals) else "0.00";
    Balance(shares, assets, formatted, converts, balanceError || assetsError)
  }

  /**
   * No shares means no assets; the placeholder "0.00" is shown exactly when
   * the assets are 0; otherwise the text reads back as the assets in whole
   * tokens at the vault's decimals.
   */
  lemma BalanceMeaning(connected: bool, address: Option<string>, vaultAddress: Option<string>, vaultSymbol: string,
                       decimalsMap: map<string, nat>, balanceRead: Option<ReadResult>,
                       convertRead: Option<ReadResult>, balanceError: bool, assetsError: bool)
    ensures var b := VaultBalance(connected, address, vaultAddress, vaultSymbol, decimalsMap, balanceRead,
                                  convertRead, balanceError, assetsError);
      && (b.shares == 0 ==> b.assets == 0)
      && (b.assetsFormatted == "0.00" <==> b.assets == 0)
      && (b.assets > 0 ==>
            NumberOf(b.assetsFormatted) == Some(b.assets as real / Pow10(DecimalsOf(decimalsMap, vaultSymbol)) as real))
  {
    var b := VaultBalance(connected, address, vaultAddress, vaultSymbol, decimalsMap, balanceRead,
                          convertRead, balanceError, assetsError);
    if b.assets > 0 {
      FormatUnitsNotZeroPlaceholder(b.assets, DecimalsOf(decimalsMap, vaultSymbol));
      FormatUnitsValue(b.assets, DecimalsOf(decimalsMap, vaultSymbol));
    }
  }

  /** The text `assetAmounts[symbol] || '0'`: a missing or empty entry is "0". */
  function AmountText(assetAmounts: map<string, string>, symbol: string): (t: string)
    ensures t != ""
    ensures symbol in assetAmounts && assetAmounts[symbol] != "" ==> t == assetAmounts[symbol]
  {
    if symbol in assetAmounts && assetAmounts[symbol] != "" then assetAmounts[symbol] else "0"
  }

  /**
   * What one vault adds to the total supply value: amount times price, and
   * nothing when the amount is not a number or is not positive.
   */
  function Term(amount: Option<real>, price: real): real
  {
    if amount.None? || amount.value <= 0.0 then 0.0 else amount.value * price
  }

  /** The contribution of one vault: `Number` of its text, times its token's price. */
  function Contribution(v: Vault, assetAmounts: map<string, string>, prices: Wallet.Prices,
                        currency: Wallet.Currency): real
  {
    Term(NumberOf(AmountText(assetAmounts, v.symbol)), Wallet.GetPrice(v.underlyingToken.symbol, Some(prices), currency))
  }

  function SumContributions(vaults: seq<Vault>, assetAmounts: map<string, string>, prices: Wallet.Prices,
                            currency: Wallet.Currency): real
    decreases |vaults|
  {
    if vaults == [] then 0.0
    else
      SumContributions(vaults[..|vaults| - 1], assetAmounts, prices, currency)
      + Contribution(vaults[|vaults| - 1], assetAmounts, prices, currency)
  }

  /**
   * `useTotalSupplyValue().totalSupplyValue`: 0 when the asset amounts or the
   * prices are missing, otherwise the sum over the vault list of the
   * contributions.
   */
  function TotalSupplyValue(vaults: seq<Vault>, assetAmounts: Option<map<string, string>>,
                            prices: Option<Wallet.Prices>, currency: Wallet.Currency): (t: real)
    ensures assetAmounts.None? || prices.None? ==> t == 0.0
  {
    if assetAmounts.None? || prices.None? then 0.0
    else SumContributions(vaults, assetAmounts.value, prices.value, currency)
  }

  /** Prices are never negative in a response. */
  predicate NonNegativePrices(prices: Wallet.Prices)
  {
    forall id, c :: id in prices && c in prices[id] ==> prices[id][c] >= 0.0
  }

  /** A price read from a response with non-negative prices is non-negative. */
  lemma PriceNonNegative(symbol: string, prices: Wallet.Prices, currency: Wallet.Currency)
    requires NonNegativePrices(prices)
    ensures Wallet.GetPrice(symbol, Some(prices), currency) >= 0.0
  {
  }

  lemma TermNonNegative(amount: Option<real>, price: real)
    requires price >= 0.0
    ensures Term(amount, price) >= 0.0
  {
  }

  /** With non-negative prices every contribution, and so the total, is non-negative. */
  lemma {:induction false} TotalSupplyNonNegative(vaults: seq<Vault>, assetAmounts: map<string, string>,
                                                  prices: Wallet.Prices, currency: Wallet.Currency)
    requires NonNegativePrices(prices)
    ensures SumContributions(vaults, assetAmounts, prices, currency) >= 0.0
    decreases |vaults|
  {
    if vaults != [] {
      var v := vaults[|vaults| - 1];
      TotalSupplyNonNegative(vaults[..|vaults| - 1], assetAmounts, prices, currency);
      PriceNonNegative(v.underlyingToken.symbol, prices, currency);
      TermNonNegative(NumberOf(AmountText(assetAmounts, v.symbol)), Wallet.GetPrice(v.underlyingToken.symbol, Some(prices), currency));
    }
  }

  /** Total assets in whole tokens as `useVaultAssets` reports them for vault `i`. */
  function AssetsInTokens(v: Vault, decimalsMap: map<string, nat>, r: ReadResult): (x: real)
    ensures x >= 0.0
  {
    if r.ReadOk? && v.symbol in decimalsMap && decimalsMap[v.symbol] != 0 then
      QuotientNonNegative(r.value, Pow10(decimalsMap[v.symbol]));
      r.value as real / Pow10(decimalsMap[v.symbol]) as real
    else 0.0
  }

  lemma QuotientNonNegative(a: nat, b: nat)
    requires b >= 1
    ensures a as real / b as real >= 0.0
  {
  }

  /** The total supply value computed directly from the raw reads. */
  function ValueOfReads(vaults: seq<Vault>, decimalsMap: map<string, nat>, data: seq<ReadResult>,
                        prices: Wallet.Prices, currency: Wallet.Currency): real
    requires |data| == |vaults|
    decreases |vaults|
  {
    if vaults == [] then 0.0
    else
      var n := |vaults| - 1;
      ValueOfReads(vaults[..n], decimalsMap, data[..n], prices, currency)
      + Worth(AssetsInTokens(vaults[n], decimalsMap, data[n]),
              Wallet.GetPrice(vaults[n].underlyingToken.symbol, Some(prices), currency))
  }

  /** An amount of tokens at a unit price. */
  function Worth(amount: real, price: real): real
  {
    amount * price
  }

  /**
   * End to end: fed with what `useVaultAssets` produced (distinct vault
   * symbols), the total supply value is the sum over the vaults of total
   * assets in whole tokens times the token price. The string round trip
   * through `formatUnits` and `Number` loses nothing.
   */
  lemma TotalSupplyOfReads(vaults: seq<Vault>, decimalsMap: map<string, nat>, data: seq<ReadResult>,
                           prices: Wallet.Prices, currency: Wallet.Currency)
    requires |data| == |vaults| && Distinct(Symbols(vaults))
    ensures TotalSupplyValue(vaults, VaultAssets(vaults, decimalsMap, Some(data)), Some(prices), currency)
         == ValueOfReads(vaults, decimalsMap, data, prices, currency)
  {
    var m := VaultAssets(vaults, decimalsMap, Some(data)).value;
    forall i | 0 <= i < |vaults|
      ensures m[vaults[i].symbol] == AssetText(vaults[i].symbol, decimalsMap, data[i])
    {
      assert LastOf(Symbols(vaults), i);
    }
    SumOfReads(vaults, decimalsMap, data, m, prices, currency);
  }

  lemma {:induction false} SumOfReads(vaults: seq<Vault>, decimalsMap: map<string, nat>, data: seq<ReadResult>,
                                      m: map<string, string>, prices: Wallet.Prices, currency: Wallet.Currency)
    requires |data| == |vaults|
    requires forall i :: 0 <= i < |vaults| ==>
      vaults[i].symbol in m && m[vaults[i].symbol] == AssetText(vaults[i].symbol, decimalsMap, data[i])
    ensures SumContributions(vaults, m, prices, currency) == ValueOfReads(vaults, decimalsMap, data, prices, currency)
    decreases |vaults|
  {
    if vaults != [] {
      var n := |vaults| - 1;
      var head, last := vaults[..n], vaults[n];
      assert forall i :: 0 <= i < |head| ==>
        head[i].symbol in m && m[head[i].symbol] == AssetText(head[i].symbol, decimalsMap, data[..n][i]) by {
        forall i | 0 <= i < |head|
          ensures head[i].symbol in m && m[head[i].symbol] == AssetText(head[i].symbol, decimalsMap, data[..n][i])
        {
          assert head[i] == vaults[i] && data[..n][i] == data[i];
        }
      }
      SumOfReads(head, decimalsMap, data[..n], m, prices, currency);
      ContributionOfRead(last, decimalsMap, data[n], m, prices, currency);
      var c := Contribution(last, m, prices, currency);
      var a := Worth(AssetsInTokens(last, decimalsMap, data[n]), Wallet.GetPrice(last.underlyingToken.symbol, Some(prices), currency));
      assert SumContributions(vaults, m, prices, currency) == SumContributions(head, m, prices, currency) + c;
      assert ValueOfReads(vaults, decimalsMap, data, prices, currency) == ValueOfReads(head, decimalsMap, data[..n], prices, currency) + a;
    }
  }

  lemma ContributionOfRead(v: Vault, decimalsMap: map<string, nat>, r: ReadResult,
                           m: map<string, string>, prices: Wallet.Prices, currency: Wallet.Currency)
    requires v.symbol in m && m[v.symbol] == AssetText(v.symbol, decimalsMap, r)
    ensures Contribution(v, m, prices, currency)
         == Worth(AssetsInTokens(v, decimalsMap, r), Wallet.GetPrice(v.underlyingToken.symbol, Some(prices), currency))
  {
    AmountOfRead(v, decimalsMap, r, m);
    TermOfValue(AssetsInTokens(v, decimalsMap, r), Wallet.GetPrice(v.underlyingToken.symbol, Some(prices), currency));
  }

  /** The text stored for a vault reads back as its total assets in whole tokens. */
  lemma AmountOfRead(v: Vault, decimalsMap: map<string, nat>, r: ReadResult, m: map<string, string>)
    requires v.symbol in m && m[v.symbol] == AssetText(v.symbol, decimalsMap, r)
    ensures NumberOf(AmountText(m, v.symbol)) == Some(AssetsInTokens(v, decimalsMap, r))
  {
    AssetTextValue(v.symbol, decimalsMap, r);
    ZeroText();
  }

  lemma TermOfValue(x: real, p: real)
    requires x >= 0.0
    ensures Term(Some(x), p) == Worth(x, p)
  {
    if x == 0.0 {
      assert x * p == 0.0;
    }
  }
}
