/**
 * lib/hooks/useUserSummary.ts: the caller's position in every vault, its
 * value at current prices, the portfolio total and the value-weighted APR.
 *
 * Numbers are `real`. A product or sum of finite reals is finite, so the
 * source's `isFinite` and `|| 0` guards never fire here.
 */
module Summary {
  import opened Wrappers
  import opened Digits
  import opened Units
  import opened Chain
  import Wallet
  import VaultReads

  /** One row of `perVault`. */
  datatype PerVault = PerVault(vault: Vault, shares: nat, assets: nat, assetsFormatted: string, value: real, apr: real)

  /** `batch?.[i]`: the i-th result of a batch, if the batch has data and that many results. */
  function At(batch: Option<seq<ReadResult>>, i: nat): (r: Option<ReadResult>)
    ensures r.Some? <==> batch.Some? && i < |batch.value|
    ensures r.Some? ==> r.value == batch.value[i]
  {
    if batch.Some? && i < |batch.value| then Some(batch.value[i]) else None
  }

  /** `sharesArray`: the balance results with failures as 0, empty before the batch has data. */
  function SharesArray(balances: Option<seq<ReadResult>>): (s: seq<nat>)
    ensures balances.None? ==> s == []
    ensures balances.Some? ==> |s| == |balances.value|
    ensures forall i :: 0 <= i < |s| ==> s[i] == VaultReads.OrZero(balances.value[i])
  {
    if balances.None? then []
    else seq(|balances.value|, i requires 0 <= i < |balances.value| => VaultReads.OrZero(balances.value[i]))
  }

  /** `sharesArray[idx] || 0n`. */
  function SharesAt(shares: seq<nat>, i: nat): (n: nat)
    ensures i < |shares| ==> n == shares[i]
    ensures i >= |shares| ==> n == 0
  {
    if i < |shares| then shares[i] else 0
  }

  /**
   * The `convertToAssets` batch: its arguments (one per vault, the vault's
   * shares) when the account is connected, and whether it is enabled, which
   * needs one share count per vault.
   */
  datatype Conversion = Conversion(args: seq<nat>, enabled: bool)

  function ConversionBatch(connected: bool, address: Option<string>, vaults: seq<Vault>, shares: seq<nat>)
    : (c: Conversion)
    ensures c.enabled ==> |shares| == |vaults| && |c.args| == |vaults|
    ensures c.enabled ==> forall i :: 0 <= i < |vaults| ==> c.args[i] == shares[i]
    ensures !connected || address.None? ==> c.args == [] && !c.enabled
    ensures connected && address.Some? && |shares| == |vaults| ==> c.enabled
  {
    var requested := connected && address.Some?;
    var args := if requested then seq(|vaults|, i requires 0 <= i < |vaults| => SharesAt(shares, i)) else [];
    Conversion(args, requested && |shares| == |vaults|)
  }

  /** `assets > 0n ? formatUnits(assets, decimals) : '0.00'`. */
  function FormattedAssets(assets: nat, decimals: nat): string
  {
    if assets > 0 then FormatUnits(assets, decimals) else "0.00"
  }

  /** `parseFloat("0.00")` is 0. */
  lemma PlaceholderIsZero()
    ensures ParseFloat("0.00") == Some(0.0)
  {
    assert "0" + ".00" == "0.00";
    Wallet.NumberWithCents("0");
    assert Value("0") == 0 by {
      assert "0"[..0] == "";
    }
    assert IsNumeral("0.00") by {
      Wallet.NumberWithCents("0");
    }
    ParseFloatOfNumeral("0.00");
  }

  /** `parseFloat(assetsFormatted)`: the assets in whole tokens. */
  function Tokens(assets: nat, decimals: nat): (x: real)
    ensures ParseFloat(FormattedAssets(assets, decimals)) == Some(x)
    ensures x == assets as real / Pow10(decimals) as real
  {
    if assets > 0 then
      FormatUnitsValue(assets, decimals);
      ParseFloat(FormatUnits(assets, decimals)).value
    else
      PlaceholderIsZero();
      0.0
  }

  /** `aprData?.[symbol]`, absent when the APRs are not loaded or the symbol has none. */
  function RawApr(aprData: Option<map<string, nat>>, symbol: string): Option<nat>
  {
    if aprData.Some? && symbol in aprData.value then Some(aprData.value[symbol]) else None
  }

  /** `aprRaw ? Number(formatApr(aprRaw)) : 0`. */
  function AprOf(raw: Option<nat>): (a: real)
    ensures a == raw.GetOr(0) as real
  {
    if raw.None? || raw.value == 0 then 0.0
    else
      Wallet.FormatAprNumber(raw);
      NumberOf(Wallet.FormatApr(raw)).value
  }

  /** The row of vault `vault` given its share count and its conversion result. */
  function Entry(vault: Vault, shares: nat, assetsRead: Option<ReadResult>, prices: Option<Wallet.Prices>,
                 currency: Wallet.Currency, aprData: Option<map<string, nat>>): PerVault
  {
    var assets := ReadOr0(assetsRead);
    var decimals := vault.underlyingToken.decimals;
    var price := Wallet.GetPrice(vault.underlyingToken.symbol, prices, currency);
    PerVault(vault, shares, assets, FormattedAssets(assets, decimals),
             VaultReads.Worth(Tokens(assets, decimals), price), AprOf(RawApr(aprData, vault.symbol)))
  }

  /** `perVault`: one row per vault of the list, in list order. */
  function PerVaultRows(vaults: seq<Vault>, balances: Option<seq<ReadResult>>, assetsResult: Option<seq<ReadResult>>,
                        prices: Option<Wallet.Prices>, currency: Wallet.Currency, aprData: Option<map<string, nat>>)
    : (rows: seq<PerVault>)
    ensures |rows| == |vaults|
    ensures forall i :: 0 <= i < |vaults| ==> rows[i].vault == vaults[i]
    ensures forall i :: 0 <= i < |vaults| ==>
      rows[i] == Entry(vaults[i], SharesAt(SharesArray(balances), i), At(assetsResult, i), prices, currency, aprData)
  {
    var shares := SharesArray(balances);
    seq(|vaults|, i requires 0 <= i < |vaults| =>
      Entry(vaults[i], SharesAt(shares, i), At(assetsResult, i), prices, currency, aprData))
  }

  /**
   * What a row says: the assets are the conversion read (0 on failure), the
   * text is "0.00" exactly when there are no assets, the value is the assets
   * in whole tokens times the price, and the APR is the raw figure (0 when
   * missing).
   */
  lemma EntryMeaning(vault: Vault, shares: nat, assetsRead: Option<ReadResult>, prices: Option<Wallet.Prices>,
                     currency: Wallet.Currency, aprData: Option<map<string, nat>>)
    ensures var r := Entry(vault, shares, assetsRead, prices, currency, aprData);
      var d := vault.underlyingToken.decimals;
      && r.vault == vault && r.shares == shares
      && (assetsRead == Some(ReadOk(r.assets)) || (r.assets == 0 && (assetsRead.None? || assetsRead.value.ReadFail?)))
      && (r.assetsFormatted == "0.00" <==> r.assets == 0)
      && r.value == VaultReads.Worth(r.assets as real / Pow10(d) as real, Wallet.GetPrice(vault.underlyingToken.symbol, prices, currency))
      && r.apr == RawApr(aprData, vault.symbol).GetOr(0) as real
  {
    var assets := ReadOr0(assetsRead);
    if assets > 0 {
      FormatUnitsNotZeroPlaceholder(assets, vault.underlyingToken.decimals);
    }
  }

  /** The shares of row i are the i-th balance read, 0 when it failed or is missing. */
  lemma RowShares(vaults: seq<Vault>, balances: Option<seq<ReadResult>>, assetsResult: Option<seq<ReadResult>>,
                  prices: Option<Wallet.Prices>, currency: Wallet.Currency, aprData: Option<map<string, nat>>, i: nat)
    requires i < |vaults|
    ensures var r := PerVaultRows(vaults, balances, assetsResult, prices, currency, aprData)[i];
      At(balances, i) == Some(ReadOk(r.shares)) || (r.shares == 0 && (At(balances, i).None? || At(balances, i).value.ReadFail?))
  {
  }

  /**
   * Whatever one vault's balance or conversion read returns (a failure of
   * either alone, of both, or another value) changes that vault's row only.
   */
  lemma RowsAreLocal(vaults: seq<Vault>, balances: seq<ReadResult>, assetsResult: seq<ReadResult>,
                     prices: Option<Wallet.Prices>, currency: Wallet.Currency, aprData: Option<map<string, nat>>,
                     k: nat, i: nat, b: ReadResult, a: ReadResult)
    requires k < |balances| && k < |assetsResult| && i < |vaults| && i != k
    ensures var rows := PerVaultRows(vaults, Some(balances), Some(assetsResult), prices, currency, aprData);
      && PerVaultRows(vaults, Some(balances[k := b]), Some(assetsResult), prices, currency, aprData)[i] == rows[i]
      && PerVaultRows(vaults, Some(balances), Some(assetsResult[k := a]), prices, currency, aprData)[i] == rows[i]
      && PerVaultRows(vaults, Some(balances[k := b]), Some(assetsResult[k := a]), prices, currency, aprData)[i] == rows[i]
  {
  }

  /** Without a price response every row is worth 0. */
  lemma NoPricesNoValue(vaults: seq<Vault>, balances: Option<seq<ReadResult>>, assetsResult: Option<seq<ReadResult>>,
                        currency: Wallet.Currency, aprData: Option<map<string, nat>>)
    ensures forall r :: r in PerVaultRows(vaults, balances, assetsResult, None, currency, aprData) ==> r.value == 0.0
  {
  }

  /** Sum of the row values, in list order. */
  function TotalValue(rows: seq<PerVault>): real
    decreases |rows|
  {
    if rows == [] then 0.0 else TotalValue(rows[..|rows| - 1]) + rows[|rows| - 1].value
  }

  /** Sum of value × APR, the numerator of the weighted APR. */
  function WeightedSum(rows: seq<PerVault>): real
    decreases |rows|
  {
    if rows == [] then 0.0 else WeightedSum(rows[..|rows| - 1]) + Weigh(rows[|rows| - 1])
  }

  /** `(v.value || 0) * (v.apr || 0)`. */
  function Weigh(r: PerVault): real
  {
    r.value * r.apr
  }

  /** `weightedApr`: 0 for a total that is not positive, otherwise the value-weighted mean APR. */
  function WeightedApr(rows: seq<PerVault>): (w: real)
    ensures TotalValue(rows) <= 0.0 ==> w == 0.0
    ensures TotalValue(rows) > 0.0 ==> w * TotalValue(rows) == WeightedSum(rows)
  {
    var total := TotalValue(rows);
    if total <= 0.0 then 0.0 else WeightedSum(rows) / total
  }

  /** Every row is worth something non-negative and has an APR within [lo, hi]. */
  predicate AprsWithin(rows: seq<PerVault>, lo: real, hi: real)
  {
    forall i :: 0 <= i < |rows| ==> rows[i].value >= 0.0 && lo <= rows[i].apr <= hi
  }

  lemma {:induction false} WeightedSumBounds(rows: seq<PerVault>, lo: real, hi: real)
    requires AprsWithin(rows, lo, hi)
    ensures lo * TotalValue(rows) <= WeightedSum(rows) <= hi * TotalValue(rows)
    decreases |rows|
  {
    if rows != [] {
      var n := |rows| - 1;
      var head := rows[..n];
      assert AprsWithin(head, lo, hi) by {
        forall i | 0 <= i < |head| ensures head[i] == rows[i] { }
      }
      WeightedSumBounds(head, lo, hi);
      var last := rows[n];
      assert TotalValue(rows) == TotalValue(head) + last.value;
      assert WeightedSum(rows) == WeightedSum(head) + Weigh(last);
      StepBounds(last, TotalValue(head), WeightedSum(head), lo, hi);
    }
  }

  /** Adding one row to a sum pair within the bounds keeps it within them. */
  lemma StepBounds(r: PerVault, total: real, sum: real, lo: real, hi: real)
    requires r.value >= 0.0 && lo <= r.apr <= hi
    requires lo * total <= sum <= hi * total
    ensures lo * (total + r.value) <= sum + Weigh(r) <= hi * (total + r.value)
  {
    ScaledBetween(r.value, r.apr, lo, hi);
    SplitProduct(lo, total, r.value);
    SplitProduct(hi, total, r.value);
  }

  lemma SplitProduct(c: real, a: real, b: real)
    ensures c * (a + b) == c * a + c * b
  {
  }

  lemma ScaledBetween(v: real, a: real, lo: real, hi: real)
    requires v >= 0.0 && lo <= a <= hi
    ensures lo * v <= v * a <= hi * v
  {
    assert v * (a - lo) >= 0.0;
    assert v * (hi - a) >= 0.0;
  }

  /**
   * The weighted APR is a mean: with non-negative values and a positive
   * total it lies between the smallest and the largest APR.
   */
  lemma WeightedAprBetween(rows: seq<PerVault>, lo: real, hi: real)
    requires AprsWithin(rows, lo, hi) && TotalValue(rows) > 0.0
    ensures lo <= WeightedApr(rows) <= hi
  {
    WeightedSumBounds(rows, lo, hi);
    QuotientBetween(WeightedSum(rows), TotalValue(rows), lo, hi);
  }

  lemma QuotientBetween(num: real, t: real, lo: real, hi: real)
    requires t > 0.0 && lo * t <= num <= hi * t
    ensures lo <= num / t <= hi
  {
    assert lo == (lo * t) / t;
    assert hi == (hi * t) / t;
  }

  /** When every vault pays the same APR, that is the weighted APR. */
  lemma UniformApr(rows: seq<PerVault>, a: real)
    requires AprsWithin(rows, a, a) && TotalValue(rows) > 0.0
    ensures WeightedApr(rows) == a
  {
    WeightedAprBetween(rows, a, a);
  }
}
