/**
 * components/vaults/VaultListContainer.tsx and
 * components/vaults/MyVaultListContainer.tsx: the search over the vault
 * list, what each list shows (error, loading, empty, cards) and the
 * figures on each card.
 */
module VaultLists {
  import opened Wrappers
  import opened Text
  import opened Units
  import opened Chain
  import opened Lists
  import Wallet
  import VaultReads
  import Summary

  /** The query occurs, ignoring case, in the vault's symbol, its name or its token's symbol. */
  predicate Matches(v: Vault, query: string)
  {
    var q := Lower(query);
    Contains(Lower(v.symbol), q) || Contains(Lower(v.name), q) || Contains(Lower(v.underlyingToken.symbol), q)
  }

  /** `items.filter(...)` with the three-field match on each item's vault. */
  function Keep<T>(items: seq<T>, vaultOf: T -> Vault, query: string): seq<T>
    decreases |items|
  {
    if items == [] then []
    else
      var rest := Keep(items[..|items| - 1], vaultOf, query);
      var last := items[|items| - 1];
      if Matches(vaultOf(last), query) then rest + [last] else rest
  }

  /** A vault as the item of the list of all vaults. */
  function Itself(v: Vault): Vault
  {
    v
  }

  /** `filteredVaults`: everything for an empty query, the matching items otherwise. */
  function Search<T>(items: seq<T>, vaultOf: T -> Vault, query: string): seq<T>
  {
    if query == "" then items else Keep(items, vaultOf, query)
  }

  /** The search keeps exactly the matching items, in their order. */
  lemma {:induction false} KeepMeaning<T>(items: seq<T>, vaultOf: T -> Vault, query: string)
    ensures forall x :: x in Keep(items, vaultOf, query) <==> x in items && Matches(vaultOf(x), query)
    ensures Subsequence(Keep(items, vaultOf, query), items)
    ensures forall x :: multiset(Keep(items, vaultOf, query))[x] == if Matches(vaultOf(x), query) then multiset(items)[x] else 0
    decreases |items|
  {
    if items != [] {
      var init := items[..|items| - 1];
      var last := items[|items| - 1];
      KeepMeaning(init, vaultOf, query);
      assert items == init + [last];
      assert multiset(items) == multiset(init) + multiset{last};
      var rest := Keep(init, vaultOf, query);
      if Matches(vaultOf(last), query) {
        assert Keep(items, vaultOf, query) == rest + [last];
        assert multiset(rest + [last]) == multiset(rest) + multiset{last};
        assert Subsequence(rest + [last], items) by {
          assert (rest + [last])[..|rest|] == rest;
        }
      } else {
        assert Keep(items, vaultOf, query) == rest;
        SubsequenceExtend(rest, init, last);
      }
    }
  }

  /** Every vault matches the empty query, so the early return for it changes nothing. */
  lemma {:induction false} EmptyQueryKeepsAll<T>(items: seq<T>, vaultOf: T -> Vault)
    ensures Keep(items, vaultOf, "") == items
    decreases |items|
  {
    if items != [] {
      var init := items[..|items| - 1];
      EmptyQueryKeepsAll(init, vaultOf);
      ContainsEmpty(Lower(vaultOf(items[|items| - 1]).symbol));
      assert Lower("") == "";
      assert items == init + [items[|items| - 1]];
    }
  }

  /** The match only sees the lower-cased query. */
  lemma {:induction false} KeepByLowerQuery<T>(items: seq<T>, vaultOf: T -> Vault, q1: string, q2: string)
    requires Lower(q1) == Lower(q2)
    ensures Keep(items, vaultOf, q1) == Keep(items, vaultOf, q2)
    decreases |items|
  {
    if items != [] {
      KeepByLowerQuery(items[..|items| - 1], vaultOf, q1, q2);
    }
  }

  /** Typing the query in capitals finds the same vaults. */
  lemma SearchIgnoresCase<T>(items: seq<T>, vaultOf: T -> Vault, query: string)
    ensures Search(items, vaultOf, Upper(query)) == Search(items, vaultOf, query)
  {
    LowerOfUpper(query);
    KeepByLowerQuery(items, vaultOf, Upper(query), query);
  }

  /** The BTC vault of the vault list, whose token is named FBTC. */
  const BtcVault: Vault := Vault("BTC Vault", "BTC", "0x1949", Token("Fake Bitcoin", "FBTC", "0x1cd5", 18))

  /** The USDT vault of the vault list, whose token is named FUSDT. */
  const UsdtVault: Vault := Vault("USDT Vault", "USDT", "0x69a7", Token("Fake USDT", "FUSDT", "0x0866", 6))

  lemma MatchFacts()
    ensures Matches(BtcVault, "fbtc") && !Matches(UsdtVault, "fbtc")
    ensures Matches(BtcVault, "vault") && Matches(UsdtVault, "vault")
  {
    BtcMatches();
    UsdtMissesFbtc();
    VaultMatchesBoth();
  }

  lemma BtcMatches()
    ensures Matches(BtcVault, "fbtc")
  {
    assert Lower("fbtc") == "fbtc" && Lower("FBTC") == "fbtc";
    assert OccursAt(Lower("FBTC"), "fbtc", 0);
  }

  lemma UsdtMissesFbtc()
    ensures !Matches(UsdtVault, "fbtc")
  {
    assert Lower("fbtc") == "fbtc";
    assert Lower("USDT") == "usdt" && Lower("USDT Vault") == "usdt vault" && Lower("FUSDT") == "fusdt";
    SecondCharAbsent("usdt", "fbtc");
    SecondCharAbsent("usdt vault", "fbtc");
    SecondCharAbsent("fusdt", "fbtc");
  }

  lemma VaultMatchesBoth()
    ensures Matches(BtcVault, "vault") && Matches(UsdtVault, "vault")
  {
    assert Lower("vault") == "vault" && Lower("BTC Vault") == "btc vault" && Lower("USDT Vault") == "usdt vault";
    assert OccursAt(Lower("BTC Vault"), "vault", 4);
    assert OccursAt(Lower("USDT Vault"), "vault", 5);
  }

  /** Searching "fbtc" finds the BTC vault by its token, and "vault" finds both vaults by name. */
  lemma SearchExample()
    ensures Search([BtcVault, UsdtVault], Itself, "fbtc") == [BtcVault]
    ensures Search([BtcVault, UsdtVault], Itself, "vault") == [BtcVault, UsdtVault]
  {
    MatchFacts();
    assert [BtcVault, UsdtVault][..1] == [BtcVault] && [BtcVault][..0] == [];
    assert Keep([BtcVault], Itself, "fbtc") == [BtcVault];
    assert Keep([BtcVault], Itself, "vault") == [BtcVault];
  }

  /** A text without the second character of `sub` does not contain `sub`. */
  lemma SecondCharAbsent(s: string, sub: string)
    requires |sub| >= 2 && forall k :: 0 <= k < |s| ==> s[k] != sub[1]
    ensures !Contains(s, sub)
  {
    forall k | 0 <= k <= |s| - |sub|
      ensures !OccursAt(s, sub, k)
    {
      assert s[k..k + |sub|][1] == s[k + 1];
    }
  }

  // ---- the list of all vaults ----

  /** `formatVaultAPR(symbol)`: "0.00" without APR data or for a zero APR, `formatApr` otherwise. */
  function FormatVaultApr(aprData: Option<map<string, nat>>, symbol: string): string
  {
    if aprData.None? || symbol !in aprData.value || aprData.value[symbol] == 0 then "0.00"
    else Wallet.FormatApr(Some(aprData.value[symbol]))
  }

  /** The guard repeats what `formatApr` does on its own: the text is `formatApr` of the raw APR. */
  lemma FormatVaultAprIsFormatApr(aprData: Option<map<string, nat>>, symbol: string)
    ensures FormatVaultApr(aprData, symbol) == Wallet.FormatApr(Summary.RawApr(aprData, symbol))
    ensures Summary.RawApr(aprData, symbol).GetOr(0) == 0 ==> FormatVaultApr(aprData, symbol) == "0.00"
  {
  }

  /** `isVaultDataReady(vault)`: the vault has an APR entry and an assets entry, and prices are loaded. */
  predicate IsVaultDataReady(v: Vault, aprData: Option<map<string, nat>>, assetAmounts: Option<map<string, string>>,
                             prices: Option<Wallet.Prices>)
  {
    aprData.Some? && v.symbol in aprData.value && assetAmounts.Some? && v.symbol in assetAmounts.value && prices.Some?
  }

  /** Once both batches and the prices have arrived, every vault of the list is ready. */
  lemma ReadyOnceLoaded(vaults: seq<Vault>, decimalsMap: map<string, nat>, aprReads: seq<ReadResult>,
                        assetReads: seq<ReadResult>, prices: Wallet.Prices, i: nat)
    requires |aprReads| == |vaults| && |assetReads| == |vaults| && i < |vaults|
    ensures IsVaultDataReady(vaults[i], VaultReads.VaultAprs(vaults, Some(aprReads)),
                             VaultReads.VaultAssets(vaults, decimalsMap, Some(assetReads)), Some(prices))
  {
  }

  /** One entry of the list: a placeholder while the vault's data loads, or its card. */
  datatype Card = Skeleton(vault: Vault) | VaultCard(vault: Vault, tvl: string, apr: string)

  /** What the list area shows. */
  datatype ListView = LoadFailed | NoVaultsFound | Cards(cards: seq<Card>)

  function CardOf(v: Vault, aprData: Option<map<string, nat>>, assetAmounts: Option<map<string, string>>,
                  prices: Option<Wallet.Prices>): Card
  {
    if !IsVaultDataReady(v, aprData, assetAmounts, prices) then Skeleton(v)
    else VaultCard(v, assetAmounts.value[v.symbol], FormatVaultApr(aprData, v.symbol))
  }

  /**
   * The list of all vaults: the error box when any of the three reads
   * failed, "No vaults found" when the search leaves nothing, otherwise one
   * entry per found vault in list order.
   */
  function AllVaultsView(vaults: seq<Vault>, query: string, aprData: Option<map<string, nat>>,
                         assetAmounts: Option<map<string, string>>, prices: Option<Wallet.Prices>,
                         isErrorApr: bool, isErrorAssets: bool, isErrorPrices: bool): (r: ListView)
    ensures isErrorApr || isErrorAssets || isErrorPrices <==> r == LoadFailed
    ensures !(isErrorApr || isErrorAssets || isErrorPrices) ==> (r == NoVaultsFound <==> Search(vaults, Itself, query) == [])
    ensures r.Cards? ==> |r.cards| >= 1 && |r.cards| == |Search(vaults, Itself, query)|
    ensures r.Cards? ==> forall i :: 0 <= i < |r.cards| ==>
      r.cards[i].vault == Search(vaults, Itself, query)[i]
      && (r.cards[i].Skeleton? <==> !IsVaultDataReady(r.cards[i].vault, aprData, assetAmounts, prices))
    ensures r.Cards? ==> forall i :: 0 <= i < |r.cards| && r.cards[i].VaultCard? ==>
      && IsVaultDataReady(r.cards[i].vault, aprData, assetAmounts, prices)
      && r.cards[i].tvl == assetAmounts.value[r.cards[i].vault.symbol]
      && r.cards[i].apr == FormatVaultApr(aprData, r.cards[i].vault.symbol)
  {
    var found := Search(vaults, Itself, query);
    if isErrorApr || isErrorAssets || isErrorPrices then LoadFailed
    else if found == [] then NoVaultsFound
    else Cards(seq(|found|, i requires 0 <= i < |found| => CardOf(found[i], aprData, assetAmounts, prices)))
  }

  /** With no error and an empty query, every vault of the list has an entry. */
  lemma AllVaultsListed(vaults: seq<Vault>, aprData: Option<map<string, nat>>, assetAmounts: Option<map<string, string>>,
                        prices: Option<Wallet.Prices>)
    requires vaults != []
    ensures var r := AllVaultsView(vaults, "", aprData, assetAmounts, prices, false, false, false);
      r.Cards? && |r.cards| == |vaults| && forall i :: 0 <= i < |vaults| ==> r.cards[i].vault == vaults[i]
  {
  }

  // ---- the list of the caller's vaults ----

  /** `suppliedVaults`: the rows of the summary with assets in them, in order. */
  function Supplied(rows: seq<Summary.PerVault>): seq<Summary.PerVault>
    decreases |rows|
  {
    if rows == [] then []
    else
      var rest := Supplied(rows[..|rows| - 1]);
      var last := rows[|rows| - 1];
      if last.assets > 0 then rest + [last] else rest
  }

  lemma {:induction false} SuppliedMeaning(rows: seq<Summary.PerVault>)
    ensures forall r :: r in Supplied(rows) <==> r in rows && r.assets > 0
    ensures Subsequence(Supplied(rows), rows)
    ensures forall r :: multiset(Supplied(rows))[r] == if r.assets > 0 then multiset(rows)[r] else 0
    decreases |rows|
  {
    if rows != [] {
      var init := rows[..|rows| - 1];
      var last := rows[|rows| - 1];
      SuppliedMeaning(init);
      assert rows == init + [last];
      assert multiset(rows) == multiset(init) + multiset{last};
      var rest := Supplied(init);
      if last.assets > 0 {
        assert Supplied(rows) == rest + [last];
        assert multiset(rest + [last]) == multiset(rest) + multiset{last};
        assert Subsequence(rest + [last], rows) by {
          assert (rest + [last])[..|rest|] == rest;
        }
      } else {
        assert Supplied(rows) == rest;
        SubsequenceExtend(rest, init, last);
      }
    }
  }

  /** The vault of a summary row. */
  function VaultOf(r: Summary.PerVault): Vault
  {
    r.vault
  }

  /** `parseFloat(text || '0')`. */
  function AmountOf(text: string): Option<real>
  {
    ParseFloat(if text == "" then "0" else text)
  }

  /** One card of the caller's list: the supplied text, its worth at the current price (NaN as None), the APR text. */
  datatype Row = Row(vault: Vault, suppliedAmount: string, value: Option<real>, apr: string)

  /** The card of one supplied vault. */
  function RowOf(r: Summary.PerVault, aprData: Option<map<string, nat>>, prices: Option<Wallet.Prices>,
                 currency: Wallet.Currency): Row
  {
    var tokenPrice := if prices.Some? then Wallet.GetPrice(r.vault.underlyingToken.symbol, prices, currency) else 0.0;
    var amount := AmountOf(r.assetsFormatted);
    Row(r.vault, r.assetsFormatted, if amount.Some? then Some(VaultReads.Worth(amount.value, tokenPrice)) else None,
        FormatVaultApr(aprData, r.vault.symbol))
  }

  /** What the caller's list shows. */
  datatype MyView = Loading | NoneSupplied | NoneFound | Rows(rows: seq<Row>)

  /**
   * The caller's list: placeholders while APRs or prices load, then "No
   * vaults supplied yet" without a supplied vault, then the search over the
   * supplied vaults only.
   */
  function MyVaultsView(rows: seq<Summary.PerVault>, query: string, aprData: Option<map<string, nat>>,
                        prices: Option<Wallet.Prices>, currency: Wallet.Currency,
                        isLoadingApr: bool, isLoadingPrices: bool): (v: MyView)
    ensures isLoadingApr || isLoadingPrices <==> v == Loading
    ensures v == NoneSupplied <==> !isLoadingApr && !isLoadingPrices && Supplied(rows) == []
    ensures v == NoneFound <==>
      !isLoadingApr && !isLoadingPrices && Supplied(rows) != [] && Search(Supplied(rows), VaultOf, query) == []
    ensures v.Rows? ==> |v.rows| == |Search(Supplied(rows), VaultOf, query)| >= 1
    ensures v.Rows? ==> forall i :: 0 <= i < |v.rows| ==>
      v.rows[i] == RowOf(Search(Supplied(rows), VaultOf, query)[i], aprData, prices, currency)
  {
    if isLoadingApr || isLoadingPrices then Loading
    else
      var supplied := Supplied(rows);
      if supplied == [] then NoneSupplied
      else
        var found := Search(supplied, VaultOf, query);
        if found == [] then NoneFound
        else Rows(seq(|found|, i requires 0 <= i < |found| => RowOf(found[i], aprData, prices, currency)))
  }

  /** Only vaults the caller has assets in are listed, and only those that match the query. */
  lemma MyRowsAreSupplied(rows: seq<Summary.PerVault>, query: string, r: Summary.PerVault)
    requires r in Search(Supplied(rows), VaultOf, query)
    ensures r in rows && r.assets > 0
    ensures query != "" ==> Matches(r.vault, query)
  {
    SuppliedMeaning(rows);
    if query != "" {
      KeepMeaning(Supplied(rows), VaultOf, query);
    }
  }

  /**
   * The value on a card of a vault the summary computed is the summary's
   * own value for that vault: both read the formatted assets back and
   * multiply by the same price.
   */
  lemma RowValueIsSummaryValue(vaults: seq<Vault>, balances: Option<seq<ReadResult>>, assetsResult: Option<seq<ReadResult>>,
                               prices: Option<Wallet.Prices>, currency: Wallet.Currency,
                               aprData: Option<map<string, nat>>, i: nat)
    requires i < |vaults|
    ensures var r := Summary.PerVaultRows(vaults, balances, assetsResult, prices, currency, aprData)[i];
      RowOf(r, aprData, prices, currency).value == Some(r.value)
  {
    var r := Summary.PerVaultRows(vaults, balances, assetsResult, prices, currency, aprData)[i];
    var d := vaults[i].underlyingToken.decimals;
    var x := Summary.Tokens(r.assets, d);
    assert r.assetsFormatted == Summary.FormattedAssets(r.assets, d);
    assert r.assetsFormatted != "" by {
      if r.assets > 0 {
        FormatUnitsValue(r.assets, d);
      }
    }
    assert AmountOf(r.assetsFormatted) == Some(x);
  }
}
