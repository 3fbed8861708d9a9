/**
 * The display helpers of lib/utils/wallet.ts: address truncation, price
 * lookup, compact-number unit selection and APR formatting.
 *
 * JavaScript numbers are `real`; a non-finite number is `None`. Rendering a
 * number with `toFixed` and trimming its zeros is a parameter, since the model
 * does not do floating-point printing.
 */
module Wallet {
  import opened Wrappers
  import opened Text
  import opened Digits
  import opened Units

  /** The display currencies of the application. */
  datatype Currency = Usd | Krw

  /** CURRENCY_MAP: the symbol shown before an amount. */
  function SymbolOf(c: Currency): string
  {
    match c
    case Usd => "$"
    case Krw => "₩"
  }

  /** JavaScript's `substring` index clamping: below 0 is 0, above the length is the length. */
  function Clamp(i: int, len: nat): (k: nat)
    ensures k <= len
    ensures 0 <= i <= len ==> k == i
    ensures i < 0 ==> k == 0
    ensures i > len ==> k == len
  {
    if i < 0 then 0 else if i > len then len else i
  }

  /**
   * `truncateAddress(address, startLength, endLength)`: empty for an empty
   * address, unchanged when it is no longer than the two kept ends plus the
   * ellipsis, otherwise the kept start, "..." and the kept end.
   */
  function TruncateAddress(address: string, startLength: int, endLength: int): (r: string)
    ensures address == "" ==> r == ""
    ensures address != "" && |address| <= startLength + endLength + 3 ==> r == address
    ensures address != "" && |address| > startLength + endLength + 3 ==>
      r == address[..Clamp(startLength, |address|)] + "..." + address[Clamp(|address| - endLength, |address|)..]
  {
    if address == "" then ""
    else if |address| <= startLength + endLength + 3 then address
    else
      var n := |address|;
      address[..Clamp(startLength, n)] + "..." + address[Clamp(n - endLength, n)..]
  }

  /**
   * With non-negative lengths a truncated address is strictly shorter than
   * the original, keeps its first `startLength` and last `endLength`
   * characters, and has the ellipsis between them.
   */
  lemma TruncateShape(address: string, startLength: nat, endLength: nat)
    requires |address| > startLength + endLength + 3
    ensures var r := TruncateAddress(address, startLength, endLength);
      && |r| == startLength + endLength + 3 < |address|
      && StartsWith(r, address[..startLength])
      && EndsWith(r, address[|address| - endLength..])
      && OccursAt(r, "...", startLength)
  {
    var r := TruncateAddress(address, startLength, endLength);
    assert r == address[..startLength] + "..." + address[|address| - endLength..];
    assert r[..startLength] == address[..startLength];
    assert r[|r| - endLength..] == address[|address| - endLength..];
    assert r[startLength..startLength + 3] == "...";
  }

  /** A short address is shown whole; truncation never applies to it twice. */
  lemma TruncateIdempotent(address: string, startLength: nat, endLength: nat)
    ensures var r := TruncateAddress(address, startLength, endLength);
      TruncateAddress(r, startLength, endLength) == r
  {
  }

  /** COINGECKO_ID_MAP: the price-feed id of each token symbol that has one. */
  const CoingeckoIds: map<string, string> := map["BTC" := "bitcoin", "USDC" := "usd-coin", "USDT" := "tether"]

  /** A price response: per feed id, the price in each currency it lists. */
  type Prices = map<string, map<Currency, real>>

  /** The price recorded for `symbol` in `currency`, when every step of the lookup succeeds. */
  predicate Priced(symbol: string, prices: Prices, currency: Currency)
  {
    && symbol in CoingeckoIds
    && CoingeckoIds[symbol] in prices
    && currency in prices[CoingeckoIds[symbol]]
  }

  /**
   * `getPrice(symbol, prices, currency)`: the listed price, and 0 when the
   * prices are absent, the symbol has no feed id, the feed has no record or
   * the record no price.
   */
  function GetPrice(symbol: string, prices: Option<Prices>, currency: Currency): (p: real)
    ensures prices.Some? && Priced(symbol, prices.value, currency) ==>
      p == prices.value[CoingeckoIds[symbol]][currency]
    ensures !(prices.Some? && Priced(symbol, prices.value, currency)) ==> p == 0.0
  {
    if prices.None? then 0.0
    else if symbol !in CoingeckoIds then 0.0
    else
      var id := CoingeckoIds[symbol];
      if id !in prices.value then 0.0
      else if currency !in prices.value[id] then 0.0
      else prices.value[id][currency]
  }

  /**
   * The feed ids are keyed by the plain symbols BTC, USDC and USDT: a token
   * listed as FBTC has no feed id and is priced at 0 whatever the response.
   */
  lemma UnlistedSymbolPricedZero(prices: Option<Prices>, currency: Currency)
    ensures GetPrice("FBTC", prices, currency) == 0.0
    ensures forall p: Prices :: Priced("BTC", p, currency) ==>
      GetPrice("BTC", Some(p), currency) == p["bitcoin"][currency]
  {
    assert "FBTC" !in CoingeckoIds by {
      assert "FBTC" != "BTC" && "FBTC" != "USDC" && "FBTC" != "USDT";
    }
  }

  /** A positive whole number: a divisor. */
  type Positive = n: nat | n >= 1 witness 1

  /** One row of COMPACT_UNITS: from `limit` upwards, divide by it and append `unit`. */
  datatype Threshold = Threshold(limit: Positive, unit: string)

  /** COMPACT_UNITS for one currency, largest threshold first. */
  function CompactUnits(c: Currency): seq<Threshold>
  {
    match c
    case Usd => [Threshold(1_000_000_000_000, "t"), Threshold(1_000_000_000, "b"),
                 Threshold(1_000_000, "m"), Threshold(1_000, "k")]
    case Krw => [Threshold(1_000_000_000_000, "조"), Threshold(100_000_000, "억"),
                 Threshold(10_000, "만")]
  }

  /** The thresholds strictly decrease. */
  predicate Descending(units: seq<Threshold>)
  {
    forall i, j :: 0 <= i < j < |units| ==> units[i].limit > units[j].limit
  }

  /** Both currency tables are ordered largest first. */
  lemma TablesDescending(c: Currency)
    ensures Descending(CompactUnits(c))
  {
  }

  /** The divisor and suffix chosen for a number. */
  datatype Scale = Scale(divisor: Positive, unit: string)

  /** The scan of the loop at lib/utils/wallet.ts:113-119: the first threshold not above `abs`. */
  function SelectUnit(units: seq<Threshold>, abs: real): (s: Scale)
    decreases |units|
  {
    if units == [] then Scale(1, "")
    else if abs >= units[0].limit as real then Scale(units[0].limit, units[0].unit)
    else SelectUnit(units[1..], abs)
  }

  /** Some threshold of the table is reached by `abs`. */
  predicate Reached(units: seq<Threshold>, abs: real)
  {
    exists i :: 0 <= i < |units| && units[i].limit as real <= abs
  }

  /**
   * On a descending table the first threshold reached is the largest one
   * reached; when none is reached the number keeps divisor 1 and no suffix.
   */
  lemma {:induction false} SelectLargest(units: seq<Threshold>, abs: real)
    requires Descending(units)
    ensures var s := SelectUnit(units, abs);
      && (!Reached(units, abs) ==> s == Scale(1, ""))
      && (Reached(units, abs) ==>
            && (exists i :: 0 <= i < |units| && units[i] == Threshold(s.divisor, s.unit))
            && s.divisor as real <= abs
            && forall j :: 0 <= j < |units| && units[j].limit as real <= abs ==> units[j].limit <= s.divisor)
    decreases |units|
  {
    if units != [] {
      if abs >= units[0].limit as real {
        assert units[0] == Threshold(units[0].limit, units[0].unit);
      } else {
        var rest := units[1..];
        assert Descending(rest);
        SelectLargest(rest, abs);
        if Reached(units, abs) {
          var i :| 0 <= i < |units| && units[i].limit as real <= abs;
          assert i > 0;
          assert rest[i - 1] == units[i];
          assert Reached(rest, abs);
          var s := SelectUnit(rest, abs);
          var k :| 0 <= k < |rest| && rest[k] == Threshold(s.divisor, s.unit);
          assert units[k + 1] == rest[k];
          forall j | 0 <= j < |units| && units[j].limit as real <= abs
            ensures units[j].limit <= s.divisor
          {
            assert j > 0 && rest[j - 1] == units[j];
          }
        } else {
          forall j | 0 <= j < |rest|
            ensures rest[j].limit as real > abs
          {
            assert rest[j] == units[j + 1];
          }
        }
      }
    }
  }

  function Abs(x: real): (a: real)
    ensures a >= 0.0 && (a == x || a == -x)
  {
    if x < 0.0 then -x else x
  }

  /** A rendering of a number with a given count of decimals (`toFixed` followed by zero trimming). */
  type Render = (real, nat) -> string

  /**
   * `formatCompactNumber(value, decimals, { currency })`: "0" for a non-finite
   * value, otherwise the value divided by the chosen threshold, rendered,
   * with the threshold's suffix. Without a currency the dollar table is used.
   */
  function FormatCompactNumber(value: Option<real>, decimals: nat, currency: Option<Currency>, render: Render): (r: string)
    ensures value.None? ==> r == "0"
  {
    if value.None? then "0"
    else
      var v := value.value;
      var s := SelectUnit(CompactUnits(currency.GetOr(Usd)), Abs(v));
      render(v / s.divisor as real, decimals) + s.unit
  }

  /**
   * The compact form uses the largest threshold of the currency's table that
   * is not above |value|, and no suffix below the smallest threshold.
   */
  lemma CompactUsesLargestUnit(v: real, decimals: nat, currency: Option<Currency>, render: Render)
    ensures var table := CompactUnits(currency.GetOr(Usd));
      var r := FormatCompactNumber(Some(v), decimals, currency, render);
      && (!Reached(table, Abs(v)) ==> r == render(v, decimals))
      && forall i :: 0 <= i < |table| && table[i].limit as real <= Abs(v)
           && (forall j :: 0 <= j < |table| && table[j].limit as real <= Abs(v) ==> table[j].limit <= table[i].limit)
           ==> r == render(v / table[i].limit as real, decimals) + table[i].unit
  {
    var table := CompactUnits(currency.GetOr(Usd));
    TablesDescending(currency.GetOr(Usd));
    SelectLargest(table, Abs(v));
    var s := SelectUnit(table, Abs(v));
    if !Reached(table, Abs(v)) {
      assert v / 1 as real == v;
    }
    forall i | 0 <= i < |table| && table[i].limit as real <= Abs(v)
        && (forall j :: 0 <= j < |table| && table[j].limit as real <= Abs(v) ==> table[j].limit <= table[i].limit)
      ensures table[i] == Threshold(s.divisor, s.unit)
    {
      var k :| 0 <= k < |table| && table[k] == Threshold(s.divisor, s.unit);
      assert table[k].limit <= table[i].limit && table[i].limit <= table[k].limit;
      assert i == k;
    }
  }

  /**
   * Worked examples. 7,450,000 dollars is "7.45m" and 12,000 won "1.2만";
   * 74,500,000 won is below the 억 threshold (10^8) and is shown as 7450만,
   * while 745,000,000 won is 7.45억.
   */
  lemma CompactExamples(render: Render)
    ensures FormatCompactNumber(Some(7_450_000.0), 2, Some(Usd), render) == render(7.45, 2) + "m"
    ensures FormatCompactNumber(Some(12_000.0), 2, Some(Krw), render) == render(1.2, 2) + "만"
    ensures FormatCompactNumber(Some(745_000_000.0), 2, Some(Krw), render) == render(7.45, 2) + "억"
    ensures FormatCompactNumber(Some(74_500_000.0), 2, Some(Krw), render) == render(7450.0, 2) + "만"
    ensures FormatCompactNumber(Some(999.0), 2, None, render) == render(999.0, 2)
  {
  }

  /** The currency whose symbol is `symbol`, searched in CURRENCY_MAP order, dollars when none matches. */
  function CurrencyOf(symbol: string): (c: Currency)
    ensures SymbolOf(c) == symbol || (c == Usd && symbol != SymbolOf(Krw))
  {
    if symbol == SymbolOf(Usd) then Usd
    else if symbol == SymbolOf(Krw) then Krw
    else Usd
  }

  /** The reverse lookup inverts the symbol table. */
  lemma CurrencyOfSymbol(c: Currency)
    ensures CurrencyOf(SymbolOf(c)) == c
  {
    assert SymbolOf(Usd) != SymbolOf(Krw);
  }

  /**
   * `formatCompactCurrency(symbol, value, decimals)`: the symbol followed by
   * the compact number, using the unit table of the symbol's currency.
   */
  function FormatCompactCurrency(symbol: string, value: Option<real>, decimals: nat, render: Render): (r: string)
    ensures StartsWith(r, symbol)
    ensures r[|symbol|..] == FormatCompactNumber(value, decimals, Some(CurrencyOf(symbol)), render)
  {
    symbol + FormatCompactNumber(value, decimals, Some(CurrencyOf(symbol)), render)
  }

  /** A won amount is abbreviated with the won table, an unknown symbol with the dollar table. */
  lemma CompactCurrencyTables(symbol: string, v: real, decimals: nat, render: Render)
    ensures FormatCompactCurrency(SymbolOf(Krw), Some(v), decimals, render)
         == SymbolOf(Krw) + FormatCompactNumber(Some(v), decimals, Some(Krw), render)
    ensures symbol != SymbolOf(Krw) ==>
      FormatCompactCurrency(symbol, Some(v), decimals, render)
         == symbol + FormatCompactNumber(Some(v), decimals, None, render)
  {
    CurrencyOfSymbol(Krw);
  }

  /**
   * `formatApr(apr)`: "0.00" for an absent or zero APR, otherwise
   * `formatUnits(apr, 0)` printed with two decimals.
   */
  function FormatApr(apr: Option<nat>): (r: string)
    ensures apr.None? || apr == Some(0) ==> r == "0.00"
  {
    if apr.None? || apr.value == 0 then "0.00"
    else FormatUnits(apr.value, 0) + ".00"
  }

  /** With zero decimals `formatUnits` prints the integer's digits. */
  lemma FormatUnitsNoDecimals(n: nat)
    ensures FormatUnits(n, 0) == NatToString(n)
  {
    var digits := NatToString(n);
    assert Pad(digits, 0) == digits;
    assert digits[..|digits|] == digits;
    assert TrimZeros(digits[|digits|..]) == "";
  }

  /**
   * The raw APR is printed as an integer with ".00": the contract's 500 is
   * shown as "500.00", not divided by 100.
   */
  lemma FormatAprDigits(n: nat)
    requires n > 0
    ensures FormatApr(Some(n)) == NatToString(n) + ".00"
  {
    FormatUnitsNoDecimals(n);
  }

  lemma FormatAprFiveHundred()
    ensures FormatApr(Some(500)) == "500.00"
  {
    FormatAprDigits(500);
    assert NatToString(5) == "5";
    assert NatToString(50) == "50";
    assert NatToString(500) == "500";
  }

  lemma ZeroOver(p: real)
    requires p > 0.0
    ensures 0 as real / p == 0.0
  {
  }

  /** A digit string followed by ".00" reads back as the digits' value. */
  lemma NumberWithCents(digits: string)
    requires |digits| >= 1 && AllDigits(digits)
    ensures NumberOf(digits + ".00") == Some(Value(digits) as real)
  {
    var s := digits + ".00";
    assert IsNumeral(s) && Whole(s) == digits && Fraction(s) == "00" by {
      assert AllDigits("00");
      DigitsThenPoint(digits, "00");
      assert s == digits + "." + "00";
    }
    assert Value("00") == 0 by {
      assert "00"[..1] == "0" && "0"[..0] == "";
    }
    ZeroOver(Pow10(2) as real);
    assert DecimalValue(s) == Value(digits) as real;
  }

  /**
   * Reading the APR text back as a number gives the raw integer, 0 when it
   * is absent: `Number(formatApr(apr))` is the APR undivided.
   */
  lemma FormatAprNumber(apr: Option<nat>)
    ensures NumberOf(FormatApr(apr)) == Some(apr.GetOr(0) as real)
  {
    if apr.None? || apr.value == 0 {
      assert FormatApr(apr) == "0" + ".00";
      NumberWithCents("0");
      assert Value("0") == 0 by {
        assert "0"[..0] == "";
      }
    } else {
      FormatAprDigits(apr.value);
      NumberWithCents(NatToString(apr.value));
    }
  }
}
