/**
 * lib/utils/gas.ts: the largest amount the amount field offers, given the
 * token balance, the native balance in wei and a gas estimate in ether.
 *
 * The ERC-20 variant returns the balance string itself; the native variant
 * subtracts a buffered gas estimate from the native balance. Its result is a
 * number printed with `toFixed`, which the model keeps as the value and the
 * digit count.
 */
module Gas {
  import opened Wrappers
  import opened Digits
  import opened Units

  /** `Math.round(GAS_BUFFER * 1000)` with GAS_BUFFER = 1.2: the buffer in thousandths. */
  const BufferPermille: nat := 1200

  /** DEFAULT_GAS_ESTIMATE_ETH. */
  const DefaultGasEstimate: string := "0.002"

  /** The native token has 18 decimals. */
  const NativeDecimals: nat := 18

  /** `(gasWei * 1200n) / 1000n`: the estimate plus 20%, rounded down. */
  function GasWithBuffer(gasWei: nat): (b: nat)
    ensures gasWei <= b
    ensures 5 * b <= 6 * gasWei
    ensures 6 * gasWei < 5 * b + 5
  {
    gasWei * BufferPermille / 1000
  }

  /** The balance strings both functions answer "0.00" for before parsing anything. */
  predicate ZeroLike(balance: string)
  {
    balance == "" || balance == "0.00" || balance == "0"
  }

  /** `parseFloat(balance)` is a number greater than 0. */
  predicate PositiveBalance(balance: string)
  {
    ParseFloat(balance).Some? && ParseFloat(balance).value > 0.0
  }

  /**
   * `calculateMaxAmountWithGas(balance, nativeBalance, gasEstimate)`: "0.00"
   * for a zero-like or non-positive balance and when the gas estimate does
   * not parse (the thrown error is caught), otherwise the balance unchanged.
   * The native balance only decides whether the estimate is parsed at all.
   */
  function MaxAmountWithGas(balance: string, nativeBalance: Option<nat>, gasEstimate: string): (r: string)
    ensures r == "0.00" || r == balance
    ensures ZeroLike(balance) || !PositiveBalance(balance) ==> r == "0.00"
  {
    if ZeroLike(balance) then "0.00"
    else
      var balanceNum := ParseFloat(balance);
      if balanceNum.None? || balanceNum.value <= 0.0 then "0.00"
      else if nativeBalance.None? || nativeBalance.value == 0 then balance
      else
        match ParseUnits(gasEstimate, NativeDecimals)
        case None => "0.00"
        case Some(gasWei) =>
          var gasWithBuffer := GasWithBuffer(gasWei);
          if nativeBalance.value < gasWithBuffer then balance else balance
  }

  /**
   * A positive balance is offered whole, whether or not the native balance
   * covers the buffered gas: the comparison against the buffer changes
   * nothing.
   */
  lemma MaxAmountIsBalance(balance: string, nativeBalance: Option<nat>, gasEstimate: string)
    requires PositiveBalance(balance)
    requires nativeBalance.None? || nativeBalance == Some(0) || ParseUnits(gasEstimate, NativeDecimals).Some?
    ensures MaxAmountWithGas(balance, nativeBalance, gasEstimate) == balance
  {
  }

  /** With a parseable estimate the native balance has no influence on the result. */
  lemma MaxAmountIgnoresNative(balance: string, a: Option<nat>, b: Option<nat>, gasEstimate: string)
    requires ParseUnits(gasEstimate, NativeDecimals).Some?
    ensures MaxAmountWithGas(balance, a, gasEstimate) == MaxAmountWithGas(balance, b, gasEstimate)
  {
  }

  /** The default estimate is 0.002 ether, 2·10^15 wei, buffered to 2.4·10^15 wei. */
  lemma DefaultEstimate()
    ensures ParseUnits(DefaultGasEstimate, NativeDecimals) == Some(2_000_000_000_000_000)
    ensures GasWithBuffer(2_000_000_000_000_000) == 2_400_000_000_000_000
  {
    DefaultInWei(NativeDecimals);
    PowFifteen();
  }

  /** At any precision of at least three digits, 0.002 is 2·10^(decimals - 3) base units. */
  lemma DefaultInWei(decimals: nat)
    requires decimals >= 3
    ensures ParseUnits(DefaultGasEstimate, decimals) == Some(2 * Pow10(decimals - 3))
  {
    DefaultPieces();
    ParseUnitsValue(DefaultGasEstimate, decimals, 0, "002");
  }

  /** "0.002" has whole part "0" and fraction "002", worth 2. */
  lemma DefaultPieces()
    ensures IsDecimal(DefaultGasEstimate)
    ensures Whole(DefaultGasEstimate) == "0" && Fraction(DefaultGasEstimate) == "002"
    ensures Value("0") == 0 && Value("002") == 2 && TrimZeros("002") == "002"
  {
    assert AllDigits("0") && AllDigits("002");
    DigitsThenPoint("0", "002");
    assert DefaultGasEstimate == "0" + "." + "002";
    assert "002"[..2] == "00" && "00"[..1] == "0" && "0"[..0] == "";
  }

  lemma PowFifteen()
    ensures Pow10(15) == 1_000_000_000_000_000
  {
    assert Pow10(5) == 100_000;
    PowSplit(5, 5);
    PowSplit(10, 5);
  }

  /** A printed amount: the literal "0.00", or `value.toFixed(places)`. */
  datatype Amount = ZeroAmount | Fixed(value: real, places: nat)

  /**
   * `balance.split('.')[1]?.length || 6`: the length of the text between the
   * first point and the next one (or the end), 6 when there is no point or
   * that text is empty.
   */
  function DecimalPlaces(balance: string): (p: nat)
    ensures 1 <= p
    ensures Find(balance, '.') == |balance| ==> p == 6
  {
    var k := Find(balance, '.');
    if k == |balance| then 6
    else
      var after := balance[k + 1..];
      var segment := after[..Find(after, '.')];
      if |segment| == 0 then 6 else |segment|
  }

  /** The first '.' of `w + "." + rest` is the one after `w` when `w` has none. */
  lemma FindAfter(w: string, rest: string)
    requires '.' !in w
    ensures Find(w + "." + rest, '.') == |w|
  {
    var s := w + "." + rest;
    assert s[|w|] == '.';
    assert forall i :: 0 <= i < |w| ==> s[i] == w[i];
  }

  /**
   * The count is the length of the first fraction segment: for a balance
   * `w.f` (possibly followed by a further `.`-part), with `f` non-empty and
   * free of points, it is exactly |f|.
   */
  lemma DecimalPlacesOf(w: string, f: string, t: string)
    requires '.' !in w && '.' !in f && |f| > 0
    requires t == "" || t[0] == '.'
    ensures DecimalPlaces(w + "." + f + t) == |f|
  {
    var s := w + "." + f + t;
    assert s == w + "." + (f + t);
    FindAfter(w, f + t);
    var after := s[|w| + 1..];
    assert after == f + t;
    if t == "" {
      assert after == f;
      assert forall i :: 0 <= i < |after| ==> after[i] == f[i];
      assert Find(after, '.') == |f|;
    } else {
      assert t == "" + "." + t[1..];
      assert f + t == f + "." + t[1..];
      FindAfter(f, t[1..]);
    }
    assert after[..|f|] == f;
  }

  function Max(a: real, b: real): real
  {
    if a >= b then a else b
  }

  /** 10^18: wei per ether. */
  const WeiPerEther: nat := 1_000_000_000_000_000_000

  lemma WeiPerEtherIsPow()
    ensures Pow10(NativeDecimals) == WeiPerEther
  {
    assert Pow10(3) == 1000;
    assert Pow10(6) == 1_000_000 by { PowSplit(3, 3); }
    PowSplit(6, 6);
    PowSplit(12, 6);
  }

  /** `parseFloat(formatUnits(n, 18))`: an integer wei amount in ether, exactly. */
  function InEther(n: nat): (x: real)
    ensures x == n as real / WeiPerEther as real
  {
    FormatUnitsValue(n, NativeDecimals);
    WeiPerEtherIsPow();
    ParseFloat(FormatUnits(n, NativeDecimals)).value
  }

  /**
   * The arithmetic of lib/utils/gas.ts:94-110 once the guards have passed:
   * both wei amounts in ether, the difference floored at 0, printed with the
   * balance's digit count capped at 6.
   */
  function AfterGas(native: nat, gasWithBuffer: nat, places: nat): (r: Amount)
    requires places >= 1
    ensures r.Fixed? ==> r.value >= 0.0 && 1 <= r.places <= 6
    ensures r.Fixed? ==> r.places == if places < 6 then places else 6
    ensures native > 0 ==> r.Fixed?
  {
    var nativeNum := InEther(native);
    if nativeNum <= 0.0 then ZeroAmount
    else
      var gasNum := InEther(gasWithBuffer);
      var maxAmount := Max(0.0, nativeNum - gasNum);
      Fixed(maxAmount, if places < 6 then places else 6)
  }

  /**
   * `calculateMaxNativeAmountWithGas(balance, nativeBalance, gasEstimate)`:
   * "0.00" for a zero-like or non-positive balance, for an absent or zero
   * native balance and when the estimate does not parse; otherwise the
   * native balance less the buffered estimate.
   */
  function MaxNativeAmountWithGas(balance: string, nativeBalance: Option<nat>, gasEstimate: string): (r: Amount)
    ensures ZeroLike(balance) || nativeBalance.None? || nativeBalance == Some(0) ==> r == ZeroAmount
    ensures !PositiveBalance(balance) || ParseUnits(gasEstimate, NativeDecimals).None? ==> r == ZeroAmount
    ensures r.Fixed? ==> r.value >= 0.0 && 1 <= r.places <= 6
    ensures r.Fixed? ==>
      && nativeBalance.Some? && ParseUnits(gasEstimate, NativeDecimals).Some?
      && r == AfterGas(nativeBalance.value, GasWithBuffer(ParseUnits(gasEstimate, NativeDecimals).value), DecimalPlaces(balance))
    ensures (&& !ZeroLike(balance) && PositiveBalance(balance) && nativeBalance.Some? && nativeBalance.value > 0
             && ParseUnits(gasEstimate, NativeDecimals).Some?) ==> r.Fixed?
  {
    if ZeroLike(balance) then ZeroAmount
    else if nativeBalance.None? || nativeBalance.value == 0 then ZeroAmount
    else
      var balanceNum := ParseFloat(balance);
      if balanceNum.None? || balanceNum.value <= 0.0 then ZeroAmount
      else
        match ParseUnits(gasEstimate, NativeDecimals)
        case None => ZeroAmount
        case Some(gasWei) => AfterGas(nativeBalance.value, GasWithBuffer(gasWei), DecimalPlaces(balance))
  }

  /**
   * What is offered is exactly the native balance less the buffered
   * estimate (0 if the gas would take all of it), in ether, and never more
   * than the native balance itself.
   */
  lemma AfterGasMeaning(native: nat, gasWithBuffer: nat, places: nat)
    requires places >= 1
    requires AfterGas(native, gasWithBuffer, places).Fixed?
    ensures var r := AfterGas(native, gasWithBuffer, places);
      var p := WeiPerEther as real;
      && (native >= gasWithBuffer ==> r.value == (native - gasWithBuffer) as real / p)
      && (native < gasWithBuffer ==> r.value == 0.0)
      && r.value <= native as real / p
  {
    DiffOver(native, gasWithBuffer, WeiPerEther as real);
  }

  lemma DiffOver(a: nat, b: nat, p: real)
    requires p > 0.0
    ensures a >= b ==> a as real / p - b as real / p == (a - b) as real / p
    ensures a < b ==> a as real / p - b as real / p < 0.0
    ensures b as real / p >= 0.0
  {
  }

  /** The digit count follows the balance's fraction, and is 6 without a fraction. */
  lemma PlacesExamples()
    ensures DecimalPlaces("1.5") == 1
    ensures DecimalPlaces("42") == 6
  {
    assert Find("1.5", '.') == 1;
    assert "1.5"[2..] == "5";
    assert Find("5", '.') == 1;
    assert Find("42", '.') == 2;
  }

  /** A long fraction is printed with 6 digits, whatever the native balance. */
  lemma PlacesCapped(native: nat, gasWithBuffer: nat)
    requires native > 0
    ensures AfterGas(native, gasWithBuffer, 8).places == 6
  {
  }
}
