# B-Harvest vault front end: the logic under the React components, in Dafny

This project models the sequential, deterministic logic of a small DeFi vault front end. The app lets a user supply tokens to ERC-4626 style vaults and withdraw them, lists the vaults and the user's positions, and formats amounts and prices. The React hooks and components are modelled as pure functions over plain values.

Every chain read, transaction submission and receipt wait becomes an input. A read is `ReadOk(n)` or `ReadFail`. A write is a hash or a thrown error. The allowance polls are an oracle from the attempt index to what that read returned. Asynchronous flows return their result together with the trace of effects they caused: network switches, submissions, polls and waits. Portfolio arithmetic is over `real`.

Modules, by source file:

- `Retry` (retry.dfy): `retryUntilCondition` and `retryFunction`. Both are one generic loop, `Drive`, that records `Eval`, `OnRetry(k)` and `Wait(ms)` events.
- `Errors` (errors.dfy): the error classifier. An error object is a record of optional fields.
- `Allowance` (allowance.dfy): `useAllowance`, meaning the derived `currentAllowance`, `requiredAmount` and `needsApproval`, and the `approveAsync` sequence.
- `Transactions` (transactions.dfy): `depositAsync` and `withdrawAsync`.
- `Buttons` (buttons.dfy): the supply and withdraw buttons, covering the button choice, enabling, `exceedsBalance`, and the click handlers with their toasts.
- `Summary` (summary.dfy): `useUserSummary`.
- `VaultReads` (vaultreads.dfy): `useVaultAprs`, `useVaultAssets`, `useVaultBalance` and `useTotalSupplyValue`.
- `Wallet` (wallet.dfy): `truncateAddress`, `getPrice`, `formatCompactNumber`, `formatCompactCurrency` and `formatApr`.
- `Gas` (gas.dfy): `calculateMaxAmountWithGas` and `calculateMaxNativeAmountWithGas`.
- `Keypad` (keypad.dfy): the numeric keypad's key handler.
- `Toasts` (toasts.dfy): the toast list.
- `VaultLists` (vaultlists.dfy): the all-vaults and my-vaults lists.
- `Nav` (nav.dfy): the bottom navigation.
- `Connectors` (connectors.dfy): the wallet dialog's connector list.
- `Provider`, `TxModal` and `WalletModal` (modals.dfy): the context hook shared by the two dialogs, and the two dialog contexts.
- Supporting modules:
  - `Units` (units.dfy) models viem's `parseUnits`/`formatUnits` and JavaScript's `Number`/`parseFloat` on plain decimal strings.
  - `Digits` models digit strings and integer printing.
  - `Text` models ASCII case mapping and `includes`/`startsWith`.
  - `Lists` defines subsequences.
  - `Chain` holds the shared read, effect and decimals types.
  - `Wrappers` holds `Option` and `Result`.

The vault list, the token decimals map and the price response are parameters. The repository's own configuration does not resolve:

- `lib/config/vaults.ts:25,32,39` look up the tokens `'BTC'`, `'USDT'` and `'USDC'`, but `lib/config/tokens.ts:15,22,29` names them `FBTC`, `FUSDT` and `FUSDC`.
- `decimalsMap` is imported but not defined in `lib/config/tokens.ts`.

The examples in the proofs use vaults whose tokens carry the `F` names.

Where the code and its comments or documentation disagree, the model follows the code:

- `formatApr(500)` is `"500.00"`, not the `"5.00"` its doc comment promises (`Wallet.FormatAprFiveHundred`).
- The buttons show the raw `e.message` in the error toast, not the classifier's text (`Buttons.RawMessageShown`).
- Deposit and withdraw report success on the returned hash without waiting for a receipt (`Transactions.SuccessWithoutReceipt`).
- The comment at `lib/utils/wallet.ts:82` says 74,500,000 won is shown as 7.45억. By the table it is below the 억 threshold of 10^8, so it is shown as 7450만 (`Wallet.CompactExamples`).
- `BottomNav` hides the bar on `/vaults/my` as well as on vault pages, since `my` is one path segment (`Nav.HiddenExamples`).

## Model

| member | source | states |
|---|---|---|
| Retry.DefaultsLaws | lib/utils/retry.ts:40-45 | Leaving a field out is the same as passing its default (5 attempts, 200 ms, no backoff); options given in full are used as given. |
| Retry.DriveShape | lib/utils/retry.ts:47-68 | The loop records a schedule of n evaluations, with n at most the attempts left. Every evaluation but the last failed. The loop stops on the first final answer, or runs out after exactly the remaining attempts holding the last failure. |
| Retry.ScheduleCounts | lib/utils/retry.ts:47-64 | A schedule of n evaluations holds n evaluations, n-1 `onRetry` calls and n-1 waits. |
| Retry.RetryUntilCondition | lib/utils/retry.ts:36-69 | Resolves exactly when the last evaluation held and all earlier ones were false. Rethrows a thrown condition error. Fails with "Condition not met after N attempts" only after all attempts were false. Evaluations never exceed maxRetries. |
| Retry.FirstSuccessAt | lib/utils/retry.ts:47-63 | If the condition first holds at evaluation k ≤ maxRetries, there are exactly k evaluations and k-1 `onRetry` calls and waits. |
| Retry.ExhaustsAfterAll | lib/utils/retry.ts:56-68 | If all maxRetries evaluations are false, the loop fails with the exhaustion message after maxRetries evaluations and maxRetries-1 waits, and the trace ends with an evaluation, not a wait. |
| Retry.NoAttempts | lib/utils/retry.ts:47-68 | With maxRetries ≤ 0 nothing is evaluated and the exhaustion error is immediate. |
| Retry.RetryAnnouncements | lib/utils/retry.ts:56-63 | `onRetry` receives 1, 2, 3, … in strictly increasing order. Each call is immediately followed by its wait: retryDelay·2^(k-1) with backoff, otherwise retryDelay. |
| Retry.ScheduleWaits | lib/utils/retry.ts:58-60 | Without backoff every wait lasts retryDelay. |
| Retry.BackoffDoubles | lib/utils/retry.ts:58-59 | With backoff each wait is twice the previous one. |
| Retry.RetryFunction | lib/utils/retry.ts:78-112 | Returns the first value that did not throw. After all attempts threw, it rethrows the last error, or its own "Function failed after N attempts" when that error is falsy. |
| Errors.Plain | lib/utils/error.ts:10-12 | `new Error(m)` carries the message m and no code. |
| Errors.Folded | lib/utils/error.ts:10-12 | A folded field is its text with each character lower-cased (ASCII): same length, character by character, no upper-case ASCII letter left, and "" when the field is missing. |
| Text.LowerOfUpper | components/vaults/VaultListContainer.tsx:27-31 | Lower-casing forgets case: upper-casing first changes nothing. |
| Errors.GetErrorMessage | lib/utils/error.ts:68-82 | The result is always "", "Insufficient balance" or the default message. It is "" exactly for a rejection, the balance text exactly for a non-rejected insufficient-balance error, and the default for a missing error. |
| Errors.MissingErrorIsNeither | lib/utils/error.ts:68-69 | A missing error is neither a rejection nor insufficient balance, and yields the default message. |
| Errors.RejectedIff | lib/utils/error.ts:16-30 | An error is a rejection iff its code is 4001 or 'ACTION_REJECTED', or its name is one of the two rejection names, or its folded text mentions "rejected", "denied" or "user cancelled". |
| Errors.RejectionPhrases | lib/utils/error.ts:21-25 | The "user rejected" and "user denied" tests are subsumed by "rejected" and "denied". |
| Errors.InsufficientIff | lib/utils/error.ts:46-61 | An error is insufficient balance iff its folded text, including `data.message`, contains one of the balance phrases, or contains "execution reverted" together with "balance" or "insufficient". |
| Errors.BalancePhrases | lib/utils/error.ts:50-52 | The longer "… exceeds balance" phrases are subsumed by "exceeds balance". |
| Errors.RejectedInMessage | lib/utils/error.ts:10-24 | A message mentioning "rejected" makes any error a rejection. |
| Errors.InsufficientInData | lib/utils/error.ts:42-48 | A `data.message` mentioning "insufficient funds" makes the error insufficient balance. |
| Errors.RejectionPrecedence | lib/utils/error.ts:71-78 | An error that is both a rejection and insufficient balance yields "". |
| Errors.CaseInsensitive | lib/utils/error.ts:10-43 | Upper-casing every text field changes neither verdict nor message. |
| Allowance.CleanAmountShape | lib/hooks/useAllowance.ts:39 | The cleaned amount is a numeral that `Number` reads: positive, or "0". Cleaning twice is cleaning once. |
| Allowance.CurrentAllowance | lib/hooks/useAllowance.ts:34-36 | A successful read is the current allowance; it is 0 exactly when there is no data or the read failed. |
| Allowance.RequiredAmountValue | lib/hooks/useAllowance.ts:38-41 | A non-positive amount requires 0. A positive amount that parses requires its value scaled by 10^decimals. |
| Allowance.RequiredOfPositive | lib/hooks/useAllowance.ts:39-40 | For a positive amount that parses, the amount's value is exactly required / 10^decimals. |
| Allowance.AllowanceCheck | lib/hooks/useAllowance.ts:89-97 | A poll succeeds iff the read allowance is ≥ the required amount. It is false iff the read is below the required amount, and it throws iff the read threw. |
| Allowance.ApproveAsync | lib/hooks/useAllowance.ts:51-108 | A missing token or spender fails first, then a missing client, both with no effect. A mined approve with no owner address fails with "Owner address not available" after the receipt and refetch, before any poll. Any effect begins with the network switch followed by `approve(spender, requiredAmount)` for exactly the required amount. |
| Allowance.ApproveSuccessMeans | lib/hooks/useAllowance.ts:55-107 | A returned hash means the approve was sent and mined, and the owner was known. It also means some read within the first five covered the required amount, after which approval is no longer needed. |
| Allowance.ApproveSubmitsOnce | lib/hooks/useAllowance.ts:58-63 | The sequence submits exactly one transaction, `approve(spender, required)`, or none. |
| Allowance.ApproveReverted | lib/hooks/useAllowance.ts:73-75 | A reverted receipt fails with "Approve transaction failed" before any poll. |
| Allowance.PollingExhausted | lib/hooks/useAllowance.ts:88-105 | Five reads below the required amount exhaust the polling after five reads and four waits of 200 ms. |
| Allowance.ApproveReachesPolling | lib/hooks/useAllowance.ts:78-107 | Once the approve is mined and the owner known, the flow's result is the polling loop's outcome. |
| Allowance.ApproveNeverConfirmed | lib/hooks/useAllowance.ts:88-107 | When all five reads stay below the required amount, no hash is returned and the exhaustion error propagates. |
| Transactions.SubmitVaultCall | lib/hooks/useDeposit.ts:24-36 | A parse failure is thrown first, with no effect. A missing wallet then throws "Wallet not connected", with no effect. Otherwise the flow switches network and submits one call for the parsed amount. |
| Transactions.NoWalletNoSubmission | lib/hooks/useWithdraw.ts:24-28 | Without a wallet nothing is submitted and the flow fails with "Wallet not connected", unless the amount failed to parse first. |
| Transactions.DepositMatchesRequired | lib/hooks/useDeposit.ts:22-35 | A submitted deposit spends exactly the amount `useAllowance` requires for the same input and decimals, and credits the caller. |
| Transactions.WithdrawShape | lib/hooks/useWithdraw.ts:24-36 | A withdrawal names the caller as receiver and owner, and never submits an approve. |
| Transactions.WithdrawEffects | lib/hooks/useWithdraw.ts:29-35 | A withdrawal's effects are none, or the network switch followed by the one withdraw call. |
| Transactions.SuccessWithoutReceipt | lib/hooks/useDeposit.ts:29-35 | The returned hash is the write's, and no receipt is awaited. |
| Buttons.ExceedsBalanceMeans | components/vaults/supply/DepositActionButton.tsx:88-94 | Exceeding the balance holds iff a maximum is given, both sides are numbers, and the input is larger. |
| Buttons.ValidIsPositive | components/vaults/supply/DepositActionButton.tsx:96 | On a numeral, `parseFloat(input) > 0` agrees with `Number(input) > 0`. |
| Buttons.DepositButton | components/vaults/supply/DepositActionButton.tsx:98-133 | Disconnected shows only the disabled Connect Wallet button. An enabled button requires a connection, nothing pending, a valid amount and no excess over the balance. An enabled Supply button also needs `canSupply`. Approve appears only when approval is needed. |
| Buttons.DepositButtonChoice | components/vaults/supply/DepositActionButton.tsx:107-132 | When connected, Approve is shown iff approval is needed and the amount is valid. Each button is enabled exactly under its source condition. |
| Buttons.WithdrawButton | components/vaults/withdraw/WithdrawActionButton.tsx:63-85 | Withdraw is enabled iff connected, not writing or confirming, with a valid amount and no excess over the balance. |
| Buttons.NoActionWhileProcessing | components/vaults/supply/DepositActionButton.tsx:51-126 | While any transaction is pending, no button on either page is enabled. |
| Buttons.HandleApprove | components/vaults/supply/DepositActionButton.tsx:52-65 | The deposit runs only after the approve returned, and its effects follow the approve's. Every click ends with at least one toast. |
| Buttons.RawMessageShown | components/vaults/supply/DepositActionButton.tsx:62-64 | A failed approve shows its own raw message as the only toast. |
| Buttons.RejectionShownVerbatim | components/vaults/supply/DepositActionButton.tsx:63 | A wallet rejection is shown as its text, although the classifier would give "". |
| Buttons.DepositCoveredByApproval | components/vaults/supply/DepositActionButton.tsx:23-61 | A deposit submitted by the approve click comes after an approve of the same amount was mined and seen on chain. The deposited assets equal the approved amount. |
| Buttons.DepositComesLast | components/vaults/supply/DepositActionButton.tsx:54-57 | In the approve handler a deposit submission can only come from the deposit flow, after a successful approve. |
| Summary.ConversionBatch | lib/hooks/useUserSummary.ts:46-58 | The conversion batch is enabled iff connected with an address and one share count per vault. Its arguments are then the vaults' share counts. |
| Summary.PlaceholderIsZero | lib/hooks/useUserSummary.ts:65-67 | The placeholder "0.00" reads as 0. |
| Summary.Tokens | lib/hooks/useUserSummary.ts:65-67 | The formatted assets read back as exactly assets / 10^decimals. |
| Summary.AprOf | lib/hooks/useUserSummary.ts:68-69 | The row's APR is the raw integer, undivided, and 0 when absent or zero. |
| Summary.EntryMeaning | lib/hooks/useUserSummary.ts:61-71 | A row's assets are the conversion read when it succeeded, and 0 only when it is missing or failed. Its text is "0.00" iff there are no assets. Its value is tokens × price, and its APR is the raw APR. |
| Summary.RowShares | lib/hooks/useUserSummary.ts:42-61 | Row i's shares are the i-th balance read when it succeeded, and 0 only when it failed or is missing. |
| Summary.RowsAreLocal | lib/hooks/useUserSummary.ts:42-64 | Whatever vault k's balance read or conversion read returns, alone or together (a failure included), every other row is unchanged. |
| Summary.NoPricesNoValue | lib/hooks/useUserSummary.ts:66-67 | Without a price response every row is worth 0. |
| Summary.WeightedApr | lib/hooks/useUserSummary.ts:74-80 | The weighted APR is 0 when the total is ≤ 0. Otherwise it times the total equals Σ value·APR, so there is never a division by zero. |
| Summary.WeightedSumBounds | lib/hooks/useUserSummary.ts:74-77 | With non-negative values and APRs in [lo, hi], Σ value·APR lies between lo·total and hi·total. |
| Summary.WeightedAprBetween | lib/hooks/useUserSummary.ts:76-80 | The weighted APR lies between the smallest and the largest APR. |
| Summary.UniformApr | lib/hooks/useUserSummary.ts:76-80 | When every vault pays the same APR, that APR is the weighted APR. |
| VaultReads.KeyedEntries | lib/hooks/useVaultAprs.ts:29-37 | The reduce gives one entry per key. A key not repeated later holds its own value, so later assignments overwrite earlier ones. |
| VaultReads.KeyedDistinct | lib/hooks/useVaultAprs.ts:29-37 | With distinct symbols every vault maps to its own value. |
| VaultReads.VaultAprs | lib/hooks/useVaultAprs.ts:26-37 | The map is undefined iff there is no data. Otherwise its keys are exactly the vault symbols, each holding that vault's read or 0. |
| VaultReads.AprFailureIsLocal | lib/hooks/useVaultAprs.ts:31-35 | One failed APR read zeroes that vault's APR and no other. |
| VaultReads.AssetText | lib/hooks/useValueAssets.ts:36-50 | The text is "0" for a failed read or missing or zero decimals, with no fallback to 18. |
| VaultReads.AssetTextValue | lib/hooks/useValueAssets.ts:39-48 | The stored text always reads back as the total assets in whole tokens, 0 on failure. |
| VaultReads.VaultAssets | lib/hooks/useValueAssets.ts:33-53 | The map is undefined iff there is no data. Otherwise the keys are exactly the vault symbols, each keyed to its asset text. |
| VaultReads.VaultBalance | lib/hooks/useVaultBalance.ts:14-60 | Both reads need a connected wallet with an address and a vault address; conversion is requested iff, in addition, shares > 0. A successful balance read is the shares and a successful conversion read is the assets; positive figures come only from such reads. `isError` is the OR of both read errors. |
| VaultReads.BalanceMeaning | lib/hooks/useVaultBalance.ts:16-51 | No shares means no assets. The text is "0.00" iff assets are 0; otherwise it reads back as the assets in tokens at the vault's decimals, or 18. |
| VaultReads.AmountText | lib/hooks/useTotalSupplyValue.ts:19 | A missing or empty entry reads as "0", and a present one as itself. |
| VaultReads.TotalSupplyValue | lib/hooks/useTotalSupplyValue.ts:16-25 | The total is 0 when the amounts or the prices are missing. |
| VaultReads.TotalSupplyNonNegative | lib/hooks/useTotalSupplyValue.ts:18-24 | With non-negative prices the total is never negative, because non-positive amounts contribute nothing. |
| VaultReads.TotalSupplyOfReads | lib/hooks/useTotalSupplyValue.ts:16-25 | Fed with `useVaultAssets`' output, the total is Σ over vaults of total assets in tokens × price. |
| VaultReads.SumOfReads | lib/hooks/useTotalSupplyValue.ts:18-24 | The reduce over stored texts equals the sum computed from the raw reads. |
| Wallet.TruncateShape | lib/utils/wallet.ts:27-34 | A truncated address is strictly shorter than the original, with its first `start` and last `end` characters around "...". |
| Wallet.TruncateIdempotent | lib/utils/wallet.ts:27-29 | Truncating a truncated address changes nothing. |
| Wallet.GetPrice | lib/utils/wallet.ts:65-78 | The price is the listed one, and 0 when the prices, the feed id, the record or the price is missing. |
| Wallet.UnlistedSymbolPricedZero | lib/utils/wallet.ts:68-73 | FBTC has no feed id and is priced 0 whatever the response, while BTC gets its listed price. |
| Wallet.TablesDescending | lib/utils/wallet.ts:85-97 | Both unit tables list thresholds largest first. |
| Wallet.SelectLargest | lib/utils/wallet.ts:110-119 | The first threshold reached is the largest one ≤ |value|. With none reached, the divisor is 1 and there is no suffix. |
| Wallet.FormatCompactNumber | lib/utils/wallet.ts:99-126 | A non-finite value gives "0". |
| Wallet.CompactUsesLargestUnit | lib/utils/wallet.ts:104-125 | The output is value / t rendered with t's suffix, for the largest threshold t ≤ |value| of the currency's table, or of the usd table by default. There is no suffix below the smallest threshold. |
| Wallet.CompactExamples | lib/utils/wallet.ts:80-82 | 7,450,000 USD gives 7.45m and 12,000 KRW gives 1.2만. 745,000,000 KRW gives 7.45억, but 74,500,000 KRW gives 7450만. |
| Wallet.CurrencyOf | lib/utils/wallet.ts:130-131 | The reverse lookup returns the currency with that symbol, or usd. |
| Wallet.CurrencyOfSymbol | lib/utils/wallet.ts:130-131 | The reverse lookup inverts the symbol table. |
| Wallet.CompactCurrencyTables | lib/utils/wallet.ts:128-133 | ₩ uses the krw table, and any other symbol uses the usd table. |
| Wallet.FormatApr | lib/utils/wallet.ts:141-151 | An absent or zero APR gives "0.00". |
| Wallet.FormatAprDigits | lib/utils/wallet.ts:141-147 | A positive APR n is printed as n's digits followed by ".00", undivided. |
| Wallet.FormatAprFiveHundred | lib/utils/wallet.ts:137-147 | 500 is shown as "500.00". |
| Wallet.FormatAprNumber | lib/utils/wallet.ts:141-147 | `Number(formatApr(apr))` is the raw integer, or 0. |
| Gas.GasWithBuffer | lib/utils/gas.ts:46 | The buffer is floor(gas·1200/1000): at least the gas and at most 6/5 of it. |
| Gas.MaxAmountWithGas | lib/utils/gas.ts:19-61 | The result is "0.00" or the balance itself. It is "0.00" for a zero-like or non-positive balance. |
| Gas.MaxAmountIsBalance | lib/utils/gas.ts:38-56 | A positive balance is returned unchanged whether or not the native balance covers the buffered gas. |
| Gas.MaxAmountIgnoresNative | lib/utils/gas.ts:38-56 | With a parseable estimate the native balance has no influence on the result. |
| Gas.DefaultEstimate | lib/utils/gas.ts:6-46 | The default estimate is 2·10^15 wei, buffered to 2.4·10^15 wei. |
| Gas.DecimalPlaces | lib/utils/gas.ts:109 | The place count is at least 1, and 6 when there is no point. |
| Gas.DecimalPlacesOf | lib/utils/gas.ts:109 | For every balance `w.f` with a non-empty point-free fraction `f` (and anything after a further point), the count is exactly the length of `f`. |
| Gas.InEther | lib/utils/gas.ts:94-103 | Wei are converted to ether exactly: n / 10^18. |
| Gas.AfterGas | lib/utils/gas.ts:98-110 | A positive native balance gives a non-negative amount, printed with min(places, 6) places. |
| Gas.MaxNativeAmountWithGas | lib/utils/gas.ts:70-115 | The result is "0.00" for a zero-like balance, an absent or zero native balance, a non-positive balance or an estimate that does not parse. Otherwise it is the after-gas amount of the native balance, printed with the balance's place count, never negative and with 1 to 6 places. |
| Gas.AfterGasMeaning | lib/utils/gas.ts:102-110 | The amount offered is the native balance less the buffered gas, or 0, and never more than the native balance. |
| Gas.PlacesExamples | lib/utils/gas.ts:109 | "1.5" gives 1 place and "42" gives 6. |
| Gas.PlacesCapped | lib/utils/gas.ts:110 | A long fraction is printed with 6 digits. |
| Units.ParseFormatRoundTrip | lib/hooks/useVaultBalance.ts:51 | Parsing what `formatUnits(n, d)` printed gives back n. |
| Units.FormatUnitsValue | lib/hooks/useValueAssets.ts:45 | `formatUnits(n, d)` reads back as exactly n / 10^d. |
| Units.FormatUnitsNotZeroPlaceholder | lib/hooks/useVaultBalance.ts:51 | `formatUnits` never prints "0.00", so the placeholder marks zero assets unambiguously. |
| Units.ParseUnitsScales | lib/hooks/useAllowance.ts:40 | A successful `parseUnits(s, d)` is s's value × 10^d. |
| Units.ParseZero | lib/hooks/useAllowance.ts:39-40 | "0" parses to 0 at every precision. |
| Units.PositiveIsNumeral | lib/hooks/useDeposit.ts:25 | A string with `Number(s) > 0` is a numeral that reads as its decimal value. |
| Units.ParseFloatOfNumeral | lib/hooks/useUserSummary.ts:67 | `parseFloat` agrees with `Number` on numerals. |
| Units.DecimalPrefixLongest | lib/hooks/useUserSummary.ts:67 | `parseFloat` reads the longest prefix of the form `[0-9]*(.[0-9]*)?`: that prefix is a decimal string and no longer prefix is. |
| Keypad.LayoutKeys | components/vaults/supply/NumericKeypad.tsx:53 | There are twelve keys: the digits, the point and DEL. |
| Keypad.LayoutDigits | components/vaults/supply/NumericKeypad.tsx:53 | Every digit has its key. |
| Keypad.TypedKeepsValue | components/vaults/supply/NumericKeypad.tsx:35-39 | Appending a digit to a whole number and dropping its leading zero gives the old number times ten plus the digit, still as digits. |
| Keypad.DeleteExamples | components/vaults/supply/NumericKeypad.tsx:20-27 | DEL takes "0.00" to "0.0", "0.0" to "0.00", "12.5" to "12" and "7" to "0.00". |
| Keypad.PointRules | components/vaults/supply/NumericKeypad.tsx:28-32 | The point key takes "" to "0." and leaves any text holding a point unchanged, including "0.00". Otherwise it appends a point. |
| Keypad.PointIdempotent | components/vaults/supply/NumericKeypad.tsx:30-31 | Pressing the point twice is pressing it once. |
| Keypad.DigitReplacesZero | components/vaults/supply/NumericKeypad.tsx:18-35 | A digit on "0.00" or "0" replaces it. |
| Keypad.LeadingZeroDropped | components/vaults/supply/NumericKeypad.tsx:37-39 | "0" then 5 gives "5". |
| Keypad.InnerZeroKept | components/vaults/supply/NumericKeypad.tsx:37-39 | "10" then 0 gives "100". |
| Keypad.ZeroBeforePointKept | components/vaults/supply/NumericKeypad.tsx:37-39 | "0." then 5 gives "0.5". |
| Keypad.DigitTruncates | components/vaults/supply/NumericKeypad.tsx:42-48 | A digit never rounds. The new input is the typed text, or its prefix keeping the whole part, the point and exactly `decimals` fraction digits. |
| Keypad.DigitKeepsShape | components/vaults/supply/NumericKeypad.tsx:33-49 | A digit keeps the input well formed: digits, at most one point, a whole part, and at most `decimals` after the point. |
| Keypad.PointKeepsShape | components/vaults/supply/NumericKeypad.tsx:28-32 | The point key keeps the input well formed. |
| Keypad.DeleteKeepsShape | components/vaults/supply/NumericKeypad.tsx:20-27 | DEL keeps the input well formed when `decimals` ≥ 2. |
| Keypad.PressKeepsShape | components/vaults/supply/NumericKeypad.tsx:16-53 | Every key of the layout keeps the input well formed. |
| Keypad.WellFormedReads | components/vaults/supply/NumericKeypad.tsx:16-49 | A well-formed input always reads as a number. |
| Toasts.RemoveMeaning | lib/state/toast.ts:21-23 | Remove keeps exactly the toasts with another id, every copy of each, in order. |
| Toasts.RemoveCounts | lib/state/toast.ts:21-23 | Each toast without the id keeps its number of copies, and each toast with it has none left. |
| Toasts.RemoveAbsent | lib/state/toast.ts:21-23 | Removing an id no toast carries changes nothing. |
| Toasts.RemoveIdempotent | lib/state/toast.ts:21-23 | Removing twice is removing once. |
| Toasts.AddThenRemove | lib/state/toast.ts:15-23 | Removing the added id undoes the add, and removing another id commutes with it. |
| Toasts.AddRemoveRoundTrip | lib/state/toast.ts:13-23 | Adding a fresh id and then removing it restores the list. |
| VaultLists.KeepMeaning | components/vaults/VaultListContainer.tsx:27-32 | The filter keeps exactly the items whose vault matches, case-insensitively, on symbol, name or token symbol, as an order-preserving sublist with every copy kept. |
| VaultLists.EmptyQueryKeepsAll | components/vaults/VaultListContainer.tsx:25 | The empty query keeps every vault, so the early return changes nothing. |
| VaultLists.KeepByLowerQuery | components/vaults/VaultListContainer.tsx:27 | Queries with the same lower-case form keep the same items. |
| VaultLists.SearchIgnoresCase | components/vaults/VaultListContainer.tsx:24-33 | An upper-cased query finds the same vaults. |
| VaultLists.SearchExample | components/vaults/VaultListContainer.tsx:28-32 | "fbtc" finds only the BTC vault, by its token, and "vault" finds both vaults by name. |
| VaultLists.FormatVaultAprIsFormatApr | components/vaults/VaultListContainer.tsx:37-40 | The guarded display is `formatApr` of the raw APR, and "0.00" when the APR is absent or zero. |
| VaultLists.ReadyOnceLoaded | components/vaults/VaultListContainer.tsx:48-53 | Once both batches and the prices have arrived, every vault is ready. |
| VaultLists.AllVaultsView | components/vaults/VaultListContainer.tsx:35-115 | The error box shows iff any of the three reads failed. Otherwise "No vaults found" shows iff the search finds nothing, and else there is one entry per found vault in order. An entry is a skeleton iff that vault's data is not ready; a card carries the vault's asset text and `formatVaultAPR` of its APR. |
| VaultLists.AllVaultsListed | components/vaults/VaultListContainer.tsx:25-115 | With no error and an empty query, every vault has an entry. |
| VaultLists.SuppliedMeaning | components/vaults/MyVaultListContainer.tsx:23-25 | The supplied rows are exactly those with assets > 0, every copy of each, in order. |
| VaultLists.MyVaultsView | components/vaults/MyVaultListContainer.tsx:44-106 | Loading shows iff the APRs or prices load. "No vaults supplied yet" shows iff loaded with nothing supplied. "No vaults found" shows iff loaded with supplied vaults of which none matches the search. Otherwise there is one row per search match among supplied vaults. |
| VaultLists.MyRowsAreSupplied | components/vaults/MyVaultListContainer.tsx:28-37 | A listed vault has assets and matches the query. |
| VaultLists.RowValueIsSummaryValue | components/vaults/MyVaultListContainer.tsx:93-94 | A card's value equals the summary's value for that vault. |
| Nav.HiddenIff | components/layout/BottomNav.tsx:23-32 | The bar is hidden iff the path is "/vaults/" followed by one non-empty segment without '/'. |
| Nav.NoSlashIff | components/layout/BottomNav.tsx:24 | `[^/]*` matches iff the text has no '/'. |
| Nav.HiddenExamples | components/layout/BottomNav.tsx:23-25 | "/vaults/FBTC" and "/vaults/my" are hidden. "/vaults", "/vaults/" and "/vaults/FBTC/x" are not. |
| Nav.View | components/layout/BottomNav.tsx:41-43 | A hidden page draws nothing. Any other page draws all five tabs in order. |
| Nav.AtMostOneActive | components/layout/BottomNav.tsx:34-39 | At most one tab is active on any path. |
| Nav.ActiveTabs | components/layout/BottomNav.tsx:34-39 | Earn is active iff the path starts with "/vaults". Every other tab is active only on its exact path. |
| Nav.VaultListView | components/layout/BottomNav.tsx:15-45 | On "/vaults" the five tabs show with Earn active and its icon at 28, the others at 24. |
| Connectors.AllowedMeaning | components/wallet/WalletModalRoot.tsx:25-27 | The filter keeps exactly the connectors named MetaMask, Backpack or OKX Wallet. |
| Connectors.IndexOf | components/wallet/WalletModalRoot.tsx:29 | `indexOf` gives the first position holding the name, and -1 exactly when the name is absent. |
| Connectors.UniqueMeaning | components/wallet/WalletModalRoot.tsx:28 | The Map keeps one entry per name, the last connector with that name, and covers every name that occurs. |
| Connectors.SortMeaning | components/wallet/WalletModalRoot.tsx:29 | The sort is a permutation ordered by rank. |
| Connectors.AvailableMeaning | components/wallet/WalletModalRoot.tsx:24-31 | Only allowed wallets are offered, ordered MetaMask, Backpack, OKX Wallet, with no name twice, each the last connector under its name, and every reported allowed wallet offered. |
| Connectors.AtMostThree | components/wallet/WalletModalRoot.tsx:24-31 | The dialog offers at most three wallets. |
| Connectors.DuplicateExample | components/wallet/WalletModalRoot.tsx:28 | A wallet reported twice is offered once, with its later connector. |
| TxModal.TransitionsConsistent | components/ui/TransactionModalContext.tsx:23-34 | The initial state, open and close all keep the dialog consistent: it shows iff it has a type, and a closed dialog keeps no hash. |
| TxModal.OpenCloseLaws | components/ui/TransactionModalContext.tsx:28-34 | Open ignores the previous state, close after open is the initial state, and close is idempotent. |
| Provider.HookRecoversContext | components/ui/TransactionModalContext.tsx:44-48 | The context hook gives back exactly the provider's value when there is one and fails otherwise; a failure carries the hook's own message. |
| WalletModal.TransitionLaws | components/wallet/WalletModalContext.tsx:15-18 | Open and close are idempotent, two toggles cancel, and toggling from the initial state opens. |
| WalletModal.WalletContextHook | components/wallet/WalletModalContext.tsx:26-30 | The wallet dialog hook returns the provider's value, and outside a provider throws "useWalletModalContext must be used within WalletModalProvider". |

## Left out

- Rendering is not modelled: JSX, styles, skeletons, icons, cards and the dialog animation (timers, animation frames, reduced motion, key listeners). It is presentation, not logic.
- Chain and network I/O are inputs of the model. This covers the wagmi reads and writes, receipt waits, `switchNetworkToTarget` and the price fetching. The network switch is a trace event, and its result is ignored as in the source.
- Timers (`delay`, the 1500 ms back navigation, toast auto-removal) are trace events or notices only. No time passes in the model.
- Floating-point rendering is a parameter (`Wallet.Render`) or a datatype (`Gas.Amount`). This covers `toFixed` in `formatCompactNumber` and in the gas helpers, `Intl.NumberFormat` in `formatCurrency`, and the trailing-zero regex of `formatCompactNumber`. The card values' `toFixed(2)` is left out entirely. `formatApr`'s `toFixed(2)` is not a parameter: it is printed as exact digits, as the `Wallet.FormatApr` line below says.
- Values are exact `real`s, not IEEE doubles. `Number` is modelled on plain unsigned decimal strings `[0-9]*(.[0-9]*)?` with at least one digit, and on "", which reads as 0. Every other syntax reads as NaN: exponents, signs, hex, surrounding whitespace and Infinity.
- Units.ParseFloat: reads the longest prefix of the plain form `[0-9]*(.[0-9]*)?`, so it stops at an exponent, a sign or whitespace. The model gives 1 for "1e5" where JavaScript gives 100000. It gives NaN for " 1" and "-1" where JavaScript gives 1 and -1.
- Allowance.CleanAmount: JavaScript's `Number("1e5")` is 100000 > 0, so the source keeps a typed "1e5", and `parseUnits` then throws in `depositAsync`/`withdrawAsync`. The model reads "1e5" as NaN and cleans it to "0", so `Transactions.SubmitVaultCall` submits a call for 0 assets. The keypad only produces plain decimals, so this cannot come from typed input.
- Units.ParseUnits: viem rounds when a string has more fraction digits than the decimals. The model throws there instead, because viem's code is not part of this model. `parseUnits` fails on every string outside `[0-9]*(.[0-9]*)?`. viem also accepts a leading "-" and returns a negative amount, which the model does not. The cleaned amounts never carry a sign; the gas estimate string is the one input that could.
- Wallet.FormatApr: a non-zero APR is printed as its exact decimal digits followed by ".00". JavaScript's `Number(formatUnits(apr, 0)).toFixed(2)` (lib/utils/wallet.ts:145-147) prints the same only while the APR is below 2^53. Above that, `Number` rounds to the nearest double (9007199254740993 prints as "9007199254740992.00"). From 10^21 on, `toFixed` prints exponent form ("1e+21"). Contract APRs are scaled (lib/hooks/useVaultAprs.ts:9-10 gives 10^18 as an example), so they can reach that range. IEEE-754 rounding and exponent printing are not modelled.
- Wallet.FormatAprDigits: "the digits followed by .00" matches JavaScript only for APRs below 2^53, for the reason in the `Wallet.FormatApr` line.
- Wallet.FormatAprNumber: `Number(formatApr(apr))` equals the raw APR in JavaScript only below 2^53. Above that, it is the nearest double to the APR.
- Summary.AprOf: the row's APR is the raw integer. In JavaScript it is that integer only below 2^53, for the same reason as `Wallet.FormatAprNumber`.
- Text.Lower: `toLowerCase` is modelled on the ASCII letters A-Z only. JavaScript folds every Unicode capital, so a search for "É" finds a vault named "école" there but not in `VaultLists.Matches`. `|s|` counts code points, whereas JavaScript's `.length` counts UTF-16 units.
- Errors.Folded: folds only ASCII capitals, as `Text.Lower` does. On a text with non-ASCII capitals, the folded text differs from JavaScript's `toLowerCase`, and so can the error classification built on it.
- Retry.Drive: the trace records `OnRetry(k)` before every wait, whether or not a callback was given. The source calls `onRetry` only when one is passed (lib/utils/retry.ts:62 and :104). The event marks where that call happens. The one caller, the allowance polling (lib/hooks/useAllowance.ts:101-103), passes a callback that only logs. A callback that throws, which would reject the whole retry in JavaScript, is not modelled.
- Retry.RetryAnnouncements: states the `OnRetry` events of the trace. A missing or throwing callback is treated as the `Retry.Drive` line says.
- Toast ids come from the clock and a random string. They are a parameter of `Toasts.Add`.
- `useUserSummary`'s `isLoading` flag (lib/hooks/useUserSummary.ts:82) and its `refetch`, two awaited refetches in order (lib/hooks/useUserSummary.ts:85-91), are wagmi query state and I/O sequencing. Neither is modelled.
- `useAllowance`'s `isError`/`error` merging and the hooks' `isWriting`/`isConfirming` flags are inputs (`Buttons.Progress`), not derived.
- The `useValueAssets` catch around `formatUnits` (lib/hooks/useValueAssets.ts:46-48) cannot be reached in the model: the model's `formatUnits` is total for the positive decimals that pass the guard.
- Static configuration is a set of parameters. This covers vaults.ts, tokens.ts, the ABIs, the currency atoms and provider/*. The unresolved `getTokenBySymbol('BTC')` lookups of vaults.ts are not modelled as a crash: examples use vaults whose tokens carry the tokens.ts names.
- The tester pages, the faucet and the duplicate `getPrice` in the tester are not part of the core.
- Gas.MaxNativeAmountWithGas: the guard `nativeBalanceNum <= 0` after formatting (lib/utils/gas.ts:98-100) is modelled exactly, but the floating-point subtraction is exact here, so results can differ from JavaScript in the last digits.
- VaultLists.AllVaultsView: the per-card amount shown with `formatCurrency` (components/vaults/VaultListContainer.tsx:102-103) is rendering and is carried as the raw text.
