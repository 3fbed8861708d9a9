/**
 * The action buttons of the supply and withdraw pages
 * (components/vaults/supply/DepositActionButton.tsx and
 * components/vaults/withdraw/WithdrawActionButton.tsx): which button is shown,
 * when it is enabled, and what a click does — the chain flows it runs, in
 * order, and the toasts and navigation it produces.
 */
module Buttons {
  import opened Wrappers
  import opened Errors
  import opened Units
  import opened Chain
  import opened Allowance
  import opened Transactions

  /** The pending flags of the approve and deposit writes and receipts. */
  datatype Progress = Progress(writingApprove: bool, confirmingApprove: bool,
                               writingDeposit: bool, confirmingDeposit: bool)

  /** `isProcessing`: any of the four is pending. */
  predicate IsProcessing(p: Progress)
  {
    p.writingApprove || p.confirmingApprove || p.writingDeposit || p.confirmingDeposit
  }

  /** `canSupply = isConnected && !needsApproval`. */
  predicate CanSupply(connected: bool, needsApproval: bool)
  {
    connected && !needsApproval
  }

  /**
   * `exceedsBalance`: false without a maximum or when either side is not a
   * number; otherwise whether the input is above the maximum.
   */
  predicate ExceedsBalance(input: string, maxAmount: Option<string>)
  {
    if maxAmount.None? || maxAmount.value == "" then false
    else
      var inNum := if input == "" then Some(0.0) else NumberOf(input);
      var maxNum := NumberOf(maxAmount.value);
      if inNum.None? || maxNum.None? then false
      else inNum.value > maxNum.value
  }

  /** Exceeding the balance means both sides read as numbers and the input is larger. */
  lemma ExceedsBalanceMeans(input: string, maxAmount: Option<string>)
    ensures ExceedsBalance(input, maxAmount) <==>
      && maxAmount.Some? && maxAmount.value != ""
      && NumberOf(input).Some? && NumberOf(maxAmount.value).Some?
      && NumberOf(input).value > NumberOf(maxAmount.value).value
  {
  }

  /** `amountIsValid = parseFloat(inputAmount) > 0`. */
  predicate AmountIsValid(input: string)
  {
    ParseFloat(input).Some? && ParseFloat(input).value > 0.0
  }

  /** On a plain decimal string the two readings agree: a valid amount is a positive one. */
  lemma ValidIsPositive(input: string)
    requires IsNumeral(input)
    ensures AmountIsValid(input) <==> IsPositive(input)
  {
    ParseFloatOfNumeral(input);
  }

  datatype Kind = ConnectWallet | ApproveKind | SupplyKind | WithdrawKind

  /** A rendered button: what it does, whether it can be clicked, and whether it shows the pending label. */
  datatype Button = Button(kind: Kind, enabled: bool, busy: bool)

  /** The disabled "Connect Wallet" button shown when no wallet is connected. */
  const Disconnected := Button(ConnectWallet, false, false)

  /** The button of the supply page. */
  function DepositButton(connected: bool, needsApproval: bool, p: Progress,
                         input: string, maxAmount: Option<string>): (b: Button)
    ensures !connected ==> b == Disconnected
    ensures b.enabled ==> connected && !IsProcessing(p) && AmountIsValid(input) && !ExceedsBalance(input, maxAmount)
    ensures b.kind == SupplyKind && b.enabled ==> CanSupply(connected, needsApproval)
    ensures b.kind == ApproveKind ==> needsApproval
  {
    if !connected then Disconnected
    else if needsApproval && AmountIsValid(input) then
      Button(ApproveKind, !(IsProcessing(p) || ExceedsBalance(input, maxAmount)), IsProcessing(p))
    else
      Button(SupplyKind,
             !(IsProcessing(p) || !CanSupply(connected, needsApproval) || !AmountIsValid(input)
               || ExceedsBalance(input, maxAmount)),
             IsProcessing(p))
  }

  /**
   * Which button a connected user sees, and exactly when it is enabled:
   * Approve for a valid amount that needs approval, Supply otherwise.
   */
  lemma DepositButtonChoice(needsApproval: bool, p: Progress, input: string, maxAmount: Option<string>)
    ensures var b := DepositButton(true, needsApproval, p, input, maxAmount);
      && (b.kind == ApproveKind <==> needsApproval && AmountIsValid(input))
      && (b.kind == SupplyKind <==> !(needsApproval && AmountIsValid(input)))
      && (b.kind == ApproveKind ==> (b.enabled <==> !IsProcessing(p) && !ExceedsBalance(input, maxAmount)))
      && (b.kind == SupplyKind ==>
            (b.enabled <==> !IsProcessing(p) && !needsApproval && AmountIsValid(input) && !ExceedsBalance(input, maxAmount)))
      && b.busy == IsProcessing(p)
  {
  }

  /** The button of the withdraw page: `canWithdraw = isConnected`, `isProcessing = isWriting || isConfirming`. */
  function WithdrawButton(connected: bool, writing: bool, confirming: bool,
                          input: string, maxAmount: Option<string>): (b: Button)
    ensures !connected ==> b == Disconnected
    ensures connected ==> b.kind == WithdrawKind
    ensures b.enabled <==>
      connected && !(writing || confirming) && AmountIsValid(input) && !ExceedsBalance(input, maxAmount)
  {
    if !connected then Disconnected
    else
      var processing := writing || confirming;
      Button(WithdrawKind, !(processing || !connected || !AmountIsValid(input) || ExceedsBalance(input, maxAmount)),
             processing)
  }

  /** No action can be started while a transaction is pending, on either page. */
  lemma NoActionWhileProcessing(connected: bool, needsApproval: bool, p: Progress,
                                writing: bool, confirming: bool, input: string, maxAmount: Option<string>)
    ensures IsProcessing(p) ==> !DepositButton(connected, needsApproval, p, input, maxAmount).enabled
    ensures writing || confirming ==> !WithdrawButton(connected, writing, confirming, input, maxAmount).enabled
  {
  }

  /** A user-visible effect of a click handler. */
  datatype Notice = ShowSuccess(text: string) | ShowError(text: string) | BackAfter(ms: nat)

  /** A click: the chain requests it made, and what the user was shown. */
  datatype Handled = Handled(effects: seq<Effect>, notices: seq<Notice>)

  /** `e?.message || fallback`: the raw message when there is one, else the fallback. */
  function Shown(e: ErrorInfo, fallback: string): (t: string)
    ensures e.message.Some? && e.message.value != "" ==> t == e.message.value
    ensures e.message.None? || e.message.value == "" ==> t == fallback
  {
    if e.message.Some? && e.message.value != "" then e.message.value else fallback
  }

  /** `if (tx) { showSuccess(text); setTimeout(() => router.back(), 1500) }`. */
  function Landed(tx: string, text: string): (n: seq<Notice>)
    ensures tx == "" ==> n == []
    ensures tx != "" ==> n == [ShowSuccess(text), BackAfter(1500)]
  {
    if tx != "" then [ShowSuccess(text), BackAfter(1500)] else []
  }

  /** One write flow followed by its toasts: success text on a hash, the raw error otherwise. */
  function Report(flow: Flow<string>, success: string, failure: string): (h: Handled)
    ensures h.effects == flow.effects
    ensures flow.result.Failure? ==> h.notices == [ShowError(Shown(flow.result.error, failure))]
    ensures flow.result.Success? ==> h.notices == Landed(flow.result.value, success)
  {
    match flow.result
    case Success(tx) => Handled(flow.effects, Landed(tx, success))
    case Failure(e) => Handled(flow.effects, [ShowError(Shown(e, failure))])
  }

  /** `handleSupply`. */
  function HandleSupply(deposit: Flow<string>): Handled
  {
    Report(deposit, "Supply 성공", "Supply 실패")
  }

  /** `handleWithdraw`. */
  function HandleWithdraw(withdraw: Flow<string>): Handled
  {
    Report(withdraw, "Withdraw 성공", "Withdraw 실패")
  }

  /**
   * `handleApprove`: approve, announce it, then deposit. The deposit flow runs
   * only if the approve flow returned; any throw ends the handler with one
   * error toast.
   */
  function HandleApprove(approve: Flow<string>, deposit: Flow<string>): (h: Handled)
    ensures approve.result.Failure? ==> h.effects == approve.effects
    ensures approve.result.Success? ==> h.effects == approve.effects + deposit.effects
    ensures |h.notices| >= 1
  {
    match approve.result
    case Failure(e) => Handled(approve.effects, [ShowError(Shown(e, "승인/예치 실패"))])
    case Success(_) =>
      var rest := Report(deposit, "Supply 성공", "승인/예치 실패");
      Handled(approve.effects + rest.effects, [ShowSuccess("Approve 성공")] + rest.notices)
  }

  /**
   * The toast shows the error's own message, not the classifier's: a wallet
   * rejection with a message is displayed verbatim, although the classifier
   * would show nothing for it.
   */
  lemma RawMessageShown(approve: Flow<string>, deposit: Flow<string>)
    requires approve.result.Failure?
    requires var e := approve.result.error; e.message.Some? && e.message.value != ""
    ensures HandleApprove(approve, deposit).notices == [ShowError(approve.result.error.message.value)]
  {
  }

  /** A rejection whose message says "User rejected the request." is shown as that text. */
  lemma RejectionShownVerbatim(deposit: Flow<string>)
    ensures var e := ErrorInfo(NumCode(4001), None, Some("User rejected the request."), None, None, None);
      && IsUserRejected(Some(e)) && GetErrorMessage(Some(e), DefaultMessage) == ""
      && HandleApprove(Flow(Failure(e), []), deposit).notices == [ShowError("User rejected the request.")]
  {
  }

  /**
   * The approve-then-deposit click of the supply page, wired as the page
   * wires it: the allowance and the deposit use the same amount and decimals,
   * the vault is the spender, and the connected address is the owner.
   */
  function ApproveClick(vault: Vault, decimalsMap: map<string, nat>, amount: string, hasClient: bool,
                        account: Option<string>, approveWrite: WriteResponse, receipt: Receipt,
                        observed: nat -> AllowanceRead, depositWrite: WriteResponse): Handled
  {
    var required := RequiredAmount(amount, DecimalsOf(decimalsMap, vault.symbol));
    HandleApprove(
      ApproveAsync(Some(vault.underlyingToken.address), Some(vault.vaultAddress), hasClient, account,
                   required, approveWrite, receipt, observed),
      DepositAsync(vault, decimalsMap, amount, account, depositWrite))
  }

  /**
   * A deposit is submitted only after the approve of the same amount was
   * submitted, mined and seen on chain: the deposited assets equal the
   * approved amount, and some allowance read covered them.
   */
  lemma DepositCoveredByApproval(vault: Vault, decimalsMap: map<string, nat>, amount: string, hasClient: bool,
                                 account: Option<string>, approveWrite: WriteResponse, receipt: Receipt,
                                 observed: nat -> AllowanceRead, depositWrite: WriteResponse, i: nat)
    requires var h := ApproveClick(vault, decimalsMap, amount, hasClient, account, approveWrite, receipt, observed, depositWrite);
      i < |h.effects| && h.effects[i].Submit? && h.effects[i].call.invocation.Deposit?
    ensures var h := ApproveClick(vault, decimalsMap, amount, hasClient, account, approveWrite, receipt, observed, depositWrite);
      var required := RequiredAmount(amount, DecimalsOf(decimalsMap, vault.symbol));
      && i >= 2
      && h.effects[1] == Submit(ApproveCall(vault.underlyingToken.address, vault.vaultAddress, required))
      && h.effects[i].call.invocation.assets == required
      && exists k :: 0 <= k < 5 && observed(k).Read? && observed(k).value >= h.effects[i].call.invocation.assets
  {
    var required := RequiredAmount(amount, DecimalsOf(decimalsMap, vault.symbol));
    var token := Some(vault.underlyingToken.address);
    var spender := Some(vault.vaultAddress);
    var a := ApproveAsync(token, spender, hasClient, account, required, approveWrite, receipt, observed);
    var d := DepositAsync(vault, decimalsMap, amount, account, depositWrite);
    ApproveSubmitsOnce(token, spender, hasClient, account, required, approveWrite, receipt, observed);
    DepositComesLast(a, d, i);
    ApproveSuccessMeans(token, spender, hasClient, account, required, approveWrite, receipt, observed);
    DepositMatchesRequired(vault, decimalsMap, amount, account.value, depositWrite);
  }

  /** In the approve handler, a deposit submission can only come from the deposit flow, after a successful approve. */
  lemma DepositComesLast(a: Flow<string>, d: Flow<string>, i: nat)
    requires forall j :: 0 <= j < |a.effects| && a.effects[j].Submit? ==> a.effects[j].call.invocation.Approve?
    requires var h := HandleApprove(a, d); i < |h.effects| && h.effects[i].Submit? && h.effects[i].call.invocation.Deposit?
    ensures a.result.Success? && |a.effects| <= i
    ensures HandleApprove(a, d).effects == a.effects + d.effects
    ensures HandleApprove(a, d).effects[i] == d.effects[i - |a.effects|]
  {
    var h := HandleApprove(a, d);
    assert h.effects[..|a.effects|] == a.effects;
  }
}
