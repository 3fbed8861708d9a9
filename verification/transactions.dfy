/**
 * lib/hooks/useDeposit.ts and lib/hooks/useWithdraw.ts: turn the typed
 * amount into base units, refuse without a connected wallet, switch network
 * and submit the vault call. The hash is returned as soon as the wallet gives
 * it; neither flow waits for a receipt.
 */
module Transactions {
  import opened Wrappers
  import opened Errors
  import opened Units
  import opened Chain
  import opened Allowance

  /** The vault call to submit for `assets` on behalf of `account`. */
  type Build = (nat, string) -> Method

  /** `deposit(assets, receiver)`: the caller receives the shares. */
  function DepositArgs(assets: nat, account: string): (m: Method)
    ensures m.Deposit? && m.assets == assets && m.receiver == account
  {
    Deposit(assets, account)
  }

  /** `withdraw(assets, receiver, owner)`: the caller is both receiver and owner. */
  function WithdrawArgs(assets: nat, account: string): (m: Method)
    ensures m.Withdraw? && m.assets == assets && m.receiver == account && m.owner == account
  {
    Withdraw(assets, account, account)
  }

  /**
   * The body shared by `depositAsync` and `withdrawAsync`: parse the cleaned
   * amount (a parse failure is thrown first), then require an address, then
   * switch network and submit.
   */
  function SubmitVaultCall(vault: Vault, decimalsMap: map<string, nat>, amount: string,
                           address: Option<string>, write: WriteResponse, build: Build): (r: Flow<string>)
    ensures var clean := CleanAmount(amount);
      var assets := ParseUnits(clean, DecimalsOf(decimalsMap, vault.symbol));
      && (assets.None? ==> r == Flow(Failure(InvalidDecimal(clean)), []))
      && (assets.Some? && address.None? ==> r == Flow(Failure(Plain("Wallet not connected")), []))
      && (assets.Some? && address.Some? ==>
            r.effects == [SwitchNetwork, Submit(Call(vault.vaultAddress, build(assets.value, address.value)))])
      && (r.result.Success? <==> assets.Some? && address.Some? && write.Sent?)
      && (r.result.Success? ==> write == Sent(r.result.value))
  {
    var clean := CleanAmount(amount);
    match ParseUnits(clean, DecimalsOf(decimalsMap, vault.symbol))
    case None => Flow(Failure(InvalidDecimal(clean)), [])
    case Some(assets) =>
      if address.None? then Flow(Failure(Plain("Wallet not connected")), [])
      else
        var submitted := [SwitchNetwork, Submit(Call(vault.vaultAddress, build(assets, address.value)))];
        match write
        case Sent(hash) => Flow(Success(hash), submitted)
        case WriteFailed(e) => Flow(Failure(e), submitted)
  }

  /** `depositAsync()`. */
  function DepositAsync(vault: Vault, decimalsMap: map<string, nat>, amount: string,
                        address: Option<string>, write: WriteResponse): Flow<string>
  {
    SubmitVaultCall(vault, decimalsMap, amount, address, write, DepositArgs)
  }

  /** `withdrawAsync()`. */
  function WithdrawAsync(vault: Vault, decimalsMap: map<string, nat>, amount: string,
                         address: Option<string>, write: WriteResponse): Flow<string>
  {
    SubmitVaultCall(vault, decimalsMap, amount, address, write, WithdrawArgs)
  }

  /**
   * Without a wallet nothing is submitted and the flow fails, with "Wallet
   * not connected" unless the amount failed to parse first.
   */
  lemma NoWalletNoSubmission(vault: Vault, decimalsMap: map<string, nat>, amount: string, write: WriteResponse, build: Build)
    ensures var r := SubmitVaultCall(vault, decimalsMap, amount, None, write, build);
      && r.result.Failure? && r.effects == [] && Submissions(r.effects) == 0
      && (ParseUnits(CleanAmount(amount), DecimalsOf(decimalsMap, vault.symbol)).Some? ==>
            r.result.error == Plain("Wallet not connected"))
  {
  }

  /**
   * A deposit that was submitted spends exactly the amount the allowance
   * check requires for the same input and the same decimals, and credits the
   * caller.
   */
  lemma DepositMatchesRequired(vault: Vault, decimalsMap: map<string, nat>, amount: string,
                               account: string, write: WriteResponse)
    requires DepositAsync(vault, decimalsMap, amount, Some(account), write).effects != []
    ensures var r := DepositAsync(vault, decimalsMap, amount, Some(account), write);
      && |r.effects| == 2 && r.effects[0] == SwitchNetwork
      && r.effects[1] == Submit(Call(vault.vaultAddress,
           Deposit(RequiredAmount(amount, DecimalsOf(decimalsMap, vault.symbol)), account)))
  {
  }

  /** A withdrawal names the caller as both receiver and owner, and never asks for an approval. */
  lemma WithdrawShape(vault: Vault, decimalsMap: map<string, nat>, amount: string,
                      account: string, write: WriteResponse)
    ensures var r := WithdrawAsync(vault, decimalsMap, amount, Some(account), write);
      && (forall i :: 0 <= i < |r.effects| && r.effects[i].Submit? ==>
            && r.effects[i].call.target == vault.vaultAddress
            && r.effects[i].call.invocation.Withdraw?
            && r.effects[i].call.invocation.receiver == account
            && r.effects[i].call.invocation.owner == account)
      && (forall i :: 0 <= i < |r.effects| ==> !r.effects[i].AwaitReceipt? && !r.effects[i].Poll?)
  {
    var assets := WithdrawEffects(vault, decimalsMap, amount, account, write);
  }

  /** The effects of a withdrawal: none, or the network switch and the withdraw call. */
  lemma WithdrawEffects(vault: Vault, decimalsMap: map<string, nat>, amount: string,
                        account: string, write: WriteResponse) returns (assets: nat)
    ensures var r := WithdrawAsync(vault, decimalsMap, amount, Some(account), write);
      r.effects == [] || r.effects == [SwitchNetwork, Submit(Call(vault.vaultAddress, Withdraw(assets, account, account)))]
  {
    var parsed := ParseUnits(CleanAmount(amount), DecimalsOf(decimalsMap, vault.symbol));
    assets := parsed.GetOr(0);
  }

  /** Success is reported on the hash alone: the returned hash is the write's, with no receipt awaited. */
  lemma SuccessWithoutReceipt(vault: Vault, decimalsMap: map<string, nat>, amount: string,
                              account: string, hash: string, build: Build)
    requires ParseUnits(CleanAmount(amount), DecimalsOf(decimalsMap, vault.symbol)).Some?
    ensures var r := SubmitVaultCall(vault, decimalsMap, amount, Some(account), Sent(hash), build);
      && r.result == Success(hash)
      && (forall i :: 0 <= i < |r.effects| ==> !r.effects[i].AwaitReceipt?)
  {
  }
}
