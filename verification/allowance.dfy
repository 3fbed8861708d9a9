/**
 * lib/hooks/useAllowance.ts: how much the vault may spend, how much the
 * typed amount needs, and the approve sequence that waits until the chain
 * reports the new allowance.
 */
module Allowance {
  import opened Wrappers
  import opened Digits
  import opened Errors
  import opened Units
  import opened Chain
  import Retry

  /** `amountString && Number(amountString) > 0 ? amountString : '0'`. */
  function CleanAmount(amount: string): (c: string)
    ensures IsPositive(amount) ==> c == amount
    ensures !IsPositive(amount) ==> c == "0"
  {
    if amount != "" && IsPositive(amount) then amount else "0"
  }

  /** Cleaning yields a plain decimal numeral whose value is positive, or "0". */
  lemma CleanAmountShape(amount: string)
    ensures IsNumeral(CleanAmount(amount))
    ensures CleanAmount(CleanAmount(amount)) == CleanAmount(amount)
    ensures NumberOf(CleanAmount(amount)).Some?
    ensures CleanAmount(amount) != "0" ==> NumberOf(CleanAmount(amount)).value > 0.0
  {
    OnlyDigits("0");
  }

  /** `currentAllowance`: the allowance read on success, 0 on failure or before any data. */
  function CurrentAllowance(read: Option<ReadResult>): (v: nat)
    ensures read == Some(ReadOk(v)) || (v == 0 && (read.None? || read.value.ReadFail?))
    ensures read.None? || read == Some(ReadFail) ==> v == 0
  {
    ReadOr0(read)
  }

  /** `requiredAmount`: the cleaned amount in base units; a parse failure counts as 0. */
  function RequiredAmount(amount: string, decimals: nat): (r: nat)
    ensures ParseUnits(CleanAmount(amount), decimals).Some? ==> r == ParseUnits(CleanAmount(amount), decimals).value
    ensures ParseUnits(CleanAmount(amount), decimals).None? ==> r == 0
  {
    ParseUnits(CleanAmount(amount), decimals).GetOr(0)
  }

  /**
   * The required amount is the typed amount scaled by 10^decimals when it is
   * positive and parses, and 0 when the amount is not positive.
   */
  lemma RequiredAmountValue(amount: string, decimals: nat)
    ensures !IsPositive(amount) ==> RequiredAmount(amount, decimals) == 0
    ensures IsPositive(amount) && ParseUnits(amount, decimals).Some? ==>
      NumberOf(amount).value == RequiredAmount(amount, decimals) as real / Pow10(decimals) as real
  {
    if !IsPositive(amount) {
      RequiredOfNonPositive(amount, decimals);
    } else if ParseUnits(amount, decimals).Some? {
      RequiredOfPositive(amount, decimals);
    }
  }

  lemma RequiredOfNonPositive(amount: string, decimals: nat)
    requires !IsPositive(amount)
    ensures RequiredAmount(amount, decimals) == 0
  {
    assert CleanAmount(amount) == "0";
    ParseZero(decimals);
  }

  lemma RequiredOfPositive(amount: string, decimals: nat)
    requires IsPositive(amount) && ParseUnits(amount, decimals).Some?
    ensures NumberOf(amount).value == RequiredAmount(amount, decimals) as real / Pow10(decimals) as real
  {
    assert CleanAmount(amount) == amount;
    ParseUnitsScales(amount, decimals);
    PositiveIsNumeral(amount);
  }

  /** `needsApproval = isConnected && requiredAmount > currentAllowance`. */
  predicate NeedsApproval(connected: bool, required: nat, current: nat)
  {
    connected && required > current
  }

  /** The polling of step 5: five reads, 200 ms apart, no backoff. */
  const AllowancePolling: Retry.Options := Retry.WithDefaults(Retry.Given(Some(5), Some(200), None))

  /** The condition evaluated by each poll: has the allowance reached the required amount. */
  function AllowanceCheck(required: nat, read: AllowanceRead): (c: Retry.Check<ErrorInfo>)
    ensures c == Retry.Holds(true) <==> read.Read? && read.value >= required
    ensures c == Retry.Holds(false) <==> read.Read? && read.value < required
    ensures c.Throws? <==> read.ReadThrew?
  {
    match read
    case Read(v) => Retry.Holds(v >= required)
    case ReadThrew(e) => Retry.Throws(e)
  }

  /** The approve transaction the sequence submits. */
  function ApproveCall(tokenAddress: string, spender: string, required: nat): Call
  {
    Call(tokenAddress, Approve(spender, required))
  }

  /**
   * `approveAsync()`: guard the inputs, switch network, submit
   * `approve(spender, requiredAmount)`, wait for the receipt, refetch, then
   * poll the allowance until it covers the required amount. `observed(a)` is
   * what the direct allowance read at poll `a` produced.
   */
  function ApproveAsync(tokenAddress: Option<string>, spender: Option<string>, hasClient: bool,
                        owner: Option<string>, required: nat,
                        write: WriteResponse, receipt: Receipt, observed: nat -> AllowanceRead): (r: Flow<string>)
    ensures tokenAddress.None? || spender.None? ==> r == Flow(Failure(Plain("Invalid token or spender")), [])
    ensures tokenAddress.Some? && spender.Some? && !hasClient ==>
      r == Flow(Failure(Plain("Public client not available")), [])
    ensures tokenAddress.Some? && spender.Some? && hasClient && write.Sent? && receipt.Mined? && owner.None? ==>
      r == Flow(Failure(Plain("Owner address not available")), Settled(tokenAddress.value, spender.value, required, write.hash))
    ensures r.effects != [] ==>
      |r.effects| >= 2 && r.effects[..2] == [SwitchNetwork, Submit(ApproveCall(tokenAddress.value, spender.value, required))]
  {
    if tokenAddress.None? || spender.None? then Flow(Failure(Plain("Invalid token or spender")), [])
    else if !hasClient then Flow(Failure(Plain("Public client not available")), [])
    else
      var sent := [SwitchNetwork, Submit(ApproveCall(tokenAddress.value, spender.value, required))];
      match write
      case WriteFailed(e) => Flow(Failure(e), sent)
      case Sent(hash) =>
        var waited := sent + [AwaitReceipt(hash)];
        match receipt
        case ReceiptFailed(e) => Flow(Failure(e), waited)
        case Reverted => Flow(Failure(Plain("Approve transaction failed")), waited)
        case Mined =>
          var refetched := waited + [RefetchAllowance];
          if owner.None? then Flow(Failure(Plain("Owner address not available")), refetched)
          else
            var poll := Retry.RetryUntilCondition(PollCondition(required, observed), AllowancePolling);
            var effects := refetched + Polls(poll.trace);
            match poll.outcome
            case Met => Flow(Success(hash), effects)
            case Exhausted(m) => Flow(Failure(Plain(m)), effects)
            case Raised(e) => Flow(Failure(e), effects)
  }

  /** The prefix of effects every approve that reaches the polling step has made. */
  function Settled(tokenAddress: string, spender: string, required: nat, hash: string): seq<Effect>
  {
    [SwitchNetwork, Submit(ApproveCall(tokenAddress, spender, required)), AwaitReceipt(hash), RefetchAllowance]
  }

  /**
   * A returned hash means: the approve was sent and mined, the owner was
   * known, and within at most five reads the allowance was seen to cover the
   * required amount, after which approval is no longer needed.
   */
  lemma ApproveSuccessMeans(tokenAddress: Option<string>, spender: Option<string>, hasClient: bool,
                            owner: Option<string>, required: nat,
                            write: WriteResponse, receipt: Receipt, observed: nat -> AllowanceRead)
    requires ApproveAsync(tokenAddress, spender, hasClient, owner, required, write, receipt, observed).result.Success?
    ensures var r := ApproveAsync(tokenAddress, spender, hasClient, owner, required, write, receipt, observed);
      && tokenAddress.Some? && spender.Some? && hasClient && owner.Some?
      && write == Sent(r.result.value) && receipt == Mined
      && exists k :: 0 <= k < 5 && observed(k).Read? && observed(k).value >= required
           && !NeedsApproval(true, required, observed(k).value)
           && (forall j :: 0 <= j < k ==> observed(j).Read? && observed(j).value < required)
           && |r.effects| == 4 + 3 * k + 1
           && r.effects[..4] == Settled(tokenAddress.value, spender.value, required, r.result.value)
  {
    var cond := PollCondition(required, observed);
    var poll := Retry.RetryUntilCondition(cond, AllowancePolling);
    var n := Retry.Performed(poll.trace);
    var k := n - 1;
    assert cond(k) == Retry.Holds(true);
    forall j | 0 <= j < k
      ensures observed(j).Read? && observed(j).value < required
    {
      assert cond(j) == Retry.Holds(false);
    }
  }

  /** The approve sequence submits exactly one transaction, approve(spender, required), or none. */
  lemma ApproveSubmitsOnce(tokenAddress: Option<string>, spender: Option<string>, hasClient: bool,
                           owner: Option<string>, required: nat,
                           write: WriteResponse, receipt: Receipt, observed: nat -> AllowanceRead)
    ensures var r := ApproveAsync(tokenAddress, spender, hasClient, owner, required, write, receipt, observed);
      && Submissions(r.effects) <= 1
      && (forall i :: 0 <= i < |r.effects| && r.effects[i].Submit? ==>
            i == 1 && r.effects[i].call == ApproveCall(tokenAddress.value, spender.value, required))
  {
    var r := ApproveAsync(tokenAddress, spender, hasClient, owner, required, write, receipt, observed);
    if r.effects != [] {
      var head := r.effects[..2];
      var tail := r.effects[2..];
      assert r.effects == head + tail;
      assert forall i :: 0 <= i < |tail| ==> !tail[i].Submit?;
      NoSubmitCount(tail);
      SubmissionsConcat(head, tail);
      assert Submissions(head) == 1 by {
        assert head[1..][1..] == [];
      }
    }
  }

  /** A list of effects with no submission in it counts none. */
  lemma {:induction false} NoSubmitCount(t: seq<Effect>)
    requires forall i :: 0 <= i < |t| ==> !t[i].Submit?
    ensures Submissions(t) == 0
    decreases |t|
  {
    if t != [] {
      NoSubmitCount(t[1..]);
    }
  }

  /** A reverted receipt fails with "Approve transaction failed" before any allowance poll. */
  lemma ApproveReverted(tokenAddress: string, spender: string, owner: Option<string>, required: nat,
                        hash: string, observed: nat -> AllowanceRead)
    ensures var r := ApproveAsync(Some(tokenAddress), Some(spender), true, owner, required, Sent(hash), Reverted, observed);
      && r.result == Failure(Plain("Approve transaction failed"))
      && (forall i :: 0 <= i < |r.effects| ==> !r.effects[i].Poll? && !r.effects[i].RefetchAllowance?)
  {
  }

  /** The condition each allowance poll evaluates, attempt by attempt. */
  function PollCondition(required: nat, observed: nat -> AllowanceRead): nat -> Retry.Check<ErrorInfo>
  {
    (a: nat) => AllowanceCheck(required, observed(a))
  }

  /** Five reads below the required amount exhaust the polling: five reads, four waits of 200 ms. */
  lemma PollingExhausted(required: nat, observed: nat -> AllowanceRead)
    requires forall j :: 0 <= j < 5 ==> observed(j).Read? && observed(j).value < required
    ensures var poll := Retry.RetryUntilCondition(PollCondition(required, observed), AllowancePolling);
      && poll.outcome == Retry.Exhausted("Condition not met after 5 attempts")
      && Retry.Evaluations(poll.trace) == 5 && Retry.Waits(poll.trace) == 4
      && (forall i :: 0 <= i < |poll.trace| && poll.trace[i].Wait? ==> poll.trace[i].ms == 200)
  {
    var cond := PollCondition(required, observed);
    forall j | 0 <= j < AllowancePolling.maxRetries
      ensures cond(j) == Retry.Holds(false)
    {
    }
    Retry.ExhaustsAfterAll(cond, AllowancePolling);
    var poll := Retry.RetryUntilCondition(cond, AllowancePolling);
    Retry.ScheduleWaits(poll.trace, AllowancePolling, 0, Retry.Performed(poll.trace));
    FiveAttempts();
  }

  lemma FiveAttempts()
    ensures Retry.ExhaustionMessage(5) == "Condition not met after 5 attempts"
  {
    assert IntToString(5) == "5";
    assert "Condition not met after " + "5" + " attempts" == "Condition not met after 5 attempts";
  }

  /** Once the approve is mined and the owner known, the flow is the polling loop's outcome. */
  lemma ApproveReachesPolling(tokenAddress: string, spender: string, owner: string, required: nat,
                              hash: string, observed: nat -> AllowanceRead)
    ensures var r := ApproveAsync(Some(tokenAddress), Some(spender), true, Some(owner), required, Sent(hash), Mined, observed);
      var poll := Retry.RetryUntilCondition(PollCondition(required, observed), AllowancePolling);
      && r.effects == Settled(tokenAddress, spender, required, hash) + Polls(poll.trace)
      && (poll.outcome.Met? ==> r.result == Success(hash))
      && (poll.outcome.Exhausted? ==> r.result == Failure(Plain(poll.outcome.message)))
      && (poll.outcome.Raised? ==> r.result == Failure(poll.outcome.error))
  {
  }

  /**
   * When all five reads stay below the required amount, no hash is returned:
   * the exhaustion error of the retry loop propagates after exactly five reads
   * and four waits of 200 ms.
   */
  lemma ApproveNeverConfirmed(tokenAddress: string, spender: string, owner: string, required: nat,
                              hash: string, observed: nat -> AllowanceRead)
    requires forall j :: 0 <= j < 5 ==> observed(j).Read? && observed(j).value < required
    ensures var r := ApproveAsync(Some(tokenAddress), Some(spender), true, Some(owner), required, Sent(hash), Mined, observed);
      && r.result == Failure(Plain("Condition not met after 5 attempts"))
      && r.effects[..4] == Settled(tokenAddress, spender, required, hash)
      && exists t: seq<Retry.Event> :: r.effects[4..] == Polls(t)
           && Retry.Evaluations(t) == 5 && Retry.Waits(t) == 4
           && (forall i :: 0 <= i < |t| && t[i].Wait? ==> t[i].ms == 200)
  {
    PollingExhausted(required, observed);
    ApproveReachesPolling(tokenAddress, spender, owner, required, hash, observed);
    var poll := Retry.RetryUntilCondition(PollCondition(required, observed), AllowancePolling);
    var r := ApproveAsync(Some(tokenAddress), Some(spender), true, Some(owner), required, Sent(hash), Mined, observed);
    assert r.effects[4..] == Polls(poll.trace);
  }
}
