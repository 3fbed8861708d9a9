/**
 * The vault configuration and the chain interface the hooks talk to.
 *
 * Nothing here performs I/O: a read is the result it produced, a write is the
 * response the wallet gave, and what a flow asks of the chain is recorded as
 * an effect, in order.
 */
module Chain {
  import opened Wrappers
  import opened Errors
  import Retry

  /** An ERC-20 token: the underlying asset of a vault. */
  datatype Token = Token(name: string, symbol: string, address: string, decimals: nat)

  /** An ERC-4626 vault of the application's vault list. */
  datatype Vault = Vault(name: string, symbol: string, vaultAddress: string, underlyingToken: Token)

  /** `decimalsMap[symbol] || 18`: a missing entry or a zero falls back to 18. */
  function DecimalsOf(decimalsMap: map<string, nat>, symbol: string): (d: nat)
    ensures d > 0
    ensures symbol in decimalsMap && decimalsMap[symbol] != 0 ==> d == decimalsMap[symbol]
    ensures symbol !in decimalsMap || decimalsMap[symbol] == 0 ==> d == 18
  {
    if symbol in decimalsMap && decimalsMap[symbol] != 0 then decimalsMap[symbol] else 18
  }

  /** One contract read of a batch: success with an integer result, or anything else. */
  datatype ReadResult = ReadOk(value: nat) | ReadFail

  /** `status === 'success' && typeof result === 'bigint' ? result : 0n`. */
  function ReadOr0(r: Option<ReadResult>): (v: nat)
    ensures r == Some(ReadOk(v)) || (v == 0 && (r.None? || r.value.ReadFail?))
  {
    if r.Some? && r.value.ReadOk? then r.value.value else 0
  }

  /** The contract functions the application calls, with their arguments. */
  datatype Method =
    | Approve(spender: string, amount: nat)
    | Deposit(assets: nat, receiver: string)
    | Withdraw(assets: nat, receiver: string, owner: string)

  /** A transaction: the contract address and the call. */
  datatype Call = Call(target: string, invocation: Method)

  /** What `writeContractAsync` produced: a transaction hash, or a thrown error. */
  datatype WriteResponse = Sent(hash: string) | WriteFailed(error: ErrorInfo)

  /** What `waitForTransactionReceipt` produced. */
  datatype Receipt = Mined | Reverted | ReceiptFailed(error: ErrorInfo)

  /** What one direct allowance read produced. */
  datatype AllowanceRead = Read(value: nat) | ReadThrew(error: ErrorInfo)

  /** A request made of the wallet or the chain, in the order made. */
  datatype Effect =
    | SwitchNetwork
    | Submit(call: Call)
    | AwaitReceipt(hash: string)
    | RefetchAllowance
    | Poll(event: Retry.Event)

  /** An asynchronous flow: how it settled, and what it asked for on the way. */
  datatype Flow<T> = Flow(result: Result<T, ErrorInfo>, effects: seq<Effect>)

  /** The error viem's `parseUnits` throws for a string that is not a decimal number. */
  function InvalidDecimal(s: string): (e: ErrorInfo)
    ensures e.message.Some?
  {
    ErrorInfo(NoCode, Some("InvalidDecimalNumberError"),
      Some("Number `" + s + "` is not a valid decimal number."), None, None, None)
  }

  /** Number of transaction submissions among the effects. */
  function Submissions(effects: seq<Effect>): nat
  {
    if effects == [] then 0 else (if effects[0].Submit? then 1 else 0) + Submissions(effects[1..])
  }

  /** The retry events of a polling loop, as effects. */
  function Polls(t: seq<Retry.Event>): (r: seq<Effect>)
    ensures |r| == |t|
    ensures forall i :: 0 <= i < |t| ==> r[i] == Poll(t[i])
  {
    seq(|t|, i requires 0 <= i < |t| => Poll(t[i]))
  }

  /** Polling never submits a transaction. */
  lemma {:induction false} PollsSubmitNothing(t: seq<Retry.Event>)
    ensures Submissions(Polls(t)) == 0
    decreases |t|
  {
    if t != [] {
      assert Polls(t)[1..] == Polls(t[1..]);
      PollsSubmitNothing(t[1..]);
    }
  }

  /** Submissions of a concatenation add up. */
  lemma {:induction false} SubmissionsConcat(a: seq<Effect>, b: seq<Effect>)
    ensures Submissions(a + b) == Submissions(a) + Submissions(b)
    decreases |a|
  {
    if a != [] {
      assert (a + b)[1..] == a[1..] + b;
      SubmissionsConcat(a[1..], b);
    } else {
      assert a + b == b;
    }
  }
}
