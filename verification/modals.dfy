/**
 * The `use…` hooks of the dialog contexts: the value of the nearest
 * provider, or an error thrown when there is none.
 */
module Provider {
  import opened Wrappers

  /** A context hook: the provider's value, or `message` as the thrown error outside a provider. */
  function UseContext<C>(ctx: Option<C>, message: string): (r: Result<C, string>)
    ensures ctx.Some? <==> r.Success?
    ensures r.Success? ==> r.value == ctx.value
    ensures r.Failure? ==> r.error == message
  {
    if ctx.None? then Failure(message) else Success(ctx.value)
  }

  /** The hook loses nothing: its result gives the context back, and a failure always carries the hook's message. */
  lemma HookRecoversContext<C>(ctx: Option<C>, message: string)
    ensures (match UseContext(ctx, message) case Success(c) => Some(c) case Failure(_) => None) == ctx
    ensures forall m :: UseContext(ctx, message).Failure? ==> UseContext(ctx, m) == Failure(m)
  {
  }
}

/**
 * components/ui/TransactionModalContext.tsx: the state of the transaction
 * result dialog and its two transitions, `open` and `close`.
 */
module TxModal {
  import opened Wrappers
  import Provider

  datatype TxType = Supply | Withdraw | Approve

  /** The dialog: whether it shows, what kind of transaction, its hash and explorer link. */
  datatype State = State(isOpen: bool, kind: Option<TxType>, txHash: Option<string>, explorerUrl: Option<string>)

  /** `{ isOpen: false, type: null }`. */
  const Initial: State := State(false, None, None, None)

  /** `open(type, txHash, explorerUrl)`: whatever was shown before is replaced. */
  function Open(s: State, kind: TxType, txHash: Option<string>, explorerUrl: Option<string>): (r: State)
    ensures r.isOpen && r.kind == Some(kind) && r.txHash == txHash && r.explorerUrl == explorerUrl
  {
    State(true, Some(kind), txHash, explorerUrl)
  }

  /** `close()`: back to the initial state, hash and link discarded. */
  function Close(s: State): (r: State)
    ensures !r.isOpen && r.kind.None? && r.txHash.None? && r.explorerUrl.None?
  {
    Initial
  }

  /** The states the dialog can be in: it shows exactly when it has a kind, and a closed dialog keeps no hash or link. */
  predicate Consistent(s: State)
  {
    (s.isOpen <==> s.kind.Some?) && (!s.isOpen ==> s.txHash.None? && s.explorerUrl.None?)
  }

  /** Both transitions keep the dialog consistent, starting from the initial state. */
  lemma TransitionsConsistent(s: State, kind: TxType, txHash: Option<string>, explorerUrl: Option<string>)
    ensures Consistent(Initial)
    ensures Consistent(Open(s, kind, txHash, explorerUrl))
    ensures Consistent(Close(s))
  {
  }

  /** `open` ignores the previous state; `close` after anything is the initial state. */
  lemma OpenCloseLaws(s: State, t: State, kind: TxType, txHash: Option<string>, explorerUrl: Option<string>)
    ensures Open(s, kind, txHash, explorerUrl) == Open(t, kind, txHash, explorerUrl)
    ensures Close(Open(s, kind, txHash, explorerUrl)) == Initial
    ensures Close(Close(s)) == Close(s)
  {
  }

  /** `useTransactionModal()`. */
  function UseTransactionModal<C>(ctx: Option<C>): Result<C, string>
  {
    Provider.UseContext(ctx, "useTransactionModal must be used within TransactionModalProvider")
  }
}

/**
 * components/wallet/WalletModalContext.tsx: whether the wallet dialog is
 * open, and its `open`, `close` and `toggle` transitions.
 */
module WalletModal {
  import opened Wrappers
  import Provider

  /** The dialog starts closed. */
  const Initial: bool := false

  function Open(isOpen: bool): (r: bool)
    ensures r
  {
    true
  }

  function Close(isOpen: bool): (r: bool)
    ensures !r
  {
    false
  }

  /** `toggle()`: flips the state. */
  function Toggle(isOpen: bool): (r: bool)
    ensures r != isOpen
  {
    !isOpen
  }

  /** Opening and closing are idempotent, and two toggles cancel out. */
  lemma TransitionLaws(isOpen: bool)
    ensures Open(Open(isOpen)) == Open(isOpen)
    ensures Close(Close(isOpen)) == Close(isOpen)
    ensures Toggle(Toggle(isOpen)) == isOpen
    ensures Toggle(Open(isOpen)) == Close(isOpen) && Toggle(Close(isOpen)) == Open(isOpen)
    ensures Toggle(Initial) == Open(Initial)
  {
  }

  /** `useWalletModalContext()`. */
  function UseWalletModalContext<C>(ctx: Option<C>): Result<C, string>
  {
    Provider.UseContext(ctx, "useWalletModalContext must be used within WalletModalProvider")
  }

  /** Inside a provider the hook hands back its value; outside one it throws the wallet dialog's message. */
  lemma WalletContextHook<C>(c: C)
    ensures UseWalletModalContext(Some(c)) == Success(c)
    ensures UseWalletModalContext<C>(None) == Failure("useWalletModalContext must be used within WalletModalProvider")
  {
  }
}
