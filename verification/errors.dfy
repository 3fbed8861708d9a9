/**
 * The error classifier of lib/utils/error.ts: is a wallet or RPC error a
 * user rejection, an insufficient-balance failure, or something else, and
 * which user-facing message does that give.
 *
 * An error object is a record of the optional fields the classifier reads.
 * A missing error (`null`, `undefined`, any falsy value) is `None`.
 */
module Errors {
  import opened Wrappers
  import opened Text

  /** The `code` field: absent, a number (MetaMask) or a string (WalletConnect). */
  datatype Code = NoCode | NumCode(n: int) | StrCode(s: string)

  /** The fields of a thrown error that the classifier looks at. */
  datatype ErrorInfo = ErrorInfo(
    code: Code,
    name: Option<string>,
    message: Option<string>,
    shortMessage: Option<string>,
    reason: Option<string>,
    dataMessage: Option<string>)

  /** `new Error(m)`: a message and the name "Error", nothing else. */
  function Plain(m: string): (e: ErrorInfo)
    ensures e.message == Some(m) && e.code == NoCode
  {
    ErrorInfo(NoCode, Some("Error"), Some(m), None, None, None)
  }

  /** `field?.toLowerCase() || ''`. */
  function Folded(f: Option<string>): (r: string)
    ensures |r| == |f.GetOr("")|
    ensures forall i :: 0 <= i < |r| ==> r[i] == LowerChar(f.GetOr("")[i])
    ensures f.None? ==> r == ""
    ensures forall i :: 0 <= i < |r| ==> !('A' <= r[i] <= 'Z')
  {
    Lower(f.GetOr(""))
  }

  /** The three texts a rejection is searched in, joined by spaces. */
  function RejectionText(e: ErrorInfo): string
  {
    Folded(e.message) + " " + Folded(e.shortMessage) + " " + Folded(e.reason)
  }

  /** The four texts an insufficient-balance failure is searched in, joined by spaces. */
  function BalanceText(e: ErrorInfo): string
  {
    RejectionText(e) + " " + Folded(e.dataMessage)
  }

  /** The code or name a wallet uses to say the user refused the request. */
  predicate RejectionMarker(e: ErrorInfo)
  {
    || e.code == NumCode(4001)
    || e.code == StrCode("ACTION_REJECTED")
    || e.name == Some("UserRejectedRequestError")
    || e.name == Some("RejectedRequestError")
  }

  /** `isUserRejectedError(error)`. */
  predicate IsUserRejected(error: Option<ErrorInfo>)
  {
    && error.Some?
    && var e := error.value;
       var t := RejectionText(e);
       || RejectionMarker(e)
       || Contains(t, "user rejected")
       || Contains(t, "user denied")
       || Contains(t, "user cancelled")
       || Contains(t, "rejected")
       || Contains(t, "denied")
  }

  /** `isInsufficientBalanceError(error)`. */
  predicate IsInsufficientBalance(error: Option<ErrorInfo>)
  {
    && error.Some?
    && var t := BalanceText(error.value);
       || Contains(t, "insufficient balance")
       || Contains(t, "insufficient funds")
       || Contains(t, "balance too low")
       || Contains(t, "transfer amount exceeds balance")
       || Contains(t, "exceeds balance")
       || Contains(t, "erc20: transfer amount exceeds balance")
       || (Contains(t, "execution reverted") && (Contains(t, "balance") || Contains(t, "insufficient")))
  }

  const InsufficientBalanceMessage := "Insufficient balance"

  /** The message used when the caller gives none. */
  const DefaultMessage := "Transaction failed due to an unexpected error"

  /**
   * `getErrorMessage(error, defaultMessage)`: empty for a rejection (the
   * user already knows), a fixed text for insufficient balance, the default
   * otherwise. Provider text never reaches the result.
   */
  function GetErrorMessage(error: Option<ErrorInfo>, defaultMessage: string): (r: string)
    ensures r == "" || r == InsufficientBalanceMessage || r == defaultMessage
    ensures error.None? ==> r == defaultMessage
    ensures IsUserRejected(error) ==> r == ""
    ensures !IsUserRejected(error) && IsInsufficientBalance(error) ==> r == InsufficientBalanceMessage
    ensures !IsUserRejected(error) && !IsInsufficientBalance(error) ==> r == defaultMessage
  {
    if error.None? then defaultMessage
    else if IsUserRejected(error) then ""
    else if IsInsufficientBalance(error) then InsufficientBalanceMessage
    else defaultMessage
  }

  /** A missing error is neither a rejection nor an insufficient-balance failure. */
  lemma MissingErrorIsNeither()
    ensures !IsUserRejected(None) && !IsInsufficientBalance(None)
    ensures GetErrorMessage(None, DefaultMessage) == DefaultMessage
  {
  }

  /** Every phrase of the rejection list is subsumed by "rejected", "denied" or "user cancelled". */
  lemma RejectionPhrases(t: string)
    ensures Contains(t, "user rejected") ==> Contains(t, "rejected")
    ensures Contains(t, "user denied") ==> Contains(t, "denied")
  {
    assert OccursAt("user rejected", "rejected", 5);
    assert OccursAt("user denied", "denied", 5);
    if Contains(t, "user rejected") {
      ContainsTransitive(t, "user rejected", "rejected");
    }
    if Contains(t, "user denied") {
      ContainsTransitive(t, "user denied", "denied");
    }
  }

  /**
   * The rejection rule in its shortest form: a marker code or name, or the
   * folded text mentions "rejected", "denied" or "user cancelled".
   */
  lemma RejectedIff(e: ErrorInfo)
    ensures IsUserRejected(Some(e)) <==>
      var t := RejectionText(e);
      RejectionMarker(e) || Contains(t, "rejected") || Contains(t, "denied") || Contains(t, "user cancelled")
  {
    RejectionPhrases(RejectionText(e));
  }

  /** Every phrase of the balance list that ends in "exceeds balance" is subsumed by it. */
  lemma BalancePhrases(t: string)
    ensures Contains(t, "transfer amount exceeds balance") ==> Contains(t, "exceeds balance")
    ensures Contains(t, "erc20: transfer amount exceeds balance") ==> Contains(t, "exceeds balance")
  {
    assert OccursAt("transfer amount exceeds balance", "exceeds balance", 16);
    assert OccursAt("erc20: transfer amount exceeds balance", "exceeds balance", 23);
    if Contains(t, "transfer amount exceeds balance") {
      ContainsTransitive(t, "transfer amount exceeds balance", "exceeds balance");
    }
    if Contains(t, "erc20: transfer amount exceeds balance") {
      ContainsTransitive(t, "erc20: transfer amount exceeds balance", "exceeds balance");
    }
  }

  /** The balance rule in its shortest form. */
  lemma InsufficientIff(e: ErrorInfo)
    ensures IsInsufficientBalance(Some(e)) <==>
      var t := BalanceText(e);
      || Contains(t, "insufficient balance")
      || Contains(t, "insufficient funds")
      || Contains(t, "balance too low")
      || Contains(t, "exceeds balance")
      || (Contains(t, "execution reverted") && (Contains(t, "balance") || Contains(t, "insufficient")))
  {
    BalancePhrases(BalanceText(e));
  }

  /** A message that mentions "rejected" makes the error a rejection, whatever else it says. */
  lemma RejectedInMessage(e: ErrorInfo)
    requires e.message.Some? && Contains(Lower(e.message.value), "rejected")
    ensures IsUserRejected(Some(e))
    ensures GetErrorMessage(Some(e), DefaultMessage) == ""
  {
    ContainsInConcat([], Folded(e.message), " " + Folded(e.shortMessage) + " " + Folded(e.reason), "rejected");
    assert [] + Folded(e.message) + (" " + Folded(e.shortMessage) + " " + Folded(e.reason)) == RejectionText(e);
  }

  /** A `data.message` that mentions "insufficient funds" makes the error an insufficient-balance failure. */
  lemma InsufficientInData(e: ErrorInfo)
    requires e.dataMessage.Some? && Contains(Lower(e.dataMessage.value), "insufficient funds")
    ensures IsInsufficientBalance(Some(e))
  {
    ContainsInConcat(RejectionText(e) + " ", Folded(e.dataMessage), [], "insufficient funds");
    assert RejectionText(e) + " " + Folded(e.dataMessage) + [] == BalanceText(e);
  }

  /** Rejection takes precedence: an error that is also insufficient balance still yields the empty message. */
  lemma RejectionPrecedence(e: ErrorInfo, defaultMessage: string)
    requires IsUserRejected(Some(e)) && IsInsufficientBalance(Some(e))
    ensures GetErrorMessage(Some(e), defaultMessage) == ""
  {
  }

  /** The error with its message, short message, reason and data message upper-cased. */
  function Shouted(e: ErrorInfo): (u: ErrorInfo)
    ensures u.code == e.code && u.name == e.name
  {
    var up := (f: Option<string>) => if f.Some? then Some(Upper(f.value)) else None;
    e.(message := up(e.message), shortMessage := up(e.shortMessage),
       reason := up(e.reason), dataMessage := up(e.dataMessage))
  }

  lemma FoldedOfUpper(f: Option<string>)
    ensures Folded(if f.Some? then Some(Upper(f.value)) else None) == Folded(f)
  {
    if f.Some? {
      LowerOfUpper(f.value);
    }
  }

  /** The text matching ignores case: upper-casing the texts changes neither verdict nor message. */
  lemma CaseInsensitive(e: ErrorInfo, defaultMessage: string)
    ensures IsUserRejected(Some(Shouted(e))) == IsUserRejected(Some(e))
    ensures IsInsufficientBalance(Some(Shouted(e))) == IsInsufficientBalance(Some(e))
    ensures GetErrorMessage(Some(Shouted(e)), defaultMessage) == GetErrorMessage(Some(e), defaultMessage)
  {
    var u := Shouted(e);
    FoldedOfUpper(e.message);
    FoldedOfUpper(e.shortMessage);
    FoldedOfUpper(e.reason);
    FoldedOfUpper(e.dataMessage);
    assert RejectionText(u) == RejectionText(e);
    assert BalanceText(u) == BalanceText(e);
  }
}
