/**
 * lib/state/toast.ts: the list of toasts on screen. Adding appends one
 * toast; removing drops every toast with the given id. The id the source
 * builds from the clock and a random string is a parameter here.
 */
module Toasts {
  import opened Lists

  datatype ToastType = Success | Error | Info

  datatype Toast = Toast(id: string, kind: ToastType, message: string)

  /** `toastsAtom` starts with no toast. */
  const Initial: seq<Toast> := []

  /** `addToastAtom`: the new toast goes last, the others stay as they are. */
  function Add(toasts: seq<Toast>, id: string, kind: ToastType, message: string): (r: seq<Toast>)
    ensures |r| == |toasts| + 1
    ensures r[..|toasts|] == toasts
    ensures r[|toasts|].id == id && r[|toasts|].kind == kind && r[|toasts|].message == message
  {
    toasts + [Toast(id, kind, message)]
  }

  /** `removeToastAtom`: the toasts whose id differs, in their order. */
  function Remove(toasts: seq<Toast>, id: string): seq<Toast>
    decreases |toasts|
  {
    if toasts == [] then []
    else
      var rest := Remove(toasts[..|toasts| - 1], id);
      var last := toasts[|toasts| - 1];
      if last.id == id then rest else rest + [last]
  }

  /**
   * What Remove keeps: no toast with the id, every toast without it, and
   * nothing but the original toasts in their original order.
   */
  lemma {:induction false} RemoveMeaning(toasts: seq<Toast>, id: string)
    ensures forall t :: t in Remove(toasts, id) <==> t in toasts && t.id != id
    ensures Subsequence(Remove(toasts, id), toasts)
    ensures |Remove(toasts, id)| <= |toasts|
    ensures forall t :: multiset(Remove(toasts, id))[t] == if t.id == id then 0 else multiset(toasts)[t]
    decreases |toasts|
  {
    if toasts != [] {
      var init := toasts[..|toasts| - 1];
      RemoveMeaning(init, id);
      var last := toasts[|toasts| - 1];
      assert toasts == init + [last];
      var rest := Remove(init, id);
      if last.id != id {
        assert (rest + [last])[..|rest|] == rest;
      } else {
        SubsequenceExtend(rest, init, last);
      }
    }
    RemoveCounts(toasts, id);
  }

  /** Remove keeps every copy of a toast without the id, and none with it. */
  lemma {:induction false} RemoveCounts(toasts: seq<Toast>, id: string)
    ensures forall t :: multiset(Remove(toasts, id))[t] == if t.id == id then 0 else multiset(toasts)[t]
    decreases |toasts|
  {
    if toasts != [] {
      var init := toasts[..|toasts| - 1];
      var last := toasts[|toasts| - 1];
      RemoveCounts(init, id);
      assert toasts == init + [last];
      assert multiset(toasts) == multiset(init) + multiset{last};
      var rest := Remove(init, id);
      if last.id != id {
        assert multiset(rest + [last]) == multiset(rest) + multiset{last};
      }
    }
  }

  /** Removing an id no toast carries changes nothing. */
  lemma {:induction false} RemoveAbsent(toasts: seq<Toast>, id: string)
    requires forall i :: 0 <= i < |toasts| ==> toasts[i].id != id
    ensures Remove(toasts, id) == toasts
    decreases |toasts|
  {
    if toasts != [] {
      var init := toasts[..|toasts| - 1];
      RemoveAbsent(init, id);
      assert toasts == init + [toasts[|toasts| - 1]];
    }
  }

  /** Removing twice is removing once. */
  lemma RemoveIdempotent(toasts: seq<Toast>, id: string)
    ensures Remove(Remove(toasts, id), id) == Remove(toasts, id)
  {
    var r := Remove(toasts, id);
    RemoveMeaning(toasts, id);
    forall i | 0 <= i < |r|
      ensures r[i].id != id
    {
      assert r[i] in r;
    }
    RemoveAbsent(r, id);
  }

  /** Removing the id just added undoes the add, and removing another id commutes with it. */
  lemma AddThenRemove(toasts: seq<Toast>, id: string, kind: ToastType, message: string, other: string)
    requires other != id
    ensures Remove(Add(toasts, id, kind, message), id) == Remove(toasts, id)
    ensures Remove(Add(toasts, id, kind, message), other) == Add(Remove(toasts, other), id, kind, message)
  {
    var added := Add(toasts, id, kind, message);
    assert added[..|added| - 1] == toasts;
  }

  /** A fresh id added and then removed leaves the list as it was. */
  lemma AddRemoveRoundTrip(toasts: seq<Toast>, id: string, kind: ToastType, message: string)
    requires forall i :: 0 <= i < |toasts| ==> toasts[i].id != id
    ensures Remove(Add(toasts, id, kind, message), id) == toasts
  {
    AddThenRemove(toasts, id, kind, message, id + "'");
    RemoveAbsent(toasts, id);
  }
}
