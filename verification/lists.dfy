/** Order-preserving sublists, shared by the list filters of the model. */
module Lists {

  /** `a` is `b` with some elements left out, the order kept. */
  predicate Subsequence<T(==)>(a: seq<T>, b: seq<T>)
    decreases |b|
  {
    if a == [] then true
    else if b == [] then false
    else if a[|a| - 1] == b[|b| - 1] then Subsequence(a[..|a| - 1], b[..|b| - 1])
    else Subsequence(a, b[..|b| - 1])
  }

  /** A subsequence of `b` is one of `b` extended by an element. */
  lemma {:induction false} SubsequenceExtend<T>(a: seq<T>, b: seq<T>, x: T)
    requires Subsequence(a, b)
    ensures Subsequence(a, b + [x])
    decreases |a| + |b|, 1
  {
    var b' := b + [x];
    assert b'[..|b'| - 1] == b;
    if a != [] && a[|a| - 1] == x {
      SubsequenceDrop(a, b);
    }
  }

  /** Dropping the last element of a subsequence keeps it a subsequence. */
  lemma {:induction false} SubsequenceDrop<T>(a: seq<T>, b: seq<T>)
    requires a != [] && Subsequence(a, b)
    ensures Subsequence(a[..|a| - 1], b)
    decreases |a| + |b|, 0
  {
    var a' := a[..|a| - 1];
    if b != [] {
      var b' := b[..|b| - 1];
      if a[|a| - 1] == b[|b| - 1] {
        SubsequenceExtend(a', b', b[|b| - 1]);
        assert b' + [b[|b| - 1]] == b;
      } else {
        SubsequenceDrop(a, b');
        SubsequenceExtend(a', b', b[|b| - 1]);
        assert b' + [b[|b| - 1]] == b;
      }
    }
  }
}
