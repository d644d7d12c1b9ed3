/** Small value types shared by every module of the model: optional values,
    results that carry one of the exceptions the Kotlin code throws, and the
    order-reversal of a sequence together with its in-place array version. */
module Wrappers {

  /** A nullable value (`T?` in Kotlin). */
  datatype Option<+T> = None | Some(value: T)

  /** The JVM exceptions the modelled code can raise. */
  datatype Exception =
    | IllegalArgument
    | IndexOutOfBounds
    | NullPointer

  /** Either a value or the exception thrown instead of returning one. */
  datatype Result<+T> = Success(value: T) | Failure(error: Exception)

  /** A statement that returns nothing but may throw. */
  datatype Outcome = Pass | Fail(error: Exception)

  /** No element of `s` occurs twice: each one is new where it is added. */
  predicate NoRepeats<T(==)>(s: seq<T>) {
    s == [] || (NoRepeats(s[..|s| - 1]) && s[|s| - 1] !in s[..|s| - 1])
  }

  /** Without repeats, two equal elements sit at the same index. */
  lemma {:induction false} NoRepeatsIndex<T>(s: seq<T>, i: nat, j: nat)
    requires NoRepeats(s) && i < |s| && j < |s| && s[i] == s[j]
    ensures i == j
  {
    var m := |s| - 1;
    if i < m && j < m {
      NoRepeatsIndex(s[..m], i, j);
    } else {
      assert forall k :: 0 <= k < m ==> s[..m][k] == s[k];
    }
  }

  /** Without repeats, the element at `i` occurs nowhere else. */
  lemma NoRepeatsOnlyAt<T>(s: seq<T>, i: nat)
    requires NoRepeats(s) && i < |s|
    ensures forall k :: 0 <= k < |s| && s[k] == s[i] ==> k == i
  {
    forall k | 0 <= k < |s| && s[k] == s[i]
      ensures k == i
    {
      NoRepeatsIndex(s, k, i);
    }
  }

  /** A non-empty sequence is its front followed by its last element. */
  lemma LastSplit<T>(s: seq<T>)
    requires s != []
    ensures s[..|s| - 1] + [s[|s| - 1]] == s
  {
  }

  /** Adding an element not yet there keeps a sequence free of repeats. */
  lemma NoRepeatsSnoc<T>(s: seq<T>, x: T)
    requires NoRepeats(s) && x !in s
    ensures NoRepeats(s + [x])
  {
    assert (s + [x])[..|s|] == s;
  }

  /** A non-empty set has an element. */
  lemma SomeElement<T>(s: set<T>) returns (x: T)
    requires s != {}
    ensures x in s
  {
    x :| x in s;
  }

  /** The elements of `s` as a set. */
  function Elements<T>(s: seq<T>): set<T> {
    set x | x in s
  }

  lemma ElementsSnoc<T>(s: seq<T>, x: T)
    ensures Elements(s + [x]) == Elements(s) + {x}
  {
  }

  lemma ElementsPrefix<T>(s: seq<T>, i: nat)
    requires i < |s|
    ensures Elements(s[..i + 1]) == Elements(s[..i]) + {s[i]}
  {
    assert s[..i + 1] == s[..i] + [s[i]];
    ElementsSnoc(s[..i], s[i]);
  }

  /** The position of the first occurrence of `x` in `s`. */
  function IndexOf<T(==)>(s: seq<T>, x: T): (i: nat)
    requires x in s
    ensures i < |s| && s[i] == x
  {
    if s[0] == x then 0 else 1 + IndexOf(s[1..], x)
  }

  /** `s` read back to front. */
  function Reversed<T>(s: seq<T>): (r: seq<T>)
    ensures |r| == |s|
    ensures forall k :: 0 <= k < |s| ==> r[k] == s[|s| - 1 - k]
  {
    seq(|s|, k requires 0 <= k < |s| => s[|s| - 1 - k])
  }

  /** Reversing twice gives the sequence back. */
  lemma ReversedInvolution<T>(s: seq<T>)
    ensures Reversed(Reversed(s)) == s
  {
  }

  /** Reversal distributes over concatenation, swapping the parts. */
  lemma ReversedConcat<T>(a: seq<T>, b: seq<T>)
    ensures Reversed(a + b) == Reversed(b) + Reversed(a)
  {
  }

  /** `java.util.Collections.reverse` / `MutableList.reverse`: swaps the
      elements of `a` pairwise from both ends towards the middle. */
  method ReverseInPlace<T>(a: array<T>)
    modifies a
    ensures a[..] == Reversed(old(a[..]))
  {
    var lo, hi := 0, a.Length - 1;
    while lo < hi
      invariant 0 <= lo <= a.Length && -1 <= hi < a.Length && lo + hi == a.Length - 1
      invariant forall k :: 0 <= k < lo ==> a[k] == old(a[a.Length - 1 - k])
      invariant forall k :: hi < k < a.Length ==> a[k] == old(a[a.Length - 1 - k])
      invariant forall k :: lo <= k <= hi ==> a[k] == old(a[k])
    {
      a[lo], a[hi] := a[hi], a[lo];
      lo, hi := lo + 1, hi - 1;
    }
  }
}
