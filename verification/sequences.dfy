/** Sequence helpers used to state what the list operations compute. */
module Sequences {

  /** The elements of `s` in the opposite order. */
  function Reversed<X>(s: seq<X>): (r: seq<X>)
    ensures |r| == |s|
    ensures forall i :: 0 <= i < |s| ==> r[i] == s[|s| - 1 - i]
  {
    seq(|s|, i requires 0 <= i < |s| => s[|s| - 1 - i])
  }

  /** The `n` consecutive references starting at `base`. */
  function Span(base: nat, n: nat): (r: seq<nat>)
    ensures |r| == n
    ensures forall i :: 0 <= i < n ==> r[i] == base + i
  {
    seq(n, i requires 0 <= i < n => base + i)
  }

  /** Reversing a prefix one element longer puts that element in front. */
  lemma ReversedExtend<X>(s: seq<X>, k: nat)
    requires k < |s|
    ensures Reversed(s[..k + 1]) == [s[k]] + Reversed(s[..k])
  {
  }

  /** Reversal is its own inverse. */
  lemma ReversedTwice<X>(s: seq<X>)
    ensures Reversed(Reversed(s)) == s
  {
  }

  /** Reversal keeps the same elements. */
  lemma ReversedMembers<X>(s: seq<X>, x: X)
    ensures x in Reversed(s) <==> x in s
  {
    if x in s {
      var i :| 0 <= i < |s| && s[i] == x;
      assert Reversed(s)[|s| - 1 - i] == x;
    }
  }
}
