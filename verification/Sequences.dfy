/** Reversal of sequences. */
module Sequences {

  function Reverse<T>(s: seq<T>): seq<T> {
    if s == [] then [] else [s[|s| - 1]] + Reverse(s[..|s| - 1])
  }

  lemma {:induction false} ReverseConcat<T>(a: seq<T>, b: seq<T>)
    ensures Reverse(a + b) == Reverse(b) + Reverse(a)
  {
    if b == [] {
      assert a + b == a;
    } else {
      ReverseConcat(a, b[..|b| - 1]);
      assert (a + b)[..|a + b| - 1] == a + b[..|b| - 1];
    }
  }

  lemma {:induction false} ReverseLength<T>(s: seq<T>)
    ensures |Reverse(s)| == |s|
  {
    if s != [] {
      ReverseLength(s[..|s| - 1]);
    }
  }

  lemma {:induction false} ReverseAt<T>(s: seq<T>, i: nat)
    requires i < |s|
    ensures i < |Reverse(s)| && Reverse(s)[i] == s[|s| - 1 - i]
  {
    if i > 0 {
      ReverseAt(s[..|s| - 1], i - 1);
    }
  }
}
