/** Sequences back to front. */
module Sequences {

  function Reversed<T>(s: seq<T>): (r: seq<T>)
    ensures |r| == |s|
  {
    if s == [] then [] else [s[|s| - 1]] + Reversed(s[..|s| - 1])
  }

  lemma {:induction false} ReversedAt<T>(s: seq<T>, k: nat)
    requires k < |s|
    ensures Reversed(s)[k] == s[|s| - 1 - k]
  {
    if k > 0 {
      ReversedAt(s[..|s| - 1], k - 1);
    }
  }

  lemma ReversedFrom<T>(s: seq<T>, r: seq<T>)
    requires |r| == |s| && forall k :: 0 <= k < |s| ==> r[k] == s[|s| - 1 - k]
    ensures r == Reversed(s)
  {
    forall k | 0 <= k < |s|
      ensures r[k] == Reversed(s)[k]
    {
      ReversedAt(s, k);
    }
  }

  lemma ReversedSnoc<T>(s: seq<T>, x: T)
    ensures Reversed(s + [x]) == [x] + Reversed(s)
  {
    assert (s + [x])[..|s|] == s;
  }

  lemma {:induction false} ReversedConcat<T>(a: seq<T>, b: seq<T>)
    ensures Reversed(a + b) == Reversed(b) + Reversed(a)
  {
    if b == [] {
      assert a + b == a;
    } else {
      assert (a + b)[..|a + b| - 1] == a + b[..|b| - 1];
      ReversedConcat(a, b[..|b| - 1]);
    }
  }
}
