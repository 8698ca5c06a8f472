/**
 Shellsort with halving gaps. The heart of the module is that a pass at one gap does not undo the
 order an earlier pass established at another gap.
 */
module Shellsort {
  import opened Arithmetic

  /** Elements `g` places apart are in order. */
  ghost predicate GapSorted(s: seq<int>, g: nat) {
    forall p, q :: 0 <= p < q < |s| && q == p + g ==> s[p] <= s[q]
  }

  /** The same among the first `n` elements only. */
  ghost predicate PrefixSorted(s: seq<int>, g: nat, n: nat) {
    forall p, q :: 0 <= p < q < |s| && q == p + g && q < n ==> s[p] <= s[q]
  }

  ghost predicate Ascending(s: seq<int>) {
    forall p, q :: 0 <= p < q < |s| ==> s[p] <= s[q]
  }

  /** How many of the first `n` elements at positions congruent to `c` modulo `g` are at most `t`. */
  ghost function Count(s: seq<int>, g: nat, c: nat, t: int, n: nat): nat
    requires g > 0 && n <= |s|
  {
    if n == 0 then 0 else Count(s, g, c, t, n - 1) + if (n - 1) % g == c && s[n - 1] <= t then 1 else 0
  }

  /** How many of the first `n` positions are congruent to `c` modulo `g`. */
  ghost function Members(g: nat, c: nat, n: nat): nat
    requires g > 0
  {
    if n == 0 then 0 else Members(g, c, n - 1) + if (n - 1) % g == c then 1 else 0
  }

  /** Each class of positions modulo `g` holds the same values in `a` and `b`. */
  ghost predicate SameClasses(a: seq<int>, b: seq<int>, g: nat)
    requires g > 0
  {
    |a| == |b| && forall c: nat, t: int :: Count(a, g, c, t, |a|) == Count(b, g, c, t, |b|)
  }

  lemma {:induction false} CountMonotone(s: seq<int>, g: nat, c: nat, t: int, m: nat, n: nat)
    requires g > 0 && m <= n <= |s|
    ensures Count(s, g, c, t, m) <= Count(s, g, c, t, n)
  {
    if m < n {
      CountMonotone(s, g, c, t, m, n - 1);
    }
  }

  lemma {:induction false} CountAtMostMembers(s: seq<int>, g: nat, c: nat, t: int, n: nat)
    requires g > 0 && n <= |s|
    ensures Count(s, g, c, t, n) <= Members(g, c, n)
  {
    if n > 0 {
      CountAtMostMembers(s, g, c, t, n - 1);
    }
  }

  /** Below a position lie as many members of its class as its quotient says. */
  lemma {:induction false} MembersBelow(g: nat, c: nat, n: nat)
    requires c < g
    ensures Members(g, c, n) == n / g + if c < n % g then 1 else 0
  {
    if n > 0 {
      MembersBelow(g, c, n - 1);
      DivModNext(g, n - 1);
    } else {
      assert 0 / g == 0 && 0 % g == 0;
    }
  }

  lemma {:induction false} MembersShift(g: nat, c: nat, h: nat, n: nat)
    requires c < g
    ensures Members(g, (c + h) % g, n + h) == Members(g, c, n) + Members(g, (c + h) % g, h)
  {
    if n > 0 {
      MembersShift(g, c, h, n - 1);
      ModShift(g, h, n - 1, c);
      DivModUnique(c, g, 0, c);
    }
  }

  /** In a sequence sorted at gap `g`, an element is at most `t` just when enough of its class are. */
  lemma RankInClass(s: seq<int>, g: nat, p: nat, t: int)
    requires g > 0 && p < |s| && GapSorted(s, g)
    ensures s[p] <= t <==> Count(s, g, p % g, t, |s|) > p / g
  {
    var c := p % g;
    DivModUnique(p, g, p / g, c);
    MembersBelow(g, c, p);
    if s[p] <= t {
      ClassBelow(s, g, p, t, p + 1);
      MembersBelow(g, c, p + 1);
      DivModNext(g, p);
      CountMonotone(s, g, c, t, p + 1, |s|);
    } else {
      ClassAbove(s, g, p, t, |s|);
      CountAtMostMembers(s, g, c, t, p);
    }
  }

  lemma {:induction false} ChainSorted(s: seq<int>, g: nat, p: nat, q: nat)
    requires g > 0 && p <= q < |s| && p % g == q % g && GapSorted(s, g)
    ensures s[p] <= s[q]
    decreases q
  {
    if p < q {
      StrideBack(g, p, q);
      ChainSorted(s, g, p, q - g);
    }
  }

  lemma StrideBack(g: nat, p: nat, q: nat)
    requires g > 0 && p < q && p % g == q % g
    ensures q - g >= p && (q - g) % g == p % g
  {
    assert p == g * (p / g) + p % g && q == g * (q / g) + q % g;
    var k := q / g - p / g;
    assert q - p == g * k;
    MultipleOutsideRange(g, k);
    assert q - g == g * (q / g - 1) + p % g;
    DivModUnique(q - g, g, q / g - 1, p % g);
  }

  lemma {:induction false} ClassBelow(s: seq<int>, g: nat, p: nat, t: int, n: nat)
    requires g > 0 && n <= p + 1 <= |s| && GapSorted(s, g) && s[p] <= t
    ensures Count(s, g, p % g, t, n) == Members(g, p % g, n)
  {
    if n > 0 {
      ClassBelow(s, g, p, t, n - 1);
      if (n - 1) % g == p % g {
        ChainSorted(s, g, n - 1, p);
      }
    }
  }

  lemma {:induction false} ClassAbove(s: seq<int>, g: nat, p: nat, t: int, n: nat)
    requires g > 0 && p < |s| && p <= n <= |s| && GapSorted(s, g) && s[p] > t
    ensures Count(s, g, p % g, t, n) == Count(s, g, p % g, t, p)
  {
    if n > p {
      ClassAbove(s, g, p, t, n - 1);
      if (n - 1) % g == p % g {
        ChainSorted(s, g, p, n - 1);
      }
    }
  }

  /** Order at gap `h` lets a class count be carried `h` places down. */
  lemma {:induction false} CountShift(s: seq<int>, g: nat, h: nat, c: nat, t: int, n: nat)
    requires c < g && n + h <= |s| && GapSorted(s, h)
    ensures Count(s, g, (c + h) % g, t, n + h) <= Count(s, g, c, t, n) + Count(s, g, (c + h) % g, t, h)
  {
    if n > 0 {
      CountShift(s, g, h, c, t, n - 1);
      ModShift(g, h, n - 1, c);
      DivModUnique(c, g, 0, c);
      assert h > 0 ==> s[n - 1] <= s[n - 1 + h];
    }
  }

  /**
   Sorting each class of a smaller gap keeps the order at an earlier gap: if `a` is sorted at `h`, and `b`
   is the same values sorted class by class at `g`, then `b` is still sorted at `h`.
   */
  lemma EarlierGapKept(a: seq<int>, b: seq<int>, g: nat, h: nat)
    requires g > 0 && SameClasses(a, b, g) && GapSorted(a, h) && GapSorted(b, g)
    ensures GapSorted(b, h)
  {
    forall p, q | 0 <= p < q < |b| && q == p + h
      ensures b[p] <= b[q]
    {
      var c, t := p % g, b[q];
      var d := q % g;
      assert d == (c + h) % g by {
        ModShift(g, h, p, c);
        DivModUnique(c, g, 0, c);
      }
      RankInClass(b, g, q, t);
      assert Count(b, g, d, t, |b|) == Count(a, g, d, t, |a|);
      CountShift(a, g, h, c, t, |a| - h);
      CountMonotone(a, g, c, t, |a| - h, |a|);
      CountAtMostMembers(a, g, d, t, h);
      MembersShift(g, c, h, p);
      MembersBelow(g, c, p);
      MembersBelow(g, d, q);
      assert Count(b, g, c, t, |b|) == Count(a, g, c, t, |a|);
      RankInClass(b, g, p, t);
    }
  }

  lemma {:induction false} CountAfterSwap(s: seq<int>, j: nat, k: nat, g: nat, c: nat, t: int, n: nat)
    requires g > 0 && j < k < |s| && j % g == k % g && n <= |s|
    ensures Count(s[j := s[k]][k := s[j]], g, c, t, n) == Count(s, g, c, t, n) +
            if j < n <= k && j % g == c
            then (if s[k] <= t then 1 else 0) - (if s[j] <= t then 1 else 0)
            else 0
  {
    if n > 0 {
      CountAfterSwap(s, j, k, g, c, t, n - 1);
    }
  }

  lemma SwapKeepsClasses(s: seq<int>, j: nat, k: nat, g: nat)
    requires g > 0 && j < k < |s| && k == j + g
    ensures SameClasses(s, s[j := s[k]][k := s[j]], g)
  {
    DivModUnique(k, g, j / g + 1, j % g);
    forall c: nat, t: int
      ensures Count(s, g, c, t, |s|) == Count(s[j := s[k]][k := s[j]], g, c, t, |s|)
    {
      CountAfterSwap(s, j, k, g, c, t, |s|);
    }
  }

  lemma SameClassesTransitive(a: seq<int>, b: seq<int>, c: seq<int>, g: nat)
    requires g > 0 && SameClasses(a, b, g) && SameClasses(b, c, g)
    ensures SameClasses(a, c, g)
  {
    forall k: nat, t: int
      ensures Count(a, g, k, t, |a|) == Count(c, g, k, t, |c|)
    {
      assert Count(a, g, k, t, |a|) == Count(b, g, k, t, |b|);
    }
  }

  /** `s` is `was` with some elements of one class of positions modulo `g` moved about. */
  ghost predicate Rearranged(was: seq<int>, s: seq<int>, g: nat)
    requires g > 0
  {
    SameClasses(was, s, g) && multiset(was) == multiset(s)
  }

  /** Elements `g` places apart are in order among the first `i + 1`, except at the element that is still sinking. */
  ghost predicate Sinking(s: seq<int>, g: nat, i: nat, k: nat) {
    && (forall p, q :: 0 <= p < q < |s| && q == p + g && q <= i && q != k ==> s[p] <= s[q])
    && (forall p, q :: 0 <= p < q < |s| && p == k - g && q == k + g && q <= i ==> s[p] <= s[q])
  }

  /** One step of the innermost loop. */
  lemma SinkStep(was: seq<int>, s: seq<int>, g: nat, i: nat, k: nat)
    requires g > 0 && g <= k <= i < |s| && Sinking(s, g, i, k) && s[k - g] > s[k]
    requires Rearranged(was, s, g)
    ensures var t := s[k - g := s[k]][k := s[k - g]]; Sinking(t, g, i, k - g) && Rearranged(was, t, g)
  {
    var t := s[k - g := s[k]][k := s[k - g]];
    SwapKeepsClasses(s, k - g, k, g);
    SameClassesTransitive(was, s, t, g);
  }

  /** The innermost loop: the element at `i` sinks to its place among the earlier ones of its class. */
  method Sink(basis: array<int>, size: nat, gap: nat, i: nat)
    requires 0 < gap <= i < size <= basis.Length
    requires PrefixSorted(basis[..size], gap, i)
    modifies basis
    ensures PrefixSorted(basis[..size], gap, i + 1)
    ensures Rearranged(old(basis[..size]), basis[..size], gap)
    ensures basis[size..] == old(basis[size..])
  {
    hide *;
    ghost var was := basis[..size];
    var j := i - gap;
    SinkStart(was, gap, i);
    while j >= 0 && basis[j] > basis[j + gap]
      invariant 0 <= j + gap <= i
      invariant Sinking(basis[..size], gap, i, j + gap)
      invariant Rearranged(was, basis[..size], gap)
      invariant basis[size..] == old(basis[size..])
    {
      SinkStep(was, basis[..size], gap, i, j + gap);
      Swap(basis, size, j, j + gap);
      j := j - gap;
    }
    SinkDone(basis[..size], gap, i, j + gap);
  }

  method Swap(basis: array<int>, size: nat, j: nat, k: nat)
    requires j < k < size <= basis.Length
    modifies basis
    ensures basis[..size] == old(basis[..size][j := basis[k]][k := basis[j]])
    ensures basis[size..] == old(basis[size..])
  {
    var temp := basis[j];
    basis[j] := basis[k];
    basis[k] := temp;
  }

  lemma SinkDone(s: seq<int>, g: nat, i: nat, k: nat)
    requires g > 0 && k <= i < |s| && Sinking(s, g, i, k)
    requires k >= g ==> s[k - g] <= s[k]
    ensures PrefixSorted(s, g, i + 1)
  {
  }

  lemma SinkStart(s: seq<int>, g: nat, i: nat)
    requires 0 < g <= i < |s| && PrefixSorted(s, g, i)
    ensures Sinking(s, g, i, i) && Rearranged(s, s, g)
  {
  }

  /** One pass: every class of positions modulo `gap` is insertion-sorted in place. */
  method GapPass(basis: array<int>, size: nat, gap: nat)
    requires 0 < gap && size <= basis.Length
    modifies basis
    ensures GapSorted(basis[..size], gap)
    ensures Rearranged(old(basis[..size]), basis[..size], gap)
    ensures basis[size..] == old(basis[size..])
  {
    ghost var was := basis[..size];
    assert Rearranged(was, was, gap);
    var i := gap;
    while i < size
      invariant gap <= i
      invariant PrefixSorted(basis[..size], gap, i)
      invariant Rearranged(was, basis[..size], gap)
      invariant basis[size..] == old(basis[size..])
    {
      ghost var s := basis[..size];
      Sink(basis, size, gap, i);
      SameClassesTransitive(was, s, basis[..size], gap);
      i := i + 1;
    }
  }

  method Shellsort(basis: array<int>, size: nat)
    requires size <= basis.Length
    modifies basis
    ensures Ascending(basis[..size])
    ensures multiset(basis[..size]) == multiset(old(basis[..size]))
    ensures basis[size..] == old(basis[size..])
  {
    var gap := size / 2;
    ghost var done: set<nat> := {};
    while gap > 0
      invariant 0 <= gap <= size / 2
      invariant forall h :: h in done ==> GapSorted(basis[..size], h)
      invariant gap == 0 && size >= 2 ==> 1 in done
      invariant multiset(basis[..size]) == multiset(old(basis[..size]))
      invariant basis[size..] == old(basis[size..])
    {
      ghost var s := basis[..size];
      GapPass(basis, size, gap);
      forall h | h in done
        ensures GapSorted(basis[..size], h)
      {
        EarlierGapKept(s, basis[..size], gap, h);
      }
      done := done + {gap};
      gap := gap / 2;
    }
    if size >= 2 {
      assert 1 in done;
      forall p, q | 0 <= p < q < size
        ensures basis[p] <= basis[q]
      {
        DivModUnique(p, 1, p, 0);
        DivModUnique(q, 1, q, 0);
        ChainSorted(basis[..size], 1, p, q);
      }
    }
  }
}
