/**
 TOSSIM's chained hash table, with its entries linked and relinked in place. Its meaning is, for each key, the
 list of the values stored under that key.
 */
module Hashtable {
  import opened Arithmetic
  import opened Sequences
  import opened Words
  import opened Wrappers

  const PRIMES: seq<nat> := [
    53, 97, 193, 389,
    769, 1543, 3079, 6151,
    12289, 24593, 49157, 98317,
    196613, 393241, 786433, 1572869,
    3145739, 6291469, 12582917, 25165843,
    50331653, 100663319, 201326611, 402653189,
    805306457, 1610612741]

  const LAST_PRIME: nat := 25

  function Prime(i: nat): (p: nat)
    requires i <= LAST_PRIME
    ensures p > 0
  {
    PRIMES[i]
  }

  /** ceil(size * 0.65) */
  function LoadLimit(size: nat): nat {
    (size * 65 + 99) / 100
  }

  /** The least number of entries that is not below 65 percent of the size. */
  lemma LoadLimitIsCeiling(size: nat)
    ensures 100 * (LoadLimit(size) - 1) < 65 * size <= 100 * LoadLimit(size)
  {
  }

  // ---------- The supplemental hash ----------

  /** `i ^ ((i >> right) | (i << (32 - right)))` on 32 bits */
  function RotateXor(i: Uint32, right: nat): Uint32
    requires right <= 32
  {
    var w := FromNat(i, 32);
    var r := Xor(w, Or(Shr(w, right), Shl(w, 32 - right)));
    WordBelow(r);
    ToNat(r)
  }

  lemma WordBelow(w: Word)
    requires |w| == 32
    ensures ToNat(w) < 0x1_0000_0000
  {
    hide ToNat;
    FromNatToNat(w);
    assert Pow2(4) == 0x10 && Pow2(8) == 0x100;
    assert Pow2(12) == 0x1000 && Pow2(16) == 0x1_0000;
    assert Pow2(20) == 0x10_0000 && Pow2(24) == 0x100_0000;
    assert Pow2(28) == 0x1000_0000;
  }

  function Scramble(i0: Uint32): Uint32 {
    var i1: Uint32 := (i0 + (0xffff_ffff - i0 * 512 % 0x1_0000_0000)) % 0x1_0000_0000;
    var i2 := RotateXor(i1, 14);
    var i3: Uint32 := (i2 + i2 * 16) % 0x1_0000_0000;
    RotateXor(i3, 10)
  }

  /** Each bit of `r` is that of `i`, inverted where the bit `right` places further up, round the end, is set. */
  ghost predicate RotatedOnto(i: Uint32, r: Uint32, right: nat) {
    forall j: nat :: j < 32 ==>
      (r / Pow2(j) % 2 == 1) == ((i / Pow2(j) % 2 == 1) != (i / Pow2((j + right) % 32) % 2 == 1))
  }

  lemma RotateXorWord(i: Uint32, right: nat)
    requires right <= 32
    ensures var w := FromNat(i, 32);
            FromNat(RotateXor(i, right), 32) == Xor(w, Or(Shr(w, right), Shl(w, 32 - right)))
  {
    hide ToNat, FromNat, Xor, Or, Shr, Shl;
    var w := FromNat(i, 32);
    FromNatToNat(Xor(w, Or(Shr(w, right), Shl(w, 32 - right))));
  }

  lemma WordBit(w: Word, right: nat, j: nat)
    requires |w| == 32 && right <= 32 && j < 32
    ensures Xor(w, Or(Shr(w, right), Shl(w, 32 - right)))[j] == (w[j] != w[(j + right) % 32])
  {
    hide *;
    if j + right < 32 {
      assert (j + right) % 32 == j + right;
    } else if j + right < 64 {
      assert (j + right) % 32 == j + right - 32;
    }
  }

  lemma RotateXorBits(i: Uint32, right: nat)
    requires right <= 32
    ensures RotatedOnto(i, RotateXor(i, right), right)
  {
    hide RotateXor, FromNat, Pow2;
    forall j: nat | j < 32
      ensures (RotateXor(i, right) / Pow2(j) % 2 == 1) ==
              ((i / Pow2(j) % 2 == 1) != (i / Pow2((j + right) % 32) % 2 == 1))
    {
      RotateXorWord(i, right);
      WordBit(FromNat(i, 32), right, j);
      FromNatDigit(RotateXor(i, right), 32, j);
      FromNatDigit(i, 32, j);
      FromNatDigit(i, 32, (j + right) % 32);
    }
  }

  lemma FirstStage(i0: Uint32)
    ensures (i0 + (0xffff_ffff - i0 * 512 % 0x1_0000_0000)) % 0x1_0000_0000 == (-511 * i0 - 1) % 0x1_0000_0000
  {
    var m := 0x1_0000_0000;
    assert i0 * 512 == m * (i0 * 512 / m) + i0 * 512 % m;
    var n := i0 + (0xffff_ffff - i0 * 512 % m);
    assert n == -511 * i0 - 1 + m * (i0 * 512 / m + 1);
    MultipleMod(i0 * 512 / m + 1, m);
    assert (-511 * i0 - 1 + m * (i0 * 512 / m + 1)) % m == (-511 * i0 - 1) % m;
  }

  /** The four stages of the supplemental hash: two are linear modulo 2^32, two are rotations xored onto a word. */
  lemma ScrambleStages(i0: Uint32) returns (i1: Uint32, i2: Uint32, i3: Uint32)
    ensures i1 == (-511 * i0 - 1) % 0x1_0000_0000 && RotatedOnto(i1, i2, 14)
    ensures i3 == 17 * i2 % 0x1_0000_0000 && RotatedOnto(i3, Scramble(i0), 10)
  {
    hide RotateXor, RotatedOnto;
    FirstStage(i0);
    i1 := (-511 * i0 - 1) % 0x1_0000_0000;
    i2 := RotateXor(i1, 14);
    i3 := 17 * i2 % 0x1_0000_0000;
    RotateXorBits(i1, 14);
    RotateXorBits(i3, 10);
  }

  /** The bucket of a hash value. */
  function IndexFor(tablelength: nat, hashvalue: Uint32): (t: nat)
    requires tablelength > 0
    ensures t < tablelength && hashvalue / tablelength * tablelength + t == hashvalue
  {
    hashvalue % tablelength
  }

  // ---------- Chains ----------

  class Entry<K, V> {
    const k: K
    const v: V
    const h: Uint32
    var next: Entry?<K, V>

    constructor (k: K, v: V, h: Uint32, next: Entry?<K, V>)
      ensures this.k == k && this.v == v && this.h == h && this.next == next
    {
      this.k, this.v, this.h, this.next := k, v, h, next;
    }
  }

  /** The `j`th entry of a chain, or the null at its end. */
  ghost function NodeAt<K, V>(s: seq<Entry<K, V>>, j: nat): Entry?<K, V> {
    if j < |s| then s[j] else null
  }

  /** `first` heads a chain that runs through `s` and ends. */
  ghost predicate Linked<K, V>(first: Entry?<K, V>, s: seq<Entry<K, V>>)
    reads s
  {
    first == NodeAt(s, 0) && forall j :: 0 <= j < |s| ==> s[j].next == NodeAt(s, j + 1)
  }

  ghost predicate NoDuplicates<T>(s: seq<T>) {
    forall i, j :: 0 <= i < j < |s| ==> s[i] != s[j]
  }

  /** The chain of bucket `t` among `n`, when entries are pushed on the front in the order of `all`. */
  ghost function Chain<K, V>(all: seq<Entry<K, V>>, n: nat, t: nat): seq<Entry<K, V>>
    requires n > 0
  {
    if all == [] then []
    else
      var e := all[|all| - 1];
      (if IndexFor(n, e.h) == t then [e] else []) + Chain(all[..|all| - 1], n, t)
  }

  /** The order in which the chains of the first `i` buckets are drained. */
  ghost function Drained<K, V>(all: seq<Entry<K, V>>, n: nat, i: nat): seq<Entry<K, V>>
    requires n > 0
  {
    if i == 0 then [] else Drained(all, n, i - 1) + Chain(all, n, i - 1)
  }

  lemma {:induction false} ChainMembers<K, V>(all: seq<Entry<K, V>>, n: nat, t: nat)
    requires n > 0
    ensures forall j :: 0 <= j < |Chain(all, n, t)| ==>
              Chain(all, n, t)[j] in all && IndexFor(n, Chain(all, n, t)[j].h) == t
    ensures forall j :: 0 <= j < |all| && IndexFor(n, all[j].h) == t ==> all[j] in Chain(all, n, t)
  {
    if all != [] {
      ChainMembers(all[..|all| - 1], n, t);
    }
  }

  lemma {:induction false} ChainNoDuplicates<K, V>(all: seq<Entry<K, V>>, n: nat, t: nat)
    requires n > 0 && NoDuplicates(all)
    ensures NoDuplicates(Chain(all, n, t))
  {
    if all != [] {
      var m := |all| - 1;
      ChainNoDuplicates(all[..m], n, t);
      ChainMembers(all[..m], n, t);
      assert all[m] !in all[..m];
    }
  }

  lemma {:induction false} DrainedMembers<K, V>(all: seq<Entry<K, V>>, n: nat, i: nat)
    requires n > 0
    ensures forall j :: 0 <= j < |Drained(all, n, i)| ==>
              Drained(all, n, i)[j] in all && IndexFor(n, Drained(all, n, i)[j].h) < i
  {
    if i > 0 {
      DrainedMembers(all, n, i - 1);
      ChainMembers(all, n, i - 1);
    }
  }

  lemma {:induction false} DrainedNoDuplicates<K, V>(all: seq<Entry<K, V>>, n: nat, i: nat)
    requires n > 0 && NoDuplicates(all)
    ensures NoDuplicates(Drained(all, n, i))
  {
    if i > 0 {
      hide Chain;
      DrainedNoDuplicates(all, n, i - 1);
      ChainNoDuplicates(all, n, i - 1);
      DrainedMembers(all, n, i - 1);
      ChainMembers(all, n, i - 1);
    }
  }

  /** Every entry is drained exactly once. */
  lemma {:induction false} DrainedIsPermutation<K, V>(all: seq<Entry<K, V>>, n: nat)
    requires n > 0
    ensures multiset(Drained(all, n, n)) == multiset(all)
  {
    if all == [] {
      DrainedEmpty(all, n, n);
    } else {
      var m := |all| - 1;
      DrainedIsPermutation(all[..m], n);
      DrainedOneMore(all[..m], all[m], n, n);
      assert all == all[..m] + [all[m]];
    }
  }

  lemma {:induction false} DrainedEmpty<K, V>(all: seq<Entry<K, V>>, n: nat, i: nat)
    requires n > 0 && all == []
    ensures Drained(all, n, i) == []
  {
    if i > 0 {
      DrainedEmpty(all, n, i - 1);
    }
  }

  lemma {:induction false} DrainedOneMore<K, V>(all: seq<Entry<K, V>>, e: Entry<K, V>, n: nat, i: nat)
    requires n > 0
    ensures if IndexFor(n, e.h) < i then HasAlso(Drained(all + [e], n, i), Drained(all, n, i), e)
            else SameContents(Drained(all + [e], n, i), Drained(all, n, i))
    decreases i
  {
    hide Chain, Drained, IndexFor, HasAlso, SameContents;
    if i > 0 {
      DrainedOneMore(all, e, n, i - 1);
      ChainHasAlso(all, e, n, i - 1);
      DrainedNext(all, n, i - 1);
      DrainedNext(all + [e], n, i - 1);
      ContentsJoin(Drained(all + [e], n, i - 1), Drained(all, n, i - 1),
                   Chain(all + [e], n, i - 1), Chain(all, n, i - 1), e);
    } else {
      DrainedStart(all, n);
      DrainedStart(all + [e], n);
      SameAsItself(Drained(all, n, 0));
    }
  }

  ghost predicate SameContents<T>(s: seq<T>, s0: seq<T>) {
    multiset(s) == multiset(s0)
  }

  /** `s` has the elements of `s0`, each as often, and `e` once more. */
  ghost predicate HasAlso<T>(s: seq<T>, s0: seq<T>, e: T) {
    multiset(s) == multiset(s0) + multiset{e}
  }

  lemma SameAsItself<T>(s: seq<T>)
    ensures SameContents(s, s)
  {
  }

  lemma ContentsJoin<T>(d: seq<T>, d0: seq<T>, c: seq<T>, c0: seq<T>, e: T)
    ensures SameContents(d, d0) && SameContents(c, c0) ==> SameContents(d + c, d0 + c0)
    ensures SameContents(d, d0) && HasAlso(c, c0, e) ==> HasAlso(d + c, d0 + c0, e)
    ensures HasAlso(d, d0, e) && SameContents(c, c0) ==> HasAlso(d + c, d0 + c0, e)
  {
  }

  lemma ChainHasAlso<K, V>(all: seq<Entry<K, V>>, e: Entry<K, V>, n: nat, t: nat)
    requires n > 0
    ensures if IndexFor(n, e.h) == t then HasAlso(Chain(all + [e], n, t), Chain(all, n, t), e)
            else SameContents(Chain(all + [e], n, t), Chain(all, n, t))
  {
    ChainOneMore(all, e, n, t);
    assert [] + Chain(all, n, t) == Chain(all, n, t);
  }

  lemma ChainOneMore<K, V>(all: seq<Entry<K, V>>, e: Entry<K, V>, n: nat, t: nat)
    requires n > 0
    ensures Chain(all + [e], n, t) == (if IndexFor(n, e.h) == t then [e] else []) + Chain(all, n, t)
  {
    assert (all + [e])[..|all|] == all;
  }

  // ---------- Linking ----------

  /** Every bucket of a table heads the chain of its entries. */
  ghost predicate AllLinked<K, V>(table: array<Entry?<K, V>>, all: seq<Entry<K, V>>)
    requires table.Length > 0
    reads table, all
  {
    forall t :: 0 <= t < table.Length ==> ChainLinked(table[t], all, table.Length, t)
  }

  ghost predicate ChainLinked<K, V>(first: Entry?<K, V>, all: seq<Entry<K, V>>, n: nat, t: nat)
    requires n > 0
    reads all
  {
    ChainMembers(all, n, t);
    Linked(first, Chain(all, n, t))
  }

  /** Push an entry on the front of its chain. */
  method Push<K, V>(table: array<Entry?<K, V>>, e: Entry<K, V>, ghost all: seq<Entry<K, V>>)
    requires table.Length > 0 && AllLinked(table, all) && e !in all
    modifies table, e
    ensures AllLinked(table, all + [e])
  {
    hide Chain, Linked;
    var n, t := table.Length, IndexFor(table.Length, e.h);
    ghost var heads := table[..];
    ChainsMember(all, n);
    assert forall u :: 0 <= u < n ==> Linked(heads[u], Chain(all, n, u));
    e.next := table[t];
    table[t] := e;
    assert forall u :: 0 <= u < n ==> Linked(heads[u], Chain(all, n, u));
    LinkPushed(table, heads, e, all);
  }

  lemma ChainsMember<K, V>(all: seq<Entry<K, V>>, n: nat)
    requires n > 0
    ensures forall u, j :: 0 <= u < n && 0 <= j < |Chain(all, n, u)| ==> Chain(all, n, u)[j] in all
  {
    forall u | 0 <= u < n
      ensures forall j :: 0 <= j < |Chain(all, n, u)| ==> Chain(all, n, u)[j] in all
    {
      ChainMembers(all, n, u);
    }
  }

  lemma LinkPushed<K, V>(table: array<Entry?<K, V>>, heads: seq<Entry?<K, V>>, e: Entry<K, V>, all: seq<Entry<K, V>>)
    requires table.Length > 0 && |heads| == table.Length
    requires forall u :: 0 <= u < table.Length ==> Linked(heads[u], Chain(all, table.Length, u))
    requires e.next == heads[IndexFor(table.Length, e.h)]
    requires table[..] == heads[IndexFor(table.Length, e.h) := e]
    ensures AllLinked(table, all + [e])
  {
    hide Chain, Linked;
    forall u | 0 <= u < table.Length
      ensures ChainLinked(table[u], all + [e], table.Length, u)
    {
      var c := Chain(all, table.Length, u);
      assert Linked(heads[u], c) && table[u] == table[..][u];
      ChainOneMore(all, e, table.Length, u);
      assert [] + c == c;
      if IndexFor(table.Length, e.h) == u {
        LinkFront(e, c);
      }
    }
  }

  lemma LinkFront<K, V>(e: Entry<K, V>, c: seq<Entry<K, V>>)
    requires Linked(e.next, c)
    ensures Linked(e, [e] + c)
  {
    forall j | 0 <= j < |[e] + c|
      ensures ([e] + c)[j].next == NodeAt([e] + c, j + 1)
    {
      if j > 0 {
        assert c[j - 1].next == NodeAt(c, j);
      }
    }
  }

  lemma LinkTail<K, V>(first: Entry?<K, V>, s: seq<Entry<K, V>>)
    requires Linked(first, s)
    ensures s == [] <==> first == null
    ensures s != [] ==> first == s[0] && Linked(s[0].next, s[1..])
  {
    if s != [] {
      forall j | 0 <= j < |s[1..]|
        ensures s[1..][j].next == NodeAt(s[1..], j + 1)
      {
        assert s[j + 1].next == NodeAt(s, j + 2);
      }
    }
  }

  /** The chains of different buckets have no entry in common, and no chain holds an entry twice. */
  lemma ChainsApart<K, V>(all: seq<Entry<K, V>>, n: nat, i: nat, m: nat)
    requires i < n && NoDuplicates(all) && m < |Chain(all, n, i)|
    ensures var c := Chain(all, n, i);
            && c[m] in all && c[m] !in Drained(all, n, i) + c[..m] && c[m] !in c[m + 1..]
            && forall u :: i < u < n ==> c[m] !in Chain(all, n, u)
  {
    hide Chain, Drained;
    var c := Chain(all, n, i);
    ChainMembers(all, n, i);
    ChainNoDuplicates(all, n, i);
    DrainedMembers(all, n, i);
    forall u | i < u < n
      ensures c[m] !in Chain(all, n, u)
    {
      ChainMembers(all, n, u);
    }
  }

  /** The transfer loop of an expansion: unlink every entry from the old table and push it on the new one. */
  method Transfer<K, V>(table: array<Entry?<K, V>>, newtable: array<Entry?<K, V>>, ghost all: seq<Entry<K, V>>)
    requires table != newtable && table.Length > 0 && newtable.Length > 0
    requires NoDuplicates(all) && AllLinked(table, all) && AllLinked(newtable, [])
    modifies table, newtable, all
    ensures AllLinked(newtable, Drained(all, table.Length, table.Length))
  {
    hide Chain, Drained, Linked, AllLinked, NoDuplicates;
    ghost var n := table.Length;
    AllLinkedChains(table, all);
    ChainsMember(all, n);
    ghost var drained: seq<Entry<K, V>> := [];
    DrainedStart(all, n);
    var i := 0;
    while i < table.Length
      invariant 0 <= i <= n && n == table.Length
      invariant drained == Drained(all, n, i)
      invariant AllLinked(newtable, drained)
      invariant forall u :: i <= u < n ==> Linked(table[u], Chain(all, n, u))
    {
      ghost var c, m := Chain(all, n, i), 0;
      assert c[0..] == c && drained + c[..0] == drained;
      while table[i] != null
        invariant m <= |c|
        invariant Linked(table[i], c[m..])
        invariant AllLinked(newtable, drained)
        invariant drained == Drained(all, n, i) + c[..m]
        invariant forall u :: i < u < n ==> Linked(table[u], Chain(all, n, u))
        decreases |c| - m
      {
        var e := table[i];
        LinkTail(e, c[m..]);
        ChainsApart(all, n, i, m);
        assert c[m..][1..] == c[m + 1..];
        table[i] := e.next;
        ghost var tail, heads := c[m + 1..], table[..];
        assert Linked(heads[i], tail);
        assert forall u :: i < u < n ==> Linked(heads[u], Chain(all, n, u));
        Push(newtable, e, drained);
        assert Linked(heads[i], tail);
        assert forall u :: i < u < n ==> Linked(heads[u], Chain(all, n, u));
        assert table[..] == heads;
        drained := drained + [e];
        m := m + 1;
      }
      LinkTail(null, c[m..]);
      DrainedNext(all, n, i);
      i := i + 1;
    }
  }

  lemma AllLinkedChains<K, V>(table: array<Entry?<K, V>>, all: seq<Entry<K, V>>)
    requires table.Length > 0 && AllLinked(table, all)
    ensures forall u :: 0 <= u < table.Length ==> Linked(table[u], Chain(all, table.Length, u))
  {
  }

  lemma DrainedStart<K, V>(all: seq<Entry<K, V>>, n: nat)
    requires n > 0
    ensures Drained(all, n, 0) == []
  {
  }

  lemma DrainedNext<K, V>(all: seq<Entry<K, V>>, n: nat, i: nat)
    requires n > 0
    ensures Drained(all, n, i + 1) == Drained(all, n, i) + Chain(all, n, i)
  {
  }

  // ---------- The values of a key ----------

  /** An entry is found for a key when the hashes agree and the keys are equal. */
  predicate Found<K, V>(e: Entry<K, V>, h: Uint32, eqfn: (K, K) -> bool, k: K) {
    h == e.h && eqfn(k, e.k)
  }

  /** The values a key finds along a chain, front to back. */
  ghost function Picked<K, V>(s: seq<Entry<K, V>>, h: Uint32, eqfn: (K, K) -> bool, k: K): seq<V> {
    if s == [] then [] else (if Found(s[0], h, eqfn, k) then [s[0].v] else []) + Picked(s[1..], h, eqfn, k)
  }

  /** The values of a key, the one pushed last first. */
  ghost function Newest<K, V>(all: seq<Entry<K, V>>, h: Uint32, eqfn: (K, K) -> bool, k: K): seq<V> {
    if all == [] then []
    else
      var e := all[|all| - 1];
      (if Found(e, h, eqfn, k) then [e.v] else []) + Newest(all[..|all| - 1], h, eqfn, k)
  }

  /** A key finds all its values in the one bucket its hash selects. */
  lemma {:induction false} ChainPicks<K, V>(all: seq<Entry<K, V>>, n: nat, h: Uint32, eqfn: (K, K) -> bool, k: K)
    requires n > 0
    ensures Picked(Chain(all, n, IndexFor(n, h)), h, eqfn, k) == Newest(all, h, eqfn, k)
  {
    if all != [] {
      var m := |all| - 1;
      ChainPicks(all[..m], n, h, eqfn, k);
      var c := Chain(all[..m], n, IndexFor(n, h));
      assert ([all[m]] + c)[1..] == c;
      assert [] + c == c;
    }
  }

  lemma {:induction false} PickedConcat<K, V>(
    a: seq<Entry<K, V>>, b: seq<Entry<K, V>>, h: Uint32, eqfn: (K, K) -> bool, k: K)
    ensures Picked(a + b, h, eqfn, k) == Picked(a, h, eqfn, k) + Picked(b, h, eqfn, k)
  {
    hide Picked;
    if a == [] {
      assert a + b == b;
      PickedOfNone<K, V>(h, eqfn, k);
      JoinEmpty(Picked(b, h, eqfn, k));
    } else {
      PickedConcat(a[1..], b, h, eqfn, k);
      PickedCons(a[0], a[1..] + b, h, eqfn, k);
      PickedCons(a[0], a[1..], h, eqfn, k);
      assert a + b == [a[0]] + (a[1..] + b) && a == [a[0]] + a[1..];
    }
  }

  lemma PickedOfNone<K, V>(h: Uint32, eqfn: (K, K) -> bool, k: K)
    ensures Picked<K, V>([], h, eqfn, k) == []
  {
  }

  lemma PickedCons<K, V>(e: Entry<K, V>, s: seq<Entry<K, V>>, h: Uint32, eqfn: (K, K) -> bool, k: K)
    ensures Picked([e] + s, h, eqfn, k) == (if Found(e, h, eqfn, k) then [e.v] else []) + Picked(s, h, eqfn, k)
  {
    assert ([e] + s)[1..] == s;
  }

  lemma {:induction false} PickedNothing<K, V>(s: seq<Entry<K, V>>, h: Uint32, eqfn: (K, K) -> bool, k: K)
    requires forall j :: 0 <= j < |s| ==> !Found(s[j], h, eqfn, k)
    ensures Picked(s, h, eqfn, k) == []
  {
    if s != [] {
      PickedNothing(s[1..], h, eqfn, k);
    }
  }

  lemma {:induction false} NewestConcat<K, V>(
    a: seq<Entry<K, V>>, b: seq<Entry<K, V>>, h: Uint32, eqfn: (K, K) -> bool, k: K)
    ensures Newest(a + b, h, eqfn, k) == Newest(b, h, eqfn, k) + Newest(a, h, eqfn, k)
  {
    hide Newest;
    if b == [] {
      assert a + b == a;
      NewestOfNone<K, V>(h, eqfn, k);
      JoinEmpty(Newest(a, h, eqfn, k));
    } else {
      var m := |b| - 1;
      NewestConcat(a, b[..m], h, eqfn, k);
      NewestSnoc(a + b[..m], b[m], h, eqfn, k);
      NewestSnoc(b[..m], b[m], h, eqfn, k);
      assert a + b == a + b[..m] + [b[m]] && b == b[..m] + [b[m]];
    }
  }

  /** Read back to front, a chain gives the values in reverse. */
  lemma {:induction false} NewestIsPickedReversed<K, V>(s: seq<Entry<K, V>>, h: Uint32, eqfn: (K, K) -> bool, k: K)
    ensures Newest(s, h, eqfn, k) == Reversed(Picked(s, h, eqfn, k))
  {
    if s != [] {
      NewestIsPickedReversed(s[1..], h, eqfn, k);
      NewestConcat(s[..1], s[1..], h, eqfn, k);
      assert s == s[..1] + s[1..];
      var head := if Found(s[0], h, eqfn, k) then [s[0].v] else [];
      assert Newest(s[..1], h, eqfn, k) == head by {
        assert s[..1][..0] == [];
      }
      ReversedConcat(head, Picked(s[1..], h, eqfn, k));
      assert Reversed(head) == head by {
        if head != [] { assert head[..0] == []; }
      }
    }
  }

  lemma ChainReverses<K, V>(all: seq<Entry<K, V>>, n: nat, t: nat, h: Uint32, eqfn: (K, K) -> bool, k: K)
    requires t < n
    ensures Newest(Chain(all, n, t), h, eqfn, k) ==
            if IndexFor(n, h) == t then Reversed(Newest(all, h, eqfn, k)) else []
  {
    hide Chain, Newest, Picked;
    var c := Chain(all, n, t);
    NewestIsPickedReversed(c, h, eqfn, k);
    if IndexFor(n, h) == t {
      ChainPicks(all, n, h, eqfn, k);
    } else {
      ChainMembers(all, n, t);
      PickedNothing(c, h, eqfn, k);
    }
  }

  /** Draining the buckets reverses the values of every key. */
  lemma {:induction false} DrainedReverses<K, V>(
    all: seq<Entry<K, V>>, n: nat, i: nat, h: Uint32, eqfn: (K, K) -> bool, k: K)
    requires i <= n && n > 0
    ensures Newest(Drained(all, n, i), h, eqfn, k) ==
            if IndexFor(n, h) < i then Reversed(Newest(all, h, eqfn, k)) else []
    decreases i
  {
    hide Chain, Newest, Reversed, Drained, IndexFor;
    if i == 0 {
      DrainedStart(all, n);
      NewestOfNone<K, V>(h, eqfn, k);
    } else {
      DrainedNext(all, n, i - 1);
      DrainedReverses(all, n, i - 1, h, eqfn, k);
      NewestConcat(Drained(all, n, i - 1), Chain(all, n, i - 1), h, eqfn, k);
      ChainReverses(all, n, i - 1, h, eqfn, k);
      JoinEmpty<V>(Reversed(Newest(all, h, eqfn, k)));
      JoinEmpty<V>([]);
    }
  }

  lemma NewestOfNone<K, V>(h: Uint32, eqfn: (K, K) -> bool, k: K)
    ensures Newest<K, V>([], h, eqfn, k) == []
  {
  }

  lemma JoinEmpty<T>(s: seq<T>)
    ensures [] + s == s && s + [] == s
  {
  }

  // ---------- Removing one entry ----------

  /** Without the entry at position `p` the other chains stay, and its own loses just that entry. */
  lemma {:induction false} ChainRemove<K, V>(all: seq<Entry<K, V>>, p: nat, n: nat, t: nat, j: nat)
    requires n > 0 && p < |all| && NoDuplicates(all)
    requires IndexFor(n, all[p].h) == t ==> j < |Chain(all, n, t)| && Chain(all, n, t)[j] == all[p]
    ensures Chain(all[..p] + all[p + 1..], n, t) ==
            if IndexFor(n, all[p].h) == t then Chain(all, n, t)[..j] + Chain(all, n, t)[j + 1..] else Chain(all, n, t)
  {
    hide Chain, NoDuplicates, IndexFor;
    var m := |all| - 1;
    if p == m {
      assert all[..p] + all[p + 1..] == all[..m];
      ChainRemoveLast(all, n, t, j);
    } else {
      var last, before := all[m], all[..m];
      var rest := before[..p] + before[p + 1..];
      assert all[..p] + all[p + 1..] == rest + [last] && all == before + [last];
      ChainOneMore(rest, last, n, t);
      ChainOneMore(before, last, n, t);
      NoDuplicatesPrefix(all, m);
      var c := Chain(before, n, t);
      JoinEmpty(c);
      JoinEmpty(Chain(rest, n, t));
      if IndexFor(n, last.h) != t || IndexFor(n, all[p].h) != t {
        ChainRemove(before, p, n, t, j);
      } else {
        FirstIsNotMember(all, p, last, c, j);
        ChainRemove(before, p, n, t, j - 1);
        SkipInTail(last, c, j);
      }
    }
  }

  lemma SkipInTail<T>(last: T, c: seq<T>, j: nat)
    requires 0 < j <= |c|
    ensures [last] + (c[..j - 1] + c[j..]) == ([last] + c)[..j] + ([last] + c)[j + 1..]
  {
  }

  lemma NoDuplicatesPrefix<T>(s: seq<T>, m: nat)
    requires m <= |s| && NoDuplicates(s)
    ensures NoDuplicates(s[..m])
  {
  }

  lemma FirstIsNotMember<T>(all: seq<T>, p: nat, last: T, c: seq<T>, j: nat)
    requires p < |all| - 1 && NoDuplicates(all) && last == all[|all| - 1]
    requires j < |[last] + c| && ([last] + c)[j] == all[p]
    ensures j > 0 && c[j - 1] == all[p]
  {
  }

  lemma ChainRemoveLast<K, V>(all: seq<Entry<K, V>>, n: nat, t: nat, j: nat)
    requires n > 0 && all != [] && NoDuplicates(all)
    requires IndexFor(n, all[|all| - 1].h) == t ==> j < |Chain(all, n, t)| && Chain(all, n, t)[j] == all[|all| - 1]
    ensures Chain(all[..|all| - 1], n, t) ==
            if IndexFor(n, all[|all| - 1].h) == t
            then Chain(all, n, t)[..j] + Chain(all, n, t)[j + 1..]
            else Chain(all, n, t)
  {
    ChainNoDuplicates(all, n, t);
    var c := Chain(all, n, t);
    assert forall i :: 0 < i < |c| ==> c[0] != c[i];
    if IndexFor(n, all[|all| - 1].h) == t {
      assert c[1..] == Chain(all[..|all| - 1], n, t);
    }
  }

  // ---------- The table ----------

  /** Key equality is an equivalence, and equal keys hash equally. */
  ghost predicate KeysAgree<K(!new)>(hashfn: K -> Uint32, eqfn: (K, K) -> bool) {
    && (forall a :: eqfn(a, a))
    && (forall a, b :: eqfn(a, b) ==> eqfn(b, a) && hashfn(a) == hashfn(b))
    && forall a, b, c :: eqfn(a, b) && eqfn(b, c) ==> eqfn(a, c)
  }

  lemma PrimesGrow()
    ensures forall i :: 0 <= i < LAST_PRIME ==> PRIMES[i] + 2 <= PRIMES[i + 1]
  {
  }

  /** The load limit grows with every expansion. */
  lemma LoadLimitGrows(i: nat)
    requires i < LAST_PRIME
    ensures LoadLimit(Prime(i)) < LoadLimit(Prime(i + 1))
  {
    PrimesGrow();
    hide PRIMES;
    var a, b := Prime(i), Prime(i + 1);
    assert (a + 2) * 65 + 99 >= (a * 65 + 99) + 100;
  }

  class Hashtable<K(!new), V> {
    const hashfn: K -> Uint32
    const eqfn: (K, K) -> bool
    var tablelength: nat
    var table: array<Entry?<K, V>>
    var entrycount: nat
    var loadlimit: nat
    var primeindex: nat
    /** The entries in the order in which they were last pushed on their chains. */
    ghost var all: seq<Entry<K, V>>

    /** Every bucket holds the chain of its entries, and the table has the size of its prime. */
    ghost predicate Shape()
      reads this, table, all
    {
      && primeindex <= LAST_PRIME && tablelength == Prime(primeindex) == table.Length
      && loadlimit == LoadLimit(tablelength)
      && NoDuplicates(all)
      && (forall j :: 0 <= j < |all| ==> all[j].h == Hash(all[j].k))
      && AllLinked(table, all)
    }

    ghost predicate Valid()
      reads this, table, all
    {
      Shape() && entrycount == |all| && KeysAgree(hashfn, eqfn)
    }

    /** The table is not overfull, unless it cannot grow any more. */
    predicate LoadOk()
      reads this
    {
      entrycount <= loadlimit || primeindex == LAST_PRIME
    }

    function Hash(k: K): Uint32 {
      Scramble(hashfn(k))
    }

    /** The values stored under a key, in the order in which removing them would return them. */
    ghost function Lookup(k: K): seq<V>
      reads this`all
    {
      Newest(all, Hash(k), eqfn, k)
    }

    constructor Empty(pindex: nat, hashfn: K -> Uint32, eqfn: (K, K) -> bool)
      requires pindex <= LAST_PRIME && KeysAgree(hashfn, eqfn)
      ensures Valid() && fresh(table) && all == [] && entrycount == 0 && primeindex == pindex
      ensures this.hashfn == hashfn && this.eqfn == eqfn
    {
      var size := Prime(pindex);
      this.hashfn, this.eqfn := hashfn, eqfn;
      table := new Entry?<K, V>[size](_ => null);
      tablelength := size;
      primeindex := pindex;
      entrycount := 0;
      loadlimit := LoadLimit(size);
      all := [];
    }

    /**
     `create_hashtable`: None for a minimum size above 2^30 or without memory, else a table of the least prime
     above that size.
     */
    static method Create(minsize: nat, hashfn: K -> Uint32, eqfn: (K, K) -> bool, memory: bool)
      returns (h: Option<Hashtable<K, V>>)
      requires KeysAgree(hashfn, eqfn)
      ensures h.None? <==> minsize > 0x4000_0000 || !memory
      ensures h.Some? ==> fresh(h.value) && fresh(h.value.table) && h.value.Valid() && h.value.LoadOk()
      ensures h.Some? ==> h.value.hashfn == hashfn && h.value.eqfn == eqfn && forall k :: h.value.Lookup(k) == []
      ensures h.Some? ==> h.value.tablelength > minsize
      ensures h.Some? ==> forall i :: 0 <= i <= LAST_PRIME && Prime(i) > minsize ==> h.value.tablelength <= Prime(i)
    {
      if minsize > 0x4000_0000 {
        return None;
      }
      var pindex := 0;
      assert Prime(LAST_PRIME) > minsize;
      while pindex < LAST_PRIME && Prime(pindex) <= minsize
        invariant 0 <= pindex <= LAST_PRIME
        invariant forall i :: 0 <= i < pindex ==> Prime(i) <= minsize
      {
        pindex := pindex + 1;
      }
      PrimesAscend(pindex);
      if !memory {
        return None;
      }
      var t := new Hashtable<K, V>.Empty(pindex, hashfn, eqfn);
      h := Some(t);
    }

    /**
     `hashtable_expand`: move every entry to a table of the next prime size, if there is one. Without memory both
     the new table and the enlarged old one are refused, and nothing changes.
     */
    method Expand(memory: bool) returns (ok: bool)
      requires Shape()
      modifies this`tablelength, this`table, this`loadlimit, this`primeindex, this`all, table, all
      ensures Shape()
      ensures ok == (memory && old(primeindex) < LAST_PRIME)
      ensures ok ==> primeindex == old(primeindex) + 1 && fresh(table)
      ensures ok ==> all == Drained(old(all), old(tablelength), old(tablelength))
      ensures ok ==> forall q :: Lookup(q) == Reversed(old(Lookup(q)))
      ensures ok ==> multiset(all) == multiset(old(all)) && |all| == |old(all)|
      ensures forall j :: 0 <= j < |all| ==> all[j] in old(all)
      ensures !ok ==> all == old(all) && table == old(table) && primeindex == old(primeindex)
    {
      hide Chain, Drained, AllLinked, NoDuplicates, Newest, Reversed, Scramble, Prime, LoadLimit;
      if primeindex == LAST_PRIME {
        return false;
      }
      ghost var n := tablelength;
      primeindex := primeindex + 1;
      var newsize := Prime(primeindex);
      if !memory {
        primeindex := primeindex - 1;
        return false;
      }
      var newtable := new Entry?<K, V>[newsize](_ => null);
      EmptyLinked(newtable);
      Transfer(table, newtable, all);
      DrainedFor(all, n, hashfn, eqfn);
      all := Drained(all, n, n);
      table := newtable;
      tablelength := newsize;
      loadlimit := LoadLimit(newsize);
      return true;
    }

    /** Whether inserting one more entry makes the table grow. */
    predicate Grows()
      reads this
    {
      entrycount + 1 > loadlimit && primeindex < LAST_PRIME
    }

    /**
     `hashtable_insert`: the value goes to the front of its key's list; growing first reverses every list. Without
     memory for the table it does not grow, and without memory for the entry it may grow but stores nothing.
     */
    method Insert(k: K, v: V, tableMemory: bool, entryMemory: bool) returns (ok: bool)
      requires Valid()
      modifies this, table, all
      ensures Valid() && ok == entryMemory && entrycount == old(entrycount) + if ok then 1 else 0
      ensures table == old(table) || fresh(table)
      ensures forall j :: 0 <= j < |all| ==> all[j] in old(all) || fresh(all[j])
      ensures primeindex == old(primeindex) + if tableMemory && old(Grows()) then 1 else 0
      ensures forall q :: Lookup(q) == InsertedList(old(Lookup(q)), tableMemory && old(Grows()), ok && eqfn(q, k), v)
      ensures tableMemory && old(LoadOk()) ==> LoadOk()
    {
      hide Chain, Drained, AllLinked, NoDuplicates, Newest, Reversed, Scramble, Prime, LoadLimit, KeysAgree;
      CountOne(tableMemory);
      if !entryMemory {
        entrycount := entrycount - 1;
        return false;
      }
      AddEntry(k, v);
      return true;
    }

    /** The start of an insertion: count the entry, and grow if that exceeds the load limit. */
    method CountOne(memory: bool)
      requires Valid()
      modifies this, table, all
      ensures Shape() && KeysAgree(hashfn, eqfn) && |all| == |old(all)| && entrycount == old(entrycount) + 1
      ensures table == old(table) || fresh(table)
      ensures forall j :: 0 <= j < |all| ==> all[j] in old(all)
      ensures primeindex == old(primeindex) + if memory && old(Grows()) then 1 else 0
      ensures forall q :: Lookup(q) == if memory && old(Grows()) then Reversed(old(Lookup(q))) else old(Lookup(q))
      ensures memory && old(LoadOk()) ==> LoadOk()
    {
      hide Chain, Drained, AllLinked, NoDuplicates, Newest, Reversed, Scramble, Prime, LoadLimit, KeysAgree;
      if primeindex < LAST_PRIME {
        LoadLimitGrows(primeindex);
      }
      entrycount := entrycount + 1;
      if entrycount > loadlimit {
        var _ := Expand(memory);
      }
    }

    /** The end of an insertion: put a new entry in front of its chain. */
    method AddEntry(k: K, v: V)
      requires Shape() && KeysAgree(hashfn, eqfn)
      modifies this`all, table
      ensures Shape() && |all| == |old(all)| + 1
      ensures forall j :: 0 <= j < |all| ==> all[j] in old(all) || fresh(all[j])
      ensures forall q :: Lookup(q) == (if eqfn(q, k) then [v] else []) + old(Lookup(q))
    {
      hide Chain, Drained, AllLinked, NoDuplicates, Newest, Reversed, Scramble, Prime, LoadLimit;
      var e := new Entry(k, v, Hash(k), null);
      Push(table, e, all);
      NoDuplicatesSnoc(all, e);
      forall q: K
        ensures Newest(all + [e], Hash(q), eqfn, q) ==
                (if eqfn(q, k) then [v] else []) + Newest(all, Hash(q), eqfn, q)
      {
        NewestSnoc(all, e, Hash(q), eqfn, q);
      }
      all := all + [e];
    }

    /** `hashtable_search`: the value of the key's list that a removal would return. */
    method Search(k: K) returns (r: Option<V>)
      requires Valid()
      ensures r == if Lookup(k) == [] then None else Some(Lookup(k)[0])
    {
      hide Chain, NoDuplicates, Newest, Scramble, Prime, LoadLimit, Linked, KeysAgree;
      var hashvalue := Hash(k);
      var tindex := IndexFor(tablelength, hashvalue);
      var e := table[tindex];
      ghost var c, j := Chain(all, tablelength, tindex), 0;
      ChainPicks(all, tablelength, hashvalue, eqfn, k);
      assert c[0..] == c;
      while e != null
        invariant j <= |c| && Linked(e, c[j..])
        invariant Picked(c[j..], hashvalue, eqfn, k) == Lookup(k)
        decreases |c| - j
      {
        LinkTail(e, c[j..]);
        assert c[j..][1..] == c[j + 1..];
        if hashvalue == e.h && eqfn(k, e.k) {
          return Some(e.v);
        }
        e := e.next;
        j := j + 1;
      }
      LinkTail(e, c[j..]);
      return None;
    }

    /** `hashtable_remove`: unlink the entry that a search would find, and return its value. */
    method Remove(k: K) returns (r: Option<V>)
      requires Valid()
      modifies this`entrycount, this`all, table, all
      ensures Valid()
      ensures r == if old(Lookup(k)) == [] then None else Some(old(Lookup(k))[0])
      ensures entrycount == old(entrycount) - if r.Some? then 1 else 0
      ensures forall j :: 0 <= j < |all| ==> all[j] in old(all)
      ensures forall q :: Lookup(q) == RemovedList(old(Lookup(q)), eqfn(q, k))
      ensures old(LoadOk()) ==> LoadOk()
    {
      hide Chain, NoDuplicates, Newest, Scramble, Prime, LoadLimit;
      hide Linked, AllLinked, KeysAgree, RemovedList, IndexOf, Found;
      var prev, e, j := Find(k);
      if e == null {
        SameLists(all, Hash(k), hashfn, eqfn, k);
        return None;
      }
      ghost var n, was := tablelength, all;
      Unlink(table, all, IndexFor(tablelength, Hash(k)), prev, e, j);
      ghost var p := IndexOf<Entry<K, V>>(was, e);
      RemovedLists(was, p, n, j, hashfn, eqfn, k);
      NoDuplicatesRemove(was, p);
      HashesKept(was, p, hashfn);
      all := was[..p] + was[p + 1..];
      entrycount := entrycount - 1;
      r := Some(e.v);
    }

    /** The walk along a chain in search of a key, keeping the entry before. */
    method Find(k: K) returns (prev: Entry?<K, V>, e: Entry?<K, V>, ghost j: nat)
      requires Valid()
      ensures var c := Chain(all, tablelength, IndexFor(tablelength, Hash(k)));
              && (forall i :: 0 <= i < j ==> i < |c| && !Found(c[i], Hash(k), eqfn, k))
              && (e != null ==> j < |c| && e == c[j] && e in all && Found(e, Hash(k), eqfn, k))
              && (e != null ==> prev == if j == 0 then null else c[j - 1])
      ensures e == null ==> Lookup(k) == []
    {
      hide Chain, NoDuplicates, Newest, Scramble, Prime, LoadLimit, Linked, KeysAgree;
      var h := Hash(k);
      var tindex := IndexFor(tablelength, h);
      ghost var c := Chain(all, tablelength, tindex);
      ChainMembers(all, tablelength, tindex);
      prev, e, j := null, table[tindex], 0;
      assert c[0..] == c;
      while e != null && !(h == e.h && eqfn(k, e.k))
        invariant j <= |c| && Linked(e, c[j..])
        invariant prev == if j == 0 then null else c[j - 1]
        invariant forall i :: 0 <= i < j ==> !Found(c[i], h, eqfn, k)
        decreases |c| - j
      {
        LinkTail(e, c[j..]);
        assert c[j..][1..] == c[j + 1..];
        prev := e;
        e := e.next;
        j := j + 1;
      }
      LinkTail(e, c[j..]);
      if e == null {
        NotFound(all, tablelength, c, h, eqfn, k);
      }
    }

    method Count() returns (n: nat)
      requires Valid()
      ensures n == |all|
    {
      n := entrycount;
    }
  }

  /** The hash of a key, stage by stage from what the caller's hash function gives. */
  lemma HashStages<K(!new), V>(h: Hashtable<K, V>, k: K) returns (i1: Uint32, i2: Uint32, i3: Uint32)
    ensures i1 == (-511 * h.hashfn(k) - 1) % 0x1_0000_0000 && RotatedOnto(i1, i2, 14)
    ensures i3 == 17 * i2 % 0x1_0000_0000 && RotatedOnto(i3, h.Hash(k), 10)
  {
    i1, i2, i3 := ScrambleStages(h.hashfn(k));
  }

  /** What an insertion makes of the list of a key; `same` says whether the key equals the one inserted. */
  function InsertedList<V>(was: seq<V>, grows: bool, same: bool, v: V): seq<V> {
    (if same then [v] else []) + if grows then Reversed(was) else was
  }

  /** What a removal makes of the list of a key; `same` says whether the key equals the one removed. */
  function RemovedList<V>(was: seq<V>, same: bool): seq<V> {
    if same && was != [] then was[1..] else was
  }

  ghost function IndexOf<T>(s: seq<T>, x: T): (p: nat)
    requires x in s
    ensures p < |s| && s[p] == x
  {
    if s[0] == x then 0 else 1 + IndexOf(s[1..], x)
  }

  lemma NotFound<K, V>(
    all: seq<Entry<K, V>>, n: nat, c: seq<Entry<K, V>>, h: Uint32, eqfn: (K, K) -> bool, k: K)
    requires n > 0 && c == Chain(all, n, IndexFor(n, h)) && forall i :: 0 <= i < |c| ==> !Found(c[i], h, eqfn, k)
    ensures Newest(all, h, eqfn, k) == []
  {
    hide Chain;
    ChainPicks(all, n, h, eqfn, k);
    PickedNothing(c, h, eqfn, k);
  }

  /** Equal keys have equal lists, so removing nothing from an empty one changes none. */
  lemma SameLists<K(!new), V>(all: seq<Entry<K, V>>, h: Uint32, hashfn: K -> Uint32, eqfn: (K, K) -> bool, k: K)
    requires KeysAgree(hashfn, eqfn) && h == Scramble(hashfn(k)) && Newest(all, h, eqfn, k) == []
    ensures forall q: K :: var hq := Scramble(hashfn(q));
              RemovedList(Newest(all, hq, eqfn, q), eqfn(q, k)) == Newest(all, hq, eqfn, q)
  {
    forall q: K | eqfn(q, k)
      ensures Newest(all, Scramble(hashfn(q)), eqfn, q) == []
    {
      SameList(all, h, eqfn, k, q);
    }
  }

  lemma {:induction false} SameList<K(!new), V>(all: seq<Entry<K, V>>, h: Uint32, eqfn: (K, K) -> bool, k: K, q: K)
    requires eqfn(q, k) && (forall a, b :: eqfn(a, b) ==> eqfn(b, a))
    requires forall a, b, c :: eqfn(a, b) && eqfn(b, c) ==> eqfn(a, c)
    ensures Newest(all, h, eqfn, q) == Newest(all, h, eqfn, k)
  {
    if all != [] {
      SameList(all[..|all| - 1], h, eqfn, k, q);
    }
  }

  lemma NoDuplicatesRemove<T>(s: seq<T>, p: nat)
    requires p < |s| && NoDuplicates(s)
    ensures NoDuplicates(s[..p] + s[p + 1..])
  {
  }

  lemma HashesKept<K, V>(s: seq<Entry<K, V>>, p: nat, hashfn: K -> Uint32)
    requires p < |s| && forall j :: 0 <= j < |s| ==> s[j].h == Scramble(hashfn(s[j].k))
    ensures var r := s[..p] + s[p + 1..]; forall j :: 0 <= j < |r| ==> r[j].h == Scramble(hashfn(r[j].k))
  {
    hide Scramble;
    var r := s[..p] + s[p + 1..];
    forall j | 0 <= j < |r|
      ensures r[j].h == Scramble(hashfn(r[j].k))
    {
      assert r[j] == if j < p then s[j] else s[j + 1];
    }
  }

  /** What removing the first entry found for `k` does to the list of every key. */
  lemma RemovedLists<K(!new), V>(
    all: seq<Entry<K, V>>, p: nat, n: nat, j: nat, hashfn: K -> Uint32, eqfn: (K, K) -> bool, k: K)
    requires n > 0 && p < |all| && NoDuplicates(all) && KeysAgree(hashfn, eqfn)
    requires var h := Scramble(hashfn(k));
             var c := Chain(all, n, IndexFor(n, h));
             && j < |c| && c[j] == all[p] && Found(c[j], h, eqfn, k)
             && forall i :: 0 <= i < j ==> !Found(c[i], h, eqfn, k)
    ensures var h := Scramble(hashfn(k)); Newest(all, h, eqfn, k) != [] && Newest(all, h, eqfn, k)[0] == all[p].v
    ensures forall q: K :: var hq := Scramble(hashfn(q));
              Newest(all[..p] + all[p + 1..], hq, eqfn, q) == RemovedList(Newest(all, hq, eqfn, q), eqfn(q, k))
  {
    hide Scramble;
    forall q: K
      ensures var hq := Scramble(hashfn(q));
              Newest(all[..p] + all[p + 1..], hq, eqfn, q) == RemovedList(Newest(all, hq, eqfn, q), eqfn(q, k))
    {
      RemovedListOf(all, p, n, j, hashfn, eqfn, k, q);
    }
    var h := Scramble(hashfn(k));
    var c := Chain(all, n, IndexFor(n, h));
    PickedAround(c, j, h, eqfn, k);
    ChainPicks(all, n, h, eqfn, k);
    PickedNothing(c[..j], h, eqfn, k);
  }

  lemma PickedAround<K, V>(c: seq<Entry<K, V>>, j: nat, h: Uint32, eqfn: (K, K) -> bool, q: K)
    requires j < |c|
    ensures Picked(c, h, eqfn, q) ==
            Picked(c[..j], h, eqfn, q) + (if Found(c[j], h, eqfn, q) then [c[j].v] else []) +
            Picked(c[j + 1..], h, eqfn, q)
  {
    assert c == c[..j] + c[j..];
    PickedConcat(c[..j], c[j..], h, eqfn, q);
    assert c[j..][1..] == c[j + 1..];
  }

  lemma RemovedListOf<K(!new), V>(
    all: seq<Entry<K, V>>, p: nat, n: nat, j: nat, hashfn: K -> Uint32, eqfn: (K, K) -> bool, k: K, q: K)
    requires n > 0 && p < |all| && NoDuplicates(all) && KeysAgree(hashfn, eqfn)
    requires var h := Scramble(hashfn(k));
             var c := Chain(all, n, IndexFor(n, h));
             && j < |c| && c[j] == all[p] && Found(c[j], h, eqfn, k)
             && forall i :: 0 <= i < j ==> !Found(c[i], h, eqfn, k)
    ensures var hq := Scramble(hashfn(q));
            Newest(all[..p] + all[p + 1..], hq, eqfn, q) == RemovedList(Newest(all, hq, eqfn, q), eqfn(q, k))
  {
    hide Scramble, Chain, Newest, Picked;
    var h, hq := Scramble(hashfn(k)), Scramble(hashfn(q));
    var c := Chain(all, n, IndexFor(n, h));
    var rest := all[..p] + all[p + 1..];
    ChainMembers(all, n, IndexFor(n, h));
    ChainRemove(all, p, n, IndexFor(n, hq), j);
    ChainPicks(all, n, hq, eqfn, q);
    ChainPicks(rest, n, hq, eqfn, q);
    if IndexFor(n, hq) == IndexFor(n, h) {
      PickedAround(c, j, hq, eqfn, q);
      PickedConcat(c[..j], c[j + 1..], hq, eqfn, q);
      if eqfn(q, k) {
        PickedNothing(c[..j], hq, eqfn, q);
      }
    }
  }

  /** Make the chain of bucket `t` skip its `j`th entry. */
  method Unlink<K, V>(
    table: array<Entry?<K, V>>, ghost all: seq<Entry<K, V>>, t: nat, prev: Entry?<K, V>, e: Entry<K, V>, ghost j: nat)
    requires t < table.Length && NoDuplicates(all) && AllLinked(table, all)
    requires j < |Chain(all, table.Length, t)| && e == Chain(all, table.Length, t)[j]
    requires prev == if j == 0 then null else Chain(all, table.Length, t)[j - 1]
    modifies table, all
    ensures e in all && var p := IndexOf(all, e); AllLinked(table, all[..p] + all[p + 1..])
  {
    hide Chain, AllLinked;
    ghost var n := table.Length;
    ghost var c, heads := Chain(all, n, t), table[..];
    ghost var p := ChainIndex(all, n, t, j);
    AllLinkedChains(table, all);
    hide Linked, NoDuplicates;
    assert forall u :: 0 <= u < n ==> Linked(heads[u], Chain(all, n, u));
    LinkedNodes(heads[t], c);
    if prev == null {
      LinkTail(heads[t], c);
      table[t] := e.next;
      assert c[..0] + c[1..] == c[1..];
    } else {
      Skip(prev, e, heads, all, t, j);
    }
    assert forall u :: 0 <= u < n && u != t ==> Linked(heads[u], Chain(all, n, u));
    assert Linked(table[t], c[..j] + c[j + 1..]);
    LinkRemoved(table, heads, all, p, t, j);
  }

  lemma LinkedNodes<K, V>(first: Entry?<K, V>, c: seq<Entry<K, V>>)
    requires Linked(first, c)
    ensures first == NodeAt(c, 0) && forall i :: 0 <= i < |c| ==> c[i].next == NodeAt(c, i + 1)
  {
  }

  lemma LinkSkip<K, V>(first: Entry?<K, V>, c: seq<Entry<K, V>>, j: nat)
    requires 0 < j < |c| && first == c[0]
    requires forall i :: 0 <= i < |c| && i != j - 1 ==> c[i].next == NodeAt(c, i + 1)
    requires c[j - 1].next == NodeAt(c, j + 1)
    ensures Linked(first, c[..j] + c[j + 1..])
  {
    var d := c[..j] + c[j + 1..];
    forall i | 0 <= i < |d|
      ensures d[i].next == NodeAt(d, i + 1)
    {
      assert d[i] == if i < j then c[i] else c[i + 1];
    }
  }

  /** The entry before the `j`th of a chain points behind it; no other chain changes. */
  method Skip<K, V>(
    prev: Entry<K, V>, e: Entry<K, V>, ghost heads: seq<Entry?<K, V>>, ghost all: seq<Entry<K, V>>, ghost t: nat,
    ghost j: nat)
    requires t < |heads| && NoDuplicates(all) && 0 < j < |Chain(all, |heads|, t)|
    requires e == Chain(all, |heads|, t)[j] && prev == Chain(all, |heads|, t)[j - 1]
    requires forall u :: 0 <= u < |heads| ==> Linked(heads[u], Chain(all, |heads|, u))
    modifies all
    ensures forall u :: 0 <= u < |heads| && u != t ==> Linked(heads[u], Chain(all, |heads|, u))
    ensures var c := Chain(all, |heads|, t); Linked(heads[t], c[..j] + c[j + 1..])
  {
    hide Chain;
    ghost var c := Chain(all, |heads|, t);
    ChainsMember(all, |heads|);
    OnlyHere(all, |heads|, t, j - 1);
    hide Linked, NoDuplicates;
    LinkedNodes(heads[t], c);
    prev.next := e.next;
    LinkSkip(heads[t], c, j);
  }

  /** The `k`th entry of a chain stands nowhere else in that chain or in another. */
  lemma OnlyHere<K, V>(all: seq<Entry<K, V>>, n: nat, t: nat, k: nat)
    requires t < n && k < |Chain(all, n, t)| && NoDuplicates(all)
    ensures forall i :: 0 <= i < |Chain(all, n, t)| && i != k ==> Chain(all, n, t)[i] != Chain(all, n, t)[k]
    ensures forall u, i :: 0 <= u < n && u != t && 0 <= i < |Chain(all, n, u)| ==>
              Chain(all, n, u)[i] != Chain(all, n, t)[k]
  {
    hide Chain;
    ChainMembers(all, n, t);
    ChainNoDuplicates(all, n, t);
    forall u | 0 <= u < n && u != t
      ensures forall i :: 0 <= i < |Chain(all, n, u)| ==> Chain(all, n, u)[i] != Chain(all, n, t)[k]
    {
      ChainMembers(all, n, u);
    }
  }

  lemma LinkRemoved<K, V>(
    table: array<Entry?<K, V>>, heads: seq<Entry?<K, V>>, all: seq<Entry<K, V>>, p: nat, t: nat, j: nat)
    requires t < table.Length == |heads| && NoDuplicates(all) && p < |all|
    requires j < |Chain(all, table.Length, t)| && Chain(all, table.Length, t)[j] == all[p]
    requires forall u :: 0 <= u < table.Length && u != t ==>
               table[u] == heads[u] && Linked(heads[u], Chain(all, table.Length, u))
    requires var c := Chain(all, table.Length, t); Linked(table[t], c[..j] + c[j + 1..])
    ensures AllLinked(table, all[..p] + all[p + 1..])
  {
    hide Chain, Linked, NoDuplicates;
    ChainMembers(all, table.Length, t);
    forall u | 0 <= u < table.Length
      ensures ChainLinked(table[u], all[..p] + all[p + 1..], table.Length, u)
    {
      ChainRemove(all, p, table.Length, u, j);
    }
  }

  lemma ChainIndex<K, V>(all: seq<Entry<K, V>>, n: nat, t: nat, j: nat) returns (p: nat)
    requires n > 0 && j < |Chain(all, n, t)|
    ensures Chain(all, n, t)[j] in all && p == IndexOf(all, Chain(all, n, t)[j])
  {
    ChainMembers(all, n, t);
    p := IndexOf(all, Chain(all, n, t)[j]);
  }

  lemma NoDuplicatesSnoc<T>(s: seq<T>, x: T)
    requires NoDuplicates(s) && x !in s
    ensures NoDuplicates(s + [x])
  {
  }

  lemma NewestSnoc<K, V>(all: seq<Entry<K, V>>, e: Entry<K, V>, h: Uint32, eqfn: (K, K) -> bool, q: K)
    ensures Newest(all + [e], h, eqfn, q) == (if Found(e, h, eqfn, q) then [e.v] else []) + Newest(all, h, eqfn, q)
  {
    assert (all + [e])[..|all|] == all;
  }

  /** Draining a table keeps its entries, each once and with its hash, and reverses the values of every key. */
  lemma DrainedFor<K(!new), V>(all: seq<Entry<K, V>>, n: nat, hashfn: K -> Uint32, eqfn: (K, K) -> bool)
    requires n > 0 && NoDuplicates(all)
    requires forall j :: 0 <= j < |all| ==> all[j].h == Scramble(hashfn(all[j].k))
    ensures NoDuplicates(Drained(all, n, n)) && multiset(Drained(all, n, n)) == multiset(all)
    ensures |Drained(all, n, n)| == |all| && forall j :: 0 <= j < |all| ==> Drained(all, n, n)[j] in all
    ensures forall j :: 0 <= j < |Drained(all, n, n)| ==>
              Drained(all, n, n)[j].h == Scramble(hashfn(Drained(all, n, n)[j].k))
    ensures forall q: K :: Newest(Drained(all, n, n), Scramble(hashfn(q)), eqfn, q) ==
                           Reversed(Newest(all, Scramble(hashfn(q)), eqfn, q))
  {
    hide Chain, Drained, Newest, Reversed, Scramble, NoDuplicates;
    DrainedNoDuplicates(all, n, n);
    DrainedMembers(all, n, n);
    DrainedIsPermutation(all, n);
    assert |multiset(Drained(all, n, n))| == |Drained(all, n, n)| && |multiset(all)| == |all|;
    forall q: K
      ensures Newest(Drained(all, n, n), Scramble(hashfn(q)), eqfn, q) ==
              Reversed(Newest(all, Scramble(hashfn(q)), eqfn, q))
    {
      DrainedReverses(all, n, n, Scramble(hashfn(q)), eqfn, q);
    }
  }

  lemma EmptyLinked<K, V>(table: array<Entry?<K, V>>)
    requires table.Length > 0 && forall t :: 0 <= t < table.Length ==> table[t] == null
    ensures AllLinked(table, [])
  {
  }

  lemma {:induction false} PrimesAscend(i: nat)
    requires i <= LAST_PRIME
    ensures forall j :: i <= j <= LAST_PRIME ==> Prime(i) <= Prime(j)
    decreases LAST_PRIME - i
  {
    if i < LAST_PRIME {
      PrimesAscend(i + 1);
      PrimesGrow();
    }
  }

  // ---------- Whole runs ----------

  /** What a call did to the table; an insertion without memory for its entry stores nothing. */
  datatype Op<K, V> = Put(k: K, v: V) | PutNothing(k: K) | Drop(k: K) | Get(k: K)

  /** An operation, and whether the table grew under it. */
  datatype Call<K, V> = Call(op: Op<K, V>, grew: bool)

  /** What a call makes of the list of a key. */
  function Next<K, V>(was: seq<V>, call: Call<K, V>, eqfn: (K, K) -> bool, q: K): seq<V> {
    match call.op
    case Put(k, v) => InsertedList(was, call.grew, eqfn(q, k), v)
    case PutNothing(_) => if call.grew then Reversed(was) else was
    case Drop(k) => RemovedList(was, eqfn(q, k))
    case Get(_) => was
  }

  /** The list of a key after a run. */
  function ListAfter<K, V>(calls: seq<Call<K, V>>, eqfn: (K, K) -> bool, q: K): seq<V> {
    if calls == [] then []
    else
      Next(ListAfter(calls[..|calls| - 1], eqfn, q), calls[|calls| - 1], eqfn, q)
  }

  /** What a call makes of the value of a key in a plain map. */
  function NextValue<K, V>(was: Option<V>, call: Call<K, V>, eqfn: (K, K) -> bool, q: K): Option<V> {
    match call.op
    case Put(k, v) => if eqfn(q, k) then Some(v) else was
    case PutNothing(_) => was
    case Drop(k) => if eqfn(q, k) then None else was
    case Get(_) => was
  }

  /** The value of a key after a run on a plain map. */
  function MapAfter<K, V>(calls: seq<Call<K, V>>, eqfn: (K, K) -> bool, q: K): Option<V> {
    if calls == [] then None
    else NextValue(MapAfter(calls[..|calls| - 1], eqfn, q), calls[|calls| - 1], eqfn, q)
  }

  /** A caller that keeps a plain map alongside never stores a key that is in it. */
  ghost predicate UniqueKeys<K, V>(calls: seq<Call<K, V>>, eqfn: (K, K) -> bool) {
    forall n :: 0 <= n < |calls| && calls[n].op.Put? ==> MapAfter(calls[..n], eqfn, calls[n].op.k).None?
  }

  function ListOf<V>(v: Option<V>): seq<V> {
    match v
    case Some(x) => [x]
    case None => []
  }

  /** The table holds what the map holds. */
  ghost predicate IsMap<K(!new), V>(calls: seq<Call<K, V>>, eqfn: (K, K) -> bool) {
    forall q: K :: ListAfter(calls, eqfn, q) == ListOf(MapAfter(calls, eqfn, q))
  }

  /** The table holds what the map holds throughout a run, if and only if no key is stored while present. */
  lemma PlainMapExactly<K(!new), V>(calls: seq<Call<K, V>>, hashfn: K -> Uint32, eqfn: (K, K) -> bool)
    requires KeysAgree(hashfn, eqfn)
    ensures (forall n :: 0 <= n <= |calls| ==> IsMap(calls[..n], eqfn)) <==> UniqueKeys(calls, eqfn)
  {
    hide IsMap;
    if UniqueKeys(calls, eqfn) {
      forall n | 0 <= n <= |calls|
        ensures IsMap(calls[..n], eqfn)
      {
        UniqueKeysPrefix(calls, n, eqfn);
        UniqueKeysMakeAMap(calls[..n], hashfn, eqfn);
      }
    }
    if forall n :: 0 <= n <= |calls| ==> IsMap(calls[..n], eqfn) {
      forall n | 0 <= n < |calls| && calls[n].op.Put?
        ensures MapAfter(calls[..n], eqfn, calls[n].op.k).None?
      {
        assert IsMap(calls[..n], eqfn) && IsMap(calls[..n + 1], eqfn);
        assert calls[..n + 1] == calls[..n] + [calls[n]];
        StoredTwice(calls[..n], calls[n], hashfn, eqfn);
      }
    }
  }

  lemma UniqueKeysPrefix<K, V>(calls: seq<Call<K, V>>, n: nat, eqfn: (K, K) -> bool)
    requires n <= |calls| && UniqueKeys(calls, eqfn)
    ensures UniqueKeys(calls[..n], eqfn)
  {
    hide MapAfter;
    assert forall m :: 0 <= m < n ==> calls[..n][m] == calls[m] && calls[..n][..m] == calls[..m];
  }

  lemma {:induction false} UniqueKeysMakeAMap<K(!new), V>(
    calls: seq<Call<K, V>>, hashfn: K -> Uint32, eqfn: (K, K) -> bool)
    requires KeysAgree(hashfn, eqfn) && UniqueKeys(calls, eqfn)
    ensures IsMap(calls, eqfn)
    ensures forall q: K, r: K :: eqfn(q, r) ==> MapAfter(calls, eqfn, q) == MapAfter(calls, eqfn, r)
  {
    if calls != [] {
      var n := |calls| - 1;
      UniqueKeysPrefix(calls, n, eqfn);
      UniqueKeysMakeAMap(calls[..n], hashfn, eqfn);
      hide Next, NextValue;
      forall q: K
        ensures ListAfter(calls, eqfn, q) == ListOf(MapAfter(calls, eqfn, q))
      {
        NextOfMap(MapAfter(calls[..n], eqfn, q), calls[n], eqfn, q);
      }
      forall q: K, r: K | eqfn(q, r)
        ensures MapAfter(calls, eqfn, q) == MapAfter(calls, eqfn, r)
      {
        NextOfEqual(MapAfter(calls[..n], eqfn, q), calls[n], hashfn, eqfn, q, r);
      }
    }
  }

  /** A call that does not store a key that is present treats the list of a key as a map treats its value. */
  lemma NextOfMap<K, V>(v: Option<V>, call: Call<K, V>, eqfn: (K, K) -> bool, q: K)
    requires call.op.Put? && eqfn(q, call.op.k) ==> v.None?
    ensures Next(ListOf(v), call, eqfn, q) == ListOf(NextValue(v, call, eqfn, q))
  {
    assert Reversed(ListOf(v)) == ListOf(v) by {
      if v.Some? { assert [v.value][..0] == []; }
    }
  }

  lemma NextOfEqual<K(!new), V>(
    v: Option<V>, call: Call<K, V>, hashfn: K -> Uint32, eqfn: (K, K) -> bool, q: K, r: K)
    requires KeysAgree(hashfn, eqfn) && eqfn(q, r)
    ensures NextValue(v, call, eqfn, q) == NextValue(v, call, eqfn, r)
  {
  }

  /** Storing a key that is present leaves two values in its list. */
  lemma StoredTwice<K(!new), V>(calls: seq<Call<K, V>>, call: Call<K, V>, hashfn: K -> Uint32, eqfn: (K, K) -> bool)
    requires KeysAgree(hashfn, eqfn) && call.op.Put? && IsMap(calls, eqfn) && IsMap(calls + [call], eqfn)
    ensures MapAfter(calls, eqfn, call.op.k).None?
  {
    var k := call.op.k;
    assert (calls + [call])[..|calls|] == calls;
    assert |ListAfter(calls + [call], eqfn, k)| == 1 + |ListAfter(calls, eqfn, k)|;
    assert |ListOf(MapAfter(calls + [call], eqfn, k))| <= 1;
  }

  // ---------- Runs on a table ----------

  /** What a caller asks for, and whether the allocations it causes succeed. */
  datatype Request<K, V> =
    | Insertion(k: K, v: V, tableMemory: bool, entryMemory: bool)
    | Removal(k: K)
    | Query(k: K)

  /** How many entries there are, and the index of the table's prime. */
  datatype Size = Size(count: int, primeindex: nat)

  /** Whether one more entry exceeds the load limit of a table that can still grow. */
  predicate Full(s: Size) {
    s.primeindex < LAST_PRIME && s.count + 1 > LoadLimit(Prime(s.primeindex))
  }

  /** What a call makes of the size, given the list of its key before. */
  function NextSize<K, V>(s: Size, call: Call<K, V>, was: seq<V>): Size {
    var count := match call.op
      case Put(_, _) => s.count + 1
      case PutNothing(_) => s.count
      case Drop(_) => if was == [] then s.count else s.count - 1
      case Get(_) => s.count;
    Size(count, s.primeindex + if call.grew then 1 else 0)
  }

  function SizeAfter<K, V>(start: Size, calls: seq<Call<K, V>>, eqfn: (K, K) -> bool): Size {
    if calls == [] then start
    else
      var before, last := calls[..|calls| - 1], calls[|calls| - 1];
      NextSize(SizeAfter(start, before, eqfn), last, ListAfter(before, eqfn, last.op.k))
  }

  /** The call that a request makes of a table of a given size. */
  function CallFor<K, V>(request: Request<K, V>, s: Size): Call<K, V> {
    match request
    case Insertion(k, v, tableMemory, entryMemory) =>
      Call(if entryMemory then Put(k, v) else PutNothing(k), tableMemory && Full(s))
    case Removal(k) => Call(Drop(k), false)
    case Query(k) => Call(Get(k), false)
  }

  /** What a list of values answers to a search or a removal. */
  function First<V>(list: seq<V>): Option<V> {
    if list == [] then None else Some(list[0])
  }

  /** The calls that a sequence of requests makes. */
  function CallsFor<K, V>(start: Size, requests: seq<Request<K, V>>, eqfn: (K, K) -> bool): (calls: seq<Call<K, V>>)
    ensures |calls| == |requests|
  {
    if requests == [] then []
    else
      var before := CallsFor(start, requests[..|requests| - 1], eqfn);
      before + [CallFor(requests[|requests| - 1], SizeAfter(start, before, eqfn))]
  }

  /** The answer to a request, given the list of its key before. */
  function Answer<K, V>(request: Request<K, V>, was: seq<V>): Option<V> {
    if request.Insertion? then None else First(was)
  }

  /** One request served by a table. */
  method Serve<K(!new), V>(h: Hashtable<K, V>, request: Request<K, V>) returns (answer: Option<V>)
    requires h.Valid()
    modifies h, h.table, h.all
    ensures h.Valid() && (h.table == old(h.table) || fresh(h.table))
    ensures forall j :: 0 <= j < |h.all| ==> h.all[j] in old(h.all) || fresh(h.all[j])
    ensures answer == Answer(request, old(h.Lookup(request.k)))
    ensures var s := Size(old(h.entrycount), old(h.primeindex));
            Size(h.entrycount, h.primeindex) == NextSize(s, CallFor(request, s), old(h.Lookup(request.k)))
    ensures var call := CallFor(request, Size(old(h.entrycount), old(h.primeindex)));
            forall q :: h.Lookup(q) == Next(old(h.Lookup(q)), call, h.eqfn, q)
  {
    hide Newest;
    match request
    case Insertion(k, v, tableMemory, entryMemory) =>
      var _ := h.Insert(k, v, tableMemory, entryMemory);
      answer := None;
    case Removal(k) =>
      answer := h.Remove(k);
    case Query(k) =>
      answer := h.Search(k);
  }

  /**
   Requests served by an empty table: the lists and the answers are those of the run, and with unique keys the
   answers are those of a plain map.
   */
  method Execute<K(!new), V>(h: Hashtable<K, V>, requests: seq<Request<K, V>>) returns (answers: seq<Option<V>>)
    requires h.Valid() && h.entrycount == 0
    modifies h, h.table, h.all
    ensures h.Valid() && |answers| == |requests|
    ensures var calls := CallsFor(Size(0, old(h.primeindex)), requests, h.eqfn);
            && (forall q :: h.Lookup(q) == ListAfter(calls, h.eqfn, q))
            && (forall n :: 0 <= n < |requests| ==>
                  answers[n] == Answer(requests[n], ListAfter(calls[..n], h.eqfn, requests[n].k)))
            && (UniqueKeys(calls, h.eqfn) ==> forall n :: 0 <= n < |requests| && !requests[n].Insertion? ==>
                  answers[n] == MapAfter(calls[..n], h.eqfn, requests[n].k))
  {
    hide Newest, Next, NextSize, Answer, ListAfter, SizeAfter, CallsFor, CallFor;
    hide AllLinked, NoDuplicates, KeysAgree, Scramble, Prime, LoadLimit;
    NothingStored(h);
    ghost var start := Size(0, h.primeindex);
    ghost var calls: seq<Call<K, V>> := [];
    NothingRun<K, V>(start, h.eqfn);
    answers := [];
    for n := 0 to |requests|
      invariant h.Valid() && (h.table == old(h.table) || fresh(h.table))
      invariant forall j :: 0 <= j < |h.all| ==> h.all[j] in old(h.all) || fresh(h.all[j])
      invariant calls == CallsFor(start, requests[..n], h.eqfn) && |answers| == |calls| == n
      invariant SizeAfter(start, calls, h.eqfn) == Size(h.entrycount, h.primeindex)
      invariant forall q :: h.Lookup(q) == ListAfter(calls, h.eqfn, q)
      invariant forall m :: 0 <= m < n ==>
                  answers[m] == Answer(requests[m], ListAfter(calls[..m], h.eqfn, requests[m].k))
    {
      RunStep(start, requests[..n], requests[n], h.eqfn);
      var answer := Serve(h, requests[n]);
      assert requests[..n] + [requests[n]] == requests[..n + 1];
      answers := answers + [answer];
      ghost var before := calls;
      calls := calls + [CallFor(requests[n], SizeAfter(start, calls, h.eqfn))];
      assert forall m :: 0 <= m <= n ==> calls[..m] == before[..m];
      assert before[..n] == before;
    }
    assert requests[..|requests|] == requests;
    AnswersOfMap(calls, h.hashfn, h.eqfn);
    forall n | 0 <= n < |requests| && !requests[n].Insertion?
      ensures answers[n] == First(ListAfter(calls[..n], h.eqfn, requests[n].k))
    {
      AnswerIsFirst(requests[n], ListAfter(calls[..n], h.eqfn, requests[n].k));
    }
  }

  lemma AnswerIsFirst<K, V>(request: Request<K, V>, was: seq<V>)
    requires !request.Insertion?
    ensures Answer(request, was) == First(was)
  {
  }

  /** With unique keys the first of a list is what a plain map holds. */
  lemma AnswersOfMap<K(!new), V>(calls: seq<Call<K, V>>, hashfn: K -> Uint32, eqfn: (K, K) -> bool)
    requires KeysAgree(hashfn, eqfn)
    ensures UniqueKeys(calls, eqfn) ==> forall n, k :: 0 <= n <= |calls| ==>
              First(ListAfter(calls[..n], eqfn, k)) == MapAfter(calls[..n], eqfn, k)
  {
    hide ListAfter, MapAfter, UniqueKeys;
    PlainMapExactly(calls, hashfn, eqfn);
    if UniqueKeys(calls, eqfn) {
      forall n, k | 0 <= n <= |calls|
        ensures First(ListAfter(calls[..n], eqfn, k)) == MapAfter(calls[..n], eqfn, k)
      {
        assert IsMap(calls[..n], eqfn);
      }
    }
  }

  // ---------- A duplicate key ----------

  predicate SameNumber(a: int, b: int) {
    a == b
  }

  /** Two values for the key 0, and then `n` other keys. */
  function Crowd(n: nat): seq<Request<int, int>> {
    if n == 0 then [Insertion(0, 1, true, true), Insertion(0, 2, true, true)]
    else Crowd(n - 1) + [Insertion(n, 0, true, true)]
  }

  lemma CrowdStarts()
    ensures var calls := CallsFor(Size(0, 0), Crowd(0), SameNumber);
            && ListAfter(calls, SameNumber, 0) == [2, 1] && MapAfter(calls, SameNumber, 0) == Some(2)
            && SizeAfter(Size(0, 0), calls, SameNumber) == Size(2, 0)
  {
    hide CallsFor, ListAfter, SizeAfter;
    var one: Request<int, int>, two: Request<int, int> := Insertion(0, 1, true, true), Insertion(0, 2, true, true);
    NothingRun<int, int>(Size(0, 0), SameNumber);
    RunStep(Size(0, 0), [], one, SameNumber);
    RunStep(Size(0, 0), [one], two, SameNumber);
    assert [] + [one] == [one] && [one] + [two] == Crowd(0);
  }

  /** Up to thirty-five entries an empty table of the least size does not grow. */
  lemma {:induction false} CrowdFits(n: nat)
    requires n <= 33
    ensures var calls := CallsFor(Size(0, 0), Crowd(n), SameNumber);
            && ListAfter(calls, SameNumber, 0) == [2, 1] && MapAfter(calls, SameNumber, 0) == Some(2)
            && SizeAfter(Size(0, 0), calls, SameNumber) == Size(n + 2, 0)
  {
    hide CallsFor, ListAfter, SizeAfter;
    if n == 0 {
      CrowdStarts();
    } else {
      CrowdFits(n - 1);
      RunStep(Size(0, 0), Crowd(n - 1), Insertion(n, 0, true, true), SameNumber);
    }
  }

  /** The thirty-sixth entry makes it grow: then a search finds the older value, where a map has the newer one. */
  lemma DuplicatesReversed()
    ensures var calls := CallsFor(Size(0, 0), Crowd(34), SameNumber);
            First(ListAfter(calls, SameNumber, 0)) == Some(1) && MapAfter(calls, SameNumber, 0) == Some(2)
  {
    hide CallsFor, ListAfter, SizeAfter;
    CrowdFits(33);
    RunStep(Size(0, 0), Crowd(33), Insertion(34, 0, true, true), SameNumber);
    assert [2, 1][..1] == [2] && [2][..0] == [];
    assert Reversed([2, 1]) == [1, 2];
  }

  lemma NothingStored<K(!new), V>(h: Hashtable<K, V>)
    requires h.Valid() && h.entrycount == 0
    ensures forall q :: h.Lookup(q) == []
  {
    hide AllLinked, Scramble;
  }

  lemma NothingRun<K(!new), V>(start: Size, eqfn: (K, K) -> bool)
    ensures CallsFor<K, V>(start, [], eqfn) == [] && SizeAfter<K, V>(start, [], eqfn) == start
    ensures forall q: K :: ListAfter<K, V>([], eqfn, q) == []
  {
  }

  lemma RunStep<K(!new), V>(
    start: Size, requests: seq<Request<K, V>>, request: Request<K, V>, eqfn: (K, K) -> bool)
    ensures var calls := CallsFor(start, requests, eqfn);
            var s := SizeAfter(start, calls, eqfn);
            var call := CallFor(request, s);
            && CallsFor(start, requests + [request], eqfn) == calls + [call]
            && (forall q :: ListAfter(calls + [call], eqfn, q) == Next(ListAfter(calls, eqfn, q), call, eqfn, q))
            && SizeAfter(start, calls + [call], eqfn) == NextSize(s, call, ListAfter(calls, eqfn, request.k))
  {
    hide Next, NextSize, Full;
    var calls := CallsFor(start, requests, eqfn);
    var call := CallFor(request, SizeAfter(start, calls, eqfn));
    assert (requests + [request])[..|requests|] == requests;
    assert (calls + [call])[..|calls|] == calls;
  }
}
