/** Which transmission errors the CRC is sure to detect: short bursts, and any odd number of bits. */
module CrcErrors {
  import opened Words
  import opened Crc

  /** The registers differ in one of their bits 0 to `j`. */
  ghost predicate DifferLow(r: Register, s: Register, j: nat)
    requires j < 16
  {
    exists i :: 0 <= i <= j && r[i] != s[i]
  }

  /** The same message bit never makes two different registers equal. */
  lemma StepInjective(r: Register, s: Register, b: bool)
    requires r != s
    ensures StepBit(r, b) != StepBit(s, b)
  {
    var x, y := StepBit(r, b), StepBit(s, b);
    assert x[0] == (r[15] != b) && y[0] == (s[15] != b);
    var i :| 0 <= i < 16 && r[i] != s[i];
    if r[15] == s[15] {
      assert x[i + 1] != y[i + 1];
    }
  }

  /** A difference in the low bits moves up by at most one place a clock, whatever the message bits. */
  lemma DifferenceMoves(r: Register, s: Register, b: bool, c: bool, j: nat)
    requires j < 15 && DifferLow(r, s, j)
    ensures DifferLow(StepBit(r, b), StepBit(s, c), j + 1)
  {
    var x, y := StepBit(r, b), StepBit(s, c);
    var i :| 0 <= i <= j && r[i] != s[i];
    if (r[15] != b) != (s[15] != c) {
      assert x[0] != y[0];
    } else {
      assert x[i + 1] != y[i + 1];
    }
  }

  /** The first differing bit is at `f`; for sixteen bits from there on the registers differ. */
  lemma {:induction false} DifferAfter(crc: Register, a: seq<bool>, b: seq<bool>, f: nat, n: nat)
    requires |a| == |b| && f < n <= |a| && n - f <= 16
    requires a[..f] == b[..f] && a[f] != b[f]
    ensures DifferLow(CrcBits(crc, a[..n]), CrcBits(crc, b[..n]), n - f - 1)
  {
    hide StepBit;
    CrcBitsNext(crc, a, n - 1);
    CrcBitsNext(crc, b, n - 1);
    var r, s := CrcBits(crc, a[..n - 1]), CrcBits(crc, b[..n - 1]);
    if n == f + 1 {
      FirstDifference(r, a[f], b[f]);
    } else {
      DifferAfter(crc, a, b, f, n - 1);
      DifferenceMoves(r, s, a[n - 1], b[n - 1], n - f - 2);
    }
  }

  lemma FirstDifference(r: Register, b: bool, c: bool)
    requires b != c
    ensures DifferLow(StepBit(r, b), StepBit(r, c), 0)
  {
    assert StepBit(r, b)[0] != StepBit(r, c)[0];
  }

  lemma {:induction false} DifferToTheEnd(crc: Register, a: seq<bool>, b: seq<bool>, m: nat, n: nat)
    requires |a| == |b| && m <= n <= |a|
    requires CrcBits(crc, a[..m]) != CrcBits(crc, b[..m])
    requires forall k :: m <= k < |a| ==> a[k] == b[k]
    ensures CrcBits(crc, a[..n]) != CrcBits(crc, b[..n])
  {
    hide *;
    if m < n {
      DifferToTheEnd(crc, a, b, m, n - 1);
      CrcBitsNext(crc, a, n - 1);
      CrcBitsNext(crc, b, n - 1);
      StepInjective(CrcBits(crc, a[..n - 1]), CrcBits(crc, b[..n - 1]), a[n - 1]);
    }
  }

  /** The strings differ, and only within sixteen consecutive bits. */
  ghost predicate Burst(a: seq<bool>, b: seq<bool>, at: nat)
    requires |a| == |b|
  {
    a != b && forall k :: 0 <= k < |a| && a[k] != b[k] ==> at <= k < at + 16
  }

  lemma {:induction false} FirstDifferingBit(a: seq<bool>, b: seq<bool>) returns (f: nat)
    requires |a| == |b| && a != b
    ensures f < |a| && a[..f] == b[..f] && a[f] != b[f]
  {
    if a[0] != b[0] {
      f := 0;
    } else {
      assert a == [a[0]] + a[1..] && b == [b[0]] + b[1..];
      f := FirstDifferingBit(a[1..], b[1..]);
      assert a[..f + 1] == [a[0]] + a[1..][..f] && b[..f + 1] == [b[0]] + b[1..][..f];
      f := f + 1;
    }
  }

  lemma BurstChangesRegister(crc: Register, a: seq<bool>, b: seq<bool>, at: nat)
    requires |a| == |b| && Burst(a, b, at)
    ensures CrcBits(crc, a) != CrcBits(crc, b)
  {
    hide CrcBits;
    var f := FirstDifferingBit(a, b);
    var m := if f + 16 < |a| then f + 16 else |a|;
    DifferAfter(crc, a, b, f, m);
    DifferToTheEnd(crc, a, b, m, |a|);
    assert a[..|a|] == a && b[..|b|] == b;
  }

  /** Messages that differ only within sixteen consecutive bits never share a CRC. */
  lemma BurstDetected(crc: Register, a: seq<Byte>, b: seq<Byte>, at: nat)
    requires |a| == |b| && a != b
    requires forall k :: 0 <= k < 8 * |a| && MessageBits(a)[k] != MessageBits(b)[k] ==> at <= k < at + 16
    ensures CrcBytes(crc, a) != CrcBytes(crc, b)
  {
    MessageBitsInjective(a, b);
    BurstChangesRegister(crc, MessageBits(a), MessageBits(b), at);
  }

  lemma {:induction false} MessageBitsInjective(a: seq<Byte>, b: seq<Byte>)
    requires |a| == |b| && a != b
    ensures MessageBits(a) != MessageBits(b)
  {
    var n := |a| - 1;
    assert a == a[..n] + [a[n]] && b == b[..n] + [b[n]];
    var x, y := MessageBits(a[..n]), MessageBits(b[..n]);
    assert MessageBits(a)[..8 * n] == x && MessageBits(b)[..8 * n] == y;
    assert MessageBits(a)[8 * n..] == BitsOf(a[n]) && MessageBits(b)[8 * n..] == BitsOf(b[n]);
    if a[n] != b[n] {
      BitsOfInjective(a[n], b[n]);
    } else {
      MessageBitsInjective(a[..n], b[..n]);
    }
  }

  lemma BitsOfInjective(a: Byte, b: Byte)
    ensures BitsOf(a) == BitsOf(b) ==> a == b
  {
    hide FromNat, ToNat;
    PowerOfEight();
    ToNatFromNat(a, 8);
    ToNatFromNat(b, 8);
    BitsOfReversed(a);
    BitsOfReversed(b);
    assert BitsOf(a) == BitsOf(b) ==> FromNat(a, 8) == FromNat(b, 8);
  }

  lemma PowerOfEight()
    ensures Pow2(8) == 256
  {
    assert Pow2(4) == 16;
  }

  lemma BitsOfReversed(a: Byte)
    ensures forall j :: 0 <= j < 8 ==> FromNat(a, 8)[j] == BitsOf(a)[7 - j]
  {
    hide FromNat;
  }

  /** Whether an odd number of bits is set. */
  function Parity(w: seq<bool>): bool {
    if w == [] then false else Parity(w[..|w| - 1]) != w[|w| - 1]
  }

  lemma {:induction false} ParityXor(a: Word, b: Word)
    requires |a| == |b|
    ensures Parity(Xor(a, b)) == (Parity(a) != Parity(b))
  {
    if a != [] {
      var n := |a| - 1;
      ParityXor(a[..n], b[..n]);
      assert Xor(a, b)[..n] == Xor(a[..n], b[..n]);
    }
  }

  lemma {:induction false} ParityCons(b: bool, w: Word)
    ensures Parity([b] + w) == (b != Parity(w))
  {
    if w == [] {
      assert [b] + w == [b] && [b][..0] == [];
    } else {
      var n := |w| - 1;
      ParityCons(b, w[..n]);
      assert ([b] + w)[..n + 1] == [b] + w[..n];
    }
  }

  /** The register's parity follows the message's. */
  lemma ParityStep(r: Register, b: bool)
    ensures Parity(StepBit(r, b)) == (Parity(r) != b)
  {
    hide Parity;
    assert Shl(r, 1) == [false] + r[..15];
    ParityCons(false, r[..15]);
    ParityXor(Shl(r, 1), GENERATOR);
    ParityOfGenerator();
    ParityLast(r);
  }

  lemma ParityLast(r: Register)
    ensures Parity(r) == (Parity(r[..15]) != r[15])
  {
  }

  lemma ParityOfGenerator()
    ensures Parity(GENERATOR)
  {
    var g := GENERATOR;
    assert g[..13] == g[..12] + [true];
    assert g == g[..13] + Zeros(3);
    ParityPadded(g[..13], 3);
    assert g[..13][..12] == g[..6] + Zeros(6);
    ParityPadded(g[..6], 6);
    assert g[..6][..5] == [true] + Zeros(4);
    ParityPadded([true], 4);
    assert [true][..0] == [];
  }

  lemma {:induction false} ParityPadded(w: Word, k: nat)
    ensures Parity(w + Zeros(k)) == Parity(w)
  {
    if k == 0 {
      assert w + Zeros(0) == w;
    } else {
      ParityPadded(w, k - 1);
      assert (w + Zeros(k))[..|w| + k - 1] == w + Zeros(k - 1);
    }
  }

  lemma {:induction false} ParityOfCrc(crc: Register, bits: seq<bool>)
    ensures Parity(CrcBits(crc, bits)) == (Parity(crc) != Parity(bits))
  {
    if bits != [] {
      hide StepBit;
      var n := |bits| - 1;
      ParityOfCrc(crc, bits[..n]);
      ParityStep(CrcBits(crc, bits[..n]), bits[n]);
    }
  }

  /** Messages of one length that differ in an odd number of bits never share a CRC. */
  lemma OddErrorsDetected(crc: Register, a: seq<Byte>, b: seq<Byte>)
    requires |a| == |b| && Parity(Xor(MessageBits(a), MessageBits(b)))
    ensures CrcBytes(crc, a) != CrcBytes(crc, b)
  {
    ParityXor(MessageBits(a), MessageBits(b));
    ParityOfCrc(crc, MessageBits(a));
    ParityOfCrc(crc, MessageBits(b));
  }
}
