/**
 The 16-bit CRC of ITU-T Recommendation V.41 (polynomial x^16 + x^12 + x^5 + 1), in the four forms
 the repository carries.

 The reference is the shift register fed one message bit at a time. The bit loop, the loop-free form,
 the table form and the host's Python form are each proved to compute it.
 */
module Crc {
  import opened Words

  type Register = w: Word | |w| == 16 witness Zeros(16)

  /** 0x1021: the polynomial without its leading term. */
  const GENERATOR: Register :=
    [true, false, false, false, false, true, false, false,
     false, false, false, false, true, false, false, false]

  lemma GeneratorValue()
    ensures ToNat(GENERATOR) == 0x1021
  {
    hide ToNat;
    ToNat16(GENERATOR);
  }

  /** One clock of the register: shift in the message bit `bit`. */
  function StepBit(crc: Register, bit: bool): Register {
    if crc[15] != bit then Xor(Shl(crc, 1), GENERATOR) else Shl(crc, 1)
  }

  /** The register after a whole sequence of message bits. */
  function CrcBits(crc: Register, bits: seq<bool>): Register {
    if bits == [] then crc else StepBit(CrcBits(crc, bits[..|bits| - 1]), bits[|bits| - 1])
  }

  /** The bits of a byte in transmission order, most significant first. */
  function BitsOf(b: Byte): (bits: seq<bool>)
    ensures |bits| == 8
  {
    var w := FromNat(b, 8);
    [w[7], w[6], w[5], w[4], w[3], w[2], w[1], w[0]]
  }

  /** The bits of a message in the order in which they enter the register. */
  function MessageBits(data: seq<Byte>): (bits: seq<bool>)
    ensures |bits| == 8 * |data|
  {
    if data == [] then [] else MessageBits(data[..|data| - 1]) + BitsOf(data[|data| - 1])
  }

  lemma {:induction false} BitOfByte(data: seq<Byte>, i: nat, j: nat)
    requires i < |data| && j < 8
    ensures MessageBits(data)[8 * i + j] == BitsOf(data[i])[j]
  {
    hide BitsOf;
    var n := |data| - 1;
    if i < n {
      BitOfByte(data[..n], i, j);
    }
  }

  /** A byte is sent from its most significant bit on. */
  lemma MessageBitAt(data: seq<Byte>, i: nat, j: nat)
    requires i < |data| && j < 8
    ensures MessageBits(data)[8 * i + j] == (data[i] / Pow2(7 - j) % 2 == 1)
  {
    hide MessageBits;
    BitOfByte(data, i, j);
    FromNatDigit(data[i], 8, 7 - j);
  }

  /** The register after one more message byte. */
  function CrcByte(crc: Register, b: Byte): Register {
    CrcBits(crc, BitsOf(b))
  }

  /** The register after a whole message. */
  function CrcBytes(crc: Register, data: seq<Byte>): Register {
    CrcBits(crc, MessageBits(data))
  }

  lemma {:induction false} CrcBitsAppend(crc: Register, a: seq<bool>, b: seq<bool>)
    ensures CrcBits(crc, a + b) == CrcBits(CrcBits(crc, a), b)
  {
    if b == [] {
      assert a + b == a;
    } else {
      var n := |b| - 1;
      assert (a + b)[..|a + b| - 1] == a + b[..n];
      CrcBitsAppend(crc, a, b[..n]);
    }
  }

  /** Feeding one more byte after a message is feeding the longer message. */
  lemma CrcBytesSnoc(crc: Register, data: seq<Byte>, b: Byte)
    ensures CrcBytes(crc, data + [b]) == CrcByte(CrcBytes(crc, data), b)
  {
    assert (data + [b])[..|data|] == data;
    CrcBitsAppend(crc, MessageBits(data), BitsOf(b));
  }

  /** `StepBit` once the message bit has been folded into the top of the register. */
  function Shift(crc: Register): Register {
    if crc[15] then Xor(Shl(crc, 1), GENERATOR) else Shl(crc, 1)
  }

  function Shifts(crc: Register, n: nat): Register {
    if n == 0 then crc else Shift(Shifts(crc, n - 1))
  }

  /** A byte placed in the top half of the register. */
  function TopByte(b: Byte): Register {
    Zeros(8) + FromNat(b, 8)
  }

  lemma ByteStep(r: Register, m: Register)
    ensures Shift(Xor(r, m)) == Xor(StepBit(r, m[15]), Shl(m, 1))
  {
  }

  lemma ShlAgain(m: Register, n: nat)
    requires n <= 15
    ensures Shl(m, n)[15] == m[15 - n]
    ensures Shl(Shl(m, n), 1) == Shl(m, n + 1)
  {
  }

  /** After `n` shifts the register differs from the bit-fed one by the byte bits not yet used. */
  lemma {:induction false} ByteInFlight(crc: Register, m: Register, bits: seq<bool>, n: nat)
    requires n <= |bits| == 8 && forall j :: 0 <= j < 8 ==> bits[j] == m[15 - j]
    ensures Shifts(Xor(crc, m), n) == Xor(CrcBits(crc, bits[..n]), Shl(m, n))
  {
    hide Shift, StepBit, Xor, Shl;
    if n == 0 {
      assert Shl(m, 0) == m;
    } else {
      ByteInFlight(crc, m, bits, n - 1);
      ShlAgain(m, n - 1);
      CrcBitsNext(crc, bits, n - 1);
      ByteStep(CrcBits(crc, bits[..n - 1]), Shl(m, n - 1));
    }
  }

  lemma CrcBitsNext(crc: Register, bits: seq<bool>, n: nat)
    requires n < |bits|
    ensures CrcBits(crc, bits[..n + 1]) == StepBit(CrcBits(crc, bits[..n]), bits[n])
  {
    assert bits[..n + 1][..n] == bits[..n];
  }

  /** Xor-ing the whole byte into the top half and then shifting eight times feeds its eight bits. */
  lemma ByteAtOnce(crc: Register, b: Byte)
    ensures Shifts(Xor(crc, TopByte(b)), 8) == CrcByte(crc, b)
  {
    ByteInFlight(crc, TopByte(b), BitsOf(b), 8);
    assert BitsOf(b)[..8] == BitsOf(b);
    hide CrcBits, BitsOf, Shifts, TopByte;
    TopByteGone(CrcByte(crc, b), b);
  }

  lemma TopByteGone(c: Register, b: Byte)
    ensures Xor(c, Shl(TopByte(b), 8)) == c
  {
  }

  /** tosboot's do-while loop. */
  method CrcByteLoop(crc: Register, b: Byte) returns (r: Register)
    ensures r == CrcByte(crc, b)
  {
    r := Xor(crc, TopByte(b));
    var i := 8;
    while i != 0
      invariant 0 <= i <= 8
      invariant r == Shifts(Xor(crc, TopByte(b)), 8 - i)
    {
      if r[15] {
        r := Xor(Shl(r, 1), GENERATOR);
      } else {
        r := Shl(r, 1);
      }
      i := i - 1;
    }
    ByteAtOnce(crc, b);
  }

  /** Up to four shifts at once: no term of the polynomial folded back in reaches the top. */
  function Folded(r: Register, n: nat): (s: Register)
    requires n <= 16
  {
    var t := Shr(r, 16 - n);
    Xor(Xor(Xor(Shl(r, n), t), Shl(t, 5)), Shl(t, 12))
  }

  lemma {:induction false} ShiftsFold(r: Register, n: nat)
    requires n <= 4
    ensures Shifts(r, n) == Folded(r, n)
  {
    if n != 0 {
      ShiftsFold(r, n - 1);
      FoldedStep(r, n);
    }
  }

  lemma FoldedBit(r: Register, n: nat, k: nat)
    requires n <= 4 && k < 16
    ensures Folded(r, n)[k] == ((n <= k && r[k - n]) != ((k < n && r[16 - n + k]) !=
              ((5 <= k < 5 + n && r[11 - n + k]) != (12 <= k < 12 + n && r[4 - n + k]))))
  {
  }

  lemma ShiftBit(s: Register, k: nat)
    requires k < 16
    ensures Shift(s)[k] == ((k != 0 && s[k - 1]) != (s[15] && (k == 0 || k == 5 || k == 12)))
  {
  }

  lemma FoldedStep(r: Register, n: nat)
    requires 1 <= n <= 4
    ensures Shift(Folded(r, n - 1)) == Folded(r, n)
  {
    forall k | 0 <= k < 16
      ensures Shift(Folded(r, n - 1))[k] == Folded(r, n)[k]
    {
      FoldedBits(r, n, k);
    }
  }

  lemma FoldedBits(r: Register, n: nat, k: nat)
    requires 1 <= n <= 4 && k < 16
    ensures Shift(Folded(r, n - 1))[k] == Folded(r, n)[k]
  {
    hide *;
    ShiftBit(Folded(r, n - 1), k);
    FoldedBit(r, n - 1, 15);
    FoldedBit(r, n, k);
    if k != 0 {
      FoldedBit(r, n - 1, k - 1);
    }
  }

  lemma {:induction false} ShiftsAdd(r: Register, m: nat, n: nat)
    ensures Shifts(Shifts(r, m), n) == Shifts(r, m + n)
  {
    hide Shift;
    if n != 0 {
      ShiftsAdd(r, m, n - 1);
    }
  }

  /** Bit `j` of u ^ (u >> 4), where u is the top half of the register. */
  function Mixed(r: Register, j: int): bool {
    0 <= j < 8 && (r[8 + j] != (j < 4 && r[12 + j]))
  }

  /** Eight shifts in closed form: (r << 8) ^ v ^ (v << 5) ^ (v << 12) with v = u ^ (u >> 4), u = r >> 8. */
  lemma EightShiftsBit(r: Register, k: nat)
    requires k < 16
    ensures Shifts(r, 8)[k] ==
            ((8 <= k && r[k - 8]) != (Mixed(r, k) != (Mixed(r, k - 5) != Mixed(r, k - 12))))
  {
    hide *;
    ShiftsAdd(r, 4, 4);
    ShiftsFold(r, 4);
    ShiftsFold(Shifts(r, 4), 4);
    FoldedTwice(r, k);
  }

  lemma FoldedTwice(r: Register, k: nat)
    requires k < 16
    ensures Folded(Folded(r, 4), 4)[k] ==
            ((8 <= k && r[k - 8]) != (Mixed(r, k) != (Mixed(r, k - 5) != Mixed(r, k - 12))))
  {
    hide Folded, Shifts, Shift;
    var f := Folded(r, 4);
    FoldedBit(f, 4, k);
    if 4 <= k { FoldedBit(r, 4, k - 4); }
    if k < 4 { FoldedBit(r, 4, 12 + k); }
    if 5 <= k < 9 { FoldedBit(r, 4, 7 + k); }
    if 12 <= k { FoldedBit(r, 4, k); }
  }

  /** The register after one byte, bit by bit. */
  lemma CrcByteBit(crc: Register, b: Byte, k: nat)
    requires k < 16
    ensures var r := Xor(crc, TopByte(b));
            CrcByte(crc, b)[k] ==
            ((8 <= k && r[k - 8]) != (Mixed(r, k) != (Mixed(r, k - 5) != Mixed(r, k - 12))))
  {
    hide *;
    ByteAtOnce(crc, b);
    EightShiftsBit(Xor(crc, TopByte(b)), k);
  }

  /** The loop-free form used on most platforms. */
  method CrcByteFast(crc: Register, b: Byte) returns (r: Register)
    ensures r == CrcByte(crc, b)
  {
    var byte: Register := FromNat(b, 8) + Zeros(8);
    var swapped: Register := Or(Low(Shr(crc, 8), 8), Shl(crc, 8));
    var keyed: Register := Xor(swapped, byte);
    var mixed: Register := Xor(keyed, Shr(Low(keyed, 8), 4));
    var twelve: Register := Xor(mixed, Shl(mixed, 12));
    r := Xor(twelve, Shl(Low(twelve, 8), 5));
    forall k | 0 <= k < 16
      ensures r[k] == CrcByte(crc, b)[k]
    {
      CrcByteBit(crc, b, k);
      FastBit(crc, b, swapped, keyed, mixed, twelve, k);
    }
  }

  lemma FastBit(crc: Register, b: Byte, swapped: Register, keyed: Register, mixed: Register, twelve: Register, k: nat)
    requires k < 16
    requires swapped == Or(Low(Shr(crc, 8), 8), Shl(crc, 8))
    requires keyed == Xor(swapped, FromNat(b, 8) + Zeros(8))
    requires mixed == Xor(keyed, Shr(Low(keyed, 8), 4))
    requires twelve == Xor(mixed, Shl(mixed, 12))
    ensures var r := Xor(crc, TopByte(b));
            Xor(twelve, Shl(Low(twelve, 8), 5))[k] ==
            ((8 <= k && r[k - 8]) != (Mixed(r, k) != (Mixed(r, k - 5) != Mixed(r, k - 12))))
  {
    hide FromNat;
    var r := Xor(crc, TopByte(b));
    forall j | 0 <= j < 8
      ensures keyed[j] == r[8 + j] && keyed[8 + j] == r[j]
    {
    }
    assert forall j :: 0 <= j < 8 ==> mixed[j] == Mixed(r, j);
    assert forall j :: 8 <= j < 16 ==> mixed[j] == r[j - 8];
    assert twelve[k] == (mixed[k] != (12 <= k && mixed[k - 12]));
  }

  /** The host's loop over a frame, on Python integers: a shift grows the number and a mask cuts it back. */
  method PythonCrc16(baseCrc: Register, frame: seq<Byte>) returns (crc: Register)
    ensures crc == CrcBytes(baseCrc, frame)
  {
    crc := baseCrc;
    for n := 0 to |frame|
      invariant crc == CrcBytes(baseCrc, frame[..n])
    {
      var b := frame[n];
      ghost var before := crc;
      crc := Xor(crc, TopByte(b));
      for i := 0 to 8
        invariant crc == Shifts(Xor(before, TopByte(b)), i)
      {
        crc := PythonShift(crc);
      }
      ByteAtOnce(before, b);
      CrcBytesSnoc(baseCrc, frame[..n], b);
      assert frame[..n + 1] == frame[..n] + [b];
    }
    assert frame[..|frame|] == frame;
  }

  /** The body of the host's inner loop. */
  method PythonShift(crc: Register) returns (r: Register)
    ensures r == Shift(crc)
  {
    var wide := [false] + crc;
    if crc[15] {
      wide := Xor(wide, GENERATOR + [false]);
    }
    r := wide[..16];
    assert r == Shift(crc);
  }
}
