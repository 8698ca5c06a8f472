/** The table-driven CRC: each table entry is what the bit loop makes of its index. */
module CrcTable {
  import opened Arithmetic
  import opened Words
  import opened Crc

  const ROW_0: seq<nat> := [0x0000, 0x1021, 0x2042, 0x3063, 0x4084, 0x50a5, 0x60c6, 0x70e7]
  const ROW_1: seq<nat> := [0x8108, 0x9129, 0xa14a, 0xb16b, 0xc18c, 0xd1ad, 0xe1ce, 0xf1ef]
  const ROW_2: seq<nat> := [0x1231, 0x0210, 0x3273, 0x2252, 0x52b5, 0x4294, 0x72f7, 0x62d6]
  const ROW_3: seq<nat> := [0x9339, 0x8318, 0xb37b, 0xa35a, 0xd3bd, 0xc39c, 0xf3ff, 0xe3de]
  const ROW_4: seq<nat> := [0x2462, 0x3443, 0x0420, 0x1401, 0x64e6, 0x74c7, 0x44a4, 0x5485]
  const ROW_5: seq<nat> := [0xa56a, 0xb54b, 0x8528, 0x9509, 0xe5ee, 0xf5cf, 0xc5ac, 0xd58d]
  const ROW_6: seq<nat> := [0x3653, 0x2672, 0x1611, 0x0630, 0x76d7, 0x66f6, 0x5695, 0x46b4]
  const ROW_7: seq<nat> := [0xb75b, 0xa77a, 0x9719, 0x8738, 0xf7df, 0xe7fe, 0xd79d, 0xc7bc]
  const ROW_8: seq<nat> := [0x48c4, 0x58e5, 0x6886, 0x78a7, 0x0840, 0x1861, 0x2802, 0x3823]
  const ROW_9: seq<nat> := [0xc9cc, 0xd9ed, 0xe98e, 0xf9af, 0x8948, 0x9969, 0xa90a, 0xb92b]
  const ROW_10: seq<nat> := [0x5af5, 0x4ad4, 0x7ab7, 0x6a96, 0x1a71, 0x0a50, 0x3a33, 0x2a12]
  const ROW_11: seq<nat> := [0xdbfd, 0xcbdc, 0xfbbf, 0xeb9e, 0x9b79, 0x8b58, 0xbb3b, 0xab1a]
  const ROW_12: seq<nat> := [0x6ca6, 0x7c87, 0x4ce4, 0x5cc5, 0x2c22, 0x3c03, 0x0c60, 0x1c41]
  const ROW_13: seq<nat> := [0xedae, 0xfd8f, 0xcdec, 0xddcd, 0xad2a, 0xbd0b, 0x8d68, 0x9d49]
  const ROW_14: seq<nat> := [0x7e97, 0x6eb6, 0x5ed5, 0x4ef4, 0x3e13, 0x2e32, 0x1e51, 0x0e70]
  const ROW_15: seq<nat> := [0xff9f, 0xefbe, 0xdfdd, 0xcffc, 0xbf1b, 0xaf3a, 0x9f59, 0x8f78]
  const ROW_16: seq<nat> := [0x9188, 0x81a9, 0xb1ca, 0xa1eb, 0xd10c, 0xc12d, 0xf14e, 0xe16f]
  const ROW_17: seq<nat> := [0x1080, 0x00a1, 0x30c2, 0x20e3, 0x5004, 0x4025, 0x7046, 0x6067]
  const ROW_18: seq<nat> := [0x83b9, 0x9398, 0xa3fb, 0xb3da, 0xc33d, 0xd31c, 0xe37f, 0xf35e]
  const ROW_19: seq<nat> := [0x02b1, 0x1290, 0x22f3, 0x32d2, 0x4235, 0x5214, 0x6277, 0x7256]
  const ROW_20: seq<nat> := [0xb5ea, 0xa5cb, 0x95a8, 0x8589, 0xf56e, 0xe54f, 0xd52c, 0xc50d]
  const ROW_21: seq<nat> := [0x34e2, 0x24c3, 0x14a0, 0x0481, 0x7466, 0x6447, 0x5424, 0x4405]
  const ROW_22: seq<nat> := [0xa7db, 0xb7fa, 0x8799, 0x97b8, 0xe75f, 0xf77e, 0xc71d, 0xd73c]
  const ROW_23: seq<nat> := [0x26d3, 0x36f2, 0x0691, 0x16b0, 0x6657, 0x7676, 0x4615, 0x5634]
  const ROW_24: seq<nat> := [0xd94c, 0xc96d, 0xf90e, 0xe92f, 0x99c8, 0x89e9, 0xb98a, 0xa9ab]
  const ROW_25: seq<nat> := [0x5844, 0x4865, 0x7806, 0x6827, 0x18c0, 0x08e1, 0x3882, 0x28a3]
  const ROW_26: seq<nat> := [0xcb7d, 0xdb5c, 0xeb3f, 0xfb1e, 0x8bf9, 0x9bd8, 0xabbb, 0xbb9a]
  const ROW_27: seq<nat> := [0x4a75, 0x5a54, 0x6a37, 0x7a16, 0x0af1, 0x1ad0, 0x2ab3, 0x3a92]
  const ROW_28: seq<nat> := [0xfd2e, 0xed0f, 0xdd6c, 0xcd4d, 0xbdaa, 0xad8b, 0x9de8, 0x8dc9]
  const ROW_29: seq<nat> := [0x7c26, 0x6c07, 0x5c64, 0x4c45, 0x3ca2, 0x2c83, 0x1ce0, 0x0cc1]
  const ROW_30: seq<nat> := [0xef1f, 0xff3e, 0xcf5d, 0xdf7c, 0xaf9b, 0xbfba, 0x8fd9, 0x9ff8]
  const ROW_31: seq<nat> := [0x6e17, 0x7e36, 0x4e55, 0x5e74, 0x2e93, 0x3eb2, 0x0ed1, 0x1ef0]

  /** The lookup table, in rows of eight. */
  const TABLE: seq<seq<nat>> := [
    ROW_0, ROW_1, ROW_2, ROW_3, ROW_4, ROW_5, ROW_6, ROW_7,
    ROW_8, ROW_9, ROW_10, ROW_11, ROW_12, ROW_13, ROW_14, ROW_15,
    ROW_16, ROW_17, ROW_18, ROW_19, ROW_20, ROW_21, ROW_22, ROW_23,
    ROW_24, ROW_25, ROW_26, ROW_27, ROW_28, ROW_29, ROW_30, ROW_31
  ]

  lemma TableShape()
    ensures |TABLE| == 32 && forall r | 0 <= r < 32 :: |TABLE[r]| == 8
  {
  }

  function Entry(i: Byte): nat {
    TableShape();
    TABLE[i / 8][i % 8]
  }

  /** Flip digits 0, 5 and 12, the digits of the polynomial 0x1021, in a number. */
  function FlipGenerator(t: nat): int {
    t + (if t % 2 < 1 then 1 else -1)
      + (if t % 64 < 32 then 32 else -32)
      + (if t % 8192 < 4096 then 4096 else -4096)
  }

  /** Doubling an index is one more register shift; the odd index after it adds the polynomial. */
  predicate Doubled(t: nat, even: nat, odd: nat) {
    && even < 0x10000 && odd < 0x10000
    && even == (if t < 0x8000 then 2 * t else FlipGenerator(2 * t - 0x10000))
    && odd == FlipGenerator(even)
  }

  /** A row follows from the half row, starting at `at`, whose indices it doubles. */
  predicate Follows(low: seq<nat>, at: nat, row: seq<nat>) {
    && |low| == |row| == 8 && at <= 4
    && Doubled(low[at], row[0], row[1])
    && Doubled(low[at + 1], row[2], row[3])
    && Doubled(low[at + 2], row[4], row[5])
    && Doubled(low[at + 3], row[6], row[7])
  }

  lemma Rows0To3()
    ensures Follows(ROW_0, 0, ROW_0)
    ensures Follows(ROW_0, 4, ROW_1)
    ensures Follows(ROW_1, 0, ROW_2)
    ensures Follows(ROW_1, 4, ROW_3)
  {
  }

  lemma Rows4To7()
    ensures Follows(ROW_2, 0, ROW_4)
    ensures Follows(ROW_2, 4, ROW_5)
    ensures Follows(ROW_3, 0, ROW_6)
    ensures Follows(ROW_3, 4, ROW_7)
  {
  }

  lemma Rows8To11()
    ensures Follows(ROW_4, 0, ROW_8)
    ensures Follows(ROW_4, 4, ROW_9)
    ensures Follows(ROW_5, 0, ROW_10)
    ensures Follows(ROW_5, 4, ROW_11)
  {
  }

  lemma Rows12To15()
    ensures Follows(ROW_6, 0, ROW_12)
    ensures Follows(ROW_6, 4, ROW_13)
    ensures Follows(ROW_7, 0, ROW_14)
    ensures Follows(ROW_7, 4, ROW_15)
  {
  }

  lemma Rows16To19()
    ensures Follows(ROW_8, 0, ROW_16)
    ensures Follows(ROW_8, 4, ROW_17)
    ensures Follows(ROW_9, 0, ROW_18)
    ensures Follows(ROW_9, 4, ROW_19)
  {
  }

  lemma Rows20To23()
    ensures Follows(ROW_10, 0, ROW_20)
    ensures Follows(ROW_10, 4, ROW_21)
    ensures Follows(ROW_11, 0, ROW_22)
    ensures Follows(ROW_11, 4, ROW_23)
  {
  }

  lemma Rows24To27()
    ensures Follows(ROW_12, 0, ROW_24)
    ensures Follows(ROW_12, 4, ROW_25)
    ensures Follows(ROW_13, 0, ROW_26)
    ensures Follows(ROW_13, 4, ROW_27)
  {
  }

  lemma Rows28To31()
    ensures Follows(ROW_14, 0, ROW_28)
    ensures Follows(ROW_14, 4, ROW_29)
    ensures Follows(ROW_15, 0, ROW_30)
    ensures Follows(ROW_15, 4, ROW_31)
  {
  }

  lemma RowFollows(r: nat)
    requires r < 32
    ensures |TABLE| == 32 && Follows(TABLE[r / 2], 4 * (r % 2), TABLE[r])
  {
    hide Follows;
    Rows0To3(); Rows4To7(); Rows8To11(); Rows12To15();
    Rows16To19(); Rows20To23(); Rows24To27(); Rows28To31();
  }

  lemma FlipGeneratorNested(t: nat)
    ensures FlipGenerator(t) == FlipAt(FlipAt(FlipAt(t, 1), 32), 4096)
  {
    hide FlipAt, FlipGenerator;
    var a := FlipAt(t, 1);
    FlipLow(t, 1, 32);
    FlipLow(t, 1, 4096);
    FlipLow(a, 32, 4096);
    FlipByHalf(t, 1);
    FlipByHalf(a, 32);
    FlipByHalf(FlipAt(a, 32), 4096);
    GeneratorByHalves(t);
  }

  lemma GeneratorByHalves(t: nat)
    ensures FlipGenerator(t) == t + Signed(t, 1) + Signed(t, 32) + Signed(t, 4096)
  {
    HalfOfModulus(t, 32);
    HalfOfModulus(t, 4096);
  }

  lemma HalfOfModulus(t: nat, p: nat)
    requires p == 32 || p == 4096
    ensures t % (2 * p) < p <==> t / p % 2 == 0
  {
    DivModUnique(t / p, 2, t / p / 2, t / p % 2);
    if p == 32 {
      assert t == 64 * (t / 32 / 2) + 32 * (t / 32 % 2) + t % 32;
    } else {
      assert t == 8192 * (t / 4096 / 2) + 4096 * (t / 4096 % 2) + t % 4096;
    }
  }

  /** The change that flipping the digit of weight `p` makes. */
  function Signed(t: nat, p: nat): int
    requires p > 0
  {
    if t / p % 2 == 0 then p else -(p as int)
  }

  lemma FlipByHalf(t: nat, p: nat)
    requires p == 1 || p == 32 || p == 4096
    ensures FlipAt(t, p) == t + Signed(t, p)
  {
    if p > 1 {
      HalfOfModulus(t, p);
    }
  }

  /** Flipping a low digit leaves the quotient by a higher power of two alone. */
  lemma FlipLow(t: nat, p: nat, h: nat)
    requires (p == 1 && (h == 32 || h == 4096)) || (p == 32 && h == 4096)
    ensures FlipAt(t, p) / h == t / h
  {
    var u := FlipAt(t, p);
    if p == 1 {
      assert u / 2 == t / 2;
      DivDiv(u, 2, h / 2);
      DivDiv(t, 2, h / 2);
    } else {
      assert u / 64 == t / 64;
      DivDiv(u, 64, h / 64);
      DivDiv(t, 64, h / 64);
    }
  }

  /** The flips on numbers are the xor on words. */
  lemma FlipGeneratorWord(t: nat)
    ensures FlipGenerator(t) >= 0
    ensures FromNat(FlipGenerator(t), 16) == Xor(FromNat(t, 16), GENERATOR)
  {
    hide FromNat, FlipAt, FlipGenerator;
    var a := FlipAt(t, 1);
    var b := FlipAt(a, 32);
    FlipGeneratorNested(t);
    PowersOfTwo();
    FlipDigit(t, 0, 16);
    FlipDigit(a, 5, 16);
    FlipDigit(b, 12, 16);
  }

  lemma PowersOfTwo()
    ensures Pow2(0) == 1 && Pow2(5) == 32 && Pow2(7) == 128 && Pow2(8) == 256 && Pow2(12) == 4096
    ensures Pow2(15) == 0x8000 && Pow2(16) == 0x10000
  {
    assert Pow2(4) == 16;
    assert Pow2(8) == 256;
    assert Pow2(12) == 4096;
    assert Pow2(15) == 0x8000;
  }

  /** One register shift, on numbers. */
  lemma ShiftNumberWord(t: nat, u: nat)
    requires t < 0x10000 && u == (if t < 0x8000 then 2 * t else FlipGenerator(2 * t - 0x10000))
    ensures FromNat(u, 16) == Shift(FromNat(t, 16))
  {
    PowersOfTwo();
    var w := FromNat(t, 16);
    FromNatDigit(t, 16, 15);
    assert w[15] == (t >= 0x8000);
    DoubledWord(t, 15);
    assert FromNat(2 * t, 16) == Shl(w, 1);
    if t >= 0x8000 {
      FromNatMod(2 * t - 0x10000, 2 * t, 16);
      FlipGeneratorWord(2 * t - 0x10000);
    }
  }

  lemma DoubledWord(t: nat, width: nat)
    ensures FromNat(2 * t, width + 1) == Shl(FromNat(t, width + 1), 1)
    ensures FromNat(2 * t + 1, width + 1) == Shl(FromNat(t, width + 1), 1)[0 := true]
  {
    FromNatPrefix(t, width);
    assert (2 * t) / 2 == t && (2 * t + 1) / 2 == t;
    PushBit(false, FromNat(t, width + 1));
    PushBit(true, FromNat(t, width + 1));
  }

  lemma PushBit(b: bool, w: Word)
    requires w != []
    ensures [b] + w[..|w| - 1] == Shl(w, 1)[0 := b]
    ensures !b ==> [b] + w[..|w| - 1] == Shl(w, 1)
  {
  }

  lemma {:induction false} FromNatPrefix(t: nat, width: nat)
    ensures FromNat(t, width) == FromNat(t, width + 1)[..width]
  {
    if width != 0 {
      FromNatPrefix(t / 2, width - 1);
    }
  }

  lemma {:induction false} ShiftsXor(a: Register, b: Register, n: nat)
    ensures Shifts(Xor(a, b), n) == Xor(Shifts(a, n), Shifts(b, n))
  {
    if n != 0 {
      ShiftsXor(a, b, n - 1);
      ShiftXor(Shifts(a, n - 1), Shifts(b, n - 1));
    }
  }

  lemma ShiftXor(a: Register, b: Register)
    ensures Shift(Xor(a, b)) == Xor(Shift(a), Shift(b))
  {
  }

  lemma TopByteOne()
    ensures forall j :: 0 <= j < 16 ==> TopByte(1)[j] == (j == 8)
  {
    DoubledWord(0, 7);
    FromNatZero(8);
  }

  lemma {:induction false} FromNatZero(width: nat)
    ensures FromNat(0, width) == Zeros(width)
  {
    if width != 0 {
      FromNatZero(width - 1);
    }
  }

  lemma ShiftsOfOne()
    ensures Shifts(TopByte(1), 8) == GENERATOR
  {
    hide Shifts, TopByte;
    TopByteOne();
    forall k | 0 <= k < 16
      ensures Shifts(TopByte(1), 8)[k] == GENERATOR[k]
    {
      EightShiftsBit(TopByte(1), k);
    }
  }

  lemma {:induction false} EntryCorrect(i: Byte)
    ensures Entry(i) < 0x10000 && FromNat(Entry(i), 16) == Shifts(TopByte(i), 8)
    decreases i
  {
    hide Entry, FromNat, Shifts, TopByte;
    if i == 0 {
      EntryZero();
    } else {
      EntryCorrect(i / 2);
      EntryStep(i / 2);
    }
  }

  lemma EntryStep(i: Byte)
    requires 2 * i + 1 < 256
    requires Entry(i) < 0x10000 && FromNat(Entry(i), 16) == Shifts(TopByte(i), 8)
    ensures forall j :: 2 * i <= j <= 2 * i + 1 ==>
              Entry(j) < 0x10000 && FromNat(Entry(j), 16) == Shifts(TopByte(j), 8)
  {
    hide Entry, FromNat, Shifts, Shift, TopByte, FlipGenerator;
    EntryDoubled(i);
    ShiftNumberWord(Entry(i), Entry(2 * i));
    DoubleIndex(i);
    FlipGeneratorWord(Entry(2 * i));
  }

  lemma EntryZero()
    ensures Entry(0) == 0 && FromNat(0, 16) == Shifts(TopByte(0), 8)
  {
    FromNatZero(16);
    FromNatZero(8);
    var z := TopByte(0);
    assert z == Zeros(16);
    forall k | 0 <= k < 16
      ensures !Shifts(z, 8)[k]
    {
      EightShiftsBit(z, k);
    }
  }

  /** The rows, read entry by entry. */
  lemma EntryDoubled(i: Byte)
    requires 2 * i + 1 < 256
    ensures Doubled(Entry(i), Entry(2 * i), Entry(2 * i + 1))
  {
    hide Doubled, TABLE;
    var r := i / 4;
    RowFollows(r);
    assert r / 2 == i / 8 && 4 * (r % 2) + i % 4 == i % 8;
    assert 2 * i / 8 == r && 2 * i % 8 == 2 * (i % 4) && (2 * i + 1) / 8 == r && (2 * i + 1) % 8 == 2 * (i % 4) + 1;
  }

  /** Shifting a byte whose top bit is clear doubles it; its odd neighbour differs by the byte one. */
  lemma DoubleIndex(i: Byte)
    requires i < 128
    ensures Shifts(TopByte(2 * i), 8) == Shift(Shifts(TopByte(i), 8))
    ensures Shifts(TopByte(2 * i + 1), 8) == Xor(Shifts(TopByte(2 * i), 8), GENERATOR)
  {
    hide Shift, Shifts, Xor;
    TopByteDoubled(i);
    ShiftsAdd(TopByte(i), 1, 8);
    ShiftsAdd(TopByte(i), 8, 1);
    ShiftsOnce(TopByte(i));
    ShiftsOnce(Shifts(TopByte(i), 8));
    ShiftsXor(TopByte(2 * i), TopByte(1), 8);
    ShiftsOfOne();
  }

  lemma ShiftsOnce(r: Register)
    ensures Shifts(r, 1) == Shift(r)
  {
    assert Shifts(r, 0) == r;
  }

  lemma TopByteDoubled(i: Byte)
    requires i < 128
    ensures TopByte(2 * i) == Shift(TopByte(i))
    ensures TopByte(2 * i + 1) == Xor(TopByte(2 * i), TopByte(1))
  {
    hide FromNat, Shift;
    PowersOfTwo();
    FromNatDigit(i, 8, 7);
    DoubledWord(i, 7);
    TopByteOne();
    assert TopByte(2 * i) == Shl(TopByte(i), 1);
    ShiftPlain(TopByte(i));
  }

  lemma ShiftPlain(r: Register)
    requires !r[15]
    ensures Shift(r) == Shl(r, 1)
  {
  }

  /** The table-driven form. */
  function CrcByteTable(fcs: Register, c: Byte): Register {
    var index := Low(Xor(Shr(fcs, 8), FromNat(c, 8) + Zeros(8)), 8);
    IndexInRange(index);
    Xor(FromNat(Entry(ToNat(index)), 16), Shl(fcs, 8))
  }

  lemma IndexInRange(index: Register)
    requires forall j :: 8 <= j < 16 ==> !index[j]
    ensures ToNat(index) < 256 && FromNat(ToNat(index), 8) == index[..8]
  {
    assert index == index[..8] + Zeros(8);
    ToNatPadded(index[..8], 8);
    FromNatToNat(index[..8]);
    PowersOfTwo();
  }

  lemma TableAgrees(fcs: Register, c: Byte)
    ensures CrcByteTable(fcs, c) == CrcByte(fcs, c)
  {
    hide FromNat, CrcByte, Entry, ToNat, Shifts;
    var index := Low(Xor(Shr(fcs, 8), FromNat(c, 8) + Zeros(8)), 8);
    IndexInRange(index);
    var i := ToNat(index);
    EntryCorrect(i);
    var s, r := TopByte(i), Xor(fcs, TopByte(c));
    assert forall j :: 8 <= j < 16 ==> s[j] == r[j];
    assert forall j :: 0 <= j < 8 ==> !s[j];
    forall k | 0 <= k < 16
      ensures CrcByteTable(fcs, c)[k] == CrcByte(fcs, c)[k]
    {
      EightShiftsBit(s, k);
      CrcByteBit(fcs, c, k);
      assert Mixed(s, k) == Mixed(r, k) && Mixed(s, k - 5) == Mixed(r, k - 5) && Mixed(s, k - 12) == Mixed(r, k - 12);
    }
  }

  /** A whole message through the table. */
  function CrcBytesTable(fcs: Register, data: seq<Byte>): Register {
    if data == [] then fcs else CrcByteTable(CrcBytesTable(fcs, data[..|data| - 1]), data[|data| - 1])
  }

  lemma NothingFed(fcs: Register)
    ensures CrcBytes(fcs, []) == fcs
  {
    assert MessageBits([]) == [];
  }

  lemma {:induction false} TableAgreesOnMessages(fcs: Register, data: seq<Byte>)
    ensures CrcBytesTable(fcs, data) == CrcBytes(fcs, data)
  {
    hide CrcByteTable, CrcBits, MessageBits;
    if data == [] {
      NothingFed(fcs);
    } else {
      var n := |data| - 1;
      TableAgreesOnMessages(fcs, data[..n]);
      TableAgrees(CrcBytes(fcs, data[..n]), data[n]);
      CrcBytesSnoc(fcs, data[..n], data[n]);
      assert data == data[..n] + [data[n]];
    }
  }
}
