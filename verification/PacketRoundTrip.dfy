/** Packing and then unpacking a packet gives its values back, for every well-formed schema. */
module PacketRoundTrip {
  import opened Arithmetic
  import opened Words
  import opened Wrappers
  import opened Packet

  /** How many bits of the current byte the first `k` entries have used. */
  function BitPos(desc: seq<Field>, k: nat): int
    requires k <= |desc|
  {
    if k == 0 then 0
    else
      match desc[k - 1]
      case Field(Bint, Some(s)) => var used := BitPos(desc, k - 1) + s; if used == 8 then 0 else used
      case _ => 0
  }

  /** Entry `k` is positively sized and starts where it may. */
  predicate EntryOk(desc: seq<Field>, k: nat)
    requires k < |desc|
  {
    match desc[k]
    case Field(Int, Some(s)) => s > 0 && BitPos(desc, k) == 0
    case Field(Bint, Some(s)) => s > 0 && BitPos(desc, k) + s <= 8
    case Field(Blob, Some(s)) => s > 0 && BitPos(desc, k) == 0
    case Field(Blob, None) => BitPos(desc, k) == 0
    case _ => false
  }

  /**
   Whole bytes of bit fields, positively sized integers and blobs, and at most one unsized blob, which only
   integers and sized blobs follow.
   */
  ghost predicate WellFormed(desc: seq<Field>) {
    && (forall k :: 0 <= k < |desc| ==> EntryOk(desc, k))
    && BitPos(desc, |desc|) == 0
    && forall j, k :: 0 <= j < k < |desc| && desc[j].size.None? ==> desc[k].size.Some? && !desc[k].kind.Bint?
  }

  /** A value its schema entry can carry: any integer at all, a bit field in range, a blob of the right length. */
  predicate Fits(f: Field, v: Value) {
    match f
    case Field(Int, Some(s)) => v.Number?
    case Field(Bint, Some(s)) => v.Number? && s >= 0 && 0 <= v.n < Pow2(s)
    case Field(Blob, Some(s)) => v.Bytes? && |v.bytes| == s
    case Field(Blob, None) => v.Bytes?
    case _ => false
  }

  ghost predicate AllFit(desc: seq<Field>, values: seq<Value>) {
    |values| == |desc| && forall k :: 0 <= k < |desc| ==> Fits(desc[k], values[k])
  }

  /** What comes back: an integer field keeps only the bytes it was given. */
  function Kept(f: Field, v: Value): Value {
    if f.kind.Int? && f.size.Some? && f.size.value >= 0 && v.Number?
    then Number(v.n % Pow256(f.size.value))
    else v
  }

  function AllKept(desc: seq<Field>, values: seq<Value>, n: nat): (kept: seq<Value>)
    requires n <= |desc| && n <= |values|
    ensures |kept| == n
  {
    if n == 0 then [] else AllKept(desc, values, n - 1) + [Kept(desc[n - 1], values[n - 1])]
  }

  // ---------- Packing succeeds ----------

  lemma EntryAt(desc: seq<Field>, values: seq<Value>, k: nat)
    requires WellFormed(desc) && AllFit(desc, values) && k < |desc|
    ensures EntryOk(desc, k) && |values| == |desc| && Fits(desc[k], values[k])
  {
  }

  /** The bytes after packing the first `k` values of a well-formed packet. */
  lemma {:induction false} PackSucceeds(desc: seq<Field>, values: seq<Value>, k: nat)
    requires WellFormed(desc) && AllFit(desc, values) && k <= |desc|
    ensures 0 <= BitPos(desc, k) < 8
    ensures Pack(desc, values, k).Success? && Pack(desc, values, k).value.1 == BitPos(desc, k)
    ensures var r := Pack(desc, values, k).value.0;
            BitPos(desc, k) > 0 ==> r != [] && 0 <= r[|r| - 1] && r[|r| - 1] % Pow2(8 - BitPos(desc, k)) == 0
  {
    hide WellFormed, AllFit, PackStep, Pow2;
    if k > 0 {
      PackSucceeds(desc, values, k - 1);
      EntryAt(desc, values, k - 1);
      var r := Pack(desc, values, k - 1).value.0;
      PackStepSucceeds(desc[k - 1], values[k - 1], r, BitPos(desc, k - 1));
    }
  }

  lemma PackStepSucceeds(f: Field, v: Value, r: seq<int>, bo: int)
    requires 0 <= bo < 8 && Fits(f, v)
    requires bo > 0 ==> r != [] && 0 <= r[|r| - 1] && r[|r| - 1] % Pow2(8 - bo) == 0
    requires if f.kind.Bint? then f.size.value > 0 && bo + f.size.value <= 8 else bo == 0
    ensures PackStep(f, v, r, bo).Success?
    ensures var (r', bo') := PackStep(f, v, r, bo).value;
            && bo' == (if f.kind.Bint? && bo + f.size.value != 8 then bo + f.size.value else 0)
            && (bo' > 0 ==> r' != [] && 0 <= r'[|r'| - 1] && r'[|r'| - 1] % Pow2(8 - bo') == 0)
            && (f.kind.Bint? ==> var d := 8 - (bo + f.size.value);
                 r' == if bo == 0 then r + [v.n * Pow2(d)] else r[|r| - 1 := r[|r| - 1] + v.n * Pow2(d)])
  {
    hide Pow2, BitOr, EncodeBE;
    if f.kind.Bint? {
      var s := f.size.value;
      var d := 8 - (bo + s);
      FieldBelow(v.n, s, d);
      MultipleMod(v.n, Pow2(d));
      if bo > 0 {
        var last := r[|r| - 1];
        Pow2Add(s, d);
        assert 8 - bo == s + d;
        BitOrDisjoint(last, v.n * Pow2(d), 8 - bo);
        CoarserMultiple(last, Pow2(s), Pow2(d));
        SumOfMultiples(last, v.n * Pow2(d), Pow2(d));
      }
    }
  }

  lemma {:induction false} Pow2Add(a: nat, b: nat)
    ensures Pow2(a + b) == Pow2(a) * Pow2(b)
  {
    if a > 0 {
      Pow2Add(a - 1, b);
      ProductAssociates(2, Pow2(a - 1), Pow2(b));
    }
  }

  /** A field value in range, moved up by `d` places, stays below the bits in use. */
  lemma FieldBelow(v: nat, s: nat, d: nat)
    requires v < Pow2(s)
    ensures 0 <= v * Pow2(d) && v * Pow2(d) + Pow2(d) <= Pow2(s + d)
  {
    Pow2Add(s, d);
    ProductAtMost(Pow2(d), v + 1, Pow2(s));
    DistributeTwice(Pow2(d), 1, v, 1);
  }

  // ---------- The finished packet agrees with every stage of packing ----------

  /** `whole` starts with `r`, of whose last byte only the top `bo` bits are settled when `bo` is positive. */
  ghost predicate Agrees(r: seq<int>, bo: int, whole: seq<int>) {
    && |r| <= |whole|
    && 0 <= bo < 8
    && if bo == 0 then r == whole[..|r|]
       else r != [] && r[..|r| - 1] == whole[..|r| - 1] &&
            whole[|r| - 1] / Pow2(8 - bo) == r[|r| - 1] / Pow2(8 - bo)
  }

  function Offset(r: seq<int>, bo: int): Cursor {
    Cursor(if bo > 0 then |r| - 1 else |r|, bo)
  }

  lemma BitStepAgrees(f: Field, v: Value, r: seq<int>, bo: int, whole: seq<int>)
    requires 0 <= bo < 8 && Fits(f, v) && f.kind.Bint? && f.size.value > 0 && bo + f.size.value <= 8
    requires bo > 0 ==> r != [] && 0 <= r[|r| - 1] && r[|r| - 1] % Pow2(8 - bo) == 0
    requires PackStep(f, v, r, bo).Success?
    requires Agrees(PackStep(f, v, r, bo).value.0, PackStep(f, v, r, bo).value.1, whole)
    ensures Agrees(r, bo, whole)
    ensures var (r', bo') := PackStep(f, v, r, bo).value;
            UnpackStep(f, whole, Offset(r, bo)) == Success((v, Offset(r', bo')))
  {
    hide Pow2, BitOr;
    PackStepSucceeds(f, v, r, bo);
    var s := f.size.value;
    var d := 8 - (bo + s);
    var (r', bo') := PackStep(f, v, r, bo).value;
    hide PackStep;
    var at := |r'| - 1;
    var b := whole[at];
    var high := if bo == 0 then 0 else r[at];
    assert 8 - bo == s + d;
    BitByte(b, high, v.n, s, d, r'[at]);
    assert whole[..at] == r'[..at];
    assert r'[..at] == if bo == 0 then r else r[..at];
  }

  lemma BitByte(b: int, high: int, v: nat, s: nat, d: nat, filled: int)
    requires v < Pow2(s) && filled == high + v * Pow2(d)
    requires high == 0 || high % Pow2(s + d) == 0
    requires if d == 0 then b == filled else b / Pow2(d) == filled / Pow2(d)
    ensures b / Pow2(d) % Pow2(s) == v
    ensures b / Pow2(s + d) == high / Pow2(s + d)
  {
    MultipleMod(v, Pow2(d));
    Pow2Add(s, d);
    if high == 0 {
      DivModUnique(0, Pow2(s + d), 0, 0);
    }
    CoarserMultiple(high, Pow2(s), Pow2(d));
    SumOfMultiples(high, v * Pow2(d), Pow2(d));
    FieldReadBack(b, high, v, Pow2(s), Pow2(d));
  }

  /** Reading a bit field and the bits above it from the byte that holds both. */
  lemma FieldReadBack(b: int, high: int, v: nat, p: nat, d: nat)
    requires p > 0 && d > 0 && v < p
    requires high / d % p == 0 && b / d == high / d + v
    ensures b / d % p == v
    ensures p * d > 0 && b / (p * d) == high / (p * d)
  {
    var q := high / d / p;
    assert high / d == p * q;
    DivModUnique(b / d, p, q, v);
    DivModUnique(high / d, p, q, 0);
    DivDiv(b, d, p);
    DivDiv(high, d, p);
    assert d * p == p * d;
  }

  lemma ByteStepAgrees(f: Field, v: Value, r: seq<int>, whole: seq<int>)
    requires Fits(f, v) && !f.kind.Bint? && PackStep(f, v, r, 0).Success?
    requires f.size.Some? ==> f.size.value > 0
    requires Agrees(PackStep(f, v, r, 0).value.0, PackStep(f, v, r, 0).value.1, whole)
    ensures Agrees(r, 0, whole)
    ensures var r' := PackStep(f, v, r, 0).value.0;
            && r <= r'
            && (f.size.Some? ==> |r'| == |r| + f.size.value)
            && (f.size.Some? ==> UnpackStep(f, whole, Cursor(|r|, 0)) == Success((Kept(f, v), Cursor(|r'|, 0))))
            && whole[|r|..|r'|] == if f.kind.Int? then EncodeBE(v.n, f.size.value) else v.bytes
  {
    var r' := PackStep(f, v, r, 0).value.0;
    var part := if f.kind.Int? then EncodeBE(v.n, f.size.value) else v.bytes;
    assert r' == r + part;
    assert whole[..|r|] == whole[..|r'|][..|r|] == r;
    assert whole[|r|..|r'|] == whole[..|r'|][|r|..] == part;
    if f.kind.Int? {
      DecodeEncode(v.n, f.size.value);
    }
  }

  // ---------- What follows an unsized blob ----------

  function SizeFrom(desc: seq<Field>, k: nat): int
    requires k <= |desc|
    decreases |desc| - k
  {
    if k == |desc| then 0
    else (match desc[k].size case Some(s) => s case None => 0) + SizeFrom(desc, k + 1)
  }

  /** Entries from `k` on are sized integers and blobs. */
  ghost predicate SizedFrom(desc: seq<Field>, k: nat) {
    forall j :: k <= j < |desc| ==> desc[j].size.Some? && !desc[j].kind.Bint?
  }

  lemma {:induction false} NormaliseAt(desc: seq<Field>, i: nat, k: nat)
    requires WellFormed(desc) && k < |desc| && i <= |desc| && SizedFrom(desc, i)
    requires k < i || desc[k].size.Some?
    ensures NormaliseFrom(desc, i, SizeFrom(desc, i))[k] ==
            if desc[k].size.None? && SizeFrom(desc, k + 1) > 0
            then desc[k].(size := Some(-SizeFrom(desc, k + 1)))
            else desc[k]
  {
    if i > 0 && desc[i - 1].size.Some? {
      if desc[i - 1].kind.Bint? {
        // No entry before a bit field is unsized, so nothing is left to change.
        NormaliseNothing(desc, i, SizeFrom(desc, i), k);
        assert desc[k].size.None? ==> k < i - 1;
      } else {
        NormaliseAt(desc, i - 1, k);
      }
    }
  }

  lemma {:induction false} NormaliseNothing(desc: seq<Field>, i: nat, sum: int, k: nat)
    requires k < |desc| && i <= |desc| && forall j :: 0 <= j < i ==> desc[j].size.Some?
    ensures NormaliseFrom(desc, i, sum) == desc
  {
    if i > 0 {
      NormaliseNothing(desc, i - 1, sum + desc[i - 1].size.value, k);
    }
  }

  lemma {:induction false} LengthFrom(desc: seq<Field>, values: seq<Value>, k: nat)
    requires WellFormed(desc) && AllFit(desc, values) && k <= |desc| && SizedFrom(desc, k)
    requires Pack(desc, values, k).Success? && Pack(desc, values, |desc|).Success?
    ensures |Pack(desc, values, |desc|).value.0| == |Pack(desc, values, k).value.0| + SizeFrom(desc, k)
    ensures k < |desc| ==> SizeFrom(desc, k) > 0
    decreases |desc| - k
  {
    if k < |desc| {
      hide PackStep, WellFormed, AllFit;
      PackedOne(desc, values, k);
      LengthFrom(desc, values, k + 1);
    }
  }

  lemma PackedOne(desc: seq<Field>, values: seq<Value>, k: nat)
    requires WellFormed(desc) && AllFit(desc, values) && k < |desc| && SizedFrom(desc, k)
    requires Pack(desc, values, k).Success?
    ensures Pack(desc, values, k + 1).Success? && desc[k].size.Some? && desc[k].size.value > 0
    ensures |Pack(desc, values, k + 1).value.0| == |Pack(desc, values, k).value.0| + desc[k].size.value
  {
    PackSucceeds(desc, values, k + 1);
    assert Fits(desc[k], values[k]) && EntryOk(desc, k);
  }

  /** Packing does not look at the size of a blob. */
  lemma {:induction false} PackIgnoresBlobSizes(desc: seq<Field>, schema: seq<Field>, values: seq<Value>, n: nat)
    requires |desc| == |schema| && n <= |desc|
    requires forall k :: 0 <= k < |desc| ==> schema[k] == desc[k] || (schema[k].kind == desc[k].kind == Blob)
    ensures Pack(schema, values, n) == Pack(desc, values, n)
  {
    if n > 0 {
      PackIgnoresBlobSizes(desc, schema, values, n - 1);
    }
  }

  // ---------- The round trip ----------

  ghost predicate Packable(desc: seq<Field>, values: seq<Value>) {
    WellFormed(desc) && AllFit(desc, values)
  }

  /** The bytes after packing the first `k` values. */
  function Stage(desc: seq<Field>, values: seq<Value>, k: nat): seq<int>
    requires Packable(desc, values) && k <= |desc|
  {
    PackSucceeds(desc, values, k);
    Pack(desc, values, k).value.0
  }

  lemma StageStep(desc: seq<Field>, values: seq<Value>, k: nat)
    requires Packable(desc, values) && k < |desc|
    ensures PackStep(desc[k], values[k], Stage(desc, values, k), BitPos(desc, k)) ==
            Success((Stage(desc, values, k + 1), BitPos(desc, k + 1)))
    ensures EntryOk(desc, k) && Fits(desc[k], values[k])
    ensures BitPos(desc, k) > 0 ==>
              var r := Stage(desc, values, k);
              r != [] && 0 <= r[|r| - 1] && r[|r| - 1] % Pow2(8 - BitPos(desc, k)) == 0
    ensures 0 <= BitPos(desc, k) < 8
  {
    PackSucceeds(desc, values, k);
    PackSucceeds(desc, values, k + 1);
  }

  lemma {:induction false} StagesAgree(desc: seq<Field>, values: seq<Value>, k: nat)
    requires Packable(desc, values) && k <= |desc|
    ensures Agrees(Stage(desc, values, k), BitPos(desc, k), Stage(desc, values, |desc|))
    decreases |desc| - k
  {
    if k < |desc| {
      hide PackStep;
      StagesAgree(desc, values, k + 1);
      StageStep(desc, values, k);
      var r, whole := Stage(desc, values, k), Stage(desc, values, |desc|);
      if desc[k].kind.Bint? {
        BitStepAgrees(desc[k], values[k], r, BitPos(desc, k), whole);
      } else {
        ByteStepAgrees(desc[k], values[k], r, whole);
      }
    }
  }

  /** What one turn of the unpacking loop reads from the finished packet. */
  lemma UnpackOne(desc: seq<Field>, values: seq<Value>, k: nat)
    requires Packable(desc, values) && k < |desc|
    ensures var whole := Stage(desc, values, |desc|);
            var step := UnpackStep(Normalise(desc)[k], whole, Offset(Stage(desc, values, k), BitPos(desc, k)));
            && step.Success? && step.value.0 == Kept(desc[k], values[k])
            && (k + 1 < |desc| || desc[k].size.Some? ==>
                  step.value.1 == Offset(Stage(desc, values, k + 1), BitPos(desc, k + 1)))
  {
    hide PackStep;
    StageStep(desc, values, k);
    StagesAgree(desc, values, k + 1);
    NormaliseAt(desc, |desc|, k);
    var r, whole := Stage(desc, values, k), Stage(desc, values, |desc|);
    if desc[k].kind.Bint? {
      BitStepAgrees(desc[k], values[k], r, BitPos(desc, k), whole);
    } else {
      ByteStepAgrees(desc[k], values[k], r, whole);
      if desc[k].size.None? {
        UnpackUnsized(desc, values, k);
      }
    }
  }

  lemma UnpackUnsized(desc: seq<Field>, values: seq<Value>, k: nat)
    requires Packable(desc, values) && k < |desc| && desc[k].size.None?
    requires Normalise(desc)[k] ==
             if SizeFrom(desc, k + 1) > 0 then desc[k].(size := Some(-SizeFrom(desc, k + 1))) else desc[k]
    requires Agrees(Stage(desc, values, k), 0, Stage(desc, values, |desc|))
    requires Stage(desc, values, k) <= Stage(desc, values, k + 1)
    requires |Stage(desc, values, k + 1)| <= |Stage(desc, values, |desc|)|
    requires Stage(desc, values, |desc|)[|Stage(desc, values, k)|..|Stage(desc, values, k + 1)|] == values[k].bytes
    ensures var whole := Stage(desc, values, |desc|);
            var step := UnpackStep(Normalise(desc)[k], whole, Cursor(|Stage(desc, values, k)|, 0));
            && step.Success? && step.value.0 == values[k]
            && (k + 1 < |desc| ==> step.value.1 == Cursor(|Stage(desc, values, k + 1)|, 0))
  {
    hide Packable, Stage, SizeFrom, Normalise, Agrees, DecodeBE;
    UnsizedLengths(desc, values, k);
  }

  lemma UnsizedLengths(desc: seq<Field>, values: seq<Value>, k: nat)
    requires Packable(desc, values) && k < |desc| && desc[k].size.None?
    ensures |Stage(desc, values, |desc|)| == |Stage(desc, values, k + 1)| + SizeFrom(desc, k + 1)
    ensures SizeFrom(desc, k + 1) >= 0 && (k + 1 < |desc| ==> SizeFrom(desc, k + 1) > 0)
    ensures desc[k].kind.Blob? && values[k].Bytes?
  {
    hide Pow2;
    PackSucceeds(desc, values, k + 1);
    PackSucceeds(desc, values, |desc|);
    LengthFrom(desc, values, k + 1);
    assert Fits(desc[k], values[k]) && EntryOk(desc, k);
  }

  lemma {:induction false} UnpackStages(desc: seq<Field>, values: seq<Value>, k: nat)
    requires Packable(desc, values) && k <= |desc|
    ensures var st := Unpack(Normalise(desc), Stage(desc, values, |desc|), k);
            && st.Success? && st.value.0 == AllKept(desc, values, k)
            && (k < |desc| ==> st.value.1 == Offset(Stage(desc, values, k), BitPos(desc, k)))
  {
    hide UnpackStep, Normalise;
    if k > 0 {
      UnpackStages(desc, values, k - 1);
      UnpackOne(desc, values, k - 1);
    }
  }

  /** Packing the values of a well-formed packet succeeds, and unpacking the bytes gives the values back. */
  lemma RoundTrip(desc: seq<Field>, values: seq<Value>)
    requires WellFormed(desc) && AllFit(desc, values)
    ensures PayloadOf(Normalise(desc), values).Success?
    ensures ValuesOf(desc, PayloadOf(Normalise(desc), values).value) == Success(AllKept(desc, values, |desc|))
  {
    hide PackStep, UnpackStep;
    forall k | 0 <= k < |desc|
      ensures Normalise(desc)[k] == desc[k] || Normalise(desc)[k].kind == desc[k].kind == Blob
    {
      NormaliseAt(desc, |desc|, k);
      assert EntryOk(desc, k);
    }
    PackIgnoresBlobSizes(desc, Normalise(desc), values, |desc|);
    PackSucceeds(desc, values, |desc|);
    UnpackStages(desc, values, |desc|);
  }

  /** Integers that fit their fields come back unchanged. */
  lemma RoundTripExact(desc: seq<Field>, values: seq<Value>)
    requires WellFormed(desc) && AllFit(desc, values)
    requires forall k :: 0 <= k < |desc| && desc[k].kind.Int? && desc[k].size.value >= 0 ==>
               0 <= values[k].n < Pow256(desc[k].size.value)
    ensures PayloadOf(Normalise(desc), values).Success?
    ensures ValuesOf(desc, PayloadOf(Normalise(desc), values).value) == Success(values)
  {
    RoundTrip(desc, values);
    AllKeptExact(desc, values, |desc|);
    assert values[..|desc|] == values;
  }

  lemma {:induction false} AllKeptExact(desc: seq<Field>, values: seq<Value>, n: nat)
    requires WellFormed(desc) && AllFit(desc, values) && n <= |desc|
    requires forall k :: 0 <= k < |desc| && desc[k].kind.Int? && desc[k].size.value >= 0 ==>
               0 <= values[k].n < Pow256(desc[k].size.value)
    ensures AllKept(desc, values, n) == values[..n]
  {
    if n > 0 {
      AllKeptExact(desc, values, n - 1);
      assert EntryOk(desc, n - 1) && Fits(desc[n - 1], values[n - 1]);
      if desc[n - 1].kind.Int? {
        DivModUnique(values[n - 1].n, Pow256(desc[n - 1].size.value), 0, values[n - 1].n);
      }
    }
  }
}
