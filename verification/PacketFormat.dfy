/**
 The binary format of packets: which bytes and bits a field is packed to, what is read from any bytes, too few
 included, and which exception is raised when.
 */
module PacketFormat {
  import opened Arithmetic
  import opened Words
  import opened Wrappers
  import opened Packet
  import opened PacketRoundTrip

  // ---------- Numbers ----------

  /** Each byte, the first one being the most significant, is a digit of the number to the base 256. */
  lemma {:induction false} EncodeDigit(val: int, dim: nat, i: nat)
    requires i < dim
    ensures EncodeBE(val, dim)[i] == val / Pow256(dim - 1 - i) % 256
    decreases dim
  {
    if i < dim - 1 {
      EncodeDigit(val / 256, dim - 1, i);
      DivDiv(val, 256, Pow256(dim - 2 - i));
    }
  }

  /** `n` has the digits `v` to the base 256 and no others. */
  ghost predicate HasDigits(n: int, v: seq<int>) {
    0 <= n < Pow256(|v|) && forall i :: 0 <= i < |v| ==> n / Pow256(|v| - 1 - i) % 256 == v[i]
  }

  lemma DecodeDigits(v: seq<Byte>)
    ensures HasDigits(DecodeBE(v), v)
  {
    hide DecodeBE, EncodeBE, Pow256;
    var n := DecodeBE(v);
    EncodeDecode(v);
    DecodeEncode(n, |v|);
    forall i | 0 <= i < |v|
      ensures n / Pow256(|v| - 1 - i) % 256 == v[i]
    {
      EncodeDigit(n, |v|, i);
    }
  }

  /** Each binary digit of `a | b` is set where one of theirs is, for numbers of either sign. */
  lemma {:induction false} BitOrDigit(a: int, b: int, j: nat)
    ensures BitOr(a, b) / Pow2(j) % 2 == 1 <==> a / Pow2(j) % 2 == 1 || b / Pow2(j) % 2 == 1
    decreases j
  {
    BitOrHead(a, b);
    if j > 0 {
      BitOrDigit(a / 2, b / 2, j - 1);
      hide BitOr;
      DivDiv(a, 2, Pow2(j - 1));
      DivDiv(b, 2, Pow2(j - 1));
      DivDiv(BitOr(a, b), 2, Pow2(j - 1));
    }
  }

  lemma BitOrHead(a: int, b: int)
    ensures BitOr(a, b) / 2 == BitOr(a / 2, b / 2)
    ensures BitOr(a, b) % 2 == 1 <==> a % 2 == 1 || b % 2 == 1
  {
    if -1 <= a <= 0 && -1 <= b <= 0 {
      assert a / 2 == a && b / 2 == b;
    }
  }

  // ---------- Python's slices and indices ----------

  /**
   A slice has the elements from `lo` up to and without `hi`, in order, as far as there are any; both are counted
   from the end if they are negative.
   */
  lemma SliceElements<T>(p: seq<T>, lo: int, hi: int)
    ensures var first := if lo < 0 then lo + |p| else lo;
            var last := if hi < 0 then hi + |p| else hi;
            var from := if first < 0 then 0 else first;
            var to := if last > |p| then |p| else last;
            && |Slice(p, lo, hi)| == (if from < to then to - from else 0)
            && forall k :: 0 <= k < |Slice(p, lo, hi)| ==> Slice(p, lo, hi)[k] == p[from + k]
  {
  }

  /** An index is one into the list, or that far from its end. */
  lemma AtElement(p: seq<int>, i: int)
    ensures At(p, i) == if -|p| <= i < |p| then Success(p[(i + |p|) % |p|]) else Failure(IndexError)
  {
    if 0 <= i < |p| {
      assert (i + |p|) % |p| == i;
    }
  }

  function Least(a: int, b: int): (c: int)
    ensures c <= a && c <= b && (c == a || c == b)
  {
    if a < b then a else b
  }

  // ---------- What unpacking reads ----------

  /** An integer is read from as many of its bytes as there are, the first one being the most significant. */
  lemma IntRead(s: int, packet: seq<Byte>, c: Cursor)
    requires s > 0 && c.offset >= 0
    ensures var step := UnpackStep(Field(Int, Some(s)), packet, c);
            var from, to := Least(c.offset, |packet|), Least(c.offset + s, |packet|);
            && step.Success? && step.value.0.Number? && HasDigits(step.value.0.n, packet[from..to])
            && step.value.1 == Cursor(c.offset + s, c.boffset)
  {
    hide DecodeBE, HasDigits;
    var from, to := Least(c.offset, |packet|), Least(c.offset + s, |packet|);
    assert Slice(packet, c.offset, c.offset + s) == packet[from..to];
    DecodeDigits(packet[from..to]);
  }

  /** A blob takes as many of its bytes as there are; an unsized one takes all, except for what follows it. */
  lemma BlobRead(size: Option<int>, packet: seq<int>, c: Cursor)
    requires c.offset >= 0
    ensures var step := UnpackStep(Field(Blob, size), packet, c);
            var from := Least(c.offset, |packet|);
            var end := if size == None || size == Some(0) then |packet|
                       else if size.value > 0 then Least(c.offset + size.value, |packet|) else |packet| + size.value;
            && step.Success? && step.value.0 == Bytes(if from < end then packet[from..end] else [])
            && step.value.1 == Cursor(if size == None || size == Some(0) then c.offset
                                      else if size.value > 0 then c.offset + size.value else end, c.boffset)
  {
  }

  /** A bit field takes the next bits of the current byte. */
  lemma BitsRead(s: nat, packet: seq<Byte>, c: Cursor)
    requires 0 <= c.offset < |packet| && 0 <= c.boffset && c.boffset + s <= 8
    ensures var step := UnpackStep(Field(Bint, Some(s)), packet, c);
            && step.Success? && step.value.0.Number? && 0 <= step.value.0.n < Pow2(s)
            && step.value.1 == if c.boffset + s == 8 then Cursor(c.offset + 1, 0) else Cursor(c.offset, c.boffset + s)
  {
    hide Pow2;
    var m := packet[c.offset] / Pow2(8 - (c.boffset + s));
    assert 0 <= m % Pow2(s) < Pow2(s);
  }

  /** Its first bit is the most significant one: the `j`th is the `j`th next bit of the byte. */
  lemma BitRead(s: nat, packet: seq<Byte>, c: Cursor, j: nat)
    requires 0 <= c.offset < |packet| && 0 <= c.boffset && c.boffset + s <= 8 && j < s
    ensures var step := UnpackStep(Field(Bint, Some(s)), packet, c);
            && step.Success? && step.value.0.Number?
            && step.value.0.n / Pow2(s - 1 - j) % 2 == packet[c.offset] / Pow2(7 - c.boffset - j) % 2
  {
    hide Pow2;
    BitsRead(s, packet, c);
    FieldBit(packet[c.offset], 8 - (c.boffset + s), s, s - 1 - j);
    assert 8 - (c.boffset + s) + (s - 1 - j) == 7 - c.boffset - j;
  }

  lemma FieldBit(b: nat, d: nat, s: nat, t: nat)
    requires t < s
    ensures b / Pow2(d) % Pow2(s) / Pow2(t) % 2 == b / Pow2(d + t) % 2
  {
    hide Pow2;
    var m := b / Pow2(d);
    QuotientNonNegative(b, Pow2(d));
    LowDigit(m, s, t);
    DivDiv(b, Pow2(d), Pow2(t));
    Pow2Add(d, t);
  }

  lemma QuotientNonNegative(b: nat, d: nat)
    requires d > 0
    ensures b / d >= 0
  {
  }

  lemma RemainderIsItself(m: nat, d: nat)
    requires d > 0
    ensures m % d % d == m % d
  {
  }

  lemma LowDigit(m: nat, s: nat, t: nat)
    requires t < s
    ensures m % Pow2(s) / Pow2(t) % 2 == m / Pow2(t) % 2
  {
    hide Pow2, FromNat;
    RemainderIsItself(m, Pow2(s));
    FromNatDigit(m, s, t);
    FromNatDigit(m % Pow2(s), s, t);
    FromNatMod(m % Pow2(s), m, s);
  }

  /** The exceptions of unpacking: an unsized number, a bit field behind the end, and one across a byte's boundary. */
  lemma ReadRaises(f: Field, packet: seq<int>, c: Cursor)
    ensures var step := UnpackStep(f, packet, c);
            && (step == Failure(TypeError) <==> !f.kind.Blob? && f.size == None)
            && (step == Failure(IndexError) <==>
                f.kind.Bint? && f.size != None && !(-|packet| <= c.offset < |packet|))
            && (step == Failure(ValueError) <==>
                f.kind.Bint? && f.size != None && -|packet| <= c.offset < |packet| &&
                (f.size.value < 0 || c.boffset + f.size.value > 8))
  {
  }

  // ---------- What a schema becomes ----------

  /** Only the last unsized entry changes: it is given minus the sum of all sizes behind it, if that is positive. */
  lemma NormalisedAt(desc: seq<Field>, k: nat)
    requires k < |desc| && desc[k].size.None? && forall j :: k < j < |desc| ==> desc[j].size.Some?
    ensures Normalise(desc) ==
            if SizeFrom(desc, k + 1) > 0 then desc[k := desc[k].(size := Some(-SizeFrom(desc, k + 1)))] else desc
  {
    NormalisedFrom(desc, k, |desc|);
    assert SizeFrom(desc, |desc|) == 0;
  }

  lemma {:induction false} NormalisedFrom(desc: seq<Field>, k: nat, i: nat)
    requires k < i <= |desc| && desc[k].size.None? && forall j :: k < j < |desc| ==> desc[j].size.Some?
    ensures NormaliseFrom(desc, i, SizeFrom(desc, i)) ==
            if SizeFrom(desc, k + 1) > 0 then desc[k := desc[k].(size := Some(-SizeFrom(desc, k + 1)))] else desc
  {
    if i > k + 1 {
      NormalisedFrom(desc, k, i - 1);
    }
  }

  lemma NormalisedSame(desc: seq<Field>)
    requires forall j :: 0 <= j < |desc| ==> desc[j].size.Some?
    ensures Normalise(desc) == desc
  {
    if desc != [] {
      NormaliseNothing(desc, |desc|, 0, 0);
    }
  }

  // ---------- What packing raises ----------

  /** How many bits of the last byte are in use before entry `j`. */
  function BitsUsed(schema: seq<Field>, j: nat): int
    requires j <= |schema|
  {
    if j == 0 then 0
    else
      match schema[j - 1]
      case Field(Int, _) => 0
      case Field(Bint, Some(s)) => if BitsUsed(schema, j - 1) + s == 8 then 0 else BitsUsed(schema, j - 1) + s
      case _ => BitsUsed(schema, j - 1)
  }

  /** Why packing cannot go on with entry `j`: no value, one of the wrong type, no size, or too many bits for a byte. */
  function Cause(schema: seq<Field>, values: seq<Value>, j: nat): Option<Error>
    requires j < |schema|
  {
    if j >= |values| then Some(IndexError)
    else
      match schema[j]
      case Field(Blob, _) => if values[j].Number? then Some(TypeError) else None
      case Field(_, None) => Some(TypeError)
      case Field(Int, Some(s)) => if s > 0 && values[j].Bytes? then Some(TypeError) else None
      case Field(Bint, Some(s)) =>
        if values[j].Bytes? then Some(TypeError)
        else if BitsUsed(schema, j) + s > 8 then Some(ValueError) else None
  }

  lemma StepRaises(schema: seq<Field>, values: seq<Value>, j: nat, r: seq<int>)
    requires j < |schema| && j < |values| && (BitsUsed(schema, j) != 0 ==> r != [])
    ensures var step := PackStep(schema[j], values[j], r, BitsUsed(schema, j));
            match Cause(schema, values, j)
            case Some(e) => step == Failure(e)
            case None => step.Success? && step.value.1 == BitsUsed(schema, j + 1) &&
                         (step.value.1 != 0 ==> step.value.0 != [])
  {
    hide Pow2, BitOr;
  }

  ghost predicate NoCause(schema: seq<Field>, values: seq<Value>, n: nat)
    requires n <= |schema|
  {
    forall j :: 0 <= j < n ==> Cause(schema, values, j) == None
  }

  lemma {:induction false} PacksOn(schema: seq<Field>, values: seq<Value>, n: nat)
    requires n <= |schema| && NoCause(schema, values, n)
    ensures Pack(schema, values, n).Success?
    ensures var (r, boffset) := Pack(schema, values, n).value;
            boffset == BitsUsed(schema, n) && (boffset != 0 ==> r != [])
  {
    hide PackStep, Cause, BitsUsed;
    NoBitsUsed(schema);
    if n > 0 {
      PacksOn(schema, values, n - 1);
      MissingValue(schema, values);
      assert Cause(schema, values, n - 1) == None;
      StepRaises(schema, values, n - 1, Pack(schema, values, n - 1).value.0);
    }
  }

  lemma NoBitsUsed(schema: seq<Field>)
    ensures BitsUsed(schema, 0) == 0
  {
  }

  lemma MissingValue(schema: seq<Field>, values: seq<Value>)
    ensures forall j :: |values| <= j < |schema| ==> Cause(schema, values, j) == Some(IndexError)
  {
  }

  /** Packing raises what the first such entry causes. */
  lemma FirstCauseRaised(schema: seq<Field>, values: seq<Value>, j: nat, n: nat)
    requires j < n <= |schema| && NoCause(schema, values, j) && Cause(schema, values, j).Some?
    ensures Pack(schema, values, n) == Failure(Cause(schema, values, j).value)
  {
    hide PackStep, BitsUsed;
    PacksOn(schema, values, j);
    if j < |values| {
      StepRaises(schema, values, j, Pack(schema, values, j).value.0);
    }
    PackFails(schema, values, j + 1, n);
  }

  lemma {:induction false} FirstCause(schema: seq<Field>, values: seq<Value>, n: nat) returns (j: nat)
    requires n <= |schema| && !NoCause(schema, values, n)
    ensures j < n && NoCause(schema, values, j) && Cause(schema, values, j).Some?
  {
    hide Cause;
    if NoCause(schema, values, n - 1) {
      j := n - 1;
    } else {
      j := FirstCause(schema, values, n - 1);
    }
  }

  /** Which payloads can be packed, for every schema. */
  lemma PayloadSucceeds(schema: seq<Field>, values: seq<Value>)
    ensures PayloadOf(schema, values).Success? <==>
            NoCause(schema, values, |schema|) && forall j :: |schema| <= j < |values| ==> values[j].Bytes?
  {
    hide Cause, NoCause, Pack;
    if NoCause(schema, values, |schema|) {
      PacksOn(schema, values, |schema|);
      if |values| >= |schema| {
        ExtrasRaise(values, |schema|, |values|, Pack(schema, values, |schema|).value.0);
      }
    } else {
      var j := FirstCause(schema, values, |schema|);
      FirstCauseRaised(schema, values, j, |schema|);
    }
  }

  /** Otherwise the payload raises what the first entry causes that cannot be packed, or else a type error. */
  lemma PayloadRaises(schema: seq<Field>, values: seq<Value>, j: nat)
    requires j <= |schema| && NoCause(schema, values, j) && PayloadOf(schema, values).Failure?
    requires j < |schema| ==> Cause(schema, values, j).Some?
    ensures PayloadOf(schema, values) ==
            Failure(if j < |schema| then Cause(schema, values, j).value else TypeError)
  {
    hide Cause, NoCause, Pack;
    if j < |schema| {
      FirstCauseRaised(schema, values, j, |schema|);
    } else {
      PacksOn(schema, values, |schema|);
      if |values| >= |schema| {
        ExtrasRaise(values, |schema|, |values|, Pack(schema, values, |schema|).value.0);
      }
    }
  }

  lemma {:induction false} ExtrasRaise(values: seq<Value>, from: nat, n: nat, r: seq<int>)
    requires from <= n <= |values|
    ensures PackExtras(values, from, n, r).Success? <==> forall j :: from <= j < n ==> values[j].Bytes?
    ensures PackExtras(values, from, n, r).Failure? ==> PackExtras(values, from, n, r) == Failure(TypeError)
  {
    if n > from {
      ExtrasRaise(values, from, n - 1, r);
    }
  }

  /** A value beyond the schema is appended to what the values before it are packed to. */
  lemma ExtraAppended(schema: seq<Field>, values: seq<Value>, bytes: seq<int>)
    requires |values| >= |schema| && PayloadOf(schema, values).Success?
    ensures PayloadOf(schema, values + [Bytes(bytes)]) == Success(PayloadOf(schema, values).value + bytes)
  {
    var more := values + [Bytes(bytes)];
    SameValues(schema, values, more, |schema|);
    var r := Pack(schema, values, |schema|).value.0;
    SameExtras(values, more, |schema|, |values|, r);
  }

  /** With as many values as entries the payload is what the entries are packed to. */
  lemma NothingExtra(schema: seq<Field>, values: seq<Value>)
    requires |values| == |schema| && Pack(schema, values, |schema|).Success?
    ensures PayloadOf(schema, values) == Success(Pack(schema, values, |schema|).value.0)
  {
  }

  lemma {:induction false} SameValues(schema: seq<Field>, values: seq<Value>, more: seq<Value>, n: nat)
    requires n <= |schema| && n <= |values| && values <= more
    ensures Pack(schema, more, n) == Pack(schema, values, n)
  {
    hide PackStep;
    if n > 0 {
      SameValues(schema, values, more, n - 1);
    }
  }

  lemma {:induction false} SameExtras(values: seq<Value>, more: seq<Value>, from: nat, n: nat, r: seq<int>)
    requires from <= n <= |values| && values <= more
    ensures PackExtras(more, from, n, r) == PackExtras(values, from, n, r)
  {
    if n > from {
      SameExtras(values, more, from, n - 1, r);
    }
  }

  // ---------- Where packing puts a field ----------

  /** How many bits a value takes. */
  function Width(f: Field, v: Value): int {
    match f
    case Field(Int, Some(s)) => 8 * s
    case Field(Bint, Some(s)) => s
    case _ => if v.Bytes? then 8 * |v.bytes| else 0
  }

  /** How many bits the values before entry `k` take. */
  function BitsBefore(desc: seq<Field>, values: seq<Value>, k: nat): int
    requires k <= |desc| && k <= |values|
  {
    if k == 0 then 0 else BitsBefore(desc, values, k - 1) + Width(desc[k - 1], values[k - 1])
  }

  lemma StageGrows(desc: seq<Field>, values: seq<Value>, k: nat)
    requires Packable(desc, values) && k < |desc|
    ensures var c := Offset(Stage(desc, values, k), BitPos(desc, k));
            var c' := Offset(Stage(desc, values, k + 1), BitPos(desc, k + 1));
            && 0 <= c'.boffset < 8
            && 8 * c'.offset + c'.boffset == 8 * c.offset + c.boffset + Width(desc[k], values[k])
  {
    hide Pow2, BitOr, Stage;
    StageStep(desc, values, k);
    PackSucceeds(desc, values, k + 1);
    hide BitPos;
    PackStepSucceeds(desc[k], values[k], Stage(desc, values, k), BitPos(desc, k));
  }

  /** Unpacking would look for entry `k` where the bits of the values before it end. */
  lemma {:induction false} StageBits(desc: seq<Field>, values: seq<Value>, k: nat)
    requires Packable(desc, values) && k <= |desc|
    ensures var c := Offset(Stage(desc, values, k), BitPos(desc, k));
            0 <= c.boffset < 8 && 8 * c.offset + c.boffset == BitsBefore(desc, values, k)
  {
    hide PackStep, Pow2, Stage, Width;
    if k == 0 {
      StageStart(desc, values);
    } else {
      StageBits(desc, values, k - 1);
      StageGrows(desc, values, k - 1);
    }
  }

  lemma StageStart(desc: seq<Field>, values: seq<Value>)
    requires Packable(desc, values)
    ensures Stage(desc, values, 0) == []
  {
  }

  /** The finished packet. */
  lemma PacketIsStage(desc: seq<Field>, values: seq<Value>)
    requires Packable(desc, values)
    ensures PayloadOf(Normalise(desc), values) == Success(Stage(desc, values, |desc|))
  {
    hide PackStep;
    forall k | 0 <= k < |desc|
      ensures Normalise(desc)[k] == desc[k] || Normalise(desc)[k].kind == desc[k].kind == Blob
    {
      NormaliseAt(desc, |desc|, k);
      assert EntryOk(desc, k);
    }
    PackIgnoresBlobSizes(desc, Normalise(desc), values, |desc|);
    PackSucceeds(desc, values, |desc|);
  }

  /** The packet of a well-formed schema has a bit for each bit of its values. */
  lemma PacketLength(desc: seq<Field>, values: seq<Value>)
    requires WellFormed(desc) && AllFit(desc, values)
    ensures PayloadOf(Normalise(desc), values).Success?
    ensures 8 * |PayloadOf(Normalise(desc), values).value| == BitsBefore(desc, values, |desc|)
  {
    hide Stage;
    PacketIsStage(desc, values);
    StageBits(desc, values, |desc|);
  }

  /** An integer is in its own bytes behind the values before it, the most significant byte first. */
  lemma IntPacked(desc: seq<Field>, values: seq<Value>, k: nat, i: nat)
    requires WellFormed(desc) && AllFit(desc, values) && k < |desc| && desc[k].kind.Int?
    requires desc[k].size.Some? && i < desc[k].size.value
    ensures var packet := PayloadOf(Normalise(desc), values);
            var at := BitsBefore(desc, values, k);
            && packet.Success? && at % 8 == 0 && 0 <= at / 8 && at / 8 + i < |packet.value|
            && packet.value[at / 8 + i] == values[k].n / Pow256(desc[k].size.value - 1 - i) % 256
  {
    hide PackStep, Stage, BitsBefore;
    BytesPacked(desc, values, k);
    EncodeDigit(values[k].n, desc[k].size.value, i);
  }

  /** A blob is in its own bytes. */
  lemma BlobPacked(desc: seq<Field>, values: seq<Value>, k: nat)
    requires WellFormed(desc) && AllFit(desc, values) && k < |desc| && desc[k].kind.Blob?
    ensures var packet := PayloadOf(Normalise(desc), values);
            var at := BitsBefore(desc, values, k);
            && packet.Success? && at % 8 == 0 && 0 <= at / 8 && at / 8 + |values[k].bytes| <= |packet.value|
            && packet.value[at / 8..at / 8 + |values[k].bytes|] == values[k].bytes
  {
    hide PackStep, Stage, BitsBefore;
    BytesPacked(desc, values, k);
  }

  lemma BytesPacked(desc: seq<Field>, values: seq<Value>, k: nat)
    requires Packable(desc, values) && k < |desc| && !desc[k].kind.Bint?
    ensures EntryOk(desc, k) && Fits(desc[k], values[k])
    ensures var packet := PayloadOf(Normalise(desc), values);
            var at := BitsBefore(desc, values, k);
            var bytes := if desc[k].kind.Int? then EncodeBE(values[k].n, desc[k].size.value) else values[k].bytes;
            && packet.Success? && at % 8 == 0 && 0 <= at / 8 && at / 8 + |bytes| <= |packet.value|
            && packet.value[at / 8..at / 8 + |bytes|] == bytes
  {
    hide PackStep, Stage, BitsBefore, EncodeBE, BitPos;
    PacketIsStage(desc, values);
    StageStep(desc, values, k);
    StagesAgree(desc, values, k + 1);
    StageBits(desc, values, k);
    AtByteBoundary(desc, k);
    StageLength(desc, values, k);
    ByteStepAgrees(desc[k], values[k], Stage(desc, values, k), Stage(desc, values, |desc|));
  }

  lemma AtByteBoundary(desc: seq<Field>, k: nat)
    requires k < |desc| && EntryOk(desc, k) && !desc[k].kind.Bint?
    ensures BitPos(desc, k) == 0 && BitPos(desc, k + 1) == 0
  {
  }

  lemma StageLength(desc: seq<Field>, values: seq<Value>, k: nat)
    requires Packable(desc, values) && k < |desc|
    ensures |Stage(desc, values, k + 1)| <= |Stage(desc, values, |desc|)|
  {
    StagesAgree(desc, values, k + 1);
  }

  lemma BitsFound(f: Field, packet: seq<int>, c: Cursor, v: Value)
    requires f.kind.Bint? && f.size.Some? && f.size.value > 0 && c.offset >= 0
    requires UnpackStep(f, packet, c).Success? && UnpackStep(f, packet, c).value.0 == v
    ensures var s := f.size.value;
            && c.offset < |packet| && c.boffset + s <= 8 && v.Number?
            && packet[c.offset] / Pow2(8 - c.boffset - s) % Pow2(s) == v.n
  {
    hide Pow2;
    assert 8 - (c.boffset + f.size.value) == 8 - c.boffset - f.size.value;
  }

  /** A bit field is in the next bits of a byte, from the top. */
  lemma BitsPacked(desc: seq<Field>, values: seq<Value>, k: nat)
    requires WellFormed(desc) && AllFit(desc, values) && k < |desc| && desc[k].kind.Bint?
    ensures desc[k].size.Some? && desc[k].size.value > 0
    ensures var packet := PayloadOf(Normalise(desc), values);
            var at, s := BitsBefore(desc, values, k), desc[k].size.value;
            && packet.Success? && 0 <= at / 8 < |packet.value| && at % 8 + s <= 8
            && packet.value[at / 8] / Pow2(8 - at % 8 - s) % Pow2(s) == values[k].n
  {
    hide PackStep, UnpackStep, Stage, BitsBefore, BitPos, Pow2;
    PacketIsStage(desc, values);
    StageStep(desc, values, k);
    StagesAgree(desc, values, k + 1);
    StageBits(desc, values, k);
    BitStepAgrees(desc[k], values[k], Stage(desc, values, k), BitPos(desc, k), Stage(desc, values, |desc|));
    var c := Offset(Stage(desc, values, k), BitPos(desc, k));
    DivModUnique(BitsBefore(desc, values, k), 8, c.offset, c.boffset);
    BitsFound(desc[k], Stage(desc, values, |desc|), c, values[k]);
  }
}
