/** Schema-driven packing and unpacking of binary packets, on Python's unbounded integers. */
module Packet {
  import opened Arithmetic
  import opened Sequences
  import opened Words
  import opened Wrappers

  datatype Kind = Int | Bint | Blob

  /** A schema entry; a size of None stands for "whatever is left". */
  datatype Field = Field(kind: Kind, size: Option<int>)

  datatype Value = Number(n: int) | Bytes(bytes: seq<int>)

  /** The Python exceptions that packing and unpacking can raise. */
  datatype Error = TypeError | ValueError | IndexError

  /** How far unpacking has got: whole bytes, and bits of the byte after them. */
  datatype Cursor = Cursor(offset: int, boffset: int)

  // ---------- Python's slices, indices and integer operators ----------

  /** Where a slice bound falls in a list of length `n`. */
  function Bound(n: nat, i: int): (b: nat)
    ensures b <= n
  {
    if i < 0 then (if i + n < 0 then 0 else i + n) else if i < n then i else n
  }

  /** `p[lo:hi]` */
  function Slice<T>(p: seq<T>, lo: int, hi: int): seq<T> {
    var a, b := Bound(|p|, lo), Bound(|p|, hi);
    if a < b then p[a..b] else []
  }

  /** `p[i]` */
  function At(p: seq<int>, i: int): Result<int, Error> {
    if 0 <= i < |p| then Success(p[i])
    else if -|p| <= i < 0 then Success(p[|p| + i])
    else Failure(IndexError)
  }

  /** `a | b` on integers of either sign, in two's complement without end. */
  function BitOr(a: int, b: int): int
    decreases (if a < 0 then -1 - a else a) + (if b < 0 then -1 - b else b)
  {
    if -1 <= a <= 0 && -1 <= b <= 0 then (if a == 0 && b == 0 then 0 else -1)
    else 2 * BitOr(a / 2, b / 2) + if a % 2 == 1 || b % 2 == 1 then 1 else 0
  }

  /** Numbers without a common digit are added by `|`. */
  lemma {:induction false} BitOrDisjoint(a: nat, b: nat, k: nat)
    requires a % Pow2(k) == 0 && b < Pow2(k)
    ensures BitOr(a, b) == a + b
    decreases a + b, k
  {
    if k == 0 {
      if a > 0 {
        BitOrDisjoint(a / 2, 0, 0);
      }
    } else if a > 0 || b > 0 {
      HalveMod(a, Pow2(k - 1));
      BitOrDisjoint(a / 2, b / 2, k - 1);
    }
  }

  // ---------- Numbers as big-endian bytes ----------

  function EncodeBE(val: int, dim: int): (r: seq<int>)
    ensures |r| == if dim < 0 then 0 else dim
    ensures forall i :: 0 <= i < |r| ==> 0 <= r[i] < 256
    decreases dim
  {
    if dim <= 0 then [] else EncodeBE(val / 256, dim - 1) + [val % 256]
  }

  function DecodeBE(v: seq<int>): int {
    if v == [] then 0 else 256 * DecodeBE(v[..|v| - 1]) + v[|v| - 1]
  }

  function Pow256(k: nat): (p: nat)
    ensures p > 0
  {
    if k == 0 then 1 else 256 * Pow256(k - 1)
  }

  /** Packing a number in `dim` bytes and unpacking it leaves its residue, for any integer at all. */
  lemma {:induction false} DecodeEncode(val: int, dim: nat)
    ensures DecodeBE(EncodeBE(val, dim)) == val % Pow256(dim)
    decreases dim
  {
    if dim == 0 {
      DivModUnique(val, 1, val, 0);
    } else {
      var e := EncodeBE(val, dim);
      assert e[..|e| - 1] == EncodeBE(val / 256, dim - 1) && e[|e| - 1] == val % 256;
      hide EncodeBE;
      DecodeEncode(val / 256, dim - 1);
      Horner(val, Pow256(dim - 1));
    }
  }

  lemma Horner(val: int, p: nat)
    requires p > 0
    ensures val % (256 * p) == 256 * ((val / 256) % p) + val % 256
  {
    var q := val / 256;
    var r := 256 * (q % p) + val % 256;
    assert val == 256 * q + val % 256 && q == p * (q / p) + q % p;
    assert val == (256 * p) * (q / p) + r by {
      DistributeTwice(256, p, q / p, q % p);
    }
    DivModUnique(val, 256 * p, q / p, r);
  }

  /** Unpacking bytes and packing the number again gives the bytes back. */
  lemma {:induction false} EncodeDecode(v: seq<int>)
    requires forall i :: 0 <= i < |v| ==> 0 <= v[i] < 256
    ensures EncodeBE(DecodeBE(v), |v|) == v
  {
    if v != [] {
      var n := |v| - 1;
      EncodeDecode(v[..n]);
      DivModUnique(DecodeBE(v), 256, DecodeBE(v[..n]), v[n]);
      assert v == v[..n] + [v[n]];
    }
  }

  lemma EncodeLoopStep(rest: int, dim: nat, output: seq<int>)
    requires dim > 0
    ensures EncodeBE(rest, dim) + Reversed(output) ==
            EncodeBE(rest / 256, dim - 1) + Reversed(output + [rest % 256])
  {
    ReversedSnoc(output, rest % 256);
  }

  /** The loop that splits a number into bytes, least significant first, and reverses them. */
  method Encode(val: int, dim: int) returns (output: seq<int>)
    ensures output == EncodeBE(val, dim)
  {
    hide EncodeBE, Reversed;
    output := [];
    assert Reversed(output) == [];
    var rest, i := val, 0;
    while i < dim
      invariant 0 <= i && (0 <= dim ==> i <= dim)
      invariant EncodeBE(val, dim) == EncodeBE(rest, dim - i) + Reversed(output)
    {
      EncodeLoopStep(rest, dim - i, output);
      output := output + [rest % 256];
      rest := rest / 256;
      i := i + 1;
    }
    output := Reversed(output);
  }

  /** The loop that reads bytes as a number, most significant first. */
  method Decode(v: seq<int>) returns (r: int)
    ensures r == DecodeBE(v)
  {
    r := 0;
    for i := 0 to |v|
      invariant r == DecodeBE(v[..i])
    {
      r := r * 256 + v[i];
      assert v[..i + 1][..i] == v[..i];
    }
    assert v[..|v|] == v;
  }

  // ---------- The schema ----------

  /** The last unsized entry, seen from the right, is given minus the size of all that follows it. */
  function NormaliseFrom(desc: seq<Field>, i: nat, sum: int): (schema: seq<Field>)
    requires i <= |desc|
    ensures |schema| == |desc|
  {
    if i == 0 then desc
    else
      match desc[i - 1].size
      case None => if sum > 0 then desc[i - 1 := desc[i - 1].(size := Some(-sum))] else desc
      case Some(s) => NormaliseFrom(desc, i - 1, sum + s)
  }

  function Normalise(desc: seq<Field>): (schema: seq<Field>)
    ensures |schema| == |desc|
  {
    NormaliseFrom(desc, |desc|, 0)
  }

  method NormaliseSchema(desc: seq<Field>) returns (schema: seq<Field>)
    ensures schema == Normalise(desc)
  {
    schema := desc;
    var sum := 0;
    var i := |desc| - 1;
    while i >= 0
      invariant -1 <= i < |desc|
      invariant schema == desc
      invariant Normalise(desc) == NormaliseFrom(desc, i + 1, sum)
    {
      if desc[i].size == None {
        if sum > 0 {
          schema := desc[i := desc[i].(size := Some(-sum))];
        }
        break;
      }
      sum := sum + desc[i].size.value;
      i := i - 1;
    }
  }

  // ---------- Packing ----------

  /** One turn of the packing loop: the bytes so far and how many bits of the last one are in use. */
  function PackStep(f: Field, v: Value, r: seq<int>, boffset: int): Result<(seq<int>, int), Error> {
    match f.kind
    case Int =>
      if f.size.None? then Failure(TypeError)
      else if f.size.value <= 0 then Success((r, 0))
      else if v.Bytes? then Failure(TypeError)
      else Success((r + EncodeBE(v.n, f.size.value), 0))
    case Bint =>
      if f.size.None? then Failure(TypeError)
      else
        var used := boffset + f.size.value;
        var doffset := 8 - used;
        if boffset != 0 && r == [] then Failure(IndexError)
        else if v.Bytes? then Failure(TypeError)
        else if doffset < 0 then Failure(ValueError)
        else
          var shifted := v.n * Pow2(doffset);
          Success((if boffset == 0 then r + [shifted] else r[|r| - 1 := BitOr(r[|r| - 1], shifted)],
                   if used == 8 then 0 else used))
    case Blob =>
      if v.Number? then Failure(TypeError) else Success((r + v.bytes, boffset))
  }

  /** The first `n` turns of the packing loop. */
  function Pack(schema: seq<Field>, values: seq<Value>, n: nat): Result<(seq<int>, int), Error>
    requires n <= |schema|
  {
    if n == 0 then Success(([], 0))
    else
      var st :- Pack(schema, values, n - 1);
      if n > |values| then Failure(IndexError)
      else PackStep(schema[n - 1], values[n - 1], st.0, st.1)
  }

  /** Values beyond the schema are appended as they are. */
  function PackExtras(values: seq<Value>, from: nat, n: nat, r: seq<int>): Result<seq<int>, Error>
    requires from <= n <= |values|
  {
    if n == from then Success(r)
    else
      var s :- PackExtras(values, from, n - 1, r);
      if values[n - 1].Number? then Failure(TypeError) else Success(s + values[n - 1].bytes)
  }

  /** The whole payload. */
  function PayloadOf(schema: seq<Field>, values: seq<Value>): Result<seq<int>, Error> {
    var st :- Pack(schema, values, |schema|);
    if |values| < |schema| then Success(st.0) else PackExtras(values, |schema|, |values|, st.0)
  }

  method Payload(schema: seq<Field>, values: seq<Value>) returns (result: Result<seq<int>, Error>)
    ensures result == PayloadOf(schema, values)
  {
    var r, boffset := [], 0;
    for i := 0 to |schema|
      invariant Pack(schema, values, i) == Success((r, boffset))
    {
      if i >= |values| {
        PackFails(schema, values, i + 1, |schema|);
        return Failure(IndexError);
      }
      var step := PackStep(schema[i], values[i], r, boffset);
      if step.Failure? {
        PackFails(schema, values, i + 1, |schema|);
        return Failure(step.error);
      }
      r, boffset := step.value.0, step.value.1;
    }
    if |values| < |schema| {
      return Success(r);
    }
    ghost var packed := r;
    for i := |schema| to |values|
      invariant PackExtras(values, |schema|, i, packed) == Success(r)
    {
      if values[i].Number? {
        ExtrasFail(values, |schema|, i + 1, |values|, packed);
        return Failure(TypeError);
      }
      r := r + values[i].bytes;
    }
    return Success(r);
  }

  lemma {:induction false} PackFails(schema: seq<Field>, values: seq<Value>, m: nat, n: nat)
    requires m <= n <= |schema| && Pack(schema, values, m).Failure?
    ensures Pack(schema, values, n) == Pack(schema, values, m)
  {
    if m < n {
      PackFails(schema, values, m, n - 1);
    }
  }

  lemma {:induction false} ExtrasFail(values: seq<Value>, from: nat, m: nat, n: nat, r: seq<int>)
    requires from <= m <= n <= |values| && PackExtras(values, from, m, r).Failure?
    ensures PackExtras(values, from, n, r) == PackExtras(values, from, m, r)
  {
    if m < n {
      ExtrasFail(values, from, m, n - 1, r);
    }
  }

  // ---------- Unpacking ----------

  /** One turn of the unpacking loop. */
  function UnpackStep(f: Field, packet: seq<int>, c: Cursor): Result<(Value, Cursor), Error> {
    match f.kind
    case Int =>
      if f.size.None? then Failure(TypeError)
      else
        var s := f.size.value;
        Success((Number(DecodeBE(Slice(packet, c.offset, c.offset + s))), c.(offset := c.offset + s)))
    case Bint =>
      if f.size.None? then Failure(TypeError)
      else
        var s := f.size.value;
        var doffset := 8 - (c.boffset + s);
        var b :- At(packet, c.offset);
        if doffset < 0 || s < 0 then Failure(ValueError)
        else
          Success((Number(b / Pow2(doffset) % Pow2(s)),
                   if c.boffset + s == 8 then Cursor(c.offset + 1, 0) else c.(boffset := c.boffset + s)))
    case Blob =>
      match f.size
      case None => Success((Bytes(Slice(packet, c.offset, |packet|)), c))
      case Some(s) =>
        if s == 0 then Success((Bytes(Slice(packet, c.offset, |packet|)), c))
        else if s > 0 then Success((Bytes(Slice(packet, c.offset, c.offset + s)), c.(offset := c.offset + s)))
        else Success((Bytes(Slice(packet, c.offset, s)), c.(offset := |packet| + s)))
  }

  /** The first `n` turns of the unpacking loop. */
  function Unpack(schema: seq<Field>, packet: seq<int>, n: nat): Result<(seq<Value>, Cursor), Error>
    requires n <= |schema|
  {
    if n == 0 then Success(([], Cursor(0, 0)))
    else
      var st :- Unpack(schema, packet, n - 1);
      var step :- UnpackStep(schema[n - 1], packet, st.1);
      Success((st.0 + [step.0], step.1))
  }

  /** The values of a packet under a description. */
  function ValuesOf(desc: seq<Field>, packet: seq<int>): Result<seq<Value>, Error> {
    var st :- Unpack(Normalise(desc), packet, |desc|);
    Success(st.0)
  }

  method Parse(desc: seq<Field>, packet: seq<int>) returns (result: Result<seq<Value>, Error>)
    ensures result == ValuesOf(desc, packet)
  {
    hide UnpackStep, Normalise;
    var schema := NormaliseSchema(desc);
    var values, c := [], Cursor(0, 0);
    for i := 0 to |schema|
      invariant Unpack(schema, packet, i) == Success((values, c))
    {
      var step := UnpackStep(schema[i], packet, c);
      if step.Failure? {
        UnpackFails(schema, packet, i + 1, |schema|);
        return Failure(step.error);
      }
      values, c := values + [step.value.0], step.value.1;
    }
    return Success(values);
  }

  lemma {:induction false} UnpackFails(schema: seq<Field>, packet: seq<int>, m: nat, n: nat)
    requires m <= n <= |schema| && Unpack(schema, packet, m).Failure?
    ensures Unpack(schema, packet, n) == Unpack(schema, packet, m)
  {
    hide Unpack;
    if m < n {
      UnpackFails(schema, packet, m, n - 1);
      UnpackFailsNext(schema, packet, n - 1);
    }
  }

  lemma UnpackFailsNext(schema: seq<Field>, packet: seq<int>, n: nat)
    requires n < |schema|
    ensures Unpack(schema, packet, n).Failure? ==> Unpack(schema, packet, n + 1) == Unpack(schema, packet, n)
  {
    hide UnpackStep;
  }
}
