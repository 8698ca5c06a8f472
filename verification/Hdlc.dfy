/**
 The host's HDLC-like framing: octet stuffing, a CRC trailer, and a reader that finds frame boundaries
 in a byte stream it may have joined half-way.
 */
module Hdlc {
  import opened Words
  import opened Wrappers
  import opened Packet
  import opened Crc

  const FLAG: Byte := 0x7e
  const CTLESC: Byte := 0x7d
  const SERIAL_PROTO_PACKET_ACK: Byte := 68

  /** What a byte source delivers: a byte, or nothing until the read times out. */
  datatype Event = Arrival(b: Byte) | Silence

  datatype ReadResult = TimedOut | Received(data: seq<Byte>, crcOk: bool)

  // ---------- Octet stuffing ----------

  /** `b ^ 0x20` */
  function Toggled(b: Byte): Byte {
    if b / 32 % 2 == 1 then b - 32 else b + 32
  }

  function EscapeByte(b: Byte): seq<Byte> {
    if b == FLAG || b == CTLESC then [CTLESC, Toggled(b)] else [b]
  }

  function EscapeOf(packet: seq<Byte>): seq<Byte> {
    if packet == [] then [] else EscapeOf(packet[..|packet| - 1]) + EscapeByte(packet[|packet| - 1])
  }

  /** The bytes unescaped so far, and whether the next one is to be toggled. */
  function UnescapeState(packet: seq<Byte>): (seq<Byte>, bool) {
    if packet == [] then ([], false)
    else
      var (r, esc) := UnescapeState(packet[..|packet| - 1]);
      var b := packet[|packet| - 1];
      if esc then (r + [Toggled(b)], false)
      else if b == CTLESC then (r, true)
      else (r + [b], false)
  }

  function UnescapeOf(packet: seq<Byte>): seq<Byte> {
    UnescapeState(packet).0
  }

  lemma {:induction false} EscapedHasNoFlag(packet: seq<Byte>)
    ensures FLAG !in EscapeOf(packet)
    ensures packet != [] ==> EscapeOf(packet) != []
  {
    if packet != [] {
      EscapedHasNoFlag(packet[..|packet| - 1]);
    }
  }

  lemma UnescapeNext(packet: seq<Byte>, b: Byte)
    ensures UnescapeState(packet + [b]) ==
            var (r, esc) := UnescapeState(packet);
            if esc then (r + [Toggled(b)], false)
            else if b == CTLESC then (r, true)
            else (r + [b], false)
  {
    assert (packet + [b])[..|packet|] == packet;
  }

  lemma EscapeOfLast(packet: seq<Byte>)
    ensures packet == [] ==> EscapeOf(packet) == []
    ensures packet != [] ==>
              EscapeOf(packet) == EscapeOf(packet[..|packet| - 1]) + EscapeByte(packet[|packet| - 1])
  {
  }

  /** Bytes are escaped one by one. */
  lemma {:induction false} EscapeConcat(a: seq<Byte>, b: seq<Byte>)
    ensures EscapeOf(a + b) == EscapeOf(a) + EscapeOf(b)
  {
    hide EscapeOf, EscapeByte;
    EscapeOfLast(b);
    EscapeOfLast(a + b);
    if b == [] {
      assert a + b == a;
      assert EscapeOf(a) + [] == EscapeOf(a);
    } else {
      EscapeConcat(a, b[..|b| - 1]);
      assert (a + b)[..|a + b| - 1] == a + b[..|b| - 1];
      var x, y, z := EscapeOf(a), EscapeOf(b[..|b| - 1]), EscapeByte(b[|b| - 1]);
      assert x + (y + z) == x + y + z;
    }
  }

  /** Unescaping picks up where it left off and recovers exactly the escaped bytes. */
  lemma {:induction false} UnescapeEscape(before: seq<Byte>, packet: seq<Byte>)
    requires !UnescapeState(before).1
    ensures UnescapeState(before + EscapeOf(packet)) == (UnescapeOf(before) + packet, false)
  {
    hide EscapeOf, UnescapeState, EscapeByte;
    EscapeOfLast(packet);
    if packet == [] {
      assert before + EscapeOf(packet) == before;
      assert UnescapeOf(before) + packet == UnescapeOf(before);
    } else {
      var n := |packet| - 1;
      var head, b := packet[..n], packet[n];
      UnescapeEscape(before, head);
      assert before + EscapeOf(packet) == before + EscapeOf(head) + EscapeByte(b);
      UnescapeEscapedByte(before + EscapeOf(head), b);
      assert UnescapeOf(before) + packet == UnescapeOf(before) + head + [b];
    }
  }

  lemma UnescapeEscapedByte(sofar: seq<Byte>, b: Byte)
    requires !UnescapeState(sofar).1
    ensures UnescapeState(sofar + EscapeByte(b)) == (UnescapeOf(sofar) + [b], false)
  {
    hide UnescapeState;
    if b == FLAG || b == CTLESC {
      UnescapeNext(sofar, CTLESC);
      UnescapeNext(sofar + [CTLESC], Toggled(b));
      assert sofar + EscapeByte(b) == sofar + [CTLESC] + [Toggled(b)];
    } else {
      UnescapeNext(sofar, b);
    }
  }

  method Escape(packet: seq<Byte>) returns (r: seq<Byte>)
    ensures r == EscapeOf(packet)
  {
    r := [];
    for i := 0 to |packet|
      invariant r == EscapeOf(packet[..i])
    {
      var b := packet[i];
      if b == FLAG || b == CTLESC {
        r := r + [CTLESC];
        r := r + [Toggled(b)];
      } else {
        r := r + [b];
      }
      assert packet[..i + 1][..i] == packet[..i];
    }
    assert packet[..|packet|] == packet;
  }

  method Unescape(packet: seq<Byte>) returns (r: seq<Byte>)
    ensures r == UnescapeOf(packet)
  {
    r := [];
    var esc := false;
    for i := 0 to |packet|
      invariant (r, esc) == UnescapeState(packet[..i])
    {
      var b := packet[i];
      UnescapeNext(packet[..i], b);
      assert packet[..i + 1] == packet[..i] + [b];
      if esc {
        r := r + [Toggled(b)];
        esc := false;
      } else if b == CTLESC {
        esc := true;
      } else {
        r := r + [b];
      }
    }
    assert packet[..|packet|] == packet;
  }

  // ---------- Frames ----------

  /** A little-endian number, as the CRC trailer is read. */
  function DecodeLE(v: seq<Byte>): nat {
    if v == [] then 0 else v[0] + 256 * DecodeLE(v[1..])
  }

  method DecodeTrailer(v: seq<Byte>) returns (r: nat)
    ensures r == DecodeLE(v)
  {
    r := 0;
    var i := |v|;
    while i > 0
      invariant 0 <= i <= |v|
      invariant r == DecodeLE(v[i..])
    {
      i := i - 1;
      r := r * 256 + v[i];
      assert v[i..][1..] == v[i + 1..];
    }
  }

  function CrcNumber(data: seq<Byte>): (n: nat)
    ensures n < 0x10000
  {
    RegisterBelow(CrcBytes(Zeros(16), data));
    ToNat(CrcBytes(Zeros(16), data))
  }

  lemma RegisterBelow(r: Register)
    ensures ToNat(r) < 0x10000
  {
    hide ToNat;
    FromNatToNat(r);
    assert Pow2(16) == 0x10000 by { assert Pow2(8) == 256; }
  }

  /** The CRC trailer, low byte first. */
  function Trailer(data: seq<Byte>): (trailer: seq<Byte>)
    ensures |trailer| == 2
  {
    [CrcNumber(data) % 256, CrcNumber(data) / 256 % 256]
  }

  lemma TrailerDecodes(data: seq<Byte>)
    ensures DecodeLE(Trailer(data)) == CrcNumber(data)
  {
    hide CrcNumber, DecodeLE;
    DecodeLETwo(Trailer(data));
  }

  lemma DecodeLETwo(t: seq<Byte>)
    requires |t| == 2
    ensures DecodeLE(t) == (t[0] as int) + 256 * (t[1] as int)
  {
    assert DecodeLE(t[1..]) == t[1] + 256 * DecodeLE(t[1..][1..]);
  }

  /** What the reader makes of the bytes between two flags. */
  function FrameContent(d: seq<Byte>): ReadResult {
    var packet := UnescapeOf([FLAG] + d + [FLAG]);
    var data := Slice(packet, 1, -3);
    Received(data, CrcNumber(data) == DecodeLE(Slice(packet, -3, -1)))
  }

  /** The bytes a frame body becomes on the wire. */
  function WireFrame(body: seq<Byte>): seq<Byte> {
    [FLAG] + EscapeOf(body + Trailer(body)) + [FLAG]
  }

  /** Unescaping after settled bytes is unescaping from the start. */
  lemma {:induction false} UnescapeAfter(before: seq<Byte>, d: seq<Byte>)
    requires !UnescapeState(before).1
    ensures UnescapeState(before + d) == (UnescapeOf(before) + UnescapeOf(d), UnescapeState(d).1)
  {
    hide UnescapeState;
    if d == [] {
      assert before + d == before;
      UnescapeNothing();
      assert UnescapeOf(before) + [] == UnescapeOf(before);
    } else {
      var n := |d| - 1;
      UnescapeAfter(before, d[..n]);
      UnescapeNext(before + d[..n], d[n]);
      UnescapeNext(d[..n], d[n]);
      assert before + d == before + d[..n] + [d[n]] && d == d[..n] + [d[n]];
      var r, s := UnescapeOf(before), UnescapeOf(d[..n]);
      assert r + (s + [d[n]]) == r + s + [d[n]] && r + (s + [Toggled(d[n])]) == r + s + [Toggled(d[n])];
    }
  }

  lemma UnescapeNothing()
    ensures UnescapeState([]) == ([], false)
  {
  }

  /** Opening a frame whose bytes on the line unescape to any data and any two trailer bytes. */
  lemma WireOpened(d: seq<Byte>, data: seq<Byte>, trailer: seq<Byte>)
    requires |trailer| == 2 && UnescapeState(d) == (data + trailer, false)
    ensures FrameContent(d) == Received(data, CrcNumber(data) == DecodeLE(trailer))
  {
    hide UnescapeState, CrcNumber, DecodeLE, Slice;
    OpeningFlag();
    UnescapeAfter([FLAG], d);
    UnescapeNext([FLAG] + d, FLAG);
    FrameParts(data, trailer);
  }

  /** Opening a frame around any data and any two trailer bytes. */
  lemma FrameOpened(data: seq<Byte>, trailer: seq<Byte>)
    requires |trailer| == 2
    ensures FrameContent(EscapeOf(data + trailer)) == Received(data, CrcNumber(data) == DecodeLE(trailer))
  {
    hide UnescapeState, FrameContent, EscapeOf;
    UnescapeNothing();
    UnescapeEscape([], data + trailer);
    assert [] + EscapeOf(data + trailer) == EscapeOf(data + trailer);
    assert [] + (data + trailer) == data + trailer;
    WireOpened(EscapeOf(data + trailer), data, trailer);
  }

  lemma OpeningFlag()
    ensures UnescapeState([FLAG]) == ([FLAG], false)
  {
    UnescapeNext([], FLAG);
    assert [FLAG] == [] + [FLAG];
  }

  lemma FrameParts(data: seq<Byte>, trailer: seq<Byte>)
    requires |trailer| == 2
    ensures var packet := [FLAG] + (data + trailer) + [FLAG];
            Slice(packet, 1, -3) == data && Slice(packet, -3, -1) == trailer
  {
  }

  /** Reading back what was framed gives the body, with a matching CRC. */
  lemma FrameRoundTrip(body: seq<Byte>)
    ensures FrameContent(EscapeOf(body + Trailer(body))) == Received(body, true)
  {
    hide FrameContent, EscapeOf;
    FrameOpened(body, Trailer(body));
    TrailerDecodes(body);
  }

  // ---------- The reader as an automaton ----------

  /** Looking for a flag; just past one or more flags; collecting the bytes of a frame. */
  datatype State = Hunting | Opened | Collecting(d: seq<Byte>)

  /** One event; a result ends one call of `Read`, and the next call starts hunting. */
  function Step(s: State, e: Event): (State, Option<ReadResult>) {
    match e
    case Silence => (Hunting, Some(TimedOut))
    case Arrival(b) =>
      match s
      case Hunting => (if b == FLAG then Opened else Hunting, None)
      case Opened => (if b == FLAG then Opened else Collecting([b]), None)
      case Collecting(d) =>
        if b == FLAG then (Hunting, Some(FrameContent(d))) else (Collecting(d + [b]), None)
  }

  /** The result of one call of `Read`, and the events it leaves. With no events left it can only time out. */
  function ReadFrom(s: State, events: seq<Event>): (ReadResult, seq<Event>)
    decreases |events|
  {
    if events == [] then (TimedOut, [])
    else
      var (s', out) := Step(s, events[0]);
      if out.Some? then (out.value, events[1..]) else ReadFrom(s', events[1..])
  }

  /** One event further, whichever state the reader is in. */
  lemma NextStep(s: State, events: seq<Event>)
    ensures events == [] ==> ReadFrom(s, events) == (TimedOut, [])
    ensures events != [] && events[0].Silence? ==> ReadFrom(s, events) == (TimedOut, events[1..])
    ensures events != [] && events[0].Arrival? ==>
              ReadFrom(s, events) ==
              match s
              case Hunting => ReadFrom(if events[0].b == FLAG then Opened else Hunting, events[1..])
              case Opened => ReadFrom(if events[0].b == FLAG then Opened else Collecting([events[0].b]), events[1..])
              case Collecting(d) =>
                if events[0].b == FLAG then (FrameContent(d), events[1..])
                else ReadFrom(Collecting(d + [events[0].b]), events[1..])
  {
  }

  lemma Grow(packet: seq<Byte>, b: Byte)
    requires 2 <= |packet|
    ensures (packet + [b])[1..] == packet[1..] + [b]
    ensures (packet + [b])[1..|packet|] == packet[1..]
  {
  }

  class ByteSource {
    var incoming: seq<Event>
    var sent: seq<Byte>

    constructor (incoming: seq<Event>)
      ensures this.incoming == incoming && sent == []
    {
      this.incoming := incoming;
      sent := [];
    }

    /** The next byte, or None when the read times out. */
    method GetByte() returns (r: Option<Byte>)
      modifies this`incoming
      ensures old(incoming) == [] ==> r == None && incoming == []
      ensures old(incoming) != [] ==> incoming == old(incoming)[1..]
      ensures old(incoming) != [] ==>
                r == match old(incoming)[0] case Arrival(b) => Some(b) case Silence => None
    {
      if incoming == [] {
        return None;
      }
      r := match incoming[0] case Arrival(b) => Some(b) case Silence => None;
      incoming := incoming[1..];
    }

    method PutBytes(data: seq<Byte>)
      modifies this`sent
      ensures sent == old(sent) + data
    {
      sent := sent + data;
    }
  }

  /** The body of a data frame: protocol, sequence number and dispatch bytes, then the payload. */
  const DATA_FRAME: seq<Field> :=
    [Field(Int, Some(1)), Field(Int, Some(1)), Field(Int, Some(1)), Field(Blob, None)]

  function DataFrameValues(seqno: int, payload: seq<Byte>): seq<Value> {
    [Number(SERIAL_PROTO_PACKET_ACK), Number(seqno), Number(0), Bytes(payload)]
  }

  function DataBody(seqno: int, payload: seq<Byte>): seq<Byte> {
    [SERIAL_PROTO_PACKET_ACK, seqno % 256, 0] + payload
  }

  lemma EncodeOneByte(n: int)
    ensures EncodeBE(n, 1) == [n % 256]
  {
    assert EncodeBE(n / 256, 0) == [];
  }

  lemma DataFramePacked(seqno: int, payload: seq<Byte>)
    ensures PayloadOf(Normalise(DATA_FRAME), DataFrameValues(seqno, payload)) == Success(DataBody(seqno, payload))
  {
    var schema, values := DATA_FRAME, DataFrameValues(seqno, payload);
    assert Normalise(schema) == schema;
    hide PackStep;
    PackOneByte(68, []);
    PackOneByte(seqno, [68]);
    PackOneByte(0, [68, seqno % 256]);
    PackBlob(payload, [68, seqno % 256, 0]);
    var nothing: seq<int> := [];
    assert nothing + [68 % 256] == [68];
    assert [68] + [seqno % 256] == [68, seqno % 256] && [68, seqno % 256] + [0] == [68, seqno % 256, 0];
    assert Pack(schema, values, 0) == Success(([], 0));
    assert Pack(schema, values, 1) == Success(([68], 0));
    assert Pack(schema, values, 2) == Success(([68, seqno % 256], 0));
    assert Pack(schema, values, 3) == Success(([68, seqno % 256, 0], 0));
  }

  lemma PackOneByte(n: int, r: seq<int>)
    ensures PackStep(Field(Int, Some(1)), Number(n), r, 0) == Success((r + [n % 256], 0))
  {
    EncodeOneByte(n);
  }

  lemma PackBlob(bytes: seq<int>, r: seq<int>)
    ensures PackStep(Field(Blob, None), Bytes(bytes), r, 0) == Success((r + bytes, 0))
  {
  }

  class HDLC {
    const source: ByteSource

    constructor (source: ByteSource)
      ensures this.source == source
    {
      this.source := source;
    }

    /** The next frame, or a time-out; a wrong CRC is only reported. */
    method Read() returns (r: ReadResult)
      modifies source`incoming
      ensures (r, source.incoming) == ReadFrom(Hunting, old(source.incoming))
    {
      hide *;
      ghost var was := source.incoming;
      // Hunt for a flag.
      NextStep(Hunting, source.incoming);
      var d := source.GetByte();
      while d.Some? && d != Some(FLAG)
        invariant d.Some? ==>
                    ReadFrom(if d == Some(FLAG) then Opened else Hunting, source.incoming) == ReadFrom(Hunting, was)
        invariant d.None? ==> (TimedOut, source.incoming) == ReadFrom(Hunting, was)
        decreases |source.incoming|, d.Some?
      {
        NextStep(Hunting, source.incoming);
        d := source.GetByte();
      }
      if d.None? {
        return TimedOut;
      }
      // Skip the flags behind it.
      NextStep(Opened, source.incoming);
      d := source.GetByte();
      while d == Some(FLAG)
        invariant d.Some? ==>
                    ReadFrom(if d == Some(FLAG) then Opened else Collecting([d.value]), source.incoming) ==
                    ReadFrom(Hunting, was)
        invariant d.None? ==> (TimedOut, source.incoming) == ReadFrom(Hunting, was)
        decreases |source.incoming|, d.Some?
      {
        NextStep(Opened, source.incoming);
        d := source.GetByte();
      }
      if d.None? {
        return TimedOut;
      }
      // Collect a frame.
      var packet: seq<Byte> := [FLAG, d.value];
      assert packet[1..] == [d.value];
      while d.Some? && d != Some(FLAG)
        invariant 2 <= |packet| && packet[0] == FLAG
        invariant d.Some? ==> packet[|packet| - 1] == d.value
        invariant d.Some? && d != Some(FLAG) ==>
                    ReadFrom(Collecting(packet[1..]), source.incoming) == ReadFrom(Hunting, was)
        invariant d == Some(FLAG) ==>
                    (FrameContent(packet[1..|packet| - 1]), source.incoming) == ReadFrom(Hunting, was)
        invariant d.None? ==> (TimedOut, source.incoming) == ReadFrom(Hunting, was)
        decreases |source.incoming|, d.Some?
      {
        NextStep(Collecting(packet[1..]), source.incoming);
        d := source.GetByte();
        if d.Some? {
          Grow(packet, d.value);
          packet := packet + [d.value];
        }
      }
      if d.None? {
        return TimedOut;
      }
      assert packet == [FLAG] + packet[1..|packet| - 1] + [FLAG];
      r := Deframe(packet, packet[1..|packet| - 1]);
    }

    /** Unescape a whole packet and check its CRC. */
    static method Deframe(raw: seq<Byte>, ghost d: seq<Byte>) returns (r: ReadResult)
      requires raw == [FLAG] + d + [FLAG]
      ensures r == FrameContent(d)
    {
      var packet := Unescape(raw);
      var crc := PythonCrc16(Zeros(16), Slice(packet, 1, -3));
      var packetCrc := DecodeTrailer(Slice(packet, -3, -1));
      r := Received(Slice(packet, 1, -3), ToNat(crc) == packetCrc);
    }

    /** Frame a payload under a sequence number and send it. */
    method Write(payload: seq<Byte>, seqno: int)
      modifies source`sent
      ensures source.sent == old(source.sent) + WireFrame(DataBody(seqno, payload))
    {
      var schema := NormaliseSchema(DATA_FRAME);
      var packed := Payload(schema, DataFrameValues(seqno, payload));
      DataFramePacked(seqno, payload);
      var packet: seq<Byte> := packed.value;
      var crc := PythonCrc16(Zeros(16), packet);
      var n := ToNat(crc);
      assert n == CrcNumber(packet);
      packet := packet + [n % 256];
      packet := packet + [n / 256 % 256];
      assert packet == DataBody(seqno, payload) + Trailer(DataBody(seqno, payload));
      var escaped := Escape(packet);
      source.PutBytes([FLAG] + escaped + [FLAG]);
    }
  }
}
