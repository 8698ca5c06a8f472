/**
 The serial line itself, byte for byte: what a write puts on it, and what a read makes of whatever comes from it,
 a well-formed frame or not.
 */
module HdlcWire {
  import opened Words
  import opened Wrappers
  import opened Crc
  import opened CrcPolynomial
  import opened Packet
  import opened Hdlc
  import opened HdlcResync

  // ---------- Octet stuffing ----------

  /** A flag and an escape become two bytes, any other byte stays. */
  lemma EscapedBytes()
    ensures EscapeOf([]) == []
    ensures forall b: Byte ::
              EscapeOf([b]) == if b == 0x7e then [0x7d, 0x5e] else if b == 0x7d then [0x7d, 0x5d] else [b]
  {
    forall b: Byte
      ensures EscapeOf([b]) == if b == 0x7e then [0x7d, 0x5e] else if b == 0x7d then [0x7d, 0x5d] else [b]
    {
      assert [b][..0] == [];
      assert [] + EscapeByte(b) == EscapeByte(b);
    }
  }

  /** Bytes other than escapes are left alone. */
  lemma {:induction false} PlainUnescaped(a: seq<Byte>)
    requires 0x7d !in a
    ensures UnescapeState(a) == (a, false)
  {
    if a != [] {
      var n := |a| - 1;
      PlainUnescaped(a[..n]);
      assert a[n] in a && a[..n] + [a[n]] == a;
    }
  }

  /** The first escape vanishes and inverts bit 5 of the byte behind it, whichever that is. */
  lemma EscapeUndone(a: seq<Byte>, b: Byte, t: Byte, rest: seq<Byte>)
    requires 0x7d !in a && t / 64 == b / 64 && t / 32 % 2 != b / 32 % 2 && t % 32 == b % 32
    ensures UnescapeOf(a + [0x7d, b] + rest) == a + [t] + UnescapeOf(rest)
    ensures UnescapeState(a + [0x7d, b] + rest).1 == UnescapeState(rest).1
  {
    hide UnescapeState;
    PlainUnescaped(a);
    UnescapeNext(a, CTLESC);
    UnescapeNext(a + [CTLESC], b);
    assert a + [0x7d, b] == a + [CTLESC] + [b];
    UnescapeAfter(a + [0x7d, b], rest);
  }

  /** An escape with nothing behind it is dropped. */
  lemma EscapeDangling(a: seq<Byte>)
    requires 0x7d !in a
    ensures UnescapeState(a + [0x7d]) == (a, true)
  {
    hide UnescapeState;
    PlainUnescaped(a);
    UnescapeNext(a, CTLESC);
  }

  // ---------- The trailer ----------

  lemma RegisterNumber(r: Register, n: nat)
    requires n < 0x10000
    ensures FromNat(n, 16) == r <==> n == ToNat(r)
  {
    hide FromNat, ToNat;
    RegisterBelow(r);
    FromNatToNat(r);
    assert Pow2(8) == 256;
    assert Pow2(16) == 0x10000;
    ToNatFromNat(n, 16);
  }

  /** Two trailer bytes check out just when they are the remainder of the data, low byte first. */
  lemma TrailerIsRemainder(data: seq<Byte>, lo: Byte, hi: Byte)
    ensures CrcNumber(data) == DecodeLE([lo, hi]) <==>
            IsRemainder(Raise(MessagePoly(MessageBits(data)), 16), FromNat(lo + 256 * hi, 16))
  {
    hide *;
    var n: nat := lo + 256 * hi;
    CrcNumberIs(data);
    DecodeLETwo([lo, hi]);
    RegisterNumber(CrcBytes(Zeros(16), data), n);
    CrcOfMessage(data, FromNat(n, 16));
  }

  lemma CrcNumberIs(data: seq<Byte>)
    ensures CrcNumber(data) == ToNat(CrcBytes(Zeros(16), data))
  {
  }

  /**
   What one write puts on the line: between two flags, and without any flag, the escaped data frame under the given
   number, and behind it, low byte first, the remainder of the frame.
   */
  lemma Written(seqno: int, payload: seq<Byte>) returns (e: seq<Byte>, lo: Byte, hi: Byte)
    ensures WireFrame(DataBody(seqno, payload)) == [0x7e] + e + [0x7e] && 0x7e !in e
    ensures e == EscapeOf([68, seqno % 256, 0] + payload + [lo, hi])
    ensures UnescapeState(e) == ([68, seqno % 256, 0] + payload + [lo, hi], false)
    ensures IsRemainder(
              Raise(MessagePoly(MessageBits([68, seqno % 256, 0] + payload)), 16), FromNat(lo + 256 * hi, 16))
  {
    var body: seq<Byte> := [68, seqno % 256, 0] + payload;
    assert DataBody(seqno, payload) == body;
    e, lo, hi := FrameOnLine(body);
    assert body + [lo, hi] == [68, seqno % 256, 0] + payload + [lo, hi];
  }

  lemma FrameOnLine(body: seq<Byte>) returns (e: seq<Byte>, lo: Byte, hi: Byte)
    ensures WireFrame(body) == [FLAG] + e + [FLAG] && FLAG !in e && e == EscapeOf(body + [lo, hi])
    ensures UnescapeState(e) == (body + [lo, hi], false)
    ensures IsRemainder(Raise(MessagePoly(MessageBits(body)), 16), FromNat(lo + 256 * hi, 16))
  {
    hide EscapeOf, UnescapeState, CrcNumber, DecodeLE, IsRemainder, MessagePoly, MessageBits, FromNat;
    var t := Trailer(body);
    lo, hi := t[0], t[1];
    assert t == [lo, hi];
    e := EscapeOf(body + t);
    EscapedHasNoFlag(body + t);
    UnescapeNothing();
    UnescapeEscape([], body + t);
    assert [] + e == e && [] + (body + t) == body + t;
    TrailerDecodes(body);
    TrailerIsRemainder(body, lo, hi);
  }

  // ---------- What a read makes of the line ----------

  function Flags(k: nat): (flags: seq<Byte>)
    ensures |flags| == k && forall i :: 0 <= i < k ==> flags[i] == FLAG
  {
    seq(k, _ => FLAG)
  }

  /**
   The bytes between two flags, whatever they are. The last two that they unescape to are the trailer; where there
   are fewer, the frame is empty and its CRC wrong. An escape in front of the closing flag changes nothing.
   */
  lemma FrameMeans(d: seq<Byte>)
    requires d != []
    ensures var u := UnescapeOf(d);
            if |u| < 2 then FrameContent(d) == Received([], false)
            else FrameContent(d).Received? && FrameContent(d).data == u[..|u| - 2] &&
                 (FrameContent(d).crcOk <==>
                  IsRemainder(Raise(MessagePoly(MessageBits(u[..|u| - 2])), 16),
                              FromNat((u[|u| - 2] as int) + 256 * (u[|u| - 1] as int), 16)))
  {
    hide UnescapeState, CrcNumber, DecodeLE, IsRemainder, MessagePoly, MessageBits, FromNat, Slice;
    var u := UnescapeOf(d);
    var last := Closed(d);
    if |u| < 2 {
      TooShort(u, last);
    } else {
      CutInParts(u, last);
      TrailerIsRemainder(u[..|u| - 2], u[|u| - 2], u[|u| - 1]);
    }
  }

  /** The closing flag comes out as itself, or inverted by a dangling escape. */
  lemma Closed(d: seq<Byte>) returns (last: Byte)
    ensures UnescapeOf([FLAG] + d + [FLAG]) == [FLAG] + UnescapeOf(d) + [last]
  {
    hide UnescapeState;
    OpeningFlag();
    UnescapeAfter([FLAG], d);
    UnescapeNext([FLAG] + d, FLAG);
    last := if UnescapeState(d).1 then Toggled(FLAG) else FLAG;
  }

  lemma CutInParts(u: seq<Byte>, last: Byte)
    requires |u| >= 2
    ensures var packet := [FLAG] + u + [last];
            Slice(packet, 1, -3) == u[..|u| - 2] && Slice(packet, -3, -1) == [u[|u| - 2], u[|u| - 1]]
  {
  }

  /** In a frame too short for a trailer the opening flag is taken for a part of it. */
  lemma TooShort(u: seq<Byte>, last: Byte)
    requires |u| < 2
    ensures var packet := [FLAG] + u + [last];
            Slice(packet, 1, -3) == [] && CrcNumber([]) != DecodeLE(Slice(packet, -3, -1))
  {
    var packet := [FLAG] + u + [last];
    assert Slice(packet, -3, -1) == [FLAG] + u;
    assert MessageBits([]) == [] && CrcBytes(Zeros(16), []) == Zeros(16);
    hide CrcBytes, Slice;
    ToNatZeros(16);
  }

  // ---------- One read ----------

  /** Bytes that end before a frame does: skipped ones, then flags, and behind these the start of a frame. */
  predicate Unfinished(a: seq<Byte>, k: nat, d: seq<Byte>) {
    FLAG !in a && FLAG !in d && (k == 0 ==> d == [])
  }

  lemma {:induction false} SkipFlags(k: nat, more: seq<Event>)
    ensures ReadFrom(Opened, Arrivals(Flags(k)) + more) == ReadFrom(Opened, more)
  {
    if k == 0 {
      assert Arrivals(Flags(k)) + more == more;
    } else {
      assert (Arrivals(Flags(k)) + more)[1..] == Arrivals(Flags(k - 1)) + more;
      SkipFlags(k - 1, more);
    }
  }

  lemma {:induction false} SkipToFlag(a: seq<Byte>, more: seq<Event>)
    requires FLAG !in a
    ensures ReadFrom(Hunting, Arrivals(a) + more) == ReadFrom(Hunting, more)
  {
    if a == [] {
      assert Arrivals(a) + more == more;
    } else {
      assert a[0] in a && (Arrivals(a) + more)[1..] == Arrivals(a[1..]) + more;
      SkipToFlag(a[1..], more);
    }
  }

  lemma {:induction false} Collect(before: seq<Byte>, d: seq<Byte>, more: seq<Event>)
    requires FLAG !in d
    ensures ReadFrom(Collecting(before), Arrivals(d) + more) == ReadFrom(Collecting(before + d), more)
    decreases |d|
  {
    if d == [] {
      assert Arrivals(d) + more == more && before + d == before;
    } else {
      assert d[0] in d && (Arrivals(d) + more)[1..] == Arrivals(d[1..]) + more;
      Collect(before + [d[0]], d[1..], more);
      assert before + [d[0]] + d[1..] == before + d;
    }
  }

  /** The state in which bytes that make no frame leave the reader. */
  function StateOf(k: nat, d: seq<Byte>): State {
    if k == 0 then Hunting else if d == [] then Opened else Collecting(d)
  }

  lemma ReadOn(a: seq<Byte>, k: nat, d: seq<Byte>, more: seq<Event>)
    requires Unfinished(a, k, d)
    ensures ReadFrom(Hunting, Arrivals(a + Flags(k) + d) + more) == ReadFrom(StateOf(k, d), more)
  {
    hide ReadFrom, Step;
    var rest := Arrivals(Flags(k)) + (Arrivals(d) + more);
    assert Arrivals(a + Flags(k) + d) + more == Arrivals(a) + rest;
    SkipToFlag(a, rest);
    if k == 0 {
      assert rest == more;
    } else {
      assert rest[0] == Arrival(FLAG) && rest[1..] == Arrivals(Flags(k - 1)) + (Arrivals(d) + more);
      NextStep(Hunting, rest);
      SkipFlags(k - 1, Arrivals(d) + more);
      if d == [] {
        assert Arrivals(d) + more == more;
      } else {
        var tail := Arrivals(d[1..]) + more;
        assert d[0] in d && (Arrivals(d) + more)[1..] == tail;
        NextStep(Opened, Arrivals(d) + more);
        Collect([d[0]], d[1..], more);
        assert [d[0]] + d[1..] == d;
      }
    }
  }

  /**
   A read gets the bytes between the first flags and the next one, and leaves what comes behind that; they are taken
   for a frame whatever they are, so that it never times out on them.
   */
  lemma ReadsFrame(a: seq<Byte>, k: nat, d: seq<Byte>, more: seq<Event>)
    requires Unfinished(a, k, d) && d != []
    ensures var (r, rest) := ReadFrom(Hunting, Arrivals(a + Flags(k) + d + [FLAG]) + more);
            var u := UnescapeOf(d);
            && rest == more
            && if |u| < 2 then r == Received([], false)
               else r.Received? && r.data == u[..|u| - 2] &&
                    (r.crcOk <==> IsRemainder(Raise(MessagePoly(MessageBits(u[..|u| - 2])), 16),
                                              FromNat((u[|u| - 2] as int) + 256 * (u[|u| - 1] as int), 16)))
  {
    hide UnescapeState, IsRemainder, MessagePoly, MessageBits, FromNat, FrameContent, ReadFrom;
    var events := Arrivals(a + Flags(k) + d + [FLAG]) + more;
    assert events == Arrivals(a + Flags(k) + d) + ([Arrival(FLAG)] + more);
    ReadOn(a, k, d, [Arrival(FLAG)] + more);
    NextStep(Collecting(d), [Arrival(FLAG)] + more);
    FrameMeans(d);
  }

  /** Where the line falls silent before that, or for good, the read times out. */
  lemma ReadsNothing(a: seq<Byte>, k: nat, d: seq<Byte>, more: seq<Event>)
    requires Unfinished(a, k, d)
    ensures ReadFrom(Hunting, Arrivals(a + Flags(k) + d)) == (TimedOut, [])
    ensures ReadFrom(Hunting, Arrivals(a + Flags(k) + d) + [Silence] + more) == (TimedOut, more)
  {
    hide ReadFrom;
    var bytes := Arrivals(a + Flags(k) + d);
    ReadOn(a, k, d, []);
    assert bytes + [] == bytes;
    NextStep(StateOf(k, d), []);
    ReadOn(a, k, d, [Silence] + more);
    assert bytes + [Silence] + more == bytes + ([Silence] + more) && ([Silence] + more)[1..] == more;
    NextStep(StateOf(k, d), [Silence] + more);
  }

  /** How a sequence of events can begin. */
  datatype Beginning = FrameFirst | SilenceFirst | NoEnd

  /** There is nothing else that can come from the line. */
  lemma {:induction false} EveryLine(events: seq<Event>)
    returns (b: Beginning, a: seq<Byte>, k: nat, d: seq<Byte>, more: seq<Event>)
    ensures Unfinished(a, k, d)
    ensures match b
            case FrameFirst => d != [] && events == Arrivals(a + Flags(k) + d + [FLAG]) + more
            case SilenceFirst => events == Arrivals(a + Flags(k) + d) + [Silence] + more
            case NoEnd => events == Arrivals(a + Flags(k) + d)
    decreases |events|
  {
    if events == [] {
      b, a, k, d, more := NoEnd, [], 0, [], [];
    } else {
      var n := |events| - 1;
      b, a, k, d, more := EveryLine(events[..n]);
      var was, last := events[..n], events[n];
      assert events == was + [last];
      if b.NoEnd? {
        b, a, k, d, more := OneMoreEvent(a, k, d, last);
      } else {
        more := more + [last];
      }
    }
  }

  lemma OneMoreEvent(a0: seq<Byte>, k0: nat, d0: seq<Byte>, last: Event)
    returns (b: Beginning, a: seq<Byte>, k: nat, d: seq<Byte>, more: seq<Event>)
    requires Unfinished(a0, k0, d0)
    ensures Unfinished(a, k, d)
    ensures var events := Arrivals(a0 + Flags(k0) + d0) + [last];
            match b
            case FrameFirst => d != [] && events == Arrivals(a + Flags(k) + d + [FLAG]) + more
            case SilenceFirst => events == Arrivals(a + Flags(k) + d) + [Silence] + more
            case NoEnd => events == Arrivals(a + Flags(k) + d)
  {
    a, k, d, more := a0, k0, d0, [];
    match last
    case Silence => b := SilenceFirst;
    case Arrival(c) =>
      b := NoEnd;
      if c == FLAG && d0 != [] {
        b := FrameFirst;
      } else if c == FLAG {
        k := k0 + 1;
        assert Flags(k) == Flags(k0) + [c];
      } else if k0 == 0 {
        a := a0 + [c];
      } else {
        d := d0 + [c];
      }
  }
}
