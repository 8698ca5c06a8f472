/**
 What a reader that joins a stream of frames half-way gets out of it: every frame that is wholly there, and
 after garbage all frames but at most one.
 */
module HdlcResync {
  import opened Words
  import opened Wrappers
  import opened Hdlc

  /** What the sender's line carries: framed bodies, and pauses long enough for a read to time out. */
  datatype Item = Frame(body: seq<Byte>) | Pause

  function Arrivals(bytes: seq<Byte>): (events: seq<Event>)
    ensures |events| == |bytes|
    ensures forall i :: 0 <= i < |bytes| ==> events[i] == Arrival(bytes[i])
  {
    seq(|bytes|, i requires 0 <= i < |bytes| => Arrival(bytes[i]))
  }

  function ItemEvents(item: Item): (events: seq<Event>)
    ensures events != []
  {
    match item
    case Frame(body) => Arrivals(WireFrame(body))
    case Pause => [Silence]
  }

  function StreamEvents(items: seq<Item>): seq<Event> {
    if items == [] then [] else ItemEvents(items[0]) + StreamEvents(items[1..])
  }

  function ResultOf(item: Item): ReadResult {
    match item
    case Frame(body) => Received(body, true)
    case Pause => TimedOut
  }

  /** What reading a stream of items should yield. */
  function Results(items: seq<Item>): (r: seq<ReadResult>)
    ensures |r| == |items|
    ensures forall i :: 0 <= i < |items| ==> r[i] == ResultOf(items[i])
  {
    seq(|items|, i requires 0 <= i < |items| => ResultOf(items[i]))
  }

  /** The items that lie wholly behind the first `cut` events of the stream. */
  function ItemsAfter(items: seq<Item>, cut: nat): seq<Item> {
    if items == [] || cut == 0 then items
    else
      var n := |ItemEvents(items[0])|;
      ItemsAfter(items[1..], if cut < n then 0 else cut - n)
  }

  // ---------- All results of a run ----------

  /** The reader's state after some events. */
  function StateAfter(s: State, events: seq<Event>): State
    decreases |events|
  {
    if events == [] then s else StateAfter(Step(s, events[0]).0, events[1..])
  }

  /** Every result the reader produces while it consumes some events. */
  function Outputs(s: State, events: seq<Event>): seq<ReadResult>
    decreases |events|
  {
    if events == [] then []
    else
      var (s', out) := Step(s, events[0]);
      (if out.Some? then [out.value] else []) + Outputs(s', events[1..])
  }

  /** The results of `n` successive calls of `HDLC.Read`. */
  function Reads(events: seq<Event>, n: nat): seq<ReadResult>
    decreases n
  {
    if n == 0 then []
    else var (r, rest) := ReadFrom(Hunting, events); [r] + Reads(rest, n - 1)
  }

  /** Successive calls of `HDLC.Read` on one source. */
  method ReadAll(hdlc: HDLC, n: nat) returns (r: seq<ReadResult>)
    modifies hdlc.source`incoming
    ensures r == Reads(old(hdlc.source.incoming), n)
  {
    hide ReadFrom;
    r := [];
    for i := 0 to n
      invariant r + Reads(hdlc.source.incoming, n - i) == Reads(old(hdlc.source.incoming), n)
    {
      ghost var before := hdlc.source.incoming;
      var f := hdlc.Read();
      assert Reads(before, n - i) == [f] + Reads(hdlc.source.incoming, n - i - 1);
      assert r + ([f] + Reads(hdlc.source.incoming, n - i - 1)) == r + [f] + Reads(hdlc.source.incoming, n - i - 1);
      r := r + [f];
    }
    assert r + [] == r;
  }

  lemma {:induction false} ReadIsFirstOutput(s: State, events: seq<Event>)
    ensures var (r, rest) := ReadFrom(s, events);
            if Outputs(s, events) == [] then r == TimedOut && rest == []
            else Outputs(s, events) == [r] + Outputs(Hunting, rest)
    decreases |events|
  {
    if events != [] {
      var (s', out) := Step(s, events[0]);
      if out.None? {
        assert Outputs(s, events) == Outputs(s', events[1..]);
        ReadIsFirstOutput(s', events[1..]);
      } else {
        assert s' == Hunting;
      }
    }
  }

  /** Successive calls return the outputs of the automaton, one by one; after the last they only time out. */
  lemma {:induction false} ReadsAreOutputs(events: seq<Event>, n: nat)
    ensures n <= |Outputs(Hunting, events)| ==> Reads(events, n) == Outputs(Hunting, events)[..n]
    ensures n > |Outputs(Hunting, events)| ==>
              Reads(events, n) == Outputs(Hunting, events) + seq(n - |Outputs(Hunting, events)|, _ => TimedOut)
    decreases n
  {
    if n > 0 {
      ReadIsFirstOutput(Hunting, events);
      var (r, rest) := ReadFrom(Hunting, events);
      ReadsAreOutputs(rest, n - 1);
      if Outputs(Hunting, events) == [] {
        assert Outputs(Hunting, rest) == [];
        assert [TimedOut] + seq(n - 1, _ => TimedOut) == seq(n, _ => TimedOut);
      }
    }
  }

  lemma {:induction false} OutputsConcat(s: State, a: seq<Event>, b: seq<Event>)
    ensures Outputs(s, a + b) == Outputs(s, a) + Outputs(StateAfter(s, a), b)
    ensures StateAfter(s, a + b) == StateAfter(StateAfter(s, a), b)
    decreases |a|
  {
    hide Step, Outputs, StateAfter;
    OutputsUnfold(s, a);
    OutputsUnfold(s, a + b);
    if a == [] {
      assert a + b == b;
      assert [] + Outputs(s, b) == Outputs(s, b);
    } else {
      assert (a + b)[0] == a[0] && (a + b)[1..] == a[1..] + b;
      var (s', out) := Step(s, a[0]);
      OutputsConcat(s', a[1..], b);
      var x, y, z := (if out.Some? then [out.value] else []), Outputs(s', a[1..]), Outputs(StateAfter(s, a), b);
      assert x + (y + z) == x + y + z;
    }
  }

  lemma OutputsUnfold(s: State, a: seq<Event>)
    ensures a == [] ==> Outputs(s, a) == [] && StateAfter(s, a) == s
    ensures a != [] ==>
              var (s', out) := Step(s, a[0]);
              && Outputs(s, a) == (if out.Some? then [out.value] else []) + Outputs(s', a[1..])
              && StateAfter(s, a) == StateAfter(s', a[1..])
  {
    hide Step;
  }

  // ---------- One frame ----------

  /** A hunting reader skips bytes that are not flags. */
  lemma {:induction false} HuntingSkips(bytes: seq<Byte>)
    requires FLAG !in bytes
    ensures StateAfter(Hunting, Arrivals(bytes)) == Hunting && Outputs(Hunting, Arrivals(bytes)) == []
  {
    if bytes != [] {
      assert Arrivals(bytes)[1..] == Arrivals(bytes[1..]);
      HuntingSkips(bytes[1..]);
    }
  }

  lemma {:induction false} CollectingCollects(d: seq<Byte>, bytes: seq<Byte>)
    requires FLAG !in bytes
    ensures StateAfter(Collecting(d), Arrivals(bytes)) == Collecting(d + bytes)
    ensures Outputs(Collecting(d), Arrivals(bytes)) == []
    decreases |bytes|
  {
    if bytes == [] {
      assert d + bytes == d;
    } else {
      assert Arrivals(bytes)[1..] == Arrivals(bytes[1..]);
      CollectingCollects(d + [bytes[0]], bytes[1..]);
      assert d + [bytes[0]] + bytes[1..] == d + bytes;
    }
  }

  /** The tail of a frame, from anywhere behind its opening flag, leaves a hunting reader without a result. */
  lemma TailSkipped(bytes: seq<Byte>)
    requires FLAG !in bytes
    ensures StateAfter(Hunting, Arrivals(bytes + [FLAG])) == Opened
    ensures Outputs(Hunting, Arrivals(bytes + [FLAG])) == []
  {
    assert Arrivals(bytes + [FLAG]) == Arrivals(bytes) + Arrivals([FLAG]);
    HuntingSkips(bytes);
    OutputsConcat(Hunting, Arrivals(bytes), Arrivals([FLAG]));
    assert Arrivals([FLAG])[1..] == [];
  }

  /** A whole frame is read, whether the reader is hunting or has just passed a flag. */
  lemma FrameRead(s: State, body: seq<Byte>)
    requires !s.Collecting?
    ensures Outputs(s, Arrivals(WireFrame(body))) == [Received(body, true)]
    ensures StateAfter(s, Arrivals(WireFrame(body))) == Hunting
  {
    hide *;
    var e := FrameEvents(body);
    var f := Arrivals([FLAG]);
    FlagOpens(s);
    OutputsConcat(s, f, Arrivals([e[0]]) + (Arrivals(e[1..]) + f));
    OneByteCollected(e[0]);
    OutputsConcat(Opened, Arrivals([e[0]]), Arrivals(e[1..]) + f);
    CollectingCollects([e[0]], e[1..]);
    OutputsConcat(Collecting([e[0]]), Arrivals(e[1..]), f);
    FlagCloses([e[0]] + e[1..]);
    FrameRoundTrip(body);
  }

  /** The events of a frame, and the escaped bytes between its flags. */
  lemma FrameEvents(body: seq<Byte>) returns (e: seq<Byte>)
    ensures e == EscapeOf(body + Trailer(body)) && e != [] && FLAG !in e && e[0] != FLAG && FLAG !in e[1..]
    ensures [e[0]] + e[1..] == e
    ensures Arrivals(WireFrame(body)) ==
            Arrivals([FLAG]) + (Arrivals([e[0]]) + (Arrivals(e[1..]) + Arrivals([FLAG])))
    ensures Arrivals(WireFrame(body)) == Arrivals([FLAG]) + Arrivals(e + [FLAG])
  {
    e := FrameBytes(body);
    hide *;
    ArrivalsConcat([FLAG], e + [FLAG]);
    ArrivalsConcat(e, [FLAG]);
    ArrivalsConcat([e[0]], e[1..]);
    var a, b, f := Arrivals([e[0]]), Arrivals(e[1..]), Arrivals([FLAG]);
    assert a + b + f == a + (b + f);
  }

  lemma FrameBytes(body: seq<Byte>) returns (e: seq<Byte>)
    ensures e == EscapeOf(body + Trailer(body)) && e != [] && FLAG !in e && e[0] != FLAG && FLAG !in e[1..]
    ensures [e[0]] + e[1..] == e && WireFrame(body) == [FLAG] + (e + [FLAG])
  {
    assert Trailer(body) != [];
    hide EscapeOf, Trailer;
    e := EscapeOf(body + Trailer(body));
    EscapedHasNoFlag(body + Trailer(body));
    assert e[0] in e && [e[0]] + e[1..] == e;
    assert [FLAG] + e + [FLAG] == [FLAG] + (e + [FLAG]);
  }

  lemma ArrivalsConcat(a: seq<Byte>, b: seq<Byte>)
    ensures Arrivals(a + b) == Arrivals(a) + Arrivals(b)
  {
  }

  lemma FlagOpens(s: State)
    requires !s.Collecting?
    ensures StateAfter(s, Arrivals([FLAG])) == Opened && Outputs(s, Arrivals([FLAG])) == []
  {
    OneByte(s, FLAG);
  }

  lemma FlagCloses(d: seq<Byte>)
    ensures StateAfter(Collecting(d), Arrivals([FLAG])) == Hunting
    ensures Outputs(Collecting(d), Arrivals([FLAG])) == [FrameContent(d)]
  {
    OneByte(Collecting(d), FLAG);
  }

  lemma OneByteCollected(b: Byte)
    requires b != FLAG
    ensures StateAfter(Opened, Arrivals([b])) == Collecting([b]) && Outputs(Opened, Arrivals([b])) == []
  {
    OneByte(Opened, b);
  }

  lemma OneByte(s: State, b: Byte)
    ensures StateAfter(s, Arrivals([b])) == Step(s, Arrival(b)).0
    ensures Outputs(s, Arrivals([b])) == match Step(s, Arrival(b)).1 case Some(r) => [r] case None => []
  {
    assert Arrivals([b])[1..] == [];
  }

  // ---------- Streams ----------

  /** A stream that starts at a frame boundary is read completely. */
  lemma {:induction false} StreamRead(s: State, items: seq<Item>)
    requires !s.Collecting?
    ensures Outputs(s, StreamEvents(items)) == Results(items)
    decreases |items|
  {
    if items == [] {
      assert StreamEvents(items) == [];
    } else {
      ResultsCons(items);
      hide Outputs, StateAfter, StreamEvents, Results, WireFrame, Arrivals;
      OutputsConcat(s, ItemEvents(items[0]), StreamEvents(items[1..]));
      if items[0].Frame? {
        FrameRead(s, items[0].body);
      } else {
        PauseRead(s);
      }
      StreamRead(Hunting, items[1..]);
    }
  }

  lemma ResultsCons(items: seq<Item>)
    requires items != []
    ensures Results(items) == [ResultOf(items[0])] + Results(items[1..])
    ensures StreamEvents(items) == ItemEvents(items[0]) + StreamEvents(items[1..])
  {
    hide ResultOf, ItemEvents;
  }

  lemma PauseRead(s: State)
    ensures Outputs(s, [Silence]) == [TimedOut] && StateAfter(s, [Silence]) == Hunting
  {
    var e: seq<Event> := [Silence];
    assert e[1..] == [];
    assert Outputs(Hunting, []) == [];
  }

  /**
   Resynchronisation: a reader that joins after any number of events reads exactly the frames that are wholly
   there, in order, each with a matching CRC.
   */
  lemma {:induction false} JoinAnywhere(items: seq<Item>, cut: nat)
    requires cut <= |StreamEvents(items)|
    ensures Outputs(Hunting, StreamEvents(items)[cut..]) == Results(ItemsAfter(items, cut))
    decreases |items|
  {
    var events := StreamEvents(items);
    if items == [] || cut == 0 {
      assert events[cut..] == events;
      StreamRead(Hunting, items);
    } else {
      ResultsCons(items);
      hide Outputs, StateAfter, StreamEvents, ItemEvents, Results;
      var n := |ItemEvents(items[0])|;
      if cut < n {
        assert ItemsAfter(items[1..], 0) == items[1..];
        JoinInside(items[0], items[1..], cut);
      } else {
        assert events[cut..] == StreamEvents(items[1..])[cut - n..];
        JoinAnywhere(items[1..], cut - n);
      }
    }
  }

  lemma JoinInside(item: Item, rest: seq<Item>, cut: nat)
    requires 0 < cut < |ItemEvents(item)|
    ensures Outputs(Hunting, (ItemEvents(item) + StreamEvents(rest))[cut..]) == Results(rest)
  {
    hide Outputs, StateAfter, StreamEvents, ItemEvents, Results;
    var first, more := ItemEvents(item), StreamEvents(rest);
    assert (first + more)[cut..] == first[cut..] + more;
    OutputsConcat(Hunting, first[cut..], more);
    CutItem(item, cut);
    StreamRead(Opened, rest);
  }

  lemma CutItem(item: Item, cut: nat)
    requires 0 < cut < |ItemEvents(item)|
    ensures Outputs(Hunting, ItemEvents(item)[cut..]) == []
    ensures StateAfter(Hunting, ItemEvents(item)[cut..]) == Opened
  {
    hide Outputs, StateAfter, WireFrame;
    CutFrame(item.body, cut);
  }

  lemma CutFrame(body: seq<Byte>, cut: nat)
    requires 0 < cut < |WireFrame(body)|
    ensures Outputs(Hunting, Arrivals(WireFrame(body))[cut..]) == []
    ensures StateAfter(Hunting, Arrivals(WireFrame(body))[cut..]) == Opened
  {
    hide Outputs, StateAfter, EscapeOf, Trailer;
    var e := EscapeOf(body + Trailer(body));
    EscapedHasNoFlag(body + Trailer(body));
    var tail := e[cut - 1..];
    assert WireFrame(body)[cut..] == tail + [FLAG];
    assert Arrivals(WireFrame(body))[cut..] == Arrivals(tail + [FLAG]);
    hide WireFrame, Arrivals;
    SuffixHasNoFlag(e, cut - 1);
    TailSkipped(tail);
  }

  lemma SuffixHasNoFlag(e: seq<Byte>, k: nat)
    requires k <= |e| && FLAG !in e
    ensures FLAG !in e[k..]
  {
  }

  /** The items that survive behind some garbage: a frame is lost just when the garbage ends inside a frame. */
  function Surviving(garbage: seq<Event>, items: seq<Item>): seq<Item> {
    if StateAfter(Hunting, garbage).Collecting? && items != [] && items[0].Frame? then items[1..] else items
  }

  /** What the garbage itself yields; its last frame is closed by the flag that opens the first genuine one. */
  function Junk(garbage: seq<Event>, items: seq<Item>): seq<ReadResult> {
    Outputs(Hunting, garbage) +
    match StateAfter(Hunting, garbage)
    case Collecting(d) => if items != [] && items[0].Frame? then [FrameContent(d)] else []
    case _ => []
  }

  /** After any garbage whatever, every genuine frame is read except possibly the first. */
  lemma AfterGarbage(garbage: seq<Event>, items: seq<Item>)
    ensures Outputs(Hunting, garbage + StreamEvents(items)) == Junk(garbage, items) + Results(Surviving(garbage, items))
    ensures |items| - 1 <= |Surviving(garbage, items)| <= |items|
  {
    hide Outputs, StateAfter, StreamEvents, Results, WireFrame, Arrivals, FrameContent;
    OutputsConcat(Hunting, garbage, StreamEvents(items));
    var s := StateAfter(Hunting, garbage);
    if s.Collecting? && items != [] && items[0].Frame? {
      ResultsCons(items);
      OutputsConcat(s, ItemEvents(items[0]), StreamEvents(items[1..]));
      FrameSwallowed(s.d, items[0].body);
      StreamRead(Opened, items[1..]);
      var g, r := Outputs(Hunting, garbage), Results(items[1..]);
      assert g + ([FrameContent(s.d)] + r) == g + [FrameContent(s.d)] + r;
    } else {
      StreamReadAfterPause(s, items);
      assert Outputs(Hunting, garbage) + [] == Outputs(Hunting, garbage);
    }
  }

  /** A pause, or nothing at all, leaves even a reader in the middle of a frame ready for what follows. */
  lemma StreamReadAfterPause(s: State, items: seq<Item>)
    requires s.Collecting? && items != [] ==> items[0].Pause?
    ensures Outputs(s, StreamEvents(items)) == Results(items)
  {
    if !s.Collecting? {
      StreamRead(s, items);
    } else if items == [] {
      assert StreamEvents(items) == [] && Outputs(s, []) == [];
    } else {
      ResultsCons(items);
      hide Outputs, StateAfter, StreamEvents, Results;
      OutputsConcat(s, [Silence], StreamEvents(items[1..]));
      PauseRead(s);
      StreamRead(Hunting, items[1..]);
    }
  }

  /** A reader in the middle of garbage takes a frame's opening flag for the end of the garbage. */
  lemma FrameSwallowed(d: seq<Byte>, body: seq<Byte>)
    ensures Outputs(Collecting(d), Arrivals(WireFrame(body))) == [FrameContent(d)]
    ensures StateAfter(Collecting(d), Arrivals(WireFrame(body))) == Opened
  {
    hide *;
    var e := FrameEvents(body);
    FlagCloses(d);
    OutputsConcat(Collecting(d), Arrivals([FLAG]), Arrivals(e + [FLAG]));
    TailSkipped(e);
  }

  // ---------- What `HDLC.Write` puts on the line ----------

  /** The bytes sent by one write after the other. */
  function SentBytes(bodies: seq<seq<Byte>>): seq<Byte> {
    if bodies == [] then [] else WireFrame(bodies[0]) + SentBytes(bodies[1..])
  }

  function Frames(bodies: seq<seq<Byte>>): (items: seq<Item>)
    ensures |items| == |bodies| && forall i :: 0 <= i < |bodies| ==> items[i] == Frame(bodies[i])
  {
    seq(|bodies|, i requires 0 <= i < |bodies| => Frame(bodies[i]))
  }

  lemma {:induction false} SentIsStream(bodies: seq<seq<Byte>>)
    ensures Arrivals(SentBytes(bodies)) == StreamEvents(Frames(bodies))
  {
    if bodies != [] {
      hide WireFrame;
      SentIsStream(bodies[1..]);
      ArrivalsConcat(WireFrame(bodies[0]), SentBytes(bodies[1..]));
      assert Frames(bodies)[1..] == Frames(bodies[1..]);
    }
  }

  /** The bodies whose frames lie wholly behind the first `cut` bytes sent. */
  function BodiesAfter(bodies: seq<seq<Byte>>, cut: nat): (rest: seq<seq<Byte>>)
    ensures |rest| <= |bodies| && rest == bodies[|bodies| - |rest|..]
  {
    if bodies == [] || cut == 0 then bodies
    else
      var n := |WireFrame(bodies[0])|;
      BodiesAfter(bodies[1..], if cut < n then 0 else cut - n)
  }

  lemma {:induction false} ItemsOfBodies(bodies: seq<seq<Byte>>, cut: nat)
    ensures ItemsAfter(Frames(bodies), cut) == Frames(BodiesAfter(bodies, cut))
    decreases |bodies|
  {
    if bodies != [] && cut != 0 {
      hide WireFrame;
      var n := |WireFrame(bodies[0])|;
      assert Frames(bodies)[1..] == Frames(bodies[1..]);
      ItemsOfBodies(bodies[1..], if cut < n then 0 else cut - n);
    }
  }

  /**
   Resynchronisation on bytes: from any suffix of what was sent, successive reads return the bodies of exactly the
   frames it wholly contains, in order and with matching CRCs, and then time out.
   */
  lemma ReadsOfSuffix(bodies: seq<seq<Byte>>, cut: nat, n: nat)
    requires cut <= |SentBytes(bodies)|
    ensures var rest := BodiesAfter(bodies, cut);
            var r := Reads(Arrivals(SentBytes(bodies)[cut..]), n);
            |r| == n && forall i :: 0 <= i < n ==>
              r[i] == if i < |rest| then Received(rest[i], true) else TimedOut
  {
    hide *;
    ArrivalsSuffix(SentBytes(bodies), cut);
    SentIsStream(bodies);
    JoinAnywhere(Frames(bodies), cut);
    ItemsOfBodies(bodies, cut);
    ResultsOfFrames(BodiesAfter(bodies, cut));
    ReadsAreOutputs(Arrivals(SentBytes(bodies)[cut..]), n);
  }

  lemma ArrivalsSuffix(bytes: seq<Byte>, cut: nat)
    requires cut <= |bytes|
    ensures Arrivals(bytes[cut..]) == Arrivals(bytes)[cut..]
    ensures |Arrivals(bytes)| == |bytes|
  {
  }

  lemma ResultsOfFrames(bodies: seq<seq<Byte>>)
    ensures |Results(Frames(bodies))| == |bodies|
    ensures forall i :: 0 <= i < |bodies| ==> Results(Frames(bodies))[i] == Received(bodies[i], true)
  {
  }
}
