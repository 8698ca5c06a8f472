/**
 The host's moves in the stop-and-wait protocol are those of the byte-level sender: given the bytes of the frames
 it has read, `AM.Write` returns just when the protocol says so, having sent as many copies.
 */
module SenderRefinement {
  import opened Words
  import opened Wrappers
  import opened Hdlc
  import opened HdlcResync
  import opened SimpleAM
  import opened StopAndWait

  // ---------- The sender on whole frames ----------

  /** The rest of a write that reads frames and pauses instead of bytes. */
  datatype FrameOutcome = FrameOutcome(copies: nat, rest: seq<Item>, returned: bool)

  function RunOnFrames(seqno: int, items: seq<Item>): FrameOutcome {
    if items == [] then FrameOutcome(0, [], false)
    else
      var o := RunOnFrames(seqno, items[1..]);
      match React(seqno, ResultOf(items[0]))
      case Finish => FrameOutcome(0, items[1..], true)
      case Skip => o
      case Resend => o.(copies := o.copies + 1)
  }

  /** Events that yield no result only change the reader's state. */
  lemma {:induction false} ReadOver(s: Hdlc.State, a: seq<Event>, b: seq<Event>)
    requires Outputs(s, a) == []
    ensures ReadFrom(s, a + b) == ReadFrom(StateAfter(s, a), b)
    decreases |a|
  {
    if a == [] {
      assert a + b == b;
    } else {
      assert (a + b)[0] == a[0] && (a + b)[1..] == a[1..] + b;
      ReadOver(Hdlc.Step(s, a[0]).0, a[1..], b);
    }
  }

  /** Reading stops right behind the frame. */
  lemma FrameThenRest(body: seq<Byte>, more: seq<Event>)
    ensures ReadFrom(Hunting, Arrivals(WireFrame(body)) + more) == (Received(body, true), more)
  {
    hide *;
    var e := FrameEvents(body);
    var f, first, others := Arrivals([FLAG]), Arrivals([e[0]]), Arrivals(e[1..]);
    FlagOpens(Hunting);
    OneByteCollected(e[0]);
    CollectingCollects([e[0]], e[1..]);
    assert Arrivals(WireFrame(body)) + more == f + (first + (others + (f + more)));
    ReadOver(Hunting, f, first + (others + (f + more)));
    ReadOver(Opened, first, others + (f + more));
    ReadOver(Collecting([e[0]]), others, f + more);
    ClosingFlag(e, more);
    FrameRoundTrip(body);
  }

  lemma ClosingFlag(d: seq<Byte>, more: seq<Event>)
    ensures ReadFrom(Collecting(d), Arrivals([FLAG]) + more) == (FrameContent(d), more)
  {
    hide FrameContent;
    var events := Arrivals([FLAG]) + more;
    assert events[0] == Arrival(FLAG) && events[1..] == more;
  }

  lemma ItemThenRest(item: Item, more: seq<Event>)
    ensures ReadFrom(Hunting, ItemEvents(item) + more) == (ResultOf(item), more)
  {
    match item
    case Frame(body) =>
      hide WireFrame, ReadFrom;
      FrameThenRest(body, more);
    case Pause =>
      assert ([Silence] + more)[1..] == more;
  }

  /** On a stream of frames the byte-level sender acts frame by frame. */
  lemma {:induction false} SenderOnFrames(seqno: int, items: seq<Item>)
    ensures var o := RunOnFrames(seqno, items);
            RunSender(seqno, StreamEvents(items)) == Outcome(o.copies, StreamEvents(o.rest), o.returned)
  {
    hide StreamEvents, RunSender, React, ReadFrom;
    StreamStart();
    OneRead(seqno, StreamEvents(items));
    if items != [] {
      ResultsCons(items);
      ItemThenRest(items[0], StreamEvents(items[1..]));
      SenderOnFrames(seqno, items[1..]);
    }
  }

  lemma StreamStart()
    ensures StreamEvents([]) == []
  {
  }

  /** A write that has not returned has read everything, and goes on with the next item. */
  lemma {:induction false} OneMoreItem(seqno: int, items: seq<Item>, item: Item)
    ensures var o := RunOnFrames(seqno, items);
            !o.returned ==>
              o.rest == [] &&
              RunOnFrames(seqno, items + [item]) ==
              match React(seqno, ResultOf(item))
              case Finish => FrameOutcome(o.copies, [], true)
              case Skip => o
              case Resend => FrameOutcome(o.copies + 1, [], false)
  {
    hide React, ResultOf;
    if items == [] {
      assert ([item])[1..] == [];
      assert items + [item] == [item];
    } else {
      OneMoreItem(seqno, items[1..], item);
      assert (items + [item])[1..] == items[1..] + [item];
    }
  }

  // ---------- The sender in the protocol ----------

  /** What the sender has read since its last write started. */
  function Seen(start: StopAndWait.State, moves: seq<Move>): seq<Item> {
    if moves == [] then []
    else
      var before, m := moves[..|moves| - 1], moves[|moves| - 1];
      match m
      case StartWrite(_) => []
      case ReadTimesOut => Seen(start, before) + [Pause]
      case ReadNext =>
        var r := Run(start, before);
        if r.Some? && r.value.up != [] then Seen(start, before) + [Frame(UpBytes(r.value.up[0]))]
        else Seen(start, before)
      case _ => Seen(start, before)
  }

  /** How many data frames have been put on the line since then. */
  function Sent(start: StopAndWait.State, moves: seq<Move>): int {
    if moves == [] then 0
    else
      var before, m := moves[..|moves| - 1], moves[|moves| - 1];
      match m
      case StartWrite(_) => 1
      case LoseDown(_) => Sent(start, before)
      case MoteReceives => Sent(start, before)
      case _ =>
        if Run(start, before).Some? && Run(start, moves).Some?
        then Sent(start, before) + |Run(start, moves).value.down| - |Run(start, before).value.down|
        else Sent(start, before)
  }

  ghost predicate Matches(start: StopAndWait.State, moves: seq<Move>, s: StopAndWait.State) {
    var o := RunOnFrames(s.seqno, Seen(start, moves));
    s.written != [] ==> o.returned == !s.waiting && o.rest == [] && Sent(start, moves) == o.copies + 1
  }

  lemma MatchesMeans(start: StopAndWait.State, moves: seq<Move>, s: StopAndWait.State)
    requires Matches(start, moves, s) && s.written != []
    ensures var o := RunOnFrames(s.seqno, Seen(start, moves));
            o.returned == !s.waiting && o.rest == [] && Sent(start, moves) == o.copies + 1
  {
  }

  lemma {:induction false} SenderMatches(start: StopAndWait.State, moves: seq<Move>)
    requires start.written == []
    ensures Run(start, moves).Some? ==> Matches(start, moves, Run(start, moves).value)
  {
    if moves != [] {
      var n := |moves| - 1;
      SenderMatches(start, moves[..n]);
      if Run(start, moves).Some? {
        MatchesNext(start, moves, Run(start, moves[..n]).value, moves[n]);
      }
    }
  }

  lemma MatchesNext(start: StopAndWait.State, moves: seq<Move>, s: StopAndWait.State, m: Move)
    requires moves != [] && moves[|moves| - 1] == m
    requires Run(start, moves[..|moves| - 1]) == Some(s) && Enabled(s, m) && (s.waiting ==> s.written != [])
    requires Matches(start, moves[..|moves| - 1], s)
    ensures Matches(start, moves, Next(s, m))
  {
    hide RunOnFrames, React;
    TimeOutResends(s.seqno);
    var before := moves[..|moves| - 1];
    match m
    case StartWrite(_) => NothingSeen((s.seqno + 1) % 256);
    case ReadTimesOut => OneMoreItem(s.seqno, Seen(start, before), Pause);
    case ReadNext => OneMoreItem(s.seqno, Seen(start, before), Frame(UpBytes(s.up[0])));
    case _ =>
  }

  lemma TimeOutResends(seqno: int)
    ensures React(seqno, ResultOf(Pause)) == Resend
  {
  }

  lemma NothingSeen(seqno: int)
    ensures RunOnFrames(seqno, []) == FrameOutcome(0, [], false)
  {
  }

  /** In every run the current write has acted as `AM.Write` does on the bytes of what it has read. */
  lemma SenderIsWrite(start: StopAndWait.State, moves: seq<Move>)
    requires start.written == [] && Run(start, moves).Some? && Run(start, moves).value.written != []
    ensures var s := Run(start, moves).value;
            var o := RunSender(s.seqno, StreamEvents(Seen(start, moves)));
            o.returned == !s.waiting && o.rest == [] && Sent(start, moves) == o.copies + 1
  {
    hide Matches, RunSender, RunOnFrames, Seen, Sent, StreamEvents, Run;
    StreamStart();
    SenderMatches(start, moves);
    MatchesMeans(start, moves, Run(start, moves).value);
    SenderOnFrames(Run(start, moves).value.seqno, Seen(start, moves));
  }
}
