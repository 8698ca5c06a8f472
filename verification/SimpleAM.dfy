/** The host's stop-and-wait sender, with and without deadline, blocking and not. */
module SimpleAM {
  import opened Words
  import opened Wrappers
  import opened Packet
  import opened Hdlc

  const SERIAL_PROTO_ACK := 67

  const ACK_FRAME: seq<Field> := [Field(Int, Some(1)), Field(Int, Some(1))]

  /** The protocol byte of a received frame; an empty frame reads as 0. */
  function Protocol(data: seq<Byte>): int {
    DecodeBE(Slice(data, 0, 1))
  }

  /** The sequence number an acknowledgement carries; a frame without one reads as 0. */
  function AckSeqno(data: seq<Byte>): int {
    DecodeBE(Slice(data, 1, 2))
  }

  /** Protocol and sequence number are what the acknowledgement schema unpacks from a frame, however short. */
  lemma AckFrameUnpacked(data: seq<Byte>)
    ensures ValuesOf(ACK_FRAME, data) == Success([Number(Protocol(data)), Number(AckSeqno(data))])
    ensures Protocol(data) == if data == [] then 0 else data[0]
    ensures AckSeqno(data) == if |data| < 2 then 0 else data[1]
  {
    FirstBytes(data);
    var schema := ACK_FRAME;
    assert schema[0] == schema[1] == Field(Int, Some(1));
    assert NormaliseFrom(schema, 1, 1) == NormaliseFrom(schema, 0, 2) == schema;
    assert Normalise(schema) == schema;
    hide NormaliseFrom, Normalise;
    UnpackOneByte(data, 0);
    UnpackOneByte(data, 1);
    hide UnpackStep;
    var nothing: seq<Value> := [];
    assert nothing + [Number(Protocol(data))] == [Number(Protocol(data))];
    assert [Number(Protocol(data))] + [Number(AckSeqno(data))] == [Number(Protocol(data)), Number(AckSeqno(data))];
    assert Unpack(schema, data, 0) == Success((nothing, Cursor(0, 0)));
    assert Unpack(schema, data, 1) == Success(([Number(Protocol(data))], Cursor(1, 0)));
  }

  lemma FirstBytes(data: seq<Byte>)
    ensures Protocol(data) == if data == [] then 0 else data[0]
    ensures AckSeqno(data) == if |data| < 2 then 0 else data[1]
  {
    var p, q := Slice(data, 0, 1), Slice(data, 1, 2);
    assert p == (if data == [] then [] else [data[0]]) && q == if |data| < 2 then [] else [data[1]];
    assert DecodeBE(p[..0]) == DecodeBE(q[..0]) == 0 by { assert p[..0] == q[..0] == []; }
  }

  lemma UnpackOneByte(data: seq<Byte>, at: nat)
    ensures UnpackStep(Field(Int, Some(1)), data, Cursor(at, 0)) ==
            Success((Number(DecodeBE(Slice(data, at, at + 1))), Cursor(at + 1, 0)))
  {
  }

  /** What the sender does with the outcome of a read while it waits for `seqno` to be acknowledged. */
  datatype Reaction = Resend | Skip | Finish

  function React(seqno: int, r: ReadResult): Reaction {
    match r
    case TimedOut => Resend
    case Received(data, _) =>
      if Protocol(data) != SERIAL_PROTO_ACK then Skip
      else if AckSeqno(data) == seqno then Finish
      else Resend
  }

  /** The rest of a write: how many more copies it sends, the events it leaves, and whether it returns. */
  datatype Outcome = Outcome(copies: nat, rest: seq<Event>, returned: bool)

  /** How a write continues after a read, given how it would continue from the events behind it. */
  function Continue(reaction: Reaction, o: Outcome, rest: seq<Event>): Outcome {
    match reaction
    case Finish => Outcome(0, rest, true)
    case Skip => o
    case Resend => o.(copies := o.copies + 1)
  }

  function RunSender(seqno: int, events: seq<Event>): Outcome
    decreases |events|
  {
    if events == [] then Outcome(0, [], false)
    else
      var (r, rest) := ReadFrom(Hunting, events);
      ReadShrinks(Hunting, events);
      Continue(React(seqno, r), RunSender(seqno, rest), rest)
  }

  lemma {:induction false} ReadShrinks(s: State, events: seq<Event>)
    ensures var rest := ReadFrom(s, events).1; |rest| <= |events| && (events != [] ==> |rest| < |events|)
    decreases |events|
  {
    if events != [] {
      var (s', out) := Step(s, events[0]);
      if out.None? {
        ReadShrinks(s', events[1..]);
      }
    }
  }

  /** A write returns only on an acknowledgement that carries its own sequence number. */
  lemma {:induction false} ReturnsOnlyOnAck(seqno: int, events: seq<Event>)
    returns (before: seq<Event>, data: seq<Byte>, crcOk: bool)
    requires RunSender(seqno, events).returned
    ensures ReadFrom(Hunting, before) == (Received(data, crcOk), RunSender(seqno, events).rest)
    ensures Protocol(data) == SERIAL_PROTO_ACK && AckSeqno(data) == seqno
    ensures |before| <= |events| && before == events[|events| - |before|..]
    decreases |events|
  {
    var (r, rest) := ReadFrom(Hunting, events);
    ReadShrinks(Hunting, events);
    ReadSuffix(Hunting, events);
    if React(seqno, r) == Finish {
      before, data, crcOk := events, r.data, r.crcOk;
    } else {
      before, data, crcOk := ReturnsOnlyOnAck(seqno, rest);
      assert before == events[|events| - |before|..];
    }
  }

  lemma {:induction false} ReadSuffix(s: State, events: seq<Event>)
    ensures var rest := ReadFrom(s, events).1; |rest| <= |events| && rest == events[|events| - |rest|..]
    decreases |events|
  {
    if events != [] {
      var (s', out) := Step(s, events[0]);
      if out.None? {
        ReadSuffix(s', events[1..]);
      }
    }
  }

  // ---------- One call of `SimpleAM.write` ----------

  /** How a call ends: with the last frame it has read, if any, or never. */
  datatype Ending = Ended(last: Option<seq<Byte>>) | Waiting

  datatype WriteRun = WriteRun(copies: nat, rest: seq<Event>, ending: Ending)

  /** The rest of a deadline, as the number of looks at the clock that still find it ahead; None for no deadline. */
  type Deadline = Option<nat>

  function Tick(left: Deadline): Deadline
    requires left != Some(0)
  {
    match left
    case None => None
    case Some(n) => Some(n - 1)
  }

  function Rank(left: Deadline): nat {
    match left
    case None => 0
    case Some(n) => n
  }

  /** From the head of the outer loop: send, and read. */
  function Sending(last: Option<seq<Byte>>, events: seq<Event>, left: Deadline): (w: WriteRun)
    ensures |w.rest| <= |events| && (left != None ==> w.ending.Ended?)
    decreases |events|, Rank(left)
  {
    if left == Some(0) then WriteRun(0, events, Ended(last))
    else if left == None && events == [] then WriteRun(1, [], Waiting)
    else
      var (r, rest) := ReadFrom(Hunting, events);
      ReadShrinks(Hunting, events);
      var w := match r
        case TimedOut => Sending(last, rest, Tick(left))
        case Received(data, _) => Skipping(data, rest, Tick(left));
      w.(copies := w.copies + 1)
  }

  /** From the head of the inner loop: skip frames that are not acknowledgements. */
  function Skipping(data: seq<Byte>, events: seq<Event>, left: Deadline): (w: WriteRun)
    ensures |w.rest| <= |events| && (left != None ==> w.ending.Ended?)
    decreases |events|, Rank(left)
  {
    if Protocol(data) == SERIAL_PROTO_ACK || left == Some(0) then WriteRun(0, events, Ended(Some(data)))
    else if left == None && events == [] then WriteRun(0, [], Waiting)
    else
      var (r, rest) := ReadFrom(Hunting, events);
      ReadShrinks(Hunting, events);
      match r
      case TimedOut => Sending(Some(data), rest, Tick(left))
      case Received(next, _) => Skipping(next, rest, Tick(left))
  }

  /** The value a call returns. */
  function Verdict(seqno: int, ending: Ending): Option<bool> {
    match ending
    case Waiting => None
    case Ended(last) => Some(last.Some? && AckSeqno(last.value) == seqno)
  }

  function Copies(frame: seq<Byte>, n: nat): seq<Byte> {
    if n == 0 then [] else Copies(frame, n - 1) + frame
  }

  class AM {
    const hdlc: HDLC
    var seqno: int

    constructor (source: ByteSource)
      ensures fresh(hdlc) && hdlc.source == source && seqno == 0
    {
      hdlc := new HDLC(source);
      seqno := 0;
    }

    /**
     `SimpleAM.write`: send, and read until an acknowledgement comes or the deadline passes, sending again after
     every time-out. None says that the events ran out first.
     */
    method SimpleWrite(message: seq<Byte>, inc: int, blocking: bool, deadline: Deadline) returns (r: Option<bool>)
      modifies this`seqno, hdlc.source
      ensures seqno == (old(seqno) + inc) % 256
      ensures blocking ==>
                var w := Sending(None, old(hdlc.source.incoming), deadline);
                && hdlc.source.sent == old(hdlc.source.sent) + Copies(WireFrame(DataBody(seqno, message)), w.copies)
                && hdlc.source.incoming == w.rest && r == Verdict(seqno, w.ending)
      ensures !blocking ==>
                && hdlc.source.incoming == old(hdlc.source.incoming) && r == Some(deadline != Some(0))
                && hdlc.source.sent == old(hdlc.source.sent) +
                   if deadline == Some(0) then [] else WireFrame(DataBody(seqno, message))
    {
      hide Sending, Skipping, Verdict, Tick, WireFrame, DataBody, ReadFrom, Protocol, AckSeqno, Copies;
      var source := hdlc.source;
      seqno := (seqno + inc) % 256;
      var ack: Option<seq<Byte>>, left := None, deadline;
      ghost var was, frame, n := source.incoming, WireFrame(DataBody(seqno, message)), 0;
      NoCopies(frame);
      while left != Some(0)
        invariant seqno == (old(seqno) + inc) % 256
        invariant source.sent == old(source.sent) + Copies(frame, n)
        invariant Sending(None, was, deadline) == After(n, Sending(ack, source.incoming, left))
        invariant n > 0 ==> blocking
        invariant n == 0 ==> source.incoming == was && left == deadline && ack == None
        invariant left == None <==> deadline == None
        decreases |source.incoming|, Rank(left)
      {
        SendingStep(ack, source.incoming, left);
        OneMoreCopy(old(source.sent), frame, n + 1);
        TickDown(left);
        left := Tick(left);
        hdlc.Write(message, seqno);
        n := n + 1;
        if !blocking {
          OneCopy(frame);
          return Some(true);
        }
        if left == None && source.incoming == [] {
          VerdictOf(seqno, Waiting);
          return None;
        }
        ghost var before, clock := source.incoming, Rank(left);
        ReadShrinks(Hunting, before);
        var f := hdlc.Read();
        if f.Received? {
          ack := Some(f.data);
        }
        while f.Received? && Protocol(f.data) != SERIAL_PROTO_ACK && left != Some(0)
          invariant seqno == (old(seqno) + inc) % 256
          invariant source.sent == old(source.sent) + Copies(frame, n)
          invariant f.Received? ==> ack == Some(f.data)
          invariant Sending(None, was, deadline) == After(n, Resume(ack, f, source.incoming, left))
          invariant |source.incoming| <= |before| && (before != [] ==> |source.incoming| < |before|)
          invariant Rank(left) <= clock && (left == None <==> deadline == None)
          decreases |source.incoming|, Rank(left)
        {
          SkippingStep(f.data, source.incoming, left);
          TickDown(left);
          left := Tick(left);
          if left == None && source.incoming == [] {
            VerdictOf(seqno, Waiting);
            return None;
          }
          ReadShrinks(Hunting, source.incoming);
          f := hdlc.Read();
          if f.Received? {
            ack := Some(f.data);
          }
        }
        if f.Received? {
          SkippingStep(f.data, source.incoming, left);
          break;
        }
      }
      SendingStep(ack, source.incoming, left);
      VerdictOf(seqno, Ended(ack));
      return Some(ack.Some? && AckSeqno(ack.value) == seqno);
    }

    /**
     `AM.write`: write under the next sequence number, and again under the same one as long as the write reports a
     wrong acknowledgement; with a deadline for each of two writes it raises `Timeout` after the second.
     */
    method Write(message: seq<Byte>, blocking: bool, deadlines: Option<(nat, nat)>) returns (r: WriteResult)
      modifies this`seqno, hdlc.source
      ensures seqno == (old(seqno) + 1) % 256
      ensures blocking && deadlines == None ==>
                var o := RunSender(seqno, old(hdlc.source.incoming));
                && r == (if o.returned then ReturnedTrue else StillWaiting) && hdlc.source.incoming == o.rest
                && hdlc.source.sent ==
                   old(hdlc.source.sent) + Copies(WireFrame(DataBody(seqno, message)), o.copies + 1)
      ensures blocking && deadlines.Some? ==>
                var w := TwoCalls(seqno, old(hdlc.source.incoming), deadlines.value.0, deadlines.value.1);
                && r == (if Verdict(seqno, w.ending) == Some(true) then ReturnedTrue else RaisedTimeout)
                && hdlc.source.incoming == w.rest
                && hdlc.source.sent == old(hdlc.source.sent) + Copies(WireFrame(DataBody(seqno, message)), w.copies)
      ensures !blocking ==>
                && r == (if InTime(deadlines) then ReturnedTrue else RaisedTimeout)
                && hdlc.source.incoming == old(hdlc.source.incoming)
                && hdlc.source.sent == old(hdlc.source.sent) +
                   if InTime(deadlines) then WireFrame(DataBody(seqno, message)) else []
    {
      hide RunSender, Sending, Verdict, AckSeqno, TwoCalls, CalledForever, CalledTimed, WireFrame, DataBody, Copies;
      ghost var was, sent := hdlc.source.incoming, hdlc.source.sent;
      var ok := SimpleWrite(message, 1, blocking, if deadlines.Some? then Some(deadlines.value.0) else None);
      ghost var frame, n := WireFrame(DataBody(seqno, message)), 0;
      if blocking {
        var w := Sending(None, was, if deadlines.Some? then Some(deadlines.value.0) else None);
        n := w.copies;
        FirstCall(seqno, was, deadlines);
      }
      while ok.Some? && !ok.value
        invariant seqno == (old(seqno) + 1) % 256
        invariant blocking ==> hdlc.source.sent == sent + Copies(frame, n)
        invariant blocking && deadlines == None ==> CalledForever(seqno, was, ok, n, hdlc.source.incoming)
        invariant blocking && deadlines.Some? ==>
                    CalledTimed(seqno, was, deadlines.value, ok, n, hdlc.source.incoming)
        invariant !blocking ==> hdlc.source.incoming == was && ok != None
        invariant !blocking && ok == Some(true) ==>
                    InTime(deadlines) && hdlc.source.sent == sent + frame
        invariant !blocking && ok == Some(false) ==>
                    deadlines.Some? && deadlines.value.0 == 0 && hdlc.source.sent == sent
        decreases |hdlc.source.incoming|, ok.Some? && !ok.value
      {
        ghost var before := hdlc.source.incoming;
        ok := SimpleWrite(message, 0, blocking, if deadlines.Some? then Some(deadlines.value.1) else None);
        if blocking {
          ghost var m := Sending(None, before, if deadlines.Some? then Some(deadlines.value.1) else None).copies;
          SentTwice(sent, frame, n, m);
          NextCall(seqno, was, deadlines, n, before);
          n := n + m;
        }
        if deadlines.Some? && !ok.value {
          return RaisedTimeout;
        }
      }
      if blocking {
        AllCalled(seqno, was, deadlines, ok, n, hdlc.source.incoming);
      }
      r := if ok.Some? then ReturnedTrue else StillWaiting;
    }
  }

  /** Whether one of two calls finds its deadline still ahead when it starts. */
  predicate InTime(deadlines: Option<(nat, nat)>) {
    match deadlines
    case None => true
    case Some((first, second)) => first > 0 || second > 0
  }

  /** How `AM.write` ends. */
  datatype WriteResult = ReturnedTrue | RaisedTimeout | StillWaiting

  /** Two calls in a row, the second only if the first does not return True. */
  function TwoCalls(seqno: int, events: seq<Event>, first: nat, second: nat): WriteRun {
    var w := Sending(None, events, Some(first));
    if Verdict(seqno, w.ending) == Some(true) then w
    else After(w.copies, Sending(None, w.rest, Some(second)))
  }

  /** A call without deadline, from its first read on, does what the sender's function says. */
  ghost predicate Waited(seqno: int, events: seq<Event>, w: WriteRun) {
    var o := RunSender(seqno, events);
    match w.ending
    case Waiting => o == Outcome(w.copies, [], false) && w.rest == []
    case Ended(last) =>
      && last.Some? && |w.rest| < |events|
      && o == if AckSeqno(last.value) == seqno then Outcome(w.copies, w.rest, true)
              else Later(RunSender(seqno, w.rest), w.copies + 1)
  }

  lemma {:induction false} ResumeForever(seqno: int, last: Option<seq<Byte>>, events: seq<Event>)
    requires events != []
    ensures var (r, rest) := ReadFrom(Hunting, events); Waited(seqno, events, Resume(last, r, rest, None))
    decreases |events|
  {
    hide ReadFrom, Protocol, AckSeqno, RunSender, Sending, Skipping;
    var (r, rest) := ReadFrom(Hunting, events);
    OneRead(seqno, events);
    OneRead(seqno, rest);
    if r.Received? {
      SkippingStep(r.data, rest, None);
      if Protocol(r.data) != SERIAL_PROTO_ACK && rest != [] {
        ResumeForever(seqno, Some(r.data), rest);
      }
    } else {
      SendingStep(last, rest, None);
      if rest != [] {
        ResumeForever(seqno, last, rest);
      }
    }
  }

  /** One call without deadline is part of what the sender's function does. */
  lemma CallForever(seqno: int, events: seq<Event>)
    ensures var w := Sending(None, events, None);
            && w.copies > 0
            && RunSender(seqno, events) ==
               match Verdict(seqno, w.ending)
               case None => Outcome(w.copies - 1, [], false)
               case Some(true) => Outcome(w.copies - 1, w.rest, true)
               case Some(false) => Later(RunSender(seqno, w.rest), w.copies)
    ensures var w := Sending(None, events, None);
            (w.ending.Waiting? ==> w.rest == []) && (w.ending.Ended? ==> |w.rest| < |events|)
  {
    hide RunSender, Sending, Skipping, ReadFrom, AckSeqno;
    SendingStep(None, events, None);
    OneRead(seqno, events);
    if events != [] {
      ResumeForever(seqno, None, events);
    }
  }

  /** Where calls without deadline have got, the last of which gave `ok`. */
  ghost predicate CalledForever(seqno: int, was: seq<Event>, ok: Option<bool>, n: nat, left: seq<Event>) {
    var o := RunSender(seqno, was);
    match ok
    case None => n > 0 && o == Outcome(n - 1, [], false) && left == []
    case Some(returned) =>
      if returned then n > 0 && o == Outcome(n - 1, left, true) else o == Later(RunSender(seqno, left), n)
  }

  /** The same for the one or two calls with deadlines. */
  ghost predicate CalledTimed(
    seqno: int, was: seq<Event>, deadlines: (nat, nat), ok: Option<bool>, n: nat, left: seq<Event>)
  {
    var w := if ok == Some(false) then Sending(None, was, Some(deadlines.0))
             else TwoCalls(seqno, was, deadlines.0, deadlines.1);
    ok != None && ok == Verdict(seqno, w.ending) && n == w.copies && left == w.rest
  }

  lemma FirstCall(seqno: int, was: seq<Event>, deadlines: Option<(nat, nat)>)
    ensures var w := Sending(None, was, if deadlines.Some? then Some(deadlines.value.0) else None);
            var ok := Verdict(seqno, w.ending);
            match deadlines
            case None => CalledForever(seqno, was, ok, w.copies, w.rest)
            case Some(both) => CalledTimed(seqno, was, both, ok, w.copies, w.rest)
  {
    hide RunSender, Sending, AckSeqno;
    CallForever(seqno, was);
  }

  lemma NextCall(seqno: int, was: seq<Event>, deadlines: Option<(nat, nat)>, n: nat, left: seq<Event>)
    requires deadlines == None ==> CalledForever(seqno, was, Some(false), n, left)
    requires deadlines.Some? ==> CalledTimed(seqno, was, deadlines.value, Some(false), n, left)
    ensures var w := Sending(None, left, if deadlines.Some? then Some(deadlines.value.1) else None);
            var ok := Verdict(seqno, w.ending);
            match deadlines
            case None =>
              CalledForever(seqno, was, ok, n + w.copies, w.rest) && (ok == Some(false) ==> |w.rest| < |left|)
            case Some((first, second)) =>
              var both := TwoCalls(seqno, was, first, second);
              && ok == Verdict(seqno, both.ending) != None && n + w.copies == both.copies && w.rest == both.rest
              && (ok == Some(true) ==> CalledTimed(seqno, was, (first, second), ok, n + w.copies, w.rest))
  {
    hide RunSender, Sending, AckSeqno;
    CallForever(seqno, left);
  }

  lemma AllCalled(
    seqno: int, was: seq<Event>, deadlines: Option<(nat, nat)>, ok: Option<bool>, n: nat, left: seq<Event>)
    requires ok != Some(false)
    requires deadlines == None ==> CalledForever(seqno, was, ok, n, left)
    requires deadlines.Some? ==> CalledTimed(seqno, was, deadlines.value, ok, n, left)
    ensures match deadlines
            case None => var o := RunSender(seqno, was); o.returned == ok.Some? && left == o.rest && n == o.copies + 1
            case Some((first, second)) =>
              var w := TwoCalls(seqno, was, first, second);
              Verdict(seqno, w.ending) == ok == Some(true) && left == w.rest && n == w.copies
  {
    hide RunSender, Sending, AckSeqno;
  }

  /** How a call goes on with the result of a read. */
  function Resume(last: Option<seq<Byte>>, r: ReadResult, rest: seq<Event>, left: Deadline): WriteRun {
    match r
    case TimedOut => Sending(last, rest, left)
    case Received(data, _) => Skipping(data, rest, left)
  }

  function After(n: nat, w: WriteRun): WriteRun {
    w.(copies := w.copies + n)
  }

  lemma TickDown(left: Deadline)
    requires left != Some(0)
    ensures Tick(left) == None <==> left == None
    ensures Rank(Tick(left)) == if left == None then 0 else Rank(left) - 1
  {
  }

  lemma SendingStep(last: Option<seq<Byte>>, events: seq<Event>, left: Deadline)
    ensures left == Some(0) ==> Sending(last, events, left) == WriteRun(0, events, Ended(last))
    ensures left == None && events == [] ==> Sending(last, events, left) == WriteRun(1, [], Waiting)
    ensures left != Some(0) && (left != None || events != []) ==>
              var (r, rest) := ReadFrom(Hunting, events);
              Sending(last, events, left) == After(1, Resume(last, r, rest, Tick(left)))
  {
    hide ReadFrom, Protocol;
  }

  lemma SkippingStep(data: seq<Byte>, events: seq<Event>, left: Deadline)
    ensures Protocol(data) == SERIAL_PROTO_ACK || left == Some(0) ==>
              Skipping(data, events, left) == WriteRun(0, events, Ended(Some(data)))
    ensures Protocol(data) != SERIAL_PROTO_ACK && left == None && events == [] ==>
              Skipping(data, events, left) == WriteRun(0, [], Waiting)
    ensures Protocol(data) != SERIAL_PROTO_ACK && left != Some(0) && (left != None || events != []) ==>
              var (r, rest) := ReadFrom(Hunting, events);
              Skipping(data, events, left) == Resume(Some(data), r, rest, Tick(left))
  {
    hide ReadFrom, Protocol;
  }

  lemma VerdictOf(seqno: int, ending: Ending)
    ensures Verdict(seqno, ending) ==
            if ending.Waiting? then None else Some(ending.last.Some? && AckSeqno(ending.last.value) == seqno)
  {
  }

  lemma OneCopy(frame: seq<Byte>)
    ensures Copies(frame, 1) == frame
  {
    assert Copies(frame, 0) == [];
  }

  function Later(o: Outcome, n: nat): Outcome {
    o.(copies := o.copies + n)
  }

  lemma OneRead(seqno: int, events: seq<Event>)
    ensures events == [] ==> RunSender(seqno, events) == Outcome(0, [], false)
    ensures events != [] ==>
              var (r, rest) := ReadFrom(Hunting, events);
              |rest| < |events| && RunSender(seqno, events) == Continue(React(seqno, r), RunSender(seqno, rest), rest)
  {
    ReadShrinks(Hunting, events);
  }

  lemma NoCopies(frame: seq<Byte>)
    ensures Copies(frame, 0) == []
  {
  }

  lemma OneMoreCopy(sent: seq<Byte>, frame: seq<Byte>, n: nat)
    requires n > 0
    ensures sent + Copies(frame, n - 1) + frame == sent + Copies(frame, n)
  {
  }

  lemma SentTwice(sent: seq<Byte>, frame: seq<Byte>, m: nat, n: nat)
    ensures sent + Copies(frame, m) + Copies(frame, n) == sent + Copies(frame, m + n)
  {
    hide Copies;
    CopiesAdd(frame, m, n);
    assert sent + Copies(frame, m) + Copies(frame, n) == sent + (Copies(frame, m) + Copies(frame, n));
  }

  lemma {:induction false} CopiesAdd(frame: seq<Byte>, m: nat, n: nat)
    ensures Copies(frame, m) + Copies(frame, n) == Copies(frame, m + n)
  {
    if n > 0 {
      CopiesAdd(frame, m, n - 1);
      assert Copies(frame, m) + Copies(frame, n) == Copies(frame, m) + Copies(frame, n - 1) + frame;
    }
  }
}
