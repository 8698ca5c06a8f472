/**
 What a deadline does to the host's sender: a call that it cuts short compares the number of whatever frame it read
 last, acknowledgement or not.
 */
module SenderDeadline {
  import opened Words
  import opened Wrappers
  import opened Packet
  import opened Hdlc
  import opened HdlcResync
  import opened SimpleAM
  import opened SenderRefinement

  const SERIAL_PROTO_PACKET_NOACK := 69

  /** The frames that are read, and skipped, before the first acknowledgement. */
  function Skipped(events: seq<Event>): seq<seq<Byte>>
    decreases |events|
  {
    if events == [] then []
    else
      var (r, rest) := ReadFrom(Hunting, events);
      ReadShrinks(Hunting, events);
      match r
      case TimedOut => Skipped(rest)
      case Received(data, _) => if Protocol(data) == SERIAL_PROTO_ACK then [] else [data] + Skipped(rest)
  }

  /** No frame to be skipped has the number as its second byte. */
  ghost predicate NoneCarries(seqno: int, events: seq<Event>) {
    forall i :: 0 <= i < |Skipped(events)| ==> AckSeqno(Skipped(events)[i]) != seqno
  }

  /** A call that returns True has read an acknowledgement of its own number. */
  predicate Honest(seqno: int, ending: Ending) {
    Verdict(seqno, ending) == Some(true) ==>
      ending.last.Some? && Protocol(ending.last.value) == SERIAL_PROTO_ACK && AckSeqno(ending.last.value) == seqno
  }

  /** The last frame of a call is an acknowledgement, or one that it skipped, or one it had before. */
  ghost predicate Explained(last: Option<seq<Byte>>, events: seq<Event>, ending: Ending) {
    ending.Ended? && ending.last != last ==>
      ending.last.Some? && (Protocol(ending.last.value) == SERIAL_PROTO_ACK || ending.last.value in Skipped(events))
  }

  lemma {:induction false} ResumeExplained(last: Option<seq<Byte>>, events: seq<Event>, left: Deadline)
    ensures var (r, rest) := ReadFrom(Hunting, events);
            Explained(last, events, Resume(last, r, rest, left).ending)
    decreases |events|, Rank(left)
  {
    hide ReadFrom, Protocol, AckSeqno, Sending, Skipping;
    var (r, rest) := ReadFrom(Hunting, events);
    ReadShrinks(Hunting, events);
    NothingToRead();
    if r.Received? {
      SkippingStep(r.data, rest, left);
      if Protocol(r.data) != SERIAL_PROTO_ACK && left != Some(0) && (left != None || rest != []) {
        TickDown(left);
        ResumeExplained(Some(r.data), rest, Tick(left));
      }
    } else {
      SendingStep(last, rest, left);
      if left != Some(0) && (left != None || rest != []) {
        TickDown(left);
        ResumeExplained(last, rest, Tick(left));
      }
    }
  }

  lemma NothingToRead()
    ensures ReadFrom(Hunting, []) == (TimedOut, []) && Skipped([]) == []
  {
  }

  /** Every skipped frame can be the last one that a call reads before its deadline. */
  lemma {:induction false} Reach(events: seq<Event>, i: nat) returns (k: nat)
    requires i < |Skipped(events)|
    ensures k > 0 && forall last :: Sending(last, events, Some(k)).ending == Ended(Some(Skipped(events)[i]))
    decreases |events|
  {
    hide ReadFrom, Protocol, AckSeqno, Sending, Skipping;
    var (r, rest) := ReadFrom(Hunting, events);
    ReadShrinks(Hunting, events);
    var n := 0;
    if r.TimedOut? {
      n := Reach(rest, i);
    } else {
      if i > 0 {
        n := Reach(rest, i - 1);
        SendingStep(Some(r.data), rest, Some(n));
      }
      SkippingStep(r.data, rest, Some(n));
    }
    k := n + 1;
    forall last
      ensures Sending(last, events, Some(k)).ending == Ended(Some(Skipped(events)[i]))
    {
      SendingStep(last, events, Some(k));
    }
  }

  lemma {:induction false} SkippedAreData(events: seq<Event>, i: nat)
    requires i < |Skipped(events)|
    ensures Protocol(Skipped(events)[i]) != SERIAL_PROTO_ACK
    decreases |events|
  {
    hide ReadFrom, Protocol;
    var (r, rest) := ReadFrom(Hunting, events);
    ReadShrinks(Hunting, events);
    if r.TimedOut? {
      SkippedAreData(rest, i);
    } else if i > 0 {
      SkippedAreData(rest, i - 1);
    }
  }

  /** The call is honest under every deadline if and only if no frame to be skipped has its number as second byte. */
  lemma HonestExactly(seqno: int, events: seq<Event>)
    ensures (forall k: nat :: Honest(seqno, Sending(None, events, Some(k)).ending)) <==>
            NoneCarries(seqno, events)
  {
    hide ReadFrom, Protocol, AckSeqno, Sending, Skipping, Skipped;
    if NoneCarries(seqno, events) {
      forall k: nat
        ensures Honest(seqno, Sending(None, events, Some(k)).ending)
      {
        SendingStep(None, events, Some(k));
        if k > 0 {
          ResumeExplained(None, events, Tick(Some(k)));
        }
      }
    } else {
      var i :| 0 <= i < |Skipped(events)| && AckSeqno(Skipped(events)[i]) == seqno;
      var k := Reach(events, i);
      SkippedAreData(events, i);
      assert !Honest(seqno, Sending(None, events, Some(k)).ending);
    }
  }

  /** Where every frame of the mote's own has dispatch byte 0, only the sequence number 0 is at risk. */
  lemma HonestUnlessZero(seqno: int, events: seq<Event>, k: nat)
    requires forall i :: 0 <= i < |Skipped(events)| ==> AckSeqno(Skipped(events)[i]) == 0
    ensures seqno != 0 ==> Honest(seqno, Sending(None, events, Some(k)).ending)
  {
    hide AckSeqno, Sending, Skipped, Honest;
    HonestExactly(seqno, events);
  }

  /** A call whose deadline passes while it skips a data frame with its number as dispatch byte returns True. */
  lemma CutShort(seqno: Byte)
    ensures var w := Sending(None, Arrivals(WireFrame([SERIAL_PROTO_PACKET_NOACK, seqno])), Some(1));
            Verdict(seqno, w.ending) == Some(true) && !Honest(seqno, w.ending)
  {
    var body: seq<Byte> := [SERIAL_PROTO_PACKET_NOACK, seqno];
    assert Slice(body, 0, 1) == [SERIAL_PROTO_PACKET_NOACK] && Slice(body, 1, 2) == [seqno];
    OneByteNumber(SERIAL_PROTO_PACKET_NOACK);
    OneByteNumber(seqno);
    hide ReadFrom, Sending, Skipping, WireFrame, Arrivals;
    FrameThenRest(body, []);
    var events := Arrivals(WireFrame(body));
    assert events + [] == events;
    SendingStep(None, events, Some(1));
    SkippingStep(body, [], Some(0));
  }

  lemma OneByteNumber(b: Byte)
    ensures DecodeBE([b]) == b
  {
    var v: seq<int> := [b];
    assert v[..0] == [];
  }

  /** Without a deadline a call that ends has read an acknowledgement last. */
  lemma {:induction false} ForeverHonest(last: Option<seq<Byte>>, events: seq<Event>)
    requires events != []
    ensures var (r, rest) := ReadFrom(Hunting, events);
            var ending := Resume(last, r, rest, None).ending;
            ending.Ended? ==> ending.last.Some? && Protocol(ending.last.value) == SERIAL_PROTO_ACK
    decreases |events|
  {
    hide ReadFrom, Protocol, Sending, Skipping;
    var (r, rest) := ReadFrom(Hunting, events);
    ReadShrinks(Hunting, events);
    if r.Received? {
      SkippingStep(r.data, rest, None);
      if Protocol(r.data) != SERIAL_PROTO_ACK && rest != [] {
        ForeverHonest(Some(r.data), rest);
      }
    } else {
      SendingStep(last, rest, None);
      if rest != [] {
        ForeverHonest(last, rest);
      }
    }
  }

  // ---------- Two calls in a row ----------

  /** The first acknowledgement that is read, and the events behind it. */
  function FirstAck(events: seq<Event>): Option<(seq<Byte>, seq<Event>)>
    decreases |events|
  {
    if events == [] then None
    else
      var (r, rest) := ReadFrom(Hunting, events);
      ReadShrinks(Hunting, events);
      match r
      case TimedOut => FirstAck(rest)
      case Received(data, _) => if Protocol(data) == SERIAL_PROTO_ACK then Some((data, rest)) else FirstAck(rest)
  }

  /** The same for what a second call may skip, if the first acknowledgement does not end the write. */
  ghost predicate NoneCarriesTwice(seqno: int, events: seq<Event>) {
    && NoneCarries(seqno, events)
    && match FirstAck(events)
       case Some((data, rest)) => AckSeqno(data) != seqno ==> NoneCarries(seqno, rest)
       case None => true
  }

  /** A call either reads the first acknowledgement, or leaves only frames that it could have skipped itself. */
  ghost predicate LeavesLess(events: seq<Event>, w: WriteRun) {
    || (w.ending.Ended? && w.ending.last.Some? && FirstAck(events) == Some((w.ending.last.value, w.rest)))
    || forall d :: d in Skipped(w.rest) ==> d in Skipped(events)
  }

  lemma {:induction false} ResumeLeaves(last: Option<seq<Byte>>, events: seq<Event>, left: Deadline)
    ensures var (r, rest) := ReadFrom(Hunting, events); LeavesLess(events, Resume(last, r, rest, left))
    decreases |events|, Rank(left)
  {
    hide ReadFrom, Protocol, AckSeqno, Sending, Skipping;
    var (r, rest) := ReadFrom(Hunting, events);
    ReadShrinks(Hunting, events);
    NothingToRead();
    if r.Received? {
      SkippingStep(r.data, rest, left);
      if Protocol(r.data) != SERIAL_PROTO_ACK && left != Some(0) && (left != None || rest != []) {
        TickDown(left);
        ResumeLeaves(Some(r.data), rest, Tick(left));
      }
    } else {
      SendingStep(last, rest, left);
      if left != Some(0) && (left != None || rest != []) {
        TickDown(left);
        ResumeLeaves(last, rest, Tick(left));
      }
    }
  }

  /** With time enough a call reads the first acknowledgement. */
  lemma {:induction false} ReachAck(events: seq<Event>) returns (k: nat)
    requires FirstAck(events).Some?
    ensures k > 0 && forall last :: var w := Sending(last, events, Some(k));
              w.ending == Ended(Some(FirstAck(events).value.0)) && w.rest == FirstAck(events).value.1
    decreases |events|
  {
    hide ReadFrom, Protocol, AckSeqno, Sending, Skipping;
    var (r, rest) := ReadFrom(Hunting, events);
    ReadShrinks(Hunting, events);
    var n := 0;
    if r.TimedOut? {
      n := ReachAck(rest);
    } else {
      if Protocol(r.data) != SERIAL_PROTO_ACK {
        n := ReachAck(rest);
        SendingStep(Some(r.data), rest, Some(n));
      }
      SkippingStep(r.data, rest, Some(n));
    }
    k := n + 1;
    forall last
      ensures var w := Sending(last, events, Some(k));
              w.ending == Ended(Some(FirstAck(events).value.0)) && w.rest == FirstAck(events).value.1
    {
      SendingStep(last, events, Some(k));
    }
  }

  lemma OneCallLeaves(events: seq<Event>, left: Deadline)
    ensures left != None ==> LeavesLess(events, Sending(None, events, left))
  {
    hide ReadFrom, Sending, Skipping;
    SendingStep(None, events, left);
    if left != None && left != Some(0) {
      ResumeLeaves(None, events, Tick(left));
    }
  }

  /** What the first call of two leaves cannot mislead the second. */
  lemma SecondCallHonest(seqno: int, events: seq<Event>, first: nat)
    requires NoneCarriesTwice(seqno, events)
    ensures var w := Sending(None, events, Some(first));
            Verdict(seqno, w.ending) != Some(true) ==> NoneCarries(seqno, w.rest)
  {
    hide Sending, Skipped, FirstAck, AckSeqno;
    OneCallLeaves(events, Some(first));
    var w := Sending(None, events, Some(first));
    if forall d :: d in Skipped(w.rest) ==> d in Skipped(events) {
      forall i | 0 <= i < |Skipped(w.rest)|
        ensures AckSeqno(Skipped(w.rest)[i]) != seqno
      {
        assert Skipped(w.rest)[i] in Skipped(w.rest);
      }
    }
  }

  /**
   A write of two calls with deadlines returns True only on its own acknowledgement, whatever the deadlines, if and
   only if no frame to be skipped has its number as second byte: none before the first acknowledgement, and, if that
   has another number, none before the next one either.
   */
  lemma WriteHonestExactly(seqno: int, events: seq<Event>)
    ensures (forall first: nat, second: nat :: Honest(seqno, TwoCalls(seqno, events, first, second).ending)) <==>
            NoneCarriesTwice(seqno, events)
  {
    hide Sending, Skipped, FirstAck, AckSeqno, Honest, Verdict;
    HonestExactly(seqno, events);
    if NoneCarriesTwice(seqno, events) {
      forall first: nat, second: nat
        ensures Honest(seqno, TwoCalls(seqno, events, first, second).ending)
      {
        SecondCallHonest(seqno, events, first);
        HonestExactly(seqno, Sending(None, events, Some(first)).rest);
      }
    } else if !NoneCarries(seqno, events) {
      var first: nat :| !Honest(seqno, Sending(None, events, Some(first)).ending);
      DishonestReturnsTrue(seqno, Sending(None, events, Some(first)).ending);
      assert !Honest(seqno, TwoCalls(seqno, events, first, 0).ending);
    } else {
      var first, second := MisledTwice(seqno, events);
      assert !Honest(seqno, TwoCalls(seqno, events, first, second).ending);
    }
  }

  lemma DishonestReturnsTrue(seqno: int, ending: Ending)
    requires !Honest(seqno, ending)
    ensures Verdict(seqno, ending) == Some(true)
  {
  }

  /** The first call takes a wrong acknowledgement, the second is cut short on a frame behind it. */
  lemma MisledTwice(seqno: int, events: seq<Event>) returns (first: nat, second: nat)
    requires FirstAck(events).Some? && AckSeqno(FirstAck(events).value.0) != seqno
    requires !NoneCarries(seqno, FirstAck(events).value.1)
    ensures !Honest(seqno, TwoCalls(seqno, events, first, second).ending)
  {
    hide Sending, Skipped, FirstAck, AckSeqno, Honest;
    var rest := FirstAck(events).value.1;
    first := ReachAck(events);
    HonestExactly(seqno, rest);
    second :| !Honest(seqno, Sending(None, rest, Some(second)).ending);
  }

  /** Where every frame of the mote's own has dispatch byte 0, the same holds of both calls. */
  lemma WriteHonestUnlessZero(seqno: int, events: seq<Event>, first: nat, second: nat)
    requires forall i :: 0 <= i < |Skipped(events)| ==> AckSeqno(Skipped(events)[i]) == 0
    requires FirstAck(events).Some? ==>
               var rest := FirstAck(events).value.1;
               forall i :: 0 <= i < |Skipped(rest)| ==> AckSeqno(Skipped(rest)[i]) == 0
    ensures seqno != 0 ==> Honest(seqno, TwoCalls(seqno, events, first, second).ending)
  {
    hide AckSeqno, TwoCalls, Skipped, Honest, FirstAck;
    WriteHonestExactly(seqno, events);
    if seqno != 0 {
      assert NoneCarries(seqno, events);
      assert FirstAck(events).Some? ==> NoneCarries(seqno, FirstAck(events).value.1);
    }
  }

  /** No frame is skipped before a wrong acknowledgement, and yet the second call can be cut short behind it. */
  lemma WriteCutShort(seqno: Byte, other: Byte)
    requires other != seqno
    ensures var events := Arrivals(WireFrame([SERIAL_PROTO_ACK, other])) +
                          Arrivals(WireFrame([SERIAL_PROTO_PACKET_NOACK, seqno]));
            var w := TwoCalls(seqno, events, 1, 1);
            Skipped(events) == [] && Verdict(seqno, w.ending) == Some(true) && !Honest(seqno, w.ending)
  {
    var ack: seq<Byte>, data := [SERIAL_PROTO_ACK, other], Arrivals(WireFrame([SERIAL_PROTO_PACKET_NOACK, seqno]));
    assert Slice(ack, 0, 1) == [SERIAL_PROTO_ACK] && Slice(ack, 1, 2) == [other];
    OneByteNumber(SERIAL_PROTO_ACK);
    OneByteNumber(other);
    hide ReadFrom, Sending, Skipping, WireFrame, Arrivals, Honest;
    FrameThenRest(ack, data);
    CutShort(seqno);
    var events := Arrivals(WireFrame(ack)) + data;
    SendingStep(None, events, Some(1));
    SkippingStep(ack, data, Some(0));
    NothingToRead();
  }

  // ---------- A call in terms of its reads ----------

  /** The events that are left behind the first `n` reads. */
  function Behind(events: seq<Event>, n: nat): seq<Event>
    decreases n
  {
    if n == 0 then events else Behind(ReadFrom(Hunting, events).1, n - 1)
  }

  /** A frame with the protocol byte of an acknowledgement. */
  predicate IsAck(r: ReadResult) {
    r.Received? && r.data != [] && r.data[0] == 67
  }

  /** One copy is sent before the first read, if it is due, and one before each read behind a time-out. */
  function Sends(due: bool, r: seq<ReadResult>): nat
    decreases |r|
  {
    if r == [] then 0 else (if due then 1 else 0) + Sends(r[0].TimedOut?, r[1..])
  }

  /** The last frame read, if any was, else the one before. */
  function LastFrame(last: Option<seq<Byte>>, r: seq<ReadResult>): Option<seq<Byte>>
    decreases |r|
  {
    if r == [] then last else LastFrame(if r[0].Received? then Some(r[0].data) else last, r[1..])
  }

  /** The call reads `p` times: until an acknowledgement comes or the deadline passes, which each read looks at once. */
  ghost predicate ReadsUntil(r: seq<ReadResult>, left: Deadline, ending: Ending) {
    && (forall i :: 0 <= i < |r| - 1 ==> !IsAck(r[i]))
    && match left
       case Some(k) => ending.Ended? && |r| <= k && (|r| == k || (r != [] && IsAck(r[|r| - 1])))
       case None => ending.Ended? <==> r != [] && IsAck(r[|r| - 1])
  }

  /** What is left of a call is `p` more reads, of which the first is preceded by a copy if that is due. */
  ghost predicate RunReads(
    due: bool, last: Option<seq<Byte>>, events: seq<Event>, left: Deadline, w: WriteRun, p: nat)
  {
    var r := Reads(events, p);
    && |r| == p && w.rest == Behind(events, p) && ReadsUntil(r, left, w.ending)
    && (w.ending.Ended? ==> w.ending.last == LastFrame(last, r) && w.copies == Sends(due, r))
    && (w.ending.Waiting? ==> w.rest == [] && w.copies == Sends(due, r + [TimedOut]))
  }

  lemma {:induction false} RunIsReads(due: bool, last: Option<seq<Byte>>, events: seq<Event>, left: Deadline)
    returns (p: nat)
    requires !due ==> last.Some? && Protocol(last.value) != SERIAL_PROTO_ACK
    ensures RunReads(due, last, events, left,
                     if due then Sending(last, events, left) else Skipping(last.value, events, left), p)
    decreases |events|, Rank(left)
  {
    hide ReadFrom, Protocol, Sending, Skipping, RunReads, IsAck;
    if due {
      SendingStep(last, events, left);
    } else {
      SkippingStep(last.value, events, left);
    }
    if left == Some(0) || (left == None && events == []) {
      p := 0;
      NoReads(due, last, events, left);
    } else {
      var (f, rest) := ReadFrom(Hunting, events);
      ReadShrinks(Hunting, events);
      TickDown(left);
      if f.Received? {
        AckByte(f);
      } else {
        NoAck(f);
      }
      if f.Received? && IsAck(f) {
        SkippingStep(f.data, rest, Tick(left));
        p := 1;
        AckEnds(due, last, events, left, f, rest);
      } else {
        var next := if f.Received? then Some(f.data) else last;
        var q := RunIsReads(f.TimedOut?, next, rest, Tick(left));
        p := q + 1;
        RunReadsStep(due, last, events, left, f, rest, Resume(last, f, rest, Tick(left)), q);
      }
    }
  }

  lemma AckByte(f: ReadResult)
    requires f.Received?
    ensures IsAck(f) <==> Protocol(f.data) == SERIAL_PROTO_ACK
  {
    FirstBytes(f.data);
  }

  lemma NoAck(f: ReadResult)
    requires f.TimedOut?
    ensures !IsAck(f)
  {
  }

  lemma NoReads(due: bool, last: Option<seq<Byte>>, events: seq<Event>, left: Deadline)
    ensures left == Some(0) ==> RunReads(due, last, events, left, WriteRun(0, events, Ended(last)), 0)
    ensures left == None && events == [] ==>
              RunReads(due, last, events, left, WriteRun(if due then 1 else 0, [], Waiting), 0)
  {
    assert Reads(events, 0) == [] && [] + [TimedOut] == [TimedOut];
    assert Sends(due, [TimedOut]) == if due then 1 else 0;
  }

  lemma AckEnds(
    due: bool, last: Option<seq<Byte>>, events: seq<Event>, left: Deadline, f: ReadResult, rest: seq<Event>)
    requires ReadFrom(Hunting, events) == (f, rest) && IsAck(f) && left != Some(0)
    ensures RunReads(due, last, events, left, WriteRun(if due then 1 else 0, rest, Ended(Some(f.data))), 1)
  {
    hide ReadFrom;
    OneReadMore(due, last, events, f, rest, 0);
    assert Reads(rest, 0) == [] && [f] + [] == [f] && Sends(false, []) == 0;
  }

  lemma RunReadsStep(
    due: bool, last: Option<seq<Byte>>, events: seq<Event>, left: Deadline, f: ReadResult, rest: seq<Event>,
    w: WriteRun, q: nat)
    requires ReadFrom(Hunting, events) == (f, rest) && !IsAck(f) && left != Some(0)
    requires RunReads(f.TimedOut?, if f.Received? then Some(f.data) else last, rest, Tick(left), w, q)
    ensures RunReads(due, last, events, left, After(if due then 1 else 0, w), q + 1)
  {
    hide ReadFrom, IsAck, ReadsUntil, Reads, Sends, LastFrame, Behind;
    OneReadMore(due, last, events, f, rest, q);
    StillUntil(f, Reads(rest, q), left, w.ending);
  }

  lemma OneReadMore(
    due: bool, last: Option<seq<Byte>>, events: seq<Event>, f: ReadResult, rest: seq<Event>, q: nat)
    requires ReadFrom(Hunting, events) == (f, rest)
    ensures var r, r' := Reads(events, q + 1), Reads(rest, q);
            && r == [f] + r' && Behind(events, q + 1) == Behind(rest, q)
            && LastFrame(last, r) == LastFrame(if f.Received? then Some(f.data) else last, r')
            && Sends(due, r) == (if due then 1 else 0) + Sends(f.TimedOut?, r')
            && Sends(due, r + [TimedOut]) == (if due then 1 else 0) + Sends(f.TimedOut?, r' + [TimedOut])
  {
    hide ReadFrom;
    var r, r' := Reads(events, q + 1), Reads(rest, q);
    assert r == [f] + r' && r[1..] == r' && (r + [TimedOut])[1..] == r' + [TimedOut];
  }

  lemma StillUntil(f: ReadResult, r: seq<ReadResult>, left: Deadline, ending: Ending)
    requires left != Some(0) && !IsAck(f) && ReadsUntil(r, Tick(left), ending)
    ensures ReadsUntil([f] + r, left, ending)
  {
    hide IsAck;
    var s := [f] + r;
    forall i | 0 <= i < |s| - 1
      ensures !IsAck(s[i])
    {
      assert i > 0 ==> s[i] == r[i - 1];
    }
    assert r != [] ==> s[|s| - 1] == r[|r| - 1];
  }

  /**
   A call of `SimpleAM.write` reads on until the first acknowledgement, or as often as its deadline allows; it sends
   a copy before the first read and again before every read behind a time-out, and goes by the last frame it has read.
   */
  lemma CallIsReads(events: seq<Event>, left: Deadline) returns (p: nat)
    ensures RunReads(true, None, events, left, Sending(None, events, left), p)
  {
    p := RunIsReads(true, None, events, left);
  }
}
