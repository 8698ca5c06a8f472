/**
 The stop-and-wait protocol between the host's blocking sender and a mote that acknowledges every data frame,
 over channels that keep order and corrupt nothing but may lose frames.
 */
module StopAndWait {
  import opened Words
  import opened Wrappers
  import opened Packet
  import opened Hdlc
  import opened SimpleAM

  type Message = seq<Byte>

  /** A data frame on its way to the mote. No move looks at `nth`: it records which write sent the frame. */
  datatype Down = Down(nth: nat, seqno: int, message: Message)

  /** A frame on its way to the host: an acknowledgement, or data of the mote's own. No move looks at `nth`. */
  datatype Up = Ack(nth: nat, seqno: int) | Data(data: seq<Byte>)

  /**
   `seqno` is the sender's field; `written` lists the messages of all writes started, of which `returned` have
   returned; `log` lists the data frames the mote has received.
   */
  datatype State = State(
    seqno: int, waiting: bool, written: seq<Message>, returned: nat,
    down: seq<Down>, up: seq<Up>, log: seq<Down>)

  datatype Move =
    | StartWrite(message: Message)
    | ReadTimesOut
    | ReadNext
    | HostReads
    | LoseDown(i: nat)
    | LoseUp(i: nat)
    | MoteReceives
    | MoteSends(data: seq<Byte>)

  /**
   Before the first write, with any sequence number and with what an earlier session has left in the channels.
   Leftover frames belong to no write of this session: they have the number 0.
   */
  function Start(seqno: Byte, down: seq<Down>, up: seq<Up>): State {
    State(seqno, false, [], 0, down, up, [])
  }

  const INITIAL: State := Start(0, [], [])

  /** The bytes of a frame as the host's reader returns them. */
  function UpBytes(u: Up): seq<Byte> {
    match u
    case Ack(_, seqno) => [SERIAL_PROTO_ACK, seqno % 256]
    case Data(data) => data
  }

  predicate Enabled(s: State, m: Move) {
    match m
    case StartWrite(_) => !s.waiting
    case ReadTimesOut => s.waiting
    case ReadNext => s.waiting && s.up != []
    case HostReads => !s.waiting && s.up != []
    case LoseDown(i) => i < |s.down|
    case LoseUp(i) => i < |s.up|
    case MoteReceives => s.down != []
    case MoteSends(data) => Protocol(data) != SERIAL_PROTO_ACK
  }

  /** The frame the sender has in hand, put on the line once more. */
  function Transmit(s: State): State
    requires s.written != []
  {
    s.(down := s.down + [Down(|s.written|, s.seqno, s.written[|s.written| - 1])])
  }

  function Next(s: State, m: Move): State
    requires Enabled(s, m) && (s.waiting ==> s.written != [])
  {
    match m
    case StartWrite(message) =>
      Transmit(s.(seqno := (s.seqno + 1) % 256, waiting := true, written := s.written + [message]))
    case ReadTimesOut => Transmit(s)
    case ReadNext =>
      var read := s.(up := s.up[1..]);
      (match React(s.seqno, Received(UpBytes(s.up[0]), true))
       case Finish => read.(waiting := false, returned := s.returned + 1)
       case Skip => read
       case Resend => Transmit(read))
    case HostReads => s.(up := s.up[1..])
    case LoseDown(i) => s.(down := s.down[..i] + s.down[i + 1..])
    case LoseUp(i) => s.(up := s.up[..i] + s.up[i + 1..])
    case MoteReceives =>
      s.(down := s.down[1..], log := s.log + [s.down[0]], up := s.up + [Ack(s.down[0].nth, s.down[0].seqno)])
    case MoteSends(data) => s.(up := s.up + [Data(data)])
  }

  /** The state after a run, if every move in it was possible. */
  function Run(start: State, moves: seq<Move>): Option<State> {
    if moves == [] then Some(start)
    else
      match Run(start, moves[..|moves| - 1])
      case None => None
      case Some(s) =>
        if Enabled(s, moves[|moves| - 1]) && (s.waiting ==> s.written != [])
        then Some(Next(s, moves[|moves| - 1]))
        else None
  }

  // ---------- What every step keeps ----------

  /** The number of the last write in the log. */
  function LastHeard(log: seq<Down>): nat {
    if log == [] then 0 else log[|log| - 1].nth
  }

  /** A data frame belongs to a write that was started and carries its number and message. */
  predicate Genuine(base: Byte, written: seq<Message>, d: Down) {
    1 <= d.nth <= |written| && d.seqno == (base + d.nth) % 256 && d.message == written[d.nth - 1]
  }

  /** Data frames in flight are in order and belong to writes from the `lo`th on. */
  predicate DownOk(base: Byte, down: seq<Down>, written: seq<Message>, lo: nat) {
    && (forall i :: 0 <= i < |down| ==> Genuine(base, written, down[i]) && lo <= down[i].nth)
    && forall i, j :: 0 <= i < j < |down| ==> down[i].nth <= down[j].nth
  }

  predicate UpFrameOk(base: Byte, u: Up, lo: nat, hi: nat) {
    match u
    case Ack(nth, seqno) => 1 <= nth && lo <= nth <= hi && seqno == (base + nth) % 256
    case Data(data) => Protocol(data) != SERIAL_PROTO_ACK
  }

  /** Acknowledgements in flight are in order and belong to writes from the `lo`th to the `hi`th. */
  predicate UpOk(base: Byte, up: seq<Up>, lo: nat, hi: nat) {
    && (forall i :: 0 <= i < |up| ==> UpFrameOk(base, up[i], lo, hi))
    && forall i, j :: 0 <= i < j < |up| && up[i].Ack? && up[j].Ack? ==> up[i].nth <= up[j].nth
  }

  /** The log starts with the first write, and each frame repeats a write or goes on to the next one. */
  ghost predicate LogOk(base: Byte, log: seq<Down>, written: seq<Message>) {
    && (forall i :: 0 <= i < |log| ==> Genuine(base, written, log[i]))
    && (log != [] ==> log[0].nth == 1)
    && forall i, j :: 0 <= i < j < |log| && j == i + 1 ==> log[i].nth <= log[j].nth <= log[i].nth + 1
  }

  /** The sender is in the middle of at most one write, and only that write and the last one are in flight. */
  ghost predicate Invariant(base: Byte, s: State) {
    && s.seqno == (base + |s.written|) % 256
    && |s.written| == s.returned + (if s.waiting then 1 else 0)
    && s.returned <= LastHeard(s.log) <= |s.written|
    && DownOk(base, s.down, s.written, LastHeard(s.log))
    && UpOk(base, s.up, s.returned, LastHeard(s.log))
    && LogOk(base, s.log, s.written)
  }

  lemma DownAppend(base: Byte, down: seq<Down>, written: seq<Message>, lo: nat, d: Down)
    requires DownOk(base, down, written, lo) && Genuine(base, written, d) && d.nth == |written| && lo <= d.nth
    ensures DownOk(base, down + [d], written, lo)
  {
  }

  lemma DownRemove(base: Byte, down: seq<Down>, written: seq<Message>, lo: nat, i: nat)
    requires DownOk(base, down, written, lo) && i < |down|
    ensures DownOk(base, down[..i] + down[i + 1..], written, lo)
  {
  }

  lemma DownTail(base: Byte, down: seq<Down>, written: seq<Message>, lo: nat)
    requires DownOk(base, down, written, lo) && down != []
    ensures Genuine(base, written, down[0]) && lo <= down[0].nth && DownOk(base, down[1..], written, down[0].nth)
  {
  }

  lemma OneMoreWritten(base: Byte, s: State, message: Message)
    requires DownOk(base, s.down, s.written, LastHeard(s.log)) && LogOk(base, s.log, s.written)
    ensures DownOk(base, s.down, s.written + [message], LastHeard(s.log)) && LogOk(base, s.log, s.written + [message])
  {
    assert forall d :: Genuine(base, s.written, d) ==> Genuine(base, s.written + [message], d);
  }

  lemma UpRemove(base: Byte, up: seq<Up>, lo: nat, hi: nat, i: nat)
    requires UpOk(base, up, lo, hi) && i < |up|
    ensures UpOk(base, up[..i] + up[i + 1..], lo, hi)
  {
    hide UpFrameOk;
  }

  lemma UpTail(base: Byte, up: seq<Up>, lo: nat, hi: nat)
    requires UpOk(base, up, lo, hi) && up != []
    ensures UpFrameOk(base, up[0], lo, hi) && UpOk(base, up[1..], lo, hi)
    ensures up[0].Ack? ==> UpOk(base, up[1..], up[0].nth, hi)
  {
  }

  lemma UpAppend(base: Byte, up: seq<Up>, lo: nat, hi: nat, u: Up, hi': nat)
    requires UpOk(base, up, lo, hi) && hi <= hi' && UpFrameOk(base, u, lo, hi') && (u.Ack? ==> u.nth == hi')
    ensures UpOk(base, up + [u], lo, hi')
  {
  }

  lemma LogAppend(base: Byte, log: seq<Down>, written: seq<Message>, d: Down)
    requires LogOk(base, log, written) && Genuine(base, written, d) && LastHeard(log) <= d.nth <= LastHeard(log) + 1
    ensures LogOk(base, log + [d], written) && LastHeard(log + [d]) == d.nth
  {
  }

  lemma AckRead(nth: nat, seqno: int)
    ensures Protocol(UpBytes(Ack(nth, seqno))) == SERIAL_PROTO_ACK
    ensures AckSeqno(UpBytes(Ack(nth, seqno))) == seqno % 256
  {
    var data := UpBytes(Ack(nth, seqno));
    var p, q := Slice(data, 0, 1), Slice(data, 1, 2);
    assert p == [SERIAL_PROTO_ACK] && q == [seqno % 256];
    assert DecodeBE(p[..0]) == 0 && DecodeBE(q[..0]) == 0;
  }

  lemma InvariantTransmit(base: Byte, s: State)
    requires Invariant(base, s) && s.waiting
    ensures Invariant(base, Transmit(s))
  {
    hide DownOk, UpOk, LogOk;
    DownAppend(base, s.down, s.written, LastHeard(s.log), Down(|s.written|, s.seqno, s.written[|s.written| - 1]));
  }

  lemma InvariantStart(base: Byte, s: State, message: Message)
    requires Invariant(base, s) && !s.waiting
    ensures Invariant(base, Next(s, StartWrite(message)))
  {
    hide DownOk, UpOk, LogOk, Transmit;
    OneMoreWritten(base, s, message);
    InvariantTransmit(base, s.(seqno := (s.seqno + 1) % 256, waiting := true, written := s.written + [message]));
  }

  /** With only two consecutive writes in flight, equal numbers modulo 256 mean the same write. */
  lemma InvariantRead(base: Byte, s: State)
    requires Invariant(base, s) && s.waiting && s.up != []
    ensures Invariant(base, Next(s, ReadNext))
    ensures !Next(s, ReadNext).waiting ==> LastHeard(s.log) == |s.written|
  {
    hide DownOk, UpOk, LogOk, Protocol, AckSeqno;
    UpTail(base, s.up, s.returned, LastHeard(s.log));
    var read := s.(up := s.up[1..]);
    match s.up[0]
    case Data(data) =>
    case Ack(nth, seqno) =>
      AckRead(nth, seqno);
      if AckSeqno(UpBytes(s.up[0])) == s.seqno {
        assert nth == |s.written|;
      } else {
        InvariantTransmit(base, read);
      }
  }

  lemma InvariantReceive(base: Byte, s: State)
    requires Invariant(base, s) && s.down != []
    ensures Invariant(base, Next(s, MoteReceives))
  {
    hide DownOk, UpOk, LogOk;
    var d := s.down[0];
    DownTail(base, s.down, s.written, LastHeard(s.log));
    LogAppend(base, s.log, s.written, d);
    UpAppend(base, s.up, s.returned, LastHeard(s.log), Ack(d.nth, d.seqno), d.nth);
  }

  lemma InvariantKept(base: Byte, s: State, m: Move)
    requires Invariant(base, s) && Enabled(s, m)
    ensures Invariant(base, Next(s, m))
  {
    match m
    case StartWrite(message) => InvariantStart(base, s, message);
    case ReadTimesOut => InvariantTransmit(base, s);
    case ReadNext => InvariantRead(base, s);
    case HostReads => InvariantElsewhere(base, s, m);
    case LoseDown(i) => InvariantElsewhere(base, s, m);
    case LoseUp(i) => InvariantElsewhere(base, s, m);
    case MoteReceives => InvariantReceive(base, s);
    case MoteSends(data) => InvariantElsewhere(base, s, m);
  }

  lemma InvariantElsewhere(base: Byte, s: State, m: Move)
    requires Invariant(base, s) && Enabled(s, m) && (m.HostReads? || m.LoseDown? || m.LoseUp? || m.MoteSends?)
    ensures Invariant(base, Next(s, m))
  {
    hide DownOk, UpOk, LogOk, Protocol;
    match m
    case HostReads => UpTail(base, s.up, s.returned, LastHeard(s.log));
    case LoseDown(i) => DownRemove(base, s.down, s.written, LastHeard(s.log), i);
    case LoseUp(i) => UpRemove(base, s.up, s.returned, LastHeard(s.log), i);
    case MoteSends(data) => UpAppend(base, s.up, s.returned, LastHeard(s.log), Data(data), LastHeard(s.log));
  }

  // ---------- Leftovers of an earlier session ----------

  /** A leftover data frame with a sequence number that fits its byte; the first write carries another. */
  predicate HarmlessDown(base: Byte, d: Down) {
    d.nth == 0 && 0 <= d.seqno < 256 && d.seqno != (base + 1) % 256
  }

  /** An acknowledgement of anything but the first write, or data. */
  predicate HarmlessUp(base: Byte, u: Up) {
    match u
    case Ack(_, seqno) => seqno % 256 != (base + 1) % 256
    case Data(data) => Protocol(data) != SERIAL_PROTO_ACK
  }

  ghost predicate AllHarmless(base: Byte, down: seq<Down>, up: seq<Up>) {
    && (forall i :: 0 <= i < |down| ==> HarmlessDown(base, down[i]))
    && forall i :: 0 <= i < |up| ==> HarmlessUp(base, up[i])
  }

  /** How many frames at the head of the log and of either channel are leftovers, or data of the mote's own. */
  datatype Old = Old(log: nat, down: nat, up: nat)

  predicate Within(s: State, o: Old) {
    o.log <= |s.log| && o.down <= |s.down| && o.up <= |s.up|
  }

  /** The state without its leftovers. */
  function Strip(s: State, o: Old): State
    requires Within(s, o)
  {
    s.(log := s.log[o.log..], down := s.down[o.down..], up := s.up[o.up..])
  }

  /**
   The leftovers are harmless, are all read before the first write returns, and leave the channel to the mote before
   anything new does; what remains without them keeps the invariant.
   */
  ghost predicate Mixed(base: Byte, s: State, o: Old) {
    && Within(s, o)
    && AllHarmless(base, s.down[..o.down], s.up[..o.up]) && AllHarmless(base, s.log[..o.log], [])
    && (o.up > 0 || o.down > 0 ==> s.returned == 0)
    && (o.down > 0 ==> o.log == |s.log| && o.up == |s.up|)
    && Invariant(base, Strip(s, o))
  }

  lemma MixedTransmit(base: Byte, s: State, o: Old)
    requires Mixed(base, s, o) && s.waiting
    ensures s.written != [] && Mixed(base, Transmit(s), o)
  {
    hide Invariant, AllHarmless;
    WaitingHasWritten(base, Strip(s, o));
    InvariantTransmit(base, Strip(s, o));
    assert Strip(Transmit(s), o) == Transmit(Strip(s, o));
    assert Transmit(s).down[..o.down] == s.down[..o.down];
  }

  lemma WaitingHasWritten(base: Byte, s: State)
    requires Invariant(base, s)
    ensures |s.written| == s.returned + (if s.waiting then 1 else 0)
    ensures s.seqno == (base + |s.written|) % 256
  {
  }

  lemma MixedStart(base: Byte, s: State, o: Old, message: Message)
    requires Mixed(base, s, o) && !s.waiting
    ensures Mixed(base, Next(s, StartWrite(message)), o)
  {
    hide Invariant, AllHarmless;
    var m := StartWrite(message);
    InvariantKept(base, Strip(s, o), m);
    assert Strip(Next(s, m), o) == Next(Strip(s, o), m);
    assert Next(s, m).down[..o.down] == s.down[..o.down];
  }

  /** A leftover at the head of the host's channel is skipped, or makes the sender send again. */
  lemma MixedReadOld(base: Byte, s: State, o: Old)
    requires Mixed(base, s, o) && s.waiting && o.up > 0
    ensures s.written != [] && Mixed(base, Next(s, ReadNext), o.(up := o.up - 1)) && Next(s, ReadNext).waiting
  {
    hide Invariant, Protocol, AckSeqno;
    WaitingHasWritten(base, Strip(s, o));
    var read := s.(up := s.up[1..]);
    assert HarmlessUp(base, s.up[..o.up][0]) && s.up[..o.up][0] == s.up[0];
    assert read.up[..o.up - 1] == s.up[..o.up][1..];
    assert Strip(read, o.(up := o.up - 1)) == Strip(s, o);
    MixedTransmit(base, read, o.(up := o.up - 1));
    if s.up[0].Ack? {
      AckRead(s.up[0].nth, s.up[0].seqno);
    }
  }

  lemma MixedReadNew(base: Byte, s: State, o: Old)
    requires Mixed(base, s, o) && s.waiting && s.up != [] && o.up == 0
    ensures s.written != [] && Mixed(base, Next(s, ReadNext), o)
    ensures !Next(s, ReadNext).waiting ==> LastHeard(Strip(s, o).log) == |s.written|
  {
    hide Invariant, AllHarmless, React;
    WaitingHasWritten(base, Strip(s, o));
    InvariantRead(base, Strip(s, o));
    assert s.up[0..] == s.up && s.up[1..][0..] == s.up[1..];
    assert Strip(Next(s, ReadNext), o) == Next(Strip(s, o), ReadNext);
    assert Next(s, ReadNext).down[..o.down] == s.down[..o.down];
    assert s.up[1..][..0] == s.up[..0];
  }

  lemma HarmlessDrop(base: Byte, down: seq<Down>, up: seq<Up>, i: nat)
    requires AllHarmless(base, down, up)
    ensures i < |down| ==> AllHarmless(base, down[..i] + down[i + 1..], up)
    ensures i < |up| ==> AllHarmless(base, down, up[..i] + up[i + 1..])
  {
    hide HarmlessUp, HarmlessDown;
  }

  /** The acknowledgement of a leftover is one itself. */
  lemma HarmlessAck(base: Byte, down: seq<Down>, up: seq<Up>, log: seq<Down>)
    requires AllHarmless(base, down, up) && AllHarmless(base, log, []) && down != []
    ensures AllHarmless(base, down[1..], up + [Ack(down[0].nth, down[0].seqno)])
    ensures AllHarmless(base, log + [down[0]], [])
  {
  }

  lemma HarmlessData(base: Byte, down: seq<Down>, up: seq<Up>, data: seq<Byte>)
    requires AllHarmless(base, down, up) && Protocol(data) != SERIAL_PROTO_ACK
    ensures AllHarmless(base, down, up + [Data(data)])
  {
    hide Protocol;
  }

  /** Dropping one element from a sequence in two parts drops it from the part that has it. */
  lemma DropSlices<T>(s: seq<T>, k: nat, i: nat)
    requires k <= |s| && i < |s|
    ensures var t := s[..i] + s[i + 1..];
            if i < k then t[..k - 1] == s[..k][..i] + s[..k][i + 1..] && t[k - 1..] == s[k..]
            else t[..k] == s[..k] && t[k..] == s[k..][..i - k] + s[k..][i - k + 1..]
  {
  }

  lemma MixedHostReads(base: Byte, s: State, o: Old) returns (o': Old)
    requires Mixed(base, s, o) && Enabled(s, HostReads)
    ensures Mixed(base, Next(s, HostReads), o')
  {
    hide Invariant, AllHarmless;
    o' := MixedLoseUp(base, s, o, 0);
    assert s.up[..0] + s.up[1..] == s.up[1..];
  }

  lemma MixedLoseUp(base: Byte, s: State, o: Old, i: nat) returns (o': Old)
    requires Mixed(base, s, o) && i < |s.up|
    ensures Mixed(base, Next(s, LoseUp(i)), o')
  {
    hide Invariant, AllHarmless;
    WaitingHasWritten(base, Strip(s, o));
    DropSlices(s.up, o.up, i);
    var t := Next(s, LoseUp(i));
    if i < o.up {
      HarmlessDrop(base, s.down[..o.down], s.up[..o.up], i);
      o' := o.(up := o.up - 1);
      assert Strip(t, o') == Strip(s, o);
    } else {
      o' := o;
      InvariantKept(base, Strip(s, o), LoseUp(i - o.up));
      assert Strip(t, o) == Next(Strip(s, o), LoseUp(i - o.up));
    }
  }

  lemma MixedLoseDown(base: Byte, s: State, o: Old, i: nat) returns (o': Old)
    requires Mixed(base, s, o) && i < |s.down|
    ensures Mixed(base, Next(s, LoseDown(i)), o')
  {
    hide Invariant, AllHarmless;
    WaitingHasWritten(base, Strip(s, o));
    DropSlices(s.down, o.down, i);
    var t := Next(s, LoseDown(i));
    if i < o.down {
      o' := MixedLoseOldDown(base, s, o, i);
    } else {
      o' := o;
      InvariantKept(base, Strip(s, o), LoseDown(i - o.down));
      assert Strip(t, o) == Next(Strip(s, o), LoseDown(i - o.down));
    }
  }

  lemma MixedLoseOldDown(base: Byte, s: State, o: Old, i: nat) returns (o': Old)
    requires Mixed(base, s, o) && i < o.down
    ensures Mixed(base, Next(s, LoseDown(i)), o')
  {
    hide Invariant, AllHarmless;
    WaitingHasWritten(base, Strip(s, o));
    DropSlices(s.down, o.down, i);
    HarmlessDrop(base, s.down[..o.down], s.up[..o.up], i);
    o' := o.(down := o.down - 1);
    assert Strip(Next(s, LoseDown(i)), o') == Strip(s, o);
  }

  lemma MixedReceives(base: Byte, s: State, o: Old) returns (o': Old)
    requires Mixed(base, s, o) && s.down != []
    ensures Mixed(base, Next(s, MoteReceives), o')
  {
    hide Invariant, AllHarmless;
    WaitingHasWritten(base, Strip(s, o));
    var t := Next(s, MoteReceives);
    if o.down > 0 {
      HarmlessAck(base, s.down[..o.down], s.up[..o.up], s.log[..o.log]);
      o' := Old(o.log + 1, o.down - 1, o.up + 1);
      assert s.down[..o.down][0] == s.down[0] && t.down[..o'.down] == s.down[..o.down][1..];
      assert t.up[..o'.up] == s.up[..o.up] + [Ack(s.down[0].nth, s.down[0].seqno)];
      assert t.log[..o'.log] == s.log[..o.log] + [s.down[0]];
      assert Strip(t, o') == Strip(s, o);
    } else {
      o' := o;
      InvariantKept(base, Strip(s, o), MoteReceives);
      assert s.down[0..] == s.down && t.down[0..] == t.down && t.down[..0] == s.down[..0];
      assert t.up[..o.up] == s.up[..o.up] && t.log[..o.log] == s.log[..o.log];
      assert Strip(t, o) == Next(Strip(s, o), MoteReceives);
    }
  }

  lemma MixedSends(base: Byte, s: State, o: Old, data: seq<Byte>) returns (o': Old)
    requires Mixed(base, s, o) && Protocol(data) != SERIAL_PROTO_ACK
    ensures Mixed(base, Next(s, MoteSends(data)), o')
  {
    hide Invariant, AllHarmless, Protocol;
    HarmlessData(base, s.down[..o.down], s.up[..o.up], data);
    WaitingHasWritten(base, Strip(s, o));
    var t := Next(s, MoteSends(data));
    if o.down > 0 {
      o' := o.(up := o.up + 1);
      assert t.up[..o'.up] == s.up[..o.up] + [Data(data)];
      assert Strip(t, o') == Strip(s, o);
    } else {
      o' := o;
      InvariantKept(base, Strip(s, o), MoteSends(data));
      assert t.up[..o.up] == s.up[..o.up];
      assert Strip(t, o) == Next(Strip(s, o), MoteSends(data));
    }
  }

  lemma MixedKept(base: Byte, s: State, o: Old, m: Move) returns (o': Old)
    requires Mixed(base, s, o) && Enabled(s, m)
    ensures (s.waiting ==> s.written != []) && Mixed(base, Next(s, m), o')
  {
    hide Mixed, React;
    if s.waiting {
      MixedTransmit(base, s, o);
    }
    o' := o;
    match m
    case StartWrite(message) => MixedStart(base, s, o, message);
    case ReadTimesOut =>
    case ReadNext =>
      if o.up > 0 {
        MixedReadOld(base, s, o);
        o' := o.(up := o.up - 1);
      } else {
        MixedReadNew(base, s, o);
      }
    case HostReads => o' := MixedHostReads(base, s, o);
    case LoseDown(i) => o' := MixedLoseDown(base, s, o, i);
    case LoseUp(i) => o' := MixedLoseUp(base, s, o, i);
    case MoteReceives => o' := MixedReceives(base, s, o);
    case MoteSends(data) => o' := MixedSends(base, s, o, data);
  }

  lemma MixedStartState(base: Byte, down: seq<Down>, up: seq<Up>)
    requires AllHarmless(base, down, up)
    ensures Mixed(base, Start(base, down, up), Old(0, |down|, |up|))
  {
    assert down[..|down|] == down && up[..|up|] == up;
  }

  lemma {:induction false} MixedRun(base: Byte, down: seq<Down>, up: seq<Up>, moves: seq<Move>) returns (o: Old)
    requires AllHarmless(base, down, up) && Run(Start(base, down, up), moves).Some?
    ensures Mixed(base, Run(Start(base, down, up), moves).value, o)
  {
    var start := Start(base, down, up);
    hide Mixed, Next, Enabled, AllHarmless;
    if moves == [] {
      o := Old(0, |down|, |up|);
      MixedStartState(base, down, up);
    } else {
      var n := |moves| - 1;
      o := MixedRun(base, down, up, moves[..n]);
      o := MixedKept(base, Run(start, moves[..n]).value, o, moves[n]);
    }
  }

  // ---------- What the mote can do with the frames ----------

  /** The messages a mote delivers that drops a frame whose number repeats that of the frame before it. */
  function Delivered(log: seq<Down>): seq<Message> {
    if log == [] then []
    else
      var n := |log| - 1;
      if n > 0 && log[n].seqno == log[n - 1].seqno then Delivered(log[..n])
      else Delivered(log[..n]) + [log[n].message]
  }

  lemma {:induction false} DeliveredIsPrefix(base: Byte, log: seq<Down>, written: seq<Message>, n: nat)
    requires LogOk(base, log, written) && n <= |log|
    ensures LastHeard(log[..n]) <= |written| && Delivered(log[..n]) == written[..LastHeard(log[..n])]
  {
    hide Delivered, LogOk, Genuine;
    DeliveredNothing();
    if n > 0 {
      DeliveredIsPrefix(base, log, written, n - 1);
      assert log[..n] == log[..n - 1] + [log[n - 1]];
      DeliveredSnoc(log[..n - 1], log[n - 1]);
      LogStep(base, log, written, n);
    }
  }

  lemma DeliveredNothing()
    ensures Delivered([]) == []
  {
  }

  lemma DeliveredSnoc(log: seq<Down>, d: Down)
    ensures Delivered(log + [d]) ==
            if log != [] && d.seqno == log[|log| - 1].seqno then Delivered(log) else Delivered(log) + [d.message]
  {
    assert (log + [d])[..|log|] == log;
  }

  /** Each frame of a log repeats a write, and its number, or goes on to the next one, and another number. */
  lemma LogStep(base: Byte, log: seq<Down>, written: seq<Message>, n: nat)
    requires LogOk(base, log, written) && 0 < n <= |log|
    ensures 1 <= log[n - 1].nth <= |written| && log[n - 1].message == written[log[n - 1].nth - 1]
    ensures n == 1 ==> log[n - 1].nth == 1
    ensures n > 1 ==> if log[n - 1].seqno == log[n - 2].seqno then log[n - 1].nth == log[n - 2].nth
                      else log[n - 1].nth == log[n - 2].nth + 1
  {
    assert Genuine(base, written, log[n - 1]);
    if n > 1 {
      assert Genuine(base, written, log[n - 2]);
    }
  }

  /** Where the number changes, what is delivered before and after is all that is delivered. */
  lemma {:induction false} DeliveredConcat(a: seq<Down>, b: seq<Down>)
    requires a != [] && b != [] ==> a[|a| - 1].seqno != b[0].seqno
    ensures Delivered(a + b) == Delivered(a) + Delivered(b)
  {
    hide Delivered;
    DeliveredNothing();
    if b == [] {
      assert a + b == a;
      assert Delivered(a) + [] == Delivered(a);
    } else {
      var n := |b| - 1;
      DeliveredConcat(a, b[..n]);
      assert a + b == a + b[..n] + [b[n]] && b == b[..n] + [b[n]];
      DeliveredBoth(a, b[..n], b[n]);
    }
  }

  lemma DeliveredBoth(a: seq<Down>, b: seq<Down>, f: Down)
    requires a != [] ==> a[|a| - 1].seqno != (b + [f])[0].seqno
    requires Delivered(a + b) == Delivered(a) + Delivered(b)
    ensures Delivered(a + b + [f]) == Delivered(a) + Delivered(b + [f])
  {
    hide Delivered;
    DeliveredNothing();
    DeliveredSnoc(a + b, f);
    DeliveredSnoc(b, f);
    if b == [] {
      assert a + b == a && Delivered(a) + [] == Delivered(a) && [] + [f.message] == [f.message];
    } else {
      assert (a + b)[|a + b| - 1] == b[|b| - 1];
      var x, y := Delivered(a), Delivered(b);
      assert x + (y + [f.message]) == x + y + [f.message];
    }
  }

  /** The leftovers at the head of a log. */
  function Leading(log: seq<Down>): (n: nat)
    ensures n <= |log|
  {
    if log == [] || log[0].nth != 0 then 0 else 1 + Leading(log[1..])
  }

  lemma {:induction false} LeadingIs(log: seq<Down>, n: nat)
    requires n <= |log| && (forall i :: 0 <= i < n ==> log[i].nth == 0) && (n < |log| ==> log[n].nth != 0)
    ensures Leading(log) == n
  {
    if n > 0 {
      LeadingIs(log[1..], n - 1);
    }
  }

  /**
   After its leftovers the mote delivers the written messages in order, none twice and none left out, including that
   of every write that has returned, and at most the one write still waiting besides.
   */
  predicate Safe(s: State) {
    var n := Leading(s.log);
    && Delivered(s.log) == Delivered(s.log[..n]) + Delivered(s.log[n..])
    && Delivered(s.log[n..]) <= s.written
    && s.returned <= |Delivered(s.log[n..])| <= |s.written| <= s.returned + 1
    && (s.waiting <==> |s.written| == s.returned + 1)
  }

  /** Leftovers and the first write have different numbers. */
  lemma OwnNumbers(base: Byte, left: seq<Down>, own: seq<Down>, written: seq<Message>)
    requires AllHarmless(base, left, []) && LogOk(base, own, written)
    ensures forall i :: 0 <= i < |left| ==> left[i].nth == 0
    ensures own != [] ==> own[0].nth == 1
    ensures left != [] && own != [] ==> left[|left| - 1].seqno != own[0].seqno
  {
    assert forall i :: 0 <= i < |left| ==> HarmlessDown(base, left[i]);
    assert own != [] ==> Genuine(base, written, own[0]);
  }

  lemma LogParts(base: Byte, log: seq<Down>, n: nat, written: seq<Message>)
    requires n <= |log| && AllHarmless(base, log[..n], []) && LogOk(base, log[n..], written)
    ensures Leading(log) == n && Delivered(log) == Delivered(log[..n]) + Delivered(log[n..])
  {
    hide Delivered, Leading, AllHarmless, LogOk;
    OwnNumbers(base, log[..n], log[n..], written);
    assert forall i :: 0 <= i < n ==> log[..n][i] == log[i];
    LeadingIs(log, n);
    DeliveredConcat(log[..n], log[n..]);
    assert log[..n] + log[n..] == log;
  }

  lemma MixedLog(base: Byte, s: State, o: Old)
    requires Mixed(base, s, o)
    ensures Leading(s.log) == o.log && LogOk(base, s.log[o.log..], s.written)
    ensures Delivered(s.log) == Delivered(s.log[..o.log]) + Delivered(s.log[o.log..])
  {
    hide Delivered, Leading, DownOk, UpOk, LogOk, AllHarmless;
    LogParts(base, s.log, o.log, s.written);
  }

  lemma MixedIsSafe(base: Byte, s: State, o: Old)
    requires Mixed(base, s, o)
    ensures Safe(s) && Leading(s.log) == o.log
    ensures Delivered(s.log[o.log..]) == s.written[..LastHeard(s.log[o.log..])]
  {
    hide Delivered, DownOk, UpOk, LogOk, Leading, AllHarmless;
    var log := s.log[o.log..];
    MixedLog(base, s, o);
    DeliveredIsPrefix(base, log, s.written, |log|);
    assert log[..|log|] == log;
  }

  /** What an earlier session may have left: data frames, and acknowledgements or data for the host. */
  ghost predicate IsLeftover(down: seq<Down>, up: seq<Up>) {
    && (forall i :: 0 <= i < |down| ==> down[i].nth == 0 && 0 <= down[i].seqno < 256)
    && forall i :: 0 <= i < |up| && up[i].Data? ==> Protocol(up[i].data) != SERIAL_PROTO_ACK
  }

  /** No leftover carries a number. */
  ghost predicate NoneCarries(number: int, down: seq<Down>, up: seq<Up>) {
    && (forall i :: 0 <= i < |down| ==> down[i].seqno != number)
    && forall i :: 0 <= i < |up| && up[i].Ack? ==> up[i].seqno % 256 != number
  }

  lemma RunSnoc(start: State, moves: seq<Move>, m: Move)
    requires Run(start, moves).Some? && Enabled(Run(start, moves).value, m)
    requires Run(start, moves).value.waiting ==> Run(start, moves).value.written != []
    ensures Run(start, moves + [m]) == Some(Next(Run(start, moves).value, m))
  {
    hide Next, Enabled;
    assert (moves + [m])[..|moves|] == moves;
  }

  /** Frames can be lost from the head of either channel. */
  lemma {:induction false} LoseHeads(start: State, i: nat, k: nat) returns (moves: seq<Move>)
    requires i <= |start.down| && k <= |start.up| && !start.waiting
    ensures Run(start, moves) == Some(start.(down := start.down[i..], up := start.up[k..]))
  {
    if i > 0 {
      moves := LoseHeads(start, i - 1, k);
      RunSnoc(start, moves, LoseDown(0));
      moves := moves + [LoseDown(0)];
      assert start.down[i - 1..][..0] + start.down[i - 1..][1..] == start.down[i..];
    } else if k > 0 {
      moves := LoseHeads(start, i, k - 1);
      RunSnoc(start, moves, LoseUp(0));
      moves := moves + [LoseUp(0)];
      assert start.up[k - 1..][..0] + start.up[k - 1..][1..] == start.up[k..];
    } else {
      moves := [];
      assert start.down[0..] == start.down && start.up[0..] == start.up;
    }
  }

  /** A write that an acknowledgement ends before the mote has received anything new. */
  lemma EndedByLeftover(s: State)
    requires s.waiting && s.written != [] && s.returned == 0 && s.up != [] && s.up[0].Ack?
    requires s.up[0].seqno % 256 == s.seqno && |s.log| == Leading(s.log)
    ensures !Safe(Next(s, ReadNext))
  {
    hide Protocol, AckSeqno;
    AckRead(s.up[0].nth, s.up[0].seqno);
    assert s.log[|s.log|..] == [];
  }

  lemma UnsafeRun(base: Byte, down: seq<Down>, up: seq<Up>) returns (moves: seq<Move>)
    requires IsLeftover(down, up) && !NoneCarries((base + 1) % 256, down, up)
    ensures Run(Start(base, down, up), moves).Some? && !Safe(Run(Start(base, down, up), moves).value)
  {
    hide Run, Safe, React;
    var start := Start(base, down, up);
    if i :| 0 <= i < |up| && up[i].Ack? && up[i].seqno % 256 == (base + 1) % 256 {
      moves := LoseHeads(start, 0, i);
      RunSnoc(start, moves, StartWrite([]));
      moves := moves + [StartWrite([])];
    } else {
      var i :| 0 <= i < |down| && down[i].seqno == (base + 1) % 256;
      moves := LoseHeads(start, i, |up|);
      RunSnoc(start, moves, StartWrite([]));
      moves := moves + [StartWrite([])];
      RunSnoc(start, moves, MoteReceives);
      moves := moves + [MoteReceives];
      LeadingIs(Run(start, moves).value.log, 1);
    }
    RunSnoc(start, moves, ReadNext);
    EndedByLeftover(Run(start, moves).value);
    moves := moves + [ReadNext];
  }

  /** Every run is safe if and only if no leftover carries the number of the first write. */
  lemma SafeExactly(base: Byte, down: seq<Down>, up: seq<Up>)
    requires IsLeftover(down, up)
    ensures (forall moves :: Run(Start(base, down, up), moves).Some? ==> Safe(Run(Start(base, down, up), moves).value))
            <==> NoneCarries((base + 1) % 256, down, up)
  {
    hide Run, Safe, Mixed, Protocol;
    if NoneCarries((base + 1) % 256, down, up) {
      assert AllHarmless(base, down, up);
      forall moves | Run(Start(base, down, up), moves).Some?
        ensures Safe(Run(Start(base, down, up), moves).value)
      {
        var o := MixedRun(base, down, up, moves);
        MixedIsSafe(base, Run(Start(base, down, up), moves).value, o);
      }
    } else {
      var moves := UnsafeRun(base, down, up);
    }
  }

  /** From empty channels every run is safe, and nothing but written messages is delivered. */
  lemma EveryRunIsSafe(moves: seq<Move>)
    requires Run(INITIAL, moves).Some?
    ensures var s := Run(INITIAL, moves).value;
            && Delivered(s.log) <= s.written
            && s.returned <= |Delivered(s.log)| <= |s.written| <= s.returned + 1
            && (s.waiting <==> |s.written| == s.returned + 1)
  {
    hide Run, Delivered;
    InvariantOfRun(moves);
    var s := Run(INITIAL, moves).value;
    assert Mixed(0, s, Old(0, 0, 0)) by {
      assert s.log[0..] == s.log && s.down[0..] == s.down && s.up[0..] == s.up;
    }
    MixedIsSafe(0, s, Old(0, 0, 0));
    assert s.log[0..] == s.log;
  }

  lemma InvariantOfInitial()
    ensures Invariant(0, INITIAL)
  {
  }

  /** From empty channels there are never any leftovers. */
  lemma {:induction false} InvariantOfRun(moves: seq<Move>)
    ensures Run(INITIAL, moves).Some? ==> Invariant(0, Run(INITIAL, moves).value)
  {
    hide Invariant, Next, Enabled;
    if moves != [] {
      var n := |moves| - 1;
      InvariantOfRun(moves[..n]);
      if Run(INITIAL, moves).Some? {
        InvariantKept(0, Run(INITIAL, moves[..n]).value, moves[n]);
      }
    } else {
      InvariantOfInitial();
    }
  }

  /** When a write returns, its own message is the last the mote has delivered. */
  lemma ReturnMeansDelivered(base: Byte, down: seq<Down>, up: seq<Up>, moves: seq<Move>)
    requires IsLeftover(down, up) && NoneCarries((base + 1) % 256, down, up)
    requires var r := Run(Start(base, down, up), moves); r.Some? && r.value.waiting && r.value.up != []
    requires var r := Run(Start(base, down, up), moves + [ReadNext]); r.Some? && !r.value.waiting
    ensures var s := Run(Start(base, down, up), moves).value;
            Delivered(s.log[Leading(s.log)..]) == s.written
  {
    hide Delivered, Leading, React;
    assert AllHarmless(base, down, up) by { hide Protocol; }
    assert (moves + [ReadNext])[..|moves|] == moves;
    var s := Run(Start(base, down, up), moves).value;
    var o := MixedRun(base, down, up, moves);
    MixedIsSafe(base, s, o);
    if o.up > 0 {
      MixedReadOld(base, s, o);
    } else {
      MixedReadNew(base, s, o);
    }
    assert s.written[..|s.written|] == s.written;
  }

  /** For example, an acknowledgement of the first number ends the first write with nothing received. */
  lemma StaleAckEndsFirstWrite(message: Message)
    ensures var stale := Start(0, [], [Ack(0, 1)]);
            var s := Next(Next(stale, StartWrite(message)), ReadNext);
            s.returned == 1 && s.log == []
  {
    hide Protocol, AckSeqno;
    AckRead(0, 1);
  }
}
