/** The Oscilloscope's store of one mote's samples: a window over an array that grows and then slides. */
module SampleStore {
  import opened Arithmetic
  import opened Wrappers

  predicate Multiple(n: nat, d: nat) {
    d > 0 && n % d == 0
  }

  /** The sizes of the store: readings per message, growth step and largest size. */
  datatype Config = Config(nreadings: nat, increment: nat, maxSize: nat) {
    /** INCREMENT is a multiple of NREADINGS and MAX_SIZE one of INCREMENT. */
    predicate Valid() {
      && 0 < nreadings <= increment <= maxSize
      && Multiple(increment, nreadings) && Multiple(maxSize, increment)
    }
  }

  // ---------- The model ----------

  /** The window [start, end) and the samples known in it; `empty` until the first message. */
  datatype Samples = Samples(empty: bool, start: int, end: int, known: map<int, int>)

  const NO_SAMPLES := Samples(true, 0, 0, map[])

  /** A sample's value, or -1 when it is missing. */
  function Reading(s: Samples, x: int): int {
    if x in s.known then s.known[x] else -1
  }

  /** Where the window starts once samples from `index` on have arrived. */
  function StartAfter(c: Config, s: Samples, index: int): int {
    var start := if s.empty || index < s.start then index else s.start;
    if index + c.nreadings > start + c.maxSize then index + c.increment - c.maxSize else start
  }

  /** The samples of a message, by their numbers. */
  function Arrived(index: int, readings: seq<int>): (m: map<int, int>)
    ensures forall x :: x in m <==> index <= x < index + |readings|
    ensures forall x :: x in m ==> m[x] == readings[x - index]
  {
    if readings == [] then map[]
    else Arrived(index, readings[..|readings| - 1])[index + |readings| - 1 := readings[|readings| - 1]]
  }

  /**
   A message: samples from its index on are replaced or dropped, an index before the window forgets everything,
   and samples behind the window's start slide out.
   */
  function Updated(c: Config, s: Samples, index: int, readings: seq<int>): Samples
    requires |readings| == c.nreadings
  {
    var start := StartAfter(c, s, index);
    var kept := if s.empty || index < s.start then map[] else map x | x in s.known && start <= x < index :: s.known[x];
    Samples(false, start, index + c.nreadings, kept + Arrived(index, readings))
  }

  // ---------- The store ----------

  method ArrayCopy(src: array<int>, srcPos: nat, dst: array<int>, dstPos: nat, length: nat)
    requires srcPos + length <= src.Length && dstPos + length <= dst.Length
    modifies dst
    ensures dst[..] == old(dst[..dstPos] + src[srcPos..srcPos + length] + dst[dstPos + length..])
  {
    forall i | 0 <= i < length {
      dst[dstPos + i] := src[srcPos + i];
    }
  }

  class Node {
    const id: int
    const config: Config
    var data: array?<int>
    var dataStart: int
    var dataEnd: int
    ghost var samples: Samples

    /** The array holds the window of the model: its known samples, and -1 for the missing ones. */
    ghost predicate Valid()
      reads this, data
    {
      && config.Valid()
      && samples.empty == (data == null)
      && samples.start == dataStart && samples.end == dataEnd
      && (forall x :: x in samples.known ==> dataStart <= x < dataEnd)
      && if data == null then dataStart == dataEnd == 0
         else
           && Multiple(data.Length, config.increment) && config.increment <= data.Length <= config.maxSize
           && dataStart <= dataEnd <= dataStart + data.Length
           && forall i :: 0 <= i < dataEnd - dataStart ==> data[i] == Reading(samples, dataStart + i)
    }

    constructor (id: int, config: Config)
      requires config.Valid()
      ensures Valid() && samples == NO_SAMPLES && data == null && this.id == id && this.config == config
    {
      this.id := id;
      this.config := config;
      data := null;
      dataStart, dataEnd := 0, 0;
      samples := NO_SAMPLES;
    }

    /** There is an array, a whole number of increments long. */
    ghost predicate Sized()
      reads this
    {
      && config.Valid() && data != null
      && Multiple(data.Length, config.increment) && config.increment <= data.Length <= config.maxSize
    }

    /** Make room for samples newDataIndex .. newEnd and mark the gap before them as missing. */
    method SetEnd(newDataIndex: int, newEnd: int)
      requires Valid() && newEnd == newDataIndex + config.nreadings
      modifies this`data, this`dataStart, this`dataEnd, data
      ensures Sized() && (data == old(data) || fresh(data))
      ensures dataStart == StartAfter(config, samples, newDataIndex) && dataEnd == newEnd
      ensures dataStart <= newDataIndex && newEnd <= dataStart + data.Length
      ensures forall i :: 0 <= i < newDataIndex - dataStart ==> data[i] == Reading(samples, dataStart + i)
    {
      hide Multiple, Reading, Moved, KnownHeld, Marked, StartAfter;
      Restart(newDataIndex);
      ghost var was, from := data[..], dataStart;
      MakeRoom(newDataIndex, newEnd);
      ghost var room := data[..];
      StartsAfter(config, samples, newDataIndex, from, dataStart);
      if !samples.empty && newDataIndex >= samples.start {
        RoomKept(samples, was, from, room, dataStart);
      }
      MarkMissing(newDataIndex);
      if dataStart < newDataIndex {
        GapRead(samples, room, data[..], dataStart, newDataIndex - dataStart);
      }
      dataEnd := newEnd;
    }

    /** Samples before the window, or the first ones: an empty window of one increment begins with them. */
    method Restart(newDataIndex: int)
      requires Valid()
      modifies this`data, this`dataStart
      ensures Sized() && (data == old(data) || fresh(data))
      ensures if samples.empty || newDataIndex < samples.start
              then dataStart == newDataIndex && data.Length == config.increment
              else data == old(data) && dataStart == old(dataStart)
    {
      if newDataIndex < dataStart || data == null {
        dataStart := newDataIndex;
        data := new int[config.increment](_ => 0);
        DivModUnique(config.increment, config.increment, 1, 0);
      }
    }

    /** Extend or slide the array until it reaches newEnd; samples before newDataIndex keep their values. */
    method MakeRoom(newDataIndex: int, newEnd: int)
      requires Sized() && newEnd == newDataIndex + config.nreadings && dataStart <= newDataIndex
      modifies this`data, this`dataStart, data
      ensures Sized() && (data == old(data) || fresh(data))
      ensures dataStart == if newEnd > old(dataStart) + config.maxSize
                           then newDataIndex + config.increment - config.maxSize else old(dataStart)
      ensures old(dataStart) <= dataStart <= newDataIndex && newEnd <= dataStart + data.Length
      ensures Moved(old(data[..]), data[..], dataStart - old(dataStart))
    {
      hide Multiple, Moved;
      MovedNot(data[..], data[..]);
      if newEnd > dataStart + data.Length {
        if data.Length < config.maxSize {
          Extend(newEnd);
        }
        ghost var extended := data[..];
        MovedNot(old(data[..]), extended);
        if newEnd > dataStart + data.Length {
          Squish(newDataIndex);
          MovedDown(old(data[..]), extended, data[..], dataStart - old(dataStart));
        }
      }
    }

    /** A message of readings, the first of which is sample messageId * NREADINGS. */
    method Update(messageId: int, readings: seq<int>)
      requires Valid() && |readings| == config.nreadings
      modifies this`data, this`dataStart, this`dataEnd, this`samples, data
      ensures Valid() && (data == old(data) || fresh(data)) && data != null
      ensures samples == Updated(config, old(samples), messageId * config.nreadings, readings)
    {
      hide Updated, StartAfter, Reading, Multiple;
      var start := messageId * config.nreadings;
      SetEnd(start, start + config.nreadings);
      ghost var was, before := samples, data[..];
      WriteReadings(start - dataStart, readings);
      samples := Updated(config, was, start, readings);
      RestartAt(config, was, start);
      HoldsUpdated(config, was, start, readings, before, data[..], dataEnd - dataStart);
      UpdatedWindow(config, was, start, readings);
    }

    method WriteReadings(at: nat, readings: seq<int>)
      requires data != null && at + |readings| <= data.Length
      modifies data
      ensures data[..] == old(data[..at]) + readings + old(data[at + |readings|..])
    {
      for i := 0 to |readings|
        invariant data[..at + i] == old(data[..at]) + readings[..i] && data[at + i..] == old(data[at + i..])
      {
        data[at + i] := readings[i];
      }
    }

    /** The value of sample x, or -1 if it is missing. */
    method GetData(x: int) returns (v: int)
      requires Valid()
      ensures v == if x in samples.known then samples.known[x] else -1
    {
      if x < dataStart || x >= dataEnd {
        return -1;
      }
      v := data[x - dataStart];
      assert data[x - dataStart] == Reading(samples, dataStart + (x - dataStart));
    }

    /** The number of the last known sample. */
    function MaxX(): (n: int)
      requires Valid()
      reads this, data
      ensures n == samples.end - 1
    {
      dataEnd - 1
    }

    /** Grow the array to hold samples up to newEnd, or to its largest size. */
    method Extend(newEnd: int)
      requires Sized() && data.Length < config.maxSize && newEnd > dataStart + data.Length
      modifies this`data
      ensures Sized() && fresh(data)
      ensures newEnd <= dataStart + data.Length || data.Length == config.maxSize
      ensures data.Length < config.maxSize ==> dataStart + data.Length < newEnd + config.increment
      ensures newEnd > dataStart + config.maxSize ==> data.Length == config.maxSize
      ensures old(data.Length) <= data.Length
      ensures data[..old(data.Length)] == old(data[..])
    {
      var need := newEnd - dataStart;
      RoundedUp(need, config.increment);
      var newLength := (need + config.increment - 1) / config.increment * config.increment;
      if newLength >= config.maxSize {
        newLength := config.maxSize;
      }
      var newData := new int[newLength](_ => 0);
      ArrayCopy(data, 0, newData, 0, data.Length);
      data := newData;
    }

    /** Slide the window so that newDataIndex is one increment from its end. */
    method Squish(newDataIndex: int)
      requires Sized() && dataStart <= newDataIndex
      requires newDataIndex + config.nreadings > dataStart + data.Length
      modifies this`dataStart, data
      ensures data == old(data) && dataStart == newDataIndex + config.increment - data.Length
      ensures var shift := dataStart - old(dataStart);
              0 < shift && (shift < data.Length ==> data[..data.Length - shift] == old(data[..])[shift..])
    {
      hide Multiple;
      var newStart := newDataIndex + config.increment - data.Length;
      if dataStart + data.Length > newStart {
        ArrayCopy(data, newStart - dataStart, data, 0, data.Length - (newStart - dataStart));
      }
      dataStart := newStart;
    }

    method MarkMissing(newDataIndex: int)
      requires data != null && dataStart <= newDataIndex <= dataStart + data.Length
      modifies data
      ensures Marked(old(data[..]), data[..], dataEnd - dataStart, newDataIndex - dataStart)
    {
      var i := if dataEnd < dataStart then dataStart else dataEnd;
      while i < newDataIndex
        invariant dataStart <= i && dataEnd <= i
        invariant forall j :: 0 <= j < data.Length ==>
                    data[j] == if dataEnd <= dataStart + j < i then -1 else old(data[j])
      {
        data[i - dataStart] := -1;
        i := i + 1;
      }
    }
  }

  /** The elements of `first` have moved down by `shift`, as far as they are still there. */
  ghost predicate Moved(first: seq<int>, room: seq<int>, shift: nat) {
    forall i :: 0 <= i < |room| && shift + i < |first| ==> room[i] == first[shift + i]
  }

  /** What lies before the end of the window is what is known. */
  ghost predicate KnownHeld(s: Samples, room: seq<int>, start: int) {
    forall i :: 0 <= i < |room| && i < s.end - start ==> room[i] == Reading(s, start + i)
  }

  /** Of the first `n` elements those from `end` on are marked as missing. */
  ghost predicate Marked(room: seq<int>, marked: seq<int>, end: int, n: int) {
    n <= |room| == |marked| && forall i :: 0 <= i < n ==> marked[i] == if i < end then room[i] else -1
  }

  lemma MovedNot(first: seq<int>, extended: seq<int>)
    requires |first| <= |extended| && extended[..|first|] == first
    ensures Moved(first, extended, 0)
  {
    assert forall i :: 0 <= i < |first| ==> extended[..|first|][i] == extended[i];
  }

  /** What an extended and then moved array still holds of the first one. */
  lemma MovedDown(first: seq<int>, extended: seq<int>, room: seq<int>, shift: nat)
    requires |first| <= |extended| == |room| && extended[..|first|] == first
    requires shift < |room| ==> room[..|room| - shift] == extended[shift..]
    ensures Moved(first, room, shift)
  {
    forall i | 0 <= i < |room| && shift + i < |first|
      ensures room[i] == first[shift + i]
    {
      assert room[i] == room[..|room| - shift][i] == extended[shift..][i];
      assert extended[shift + i] == extended[..|first|][shift + i];
    }
  }

  /** Making room keeps what is known where the window still has it. */
  lemma RoomKept(s: Samples, was: seq<int>, from: int, room: seq<int>, start: int)
    requires from <= start && s.end <= from + |was| && Moved(was, room, start - from)
    requires forall i :: 0 <= i < s.end - from ==> was[i] == Reading(s, from + i)
    ensures KnownHeld(s, room, start)
  {
    hide Reading;
    forall i | 0 <= i < |room| && i < s.end - start
      ensures room[i] == Reading(s, start + i)
    {
      assert was[start - from + i] == Reading(s, from + (start - from + i));
    }
  }

  /** Where nothing is known the gap is marked. */
  lemma GapRead(s: Samples, room: seq<int>, marked: seq<int>, start: int, n: int)
    requires n <= |room| && n <= |marked| && forall x :: x in s.known ==> x < s.end
    requires KnownHeld(s, room, start) && Marked(room, marked, s.end - start, n)
    ensures forall i :: 0 <= i < n ==> marked[i] == Reading(s, start + i)
  {
  }

  /** A restart and a slide between them begin the window where the model does. */
  lemma StartsAfter(c: Config, s: Samples, index: int, from: int, start: int)
    requires c.Valid() && from == if s.empty || index < s.start then index else s.start
    requires start == if index + c.nreadings > from + c.maxSize then index + c.increment - c.maxSize else from
    ensures start == StartAfter(c, s, index)
    ensures s.empty || index < s.start ==> start == index
  {
  }

  lemma RoundedUp(need: int, inc: nat)
    requires inc > 0
    ensures var n := (need + inc - 1) / inc * inc; need <= n < need + inc && (n >= 0 ==> Multiple(n, inc))
  {
    var q := (need + inc - 1) / inc;
    assert need + inc - 1 == inc * q + (need + inc - 1) % inc;
    MultipleMod(q, inc);
    assert q * inc == inc * q;
  }

  lemma RestartAt(c: Config, s: Samples, index: int)
    requires c.Valid()
    ensures s.empty || index < s.start ==> StartAfter(c, s, index) == index
  {
  }

  lemma UpdatedWindow(c: Config, s: Samples, index: int, readings: seq<int>)
    requires |readings| == c.nreadings
    ensures var t := Updated(c, s, index, readings);
            && !t.empty && t.start == StartAfter(c, s, index) && t.end == index + c.nreadings
            && (t.start <= index ==> forall x :: x in t.known ==> t.start <= x < t.end)
  {
  }

  /** Old samples before the message and the message itself make up the new window. */
  lemma HoldsUpdated(
    c: Config, was: Samples, index: int, readings: seq<int>, before: seq<int>, after: seq<int>, length: int)
    requires |readings| == c.nreadings
    requires var at := index - StartAfter(c, was, index);
             && 0 <= at && length == at + c.nreadings <= |before|
             && after == before[..at] + readings + before[at + c.nreadings..]
             && forall i :: 0 <= i < at ==> before[i] == Reading(was, StartAfter(c, was, index) + i)
    requires was.empty || index < was.start ==> StartAfter(c, was, index) == index
    ensures forall i :: 0 <= i < length ==>
              after[i] == Reading(Updated(c, was, index, readings), StartAfter(c, was, index) + i)
  {
    var start := StartAfter(c, was, index);
    var s := Updated(c, was, index, readings);
    forall i | 0 <= i < length
      ensures after[i] == Reading(s, start + i)
    {
      if i < index - start {
        assert after[i] == before[i];
      } else {
        assert after[i] == readings[start + i - index];
      }
    }
  }

  // ---------- Runs ----------

  datatype Message = Message(index: int, readings: seq<int>)

  ghost predicate Proper(c: Config, run: seq<Message>) {
    forall n :: 0 <= n < |run| ==> |run[n].readings| == c.nreadings
  }

  /** The model after a run of messages. */
  ghost function After(c: Config, run: seq<Message>): Samples
    requires Proper(c, run)
  {
    if run == [] then NO_SAMPLES
    else Updated(c, After(c, run[..|run| - 1]), run[|run| - 1].index, run[|run| - 1].readings)
  }

  predicate Covers(m: Message, x: int) {
    m.index <= x < m.index + |m.readings|
  }

  /** The value a sample was last given in a run. */
  function Latest(run: seq<Message>, x: int): Option<int> {
    if run == [] then None
    else
      var m := run[|run| - 1];
      if Covers(m, x) then Some(m.readings[x - m.index]) else Latest(run[..|run| - 1], x)
  }

  /** The store never makes a sample up or keeps an outdated one. */
  lemma {:induction false} KnownIsLatest(c: Config, run: seq<Message>, x: int)
    requires Proper(c, run)
    ensures x in After(c, run).known ==> Latest(run, x) == Some(After(c, run).known[x])
  {
    if run != [] {
      KnownIsLatest(c, run[..|run| - 1], x);
    }
  }

  /** The window ends where the last message does and is never larger than the array may be. */
  lemma {:induction false} WindowBounds(c: Config, run: seq<Message>)
    requires c.Valid() && Proper(c, run) && run != []
    ensures var s := After(c, run);
            && !s.empty && s.end == run[|run| - 1].index + c.nreadings
            && s.start <= run[|run| - 1].index && s.end <= s.start + c.maxSize
            && forall x :: x in s.known ==> s.start <= x < s.end
  {
    if |run| > 1 {
      WindowBounds(c, run[..|run| - 1]);
    }
  }

  /**
   A sample stays readable as long as only later samples arrive and none of them starts more than
   MAX_SIZE - INCREMENT after it; a slide thus leaves room for the last MAX_SIZE - INCREMENT + NREADINGS samples.
   */
  lemma {:induction false} SampleRetained(c: Config, run: seq<Message>, p: nat, x: int)
    requires c.Valid() && Proper(c, run) && p < |run| && Covers(run[p], x)
    requires forall n :: p < n < |run| ==> x < run[n].index <= x + c.maxSize - c.increment
    ensures x in After(c, run).known && After(c, run).known[x] == run[p].readings[x - run[p].index]
    decreases |run|
  {
    hide After, Reading;
    var n := |run| - 1;
    AfterLast(c, run);
    if p < n {
      SampleRetained(c, run[..n], p, x);
      WindowBounds(c, run[..n]);
      RetainedStep(c, After(c, run[..n]), run[n], x);
    } else {
      SampleArrived(c, After(c, run[..n]), run[n], x);
    }
  }

  lemma AfterLast(c: Config, run: seq<Message>)
    requires Proper(c, run) && run != []
    ensures var n := |run| - 1;
            Proper(c, run[..n]) && |run[n].readings| == c.nreadings &&
            After(c, run) == Updated(c, After(c, run[..n]), run[n].index, run[n].readings)
  {
  }

  lemma RetainedStep(c: Config, s: Samples, m: Message, x: int)
    requires c.Valid() && |m.readings| == c.nreadings && !s.empty && x in s.known && s.start <= x
    requires x < m.index <= x + c.maxSize - c.increment
    ensures var t := Updated(c, s, m.index, m.readings); x in t.known && t.known[x] == s.known[x]
  {
    SampleDropped(c, s, m, x);
    SampleUnchanged(c, s, m, x);
  }

  lemma SampleArrived(c: Config, s: Samples, m: Message, x: int)
    requires |m.readings| == c.nreadings && Covers(m, x)
    ensures var t := Updated(c, s, m.index, m.readings); x in t.known && t.known[x] == m.readings[x - m.index]
  {
  }

  lemma SampleUnchanged(c: Config, s: Samples, m: Message, x: int)
    requires |m.readings| == c.nreadings && !Covers(m, x)
    ensures var t := Updated(c, s, m.index, m.readings); x in t.known ==> x in s.known && t.known[x] == s.known[x]
  {
  }

  /** A sample is lost exactly when a message restarts the window, ends at or before it, or slides past it. */
  lemma SampleDropped(c: Config, s: Samples, m: Message, x: int)
    requires |m.readings| == c.nreadings && x in s.known && s.start <= x && !s.empty && !Covers(m, x)
    ensures x !in Updated(c, s, m.index, m.readings).known <==>
            m.index < s.start || m.index + c.nreadings <= x ||
            (m.index + c.nreadings > s.start + c.maxSize && x < m.index + c.increment - c.maxSize)
  {
  }
}
