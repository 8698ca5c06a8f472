/** TOSSIM's discrete-event queue: a binary heap in an array that grows. */
module EventHeap {
  import opened Wrappers

  datatype Node<T> = Node(data: T, key: int)

  const STARTING_SIZE: nat := 511

  predicate IsChild(p: int, i: int) {
    i == 2 * p + 1 || i == 2 * p + 2
  }

  ghost predicate Ordered<T>(s: seq<Node<T>>) {
    forall p, i :: 0 <= p < i < |s| && IsChild(p, i) ==> s[p].key <= s[i].key
  }

  /** No node is smaller than its parent, except perhaps the node `but`. */
  ghost predicate OrderedBut<T>(s: seq<Node<T>>, but: int) {
    forall p, i :: 0 <= p < i < |s| && IsChild(p, i) && i != but ==> s[p].key <= s[i].key
  }

  /** No node is smaller than its parent, except perhaps the children of `but`. */
  ghost predicate OrderedButBelow<T>(s: seq<Node<T>>, but: int) {
    forall p, i :: 0 <= p < i < |s| && IsChild(p, i) && p != but ==> s[p].key <= s[i].key
  }

  /** No child of `but` is smaller than the parent of `but`. */
  ghost predicate Bridged<T>(s: seq<Node<T>>, but: int) {
    forall p, i :: 0 <= p < but < i < |s| && IsChild(p, but) && IsChild(but, i) ==> s[p].key <= s[i].key
  }

  function Swapped<T>(s: seq<T>, i: nat, j: nat): (r: seq<T>)
    requires i < |s| && j < |s|
    ensures |r| == |s|
  {
    s[i := s[j]][j := s[i]]
  }

  lemma SwappedKeepsContents<T>(s: seq<T>, i: nat, j: nat)
    requires i < |s| && j < |s|
    ensures multiset(Swapped(s, i, j)) == multiset(s)
  {
  }

  /** The root of an ordered heap has the least key. */
  lemma {:induction false} RootIsLeast<T>(s: seq<Node<T>>, i: nat)
    requires Ordered(s) && i < |s|
    ensures s[0].key <= s[i].key
    decreases i
  {
    if i > 0 {
      var p := (i - 1) / 2;
      assert IsChild(p, i);
      RootIsLeast(s, p);
    }
  }

  /** One step up: the swap moves the only disorder to the parent. */
  lemma StepUp<T>(s: seq<Node<T>>, i: nat, p: nat)
    requires p < i < |s| && IsChild(p, i) && OrderedBut(s, i) && Bridged(s, i) && s[p].key > s[i].key
    ensures var t := Swapped(s, i, p); OrderedBut(t, p) && Bridged(t, p)
  {
    var t := Swapped(s, i, p);
    forall q, k | 0 <= q < k < |t| && IsChild(q, k) && k != p
      ensures t[q].key <= t[k].key
    {
      assert q == i ==> s[p].key <= s[k].key;
    }
    forall q, k | 0 <= q < p < k < |t| && IsChild(q, p) && IsChild(p, k)
      ensures t[q].key <= t[k].key
    {
      assert s[q].key <= s[p].key;
      assert k != i ==> s[p].key <= s[k].key;
    }
  }

  /** One step down: the swap with the smaller child moves the only disorder to that child. */
  lemma StepDown<T>(s: seq<Node<T>>, i: nat, c: nat)
    requires i < c < |s| && IsChild(i, c) && OrderedButBelow(s, i) && Bridged(s, i) && s[c].key < s[i].key
    requires forall k :: i < k < |s| && IsChild(i, k) ==> s[c].key <= s[k].key
    ensures var t := Swapped(s, i, c); OrderedButBelow(t, c) && Bridged(t, c)
  {
    var t := Swapped(s, i, c);
    forall q, k | 0 <= q < k < |t| && IsChild(q, k) && q != c
      ensures t[q].key <= t[k].key
    {
      assert k == i ==> s[q].key <= s[c].key;
    }
    forall q, k | 0 <= q < c < k < |t| && IsChild(q, c) && IsChild(c, k)
      ensures t[q].key <= t[k].key
    {
      assert s[c].key <= s[k].key;
    }
  }

  lemma AlreadyOrdered<T>(s: seq<Node<T>>, i: nat)
    requires OrderedButBelow(s, i)
    requires forall k :: i < k < |s| && IsChild(i, k) ==> s[i].key <= s[k].key
    ensures Ordered(s)
  {
  }

  /** A node that is not smaller than its parent leaves nothing to do on the way up. */
  lemma InOrderAbove<T>(s: seq<Node<T>>, i: nat)
    requires i < |s| && OrderedBut(s, i)
    ensures i == 0 || s[(i - 1) / 2].key <= s[i].key ==> Ordered(s)
  {
    assert forall p :: 0 <= p < i && IsChild(p, i) ==> p == (i - 1) / 2;
  }

  datatype Event<T> = Inserted(node: Node<T>) | Popped(node: Node<T>)

  /** What one operation makes of the queued events; None if it pops what is not a node of least key. */
  ghost function Step<T>(m: multiset<Node<T>>, event: Event<T>): Option<multiset<Node<T>>> {
    match event
    case Inserted(e) => Some(m + multiset{e})
    case Popped(e) => if e in m && forall x :: x in m ==> e.key <= x.key then Some(m - multiset{e}) else None
  }

  lemma PopStep<T>(m: multiset<Node<T>>, e: Node<T>, rest: multiset<Node<T>>)
    requires m == rest + multiset{e} && forall x :: x in m ==> e.key <= x.key
    ensures Step(m, Popped(e)) == Some(rest)
  {
    assert m - multiset{e} == rest;
  }

  class Heap<T(0)> {
    var data: array<Node<T>>
    var size: nat
    var privateSize: nat

    ghost predicate Shape()
      reads this
    {
      data.Length == privateSize && size <= privateSize
    }

    ghost predicate Valid()
      reads this, data
    {
      Shape() && Ordered(data[..size])
    }

    /** The queued events with their keys. */
    ghost function Contents(): multiset<Node<T>>
      requires Shape()
      reads this, data
    {
      multiset(data[..size])
    }

    constructor ()
      ensures Valid() && fresh(data) && Contents() == multiset{} && privateSize == STARTING_SIZE
    {
      size := 0;
      privateSize := STARTING_SIZE;
      data := new Node<T>[STARTING_SIZE];
    }

    method Swap(i: nat, j: nat, ghost n: nat)
      requires i < n && j < n && n <= data.Length
      modifies data
      ensures data[..n] == Swapped(old(data[..n]), i, j) && data[n..] == old(data[n..])
    {
      data[i], data[j] := data[j], data[i];
    }

    /** The event of least key, and its key; -1 when there is none. */
    method GetMinKey() returns (key: int)
      requires Valid()
      ensures size == 0 ==> key == -1
      ensures size > 0 ==> (exists e :: e in Contents() && e.key == key) && forall e :: e in Contents() ==> key <= e.key
    {
      if size == 0 {
        return -1;
      }
      key := data[0].key;
      RootInContents(data[..size]);
    }

    /** Take the event at the root out; `heap_pop_min_data` reads the root without looking at the size. */
    method PopMin() returns (event: T, key: int)
      requires Valid() && size > 0
      modifies this`size, data
      ensures Valid() && size == old(size) - 1
      ensures old(Contents()) == Contents() + multiset{Node(event, key)}
      ensures forall e :: e in old(Contents()) ==> key <= e.key
      ensures Step(old(Contents()), Popped(Node(event, key))) == Some(Contents())
    {
      hide Ordered, OrderedButBelow, Bridged, Step;
      RootInContents(data[..size]);
      event, key := TakeRoot();
      DownHeap(0);
      PopStep(old(Contents()), Node(event, key), Contents());
    }

    /** The root is replaced by the last node. */
    method TakeRoot() returns (event: T, key: int)
      requires Valid() && size > 0
      modifies this`size, data
      ensures Shape() && size == old(size) - 1
      ensures data[..size] == LastAtRoot(old(data[..size]))
      ensures Node(event, key) == old(data[0])
      ensures OrderedButBelow(data[..size], 0) && Bridged(data[..size], 0)
      ensures multiset(old(data[..size])) == multiset(data[..size]) + multiset{Node(event, key)}
    {
      hide Ordered, OrderedButBelow, Bridged, LastAtRoot;
      ghost var was := data[..size];
      var lastIndex := size - 1;
      event, key := data[0].data, data[0].key;
      data[0] := data[lastIndex];
      size := size - 1;
      LastAtRootIs(was, data[..size]);
      LastToRoot(was);
    }

    method Insert(event: T, key: int)
      requires Valid()
      modifies this, data
      ensures Valid() && size == old(size) + 1
      ensures Contents() == old(Contents()) + multiset{Node(event, key)}
      ensures Step(old(Contents()), Inserted(Node(event, key))) == Some(Contents())
      ensures privateSize == if old(size == privateSize) then 2 * old(privateSize) + 1 else old(privateSize)
      ensures data == old(data) || fresh(data)
    {
      ghost var was := data[..size];
      if size == privateSize {
        Expand();
      }
      data[size] := Node(event, key);
      assert data[..size + 1] == was + [Node(event, key)];
      UpHeap(size, size + 1);
      size := size + 1;
    }

    /** Copy the nodes to an array of twice the size and one. */
    method Expand()
      requires Shape()
      modifies this`data, this`privateSize
      ensures Shape() && fresh(data) && privateSize == 2 * old(privateSize) + 1
      ensures data[..size] == old(data[..size])
    {
      var newSize := privateSize * 2 + 1;
      var newData := new Node<T>[newSize];
      forall i | 0 <= i < privateSize {
        newData[i] := data[i];
      }
      data := newData;
      privateSize := newSize;
    }

    method UpHeap(findex: nat, ghost n: nat)
      requires findex < n <= data.Length
      requires OrderedBut(data[..n], findex) && Bridged(data[..n], findex)
      modifies data
      ensures Ordered(data[..n]) && multiset(data[..n]) == multiset(old(data[..n]))
      decreases findex
    {
      hide Ordered, OrderedBut, Bridged, Swapped;
      ghost var s := data[..n];
      InOrderAbove(s, findex);
      if findex == 0 {
        return;
      }
      var parentIndex := (findex - 1) / 2;
      if data[parentIndex].key > data[findex].key {
        StepUp(s, findex, parentIndex);
        SwappedKeepsContents(s, findex, parentIndex);
        Swap(findex, parentIndex, n);
        UpHeap(parentIndex, n);
      }
    }

    method DownHeap(findex: nat)
      requires Shape() && (size > 0 ==> findex < size)
      requires OrderedButBelow(data[..size], findex) && Bridged(data[..size], findex)
      modifies data
      ensures Ordered(data[..size]) && multiset(data[..size]) == multiset(old(data[..size]))
      decreases size - findex
    {
      hide OrderedButBelow, Bridged, Ordered, Swapped;
      var rightIndex := (findex + 1) * 2;
      var leftIndex := findex * 2 + 1;
      ghost var s := data[..size];
      if rightIndex < size {
        var leftKey := data[leftIndex].key;
        var rightKey := data[rightIndex].key;
        var minKeyIndex := if leftKey < rightKey then leftIndex else rightIndex;
        if data[minKeyIndex].key < data[findex].key {
          StepDown(s, findex, minKeyIndex);
          SwappedKeepsContents(s, findex, minKeyIndex);
          Swap(findex, minKeyIndex, size);
          DownHeap(minKeyIndex);
        } else {
          AlreadyOrdered(s, findex);
        }
      } else if leftIndex >= size {
        AlreadyOrdered(s, findex);
        return;
      } else {
        var leftKey := data[leftIndex].key;
        if leftKey < data[findex].key {
          StepDown(s, findex, leftIndex);
          SwappedKeepsContents(s, findex, leftIndex);
          Swap(findex, leftIndex, size);
          AlreadyOrdered(data[..size], leftIndex);
        } else {
          AlreadyOrdered(s, findex);
        }
      }
    }
  }

  lemma RootInContents<T>(s: seq<Node<T>>)
    requires Ordered(s) && s != []
    ensures s[0] in multiset(s) && forall e :: e in multiset(s) ==> s[0].key <= e.key
  {
    forall e | e in multiset(s)
      ensures s[0].key <= e.key
    {
      var i :| 0 <= i < |s| && s[i] == e;
      RootIsLeast(s, i);
    }
  }

  /** The nodes without the root, which the last one has replaced. */
  ghost function LastAtRoot<T>(s: seq<T>): (t: seq<T>)
    requires s != []
  {
    s[0 := s[|s| - 1]][..|s| - 1]
  }

  lemma LastAtRootIs<T>(s: seq<T>, t: seq<T>)
    requires |s| == |t| + 1 && (t != [] ==> t[0] == s[|t|]) && forall i :: 1 <= i < |t| ==> t[i] == s[i]
    ensures t == LastAtRoot(s)
  {
  }

  /** Moving the last node to the root takes the old root out and disorders only the root. */
  lemma LastToRoot<T>(s: seq<Node<T>>)
    requires Ordered(s) && s != []
    ensures OrderedButBelow(LastAtRoot(s), 0) && Bridged(LastAtRoot(s), 0)
    ensures multiset(s) == multiset(LastAtRoot(s)) + multiset{s[0]}
  {
    RootTakenOut(s);
  }

  lemma RootTakenOut<T>(s: seq<T>)
    requires s != []
    ensures multiset(s) == multiset(LastAtRoot(s)) + multiset{s[0]}
  {
    var n := |s| - 1;
    var t := s[0 := s[n]][..n];
    assert s == s[..n] + [s[n]];
    if n > 0 {
      assert s[..n] == [s[0]] + s[1..n] && t == [s[n]] + s[1..n];
    }
  }

  // ---------- Runs of the simulator ----------

  /** What the queue holds after a run, if every pop took out a node of least key. */
  ghost function After<T>(run: seq<Event<T>>): Option<multiset<Node<T>>> {
    if run == [] then Some(multiset{})
    else
      match After(run[..|run| - 1])
      case None => None
      case Some(m) => Step(m, run[|run| - 1])
  }

  /** The keys popped in a run, in order. */
  function PoppedKeys<T>(run: seq<Event<T>>): seq<int> {
    if run == [] then []
    else PoppedKeys(run[..|run| - 1]) + match run[|run| - 1] case Inserted(_) => [] case Popped(e) => [e.key]
  }

  /** No event is scheduled before the last one popped. */
  ghost predicate Causal<T>(run: seq<Event<T>>) {
    forall n :: 0 <= n < |run| && run[n].Inserted? ==>
      var k := PoppedKeys(run[..n]); k != [] ==> k[|k| - 1] <= run[n].node.key
  }

  ghost predicate Nondecreasing(s: seq<int>) {
    forall i, j :: 0 <= i < j < |s| ==> s[i] <= s[j]
  }

  /** Simulated time never runs backwards. */
  lemma {:induction false} TimeIsMonotone<T>(run: seq<Event<T>>)
    requires After(run).Some? && Causal(run)
    ensures Nondecreasing(PoppedKeys(run))
    ensures var k := PoppedKeys(run);
            k != [] ==> forall x :: x in After(run).value ==> k[|k| - 1] <= x.key
  {
    hide Causal, Nondecreasing;
    NothingDecreases();
    if run != [] {
      var n := |run| - 1;
      CausalPrefix(run);
      TimeIsMonotone(run[..n]);
      match run[n]
      case Inserted(e) =>
        assert PoppedKeys(run) == PoppedKeys(run[..n]);
      case Popped(e) =>
        LaterKey(PoppedKeys(run[..n]), e.key);
    }
  }

  lemma NothingDecreases()
    ensures Nondecreasing([])
  {
  }

  lemma LaterKey(s: seq<int>, key: int)
    requires Nondecreasing(s) && (s != [] ==> s[|s| - 1] <= key)
    ensures Nondecreasing(s + [key])
  {
    assert forall i :: 0 <= i < |s| ==> s[i] <= s[|s| - 1];
  }

  /** Filling a queue and then emptying it sorts the events. */
  lemma DrainingSorts<T>(run: seq<Event<T>>)
    requires After(run) == Some(multiset{})
    requires forall i, j :: 0 <= i < j < |run| && run[j].Inserted? ==> run[i].Inserted?
    ensures Nondecreasing(PoppedKeys(run)) && PoppedNodes(run) == InsertedNodes(run)
  {
    hide After;
    forall n | 0 <= n < |run| && run[n].Inserted?
      ensures PoppedKeys(run[..n]) == []
    {
      NothingPopped(run[..n]);
    }
    TimeIsMonotone(run);
    EventsConserved(run);
  }

  lemma {:induction false} NothingPopped<T>(run: seq<Event<T>>)
    requires forall i :: 0 <= i < |run| ==> run[i].Inserted?
    ensures PoppedKeys(run) == []
  {
    if run != [] {
      NothingPopped(run[..|run| - 1]);
    }
  }

  lemma CausalPrefix<T>(run: seq<Event<T>>)
    requires Causal(run) && run != []
    ensures var n := |run| - 1;
            Causal(run[..n]) &&
            (run[n].Inserted? ==> var k := PoppedKeys(run[..n]); k != [] ==> k[|k| - 1] <= run[n].node.key)
  {
    hide PoppedKeys;
    var n := |run| - 1;
    assert forall m :: 0 <= m < n ==> run[..n][m] == run[m] && run[..n][..m] == run[..m];
  }

  /** The nodes popped in a run. */
  ghost function PoppedNodes<T>(run: seq<Event<T>>): multiset<Node<T>> {
    if run == [] then multiset{}
    else
      PoppedNodes(run[..|run| - 1]) +
      match run[|run| - 1] case Inserted(_) => multiset{} case Popped(e) => multiset{e}
  }

  ghost function InsertedNodes<T>(run: seq<Event<T>>): multiset<Node<T>> {
    if run == [] then multiset{}
    else
      InsertedNodes(run[..|run| - 1]) +
      match run[|run| - 1] case Inserted(e) => multiset{e} case Popped(_) => multiset{}
  }

  /** Nothing is lost or made up: what was inserted is what was popped and what is left. */
  lemma {:induction false} EventsConserved<T>(run: seq<Event<T>>)
    requires After(run).Some?
    ensures InsertedNodes(run) == PoppedNodes(run) + After(run).value
  {
    hide Step;
    if run != [] {
      var n := |run| - 1;
      EventsConserved(run[..n]);
      ConservedStep(InsertedNodes(run[..n]), PoppedNodes(run[..n]), After(run[..n]).value, run[n]);
    }
  }

  lemma ConservedStep<T>(
    inserted: multiset<Node<T>>, popped: multiset<Node<T>>, m: multiset<Node<T>>, event: Event<T>)
    requires inserted == popped + m && Step(m, event).Some?
    ensures match event
            case Inserted(e) => inserted + multiset{e} == popped + Step(m, event).value
            case Popped(e) => inserted == popped + multiset{e} + Step(m, event).value
  {
    match event
    case Inserted(_) =>
    case Popped(e) => assert m == multiset{e} + (m - multiset{e});
  }

  // ---------- Runs on a heap ----------

  /** What the events of a run were asked for by: an insertion by its node, a pop by None. */
  function Asked<T>(run: seq<Event<T>>): seq<Option<Node<T>>> {
    if run == [] then []
    else Asked(run[..|run| - 1]) + [match run[|run| - 1] case Inserted(e) => Some(e) case Popped(_) => None]
  }

  /** The number of events queued after requests to an empty queue. */
  function Held<T>(requests: seq<Option<Node<T>>>): nat {
    if requests == [] then 0
    else
      var held := Held(requests[..|requests| - 1]);
      if requests[|requests| - 1].Some? then held + 1 else if held > 0 then held - 1 else 0
  }

  /** The requests without the pops that find the queue empty. */
  function Served<T>(requests: seq<Option<Node<T>>>): seq<Option<Node<T>>> {
    if requests == [] then []
    else
      var n := |requests| - 1;
      Served(requests[..n]) + if requests[n] == None && Held(requests[..n]) == 0 then [] else [requests[n]]
  }

  /** How many more insertions than pops are asked for. */
  function Balance<T>(requests: seq<Option<Node<T>>>): int {
    if requests == [] then 0
    else Balance(requests[..|requests| - 1]) + if requests[|requests| - 1].Some? then 1 else -1
  }

  /** Requests that never ask for more pops than there were insertions are all served. */
  lemma {:induction false} NothingRefused<T>(requests: seq<Option<Node<T>>>, n: nat)
    requires n <= |requests| && forall m :: 0 <= m <= n ==> Balance(requests[..m]) >= 0
    ensures Served(requests[..n]) == requests[..n] && Held(requests[..n]) == Balance(requests[..n])
  {
    if n > 0 {
      NothingRefused(requests, n - 1);
      OneMoreRequest(requests, n - 1);
      assert requests[..n][..n - 1] == requests[..n - 1];
      assert Balance(requests[..n]) >= 0;
      assert requests[..n] == requests[..n - 1] + [requests[n - 1]];
    }
  }

  lemma OneMoreEvent<T>(run: seq<Event<T>>, event: Event<T>)
    ensures After(run + [event]) == match After(run) case Some(m) => Step(m, event) case None => None
    ensures Asked(run + [event]) == Asked(run) + [if event.Inserted? then Some(event.node) else None]
  {
    hide Step;
    assert (run + [event])[..|run|] == run;
  }

  lemma NoEvents<T>()
    ensures After<T>([]) == Some(multiset{}) && Asked<T>([]) == [] == Served<T>([]) && Held<T>([]) == 0
  {
  }

  lemma OneMoreRequest<T>(requests: seq<Option<Node<T>>>, n: nat)
    requires n < |requests|
    ensures var held := Held(requests[..n]);
            && Held(requests[..n + 1]) == (if requests[n].Some? then held + 1 else if held > 0 then held - 1 else 0)
            && Served(requests[..n + 1]) ==
               Served(requests[..n]) + if requests[n] == None && held == 0 then [] else [requests[n]]
  {
    assert requests[..n + 1][..n] == requests[..n];
  }

  /**
   Requests served by an empty queue: each gives its event, except a pop that finds the queue empty; every event in
   the log is a possible one, and if nothing was scheduled in the past the popped keys never decrease.
   */
  method Simulate<T(0)>(h: Heap<T>, requests: seq<Option<Node<T>>>) returns (run: seq<Event<T>>)
    requires h.Valid() && h.size == 0
    modifies h, h.data
    ensures h.Valid() && Asked(run) == Served(requests) && h.size == Held(requests)
    ensures After(run) == Some(h.Contents())
    ensures InsertedNodes(run) == PoppedNodes(run) + h.Contents()
    ensures Causal(run) ==> Nondecreasing(PoppedKeys(run))
  {
    hide After, Step, Asked, Served, Held, Causal, Nondecreasing;
    NoEvents<T>();
    run := [];
    assert requests[..0] == [];
    for n := 0 to |requests|
      invariant h.Valid() && (h.data == old(h.data) || fresh(h.data))
      invariant After(run) == Some(h.Contents()) && Asked(run) == Served(requests[..n])
      invariant h.size == Held(requests[..n])
    {
      OneMoreRequest(requests, n);
      if requests[n].Some? {
        var e := requests[n].value;
        h.Insert(e.data, e.key);
        OneMoreEvent(run, Inserted(Node(e.data, e.key)));
        run := run + [Inserted(Node(e.data, e.key))];
      } else if h.size > 0 {
        var event, key := h.PopMin();
        OneMoreEvent(run, Popped(Node(event, key)));
        run := run + [Popped(Node(event, key))];
      }
    }
    assert requests[..|requests|] == requests;
    EventsConserved(run);
    if Causal(run) {
      TimeIsMonotone(run);
    }
  }
}
