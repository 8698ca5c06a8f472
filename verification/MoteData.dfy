/** All motes' samples: an array of per-mote stores that grows with the largest mote identifier. */
module MoteData {
  import opened Wrappers
  import opened SampleStore

  class Data {
    const config: Config
    var nodes: array<Node?>
    ghost var repr: set<object>

    ghost predicate Valid()
      reads this, repr
    {
      && config.Valid() && nodes in repr && this !in repr
      && (forall i :: 0 <= i < nodes.Length && nodes[i] != null ==> nodes[i] in repr && nodes[i].config == config)
      && (forall i :: 0 <= i < nodes.Length && nodes[i] != null && nodes[i].data != null ==>
            nodes[i].data in repr && nodes[i].data as object != nodes)
      && (forall i :: 0 <= i < nodes.Length && nodes[i] != null ==> nodes[i].Valid())
      && (forall i, j :: 0 <= i < j < nodes.Length && nodes[i] != null && nodes[j] != null ==>
            nodes[i] != nodes[j] && (nodes[i].data != null ==> nodes[i].data != nodes[j].data))
    }

    /** What is held of a mote; None for a mote never heard of. */
    ghost function Mote(m: int): Option<Samples>
      requires Valid()
      reads this, repr
    {
      if 0 <= m < nodes.Length && nodes[m] != null then Some(nodes[m].samples) else None
    }

    constructor (config: Config)
      requires config.Valid()
      ensures Valid() && fresh(repr) && this.config == config && nodes.Length == 256
      ensures forall m :: Mote(m) == None
    {
      this.config := config;
      nodes := new Node?[256](_ => null);
      new;
      repr := {nodes};
    }

    /** A message from a mote: its store is updated, and every other mote keeps its own. */
    method Update(nodeId: nat, messageId: int, readings: seq<int>)
      requires Valid() && |readings| == config.nreadings
      modifies this, repr
      ensures Valid() && fresh(repr - old(repr))
      ensures forall m :: Mote(m) ==
                if m == nodeId
                then Some(Updated(config, if old(Mote(m)).None? then NO_SAMPLES else old(Mote(m)).value,
                                  messageId * config.nreadings, readings))
                else old(Mote(m))
    {
      if nodeId >= nodes.Length {
        Grow(nodeId);
      }
      if nodes[nodeId] == null {
        AddMote(nodeId);
      }
      UpdateMote(nodeId, messageId, readings);
    }

    method AddMote(nodeId: nat)
      requires Valid() && nodeId < nodes.Length && nodes[nodeId] == null
      modifies this`repr, nodes
      ensures Valid() && fresh(repr - old(repr)) && nodes[nodeId] != null && nodes == old(nodes)
      ensures forall m :: Mote(m) == if m == nodeId then Some(NO_SAMPLES) else old(Mote(m))
    {
      var node := new Node(nodeId, config);
      nodes[nodeId] := node;
      repr := repr + {node};
    }

    method UpdateMote(nodeId: nat, messageId: int, readings: seq<int>)
      requires Valid() && nodeId < nodes.Length && nodes[nodeId] != null && |readings| == config.nreadings
      modifies this`repr, nodes[nodeId], nodes[nodeId].data
      ensures Valid() && fresh(repr - old(repr))
      ensures forall m :: Mote(m) ==
                if m == nodeId
                then Some(Updated(config, old(nodes[nodeId].samples), messageId * config.nreadings, readings))
                else old(Mote(m))
    {
      hide Updated;
      var node := nodes[nodeId];
      node.Update(messageId, readings);
      repr := repr + {node.data};
    }

    /** Double the array, or make it just long enough, keeping every mote. */
    method Grow(nodeId: nat)
      requires Valid() && nodeId >= nodes.Length
      modifies this`nodes, this`repr
      ensures Valid() && nodeId < nodes.Length && fresh(nodes) && repr == old(repr) + {nodes}
      ensures nodes.Length == if nodeId >= 2 * old(nodes.Length) then nodeId + 1 else 2 * old(nodes.Length)
      ensures forall m :: Mote(m) == old(Mote(m))
    {
      var newLength := nodes.Length * 2;
      if nodeId >= newLength {
        newLength := nodeId + 1;
      }
      var newNodes := new Node?[newLength](_ => null);
      forall i | 0 <= i < nodes.Length {
        newNodes[i] := nodes[i];
      }
      assert forall i :: 0 <= i < newNodes.Length && newNodes[i] != null ==>
               i < nodes.Length && newNodes[i] == nodes[i];
      nodes := newNodes;
      repr := repr + {newNodes};
    }

    /** The value of sample x of a mote, or -1. */
    method GetData(nodeId: nat, x: int) returns (v: int)
      requires Valid()
      ensures v == if Mote(nodeId).Some? && x in Mote(nodeId).value.known then Mote(nodeId).value.known[x] else -1
    {
      if nodeId >= nodes.Length || nodes[nodeId] == null {
        return -1;
      }
      v := nodes[nodeId].GetData(x);
    }

    /** The number of a mote's last known sample; 0 for an unknown mote. */
    method MoteMaxX(nodeId: nat) returns (n: int)
      requires Valid()
      ensures n == if Mote(nodeId).None? then 0 else Mote(nodeId).value.end - 1
    {
      if nodeId >= nodes.Length || nodes[nodeId] == null {
        return 0;
      }
      n := nodes[nodeId].MaxX();
    }

    /** The number of the largest known sample of any mote, or 0. */
    method MaxX() returns (max: int)
      requires Valid()
      ensures max >= 0 && forall m :: Mote(m).Some? ==> Mote(m).value.end - 1 <= max
      ensures max == 0 || exists m :: Mote(m).Some? && Mote(m).value.end - 1 == max
    {
      max := 0;
      ghost var holder := 0;
      for i := 0 to nodes.Length
        invariant max >= 0 && forall m :: 0 <= m < i && nodes[m] != null ==> nodes[m].samples.end - 1 <= max
        invariant max == 0 || (Mote(holder).Some? && Mote(holder).value.end - 1 == max)
      {
        if nodes[i] != null {
          var nmax := nodes[i].MaxX();
          if nmax > max {
            max := nmax;
            holder := i;
          }
        }
      }
    }
  }

  // ---------- Runs ----------

  /** A message as it comes from the network. */
  datatype Report = Report(nodeId: nat, messageId: int, readings: seq<int>)

  ghost predicate AllFull(c: Config, reports: seq<Report>) {
    forall n :: 0 <= n < |reports| ==> |reports[n].readings| == c.nreadings
  }

  /** The messages of one mote among those of all. */
  function Own(c: Config, reports: seq<Report>, m: int): seq<Message> {
    if reports == [] then []
    else
      var r := reports[|reports| - 1];
      Own(c, reports[..|reports| - 1], m) +
      if r.nodeId == m then [Message(r.messageId * c.nreadings, r.readings)] else []
  }

  lemma {:induction false} OwnProper(c: Config, reports: seq<Report>, m: int)
    requires AllFull(c, reports)
    ensures Proper(c, Own(c, reports, m))
  {
    if reports != [] {
      OwnProper(c, reports[..|reports| - 1], m);
    }
  }

  /** What a store that has seen nothing but a mote's own messages holds. */
  ghost function StoreOf(c: Config, reports: seq<Report>, m: int): Option<Samples>
    requires AllFull(c, reports)
  {
    OwnProper(c, reports, m);
    if Own(c, reports, m) == [] then None else Some(After(c, Own(c, reports, m)))
  }

  lemma OneMoreReport(c: Config, reports: seq<Report>, r: Report, m: int)
    requires AllFull(c, reports) && |r.readings| == c.nreadings
    ensures AllFull(c, reports + [r])
    ensures var was := StoreOf(c, reports, m);
            StoreOf(c, reports + [r], m) ==
            if m == r.nodeId
            then Some(Updated(c, if was.None? then NO_SAMPLES else was.value, r.messageId * c.nreadings, r.readings))
            else was
  {
    hide Updated;
    var all := reports + [r];
    assert all[..|all| - 1] == reports;
    OwnProper(c, reports, m);
    OwnProper(c, all, m);
    var own := Own(c, reports, m);
    if m == r.nodeId {
      var message := Message(r.messageId * c.nreadings, r.readings);
      assert (own + [message])[..|own|] == own;
    } else {
      assert own + [] == own;
    }
  }

  /** Receiving any messages in any interleaving leaves each mote with what its own messages make of a new store. */
  method Receive(data: Data, reports: seq<Report>)
    requires data.Valid() && AllFull(data.config, reports) && forall m :: data.Mote(m) == None
    modifies data, data.repr
    ensures data.Valid() && fresh(data.repr - old(data.repr))
    ensures forall m :: data.Mote(m) == StoreOf(data.config, reports, m)
  {
    hide Updated;
    for n := 0 to |reports|
      invariant data.Valid() && fresh(data.repr - old(data.repr)) && AllFull(data.config, reports[..n])
      invariant forall m :: data.Mote(m) == StoreOf(data.config, reports[..n], m)
    {
      var r := reports[n];
      forall m: int
        ensures AllFull(data.config, reports[..n] + [r])
        ensures StoreOf(data.config, reports[..n] + [r], m) ==
                if m == r.nodeId
                then Some(Updated(data.config, if data.Mote(m).None? then NO_SAMPLES else data.Mote(m).value,
                                  r.messageId * data.config.nreadings, r.readings))
                else data.Mote(m)
      {
        OneMoreReport(data.config, reports[..n], r, m);
      }
      data.Update(r.nodeId, r.messageId, r.readings);
      assert reports[..n + 1] == reports[..n] + [r];
    }
    assert reports[..|reports|] == reports;
  }

  /** The value a mote last sent for a sample. */
  function LatestFrom(c: Config, reports: seq<Report>, m: int, x: int): Option<int> {
    if reports == [] then None
    else
      var r := reports[|reports| - 1];
      var at := x - r.messageId * c.nreadings;
      if r.nodeId == m && 0 <= at < |r.readings| then Some(r.readings[at])
      else LatestFrom(c, reports[..|reports| - 1], m, x)
  }

  /** Whatever the other motes send, a readable sample has the value its own mote last sent for it. */
  lemma MoteSampleIsLatest(c: Config, reports: seq<Report>, m: int, x: int)
    requires AllFull(c, reports) && StoreOf(c, reports, m).Some? && x in StoreOf(c, reports, m).value.known
    ensures LatestFrom(c, reports, m, x) == Some(StoreOf(c, reports, m).value.known[x])
  {
    OwnProper(c, reports, m);
    KnownIsLatest(c, Own(c, reports, m), x);
    LatestOfOwn(c, reports, m, x);
  }

  lemma {:induction false} LatestOfOwn(c: Config, reports: seq<Report>, m: int, x: int)
    ensures Latest(Own(c, reports, m), x) == LatestFrom(c, reports, m, x)
  {
    if reports != [] {
      var n := |reports| - 1;
      LatestOfOwn(c, reports[..n], m, x);
      var own := Own(c, reports[..n], m);
      if reports[n].nodeId == m {
        var message := Message(reports[n].messageId * c.nreadings, reports[n].readings);
        assert (own + [message])[..|own|] == own;
      } else {
        assert own + [] == own;
      }
    }
  }
}
