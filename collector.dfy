/** The live collector (meshnetmap/collector/collect.py, `NetworkTopologyCollector`):
    the topology dictionary it fills from received packets and from the radio's
    node database, and the hop inference it runs when no neighbour report
    arrived.  The radio, the clock and the polling sleep are parameters. */
module Collector {
  import opened Common
  import opened Records
  import opened HopTable
  import InferV2

  const NEIGHBORINFO_APP: string := "NEIGHBORINFO_APP"
  const UNKNOWN_TYPE: string := "Unknown"

  // ---------------------------------------------------------------------------
  // Packets, as the pubsub callback receives them
  // ---------------------------------------------------------------------------

  /** One entry of a neighbour list; `nodeIdSnake` is the `node_id` key and
      `lastRxSnr` the `last_rx_snr` key. */
  datatype Neighbor = Neighbor(
    nodeId: Option<NodeId>,
    nodeIdSnake: Option<NodeId>,
    id: Option<NodeId>,
    snr: Option<real>,
    lastRxSnr: Option<real>)

  /** The `decoded.neighborinfo` dictionary, of which only the `neighbors` key is read. */
  datatype NeighborInfo = NeighborInfo(neighbors: Option<seq<Neighbor>>)

  datatype Decoded = Decoded(
    portnum: Option<string>,
    neighborinfo: Option<NeighborInfo>,
    neighbors: Option<seq<Neighbor>>)

  datatype Packet = Packet(
    fromId: Option<NodeId>,
    from: Option<NodeId>,
    toId: Option<NodeId>,
    to: Option<NodeId>,
    hopStart: Option<int>,
    hopLimit: Option<int>,
    hopsAway: Option<int>,
    rxSnr: Option<real>,
    rxRssi: Option<int>,
    decoded: Option<Decoded>,
    neighbors: Option<seq<Neighbor>>)

  /** The sender: `fromId`, or `from` when that key is missing. */
  function Sender(p: Packet): Option<NodeId> {
    if p.fromId.Some? then p.fromId else p.from
  }

  /** The receiver: `toId`, or `to` when that key is missing. */
  function Receiver(p: Packet): Option<NodeId> {
    if p.toId.Some? then p.toId else p.to
  }

  /** `packet['decoded']['portnum']` when both keys are there. */
  function PortOf(p: Packet): Option<string> {
    if p.decoded.Some? then p.decoded.value.portnum else None
  }

  // ---------------------------------------------------------------------------
  // process_routing_info
  // ---------------------------------------------------------------------------

  /** A path the collector keeps: it has a sender and a hop count that is not negative. */
  predicate GoodPath(r: RoutingPath) {
    TruthyId(r.from) && r.hopsAway.Some? && r.hopsAway.value >= 0
  }

  /** The routing observation one packet yields, if any. */
  function RoutingRecord(p: Packet, now: string): (r: Option<RoutingPath>)
    ensures r.Some? <==> TruthyId(Sender(p)) && p.hopsAway.GetOr(0) >= 0
    ensures r.Some? ==> GoodPath(r.value)
    ensures r.Some? ==> && r.value.from == Sender(p) && r.value.to == Receiver(p)
                        && r.value.hopsAway == Some(p.hopsAway.GetOr(0))
                        && r.value.packetType == Some(PortOf(p).GetOr(UNKNOWN_TYPE))
                        && r.value.timestamp == Some(now)
  {
    var from := Sender(p);
    var hopsAway := p.hopsAway.GetOr(0);
    if !TruthyId(from) || hopsAway < 0 then None
    else Some(RoutingPath(from, Receiver(p), Some(hopsAway), Some(p.hopStart.GetOr(0)), Some(p.hopLimit.GetOr(0)),
                          Some(p.rxSnr.GetOr(0.0)), Some(p.rxRssi.GetOr(0)),
                          Some(PortOf(p).GetOr(UNKNOWN_TYPE)), Some(now)))
  }

  function RecordsOf(p: Packet, now: string): seq<RoutingPath> {
    if RoutingRecord(p, now).Some? then [RoutingRecord(p, now).value] else []
  }

  // ---------------------------------------------------------------------------
  // process_neighbor_info
  // ---------------------------------------------------------------------------

  /** A neighbour's id: the first of `nodeId`, `node_id`, `id` that is present. */
  function NeighborId(n: Neighbor): Option<NodeId> {
    if n.nodeId.Some? then n.nodeId else if n.nodeIdSnake.Some? then n.nodeIdSnake else n.id
  }

  /** A neighbour's SNR: `snr`, else `last_rx_snr`, else 0. */
  function NeighborSnr(n: Neighbor): real {
    if n.snr.Some? then n.snr.value else n.lastRxSnr.GetOr(0.0)
  }

  /** The neighbour list a packet carries: `decoded.neighborinfo.neighbors` when
      `decoded.neighborinfo` is present (even if that dictionary has no list),
      else `decoded.neighbors`, else the packet's own `neighbors`; a list that is
      missing everywhere reads as empty. */
  function NeighborList(p: Packet): seq<Neighbor> {
    if p.decoded.Some? && p.decoded.value.neighborinfo.Some? then p.decoded.value.neighborinfo.value.neighbors.GetOr([])
    else if p.decoded.Some? && p.decoded.value.neighbors.Some? then p.decoded.value.neighbors.value
    else p.neighbors.GetOr([])
  }

  function NeighborLink(from: NodeId, n: Neighbor, now: string): Link
    requires NeighborId(n).Some?
  {
    Link(from, NeighborId(n).value, NeighborSnr(n), Confirmed, High, None, None, None, None, None, now)
  }

  /** The links a neighbour report yields: one per neighbour whose id is truthy, in list order. */
  function NeighborLinks(from: NodeId, ns: seq<Neighbor>, now: string): (r: seq<Link>)
    ensures |r| <= |ns|
  {
    if ns == [] then []
    else
      var last := ns[|ns| - 1];
      NeighborLinks(from, ns[..|ns| - 1], now) + (if TruthyId(NeighborId(last)) then [NeighborLink(from, last, now)] else [])
  }

  /** Every link of a report is a confirmed, high-confidence link from the sender
      to a neighbour of the list that has an id. */
  lemma {:induction false} NeighborLinksOrigin(from: NodeId, ns: seq<Neighbor>, now: string, l: Link)
    requires l in NeighborLinks(from, ns, now)
    ensures exists k :: 0 <= k < |ns| && TruthyId(NeighborId(ns[k])) && l == NeighborLink(from, ns[k], now)
    ensures l.from == from && l.to != "" && l.kind == Confirmed && l.confidence == High
  {
    var init := ns[..|ns| - 1];
    if l in NeighborLinks(from, init, now) {
      NeighborLinksOrigin(from, init, now, l);
      var k :| 0 <= k < |init| && TruthyId(NeighborId(init[k])) && l == NeighborLink(from, init[k], now);
      assert ns[k] == init[k];
    } else {
      assert l == NeighborLink(from, ns[|ns| - 1], now);
    }
  }

  /** Every neighbour that has an id yields its link. */
  lemma {:induction false} NeighborLinksHas(from: NodeId, ns: seq<Neighbor>, now: string, k: nat)
    requires k < |ns| && TruthyId(NeighborId(ns[k]))
    ensures NeighborLink(from, ns[k], now) in NeighborLinks(from, ns, now)
  {
    var init := ns[..|ns| - 1];
    if k < |ns| - 1 {
      assert ns[k] == init[k];
      NeighborLinksHas(from, init, now, k);
    }
  }

  /** A report in which every neighbour has an id yields one link per neighbour. */
  lemma {:induction false} NeighborLinksAllNamed(from: NodeId, ns: seq<Neighbor>, now: string)
    requires forall k :: 0 <= k < |ns| ==> TruthyId(NeighborId(ns[k]))
    ensures |NeighborLinks(from, ns, now)| == |ns|
  {
    if ns != [] {
      var init := ns[..|ns| - 1];
      assert forall k :: 0 <= k < |init| ==> init[k] == ns[k];
      NeighborLinksAllNamed(from, init, now);
    }
  }

  // ---------------------------------------------------------------------------
  // The node database and its refresh
  // ---------------------------------------------------------------------------

  /** The record the collector stores for a node of the radio's database:
      `hopsAway` defaults to -1 and `position` to the empty dictionary. */
  function Stored(e: NodeEntry): NodeEntry {
    NodeEntry(e.id, NodeRecord(Some(HopsOrMinusOne(e.info)), e.info.snr, e.info.lastHeard,
                               Some(e.info.position.GetOr(Position(None, None)))))
  }

  function Ids(nodes: seq<NodeEntry>): set<NodeId> {
    if nodes == [] then {} else Ids(nodes[..|nodes| - 1]) + {nodes[|nodes| - 1].id}
  }

  lemma {:induction false} IdsMember(nodes: seq<NodeEntry>, id: NodeId)
    ensures id in Ids(nodes) <==> exists k :: 0 <= k < |nodes| && nodes[k].id == id
  {
    if nodes != [] {
      var init := nodes[..|nodes| - 1];
      IdsMember(init, id);
      if id in Ids(init) {
        var k :| 0 <= k < |init| && init[k].id == id;
        assert nodes[k] == init[k];
      }
      forall k | 0 <= k < |init| ensures nodes[k] == init[k] { }
    }
  }

  /** Where `id` sits in the dictionary: the first entry with that key. */
  function Find(nodes: seq<NodeEntry>, id: NodeId): (r: Option<nat>)
    ensures r.Some? ==> r.value < |nodes| && nodes[r.value].id == id
    ensures r.None? <==> id !in Ids(nodes)
  {
    if nodes == [] then None
    else
      var init := nodes[..|nodes| - 1];
      var k := Find(init, id);
      if k.Some? then Some(k.value)
      else if nodes[|nodes| - 1].id == id then Some(|nodes| - 1)
      else None
  }

  /** `d[id] = record`: an existing key keeps its place and takes the new value,
      a new key goes last. */
  function Put(nodes: seq<NodeEntry>, e: NodeEntry): seq<NodeEntry> {
    var k := Find(nodes, e.id);
    if k.Some? then nodes[k.value := e] else nodes + [e]
  }

  /** Adds a record only under an id the dictionary does not hold yet. */
  function InsertIfAbsent(nodes: seq<NodeEntry>, e: NodeEntry): seq<NodeEntry> {
    if Find(nodes, e.id).Some? then nodes else nodes + [e]
  }

  /** The initial load: every node of the radio's database, stored over whatever was there. */
  function LoadAll(nodes: seq<NodeEntry>, device: seq<NodeEntry>): seq<NodeEntry> {
    if device == [] then nodes
    else Put(LoadAll(nodes, device[..|device| - 1]), Stored(device[|device| - 1]))
  }

  /** One poll of the radio's database: only ids not yet stored are added. */
  function RefreshAll(nodes: seq<NodeEntry>, device: seq<NodeEntry>): seq<NodeEntry> {
    if device == [] then nodes
    else InsertIfAbsent(RefreshAll(nodes, device[..|device| - 1]), Stored(device[|device| - 1]))
  }

  /** The polls of the collection loop, one database snapshot per poll. */
  function RefreshEach(nodes: seq<NodeEntry>, polls: seq<seq<NodeEntry>>): seq<NodeEntry> {
    if polls == [] then nodes
    else RefreshAll(RefreshEach(nodes, polls[..|polls| - 1]), polls[|polls| - 1])
  }

  lemma PutIds(nodes: seq<NodeEntry>, e: NodeEntry)
    ensures Ids(Put(nodes, e)) == Ids(nodes) + {e.id}
    ensures DistinctIds(nodes) ==> DistinctIds(Put(nodes, e))
  {
    var k := Find(nodes, e.id);
    if k.Some? {
      var r := nodes[k.value := e];
      forall id ensures id in Ids(r) <==> id in Ids(nodes) {
        IdsMember(r, id);
        IdsMember(nodes, id);
        if id in Ids(r) {
          var i :| 0 <= i < |r| && r[i].id == id;
          assert nodes[i].id == id;
        }
        if id in Ids(nodes) {
          var i :| 0 <= i < |nodes| && nodes[i].id == id;
          assert r[i].id == id;
        }
      }
    } else {
      assert (nodes + [e])[..|nodes|] == nodes;
      if DistinctIds(nodes) {
        forall i | 0 <= i < |nodes| ensures nodes[i].id != e.id {
          IdsMember(nodes, e.id);
        }
      }
    }
  }

  lemma InsertIds(nodes: seq<NodeEntry>, e: NodeEntry)
    ensures Ids(InsertIfAbsent(nodes, e)) == Ids(nodes) + {e.id}
    ensures DistinctIds(nodes) ==> DistinctIds(InsertIfAbsent(nodes, e))
    ensures nodes <= InsertIfAbsent(nodes, e)
  {
    if Find(nodes, e.id).None? {
      assert (nodes + [e])[..|nodes|] == nodes;
      if DistinctIds(nodes) {
        forall i | 0 <= i < |nodes| ensures nodes[i].id != e.id {
          IdsMember(nodes, e.id);
        }
      }
    }
  }

  /** A poll adds exactly the ids of the snapshot, keeps keys unique, and never
      moves or overwrites a stored record: the first-seen record wins. */
  lemma {:induction false} RefreshAllSpec(nodes: seq<NodeEntry>, device: seq<NodeEntry>)
    ensures Ids(RefreshAll(nodes, device)) == Ids(nodes) + Ids(device)
    ensures DistinctIds(nodes) ==> DistinctIds(RefreshAll(nodes, device))
    ensures nodes <= RefreshAll(nodes, device)
  {
    if device != [] {
      var init := device[..|device| - 1];
      var last := device[|device| - 1];
      RefreshAllSpec(nodes, init);
      InsertIds(RefreshAll(nodes, init), Stored(last));
    }
  }

  /** Dropping the last entry of a dictionary keeps its keys unique, and the
      dropped key is not among the rest. */
  lemma DistinctInit(device: seq<NodeEntry>)
    requires DistinctIds(device) && device != []
    ensures DistinctIds(device[..|device| - 1])
    ensures device[|device| - 1].id !in Ids(device[..|device| - 1])
  {
    var init := device[..|device| - 1];
    forall a, b | 0 <= a < b < |init| ensures init[a].id != init[b].id {
      assert init[a] == device[a] && init[b] == device[b];
    }
    IdsMember(init, device[|device| - 1].id);
    forall k | 0 <= k < |init| ensures init[k].id != device[|device| - 1].id {
      assert init[k] == device[k];
    }
  }

  /** Every node of a poll that was not stored before is stored as the radio reported it. */
  lemma {:induction false} RefreshAllStores(nodes: seq<NodeEntry>, device: seq<NodeEntry>, j: nat)
    requires DistinctIds(device) && j < |device| && device[j].id !in Ids(nodes)
    ensures Stored(device[j]) in RefreshAll(nodes, device)
  {
    var init := device[..|device| - 1];
    var last := device[|device| - 1];
    var m := RefreshAll(nodes, init);
    DistinctInit(device);
    RefreshAllSpec(nodes, init);
    InsertIds(m, Stored(last));
    if j < |device| - 1 {
      assert device[j] == init[j];
      RefreshAllStores(nodes, init, j);
    } else {
      assert Find(m, last.id).None?;
      assert InsertIfAbsent(m, Stored(last)) == m + [Stored(last)];
    }
  }

  /** A poll whose ids are all stored already changes nothing. */
  lemma {:induction false} RefreshAllNoop(nodes: seq<NodeEntry>, device: seq<NodeEntry>)
    requires Ids(device) <= Ids(nodes)
    ensures RefreshAll(nodes, device) == nodes
  {
    if device != [] {
      var init := device[..|device| - 1];
      var last := device[|device| - 1];
      assert Ids(device) == Ids(init) + {last.id};
      RefreshAllNoop(nodes, init);
    }
  }

  /** Polling the same snapshot twice is polling it once. */
  lemma RefreshAllIdempotent(nodes: seq<NodeEntry>, device: seq<NodeEntry>)
    ensures RefreshAll(RefreshAll(nodes, device), device) == RefreshAll(nodes, device)
  {
    RefreshAllSpec(nodes, device);
    RefreshAllNoop(RefreshAll(nodes, device), device);
  }

  /** Across the polls of a run, stored records stay where they are, unchanged. */
  lemma {:induction false} RefreshEachKeeps(nodes: seq<NodeEntry>, polls: seq<seq<NodeEntry>>)
    ensures nodes <= RefreshEach(nodes, polls)
    ensures DistinctIds(nodes) ==> DistinctIds(RefreshEach(nodes, polls))
  {
    if polls != [] {
      var init := polls[..|polls| - 1];
      RefreshEachKeeps(nodes, init);
      RefreshAllSpec(RefreshEach(nodes, init), polls[|polls| - 1]);
    }
  }

  /** The initial load adds exactly the ids of the snapshot and keeps keys unique. */
  lemma {:induction false} LoadAllIds(nodes: seq<NodeEntry>, device: seq<NodeEntry>)
    ensures Ids(LoadAll(nodes, device)) == Ids(nodes) + Ids(device)
    ensures DistinctIds(nodes) ==> DistinctIds(LoadAll(nodes, device))
    ensures |nodes| <= |LoadAll(nodes, device)|
  {
    if device != [] {
      var init := device[..|device| - 1];
      LoadAllIds(nodes, init);
      PutIds(LoadAll(nodes, init), Stored(device[|device| - 1]));
    }
  }

  /** After the initial load, a stored node the radio does not list keeps its
      record and its place. */
  lemma {:induction false} LoadAllKeeps(nodes: seq<NodeEntry>, device: seq<NodeEntry>, k: nat)
    requires k < |nodes| && nodes[k].id !in Ids(device)
    ensures k < |LoadAll(nodes, device)| && LoadAll(nodes, device)[k] == nodes[k]
  {
    if device != [] {
      var init := device[..|device| - 1];
      var last := device[|device| - 1];
      assert Ids(device) == Ids(init) + {last.id};
      LoadAllKeeps(nodes, init, k);
      var m := LoadAll(nodes, init);
      var f := Find(m, last.id);
      if f.Some? {
        assert f.value != k;
      }
    }
  }

  /** A stored entry survives `d[id] = record` for any other id; the new record is stored. */
  lemma PutMembers(m: seq<NodeEntry>, e: NodeEntry, x: NodeEntry)
    ensures e in Put(m, e)
    ensures x in m && x.id != e.id ==> x in Put(m, e)
  {
    var f := Find(m, e.id);
    if f.Some? {
      assert Put(m, e)[f.value] == e;
      if x in m && x.id != e.id {
        var i :| 0 <= i < |m| && m[i] == x;
        assert Put(m, e)[i] == x;
      }
    } else {
      assert Put(m, e)[|m|] == e;
    }
  }

  /** After the initial load, every node the radio lists holds the record the radio gave. */
  lemma {:induction false} LoadAllStores(nodes: seq<NodeEntry>, device: seq<NodeEntry>, j: nat)
    requires DistinctIds(device) && j < |device|
    ensures Stored(device[j]) in LoadAll(nodes, device)
  {
    var init := device[..|device| - 1];
    var last := device[|device| - 1];
    var m := LoadAll(nodes, init);
    if j < |device| - 1 {
      assert device[j] == init[j];
      DistinctInit(device);
      LoadAllStores(nodes, init, j);
      PutMembers(m, Stored(last), Stored(device[j]));
    } else {
      PutMembers(m, Stored(last), Stored(last));
    }
  }

  // ---------------------------------------------------------------------------
  // The packet-type statistics
  // ---------------------------------------------------------------------------

  /** How many packets carry `decoded.portnum == t`. */
  function PortCount(packets: seq<Packet>, t: string): nat {
    if packets == [] then 0
    else PortCount(packets[..|packets| - 1], t) + (if PortOf(packets[|packets| - 1]) == Some(t) then 1 else 0)
  }

  /** `packet_types`, built one packet at a time. */
  function TallyOf(packets: seq<Packet>): map<string, nat> {
    if packets == [] then map[]
    else
      var m := TallyOf(packets[..|packets| - 1]);
      var p := PortOf(packets[|packets| - 1]);
      if p.Some? then m[p.value := (if p.value in m then m[p.value] else 0) + 1] else m
  }

  /** The tally holds exactly the port numbers that occur, each with its number of packets. */
  lemma {:induction false} TallyCounts(packets: seq<Packet>, t: string)
    ensures t in TallyOf(packets) <==> PortCount(packets, t) > 0
    ensures t in TallyOf(packets) ==> TallyOf(packets)[t] == PortCount(packets, t)
  {
    if packets != [] {
      TallyCounts(packets[..|packets| - 1], t);
    }
  }

  /** The direct-link loop of `infer_connections_from_hops`. */
  method AppendDirectLinks(byHop: map<int, seq<HopNode>>, ghost nodes: seq<NodeEntry>, now: string, links0: seq<Link>)
    returns (links: seq<Link>)
    requires HopTableOf(byHop, nodes)
    ensures links == links0 + InferV2.DirectLinks(nodes, now)
  {
    links := links0;
    if 0 in byHop && 1 in byHop {
      links := InferV2.DirectStep(byHop[0], byHop[1], now, links);
    }
  }

  lemma V2LinksSplit(nodes: seq<NodeEntry>, now: string, links0: seq<Link>)
    requires MaxHop(nodes) >= 0
    ensures links0 + InferV2.V2Links(nodes, now)
            == links0 + InferV2.DirectLinks(nodes, now) + InferV2.HopLinks(nodes, now, MaxHop(nodes))
  {
  }

  /** The body of `infer_connections_from_hops` on the list it appends to. */
  method AppendHopLinks(nodes: seq<NodeEntry>, now: string, links0: seq<Link>) returns (links: seq<Link>)
    ensures links == links0 + InferV2.V2Links(nodes, now)
  {
    var nodesByHop := GroupByHop(nodes);
    links := links0;
    if |nodesByHop| == 0 {
      assert InferV2.V2Links(nodes, now) == [];
      return;
    }
    links := AppendDirectLinks(nodesByHop, nodes, now, links);
    var maxHop := MaxHop(nodes);
    links := InferV2.HopStep(nodesByHop, nodes, maxHop, now, links);
    V2LinksSplit(nodes, now, links0);
  }

  // ---------------------------------------------------------------------------
  // The collector
  // ---------------------------------------------------------------------------

  class NetworkTopologyCollector {
    /** `topology_data['nodes']`, in insertion order. */
    var nodes: seq<NodeEntry>
    var connections: seq<Link>
    var routingPaths: seq<RoutingPath>
    var metadata: Metadata
    var receivedPackets: seq<Packet>

    ghost predicate Valid()
      reads this
    {
      DistinctIds(nodes) && forall k :: 0 <= k < |routingPaths| ==> GoodPath(routingPaths[k])
    }

    constructor()
      ensures Valid()
      ensures nodes == [] && connections == [] && routingPaths == [] && receivedPackets == []
      ensures metadata == Metadata(None, None)
    {
      nodes := [];
      connections := [];
      routingPaths := [];
      metadata := Metadata(None, None);
      receivedPackets := [];
    }

    /** `process_routing_info`: at most one observation is appended. */
    method ProcessRoutingInfo(packet: Packet, now: string)
      requires Valid()
      modifies this
      ensures Valid()
      ensures routingPaths == old(routingPaths) + RecordsOf(packet, now)
      ensures nodes == old(nodes) && connections == old(connections)
      ensures metadata == old(metadata) && receivedPackets == old(receivedPackets)
    {
      var fromNode := Sender(packet);
      var hopsAway := packet.hopsAway.GetOr(0);
      if !TruthyId(fromNode) {
        return;
      }
      var packetType := PortOf(packet).GetOr(UNKNOWN_TYPE);
      if hopsAway >= 0 {
        var routingPath := RoutingPath(fromNode, Receiver(packet), Some(hopsAway), Some(packet.hopStart.GetOr(0)),
                                       Some(packet.hopLimit.GetOr(0)), Some(packet.rxSnr.GetOr(0.0)),
                                       Some(packet.rxRssi.GetOr(0)), Some(packetType), Some(now));
        routingPaths := routingPaths + [routingPath];
      }
    }

    /** `process_neighbor_info`: one confirmed link per named neighbour, in order.
        A packet without a sender yields links from the empty id. */
    method ProcessNeighborInfo(packet: Packet, now: string)
      modifies this
      ensures connections == old(connections) + NeighborLinks(Sender(packet).GetOr(""), NeighborList(packet), now)
      ensures nodes == old(nodes) && routingPaths == old(routingPaths)
      ensures metadata == old(metadata) && receivedPackets == old(receivedPackets)
    {
      var fromNode := Sender(packet).GetOr("");
      var neighbors := NeighborList(packet);
      var i := 0;
      while i < |neighbors|
        invariant 0 <= i <= |neighbors|
        invariant connections == old(connections) + NeighborLinks(fromNode, neighbors[..i], now)
        invariant nodes == old(nodes) && routingPaths == old(routingPaths)
        invariant metadata == old(metadata) && receivedPackets == old(receivedPackets)
      {
        var neighbor := neighbors[i];
        var toNode := NeighborId(neighbor);
        assert neighbors[..i + 1][..i] == neighbors[..i];
        if TruthyId(toNode) {
          var connection := Link(fromNode, toNode.value, NeighborSnr(neighbor), Confirmed, High,
                                 None, None, None, None, None, now);
          connections := connections + [connection];
        }
        i := i + 1;
      }
      assert neighbors[..i] == neighbors;
    }

    /** `on_receive`: the packet is kept, its routing observation recorded, and a
        neighbour report processed. */
    method OnReceive(packet: Packet, now: string)
      requires Valid()
      modifies this
      ensures Valid()
      ensures receivedPackets == old(receivedPackets) + [packet]
      ensures routingPaths == old(routingPaths) + RecordsOf(packet, now)
      ensures connections == old(connections) +
                (if PortOf(packet) == Some(NEIGHBORINFO_APP)
                 then NeighborLinks(Sender(packet).GetOr(""), NeighborList(packet), now) else [])
      ensures nodes == old(nodes) && metadata == old(metadata)
    {
      receivedPackets := receivedPackets + [packet];
      ProcessRoutingInfo(packet, now);
      if PortOf(packet) == Some(NEIGHBORINFO_APP) {
        ProcessNeighborInfo(packet, now);
      }
    }

    /** The initial copy of the radio's node database. */
    method LoadNodes(device: seq<NodeEntry>)
      requires Valid()
      modifies this
      ensures Valid()
      ensures nodes == LoadAll(old(nodes), device)
      ensures connections == old(connections) && routingPaths == old(routingPaths)
      ensures metadata == old(metadata) && receivedPackets == old(receivedPackets)
    {
      var i := 0;
      while i < |device|
        invariant 0 <= i <= |device|
        invariant nodes == LoadAll(old(nodes), device[..i]) && DistinctIds(nodes)
        invariant connections == old(connections) && routingPaths == old(routingPaths)
        invariant metadata == old(metadata) && receivedPackets == old(receivedPackets)
      {
        assert device[..i + 1][..i] == device[..i];
        PutIds(nodes, Stored(device[i]));
        var k := Find(nodes, device[i].id);
        if k.Some? {
          nodes := nodes[k.value := Stored(device[i])];
        } else {
          nodes := nodes + [Stored(device[i])];
        }
        i := i + 1;
      }
      assert device[..i] == device;
    }

    /** One poll of the collection loop: new ids only. */
    method RefreshNodes(device: seq<NodeEntry>)
      requires Valid()
      modifies this
      ensures Valid()
      ensures nodes == RefreshAll(old(nodes), device)
      ensures connections == old(connections) && routingPaths == old(routingPaths)
      ensures metadata == old(metadata) && receivedPackets == old(receivedPackets)
    {
      var i := 0;
      while i < |device|
        invariant 0 <= i <= |device|
        invariant nodes == RefreshAll(old(nodes), device[..i]) && DistinctIds(nodes)
        invariant connections == old(connections) && routingPaths == old(routingPaths)
        invariant metadata == old(metadata) && receivedPackets == old(receivedPackets)
      {
        assert device[..i + 1][..i] == device[..i];
        InsertIds(nodes, Stored(device[i]));
        if Find(nodes, device[i].id).None? {
          nodes := nodes + [Stored(device[i])];
        }
        i := i + 1;
      }
      assert device[..i] == device;
    }

    /** The `packet_types` statistics over every packet received. */
    method PacketTypes() returns (tally: map<string, nat>)
      ensures forall t :: t in tally <==> PortCount(receivedPackets, t) > 0
      ensures forall t | t in tally :: tally[t] == PortCount(receivedPackets, t)
    {
      tally := map[];
      var i := 0;
      while i < |receivedPackets|
        invariant 0 <= i <= |receivedPackets|
        invariant tally == TallyOf(receivedPackets[..i])
      {
        assert receivedPackets[..i + 1][..i] == receivedPackets[..i];
        var packet := receivedPackets[i];
        if packet.decoded.Some? && packet.decoded.value.portnum.Some? {
          var ptype := packet.decoded.value.portnum.value;
          tally := tally[ptype := (if ptype in tally then tally[ptype] else 0) + 1];
        }
        i := i + 1;
      }
      assert receivedPackets[..i] == receivedPackets;
      forall t ensures (t in tally <==> PortCount(receivedPackets, t) > 0)
                    && (t in tally ==> tally[t] == PortCount(receivedPackets, t)) {
        TallyCounts(receivedPackets, t);
      }
    }

    /** `infer_connections_from_hops`: the links of the hop inference over the
        stored nodes are appended; nothing is removed. */
    method InferConnectionsFromHops(now: string)
      modifies this
      ensures connections == old(connections) + InferV2.V2Links(nodes, now)
      ensures nodes == old(nodes) && routingPaths == old(routingPaths)
      ensures metadata == old(metadata) && receivedPackets == old(receivedPackets)
    {
      connections := AppendHopLinks(nodes, now, connections);
    }

    /** `collect_topology` after the connection check: the initial load, one
        refresh per poll, the metadata, the statistics, and the hop inference
        when no connection was captured.  `connected` is whether a radio
        interface exists, `device` the text of its `myInfo` if it has one. */
    method CollectTopology(connected: bool, initial: seq<NodeEntry>, polls: seq<seq<NodeEntry>>,
                           now: string, device: Option<string>)
      requires Valid()
      modifies this
      ensures Valid()
      ensures !connected ==> nodes == old(nodes) && connections == old(connections) && metadata == old(metadata)
      ensures connected ==> nodes == RefreshEach(LoadAll(old(nodes), initial), polls)
      ensures connected ==> metadata == Metadata(Some(now), if device.Some? then device else old(metadata).collectionDevice)
      ensures connected ==> connections == if old(connections) == [] then InferV2.V2Links(nodes, now) else old(connections)
      ensures routingPaths == old(routingPaths) && receivedPackets == old(receivedPackets)
    {
      if !connected {
        return;
      }
      LoadNodes(initial);
      var loaded := nodes;
      var i := 0;
      while i < |polls|
        invariant 0 <= i <= |polls|
        invariant Valid()
        invariant nodes == RefreshEach(loaded, polls[..i])
        invariant connections == old(connections) && routingPaths == old(routingPaths)
        invariant metadata == old(metadata) && receivedPackets == old(receivedPackets)
      {
        assert polls[..i + 1][..i] == polls[..i];
        RefreshNodes(polls[i]);
        i := i + 1;
      }
      assert polls[..i] == polls;
      metadata := metadata.(collectionTime := Some(now));
      if device.Some? {
        metadata := metadata.(collectionDevice := device);
      }
      var packetTypes := PacketTypes();
      if |connections| == 0 {
        InferConnectionsFromHops(now);
      }
    }
  }
}
