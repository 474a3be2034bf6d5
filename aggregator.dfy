/** `TopologyAggregator` (meshnetmap/collector/aggregator.py): folds topology
    snapshots into one aggregate.  Nodes are keyed by id, links by the string
    `from + "->" + to` in first-insertion order, routing paths and source
    entries are appended. */
module Aggregator {
  import opened Common
  import opened Records

  /** One entry of `metadata['sources']`. */
  datatype SourceEntry = SourceEntry(source: string, timestamp: Option<string>, device: Option<string>)

  datatype Statistics = Statistics(totalNodes: nat, totalConnections: nat, sources: nat)

  /** What `get_aggregated_topology` hands back. */
  datatype Aggregate = Aggregate(
    nodes: seq<NodeEntry>,
    connections: seq<Link>,
    routingPaths: seq<RoutingPath>,
    aggregationTime: string,
    sources: seq<SourceEntry>,
    statistics: Statistics)

  // ---------------------------------------------------------------------------
  // Nodes
  // ---------------------------------------------------------------------------

  /** `existing.update(node_info)`: every key the incoming record has overwrites. */
  function Update(existing: NodeRecord, incoming: NodeRecord): NodeRecord {
    NodeRecord(
      if incoming.hopsAway.Some? then incoming.hopsAway else existing.hopsAway,
      if incoming.snr.Some? then incoming.snr else existing.snr,
      if incoming.lastHeard.Some? then incoming.lastHeard else existing.lastHeard,
      if incoming.position.Some? then incoming.position else existing.position)
  }

  /** The incoming record was heard later; a missing time counts as 0. */
  predicate Newer(incoming: NodeRecord, existing: NodeRecord) {
    incoming.lastHeard.GetOr(0) > existing.lastHeard.GetOr(0)
  }

  /** One node of an incoming snapshot: a new id is inserted as given; a known
      one is updated only when the incoming record was heard strictly later. */
  function MergeNode(m: map<NodeId, NodeRecord>, e: NodeEntry): map<NodeId, NodeRecord> {
    if e.id !in m then m[e.id := e.info]
    else if Newer(e.info, m[e.id]) then m[e.id := Update(m[e.id], e.info)]
    else m
  }

  function MergeNodes(m: map<NodeId, NodeRecord>, es: seq<NodeEntry>): map<NodeId, NodeRecord> {
    if es == [] then m else MergeNode(MergeNodes(m, es[..|es| - 1]), es[|es| - 1])
  }

  /** After one snapshot's nodes the aggregate knows exactly the ids it knew
      before and the incoming ones. */
  lemma {:induction false} MergeNodesDomain(m: map<NodeId, NodeRecord>, es: seq<NodeEntry>, id: NodeId)
    ensures id in MergeNodes(m, es) <==> id in m || exists k :: 0 <= k < |es| && es[k].id == id
  {
    if es != [] {
      var init := es[..|es| - 1];
      MergeNodesDomain(m, init, id);
      if exists k :: 0 <= k < |init| && init[k].id == id {
        var k :| 0 <= k < |init| && init[k].id == id;
        assert es[k] == init[k];
      }
      if exists k :: 0 <= k < |es| && es[k].id == id {
        var k :| 0 <= k < |es| && es[k].id == id;
        if k < |init| {
          assert init[k] == es[k];
        }
      }
    }
  }

  /** An id the snapshot does not mention keeps its record (or its absence). */
  lemma {:induction false} MergeNodesUntouched(m: map<NodeId, NodeRecord>, es: seq<NodeEntry>, id: NodeId)
    requires forall k :: 0 <= k < |es| ==> es[k].id != id
    ensures id in MergeNodes(m, es) <==> id in m
    ensures id in m ==> MergeNodes(m, es)[id] == m[id]
  {
    if es != [] {
      var init := es[..|es| - 1];
      forall k | 0 <= k < |init| ensures init[k].id != id {
        assert init[k] == es[k];
      }
      MergeNodesUntouched(m, init, id);
    }
  }

  /** With unique incoming ids, an incoming node that was unknown holds its
      incoming record; a known one holds the update by its incoming record when
      that was heard strictly later, and its old record otherwise. */
  lemma {:induction false} MergeNodesAt(m: map<NodeId, NodeRecord>, es: seq<NodeEntry>, k: nat)
    requires DistinctIds(es) && k < |es|
    ensures es[k].id in MergeNodes(m, es)
    ensures MergeNodes(m, es)[es[k].id]
            == if es[k].id !in m then es[k].info
               else if Newer(es[k].info, m[es[k].id]) then Update(m[es[k].id], es[k].info)
               else m[es[k].id]
  {
    var init := es[..|es| - 1];
    var e := es[|es| - 1];
    if k == |es| - 1 {
      forall j | 0 <= j < |init| ensures init[j].id != e.id {
        assert init[j] == es[j];
      }
      MergeNodesUntouched(m, init, e.id);
    } else {
      assert DistinctIds(init) by {
        forall i, j | 0 <= i < j < |init| ensures init[i].id != init[j].id {
          assert init[i] == es[i] && init[j] == es[j];
        }
      }
      assert init[k] == es[k];
      MergeNodesAt(m, init, k);
    }
  }

  /** The key order of the `nodes` dictionary: an id unknown so far is appended
      when the snapshot brings it; a known id keeps its place. */
  function NodeKeys(keys: seq<NodeId>, es: seq<NodeEntry>): seq<NodeId> {
    if es == [] then keys
    else
      var before := NodeKeys(keys, es[..|es| - 1]);
      var id := es[|es| - 1].id;
      if id in before then before else before + [id]
  }

  /** The key order stays duplicate-free, lists exactly the known ids, and keeps
      the old order as a prefix. */
  lemma {:induction false} NodeKeysValid(keys: seq<NodeId>, m: map<NodeId, NodeRecord>, es: seq<NodeEntry>)
    requires Distinct(keys) && forall k :: k in m <==> k in keys
    ensures Distinct(NodeKeys(keys, es))
    ensures forall k :: k in MergeNodes(m, es) <==> k in NodeKeys(keys, es)
    ensures |keys| <= |NodeKeys(keys, es)| && NodeKeys(keys, es)[..|keys|] == keys
  {
    if es != [] {
      var init := es[..|es| - 1];
      var before := NodeKeys(keys, init);
      var id := es[|es| - 1].id;
      NodeKeysValid(keys, m, init);
      if id !in before {
        var after := before + [id];
        forall i, j | 0 <= i < j < |after| ensures after[i] != after[j] {
          assert after[i] == before[i];
          if j < |before| {
            assert after[j] == before[j];
          }
        }
        assert after[..|keys|] == before[..|keys|];
      }
    }
  }

  /** `nodes.items()` in key order. */
  function NodeEntries(keys: seq<NodeId>, m: map<NodeId, NodeRecord>): (r: seq<NodeEntry>)
    requires forall k | k in keys :: k in m
    ensures |r| == |keys|
    ensures forall i :: 0 <= i < |keys| ==> r[i] == NodeEntry(keys[i], m[keys[i]])
  {
    if keys == [] then [] else NodeEntries(keys[..|keys| - 1], m) + [NodeEntry(keys[|keys| - 1], m[keys[|keys| - 1]])]
  }

  /** The listed nodes carry distinct ids, one per known id. */
  lemma NodeEntriesSize(keys: seq<NodeId>, m: map<NodeId, NodeRecord>)
    requires Distinct(keys) && forall k :: k in m <==> k in keys
    ensures DistinctIds(NodeEntries(keys, m))
    ensures |NodeEntries(keys, m)| == |m|
  {
    DistinctCard(keys);
    assert (set k | k in keys) == m.Keys;
  }

  // ---------------------------------------------------------------------------
  // Links
  // ---------------------------------------------------------------------------

  /** A link's dictionary key: its two ends joined by an arrow. */
  function LinkKey(l: Link): string {
    l.from + "->" + l.to
  }

  /** Ids in which '-' does not occur; mesh node ids such as `!a1b2c3d4` are of this kind. */
  predicate Dashless(s: string) {
    forall i :: 0 <= i < |s| ==> s[i] != '-'
  }

  /** Keys tell links apart, direction included, as long as the senders' ids
      contain no '-'. */
  lemma LinkKeyInjective(a: Link, b: Link)
    requires Dashless(a.from) && Dashless(b.from)
    requires LinkKey(a) == LinkKey(b)
    ensures a.from == b.from && a.to == b.to
  {
    var k := LinkKey(a);
    assert k[|a.from|] == '-';
    assert LinkKey(b)[|b.from|] == '-';
    if |a.from| < |b.from| {
      assert false;
    } else if |b.from| < |a.from| {
      assert false;
    }
    assert a.from == k[..|a.from|] == b.from;
    assert a.to == k[|a.from| + 2..] == b.to;
  }

  /** Whether an incoming link takes the place of the stored one under its key:
      a confirmed link displaces an implied one; a link of the stored one's own
      type displaces it when its timestamp sorts later or its SNR is higher. */
  predicate Replaces(incoming: Link, existing: Link) {
    || (incoming.kind == Confirmed && existing.kind == Implied)
    || (incoming.kind == existing.kind && (StrLess(existing.timestamp, incoming.timestamp) || incoming.snr > existing.snr))
  }

  /** Links of different types replace each other only in the one case confirmed over implied. */
  lemma ReplacesAcrossTypes(incoming: Link, existing: Link)
    requires incoming.kind != existing.kind
    ensures Replaces(incoming, existing) <==> incoming.kind == Confirmed && existing.kind == Implied
  {
  }

  /** Merging the same node record twice changes nothing the first merge did not. */
  lemma MergeNodeIdempotent(m: map<NodeId, NodeRecord>, e: NodeEntry)
    ensures MergeNode(MergeNode(m, e), e) == MergeNode(m, e)
  {
  }

  /** A link never displaces itself. */
  lemma ReplacesIrreflexive(c: Link)
    ensures !Replaces(c, c)
  {
    StrLessIrreflexive(c.timestamp);
  }

  /** The keys in insertion order and the link stored under each. */
  datatype LinkTable = LinkTable(keys: seq<string>, links: map<string, Link>)

  ghost predicate TableValid(t: LinkTable) {
    Distinct(t.keys) && forall k :: k in t.links <==> k in t.keys
  }

  function MergeLink(t: LinkTable, c: Link): LinkTable {
    var key := LinkKey(c);
    if key !in t.links then LinkTable(t.keys + [key], t.links[key := c])
    else if Replaces(c, t.links[key]) then LinkTable(t.keys, t.links[key := c])
    else t
  }

  function MergeLinks(t: LinkTable, cs: seq<Link>): LinkTable {
    if cs == [] then t else MergeLink(MergeLinks(t, cs[..|cs| - 1]), cs[|cs| - 1])
  }

  /** Merging the same link twice changes nothing the first merge did not. */
  lemma MergeLinkIdempotent(t: LinkTable, c: Link)
    ensures MergeLink(MergeLink(t, c), c) == MergeLink(t, c)
  {
    ReplacesIrreflexive(c);
  }

  /** One merge keeps the table well formed and appends the new link's key
      when it was not there yet. */
  lemma MergeLinkValid(t: LinkTable, c: Link)
    requires TableValid(t)
    ensures TableValid(MergeLink(t, c))
    ensures MergeLink(t, c).keys == t.keys + (if LinkKey(c) in t.links then [] else [LinkKey(c)])
  {
    var key := LinkKey(c);
    if key !in t.links {
      forall i, j | 0 <= i < j < |t.keys + [key]| ensures (t.keys + [key])[i] != (t.keys + [key])[j] {
        assert (t.keys + [key])[i] == t.keys[i];
        if j < |t.keys| {
          assert (t.keys + [key])[j] == t.keys[j];
        }
      }
    }
  }

  /** Merging keeps the table well formed and never drops or reorders a key. */
  lemma {:induction false} MergeLinksValid(t: LinkTable, cs: seq<Link>)
    requires TableValid(t)
    ensures TableValid(MergeLinks(t, cs))
    ensures |t.keys| <= |MergeLinks(t, cs).keys| && MergeLinks(t, cs).keys[..|t.keys|] == t.keys
  {
    if cs != [] {
      var u := MergeLinks(t, cs[..|cs| - 1]);
      MergeLinksValid(t, cs[..|cs| - 1]);
      MergeLinkValid(u, cs[|cs| - 1]);
      assert MergeLinks(t, cs).keys[..|t.keys|] == u.keys[..|t.keys|];
    }
  }

  /** Every incoming link's key is in the table afterwards. */
  lemma {:induction false} MergeLinksHas(t: LinkTable, cs: seq<Link>, i: nat)
    requires i < |cs|
    ensures LinkKey(cs[i]) in MergeLinks(t, cs).links
  {
    var init := cs[..|cs| - 1];
    if i < |init| {
      assert init[i] == cs[i];
      MergeLinksHas(t, init, i);
    }
  }

  /** A key stays in the table once it is there. */
  lemma {:induction false} MergeLinksKeeps(t: LinkTable, cs: seq<Link>, k: string)
    requires k in t.links
    ensures k in MergeLinks(t, cs).links
  {
    if cs != [] {
      MergeLinksKeeps(t, cs[..|cs| - 1], k);
    }
  }

  /** No key appears but those of incoming links, and the link a key ends with
      is either the stored one or an incoming link under that key. */
  lemma {:induction false} MergeLinksFrom(t: LinkTable, cs: seq<Link>, k: string)
    requires k in MergeLinks(t, cs).links
    ensures (k in t.links && MergeLinks(t, cs).links[k] == t.links[k])
            || exists i :: 0 <= i < |cs| && cs[i] == MergeLinks(t, cs).links[k] && LinkKey(cs[i]) == k
  {
    if cs != [] {
      var init := cs[..|cs| - 1];
      var c := cs[|cs| - 1];
      var u := MergeLinks(t, init);
      if LinkKey(c) == k && MergeLinks(t, cs).links[k] == c {
        assert cs[|cs| - 1] == c;
      } else {
        assert k in u.links && MergeLinks(t, cs).links[k] == u.links[k];
        MergeLinksFrom(t, init, k);
        forall i | 0 <= i < |init| ensures init[i] == cs[i] { }
      }
    }
  }

  /** A key's link changes type only from implied to confirmed: once confirmed,
      or of any other type, it keeps its type for good. */
  lemma {:induction false} MergeLinksKinds(t: LinkTable, cs: seq<Link>, k: string)
    requires k in t.links
    ensures k in MergeLinks(t, cs).links
    ensures MergeLinks(t, cs).links[k].kind == t.links[k].kind
            || (t.links[k].kind == Implied && MergeLinks(t, cs).links[k].kind == Confirmed)
  {
    if cs != [] {
      MergeLinksKinds(t, cs[..|cs| - 1], k);
    }
  }

  /** `list(connections.values())`: the stored links in key-insertion order. */
  function Values(keys: seq<string>, links: map<string, Link>): (r: seq<Link>)
    requires forall k | k in keys :: k in links
    ensures |r| == |keys|
    ensures forall i :: 0 <= i < |keys| ==> r[i] == links[keys[i]]
  {
    if keys == [] then [] else Values(keys[..|keys| - 1], links) + [links[keys[|keys| - 1]]]
  }

  /** The number of links reported is the number of distinct keys. */
  lemma TableSize(t: LinkTable)
    requires TableValid(t)
    ensures |Values(t.keys, t.links)| == |t.links.Keys|
  {
    DistinctCard(t.keys);
    assert (set k | k in t.keys) == t.links.Keys;
  }

  // ---------------------------------------------------------------------------
  // The aggregator object
  // ---------------------------------------------------------------------------

  /** The source entry a snapshot contributes when the caller names a source. */
  function SourceEntryOf(source: string, topology: Snapshot): SourceEntry {
    var meta := topology.metadata.GetOr(Metadata(None, None));
    SourceEntry(source, meta.collectionTime, meta.collectionDevice)
  }

  class TopologyAggregator {
    var nodes: map<NodeId, NodeRecord>
    /** The insertion order of `nodes`. */
    var nodeKeys: seq<NodeId>
    var linkKeys: seq<string>
    var links: map<string, Link>
    var routingPaths: seq<RoutingPath>
    var sources: seq<SourceEntry>
    var aggregationTime: Option<string>
    /** `get_aggregated_topology` has turned the link dictionary into a list. */
    var listed: bool

    ghost predicate Valid()
      reads this
    {
      && TableValid(LinkTable(linkKeys, links))
      && Distinct(nodeKeys) && (forall k :: k in nodes <==> k in nodeKeys)
    }

    constructor()
      ensures Valid() && !listed
      ensures nodes == map[] && nodeKeys == [] && linkKeys == [] && links == map[]
      ensures routingPaths == [] && sources == [] && aggregationTime == None
    {
      nodes := map[];
      nodeKeys := [];
      linkKeys := [];
      links := map[];
      routingPaths := [];
      sources := [];
      aggregationTime := None;
      listed := false;
    }

    /** `add_topology_data(topology, source)`.  Once the links have been listed
        the aggregator can take only snapshots that bring no link. */
    method AddTopologyData(topology: Snapshot, source: Option<string>)
      requires Valid()
      requires listed ==> topology.connections.GetOr([]) == [] || EmptySnapshot(topology)
      modifies this
      ensures Valid() && listed == old(listed) && aggregationTime == old(aggregationTime)
      ensures EmptySnapshot(topology) ==>
                nodes == old(nodes) && nodeKeys == old(nodeKeys) && linkKeys == old(linkKeys) && links == old(links)
                && routingPaths == old(routingPaths) && sources == old(sources)
      ensures !EmptySnapshot(topology) ==>
                && nodes == MergeNodes(old(nodes), topology.nodes.GetOr([]))
                && nodeKeys == NodeKeys(old(nodeKeys), topology.nodes.GetOr([]))
                && LinkTable(linkKeys, links) == MergeLinks(LinkTable(old(linkKeys), old(links)), topology.connections.GetOr([]))
                && routingPaths == old(routingPaths) + topology.routingPaths.GetOr([])
                && sources == old(sources) + (if TruthyId(source) then [SourceEntryOf(source.value, topology)] else [])
    {
      if EmptySnapshot(topology) {
        return;
      }
      AddNodes(topology.nodes.GetOr([]));
      AddConnections(topology.connections.GetOr([]));
      AddPaths(topology.routingPaths.GetOr([]));
      if TruthyId(source) {
        sources := sources + [SourceEntryOf(source.value, topology)];
      }
    }

    /** The node loop of `add_topology_data`. */
    method AddNodes(incoming: seq<NodeEntry>)
      requires Valid()
      modifies this
      ensures Valid()
      ensures nodes == MergeNodes(old(nodes), incoming) && nodeKeys == NodeKeys(old(nodeKeys), incoming)
      ensures linkKeys == old(linkKeys) && links == old(links) && routingPaths == old(routingPaths)
      ensures sources == old(sources) && aggregationTime == old(aggregationTime) && listed == old(listed)
    {
      var i := 0;
      while i < |incoming|
        invariant 0 <= i <= |incoming|
        invariant nodes == MergeNodes(old(nodes), incoming[..i]) && nodeKeys == NodeKeys(old(nodeKeys), incoming[..i])
        invariant forall k :: k in nodes <==> k in nodeKeys
        invariant linkKeys == old(linkKeys) && links == old(links) && routingPaths == old(routingPaths)
        invariant sources == old(sources) && aggregationTime == old(aggregationTime) && listed == old(listed)
      {
        assert incoming[..i + 1][..i] == incoming[..i];
        var e := incoming[i];
        if e.id !in nodes {
          nodes := nodes[e.id := e.info];
          nodeKeys := nodeKeys + [e.id];
        } else {
          var existing := nodes[e.id];
          if Newer(e.info, existing) {
            nodes := nodes[e.id := Update(existing, e.info)];
          }
        }
        i := i + 1;
      }
      assert incoming[..i] == incoming;
      NodeKeysValid(old(nodeKeys), old(nodes), incoming);
    }

    /** The connection loop of `add_topology_data`. */
    method AddConnections(incoming: seq<Link>)
      requires Valid()
      requires listed ==> incoming == []
      modifies this
      ensures Valid()
      ensures LinkTable(linkKeys, links) == MergeLinks(LinkTable(old(linkKeys), old(links)), incoming)
      ensures nodes == old(nodes) && nodeKeys == old(nodeKeys) && routingPaths == old(routingPaths) && sources == old(sources)
      ensures aggregationTime == old(aggregationTime) && listed == old(listed)
    {
      var i := 0;
      while i < |incoming|
        invariant 0 <= i <= |incoming|
        invariant LinkTable(linkKeys, links) == MergeLinks(LinkTable(old(linkKeys), old(links)), incoming[..i])
        invariant nodes == old(nodes) && nodeKeys == old(nodeKeys) && routingPaths == old(routingPaths) && sources == old(sources)
        invariant aggregationTime == old(aggregationTime) && listed == old(listed)
      {
        assert incoming[..i + 1][..i] == incoming[..i];
        var connection := incoming[i];
        var connKey := LinkKey(connection);
        if connKey !in links {
          linkKeys := linkKeys + [connKey];
          links := links[connKey := connection];
        } else {
          var existing := links[connKey];
          if connection.kind == Confirmed && existing.kind == Implied {
            links := links[connKey := connection];
          } else if existing.kind == connection.kind {
            if StrLess(existing.timestamp, connection.timestamp) || connection.snr > existing.snr {
              links := links[connKey := connection];
            }
          } else if connection.kind == Implied && existing.kind == Implied {
            // The evidence-count merge: equal types were taken by the branch above.
            assert false;
          }
        }
        i := i + 1;
      }
      assert incoming[..i] == incoming;
      MergeLinksValid(LinkTable(old(linkKeys), old(links)), incoming);
    }

    /** `self.routing_paths.extend(...)`. */
    method AddPaths(incoming: seq<RoutingPath>)
      modifies this
      ensures routingPaths == old(routingPaths) + incoming
      ensures nodes == old(nodes) && nodeKeys == old(nodeKeys) && linkKeys == old(linkKeys) && links == old(links)
      ensures sources == old(sources) && aggregationTime == old(aggregationTime) && listed == old(listed)
    {
      var j := 0;
      while j < |incoming|
        invariant 0 <= j <= |incoming|
        invariant routingPaths == old(routingPaths) + incoming[..j]
        invariant nodes == old(nodes) && nodeKeys == old(nodeKeys) && linkKeys == old(linkKeys) && links == old(links)
        invariant sources == old(sources) && aggregationTime == old(aggregationTime) && listed == old(listed)
      {
        routingPaths := routingPaths + [incoming[j]];
        assert incoming[..j + 1] == incoming[..j] + [incoming[j]];
        j := j + 1;
      }
      assert incoming[..j] == incoming;
    }

    /** `get_aggregated_topology()`; `now` stands for `datetime.now().isoformat()`. */
    method GetAggregatedTopology(now: string) returns (a: Aggregate)
      requires Valid() && !listed
      modifies this
      ensures listed && aggregationTime == Some(now)
      ensures nodes == old(nodes) && nodeKeys == old(nodeKeys) && linkKeys == old(linkKeys) && links == old(links)
      ensures routingPaths == old(routingPaths) && sources == old(sources)
      ensures a.nodes == NodeEntries(nodeKeys, nodes) && DistinctIds(a.nodes)
      ensures a.connections == Values(linkKeys, links)
      ensures a.routingPaths == routingPaths && a.aggregationTime == now && a.sources == sources
      ensures a.statistics == Statistics(|nodes|, |links.Keys|, |sources|)
    {
      var connections := Values(linkKeys, links);
      listed := true;
      aggregationTime := Some(now);
      TableSize(LinkTable(linkKeys, links));
      NodeEntriesSize(nodeKeys, nodes);
      a := Aggregate(NodeEntries(nodeKeys, nodes), connections, routingPaths, now, sources,
                     Statistics(|nodes|, |connections|, |sources|));
    }
  }
}
