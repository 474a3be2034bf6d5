/** The plain records every part of the engine exchanges: node records keyed by
    node id, links, routing observations and whole topology snapshots.  A field
    written `Option<..>` is a dictionary key that may be missing. */
module Records {
  import opened Common

  type NodeId = string

  /** GPS position, in units of 1e-7 degree. */
  datatype Position = Position(latitude: Option<int>, longitude: Option<int>)

  /** One entry of the node database. */
  datatype NodeRecord = NodeRecord(
    hopsAway: Option<int>,
    snr: Option<real>,
    lastHeard: Option<int>,
    position: Option<Position>)

  /** One `(node_id, node_info)` item of a `nodes` dictionary, in iteration order. */
  datatype NodeEntry = NodeEntry(id: NodeId, info: NodeRecord)

  /** The value of a link's `type` key. */
  datatype LinkKind = Confirmed | Implied | Colocated | InferredDirect | InferredHop | InferredMultihop

  datatype Confidence = High | Medium | Low

  /** A connection record.  `hopsAway`, `evidence`, `evidenceCount`, `totalHops`
      (`total_hops_from_origin`) and `routerSnr` are present only on the kinds
      that carry them. */
  datatype Link = Link(
    from: NodeId,
    to: NodeId,
    snr: real,
    kind: LinkKind,
    confidence: Confidence,
    hopsAway: Option<int>,
    evidence: Option<string>,
    evidenceCount: Option<int>,
    totalHops: Option<int>,
    routerSnr: Option<real>,
    timestamp: string)

  /** One entry of `routing_paths`. */
  datatype RoutingPath = RoutingPath(
    from: Option<NodeId>,
    to: Option<NodeId>,
    hopsAway: Option<int>,
    hopStart: Option<int>,
    hopLimit: Option<int>,
    rxSnr: Option<real>,
    rxRssi: Option<int>,
    packetType: Option<string>,
    timestamp: Option<string>)

  datatype Metadata = Metadata(collectionTime: Option<string>, collectionDevice: Option<string>)

  /** A topology dictionary: its four known keys, each possibly missing, and the
      remaining top-level keys kept as opaque text. */
  datatype Snapshot = Snapshot(
    nodes: Option<seq<NodeEntry>>,
    connections: Option<seq<Link>>,
    routingPaths: Option<seq<RoutingPath>>,
    metadata: Option<Metadata>,
    others: map<string, string>)

  /** `not topology`: the dictionary has no key at all. */
  predicate EmptySnapshot(t: Snapshot) {
    t.nodes.None? && t.connections.None? && t.routingPaths.None? && t.metadata.None? && t.others == map[]
  }

  /** The hop distance, -1 when the record has none. */
  function HopsOrMinusOne(r: NodeRecord): int {
    r.hopsAway.GetOr(-1)
  }

  /** Truthiness of an id that may be missing: present and not the empty string. */
  predicate TruthyId(s: Option<string>) {
    s.Some? && s.value != ""
  }

  /** `x or default` for an optional SNR: a missing value and 0.0 are both falsy. */
  function SnrOr(x: Option<real>, default: real): real {
    if x.Some? && x.value != 0.0 then x.value else default
  }

  /** Dictionary keys are unique. */
  ghost predicate DistinctIds(nodes: seq<NodeEntry>) {
    forall i, j :: 0 <= i < j < |nodes| ==> nodes[i].id != nodes[j].id
  }

  /** `s[:8]` */
  function Prefix8(s: string): string {
    if |s| <= 8 then s else s[..8]
  }
}
