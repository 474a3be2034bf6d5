/** The first, star-shaped inferencer of infer_connections.py: every node with
    a known hop distance of one or more is linked straight from the first
    hop-0 node of the node database, as a direct link at hop 1 and as a
    multi-hop link beyond. */
module InferV1 {
  import opened Common
  import opened Records
  import opened HopTable
  import Inference

  const NODE_DATABASE: string := "node_database"

  /** A node with its SNR (0 when the record has none). */
  function V1Node(e: NodeEntry): HopNode {
    HopNode(e.id, e.info.snr.GetOr(0.0))
  }

  /** The ids with `hops == 0` (`our_nodes`), in iteration order. */
  function OurIds(nodes: seq<NodeEntry>): seq<NodeId> {
    if nodes == [] then []
    else
      var e := nodes[|nodes| - 1];
      OurIds(nodes[..|nodes| - 1]) + (if HopsOrMinusOne(e.info) == 0 then [e.id] else [])
  }

  /** The `(id, snr)` pairs of the nodes at hop distance h, in iteration order. */
  function NodesAt(nodes: seq<NodeEntry>, h: int): seq<HopNode> {
    if nodes == [] then []
    else
      var e := nodes[|nodes| - 1];
      NodesAt(nodes[..|nodes| - 1], h) + (if HopsOrMinusOne(e.info) == h then [V1Node(e)] else [])
  }

  /** The keys of `multi_hop_nodes`: the hop distances above one, in the order
      they first occur. */
  function HopOrder(nodes: seq<NodeEntry>): seq<int> {
    if nodes == [] then []
    else
      var order := HopOrder(nodes[..|nodes| - 1]);
      var h := HopsOrMinusOne(nodes[|nodes| - 1].info);
      order + (if h > 1 && h !in order then [h] else [])
  }

  /** `our_nodes[0] if our_nodes else None`, kept only when it is truthy. */
  function OurNode(nodes: seq<NodeEntry>): Option<NodeId> {
    var ours := OurIds(nodes);
    if ours != [] && ours[0] != "" then Some(ours[0]) else None
  }

  function DirectLink(our: NodeId, x: HopNode, now: string): Link {
    Link(our, x.id, x.snr, InferredDirect, High, Some(1), Some(NODE_DATABASE), None, None, None, now)
  }

  function MultihopLink(our: NodeId, x: HopNode, h: int, now: string): Link {
    Link(our, x.id, x.snr, InferredMultihop, Medium, Some(h), Some(NODE_DATABASE), None, None, None, now)
  }

  function DirectLinks(our: NodeId, ones: seq<HopNode>, now: string): seq<Link> {
    seq(|ones|, j requires 0 <= j < |ones| => DirectLink(our, ones[j], now))
  }

  function GroupLinks(our: NodeId, xs: seq<HopNode>, h: int, now: string): seq<Link> {
    seq(|xs|, j requires 0 <= j < |xs| => MultihopLink(our, xs[j], h, now))
  }

  /** The multi-hop links, group by group in the order of `order`. */
  function MultihopLinks(our: NodeId, nodes: seq<NodeEntry>, order: seq<int>, now: string): seq<Link> {
    if order == [] then []
    else
      var h := order[|order| - 1];
      MultihopLinks(our, nodes, order[..|order| - 1], now) + GroupLinks(our, NodesAt(nodes, h), h, now)
  }

  function V1Links(nodes: seq<NodeEntry>, now: string): seq<Link> {
    match OurNode(nodes)
    case None => []
    case Some(our) => DirectLinks(our, NodesAt(nodes, 1), now) + MultihopLinks(our, nodes, HopOrder(nodes), now)
  }

  /** `topology_data['nodes']` raises KeyError when the key is missing. */
  function V1Result(topology: Snapshot, now: string): Result<seq<Link>, Inference.InferError> {
    if topology.nodes.None? then Failure(Inference.MissingNodes)
    else Success(V1Links(topology.nodes.value, now))
  }

  // ---------------------------------------------------------------------------
  // Properties
  // ---------------------------------------------------------------------------

  lemma {:induction false} NodesAtMember(nodes: seq<NodeEntry>, h: int, x: HopNode)
    ensures x in NodesAt(nodes, h) <==> exists k :: 0 <= k < |nodes| && HopsOrMinusOne(nodes[k].info) == h && V1Node(nodes[k]) == x
  {
    if nodes != [] {
      var init := nodes[..|nodes| - 1];
      NodesAtMember(init, h, x);
      if x in NodesAt(init, h) {
        var k :| 0 <= k < |init| && HopsOrMinusOne(init[k].info) == h && V1Node(init[k]) == x;
        assert nodes[k] == init[k];
      }
      forall k | 0 <= k < |init| ensures nodes[k] == init[k] { }
    }
  }

  /** The first hop-0 id is the id of the first entry at hop 0. */
  lemma {:induction false} OurIdsFirst(nodes: seq<NodeEntry>)
    requires OurIds(nodes) != []
    ensures exists k :: 0 <= k < |nodes| && HopsOrMinusOne(nodes[k].info) == 0 && nodes[k].id == OurIds(nodes)[0]
              && forall i :: 0 <= i < k ==> HopsOrMinusOne(nodes[i].info) != 0
  {
    var init := nodes[..|nodes| - 1];
    if OurIds(init) != [] {
      OurIdsFirst(init);
      var k :| 0 <= k < |init| && HopsOrMinusOne(init[k].info) == 0 && init[k].id == OurIds(init)[0]
               && forall i :: 0 <= i < k ==> HopsOrMinusOne(init[i].info) != 0;
      assert nodes[k] == init[k];
      forall i | 0 <= i < k ensures HopsOrMinusOne(nodes[i].info) != 0 {
        assert nodes[i] == init[i];
      }
    } else {
      forall i | 0 <= i < |init| ensures HopsOrMinusOne(nodes[i].info) != 0 {
        assert nodes[i] == init[i];
        OurIdsNone(init, i);
      }
    }
  }

  lemma {:induction false} OurIdsNone(nodes: seq<NodeEntry>, i: nat)
    requires OurIds(nodes) == [] && i < |nodes|
    ensures HopsOrMinusOne(nodes[i].info) != 0
  {
    var init := nodes[..|nodes| - 1];
    if i < |init| {
      assert nodes[i] == init[i];
      OurIdsNone(init, i);
    }
  }

  lemma HopOrderSnoc(nodes: seq<NodeEntry>, h: int)
    requires nodes != []
    ensures h in HopOrder(nodes) <==>
              h in HopOrder(nodes[..|nodes| - 1]) || (h > 1 && HopsOrMinusOne(nodes[|nodes| - 1].info) == h)
  {
  }

  /** A hop distance occurs in the group order exactly when it is above one and some node has it. */
  lemma {:induction false} HopOrderMember(nodes: seq<NodeEntry>, h: int)
    ensures h in HopOrder(nodes) <==> h > 1 && exists k :: 0 <= k < |nodes| && HopsOrMinusOne(nodes[k].info) == h
  {
    if nodes != [] {
      var init := nodes[..|nodes| - 1];
      var last := nodes[|nodes| - 1];
      HopOrderMember(init, h);
      HopOrderSnoc(nodes, h);
      if h in HopOrder(init) {
        var k :| 0 <= k < |init| && HopsOrMinusOne(init[k].info) == h;
        assert nodes[k] == init[k];
      } else if h > 1 && HopsOrMinusOne(last.info) == h {
        assert nodes[|nodes| - 1] == last;
      } else {
        forall k | 0 <= k < |nodes| ensures h <= 1 || HopsOrMinusOne(nodes[k].info) != h {
          if k < |init| {
            assert nodes[k] == init[k];
          }
        }
      }
    }
  }

  lemma {:induction false} MultihopOrigin(our: NodeId, nodes: seq<NodeEntry>, order: seq<int>, now: string, l: Link)
    returns (h: int, x: HopNode)
    requires l in MultihopLinks(our, nodes, order, now)
    ensures h in order && x in NodesAt(nodes, h) && l == MultihopLink(our, x, h, now)
  {
    var init := order[..|order| - 1];
    if l in MultihopLinks(our, nodes, init, now) {
      h, x := MultihopOrigin(our, nodes, init, now, l);
      assert h in order;
    } else {
      h := order[|order| - 1];
      var xs := NodesAt(nodes, h);
      var j :| 0 <= j < |xs| && GroupLinks(our, xs, h, now)[j] == l;
      x := xs[j];
    }
  }

  lemma {:induction false} MultihopHas(our: NodeId, nodes: seq<NodeEntry>, order: seq<int>, now: string, h: int, x: HopNode)
    requires h in order && x in NodesAt(nodes, h)
    ensures MultihopLink(our, x, h, now) in MultihopLinks(our, nodes, order, now)
  {
    var init := order[..|order| - 1];
    if h == order[|order| - 1] {
      var xs := NodesAt(nodes, h);
      var j :| 0 <= j < |xs| && xs[j] == x;
      assert GroupLinks(our, xs, h, now)[j] == MultihopLink(our, x, h, now);
    } else {
      assert order == init + [order[|order| - 1]];
      MultihopHas(our, nodes, init, now, h, x);
    }
  }

  /** The star: without a truthy first hop-0 id there is no link; otherwise every
      link goes from that id to a node at hop distance h >= 1, is direct exactly
      (high confidence) exactly when h = 1 and multi-hop (medium confidence)
      otherwise, cites the node database as evidence, and records h and the
      node's SNR (0 when missing). */
  lemma V1LinksStar(nodes: seq<NodeEntry>, now: string, l: Link)
    requires l in V1Links(nodes, now)
    ensures OurNode(nodes).Some? && l.from == OurNode(nodes).value
    ensures exists k :: 0 <= k < |nodes| && nodes[k].id == l.to && HopsOrMinusOne(nodes[k].info) >= 1
                        && l.hopsAway == Some(HopsOrMinusOne(nodes[k].info)) && l.snr == nodes[k].info.snr.GetOr(0.0)
                        && (l.kind == InferredDirect <==> HopsOrMinusOne(nodes[k].info) == 1)
                        && (l.kind == InferredDirect || l.kind == InferredMultihop)
                        && l.confidence == (if HopsOrMinusOne(nodes[k].info) == 1 then High else Medium)
                        && l.evidence == Some(NODE_DATABASE)
  {
    var our := OurNode(nodes).value;
    if l in DirectLinks(our, NodesAt(nodes, 1), now) {
      var ones := NodesAt(nodes, 1);
      var j :| 0 <= j < |ones| && DirectLinks(our, ones, now)[j] == l;
      NodesAtMember(nodes, 1, ones[j]);
    } else {
      var h, x := MultihopOrigin(our, nodes, HopOrder(nodes), now, l);
      HopOrderMember(nodes, h);
      NodesAtMember(nodes, h, x);
    }
  }

  /** With a truthy first hop-0 id, every node at hop distance h >= 1 is linked from it. */
  lemma V1LinksCover(nodes: seq<NodeEntry>, now: string, k: nat)
    requires OurNode(nodes).Some? && k < |nodes| && HopsOrMinusOne(nodes[k].info) >= 1
    ensures exists l :: l in V1Links(nodes, now) && l.from == OurNode(nodes).value && l.to == nodes[k].id
                        && l.hopsAway == Some(HopsOrMinusOne(nodes[k].info))
  {
    var our := OurNode(nodes).value;
    var h := HopsOrMinusOne(nodes[k].info);
    var x := V1Node(nodes[k]);
    NodesAtMember(nodes, h, x);
    if h == 1 {
      var ones := NodesAt(nodes, 1);
      var j :| 0 <= j < |ones| && ones[j] == x;
      assert DirectLinks(our, ones, now)[j] in V1Links(nodes, now);
    } else {
      HopOrderMember(nodes, h);
      MultihopHas(our, nodes, HopOrder(nodes), now, h, x);
      assert MultihopLink(our, x, h, now) in V1Links(nodes, now);
    }
  }

  /** The number of entries whose hop distance exceeds h (a missing one is -1). */
  function CountAbove(nodes: seq<NodeEntry>, h: int): nat {
    if nodes == [] then 0
    else CountAbove(nodes[..|nodes| - 1], h) + (if HopsOrMinusOne(nodes[|nodes| - 1].info) > h then 1 else 0)
  }

  /** The sizes of the groups named by `order`, added up. */
  function GroupSum(nodes: seq<NodeEntry>, order: seq<int>): nat {
    if order == [] then 0
    else GroupSum(nodes, order[..|order| - 1]) + |NodesAt(nodes, order[|order| - 1])|
  }

  lemma {:induction false} MultihopLinksSize(our: NodeId, nodes: seq<NodeEntry>, order: seq<int>, now: string)
    ensures |MultihopLinks(our, nodes, order, now)| == GroupSum(nodes, order)
  {
    if order != [] {
      MultihopLinksSize(our, nodes, order[..|order| - 1], now);
    }
  }

  lemma {:induction false} CountAboveSplit(nodes: seq<NodeEntry>)
    ensures CountAbove(nodes, 0) == |NodesAt(nodes, 1)| + CountAbove(nodes, 1)
  {
    if nodes != [] {
      CountAboveSplit(nodes[..|nodes| - 1]);
    }
  }

  lemma {:induction false} HopOrderDistinct(nodes: seq<NodeEntry>)
    ensures Distinct(HopOrder(nodes))
  {
    if nodes != [] {
      HopOrderDistinct(nodes[..|nodes| - 1]);
    }
  }

  /** One more node adds one to the group of its own hop distance, if `order` names it. */
  lemma {:induction false} GroupSumSnoc(init: seq<NodeEntry>, e: NodeEntry, order: seq<int>)
    requires Distinct(order)
    ensures GroupSum(init + [e], order) == GroupSum(init, order) + (if HopsOrMinusOne(e.info) in order then 1 else 0)
  {
    if order != [] {
      var o0 := order[..|order| - 1];
      assert Distinct(o0) by {
        forall i, j | 0 <= i < j < |o0| ensures o0[i] != o0[j] {
          assert o0[i] == order[i] && o0[j] == order[j];
        }
      }
      GroupSumSnoc(init, e, o0);
      assert (init + [e])[..|init|] == init;
      var g := order[|order| - 1];
      assert order == o0 + [g];
    }
  }

  lemma {:induction false} NodesAtNone(nodes: seq<NodeEntry>, h: int)
    requires forall k :: 0 <= k < |nodes| ==> HopsOrMinusOne(nodes[k].info) != h
    ensures NodesAt(nodes, h) == []
  {
    if nodes != [] {
      var init := nodes[..|nodes| - 1];
      assert forall k :: 0 <= k < |init| ==> init[k] == nodes[k];
      NodesAtNone(init, h);
    }
  }

  /** The groups together hold every node with a hop distance above one. */
  lemma {:induction false} GroupSumAll(nodes: seq<NodeEntry>)
    ensures GroupSum(nodes, HopOrder(nodes)) == CountAbove(nodes, 1)
  {
    if nodes != [] {
      var init := nodes[..|nodes| - 1];
      var e := nodes[|nodes| - 1];
      var he := HopsOrMinusOne(e.info);
      var order0 := HopOrder(init);
      GroupSumAll(init);
      HopOrderDistinct(init);
      assert nodes == init + [e];
      GroupSumSnoc(init, e, order0);
      HopOrderMember(init, he);
      assert NodesAt(nodes, he) == NodesAt(init, he) + [V1Node(e)];
      if he > 1 && he !in order0 {
        NodesAtNone(init, he);
        assert HopOrder(nodes) == order0 + [he];
        assert (order0 + [he])[..|order0|] == order0;
        assert GroupSum(nodes, HopOrder(nodes)) == GroupSum(nodes, order0) + 1;
      } else {
        assert HopOrder(nodes) == order0;
      }
    }
  }

  /** One link per node with a hop distance of one or more: with a truthy
      centre, the links number exactly those nodes. */
  lemma V1LinksCount(nodes: seq<NodeEntry>, now: string)
    requires OurNode(nodes).Some?
    ensures |V1Links(nodes, now)| == CountAbove(nodes, 0)
  {
    MultihopLinksSize(OurNode(nodes).value, nodes, HopOrder(nodes), now);
    GroupSumAll(nodes);
    CountAboveSplit(nodes);
  }

  /** Which hop-0 node is the centre: the first one in iteration order, and no
      link at all when its id is empty. */
  lemma V1Centre(nodes: seq<NodeEntry>)
    ensures OurNode(nodes).Some? <==>
              exists k :: 0 <= k < |nodes| && HopsOrMinusOne(nodes[k].info) == 0 && nodes[k].id != ""
                          && forall i :: 0 <= i < k ==> HopsOrMinusOne(nodes[i].info) != 0
    ensures OurNode(nodes).Some? ==>
              exists k :: 0 <= k < |nodes| && HopsOrMinusOne(nodes[k].info) == 0 && nodes[k].id == OurNode(nodes).value
  {
    if OurIds(nodes) != [] {
      OurIdsFirst(nodes);
      var k :| 0 <= k < |nodes| && HopsOrMinusOne(nodes[k].info) == 0 && nodes[k].id == OurIds(nodes)[0]
               && forall i :: 0 <= i < k ==> HopsOrMinusOne(nodes[i].info) != 0;
      forall k' | 0 <= k' < |nodes| && HopsOrMinusOne(nodes[k'].info) == 0
                  && (forall i :: 0 <= i < k' ==> HopsOrMinusOne(nodes[i].info) != 0)
        ensures k' == k
      {
      }
    } else {
      forall k | 0 <= k < |nodes| ensures HopsOrMinusOne(nodes[k].info) != 0 {
        OurIdsNone(nodes, k);
      }
    }
  }

  // ---------------------------------------------------------------------------
  // The loops
  // ---------------------------------------------------------------------------

  lemma NodesAtSnoc(nodes: seq<NodeEntry>, i: nat)
    requires i < |nodes|
    ensures forall h :: NodesAt(nodes[..i + 1], h) == NodesAt(nodes[..i], h) + (if HopsOrMinusOne(nodes[i].info) == h then [V1Node(nodes[i])] else [])
    ensures OurIds(nodes[..i + 1]) == OurIds(nodes[..i]) + (if HopsOrMinusOne(nodes[i].info) == 0 then [nodes[i].id] else [])
    ensures HopOrder(nodes[..i + 1]) == HopOrder(nodes[..i]) + (var h := HopsOrMinusOne(nodes[i].info); if h > 1 && h !in HopOrder(nodes[..i]) then [h] else [])
  {
    assert nodes[..i + 1][..i] == nodes[..i];
  }

  /** The three collections built from `nodes`: `our_nodes`, `one_hop_nodes`,
      and `multi_hop_nodes` as its keys in insertion order and its groups. */
  ghost predicate Classified(nodes: seq<NodeEntry>, ourNodes: seq<NodeId>, oneHopNodes: seq<HopNode>,
                             multiKeys: seq<int>, multiHopNodes: map<int, seq<HopNode>>)
  {
    && ourNodes == OurIds(nodes) && oneHopNodes == NodesAt(nodes, 1)
    && Grouped(nodes, multiKeys, multiHopNodes)
  }

  /** `multi_hop_nodes` of `nodes`, its keys in insertion order. */
  ghost predicate Grouped(nodes: seq<NodeEntry>, multiKeys: seq<int>, multiHopNodes: map<int, seq<HopNode>>) {
    && multiKeys == HopOrder(nodes)
    && (forall h :: h in multiHopNodes <==> h in multiKeys)
    && (forall h | h in multiHopNodes :: h > 1 && multiHopNodes[h] == NodesAt(nodes, h))
    && (forall h :: h > 1 && h !in multiKeys ==> NodesAt(nodes, h) == [])
  }

  lemma ListsSnoc(nodes: seq<NodeEntry>, i: nat)
    requires i < |nodes|
    ensures OurIds(nodes[..i + 1]) == OurIds(nodes[..i]) + (if HopsOrMinusOne(nodes[i].info) == 0 then [nodes[i].id] else [])
    ensures NodesAt(nodes[..i + 1], 1) == NodesAt(nodes[..i], 1) + (if HopsOrMinusOne(nodes[i].info) == 1 then [V1Node(nodes[i])] else [])
  {
    assert nodes[..i + 1][..i] == nodes[..i];
  }

  /** A node at hop 1 or less leaves `multi_hop_nodes` as it is. */
  lemma GroupedSkip(nodes: seq<NodeEntry>, i: nat, multiKeys: seq<int>, multiHopNodes: map<int, seq<HopNode>>)
    requires i < |nodes| && HopsOrMinusOne(nodes[i].info) <= 1 && Grouped(nodes[..i], multiKeys, multiHopNodes)
    ensures Grouped(nodes[..i + 1], multiKeys, multiHopNodes)
  {
    NodesAtSnoc(nodes, i);
  }

  /** A node at hop h > 1 opens its group when h is new, then joins it. */
  lemma GroupedAdd(nodes: seq<NodeEntry>, i: nat, multiKeys: seq<int>, multiHopNodes: map<int, seq<HopNode>>)
    requires i < |nodes| && HopsOrMinusOne(nodes[i].info) > 1 && Grouped(nodes[..i], multiKeys, multiHopNodes)
    ensures var h := HopsOrMinusOne(nodes[i].info);
            var keys := if h in multiHopNodes then multiKeys else multiKeys + [h];
            var withGroup := if h in multiHopNodes then multiHopNodes else multiHopNodes[h := []];
            Grouped(nodes[..i + 1], keys, withGroup[h := withGroup[h] + [V1Node(nodes[i])]])
  {
    NodesAtSnoc(nodes, i);
  }

  /** One round of the classification loop. */
  method ClassifyStep(nodes: seq<NodeEntry>, i: nat, ourNodes0: seq<NodeId>, oneHopNodes0: seq<HopNode>,
                      multiKeys0: seq<int>, multiHopNodes0: map<int, seq<HopNode>>)
    returns (ourNodes: seq<NodeId>, oneHopNodes: seq<HopNode>, multiKeys: seq<int>, multiHopNodes: map<int, seq<HopNode>>)
    requires i < |nodes| && Classified(nodes[..i], ourNodes0, oneHopNodes0, multiKeys0, multiHopNodes0)
    ensures Classified(nodes[..i + 1], ourNodes, oneHopNodes, multiKeys, multiHopNodes)
  {
    ourNodes, oneHopNodes, multiKeys, multiHopNodes := ourNodes0, oneHopNodes0, multiKeys0, multiHopNodes0;
    ListsSnoc(nodes, i);
    var hops := HopsOrMinusOne(nodes[i].info);
    var snr := nodes[i].info.snr.GetOr(0.0);
    if hops == 0 {
      ourNodes := ourNodes + [nodes[i].id];
    } else if hops == 1 {
      oneHopNodes := oneHopNodes + [HopNode(nodes[i].id, snr)];
    } else if hops > 1 {
      GroupedAdd(nodes, i, multiKeys, multiHopNodes);
      if hops !in multiHopNodes {
        multiKeys := multiKeys + [hops];
        multiHopNodes := multiHopNodes[hops := []];
      }
      multiHopNodes := multiHopNodes[hops := multiHopNodes[hops] + [HopNode(nodes[i].id, snr)]];
    }
    if hops <= 1 {
      GroupedSkip(nodes, i, multiKeys, multiHopNodes);
    }
  }

  /** The classification loop. */
  method Classify(nodes: seq<NodeEntry>)
    returns (ourNodes: seq<NodeId>, oneHopNodes: seq<HopNode>, multiKeys: seq<int>, multiHopNodes: map<int, seq<HopNode>>)
    ensures Classified(nodes, ourNodes, oneHopNodes, multiKeys, multiHopNodes)
  {
    ourNodes, oneHopNodes, multiKeys, multiHopNodes := [], [], [], map[];
    var i := 0;
    while i < |nodes|
      invariant 0 <= i <= |nodes|
      invariant Classified(nodes[..i], ourNodes, oneHopNodes, multiKeys, multiHopNodes)
    {
      ourNodes, oneHopNodes, multiKeys, multiHopNodes := ClassifyStep(nodes, i, ourNodes, oneHopNodes, multiKeys, multiHopNodes);
      i := i + 1;
    }
    assert nodes[..i] == nodes;
  }

  /** The direct-link loop. */
  method DirectStep(ourNode: NodeId, oneHopNodes: seq<HopNode>, now: string) returns (connections: seq<Link>)
    ensures connections == DirectLinks(ourNode, oneHopNodes, now)
  {
    connections := [];
    var i := 0;
    while i < |oneHopNodes|
      invariant 0 <= i <= |oneHopNodes|
      invariant connections == DirectLinks(ourNode, oneHopNodes[..i], now)
    {
      var x := oneHopNodes[i];
      connections := connections + [Link(ourNode, x.id, x.snr, InferredDirect, High, Some(1), Some(NODE_DATABASE), None, None, None, now)];
      i := i + 1;
    }
    assert oneHopNodes[..i] == oneHopNodes;
  }

  /** The inner loop of the multi-hop links: one group. */
  method GroupStep(ourNode: NodeId, group: seq<HopNode>, hops: int, now: string, links0: seq<Link>) returns (connections: seq<Link>)
    ensures connections == links0 + GroupLinks(ourNode, group, hops, now)
  {
    connections := links0;
    var j := 0;
    while j < |group|
      invariant 0 <= j <= |group|
      invariant connections == links0 + GroupLinks(ourNode, group[..j], hops, now)
    {
      var x := group[j];
      connections := connections + [Link(ourNode, x.id, x.snr, InferredMultihop, Medium, Some(hops), Some(NODE_DATABASE), None, None, None, now)];
      j := j + 1;
    }
    assert group[..j] == group;
  }

  /** The outer loop of the multi-hop links: the groups in key order. */
  method MultihopStep(ourNode: NodeId, ghost nodes: seq<NodeEntry>, multiKeys: seq<int>, multiHopNodes: map<int, seq<HopNode>>,
                      now: string, links0: seq<Link>)
    returns (connections: seq<Link>)
    requires forall h :: h in multiHopNodes <==> h in multiKeys
    requires forall h | h in multiHopNodes :: multiHopNodes[h] == NodesAt(nodes, h)
    ensures connections == links0 + MultihopLinks(ourNode, nodes, multiKeys, now)
  {
    connections := links0;
    var g := 0;
    while g < |multiKeys|
      invariant 0 <= g <= |multiKeys|
      invariant connections == links0 + MultihopLinks(ourNode, nodes, multiKeys[..g], now)
    {
      assert multiKeys[..g + 1][..g] == multiKeys[..g];
      var hops := multiKeys[g];
      assert hops in multiKeys;
      connections := GroupStep(ourNode, multiHopNodes[hops], hops, now, connections);
      g := g + 1;
    }
    assert multiKeys[..g] == multiKeys;
  }

  /** `infer_connections_from_hops(topology_data)`; `now` stands for every
      `datetime.now().isoformat()` of the run.  The guard `if our_node:` is the
      same on every iteration, so it is tested once. */
  method InferConnections(topology: Snapshot, now: string) returns (r: Result<seq<Link>, Inference.InferError>)
    ensures r == V1Result(topology, now)
  {
    if topology.nodes.None? {
      return Failure(Inference.MissingNodes);
    }
    var nodes := topology.nodes.value;
    var ourNodes, oneHopNodes, multiKeys, multiHopNodes := Classify(nodes);
    if ourNodes == [] || ourNodes[0] == "" {
      return Success([]);
    }
    var ourNode := ourNodes[0];
    var connections := DirectStep(ourNode, oneHopNodes, now);
    connections := MultihopStep(ourNode, nodes, multiKeys, multiHopNodes, now, connections);
    return Success(connections);
  }
}
