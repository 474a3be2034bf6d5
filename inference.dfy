/** The link inferencer of meshnetmap/inference.py (`infer_connections_from_hops`).
    Its four steps run in a fixed order over one `connections` list and one
    `connection_set`:
      1. Bluetooth bridge pairing (hop -1 source with hop 0 node), checked
         against the SORTED pair key;
      2. GPS co-location pairs, checked against the SORTED pair key;
      3. direct 0 -> 1 links, which add the ORDERED key without checking it;
      4. chained N -> N+1 links, checked against the ORDERED key.
    Every checked step is the fold `EmitAll` of the (pure) candidate list the
    step's loops walk through; the methods below are the loops, proved equal to
    those folds. */
module Inference {
  import opened Common
  import opened Records
  import opened HopTable
  import opened Evidence

  const DEFAULT_SNR: real := 10.0
  const GOOD_ROUTER_SNR: real := -10.0

  const BLUETOOTH: string := "bluetooth_connection"
  const SAME_GPS: string := "same_gps_location"
  const HOP_DISTANCE_WITH_ROUTING: string := "hop_distance_with_routing"
  const HOP_DISTANCE: string := "hop_distance"
  const ROUTING_VALIDATED: string := "routing_validated"
  const SNR_HEURISTIC: string := "snr_heuristic"
  const BEST_GUESS: string := "best_guess"

  /** `topology_data['nodes']` raising KeyError. */
  datatype InferError = MissingNodes

  // ---------------------------------------------------------------------------
  // The connection list and the connection set
  // ---------------------------------------------------------------------------

  datatype Acc = Acc(links: seq<Link>, seen: set<Pair>)

  /** The key a step records for a link: sorted (steps 1, 2) or ordered (steps 3, 4). */
  function DedupKey(l: Link, sorted: bool): Pair {
    if sorted then SortedPair(l.from, l.to) else (l.from, l.to)
  }

  /** `if conn_key in connection_set: continue` then append and record the key. */
  function Emit(acc: Acc, l: Link, sorted: bool): Acc {
    var k := DedupKey(l, sorted);
    if k in acc.seen then acc else Acc(acc.links + [l], acc.seen + {k})
  }

  function EmitAll(acc: Acc, cands: seq<Link>, sorted: bool): Acc {
    if cands == [] then acc
    else Emit(EmitAll(acc, cands[..|cands| - 1], sorted), cands[|cands| - 1], sorted)
  }

  lemma EmitAllSnoc(acc: Acc, cands: seq<Link>, c: Link, sorted: bool)
    ensures EmitAll(acc, cands + [c], sorted) == Emit(EmitAll(acc, cands, sorted), c, sorted)
  {
    assert (cands + [c])[..|cands + [c]| - 1] == cands;
  }

  function KeySet(ls: seq<Link>, sorted: bool): set<Pair> {
    set l | l in ls :: DedupKey(l, sorted)
  }

  /** Step 3 appends every candidate and records its ordered key, unchecked. */
  function AddAll(acc: Acc, ls: seq<Link>): Acc {
    Acc(acc.links + ls, acc.seen + KeySet(ls, false))
  }

  // ---------------------------------------------------------------------------
  // Step 1: Bluetooth bridge pairing
  // ---------------------------------------------------------------------------

  /** The nodes whose `hopsAway` is `h`, in order (a missing key is not h). */
  function WithHops(nodes: seq<NodeEntry>, h: int): (r: seq<NodeEntry>)
    ensures forall e | e in r :: e in nodes && e.info.hopsAway == Some(h)
  {
    if nodes == [] then []
    else
      var e := nodes[|nodes| - 1];
      WithHops(nodes[..|nodes| - 1], h) + (if e.info.hopsAway == Some(h) then [e] else [])
  }

  function BridgeLink(source: NodeEntry, node: NodeEntry, now: string): Link {
    Link(node.id, source.id, SnrOr(node.info.snr, DEFAULT_SNR), Colocated, High,
         Some(0), Some(BLUETOOTH), Some(1), None, None, now)
  }

  function BridgeRow(source: NodeEntry, nodes: seq<NodeEntry>, now: string): seq<Link> {
    seq(|nodes|, j requires 0 <= j < |nodes| => BridgeLink(source, nodes[j], now))
  }

  lemma BridgeRowSnoc(source: NodeEntry, nodes: seq<NodeEntry>, now: string, j: int)
    requires 0 <= j < |nodes|
    ensures BridgeRow(source, nodes[..j + 1], now) == BridgeRow(source, nodes[..j], now) + [BridgeLink(source, nodes[j], now)]
  {
  }

  /** Every (source, collection node) pair, sources outermost. */
  function BridgeCandidates(sources: seq<NodeEntry>, nodes: seq<NodeEntry>, now: string): seq<Link> {
    if sources == [] then []
    else BridgeCandidates(sources[..|sources| - 1], nodes, now) + BridgeRow(sources[|sources| - 1], nodes, now)
  }

  /** The inner loop of step 1: one bridge source against every collection node. */
  method BridgeRowStep(source: NodeEntry, nodes: seq<NodeEntry>, now: string, links0: seq<Link>, seen0: set<Pair>)
    returns (connections: seq<Link>, connectionSet: set<Pair>)
    ensures Acc(connections, connectionSet) == EmitAll(Acc(links0, seen0), BridgeRow(source, nodes, now), true)
  {
    connections, connectionSet := links0, seen0;
    var j := 0;
    while j < |nodes|
      invariant 0 <= j <= |nodes|
      invariant Acc(connections, connectionSet) == EmitAll(Acc(links0, seen0), BridgeRow(source, nodes[..j], now), true)
    {
      var sourceId, nodeId := source.id, nodes[j].id;
      var connKey := SortedPair(sourceId, nodeId);
      var connection := Link(nodeId, sourceId, SnrOr(nodes[j].info.snr, DEFAULT_SNR), Colocated, High,
                             Some(0), Some(BLUETOOTH), Some(1), None, None, now);
      SortedPairSymmetric(sourceId, nodeId);
      assert connection == BridgeLink(source, nodes[j], now);
      BridgeRowSnoc(source, nodes, now, j);
      EmitAllSnoc(Acc(links0, seen0), BridgeRow(source, nodes[..j], now), connection, true);
      if connKey !in connectionSet {
        connections := connections + [connection];
        connectionSet := connectionSet + {connKey};
      }
      j := j + 1;
    }
    assert nodes[..j] == nodes;
  }

  method BridgeStep(allNodes: seq<NodeEntry>, now: string) returns (connections: seq<Link>, connectionSet: set<Pair>)
    ensures Acc(connections, connectionSet)
            == EmitAll(Acc([], {}), BridgeCandidates(WithHops(allNodes, -1), WithHops(allNodes, 0), now), true)
  {
    var sources := WithHops(allNodes, -1);
    var nodes := WithHops(allNodes, 0);
    connections, connectionSet := [], {};
    if sources != [] && nodes != [] {
      connections, connectionSet := BridgePairs(sources, nodes, now);
    } else if nodes == [] {
      BridgeCandidatesNoNodes(sources, now);
    }
  }

  /** The outer loop of step 1: every bridge source in turn. */
  method BridgePairs(sources: seq<NodeEntry>, nodes: seq<NodeEntry>, now: string) returns (connections: seq<Link>, connectionSet: set<Pair>)
    ensures Acc(connections, connectionSet) == EmitAll(Acc([], {}), BridgeCandidates(sources, nodes, now), true)
  {
    connections, connectionSet := [], {};
    var i := 0;
    while i < |sources|
      invariant 0 <= i <= |sources|
      invariant Acc(connections, connectionSet) == EmitAll(Acc([], {}), BridgeCandidates(sources[..i], nodes, now), true)
    {
      assert sources[..i + 1][..i] == sources[..i];
      EmitAllConcat(Acc([], {}), BridgeCandidates(sources[..i], nodes, now), BridgeRow(sources[i], nodes, now), true);
      connections, connectionSet := BridgeRowStep(sources[i], nodes, now, connections, connectionSet);
      i := i + 1;
    }
    assert sources[..i] == sources;
  }

  lemma {:induction false} BridgeCandidatesNoNodes(sources: seq<NodeEntry>, now: string)
    ensures BridgeCandidates(sources, [], now) == []
  {
    if sources != [] {
      BridgeCandidatesNoNodes(sources[..|sources| - 1], now);
    }
  }

  // ---------------------------------------------------------------------------
  // Step 2: GPS co-location
  // ---------------------------------------------------------------------------

  /** The link for members a (earlier) and b (later) of one group: from a to b,
      turned round when only b has hop distance 0; SNR is the first truthy of
      the two, else the default. */
  function GpsLink(a: NodeEntry, b: NodeEntry, now: string): Link {
    var snr := SnrOr(a.info.snr, SnrOr(b.info.snr, DEFAULT_SNR));
    var swap := HopsOrMinusOne(b.info) == 0 && HopsOrMinusOne(a.info) != 0;
    Link(if swap then b.id else a.id, if swap then a.id else b.id, snr, Colocated, High,
         Some(0), Some(SAME_GPS), Some(1), None, None, now)
  }

  /** `for node2 in nodes[i+1:]` */
  function PairsFrom(m: seq<NodeEntry>, i: int, now: string): seq<Link>
    requires 0 <= i < |m|
  {
    seq(|m| - i - 1, k requires 0 <= k < |m| - i - 1 => GpsLink(m[i], m[i + 1 + k], now))
  }

  /** The pairs whose first member is among the first n members. */
  function MemberCandidates(m: seq<NodeEntry>, n: int, now: string): seq<Link>
    requires 0 <= n <= |m|
  {
    if n == 0 then [] else MemberCandidates(m, n - 1, now) + PairsFrom(m, n - 1, now)
  }

  function GpsCandidates(groups: seq<Group>, now: string): seq<Link> {
    if groups == [] then []
    else
      var m := groups[|groups| - 1].1;
      GpsCandidates(groups[..|groups| - 1], now) + MemberCandidates(m, |m|, now)
  }

  /** The innermost loop of step 2: member i against every later member. */
  method PairsStep(nodes: seq<NodeEntry>, i: int, now: string, links0: seq<Link>, seen0: set<Pair>)
    returns (connections: seq<Link>, connectionSet: set<Pair>)
    requires 0 <= i < |nodes|
    ensures Acc(connections, connectionSet) == EmitAll(Acc(links0, seen0), PairsFrom(nodes, i, now), true)
  {
    connections, connectionSet := links0, seen0;
    var j := i + 1;
    while j < |nodes|
      invariant i + 1 <= j <= |nodes|
      invariant Acc(connections, connectionSet) == EmitAll(Acc(links0, seen0), PairsFrom(nodes, i, now)[..j - i - 1], true)
    {
      var node1, node2 := nodes[i], nodes[j];
      var hops1 := HopsOrMinusOne(node1.info);
      var hops2 := HopsOrMinusOne(node2.info);
      var connKey := SortedPair(node1.id, node2.id);
      ghost var cand := GpsLink(node1, node2, now);
      SortedPairSymmetric(node1.id, node2.id);
      assert DedupKey(cand, true) == connKey;
      assert PairsFrom(nodes, i, now)[..j - i] == PairsFrom(nodes, i, now)[..j - i - 1] + [cand];
      EmitAllSnoc(Acc(links0, seen0), PairsFrom(nodes, i, now)[..j - i - 1], cand, true);
      if connKey !in connectionSet {
        var snr := SnrOr(node1.info.snr, SnrOr(node2.info.snr, DEFAULT_SNR));
        var connection := Link(node1.id, node2.id, snr, Colocated, High,
                               Some(0), Some(SAME_GPS), Some(1), None, None, now);
        connections := connections + [connection];
        connectionSet := connectionSet + {connKey};
        // the dict already appended is turned round in place
        if hops2 == 0 && hops1 != 0 {
          connections := connections[..|connections| - 1] + [connection.(from := connection.to, to := connection.from)];
        }
      }
      j := j + 1;
    }
    assert PairsFrom(nodes, i, now)[..j - i - 1] == PairsFrom(nodes, i, now);
  }

  /** The middle loop of step 2: every pair of one co-location group. */
  method GroupStep(nodes: seq<NodeEntry>, now: string, links0: seq<Link>, seen0: set<Pair>)
    returns (connections: seq<Link>, connectionSet: set<Pair>)
    ensures Acc(connections, connectionSet) == EmitAll(Acc(links0, seen0), MemberCandidates(nodes, |nodes|, now), true)
  {
    connections, connectionSet := links0, seen0;
    var i := 0;
    while i < |nodes|
      invariant 0 <= i <= |nodes|
      invariant Acc(connections, connectionSet) == EmitAll(Acc(links0, seen0), MemberCandidates(nodes, i, now), true)
    {
      connections, connectionSet := MemberStep(nodes, i, now, links0, seen0, connections, connectionSet);
      i := i + 1;
    }
  }

  /** One round of the middle loop of step 2, as that loop's invariant sees it. */
  method MemberStep(nodes: seq<NodeEntry>, i: int, now: string, ghost links0: seq<Link>, ghost seen0: set<Pair>,
                    links1: seq<Link>, seen1: set<Pair>)
    returns (connections: seq<Link>, connectionSet: set<Pair>)
    requires 0 <= i < |nodes|
    requires Acc(links1, seen1) == EmitAll(Acc(links0, seen0), MemberCandidates(nodes, i, now), true)
    ensures Acc(connections, connectionSet) == EmitAll(Acc(links0, seen0), MemberCandidates(nodes, i + 1, now), true)
  {
    EmitAllConcat(Acc(links0, seen0), MemberCandidates(nodes, i, now), PairsFrom(nodes, i, now), true);
    connections, connectionSet := PairsStep(nodes, i, now, links1, seen1);
  }

  method GpsStep(colocated: seq<Group>, now: string, links0: seq<Link>, seen0: set<Pair>)
    returns (connections: seq<Link>, connectionSet: set<Pair>)
    ensures Acc(connections, connectionSet) == EmitAll(Acc(links0, seen0), GpsCandidates(colocated, now), true)
  {
    connections, connectionSet := links0, seen0;
    var g := 0;
    while g < |colocated|
      invariant 0 <= g <= |colocated|
      invariant Acc(connections, connectionSet) == EmitAll(Acc(links0, seen0), GpsCandidates(colocated[..g], now), true)
    {
      assert colocated[..g + 1][..g] == colocated[..g];
      var nodes := colocated[g].1;
      EmitAllConcat(Acc(links0, seen0), GpsCandidates(colocated[..g], now), MemberCandidates(nodes, |nodes|, now), true);
      connections, connectionSet := GroupStep(nodes, now, connections, connectionSet);
      g := g + 1;
    }
    assert colocated[..g] == colocated;
  }

  // ---------------------------------------------------------------------------
  // Step 3: direct 0 -> 1 links
  // ---------------------------------------------------------------------------

  function DirectLink(zero: HopNode, one: HopNode, ev: RoutingIndex, now: string): Link {
    var n := |Lookup(ev, zero.id, one.id)|;
    Link(zero.id, one.id, one.snr, InferredDirect, if n > 0 then High else Medium,
         Some(1), Some(if n > 0 then HOP_DISTANCE_WITH_ROUTING else HOP_DISTANCE), Some(n), None, None, now)
  }

  function DirectRow(zero: HopNode, ones: seq<HopNode>, ev: RoutingIndex, now: string): seq<Link> {
    seq(|ones|, j requires 0 <= j < |ones| => DirectLink(zero, ones[j], ev, now))
  }

  lemma DirectRowSnoc(zero: HopNode, ones: seq<HopNode>, ev: RoutingIndex, now: string, j: int)
    requires 0 <= j < |ones|
    ensures DirectRow(zero, ones[..j + 1], ev, now) == DirectRow(zero, ones[..j], ev, now) + [DirectLink(zero, ones[j], ev, now)]
  {
  }

  function DirectCandidates(zeros: seq<HopNode>, ones: seq<HopNode>, ev: RoutingIndex, now: string): seq<Link> {
    if zeros == [] then []
    else DirectCandidates(zeros[..|zeros| - 1], ones, ev, now) + DirectRow(zeros[|zeros| - 1], ones, ev, now)
  }

  lemma KeySetSnoc(ls: seq<Link>, l: Link, sorted: bool)
    ensures KeySet(ls + [l], sorted) == KeySet(ls, sorted) + {DedupKey(l, sorted)}
  {
    assert forall x :: x in ls + [l] <==> x in ls || x == l;
  }

  lemma KeySetConcat(xs: seq<Link>, ys: seq<Link>, sorted: bool)
    ensures KeySet(xs + ys, sorted) == KeySet(xs, sorted) + KeySet(ys, sorted)
  {
    assert forall x :: x in xs + ys <==> x in xs || x in ys;
  }

  lemma AddAllConcat(acc: Acc, xs: seq<Link>, ys: seq<Link>)
    ensures AddAll(AddAll(acc, xs), ys) == AddAll(acc, xs + ys)
  {
    KeySetConcat(xs, ys, false);
    assert acc.links + xs + ys == acc.links + (xs + ys);
  }

  /** The inner loop of step 3: one hop-0 node against every hop-1 node. */
  method DirectRowStep(zeroHop: HopNode, ones: seq<HopNode>, ev: RoutingIndex, now: string,
                       links0: seq<Link>, seen0: set<Pair>)
    returns (connections: seq<Link>, connectionSet: set<Pair>)
    ensures Acc(connections, connectionSet) == AddAll(Acc(links0, seen0), DirectRow(zeroHop, ones, ev, now))
  {
    connections, connectionSet := links0, seen0;
    var j := 0;
    while j < |ones|
      invariant 0 <= j <= |ones|
      invariant Acc(connections, connectionSet) == AddAll(Acc(links0, seen0), DirectRow(zeroHop, ones[..j], ev, now))
    {
      var oneHop := ones[j];
      var connection := DirectLink(zeroHop, oneHop, ev, now);
      DirectRowSnoc(zeroHop, ones, ev, now, j);
      AddAllConcat(Acc(links0, seen0), DirectRow(zeroHop, ones[..j], ev, now), [connection]);
      KeySetSnoc([], connection, false);
      assert [] + [connection] == [connection];
      assert DedupKey(connection, false) == (zeroHop.id, oneHop.id);
      connections := connections + [connection];
      connectionSet := connectionSet + {(zeroHop.id, oneHop.id)};
      j := j + 1;
    }
    assert ones[..j] == ones;
  }

  method DirectStep(zeros: seq<HopNode>, ones: seq<HopNode>, ev: RoutingIndex, now: string,
                    links0: seq<Link>, seen0: set<Pair>)
    returns (connections: seq<Link>, connectionSet: set<Pair>)
    ensures Acc(connections, connectionSet) == AddAll(Acc(links0, seen0), DirectCandidates(zeros, ones, ev, now))
  {
    connections, connectionSet := links0, seen0;
    var i := 0;
    while i < |zeros|
      invariant 0 <= i <= |zeros|
      invariant Acc(connections, connectionSet) == AddAll(Acc(links0, seen0), DirectCandidates(zeros[..i], ones, ev, now))
    {
      assert zeros[..i + 1][..i] == zeros[..i];
      AddAllConcat(Acc(links0, seen0), DirectCandidates(zeros[..i], ones, ev, now), DirectRow(zeros[i], ones, ev, now));
      connections, connectionSet := DirectRowStep(zeros[i], ones, ev, now, connections, connectionSet);
      i := i + 1;
    }
    assert zeros[..i] == zeros;
  }

  // ---------------------------------------------------------------------------
  // Step 4: chained N -> N+1 links
  // ---------------------------------------------------------------------------

  datatype Validation = RoutingValidated | SnrHeuristic | BestGuess

  /** `(router, evidence_count, validation_type)` */
  datatype Choice = Choice(router: HopNode, count: nat, validation: Validation)

  function ValidationName(v: Validation): string {
    match v
    case RoutingValidated => ROUTING_VALIDATED
    case SnrHeuristic => SNR_HEURISTIC
    case BestGuess => BEST_GUESS
  }

  /** The routers with routing evidence toward x, in router order. */
  function ValidatedChoices(routers: seq<HopNode>, x: HopNode, ev: RoutingIndex): seq<Choice> {
    if routers == [] then []
    else
      var r := routers[|routers| - 1];
      var n := |Lookup(ev, r.id, x.id)|;
      ValidatedChoices(routers[..|routers| - 1], x, ev) + (if n > 0 then [Choice(r, n, RoutingValidated)] else [])
  }

  /** The routers whose SNR is above -10, in order. */
  function GoodRouters(routers: seq<HopNode>): seq<HopNode> {
    if routers == [] then []
    else
      var r := routers[|routers| - 1];
      GoodRouters(routers[..|routers| - 1]) + (if r.snr > GOOD_ROUTER_SNR then [r] else [])
  }

  /** `validated_routers` for target x, before the cut to two. */
  function RouterChoices(current: seq<HopNode>, x: HopNode, ev: RoutingIndex): seq<Choice> {
    var routers := SortBySnrDesc(current);
    var validated := ValidatedChoices(routers, x, ev);
    if validated != [] then validated
    else
      var good := GoodRouters(routers);
      if good != [] then [Choice(good[0], 0, SnrHeuristic)]
      else if routers != [] then [Choice(routers[0], 0, BestGuess)]
      else []
  }

  /** The first two choices, or all of them when there are fewer. */
  function Top2(cs: seq<Choice>): (r: seq<Choice>)
    ensures |r| == if |cs| <= 2 then |cs| else 2
    ensures |r| <= 2 && |r| <= |cs| && r == cs[..|r|]
  {
    if |cs| <= 2 then cs else cs[..2]
  }

  function HopConfidence(c: Choice): Confidence {
    match c.validation
    case RoutingValidated => High
    case SnrHeuristic => if c.router.snr > 0.0 then Medium else Low
    case BestGuess => Low
  }

  function HopLink(c: Choice, x: HopNode, level: int, now: string): Link {
    Link(c.router.id, x.id, x.snr, InferredHop, HopConfidence(c), Some(1),
         Some(ValidationName(c.validation)), Some(c.count), Some(level + 1), Some(c.router.snr), now)
  }

  function TargetCandidates(current: seq<HopNode>, x: HopNode, level: int, ev: RoutingIndex, now: string): seq<Link> {
    var cs := Top2(RouterChoices(current, x, ev));
    seq(|cs|, k requires 0 <= k < |cs| => HopLink(cs[k], x, level, now))
  }

  function LevelCandidates(current: seq<HopNode>, nexts: seq<HopNode>, level: int, ev: RoutingIndex, now: string): seq<Link> {
    if nexts == [] then []
    else LevelCandidates(current, nexts[..|nexts| - 1], level, ev, now)
         + TargetCandidates(current, nexts[|nexts| - 1], level, ev, now)
  }

  /** The candidates of levels 1 .. upTo-1 (`range(1, max_hop)` for upTo = max_hop);
      a level counts only when it and the next level both hold nodes. */
  function HopCandidates(nodes: seq<NodeEntry>, ev: RoutingIndex, now: string, upTo: int): seq<Link>
    decreases upTo
  {
    if upTo <= 1 then [] else HopCandidates(nodes, ev, now, upTo - 1) + LevelLinks(nodes, ev, now, upTo - 1)
  }

  /** One level's candidates, when that level and the next both hold nodes. */
  function LevelLinks(nodes: seq<NodeEntry>, ev: RoutingIndex, now: string, level: int): seq<Link> {
    if AtHop(nodes, level) != [] && AtHop(nodes, level + 1) != []
    then LevelCandidates(AtHop(nodes, level), AtHop(nodes, level + 1), level, ev, now)
    else []
  }

  method ChooseRouters(current: seq<HopNode>, nextNode: HopNode, ev: RoutingIndex) returns (validatedRouters: seq<Choice>)
    ensures validatedRouters == RouterChoices(current, nextNode, ev)
  {
    var potentialRouters := SortBySnrDesc(current);
    validatedRouters := [];
    var i := 0;
    while i < |potentialRouters|
      invariant 0 <= i <= |potentialRouters|
      invariant validatedRouters == ValidatedChoices(potentialRouters[..i], nextNode, ev)
    {
      assert potentialRouters[..i + 1][..i] == potentialRouters[..i];
      var router := potentialRouters[i];
      var evidence := Lookup(ev, router.id, nextNode.id);
      if evidence != [] {
        validatedRouters := validatedRouters + [Choice(router, |evidence|, RoutingValidated)];
      }
      i := i + 1;
    }
    assert potentialRouters[..i] == potentialRouters;
    if validatedRouters == [] {
      var goodRouters := GoodRouters(potentialRouters);
      if goodRouters != [] {
        validatedRouters := [Choice(goodRouters[0], 0, SnrHeuristic)];
      } else if potentialRouters != [] {
        validatedRouters := [Choice(potentialRouters[0], 0, BestGuess)];
      }
    }
  }

  method TargetStep(current: seq<HopNode>, nextNode: HopNode, level: int, ev: RoutingIndex, now: string,
                    links0: seq<Link>, seen0: set<Pair>)
    returns (connections: seq<Link>, connectionSet: set<Pair>)
    ensures Acc(connections, connectionSet) == EmitAll(Acc(links0, seen0), TargetCandidates(current, nextNode, level, ev, now), false)
  {
    var validatedRouters := ChooseRouters(current, nextNode, ev);
    var top := Top2(validatedRouters);
    ghost var cands := TargetCandidates(current, nextNode, level, ev, now);
    connections, connectionSet := links0, seen0;
    var k := 0;
    while k < |top|
      invariant 0 <= k <= |top|
      invariant Acc(connections, connectionSet) == EmitAll(Acc(links0, seen0), cands[..k], false)
    {
      var c := top[k];
      var router := c.router;
      var connKey := (router.id, nextNode.id);
      assert cands[..k + 1] == cands[..k] + [HopLink(c, nextNode, level, now)];
      EmitAllSnoc(Acc(links0, seen0), cands[..k], HopLink(c, nextNode, level, now), false);
      if connKey !in connectionSet {
        var confidence;
        if c.validation == RoutingValidated {
          confidence := High;
        } else if c.validation == SnrHeuristic && router.snr > 0.0 {
          confidence := Medium;
        } else {
          confidence := Low;
        }
        var connection := Link(router.id, nextNode.id, nextNode.snr, InferredHop, confidence, Some(1),
                               Some(ValidationName(c.validation)), Some(c.count), Some(level + 1),
                               Some(router.snr), now);
        assert connection == HopLink(c, nextNode, level, now);
        connections := connections + [connection];
        connectionSet := connectionSet + {connKey};
      }
      k := k + 1;
    }
    assert cands[..k] == cands;
  }

  method LevelStep(current: seq<HopNode>, nexts: seq<HopNode>, level: int, ev: RoutingIndex, now: string,
                   links0: seq<Link>, seen0: set<Pair>)
    returns (connections: seq<Link>, connectionSet: set<Pair>)
    ensures Acc(connections, connectionSet) == EmitAll(Acc(links0, seen0), LevelCandidates(current, nexts, level, ev, now), false)
  {
    connections, connectionSet := links0, seen0;
    var i := 0;
    while i < |nexts|
      invariant 0 <= i <= |nexts|
      invariant Acc(connections, connectionSet) == EmitAll(Acc(links0, seen0), LevelCandidates(current, nexts[..i], level, ev, now), false)
    {
      assert nexts[..i + 1][..i] == nexts[..i];
      ghost var before := LevelCandidates(current, nexts[..i], level, ev, now);
      connections, connectionSet := TargetStep(current, nexts[i], level, ev, now, connections, connectionSet);
      EmitAllConcat(Acc(links0, seen0), before, TargetCandidates(current, nexts[i], level, ev, now), false);
      i := i + 1;
    }
    assert nexts[..i] == nexts;
  }

  lemma {:induction false} EmitAllConcat(acc: Acc, xs: seq<Link>, ys: seq<Link>, sorted: bool)
    ensures EmitAll(acc, xs + ys, sorted) == EmitAll(EmitAll(acc, xs, sorted), ys, sorted)
  {
    if ys == [] {
      assert xs + ys == xs;
    } else {
      var init := ys[..|ys| - 1];
      EmitAllConcat(acc, xs, init, sorted);
      assert (xs + ys)[..|xs + ys| - 1] == xs + init;
    }
  }

  method HopStep(byHop: map<int, seq<HopNode>>, ghost nodes: seq<NodeEntry>, maxHop: int, ev: RoutingIndex, now: string,
                 links0: seq<Link>, seen0: set<Pair>)
    returns (connections: seq<Link>, connectionSet: set<Pair>)
    requires HopTableOf(byHop, nodes)
    ensures Acc(connections, connectionSet) == EmitAll(Acc(links0, seen0), HopCandidates(nodes, ev, now, maxHop), false)
  {
    connections, connectionSet := links0, seen0;
    NoHopCandidates(nodes, ev, now, 1);
    if maxHop <= 1 {
      NoHopCandidates(nodes, ev, now, maxHop);
      return;
    }
    var hopLevel := 1;
    while hopLevel < maxHop
      invariant 1 <= hopLevel <= maxHop
      invariant Acc(connections, connectionSet) == EmitAll(Acc(links0, seen0), HopCandidates(nodes, ev, now, hopLevel), false)
    {
      connections, connectionSet := HopRound(byHop, nodes, hopLevel, ev, now, links0, seen0, connections, connectionSet);
      hopLevel := hopLevel + 1;
    }
  }

  lemma NoHopCandidates(nodes: seq<NodeEntry>, ev: RoutingIndex, now: string, upTo: int)
    requires upTo <= 1
    ensures HopCandidates(nodes, ev, now, upTo) == []
  {
  }

  /** One round of the level loop of step 4, as the loop's invariant sees it. */
  method HopRound(byHop: map<int, seq<HopNode>>, ghost nodes: seq<NodeEntry>, hopLevel: int, ev: RoutingIndex, now: string,
                  ghost links0: seq<Link>, ghost seen0: set<Pair>, links1: seq<Link>, seen1: set<Pair>)
    returns (connections: seq<Link>, connectionSet: set<Pair>)
    requires HopTableOf(byHop, nodes) && hopLevel >= 1
    requires Acc(links1, seen1) == EmitAll(Acc(links0, seen0), HopCandidates(nodes, ev, now, hopLevel), false)
    ensures Acc(connections, connectionSet) == EmitAll(Acc(links0, seen0), HopCandidates(nodes, ev, now, hopLevel + 1), false)
  {
    EmitAllConcat(Acc(links0, seen0), HopCandidates(nodes, ev, now, hopLevel), LevelLinks(nodes, ev, now, hopLevel), false);
    connections, connectionSet := HopLevelStep(byHop, nodes, hopLevel, ev, now, links1, seen1);
  }

  /** One round of the level loop of step 4. */
  method HopLevelStep(byHop: map<int, seq<HopNode>>, ghost nodes: seq<NodeEntry>, hopLevel: int, ev: RoutingIndex, now: string,
                      links0: seq<Link>, seen0: set<Pair>)
    returns (connections: seq<Link>, connectionSet: set<Pair>)
    requires HopTableOf(byHop, nodes)
    requires hopLevel >= 1
    ensures Acc(connections, connectionSet) == EmitAll(Acc(links0, seen0), LevelLinks(nodes, ev, now, hopLevel), false)
  {
    connections, connectionSet := links0, seen0;
    if hopLevel in byHop && hopLevel + 1 in byHop {
      connections, connectionSet := LevelStep(byHop[hopLevel], byHop[hopLevel + 1], hopLevel, ev, now, connections, connectionSet);
    }
  }

  // ---------------------------------------------------------------------------
  // The whole pass
  // ---------------------------------------------------------------------------

  function BridgeAcc(nodes: seq<NodeEntry>, now: string): Acc {
    EmitAll(Acc([], {}), BridgeCandidates(WithHops(nodes, -1), WithHops(nodes, 0), now), true)
  }

  function GpsAcc(nodes: seq<NodeEntry>, now: string): Acc {
    EmitAll(BridgeAcc(nodes, now), GpsCandidates(Evidence.Colocated(nodes), now), true)
  }

  /** The direct links, emitted when both hop 0 and hop 1 hold nodes. */
  function DirectLinks(nodes: seq<NodeEntry>, ev: RoutingIndex, now: string): seq<Link> {
    if AtHop(nodes, 0) != [] && AtHop(nodes, 1) != [] then DirectCandidates(AtHop(nodes, 0), AtHop(nodes, 1), ev, now)
    else []
  }

  function DirectAcc(nodes: seq<NodeEntry>, ev: RoutingIndex, now: string): Acc {
    AddAll(GpsAcc(nodes, now), DirectLinks(nodes, ev, now))
  }

  function HopAcc(nodes: seq<NodeEntry>, ev: RoutingIndex, now: string): Acc {
    EmitAll(DirectAcc(nodes, ev, now), HopCandidates(nodes, ev, now, MaxHop(nodes)), false)
  }

  /** The links of one pass over `nodes`; empty when no node has a known hop distance. */
  function InferLinks(nodes: seq<NodeEntry>, routingPaths: Option<seq<RoutingPath>>, now: string): seq<Link> {
    if MaxHop(nodes) < 0 then []
    else HopAcc(nodes, IndexOf(routingPaths.GetOr([])), now).links
  }

  function InferResult(topology: Snapshot, now: string): Result<seq<Link>, InferError> {
    if topology.nodes.None? then Failure(MissingNodes)
    else Success(InferLinks(topology.nodes.value, topology.routingPaths, now))
  }

  /** Steps 1 and 2. */
  method ColocationSteps(nodes: seq<NodeEntry>, colocated: seq<Group>, now: string)
    returns (connections: seq<Link>, connectionSet: set<Pair>)
    requires colocated == Evidence.Colocated(nodes)
    ensures Acc(connections, connectionSet) == GpsAcc(nodes, now)
  {
    connections, connectionSet := BridgeStep(nodes, now);
    connections, connectionSet := GpsStep(colocated, now, connections, connectionSet);
  }

  /** Steps 1 to 4, once some node has a known hop distance. */
  method AllSteps(nodes: seq<NodeEntry>, colocated: seq<Group>, nodesByHop: map<int, seq<HopNode>>,
                  routingEvidence: RoutingIndex, now: string)
    returns (connections: seq<Link>)
    requires colocated == Evidence.Colocated(nodes)
    requires HopTableOf(nodesByHop, nodes)
    ensures connections == HopAcc(nodes, routingEvidence, now).links
  {
    var connectionSet;
    connections, connectionSet := ColocationSteps(nodes, colocated, now);
    if 0 in nodesByHop && 1 in nodesByHop {
      connections, connectionSet := DirectStep(nodesByHop[0], nodesByHop[1], routingEvidence, now, connections, connectionSet);
    } else {
      assert KeySet([], false) == {};
    }
    assert Acc(connections, connectionSet) == DirectAcc(nodes, routingEvidence, now);
    var maxHop := MaxHop(nodes);
    connections, connectionSet := HopStep(nodesByHop, nodes, maxHop, routingEvidence, now, connections, connectionSet);
  }

  /** `infer_connections_from_hops(topology_data)`; `now` stands for every
      `datetime.now().isoformat()` of the pass. */
  method InferConnectionsFromHops(topology: Snapshot, now: string) returns (r: Result<seq<Link>, InferError>)
    ensures r == InferResult(topology, now)
  {
    var routingEvidence := ExtractRoutingEvidence(topology.routingPaths);
    if topology.nodes.None? {
      return Failure(MissingNodes);
    }
    var nodes := topology.nodes.value;
    var colocated := FindColocatedNodes(nodes);
    var nodesByHop := GroupByHop(nodes);
    if |nodesByHop| == 0 {
      return Success([]);
    }
    var connections := AllSteps(nodes, colocated, nodesByHop, routingEvidence, now);
    return Success(connections);
  }
}
