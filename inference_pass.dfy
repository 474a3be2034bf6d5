/** Properties of a whole pass of `infer_connections_from_hops`
    (meshnetmap/inference.py): how the output is laid out, which links it can
    hold, how far its deduplication reaches, and a corrected deduplication. */
module InferencePass {
  import opened Common
  import opened Records
  import opened HopTable
  import opened Evidence
  import opened Inference
  import opened InferenceProps

  // ---------------------------------------------------------------------------
  // Layout of the output
  // ---------------------------------------------------------------------------

  /** The routing index one pass builds. */
  function EvidenceOf(paths: Option<seq<RoutingPath>>): RoutingIndex {
    IndexOf(paths.GetOr([]))
  }

  /** After step 3 the list is the links of steps 1-2 followed by every direct
      candidate, and the set holds the sorted keys of the former and the ordered
      keys of the latter. */
  lemma DirectAccShape(nodes: seq<NodeEntry>, ev: RoutingIndex, now: string)
    ensures DirectAcc(nodes, ev, now).links == GpsAcc(nodes, now).links + DirectLinks(nodes, ev, now)
    ensures DirectAcc(nodes, ev, now).seen == KeySet(GpsAcc(nodes, now).links, true) + KeySet(DirectLinks(nodes, ev, now), false)
  {
    ColocationAccFacts(nodes, now);
  }

  /** The output is the links of steps 1 and 2, then every direct candidate
      unchanged, then those hop candidates whose ordered key was not yet in the
      connection set: no two of them share an ordered key, and none repeats a
      sorted key of steps 1-2 read as ordered or an ordered key of step 3. */
  lemma PassSegments(nodes: seq<NodeEntry>, paths: Option<seq<RoutingPath>>, now: string) returns (hops: seq<Link>)
    requires MaxHop(nodes) >= 0
    ensures InferLinks(nodes, paths, now) == GpsAcc(nodes, now).links + DirectLinks(nodes, EvidenceOf(paths), now) + hops
    ensures forall l | l in hops :: l in HopCandidates(nodes, EvidenceOf(paths), now, MaxHop(nodes))
    ensures FreshKeys(hops, KeySet(GpsAcc(nodes, now).links, true) + KeySet(DirectLinks(nodes, EvidenceOf(paths), now), false), false)
  {
    var ev := EvidenceOf(paths);
    var d := DirectAcc(nodes, ev, now);
    var cands := HopCandidates(nodes, ev, now, MaxHop(nodes));
    DirectAccShape(nodes, ev, now);
    hops := EmitAllSplit(d, cands, false);
  }

  /** A checked step appends a key-fresh selection of its candidates. */
  lemma EmitAllSplit(acc: Acc, cands: seq<Link>, sorted: bool) returns (added: seq<Link>)
    ensures EmitAll(acc, cands, sorted).links == acc.links + added
    ensures forall l | l in added :: l in cands
    ensures FreshKeys(added, acc.seen, sorted)
    ensures EmitAll(acc, cands, sorted).seen == acc.seen + KeySet(added, sorted)
  {
    EmitAllExtends(acc, cands, sorted);
    EmitAllKeys(acc, cands, sorted);
    var out := EmitAll(acc, cands, sorted).links;
    added := out[|acc.links|..];
    assert out == acc.links + added;
  }

  /** The step a link comes from, read off the link itself. */
  function StepOf(l: Link): int {
    if l.evidence == Some(BLUETOOTH) then 1
    else if l.kind == Colocated then 2
    else if l.kind == InferredDirect then 3
    else 4
  }

  /** Steps 1-2: the bridge links, then the GPS links. */
  lemma ColocationStepAt(nodes: seq<NodeEntry>, now: string, k: int)
    requires 0 <= k < |GpsAcc(nodes, now).links|
    ensures StepOf(GpsAcc(nodes, now).links[k]) == (if k < |BridgeAcc(nodes, now).links| then 1 else 2)
    ensures GpsAcc(nodes, now).links[k].kind == Colocated
    ensures GpsAcc(nodes, now).links[k].evidence != Some(ROUTING_VALIDATED)
  {
    var bl := BridgeAcc(nodes, now).links;
    var more := EmitAllSplit(BridgeAcc(nodes, now), GpsCandidates(Evidence.Colocated(nodes), now), true);
    var b := EmitAllSplit(Acc([], {}), BridgeCandidates(WithHops(nodes, -1), WithHops(nodes, 0), now), true);
    var l := GpsAcc(nodes, now).links[k];
    EvidenceNamesDiffer();
    if k < |bl| {
      assert l == bl[k];
      var i, j := BridgeOrigin(WithHops(nodes, -1), WithHops(nodes, 0), now, l);
    } else {
      assert l == more[k - |bl|];
      GpsShape(nodes, now, l);
    }
  }

  /** Which step produced the link at position k, and what that step's links look like. */
  lemma StepAt(nodes: seq<NodeEntry>, paths: Option<seq<RoutingPath>>, now: string, k: int)
    requires MaxHop(nodes) >= 0 && 0 <= k < |InferLinks(nodes, paths, now)|
    ensures var b := |BridgeAcc(nodes, now).links|;
            var g := |GpsAcc(nodes, now).links|;
            var d := g + |DirectLinks(nodes, EvidenceOf(paths), now)|;
            StepOf(InferLinks(nodes, paths, now)[k]) == (if k < b then 1 else if k < g then 2 else if k < d then 3 else 4)
    ensures var g := |GpsAcc(nodes, now).links|;
            var d := g + |DirectLinks(nodes, EvidenceOf(paths), now)|;
            d <= k ==> InferLinks(nodes, paths, now)[k] in HopCandidates(nodes, EvidenceOf(paths), now, MaxHop(nodes))
    ensures var d := |GpsAcc(nodes, now).links| + |DirectLinks(nodes, EvidenceOf(paths), now)|;
            k < d ==> InferLinks(nodes, paths, now)[k].evidence != Some(ROUTING_VALIDATED)
  {
    var ev := EvidenceOf(paths);
    var hops := PassSegments(nodes, paths, now);
    var gl := GpsAcc(nodes, now).links;
    var dl := DirectLinks(nodes, ev, now);
    var l := InferLinks(nodes, paths, now)[k];
    if k < |gl| {
      assert l == gl[k];
      ColocationStepAt(nodes, now, k);
    } else {
      var more := EmitAllSplit(BridgeAcc(nodes, now), GpsCandidates(Evidence.Colocated(nodes), now), true);
    }
    if k < |gl| {
    } else if k < |gl| + |dl| {
      assert l == dl[k - |gl|];
      DirectShape(nodes, ev, now, l);
    } else {
      assert l == hops[k - |gl| - |dl|];
      HopShape(nodes, ev, now, MaxHop(nodes), l);
    }
  }

  /** Hop candidates are `inferred_hop` links named by their validation. */
  lemma HopShape(nodes: seq<NodeEntry>, ev: RoutingIndex, now: string, upTo: int, l: Link)
    requires l in HopCandidates(nodes, ev, now, upTo)
    ensures l.kind == InferredHop
    ensures l.evidence == Some(ROUTING_VALIDATED) || l.evidence == Some(SNR_HEURISTIC) || l.evidence == Some(BEST_GUESS)
    ensures StepOf(l) == 4
  {
    var level, x, c := HopOrigin(nodes, ev, now, upTo, l);
    EvidenceNamesDiffer();
  }

  /** The evidence names are pairwise different strings. */
  lemma EvidenceNamesDiffer()
    ensures BLUETOOTH != ROUTING_VALIDATED && BLUETOOTH != SNR_HEURISTIC && BLUETOOTH != BEST_GUESS
    ensures SAME_GPS != BLUETOOTH && SAME_GPS != ROUTING_VALIDATED && HOP_DISTANCE != ROUTING_VALIDATED && HOP_DISTANCE_WITH_ROUTING != ROUTING_VALIDATED
  {
    assert BLUETOOTH[0] == 'b' && BLUETOOTH[1] == 'l';
    assert ROUTING_VALIDATED[0] == 'r' && SNR_HEURISTIC[0] == 's' && BEST_GUESS[1] == 'e';
    assert SAME_GPS[0] == 's' && HOP_DISTANCE[0] == 'h' && HOP_DISTANCE_WITH_ROUTING[0] == 'h';
  }

  /** Bridge candidates carry the Bluetooth evidence. */
  lemma BridgeOrigin(sources: seq<NodeEntry>, nodes: seq<NodeEntry>, now: string, l: Link) returns (i: int, j: int)
    requires l in BridgeCandidates(sources, nodes, now)
    ensures 0 <= i < |sources| && 0 <= j < |nodes| && l == BridgeLink(sources[i], nodes[j], now)
    ensures l.evidence == Some(BLUETOOTH)
  {
    BridgeSound(sources, nodes, now, l);
    i, j :| 0 <= i < |sources| && 0 <= j < |nodes| && l == BridgeLink(sources[i], nodes[j], now);
  }

  /** GPS candidates are `colocated` links with the same-location evidence. */
  lemma GpsShape(nodes: seq<NodeEntry>, now: string, l: Link)
    requires l in GpsCandidates(Evidence.Colocated(nodes), now)
    ensures l.kind == Colocated && l.evidence == Some(SAME_GPS)
  {
    var g, i, j := GpsOrigin(Evidence.Colocated(nodes), now, l);
  }


  lemma GpsOrigin(groups: seq<Group>, now: string, l: Link) returns (g: Group, i: int, j: int)
    requires l in GpsCandidates(groups, now)
    ensures g in groups && 0 <= i < j < |g.1| && l == GpsLink(g.1[i], g.1[j], now)
  {
    GpsCandidatesSound(groups, now, l);
    g, i, j :| g in groups && 0 <= i < j < |g.1| && l == GpsLink(g.1[i], g.1[j], now);
  }

  /** Direct links are `inferred_direct` with one of the two hop-distance evidence names. */
  lemma DirectShape(nodes: seq<NodeEntry>, ev: RoutingIndex, now: string, l: Link)
    requires l in DirectLinks(nodes, ev, now)
    ensures l.kind == InferredDirect
    ensures l.evidence == Some(HOP_DISTANCE_WITH_ROUTING) || l.evidence == Some(HOP_DISTANCE)
    ensures StepOf(l) == 3 && l.evidence != Some(ROUTING_VALIDATED)
  {
    DirectSound(AtHop(nodes, 0), AtHop(nodes, 1), ev, now, l);
    EvidenceNamesDiffer();
  }

  /** Links appear in step order: bridge, GPS, direct, hop. */
  lemma PassStepOrder(nodes: seq<NodeEntry>, paths: Option<seq<RoutingPath>>, now: string, i: int, j: int)
    requires 0 <= i < j < |InferLinks(nodes, paths, now)|
    ensures StepOf(InferLinks(nodes, paths, now)[i]) <= StepOf(InferLinks(nodes, paths, now)[j])
  {
    StepAt(nodes, paths, now, i);
    StepAt(nodes, paths, now, j);
  }

  // ---------------------------------------------------------------------------
  // What a pass can and must contain
  // ---------------------------------------------------------------------------

  /** With no node at a known, non-negative hop distance (in particular with no
      node at all) the pass yields no links. */
  lemma NoKnownHopNoLinks(nodes: seq<NodeEntry>, paths: Option<seq<RoutingPath>>, now: string)
    requires forall k :: 0 <= k < |nodes| ==> HopsOrMinusOne(nodes[k].info) < 0
    ensures InferLinks(nodes, paths, now) == []
  {
    MaxHopIsMax(nodes);
    if MaxHop(nodes) >= 0 {
      AtHopMember(nodes, MaxHop(nodes), AtHop(nodes, MaxHop(nodes))[0]);
    }
  }

  /** One node alone never gets a link: it cannot pair with itself. */
  lemma SingleNodeNoLinks(e: NodeEntry, paths: Option<seq<RoutingPath>>, now: string)
    ensures InferLinks([e], paths, now) == []
  {
    var nodes := [e];
    if MaxHop(nodes) >= 0 {
      var ev := EvidenceOf(paths);
      var hops := PassSegments(nodes, paths, now);
      SingleNodeNoBridge(e, now);
      SingleNodeNoGps(e, now);
      SingleNodeNoDirect(e, ev, now);
      if hops != [] {
        var level, router, target := HopSound(nodes, ev, now, MaxHop(nodes), hops[0]);
        AtHopSingle(e, level);
        AtHopSingle(e, level + 1);
        assert false;
      }
    }
  }

  lemma SingleNodeNoBridge(e: NodeEntry, now: string)
    ensures BridgeAcc([e], now).links == []
  {
    assert [e][..0] == [];
    if e.info.hopsAway == Some(0) {
      assert WithHops([e], -1) == [];
    } else {
      assert WithHops([e], 0) == [];
      BridgeCandidatesNoNodes(WithHops([e], -1), now);
    }
  }

  lemma SingleNodeNoGps(e: NodeEntry, now: string)
    ensures GpsAcc([e], now).links == []
  {
    SingleNodeNoBridge(e, now);
    SingleNodeNotColocated(e);
  }

  /** One node forms no co-located group: groups have at least two members. */
  lemma SingleNodeNotColocated(e: NodeEntry)
    ensures Evidence.Colocated([e]) == []
  {
    var groups := Evidence.Colocated([e]);
    if groups != [] {
      assert [e][..0] == [];
      GroupsOfSound(FirstKeys([e]), [e], groups[0]);
    }
  }

  lemma AtHopSingle(e: NodeEntry, h: int)
    ensures AtHop([e], h) == if HopsOrMinusOne(e.info) == h then [HopNodeOf(e)] else []
  {
    assert [e][..0] == [];
  }

  lemma SingleNodeNoDirect(e: NodeEntry, ev: RoutingIndex, now: string)
    ensures DirectLinks([e], ev, now) == []
  {
    AtHopSingle(e, 0);
    AtHopSingle(e, 1);
  }

  /** Every hop-0 x hop-1 pair has its direct link in the output, whatever its
      SNR and whether or not it was already joined by an earlier step. */
  lemma DirectPairsEmitted(nodes: seq<NodeEntry>, paths: Option<seq<RoutingPath>>, now: string, zero: NodeEntry, one: NodeEntry)
    requires zero in nodes && one in nodes
    requires zero.info.hopsAway == Some(0) && one.info.hopsAway == Some(1)
    ensures DirectLink(HopNodeOf(zero), HopNodeOf(one), EvidenceOf(paths), now) in InferLinks(nodes, paths, now)
  {
    var ev := EvidenceOf(paths);
    var i := AtHopIndex(nodes, 0, zero);
    var j := AtHopIndex(nodes, 1, one);
    MaxHopBounds(nodes, 0);
    DirectPairListed(AtHop(nodes, 0), AtHop(nodes, 1), ev, now, i, j);
    var hops := PassSegments(nodes, paths, now);
  }

  /** Step 4 reaches every target: for a level 1 <= N < max hop, a target x at
      hop N+1 and a router choice `[:2]` keeps for it, the ordered pair
      (router, x) is joined in the output, either by a link from the router to x
      (the hop link itself, a direct link or an earlier hop link) or by a GPS or
      bridge link whose sorted key is that pair. */
  lemma HopLinksEmitted(nodes: seq<NodeEntry>, paths: Option<seq<RoutingPath>>, now: string,
                        level: int, x: HopNode, c: Choice) returns (l: Link)
    requires 1 <= level < MaxHop(nodes) && x in AtHop(nodes, level + 1)
    requires c in Top2(RouterChoices(AtHop(nodes, level), x, EvidenceOf(paths)))
    ensures l in InferLinks(nodes, paths, now)
    ensures (l.from, l.to) == (c.router.id, x.id) || SortedPair(l.from, l.to) == (c.router.id, x.id)
  {
    var ev := EvidenceOf(paths);
    var d := DirectAcc(nodes, ev, now);
    var cands := HopCandidates(nodes, ev, now, MaxHop(nodes));
    HopCandidatesHas(nodes, ev, now, MaxHop(nodes), level, x, c);
    EmitAllCovers(d, cands, false);
    DirectAccShape(nodes, ev, now);
    var hops := EmitAllSplit(d, cands, false);
    var k := (c.router.id, x.id);
    assert DedupKey(HopLink(c, x, level, now), false) == k;
    var gps := GpsAcc(nodes, now).links;
    var direct := DirectLinks(nodes, ev, now);
    assert InferLinks(nodes, paths, now) == gps + direct + hops;
    if k in KeySet(gps, true) {
      l :| l in gps && DedupKey(l, true) == k;
    } else if k in KeySet(direct, false) {
      l :| l in direct && DedupKey(l, false) == k;
    } else {
      assert k in KeySet(hops, false);
      l :| l in hops && DedupKey(l, false) == k;
    }
  }

  /** When a router at hop N has routing evidence toward x, step 4 joins x to a
      routing-validated choice: the first one kept, the best-SNR evidenced router,
      counted by its records. */
  lemma ValidatedHopJoined(nodes: seq<NodeEntry>, paths: Option<seq<RoutingPath>>, now: string, level: int, x: HopNode)
    returns (c: Choice, l: Link)
    requires 1 <= level < MaxHop(nodes) && x in AtHop(nodes, level + 1)
    requires exists r :: r in AtHop(nodes, level) && Observed(paths.GetOr([]), r.id, x.id) != []
    ensures c in Top2(RouterChoices(AtHop(nodes, level), x, EvidenceOf(paths)))
    ensures c.validation == RoutingValidated && c.count == |Observed(paths.GetOr([]), c.router.id, x.id)| > 0
    ensures c.router in AtHop(nodes, level)
    ensures forall r | r in AtHop(nodes, level) && Observed(paths.GetOr([]), r.id, x.id) != [] :: r.snr <= c.router.snr
    ensures l in InferLinks(nodes, paths, now)
    ensures (l.from, l.to) == (c.router.id, x.id) || SortedPair(l.from, l.to) == (c.router.id, x.id)
  {
    var cur := AtHop(nodes, level);
    var cs := RouterChoices(cur, x, EvidenceOf(paths));
    RoutedHead(cur, x, paths.GetOr([]));
    c := cs[0];
    assert Top2(cs)[0] == c;
    l := HopLinksEmitted(nodes, paths, now, level, x, c);
  }

  /** Where a node sits among the nodes at its hop distance. */
  lemma AtHopIndex(nodes: seq<NodeEntry>, h: int, e: NodeEntry) returns (i: int)
    requires e in nodes && HopsOrMinusOne(e.info) == h
    ensures 0 <= i < |AtHop(nodes, h)| && AtHop(nodes, h)[i] == HopNodeOf(e)
  {
    var k :| 0 <= k < |nodes| && nodes[k] == e;
    AtHopMember(nodes, h, HopNodeOf(e));
    i :| 0 <= i < |AtHop(nodes, h)| && AtHop(nodes, h)[i] == HopNodeOf(e);
  }

  /** A link marked routing-validated has high confidence and positive evidence count. */
  lemma PassValidated(nodes: seq<NodeEntry>, paths: Option<seq<RoutingPath>>, now: string, k: int)
    requires 0 <= k < |InferLinks(nodes, paths, now)|
    requires InferLinks(nodes, paths, now)[k].evidence == Some(ROUTING_VALIDATED)
    ensures InferLinks(nodes, paths, now)[k].confidence == High
    ensures InferLinks(nodes, paths, now)[k].evidenceCount.Some? && InferLinks(nodes, paths, now)[k].evidenceCount.value > 0
  {
    StepAt(nodes, paths, now, k);
    HopValidated(nodes, EvidenceOf(paths), now, MaxHop(nodes), InferLinks(nodes, paths, now)[k]);
  }

  lemma HopValidated(nodes: seq<NodeEntry>, ev: RoutingIndex, now: string, upTo: int, l: Link)
    requires l in HopCandidates(nodes, ev, now, upTo) && l.evidence == Some(ROUTING_VALIDATED)
    ensures l.confidence == High && l.evidenceCount.Some? && l.evidenceCount.value > 0
  {
    var level, x, c := HopOrigin(nodes, ev, now, upTo, l);
    ValidatedCounted(AtHop(nodes, level), x, ev, c);
  }

  /** Only the evidence-backed router choices are marked routing-validated. */
  lemma ValidatedCounted(current: seq<HopNode>, x: HopNode, ev: RoutingIndex, c: Choice)
    requires c in RouterChoices(current, x, ev) && c.validation == RoutingValidated
    ensures c.count > 0
  {
    if ValidatedChoices(SortBySnrDesc(current), x, ev) != [] {
      ValidatedSound(SortBySnrDesc(current), x, ev, c);
    }
  }

  // ---------------------------------------------------------------------------
  // Hop links into one node
  // ---------------------------------------------------------------------------

  /** The senders of the `inferred_hop` links into node `id`, one entry per link, in order. */
  function HopSourcesInto(ls: seq<Link>, id: NodeId): seq<NodeId> {
    if ls == [] then []
    else
      var l := ls[|ls| - 1];
      HopSourcesInto(ls[..|ls| - 1], id) + (if l.kind == InferredHop && l.to == id then [l.from] else [])
  }

  lemma {:induction false} HopSourcesSound(ls: seq<Link>, id: NodeId, x: NodeId) returns (k: int)
    requires x in HopSourcesInto(ls, id)
    ensures 0 <= k < |ls| && ls[k].kind == InferredHop && ls[k].to == id && ls[k].from == x
    ensures (x, id) in KeySet(ls, false)
  {
    var init := ls[..|ls| - 1];
    if x in HopSourcesInto(init, id) {
      k := HopSourcesSound(init, id, x);
      assert init[k] == ls[k];
    } else {
      k := |ls| - 1;
    }
    assert DedupKey(ls[k], false) in KeySet(ls, false);
  }

  lemma {:induction false} HopSourcesNone(xs: seq<Link>, id: NodeId)
    requires forall l | l in xs :: l.kind != InferredHop
    ensures HopSourcesInto(xs, id) == []
  {
    if xs != [] {
      assert xs[|xs| - 1] in xs;
      HopSourcesNone(xs[..|xs| - 1], id);
    }
  }

  /** Links that are not hop links contribute no sender. */
  lemma {:induction false} HopSourcesSkip(xs: seq<Link>, ys: seq<Link>, id: NodeId)
    requires forall l | l in xs :: l.kind != InferredHop
    ensures HopSourcesInto(xs + ys, id) == HopSourcesInto(ys, id)
  {
    if ys == [] {
      assert xs + ys == xs;
      HopSourcesNone(xs, id);
    } else {
      var init := ys[..|ys| - 1];
      assert (xs + ys)[..|xs + ys| - 1] == xs + init;
      HopSourcesSkip(xs, init, id);
    }
  }

  /** Hop links with pairwise different ordered keys have pairwise different senders into one node. */
  lemma {:induction false} HopSourcesDistinct(ls: seq<Link>, id: NodeId, seen: set<Pair>)
    requires FreshKeys(ls, seen, false)
    ensures Distinct(HopSourcesInto(ls, id))
  {
    if ls != [] {
      var init := ls[..|ls| - 1];
      var l := ls[|ls| - 1];
      FreshKeysInit(ls, seen, false);
      HopSourcesDistinct(init, id, seen);
      if l.kind == InferredHop && l.to == id && l.from in HopSourcesInto(init, id) {
        var k := HopSourcesSound(init, id, l.from);
      }
    }
  }

  /** Every node receives at most two `inferred_hop` links, each from one of
      the routers chosen for it, and no two from the same router. */
  lemma PassHopSources(nodes: seq<NodeEntry>, paths: Option<seq<RoutingPath>>, now: string, e: NodeEntry)
    requires DistinctIds(nodes) && e in nodes
    ensures Distinct(HopSourcesInto(InferLinks(nodes, paths, now), e.id))
    ensures forall x | x in HopSourcesInto(InferLinks(nodes, paths, now), e.id) :: x in RoutersInto(nodes, EvidenceOf(paths), e)
    ensures |HopSourcesInto(InferLinks(nodes, paths, now), e.id)| <= 2
  {
    if MaxHop(nodes) >= 0 {
      var ev := EvidenceOf(paths);
      var hops := HopSegment(nodes, paths, now, e.id);
      var srcs := HopSourcesInto(hops, e.id);
      forall x | x in srcs ensures x in RoutersInto(nodes, ev, e) {
        var k := HopSourcesSound(hops, e.id, x);
        HopInto(nodes, ev, now, MaxHop(nodes), e, hops[k]);
      }
      RoutersIntoAtMostTwo(nodes, ev, e);
      DistinctBound(srcs, RoutersInto(nodes, ev, e));
    }
  }

  /** The hop links of a pass are its step-4 segment. */
  lemma HopSegment(nodes: seq<NodeEntry>, paths: Option<seq<RoutingPath>>, now: string, id: NodeId) returns (hops: seq<Link>)
    requires MaxHop(nodes) >= 0
    ensures HopSourcesInto(InferLinks(nodes, paths, now), id) == HopSourcesInto(hops, id)
    ensures Distinct(HopSourcesInto(hops, id))
    ensures forall l | l in hops :: l in HopCandidates(nodes, EvidenceOf(paths), now, MaxHop(nodes))
  {
    var ev := EvidenceOf(paths);
    hops := PassSegments(nodes, paths, now);
    var gl := GpsAcc(nodes, now).links;
    var dl := DirectLinks(nodes, ev, now);
    forall l: Link | l in gl + dl ensures l.kind != InferredHop {
      NotHopBeforeStep4(nodes, ev, now, l);
    }
    HopSourcesSkip(gl + dl, hops, id);
    HopSourcesDistinct(hops, id, KeySet(gl, true) + KeySet(dl, false));
  }

  /** Steps 1 to 3 produce no hop link. */
  lemma NotHopBeforeStep4(nodes: seq<NodeEntry>, ev: RoutingIndex, now: string, l: Link)
    requires l in GpsAcc(nodes, now).links + DirectLinks(nodes, ev, now)
    ensures l.kind != InferredHop
  {
    var gl := GpsAcc(nodes, now).links;
    if l in gl {
      var k :| 0 <= k < |gl| && gl[k] == l;
      ColocationStepAt(nodes, now, k);
    } else {
      DirectShape(nodes, ev, now, l);
    }
  }

  // ---------------------------------------------------------------------------
  // How far deduplication reaches
  // ---------------------------------------------------------------------------

  /** No two links of steps 1-2 share an unordered pair, and no two hop links
      share an ordered pair. */
  lemma PassDedup(nodes: seq<NodeEntry>, paths: Option<seq<RoutingPath>>, now: string) returns (hops: seq<Link>)
    requires MaxHop(nodes) >= 0
    ensures InferLinks(nodes, paths, now) == GpsAcc(nodes, now).links + DirectLinks(nodes, EvidenceOf(paths), now) + hops
    ensures forall i, j :: 0 <= i < j < |GpsAcc(nodes, now).links| ==>
              SortedPair(GpsAcc(nodes, now).links[i].from, GpsAcc(nodes, now).links[i].to)
              != SortedPair(GpsAcc(nodes, now).links[j].from, GpsAcc(nodes, now).links[j].to)
    ensures forall i, j :: 0 <= i < j < |hops| ==> (hops[i].from, hops[i].to) != (hops[j].from, hops[j].to)
    ensures forall i, j :: 0 <= i < |hops| && 0 <= j < |DirectLinks(nodes, EvidenceOf(paths), now)| ==>
              (hops[i].from, hops[i].to) != (DirectLinks(nodes, EvidenceOf(paths), now)[j].from, DirectLinks(nodes, EvidenceOf(paths), now)[j].to)
  {
    hops := PassSegments(nodes, paths, now);
    ColocationAccFacts(nodes, now);
    var dl := DirectLinks(nodes, EvidenceOf(paths), now);
    forall i, j | 0 <= i < |hops| && 0 <= j < |dl|
      ensures (hops[i].from, hops[i].to) != (dl[j].from, dl[j].to)
    {
      assert DedupKey(dl[j], false) in KeySet(dl, false);
    }
  }

  // ---------------------------------------------------------------------------
  // Duplicated pairs, and a deduplication by unordered pair throughout
  // ---------------------------------------------------------------------------

  /** As written, a hop-0 node and a hop-1 node at the same rounded position are
      joined twice: once by step 2 and once more by step 3, whose ordered key is
      neither checked nor compared with the sorted key step 2 recorded. */
  lemma ColocatedDirectPairTwice(nodes: seq<NodeEntry>, paths: Option<seq<RoutingPath>>, now: string, a: NodeEntry, b: NodeEntry)
    returns (i: int, j: int)
    requires DistinctIds(nodes) && a in nodes && b in nodes
    requires a.info.hopsAway == Some(0) && b.info.hopsAway == Some(1)
    requires Located(a) && Located(b) && KeyOf(a) == KeyOf(b)
    ensures 0 <= i < j < |InferLinks(nodes, paths, now)|
    ensures SortedPair(InferLinks(nodes, paths, now)[i].from, InferLinks(nodes, paths, now)[i].to) == SortedPair(a.id, b.id)
    ensures SortedPair(InferLinks(nodes, paths, now)[j].from, InferLinks(nodes, paths, now)[j].to) == SortedPair(a.id, b.id)
  {
    var ev := EvidenceOf(paths);
    var gl := GpsAcc(nodes, now).links;
    ColocatedPairsJoined(nodes, now, a, b);
    var l :| l in gl && SortedPair(l.from, l.to) == SortedPair(a.id, b.id);
    i :| 0 <= i < |gl| && gl[i] == l;
    var z := AtHopIndex(nodes, 0, a);
    var o := AtHopIndex(nodes, 1, b);
    MaxHopBounds(nodes, 0);
    DirectPairListed(AtHop(nodes, 0), AtHop(nodes, 1), ev, now, z, o);
    var dl := DirectLinks(nodes, ev, now);
    var d :| 0 <= d < |dl| && dl[d] == DirectLink(HopNodeOf(a), HopNodeOf(b), ev, now);
    j := OutputPositions(nodes, paths, now, i, d);
  }

  /** Position i of steps 1-2 and position d of step 3 in the output. */
  lemma OutputPositions(nodes: seq<NodeEntry>, paths: Option<seq<RoutingPath>>, now: string, i: int, d: int) returns (j: int)
    requires MaxHop(nodes) >= 0
    requires 0 <= i < |GpsAcc(nodes, now).links| && 0 <= d < |DirectLinks(nodes, EvidenceOf(paths), now)|
    ensures j == |GpsAcc(nodes, now).links| + d && i < j < |InferLinks(nodes, paths, now)|
    ensures InferLinks(nodes, paths, now)[i] == GpsAcc(nodes, now).links[i]
    ensures InferLinks(nodes, paths, now)[j] == DirectLinks(nodes, EvidenceOf(paths), now)[d]
  {
    var hops := PassSegments(nodes, paths, now);
    var gl := GpsAcc(nodes, now).links;
    var dl := DirectLinks(nodes, EvidenceOf(paths), now);
    j := |gl| + d;
    ConcatIndex(gl, dl, hops, i, d);
  }

  lemma ConcatIndex(a: seq<Link>, b: seq<Link>, c: seq<Link>, i: int, d: int)
    requires 0 <= i < |a| && 0 <= d < |b|
    ensures |a| + d < |a + b + c| && (a + b + c)[i] == a[i] && (a + b + c)[|a| + d] == b[d]
  {
  }

  /** Two nodes at one position, `a` at hop 0 and `b` at hop 1. */
  function PairExample(): seq<NodeEntry> {
    var here := Some(Position(Some(450000000), Some(-1220000000)));
    [NodeEntry("!a", NodeRecord(Some(0), None, None, here)), NodeEntry("!b", NodeRecord(Some(1), None, None, here))]
  }

  /** On `PairExample` the pair (!a, !b) appears twice in the output. */
  lemma PairExampleTwice(paths: Option<seq<RoutingPath>>, now: string) returns (i: int, j: int)
    ensures 0 <= i < j < |InferLinks(PairExample(), paths, now)|
    ensures SortedPair(InferLinks(PairExample(), paths, now)[i].from, InferLinks(PairExample(), paths, now)[i].to)
            == SortedPair(InferLinks(PairExample(), paths, now)[j].from, InferLinks(PairExample(), paths, now)[j].to)
  {
    var nodes := PairExample();
    assert nodes[0].id[1] != nodes[1].id[1];
    i, j := ColocatedDirectPairTwice(nodes, paths, now, nodes[0], nodes[1]);
  }

  /** Steps 3 and 4 with the sorted-key check of steps 1 and 2. */
  function DirectAccFixed(nodes: seq<NodeEntry>, ev: RoutingIndex, now: string): Acc {
    EmitAll(GpsAcc(nodes, now), DirectLinks(nodes, ev, now), true)
  }

  function HopAccFixed(nodes: seq<NodeEntry>, ev: RoutingIndex, now: string): Acc {
    EmitAll(DirectAccFixed(nodes, ev, now), HopCandidates(nodes, ev, now, MaxHop(nodes)), true)
  }

  /** The pass with every step checking and recording unordered pairs. */
  function InferLinksFixed(nodes: seq<NodeEntry>, paths: Option<seq<RoutingPath>>, now: string): seq<Link> {
    if MaxHop(nodes) < 0 then []
    else HopAccFixed(nodes, EvidenceOf(paths), now).links
  }

  /** A sorted-key checked step keeps the list free of repeated unordered pairs
      and the set equal to the list's unordered pairs. */
  lemma EmitSortedFresh(acc: Acc, cands: seq<Link>)
    requires FreshKeys(acc.links, {}, true) && acc.seen == KeySet(acc.links, true)
    ensures FreshKeys(EmitAll(acc, cands, true).links, {}, true)
    ensures EmitAll(acc, cands, true).seen == KeySet(EmitAll(acc, cands, true).links, true)
    ensures acc.seen <= EmitAll(acc, cands, true).seen
    ensures forall c | c in cands :: DedupKey(c, true) in EmitAll(acc, cands, true).seen
  {
    var added := EmitAllSplit(acc, cands, true);
    assert {} + KeySet(acc.links, true) == acc.seen;
    FreshKeysConcat(acc.links, added, {}, true);
    KeySetConcat(acc.links, added, true);
    EmitAllCovers(acc, cands, true);
  }

  /** The corrected pass never holds two links of the same unordered pair,
      and still joins every pair step 3 considers. */
  lemma FixedNoDuplicatePair(nodes: seq<NodeEntry>, paths: Option<seq<RoutingPath>>, now: string)
    ensures forall i, j :: 0 <= i < j < |InferLinksFixed(nodes, paths, now)| ==>
              SortedPair(InferLinksFixed(nodes, paths, now)[i].from, InferLinksFixed(nodes, paths, now)[i].to)
              != SortedPair(InferLinksFixed(nodes, paths, now)[j].from, InferLinksFixed(nodes, paths, now)[j].to)
  {
    if MaxHop(nodes) >= 0 {
      var ev := EvidenceOf(paths);
      FixedAccFacts(nodes, ev, now);
    }
  }

  lemma FixedAccFacts(nodes: seq<NodeEntry>, ev: RoutingIndex, now: string)
    ensures FreshKeys(HopAccFixed(nodes, ev, now).links, {}, true)
    ensures HopAccFixed(nodes, ev, now).seen == KeySet(HopAccFixed(nodes, ev, now).links, true)
    ensures forall c | c in DirectLinks(nodes, ev, now) :: DedupKey(c, true) in HopAccFixed(nodes, ev, now).seen
  {
    ColocationAccFacts(nodes, now);
    EmitSortedFresh(GpsAcc(nodes, now), DirectLinks(nodes, ev, now));
    EmitSortedFresh(DirectAccFixed(nodes, ev, now), HopCandidates(nodes, ev, now, MaxHop(nodes)));
  }

  /** In the corrected pass every hop-0 x hop-1 pair is still joined, in one direction or the other. */
  lemma FixedJoinsDirectPairs(nodes: seq<NodeEntry>, paths: Option<seq<RoutingPath>>, now: string, zero: NodeEntry, one: NodeEntry)
    returns (l: Link)
    requires zero in nodes && one in nodes
    requires zero.info.hopsAway == Some(0) && one.info.hopsAway == Some(1)
    ensures l in InferLinksFixed(nodes, paths, now) && SortedPair(l.from, l.to) == SortedPair(zero.id, one.id)
  {
    var ev := EvidenceOf(paths);
    var i := AtHopIndex(nodes, 0, zero);
    var j := AtHopIndex(nodes, 1, one);
    MaxHopBounds(nodes, 0);
    DirectPairListed(AtHop(nodes, 0), AtHop(nodes, 1), ev, now, i, j);
    FixedAccFacts(nodes, ev, now);
    var c := DirectLink(HopNodeOf(zero), HopNodeOf(one), ev, now);
    assert DedupKey(c, true) in KeySet(HopAccFixed(nodes, ev, now).links, true);
    l :| l in HopAccFixed(nodes, ev, now).links && DedupKey(l, true) == DedupKey(c, true);
  }
}
