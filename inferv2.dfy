/** The hop-by-hop inferencer of infer_connections_v2.py, which the collector
    (meshnetmap/collector/collect.py) runs as well.  It builds `nodes_by_hop`,
    links every hop-0 node to every hop-1 node, and links each node at hop N+1
    to at most three routers at hop N, chosen by SNR.  Nothing is deduplicated. */
module InferV2 {
  import opened Common
  import opened Records
  import opened HopTable
  import Inference
  import InferenceProps

  /** A router whose SNR is above this is a "good" router. */
  const GOOD_SNR: real := -15.0
  /** `good_routers[:3]` */
  const MAX_ROUTERS: nat := 3
  const VIA: string := "hop_inference_via_"

  // ---------------------------------------------------------------------------
  // Direct links (hop 0 -> hop 1)
  // ---------------------------------------------------------------------------

  function DirectLink(zero: HopNode, one: HopNode, now: string): Link {
    Link(zero.id, one.id, one.snr, InferredDirect, High, Some(1), Some(Inference.HOP_DISTANCE), None, None, None, now)
  }

  function DirectRow(zero: HopNode, ones: seq<HopNode>, now: string): seq<Link> {
    seq(|ones|, j requires 0 <= j < |ones| => DirectLink(zero, ones[j], now))
  }

  /** Every (hop-0, hop-1) pair, hop-0 nodes outermost. */
  function DirectCandidates(zeros: seq<HopNode>, ones: seq<HopNode>, now: string): seq<Link> {
    if zeros == [] then []
    else DirectCandidates(zeros[..|zeros| - 1], ones, now) + DirectRow(zeros[|zeros| - 1], ones, now)
  }

  /** One direct link per (hop-0, hop-1) pair. */
  lemma {:induction false} DirectCandidatesCount(zeros: seq<HopNode>, ones: seq<HopNode>, now: string)
    ensures |DirectCandidates(zeros, ones, now)| == |zeros| * |ones|
  {
    if zeros != [] {
      DirectCandidatesCount(zeros[..|zeros| - 1], ones, now);
      assert |DirectCandidates(zeros, ones, now)| == (|zeros| - 1) * |ones| + |ones|;
    }
  }

  /** Every direct link joins a hop-0 node to a hop-1 node. */
  lemma {:induction false} DirectOrigin(zeros: seq<HopNode>, ones: seq<HopNode>, now: string, l: Link)
    returns (z: HopNode, o: HopNode)
    requires l in DirectCandidates(zeros, ones, now)
    ensures z in zeros && o in ones && l == DirectLink(z, o, now)
  {
    var init := zeros[..|zeros| - 1];
    if l in DirectCandidates(init, ones, now) {
      z, o := DirectOrigin(init, ones, now, l);
      assert z in zeros;
    } else {
      var j :| 0 <= j < |ones| && DirectRow(zeros[|zeros| - 1], ones, now)[j] == l;
      z, o := zeros[|zeros| - 1], ones[j];
    }
  }

  /** Every (hop-0, hop-1) pair has its direct link. */
  lemma {:induction false} DirectHas(zeros: seq<HopNode>, ones: seq<HopNode>, now: string, z: HopNode, o: HopNode)
    requires z in zeros && o in ones
    ensures DirectLink(z, o, now) in DirectCandidates(zeros, ones, now)
  {
    var init := zeros[..|zeros| - 1];
    if z == zeros[|zeros| - 1] {
      var j :| 0 <= j < |ones| && ones[j] == o;
      assert DirectRow(z, ones, now)[j] == DirectLink(z, o, now);
    } else {
      assert zeros == init + [zeros[|zeros| - 1]];
      DirectHas(init, ones, now, z, o);
    }
  }

  // ---------------------------------------------------------------------------
  // Router choice
  // ---------------------------------------------------------------------------

  /** The routers whose SNR is above -15, in order. */
  function GoodRouters(routers: seq<HopNode>): seq<HopNode> {
    if routers == [] then []
    else
      var r := routers[|routers| - 1];
      GoodRouters(routers[..|routers| - 1]) + (if r.snr > GOOD_SNR then [r] else [])
  }

  /** The first three routers, or all of them when there are fewer. */
  function Take(s: seq<HopNode>): (r: seq<HopNode>)
    ensures |r| == if |s| <= MAX_ROUTERS then |s| else MAX_ROUTERS
    ensures r == s[..|r|]
  {
    if |s| <= MAX_ROUTERS then s else s[..MAX_ROUTERS]
  }

  /** The routers a hop-(N+1) node is linked to: the good ones, or failing any
      the first three, of the SNR-descending order, cut to three. */
  function Routers(current: seq<HopNode>): seq<HopNode> {
    var potential := SortBySnrDesc(current);
    var good := GoodRouters(potential);
    Take(if good != [] then good else Take(potential))
  }

  lemma {:induction false} GoodRoutersMember(s: seq<HopNode>, x: HopNode)
    ensures x in GoodRouters(s) <==> x in s && x.snr > GOOD_SNR
  {
    if s != [] {
      var init := s[..|s| - 1];
      GoodRoutersMember(init, x);
      assert s == init + [s[|s| - 1]];
    }
  }

  /** Filtering keeps the SNR-descending order. */
  lemma {:induction false} GoodRoutersSorted(s: seq<HopNode>)
    requires SortedDesc(s)
    ensures SortedDesc(GoodRouters(s))
  {
    if s != [] {
      var init := s[..|s| - 1];
      var r := s[|s| - 1];
      assert SortedDesc(init) by {
        forall i, j | 0 <= i < j < |init| ensures init[i].snr >= init[j].snr {
          assert init[i] == s[i] && init[j] == s[j];
        }
      }
      GoodRoutersSorted(init);
      var g := GoodRouters(init);
      forall i | 0 <= i < |g| ensures g[i].snr >= r.snr {
        GoodRoutersMember(init, g[i]);
        var k :| 0 <= k < |init| && init[k] == g[i];
        assert init[k] == s[k];
      }
    }
  }

  /** In an SNR-descending sequence, nothing outside the first k beats anything inside. */
  lemma TopOfSorted(s: seq<HopNode>, k: nat, r: HopNode, n: HopNode)
    requires SortedDesc(s) && k <= |s|
    requires r in s[..k] && n in s && n.snr > r.snr
    ensures n in s[..k]
  {
    var i :| 0 <= i < k && s[..k][i] == r;
    var j :| 0 <= j < |s| && s[j] == n;
    if j >= k {
      assert false;
    }
    assert s[..k][j] == n;
  }

  /** The router choice: at most three routers, at least one when hop N holds a
      node, all taken from hop N; all of them good when some router is good;
      and no router of hop N with a strictly better SNR than a chosen one is
      passed over. */
  lemma RoutersSpec(current: seq<HopNode>)
    ensures |Routers(current)| <= MAX_ROUTERS
    ensures current != [] ==> Routers(current) != []
    ensures forall r | r in Routers(current) :: r in current
    ensures (exists n :: n in current && n.snr > GOOD_SNR) ==> forall r | r in Routers(current) :: r.snr > GOOD_SNR
    ensures forall r, n | r in Routers(current) && n in current && n.snr > r.snr :: n in Routers(current)
  {
    var potential := SortBySnrDesc(current);
    var good := GoodRouters(potential);
    SortBySnrDescSorted(current);
    GoodRoutersSorted(potential);
    forall x ensures x in potential <==> x in current {
      SortedMembers(current, x);
    }
    forall x ensures x in good <==> x in potential && x.snr > GOOD_SNR {
      GoodRoutersMember(potential, x);
    }
    var rs := Routers(current);
    if good != [] {
      assert rs == good[..|rs|];
      forall r, n | r in rs && n in current && n.snr > r.snr ensures n in rs {
        TopOfSorted(good, |rs|, r, n);
      }
    } else {
      assert rs == potential[..|rs|];
      forall r, n | r in rs && n in current && n.snr > r.snr ensures n in rs {
        TopOfSorted(potential, |rs|, r, n);
      }
      if current != [] {
        assert potential[0] in potential;
      }
    }
  }

  /** Filtering drops elements and adds none. */
  lemma {:induction false} GoodRoutersSub(s: seq<HopNode>)
    ensures multiset(GoodRouters(s)) <= multiset(s)
  {
    if s != [] {
      var init := s[..|s| - 1];
      GoodRoutersSub(init);
      assert s == init + [s[|s| - 1]];
    }
  }

  /** A prefix of an SNR-descending sequence is SNR-descending and a sub-multiset of it. */
  lemma PrefixOfSorted(s: seq<HopNode>, k: nat)
    requires SortedDesc(s) && k <= |s|
    ensures SortedDesc(s[..k]) && multiset(s[..k]) <= multiset(s)
  {
    assert s == s[..k] + s[k..];
  }

  /** The exact router count: min(3, #good routers) when some router of hop N has
      SNR above -15, else min(3, |hop N|); the chosen routers come in descending
      SNR order and are drawn from hop N without repetition beyond its own. */
  lemma RoutersExact(current: seq<HopNode>)
    ensures var good := GoodRouters(SortBySnrDesc(current));
            |Routers(current)| == if exists n :: n in current && n.snr > GOOD_SNR
                                   then (if |good| <= MAX_ROUTERS then |good| else MAX_ROUTERS)
                                   else (if |current| <= MAX_ROUTERS then |current| else MAX_ROUTERS)
    ensures SortedDesc(Routers(current))
    ensures multiset(Routers(current)) <= multiset(current)
  {
    var potential := SortBySnrDesc(current);
    var good := GoodRouters(potential);
    SortBySnrDescSorted(current);
    GoodRoutersSorted(potential);
    GoodRoutersSub(potential);
    var rs := Routers(current);
    if good != [] {
      assert good[0] in good;
      GoodRoutersMember(potential, good[0]);
      SortedMembers(current, good[0]);
      assert rs == good[..|rs|];
      PrefixOfSorted(good, |rs|);
    } else {
      forall n | n in current ensures n.snr <= GOOD_SNR {
        SortedMembers(current, n);
        GoodRoutersMember(potential, n);
      }
      assert rs == potential[..|rs|];
      PrefixOfSorted(potential, |rs|);
    }
  }

  // ---------------------------------------------------------------------------
  // Chained links (hop N -> hop N+1)
  // ---------------------------------------------------------------------------

  /** `'high' if snr > 0 else 'medium' if snr > -15 else 'low'` */
  function HopConfidence(snr: real): Confidence {
    if snr > 0.0 then High else if snr > GOOD_SNR then Medium else Low
  }

  function HopLink(router: HopNode, x: HopNode, level: int, now: string): Link {
    Link(router.id, x.id, x.snr, InferredHop, HopConfidence(router.snr), Some(1),
         Some(VIA + Prefix8(router.id)), None, Some(level + 1), Some(router.snr), now)
  }

  /** The links into one node x at hop level+1. */
  function TargetLinks(current: seq<HopNode>, x: HopNode, level: int, now: string): seq<Link> {
    var rs := Routers(current);
    seq(|rs|, k requires 0 <= k < |rs| => HopLink(rs[k], x, level, now))
  }

  function LevelLinksOf(current: seq<HopNode>, nexts: seq<HopNode>, level: int, now: string): seq<Link> {
    if nexts == [] then []
    else LevelLinksOf(current, nexts[..|nexts| - 1], level, now) + TargetLinks(current, nexts[|nexts| - 1], level, now)
  }

  /** One level's links, when that level and the next both hold nodes. */
  function LevelLinks(nodes: seq<NodeEntry>, now: string, level: int): seq<Link> {
    if AtHop(nodes, level) != [] && AtHop(nodes, level + 1) != []
    then LevelLinksOf(AtHop(nodes, level), AtHop(nodes, level + 1), level, now)
    else []
  }

  /** The concatenation f(1) + ... + f(upTo-1). */
  function Levels(f: int -> seq<Link>, upTo: int): seq<Link>
    decreases upTo
  {
    if upTo <= 1 then [] else Levels(f, upTo - 1) + f(upTo - 1)
  }

  /** The links of levels 1 .. upTo-1 (`range(1, max_hop)` for upTo = max_hop). */
  function HopLinks(nodes: seq<NodeEntry>, now: string, upTo: int): seq<Link> {
    Levels(k => LevelLinks(nodes, now, k), upTo)
  }

  function DirectLinks(nodes: seq<NodeEntry>, now: string): seq<Link> {
    if AtHop(nodes, 0) != [] && AtHop(nodes, 1) != [] then DirectCandidates(AtHop(nodes, 0), AtHop(nodes, 1), now)
    else []
  }

  /** The links of one run; empty when no node has a known hop distance. */
  function V2Links(nodes: seq<NodeEntry>, now: string): seq<Link> {
    if MaxHop(nodes) < 0 then [] else DirectLinks(nodes, now) + HopLinks(nodes, now, MaxHop(nodes))
  }

  /** `topology_data['nodes']` raises KeyError when the key is missing. */
  function V2Result(topology: Snapshot, now: string): Result<seq<Link>, Inference.InferError> {
    if topology.nodes.None? then Failure(Inference.MissingNodes)
    else Success(V2Links(topology.nodes.value, now))
  }

  /** The links into x: one per chosen router, pointing at x, carrying the
      router's SNR, a confidence by that SNR, the total hop count level+1 and
      the router's id prefix as evidence, in the order of the chosen routers
      (so their number is the one `RoutersExact` gives).  There are one to
      three of them when hop N holds a node. */
  lemma TargetLinksSpec(current: seq<HopNode>, x: HopNode, level: int, now: string)
    ensures |TargetLinks(current, x, level, now)| == |Routers(current)|
    ensures forall k :: 0 <= k < |Routers(current)| ==> TargetLinks(current, x, level, now)[k].from == Routers(current)[k].id
    ensures |TargetLinks(current, x, level, now)| <= MAX_ROUTERS
    ensures current != [] ==> |TargetLinks(current, x, level, now)| >= 1
    ensures forall l | l in TargetLinks(current, x, level, now) ::
              && l.to == x.id && l.snr == x.snr && l.kind == InferredHop
              && l.totalHops == Some(level + 1) && l.hopsAway == Some(1)
              && l.evidence == Some(VIA + Prefix8(l.from))
              && (exists r :: r in current && r.id == l.from && l.routerSnr == Some(r.snr) && l.confidence == HopConfidence(r.snr))
  {
    RoutersSpec(current);
    var rs := Routers(current);
    forall l | l in TargetLinks(current, x, level, now)
      ensures exists r :: r in current && r.id == l.from && l.routerSnr == Some(r.snr) && l.confidence == HopConfidence(r.snr)
    {
      var k :| 0 <= k < |rs| && TargetLinks(current, x, level, now)[k] == l;
      assert rs[k] in rs;
    }
  }

  lemma {:induction false} LevelOrigin(current: seq<HopNode>, nexts: seq<HopNode>, level: int, now: string, l: Link)
    returns (k: nat)
    requires l in LevelLinksOf(current, nexts, level, now)
    ensures k < |nexts| && l in TargetLinks(current, nexts[k], level, now)
  {
    var init := nexts[..|nexts| - 1];
    if l in LevelLinksOf(current, init, level, now) {
      k := LevelOrigin(current, init, level, now, l);
      assert init[k] == nexts[k];
    } else {
      k := |nexts| - 1;
    }
  }

  lemma {:induction false} LevelHas(current: seq<HopNode>, nexts: seq<HopNode>, level: int, now: string, k: nat)
    requires k < |nexts|
    ensures forall l | l in TargetLinks(current, nexts[k], level, now) :: l in LevelLinksOf(current, nexts, level, now)
  {
    var init := nexts[..|nexts| - 1];
    if k < |init| {
      assert init[k] == nexts[k];
      LevelHas(current, init, level, now, k);
    }
  }

  lemma LevelsSnoc(f: int -> seq<Link>, upTo: int)
    requires upTo >= 1
    ensures Levels(f, upTo + 1) == Levels(f, upTo) + f(upTo)
  {
  }

  lemma HopLinksSnoc(nodes: seq<NodeEntry>, now: string, upTo: int)
    requires upTo >= 1
    ensures HopLinks(nodes, now, upTo + 1) == HopLinks(nodes, now, upTo) + LevelLinks(nodes, now, upTo)
  {
    LevelsSnoc(k => LevelLinks(nodes, now, k), upTo);
  }

  lemma LevelsGrow(f: int -> seq<Link>, upTo: int, l: Link)
    requires upTo >= 1 && l in Levels(f, upTo)
    ensures l in Levels(f, upTo + 1)
  {
  }

  /** A link of the concatenation first appears in some f(level), 1 <= level < upTo. */
  lemma LevelsOrigin(f: int -> seq<Link>, upTo: int, l: Link) returns (level: int)
    requires l in Levels(f, upTo)
    ensures 1 <= level < upTo && l in f(level)
  {
    assert Levels(f, 1) == [];
    level := InferenceProps.FirstStep(k => l in Levels(f, k), upTo);
  }

  /** Every f(level), 1 <= level < upTo, is part of the concatenation. */
  lemma LevelsHas(f: int -> seq<Link>, upTo: int, level: int, l: Link)
    requires 1 <= level < upTo && l in f(level)
    ensures l in Levels(f, upTo)
  {
    var k := level + 1;
    while k < upTo
      invariant level + 1 <= k <= upTo && l in Levels(f, k)
    {
      LevelsGrow(f, k, l);
      k := k + 1;
    }
  }

  lemma HopOrigin(nodes: seq<NodeEntry>, now: string, upTo: int, l: Link) returns (level: int)
    requires l in HopLinks(nodes, now, upTo)
    ensures 1 <= level < upTo && l in LevelLinks(nodes, now, level)
  {
    level := LevelsOrigin(k => LevelLinks(nodes, now, k), upTo, l);
  }

  lemma HopHas(nodes: seq<NodeEntry>, now: string, upTo: int, level: int, l: Link)
    requires 1 <= level < upTo && l in LevelLinks(nodes, now, level)
    ensures l in HopLinks(nodes, now, upTo)
  {
    LevelsHas(k => LevelLinks(nodes, now, k), upTo, level, l);
  }

  /** A link of the snapshot from a node at some hop distance N >= 0 to a node at N+1. */
  ghost predicate Layered(nodes: seq<NodeEntry>, l: Link) {
    exists i, j :: 0 <= i < |nodes| && 0 <= j < |nodes| && nodes[i].id == l.from && nodes[j].id == l.to
                   && HopsOrMinusOne(nodes[i].info) >= 0
                   && HopsOrMinusOne(nodes[j].info) == HopsOrMinusOne(nodes[i].info) + 1
  }

  lemma HopNodeAt(nodes: seq<NodeEntry>, h: int, x: HopNode) returns (i: nat)
    requires x in AtHop(nodes, h)
    ensures i < |nodes| && nodes[i].id == x.id && HopsOrMinusOne(nodes[i].info) == h
  {
    AtHopMember(nodes, h, x);
    var k :| 0 <= k < |nodes| && HopsOrMinusOne(nodes[k].info) == h && HopNodeOf(nodes[k]) == x;
    i := k;
  }

  /** A direct link goes from a hop-0 node of the snapshot to a hop-1 node. */
  lemma DirectLayered(nodes: seq<NodeEntry>, now: string, l: Link)
    requires l in DirectLinks(nodes, now)
    ensures Layered(nodes, l) && l.kind == InferredDirect
  {
    var z, o := DirectOrigin(AtHop(nodes, 0), AtHop(nodes, 1), now, l);
    var i := HopNodeAt(nodes, 0, z);
    var j := HopNodeAt(nodes, 1, o);
  }

  /** A link of level N goes from a node at hop N to a node at hop N+1. */
  lemma LevelFacts(nodes: seq<NodeEntry>, now: string, level: int, l: Link) returns (r: HopNode, x: HopNode)
    requires l in LevelLinks(nodes, now, level)
    ensures r in AtHop(nodes, level) && x in AtHop(nodes, level + 1)
    ensures l.from == r.id && l.to == x.id && l.kind == InferredHop && l.totalHops == Some(level + 1)
  {
    var current, nexts := AtHop(nodes, level), AtHop(nodes, level + 1);
    var k := LevelOrigin(current, nexts, level, now, l);
    x := nexts[k];
    TargetLinksSpec(current, x, level, now);
    r :| r in current && r.id == l.from && l.routerSnr == Some(r.snr) && l.confidence == HopConfidence(r.snr);
  }

  /** A chained link goes from a node at hop N >= 1 to a node at hop N+1 and
      records N+1 as its total hop count. */
  lemma HopLayered(nodes: seq<NodeEntry>, now: string, upTo: int, l: Link)
    requires l in HopLinks(nodes, now, upTo)
    ensures Layered(nodes, l) && l.kind == InferredHop
    ensures exists j :: 0 <= j < |nodes| && nodes[j].id == l.to && l.totalHops == Some(HopsOrMinusOne(nodes[j].info))
  {
    var level := HopOrigin(nodes, now, upTo, l);
    var r, x := LevelFacts(nodes, now, level, l);
    var i := HopNodeAt(nodes, level, r);
    var j := HopNodeAt(nodes, level + 1, x);
  }

  /** Every link goes from a node of the snapshot at hop N to one at hop N+1:
      direct links from hop 0 to hop 1, chained links from hop N to hop N+1,
      with N+1 recorded as the total hop count. */
  lemma V2LinksLayered(nodes: seq<NodeEntry>, now: string, l: Link)
    requires l in V2Links(nodes, now)
    ensures Layered(nodes, l)
    ensures l.kind == InferredDirect || l.kind == InferredHop
    ensures l.kind == InferredHop ==> exists j :: 0 <= j < |nodes| && nodes[j].id == l.to && l.totalHops == Some(HopsOrMinusOne(nodes[j].info))
  {
    if l in DirectLinks(nodes, now) {
      DirectLayered(nodes, now, l);
    } else {
      HopLayered(nodes, now, MaxHop(nodes), l);
    }
  }

  /** Every hop-0 node is linked to every hop-1 node. */
  lemma V2LinksDirect(nodes: seq<NodeEntry>, now: string, z: HopNode, o: HopNode)
    requires z in AtHop(nodes, 0) && o in AtHop(nodes, 1)
    ensures DirectLink(z, o, now) in V2Links(nodes, now)
  {
    MaxHopBounds(nodes, 0);
    DirectHas(AtHop(nodes, 0), AtHop(nodes, 1), now, z, o);
  }

  /** Every node at hop N+1 >= 2 whose hop N holds a node is reached by a chained link. */
  lemma V2LinksReach(nodes: seq<NodeEntry>, now: string, x: HopNode, level: int)
    requires level >= 1 && x in AtHop(nodes, level + 1) && AtHop(nodes, level) != []
    ensures exists l :: l in V2Links(nodes, now) && l.to == x.id && l.kind == InferredHop
  {
    MaxHopBounds(nodes, level + 1);
    var current, nexts := AtHop(nodes, level), AtHop(nodes, level + 1);
    var k :| 0 <= k < |nexts| && nexts[k] == x;
    TargetLinksSpec(current, x, level, now);
    var l := TargetLinks(current, x, level, now)[0];
    LevelHas(current, nexts, level, now, k);
    HopHas(nodes, now, MaxHop(nodes), level, l);
    assert V2Links(nodes, now) == DirectLinks(nodes, now) + HopLinks(nodes, now, MaxHop(nodes));
  }

  // ---------------------------------------------------------------------------
  // The loops
  // ---------------------------------------------------------------------------

  method DirectRowStep(zeroHop: HopNode, ones: seq<HopNode>, now: string, links0: seq<Link>) returns (connections: seq<Link>)
    ensures connections == links0 + DirectRow(zeroHop, ones, now)
  {
    connections := links0;
    var j := 0;
    while j < |ones|
      invariant 0 <= j <= |ones|
      invariant connections == links0 + DirectRow(zeroHop, ones[..j], now)
    {
      var oneHop := ones[j];
      var connection := Link(zeroHop.id, oneHop.id, oneHop.snr, InferredDirect, High, Some(1),
                             Some(Inference.HOP_DISTANCE), None, None, None, now);
      assert DirectRow(zeroHop, ones[..j + 1], now) == DirectRow(zeroHop, ones[..j], now) + [connection];
      connections := connections + [connection];
      j := j + 1;
    }
    assert ones[..j] == ones;
  }

  method DirectStep(zeros: seq<HopNode>, ones: seq<HopNode>, now: string, links0: seq<Link>) returns (connections: seq<Link>)
    ensures connections == links0 + DirectCandidates(zeros, ones, now)
  {
    connections := links0;
    var i := 0;
    while i < |zeros|
      invariant 0 <= i <= |zeros|
      invariant connections == links0 + DirectCandidates(zeros[..i], ones, now)
    {
      assert zeros[..i + 1][..i] == zeros[..i];
      connections := DirectRowStep(zeros[i], ones, now, connections);
      i := i + 1;
    }
    assert zeros[..i] == zeros;
  }

  /** The links into one hop-(N+1) node. */
  method TargetStep(current: seq<HopNode>, nextNode: HopNode, level: int, now: string, links0: seq<Link>)
    returns (connections: seq<Link>)
    ensures connections == links0 + TargetLinks(current, nextNode, level, now)
  {
    var potentialRouters := SortBySnrDesc(current);
    var goodRouters := GoodRouters(potentialRouters);
    if goodRouters == [] {
      goodRouters := Take(potentialRouters);
    }
    var top := Take(goodRouters);
    ghost var cands := TargetLinks(current, nextNode, level, now);
    connections := links0;
    var k := 0;
    while k < |top|
      invariant 0 <= k <= |top|
      invariant connections == links0 + cands[..k]
    {
      var router := top[k];
      var confidence := if router.snr > 0.0 then High else if router.snr > GOOD_SNR then Medium else Low;
      var connection := Link(router.id, nextNode.id, nextNode.snr, InferredHop, confidence, Some(1),
                             Some(VIA + Prefix8(router.id)), None, Some(level + 1), Some(router.snr), now);
      assert cands[..k + 1] == cands[..k] + [connection];
      connections := connections + [connection];
      k := k + 1;
    }
    assert cands[..k] == cands;
  }

  method LevelStep(current: seq<HopNode>, nexts: seq<HopNode>, level: int, now: string, links0: seq<Link>)
    returns (connections: seq<Link>)
    ensures connections == links0 + LevelLinksOf(current, nexts, level, now)
  {
    connections := links0;
    var i := 0;
    while i < |nexts|
      invariant 0 <= i <= |nexts|
      invariant connections == links0 + LevelLinksOf(current, nexts[..i], level, now)
    {
      assert nexts[..i + 1][..i] == nexts[..i];
      connections := TargetStep(current, nexts[i], level, now, connections);
      i := i + 1;
    }
    assert nexts[..i] == nexts;
  }

  /** One round of the level loop: a level counts only when it and the next both hold nodes. */
  method HopLevelStep(byHop: map<int, seq<HopNode>>, ghost nodes: seq<NodeEntry>, hopLevel: int, now: string, links0: seq<Link>)
    returns (connections: seq<Link>)
    requires HopTableOf(byHop, nodes) && hopLevel >= 1
    ensures connections == links0 + LevelLinks(nodes, now, hopLevel)
  {
    connections := links0;
    if hopLevel in byHop && hopLevel + 1 in byHop {
      connections := LevelStep(byHop[hopLevel], byHop[hopLevel + 1], hopLevel, now, connections);
    }
  }

  /** One round of the level loop, as the loop's invariant sees it. */
  method HopRound(byHop: map<int, seq<HopNode>>, ghost nodes: seq<NodeEntry>, hopLevel: int, now: string,
                  ghost links0: seq<Link>, links1: seq<Link>)
    returns (connections: seq<Link>)
    requires HopTableOf(byHop, nodes) && hopLevel >= 1
    requires links1 == links0 + HopLinks(nodes, now, hopLevel)
    ensures connections == links0 + HopLinks(nodes, now, hopLevel + 1)
  {
    HopLinksSnoc(nodes, now, hopLevel);
    connections := HopLevelStep(byHop, nodes, hopLevel, now, links1);
  }

  /** The level loop `for hop_level in range(1, max_hop)`. */
  method HopStep(byHop: map<int, seq<HopNode>>, ghost nodes: seq<NodeEntry>, maxHop: int, now: string, links0: seq<Link>)
    returns (connections: seq<Link>)
    requires HopTableOf(byHop, nodes)
    ensures connections == links0 + HopLinks(nodes, now, maxHop)
  {
    connections := links0;
    assert HopLinks(nodes, now, 1) == [];
    if maxHop <= 1 {
      assert HopLinks(nodes, now, maxHop) == [];
      return;
    }
    var hopLevel := 1;
    while hopLevel < maxHop
      invariant 1 <= hopLevel <= maxHop
      invariant connections == links0 + HopLinks(nodes, now, hopLevel)
    {
      connections := HopRound(byHop, nodes, hopLevel, now, links0, connections);
      hopLevel := hopLevel + 1;
    }
  }

  /** `infer_connections_from_hops(topology_data)`; `now` stands for every
      `datetime.now().isoformat()` of the run. */
  method InferConnections(topology: Snapshot, now: string) returns (r: Result<seq<Link>, Inference.InferError>)
    ensures r == V2Result(topology, now)
  {
    if topology.nodes.None? {
      return Failure(Inference.MissingNodes);
    }
    var nodes := topology.nodes.value;
    var nodesByHop := GroupByHop(nodes);
    if |nodesByHop| == 0 {
      return Success([]);
    }
    var connections := [];
    if 0 in nodesByHop && 1 in nodesByHop {
      connections := DirectStep(nodesByHop[0], nodesByHop[1], now, connections);
    }
    assert connections == DirectLinks(nodes, now);
    var maxHop := MaxHop(nodes);
    connections := HopStep(nodesByHop, nodes, maxHop, now, connections);
    return Success(connections);
  }
}
