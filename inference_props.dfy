/** What one inference pass of meshnetmap/inference.py guarantees, proved about
    the folds of module Inference.  Each checked step keeps the links whose key
    it has not seen; the connection set mixes sorted keys (steps 1, 2) with
    ordered keys (steps 3, 4), so the guarantees below are per step, and the two
    counterexamples at the end show what the mix lets through. */
module InferenceProps {
  import opened Common
  import opened Records
  import opened HopTable
  import opened Evidence
  import opened Inference

  /** No link's key is in `seen`, and no two links share a key. */
  ghost predicate FreshKeys(ls: seq<Link>, seen: set<Pair>, sorted: bool) {
    (forall i :: 0 <= i < |ls| ==> DedupKey(ls[i], sorted) !in seen)
    && (forall i, j :: 0 <= i < j < |ls| ==> DedupKey(ls[i], sorted) != DedupKey(ls[j], sorted))
  }

  // ---------------------------------------------------------------------------
  // One checked step
  // ---------------------------------------------------------------------------

  /** A checked step keeps what was there and adds only candidates. */
  lemma {:induction false} EmitAllExtends(acc: Acc, cands: seq<Link>, sorted: bool)
    ensures |acc.links| <= |EmitAll(acc, cands, sorted).links|
    ensures EmitAll(acc, cands, sorted).links[..|acc.links|] == acc.links
    ensures forall l | l in EmitAll(acc, cands, sorted).links[|acc.links|..] :: l in cands
  {
    if cands != [] {
      var init := cands[..|cands| - 1];
      var c := cands[|cands| - 1];
      EmitAllExtends(acc, init, sorted);
      var r0 := EmitAll(acc, init, sorted);
      if DedupKey(c, sorted) !in r0.seen {
        var r := EmitAll(acc, cands, sorted);
        assert r.links == r0.links + [c];
        assert r.links[|acc.links|..] == r0.links[|acc.links|..] + [c];
      }
      assert forall x | x in init :: x in cands;
    }
  }

  /** A checked step adds no key twice and none seen before, and records exactly the added keys. */
  lemma {:induction false} EmitAllKeys(acc: Acc, cands: seq<Link>, sorted: bool)
    ensures |acc.links| <= |EmitAll(acc, cands, sorted).links|
    ensures FreshKeys(EmitAll(acc, cands, sorted).links[|acc.links|..], acc.seen, sorted)
    ensures EmitAll(acc, cands, sorted).seen == acc.seen + KeySet(EmitAll(acc, cands, sorted).links[|acc.links|..], sorted)
  {
    EmitAllExtends(acc, cands, sorted);
    if cands != [] {
      var init := cands[..|cands| - 1];
      var c := cands[|cands| - 1];
      EmitAllKeys(acc, init, sorted);
      var r0 := EmitAll(acc, init, sorted);
      var new0 := r0.links[|acc.links|..];
      if DedupKey(c, sorted) !in r0.seen {
        var r := EmitAll(acc, cands, sorted);
        assert r.links[|acc.links|..] == new0 + [c];
        KeySetSnoc(new0, c, sorted);
        forall i | 0 <= i < |new0| ensures DedupKey(new0[i], sorted) != DedupKey(c, sorted) {
          assert new0[i] in new0;
        }
      }
    }
  }

  /** After a checked step every candidate's key is recorded: a skipped candidate was a duplicate. */
  lemma {:induction false} EmitAllCovers(acc: Acc, cands: seq<Link>, sorted: bool)
    ensures acc.seen <= EmitAll(acc, cands, sorted).seen
    ensures forall c | c in cands :: DedupKey(c, sorted) in EmitAll(acc, cands, sorted).seen
  {
    if cands != [] {
      var init := cands[..|cands| - 1];
      EmitAllCovers(acc, init, sorted);
      assert forall x | x in cands :: x in init || x == cands[|cands| - 1];
    }
  }

  lemma FreshKeysConcat(xs: seq<Link>, ys: seq<Link>, seen: set<Pair>, sorted: bool)
    requires FreshKeys(xs, seen, sorted) && FreshKeys(ys, seen + KeySet(xs, sorted), sorted)
    ensures FreshKeys(xs + ys, seen, sorted)
  {
    forall i, j | 0 <= i < j < |xs + ys|
      ensures DedupKey((xs + ys)[i], sorted) != DedupKey((xs + ys)[j], sorted)
    {
      if i < |xs| && j >= |xs| {
        assert (xs + ys)[i] in xs;
        assert (xs + ys)[j] == ys[j - |xs|];
      }
    }
  }

  /** When no two candidates share a key and none was seen, a checked step keeps them all. */
  lemma {:induction false} EmitAllFresh(acc: Acc, cands: seq<Link>, sorted: bool)
    requires FreshKeys(cands, acc.seen, sorted)
    ensures EmitAll(acc, cands, sorted) == Acc(acc.links + cands, acc.seen + KeySet(cands, sorted))
  {
    if cands != [] {
      var init := cands[..|cands| - 1];
      var c := cands[|cands| - 1];
      FreshKeysInit(cands, acc.seen, sorted);
      EmitAllFresh(acc, init, sorted);
      KeySetSnoc(init, c, sorted);
      assert init + [c] == cands;
    }
  }

  /** Dropping the last link keeps the keys fresh, and the last key is new to the rest. */
  lemma FreshKeysInit(ls: seq<Link>, seen: set<Pair>, sorted: bool)
    requires ls != [] && FreshKeys(ls, seen, sorted)
    ensures FreshKeys(ls[..|ls| - 1], seen, sorted)
    ensures DedupKey(ls[|ls| - 1], sorted) !in seen + KeySet(ls[..|ls| - 1], sorted)
  {
    var init := ls[..|ls| - 1];
    forall i | 0 <= i < |init| ensures init[i] == ls[i] { }
    forall l | l in init ensures DedupKey(l, sorted) != DedupKey(ls[|ls| - 1], sorted) {
      var i :| 0 <= i < |init| && init[i] == l;
      assert ls[i] == l;
    }
  }

  // ---------------------------------------------------------------------------
  // Step 1: Bluetooth bridge pairing
  // ---------------------------------------------------------------------------

  ghost predicate EntryIdsDistinct(s: seq<NodeEntry>) {
    forall i, j :: 0 <= i < j < |s| ==> s[i].id != s[j].id
  }

  lemma {:induction false} WithHopsMember(nodes: seq<NodeEntry>, h: int, e: NodeEntry)
    ensures e in WithHops(nodes, h) <==> e in nodes && e.info.hopsAway == Some(h)
  {
    if nodes != [] {
      var init := nodes[..|nodes| - 1];
      WithHopsMember(init, h, e);
      assert nodes == init + [nodes[|nodes| - 1]];
    }
  }

  lemma {:induction false} WithHopsDistinct(nodes: seq<NodeEntry>, h: int)
    requires DistinctIds(nodes)
    ensures EntryIdsDistinct(WithHops(nodes, h))
  {
    if nodes != [] {
      var init := nodes[..|nodes| - 1];
      var last := nodes[|nodes| - 1];
      WithHopsDistinct(init, h);
      forall e | e in WithHops(init, h) ensures e.id != last.id {
        WithHopsMember(init, h, e);
        var k :| 0 <= k < |init| && init[k] == e;
        assert nodes[k] == e;
      }
    }
  }

  /** Two entries of a dictionary with the same key are the same entry. */
  lemma SameIdSameEntry(nodes: seq<NodeEntry>, a: NodeEntry, b: NodeEntry)
    requires DistinctIds(nodes) && a in nodes && b in nodes && a.id == b.id
    ensures a == b
  {
  }

  lemma {:induction false} BridgeCount(sources: seq<NodeEntry>, nodes: seq<NodeEntry>, now: string)
    ensures |BridgeCandidates(sources, nodes, now)| == |sources| * |nodes|
  {
    if sources != [] {
      BridgeCount(sources[..|sources| - 1], nodes, now);
      assert (|sources| - 1) * |nodes| + |nodes| == |sources| * |nodes|;
    }
  }

  /** Every candidate is the link of some (source, collection node) pair. */
  lemma {:induction false} BridgeSound(sources: seq<NodeEntry>, nodes: seq<NodeEntry>, now: string, l: Link)
    requires l in BridgeCandidates(sources, nodes, now)
    ensures exists i, j :: 0 <= i < |sources| && 0 <= j < |nodes| && l == BridgeLink(sources[i], nodes[j], now)
  {
    var init := sources[..|sources| - 1];
    if l in BridgeCandidates(init, nodes, now) {
      BridgeSound(init, nodes, now, l);
      var i, j :| 0 <= i < |init| && 0 <= j < |nodes| && l == BridgeLink(init[i], nodes[j], now);
      assert sources[i] == init[i];
    } else {
      var row := BridgeRow(sources[|sources| - 1], nodes, now);
      var j :| 0 <= j < |nodes| && row[j] == l;
      assert l == BridgeLink(sources[|sources| - 1], nodes[j], now);
    }
  }

  /** Every (source, collection node) pair has its candidate. */
  lemma {:induction false} BridgePairListed(sources: seq<NodeEntry>, nodes: seq<NodeEntry>, now: string, i: int, j: int)
    requires 0 <= i < |sources| && 0 <= j < |nodes|
    ensures BridgeLink(sources[i], nodes[j], now) in BridgeCandidates(sources, nodes, now)
  {
    var init := sources[..|sources| - 1];
    if i < |init| {
      BridgePairListed(init, nodes, now, i, j);
      assert init[i] == sources[i];
    } else {
      assert BridgeRow(sources[i], nodes, now)[j] == BridgeLink(sources[i], nodes[j], now);
    }
  }

  lemma SortedPairCancel(a: string, b: string, c: string)
    requires SortedPair(a, b) == SortedPair(c, b)
    ensures a == c
  {
  }

  /** With unique ids on each side and no id on both sides, no two bridge
      candidates share a sorted key. */
  lemma {:induction false} BridgeFresh(sources: seq<NodeEntry>, nodes: seq<NodeEntry>, now: string)
    requires EntryIdsDistinct(sources) && EntryIdsDistinct(nodes)
    requires forall i, j :: 0 <= i < |sources| && 0 <= j < |nodes| ==> sources[i].id != nodes[j].id
    ensures FreshKeys(BridgeCandidates(sources, nodes, now), {}, true)
  {
    if sources != [] {
      var init := sources[..|sources| - 1];
      assert forall i | 0 <= i < |init| :: init[i] == sources[i];
      BridgeFresh(init, nodes, now);
      BridgeRowFresh(sources, nodes, now);
      FreshKeysConcat(BridgeCandidates(init, nodes, now), BridgeRow(sources[|sources| - 1], nodes, now), {}, true);
    }
  }

  /** The last source's row repeats no key, neither its own nor one of the earlier rows'. */
  lemma BridgeRowFresh(sources: seq<NodeEntry>, nodes: seq<NodeEntry>, now: string)
    requires sources != [] && EntryIdsDistinct(sources) && EntryIdsDistinct(nodes)
    requires forall i, j :: 0 <= i < |sources| && 0 <= j < |nodes| ==> sources[i].id != nodes[j].id
    ensures FreshKeys(BridgeRow(sources[|sources| - 1], nodes, now),
                      KeySet(BridgeCandidates(sources[..|sources| - 1], nodes, now), true), true)
  {
    var init := sources[..|sources| - 1];
    var s := sources[|sources| - 1];
    var before := BridgeCandidates(init, nodes, now);
    var row := BridgeRow(s, nodes, now);
    forall j, l | 0 <= j < |row| && l in before ensures DedupKey(l, true) != DedupKey(row[j], true) {
      BridgeSound(init, nodes, now, l);
      var i', j' :| 0 <= i' < |init| && 0 <= j' < |nodes| && l == BridgeLink(init[i'], nodes[j'], now);
      assert init[i'] == sources[i'];
      assert sources[i'].id != s.id && nodes[j'].id != s.id;
    }
    forall j1, j2 | 0 <= j1 < j2 < |row| ensures DedupKey(row[j1], true) != DedupKey(row[j2], true) {
      if DedupKey(row[j1], true) == DedupKey(row[j2], true) {
        SortedPairCancel(nodes[j1].id, s.id, nodes[j2].id);
      }
    }
  }

  /** Step 1 in full: with unique node ids every (source, collection node) pair
      yields exactly one link, so the step emits |sources| x |collection nodes|
      links with distinct sorted keys, in loop order. */
  lemma BridgeComplete(nodes: seq<NodeEntry>, now: string)
    requires DistinctIds(nodes)
    ensures BridgeAcc(nodes, now).links == BridgeCandidates(WithHops(nodes, -1), WithHops(nodes, 0), now)
    ensures |BridgeAcc(nodes, now).links| == |WithHops(nodes, -1)| * |WithHops(nodes, 0)|
    ensures FreshKeys(BridgeAcc(nodes, now).links, {}, true)
  {
    var sources := WithHops(nodes, -1);
    var collection := WithHops(nodes, 0);
    WithHopsDistinct(nodes, -1);
    WithHopsDistinct(nodes, 0);
    forall i, j | 0 <= i < |sources| && 0 <= j < |collection| ensures sources[i].id != collection[j].id {
      WithHopsMember(nodes, -1, sources[i]);
      WithHopsMember(nodes, 0, collection[j]);
      if sources[i].id == collection[j].id {
        SameIdSameEntry(nodes, sources[i], collection[j]);
      }
    }
    BridgeFresh(sources, collection, now);
    EmitAllFresh(Acc([], {}), BridgeCandidates(sources, collection, now), true);
    BridgeCount(sources, collection, now);
  }

  // ---------------------------------------------------------------------------
  // Step 3: direct links
  // ---------------------------------------------------------------------------

  lemma {:induction false} DirectCount(zeros: seq<HopNode>, ones: seq<HopNode>, ev: RoutingIndex, now: string)
    ensures |DirectCandidates(zeros, ones, ev, now)| == |zeros| * |ones|
  {
    if zeros != [] {
      DirectCount(zeros[..|zeros| - 1], ones, ev, now);
      assert (|zeros| - 1) * |ones| + |ones| == |zeros| * |ones|;
    }
  }

  /** Every direct link is that of some (hop 0, hop 1) pair. */
  lemma {:induction false} DirectSound(zeros: seq<HopNode>, ones: seq<HopNode>, ev: RoutingIndex, now: string, l: Link)
    requires l in DirectCandidates(zeros, ones, ev, now)
    ensures exists i, j :: 0 <= i < |zeros| && 0 <= j < |ones| && l == DirectLink(zeros[i], ones[j], ev, now)
  {
    var init := zeros[..|zeros| - 1];
    if l in DirectCandidates(init, ones, ev, now) {
      DirectSound(init, ones, ev, now, l);
      var i, j :| 0 <= i < |init| && 0 <= j < |ones| && l == DirectLink(init[i], ones[j], ev, now);
      assert zeros[i] == init[i];
    } else {
      var row := DirectRow(zeros[|zeros| - 1], ones, ev, now);
      var j :| 0 <= j < |ones| && row[j] == l;
      assert l == DirectLink(zeros[|zeros| - 1], ones[j], ev, now);
    }
  }

  /** Every (hop 0, hop 1) pair has its direct link. */
  lemma {:induction false} DirectPairListed(zeros: seq<HopNode>, ones: seq<HopNode>, ev: RoutingIndex, now: string, i: int, j: int)
    requires 0 <= i < |zeros| && 0 <= j < |ones|
    ensures DirectLink(zeros[i], ones[j], ev, now) in DirectCandidates(zeros, ones, ev, now)
  {
    var init := zeros[..|zeros| - 1];
    if i < |init| {
      DirectPairListed(init, ones, ev, now, i, j);
      assert init[i] == zeros[i];
    } else {
      assert DirectRow(zeros[i], ones, ev, now)[j] == DirectLink(zeros[i], ones[j], ev, now);
    }
  }

  /** A direct link is high-confidence exactly when some usable routing record
      goes from its hop-0 node to its hop-1 node; its evidence count is the
      number of such records. */
  lemma DirectConfidence(paths: seq<RoutingPath>, zero: HopNode, one: HopNode, now: string)
    ensures DirectLink(zero, one, IndexOf(paths), now).confidence == High
            <==> exists k :: 0 <= k < |paths| && Usable(paths[k]) && paths[k].from.value == zero.id && paths[k].to.value == one.id
    ensures DirectLink(zero, one, IndexOf(paths), now).evidenceCount == Some(|Observed(paths, zero.id, one.id)|)
    ensures DirectLink(zero, one, IndexOf(paths), now).evidence
            == Some(if DirectLink(zero, one, IndexOf(paths), now).confidence == High then HOP_DISTANCE_WITH_ROUTING else HOP_DISTANCE)
  {
    IndexLookup(paths);
    var obs := Observed(paths, zero.id, one.id);
    if exists k :: 0 <= k < |paths| && Usable(paths[k]) && paths[k].from.value == zero.id && paths[k].to.value == one.id {
      var k :| 0 <= k < |paths| && Usable(paths[k]) && paths[k].from.value == zero.id && paths[k].to.value == one.id;
      ObservedComplete(paths, k);
    }
    if |obs| > 0 {
      ObservedSound(paths, zero.id, one.id, obs[0]);
    }
  }

  // ---------------------------------------------------------------------------
  // Steps 1 and 2 together
  // ---------------------------------------------------------------------------

  /** After steps 1 and 2 the set holds exactly the sorted keys of the links,
      no two of which share a key; the bridge links come first. */
  lemma ColocationAccFacts(nodes: seq<NodeEntry>, now: string)
    ensures BridgeAcc(nodes, now).seen == KeySet(BridgeAcc(nodes, now).links, true)
    ensures GpsAcc(nodes, now).seen == KeySet(GpsAcc(nodes, now).links, true)
    ensures FreshKeys(GpsAcc(nodes, now).links, {}, true)
    ensures |BridgeAcc(nodes, now).links| <= |GpsAcc(nodes, now).links|
    ensures GpsAcc(nodes, now).links[..|BridgeAcc(nodes, now).links|] == BridgeAcc(nodes, now).links
    ensures forall l | l in BridgeAcc(nodes, now).links :: l in BridgeCandidates(WithHops(nodes, -1), WithHops(nodes, 0), now)
    ensures forall l | l in GpsAcc(nodes, now).links[|BridgeAcc(nodes, now).links|..] :: l in GpsCandidates(Evidence.Colocated(nodes), now)
  {
    var bc := BridgeCandidates(WithHops(nodes, -1), WithHops(nodes, 0), now);
    var gc := GpsCandidates(Evidence.Colocated(nodes), now);
    EmitAllKeys(Acc([], {}), bc, true);
    EmitAllExtends(Acc([], {}), bc, true);
    var b := BridgeAcc(nodes, now);
    EmitAllKeys(b, gc, true);
    EmitAllExtends(b, gc, true);
    assert b.links[0..] == b.links;
    var g := GpsAcc(nodes, now).links[|b.links|..];
    assert GpsAcc(nodes, now).links == b.links + g;
    KeySetConcat(b.links, g, true);
    FreshKeysConcat(b.links, g, {}, true);
  }

  // ---------------------------------------------------------------------------
  // Step 2: GPS co-location
  // ---------------------------------------------------------------------------

  lemma {:induction false} MemberCandidatesSound(m: seq<NodeEntry>, n: int, now: string, l: Link)
    requires 0 <= n <= |m| && l in MemberCandidates(m, n, now)
    ensures exists i, j :: 0 <= i < j < |m| && l == GpsLink(m[i], m[j], now)
  {
    if l in MemberCandidates(m, n - 1, now) {
      MemberCandidatesSound(m, n - 1, now, l);
    } else {
      var k :| 0 <= k < |PairsFrom(m, n - 1, now)| && PairsFrom(m, n - 1, now)[k] == l;
      assert l == GpsLink(m[n - 1], m[n + k], now);
    }
  }

  lemma {:induction false} MemberCandidatesComplete(m: seq<NodeEntry>, n: int, now: string, i: int, j: int)
    requires 0 <= i < j < |m| && i < n <= |m|
    ensures GpsLink(m[i], m[j], now) in MemberCandidates(m, n, now)
  {
    if i < n - 1 {
      MemberCandidatesComplete(m, n - 1, now, i, j);
    } else {
      assert PairsFrom(m, i, now)[j - i - 1] == GpsLink(m[i], m[j], now);
    }
  }

  lemma {:induction false} GpsCandidatesSound(groups: seq<Group>, now: string, l: Link)
    requires l in GpsCandidates(groups, now)
    ensures exists g, i, j :: g in groups && 0 <= i < j < |g.1| && l == GpsLink(g.1[i], g.1[j], now)
  {
    var init := groups[..|groups| - 1];
    var g := groups[|groups| - 1];
    if l in GpsCandidates(init, now) {
      GpsCandidatesSound(init, now, l);
      var g', i, j :| g' in init && 0 <= i < j < |g'.1| && l == GpsLink(g'.1[i], g'.1[j], now);
      assert g' in groups;
    } else {
      MemberCandidatesSound(g.1, |g.1|, now, l);
    }
  }

  lemma {:induction false} GpsCandidatesComplete(groups: seq<Group>, now: string, k: int, i: int, j: int)
    requires 0 <= k < |groups| && 0 <= i < j < |groups[k].1|
    ensures GpsLink(groups[k].1[i], groups[k].1[j], now) in GpsCandidates(groups, now)
  {
    var init := groups[..|groups| - 1];
    if k < |init| {
      assert init[k] == groups[k];
      GpsCandidatesComplete(init, now, k, i, j);
    } else {
      MemberCandidatesComplete(groups[k].1, |groups[k].1|, now, i, j);
    }
  }

  lemma {:induction false} MembersAtDistinct(nodes: seq<NodeEntry>, key: LocKey)
    requires DistinctIds(nodes)
    ensures EntryIdsDistinct(MembersAt(nodes, key))
  {
    if nodes != [] {
      var init := nodes[..|nodes| - 1];
      var last := nodes[|nodes| - 1];
      MembersAtDistinct(init, key);
      forall e | e in MembersAt(init, key) ensures e.id != last.id {
        MembersAtSound(init, key, e);
        var k :| 0 <= k < |init| && init[k] == e;
        assert nodes[k] == e;
      }
    }
  }

  /** Every GPS candidate joins two different nodes at the same rounded position,
      and starts at the hop-0 one whenever that is the target's hop distance. */
  lemma GpsSound(nodes: seq<NodeEntry>, now: string, l: Link)
    requires DistinctIds(nodes)
    requires l in GpsCandidates(Evidence.Colocated(nodes), now)
    ensures l.kind == Colocated && l.confidence == High && l.hopsAway == Some(0) && l.evidence == Some(SAME_GPS)
    ensures exists a, b :: a in nodes && b in nodes && Located(a) && Located(b) && KeyOf(a) == KeyOf(b)
              && a.id != b.id && l.from == a.id && l.to == b.id
              && (HopsOrMinusOne(b.info) == 0 ==> HopsOrMinusOne(a.info) == 0)
  {
    var groups := Evidence.Colocated(nodes);
    GpsCandidatesSound(groups, now, l);
    var g, i, j :| g in groups && 0 <= i < j < |g.1| && l == GpsLink(g.1[i], g.1[j], now);
    var x, y := g.1[i], g.1[j];
    ColocatedSound(nodes, g, x);
    ColocatedSound(nodes, g, y);
    GroupsOfSound(FirstKeys(nodes), nodes, g);
    MembersAtDistinct(nodes, g.0);
    assert x.id != y.id;
    if HopsOrMinusOne(y.info) == 0 && HopsOrMinusOne(x.info) != 0 {
      assert l.from == y.id && l.to == x.id;
    } else {
      assert l.from == x.id && l.to == y.id;
    }
  }

  /** Any two different nodes at the same rounded position end up joined by a
      link of step 1 or step 2, in one direction or the other. */
  lemma ColocatedPairsJoined(nodes: seq<NodeEntry>, now: string, a: NodeEntry, b: NodeEntry)
    requires a in nodes && b in nodes && a != b
    requires Located(a) && Located(b) && KeyOf(a) == KeyOf(b)
    ensures exists l :: l in GpsAcc(nodes, now).links && SortedPair(l.from, l.to) == SortedPair(a.id, b.id)
  {
    var c := ColocatedCandidate(nodes, now, a, b);
    GpsKeyRecorded(nodes, now, c);
  }

  /** Two distinct nodes at one rounded position give a GPS candidate for their pair. */
  lemma ColocatedCandidate(nodes: seq<NodeEntry>, now: string, a: NodeEntry, b: NodeEntry) returns (c: Link)
    requires a in nodes && b in nodes && a != b
    requires Located(a) && Located(b) && KeyOf(a) == KeyOf(b)
    ensures c in GpsCandidates(Evidence.Colocated(nodes), now) && DedupKey(c, true) == SortedPair(a.id, b.id)
  {
    var groups := Evidence.Colocated(nodes);
    var k, i, j := ColocatedIndices(nodes, a, b);
    if i < j {
      GpsCandidatesComplete(groups, now, k, i, j);
      c := GpsLink(a, b, now);
      GpsLinkKey(a, b, now);
    } else {
      GpsCandidatesComplete(groups, now, k, j, i);
      c := GpsLink(b, a, now);
      GpsLinkKey(b, a, now);
    }
  }

  /** Where two distinct co-located nodes sit among the co-location groups. */
  lemma ColocatedIndices(nodes: seq<NodeEntry>, a: NodeEntry, b: NodeEntry) returns (k: int, i: int, j: int)
    requires a in nodes && b in nodes && a != b
    requires Located(a) && Located(b) && KeyOf(a) == KeyOf(b)
    ensures 0 <= k < |Evidence.Colocated(nodes)|
    ensures 0 <= i < |Evidence.Colocated(nodes)[k].1| && 0 <= j < |Evidence.Colocated(nodes)[k].1| && i != j
    ensures Evidence.Colocated(nodes)[k].1[i] == a && Evidence.Colocated(nodes)[k].1[j] == b
  {
    var m := MembersAt(nodes, KeyOf(a));
    MembersAtComplete(nodes, a);
    MembersAtComplete(nodes, b);
    i :| 0 <= i < |m| && m[i] == a;
    j :| 0 <= j < |m| && m[j] == b;
    ColocatedComplete(nodes, a);
    var groups := Evidence.Colocated(nodes);
    k :| 0 <= k < |groups| && groups[k] == (KeyOf(a), m);
  }

  /** A GPS link's sorted key is its pair's, whichever way the link points. */
  lemma GpsLinkKey(x: NodeEntry, y: NodeEntry, now: string)
    ensures DedupKey(GpsLink(x, y, now), true) == SortedPair(x.id, y.id) == SortedPair(y.id, x.id)
  {
    SortedPairSymmetric(x.id, y.id);
  }

  /** Every GPS candidate's sorted key is the key of some link after step 2. */
  lemma GpsKeyRecorded(nodes: seq<NodeEntry>, now: string, c: Link)
    requires c in GpsCandidates(Evidence.Colocated(nodes), now)
    ensures exists l :: l in GpsAcc(nodes, now).links && DedupKey(l, true) == DedupKey(c, true)
  {
    EmitAllCovers(BridgeAcc(nodes, now), GpsCandidates(Evidence.Colocated(nodes), now), true);
    ColocationAccFacts(nodes, now);
  }

  // ---------------------------------------------------------------------------
  // Step 4: router choice
  // ---------------------------------------------------------------------------

  lemma {:induction false} ValidatedSound(routers: seq<HopNode>, x: HopNode, ev: RoutingIndex, c: Choice)
    requires c in ValidatedChoices(routers, x, ev)
    ensures c.router in routers && c.validation == RoutingValidated
    ensures c.count == |Lookup(ev, c.router.id, x.id)| && c.count > 0
  {
    var init := routers[..|routers| - 1];
    if c in ValidatedChoices(init, x, ev) {
      ValidatedSound(init, x, ev, c);
      assert c.router in routers;
    }
  }

  lemma {:induction false} ValidatedComplete(routers: seq<HopNode>, x: HopNode, ev: RoutingIndex, r: HopNode)
    requires r in routers && |Lookup(ev, r.id, x.id)| > 0
    ensures Choice(r, |Lookup(ev, r.id, x.id)|, RoutingValidated) in ValidatedChoices(routers, x, ev)
  {
    var init := routers[..|routers| - 1];
    if r != routers[|routers| - 1] {
      assert r in init by {
        var k :| 0 <= k < |routers| && routers[k] == r;
        assert init[k] == r;
      }
      ValidatedComplete(init, x, ev, r);
    }
  }

  lemma {:induction false} ValidatedNone(routers: seq<HopNode>, x: HopNode, ev: RoutingIndex)
    requires forall r | r in routers :: Lookup(ev, r.id, x.id) == []
    ensures ValidatedChoices(routers, x, ev) == []
  {
    if routers != [] {
      var init := routers[..|routers| - 1];
      assert forall r | r in init :: r in routers;
      ValidatedNone(init, x, ev);
    }
  }

  /** Routers taken from an SNR-descending list stay in SNR-descending order. */
  lemma {:induction false} ValidatedOrdered(routers: seq<HopNode>, x: HopNode, ev: RoutingIndex)
    requires SortedDesc(routers)
    ensures forall i, j :: 0 <= i < j < |ValidatedChoices(routers, x, ev)|
              ==> ValidatedChoices(routers, x, ev)[i].router.snr >= ValidatedChoices(routers, x, ev)[j].router.snr
  {
    if routers != [] {
      var init := routers[..|routers| - 1];
      var last := routers[|routers| - 1];
      assert forall i | 0 <= i < |init| :: init[i] == routers[i];
      ValidatedOrdered(init, x, ev);
      forall c | c in ValidatedChoices(init, x, ev) ensures c.router.snr >= last.snr {
        ValidatedSound(init, x, ev, c);
        var k :| 0 <= k < |init| && init[k] == c.router;
      }
    }
  }

  lemma {:induction false} GoodRoutersNone(routers: seq<HopNode>)
    requires forall r | r in routers :: r.snr <= GOOD_ROUTER_SNR
    ensures GoodRouters(routers) == []
  {
    if routers != [] {
      var init := routers[..|routers| - 1];
      assert forall r | r in init :: r in routers;
      GoodRoutersNone(init);
    }
  }

  lemma {:induction false} GoodRoutersCons(routers: seq<HopNode>)
    requires routers != []
    ensures GoodRouters(routers)
            == (if routers[0].snr > GOOD_ROUTER_SNR then [routers[0]] else []) + GoodRouters(routers[1..])
  {
    if |routers| > 1 {
      var init := routers[..|routers| - 1];
      GoodRoutersCons(init);
      assert init[1..] == routers[1..][..|routers[1..]| - 1];
      assert init[0] == routers[0];
    } else {
      assert routers[1..] == [];
      assert routers[..0] == [];
    }
  }

  /** On an SNR-descending list the first good router, if any, is the head. */
  lemma GoodRoutersHead(routers: seq<HopNode>)
    requires SortedDesc(routers) && routers != []
    ensures GoodRouters(routers) != [] <==> routers[0].snr > GOOD_ROUTER_SNR
    ensures GoodRouters(routers) != [] ==> GoodRouters(routers)[0] == routers[0]
  {
    GoodRoutersCons(routers);
    if routers[0].snr <= GOOD_ROUTER_SNR {
      forall r | r in routers ensures r.snr <= GOOD_ROUTER_SNR {
        var k :| 0 <= k < |routers| && routers[k] == r;
      }
      GoodRoutersNone(routers);
    }
  }

  /** When some router at hop N has routing evidence toward x, the choices are
      exactly the routers with evidence, best SNR first, each carrying the number
      of records that show it. */
  lemma RouterChoicesRouted(current: seq<HopNode>, x: HopNode, paths: seq<RoutingPath>)
    requires exists r :: r in current && Observed(paths, r.id, x.id) != []
    ensures DistinctHopIds(current) ==>
              forall i, j :: 0 <= i < j < |RouterChoices(current, x, IndexOf(paths))| ==>
                RouterChoices(current, x, IndexOf(paths))[i].router.id != RouterChoices(current, x, IndexOf(paths))[j].router.id
    ensures DistinctHopIds(current) ==>
              |RouterChoices(current, x, IndexOf(paths))| == |EvidencedIds(current, x, paths)|
    ensures forall c | c in RouterChoices(current, x, IndexOf(paths)) ::
              c.router in current && c.validation == RoutingValidated
              && c.count == |Observed(paths, c.router.id, x.id)| && c.count > 0
    ensures forall r | r in current && Observed(paths, r.id, x.id) != [] ::
              Choice(r, |Observed(paths, r.id, x.id)|, RoutingValidated) in RouterChoices(current, x, IndexOf(paths))
    ensures forall i, j :: 0 <= i < j < |RouterChoices(current, x, IndexOf(paths))| ==>
              RouterChoices(current, x, IndexOf(paths))[i].router.snr >= RouterChoices(current, x, IndexOf(paths))[j].router.snr
  {
    var ev := IndexOf(paths);
    IndexLookup(paths);
    var routers := SortBySnrDesc(current);
    SortBySnrDescSorted(current);
    var r :| r in current && Observed(paths, r.id, x.id) != [];
    SortedMembers(current, r);
    ValidatedComplete(routers, x, ev, r);
    forall c | c in RouterChoices(current, x, ev)
      ensures c.router in current && c.validation == RoutingValidated && c.count == |Observed(paths, c.router.id, x.id)| && c.count > 0
    {
      ValidatedSound(routers, x, ev, c);
      SortedMembers(current, c.router);
    }
    forall r' | r' in current && Observed(paths, r'.id, x.id) != []
      ensures Choice(r', |Observed(paths, r'.id, x.id)|, RoutingValidated) in RouterChoices(current, x, ev)
    {
      SortedMembers(current, r');
      ValidatedComplete(routers, x, ev, r');
    }
    ValidatedOrdered(routers, x, ev);
    if DistinctHopIds(current) {
      RoutedOnce(current, x, paths);
    }
  }

  /** With evidence, the first choice is the best-SNR evidenced router, routing-validated. */
  lemma RoutedHead(current: seq<HopNode>, x: HopNode, paths: seq<RoutingPath>)
    requires exists r :: r in current && Observed(paths, r.id, x.id) != []
    ensures RouterChoices(current, x, IndexOf(paths)) != []
    ensures var c := RouterChoices(current, x, IndexOf(paths))[0];
            && c.router in current && c.validation == RoutingValidated
            && c.count == |Observed(paths, c.router.id, x.id)| > 0
            && forall r | r in current && Observed(paths, r.id, x.id) != [] :: r.snr <= c.router.snr
  {
    RouterChoicesRouted(current, x, paths);
    var cs := RouterChoices(current, x, IndexOf(paths));
    var r :| r in current && Observed(paths, r.id, x.id) != [];
    assert Choice(r, |Observed(paths, r.id, x.id)|, RoutingValidated) in cs;
    assert cs[0] in cs;
    forall r' | r' in current && Observed(paths, r'.id, x.id) != [] ensures r'.snr <= cs[0].router.snr {
      var i :| 0 <= i < |cs| && cs[i] == Choice(r', |Observed(paths, r'.id, x.id)|, RoutingValidated);
      if i > 0 {
        assert cs[0].router.snr >= cs[i].router.snr;
      }
    }
  }

  /** The ids of the routed choices are exactly the evidenced ids. */
  lemma RoutedChoiceIds(current: seq<HopNode>, x: HopNode, paths: seq<RoutingPath>)
    requires exists r :: r in current && Observed(paths, r.id, x.id) != []
    ensures (set c | c in RouterChoices(current, x, IndexOf(paths)) :: c.router.id) == EvidencedIds(current, x, paths)
  {
    var ev := IndexOf(paths);
    IndexLookup(paths);
    var routers := SortBySnrDesc(current);
    var r :| r in current && Observed(paths, r.id, x.id) != [];
    SortedMembers(current, r);
    ValidatedComplete(routers, x, ev, r);
    var cs := RouterChoices(current, x, ev);
    assert cs == ValidatedChoices(routers, x, ev);
    forall id | id in (set c | c in cs :: c.router.id) ensures id in EvidencedIds(current, x, paths) {
      var c :| c in cs && c.router.id == id;
      ValidatedSound(routers, x, ev, c);
      SortedMembers(current, c.router);
    }
    forall id | id in EvidencedIds(current, x, paths) ensures id in (set c | c in cs :: c.router.id) {
      var r' :| r' in current && Observed(paths, r'.id, x.id) != [] && r'.id == id;
      SortedMembers(current, r');
      ValidatedComplete(routers, x, ev, r');
    }
  }

  /** With distinct ids at hop N, each evidenced router is chosen once. */
  lemma RoutedOnce(current: seq<HopNode>, x: HopNode, paths: seq<RoutingPath>)
    requires exists r :: r in current && Observed(paths, r.id, x.id) != []
    requires DistinctHopIds(current)
    ensures forall i, j :: 0 <= i < j < |RouterChoices(current, x, IndexOf(paths))| ==>
              RouterChoices(current, x, IndexOf(paths))[i].router.id != RouterChoices(current, x, IndexOf(paths))[j].router.id
    ensures |RouterChoices(current, x, IndexOf(paths))| == |EvidencedIds(current, x, paths)|
  {
    var ev := IndexOf(paths);
    IndexLookup(paths);
    var routers := SortBySnrDesc(current);
    var r :| r in current && Observed(paths, r.id, x.id) != [];
    SortedMembers(current, r);
    ValidatedComplete(routers, x, ev, r);
    var cs := RouterChoices(current, x, ev);
    assert cs == ValidatedChoices(routers, x, ev);
    SortBySnrDescIds(current);
    ValidatedDistinct(routers, x, ev);
    ChoiceIdsCard(cs);
    RoutedChoiceIds(current, x, paths);
  }

  /** The ids of the routers at hop N with routing evidence toward x. */
  ghost function EvidencedIds(current: seq<HopNode>, x: HopNode, paths: seq<RoutingPath>): set<NodeId> {
    set r | r in current && Observed(paths, r.id, x.id) != [] :: r.id
  }

  /** Taking routers with evidence from a list of distinct ids gives distinct routers. */
  lemma {:induction false} ValidatedDistinct(routers: seq<HopNode>, x: HopNode, ev: RoutingIndex)
    requires DistinctHopIds(routers)
    ensures forall i, j :: 0 <= i < j < |ValidatedChoices(routers, x, ev)| ==>
              ValidatedChoices(routers, x, ev)[i].router.id != ValidatedChoices(routers, x, ev)[j].router.id
  {
    if routers != [] {
      var init := routers[..|routers| - 1];
      var last := routers[|routers| - 1];
      assert forall k :: 0 <= k < |init| ==> init[k] == routers[k];
      ValidatedDistinct(init, x, ev);
      forall c | c in ValidatedChoices(init, x, ev) ensures c.router.id != last.id {
        ValidatedSound(init, x, ev, c);
        var k :| 0 <= k < |init| && init[k] == c.router;
      }
    }
  }

  /** A choice list with distinct router ids has as many ids as choices. */
  lemma {:induction false} ChoiceIdsCard(cs: seq<Choice>)
    requires forall i, j :: 0 <= i < j < |cs| ==> cs[i].router.id != cs[j].router.id
    ensures |set c | c in cs :: c.router.id| == |cs|
  {
    if cs != [] {
      var init := cs[..|cs| - 1];
      var last := cs[|cs| - 1];
      assert forall k :: 0 <= k < |init| ==> init[k] == cs[k];
      ChoiceIdsCard(init);
      assert cs == init + [last];
      assert (set c | c in cs :: c.router.id) == (set c | c in init :: c.router.id) + {last.router.id};
      assert last.router.id !in (set c | c in init :: c.router.id);
    }
  }

  /** Without any routing evidence toward x, exactly one router is chosen: the
      best-SNR one at hop N, the first of them when several tie, as an SNR heuristic when its SNR beats -10 and as a
      best guess otherwise, with evidence count 0. */
  lemma RouterChoicesFallback(current: seq<HopNode>, x: HopNode, paths: seq<RoutingPath>)
    requires current != []
    requires forall r | r in current :: Observed(paths, r.id, x.id) == []
    ensures |RouterChoices(current, x, IndexOf(paths))| == 1
    ensures RouterChoices(current, x, IndexOf(paths))[0].router in current
    ensures forall r | r in current :: r.snr <= RouterChoices(current, x, IndexOf(paths))[0].router.snr
    ensures exists i :: 0 <= i < |current| && current[i] == RouterChoices(current, x, IndexOf(paths))[0].router
                        && forall k :: 0 <= k < i ==> current[k].snr < current[i].snr
    ensures RouterChoices(current, x, IndexOf(paths))[0].count == 0
    ensures RouterChoices(current, x, IndexOf(paths))[0].validation
            == (if RouterChoices(current, x, IndexOf(paths))[0].router.snr > GOOD_ROUTER_SNR then SnrHeuristic else BestGuess)
  {
    var ev := IndexOf(paths);
    IndexLookup(paths);
    var routers := SortBySnrDesc(current);
    SortBySnrDescSorted(current);
    forall r | r in routers ensures Lookup(ev, r.id, x.id) == [] {
      SortedMembers(current, r);
    }
    ValidatedNone(routers, x, ev);
    SortedHeadIsBest(current);
    GoodRoutersHead(routers);
    var i := SortedHeadFirst(current);
  }

  lemma RouterChoicesInCurrent(current: seq<HopNode>, x: HopNode, ev: RoutingIndex, c: Choice)
    requires c in RouterChoices(current, x, ev)
    ensures c.router in current
  {
    var routers := SortBySnrDesc(current);
    if ValidatedChoices(routers, x, ev) != [] {
      ValidatedSound(routers, x, ev, c);
      SortedMembers(current, c.router);
    } else if GoodRouters(routers) != [] {
      GoodRoutersSound(routers, GoodRouters(routers)[0]);
      SortedMembers(current, c.router);
    } else {
      SortedMembers(current, c.router);
    }
  }

  lemma {:induction false} GoodRoutersSound(routers: seq<HopNode>, r: HopNode)
    requires r in GoodRouters(routers)
    ensures r in routers && r.snr > GOOD_ROUTER_SNR
  {
    var init := routers[..|routers| - 1];
    if r in GoodRouters(init) {
      GoodRoutersSound(init, r);
      assert r in routers;
    }
  }

  // ---------------------------------------------------------------------------
  // Step 4: hop links
  // ---------------------------------------------------------------------------

  /** The target and choice a level candidate was built from. */
  lemma {:induction false} LevelOrigin(current: seq<HopNode>, nexts: seq<HopNode>, level: int, ev: RoutingIndex, now: string, l: Link)
    returns (x: HopNode, c: Choice)
    requires l in LevelCandidates(current, nexts, level, ev, now)
    ensures x in nexts && c in Top2(RouterChoices(current, x, ev)) && l == HopLink(c, x, level, now)
  {
    var init := nexts[..|nexts| - 1];
    if l in LevelCandidates(current, init, level, ev, now) {
      x, c := LevelOrigin(current, init, level, ev, now, l);
    } else {
      x := nexts[|nexts| - 1];
      var cs := Top2(RouterChoices(current, x, ev));
      var k :| 0 <= k < |cs| && TargetCandidates(current, x, level, ev, now)[k] == l;
      c := cs[k];
    }
  }

  /** The level, target and choice a hop candidate was built from. */
  lemma HopOrigin(nodes: seq<NodeEntry>, ev: RoutingIndex, now: string, upTo: int, l: Link)
    returns (level: int, x: HopNode, c: Choice)
    requires l in HopCandidates(nodes, ev, now, upTo)
    ensures 1 <= level < upTo && x in AtHop(nodes, level + 1)
    ensures c in Top2(RouterChoices(AtHop(nodes, level), x, ev)) && l == HopLink(c, x, level, now)
  {
    level := FirstLevel(nodes, ev, now, upTo, l);
    NewAtLevel(nodes, ev, now, level, l);
    x, c := LastLevelOrigin(nodes, ev, now, level, l);
  }

  /** The first level whose candidates contain l. */
  lemma FirstLevel(nodes: seq<NodeEntry>, ev: RoutingIndex, now: string, upTo: int, l: Link)
    returns (level: int)
    requires l in HopCandidates(nodes, ev, now, upTo)
    ensures 1 <= level < upTo
    ensures l in HopCandidates(nodes, ev, now, level + 1) && l !in HopCandidates(nodes, ev, now, level)
  {
    assert HopCandidates(nodes, ev, now, 1) == [];
    assert upTo >= 1;
    level := FirstStep(k => l in HopCandidates(nodes, ev, now, k), upTo);
  }

  /** A property that fails at 1 and holds at hi first holds at some k + 1 <= hi. */
  lemma FirstStep(p: int -> bool, hi: int) returns (k: int)
    requires 1 <= hi && p(hi) && !p(1)
    ensures 1 <= k < hi && p(k + 1) && !p(k)
  {
    k := hi - 1;
    while p(k)
      invariant 1 <= k < hi && p(k + 1)
      decreases k
    {
      k := k - 1;
    }
  }

  /** A hop candidate that is new at a level comes from that level's candidates. */
  lemma NewAtLevel(nodes: seq<NodeEntry>, ev: RoutingIndex, now: string, level: int, l: Link)
    requires level >= 1
    requires l in HopCandidates(nodes, ev, now, level + 1) && l !in HopCandidates(nodes, ev, now, level)
    ensures l in LevelCandidates(AtHop(nodes, level), AtHop(nodes, level + 1), level, ev, now)
  {
  }

  lemma LastLevelOrigin(nodes: seq<NodeEntry>, ev: RoutingIndex, now: string, level: int, l: Link)
    returns (x: HopNode, c: Choice)
    requires l in LevelCandidates(AtHop(nodes, level), AtHop(nodes, level + 1), level, ev, now)
    ensures x in AtHop(nodes, level + 1)
    ensures c in Top2(RouterChoices(AtHop(nodes, level), x, ev)) && l == HopLink(c, x, level, now)
  {
    x, c := LevelOrigin(AtHop(nodes, level), AtHop(nodes, level + 1), level, ev, now, l);
  }

  /** Every router choice kept for a target at the next level has its candidate. */
  lemma {:induction false} LevelHas(current: seq<HopNode>, nexts: seq<HopNode>, level: int, ev: RoutingIndex, now: string,
                                    x: HopNode, c: Choice)
    requires x in nexts && c in Top2(RouterChoices(current, x, ev))
    ensures HopLink(c, x, level, now) in LevelCandidates(current, nexts, level, ev, now)
  {
    var init := nexts[..|nexts| - 1];
    if x == nexts[|nexts| - 1] {
      var cs := Top2(RouterChoices(current, x, ev));
      var k :| 0 <= k < |cs| && cs[k] == c;
      assert TargetCandidates(current, x, level, ev, now)[k] == HopLink(c, x, level, now);
    } else {
      assert x in init by {
        var k :| 0 <= k < |nexts| && nexts[k] == x;
        assert init[k] == x;
      }
      LevelHas(current, init, level, ev, now, x, c);
    }
  }

  /** A kept router choice for a target at hop level+1 is among that level's links. */
  lemma LevelLinksHas(nodes: seq<NodeEntry>, ev: RoutingIndex, now: string, level: int, x: HopNode, c: Choice)
    requires x in AtHop(nodes, level + 1)
    requires c in Top2(RouterChoices(AtHop(nodes, level), x, ev))
    ensures HopLink(c, x, level, now) in LevelLinks(nodes, ev, now, level)
  {
    var cs := RouterChoices(AtHop(nodes, level), x, ev);
    assert c in cs by {
      var k :| 0 <= k < |Top2(cs)| && Top2(cs)[k] == c;
      assert cs[k] == c;
    }
    RouterChoicesInCurrent(AtHop(nodes, level), x, ev, c);
    LevelHas(AtHop(nodes, level), AtHop(nodes, level + 1), level, ev, now, x, c);
  }

  /** The hop candidates up to a bound begin with those up to any smaller bound. */
  lemma {:induction false} HopCandidatesPrefix(nodes: seq<NodeEntry>, ev: RoutingIndex, now: string, a: int, b: int)
    requires a <= b
    ensures HopCandidates(nodes, ev, now, a) <= HopCandidates(nodes, ev, now, b)
    decreases b - a
  {
    if a < b {
      HopCandidatesPrefix(nodes, ev, now, a, b - 1);
      if b > 1 {
        var before := HopCandidates(nodes, ev, now, b - 1);
        assert HopCandidates(nodes, ev, now, b) == before + LevelLinks(nodes, ev, now, b - 1);
        assert before <= HopCandidates(nodes, ev, now, b);
      }
    }
  }

  /** A level's links are among the hop candidates of the next bound. */
  lemma LevelInNext(nodes: seq<NodeEntry>, ev: RoutingIndex, now: string, level: int, h: Link)
    requires 1 <= level && h in LevelLinks(nodes, ev, now, level)
    ensures h in HopCandidates(nodes, ev, now, level + 1)
  {
  }

  /** A hop candidate stays one under every larger bound. */
  lemma HopsGrow(nodes: seq<NodeEntry>, ev: RoutingIndex, now: string, a: int, b: int, h: Link)
    requires a <= b && h in HopCandidates(nodes, ev, now, a)
    ensures h in HopCandidates(nodes, ev, now, b)
  {
    HopCandidatesPrefix(nodes, ev, now, a, b);
    var k :| 0 <= k < |HopCandidates(nodes, ev, now, a)| && HopCandidates(nodes, ev, now, a)[k] == h;
    assert HopCandidates(nodes, ev, now, b)[k] == h;
  }

  /** A level's links are among the hop candidates of every later bound. */
  lemma LevelInHops(nodes: seq<NodeEntry>, ev: RoutingIndex, now: string, upTo: int, level: int, h: Link)
    requires 1 <= level < upTo && h in LevelLinks(nodes, ev, now, level)
    ensures h in HopCandidates(nodes, ev, now, upTo)
  {
    LevelInNext(nodes, ev, now, level, h);
    HopsGrow(nodes, ev, now, level + 1, upTo, h);
  }

  /** Step 4 is complete: for every level 1 <= N < upTo, every target x at hop
      N+1 and every router choice `[:2]` keeps for it, the hop link from that
      router to x is a candidate. */
  lemma HopCandidatesHas(nodes: seq<NodeEntry>, ev: RoutingIndex, now: string, upTo: int,
                         level: int, x: HopNode, c: Choice)
    requires 1 <= level < upTo && x in AtHop(nodes, level + 1)
    requires c in Top2(RouterChoices(AtHop(nodes, level), x, ev))
    ensures HopLink(c, x, level, now) in HopCandidates(nodes, ev, now, upTo)
  {
    LevelLinksHas(nodes, ev, now, level, x, c);
    LevelInHops(nodes, ev, now, upTo, level, HopLink(c, x, level, now));
  }

  /** The confidence of a hop link: high when routing-validated, medium for the
      SNR heuristic with a router SNR above 0, low otherwise. */
  lemma HopLinkConfidence(c: Choice, x: HopNode, level: int, now: string)
    ensures var l := HopLink(c, x, level, now);
            && (l.confidence == High <==> l.evidence == Some(ROUTING_VALIDATED))
            && (l.confidence == Medium <==> l.evidence == Some(SNR_HEURISTIC) && c.router.snr > 0.0)
            && (l.confidence == Low <==> l.evidence != Some(ROUTING_VALIDATED)
                                         && !(l.evidence == Some(SNR_HEURISTIC) && c.router.snr > 0.0))
            && l.routerSnr == Some(c.router.snr)
  {
    assert ROUTING_VALIDATED != SNR_HEURISTIC && ROUTING_VALIDATED != BEST_GUESS && SNR_HEURISTIC != BEST_GUESS by {
      assert ROUTING_VALIDATED[0] != SNR_HEURISTIC[0] && ROUTING_VALIDATED[0] != BEST_GUESS[0] && SNR_HEURISTIC[0] != BEST_GUESS[0];
    }
  }

  /** Every hop candidate goes from a node at some hop N (1 <= N < upTo) to a
      node at hop N+1, has the confidence its validation and router SNR give, and
      carries the target's SNR, the router's SNR and the total hop count N+1. */
  lemma HopSound(nodes: seq<NodeEntry>, ev: RoutingIndex, now: string, upTo: int, l: Link)
    returns (level: int, router: HopNode, target: HopNode)
    requires l in HopCandidates(nodes, ev, now, upTo)
    ensures l.kind == InferredHop && l.hopsAway == Some(1)
    ensures l.confidence == High <==> l.evidence == Some(ROUTING_VALIDATED)
    ensures l.confidence == Medium <==> l.evidence == Some(SNR_HEURISTIC) && router.snr > 0.0
    ensures l.confidence == Low <==> l.evidence != Some(ROUTING_VALIDATED)
                                     && !(l.evidence == Some(SNR_HEURISTIC) && router.snr > 0.0)
    ensures 1 <= level < upTo && l.totalHops == Some(level + 1)
    ensures router in AtHop(nodes, level) && l.from == router.id && l.routerSnr == Some(router.snr)
    ensures target in AtHop(nodes, level + 1) && l.to == target.id && l.snr == target.snr
  {
    var c;
    level, target, c := HopOrigin(nodes, ev, now, upTo, l);
    RouterChoicesInCurrent(AtHop(nodes, level), target, ev, c);
    HopLinkConfidence(c, target, level, now);
    router := c.router;
  }

  /** The routers step 4 may pick for node e: the chosen routers of e's level. */
  ghost function RoutersInto(nodes: seq<NodeEntry>, ev: RoutingIndex, e: NodeEntry): set<NodeId> {
    var cs := Top2(RouterChoices(AtHop(nodes, HopsOrMinusOne(e.info) - 1), HopNodeOf(e), ev));
    set c | c in cs :: c.router.id
  }

  lemma {:induction false} RouterIdsAtMost(cs: seq<Choice>)
    ensures |set c | c in cs :: c.router.id| <= |cs|
  {
    if cs != [] {
      var init := cs[..|cs| - 1];
      RouterIdsAtMost(init);
      assert (set c | c in cs :: c.router.id) == (set c | c in init :: c.router.id) + {cs[|cs| - 1].router.id};
    }
  }

  lemma RoutersIntoAtMostTwo(nodes: seq<NodeEntry>, ev: RoutingIndex, e: NodeEntry)
    ensures |RoutersInto(nodes, ev, e)| <= 2
  {
    RouterIdsAtMost(Top2(RouterChoices(AtHop(nodes, HopsOrMinusOne(e.info) - 1), HopNodeOf(e), ev)));
  }

  /** With unique node ids, every hop candidate into node e comes from one of
      the routers chosen for e. */
  lemma HopInto(nodes: seq<NodeEntry>, ev: RoutingIndex, now: string, upTo: int, e: NodeEntry, l: Link)
    requires DistinctIds(nodes) && e in nodes
    requires l in HopCandidates(nodes, ev, now, upTo) && l.to == e.id
    ensures l.from in RoutersInto(nodes, ev, e)
  {
    var level, x, c := HopOrigin(nodes, ev, now, upTo, l);
    AtHopMember(nodes, level + 1, x);
    var k :| 0 <= k < |nodes| && HopsOrMinusOne(nodes[k].info) == level + 1 && HopNodeOf(nodes[k]) == x;
    SameIdSameEntry(nodes, nodes[k], e);
    ChosenRouter(nodes, ev, e, level, x, c);
  }

  lemma ChosenRouter(nodes: seq<NodeEntry>, ev: RoutingIndex, e: NodeEntry, level: int, x: HopNode, c: Choice)
    requires HopsOrMinusOne(e.info) - 1 == level && HopNodeOf(e) == x
    requires c in Top2(RouterChoices(AtHop(nodes, level), x, ev))
    ensures c.router.id in RoutersInto(nodes, ev, e)
  {
  }
}
