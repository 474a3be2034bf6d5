/** The evidence extractor of meshnetmap/inference.py: the routing-observation
    index keyed by ordered (from, to) and the GPS co-location groups. */
module Evidence {
  import opened Common
  import opened Records

  // ---------------------------------------------------------------------------
  // Routing evidence
  // ---------------------------------------------------------------------------

  /** One observed packet between two nodes: its type, hop count and time. */
  datatype Observation = Observation(packetType: string, hops: int, timestamp: Option<string>)

  /** `routing_evidence[from][to]` */
  type RoutingIndex = map<NodeId, map<NodeId, seq<Observation>>>

  function ObservationOf(p: RoutingPath): Observation {
    Observation(p.packetType.GetOr("unknown"), p.hopsAway.GetOr(0), p.timestamp)
  }

  /** `if from_node and to_node` */
  predicate Usable(p: RoutingPath) {
    TruthyId(p.from) && TruthyId(p.to)
  }

  /** The observations from `a` to `b`; none when either key is missing. */
  function Lookup(ev: RoutingIndex, a: NodeId, b: NodeId): seq<Observation> {
    if a in ev && b in ev[a] then ev[a][b] else []
  }

  /** One step of the extraction loop: append the observation under its ordered pair. */
  function AddObservation(ev: RoutingIndex, p: RoutingPath): RoutingIndex {
    if Usable(p) then
      var a := p.from.value;
      var b := p.to.value;
      var inner := if a in ev then ev[a] else map[];
      var old_ := if b in inner then inner[b] else [];
      ev[a := inner[b := old_ + [ObservationOf(p)]]]
    else ev
  }

  /** The index the loop builds after the given records, in order. */
  function IndexOf(paths: seq<RoutingPath>): RoutingIndex {
    if paths == [] then map[]
    else AddObservation(IndexOf(paths[..|paths| - 1]), paths[|paths| - 1])
  }

  /** The observations recorded for the ordered pair (a, b): every usable record
      with exactly those ids, in input order. */
  function Observed(paths: seq<RoutingPath>, a: NodeId, b: NodeId): seq<Observation> {
    if paths == [] then []
    else
      var p := paths[|paths| - 1];
      Observed(paths[..|paths| - 1], a, b)
        + (if Usable(p) && p.from.value == a && p.to.value == b then [ObservationOf(p)] else [])
  }

  /** `extract_routing_evidence`: groups the records by ordered (from, to). */
  method ExtractRoutingEvidence(routingPaths: Option<seq<RoutingPath>>) returns (ev: RoutingIndex)
    ensures ev == IndexOf(routingPaths.GetOr([]))
  {
    var paths := routingPaths.GetOr([]);
    if paths == [] {
      return map[];
    }
    ev := map[];
    var i := 0;
    while i < |paths|
      invariant 0 <= i <= |paths|
      invariant ev == IndexOf(paths[..i])
    {
      assert paths[..i + 1][..i] == paths[..i];
      var p := paths[i];
      ghost var before := ev;
      if TruthyId(p.from) && TruthyId(p.to) {
        var a, b := p.from.value, p.to.value;
        if a !in ev {
          ev := ev[a := map[]];
        }
        if b !in ev[a] {
          ev := ev[a := ev[a][b := []]];
        }
        ev := ev[a := ev[a][b := ev[a][b] + [ObservationOf(p)]]];
        assert ev[a] == (if a in before then before[a] else map[])[b := (if a in before && b in before[a] then before[a][b] else []) + [ObservationOf(p)]];
      }
      assert ev == AddObservation(before, p);
      i := i + 1;
    }
    assert paths[..i] == paths;
  }

  /** Looking a pair up in the index yields exactly the observations of that
      ordered pair, and the index holds no empty entry. */
  lemma {:induction false} IndexLookup(paths: seq<RoutingPath>)
    ensures forall a, b :: Lookup(IndexOf(paths), a, b) == Observed(paths, a, b)
    ensures forall a | a in IndexOf(paths) :: forall b | b in IndexOf(paths)[a] :: IndexOf(paths)[a][b] != []
  {
    if paths != [] {
      IndexLookup(paths[..|paths| - 1]);
    }
  }

  /** Observations of a concatenation are the observations of the parts, in order. */
  lemma {:induction false} ObservedConcat(p1: seq<RoutingPath>, p2: seq<RoutingPath>, a: NodeId, b: NodeId)
    ensures Observed(p1 + p2, a, b) == Observed(p1, a, b) + Observed(p2, a, b)
  {
    if p2 != [] {
      assert (p1 + p2)[..|p1 + p2| - 1] == p1 + p2[..|p2| - 1];
      ObservedConcat(p1, p2[..|p2| - 1], a, b);
    } else {
      assert p1 + p2 == p1;
    }
  }

  /** Each observation of (a, b) comes from a usable record with those ids. */
  lemma {:induction false} ObservedSound(paths: seq<RoutingPath>, a: NodeId, b: NodeId, o: Observation)
    requires o in Observed(paths, a, b)
    ensures exists k :: 0 <= k < |paths| && Usable(paths[k]) && paths[k].from.value == a
                        && paths[k].to.value == b && ObservationOf(paths[k]) == o
  {
    var init := paths[..|paths| - 1];
    if o in Observed(init, a, b) {
      ObservedSound(init, a, b, o);
      var k :| 0 <= k < |init| && Usable(init[k]) && init[k].from.value == a
               && init[k].to.value == b && ObservationOf(init[k]) == o;
      assert paths[k] == init[k];
    } else {
      assert paths[|paths| - 1].from.value == a;
    }
  }

  /** A record with a usable pair of ids is always kept under its pair. */
  lemma {:induction false} ObservedComplete(paths: seq<RoutingPath>, k: int)
    requires 0 <= k < |paths| && Usable(paths[k])
    ensures ObservationOf(paths[k]) in Observed(paths, paths[k].from.value, paths[k].to.value)
  {
    var init := paths[..|paths| - 1];
    if k < |paths| - 1 {
      assert init[k] == paths[k];
      ObservedComplete(init, k);
    }
  }

  // ---------------------------------------------------------------------------
  // GPS co-location
  // ---------------------------------------------------------------------------

  /** `(round(lat, 4), round(lon, 4))` in units of 1e-4 degree. */
  type LocKey = (int, int)

  /** `round(x, 4)` of a coordinate given in 1e-7 degree: to the nearest multiple
      of 1000, halves to the even neighbour (Python's rounding rule). */
  function Round4(x: int): (r: int)
    ensures (r * 1000 - x) <= 500 && (x - r * 1000) <= 500
  {
    var q := x / 1000;
    var rem := x % 1000;
    if rem < 500 then q
    else if rem > 500 then q + 1
    else if q % 2 == 0 then q else q + 1
  }

  /** `if lat and lon`: both coordinates present and neither equal to 0. */
  predicate Located(e: NodeEntry) {
    var pos := e.info.position.GetOr(Position(None, None));
    pos.latitude.Some? && pos.latitude.value != 0 && pos.longitude.Some? && pos.longitude.value != 0
  }

  function KeyOf(e: NodeEntry): LocKey
    requires Located(e)
  {
    var pos := e.info.position.GetOr(Position(None, None));
    (Round4(pos.latitude.value), Round4(pos.longitude.value))
  }

  /** `location_map[k]`: the located nodes rounding to k, in iteration order. */
  function MembersAt(nodes: seq<NodeEntry>, k: LocKey): seq<NodeEntry> {
    if nodes == [] then []
    else
      var e := nodes[|nodes| - 1];
      MembersAt(nodes[..|nodes| - 1], k) + (if Located(e) && KeyOf(e) == k then [e] else [])
  }

  /** The keys of `location_map`, in the order they were first inserted. */
  function FirstKeys(nodes: seq<NodeEntry>): seq<LocKey> {
    if nodes == [] then []
    else
      var e := nodes[|nodes| - 1];
      var ks := FirstKeys(nodes[..|nodes| - 1]);
      if Located(e) && KeyOf(e) !in ks then ks + [KeyOf(e)] else ks
  }

  /** A co-location group: a rounded key and the nodes there. */
  type Group = (LocKey, seq<NodeEntry>)

  /** The groups of the given keys that hold more than one node. */
  function GroupsOf(keys: seq<LocKey>, nodes: seq<NodeEntry>): seq<Group> {
    if keys == [] then []
    else
      var k := keys[|keys| - 1];
      GroupsOf(keys[..|keys| - 1], nodes) + (if |MembersAt(nodes, k)| > 1 then [(k, MembersAt(nodes, k))] else [])
  }

  function Colocated(nodes: seq<NodeEntry>): seq<Group> {
    GroupsOf(FirstKeys(nodes), nodes)
  }

  lemma MembersAtSnoc(nodes: seq<NodeEntry>, i: int)
    requires 0 <= i < |nodes|
    ensures nodes[..i + 1][..i] == nodes[..i]
    ensures forall k :: MembersAt(nodes[..i + 1], k)
                        == MembersAt(nodes[..i], k) + (if Located(nodes[i]) && KeyOf(nodes[i]) == k then [nodes[i]] else [])
  {
    assert nodes[..i + 1][..i] == nodes[..i];
  }

  /** `find_colocated_nodes`: the location map, then its groups of two or more. */
  method FindColocatedNodes(nodes: seq<NodeEntry>) returns (colocated: seq<Group>)
    ensures colocated == Colocated(nodes)
  {
    var order, locationMap := BuildLocationMap(nodes);
    colocated := [];
    var j := 0;
    while j < |order|
      invariant 0 <= j <= |order|
      invariant colocated == GroupsOf(order[..j], nodes)
    {
      assert order[..j + 1][..j] == order[..j];
      var key := order[j];
      if |locationMap[key]| > 1 {
        colocated := colocated + [(key, locationMap[key])];
      }
      j := j + 1;
    }
    assert order[..j] == order;
  }

  /** The first loop of `find_colocated_nodes`: `location_map` and the order in
      which its keys were inserted. */
  method BuildLocationMap(nodes: seq<NodeEntry>) returns (order: seq<LocKey>, locationMap: map<LocKey, seq<NodeEntry>>)
    ensures order == FirstKeys(nodes)
    ensures forall k :: k in locationMap <==> k in order
    ensures forall k | k in locationMap :: locationMap[k] == MembersAt(nodes, k)
  {
    order, locationMap := [], map[];
    var i := 0;
    while i < |nodes|
      invariant 0 <= i <= |nodes|
      invariant order == FirstKeys(nodes[..i])
      invariant forall k :: k in locationMap <==> k in order
      invariant forall k | k in locationMap :: locationMap[k] == MembersAt(nodes[..i], k)
      invariant forall k :: k !in locationMap ==> MembersAt(nodes[..i], k) == []
    {
      MembersAtSnoc(nodes, i);
      var e := nodes[i];
      if Located(e) {
        var key := KeyOf(e);
        if key !in locationMap {
          locationMap := locationMap[key := []];
          order := order + [key];
        }
        locationMap := locationMap[key := locationMap[key] + [e]];
      }
      i := i + 1;
    }
    assert nodes[..i] == nodes;
  }

  lemma {:induction false} MembersAtSound(nodes: seq<NodeEntry>, k: LocKey, e: NodeEntry)
    requires e in MembersAt(nodes, k)
    ensures e in nodes && Located(e) && KeyOf(e) == k
  {
    var init := nodes[..|nodes| - 1];
    if e in MembersAt(init, k) {
      MembersAtSound(init, k, e);
    }
  }

  lemma {:induction false} MembersAtComplete(nodes: seq<NodeEntry>, e: NodeEntry)
    requires e in nodes && Located(e)
    ensures e in MembersAt(nodes, KeyOf(e))
  {
    var init := nodes[..|nodes| - 1];
    if e != nodes[|nodes| - 1] {
      assert e in init by {
        var k :| 0 <= k < |nodes| && nodes[k] == e;
        assert init[k] == e;
      }
      MembersAtComplete(init, e);
    }
  }

  lemma {:induction false} FirstKeysComplete(nodes: seq<NodeEntry>, e: NodeEntry)
    requires e in nodes && Located(e)
    ensures KeyOf(e) in FirstKeys(nodes)
  {
    var init := nodes[..|nodes| - 1];
    if e != nodes[|nodes| - 1] {
      assert e in init by {
        var k :| 0 <= k < |nodes| && nodes[k] == e;
        assert init[k] == e;
      }
      FirstKeysComplete(init, e);
    }
  }

  lemma {:induction false} FirstKeysDistinct(nodes: seq<NodeEntry>)
    ensures Distinct(FirstKeys(nodes))
  {
    if nodes != [] {
      FirstKeysDistinct(nodes[..|nodes| - 1]);
    }
  }

  lemma {:induction false} GroupsOfSound(keys: seq<LocKey>, nodes: seq<NodeEntry>, g: Group)
    requires g in GroupsOf(keys, nodes)
    ensures g.0 in keys && g.1 == MembersAt(nodes, g.0) && |g.1| >= 2
  {
    var init := keys[..|keys| - 1];
    if g in GroupsOf(init, nodes) {
      GroupsOfSound(init, nodes, g);
    }
  }

  lemma {:induction false} GroupsOfComplete(keys: seq<LocKey>, nodes: seq<NodeEntry>, k: LocKey)
    requires k in keys && |MembersAt(nodes, k)| >= 2
    ensures (k, MembersAt(nodes, k)) in GroupsOf(keys, nodes)
  {
    var init := keys[..|keys| - 1];
    if k != keys[|keys| - 1] {
      assert k in init by {
        var i :| 0 <= i < |keys| && keys[i] == k;
        assert init[i] == k;
      }
      GroupsOfComplete(init, nodes, k);
    }
  }

  lemma {:induction false} GroupsOfDistinct(keys: seq<LocKey>, nodes: seq<NodeEntry>)
    requires Distinct(keys)
    ensures forall i, j :: 0 <= i < j < |GroupsOf(keys, nodes)| ==> GroupsOf(keys, nodes)[i].0 != GroupsOf(keys, nodes)[j].0
  {
    if keys != [] {
      var init := keys[..|keys| - 1];
      var k := keys[|keys| - 1];
      assert Distinct(init) by {
        forall i, j | 0 <= i < j < |init| ensures init[i] != init[j] {
          assert init[i] == keys[i] && init[j] == keys[j];
        }
      }
      GroupsOfDistinct(init, nodes);
      forall g | g in GroupsOf(init, nodes) ensures g.0 != k {
        GroupsOfSound(init, nodes, g);
        var i :| 0 <= i < |init| && init[i] == g.0;
        assert keys[i] == init[i];
      }
    }
  }

  /** Every co-location group holds at least two nodes, all present in the
      input, all with truthy coordinates that round to the group's key. */
  lemma ColocatedSound(nodes: seq<NodeEntry>, g: Group, e: NodeEntry)
    requires g in Colocated(nodes)
    ensures |g.1| >= 2
    ensures e in g.1 ==> e in nodes && Located(e) && KeyOf(e) == g.0
  {
    GroupsOfSound(FirstKeys(nodes), nodes, g);
    if e in g.1 {
      MembersAtSound(nodes, g.0, e);
    }
  }

  /** A located node is reported exactly when another located node shares its
      rounded key; groups have pairwise different keys. */
  lemma ColocatedComplete(nodes: seq<NodeEntry>, e: NodeEntry)
    requires e in nodes && Located(e) && |MembersAt(nodes, KeyOf(e))| >= 2
    ensures (KeyOf(e), MembersAt(nodes, KeyOf(e))) in Colocated(nodes)
    ensures e in MembersAt(nodes, KeyOf(e))
  {
    FirstKeysComplete(nodes, e);
    GroupsOfComplete(FirstKeys(nodes), nodes, KeyOf(e));
    MembersAtComplete(nodes, e);
  }

  lemma ColocatedKeysDistinct(nodes: seq<NodeEntry>)
    ensures forall i, j :: 0 <= i < j < |Colocated(nodes)| ==> Colocated(nodes)[i].0 != Colocated(nodes)[j].0
  {
    FirstKeysDistinct(nodes);
    GroupsOfDistinct(FirstKeys(nodes), nodes);
  }

  /** A node without truthy coordinates is never part of a group. */
  lemma UnlocatedNeverGrouped(nodes: seq<NodeEntry>, g: Group, e: NodeEntry)
    requires g in Colocated(nodes) && !Located(e)
    ensures e !in g.1
  {
    if e in g.1 {
      ColocatedSound(nodes, g, e);
    }
  }
}
