/** The `nodes_by_hop` table that all hop-distance inference variants build
    (meshnetmap/inference.py, infer_connections_v2.py and the collector), the
    largest hop distance, and the SNR-descending router order they use. */
module HopTable {
  import opened Common
  import opened Records

  /** A node of one hop level with its SNR (-100 when the record has none). */
  datatype HopNode = HopNode(id: NodeId, snr: real)

  const MISSING_SNR: real := -100.0

  function HopNodeOf(e: NodeEntry): HopNode {
    HopNode(e.id, e.info.snr.GetOr(MISSING_SNR))
  }

  /** The nodes at hop distance h, in iteration order (`nodes_by_hop[h]`). */
  function AtHop(nodes: seq<NodeEntry>, h: int): (r: seq<HopNode>)
    ensures |r| <= |nodes|
  {
    if nodes == [] then []
    else
      var last := nodes[|nodes| - 1];
      AtHop(nodes[..|nodes| - 1], h) + (if HopsOrMinusOne(last.info) == h then [HopNodeOf(last)] else [])
  }

  lemma {:induction false} AtHopMember(nodes: seq<NodeEntry>, h: int, x: HopNode)
    ensures x in AtHop(nodes, h) <==> exists k :: 0 <= k < |nodes| && HopsOrMinusOne(nodes[k].info) == h && HopNodeOf(nodes[k]) == x
  {
    if nodes != [] {
      var init := nodes[..|nodes| - 1];
      AtHopMember(init, h, x);
      if x in AtHop(init, h) {
        var k :| 0 <= k < |init| && HopsOrMinusOne(init[k].info) == h && HopNodeOf(init[k]) == x;
        assert nodes[k] == init[k];
      }
      forall k | 0 <= k < |init| ensures nodes[k] == init[k] { }
    }
  }

  /** With unique ids, the nodes at one hop distance have unique ids too. */
  lemma {:induction false} AtHopDistinct(nodes: seq<NodeEntry>, h: int)
    requires DistinctIds(nodes)
    ensures forall i, j :: 0 <= i < j < |AtHop(nodes, h)| ==> AtHop(nodes, h)[i].id != AtHop(nodes, h)[j].id
  {
    if nodes != [] {
      var init := nodes[..|nodes| - 1];
      var last := nodes[|nodes| - 1];
      AtHopDistinct(init, h);
      forall x | x in AtHop(init, h) ensures x.id != last.id {
        AtHopMember(init, h, x);
        var k :| 0 <= k < |init| && HopsOrMinusOne(init[k].info) == h && HopNodeOf(init[k]) == x;
        assert init[k] == nodes[k];
      }
    }
  }

  /** Ids on two different hop distances never coincide when node ids are unique. */
  lemma AtHopDisjoint(nodes: seq<NodeEntry>, h1: int, h2: int, x: HopNode, y: HopNode)
    requires DistinctIds(nodes)
    requires h1 != h2 && x in AtHop(nodes, h1) && y in AtHop(nodes, h2)
    ensures x.id != y.id
  {
    AtHopMember(nodes, h1, x);
    AtHopMember(nodes, h2, y);
  }

  /** `byHop` is the `nodes_by_hop` table of `nodes`. */
  ghost predicate HopTableOf(byHop: map<int, seq<HopNode>>, nodes: seq<NodeEntry>) {
    && (forall h :: h in byHop <==> h >= 0 && AtHop(nodes, h) != [])
    && (forall h | h in byHop :: byHop[h] == AtHop(nodes, h))
  }

  /** Builds `nodes_by_hop`: every node whose `hopsAway` (missing counts as -1) is
      not negative, grouped by that value, each group in iteration order. */
  method GroupByHop(nodes: seq<NodeEntry>) returns (byHop: map<int, seq<HopNode>>)
    ensures forall h :: h in byHop <==> h >= 0 && AtHop(nodes, h) != []
    ensures forall h | h in byHop :: byHop[h] == AtHop(nodes, h)
    ensures |byHop| == 0 <==> MaxHop(nodes) < 0
  {
    byHop := map[];
    var i := 0;
    while i < |nodes|
      invariant 0 <= i <= |nodes|
      invariant forall h :: h in byHop <==> h >= 0 && AtHop(nodes[..i], h) != []
      invariant forall h | h in byHop :: byHop[h] == AtHop(nodes[..i], h)
      invariant |byHop| == 0 <==> MaxHop(nodes[..i]) < 0
    {
      assert nodes[..i + 1][..i] == nodes[..i];
      var hops := HopsOrMinusOne(nodes[i].info);
      if hops >= 0 {
        if hops !in byHop {
          byHop := byHop[hops := []];
        }
        byHop := byHop[hops := byHop[hops] + [HopNodeOf(nodes[i])]];
      }
      i := i + 1;
    }
    assert nodes[..i] == nodes;
  }

  /** `max(nodes_by_hop.keys())`, or -1 when no node has a known hop distance. */
  function MaxHop(nodes: seq<NodeEntry>): (m: int)
    ensures m >= -1
    ensures forall k :: 0 <= k < |nodes| ==> HopsOrMinusOne(nodes[k].info) <= m || HopsOrMinusOne(nodes[k].info) < 0
  {
    if nodes == [] then -1
    else
      var h := HopsOrMinusOne(nodes[|nodes| - 1].info);
      var m := MaxHop(nodes[..|nodes| - 1]);
      assert forall k :: 0 <= k < |nodes| - 1 ==> nodes[k] == nodes[..|nodes| - 1][k];
      if h > m then h else m
  }

  /** The largest hop distance is one that occurs, and no occurring distance exceeds it. */
  lemma {:induction false} MaxHopIsMax(nodes: seq<NodeEntry>)
    ensures MaxHop(nodes) >= 0 <==> exists h :: h >= 0 && AtHop(nodes, h) != []
    ensures MaxHop(nodes) >= 0 ==> AtHop(nodes, MaxHop(nodes)) != []
    ensures forall h :: h > MaxHop(nodes) ==> AtHop(nodes, h) == []
  {
    if nodes != [] {
      var init := nodes[..|nodes| - 1];
      MaxHopIsMax(init);
      var h := HopsOrMinusOne(nodes[|nodes| - 1].info);
      var m := MaxHop(init);
      assert MaxHop(nodes) == if h > m then h else m;
      forall g ensures AtHop(nodes, g) == AtHop(init, g) + (if h == g then [HopNodeOf(nodes[|nodes| - 1])] else []) { }
      if h >= 0 {
        assert AtHop(nodes, h) != [];
      }
      if m >= 0 {
        assert |AtHop(nodes, m)| >= |AtHop(init, m)|;
      }
      forall g | g > MaxHop(nodes) ensures AtHop(nodes, g) == [] {
        assert AtHop(init, g) == [];
      }
    }
  }

  /** Any non-negative hop distance that occurs is at most the maximum. */
  lemma MaxHopBounds(nodes: seq<NodeEntry>, h: int)
    requires h >= 0 && AtHop(nodes, h) != []
    ensures h <= MaxHop(nodes)
  {
    MaxHopIsMax(nodes);
  }

  /** The hop level by descending SNR. Python's sort is
      stable, so equal SNRs keep their original order; each element goes in front
      of the first one that does not beat it. */
  function InsertDesc(x: HopNode, s: seq<HopNode>): (r: seq<HopNode>)
    ensures |r| == |s| + 1
  {
    if s == [] || x.snr >= s[0].snr then [x] + s
    else
      assert s == [s[0]] + s[1..];
      [s[0]] + InsertDesc(x, s[1..])
  }

  function SortBySnrDesc(s: seq<HopNode>): (r: seq<HopNode>)
    ensures |r| == |s|
  {
    if s == [] then []
    else
      assert s == [s[0]] + s[1..];
      InsertDesc(s[0], SortBySnrDesc(s[1..]))
  }

  ghost predicate SortedDesc(s: seq<HopNode>) {
    forall i, j :: 0 <= i < j < |s| ==> s[i].snr >= s[j].snr
  }

  /** Inserting adds exactly the one element. */
  lemma {:induction false} InsertDescPerm(x: HopNode, s: seq<HopNode>)
    ensures multiset(InsertDesc(x, s)) == multiset(s) + multiset{x}
  {
    if s != [] && x.snr < s[0].snr {
      InsertDescPerm(x, s[1..]);
      assert s == [s[0]] + s[1..];
    }
  }

  lemma {:induction false} InsertDescSorted(x: HopNode, s: seq<HopNode>)
    requires SortedDesc(s)
    ensures SortedDesc(InsertDesc(x, s))
  {
    if s != [] && x.snr < s[0].snr {
      InsertDescSorted(x, s[1..]);
      var t := InsertDesc(x, s[1..]);
      InsertDescPerm(x, s[1..]);
      forall j | 0 <= j < |t| ensures s[0].snr >= t[j].snr {
        assert t[j] in multiset(t);
        if t[j] != x {
          assert t[j] in multiset(s[1..]);
          var k :| 0 <= k < |s[1..]| && s[1..][k] == t[j];
          assert s[1..][k] == s[k + 1];
        }
      }
    }
  }

  /** The router order is SNR-descending and a permutation of the hop-N nodes. */
  lemma {:induction false} SortBySnrDescSorted(s: seq<HopNode>)
    ensures SortedDesc(SortBySnrDesc(s))
    ensures |SortBySnrDesc(s)| == |s| && multiset(SortBySnrDesc(s)) == multiset(s)
  {
    if s != [] {
      SortBySnrDescSorted(s[1..]);
      InsertDescSorted(s[0], SortBySnrDesc(s[1..]));
      InsertDescPerm(s[0], SortBySnrDesc(s[1..]));
      assert s == [s[0]] + s[1..];
    }
  }

  /** The head of the router order carries the best SNR among the candidates. */
  lemma SortedHeadIsBest(s: seq<HopNode>)
    requires s != []
    ensures SortBySnrDesc(s)[0] in s
    ensures forall x | x in s :: x.snr <= SortBySnrDesc(s)[0].snr
  {
    var r := SortBySnrDesc(s);
    SortBySnrDescSorted(s);
    assert r[0] in multiset(r);
    forall x | x in s ensures x.snr <= r[0].snr {
      assert x in multiset(r);
      var k :| 0 <= k < |r| && r[k] == x;
    }
  }

  /** The nodes of `s` whose SNR is exactly v, in their order in `s`. */
  function WithSnr(s: seq<HopNode>, v: real): seq<HopNode> {
    if s == [] then []
    else (if s[0].snr == v then [s[0]] else []) + WithSnr(s[1..], v)
  }

  lemma {:induction false} InsertDescStable(x: HopNode, s: seq<HopNode>, v: real)
    ensures WithSnr(InsertDesc(x, s), v) == (if x.snr == v then [x] else []) + WithSnr(s, v)
  {
    if s == [] || x.snr >= s[0].snr {
      assert ([x] + s)[1..] == s;
    } else {
      InsertDescStable(x, s[1..], v);
      var t := InsertDesc(x, s[1..]);
      assert ([s[0]] + t)[1..] == t;
      assert s == [s[0]] + s[1..];
    }
  }

  /** Python's sort is stable: nodes of equal SNR keep their relative order. */
  lemma {:induction false} SortBySnrDescStable(s: seq<HopNode>, v: real)
    ensures WithSnr(SortBySnrDesc(s), v) == WithSnr(s, v)
  {
    if s != [] {
      SortBySnrDescStable(s[1..], v);
      InsertDescStable(s[0], SortBySnrDesc(s[1..]), v);
    }
  }

  /** The head of the router order is the first node of `s` with the best SNR:
      every node before it is strictly worse. */
  lemma {:induction false} SortedHeadFirst(s: seq<HopNode>) returns (i: int)
    requires s != []
    ensures 0 <= i < |s| && s[i] == SortBySnrDesc(s)[0]
    ensures forall k :: 0 <= k < i ==> s[k].snr < s[i].snr
  {
    var rest := SortBySnrDesc(s[1..]);
    if rest == [] || s[0].snr >= rest[0].snr {
      i := 0;
    } else {
      var i' := SortedHeadFirst(s[1..]);
      i := i' + 1;
      assert s[i] == s[1..][i'];
      forall k | 0 <= k < i ensures s[k].snr < s[i].snr {
        if k > 0 {
          assert s[k] == s[1..][k - 1];
        }
      }
    }
  }

  /** Membership is unchanged by sorting. */
  /** No two nodes of the list share an id. */
  ghost predicate DistinctHopIds(s: seq<HopNode>) {
    forall i, j :: 0 <= i < j < |s| ==> s[i].id != s[j].id
  }

  lemma {:induction false} InsertDescIds(x: HopNode, s: seq<HopNode>)
    requires DistinctHopIds(s) && forall y | y in s :: y.id != x.id
    ensures DistinctHopIds(InsertDesc(x, s))
  {
    if s != [] && x.snr < s[0].snr {
      var tail := s[1..];
      assert forall k :: 0 <= k < |tail| ==> tail[k] == s[k + 1];
      InsertDescIds(x, tail);
      var t := InsertDesc(x, tail);
      InsertDescPerm(x, tail);
      forall j | 0 <= j < |t| ensures t[j].id != s[0].id {
        assert t[j] in multiset(t);
        if t[j] != x {
          assert t[j] in multiset(tail);
          var k :| 0 <= k < |tail| && tail[k] == t[j];
        }
      }
      assert InsertDesc(x, s) == [s[0]] + t;
    }
  }

  /** Sorting keeps the ids distinct. */
  lemma {:induction false} SortBySnrDescIds(s: seq<HopNode>)
    requires DistinctHopIds(s)
    ensures DistinctHopIds(SortBySnrDesc(s))
  {
    if s != [] {
      var tail := s[1..];
      assert forall k :: 0 <= k < |tail| ==> tail[k] == s[k + 1];
      SortBySnrDescIds(tail);
      forall y | y in SortBySnrDesc(tail) ensures y.id != s[0].id {
        SortedMembers(tail, y);
        var k :| 0 <= k < |tail| && tail[k] == y;
      }
      InsertDescIds(s[0], SortBySnrDesc(tail));
    }
  }

  lemma SortedMembers(s: seq<HopNode>, x: HopNode)
    ensures x in SortBySnrDesc(s) <==> x in s
  {
    SortBySnrDescSorted(s);
    assert multiset(SortBySnrDesc(s)) == multiset(s);
    assert x in SortBySnrDesc(s) <==> x in multiset(SortBySnrDesc(s));
  }
}
