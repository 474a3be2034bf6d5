# meshnetmap topology engine, modelled in Dafny

meshnetmap builds a topology for a Meshtastic mesh radio network. A topology is a set of nodes, connections, routing paths and metadata.

This project models the core of that engine:

- **The link inferencer** (`meshnetmap/inference.py`). It reads the node database and turns it into connections in four steps: Bluetooth bridge links, GPS co-location links, direct links between hop-0 and hop-1 nodes, and multi-hop links. Multi-hop links are chosen from routing evidence, with a signal-to-noise (SNR) fallback. A `connection_set` suppresses repeats.
- **The two older standalone inferencers** (`infer_connections_v2.py`, `infer_connections.py`).
- **The topology aggregator** (`meshnetmap/collector/aggregator.py`). It merges snapshots.
- **The collector object** (`meshnetmap/collector/collect.py`). It records routing paths and neighbour reports from incoming packets, loads and refreshes the node database, tallies packet types, and infers links when no neighbour report arrived.
- **The `infer` command** (`meshnetmap/cli.py`). It replaces a topology's connection list and chooses the output file name.

## Modules

| file | module | what it holds |
|---|---|---|
| `common.dfy` | `Common` | Option/Result, Python's string order (`StrLess`), `sorted([a, b])` as `SortedPair`, distinctness lemmas |
| `records.dfy` | `Records` | Node records, links, routing paths, snapshots. A missing dictionary key is `None`. |
| `hoptable.dfy` | `HopTable` | `nodes_by_hop`: the nodes at each hop count, the maximum hop, the stable sort by SNR descending |
| `evidence.dfy` | `Evidence` | `extract_routing_evidence` and `find_colocated_nodes` (location key rounded to 4 decimals) |
| `inference.dfy` | `Inference` | `infer_connections_from_hops` as imperative loops, each proved equal to a fold over a pure candidate list (`EmitAll`, or `AddAll` for the unchecked direct step) |
| `inference_props.dfy` | `InferenceProps` | Properties of each step: soundness, completeness, counts, confidence rules, at most two routers per target |
| `inference_pass.dfy` | `InferencePass` | Properties of the whole pass: step order, the dedup guarantee it does give, the repeated-pair finding and its correction |
| `aggregator.dfy` | `Aggregator` | Node merge by `lastHeard`, link merge by `from->to` key, the `TopologyAggregator` class |
| `inferv2.dfy` | `InferV2` | `infer_connections_v2.py` (also the body of the collector's own `infer_connections_from_hops`) |
| `inferv1.dfy` | `InferV1` | `infer_connections.py`: a star centred on the first hop-0 node |
| `collector.dfy` | `Collector` | Packet handling, node loading and refresh, the packet tally, the `NetworkTopologyCollector` class |
| `cli.dfy` | `Cli` | The `infer` command: connection replacement and the default output name (Python's `str.replace`) |

### Representation choices

- **Coordinates** are integers in units of 1e-7 degree, as the device reports them. `round(x, 4)` becomes an exact half-to-even rounding to units of 1e-3 of that (`Evidence.Round4`).
- **The clock** (`datetime.now().isoformat()`) is a `now: string` parameter.
- **Dictionaries.** A `nodes` dictionary that is iterated in insertion order becomes a `seq<NodeEntry>` with distinct ids. The aggregator's `nodes` and `connections` dictionaries each become a key order (`seq`) plus a `map`.

## Model

| member | source | states |
|---|---|---|
| Common.SortedPair | meshnetmap/inference.py:111 | `sorted([a, b])` returns one of the two orders, and the smaller id comes first |
| Common.SortedPairSymmetric | meshnetmap/inference.py:148 | the sorted key of a pair does not depend on argument order |
| HopTable.GroupByHop | meshnetmap/inference.py:79-91 | the `nodes_by_hop` table has exactly the non-negative hop counts that occur, each mapped to its nodes in order; it is empty iff no node has a known hop count |
| HopTable.AtHopMember | meshnetmap/inference.py:79-91 | a node is listed at hop h iff some node entry has `hopsAway` h (missing key = -1) |
| HopTable.AtHopDisjoint | meshnetmap/inference.py:79-91 | with distinct ids, no id is listed at two different hop counts |
| HopTable.MaxHopIsMax | meshnetmap/inference.py:202 | `max(nodes_by_hop.keys())` is a hop count that occurs, no larger one occurs, and it exists iff the table is non-empty |
| HopTable.SortBySnrDescSorted | meshnetmap/inference.py:216 | `sorted(..., key=snr, reverse=True)` is sorted descending and is a permutation of its input |
| HopTable.SortBySnrDescStable | meshnetmap/inference.py:216 | the sort is stable: for every SNR value, the nodes with that SNR keep their input order |
| HopTable.SortedHeadFirst | meshnetmap/inference.py:216 | the head of the sorted list is the first input node of best SNR: every node before it is strictly worse |
| HopTable.SortedHeadIsBest | meshnetmap/inference.py:216 | the first node after the sort has the best SNR of all candidates |
| HopTable.SortedMembers | meshnetmap/inference.py:216 | the sort neither adds nor drops a router |
| HopTable.SortBySnrDescIds | meshnetmap/inference.py:216 | the sort keeps router ids distinct |
| Evidence.ExtractRoutingEvidence | meshnetmap/inference.py:10-32 | the loop builds exactly the index `IndexOf` of the routing paths; a missing or empty list gives the empty index |
| Evidence.IndexLookup | meshnetmap/inference.py:19-30 | looking up `(a, b)` in the index yields exactly the observations of usable paths from a to b, and no empty entry is stored |
| Evidence.ObservedSound | meshnetmap/inference.py:25 | every observation comes from a path that has both a truthy `from` and a truthy `to` |
| Evidence.ObservedComplete | meshnetmap/inference.py:25-30 | every usable path is recorded under its own pair |
| Evidence.Round4 | meshnetmap/inference.py:44 | rounding to four decimals moves the coordinate by at most half a unit of the fourth decimal |
| Evidence.BuildLocationMap | meshnetmap/inference.py:36-50 | the `location_map` loop gives the keys in first-seen order, each mapped to exactly the located nodes at that key |
| Evidence.FindColocatedNodes | meshnetmap/inference.py:34-56 | the method returns `Colocated(nodes)`: the groups, in first-seen key order, that hold more than one node |
| Evidence.ColocatedSound | meshnetmap/inference.py:43-53 | every group has at least two members, all located and all with the group's key |
| Evidence.ColocatedComplete | meshnetmap/inference.py:43-53 | a located node that shares its key with another appears in the group for that key |
| Evidence.ColocatedKeysDistinct | meshnetmap/inference.py:46-53 | no location key is reported twice |
| Evidence.UnlocatedNeverGrouped | meshnetmap/inference.py:43 | a node that lacks a latitude or longitude (or has 0) is never grouped |
| Inference.BridgePairs | meshnetmap/inference.py:104-133 | the Bluetooth step emits, in order, every (source, hop-0 node) candidate whose sorted key is new |
| Inference.GpsStep | meshnetmap/inference.py:136-171 | the GPS step emits, in order, every co-located pair (i < j within a group) whose sorted key is new |
| Inference.DirectStep | meshnetmap/inference.py:179-198 | the direct step appends every (hop-0, hop-1) link unchecked and records only its ordered key |
| Inference.ChooseRouters | meshnetmap/inference.py:216-234 | the router loop returns `RouterChoices`: validated routers in SNR order, else the best with SNR > -10, else the best router |
| Inference.Top2 | meshnetmap/inference.py:237 | `[:2]` keeps the first min(2, n) of the n choices, in order |
| Inference.TargetStep | meshnetmap/inference.py:214-263 | for one target, emits each chosen router's link whose ordered key is new |
| Inference.HopStep | meshnetmap/inference.py:204-263 | the hop levels 1 .. max-1 emit exactly the fold of the per-level candidates |
| Inference.InferConnectionsFromHops | meshnetmap/inference.py:58-279 | the whole pass returns `InferResult`: failure on a topology with no `nodes` key, otherwise the links of the four steps in order |
| InferenceProps.EmitAllKeys | meshnetmap/inference.py:112-133 | the links a checked step adds have pairwise distinct keys, none already recorded, and the set grows by exactly their keys |
| InferenceProps.EmitAllCovers | meshnetmap/inference.py:112-133 | after a checked step, every candidate's key is recorded |
| InferenceProps.BridgeCount | meshnetmap/inference.py:107-110 | the bridge candidates number the sources times the hop-0 nodes |
| InferenceProps.BridgeComplete | meshnetmap/inference.py:104-133 | with distinct ids, every bridge candidate is emitted and none is a repeat |
| InferenceProps.DirectCount | meshnetmap/inference.py:179-182 | the direct step makes one link per (hop-0, hop-1) pair: the product of the two counts |
| InferenceProps.DirectConfidence | meshnetmap/inference.py:183-193 | a direct link is high confidence and carries the evidence count iff routing evidence exists for it |
| InferenceProps.ColocationAccFacts | meshnetmap/inference.py:100-171 | after the first two steps the set holds exactly the sorted keys of the emitted links, which are pairwise distinct |
| InferenceProps.GpsSound | meshnetmap/inference.py:140-171 | every GPS candidate is a high-confidence `colocated` link at hop 0 between two nodes with the same location key |
| InferenceProps.ColocatedPairsJoined | meshnetmap/inference.py:140-171 | any two distinct nodes at the same location end up joined, in one direction or the other |
| InferenceProps.ValidatedSound | meshnetmap/inference.py:220-224 | a validated choice is a current router with a positive evidence count equal to its number of observations |
| InferenceProps.ValidatedComplete | meshnetmap/inference.py:220-224 | every router with evidence for the target is validated |
| InferenceProps.GoodRoutersHead | meshnetmap/inference.py:229-231 | among sorted routers, a good router (SNR > -10) exists iff the best one is good, and then the best one comes first |
| InferenceProps.RouterChoicesRouted | meshnetmap/inference.py:220-224 | with evidence, the choices are exactly the routers with evidence, in descending SNR order; with distinct router ids each appears once, so there are as many choices as evidenced router ids |
| InferenceProps.RouterChoicesFallback | meshnetmap/inference.py:227-234 | without evidence, one choice remains: the first best-SNR router of the hop level (ties go to the earliest), counted 0, labelled SNR heuristic iff its SNR > -10 and best guess otherwise |
| InferenceProps.HopLinkConfidence | meshnetmap/inference.py:242-247 | a hop link is high iff routing-validated, medium iff SNR heuristic with router SNR > 0, low otherwise |
| InferenceProps.HopCandidatesHas | meshnetmap/inference.py:204-237 | for every level 1 ≤ N < max hop, every target at hop N+1 and every choice `[:2]` keeps for it, the hop link from that router is a candidate |
| InferenceProps.HopSound | meshnetmap/inference.py:204-263 | every hop link goes from a router at level h to a target at h + 1 and has `hopsAway` 1 and total hops h + 1. It is high confidence iff routing-validated, medium iff SNR heuristic with router SNR > 0, and low otherwise. |
| InferencePass.PassStepOrder | meshnetmap/inference.py:100-263 | the output lists bridge links, then GPS, then direct, then hop links |
| InferencePass.NoKnownHopNoLinks | meshnetmap/inference.py:93-95 | with no node of known hop count, the result is empty |
| InferencePass.SingleNodeNoLinks | meshnetmap/inference.py:58-263 | a single node yields no link |
| InferencePass.DirectPairsEmitted | meshnetmap/inference.py:179-198 | every (hop-0, hop-1) pair appears as a direct link in the output |
| InferencePass.HopLinksEmitted | meshnetmap/inference.py:204-263 | each such (router, target) pair is joined in the output: by a link from the router to the target, or by a GPS or bridge link with that sorted key |
| InferencePass.ValidatedHopJoined | meshnetmap/inference.py:220-263 | when a router has routing evidence toward a target, the target is joined to the first kept choice, which is routing-validated, counted by its records and the best-SNR evidenced router |
| InferencePass.PassValidated | meshnetmap/inference.py:242-243 | every routing-validated link in the output is high confidence with a positive evidence count |
| InferencePass.PassHopSources | meshnetmap/inference.py:237-263 | the routers feeding one target through hop links are distinct and at most two |
| InferencePass.PassDedup | meshnetmap/inference.py:100-263 | within the colocation steps sorted pairs never repeat; hop links never repeat an ordered pair, among themselves or against direct links |
| InferencePass.ColocatedDirectPairTwice | meshnetmap/inference.py:179-198 | as written: two co-located nodes at hops 0 and 1 are joined twice (a GPS link and a direct link) |
| InferencePass.PairExampleTwice | meshnetmap/inference.py:179-198 | as written, on a concrete two-node topology the output holds two links over the same sorted pair |
| InferencePass.FixedNoDuplicatePair | tests/test_inference.py:180-190 | corrected pass: no two output links share a sorted pair |
| InferencePass.FixedJoinsDirectPairs | meshnetmap/inference.py:179-198 | corrected pass: every (hop-0, hop-1) pair is still joined by some link |
| Aggregator.MergeNodesDomain | meshnetmap/collector/aggregator.py:60-67 | after a snapshot the known ids are the old ones plus the incoming ones |
| Aggregator.MergeNodesUntouched | meshnetmap/collector/aggregator.py:60-67 | a node that the snapshot does not mention keeps its record |
| Aggregator.NodeKeysValid | meshnetmap/collector/aggregator.py:60-62 | the node key order stays duplicate-free, lists exactly the known ids, and keeps the old order as a prefix: a new id goes last |
| Aggregator.NodeEntriesSize | meshnetmap/collector/aggregator.py:168-171 | the listed nodes carry distinct ids, as many as the dictionary holds |
| Aggregator.MergeNodesAt | meshnetmap/collector/aggregator.py:61-67 | an incoming node is inserted if new, updated key by key if strictly newer by `lastHeard`, else left as it was |
| Aggregator.MergeNodeIdempotent | meshnetmap/collector/aggregator.py:61-67 | merging the same node twice changes nothing more |
| Aggregator.LinkKeyInjective | meshnetmap/collector/aggregator.py:72 | when no `from` id contains `-`, the key `from->to` determines the pair |
| Aggregator.ReplacesAcrossTypes | meshnetmap/collector/aggregator.py:81-82 | across kinds, a link replaces only when a confirmed link meets an implied one |
| Aggregator.ReplacesIrreflexive | meshnetmap/collector/aggregator.py:83-87 | a link never replaces itself |
| Aggregator.MergeLinkIdempotent | meshnetmap/collector/aggregator.py:74-90 | merging the same link twice gives the same table |
| Aggregator.MergeLinkValid | meshnetmap/collector/aggregator.py:74-75 | the key order stays duplicate-free and matches the map; a new key is appended at the end |
| Aggregator.MergeLinksValid | meshnetmap/collector/aggregator.py:70-90 | merging a list keeps the table valid and keeps the old key order as a prefix |
| Aggregator.MergeLinksHas | meshnetmap/collector/aggregator.py:70-75 | every incoming link's key is in the table afterwards |
| Aggregator.MergeLinksFrom | meshnetmap/collector/aggregator.py:70-90 | every stored link is either the old one unchanged or one of the incoming links |
| Aggregator.MergeLinksKinds | meshnetmap/collector/aggregator.py:79-87 | a kept key never changes its link kind, except implied to confirmed |
| Aggregator.TableSize | meshnetmap/collector/aggregator.py:168-172 | the listed connections number exactly the distinct keys |
| Aggregator.TopologyAggregator.constructor | meshnetmap/collector/aggregator.py:20-29 | the aggregate starts empty with no aggregation time |
| Aggregator.TopologyAggregator.AddTopologyData | meshnetmap/collector/aggregator.py:48-104 | an empty snapshot changes nothing; otherwise nodes, link table, routing paths and sources become the merges of the old state with the snapshot |
| Aggregator.TopologyAggregator.AddConnections | meshnetmap/collector/aggregator.py:70-90 | the link loop leaves exactly `MergeLinks` of the old table and keeps the table valid |
| Aggregator.TopologyAggregator.GetAggregatedTopology | meshnetmap/collector/aggregator.py:159-177 | the result lists nodes and links in first-insertion order, with distinct node ids, and stamps the time; statistics count nodes, distinct links and sources |
| InferV2.DirectCandidatesCount | infer_connections_v2.py:36-51 | one direct link per (hop-0, hop-1) pair |
| InferV2.RoutersSpec | infer_connections_v2.py:65-74 | at most three routers, at least one when any exist, all from the current hop; if one has SNR > -15, all chosen do; a better router is never skipped |
| InferV2.RoutersExact | infer_connections_v2.py:65-74 | exactly min(3, #routers with SNR > -15) routers when one is good, else min(3, #routers), in descending SNR order and drawn from the current hop as a sub-multiset |
| InferV2.TargetLinksSpec | infer_connections_v2.py:65-88 | a target at the next hop gets one link per chosen router, in the routers' order (so one to three), each from a current-hop router and with the confidence its SNR implies |
| InferV2.V2LinksLayered | infer_connections_v2.py:9-99 | every link joins hop h to hop h + 1; hop links record the target's hop count as total hops |
| InferV2.V2LinksDirect | infer_connections_v2.py:36-51 | every (hop-0, hop-1) pair is joined directly |
| InferV2.V2LinksReach | infer_connections_v2.py:54-88 | a node at hop h + 1 ≥ 2 receives a hop link whenever hop h is populated |
| InferV2.InferConnections | infer_connections_v2.py:9-99 | the loops return exactly `V2Result`: failure without `nodes`, else the direct then hop links |
| InferV1.HopOrderMember | infer_connections.py:26-29 | `multi_hop_nodes` has exactly the hop counts above 1 that occur |
| InferV1.Classify | infer_connections.py:18-29 | the classification loop gives the hop-0 ids, the hop-1 nodes and the multi-hop groups in first-seen order |
| InferV1.V1LinksStar | infer_connections.py:36-67 | every link starts at the first hop-0 node and ends at a node with hop count ≥ 1; it is a high-confidence direct link iff that count is 1, a medium-confidence multi-hop link otherwise, with `node_database` as evidence |
| InferV1.V1LinksCount | infer_connections.py:36-67 | with a centre, there is exactly one link per node of hop count ≥ 1 |
| InferV1.V1LinksCover | infer_connections.py:36-67 | when the first hop-0 node has a non-empty id, every node with hop count ≥ 1 is reached from it |
| InferV1.V1Centre | infer_connections.py:37-38 | the centre exists iff the first node with hop count 0 has a non-empty id, and it is that node |
| InferV1.InferConnections | infer_connections.py:9-70 | the loops return exactly `V1Result` |
| Collector.RoutingRecord | meshnetmap/collector/collect.py:112-156 | a packet yields a routing path iff its sender id is truthy and `hopsAway` (default 0) is non-negative; the path carries the packet's fields and defaults |
| Collector.NeighborLinksOrigin | meshnetmap/collector/collect.py:197-210 | every neighbour link goes from the reporting node to a neighbour with a truthy id, as a confirmed high-confidence link |
| Collector.NeighborLinksHas | meshnetmap/collector/collect.py:197-210 | every neighbour with a truthy id gets its link |
| Collector.NeighborLinksAllNamed | meshnetmap/collector/collect.py:197-210 | when all neighbours have ids, there is one link per neighbour |
| Collector.Find | meshnetmap/collector/collect.py:326-336 | a node-table lookup returns the position of the id, or nothing iff the id is absent |
| Collector.PutIds | meshnetmap/collector/collect.py:326-336 | storing a node adds exactly its id and keeps ids distinct |
| Collector.LoadAllIds | meshnetmap/collector/collect.py:326-336 | the initial load adds exactly the device's ids |
| Collector.LoadAllKeeps | meshnetmap/collector/collect.py:326-336 | a stored node that the device does not list keeps its record and position |
| Collector.LoadAllStores | meshnetmap/collector/collect.py:326-336 | every device node is stored as the device reports it |
| Collector.RefreshAllSpec | meshnetmap/collector/collect.py:375-386 | a refresh adds exactly the new ids and keeps the old table as a prefix |
| Collector.RefreshAllStores | meshnetmap/collector/collect.py:375-386 | a device node with a new id is stored |
| Collector.RefreshAllNoop | meshnetmap/collector/collect.py:377 | a refresh that brings no new id changes nothing |
| Collector.RefreshAllIdempotent | meshnetmap/collector/collect.py:375-386 | refreshing twice from the same device equals refreshing once |
| Collector.RefreshEachKeeps | meshnetmap/collector/collect.py:357-386 | repeated polls never lose or rewrite a stored node |
| Collector.TallyCounts | meshnetmap/collector/collect.py:396-400 | a packet type is in the tally iff some packet has it, and its count is the number of such packets |
| Collector.AppendHopLinks | meshnetmap/collector/collect.py:222-303 | the collector's own inference appends exactly the links of `infer_connections_v2.py` |
| Collector.NetworkTopologyCollector.constructor | meshnetmap/collector/collect.py:30-41 | the collector starts with empty nodes, connections, routing paths and packets |
| Collector.NetworkTopologyCollector.ProcessRoutingInfo | meshnetmap/collector/collect.py:112-162 | appends the packet's routing record, if any, and changes nothing else |
| Collector.NetworkTopologyCollector.ProcessNeighborInfo | meshnetmap/collector/collect.py:172-220 | appends one confirmed link per named neighbour, from the first neighbour list present, and changes nothing else |
| Collector.NetworkTopologyCollector.OnReceive | meshnetmap/collector/collect.py:86-110 | records the packet and its routing path; adds neighbour links iff the port is `NEIGHBORINFO_APP` |
| Collector.NetworkTopologyCollector.LoadNodes | meshnetmap/collector/collect.py:325-336 | the node table becomes `LoadAll` of the old one and stays duplicate-free |
| Collector.NetworkTopologyCollector.RefreshNodes | meshnetmap/collector/collect.py:375-386 | the node table becomes `RefreshAll` of the old one and stays duplicate-free |
| Collector.NetworkTopologyCollector.PacketTypes | meshnetmap/collector/collect.py:396-400 | the tally maps each present port name to its packet count and holds nothing else |
| Collector.NetworkTopologyCollector.InferConnectionsFromHops | meshnetmap/collector/collect.py:222-303 | appends the v2-inferred links and changes nothing else |
| Collector.NetworkTopologyCollector.CollectTopology | meshnetmap/collector/collect.py:305-418 | when not connected nothing changes; otherwise load, then each poll's refresh, stamp the metadata, and infer links only if none were captured |
| Cli.ReplaceAbsent | meshnetmap/cli.py:106 | `str.replace` with no occurrence returns the input |
| Cli.ReplaceGrows | meshnetmap/cli.py:106-107 | a longer replacement never shortens the name, and lengthens it when an occurrence exists |
| Cli.ReplaceExtension | tests/test_cli.py:29 | `stem.json` becomes `stem_topo_v2.json` when the stem has no `.json` |
| Cli.OutputFile | meshnetmap/cli.py:102-108 | a non-empty `--output` is used as given; otherwise the default name |
| Cli.DefaultOutputDiffers | meshnetmap/cli.py:106-108 | the default output name never equals the input name |
| Cli.DefaultOutputNoExtension | meshnetmap/cli.py:107-108 | a name without `.json` gets `_topo_v2` appended |
| Cli.DefaultOutputReplaced | meshnetmap/cli.py:106-107 | a name containing `.json` gets every occurrence replaced |
| Cli.InferCommand | meshnetmap/cli.py:96-99 | fails iff the topology has no `nodes` key; otherwise only the connection list changes, and it becomes the links of the inferencer as written |
| Cli.InferCommandRepeatsPair | meshnetmap/cli.py:96-99 | the saved topology of two co-located nodes at hops 0 and 1 joins them twice over the same sorted pair |
| Cli.InferCommandIdempotent | meshnetmap/cli.py:96-99 | running the command on its own output gives the same topology |

## Findings

| source | as written | input that shows it | evidently intended | confidence | as-written member | corrected member |
|---|---|---|---|---|---|---|
| meshnetmap/inference.py:179-198 | The direct step appends every hop-0/hop-1 link without consulting `connection_set`, and records only the ordered pair. A GPS link made earlier between the same two nodes is then repeated. | Two nodes `!a` (hops 0) and `!b` (hops 1) at the same non-zero position yield a `colocated` link and an `inferred_direct` link over the pair {`!a`, `!b`}. | The "avoid duplicates" comment on `connection_set` (line 100) and tests/test_inference.py:180-190 require that no two connections share a sorted pair. | not executed | InferencePass.ColocatedDirectPairTwice, InferencePass.PairExampleTwice, Cli.InferCommandRepeatsPair | InferencePass.FixedNoDuplicatePair, InferencePass.FixedJoinsDirectPairs |

The corrected pass (`InferencePass.InferLinksFixed`) checks and records sorted keys in every step.

The corrected pass is proved only in `InferencePass`. `Cli.InferCommand` installs the links of the pass as written, since meshnetmap/cli.py:96 calls that function. `Cli.InferCommandRepeatsPair` shows the repeated pair reaching the saved topology.

## Where the code and its description differ

These follow the code:

- **Confirmed links.** The aggregator lets a confirmed link replace an implied one and no other kind. A description of the system says co-located links are also outranked.
- **One hop-bearing node.** A topology with a single node yields no link (`InferencePass.SingleNodeNoLinks`). But one node with a known hop count does not always give an empty result. A hop-0 node beside a node whose `hopsAway` is -1 still gets a bridge link. A node with no `hopsAway` key is never a bridge source, because inference.py:104 compares the key's value itself with -1. A located node beside a co-located node without `hopsAway` still gets a GPS link.

## Left out

- **I/O and connectivity.** Bluetooth connection, pairing and the pubsub subscription are not modelled (`connect`, `on_connection`, `on_node_updated`). Neither are sleeping, progress logging, the `sendData` broadcast request, JSON file reading and writing, argparse and every `print`/`logger` call. `CollectTopology` takes the device's node table at load and at each poll as parameters (`initial`, `polls`). It takes `connected` for `self.interface` and `device` for `str(myInfo)`.
- **Concurrency.** Packets arriving while the collector polls are not modelled. `OnReceive` is a separate call on the same object, and interleaving is up to the caller.
- **The clock** becomes the `now` parameter.
- **JSON `null` and numeric ids.** A key whose value is JSON `null` is treated as missing, and node ids are strings. The collector stores `'snr': None` and `'lastHeard': None` when the device lacks them (collect.py:332-333, 383-384). The model stores such a record without the key, so the readers below use their default where Python reads `None`.
- Inference.InferConnectionsFromHops: a node whose stored `snr` is `None` makes Python raise `TypeError` when the SNR sort (inference.py:216) or the `> -10` filter (inference.py:229) compares it. The model returns links, using the -100 default.
- Collector.AppendHopLinks: the same `None` SNR makes Python raise `TypeError` at collect.py:279 and 283. Nothing catches it on the way up from collect.py:414. The model returns links.
- Aggregator.MergeNodesAt: a stored or incoming `lastHeard` of `None` makes Python raise `TypeError` at aggregator.py:66. The model compares with the default 0.
- Aggregator.MergeNodesAt: `.update` at aggregator.py:67 overwrites a stored value with an incoming `None`. The model's `Update` keeps the stored value.
- Collector.NetworkTopologyCollector.ProcessNeighborInfo: a packet with neither `fromId` nor `from` makes Python store links with `'from': None` (collect.py:175, 203), which the aggregator then keys `"None->to"` (aggregator.py:72). The model's link ends are strings, so such links come from the empty id and the aggregator keys them `"->to"`.
- Collector.RoutingRecord: a packet whose `fromId` key is present but `None` makes no record in Python (collect.py:115, 138), because `get` does not fall back to `from`. The model falls back to `from` for a missing `fromId` only, and cannot express a present `None`.
- **Python truthiness** is modelled only where the code relies on it: empty ids, `snr or 10.0`, zero coordinates.
- Aggregator.TopologyAggregator.AddTopologyData: the source mutates the stored node dictionary in place with `.update`. The first snapshot's dictionary is shared with the caller, so a later update is visible to the caller as well. The model keeps values and does not capture that aliasing.
- Aggregator.TopologyAggregator.AddTopologyData: after `get_aggregated_topology` the connections entry is a list, so a later snapshot with links raises an exception in the source. The model requires that no such snapshot is added. The equal-type branch at aggregator.py:89-90 can never be reached after line 83, and is modelled as such.
- Aggregator.TopologyAggregator.GetAggregatedTopology: calling it a second time raises an exception in the source (`list.values()`). The model requires it to be called once.
- **Link field defaults.** The aggregator reads link fields with `.get` defaults (`timestamp` `''`, `snr` 0). The model's links always carry those fields, since every producer modelled here sets them.
- **Error swallowing.** The collector's `try`/`except` blocks only log, and `process_routing_info` and `process_neighbor_info` catch every exception. The model's operations are total on the modelled inputs, so nothing is swallowed.
- InferV1.InferConnections: `our_nodes[0] if our_nodes else None` is evaluated once, where the source evaluates it in each loop iteration. The value cannot change between iterations.
- **Logging in the inferencers.** The confidence statistics that `infer_connections_from_hops` only prints (inference.py:269-277) are left out.
- **Node names.** The names that `find_colocated_nodes` callers print are left out.
- `visualizer/`, `scanner.py`, the simulators and `pair_device.py` are not part of this model.
