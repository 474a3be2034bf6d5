/** The `infer` command of meshnetmap/cli.py: run the link inferencer over a
    loaded topology, replace its connection list, and choose where to write it.
    Reading and writing the files is not part of this model. */
module Cli {
  import opened Common
  import opened Records
  import Inference
  import InferencePass

  const JSON_EXT: string := ".json"
  const TOPO_SUFFIX: string := "_topo_v2"
  const TOPO_JSON: string := "_topo_v2.json"

  /** Python's `pat in s`: `pat` starts here or somewhere further on. */
  predicate Occurs(s: string, pat: string)
    decreases |s|
  {
    |s| >= |pat| && (s[..|pat|] == pat || (|s| > 0 && Occurs(s[1..], pat)))
  }

  /** Python's `s.replace(pat, rep)`: every non-overlapping occurrence, scanning
      left to right, is replaced. */
  function Replace(s: string, pat: string, rep: string): (r: string)
    requires pat != []
    decreases |s|
  {
    if |s| < |pat| then s
    else if s[..|pat|] == pat then rep + Replace(s[|pat|..], pat, rep)
    else [s[0]] + Replace(s[1..], pat, rep)
  }

  /** Without an occurrence, replacing changes nothing. */
  lemma {:induction false} ReplaceAbsent(s: string, pat: string, rep: string)
    requires pat != [] && !Occurs(s, pat)
    ensures Replace(s, pat, rep) == s
    decreases |s|
  {
    if |s| >= |pat| {
      ReplaceAbsent(s[1..], pat, rep);
      assert [s[0]] + s[1..] == s;
    }
  }

  /** A longer replacement makes the text grow at every occurrence. */
  lemma {:induction false} ReplaceGrows(s: string, pat: string, rep: string)
    requires pat != [] && |rep| > |pat|
    ensures |Replace(s, pat, rep)| >= |s|
    ensures Occurs(s, pat) ==> |Replace(s, pat, rep)| > |s|
    decreases |s|
  {
    if |s| >= |pat| {
      if s[..|pat|] == pat {
        ReplaceGrows(s[|pat|..], pat, rep);
      } else {
        ReplaceGrows(s[1..], pat, rep);
      }
    }
  }

  /** A name `stem + ".json"` whose stem holds no ".json" becomes `stem + "_topo_v2.json"`:
      since ".json" has its only dot first, no occurrence can start inside the stem. */
  lemma {:induction false} ReplaceExtension(stem: string)
    requires !Occurs(stem, JSON_EXT)
    ensures Replace(stem + JSON_EXT, JSON_EXT, TOPO_JSON) == stem + TOPO_JSON
    decreases |stem|
  {
    var s := stem + JSON_EXT;
    if stem == [] {
      assert s == JSON_EXT;
      assert s[|JSON_EXT|..] == [];
    } else {
      assert s[..|JSON_EXT|] != JSON_EXT by {
        if |stem| >= |JSON_EXT| {
          assert s[..|JSON_EXT|] == stem[..|JSON_EXT|];
        } else {
          assert s[..|JSON_EXT|][|stem|] == '.' != JSON_EXT[|stem|];
        }
      }
      assert s[1..] == stem[1..] + JSON_EXT;
      ReplaceExtension(stem[1..]);
      assert [stem[0]] + stem[1..] == stem;
    }
  }

  /** The default output name. */
  function DefaultOutput(input: string): string {
    var replaced := Replace(input, JSON_EXT, TOPO_JSON);
    if replaced == input then input + TOPO_SUFFIX else replaced
  }

  /** `args.output` when given and not empty, else the default name. */
  function OutputFile(input: string, output: Option<string>): (r: string)
    ensures TruthyId(output) ==> r == output.value
    ensures !TruthyId(output) ==> r == DefaultOutput(input)
  {
    if TruthyId(output) then output.value else DefaultOutput(input)
  }

  /** The default output never overwrites the input file. */
  lemma DefaultOutputDiffers(input: string)
    ensures DefaultOutput(input) != input
  {
    var replaced := Replace(input, JSON_EXT, TOPO_JSON);
    if replaced != input {
    } else {
      assert |input + TOPO_SUFFIX| > |input|;
    }
  }

  /** A name with no ".json" in it gets the bare suffix. */
  lemma DefaultOutputNoExtension(input: string)
    requires !Occurs(input, JSON_EXT)
    ensures DefaultOutput(input) == input + TOPO_SUFFIX
  {
    ReplaceAbsent(input, JSON_EXT, TOPO_JSON);
  }

  /** `topology.json` becomes `topology_topo_v2.json`. */
  lemma DefaultOutputExtension(stem: string)
    requires !Occurs(stem, JSON_EXT)
    ensures DefaultOutput(stem + JSON_EXT) == stem + TOPO_JSON
  {
    ReplaceExtension(stem);
    ReplaceGrows(stem + JSON_EXT, JSON_EXT, TOPO_JSON);
  }

  /** Any name with ".json" in it keeps the replaced name. */
  lemma DefaultOutputReplaced(input: string)
    requires Occurs(input, JSON_EXT)
    ensures DefaultOutput(input) == Replace(input, JSON_EXT, TOPO_JSON)
  {
    ReplaceGrows(input, JSON_EXT, TOPO_JSON);
  }

  /** `topology_data['connections'] = connections` after `infer_connections_from_hops`
      of meshnetmap/inference.py, as written. */
  function InferCommand(topology: Snapshot, now: string): (r: Result<Snapshot, Inference.InferError>)
    ensures r.Failure? <==> topology.nodes.None?
    ensures r.Success? ==>
              && r.value.connections == Some(Inference.InferLinks(topology.nodes.value, topology.routingPaths, now))
              && r.value.nodes == topology.nodes && r.value.routingPaths == topology.routingPaths
              && r.value.metadata == topology.metadata && r.value.others == topology.others
  {
    match Inference.InferResult(topology, now)
    case Failure(e) => Failure(e)
    case Success(links) => Success(topology.(connections := Some(links)))
  }

  /** The command writes the repeated pair of the inferencer: on two co-located
      nodes at hops 0 and 1 the saved connection list joins them twice. */
  lemma InferCommandRepeatsPair(paths: Option<seq<RoutingPath>>, now: string, others: map<string, string>)
    returns (i: int, j: int)
    ensures var t := Snapshot(Some(InferencePass.PairExample()), None, paths, None, others);
            && InferCommand(t, now).Success?
            && InferCommand(t, now).value.connections.Some?
            && var ls := InferCommand(t, now).value.connections.value;
            && 0 <= i < j < |ls|
            && SortedPair(ls[i].from, ls[i].to) == SortedPair(ls[j].from, ls[j].to)
  {
    i, j := InferencePass.PairExampleTwice(paths, now);
  }

  /** The old connection list plays no part: running the command on its own
      output gives the same topology again. */
  lemma InferCommandIdempotent(topology: Snapshot, now: string)
    requires topology.nodes.Some?
    ensures InferCommand(topology, now).Success?
    ensures InferCommand(InferCommand(topology, now).value, now) == InferCommand(topology, now)
  {
    var once := InferCommand(topology, now).value;
    assert once.nodes == topology.nodes && once.routingPaths == topology.routingPaths;
    assert once.(connections := once.connections) == once;
  }
}
