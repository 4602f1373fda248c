/** How often a value is referenced: by node inputs and by graph outputs. */
module References {
  import opened GraphSemantics

  ghost function Occurrences(names: seq<string>, name: string): nat {
    multiset(names)[name]
  }

  ghost function NodeRefs(nodes: seq<GraphNode>, name: string): nat {
    if nodes == [] then 0
    else NodeRefs(nodes[..|nodes| - 1], name) + Occurrences(nodes[|nodes| - 1].inputs, name)
  }

  ghost function OutputRefs(outputs: map<string, string>, name: string): nat {
    |set key | key in outputs && outputs[key] == name|
  }

  ghost function RefCount(nodes: seq<GraphNode>, outputs: map<string, string>, name: string): nat {
    NodeRefs(nodes, name) + OutputRefs(outputs, name)
  }

  function Tally(counts: map<string, nat>, name: string): nat {
    if name in counts then counts[name] else 0
  }

  /** The reference counts the fusion pass starts from. */
  method CountConsumers(nodes: seq<GraphNode>, outputs: map<string, string>) returns (counts: map<string, nat>)
    ensures forall name :: Tally(counts, name) == RefCount(nodes, outputs, name)
  {
    counts := CountInputs(nodes);
    var pending := outputs.Keys;
    NoOutputs();
    assert outputs - pending == map[];
    while pending != {}
      invariant pending <= outputs.Keys
      invariant forall name ::
        Tally(counts, name) == NodeRefs(nodes, name) + OutputRefs(outputs - pending, name)
    {
      var key :| key in pending;
      var ref := outputs[key];
      counts := counts[ref := Tally(counts, ref) + 1];
      OutputRefsAdd(outputs - pending, key, ref);
      assert outputs - (pending - {key}) == (outputs - pending)[key := ref];
      pending := pending - {key};
    }
    assert outputs - {} == outputs;
  }

  method CountInputs(nodes: seq<GraphNode>) returns (counts: map<string, nat>)
    ensures forall name :: Tally(counts, name) == NodeRefs(nodes, name)
  {
    counts := map[];
    for i := 0 to |nodes|
      invariant forall name :: Tally(counts, name) == NodeRefs(nodes[..i], name)
    {
      ghost var start := counts;
      for s := 0 to |nodes[i].inputs|
        invariant forall name :: Tally(counts, name) == Tally(start, name) + Occurrences(nodes[i].inputs[..s], name)
      {
        var input := nodes[i].inputs[s];
        counts := counts[input := Tally(counts, input) + 1];
        assert nodes[i].inputs[..s + 1] == nodes[i].inputs[..s] + [input];
      }
      assert nodes[i].inputs[..|nodes[i].inputs|] == nodes[i].inputs;
      assert nodes[..i + 1][..i] == nodes[..i];
    }
    assert nodes[..|nodes|] == nodes;
  }

  lemma NoOutputs()
    ensures forall name :: OutputRefs(map[], name) == 0
  {
    var none: map<string, string> := map[];
    forall name
      ensures OutputRefs(none, name) == 0
    {
      assert (set key | key in none && none[key] == name) == {};
    }
  }

  lemma OutputRefsAddOne(outputs: map<string, string>, key: string, ref: string, name: string)
    requires key !in outputs
    ensures OutputRefs(outputs[key := ref], name) == OutputRefs(outputs, name) + if name == ref then 1 else 0
  {
    var larger := outputs[key := ref];
    var before := set k | k in outputs && outputs[k] == name;
    var after := set k | k in larger && larger[k] == name;
    if name == ref {
      assert after == before + {key};
    } else {
      assert after == before;
    }
  }

  lemma OutputRefsAdd(outputs: map<string, string>, key: string, ref: string)
    requires key !in outputs
    ensures forall name ::
      OutputRefs(outputs[key := ref], name) == OutputRefs(outputs, name) + if name == ref then 1 else 0
  {
    forall name {
      OutputRefsAddOne(outputs, key, ref, name);
    }
  }

  lemma {:induction false} NodeRefsOfTwo(nodes: seq<GraphNode>, name: string, k: nat, m: nat)
    requires k < m < |nodes|
    ensures NodeRefs(nodes, name) >= Occurrences(nodes[k].inputs, name) + Occurrences(nodes[m].inputs, name)
  {
    var n := |nodes| - 1;
    if m < n {
      NodeRefsOfTwo(nodes[..n], name, k, m);
    } else {
      NodeRefsOfOne(nodes[..n], name, k);
    }
  }

  lemma {:induction false} NodeRefsOfOne(nodes: seq<GraphNode>, name: string, k: nat)
    requires k < |nodes|
    ensures NodeRefs(nodes, name) >= Occurrences(nodes[k].inputs, name)
  {
    var n := |nodes| - 1;
    if k < n {
      NodeRefsOfOne(nodes[..n], name, k);
    }
  }

  lemma OccurrencesOfTwo(names: seq<string>, s: nat, t: nat)
    requires s < t < |names| && names[s] == names[t]
    ensures Occurrences(names, names[s]) >= 2
  {
    assert names == names[..t] + [names[t]] + names[t + 1..];
    assert names[s] in names[..t] by {
      assert names[..t][s] == names[s];
    }
  }

  /** A name referenced once is referenced from one slot of one node only. */
  lemma SingleReference(nodes: seq<GraphNode>, name: string, k: nat, s: nat, m: nat, t: nat)
    requires k < |nodes| && s < |nodes[k].inputs| && nodes[k].inputs[s] == name
    requires m < |nodes| && t < |nodes[m].inputs| && nodes[m].inputs[t] == name
    requires NodeRefs(nodes, name) <= 1
    ensures k == m && s == t
  {
    assert Occurrences(nodes[k].inputs, name) > 0 && Occurrences(nodes[m].inputs, name) > 0;
    if k != m {
      NodeRefsOfTwo(nodes, name, if k < m then k else m, if k < m then m else k);
    } else if s != t {
      OccurrencesOfTwo(nodes[k].inputs, if s < t then s else t, if s < t then t else s);
      NodeRefsOfOne(nodes, name, k);
    }
  }

  lemma {:induction false} NoReference(nodes: seq<GraphNode>, name: string)
    requires forall i | 0 <= i < |nodes| :: name !in nodes[i].inputs
    ensures NodeRefs(nodes, name) == 0
  {
    if nodes != [] {
      NoReference(nodes[..|nodes| - 1], name);
      assert name !in nodes[|nodes| - 1].inputs;
    }
  }

  lemma SingleOccurrence(names: seq<string>, t: nat)
    requires t < |names|
    requires forall s | 0 <= s < |names| && s != t :: names[s] != names[t]
    ensures Occurrences(names, names[t]) == 1
  {
    assert names == names[..t] + [names[t]] + names[t + 1..];
    assert names[t] !in names[..t] && names[t] !in names[t + 1..];
  }

  /** One slot of one node holding the name, and nothing else, makes one reference. */
  lemma {:induction false} OnlyReference(nodes: seq<GraphNode>, name: string, m: nat, t: nat)
    requires m < |nodes| && t < |nodes[m].inputs| && nodes[m].inputs[t] == name
    requires forall k | 0 <= k < |nodes| && k != m :: name !in nodes[k].inputs
    requires forall s | 0 <= s < |nodes[m].inputs| && s != t :: nodes[m].inputs[s] != name
    ensures NodeRefs(nodes, name) == 1
  {
    var n := |nodes| - 1;
    if m == n {
      NoReference(nodes[..n], name);
      SingleOccurrence(nodes[n].inputs, t);
    } else {
      OnlyReference(nodes[..n], name, m, t);
      assert name !in nodes[n].inputs;
    }
  }

  lemma OutputIsReference(outputs: map<string, string>, key: string)
    requires key in outputs
    ensures OutputRefs(outputs, outputs[key]) > 0
  {
    var keys := set k | k in outputs && outputs[k] == outputs[key];
    assert key in keys;
    assert keys != {};
  }
}
