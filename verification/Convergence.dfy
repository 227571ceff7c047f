/** Where the apply protocol ends, and what holds at every step on the way. */
module Convergence {
  import opened Resources
  import opened HyperNodes
  import opened Store

  // ---------------------------------------------------------------- after the writes

  function WithNodes(m: map<string, NodeObject>, nodes: seq<NamedNode>): map<string, NodeObject> {
    if nodes == [] then m
    else
      var front, last := WithNodes(m, nodes[..|nodes| - 1]), nodes[|nodes| - 1];
      front[last.name := last.node.(other := if last.name in front then front[last.name].other else FRESH)]
  }

  function WithSlices(m: map<string, SliceObject>, slices: seq<ResourceSlice>): map<string, SliceObject> {
    if slices == [] then m
    else
      var front, last := WithSlices(m, slices[..|slices| - 1]), slices[|slices| - 1];
      front[last.name := SliceObject(last, if last.name in front then front[last.name].other else FRESH)]
  }

  function WithHyperNodes(m: map<string, HyperObject>, hns: seq<HyperNode>): map<string, HyperObject> {
    if hns == [] then m
    else WithHyperNodes(m, hns[..|hns| - 1])[hns[|hns| - 1].name := HyperObject(hns[|hns| - 1], true)]
  }

  lemma {:induction false} PairOfWrites(c: Cluster, name: string, node: NodeObject)
    ensures Run(c, [WriteNode(name, node), WriteStatus(name, node)]) ==
              c.(nodes := c.nodes[name := node.(other := if name in c.nodes then c.nodes[name].other else FRESH)])
  {
    var pair := [WriteNode(name, node), WriteStatus(name, node)];
    assert pair[..1] == [pair[0]] && pair[..1][..0] == [];
    assert Run(c, pair[..1]) == Step(c, pair[0]);
  }

  lemma {:induction false} NodesWritten(c: Cluster, nodes: seq<NamedNode>)
    ensures Run(c, NodeWrites(nodes)) == c.(nodes := WithNodes(c.nodes, nodes))
  {
    if nodes != [] {
      var front, last := nodes[..|nodes| - 1], nodes[|nodes| - 1];
      NodesWritten(c, front);
      RunConcat(c, NodeWrites(front), [WriteNode(last.name, last.node), WriteStatus(last.name, last.node)]);
      PairOfWrites(Run(c, NodeWrites(front)), last.name, last.node);
    }
  }

  lemma {:induction false} SlicesWritten(c: Cluster, slices: seq<ResourceSlice>)
    ensures Run(c, SliceWrites(slices)) == c.(slices := WithSlices(c.slices, slices))
  {
    if slices != [] {
      SlicesWritten(c, slices[..|slices| - 1]);
      assert SliceWrites(slices)[..|slices| - 1] == SliceWrites(slices[..|slices| - 1]);
    }
  }

  lemma {:induction false} HyperNodesWritten(c: Cluster, hns: seq<HyperNode>)
    ensures Run(c, HyperNodeWrites(hns)) == c.(hyperNodes := WithHyperNodes(c.hyperNodes, hns))
  {
    if hns != [] {
      HyperNodesWritten(c, hns[..|hns| - 1]);
      assert HyperNodeWrites(hns)[..|hns| - 1] == HyperNodeWrites(hns[..|hns| - 1]);
    }
  }

  lemma {:induction false} WrittenIs(c: Cluster, want: Desired)
    ensures Written(c, want) == Cluster(
              WithNodes(c.nodes, want.nodes),
              WithSlices(c.slices, want.slices),
              c.topologies[want.topology.0 := want.topology.1],
              WithHyperNodes(c.hyperNodes, want.hyperNodes))
  {
    var topology := [WriteTopology(want.topology.0, want.topology.1)];
    var c1 := Run(c, NodeWrites(want.nodes));
    NodesWritten(c, want.nodes);
    RunConcat(c, NodeWrites(want.nodes), SliceWrites(want.slices));
    SlicesWritten(c1, want.slices);
    var calls := NodeWrites(want.nodes) + SliceWrites(want.slices);
    var c2 := Run(c, calls);
    RunConcat(c, calls, topology);
    assert topology[..0] == [];
    var c3 := Step(c2, topology[0]);
    assert Run(c2, topology) == c3;
    RunConcat(c, calls + topology, HyperNodeWrites(want.hyperNodes));
    HyperNodesWritten(c3, want.hyperNodes);
  }

  lemma {:induction false} WithNodesKeys(m: map<string, NodeObject>, nodes: seq<NamedNode>)
    ensures WithNodes(m, nodes).Keys == m.Keys + set k | 0 <= k < |nodes| :: nodes[k].name
  {
    if nodes != [] {
      var front := nodes[..|nodes| - 1];
      WithNodesKeys(m, front);
      assert (set k | 0 <= k < |nodes| :: nodes[k].name) ==
             (set k | 0 <= k < |front| :: front[k].name) + {nodes[|nodes| - 1].name};
    }
  }

  lemma {:induction false} NodeAt(m: map<string, NodeObject>, nodes: seq<NamedNode>, i: nat)
    requires i < |nodes| && forall j :: 0 <= j < |nodes| && j != i ==> nodes[j].name != nodes[i].name
    ensures nodes[i].name in WithNodes(m, nodes)
    ensures WithNodes(m, nodes)[nodes[i].name] ==
            nodes[i].node.(other := if nodes[i].name in m then m[nodes[i].name].other else FRESH)
  {
    var front := nodes[..|nodes| - 1];
    if i < |front| {
      NodeAt(m, front, i);
    } else {
      OtherNodeAt(m, front, nodes[i].name);
    }
  }

  lemma {:induction false} OtherNodeAt(m: map<string, NodeObject>, nodes: seq<NamedNode>, n: string)
    requires forall i :: 0 <= i < |nodes| ==> nodes[i].name != n
    ensures (n in WithNodes(m, nodes) <==> n in m) && (n in m ==> WithNodes(m, nodes)[n] == m[n])
  {
    if nodes != [] {
      OtherNodeAt(m, nodes[..|nodes| - 1], n);
    }
  }

  lemma {:induction false} WithNodesAt(m: map<string, NodeObject>, nodes: seq<NamedNode>)
    requires forall i, j :: 0 <= i < j < |nodes| ==> nodes[i].name != nodes[j].name
    ensures WithNodes(m, nodes).Keys == m.Keys + set k | 0 <= k < |nodes| :: nodes[k].name
    ensures forall i :: 0 <= i < |nodes| ==>
              WithNodes(m, nodes)[nodes[i].name] ==
                nodes[i].node.(other := if nodes[i].name in m then m[nodes[i].name].other else FRESH)
    ensures forall n :: n in m && (forall i :: 0 <= i < |nodes| ==> nodes[i].name != n) ==>
            WithNodes(m, nodes)[n] == m[n]
  {
    WithNodesKeys(m, nodes);
    forall i | 0 <= i < |nodes| {
      NodeAt(m, nodes, i);
    }
    forall n | n in m && (forall i :: 0 <= i < |nodes| ==> nodes[i].name != n) {
      OtherNodeAt(m, nodes, n);
    }
  }

  lemma {:induction false} WithSlicesKeys(m: map<string, SliceObject>, slices: seq<ResourceSlice>)
    ensures WithSlices(m, slices).Keys == m.Keys + set k | 0 <= k < |slices| :: slices[k].name
  {
    if slices != [] {
      var front := slices[..|slices| - 1];
      WithSlicesKeys(m, front);
      assert (set k | 0 <= k < |slices| :: slices[k].name) ==
             (set k | 0 <= k < |front| :: front[k].name) + {slices[|slices| - 1].name};
    }
  }

  lemma {:induction false} WithSlicesAt(m: map<string, SliceObject>, slices: seq<ResourceSlice>)
    requires forall i, j :: 0 <= i < j < |slices| ==> slices[i].name != slices[j].name
    ensures WithSlices(m, slices).Keys == m.Keys + set k | 0 <= k < |slices| :: slices[k].name
    ensures forall i :: 0 <= i < |slices| ==>
              WithSlices(m, slices)[slices[i].name] ==
                SliceObject(slices[i], if slices[i].name in m then m[slices[i].name].other else FRESH)
    ensures forall n :: n in m && (forall i :: 0 <= i < |slices| ==> slices[i].name != n) ==>
            WithSlices(m, slices)[n] == m[n]
  {
    WithSlicesKeys(m, slices);
    if slices != [] {
      var front := slices[..|slices| - 1];
      WithSlicesAt(m, front);
      assert forall i :: 0 <= i < |front| ==> front[i] == slices[i];
    }
  }

  lemma {:induction false} WithHyperNodesKeys(m: map<string, HyperObject>, hns: seq<HyperNode>)
    ensures WithHyperNodes(m, hns).Keys == m.Keys + set k | 0 <= k < |hns| :: hns[k].name
  {
    if hns != [] {
      var front := hns[..|hns| - 1];
      WithHyperNodesKeys(m, front);
      assert (set k | 0 <= k < |hns| :: hns[k].name) ==
             (set k | 0 <= k < |front| :: front[k].name) + {hns[|hns| - 1].name};
    }
  }

  lemma {:induction false} WithHyperNodesAt(m: map<string, HyperObject>, hns: seq<HyperNode>)
    requires forall i, j :: 0 <= i < j < |hns| ==> hns[i].name != hns[j].name
    ensures WithHyperNodes(m, hns).Keys == m.Keys + set k | 0 <= k < |hns| :: hns[k].name
    ensures forall i :: 0 <= i < |hns| ==> WithHyperNodes(m, hns)[hns[i].name] == HyperObject(hns[i], true)
    ensures forall n :: n in m && (forall i :: 0 <= i < |hns| ==> hns[i].name != n) ==>
            WithHyperNodes(m, hns)[n] == m[n]
  {
    WithHyperNodesKeys(m, hns);
    if hns != [] {
      var front := hns[..|hns| - 1];
      WithHyperNodesAt(m, front);
      assert forall i :: 0 <= i < |front| ==> front[i] == hns[i];
    }
  }

  // ---------------------------------------------------------------- after the deletes

  function HyperNodeDeletes(names: seq<string>): seq<Call> {
    seq(|names|, i requires 0 <= i < |names| => DeleteHyperNode(names[i]))
  }

  function SliceDeletes(names: seq<string>): seq<Call> {
    seq(|names|, i requires 0 <= i < |names| => DeleteSlice(names[i]))
  }

  function NodeDeletes(names: seq<string>): seq<Call> {
    seq(|names|, i requires 0 <= i < |names| => DeleteNode(names[i]))
  }

  lemma {:induction false} HyperNodesDeleted(c: Cluster, names: seq<string>)
    ensures Run(c, HyperNodeDeletes(names)) == c.(hyperNodes := c.hyperNodes - set x | x in names)
  {
    if names == [] {
      assert c.hyperNodes - (set x | x in names) == c.hyperNodes;
    } else {
      var front := names[..|names| - 1];
      HyperNodesDeleted(c, front);
      assert HyperNodeDeletes(names)[..|names| - 1] == HyperNodeDeletes(front);
      assert names == front + [names[|names| - 1]];
      assert c.hyperNodes - (set x | x in front) - {names[|names| - 1]} == c.hyperNodes - (set x | x in names);
    }
  }

  lemma {:induction false} SlicesDeleted(c: Cluster, names: seq<string>)
    ensures Run(c, SliceDeletes(names)) == c.(slices := c.slices - set x | x in names)
  {
    if names == [] {
      assert c.slices - (set x | x in names) == c.slices;
    } else {
      var front := names[..|names| - 1];
      SlicesDeleted(c, front);
      assert SliceDeletes(names)[..|names| - 1] == SliceDeletes(front);
      assert names == front + [names[|names| - 1]];
      assert c.slices - (set x | x in front) - {names[|names| - 1]} == c.slices - (set x | x in names);
    }
  }

  lemma {:induction false} NodesDeleted(c: Cluster, names: seq<string>)
    ensures Run(c, NodeDeletes(names)) == c.(nodes := c.nodes - set x | x in names)
  {
    if names == [] {
      assert c.nodes - (set x | x in names) == c.nodes;
    } else {
      var front := names[..|names| - 1];
      NodesDeleted(c, front);
      assert NodeDeletes(names)[..|names| - 1] == NodeDeletes(front);
      assert names == front + [names[|names| - 1]];
      assert c.nodes - (set x | x in front) - {names[|names| - 1]} == c.nodes - (set x | x in names);
    }
  }

  lemma {:induction false} DeletesRun(c: Cluster, hyperNodes: seq<string>, slices: seq<string>, nodes: seq<string>)
    ensures Run(c, Deletes(hyperNodes, slices, nodes)) == Cluster(
              c.nodes - (set x | x in nodes),
              c.slices - (set x | x in slices),
              c.topologies,
              c.hyperNodes - (set x | x in hyperNodes))
  {
    var h, s, n := HyperNodeDeletes(hyperNodes), SliceDeletes(slices), NodeDeletes(nodes);
    assert Deletes(hyperNodes, slices, nodes) == (h + s) + n;
    RunConcat(c, h + s, n);
    RunConcat(c, h, s);
    HyperNodesDeleted(c, hyperNodes);
    SlicesDeleted(Run(c, h), slices);
    NodesDeleted(Run(c, h + s), nodes);
  }

  lemma {:induction false} SameSet(names: seq<string>, doomed: set<string>)
    requires multiset(names) == multiset(doomed)
    ensures (set x | x in names) == doomed
  {
    forall x
      ensures x in names <==> x in doomed
    {
      assert x in names <==> x in multiset(names);
    }
  }

  /** The end of the protocol, whatever order the deletes came in. */
  function Final(c: Cluster, want: Desired): Cluster {
    var w := Written(c, want);
    Cluster(
      w.nodes - DoomedNodes(w, NodeNamesIn(want)),
      w.slices - DoomedSlices(w, NodeNamesIn(want), SliceNamesIn(want)),
      w.topologies,
      w.hyperNodes - DoomedHyperNodes(w, want))
  }

  /** Every plan ends in the same store. */
  lemma {:induction false} PlanEnds(c: Cluster, want: Desired, hyperNodes: seq<string>, slices: seq<string>,
      nodes: seq<string>)
    requires IsPlan(c, want, hyperNodes, slices, nodes)
    ensures Run(c, Plan(want, hyperNodes, slices, nodes)) == Final(c, want)
  {
    RunConcat(c, Writes(want), Deletes(hyperNodes, slices, nodes));
    var w := Written(c, want);
    DeletesRun(w, hyperNodes, slices, nodes);
    SameSet(hyperNodes, DoomedHyperNodes(w, want));
    SameSet(slices, DoomedSlices(w, NodeNamesIn(want), SliceNamesIn(want)));
    SameSet(nodes, DoomedNodes(w, NodeNamesIn(want)));
  }

  // ---------------------------------------------------------------- convergence

  /** The managed nodes are the generated ones with the generated fields. */
  ghost predicate NodesAsGenerated(before: Cluster, after: Cluster, want: Desired) {
    && (forall n :: ManagedNode(after, n) <==> n in NodeNamesIn(want))
    && (forall i :: 0 <= i < |want.nodes| ==>
          var NamedNode(name, node) := want.nodes[i];
          name in after.nodes && after.nodes[name] ==
            node.(other := if name in before.nodes then before.nodes[name].other else FRESH))
  }

  ghost predicate SlicesAsGenerated(before: Cluster, after: Cluster, want: Desired) {
    && (forall n :: ManagedSlice(after, n) <==> n in SliceNamesIn(want))
    && (forall i :: 0 <= i < |want.slices| ==>
          var s := want.slices[i];
          s.name in after.slices
            && after.slices[s.name] ==
              SliceObject(s, if s.name in before.slices then before.slices[s.name].other else FRESH))
  }

  ghost predicate HyperNodesAsGenerated(after: Cluster, want: Desired) {
    && (forall n :: ManagedHyperNode(after, n) <==> n in HyperNodeNamesIn(want))
    && (forall i :: 0 <= i < |want.hyperNodes| ==>
          var hn := want.hyperNodes[i];
          hn.name in after.hyperNodes && after.hyperNodes[hn.name] == HyperObject(hn, true))
  }

  /** What is not managed and shares no name with anything generated is as it was. */
  ghost predicate OthersUntouched(before: Cluster, after: Cluster, want: Desired) {
    && (forall n :: n !in NodeNamesIn(want) && !ManagedNode(before, n) ==>
          (n in after.nodes <==> n in before.nodes) && (n in before.nodes ==> after.nodes[n] == before.nodes[n]))
    && (forall n :: n !in SliceNamesIn(want) && !ManagedSlice(before, n) ==>
          (n in after.slices <==> n in before.slices) && (n in before.slices ==> after.slices[n] == before.slices[n]))
    && (forall n :: n !in HyperNodeNamesIn(want) && !ManagedHyperNode(before, n) ==>
          (n in after.hyperNodes <==> n in before.hyperNodes)
            && (n in before.hyperNodes ==> after.hyperNodes[n] == before.hyperNodes[n]))
  }

  lemma {:induction false} NodesConverge(c: Cluster, want: Desired)
    requires Coherent(want)
    ensures NodesAsGenerated(c, Final(c, want), want)
    ensures forall n :: n !in NodeNamesIn(want) && !ManagedNode(c, n) ==>
              (n in Final(c, want).nodes <==> n in c.nodes) && (n in c.nodes ==> Final(c, want).nodes[n] == c.nodes[n])
  {
    WrittenIs(c, want);
    WithNodesAt(c.nodes, want.nodes);
    var w, f := Written(c, want), Final(c, want);
    forall i | 0 <= i < |want.nodes|
      ensures want.nodes[i].name in NodeNamesIn(want) && want.nodes[i].name in f.nodes
              && ManagedNode(f, want.nodes[i].name)
    {
    }
    forall n | n !in NodeNamesIn(want)
      ensures n in w.nodes <==> n in c.nodes
      ensures n in c.nodes ==> w.nodes[n] == c.nodes[n]
    {
      assert forall i :: 0 <= i < |want.nodes| ==> want.nodes[i].name in NodeNamesIn(want);
    }
  }

  lemma {:induction false} SlicesConverge(c: Cluster, want: Desired)
    requires Coherent(want) && Keyed(c)
    ensures SlicesAsGenerated(c, Final(c, want), want)
    ensures forall n :: n !in SliceNamesIn(want) && !ManagedSlice(c, n) ==>
              (n in Final(c, want).slices <==> n in c.slices)
                && (n in c.slices ==> Final(c, want).slices[n] == c.slices[n])
  {
    WrittenIs(c, want);
    WithSlicesAt(c.slices, want.slices);
    var w, f := Written(c, want), Final(c, want);
    assert want.slices[0].name in SliceNamesIn(want);
    forall i | 0 <= i < |want.slices|
      ensures want.slices[i].name in SliceNamesIn(want) && want.slices[i].name in f.slices
              && ManagedSlice(f, want.slices[i].name)
    {
    }
    forall n | n !in SliceNamesIn(want)
      ensures n in w.slices <==> n in c.slices
      ensures n in c.slices ==> w.slices[n] == c.slices[n]
      ensures n in f.slices ==> !ManagedSlice(f, n)
    {
      assert forall i :: 0 <= i < |want.slices| ==> want.slices[i].name in SliceNamesIn(want);
    }
  }

  lemma {:induction false} HyperNodesConverge(c: Cluster, want: Desired)
    requires Coherent(want)
    ensures HyperNodesAsGenerated(Final(c, want), want)
    ensures forall n :: n !in HyperNodeNamesIn(want) && !ManagedHyperNode(c, n) ==>
              (n in Final(c, want).hyperNodes <==> n in c.hyperNodes)
                && (n in c.hyperNodes ==> Final(c, want).hyperNodes[n] == c.hyperNodes[n])
  {
    WrittenIs(c, want);
    WithHyperNodesAt(c.hyperNodes, want.hyperNodes);
    var w, f := Written(c, want), Final(c, want);
    forall i | 0 <= i < |want.hyperNodes|
      ensures want.hyperNodes[i].name in HyperNodeNamesIn(want) && want.hyperNodes[i].name in f.hyperNodes
              && ManagedHyperNode(f, want.hyperNodes[i].name)
    {
    }
    forall n | n !in HyperNodeNamesIn(want)
      ensures n in w.hyperNodes <==> n in c.hyperNodes
      ensures n in c.hyperNodes ==> w.hyperNodes[n] == c.hyperNodes[n]
    {
      assert forall i :: 0 <= i < |want.hyperNodes| ==> want.hyperNodes[i].name in HyperNodeNamesIn(want);
    }
  }

  /** From any store at all, applying a topology ends with exactly the generated objects under
      management, and leaves everything else alone. */
  lemma {:induction false} ApplyConverges(c: Cluster, want: Desired, hyperNodes: seq<string>, slices: seq<string>,
      nodes: seq<string>)
    requires Coherent(want) && Keyed(c) && IsPlan(c, want, hyperNodes, slices, nodes)
    ensures var after := Run(c, Plan(want, hyperNodes, slices, nodes));
            && NodesAsGenerated(c, after, want) && SlicesAsGenerated(c, after, want)
              && HyperNodesAsGenerated(after, want)
            && after.topologies == c.topologies[want.topology.0 := want.topology.1]
            && OthersUntouched(c, after, want)
  {
    PlanEnds(c, want, hyperNodes, slices, nodes);
    NodesConverge(c, want);
    SlicesConverge(c, want);
    HyperNodesConverge(c, want);
    WrittenIs(c, want);
  }
}
