/** What the apply protocol keeps at every step, and what it forgets. */
module Protocol {
  import opened Options
  import opened Resources
  import opened HyperNodes
  import opened Store
  import opened Convergence

  // ---------------------------------------------------------------- writes before deletes

  ghost predicate IsDelete(call: Call) {
    call.DeleteHyperNode? || call.DeleteSlice? || call.DeleteNode?
  }

  ghost predicate AllWrites(calls: seq<Call>) {
    forall i :: 0 <= i < |calls| ==> !IsDelete(calls[i])
  }

  /** Nothing that was there has gone. */
  ghost predicate NothingLost(before: Cluster, after: Cluster) {
    && before.nodes.Keys <= after.nodes.Keys
    && before.slices.Keys <= after.slices.Keys
    && before.topologies.Keys <= after.topologies.Keys
    && before.hyperNodes.Keys <= after.hyperNodes.Keys
  }

  lemma {:induction false} WritesLoseNothing(c: Cluster, calls: seq<Call>)
    requires AllWrites(calls)
    ensures NothingLost(c, Run(c, calls))
  {
    if calls != [] {
      WritesLoseNothing(c, calls[..|calls| - 1]);
    }
  }

  lemma {:induction false} NodeWritesAreWrites(nodes: seq<NamedNode>)
    ensures forall i :: 0 <= i < |NodeWrites(nodes)| ==>
            NodeWrites(nodes)[i].WriteNode? || NodeWrites(nodes)[i].WriteStatus?
  {
    if nodes != [] {
      NodeWritesAreWrites(nodes[..|nodes| - 1]);
    }
  }

  lemma {:induction false} WritesAreWrites(want: Desired)
    ensures AllWrites(Writes(want))
  {
    NodeWritesAreWrites(want.nodes);
  }

  /** Every generated object is stored in its final form. */
  ghost predicate AllWritten(c: Cluster, after: Cluster, want: Desired) {
    var w := Written(c, want);
    && (forall n :: n in NodeNamesIn(want) ==> n in after.nodes && n in w.nodes && after.nodes[n] == w.nodes[n])
    && (forall n :: n in SliceNamesIn(want) ==> n in after.slices && n in w.slices && after.slices[n] == w.slices[n])
    && (forall n :: n in HyperNodeNamesIn(want) ==>
      n in after.hyperNodes && n in w.hyperNodes && after.hyperNodes[n] == w.hyperNodes[n])
    && want.topology.0 in after.topologies && after.topologies[want.topology.0] == want.topology.1
  }

  /** A delete of something not generated. */
  ghost predicate Spares(want: Desired, call: Call) {
    match call
    case DeleteHyperNode(n) => n !in HyperNodeNamesIn(want)
    case DeleteSlice(n) => n !in SliceNamesIn(want)
    case DeleteNode(n) => n !in NodeNamesIn(want)
    case _ => false
  }

  lemma {:induction false} DeletesSpareWritten(c: Cluster, v: Cluster, want: Desired, calls: seq<Call>)
    requires AllWritten(c, v, want) && forall i :: 0 <= i < |calls| ==> Spares(want, calls[i])
    ensures AllWritten(c, Run(v, calls), want)
  {
    if calls != [] {
      DeletesSpareWritten(c, v, want, calls[..|calls| - 1]);
      assert Spares(want, calls[|calls| - 1]);
    }
  }

  lemma {:induction false} InDoomed(names: seq<string>, doomed: set<string>, i: nat)
    requires multiset(names) == multiset(doomed) && i < |names|
    ensures names[i] in doomed
  {
    assert names[i] in multiset(names);
  }

  lemma {:induction false} PlanSpares(c: Cluster, want: Desired, hyperNodes: seq<string>, slices: seq<string>,
      nodes: seq<string>)
    requires IsPlan(c, want, hyperNodes, slices, nodes)
    requires forall n :: n in Written(c, want).slices ==> Written(c, want).slices[n].slice.name == n
    ensures forall i :: 0 <= i < |Deletes(hyperNodes, slices, nodes)| ==>
            Spares(want, Deletes(hyperNodes, slices, nodes)[i])
  {
    var w := Written(c, want);
    forall i | 0 <= i < |hyperNodes| {
      InDoomed(hyperNodes, DoomedHyperNodes(w, want), i);
    }
    forall i | 0 <= i < |slices| {
      InDoomed(slices, DoomedSlices(w, NodeNamesIn(want), SliceNamesIn(want)), i);
    }
    forall i | 0 <= i < |nodes| {
      InDoomed(nodes, DoomedNodes(w, NodeNamesIn(want)), i);
    }
  }

  lemma {:induction false} WrittenKeyed(c: Cluster, want: Desired)
    requires Coherent(want) && Keyed(c)
    ensures Keyed(Written(c, want))
  {
    WrittenIs(c, want);
    WithSlicesAt(c.slices, want.slices);
    var m := WithSlices(c.slices, want.slices);
    forall n | n in m
      ensures m[n].slice.name == n
    {
      if n in SliceNamesIn(want) {
        var i :| 0 <= i < |want.slices| && want.slices[i].name == n;
      } else {
        assert forall i :: 0 <= i < |want.slices| ==> want.slices[i].name in SliceNamesIn(want);
      }
    }
  }

  lemma {:induction false} WantedNodesIn(c: Cluster, want: Desired)
    requires Coherent(want)
    ensures NodeNamesIn(want) <= Written(c, want).nodes.Keys
  {
    WrittenIs(c, want);
    WithNodesAt(c.nodes, want.nodes);
  }

  lemma {:induction false} WantedSlicesIn(c: Cluster, want: Desired)
    requires Coherent(want)
    ensures SliceNamesIn(want) <= Written(c, want).slices.Keys
  {
    WrittenIs(c, want);
    WithSlicesAt(c.slices, want.slices);
  }

  lemma {:induction false} WantedHyperNodesIn(c: Cluster, want: Desired)
    requires Coherent(want)
    ensures HyperNodeNamesIn(want) <= Written(c, want).hyperNodes.Keys
  {
    WrittenIs(c, want);
    WithHyperNodesAt(c.hyperNodes, want.hyperNodes);
  }

  lemma {:induction false} WrittenAll(c: Cluster, want: Desired)
    requires Coherent(want)
    ensures AllWritten(c, Written(c, want), want)
  {
    WantedNodesIn(c, want);
    WantedSlicesIn(c, want);
    WantedHyperNodesIn(c, want);
    WrittenIs(c, want);
  }

  /** A plan cut short anywhere. */
  lemma {:induction false} PrefixSplits(c: Cluster, writes: seq<Call>, deletes: seq<Call>, k: nat)
    requires k <= |writes + deletes|
    ensures Run(c, (writes + deletes)[..k]) ==
              if k <= |writes| then Run(c, writes[..k]) else Run(Run(c, writes), deletes[..k - |writes|])
  {
    if k <= |writes| {
      assert (writes + deletes)[..k] == writes[..k];
    } else {
      assert (writes + deletes)[..k] == writes + deletes[..k - |writes|];
      RunConcat(c, writes, deletes[..k - |writes|]);
    }
  }

  /** Wherever the protocol stops, nothing old has been deleted unless everything new is stored. */
  lemma {:induction false} NothingDeletedEarly(c: Cluster, want: Desired, hyperNodes: seq<string>,
      slices: seq<string>, nodes: seq<string>, k: nat)
    requires Coherent(want) && Keyed(c) && IsPlan(c, want, hyperNodes, slices, nodes)
    requires k <= |Plan(want, hyperNodes, slices, nodes)|
    ensures var now := Run(c, Plan(want, hyperNodes, slices, nodes)[..k]);
            NothingLost(c, now) || AllWritten(c, now, want)
  {
    var writes, deletes := Writes(want), Deletes(hyperNodes, slices, nodes);
    PrefixSplits(c, writes, deletes, k);
    WritesAreWrites(want);
    if k <= |writes| {
      WritesLoseNothing(c, writes[..k]);
    } else {
      WrittenAll(c, want);
      WrittenKeyed(c, want);
      PlanSpares(c, want, hyperNodes, slices, nodes);
      DeletesSpareWritten(c, Written(c, want), want, deletes[..k - |writes|]);
    }
  }

  // ---------------------------------------------------------------- slices name nodes

  /** Every managed slice names a node that exists. */
  ghost predicate Anchored(c: Cluster) {
    forall n :: ManagedSlice(c, n) && c.slices[n].slice.nodeName.Some? ==> c.slices[n].slice.nodeName.value in c.nodes
  }

  ghost predicate KeepsAnchor(keep: set<string>, call: Call) {
    match call
    case WriteNode(_, _) => true
    case WriteStatus(_, _) => true
    case WriteSlice(s) => s.nodeName.Some? && s.nodeName.value in keep
    case WriteTopology(_, _) => true
    case WriteHyperNode(_) => true
    case DeleteHyperNode(_) => true
    case DeleteSlice(_) => true
    case DeleteNode(_) => false
  }

  /** Up to the first node delete, no call removes a node, and slices only name kept nodes. */
  lemma {:induction false} StaysAnchored(c: Cluster, keep: set<string>, calls: seq<Call>)
    requires Anchored(c) && forall i :: 0 <= i < |calls| ==> KeepsAnchor(keep, calls[i])
    requires (forall i :: 0 <= i < |calls| ==> !calls[i].WriteSlice?) || keep <= c.nodes.Keys
    ensures Anchored(Run(c, calls)) && c.nodes.Keys <= Run(c, calls).nodes.Keys
  {
    if calls != [] {
      var front := calls[..|calls| - 1];
      assert forall i :: 0 <= i < |front| ==> front[i] == calls[i];
      StaysAnchored(c, keep, front);
      assert KeepsAnchor(keep, calls[|calls| - 1]);
    }
  }

  /** Once every managed slice left names a kept node, deleting other nodes is harmless. */
  lemma {:induction false} NodeDeletesAnchored(c: Cluster, keep: set<string>, names: seq<string>)
    requires keep <= c.nodes.Keys && forall i :: 0 <= i < |names| ==> names[i] !in keep
    requires forall n :: ManagedSlice(c, n) && c.slices[n].slice.nodeName.Some? ==>
             c.slices[n].slice.nodeName.value in keep
    ensures Anchored(Run(c, NodeDeletes(names)))
  {
    NodesDeleted(c, names);
  }

  lemma {:induction false} WantedNodesWritten(c: Cluster, want: Desired)
    requires Coherent(want)
    ensures NodeNamesIn(want) <= Run(c, NodeWrites(want.nodes)).nodes.Keys
  {
    NodesWritten(c, want.nodes);
    WithNodesAt(c.nodes, want.nodes);
  }

  function AfterNodes(want: Desired): seq<Call> {
    SliceWrites(want.slices) + [WriteTopology(want.topology.0, want.topology.1)] + HyperNodeWrites(want.hyperNodes)
  }

  lemma {:induction false} AfterNodesKeepAnchor(want: Desired, hyperNodes: seq<string>, slices: seq<string>)
    requires Coherent(want)
    ensures var calls := AfterNodes(want) + (HyperNodeDeletes(hyperNodes) + SliceDeletes(slices));
            forall i :: 0 <= i < |calls| ==> KeepsAnchor(NodeNamesIn(want), calls[i])
  {
  }

  /** The plan in the three parts that matter here. */
  lemma {:induction false} PlanParts(want: Desired, hyperNodes: seq<string>, slices: seq<string>, nodes: seq<string>)
    ensures Plan(want, hyperNodes, slices, nodes) ==
              NodeWrites(want.nodes)
              + ((AfterNodes(want) + (HyperNodeDeletes(hyperNodes) + SliceDeletes(slices))) + NodeDeletes(nodes))
  {
  }

  lemma {:induction false} NoNodesDeleted(m: map<string, NodeObject>)
    ensures m - (set x: string | x in []) == m
  {
  }

  lemma {:induction false} GeneratedSliceNamesNode(c: Cluster, want: Desired, n: string)
    requires Coherent(want) && SlicesAsGenerated(c, Final(c, want), want) && ManagedSlice(Final(c, want), n)
    requires Final(c, want).slices[n].slice.nodeName.Some?
    ensures Final(c, want).slices[n].slice.nodeName.value in NodeNamesIn(want)
  {
    var i :| 0 <= i < |want.slices| && want.slices[i].name == n;
  }

  lemma {:induction false} OnlyWantedSlicesLeft(c: Cluster, want: Desired, hyperNodes: seq<string>,
      slices: seq<string>, nodes: seq<string>)
    requires Coherent(want) && Keyed(c) && IsPlan(c, want, hyperNodes, slices, nodes)
    ensures var v := Run(c, Writes(want) + (HyperNodeDeletes(hyperNodes) + SliceDeletes(slices)));
            && NodeNamesIn(want) <= v.nodes.Keys
            && (forall n :: ManagedSlice(v, n) && v.slices[n].slice.nodeName.Some? ==>
              v.slices[n].slice.nodeName.value in NodeNamesIn(want))
            && v.nodes == Written(c, want).nodes
  {
    var w := Written(c, want);
    RunConcat(c, Writes(want), HyperNodeDeletes(hyperNodes) + SliceDeletes(slices));
    assert Deletes(hyperNodes, slices, []) == HyperNodeDeletes(hyperNodes) + SliceDeletes(slices);
    DeletesRun(w, hyperNodes, slices, []);
    SameSet(slices, DoomedSlices(w, NodeNamesIn(want), SliceNamesIn(want)));
    WantedNodesIn(c, want);
    SlicesConverge(c, want);
    var v := Run(c, Writes(want) + (HyperNodeDeletes(hyperNodes) + SliceDeletes(slices)));
    NoNodesDeleted(w.nodes);
    forall n | ManagedSlice(v, n) && v.slices[n].slice.nodeName.Some?
      ensures v.slices[n].slice.nodeName.value in NodeNamesIn(want)
    {
      assert ManagedSlice(Final(c, want), n);
      GeneratedSliceNamesNode(c, want, n);
    }
  }

  function Middle(want: Desired, hyperNodes: seq<string>, slices: seq<string>): seq<Call> {
    AfterNodes(want) + (HyperNodeDeletes(hyperNodes) + SliceDeletes(slices))
  }

  lemma {:induction false} AnchoredWhileWritingNodes(c: Cluster, want: Desired, k: nat)
    requires Anchored(c) && k <= |NodeWrites(want.nodes)|
    ensures Anchored(Run(c, NodeWrites(want.nodes)[..k]))
  {
    NodeWritesAreWrites(want.nodes);
    StaysAnchored(c, {}, NodeWrites(want.nodes)[..k]);
  }

  lemma {:induction false} AnchoredInTheMiddle(c: Cluster, want: Desired, hyperNodes: seq<string>,
      slices: seq<string>, k: nat)
    requires Coherent(want) && Anchored(c) && k <= |Middle(want, hyperNodes, slices)|
    ensures Anchored(Run(Run(c, NodeWrites(want.nodes)), Middle(want, hyperNodes, slices)[..k]))
  {
    var first := NodeWrites(want.nodes);
    assert first[..|first|] == first;
    AnchoredWhileWritingNodes(c, want, |first|);
    WantedNodesWritten(c, want);
    AfterNodesKeepAnchor(want, hyperNodes, slices);
    StaysAnchored(Run(c, first), NodeNamesIn(want), Middle(want, hyperNodes, slices)[..k]);
  }

  lemma {:induction false} AnchoredWhileDeletingNodes(c: Cluster, want: Desired, hyperNodes: seq<string>,
      slices: seq<string>, nodes: seq<string>, k: nat)
    requires Coherent(want) && Keyed(c) && IsPlan(c, want, hyperNodes, slices, nodes) && k <= |nodes|
    ensures Anchored(Run(Run(Run(c, NodeWrites(want.nodes)), Middle(want, hyperNodes, slices)),
            NodeDeletes(nodes)[..k]))
  {
    var first, middle := NodeWrites(want.nodes), Middle(want, hyperNodes, slices);
    RunConcat(c, first, middle);
    assert first + middle == Writes(want) + (HyperNodeDeletes(hyperNodes) + SliceDeletes(slices));
    OnlyWantedSlicesLeft(c, want, hyperNodes, slices, nodes);
    var names := nodes[..k];
    assert NodeDeletes(nodes)[..k] == NodeDeletes(names);
    forall i | 0 <= i < |names|
      ensures names[i] !in NodeNamesIn(want)
    {
      InDoomed(nodes, DoomedNodes(Written(c, want), NodeNamesIn(want)), i);
    }
    NodeDeletesAnchored(Run(c, first + middle), NodeNamesIn(want), names);
  }

  /** A plan in three parts, cut short anywhere. */
  lemma {:induction false} CutInThree(c: Cluster, first: seq<Call>, middle: seq<Call>, last: seq<Call>, k: nat)
    requires k <= |first| + |middle| + |last|
    ensures Run(c, (first + (middle + last))[..k]) ==
              if k <= |first| then Run(c, first[..k])
              else if k <= |first| + |middle| then Run(Run(c, first), middle[..k - |first|])
              else Run(Run(Run(c, first), middle), last[..k - |first| - |middle|])
  {
    PrefixSplits(c, first, middle + last, k);
    if k > |first| {
      PrefixSplits(Run(c, first), middle, last, k - |first|);
    }
  }

  /** If every managed slice named an existing node at the start, it does at every step. */
  lemma {:induction false} AnchoredAlong(c: Cluster, want: Desired, hyperNodes: seq<string>, slices: seq<string>,
      nodes: seq<string>, k: nat)
    requires Coherent(want) && Keyed(c) && Anchored(c) && IsPlan(c, want, hyperNodes, slices, nodes)
    requires k <= |Plan(want, hyperNodes, slices, nodes)|
    ensures Anchored(Run(c, Plan(want, hyperNodes, slices, nodes)[..k]))
  {
    PlanParts(want, hyperNodes, slices, nodes);
    AnchoredInParts(c, want, hyperNodes, slices, nodes, k);
  }

  lemma {:induction false} AnchoredInParts(c: Cluster, want: Desired, hyperNodes: seq<string>, slices: seq<string>,
      nodes: seq<string>, k: nat)
    requires Coherent(want) && Keyed(c) && Anchored(c) && IsPlan(c, want, hyperNodes, slices, nodes)
    requires k <= |NodeWrites(want.nodes)| + |Middle(want, hyperNodes, slices)| + |NodeDeletes(nodes)|
    ensures Anchored(Run(c, (NodeWrites(want.nodes) + (Middle(want, hyperNodes, slices) + NodeDeletes(nodes)))[..k]))
  {
    var a, b := |NodeWrites(want.nodes)|, |Middle(want, hyperNodes, slices)|;
    CutInThree(c, NodeWrites(want.nodes), Middle(want, hyperNodes, slices), NodeDeletes(nodes), k);
    if k <= a {
      AnchoredWhileWritingNodes(c, want, k);
    } else if k <= a + b {
      AnchoredInTheMiddle(c, want, hyperNodes, slices, k - a);
    } else {
      AnchoredWhileDeletingNodes(c, want, hyperNodes, slices, nodes, k - a - b);
    }
  }

  // ---------------------------------------------------------------- what is forgotten

  /** Devices of managed slices may have gained taints; nothing else has changed. */
  ghost predicate IsTainting(before: Cluster, after: Cluster) {
    && after == before.(slices := after.slices) && after.slices.Keys == before.slices.Keys
    && forall n :: n in before.slices ==>
         if ManagedSlice(before, n)
         then after.slices[n] ==
           before.slices[n].(slice := before.slices[n].slice.(devices := after.slices[n].slice.devices))
         else after.slices[n] == before.slices[n]
  }

  /** A slice name settles alike with and without the taints. */
  lemma {:induction false} SliceAfterTaints(before: Cluster, after: Cluster, want: Desired, n: string)
    requires Coherent(want) && Keyed(before) && Keyed(after) && IsTainting(before, after)
    ensures n in Final(before, want).slices <==> n in Final(after, want).slices
    ensures n in Final(before, want).slices ==> Final(before, want).slices[n] == Final(after, want).slices[n]
  {
    SlicesConverge(before, want);
    SlicesConverge(after, want);
    if n in SliceNamesIn(want) {
      var i :| 0 <= i < |want.slices| && want.slices[i].name == n;
      assert SlicesAsGenerated(before, Final(before, want), want) && SlicesAsGenerated(after, Final(after, want), want);
    } else {
      assert ManagedSlice(before, n) <==> ManagedSlice(after, n);
      if ManagedSlice(before, n) {
        ManagedSliceGoes(before, want, n);
        ManagedSliceGoes(after, want, n);
      }
    }
  }

  lemma {:induction false} ManagedSliceGoes(c: Cluster, want: Desired, n: string)
    requires Coherent(want) && Keyed(c) && ManagedSlice(c, n) && n !in SliceNamesIn(want)
    ensures n !in Final(c, want).slices
  {
    WrittenIs(c, want);
    WithSlicesAt(c.slices, want.slices);
    assert want.slices[0].name in SliceNamesIn(want);
    assert forall i :: 0 <= i < |want.slices| ==> want.slices[i].name in SliceNamesIn(want);
    assert Written(c, want).slices[n] == c.slices[n];
  }

  /** Where the nodes, HyperNodes and topologies end depends on those alone. */
  lemma {:induction false} FinalByParts(c: Cluster, d: Cluster, want: Desired)
    requires c == d.(slices := c.slices)
    ensures Final(c, want) == Final(d, want).(slices := Final(c, want).slices)
  {
    WrittenIs(c, want);
    WrittenIs(d, want);
    assert DoomedNodes(Written(c, want), NodeNamesIn(want)) == DoomedNodes(Written(d, want), NodeNamesIn(want));
    assert DoomedHyperNodes(Written(c, want), want) == DoomedHyperNodes(Written(d, want), want);
  }

  /** Taints leave no trace: applying afterwards ends in the very store it would have ended in
      without them. */
  lemma {:induction false} TaintsAreErased(before: Cluster, after: Cluster, want: Desired)
    requires Coherent(want) && Keyed(before) && IsTainting(before, after)
    ensures Final(after, want) == Final(before, want)
  {
    assert Keyed(after);
    FinalByParts(after, before, want);
    forall n
      ensures n in Final(before, want).slices <==> n in Final(after, want).slices
      ensures n in Final(before, want).slices ==> Final(before, want).slices[n] == Final(after, want).slices[n]
    {
      SliceAfterTaints(before, after, want, n);
    }
    assert Final(before, want).slices == Final(after, want).slices;
  }

  lemma {:induction false} WithNodesAgain(m: map<string, NodeObject>, nodes: seq<NamedNode>)
    requires forall i, j :: 0 <= i < j < |nodes| ==> nodes[i].name != nodes[j].name
    requires forall i :: 0 <= i < |nodes| ==>
             nodes[i].name in m && m[nodes[i].name] == nodes[i].node.(other := m[nodes[i].name].other)
    ensures WithNodes(m, nodes) == m
  {
    if nodes != [] {
      WithNodesAgain(m, nodes[..|nodes| - 1]);
    }
  }

  lemma {:induction false} WithSlicesAgain(m: map<string, SliceObject>, slices: seq<ResourceSlice>)
    requires forall i :: 0 <= i < |slices| ==> slices[i].name in m && m[slices[i].name].slice == slices[i]
    ensures WithSlices(m, slices) == m
  {
    if slices != [] {
      WithSlicesAgain(m, slices[..|slices| - 1]);
    }
  }

  lemma {:induction false} WithHyperNodesAgain(m: map<string, HyperObject>, hns: seq<HyperNode>)
    requires forall i :: 0 <= i < |hns| ==> hns[i].name in m && m[hns[i].name] == HyperObject(hns[i], true)
    ensures WithHyperNodes(m, hns) == m
  {
    if hns != [] {
      WithHyperNodesAgain(m, hns[..|hns| - 1]);
    }
  }

  lemma {:induction false} NodesAgain(c: Cluster, want: Desired)
    requires Coherent(want)
    ensures WithNodes(Final(c, want).nodes, want.nodes) == Final(c, want).nodes
  {
    NodesConverge(c, want);
    WithNodesAgain(Final(c, want).nodes, want.nodes);
  }

  lemma {:induction false} SlicesAgain(c: Cluster, want: Desired)
    requires Coherent(want) && Keyed(c)
    ensures WithSlices(Final(c, want).slices, want.slices) == Final(c, want).slices
  {
    SlicesConverge(c, want);
    WithSlicesAgain(Final(c, want).slices, want.slices);
  }

  lemma {:induction false} HyperNodesAgain(c: Cluster, want: Desired)
    requires Coherent(want)
    ensures WithHyperNodes(Final(c, want).hyperNodes, want.hyperNodes) == Final(c, want).hyperNodes
  {
    HyperNodesConverge(c, want);
    WithHyperNodesAgain(Final(c, want).hyperNodes, want.hyperNodes);
  }

  lemma {:induction false} WrittenAgain(c: Cluster, want: Desired)
    requires Coherent(want) && Keyed(c)
    ensures Written(Final(c, want), want) == Final(c, want)
  {
    var f := Final(c, want);
    NodesAgain(c, want);
    SlicesAgain(c, want);
    HyperNodesAgain(c, want);
    WrittenIs(c, want);
    WrittenIs(f, want);
    assert f.topologies[want.topology.0 := want.topology.1] == f.topologies;
  }

  lemma {:induction false} NothingDoomed(c: Cluster, want: Desired)
    requires Coherent(want) && Keyed(c)
    ensures var f := Final(c, want);
            && DoomedNodes(f, NodeNamesIn(want)) == {} && DoomedHyperNodes(f, want) == {}
            && DoomedSlices(f, NodeNamesIn(want), SliceNamesIn(want)) == {}
  {
    NodesConverge(c, want);
    SlicesConverge(c, want);
    HyperNodesConverge(c, want);
    KeyedFinal(c, want);
  }

  /** Applying the same topology again changes nothing and deletes nothing. */
  lemma {:induction false} ApplyIsIdempotent(c: Cluster, want: Desired)
    requires Coherent(want) && Keyed(c)
    ensures Final(Final(c, want), want) == Final(c, want)
    ensures forall hyperNodes, slices, nodes :: IsPlan(Final(c, want), want, hyperNodes, slices, nodes) ==>
              hyperNodes == [] && slices == [] && nodes == []
  {
    var f := Final(c, want);
    WrittenAgain(c, want);
    NothingDoomed(c, want);
    assert f.nodes - {} == f.nodes && f.slices - {} == f.slices && f.hyperNodes - {} == f.hyperNodes;
    forall hyperNodes, slices, nodes | IsPlan(f, want, hyperNodes, slices, nodes)
      ensures hyperNodes == [] && slices == [] && nodes == []
    {
      NothingListed(hyperNodes);
      NothingListed(slices);
      NothingListed(nodes);
    }
  }

  lemma {:induction false} NothingListed(names: seq<string>)
    requires multiset(names) == multiset(var none: set<string> := {}; none)
    ensures names == []
  {
    assert |multiset(names)| == |names|;
  }

  lemma {:induction false} KeyedFinal(c: Cluster, want: Desired)
    requires Coherent(want) && Keyed(c)
    ensures Keyed(Final(c, want))
  {
    WrittenKeyed(c, want);
  }
}
