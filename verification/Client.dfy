/** The client that makes a cluster match a topology, one API call after another. Any call may
    be refused, and a refused call may or may not have reached the store. */
module Client {
  import opened Options
  import opened Topology
  import opened Resolve
  import opened Expansion
  import opened Resources
  import opened Levels
  import opened HyperNodes
  import opened Store
  import opened Convergence
  import opened Protocol
  import opened Generating
  import opened History
  import opened Ranges
  import opened Faults

  // ---------------------------------------------------------------- stopping part of the way

  /** The calls were made in order, all of them or, on an error, up to some point. */
  ghost predicate Executed(before: Cluster, calls: seq<Call>, ok: bool, after: Cluster) {
    exists k :: 0 <= k <= |calls| && after == Run(before, calls[..k]) && (ok ==> k == |calls|)
  }

  lemma {:induction false} ExecutedAll(before: Cluster, calls: seq<Call>, ok: bool, after: Cluster)
    requires after == Run(before, calls)
    ensures Executed(before, calls, ok, after)
  {
    assert calls[..|calls|] == calls;
  }

  lemma {:induction false} ExecutedNone(before: Cluster, calls: seq<Call>)
    ensures Executed(before, calls, false, before)
  {
    assert calls[..0] == [];
  }

  lemma {:induction false} ExecutedOk(before: Cluster, calls: seq<Call>, after: Cluster)
    requires Executed(before, calls, true, after)
    ensures after == Run(before, calls)
  {
    assert calls[..|calls|] == calls;
  }

  /** Some calls all made, then more of them. */
  lemma {:induction false} ExecutedThen(before: Cluster, first: seq<Call>, between: Cluster, more: seq<Call>,
      ok: bool, after: Cluster)
    requires between == Run(before, first) && Executed(between, more, ok, after)
    ensures Executed(before, first + more, ok, after)
  {
    var k :| 0 <= k <= |more| && after == Run(between, more[..k]) && (ok ==> k == |more|);
    RunConcat(before, first, more[..k]);
    assert (first + more)[..|first| + k] == first + more[..k];
  }

  /** What stopped early has also stopped early in any longer list. */
  lemma {:induction false} StoppedEarly(before: Cluster, calls: seq<Call>, ok: bool, after: Cluster, more: seq<Call>)
    requires Executed(before, calls, ok, after)
    ensures Executed(before, calls + more, false, after)
  {
    var k :| 0 <= k <= |calls| && after == Run(before, calls[..k]);
    assert (calls + more)[..k] == calls[..k];
  }

  lemma {:induction false} OneCall(c: Cluster, call: Call)
    ensures Run(c, [call]) == Step(c, call)
  {
    assert [call][..0] == [];
  }

  lemma {:induction false} PickedGrows(s: seq<string>, pick: set<string>, k: nat)
    requires k <= |s|
    ensures Picked(s[..k], pick) <= Picked(s, pick)
    decreases |s|
  {
    if k == |s| {
      assert s[..k] == s;
    } else {
      PickedGrows(s[..|s| - 1], pick, k);
      assert s[..|s| - 1][..k] == s[..k];
    }
  }

  /** Where element i comes among those picked. */
  lemma {:induction false} PickedAt(s: seq<string>, pick: set<string>, i: nat)
    requires i < |s|
    ensures |Picked(s[..i], pick)| <= |Picked(s[..i + 1], pick)| <= |Picked(s, pick)|
    ensures if s[i] in pick
            then |Picked(s[..i + 1], pick)| == |Picked(s[..i], pick)| + 1
              && Picked(s, pick)[|Picked(s[..i], pick)|] == s[i]
            else Picked(s[..i + 1], pick) == Picked(s[..i], pick)
  {
    assert s[..i + 1][..i] == s[..i];
    PickedGrows(s, pick, i + 1);
  }

  // ---------------------------------------------------------------- doomed objects

  lemma {:induction false} DoomedBySlices(c: Cluster, d: Cluster, keepNodes: set<string>, keepSlices: set<string>)
    requires c.slices == d.slices
    ensures DoomedSlices(c, keepNodes, keepSlices) == DoomedSlices(d, keepNodes, keepSlices)
  {
  }

  lemma {:induction false} DoomedByNodes(c: Cluster, d: Cluster, keepNodes: set<string>)
    requires c.nodes == d.nodes
    ensures DoomedNodes(c, keepNodes) == DoomedNodes(d, keepNodes)
  {
  }

  /** What a prune removes: of the managed slices those not kept by name, or, where no name is kept,
      those not on a kept node; and the managed nodes not kept. */
  lemma {:induction false} DoomedAre(c: Cluster, keepNodes: set<string>, keepSlices: set<string>, n: string)
    ensures n in DoomedSlices(c, keepNodes, keepSlices) <==>
              && n in c.slices && ManagedSlice(c, n)
              && (c.slices[n].slice.name !in keepSlices)
              && (keepSlices == {} ==> forall node :: c.slices[n].slice.nodeName == Some(node) ==> node !in keepNodes)
    ensures n in DoomedNodes(c, keepNodes) <==> ManagedNode(c, n) && n !in keepNodes
  {
  }

  /** What a removal is reported as. */
  function Reported(kind: string, names: seq<string>): seq<string> {
    seq(|names|, i requires 0 <= i < |names| => kind + names[i])
  }

  lemma {:induction false} ReportedNext(kind: string, names: seq<string>, k: nat)
    requires k < |names|
    ensures Reported(kind, names)[..k + 1] == Reported(kind, names)[..k] + [kind + names[k]]
  {
  }

  predicate HasMIG(nodes: seq<ResolvedNode>) {
    exists k :: 0 <= k < |nodes| && nodes[k].mig.Some?
  }

  /** Some node of the document is in a pool with MIG enabled. */
  ghost predicate DeclaresMIG(ct: ClusterTopology) {
    exists i, k :: 0 <= i < |ct.racks| && 0 <= k < |ct.racks[i].nodes| && IsMIG(ct, ct.racks[i].nodes[k])
  }

  ghost predicate IsMIG(ct: ClusterTopology, node: Node) {
    && node.pool in ct.nodePools && ct.nodePools[node.pool].mig.Some?
    && ct.nodePools[node.pool].mig.value.enabled
  }

  lemma {:induction false} MIGAsDeclared(ct: ClusterTopology, load: Loader)
    requires Valid(ct)
    ensures HasMIG(Expanded(ct, load, ct.racks)) <==> DeclaresMIG(ct)
  {
    var nodes := Expanded(ct, load, ct.racks);
    ValidResolves(ct, load);
    assert ct.racks[..|ct.racks|] == ct.racks;
    if x :| 0 <= x < |nodes| && nodes[x].mig.Some? {
      assert nodes[x] in nodes;
      var i: nat, k: nat :| From(ct, load, i, k, nodes[x]);
      NodeShape(ct, load, i, k, nodes[x]);
      ValidPoolAt(ct, i, k);
      assert IsMIG(ct, ct.racks[i].nodes[k]);
    }
    if i: nat, k: nat :| i < |ct.racks| && k < |ct.racks[i].nodes| && IsMIG(ct, ct.racks[i].nodes[k]) {
      var n := NodeOf(ct, load, ct.racks[i], ct.racks[i].nodes[k]);
      ExpandedHas(ct, load, |ct.racks|, i, k);
      NodeShape(ct, load, i, k, n);
      var x :| 0 <= x < |nodes| && nodes[x] == n;
    }
  }

  /** What an apply needs to know of a valid document. */
  lemma {:induction false} ValidForApply(ct: ClusterTopology, load: Loader)
    requires Valid(ct)
    ensures PoolsDefined(ct) && FirstUnmodelled(ct, NodesOf(ct.racks)) == None
    ensures HasMIG(Expanded(ct, load, ct.racks)) <==> DeclaresMIG(ct)
  {
    ValidResolves(ct, load);
    MIGAsDeclared(ct, load);
  }

  /** What an apply reports. */
  datatype TopologyResult = TopologyResult(name: string, nodes: nat, slices: nat, devices: nat, removed: seq<string>)

  /** Node calls leave the slices alone. */
  lemma {:induction false} NodeWritesKeepSlices(before: Cluster, nodes: seq<NamedNode>, ok: bool, after: Cluster)
    requires Executed(before, NodeWrites(nodes), ok, after)
    ensures after.slices == before.slices
  {
    var calls := NodeWrites(nodes);
    var k :| 0 <= k <= |calls| && after == Run(before, calls[..k]);
    NodeWritesAreWrites(nodes);
    NodeCallsKeepSlices(before, calls[..k]);
  }

  lemma {:induction false} NodeCallsKeepSlices(c: Cluster, calls: seq<Call>)
    requires forall i :: 0 <= i < |calls| ==> calls[i].WriteNode? || calls[i].WriteStatus?
    ensures Run(c, calls).slices == c.slices
  {
    if calls != [] {
      NodeCallsKeepSlices(c, calls[..|calls| - 1]);
    }
  }

  const SLICE_KIND := "resourceslice/"
  const NODE_KIND := "node/"

  class Client {
    /** Whether the server stores the counters partitions are told apart by, or drops them. */
    const keepsCounters: bool
    var store: Cluster

    constructor (c: Cluster, keepsCounters: bool)
      ensures store == c && this.keepsCounters == keepsCounters
    {
      this.keepsCounters, store := keepsCounters, c;
    }

    // -------------------------------------------------------------- single calls

    /** One request: refused, accepted, or accepted with its answer lost. */
    method Attempt(next: Cluster) returns (ok: bool)
      modifies this
      ensures store == next || (!ok && store == old(store))
    {
      var landed: bool := *;
      ok := *;
      if ok || landed {
        store := next;
      }
    }

    method Send(call: Call) returns (ok: bool)
      modifies this
      ensures Executed(old(store), [call], ok, store)
    {
      ok := Attempt(Step(store, call));
      OneAttempt(old(store), call, ok, store);
    }

    // -------------------------------------------------------------- writes

    /** A node is created without its status, which is a second call; an existing one keeps what
        the topology does not own. */
    method ApplyNode(name: string, node: NodeObject) returns (ok: bool)
      modifies this
      ensures Executed(old(store), [WriteNode(name, node), WriteStatus(name, node)], ok, store)
    {
      var first, second := WriteNode(name, node), WriteStatus(name, node);
      assert [first, second] == [first] + [second];
      if name !in store.nodes {
        ok := Attempt(CreateNode(store, name, node));
      } else {
        var existing := store.nodes[name].(labels := node.labels, annotations := node.annotations,
          taints := node.taints);
        ok := Attempt(UpdateNode(store, name, existing));
      }
      OneAttempt(old(store), first, ok, store);
      if !ok {
        StoppedEarly(old(store), [first], false, store, [second]);
        return;
      }
      OneCall(old(store), first);
      ghost var between := store;
      var existing := store.nodes[name].(status := node.status);
      ok := Attempt(UpdateNodeStatus(store, name, existing));
      OneAttempt(between, second, ok, store);
      ExecutedThen(old(store), [first], between, [second], ok, store);
    }

    method ApplyNodes(nodes: seq<NamedNode>) returns (ok: bool)
      modifies this
      ensures Executed(old(store), NodeWrites(nodes), ok, store)
    {
      for i := 0 to |nodes|
        invariant store == Run(old(store), NodeWrites(nodes[..i]))
      {
        ghost var between := store;
        var applied := ApplyNode(nodes[i].name, nodes[i].node);
        ghost var pair := [WriteNode(nodes[i].name, nodes[i].node), WriteStatus(nodes[i].name, nodes[i].node)];
        assert nodes[..i + 1][..i] == nodes[..i];
        ExecutedThen(old(store), NodeWrites(nodes[..i]), between, pair, applied, store);
        if !applied {
          ghost var rest := NodeWritesSplit(nodes, i + 1);
          StoppedEarly(old(store), NodeWrites(nodes[..i + 1]), false, store, rest);
          return false;
        }
        ExecutedOk(old(store), NodeWrites(nodes[..i + 1]), store);
      }
      assert nodes[..|nodes|] == nodes;
      ExecutedAll(old(store), NodeWrites(nodes), true, store);
      return true;
    }

    /** A slice found under the name is adopted: its labels and spec are replaced. */
    method ApplyResourceSlice(slice: ResourceSlice) returns (ok: bool)
      modifies this
      ensures Executed(old(store), [WriteSlice(slice)], ok, store)
    {
      if slice.name !in store.slices {
        ok := Attempt(PutSlice(store, SliceObject(slice, FRESH)));
      } else {
        ok := Attempt(PutSlice(store, store.slices[slice.name].(slice := slice)));
      }
      OneAttempt(old(store), WriteSlice(slice), ok, store);
    }

    /** The slices in order; their devices are counted on the way. */
    method ApplySlices(slices: seq<ResourceSlice>) returns (ok: bool, devices: nat)
      modifies this
      ensures Executed(old(store), SliceWrites(slices), ok, store)
      ensures ok ==> devices == CountDevices(slices)
    {
      ghost var calls := SliceWrites(slices);
      devices := 0;
      for i := 0 to |slices|
        invariant store == Run(old(store), calls[..i]) && devices == CountDevices(slices[..i])
      {
        ghost var between := store;
        var applied := ApplyResourceSlice(slices[i]);
        OneMore(old(store), calls, i, between, applied, store);
        if !applied {
          return false, devices;
        }
        assert slices[..i + 1][..i] == slices[..i];
        devices := devices + |slices[i].devices|;
      }
      assert slices[..|slices|] == slices;
      assert calls[..|slices|] == calls;
      ExecutedAll(old(store), calls, true, store);
      ok := true;
    }

    /** A dry run, refused or answered: it passes only if the counters sent come back. */
    method CheckPartitionableDevices() returns (ok: bool)
      ensures ok ==> keepsCounters
    {
      var answered: bool := *;
      ok := answered && keepsCounters;
    }

    /** A call that changes nothing the model keeps. */
    method ApplyMIGDeviceClass() returns (ok: bool)
    {
      ok := *;
    }

    method WriteHyperNodes(hns: seq<HyperNode>) returns (ok: bool)
      modifies this
      ensures Executed(old(store), HyperNodeWrites(hns), ok, store)
    {
      ghost var calls := HyperNodeWrites(hns);
      for i := 0 to |hns|
        invariant store == Run(old(store), calls[..i])
      {
        ghost var between := store;
        var applied := Send(WriteHyperNode(hns[i]));
        OneMore(old(store), calls, i, between, applied, store);
        if !applied {
          return false;
        }
      }
      assert calls[..|hns|] == calls;
      ExecutedAll(old(store), calls, true, store);
      return true;
    }

    // -------------------------------------------------------------- deletes

    /** The managed HyperNodes that are not part of the tree go, in the order the server lists
        them, if it lists them at all. */
    method DeleteStaleHyperNodes(tree: seq<HyperNode>) returns (ok: bool, ghost deleted: seq<string>)
      modifies this
      ensures multiset(deleted) == multiset(StaleHyperNodes(old(store), tree))
      ensures Executed(old(store), HyperNodeDeletes(deleted), ok, store)
    {
      ghost var doomed := StaleHyperNodes(store, tree);
      var keep := NamesOfTree(tree);
      ok := *;
      if !ok {
        deleted := BagHasSequence(multiset(doomed));
        ExecutedNone(store, HyperNodeDeletes(deleted));
        return;
      }
      var managed := set n | n in store.hyperNodes && ManagedHyperNode(store, n);
      var listed := Enumerate(managed);
      KeysAreIn(listed, managed);
      PickedIs(listed, managed, doomed);
      deleted := Picked(listed, doomed);
      ghost var calls, k := HyperNodeDeletes(deleted), 0;
      for i := 0 to |listed|
        invariant k == |Picked(listed[..i], doomed)| <= |calls| && store == Run(old(store), calls[..k])
      {
        PickedAt(listed, doomed, i);
        if listed[i] in keep {
          continue;
        }
        ghost var between := store;
        ok := Send(DeleteHyperNode(listed[i]));
        OneMore(old(store), calls, k, between, ok, store);
        if !ok {
          return;
        }
        k := k + 1;
      }
      assert listed[..|listed|] == listed && calls[..k] == calls;
      ExecutedAll(old(store), calls, true, store);
      ok := true;
    }

    method ApplyHyperNodes(tree: seq<HyperNode>) returns (ok: bool, ghost deleted: seq<string>)
      modifies this
      ensures multiset(deleted) == multiset(StaleHyperNodes(Run(old(store), HyperNodeWrites(tree)), tree))
      ensures Executed(old(store), HyperNodeWrites(tree) + HyperNodeDeletes(deleted), ok, store)
    {
      deleted := BagHasSequence(multiset(StaleHyperNodes(Run(old(store), HyperNodeWrites(tree)), tree)));
      ok := WriteHyperNodes(tree);
      if !ok {
        StoppedEarly(old(store), HyperNodeWrites(tree), false, store, HyperNodeDeletes(deleted));
        return;
      }
      ExecutedOk(old(store), HyperNodeWrites(tree), store);
      ghost var between := store;
      ok, deleted := DeleteStaleHyperNodes(tree);
      ExecutedThen(old(store), HyperNodeWrites(tree), between, HyperNodeDeletes(deleted), ok, store);
    }

    /** Go through a listing of slices and delete those that are not kept. */
    method DeleteUnkeptSlices(listed: seq<string>, found: map<string, SliceObject>, keepNodes: set<string>,
        keepSlices: set<string>,
        ghost doomed: set<string>)
      returns (ok: bool, removed: seq<string>)
      requires forall i :: 0 <= i < |listed| ==>
                 listed[i] in found && (listed[i] in doomed <==>
                   !KeepsSlice(found[listed[i]].slice, keepNodes, keepSlices))
      modifies this
      ensures Executed(old(store), SliceDeletes(Picked(listed, doomed)), ok, store)
      ensures removed <= Reported(SLICE_KIND, Picked(listed, doomed))
              && (ok ==> removed == Reported(SLICE_KIND, Picked(listed, doomed)))
    {
      removed := [];
      ghost var deleted := Picked(listed, doomed);
      ghost var calls := SliceDeletes(deleted);
      for i := 0 to |listed|
        invariant |removed| == |Picked(listed[..i], doomed)| <= |calls| && store == Run(old(store), calls[..|removed|])
        invariant removed == Reported(SLICE_KIND, deleted)[..|removed|]
      {
        PickedAt(listed, doomed, i);
        var slice := found[listed[i]].slice;
        if slice.name in keepSlices {
          continue;
        }
        if |keepSlices| == 0 && slice.nodeName.Some? && slice.nodeName.value in keepNodes {
          continue;
        }
        ghost var between := store;
        ok := Send(DeleteSlice(listed[i]));
        OneMore(old(store), calls, |removed|, between, ok, store);
        if !ok {
          return;
        }
        ReportedNext(SLICE_KIND, deleted, |removed|);
        removed := removed + [SLICE_KIND + listed[i]];
      }
      assert listed[..|listed|] == listed && calls[..|removed|] == calls;
      ExecutedAll(old(store), calls, true, store);
      ok := true;
    }

    /** Managed slices that are not kept go. */
    method PruneSlices(keepNodes: set<string>, keepSlices: set<string>)
      returns (ok: bool, removed: seq<string>, ghost deleted: seq<string>)
      modifies this
      ensures multiset(deleted) == multiset(DoomedSlices(old(store), keepNodes, keepSlices))
      ensures Executed(old(store), SliceDeletes(deleted), ok, store)
      ensures removed <= Reported(SLICE_KIND, deleted) && (ok ==> removed == Reported(SLICE_KIND, deleted))
    {
      ghost var doomed := DoomedSlices(store, keepNodes, keepSlices);
      ok := *;
      if !ok {
        removed := [];
        deleted := BagHasSequence(multiset(doomed));
        ExecutedNone(store, SliceDeletes(deleted));
        return;
      }
      var managed := set n | n in store.slices && ManagedSlice(store, n);
      var listed := Enumerate(managed);
      KeysAreIn(listed, managed);
      PickedIs(listed, managed, doomed);
      deleted := Picked(listed, doomed);
      ok, removed := DeleteUnkeptSlices(listed, store.slices, keepNodes, keepSlices, doomed);
    }

    /** Managed nodes that are not kept go. */
    method PruneNodes(keepNodes: set<string>) returns (ok: bool, removed: seq<string>, ghost deleted: seq<string>)
      modifies this
      ensures multiset(deleted) == multiset(DoomedNodes(old(store), keepNodes))
      ensures Executed(old(store), NodeDeletes(deleted), ok, store)
      ensures removed <= Reported(NODE_KIND, deleted) && (ok ==> removed == Reported(NODE_KIND, deleted))
    {
      ghost var doomed := DoomedNodes(store, keepNodes);
      ok := *;
      if !ok {
        removed := [];
        deleted := BagHasSequence(multiset(doomed));
        ExecutedNone(store, NodeDeletes(deleted));
        return;
      }
      var managed := set n | n in store.nodes && ManagedNode(store, n);
      var listed := Enumerate(managed);
      KeysAreIn(listed, managed);
      PickedIs(listed, managed, doomed);
      deleted, removed := Picked(listed, doomed), [];
      ghost var calls := NodeDeletes(deleted);
      for i := 0 to |listed|
        invariant |removed| == |Picked(listed[..i], doomed)| <= |calls| && store == Run(old(store), calls[..|removed|])
        invariant removed == Reported(NODE_KIND, deleted)[..|removed|]
      {
        PickedAt(listed, doomed, i);
        if listed[i] in keepNodes {
          continue;
        }
        ghost var between := store;
        ok := Send(Call.DeleteNode(listed[i]));
        OneMore(old(store), calls, |removed|, between, ok, store);
        if !ok {
          return;
        }
        ReportedNext(NODE_KIND, deleted, |removed|);
        removed := removed + [NODE_KIND + listed[i]];
      }
      assert listed[..|listed|] == listed && calls[..|removed|] == calls;
      ExecutedAll(old(store), calls, true, store);
      ok := true;
    }

    /** Slices first: a node is deleted only once no slice that is to go still names it. */
    method Prune(keepNodes: set<string>, keepSlices: set<string>)
      returns (ok: bool, removed: seq<string>, ghost slices: seq<string>, ghost nodes: seq<string>)
      modifies this
      ensures multiset(slices) == multiset(DoomedSlices(old(store), keepNodes, keepSlices))
      ensures multiset(nodes) == multiset(DoomedNodes(old(store), keepNodes))
      ensures Executed(old(store), SliceDeletes(slices) + NodeDeletes(nodes), ok, store)
      ensures removed <= Reported(SLICE_KIND, slices) + Reported(NODE_KIND, nodes)
      ensures ok ==> removed == Reported(SLICE_KIND, slices) + Reported(NODE_KIND, nodes)
    {
      nodes := BagHasSequence(multiset(DoomedNodes(store, keepNodes)));
      ok, removed, slices := PruneSlices(keepNodes, keepSlices);
      if !ok {
        StoppedEarly(old(store), SliceDeletes(slices), false, store, NodeDeletes(nodes));
        return;
      }
      ExecutedOk(old(store), SliceDeletes(slices), store);
      SlicesDeleted(old(store), slices);
      DoomedByNodes(old(store), store, keepNodes);
      ghost var between := store;
      var removedNodes: seq<string>;
      ok, removedNodes, nodes := PruneNodes(keepNodes);
      ExecutedThen(old(store), SliceDeletes(slices), between, NodeDeletes(nodes), ok, store);
      removed := removed + removedNodes;
    }

    /** Nodes, then their slices, then the scheduler's topology. With MIG, no slice is published to a
        server that would drop its counters. */
    method WriteObjects(want: Desired, mig: bool) returns (ok: bool, devices: nat)
      modifies this
      ensures Executed(old(store), ObjectWrites(want), ok, store)
      ensures mig && !keepsCounters ==> !ok && store.slices == old(store).slices
      ensures ok ==> devices == CountDevices(want.slices)
    {
      devices := 0;
      ghost var first, second := NodeWrites(want.nodes), SliceWrites(want.slices);
      ghost var third := [WriteTopology(want.topology.0, want.topology.1)];
      ok := ApplyNodes(want.nodes);
      NodeWritesKeepSlices(old(store), want.nodes, ok, store);
      StoppedEarly(old(store), first, ok, store, second);
      StoppedEarly(old(store), first + second, false, store, third);
      if !ok {
        return;
      }
      if mig {
        ok := CheckPartitionableDevices();
        if !ok {
          return;
        }
      }
      ExecutedOk(old(store), first, store);
      ghost var between := store;
      ok, devices := ApplySlices(want.slices);
      ExecutedThen(old(store), first, between, second, ok, store);
      StoppedEarly(old(store), first + second, ok, store, third);
      if !ok {
        return;
      }
      if mig {
        var classed := ApplyMIGDeviceClass();
        if !classed {
          return false, devices;
        }
      }
      ExecutedOk(old(store), first + second, store);
      between := store;
      ok := Send(WriteTopology(want.topology.0, want.topology.1));
      ExecutedThen(old(store), first + second, between, third, ok, store);
    }

    /** Everything new is written, and the tree settled. */
    method WriteDesired(want: Desired, mig: bool) returns (ok: bool, devices: nat, ghost hyperNodes: seq<string>)
      modifies this
      ensures mig && !keepsCounters ==> !ok && store.slices == old(store).slices
      ensures ok ==> devices == CountDevices(want.slices)
      ensures multiset(hyperNodes) == multiset(DoomedHyperNodes(Written(old(store), want), want))
      ensures Executed(old(store), Writes(want) + HyperNodeDeletes(hyperNodes), ok, store)
    {
      ghost var tree := HyperNodeWrites(want.hyperNodes);
      hyperNodes := BagHasSequence(multiset(DoomedHyperNodes(Written(store, want), want)));
      WritesSplit(want, hyperNodes);
      ok, devices := WriteObjects(want, mig);
      if !ok {
        StoppedEarly(old(store), ObjectWrites(want), false, store, tree);
        StoppedEarly(old(store), Writes(want), false, store, HyperNodeDeletes(hyperNodes));
        return;
      }
      ExecutedOk(old(store), ObjectWrites(want), store);
      ghost var between := store;
      RunConcat(old(store), ObjectWrites(want), tree);
      ok, hyperNodes := ApplyHyperNodes(want.hyperNodes);
      ExecutedThen(old(store), ObjectWrites(want), between, tree + HyperNodeDeletes(hyperNodes), ok, store);
      WritesSplit(want, hyperNodes);
    }

    /** Everything new is written before any old node or slice is deleted. */
    method ApplyDesired(want: Desired, mig: bool)
      returns (ok: bool, devices: nat, removed: seq<string>, ghost hyperNodes: seq<string>, ghost slices: seq<string>,
        ghost nodes: seq<string>)
      modifies this
      ensures mig && !keepsCounters ==> !ok && store.slices == old(store).slices
      ensures ok ==> devices == CountDevices(want.slices)
      ensures IsPlan(old(store), want, hyperNodes, slices, nodes)
      ensures Executed(old(store), Plan(want, hyperNodes, slices, nodes), ok, store)
      ensures ok ==> removed == Reported(SLICE_KIND, slices) + Reported(NODE_KIND, nodes)
    {
      removed := [];
      hyperNodes, slices, nodes := SomePlan(store, want);
      ok, devices, hyperNodes := WriteDesired(want, mig);
      if !ok {
        PlanStopped(old(store), want, hyperNodes, slices, nodes, store);
        return;
      }
      ExecutedOk(old(store), Writes(want) + HyperNodeDeletes(hyperNodes), store);
      DoomedAfterHyperNodes(old(store), want, hyperNodes, store);
      ghost var between := store;
      ok, removed, slices, nodes := Prune(NodeNamesIn(want), SliceNamesIn(want));
      PlanFinished(old(store), want, hyperNodes, slices, nodes, between, ok, store);
    }

    /** What a resolved topology generates, applied; what is reported counts it. */
    method ApplyResolved(resolved: Resolved) returns (ok: bool, result: TopologyResult, ghost run: ApplyRun)
      modifies this
      ensures IsApplyOf(resolved, old(store), run, ok, store)
      ensures HasMIG(resolved.nodes) && !keepsCounters ==> !ok && store.slices == old(store).slices
      ensures ok ==>
              result == TopologyResult(resolved.name, |resolved.nodes|, |ResourceSlices(resolved.nodes, resolved.name)|,
                DeviceTotal(resolved.nodes), Reported(SLICE_KIND, run.slices) + Reported(NODE_KIND, run.nodes))
    {
      var nodes := BuildNodes(resolved.nodes, resolved.name);
      var slices := BuildSlices(resolved.nodes, resolved.name);
      var levels := KAITopologyFor(resolved.nodes);
      var tree, keys, tiers := VolcanoHyperNodes(resolved.nodes);
      var devices, removed;
      ghost var h, s, n;
      ok, devices, removed, h, s, n := ApplyDesired(Desired(nodes, slices, (resolved.name, levels), tree),
        HasMIG(resolved.nodes));
      EveryDeviceCounted(resolved.nodes, resolved.name);
      result := TopologyResult(resolved.name, |nodes|, |slices|, devices, removed);
      run := ApplyRun(keys, tiers, tree, h, s, n);
    }

    /** A document that does not validate or names a profile that cannot be loaded is refused
        before anything is written. */
    method ApplyTopology(ct: ClusterTopology, load: Loader)
      returns (ok: bool, result: TopologyResult, ghost run: ApplyRun)
      requires Valid(ct) ==> DevicesListed(ct, load)
      modifies this
      ensures !Valid(ct) || !Loads(ct, load) ==> !ok && store == old(store)
      ensures Valid(ct) && Loads(ct, load) ==> IsApply(ct, load, old(store), run, ok, store)
      ensures Valid(ct) && DeclaresMIG(ct) && !keepsCounters ==> !ok && store.slices == old(store).slices
      ensures ok ==>
              var nodes := Expanded(ct, load, ct.racks);
              result == TopologyResult(ct.name, |nodes|, |ResourceSlices(nodes, ct.name)|, DeviceTotal(nodes),
                Reported(SLICE_KIND, run.slices) + Reported(NODE_KIND, run.nodes))
    {
      ok, result, run := false, TopologyResult("", 0, 0, 0, []), ApplyRun([], [], [], [], [], []);
      var problems := Validate(ct);
      if problems != [] {
        return;
      }
      ValidForApply(ct, load);
      var resolved := Resolve.Resolve(ct, load);
      if resolved.Err? {
        return;
      }
      ok, result, run := ApplyResolved(resolved.value);
    }

    // -------------------------------------------------------------- faults

    /** The devices of one slice, with a taint added to each that matches. */
    method StrikeSlice(s: ResourceSlice, m: DeviceMatch, effect: string)
      returns (devices: seq<Device>, touched: bool, names: set<string>, ghost hits: seq<bool>)
      ensures Fair(m, s, hits) && devices == Strike(s.devices, hits, effect) && names == HitNames(s.devices, hits)
      ensures !touched ==> devices == s.devices && names == {}
    {
      devices, touched, names, hits := [], false, {}, [];
      for j := 0 to |s.devices|
        invariant |hits| == |devices| == j
        invariant forall k :: 0 <= k < j ==>
                    && (hits[k] ==> MayMatch(m, s, s.devices[k])) && (MustMatch(m, s, s.devices[k]) ==> hits[k])
                    && devices[k] == if hits[k] then Broken(s.devices[k], effect) else s.devices[k]
        invariant names == set k | 0 <= k < j && hits[k] :: s.devices[k].name
        invariant !touched ==> forall k :: 0 <= k < j ==> !hits[k]
      {
        ghost var before := hits;
        var hit := Matches(m, s, s.devices[j]);
        hits := hits + [hit];
        assert forall k :: 0 <= k < j ==> hits[k] == before[k];
        if !hit {
          devices := devices + [s.devices[j]];
          continue;
        }
        devices := devices + [Broken(s.devices[j], effect)];
        names := names + {s.devices[j].name};
        touched := true;
      }
    }

    /** One managed slice: its matching devices are tainted in one update, if there are any. */
    method TaintSlice(m: DeviceMatch, effect: string, name: string, ghost before: Cluster, ghost hits: map<string,
        seq<bool>>, ghost listed: seq<string>, ghost i: nat)
      returns (ok: bool, names: set<string>, ghost strikes: seq<bool>)
      requires i < |listed| && listed[i] == name && name in before.slices
               && (forall k :: 0 <= k < i ==> listed[k] != name)
      requires BrokeFirst(before, store, m, effect, hits, listed, i)
      requires forall n :: n in listed <==> ManagedSlice(before, n)
      modifies this
      ensures names == HitNames(before.slices[name].slice.devices, strikes)
      ensures if ok then BrokeFirst(before, store, m, effect, hits[name := strikes], listed, i + 1)
              else (Broke(before, store, m, effect, hits, false)
                    || Broke(before, store, m, effect, hits[name := strikes], false))
    {
      var found := store.slices[name];
      assert name !in listed[..i];
      var devices, touched;
      devices, touched, names, strikes := StrikeSlice(found.slice, m, effect);
      ghost var next := store.(slices := store.slices[name := Struck(found, strikes, effect)]);
      BrokeNext(before, store, m, effect, hits, listed, i, strikes, next);
      if !touched {
        NotStruck(store, name, strikes, effect);
        return true, names, strikes;
      }
      BrokeSome(before, store, m, effect, hits, listed, i);
      BrokeSome(before, next, m, effect, hits[name := strikes], listed, i + 1);
      ok := Attempt(store.(slices := store.slices[name := found.(slice := found.slice.(devices := devices))]));
    }

    /** Every managed slice is gone through in turn. */
    method TaintDevices(m: DeviceMatch, effect: string) returns (ok: bool, tainted: set<string>,
        ghost hits: map<string, seq<bool>>)
      modifies this
      ensures Broke(old(store), store, m, effect, hits, ok)
      ensures ok ==> AreHit(old(store), hits, tainted)
      ensures ok && ClusterUnambiguous(old(store)) ==> TaintsExactly(old(store), store, m, effect)
    {
      ghost var before := store;
      tainted, hits := {}, SomeHits(m, store);
      ok := *;
      if !ok {
        return;
      }
      var managed := set n | n in store.slices && ManagedSlice(store, n);
      var listed := Enumerate(managed);
      KeysOnce(listed, managed);
      KeysAreIn(listed, managed);
      for i := 0 to |listed|
        invariant forall k :: 0 <= k < |listed| ==> listed[k] in before.slices && listed[k] in hits
        invariant BrokeFirst(before, store, m, effect, hits, listed, i)
        invariant NamesFirst(before, hits, listed, i, tainted)
      {
        var names;
        ghost var strikes;
        ok, names, strikes := TaintSlice(m, effect, listed[i], before, hits, listed, i);
        if !ok {
          if !Broke(before, store, m, effect, hits, false) {
            hits := hits[listed[i] := strikes];
          }
          return;
        }
        NamesNext(before, hits, listed, i, tainted, strikes);
        hits := hits[listed[i] := strikes];
        tainted := tainted + names;
      }
      BrokeAll(before, store, m, effect, hits, listed);
      NamesAll(before, hits, listed, tainted);
      if ClusterUnambiguous(before) {
        BrokeExactly(before, store, m, effect, hits);
      }
      ok := true;
    }

    /** A node that is already gone counts as deleted. */
    method DeleteNode(name: string) returns (ok: bool)
      modifies this
      ensures Executed(old(store), [Call.DeleteNode(name)], ok, store)
    {
      ok := Send(Call.DeleteNode(name));
    }
  }

  // ---------------------------------------------------------------- whole applies

  /** What one apply generated as its tree, and the order in which it deleted. */
  datatype ApplyRun = ApplyRun(
    keys: seq<seq<string>>,
    tiers: seq<seq<HyperNode>>,
    tree: seq<HyperNode>,
    hyperNodes: seq<string>,
    slices: seq<string>,
    nodes: seq<string>)

  function ObjectWrites(want: Desired): seq<Call> {
    NodeWrites(want.nodes) + SliceWrites(want.slices) + [WriteTopology(want.topology.0, want.topology.1)]
  }

  function WantOf(ct: ClusterTopology, load: Loader, run: ApplyRun): Desired {
    DesiredOf(Expanded(ct, load, ct.racks), ct.name, run.tree)
  }

  ghost predicate IsApply(ct: ClusterTopology, load: Loader, before: Cluster, run: ApplyRun, ok: bool, after: Cluster) {
    IsApplyOf(Resolved(ct.name, Expanded(ct, load, ct.racks)), before, run, ok, after)
  }

  ghost predicate IsApplyOf(resolved: Resolved, before: Cluster, run: ApplyRun, ok: bool, after: Cluster) {
    var want := DesiredOf(resolved.nodes, resolved.name, run.tree);
    && IsTree(resolved.nodes, run.keys, run.tiers, run.tree)
    && IsPlan(before, want, run.hyperNodes, run.slices, run.nodes)
    && Executed(before, Plan(want, run.hyperNodes, run.slices, run.nodes), ok, after)
  }

  lemma {:induction false} SomePlan(c: Cluster, want: Desired) returns (hyperNodes: seq<string>, slices: seq<string>,
      nodes: seq<string>)
    ensures IsPlan(c, want, hyperNodes, slices, nodes)
  {
    var w := Written(c, want);
    hyperNodes := BagHasSequence(multiset(DoomedHyperNodes(w, want)));
    slices := BagHasSequence(multiset(DoomedSlices(w, NodeNamesIn(want), SliceNamesIn(want))));
    nodes := BagHasSequence(multiset(DoomedNodes(w, NodeNamesIn(want))));
  }

  lemma {:induction false} WritesSplit(want: Desired, hyperNodes: seq<string>)
    ensures Writes(want) == ObjectWrites(want) + HyperNodeWrites(want.hyperNodes)
    ensures Writes(want) + HyperNodeDeletes(hyperNodes) ==
              ObjectWrites(want) + (HyperNodeWrites(want.hyperNodes) + HyperNodeDeletes(hyperNodes))
  {
  }

  lemma {:induction false} PlanSplit(want: Desired, hyperNodes: seq<string>, slices: seq<string>, nodes: seq<string>)
    ensures Plan(want, hyperNodes, slices, nodes) ==
              (Writes(want) + HyperNodeDeletes(hyperNodes)) + (SliceDeletes(slices) + NodeDeletes(nodes))
  {
  }

  lemma {:induction false} PlanStopped(c: Cluster, want: Desired, hyperNodes: seq<string>, slices: seq<string>,
      nodes: seq<string>, after: Cluster)
    requires Executed(c, Writes(want) + HyperNodeDeletes(hyperNodes), false, after)
    ensures Executed(c, Plan(want, hyperNodes, slices, nodes), false, after)
  {
    PlanSplit(want, hyperNodes, slices, nodes);
    StoppedEarly(c, Writes(want) + HyperNodeDeletes(hyperNodes), false, after,
      SliceDeletes(slices) + NodeDeletes(nodes));
  }

  lemma {:induction false} PlanFinished(c: Cluster, want: Desired, hyperNodes: seq<string>, slices: seq<string>,
      nodes: seq<string>, between: Cluster, ok: bool, after: Cluster)
    requires between == Run(c, Writes(want) + HyperNodeDeletes(hyperNodes))
             && Executed(between, SliceDeletes(slices) + NodeDeletes(nodes), ok, after)
    ensures Executed(c, Plan(want, hyperNodes, slices, nodes), ok, after)
  {
    PlanSplit(want, hyperNodes, slices, nodes);
    ExecutedThen(c, Writes(want) + HyperNodeDeletes(hyperNodes), between, SliceDeletes(slices) + NodeDeletes(nodes),
      ok, after);
  }

  /** Deleting HyperNodes does not change which slices and nodes are to go. */
  lemma {:induction false} DoomedAfterHyperNodes(c: Cluster, want: Desired, hyperNodes: seq<string>, now: Cluster)
    requires now == Run(c, Writes(want) + HyperNodeDeletes(hyperNodes))
    ensures DoomedSlices(now, NodeNamesIn(want), SliceNamesIn(want)) ==
            DoomedSlices(Written(c, want), NodeNamesIn(want), SliceNamesIn(want))
    ensures DoomedNodes(now, NodeNamesIn(want)) == DoomedNodes(Written(c, want), NodeNamesIn(want))
  {
    RunConcat(c, Writes(want), HyperNodeDeletes(hyperNodes));
    HyperNodesDeleted(Written(c, want), hyperNodes);
    DoomedBySlices(now, Written(c, want), NodeNamesIn(want), SliceNamesIn(want));
    DoomedByNodes(now, Written(c, want), NodeNamesIn(want));
  }

  /** Whether or not it completes, an apply deletes nothing before everything new is stored, and
      leaves no managed slice naming a node that does not exist. */
  lemma {:induction false} ApplyIsSafe(ct: ClusterTopology, load: Loader, before: Cluster, run: ApplyRun, ok: bool,
      after: Cluster)
    requires Valid(ct) && Keyed(before) && IsApply(ct, load, before, run, ok, after)
    ensures NothingLost(before, after) || AllWritten(before, after, WantOf(ct, load, run))
    ensures Anchored(before) ==> Anchored(after)
  {
    var want := WantOf(ct, load, run);
    GeneratedIsCoherent(ct, load, run.keys, run.tiers, run.tree);
    PlanIsSafe(before, want, run.hyperNodes, run.slices, run.nodes, ok, after);
  }

  lemma {:induction false} PlanIsSafe(before: Cluster, want: Desired, hyperNodes: seq<string>, slices: seq<string>,
      nodes: seq<string>, ok: bool, after: Cluster)
    requires Coherent(want) && Keyed(before) && IsPlan(before, want, hyperNodes, slices, nodes)
    requires Executed(before, Plan(want, hyperNodes, slices, nodes), ok, after)
    ensures NothingLost(before, after) || AllWritten(before, after, want)
    ensures Anchored(before) ==> Anchored(after)
  {
    var plan := Plan(want, hyperNodes, slices, nodes);
    var k :| 0 <= k <= |plan| && after == Run(before, plan[..k]);
    NothingDeletedEarly(before, want, hyperNodes, slices, nodes, k);
    if Anchored(before) {
      AnchoredAlong(before, want, hyperNodes, slices, nodes, k);
    }
  }

  /** An apply that completes leaves exactly the generated objects under management, and
      everything else as it was. */
  lemma {:induction false} ApplyMatches(ct: ClusterTopology, load: Loader, before: Cluster, run: ApplyRun,
      after: Cluster)
    requires Valid(ct) && Keyed(before) && IsApply(ct, load, before, run, true, after)
    ensures var want := WantOf(ct, load, run);
            && NodesAsGenerated(before, after, want) && SlicesAsGenerated(before, after, want)
              && HyperNodesAsGenerated(after, want)
            && after.topologies == before.topologies[want.topology.0 := want.topology.1]
            && OthersUntouched(before, after, want)
  {
    GeneratedIsCoherent(ct, load, run.keys, run.tiers, run.tree);
    ExecutedOk(before, Plan(WantOf(ct, load, run), run.hyperNodes, run.slices, run.nodes), after);
    ApplyConverges(before, WantOf(ct, load, run), run.hyperNodes, run.slices, run.nodes);
  }

  // ---------------------------------------------------------------- histories

  /** What the client does to the store is a step of a history: an apply, completed or not ... */
  lemma {:induction false} ApplyIsStep(ct: ClusterTopology, load: Loader, before: Cluster, run: ApplyRun,
      ok: bool, after: Cluster)
    requires Valid(ct) && IsApply(ct, load, before, run, ok, after)
    ensures ApplyStep(before, after)
  {
    GeneratedIsCoherent(ct, load, run.keys, run.tiers, run.tree);
    var plan := Plan(WantOf(ct, load, run), run.hyperNodes, run.slices, run.nodes);
    var k :| 0 <= k <= |plan| && after == Run(before, plan[..k]);
  }

  /** ... and the deletion of a node, or its refusal. Breaking devices is one by
      Faults.BreakingIsTainting. */
  lemma {:induction false} DeleteIsStep(before: Cluster, name: string, ok: bool, after: Cluster)
    requires Executed(before, [DeleteNode(name)], ok, after)
    ensures KillStep(before, after) || after == before
    ensures ok ==> name !in after.nodes
  {
    var k :| 0 <= k <= 1 && after == Run(before, [DeleteNode(name)][..k]) && (ok ==> k == 1);
    OneCall(before, DeleteNode(name));
    assert [DeleteNode(name)][..1] == [DeleteNode(name)];
    if k == 1 {
      assert after == before.(nodes := before.nodes - {name});
    }
  }

  /** After any history of applies, faults and kills, an apply that completes leaves exactly what
      the topology generates. */
  lemma {:induction false} ApplyForgetsHistory(trace: seq<Cluster>, i: nat, ct: ClusterTopology, load: Loader,
      run: ApplyRun, after: Cluster)
    requires IsHistory(trace) && i < |trace| && Valid(ct) && IsApply(ct, load, trace[i], run, true, after)
    ensures ExactlyGenerated(trace[0], after, WantOf(ct, load, run))
    ensures forall s :: s in WantOf(ct, load, run).slices ==> Untainted(s)
  {
    GeneratedIsCoherent(ct, load, run.keys, run.tiers, run.tree);
    ExecutedOk(trace[i], Plan(WantOf(ct, load, run), run.hyperNodes, run.slices, run.nodes), after);
    HistoryIsForgotten(trace, i, WantOf(ct, load, run), run.hyperNodes, run.slices, run.nodes);
  }

  // ---------------------------------------------------------------- what the server does

  function CreateNode(c: Cluster, name: string, node: NodeObject): Cluster {
    c.(nodes := c.nodes[name := node.(status := NoStatus, other := FRESH)])
  }

  /** An update does not touch the status. */
  function UpdateNode(c: Cluster, name: string, node: NodeObject): Cluster
    requires name in c.nodes
  {
    c.(nodes := c.nodes[name := node.(status := c.nodes[name].status)])
  }

  /** A status update touches nothing else. */
  function UpdateNodeStatus(c: Cluster, name: string, node: NodeObject): Cluster
    requires name in c.nodes
  {
    c.(nodes := c.nodes[name := c.nodes[name].(status := node.status)])
  }

  function PutSlice(c: Cluster, s: SliceObject): Cluster {
    c.(slices := c.slices[s.slice.name := s])
  }

  lemma {:induction false} OneAttempt(before: Cluster, call: Call, ok: bool, after: Cluster)
    requires after == Step(before, call) || (!ok && after == before)
    ensures Executed(before, [call], ok, after)
  {
    OneCall(before, call);
    if after == Step(before, call) {
      ExecutedAll(before, [call], ok, after);
    } else {
      assert [call][..0] == [];
    }
  }

  /** One more call of a list, made or refused. */
  lemma {:induction false} OneMore(before: Cluster, calls: seq<Call>, i: nat, between: Cluster, ok: bool,
      after: Cluster)
    requires i < |calls| && between == Run(before, calls[..i]) && Executed(between, [calls[i]], ok, after)
    ensures if ok then after == Run(before, calls[..i + 1]) else Executed(before, calls, false, after)
  {
    ExecutedThen(before, calls[..i], between, [calls[i]], ok, after);
    assert calls[..i] + [calls[i]] == calls[..i + 1];
    if ok {
      ExecutedOk(before, calls[..i + 1], after);
    } else {
      StoppedEarly(before, calls[..i + 1], false, after, calls[i + 1..]);
      assert calls[..i + 1] + calls[i + 1..] == calls;
    }
  }

  lemma {:induction false} NodeWritesSplit(nodes: seq<NamedNode>, k: nat) returns (rest: seq<Call>)
    requires k <= |nodes|
    ensures NodeWrites(nodes) == NodeWrites(nodes[..k]) + rest
    decreases |nodes| - k
  {
    if k == |nodes| {
      assert nodes[..k] == nodes;
      rest := [];
    } else {
      rest := NodeWritesSplit(nodes, k + 1);
      assert nodes[..k + 1][..k] == nodes[..k];
      rest := [WriteNode(nodes[k].name, nodes[k].node), WriteStatus(nodes[k].name, nodes[k].node)] + rest;
    }
  }
}
