/** The fragmentation report of a whole cluster, read from the slices it stores. */
module Inspection {
  import opened Options
  import opened Names
  import opened Sorting
  import opened Ranges
  import opened Profiles
  import opened Partitions
  import opened Fragmentation
  import opened Occupancy
  import opened Allocation
  import opened Topology
  import opened Resolve
  import opened Expansion
  import opened Resources
  import opened Publishing
  import opened Decoding
  import opened Lossless
  import opened Reporting
  import opened HyperNodes
  import opened Store
  import opened Convergence
  import opened Generating
  import opened Client
  import Recovery
  import Runs

  /** The names of the devices allocated to any claim of the cluster. */
  method AllocatedNames(claims: seq<Recovery.Claim>) returns (names: set<string>)
    ensures forall d :: d in names <==>
            exists k :: 0 <= k < |claims| && claims[k].results.Some? && d in claims[k].results.value
  {
    names := {};
    for k := 0 to |claims|
      invariant forall d :: d in names <==>
                exists j :: 0 <= j < k && claims[j].results.Some? && d in claims[j].results.value
    {
      if claims[k].results.None? {
        continue;
      }
      names := names + set d | d in claims[k].results.value;
    }
  }

  datatype NodeFragmentation = NodeFragmentation(node: string, gpus: seq<Report>)

  /** The slices of one node, in the order listed. */
  function OfNode(listed: seq<ResourceSlice>, node: string): seq<ResourceSlice> {
    if listed == [] then []
    else
      var last := listed[|listed| - 1];
      OfNode(listed[..|listed| - 1], node) + if last.nodeName == Some(node) then [last] else []
  }

  ghost function SetsOf(listed: seq<ResourceSlice>, node: string): map<int, Geometry> {
    AddSets(map[], SetsIn(OfNode(listed, node)))
  }

  ghost function DevicesOf(listed: seq<ResourceSlice>, node: string): map<int, seq<PublishedPartition>> {
    AddDevices(map[], DevicesIn(OfNode(listed, node)))
  }

  lemma {:induction false} InNext(s: seq<ResourceSlice>, slice: ResourceSlice)
    ensures SetsIn(s + [slice]) == SetsIn(s) + slice.sharedCounters
    ensures DevicesIn(s + [slice]) == DevicesIn(s) + slice.devices
  {
    var more := s + [slice];
    SlicesSnoc(more, |s|);
    assert more[..|s|] == s && more[..|s| + 1] == more;
  }

  /** One more slice adds to its own node and to no other. */
  lemma {:induction false} OneMoreSlice(listed: seq<ResourceSlice>, i: nat, node: string)
    requires i < |listed|
    ensures listed[i].nodeName != Some(node) ==> OfNode(listed[..i + 1], node) == OfNode(listed[..i], node)
    ensures listed[i].nodeName == Some(node) ==>
              && OfNode(listed[..i + 1], node) != []
              && SetsOf(listed[..i + 1], node) == AddSets(SetsOf(listed[..i], node), listed[i].sharedCounters)
              && DevicesOf(listed[..i + 1], node) == AddDevices(DevicesOf(listed[..i], node), listed[i].devices)
  {
    assert listed[..i + 1][..i] == listed[..i];
    var before := OfNode(listed[..i], node);
    assert before + [] == before;
    InNext(before, listed[i]);
    AddSetsConcat(map[], SetsIn(before), listed[i].sharedCounters);
    AddDevicesConcat(map[], DevicesIn(before), listed[i].devices);
  }

  /** Each state kept is what its node's slices add up to. */
  ghost predicate AreStates(byNode: map<string, NodeState>, listed: seq<ResourceSlice>)
    reads byNode.Values
  {
    && (forall n :: n in byNode ==>
      byNode[n].counterSets == SetsOf(listed, n) && byNode[n].devices == DevicesOf(listed, n))
    && (forall n, m :: n in byNode && m in byNode && n != m ==> byNode[n] != byNode[m])
  }

  /** A state is kept for every node met. */
  ghost predicate AreNodes(nodes: set<string>, listed: seq<ResourceSlice>) {
    forall n :: n in nodes <==> OfNode(listed, n) != []
  }

  method StateFor(byNode: map<string, NodeState>, node: string, ghost listed: seq<ResourceSlice>)
      returns (more: map<string, NodeState>)
    requires AreStates(byNode, listed) && AreNodes(byNode.Keys, listed)
    ensures AreStates(more, listed) && more.Keys == byNode.Keys + {node}
    ensures forall n :: n in more ==> if n in byNode then more[n] == byNode[n] else fresh(more[n])
  {
    more := byNode;
    if node !in byNode {
      assert OfNode(listed, node) == [];
      var state := new NodeState();
      more := byNode[node := state];
    }
  }

  lemma {:induction false} NodesNext(nodes: set<string>, listed: seq<ResourceSlice>, i: nat)
    requires i < |listed| && AreNodes(nodes, listed[..i])
    ensures AreNodes(if listed[i].nodeName.Some? then nodes + {listed[i].nodeName.value} else nodes, listed[..i + 1])
  {
    forall n {
      OneMoreSlice(listed, i, n);
    }
  }

  method Group(listed: seq<ResourceSlice>) returns (byNode: map<string, NodeState>)
    ensures AreStates(byNode, listed) && AreNodes(byNode.Keys, listed)
    ensures forall n :: n in byNode ==> fresh(byNode[n])
  {
    byNode := map[];
    for i := 0 to |listed|
      invariant AreStates(byNode, listed[..i]) && AreNodes(byNode.Keys, listed[..i])
      invariant forall n :: n in byNode ==> fresh(byNode[n])
    {
      var slice := listed[i];
      NodesNext(byNode.Keys, listed, i);
      forall n {
        OneMoreSlice(listed, i, n);
      }
      if slice.nodeName.None? {
        continue;
      }
      byNode := StateFor(byNode, slice.nodeName.value, listed[..i]);
      byNode[slice.nodeName.value].Absorb(slice);
    }
    assert listed[..|listed|] == listed;
  }

  // ---------------------------------------------------------------- the report

  predicate NodeLe(a: NodeFragmentation, b: NodeFragmentation) {
    LexLe(a.node, b.node)
  }

  /** The report of one node that publishes counter sets. */
  ghost predicate IsNodeReport(listed: seq<ResourceSlice>, held: set<string>, r: NodeFragmentation) {
    SetsOf(listed, r.node) != map[] && AreReportsOf(SetsOf(listed, r.node), DevicesOf(listed, r.node), held, r.gpus)
  }

  /** One report for each node that publishes counter sets, in the order of the nodes' names. */
  ghost predicate IsInspection(listed: seq<ResourceSlice>, held: set<string>, out: seq<NodeFragmentation>) {
    && (forall i, j :: 0 <= i < j < |out| ==> LexLe(out[i].node, out[j].node))
    && (forall i, j :: 0 <= i < j < |out| ==> out[i].node != out[j].node)
    && (forall i :: 0 <= i < |out| ==> IsNodeReport(listed, held, out[i]))
    && (forall n :: SetsOf(listed, n) != map[] ==> exists i :: 0 <= i < |out| && out[i].node == n)
  }

  /** Every published profile has slices, on which the source's divisions rely. */
  ghost predicate AllDivisible(listed: seq<ResourceSlice>) {
    forall n, i :: Divisible(OnGpu(DevicesOf(listed, n), i))
  }

  lemma {:induction false} NoSlicesNoSets(listed: seq<ResourceSlice>, node: string)
    requires OfNode(listed, node) == []
    ensures SetsOf(listed, node) == map[]
  {
  }

  /** The nodes listed first have been reported, those that have something to report. */
  ghost predicate ReportedFirst(listed: seq<ResourceSlice>, held: set<string>, nodes: seq<string>, k: nat,
      out: seq<NodeFragmentation>)
    requires k <= |nodes|
  {
    && (forall i, j :: 0 <= i < j < |out| ==> out[i].node != out[j].node)
    && (forall i :: 0 <= i < |out| ==> out[i].node in nodes[..k] && IsNodeReport(listed, held, out[i]))
    && (forall j :: 0 <= j < k && SetsOf(listed, nodes[j]) != map[] ==>
      exists i :: 0 <= i < |out| && out[i].node == nodes[j])
  }

  lemma {:induction false} ReportedNext(listed: seq<ResourceSlice>, held: set<string>, nodes: seq<string>, k: nat,
      out: seq<NodeFragmentation>, r: NodeFragmentation)
    requires k < |nodes| && ReportedFirst(listed, held, nodes, k, out) && nodes[k] !in nodes[..k]
    requires r.node == nodes[k] && IsNodeReport(listed, held, r)
    ensures ReportedFirst(listed, held, nodes, k + 1, out + [r])
  {
    var more := out + [r];
    assert nodes[..k + 1] == nodes[..k] + [nodes[k]];
    forall j | 0 <= j < k + 1 && SetsOf(listed, nodes[j]) != map[]
      ensures exists i :: 0 <= i < |more| && more[i].node == nodes[j]
    {
      if j < k {
        var i :| 0 <= i < |out| && out[i].node == nodes[j];
        assert more[i].node == nodes[j];
      } else {
        assert more[|out|].node == nodes[j];
      }
    }
  }

  lemma {:induction false} ReportedSkip(listed: seq<ResourceSlice>, held: set<string>, nodes: seq<string>, k: nat,
      out: seq<NodeFragmentation>)
    requires k < |nodes| && ReportedFirst(listed, held, nodes, k, out) && SetsOf(listed, nodes[k]) == map[]
    ensures ReportedFirst(listed, held, nodes, k + 1, out)
  {
    assert nodes[..k + 1] == nodes[..k] + [nodes[k]];
  }

  method ReportNodes(byNode: map<string, NodeState>, listed: seq<ResourceSlice>, held: set<string>)
      returns (out: seq<NodeFragmentation>, nodes: seq<string>)
    requires AreStates(byNode, listed) && AllDivisible(listed)
    ensures multiset(nodes) == multiset(byNode.Keys) && ReportedFirst(listed, held, nodes, |nodes|, out)
  {
    out := [];
    var left := Enumerate(byNode.Keys);
    nodes := left;
    KeysOnce(left, byNode.Keys);
    for k := 0 to |left|
      invariant ReportedFirst(listed, held, left, k, out)
    {
      var node := left[k];
      assert node in left && node !in left[..k];
      if |byNode[node].counterSets| == 0 {
        ReportedSkip(listed, held, left, k, out);
        continue;
      }
      var gpus := byNode[node].Report(held);
      ReportedNext(listed, held, left, k, out, NodeFragmentation(node, gpus));
      out := out + [NodeFragmentation(node, gpus)];
    }
  }

  lemma {:induction false} NamesInOrder()
    ensures TotalPreorder(NodeLe)
  {
    StringsInOrder();
  }

  /** Sorting the reports changes their order only. */
  lemma {:induction false} SameNodes(a: seq<NodeFragmentation>, b: seq<NodeFragmentation>)
    requires multiset(a) == multiset(b) && forall i, j :: 0 <= i < j < |a| ==> a[i].node != a[j].node
    ensures forall i, j :: 0 <= i < j < |b| ==> b[i].node != b[j].node
    ensures forall r :: r in a <==> r in b
  {
    forall r
      ensures r in a <==> r in b
    {
      InSameBag(a, b, r);
    }
    ListedOnce(a);
    forall r | r in b
      ensures multiset(b)[r] == 1
    {
      assert r in a;
    }
    forall i, j | 0 <= i < j < |b|
      ensures b[i].node != b[j].node
    {
      OnceEach(b, i, j);
      assert b[i] in a && b[j] in a;
      var k :| 0 <= k < |a| && a[k] == b[i];
      var l :| 0 <= l < |a| && a[l] == b[j];
    }
  }

  method Inspect(listed: seq<ResourceSlice>, held: set<string>) returns (out: seq<NodeFragmentation>)
    requires AllDivisible(listed)
    ensures IsInspection(listed, held, out)
  {
    var byNode := Group(listed);
    var unsorted;
    ghost var nodes;
    unsorted, nodes := ReportNodes(byNode, listed, held);
    KeysOnce(nodes, byNode.Keys);
    out := Sort(NodeLe, unsorted);
    NamesInOrder();
    SortSorts(NodeLe, unsorted);
    SortPermutes(NodeLe, unsorted);
    SameNodes(unsorted, out);
    assert forall i :: 0 <= i < |out| ==> out[i] in unsorted;
    forall n | SetsOf(listed, n) != map[]
      ensures exists i :: 0 <= i < |out| && out[i].node == n
    {
      if n !in byNode {
        NoSlicesNoSets(listed, n);
      }
      var j :| 0 <= j < |nodes| && nodes[j] == n;
      var k :| 0 <= k < |unsorted| && unsorted[k].node == n;
      assert unsorted[k] in out;
    }
  }

  // ---------------------------------------------------------------- after an apply

  function ManagedSlices(c: Cluster): set<string> {
    set n | n in c.slices && ManagedSlice(c, n)
  }

  /** The managed slices, each once, in whatever order the server lists them. */
  ghost predicate ListsManaged(c: Cluster, names: seq<string>, listed: seq<ResourceSlice>) {
    && multiset(names) == multiset(ManagedSlices(c))
    && |listed| == |names|
    && forall k :: 0 <= k < |names| ==> names[k] in c.slices && listed[k] == c.slices[names[k]].slice
  }

  lemma {:induction false} GeneratedAt(before: Cluster, after: Cluster, want: Desired, n: string) returns (i: nat)
    requires SlicesAsGenerated(before, after, want) && ManagedSlice(after, n)
    ensures i < |want.slices| && want.slices[i].name == n && after.slices[n].slice == want.slices[i]
  {
    i :| i < |want.slices| && want.slices[i].name == n;
  }

  /** What is listed after an apply is what was generated. */
  lemma {:induction false} ListedIsGenerated(before: Cluster, after: Cluster, want: Desired, names: seq<string>,
      listed: seq<ResourceSlice>)
    requires Coherent(want) && SlicesAsGenerated(before, after, want) && ListsManaged(after, names, listed)
    ensures multiset(listed) == multiset(want.slices)
  {
    KeysOnce(names, ManagedSlices(after));
    forall k | 0 <= k < |names|
      ensures listed[k].name == names[k] && listed[k] in want.slices
    {
      assert names[k] in names;
      var i := GeneratedAt(before, after, want, names[k]);
    }
    forall i | 0 <= i < |want.slices|
      ensures want.slices[i] in listed
    {
      assert ManagedSlice(after, want.slices[i].name) by {
        assert want.slices[i].name in SliceNamesIn(want);
      }
      assert want.slices[i].name in names;
      var k :| 0 <= k < |names| && names[k] == want.slices[i].name;
      assert listed[k] == want.slices[i];
    }
    ListedOnce(listed);
    ListedOnce(want.slices);
    SameElementsSameBag(listed, want.slices);
  }

  lemma {:induction false} OfNodeBag(s: seq<ResourceSlice>, node: string, x: ResourceSlice)
    ensures multiset(OfNode(s, node))[x] == if x.nodeName == Some(node) then multiset(s)[x] else 0
  {
    if s != [] {
      OfNodeBag(s[..|s| - 1], node, x);
      BagSnoc(s);
    }
  }

  lemma {:induction false} BagSnoc(s: seq<ResourceSlice>)
    requires s != []
    ensures multiset(s) == multiset(s[..|s| - 1]) + multiset{s[|s| - 1]}
  {
    assert s == s[..|s| - 1] + [s[|s| - 1]];
  }

  lemma {:induction false} OfNodeAnyOrder(a: seq<ResourceSlice>, b: seq<ResourceSlice>, node: string)
    requires multiset(a) == multiset(b)
    ensures multiset(OfNode(a, node)) == multiset(OfNode(b, node))
  {
    forall x
      ensures multiset(OfNode(a, node))[x] == multiset(OfNode(b, node))[x]
    {
      OfNodeBag(a, node, x);
      OfNodeBag(b, node, x);
    }
  }

  lemma {:induction false} OfNodeConcat(a: seq<ResourceSlice>, b: seq<ResourceSlice>, node: string)
    ensures OfNode(a + b, node) == OfNode(a, node) + OfNode(b, node)
  {
    if b == [] {
      assert a + b == a;
    } else {
      assert (a + b)[..|a + b| - 1] == a + b[..|b| - 1];
      OfNodeConcat(a, b[..|b| - 1], node);
    }
  }

  lemma {:induction false} OfOneNode(s: seq<ResourceSlice>, name: string, node: string)
    requires forall i :: 0 <= i < |s| ==> s[i].nodeName == Some(name)
    ensures OfNode(s, node) == if name == node then s else []
  {
    if s != [] {
      OfOneNode(s[..|s| - 1], name, node);
      assert s == s[..|s| - 1] + [s[|s| - 1]];
    }
  }

  lemma {:induction false} SlicesNameNode(rn: ResolvedNode, topologyName: string)
    ensures forall k :: 0 <= k < |SlicesOf(rn, topologyName)| ==>
            SlicesOf(rn, topologyName)[k].nodeName == Some(rn.name)
  {
    forall k | 0 <= k < |SlicesOf(rn, topologyName)| {
      SlicesOfNode(rn, topologyName, k);
    }
  }

  lemma {:induction false} LastNode(nodes: seq<ResolvedNode>, topologyName: string, node: string)
    requires nodes != []
    ensures var front, last := nodes[..|nodes| - 1], nodes[|nodes| - 1];
            OfNode(ResourceSlices(nodes, topologyName), node) ==
              if last.name == node then OfNode(ResourceSlices(front, topologyName), node) + SlicesOf(last, topologyName)
              else OfNode(ResourceSlices(front, topologyName), node)
  {
    var front, last := nodes[..|nodes| - 1], nodes[|nodes| - 1];
    var before := OfNode(ResourceSlices(front, topologyName), node);
    assert before + [] == before;
    SlicesNameNode(last, topologyName);
    OfOneNode(SlicesOf(last, topologyName), last.name, node);
    OfNodeConcat(ResourceSlices(front, topologyName), SlicesOf(last, topologyName), node);
  }

  lemma {:induction false} ElsewhereNothing(nodes: seq<ResolvedNode>, topologyName: string, node: string)
    requires forall i :: 0 <= i < |nodes| ==> nodes[i].name != node
    ensures OfNode(ResourceSlices(nodes, topologyName), node) == []
  {
    if nodes != [] {
      ElsewhereNothing(nodes[..|nodes| - 1], topologyName, node);
      LastNode(nodes, topologyName, node);
    }
  }

  ghost predicate NamedApart(nodes: seq<ResolvedNode>) {
    forall i, j :: 0 <= i < j < |nodes| ==> nodes[i].name != nodes[j].name
  }

  lemma {:induction false} LastGenerated(nodes: seq<ResolvedNode>, topologyName: string)
    requires NamedApart(nodes) && nodes != []
    ensures OfNode(ResourceSlices(nodes, topologyName), nodes[|nodes| - 1].name) ==
            SlicesOf(nodes[|nodes| - 1], topologyName)
  {
    var front, last := nodes[..|nodes| - 1], nodes[|nodes| - 1];
    LastNode(nodes, topologyName, last.name);
    ElsewhereNothing(front, topologyName, last.name);
    var none: seq<ResourceSlice> := [];
    assert none + SlicesOf(last, topologyName) == SlicesOf(last, topologyName);
  }

  /** A node's slices are those generated for it, in order. */
  lemma {:induction false} OfNodeGenerated(nodes: seq<ResolvedNode>, topologyName: string, k: nat)
    requires NamedApart(nodes) && k < |nodes|
    ensures OfNode(ResourceSlices(nodes, topologyName), nodes[k].name) == SlicesOf(nodes[k], topologyName)
  {
    if k < |nodes| - 1 {
      OfNodeGenerated(nodes[..|nodes| - 1], topologyName, k);
      LastNode(nodes, topologyName, nodes[k].name);
    } else {
      LastGenerated(nodes, topologyName);
    }
  }

  // ---------------------------------------------------------------- end to end

  /** The MIG nodes of a topology are well formed. */
  ghost predicate AllWellFormed(nodes: seq<ResolvedNode>) {
    forall k :: 0 <= k < |nodes| && nodes[k].mig.Some? ==> WellFormed(nodes[k]) && nodes[k].gpus != []
  }

  /** A node without MIG publishes no counter set. */
  lemma {:induction false} WholeNodeHasNoSets(rn: ResolvedNode, topologyName: string, order: seq<ResourceSlice>)
    requires rn.mig.None? && multiset(order) == multiset(SlicesOf(rn, topologyName))
    ensures AddSets(map[], SetsIn(order)) == map[]
  {
    assert |multiset(order)| == |order| && |multiset(SlicesOf(rn, topologyName))| == 1;
    assert order[0] in multiset(order);
    assert order[0] == WholeSlice(rn, topologyName);
    assert order[1..] == [];
  }

  /** A node with MIG publishes one for each GPU. */
  lemma {:induction false} MigNodeHasSets(rn: ResolvedNode, topologyName: string, order: seq<ResourceSlice>)
    requires WellFormed(rn) && rn.gpus != [] && multiset(order) == multiset(MigSlices(rn, topologyName))
    ensures AddSets(map[], SetsIn(order)) != map[]
  {
    SetsReadBack(rn, topologyName, order);
    assert 0 in AddSets(map[], SetsIn(order));
  }

  ghost predicate IsMigNode(nodes: seq<ResolvedNode>, n: string) {
    exists k :: 0 <= k < |nodes| && nodes[k].name == n && nodes[k].mig.Some?
  }

  ghost predicate IsReported(out: seq<NodeFragmentation>, n: string) {
    exists i :: 0 <= i < |out| && out[i].node == n
  }

  /** The listed slices describe each generated node as it was generated, and no other node. */
  lemma {:induction false} ListedNode(nodes: seq<ResolvedNode>, topologyName: string, listed: seq<ResourceSlice>,
      n: string)
    requires NamedApart(nodes) && AllWellFormed(nodes)
             && multiset(listed) == multiset(ResourceSlices(nodes, topologyName))
    ensures SetsOf(listed, n) != map[] <==> IsMigNode(nodes, n)
    ensures forall k :: 0 <= k < |nodes| && nodes[k].name == n ==>
            multiset(OfNode(listed, n)) == multiset(SlicesOf(nodes[k], topologyName))
  {
    OfNodeAnyOrder(listed, ResourceSlices(nodes, topologyName), n);
    if k: nat :| k < |nodes| && nodes[k].name == n {
      OfNodeGenerated(nodes, topologyName, k);
      if nodes[k].mig.Some? {
        MigNodeHasSets(nodes[k], topologyName, OfNode(listed, n));
      } else {
        WholeNodeHasNoSets(nodes[k], topologyName, OfNode(listed, n));
      }
    } else {
      ElsewhereNothing(nodes, topologyName, n);
      assert |multiset(OfNode(listed, n))| == |OfNode(listed, n)|;
      NoSlicesNoSets(listed, n);
    }
  }

  /** One entry for each MIG node, in the order of their names, each with the reports on the
      partitions of the node whose names are held anywhere in the cluster. */
  ghost predicate IsInspectionOn(nodes: seq<ResolvedNode>, held: set<string>, out: seq<NodeFragmentation>)
    requires AllWellFormed(nodes)
  {
    && (forall i, j :: 0 <= i < j < |out| ==> LexLe(out[i].node, out[j].node))
    && (forall i, j :: 0 <= i < j < |out| ==> out[i].node != out[j].node)
    && (forall n :: IsReported(out, n) <==> IsMigNode(nodes, n))
    && (forall i, k :: 0 <= i < |out| && 0 <= k < |nodes| && nodes[k].mig.Some? && nodes[k].name == out[i].node ==>
          AreReportsOn(nodes[k], held, out[i].gpus))
  }

  lemma {:induction false} WholeNodeDivisible(rn: ResolvedNode, topologyName: string, order: seq<ResourceSlice>, i: int)
    requires rn.mig.None? && multiset(order) == multiset(SlicesOf(rn, topologyName))
    ensures PublishedFor(DevicesIn(order), i) == []
  {
    assert |multiset(order)| == |order| && |multiset(SlicesOf(rn, topologyName))| == 1;
    assert order[0] in multiset(order);
    assert order[0] == WholeSlice(rn, topologyName);
    assert order[1..] == [];
    assert DevicesIn(order) == WholeSlice(rn, topologyName).devices;
    ForeignReadings(Readings(DevicesIn(order)), i);
  }

  ghost predicate NoneNegative(reports: seq<Report>) {
    forall g, f :: 0 <= g < |reports| && 0 <= f < |reports[g].profiles| ==> reports[g].profiles[f].lost >= 0
  }

  lemma {:induction false} HeldFitsMemory(g: Geometry, profiles: seq<Profile>, i: nat, held: set<string>, slot: int)
    requires AllPositive(profiles) && slot in StateFrom(HeldOf(PartitionsFor(g, profiles, i), held)).usedMemory
    ensures 0 <= slot < g.memorySlices
  {
    var ps := PartitionsFor(g, profiles, i);
    UsedIsCovered(HeldOf(ps, held), slot);
    var k :| 0 <= k < |HeldOf(ps, held)| && Covers(HeldOf(ps, held)[k], slot);
    HeldIsListed(ps, held, k);
    PartitionsForExact(g, profiles, i, HeldOf(ps, held)[k]);
  }

  lemma {:induction false} HeldIsListed(ps: seq<Partition>, held: set<string>, k: nat)
    requires k < |HeldOf(ps, held)|
    ensures HeldOf(ps, held)[k] in ps
  {
    if k < |HeldOf(ps[..|ps| - 1], held)| {
      HeldIsListed(ps[..|ps| - 1], held, k);
    }
  }

  lemma {:induction false} ReportsNotNegative(rn: ResolvedNode, held: set<string>, reports: seq<Report>)
    requires WellFormed(rn) && AreReportsOn(rn, held, reports)
    ensures NoneNegative(reports)
  {
    var g, profiles := rn.mig.value.geometry, Sort(Runs.SizeLe, rn.mig.value.profiles);
    forall i, f | 0 <= i < |reports| && 0 <= f < |reports[i].profiles|
      ensures reports[i].profiles[f].lost >= 0
    {
      var state := StateFrom(HeldOf(rn.gpus[i].partitions, held));
      forall slot | slot in state.usedMemory {
        HeldFitsMemory(g, rn.mig.value.profiles, i, held, slot);
      }
      assert reports[i].profiles == Fits(g, state, profiles);
      assert profiles[f] in profiles;
      Runs.LossNeverNegative(g, state, profiles[f]);
    }
  }

  /** No inspection of generated slices reports a negative loss, whatever is held. */
  lemma {:induction false} InspectedNotNegative(nodes: seq<ResolvedNode>, held: set<string>,
      out: seq<NodeFragmentation>)
    requires AllWellFormed(nodes) && IsInspectionOn(nodes, held, out)
    ensures forall n :: 0 <= n < |out| ==> NoneNegative(out[n].gpus)
  {
    forall n | 0 <= n < |out|
      ensures NoneNegative(out[n].gpus)
    {
      assert IsReported(out, out[n].node);
      var k: nat :| k < |nodes| && nodes[k].name == out[n].node && nodes[k].mig.Some?;
      ReportsNotNegative(nodes[k], held, out[n].gpus);
    }
  }

  /** Nothing a topology publishes makes the analysis divide by zero. */
  lemma {:induction false} GeneratedIsDivisible(nodes: seq<ResolvedNode>, topologyName: string,
      listed: seq<ResourceSlice>)
    requires NamedApart(nodes) && AllWellFormed(nodes)
             && multiset(listed) == multiset(ResourceSlices(nodes, topologyName))
    ensures AllDivisible(listed)
  {
    forall n, i
      ensures Divisible(OnGpu(DevicesOf(listed, n), i))
    {
      AddedDevices(map[], DevicesIn(OfNode(listed, n)), i);
      assert OnGpu(DevicesOf(listed, n), i) == PublishedFor(DevicesIn(OfNode(listed, n)), i);
      ListedNode(nodes, topologyName, listed, n);
      if k: nat :| k < |nodes| && nodes[k].name == n {
        if nodes[k].mig.Some? {
          PublishedIsDivisible(nodes[k], topologyName, OfNode(listed, n), i);
        } else {
          WholeNodeDivisible(nodes[k], topologyName, OfNode(listed, n), i);
        }
      } else {
        OfNodeAnyOrder(listed, ResourceSlices(nodes, topologyName), n);
        ElsewhereNothing(nodes, topologyName, n);
        assert |multiset(OfNode(listed, n))| == |OfNode(listed, n)|;
      }
    }
  }

  lemma {:induction false} NodeReadsBack(nodes: seq<ResolvedNode>, topologyName: string, listed: seq<ResourceSlice>,
      held: set<string>, r: NodeFragmentation, k: nat)
    requires NamedApart(nodes) && AllWellFormed(nodes)
             && multiset(listed) == multiset(ResourceSlices(nodes, topologyName))
    requires k < |nodes| && nodes[k].mig.Some? && nodes[k].name == r.node && IsNodeReport(listed, held, r)
    ensures AreReportsOn(nodes[k], held, r.gpus)
  {
    ListedNode(nodes, topologyName, listed, r.node);
    PublishThenDecode(nodes[k], topologyName, OfNode(listed, r.node), held, r.gpus);
  }

  // ---------------------------------------------------------------- whose partitions

  /** What is held on each node, and its union, which is all that an inspection is told. */
  ghost predicate IsUnion(own: map<string, set<string>>, all: set<string>) {
    forall d :: d in all <==> exists n :: n in own && d in own[n]
  }

  ghost function OwnOn(own: map<string, set<string>>, node: string): set<string> {
    if node in own then own[node] else {}
  }

  /** The report on a GPU for what its own node holds. */
  ghost function OwnReport(rn: ResolvedNode, i: nat, own: set<string>): Report
    requires rn.mig.Some? && i < |rn.gpus| && AllPositive(Sort(Runs.SizeLe, rn.mig.value.profiles))
  {
    Analyse(rn.mig.value.geometry, Sort(Runs.SizeLe, rn.mig.value.profiles), i,
      StateFrom(HeldOf(rn.gpus[i].partitions, own)))
  }

  /** The reports of a node, GPU by GPU, are its own exactly where no name held elsewhere, and not
      here, is also published here. */
  ghost predicate OwnUnlessNamesCollide(rn: ResolvedNode, own: set<string>, all: set<string>, reports: seq<Report>) {
    && rn.mig.Some? && AllPositive(Sort(Runs.SizeLe, rn.mig.value.profiles)) && |reports| == |rn.gpus|
    && forall i :: 0 <= i < |rn.gpus| ==>
         (reports[i] == OwnReport(rn, i, own) <==> NoCollision(rn.gpus[i].partitions, own, all))
  }

  lemma {:induction false} OwnReports(rn: ResolvedNode, own: set<string>, all: set<string>, reports: seq<Report>)
    requires WellFormed(rn) && own <= all && AreReportsOn(rn, all, reports)
    ensures OwnUnlessNamesCollide(rn, own, all, reports)
  {
    forall i | 0 <= i < |rn.gpus|
      ensures reports[i] == OwnReport(rn, i, own) <==> NoCollision(rn.gpus[i].partitions, own, all)
    {
      ReportExactUnlessNamesCollide(rn, i, own, all, Sort(Runs.SizeLe, rn.mig.value.profiles));
    }
  }

  /** What is inspected is what the topology describes, whatever order the slices are listed in. */
  lemma {:induction false} InspectionReadsBack(nodes: seq<ResolvedNode>, topologyName: string,
      listed: seq<ResourceSlice>, held: set<string>, out: seq<NodeFragmentation>)
    requires NamedApart(nodes) && AllWellFormed(nodes)
             && multiset(listed) == multiset(ResourceSlices(nodes, topologyName))
    requires IsInspection(listed, held, out)
    ensures IsInspectionOn(nodes, held, out)
  {
    forall n
      ensures IsReported(out, n) <==> IsMigNode(nodes, n)
    {
      ListedNode(nodes, topologyName, listed, n);
      if i :| 0 <= i < |out| && out[i].node == n {
        assert IsNodeReport(listed, held, out[i]);
      }
    }
    forall i, k | 0 <= i < |out| && 0 <= k < |nodes| && nodes[k].mig.Some? && nodes[k].name == out[i].node {
      NodeReadsBack(nodes, topologyName, listed, held, out[i], k);
    }
  }

  /** Selected profiles are named once in every pool, and GPU indexes fit Go's integers. */
  ghost predicate PoolsListOnce(ct: ClusterTopology) {
    forall name :: name in ct.nodePools && MIGEnabled(ct.nodePools[name]) ==>
      Distinct(ct.nodePools[name].mig.value.profiles) && ct.nodePools[name].gpuCount <= MAX_INT
  }

  lemma {:induction false} ValidAllWellFormed(ct: ClusterTopology, load: Loader)
    requires Valid(ct) && PoolsListOnce(ct)
    ensures AllWellFormed(Expanded(ct, load, ct.racks))
  {
    var nodes := Expanded(ct, load, ct.racks);
    ValidResolves(ct, load);
    forall x | 0 <= x < |nodes| && nodes[x].mig.Some?
      ensures WellFormed(nodes[x]) && nodes[x].gpus != []
    {
      assert nodes[x] in nodes;
      var i: nat, k: nat :| From(ct, load, i, k, nodes[x]);
      NodeShape(ct, load, i, k, nodes[x]);
      ValidPoolAt(ct, i, k);
      ValidIsWellFormed(ct, load, i, k, nodes[x]);
    }
  }

  /** Whatever order an applied cluster lists its slices in, it can be inspected. */
  lemma {:induction false} AppliedIsDivisible(ct: ClusterTopology, load: Loader, before: Cluster, run: ApplyRun,
      after: Cluster, names: seq<string>, listed: seq<ResourceSlice>)
    requires Valid(ct) && PoolsListOnce(ct) && Keyed(before) && IsApply(ct, load, before, run, true, after)
    requires ListsManaged(after, names, listed)
    ensures var nodes := Expanded(ct, load, ct.racks);
            && AllWellFormed(nodes) && NamedApart(nodes)
            && multiset(listed) == multiset(ResourceSlices(nodes, ct.name)) && AllDivisible(listed)
  {
    ValidAllWellFormed(ct, load);
    ApplyMatches(ct, load, before, run, after);
    GeneratedIsCoherent(ct, load, run.keys, run.tiers, run.tree);
    ListedIsGenerated(before, after, WantOf(ct, load, run), names, listed);
    ResolvedApart(ct, load);
    GeneratedIsDivisible(Expanded(ct, load, ct.racks), ct.name, listed);
  }

  /** Every report inspected is its node's own, unless names collide. */
  ghost predicate EachIsOwn(nodes: seq<ResolvedNode>, own: map<string, set<string>>, all: set<string>,
      out: seq<NodeFragmentation>)
  {
    forall j, k :: 0 <= j < |out| && 0 <= k < |nodes| && nodes[k].mig.Some? && nodes[k].name == out[j].node ==>
      OwnUnlessNamesCollide(nodes[k], OwnOn(own, nodes[k].name), all, out[j].gpus)
  }

  /** Where they do not collide, and what the node holds is within its counters, the report is true
      of it, field by field. */
  ghost predicate EachTells(nodes: seq<ResolvedNode>, own: map<string, set<string>>, all: set<string>,
      out: seq<NodeFragmentation>)
  {
    forall j, k :: 0 <= j < |out| && 0 <= k < |nodes| && nodes[k].mig.Some? && nodes[k].name == out[j].node ==>
      NodeTells(nodes[k], OwnOn(own, nodes[k].name), all, out[j].gpus)
  }

  ghost predicate NodeTells(rn: ResolvedNode, own: set<string>, all: set<string>, reports: seq<Report>) {
    && rn.mig.Some? && AllPositive(Sort(Runs.SizeLe, rn.mig.value.profiles)) && |reports| == |rn.gpus|
    && forall i :: 0 <= i < |rn.gpus| ==> GpuTells(rn, i, own, all, reports[i])
  }

  ghost predicate GpuTells(rn: ResolvedNode, i: nat, own: set<string>, all: set<string>, report: Report)
    requires rn.mig.Some? && AllPositive(Sort(Runs.SizeLe, rn.mig.value.profiles)) && i < |rn.gpus|
  {
    var g, profiles := rn.mig.value.geometry, Sort(Runs.SizeLe, rn.mig.value.profiles);
    var held := HeldOf(rn.gpus[i].partitions, own);
    NoCollision(rn.gpus[i].partitions, own, all) && Accepts(g, profiles, i, held) ==>
      Runs.Tells(g, profiles, i, held, report)
  }

  lemma {:induction false} SortedChain(profiles: seq<Profile>)
    requires Chain(profiles)
    ensures Chain(Sort(Runs.SizeLe, profiles))
  {
    SortPermutes(Runs.SizeLe, profiles);
    forall p
      ensures p in Sort(Runs.SizeLe, profiles) <==> p in profiles
    {
      InSameBag(Sort(Runs.SizeLe, profiles), profiles, p);
    }
  }

  lemma {:induction false} OwnTells(rn: ResolvedNode, own: set<string>, all: set<string>, reports: seq<Report>)
    requires WellFormed(rn) && OwnUnlessNamesCollide(rn, own, all, reports)
    ensures NodeTells(rn, own, all, reports)
  {
    var g, profiles := rn.mig.value.geometry, Sort(Runs.SizeLe, rn.mig.value.profiles);
    SortedChain(rn.mig.value.profiles);
    forall i | 0 <= i < |rn.gpus|
      ensures GpuTells(rn, i, own, all, reports[i])
    {
      var held := HeldOf(rn.gpus[i].partitions, own);
      if NoCollision(rn.gpus[i].partitions, own, all) && Accepts(g, profiles, i, held) {
        Runs.AnalysisTells(g, profiles, i, held);
        assert reports[i] == OwnReport(rn, i, own);
      }
    }
  }

  lemma {:induction false} OwnInspection(nodes: seq<ResolvedNode>, topologyName: string, listed: seq<ResourceSlice>,
      own: map<string, set<string>>, all: set<string>, out: seq<NodeFragmentation>)
    requires NamedApart(nodes) && AllWellFormed(nodes)
             && multiset(listed) == multiset(ResourceSlices(nodes, topologyName))
    requires IsUnion(own, all) && IsInspection(listed, all, out)
    ensures IsInspectionOn(nodes, all, out) && EachIsOwn(nodes, own, all, out)
  {
    InspectionReadsBack(nodes, topologyName, listed, all, out);
    forall j, k | 0 <= j < |out| && 0 <= k < |nodes| && nodes[k].mig.Some? && nodes[k].name == out[j].node {
      OwnReports(nodes[k], OwnOn(own, nodes[k].name), all, out[j].gpus);
    }
  }

  lemma {:induction false} OwnInspectionTells(nodes: seq<ResolvedNode>, own: map<string, set<string>>,
      all: set<string>, out: seq<NodeFragmentation>)
    requires AllWellFormed(nodes) && EachIsOwn(nodes, own, all, out)
    ensures EachTells(nodes, own, all, out)
  {
    forall j, k | 0 <= j < |out| && 0 <= k < |nodes| && nodes[k].mig.Some? && nodes[k].name == out[j].node
      ensures NodeTells(nodes[k], OwnOn(own, nodes[k].name), all, out[j].gpus)
    {
      OwnTells(nodes[k], OwnOn(own, nodes[k].name), all, out[j].gpus);
    }
  }

  /** From the topology file to the report: once a topology has been applied, from whatever state
      the cluster was in, an inspection lists its MIG nodes in order, and reports on each GPU what
      the analysis gives for the partitions its own node holds exactly where no name held
      elsewhere, and not there, is also published for it. Every field is then true of them. */
  lemma {:induction false} AppliedIsInspected(ct: ClusterTopology, load: Loader, before: Cluster, run: ApplyRun,
      after: Cluster, names: seq<string>, listed: seq<ResourceSlice>, own: map<string, set<string>>,
      all: set<string>, out: seq<NodeFragmentation>)
    requires Valid(ct) && PoolsListOnce(ct) && Keyed(before) && IsApply(ct, load, before, run, true, after)
    requires ListsManaged(after, names, listed) && IsUnion(own, all) && IsInspection(listed, all, out)
    ensures var nodes := Expanded(ct, load, ct.racks);
            && AllDivisible(listed) && AllWellFormed(nodes) && IsInspectionOn(nodes, all, out)
            && EachIsOwn(nodes, own, all, out) && EachTells(nodes, own, all, out)
  {
    var nodes := Expanded(ct, load, ct.racks);
    AppliedIsDivisible(ct, load, before, run, after, names, listed);
    OwnInspection(nodes, ct.name, listed, own, all, out);
    OwnInspectionTells(nodes, own, all, out);
  }

  lemma {:induction false} ResolvedApart(ct: ClusterTopology, load: Loader)
    requires Valid(ct)
    ensures NamedApart(Expanded(ct, load, ct.racks))
  {
    ValidResolves(ct, load);
    var nodes := Expanded(ct, load, ct.racks);
    forall i, j | 0 <= i < j < |nodes|
      ensures nodes[i].name != nodes[j].name
    {
      assert ResolvedNames(nodes)[i] != ResolvedNames(nodes)[j];
    }
  }
}
