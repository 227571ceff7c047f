/** Everything a resolved topology generates for the cluster. */
module Generating {
  import opened Options
  import opened Names
  import opened Topology
  import opened Resolve
  import opened Expansion
  import opened Resources
  import opened Levels
  import opened HyperNodes
  import opened Publishing
  import opened Store
  import opened Forest

  const KWOK := "kwok.x-k8s.io/node"

  function NodeObjectOf(rn: ResolvedNode, topologyName: string): NodeObject {
    NodeObject(NodeLabels(rn, topologyName), map[KWOK := "fake"], [Taint(KWOK, "NoSchedule")], SimulatedCapacity, FRESH)
  }

  function Nodes(nodes: seq<ResolvedNode>, topologyName: string): seq<NamedNode> {
    seq(|nodes|, i requires 0 <= i < |nodes| => NamedNode(nodes[i].name, NodeObjectOf(nodes[i], topologyName)))
  }

  /** A whole GPU's device, named for the node and index its identity is hashed from. Its type is
      published under two names. */
  function WholeDevice(rn: ResolvedNode, gpu: ResolvedGPU): Device {
    Device(
      "gpu-" + rn.name + "-" + Itoa(gpu.index),
      map[ATTR_TYPE := "gpu", ATTR_LEGACY_TYPE := "gpu"]
      + (if gpu.busID != "" then map[ATTR_BUS_ID := gpu.busID] else map[])
      + FabricAttributes(gpu),
      [],
      [])
  }

  function WholeSlice(rn: ResolvedNode, topologyName: string): ResourceSlice {
    NewSlice(rn, topologyName, Whole, 1, [],
      seq(|rn.gpus|, i requires 0 <= i < |rn.gpus| => WholeDevice(rn, rn.gpus[i])))
  }

  /** A MIG node publishes partitions and never its whole GPUs. */
  function SlicesOf(rn: ResolvedNode, topologyName: string): seq<ResourceSlice> {
    if rn.mig.Some? then MigSlices(rn, topologyName) else [WholeSlice(rn, topologyName)]
  }

  function ResourceSlices(nodes: seq<ResolvedNode>, topologyName: string): seq<ResourceSlice> {
    if nodes == [] then []
    else ResourceSlices(nodes[..|nodes| - 1], topologyName) + SlicesOf(nodes[|nodes| - 1], topologyName)
  }

  method BuildNodes(nodes: seq<ResolvedNode>, topologyName: string) returns (out: seq<NamedNode>)
    ensures out == Nodes(nodes, topologyName)
  {
    out := [];
    for i := 0 to |nodes|
      invariant out == Nodes(nodes, topologyName)[..i]
    {
      out := out + [NamedNode(nodes[i].name, NodeObjectOf(nodes[i], topologyName))];
    }
  }

  method BuildSlices(nodes: seq<ResolvedNode>, topologyName: string) returns (out: seq<ResourceSlice>)
    ensures out == ResourceSlices(nodes, topologyName)
  {
    out := [];
    for i := 0 to |nodes|
      invariant out == ResourceSlices(nodes[..i], topologyName)
    {
      assert nodes[..i + 1][..i] == nodes[..i];
      if nodes[i].mig.Some? {
        var slices := PublishMig(nodes[i], topologyName);
        out := out + slices;
      } else {
        out := out + [WholeSlice(nodes[i], topologyName)];
      }
    }
    assert nodes[..|nodes|] == nodes;
  }

  /** A slice of the list comes from one node and has one of that node's names. */
  ghost predicate SliceFrom(s: ResourceSlice, rn: ResolvedNode, kind: SliceKind) {
    && s.name == SliceName(rn.name, kind) && s.nodeName == Some(rn.name) && ManagedLabels(s.labels)
    && Untainted(s)
  }

  ghost predicate Untainted(s: ResourceSlice) {
    forall i :: 0 <= i < |s.devices| ==> s.devices[i].taints == []
  }

  lemma {:induction false} DevicesUntainted(gpus: seq<ResolvedGPU>)
    ensures forall i :: 0 <= i < |NodeDevices(gpus)| ==> NodeDevices(gpus)[i].taints == []
  {
    if gpus != [] {
      DevicesUntainted(gpus[..|gpus| - 1]);
    }
  }

  lemma {:induction false} ChunksFrom<T>(s: seq<T>, size: nat, c: int, k: int)
    requires size > 0 && 0 <= c < |Chunks(s, size)| && 0 <= k < |Chunks(s, size)[c]|
    ensures Chunks(s, size)[c][k] in s
    decreases |s|
  {
    if |s| > size && c > 0 {
      ChunksFrom(s[size..], size, c - 1, k);
    }
  }

  /** The kind of the slice at each place of a node's list. */
  function KindIn(rn: ResolvedNode, k: nat): SliceKind {
    if rn.mig.None? then Whole else KindAt(k)
  }

  lemma {:induction false} SlicesOfNode(rn: ResolvedNode, topologyName: string, k: nat)
    requires k < |SlicesOf(rn, topologyName)|
    ensures SliceFrom(SlicesOf(rn, topologyName)[k], rn, KindIn(rn, k))
  {
    if rn.mig.Some? {
      SliceAt(rn, topologyName, k);
      DevicesUntainted(rn.gpus);
      var s := MigSlices(rn, topologyName)[k];
      if k > 0 {
        forall i | 0 <= i < |s.devices|
          ensures s.devices[i].taints == []
        {
          ChunksFrom(NodeDevices(rn.gpus), MAX_DEVICES_PER_SLICE, k - 1, i);
        }
      }
    }
  }

  /** Where each slice of the list comes from. */
  lemma {:induction false} SliceSource(nodes: seq<ResolvedNode>, topologyName: string, i: nat) returns (n: nat, k: nat)
    requires i < |ResourceSlices(nodes, topologyName)|
    ensures n < |nodes| && k < |SlicesOf(nodes[n], topologyName)|
    ensures ResourceSlices(nodes, topologyName)[i] == SlicesOf(nodes[n], topologyName)[k]
    ensures i == |ResourceSlices(nodes[..n], topologyName)| + k
  {
    var front := ResourceSlices(nodes[..|nodes| - 1], topologyName);
    if i < |front| {
      n, k := SliceSource(nodes[..|nodes| - 1], topologyName, i);
      assert nodes[..|nodes| - 1][..n] == nodes[..n];
    } else {
      n, k := |nodes| - 1, i - |front|;
    }
  }

  lemma {:induction false} SameSliceName(a: ResolvedNode, k: nat, b: ResolvedNode, l: nat, topologyName: string)
    requires k < |SlicesOf(a, topologyName)| && l < |SlicesOf(b, topologyName)|
    requires SlicesOf(a, topologyName)[k].name == SlicesOf(b, topologyName)[l].name
    ensures a.name == b.name && KindIn(a, k) == KindIn(b, l)
  {
    SlicesOfNode(a, topologyName, k);
    SlicesOfNode(b, topologyName, l);
    SliceNameInjective(a.name, KindIn(a, k), b.name, KindIn(b, l));
  }

  lemma {:induction false} SameKindSamePlace(rn: ResolvedNode, topologyName: string)
    ensures forall k: nat, l: nat ::
              k < |SlicesOf(rn, topologyName)| && l < |SlicesOf(rn, topologyName)| && KindIn(rn, k) == KindIn(rn, l) ==>
                k == l
  {
  }

  lemma {:induction false} SameNodePlace(nodes: seq<ResolvedNode>, n: nat, m: nat)
    requires Distinct(ResolvedNames(nodes)) && n < |nodes| && m < |nodes| && nodes[n].name == nodes[m].name
    ensures n == m
  {
    assert ResolvedNames(nodes)[n] == ResolvedNames(nodes)[m];
  }

  lemma {:induction false} SlicesDistinct(nodes: seq<ResolvedNode>, topologyName: string, i: nat, j: nat)
    requires Distinct(ResolvedNames(nodes)) && i < j < |ResourceSlices(nodes, topologyName)|
    ensures ResourceSlices(nodes, topologyName)[i].name != ResourceSlices(nodes, topologyName)[j].name
  {
    var n, k := SliceSource(nodes, topologyName, i);
    var m, l := SliceSource(nodes, topologyName, j);
    if SlicesOf(nodes[n], topologyName)[k].name == SlicesOf(nodes[m], topologyName)[l].name {
      SameSliceName(nodes[n], k, nodes[m], l, topologyName);
      SameNodePlace(nodes, n, m);
      SameKindSamePlace(nodes[n], topologyName);
    }
  }

  lemma {:induction false} SomeSlice(nodes: seq<ResolvedNode>, topologyName: string)
    requires nodes != []
    ensures ResourceSlices(nodes, topologyName) != []
  {
  }

  function DesiredOf(nodes: seq<ResolvedNode>, topologyName: string, hyperNodes: seq<HyperNode>): Desired {
    Desired(Nodes(nodes, topologyName), ResourceSlices(nodes, topologyName), (topologyName, KAILevels(nodes)),
      hyperNodes)
  }

  lemma {:induction false} TreeNamesDistinct(nodes: seq<ResolvedNode>, keys: seq<seq<string>>,
      tiers: seq<seq<HyperNode>>, out: seq<HyperNode>, a: nat, b: nat)
    requires IsTree(nodes, keys, tiers, out) && a < b < |out|
    ensures out[a].name != out[b].name
  {
    var i, x := ConcatSource(tiers, a);
    var j, y := ConcatSource(tiers, b);
    var levels := VolcanoLevels(nodes);
    assert IsTier(nodes, levels, i, keys[i], tiers[i]) && IsTier(nodes, levels, j, keys[j], tiers[j]);
    if out[a].name == out[b].name {
      NameGivesBack(levels[i], keys[i][x], levels[j], keys[j][y]);
      LevelsDiffer(nodes, i, j);
    }
  }

  lemma {:induction false} ConcatSource<T>(ss: seq<seq<T>>, a: nat) returns (i: nat, x: nat)
    requires a < |Concat(ss)|
    ensures i < |ss| && x < |ss[i]| && Concat(ss)[a] == ss[i][x] && a == |Concat(ss[..i])| + x
  {
    var front := Concat(ss[..|ss| - 1]);
    if a < |front| {
      i, x := ConcatSource(ss[..|ss| - 1], a);
      assert ss[..|ss| - 1][..i] == ss[..i];
    } else {
      i, x := |ss| - 1, a - |front|;
    }
  }

  /** What a validated topology generates is coherent: names are used once across nodes, slices
      and HyperNodes, everything is marked as managed, no device starts tainted, and every slice
      names a generated node. */
  lemma {:induction false} GeneratedIsCoherent(ct: ClusterTopology, load: Loader, keys: seq<seq<string>>,
      tiers: seq<seq<HyperNode>>, out: seq<HyperNode>)
    requires Valid(ct) && IsTree(Expanded(ct, load, ct.racks), keys, tiers, out)
    ensures Coherent(DesiredOf(Expanded(ct, load, ct.racks), ct.name, out))
    ensures forall s :: s in DesiredOf(Expanded(ct, load, ct.racks), ct.name, out).slices ==> Untainted(s)
  {
    var nodes := Expanded(ct, load, ct.racks);
    var want := DesiredOf(nodes, ct.name, out);
    ValidResolves(ct, load);
    SomeSlice(nodes, ct.name);
    forall i, j | 0 <= i < j < |want.nodes|
      ensures want.nodes[i].name != want.nodes[j].name
    {
      assert ResolvedNames(nodes)[i] != ResolvedNames(nodes)[j];
    }
    forall i | 0 <= i < |want.nodes|
      ensures ManagedLabels(want.nodes[i].node.labels)
    {
      LabelCarriesLevel(nodes[i], ct.name, Host);
    }
    forall i, j | 0 <= i < j < |want.slices| {
      SlicesDistinct(nodes, ct.name, i, j);
    }
    forall a, b | 0 <= a < b < |out| {
      TreeNamesDistinct(nodes, keys, tiers, out, a, b);
    }
    forall i | 0 <= i < |want.slices|
      ensures ManagedLabels(want.slices[i].labels)
      ensures want.slices[i].nodeName.Some? && want.slices[i].nodeName.value in NodeNamesIn(want)
      ensures Untainted(want.slices[i])
    {
      var n, k := SliceSource(nodes, ct.name, i);
      SlicesOfNode(nodes[n], ct.name, k);
      assert want.nodes[n].name == nodes[n].name;
    }
  }

  // ---------------------------------------------------------------- how many devices

  function CountDevices(slices: seq<ResourceSlice>): nat {
    if slices == [] then 0 else CountDevices(slices[..|slices| - 1]) + |slices[|slices| - 1].devices|
  }

  function PartitionTotal(gpus: seq<ResolvedGPU>): nat {
    if gpus == [] then 0 else PartitionTotal(gpus[..|gpus| - 1]) + |gpus[|gpus| - 1].partitions|
  }

  /** One device for each whole GPU, and one for each partition of a GPU with MIG. */
  function DeviceTotal(nodes: seq<ResolvedNode>): nat {
    if nodes == [] then 0
    else
      var last := nodes[|nodes| - 1];
      DeviceTotal(nodes[..|nodes| - 1]) + if last.mig.Some? then PartitionTotal(last.gpus) else |last.gpus|
  }

  lemma {:induction false} CountConcat(a: seq<ResourceSlice>, b: seq<ResourceSlice>)
    ensures CountDevices(a + b) == CountDevices(a) + CountDevices(b)
  {
    if b == [] {
      assert a + b == a;
    } else {
      assert (a + b)[..|a + b| - 1] == a + b[..|b| - 1];
      CountConcat(a, b[..|b| - 1]);
    }
  }

  lemma {:induction false} CountIsLength(slices: seq<ResourceSlice>)
    ensures CountDevices(slices) == |DevicesIn(slices)|
  {
    if slices != [] {
      CountIsLength(slices[1..]);
      CountConcat([slices[0]], slices[1..]);
      assert slices == [slices[0]] + slices[1..];
      assert [slices[0]][..0] == [];
    }
  }

  lemma {:induction false} NodeDevicesCount(gpus: seq<ResolvedGPU>)
    ensures |NodeDevices(gpus)| == PartitionTotal(gpus)
  {
    if gpus != [] {
      NodeDevicesCount(gpus[..|gpus| - 1]);
    }
  }

  lemma {:induction false} SlicesOfCount(rn: ResolvedNode, topologyName: string)
    ensures CountDevices(SlicesOf(rn, topologyName)) == if rn.mig.Some? then PartitionTotal(rn.gpus) else |rn.gpus|
  {
    if rn.mig.Some? {
      CountIsLength(MigSlices(rn, topologyName));
      PublishedDevices(rn, topologyName);
      NodeDevicesCount(rn.gpus);
    } else {
      assert [WholeSlice(rn, topologyName)][..0] == [];
    }
  }

  /** The devices published are the GPUs and partitions of the topology, each once. */
  lemma {:induction false} EveryDeviceCounted(nodes: seq<ResolvedNode>, topologyName: string)
    ensures CountDevices(ResourceSlices(nodes, topologyName)) == DeviceTotal(nodes)
  {
    if nodes != [] {
      EveryDeviceCounted(nodes[..|nodes| - 1], topologyName);
      SlicesOfCount(nodes[|nodes| - 1], topologyName);
      CountConcat(ResourceSlices(nodes[..|nodes| - 1], topologyName), SlicesOf(nodes[|nodes| - 1], topologyName));
    }
  }
}
