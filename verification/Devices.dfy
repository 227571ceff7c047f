/** The devices of an applied topology: which there are, and what each says of itself. */
module Devices {
  import opened Options
  import opened Names
  import opened Profiles
  import opened Partitions
  import opened Counters
  import opened Topology
  import opened Resolve
  import opened Expansion
  import opened Resources
  import opened Publishing
  import opened Store
  import opened Convergence
  import opened Generating
  import opened Client
  import opened Documents
  import opened Lossless

  lemma {:induction false} AttributesDiffer()
    ensures ATTR_TYPE[0] == 't' && ATTR_PROFILE[1] == 'r' && ATTR_BUS_ID[1] == 'c' && ATTR_PROFILE[0] == 'p'
            && ATTR_BUS_ID[0] == 'p'
    ensures ATTR_LEGACY_TYPE[3] == '.' && ATTR_NVLINK_DOMAIN[3] == ATTR_FAULT_DOMAIN[3] == '-'
    ensures ATTR_LEGACY_TYPE[0] == ATTR_NVLINK_DOMAIN[0] == ATTR_FAULT_DOMAIN[0] == 'g'
    ensures ATTR_NVLINK_DOMAIN[11] == 'n' && ATTR_FAULT_DOMAIN[11] == 'f'
  {
  }

  /** The attributes that say where a device is: its NVLink domain exactly where the pool has NVLink,
      and its fault domain. */
  ghost predicate IsPlaced(ct: ClusterTopology, rack: Rack, node: Node, attributes: map<string, string>) {
    && ("gpu-sim.io/nvlinkDomain" in attributes <==> HasNVLink(ct, node))
    && (HasNVLink(ct, node) ==>
          attributes["gpu-sim.io/nvlinkDomain"] == if rack.nvlinkDomain != "" then rack.nvlinkDomain else node.name)
    && Reads(attributes, "gpu-sim.io/faultDomain", rack.faultDomain)
  }

  /** A whole GPU. */
  ghost predicate IsWholeGPU(node: Node, pool: NodePool, load: Loader, g: nat, d: Device) {
    && d.name == "gpu-" + node.name + "-" + Itoa(g) && d.consumes == []
    && Reads(d.attributes, "type", "gpu") && Reads(d.attributes, "gpu.nvidia.com/type", "gpu")
    && (load(pool.profile).Some? && load(pool.profile).value.busIDs != [] ==>
          var ids := load(pool.profile).value.busIDs;
          var id := ids[g % |ids|];
          if id == "" then "pciBusID" !in d.attributes else Reads(d.attributes, "pciBusID", id))
  }

  /** A partition of a GPU: an aligned run of memory, and the counters it shares with others. */
  ghost predicate IsPartition(geometry: Geometry, g: nat, p: Profile, start: nat, d: Device) {
    && d.name == "gpu-" + Itoa(g) + "-mig-" + StripDots(p.name) + "-" + Itoa(start)
    && Reads(d.attributes, "type", "mig") && Reads(d.attributes, "profile", p.name)
    && p.memorySlices > 0 && start % p.memorySlices == 0 && start + p.memorySlices <= geometry.memorySlices
    && |d.consumes| == 1 && d.consumes[0].counterSet == "gpu-" + Itoa(g)
    && AreCounters(d.consumes[0].counters, start, p)
  }

  /** One for each position of the run, and the compute it takes. */
  ghost predicate AreCounters(counters: map<string, nat>, start: nat, p: Profile) {
    && (forall m: nat :: Amount(counters, "memory-slice-" + Itoa(m)) ==
          if start <= m < start + p.memorySlices then 1 else 0)
    && Amount(counters, "sm-slices") == p.smSlices
  }

  ghost predicate IsOffered(pool: NodePool, geometry: Geometry, p: Profile) {
    && GeometryFor(pool.profile) == Some(geometry)
    && MIGEnabled(pool) && SelectProfiles(geometry, pool.mig.value.profiles).Some?
    && p in SelectProfiles(geometry, pool.mig.value.profiles).value
  }

  ghost predicate IsDevice(ct: ClusterTopology, load: Loader, i: nat, k: nat, g: nat, s: ResourceSlice, d: Device) {
    && i < |ct.racks| && k < |ct.racks[i].nodes| && ct.racks[i].nodes[k].pool in ct.nodePools
    && var rack, node := ct.racks[i], ct.racks[i].nodes[k];
       var pool := ct.nodePools[node.pool];
       && s.nodeName == Some(node.name) && g < pool.gpuCount && d.taints == []
       && IsPlaced(ct, rack, node, d.attributes)
       && if MIGEnabled(pool)
          then exists geometry, p, start :: IsOffered(pool, geometry, p) && IsPartition(geometry, g, p, start, d)
          else IsWholeGPU(node, pool, load, g, d)
  }

  // ---------------------------------------------------------------- one device

  lemma {:induction false} FabricReads(gpu: ResolvedGPU)
    ensures var a := FabricAttributes(gpu);
            && ("gpu-sim.io/nvlinkDomain" in a <==> gpu.nvlinkDomain != "")
            && (gpu.nvlinkDomain != "" ==> a["gpu-sim.io/nvlinkDomain"] == gpu.nvlinkDomain)
            && ("gpu-sim.io/faultDomain" in a <==> gpu.faultDomain != "")
            && (gpu.faultDomain != "" ==> Reads(a, "gpu-sim.io/faultDomain", gpu.faultDomain))
            && forall k :: k in a ==> k[0] == 'g' && k[3] == '-'
  {
    AttributesDiffer();
  }

  lemma {:induction false} WholeReads(rn: ResolvedNode, gpu: ResolvedGPU)
    ensures var a := WholeDevice(rn, gpu).attributes;
            && Reads(a, "type", "gpu") && Reads(a, "gpu.nvidia.com/type", "gpu")
            && (if gpu.busID == "" then "pciBusID" !in a else Reads(a, "pciBusID", gpu.busID))
            && ("gpu-sim.io/nvlinkDomain" in a <==> gpu.nvlinkDomain != "")
            && (gpu.nvlinkDomain != "" ==> a["gpu-sim.io/nvlinkDomain"] == gpu.nvlinkDomain)
            && (gpu.faultDomain != "" ==> Reads(a, "gpu-sim.io/faultDomain", gpu.faultDomain))
  {
    FabricReads(gpu);
    AttributesDiffer();
  }

  lemma {:induction false} MigReads(gpu: ResolvedGPU, p: Partition)
    ensures var a := MigDevice(gpu, p).attributes;
            && Reads(a, "type", "mig") && Reads(a, "profile", p.profile.name)
            && ("gpu-sim.io/nvlinkDomain" in a <==> gpu.nvlinkDomain != "")
            && (gpu.nvlinkDomain != "" ==> a["gpu-sim.io/nvlinkDomain"] == gpu.nvlinkDomain)
            && (gpu.faultDomain != "" ==> Reads(a, "gpu-sim.io/faultDomain", gpu.faultDomain))
  {
    FabricReads(gpu);
    AttributesDiffer();
  }

  lemma {:induction false} WholeIsDevice(ct: ClusterTopology, load: Loader, i: nat, k: nat, n: ResolvedNode, g: nat)
    requires Valid(ct) && From(ct, load, i, k, n) && n.mig.None? && g < |n.gpus|
    ensures IsDevice(ct, load, i, k, g, WholeSlice(n, ct.name), WholeDevice(n, n.gpus[g]))
  {
    NodeShape(ct, load, i, k, n);
    NodeIsDeclared(ct, load, i, k, n);
    DomainIsDeclared(ct, load, i, k, n);
    ValidPoolAt(ct, i, k);
    WholeReads(n, n.gpus[g]);
    assert ValidRack(ct, ct.racks[i]);
  }

  lemma {:induction false} ConsumesRun(p: Partition)
    requires p.profile.memorySlices > 0
    ensures AreCounters(Consumption(p), p.start, p.profile)
  {
    ConsumptionAt(p, 0, "");
    forall m: nat
      ensures Amount(Consumption(p), "memory-slice-" + Itoa(m)) ==
              if p.start <= m < p.start + p.profile.memorySlices then 1 else 0
    {
      ConsumptionAt(p, m, "");
      assert MemoryCounter(m) == "memory-slice-" + Itoa(m);
    }
  }

  lemma {:induction false} PartitionReads(geometry: Geometry, profiles: seq<Profile>, gpu: ResolvedGPU, p: Partition)
    requires AllPositive(profiles) && Offers(geometry, profiles, gpu.index, p)
    ensures IsPartition(geometry, gpu.index, p.profile, p.start, MigDevice(gpu, p))
  {
    ConsumesRun(p);
    MigReads(gpu, p);
  }

  lemma {:induction false} PartitionIsDevice(ct: ClusterTopology, load: Loader, i: nat, k: nat, n: ResolvedNode, g: nat,
      p: Partition, s: ResourceSlice)
    requires Valid(ct) && From(ct, load, i, k, n) && n.mig.Some? && g < |n.gpus| && p in n.gpus[g].partitions
    requires s.nodeName == Some(n.name)
    ensures IsDevice(ct, load, i, k, g, s, MigDevice(n.gpus[g], p))
  {
    NodeShape(ct, load, i, k, n);
    NodeIsDeclared(ct, load, i, k, n);
    DomainIsDeclared(ct, load, i, k, n);
    ValidPoolAt(ct, i, k);
    var geometry, profiles := n.mig.value.geometry, n.mig.value.profiles;
    PartitionsForExact(geometry, profiles, g, p);
    PartitionReads(geometry, profiles, n.gpus[g], p);
    MigReads(n.gpus[g], p);
    assert ValidRack(ct, ct.racks[i]);
    assert IsOffered(ct.nodePools[ct.racks[i].nodes[k].pool], geometry, p.profile);
  }

  // ---------------------------------------------------------------- all devices

  /** Every device of a node's slices is one the document describes. */
  lemma {:induction false} NodeDeviceDeclared(ct: ClusterTopology, load: Loader, i: nat, k: nat, n: ResolvedNode,
      x: nat, j: nat) returns (g: nat)
    requires Valid(ct) && From(ct, load, i, k, n)
    requires x < |SlicesOf(n, ct.name)| && j < |SlicesOf(n, ct.name)[x].devices|
    ensures IsDevice(ct, load, i, k, g, SlicesOf(n, ct.name)[x], SlicesOf(n, ct.name)[x].devices[j])
  {
    var s := SlicesOf(n, ct.name)[x];
    SlicesOfNode(n, ct.name, x);
    if n.mig.None? {
      g := j;
      WholeIsDevice(ct, load, i, k, n, g);
    } else {
      SliceAt(n, ct.name, x);
      ChunksFrom(NodeDevices(n.gpus), MAX_DEVICES_PER_SLICE, x - 1, j);
      var m;
      g, m := NodeDevice(n.gpus, s.devices[j]);
      PartitionIsDevice(ct, load, i, k, n, g, n.gpus[g].partitions[m], s);
    }
  }

  /** The device is one the document describes. */
  ghost predicate IsKnown(ct: ClusterTopology, load: Loader, s: ResourceSlice, d: Device) {
    exists i, k, g :: IsDevice(ct, load, i, k, g, s, d)
  }

  lemma {:induction false} ListedIsKnown(ct: ClusterTopology, load: Loader, x: nat, j: nat)
    requires Valid(ct) && x < |ResourceSlices(Expanded(ct, load, ct.racks), ct.name)|
    requires j < |ResourceSlices(Expanded(ct, load, ct.racks), ct.name)[x].devices|
    ensures var s := ResourceSlices(Expanded(ct, load, ct.racks), ct.name)[x];
            IsKnown(ct, load, s, s.devices[j])
  {
    var nodes := Expanded(ct, load, ct.racks);
    ValidResolves(ct, load);
    var y, z := SliceSource(nodes, ct.name, x);
    assert nodes[y] in nodes;
    var i: nat, k: nat :| From(ct, load, i, k, nodes[y]);
    var g := NodeDeviceDeclared(ct, load, i, k, nodes[y], z, j);
  }

  /** Every device stored is one the document describes. */
  ghost predicate AllKnown(ct: ClusterTopology, load: Loader, c: Cluster) {
    forall n, j :: ManagedSlice(c, n) && 0 <= j < |c.slices[n].slice.devices| ==>
      IsKnown(ct, load, c.slices[n].slice, c.slices[n].slice.devices[j])
  }

  lemma {:induction false} StoredAreKnown(ct: ClusterTopology, load: Loader, before: Cluster, after: Cluster,
      want: Desired)
    requires Valid(ct) && want.slices == ResourceSlices(Expanded(ct, load, ct.racks), ct.name)
    requires SlicesAsGenerated(before, after, want)
    ensures AllKnown(ct, load, after)
  {
    forall n, j | ManagedSlice(after, n) && 0 <= j < |after.slices[n].slice.devices|
      ensures IsKnown(ct, load, after.slices[n].slice, after.slices[n].slice.devices[j])
    {
      assert n in SliceNamesIn(want);
      var x :| 0 <= x < |want.slices| && want.slices[x].name == n;
      ListedIsKnown(ct, load, x, j);
    }
  }

  // ---------------------------------------------------------------- none missing

  lemma {:induction false} ListedForNode(nodes: seq<ResolvedNode>, topologyName: string, k: nat, s: ResourceSlice)
    requires k < |nodes| && s in SlicesOf(nodes[k], topologyName)
    ensures s in ResourceSlices(nodes, topologyName)
  {
    if k < |nodes| - 1 {
      ListedForNode(nodes[..|nodes| - 1], topologyName, k, s);
    }
  }

  /** Every partition of a node is in one of its generated slices. */
  lemma {:induction false} PartitionIsPublished(nodes: seq<ResolvedNode>, topologyName: string, k: nat, i: nat,
      p: Partition)
    returns (s: ResourceSlice, j: nat)
    requires k < |nodes| && nodes[k].mig.Some? && i < |nodes[k].gpus| && p in nodes[k].gpus[i].partitions
    ensures s in ResourceSlices(nodes, topologyName) && s.nodeName == Some(nodes[k].name)
    ensures j < |s.devices| && s.devices[j].name == p.deviceName
  {
    var rn := nodes[k];
    var d := MigDevice(rn.gpus[i], p);
    var m: nat :| m < |rn.gpus[i].partitions| && rn.gpus[i].partitions[m] == p;
    assert GpuDevices(rn.gpus[i])[m] == d;
    InNodeDevices(rn.gpus, d);
    PublishedDevices(rn, topologyName);
    DeviceInSlices(MigSlices(rn, topologyName), d);
    s :| s in MigSlices(rn, topologyName) && d in s.devices;
    j :| j < |s.devices| && s.devices[j] == d;
    var x: nat :| x < |MigSlices(rn, topologyName)| && MigSlices(rn, topologyName)[x] == s;
    SlicesOfNode(rn, topologyName, x);
    ListedForNode(nodes, topologyName, k, s);
  }

  /** A whole GPU's name gives back its node and index. */
  lemma {:induction false} WholeNameInjective(node: string, g: nat, node': string, g': nat)
    requires "gpu-" + node + "-" + Itoa(g) == "gpu-" + node' + "-" + Itoa(g')
    ensures node == node' && g == g'
  {
    ItoaNoDash(g);
    ItoaNoDash(g');
    LastDash("gpu-" + node, Itoa(g), "gpu-" + node', Itoa(g'));
    PrefixCancels("gpu-", node, node');
    ItoaInjective(g, g');
  }

  lemma {:induction false} WholeIsPublished(nodes: seq<ResolvedNode>, topologyName: string, k: nat, g: nat)
    returns (s: ResourceSlice)
    requires k < |nodes| && nodes[k].mig.None? && g < |nodes[k].gpus|
    ensures s in ResourceSlices(nodes, topologyName) && s.nodeName == Some(nodes[k].name)
    ensures g < |s.devices| && s.devices[g].name == "gpu-" + nodes[k].name + "-" + Itoa(nodes[k].gpus[g].index)
  {
    s := WholeSlice(nodes[k], topologyName);
    assert SlicesOf(nodes[k], topologyName)[0] == s;
    ListedForNode(nodes, topologyName, k, s);
  }

  /** A device of that name is stored for that node. */
  ghost predicate IsStored(c: Cluster, node: string, name: string) {
    exists n, j :: ManagedSlice(c, n) && c.slices[n].slice.nodeName == Some(node)
      && 0 <= j < |c.slices[n].slice.devices| && c.slices[n].slice.devices[j].name == name
  }

  lemma {:induction false} StoredFor(before: Cluster, after: Cluster, want: Desired, s: ResourceSlice, j: nat,
      node: string)
    requires s in want.slices && SlicesAsGenerated(before, after, want) && s.nodeName == Some(node) && j < |s.devices|
    ensures IsStored(after, node, s.devices[j].name)
  {
    var x :| 0 <= x < |want.slices| && want.slices[x] == s;
    assert s.name in SliceNamesIn(want);
    assert ManagedSlice(after, s.name) && after.slices[s.name].slice == s;
  }

  /** Each GPU of a pool without MIG is stored, and with MIG each partition of it: every profile
      selected at every aligned start that fits. */
  ghost predicate IsComplete(ct: ClusterTopology, c: Cluster, i: nat, k: nat, g: nat)
    requires i < |ct.racks| && k < |ct.racks[i].nodes| && ct.racks[i].nodes[k].pool in ct.nodePools
  {
    var node := ct.racks[i].nodes[k];
    var pool := ct.nodePools[node.pool];
    if MIGEnabled(pool)
    then
      forall geometry, p, start: nat ::
        IsOffered(pool, geometry, p) && p.memorySlices > 0 && start % p.memorySlices == 0
          && start + p.memorySlices <= geometry.memorySlices ==>
          IsStored(c, node.name, "gpu-" + Itoa(g) + "-mig-" + StripDots(p.name) + "-" + Itoa(start))
    else IsStored(c, node.name, "gpu-" + node.name + "-" + Itoa(g))
  }

  lemma {:induction false} GpuIsComplete(ct: ClusterTopology, load: Loader, before: Cluster, after: Cluster,
      want: Desired, i: nat, k: nat, g: nat)
    requires Valid(ct) && want.slices == ResourceSlices(Expanded(ct, load, ct.racks), ct.name)
    requires SlicesAsGenerated(before, after, want)
    requires i < |ct.racks| && k < |ct.racks[i].nodes| && ct.racks[i].nodes[k].pool in ct.nodePools
    requires g < ct.nodePools[ct.racks[i].nodes[k].pool].gpuCount
    ensures IsComplete(ct, after, i, k, g)
  {
    var nodes := Expanded(ct, load, ct.racks);
    var n := NodeOf(ct, load, ct.racks[i], ct.racks[i].nodes[k]);
    assert ct.racks[..|ct.racks|] == ct.racks;
    ExpandedHas(ct, load, |ct.racks|, i, k);
    NodeShape(ct, load, i, k, n);
    NodeIsDeclared(ct, load, i, k, n);
    var x: nat :| x < |nodes| && nodes[x] == n;
    if n.mig.None? {
      var s := WholeIsPublished(nodes, ct.name, x, g);
      StoredFor(before, after, want, s, g, n.name);
    } else {
      var pool := ct.nodePools[ct.racks[i].nodes[k].pool];
      forall geometry, p, start: nat | IsOffered(pool, geometry, p) && p.memorySlices > 0
        && start % p.memorySlices == 0 && start + p.memorySlices <= geometry.memorySlices
        ensures IsStored(after, n.name, "gpu-" + Itoa(g) + "-mig-" + StripDots(p.name) + "-" + Itoa(start))
      {
        RunIsStored(before, after, want, nodes, ct.name, x, g, p, start);
      }
    }
  }

  lemma {:induction false} RunIsStored(before: Cluster, after: Cluster, want: Desired, nodes: seq<ResolvedNode>,
      topologyName: string, x: nat, g: nat, p: Profile, start: nat)
    requires want.slices == ResourceSlices(nodes, topologyName) && SlicesAsGenerated(before, after, want)
    requires x < |nodes| && nodes[x].mig.Some? && g < |nodes[x].gpus|
    requires var mig := nodes[x].mig.value;
             AllPositive(mig.profiles) && p in mig.profiles && p.memorySlices > 0 && LegalStart(mig.geometry, p, start)
               && nodes[x].gpus[g].partitions == PartitionsFor(mig.geometry, mig.profiles, g)
    ensures IsStored(after, nodes[x].name, "gpu-" + Itoa(g) + "-mig-" + StripDots(p.name) + "-" + Itoa(start))
  {
    var q := Partitions.At(p, g, start);
    PartitionsForExact(nodes[x].mig.value.geometry, nodes[x].mig.value.profiles, g, q);
    var s, j := PartitionIsPublished(nodes, topologyName, x, g, q);
    StoredFor(before, after, want, s, j, nodes[x].name);
  }

  /** After an apply every device stored is one the document describes, with the attributes,
      counters and name it should have and no taint; and every GPU and partition the document
      describes is stored. */
  lemma {:induction false} AppliedDevices(ct: ClusterTopology, load: Loader, before: Cluster, run: ApplyRun,
      after: Cluster)
    requires Valid(ct) && Keyed(before) && IsApply(ct, load, before, run, true, after)
    ensures AllKnown(ct, load, after)
    ensures forall i: nat, k: nat, g: nat ::
              i < |ct.racks| && k < |ct.racks[i].nodes| && ct.racks[i].nodes[k].pool in ct.nodePools
                && g < ct.nodePools[ct.racks[i].nodes[k].pool].gpuCount ==>
                IsComplete(ct, after, i, k, g)
  {
    ApplyMatches(ct, load, before, run, after);
    var want := WantOf(ct, load, run);
    StoredAreKnown(ct, load, before, after, want);
    forall i: nat, k: nat, g: nat | i < |ct.racks| && k < |ct.racks[i].nodes|
      && ct.racks[i].nodes[k].pool in ct.nodePools && g < ct.nodePools[ct.racks[i].nodes[k].pool].gpuCount
      ensures IsComplete(ct, after, i, k, g)
    {
      GpuIsComplete(ct, load, before, after, want, i, k, g);
    }
  }
}
