/** Publishing a node: the counters of its GPUs, and their partitions spread over slices. */
module Publishing {
  import opened Options
  import opened Names
  import opened Profiles
  import opened Partitions
  import opened Counters
  import opened Resolve
  import opened Resources

  // ---------------------------------------------------------------- chunks

  function Chunks<T>(s: seq<T>, size: nat): seq<seq<T>>
    requires size > 0
  {
    if s == [] then []
    else if |s| <= size then [s]
    else [s[..size]] + Chunks(s[size..], size)
  }

  function Flatten<T>(ss: seq<seq<T>>): seq<T> {
    if ss == [] then [] else ss[0] + Flatten(ss[1..])
  }

  method ChunkDevices<T>(devices: seq<T>, size: nat) returns (chunks: seq<seq<T>>)
    requires size > 0
    ensures chunks == Chunks(devices, size)
  {
    chunks := [];
    var start := 0;
    while start < |devices|
      invariant 0 <= start
      invariant chunks + (if start < |devices| then Chunks(devices[start..], size) else []) == Chunks(devices, size)
      decreases |devices| - start
    {
      var end := start + size;
      if end > |devices| {
        end := |devices|;
      }
      ghost var rest := devices[start..];
      assert rest[..end - start] == devices[start..end];
      assert start + size < |devices| ==> rest[size..] == devices[start + size..];
      if |rest| <= size {
        assert devices[start..end] == rest;
      } else {
        ghost var more := Chunks(rest[size..], size);
        assert chunks + ([rest[..size]] + more) == chunks + [rest[..size]] + more;
      }
      chunks := chunks + [devices[start..end]];
      start := start + size;
    }
  }

  /** Chunks concatenate back in order; each is non-empty and within the limit, and all but
      the last are full. */
  lemma {:induction false} ChunksExact<T>(s: seq<T>, size: nat)
    requires size > 0
    ensures var chunks := Chunks(s, size);
            && Flatten(chunks) == s
            && (forall c :: c in chunks ==> 0 < |c| <= size)
            && (forall i :: 0 <= i < |chunks| - 1 ==> |chunks[i]| == size)
    decreases |s|
  {
    if s == [] {
    } else if |s| <= size {
      assert Flatten([s]) == s + Flatten<T>([]);
    } else {
      ChunksExact(s[size..], size);
      var rest := Chunks(s[size..], size);
      assert rest != [];
      assert ([s[..size]] + rest)[1..] == rest;
      assert s == s[..size] + s[size..];
    }
  }

  // ---------------------------------------------------------------- devices

  function FabricAttributes(gpu: ResolvedGPU): map<string, string> {
    (if gpu.nvlinkDomain != "" then map[ATTR_NVLINK_DOMAIN := gpu.nvlinkDomain] else map[])
    + (if gpu.faultDomain != "" then map[ATTR_FAULT_DOMAIN := gpu.faultDomain] else map[])
  }

  function MigDevice(gpu: ResolvedGPU, p: Partition): Device {
    Device(
      p.deviceName,
      map[ATTR_TYPE := "mig", ATTR_PROFILE := p.profile.name] + FabricAttributes(gpu),
      [CounterConsumption(CounterSetName(gpu.index), Consumption(p))],
      [])
  }

  method BuildConsumption(p: Partition) returns (counters: map<string, nat>)
    ensures counters == Consumption(p)
  {
    var slices := ListMemorySlices(p);
    counters := map[];
    ghost var done: set<nat> := {};
    for k := 0 to |slices|
      invariant counters == PositionCounters(done)
      invariant forall i: nat :: i in done <==> p.start <= i < p.start + k
    {
      counters := counters[MemoryCounter(slices[k]) := 1];
      PositionCountersAdd(done, slices[k]);
      done := done + {slices[k]};
    }
    assert forall i: nat :: i in SlotSet(p) <==> Covers(p, i);
    assert done == SlotSet(p);
    counters := counters[SM_COUNTER := p.profile.smSlices];
  }

  method BuildDevice(gpu: ResolvedGPU, p: Partition) returns (device: Device)
    ensures device == MigDevice(gpu, p)
  {
    var attrs := map[ATTR_TYPE := "mig", ATTR_PROFILE := p.profile.name];
    if gpu.nvlinkDomain != "" {
      attrs := attrs[ATTR_NVLINK_DOMAIN := gpu.nvlinkDomain];
    }
    if gpu.faultDomain != "" {
      attrs := attrs[ATTR_FAULT_DOMAIN := gpu.faultDomain];
    }
    var counters := BuildConsumption(p);
    device := Device(p.deviceName, attrs, [CounterConsumption(CounterSetName(gpu.index), counters)], []);
  }

  function CounterSetOf(g: Geometry, gpu: ResolvedGPU): CounterSet {
    CounterSet(CounterSetName(gpu.index), Capacity(g))
  }

  method BuildCounterSet(g: Geometry, gpu: ResolvedGPU) returns (set_: CounterSet)
    ensures set_ == CounterSetOf(g, gpu)
  {
    var counters: map<string, nat> := map[];
    ghost var done: set<nat> := {};
    for i := 0 to g.memorySlices
      invariant counters == PositionCounters(done)
      invariant forall k: nat :: k in done <==> k < i
    {
      counters := counters[MemoryCounter(i) := 1];
      PositionCountersAdd(done, i);
      done := done + {i};
    }
    assert forall k: nat :: k in Positions(g) <==> IsPosition(g, k);
    assert done == Positions(g);
    counters := counters[SM_COUNTER := g.smSlices];
    set_ := CounterSet(CounterSetName(gpu.index), counters);
  }

  function GpuDevices(gpu: ResolvedGPU): seq<Device> {
    seq(|gpu.partitions|, i requires 0 <= i < |gpu.partitions| => MigDevice(gpu, gpu.partitions[i]))
  }

  function NodeDevices(gpus: seq<ResolvedGPU>): seq<Device> {
    if gpus == [] then [] else NodeDevices(gpus[..|gpus| - 1]) + GpuDevices(gpus[|gpus| - 1])
  }

  function CounterSets(g: Geometry, gpus: seq<ResolvedGPU>): seq<CounterSet> {
    seq(|gpus|, i requires 0 <= i < |gpus| => CounterSetOf(g, gpus[i]))
  }

  // ---------------------------------------------------------------- slices

  function SliceLabels(rn: ResolvedNode, topologyName: string): map<string, string> {
    map[LABEL_RACK := rn.rack, LABEL_MANAGED_BY := MANAGED_BY, LABEL_TOPOLOGY := topologyName]
  }

  function NewSlice(rn: ResolvedNode, topologyName: string, kind: SliceKind, total: nat, sets: seq<CounterSet>,
      devices: seq<Device>): ResourceSlice {
    ResourceSlice(SliceName(rn.name, kind), SliceLabels(rn, topologyName), Some(rn.name), total, sets, devices)
  }

  /** One slice of shared counters, then the partitions, at most 64 to a slice. */
  function MigSlices(rn: ResolvedNode, topologyName: string): seq<ResourceSlice>
    requires rn.mig.Some?
  {
    var chunks := Chunks(NodeDevices(rn.gpus), MAX_DEVICES_PER_SLICE);
    var total := 1 + |chunks|;
    [NewSlice(rn, topologyName, Counters, total, CounterSets(rn.mig.value.geometry, rn.gpus), [])]
    + seq(|chunks|, i requires 0 <= i < |chunks| => NewSlice(rn, topologyName, Part(i), total, [], chunks[i]))
  }

  method BuildDevices(gpu: ResolvedGPU) returns (devices: seq<Device>)
    ensures devices == GpuDevices(gpu)
  {
    devices := [];
    for k := 0 to |gpu.partitions|
      invariant devices == GpuDevices(gpu)[..k]
    {
      var device := BuildDevice(gpu, gpu.partitions[k]);
      devices := devices + [device];
    }
  }

  method PublishMig(rn: ResolvedNode, topologyName: string) returns (slices: seq<ResourceSlice>)
    requires rn.mig.Some?
    ensures slices == MigSlices(rn, topologyName)
  {
    var devices: seq<Device> := [];
    var sets: seq<CounterSet> := [];
    for i := 0 to |rn.gpus|
      invariant devices == NodeDevices(rn.gpus[..i])
      invariant sets == CounterSets(rn.mig.value.geometry, rn.gpus)[..i]
    {
      var gpu := rn.gpus[i];
      var set_ := BuildCounterSet(rn.mig.value.geometry, gpu);
      sets := sets + [set_];
      var partitions := BuildDevices(gpu);
      devices := devices + partitions;
      assert rn.gpus[..i + 1][..i] == rn.gpus[..i];
    }
    assert rn.gpus[..|rn.gpus|] == rn.gpus;
    assert sets == CounterSets(rn.mig.value.geometry, rn.gpus);
    var chunks := ChunkDevices(devices, MAX_DEVICES_PER_SLICE);
    var total := 1 + |chunks|;
    slices := [NewSlice(rn, topologyName, Counters, total, sets, [])];
    assert slices == MigSlices(rn, topologyName)[..1];
    for i := 0 to |chunks|
      invariant slices == MigSlices(rn, topologyName)[..i + 1]
    {
      slices := slices + [NewSlice(rn, topologyName, Part(i), total, [], chunks[i])];
    }
  }

  lemma {:induction false} DeviceCount(g: Geometry, profiles: seq<Profile>, gpus: seq<ResolvedGPU>)
    requires AllPositive(profiles)
    requires forall i :: 0 <= i < |gpus| ==> gpus[i].partitions == PartitionsFor(g, profiles, gpus[i].index)
    ensures |NodeDevices(gpus)| == |gpus| * TotalPartitions(g, profiles)
  {
    if gpus != [] {
      DeviceCount(g, profiles, gpus[..|gpus| - 1]);
      PartitionsForExact(g, profiles, gpus[|gpus| - 1].index, At(Profile("", 1, 1), 0, 0));
      assert |gpus| * TotalPartitions(g, profiles) ==
             (|gpus| - 1) * TotalPartitions(g, profiles) + TotalPartitions(g, profiles);
    }
  }

  function DevicesIn(slices: seq<ResourceSlice>): seq<Device> {
    if slices == [] then [] else slices[0].devices + DevicesIn(slices[1..])
  }

  lemma {:induction false} DevicesInChunks(slices: seq<ResourceSlice>, chunks: seq<seq<Device>>)
    requires |slices| == |chunks| && forall i :: 0 <= i < |slices| ==> slices[i].devices == chunks[i]
    ensures DevicesIn(slices) == Flatten(chunks)
  {
    if slices != [] {
      DevicesInChunks(slices[1..], chunks[1..]);
    }
  }

  /** Read in order, the slices carry exactly the node's devices. */
  lemma {:induction false} PublishedDevices(rn: ResolvedNode, topologyName: string)
    requires rn.mig.Some?
    ensures DevicesIn(MigSlices(rn, topologyName)) == NodeDevices(rn.gpus)
  {
    var slices := MigSlices(rn, topologyName);
    var chunks := Chunks(NodeDevices(rn.gpus), MAX_DEVICES_PER_SLICE);
    ChunksExact(NodeDevices(rn.gpus), MAX_DEVICES_PER_SLICE);
    DevicesInChunks(slices[1..], chunks);
    assert slices[0].devices + Flatten(chunks) == Flatten(chunks);
  }

  /** The kind of slice at each place of a node's list. */
  function KindAt(i: nat): SliceKind {
    if i == 0 then Counters else Part(i - 1)
  }

  lemma {:induction false} SliceAt(rn: ResolvedNode, topologyName: string, i: nat)
    requires rn.mig.Some? && i < |MigSlices(rn, topologyName)|
    ensures var slices := MigSlices(rn, topologyName);
            && slices[i].name == SliceName(rn.name, KindAt(i))
            && (slices[i].sharedCounters == [] || slices[i].devices == [])
            && slices[i].sliceCount == |slices| && slices[i].nodeName == Some(rn.name)
              && ManagedLabels(slices[i].labels)
            && |slices[i].devices| <= 64
            && (i > 0 ==> |slices[i].devices| > 0)
            && (0 < i < |slices| - 1 ==> |slices[i].devices| == 64)
  {
    var chunks := Chunks(NodeDevices(rn.gpus), MAX_DEVICES_PER_SLICE);
    ChunksExact(NodeDevices(rn.gpus), MAX_DEVICES_PER_SLICE);
    if i > 0 {
      assert chunks[i - 1] in chunks;
    }
  }

  lemma {:induction false} SliceNamesDiffer(rn: ResolvedNode, topologyName: string, i: nat, j: nat)
    requires rn.mig.Some? && i < j < |MigSlices(rn, topologyName)|
    ensures MigSlices(rn, topologyName)[i].name != MigSlices(rn, topologyName)[j].name
  {
    SliceAt(rn, topologyName, i);
    SliceAt(rn, topologyName, j);
    if MigSlices(rn, topologyName)[i].name == MigSlices(rn, topologyName)[j].name {
      SliceNameInjective(rn.name, KindAt(i), rn.name, KindAt(j));
    }
  }

  ghost predicate WithinBudget(slices: seq<ResourceSlice>, node: string) {
    && (forall i :: 0 <= i < |slices| ==>
          && (slices[i].sharedCounters == [] || slices[i].devices == [])
          && |slices[i].devices| <= 64
          && slices[i].sliceCount == |slices| && slices[i].nodeName == Some(node) && ManagedLabels(slices[i].labels))
    && (forall i :: 1 <= i < |slices| ==> |slices[i].devices| > 0)
    && (forall i :: 1 <= i < |slices| - 1 ==> |slices[i].devices| == 64)
    && (forall i, j :: 0 <= i < j < |slices| ==> slices[i].name != slices[j].name)
  }

  /** The budget of a node with any number of GPUs: no slice mixes counters with devices or
      holds more than 64 devices, device slices are full but for the last, every slice declares
      the number emitted, no name is used twice, and together they hold one device for each
      GPU and partition. */
  lemma {:induction false} SliceBudget(rn: ResolvedNode, topologyName: string)
    requires rn.mig.Some? && AllPositive(rn.mig.value.profiles)
    requires forall i :: 0 <= i < |rn.gpus| ==>
               rn.gpus[i].partitions == PartitionsFor(rn.mig.value.geometry, rn.mig.value.profiles, rn.gpus[i].index)
    ensures WithinBudget(MigSlices(rn, topologyName), rn.name)
    ensures |DevicesIn(MigSlices(rn, topologyName))| ==
            |rn.gpus| * TotalPartitions(rn.mig.value.geometry, rn.mig.value.profiles)
  {
    var slices := MigSlices(rn, topologyName);
    forall i | 0 <= i < |slices| {
      SliceAt(rn, topologyName, i);
    }
    forall i, j | 0 <= i < j < |slices| {
      SliceNamesDiffer(rn, topologyName, i, j);
    }
    PublishedDevices(rn, topologyName);
    DeviceCount(rn.mig.value.geometry, rn.mig.value.profiles, rn.gpus);
  }
}
