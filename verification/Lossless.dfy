/** Publishing a node and reading it back gives the report of what it holds. */
module Lossless {
  import opened Options
  import opened Names
  import opened Profiles
  import opened Partitions
  import opened Fragmentation
  import opened Occupancy
  import opened Counters
  import opened Runs
  import opened Resolve
  import opened Resources
  import opened Publishing
  import opened Decoding
  import opened Sorting

  // ---------------------------------------------------------------- counters read back

  lemma {:induction false} SlotBagAdd(counters: set<string>, name: string)
    requires name !in counters
    ensures SlotBag(counters + {name}) == SlotBag(counters) + SlotOf(name)
  {
    SlotBagPick(counters + {name}, name);
    assert counters + {name} - {name} == counters;
  }

  lemma {:induction false} SlotOfMemory(i: nat)
    requires i <= MAX_INT
    ensures SlotOf(MemoryCounter(i)) == multiset{i} && MemoryCounter(i) != SM_COUNTER
  {
    SmCounterIsNotMemory(i);
    MemoryCounterRoundTrip(i);
  }

  function Span(start: nat, size: nat): Partition {
    Partition(Profile("", size, 0), 0, start, "")
  }

  lemma {:induction false} SpanGrows(start: nat, size: nat)
    ensures SlotSet(Span(start, size + 1)) == SlotSet(Span(start, size)) + {start + size}
    ensures MemorySlices(Span(start, size + 1)) == MemorySlices(Span(start, size)) + [start + size]
  {
    var p, q := Span(start, size + 1), Span(start, size);
    forall i: int
      ensures i in SlotSet(p) <==> i in SlotSet(q) || i == start + size
    {
      assert (i in SlotSet(p) <==> Covers(p, i)) && (i in SlotSet(q) <==> Covers(q, i));
    }
  }

  lemma {:induction false} CounterIsNew(positions: set<nat>, i: nat)
    requires i !in positions
    ensures MemoryCounter(i) !in PositionCounters(positions)
  {
    forall j: nat | j in positions
      ensures MemoryCounter(j) != MemoryCounter(i)
    {
      if MemoryCounter(j) == MemoryCounter(i) {
        MemoryCounterInjective(j, i);
      }
    }
  }

  /** The counters of a run of positions are read back as the run. */
  lemma {:induction false} RangeReadsBack(start: nat, size: nat)
    requires start + size <= MAX_INT
    ensures SlotBag(PositionCounters(SlotSet(Span(start, size))).Keys) == multiset(MemorySlices(Span(start, size)))
  {
    if size == 0 {
      SlotSetSize(Span(start, 0));
      assert SlotSet(Span(start, 0)) == {};
    } else {
      var last := start + size - 1;
      RangeReadsBack(start, size - 1);
      SpanGrows(start, size - 1);
      var smaller := SlotSet(Span(start, size - 1));
      assert last !in smaller by {
        assert !Covers(Span(start, size - 1), last);
      }
      PositionCountersAdd(smaller, last);
      CounterIsNew(smaller, last);
      SlotOfMemory(last);
      assert PositionCounters(smaller + {last}).Keys == PositionCounters(smaller).Keys + {MemoryCounter(last)};
      SlotBagAdd(PositionCounters(smaller).Keys, MemoryCounter(last));
    }
  }

  lemma {:induction false} WithPoolReadsBack(counters: map<string, nat>, sm: nat)
    requires SM_COUNTER !in counters
    ensures SlotBag(counters[SM_COUNTER := sm].Keys) == SlotBag(counters.Keys)
    ensures Amount(counters[SM_COUNTER := sm], SM_COUNTER) == sm
  {
    assert counters[SM_COUNTER := sm].Keys == counters.Keys + {SM_COUNTER};
    SlotBagAdd(counters.Keys, SM_COUNTER);
  }

  lemma {:induction false} PoolIsNoPosition(positions: set<nat>)
    ensures SM_COUNTER !in PositionCounters(positions)
  {
    forall i: nat
      ensures MemoryCounter(i) != SM_COUNTER
    {
      SmCounterIsNotMemory(i);
    }
  }

  lemma {:induction false} ConsumptionReadsBack(p: Partition)
    requires p.start + p.profile.memorySlices <= MAX_INT
    ensures SlotBag(Consumption(p).Keys) == multiset(MemorySlices(p))
    ensures Amount(Consumption(p), SM_COUNTER) == p.profile.smSlices
  {
    var q := Span(p.start, p.profile.memorySlices);
    RangeReadsBack(p.start, p.profile.memorySlices);
    assert SlotSet(p) == SlotSet(q) by {
      assert forall i: int :: i in SlotSet(p) <==> Covers(p, i);
      assert forall i: int :: i in SlotSet(q) <==> Covers(q, i);
    }
    assert MemorySlices(p) == MemorySlices(q);
    PoolIsNoPosition(SlotSet(p));
    WithPoolReadsBack(PositionCounters(SlotSet(p)), p.profile.smSlices);
  }

  /** What a partition is read back as. */
  function PublishedOf(p: Partition): PublishedPartition {
    PublishedPartition(p.deviceName, p.profile, MemorySlices(p))
  }

  /** A partition's device is read back as the partition it was. */
  lemma {:induction false} DeviceReadsBack(gpu: ResolvedGPU, p: Partition)
    requires p.start + p.profile.memorySlices <= MAX_INT && gpu.index <= MAX_INT
    ensures IndexOf(MigDevice(gpu, p)) == Some(gpu.index)
    ensures PublishedAs(MigDevice(gpu, p)) == PublishedOf(p)
  {
    CounterSetRoundTrip(gpu.index);
    ConsumptionReadsBack(p);
    SortedBagUnique(MemorySlices(p));
    assert |multiset(MemorySlices(p))| == p.profile.memorySlices;
    assert MigDevice(gpu, p).attributes[ATTR_PROFILE] == p.profile.name;
  }

  /** A GPU's counter set is read back as its capacity. */
  lemma {:induction false} CounterSetReadsBack(g: Geometry, gpu: ResolvedGPU)
    requires g.memorySlices <= MAX_INT && gpu.index <= MAX_INT
    ensures GpuIndexFromCounterSet(CounterSetOf(g, gpu).name) == Some(gpu.index)
    ensures GeometryOf(CounterSetOf(g, gpu)) == Geometry(g.memorySlices, g.smSlices, [])
  {
    CounterSetRoundTrip(gpu.index);
    var whole := Span(0, g.memorySlices);
    RangeReadsBack(0, g.memorySlices);
    assert Positions(g) == SlotSet(whole) by {
      assert forall i: int :: i in SlotSet(whole) <==> Covers(whole, i);
      assert forall i: nat :: i in Positions(g) <==> IsPosition(g, i);
    }
    PoolIsNoPosition(Positions(g));
    WithPoolReadsBack(PositionCounters(Positions(g)), g.smSlices);
    assert |multiset(MemorySlices(whole))| == g.memorySlices;
  }

  // ---------------------------------------------------------------- devices read back

  ghost function Readings(devices: seq<Device>): seq<Reading> {
    seq(|devices|, k requires 0 <= k < |devices| => ReadingOf(devices[k]))
  }

  ghost function ReadFor(rs: seq<Reading>, i: int): seq<PublishedPartition> {
    if rs == [] then []
    else
      var front, last := ReadFor(rs[..|rs| - 1], i), rs[|rs| - 1];
      if last.Reading? && last.gpuIndex == i then front + [last.partition] else front
  }

  /** What a sequence of devices publishes for one GPU. */
  ghost function PublishedFor(devices: seq<Device>, i: int): seq<PublishedPartition> {
    ReadFor(Readings(devices), i)
  }

  lemma {:induction false} OneMoreReading(m: map<int, seq<PublishedPartition>>, r: Reading, i: int)
    ensures OnGpu(AddReading(m, r), i) == if r.Reading?
            && r.gpuIndex == i then OnGpu(m, i) + [r.partition] else OnGpu(m, i)
  {
  }

  ghost function AddReadings(m: map<int, seq<PublishedPartition>>,
      rs: seq<Reading>): map<int, seq<PublishedPartition>> {
    if rs == [] then m else AddReading(AddReadings(m, rs[..|rs| - 1]), rs[|rs| - 1])
  }

  lemma {:induction false} DevicesAreReadings(m: map<int, seq<PublishedPartition>>, devices: seq<Device>)
    ensures AddDevices(m, devices) == AddReadings(m, Readings(devices))
  {
    if devices != [] {
      var front := devices[..|devices| - 1];
      DevicesAreReadings(m, front);
      assert Readings(devices)[..|front|] == Readings(front);
    }
  }

  lemma {:induction false} AddedReadings(m: map<int, seq<PublishedPartition>>, rs: seq<Reading>, i: int)
    ensures OnGpu(AddReadings(m, rs), i) == OnGpu(m, i) + ReadFor(rs, i)
  {
    if rs != [] {
      AddedReadings(m, rs[..|rs| - 1], i);
      OneMoreReading(AddReadings(m, rs[..|rs| - 1]), rs[|rs| - 1], i);
    }
  }

  lemma {:induction false} AddedDevices(m: map<int, seq<PublishedPartition>>, devices: seq<Device>, i: int)
    ensures OnGpu(AddDevices(m, devices), i) == OnGpu(m, i) + PublishedFor(devices, i)
  {
    DevicesAreReadings(m, devices);
    AddedReadings(m, Readings(devices), i);
  }

  lemma {:induction false} ReadForConcat(a: seq<Reading>, b: seq<Reading>, i: int)
    ensures ReadFor(a + b, i) == ReadFor(a, i) + ReadFor(b, i)
  {
    if b == [] {
      assert a + b == a;
    } else {
      assert (a + b)[..|a + b| - 1] == a + b[..|b| - 1];
      ReadForConcat(a, b[..|b| - 1], i);
    }
  }

  lemma {:induction false} PublishedConcat(a: seq<Device>, b: seq<Device>, i: int)
    ensures PublishedFor(a + b, i) == PublishedFor(a, i) + PublishedFor(b, i)
  {
    assert Readings(a + b) == Readings(a) + Readings(b);
    ReadForConcat(Readings(a), Readings(b), i);
  }

  lemma {:induction false} JoinRegroups(s: State, t: State, u: State)
    ensures Join(Join(s, t), u) == Join(s, Join(t, u))
  {
  }

  lemma {:induction false} UsedConcat(a: seq<PublishedPartition>, b: seq<PublishedPartition>, held: set<string>)
    ensures UsedBy(a + b, held) == Join(UsedBy(a, held), UsedBy(b, held))
  {
    if b == [] {
      assert a + b == a;
    } else {
      assert (a + b)[..|a + b| - 1] == a + b[..|b| - 1];
      UsedConcat(a, b[..|b| - 1], held);
      JoinRegroups(UsedBy(a, held), UsedBy(b[..|b| - 1], held), Contribution(b[|b| - 1], held));
    }
  }

  /** What one sequence of devices contributes to the state of a GPU. */
  ghost function Share(devices: seq<Device>, i: int, held: set<string>): State {
    UsedBy(PublishedFor(devices, i), held)
  }

  lemma {:induction false} ShareConcat(a: seq<Device>, b: seq<Device>, i: int, held: set<string>)
    ensures Share(a + b, i, held) == Join(Share(a, i, held), Share(b, i, held))
  {
    PublishedConcat(a, b, i);
    UsedConcat(PublishedFor(a, i), PublishedFor(b, i), held);
  }

  /** The state the slices describe for one GPU, slice by slice. */
  ghost function UsedIn(slices: seq<ResourceSlice>, i: int, held: set<string>): State {
    if slices == [] then IDLE else Join(Share(slices[0].devices, i, held), UsedIn(slices[1..], i, held))
  }

  lemma {:induction false} UsedInIs(slices: seq<ResourceSlice>, i: int, held: set<string>)
    ensures UsedIn(slices, i, held) == Share(DevicesIn(slices), i, held)
  {
    if slices != [] {
      UsedInIs(slices[1..], i, held);
      ShareConcat(slices[0].devices, DevicesIn(slices[1..]), i, held);
    }
  }

  lemma {:induction false} JoinSwaps(s: State, t: State, u: State)
    ensures Join(s, Join(t, u)) == Join(t, Join(s, u))
    ensures Join(IDLE, s) == s && Join(s, IDLE) == s
  {
  }

  /** Taking one slice out takes its share of the state out. */
  lemma {:induction false} UsedInWithout(slices: seq<ResourceSlice>, k: nat, i: int, held: set<string>)
    requires k < |slices|
    ensures UsedIn(slices, i, held) ==
            Join(Share(slices[k].devices, i, held), UsedIn(slices[..k] + slices[k + 1..], i, held))
  {
    if k == 0 {
      assert slices[..0] + slices[1..] == slices[1..];
    } else {
      UsedInWithout(slices[1..], k - 1, i, held);
      var rest := slices[..k] + slices[k + 1..];
      var others := slices[1..][..k - 1] + slices[1..][k..];
      assert rest[1..] == others && rest[0] == slices[0];
      JoinSwaps(Share(slices[0].devices, i, held), Share(slices[k].devices, i, held), UsedIn(others, i, held));
    }
  }

  /** The state does not depend on the order in which slices are listed. */
  lemma {:induction false} UsedInAnyOrder(a: seq<ResourceSlice>, b: seq<ResourceSlice>, i: int, held: set<string>)
    requires multiset(a) == multiset(b)
    ensures UsedIn(a, i, held) == UsedIn(b, i, held)
  {
    if a == [] {
      assert |multiset(b)| == |b| && |multiset(a)| == 0;
      assert b == [];
    } else {
      InSameBag(a, b, a[0]);
      var k :| 0 <= k < |b| && b[k] == a[0];
      var rest := b[..k] + b[k + 1..];
      BagTail(a);
      assert b == b[..k] + [b[k]] + b[k + 1..];
      assert multiset(rest) == multiset(b) - multiset{b[k]};
      UsedInAnyOrder(a[1..], rest, i, held);
      UsedInWithout(b, k, i, held);
    }
  }

  lemma {:induction false} DeviceInSlices(slices: seq<ResourceSlice>, d: Device)
    ensures d in DevicesIn(slices) <==> exists s :: s in slices && d in s.devices
  {
    if slices != [] {
      DeviceInSlices(slices[1..], d);
      assert slices == [slices[0]] + slices[1..];
    }
  }

  lemma {:induction false} DevicesInAnyOrder(a: seq<ResourceSlice>, b: seq<ResourceSlice>, d: Device)
    requires multiset(a) == multiset(b)
    ensures d in DevicesIn(a) <==> d in DevicesIn(b)
  {
    DeviceInSlices(a, d);
    DeviceInSlices(b, d);
    forall s
      ensures s in a <==> s in b
    {
      InSameBag(a, b, s);
    }
  }

  // ---------------------------------------------------------------- a published node

  /** A node as the expansion leaves it, with indexes and positions within Go's integers. */
  ghost predicate WellFormed(rn: ResolvedNode) {
    && rn.mig.Some?
    && WellShaped(rn.mig.value.geometry, rn.mig.value.profiles)
    && rn.mig.value.geometry.memorySlices <= MAX_INT && |rn.gpus| <= MAX_INT
    && forall i :: 0 <= i < |rn.gpus| ==>
         && rn.gpus[i].index == i
         && rn.gpus[i].partitions == PartitionsFor(rn.mig.value.geometry, rn.mig.value.profiles, i)
  }

  function HeldOf(ps: seq<Partition>, held: set<string>): seq<Partition> {
    if ps == [] then []
    else HeldOf(ps[..|ps| - 1], held) + if ps[|ps| - 1].deviceName in held then [ps[|ps| - 1]] else []
  }

  /** The device d stands for partition p of GPU i. */
  ghost predicate StandsFor(d: Device, i: int, p: Partition) {
    IndexOf(d) == Some(i) && PublishedAs(d) == PublishedOf(p)
  }

  lemma {:induction false} GpuReadsBack(rn: ResolvedNode, i: nat, k: nat)
    requires WellFormed(rn) && i < |rn.gpus| && k < |rn.gpus[i].partitions|
    ensures StandsFor(MigDevice(rn.gpus[i], rn.gpus[i].partitions[k]), i, rn.gpus[i].partitions[k])
  {
    var p := rn.gpus[i].partitions[k];
    assert p in rn.gpus[i].partitions;
    PartitionsForExact(rn.mig.value.geometry, rn.mig.value.profiles, i, p);
    DeviceReadsBack(rn.gpus[i], p);
  }

  function JoinAll(shares: seq<State>): State {
    if shares == [] then IDLE else Join(JoinAll(shares[..|shares| - 1]), shares[|shares| - 1])
  }

  /** What one partition adds to the state of its GPU. */
  function PartShare(p: Partition, held: set<string>): State {
    if p.deviceName in held then State(SlotSet(p), p.profile.smSlices) else IDLE
  }

  lemma {:induction false} UsedByIs(published: seq<PublishedPartition>, held: set<string>, shares: seq<State>)
    requires |shares| == |published| && forall k :: 0 <= k < |published| ==>
             shares[k] == Contribution(published[k], held)
    ensures UsedBy(published, held) == JoinAll(shares)
  {
    if published != [] {
      UsedByIs(published[..|published| - 1], held, shares[..|shares| - 1]);
    }
  }

  lemma {:induction false} StateSnoc(ps: seq<Partition>, p: Partition)
    ensures StateFrom(ps + [p]) == Join(StateFrom(ps), State(SlotSet(p), p.profile.smSlices))
  {
    assert (ps + [p])[..|ps|] == ps;
  }

  lemma {:induction false} HeldLast(ps: seq<Partition>, held: set<string>)
    requires ps != []
    ensures StateFrom(HeldOf(ps, held)) == Join(StateFrom(HeldOf(ps[..|ps| - 1], held)), PartShare(ps[|ps| - 1], held))
  {
    var front, last := HeldOf(ps[..|ps| - 1], held), ps[|ps| - 1];
    if last.deviceName in held {
      StateSnoc(front, last);
    } else {
      assert front + [] == front;
      JoinSwaps(StateFrom(front), IDLE, IDLE);
    }
  }

  lemma {:induction false} HeldIs(ps: seq<Partition>, held: set<string>, shares: seq<State>)
    requires |shares| == |ps| && forall k :: 0 <= k < |ps| ==> shares[k] == PartShare(ps[k], held)
    ensures StateFrom(HeldOf(ps, held)) == JoinAll(shares)
  {
    if ps != [] {
      var front, last := ps[..|ps| - 1], ps[|ps| - 1];
      assert shares[|shares| - 1] == PartShare(last, held);
      HeldIs(front, held, shares[..|shares| - 1]);
      HeldLast(ps, held);
    }
  }

  lemma {:induction false} ContributionIs(p: Partition, held: set<string>)
    ensures Contribution(PublishedOf(p), held) == PartShare(p, held)
  {
    SlotSetSize(p);
    assert (set i: int | i in MemorySlices(p)) == SlotSet(p);
  }

  /** What a list of partitions is published as. */
  function AsPublished(ps: seq<Partition>): seq<PublishedPartition> {
    seq(|ps|, k requires 0 <= k < |ps| => PublishedOf(ps[k]))
  }

  lemma {:induction false} UsedByPublished(ps: seq<Partition>, held: set<string>)
    ensures UsedBy(AsPublished(ps), held) == StateFrom(HeldOf(ps, held))
  {
    var shares := seq(|ps|, k requires 0 <= k < |ps| => PartShare(ps[k], held));
    forall k | 0 <= k < |ps|
      ensures shares[k] == Contribution(AsPublished(ps)[k], held)
    {
      ContributionIs(ps[k], held);
    }
    UsedByIs(AsPublished(ps), held, shares);
    HeldIs(ps, held, shares);
  }

  /** Readings that are those of a list of partitions give back the list. */
  lemma {:induction false} OwnReadings(rs: seq<Reading>, i: int, ps: seq<Partition>)
    requires |rs| == |ps|
    requires forall k :: 0 <= k < |rs| ==> rs[k] == Reading(i, PublishedOf(ps[k]))
    ensures ReadFor(rs, i) == AsPublished(ps)
  {
    if rs != [] {
      OwnReadings(rs[..|rs| - 1], i, ps[..|ps| - 1]);
    }
  }

  lemma {:induction false} ForeignReadings(rs: seq<Reading>, i: int)
    requires forall k :: 0 <= k < |rs| ==> rs[k].Reading? ==> rs[k].gpuIndex != i
    ensures ReadFor(rs, i) == []
  {
    if rs != [] {
      ForeignReadings(rs[..|rs| - 1], i);
    }
  }

  /** A GPU's devices are read back as its partitions, in order, and as nothing of any other GPU. */
  lemma {:induction false} GpuPublished(rn: ResolvedNode, j: nat, i: int)
    requires WellFormed(rn) && j < |rn.gpus|
    ensures PublishedFor(GpuDevices(rn.gpus[j]), i) == if i == j then AsPublished(rn.gpus[j].partitions) else []
  {
    var gpu := rn.gpus[j];
    var rs := Readings(GpuDevices(gpu));
    forall k | 0 <= k < |gpu.partitions|
      ensures rs[k] == Reading(j, PublishedOf(gpu.partitions[k]))
    {
      GpuReadsBack(rn, j, k);
    }
    if i == j {
      OwnReadings(rs, j, gpu.partitions);
    } else {
      ForeignReadings(rs, i);
    }
  }

  lemma {:induction false} WholeGpu(rn: ResolvedNode, j: nat, i: int, held: set<string>)
    requires WellFormed(rn) && j < |rn.gpus|
    ensures Share(GpuDevices(rn.gpus[j]), i, held) == if i ==
            j then StateFrom(HeldOf(rn.gpus[j].partitions, held)) else IDLE
  {
    GpuPublished(rn, j, i);
    UsedByPublished(rn.gpus[j].partitions, held);
  }

  lemma {:induction false} NodeShares(gpus: seq<ResolvedGPU>, i: int, held: set<string>, shares: seq<State>)
    requires |shares| == |gpus| && forall j :: 0 <= j < |gpus| ==> shares[j] == Share(GpuDevices(gpus[j]), i, held)
    ensures Share(NodeDevices(gpus), i, held) == JoinAll(shares)
  {
    if gpus != [] {
      NodeShares(gpus[..|gpus| - 1], i, held, shares[..|shares| - 1]);
      ShareConcat(NodeDevices(gpus[..|gpus| - 1]), GpuDevices(gpus[|gpus| - 1]), i, held);
    }
  }

  /** Of all GPUs' devices, only those of GPU i bear on its state. */
  lemma {:induction false} JoinOfOne(shares: seq<State>, i: int, own: State)
    requires forall j :: 0 <= j < |shares| ==> shares[j] == if i == j then own else IDLE
    ensures JoinAll(shares) == if 0 <= i < |shares| then own else IDLE
  {
    if shares != [] {
      JoinOfOne(shares[..|shares| - 1], i, own);
      JoinSwaps(own, IDLE, IDLE);
    }
  }

  lemma {:induction false} OwnState(gpus: seq<ResolvedGPU>, i: nat, held: set<string>, own: State)
    requires i < |gpus|
    requires forall j :: 0 <= j < |gpus| ==> Share(GpuDevices(gpus[j]), i, held) == if i == j then own else IDLE
    ensures Share(NodeDevices(gpus), i, held) == own
  {
    var shares := seq(|gpus|, j requires 0 <= j < |gpus| => if i == j then own else IDLE);
    NodeShares(gpus, i, held, shares);
    JoinOfOne(shares, i, own);
  }

  /** Reading the slices in any order recovers the state of every GPU. */
  lemma {:induction false} StateReadsBack(rn: ResolvedNode, topologyName: string, order: seq<ResourceSlice>, i: nat,
      held: set<string>)
    requires WellFormed(rn) && i < |rn.gpus| && multiset(order) == multiset(MigSlices(rn, topologyName))
    ensures Share(DevicesIn(order), i, held) == StateFrom(HeldOf(rn.gpus[i].partitions, held))
  {
    UsedInIs(order, i, held);
    UsedInIs(MigSlices(rn, topologyName), i, held);
    UsedInAnyOrder(order, MigSlices(rn, topologyName), i, held);
    PublishedDevices(rn, topologyName);
    forall j | 0 <= j < |rn.gpus|
      ensures Share(GpuDevices(rn.gpus[j]), i, held) == if i ==
              j then StateFrom(HeldOf(rn.gpus[i].partitions, held)) else IDLE
    {
      WholeGpu(rn, j, i, held);
    }
    OwnState(rn.gpus, i, held, StateFrom(HeldOf(rn.gpus[i].partitions, held)));
  }

  // ---------------------------------------------------------------- profiles read back

  lemma {:induction false} InNodeDevices(gpus: seq<ResolvedGPU>, d: Device)
    ensures d in NodeDevices(gpus) <==> exists i :: 0 <= i < |gpus| && d in GpuDevices(gpus[i])
  {
    if gpus != [] {
      var front := gpus[..|gpus| - 1];
      InNodeDevices(front, d);
      assert forall i :: 0 <= i < |front| ==> front[i] == gpus[i];
    }
  }

  lemma {:induction false} NodeDevice(gpus: seq<ResolvedGPU>, d: Device) returns (i: nat, k: nat)
    requires d in NodeDevices(gpus)
    ensures i < |gpus| && k < |gpus[i].partitions| && d == MigDevice(gpus[i], gpus[i].partitions[k])
  {
    InNodeDevices(gpus, d);
    i :| i < |gpus| && d in GpuDevices(gpus[i]);
    k :| k < |gpus[i].partitions| && GpuDevices(gpus[i])[k] == d;
  }

  lemma {:induction false} ReadForHas(rs: seq<Reading>, i: int, q: PublishedPartition)
    ensures q in ReadFor(rs, i) <==> Reading(i, q) in rs
  {
    if rs != [] {
      ReadForHas(rs[..|rs| - 1], i, q);
      assert rs == rs[..|rs| - 1] + [rs[|rs| - 1]];
    }
  }

  lemma {:induction false} PublishedForHas(devices: seq<Device>, i: int, q: PublishedPartition)
    ensures q in PublishedFor(devices, i) <==> exists d :: d in devices && IndexOf(d) == Some(i) && q == PublishedAs(d)
  {
    var rs := Readings(devices);
    ReadForHas(rs, i, q);
    if k :| 0 <= k < |rs| && rs[k] == Reading(i, q) {
      assert devices[k] in devices;
    }
    if d :| d in devices && IndexOf(d) == Some(i) && q == PublishedAs(d) {
      var k :| 0 <= k < |devices| && devices[k] == d;
      assert rs[k] == Reading(i, q);
    }
  }

  /** A device listed for GPU i is one of its partitions. */
  lemma {:induction false} ListedIsPartition(rn: ResolvedNode, topologyName: string, order: seq<ResourceSlice>,
      i: nat, d: Device) returns (p: Partition)
    requires WellFormed(rn) && i < |rn.gpus| && multiset(order) == multiset(MigSlices(rn, topologyName))
    requires d in DevicesIn(order) && IndexOf(d) == Some(i)
    ensures p in rn.gpus[i].partitions && PublishedAs(d) == PublishedOf(p)
  {
    PublishedDevices(rn, topologyName);
    DevicesInAnyOrder(order, MigSlices(rn, topologyName), d);
    var j, k := NodeDevice(rn.gpus, d);
    GpuReadsBack(rn, j, k);
    p := rn.gpus[j].partitions[k];
  }

  /** A partition of GPU i is listed for it. */
  lemma {:induction false} PartitionIsListed(rn: ResolvedNode, topologyName: string, order: seq<ResourceSlice>,
      i: nat, p: Partition) returns (d: Device)
    requires WellFormed(rn) && i < |rn.gpus| && multiset(order) == multiset(MigSlices(rn, topologyName))
    requires p in rn.gpus[i].partitions
    ensures d in DevicesIn(order) && IndexOf(d) == Some(i)
    ensures PublishedAs(d) == PublishedOf(p)
  {
    var k :| 0 <= k < |rn.gpus[i].partitions| && rn.gpus[i].partitions[k] == p;
    GpuReadsBack(rn, i, k);
    d := GpuDevices(rn.gpus[i])[k];
    InNodeDevices(rn.gpus, d);
    PublishedDevices(rn, topologyName);
    DevicesInAnyOrder(order, MigSlices(rn, topologyName), d);
  }

  /** What is published for a GPU, in any order of slices: its partitions, each under its name. */
  lemma {:induction false} PublishedReadsBack(rn: ResolvedNode, topologyName: string, order: seq<ResourceSlice>,
      i: nat, q: PublishedPartition)
    requires WellFormed(rn) && i < |rn.gpus| && multiset(order) == multiset(MigSlices(rn, topologyName))
    ensures q in PublishedFor(DevicesIn(order), i) <==>
              exists p :: p in rn.gpus[i].partitions && q == PublishedOf(p)
  {
    PublishedForHas(DevicesIn(order), i, q);
    if d :| d in DevicesIn(order) && IndexOf(d) == Some(i) && q == PublishedAs(d) {
      var p := ListedIsPartition(rn, topologyName, order, i, d);
    }
    if p :| p in rn.gpus[i].partitions && q == PublishedOf(p) {
      var d := PartitionIsListed(rn, topologyName, order, i, p);
    }
  }

  lemma {:induction false} LastNamedFound(published: seq<PublishedPartition>, q: PublishedPartition)
    requires q in published
    ensures LastNamed(published, q.profile.name).Some?
  {
    if published[|published| - 1].profile.name != q.profile.name {
      assert q in published[..|published| - 1];
      LastNamedFound(published[..|published| - 1], q);
    }
  }

  lemma {:induction false} SizesInOrder()
    ensures TotalPreorder(SizeLe)
  {
  }

  /** Profiles of different sizes do not tie, so the listing is the sorted selection. */
  lemma {:induction false} SelectionHasNoTies(g: Geometry, ps: seq<Profile>)
    requires WellShaped(g, ps)
    ensures NoTies(SizeLe, ps) && NoRepeats(ps)
  {
    forall p, q | p in ps && q in ps && SizeLe(p, q) && SizeLe(q, p)
      ensures p == q
    {
      var i :| 0 <= i < |ps| && ps[i] == p;
      var j :| 0 <= j < |ps| && ps[j] == q;
      assert i == j;
    }
    assert forall i, j :: 0 <= i < j < |ps| ==> ps[i] != ps[j];
    ListedOnce(ps);
  }

  lemma {:induction false} SameElementsSameBag<T>(a: seq<T>, b: seq<T>)
    requires NoRepeats(a) && NoRepeats(b) && forall x :: x in a <==> x in b
    ensures multiset(a) == multiset(b)
  {
    forall x
      ensures multiset(a)[x] == multiset(b)[x]
    {
      assert x in a <==> x in multiset(a);
      assert x in b <==> x in multiset(b);
    }
  }

  lemma {:induction false} ProfileIsPublished(rn: ResolvedNode, topologyName: string, order: seq<ResourceSlice>,
      i: nat, p: Profile)
    requires WellFormed(rn) && i < |rn.gpus| && multiset(order) == multiset(MigSlices(rn, topologyName))
    ensures p in rn.mig.value.profiles <==>
            p.name != "" && LastNamed(PublishedFor(DevicesIn(order), i), p.name) == Some(p)
  {
    var g, profiles := rn.mig.value.geometry, rn.mig.value.profiles;
    var published := PublishedFor(DevicesIn(order), i);
    if p in profiles {
      var part := Partitions.At(p, i, 0);
      PartitionsForExact(g, profiles, i, part);
      var q := PublishedOf(part);
      PublishedReadsBack(rn, topologyName, order, i, q);
      LastNamedFound(published, q);
    }
    if LastNamed(published, p.name).Some? {
      LastNamedIsPublished(published, p.name);
      var q :| q in published && q.profile == LastNamed(published, p.name).value && q.profile.name == p.name;
      PublishedReadsBack(rn, topologyName, order, i, q);
      var part :| part in rn.gpus[i].partitions && q == PublishedOf(part);
      PartitionsForExact(g, profiles, i, part);
      assert q.profile in profiles;
      if p in profiles {
        var a: nat :| a < |profiles| && profiles[a] == p;
        var b: nat :| b < |profiles| && profiles[b] == q.profile;
        SameNameSameProfile(profiles, a, b);
      }
    }
  }

  /** The profiles read back are the selected ones, smallest first, in any order of slices. */
  lemma {:induction false} ListingReadsBack(rn: ResolvedNode, topologyName: string, order: seq<ResourceSlice>, i: nat,
      out: seq<Profile>)
    requires WellFormed(rn) && i < |rn.gpus| && multiset(order) == multiset(MigSlices(rn, topologyName))
    requires Lists(PublishedFor(DevicesIn(order), i), out)
    ensures out == Sort(SizeLe, rn.mig.value.profiles)
  {
    var g, profiles := rn.mig.value.geometry, rn.mig.value.profiles;
    forall p
      ensures p in out <==> p in profiles
    {
      ProfileIsPublished(rn, topologyName, order, i, p);
    }
    SelectionHasNoTies(g, profiles);
    SameElementsSameBag(out, profiles);
    SizesInOrder();
    SortSorts(SizeLe, profiles);
    SortPermutes(SizeLe, profiles);
    SortedUnique(SizeLe, out, Sort(SizeLe, profiles));
  }

  // ---------------------------------------------------------------- counter sets read back

  function SetsIn(slices: seq<ResourceSlice>): seq<CounterSet> {
    if slices == [] then [] else slices[0].sharedCounters + SetsIn(slices[1..])
  }

  lemma {:induction false} SetInSlices(slices: seq<ResourceSlice>, s: CounterSet)
    ensures s in SetsIn(slices) <==> exists slice :: slice in slices && s in slice.sharedCounters
  {
    if slices != [] {
      SetInSlices(slices[1..], s);
      assert slices == [slices[0]] + slices[1..];
    }
  }

  /** When every set naming a GPU describes the same capacity, that capacity is what is kept. */
  lemma {:induction false} AddedSets(sets: seq<CounterSet>, g: Geometry)
    requires forall s :: s in sets ==> GeometryOf(s) == g && GpuIndexFromCounterSet(s.name).Some?
    ensures forall i :: i in AddSets(map[], sets) <==>
            exists s :: s in sets && GpuIndexFromCounterSet(s.name) == Some(i)
    ensures forall i :: i in AddSets(map[], sets) ==> AddSets(map[], sets)[i] == g
  {
    if sets != [] {
      var front, last := sets[..|sets| - 1], sets[|sets| - 1];
      assert sets == front + [last];
      AddedSets(front, g);
    }
  }

  /** The first indexes, each with the totals of one geometry. */
  ghost predicate HasCapacities(m: map<int, Geometry>, g: Geometry, count: nat) {
    && (forall i :: i in m <==> 0 <= i < count)
    && (forall i :: i in m ==> m[i] == Geometry(g.memorySlices, g.smSlices, []))
  }

  lemma {:induction false} SetsReadBack(rn: ResolvedNode, topologyName: string, order: seq<ResourceSlice>)
    requires WellFormed(rn) && multiset(order) == multiset(MigSlices(rn, topologyName))
    ensures HasCapacities(AddSets(map[], SetsIn(order)), rn.mig.value.geometry, |rn.gpus|)
  {
    var g := rn.mig.value.geometry;
    var slices := MigSlices(rn, topologyName);
    forall s
      ensures s in SetsIn(order) <==> s in CounterSets(g, rn.gpus)
    {
      SetInSlices(order, s);
      forall slice
        ensures slice in order <==> slice in slices
      {
        InSameBag(order, slices, slice);
      }
      assert slices[0].sharedCounters == CounterSets(g, rn.gpus);
      assert forall k :: 1 <= k < |slices| ==> slices[k].sharedCounters == [];
      assert slices[0] in slices;
    }
    forall i | 0 <= i < |rn.gpus|
      ensures GpuIndexFromCounterSet(CounterSets(g, rn.gpus)[i].name) == Some(i)
      ensures GeometryOf(CounterSets(g, rn.gpus)[i]) == Geometry(g.memorySlices, g.smSlices, [])
      ensures CounterSets(g, rn.gpus)[i] in SetsIn(order)
    {
      CounterSetReadsBack(g, rn.gpus[i]);
      assert CounterSets(g, rn.gpus)[i] in CounterSets(g, rn.gpus);
    }
    AddedSets(SetsIn(order), Geometry(g.memorySlices, g.smSlices, []));
  }

  // ---------------------------------------------------------------- the report read back

  /** The analysis looks at a geometry's totals only. */
  lemma {:induction false} AnalyseByTotals(g: Geometry, h: Geometry, profiles: seq<Profile>, index: int, state: State)
    requires AllPositive(profiles) && g.memorySlices == h.memorySlices && g.smSlices == h.smSlices
    ensures Analyse(g, profiles, index, state) == Analyse(h, profiles, index, state)
  {
    forall p | p in profiles
      ensures Fit(g, state, p) == Fit(h, state, p)
    {
      assert Placements(g, p) == Placements(h, p);
    }
    assert Fits(g, state, profiles) == Fits(h, state, profiles);
  }

  lemma {:induction false} CountingKeys(keys: set<int>, n: nat) returns (s: seq<int>)
    requires forall i :: i in keys <==> 0 <= i < n
    ensures |s| == n && forall k :: 0 <= k < n ==> s[k] == k
    ensures multiset(s) == multiset(keys)
  {
    if n == 0 {
      assert |keys| == 0 by {
        BoundedSetSize(keys, 0);
      }
      s := [];
    } else {
      var front := CountingKeys(keys - {n - 1}, n - 1);
      s := front + [n - 1];
      assert keys == (keys - {n - 1}) + {n - 1};
    }
  }

  /** A node's GPUs in order, each analysed over the selected profiles, smallest first, with those
      of its partitions in use whose names are held. */
  ghost predicate AreReportsOn(rn: ResolvedNode, held: set<string>, reports: seq<Report>)
    requires WellFormed(rn)
  {
    && AllPositive(Sort(SizeLe, rn.mig.value.profiles))
    && |reports| == |rn.gpus|
    && forall i :: 0 <= i < |rn.gpus| ==>
         reports[i] == Analyse(rn.mig.value.geometry, Sort(SizeLe, rn.mig.value.profiles), i,
           StateFrom(HeldOf(rn.gpus[i].partitions, held)))
  }

  /** Publishing then decoding is lossless, whatever order the slices are listed in. */
  lemma {:induction false} PublishThenDecode(rn: ResolvedNode, topologyName: string, order: seq<ResourceSlice>,
      held: set<string>, reports: seq<Report>)
    requires WellFormed(rn) && multiset(order) == multiset(MigSlices(rn, topologyName))
    requires AreReportsOf(AddSets(map[], SetsIn(order)), AddDevices(map[], DevicesIn(order)), held, reports)
    ensures AreReportsOn(rn, held, reports)
  {
    var g, profiles := rn.mig.value.geometry, rn.mig.value.profiles;
    var sets, devices := AddSets(map[], SetsIn(order)), AddDevices(map[], DevicesIn(order));
    SetsReadBack(rn, topologyName, order);
    forall i: int
      ensures i in sets.Keys <==> 0 <= i < |rn.gpus|
    {
      assert i in sets.Keys <==> i in sets;
    }
    var keys := CountingKeys(sets.Keys, |rn.gpus|);
    SortedBagUnique(keys);
    SortPermutes(SizeLe, profiles);
    forall p | p in Sort(SizeLe, profiles)
      ensures Positive(p)
    {
      InSameBag(Sort(SizeLe, profiles), profiles, p);
    }
    forall i | 0 <= i < |rn.gpus|
      ensures reports[i] == Analyse(g, Sort(SizeLe, profiles), i, StateFrom(HeldOf(rn.gpus[i].partitions, held)))
    {
      assert IsReportOf(sets[keys[i]], OnGpu(devices, keys[i]), keys[i], held, reports[i]);
      AddedDevices(map[], DevicesIn(order), i);
      assert OnGpu(devices, i) == PublishedFor(DevicesIn(order), i);
      var ps :| Lists(OnGpu(devices, i), ps) && AllPositive(ps)
        && reports[i] == Analyse(sets[i], ps, i, UsedBy(OnGpu(devices, i), held));
      ListingReadsBack(rn, topologyName, order, i, ps);
      StateReadsBack(rn, topologyName, order, i, held);
      AnalyseByTotals(sets[i], g, ps, i, Share(DevicesIn(order), i, held));
    }
  }
}
