/** The report of a node, read from the slices found in a cluster and the devices allocated in it. */
module Reporting {
  import opened Options
  import opened Names
  import opened Profiles
  import opened Partitions
  import opened Fragmentation
  import opened Occupancy
  import opened Topology
  import opened Resolve
  import opened Expansion
  import opened Resources
  import opened Publishing
  import opened Decoding
  import opened Lossless

  lemma {:induction false} AddSetsConcat(m: map<int, Geometry>, a: seq<CounterSet>, b: seq<CounterSet>)
    ensures AddSets(AddSets(m, a), b) == AddSets(m, a + b)
  {
    if b == [] {
      assert a + b == a;
    } else {
      assert (a + b)[..|a + b| - 1] == a + b[..|b| - 1];
      AddSetsConcat(m, a, b[..|b| - 1]);
    }
  }

  lemma {:induction false} AddDevicesConcat(m: map<int, seq<PublishedPartition>>, a: seq<Device>, b: seq<Device>)
    ensures AddDevices(AddDevices(m, a), b) == AddDevices(m, a + b)
  {
    if b == [] {
      assert a + b == a;
    } else {
      assert (a + b)[..|a + b| - 1] == a + b[..|b| - 1];
      AddDevicesConcat(m, a, b[..|b| - 1]);
    }
  }

  lemma {:induction false} SlicesSnoc(slices: seq<ResourceSlice>, k: nat)
    requires k < |slices|
    ensures SetsIn(slices[..k + 1]) == SetsIn(slices[..k]) + slices[k].sharedCounters
    ensures DevicesIn(slices[..k + 1]) == DevicesIn(slices[..k]) + slices[k].devices
  {
    if k == 0 {
      assert slices[..1][1..] == [] && slices[..0] == [];
    } else {
      SlicesSnoc(slices[1..], k - 1);
      assert slices[..k + 1][1..] == slices[1..][..k] && slices[..k][1..] == slices[1..][..k - 1];
    }
  }

  /** Any slices, in the order the cluster lists them. */
  method ReadNode(slices: seq<ResourceSlice>, held: set<string>) returns (reports: seq<Report>)
    requires forall i :: Divisible(PublishedFor(DevicesIn(slices), i))
    ensures AreReportsOf(AddSets(map[], SetsIn(slices)), AddDevices(map[], DevicesIn(slices)), held, reports)
  {
    var state := new NodeState();
    for k := 0 to |slices|
      invariant state.counterSets == AddSets(map[], SetsIn(slices[..k]))
      invariant state.devices == AddDevices(map[], DevicesIn(slices[..k]))
    {
      state.Absorb(slices[k]);
      SlicesSnoc(slices, k);
      AddSetsConcat(map[], SetsIn(slices[..k]), slices[k].sharedCounters);
      AddDevicesConcat(map[], DevicesIn(slices[..k]), slices[k].devices);
    }
    assert slices[..|slices|] == slices;
    forall i | i in state.counterSets
      ensures Divisible(OnGpu(state.devices, i))
    {
      AddedDevices(map[], DevicesIn(slices), i);
      assert OnGpu(state.devices, i) == PublishedFor(DevicesIn(slices), i);
    }
    reports := state.Report(held);
  }

  lemma {:induction false} NodeDeviceIsPositive(rn: ResolvedNode, d: Device)
    requires WellFormed(rn) && d in NodeDevices(rn.gpus)
    ensures d.consumes != [] && Positive(PublishedAs(d).profile)
  {
    var j, k := NodeDevice(rn.gpus, d);
    GpuReadsBack(rn, j, k);
    var p := rn.gpus[j].partitions[k];
    assert p in rn.gpus[j].partitions;
    PartitionsForExact(rn.mig.value.geometry, rn.mig.value.profiles, j, p);
  }

  lemma {:induction false} PublishedIsDivisible(rn: ResolvedNode, topologyName: string, order: seq<ResourceSlice>,
      i: int)
    requires WellFormed(rn) && multiset(order) == multiset(MigSlices(rn, topologyName))
    ensures Divisible(PublishedFor(DevicesIn(order), i))
  {
    PublishedDevices(rn, topologyName);
    forall q | q in PublishedFor(DevicesIn(order), i)
      ensures Positive(q.profile)
    {
      PublishedForHas(DevicesIn(order), i, q);
      var d :| d in DevicesIn(order) && IndexOf(d) == Some(i) && q == PublishedAs(d);
      DevicesInAnyOrder(order, MigSlices(rn, topologyName), d);
      NodeDeviceIsPositive(rn, d);
    }
  }

  /** A MIG node of a validated topology, whose GPUs fit Go's integers, is well formed when and only
      when its pool names no profile twice. */
  lemma {:induction false} ValidIsWellFormed(ct: ClusterTopology, load: Loader, i: nat, k: nat, n: ResolvedNode)
    requires Valid(ct) && From(ct, load, i, k, n) && n.mig.Some? && |n.gpus| <= MAX_INT
    ensures WellFormed(n) <==> Distinct(PoolOf(ct, ct.racks[i].nodes[k]).mig.value.profiles)
  {
    NodeShape(ct, load, i, k, n);
    var pool := PoolOf(ct, ct.racks[i].nodes[k]);
    SupportedWellShaped(pool.profile);
    SelectionWellShaped(GeometryFor(pool.profile).value, pool.mig.value.profiles);
  }

  /** End to end: publish a node, list its slices in any order, read them back. */
  method PublishAndReport(rn: ResolvedNode, topologyName: string, listed: seq<ResourceSlice>, held: set<string>)
    returns (slices: seq<ResourceSlice>, reports: seq<Report>)
    requires WellFormed(rn) && multiset(listed) == multiset(MigSlices(rn, topologyName))
    ensures slices == MigSlices(rn, topologyName)
    ensures AreReportsOn(rn, held, reports)
  {
    slices := PublishMig(rn, topologyName);
    forall i {
      PublishedIsDivisible(rn, topologyName, listed, i);
    }
    reports := ReadNode(listed, held);
    PublishThenDecode(rn, topologyName, listed, held, reports);
  }

  // ---------------------------------------------------------------- names across nodes

  lemma {:induction false} UsedSMIsSum(ps: seq<Partition>)
    ensures StateFrom(ps).usedSM == SumSM(ps)
  {
    if ps != [] {
      UsedSMIsSum(ps[..|ps| - 1]);
    }
  }

  /** No name allocated elsewhere stands for a partition published here. */
  ghost predicate NoCollision(ps: seq<Partition>, own: set<string>, all: set<string>) {
    forall k :: 0 <= k < |ps| ==> ps[k].deviceName in all ==> ps[k].deviceName in own
  }

  lemma {:induction false} HeldSnoc(ps: seq<Partition>, held: set<string>)
    requires ps != []
    ensures var front, last := ps[..|ps| - 1], ps[|ps| - 1];
            SumSM(HeldOf(ps, held)) ==
              SumSM(HeldOf(front, held)) + if last.deviceName in held then last.profile.smSlices else 0
  {
    var front, last := HeldOf(ps[..|ps| - 1], held), ps[|ps| - 1];
    assert (front + [last])[..|front|] == front && front + [] == front;
  }

  lemma {:induction false} MoreHeld(ps: seq<Partition>, own: set<string>, all: set<string>)
    requires own <= all && forall k :: 0 <= k < |ps| ==> Positive(ps[k].profile)
    ensures SumSM(HeldOf(ps, own)) <= SumSM(HeldOf(ps, all))
    ensures SumSM(HeldOf(ps, own)) == SumSM(HeldOf(ps, all)) <==> NoCollision(ps, own, all)
  {
    if ps != [] {
      var front, last := ps[..|ps| - 1], ps[|ps| - 1];
      MoreHeld(front, own, all);
      HeldSnoc(ps, own);
      HeldSnoc(ps, all);
      assert NoCollision(ps, own, all) <==>
             NoCollision(front, own, all) && (last.deviceName in all ==> last.deviceName in own) by {
        assert forall k :: 0 <= k < |front| ==> front[k] == ps[k];
      }
    }
  }

  lemma {:induction false} SameHeld(ps: seq<Partition>, own: set<string>, all: set<string>)
    requires own <= all && NoCollision(ps, own, all)
    ensures HeldOf(ps, own) == HeldOf(ps, all)
  {
    if ps != [] {
      SameHeld(ps[..|ps| - 1], own, all);
    }
  }

  /** Allocations are looked up by device name across the whole cluster, and a partition's name
      does not say which node it is on. A GPU's report is still its own when and only when no
      partition published for it shares a name with one allocated elsewhere and not here. */
  lemma {:induction false} ReportExactUnlessNamesCollide(rn: ResolvedNode, i: nat, own: set<string>, all: set<string>,
      profiles: seq<Profile>)
    requires WellFormed(rn) && i < |rn.gpus| && AllPositive(profiles) && own <= all
    ensures var g, ps := rn.mig.value.geometry, rn.gpus[i].partitions;
            Analyse(g, profiles, i, StateFrom(HeldOf(ps, all))) ==
              Analyse(g, profiles, i, StateFrom(HeldOf(ps, own))) <==>
              NoCollision(ps, own, all)
  {
    var ps := rn.gpus[i].partitions;
    forall k | 0 <= k < |ps|
      ensures Positive(ps[k].profile)
    {
      assert ps[k] in ps;
      PartitionsForExact(rn.mig.value.geometry, rn.mig.value.profiles, i, ps[k]);
    }
    MoreHeld(ps, own, all);
    if NoCollision(ps, own, all) {
      SameHeld(ps, own, all);
    }
    UsedSMIsSum(HeldOf(ps, own));
    UsedSMIsSum(HeldOf(ps, all));
  }

  /** The failing family: on two nodes with the same layout, whatever the first holds makes the
      report of the idle second one wrong. */
  lemma {:induction false} TwinNodeMisreported(a: ResolvedNode, b: ResolvedNode, i: nat, p: Partition,
      profiles: seq<Profile>)
    requires WellFormed(a) && WellFormed(b) && a.name != b.name && a.mig == b.mig
    requires i < |a.gpus| && i < |b.gpus| && p in a.gpus[i].partitions && AllPositive(profiles)
    ensures var g, ps := b.mig.value.geometry, b.gpus[i].partitions;
            Analyse(g, profiles, i, StateFrom(HeldOf(ps, {p.deviceName}))) != Analyse(g, profiles, i,
              StateFrom(HeldOf(ps, {})))
  {
    ReportExactUnlessNamesCollide(b, i, {}, {p.deviceName}, profiles);
    assert a.gpus[i].partitions == b.gpus[i].partitions;
    var k :| 0 <= k < |b.gpus[i].partitions| && b.gpus[i].partitions[k] == p;
    assert !NoCollision(b.gpus[i].partitions, {}, {p.deviceName});
  }
}
