/** What faults break in a cluster that a topology has been applied to. */
module Breaking {
  import opened Options
  import opened Partitions
  import opened Topology
  import opened Resolve
  import opened Resources
  import opened Publishing
  import opened Store
  import opened Convergence
  import opened History
  import opened Generating
  import opened Faults
  import opened Client
  import Lossless

  // ---------------------------------------------------------------- generated attributes

  const DOMAIN := "gpu-sim.io"

  lemma {:induction false} FabricNames()
    ensures IsUnder(DOMAIN, ATTR_NVLINK_DOMAIN, "nvlinkDomain") && IsUnder(DOMAIN, ATTR_FAULT_DOMAIN, "faultDomain")
  {
  }

  lemma {:induction false} FabricIsPlain(attributes: map<string, string>, gpu: ResolvedGPU, key: string)
    requires key in FabricAttributes(gpu)
    ensures IsPlain(attributes, DOMAIN, key)
  {
    FabricNames();
  }

  lemma {:induction false} BareIsPlain(attributes: map<string, string>, key: string)
    requires key == ATTR_TYPE || key == ATTR_PROFILE || key == ATTR_BUS_ID
    ensures IsPlain(attributes, DOMAIN, key)
  {
  }

  lemma {:induction false} LegacyIsPlain(attributes: map<string, string>, key: string)
    requires key == ATTR_LEGACY_TYPE && ATTR_TYPE in attributes
    ensures IsPlain(attributes, DOMAIN, key)
  {
    assert IsUnder("gpu.nvidia.com", key, ATTR_TYPE);
  }

  lemma {:induction false} MigUnambiguous(gpu: ResolvedGPU, p: Partition)
    ensures Unambiguous(MigDevice(gpu, p).attributes)
  {
    var attributes := MigDevice(gpu, p).attributes;
    forall k | k in attributes
      ensures IsPlain(attributes, DOMAIN, k)
    {
      if k in FabricAttributes(gpu) {
        FabricIsPlain(attributes, gpu, k);
      } else {
        BareIsPlain(attributes, k);
      }
    }
    OneDomainUnambiguous(attributes, DOMAIN);
  }

  lemma {:induction false} WholeUnambiguous(rn: ResolvedNode, gpu: ResolvedGPU)
    ensures Unambiguous(WholeDevice(rn, gpu).attributes)
  {
    var attributes := WholeDevice(rn, gpu).attributes;
    forall k | k in attributes
      ensures IsPlain(attributes, DOMAIN, k)
    {
      if k in FabricAttributes(gpu) {
        FabricIsPlain(attributes, gpu, k);
      } else if k == ATTR_LEGACY_TYPE {
        LegacyIsPlain(attributes, k);
      } else {
        BareIsPlain(attributes, k);
      }
    }
    OneDomainUnambiguous(attributes, DOMAIN);
  }

  lemma {:induction false} NodeSliceUnambiguous(rn: ResolvedNode, topologyName: string, k: nat)
    requires k < |SlicesOf(rn, topologyName)|
    ensures SliceUnambiguous(SlicesOf(rn, topologyName)[k])
  {
    var s := SlicesOf(rn, topologyName)[k];
    forall j | 0 <= j < |s.devices|
      ensures Unambiguous(s.devices[j].attributes)
    {
      if rn.mig.None? {
        WholeUnambiguous(rn, rn.gpus[j]);
      } else {
        SliceAt(rn, topologyName, k);
        ChunksFrom(NodeDevices(rn.gpus), MAX_DEVICES_PER_SLICE, k - 1, j);
        var i, m := Lossless.NodeDevice(rn.gpus, s.devices[j]);
        MigUnambiguous(rn.gpus[i], rn.gpus[i].partitions[m]);
      }
    }
  }

  // ---------------------------------------------------------------- applied clusters

  lemma {:induction false} AppliedIsUnambiguous(ct: ClusterTopology, load: Loader, before: Cluster, run: ApplyRun,
      after: Cluster)
    requires Valid(ct) && Keyed(before) && IsApply(ct, load, before, run, true, after)
    ensures ClusterUnambiguous(after)
  {
    ApplyMatches(ct, load, before, run, after);
    GeneratedUnambiguous(before, after, WantOf(ct, load, run), Expanded(ct, load, ct.racks), ct.name);
  }

  lemma {:induction false} GeneratedUnambiguous(before: Cluster, after: Cluster, want: Desired,
      nodes: seq<ResolvedNode>, topologyName: string)
    requires want.slices == ResourceSlices(nodes, topologyName) && SlicesAsGenerated(before, after, want)
    ensures ClusterUnambiguous(after)
  {
    forall n | ManagedSlice(after, n)
      ensures SliceUnambiguous(after.slices[n].slice)
    {
      assert n in SliceNamesIn(want);
      var i :| 0 <= i < |want.slices| && want.slices[i].name == n;
      var m, k := SliceSource(nodes, topologyName, i);
      NodeSliceUnambiguous(nodes[m], topologyName, k);
    }
  }

  /** Faults alone do not make it otherwise: a break adds taints and a kill removes a node. */
  ghost predicate FaultStep(before: Cluster, after: Cluster) {
    KillStep(before, after) || exists m, effect, hits, ok :: Broke(before, after, m, effect, hits, ok)
  }

  ghost predicate AreFaults(trace: seq<Cluster>) {
    trace != [] && forall i :: 0 <= i < |trace| - 1 ==> FaultStep(trace[i], trace[i + 1])
  }

  lemma {:induction false} BreakKeepsUnambiguous(before: Cluster, after: Cluster, m: DeviceMatch, effect: string,
      hits: map<string, seq<bool>>, ok: bool)
    requires ClusterUnambiguous(before) && Broke(before, after, m, effect, hits, ok)
    ensures ClusterUnambiguous(after)
  {
    forall n | ManagedSlice(after, n)
      ensures SliceUnambiguous(after.slices[n].slice)
    {
      assert ManagedSlice(before, n);
      OnlyTaintsGained(before, after, m, effect, hits, ok, n);
      forall j | 0 <= j < |after.slices[n].slice.devices|
        ensures Unambiguous(after.slices[n].slice.devices[j].attributes)
      {
        assert Unambiguous(before.slices[n].slice.devices[j].attributes);
      }
    }
  }

  lemma {:induction false} FaultsKeepUnambiguous(trace: seq<Cluster>, i: nat)
    requires AreFaults(trace) && i < |trace| && ClusterUnambiguous(trace[0])
    ensures ClusterUnambiguous(trace[i])
  {
    if i > 0 {
      FaultsKeepUnambiguous(trace, i - 1);
      var before, after := trace[i - 1], trace[i - 1 + 1];
      assert FaultStep(before, after);
      if KillStep(before, after) {
        assert after.slices == before.slices;
        assert forall n :: ManagedSlice(after, n) ==> ManagedSlice(before, n);
      } else {
        var m, effect, hits, ok :| Broke(before, after, m, effect, hits, ok);
        BreakKeepsUnambiguous(before, after, m, effect, hits, ok);
      }
    }
  }

  /** The devices of a cluster that match, by name. */
  ghost predicate AreMatching(c: Cluster, m: DeviceMatch, names: set<string>) {
    forall x :: x in names <==> exists n, j :: IsMatching(c, m, n, j) && c.slices[n].slice.devices[j].name == x
  }

  ghost predicate IsMatching(c: Cluster, m: DeviceMatch, n: string, j: int) {
    && ManagedSlice(c, n) && 0 <= j < |c.slices[n].slice.devices|
    && MustMatch(m, c.slices[n].slice, c.slices[n].slice.devices[j])
  }

  /** A break's hits are exactly the matching devices, and the names it returns are theirs. */
  ghost predicate HitsMatches(c: Cluster, m: DeviceMatch, hits: map<string, seq<bool>>) {
    forall n :: ManagedSlice(c, n) ==>
      && n in hits && |hits[n]| == |c.slices[n].slice.devices|
      && forall j :: 0 <= j < |hits[n]| ==> (hits[n][j] <==> IsMatching(c, m, n, j))
  }

  /** However often a cluster has been broken since it was applied, its attributes stay unambiguous:
      the condition under which TaintDevices and Fire say what becomes of each device. */
  lemma {:induction false} ReachedIsUnambiguous(ct: ClusterTopology, load: Loader, before: Cluster, run: ApplyRun,
      trace: seq<Cluster>, i: nat)
    requires Valid(ct) && Keyed(before) && AreFaults(trace) && IsApply(ct, load, before, run, true, trace[0])
    requires i < |trace|
    ensures ClusterUnambiguous(trace[i])
  {
    AppliedIsUnambiguous(ct, load, before, run, trace[0]);
    FaultsKeepUnambiguous(trace, i);
  }

  /** So a fault in it breaks exactly the devices it describes, and leaves on each one taint more:
      nothing is left to the order in which attributes are read. */
  lemma {:induction false} FaultsHitMatches(ct: ClusterTopology, load: Loader, before: Cluster, run: ApplyRun,
      trace: seq<Cluster>, i: nat, m: DeviceMatch, effect: string, hits: map<string, seq<bool>>, after: Cluster,
      ok: bool, names: set<string>)
    requires Valid(ct) && Keyed(before) && AreFaults(trace) && IsApply(ct, load, before, run, true, trace[0])
    requires i < |trace| && Broke(trace[i], after, m, effect, hits, ok)
    ensures HitsMatches(trace[i], m, hits)
    ensures ok ==> TaintsExactly(trace[i], after, m, effect)
    ensures AreHit(trace[i], hits, names) ==> AreMatching(trace[i], m, names)
  {
    ReachedIsUnambiguous(ct, load, before, run, trace, i);
    HitsAreMatches(trace[i], after, m, effect, hits, ok);
    if ok {
      BrokeExactly(trace[i], after, m, effect, hits);
    }
    if AreHit(trace[i], hits, names) {
      HitNamesMatch(trace[i], m, hits, names);
    }
  }

  lemma {:induction false} HitsAreMatches(before: Cluster, after: Cluster, m: DeviceMatch, effect: string,
      hits: map<string, seq<bool>>, ok: bool)
    requires ClusterUnambiguous(before) && Broke(before, after, m, effect, hits, ok)
    ensures HitsMatches(before, m, hits)
  {
    forall n | ManagedSlice(before, n)
      ensures n in hits && |hits[n]| == |before.slices[n].slice.devices|
              && forall j :: 0 <= j < |hits[n]| ==> (hits[n][j] <==> IsMatching(before, m, n, j))
    {
      FairIsExact(m, before.slices[n].slice, hits[n]);
    }
  }

  lemma {:induction false} HitNamesMatch(c: Cluster, m: DeviceMatch, hits: map<string, seq<bool>>, names: set<string>)
    requires HitsMatches(c, m, hits) && AreHit(c, hits, names)
    ensures AreMatching(c, m, names)
  {
    forall x
      ensures x in names <==> exists n, j :: IsMatching(c, m, n, j) && c.slices[n].slice.devices[j].name == x
    {
      if n, j :| IsMatching(c, m, n, j) && c.slices[n].slice.devices[j].name == x {
        assert hits[n][j];
        assert x in HitNames(c.slices[n].slice.devices, hits[n]);
      }
      if x in names {
        var n :| ManagedSlice(c, n) && n in hits && x in HitNames(c.slices[n].slice.devices, hits[n]);
        var j :| 0 <= j < |c.slices[n].slice.devices| && j < |hits[n]| && hits[n][j]
          && c.slices[n].slice.devices[j].name == x;
        assert IsMatching(c, m, n, j);
      }
    }
  }
}
