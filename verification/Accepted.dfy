/** Documents that validation accepts although a comment of the source rules them out: the
    conditions of the exact theorems are not met by everything that can be received. */
module Accepted {
  import opened Options
  import opened Profiles
  import opened Partitions
  import opened Topology
  import opened Resolve
  import opened Expansion
  import opened Levels
  import opened Forest
  import opened Lossless
  import opened Reporting
  import opened Resources
  import opened Store
  import opened Convergence
  import opened Client
  import opened Devices
  import opened Inspection
  import Runner

  /** Two racks of one node each, all from one pool. */
  function TwoRacks(pool: NodePool, domain: string): ClusterTopology {
    ClusterTopology(API_VERSION, KIND, "cluster", map["pool" := pool], [
      Rack("a", "left", domain, [Node("x", "pool")]),
      Rack("b", "right", domain, [Node("y", "pool")])])
  }

  lemma {:induction false} TwoRacksAccepted(pool: NodePool, domain: string)
    requires ValidPool(pool) && (domain != "" ==> pool.nvlink != NO_NVLINK)
    ensures Valid(TwoRacks(pool, domain))
  {
    var ct := TwoRacks(pool, domain);
    NodeNamesSnoc(ct.racks, 0);
    NodeNamesSnoc(ct.racks, 1);
    assert ct.racks[..0] == [] && ct.racks[..2] == ct.racks;
    assert NodeNames(ct.racks) == ["x", "y"];
    assert "pool" in ct.nodePools;
  }

  lemma {:induction false} TwoRacksExpanded(pool: NodePool, domain: string, load: Loader)
    returns (x: ResolvedNode, y: ResolvedNode)
    ensures var ct := TwoRacks(pool, domain);
            && x == NodeOf(ct, load, ct.racks[0], ct.racks[0].nodes[0])
            && y == NodeOf(ct, load, ct.racks[1], ct.racks[1].nodes[0])
            && Expanded(ct, load, ct.racks) == [x, y]
  {
    var ct := TwoRacks(pool, domain);
    x := NodeOf(ct, load, ct.racks[0], ct.racks[0].nodes[0]);
    y := NodeOf(ct, load, ct.racks[1], ct.racks[1].nodes[0]);
    assert RackNodes(ct, load, ct.racks[0]) == [x] && RackNodes(ct, load, ct.racks[1]) == [y];
    assert ct.racks[..1] == [ct.racks[0]] && ct.racks[..1][..0] == [];
    assert Expanded(ct, load, ct.racks[..1]) == [x];
  }

  /** A domain named in two racks is accepted; the peer counts are then wrong, and the HyperNodes
      are no forest. */
  lemma {:induction false} SharedDomainAccepted(pool: NodePool, domain: string, load: Loader)
    requires ValidPool(pool) && pool.nvlink == FULL_MESH && domain != ""
    ensures var ct := TwoRacks(pool, domain);
            && Valid(ct) && SharesDomain(ct)
            && !PeersAreExact(Expanded(ct, load, ct.racks)) && !IsForest(Expanded(ct, load, ct.racks))
  {
    var ct := TwoRacks(pool, domain);
    TwoRacksAccepted(pool, domain);
    var x, y := TwoRacksExpanded(pool, domain, load);
    assert DomainAt(ct, ct.racks[0], ct.racks[0].nodes[0]) == domain;
    assert DomainAt(ct, ct.racks[1], ct.racks[1].nodes[0]) == domain;
    assert InDomain(ct, 0, domain) && InDomain(ct, 1, domain);
    assert AllHaveNVLink([x, y]);
    PeersExactUnlessShared(ct, load);
    ForestUnlessShared(ct, load);
  }

  // ---------------------------------------------------------------- MIG

  /** A pool of one GPU with MIG enabled and the given profiles selected. */
  function MigPool(profiles: seq<string>): NodePool {
    NodePool("a100", 1, FULL_MESH, Some(MIGConfig(true, profiles)))
  }

  lemma {:induction false} A100Known()
    ensures GeometryFor("a100") == Some(DatacenterGeometry(A100))
  {
    assert ToLower("a100") == "a100";
  }

  lemma {:induction false} MigPoolValid(count: nat)
    ensures ValidPool(MigPool(seq(count, i => A100[0])))
  {
    var names: seq<string> := seq(count, i => A100[0]);
    var g := DatacenterGeometry(A100);
    A100Known();
    NamedExact(g, names);
    assert g.profiles[0].name == A100[0];
    assert Lookup(g.profiles, A100[0]).Some?;
  }

  lemma {:induction false} MigNodes(pool: NodePool, domain: string, load: Loader)
    returns (x: ResolvedNode, y: ResolvedNode)
    requires ValidPool(pool) && MIGEnabled(pool) && pool.nvlink == FULL_MESH
    ensures var ct := TwoRacks(pool, domain);
            Valid(ct) && Expanded(ct, load, ct.racks) == [x, y] && From(ct, load, 0, 0, x) && From(ct, load, 1, 0, y)
    ensures x.name != y.name && x.mig.Some? && x.mig == y.mig && |x.gpus| == |y.gpus| == pool.gpuCount > 0
  {
    TwoRacksAccepted(pool, domain);
    x, y := TwoRacksExpanded(pool, domain, load);
    NodeShape(TwoRacks(pool, domain), load, 0, 0, x);
    NodeShape(TwoRacks(pool, domain), load, 1, 0, y);
  }

  /** Two MIG nodes of one layout are accepted, and what one of them holds then spoils the
      inspection of the other. */
  lemma {:induction false} TwinsAccepted(load: Loader) returns (x: ResolvedNode, y: ResolvedNode)
    ensures var ct := TwoRacks(MigPool([]), "");
            Valid(ct) && PoolsListOnce(ct) && Expanded(ct, load, ct.racks) == [x, y]
    ensures WellFormed(x) && WellFormed(y) && x.name != y.name && x.mig == y.mig
    ensures |x.gpus| == |y.gpus| == 1 && x.gpus[0].partitions == y.gpus[0].partitions != []
    ensures forall p :: p in x.gpus[0].partitions ==> !NoCollision(y.gpus[0].partitions, {}, {p.deviceName})
  {
    var pool := MigPool([]);
    MigPoolValid(0);
    assert seq(0, i => A100[0]) == [];
    x, y := MigNodes(pool, "", load);
    var ct := TwoRacks(pool, "");
    ValidIsWellFormed(ct, load, 0, 0, x);
    ValidIsWellFormed(ct, load, 1, 0, y);
    NodeShape(ct, load, 0, 0, x);
    assert x.gpus[0].partitions == y.gpus[0].partitions;
    forall p | p in x.gpus[0].partitions
      ensures !NoCollision(y.gpus[0].partitions, {}, {p.deviceName})
    {
      var k :| 0 <= k < |y.gpus[0].partitions| && y.gpus[0].partitions[k] == p;
      assert y.gpus[0].partitions[k].deviceName in {p.deviceName};
    }
  }

  lemma {:induction false} StoredWhereGenerated(before: Cluster, after: Cluster, want: Desired, s: ResourceSlice,
      j: nat)
    requires s in want.slices && SlicesAsGenerated(before, after, want) && j < |s.devices|
    ensures Runner.Publishes(after, s.name, s.devices[j].name) && after.slices[s.name].slice == s
  {
    var x :| 0 <= x < |want.slices| && want.slices[x] == s;
    assert s.name in SliceNamesIn(want);
    assert ManagedSlice(after, s.name);
  }

  /** Applying them makes a fault on one record the pods of the other as its casualties. */
  lemma {:induction false} TwinsMisrecorded(load: Loader, before: Cluster, run: ApplyRun, after: Cluster)
    requires Keyed(before) && IsApply(TwoRacks(MigPool([]), ""), load, before, run, true, after)
    ensures !Runner.RecordsExact(after)
  {
    var ct := TwoRacks(MigPool([]), "");
    var x, y := TwinsAccepted(load);
    var p := x.gpus[0].partitions[0];
    assert p in y.gpus[0].partitions;
    var s, i := PartitionIsPublished([x, y], ct.name, 0, 0, p);
    var t, j := PartitionIsPublished([x, y], ct.name, 1, 0, p);
    ApplyMatches(ct, load, before, run, after);
    var want := WantOf(ct, load, run);
    StoredWhereGenerated(before, after, want, s, i);
    StoredWhereGenerated(before, after, want, t, j);
    Runner.TwinIsRecorded(after, s.name, t.name, p.deviceName);
  }

  lemma {:induction false} TwiceIsRepeated(name: string)
    ensures !Distinct([name, name])
  {
    assert [name, name][0] == [name, name][1];
  }

  lemma {:induction false} RepeatedNames(name: string)
    requires Named(DatacenterGeometry(A100), [name, name]).Some?
    ensures var g := DatacenterGeometry(A100);
            var ps := Named(g, [name, name]).value;
            AllPositive(ps) && !UniqueNames(PartitionsFor(g, ps, 0))
  {
    A100Known();
    SupportedWellShaped("a100");
    NamesUniqueUnlessRepeated(DatacenterGeometry(A100), [name, name], 0);
    TwiceIsRepeated(name);
  }

  /** A pool that names a profile twice is accepted, and its GPUs then publish a name twice. */
  lemma {:induction false} RepetitionAccepted(load: Loader) returns (x: ResolvedNode, y: ResolvedNode)
    ensures var ct := TwoRacks(MigPool([A100[0], A100[0]]), "");
            Valid(ct) && !PoolsListOnce(ct) && Expanded(ct, load, ct.racks) == [x, y]
    ensures |x.gpus| == 1 && !UniqueNames(x.gpus[0].partitions)
  {
    var name := A100[0];
    var pool := MigPool([name, name]);
    MigPoolValid(2);
    assert seq(2, i => A100[0]) == [name, name];
    x, y := MigNodes(pool, "", load);
    var ct := TwoRacks(pool, "");
    TwiceIsRepeated(name);
    assert "pool" in ct.nodePools;
    A100Known();
    RepeatedNames(name);
  }
}
