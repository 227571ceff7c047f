/** What a validated topology expands into, and when its NVLink peer counts are right. */
module Expansion {
  import opened Options
  import opened Profiles
  import opened Partitions
  import opened Topology
  import opened Resolve

  // ---------------------------------------------------------------- shape

  /** A resolved node is the expansion of node k of rack i. */
  ghost predicate From(ct: ClusterTopology, load: Loader, i: nat, k: nat, n: ResolvedNode) {
    i < |ct.racks| && k < |ct.racks[i].nodes| && n == NodeOf(ct, load, ct.racks[i], ct.racks[i].nodes[k])
  }

  function ResolvedNames(nodes: seq<ResolvedNode>): seq<string> {
    seq(|nodes|, i requires 0 <= i < |nodes| => nodes[i].name)
  }

  lemma {:induction false} ExpandedSnoc(ct: ClusterTopology, load: Loader, count: nat)
    requires count < |ct.racks|
    ensures Expanded(ct, load, ct.racks[..count + 1]) ==
            Expanded(ct, load, ct.racks[..count]) + RackNodes(ct, load, ct.racks[count])
  {
    assert ct.racks[..count + 1][..count] == ct.racks[..count];
  }

  lemma {:induction false} ExpandedNames(ct: ClusterTopology, load: Loader, count: nat)
    requires count <= |ct.racks|
    ensures ResolvedNames(Expanded(ct, load, ct.racks[..count])) == NodeNames(ct.racks[..count])
  {
    if count > 0 {
      ExpandedNames(ct, load, count - 1);
      ExpandedSnoc(ct, load, count - 1);
      NodeNamesSnoc(ct.racks, count - 1);
      var nodes := RackNodes(ct, load, ct.racks[count - 1]);
      assert ResolvedNames(nodes) == NamesOf(ct.racks[count - 1].nodes);
      var front := Expanded(ct, load, ct.racks[..count - 1]);
      assert ResolvedNames(front + nodes) == ResolvedNames(front) + ResolvedNames(nodes);
    }
  }

  /** Everything expanded comes from a declared node. */
  lemma {:induction false} ExpandedFrom(ct: ClusterTopology, load: Loader, count: nat, n: ResolvedNode)
      returns (i: nat, k: nat)
    requires count <= |ct.racks| && n in Expanded(ct, load, ct.racks[..count])
    ensures From(ct, load, i, k, n) && i < count
  {
    ExpandedSnoc(ct, load, count - 1);
    var nodes := RackNodes(ct, load, ct.racks[count - 1]);
    if n in nodes {
      i := count - 1;
      k :| k < |nodes| && nodes[k] == n;
    } else {
      i, k := ExpandedFrom(ct, load, count - 1, n);
    }
  }

  /** Every declared node is expanded. */
  lemma {:induction false} ExpandedHas(ct: ClusterTopology, load: Loader, count: nat, i: nat, k: nat)
    requires i < count <= |ct.racks| && k < |ct.racks[i].nodes|
    ensures NodeOf(ct, load, ct.racks[i], ct.racks[i].nodes[k]) in Expanded(ct, load, ct.racks[..count])
  {
    ExpandedSnoc(ct, load, count - 1);
    if i < count - 1 {
      ExpandedHas(ct, load, count - 1, i, k);
    } else {
      var nodes := RackNodes(ct, load, ct.racks[i]);
      assert nodes[k] in nodes;
    }
  }

  lemma {:induction false} ValidPoolAt(ct: ClusterTopology, i: nat, k: nat)
    requires Valid(ct) && i < |ct.racks| && k < |ct.racks[i].nodes|
    ensures var node := ct.racks[i].nodes[k];
            node.pool in ct.nodePools && ValidPool(PoolOf(ct, node)) && node.name != ""
  {
    assert ValidRack(ct, ct.racks[i]);
    assert ValidNode(ct, ct.racks[i].nodes[k]);
  }

  /** The first profile a pool selects fits its GPUs. */
  lemma {:induction false} SelectionFits(pool: NodePool)
    requires MIGOf(pool).Some?
    ensures MIGOf(pool).value.profiles[0].memorySlices <= MIGOf(pool).value.geometry.memorySlices
  {
    var g := MIGOf(pool).value.geometry;
    SupportedWellShaped(pool.profile);
    NamedExact(g, pool.mig.value.profiles);
    assert MIGOf(pool).value.profiles[0] in g.profiles;
  }

  lemma {:induction false} PartitionsWhenMIG(pool: NodePool, i: nat)
    ensures MIGOf(pool).Some? ==> PartitionsFor(MIGOf(pool).value.geometry, MIGOf(pool).value.profiles, i) != []
  {
    if MIGOf(pool).Some? {
      var g, profiles := MIGOf(pool).value.geometry, MIGOf(pool).value.profiles;
      SelectionFits(pool);
      PartitionsForExact(g, profiles, i, At(profiles[0], i, 0));
    }
  }

  /** A node has exactly the GPUs its pool declares, indexed in order, in the node's NVLink
      domain, and with partitions when and only when the pool has MIG enabled. */
  lemma {:induction false} NodeShape(ct: ClusterTopology, load: Loader, i: nat, k: nat, n: ResolvedNode)
    requires Valid(ct) && From(ct, load, i, k, n)
    ensures var pool := PoolOf(ct, ct.racks[i].nodes[k]);
            && n.name == ct.racks[i].nodes[k].name && n.name != ""
            && n.rack == ct.racks[i].name && n.faultDomain == ct.racks[i].faultDomain
            && |n.gpus| == pool.gpuCount > 0
            && (n.mig.Some? <==> MIGEnabled(pool))
            && (forall g :: 0 <= g < |n.gpus| ==>
                  && n.gpus[g].index == g
                  && n.gpus[g].nvlinkDomain == n.nvlinkDomain
                  && (n.gpus[g].partitions != [] <==> MIGEnabled(pool)))
  {
    ValidPoolAt(ct, i, k);
    var pool := PoolOf(ct, ct.racks[i].nodes[k]);
    forall g | 0 <= g < |n.gpus|
      ensures n.gpus[g].partitions != [] <==> MIGEnabled(pool)
    {
      PartitionsWhenMIG(pool, g);
    }
  }

  /** Which NVLink domain a node and each of its GPUs is in, by the document: none where the pool has
      no NVLink, else the rack's where it declares one, else one of the node's own; and the peers
      a GPU has there. */
  lemma {:induction false} DomainIsDeclared(ct: ClusterTopology, load: Loader, i: nat, k: nat, n: ResolvedNode)
    requires Valid(ct) && From(ct, load, i, k, n)
    ensures ct.racks[i].nodes[k].pool in ct.nodePools
    ensures var rack, node := ct.racks[i], ct.racks[i].nodes[k];
            var pool := ct.nodePools[node.pool];
            if pool.nvlink == "none" then
              n.nvlinkDomain == "" && forall g :: 0 <= g < |n.gpus| ==>
                n.gpus[g].nvlinkDomain == "" && n.gpus[g].nvlinkPeers == 0
            else if rack.nvlinkDomain != "" then
              n.nvlinkDomain == rack.nvlinkDomain && forall g :: 0 <= g < |n.gpus| ==>
                n.gpus[g].nvlinkDomain == rack.nvlinkDomain && n.gpus[g].nvlinkPeers == GpusOn(ct, rack.nodes) - 1
            else
              n.nvlinkDomain == node.name && forall g :: 0 <= g < |n.gpus| ==>
                n.gpus[g].nvlinkDomain == node.name && n.gpus[g].nvlinkPeers == pool.gpuCount - 1
  {
    ValidPoolAt(ct, i, k);
  }

  /** What else a node takes from the document and from its GPU profile. */
  lemma {:induction false} NodeIsDeclared(ct: ClusterTopology, load: Loader, i: nat, k: nat, n: ResolvedNode)
    requires Valid(ct) && From(ct, load, i, k, n)
    ensures ct.racks[i].nodes[k].pool in ct.nodePools
    ensures var rack, node := ct.racks[i], ct.racks[i].nodes[k];
            var pool := ct.nodePools[node.pool];
            && n.pool == node.pool
            && (forall g :: 0 <= g < |n.gpus| ==> n.gpus[g].faultDomain == rack.faultDomain)
            && (load(pool.profile).Some? && load(pool.profile).value.busIDs != [] ==>
                  var ids := load(pool.profile).value.busIDs;
                  forall g :: 0 <= g < |n.gpus| ==> n.gpus[g].busID == ids[g % |ids|])
            && (MIGEnabled(pool) ==>
                  && n.mig.Some? && GeometryFor(pool.profile) == Some(n.mig.value.geometry)
                  && SelectProfiles(n.mig.value.geometry, pool.mig.value.profiles) == Some(n.mig.value.profiles)
                  && AllPositive(n.mig.value.profiles)
                  && forall g :: 0 <= g < |n.gpus| ==>
                       n.gpus[g].partitions == PartitionsFor(n.mig.value.geometry, n.mig.value.profiles, g))
  {
    ValidPoolAt(ct, i, k);
  }

  lemma {:induction false} ValidIsModelled(ct: ClusterTopology, count: nat)
    requires Valid(ct) && count <= |ct.racks|
    ensures Modelled(ct, NodesOf(ct.racks[..count]))
  {
    if count > 0 {
      ValidIsModelled(ct, count - 1);
      NodesOfSnoc(ct.racks, count - 1);
      var nodes := ct.racks[count - 1].nodes;
      forall k | 0 <= k < |nodes|
        ensures MIGSelectable(PoolOf(ct, nodes[k]))
      {
        ValidPoolAt(ct, count - 1, k);
      }
    }
  }

  /** An accepted document always resolves, as long as its profiles load: node names come out
      unique and in rack order, and every node is the expansion of a declared one, whose shape
      NodeShape gives. */
  lemma {:induction false} ValidResolves(ct: ClusterTopology, load: Loader)
    requires Valid(ct)
    ensures PoolsDefined(ct) && FirstUnmodelled(ct, NodesOf(ct.racks)) == None
    ensures var nodes := Expanded(ct, load, ct.racks);
            && nodes != []
            && ResolvedNames(nodes) == NodeNames(ct.racks) && Distinct(ResolvedNames(nodes))
            && (forall n :: n in nodes ==> exists i, k :: From(ct, load, i, k, n))
  {
    assert ct.racks[..|ct.racks|] == ct.racks;
    forall i, k | 0 <= i < |ct.racks| && 0 <= k < |ct.racks[i].nodes|
      ensures ct.racks[i].nodes[k].pool in ct.nodePools
    {
      ValidPoolAt(ct, i, k);
    }
    ValidIsModelled(ct, |ct.racks|);
    AllModelled(ct, NodesOf(ct.racks));
    ExpandedNames(ct, load, |ct.racks|);
    assert ValidRack(ct, ct.racks[0]);
    ExpandedHas(ct, load, |ct.racks|, 0, 0);
    forall n | n in Expanded(ct, load, ct.racks)
      ensures exists i, k :: From(ct, load, i, k, n)
    {
      var i, k := ExpandedFrom(ct, load, |ct.racks|, n);
    }
  }

  // ---------------------------------------------------------------- peers

  /** How many GPUs of these nodes belong to a domain. */
  function CountGPUs(nodes: seq<ResolvedNode>, domain: string): nat {
    if nodes == [] then 0
    else
      var last := nodes[|nodes| - 1];
      CountGPUs(nodes[..|nodes| - 1], domain) + if last.nvlinkDomain == domain then |last.gpus| else 0
  }

  /** Every GPU in a domain reports the number of other GPUs in the cluster that share it. */
  ghost predicate PeersAreExact(nodes: seq<ResolvedNode>) {
    forall n, g :: n in nodes && n.nvlinkDomain != "" && 0 <= g < |n.gpus| ==>
      n.gpus[g].nvlinkPeers == CountGPUs(nodes, n.nvlinkDomain) - 1
  }

  function DomainAt(ct: ClusterTopology, rack: Rack, node: Node): string {
    NvlinkFor(PoolOf(ct, node), rack, node.name, 0).0
  }

  ghost predicate InDomain(ct: ClusterTopology, i: nat, domain: string) {
    && i < |ct.racks|
    && exists k :: 0 <= k < |ct.racks[i].nodes| && DomainAt(ct, ct.racks[i], ct.racks[i].nodes[k]) == domain
  }

  /** Some NVLink domain spans two racks, which validation does not rule out. */
  ghost predicate SharesDomain(ct: ClusterTopology) {
    exists i, j, domain :: i != j && domain != "" && InDomain(ct, i, domain) && InDomain(ct, j, domain)
  }

  lemma {:induction false} CountConcat(a: seq<ResolvedNode>, b: seq<ResolvedNode>, domain: string)
    ensures CountGPUs(a + b, domain) == CountGPUs(a, domain) + CountGPUs(b, domain)
  {
    if b == [] {
      assert a + b == a;
    } else {
      assert (a + b)[..|a + b| - 1] == a + b[..|b| - 1];
      CountConcat(a, b[..|b| - 1], domain);
    }
  }

  function RackCount(ct: ClusterTopology, load: Loader, rack: Rack, domain: string): nat {
    CountGPUs(RackNodes(ct, load, rack), domain)
  }

  /** A sequence of nodes counts GPUs of a domain exactly when one of them is in it. */
  lemma {:induction false} CountPositive(nodes: seq<ResolvedNode>, domain: string)
    requires forall k :: 0 <= k < |nodes| ==> nodes[k].gpus != []
    ensures CountGPUs(nodes, domain) > 0 <==> exists k :: 0 <= k < |nodes| && nodes[k].nvlinkDomain == domain
  {
    if nodes != [] {
      CountPositive(nodes[..|nodes| - 1], domain);
    }
  }

  lemma {:induction false} RackCountPositive(ct: ClusterTopology, load: Loader, i: nat, domain: string)
    requires Valid(ct) && i < |ct.racks|
    ensures RackCount(ct, load, ct.racks[i], domain) > 0 <==> InDomain(ct, i, domain)
  {
    var rack := ct.racks[i];
    var nodes := RackNodes(ct, load, rack);
    forall k | 0 <= k < |nodes|
      ensures nodes[k].gpus != [] && nodes[k].nvlinkDomain == DomainAt(ct, rack, rack.nodes[k])
    {
      NodeShape(ct, load, i, k, nodes[k]);
    }
    CountPositive(nodes, domain);
  }

  /** With a rack-wide domain, every GPU of the rack is in it. */
  lemma {:induction false} WholeRack(ct: ClusterTopology, load: Loader, i: nat, count: nat)
    requires Valid(ct) && i < |ct.racks| && count <= |ct.racks[i].nodes| && ct.racks[i].nvlinkDomain != ""
    ensures CountGPUs(RackNodes(ct, load, ct.racks[i])[..count], ct.racks[i].nvlinkDomain) ==
            GpusOn(ct, ct.racks[i].nodes[..count])
  {
    if count > 0 {
      WholeRack(ct, load, i, count - 1);
      var rack := ct.racks[i];
      var nodes := RackNodes(ct, load, rack);
      assert NVLinkConsistent(ct, rack);
      ValidPoolAt(ct, i, count - 1);
      NodeShape(ct, load, i, count - 1, nodes[count - 1]);
      assert rack.nodes[..count][..count - 1] == rack.nodes[..count - 1];
      assert nodes[..count][..count - 1] == nodes[..count - 1];
    }
  }

  /** Where a name stands in the document's list of names. */
  lemma {:induction false} NameInRack(racks: seq<Rack>, i: nat, k: nat) returns (p: nat)
    requires i < |racks| && k < |racks[i].nodes|
    ensures p < |NodeNames(racks)| && NodeNames(racks)[p] == racks[i].nodes[k].name
    ensures i == |racks| - 1 ==> p == |NodeNames(racks[..|racks| - 1])| + k
  {
    if i == |racks| - 1 {
      p := |NodeNames(racks[..|racks| - 1])| + k;
    } else {
      p := NameInRack(racks[..|racks| - 1], i, k);
    }
  }

  lemma {:induction false} NamesDifferInRack(racks: seq<Rack>, i: nat, k: nat, m: nat)
    requires Distinct(NodeNames(racks)) && i < |racks| && k < |racks[i].nodes| && m < |racks[i].nodes| && k != m
    ensures racks[i].nodes[k].name != racks[i].nodes[m].name
  {
    var last := |racks| - 1;
    if i == last {
      var p := NameInRack(racks, i, k);
      var q := NameInRack(racks, i, m);
      assert NodeNames(racks)[p] != NodeNames(racks)[q];
    } else {
      DistinctPrefix(NodeNames(racks[..last]), NamesOf(racks[last].nodes));
      NamesDifferInRack(racks[..last], i, k, m);
    }
  }

  /** Without one, a node's domain is its own name and holds its own GPUs only. */
  lemma {:induction false} OwnNode(ct: ClusterTopology, load: Loader, i: nat, k: nat, count: nat)
    requires Valid(ct) && i < |ct.racks| && k < |ct.racks[i].nodes| && count <= |ct.racks[i].nodes|
    requires ct.racks[i].nvlinkDomain == "" && PoolOf(ct, ct.racks[i].nodes[k]).nvlink != NO_NVLINK
    ensures CountGPUs(RackNodes(ct, load, ct.racks[i])[..count], ct.racks[i].nodes[k].name) ==
              if k < count then PoolOf(ct, ct.racks[i].nodes[k]).gpuCount else 0
  {
    if count > 0 {
      OwnNode(ct, load, i, k, count - 1);
      var nodes := RackNodes(ct, load, ct.racks[i]);
      NodeShape(ct, load, i, count - 1, nodes[count - 1]);
      NodeShape(ct, load, i, k, nodes[k]);
      assert nodes[..count][..count - 1] == nodes[..count - 1];
      if k != count - 1 {
        NamesDifferInRack(ct.racks, i, k, count - 1);
      }
    }
  }

  /** Inside its own rack the peer count of a node is always right. */
  lemma {:induction false} PeersWithinRack(ct: ClusterTopology, load: Loader, i: nat, k: nat, n: ResolvedNode, g: nat)
    requires Valid(ct) && From(ct, load, i, k, n) && n.nvlinkDomain != "" && g < |n.gpus|
    ensures n.gpus[g].nvlinkPeers == RackCount(ct, load, ct.racks[i], n.nvlinkDomain) - 1
  {
    var rack := ct.racks[i];
    var count := |rack.nodes|;
    assert rack.nodes[..count] == rack.nodes;
    assert RackNodes(ct, load, rack)[..count] == RackNodes(ct, load, rack);
    if rack.nvlinkDomain != "" {
      WholeRack(ct, load, i, count);
    } else {
      OwnNode(ct, load, i, k, count);
    }
  }

  /** What each rack contributes to a domain. */
  function RackCounts(ct: ClusterTopology, load: Loader, domain: string): seq<nat> {
    seq(|ct.racks|, i requires 0 <= i < |ct.racks| => RackCount(ct, load, ct.racks[i], domain))
  }

  function Total(counts: seq<nat>): nat {
    if counts == [] then 0 else Total(counts[..|counts| - 1]) + counts[|counts| - 1]
  }

  lemma {:induction false} CountIsTotal(ct: ClusterTopology, load: Loader, count: nat, domain: string)
    requires count <= |ct.racks|
    ensures CountGPUs(Expanded(ct, load, ct.racks[..count]), domain) == Total(RackCounts(ct, load, domain)[..count])
  {
    if count > 0 {
      CountIsTotal(ct, load, count - 1, domain);
      ExpandedSnoc(ct, load, count - 1);
      CountConcat(Expanded(ct, load, ct.racks[..count - 1]), RackNodes(ct, load, ct.racks[count - 1]), domain);
      var counts := RackCounts(ct, load, domain);
      assert counts[..count][..count - 1] == counts[..count - 1];
    }
  }

  /** A total is at least any one entry, is that entry when the others are zero, and is more
      when another is not. */
  lemma {:induction false} TotalAround(counts: seq<nat>, i: nat)
    requires i < |counts|
    ensures Total(counts) >= counts[i]
    ensures Total(counts) == counts[i] <==> forall j :: 0 <= j < |counts| && j != i ==> counts[j] == 0
  {
    var front, last := counts[..|counts| - 1], counts[|counts| - 1];
    assert counts == front + [last];
    if i < |front| {
      TotalAround(front, i);
    } else {
      TotalOfNone(front);
    }
  }

  lemma {:induction false} TotalOfNone(counts: seq<nat>)
    ensures Total(counts) == 0 <==> forall j :: 0 <= j < |counts| ==> counts[j] == 0
  {
    if counts != [] {
      TotalOfNone(counts[..|counts| - 1]);
    }
  }

  /** A rack's own count is the whole count when and only when its domain stays in it. */
  lemma {:induction false} CountedInRack(ct: ClusterTopology, load: Loader, i: nat, domain: string)
    requires Valid(ct) && i < |ct.racks|
    ensures CountGPUs(Expanded(ct, load, ct.racks), domain) == RackCount(ct, load, ct.racks[i], domain) <==>
              forall j :: 0 <= j < |ct.racks| && j != i ==> !InDomain(ct, j, domain)
  {
    var counts := RackCounts(ct, load, domain);
    assert ct.racks[..|ct.racks|] == ct.racks && counts[..|counts|] == counts;
    CountIsTotal(ct, load, |ct.racks|, domain);
    TotalAround(counts, i);
    forall j | 0 <= j < |ct.racks|
      ensures counts[j] == 0 <==> !InDomain(ct, j, domain)
    {
      RackCountPositive(ct, load, j, domain);
    }
  }

  lemma {:induction false} NodeInDomain(ct: ClusterTopology, load: Loader, i: nat, k: nat, n: ResolvedNode)
    requires From(ct, load, i, k, n)
    ensures InDomain(ct, i, n.nvlinkDomain)
  {
    assert DomainAt(ct, ct.racks[i], ct.racks[i].nodes[k]) == n.nvlinkDomain;
  }

  lemma {:induction false} SharedIsInexact(ct: ClusterTopology, load: Loader, i: nat, j: nat, domain: string)
    requires Valid(ct) && i != j && domain != "" && InDomain(ct, i, domain) && InDomain(ct, j, domain)
    ensures !PeersAreExact(Expanded(ct, load, ct.racks))
  {
    assert ct.racks[..|ct.racks|] == ct.racks;
    var k: nat :| k < |ct.racks[i].nodes| && DomainAt(ct, ct.racks[i], ct.racks[i].nodes[k]) == domain;
    var n := NodeOf(ct, load, ct.racks[i], ct.racks[i].nodes[k]);
    assert From(ct, load, i, k, n) && n.nvlinkDomain == domain;
    NodeShape(ct, load, i, k, n);
    ExpandedHas(ct, load, |ct.racks|, i, k);
    PeersWithinRack(ct, load, i, k, n, 0);
    CountedInRack(ct, load, i, domain);
    assert n.gpus[0].nvlinkPeers != CountGPUs(Expanded(ct, load, ct.racks), domain) - 1;
  }

  /** Peer counts are right over the whole cluster when and only when no NVLink domain spans
      two racks: the assumption the source states in a comment and does not validate. */
  lemma {:induction false} PeersExactUnlessShared(ct: ClusterTopology, load: Loader)
    requires Valid(ct)
    ensures PeersAreExact(Expanded(ct, load, ct.racks)) <==> !SharesDomain(ct)
  {
    var nodes := Expanded(ct, load, ct.racks);
    assert ct.racks[..|ct.racks|] == ct.racks;
    if !SharesDomain(ct) {
      forall n, g | n in nodes && n.nvlinkDomain != "" && 0 <= g < |n.gpus|
        ensures n.gpus[g].nvlinkPeers == CountGPUs(nodes, n.nvlinkDomain) - 1
      {
        var i, k := ExpandedFrom(ct, load, |ct.racks|, n);
        PeersWithinRack(ct, load, i, k, n, g);
        NodeInDomain(ct, load, i, k, n);
        CountedInRack(ct, load, i, n.nvlinkDomain);
      }
    }
    if i, j, domain :| i != j && domain != "" && InDomain(ct, i, domain) && InDomain(ct, j, domain) {
      SharedIsInexact(ct, load, i, j, domain);
    }
  }
}
