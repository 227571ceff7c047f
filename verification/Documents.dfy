/** From the document to the cluster: what the words of a topology file become, field by field, in
    the objects that applying it stores. */
module Documents {
  import opened Topology
  import opened Resolve
  import opened Expansion
  import opened Resources
  import opened Levels
  import opened HyperNodes
  import opened Forest
  import opened Store
  import opened Convergence
  import opened Generating
  import opened Client

  // ---------------------------------------------------------------- tiers and levels

  /** Every node of the document is in a pool with NVLink. */
  ghost predicate AllPoolsHaveNVLink(ct: ClusterTopology) {
    forall i, k :: 0 <= i < |ct.racks| && 0 <= k < |ct.racks[i].nodes| ==> HasNVLink(ct, ct.racks[i].nodes[k])
  }

  ghost predicate HasNVLink(ct: ClusterTopology, node: Node) {
    node.pool in ct.nodePools && ct.nodePools[node.pool].nvlink != "none"
  }

  lemma {:induction false} LinkedAsDeclared(ct: ClusterTopology, load: Loader)
    requires Valid(ct)
    ensures AllHaveNVLink(Expanded(ct, load, ct.racks)) <==> AllPoolsHaveNVLink(ct)
  {
    var nodes := Expanded(ct, load, ct.racks);
    ValidResolves(ct, load);
    assert ct.racks[..|ct.racks|] == ct.racks;
    if AllPoolsHaveNVLink(ct) {
      forall x | 0 <= x < |nodes|
        ensures nodes[x].nvlinkDomain != ""
      {
        assert nodes[x] in nodes;
        var i: nat, k: nat :| From(ct, load, i, k, nodes[x]);
        DomainIsDeclared(ct, load, i, k, nodes[x]);
        ValidPoolAt(ct, i, k);
        assert HasNVLink(ct, ct.racks[i].nodes[k]);
      }
    }
    if AllHaveNVLink(nodes) {
      forall i, k | 0 <= i < |ct.racks| && 0 <= k < |ct.racks[i].nodes|
        ensures HasNVLink(ct, ct.racks[i].nodes[k])
      {
        var n := NodeOf(ct, load, ct.racks[i], ct.racks[i].nodes[k]);
        ExpandedHas(ct, load, |ct.racks|, i, k);
        DomainIsDeclared(ct, load, i, k, n);
        var x :| 0 <= x < |nodes| && nodes[x] == n;
      }
    }
  }

  /** The levels an apply stores: fault domains, racks, NVLink domains where every pool of a node has
      NVLink, and hosts. */
  lemma {:induction false} AppliedLevels(ct: ClusterTopology, load: Loader, before: Cluster, run: ApplyRun,
      after: Cluster)
    requires Valid(ct) && Keyed(before) && IsApply(ct, load, before, run, true, after)
    ensures ct.name in after.topologies
    ensures after.topologies[ct.name] ==
            [KAILevel("gpu-sim.io/fault-domain", "fault-domain"), KAILevel("gpu-sim.io/rack", "rack")]
            + (if AllPoolsHaveNVLink(ct) then [KAILevel("gpu-sim.io/nvlink-domain", "nvlink-domain")] else [])
            + [KAILevel("kubernetes.io/hostname", "host")]
  {
    ApplyMatches(ct, load, before, run, after);
    LinkedAsDeclared(ct, load);
  }

  /** The names of the tiers, finest first. */
  ghost function TierNames(linked: bool): seq<string> {
    ["host"] + (if linked then ["nvlink-domain"] else []) + ["rack", "fault-domain"]
  }

  lemma {:induction false} TiersNamed(nodes: seq<ResolvedNode>)
    ensures |VolcanoLevels(nodes)| == |TierNames(AllHaveNVLink(nodes))|
    ensures forall i :: 0 <= i < |VolcanoLevels(nodes)| ==>
              LevelName(VolcanoLevels(nodes)[i]) == TierNames(AllHaveNVLink(nodes))[i]
  {
  }

  lemma {:induction false} EmittedHas(nodes: seq<ResolvedNode>, hn: HyperNode) returns (i: nat, v: string)
    requires AllValued(nodes) && Emitted(nodes, hn)
    ensures i < |VolcanoLevels(nodes)| && HasValue(nodes, VolcanoLevels(nodes)[i], v)
    ensures hn.tier == i + 1 && hn.tierName == LevelName(VolcanoLevels(nodes)[i])
    ensures hn.name == "gpu-sim-" + hn.tierName + "-" + v && (hn.memberType == NodeMember <==> i == 0)
  {
    i, v :| InTree(nodes, i, v) && hn == At(nodes, i, v);
    InTreeIs(nodes, i, v);
  }

  /** A HyperNode of the tree: which tier it is on, under which name, and what its members are. */
  lemma {:induction false} TreeAsDeclared(ct: ClusterTopology, load: Loader, hn: HyperNode)
    requires Valid(ct) && Emitted(Expanded(ct, load, ct.racks), hn)
    ensures var nodes, tiers := Expanded(ct, load, ct.racks), TierNames(AllPoolsHaveNVLink(ct));
            && 1 <= hn.tier <= |tiers| == |VolcanoLevels(nodes)| && hn.tierName == tiers[hn.tier - 1]
            && (hn.memberType == NodeMember <==> hn.tier == 1)
            && exists v :: HasValue(nodes, VolcanoLevels(nodes)[hn.tier - 1], v)
                 && hn.name == "gpu-sim-" + hn.tierName + "-" + v
  {
    LinkedAsDeclared(ct, load);
    ValidValues(ct, load);
    TiersNamed(Expanded(ct, load, ct.racks));
    var i, v := EmittedHas(Expanded(ct, load, ct.racks), hn);
  }

  // ---------------------------------------------------------------- nodes

  /** The labels of a node, key by key. */
  ghost predicate AreLabels(labels: map<string, string>, name: string, pool: string, rack: string, faultDomain: string,
      topologyName: string)
  {
    && Reads(labels, "gpu-sim.io/rack", rack) && Reads(labels, "gpu-sim.io/fault-domain", faultDomain)
    && Reads(labels, "kubernetes.io/hostname", name) && Reads(labels, "run.ai/simulated-gpu-node-pool", pool)
    && Reads(labels, "gpu-sim.io/topology", topologyName) && Reads(labels, "app.kubernetes.io/managed-by", "gpu-sim")
    && Reads(labels, "type", "kwok") && Reads(labels, "kubernetes.io/os", "linux")
    && Reads(labels, "kubernetes.io/arch", "amd64")
  }

  ghost predicate Reads(labels: map<string, string>, key: string, value: string) {
    key in labels && labels[key] == value
  }

  lemma {:induction false} KeysDiffer()
    ensures LABEL_HOSTNAME != LABEL_OS && LABEL_HOSTNAME != LABEL_ARCH && LABEL_OS != LABEL_ARCH
    ensures LABEL_RACK != LABEL_FAULT_DOMAIN && LABEL_RACK != LABEL_TOPOLOGY && LABEL_FAULT_DOMAIN != LABEL_TOPOLOGY
    ensures LABEL_NVLINK_DOMAIN != LABEL_RACK && LABEL_NVLINK_DOMAIN != LABEL_FAULT_DOMAIN
            && LABEL_NVLINK_DOMAIN != LABEL_TOPOLOGY
  {
    assert LABEL_HOSTNAME[14] == 'h' && LABEL_OS[14] == 'o' && LABEL_ARCH[14] == 'a';
    assert LABEL_RACK[11] == 'r' && LABEL_FAULT_DOMAIN[11] == 'f' && LABEL_NVLINK_DOMAIN[11] == 'n'
           && LABEL_TOPOLOGY[11] == 't';
  }

  lemma {:induction false} FamiliesDiffer()
    ensures LABEL_HOSTNAME[0] == LABEL_OS[0] == LABEL_ARCH[0] == 'k' && LABEL_KWOK_TYPE[0] == 't'
    ensures LABEL_RACK[0] == LABEL_FAULT_DOMAIN[0] == LABEL_TOPOLOGY[0] == LABEL_NVLINK_DOMAIN[0] == 'g'
    ensures LABEL_NODE_POOL[0] == 'r' && LABEL_MANAGED_BY[0] == 'a'
  {
  }

  lemma {:induction false} LabelsAre(rn: ResolvedNode, topologyName: string)
    ensures AreLabels(NodeLabels(rn, topologyName), rn.name, rn.pool, rn.rack, rn.faultDomain, topologyName)
    ensures "gpu-sim.io/nvlink-domain" in NodeLabels(rn, topologyName) <==> rn.nvlinkDomain != ""
    ensures rn.nvlinkDomain != "" ==>
              Reads(NodeLabels(rn, topologyName), "gpu-sim.io/nvlink-domain", rn.nvlinkDomain)
  {
    KeysDiffer();
    FamiliesDiffer();
  }

  /** The label of a node's NVLink domain is there exactly where the pool has NVLink, and is then the
      rack's domain where one is declared, else the node's own name. */
  ghost predicate IsLinkLabelled(ct: ClusterTopology, rack: Rack, node: Node, labels: map<string, string>) {
    && ("gpu-sim.io/nvlink-domain" in labels <==> HasNVLink(ct, node))
    && (HasNVLink(ct, node) ==>
          labels["gpu-sim.io/nvlink-domain"] == if rack.nvlinkDomain != "" then rack.nvlinkDomain else node.name)
  }

  /** The object of a declared node: simulated, kept free of other workloads, and labelled with its
      place. */
  ghost predicate IsNodeDeclared(ct: ClusterTopology, rack: Rack, node: Node, stored: NodeObject) {
    && AreLabels(stored.labels, node.name, node.pool, rack.name, rack.faultDomain, ct.name)
    && IsLinkLabelled(ct, rack, node, stored.labels)
    && stored.annotations == map["kwok.x-k8s.io/node" := "fake"]
    && stored.taints == [Taint("kwok.x-k8s.io/node", "NoSchedule")]
    && stored.status == SimulatedCapacity
  }

  lemma {:induction false} NodeAsDeclared(ct: ClusterTopology, load: Loader, i: nat, k: nat, n: ResolvedNode,
      other: int)
    requires Valid(ct) && From(ct, load, i, k, n)
    ensures IsNodeDeclared(ct, ct.racks[i], ct.racks[i].nodes[k], NodeObjectOf(n, ct.name).(other := other))
  {
    NodeShape(ct, load, i, k, n);
    NodeIsDeclared(ct, load, i, k, n);
    DomainIsDeclared(ct, load, i, k, n);
    LabelsAre(n, ct.name);
  }

  /** Every node of the document is stored as it declares it. */
  lemma {:induction false} AppliedNode(ct: ClusterTopology, load: Loader, before: Cluster, run: ApplyRun,
      after: Cluster, i: nat, k: nat)
    requires Valid(ct) && Keyed(before) && IsApply(ct, load, before, run, true, after)
    requires i < |ct.racks| && k < |ct.racks[i].nodes|
    ensures var rack, node := ct.racks[i], ct.racks[i].nodes[k];
            node.name in after.nodes && IsNodeDeclared(ct, rack, node, after.nodes[node.name])
  {
    ApplyMatches(ct, load, before, run, after);
    NodesStored(ct, load, before, after, WantOf(ct, load, run), i, k);
  }

  lemma {:induction false} NodesStored(ct: ClusterTopology, load: Loader, before: Cluster, after: Cluster,
      want: Desired, i: nat, k: nat)
    requires Valid(ct) && i < |ct.racks| && k < |ct.racks[i].nodes|
    requires want.nodes == Nodes(Expanded(ct, load, ct.racks), ct.name) && NodesAsGenerated(before, after, want)
    ensures var rack, node := ct.racks[i], ct.racks[i].nodes[k];
            node.name in after.nodes && IsNodeDeclared(ct, rack, node, after.nodes[node.name])
  {
    var nodes := Expanded(ct, load, ct.racks);
    var n := NodeOf(ct, load, ct.racks[i], ct.racks[i].nodes[k]);
    assert ct.racks[..|ct.racks|] == ct.racks;
    ExpandedHas(ct, load, |ct.racks|, i, k);
    var x :| 0 <= x < |nodes| && nodes[x] == n;
    StoredNode(before, after, want, nodes, ct.name, x);
    NodeAsDeclared(ct, load, i, k, n, after.nodes[n.name].other);
  }

  lemma {:induction false} StoredNode(before: Cluster, after: Cluster, want: Desired, nodes: seq<ResolvedNode>,
      topologyName: string, x: nat)
    requires want.nodes == Nodes(nodes, topologyName) && NodesAsGenerated(before, after, want) && x < |nodes|
    ensures nodes[x].name in after.nodes
    ensures after.nodes[nodes[x].name] ==
            NodeObjectOf(nodes[x], topologyName).(other := after.nodes[nodes[x].name].other)
  {
    assert want.nodes[x] == NamedNode(nodes[x].name, NodeObjectOf(nodes[x], topologyName));
  }
}
