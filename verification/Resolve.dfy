/** Expanding a topology into per-node and per-GPU facts. */
module Resolve {
  import opened Options
  import opened Profiles
  import opened Partitions
  import opened Topology

  /** A GPU profile document, of which the model keeps the bus address of each device. */
  datatype GpuProfile = GpuProfile(busIDs: seq<string>)

  type Loader = string -> Option<GpuProfile>

  datatype ResolvedMIG = ResolvedMIG(geometry: Geometry, profiles: seq<Profile>)

  datatype ResolvedGPU = ResolvedGPU(
    index: nat,
    busID: string,
    nvlinkDomain: string,
    nvlinkPeers: int,
    faultDomain: string,
    partitions: seq<Partition>)

  datatype ResolvedNode = ResolvedNode(
    name: string,
    pool: string,
    rack: string,
    faultDomain: string,
    nvlinkDomain: string,
    mig: Option<ResolvedMIG>,
    gpus: seq<ResolvedGPU>)

  datatype Resolved = Resolved(name: string, nodes: seq<ResolvedNode>)

  datatype ResolveError = ProfileNotLoaded | MIGNotModelled(node: string)

  // ---------------------------------------------------------------- NVLink

  /** The domain a node's GPUs belong to, and how many peers each reaches over NVLink. */
  function NvlinkFor(pool: NodePool, rack: Rack, nodeName: string, rackGPUs: int): (string, int) {
    if pool.nvlink == NO_NVLINK then ("", 0)
    else if rack.nvlinkDomain != "" then (rack.nvlinkDomain, rackGPUs - 1)
    else (nodeName, pool.gpuCount - 1)
  }

  /** A pool looked up by name; an absent one reads as the zero value. */
  function PoolOf(ct: ClusterTopology, node: Node): NodePool {
    if node.pool in ct.nodePools then ct.nodePools[node.pool] else NodePool("", 0, "", None)
  }

  function GpusOn(ct: ClusterTopology, nodes: seq<Node>): int {
    if nodes == [] then 0 else GpusOn(ct, nodes[..|nodes| - 1]) + PoolOf(ct, nodes[|nodes| - 1]).gpuCount
  }

  method GpusInRack(ct: ClusterTopology, rack: Rack) returns (total: int)
    ensures total == GpusOn(ct, rack.nodes)
  {
    total := 0;
    for k := 0 to |rack.nodes|
      invariant total == GpusOn(ct, rack.nodes[..k])
    {
      total := total + PoolOf(ct, rack.nodes[k]).gpuCount;
      assert rack.nodes[..k + 1][..k] == rack.nodes[..k];
    }
    assert rack.nodes[..|rack.nodes|] == rack.nodes;
  }

  // ---------------------------------------------------------------- one node

  function MIGOf(pool: NodePool): (r: Option<ResolvedMIG>)
    ensures r.Some? ==> AllPositive(r.value.profiles) && r.value.profiles != []
  {
    if !MIGEnabled(pool) || !MIGSelectable(pool) then None
    else
      var g := GeometryFor(pool.profile).value;
      SupportedWellShaped(pool.profile);
      NamedExact(g, pool.mig.value.profiles);
      Some(ResolvedMIG(g, SelectProfiles(g, pool.mig.value.profiles).value))
  }

  function ProfileOf(load: Loader, pool: NodePool): GpuProfile {
    match load(pool.profile)
    case Some(p) => p
    case None => GpuProfile([])
  }

  /** A profile with fewer devices than GPUs repeats. */
  function BusID(profile: GpuProfile, i: nat): string {
    if profile.busIDs == [] then "" else profile.busIDs[i % |profile.busIDs|]
  }

  function GpuOf(profile: GpuProfile, link: (string, int), faultDomain: string, mig: Option<ResolvedMIG>,
      i: nat): ResolvedGPU
    requires mig.Some? ==> AllPositive(mig.value.profiles)
  {
    ResolvedGPU(i, BusID(profile, i), link.0, link.1, faultDomain,
      if mig.None? then [] else PartitionsFor(mig.value.geometry, mig.value.profiles, i))
  }

  function GpusOf(profile: GpuProfile, link: (string, int), faultDomain: string, mig: Option<ResolvedMIG>,
      count: int): seq<ResolvedGPU>
    requires mig.Some? ==> AllPositive(mig.value.profiles)
  {
    seq(if count > 0 then count else 0, i requires i >= 0 => GpuOf(profile, link, faultDomain, mig, i))
  }

  /** One node of the expansion. */
  function NodeOf(ct: ClusterTopology, load: Loader, rack: Rack, node: Node): ResolvedNode {
    var pool := PoolOf(ct, node);
    var link := NvlinkFor(pool, rack, node.name, GpusOn(ct, rack.nodes));
    var mig := MIGOf(pool);
    ResolvedNode(node.name, node.pool, rack.name, rack.faultDomain, link.0, mig,
      GpusOf(ProfileOf(load, pool), link, rack.faultDomain, mig, pool.gpuCount))
  }

  method ExpandGPUs(profile: GpuProfile, link: (string, int), faultDomain: string, mig: Option<ResolvedMIG>, count: int)
    returns (gpus: seq<ResolvedGPU>)
    requires profile.busIDs != [] && (mig.Some? ==> AllPositive(mig.value.profiles))
    ensures gpus == GpusOf(profile, link, faultDomain, mig, count)
  {
    gpus := [];
    var i := 0;
    while i < count
      invariant 0 <= i <= if count > 0 then count else 0
      invariant gpus == GpusOf(profile, link, faultDomain, mig, i)
    {
      var partitions: seq<Partition> := [];
      if mig.Some? {
        partitions := EnumeratePartitions(mig.value.geometry, mig.value.profiles, i);
      }
      var bus := profile.busIDs[i % |profile.busIDs|];
      gpus := gpus + [ResolvedGPU(i, bus, link.0, link.1, faultDomain, partitions)];
      i := i + 1;
    }
    assert gpus == GpusOf(profile, link, faultDomain, mig, count);
  }

  method ExpandNode(ct: ClusterTopology, load: Loader, rack: Rack, node: Node, rackGPUs: int)
    returns (r: Result<ResolvedNode, ResolveError>)
    requires ProfileOf(load, PoolOf(ct, node)).busIDs != [] && rackGPUs == GpusOn(ct, rack.nodes)
    ensures r == if MIGSelectable(PoolOf(ct, node)) then Ok(NodeOf(ct, load, rack,
            node)) else Err(MIGNotModelled(node.name))
  {
    var pool := PoolOf(ct, node);
    var link := NvlinkFor(pool, rack, node.name, rackGPUs);
    var mig: Option<ResolvedMIG> := None;
    if MIGEnabled(pool) {
      var geometry := GeometryFor(pool.profile);
      if geometry.None? {
        return Err(MIGNotModelled(node.name));
      }
      var selected := Select(geometry.value, pool.mig.value.profiles);
      if selected.None? {
        return Err(MIGNotModelled(node.name));
      }
      mig := Some(ResolvedMIG(geometry.value, selected.value));
      assert mig == MIGOf(pool);
    }
    var gpus := ExpandGPUs(ProfileOf(load, pool), link, rack.faultDomain, mig, pool.gpuCount);
    return Ok(ResolvedNode(node.name, node.pool, rack.name, rack.faultDomain, link.0, mig, gpus));
  }

  // ---------------------------------------------------------------- the cluster

  ghost predicate Loads(ct: ClusterTopology, load: Loader) {
    forall name :: name in ct.nodePools ==> load(ct.nodePools[name].profile).Some?
  }

  /** Parsing a GPU profile refuses one that lists no device. */
  ghost predicate DevicesListed(ct: ClusterTopology, load: Loader) {
    forall name :: name in ct.nodePools && load(ct.nodePools[name].profile).Some? ==>
      load(ct.nodePools[name].profile).value.busIDs != []
  }

  ghost predicate PoolsDefined(ct: ClusterTopology) {
    forall i, k :: 0 <= i < |ct.racks| && 0 <= k < |ct.racks[i].nodes| ==> ct.racks[i].nodes[k].pool in ct.nodePools
  }

  function RackNodes(ct: ClusterTopology, load: Loader, rack: Rack): seq<ResolvedNode> {
    seq(|rack.nodes|, k requires 0 <= k < |rack.nodes| => NodeOf(ct, load, rack, rack.nodes[k]))
  }

  function Expanded(ct: ClusterTopology, load: Loader, racks: seq<Rack>): seq<ResolvedNode> {
    if racks == [] then []
    else Expanded(ct, load, racks[..|racks| - 1]) + RackNodes(ct, load, racks[|racks| - 1])
  }

  /** The first node whose MIG layout is not known. */
  function FirstUnmodelled(ct: ClusterTopology, nodes: seq<Node>): Option<string> {
    if nodes == [] then None
    else if !MIGSelectable(PoolOf(ct, nodes[0])) then Some(nodes[0].name)
    else FirstUnmodelled(ct, nodes[1..])
  }

  function NodesOf(racks: seq<Rack>): seq<Node> {
    if racks == [] then [] else racks[0].nodes + NodesOf(racks[1..])
  }

  lemma {:induction false} UnmodelledAt(ct: ClusterTopology, front: seq<Node>, node: Node, rest: seq<Node>)
    requires forall k :: 0 <= k < |front| ==> MIGSelectable(PoolOf(ct, front[k]))
    requires !MIGSelectable(PoolOf(ct, node))
    ensures FirstUnmodelled(ct, front + [node] + rest) == Some(node.name)
  {
    var all := front + [node] + rest;
    if front != [] {
      assert all[1..] == front[1..] + [node] + rest;
      UnmodelledAt(ct, front[1..], node, rest);
    }
  }

  lemma {:induction false} AllModelled(ct: ClusterTopology, nodes: seq<Node>)
    ensures FirstUnmodelled(ct, nodes) == None <==> forall k :: 0 <= k < |nodes| ==> MIGSelectable(PoolOf(ct, nodes[k]))
  {
    if nodes != [] {
      AllModelled(ct, nodes[1..]);
      assert forall k :: 0 < k < |nodes| ==> nodes[k] == nodes[1..][k - 1];
    }
  }

  lemma {:induction false} NodesOfSplit(racks: seq<Rack>, i: nat)
    requires i < |racks|
    ensures NodesOf(racks) == NodesOf(racks[..i]) + racks[i].nodes + NodesOf(racks[i + 1..])
  {
    if i > 0 {
      NodesOfSplit(racks[1..], i - 1);
      assert racks[1..][..i - 1] == racks[..i][1..];
      assert racks[1..][i..] == racks[i + 1..];
    } else {
      assert racks[..0] == [];
    }
  }

  lemma {:induction false} NodesOfSnoc(racks: seq<Rack>, i: nat)
    requires i < |racks|
    ensures NodesOf(racks[..i + 1]) == NodesOf(racks[..i]) + racks[i].nodes
  {
    NodesOfSplit(racks[..i + 1], i);
    assert racks[..i + 1][..i] == racks[..i] && racks[..i + 1][i + 1..] == [];
  }

  ghost predicate Modelled(ct: ClusterTopology, nodes: seq<Node>) {
    forall k :: 0 <= k < |nodes| ==> MIGSelectable(PoolOf(ct, nodes[k]))
  }

  method LoadProfiles(ct: ClusterTopology, load: Loader) returns (ok: bool)
    ensures ok <==> forall name :: name in ct.nodePools ==> load(ct.nodePools[name].profile).Some?
  {
    var names := ct.nodePools.Keys;
    while names != {}
      invariant names <= ct.nodePools.Keys
      invariant forall n :: n in ct.nodePools.Keys - names ==> load(ct.nodePools[n].profile).Some?
      decreases names
    {
      var name :| name in names;
      if load(ct.nodePools[name].profile).None? {
        return false;
      }
      names := names - {name};
    }
    return true;
  }

  /** One rack: its nodes in order, or the first that stops the expansion. */
  method ExpandRack(ct: ClusterTopology, load: Loader, rack: Rack) returns (r: Result<seq<ResolvedNode>,
      ResolveError>, ghost stop: nat)
    requires forall k :: 0 <= k < |rack.nodes| ==> ProfileOf(load, PoolOf(ct, rack.nodes[k])).busIDs != []
    ensures r.Ok? ==> r.value == RackNodes(ct, load, rack) && Modelled(ct, rack.nodes)
    ensures r.Err? ==>
              && stop < |rack.nodes| && Modelled(ct, rack.nodes[..stop])
              && !MIGSelectable(PoolOf(ct, rack.nodes[stop]))
              && r.error == MIGNotModelled(rack.nodes[stop].name)
  {
    stop := 0;
    var rackGPUs := GpusInRack(ct, rack);
    var nodes: seq<ResolvedNode> := [];
    for k := 0 to |rack.nodes|
      invariant nodes == RackNodes(ct, load, rack)[..k]
      invariant Modelled(ct, rack.nodes[..k])
    {
      var rn := ExpandNode(ct, load, rack, rack.nodes[k], rackGPUs);
      match rn {
        case Err(e) => return Err(e), k;
        case Ok(n) => nodes := nodes + [n];
      }
    }
    assert RackNodes(ct, load, rack)[..|rack.nodes|] == RackNodes(ct, load, rack);
    assert rack.nodes[..|rack.nodes|] == rack.nodes;
    return Ok(nodes), 0;
  }

  lemma {:induction false} StoppedAt(ct: ClusterTopology, i: nat, stop: nat)
    requires i < |ct.racks| && stop < |ct.racks[i].nodes|
    requires Modelled(ct, NodesOf(ct.racks[..i])) && Modelled(ct, ct.racks[i].nodes[..stop])
    requires !MIGSelectable(PoolOf(ct, ct.racks[i].nodes[stop]))
    ensures FirstUnmodelled(ct, NodesOf(ct.racks)) == Some(ct.racks[i].nodes[stop].name)
  {
    NodesOfSplit(ct.racks, i);
    var nodes := ct.racks[i].nodes;
    var front, rest := NodesOf(ct.racks[..i]) + nodes[..stop], nodes[stop + 1..] + NodesOf(ct.racks[i + 1..]);
    assert NodesOf(ct.racks) == front + [nodes[stop]] + rest;
    UnmodelledAt(ct, front, nodes[stop], rest);
  }

  /** The expansion: every profile is loaded first, then the racks are walked in order and the
      first node whose MIG layout is unknown stops it. */
  method Resolve(ct: ClusterTopology, load: Loader) returns (r: Result<Resolved, ResolveError>)
    requires PoolsDefined(ct) && DevicesListed(ct, load)
    ensures (exists name :: name in ct.nodePools && load(ct.nodePools[name].profile).None?) ==>
              r == Err(ProfileNotLoaded)
    ensures (forall name :: name in ct.nodePools ==> load(ct.nodePools[name].profile).Some?) ==>
              match FirstUnmodelled(ct, NodesOf(ct.racks))
              case Some(name) => r == Err(MIGNotModelled(name))
              case None => r == Ok(Resolved(ct.name, Expanded(ct, load, ct.racks)))
  {
    var loaded := LoadProfiles(ct, load);
    if !loaded {
      return Err(ProfileNotLoaded);
    }
    var nodes: seq<ResolvedNode> := [];
    for i := 0 to |ct.racks|
      invariant nodes == Expanded(ct, load, ct.racks[..i])
      invariant Modelled(ct, NodesOf(ct.racks[..i]))
    {
      NodesOfSnoc(ct.racks, i);
      assert ct.racks[..i + 1][..i] == ct.racks[..i];
      var rackNodes, stop := ExpandRack(ct, load, ct.racks[i]);
      match rackNodes {
        case Err(e) =>
          StoppedAt(ct, i, stop);
          return Err(e);
        case Ok(more) =>
          nodes := nodes + more;
      }
    }
    assert ct.racks[..|ct.racks|] == ct.racks;
    AllModelled(ct, NodesOf(ct.racks));
    return Ok(Resolved(ct.name, nodes));
  }
}
