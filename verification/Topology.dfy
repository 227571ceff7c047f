/** The cluster topology document: what it may say, and what it expands into. */
module Topology {
  import opened Options
  import opened Profiles

  const API_VERSION := "gpu-sim.io/v1alpha1"
  const KIND := "ClusterTopology"
  const FULL_MESH := "full-mesh"
  const NO_NVLINK := "none"

  datatype MIGConfig = MIGConfig(enabled: bool, profiles: seq<string>)

  datatype NodePool = NodePool(profile: string, gpuCount: int, nvlink: string, mig: Option<MIGConfig>)

  datatype Node = Node(name: string, pool: string)

  datatype Rack = Rack(name: string, faultDomain: string, nvlinkDomain: string, nodes: seq<Node>)

  datatype ClusterTopology = ClusterTopology(
    apiVersion: string,
    kind: string,
    name: string,
    nodePools: map<string, NodePool>,
    racks: seq<Rack>)

  predicate MIGEnabled(p: NodePool) {
    p.mig.Some? && p.mig.value.enabled
  }

  // ---------------------------------------------------------------- validation

  datatype Problem =
    | WrongVersion | WrongKind | Unnamed | NoPools | NoRacks
    | PoolWithoutProfile | PoolWithoutGPUs | UnknownMIG | BadNVLink
    | RackUnnamed | RackRepeated | RackWithoutFaultDomain | RackWithoutNodes
    | NodeUnnamed | NodeRepeated | UndefinedPool
    | DomainWithoutNVLink

  predicate MIGSelectable(p: NodePool) {
    MIGEnabled(p) ==>
      GeometryFor(p.profile).Some? && SelectProfiles(GeometryFor(p.profile).value, p.mig.value.profiles).Some?
  }

  ghost predicate ValidPool(p: NodePool) {
    p.profile != "" && p.gpuCount > 0 && MIGSelectable(p) && (p.nvlink == FULL_MESH || p.nvlink == NO_NVLINK)
  }

  method ValidatePool(p: NodePool) returns (errs: seq<Problem>)
    ensures errs == [] <==> ValidPool(p)
    ensures (PoolWithoutProfile in errs <==> p.profile == "") && (PoolWithoutGPUs in errs <==> p.gpuCount < 1)
            && (BadNVLink in errs <==> p.nvlink !in ["full-mesh", "none"])
            && (UnknownMIG in errs <==>
                  p.mig.Some? && p.mig.value.enabled
                  && (GeometryFor(p.profile).None?
                      || SelectProfiles(GeometryFor(p.profile).value, p.mig.value.profiles).None?))
    ensures forall e :: e in errs ==> e in [PoolWithoutProfile, PoolWithoutGPUs, BadNVLink, UnknownMIG]
  {
    errs := [];
    if p.profile == "" {
      errs := errs + [PoolWithoutProfile];
    }
    if p.gpuCount <= 0 {
      errs := errs + [PoolWithoutGPUs];
    }
    if MIGEnabled(p) {
      var geometry := GeometryFor(p.profile);
      if geometry.None? {
        errs := errs + [UnknownMIG];
      } else {
        var selected := Select(geometry.value, p.mig.value.profiles);
        if selected.None? {
          errs := errs + [UnknownMIG];
        }
      }
    }
    if p.nvlink != FULL_MESH && p.nvlink != NO_NVLINK {
      errs := errs + [BadNVLink];
    }
  }

  function NamesOf(nodes: seq<Node>): seq<string> {
    seq(|nodes|, i requires 0 <= i < |nodes| => nodes[i].name)
  }

  /** Every node name of the document, in rack order. */
  function NodeNames(racks: seq<Rack>): seq<string> {
    if racks == [] then []
    else NodeNames(racks[..|racks| - 1]) + NamesOf(racks[|racks| - 1].nodes)
  }

  ghost predicate Distinct<T>(s: seq<T>) {
    forall i, j :: 0 <= i < j < |s| ==> s[i] != s[j]
  }

  ghost predicate ValidNode(ct: ClusterTopology, node: Node) {
    node.name != "" && node.pool in ct.nodePools
  }

  ghost predicate ValidRack(ct: ClusterTopology, rack: Rack) {
    && rack.name != "" && rack.faultDomain != "" && rack.nodes != []
    && forall k :: 0 <= k < |rack.nodes| ==> ValidNode(ct, rack.nodes[k])
  }

  /** A rack-wide NVLink domain needs NVLink on every node of the rack. */
  ghost predicate NVLinkConsistent(ct: ClusterTopology, rack: Rack) {
    rack.nvlinkDomain != "" ==>
      forall k :: 0 <= k < |rack.nodes| && rack.nodes[k].pool in ct.nodePools ==>
                    ct.nodePools[rack.nodes[k].pool].nvlink != NO_NVLINK
  }

  ghost predicate ValidRacks(ct: ClusterTopology, racks: seq<Rack>) {
    && (forall i :: 0 <= i < |racks| ==> ValidRack(ct, racks[i]))
    && (forall i, j :: 0 <= i < j < |racks| ==> racks[i].name != racks[j].name)
    && Distinct(NodeNames(racks))
  }

  ghost predicate Valid(ct: ClusterTopology) {
    && ct.apiVersion == API_VERSION && ct.kind == KIND && ct.name != ""
    && ct.nodePools != map[] && ct.racks != []
    && (forall name :: name in ct.nodePools ==> ValidPool(ct.nodePools[name]))
    && ValidRacks(ct, ct.racks)
    && (forall i :: 0 <= i < |ct.racks| ==> NVLinkConsistent(ct, ct.racks[i]))
  }

  lemma {:induction false} NodeNamesSnoc(racks: seq<Rack>, i: nat)
    requires i < |racks|
    ensures NodeNames(racks[..i + 1]) == NodeNames(racks[..i]) + NamesOf(racks[i].nodes)
  {
    assert racks[..i + 1][..i] == racks[..i];
  }

  lemma {:induction false} DistinctSnoc<T>(s: seq<T>, x: T)
    ensures Distinct(s + [x]) <==> Distinct(s) && x !in s
  {
    var t := s + [x];
    if Distinct(t) {
      forall i | 0 <= i < |s|
        ensures s[i] != x
      {
        assert t[i] != t[|s|];
      }
      forall i, j | 0 <= i < j < |s|
        ensures s[i] != s[j]
      {
        assert t[i] != t[j];
      }
    }
  }

  lemma {:induction false} DistinctPrefix<T>(s: seq<T>, t: seq<T>)
    requires Distinct(s + t)
    ensures Distinct(s) && Distinct(t)
  {
    forall i, j | 0 <= i < j < |s|
      ensures s[i] != s[j]
    {
      assert (s + t)[i] != (s + t)[j];
    }
    forall i, j | 0 <= i < j < |t|
      ensures t[i] != t[j]
    {
      assert (s + t)[|s| + i] != (s + t)[|s| + j];
    }
  }

  /** One rack's nodes, checked against every node seen before it. */
  method ValidateNodes(ct: ClusterTopology, rack: Rack, seen: map<string, string>, ghost before: seq<string>)
    returns (errs: seq<Problem>, seen': map<string, string>)
    requires Distinct(before) ==> seen.Keys == set x | x in before
    ensures Distinct(before) ==>
              (errs == [] <==> Distinct(before + NamesOf(rack.nodes)) && forall k :: 0 <= k < |rack.nodes| ==>
                ValidNode(ct, rack.nodes[k]))
    ensures Distinct(before) && errs == [] ==> seen'.Keys == set x | x in before + NamesOf(rack.nodes)
  {
    errs, seen' := [], seen;
    ghost var names := NamesOf(rack.nodes);
    assert before + names[..0] == before;
    for k := 0 to |rack.nodes|
      invariant Distinct(before) ==>
                  (errs == [] <==> Distinct(before + names[..k]) && forall m :: 0 <= m < k ==>
                    ValidNode(ct, rack.nodes[m]))
      invariant Distinct(before) && errs == [] ==> seen'.Keys == set x | x in before + names[..k]
    {
      var node := rack.nodes[k];
      assert before + names[..k + 1] == (before + names[..k]) + [node.name];
      DistinctSnoc(before + names[..k], node.name);
      if node.name == "" {
        errs := errs + [NodeUnnamed];
        continue;
      }
      if node.name in seen' {
        errs := errs + [NodeRepeated];
      }
      seen' := seen'[node.name := rack.name];
      if node.pool !in ct.nodePools {
        errs := errs + [UndefinedPool];
      }
    }
    assert names[..|rack.nodes|] == names;
  }

  method ValidateRacks(ct: ClusterTopology) returns (errs: seq<Problem>)
    ensures errs == [] <==> ValidRacks(ct, ct.racks)
  {
    errs := [];
    var seenNodes: map<string, string> := map[];
    var seenRacks: set<string> := {};
    for i := 0 to |ct.racks|
      invariant errs == [] <==> ValidRacks(ct, ct.racks[..i])
      invariant errs == [] ==> seenNodes.Keys == set x | x in NodeNames(ct.racks[..i])
      invariant forall name :: name in seenRacks <==> name != "" && exists j :: 0 <= j < i && ct.racks[j].name == name
    {
      var rack := ct.racks[i];
      NodeNamesSnoc(ct.racks, i);
      assert ct.racks[..i + 1][..i] == ct.racks[..i];
      RacksSnoc(ct, i);
      if rack.name == "" {
        errs := errs + [RackUnnamed];
        continue;
      }
      ghost var clean := errs == [];
      if rack.name in seenRacks {
        errs := errs + [RackRepeated];
      }
      seenRacks := seenRacks + {rack.name};
      if rack.faultDomain == "" {
        errs := errs + [RackWithoutFaultDomain];
      }
      if |rack.nodes| == 0 {
        errs := errs + [RackWithoutNodes];
      }
      var nodeErrs: seq<Problem>;
      ghost var twice := ["", ""];
      assert twice[0] == twice[1];
      ghost var before := if clean then NodeNames(ct.racks[..i]) else twice;
      nodeErrs, seenNodes := ValidateNodes(ct, rack, seenNodes, before);
      errs := errs + nodeErrs;
    }
    assert ct.racks[..|ct.racks|] == ct.racks;
  }

  /** Adding a rack to valid racks. */
  lemma {:induction false} RacksSnoc(ct: ClusterTopology, i: nat)
    requires i < |ct.racks|
    ensures ValidRacks(ct, ct.racks[..i + 1]) <==>
              && ValidRacks(ct, ct.racks[..i]) && ValidRack(ct, ct.racks[i])
              && (forall j :: 0 <= j < i ==> ct.racks[j].name != ct.racks[i].name)
              && Distinct(NodeNames(ct.racks[..i]) + NamesOf(ct.racks[i].nodes))
  {
    NodeNamesSnoc(ct.racks, i);
    var shorter, longer := ct.racks[..i], ct.racks[..i + 1];
    assert longer == shorter + [ct.racks[i]];
    assert forall j :: 0 <= j < i ==> longer[j] == shorter[j] == ct.racks[j];
    if ValidRacks(ct, longer) {
      DistinctPrefix(NodeNames(shorter), NamesOf(ct.racks[i].nodes));
      assert longer[i] == ct.racks[i];
      forall j | 0 <= j < i
        ensures ValidRack(ct, shorter[j]) && ct.racks[j].name != ct.racks[i].name
      {
        assert shorter[j] == longer[j];
        assert longer[j].name != longer[i].name;
      }
      forall a, b | 0 <= a < b < i
        ensures shorter[a].name != shorter[b].name
      {
        assert longer[a].name != longer[b].name;
      }
    }
  }

  method ValidateNVLink(ct: ClusterTopology) returns (errs: seq<Problem>)
    ensures errs == [] <==> forall i :: 0 <= i < |ct.racks| ==> NVLinkConsistent(ct, ct.racks[i])
  {
    errs := [];
    for i := 0 to |ct.racks|
      invariant errs == [] <==> forall j :: 0 <= j < i ==> NVLinkConsistent(ct, ct.racks[j])
    {
      var rack := ct.racks[i];
      if rack.nvlinkDomain == "" {
        continue;
      }
      ghost var before := errs;
      for k := 0 to |rack.nodes|
        invariant errs == [] <==>
                    && before == []
                    && forall m :: 0 <= m < k && rack.nodes[m].pool in ct.nodePools ==>
                                     ct.nodePools[rack.nodes[m].pool].nvlink != NO_NVLINK
      {
        var node := rack.nodes[k];
        if node.pool !in ct.nodePools {
          continue;
        }
        if ct.nodePools[node.pool].nvlink == NO_NVLINK {
          errs := errs + [DomainWithoutNVLink];
        }
      }
    }
  }

  /** Validation accepts exactly the documents the expansion can rely on. */
  method Validate(ct: ClusterTopology) returns (errs: seq<Problem>)
    ensures errs == [] <==> Valid(ct)
    ensures errs == [] ==>
              ct.apiVersion == "gpu-sim.io/v1alpha1" && ct.kind == "ClusterTopology" && ct.name != ""
              && ct.nodePools != map[] && ct.racks != []
  {
    errs := [];
    if ct.apiVersion != API_VERSION {
      errs := errs + [WrongVersion];
    }
    if ct.kind != KIND {
      errs := errs + [WrongKind];
    }
    if ct.name == "" {
      errs := errs + [Unnamed];
    }
    if |ct.nodePools| == 0 {
      errs := errs + [NoPools];
    }
    if |ct.racks| == 0 {
      errs := errs + [NoRacks];
    }
    ghost var header := errs;
    var names := ct.nodePools.Keys;
    while names != {}
      invariant names <= ct.nodePools.Keys
      invariant errs == [] <==>
                header == [] && forall n :: n in ct.nodePools.Keys - names ==> ValidPool(ct.nodePools[n])
      decreases names
    {
      var name :| name in names;
      var poolErrs := ValidatePool(ct.nodePools[name]);
      ghost var done := ct.nodePools.Keys - names;
      names := names - {name};
      assert ct.nodePools.Keys - names == done + {name};
      errs := errs + poolErrs;
    }
    assert ct.nodePools.Keys - {} == ct.nodePools.Keys;
    var rackErrs := ValidateRacks(ct);
    var linkErrs := ValidateNVLink(ct);
    errs := errs + rackErrs + linkErrs;
  }
}
