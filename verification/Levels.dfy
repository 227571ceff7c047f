/** The topology levels, the labels a node carries for them, and KAI's ordered list of levels. */
module Levels {
  import opened Options
  import opened Resolve
  import opened Resources

  datatype Level = Host | NVLink | RackOf | FaultDomain

  function LevelName(l: Level): string {
    match l
    case Host => "host"
    case NVLink => "nvlink-domain"
    case RackOf => "rack"
    case FaultDomain => "fault-domain"
  }

  /** How a level is read off a node. */
  function LevelValue(l: Level, n: ResolvedNode): string {
    match l
    case Host => n.name
    case NVLink => n.nvlinkDomain
    case RackOf => n.rack
    case FaultDomain => n.faultDomain
  }

  /** The node label that carries a level. */
  function LevelLabel(l: Level): string {
    match l
    case Host => LABEL_HOSTNAME
    case NVLink => LABEL_NVLINK_DOMAIN
    case RackOf => LABEL_RACK
    case FaultDomain => LABEL_FAULT_DOMAIN
  }

  /** The labels of a simulated node; a node without NVLink carries no domain label at all. */
  function NodeLabels(rn: ResolvedNode, topologyName: string): map<string, string> {
    map[LABEL_KWOK_TYPE := "kwok",
        LABEL_NODE_POOL := rn.pool,
        LABEL_MANAGED_BY := MANAGED_BY,
        LABEL_TOPOLOGY := topologyName,
        LABEL_HOSTNAME := rn.name,
        LABEL_OS := "linux",
        LABEL_ARCH := "amd64",
        LABEL_RACK := rn.rack,
        LABEL_FAULT_DOMAIN := rn.faultDomain]
    + (if rn.nvlinkDomain != "" then map[LABEL_NVLINK_DOMAIN := rn.nvlinkDomain] else map[])
  }

  /** The label of a level is the value of the level, and is absent only for a missing domain. */
  lemma {:induction false} LabelCarriesLevel(rn: ResolvedNode, topologyName: string, l: Level)
    ensures LevelLabel(l) in NodeLabels(rn, topologyName) <==> l != NVLink || rn.nvlinkDomain != ""
    ensures LevelLabel(l) in NodeLabels(rn, topologyName) ==>
            NodeLabels(rn, topologyName)[LevelLabel(l)] == LevelValue(l, rn)
    ensures ManagedLabels(NodeLabels(rn, topologyName))
  {
    assert LABEL_HOSTNAME[11] == 'i' && LABEL_OS[11] == 'i' && LABEL_HOSTNAME[14] == 'h' && LABEL_OS[14] == 'o'
           && LABEL_ARCH[14] == 'a';
    assert LABEL_RACK[11] == 'r' && LABEL_FAULT_DOMAIN[11] == 'f' && LABEL_NVLINK_DOMAIN[11] == 'n'
           && LABEL_TOPOLOGY[11] == 't';
    assert LABEL_RACK[0] == 'g' && LABEL_NODE_POOL[0] == 'r' && LABEL_MANAGED_BY[0] == 'a'
           && LABEL_KWOK_TYPE[0] == 't' && LABEL_HOSTNAME[0] == 'k';
  }

  predicate AllHaveNVLink(nodes: seq<ResolvedNode>) {
    nodes != [] && forall i :: 0 <= i < |nodes| ==> nodes[i].nvlinkDomain != ""
  }

  method AllNodesHaveNVLink(nodes: seq<ResolvedNode>) returns (all: bool)
    ensures all == AllHaveNVLink(nodes)
  {
    for i := 0 to |nodes|
      invariant forall k :: 0 <= k < i ==> nodes[k].nvlinkDomain != ""
    {
      if nodes[i].nvlinkDomain == "" {
        return false;
      }
    }
    return |nodes| > 0;
  }

  /** Finest first: what Volcano's tiers group by. */
  function VolcanoLevels(nodes: seq<ResolvedNode>): seq<Level> {
    [Host] + (if AllHaveNVLink(nodes) then [NVLink] else []) + [RackOf, FaultDomain]
  }

  method BuildVolcanoLevels(nodes: seq<ResolvedNode>) returns (levels: seq<Level>)
    ensures levels == VolcanoLevels(nodes)
  {
    levels := [Host];
    var all := AllNodesHaveNVLink(nodes);
    if all {
      levels := levels + [NVLink];
    }
    levels := levels + [RackOf, FaultDomain];
  }

  datatype KAILevel = KAILevel(nodeLabel: string, alias: string)

  function Reversed<T>(s: seq<T>): seq<T> {
    seq(|s|, i requires 0 <= i < |s| => s[|s| - 1 - i])
  }

  /** KAI's levels, coarsest first, are Volcano's tiers read backwards: each names the label of
      the level under the tier's own name, and every node carries that label. */
  method KAITopologyFor(nodes: seq<ResolvedNode>) returns (levels: seq<KAILevel>)
    ensures levels == KAILevels(nodes)
    ensures var tiers := Reversed(VolcanoLevels(nodes));
            && |levels| == |tiers|
            && (forall i :: 0 <= i < |levels| ==> levels[i] == KAILevel(LevelLabel(tiers[i]), LevelName(tiers[i])))
            && (forall i, n, t :: 0 <= i < |levels| && n in nodes ==> levels[i].nodeLabel in NodeLabels(n, t))
  {
    levels := [KAILevel(LABEL_FAULT_DOMAIN, "fault-domain"), KAILevel(LABEL_RACK, "rack")];
    var all := AllNodesHaveNVLink(nodes);
    if all {
      levels := levels + [KAILevel(LABEL_NVLINK_DOMAIN, "nvlink-domain")];
    }
    levels := levels + [KAILevel(LABEL_HOSTNAME, "host")];
    var tiers := Reversed(VolcanoLevels(nodes));
    forall i, n, t | 0 <= i < |levels| && n in nodes
      ensures levels[i].nodeLabel in NodeLabels(n, t)
    {
      LabelCarriesLevel(n, t, tiers[i]);
    }
  }

  function KAILevels(nodes: seq<ResolvedNode>): seq<KAILevel> {
    [KAILevel(LABEL_FAULT_DOMAIN, "fault-domain"), KAILevel(LABEL_RACK, "rack")]
    + (if AllHaveNVLink(nodes) then [KAILevel(LABEL_NVLINK_DOMAIN, "nvlink-domain")] else [])
    + [KAILevel(LABEL_HOSTNAME, "host")]
  }

  /** The node label of a topology level, by the name a scenario gives it; the names are those the
      levels are published under. */
  function LabelForLevel(level: string): Option<string> {
    if level == "fault-domain" then Some(LABEL_FAULT_DOMAIN)
    else if level == "rack" then Some(LABEL_RACK)
    else if level == "nvlink-domain" then Some(LABEL_NVLINK_DOMAIN)
    else if level == "host" then Some(LABEL_HOSTNAME)
    else None
  }

  lemma {:induction false} LevelsByName(name: string)
    ensures LabelForLevel(name).Some? <==> exists l :: LevelName(l) == name
    ensures forall l :: LevelName(l) == name ==> LabelForLevel(name) == Some(LevelLabel(l))
  {
    assert LevelName(FaultDomain) == "fault-domain" && LevelName(RackOf) == "rack";
    assert LevelName(NVLink) == "nvlink-domain" && LevelName(Host) == "host";
  }
}
