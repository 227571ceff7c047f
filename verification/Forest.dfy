/** When the HyperNodes form a forest, and what its leaves are. */
module Forest {
  import opened Names
  import opened Topology
  import opened Resolve
  import opened Expansion
  import opened Levels
  import opened HyperNodes
  import opened Sorting

  // ---------------------------------------------------------------- hierarchy

  /** Every level of the tree has a value on every node. */
  ghost predicate AllValued(nodes: seq<ResolvedNode>) {
    forall n, l :: n in nodes && l in VolcanoLevels(nodes) ==> LevelValue(l, n) != ""
  }

  /** Nodes that share a value of one level share their value of the level above it. */
  ghost predicate Determines(nodes: seq<ResolvedNode>, lower: Level, upper: Level) {
    forall a, b :: a in nodes && b in nodes && LevelValue(lower, a) == LevelValue(lower, b) ==>
      LevelValue(upper, a) == LevelValue(upper, b)
  }

  ghost predicate Hierarchical(nodes: seq<ResolvedNode>) {
    var levels := VolcanoLevels(nodes);
    && AllValued(nodes)
    && forall i :: 0 <= i < |levels| - 1 ==> Determines(nodes, levels[i], levels[i + 1])
  }

  // ---------------------------------------------------------------- members

  /** The nodes with a value at a level. */
  ghost predicate HasValue(nodes: seq<ResolvedNode>, l: Level, v: string) {
    exists n :: n in nodes && LevelValue(l, n) == v
  }

  lemma {:induction false} MembersAre(nodes: seq<ResolvedNode>, levels: seq<Level>, i: nat, v: string, m: string)
    requires i < |levels|
    ensures m in Members(nodes, levels, i, v) <==>
              exists n :: n in nodes && v != "" && LevelValue(levels[i], n) == v
                && if i == 0 then m == n.name
                   else
                     && LevelValue(levels[i - 1], n) != ""
                     && m == HyperNodeName(LevelName(levels[i - 1]), LevelValue(levels[i - 1], n))
  {
    if nodes != [] {
      MembersAre(nodes[..|nodes| - 1], levels, i, v, m);
      assert nodes == nodes[..|nodes| - 1] + [nodes[|nodes| - 1]];
    }
  }

  /** A HyperNode is emitted for every value that occurs, and for no other. */
  lemma {:induction false} InTreeIs(nodes: seq<ResolvedNode>, i: nat, v: string)
    requires AllValued(nodes) && i < |VolcanoLevels(nodes)|
    ensures InTree(nodes, i, v) <==> HasValue(nodes, VolcanoLevels(nodes)[i], v)
  {
    var levels := VolcanoLevels(nodes);
    if InTree(nodes, i, v) {
      var m := Members(nodes, levels, i, v)[0];
      assert m in Members(nodes, levels, i, v);
      MembersAre(nodes, levels, i, v, m);
    }
    if n :| n in nodes && LevelValue(levels[i], n) == v {
      assert levels[i] in levels;
      var m := if i == 0 then n.name else HyperNodeName(LevelName(levels[i - 1]), LevelValue(levels[i - 1], n));
      assert i > 0 ==> levels[i - 1] in levels;
      MembersAre(nodes, levels, i, v, m);
    }
  }

  lemma {:induction false} SortedMembers(nodes: seq<ResolvedNode>, i: nat, v: string, m: string)
    requires i < |VolcanoLevels(nodes)|
    ensures m in At(nodes, i, v).members <==> m in Members(nodes, VolcanoLevels(nodes), i, v)
  {
    var members := Members(nodes, VolcanoLevels(nodes), i, v);
    SortPermutes(LexLe, members);
    InSameBag(Sort(LexLe, members), members, m);
  }

  /** No member is listed twice. */
  lemma {:induction false} MembersOnce(nodes: seq<ResolvedNode>, levels: seq<Level>, i: nat, v: string)
    requires i < |levels| && Distinct(ResolvedNames(nodes))
    ensures Distinct(Members(nodes, levels, i, v))
  {
    if nodes != [] {
      var front, last := nodes[..|nodes| - 1], nodes[|nodes| - 1];
      assert ResolvedNames(nodes) == ResolvedNames(front) + [last.name];
      DistinctSnoc(ResolvedNames(front), last.name);
      MembersOnce(front, levels, i, v);
      MembersAre(front, levels, i, v, last.name);
      forall n | n in front
        ensures n.name in ResolvedNames(front)
      {
        var x :| 0 <= x < |front| && front[x] == n;
        assert ResolvedNames(front)[x] == n.name;
      }
      DistinctSnoc(Members(front, levels, i, v), last.name);
      if i > 0 {
        DistinctSnoc(Members(front, levels, i, v),
          HyperNodeName(LevelName(levels[i - 1]), LevelValue(levels[i - 1], last)));
      }
    }
  }

  lemma {:induction false} LevelNamed(l: Level)
    ensures LevelName(l) in LEVEL_NAMES
  {
    assert LEVEL_NAMES[0] == LevelName(Host) && LEVEL_NAMES[1] == LevelName(NVLink);
    assert LEVEL_NAMES[2] == LevelName(RackOf) && LEVEL_NAMES[3] == LevelName(FaultDomain);
  }

  lemma {:induction false} LevelNameInjective(l: Level, l': Level)
    requires LevelName(l) == LevelName(l')
    ensures l == l'
  {
    assert LevelName(Host)[0] == 'h' && LevelName(NVLink)[0] == 'n' && LevelName(RackOf)[0] == 'r'
           && LevelName(FaultDomain)[0] == 'f';
  }

  /** A HyperNode's name gives back its level and value. */
  lemma {:induction false} NameGivesBack(l: Level, v: string, l': Level, v': string)
    requires HyperNodeName(LevelName(l), v) == HyperNodeName(LevelName(l'), v')
    ensures l == l' && v == v'
  {
    LevelNamed(l);
    LevelNamed(l');
    HyperNodeNameInjective(LevelName(l), v, LevelName(l'), v');
    LevelNameInjective(l, l');
  }

  /** The child of value u sits under value v exactly when some node has both. */
  lemma {:induction false} ChildIs(nodes: seq<ResolvedNode>, i: nat, u: string, j: nat, v: string)
    requires AllValued(nodes) && i < |VolcanoLevels(nodes)| && j < |VolcanoLevels(nodes)|
    ensures var levels := VolcanoLevels(nodes);
            At(nodes, j, v).memberType == HyperNodeMember && At(nodes, i, u).name in At(nodes, j, v).members <==>
              j == i + 1 && exists n :: n in nodes && LevelValue(levels[i], n) == u && LevelValue(levels[j], n) == v
  {
    var levels := VolcanoLevels(nodes);
    var name := At(nodes, i, u).name;
    SortedMembers(nodes, j, v, name);
    MembersAre(nodes, levels, j, v, name);
    if j > 0 && name in Members(nodes, levels, j, v) {
      var n :| n in nodes && v != "" && LevelValue(levels[j], n) == v
        && name == HyperNodeName(LevelName(levels[j - 1]), LevelValue(levels[j - 1], n));
      NameGivesBack(levels[i], u, levels[j - 1], LevelValue(levels[j - 1], n));
      LevelsDiffer(nodes, i, j - 1);
    }
    if j == i + 1 {
      if n :| n in nodes && LevelValue(levels[i], n) == u && LevelValue(levels[j], n) == v {
        assert levels[i] in levels && levels[j] in levels;
      }
    }
  }

  lemma {:induction false} LevelsDiffer(nodes: seq<ResolvedNode>, i: nat, j: nat)
    requires i < |VolcanoLevels(nodes)| && j < |VolcanoLevels(nodes)|
             && VolcanoLevels(nodes)[i] == VolcanoLevels(nodes)[j]
    ensures i == j
  {
  }

  // ---------------------------------------------------------------- forest

  ghost predicate Emitted(nodes: seq<ResolvedNode>, hn: HyperNode) {
    exists i, v :: InTree(nodes, i, v) && hn == At(nodes, i, v)
  }

  ghost predicate ParentOf(parent: HyperNode, child: HyperNode) {
    parent.memberType == HyperNodeMember && child.name in parent.members
  }

  /** Every HyperNode below the top tier has exactly one parent, and it is one tier up; those
      of the top tier have none. */
  ghost predicate IsForest(nodes: seq<ResolvedNode>) {
    && (forall child :: Emitted(nodes, child) && child.tier < |VolcanoLevels(nodes)| ==>
          exists parent :: Emitted(nodes, parent) && ParentOf(parent, child))
    && (forall child, p, q ::
          Emitted(nodes, child) && Emitted(nodes, p) && Emitted(nodes, q) ==>
            (ParentOf(p, child) && ParentOf(q, child) ==> p == q))
    && (forall child, p :: Emitted(nodes, child) && Emitted(nodes, p) && ParentOf(p, child) ==>
      p.tier == child.tier + 1)
  }

  /** Members are always HyperNodes that are emitted, one tier below. */
  lemma {:induction false} MembersAreEmitted(nodes: seq<ResolvedNode>, parent: HyperNode, m: string)
    requires AllValued(nodes) && Emitted(nodes, parent) && parent.memberType == HyperNodeMember && m in parent.members
    ensures exists child :: Emitted(nodes, child) && child.name == m && child.tier + 1 == parent.tier
  {
    var levels := VolcanoLevels(nodes);
    var j: nat, v: string :| InTree(nodes, j, v) && parent == At(nodes, j, v);
    SortedMembers(nodes, j, v, m);
    MembersAre(nodes, levels, j, v, m);
    var n :| n in nodes && v != "" && LevelValue(levels[j], n) == v
      && m == HyperNodeName(LevelName(levels[j - 1]), LevelValue(levels[j - 1], n));
    var u := LevelValue(levels[j - 1], n);
    InTreeIs(nodes, j - 1, u);
    assert HasValue(nodes, levels[j - 1], u);
    assert Emitted(nodes, At(nodes, j - 1, u));
  }

  /** A parent is one tier up, for the value there of some node that has the child's value. */
  lemma {:induction false} ParentIs(nodes: seq<ResolvedNode>, i: nat, u: string, parent: HyperNode)
      returns (n: ResolvedNode)
    requires AllValued(nodes) && InTree(nodes, i, u) && Emitted(nodes, parent) && ParentOf(parent, At(nodes, i, u))
    ensures i + 1 < |VolcanoLevels(nodes)| && n in nodes && LevelValue(VolcanoLevels(nodes)[i], n) == u
    ensures parent == At(nodes, i + 1, LevelValue(VolcanoLevels(nodes)[i + 1], n))
  {
    var levels := VolcanoLevels(nodes);
    var j: nat, v: string :| InTree(nodes, j, v) && parent == At(nodes, j, v);
    ChildIs(nodes, i, u, j, v);
    n :| n in nodes && LevelValue(levels[i], n) == u && LevelValue(levels[j], n) == v;
  }

  lemma {:induction false} ParentsAgree(nodes: seq<ResolvedNode>, child: HyperNode, p: HyperNode, q: HyperNode)
    requires Hierarchical(nodes) && Emitted(nodes, child) && Emitted(nodes, p) && Emitted(nodes, q)
    requires ParentOf(p, child) && ParentOf(q, child)
    ensures p == q && p.tier == child.tier + 1
  {
    var i: nat, u: string :| InTree(nodes, i, u) && child == At(nodes, i, u);
    var a := ParentIs(nodes, i, u, p);
    var b := ParentIs(nodes, i, u, q);
    assert Determines(nodes, VolcanoLevels(nodes)[i], VolcanoLevels(nodes)[i + 1]);
  }

  /** A value that occurs has its HyperNode. */
  lemma {:induction false} ValueIsEmitted(nodes: seq<ResolvedNode>, i: nat, n: ResolvedNode)
    requires AllValued(nodes) && i < |VolcanoLevels(nodes)| && n in nodes
    ensures Emitted(nodes, At(nodes, i, LevelValue(VolcanoLevels(nodes)[i], n)))
  {
    var v := LevelValue(VolcanoLevels(nodes)[i], n);
    assert HasValue(nodes, VolcanoLevels(nodes)[i], v);
    InTreeIs(nodes, i, v);
  }

  lemma {:induction false} ParentExists(nodes: seq<ResolvedNode>, child: HyperNode)
    requires AllValued(nodes) && Emitted(nodes, child) && child.tier < |VolcanoLevels(nodes)|
    ensures exists parent :: Emitted(nodes, parent) && ParentOf(parent, child)
  {
    var levels := VolcanoLevels(nodes);
    var i: nat, u: string :| InTree(nodes, i, u) && child == At(nodes, i, u);
    InTreeIs(nodes, i, u);
    var n :| n in nodes && LevelValue(levels[i], n) == u;
    var v := LevelValue(levels[i + 1], n);
    ValueIsEmitted(nodes, i + 1, n);
    ChildIs(nodes, i, u, i + 1, v);
  }

  lemma {:induction false} HierarchyIsForest(nodes: seq<ResolvedNode>)
    requires Hierarchical(nodes)
    ensures IsForest(nodes)
  {
    forall child | Emitted(nodes, child) && child.tier < |VolcanoLevels(nodes)|
      ensures exists parent :: Emitted(nodes, parent) && ParentOf(parent, child)
    {
      ParentExists(nodes, child);
    }
    forall child, p, q | Emitted(nodes, child) && Emitted(nodes, p) && Emitted(nodes, q) && ParentOf(p, child)
      && ParentOf(q, child)
      ensures p == q
    {
      ParentsAgree(nodes, child, p, q);
    }
    forall child, p | Emitted(nodes, child) && Emitted(nodes, p) && ParentOf(p, child)
      ensures p.tier == child.tier + 1
    {
      ParentsAgree(nodes, child, p, p);
    }
  }

  // ---------------------------------------------------------------- leaves

  /** The node names under a HyperNode, following member names through the emitted objects. */
  ghost function Leaves(out: seq<HyperNode>, hn: HyperNode): set<string>
    decreases hn.tier
  {
    if hn.memberType == NodeMember then set m | m in hn.members
    else
      set child, leaf |
        child in out && child.name in hn.members && child.tier < hn.tier && leaf in Leaves(out, child) :: leaf
  }

  ghost predicate ListsTree(nodes: seq<ResolvedNode>, out: seq<HyperNode>) {
    forall hn :: hn in out <==> Emitted(nodes, hn)
  }

  /** A leaf has the HyperNode's value. */
  lemma {:induction false} LeafHasValue(nodes: seq<ResolvedNode>, out: seq<HyperNode>, i: nat, v: string, leaf: string)
    requires Hierarchical(nodes) && ListsTree(nodes, out) && InTree(nodes, i, v) && leaf in Leaves(out, At(nodes, i, v))
    ensures exists n :: n in nodes && n.name == leaf && LevelValue(VolcanoLevels(nodes)[i], n) == v
    decreases i
  {
    var levels, hn := VolcanoLevels(nodes), At(nodes, i, v);
    if i == 0 {
      SortedMembers(nodes, 0, v, leaf);
      MembersAre(nodes, levels, 0, v, leaf);
    } else {
      var child :| child in out && child.name in hn.members && child.tier < hn.tier && leaf in Leaves(out, child);
      var j: nat, u: string :| InTree(nodes, j, u) && child == At(nodes, j, u);
      ChildIs(nodes, j, u, i, v);
      LeafHasValue(nodes, out, j, u, leaf);
      var n :| n in nodes && n.name == leaf && LevelValue(levels[j], n) == u;
      var m :| m in nodes && LevelValue(levels[j], m) == u && LevelValue(levels[i], m) == v;
      assert Determines(nodes, levels[j], levels[j + 1]);
    }
  }

  /** A node is a leaf under its own value of every level. */
  lemma {:induction false} NodeIsLeaf(nodes: seq<ResolvedNode>, out: seq<HyperNode>, i: nat, n: ResolvedNode)
    requires AllValued(nodes) && ListsTree(nodes, out) && i < |VolcanoLevels(nodes)| && n in nodes
    ensures n.name in Leaves(out, At(nodes, i, LevelValue(VolcanoLevels(nodes)[i], n)))
    decreases i
  {
    var levels := VolcanoLevels(nodes);
    var v := LevelValue(levels[i], n);
    assert levels[i] in levels;
    if i == 0 {
      SortedMembers(nodes, 0, v, n.name);
      MembersAre(nodes, levels, 0, v, n.name);
    } else {
      var u := LevelValue(levels[i - 1], n);
      ValueIsEmitted(nodes, i - 1, n);
      ChildIs(nodes, i - 1, u, i, v);
      NodeIsLeaf(nodes, out, i - 1, n);
      assert At(nodes, i - 1, u) in out;
    }
  }

  /** The leaves under a HyperNode are exactly the nodes that have its value. */
  lemma {:induction false} LeavesAre(nodes: seq<ResolvedNode>, out: seq<HyperNode>, i: nat, v: string, leaf: string)
    requires Hierarchical(nodes) && ListsTree(nodes, out) && InTree(nodes, i, v)
    ensures leaf in Leaves(out, At(nodes, i, v)) <==>
              exists n :: n in nodes && n.name == leaf && LevelValue(VolcanoLevels(nodes)[i], n) == v
  {
    if leaf in Leaves(out, At(nodes, i, v)) {
      LeafHasValue(nodes, out, i, v, leaf);
    }
    if n :| n in nodes && n.name == leaf && LevelValue(VolcanoLevels(nodes)[i], n) == v {
      NodeIsLeaf(nodes, out, i, n);
    }
  }

  /** The label KAI groups by at the level of tier i + 1. */
  function KeyAt(nodes: seq<ResolvedNode>, i: nat): string
    requires i < |VolcanoLevels(nodes)|
  {
    KAILevels(nodes)[|VolcanoLevels(nodes)| - 1 - i].nodeLabel
  }

  ghost predicate IsLabelled(nodes: seq<ResolvedNode>, topologyName: string, key: string, v: string, name: string) {
    exists n :: n in nodes && n.name == name
      && key in NodeLabels(n, topologyName) && NodeLabels(n, topologyName)[key] == v
  }

  lemma {:induction false} LabelIsValue(nodes: seq<ResolvedNode>, topologyName: string, i: nat, v: string, name: string)
    requires AllValued(nodes) && i < |VolcanoLevels(nodes)|
    ensures IsLabelled(nodes, topologyName, KeyAt(nodes, i), v, name) <==>
              exists n :: n in nodes && n.name == name && LevelValue(VolcanoLevels(nodes)[i], n) == v
  {
    var levels, key := VolcanoLevels(nodes), KeyAt(nodes, i);
    assert key == LevelLabel(levels[i]);
    forall n | n in nodes
      ensures key in NodeLabels(n, topologyName) && NodeLabels(n, topologyName)[key] == LevelValue(levels[i], n)
    {
      LabelCarriesLevel(n, topologyName, levels[i]);
      assert levels[i] in levels;
    }
  }

  /** The two projections agree: the leaves of every HyperNode are the nodes whose label for the
      level, the one KAI groups by, has its value. */
  ghost predicate LeavesAreLabelled(nodes: seq<ResolvedNode>, out: seq<HyperNode>, topologyName: string) {
    forall i, v, leaf :: InTree(nodes, i, v) ==>
      (leaf in Leaves(out, At(nodes, i, v)) <==> IsLabelled(nodes, topologyName, KeyAt(nodes, i), v, leaf))
  }

  lemma {:induction false} HierarchyIsLabelled(nodes: seq<ResolvedNode>, out: seq<HyperNode>, topologyName: string)
    requires Hierarchical(nodes) && ListsTree(nodes, out)
    ensures LeavesAreLabelled(nodes, out, topologyName)
  {
    forall i, v, leaf | InTree(nodes, i, v)
      ensures leaf in Leaves(out, At(nodes, i, v)) <==> IsLabelled(nodes, topologyName, KeyAt(nodes, i), v, leaf)
    {
      LeavesAre(nodes, out, i, v, leaf);
      LabelIsValue(nodes, topologyName, i, v, leaf);
    }
  }

  // ---------------------------------------------------------------- validated topologies

  lemma {:induction false} RackNamesDistinct(ct: ClusterTopology, i: nat, j: nat)
    requires Valid(ct) && i < |ct.racks| && j < |ct.racks| && ct.racks[i].name == ct.racks[j].name
    ensures i == j
  {
  }

  lemma {:induction false} ExpandedLocated(ct: ClusterTopology, load: Loader, n: ResolvedNode) returns (i: nat, k: nat)
    requires Valid(ct) && n in Expanded(ct, load, ct.racks)
    ensures From(ct, load, i, k, n) && n.name != "" && n.rack == ct.racks[i].name
            && n.faultDomain == ct.racks[i].faultDomain
    ensures n.rack != "" && n.faultDomain != "" && InDomain(ct, i, n.nvlinkDomain)
  {
    assert ct.racks[..|ct.racks|] == ct.racks;
    i, k := ExpandedFrom(ct, load, |ct.racks|, n);
    NodeShape(ct, load, i, k, n);
    NodeInDomain(ct, load, i, k, n);
    assert ValidRack(ct, ct.racks[i]);
  }

  lemma {:induction false} SameNameSameNode(nodes: seq<ResolvedNode>, a: ResolvedNode, b: ResolvedNode)
    requires Distinct(ResolvedNames(nodes)) && a in nodes && b in nodes && a.name == b.name
    ensures a == b
  {
    var x :| 0 <= x < |nodes| && nodes[x] == a;
    var y :| 0 <= y < |nodes| && nodes[y] == b;
    assert ResolvedNames(nodes)[x] == ResolvedNames(nodes)[y];
  }

  lemma {:induction false} ValidValues(ct: ClusterTopology, load: Loader)
    requires Valid(ct)
    ensures AllValued(Expanded(ct, load, ct.racks))
  {
    var nodes := Expanded(ct, load, ct.racks);
    forall n, l | n in nodes && l in VolcanoLevels(nodes)
      ensures LevelValue(l, n) != ""
    {
      var i, k := ExpandedLocated(ct, load, n);
      var x :| 0 <= x < |nodes| && nodes[x] == n;
    }
  }

  lemma {:induction false} HostDetermines(ct: ClusterTopology, load: Loader, l: Level)
    requires Valid(ct)
    ensures Determines(Expanded(ct, load, ct.racks), Host, l)
  {
    var nodes := Expanded(ct, load, ct.racks);
    ValidResolves(ct, load);
    forall a, b | a in nodes && b in nodes && LevelValue(Host, a) == LevelValue(Host, b)
      ensures LevelValue(l, a) == LevelValue(l, b)
    {
      SameNameSameNode(nodes, a, b);
    }
  }

  lemma {:induction false} RackDetermines(ct: ClusterTopology, load: Loader)
    requires Valid(ct)
    ensures Determines(Expanded(ct, load, ct.racks), RackOf, FaultDomain)
  {
    var nodes := Expanded(ct, load, ct.racks);
    forall a, b | a in nodes && b in nodes && LevelValue(RackOf, a) == LevelValue(RackOf, b)
      ensures LevelValue(FaultDomain, a) == LevelValue(FaultDomain, b)
    {
      var i, k := ExpandedLocated(ct, load, a);
      var j, m := ExpandedLocated(ct, load, b);
      RackNamesDistinct(ct, i, j);
    }
  }

  lemma {:induction false} DomainsStayInRack(ct: ClusterTopology, load: Loader)
    requires Valid(ct) && !SharesDomain(ct) && AllHaveNVLink(Expanded(ct, load, ct.racks))
    ensures Determines(Expanded(ct, load, ct.racks), NVLink, RackOf)
  {
    var nodes := Expanded(ct, load, ct.racks);
    forall a, b | a in nodes && b in nodes && LevelValue(NVLink, a) == LevelValue(NVLink, b)
      ensures LevelValue(RackOf, a) == LevelValue(RackOf, b)
    {
      var i, k := ExpandedLocated(ct, load, a);
      var j, m := ExpandedLocated(ct, load, b);
      assert i == j || !(InDomain(ct, i, a.nvlinkDomain) && InDomain(ct, j, a.nvlinkDomain));
      assert AllHaveNVLink(nodes) && a.nvlinkDomain != "" by {
        var x :| 0 <= x < |nodes| && nodes[x] == a;
      }
    }
  }

  /** A validated topology is hierarchical unless an NVLink tier is emitted for a domain that
      spans two racks. */
  lemma {:induction false} ValidIsHierarchical(ct: ClusterTopology, load: Loader)
    requires Valid(ct) && (AllHaveNVLink(Expanded(ct, load, ct.racks)) ==> !SharesDomain(ct))
    ensures Hierarchical(Expanded(ct, load, ct.racks))
  {
    ValidValues(ct, load);
    HostDetermines(ct, load, NVLink);
    HostDetermines(ct, load, RackOf);
    RackDetermines(ct, load);
    if AllHaveNVLink(Expanded(ct, load, ct.racks)) {
      DomainsStayInRack(ct, load);
    }
  }

  /** One domain in two racks has two parents. */
  lemma {:induction false} TwoParents(nodes: seq<ResolvedNode>, a: ResolvedNode, b: ResolvedNode)
    requires AllValued(nodes) && VolcanoLevels(nodes) == [Host, NVLink, RackOf, FaultDomain]
    requires a in nodes && b in nodes && a.nvlinkDomain == b.nvlinkDomain && a.rack != b.rack
    ensures !IsForest(nodes)
  {
    ValueIsEmitted(nodes, 1, a);
    ValueIsEmitted(nodes, 2, a);
    ValueIsEmitted(nodes, 2, b);
    ChildIs(nodes, 1, a.nvlinkDomain, 2, a.rack);
    ChildIs(nodes, 1, a.nvlinkDomain, 2, b.rack);
    var child, p, q := At(nodes, 1, a.nvlinkDomain), At(nodes, 2, a.rack), At(nodes, 2, b.rack);
    assert ParentOf(p, child) && ParentOf(q, child);
    if p == q {
      NameGivesBack(RackOf, a.rack, RackOf, b.rack);
    }
  }

  lemma {:induction false} NodeOfDomain(ct: ClusterTopology, load: Loader, i: nat, domain: string)
      returns (n: ResolvedNode)
    requires Valid(ct) && InDomain(ct, i, domain)
    ensures n in Expanded(ct, load, ct.racks) && n.nvlinkDomain == domain && n.rack == ct.racks[i].name
  {
    var k :| 0 <= k < |ct.racks[i].nodes| && DomainAt(ct, ct.racks[i], ct.racks[i].nodes[k]) == domain;
    assert ct.racks[..|ct.racks|] == ct.racks;
    ExpandedHas(ct, load, |ct.racks|, i, k);
    n := NodeOf(ct, load, ct.racks[i], ct.racks[i].nodes[k]);
  }

  /** Two nodes of one domain in different racks. */
  lemma {:induction false} SharedNodes(ct: ClusterTopology, load: Loader) returns (a: ResolvedNode, b: ResolvedNode)
    requires Valid(ct) && SharesDomain(ct)
    ensures a in Expanded(ct, load, ct.racks) && b in Expanded(ct, load, ct.racks)
    ensures a.nvlinkDomain == b.nvlinkDomain && a.rack != b.rack
  {
    var i, j, domain :| i != j && domain != "" && InDomain(ct, i, domain) && InDomain(ct, j, domain);
    a := NodeOfDomain(ct, load, i, domain);
    b := NodeOfDomain(ct, load, j, domain);
    if a.rack == b.rack {
      RackNamesDistinct(ct, i, j);
    }
  }

  /** For a validated topology the HyperNodes form a forest when and only when no NVLink tier is
      emitted for a domain that spans two racks. */
  lemma {:induction false} ForestUnlessShared(ct: ClusterTopology, load: Loader)
    requires Valid(ct)
    ensures var nodes := Expanded(ct, load, ct.racks);
            IsForest(nodes) <==> !(AllHaveNVLink(nodes) && SharesDomain(ct))
  {
    var nodes := Expanded(ct, load, ct.racks);
    if AllHaveNVLink(nodes) && SharesDomain(ct) {
      var a, b := SharedNodes(ct, load);
      ValidValues(ct, load);
      TwoParents(nodes, a, b);
    } else {
      ValidIsHierarchical(ct, load);
      HierarchyIsForest(nodes);
    }
  }

  /** Where one domain is in two racks, each of the racks has the other's node among its leaves. */
  lemma {:induction false} SharedLeaf(nodes: seq<ResolvedNode>, out: seq<HyperNode>, a: ResolvedNode, b: ResolvedNode)
    requires AllValued(nodes) && VolcanoLevels(nodes) == [Host, NVLink, RackOf, FaultDomain] && ListsTree(nodes, out)
    requires a in nodes && b in nodes && a.nvlinkDomain == b.nvlinkDomain
    ensures InTree(nodes, 2, a.rack) && b.name in Leaves(out, At(nodes, 2, a.rack))
  {
    var domain := a.nvlinkDomain;
    ValueIsEmitted(nodes, 1, a);
    assert HasValue(nodes, RackOf, a.rack);
    InTreeIs(nodes, 2, a.rack);
    NodeIsLeaf(nodes, out, 1, b);
    ChildIs(nodes, 1, domain, 2, a.rack);
    assert At(nodes, 1, domain) in out;
  }

  lemma {:induction false} SharedIsMislabelled(nodes: seq<ResolvedNode>, out: seq<HyperNode>, topologyName: string,
      a: ResolvedNode, b: ResolvedNode)
    requires AllValued(nodes) && VolcanoLevels(nodes) == [Host, NVLink, RackOf, FaultDomain] && ListsTree(nodes, out)
    requires a in nodes && b in nodes && a.nvlinkDomain == b.nvlinkDomain && a.rack != b.rack
    requires Distinct(ResolvedNames(nodes))
    ensures !LeavesAreLabelled(nodes, out, topologyName)
  {
    SharedLeaf(nodes, out, a, b);
    LabelIsValue(nodes, topologyName, 2, a.rack, b.name);
    if n :| n in nodes && n.name == b.name && LevelValue(RackOf, n) == a.rack {
      SameNameSameNode(nodes, n, b);
    }
  }

  /** For a validated topology the leaves of every HyperNode are the nodes carrying its label when
      and only when no NVLink tier is emitted for a domain that spans two racks. */
  lemma {:induction false} LabelledUnlessShared(ct: ClusterTopology, load: Loader, out: seq<HyperNode>,
      topologyName: string)
    requires Valid(ct) && ListsTree(Expanded(ct, load, ct.racks), out)
    ensures var nodes := Expanded(ct, load, ct.racks);
            LeavesAreLabelled(nodes, out, topologyName) <==> !(AllHaveNVLink(nodes) && SharesDomain(ct))
  {
    var nodes := Expanded(ct, load, ct.racks);
    if AllHaveNVLink(nodes) && SharesDomain(ct) {
      var a, b := SharedNodes(ct, load);
      ValidValues(ct, load);
      ValidResolves(ct, load);
      SharedIsMislabelled(nodes, out, topologyName, a, b);
    } else {
      ValidIsHierarchical(ct, load);
      HierarchyIsLabelled(nodes, out, topologyName);
    }
  }
}
