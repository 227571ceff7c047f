/** The cluster as an object store, and the steps by which it is made to match a topology. */
module Store {
  import opened Options
  import opened Resources
  import opened Levels
  import opened HyperNodes

  datatype NodeStatus = NoStatus | SimulatedCapacity

  /** A node: the fields a topology writes, and the rest of the object. */
  datatype NodeObject = NodeObject(
    labels: map<string, string>,
    annotations: map<string, string>,
    taints: seq<Taint>,
    status: NodeStatus,
    other: int)

  datatype SliceObject = SliceObject(slice: ResourceSlice, other: int)

  datatype HyperObject = HyperObject(hyperNode: HyperNode, managed: bool)

  const FRESH := 0

  datatype Cluster = Cluster(
    nodes: map<string, NodeObject>,
    slices: map<string, SliceObject>,
    topologies: map<string, seq<KAILevel>>,
    hyperNodes: map<string, HyperObject>)

  datatype NamedNode = NamedNode(name: string, node: NodeObject)

  /** What a topology generates. */
  datatype Desired = Desired(
    nodes: seq<NamedNode>,
    slices: seq<ResourceSlice>,
    topology: (string, seq<KAILevel>),
    hyperNodes: seq<HyperNode>)

  predicate ManagedNode(c: Cluster, name: string) {
    name in c.nodes && ManagedLabels(c.nodes[name].labels)
  }

  predicate ManagedSlice(c: Cluster, name: string) {
    name in c.slices && ManagedLabels(c.slices[name].slice.labels)
  }

  predicate ManagedHyperNode(c: Cluster, name: string) {
    name in c.hyperNodes && c.hyperNodes[name].managed
  }

  // ---------------------------------------------------------------- calls

  /** One write accepted by the API server. */
  datatype Call =
    | WriteNode(name: string, node: NodeObject)
    | WriteStatus(name: string, node: NodeObject)
    | WriteSlice(slice: ResourceSlice)
    | WriteTopology(name: string, levels: seq<KAILevel>)
    | WriteHyperNode(hyperNode: HyperNode)
    | DeleteHyperNode(name: string)
    | DeleteSlice(name: string)
    | DeleteNode(name: string)

  /** Creating a node drops its status; updating one replaces labels, annotations and taints
      and keeps everything else. A slice's labels and spec are replaced and the rest kept. */
  function Step(c: Cluster, call: Call): Cluster {
    match call
    case WriteNode(name, node) =>
      var written := if name in c.nodes
        then c.nodes[name].(labels := node.labels, annotations := node.annotations, taints := node.taints)
        else node.(status := NoStatus, other := FRESH);
      c.(nodes := c.nodes[name := written])
    case WriteStatus(name, node) =>
      if name in c.nodes then c.(nodes := c.nodes[name := c.nodes[name].(status := node.status)]) else c
    case WriteSlice(s) =>
      var other := if s.name in c.slices then c.slices[s.name].other else FRESH;
      c.(slices := c.slices[s.name := SliceObject(s, other)])
    case WriteTopology(name, levels) => c.(topologies := c.topologies[name := levels])
    case WriteHyperNode(hn) => c.(hyperNodes := c.hyperNodes[hn.name := HyperObject(hn, true)])
    case DeleteHyperNode(name) => c.(hyperNodes := c.hyperNodes - {name})
    case DeleteSlice(name) => c.(slices := c.slices - {name})
    case DeleteNode(name) => c.(nodes := c.nodes - {name})
  }

  function Run(c: Cluster, calls: seq<Call>): Cluster {
    if calls == [] then c else Step(Run(c, calls[..|calls| - 1]), calls[|calls| - 1])
  }

  lemma {:induction false} RunConcat(c: Cluster, a: seq<Call>, b: seq<Call>)
    ensures Run(c, a + b) == Run(Run(c, a), b)
  {
    if b == [] {
      assert a + b == a;
    } else {
      assert (a + b)[..|a + b| - 1] == a + b[..|b| - 1];
      RunConcat(c, a, b[..|b| - 1]);
    }
  }

  // ---------------------------------------------------------------- the protocol

  function NodeWrites(nodes: seq<NamedNode>): seq<Call> {
    if nodes == [] then []
    else
      var last := nodes[|nodes| - 1];
      NodeWrites(nodes[..|nodes| - 1]) + [WriteNode(last.name, last.node), WriteStatus(last.name, last.node)]
  }

  function SliceWrites(slices: seq<ResourceSlice>): seq<Call> {
    seq(|slices|, i requires 0 <= i < |slices| => WriteSlice(slices[i]))
  }

  function HyperNodeWrites(hns: seq<HyperNode>): seq<Call> {
    seq(|hns|, i requires 0 <= i < |hns| => WriteHyperNode(hns[i]))
  }

  function Writes(want: Desired): seq<Call> {
    NodeWrites(want.nodes) + SliceWrites(want.slices)
    + [WriteTopology(want.topology.0, want.topology.1)] + HyperNodeWrites(want.hyperNodes)
  }

  function NodeNamesIn(want: Desired): set<string> {
    set k | 0 <= k < |want.nodes| :: want.nodes[k].name
  }

  function SliceNamesIn(want: Desired): set<string> {
    set k | 0 <= k < |want.slices| :: want.slices[k].name
  }

  function HyperNodeNamesIn(want: Desired): set<string> {
    NamesOfTree(want.hyperNodes)
  }

  /** Managed HyperNodes that are not part of a tree. */
  function StaleHyperNodes(c: Cluster, tree: seq<HyperNode>): set<string> {
    set n | n in c.hyperNodes && ManagedHyperNode(c, n) && n !in NamesOfTree(tree)
  }

  function NamesOfTree(tree: seq<HyperNode>): set<string> {
    set k | 0 <= k < |tree| :: tree[k].name
  }

  function DoomedHyperNodes(c: Cluster, want: Desired): set<string> {
    StaleHyperNodes(c, want.hyperNodes)
  }

  /** A slice stays when its name is kept, or, where no slice name is kept, when its node is. */
  predicate KeepsSlice(s: ResourceSlice, keepNodes: set<string>, keepSlices: set<string>) {
    s.name in keepSlices || (keepSlices == {} && s.nodeName.Some? && s.nodeName.value in keepNodes)
  }

  function DoomedSlices(c: Cluster, keepNodes: set<string>, keepSlices: set<string>): set<string> {
    set n | n in c.slices && ManagedSlice(c, n) && !KeepsSlice(c.slices[n].slice, keepNodes, keepSlices)
  }

  function DoomedNodes(c: Cluster, keepNodes: set<string>): set<string> {
    set n | n in c.nodes && ManagedNode(c, n) && n !in keepNodes
  }

  function Deletes(hyperNodes: seq<string>, slices: seq<string>, nodes: seq<string>): seq<Call> {
    seq(|hyperNodes|, i requires 0 <= i < |hyperNodes| => DeleteHyperNode(hyperNodes[i]))
    + seq(|slices|, i requires 0 <= i < |slices| => DeleteSlice(slices[i]))
    + seq(|nodes|, i requires 0 <= i < |nodes| => DeleteNode(nodes[i]))
  }

  /** The store once everything new is written. */
  function Written(c: Cluster, want: Desired): Cluster {
    Run(c, Writes(want))
  }

  /** The whole protocol: every write, then deletes of HyperNodes, slices and nodes, each kind
      in whatever order the server lists it. */
  ghost predicate IsPlan(c: Cluster, want: Desired, hyperNodes: seq<string>, slices: seq<string>, nodes: seq<string>) {
    var w := Written(c, want);
    && multiset(hyperNodes) == multiset(DoomedHyperNodes(w, want))
    && multiset(slices) == multiset(DoomedSlices(w, NodeNamesIn(want), SliceNamesIn(want)))
    && multiset(nodes) == multiset(DoomedNodes(w, NodeNamesIn(want)))
  }

  function Plan(want: Desired, hyperNodes: seq<string>, slices: seq<string>, nodes: seq<string>): seq<Call> {
    Writes(want) + Deletes(hyperNodes, slices, nodes)
  }

  // ---------------------------------------------------------------- what generators promise

  /** Names are used once, everything is marked as managed, slices name generated nodes and
      carry no taints, and objects are stored under their own names. */
  ghost predicate Coherent(want: Desired) {
    && want.nodes != [] && want.slices != []
    && (forall i, j :: 0 <= i < j < |want.nodes| ==> want.nodes[i].name != want.nodes[j].name)
    && (forall i, j :: 0 <= i < j < |want.slices| ==> want.slices[i].name != want.slices[j].name)
    && (forall i, j :: 0 <= i < j < |want.hyperNodes| ==> want.hyperNodes[i].name != want.hyperNodes[j].name)
    && (forall i :: 0 <= i < |want.nodes| ==> ManagedLabels(want.nodes[i].node.labels))
    && (forall i :: 0 <= i < |want.slices| ==>
          && ManagedLabels(want.slices[i].labels)
          && want.slices[i].nodeName.Some? && want.slices[i].nodeName.value in NodeNamesIn(want))
  }

  /** Slices are stored under their own names. */
  ghost predicate Keyed(c: Cluster) {
    forall n :: n in c.slices ==> c.slices[n].slice.name == n
  }
}
