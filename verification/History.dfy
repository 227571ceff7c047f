/** Applies, faults and kills in any order, and what an apply at the end makes of them. */
module History {
  import opened Resources
  import opened Store
  import opened Convergence
  import opened Protocol

  /** A store gpu-sim has not touched yet. */
  ghost predicate Untouched(c: Cluster) {
    && Keyed(c)
    && (forall n :: !ManagedNode(c, n)) && (forall n :: !ManagedSlice(c, n))
  }

  /** An apply, complete or stopped by an error part of the way. */
  ghost predicate ApplyStep(c: Cluster, d: Cluster) {
    exists want, hyperNodes, slices, nodes, k ::
      && Coherent(want) && IsPlan(c, want, hyperNodes, slices, nodes)
      && 0 <= k <= |Plan(want, hyperNodes, slices, nodes)|
      && d == Run(c, Plan(want, hyperNodes, slices, nodes)[..k])
  }

  ghost predicate KillStep(c: Cluster, d: Cluster) {
    exists name :: d == c.(nodes := c.nodes - {name})
  }

  ghost predicate IsHistory(trace: seq<Cluster>) {
    && trace != [] && Untouched(trace[0])
    && forall i :: 0 <= i < |trace| - 1 ==>
         ApplyStep(trace[i], trace[i + 1]) || IsTainting(trace[i], trace[i + 1]) || KillStep(trace[i], trace[i + 1])
  }

  // ---------------------------------------------------------------- accounts

  /** The fields gpu-sim does not write are as created, or as on the object that was there first. */
  ghost predicate NodeInherits(c0: Cluster, n: string, node: NodeObject) {
    node.other == FRESH || (n in c0.nodes && node.other == c0.nodes[n].other)
  }

  ghost predicate SliceInherits(c0: Cluster, n: string, slice: SliceObject) {
    slice.other == FRESH || (n in c0.slices && slice.other == c0.slices[n].other)
  }

  /** Every object is an original, unchanged, or one the simulator created or adopted. */
  ghost predicate Accounted(c0: Cluster, c: Cluster) {
    && Keyed(c)
    && (forall n :: n in c.nodes ==>
          (n in c0.nodes && c.nodes[n] == c0.nodes[n]) || (ManagedNode(c, n) && NodeInherits(c0, n, c.nodes[n])))
    && (forall n :: n in c.slices ==>
          (n in c0.slices && c.slices[n] == c0.slices[n]) || (ManagedSlice(c, n) && SliceInherits(c0, n, c.slices[n])))
  }

  ghost predicate Benign(c: Cluster, call: Call) {
    match call
    case WriteNode(_, node) => ManagedLabels(node.labels)
    case WriteStatus(n, _) => n in c.nodes ==> ManagedNode(c, n)
    case WriteSlice(s) => ManagedLabels(s.labels)
    case _ => true
  }

  lemma {:induction false} BenignStep(c0: Cluster, c: Cluster, call: Call)
    requires Accounted(c0, c) && Benign(c, call)
    ensures Accounted(c0, Step(c, call))
  {
  }

  /** Each node is written, and then its status. */
  lemma {:induction false} NodeWritesAt(nodes: seq<NamedNode>, i: nat)
    requires i < 2 * |nodes|
    ensures |NodeWrites(nodes)| == 2 * |nodes|
    ensures NodeWrites(nodes)[i] ==
            if i % 2 == 0 then WriteNode(nodes[i / 2].name, nodes[i / 2].node)
            else WriteStatus(nodes[i / 2].name, nodes[i / 2].node)
  {
    if |nodes| > 1 {
      NodeWritesAt(nodes[..|nodes| - 1], if i < 2 * |nodes| - 2 then i else 0);
    }
  }

  /** What comes before a status in a plan is the node it is the status of. */
  lemma {:induction false} PlanAt(want: Desired, hyperNodes: seq<string>, slices: seq<string>, nodes: seq<string>,
      i: nat)
    requires Coherent(want) && i < |Plan(want, hyperNodes, slices, nodes)|
    ensures var plan := Plan(want, hyperNodes, slices, nodes);
            match plan[i]
            case WriteNode(_, node) => ManagedLabels(node.labels)
            case WriteStatus(n, node) => i > 0 && plan[i - 1] == WriteNode(n, node) && ManagedLabels(node.labels)
            case WriteSlice(s) => ManagedLabels(s.labels)
            case _ => true
  {
    var count := |NodeWrites(want.nodes)|;
    NodeWritesAt(want.nodes, 0);
    if i < count {
      assert Plan(want, hyperNodes, slices, nodes)[i] == NodeWrites(want.nodes)[i];
      NodeWritesAt(want.nodes, i);
      if i % 2 == 1 {
        assert Plan(want, hyperNodes, slices, nodes)[i - 1] == NodeWrites(want.nodes)[i - 1];
        NodeWritesAt(want.nodes, i - 1);
      }
    }
  }

  /** Just after a node has been written it is managed. */
  lemma {:induction false} StatusIsBenign(c: Cluster, calls: seq<Call>, n: string, node: NodeObject)
    requires calls != [] && calls[|calls| - 1] == WriteNode(n, node) && ManagedLabels(node.labels)
    ensures Benign(Run(c, calls), WriteStatus(n, node))
  {
  }

  lemma {:induction false} PlanAccounted(c0: Cluster, c: Cluster, want: Desired, hyperNodes: seq<string>,
      slices: seq<string>, nodes: seq<string>, k: nat)
    requires Accounted(c0, c) && Coherent(want) && k <= |Plan(want, hyperNodes, slices, nodes)|
    ensures Accounted(c0, Run(c, Plan(want, hyperNodes, slices, nodes)[..k]))
  {
    if k > 0 {
      var plan := Plan(want, hyperNodes, slices, nodes);
      PlanAccounted(c0, c, want, hyperNodes, slices, nodes, k - 1);
      PlanAt(want, hyperNodes, slices, nodes, k - 1);
      assert plan[..k][..k - 1] == plan[..k - 1];
      var before := Run(c, plan[..k - 1]);
      if plan[k - 1].WriteStatus? {
        StatusIsBenign(c, plan[..k - 1], plan[k - 1].name, plan[k - 1].node);
      }
      BenignStep(c0, before, plan[k - 1]);
    }
  }

  lemma {:induction false} HistoryAccounted(trace: seq<Cluster>, i: nat)
    requires IsHistory(trace) && i < |trace|
    ensures Accounted(trace[0], trace[i])
  {
    if i > 0 {
      HistoryAccounted(trace, i - 1);
      var c0, c, d := trace[0], trace[i - 1], trace[i - 1 + 1];
      assert ApplyStep(c, d) || IsTainting(c, d) || KillStep(c, d);
      if ApplyStep(c, d) {
        ApplyAccounted(c0, c, d);
      } else if IsTainting(c, d) {
        TaintedAccounted(c0, c, d);
      }
    }
  }

  lemma {:induction false} ApplyAccounted(c0: Cluster, c: Cluster, d: Cluster)
    requires Accounted(c0, c) && ApplyStep(c, d)
    ensures Accounted(c0, d)
  {
    var want, hyperNodes, slices, nodes, k :|
      && Coherent(want) && IsPlan(c, want, hyperNodes, slices, nodes)
      && 0 <= k <= |Plan(want, hyperNodes, slices, nodes)|
      && d == Run(c, Plan(want, hyperNodes, slices, nodes)[..k]);
    PlanAccounted(c0, c, want, hyperNodes, slices, nodes, k);
  }

  lemma {:induction false} TaintedAccounted(c0: Cluster, c: Cluster, d: Cluster)
    requires Accounted(c0, c) && IsTainting(c, d) && forall n :: !ManagedSlice(c0, n)
    ensures Accounted(c0, d)
  {
    forall n | n in d.slices
      ensures d.slices[n].slice.name == n
      ensures (n in c0.slices && d.slices[n] == c0.slices[n])
              || (ManagedSlice(d, n) && SliceInherits(c0, n, d.slices[n]))
    {
      assert ManagedSlice(c, n) ==> !(n in c0.slices && c.slices[n] == c0.slices[n]) by {
        assert !ManagedSlice(c0, n);
      }
    }
  }

  // ---------------------------------------------------------------- forgetting

  /** The store an apply should leave: exactly the generated nodes and slices under management,
      field for field. What gpu-sim does not write is as created, or, on an object that was there
      first and has been adopted, as it was. */
  ghost predicate ExactlyGenerated(c0: Cluster, c: Cluster, want: Desired) {
    && (forall n :: ManagedNode(c, n) <==> n in NodeNamesIn(want))
    && (forall i :: 0 <= i < |want.nodes| ==>
          var NamedNode(name, node) := want.nodes[i];
          && name in c.nodes && c.nodes[name] == node.(other := c.nodes[name].other)
          && NodeInherits(c0, name, c.nodes[name]))
    && (forall n :: ManagedSlice(c, n) <==> n in SliceNamesIn(want))
    && (forall i :: 0 <= i < |want.slices| ==>
          var s := want.slices[i];
          && s.name in c.slices && c.slices[s.name].slice == s && SliceInherits(c0, s.name, c.slices[s.name]))
  }

  /** After any history of applies, failed applies, device taints and node kills, an apply that
      completes leaves exactly what it generates: of the history, only what was there before it
      can still be told. */
  lemma {:induction false} HistoryIsForgotten(trace: seq<Cluster>, i: nat, want: Desired, hyperNodes: seq<string>,
      slices: seq<string>, nodes: seq<string>)
    requires IsHistory(trace) && i < |trace| && Coherent(want)
    requires IsPlan(trace[i], want, hyperNodes, slices, nodes)
    ensures ExactlyGenerated(trace[0], Run(trace[i], Plan(want, hyperNodes, slices, nodes)), want)
  {
    HistoryAccounted(trace, i);
    ApplyConverges(trace[i], want, hyperNodes, slices, nodes);
    var c, after := trace[i], Run(trace[i], Plan(want, hyperNodes, slices, nodes));
    forall k | 0 <= k < |want.nodes|
      ensures var NamedNode(name, node) := want.nodes[k];
              name in after.nodes && after.nodes[name] == node.(other := after.nodes[name].other)
                && NodeInherits(trace[0], name, after.nodes[name])
    {
      var NamedNode(name, node) := want.nodes[k];
    }
    forall k | 0 <= k < |want.slices|
      ensures var s := want.slices[k];
              s.name in after.slices && after.slices[s.name].slice == s
                && SliceInherits(trace[0], s.name, after.slices[s.name])
    {
      var s := want.slices[k];
    }
  }
}
