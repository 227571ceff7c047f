/** The conditions an assertion can be checked by, and when each passes. */
module Checks {
  import opened Options
  import opened Names
  import opened Fragmentation
  import opened Levels
  import opened Inspection
  import opened Scenario
  import opened Recovery
  import opened Ranges
  import opened Resolve

  /** What one check reads from the cluster: the namespace's pods, the labels of the nodes that
      can be read, the devices allocated to the workload's pods, the attributes published for
      each device, what the scheduler says, and the fragmentation report. */
  datatype View = View(
    pods: Option<seq<Pod>>,
    labels: map<string, map<string, string>>,
    holdings: Option<map<string, seq<string>>>,
    attributes: Option<map<string, map<string, string>>>,
    reasons: seq<string>,
    nodes: Option<seq<NodeFragmentation>>)

  // ---------------------------------------------------------------- placement

  function Placed(pods: seq<Pod>, workload: string): nat {
    if pods == [] then 0
    else
      var last := pods[|pods| - 1];
      Placed(pods[..|pods| - 1], workload) + if last.workload == workload && last.node != "" then 1 else 0
  }

  ghost predicate IsPlaced(pod: Pod, workload: string) {
    pod.workload == workload && pod.node != ""
  }

  function PlacedUids(pods: seq<Pod>, workload: string): set<string> {
    set i | 0 <= i < |pods| && pods[i].workload == workload && pods[i].node != "" :: pods[i].uid
  }

  lemma {:induction false} PlacedSnoc(pods: seq<Pod>, workload: string)
    requires DistinctPods(pods) && pods != []
    ensures var fewer, last := PlacedUids(pods[..|pods| - 1], workload), pods[|pods| - 1];
            && last.uid !in fewer
            && PlacedUids(pods, workload) ==
              if last.workload == workload && last.node != "" then fewer + {last.uid} else fewer
  {
    assert pods == pods[..|pods| - 1] + [pods[|pods| - 1]];
  }

  /** Counted by identity: the replicas placed are as many as the pods of the workload with a node. */
  lemma {:induction false} PlacedAre(pods: seq<Pod>, workload: string)
    requires DistinctPods(pods)
    ensures Placed(pods, workload) == |PlacedUids(pods, workload)|
  {
    if pods == [] {
      assert PlacedUids(pods, workload) == {};
    } else {
      PlacedAre(pods[..|pods| - 1], workload);
      PlacedSnoc(pods, workload);
    }
  }

  /** The count an assertion asks for, by the word it is written as. */
  lemma {:induction false} ExpectedIs(a: Assertion, replicas: int, n: nat)
    requires n <= MAX_INT
    ensures a.scheduled == "all" ==> ExpectedScheduled(a, replicas) == Some(replicas)
    ensures a.scheduled == "none" ==> ExpectedScheduled(a, replicas) == Some(0)
    ensures a.scheduled == Itoa(n) ==> ExpectedScheduled(a, replicas) == Some(n)
  {
    AtoiItoa(n);
    if a.scheduled == Itoa(n) {
      assert IsDigit(a.scheduled[0]) by {
        assert a.scheduled[0] in Itoa(n);
      }
    }
  }

  /** An absent label reads as the empty value. */
  function Reading(labels: map<string, string>, key: string): string {
    if key in labels then labels[key] else ""
  }

  /** Some replica is placed, every placed one is on a node that can be read, and all of those
      nodes have one value of the label. */
  ghost predicate Confined(pods: seq<Pod>, workload: string, labels: map<string, map<string, string>>, key: string) {
    && (exists i :: 0 <= i < |pods| && IsPlaced(pods[i], workload))
    && (forall i :: 0 <= i < |pods| && IsPlaced(pods[i], workload) ==> pods[i].node in labels)
    && (forall i, j ::
          0 <= i < |pods| && 0 <= j < |pods| && IsPlaced(pods[i], workload) && IsPlaced(pods[j], workload) ==>
            Reading(labels[pods[i].node], key) == Reading(labels[pods[j].node], key))
  }

  /** The node can be read, and its label has the value, or is absent where the value is empty. */
  ghost predicate HasLabel(labels: map<string, map<string, string>>, node: string, key: string, v: string) {
    node in labels && if key in labels[node] then labels[node][key] == v else v == ""
  }

  ghost predicate AllHaveLabel(pods: seq<Pod>, workload: string, labels: map<string, map<string, string>>,
      key: string, v: string)
  {
    forall i :: 0 <= i < |pods| && pods[i].workload == workload && pods[i].node != "" ==>
      HasLabel(labels, pods[i].node, key, v)
  }

  /** One value of the label is that of every node that holds a replica, and some node does. */
  lemma {:induction false} ConfinedIsOneValue(pods: seq<Pod>, workload: string, labels: map<string,
      map<string, string>>, key: string)
    ensures Confined(pods, workload, labels, key) <==>
              && (exists i :: 0 <= i < |pods| && pods[i].workload == workload && pods[i].node != "")
              && exists v :: AllHaveLabel(pods, workload, labels, key, v)
  {
    if i :| 0 <= i < |pods| && IsPlaced(pods[i], workload) {
      if Confined(pods, workload, labels, key) {
        assert AllHaveLabel(pods, workload, labels, key, Reading(labels[pods[i].node], key));
      }
    }
    assert forall i :: 0 <= i < |pods| ==>
             (IsPlaced(pods[i], workload) <==> pods[i].workload == workload && pods[i].node != "");
  }

  method CheckConfined(a: Assertion, view: View) returns (ok: bool)
    ensures ok <==>
              && LabelForLevel(a.confinedTo).Some? && view.pods.Some?
              && Confined(view.pods.value, a.workload, view.labels, LabelForLevel(a.confinedTo).value)
  {
    var key := LabelForLevel(a.confinedTo);
    if key.None? || view.pods.None? {
      return false;
    }
    var pods := view.pods.value;
    var values: set<string>, placed := {}, 0;
    for i := 0 to |pods|
      invariant forall k :: 0 <= k < i && IsPlaced(pods[k], a.workload) ==>
                  pods[k].node in view.labels && Reading(view.labels[pods[k].node], key.value) in values
      invariant forall v :: v in values ==>
                  exists k :: 0 <= k < i && IsPlaced(pods[k], a.workload) && pods[k].node in view.labels
                    && Reading(view.labels[pods[k].node], key.value) == v
      invariant placed > 0 <==> exists k :: 0 <= k < i && IsPlaced(pods[k], a.workload)
      invariant placed >= 0
    {
      if pods[i].workload != a.workload || pods[i].node == "" {
        continue;
      }
      placed := placed + 1;
      if pods[i].node !in view.labels {
        assert IsPlaced(pods[i], a.workload);
        return false;
      }
      values := values + {Reading(view.labels[pods[i].node], key.value)};
    }
    if placed == 0 {
      return false;
    }
    OneValue(values);
    ok := |values| == 1;
  }

  lemma {:induction false} OneValue(values: set<string>)
    ensures |values| == 1 <==> values != {} && forall v, w :: v in values && w in values ==> v == w
  {
    if v :| v in values {
      assert values == {v} + (values - {v});
      if |values| == 1 {
        assert |values - {v}| == 0;
      }
    }
  }

  // ---------------------------------------------------------------- devices

  /** A device is known and carries the wanted attributes; an absent one reads as empty. */
  ghost predicate Carries(attributes: map<string, map<string, string>>, device: string, want: map<string, string>) {
    device in attributes && forall n :: n in want ==> Reading(attributes[device], n) == want[n]
  }

  ghost predicate AllCarry(holdings: map<string, seq<string>>, attributes: map<string, map<string, string>>,
      want: map<string, string>)
  {
    forall pod, k :: pod in holdings && 0 <= k < |holdings[pod]| ==> Carries(attributes, holdings[pod][k], want)
  }

  method CheckCarries(attributes: map<string, map<string, string>>, device: string, want: map<string, string>)
      returns (ok: bool)
    ensures ok == Carries(attributes, device, want)
  {
    if device !in attributes {
      return false;
    }
    var left := want.Keys;
    while left != {}
      invariant left <= want.Keys
      invariant forall n :: n in want.Keys - left ==> Reading(attributes[device], n) == want[n]
      decreases left
    {
      var name := Next(left);
      if Reading(attributes[device], name) != want[name] {
        return false;
      }
      left := left - {name};
    }
    return true;
  }

  /** Every device the workload holds is published with the wanted attributes, and it holds one. */
  method CheckAllocated(a: Assertion, view: View) returns (ok: bool)
    ensures ok <==>
              && view.holdings.Some? && view.attributes.Some? && view.holdings.value != map[]
              && AllCarry(view.holdings.value, view.attributes.value, a.allocatedDevices)
  {
    if view.holdings.None? || view.attributes.None? || |view.holdings.value| == 0 {
      return false;
    }
    var holdings := view.holdings.value;
    var left := holdings.Keys;
    while left != {}
      invariant left <= holdings.Keys
      invariant forall pod, k :: pod in holdings.Keys - left && 0 <= k < |holdings[pod]| ==>
                  Carries(view.attributes.value, holdings[pod][k], a.allocatedDevices)
      decreases left
    {
      var pod := Next(left);
      for k := 0 to |holdings[pod]|
        invariant forall j :: 0 <= j < k ==> Carries(view.attributes.value, holdings[pod][j], a.allocatedDevices)
      {
        var carries := CheckCarries(view.attributes.value, holdings[pod][k], a.allocatedDevices);
        if !carries {
          return false;
        }
      }
      left := left - {pod};
    }
    return true;
  }

  // ---------------------------------------------------------------- reasons

  predicate At(s: string, t: string, i: int) {
    0 <= i <= |s| - |t| && s[i..i + |t|] == t
  }

  /** The second string occurs in the first. */
  predicate Contains(s: string, t: string) {
    exists i :: 0 <= i <= |s| && At(s, t, i)
  }

  /** The second stands somewhere in the first. */
  lemma {:induction false} ContainsIs(s: string, t: string)
    ensures Contains(s, t) <==> exists x, y :: s == x + t + y
  {
    if i :| 0 <= i <= |s| && At(s, t, i) {
      assert s == s[..i] + t + s[i + |t|..];
    }
    if x, y :| s == x + t + y {
      assert At(s, t, |x|);
    }
  }

  method CheckReason(a: Assertion, view: View) returns (ok: bool)
    ensures ok <==> exists k :: 0 <= k < |view.reasons| && Contains(view.reasons[k], a.unschedulableReason)
  {
    for k := 0 to |view.reasons|
      invariant forall j :: 0 <= j < k ==> !Contains(view.reasons[j], a.unschedulableReason)
    {
      if Contains(view.reasons[k], a.unschedulableReason) {
        return true;
      }
    }
    return false;
  }

  // ---------------------------------------------------------------- fragmentation

  function LostOn(reports: seq<Report>): int {
    if reports == [] then 0 else LostOn(reports[..|reports| - 1]) + SumLost(reports[|reports| - 1].profiles)
  }

  /** The partitions lost to fragmentation across the cluster. */
  function LostIn(nodes: seq<NodeFragmentation>): int {
    if nodes == [] then 0 else LostIn(nodes[..|nodes| - 1]) + LostOn(nodes[|nodes| - 1].gpus)
  }

  ghost predicate WithinBounds(total: int, bounds: Bounds) {
    && (bounds.atLeast.Some? ==> bounds.atLeast.value <= total)
    && (bounds.atMost.Some? ==> total <= bounds.atMost.value)
  }

  method TotalOnNode(node: NodeFragmentation) returns (total: int)
    ensures total == LostOn(node.gpus)
  {
    total := 0;
    for i := 0 to |node.gpus|
      invariant total == LostOn(node.gpus[..i])
    {
      assert node.gpus[..i + 1][..i] == node.gpus[..i];
      var lost := TotalLost(node.gpus[i]);
      total := total + lost;
    }
    assert node.gpus[..|node.gpus|] == node.gpus;
  }

  /** There are MIG nodes to report on, and what they have lost lies within the bounds. */
  method CheckFragmentation(a: Assertion, view: View) returns (ok: bool)
    requires a.fragmentation.Some?
    ensures ok <==>
              && view.nodes.Some? && view.nodes.value != []
              && WithinBounds(LostIn(view.nodes.value), a.fragmentation.value)
  {
    if view.nodes.None? || |view.nodes.value| == 0 {
      return false;
    }
    var nodes, total := view.nodes.value, 0;
    for i := 0 to |nodes|
      invariant total == LostIn(nodes[..i])
    {
      assert nodes[..i + 1][..i] == nodes[..i];
      var lost := TotalOnNode(nodes[i]);
      total := total + lost;
    }
    assert nodes[..|nodes|] == nodes;
    var bounds := a.fragmentation.value;
    if bounds.atLeast.Some? && total < bounds.atLeast.value {
      return false;
    }
    if bounds.atMost.Some? && total > bounds.atMost.value {
      return false;
    }
    return true;
  }

  ghost predicate NoneLost(reports: seq<Report>) {
    forall g, f :: 0 <= g < |reports| && 0 <= f < |reports[g].profiles| ==> reports[g].profiles[f].lost == 0
  }

  /** The total adds up: over profiles, over GPUs and over nodes, each counted once. */
  lemma {:induction false} LostAdds(nodes: seq<NodeFragmentation>, node: NodeFragmentation, reports: seq<Report>,
      report: Report, fits: seq<ProfileFit>, fit: ProfileFit)
    ensures LostIn([]) == 0 && LostIn(nodes + [node]) == LostIn(nodes) + LostOn(node.gpus)
    ensures LostOn([]) == 0 && LostOn(reports + [report]) == LostOn(reports) + SumLost(report.profiles)
    ensures SumLost([]) == 0 && SumLost(fits + [fit]) == SumLost(fits) + fit.lost
  {
    assert (nodes + [node])[..|nodes|] == nodes;
    assert (reports + [report])[..|reports|] == reports;
    assert (fits + [fit])[..|fits|] == fits;
  }

  lemma {:induction false} SumIsZero(fits: seq<ProfileFit>)
    requires forall f :: 0 <= f < |fits| ==> fits[f].lost >= 0
    ensures SumLost(fits) >= 0 && (SumLost(fits) == 0 <==> forall f :: 0 <= f < |fits| ==> fits[f].lost == 0)
  {
    if fits != [] {
      SumIsZero(fits[..|fits| - 1]);
    }
  }

  lemma {:induction false} LostOnIsZero(reports: seq<Report>)
    requires NoneNegative(reports)
    ensures LostOn(reports) >= 0 && (LostOn(reports) == 0 <==> NoneLost(reports))
  {
    if reports != [] {
      var front, last := reports[..|reports| - 1], reports[|reports| - 1];
      assert forall g :: 0 <= g < |front| ==> front[g] == reports[g];
      LostOnIsZero(front);
      SumIsZero(last.profiles);
    }
  }

  /** Losses are never negative, so a total of zero means that no profile has lost anything on
      any GPU of any node: a bound of zero cannot be met by one loss making up for another. */
  lemma {:induction false} LostInIsZero(nodes: seq<NodeFragmentation>)
    requires forall n :: 0 <= n < |nodes| ==> NoneNegative(nodes[n].gpus)
    ensures LostIn(nodes) >= 0 && (LostIn(nodes) == 0 <==> forall n :: 0 <= n < |nodes| ==> NoneLost(nodes[n].gpus))
  {
    if nodes != [] {
      LostInIsZero(nodes[..|nodes| - 1]);
      LostOnIsZero(nodes[|nodes| - 1].gpus);
    }
  }

  /** So it is for every cluster the simulator has set up, whatever is held in it and even where
      names collide. */
  lemma {:induction false} InspectedLostIsZero(nodes: seq<ResolvedNode>, held: set<string>, out: seq<NodeFragmentation>)
    requires AllWellFormed(nodes) && IsInspectionOn(nodes, held, out)
    ensures LostIn(out) >= 0 && (LostIn(out) == 0 <==> forall n :: 0 <= n < |out| ==> NoneLost(out[n].gpus))
  {
    InspectedNotNegative(nodes, held, out);
    LostInIsZero(out);
  }
}
