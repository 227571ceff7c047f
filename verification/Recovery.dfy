/** What faults do to a run: who was hit, and whether the workload recovered without counting a
    casualty as its own replacement. */
module Recovery {
  import opened Options
  import opened Store

  // ---------------------------------------------------------------- pods

  datatype Pod = Pod(uid: string, workload: string, node: string, running: bool)

  datatype OwnerRef = OwnerRef(kind: string, uid: string)

  datatype Claim = Claim(results: Option<seq<string>>, owners: seq<OwnerRef>)

  datatype PodState = PodState(uid: string, workload: string, node: string, running: bool, devices: seq<string>)

  function Add(m: map<string, seq<string>>, uid: string, devices: seq<string>): map<string, seq<string>> {
    m[uid := HeldIn(m, uid) + devices]
  }

  function HeldIn(m: map<string, seq<string>>, uid: string): seq<string> {
    if uid in m then m[uid] else []
  }

  /** A device is held by a pod when a claim the pod owns has been given it. */
  ghost predicate Holds(claims: seq<Claim>, uid: string, device: string) {
    exists k, j :: 0 <= k < |claims| && claims[k].results.Some? && 0 <= j < |claims[k].owners|
      && claims[k].owners[j] == OwnerRef("Pod", uid) && device in claims[k].results.value
  }

  function FromOwners(owners: seq<OwnerRef>, devices: seq<string>, uid: string): seq<string> {
    if owners == [] then []
    else FromOwners(owners[..|owners| - 1], devices, uid) + if owners[|owners| - 1] ==
      OwnerRef("Pod", uid) then devices else []
  }

  function FromClaim(claim: Claim, uid: string): seq<string> {
    if claim.results.None? then [] else FromOwners(claim.owners, claim.results.value, uid)
  }

  function DevicesOf(claims: seq<Claim>, uid: string): seq<string> {
    if claims == [] then [] else DevicesOf(claims[..|claims| - 1], uid) + FromClaim(claims[|claims| - 1], uid)
  }

  lemma {:induction false} InOwners(owners: seq<OwnerRef>, devices: seq<string>, uid: string, d: string)
    ensures d in FromOwners(owners, devices, uid) <==> d in devices && OwnerRef("Pod", uid) in owners
  {
    if owners != [] {
      InOwners(owners[..|owners| - 1], devices, uid, d);
      assert owners == owners[..|owners| - 1] + [owners[|owners| - 1]];
    }
  }

  lemma {:induction false} DevicesAreHeld(claims: seq<Claim>, uid: string, d: string)
    ensures d in DevicesOf(claims, uid) <==> Holds(claims, uid, d)
  {
    if claims != [] {
      var front, last := claims[..|claims| - 1], claims[|claims| - 1];
      assert claims == front + [last];
      DevicesAreHeld(front, uid, d);
      if last.results.Some? {
        InOwners(last.owners, last.results.value, uid, d);
      }
    }
  }

  /** One owner more: a pod is given the claim's devices, and any other kind of owner nothing. */
  lemma {:induction false} AddOwner(byPod: map<string, seq<string>>, more: map<string, seq<string>>,
      owners: seq<OwnerRef>, devices: seq<string>, j: nat, u: string)
    requires j < |owners| && HeldIn(more, u) == HeldIn(byPod, u) + FromOwners(owners[..j], devices, u)
    ensures var after := if owners[j].kind != "Pod" then more else Add(more, owners[j].uid, devices);
            HeldIn(after, u) == HeldIn(byPod, u) + FromOwners(owners[..j + 1], devices, u)
  {
    assert owners[..j + 1][..j] == owners[..j];
  }

  method AddClaim(byPod: map<string, seq<string>>, claim: Claim) returns (more: map<string, seq<string>>)
    ensures forall u :: HeldIn(more, u) == HeldIn(byPod, u) + FromClaim(claim, u)
  {
    more := byPod;
    if claim.results.None? {
      return;
    }
    for j := 0 to |claim.owners|
      invariant forall u :: HeldIn(more, u) == HeldIn(byPod, u) + FromOwners(claim.owners[..j], claim.results.value, u)
    {
      forall u {
        AddOwner(byPod, more, claim.owners, claim.results.value, j, u);
      }
      if claim.owners[j].kind != "Pod" {
        continue;
      }
      more := Add(more, claim.owners[j].uid, claim.results.value);
    }
    assert claim.owners[..|claim.owners|] == claim.owners;
  }

  method DevicesByPod(claims: seq<Claim>) returns (byPod: map<string, seq<string>>)
    ensures forall u :: HeldIn(byPod, u) == DevicesOf(claims, u)
  {
    byPod := map[];
    for k := 0 to |claims|
      invariant forall u :: HeldIn(byPod, u) == DevicesOf(claims[..k], u)
    {
      assert claims[..k + 1][..k] == claims[..k];
      byPod := AddClaim(byPod, claims[k]);
    }
    assert claims[..|claims|] == claims;
  }

  /** Each pod as it stands, with exactly the devices given to claims it owns. */
  ghost predicate IsSnapshot(pods: seq<Pod>, claims: seq<Claim>, out: seq<PodState>) {
    && |out| == |pods|
    && (forall i :: 0 <= i < |pods| ==>
          out[i] == PodState(pods[i].uid, pods[i].workload, pods[i].node, pods[i].running, out[i].devices))
    && (forall i, d :: 0 <= i < |pods| ==> (d in out[i].devices <==> Holds(claims, pods[i].uid, d)))
  }

  method SnapshotPods(pods: seq<Pod>, claims: seq<Claim>) returns (out: seq<PodState>)
    ensures IsSnapshot(pods, claims, out)
  {
    var byPod := DevicesByPod(claims);
    out := [];
    for i := 0 to |pods|
      invariant |out| == i
      invariant forall k :: 0 <= k < i ==>
                  out[k] == PodState(pods[k].uid, pods[k].workload, pods[k].node, pods[k].running,
                    DevicesOf(claims, pods[k].uid))
    {
      out := out + [PodState(pods[i].uid, pods[i].workload, pods[i].node, pods[i].running, HeldIn(byPod, pods[i].uid))];
    }
    forall i, d | 0 <= i < |pods|
      ensures d in out[i].devices <==> Holds(claims, pods[i].uid, d)
    {
      DevicesAreHeld(claims, pods[i].uid, d);
    }
  }

  // ---------------------------------------------------------------- records

  /** What a fault did: took a node away, or broke the devices of these names. */
  datatype Blow = Killed(node: string) | Degraded(devices: set<string>)

  ghost predicate IsHit(pod: PodState, blow: Blow) {
    match blow
    case Killed(node) => pod.node == node
    case Degraded(devices) => exists i :: 0 <= i < |pod.devices| && pod.devices[i] in devices
  }

  /** What a look at the namespace lists. */
  datatype Listing = Listing(pods: seq<Pod>, claims: seq<Claim>)

  /** A fault as it fired: what was listed just before, the snapshot made of it, the blow, and the
      store before and after. */
  datatype Firing = Firing(name: string, at: nat, listed: Listing, pods: seq<PodState>, blow: Blow, before: Cluster,
    after: Cluster)

  datatype FaultRecord = FaultRecord(name: string, firedAt: nat, disrupted: map<string, set<string>>)

  function UidsIn(disrupted: map<string, set<string>>, workload: string): set<string> {
    if workload in disrupted then disrupted[workload] else {}
  }

  function AddUid(disrupted: map<string, set<string>>, pod: PodState): map<string, set<string>> {
    disrupted[pod.workload := UidsIn(disrupted, pod.workload) + {pod.uid}]
  }

  /** The pod was running and was hit. */
  ghost predicate IsCasualty(pod: PodState, blow: Blow, workload: string, uid: string) {
    pod.running && pod.workload == workload && pod.uid == uid && IsHit(pod, blow)
  }

  ghost predicate Records(disrupted: map<string, set<string>>, pods: seq<PodState>, blow: Blow) {
    forall w, u :: u in UidsIn(disrupted, w) <==> exists i :: 0 <= i < |pods| && IsCasualty(pods[i], blow, w, u)
  }

  ghost predicate IsRecordOf(r: FaultRecord, f: Firing) {
    r.name == f.name && r.firedAt == f.at && Records(r.disrupted, f.pods, f.blow)
  }

  method IsPodHit(pod: PodState, blow: Blow) returns (hit: bool)
    ensures hit == IsHit(pod, blow)
  {
    match blow {
      case Killed(node) =>
        return pod.node == node;
      case Degraded(devices) =>
        for i := 0 to |pod.devices|
          invariant forall k :: 0 <= k < i ==> pod.devices[k] !in devices
        {
          if pod.devices[i] in devices {
            return true;
          }
        }
        return false;
    }
  }

  lemma {:induction false} RecordsNext(before: map<string, set<string>>, pods: seq<PodState>, blow: Blow, i: nat)
    requires i < |pods| && Records(before, pods[..i], blow)
    ensures Records(if pods[i].running
            && IsHit(pods[i], blow) then AddUid(before, pods[i]) else before, pods[..i + 1], blow)
  {
    var after := if pods[i].running && IsHit(pods[i], blow) then AddUid(before, pods[i]) else before;
    var fewer, more := pods[..i], pods[..i + 1];
    forall w, u
      ensures u in UidsIn(after, w) <==> exists k :: 0 <= k < |more| && IsCasualty(more[k], blow, w, u)
    {
      assert u in UidsIn(after, w) <==> u in UidsIn(before, w) || IsCasualty(pods[i], blow, w, u);
      assert forall k :: 0 <= k < i ==> more[k] == fewer[k];
      assert more[i] == pods[i];
    }
  }

  /** Who the blow took out. */
  method RecordCasualties(pods: seq<PodState>, blow: Blow) returns (disrupted: map<string, set<string>>)
    ensures Records(disrupted, pods, blow)
  {
    disrupted := map[];
    for i := 0 to |pods|
      invariant Records(disrupted, pods[..i], blow)
    {
      RecordsNext(disrupted, pods, blow, i);
      if !pods[i].running {
        continue;
      }
      var hit := IsPodHit(pods[i], blow);
      if hit {
        disrupted := AddUid(disrupted, pods[i]);
      }
    }
    assert pods[..|pods|] == pods;
  }

  // ---------------------------------------------------------------- over a run

  function Casualties(faults: seq<FaultRecord>, workload: string): set<string> {
    if faults == [] then {}
    else Casualties(faults[..|faults| - 1], workload) + UidsIn(faults[|faults| - 1].disrupted, workload)
  }

  /** When the last fault fired; zero time before any did. */
  function LastFired(faults: seq<FaultRecord>): nat {
    if faults == [] then 0
    else
      var last, before := faults[|faults| - 1].firedAt, LastFired(faults[..|faults| - 1]);
      if last > before then last else before
  }

  /** It is when some fault fired, and none fired later. */
  lemma {:induction false} LastFiredIs(faults: seq<FaultRecord>)
    requires faults != []
    ensures exists k :: 0 <= k < |faults| && faults[k].firedAt == LastFired(faults)
    ensures forall k :: 0 <= k < |faults| ==> faults[k].firedAt <= LastFired(faults)
  {
    var front := faults[..|faults| - 1];
    if front == [] {
      assert LastFired(front) == 0 && faults[0].firedAt == LastFired(faults);
    } else {
      LastFiredIs(front);
      assert forall k :: 0 <= k < |front| ==> front[k] == faults[k];
      var k :| 0 <= k < |front| && front[k].firedAt == LastFired(front);
      assert faults[k].firedAt == LastFired(faults) || faults[|faults| - 1].firedAt == LastFired(faults);
    }
  }

  lemma {:induction false} InCasualties(faults: seq<FaultRecord>, workload: string, uid: string)
    ensures uid in Casualties(faults, workload) <==>
            exists k :: 0 <= k < |faults| && uid in UidsIn(faults[k].disrupted, workload)
  {
    if faults != [] {
      var front := faults[..|faults| - 1];
      InCasualties(front, workload, uid);
      assert forall k :: 0 <= k < |front| ==> front[k] == faults[k];
    }
  }

  /** The records are those of the firings, one by one. */
  ghost predicate AreRecordsOf(faults: seq<FaultRecord>, firings: seq<Firing>) {
    |faults| == |firings| && forall k :: 0 <= k < |faults| ==> IsRecordOf(faults[k], firings[k])
  }

  /** A workload's casualties are exactly its pods that were running and hit when some fault fired. */
  lemma {:induction false} CasualtiesExact(faults: seq<FaultRecord>, firings: seq<Firing>, workload: string,
      uid: string)
    requires AreRecordsOf(faults, firings)
    ensures uid in Casualties(faults, workload) <==>
              exists k, i :: 0 <= k < |firings| && 0 <= i < |firings[k].pods|
                && IsCasualty(firings[k].pods[i], firings[k].blow, workload, uid)
  {
    InCasualties(faults, workload, uid);
    if uid in Casualties(faults, workload) {
      var k :| 0 <= k < |faults| && uid in UidsIn(faults[k].disrupted, workload);
      assert IsRecordOf(faults[k], firings[k]);
    }
    forall k, i | 0 <= k < |firings| && 0 <= i < |firings[k].pods|
      && IsCasualty(firings[k].pods[i], firings[k].blow, workload, uid)
      ensures uid in Casualties(faults, workload)
    {
      assert IsRecordOf(faults[k], firings[k]);
      assert uid in UidsIn(faults[k].disrupted, workload);
    }
  }

  /** The listed pod was running and lost its node, or a device given to a claim it owns. */
  ghost predicate IsStruck(listed: Listing, i: int, blow: Blow, workload: string, uid: string) {
    && 0 <= i < |listed.pods| && listed.pods[i].running
    && listed.pods[i].workload == workload && listed.pods[i].uid == uid
    && match blow
       case Killed(node) => listed.pods[i].node == node
       case Degraded(devices) => exists d :: d in devices && Holds(listed.claims, uid, d)
  }

  lemma {:induction false} CasualtyIsStruck(f: Firing, i: int, workload: string, uid: string)
    requires IsSnapshot(f.listed.pods, f.listed.claims, f.pods) && 0 <= i < |f.pods|
    ensures IsCasualty(f.pods[i], f.blow, workload, uid) <==> IsStruck(f.listed, i, f.blow, workload, uid)
  {
    if f.blow.Degraded? && f.listed.pods[i].uid == uid {
      if d :| d in f.blow.devices && Holds(f.listed.claims, uid, d) {
        assert d in f.pods[i].devices;
      }
      if j :| 0 <= j < |f.pods[i].devices| && f.pods[i].devices[j] in f.blow.devices {
        assert Holds(f.listed.claims, uid, f.pods[i].devices[j]);
      }
    }
  }

  /** From the claims to the casualties: the pods counted lost are exactly those that were running
      and lost their node, or a device of a claim they own, to some fault. */
  lemma {:induction false} CasualtiesAreStruck(faults: seq<FaultRecord>, firings: seq<Firing>, workload: string,
      uid: string)
    requires AreRecordsOf(faults, firings)
    requires forall k :: 0 <= k < |firings| ==>
               IsSnapshot(firings[k].listed.pods, firings[k].listed.claims, firings[k].pods)
    ensures uid in Casualties(faults, workload) <==>
              exists k, i :: 0 <= k < |firings| && IsStruck(firings[k].listed, i, firings[k].blow, workload, uid)
  {
    CasualtiesExact(faults, firings, workload, uid);
    forall k, i | 0 <= k < |firings| && 0 <= i < |firings[k].pods|
      ensures IsCasualty(firings[k].pods[i], firings[k].blow, workload, uid) <==>
                IsStruck(firings[k].listed, i, firings[k].blow, workload, uid)
    {
      CasualtyIsStruck(firings[k], i, workload, uid);
    }
  }

  /** Further faults only add casualties. */
  lemma {:induction false} CasualtiesGrow(faults: seq<FaultRecord>, more: seq<FaultRecord>, workload: string)
    ensures Casualties(faults, workload) <= Casualties(faults + more, workload)
  {
    if more == [] {
      assert faults + more == faults;
    } else {
      assert (faults + more)[..|faults + more| - 1] == faults + more[..|more| - 1];
      CasualtiesGrow(faults, more[..|more| - 1], workload);
    }
  }

  // ---------------------------------------------------------------- recovery

  /** The pods of a workload that are running and are not casualties. */
  function Healthy(pods: seq<Pod>, workload: string, casualties: set<string>): nat {
    if pods == [] then 0
    else
      var last := pods[|pods| - 1];
      Healthy(pods[..|pods| - 1], workload, casualties)
      + if last.workload == workload && last.running && last.uid !in casualties then 1 else 0
  }

  function RunningUids(pods: seq<Pod>, workload: string): set<string> {
    set i | 0 <= i < |pods| && pods[i].workload == workload && pods[i].running :: pods[i].uid
  }

  ghost predicate DistinctPods(pods: seq<Pod>) {
    forall i, j :: 0 <= i < j < |pods| ==> pods[i].uid != pods[j].uid
  }

  lemma {:induction false} RunningSnoc(pods: seq<Pod>, workload: string)
    requires DistinctPods(pods) && pods != []
    ensures var fewer, last := RunningUids(pods[..|pods| - 1], workload), pods[|pods| - 1];
            && last.uid !in fewer
            && RunningUids(pods, workload) == if last.workload == workload
              && last.running then fewer + {last.uid} else fewer
  {
    assert pods == pods[..|pods| - 1] + [pods[|pods| - 1]];
  }

  lemma {:induction false} LessOne(s: set<string>, x: string, without: set<string>)
    requires x !in s
    ensures |s + {x} - without| == |s - without| + if x in without then 0 else 1
  {
    if x in without {
      assert s + {x} - without == s - without;
    } else {
      assert s + {x} - without == (s - without) + {x};
    }
  }

  /** Counted by identity: the healthy pods are as many as the running ones outside the set. */
  lemma {:induction false} HealthyAreOthers(pods: seq<Pod>, workload: string, casualties: set<string>)
    requires DistinctPods(pods)
    ensures Healthy(pods, workload, casualties) == |RunningUids(pods, workload) - casualties|
  {
    if pods == [] {
      assert RunningUids(pods, workload) - casualties == {};
    } else {
      var front, last := pods[..|pods| - 1], pods[|pods| - 1];
      HealthyAreOthers(front, workload, casualties);
      RunningSnoc(pods, workload);
      LessOne(RunningUids(front, workload), last.uid, casualties);
    }
  }

  /** The workload is back to strength: something hit it, and as many pods as it has replicas
      are running that were never hit. */
  ghost predicate Recovered(faults: seq<FaultRecord>, workload: string, replicas: int, pods: seq<Pod>) {
    && Casualties(faults, workload) != {}
    && |RunningUids(pods, workload) - Casualties(faults, workload)| >= replicas
  }
}
