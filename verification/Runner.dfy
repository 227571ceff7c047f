/** Running a scenario: its timeline, the faults it fires, and the assertions judged afterwards. */
module Runner {
  import opened Options
  import opened Names
  import opened Sorting
  import opened Resources
  import opened Levels
  import opened Store
  import opened Faults
  import opened Client
  import opened Scenario
  import opened Timeline
  import opened Recovery
  import opened Checks
  import opened Polling
  import opened Time

  // ---------------------------------------------------------------- targets

  function NodesWithLabel(c: Cluster, label_: string, value: string): set<string> {
    set n | n in c.nodes && label_ in c.nodes[n].labels && c.nodes[n].labels[label_] == value
  }

  /** What a degradation is aimed at: attributes, or the nodes with a value of a topology level;
      nothing when the level is unknown or no node has the value. */
  function Target(d: Degrade, c: Cluster): Option<DeviceMatch> {
    if d.devices != map[] then Some(DeviceMatch({}, d.devices))
    else if LabelForLevel(d.level).None? then None
    else
      var nodes := NodesWithLabel(c, LabelForLevel(d.level).value, d.value);
      if nodes == {} then None else Some(DeviceMatch(nodes, map[]))
  }

  /** A fault's blow, given the store before and after it. */
  ghost predicate IsBlow(f: Fault, before: Cluster, after: Cluster, blow: Blow) {
    if f.killNode != "" then blow == Killed(f.killNode) && f.killNode !in after.nodes
    else
      && f.degrade.Some? && Target(f.degrade.value, before).Some?
      && exists hits, names ::
           && Broke(before, after, Target(f.degrade.value, before).value, TaintEffect(f.degrade.value), hits, true)
           && AreHit(before, hits, names) && blow == Degraded(names)
  }

  /** The device is one the degradation describes, in the degradation's own words: it is on a node
      with the value of the level, or has each attribute, as written or under some domain. */
  ghost predicate IsDescribed(d: Degrade, c: Cluster, s: ResourceSlice, device: Device) {
    if d.devices == map[]
    then
      && s.nodeName.Some? && s.nodeName.value in c.nodes
      && exists l :: LevelName(l) == d.level && LevelLabel(l) in c.nodes[s.nodeName.value].labels
           && c.nodes[s.nodeName.value].labels[LevelLabel(l)] == d.value
    else forall name :: name in d.devices ==> HasAttribute(device.attributes, name, d.devices[name])
  }

  ghost predicate HasAttribute(attributes: map<string, string>, name: string, want: string) {
    if name in attributes then attributes[name] == want
    else exists q :: q in attributes && StripDomain(q) == name && attributes[q] == want
  }

  /** Each device described has one taint more, NoExecute where the degradation names no effect, and
      nothing else has changed. */
  ghost predicate DegradesExactly(d: Degrade, before: Cluster, after: Cluster) {
    && after.nodes == before.nodes && after.topologies == before.topologies && after.hyperNodes == before.hyperNodes
    && after.slices.Keys == before.slices.Keys
    && (forall n :: n in before.slices && !ManagedSlice(before, n) ==> after.slices[n] == before.slices[n])
    && (forall n :: ManagedSlice(before, n) ==>
          && after.slices[n] ==
            before.slices[n].(slice := before.slices[n].slice.(devices := after.slices[n].slice.devices))
          && |after.slices[n].slice.devices| == |before.slices[n].slice.devices|)
    && (forall n, j :: ManagedSlice(before, n) && 0 <= j < |before.slices[n].slice.devices| ==>
          var was, now := before.slices[n].slice.devices[j], after.slices[n].slice.devices[j];
          var taint := Taint("gpu-sim.io/faulty", if d.effect == "" then "NoExecute" else d.effect);
          now == if IsDescribed(d, before, before.slices[n].slice, was)
            then was.(taints := was.taints + [taint])
            else was)
  }

  lemma {:induction false} AttributeAgrees(attributes: map<string, string>, name: string, want: string)
    requires Unambiguous(attributes)
    ensures MustAgree(attributes, name, want) <==> HasAttribute(attributes, name, want)
  {
    AgreeExactly(attributes, name, want);
    if HasAttribute(attributes, name, want) && name !in attributes {
      var q :| q in attributes && StripDomain(q) == name && attributes[q] == want;
      assert q in Candidates(attributes, name);
    }
  }

  /** A degradation's target matches exactly what the degradation describes. */
  lemma {:induction false} TargetIsDescribed(d: Degrade, c: Cluster, s: ResourceSlice, device: Device)
    requires Target(d, c).Some? && Unambiguous(device.attributes)
    ensures MustMatch(Target(d, c).value, s, device) <==> IsDescribed(d, c, s, device)
  {
    if d.devices != map[] {
      forall name | name in d.devices {
        AttributeAgrees(device.attributes, name, d.devices[name]);
      }
    } else {
      LevelsByName(d.level);
    }
  }

  /** There is a target whenever something is described: attributes, or a level and value that some
      node has. */
  lemma {:induction false} TargetExists(d: Degrade, c: Cluster)
    ensures Target(d, c).Some? <==>
              d.devices != map[]
              || exists l, n :: LevelName(l) == d.level && n in c.nodes && LevelLabel(l) in c.nodes[n].labels
                   && c.nodes[n].labels[LevelLabel(l)] == d.value
  {
    LevelsByName(d.level);
    forall l, n | LevelName(l) == d.level && n in c.nodes && LevelLabel(l) in c.nodes[n].labels
      && c.nodes[n].labels[LevelLabel(l)] == d.value
      ensures Target(d, c).Some?
    {
      assert n in NodesWithLabel(c, LevelLabel(l), d.value);
    }
    if d.devices == map[] && Target(d, c).Some? {
      var n :| n in Target(d, c).value.nodes;
      var l :| LevelName(l) == d.level;
    }
  }

  lemma {:induction false} TargetDegrades(d: Degrade, before: Cluster, after: Cluster)
    requires Target(d, before).Some? && ClusterUnambiguous(before)
    requires TaintsExactly(before, after, Target(d, before).value, TaintEffect(d))
    ensures DegradesExactly(d, before, after)
  {
    forall n, j | ManagedSlice(before, n) && 0 <= j < |before.slices[n].slice.devices|
      ensures MustMatch(Target(d, before).value, before.slices[n].slice, before.slices[n].slice.devices[j]) <==>
                IsDescribed(d, before, before.slices[n].slice, before.slices[n].slice.devices[j])
    {
      assert SliceUnambiguous(before.slices[n].slice);
      TargetIsDescribed(d, before, before.slices[n].slice, before.slices[n].slice.devices[j]);
    }
  }

  // ---------------------------------------------------------------- the timeline

  datatype Started = Started(event: Event, offset: int)

  /** The events started are the first of the timeline, none before its offset. */
  ghost predicate OnTime(log: seq<Started>, timeline: seq<Event>) {
    && |log| <= |timeline|
    && (forall i :: 0 <= i < |log| ==> log[i].event == timeline[i] && log[i].offset >= timeline[i].at)
    && (forall i, j :: 0 <= i < j < |log| ==> log[i].offset <= log[j].offset)
  }

  /** The fault fired: its blow landed on the store, and the snapshot is of what was listed. */
  ghost predicate IsFiringOf(fired: Firing, f: Fault) {
    && fired.name == f.name && IsBlow(f, fired.before, fired.after, fired.blow)
    && (f.killNode != "" ==> fired.after == fired.before.(nodes := fired.before.nodes - {f.killNode}))
    && (f.killNode == "" && ClusterUnambiguous(fired.before) ==>
          DegradesExactly(f.degrade.value, fired.before, fired.after))
    && IsSnapshot(fired.listed.pods, fired.listed.claims, fired.pods)
  }

  /** What is started was started no earlier than its own declaration says. */
  ghost predicate StartsWhenDeclared(s: Started) {
    match s.event.what
    case Submit(w) => s.offset >= w.submitAt
    case Retire(w) => s.offset >= w.retireAt
    case Break(f) => s.offset >= f.at
  }

  /** The faults fired are those of the events, in order, and what they did to the store, one after
      another, is all that was done to it. */
  ghost predicate FiredBy(fired: seq<Firing>, events: seq<Event>, start: Cluster, now: Cluster) {
    if events == [] then fired == [] && now == start
    else
      var front, last := events[..|events| - 1], events[|events| - 1].what;
      if last.Break? then
        && fired != [] && IsFiringOf(fired[|fired| - 1], last.fault) && fired[|fired| - 1].after == now
        && FiredBy(fired[..|fired| - 1], front, start, fired[|fired| - 1].before)
      else FiredBy(fired, front, start, now)
  }

  /** One event adds its fault, if it is one. */
  ghost predicate Adds(before: seq<Firing>, after: seq<Firing>, e: Event, was: Cluster, now: Cluster) {
    if e.what.Break? then
      && |after| == |before| + 1 && before <= after && IsFiringOf(after[|before|], e.what.fault)
      && after[|before|].before == was && after[|before|].after == now
    else after == before && now == was
  }

  lemma {:induction false} FiredNext(before: seq<Firing>, after: seq<Firing>, from: nat, events: seq<Event>, i: nat,
      start: Cluster, was: Cluster, now: Cluster)
    requires i < |events| && from <= |before| && FiredBy(before[from..], events[..i], start, was)
    requires Adds(before, after, events[i], was, now)
    ensures FiredBy(after[from..], events[..i + 1], start, now)
  {
    assert events[..i + 1][..i] == events[..i];
    if events[i].what.Break? {
      assert after[from..][..|after| - from - 1] == before[from..];
    }
  }

  lemma {:induction false} FiringKeepsUnambiguous(fired: Firing, f: Fault)
    requires IsFiringOf(fired, f) && ClusterUnambiguous(fired.before)
    ensures ClusterUnambiguous(fired.after)
  {
    forall n | ManagedSlice(fired.after, n)
      ensures SliceUnambiguous(fired.after.slices[n].slice)
    {
      assert ManagedSlice(fired.before, n) && SliceUnambiguous(fired.before.slices[n].slice);
    }
  }

  /** So over a whole run in a cluster that an apply has left, each degradation breaks exactly the
      devices it describes. */
  lemma {:induction false} RunBreaksExactly(fired: seq<Firing>, events: seq<Event>, start: Cluster, now: Cluster)
    requires FiredBy(fired, events, start, now) && ClusterUnambiguous(start)
    ensures ClusterUnambiguous(now)
    ensures forall k :: 0 <= k < |fired| ==> ClusterUnambiguous(fired[k].before)
  {
    if events != [] {
      var front, last := events[..|events| - 1], events[|events| - 1].what;
      if last.Break? {
        RunBreaksExactly(fired[..|fired| - 1], front, start, fired[|fired| - 1].before);
        FiringKeepsUnambiguous(fired[|fired| - 1], last.fault);
      } else {
        RunBreaksExactly(fired, front, start, now);
      }
    }
  }

  /** A fault that does something, or no fault. */
  ghost predicate Fires(e: Event) {
    e.what.Break? ==> e.what.fault.killNode != "" || e.what.fault.degrade.Some?
  }

  class Runner {
    const client: Client
    const clock: Clock
    var faults: seq<FaultRecord>
    ghost var firings: seq<Firing>

    constructor (client: Client, clock: Clock)
      ensures this.client == client && this.clock == clock && faults == [] && firings == []
    {
      this.client, this.clock := client, clock;
      faults, firings := [], [];
    }

    /** The records kept are those of the faults that fired. */
    ghost predicate Valid()
      reads this
    {
      AreRecordsOf(faults, firings)
    }

    // -------------------------------------------------------------- faults

    method AimAt(d: Degrade) returns (r: Option<DeviceMatch>)
      ensures r == Target(d, client.store) || (r.None? && d.devices == map[])
    {
      if |d.devices| > 0 {
        return Some(DeviceMatch({}, d.devices));
      }
      var label_ := LabelForLevel(d.level);
      if label_.None? {
        return None;
      }
      var listed: bool := *;
      if !listed {
        return None;
      }
      var nodes := NodesWithLabel(client.store, label_.value, d.value);
      if |nodes| == 0 {
        return None;
      }
      return Some(DeviceMatch(nodes, map[]));
    }

    /** One fault. The pods are looked at before it lands, if they can be listed; the record is kept
        only if it does. */
    method Fire(f: Fault, seen: Option<Listing>) returns (ok: bool)
      requires Valid() && (f.killNode != "" || f.degrade.Some?)
      modifies this, client, clock
      ensures Valid() && old(clock.now) <= clock.now
      ensures !ok ==> faults == old(faults) && firings == old(firings)
      ensures ok ==>
                && seen.Some? && |firings| == |old(firings)| + 1 && old(firings) <= firings && old(faults) <= faults
                && var last := firings[|firings| - 1];
                   && IsFiringOf(last, f) && last.listed == seen.value && old(clock.now) <= last.at <= clock.now
                   && last.before == old(client.store) && last.after == client.store
      ensures ok && f.killNode != "" ==>
              client.store == old(client.store).(nodes := old(client.store).nodes - {f.killNode})
      ensures ok && f.killNode == "" && ClusterUnambiguous(old(client.store)) ==>
              DegradesExactly(f.degrade.value, old(client.store), client.store)
    {
      if seen.None? {
        return false;
      }
      var pods := SnapshotPods(seen.value.pods, seen.value.claims);
      var firedAt := clock.Read();
      var blow: Blow;
      if f.killNode != "" {
        ok := client.DeleteNode(f.killNode);
        if !ok {
          return;
        }
        DeleteIsStep(old(client.store), f.killNode, ok, client.store);
        ExecutedOk(old(client.store), [DeleteNode(f.killNode)], client.store);
        OneCall(old(client.store), DeleteNode(f.killNode));
        blow := Killed(f.killNode);
      } else {
        var m := AimAt(f.degrade.value);
        if m.None? {
          return false;
        }
        var tainted: set<string>;
        ghost var hits;
        ok, tainted, hits := client.TaintDevices(m.value, TaintEffect(f.degrade.value));
        if !ok {
          return;
        }
        blow := Degraded(tainted);
        if ClusterUnambiguous(old(client.store)) {
          TargetDegrades(f.degrade.value, old(client.store), client.store);
        }
      }
      var disrupted := RecordCasualties(pods, blow);
      faults := faults + [FaultRecord(f.name, firedAt, disrupted)];
      firings := firings + [Firing(f.name, firedAt, seen.value, pods, blow, old(client.store), client.store)];
    }

    /** Who any fault took from a workload, and when the last one fired. */
    method DisruptedFor(workload: string) returns (uids: set<string>, last: int, fired: bool)
      ensures uids == Casualties(faults, workload) && last == LastFired(faults) && fired == (faults != [])
    {
      uids, last := {}, 0;
      for k := 0 to |faults|
        invariant uids == Casualties(faults[..k], workload) && last == LastFired(faults[..k])
      {
        assert faults[..k + 1][..k] == faults[..k];
        uids := uids + UidsIn(faults[k].disrupted, workload);
        if faults[k].firedAt > last {
          last := faults[k].firedAt;
        }
      }
      assert faults[..|faults|] == faults;
      fired := |faults| > 0;
    }

    // -------------------------------------------------------------- the run

    /** One event: a fault fires, or a workload is submitted or retired by calls that take time
        and may fail. */
    method Begin(e: Event) returns (ok: bool)
      requires Valid() && Fires(e)
      modifies this, client, clock
      ensures Valid() && old(clock.now) <= clock.now
      ensures old(firings) <= firings && old(faults) <= faults
      ensures ok ==> Adds(old(firings), firings, e, old(client.store), client.store)
    {
      match e.what {
        case Break(f) =>
          var seen: Option<Listing> := *;
          ok := Fire(f, seen);
        case _ =>
          clock.Pass();
          ok := *;
      }
    }

    /** Wait for what is left of an offset, if anything is. */
    method AwaitOffset(start: int, offset: int) returns (cancelled: bool)
      modifies clock
      ensures old(clock.now) <= clock.now && (!cancelled ==> clock.now - start >= offset)
    {
      var now := clock.Read();
      if offset - (now - start) > 0 {
        cancelled := clock.Wait(offset - (now - start));
      } else {
        cancelled := false;
      }
    }

    /** Each event in turn, once its offset is reached; the first error ends the run. */
    method RunEvents(events: seq<Event>) returns (ok: bool, log: seq<Started>)
      requires Valid() && (forall i :: 0 <= i < |events| ==> Fires(events[i])) && SortedBy(NoLater, events)
      modifies this, client, clock
      ensures Valid() && OnTime(log, events)
      ensures old(firings) <= firings && old(faults) <= faults
      ensures ok ==>
              |log| == |events| && FiredBy(firings[|old(firings)|..], events, old(client.store), client.store)
    {
      var start := clock.Read();
      log := [];
      for i := 0 to |events|
        invariant Valid() && |log| == i && OnTime(log, events)
        invariant forall k :: 0 <= k < i ==> log[k].offset <= clock.now - start
        invariant old(firings) <= firings && old(faults) <= faults
        invariant FiredBy(firings[|old(firings)|..], events[..i], old(client.store), client.store)
      {
        var e := events[i];
        var cancelled := AwaitOffset(start, e.at);
        if cancelled {
          return false, log;
        }
        OnTimeNext(log, events, clock.now - start);
        log := log + [Started(e, clock.now - start)];
        ghost var before, was := firings, client.store;
        ok := Begin(e);
        if !ok {
          return false, log;
        }
        FiredNext(before, firings, |old(firings)|, events, i, old(client.store), was, client.store);
      }
      assert events[..|events|] == events;
      ok := true;
    }

    /** The declared events, stably sorted by offset, then run. */
    method RunTimeline(ws: seq<Workload>, fs: seq<Fault>) returns (ok: bool, log: seq<Started>)
      requires Valid() && ValidFaults(fs)
      modifies this, client, clock
      ensures Valid() && OnTime(log, Timeline.Timeline(ws, fs))
      ensures old(firings) <= firings && old(faults) <= faults
      ensures ok ==> |log| == |Timeline.Timeline(ws, fs)|
      ensures forall k :: 0 <= k < |log| ==> StartsWhenDeclared(log[k])
      ensures ok ==> FiredBy(firings[|old(firings)|..], Timeline.Timeline(ws, fs), old(client.store), client.store)
    {
      var declared := BuildEvents(ws, fs);
      var events := Sort(NoLater, declared);
      EventsFire(ws, fs);
      ok, log := RunEvents(events);
      forall k | 0 <= k < |log|
        ensures StartsWhenDeclared(log[k])
      {
        OffsetIsDeclared(ws, fs, k);
      }
    }

    // -------------------------------------------------------------- assertions

    method CheckScheduled(a: Assertion, replicas: int, pods: Option<seq<Pod>>) returns (ok: bool)
      ensures ok <==>
                && ExpectedScheduled(a, replicas).Some? && pods.Some?
                && Placed(pods.value, a.workload) == ExpectedScheduled(a, replicas).value
      ensures ok ==> pods.Some?
      ensures pods.Some? && DistinctPods(pods.value) ==>
                var placed := set i | 0 <= i < |pods.value| && pods.value[i].workload == a.workload
                  && pods.value[i].node != "" :: pods.value[i].uid;
                && (a.scheduled == "all" ==> (ok <==> |placed| == replicas))
                && (a.scheduled == "none" ==> (ok <==> placed == {}))
                && (forall n: nat :: n <= MAX_INT && a.scheduled == Itoa(n) ==> (ok <==> |placed| == n))
    {
      if pods.Some? && DistinctPods(pods.value) {
        PlacedAre(pods.value, a.workload);
      }
      forall n: nat | n <= MAX_INT && a.scheduled == Itoa(n)
        ensures ExpectedScheduled(a, replicas) == Some(n)
      {
        ExpectedIs(a, replicas, n);
      }
      ExpectedIs(a, replicas, 0);
      var want := ExpectedScheduled(a, replicas);
      if want.None? || pods.None? {
        return false;
      }
      var got := 0;
      for k := 0 to |pods.value|
        invariant got == Placed(pods.value[..k], a.workload)
      {
        assert pods.value[..k + 1][..k] == pods.value[..k];
        if pods.value[k].workload == a.workload && pods.value[k].node != "" {
          got := got + 1;
        }
      }
      assert pods.value[..|pods.value|] == pods.value;
      ok := got == want.value;
    }

    /** The running pods of a workload that are not in a set. */
    method CountHealthy(pods: seq<Pod>, workload: string, casualties: set<string>) returns (healthy: nat)
      ensures healthy == Healthy(pods, workload, casualties)
    {
      healthy := 0;
      for k := 0 to |pods|
        invariant healthy == Healthy(pods[..k], workload, casualties)
      {
        assert pods[..k + 1][..k] == pods[..k];
        if pods[k].workload == workload && pods[k].running && pods[k].uid !in casualties {
          healthy := healthy + 1;
        }
      }
      assert pods[..|pods|] == pods;
    }

    method CheckDisrupted(a: Assertion) returns (ok: bool)
      requires a.disrupted.Some?
      ensures ok <==> faults != [] && |Casualties(faults, a.workload)| == a.disrupted.value
    {
      var uids, last, fired := DisruptedFor(a.workload);
      ok := fired && |uids| == a.disrupted.value;
    }

    method CheckRescheduled(a: Assertion, replicas: int, pods: Option<seq<Pod>>) returns (ok: bool)
      ensures ok <==>
                && faults != [] && Casualties(faults, a.workload) != {}
                && pods.Some? && Healthy(pods.value, a.workload, Casualties(faults, a.workload)) >= replicas
    {
      var disrupted, last, fired := DisruptedFor(a.workload);
      if !fired || |disrupted| == 0 || pods.None? {
        return false;
      }
      var healthy := CountHealthy(pods.value, a.workload, disrupted);
      ok := healthy >= replicas;
    }

    method Check(a: Assertion, replicas: int, view: View) returns (ok: bool)
      ensures ok == CheckOk(a, replicas, faults, view)
    {
      if a.scheduled != "" {
        ok := CheckScheduled(a, replicas, view.pods);
      } else if a.confinedTo != "" {
        ok := CheckConfined(a, view);
      } else if a.running.Some? {
        if view.pods.None? {
          return false;
        }
        var got := CountHealthy(view.pods.value, a.workload, {});
        ok := got == a.running.value;
      } else if |a.allocatedDevices| > 0 {
        ok := CheckAllocated(a, view);
      } else if a.unschedulableReason != "" {
        ok := CheckReason(a, view);
      } else if a.disrupted.Some? {
        ok := CheckDisrupted(a);
      } else if a.rescheduledWithin > 0 {
        ok := CheckRescheduled(a, replicas, view.pods);
      } else if a.fragmentation.Some? {
        ok := CheckFragmentation(a, view);
      } else {
        ok := false;
      }
    }

    /** One check, on whatever the cluster shows at the time. */
    method TakeLook(a: Assertion, replicas: int) returns (look: Look)
      modifies clock
      ensures look.began == old(clock.now) && look.read == clock.now >= look.began
      ensures IsCheck(a, replicas, faults, look)
    {
      var began := clock.now;
      var view: View := *;
      var ok := Check(a, replicas, view);
      var read := clock.Read();
      look := Look(began, view, ok, read);
    }

    /** Checks are made until one passes or the deadline has gone by. */
    method Poll(a: Assertion, replicas: int, until: int) returns (passed: bool, cancelled: bool, ghost trace: seq<Look>)
      modifies clock
      ensures AreChecks(a, replicas, faults, trace)
      ensures IsPolled(trace, old(clock.now), until, passed, cancelled)
    {
      cancelled := false;
      var look := TakeLook(a, replicas);
      trace := [look];
      while !look.ok && look.read <= until
        invariant trace != [] && trace[|trace| - 1] == look && clock.now == look.read
        invariant IsPolling(trace, old(clock.now), until)
        invariant AreChecks(a, replicas, faults, trace)
        decreases until - look.read
      {
        cancelled := clock.Wait(POLL_INTERVAL);
        if cancelled {
          return false, true, trace;
        }
        look := TakeLook(a, replicas);
        trace := trace + [look];
      }
      passed := look.ok;
    }

    /** Settling waits out the whole period and checks once; otherwise the assertion is polled. */
    method Evaluate(a: Assertion, replicas: int) returns (passed: bool, cancelled: bool, ghost trace: seq<Look>,
        ghost asked: int, ghost start: int)
      modifies clock
      ensures asked >= old(clock.now)
      ensures IsEvaluated(a, replicas, faults, asked, start, trace, passed, cancelled)
    {
      if a.settle > 0 {
        passed, trace := false, [];
        asked, start := clock.now, clock.now;
        cancelled := clock.Wait(a.settle);
        if cancelled {
          return;
        }
        var look := TakeLook(a, replicas);
        passed, trace := look.ok, [look];
        return;
      }
      var now := clock.Read();
      asked := now;
      var until := now + if a.within <= 0 then DEFAULT_WAIT else a.within;
      if a.rescheduledWithin > 0 {
        var uids, last, fired := DisruptedFor(a.workload);
        if fired {
          until := last + a.rescheduledWithin;
        }
      }
      clock.Pass();
      start := clock.now;
      passed, cancelled, trace := Poll(a, replicas, until);
    }
  }

  lemma {:induction false} OnTimeNext(log: seq<Started>, events: seq<Event>, offset: int)
    requires OnTime(log, events) && |log| < |events| && offset >= events[|log|].at
    requires forall k :: 0 <= k < |log| ==> log[k].offset <= offset
    ensures OnTime(log + [Started(events[|log|], offset)], events)
  {
  }

  lemma {:induction false} EventsFire(ws: seq<Workload>, fs: seq<Fault>)
    requires ValidFaults(fs)
    ensures SortedBy(NoLater, Timeline.Timeline(ws, fs))
    ensures forall i :: 0 <= i < |Timeline.Timeline(ws, fs)| ==> Fires(Timeline.Timeline(ws, fs)[i])
  {
    forall i | 0 <= i < |Timeline.Timeline(ws, fs)|
      ensures Fires(Timeline.Timeline(ws, fs)[i])
    {
      InTimeline(ws, fs, i);
    }
    InOrder(ws, fs);
  }

  // ---------------------------------------------------------------- what a pass means

  /** The pod was hit when some fault fired. */
  ghost predicate WasHit(firings: seq<Firing>, workload: string, uid: string) {
    exists k, i :: 0 <= k < |firings| && 0 <= i < |firings[k].pods|
      && IsCasualty(firings[k].pods[i], firings[k].blow, workload, uid)
  }

  /** A recovery assertion that passes saw as many pods running as the workload has replicas,
      none of which any fault had hit, after at least one pod had been: no casualty is counted
      as its own replacement. */
  lemma {:induction false} PassMeansRecovered(a: Assertion, replicas: int, faults: seq<FaultRecord>,
      firings: seq<Firing>, look: Look)
      returns (survivors: set<string>)
    requires AreRecordsOf(faults, firings) && SetsOne(a) && a.rescheduledWithin > 0
    requires look.ok && look.ok == CheckOk(a, replicas, faults, look.view)
    requires look.view.pods.Some? ==> DistinctPods(look.view.pods.value)
    ensures look.view.pods.Some? && survivors <= RunningUids(look.view.pods.value, a.workload)
            && |survivors| >= replicas
    ensures forall u :: u in survivors ==> !WasHit(firings, a.workload, u)
    ensures exists u :: WasHit(firings, a.workload, u)
  {
    RescheduledIsRecovered(a, replicas, faults, look.view);
    var casualties := Casualties(faults, a.workload);
    survivors := RunningUids(look.view.pods.value, a.workload) - casualties;
    forall u
      ensures u in casualties <==> WasHit(firings, a.workload, u)
    {
      CasualtiesExact(faults, firings, a.workload, u);
    }
    var hit :| hit in casualties;
    assert WasHit(firings, a.workload, hit);
  }

  // ---------------------------------------------------------------- devices and nodes

  /** The pod holds a device that was broken on the pod's own node. */
  ghost predicate LostDevice(pod: PodState, before: Cluster, hits: map<string, seq<bool>>) {
    exists n, i :: ManagedSlice(before, n) && n in hits && before.slices[n].slice.nodeName == Some(pod.node)
      && 0 <= i < |pod.devices| && pod.devices[i] in HitNames(before.slices[n].slice.devices, hits[n])
  }

  ghost predicate Publishes(c: Cluster, n: string, device: string) {
    && ManagedSlice(c, n)
    && exists j :: 0 <= j < |c.slices[n].slice.devices| && c.slices[n].slice.devices[j].name == device
  }

  /** A device name is published on one node only. */
  ghost predicate NamesSayNode(c: Cluster) {
    forall n, m, d :: Publishes(c, n, d) && Publishes(c, m, d) ==>
      c.slices[n].slice.nodeName == c.slices[m].slice.nodeName
  }

  /** What a pod holds is published on its node. */
  ghost predicate HoldsOwn(pod: PodState, c: Cluster) {
    forall i :: 0 <= i < |pod.devices| ==>
      exists n :: Publishes(c, n, pod.devices[i]) && c.slices[n].slice.nodeName == Some(pod.node)
  }

  lemma {:induction false} HitIsPublished(c: Cluster, n: string, hits: seq<bool>, d: string)
    requires ManagedSlice(c, n) && d in HitNames(c.slices[n].slice.devices, hits)
    ensures Publishes(c, n, d)
  {
  }

  /** Who lost a device is always recorded; and where a device name says which node it is on,
      nobody else is. */
  lemma {:induction false} RecordedIsLost(pod: PodState, before: Cluster, hits: map<string, seq<bool>>,
      names: set<string>)
    requires AreHit(before, hits, names)
    ensures LostDevice(pod, before, hits) ==> IsHit(pod, Degraded(names))
    ensures NamesSayNode(before) && HoldsOwn(pod, before) && IsHit(pod, Degraded(names)) ==>
            LostDevice(pod, before, hits)
  {
    if NamesSayNode(before) && HoldsOwn(pod, before) && IsHit(pod, Degraded(names)) {
      var i :| 0 <= i < |pod.devices| && pod.devices[i] in names;
      var n :| ManagedSlice(before, n) && n in hits
        && pod.devices[i] in HitNames(before.slices[n].slice.devices, hits[n]);
      HitIsPublished(before, n, hits[n], pod.devices[i]);
      var m :| Publishes(before, m, pod.devices[i]) && before.slices[m].slice.nodeName == Some(pod.node);
      assert before.slices[n].slice.nodeName == before.slices[m].slice.nodeName;
    }
  }

  ghost predicate FairHits(m: DeviceMatch, c: Cluster, hits: map<string, seq<bool>>) {
    forall n :: ManagedSlice(c, n) ==> n in hits && Fair(m, c.slices[n].slice, hits[n])
  }

  /** Whatever a fault is aimed at, the pods recorded are those that lost a device. */
  ghost predicate RecordsExact(c: Cluster) {
    forall m, hits, names, pod :: FairHits(m, c, hits) && AreHit(c, hits, names) && HoldsOwn(pod, c) ==>
      (IsHit(pod, Degraded(names)) <==> LostDevice(pod, c, hits))
  }

  /** A pod that holds a partition is recorded when the partition of the same name on another
      node breaks, though its own did not. */
  lemma {:induction false} TwinIsRecorded(c: Cluster, n: string, k: string, d: string)
    requires Publishes(c, n, d) && Publishes(c, k, d)
    requires c.slices[n].slice.nodeName.Some? && c.slices[k].slice.nodeName.Some?
             && c.slices[n].slice.nodeName != c.slices[k].slice.nodeName
    ensures !RecordsExact(c)
  {
    var m := DeviceMatch({c.slices[n].slice.nodeName.value}, map[]);
    var hits := SomeHits(m, c);
    var names := set i, x | i in c.slices && ManagedSlice(c, i)
      && x in HitNames(c.slices[i].slice.devices, hits[i]) :: x;
    var pod := PodState("", "", c.slices[k].slice.nodeName.value, true, [d]);
    assert FairHits(m, c, hits) && AreHit(c, hits, names) && HoldsOwn(pod, c);
    AllOnNode(m, c, hits, n, d);
    assert pod.devices[0] in names && IsHit(pod, Degraded(names));
    forall j | ManagedSlice(c, j) && c.slices[j].slice.nodeName == Some(pod.node)
      ensures HitNames(c.slices[j].slice.devices, hits[j]) == {}
    {
      assert Fair(m, c.slices[j].slice, hits[j]) && !OnNodes(m, c.slices[j].slice);
    }
    assert !LostDevice(pod, c, hits);
  }

  lemma {:induction false} AllOnNode(m: DeviceMatch, c: Cluster, hits: map<string, seq<bool>>, n: string, d: string)
    requires FairHits(m, c, hits) && Publishes(c, n, d) && m.nodes != {} && OnNodes(m, c.slices[n].slice)
    ensures n in hits && d in HitNames(c.slices[n].slice.devices, hits[n])
  {
    var j :| 0 <= j < |c.slices[n].slice.devices| && c.slices[n].slice.devices[j].name == d;
    assert Fair(m, c.slices[n].slice, hits[n]) && MustMatch(m, c.slices[n].slice, c.slices[n].slice.devices[j]);
  }

  /** Casualties are told from device names across the whole cluster, and partition names do not
      say which node they are on. Recording is exact when and only when no device name is
      published on two nodes. */
  lemma {:induction false} RecordsExactUnlessNamesShared(c: Cluster)
    requires forall n :: ManagedSlice(c, n) ==> c.slices[n].slice.nodeName.Some?
    ensures RecordsExact(c) <==> NamesSayNode(c)
  {
    if NamesSayNode(c) {
      forall m, hits, names, pod | FairHits(m, c, hits) && AreHit(c, hits, names) && HoldsOwn(pod, c)
        ensures IsHit(pod, Degraded(names)) <==> LostDevice(pod, c, hits)
      {
        RecordedIsLost(pod, c, hits, names);
      }
    } else {
      var n, k, d :| Publishes(c, n, d) && Publishes(c, k, d)
        && c.slices[n].slice.nodeName != c.slices[k].slice.nodeName;
      TwinIsRecorded(c, n, k, d);
    }
  }
}
