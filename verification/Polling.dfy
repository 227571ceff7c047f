/** How long an assertion is given, and what its outcome says about the checks that were made. */
module Polling {
  import opened Options
  import opened Names
  import opened Levels
  import opened Scenario
  import opened Recovery
  import opened Checks
  import opened Time

  const DEFAULT_WAIT := 60 * SECOND
  const POLL_INTERVAL := 2 * SECOND

  /** One check: when it began, what it saw, its outcome, and the clock read after a failure. */
  datatype Look = Look(began: int, view: View, ok: bool, read: int)

  // ---------------------------------------------------------------- checks

  /** The condition an assertion is checked by: the first it sets. */
  function FirstSet(a: Assertion): Option<Condition> {
    if a.scheduled != "" then Some(Scheduled)
    else if a.confinedTo != "" then Some(ConfinedTo)
    else if a.running.Some? then Some(Running)
    else if a.allocatedDevices != map[] then Some(AllocatedDevices)
    else if a.unschedulableReason != "" then Some(UnschedulableReason)
    else if a.disrupted.Some? then Some(Disrupted)
    else if a.rescheduledWithin > 0 then Some(Rescheduled)
    else if a.fragmentation.Some? then Some(Fragmentation)
    else None
  }

  lemma {:induction false} FirstIsTheOne(a: Assertion, c: Condition)
    requires SetsOne(a) && Sets(a, c)
    ensures FirstSet(a) == Some(c)
  {
    assert forall d :: Sets(a, d) ==> d == c;
    assert Sets(a, Scheduled) <==> a.scheduled != "";
    assert Sets(a, ConfinedTo) <==> a.confinedTo != "";
    assert Sets(a, Running) <==> a.running.Some?;
    assert Sets(a, AllocatedDevices) <==> a.allocatedDevices != map[];
    assert Sets(a, UnschedulableReason) <==> a.unschedulableReason != "";
    assert Sets(a, Disrupted) <==> a.disrupted.Some?;
    assert Sets(a, Rescheduled) <==> a.rescheduledWithin > 0;
    assert Sets(a, Fragmentation) <==> a.fragmentation.Some?;
  }

  /** Whether an assertion holds of what is seen. */
  ghost predicate CheckOk(a: Assertion, replicas: int, faults: seq<FaultRecord>, view: View) {
    match FirstSet(a)
    case None => false
    case Some(Scheduled) =>
      ExpectedScheduled(a, replicas).Some? && view.pods.Some?
      && Placed(view.pods.value, a.workload) == ExpectedScheduled(a, replicas).value
    case Some(ConfinedTo) =>
      LabelForLevel(a.confinedTo).Some? && view.pods.Some?
      && Confined(view.pods.value, a.workload, view.labels, LabelForLevel(a.confinedTo).value)
    case Some(Running) => view.pods.Some? && Healthy(view.pods.value, a.workload, {}) == a.running.value
    case Some(AllocatedDevices) =>
      view.holdings.Some? && view.attributes.Some? && view.holdings.value != map[]
      && AllCarry(view.holdings.value, view.attributes.value, a.allocatedDevices)
    case Some(UnschedulableReason) =>
      exists k :: 0 <= k < |view.reasons| && Contains(view.reasons[k], a.unschedulableReason)
    case Some(Disrupted) => faults != [] && |Casualties(faults, a.workload)| == a.disrupted.value
    case Some(Rescheduled) =>
      faults != [] && Casualties(faults, a.workload) != {} && view.pods.Some?
      && Healthy(view.pods.value, a.workload, Casualties(faults, a.workload)) >= replicas
    case Some(Fragmentation) =>
      a.fragmentation.Some? && view.nodes.Some? && view.nodes.value != []
      && WithinBounds(LostIn(view.nodes.value), a.fragmentation.value)
  }

  /** A passing recovery check saw a workload that had been hit and was back to strength without
      counting any pod that was ever hit. */
  lemma {:induction false} RescheduledIsRecovered(a: Assertion, replicas: int, faults: seq<FaultRecord>, view: View)
    requires SetsOne(a) && a.rescheduledWithin > 0 && (view.pods.Some? ==> DistinctPods(view.pods.value))
    ensures CheckOk(a, replicas, faults, view) <==>
              view.pods.Some? && Recovered(faults, a.workload, replicas, view.pods.value)
  {
    assert Sets(a, Rescheduled);
    FirstIsTheOne(a, Rescheduled);
    if view.pods.Some? {
      HealthyAreOthers(view.pods.value, a.workload, Casualties(faults, a.workload));
    }
  }

  // ---------------------------------------------------------------- what each condition asks

  /** "all", "none" and a number, by the word written and by the pods that have a node. */
  lemma {:induction false} ScheduledIsCounted(a: Assertion, replicas: int, faults: seq<FaultRecord>, view: View, n: nat)
    requires SetsOne(a) && a.scheduled != "" && view.pods.Some? && DistinctPods(view.pods.value) && n <= MAX_INT
    ensures var pods := view.pods.value;
            var placed := set i | 0 <= i < |pods| && pods[i].workload == a.workload
              && pods[i].node != "" :: pods[i].uid;
            && (a.scheduled == "all" ==> (CheckOk(a, replicas, faults, view) <==> |placed| == replicas))
            && (a.scheduled == "none" ==> (CheckOk(a, replicas, faults, view) <==> placed == {}))
            && (a.scheduled == Itoa(n) ==> (CheckOk(a, replicas, faults, view) <==> |placed| == n))
  {
    assert Sets(a, Scheduled);
    FirstIsTheOne(a, Scheduled);
    PlacedAre(view.pods.value, a.workload);
    ExpectedIs(a, replicas, n);
  }

  lemma {:induction false} RunningIsCounted(a: Assertion, replicas: int, faults: seq<FaultRecord>, view: View)
    requires SetsOne(a) && a.running.Some? && view.pods.Some? && DistinctPods(view.pods.value)
    ensures var pods := view.pods.value;
            CheckOk(a, replicas, faults, view) <==>
              |set i | 0 <= i < |pods| && pods[i].workload == a.workload && pods[i].running :: pods[i].uid| ==
                a.running.value
  {
    assert Sets(a, Running);
    FirstIsTheOne(a, Running);
    HealthyAreOthers(view.pods.value, a.workload, {});
    assert RunningUids(view.pods.value, a.workload) - {} == RunningUids(view.pods.value, a.workload);
  }

  /** Confinement to a level, by the name the level is published under. */
  lemma {:induction false} ConfinedToLevel(a: Assertion, replicas: int, faults: seq<FaultRecord>, view: View, l: Level)
    requires SetsOne(a) && a.confinedTo == LevelName(l)
    ensures CheckOk(a, replicas, faults, view) <==>
              && view.pods.Some?
              && (exists i :: 0 <= i < |view.pods.value| && view.pods.value[i].workload == a.workload
                    && view.pods.value[i].node != "")
              && exists v :: AllHaveLabel(view.pods.value, a.workload, view.labels, LevelLabel(l), v)
  {
    assert a.confinedTo[0] in a.confinedTo;
    assert Sets(a, ConfinedTo);
    FirstIsTheOne(a, ConfinedTo);
    LevelsByName(a.confinedTo);
    if view.pods.Some? {
      ConfinedIsOneValue(view.pods.value, a.workload, view.labels, LevelLabel(l));
    }
  }

  /** Every device a pod of the workload holds is published, and reads as wanted. */
  lemma {:induction false} AllocatedRead(a: Assertion, replicas: int, faults: seq<FaultRecord>, view: View)
    requires SetsOne(a) && a.allocatedDevices != map[] && view.holdings.Some? && view.attributes.Some?
    ensures CheckOk(a, replicas, faults, view) <==>
              && (exists pod :: pod in view.holdings.value)
              && forall pod, k :: pod in view.holdings.value && 0 <= k < |view.holdings.value[pod]| ==>
                   var device := view.holdings.value[pod][k];
                   && device in view.attributes.value
                   && forall name :: name in a.allocatedDevices ==>
                        HasLabel(view.attributes.value, device, name, a.allocatedDevices[name])
  {
    assert Sets(a, AllocatedDevices);
    FirstIsTheOne(a, AllocatedDevices);
  }

  lemma {:induction false} ReasonIsSaid(a: Assertion, replicas: int, faults: seq<FaultRecord>, view: View)
    requires SetsOne(a) && a.unschedulableReason != ""
    ensures CheckOk(a, replicas, faults, view) <==>
              exists k, x, y :: 0 <= k < |view.reasons| && view.reasons[k] == x + a.unschedulableReason + y
  {
    assert Sets(a, UnschedulableReason);
    FirstIsTheOne(a, UnschedulableReason);
    forall k | 0 <= k < |view.reasons|
      ensures Contains(view.reasons[k], a.unschedulableReason) <==>
                exists x, y :: view.reasons[k] == x + a.unschedulableReason + y
    {
      ContainsIs(view.reasons[k], a.unschedulableReason);
    }
  }

  lemma {:induction false} DisruptedIsCounted(a: Assertion, replicas: int, faults: seq<FaultRecord>, view: View,
      lost: set<string>)
    requires SetsOne(a) && a.disrupted.Some?
    requires forall u :: u in lost <==> exists k :: 0 <= k < |faults| && u in UidsIn(faults[k].disrupted, a.workload)
    ensures CheckOk(a, replicas, faults, view) <==> faults != [] && |lost| == a.disrupted.value
  {
    assert Sets(a, Disrupted);
    FirstIsTheOne(a, Disrupted);
    forall u
      ensures u in lost <==> u in Casualties(faults, a.workload)
    {
      InCasualties(faults, a.workload, u);
    }
    assert lost == Casualties(faults, a.workload);
  }

  lemma {:induction false} FragmentationIsBounded(a: Assertion, replicas: int, faults: seq<FaultRecord>, view: View)
    requires SetsOne(a) && a.fragmentation.Some?
    ensures CheckOk(a, replicas, faults, view) <==>
              && view.nodes.Some? && view.nodes.value != []
              && var lost, bounds := LostIn(view.nodes.value), a.fragmentation.value;
                 (bounds.atLeast.Some? ==> lost >= bounds.atLeast.value)
                 && (bounds.atMost.Some? ==> lost <= bounds.atMost.value)
  {
    assert Sets(a, Fragmentation);
    FirstIsTheOne(a, Fragmentation);
  }

  // ---------------------------------------------------------------- waiting

  /** When polling gives up. A recovery budget runs from the last fault, any other from the
      moment the evaluation was asked for. */
  function Deadline(a: Assertion, faults: seq<FaultRecord>, asked: int): int {
    if a.rescheduledWithin > 0 && faults != [] then LastFired(faults) + a.rescheduledWithin
    else asked + if a.within <= 0 then DEFAULT_WAIT else a.within
  }

  /** Checks one after another, an interval apart, until one passes or the deadline is seen to
      have gone by. */
  ghost predicate IsPolling(trace: seq<Look>, start: int, deadline: int) {
    && trace != [] && trace[0].began == start
    && (forall i :: 0 <= i < |trace| ==> trace[i].read >= trace[i].began)
    && (forall i :: 0 <= i < |trace| - 1 ==>
          !trace[i].ok && trace[i].read <= deadline && trace[i + 1].began >= trace[i].read + POLL_INTERVAL)
  }

  ghost predicate IsPolled(trace: seq<Look>, start: int, deadline: int, passed: bool, cancelled: bool) {
    && IsPolling(trace, start, deadline)
    && passed == trace[|trace| - 1].ok
    && (!passed ==> (cancelled <==> trace[|trace| - 1].read <= deadline))
  }

  /** One check, once the whole period is over. */
  ghost predicate IsSettled(trace: seq<Look>, start: int, period: int, passed: bool, cancelled: bool) {
    if cancelled then trace == [] && !passed
    else |trace| == 1 && trace[0].read >= trace[0].began >= start + period && passed == trace[0].ok
  }

  /** Every check says of what it saw whether the assertion holds. */
  ghost predicate AreChecks(a: Assertion, replicas: int, faults: seq<FaultRecord>, trace: seq<Look>) {
    forall i :: 0 <= i < |trace| ==> IsCheck(a, replicas, faults, trace[i])
  }

  ghost predicate IsCheck(a: Assertion, replicas: int, faults: seq<FaultRecord>, look: Look) {
    look.ok <==> CheckOk(a, replicas, faults, look.view)
  }

  /** An evaluation asked for at one moment, whose checking or settling starts at another. */
  ghost predicate IsEvaluated(a: Assertion, replicas: int, faults: seq<FaultRecord>, asked: int, start: int,
      trace: seq<Look>, passed: bool, cancelled: bool)
  {
    && asked <= start
    && AreChecks(a, replicas, faults, trace)
    && (a.settle > 0 ==> IsSettled(trace, start, a.settle, passed, cancelled))
    && (a.settle <= 0 ==> IsPolled(trace, start, Deadline(a, faults, asked), passed, cancelled))
  }

  /** A polled assertion passes when and only when one of its checks did, and without a
      cancellation fails only after a check that was followed by a clock past the deadline. */
  lemma {:induction false} PolledOutcome(trace: seq<Look>, start: int, deadline: int, passed: bool, cancelled: bool)
    requires IsPolled(trace, start, deadline, passed, cancelled)
    ensures passed <==> exists i :: 0 <= i < |trace| && trace[i].ok
    ensures !passed && !cancelled ==> !trace[|trace| - 1].ok && trace[|trace| - 1].read > deadline
  {
    if i :| 0 <= i < |trace| && trace[i].ok {
      assert i == |trace| - 1;
    }
  }

  lemma {:induction false} LooksApart(trace: seq<Look>, start: int, deadline: int, passed: bool, cancelled: bool,
      i: nat)
    requires IsPolled(trace, start, deadline, passed, cancelled) && i < |trace|
    ensures trace[i].began >= start + i * POLL_INTERVAL
  {
    if i > 0 {
      LooksApart(trace, start, deadline, passed, cancelled, i - 1);
      assert trace[i - 1 + 1].began >= trace[i - 1].read + POLL_INTERVAL;
    }
  }

  /** Polling ends: after the first check there is at most one for each interval of the budget,
      and one more. */
  lemma {:induction false} PollsBounded(trace: seq<Look>, start: int, deadline: int, passed: bool, cancelled: bool)
    requires IsPolled(trace, start, deadline, passed, cancelled) && |trace| >= 2
    ensures (|trace| - 2) * POLL_INTERVAL <= deadline - start
  {
    LooksApart(trace, start, deadline, passed, cancelled, |trace| - 2);
  }

  /** How long a polled assertion that is no recovery is given, and when it is checked: as long as it
      says, sixty seconds where it says nothing, from the moment it is asked for, and every two. */
  lemma {:induction false} PolledFor(a: Assertion, replicas: int, faults: seq<FaultRecord>, asked: int, start: int,
      trace: seq<Look>, passed: bool, cancelled: bool)
    requires IsEvaluated(a, replicas, faults, asked, start, trace, passed, cancelled)
    requires a.settle <= 0 && (a.rescheduledWithin <= 0 || faults == [])
    ensures var end := asked + if a.within > 0 then a.within else 60_000_000_000;
            && (!passed && !cancelled ==> trace[|trace| - 1].read > end)
            && (forall i :: 0 <= i < |trace| - 1 ==>
                  trace[i].read <= end && trace[i + 1].began >= trace[i].read + 2_000_000_000)
  {
  }

  /** A polled recovery is given its budget from the latest fault on. */
  lemma {:induction false} RecoveryPolledFor(a: Assertion, replicas: int, faults: seq<FaultRecord>, asked: int,
      start: int, trace: seq<Look>, passed: bool, cancelled: bool, latest: int)
    requires IsEvaluated(a, replicas, faults, asked, start, trace, passed, cancelled)
    requires a.settle <= 0 && a.rescheduledWithin > 0
    requires exists k :: 0 <= k < |faults| && faults[k].firedAt == latest
    requires forall k :: 0 <= k < |faults| ==> faults[k].firedAt <= latest
    ensures var end := latest + a.rescheduledWithin;
            && (!passed && !cancelled ==> trace[|trace| - 1].read > end)
            && (forall i :: 0 <= i < |trace| - 1 ==>
                  trace[i].read <= end && trace[i + 1].began >= trace[i].read + 2_000_000_000)
  {
    LastFiredIs(faults);
    assert LastFired(faults) == latest;
  }

  // ---------------------------------------------------------------- budgets

  /** Polling never looks at the clock before a check. Some check begins by the deadline when and
      only when the first one does; after that all but the last do; and where the first one does
      not it is the only one, so that a pass is late. */
  lemma {:induction false} ChecksInBudget(trace: seq<Look>, start: int, deadline: int, passed: bool, cancelled: bool)
    requires IsPolled(trace, start, deadline, passed, cancelled)
    ensures (exists i :: 0 <= i < |trace| && trace[i].began <= deadline) <==> start <= deadline
    ensures forall i :: 0 <= i < |trace| - 1 ==> trace[i].began <= deadline
    ensures deadline < start ==> |trace| == 1 && (passed ==> trace[0].ok && trace[0].began > deadline)
  {
    if start <= deadline {
      assert trace[0].began <= deadline;
    } else {
      assert trace[0].read > deadline;
    }
  }

  ghost predicate IsRecovery(a: Assertion, faults: seq<FaultRecord>) {
    a.rescheduledWithin > 0 && faults != []
  }

  /** The end of a recovery's budget. */
  function Due(a: Assertion, faults: seq<FaultRecord>): int {
    LastFired(faults) + a.rescheduledWithin
  }

  /** The earliest a check can begin. */
  function FirstCheck(a: Assertion, start: int): int {
    start + if a.settle > 0 then a.settle else 0
  }

  /** An evaluation that cannot check by the end of the budget makes at most one check, after it,
      and whatever that sees decides: a recovery that took any time at all can pass. */
  lemma {:induction false} OverdueChecksOnce(a: Assertion, replicas: int, faults: seq<FaultRecord>, asked: int,
      start: int, trace: seq<Look>, passed: bool, cancelled: bool)
    requires IsRecovery(a, faults) && IsEvaluated(a, replicas, faults, asked, start, trace, passed, cancelled)
    requires FirstCheck(a, start) > Due(a, faults)
    ensures |trace| <= 1 && (passed <==> |trace| == 1 && CheckOk(a, replicas, faults, trace[0].view))
    ensures forall i :: 0 <= i < |trace| ==> trace[i].began > Due(a, faults)
  {
    assert forall i :: 0 <= i < |trace| ==> IsCheck(a, replicas, faults, trace[i]);
    if a.settle <= 0 {
      ChecksInBudget(trace, start, Due(a, faults), passed, cancelled);
    }
  }

  /** Assertions are evaluated one after another, so this is easily reached: settling for longer
      than the budget before it leaves a recovery nothing of its own. */
  lemma {:induction false} SettlingSpendsBudget(before: Assertion, a: Assertion, replicas: int,
      faults: seq<FaultRecord>, asked: int, start: int, settled: seq<Look>, passedBefore: bool,
      askedNext: int, startNext: int, trace: seq<Look>, passed: bool, cancelled: bool)
    requires LastFired(faults) <= asked && before.settle > a.rescheduledWithin
    requires IsEvaluated(before, replicas, faults, asked, start, settled, passedBefore, false)
    requires IsRecovery(a, faults) && settled[0].read <= askedNext
    requires IsEvaluated(a, replicas, faults, askedNext, startNext, trace, passed, cancelled)
    ensures |trace| <= 1 && forall i :: 0 <= i < |trace| ==> trace[i].began > Due(a, faults)
  {
    assert settled[0].began >= start + before.settle;
    OverdueChecksOnce(a, replicas, faults, askedNext, startNext, trace, passed, cancelled);
  }

  ghost predicate PassesBy(a: Assertion, replicas: int, faults: seq<FaultRecord>, asked: int, start: int,
      trace: seq<Look>, due: int)
  {
    && IsEvaluated(a, replicas, faults, asked, start, trace, true, false)
    && |trace| > 0 && trace[|trace| - 1].began <= due
  }

  ghost predicate PassesAfter(a: Assertion, replicas: int, faults: seq<FaultRecord>, asked: int, start: int,
      trace: seq<Look>, due: int)
  {
    && IsEvaluated(a, replicas, faults, asked, start, trace, true, false)
    && |trace| > 0 && trace[|trace| - 1].began > due
  }

  /** What a check sees when the pods cannot be listed. */
  const NOTHING := View(None, map[], None, None, [], None)

  /** A recovery assertion promises that the workload was back within its budget. For a workload
      that does come back, a pass within the budget is possible when and only when a check can
      begin by then, and a pass after it always is: the budget alone bounds no recovery. */
  lemma {:induction false} PassInBudget(a: Assertion, replicas: int, faults: seq<FaultRecord>, asked: int, start: int,
      back: View)
    requires IsRecovery(a, faults) && SetsOne(a) && asked <= start && CheckOk(a, replicas, faults, back)
    ensures (exists trace :: PassesBy(a, replicas, faults, asked, start, trace, Due(a, faults))) <==>
              FirstCheck(a, start) <= Due(a, faults)
    ensures exists trace :: PassesAfter(a, replicas, faults, asked, start, trace, Due(a, faults))
  {
    var due, first := Due(a, faults), FirstCheck(a, start);
    if first <= due {
      assert PassesBy(a, replicas, faults, asked, start, [Look(first, back, true, first)], due);
    }
    if trace :| PassesBy(a, replicas, faults, asked, start, trace, due) {
      if first > due {
        OverdueChecksOnce(a, replicas, faults, asked, start, trace, true, false);
      }
    }
    LatePass(a, replicas, faults, asked, start, back);
  }

  lemma {:induction false} LatePass(a: Assertion, replicas: int, faults: seq<FaultRecord>, asked: int, start: int,
      back: View)
    requires IsRecovery(a, faults) && SetsOne(a) && asked <= start && CheckOk(a, replicas, faults, back)
    ensures exists trace :: PassesAfter(a, replicas, faults, asked, start, trace, Due(a, faults))
  {
    var due, first := Due(a, faults), FirstCheck(a, start);
    if first > due || a.settle > 0 {
      var when := if first > due then first else due + 1;
      assert PassesAfter(a, replicas, faults, asked, start, [Look(when, back, true, when)], due);
    } else {
      assert Sets(a, Rescheduled);
      FirstIsTheOne(a, Rescheduled);
      var trace := [Look(start, NOTHING, false, start), Look(due + POLL_INTERVAL, back, true, due + POLL_INTERVAL)];
      assert PassesAfter(a, replicas, faults, asked, start, trace, due);
    }
  }
}
