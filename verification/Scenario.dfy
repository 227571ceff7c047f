/** Scenario documents: what a run submits, breaks and asserts, and what a loader accepts. */
module Scenario {
  import opened Options
  import opened Names

  const API_VERSION := "gpu-sim.io/v1alpha1"
  const KIND := "Scenario"
  const SCHEDULERS := {"kai", "volcano", "default"}
  const SCHEDULED_ALL := "all"
  const SCHEDULED_NONE := "none"
  const NO_EXECUTE := "NoExecute"
  const NO_SCHEDULE := "NoSchedule"

  /** Offsets and periods are in nanoseconds, as in Go's time.Duration. */
  datatype Workload = Workload(
    name: string,
    replicas: int,
    gpus: int,
    placement: Option<string>,
    submitAt: int,
    retireAt: int)

  datatype Degrade = Degrade(level: string, value: string, devices: map<string, string>, effect: string)

  datatype Fault = Fault(name: string, at: int, degrade: Option<Degrade>, killNode: string)

  datatype Bounds = Bounds(atLeast: Option<int>, atMost: Option<int>)

  datatype Assertion = Assertion(
    name: string,
    workload: string,
    scheduled: string,
    confinedTo: string,
    running: Option<int>,
    allocatedDevices: map<string, string>,
    unschedulableReason: string,
    disrupted: Option<int>,
    rescheduledWithin: int,
    fragmentation: Option<Bounds>,
    within: int,
    settle: int)

  datatype Document = Document(
    apiVersion: string,
    kind: string,
    name: string,
    topology: string,
    scheduler: string,
    workloads: seq<Workload>,
    faults: seq<Fault>,
    assertions: seq<Assertion>)

  datatype Problem =
    | WrongVersion | WrongKind | Unnamed | NoTopology | UnknownScheduler | NoWorkloads | NoAssertions
    | NoReplicas | NegativeGPUs | PlacementWithoutLevel | NegativeSubmit | RetiresTooSoon | Repeated
    | FiresTooSoon | TwoFaults | NoFault | TwoTargets | NoTarget | HalfTarget | UnknownEffect
    | NoWorkload | UnknownWorkload | BadCount | NoBound | NoCondition | TwoConditions | TwoWaits
    | NothingToRecoverFrom | PassesAtOnce

  // ---------------------------------------------------------------- workloads and faults

  ghost predicate ValidWorkload(w: Workload) {
    && w.name != "" && w.replicas >= 1 && w.gpus >= 0
    && (w.placement.Some? ==> w.placement.value != "")
    && w.submitAt >= 0
    && (w.retireAt != 0 ==> w.retireAt > w.submitAt)
  }

  method ValidateWorkload(w: Workload) returns (errs: seq<Problem>)
    ensures errs == [] <==> ValidWorkload(w)
    ensures (Unnamed in errs <==> w.name == "") && (NoReplicas in errs <==> w.replicas < 1)
            && (NegativeGPUs in errs <==> w.gpus < 0) && (PlacementWithoutLevel in errs <==> w.placement == Some(""))
            && (NegativeSubmit in errs <==> w.submitAt < 0)
            && (RetiresTooSoon in errs <==> w.retireAt != 0 && w.retireAt <= w.submitAt)
    ensures forall p :: p in errs ==>
              p in [Unnamed, NoReplicas, NegativeGPUs, PlacementWithoutLevel, NegativeSubmit, RetiresTooSoon]
  {
    errs := [];
    if w.name == "" {
      errs := errs + [Unnamed];
    }
    if w.replicas <= 0 {
      errs := errs + [NoReplicas];
    }
    if w.gpus < 0 {
      errs := errs + [NegativeGPUs];
    }
    if w.placement.Some? && w.placement.value == "" {
      errs := errs + [PlacementWithoutLevel];
    }
    if w.submitAt < 0 {
      errs := errs + [NegativeSubmit];
    }
    if w.retireAt != 0 && w.retireAt <= w.submitAt {
      errs := errs + [RetiresTooSoon];
    }
  }

  /** A degradation names a level and value, or attributes, and never both. */
  ghost predicate ValidDegrade(d: Degrade) {
    && (if d.devices != map[] then d.level == "" && d.value == "" else d.level != "" && d.value != "")
    && d.effect in {"", NO_EXECUTE, NO_SCHEDULE}
  }

  method ValidateDegrade(d: Degrade) returns (errs: seq<Problem>)
    ensures errs == [] <==> ValidDegrade(d)
    ensures (TwoTargets in errs <==> d.devices != map[] && (d.level != "" || d.value != ""))
            && (NoTarget in errs <==> d.devices == map[] && d.level == "" && d.value == "")
            && (HalfTarget in errs <==> d.devices == map[] && (d.level == "") != (d.value == ""))
            && (UnknownEffect in errs <==> d.effect !in ["", "NoExecute", "NoSchedule"])
    ensures forall p :: p in errs ==> p in [TwoTargets, NoTarget, HalfTarget, UnknownEffect]
  {
    errs := [];
    var byLevel, byDevices := d.level != "" || d.value != "", |d.devices| > 0;
    if byLevel && byDevices {
      errs := errs + [TwoTargets];
    } else if !byLevel && !byDevices {
      errs := errs + [NoTarget];
    } else if byLevel && (d.level == "" || d.value == "") {
      errs := errs + [HalfTarget];
    }
    if d.effect != "" && d.effect != NO_EXECUTE && d.effect != NO_SCHEDULE {
      errs := errs + [UnknownEffect];
    }
  }

  /** A fault degrades devices or kills a node, exactly one of the two, after the start. */
  ghost predicate ValidFault(f: Fault) {
    && f.name != "" && f.at > 0
    && (if f.degrade.Some? then f.killNode == "" && ValidDegrade(f.degrade.value) else f.killNode != "")
  }

  method ValidateFault(f: Fault) returns (errs: seq<Problem>)
    ensures errs == [] <==> ValidFault(f)
    ensures (Unnamed in errs <==> f.name == "") && (FiresTooSoon in errs <==> f.at <= 0)
            && (TwoFaults in errs <==> f.degrade.Some? && f.killNode != "")
            && (NoFault in errs <==> f.degrade.None? && f.killNode == "")
    ensures forall p :: p in errs ==>
              p in [Unnamed, FiresTooSoon, TwoFaults, NoFault, TwoTargets, NoTarget, HalfTarget, UnknownEffect]
  {
    errs := [];
    if f.name == "" {
      errs := errs + [Unnamed];
    }
    if f.at <= 0 {
      errs := errs + [FiresTooSoon];
    }
    if f.degrade.Some? && f.killNode != "" {
      errs := errs + [TwoFaults];
    } else if f.degrade.None? && f.killNode == "" {
      errs := errs + [NoFault];
    } else if f.degrade.Some? {
      var more := ValidateDegrade(f.degrade.value);
      errs := errs + more;
    }
  }

  function TaintEffect(d: Degrade): string {
    if d.effect == "" then NO_EXECUTE else d.effect
  }

  // ---------------------------------------------------------------- assertions

  /** The conditions an assertion may set, in the order they are looked at when it is checked. */
  datatype Condition =
    | Scheduled | ConfinedTo | Running | AllocatedDevices | UnschedulableReason | Disrupted | Rescheduled
    | Fragmentation

  const CONDITIONS := [Scheduled, ConfinedTo, Running, AllocatedDevices, UnschedulableReason, Disrupted, Rescheduled,
    Fragmentation]

  predicate Sets(a: Assertion, c: Condition) {
    match c
    case Scheduled => a.scheduled != ""
    case ConfinedTo => a.confinedTo != ""
    case Running => a.running.Some?
    case AllocatedDevices => a.allocatedDevices != map[]
    case UnschedulableReason => a.unschedulableReason != ""
    case Disrupted => a.disrupted.Some?
    case Rescheduled => a.rescheduledWithin > 0
    case Fragmentation => a.fragmentation.Some?
  }

  /** What it is for an assertion to set a condition. */
  lemma {:induction false} SetsIs(a: Assertion)
    ensures (Sets(a, Scheduled) <==> a.scheduled != "") && (Sets(a, ConfinedTo) <==> a.confinedTo != "")
            && (Sets(a, Running) <==> a.running != None) && (Sets(a, AllocatedDevices) <==> |a.allocatedDevices| > 0)
            && (Sets(a, UnschedulableReason) <==> a.unschedulableReason != "")
            && (Sets(a, Disrupted) <==> a.disrupted != None) && (Sets(a, Rescheduled) <==> a.rescheduledWithin > 0)
            && (Sets(a, Fragmentation) <==> a.fragmentation != None)
  {
  }

  /** Exactly one condition is set. */
  ghost predicate SetsOne(a: Assertion) {
    exists c :: Sets(a, c) && forall d :: Sets(a, d) ==> d == c
  }

  /** A count of replicas, in words or digits. */
  function ExpectedScheduled(a: Assertion, replicas: int): Option<int> {
    if a.scheduled == SCHEDULED_ALL then Some(replicas)
    else if a.scheduled == SCHEDULED_NONE then Some(0)
    else Atoi(a.scheduled)
  }

  ghost predicate ValidAssertion(a: Assertion, workloads: set<string>, hasFaults: bool) {
    && a.name != ""
    && (if a.workload == "" then a.fragmentation.Some? else workloads != {} ==> a.workload in workloads)
    && SetsOne(a)
    && (a.scheduled != "" ==> ExpectedScheduled(a, 0).Some?)
    && (a.fragmentation.Some? ==> a.fragmentation.value.atLeast.Some? || a.fragmentation.value.atMost.Some?)
    && !(a.within > 0 && a.settle > 0)
    && (a.disrupted.Some? || a.rescheduledWithin > 0 ==> hasFaults)
    && !(a.scheduled == SCHEDULED_NONE && a.within > 0)
  }

  function Flags(a: Assertion): seq<bool> {
    seq(|CONDITIONS|, i requires 0 <= i < |CONDITIONS| => Sets(a, CONDITIONS[i]))
  }

  function Count(flags: seq<bool>): nat {
    if flags == [] then 0 else Count(flags[..|flags| - 1]) + if flags[|flags| - 1] then 1 else 0
  }

  lemma {:induction false} CountIsNone(flags: seq<bool>)
    ensures Count(flags) == 0 <==> forall i :: 0 <= i < |flags| ==> !flags[i]
  {
    if flags != [] {
      CountIsNone(flags[..|flags| - 1]);
    }
  }

  /** The only flag that is up. */
  ghost predicate IsOnly(flags: seq<bool>, i: nat) {
    i < |flags| && flags[i] && forall j :: 0 <= j < |flags| && j != i ==> !flags[j]
  }

  lemma {:induction false} OnlyFlag(flags: seq<bool>) returns (i: nat)
    requires Count(flags) == 1
    ensures IsOnly(flags, i)
  {
    var front := flags[..|flags| - 1];
    if flags[|flags| - 1] {
      CountIsNone(front);
      i := |flags| - 1;
    } else {
      i := OnlyFlag(front);
    }
  }

  lemma {:induction false} OnlyIsOne(flags: seq<bool>, i: nat)
    requires IsOnly(flags, i)
    ensures Count(flags) == 1
  {
    var front := flags[..|flags| - 1];
    if i == |flags| - 1 {
      CountIsNone(front);
    } else {
      OnlyIsOne(front, i);
    }
  }

  method CountConditions(a: Assertion) returns (count: nat)
    ensures count == Count(Flags(a))
  {
    count := 0;
    for k := 0 to |CONDITIONS|
      invariant count == Count(Flags(a)[..k])
    {
      assert Flags(a)[..k + 1][..k] == Flags(a)[..k];
      if Sets(a, CONDITIONS[k]) {
        count := count + 1;
      }
    }
    assert Flags(a)[..|CONDITIONS|] == Flags(a);
  }

  /** What an assertion is about: its name, its workload, and the values it asks for. */
  method ValidateSubject(a: Assertion, workloads: set<string>) returns (errs: seq<Problem>)
    ensures (Unnamed in errs <==> a.name == "")
            && (NoWorkload in errs <==> a.workload == "" && a.fragmentation.None?)
            && (UnknownWorkload in errs <==> a.workload != "" && workloads != {} && a.workload !in workloads)
            && (BadCount in errs <==>
                  a.scheduled !in ["", SCHEDULED_ALL, SCHEDULED_NONE] && Atoi(a.scheduled).None?)
            && (NoBound in errs <==> a.fragmentation == Some(Bounds(None, None)))
    ensures forall p :: p in errs ==> p in [Unnamed, NoWorkload, UnknownWorkload, BadCount, NoBound]
  {
    errs := [];
    if a.name == "" {
      errs := errs + [Unnamed];
    }
    if a.workload == "" && a.fragmentation.None? {
      errs := errs + [NoWorkload];
    } else if a.workload != "" && |workloads| > 0 && a.workload !in workloads {
      errs := errs + [UnknownWorkload];
    }
    if a.scheduled != "" && a.scheduled != SCHEDULED_ALL && a.scheduled != SCHEDULED_NONE && Atoi(a.scheduled).None? {
      errs := errs + [BadCount];
    }
    if a.fragmentation.Some? && a.fragmentation.value.atLeast.None? && a.fragmentation.value.atMost.None? {
      errs := errs + [NoBound];
    }
  }

  /** By which condition an assertion is judged. */
  method ValidateCondition(a: Assertion) returns (errs: seq<Problem>)
    ensures errs == if Count(Flags(a)) == 0 then [NoCondition] else if Count(Flags(a)) == 1 then [] else [TwoConditions]
  {
    var count := CountConditions(a);
    if count == 0 {
      return [NoCondition];
    }
    if count != 1 {
      return [TwoConditions];
    }
    return [];
  }

  /** How it is waited for, and whether there is something to measure. */
  method ValidateWait(a: Assertion, hasFaults: bool) returns (errs: seq<Problem>)
    ensures (TwoWaits in errs <==> a.within > 0 && a.settle > 0)
            && (NothingToRecoverFrom in errs <==> (a.disrupted.Some? || a.rescheduledWithin > 0) && !hasFaults)
            && (PassesAtOnce in errs <==> a.scheduled == SCHEDULED_NONE && a.within > 0)
    ensures forall p :: p in errs ==> p in [TwoWaits, NothingToRecoverFrom, PassesAtOnce]
  {
    errs := [];
    if a.within > 0 && a.settle > 0 {
      errs := errs + [TwoWaits];
    }
    if (a.disrupted.Some? || a.rescheduledWithin > 0) && !hasFaults {
      errs := errs + [NothingToRecoverFrom];
    }
    if a.scheduled == SCHEDULED_NONE && a.within > 0 {
      errs := errs + [PassesAtOnce];
    }
  }

  method ValidateAssertion(a: Assertion, workloads: set<string>, hasFaults: bool) returns (errs: seq<Problem>)
    ensures errs == [] <==> ValidAssertion(a, workloads, hasFaults)
  {
    var subject := ValidateSubject(a, workloads);
    var condition := ValidateCondition(a);
    var wait := ValidateWait(a, hasFaults);
    errs := subject + condition + wait;
    ConditionsSet(a);
    if errs != [] {
      assert errs[0] in subject || errs[0] in condition || errs[0] in wait;
    }
  }

  function IndexOf(c: Condition): (i: nat)
    ensures i < |CONDITIONS| && CONDITIONS[i] == c
  {
    match c
    case Scheduled => 0
    case ConfinedTo => 1
    case Running => 2
    case AllocatedDevices => 3
    case UnschedulableReason => 4
    case Disrupted => 5
    case Rescheduled => 6
    case Fragmentation => 7
  }

  lemma {:induction false} ConditionsDiffer(i: nat, j: nat)
    requires i < |CONDITIONS| && j < |CONDITIONS| && CONDITIONS[i] == CONDITIONS[j]
    ensures i == j
  {
  }

  lemma {:induction false} ConditionsSet(a: Assertion)
    ensures Count(Flags(a)) == 1 <==> SetsOne(a)
  {
    var flags := Flags(a);
    if Count(flags) == 1 {
      var i := OnlyFlag(flags);
      forall d | Sets(a, d)
        ensures d == CONDITIONS[i]
      {
        assert flags[IndexOf(d)];
      }
      assert Sets(a, CONDITIONS[i]);
    }
    if c :| Sets(a, c) && forall d :: Sets(a, d) ==> d == c {
      assert flags[IndexOf(c)];
      forall j | 0 <= j < |flags| && j != IndexOf(c)
        ensures !flags[j]
      {
        if flags[j] {
          ConditionsDiffer(j, IndexOf(c));
        }
      }
      OnlyIsOne(flags, IndexOf(c));
    }
  }

  ghost predicate SetsNone(a: Assertion) {
    forall c :: !Sets(a, c)
  }

  ghost predicate SetsTwo(a: Assertion) {
    exists c, d :: c != d && Sets(a, c) && Sets(a, d)
  }

  lemma {:induction false} NoneSet(a: Assertion)
    ensures Count(Flags(a)) == 0 <==> SetsNone(a)
  {
    var flags := Flags(a);
    CountIsNone(flags);
    if c :| Sets(a, c) {
      assert flags[IndexOf(c)];
    }
    if i :| 0 <= i < |flags| && flags[i] {
      assert Sets(a, CONDITIONS[i]);
    }
  }

  lemma {:induction false} OneOrTwo(a: Assertion, c: Condition)
    requires Sets(a, c)
    ensures SetsTwo(a) <==> !SetsOne(a)
  {
    if !SetsOne(a) {
      var d :| Sets(a, d) && d != c;
    }
  }

  /** None, one, or more. */
  lemma {:induction false} ConditionsCounted(a: Assertion)
    ensures (Count(Flags(a)) == 0 <==> SetsNone(a)) && (Count(Flags(a)) > 1 <==> SetsTwo(a))
  {
    NoneSet(a);
    ConditionsSet(a);
    if c :| Sets(a, c) {
      OneOrTwo(a, c);
    }
  }

  // ---------------------------------------------------------------- documents

  function WorkloadNames(ws: seq<Workload>): set<string> {
    set k | 0 <= k < |ws| :: ws[k].name
  }

  ghost predicate ValidWorkloads(ws: seq<Workload>) {
    && (forall i :: 0 <= i < |ws| ==> ValidWorkload(ws[i]))
    && (forall i, j :: 0 <= i < j < |ws| ==> ws[i].name != ws[j].name)
  }

  ghost predicate ValidFaults(fs: seq<Fault>) {
    && (forall i :: 0 <= i < |fs| ==> ValidFault(fs[i]))
    && (forall i, j :: 0 <= i < j < |fs| ==> fs[i].name != fs[j].name)
  }

  ghost predicate ValidDocument(s: Document) {
    && s.apiVersion == API_VERSION && s.kind == KIND && s.name != "" && s.topology != "" && s.scheduler in SCHEDULERS
    && s.workloads != [] && s.assertions != []
    && ValidWorkloads(s.workloads) && ValidFaults(s.faults)
    && forall i :: 0 <= i < |s.assertions| ==>
      ValidAssertion(s.assertions[i], WorkloadNames(s.workloads), s.faults != [])
  }

  method ValidateWorkloads(ws: seq<Workload>) returns (errs: seq<Problem>, names: set<string>)
    ensures errs == [] <==> ValidWorkloads(ws)
    ensures names == WorkloadNames(ws)
  {
    errs, names := [], {};
    for i := 0 to |ws|
      invariant errs == [] <==> ValidWorkloads(ws[..i])
      invariant names == WorkloadNames(ws[..i])
    {
      var more := ValidateWorkload(ws[i]);
      WorkloadsNext(ws, i);
      errs := errs + more;
      if ws[i].name in names {
        errs := errs + [Repeated];
      }
      names := names + {ws[i].name};
    }
    assert ws[..|ws|] == ws;
  }

  lemma {:induction false} WorkloadsNext(ws: seq<Workload>, i: nat)
    requires i < |ws|
    ensures WorkloadNames(ws[..i + 1]) == WorkloadNames(ws[..i]) + {ws[i].name}
    ensures ValidWorkloads(ws[..i + 1]) <==>
            ValidWorkloads(ws[..i]) && ValidWorkload(ws[i]) && ws[i].name !in WorkloadNames(ws[..i])
  {
    var more, fewer := ws[..i + 1], ws[..i];
    assert more == fewer + [ws[i]];
    assert forall k :: 0 <= k < i ==> more[k] == fewer[k];
  }

  method ValidateFaults(fs: seq<Fault>) returns (errs: seq<Problem>)
    ensures errs == [] <==> ValidFaults(fs)
  {
    errs := [];
    var names: set<string> := {};
    for i := 0 to |fs|
      invariant errs == [] <==> ValidFaults(fs[..i])
      invariant names == set k | 0 <= k < i :: fs[k].name
    {
      var more := ValidateFault(fs[i]);
      FaultsNext(fs, i);
      errs := errs + more;
      if fs[i].name in names {
        errs := errs + [Repeated];
      }
      names := names + {fs[i].name};
    }
    assert fs[..|fs|] == fs;
  }

  lemma {:induction false} FaultsNext(fs: seq<Fault>, i: nat)
    requires i < |fs|
    ensures ValidFaults(fs[..i + 1]) <==>
            ValidFaults(fs[..i]) && ValidFault(fs[i]) && forall k :: 0 <= k < i ==> fs[k].name != fs[i].name
  {
    var more, fewer := fs[..i + 1], fs[..i];
    assert more == fewer + [fs[i]];
    assert forall k :: 0 <= k < i ==> more[k] == fewer[k];
  }

  /** Every problem is reported, and there is none exactly for a valid document. */
  method ValidateDocument(s: Document) returns (errs: seq<Problem>)
    ensures errs == [] <==> ValidDocument(s)
    ensures errs == [] ==>
              s.apiVersion == "gpu-sim.io/v1alpha1" && s.kind == "Scenario" && s.name != "" && s.topology != ""
              && s.scheduler in ["kai", "volcano", "default"] && s.workloads != [] && s.assertions != []
  {
    errs := [];
    if s.apiVersion != API_VERSION {
      errs := errs + [WrongVersion];
    }
    if s.kind != KIND {
      errs := errs + [WrongKind];
    }
    if s.name == "" {
      errs := errs + [Unnamed];
    }
    if s.topology == "" {
      errs := errs + [NoTopology];
    }
    if s.scheduler !in SCHEDULERS {
      errs := errs + [UnknownScheduler];
    }
    if s.workloads == [] {
      errs := errs + [NoWorkloads];
    }
    if s.assertions == [] {
      errs := errs + [NoAssertions];
    }
    var workloads, names := ValidateWorkloads(s.workloads);
    var faults := ValidateFaults(s.faults);
    var assertions: seq<Problem> := [];
    for i := 0 to |s.assertions|
      invariant assertions == [] <==> forall k :: 0 <= k < i ==> ValidAssertion(s.assertions[k], names, s.faults != [])
    {
      var more := ValidateAssertion(s.assertions[i], names, |s.faults| > 0);
      assertions := assertions + more;
    }
    errs := errs + workloads + faults + assertions;
  }
}
