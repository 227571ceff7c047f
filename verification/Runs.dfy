/** The report over whole runs of claims and releases, and its shape at any one moment. */
module Runs {
  import opened Arith
  import opened Profiles
  import opened Partitions
  import opened Fragmentation
  import opened Occupancy
  import opened Allocation
  import opened Defragmentation
  import Sorting

  // ---------------------------------------------------------------- runs

  ghost predicate CanClaim(g: Geometry, profiles: seq<Profile>, gpuIndex: nat, held: seq<Partition>, p: Partition)
    requires AllPositive(profiles)
  {
    Offers(g, profiles, gpuIndex, p) && WithinCapacity(g, held + [p])
  }

  ghost predicate Claim(g: Geometry, profiles: seq<Profile>, gpuIndex: nat, before: seq<Partition>,
      after: seq<Partition>)
    requires AllPositive(profiles)
  {
    exists p :: CanClaim(g, profiles, gpuIndex, before, p) && after == before + [p]
  }

  ghost predicate Release(before: seq<Partition>, after: seq<Partition>) {
    exists k :: 0 <= k < |before| && after == before[..k] + before[k + 1..]
  }

  /** Partitions held by one GPU, moment by moment, from idle on. */
  ghost predicate Run(g: Geometry, profiles: seq<Profile>, gpuIndex: nat, trace: seq<seq<Partition>>)
    requires AllPositive(profiles)
  {
    && trace != [] && trace[0] == []
    && forall i :: 0 <= i < |trace| - 1 ==>
         Claim(g, profiles, gpuIndex, trace[i], trace[i + 1]) || Release(trace[i], trace[i + 1])
  }

  lemma {:induction false} ReleaseKeepsSM(ps: seq<Partition>, k: nat)
    requires k < |ps|
    ensures SumSM(ps[..k] + ps[k + 1..]) <= SumSM(ps)
  {
    var rest := ps[..k] + ps[k + 1..];
    if k == |ps| - 1 {
      assert rest == ps[..k];
    } else {
      var front := ps[..|ps| - 1];
      ReleaseKeepsSM(front, k);
      assert rest[..|rest| - 1] == front[..k] + front[k + 1..];
      assert rest[|rest| - 1] == ps[|ps| - 1];
    }
  }

  lemma {:induction false} ReleaseKeepsAccepted(g: Geometry, profiles: seq<Profile>, gpuIndex: nat,
      ps: seq<Partition>, k: nat)
    requires AllPositive(profiles) && Accepts(g, profiles, gpuIndex, ps) && k < |ps|
    ensures Accepts(g, profiles, gpuIndex, ps[..k] + ps[k + 1..])
  {
    var rest := ps[..k] + ps[k + 1..];
    CountersExact(g, profiles, gpuIndex, ps);
    ReleaseKeepsSM(ps, k);
    forall i, j | 0 <= i < j < |rest|
      ensures !Overlaps(rest[i], rest[j])
    {
      var a, b := if i < k then i else i + 1, if j < k then j else j + 1;
      assert rest[i] == ps[a] && rest[j] == ps[b];
    }
    forall p | p in rest
      ensures p in ps
    {
      var i :| 0 <= i < |rest| && rest[i] == p;
      assert p == ps[if i < k then i else i + 1];
    }
    CountersExact(g, profiles, gpuIndex, rest);
  }

  lemma {:induction false} RunStaysAccepted(g: Geometry, profiles: seq<Profile>, gpuIndex: nat,
      trace: seq<seq<Partition>>, i: nat)
    requires AllPositive(profiles) && Run(g, profiles, gpuIndex, trace) && i < |trace|
    ensures Accepts(g, profiles, gpuIndex, trace[i])
  {
    if i == 0 {
      CountersExact(g, profiles, gpuIndex, []);
    } else {
      RunStaysAccepted(g, profiles, gpuIndex, trace, i - 1);
      var before, after := trace[i - 1], trace[i - 1 + 1];
      assert Claim(g, profiles, gpuIndex, before, after) || Release(before, after);
      if Claim(g, profiles, gpuIndex, before, after) {
      } else {
        var k: nat :| k < |before| && after == before[..k] + before[k + 1..];
        ReleaseKeepsAccepted(g, profiles, gpuIndex, before, k);
      }
    }
  }

  /** The report after any run of claims and releases: slices are conserved in both
      dimensions, Actual is what the counters still admit, Ideal what they would admit after
      moving everything held, and Lost, the difference, is never negative. */
  lemma {:induction false} ReportAlongRun(g: Geometry, profiles: seq<Profile>, gpuIndex: nat,
      trace: seq<seq<Partition>>, i: nat, P: Profile, n: nat)
    requires Chain(profiles) && Run(g, profiles, gpuIndex, trace) && i < |trace| && P in profiles
    ensures var ps := trace[i];
            var state := StateFrom(ps);
            && FreeMemory(g, state) + SumMemory(ps) == g.memorySlices && FreeMemory(g, state) >= 0
            && FreeSM(g, state) + SumSM(ps) == g.smSlices && FreeSM(g, state) >= 0
            && (Admits(g, profiles, gpuIndex, ps, P, n) <==> n <= Actual(g, state, P))
            && (AdmitsAfterDefragmentation(g, profiles, gpuIndex, ps, P, n) <==> n <= Ideal(g, state, P))
            && Lost(g, state, P) >= 0
  {
    var ps := trace[i];
    RunStaysAccepted(g, profiles, gpuIndex, trace, i);
    AcceptedFacts(g, profiles, gpuIndex, ps);
    ActualIsTheLimit(g, profiles, gpuIndex, ps, P, n);
    IdealIsTheLimit(g, profiles, gpuIndex, ps, P, n);
    LostIsNotNegative(g, profiles, gpuIndex, ps, P);
  }

  // ---------------------------------------------------------------- what a report says

  /** The entry of one profile: how many further instances the counters admit now, how many they
      would admit after moving everything held, and the difference. */
  ghost predicate EntryTells(g: Geometry, profiles: seq<Profile>, gpuIndex: nat, ps: seq<Partition>, P: Profile,
      entry: ProfileFit)
    requires AllPositive(profiles)
  {
    && entry.profile == P.name
    && (forall n: nat :: Admits(g, profiles, gpuIndex, ps, P, n) <==> n <= entry.actual)
    && (forall n: nat :: AdmitsAfterDefragmentation(g, profiles, gpuIndex, ps, P, n) <==> n <= entry.ideal)
    && entry.lost == entry.ideal - entry.actual
  }

  /** The largest allocatable profile is the last listed of which the counters admit one. */
  ghost predicate LargestTells(g: Geometry, profiles: seq<Profile>, gpuIndex: nat, ps: seq<Partition>, largest: string)
    requires AllPositive(profiles)
  {
    if largest == "" then forall f :: 0 <= f < |profiles| ==> !Admits(g, profiles, gpuIndex, ps, profiles[f], 1)
    else
      exists f :: 0 <= f < |profiles| && profiles[f].name == largest
        && Admits(g, profiles, gpuIndex, ps, profiles[f], 1)
        && forall h :: f < h < |profiles| ==> !Admits(g, profiles, gpuIndex, ps, profiles[h], 1)
  }

  /** A report is true of what is held: the free and the held slices add up to the GPU's, there is
      one entry for each profile in order, and each tells the truth. */
  ghost predicate Tells(g: Geometry, profiles: seq<Profile>, gpuIndex: nat, ps: seq<Partition>, report: Report)
    requires AllPositive(profiles)
  {
    && report.gpuIndex == gpuIndex
    && report.freeMemorySlices + SumMemory(ps) == g.memorySlices
    && report.freeSMSlices + SumSM(ps) == g.smSlices
    && |report.profiles| == |profiles|
    && (forall f :: 0 <= f < |profiles| ==>
          EntryTells(g, profiles, gpuIndex, ps, profiles[f], report.profiles[f]))
    && ((forall p :: p in profiles ==> p.name != "") ==>
          LargestTells(g, profiles, gpuIndex, ps, report.largestAllocatable))
  }

  lemma {:induction false} LargestIs(fits: seq<ProfileFit>)
    requires forall f :: 0 <= f < |fits| ==> fits[f].profile != ""
    ensures if Largest(fits) == "" then forall f :: 0 <= f < |fits| ==> fits[f].actual <= 0
            else
              exists f :: 0 <= f < |fits| && fits[f].profile == Largest(fits) && fits[f].actual > 0
                && forall h :: f < h < |fits| ==> fits[h].actual <= 0
  {
    if fits != [] && fits[|fits| - 1].actual <= 0 {
      LargestIs(fits[..|fits| - 1]);
    }
  }

  lemma {:induction false} AnalysisEntry(g: Geometry, profiles: seq<Profile>, gpuIndex: nat, ps: seq<Partition>, f: nat)
    requires Chain(profiles) && Accepts(g, profiles, gpuIndex, ps) && f < |profiles|
    ensures EntryTells(g, profiles, gpuIndex, ps, profiles[f],
              Analyse(g, profiles, gpuIndex, StateFrom(ps)).profiles[f])
  {
    var P := profiles[f];
    assert P in profiles;
    forall n: nat
      ensures Admits(g, profiles, gpuIndex, ps, P, n) <==> n <= Actual(g, StateFrom(ps), P)
    {
      ActualIsTheLimit(g, profiles, gpuIndex, ps, P, n);
    }
    forall n: nat
      ensures AdmitsAfterDefragmentation(g, profiles, gpuIndex, ps, P, n) <==> n <= Ideal(g, StateFrom(ps), P)
    {
      IdealIsTheLimit(g, profiles, gpuIndex, ps, P, n);
    }
  }

  /** Over any profiles whose sizes form a chain and any partitions the counters accept, the
      analysis of a GPU tells the truth about it, field by field. */
  lemma {:induction false} AnalysisTells(g: Geometry, profiles: seq<Profile>, gpuIndex: nat, ps: seq<Partition>)
    requires Chain(profiles) && Accepts(g, profiles, gpuIndex, ps)
    ensures Tells(g, profiles, gpuIndex, ps, Analyse(g, profiles, gpuIndex, StateFrom(ps)))
  {
    var report := Analyse(g, profiles, gpuIndex, StateFrom(ps));
    AcceptedFacts(g, profiles, gpuIndex, ps);
    forall f | 0 <= f < |profiles|
      ensures EntryTells(g, profiles, gpuIndex, ps, profiles[f], report.profiles[f])
    {
      AnalysisEntry(g, profiles, gpuIndex, ps, f);
    }
    if forall p :: p in profiles ==> p.name != "" {
      AnalysisLargest(g, profiles, gpuIndex, ps, report);
    }
  }

  lemma {:induction false} AnalysisLargest(g: Geometry, profiles: seq<Profile>, gpuIndex: nat, ps: seq<Partition>,
      report: Report)
    requires AllPositive(profiles) && report == Analyse(g, profiles, gpuIndex, StateFrom(ps))
    requires forall p :: p in profiles ==> p.name != ""
    requires forall f :: 0 <= f < |profiles| ==>
               EntryTells(g, profiles, gpuIndex, ps, profiles[f], report.profiles[f])
    ensures LargestTells(g, profiles, gpuIndex, ps, report.largestAllocatable)
  {
    forall f | 0 <= f < |profiles|
      ensures report.profiles[f].profile == profiles[f].name != ""
      ensures Admits(g, profiles, gpuIndex, ps, profiles[f], 1) <==> report.profiles[f].actual > 0
    {
      assert EntryTells(g, profiles, gpuIndex, ps, profiles[f], report.profiles[f]) && profiles[f] in profiles;
    }
    LargestIs(report.profiles);
  }

  /** The loss is real: on any of the datacenter models, holding the smallest partition in each
      half of the memory leaves six positions and five compute slices free, and yet no half-size
      partition fits, where one would after moving either of the two. */
  lemma {:induction false} HalvesSpoiled(names: seq<string>) returns (trace: seq<seq<Partition>>)
    requires |names| == 6
    ensures var g := DatacenterGeometry(names);
            && AllPositive(g.profiles) && Run(g, g.profiles, 0, trace) && |trace| == 3
            && Actual(g, StateFrom(trace[2]), g.profiles[3]) == 0 && Ideal(g, StateFrom(trace[2]), g.profiles[3]) == 1
  {
    var g := DatacenterGeometry(names);
    forall p | p in g.profiles
      ensures Positive(p)
    {
      var i: nat :| i < 6 && g.profiles[i] == p;
      ShapeNested(names, i, i);
    }
    var p, q := At(g.profiles[0], 0, 0), At(g.profiles[0], 0, 4);
    trace := [[], [p], [p, q]];
    TwoSmall(g, p, q);
    TwoClaims(g, p, q);
    SpoiledState(g, g.profiles[3], p, q);
  }

  lemma {:induction false} TwoClaims(g: Geometry, p: Partition, q: Partition)
    requires AllPositive(g.profiles) && Offers(g, g.profiles, 0, p) && Offers(g, g.profiles, 0, q)
    requires WithinCapacity(g, [p]) && WithinCapacity(g, [p, q])
    ensures Run(g, g.profiles, 0, [[], [p], [p, q]])
  {
    var none: seq<Partition> := [];
    assert none + [p] == [p] && [p] + [q] == [p, q];
    assert CanClaim(g, g.profiles, 0, none, p) && CanClaim(g, g.profiles, 0, [p], q);
  }

  lemma {:induction false} TwoSmall(g: Geometry, p: Partition, q: Partition)
    requires g.memorySlices == 8 && g.smSlices == 7 && AllPositive(g.profiles) && |g.profiles| > 0
    requires g.profiles[0].memorySlices == 1 && g.profiles[0].smSlices == 1
    requires p == At(g.profiles[0], 0, 0) && q == At(g.profiles[0], 0, 4)
    ensures Offers(g, g.profiles, 0, p) && Offers(g, g.profiles, 0, q)
    ensures WithinCapacity(g, [p]) && WithinCapacity(g, [p, q])
  {
    assert g.profiles[0] in g.profiles;
    assert [p][..0] == [] && [p, q][..1] == [p];
    CountersExact(g, g.profiles, 0, [p]);
    CountersExact(g, g.profiles, 0, [p, q]);
  }

  lemma {:induction false} FirstIsIn(s: seq<nat>)
    ensures s == [] || s[0] in s
  {
  }

  lemma {:induction false} SpoiledState(g: Geometry, half: Profile, p: Partition, q: Partition)
    requires g.memorySlices == 8 && g.smSlices == 7 && half.memorySlices == 4 && half.smSlices == 3
    requires p.profile.memorySlices == 1 && p.profile.smSlices == 1 && q.profile == p.profile && p.start == 0
             && q.start == 4
    ensures Actual(g, StateFrom([p, q]), half) == 0 && Ideal(g, StateFrom([p, q]), half) == 1
  {
    var state := StateFrom([p, q]);
    forall i: int
      ensures i in SlotSet(p) <==> i == 0
      ensures i in SlotSet(q) <==> i == 4
    {
      assert (i in SlotSet(p) <==> Covers(p, i)) && (i in SlotSet(q) <==> Covers(q, i));
    }
    assert [p][..0] == [] && [p, q][..1] == [p];
    assert StateFrom([p]) == State(IDLE.usedMemory + SlotSet(p), 1);
    assert state == State(StateFrom([p]).usedMemory + SlotSet(q), 2);
    assert state.usedMemory == {0, 4};
    FreeStartsExact(g, state, half);
    forall s: nat | LegalStart(g, half, s)
      ensures !PlacementFree(state, s, half.memorySlices)
    {
      assert s == 0 || s == 4;
      assert s in state.usedMemory;
    }
    FirstIsIn(FreeStarts(g, state, half));
  }

  /** Whatever fits where the free slices sit also fits after moving everything. */
  lemma {:induction false} LostIsNotNegative(g: Geometry, profiles: seq<Profile>, gpuIndex: nat, ps: seq<Partition>,
      P: Profile)
    requires AllPositive(profiles) && P in profiles && Accepts(g, profiles, gpuIndex, ps)
    ensures 0 <= Actual(g, StateFrom(ps), P) <= Ideal(g, StateFrom(ps), P)
  {
    var state := StateFrom(ps);
    AcceptedFacts(g, profiles, gpuIndex, ps);
    GoDivBound(0, FreeSM(g, state), P.smSlices);
    var n: nat := Actual(g, state, P);
    ClaimedIsExtension(g, profiles, gpuIndex, ps, P, n);
    ExtensionIsBounded(g, profiles, gpuIndex, ps, P, n, Claimed(g, gpuIndex, state, P, n));
  }

  /** The positions that all free runs of a profile would take, if each were claimed. */
  lemma {:induction false} FreeRunsTake(g: Geometry, state: State, P: Profile)
    requires Positive(P)
    ensures var runs := Claimed(g, 0, state, P, |FreeStarts(g, state, P)|);
            |StateFrom(runs).usedMemory| == |FreeStarts(g, state, P)| * P.memorySlices
  {
    var free := FreeStarts(g, state, P);
    var runs := Claimed(g, 0, state, P, |free|);
    FreeStartsExact(g, state, P);
    forall i, j | 0 <= i < j < |runs|
      ensures !Overlaps(runs[i], runs[j])
    {
      assert free[i] in free && free[j] in free;
      MultiplesApart(free[i], free[j], P.memorySlices);
    }
    Conservation(runs, 0);
    SumOfSame([], runs, P);
    assert [] + runs == runs;
  }

  lemma {:induction false} FreeRunsAreFree(g: Geometry, state: State, P: Profile, i: int)
    requires Positive(P) && i in StateFrom(Claimed(g, 0, state, P, |FreeStarts(g, state, P)|)).usedMemory
    ensures 0 <= i < g.memorySlices && i !in state.usedMemory
  {
    var free := FreeStarts(g, state, P);
    var runs := Claimed(g, 0, state, P, |free|);
    UsedIsCovered(runs, i);
    var k: nat :| k < |runs| && Covers(runs[k], i);
    FreeStartsExact(g, state, P);
    assert free[k] in free;
    assert PlacementFree(state, free[k], P.memorySlices);
  }

  /** The free runs of a profile, with what is used, fit the memory. */
  lemma {:induction false} FreeRunsFit(g: Geometry, state: State, P: Profile)
    requires Positive(P) && forall i :: i in state.usedMemory ==> 0 <= i < g.memorySlices
    ensures |state.usedMemory| + |FreeStarts(g, state, P)| * P.memorySlices <= g.memorySlices
  {
    var taken := StateFrom(Claimed(g, 0, state, P, |FreeStarts(g, state, P)|)).usedMemory;
    FreeRunsTake(g, state, P);
    forall i | i in taken {
      FreeRunsAreFree(g, state, P, i);
    }
    assert taken !! state.usedMemory;
    BoundedSetSize(state.usedMemory + taken, g.memorySlices);
  }

  /** A loss is never negative, even in a state that no allocator would reach, such as one in
      which partitions of another node are mistaken for the node's own. */
  lemma {:induction false} LossNeverNegative(g: Geometry, state: State, P: Profile)
    requires Positive(P) && forall i :: i in state.usedMemory ==> 0 <= i < g.memorySlices
    ensures Lost(g, state, P) >= 0
  {
    FreeRunsFit(g, state, P);
    GoDivBound(|FreeStarts(g, state, P)|, FreeMemory(g, state), P.memorySlices);
  }

  /** The next request for a profile can be met when and only when Actual is positive. */
  lemma {:induction false} NextRequest(g: Geometry, profiles: seq<Profile>, gpuIndex: nat, ps: seq<Partition>,
      P: Profile)
    requires AllPositive(profiles) && P in profiles && Accepts(g, profiles, gpuIndex, ps)
    ensures (exists p: Partition :: CanClaim(g, profiles, gpuIndex, ps, p) && p.profile == P) <==>
              Actual(g, StateFrom(ps), P) > 0
  {
    ActualIsTheLimit(g, profiles, gpuIndex, ps, P, 1);
    if more :| IsExtension(g, profiles, gpuIndex, ps, P, 1, more) {
      assert more == [more[0]] && (ps + more)[|ps|] == more[0];
      assert CanClaim(g, profiles, gpuIndex, ps, more[0]);
    }
    if p: Partition :| CanClaim(g, profiles, gpuIndex, ps, p) && p.profile == P {
      assert IsExtension(g, profiles, gpuIndex, ps, P, 1, [p]);
    }
  }

  // ---------------------------------------------------------------- prefixes

  ghost predicate IsPrefix(state: State, used: nat) {
    forall i: int :: i in state.usedMemory <==> 0 <= i < used
  }

  /** The first aligned position at or after a given one, counted in runs. */
  function RunsBelow(used: nat, size: nat): nat
    requires size > 0
  {
    (used + size - 1) / size
  }

  lemma {:induction false} RunStartsAbove(k: nat, used: nat, size: nat)
    requires size > 0
    ensures used <= k * size <==> RunsBelow(used, size) <= k
  {
    var c := RunsBelow(used, size);
    assert c * size <= used + size - 1 < (c + 1) * size;
    if used <= k * size {
      assert c * size < (k + 1) * size;
      MulReflects(c, k + 1, size);
    }
    if c <= k {
      MulMono(c, k, size);
      assert (c + 1) * size == c * size + size;
    }
  }

  lemma {:induction false} RunBehindPrefixIsFree(g: Geometry, state: State, P: Profile, used: nat, k: nat)
    requires Positive(P) && IsPrefix(state, used)
    requires RunsBelow(used, P.memorySlices) <= k < g.memorySlices / P.memorySlices
    ensures k * P.memorySlices in FreeStarts(g, state, P)
  {
    var size := P.memorySlices;
    FreeStartsExact(g, state, P);
    MultipleOf(k, size);
    RunStartsAbove(k, used, size);
    DivBound(k + 1, g.memorySlices, size);
    assert (k + 1) * size == k * size + size;
    var start: nat := k * size;
    assert LegalStart(g, P, start) && PlacementFree(state, start, size);
  }

  lemma {:induction false} LegalRunIndex(g: Geometry, P: Profile, start: nat)
    requires Positive(P) && LegalStart(g, P, start)
    ensures start == (start / P.memorySlices) * P.memorySlices
    ensures start / P.memorySlices < g.memorySlices / P.memorySlices
  {
    var size := P.memorySlices;
    var k := start / size;
    assert start == k * size;
    assert (k + 1) * size == k * size + size;
    DivBound(k + 1, g.memorySlices, size);
  }

  lemma {:induction false} FreeIsBehindPrefix(g: Geometry, state: State, P: Profile, used: nat, start: nat)
    requires Positive(P) && IsPrefix(state, used) && start in FreeStarts(g, state, P)
    ensures var k := start / P.memorySlices;
            start == k * P.memorySlices && RunsBelow(used, P.memorySlices) <= k < g.memorySlices / P.memorySlices
  {
    FreeStartsExact(g, state, P);
    LegalRunIndex(g, P, start);
    assert start !in state.usedMemory;
    var k: nat := start / P.memorySlices;
    RunStartsAbove(k, used, P.memorySlices);
  }

  /** The starts of a number of runs of one size, from a given one on. */
  function RunsFrom(c: nat, count: nat, size: nat): seq<nat> {
    seq(count, j requires 0 <= j => (c + j) * size)
  }

  lemma {:induction false} RunsFromDiffer(c: nat, count: nat, size: nat)
    requires size > 0
    ensures forall i, j :: 0 <= i < j < count ==> RunsFrom(c, count, size)[i] != RunsFrom(c, count, size)[j]
  {
    forall i, j | 0 <= i < j < count
      ensures RunsFrom(c, count, size)[i] != RunsFrom(c, count, size)[j]
    {
      MulMono(c + i + 1, c + j, size);
      OneMore(c + i, size);
    }
  }

  /** With the used positions at the front, the free runs are the aligned ones behind them. */
  lemma {:induction false} PrefixFreeStarts(g: Geometry, state: State, P: Profile, used: nat)
    requires Positive(P) && IsPrefix(state, used)
    ensures var c, q := RunsBelow(used, P.memorySlices), g.memorySlices / P.memorySlices;
            |FreeStarts(g, state, P)| == if c <= q then q - c else 0
  {
    var c, q := RunsBelow(used, P.memorySlices), g.memorySlices / P.memorySlices;
    var count := if c <= q then q - c else 0;
    var runs, free := RunsFrom(c, count, P.memorySlices), FreeStarts(g, state, P);
    FreeStartsExact(g, state, P);
    forall j | 0 <= j < count
      ensures runs[j] in free
    {
      RunBehindPrefixIsFree(g, state, P, used, c + j);
    }
    forall i | 0 <= i < |free|
      ensures free[i] in runs
    {
      FreeIsBehindPrefix(g, state, P, used, free[i]);
      assert runs[free[i] / P.memorySlices - c] == free[i];
    }
    RunsFromDiffer(c, count, P.memorySlices);
    DistinctInto(runs, free);
    DistinctInto(free, runs);
  }

  lemma {:induction false} PrefixSize(state: State, used: nat)
    requires IsPrefix(state, used)
    ensures |state.usedMemory| == used
  {
    var p := Partition(Profile("", used, 0), 0, 0, "");
    SlotSetSize(p);
    forall i: int
      ensures i in SlotSet(p) <==> i in state.usedMemory
    {
      assert i in SlotSet(p) <==> Covers(p, i);
    }
    assert SlotSet(p) == state.usedMemory;
  }

  lemma {:induction false} RunsBehind(used: nat, q: nat, size: nat)
    requires size > 0 && used <= q * size
    ensures RunsBelow(used, size) <= q && (q * size - used) / size == q - RunsBelow(used, size)
  {
    var c := RunsBelow(used, size);
    RunStartsAbove(q, used, size);
    RunStartsAbove(c, used, size);
    var free: nat := q * size - used;
    assert (q - c) * size == q * size - c * size;
    DivBound(q - c, free, size);
    if c > 0 {
      RunStartsAbove(c - 1, used, size);
      assert (q - c + 1) * size == q * size - (c - 1) * size;
    } else {
      assert used == 0;
      assert (q - c + 1) * size == q * size + size;
    }
    DivBound(q - c + 1, free, size);
  }

  /** Packed to the front, nothing is lost to a profile whose size divides the memory. */
  lemma {:induction false} PrefixLosesNothing(g: Geometry, state: State, P: Profile, used: nat)
    requires Positive(P) && IsPrefix(state, used) && used <= g.memorySlices
    requires g.memorySlices % P.memorySlices == 0
    ensures Lost(g, state, P) == 0
  {
    PrefixFreeStarts(g, state, P, used);
    PrefixSize(state, used);
    Quotient(g.memorySlices, P.memorySlices);
    RunsBehind(used, g.memorySlices / P.memorySlices, P.memorySlices);
  }

  /** The remainder and k whole runs reach into run k and leave whole runs. */
  lemma {:induction false} RemainderRuns(memory: nat, size: nat, k: nat)
    requires size > 0 && memory % size != 0
    ensures RunsBelow(memory % size + k * size, size) == k + 1
    ensures memory - (memory % size + k * size) == (memory / size - k) * size
  {
    var q, r := memory / size, memory % size;
    OneMore(k, size);
    RunStartsAbove(k, r + k * size, size);
    RunStartsAbove(k + 1, r + k * size, size);
    assert (q - k) * size == q * size - k * size;
  }

  /** The divisibility is needed: where a size leaves a remainder, using up the remainder and any
      number of whole runs at the front costs one instance, although the free memory is a single
      run of whole instances. */
  lemma {:induction false} RemainderPrefixLosesOne(g: Geometry, P: Profile, state: State, k: nat)
    requires Positive(P) && g.memorySlices % P.memorySlices != 0 && k < g.memorySlices / P.memorySlices
    requires IsPrefix(state, g.memorySlices % P.memorySlices + k * P.memorySlices)
    requires state.usedSM + P.smSlices * (g.memorySlices / P.memorySlices - k) <= g.smSlices
    ensures Lost(g, state, P) == 1
  {
    var size := P.memorySlices;
    var left: nat := g.memorySlices / size - k;
    var used := g.memorySlices % size + k * size;
    RemainderRuns(g.memorySlices, size, k);
    PrefixFreeStarts(g, state, P, used);
    PrefixSize(state, used);
    MultipleOf(left, size);
    GoDivBound(left, FreeSM(g, state), P.smSlices);
  }

  /** Nothing is lost to a profile, whatever compute is used, as long as the memory in use is at
      the front. */
  ghost predicate PrefixesLoseNothing(g: Geometry, P: Profile)
    requires Positive(P)
  {
    forall state, used: nat :: IsPrefix(state, used) && used <= g.memorySlices ==> Lost(g, state, P) == 0
  }

  /** A profile of which no instance fits cannot lose one. */
  lemma {:induction false} NoneToLose(g: Geometry, P: Profile, state: State, used: nat)
    requires Positive(P) && IsPrefix(state, used) && used <= g.memorySlices && MaxInstances(g, P) == 0
    ensures Lost(g, state, P) == 0
  {
    PrefixFreeStarts(g, state, P, used);
    PrefixSize(state, used);
    DivBound(1, g.memorySlices, P.memorySlices);
    DivBound(1, g.smSlices, P.smSlices);
    GoDivBound(1, FreeMemory(g, state), P.memorySlices);
    GoDivBound(1, FreeSM(g, state), P.smSlices);
    GoDivBound(0, FreeMemory(g, state), P.memorySlices);
  }

  /** Memory packed to the front loses nothing to a profile when and only when its size divides the
      memory or no instance of it fits at all. */
  lemma {:induction false} PrefixesLoseNothingExactly(g: Geometry, P: Profile)
    requires Positive(P)
    ensures PrefixesLoseNothing(g, P) <==> g.memorySlices % P.memorySlices == 0 || MaxInstances(g, P) == 0
  {
    var size, n := P.memorySlices, MaxInstances(g, P);
    forall state, used: nat | IsPrefix(state, used) && used <= g.memorySlices && (g.memorySlices % size == 0 || n == 0)
      ensures Lost(g, state, P) == 0
    {
      if n == 0 {
        NoneToLose(g, P, state, used);
      } else {
        PrefixLosesNothing(g, state, P, used);
      }
    }
    if g.memorySlices % size != 0 && n != 0 {
      LosingPrefix(g, P);
    }
  }

  /** Memory used up to a position, and no compute. */
  function Front(used: nat): State {
    State(SlotSet(Partition(Profile("", used, 0), 0, 0, "")), 0)
  }

  lemma {:induction false} FrontIsPrefix(used: nat)
    ensures IsPrefix(Front(used), used)
  {
    forall i: int
      ensures i in Front(used).usedMemory <==> 0 <= i < used
    {
      assert i in Front(used).usedMemory <==> Covers(Partition(Profile("", used, 0), 0, 0, ""), i);
    }
  }

  lemma {:induction false} LosingPrefix(g: Geometry, P: Profile)
    requires Positive(P) && g.memorySlices % P.memorySlices != 0 && MaxInstances(g, P) != 0
    ensures !PrefixesLoseNothing(g, P)
  {
    var size, n, q := P.memorySlices, MaxInstances(g, P), g.memorySlices / P.memorySlices;
    var k: nat := q - n;
    var used: nat := g.memorySlices % size + k * size;
    FrontIsPrefix(used);
    FitsCompute(g, P);
    assert q - k == n;
    RemainderPrefixLosesOne(g, P, Front(used), k);
    MulMono(k, q, size);
    assert g.memorySlices == q * size + g.memorySlices % size;
  }

  lemma {:induction false} FitsCompute(g: Geometry, P: Profile)
    requires Positive(P)
    ensures MaxInstances(g, P) >= 0 && P.smSlices * MaxInstances(g, P) <= g.smSlices
  {
    DivBound(MaxInstances(g, P), g.smSlices, P.smSlices);
  }

  /** No supported model has such a profile; only counters published by something else can. */
  lemma {:induction false} SupportedLosesNothing(gpuProfile: string, P: Profile)
    requires GeometryFor(gpuProfile).Some? && P in GeometryFor(gpuProfile).value.profiles
    ensures Positive(P) && PrefixesLoseNothing(GeometryFor(gpuProfile).value, P)
  {
    var g := GeometryFor(gpuProfile).value;
    SupportedWellShaped(gpuProfile);
    assert g.memorySlices == 8 && P.memorySlices in {1, 2, 4, 8};
    PrefixesLoseNothingExactly(g, P);
  }

  /** On an idle GPU the three counts agree, and are the true limit of the counters. */
  lemma {:induction false} IdleLimit(g: Geometry, profiles: seq<Profile>, gpuIndex: nat, P: Profile, n: nat)
    requires AllPositive(profiles) && P in profiles
    ensures Actual(g, IDLE, P) == Ideal(g, IDLE, P) == MaxInstances(g, P)
    ensures Admits(g, profiles, gpuIndex, [], P, n) <==> n <= MaxInstances(g, P)
  {
    PrefixFreeStarts(g, IDLE, P, 0);
    CountersExact(g, profiles, gpuIndex, []);
    ActualIsTheLimit(g, profiles, gpuIndex, [], P, n);
  }

  // ---------------------------------------------------------------- the largest profile

  predicate SizeLe(p: Profile, q: Profile) {
    p.memorySlices < q.memorySlices || (p.memorySlices == q.memorySlices && p.smSlices <= q.smSlices)
  }

  /** A free run of a larger size starts with a free run of a smaller one. */
  lemma {:induction false} SmallerAlsoFits(g: Geometry, state: State, p: Profile, q: Profile)
    requires Positive(p) && Positive(q) && Nested(p, q) && SizeLe(p, q)
    requires Actual(g, state, q) > 0
    ensures Actual(g, state, p) > 0
  {
    FreeStartsExact(g, state, p);
    FreeStartsExact(g, state, q);
    GoDivBound(1, FreeSM(g, state), p.smSlices);
    GoDivBound(1, FreeSM(g, state), q.smSlices);
    var start := FreeStarts(g, state, q)[0];
    assert start in FreeStarts(g, state, q);
    DividesThrough(start, q.memorySlices, p.memorySlices);
    assert start in FreeStarts(g, state, p);
  }

  lemma {:induction false} LargestOfPrefix(fits: seq<ProfileFit>, k: nat)
    requires k <= |fits| && forall i :: 0 <= i < |fits| ==> (fits[i].actual > 0 <==> i < k)
    ensures Largest(fits) == if k == 0 then "" else fits[k - 1].profile
  {
    if fits != [] && k < |fits| {
      LargestOfPrefix(fits[..|fits| - 1], k);
    }
  }

  ghost predicate FittingPrefix(g: Geometry, state: State, profiles: seq<Profile>, k: nat)
    requires AllPositive(profiles)
  {
    && k <= |profiles|
    && (forall i :: 0 <= i < |profiles| ==> Positive(profiles[i]) && (Actual(g, state, profiles[i]) > 0 <==> i < k))
  }

  lemma {:induction false} FittingPrefixExists(g: Geometry, state: State, profiles: seq<Profile>) returns (k: nat)
    requires Chain(profiles) && Sorting.SortedBy(SizeLe, profiles)
    ensures FittingPrefix(g, state, profiles, k)
  {
    if profiles == [] {
      k := 0;
    } else {
      var last := profiles[|profiles| - 1];
      assert last in profiles;
      var front := profiles[..|profiles| - 1];
      k := FittingPrefixExists(g, state, front);
      assert forall i :: 0 <= i < |front| ==> front[i] == profiles[i] && profiles[i] in profiles;
      if Actual(g, state, last) > 0 {
        forall i | 0 <= i < |front|
          ensures Actual(g, state, profiles[i]) > 0
        {
          SmallerAlsoFits(g, state, profiles[i], last);
        }
        k := |profiles|;
      } else {
        assert forall i :: 0 <= i < |front| ==> (Actual(g, state, profiles[i]) > 0 <==> i < k);
      }
    }
  }

  /** With profiles listed smallest first, those that fit form a prefix of the list whose last
      element is LargestAllocatable, and that field is empty when and only when nothing fits. */
  lemma {:induction false} LargestIsLastFitting(g: Geometry, state: State, profiles: seq<Profile>, gpuIndex: int)
      returns (k: nat)
    requires Chain(profiles) && Sorting.SortedBy(SizeLe, profiles) && forall p :: p in profiles ==> p.name != ""
    ensures FittingPrefix(g, state, profiles, k)
    ensures Analyse(g, profiles, gpuIndex, state).largestAllocatable == if k == 0 then "" else profiles[k - 1].name
    ensures Analyse(g, profiles, gpuIndex, state).largestAllocatable == "" <==> k == 0
  {
    k := FittingPrefixExists(g, state, profiles);
    LargestOfPrefix(Fits(g, state, profiles), k);
    if k > 0 {
      assert profiles[k - 1] in profiles;
    }
  }
}
