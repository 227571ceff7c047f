/** The fragmentation report of one GPU, computed as the source computes it. */
module Fragmentation {
  import opened Arith
  import opened Profiles
  import opened Partitions

  /** What a GPU has allocated: the occupied positions, and a count of compute slices. */
  datatype State = State(usedMemory: set<int>, usedSM: nat)

  const IDLE := State({}, 0)

  function Join(s: State, t: State): State {
    State(s.usedMemory + t.usedMemory, s.usedSM + t.usedSM)
  }

  datatype ProfileFit = ProfileFit(profile: string, ideal: int, actual: int, lost: int)

  datatype Report = Report(
    gpuIndex: int,
    freeMemorySlices: int,
    freeSMSlices: int,
    largestAllocatable: string,
    profiles: seq<ProfileFit>)

  function StateFrom(held: seq<Partition>): State {
    if held == [] then IDLE
    else
      var s := StateFrom(held[..|held| - 1]);
      var p := held[|held| - 1];
      State(s.usedMemory + SlotSet(p), s.usedSM + p.profile.smSlices)
  }

  method StateFromAllocated(held: seq<Partition>) returns (state: State)
    ensures state == StateFrom(held)
  {
    state := IDLE;
    for i := 0 to |held|
      invariant state == StateFrom(held[..i])
    {
      var p := held[i];
      var slices := ListMemorySlices(p);
      var used: set<int> := state.usedMemory;
      for k := 0 to |slices|
        invariant forall j: int :: j in used <==> j in state.usedMemory || p.start <= j < p.start + k
      {
        used := used + {slices[k]};
      }
      assert forall j: int :: j in SlotSet(p) <==> Covers(p, j);
      assert used == state.usedMemory + SlotSet(p);
      state := State(used, state.usedSM + p.profile.smSlices);
      assert held[..i + 1][..i] == held[..i];
    }
    assert held[..|held|] == held;
  }

  /** No position of the run is occupied. */
  predicate PlacementFree(state: State, start: nat, size: nat) {
    forall i :: start <= i < start + size ==> i !in state.usedMemory
  }

  method PlacementIsFree(state: State, start: nat, size: nat) returns (free: bool)
    ensures free == PlacementFree(state, start, size)
  {
    for i := start to start + size
      invariant PlacementFree(state, start, i - start)
    {
      if i in state.usedMemory {
        return false;
      }
    }
    return true;
  }

  function FreeAmong(state: State, starts: seq<nat>, size: nat): seq<nat> {
    if starts == [] then []
    else
      var last := starts[|starts| - 1];
      FreeAmong(state, starts[..|starts| - 1], size) + if PlacementFree(state, last, size) then [last] else []
  }

  /** The legal positions of a profile that are still wholly free. */
  function FreeStarts(g: Geometry, state: State, p: Profile): seq<nat>
    requires Positive(p)
  {
    FreeAmong(state, Placements(g, p), p.memorySlices)
  }

  function FreeMemory(g: Geometry, state: State): int {
    g.memorySlices - |state.usedMemory|
  }

  function FreeSM(g: Geometry, state: State): int {
    g.smSlices - state.usedSM
  }

  function Ideal(g: Geometry, state: State, p: Profile): int
    requires Positive(p)
  {
    Min(GoDiv(FreeMemory(g, state), p.memorySlices), GoDiv(FreeSM(g, state), p.smSlices))
  }

  function Actual(g: Geometry, state: State, p: Profile): int
    requires Positive(p)
  {
    Min(|FreeStarts(g, state, p)|, GoDiv(FreeSM(g, state), p.smSlices))
  }

  function Lost(g: Geometry, state: State, p: Profile): int
    requires Positive(p)
  {
    Ideal(g, state, p) - Actual(g, state, p)
  }

  function Fit(g: Geometry, state: State, p: Profile): ProfileFit
    requires Positive(p)
  {
    ProfileFit(p.name, Ideal(g, state, p), Actual(g, state, p), Lost(g, state, p))
  }

  function Fits(g: Geometry, state: State, profiles: seq<Profile>): seq<ProfileFit>
    requires AllPositive(profiles)
  {
    seq(|profiles|, i requires 0 <= i < |profiles| => assert profiles[i] in profiles; Fit(g, state, profiles[i]))
  }

  /** The last profile of the list that still fits. */
  function Largest(fits: seq<ProfileFit>): string {
    if fits == [] then ""
    else if fits[|fits| - 1].actual > 0 then fits[|fits| - 1].profile
    else Largest(fits[..|fits| - 1])
  }

  function Analyse(g: Geometry, profiles: seq<Profile>, gpuIndex: int, state: State): Report
    requires AllPositive(profiles)
  {
    var fits := Fits(g, state, profiles);
    Report(gpuIndex, FreeMemory(g, state), FreeSM(g, state), Largest(fits), fits)
  }

  method AnalyseGPU(g: Geometry, profiles: seq<Profile>, gpuIndex: int, state: State) returns (report: Report)
    requires AllPositive(profiles)
    ensures report == Analyse(g, profiles, gpuIndex, state)
  {
    var freeMemory := g.memorySlices - |state.usedMemory|;
    var freeSM := g.smSlices - state.usedSM;
    var fits: seq<ProfileFit> := [];
    var largest := "";
    for i := 0 to |profiles|
      invariant fits == Fits(g, state, profiles)[..i]
      invariant largest == Largest(fits)
    {
      var profile := profiles[i];
      assert profile in profiles;
      var ideal := Min(GoDiv(freeMemory, profile.memorySlices), GoDiv(freeSM, profile.smSlices));
      var starts := ListPlacements(g, profile);
      var free := 0;
      for k := 0 to |starts|
        invariant free == |FreeAmong(state, starts[..k], profile.memorySlices)|
      {
        var isFree := PlacementIsFree(state, starts[k], profile.memorySlices);
        if isFree {
          free := free + 1;
        }
        assert starts[..k + 1][..k] == starts[..k];
      }
      assert starts[..|starts|] == starts;
      var actual := Min(free, GoDiv(freeSM, profile.smSlices));
      var before := fits;
      fits := fits + [ProfileFit(profile.name, ideal, actual, ideal - actual)];
      assert fits[..|fits| - 1] == before;
      if actual > 0 {
        largest := profile.name;
      }
    }
    assert Fits(g, state, profiles)[..|profiles|] == Fits(g, state, profiles);
    report := Report(gpuIndex, freeMemory, freeSM, largest, fits);
  }

  function SumLost(fits: seq<ProfileFit>): int {
    if fits == [] then 0 else SumLost(fits[..|fits| - 1]) + fits[|fits| - 1].lost
  }

  method TotalLost(r: Report) returns (total: int)
    ensures total == SumLost(r.profiles)
  {
    total := 0;
    for i := 0 to |r.profiles|
      invariant total == SumLost(r.profiles[..i])
    {
      total := total + r.profiles[i].lost;
      assert r.profiles[..i + 1][..i] == r.profiles[..i];
    }
    assert r.profiles[..|r.profiles|] == r.profiles;
  }
}
