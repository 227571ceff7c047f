/** What the published counters admit, and what the fragmentation report says about it.

    The scheduler's allocator is a step relation: a device may be claimed while no shared
    counter exceeds its capacity, and a held device may be released. */
module Allocation {
  import opened Arith
  import opened Names
  import opened Profiles
  import opened Partitions
  import opened Fragmentation
  import opened Occupancy
  import opened Counters

  /** The scheduler's rule: no counter is consumed beyond what is published. */
  ghost predicate WithinCapacity(g: Geometry, ps: seq<Partition>) {
    forall name :: Consumed(ps, name) <= Amount(Capacity(g), name)
  }

  ghost predicate AllOffered(g: Geometry, profiles: seq<Profile>, gpuIndex: nat, ps: seq<Partition>)
    requires AllPositive(profiles)
  {
    forall p :: p in ps ==> Offers(g, profiles, gpuIndex, p)
  }

  ghost predicate Accepts(g: Geometry, profiles: seq<Profile>, gpuIndex: nat, ps: seq<Partition>)
    requires AllPositive(profiles)
  {
    AllOffered(g, profiles, gpuIndex, ps) && WithinCapacity(g, ps)
  }

  // ---------------------------------------------------------------- exclusion

  ghost predicate Disjoint(ps: seq<Partition>) {
    forall i, j :: 0 <= i < j < |ps| ==> !Overlaps(ps[i], ps[j])
  }

  lemma {:induction false} WithinExcludes(g: Geometry, ps: seq<Partition>, a: nat, b: nat)
    requires WithinCapacity(g, ps) && a < b < |ps|
    ensures !Overlaps(ps[a], ps[b]) || !Positive(ps[a].profile) || !Positive(ps[b].profile)
  {
    var i: nat := if ps[a].start < ps[b].start then ps[b].start else ps[a].start;
    ConsumedAt(ps, i, "");
    CapacityAt(g, i, "");
    assert Consumed(ps, MemoryCounter(i)) <= Amount(Capacity(g), MemoryCounter(i));
    CoveringOnce(ps, i);
    assert !(Covers(ps[a], i) && Covers(ps[b], i));
  }

  /** The encoding is exact: the counters stay within capacity when and only when no two
      partitions overlap and the compute they take fits the pool. */
  lemma {:induction false} CountersExact(g: Geometry, profiles: seq<Profile>, gpuIndex: nat, ps: seq<Partition>)
    requires AllPositive(profiles) && AllOffered(g, profiles, gpuIndex, ps)
    ensures WithinCapacity(g, ps) <==> Disjoint(ps) && SumSM(ps) <= g.smSlices
  {
    if WithinCapacity(g, ps) {
      ConsumedAt(ps, 0, "");
      CapacityAt(g, 0, "");
      assert Consumed(ps, SM_COUNTER) <= Amount(Capacity(g), SM_COUNTER);
      forall a, b | 0 <= a < b < |ps|
        ensures !Overlaps(ps[a], ps[b])
      {
        assert ps[a] in ps && ps[b] in ps;
        WithinExcludes(g, ps, a, b);
      }
    }
    if Disjoint(ps) && SumSM(ps) <= g.smSlices {
      forall name
        ensures Consumed(ps, name) <= Amount(Capacity(g), name)
      {
        DisjointWithin(g, profiles, gpuIndex, ps, name);
      }
    }
  }

  lemma {:induction false} DisjointWithin(g: Geometry, profiles: seq<Profile>, gpuIndex: nat, ps: seq<Partition>,
      name: string)
    requires AllPositive(profiles) && AllOffered(g, profiles, gpuIndex, ps)
    requires Disjoint(ps) && SumSM(ps) <= g.smSlices
    ensures Consumed(ps, name) <= Amount(Capacity(g), name)
  {
    if i: nat :| name == MemoryCounter(i) {
      ConsumedAt(ps, i, name);
      CapacityAt(g, i, name);
      CoveringOnce(ps, i);
      CoveringNone(ps, i);
      forall a, b | 0 <= a < b < |ps|
        ensures !(Covers(ps[a], i) && Covers(ps[b], i))
      {
        assert !Overlaps(ps[a], ps[b]);
        assert ps[a] in ps && ps[b] in ps;
      }
      forall k | 0 <= k < |ps|
        ensures Covers(ps[k], i) ==> i < g.memorySlices
      {
        assert ps[k] in ps;
      }
    } else {
      ConsumedAt(ps, 0, name);
      CapacityAt(g, 0, name);
    }
  }

  // ---------------------------------------------------------------- conservation

  /** Nothing is counted twice: held slices add up in both dimensions. */
  lemma {:induction false} Conservation(ps: seq<Partition>, gpuIndex: nat)
    requires Disjoint(ps) && forall p :: p in ps ==> p.gpuIndex == gpuIndex && Positive(p.profile)
    ensures |StateFrom(ps).usedMemory| == SumMemory(ps)
    ensures StateFrom(ps).usedSM == SumSM(ps)
  {
    if ps != [] {
      var front, last := ps[..|ps| - 1], ps[|ps| - 1];
      Conservation(front, gpuIndex);
      SlotSetSize(last);
      var used := StateFrom(front).usedMemory;
      forall i: int | i in SlotSet(last)
        ensures i !in used
      {
        UsedIsCovered(front, i);
        forall k | 0 <= k < |front|
          ensures !Covers(front[k], i)
        {
          assert front[k] == ps[k] && ps[k] in ps && last in ps;
          assert !Overlaps(ps[k], ps[|ps| - 1]);
        }
      }
      assert used !! SlotSet(last);
    }
  }

  lemma {:induction false} AcceptedFacts(g: Geometry, profiles: seq<Profile>, gpuIndex: nat, ps: seq<Partition>)
    requires AllPositive(profiles) && Accepts(g, profiles, gpuIndex, ps)
    ensures Disjoint(ps) && SumSM(ps) <= g.smSlices && SumMemory(ps) <= g.memorySlices
    ensures |StateFrom(ps).usedMemory| == SumMemory(ps) && StateFrom(ps).usedSM == SumSM(ps)
  {
    CountersExact(g, profiles, gpuIndex, ps);
    Conservation(ps, gpuIndex);
    forall i | i in StateFrom(ps).usedMemory
      ensures 0 <= i < g.memorySlices
    {
      UsedIsCovered(ps, i);
      var k :| 0 <= k < |ps| && Covers(ps[k], i);
      assert ps[k] in ps;
    }
    BoundedSetSize(StateFrom(ps).usedMemory, g.memorySlices);
  }

  // ---------------------------------------------------------------- adding partitions

  /** The counters admit n further instances of a profile beside the ones held. */
  ghost predicate Admits(g: Geometry, profiles: seq<Profile>, gpuIndex: nat, ps: seq<Partition>, P: Profile, n: nat)
    requires AllPositive(profiles)
  {
    exists more :: IsExtension(g, profiles, gpuIndex, ps, P, n, more)
  }

  ghost predicate IsExtension(g: Geometry, profiles: seq<Profile>, gpuIndex: nat, ps: seq<Partition>, P: Profile,
      n: nat, more: seq<Partition>)
    requires AllPositive(profiles)
  {
    && |more| == n
    && (forall p :: p in more ==> p.profile == P)
    && Accepts(g, profiles, gpuIndex, ps + more)
  }

  /** A held partition that covers a position of the run is what makes the run unfree. */
  lemma {:induction false} FreeMeansNoOverlap(ps: seq<Partition>, q: Partition)
    requires Positive(q.profile) && forall p :: p in ps ==> p.gpuIndex == q.gpuIndex && Positive(p.profile)
    ensures PlacementFree(StateFrom(ps), q.start, q.profile.memorySlices) <==>
              forall k :: 0 <= k < |ps| ==> !Overlaps(ps[k], q)
  {
    var state := StateFrom(ps);
    if PlacementFree(state, q.start, q.profile.memorySlices) {
      forall k | 0 <= k < |ps|
        ensures !Overlaps(ps[k], q)
      {
        assert ps[k] in ps;
        var i: nat := if ps[k].start < q.start then q.start else ps[k].start;
        UsedIsCovered(ps, i);
        assert Overlaps(ps[k], q) ==> Covers(ps[k], i) && q.start <= i < q.start + q.profile.memorySlices;
      }
    } else {
      var i :| q.start <= i < q.start + q.profile.memorySlices && i in state.usedMemory;
      UsedIsCovered(ps, i);
      var k :| 0 <= k < |ps| && Covers(ps[k], i);
      assert ps[k] in ps;
      assert Overlaps(ps[k], q);
    }
  }

  lemma {:induction false} ExtensionIsBounded(g: Geometry, profiles: seq<Profile>, gpuIndex: nat, ps: seq<Partition>,
      P: Profile, n: nat, more: seq<Partition>)
    requires AllPositive(profiles) && P in profiles && Accepts(g, profiles, gpuIndex, ps)
    requires IsExtension(g, profiles, gpuIndex, ps, P, n, more)
    ensures n <= Actual(g, StateFrom(ps), P) && n <= Ideal(g, StateFrom(ps), P)
  {
    var state := StateFrom(ps);
    AcceptedFacts(g, profiles, gpuIndex, ps);
    AcceptedFacts(g, profiles, gpuIndex, ps + more);
    SumOfSame(ps, more, P);
    GoDivBound(n, FreeSM(g, state), P.smSlices);
    GoDivBound(n, FreeMemory(g, state), P.memorySlices);
    FreeStartsExact(g, state, P);
    var starts := seq(n, i requires 0 <= i < n => more[i].start);
    forall i | 0 <= i < n
      ensures starts[i] in FreeStarts(g, state, P)
    {
      var q := more[i];
      assert q in more && (ps + more)[|ps| + i] == q && q in ps + more;
      forall k | 0 <= k < |ps|
        ensures !Overlaps(ps[k], q)
      {
        assert (ps + more)[k] == ps[k];
      }
      FreeMeansNoOverlap(ps, q);
    }
    forall i, j | 0 <= i < j < n
      ensures starts[i] != starts[j]
    {
      assert more[i] in more && more[j] in more;
      assert (ps + more)[|ps| + i] == more[i] && (ps + more)[|ps| + j] == more[j];
      assert !Overlaps((ps + more)[|ps| + i], (ps + more)[|ps| + j]);
      assert more[i] in ps + more && more[j] in ps + more;
    }
    DistinctInto(starts, FreeStarts(g, state, P));
  }

  /** The n lowest free positions, claimed one after another. */
  function Claimed(g: Geometry, gpuIndex: nat, state: State, P: Profile, n: nat): seq<Partition>
    requires Positive(P) && n <= |FreeStarts(g, state, P)|
  {
    seq(n, i requires 0 <= i < n => At(P, gpuIndex, FreeStarts(g, state, P)[i]))
  }

  lemma {:induction false} ClaimedIsExtension(g: Geometry, profiles: seq<Profile>, gpuIndex: nat, ps: seq<Partition>,
      P: Profile, n: nat)
    requires AllPositive(profiles) && P in profiles && Accepts(g, profiles, gpuIndex, ps)
    requires n <= Actual(g, StateFrom(ps), P)
    ensures IsExtension(g, profiles, gpuIndex, ps, P, n, Claimed(g, gpuIndex, StateFrom(ps), P, n))
  {
    var state := StateFrom(ps);
    var free := FreeStarts(g, state, P);
    var more := Claimed(g, gpuIndex, state, P, n);
    AcceptedFacts(g, profiles, gpuIndex, ps);
    SumOfSame(ps, more, P);
    GoDivBound(n, FreeSM(g, state), P.smSlices);
    FreeStartsExact(g, state, P);
    forall i | 0 <= i < n
      ensures Offers(g, profiles, gpuIndex, more[i])
      ensures PlacementFree(state, more[i].start, P.memorySlices)
    {
      assert free[i] in free;
    }
    var all := ps + more;
    forall i, j | 0 <= i < j < |all|
      ensures !Overlaps(all[i], all[j])
    {
      if j < |ps| {
        assert all[i] == ps[i] && all[j] == ps[j];
      } else {
        var q := more[j - |ps|];
        assert all[j] == q;
        if i < |ps| {
          assert all[i] == ps[i];
          FreeMeansNoOverlap(ps, q);
        } else {
          var p := more[i - |ps|];
          assert all[i] == p;
          MultiplesApart(p.start, q.start, P.memorySlices);
        }
      }
    }
    CountersExact(g, profiles, gpuIndex, all);
  }

  /** Actual is exact: the counters admit n further instances when and only when n <= Actual. */
  lemma {:induction false} ActualIsTheLimit(g: Geometry, profiles: seq<Profile>, gpuIndex: nat, ps: seq<Partition>,
      P: Profile, n: nat)
    requires AllPositive(profiles) && P in profiles && Accepts(g, profiles, gpuIndex, ps)
    ensures Admits(g, profiles, gpuIndex, ps, P, n) <==> n <= Actual(g, StateFrom(ps), P)
  {
    if more :| IsExtension(g, profiles, gpuIndex, ps, P, n, more) {
      ExtensionIsBounded(g, profiles, gpuIndex, ps, P, n, more);
    }
    if n <= Actual(g, StateFrom(ps), P) {
      ClaimedIsExtension(g, profiles, gpuIndex, ps, P, n);
    }
  }
}
