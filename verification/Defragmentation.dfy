/** What rearranging the held partitions would recover. */
module Defragmentation {
  import opened Arith
  import opened Profiles
  import opened Partitions
  import opened Fragmentation
  import opened Occupancy
  import opened Counters
  import opened Allocation
  import Packing

  /** The same partitions at other positions. */
  ghost predicate Relocates(ps: seq<Partition>, qs: seq<Partition>) {
    |ps| == |qs| && forall i :: 0 <= i < |ps| ==> qs[i].profile == ps[i].profile
  }

  /** Some legal rearrangement of what is held leaves room for n further instances. */
  ghost predicate AdmitsAfterDefragmentation(g: Geometry, profiles: seq<Profile>, gpuIndex: nat, ps: seq<Partition>,
      P: Profile, n: nat)
    requires AllPositive(profiles)
  {
    exists qs :: Relocates(ps, qs) && Accepts(g, profiles, gpuIndex, qs) && Admits(g, profiles, gpuIndex, qs, P, n)
  }

  lemma {:induction false} RelocationKeepsSums(ps: seq<Partition>, qs: seq<Partition>)
    requires Relocates(ps, qs)
    ensures SumMemory(ps) == SumMemory(qs) && SumSM(ps) == SumSM(qs)
  {
    if ps != [] {
      RelocationKeepsSums(ps[..|ps| - 1], qs[..|qs| - 1]);
    }
  }

  /** The sizes to pack: what is held, then n instances of the profile asked for. */
  function Demand(ps: seq<Partition>, P: Profile, n: nat): seq<Profile> {
    seq(|ps| + n, i requires 0 <= i < |ps| + n => if i < |ps| then ps[i].profile else P)
  }

  function Sizes(items: seq<Profile>): seq<nat> {
    seq(|items|, i requires 0 <= i < |items| => items[i].memorySlices)
  }

  /** The demand packed largest first. */
  function Packed(items: seq<Profile>, gpuIndex: nat): seq<Partition> {
    seq(|items|, i requires 0 <= i < |items| => At(items[i], gpuIndex, Packing.Offset(Sizes(items), i)))
  }

  lemma {:induction false} PackedSums(ps: seq<Partition>, items: seq<Profile>)
    requires |ps| == |items| && forall i :: 0 <= i < |ps| ==> ps[i].profile == items[i]
    ensures Packing.Total(Sizes(items)) == SumMemory(ps)
  {
    if ps != [] {
      var front := items[..|items| - 1];
      PackedSums(ps[..|ps| - 1], front);
      assert Sizes(items)[..|items| - 1] == Sizes(front);
    }
  }

  lemma {:induction false} PackedIsAccepted(g: Geometry, profiles: seq<Profile>, gpuIndex: nat, items: seq<Profile>)
    requires Chain(profiles) && forall p :: p in items ==> p in profiles
    requires SumMemory(Packed(items, gpuIndex)) <= g.memorySlices && SumSM(Packed(items, gpuIndex)) <= g.smSlices
    ensures Accepts(g, profiles, gpuIndex, Packed(items, gpuIndex))
  {
    var sizes, out := Sizes(items), Packed(items, gpuIndex);
    assert Packing.DivisibilityChain(sizes) by {
      forall i, j | 0 <= i < |sizes| && 0 <= j < |sizes|
        ensures sizes[i] > 0 && sizes[j] > 0 && (sizes[j] <= sizes[i] ==> sizes[i] % sizes[j] == 0)
      {
        assert items[i] in items && items[j] in items;
        assert Nested(items[j], items[i]);
      }
    }
    Packing.PackingIsLegal(sizes);
    PackedSums(out, items);
    forall i | 0 <= i < |out|
      ensures Offers(g, profiles, gpuIndex, out[i])
    {
      assert items[i] in items && sizes[i] == items[i].memorySlices;
    }
    forall i, j | 0 <= i < j < |out|
      ensures !Overlaps(out[i], out[j])
    {
      assert sizes[i] == items[i].memorySlices && sizes[j] == items[j].memorySlices;
    }
    CountersExact(g, profiles, gpuIndex, out);
  }

  lemma {:induction false} ConsumedGrows(ps: seq<Partition>, more: seq<Partition>, name: string)
    ensures Consumed(ps, name) <= Consumed(ps + more, name)
  {
    if more == [] {
      assert ps + more == ps;
    } else {
      assert (ps + more)[..|ps + more| - 1] == ps + more[..|more| - 1];
      ConsumedGrows(ps, more[..|more| - 1], name);
    }
  }

  lemma {:induction false} AcceptsPrefix(g: Geometry, profiles: seq<Profile>, gpuIndex: nat, ps: seq<Partition>,
      more: seq<Partition>)
    requires AllPositive(profiles) && Accepts(g, profiles, gpuIndex, ps + more)
    ensures Accepts(g, profiles, gpuIndex, ps)
  {
    forall name
      ensures Consumed(ps, name) <= Amount(Capacity(g), name)
    {
      ConsumedGrows(ps, more, name);
      assert Consumed(ps + more, name) <= Amount(Capacity(g), name);
    }
    assert forall k :: 0 <= k < |ps| ==> ps[k] == (ps + more)[k];
  }

  /** Packing the demand moves what is held and adds the n instances behind it. */
  lemma {:induction false} PackedDemand(ps: seq<Partition>, P: Profile, n: nat, gpuIndex: nat)
    ensures var out := Packed(Demand(ps, P, n), gpuIndex);
            && Relocates(ps, out[..|ps|])
            && |out| == |ps| + n
            && (forall p :: p in out[|ps|..] ==> p.profile == P)
            && SumMemory(out) == SumMemory(ps) + n * P.memorySlices
            && SumSM(out) == SumSM(ps) + n * P.smSlices
  {
    var out := Packed(Demand(ps, P, n), gpuIndex);
    var qs, more := out[..|ps|], out[|ps|..];
    assert out == qs + more;
    RelocationKeepsSums(ps, qs);
    SumOfSame(qs, more, P);
  }

  lemma {:induction false} IdealLeavesRoom(g: Geometry, profiles: seq<Profile>, gpuIndex: nat, ps: seq<Partition>,
      P: Profile, n: nat)
    requires AllPositive(profiles) && P in profiles && Accepts(g, profiles, gpuIndex, ps)
    requires n <= Ideal(g, StateFrom(ps), P)
    ensures SumMemory(ps) + n * P.memorySlices <= g.memorySlices
    ensures SumSM(ps) + n * P.smSlices <= g.smSlices
  {
    AcceptedFacts(g, profiles, gpuIndex, ps);
    GoDivBound(n, FreeSM(g, StateFrom(ps)), P.smSlices);
    GoDivBound(n, FreeMemory(g, StateFrom(ps)), P.memorySlices);
  }

  lemma {:induction false} IdealIsReached(g: Geometry, profiles: seq<Profile>, gpuIndex: nat, ps: seq<Partition>,
      P: Profile, n: nat)
    requires Chain(profiles) && P in profiles && Accepts(g, profiles, gpuIndex, ps)
    requires n <= Ideal(g, StateFrom(ps), P)
    ensures AdmitsAfterDefragmentation(g, profiles, gpuIndex, ps, P, n)
  {
    var items := Demand(ps, P, n);
    var out := Packed(items, gpuIndex);
    var qs, more := out[..|ps|], out[|ps|..];
    assert out == qs + more;
    IdealLeavesRoom(g, profiles, gpuIndex, ps, P, n);
    PackedDemand(ps, P, n, gpuIndex);
    forall p | p in items
      ensures p in profiles
    {
      var i :| 0 <= i < |items| && items[i] == p;
      assert i < |ps| ==> ps[i] in ps;
    }
    PackedIsAccepted(g, profiles, gpuIndex, items);
    AcceptsPrefix(g, profiles, gpuIndex, qs, more);
    assert IsExtension(g, profiles, gpuIndex, qs, P, n, more);
  }

  lemma {:induction false} IdealIsBound(g: Geometry, profiles: seq<Profile>, gpuIndex: nat, ps: seq<Partition>,
      P: Profile, n: nat, qs: seq<Partition>)
    requires AllPositive(profiles) && P in profiles && Accepts(g, profiles, gpuIndex, ps)
    requires Relocates(ps, qs) && Accepts(g, profiles, gpuIndex, qs) && Admits(g, profiles, gpuIndex, qs, P, n)
    ensures n <= Ideal(g, StateFrom(ps), P)
  {
    var more :| IsExtension(g, profiles, gpuIndex, qs, P, n, more);
    ExtensionIsBounded(g, profiles, gpuIndex, qs, P, n, more);
    RelocationKeepsSums(ps, qs);
    AcceptedFacts(g, profiles, gpuIndex, ps);
    AcceptedFacts(g, profiles, gpuIndex, qs);
    assert FreeMemory(g, StateFrom(ps)) == FreeMemory(g, StateFrom(qs));
    assert FreeSM(g, StateFrom(ps)) == FreeSM(g, StateFrom(qs));
  }

  /** Ideal is exact: some rearrangement of what is held admits n further instances when and
      only when n <= Ideal. So Lost is what perfect defragmentation would recover. */
  lemma {:induction false} IdealIsTheLimit(g: Geometry, profiles: seq<Profile>, gpuIndex: nat, ps: seq<Partition>,
      P: Profile, n: nat)
    requires Chain(profiles) && P in profiles && Accepts(g, profiles, gpuIndex, ps)
    ensures AdmitsAfterDefragmentation(g, profiles, gpuIndex, ps, P, n) <==> n <= Ideal(g, StateFrom(ps), P)
  {
    if qs :| Relocates(ps, qs) && Accepts(g, profiles, gpuIndex, qs) && Admits(g, profiles, gpuIndex, qs, P, n) {
      IdealIsBound(g, profiles, gpuIndex, ps, P, n, qs);
    }
    if n <= Ideal(g, StateFrom(ps), P) {
      IdealIsReached(g, profiles, gpuIndex, ps, P, n);
    }
  }
}
