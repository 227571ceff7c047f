/** The partitions one GPU can offer. */
module Partitions {
  import opened Names
  import opened Profiles

  datatype Partition = Partition(profile: Profile, gpuIndex: nat, start: nat, deviceName: string)

  function MemorySlices(p: Partition): seq<nat> {
    seq(p.profile.memorySlices, i requires i >= 0 => p.start + i)
  }

  method ListMemorySlices(p: Partition) returns (slices: seq<nat>)
    ensures slices == MemorySlices(p)
  {
    slices := [];
    for i := 0 to p.profile.memorySlices
      invariant slices == MemorySlices(p)[..i]
    {
      slices := slices + [p.start + i];
    }
  }

  predicate Covers(p: Partition, i: int) {
    p.start <= i < p.start + p.profile.memorySlices
  }

  /** The positions a partition occupies, as a set. */
  function SlotSet(p: Partition): set<nat> {
    set i: nat | i < p.start + p.profile.memorySlices && Covers(p, i)
  }

  predicate Overlaps(p: Partition, q: Partition) {
    if p.gpuIndex != q.gpuIndex then false
    else
      && p.start < q.start + q.profile.memorySlices
      && q.start < p.start + p.profile.memorySlices
  }

  /** The test decides exactly whether two partitions are on one GPU and share a position of it. */
  lemma {:induction false} OverlapsIsSharedSlot(p: Partition, q: Partition)
    requires Positive(p.profile) && Positive(q.profile)
    ensures Overlaps(p, q) <==> p.gpuIndex == q.gpuIndex && SlotSet(p) * SlotSet(q) != {}
    ensures Overlaps(p, q) <==> Overlaps(q, p)
  {
    if Overlaps(p, q) {
      var i := if p.start < q.start then q.start else p.start;
      assert Covers(p, i) && Covers(q, i);
      assert i in SlotSet(p) * SlotSet(q);
    }
  }

  lemma {:induction false} SlotSetSize(p: Partition)
    ensures |SlotSet(p)| == p.profile.memorySlices
    ensures forall i: nat :: i in SlotSet(p) <==> i in MemorySlices(p)
    decreases p.profile.memorySlices
  {
    var size := p.profile.memorySlices;
    forall i: nat
      ensures i in SlotSet(p) <==> i in MemorySlices(p)
    {
      if i in SlotSet(p) {
        assert MemorySlices(p)[i - p.start] == i;
      }
    }
    if size == 0 {
      assert SlotSet(p) == {};
    } else {
      var q := p.(profile := p.profile.(memorySlices := size - 1));
      SlotSetSize(q);
      forall i: nat
        ensures Covers(p, i) <==> Covers(q, i) || i == p.start + size - 1
      {
      }
      assert SlotSet(p) == SlotSet(q) + {p.start + size - 1};
      assert !Covers(q, p.start + size - 1);
    }
  }

  // ---------------------------------------------------------------- enumeration

  /** A profile at a position of a GPU. */
  function At(profile: Profile, gpuIndex: nat, start: nat): Partition {
    Partition(profile, gpuIndex, start, DeviceName(gpuIndex, profile.name, start))
  }

  function Placed(g: Geometry, profile: Profile, gpuIndex: nat): seq<Partition>
    requires profile.memorySlices > 0
  {
    var starts := Placements(g, profile);
    seq(|starts|, k requires 0 <= k < |starts| => At(profile, gpuIndex, starts[k]))
  }

  function PartitionsFor(g: Geometry, profiles: seq<Profile>, gpuIndex: nat): seq<Partition>
    requires AllPositive(profiles)
  {
    if profiles == [] then []
    else
      var last := profiles[|profiles| - 1];
      assert last in profiles;
      PartitionsFor(g, profiles[..|profiles| - 1], gpuIndex) + Placed(g, last, gpuIndex)
  }

  method EnumeratePartitions(g: Geometry, profiles: seq<Profile>, gpuIndex: nat) returns (out: seq<Partition>)
    requires AllPositive(profiles)
    ensures out == PartitionsFor(g, profiles, gpuIndex)
  {
    out := [];
    for i := 0 to |profiles|
      invariant out == PartitionsFor(g, profiles[..i], gpuIndex)
    {
      var profile := profiles[i];
      assert profile in profiles;
      var starts := ListPlacements(g, profile);
      var before := out;
      for k := 0 to |starts|
        invariant out == before + Placed(g, profile, gpuIndex)[..k]
      {
        out := out + [At(profile, gpuIndex, starts[k])];
      }
      assert profiles[..i + 1][..i] == profiles[..i];
    }
    assert profiles[..|profiles|] == profiles;
  }

  /** A GPU offers a partition when the profile is selected and the position is legal. */
  ghost predicate Offers(g: Geometry, profiles: seq<Profile>, gpuIndex: nat, p: Partition)
    requires AllPositive(profiles)
  {
    p.profile in profiles && LegalStart(g, p.profile, p.start) && p == At(p.profile, gpuIndex, p.start)
  }

  lemma {:induction false} PlacedExact(g: Geometry, profile: Profile, gpuIndex: nat, p: Partition)
    requires profile.memorySlices > 0
    ensures p in Placed(g, profile, gpuIndex) <==>
              p.profile == profile && LegalStart(g, profile, p.start) && p == At(profile, gpuIndex, p.start)
  {
    PlacementsExact(g, profile);
    var starts := Placements(g, profile);
    if p.profile == profile && LegalStart(g, profile, p.start) && p == At(profile, gpuIndex, p.start) {
      var k: nat :| k < |starts| && starts[k] == p.start;
      assert Placed(g, profile, gpuIndex)[k] == p;
    }
  }

  /** The enumeration publishes everything the geometry allows, and nothing else. */
  lemma {:induction false} PartitionsForExact(g: Geometry, profiles: seq<Profile>, gpuIndex: nat, p: Partition)
    requires AllPositive(profiles)
    ensures p in PartitionsFor(g, profiles, gpuIndex) <==> Offers(g, profiles, gpuIndex, p)
    ensures |PartitionsFor(g, profiles, gpuIndex)| == TotalPartitions(g, profiles)
  {
    if profiles != [] {
      var front, last := profiles[..|profiles| - 1], profiles[|profiles| - 1];
      assert profiles == front + [last] && last in profiles;
      PartitionsForExact(g, front, gpuIndex, p);
      PlacedExact(g, last, gpuIndex, p);
    }
  }

  ghost predicate UniqueNames(ps: seq<Partition>) {
    forall i, j :: 0 <= i < j < |ps| ==> ps[i].deviceName != ps[j].deviceName
  }

  /** On one GPU a device name picks out one partition: no name is published twice. */
  lemma {:induction false} DeviceNamesUnique(g: Geometry, profiles: seq<Profile>, gpuIndex: nat)
    requires AllPositive(profiles) && DistinctProfiles(profiles)
    ensures UniqueNames(PartitionsFor(g, profiles, gpuIndex))
  {
    if profiles != [] {
      var front, last := profiles[..|profiles| - 1], profiles[|profiles| - 1];
      assert profiles == front + [last] && last in profiles;
      DeviceNamesUnique(g, front, gpuIndex);
      var a, b := PartitionsFor(g, front, gpuIndex), Placed(g, last, gpuIndex);
      var out := a + b;
      forall i, j | 0 <= i < j < |out|
        ensures out[i].deviceName != out[j].deviceName
      {
        if j < |a| {
          assert out[i] == a[i] && out[j] == a[j];
          assert a[i].deviceName != a[j].deviceName;
        } else if i < |a| {
          assert out[i] == a[i] && out[j] == b[j - |a|] && a[i] in a && b[j - |a|] in b;
          NamesDifferAcross(g, front, last, gpuIndex, a[i], b[j - |a|]);
          assert out[i].deviceName != out[j].deviceName;
        } else {
          assert out[i] == b[i - |a|] && out[j] == b[j - |a|];
          NamesDifferWithin(g, last, gpuIndex, i - |a|, j - |a|);
          assert out[i].deviceName != out[j].deviceName;
        }
      }
    }
  }

  lemma {:induction false} NamesDifferAcross(g: Geometry, front: seq<Profile>, last: Profile, gpuIndex: nat,
      p: Partition, q: Partition)
    requires AllPositive(front + [last]) && DistinctProfiles(front + [last])
    requires AllPositive(front) && last.memorySlices > 0
    requires p in PartitionsFor(g, front, gpuIndex) && q in Placed(g, last, gpuIndex)
    ensures p.deviceName != q.deviceName
  {
    PartitionsForExact(g, front, gpuIndex, p);
    PlacedExact(g, last, gpuIndex, q);
    if p.deviceName == q.deviceName {
      DeviceNameInjective(gpuIndex, p.profile.name, p.start, gpuIndex, q.profile.name, q.start);
      var k: nat :| k < |front| && front[k] == p.profile;
      SameNameSameProfile(front + [last], k, |front|);
    }
  }

  lemma {:induction false} NamesDifferWithin(g: Geometry, profile: Profile, gpuIndex: nat, i: nat, j: nat)
    requires profile.memorySlices > 0 && i < j < |Placed(g, profile, gpuIndex)|
    ensures Placed(g, profile, gpuIndex)[i].deviceName != Placed(g, profile, gpuIndex)[j].deviceName
  {
    PlacementsExact(g, profile);
    var p, q := Placed(g, profile, gpuIndex)[i], Placed(g, profile, gpuIndex)[j];
    assert p.start < q.start;
    if p.deviceName == q.deviceName {
      DeviceNameInjective(gpuIndex, profile.name, p.start, gpuIndex, profile.name, q.start);
    }
  }

  lemma {:induction false} PartitionsPrefix(g: Geometry, profiles: seq<Profile>, gpuIndex: nat, k: nat)
    requires AllPositive(profiles) && k <= |profiles|
    ensures AllPositive(profiles[..k])
    ensures PartitionsFor(g, profiles[..k], gpuIndex) <= PartitionsFor(g, profiles, gpuIndex)
    decreases |profiles|
  {
    if k == |profiles| {
      assert profiles[..k] == profiles;
    } else {
      PartitionsPrefix(g, profiles[..|profiles| - 1], gpuIndex, k);
      assert profiles[..|profiles| - 1][..k] == profiles[..k];
    }
  }

  /** A profile listed twice is published twice under the same names. */
  lemma {:induction false} RepeatedProfile(g: Geometry, profiles: seq<Profile>, gpuIndex: nat, i: nat, j: nat)
    requires AllPositive(profiles) && i < j < |profiles| && profiles[i] == profiles[j]
             && profiles[i].memorySlices <= g.memorySlices
    ensures !UniqueNames(PartitionsFor(g, profiles, gpuIndex))
  {
    var p := At(profiles[i], gpuIndex, 0);
    var front, more := profiles[..j], profiles[..j + 1];
    PartitionsPrefix(g, profiles, gpuIndex, j);
    PartitionsPrefix(g, profiles, gpuIndex, j + 1);
    assert more[..j] == front && front[i] == p.profile;
    PartitionsForExact(g, front, gpuIndex, p);
    assert profiles[j] in profiles;
    PlacedExact(g, profiles[j], gpuIndex, p);
    var a, b := PartitionsFor(g, front, gpuIndex), Placed(g, profiles[j], gpuIndex);
    var x :| 0 <= x < |a| && a[x] == p;
    var y :| 0 <= y < |b| && b[y] == p;
    var out := PartitionsFor(g, profiles, gpuIndex);
    assert out[x] == p && out[|a| + y] == (a + b)[|a| + y] == p;
  }

  /** A selection follows the caller's list, repetitions included. Device names on a GPU are
      unique when and only when the list names no profile twice. */
  lemma {:induction false} NamesUniqueUnlessRepeated(g: Geometry, names: seq<string>, gpuIndex: nat)
    requires WellShaped(g, g.profiles) && g.profiles != [] && SelectProfiles(g, names).Some?
    ensures AllPositive(SelectProfiles(g, names).value)
    ensures UniqueNames(PartitionsFor(g, SelectProfiles(g, names).value, gpuIndex)) <==>
              forall i, j :: 0 <= i < j < |names| ==> names[i] != names[j]
  {
    var selected := SelectProfiles(g, names).value;
    NamedExact(g, names);
    if i, j :| 0 <= i < j < |names| && names[i] == names[j] {
      var a: nat :| a < |g.profiles| && g.profiles[a] == selected[i];
      var b: nat :| b < |g.profiles| && g.profiles[b] == selected[j];
      SameNameSameProfile(g.profiles, a, b);
      RepeatedProfile(g, selected, gpuIndex, i, j);
    } else {
      SelectionWellShaped(g, names);
      DeviceNamesUnique(g, selected, gpuIndex);
    }
  }
}
