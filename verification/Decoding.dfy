/** Reading a cluster back: what one node published, and the report recomputed from it. */
module Decoding {
  import opened Options
  import opened Names
  import opened Profiles
  import opened Fragmentation
  import opened Counters
  import opened Resources
  import opened Runs
  import opened Sorting
  import opened Ranges

  datatype PublishedPartition = PublishedPartition(name: string, profile: Profile, memorySlices: seq<int>)

  // ---------------------------------------------------------------- one counter map

  predicate IntLe(a: int, b: int) {
    a <= b
  }

  /** The memory position a counter name stands for, if it stands for one. */
  function SlotOf(counter: string): multiset<int> {
    if counter == SM_COUNTER then multiset{}
    else
      match MemorySliceIndex(counter)
      case Some(i) => multiset{i}
      case None => multiset{}
  }

  /** All memory positions named by a set of counters; two spellings of one index count twice. */
  ghost function SlotBag(counters: set<string>): multiset<int> {
    if counters == {} then multiset{}
    else
      var name :| name in counters;
      SlotBag(counters - {name}) + SlotOf(name)
  }

  lemma {:induction false} SlotBagPick(counters: set<string>, name: string)
    requires name in counters
    ensures SlotBag(counters) == SlotBag(counters - {name}) + SlotOf(name)
    decreases |counters|
  {
    var first :| first in counters && SlotBag(counters) == SlotBag(counters - {first}) + SlotOf(first);
    if first != name {
      SlotBagPick(counters - {first}, name);
      SlotBagPick(counters - {name}, first);
      assert counters - {first} - {name} == counters - {name} - {first};
    }
  }

  ghost predicate IsMemory(counter: string) {
    counter != SM_COUNTER && MemorySliceIndex(counter).Some?
  }

  ghost predicate IsSlot(counter: string, i: int) {
    counter != SM_COUNTER && MemorySliceIndex(counter) == Some(i)
  }

  lemma {:induction false} SlotOfIs(counter: string, i: int)
    ensures |SlotOf(counter)| == (if IsMemory(counter) then 1 else 0)
    ensures SlotOf(counter)[i] == (if IsSlot(counter, i) then 1 else 0)
  {
  }

  ghost function Counted(counters: set<string>, which: string -> bool): set<string> {
    set name | name in counters && which(name)
  }

  lemma {:induction false} CountedWith(counters: set<string>, name: string, which: string -> bool)
    requires name !in counters
    ensures |Counted(counters + {name}, which)| == |Counted(counters, which)| + if which(name) then 1 else 0
  {
    assert Counted(counters + {name}, which) == Counted(counters, which) + if which(name) then {name} else {};
  }

  /** Every counter but the one of compute that reads as a position is one, of the position it reads
      as; the rest are none. */
  lemma {:induction false} SlotBagCounts(counters: set<string>, i: int)
    ensures |SlotBag(counters)| == |Counted(counters, IsMemory)|
    ensures SlotBag(counters)[i] == |Counted(counters, name => IsSlot(name, i))|
    decreases |counters|
  {
    if counters != {} {
      var name :| name in counters;
      var rest := counters - {name};
      SlotBagPick(counters, name);
      SlotBagCounts(rest, i);
      SlotOfIs(name, i);
      CountedWith(rest, name, IsMemory);
      CountedWith(rest, name, name => IsSlot(name, i));
      assert rest + {name} == counters;
    }
  }

  lemma {:induction false} IntsInOrder()
    ensures TotalPreorder(IntLe)
  {
  }

  lemma {:induction false} SortedBagExists(bag: multiset<int>)
    ensures exists s :: SortedBy(IntLe, s) && multiset(s) == bag
  {
    var s := BagHasSequence(bag);
    IntsInOrder();
    SortSorts(IntLe, s);
    SortPermutes(IntLe, s);
  }

  /** The increasing listing of a bag of integers. */
  ghost function SortedBag(bag: multiset<int>): (s: seq<int>)
    ensures SortedBy(IntLe, s) && multiset(s) == bag
  {
    SortedBagExists(bag);
    var s :| SortedBy(IntLe, s) && multiset(s) == bag;
    s
  }

  lemma {:induction false} SortedBagUnique(s: seq<int>)
    requires SortedBy(IntLe, s)
    ensures SortedBag(multiset(s)) == s
  {
    SortedUnique(IntLe, s, SortedBag(multiset(s)));
  }

  ghost function GeometryOf(set_: CounterSet): Geometry {
    Geometry(|SlotBag(set_.counters.Keys)|, Amount(set_.counters, SM_COUNTER), [])
  }

  ghost function PublishedAs(device: Device): PublishedPartition
    requires device.consumes != []
  {
    var counters := device.consumes[0].counters;
    var slots := SlotBag(counters.Keys);
    PublishedPartition(
      device.name,
      Profile(if ATTR_PROFILE in device.attributes then device.attributes[ATTR_PROFILE] else "", |slots|,
        Amount(counters, SM_COUNTER)),
      SortedBag(slots))
  }

  method DecodeGeometry(set_: CounterSet) returns (geometry: Geometry)
    ensures geometry == GeometryOf(set_)
    ensures geometry.memorySlices == |Counted(set_.counters.Keys, IsMemory)|
    ensures geometry.smSlices == if SM_COUNTER in set_.counters then set_.counters[SM_COUNTER] else 0
  {
    SlotBagCounts(set_.counters.Keys, 0);
    var memory, sm: nat := 0, 0;
    var names := set_.counters.Keys;
    while names != {}
      invariant names <= set_.counters.Keys
      invariant memory + |SlotBag(names)| == |SlotBag(set_.counters.Keys)|
      invariant SM_COUNTER !in names ==> sm == Amount(set_.counters, SM_COUNTER)
      decreases names
    {
      var name :| name in names;
      SlotBagPick(names, name);
      names := names - {name};
      if name == SM_COUNTER {
        sm := set_.counters[name];
        continue;
      }
      var slot := MemorySliceIndex(name);
      if slot.Some? {
        memory := memory + 1;
      }
    }
    geometry := Geometry(memory, sm, []);
  }

  /** The positions named by a counter map in whatever order the map yields them. */
  method CollectSlots(counters: map<string, nat>) returns (slots: seq<int>, sm: nat)
    ensures multiset(slots) == SlotBag(counters.Keys) && sm == Amount(counters, SM_COUNTER)
  {
    slots, sm := [], 0;
    var names := counters.Keys;
    while names != {}
      invariant names <= counters.Keys
      invariant multiset(slots) + SlotBag(names) == SlotBag(counters.Keys)
      invariant SM_COUNTER !in names ==> sm == Amount(counters, SM_COUNTER)
      decreases names
    {
      var name :| name in names;
      SlotBagPick(names, name);
      names := names - {name};
      if name == SM_COUNTER {
        sm := counters[name];
        continue;
      }
      var slot := MemorySliceIndex(name);
      if slot.Some? {
        slots := slots + [slot.value];
      }
    }
  }

  lemma {:induction false} SortingSlots(slots: seq<int>)
    ensures Sort(IntLe, slots) == SortedBag(multiset(slots)) && |slots| == |multiset(slots)|
  {
    IntsInOrder();
    SortSorts(IntLe, slots);
    SortPermutes(IntLe, slots);
    SortedBagUnique(Sort(IntLe, slots));
  }

  method DecodeDevice(device: Device) returns (partition: PublishedPartition)
    requires device.consumes != []
    ensures partition == PublishedAs(device)
    ensures var counters := device.consumes[0].counters;
            && partition.name == device.name && SortedBy(IntLe, partition.memorySlices)
            && partition.profile.memorySlices == |partition.memorySlices| == |Counted(counters.Keys, IsMemory)|
            && (forall i :: multiset(partition.memorySlices)[i] == |Counted(counters.Keys, name => IsSlot(name, i))|)
            && partition.profile.smSlices == if SM_COUNTER in counters then counters[SM_COUNTER] else 0
  {
    forall i {
      SlotBagCounts(device.consumes[0].counters.Keys, i);
    }
    var slots, sm := CollectSlots(device.consumes[0].counters);
    SortingSlots(slots);
    var profile := if ATTR_PROFILE in device.attributes then device.attributes[ATTR_PROFILE] else "";
    partition := PublishedPartition(device.name, Profile(profile, |slots|, sm), Sort(IntLe, slots));
  }

  // ---------------------------------------------------------------- accumulating slices

  function IndexOf(device: Device): Option<int> {
    if device.consumes == [] then None else GpuIndexFromCounterSet(device.consumes[0].counterSet)
  }

  ghost function AddSets(m: map<int, Geometry>, sets: seq<CounterSet>): map<int, Geometry> {
    if sets == [] then m
    else
      var front, last := AddSets(m, sets[..|sets| - 1]), sets[|sets| - 1];
      match GpuIndexFromCounterSet(last.name)
      case Some(i) => front[i := GeometryOf(last)]
      case None => front
  }

  ghost predicate IsSetOf(set_: CounterSet, i: int) {
    GpuIndexFromCounterSet(set_.name) == Some(i)
  }

  lemma {:induction false} AddSetsWithout(m: map<int, Geometry>, sets: seq<CounterSet>, i: int)
    requires forall k :: 0 <= k < |sets| ==> !IsSetOf(sets[k], i)
    ensures (i in AddSets(m, sets) <==> i in m) && (i in m ==> AddSets(m, sets)[i] == m[i])
  {
    if sets != [] {
      AddSetsWithout(m, sets[..|sets| - 1], i);
      assert !IsSetOf(sets[|sets| - 1], i);
    }
  }

  /** A GPU's capacity is that of the last counter set under its index. */
  lemma {:induction false} AddSetsAt(m: map<int, Geometry>, sets: seq<CounterSet>, i: int, k: nat)
    requires k < |sets| && IsSetOf(sets[k], i) && forall j :: k < j < |sets| ==> !IsSetOf(sets[j], i)
    ensures i in AddSets(m, sets) && AddSets(m, sets)[i] == GeometryOf(sets[k])
  {
    if k < |sets| - 1 {
      AddSetsAt(m, sets[..|sets| - 1], i, k);
      assert !IsSetOf(sets[|sets| - 1], i);
    }
  }

  function OnGpu(m: map<int, seq<PublishedPartition>>, i: int): seq<PublishedPartition> {
    if i in m then m[i] else []
  }

  /** What is read from one device: a partition and the GPU it is on, or nothing. */
  datatype Reading = Reading(gpuIndex: int, partition: PublishedPartition) | Nothing

  ghost function ReadingOf(device: Device): Reading {
    match IndexOf(device)
    case Some(i) => Reading(i, PublishedAs(device))
    case None => Nothing
  }

  ghost function AddReading(m: map<int, seq<PublishedPartition>>, r: Reading): map<int, seq<PublishedPartition>> {
    if r.Nothing? then m else m[r.gpuIndex := OnGpu(m, r.gpuIndex) + [r.partition]]
  }

  ghost function AddDevices(m: map<int, seq<PublishedPartition>>,
      devices: seq<Device>): map<int, seq<PublishedPartition>> {
    if devices == [] then m
    else AddReading(AddDevices(m, devices[..|devices| - 1]), ReadingOf(devices[|devices| - 1]))
  }

  /** What one published partition adds to the state of its GPU. */
  function Contribution(p: PublishedPartition, held: set<string>): State {
    if p.name in held then State((set i | i in p.memorySlices), p.profile.smSlices) else IDLE
  }

  function UsedBy(published: seq<PublishedPartition>, held: set<string>): State {
    if published == [] then IDLE
    else Join(UsedBy(published[..|published| - 1], held), Contribution(published[|published| - 1], held))
  }

  /** The positions in use are those of the partitions held. */
  lemma {:induction false} UsedByIs(published: seq<PublishedPartition>, held: set<string>, i: int)
    ensures i in UsedBy(published, held).usedMemory <==>
              exists p :: p in published && p.name in held && i in p.memorySlices
  {
    if published != [] {
      var front, last := published[..|published| - 1], published[|published| - 1];
      UsedByIs(front, held, i);
      assert published == front + [last];
      assert last in published;
    }
  }

  // ---------------------------------------------------------------- profiles

  /** The profile published last under a name. */
  function LastNamed(published: seq<PublishedPartition>, name: string): Option<Profile> {
    if published == [] then None
    else if published[|published| - 1].profile.name == name then Some(published[|published| - 1].profile)
    else LastNamed(published[..|published| - 1], name)
  }

  /** It is that of the last partition of the name. */
  lemma {:induction false} LastNamedIs(published: seq<PublishedPartition>, name: string, p: Profile)
    ensures LastNamed(published, name) == Some(p) <==>
              exists k :: 0 <= k < |published| && published[k].profile == p && p.name == name
                && forall j :: k < j < |published| ==> published[j].profile.name != name
  {
    if published != [] {
      var front, last := published[..|published| - 1], published[|published| - 1];
      LastNamedIs(front, name, p);
      assert forall k :: 0 <= k < |front| ==> front[k] == published[k];
      if last.profile.name == name {
        assert published[|published| - 1].profile == last.profile;
      } else if LastNamed(front, name) == Some(p) {
        var k :| 0 <= k < |front| && front[k].profile == p && p.name == name
          && forall j :: k < j < |front| ==> front[j].profile.name != name;
        assert published[k].profile == p;
      }
    }
  }

  /** A listing of the published profiles, one for each name, smallest first. Profiles of equal
      size may come in either order. */
  ghost predicate Lists(published: seq<PublishedPartition>, out: seq<Profile>) {
    && SortedBy(SizeLe, out) && NoRepeats(out)
    && forall p :: p in out <==> p.name != "" && LastNamed(published, p.name) == Some(p)
  }

  method DistinctProfilesOf(published: seq<PublishedPartition>) returns (out: seq<Profile>)
    ensures Lists(published, out)
  {
    var seen: map<string, Profile> := map[];
    for i := 0 to |published|
      invariant forall n :: n in seen <==> n != "" && LastNamed(published[..i], n).Some?
      invariant forall n :: n in seen ==> LastNamed(published[..i], n) == Some(seen[n]) && seen[n].name == n
    {
      assert published[..i + 1][..i] == published[..i];
      if published[i].profile.name != "" {
        seen := seen[published[i].profile.name := published[i].profile];
      }
    }
    assert published[..|published|] == published;
    var unsorted: seq<Profile> := [];
    var names := seen.Keys;
    while names != {}
      invariant names <= seen.Keys && NoRepeats(unsorted)
      invariant forall p :: p in unsorted <==> p.name in seen.Keys - names && seen[p.name] == p
      decreases names
    {
      var name :| name in names;
      names := names - {name};
      assert seen[name] !in unsorted;
      unsorted := unsorted + [seen[name]];
    }
    out := Sort(SizeLe, unsorted);
    SortPermutes(SizeLe, unsorted);
    SortSorts(SizeLe, unsorted);
    forall p
      ensures p in out <==> p in unsorted
    {
      InSameBag(out, unsorted, p);
    }
  }

  // ---------------------------------------------------------------- the node

  ghost function SortedKeys(keys: set<int>): seq<int> {
    SortedBag(multiset(keys))
  }

  /** Dividing by a published profile's slice counts is what the source relies on. */
  ghost predicate Divisible(published: seq<PublishedPartition>) {
    forall p :: p in published && p.profile.name != "" ==> Positive(p.profile)
  }

  lemma {:induction false} LastNamedIsPublished(published: seq<PublishedPartition>, name: string)
    ensures LastNamed(published, name).Some? ==>
              exists p :: p in published && p.profile == LastNamed(published, name).value && p.profile.name == name
  {
    if published != [] {
      LastNamedIsPublished(published[..|published| - 1], name);
      assert published[|published| - 1] in published;
    }
  }

  lemma {:induction false} ListedArePositive(published: seq<PublishedPartition>, out: seq<Profile>)
    requires Divisible(published) && Lists(published, out)
    ensures AllPositive(out)
  {
    forall p | p in out
      ensures Positive(p)
    {
      LastNamedIsPublished(published, p.name);
    }
  }

  /** The report of one GPU, whichever listing of its profiles was taken. */
  ghost predicate IsReportOf(geometry: Geometry, published: seq<PublishedPartition>, index: int, held: set<string>,
      report: Report) {
    exists ps :: Lists(published, ps) && AllPositive(ps)
      && report == Analyse(geometry, ps, index, UsedBy(published, held))
  }

  ghost predicate AreReportsOf(counterSets: map<int, Geometry>, devices: map<int, seq<PublishedPartition>>,
      held: set<string>, reports: seq<Report>) {
    var indexes := SortedKeys(counterSets.Keys);
    && |reports| == |indexes|
    && forall k :: 0 <= k < |reports| ==>
         && indexes[k] in counterSets
         && IsReportOf(counterSets[indexes[k]], OnGpu(devices, indexes[k]), indexes[k], held, reports[k])
  }

  class NodeState {
    var counterSets: map<int, Geometry>
    var devices: map<int, seq<PublishedPartition>>

    constructor ()
      ensures counterSets == map[] && devices == map[]
    {
      counterSets, devices := map[], map[];
    }

    method AbsorbSets(sets: seq<CounterSet>)
      modifies this`counterSets
      ensures counterSets == AddSets(old(counterSets), sets)
    {
      for i := 0 to |sets|
        invariant counterSets == AddSets(old(counterSets), sets[..i])
      {
        var set_ := sets[i];
        assert sets[..i + 1][..i] == sets[..i];
        var index := GpuIndexFromCounterSet(set_.name);
        if index.None? {
          continue;
        }
        var geometry := DecodeGeometry(set_);
        counterSets := counterSets[index.value := geometry];
      }
      assert sets[..|sets|] == sets;
    }

    method AbsorbDevices(published: seq<Device>)
      modifies this`devices
      ensures devices == AddDevices(old(devices), published)
    {
      for i := 0 to |published|
        invariant devices == AddDevices(old(devices), published[..i])
      {
        var device := published[i];
        assert published[..i + 1][..i] == published[..i];
        if |device.consumes| == 0 {
          continue;
        }
        var index := GpuIndexFromCounterSet(device.consumes[0].counterSet);
        if index.None? {
          continue;
        }
        var partition := DecodeDevice(device);
        devices := devices[index.value := OnGpu(devices, index.value) + [partition]];
      }
      assert published[..|published|] == published;
    }

    /** One slice contributes its counter sets and its devices, whichever it carries. */
    method Absorb(slice: ResourceSlice)
      modifies this
      ensures counterSets == AddSets(old(counterSets), slice.sharedCounters)
      ensures devices == AddDevices(old(devices), slice.devices)
    {
      AbsorbSets(slice.sharedCounters);
      AbsorbDevices(slice.devices);
    }

    method Report(held: set<string>) returns (reports: seq<Report>)
      requires forall i :: i in counterSets ==> Divisible(OnGpu(devices, i))
      ensures AreReportsOf(counterSets, devices, held, reports)
    {
      var indexes := KeysInOrder(counterSets.Keys);
      reports := [];
      for k := 0 to |indexes|
        invariant |reports| == k
        invariant forall m :: 0 <= m < k ==>
                    IsReportOf(counterSets[indexes[m]], OnGpu(devices, indexes[m]), indexes[m], held, reports[m])
      {
        var index := indexes[k];
        var report := ReportGPU(counterSets[index], OnGpu(devices, index), index, held);
        reports := reports + [report];
      }
    }
  }

  method KeysInOrder(keys: set<int>) returns (indexes: seq<int>)
    ensures indexes == SortedKeys(keys)
    ensures forall k :: 0 <= k < |indexes| ==> indexes[k] in keys
  {
    var unsorted := Enumerate(keys);
    SortingSlots(unsorted);
    indexes := Sort(IntLe, unsorted);
    KeysAreIn(indexes, keys);
  }

  method ReportGPU(geometry: Geometry, published: seq<PublishedPartition>, index: int, held: set<string>)
      returns (report: Report)
    requires Divisible(published)
    ensures IsReportOf(geometry, published, index, held, report)
  {
    var profiles := DistinctProfilesOf(published);
    ListedArePositive(published, profiles);
    var state := UsedState(published, held);
    report := AnalyseGPU(geometry, profiles, index, state);
  }

  method AddSlots(used: set<int>, slots: seq<int>) returns (more: set<int>)
    ensures more == used + set j | j in slots
  {
    more := used;
    for k := 0 to |slots|
      invariant more == used + set j | j in slots[..k]
    {
      more := more + {slots[k]};
    }
    assert slots[..|slots|] == slots;
  }

  lemma {:induction false} UsedByNext(published: seq<PublishedPartition>, i: nat, held: set<string>)
    requires i < |published|
    ensures var before, p := UsedBy(published[..i], held), published[i];
            UsedBy(published[..i + 1], held) ==
              if p.name in held then State(before.usedMemory + (set j | j in p.memorySlices),
                before.usedSM + p.profile.smSlices) else before
  {
    assert published[..i + 1][..i] == published[..i];
  }

  method UsedState(published: seq<PublishedPartition>, held: set<string>) returns (state: State)
    ensures state == UsedBy(published, held)
  {
    state := IDLE;
    for i := 0 to |published|
      invariant state == UsedBy(published[..i], held)
    {
      var partition := published[i];
      UsedByNext(published, i, held);
      if partition.name !in held {
        continue;
      }
      var used := AddSlots(state.usedMemory, partition.memorySlices);
      state := State(used, state.usedSM + partition.profile.smSlices);
    }
    assert published[..|published|] == published;
  }
}
