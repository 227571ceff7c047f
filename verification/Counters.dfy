/** The counters partitions are published with, and what a list of partitions consumes of them. */
module Counters {
  import opened Names
  import opened Profiles
  import opened Partitions
  import opened Occupancy

  predicate IsPosition(g: Geometry, i: nat) {
    i < g.memorySlices
  }

  function Positions(g: Geometry): set<nat> {
    set i: nat | i < g.memorySlices && IsPosition(g, i)
  }

  /** One counter of value 1 for each memory position. */
  function PositionCounters(positions: set<nat>): map<string, nat> {
    map i: nat | i in positions :: MemoryCounter(i) := 1
  }

  lemma {:induction false} PositionCountersAdd(positions: set<nat>, i: nat)
    ensures PositionCounters(positions + {i}) == PositionCounters(positions)[MemoryCounter(i) := 1]
  {
    var bigger, smaller := PositionCounters(positions + {i}), PositionCounters(positions);
    assert i in positions + {i};
    forall name
      ensures name in bigger <==> name in smaller || name == MemoryCounter(i)
    {
    }
  }

  /** The counters one GPU publishes: one per memory position, and a pool of compute. */
  function Capacity(g: Geometry): map<string, nat> {
    PositionCounters(Positions(g))[SM_COUNTER := g.smSlices]
  }

  /** The counters one partition consumes. */
  function Consumption(p: Partition): map<string, nat> {
    PositionCounters(SlotSet(p))[SM_COUNTER := p.profile.smSlices]
  }

  function Amount(counters: map<string, nat>, name: string): nat {
    if name in counters then counters[name] else 0
  }

  function Consumed(ps: seq<Partition>, name: string): nat {
    if ps == [] then 0
    else Consumed(ps[..|ps| - 1], name) + Amount(Consumption(ps[|ps| - 1]), name)
  }

  lemma {:induction false} ConsumptionAt(p: Partition, i: nat, name: string)
    ensures Amount(Consumption(p), MemoryCounter(i)) == if Covers(p, i) then 1 else 0
    ensures Amount(Consumption(p), SM_COUNTER) == p.profile.smSlices
    ensures name != SM_COUNTER && (forall k: nat :: name != MemoryCounter(k)) ==> Amount(Consumption(p), name) == 0
  {
    SmCounterIsNotMemory(i);
    if MemoryCounter(i) in Consumption(p) {
      var k: nat :| k in SlotSet(p) && MemoryCounter(k) == MemoryCounter(i);
      MemoryCounterInjective(k, i);
    }
    assert Covers(p, i) ==> i in SlotSet(p);
  }

  lemma {:induction false} CapacityAt(g: Geometry, i: nat, name: string)
    ensures Amount(Capacity(g), MemoryCounter(i)) == if i < g.memorySlices then 1 else 0
    ensures Amount(Capacity(g), SM_COUNTER) == g.smSlices
    ensures name != SM_COUNTER && (forall k: nat :: name != MemoryCounter(k)) ==> Amount(Capacity(g), name) == 0
  {
    SmCounterIsNotMemory(i);
    if MemoryCounter(i) in Capacity(g) {
      var k: nat :| k in Positions(g) && MemoryCounter(k) == MemoryCounter(i);
      MemoryCounterInjective(k, i);
    }
    assert i < g.memorySlices ==> IsPosition(g, i);
  }

  /** How many partitions of the sequence occupy a position. */
  function Covering(ps: seq<Partition>, i: nat): nat {
    if ps == [] then 0 else Covering(ps[..|ps| - 1], i) + if Covers(ps[|ps| - 1], i) then 1 else 0
  }

  lemma {:induction false} ConsumedAt(ps: seq<Partition>, i: nat, name: string)
    ensures Consumed(ps, MemoryCounter(i)) == Covering(ps, i)
    ensures Consumed(ps, SM_COUNTER) == SumSM(ps)
    ensures name != SM_COUNTER && (forall k: nat :: name != MemoryCounter(k)) ==> Consumed(ps, name) == 0
  {
    if ps != [] {
      ConsumedAt(ps[..|ps| - 1], i, name);
      ConsumptionAt(ps[|ps| - 1], i, name);
    }
  }

  lemma {:induction false} CoveringNone(ps: seq<Partition>, i: nat)
    ensures Covering(ps, i) == 0 <==> forall k :: 0 <= k < |ps| ==> !Covers(ps[k], i)
  {
    if ps != [] {
      CoveringNone(ps[..|ps| - 1], i);
      assert forall k :: 0 <= k < |ps| - 1 ==> ps[..|ps| - 1][k] == ps[k];
    }
  }

  /** A position is counted at most once exactly when no two partitions share it. */
  lemma {:induction false} CoveringOnce(ps: seq<Partition>, i: nat)
    ensures Covering(ps, i) <= 1 <==> forall a, b :: 0 <= a < b < |ps| ==> !(Covers(ps[a], i) && Covers(ps[b], i))
  {
    if ps != [] {
      var front := ps[..|ps| - 1];
      CoveringOnce(front, i);
      CoveringNone(front, i);
      assert forall k :: 0 <= k < |front| ==> front[k] == ps[k];
    }
  }
}
