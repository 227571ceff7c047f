/** What a list of partitions occupies, and which positions it leaves free. */
module Occupancy {
  import opened Profiles
  import opened Partitions
  import opened Fragmentation

  // ---------------------------------------------------------------- sums

  function SumMemory(ps: seq<Partition>): nat {
    if ps == [] then 0 else SumMemory(ps[..|ps| - 1]) + ps[|ps| - 1].profile.memorySlices
  }

  function SumSM(ps: seq<Partition>): nat {
    if ps == [] then 0 else SumSM(ps[..|ps| - 1]) + ps[|ps| - 1].profile.smSlices
  }

  lemma {:induction false} SumSnoc(ps: seq<Partition>, p: Partition)
    ensures SumSM(ps + [p]) == SumSM(ps) + p.profile.smSlices
    ensures SumMemory(ps + [p]) == SumMemory(ps) + p.profile.memorySlices
  {
    assert (ps + [p])[..|ps|] == ps;
  }

  lemma {:induction false} OneMore(n: nat, k: nat)
    ensures (n + 1) * k == n * k + k
  {
  }

  lemma {:induction false} SumOfSame(ps: seq<Partition>, more: seq<Partition>, P: Profile)
    requires forall p :: p in more ==> p.profile == P
    ensures SumSM(ps + more) == SumSM(ps) + |more| * P.smSlices
    ensures SumMemory(ps + more) == SumMemory(ps) + |more| * P.memorySlices
  {
    if more == [] {
      assert ps + more == ps;
    } else {
      var front := more[..|more| - 1];
      SumOfSame(ps, front, P);
      assert ps + more == (ps + front) + [more[|more| - 1]];
      SumSnoc(ps + front, more[|more| - 1]);
      OneMore(|front|, P.smSlices);
      OneMore(|front|, P.memorySlices);
    }
  }

  // ---------------------------------------------------------------- positions

  lemma {:induction false} UsedIsCovered(ps: seq<Partition>, i: int)
    ensures i in StateFrom(ps).usedMemory <==> exists k :: 0 <= k < |ps| && Covers(ps[k], i)
  {
    if ps != [] {
      var front := ps[..|ps| - 1];
      UsedIsCovered(front, i);
      assert i in SlotSet(ps[|ps| - 1]) <==> Covers(ps[|ps| - 1], i);
      if k :| 0 <= k < |ps| && Covers(ps[k], i) {
        assert k == |ps| - 1 || (k < |front| && Covers(front[k], i));
      }
    }
  }

  lemma {:induction false} BoundedSetSize(s: set<int>, n: nat)
    requires forall i :: i in s ==> 0 <= i < n
    ensures |s| <= n
  {
    var whole := Partition(Profile("", n, 0), 0, 0, "");
    SlotSetSize(whole);
    var all: set<int> := SlotSet(whole);
    forall i | i in s
      ensures i in all
    {
      assert Covers(whole, i);
    }
    assert all == s + (all - s);
  }

  // ---------------------------------------------------------------- free starts

  /** A sequence without repetitions is no longer than one that contains it. */
  lemma {:induction false} DistinctInto(s: seq<nat>, t: seq<nat>)
    requires forall i, j :: 0 <= i < j < |s| ==> s[i] != s[j]
    requires forall i :: 0 <= i < |s| ==> s[i] in t
    ensures |s| <= |t|
  {
    if s != [] {
      var front, x := s[..|s| - 1], s[|s| - 1];
      var k :| 0 <= k < |t| && t[k] == x;
      var rest := t[..k] + t[k + 1..];
      forall i | 0 <= i < |front|
        ensures front[i] in rest
      {
        assert front[i] == s[i] && s[i] in t;
        var m :| 0 <= m < |t| && t[m] == s[i];
        assert m != k;
        assert if m < k then rest[m] == s[i] else rest[m - 1] == s[i];
      }
      DistinctInto(front, rest);
    }
  }

  ghost predicate Increasing(s: seq<nat>) {
    forall i, j :: 0 <= i < j < |s| ==> s[i] < s[j]
  }

  lemma {:induction false} FreeAmongExact(state: State, starts: seq<nat>, size: nat)
    requires Increasing(starts)
    ensures forall s :: s in FreeAmong(state, starts, size) <==> s in starts && PlacementFree(state, s, size)
    ensures Increasing(FreeAmong(state, starts, size))
  {
    if starts != [] {
      var front, last := starts[..|starts| - 1], starts[|starts| - 1];
      FreeAmongExact(state, front, size);
      assert starts == front + [last];
      var free := FreeAmong(state, front, size);
      forall i | 0 <= i < |free|
        ensures free[i] < last
      {
        assert free[i] in free;
        assert free[i] in front;
        var k :| 0 <= k < |front| && front[k] == free[i];
        assert starts[k] < starts[|starts| - 1];
      }
    }
  }

  lemma {:induction false} FreeStartsExact(g: Geometry, state: State, P: Profile)
    requires Positive(P)
    ensures forall s :: s in FreeStarts(g, state, P) <==> LegalStart(g, P, s) && PlacementFree(state, s, P.memorySlices)
    ensures Increasing(FreeStarts(g, state, P))
  {
    PlacementsExact(g, P);
    FreeAmongExact(state, Placements(g, P), P.memorySlices);
  }
}
