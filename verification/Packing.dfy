/** Perfect defragmentation, constructed: place runs of memory largest first, end to end.
    With sizes that divide one another every run lands on a multiple of its own size. */
module Packing {
  import opened Arith

  ghost predicate DivisibilityChain(sizes: seq<nat>) {
    && (forall i :: 0 <= i < |sizes| ==> sizes[i] > 0)
    && (forall i, j :: 0 <= i < |sizes| && 0 <= j < |sizes| && sizes[j] <= sizes[i] && sizes[j] > 0 ==>
      sizes[i] % sizes[j] == 0)
  }

  /** Larger runs come first; equal ones keep their order. */
  predicate Before(sizes: seq<nat>, i: nat, j: nat)
    requires i < |sizes| && j < |sizes|
  {
    sizes[i] > sizes[j] || (sizes[i] == sizes[j] && i < j)
  }

  function OffsetUpTo(sizes: seq<nat>, i: nat, k: nat): nat
    requires i < |sizes| && k <= |sizes|
  {
    if k == 0 then 0
    else OffsetUpTo(sizes, i, k - 1) + if Before(sizes, k - 1, i) then sizes[k - 1] else 0
  }

  /** Where run i starts: after everything that comes before it. */
  function Offset(sizes: seq<nat>, i: nat): nat
    requires i < |sizes|
  {
    OffsetUpTo(sizes, i, |sizes|)
  }

  function Total(sizes: seq<nat>): nat {
    if sizes == [] then 0 else Total(sizes[..|sizes| - 1]) + sizes[|sizes| - 1]
  }

  lemma {:induction false} OffsetAlignedUpTo(sizes: seq<nat>, i: nat, k: nat)
    requires DivisibilityChain(sizes) && i < |sizes| && k <= |sizes|
    ensures OffsetUpTo(sizes, i, k) % sizes[i] == 0
  {
    if k > 0 {
      OffsetAlignedUpTo(sizes, i, k - 1);
      if Before(sizes, k - 1, i) {
        var offset, size := OffsetUpTo(sizes, i, k - 1), sizes[i];
        assert sizes[k - 1] % size == 0;
        SumOfMultiples(offset, sizes[k - 1], size);
      }
    }
  }

  lemma {:induction false} OffsetGapUpTo(sizes: seq<nat>, i: nat, j: nat, k: nat)
    requires i < |sizes| && j < |sizes| && k <= |sizes| && Before(sizes, i, j)
    ensures OffsetUpTo(sizes, i, k) + (if i < k then sizes[i] else 0) <= OffsetUpTo(sizes, j, k)
  {
    if k > 0 {
      OffsetGapUpTo(sizes, i, j, k - 1);
    }
  }

  lemma {:induction false} OffsetFitsUpTo(sizes: seq<nat>, i: nat, k: nat)
    requires i < |sizes| && k <= |sizes|
    ensures OffsetUpTo(sizes, i, k) + (if i < k then sizes[i] else 0) <= Total(sizes[..k])
  {
    if k > 0 {
      OffsetFitsUpTo(sizes, i, k - 1);
      assert sizes[..k][..k - 1] == sizes[..k - 1];
    }
  }

  /** The packing is legal: aligned, inside the total, and without overlap. */
  lemma {:induction false} PackingIsLegal(sizes: seq<nat>)
    requires DivisibilityChain(sizes)
    ensures forall i :: 0 <= i < |sizes| ==>
              Offset(sizes, i) % sizes[i] == 0 && Offset(sizes, i) + sizes[i] <= Total(sizes)
    ensures forall i, j :: 0 <= i < j < |sizes| ==>
              Offset(sizes, i) + sizes[i] <= Offset(sizes, j) || Offset(sizes, j) + sizes[j] <= Offset(sizes, i)
  {
    forall i | 0 <= i < |sizes|
      ensures Offset(sizes, i) % sizes[i] == 0 && Offset(sizes, i) + sizes[i] <= Total(sizes)
    {
      OffsetAlignedUpTo(sizes, i, |sizes|);
      OffsetFitsUpTo(sizes, i, |sizes|);
      assert sizes[..|sizes|] == sizes;
    }
    forall i, j | 0 <= i < j < |sizes|
      ensures Offset(sizes, i) + sizes[i] <= Offset(sizes, j) || Offset(sizes, j) + sizes[j] <= Offset(sizes, i)
    {
      if Before(sizes, i, j) {
        OffsetGapUpTo(sizes, i, j, |sizes|);
      } else {
        OffsetGapUpTo(sizes, j, i, |sizes|);
      }
    }
  }
}
