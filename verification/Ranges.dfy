/** Ranging over a map, whose keys come in whatever order the runtime yields them. */
module Ranges {

  /** The next key of a range: any one that is left. */
  method Next<T(==)>(left: set<T>) returns (x: T)
    requires left != {}
    ensures x in left
  {
    x :| x in left;
  }

  /** All keys, each once, in some order. */
  method Enumerate<T(==)>(keys: set<T>) returns (s: seq<T>)
    ensures multiset(s) == multiset(keys)
  {
    s := [];
    var left := keys;
    while left != {}
      invariant multiset(s) + multiset(left) == multiset(keys)
      decreases left
    {
      var key := Next(left);
      s := s + [key];
      left := left - {key};
    }
  }

  /** Any bag can be listed. */
  lemma {:induction false} BagHasSequence<T>(bag: multiset<T>) returns (s: seq<T>)
    ensures multiset(s) == bag
    decreases |bag|
  {
    if bag == multiset{} {
      s := [];
    } else {
      var x :| x in bag;
      var rest := BagHasSequence(bag - multiset{x});
      s := rest + [x];
    }
  }

  lemma {:induction false} KeysAreIn<T>(s: seq<T>, keys: set<T>)
    requires multiset(s) == multiset(keys)
    ensures forall k :: 0 <= k < |s| ==> s[k] in keys
  {
    forall k | 0 <= k < |s|
      ensures s[k] in keys
    {
      assert s[k] in multiset(s);
    }
  }

  lemma {:induction false} KeysOnce<T>(s: seq<T>, keys: set<T>)
    requires multiset(s) == multiset(keys)
    ensures forall a, b :: 0 <= a < b < |s| ==> s[a] != s[b]
    ensures forall v :: v in s <==> v in keys
  {
    forall v
      ensures v in s <==> v in keys
    {
      assert v in s <==> v in multiset(s);
    }
    forall a, b | 0 <= a < b < |s|
      ensures s[a] != s[b]
    {
      assert s == s[..a] + [s[a]] + s[a + 1..b] + [s[b]] + s[b + 1..];
      assert multiset(keys)[s[a]] <= 1;
    }
  }

  /** The elements of a listing that are to go, in the listing's order. */
  function Picked<T(==)>(s: seq<T>, pick: set<T>): seq<T> {
    if s == [] then []
    else Picked(s[..|s| - 1], pick) + if s[|s| - 1] in pick then [s[|s| - 1]] else []
  }

  lemma {:induction false} WithoutKey<T>(front: seq<T>, last: T, keys: set<T>)
    requires multiset(front + [last]) == multiset(keys)
    ensures multiset(front) == multiset(keys - {last})
  {
    assert multiset(front + [last]) == multiset(front) + multiset{last};
    forall x
      ensures multiset(front)[x] == multiset(keys - {last})[x]
    {
      assert multiset(keys)[x] == multiset(front)[x] + multiset{last}[x];
    }
  }

  /** Out of a listing of keys, what is picked is listed once each. */
  lemma {:induction false} PickedIs<T>(s: seq<T>, keys: set<T>, pick: set<T>)
    requires multiset(s) == multiset(keys) && pick <= keys
    ensures multiset(Picked(s, pick)) == multiset(pick)
  {
    if s == [] {
      assert |multiset(keys)| == 0;
      assert pick == {};
    } else {
      var front, last := s[..|s| - 1], s[|s| - 1];
      assert s == front + [last];
      KeysOnce(s, keys);
      assert last in keys;
      WithoutKey(front, last, keys);
      PickedIs(front, keys - {last}, pick - {last});
      PickedOnly(front, pick, last);
      if last in pick {
        assert multiset(pick) == multiset(pick - {last}) + multiset{last};
      } else {
        assert pick - {last} == pick;
      }
    }
  }

  lemma {:induction false} PickedOnly<T>(s: seq<T>, pick: set<T>, x: T)
    requires x !in s
    ensures Picked(s, pick) == Picked(s, pick - {x})
  {
    if s != [] {
      PickedOnly(s[..|s| - 1], pick, x);
    }
  }
}
