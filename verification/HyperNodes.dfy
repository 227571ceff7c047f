/** Volcano's topology tree: one HyperNode for each value of each level, built tier by tier. */
module HyperNodes {
  import opened Names
  import opened Resolve
  import opened Levels
  import opened Sorting
  import opened Ranges

  datatype MemberType = NodeMember | HyperNodeMember

  datatype HyperNode = HyperNode(name: string, tierName: string, tier: nat, memberType: MemberType,
    members: seq<string>)

  // ---------------------------------------------------------------- string order

  /** Lexicographic order, as strings are sorted. */
  predicate LexLe(a: string, b: string) {
    if a == [] then true
    else if b == [] then false
    else if a[0] == b[0] then LexLe(a[1..], b[1..])
    else a[0] < b[0]
  }

  lemma {:induction false} LexTotal(a: string, b: string)
    ensures LexLe(a, b) || LexLe(b, a)
  {
    if a != [] && b != [] && a[0] == b[0] {
      LexTotal(a[1..], b[1..]);
    }
  }

  lemma {:induction false} LexTransitive(a: string, b: string, c: string)
    requires LexLe(a, b) && LexLe(b, c)
    ensures LexLe(a, c)
  {
    if a != [] && b != [] && c != [] && a[0] == b[0] == c[0] {
      LexTransitive(a[1..], b[1..], c[1..]);
    }
  }

  /** After what the two have in common, the first has ended or goes on with a smaller character. */
  ghost predicate Parts(a: string, b: string, common: string, x: string, y: string) {
    a == common + x && b == common + y && (x == [] || (y != [] && x[0] < y[0]))
  }

  lemma {:induction false} PartsOf(a: string, b: string) returns (common: string, x: string, y: string)
    requires LexLe(a, b)
    ensures Parts(a, b, common, x, y)
  {
    if a == [] || a[0] != b[0] {
      common, x, y := [], a, b;
    } else {
      common, x, y := PartsOf(a[1..], b[1..]);
      assert a == [a[0]] + a[1..] && b == [b[0]] + b[1..];
      common := [a[0]] + common;
    }
  }

  lemma {:induction false} PartsInOrder(common: string, x: string, y: string)
    requires x == [] || (y != [] && x[0] < y[0])
    ensures LexLe(common + x, common + y)
  {
    if common == [] {
      assert common + x == x && common + y == y;
    } else {
      PartsInOrder(common[1..], x, y);
      assert (common + x)[1..] == common[1..] + x && (common + y)[1..] == common[1..] + y;
    }
  }

  /** The order is that of a dictionary. */
  lemma {:induction false} LexExact(a: string, b: string)
    ensures LexLe(a, b) <==> exists common, x, y :: Parts(a, b, common, x, y)
  {
    if LexLe(a, b) {
      var common, x, y := PartsOf(a, b);
    }
    if common, x, y :| Parts(a, b, common, x, y) {
      PartsInOrder(common, x, y);
    }
  }

  lemma {:induction false} StringsInOrder()
    ensures TotalPreorder(LexLe)
  {
    forall a, b
      ensures LexLe(a, b) || LexLe(b, a)
    {
      LexTotal(a, b);
    }
    forall a, b, c | LexLe(a, b) && LexLe(b, c)
      ensures LexLe(a, c)
    {
      LexTransitive(a, b, c);
    }
  }

  // ---------------------------------------------------------------- one tier

  function AppendUnique(list: seq<string>, value: string): seq<string> {
    if value in list then list else list + [value]
  }

  /** The members grouped under a value of level i: node names at the lowest tier, and the
      names of the HyperNodes of the tier below above it. */
  function Members(nodes: seq<ResolvedNode>, levels: seq<Level>, i: nat, v: string): seq<string>
    requires i < |levels|
  {
    if nodes == [] then []
    else
      var front, last := Members(nodes[..|nodes| - 1], levels, i, v), nodes[|nodes| - 1];
      if v == "" || LevelValue(levels[i], last) != v then front
      else if i == 0 then front + [last.name]
      else
        var child := LevelValue(levels[i - 1], last);
        if child == "" then front else AppendUnique(front, HyperNodeName(LevelName(levels[i - 1]), child))
  }

  function HyperNodeFor(nodes: seq<ResolvedNode>, levels: seq<Level>, i: nat, v: string): HyperNode
    requires i < |levels|
  {
    HyperNode(
      HyperNodeName(LevelName(levels[i]), v),
      LevelName(levels[i]),
      i + 1,
      if i == 0 then NodeMember else HyperNodeMember,
      Sort(LexLe, Members(nodes, levels, i, v)))
  }

  /** One tier: a HyperNode for every value that has members, in the order of the values. */
  ghost predicate IsTier(nodes: seq<ResolvedNode>, levels: seq<Level>, i: nat, keys: seq<string>, out: seq<HyperNode>)
    requires i < |levels|
  {
    && SortedBy(LexLe, keys)
    && (forall a, b :: 0 <= a < b < |keys| ==> keys[a] != keys[b])
    && (forall v :: v in keys <==> Members(nodes, levels, i, v) != [])
    && |out| == |keys|
    && (forall k :: 0 <= k < |keys| ==> out[k] == HyperNodeFor(nodes, levels, i, keys[k]))
  }

  method GroupTier(nodes: seq<ResolvedNode>, levels: seq<Level>, i: nat) returns (groups: map<string, seq<string>>)
    requires i < |levels|
    ensures forall v :: v in groups <==> Members(nodes, levels, i, v) != []
    ensures forall v :: v in groups ==> groups[v] == Members(nodes, levels, i, v)
  {
    groups := map[];
    for k := 0 to |nodes|
      invariant forall v :: v in groups <==> Members(nodes[..k], levels, i, v) != []
      invariant forall v :: v in groups ==> groups[v] == Members(nodes[..k], levels, i, v)
    {
      var node := nodes[k];
      assert nodes[..k + 1][..k] == nodes[..k];
      var parent := LevelValue(levels[i], node);
      if parent == "" {
        continue;
      }
      var old_ := if parent in groups then groups[parent] else [];
      if i == 0 {
        groups := groups[parent := old_ + [node.name]];
        continue;
      }
      var child := LevelValue(levels[i - 1], node);
      if child == "" {
        continue;
      }
      groups := groups[parent := AppendUnique(old_, HyperNodeName(LevelName(levels[i - 1]), child))];
    }
    assert nodes[..|nodes|] == nodes;
  }

  method SortedKeys(m: map<string, seq<string>>) returns (keys: seq<string>)
    ensures SortedBy(LexLe, keys)
    ensures forall a, b :: 0 <= a < b < |keys| ==> keys[a] != keys[b]
    ensures forall v :: v in keys <==> v in m
  {
    var unsorted := Enumerate(m.Keys);
    keys := Sort(LexLe, unsorted);
    StringsInOrder();
    SortSorts(LexLe, unsorted);
    SortPermutes(LexLe, unsorted);
    KeysOnce(keys, m.Keys);
  }

  method BuildTier(nodes: seq<ResolvedNode>, levels: seq<Level>, i: nat) returns (keys: seq<string>,
      out: seq<HyperNode>)
    requires i < |levels|
    ensures IsTier(nodes, levels, i, keys, out)
  {
    var groups := GroupTier(nodes, levels, i);
    var sorted := SortedKeys(groups);
    keys, out := sorted, [];
    for k := 0 to |sorted|
      invariant |out| == k
      invariant forall m :: 0 <= m < k ==> out[m] == HyperNodeFor(nodes, levels, i, sorted[m])
    {
      assert sorted[k] in sorted;
      out := out + [HyperNode(
        HyperNodeName(LevelName(levels[i]), sorted[k]),
        LevelName(levels[i]),
        i + 1,
        if i == 0 then NodeMember else HyperNodeMember,
        Sort(LexLe, groups[sorted[k]]))];
    }
  }

  // ---------------------------------------------------------------- the tree

  /** The HyperNode of value v at tier i + 1 is part of the tree. */
  ghost predicate InTree(nodes: seq<ResolvedNode>, i: nat, v: string) {
    i < |VolcanoLevels(nodes)| && Members(nodes, VolcanoLevels(nodes), i, v) != []
  }

  function At(nodes: seq<ResolvedNode>, i: nat, v: string): HyperNode
    requires i < |VolcanoLevels(nodes)|
  {
    HyperNodeFor(nodes, VolcanoLevels(nodes), i, v)
  }

  /** The tree is the tiers one after another. */
  ghost predicate IsTree(nodes: seq<ResolvedNode>, keys: seq<seq<string>>, tiers: seq<seq<HyperNode>>,
      out: seq<HyperNode>) {
    && |tiers| == |keys| == |VolcanoLevels(nodes)|
    && (forall i :: 0 <= i < |tiers| ==> IsTier(nodes, VolcanoLevels(nodes), i, keys[i], tiers[i]))
    && out == Concat(tiers)
  }

  function Concat<T>(ss: seq<seq<T>>): seq<T> {
    if ss == [] then [] else Concat(ss[..|ss| - 1]) + ss[|ss| - 1]
  }

  method VolcanoHyperNodes(nodes: seq<ResolvedNode>) returns (out: seq<HyperNode>, ghost keys: seq<seq<string>>,
      ghost tiers: seq<seq<HyperNode>>)
    ensures IsTree(nodes, keys, tiers, out)
    ensures forall hn :: hn in out <==> exists i, v :: InTree(nodes, i, v) && hn == At(nodes, i, v)
  {
    var levels := BuildVolcanoLevels(nodes);
    out, keys, tiers := [], [], [];
    for i := 0 to |levels|
      invariant |tiers| == |keys| == i && out == Concat(tiers)
      invariant forall k :: 0 <= k < i ==> IsTier(nodes, levels, k, keys[k], tiers[k])
    {
      ghost var tierKeys;
      var tier;
      tierKeys, tier := BuildTier(nodes, levels, i);
      out := out + tier;
      ghost var before := tiers;
      keys, tiers := keys + [tierKeys], tiers + [tier];
      assert tiers[..|tiers| - 1] == before;
    }
    TreeHas(nodes, keys, tiers, out);
  }

  lemma {:induction false} InConcat<T>(ss: seq<seq<T>>, x: T)
    ensures x in Concat(ss) <==> exists i :: 0 <= i < |ss| && x in ss[i]
  {
    if ss != [] {
      InConcat(ss[..|ss| - 1], x);
    }
  }

  lemma {:induction false} TreeHas(nodes: seq<ResolvedNode>, keys: seq<seq<string>>, tiers: seq<seq<HyperNode>>,
      out: seq<HyperNode>)
    requires IsTree(nodes, keys, tiers, out)
    ensures forall hn :: hn in out <==> exists i, v :: InTree(nodes, i, v) && hn == At(nodes, i, v)
  {
    forall hn
      ensures hn in out <==> exists i, v :: InTree(nodes, i, v) && hn == At(nodes, i, v)
    {
      InConcat(tiers, hn);
      if i :| 0 <= i < |tiers| && hn in tiers[i] {
        assert IsTier(nodes, VolcanoLevels(nodes), i, keys[i], tiers[i]);
        var k :| 0 <= k < |tiers[i]| && tiers[i][k] == hn;
        assert keys[i][k] in keys[i];
        assert InTree(nodes, i, keys[i][k]) && hn == At(nodes, i, keys[i][k]);
      }
      if i: nat, v :| InTree(nodes, i, v) && hn == At(nodes, i, v) {
        assert IsTier(nodes, VolcanoLevels(nodes), i, keys[i], tiers[i]);
        assert v in keys[i];
        var k :| 0 <= k < |keys[i]| && keys[i][k] == v;
        assert tiers[i][k] == hn && hn in tiers[i];
      }
    }
  }
}
