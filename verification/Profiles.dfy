/** GPU partitioning layouts: which instance sizes a GPU offers and where each may start. */
module Profiles {
  import opened Arith
  import opened Names
  import opened Options

  datatype Profile = Profile(name: string, memorySlices: nat, smSlices: nat)

  datatype Geometry = Geometry(memorySlices: nat, smSlices: nat, profiles: seq<Profile>)

  ghost predicate Positive(p: Profile) {
    p.memorySlices > 0 && p.smSlices > 0
  }

  ghost predicate AllPositive(ps: seq<Profile>) {
    forall p :: p in ps ==> Positive(p)
  }

  // ---------------------------------------------------------------- placements

  /** A partition occupies an aligned run inside the GPU's memory. */
  ghost predicate LegalStart(g: Geometry, p: Profile, start: nat)
    requires p.memorySlices > 0
  {
    start % p.memorySlices == 0 && start + p.memorySlices <= g.memorySlices
  }

  function Placements(g: Geometry, p: Profile): seq<nat>
    requires p.memorySlices > 0
  {
    seq(g.memorySlices / p.memorySlices, k requires k >= 0 => k * p.memorySlices)
  }

  lemma {:induction false} PlacementIsLegal(g: Geometry, p: Profile, k: nat)
    requires p.memorySlices > 0 && k < |Placements(g, p)|
    ensures LegalStart(g, p, Placements(g, p)[k])
  {
    MultipleOf(k, p.memorySlices);
    DivBound(k + 1, g.memorySlices, p.memorySlices);
    assert (k + 1) * p.memorySlices == k * p.memorySlices + p.memorySlices;
  }

  lemma {:induction false} LegalIsPlacement(g: Geometry, p: Profile, s: nat)
    requires p.memorySlices > 0 && LegalStart(g, p, s)
    ensures s in Placements(g, p)
  {
    var k := s / p.memorySlices;
    assert s == k * p.memorySlices;
    assert (k + 1) * p.memorySlices == s + p.memorySlices;
    DivBound(k + 1, g.memorySlices, p.memorySlices);
    assert Placements(g, p)[k] == s;
  }

  /** The listed starts are the legal ones, each once, in increasing order. */
  lemma {:induction false} PlacementsExact(g: Geometry, p: Profile)
    requires p.memorySlices > 0
    ensures forall s: nat :: s in Placements(g, p) <==> LegalStart(g, p, s)
    ensures forall i, j :: 0 <= i < j < |Placements(g, p)| ==> Placements(g, p)[i] < Placements(g, p)[j]
  {
    forall s: nat
      ensures s in Placements(g, p) <==> LegalStart(g, p, s)
    {
      if s in Placements(g, p) {
        var k: nat :| k < |Placements(g, p)| && Placements(g, p)[k] == s;
        PlacementIsLegal(g, p, k);
      } else if LegalStart(g, p, s) {
        LegalIsPlacement(g, p, s);
      }
    }
    forall i, j | 0 <= i < j < |Placements(g, p)|
      ensures Placements(g, p)[i] < Placements(g, p)[j]
    {
      MulMono(i + 1, j, p.memorySlices);
      assert (i + 1) * p.memorySlices == i * p.memorySlices + p.memorySlices;
    }
  }

  /** Run k starts at k sizes, and is listed exactly when it fits. */
  lemma {:induction false} NextRun(g: Geometry, p: Profile, k: nat)
    requires p.memorySlices > 0
    ensures (k + 1) * p.memorySlices == k * p.memorySlices + p.memorySlices
    ensures k < |Placements(g, p)| <==> k * p.memorySlices + p.memorySlices <= g.memorySlices
    ensures k < |Placements(g, p)| ==> Placements(g, p)[k] == k * p.memorySlices
  {
    DivBound(k + 1, g.memorySlices, p.memorySlices);
  }

  method ListPlacements(g: Geometry, p: Profile) returns (starts: seq<nat>)
    requires p.memorySlices > 0
    ensures starts == Placements(g, p)
    ensures forall s: nat :: s in starts <==> LegalStart(g, p, s)
  {
    starts := [];
    var start := 0;
    while start + p.memorySlices <= g.memorySlices
      invariant |starts| <= |Placements(g, p)| && starts == Placements(g, p)[..|starts|]
      invariant start == |starts| * p.memorySlices
      decreases g.memorySlices - start
    {
      NextRun(g, p, |starts|);
      starts := starts + [start];
      start := start + p.memorySlices;
    }
    NextRun(g, p, |starts|);
    PlacementsExact(g, p);
  }

  /** How many instances of a profile an idle GPU holds; Runs.IdleLimit proves it is the limit. */
  function MaxInstances(g: Geometry, p: Profile): int
    requires Positive(p)
  {
    var byMemory := g.memorySlices / p.memorySlices;
    var bySM := g.smSlices / p.smSlices;
    if byMemory < bySM then byMemory else bySM
  }

  function TotalPartitions(g: Geometry, profiles: seq<Profile>): nat
    requires AllPositive(profiles)
  {
    if profiles == [] then 0
    else
      var last := profiles[|profiles| - 1];
      assert last in profiles;
      TotalPartitions(g, profiles[..|profiles| - 1]) + |Placements(g, last)|
  }

  // ---------------------------------------------------------------- shapes

  /** Two sizes of one layout: the smaller memory size divides the larger one and asks for no
      more compute. */
  ghost predicate Nested(p: Profile, q: Profile)
    requires p.memorySlices > 0 && q.memorySlices > 0
  {
    && (p.memorySlices <= q.memorySlices ==> q.memorySlices % p.memorySlices == 0)
    && (p.memorySlices < q.memorySlices ==> p.smSlices <= q.smSlices)
  }

  ghost predicate Chain(ps: seq<Profile>) {
    && AllPositive(ps)
    && forall p, q :: p in ps && q in ps ==> Nested(p, q)
  }

  ghost predicate DistinctProfiles(ps: seq<Profile>) {
    && (forall p :: p in ps ==> p.name != "")
    && (forall i, j :: 0 <= i < j < |ps| ==> StripDots(ps[i].name) != StripDots(ps[j].name))
  }

  /** No two profiles have the same slice counts, and each fits the GPU at least once. */
  ghost predicate DistinctSizes(g: Geometry, ps: seq<Profile>) {
    && (forall p :: p in ps ==> p.memorySlices <= g.memorySlices)
    && (forall i, j :: 0 <= i < j < |ps| ==>
          ps[i].memorySlices != ps[j].memorySlices || ps[i].smSlices != ps[j].smSlices)
  }

  ghost predicate WellShaped(g: Geometry, ps: seq<Profile>) {
    Chain(ps) && DistinctProfiles(ps) && DistinctSizes(g, ps)
  }

  const DATACENTER_SHAPE := [(1, 1), (2, 1), (2, 2), (4, 3), (4, 4), (8, 7)]

  function DatacenterGeometry(names: seq<string>): Geometry
    requires |names| == 6
  {
    Geometry(8, 7, seq(6, i requires 0 <= i < 6 => Profile(names[i], DATACENTER_SHAPE[i].0, DATACENTER_SHAPE[i].1)))
  }

  const A100 := ["1g.5gb", "1g.10gb", "2g.10gb", "3g.20gb", "4g.20gb", "7g.40gb"]
  const H100 := ["1g.10gb", "1g.20gb", "2g.20gb", "3g.40gb", "4g.40gb", "7g.80gb"]
  const H200 := ["1g.18gb", "1g.35gb", "2g.35gb", "3g.71gb", "4g.71gb", "7g.141gb"]
  const B200 := ["1g.23gb", "1g.45gb", "2g.45gb", "3g.90gb", "4g.90gb", "7g.180gb"]

  function LowerChar(c: char): char {
    if 'A' <= c <= 'Z' then c - 'A' + 'a' else c
  }

  /** Lower-casing, over the ASCII letters model names are made of. */
  function ToLower(s: string): string {
    seq(|s|, i requires 0 <= i < |s| => LowerChar(s[i]))
  }

  function GeometryFor(gpuProfile: string): Option<Geometry> {
    var name := ToLower(gpuProfile);
    if name == "a100" then Some(DatacenterGeometry(A100))
    else if name == "h100" then Some(DatacenterGeometry(H100))
    else if name == "h200" then Some(DatacenterGeometry(H200))
    else if name == "b200" then Some(DatacenterGeometry(B200))
    else None
  }

  /** The two texts are the same but for the case of ASCII letters, of which the second has none in
      upper case. */
  ghost predicate IsCased(s: string, lower: string) {
    |s| == |lower| && forall i :: 0 <= i < |s| ==>
      !('A' <= lower[i] <= 'Z')
      && (s[i] == lower[i] || ('A' <= s[i] <= 'Z' && s[i] as int + 32 == lower[i] as int))
  }

  lemma {:induction false} LowerIs(s: string, lower: string)
    ensures IsCased(s, lower) <==> ToLower(s) == lower
  {
    if IsCased(s, lower) {
      forall i | 0 <= i < |s|
        ensures ToLower(s)[i] == lower[i]
      {
      }
    }
  }

  /** Which GPU models are known, whatever the case they are written in, and the names of their
      partition profiles. */
  lemma {:induction false} GeometryByName(s: string)
    ensures var names := ["1g.5gb", "1g.10gb", "2g.10gb", "3g.20gb", "4g.20gb", "7g.40gb"];
            IsCased(s, "a100") ==> GeometryFor(s) == Some(DatacenterGeometry(names))
    ensures var names := ["1g.10gb", "1g.20gb", "2g.20gb", "3g.40gb", "4g.40gb", "7g.80gb"];
            IsCased(s, "h100") ==> GeometryFor(s) == Some(DatacenterGeometry(names))
    ensures var names := ["1g.18gb", "1g.35gb", "2g.35gb", "3g.71gb", "4g.71gb", "7g.141gb"];
            IsCased(s, "h200") ==> GeometryFor(s) == Some(DatacenterGeometry(names))
    ensures var names := ["1g.23gb", "1g.45gb", "2g.45gb", "3g.90gb", "4g.90gb", "7g.180gb"];
            IsCased(s, "b200") ==> GeometryFor(s) == Some(DatacenterGeometry(names))
    ensures GeometryFor(s).Some? ==>
              IsCased(s, "a100") || IsCased(s, "h100") || IsCased(s, "h200") || IsCased(s, "b200")
  {
    LowerIs(s, "a100");
    LowerIs(s, "h100");
    LowerIs(s, "h200");
    LowerIs(s, "b200");
    assert "a100"[0] == 'a' && "h100"[0] == 'h' && "h200"[0] == 'h' && "b200"[0] == 'b';
    assert "h100"[1] == '1' && "h200"[1] == '2';
  }

  /** A published label has its only dot in third place. */
  ghost predicate OneDot(s: string) {
    |s| > 2 && s[2] == '.' && forall i :: 0 <= i < |s| && i != 2 ==> s[i] != '.'
  }

  lemma {:induction false} StripNothing(s: string)
    requires '.' !in s
    ensures StripDots(s) == s
  {
    if s != [] {
      StripNothing(s[1..]);
    }
  }

  lemma {:induction false} StripOneDot(s: string)
    requires OneDot(s)
    ensures StripDots(s) == s[..2] + s[3..]
  {
    StripNothing(s[3..]);
    assert s[1..][1..] == s[2..] && s[2..][1..] == s[3..];
    assert StripDots(s[2..]) == s[3..];
    assert StripDots(s[1..]) == [s[1]] + s[3..];
  }

  lemma {:induction false} StripOneDotInjective(s: string, t: string)
    requires OneDot(s) && OneDot(t) && StripDots(s) == StripDots(t)
    ensures s == t
  {
    StripOneDot(s);
    StripOneDot(t);
    var u := s[..2] + s[3..];
    assert s[..2] == u[..2] && s[3..] == u[2..];
    assert t[..2] == u[..2] && t[3..] == u[2..];
    assert s == s[..2] + "." + s[3..] && t == t[..2] + "." + t[3..];
  }

  lemma {:induction false} ShapeNested(names: seq<string>, i: nat, j: nat)
    requires |names| == 6 && i < 6 && j < 6
    ensures var ps := DatacenterGeometry(names).profiles;
            Positive(ps[i]) && Positive(ps[j]) && Nested(ps[i], ps[j])
  {
    assert 2 % 1 == 0 && 4 % 2 == 0 && 8 % 4 == 0 && 8 % 2 == 0;
  }

  lemma {:induction false} DatacenterWellShaped(names: seq<string>)
    requires |names| == 6
    requires forall i :: 0 <= i < 6 ==> OneDot(names[i])
    requires forall i, j :: 0 <= i < j < 6 ==> names[i] != names[j]
    ensures WellShaped(DatacenterGeometry(names), DatacenterGeometry(names).profiles)
  {
    var ps := DatacenterGeometry(names).profiles;
    assert Chain(ps) by {
      forall p, q | p in ps && q in ps
        ensures Positive(p) && Nested(p, q)
      {
        var i: nat :| i < 6 && ps[i] == p;
        var j: nat :| j < 6 && ps[j] == q;
        ShapeNested(names, i, j);
      }
    }
    forall i, j | 0 <= i < j < |ps|
      ensures StripDots(ps[i].name) != StripDots(ps[j].name)
    {
      assert ps[i].name == names[i] && ps[j].name == names[j];
      if StripDots(ps[i].name) == StripDots(ps[j].name) {
        StripOneDotInjective(ps[i].name, ps[j].name);
      }
    }
  }

  /** Every GPU model the simulator knows satisfies the hypotheses the theorems carry. */
  lemma {:induction false} SupportedWellShaped(gpuProfile: string)
    requires GeometryFor(gpuProfile).Some?
    ensures var g := GeometryFor(gpuProfile).value;
            g.profiles != [] && WellShaped(g, g.profiles)
  {
    DatacenterWellShaped(A100);
    DatacenterWellShaped(H100);
    DatacenterWellShaped(H200);
    DatacenterWellShaped(B200);
  }

  /** NVIDIA's max-instances column, row by row, and the 21 devices one GPU publishes. */
  lemma {:induction false} DatacenterTable(names: seq<string>)
    requires |names| == 6
    ensures var g := DatacenterGeometry(names);
            && (forall i :: 0 <= i < 6 ==> MaxInstances(g, g.profiles[i]) == [7, 4, 3, 2, 1, 1][i])
            && TotalPartitions(g, g.profiles) == 21
  {
    var g := DatacenterGeometry(names);
    var ps := g.profiles;
    assert ps[..6] == ps;
    assert TotalPartitions(g, ps[..0]) == 0;
    assert ps[..1][..0] == ps[..0] && TotalPartitions(g, ps[..1]) == 8;
    assert ps[..2][..1] == ps[..1] && TotalPartitions(g, ps[..2]) == 12;
    assert ps[..3][..2] == ps[..2] && TotalPartitions(g, ps[..3]) == 16;
    assert ps[..4][..3] == ps[..3] && TotalPartitions(g, ps[..4]) == 18;
    assert ps[..5][..4] == ps[..4] && TotalPartitions(g, ps[..5]) == 20;
    assert ps[..6][..5] == ps[..5] && TotalPartitions(g, ps[..6]) == 21;
  }

  // ---------------------------------------------------------------- selection

  function Lookup(profiles: seq<Profile>, name: string): (r: Option<Profile>)
    ensures r.Some? ==> r.value in profiles && r.value.name == name
    ensures r.None? ==> forall p :: p in profiles ==> p.name != name
  {
    if profiles == [] then None
    else if profiles[0].name == name then Some(profiles[0])
    else Lookup(profiles[1..], name)
  }

  /** The profiles with the given names, in the caller's order; None when one is unknown. */
  function Named(g: Geometry, names: seq<string>): Option<seq<Profile>> {
    if names == [] then Some([])
    else
      match (Named(g, names[..|names| - 1]), Lookup(g.profiles, names[|names| - 1]))
      case (Some(front), Some(p)) => Some(front + [p])
      case _ => None
  }

  function SelectProfiles(g: Geometry, names: seq<string>): Option<seq<Profile>> {
    if names == [] then Some(g.profiles) else Named(g, names)
  }

  method Select(g: Geometry, names: seq<string>) returns (r: Option<seq<Profile>>)
    ensures r == SelectProfiles(g, names)
  {
    if names == [] {
      return Some(g.profiles);
    }
    var out := [];
    for i := 0 to |names|
      invariant Named(g, names[..i]) == Some(out)
    {
      var p := Lookup(g.profiles, names[i]);
      assert names[..i + 1][..i] == names[..i];
      if p.None? {
        NamedPrefixFails(g, names, i + 1);
        return None;
      }
      out := out + [p.value];
    }
    assert names[..|names|] == names;
    return Some(out);
  }

  lemma {:induction false} NamedPrefixFails(g: Geometry, names: seq<string>, k: nat)
    requires k <= |names| && Named(g, names[..k]).None?
    ensures Named(g, names).None?
    decreases |names|
  {
    if k < |names| {
      assert names[..|names| - 1][..k] == names[..k];
      NamedPrefixFails(g, names[..|names| - 1], k);
    } else {
      assert names[..k] == names;
    }
  }

  lemma {:induction false} NamedExact(g: Geometry, names: seq<string>)
    ensures Named(g, names).Some? <==> forall i :: 0 <= i < |names| ==> Lookup(g.profiles, names[i]).Some?
    ensures Named(g, names).Some? ==>
              var ps := Named(g, names).value;
              |ps| == |names| && forall i :: 0 <= i < |ps| ==> ps[i] in g.profiles && ps[i].name == names[i]
  {
    if names == [] {
    } else {
      var front, last := names[..|names| - 1], names[|names| - 1];
      NamedExact(g, front);
      assert forall i :: 0 <= i < |front| ==> front[i] == names[i];
    }
  }

  lemma {:induction false} SameNameSameProfile(ps: seq<Profile>, i: nat, j: nat)
    requires DistinctProfiles(ps) && i < |ps| && j < |ps| && StripDots(ps[i].name) == StripDots(ps[j].name)
    ensures i == j
  {
  }

  lemma {:induction false} OfDifferentNames(g: Geometry, p: Profile, q: Profile)
    requires WellShaped(g, g.profiles) && p in g.profiles && q in g.profiles && p.name != q.name
    ensures StripDots(p.name) != StripDots(q.name)
    ensures p.memorySlices != q.memorySlices || p.smSlices != q.smSlices
  {
    var a :| 0 <= a < |g.profiles| && g.profiles[a] == p;
    var b :| 0 <= b < |g.profiles| && g.profiles[b] == q;
    assert a < b || b < a;
  }

  /** Narrowing keeps every hypothesis of the theorems when and only when it names no profile
      twice. */
  lemma {:induction false} SelectionWellShaped(g: Geometry, names: seq<string>)
    requires WellShaped(g, g.profiles) && g.profiles != [] && SelectProfiles(g, names).Some?
    ensures SelectProfiles(g, names).value != []
    ensures WellShaped(g, SelectProfiles(g, names).value) <==>
              forall i, j :: 0 <= i < j < |names| ==> names[i] != names[j]
  {
    NamedExact(g, names);
    if i, j :| 0 <= i < j < |names| && names[i] == names[j] {
      var ps := Named(g, names).value;
      assert ps[i].name == ps[j].name;
    } else if names != [] {
      var ps := Named(g, names).value;
      forall i, j | 0 <= i < j < |ps|
        ensures StripDots(ps[i].name) != StripDots(ps[j].name)
        ensures ps[i].memorySlices != ps[j].memorySlices || ps[i].smSlices != ps[j].smSlices
      {
        assert ps[i].name == names[i] && ps[j].name == names[j];
        OfDifferentNames(g, ps[i], ps[j]);
      }
    }
  }
}
