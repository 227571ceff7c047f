/** Which devices a fault breaks, and what breaking them does to a slice. */
module Faults {
  import opened Options
  import opened Resources
  import opened Store
  import opened Protocol
  import opened Ranges

  const TAINT_KEY := "gpu-sim.io/faulty"

  datatype DeviceMatch = DeviceMatch(nodes: set<string>, attributes: map<string, string>)

  // ---------------------------------------------------------------- attribute lookup

  /** What follows the last slash. */
  function StripDomain(name: string): string {
    if '/' in name then StripDomain(name[1..]) else name
  }

  lemma {:induction false} StripsDomain(domain: string, bare: string)
    requires '/' !in bare
    ensures StripDomain(domain + "/" + bare) == bare
  {
    var name := domain + "/" + bare;
    assert name[|domain|] == '/';
    if domain == [] {
      assert name[1..] == bare;
    } else {
      assert name[1..] == domain[1..] + "/" + bare;
      StripsDomain(domain[1..], bare);
    }
  }

  /** The published attributes a written name may stand for: itself, or, where it is not
      published as written, any that reads so without its domain. */
  function Candidates(attributes: map<string, string>, name: string): set<string> {
    if name in attributes then {name} else set q | q in attributes && StripDomain(q) == name
  }

  /** Any attribute that reads like the name without its domain; which one depends on the order
      the map is ranged over. */
  method LookupQualified(attributes: map<string, string>, name: string) returns (key: Option<string>)
    ensures key.None? ==> forall q :: q in attributes ==> StripDomain(q) != name
    ensures key.Some? ==> key.value in attributes && StripDomain(key.value) == name
  {
    var listed := Enumerate(attributes.Keys);
    KeysOnce(listed, attributes.Keys);
    for k := 0 to |listed|
      invariant forall j :: 0 <= j < k ==> StripDomain(listed[j]) != name
    {
      if StripDomain(listed[k]) == name {
        return Some(listed[k]);
      }
    }
    return None;
  }

  method LookupAttribute(attributes: map<string, string>, name: string) returns (key: Option<string>)
    ensures key.None? <==> Candidates(attributes, name) == {}
    ensures key.Some? ==> key.value in Candidates(attributes, name)
  {
    if name in attributes {
      return Some(name);
    }
    key := LookupQualified(attributes, name);
    assert key.Some? ==> key.value in Candidates(attributes, name);
  }

  // ---------------------------------------------------------------- matching

  ghost predicate OnNodes(m: DeviceMatch, s: ResourceSlice) {
    s.nodeName.Some? && s.nodeName.value in m.nodes
  }

  ghost predicate MayAgree(attributes: map<string, string>, name: string, want: string) {
    exists q :: q in Candidates(attributes, name) && attributes[q] == want
  }

  ghost predicate MustAgree(attributes: map<string, string>, name: string, want: string) {
    Candidates(attributes, name) != {} && forall q :: q in Candidates(attributes, name) ==> attributes[q] == want
  }

  /** The device matches for some order of ranging over its attributes. */
  ghost predicate MayMatch(m: DeviceMatch, s: ResourceSlice, d: Device) {
    if m.nodes != {} then OnNodes(m, s)
    else m.attributes != map[] && forall n :: n in m.attributes ==> MayAgree(d.attributes, n, m.attributes[n])
  }

  /** The device matches for every such order. */
  ghost predicate MustMatch(m: DeviceMatch, s: ResourceSlice, d: Device) {
    if m.nodes != {} then OnNodes(m, s)
    else m.attributes != map[] && forall n :: n in m.attributes ==> MustAgree(d.attributes, n, m.attributes[n])
  }

  method Matches(m: DeviceMatch, s: ResourceSlice, d: Device) returns (hit: bool)
    ensures hit ==> MayMatch(m, s, d)
    ensures !hit ==> !MustMatch(m, s, d)
  {
    if |m.nodes| > 0 {
      return s.nodeName.Some? && s.nodeName.value in m.nodes;
    }
    var left := m.attributes.Keys;
    while left != {}
      invariant left <= m.attributes.Keys
      invariant forall n :: n in m.attributes.Keys - left ==> MayAgree(d.attributes, n, m.attributes[n])
      decreases left
    {
      var name := Next(left);
      left := left - {name};
      var key := LookupAttribute(d.attributes, name);
      if key.None? || d.attributes[key.value] != m.attributes[name] {
        assert !MustAgree(d.attributes, name, m.attributes[name]);
        return false;
      }
    }
    return |m.attributes| > 0;
  }

  /** Attributes that read alike without their domains have one value, unless one of them is
      published bare. */
  ghost predicate Unambiguous(attributes: map<string, string>) {
    forall p, q :: p in attributes && q in attributes && ReadAlike(attributes, p, q) ==> attributes[p] == attributes[q]
  }

  ghost predicate ReadAlike(attributes: map<string, string>, p: string, q: string) {
    StripDomain(p) == StripDomain(q) && StripDomain(p) !in attributes
  }

  lemma {:induction false} AgreeExactly(attributes: map<string, string>, name: string, want: string)
    requires Unambiguous(attributes)
    ensures MayAgree(attributes, name, want) <==> MustAgree(attributes, name, want)
  {
    forall p, q | p in Candidates(attributes, name) && q in Candidates(attributes, name)
      ensures attributes[p] == attributes[q]
    {
      assert p == q || ReadAlike(attributes, p, q);
    }
    if MustAgree(attributes, name, want) {
      var q :| q in Candidates(attributes, name);
    }
  }

  /** Whether a device matches is settled, for every match, when and only when its attributes are
      unambiguous. */
  lemma {:induction false} UnambiguousIsExact(s: ResourceSlice, d: Device)
    ensures Unambiguous(d.attributes) <==> forall m :: MayMatch(m, s, d) <==> MustMatch(m, s, d)
  {
    if Unambiguous(d.attributes) {
      forall m: DeviceMatch
        ensures MayMatch(m, s, d) <==> MustMatch(m, s, d)
      {
        forall n | n in m.attributes {
          AgreeExactly(d.attributes, n, m.attributes[n]);
        }
      }
    } else {
      var p, q :| p in d.attributes && q in d.attributes && ReadAlike(d.attributes, p, q)
        && d.attributes[p] != d.attributes[q];
      var name := StripDomain(p);
      var m := DeviceMatch({}, map[name := d.attributes[p]]);
      assert p in Candidates(d.attributes, name) && q in Candidates(d.attributes, name);
      assert MayAgree(d.attributes, name, d.attributes[p]);
      assert !MustAgree(d.attributes, name, d.attributes[p]);
      assert name in m.attributes;
      assert MayMatch(m, s, d) && !MustMatch(m, s, d);
    }
  }

  ghost predicate IsUnder(domain: string, key: string, bare: string) {
    key == domain + "/" + bare && '/' !in bare
  }

  /** The name is bare, or its bare form is published too, or it is under the given domain. */
  ghost predicate IsPlain(attributes: map<string, string>, domain: string, key: string) {
    || '/' !in key
    || (exists other, bare :: IsUnder(other, key, bare) && bare in attributes)
    || (exists bare :: IsUnder(domain, key, bare))
  }

  /** Names published bare, or as well as bare, or under one domain, never clash. */
  lemma {:induction false} OneDomainUnambiguous(attributes: map<string, string>, domain: string)
    requires forall k :: k in attributes ==> IsPlain(attributes, domain, k)
    ensures Unambiguous(attributes)
  {
    forall p, q | p in attributes && q in attributes && ReadAlike(attributes, p, q)
      ensures p == q
    {
      var x := BareName(attributes, domain, p);
      var y := BareName(attributes, domain, q);
    }
  }

  lemma {:induction false} BareName(attributes: map<string, string>, domain: string, key: string)
      returns (bare: string)
    requires key in attributes && IsPlain(attributes, domain, key) && StripDomain(key) !in attributes
    ensures IsUnder(domain, key, bare) && StripDomain(key) == bare
  {
    if other, twin :| IsUnder(other, key, twin) && twin in attributes {
      StripsDomain(other, twin);
    }
    bare :| IsUnder(domain, key, bare);
    StripsDomain(domain, bare);
  }

  // ---------------------------------------------------------------- breaking

  function Broken(d: Device, effect: string): Device {
    d.(taints := d.taints + [Taint(TAINT_KEY, effect)])
  }

  function Strike(devices: seq<Device>, hits: seq<bool>, effect: string): seq<Device>
    requires |hits| == |devices|
  {
    seq(|devices|, j requires 0 <= j < |devices| => if hits[j] then Broken(devices[j], effect) else devices[j])
  }

  function Struck(s: SliceObject, hits: seq<bool>, effect: string): SliceObject
    requires |hits| == |s.slice.devices|
  {
    s.(slice := s.slice.(devices := Strike(s.slice.devices, hits, effect)))
  }

  /** The hits are those of the match, as far as it determines them. */
  ghost predicate Fair(m: DeviceMatch, s: ResourceSlice, hits: seq<bool>) {
    && |hits| == |s.devices|
    && forall j :: 0 <= j < |hits| ==>
      (hits[j] ==> MayMatch(m, s, s.devices[j])) && (MustMatch(m, s, s.devices[j]) ==> hits[j])
  }

  /** Of a slice whose devices are unambiguous, the hits are exactly the devices that match. */
  lemma {:induction false} FairIsExact(m: DeviceMatch, s: ResourceSlice, hits: seq<bool>)
    requires Fair(m, s, hits) && forall j :: 0 <= j < |s.devices| ==> Unambiguous(s.devices[j].attributes)
    ensures forall j :: 0 <= j < |hits| ==> (hits[j] <==> MustMatch(m, s, s.devices[j]))
  {
    forall j | 0 <= j < |hits| {
      UnambiguousIsExact(s, s.devices[j]);
    }
  }

  function HitNames(devices: seq<Device>, hits: seq<bool>): set<string> {
    set j | 0 <= j < |devices| && j < |hits| && hits[j] :: devices[j].name
  }

  /** Each managed slice has had its hits tainted, or, if the fault failed part of the way, may
      not have; nothing else has changed. */
  ghost predicate Broke(before: Cluster, after: Cluster, m: DeviceMatch, effect: string, hits: map<string, seq<bool>>,
      ok: bool) {
    && after == before.(slices := after.slices) && after.slices.Keys == before.slices.Keys
    && forall n :: n in before.slices ==>
         if ManagedSlice(before, n)
         then
           && n in hits && Fair(m, before.slices[n].slice, hits[n])
           && (after.slices[n] == Struck(before.slices[n], hits[n], effect)
             || (!ok && after.slices[n] == before.slices[n]))
         else after.slices[n] == before.slices[n]
  }

  // ---------------------------------------------------------------- part of the way

  lemma {:induction false} MustIsMay(m: DeviceMatch, s: ResourceSlice, d: Device)
    ensures MustMatch(m, s, d) ==> MayMatch(m, s, d)
  {
    forall n | n in m.attributes && MustAgree(d.attributes, n, m.attributes[n])
      ensures MayAgree(d.attributes, n, m.attributes[n])
    {
      var q :| q in Candidates(d.attributes, n);
    }
  }

  /** Hits for every slice that the match allows. */
  ghost function SomeHits(m: DeviceMatch, c: Cluster): (hits: map<string, seq<bool>>)
    ensures hits.Keys == c.slices.Keys && forall n :: n in hits ==> Fair(m, c.slices[n].slice, hits[n])
  {
    forall n, j | n in c.slices && 0 <= j < |c.slices[n].slice.devices|
      ensures MustMatch(m, c.slices[n].slice, c.slices[n].slice.devices[j]) ==>
              MayMatch(m, c.slices[n].slice, c.slices[n].slice.devices[j])
    {
      MustIsMay(m, c.slices[n].slice, c.slices[n].slice.devices[j]);
    }
    map n | n in c.slices :: MayHits(m, c.slices[n].slice)
  }

  ghost function MayHits(m: DeviceMatch, s: ResourceSlice): seq<bool> {
    seq(|s.devices|, j requires 0 <= j < |s.devices| => MayMatch(m, s, s.devices[j]))
  }

  /** The slices listed first are struck and the others are not yet. */
  ghost predicate BrokeFirst(before: Cluster, now: Cluster, m: DeviceMatch, effect: string, hits: map<string,
      seq<bool>>, listed: seq<string>, i: nat)
    requires i <= |listed|
  {
    && now == before.(slices := now.slices) && now.slices.Keys == before.slices.Keys == hits.Keys
    && forall n :: n in before.slices ==>
         && Fair(m, before.slices[n].slice, hits[n])
         && now.slices[n] == if n in listed[..i] then Struck(before.slices[n], hits[n], effect) else before.slices[n]
  }

  /** The names of the devices hit. */
  ghost predicate AreHit(before: Cluster, hits: map<string, seq<bool>>, names: set<string>) {
    forall x :: x in names <==>
      exists n :: ManagedSlice(before, n) && n in hits && x in HitNames(before.slices[n].slice.devices, hits[n])
  }

  /** The names hit in the slices listed first. */
  ghost predicate NamesFirst(before: Cluster, hits: map<string, seq<bool>>, listed: seq<string>, i: nat,
      names: set<string>)
    requires i <= |listed| && forall k :: 0 <= k < |listed| ==> listed[k] in before.slices && listed[k] in hits
  {
    forall x :: x in names <==>
      exists k :: 0 <= k < i && x in HitNames(before.slices[listed[k]].slice.devices, hits[listed[k]])
  }

  lemma {:induction false} NamesNext(before: Cluster, hits: map<string, seq<bool>>, listed: seq<string>, i: nat,
      names: set<string>, strikes: seq<bool>)
    requires i < |listed| && (forall k :: 0 <= k < |listed| ==> listed[k] in before.slices && listed[k] in hits)
    requires (forall k :: 0 <= k < i ==> listed[k] != listed[i]) && NamesFirst(before, hits, listed, i, names)
    ensures NamesFirst(before, hits[listed[i] := strikes], listed, i + 1,
            names + HitNames(before.slices[listed[i]].slice.devices, strikes))
  {
  }

  /** One more slice is struck. */
  lemma {:induction false} BrokeNext(before: Cluster, now: Cluster, m: DeviceMatch, effect: string, hits: map<string,
      seq<bool>>, listed: seq<string>, i: nat, strikes: seq<bool>, after: Cluster)
    requires i < |listed| && BrokeFirst(before, now, m, effect, hits, listed, i)
    requires listed[i] in before.slices && (forall k :: 0 <= k < i ==> listed[k] != listed[i])
    requires Fair(m, before.slices[listed[i]].slice, strikes)
    requires after == now.(slices := now.slices[listed[i] := Struck(before.slices[listed[i]], strikes, effect)])
    ensures BrokeFirst(before, after, m, effect, hits[listed[i] := strikes], listed, i + 1)
  {
    assert listed[..i + 1] == listed[..i] + [listed[i]];
  }

  /** A slice without hits is as it was. */
  lemma {:induction false} NotStruck(now: Cluster, n: string, hits: seq<bool>, effect: string)
    requires n in now.slices && |hits| == |now.slices[n].slice.devices|
             && Strike(now.slices[n].slice.devices, hits, effect) == now.slices[n].slice.devices
    ensures now.(slices := now.slices[n := Struck(now.slices[n], hits, effect)]) == now
  {
  }

  lemma {:induction false} BrokeAll(before: Cluster, after: Cluster, m: DeviceMatch, effect: string, hits: map<string,
      seq<bool>>, listed: seq<string>)
    requires BrokeFirst(before, after, m, effect, hits, listed, |listed|)
    requires forall n :: n in listed <==> ManagedSlice(before, n)
    ensures Broke(before, after, m, effect, hits, true)
  {
    assert listed[..|listed|] == listed;
  }

  ghost predicate SliceUnambiguous(s: ResourceSlice) {
    forall j :: 0 <= j < |s.devices| ==> Unambiguous(s.devices[j].attributes)
  }

  ghost predicate ClusterUnambiguous(c: Cluster) {
    forall n :: ManagedSlice(c, n) ==> SliceUnambiguous(c.slices[n].slice)
  }

  /** Every matching device of a managed slice has one taint more, with the fault's key and the
      effect asked for, and nothing else has changed. */
  ghost predicate TaintsExactly(before: Cluster, after: Cluster, m: DeviceMatch, effect: string) {
    && after.nodes == before.nodes && after.topologies == before.topologies && after.hyperNodes == before.hyperNodes
    && after.slices.Keys == before.slices.Keys
    && (forall n :: n in before.slices && !ManagedSlice(before, n) ==> after.slices[n] == before.slices[n])
    && (forall n :: ManagedSlice(before, n) ==>
          && after.slices[n] ==
            before.slices[n].(slice := before.slices[n].slice.(devices := after.slices[n].slice.devices))
          && |after.slices[n].slice.devices| == |before.slices[n].slice.devices|)
    && (forall n, j :: ManagedSlice(before, n) && 0 <= j < |before.slices[n].slice.devices| ==>
          var was, now := before.slices[n].slice.devices[j], after.slices[n].slice.devices[j];
          now == if MustMatch(m, before.slices[n].slice, was)
            then was.(taints := was.taints + [Taint("gpu-sim.io/faulty", effect)]) else was)
  }

  lemma {:induction false} BrokeExactly(before: Cluster, after: Cluster, m: DeviceMatch, effect: string,
      hits: map<string, seq<bool>>)
    requires ClusterUnambiguous(before) && Broke(before, after, m, effect, hits, true)
    ensures TaintsExactly(before, after, m, effect)
  {
    forall n | ManagedSlice(before, n)
      ensures |hits[n]| == |before.slices[n].slice.devices|
      ensures forall j :: 0 <= j < |hits[n]| ==>
                (hits[n][j] <==> MustMatch(m, before.slices[n].slice, before.slices[n].slice.devices[j]))
    {
      assert SliceUnambiguous(before.slices[n].slice);
      FairIsExact(m, before.slices[n].slice, hits[n]);
    }
  }

  /** A fault that fails at one slice has struck those before it, and that one perhaps. */
  lemma {:induction false} BrokeSome(before: Cluster, now: Cluster, m: DeviceMatch, effect: string, hits: map<string,
      seq<bool>>, listed: seq<string>, i: nat)
    requires i <= |listed| && BrokeFirst(before, now, m, effect, hits, listed, i)
    requires forall n :: n in listed <==> ManagedSlice(before, n)
    ensures Broke(before, now, m, effect, hits, false)
  {
    assert forall n :: n in listed[..i] ==> n in listed;
  }

  lemma {:induction false} NamesAll(before: Cluster, hits: map<string, seq<bool>>, listed: seq<string>,
      names: set<string>)
    requires forall k :: 0 <= k < |listed| ==> listed[k] in before.slices && listed[k] in hits
    requires forall n :: n in listed <==> ManagedSlice(before, n)
    requires NamesFirst(before, hits, listed, |listed|, names)
    ensures AreHit(before, hits, names)
  {
    forall n | ManagedSlice(before, n)
      ensures exists k :: 0 <= k < |listed| && listed[k] == n
    {
      assert n in listed;
    }
  }

  /** Breaking devices is one of the disturbances an apply erases. */
  lemma {:induction false} BreakingIsTainting(before: Cluster, after: Cluster, m: DeviceMatch, effect: string,
      hits: map<string, seq<bool>>, ok: bool)
    requires Broke(before, after, m, effect, hits, ok)
    ensures IsTainting(before, after)
  {
  }

  /** Devices keep their number, order, names, attributes and counters; they only gain taints. */
  lemma {:induction false} OnlyTaintsGained(before: Cluster, after: Cluster, m: DeviceMatch, effect: string,
      hits: map<string, seq<bool>>, ok: bool, n: string)
    requires Broke(before, after, m, effect, hits, ok) && n in before.slices
    ensures var was, now := before.slices[n].slice.devices, after.slices[n].slice.devices;
            && |now| == |was|
            && forall j :: 0 <= j < |was| ==>
              now[j] == was[j].(taints := now[j].taints) && was[j].taints <= now[j].taints
  {
  }
}
