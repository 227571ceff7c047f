/** The names the simulator prints into a cluster and parses back out of it. */
module Names {
  import opened Options

  const MAX_INT := 0x7FFF_FFFF_FFFF_FFFF

  // ---------------------------------------------------------------- decimal text

  predicate IsDigit(c: char) {
    '0' <= c <= '9'
  }

  predicate AllDigits(s: string) {
    forall c :: c in s ==> IsDigit(c)
  }

  function Digit(d: nat): (c: char)
    requires d < 10
    ensures IsDigit(c) && (c - '0') as int == d
  {
    '0' + d as char
  }

  /** What `%d` prints for an index. */
  function Itoa(n: nat): (s: string)
    ensures s != [] && AllDigits(s)
  {
    if n < 10 then [Digit(n)] else Itoa(n / 10) + [Digit(n % 10)]
  }

  function DigitsValue(s: string): nat
    requires AllDigits(s)
  {
    if s == [] then 0
    else
      assert s[|s| - 1] in s;
      DigitsValue(s[..|s| - 1]) * 10 + (s[|s| - 1] - '0') as int
  }

  /** Atoi of Go's strconv: an optional sign, at least one digit, and a 64-bit range. */
  function Atoi(s: string): Option<int> {
    var digits := if s != [] && (s[0] == '+' || s[0] == '-') then s[1..] else s;
    if digits == [] || !AllDigits(digits) then None
    else
      var n: int := DigitsValue(digits);
      if s[0] == '-' then (if n <= MAX_INT + 1 then Some(-n) else None)
      else if n <= MAX_INT then Some(n) else None
  }

  lemma {:induction false} DigitsOfItoa(n: nat)
    ensures DigitsValue(Itoa(n)) == n
  {
    if n < 10 {
      assert Itoa(n)[..0] == [];
    } else {
      DigitsOfItoa(n / 10);
      var s := Itoa(n);
      assert s[..|s| - 1] == Itoa(n / 10);
    }
  }

  lemma {:induction false} AtoiItoa(n: nat)
    requires n <= MAX_INT
    ensures Atoi(Itoa(n)) == Some(n)
  {
    DigitsOfItoa(n);
    assert Itoa(n)[0] in Itoa(n);
  }

  /** A numeral may have leading zeros. */
  lemma {:induction false} LeadingZero(t: string)
    requires AllDigits(t)
    ensures AllDigits("0" + t) && DigitsValue("0" + t) == DigitsValue(t)
  {
    var s := "0" + t;
    assert AllDigits(s) by {
      forall c | c in s
        ensures IsDigit(c)
      {
        assert c == '0' || c in t;
      }
    }
    if t == [] {
      assert s == "0" && s[..0] == [];
    } else {
      LeadingZero(t[..|t| - 1]);
      assert s[..|s| - 1] == "0" + t[..|t| - 1];
    }
  }

  /** A text reads as a number exactly when it is digits with at most one sign before them and the
      number fits 64 bits; a minus negates it. */
  lemma {:induction false} AtoiExact(s: string, t: string)
    requires AllDigits(t) && t != []
    ensures var n: int := DigitsValue(t);
            && Atoi(t) == (if n <= 0x7FFF_FFFF_FFFF_FFFF then Some(n) else None)
            && Atoi("+" + t) == Atoi(t)
            && Atoi("-" + t) == (if n <= 0x8000_0000_0000_0000 then Some(-n) else None)
    ensures Atoi(s).Some? ==> exists u :: u != [] && AllDigits(u) && (s == u || s == "+" + u || s == "-" + u)
  {
    assert t[0] in t && IsDigit(t[0]);
    assert ("+" + t)[1..] == t && ("-" + t)[1..] == t;
    if Atoi(s).Some? {
      if s[0] == '+' {
        assert s == "+" + s[1..];
      } else if s[0] == '-' {
        assert s == "-" + s[1..];
      }
    }
  }

  lemma {:induction false} ItoaInjective(a: nat, b: nat)
    requires Itoa(a) == Itoa(b)
    ensures a == b
  {
    DigitsOfItoa(a);
    DigitsOfItoa(b);
  }

  // ---------------------------------------------------------------- splitting at a dash

  ghost predicate NoDash(s: string) {
    '-' !in s
  }

  lemma {:induction false} FirstDash(a: string, x: string, b: string, y: string)
    requires a + "-" + x == b + "-" + y && NoDash(a) && NoDash(b)
    ensures a == b && x == y
  {
    var s := a + "-" + x;
    assert s[|a|] == '-' && s[|b|] == '-';
    assert forall k :: 0 <= k < |a| ==> s[k] == a[k];
    assert forall k :: 0 <= k < |b| ==> s[k] == b[k];
    assert |a| == |b|;
    assert a == s[..|a|] && b == s[..|b|];
    assert x == s[|a| + 1..] && y == s[|b| + 1..];
  }

  lemma {:induction false} LastDash(a: string, x: string, b: string, y: string)
    requires a + "-" + x == b + "-" + y && NoDash(x) && NoDash(y)
    ensures a == b && x == y
  {
    var s := a + "-" + x;
    assert s[|a|] == '-' && s[|b|] == '-';
    assert forall k :: |a| < k < |s| ==> s[k] == x[k - |a| - 1];
    assert forall k :: |b| < k < |s| ==> s[k] == y[k - |b| - 1];
    assert |a| == |b|;
    assert a == s[..|a|] && b == s[..|b|];
    assert x == s[|a| + 1..] && y == s[|b| + 1..];
  }

  lemma {:induction false} ItoaNoDash(n: nat)
    ensures NoDash(Itoa(n))
  {
    assert !IsDigit('-');
  }

  lemma {:induction false} PrefixCancels(p: string, a: string, b: string)
    requires p + a == p + b
    ensures a == b
  {
    assert a == (p + a)[|p|..] && b == (p + b)[|p|..];
  }

  // ---------------------------------------------------------------- counters

  const SM_COUNTER := "sm-slices"
  const MEMORY_PREFIX := "memory-slice-"
  const GPU_PREFIX := "gpu-"

  function MemoryCounter(i: nat): string {
    MEMORY_PREFIX + Itoa(i)
  }

  function CounterSetName(gpuIndex: nat): string {
    GPU_PREFIX + Itoa(gpuIndex)
  }

  function CutPrefix(s: string, prefix: string): Option<string> {
    if prefix <= s then Some(s[|prefix|..]) else None
  }

  function MemorySliceIndex(counter: string): Option<int> {
    match CutPrefix(counter, MEMORY_PREFIX)
    case None => None
    case Some(rest) => Atoi(rest)
  }

  function GpuIndexFromCounterSet(name: string): Option<int> {
    match CutPrefix(name, GPU_PREFIX)
    case None => None
    case Some(rest) => Atoi(rest)
  }

  lemma {:induction false} MemoryCounterRoundTrip(i: nat)
    requires i <= MAX_INT
    ensures MemorySliceIndex(MemoryCounter(i)) == Some(i)
  {
    AtoiItoa(i);
    assert MemoryCounter(i)[|MEMORY_PREFIX|..] == Itoa(i);
  }

  lemma {:induction false} CounterSetRoundTrip(i: nat)
    requires i <= MAX_INT
    ensures GpuIndexFromCounterSet(CounterSetName(i)) == Some(i)
  {
    AtoiItoa(i);
    assert CounterSetName(i)[|GPU_PREFIX|..] == Itoa(i);
  }

  /** The compute pool can never be read as a memory position. */
  lemma {:induction false} SmCounterIsNotMemory(i: nat)
    ensures MemorySliceIndex(SM_COUNTER) == None
    ensures MemoryCounter(i) != SM_COUNTER
  {
    assert SM_COUNTER[0] == 's' && MEMORY_PREFIX[0] == 'm';
    assert MemoryCounter(i)[0] == 'm';
  }

  lemma {:induction false} MemoryCounterInjective(i: nat, j: nat)
    requires MemoryCounter(i) == MemoryCounter(j)
    ensures i == j
  {
    PrefixCancels(MEMORY_PREFIX, Itoa(i), Itoa(j));
    ItoaInjective(i, j);
  }

  // ---------------------------------------------------------------- objects

  function StripDots(s: string): string {
    if s == [] then [] else (if s[0] == '.' then [] else [s[0]]) + StripDots(s[1..])
  }

  function DeviceName(gpuIndex: nat, profile: string, start: nat): string {
    GPU_PREFIX + Itoa(gpuIndex) + "-mig-" + StripDots(profile) + "-" + Itoa(start)
  }

  function WholeSliceName(node: string): string {
    "kwok-" + node + "-gpu"
  }

  function CounterSliceName(node: string): string {
    "kwok-" + node + "-mig-counters"
  }

  function PartitionSliceName(node: string, i: nat): string {
    "kwok-" + node + "-mig-" + Itoa(i)
  }

  function HyperNodeName(level: string, value: string): string {
    "gpu-sim-" + level + "-" + value
  }

  /** A partition's device name gives back the GPU, the undotted profile and the position,
      whatever dashes the profile name holds. */
  lemma {:induction false} DeviceNameInjective(g: nat, p: string, s: nat, g': nat, p': string, s': nat)
    requires DeviceName(g, p, s) == DeviceName(g', p', s')
    ensures g == g' && StripDots(p) == StripDots(p') && s == s'
  {
    ItoaNoDash(g);  ItoaNoDash(g');
    ItoaNoDash(s);  ItoaNoDash(s');
    var front, front' := GPU_PREFIX + Itoa(g) + "-mig-" + StripDots(p), GPU_PREFIX + Itoa(g') + "-mig-" + StripDots(p');
    LastDash(front, Itoa(s), front', Itoa(s'));
    var rest, rest' := "mig-" + StripDots(p), "mig-" + StripDots(p');
    assert front == GPU_PREFIX + (Itoa(g) + "-" + rest);
    assert front' == GPU_PREFIX + (Itoa(g') + "-" + rest');
    PrefixCancels(GPU_PREFIX, Itoa(g) + "-" + rest, Itoa(g') + "-" + rest');
    FirstDash(Itoa(g), rest, Itoa(g'), rest');
    PrefixCancels("mig-", StripDots(p), StripDots(p'));
    ItoaInjective(g, g');
    ItoaInjective(s, s');
  }

  /** The kinds of slice a node can publish. */
  datatype SliceKind = Whole | Counters | Part(i: nat)

  function SliceName(node: string, kind: SliceKind): string {
    match kind
    case Whole => WholeSliceName(node)
    case Counters => CounterSliceName(node)
    case Part(i) => PartitionSliceName(node, i)
  }

  function SliceSuffix(kind: SliceKind): string {
    match kind
    case Whole => "gpu"
    case Counters => "counters"
    case Part(i) => Itoa(i)
  }

  function SliceFront(node: string, kind: SliceKind): string {
    if kind.Whole? then "kwok-" + node else "kwok-" + node + "-mig"
  }

  lemma {:induction false} SliceNameSplits(node: string, kind: SliceKind)
    ensures SliceName(node, kind) == SliceFront(node, kind) + "-" + SliceSuffix(kind)
    ensures NoDash(SliceSuffix(kind))
  {
    match kind
    case Whole =>
    case Counters =>
    case Part(i) => ItoaNoDash(i);
  }

  lemma {:induction false} SuffixInjective(k: SliceKind, k': SliceKind)
    requires SliceSuffix(k) == SliceSuffix(k')
    ensures k == k'
  {
    assert SliceSuffix(Whole)[0] == 'g' && SliceSuffix(Counters)[0] == 'c';
    if k.Part? {
      assert SliceSuffix(k)[0] in SliceSuffix(k);
    }
    if k'.Part? {
      assert SliceSuffix(k')[0] in SliceSuffix(k');
    }
    if k.Part? && k'.Part? {
      ItoaInjective(k.i, k'.i);
    }
  }

  /** No two slices of a cluster share a name: across nodes, across kinds and across chunks,
      even when node names themselves contain dashes. */
  lemma {:induction false} SliceNameInjective(node: string, kind: SliceKind, node': string, kind': SliceKind)
    requires SliceName(node, kind) == SliceName(node', kind')
    ensures node == node' && kind == kind'
  {
    SliceNameSplits(node, kind);
    SliceNameSplits(node', kind');
    LastDash(SliceFront(node, kind), SliceSuffix(kind), SliceFront(node', kind'), SliceSuffix(kind'));
    SuffixInjective(kind, kind');
    if kind.Whole? {
      PrefixCancels("kwok-", node, node');
    } else {
      assert "kwok-" + node + "-mig" == "kwok-" + (node + "-mig");
      assert "kwok-" + node' + "-mig" == "kwok-" + (node' + "-mig");
      PrefixCancels("kwok-", node + "-mig", node' + "-mig");
      assert node == (node + "-mig")[..|node + "-mig"| - 4];
      assert node' == (node' + "-mig")[..|node' + "-mig"| - 4];
    }
  }

  const LEVEL_NAMES := ["host", "nvlink-domain", "rack", "fault-domain"]

  /** HyperNode names are injective in level and value over the four levels there are. */
  lemma {:induction false} HyperNodeNameInjective(l: string, v: string, l': string, v': string)
    requires l in LEVEL_NAMES && l' in LEVEL_NAMES
    requires HyperNodeName(l, v) == HyperNodeName(l', v')
    ensures l == l' && v == v'
  {
    assert HyperNodeName(l, v) == "gpu-sim-" + (l + "-" + v);
    assert HyperNodeName(l', v') == "gpu-sim-" + (l' + "-" + v');
    PrefixCancels("gpu-sim-", l + "-" + v, l' + "-" + v');
    assert (l + "-" + v)[0] == l[0] && (l' + "-" + v')[0] == l'[0];
    assert l == l';
    assert l + "-" + v == (l + "-") + v && l' + "-" + v' == (l' + "-") + v';
    PrefixCancels(l + "-", v, v');
  }

  // ---------------------------------------------------------------- label characters

  ghost predicate LabelChar(c: char) {
    'a' <= c <= 'z' || '0' <= c <= '9' || c == '-'
  }

  /** The characters of a label in section 2.1 of RFC 1123, in the lower case Kubernetes asks for. */
  ghost predicate LabelChars(s: string) {
    forall c :: c in s ==> LabelChar(c)
  }

  lemma {:induction false} StripDotsLabel(s: string)
    requires forall c :: c in s ==> LabelChar(c) || c == '.'
    ensures LabelChars(StripDots(s))
  {
    if s != [] {
      StripDotsLabel(s[1..]);
    }
  }

  /** Every generated name stays within label characters: a profile may hold dots, a node name,
      level and value may not. */
  lemma {:induction false} NamesAreLabels(gpu: nat, profile: string, start: nat, node: string, kind: SliceKind,
      level: string, value: string)
    requires forall c :: c in profile ==> LabelChar(c) || c == '.'
    requires LabelChars(node) && LabelChars(level) && LabelChars(value)
    ensures LabelChars(DeviceName(gpu, profile, start))
    ensures LabelChars(SliceName(node, kind))
    ensures LabelChars(HyperNodeName(level, value))
    ensures LabelChars(MemoryCounter(start)) && LabelChars(CounterSetName(gpu)) && LabelChars(SM_COUNTER)
  {
    StripDotsLabel(profile);
    LiteralsAreLabels();
    NumeralIsLabel(gpu);
    NumeralIsLabel(start);
    if kind.Part? {
      NumeralIsLabel(kind.i);
    }
  }

  lemma {:induction false} NumeralIsLabel(n: nat)
    ensures LabelChars(Itoa(n))
  {
  }

  lemma {:induction false} LiteralsAreLabels()
    ensures LabelChars("-mig-") && LabelChars("-") && LabelChars(GPU_PREFIX) && LabelChars(MEMORY_PREFIX)
            && LabelChars(SM_COUNTER)
    ensures LabelChars("kwok-") && LabelChars("-gpu") && LabelChars("-mig-counters") && LabelChars("gpu-sim-")
  {
  }
}
