/** The order in which a scenario's events take place. */
module Timeline {
  import opened Sorting
  import opened Options
  import opened Scenario

  datatype What = Submit(workload: Workload) | Retire(workload: Workload) | Break(fault: Fault)

  datatype Event = Event(at: int, what: What)

  // ---------------------------------------------------------------- as declared

  function WorkloadEvents(ws: seq<Workload>): seq<Event> {
    if ws == [] then []
    else
      var last := ws[|ws| - 1];
      WorkloadEvents(ws[..|ws| - 1]) + [Event(last.submitAt, Submit(last))]
      + if last.retireAt > 0 then [Event(last.retireAt, Retire(last))] else []
  }

  function FaultEvents(fs: seq<Fault>): seq<Event> {
    seq(|fs|, i requires 0 <= i < |fs| => Event(fs[i].at, Break(fs[i])))
  }

  function Events(ws: seq<Workload>, fs: seq<Fault>): seq<Event> {
    WorkloadEvents(ws) + FaultEvents(fs)
  }

  /** What is on the timeline of a scenario: each event at the offset its own declaration gives. */
  ghost predicate Declared(ws: seq<Workload>, fs: seq<Fault>, e: Event) {
    match e.what
    case Submit(w) => w in ws && e.at == w.submitAt
    case Retire(w) => w in ws && e.at == w.retireAt > 0
    case Break(f) => f in fs && e.at == f.at
  }

  lemma {:induction false} WorkloadEventsAre(ws: seq<Workload>, e: Event)
    ensures e in WorkloadEvents(ws) <==> !e.what.Break? && Declared(ws, [], e)
  {
    if ws != [] {
      WorkloadEventsAre(ws[..|ws| - 1], e);
      assert ws == ws[..|ws| - 1] + [ws[|ws| - 1]];
    }
  }

  lemma {:induction false} EventsAre(ws: seq<Workload>, fs: seq<Fault>, e: Event)
    ensures e in Events(ws, fs) <==> Declared(ws, fs, e)
  {
    WorkloadEventsAre(ws, e);
    if e in FaultEvents(fs) {
      var k :| 0 <= k < |fs| && FaultEvents(fs)[k] == e;
      assert fs[k] in fs;
    }
    if e.what.Break? && Declared(ws, fs, e) {
      var k :| 0 <= k < |fs| && fs[k] == e.what.fault;
      assert FaultEvents(fs)[k] == e;
    }
  }

  lemma {:induction false} WorkloadEventsOnce(ws: seq<Workload>)
    requires forall i, j :: 0 <= i < j < |ws| ==> ws[i].name != ws[j].name
    ensures forall i, j :: 0 <= i < j < |WorkloadEvents(ws)| ==> WorkloadEvents(ws)[i] != WorkloadEvents(ws)[j]
  {
    if ws != [] {
      var front, last := ws[..|ws| - 1], ws[|ws| - 1];
      WorkloadEventsOnce(front);
      WorkloadEventsAre(front, Event(last.submitAt, Submit(last)));
      WorkloadEventsAre(front, Event(last.retireAt, Retire(last)));
      assert last !in front;
    }
  }

  lemma {:induction false} EventsOnce(ws: seq<Workload>, fs: seq<Fault>)
    requires ValidWorkloads(ws) && ValidFaults(fs)
    ensures NoRepeats(Events(ws, fs))
  {
    WorkloadEventsOnce(ws);
    var a, b := WorkloadEvents(ws), FaultEvents(fs);
    forall i | 0 <= i < |a|
      ensures !a[i].what.Break?
    {
      WorkloadEventsAre(ws, a[i]);
    }
    assert forall i, j :: 0 <= i < j < |b| ==> b[i] != b[j];
    ListedOnce(a + b);
  }

  method BuildEvents(ws: seq<Workload>, fs: seq<Fault>) returns (events: seq<Event>)
    ensures events == Events(ws, fs)
  {
    events := [];
    for i := 0 to |ws|
      invariant events == WorkloadEvents(ws[..i])
    {
      assert ws[..i + 1][..i] == ws[..i];
      events := events + [Event(ws[i].submitAt, Submit(ws[i]))];
      if ws[i].retireAt > 0 {
        events := events + [Event(ws[i].retireAt, Retire(ws[i]))];
      }
    }
    assert ws[..|ws|] == ws;
    for i := 0 to |fs|
      invariant events == WorkloadEvents(ws) + FaultEvents(fs)[..i]
    {
      events := events + [Event(fs[i].at, Break(fs[i]))];
    }
  }

  // ---------------------------------------------------------------- as executed

  predicate NoLater(a: Event, b: Event) {
    a.at <= b.at
  }

  lemma {:induction false} OffsetsInOrder()
    ensures TotalPreorder(NoLater)
  {
  }

  function Timeline(ws: seq<Workload>, fs: seq<Fault>): seq<Event> {
    Sort(NoLater, Events(ws, fs))
  }

  lemma {:induction false} InOrder(ws: seq<Workload>, fs: seq<Fault>)
    ensures SortedBy(NoLater, Timeline(ws, fs))
  {
    OffsetsInOrder();
    SortSorts(NoLater, Events(ws, fs));
  }

  lemma {:induction false} InTimeline(ws: seq<Workload>, fs: seq<Fault>, i: nat)
    requires i < |Timeline(ws, fs)|
    ensures Declared(ws, fs, Timeline(ws, fs)[i])
  {
    var e := Timeline(ws, fs)[i];
    SortPermutes(NoLater, Events(ws, fs));
    InSameBag(Timeline(ws, fs), Events(ws, fs), e);
    EventsAre(ws, fs, e);
  }

  /** Whatever the document, every event on the timeline is at the offset its declaration gives. */
  lemma {:induction false} OffsetIsDeclared(ws: seq<Workload>, fs: seq<Fault>, i: nat)
    requires i < |Timeline(ws, fs)|
    ensures var e := Timeline(ws, fs)[i];
            match e.what
            case Submit(w) => w in ws && e.at == w.submitAt
            case Retire(w) => w in ws && e.at == w.retireAt
            case Break(f) => f in fs && e.at == f.at
  {
    InTimeline(ws, fs, i);
  }

  /** The events at one offset. */
  function AtOffset(events: seq<Event>, at: int): seq<Event> {
    if events == [] then []
    else (if events[0].at == at then [events[0]] else []) + AtOffset(events[1..], at)
  }

  lemma {:induction false} AtOffsetIsFilter(events: seq<Event>, at: int, tied: Event -> bool)
    requires forall e :: tied(e) <==> e.at == at
    ensures AtOffset(events, at) == Filter(tied, events)
  {
    if events != [] {
      AtOffsetIsFilter(events[1..], at, tied);
    }
  }

  /** At equal offsets the timeline keeps the order of declaration. */
  lemma {:induction false} TimelineStable(ws: seq<Workload>, fs: seq<Fault>, at: int)
    ensures AtOffset(Timeline(ws, fs), at) == AtOffset(Events(ws, fs), at)
  {
    var tied := (e: Event) => e.at == at;
    OffsetsInOrder();
    SortStable(NoLater, Events(ws, fs), Event(at, Break(Fault("", at, None, ""))), tied);
    AtOffsetIsFilter(Events(ws, fs), at, tied);
    AtOffsetIsFilter(Timeline(ws, fs), at, tied);
  }

  /** The timeline holds what was declared, each event once, by offset, and at equal offsets in
      the order of declaration. */
  lemma {:induction false} TimelineExact(ws: seq<Workload>, fs: seq<Fault>)
    requires ValidWorkloads(ws) && ValidFaults(fs)
    ensures forall i, j :: 0 <= i < j < |Timeline(ws, fs)| ==> Timeline(ws, fs)[i].at <= Timeline(ws, fs)[j].at
    ensures SortedBy(NoLater, Timeline(ws, fs)) && NoRepeats(Timeline(ws, fs))
    ensures forall e :: e in Timeline(ws, fs) <==> Declared(ws, fs, e)
    ensures forall at :: AtOffset(Timeline(ws, fs), at) == AtOffset(Events(ws, fs), at)
  {
    var events := Events(ws, fs);
    OffsetsInOrder();
    SortSorts(NoLater, events);
    SortPermutes(NoLater, events);
    EventsOnce(ws, fs);
    forall e
      ensures e in Timeline(ws, fs) <==> Declared(ws, fs, e)
    {
      InSameBag(Timeline(ws, fs), events, e);
      EventsAre(ws, fs, e);
    }
    forall at
      ensures AtOffset(Timeline(ws, fs), at) == AtOffset(events, at)
    {
      TimelineStable(ws, fs, at);
    }
  }

  /** Where an event is on the timeline: at one place and no other. */
  lemma {:induction false} HappensOnce(ws: seq<Workload>, fs: seq<Fault>, e: Event) returns (i: nat)
    requires ValidWorkloads(ws) && ValidFaults(fs) && Declared(ws, fs, e)
    ensures i < |Timeline(ws, fs)| && Timeline(ws, fs)[i] == e
    ensures forall j :: 0 <= j < |Timeline(ws, fs)| && Timeline(ws, fs)[j] == e ==> j == i
  {
    TimelineExact(ws, fs);
    var t := Timeline(ws, fs);
    assert e in t;
    i :| i < |t| && t[i] == e;
    forall j | 0 <= j < |t| && t[j] == e
      ensures j == i
    {
      if j < i {
        OnceEach(t, j, i);
      } else if i < j {
        OnceEach(t, i, j);
      }
    }
  }

  lemma {:induction false} EarlierFirst(t: seq<Event>, i: nat, j: nat)
    requires SortedBy(NoLater, t) && i < |t| && j < |t| && t[i].at < t[j].at
    ensures i < j
  {
  }

  /** Every workload is submitted at exactly one point of the timeline, and if it is retired at
      all then at exactly one, later point. */
  lemma {:induction false} SubmittedThenRetired(ws: seq<Workload>, fs: seq<Fault>, k: nat) returns (i: nat)
    requires ValidWorkloads(ws) && ValidFaults(fs) && k < |ws|
    ensures var t := Timeline(ws, fs);
            && i < |t| && t[i] == Event(ws[k].submitAt, Submit(ws[k]))
            && (forall j :: 0 <= j < |t| && t[j].what.Submit? && t[j].what.workload.name == ws[k].name ==> j == i)
            && (forall j :: 0 <= j < |t| && t[j].what.Retire? && t[j].what.workload.name == ws[k].name ==>
                  i < j && t[j] == Event(ws[k].retireAt, Retire(ws[k])))
            && ((exists j :: 0 <= j < |t| && t[j] == Event(ws[k].retireAt, Retire(ws[k]))) <==> ws[k].retireAt != 0)
  {
    var t := Timeline(ws, fs);
    TimelineExact(ws, fs);
    i := HappensOnce(ws, fs, Event(ws[k].submitAt, Submit(ws[k])));
    forall j | 0 <= j < |t| && !t[j].what.Break? && t[j].what.workload.name == ws[k].name
      ensures t[j].what.workload == ws[k]
    {
      assert t[j] in t;
      var m :| 0 <= m < |ws| && ws[m] == t[j].what.workload;
    }
    forall j | 0 <= j < |t| && t[j].what.Submit? && t[j].what.workload.name == ws[k].name
      ensures j == i
    {
      assert t[j] in t;
      assert t[j] == Event(ws[k].submitAt, Submit(ws[k]));
    }
    forall j | 0 <= j < |t| && t[j].what.Retire? && t[j].what.workload.name == ws[k].name
      ensures i < j && t[j] == Event(ws[k].retireAt, Retire(ws[k]))
    {
      assert t[j] in t;
      EarlierFirst(t, i, j);
    }
    assert ws[k] in ws && ValidWorkload(ws[k]);
    if j :| 0 <= j < |t| && t[j] == Event(ws[k].retireAt, Retire(ws[k])) {
      assert t[j] in t && Declared(ws, fs, t[j]);
    }
    if ws[k].retireAt != 0 {
      var j := HappensOnce(ws, fs, Event(ws[k].retireAt, Retire(ws[k])));
    }
  }
}
