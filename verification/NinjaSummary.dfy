// The summary of a build: sorting the events, sweeping over them, and the totals of the report.
module NinjaSummary {
  import opened Sequences
  import opened NinjaTarget
  import opened NinjaIntegral
  import opened NinjaSweep

  datatype Summary =
    | IndexError                                                              // no entries
    | KeyError                                                                // a stop event of a target that is not running
    | Summary(length: real, weightedTotal: real, totalCpuTime: real)

  // ---------- the sorted event list ----------

  ghost predicate KeySorted(es: seq<Event>) {
    forall i, j | 0 <= i < j < |es| :: Before(es[i], es[j])
  }

  /** The position at which a stable sort inserts e. */
  method InsertEvent(es: seq<Event>, e: Event) returns (r: seq<Event>)
    requires KeySorted(es)
    ensures KeySorted(r) && multiset(r) == multiset(es) + multiset{e}
  {
    var pos := |es|;
    while pos > 0 && !Before(es[pos - 1], e)
      invariant 0 <= pos <= |es|
      invariant forall i | pos <= i < |es| :: Before(e, es[i])
    {
      pos := pos - 1;
    }
    forall i | 0 <= i < pos ensures Before(es[i], e) {
      assert i == pos - 1 || Before(es[i], es[pos - 1]);
    }
    InsertedKeySorted(es, e, pos);
    InsertedMultiset(es, e, pos);
    r := InsertedAt(es, e, pos);
  }

  lemma InsertedKeySorted(es: seq<Event>, e: Event, pos: nat)
    requires pos <= |es| && KeySorted(es)
    requires forall i | 0 <= i < pos :: Before(es[i], e)
    requires forall i | pos <= i < |es| :: Before(e, es[i])
    ensures KeySorted(InsertedAt(es, e, pos))
  {
  }

  method SortEvents(events: seq<Event>) returns (es: seq<Event>)
    ensures KeySorted(es) && multiset(es) == multiset(events)
  {
    es := [];
    for i := 0 to |events|
      invariant KeySorted(es) && multiset(es) == multiset(events[..i])
    {
      es := InsertEvent(es, events[i]);
      assert events[..i + 1] == events[..i] + [events[i]];
    }
    assert events[..|events|] == events;
  }

  /** Start and stop of every entry, entry by entry. */
  ghost function Events(entries: seq<Target>): seq<Event> {
    if entries == [] then []
    else Events(entries[..|entries| - 1])
         + [EventOf(entries[|entries| - 1], Start), EventOf(entries[|entries| - 1], Stop)]
  }

  lemma {:induction false} EventsOnce(entries: seq<Target>, t: Target, a: Action)
    requires Distinct(entries)
    ensures multiset(Events(entries))[EventOf(t, a)] == if t in entries then 1 else 0
  {
    if entries != [] {
      var front, last := entries[..|entries| - 1], entries[|entries| - 1];
      EventsOnce(front, t, a);
      TwoMore(Events(front), EventOf(last, Start), EventOf(last, Stop), EventOf(t, a));
      assert entries == front + [last];
      assert last !in front;
    }
  }

  lemma TwoMore<T>(s: seq<T>, x: T, y: T, e: T)
    ensures multiset(s + [x, y])[e] == multiset(s)[e] + (if x == e then 1 else 0) + if y == e then 1 else 0
  {
    assert s + [x, y] == s + [x] + [y];
  }

  lemma {:induction false} EventsOnly(entries: seq<Target>, e: Event)
    requires e in Events(entries)
    ensures e.target in entries && e == EventOf(e.target, e.action)
  {
    var n := |entries| - 1;
    if e in Events(entries[..n]) {
      EventsOnly(entries[..n], e);
    }
  }

  lemma SeenTwice<T>(s: seq<T>, i: nat, j: nat)
    requires i < j < |s| && s[i] == s[j]
    ensures multiset(s)[s[i]] >= 2
  {
    assert s == s[..i] + [s[i]] + s[i + 1..j] + [s[j]] + s[j + 1..];
  }

  ghost function TargetSet(entries: seq<Target>): set<Target> {
    set t | t in entries
  }

  ghost function IndexOf(es: seq<Event>, e: Event): (i: nat)
    requires e in es
    ensures i < |es| && es[i] == e
  {
    var i :| 0 <= i < |es| && es[i] == e;
    i
  }

  lemma SortedEventsIndexed(entries: seq<Target>, es: seq<Event>)
    returns (st: map<Target, nat>, sp: map<Target, nat>)
    requires Distinct(entries) && multiset(es) == multiset(Events(entries))
    ensures var ts := TargetSet(entries);
            st.Keys == ts && sp.Keys == ts && Indexed(es, ts, st, sp)
    ensures forall t | t in entries :: es[st[t]] == EventOf(t, Start) && es[sp[t]] == EventOf(t, Stop)
  {
    hide Events, Distinct;
    forall t, a | t in entries ensures EventOf(t, a) in es {
      EventIsThere(entries, es, t, a);
    }
    st := map t | t in entries :: IndexOf(es, EventOf(t, Start));
    sp := map t | t in entries :: IndexOf(es, EventOf(t, Stop));
    forall i | 0 <= i < |es|
      ensures es[i].target in entries
      ensures i == if es[i].action.Start? then st[es[i].target] else sp[es[i].target]
    {
      OnlyIndex(entries, es, i);
    }
  }

  lemma EventIsThere(entries: seq<Target>, es: seq<Event>, t: Target, a: Action)
    requires Distinct(entries) && multiset(es) == multiset(Events(entries)) && t in entries
    ensures EventOf(t, a) in es
  {
    EventsOnce(entries, t, a);
    hide Events, EventOf;
    assert EventOf(t, a) in multiset(es);
  }

  /** An event has only one index in the sorted list. */
  lemma OnlyIndex(entries: seq<Target>, es: seq<Event>, i: nat)
    requires Distinct(entries) && multiset(es) == multiset(Events(entries)) && i < |es|
    ensures es[i].target in entries && es[i] == EventOf(es[i].target, es[i].action)
    ensures es[i] in es && IndexOf(es, es[i]) == i
  {
    var e := es[i];
    assert e in multiset(es);
    EventsOnly(entries, e);
    EventsOnce(entries, e.target, e.action);
    hide Events, EventOf, Distinct;
    var k := IndexOf(es, e);
    if i < k { SeenTwice(es, i, k); }
    if k < i { SeenTwice(es, k, i); }
  }

  ghost function SortedTimes(es: seq<Event>): (g: seq<real>)
    requires KeySorted(es)
    ensures AreTimes(g, es) && Sorted(g)
  {
    assert forall i, j | 0 <= i < j < |es| :: Before(es[i], es[j]);
    seq(|es|, i requires 0 <= i < |es| => es[i].time)
  }

  lemma SortedEventsAreSchedule(entries: seq<Target>, es: seq<Event>)
    returns (g: seq<real>, st: map<Target, nat>, sp: map<Target, nat>)
    requires Distinct(entries) && KeySorted(es) && multiset(es) == multiset(Events(entries))
    ensures IsSchedule(es, g, TargetSet(entries), st, sp)
  {
    st, sp := SortedEventsIndexed(entries, es);
    g := SortedTimes(es);
    hide Sorted, Indexed, KeySorted, Events;
    forall t | t in entries ensures st[t] < sp[t] <==> t.start <= t.end {
      StartBeforeStop(es, st[t], sp[t], t);
    }
    hide EventOf;
    forall t | t in entries ensures g[st[t]] == t.start && g[sp[t]] == t.end {
      assert EventOf(t, Start).time == t.start && EventOf(t, Stop).time == t.end by { TimesOf(t); }
    }
  }

  lemma TimesOf(t: Target)
    ensures EventOf(t, Start).time == t.start && EventOf(t, Stop).time == t.end
  {
  }

  lemma StartBeforeStop(es: seq<Event>, i: nat, j: nat, t: Target)
    requires KeySorted(es) && i < |es| && j < |es| && es[i] == EventOf(t, Start) && es[j] == EventOf(t, Stop)
    ensures i < j <==> t.start <= t.end
  {
    hide KeySorted;
    if i < j {
      KeySortedAt(es, i, j);
    } else {
      KeySortedAt(es, j, i);
    }
  }

  lemma KeySortedAt(es: seq<Event>, i: nat, j: nat)
    requires KeySorted(es) && i <= j < |es|
    ensures i < j ==> Before(es[i], es[j])
  {
  }

  // ---------- the span of the build ----------

  /** The earliest start so far, with any negative value standing for "none yet". */
  function Earlier(earliest: real, start: real): real {
    if earliest < 0.0 || start < earliest then start else earliest
  }

  function EarliestOf(entries: seq<Target>): real {
    if entries == [] then -1.0 else Earlier(EarliestOf(entries[..|entries| - 1]), entries[|entries| - 1].start)
  }

  function LatestOf(entries: seq<Target>): real {
    if entries == [] then 0.0
    else
      var latest, t := LatestOf(entries[..|entries| - 1]), entries[|entries| - 1];
      if t.end > latest then t.end else latest
  }

  function CpuTime(entries: seq<Target>): real {
    if entries == [] then 0.0 else CpuTime(entries[..|entries| - 1]) + entries[|entries| - 1].Duration()
  }

  function SumOfStarts(entries: seq<Target>): real {
    if entries == [] then 0.0 else SumOfStarts(entries[..|entries| - 1]) + entries[|entries| - 1].start
  }

  function SumOfEnds(entries: seq<Target>): real {
    if entries == [] then 0.0 else SumOfEnds(entries[..|entries| - 1]) + entries[|entries| - 1].end
  }

  /** The total CPU time is the sum of all ends less the sum of all starts. */
  lemma {:induction false} CpuTimeExact(entries: seq<Target>)
    ensures CpuTime(entries) == SumOfEnds(entries) - SumOfStarts(entries)
  {
    if entries != [] {
      CpuTimeExact(entries[..|entries| - 1]);
    }
  }

  ghost predicate IsFirstStart(entries: seq<Target>, x: real) {
    (exists t | t in entries :: t.start == x) && forall t | t in entries :: x <= t.start
  }

  ghost predicate IsLastEnd(entries: seq<Target>, x: real) {
    (exists t | t in entries :: t.end == x) && forall t | t in entries :: t.end <= x
  }

  lemma {:induction false} EarliestBasics(entries: seq<Target>)
    requires entries != []
    ensures exists t | t in entries :: t.start == EarliestOf(entries)
    ensures (forall t | t in entries :: t.start >= 0.0) ==> forall t | t in entries :: EarliestOf(entries) <= t.start
    ensures EarliestOf(entries) < 0.0 ==> EarliestOf(entries) == entries[|entries| - 1].start
  {
    var n := |entries| - 1;
    assert entries == entries[..n] + [entries[n]];
    if n > 0 {
      EarliestBasics(entries[..n]);
    } else {
      assert EarliestOf(entries[..n]) == -1.0;
      assert entries[0] in entries;
    }
  }

  /**
   The value -1 stands for "no start seen", and so does every negative start. The computed earliest
   start is right if and only if no start is negative or the last entry listed is the earliest one.
   */
  lemma EarliestExact(entries: seq<Target>)
    requires entries != []
    ensures IsFirstStart(entries, EarliestOf(entries))
            <==> (forall t | t in entries :: t.start >= 0.0)
                 || forall t | t in entries :: entries[|entries| - 1].start <= t.start
  {
    EarliestBasics(entries);
    var n := |entries| - 1;
    assert entries[n] in entries;
    if (forall t | t in entries :: entries[n].start <= t.start) && entries[n].start < 0.0 {
      if n > 0 {
        EarliestBasics(entries[..n]);
      }
      assert EarliestOf(entries) == entries[n].start;
    }
  }

  /** A negative earliest start that is not listed last is forgotten. */
  lemma NegativeStartForgotten(t: Target, u: Target)
    requires t.start == -5.0 && u.start == 3.0
    ensures EarliestOf([t, u]) == 3.0 && !IsFirstStart([t, u], EarliestOf([t, u]))
  {
    assert [t, u][..1] == [t] && [t][..0] == [];
    assert EarliestOf([t]) == -5.0;
    assert t in [t, u];
  }

  lemma {:induction false} LatestBasics(entries: seq<Target>)
    ensures forall t | t in entries :: t.end <= LatestOf(entries)
    ensures LatestOf(entries) >= 0.0
    ensures LatestOf(entries) == 0.0 || exists t | t in entries :: t.end == LatestOf(entries)
  {
    if entries != [] {
      var n := |entries| - 1;
      assert entries == entries[..n] + [entries[n]];
      LatestBasics(entries[..n]);
      assert entries[n] in entries;
    }
  }

  /** The computed latest end is right if and only if some end is not negative. */
  lemma LatestExact(entries: seq<Target>)
    ensures IsLastEnd(entries, LatestOf(entries)) <==> exists t | t in entries :: t.end >= 0.0
  {
    LatestBasics(entries);
    hide LatestOf;
  }

  /** A negative end is read as zero. */
  lemma NegativeEndIsZero(t: Target)
    requires t.end == -1.0
    ensures LatestOf([t]) == 0.0 && !IsLastEnd([t], LatestOf([t]))
  {
    assert [t][..0] == [];
  }

  /** A grid that spans the build and no more. */
  ghost predicate SpanGrid(g: seq<real>, entries: seq<Target>) {
    && Grid(g, TargetSet(entries)) && g != []
    && IsFirstStart(entries, g[0]) && IsLastEnd(entries, g[|g| - 1])
  }

  /** On any grid that spans exactly the build, its length is the busy time plus the idle gaps. */
  lemma LengthIsBusyPlusIdle(entries: seq<Target>, g: seq<real>)
    requires SpanGrid(g, entries) && forall t | t in entries :: 0.0 <= t.start <= t.end
    ensures LatestOf(entries) - EarliestOf(entries)
            == Busy(g, TargetSet(entries)) + Idle(g, TargetSet(entries))
    ensures Idle(g, TargetSet(entries)) >= 0.0
  {
    assert entries != [];
    assert entries[0] in entries && entries[0].end >= 0.0;
    EarliestExact(entries);
    LatestExact(entries);
    BusyAndIdle(g, TargetSet(entries));
  }

  lemma FirstAndLastEvent(es: seq<Event>, g: seq<real>, ts: set<Target>, st: map<Target, nat>, sp: map<Target, nat>)
    requires IsSchedule(es, g, ts, st, sp) && ts != {} && forall t | t in ts :: t.start <= t.end
    ensures Grid(g, ts) && es != [] && |g| == |es|
    ensures es[0].target in ts && es[0].target.start == g[0]
    ensures es[|es| - 1].target in ts && es[|es| - 1].target.end == g[|g| - 1]
    ensures forall t | t in ts :: g[0] <= t.start && t.end <= g[|g| - 1]
  {
    hide Sorted, Indexed, Placed, Only, Fine;
    PlacedIsGrid(g, ts, st, sp);
    GridBounds(g, ts);
    EventFacts(es, g, ts, st, sp, 0);
    EventFacts(es, g, ts, st, sp, |es| - 1);
  }

  /** The sorted events themselves are such a grid. */
  lemma ScheduleSpans(entries: seq<Target>, es: seq<Event>, g: seq<real>, st: map<Target, nat>, sp: map<Target, nat>)
    requires entries != [] && forall t | t in entries :: t.start <= t.end
    requires IsSchedule(es, g, TargetSet(entries), st, sp)
    ensures SpanGrid(g, entries)
  {
    hide Sorted, IsSchedule, Grid;
    assert entries[0] in TargetSet(entries);
    FirstAndLastEvent(es, g, TargetSet(entries), st, sp);
    assert es[0].target in entries && es[|es| - 1].target in entries;
    forall t | t in entries ensures g[0] <= t.start && t.end <= g[|g| - 1] {
      assert t in TargetSet(entries);
    }
  }

  /**
   The whole report. On entries that are distinct objects it fails with an IndexError when there are
   none and with a KeyError exactly when some target ends before it starts; otherwise every weighted
   duration is the integral, and the total is the time during which something ran.
   */
  method SummarizeEntries(entries: seq<Target>) returns (r: Summary)
    requires Distinct(entries)
    modifies TargetSet(entries)`weightedDuration
    ensures r == IndexError <==> entries == []
    ensures r == KeyError <==> exists t | t in entries :: t.end < t.start
    ensures r.Summary? ==>
              forall t, g | t in entries && Grid(g, TargetSet(entries)) ::
                t.weightedDuration == Weighted(g, TargetSet(entries), t)
    ensures r.Summary? ==> forall t | t in entries :: 0.0 <= t.weightedDuration <= t.end - t.start
    ensures r.Summary? ==> forall g | Grid(g, TargetSet(entries)) :: r.weightedTotal == Busy(g, TargetSet(entries))
    ensures r.Summary? ==> r.length == LatestOf(entries) - EarliestOf(entries)
    ensures r.Summary? ==> r.totalCpuTime == SumOfEnds(entries) - SumOfStarts(entries)
    ensures r.Summary? && (forall t | t in entries :: t.start >= 0.0) ==>
              && r.weightedTotal <= r.length
              && forall g | SpanGrid(g, entries) :: r.weightedTotal == r.length - Idle(g, TargetSet(entries))
  {
    hide Sorted, IsSchedule, Grid, KeySorted;
    var events: seq<Event> := [];
    var earliest, latest, totalCpuTime := -1.0, 0.0, 0.0;
    for i := 0 to |entries|
      invariant events == Events(entries[..i])
      invariant earliest == EarliestOf(entries[..i]) && latest == LatestOf(entries[..i])
      invariant totalCpuTime == CpuTime(entries[..i])
    {
      var target := entries[i];
      assert entries[..i + 1][..i] == entries[..i];
      if earliest < 0.0 || target.start < earliest {
        earliest := target.start;
      }
      if target.end > latest {
        latest := target.end;
      }
      totalCpuTime := totalCpuTime + target.Duration();
      events := events + [EventOf(target, Start), EventOf(target, Stop)];
    }
    assert entries[..|entries|] == entries;
    if entries == [] {
      return IndexError;
    }
    var es := SortEvents(events);
    ghost var ts := TargetSet(entries);
    ghost var g, st, sp := SortedEventsAreSchedule(entries, es);
    assert |multiset(es)| == |es| && |multiset(events)| == |events|;
    var ok, weightedTotal := Sweep(es, g, ts, st, sp);
    if !ok {
      return KeyError;
    }
    ScheduleSpans(entries, es, g, st, sp);
    CpuTimeExact(entries);
    r := Summary(latest - earliest, weightedTotal, totalCpuTime);
    if forall t | t in entries :: t.start >= 0.0 {
      LengthIsBusyPlusIdle(entries, g);
      forall h | SpanGrid(h, entries) ensures weightedTotal == r.length - Idle(h, ts) {
        LengthIsBusyPlusIdle(entries, h);
      }
    }
  }
}
