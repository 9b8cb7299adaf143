// The sweep over sorted start and stop events, which divides elapsed time among the running targets as it goes.
module NinjaSweep {
  import opened Sequences
  import opened NinjaTarget
  import opened NinjaIntegral

  datatype Action = Start | Stop

  datatype Event = Event(time: real, action: Action, target: Target)

  function EventOf(t: Target, a: Action): Event {
    Event(if a.Start? then t.start else t.end, a, t)
  }

  /** The order of the sort key (time, action): at equal times a start comes before a stop. */
  predicate Before(a: Event, b: Event) {
    a.time < b.time || (a.time == b.time && !(a.action.Stop? && b.action.Start?))
  }

  ghost predicate AreTimes(g: seq<real>, es: seq<Event>) {
    |g| == |es| && forall i | 0 <= i < |es| :: g[i] == es[i].time
  }

  /** On the sorted time stamps g, target t starts at index st[t] and ends at index sp[t]. */
  ghost predicate Placed(g: seq<real>, ts: set<Target>, st: map<Target, nat>, sp: map<Target, nat>) {
    && Sorted(g)
    && st.Keys == ts && sp.Keys == ts
    && (forall t | t in ts :: st[t] < |g| && g[st[t]] == t.start)
    && (forall t | t in ts :: sp[t] < |g| && g[sp[t]] == t.end)
  }

  /** Event i is the start or the stop of its target, and st and sp point to exactly those events. */
  ghost predicate Indexed(es: seq<Event>, ts: set<Target>, st: map<Target, nat>, sp: map<Target, nat>)
    requires st.Keys == ts && sp.Keys == ts
  {
    && (forall i | 0 <= i < |es| ::
          es[i].target in ts && i == if es[i].action.Start? then st[es[i].target] else sp[es[i].target])
    && (forall t | t in ts :: st[t] < |es| && es[st[t]].target == t && es[st[t]].action == Start)
    && (forall t | t in ts :: sp[t] < |es| && es[sp[t]].target == t && es[sp[t]].action == Stop)
  }

  /**
   What the sweep needs of the sort: each start and each stop once, in the order of the time stamps,
   and a target's start before its own stop if both have the same time.
   */
  ghost predicate IsSchedule(es: seq<Event>, g: seq<real>, ts: set<Target>, st: map<Target, nat>, sp: map<Target, nat>) {
    && AreTimes(g, es)
    && Placed(g, ts, st, sp)
    && Indexed(es, ts, st, sp)
    && forall t | t in ts :: st[t] < sp[t] <==> t.start <= t.end
  }

  lemma PlacedIsGrid(g: seq<real>, ts: set<Target>, st: map<Target, nat>, sp: map<Target, nat>)
    requires Placed(g, ts, st, sp)
    ensures Grid(g, ts)
  {
  }

  /** The targets started but not stopped by the first i events. */
  ghost function Open(ts: set<Target>, st: map<Target, nat>, sp: map<Target, nat>, i: nat): set<Target>
    requires st.Keys == ts && sp.Keys == ts
  {
    set t | t in ts && st[t] < i <= sp[t]
  }

  /** Over a slot of positive length the open targets are those whose interval covers it. */
  lemma OpenIsRunning(g: seq<real>, ts: set<Target>, st: map<Target, nat>, sp: map<Target, nat>, i: nat)
    requires Placed(g, ts, st, sp) && 0 < i < |g| && g[i - 1] < g[i]
    ensures Open(ts, st, sp, i) == Running(ts, g[i - 1], g[i])
  {
  }

  /** One step of the clock gives every open target exactly its share of the slot. */
  lemma SlotStep(g: seq<real>, ts: set<Target>, st: map<Target, nat>, sp: map<Target, nat>, t: Target, i: nat)
    requires Placed(g, ts, st, sp) && 0 < i < |g| && t in Open(ts, st, sp, i)
    ensures |Open(ts, st, sp, i)| != 0
    ensures Weighted(g[..i + 1], ts, t)
            == Weighted(g[..i], ts, t) + Part(g[i] - g[i - 1], |Open(ts, st, sp, i)|)
  {
    SortedAt(g, i - 1, i);
    WeightedAt(g, ts, t, i);
    hide Sorted, Weighted, Part;
    if g[i - 1] < g[i] {
      OpenIsRunning(g, ts, st, sp, i);
    } else {
      EmptySlot(ts, t, g[i]);
    }
  }

  /** After i events: the running targets are the open ones, each with the clock value at its start. */
  ghost predicate Tracks(g: seq<real>, ts: set<Target>, st: map<Target, nat>, sp: map<Target, nat>, i: nat,
                         running: map<Target, real>, clock: real)
    requires st.Keys == ts && sp.Keys == ts && i <= |g|
  {
    && running.Keys == Open(ts, st, sp, i)
    && forall t | t in running :: clock - running[t] == Weighted(g[..i], ts, t)
  }

  /** The accumulated weighted time after a slot of length delta in which n targets ran. */
  function Tick(clock: real, delta: real, n: nat): real {
    if n > 0 then clock + Part(delta, n) else clock
  }

  /** The clock has been moved on to time stamp i, and no event of that time stamp is handled yet. */
  ghost predicate Ticked(g: seq<real>, ts: set<Target>, i: nat, running: map<Target, real>, clock: real)
    requires i < |g|
  {
    forall t | t in running :: clock - running[t] == Weighted(g[..i + 1], ts, t)
  }

  lemma Advance(g: seq<real>, ts: set<Target>, st: map<Target, nat>, sp: map<Target, nat>, i: nat,
                running: map<Target, real>, clock: real, delta: real)
    requires Placed(g, ts, st, sp) && i < |g| && delta == g[i] - g[if i == 0 then 0 else i - 1]
    requires Tracks(g, ts, st, sp, i, running, clock)
    ensures running.Keys == Open(ts, st, sp, i)
    ensures Ticked(g, ts, i, running, Tick(clock, delta, |running|))
  {
    hide Sorted, Weighted, Part;
    assert |running| == |running.Keys|;
    forall t | t in running ensures Tick(clock, delta, |running|) - running[t] == Weighted(g[..i + 1], ts, t) {
      SlotStep(g, ts, st, sp, t, i);
    }
  }

  /** Event i concerns target t only: no other target starts or stops there. */
  ghost predicate Only(ts: set<Target>, st: map<Target, nat>, sp: map<Target, nat>, i: nat, t: Target)
    requires st.Keys == ts && sp.Keys == ts
  {
    t in ts && forall u | u in ts && u != t :: st[u] != i && sp[u] != i
  }

  lemma OpenStep(ts: set<Target>, st: map<Target, nat>, sp: map<Target, nat>, i: nat, t: Target)
    requires st.Keys == ts && sp.Keys == ts && Only(ts, st, sp, i, t)
    ensures st[t] == i < sp[t] ==> Open(ts, st, sp, i + 1) == Open(ts, st, sp, i) + {t}
    ensures st[t] != i == sp[t] ==> Open(ts, st, sp, i + 1) == Open(ts, st, sp, i) - {t}
  {
  }

  /** The target of a start event joins the running ones. */
  lemma StartStep(g: seq<real>, ts: set<Target>, st: map<Target, nat>, sp: map<Target, nat>, i: nat, t: Target,
                  running: map<Target, real>, clock: real)
    requires Placed(g, ts, st, sp) && i < |g| && Only(ts, st, sp, i, t) && st[t] == i < sp[t]
    requires running.Keys == Open(ts, st, sp, i)
    requires Ticked(g, ts, i, running, clock)
    ensures Tracks(g, ts, st, sp, i + 1, running[t := clock], clock)
  {
    NothingBefore(g, ts, t, i);
    OpenStep(ts, st, sp, i, t);
  }

  /** The target of a stop event leaves the running ones, and what it accumulated is its integral. */
  lemma StopStep(g: seq<real>, ts: set<Target>, st: map<Target, nat>, sp: map<Target, nat>, i: nat, t: Target,
                 running: map<Target, real>, clock: real)
    requires Placed(g, ts, st, sp) && i < |g| && Only(ts, st, sp, i, t) && sp[t] == i && st[t] != i
    requires running.Keys == Open(ts, st, sp, i)
    requires Ticked(g, ts, i, running, clock)
    ensures t in running <==> st[t] < sp[t]
    ensures t in running ==> clock - running[t] == Weighted(g, ts, t)
    ensures Tracks(g, ts, st, sp, i + 1, running - {t}, clock)
  {
    NothingMore(g, ts, t, i);
    OpenStep(ts, st, sp, i, t);
  }

  /** The stopped targets are those whose stop event is among the first i, and each had been started. */
  ghost predicate Settled(ts: set<Target>, st: map<Target, nat>, sp: map<Target, nat>, i: nat, stopped: seq<Target>)
    requires st.Keys == ts && sp.Keys == ts
  {
    && Distinct(stopped)
    && (forall t | t in stopped :: t in ts && sp[t] < i)
    && (forall t | t in ts && sp[t] < i :: t in stopped && st[t] < sp[t])
  }

  lemma SettledStep(ts: set<Target>, st: map<Target, nat>, sp: map<Target, nat>, i: nat, stopped: seq<Target>, t: Target)
    requires st.Keys == ts && sp.Keys == ts && Only(ts, st, sp, i, t)
    requires Settled(ts, st, sp, i, stopped)
    ensures sp[t] != i ==> Settled(ts, st, sp, i + 1, stopped)
    ensures st[t] < i == sp[t] ==> t !in stopped && Settled(ts, st, sp, i + 1, stopped + [t])
  {
    var more := stopped + [t];
    assert forall u :: u in more <==> u in stopped || u == t;
  }

  lemma SumSnoc(g: seq<real>, ts: set<Target>, us: seq<Target>, t: Target)
    ensures SumWeighted(g, ts, us + [t]) == SumWeighted(g, ts, us) + Weighted(g, ts, t)
  {
    assert (us + [t])[..|us|] == us;
  }

  /** The state of the sweep after i events, with the stopped targets in the order they stopped. */
  ghost predicate Inv(es: seq<Event>, g: seq<real>, ts: set<Target>, st: map<Target, nat>, sp: map<Target, nat>, i: nat,
                      running: map<Target, real>, clock: real, stopped: seq<Target>, total: real)
    requires IsSchedule(es, g, ts, st, sp) && i <= |es|
  {
    && Tracks(g, ts, st, sp, i, running, clock)
    && Settled(ts, st, sp, i, stopped)
    && total == SumWeighted(g, ts, stopped)
  }

  lemma EventFacts(es: seq<Event>, g: seq<real>, ts: set<Target>, st: map<Target, nat>, sp: map<Target, nat>, i: nat)
    requires IsSchedule(es, g, ts, st, sp) && i < |es|
    ensures es[i].target in ts && Only(ts, st, sp, i, es[i].target)
    ensures es[i].action.Start? ==> st[es[i].target] == i != sp[es[i].target]
    ensures es[i].action.Stop? ==> sp[es[i].target] == i != st[es[i].target]
    ensures g[i] == es[i].time == if es[i].action.Start? then es[i].target.start else es[i].target.end
  {
  }

  lemma StepOnStart(es: seq<Event>, g: seq<real>, ts: set<Target>, st: map<Target, nat>, sp: map<Target, nat>, i: nat,
                    running: map<Target, real>, clock: real, stopped: seq<Target>, total: real, clock': real)
    requires IsSchedule(es, g, ts, st, sp) && i < |es| && es[i].action == Start
    requires Inv(es, g, ts, st, sp, i, running, clock, stopped, total)
    requires clock' == Tick(clock, es[i].time - es[if i == 0 then 0 else i - 1].time, |running|)
    ensures Inv(es, g, ts, st, sp, i + 1, running[es[i].target := clock'], clock', stopped, total)
  {
    hide Sorted, Open, Only, Tracks, Settled, Ticked;
    var t := es[i].target;
    EventFacts(es, g, ts, st, sp, i);
    Advance(g, ts, st, sp, i, running, clock, es[i].time - es[if i == 0 then 0 else i - 1].time);
    SettledStep(ts, st, sp, i, stopped, t);
    StartStep(g, ts, st, sp, i, t, running, clock');
  }

  lemma StepOnStop(es: seq<Event>, g: seq<real>, ts: set<Target>, st: map<Target, nat>, sp: map<Target, nat>, i: nat,
                   running: map<Target, real>, clock: real, stopped: seq<Target>, total: real, clock': real)
    requires IsSchedule(es, g, ts, st, sp) && i < |es| && es[i].action == Stop
    requires Inv(es, g, ts, st, sp, i, running, clock, stopped, total)
    requires clock' == Tick(clock, es[i].time - es[if i == 0 then 0 else i - 1].time, |running|)
    ensures var t := es[i].target;
            && t in ts
            && (t in running <==> t.start <= t.end)
            && (t in running ==>
                  && t !in stopped
                  && clock' - running[t] == Weighted(g, ts, t)
                  && Inv(es, g, ts, st, sp, i + 1, running - {t}, clock', stopped + [t], total + clock' - running[t]))
  {
    hide Sorted, Open, Only, Tracks, Settled, Ticked;
    var t := es[i].target;
    EventFacts(es, g, ts, st, sp, i);
    Advance(g, ts, st, sp, i, running, clock, es[i].time - es[if i == 0 then 0 else i - 1].time);
    SettledStep(ts, st, sp, i, stopped, t);
    StopStep(g, ts, st, sp, i, t, running, clock');
    SumSnoc(g, ts, stopped, t);
  }

  lemma SweepBegins(es: seq<Event>, g: seq<real>, ts: set<Target>, st: map<Target, nat>, sp: map<Target, nat>)
    requires IsSchedule(es, g, ts, st, sp)
    ensures |g| == |es|
    ensures Inv(es, g, ts, st, sp, 0, map[], 0.0, [], 0.0)
  {
  }

  /** What a finished sweep has computed, said for every grid. */
  lemma Finish(es: seq<Event>, g: seq<real>, ts: set<Target>, st: map<Target, nat>, sp: map<Target, nat>,
               running: map<Target, real>, clock: real, stopped: seq<Target>, total: real)
    requires IsSchedule(es, g, ts, st, sp)
    requires Inv(es, g, ts, st, sp, |es|, running, clock, stopped, total)
    requires forall t | t in stopped :: t.weightedDuration == Weighted(g, ts, t)
    ensures running == map[]
    ensures forall t | t in ts :: t.start <= t.end
    ensures forall t, h | t in ts && Grid(h, ts) :: t.weightedDuration == Weighted(h, ts, t)
    ensures forall t | t in ts :: 0.0 <= t.weightedDuration <= t.Duration()
    ensures forall h | Grid(h, ts) :: total == Busy(h, ts)
  {
    hide Sorted;
    PlacedIsGrid(g, ts, st, sp);
    assert running.Keys == {};
    forall t, h | t in ts && Grid(h, ts) ensures t.weightedDuration == Weighted(h, ts, t) {
      WeightedGridFree(g, h, ts, t);
    }
    forall t | t in ts ensures 0.0 <= t.weightedDuration <= t.Duration() {
      WeightedBound(g, ts, t);
    }
    forall h | Grid(h, ts) ensures total == Busy(h, ts) {
      SameSum(g, h, ts, stopped);
      SharesAddUp(h, ts, stopped);
    }
  }

  /**
   The event loop. It fails with a KeyError exactly when some target ends before it starts; otherwise
   it sets every weighted duration to the integral, whatever grid is used to write the integral.
   */
  method Sweep(es: seq<Event>, ghost g: seq<real>, ghost ts: set<Target>, ghost st: map<Target, nat>, ghost sp: map<Target, nat>)
    returns (ok: bool, weightedTotal: real)
    requires IsSchedule(es, g, ts, st, sp) && es != []
    modifies ts`weightedDuration
    ensures ok <==> forall t | t in ts :: t.start <= t.end
    ensures ok ==> forall t, h | t in ts && Grid(h, ts) :: t.weightedDuration == Weighted(h, ts, t)
    ensures ok ==> forall t | t in ts :: 0.0 <= t.weightedDuration <= t.Duration()
    ensures ok ==> forall h | Grid(h, ts) :: weightedTotal == Busy(h, ts)
  {
    hide Sorted, IsSchedule, Inv;
    ghost var stopped: seq<Target> := [];
    weightedTotal := 0.0;
    var running: map<Target, real> := map[];
    var lastTime := es[0].time;
    var lastWeightedTime := 0.0;
    SweepBegins(es, g, ts, st, sp);
    for i := 0 to |es|
      invariant lastTime == es[if i == 0 then 0 else i - 1].time
      invariant Inv(es, g, ts, st, sp, i, running, lastWeightedTime, stopped, weightedTotal)
      invariant forall t | t in stopped :: t.weightedDuration == Weighted(g, ts, t)
    {
      var Event(time, action, target) := es[i];
      ghost var clock := lastWeightedTime;
      if |running| > 0 {
        lastWeightedTime := lastWeightedTime + Part(time - lastTime, |running|);
      }
      if action == Start {
        StepOnStart(es, g, ts, st, sp, i, running, clock, stopped, weightedTotal, lastWeightedTime);
        running := running[target := lastWeightedTime];
      } else {
        StepOnStop(es, g, ts, st, sp, i, running, clock, stopped, weightedTotal, lastWeightedTime);
        if target !in running {
          return false, weightedTotal;
        }
        var weightedDuration := lastWeightedTime - running[target];
        target.weightedDuration := weightedDuration;
        weightedTotal := weightedTotal + weightedDuration;
        running := running - {target};
        stopped := stopped + [target];
      }
      lastTime := time;
    }
    Finish(es, g, ts, st, sp, running, lastWeightedTime, stopped, weightedTotal);
    assert running == map[];
    ok := true;
  }

  lemma {:induction false} SameSum(g: seq<real>, h: seq<real>, ts: set<Target>, us: seq<Target>)
    requires Grid(g, ts) && Grid(h, ts) && forall t | t in us :: t in ts
    ensures SumWeighted(g, ts, us) == SumWeighted(h, ts, us)
  {
    if us != [] {
      SameSum(g, h, ts, us[..|us| - 1]);
      WeightedGridFree(g, h, ts, us[|us| - 1]);
    }
  }
}
