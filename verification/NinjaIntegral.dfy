// What the weighted duration of a target means: the time of each slot of a grid of time stamps is shared out
// evenly among the targets that run in it. The sum does not depend on the grid.
module NinjaIntegral {
  import opened NinjaTarget

  /** The targets that run throughout the slot from a to b. */
  ghost function Running(ts: set<Target>, a: real, b: real): set<Target> {
    set t | t in ts && t.start <= a && b <= t.end
  }

  /** One of n equal parts of x. */
  function Part(x: real, n: nat): (p: real)
    requires n > 0
    ensures x == 0.0 ==> p == 0.0
  {
    x / n as real
  }

  /** What each running target gets of the slot from a to b. */
  ghost function Share(ts: set<Target>, a: real, b: real): real {
    var n := |Running(ts, a, b)|;
    if n == 0 then 0.0 else Part(b - a, n)
  }

  ghost function Slot(ts: set<Target>, t: Target, a: real, b: real): real {
    if t in Running(ts, a, b) then Share(ts, a, b) else 0.0
  }

  /** The integral of 1/(number running) over the part of grid g in which t runs. */
  ghost function Weighted(g: seq<real>, ts: set<Target>, t: Target): real {
    if |g| < 2 then 0.0
    else Weighted(g[..|g| - 1], ts, t) + Slot(ts, t, g[|g| - 2], g[|g| - 1])
  }

  /** The time on grid g during which at least one target runs. */
  ghost function Busy(g: seq<real>, ts: set<Target>): real {
    if |g| < 2 then 0.0
    else Busy(g[..|g| - 1], ts)
         + if Running(ts, g[|g| - 2], g[|g| - 1]) != {} then g[|g| - 1] - g[|g| - 2] else 0.0
  }

  /** The time on grid g during which nothing runs. */
  ghost function Idle(g: seq<real>, ts: set<Target>): real {
    if |g| < 2 then 0.0
    else Idle(g[..|g| - 1], ts)
         + if Running(ts, g[|g| - 2], g[|g| - 1]) == {} then g[|g| - 1] - g[|g| - 2] else 0.0
  }

  ghost predicate Sorted(g: seq<real>) {
    forall i, j | 0 <= i < j < |g| :: g[i] <= g[j]
  }

  /** A grid is any sorted list of time stamps in which every start and every end occurs. */
  ghost predicate Grid(g: seq<real>, ts: set<Target>) {
    Sorted(g) && forall t | t in ts :: t.start in g && t.end in g
  }

  // ---------- the integral does not depend on the grid ----------

  /** No target starts or ends strictly between a and b. */
  ghost predicate Apart(ts: set<Target>, a: real, b: real) {
    forall t | t in ts :: !(a < t.start < b) && !(a < t.end < b)
  }

  ghost predicate Fine(g: seq<real>, ts: set<Target>) {
    && Sorted(g)
    && forall i, j | 0 <= i < j < |g| && j == i + 1 :: Apart(ts, g[i], g[j])
  }

  lemma SortedAt(g: seq<real>, i: nat, j: nat)
    requires Sorted(g) && i <= j < |g|
    ensures g[i] <= g[j]
  {
  }

  lemma GridIsFine(g: seq<real>, ts: set<Target>)
    requires Grid(g, ts)
    ensures Fine(g, ts)
  {
  }

  lemma EmptySlot(ts: set<Target>, t: Target, a: real)
    ensures Slot(ts, t, a, a) == 0.0
  {
    hide Part;
  }

  /** A slot may be cut at any point without changing what a target gets of it. */
  lemma SlotSplit(ts: set<Target>, t: Target, a: real, x: real, b: real)
    requires a <= x <= b
    requires Apart(ts, a, b)
    ensures Slot(ts, t, a, x) + Slot(ts, t, x, b) == Slot(ts, t, a, b)
  {
    EmptySlot(ts, t, a);
    EmptySlot(ts, t, b);
    if a < x < b {
      assert Running(ts, a, x) == Running(ts, a, b);
      assert Running(ts, x, b) == Running(ts, a, b);
    }
  }

  ghost function Insert(g: seq<real>, x: real): (r: seq<real>)
    ensures |r| == |g| + 1
  {
    if g == [] || g[|g| - 1] <= x then g + [x]
    else Insert(g[..|g| - 1], x) + [g[|g| - 1]]
  }

  lemma {:induction false} InsertIsPermutation(g: seq<real>, x: real)
    ensures multiset(Insert(g, x)) == multiset(g) + multiset{x}
  {
    if g != [] && x < g[|g| - 1] {
      var p, b := g[..|g| - 1], g[|g| - 1];
      assert g == p + [b];
      InsertIsPermutation(p, x);
    }
  }

  lemma {:induction false} InsertIsSorted(g: seq<real>, x: real)
    requires Sorted(g)
    ensures Sorted(Insert(g, x))
  {
    if g != [] && x < g[|g| - 1] {
      var p, b := g[..|g| - 1], g[|g| - 1];
      InsertIsSorted(p, x);
      InsertIsPermutation(p, x);
      var q := Insert(p, x);
      forall i | 0 <= i < |q| ensures q[i] <= b {
        assert q[i] in multiset(p) + multiset{x};
      }
    }
  }

  lemma WeightedSnoc(p: seq<real>, b: real, ts: set<Target>, t: Target)
    requires p != []
    ensures Weighted(p + [b], ts, t) == Weighted(p, ts, t) + Slot(ts, t, p[|p| - 1], b)
  {
    assert (p + [b])[..|p|] == p;
  }

  lemma FinePrefix(g: seq<real>, ts: set<Target>)
    requires Fine(g, ts) && |g| >= 2
    ensures Fine(g[..|g| - 1], ts)
    ensures g[|g| - 2] <= g[|g| - 1] && Apart(ts, g[|g| - 2], g[|g| - 1])
  {
  }

  lemma InsertAtEnd(g: seq<real>, x: real, ts: set<Target>, t: Target)
    requires g != [] && g[|g| - 1] <= x
    requires forall u | u in ts && g[|g| - 1] < x :: u.end < x
    ensures Weighted(Insert(g, x), ts, t) == Weighted(g, ts, t)
  {
    WeightedSnoc(g, x, ts, t);
    EmptySlot(ts, t, x);
  }

  lemma InsertAtFront(b: real, x: real, ts: set<Target>, t: Target)
    requires x < b && forall u | u in ts :: b <= u.start
    ensures Weighted(Insert([b], x), ts, t) == 0.0
  {
    assert Insert([b], x) == [x] + [b];
    WeightedSnoc([x], b, ts, t);
  }

  lemma InsertBeforeLast(g: seq<real>, x: real, ts: set<Target>, t: Target)
    requires |g| >= 2 && g[|g| - 2] <= g[|g| - 1] && x < g[|g| - 1] && Apart(ts, g[|g| - 2], g[|g| - 1])
    requires x < g[|g| - 2] ==> Weighted(Insert(g[..|g| - 1], x), ts, t) == Weighted(g[..|g| - 1], ts, t)
    ensures Weighted(Insert(g, x), ts, t) == Weighted(g, ts, t)
  {
    var p, b := g[..|g| - 1], g[|g| - 1];
    WeightedSnoc(Insert(p, x), b, ts, t);
    if p[|p| - 1] <= x {
      WeightedSnoc(p, x, ts, t);
      SlotSplit(ts, t, p[|p| - 1], x, b);
    }
  }

  /** Adding a time stamp to a grid leaves the integral as it was. */
  lemma {:induction false} InsertKeepsWeighted(g: seq<real>, x: real, ts: set<Target>, t: Target)
    requires Fine(g, ts) && g != []
    requires forall u | u in ts :: g[0] <= u.start
    requires forall u | u in ts && g[|g| - 1] < x :: u.end < x
    ensures Weighted(Insert(g, x), ts, t) == Weighted(g, ts, t)
    decreases |g|
  {
    if g[|g| - 1] <= x {
      InsertAtEnd(g, x, ts, t);
    } else if |g| == 1 {
      assert g == [g[0]];
      InsertAtFront(g[0], x, ts, t);
    } else {
      FinePrefix(g, ts);
      if x < g[|g| - 2] {
        InsertKeepsWeighted(g[..|g| - 1], x, ts, t);
      }
      InsertBeforeLast(g, x, ts, t);
    }
  }

  ghost function InsertAll(g: seq<real>, h: seq<real>): seq<real> {
    if h == [] then g else Insert(InsertAll(g, h[..|h| - 1]), h[|h| - 1])
  }

  lemma {:induction false} InsertAllKeepsWeighted(g: seq<real>, h: seq<real>, ts: set<Target>, t: Target)
    requires Grid(g, ts) && t in ts
    ensures Grid(InsertAll(g, h), ts)
    ensures multiset(InsertAll(g, h)) == multiset(g) + multiset(h)
    ensures Weighted(InsertAll(g, h), ts, t) == Weighted(g, ts, t)
  {
    if h != [] {
      var p, x := h[..|h| - 1], h[|h| - 1];
      assert h == p + [x];
      InsertAllKeepsWeighted(g, p, ts, t);
      var k := InsertAll(g, p);
      InsertIsPermutation(k, x);
      InsertIsGrid(k, x, ts);
      GridBounds(k, ts);
      InsertKeepsWeighted(k, x, ts, t);
      hide Grid, Insert, Weighted, Fine;
    }
  }

  lemma InsertIsGrid(g: seq<real>, x: real, ts: set<Target>)
    requires Grid(g, ts)
    ensures Grid(Insert(g, x), ts)
  {
    InsertIsSorted(g, x);
    InsertIsPermutation(g, x);
    hide Insert, Sorted;
    forall y | y in g ensures y in Insert(g, x) {
      assert y in multiset(g);
      assert y in multiset(Insert(g, x));
    }
  }

  lemma GridBounds(g: seq<real>, ts: set<Target>)
    requires Grid(g, ts)
    ensures Fine(g, ts)
    ensures ts != {} ==> g != []
    ensures forall t | t in ts :: g[0] <= t.start && t.end <= g[|g| - 1]
  {
    GridIsFine(g, ts);
    if t :| t in ts {
      assert t.start in g;
    }
  }

  lemma LastIsGreatest(g: seq<real>, h: seq<real>)
    requires Sorted(g) && g != [] && h != [] && multiset(h) == multiset(g)
    ensures h[|h| - 1] <= g[|g| - 1]
  {
    assert h[|h| - 1] in multiset(h);
    assert h[|h| - 1] in g;
  }

  lemma DropLast(p: seq<real>, q: seq<real>, b: real)
    requires multiset(p + [b]) == multiset(q + [b])
    ensures multiset(p) == multiset(q)
  {
    assert multiset(p) == multiset(p + [b]) - multiset{b};
    assert multiset(q) == multiset(q + [b]) - multiset{b};
  }

  lemma {:induction false} SortedIsUnique(g: seq<real>, h: seq<real>)
    requires Sorted(g) && Sorted(h) && multiset(g) == multiset(h)
    ensures g == h
  {
    assert |g| == |multiset(g)| == |multiset(h)| == |h|;
    if g != [] {
      LastIsGreatest(g, h);
      LastIsGreatest(h, g);
      SortedPrefix(g);
      SortedPrefix(h);
      hide Sorted;
      var n := |g| - 1;
      assert g == g[..n] + [g[n]] && h == h[..n] + [g[n]];
      DropLast(g[..n], h[..n], g[n]);
      SortedIsUnique(g[..n], h[..n]);
    }
  }

  lemma SortedPrefix(g: seq<real>)
    requires Sorted(g) && g != []
    ensures Sorted(g[..|g| - 1])
  {
  }

  /** Any two grids give a target the same weighted duration. */
  lemma WeightedGridFree(g: seq<real>, h: seq<real>, ts: set<Target>, t: Target)
    requires Grid(g, ts) && Grid(h, ts) && t in ts
    ensures Weighted(g, ts, t) == Weighted(h, ts, t)
  {
    InsertAllKeepsWeighted(g, h, ts, t);
    InsertAllKeepsWeighted(h, g, ts, t);
    SortedIsUnique(InsertAll(g, h), InsertAll(h, g));
  }

  // ---------- bounds and conservation ----------

  /** A target's weighted duration is never negative and never more than its duration. */
  lemma {:induction false} WeightedPrefixBound(g: seq<real>, ts: set<Target>, t: Target)
    requires Sorted(g) && g != [] && t.start <= t.end
    ensures 0.0 <= Weighted(g, ts, t)
    ensures var last := g[|g| - 1];
            Weighted(g, ts, t) <= if last <= t.start then 0.0 else (if last <= t.end then last else t.end) - t.start
  {
    if |g| >= 2 {
      WeightedPrefixBound(g[..|g| - 1], ts, t);
      var a, b := g[|g| - 2], g[|g| - 1];
      var n := |Running(ts, a, b)|;
      if n != 0 {
        PartBound(b - a, n);
      }
    }
  }

  lemma PartBound(x: real, n: nat)
    requires x >= 0.0 && n >= 1
    ensures 0.0 <= Part(x, n) <= x
  {
    var q := Part(x, n);
    assert q * n as real == x;
    assert q >= 0.0;
    assert q * (n as real - 1.0) >= 0.0;
  }

  lemma WeightedBound(g: seq<real>, ts: set<Target>, t: Target)
    requires Grid(g, ts) && t in ts && t.start <= t.end
    ensures 0.0 <= Weighted(g, ts, t) <= t.Duration()
  {
    GridBounds(g, ts);
    WeightedPrefixBound(g, ts, t);
  }

  ghost function SumWeighted(g: seq<real>, ts: set<Target>, us: seq<Target>): real {
    if us == [] then 0.0
    else SumWeighted(g, ts, us[..|us| - 1]) + Weighted(g, ts, us[|us| - 1])
  }

  /** Conservation: the shares of all the targets add up to the time during which something runs. */
  lemma {:induction false} SharesAddUp(g: seq<real>, ts: set<Target>, us: seq<Target>)
    requires forall i, j | 0 <= i < j < |us| :: us[i] != us[j]
    requires forall t :: t in us <==> t in ts
    ensures SumWeighted(g, ts, us) == Busy(g, ts)
  {
    hide Part;
    if |g| < 2 {
      NothingToShare(g, ts, us);
    } else {
      var p, a, b := g[..|g| - 1], g[|g| - 2], g[|g| - 1];
      SharesAddUp(p, ts, us);
      SumSplitsLastSlot(g, ts, us);
      CountDistinct(us, Running(ts, a, b));
      SharesOfSlot(ts, a, b);
    }
  }

  lemma SharesOfSlot(ts: set<Target>, a: real, b: real)
    ensures var r := Running(ts, a, b);
            |r| as real * Share(ts, a, b) == if r != {} then b - a else 0.0
  {
    var n := |Running(ts, a, b)|;
    if n != 0 {
      assert n as real * Part(b - a, n) == b - a;
    }
  }

  lemma {:induction false} NothingToShare(g: seq<real>, ts: set<Target>, us: seq<Target>)
    requires |g| < 2
    ensures SumWeighted(g, ts, us) == 0.0
  {
    if us != [] {
      NothingToShare(g, ts, us[..|us| - 1]);
    }
  }

  ghost function Count(us: seq<Target>, r: set<Target>): nat {
    if us == [] then 0
    else Count(us[..|us| - 1], r) + if us[|us| - 1] in r then 1 else 0
  }

  lemma {:induction false} SumSplitsLastSlot(g: seq<real>, ts: set<Target>, us: seq<Target>)
    requires |g| >= 2
    ensures var a, b := g[|g| - 2], g[|g| - 1];
            SumWeighted(g, ts, us) == SumWeighted(g[..|g| - 1], ts, us)
                                      + Count(us, Running(ts, a, b)) as real * Share(ts, a, b)
  {
    hide Part;
    if us != [] {
      SumSplitsLastSlot(g, ts, us[..|us| - 1]);
      var a, b := g[|g| - 2], g[|g| - 1];
      var c, s := Count(us[..|us| - 1], Running(ts, a, b)) as real, Share(ts, a, b);
      assert (c + 1.0) * s == c * s + s;
    }
  }

  lemma {:induction false} CountDistinct(us: seq<Target>, r: set<Target>)
    requires forall i, j | 0 <= i < j < |us| :: us[i] != us[j]
    requires forall t | t in r :: t in us
    ensures Count(us, r) == |r|
  {
    if us != [] {
      var p, x := us[..|us| - 1], us[|us| - 1];
      assert us == p + [x] && x !in p;
      CountWithout(p, r, x);
      CountDistinct(p, r - {x});
    } else {
      assert r == {};
    }
  }

  lemma {:induction false} CountWithout(us: seq<Target>, r: set<Target>, x: Target)
    requires x !in us
    ensures Count(us, r - {x}) == Count(us, r)
  {
    if us != [] {
      CountWithout(us[..|us| - 1], r, x);
    }
  }

  /** A target gets nothing before it starts. */
  lemma {:induction false} NothingBefore(g: seq<real>, ts: set<Target>, t: Target, i: nat)
    requires Sorted(g) && i < |g| && g[i] <= t.start
    ensures Weighted(g[..i + 1], ts, t) == 0.0
  {
    if i > 0 {
      NothingBefore(g, ts, t, i - 1);
      WeightedAt(g, ts, t, i);
      EmptySlot(ts, t, g[i]);
    }
  }

  /** A target gets nothing after it ends. */
  lemma {:induction false} NothingAfter(g: seq<real>, ts: set<Target>, t: Target, s: nat, i: nat)
    requires Sorted(g) && s <= i < |g| && t.end <= g[s]
    ensures Weighted(g[..i + 1], ts, t) == Weighted(g[..s + 1], ts, t)
  {
    if i > s {
      NothingAfter(g, ts, t, s, i - 1);
      WeightedAt(g, ts, t, i);
      EmptySlot(ts, t, g[i]);
    }
  }

  lemma WeightedAt(g: seq<real>, ts: set<Target>, t: Target, i: nat)
    requires 0 < i < |g|
    ensures Weighted(g[..i + 1], ts, t) == Weighted(g[..i], ts, t) + Slot(ts, t, g[i - 1], g[i])
  {
    assert g[..i + 1] == g[..i] + [g[i]];
    WeightedSnoc(g[..i], g[i], ts, t);
  }

  lemma {:induction false} BusyAndIdle(g: seq<real>, ts: set<Target>)
    requires Sorted(g) && g != []
    ensures Busy(g, ts) + Idle(g, ts) == g[|g| - 1] - g[0]
    ensures Idle(g, ts) >= 0.0
  {
    if |g| >= 2 {
      BusyAndIdle(g[..|g| - 1], ts);
    }
  }

  lemma NothingMore(g: seq<real>, ts: set<Target>, t: Target, s: nat)
    requires Sorted(g) && s < |g| && t.end <= g[s]
    ensures Weighted(g[..s + 1], ts, t) == Weighted(g, ts, t)
  {
    NothingAfter(g, ts, t, s, |g| - 1);
    assert g[..|g| - 1 + 1] == g;
  }
}
