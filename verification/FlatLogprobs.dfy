// The flat log-probability container: a structure of arrays that stands for a list of dictionaries.
module PythonList {
  import opened Wrappers

  datatype Error = IndexError | ValueError

  /** The index that i denotes in a list of length n, counting from the end if it is negative. */
  function Normalize(i: int, n: nat): (r: Result<int, Error>)
    ensures r.Ok? ==> 0 <= r.value < n
    ensures r.Ok? <==> 0 <= i + n && i < n
  {
    if 0 <= i < n then Ok(i)
    else if i < 0 <= i + n then Ok(i + n)
    else Err(IndexError)
  }

  datatype Slice = Slice(start: Bound, stop: Bound, step: int)

  datatype Bound = Omitted | At(index: int)

  function Min(a: int, b: int): int { if a <= b then a else b }

  function Max(a: int, b: int): int { if a >= b then a else b }

  /** A bound of a slice, clamped to the list as Python does. */
  function Clamp(b: Bound, omitted: int, lower: int, upper: int, n: nat): int {
    match b
    case Omitted => omitted
    case At(i) => if i < 0 then Max(i + n, lower) else Min(i, upper)
  }

  function Range(start: int, stop: int, step: int): seq<int>
    requires step != 0
    decreases if step > 0 then stop - start else start - stop
  {
    if (step > 0 && start >= stop) || (step < 0 && start <= stop) then []
    else [start] + Range(start + step, stop, step)
  }

  /** The positions of a list of length n that a slice selects, in order. */
  function Positions(s: Slice, n: nat): seq<int>
    requires s.step != 0
  {
    if s.step > 0
    then Range(Clamp(s.start, 0, 0, n, n), Clamp(s.stop, n, 0, n, n), s.step)
    else Range(Clamp(s.start, n - 1, -1, n - 1, n), Clamp(s.stop, -1, -1, n - 1, n), s.step)
  }

  /** The positions lie in the list and go strictly up or strictly down. */
  ghost predicate Selects(ps: seq<int>, n: nat, up: bool) {
    && (forall i | 0 <= i < |ps| :: 0 <= ps[i] < n)
    && forall i, j | 0 <= i < j < |ps| :: if up then ps[i] < ps[j] else ps[i] > ps[j]
  }

  lemma {:induction false} RangeSelects(start: int, stop: int, step: int, n: nat)
    requires step != 0
    requires if step > 0 then 0 <= start && stop <= n else start < n && -1 <= stop
    ensures Selects(Range(start, stop, step), n, step > 0)
    ensures var ps := Range(start, stop, step);
            forall i | 0 <= i < |ps| :: if step > 0 then start <= ps[i] else ps[i] <= start
    decreases if step > 0 then stop - start else start - stop
  {
    var rest := Range(start + step, stop, step);
    if step > 0 && start < stop {
      RangeSelects(start + step, stop, step, n);
      assert Range(start, stop, step) == [start] + rest;
      hide Range;
    } else if step < 0 && start > stop {
      RangeSelects(start + step, stop, step, n);
      assert Range(start, stop, step) == [start] + rest;
      hide Range;
    }
  }

  lemma PositionsSelect(s: Slice, n: nat)
    requires s.step != 0
    ensures Selects(Positions(s, n), n, s.step > 0)
  {
    if s.step > 0 {
      RangeSelects(Clamp(s.start, 0, 0, n, n), Clamp(s.stop, n, 0, n, n), s.step, n);
    } else {
      RangeSelects(Clamp(s.start, n - 1, -1, n - 1, n), Clamp(s.stop, -1, -1, n - 1, n), s.step, n);
    }
  }

  // ---------- which positions a slice selects ----------

  /** A bound as a position; a negative one counts from the end. It may lie outside the list. */
  function Counted(i: int, n: nat): int {
    if i < 0 then i + n else i
  }

  /** The position is in the list, not in front of the start and not at or behind the stop, as seen along the step. */
  predicate Between(s: Slice, n: nat, x: int) {
    && 0 <= x < n
    && (s.start.At? ==> var a := Counted(s.start.index, n); if s.step > 0 then a <= x else x <= a)
    && (s.stop.At? ==> var b := Counted(s.stop.index, n); if s.step > 0 then x < b else b < x)
  }

  /** The position at which the slice begins: none between the bounds comes before it. */
  ghost predicate IsFirst(s: Slice, n: nat, f: int) {
    Between(s, n, f) && forall y | Between(s, n, y) :: if s.step > 0 then f <= y else y <= f
  }

  lemma StepDown(y: int, step: int)
    requires step != 0
    ensures (y - step) % step == 0 <==> y % step == 0
    ensures y % step == 0 && (if step > 0 then 0 < y else y < 0) ==> if step > 0 then step <= y else y <= step
  {
    if y % step == 0 {
      NextMultiple(y, step, -1);
    }
    if (y - step) % step == 0 {
      NextMultiple(y - step, step, 1);
    }
  }

  lemma NextMultiple(y: int, step: int, k: int)
    requires step != 0 && y % step == 0
    ensures (y + step * k) % step == 0
    ensures y != 0 ==> if step > 0 then y <= -step || step <= y else y <= step || -step <= y
  {
    var q := y / step;
    assert y == step * q;
    assert y + step * k == step * (q + k);
    MultipleIs(step, q + k);
    Scaled(step, q);
  }

  lemma MultipleIs(step: int, q: int)
    requires step != 0
    ensures (step * q) % step == 0
  {
    var y := step * q;
    var k := q - y / step;
    assert y % step == step * k;
    Scaled(step, k);
  }

  lemma Scaled(step: int, k: int)
    requires step != 0
    ensures k == 0 ==> step * k == 0
    ensures k >= 1 ==> if step > 0 then step * k >= step else step * k <= step
    ensures k <= -1 ==> if step > 0 then step * k <= -step else step * k >= -step
  {
  }

  lemma {:induction false} RangeExact(start: int, stop: int, step: int, x: int)
    requires step != 0
    ensures x in Range(start, stop, step)
            <==> (if step > 0 then start <= x < stop else stop < x <= start) && (x - start) % step == 0
    decreases if step > 0 then stop - start else start - stop
  {
    if (step > 0 && start < stop) || (step < 0 && start > stop) {
      RangeExact(start + step, stop, step, x);
      StepDown(x - start, step);
      assert x - (start + step) == x - start - step;
    }
  }

  /**
   A slice selects the positions between its bounds whose distance to the first of them is a multiple of the step.
   Together with their order this fixes the selection.
   */
  lemma PositionsExact(s: Slice, n: nat, x: int)
    requires s.step != 0
    ensures x in Positions(s, n)
            <==> Between(s, n, x) && exists f :: IsFirst(s, n, f) && (x - f) % s.step == 0
  {
    var lo, hi := SliceBounds(s, n);
    RangeExact(lo, hi, s.step, x);
    assert forall y :: Between(s, n, y) <==> if s.step > 0 then lo <= y < hi else hi < y <= lo;
    hide Range;
    if Between(s, n, x) {
      assert IsFirst(s, n, lo);
      assert forall f | IsFirst(s, n, f) :: f == lo;
    }
  }

  lemma SliceBounds(s: Slice, n: nat) returns (lo: int, hi: int)
    requires s.step != 0
    ensures Positions(s, n) == Range(lo, hi, s.step)
    ensures forall y :: Between(s, n, y) <==> if s.step > 0 then lo <= y < hi else hi < y <= lo
  {
    lo := if s.step > 0 then Clamp(s.start, 0, 0, n, n) else Clamp(s.start, n - 1, -1, n - 1, n);
    hi := if s.step > 0 then Clamp(s.stop, n, 0, n, n) else Clamp(s.stop, -1, -1, n - 1, n);
  }

  function Select<T>(xs: seq<T>, ps: seq<int>): (r: seq<T>)
    requires forall i | 0 <= i < |ps| :: 0 <= ps[i] < |xs|
    ensures |r| == |ps|
  {
    seq(|ps|, i requires 0 <= i < |ps| => xs[ps[i]])
  }

  /** The slice [-k:] for a k up to the length. */
  predicate LastOnes(s: Slice, n: nat) {
    s.step == 1 && s.start.At? && 0 <= s.start.index + n && s.start.index < 0 && s.stop == Omitted
  }

  /** The slice [a:b] for bounds inside the list. */
  predicate Stretch(s: Slice, n: nat) {
    s.step == 1 && s.start.At? && s.stop.At? && 0 <= s.start.index < s.stop.index <= n
  }

  /** With step one a slice selects a stretch of the list. */
  lemma StretchPositions<T>(xs: seq<T>, s: Slice, lo: nat, hi: nat)
    requires s.step == 1 && lo <= hi <= |xs|
    requires s.start == At(lo) || (lo < |xs| && s.start == At(lo - |xs|)) || (lo == 0 && s.start == Omitted)
    requires s.stop == At(hi) || (hi < |xs| && s.stop == At(hi - |xs|)) || (hi == |xs| && s.stop == Omitted)
    ensures var ps := Positions(s, |xs|);
            (forall i | 0 <= i < |ps| :: 0 <= ps[i] < |xs|) && Select(xs, ps) == xs[lo..hi]
  {
    RangeByOne(lo, hi);
    PositionsSelect(s, |xs|);
    assert Positions(s, |xs|) == Range(lo, hi, 1);
  }

  lemma {:induction false} RangeByOne(lo: int, hi: int)
    requires lo <= hi
    ensures var ps := Range(lo, hi, 1); |ps| == hi - lo && forall i | 0 <= i < |ps| :: ps[i] == lo + i
    decreases hi - lo
  {
    if lo < hi {
      RangeByOne(lo + 1, hi);
    }
  }

  /** xs[lo:hi] for bounds inside the list: empty if they are the wrong way round. */
  function Cut<T>(xs: seq<T>, lo: int, hi: int): seq<T>
    requires 0 <= lo <= |xs| && 0 <= hi <= |xs|
  {
    if lo <= hi then xs[lo..hi] else []
  }
}

module FlatLogprobsSpec {
  import opened Wrappers
  import opened LogprobDict
  import opened PythonList

  datatype Columns = Columns(starts: seq<int>, ends: seq<int>, tokenIds: seq<int>, logprobs: seq<real>,
                             ranks: seq<Option<int>>, decodedTokens: seq<Option<string>>)

  ghost predicate SameLength(c: Columns) {
    && |c.starts| == |c.ends|
    && |c.tokenIds| == |c.logprobs| == |c.ranks| == |c.decodedTokens|
  }

  /** Every position has its stretch of the columns, and the stretches follow each other. */
  ghost predicate WellFormed(c: Columns) {
    && SameLength(c)
    && (forall i | 0 <= i < |c.starts| :: 0 <= c.starts[i] <= c.ends[i] <= |c.tokenIds|)
    && forall i, j | 0 <= i < j < |c.starts| :: c.ends[i] <= c.starts[j]
  }

  function EntryAt(c: Columns, i: nat): Entry
    requires SameLength(c) && i < |c.tokenIds|
  {
    Entry(c.tokenIds[i], Logprob(c.logprobs[i], c.ranks[i], c.decodedTokens[i]))
  }

  function Entries(c: Columns): (es: seq<Entry>)
    requires SameLength(c)
    ensures |es| == |c.tokenIds|
  {
    seq(|c.tokenIds|, i requires 0 <= i < |c.tokenIds| => EntryAt(c, i))
  }

  /** The entries at the indices from lo up to hi, read one by one as Python would. */
  ghost function Read(c: Columns, lo: int, hi: int): Result<seq<Entry>, Error>
    requires SameLength(c)
  {
    if lo >= hi then Ok([])
    else if -|c.tokenIds| <= lo && hi <= |c.tokenIds| then
      Ok(seq(hi - lo, k requires 0 <= k < hi - lo =>
                        EntryAt(c, if lo + k < 0 then lo + k + |c.tokenIds| else lo + k)))
    else Err(IndexError)
  }

  lemma ReadNone(c: Columns, lo: int, hi: int)
    requires SameLength(c) && lo >= hi
    ensures Read(c, lo, hi) == Ok([]) && FromEntries([]) == []
  {
  }

  lemma ReadFails(c: Columns, lo: int, hi: int, i: int)
    requires SameLength(c) && lo <= i < hi && Normalize(i, |c.tokenIds|).Err?
    ensures Read(c, lo, hi) == Err(IndexError)
  {
  }

  lemma ReadStep(c: Columns, lo: int, i: int, e: Entry)
    requires SameLength(c) && lo <= i && Read(c, lo, i).Ok? && 0 <= i + |c.tokenIds| && i < |c.tokenIds|
    requires lo < i ==> -|c.tokenIds| <= lo
    requires e == EntryAt(c, if i < 0 then i + |c.tokenIds| else i)
    ensures Read(c, lo, i + 1).Ok?
    ensures FromEntries(Read(c, lo, i + 1).value) == Put(FromEntries(Read(c, lo, i).value), e)
  {
    var es, es' := Read(c, lo, i).value, Read(c, lo, i + 1).value;
    assert es'[..|es'| - 1] == es && es'[|es'| - 1] == e;
  }

  /** Reading position k. */
  ghost function GetPosition(c: Columns, k: nat): Result<Dict, Error>
    requires SameLength(c) && k < |c.starts|
  {
    match Read(c, c.starts[k], c.ends[k])
    case Ok(es) => Ok(FromEntries(es))
    case Err(e) => Err(e)
  }

  ghost function DictAt(c: Columns, k: nat): Dict
    requires WellFormed(c) && k < |c.starts|
  {
    FromEntries(Entries(c)[c.starts[k]..c.ends[k]])
  }

  /** The list of dictionaries that the columns stand for. */
  ghost function View(c: Columns): (v: seq<Dict>)
    requires WellFormed(c)
    ensures |v| == |c.starts|
  {
    seq(|c.starts|, k requires 0 <= k < |c.starts| => DictAt(c, k))
  }

  lemma GetPositionReadsView(c: Columns, k: nat)
    requires WellFormed(c) && k < |c.starts|
    ensures GetPosition(c, k) == Ok(View(c)[k])
  {
    var lo, hi := c.starts[k], c.ends[k];
    if lo < hi {
      assert Read(c, lo, hi).value == Entries(c)[lo..hi];
    } else {
      assert Entries(c)[lo..hi] == [];
    }
  }

  lemma ViewIsDicts(c: Columns, k: nat)
    requires WellFormed(c) && k < |c.starts|
    ensures IsDict(View(c)[k])
  {
    FromEntriesIsDict(Entries(c)[c.starts[k]..c.ends[k]]);
  }

  // ---------- appending ----------

  function Ids(es: seq<Entry>): seq<int> {
    seq(|es|, i requires 0 <= i < |es| => es[i].tokenId)
  }

  function Probs(es: seq<Entry>): seq<real> {
    seq(|es|, i requires 0 <= i < |es| => es[i].info.logprob)
  }

  function RanksOf(es: seq<Entry>): seq<Option<int>> {
    seq(|es|, i requires 0 <= i < |es| => es[i].info.rank)
  }

  function TokensOf(es: seq<Entry>): seq<Option<string>> {
    seq(|es|, i requires 0 <= i < |es| => es[i].info.decodedToken)
  }

  /** The columns with the entries added at the end, before the end of their position is recorded. */
  function Pushed(c: Columns, es: seq<Entry>): Columns {
    c.(tokenIds := c.tokenIds + Ids(es), logprobs := c.logprobs + Probs(es),
       ranks := c.ranks + RanksOf(es), decodedTokens := c.decodedTokens + TokensOf(es))
  }

  /** The columns with one more position, which holds the entries. */
  function Appended(c: Columns, es: seq<Entry>): Columns {
    Pushed(c, es).(starts := c.starts + [|c.logprobs|], ends := c.ends + [|c.logprobs| + |es|])
  }

  lemma PushedStep(c: Columns, es: seq<Entry>, i: nat)
    requires i < |es|
    ensures Pushed(Pushed(c, es[..i]), [es[i]]) == Pushed(c, es[..i + 1])
  {
    assert Ids(es[..i + 1]) == Ids(es[..i]) + Ids([es[i]]);
    assert Probs(es[..i + 1]) == Probs(es[..i]) + Probs([es[i]]);
    assert RanksOf(es[..i + 1]) == RanksOf(es[..i]) + RanksOf([es[i]]);
    assert TokensOf(es[..i + 1]) == TokensOf(es[..i]) + TokensOf([es[i]]);
  }

  lemma AppendedIsPushed(c: Columns, es: seq<Entry>)
    ensures var n := |c.logprobs|;
            var p := Pushed(c.(starts := c.starts + [n]), es);
            p.(ends := p.ends + [|p.logprobs|]) == Appended(c, es)
  {
  }

  lemma PushedNone(c: Columns)
    ensures Pushed(c, []) == c
  {
  }

  lemma AppendedEntries(c: Columns, es: seq<Entry>)
    requires SameLength(c)
    ensures SameLength(Appended(c, es)) && Entries(Appended(c, es)) == Entries(c) + es
  {
  }

  /** Appending entries appends the dictionary that they build. */
  lemma AppendedView(c: Columns, es: seq<Entry>)
    requires WellFormed(c)
    ensures WellFormed(Appended(c, es)) && View(Appended(c, es)) == View(c) + [FromEntries(es)]
  {
    var c', n := Appended(c, es), |c.starts|;
    AppendedEntries(c, es);
    forall k | 0 <= k < n ensures DictAt(c', k) == DictAt(c, k) {
      assert Entries(c')[c'.starts[k]..c'.ends[k]] == Entries(c)[c.starts[k]..c.ends[k]];
    }
    assert Entries(c')[c'.starts[n]..c'.ends[n]] == es;
  }

  // ---------- slices ----------

  ghost predicate InRange(c: Columns, ps: seq<int>) {
    forall i | 0 <= i < |ps| :: 0 <= ps[i] < |c.starts|
  }

  function Shift(xs: seq<int>, offset: int): (r: seq<int>)
    ensures |r| == |xs|
  {
    seq(|xs|, i requires 0 <= i < |xs| => xs[i] - offset)
  }

  /** The columns of a slice: the selected bounds, and the stretch from the first selected start to the last end. */
  ghost function Sliced(c: Columns, ps: seq<int>): Columns
    requires WellFormed(c) && ps != [] && InRange(c, ps)
  {
    var lo, hi := c.starts[ps[0]], c.ends[ps[|ps| - 1]];
    Columns(Shift(Select(c.starts, ps), lo), Shift(Select(c.ends, ps), lo),
            Cut(c.tokenIds, lo, hi), Cut(c.logprobs, lo, hi), Cut(c.ranks, lo, hi), Cut(c.decodedTokens, lo, hi))
  }

  /** Reading the slice position by position is reading the selected positions of the list. */
  ghost predicate ReadsLikeList(c: Columns, ps: seq<int>)
    requires WellFormed(c) && ps != [] && InRange(c, ps)
  {
    forall k | 0 <= k < |ps| :: GetPosition(Sliced(c, ps), k) == Ok(View(c)[ps[k]])
  }

  lemma SlicedEntries(c: Columns, ps: seq<int>)
    requires WellFormed(c) && ps != [] && InRange(c, ps) && c.starts[ps[0]] <= c.ends[ps[|ps| - 1]]
    ensures SameLength(Sliced(c, ps))
    ensures Entries(Sliced(c, ps)) == Entries(c)[c.starts[ps[0]]..c.ends[ps[|ps| - 1]]]
  {
  }

  lemma AscendingWellFormed(c: Columns, ps: seq<int>)
    requires WellFormed(c) && ps != [] && Selects(ps, |c.starts|, true)
    ensures WellFormed(Sliced(c, ps))
  {
    var d, lo, hi := Sliced(c, ps), c.starts[ps[0]], c.ends[ps[|ps| - 1]];
    StretchInside(c, ps, 0);
    forall k | 0 <= k < |ps| ensures 0 <= d.starts[k] <= d.ends[k] <= |d.tokenIds| {
      StretchInside(c, ps, k);
    }
    forall i, j | 0 <= i < j < |ps| ensures d.ends[i] <= d.starts[j] {
      assert c.ends[ps[i]] <= c.starts[ps[j]];
    }
  }

  /** With a positive step the slice is a well-formed container for the selected part of the list. */
  lemma AscendingSlice(c: Columns, ps: seq<int>)
    requires WellFormed(c) && ps != [] && Selects(ps, |c.starts|, true)
    ensures WellFormed(Sliced(c, ps)) && View(Sliced(c, ps)) == Select(View(c), ps)
  {
    AscendingWellFormed(c, ps);
    var d := Sliced(c, ps);
    forall k | 0 <= k < |ps| ensures DictAt(d, k) == DictAt(c, ps[k]) {
      SlicedDict(c, ps, k);
    }
  }

  lemma SlicedDict(c: Columns, ps: seq<int>, k: nat)
    requires WellFormed(c) && Selects(ps, |c.starts|, true) && k < |ps| && WellFormed(Sliced(c, ps))
    ensures DictAt(Sliced(c, ps), k) == DictAt(c, ps[k])
  {
    StretchInside(c, ps, k);
    SlicedEntries(c, ps);
    var d, es, lo, hi := Sliced(c, ps), Entries(c), c.starts[ps[0]], c.ends[ps[|ps| - 1]];
    assert d.starts[k] == c.starts[ps[k]] - lo && d.ends[k] == c.ends[ps[k]] - lo;
    hide Sliced, Entries, FromEntries;
    SliceOfSlice(es, lo, hi, c.starts[ps[k]], c.ends[ps[k]]);
  }

  lemma SliceOfSlice<T>(s: seq<T>, lo: nat, hi: nat, from: nat, to: nat)
    requires lo <= from <= to <= hi <= |s|
    ensures s[lo..hi][from - lo..to - lo] == s[from..to]
  {
    var m := s[lo..hi];
    var x, y := m[from - lo..to - lo], s[from..to];
    forall i | 0 <= i < to - from ensures x[i] == y[i] {
      assert x[i] == m[from - lo + i] == s[lo + (from - lo + i)] && y[i] == s[from + i];
    }
  }

  lemma StretchInside(c: Columns, ps: seq<int>, k: nat)
    requires WellFormed(c) && Selects(ps, |c.starts|, true) && k < |ps|
    ensures c.starts[ps[0]] <= c.starts[ps[k]] <= c.ends[ps[k]] <= c.ends[ps[|ps| - 1]]
  {
    var n := |ps| - 1;
    assert k == 0 || c.ends[ps[0]] <= c.starts[ps[k]];
    assert k == n || c.ends[ps[k]] <= c.starts[ps[n]];
  }

  /** With two or more positions in descending order, no entries are kept. */
  lemma DescendingSlice(c: Columns, ps: seq<int>)
    requires WellFormed(c) && |ps| >= 2 && Selects(ps, |c.starts|, false)
    ensures ReadsLikeList(c, ps) <==> forall k | 0 <= k < |ps| :: c.starts[ps[k]] == c.ends[ps[k]]
  {
    var d, n := Sliced(c, ps), |ps| - 1;
    assert c.ends[ps[n]] <= c.starts[ps[0]];
    assert d.tokenIds == [];
    forall k | 0 <= k < |ps|
      ensures GetPosition(d, k) == Ok(View(c)[ps[k]]) <==> c.starts[ps[k]] == c.ends[ps[k]]
    {
      if c.starts[ps[k]] == c.ends[ps[k]] {
        assert Entries(c)[c.starts[ps[k]]..c.ends[ps[k]]] == [];
      }
    }
  }

  /**
   A non-empty slice reads like the slice of the list if and only if its step is positive, or it selects a
   single position, or all the positions that it selects are empty.
   */
  lemma SliceExact(c: Columns, s: Slice)
    requires WellFormed(c) && s.step != 0 && Positions(s, |c.starts|) != []
    ensures var ps := Positions(s, |c.starts|);
            && InRange(c, ps)
            && (ReadsLikeList(c, ps)
                <==> s.step > 0 || |ps| == 1 || forall k | 0 <= k < |ps| :: c.starts[ps[k]] == c.ends[ps[k]])
  {
    var ps := Positions(s, |c.starts|);
    PositionsSelect(s, |c.starts|);
    if s.step > 0 || |ps| == 1 {
      AscendingSlice(c, ps);
      forall k | 0 <= k < |ps| ensures GetPosition(Sliced(c, ps), k) == Ok(View(c)[ps[k]]) {
        GetPositionReadsView(Sliced(c, ps), k);
      }
    } else {
      DescendingSlice(c, ps);
    }
  }

  /** Two positions of one entry each, read backwards. */
  lemma ReversedSlice() returns (c: Columns)
    ensures WellFormed(c) && |c.starts| == 2 && Positions(Slice(Omitted, Omitted, -1), 2) == [1, 0]
    ensures InRange(c, [1, 0]) && !ReadsLikeList(c, [1, 0])
  {
    c := Columns([0, 1], [1, 2], [5, 6], [0.0, 0.0], [None, None], [None, None]);
    var s := Slice(Omitted, Omitted, -1);
    assert Range(-1, -1, -1) == [] && Range(0, -1, -1) == [0] && Range(1, -1, -1) == [1, 0];
    SliceExact(c, s);
    assert Positions(s, |c.starts|)[0] == 1;
  }
}

module FlatLogprobs {
  import opened Wrappers
  import opened LogprobDict
  import opened PythonList
  import opened FlatLogprobsSpec

  class FlatLogprobs {
    var startIndices: seq<int>
    var endIndices: seq<int>
    var tokenIds: seq<int>
    var logprobs: seq<real>
    var ranks: seq<Option<int>>
    var decodedTokens: seq<Option<string>>

    function Cols(): Columns
      reads this
    {
      Columns(startIndices, endIndices, tokenIds, logprobs, ranks, decodedTokens)
    }

    ghost predicate Valid()
      reads this
    {
      WellFormed(Cols())
    }

    ghost function Contents(): seq<Dict>
      requires Valid()
      reads this
    {
      View(Cols())
    }

    constructor ()
      ensures Cols() == Columns([], [], [], [], [], []) && Valid() && Contents() == []
    {
      startIndices, endIndices, tokenIds, logprobs, ranks, decodedTokens := [], [], [], [], [], [];
    }

    constructor Of(c: Columns)
      ensures Cols() == c
    {
      startIndices, endIndices, tokenIds := c.starts, c.ends, c.tokenIds;
      logprobs, ranks, decodedTokens := c.logprobs, c.ranks, c.decodedTokens;
    }

    method Push(e: Entry)
      modifies this
      ensures Cols() == Pushed(old(Cols()), [e])
    {
      tokenIds := tokenIds + [e.tokenId];
      logprobs := logprobs + [e.info.logprob];
      ranks := ranks + [e.info.rank];
      decodedTokens := decodedTokens + [e.info.decodedToken];
      assert Ids([e]) == [e.tokenId] && Probs([e]) == [e.info.logprob];
      assert RanksOf([e]) == [e.info.rank] && TokensOf([e]) == [e.info.decodedToken];
    }

    /** Appends a dictionary; None counts as the empty one. */
    method Append(d: Option<Dict>)
      requires Valid() && IsDict(OrEmpty(d))
      modifies this
      ensures Cols() == Appended(old(Cols()), OrEmpty(d))
      ensures Valid() && Contents() == old(Contents()) + [OrEmpty(d)]
    {
      AppendedView(Cols(), OrEmpty(d));
      FromEntriesOfDict(OrEmpty(d));
      AppendedIsPushed(Cols(), OrEmpty(d));
      hide View, FromEntries, IsDict, WellFormed, Pushed, Appended;
      startIndices := startIndices + [|logprobs|];
      ghost var c := Cols();
      PushedNone(c);
      if d.Some? && d.value != [] {
        for i := 0 to |d.value|
          invariant Cols() == Pushed(c, d.value[..i])
        {
          PushedStep(c, d.value, i);
          Push(d.value[i]);
        }
        assert d.value[..|d.value|] == d.value;
      }
      endIndices := endIndices + [|logprobs|];
    }

    /** Appends the dictionary that the zipped lists would build, without building it. */
    method AppendFast(ids: seq<int>, probs: seq<real>, rankings: seq<int>, tokens: seq<Option<string>>)
      requires Valid()
      modifies this
      ensures Cols() == Appended(old(Cols()), Zip(ids, probs, rankings, tokens))
      ensures Valid() && Contents() == old(Contents()) + [FromEntries(Zip(ids, probs, rankings, tokens))]
    {
      var es := Zip(ids, probs, rankings, tokens);
      AppendedView(Cols(), es);
      AppendedIsPushed(Cols(), es);
      hide View, FromEntries, WellFormed, Pushed, Appended;
      startIndices := startIndices + [|logprobs|];
      ghost var c := Cols();
      PushedNone(c);
      for i := 0 to |es|
        invariant Cols() == Pushed(c, es[..i])
      {
        PushedStep(c, es, i);
        Push(es[i]);
      }
      assert es[..|es|] == es;
      endIndices := endIndices + [|logprobs|];
    }

    method Extend(ds: seq<Option<Dict>>)
      requires Valid() && forall d | d in ds :: IsDict(OrEmpty(d))
      modifies this
      ensures Valid() && Contents() == old(Contents()) + AllOrEmpty(ds)
    {
      for i := 0 to |ds|
        invariant Valid() && Contents() == old(Contents()) + AllOrEmpty(ds[..i])
      {
        Append(ds[i]);
        assert AllOrEmpty(ds[..i + 1]) == AllOrEmpty(ds[..i]) + [OrEmpty(ds[i])];
      }
      assert ds[..|ds|] == ds;
    }

    /** Extending with another container, or with this one itself. */
    method ExtendFlat(other: FlatLogprobs)
      requires Valid() && other.Valid()
      modifies this
      ensures Valid() && Contents() == old(Contents()) + old(other.Contents())
    {
      hide View, FromEntries, IsDict;
      ghost var mine, theirs := Contents(), other.Contents();
      for i := 0 to |other.startIndices|
        invariant Valid() && Contents() == mine + theirs[..i]
        invariant other.Valid() && |other.Contents()| >= |theirs| && other.Contents()[..|theirs|] == theirs
      {
        var d := other.GetItem(i);
        ViewIsDicts(other.Cols(), i);
        assert d == Ok(theirs[i]) by { assert theirs[i] == other.Contents()[..|theirs|][i]; }
        Append(Some(d.value));
        assert theirs[..i + 1] == theirs[..i] + [theirs[i]];
      }
      assert theirs[..|theirs|] == theirs;
    }

    method Len() returns (n: nat)
      requires Valid()
      ensures n == |Contents()|
    {
      n := |startIndices|;
    }

    /** Reads one position by its index, which may count from the end. */
    method GetItem(index: int) returns (r: Result<Dict, Error>)
      requires SameLength(Cols())
      ensures r == match Normalize(index, |startIndices|)
                   case Ok(k) => GetPosition(Cols(), k)
                   case Err(e) => Err(e)
      ensures Valid() && 0 <= index < |startIndices| ==> r == Ok(Contents()[index])
      ensures Valid() && index < 0 <= index + |startIndices| ==> r == Ok(Contents()[|startIndices| + index])
      ensures index >= |startIndices| || index + |startIndices| < 0 ==> r == Err(IndexError)
    {
      hide View, WellFormed, GetPosition;
      var position := Normalize(index, |startIndices|);
      if position.Err? {
        return Err(IndexError);
      }
      r := ReadPosition(position.value);
      if Valid() {
        GetPositionReadsView(Cols(), position.value);
      }
    }

    /** Reads the entries of a position one by one. */
    method ReadPosition(k: nat) returns (r: Result<Dict, Error>)
      requires SameLength(Cols()) && k < |startIndices|
      ensures r == GetPosition(Cols(), k)
    {
      var lo, hi := startIndices[k], endIndices[k];
      ReadNone(Cols(), lo, lo);
      hide Read, FromEntries, EntryAt, Put;
      var d: Dict := [];
      var i := lo;
      while i < hi
        invariant if lo < hi then lo <= i <= hi else i == lo
        invariant lo < i ==> -|tokenIds| <= lo && i <= |tokenIds|
        invariant Read(Cols(), lo, i).Ok? && d == FromEntries(Read(Cols(), lo, i).value)
        decreases hi - i
      {
        var at := Normalize(i, |tokenIds|);
        if at.Err? {
          ReadFails(Cols(), lo, hi, i);
          return Err(IndexError);
        }
        var e := EntryAt(Cols(), at.value);
        ReadStep(Cols(), lo, i, e);
        d := Put(d, e);
        i := i + 1;
      }
      if lo >= hi {
        ReadNone(Cols(), lo, hi);
      }
      r := Ok(d);
    }

    /** Cuts out a slice. It reads like the slice of the list exactly in the cases that SliceExact names. */
    method GetSlice(s: Slice) returns (r: Result<FlatLogprobs, Error>)
      requires Valid()
      ensures s.step == 0 ==> r == Err(ValueError)
      ensures s.step != 0 && Positions(s, |startIndices|) == [] ==> r == Err(IndexError)
      ensures s.step != 0 && Positions(s, |startIndices|) != [] ==>
                var ps := Positions(s, |startIndices|);
                && r.Ok? && fresh(r.value) && InRange(Cols(), ps) && r.value.Cols() == Sliced(Cols(), ps)
                && (s.step > 0 ==> r.value.Valid() && r.value.Contents() == Select(Contents(), ps))
      ensures LastOnes(s, |startIndices|) ==>
                r.Ok? && r.value.Valid() && r.value.Contents() == Contents()[|startIndices| + s.start.index..]
      ensures Stretch(s, |startIndices|) ==>
                r.Ok? && r.value.Valid() && r.value.Contents() == Contents()[s.start.index..s.stop.index]
    {
      if s.step == 0 {
        return Err(ValueError);
      }
      var ps := Positions(s, |startIndices|);
      PositionsSelect(s, |startIndices|);
      if ps == [] {
        return Err(IndexError);
      }
      var minIndex, maxIndex := startIndices[ps[0]], endIndices[ps[|ps| - 1]];
      var slice := new FlatLogprobs.Of(
        Columns(Shift(Select(startIndices, ps), minIndex), Shift(Select(endIndices, ps), minIndex),
                Cut(tokenIds, minIndex, maxIndex), Cut(logprobs, minIndex, maxIndex),
                Cut(ranks, minIndex, maxIndex), Cut(decodedTokens, minIndex, maxIndex)));
      if s.step > 0 {
        AscendingSlice(Cols(), ps);
      }
      r := Ok(slice);
      OneStretch(Contents(), s);
    }

    /** Iteration yields the dictionaries of the list in order. */
    method Iterate() returns (ds: seq<Dict>)
      requires Valid()
      ensures ds == Contents()
    {
      ds := [];
      for i := 0 to |startIndices|
        invariant ds == Contents()[..i]
      {
        var d := GetItem(i);
        assert Contents()[..i + 1] == Contents()[..i] + [Contents()[i]];
        ds := ds + [d.value];
      }
      assert Contents()[..|startIndices|] == Contents();
    }
  }

  lemma OneStretch(ds: seq<Dict>, s: Slice)
    requires s.step != 0
    ensures var ps := Positions(s, |ds|);
            && (forall i | 0 <= i < |ps| :: 0 <= ps[i] < |ds|)
            && (LastOnes(s, |ds|) ==> Select(ds, ps) == ds[|ds| + s.start.index..] && ps != [])
            && (Stretch(s, |ds|) ==> Select(ds, ps) == ds[s.start.index..s.stop.index] && ps != [])
  {
    PositionsSelect(s, |ds|);
    hide Positions;
    if LastOnes(s, |ds|) {
      StretchPositions(ds, s, |ds| + s.start.index, |ds|);
    }
    if Stretch(s, |ds|) {
      StretchPositions(ds, s, s.start.index, s.stop.index);
    }
  }

  function AllOrEmpty(ds: seq<Option<Dict>>): seq<Dict> {
    seq(|ds|, i requires 0 <= i < |ds| => OrEmpty(ds[i]))
  }

  function Zip(ids: seq<int>, probs: seq<real>, rankings: seq<int>, tokens: seq<Option<string>>): seq<Entry> {
    var n := Min(Min(|ids|, |probs|), Min(|rankings|, |tokens|));
    seq(n, i requires 0 <= i < n => Entry(ids[i], Logprob(probs[i], Some(rankings[i]), tokens[i])))
  }

  /** As many entries as the shortest list has, each made of what the lists have at its place. */
  lemma ZipAt(ids: seq<int>, probs: seq<real>, rankings: seq<int>, tokens: seq<Option<string>>)
    ensures var es := Zip(ids, probs, rankings, tokens);
            && |es| <= |ids| && |es| <= |probs| && |es| <= |rankings| && |es| <= |tokens|
            && |es| in {|ids|, |probs|, |rankings|, |tokens|}
            && forall k | 0 <= k < |es| ::
                 es[k].tokenId == ids[k] && es[k].info.logprob == probs[k]
                 && es[k].info.rank == Some(rankings[k]) && es[k].info.decodedToken == tokens[k]
  {
  }

  // ---------- the list that the container replaces ----------

  class PlainList {
    var items: seq<Option<Dict>>

    constructor ()
      ensures items == []
    {
      items := [];
    }

    method Append(d: Option<Dict>)
      modifies this
      ensures items == old(items) + [d]
    {
      items := items + [d];
    }

    method Extend(ds: seq<Option<Dict>>)
      modifies this
      ensures items == old(items) + ds
    {
      items := items + ds;
    }
  }

  lemma AllOrEmptyConcat(xs: seq<Option<Dict>>, ys: seq<Option<Dict>>)
    ensures AllOrEmpty(xs + ys) == AllOrEmpty(xs) + AllOrEmpty(ys)
  {
  }

  /** The rank of the sampled token followed by the ranks from 1 up to n. */
  function RanksFor(rank: int, n: int): seq<int> {
    [rank] + seq(Max(n, 0), i => i + 1)
  }

  /** The zipped lists of the sampled token and the top tokens; -1 asks for as many ranks as there are logprobs. */
  function NextEntries(ids: seq<int>, probs: seq<real>, tokens: seq<Option<string>>, rank: int, numLogprobs: int)
    : seq<Entry>
  {
    Zip(ids, probs, RanksFor(rank, if numLogprobs == -1 then |probs| else numLogprobs), tokens)
  }

  /**
   The sampled token comes first with its own rank, and the k-th entry after it has rank k. There are as many entries
   as the shortest list has, but, unless all are asked for, at most one more than the number asked for.
   */
  ghost predicate IsNext(es: seq<Entry>, ids: seq<int>, probs: seq<real>, tokens: seq<Option<string>>, rank: int,
                         numLogprobs: int)
  {
    var asked := if numLogprobs < 0 then 1 else numLogprobs + 1;
    && |es| <= |ids| && |es| <= |probs| && |es| <= |tokens| && (numLogprobs != -1 ==> |es| <= asked)
    && (|es| in {|ids|, |probs|, |tokens|} || (numLogprobs != -1 && |es| == asked))
    && forall k | 0 <= k < |es| ::
         es[k] == Entry(ids[k], Logprob(probs[k], Some(if k == 0 then rank else k), tokens[k]))
  }

  /** The entries of the next position are the only ones of this kind. */
  lemma NextEntriesExact(es: seq<Entry>, ids: seq<int>, probs: seq<real>, tokens: seq<Option<string>>, rank: int,
                         numLogprobs: int)
    ensures IsNext(es, ids, probs, tokens, rank, numLogprobs) <==> es == NextEntries(ids, probs, tokens, rank, numLogprobs)
  {
    var next := NextEntries(ids, probs, tokens, rank, numLogprobs);
    var ranks := RanksFor(rank, if numLogprobs == -1 then |probs| else numLogprobs);
    ZipAt(ids, probs, ranks, tokens);
    RanksAt(rank, if numLogprobs == -1 then |probs| else numLogprobs);
    hide Zip, RanksFor;
    assert IsNext(next, ids, probs, tokens, rank, numLogprobs);
  }

  lemma RanksAt(rank: int, n: int)
    ensures var ranks := RanksFor(rank, n);
            && |ranks| == (if n < 0 then 1 else n + 1)
            && forall k | 0 <= k < |ranks| :: ranks[k] == if k == 0 then rank else k
  {
  }

  function NextDict(ids: seq<int>, probs: seq<real>, tokens: seq<Option<string>>, rank: int, numLogprobs: int): Dict {
    FromEntries(NextEntries(ids, probs, tokens, rank, numLogprobs))
  }

  datatype Container = Flat(flat: FlatLogprobs) | Plain(plain: PlainList)

  /** Either container gets the same dictionary for the next position. */
  method AppendLogprobsForNextPosition(c: Container, ids: seq<int>, probs: seq<real>, tokens: seq<Option<string>>,
                                       rank: int, numLogprobs: int)
    requires c.Flat? ==> c.flat.Valid()
    modifies if c.Flat? then {c.flat} else {}, if c.Plain? then {c.plain} else {}
    ensures var d := NextDict(ids, probs, tokens, rank, numLogprobs);
            if c.Flat? then c.flat.Valid() && c.flat.Contents() == old(c.flat.Contents()) + [d]
            else c.plain.items == old(c.plain.items) + [Some(d)]
  {
    var n := if numLogprobs == -1 then |probs| else numLogprobs;
    var ranks := RanksFor(rank, n);
    match c
    case Flat(flat) => flat.AppendFast(ids, probs, ranks, tokens);
    case Plain(plain) => plain.Append(Some(FromEntries(Zip(ids, probs, ranks, tokens))));
  }

  datatype Operation =
    | Append(d: Option<Dict>)
    | Next(ids: seq<int>, probs: seq<real>, tokens: seq<Option<string>>, rank: int, numLogprobs: int)
    | Extend(ds: seq<Option<Dict>>)

  ghost predicate TakesDicts(op: Operation) {
    match op
    case Append(d) => IsDict(OrEmpty(d))
    case Next(_, _, _, _, _) => true
    case Extend(ds) => forall d | d in ds :: IsDict(OrEmpty(d))
  }

  /** Any run of the same operations leaves the two containers with the same dictionaries, None read as empty. */
  method RunBoth(flat: FlatLogprobs, plain: PlainList, ops: seq<Operation>)
    requires flat.Valid() && flat.Contents() == AllOrEmpty(plain.items)
    requires forall op | op in ops :: TakesDicts(op)
    modifies flat, plain
    ensures flat.Valid() && flat.Contents() == AllOrEmpty(plain.items)
  {
    hide View, WellFormed, FromEntries, IsDict;
    for i := 0 to |ops|
      invariant flat.Valid() && flat.Contents() == AllOrEmpty(plain.items)
    {
      assert TakesDicts(ops[i]);
      match ops[i]
      case Append(d) =>
        AllOrEmptyConcat(plain.items, [d]);
        flat.Append(d);
        plain.Append(d);
      case Next(ids, probs, tokens, rank, numLogprobs) =>
        AllOrEmptyConcat(plain.items, [Some(NextDict(ids, probs, tokens, rank, numLogprobs))]);
        AppendLogprobsForNextPosition(Flat(flat), ids, probs, tokens, rank, numLogprobs);
        AppendLogprobsForNextPosition(Plain(plain), ids, probs, tokens, rank, numLogprobs);
      case Extend(ds) =>
        AllOrEmptyConcat(plain.items, ds);
        flat.Extend(ds);
        plain.Extend(ds);
    }
  }
}
