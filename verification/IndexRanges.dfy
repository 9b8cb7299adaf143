// Printing a list of indices as ranges such as "0-27, 29-47", and reading such text back.
module Numerals {
  import opened Wrappers

  predicate IsDigit(c: char) {
    '0' <= c <= '9'
  }

  function Digit(d: nat): char
    requires d < 10
  {
    '0' + d as char
  }

  function DigitValue(c: char): nat
    requires IsDigit(c)
  {
    (c - '0') as nat
  }

  function Digits(n: nat): (s: string)
    ensures s != [] && IsDigit(s[0])
  {
    if n < 10 then [Digit(n)] else Digits(n / 10) + [Digit(n % 10)]
  }

  /** The decimal text of an integer. */
  function Text(i: int): string {
    if i < 0 then "-" + Digits(-i) else Digits(i)
  }

  /** Reads digits as long as there are any. */
  function ReadDigits(s: string, acc: nat): (r: (nat, string))
    ensures |r.1| <= |s|
    ensures s != [] && IsDigit(s[0]) ==> |r.1| < |s|
  {
    if s != [] && IsDigit(s[0]) then ReadDigits(s[1..], acc * 10 + DigitValue(s[0])) else (acc, s)
  }

  /** Reads an integer at the front of a text, and returns the rest of it. */
  function ReadInt(s: string): (r: Option<(int, string)>)
    ensures r.Some? ==> |r.value.1| < |s|
  {
    if s != [] && IsDigit(s[0]) then
      var (n, rest) := ReadDigits(s, 0); Some((n, rest))
    else if |s| >= 2 && s[0] == '-' && IsDigit(s[1]) then
      var (n, rest) := ReadDigits(s[1..], 0);
      var i: int := 0 - n;
      Some((i, rest))
    else None
  }

  lemma {:induction false} ReadDigitsOfDigits(n: nat, rest: string)
    ensures ReadDigits(Digits(n) + rest, 0) == ReadDigits(rest, n)
  {
    if n < 10 {
      assert ([Digit(n)] + rest)[1..] == rest;
    } else {
      var d := [Digit(n % 10)];
      assert Digits(n) + rest == Digits(n / 10) + (d + rest);
      ReadDigitsOfDigits(n / 10, d + rest);
      assert (d + rest)[1..] == rest;
    }
  }

  lemma DigitsRead(n: nat, rest: string)
    requires rest == [] || !IsDigit(rest[0])
    ensures ReadDigits(Digits(n) + rest, 0) == (n, rest)
  {
    ReadDigitsOfDigits(n, rest);
    hide Digits;
  }

  /** The text of an integer, followed by anything but a digit, reads back as the integer. */
  lemma ReadIntOfText(i: int, rest: string)
    requires rest == [] || !IsDigit(rest[0])
    ensures ReadInt(Text(i) + rest) == Some((i, rest))
  {
    hide Digits, ReadDigits;
    if i < 0 {
      DigitsRead(-i, rest);
      var s := Text(i) + rest;
      assert s[0] == '-' && s[1..] == Digits(-i) + rest && s[1] == Digits(-i)[0];
    } else {
      DigitsRead(i, rest);
      assert (Digits(i) + rest)[0] == Digits(i)[0];
    }
  }
}

module IndexRanges {
  import opened Wrappers
  import opened Sequences
  import opened Numerals

  /** All the indices from first to last. */
  datatype Range = Range(first: int, last: int)

  function Interval(first: int, last: int): (xs: seq<int>)
    ensures |xs| == if first <= last then last - first + 1 else 0
    ensures forall i | 0 <= i < |xs| :: xs[i] == first + i
    decreases last - first
  {
    if first > last then [] else Interval(first, last - 1) + [last]
  }

  function Expand(rs: seq<Range>): seq<int> {
    if rs == [] then [] else Interval(rs[0].first, rs[0].last) + Expand(rs[1..])
  }

  function RangeText(r: Range): string {
    if r.first == r.last then Text(r.first) else Text(r.first) + "-" + Text(r.last)
  }

  function Texts(rs: seq<Range>): seq<string> {
    seq(|rs|, i requires 0 <= i < |rs| => RangeText(rs[i]))
  }

  function Join(parts: seq<string>, separator: string): string {
    if parts == [] then []
    else if |parts| == 1 then parts[0]
    else parts[0] + separator + Join(parts[1..], separator)
  }

  // ---------- reading the text back ----------

  function ReadRange(s: string): (r: Option<(Range, string)>)
    ensures r.Some? ==> |r.value.1| < |s|
  {
    match ReadInt(s)
    case None => None
    case Some((a, rest)) =>
      if rest != [] && rest[0] == '-' then
        match ReadInt(rest[1..])
        case None => None
        case Some((b, rest')) => Some((Range(a, b), rest'))
      else Some((Range(a, a), rest))
  }

  /** A parser for "a-b, c, ...". */
  function ReadRanges(s: string): Option<seq<Range>>
    decreases |s|
  {
    match ReadRange(s)
    case None => None
    case Some((r, rest)) =>
      if rest == [] then Some([r])
      else if |rest| >= 2 && rest[..2] == ", " then
        match ReadRanges(rest[2..])
        case None => None
        case Some(rs) => Some([r] + rs)
      else None
  }

  lemma ReadRangeOfText(r: Range, rest: string)
    requires rest == [] || rest[0] == ','
    ensures ReadRange(RangeText(r) + rest) == Some((r, rest))
  {
    if r.first == r.last {
      ReadIntOfText(r.first, rest);
    } else {
      var tail := "-" + (Text(r.last) + rest);
      assert RangeText(r) + rest == Text(r.first) + tail;
      ReadIntOfText(r.first, tail);
      ReadIntOfText(r.last, rest);
      assert tail[1..] == Text(r.last) + rest;
    }
  }

  /** The text of any list of ranges reads back as that list. */
  lemma {:induction false} ReadRangesOfText(rs: seq<Range>)
    requires rs != []
    ensures ReadRanges(Join(Texts(rs), ", ")) == Some(rs)
  {
    hide RangeText, ReadRange;
    var ts := Texts(rs);
    if |rs| == 1 {
      ReadRangeOfText(rs[0], []);
      assert ts[0] + [] == ts[0];
      assert rs == [rs[0]];
    } else {
      assert ts[1..] == Texts(rs[1..]);
      var tail := ", " + Join(ts[1..], ", ");
      assert Join(ts, ", ") == ts[0] + tail;
      ReadRangeOfText(rs[0], tail);
      ReadRangesOfText(rs[1..]);
      assert tail[2..] == Join(Texts(rs[1..]), ", ");
      assert rs == [rs[0]] + rs[1..];
    }
  }

  lemma {:induction false} ExpandSnoc(rs: seq<Range>, r: Range)
    ensures Expand(rs + [r]) == Expand(rs) + Interval(r.first, r.last)
  {
    if rs == [] {
      assert (rs + [r])[1..] == [];
    } else {
      assert (rs + [r])[1..] == rs[1..] + [r];
      ExpandSnoc(rs[1..], r);
    }
  }

  lemma TextsSnoc(rs: seq<Range>, r: Range)
    ensures Texts(rs + [r]) == Texts(rs) + [RangeText(r)]
  {
  }

  // ---------- maximal ranges are canonical ----------

  /** No range is empty, and between two ranges at least one index is missing. */
  ghost predicate Maximal(rs: seq<Range>) {
    && (forall i | 0 <= i < |rs| :: rs[i].first <= rs[i].last)
    && forall i, j | 0 <= i < j < |rs| :: rs[i].last + 1 < rs[j].first
  }

  lemma ExpandHead(rs: seq<Range>)
    requires Maximal(rs) && rs != []
    ensures var xs, n := Expand(rs), rs[0].last - rs[0].first + 1;
            && |xs| >= n && (forall i | 0 <= i < n :: xs[i] == rs[0].first + i)
            && xs[n..] == Expand(rs[1..])
            && (|xs| > n ==> xs[n] > rs[0].last + 1)
  {
    if |rs| > 1 {
      assert Expand(rs[1..])[0] == rs[1].first;
    }
  }

  /** There is only one way to write a set of indices as maximal ranges. */
  lemma {:induction false} MaximalIsUnique(rs: seq<Range>, qs: seq<Range>)
    requires Maximal(rs) && Maximal(qs) && Expand(rs) == Expand(qs)
    ensures rs == qs
  {
    if rs == [] || qs == [] {
      if rs != [] { ExpandHead(rs); }
      if qs != [] { ExpandHead(qs); }
    } else {
      ExpandHead(rs);
      ExpandHead(qs);
      var xs := Expand(rs);
      assert rs[0].first == xs[0] == qs[0].first;
      assert rs[0].last == qs[0].last;
      MaximalIsUnique(rs[1..], qs[1..]);
      assert rs == [rs[0]] + rs[1..] && qs == [qs[0]] + qs[1..];
    }
  }

  // ---------- the printer ----------

  ghost predicate Ascending(xs: seq<int>) {
    forall i, j | 0 <= i < j < |xs| :: xs[i] <= xs[j]
  }

  lemma InsertedAscending(xs: seq<int>, x: int, pos: nat)
    requires pos <= |xs| && Ascending(xs)
    requires (forall j | 0 <= j < pos :: xs[j] <= x) && forall j | pos <= j < |xs| :: x <= xs[j]
    ensures Ascending(InsertedAt(xs, x, pos))
  {
  }

  method InsertInto(xs: seq<int>, x: int) returns (r: seq<int>)
    requires Ascending(xs)
    ensures Ascending(r) && multiset(r) == multiset(xs) + multiset{x} && |r| == |xs| + 1
  {
    var pos := |xs|;
    while pos > 0 && xs[pos - 1] > x
      invariant 0 <= pos <= |xs| && forall j | pos <= j < |xs| :: x <= xs[j]
    {
      pos := pos - 1;
    }
    InsertedAscending(xs, x, pos);
    InsertedMultiset(xs, x, pos);
    r := InsertedAt(xs, x, pos);
  }

  method Sorted(xs: seq<int>) returns (r: seq<int>)
    ensures Ascending(r) && multiset(r) == multiset(xs) && |r| == |xs|
  {
    r := [];
    for i := 0 to |xs|
      invariant Ascending(r) && multiset(r) == multiset(xs[..i]) && |r| == i
    {
      r := InsertInto(r, xs[i]);
      assert xs[..i + 1] == xs[..i] + [xs[i]];
    }
    assert xs[..|xs|] == xs;
  }

  /** The first k indices are the finished ranges followed by the one that is still growing. */
  ghost predicate Scanned(sorted: seq<int>, k: nat, rs: seq<Range>, start: int, end: int) {
    && 0 < k <= |sorted| && start <= end == sorted[k - 1]
    && Expand(rs) + Interval(start, end) == sorted[..k]
    && (Distinct(sorted) ==> Maximal(rs + [Range(start, end)]))
  }

  lemma ScanBegins(sorted: seq<int>)
    requires sorted != []
    ensures Scanned(sorted, 1, [], sorted[0], sorted[0]) && Texts([]) == []
  {
    assert Expand([]) == [] && Interval(sorted[0], sorted[0]) == [sorted[0]];
  }

  lemma ScanExtends(sorted: seq<int>, k: nat, rs: seq<Range>, start: int, end: int)
    requires Scanned(sorted, k, rs, start, end) && k < |sorted| && sorted[k] == end + 1
    ensures Scanned(sorted, k + 1, rs, start, end + 1)
  {
    assert sorted[..k + 1] == sorted[..k] + [end + 1];
    if Distinct(sorted) {
      var qs, all := rs + [Range(start, end)], rs + [Range(start, end + 1)];
      assert forall i | 0 <= i < |rs| :: qs[i] == all[i];
      forall i, j | 0 <= i < j < |all| ensures all[i].last + 1 < all[j].first {
        assert qs[i].last + 1 < qs[j].first;
      }
    }
  }

  lemma ScanCloses(sorted: seq<int>, k: nat, rs: seq<Range>, start: int, end: int)
    requires Scanned(sorted, k, rs, start, end) && k < |sorted| && sorted[k] != end + 1 && Ascending(sorted)
    ensures Scanned(sorted, k + 1, rs + [Range(start, end)], sorted[k], sorted[k])
  {
    var qs, idx := rs + [Range(start, end)], sorted[k];
    assert sorted[..k + 1] == sorted[..k] + [idx];
    ExpandSnoc(rs, Range(start, end));
    assert Interval(idx, idx) == [idx];
    if Distinct(sorted) {
      assert sorted[k - 1] <= idx && sorted[k - 1] != idx;
      var all := qs + [Range(idx, idx)];
      forall i, j | 0 <= i < j < |all| ensures all[i].last + 1 < all[j].first {
        if j == |qs| && i < |qs| - 1 {
          assert qs[i].last + 1 < qs[|qs| - 1].first;
        }
      }
    }
  }

  /** The printed text, the ranges it reads back as, and the list that these stand for. */
  ghost predicate Prints(text: string, sorted: seq<int>, rs: seq<Range>) {
    && text == Join(Texts(rs), ", ")
    && ReadRanges(text) == Some(rs)
    && Expand(rs) == sorted
    && (Distinct(sorted) ==> Maximal(rs))
  }

  lemma ScanEnds(sorted: seq<int>, rs: seq<Range>, start: int, end: int)
    requires Scanned(sorted, |sorted|, rs, start, end)
    ensures var all := rs + [Range(start, end)]; Prints(Join(Texts(all), ", "), sorted, all)
  {
    ExpandSnoc(rs, Range(start, end));
    ReadRangesOfText(rs + [Range(start, end)]);
    assert sorted[..|sorted|] == sorted;
  }

  /** A list of distinct indices has only one text of this kind. */
  lemma CanonicalText(a: string, b: string, sorted: seq<int>, rs: seq<Range>, qs: seq<Range>)
    requires Prints(a, sorted, rs) && Prints(b, sorted, qs) && Distinct(sorted)
    ensures a == b
  {
    MaximalIsUnique(rs, qs);
  }

  /**
   The text of a non-empty list reads back as the sorted list; an empty list is an IndexError. The ranges
   are maximal when the indices are distinct.
   */
  method FormatIndexRanges(indices: seq<int>) returns (r: Option<string>)
    ensures r.None? <==> indices == []
    ensures r.Some? ==>
              exists sorted, rs ::
                Prints(r.value, sorted, rs) && Ascending(sorted) && multiset(sorted) == multiset(indices)
  {
    if indices == [] {
      return None;
    }
    var sorted := Sorted(indices);
    hide Scanned, Ascending, Texts, Join, Text, Prints;
    var ranges: seq<string> := [];
    ghost var rs: seq<Range> := [];
    var start, end := sorted[0], sorted[0];
    ScanBegins(sorted);
    for k := 1 to |sorted|
      invariant Scanned(sorted, k, rs, start, end) && ranges == Texts(rs)
    {
      var idx := sorted[k];
      if idx == end + 1 {
        ScanExtends(sorted, k, rs, start, end);
        end := idx;
      } else {
        ScanCloses(sorted, k, rs, start, end);
        TextsSnoc(rs, Range(start, end));
        ranges := ranges + [if start == end then Text(start) else Text(start) + "-" + Text(end)];
        rs := rs + [Range(start, end)];
        start, end := idx, idx;
      }
    }
    ScanEnds(sorted, rs, start, end);
    TextsSnoc(rs, Range(start, end));
    ranges := ranges + [if start == end then Text(start) else Text(start) + "-" + Text(end)];
    r := Some(Join(ranges, ", "));
  }
}
