// Reading a ninja log: lines are collected by command hash, and the collection is thrown away
// whenever a line shows that a new build has begun.
module NinjaLogSpec {
  import opened Sequences

  /** A line after splitting at tabs: not five fields, or a field that int() refuses, or a proper record. */
  datatype LogLine =
    | Malformed
    | BadNumber
    | Record(start: int, end: int, name: string, cmdhash: string)

  function Seconds(milliseconds: int): real {
    milliseconds as real / 1000.0
  }

  /** The end of the last record among the first k lines; 0 if there is none. */
  function LastEnd(lines: seq<LogLine>, k: nat): int
    requires k <= |lines|
  {
    if k == 0 then 0
    else if lines[k - 1].Record? then lines[k - 1].end
    else LastEnd(lines, k - 1)
  }

  /** Record j has the hash of record k but not its interval. */
  ghost predicate Conflict(lines: seq<LogLine>, j: nat, k: nat)
    requires j < |lines| && k < |lines|
  {
    && lines[j].Record? && lines[k].Record? && lines[j].cmdhash == lines[k].cmdhash
    && (lines[j].start != lines[k].start || lines[j].end != lines[k].end)
  }

  /**
   Line k begins a new build if the records before it that are still kept begin at line s: its end
   lies before the last end seen, or its command ran in another interval before.
   */
  ghost predicate BeginsBuild(lines: seq<LogLine>, s: nat, k: nat)
    requires s <= k < |lines|
  {
    && lines[k].Record?
    && (lines[k].end < LastEnd(lines, k) || exists j | s <= j < k :: Conflict(lines, j, k))
  }

  /** The line at which the build begins that the first k lines leave collected. */
  ghost function BuildStart(lines: seq<LogLine>, showAll: bool, k: nat): (s: nat)
    requires k <= |lines|
    ensures s <= k
  {
    if k == 0 || showAll then 0
    else
      var s := BuildStart(lines, showAll, k - 1);
      if BeginsBuild(lines, s, k - 1) then k - 1 else s
  }

  /** The hashes of the records from line s to line k, in order of first appearance. */
  function Hashes(lines: seq<LogLine>, s: nat, k: nat): seq<string>
    requires s <= k <= |lines|
  {
    if k == s then []
    else
      var hs, line := Hashes(lines, s, k - 1), lines[k - 1];
      if line.Record? && line.cmdhash !in hs then hs + [line.cmdhash] else hs
  }

  /** The names of the records from line s to line k that have hash h. */
  function Names(lines: seq<LogLine>, s: nat, k: nat, h: string): seq<string>
    requires s <= k <= |lines|
  {
    if k == s then []
    else
      var ns, line := Names(lines, s, k - 1, h), lines[k - 1];
      if line.Record? && line.cmdhash == h then ns + [line.name] else ns
  }

  lemma {:induction false} HashesBasics(lines: seq<LogLine>, s: nat, k: nat)
    requires s <= k <= |lines|
    ensures var hs := Hashes(lines, s, k);
            && Distinct(hs)
            && (forall j | s <= j < k && lines[j].Record? :: lines[j].cmdhash in hs)
  {
    if k > s {
      HashesBasics(lines, s, k - 1);
      var hs, line := Hashes(lines, s, k - 1), lines[k - 1];
      assert Hashes(lines, s, k) == if line.Record? && line.cmdhash !in hs then hs + [line.cmdhash] else hs;
      assert forall h | h in hs :: h in Hashes(lines, s, k);
      hide Hashes;
    }
  }

  /** The first record from line s to line k with hash h. */
  ghost function First(lines: seq<LogLine>, s: nat, k: nat, h: string): (f: nat)
    requires s <= k <= |lines| && h in Hashes(lines, s, k)
    ensures s <= f < k && lines[f].Record? && lines[f].cmdhash == h
  {
    if h in Hashes(lines, s, k - 1) then First(lines, s, k - 1, h) else k - 1
  }

  lemma {:induction false} FirstIsFirst(lines: seq<LogLine>, s: nat, k: nat, h: string, j: nat)
    requires s <= k <= |lines| && h in Hashes(lines, s, k)
    requires s <= j < k && lines[j].Record? && lines[j].cmdhash == h
    ensures First(lines, s, k, h) <= j
  {
    HashesBasics(lines, s, k - 1);
    if h in Hashes(lines, s, k - 1) && j < k - 1 {
      FirstIsFirst(lines, s, k - 1, h, j);
    }
  }

  /** The hashes stand in the order of their first records. */
  lemma {:induction false} FirstsAscend(lines: seq<LogLine>, s: nat, k: nat, i: nat, j: nat)
    requires s <= k <= |lines| && i < j < |Hashes(lines, s, k)|
    ensures First(lines, s, k, Hashes(lines, s, k)[i]) < First(lines, s, k, Hashes(lines, s, k)[j])
  {
    var hs := Hashes(lines, s, k - 1);
    HashesBasics(lines, s, k - 1);
    if j < |hs| {
      FirstsAscend(lines, s, k - 1, i, j);
    }
  }

  /** The build start is the last line that began a build, and no later line begins another. */
  lemma {:induction false} BuildStartIsLast(lines: seq<LogLine>, k: nat)
    requires k <= |lines|
    ensures var s := BuildStart(lines, false, k);
            && (s == 0 || BeginsBuild(lines, BuildStart(lines, false, s), s))
            && forall j | s < j < k :: BuildStart(lines, false, j) == s && !BeginsBuild(lines, s, j)
  {
    if k > 0 {
      BuildStartIsLast(lines, k - 1);
    }
  }

  /** All the records of the collected build that share a hash have the same interval. */
  lemma {:induction false} SameHashSameInterval(lines: seq<LogLine>, k: nat, i: nat, j: nat)
    requires k <= |lines| && BuildStart(lines, false, k) <= i < j < k
    ensures !Conflict(lines, i, j)
  {
    var s := BuildStart(lines, false, k);
    BuildStartIsLast(lines, k);
    assert !BeginsBuild(lines, s, j);
  }

  /** The ends of the collected build's records never go down. */
  lemma {:induction false} EndsNeverGoDown(lines: seq<LogLine>, k: nat, i: nat, j: nat)
    requires k <= |lines| && BuildStart(lines, false, k) <= i < j < k
    requires lines[i].Record? && lines[j].Record?
    ensures lines[i].end <= lines[j].end
  {
    BuildStartIsLast(lines, k);
    assert !BeginsBuild(lines, BuildStart(lines, false, k), j);
    LastEndAtLeast(lines, k, i, j);
  }

  lemma {:induction false} LastEndAtLeast(lines: seq<LogLine>, k: nat, i: nat, j: nat)
    requires k <= |lines| && BuildStart(lines, false, k) <= i < j < k && lines[i].Record?
    ensures lines[i].end <= LastEnd(lines, j)
  {
    if j > i + 1 {
      LastEndAtLeast(lines, k, i, j - 1);
      BuildStartIsLast(lines, k);
      assert !BeginsBuild(lines, BuildStart(lines, false, k), j - 1);
    }
  }

  /** The names of all the records from line s to line k, as often as they were logged. */
  ghost function AllNames(lines: seq<LogLine>, s: nat, k: nat): multiset<string>
    requires s <= k <= |lines|
  {
    if k == s then multiset{}
    else AllNames(lines, s, k - 1) + if lines[k - 1].Record? then multiset{lines[k - 1].name} else multiset{}
  }

  ghost function NamesOf(lines: seq<LogLine>, s: nat, k: nat, hs: seq<string>): multiset<string>
    requires s <= k <= |lines|
  {
    if hs == [] then multiset{}
    else NamesOf(lines, s, k, hs[..|hs| - 1]) + multiset(Names(lines, s, k, hs[|hs| - 1]))
  }

  lemma {:induction false} NamesOfStep(lines: seq<LogLine>, s: nat, k: nat, hs: seq<string>)
    requires s < k <= |lines| && Distinct(hs)
    ensures var line := lines[k - 1];
            NamesOf(lines, s, k, hs)
            == NamesOf(lines, s, k - 1, hs)
               + if line.Record? && line.cmdhash in hs then multiset{line.name} else multiset{}
  {
    if hs != [] {
      var p, h := hs[..|hs| - 1], hs[|hs| - 1];
      assert hs == p + [h];
      NamesOfStep(lines, s, k, p);
    }
  }

  lemma NamesOfSnoc(lines: seq<LogLine>, s: nat, k: nat, hs: seq<string>, h: string, name: string)
    requires s <= k <= |lines| && Names(lines, s, k, h) == [name]
    ensures NamesOf(lines, s, k, hs + [h]) == NamesOf(lines, s, k, hs) + multiset{name}
  {
    assert (hs + [h])[..|hs|] == hs;
  }

  lemma {:induction false} NoNames(lines: seq<LogLine>, s: nat, k: nat, h: string)
    requires s <= k <= |lines| && h !in Hashes(lines, s, k)
    ensures Names(lines, s, k, h) == []
  {
    if k > s {
      NoNames(lines, s, k - 1, h);
    }
  }

  lemma LastLine(lines: seq<LogLine>, s: nat, k: nat)
    requires s < k <= |lines|
    ensures var hs, line := Hashes(lines, s, k - 1), lines[k - 1];
            && Hashes(lines, s, k) == (if line.Record? && line.cmdhash !in hs then hs + [line.cmdhash] else hs)
            && AllNames(lines, s, k) == AllNames(lines, s, k - 1) + (if line.Record? then multiset{line.name} else multiset{})
            && (line.Record? ==>
                  Names(lines, s, k, line.cmdhash) == Names(lines, s, k - 1, line.cmdhash) + [line.name])
  {
  }

  lemma AccountsForLast(lines: seq<LogLine>, s: nat, k: nat)
    requires s < k <= |lines| && lines[k - 1].Record?
    ensures var hs, hs', name := Hashes(lines, s, k - 1), Hashes(lines, s, k), lines[k - 1].name;
            NamesOf(lines, s, k, hs') == NamesOf(lines, s, k - 1, hs) + multiset{name}
  {
    HashesBasics(lines, s, k - 1);
    LastLine(lines, s, k);
    var hs, line := Hashes(lines, s, k - 1), lines[k - 1];
    NamesOfStep(lines, s, k, hs);
    hide Hashes, Names, AllNames, NamesOf, Distinct;
    if line.cmdhash !in hs {
      NoNames(lines, s, k - 1, line.cmdhash);
      NamesOfSnoc(lines, s, k, hs, line.cmdhash, line.name);
    }
  }

  lemma AccountsForOther(lines: seq<LogLine>, s: nat, k: nat)
    requires s < k <= |lines| && !lines[k - 1].Record?
    ensures NamesOf(lines, s, k, Hashes(lines, s, k)) == NamesOf(lines, s, k - 1, Hashes(lines, s, k - 1))
  {
    HashesBasics(lines, s, k - 1);
    LastLine(lines, s, k);
    NamesOfStep(lines, s, k, Hashes(lines, s, k - 1));
    hide Hashes, Names, NamesOf, Distinct;
  }

  lemma NothingToAccountFor(lines: seq<LogLine>, s: nat)
    requires s <= |lines|
    ensures NamesOf(lines, s, s, Hashes(lines, s, s)) == AllNames(lines, s, s)
  {
  }

  /** Every name of the collected records is in the names of exactly one hash, as often as it was logged. */
  lemma {:induction false} NamesAccountForAll(lines: seq<LogLine>, s: nat, k: nat)
    requires s <= k <= |lines|
    ensures NamesOf(lines, s, k, Hashes(lines, s, k)) == AllNames(lines, s, k)
  {
    hide Hashes, NamesOf;
    if k == s {
      NothingToAccountFor(lines, s);
    } else {
      NamesAccountForAll(lines, s, k - 1);
      if lines[k - 1].Record? {
        AccountsForLast(lines, s, k);
      } else {
        AccountsForOther(lines, s, k);
      }
    }
  }
}

module NinjaLog {
  import opened NinjaTarget
  import opened NinjaLogSpec

  datatype ReadResult =
    | UnrecognizedVersion      // the header line is not that of version 5
    | ValueError               // a record whose start or end is not a number
    | Targets(targets: seq<Target>)

  const HEADER := "# ninja log v5\n"

  /** After k lines the collected targets are those of the records since the build start. */
  ghost predicate Collected(lines: seq<LogLine>, s: nat, k: nat, order: seq<string>, dict: map<string, Target>)
    requires s <= k <= |lines|
    reads dict.Values
  {
    && order == Hashes(lines, s, k)
    && (forall h :: h in dict <==> h in order)
    && (forall h, h' | h in dict && h' in dict && h != h' :: dict[h] != dict[h'])
    && (forall h | h in dict :: Fits(lines, s, k, h, dict[h]))
  }

  /** The target has the interval of the first record with the hash, and the names of all of them. */
  ghost predicate Fits(lines: seq<LogLine>, s: nat, k: nat, h: string, t: Target)
    requires s <= k <= |lines| && h in Hashes(lines, s, k)
    reads t
  {
    var f := First(lines, s, k, h);
    t.targets == Names(lines, s, k, h) && t.start == Seconds(lines[f].start) && t.end == Seconds(lines[f].end)
  }

  lemma SecondsInjective(a: int, b: int)
    ensures Seconds(a) == Seconds(b) <==> a == b
    ensures Seconds(a) < Seconds(b) <==> a < b
  {
  }

  /** Comparing with the collected target of the same hash is enough to see whether a new build begins. */
  lemma RepeatedCommand(lines: seq<LogLine>, k: nat, order: seq<string>, dict: map<string, Target>)
    requires k < |lines| && lines[k].Record?
    requires Collected(lines, BuildStart(lines, false, k), k, order, dict)
    ensures var h, s := lines[k].cmdhash, BuildStart(lines, false, k);
            (exists j | s <= j < k :: Conflict(lines, j, k))
            <==> h in dict && (dict[h].start != Seconds(lines[k].start) || dict[h].end != Seconds(lines[k].end))
  {
    var h, s := lines[k].cmdhash, BuildStart(lines, false, k);
    HashesBasics(lines, s, k);
    if h in dict {
      var f := First(lines, s, k, h);
      SecondsInjective(lines[f].start, lines[k].start);
      SecondsInjective(lines[f].end, lines[k].end);
      assert Conflict(lines, f, k)
             <==> (dict[h].start != Seconds(lines[k].start) || dict[h].end != Seconds(lines[k].end));
      forall j | s <= j < k && Conflict(lines, j, k) ensures Conflict(lines, f, k) {
        FirstIsFirst(lines, s, k, h, j);
        if j != f {
          SameHashSameInterval(lines, k, f, j);
        }
      }
    } else {
      forall j | s <= j < k ensures !Conflict(lines, j, k) {
        assert lines[j].Record? ==> lines[j].cmdhash in order;
      }
    }
  }

  /** A line that is no record changes nothing. */
  lemma SkipLine(lines: seq<LogLine>, s: nat, k: nat, order: seq<string>, dict: map<string, Target>)
    requires s <= k < |lines| && !lines[k].Record? && Collected(lines, s, k, order, dict)
    ensures Collected(lines, s, k + 1, order, dict)
  {
  }

  lemma NothingCollected(lines: seq<LogLine>, k: nat)
    requires k <= |lines|
    ensures Collected(lines, k, k, [], map[])
  {
  }

  lemma CollectedTargets(lines: seq<LogLine>, s: nat, order: seq<string>, dict: map<string, Target>)
    requires s <= |lines| && Collected(lines, s, |lines|, order, dict)
    ensures order == Hashes(lines, s, |lines|)
    ensures forall i | 0 <= i < |order| ::
              && order[i] in dict && dict[order[i]] in dict.Values
              && dict[order[i]].targets == Names(lines, s, |lines|, order[i])
              && var f := First(lines, s, |lines|, order[i]);
                 dict[order[i]].start == Seconds(lines[f].start) && dict[order[i]].end == Seconds(lines[f].end)
    ensures forall i, j | 0 <= i < j < |order| :: dict[order[i]] != dict[order[j]]
  {
    HashesBasics(lines, s, |lines|);
  }

  lemma RecordStep(lines: seq<LogLine>, s: nat, k: nat)
    requires s <= k < |lines| && lines[k].Record?
    ensures var hs, h := Hashes(lines, s, k), lines[k].cmdhash;
            && Hashes(lines, s, k + 1) == (if h in hs then hs else hs + [h])
            && Names(lines, s, k + 1, h) == Names(lines, s, k, h) + [lines[k].name]
            && (forall h' | h' != h :: Names(lines, s, k + 1, h') == Names(lines, s, k, h'))
            && (h !in hs ==> Names(lines, s, k, h) == [] && First(lines, s, k + 1, h) == k)
            && (forall h' | h' in hs :: First(lines, s, k + 1, h') == First(lines, s, k, h'))
  {
    if lines[k].cmdhash !in Hashes(lines, s, k) {
      NoNames(lines, s, k, lines[k].cmdhash);
    }
  }

  /** As Collected after k + 1 lines, except that the target of the last line's hash still lacks the line's name. */
  ghost predicate NameMissing(lines: seq<LogLine>, s: nat, k: nat, order: seq<string>, dict: map<string, Target>)
    requires s <= k < |lines| && lines[k].Record?
    reads dict.Values
  {
    var cmdhash := lines[k].cmdhash;
    && order == Hashes(lines, s, k + 1) && cmdhash in dict
    && (forall h :: h in dict <==> h in order)
    && (forall h, h' | h in dict && h' in dict && h != h' :: dict[h] != dict[h'])
    && (forall h | h in dict && h != cmdhash :: Fits(lines, s, k + 1, h, dict[h]))
    && FitsButName(lines, s, k, dict[cmdhash])
  }

  ghost predicate FitsButName(lines: seq<LogLine>, s: nat, k: nat, t: Target)
    requires s <= k < |lines| && lines[k].Record? && lines[k].cmdhash in Hashes(lines, s, k + 1)
    reads t
  {
    var h := lines[k].cmdhash;
    var f := First(lines, s, k + 1, h);
    t.targets == Names(lines, s, k, h) && t.start == Seconds(lines[f].start) && t.end == Seconds(lines[f].end)
  }

  lemma Found(lines: seq<LogLine>, s: nat, k: nat, order: seq<string>, dict: map<string, Target>)
    requires s <= k < |lines| && lines[k].Record? && lines[k].cmdhash in dict && Collected(lines, s, k, order, dict)
    ensures NameMissing(lines, s, k, order, dict)
  {
    RecordStep(lines, s, k);
    hide Hashes, Names, First, Seconds;
    forall h | h in dict && h != lines[k].cmdhash ensures Fits(lines, s, k + 1, h, dict[h]) {
      assert Fits(lines, s, k, h, dict[h]);
    }
    assert Fits(lines, s, k, lines[k].cmdhash, dict[lines[k].cmdhash]);
  }

  lemma Created(lines: seq<LogLine>, s: nat, k: nat, order: seq<string>, dict: map<string, Target>, target: Target)
    requires s <= k < |lines| && lines[k].Record? && lines[k].cmdhash !in dict && Collected(lines, s, k, order, dict)
    requires target !in dict.Values && target.targets == []
    requires target.start == Seconds(lines[k].start) && target.end == Seconds(lines[k].end)
    ensures NameMissing(lines, s, k, order + [lines[k].cmdhash], dict[lines[k].cmdhash := target])
  {
    RecordStep(lines, s, k);
    hide Hashes, Names, First, Seconds;
    var cmdhash := lines[k].cmdhash;
    var dict' := dict[cmdhash := target];
    forall h | h in dict' && h != cmdhash ensures Fits(lines, s, k + 1, h, dict'[h]) && dict'[h] != target {
      assert Fits(lines, s, k, h, dict[h]) && dict[h] in dict.Values;
    }
    hide Fits;
  }

  /** The target of a record's hash, which is created if there is none. */
  method FindOrCreate(ghost lines: seq<LogLine>, ghost s: nat, ghost k: nat,
                      order: seq<string>, dict: map<string, Target>, start: real, end: real, cmdhash: string)
    returns (order': seq<string>, dict': map<string, Target>)
    requires s <= k < |lines| && lines[k].Record? && lines[k].cmdhash == cmdhash
    requires start == Seconds(lines[k].start) && end == Seconds(lines[k].end)
    requires Collected(lines, s, k, order, dict)
    ensures NameMissing(lines, s, k, order', dict')
    ensures fresh(dict'.Values - dict.Values)
  {
    hide NameMissing, Collected, Seconds;
    if cmdhash in dict {
      Found(lines, s, k, order, dict);
      return order, dict;
    }
    var target := new Target(start, end);
    Created(lines, s, k, order, dict, target);
    order', dict' := order + [cmdhash], dict[cmdhash := target];
    assert dict'.Values <= dict.Values + {target};
  }

  /** Adds a record to the target of its hash. */
  method AddRecord(ghost lines: seq<LogLine>, ghost s: nat, ghost k: nat,
                   order: seq<string>, dict: map<string, Target>,
                   start: real, end: real, name: string, cmdhash: string)
    returns (order': seq<string>, dict': map<string, Target>)
    requires s <= k < |lines| && lines[k].Record? && lines[k].name == name && lines[k].cmdhash == cmdhash
    requires start == Seconds(lines[k].start) && end == Seconds(lines[k].end)
    requires Collected(lines, s, k, order, dict)
    modifies dict.Values`targets
    ensures Collected(lines, s, k + 1, order', dict')
    ensures fresh(dict'.Values - dict.Values)
  {
    order', dict' := FindOrCreate(lines, s, k, order, dict, start, end, cmdhash);
    RecordStep(lines, s, k);
    hide Hashes, Names, First, Seconds, Fits;
    var target := dict'[cmdhash];
    assert target in dict'.Values;
    target.targets := target.targets + [name];
    assert Fits(lines, s, k + 1, cmdhash, target) by { NameAdded(lines, s, k, target); }
  }

  lemma NameAdded(lines: seq<LogLine>, s: nat, k: nat, t: Target)
    requires s <= k < |lines| && lines[k].Record? && lines[k].cmdhash in Hashes(lines, s, k + 1)
    requires var h := lines[k].cmdhash; var f := First(lines, s, k + 1, h);
             && t.targets == Names(lines, s, k, h) + [lines[k].name]
             && t.start == Seconds(lines[f].start) && t.end == Seconds(lines[f].end)
    ensures Fits(lines, s, k + 1, lines[k].cmdhash, t)
  {
  }

  ghost predicate EndsAscend(targets: seq<Target>) {
    forall i, j | 0 <= i < j < |targets| :: targets[i].end <= targets[j].end
  }

  /** The targets of a build stand in the order of their ends. */
  lemma TargetsAscend(lines: seq<LogLine>, targets: seq<Target>)
    requires var s, n := BuildStart(lines, false, |lines|), |lines|;
             var hs := Hashes(lines, s, n);
             && |targets| == |hs|
             && forall i | 0 <= i < |hs| :: targets[i].end == Seconds(lines[First(lines, s, n, hs[i])].end)
    ensures EndsAscend(targets)
  {
    var s, n := BuildStart(lines, false, |lines|), |lines|;
    var hs := Hashes(lines, s, n);
    hide Seconds, Hashes, First;
    forall i, j | 0 <= i < j < |hs| ensures targets[i].end <= targets[j].end {
      FirstsAscend(lines, s, n, i, j);
      var f, g := First(lines, s, n, hs[i]), First(lines, s, n, hs[j]);
      EndsNeverGoDown(lines, n, f, g);
      SecondsInjective(lines[g].end, lines[f].end);
    }
  }

  /**
   The targets come in the order in which their hashes first appeared since the build start, each with
   the interval of its first record and the names of all its records.
   */
  method ReadTargets(header: string, lines: seq<LogLine>, showAll: bool) returns (r: ReadResult)
    ensures r == UnrecognizedVersion <==> header != HEADER
    ensures r == ValueError <==> header == HEADER && BadNumber in lines
    ensures r.Targets? ==>
              var s, n := BuildStart(lines, showAll, |lines|), |lines|;
              var hs := Hashes(lines, s, n);
              && |r.targets| == |hs|
              && (forall i, j | 0 <= i < j < |hs| :: r.targets[i] != r.targets[j])
              && (forall i | 0 <= i < |hs| :: fresh(r.targets[i]) && r.targets[i].targets == Names(lines, s, n, hs[i]))
              && (forall i | 0 <= i < |hs| ::
                    var f := First(lines, s, n, hs[i]);
                    && r.targets[i].start == Seconds(lines[f].start) && r.targets[i].end == Seconds(lines[f].end)
                    && r.targets[i].start * 1000.0 == lines[f].start as real
                    && r.targets[i].end * 1000.0 == lines[f].end as real)
    ensures r.Targets? && !showAll ==> EndsAscend(r.targets)
  {
    hide Collected, EndsAscend;
    if header != HEADER {
      return UnrecognizedVersion;
    }
    NothingCollected(lines, 0);
    var order: seq<string> := [];
    var targetsDict: map<string, Target> := map[];
    var lastEndSeen := 0.0;
    for k := 0 to |lines|
      invariant BadNumber !in lines[..k]
      invariant lastEndSeen == Seconds(LastEnd(lines, k))
      invariant Collected(lines, BuildStart(lines, showAll, k), k, order, targetsDict)
      invariant fresh(targetsDict.Values)
    {
      assert lines[..k + 1] == lines[..k] + [lines[k]];
      NothingCollected(lines, k);
      if lines[k].Malformed? {
        SkipLine(lines, BuildStart(lines, showAll, k), k, order, targetsDict);
        continue;
      }
      if lines[k].BadNumber? {
        assert lines[k] in lines;
        return ValueError;
      }
      var Record(startMs, endMs, name, cmdhash) := lines[k];
      var start, end := Seconds(startMs), Seconds(endMs);
      SecondsInjective(endMs, LastEnd(lines, k));
      if !showAll {
        RepeatedCommand(lines, k, order, targetsDict);
      }
      if !showAll && end < lastEndSeen {
        order, targetsDict := [], map[];
      }
      if cmdhash in targetsDict {
        var target := targetsDict[cmdhash];
        if !showAll && (target.start != start || target.end != end) {
          order, targetsDict := [], map[];
        }
      }
      order, targetsDict := AddRecord(lines, BuildStart(lines, showAll, k + 1), k, order, targetsDict,
                                      start, end, name, cmdhash);
      lastEndSeen := end;
    }
    assert lines[..|lines|] == lines;
    ghost var s := BuildStart(lines, showAll, |lines|);
    CollectedTargets(lines, s, order, targetsDict);
    r := Targets(seq(|order|, i requires 0 <= i < |order| && order[i] in targetsDict => targetsDict[order[i]]));
    if !showAll {
      TargetsAscend(lines, r.targets);
    }
  }
}

module NinjaReport {
  import opened NinjaTarget
  import opened NinjaIntegral
  import opened NinjaSweep
  import opened NinjaSummary
  import opened NinjaLogSpec
  import opened NinjaLog

  /**
   The tool from log to report. The sweep fails on exactly the logs whose last build holds no record, or
   one that ends before it starts; every other log is weighed by the integral over its last build.
   */
  method Report(header: string, lines: seq<LogLine>) returns (read: ReadResult, summary: Summary)
    ensures read == UnrecognizedVersion <==> header != HEADER
    ensures read == ValueError <==> header == HEADER && BadNumber in lines
    ensures read.Targets? ==>
              var s := BuildStart(lines, false, |lines|);
              && (summary == IndexError <==> forall k | s <= k < |lines| :: !lines[k].Record?)
              && (summary == KeyError
                  <==> exists k | s <= k < |lines| :: lines[k].Record? && lines[k].end < lines[k].start)
              && (summary.Summary? ==>
                    forall g | Grid(g, TargetSet(read.targets)) ::
                      && summary.weightedTotal == Busy(g, TargetSet(read.targets))
                      && forall t | t in read.targets ::
                           t.weightedDuration == Weighted(g, TargetSet(read.targets), t))
  {
    read := ReadTargets(header, lines, false);
    summary := IndexError;
    if read.Targets? {
      RecordsAndTargets(lines, read.targets);
      summary := SummarizeEntries(read.targets);
    }
  }

  /** Target i has the interval of the first record with hash hs[i]. */
  ghost predicate IntervalsOf(lines: seq<LogLine>, s: nat, targets: seq<Target>)
    requires s <= |lines|
  {
    var hs := Hashes(lines, s, |lines|);
    && |targets| == |hs|
    && forall i | 0 <= i < |hs| ::
         var f := First(lines, s, |lines|, hs[i]);
         targets[i].start == Seconds(lines[f].start) && targets[i].end == Seconds(lines[f].end)
  }

  lemma RecordsAndTargets(lines: seq<LogLine>, targets: seq<Target>)
    requires IntervalsOf(lines, BuildStart(lines, false, |lines|), targets)
    ensures var s := BuildStart(lines, false, |lines|);
            && (targets == [] <==> forall k | s <= k < |lines| :: !lines[k].Record?)
            && ((exists t | t in targets :: t.end < t.start)
                <==> exists k | s <= k < |lines| :: lines[k].Record? && lines[k].end < lines[k].start)
  {
    var s, n := BuildStart(lines, false, |lines|), |lines|;
    var hs := Hashes(lines, s, n);
    HashesBasics(lines, s, n);
    if targets != [] {
      var f := First(lines, s, n, hs[0]);
      assert lines[f].Record?;
    }
    if t :| t in targets && t.end < t.start {
      var i :| 0 <= i < |targets| && targets[i] == t;
      var f := First(lines, s, n, hs[i]);
      SecondsInjective(lines[f].end, lines[f].start);
    }
    forall k | s <= k < |lines| && lines[k].Record? && lines[k].end < lines[k].start
      ensures exists t | t in targets :: t.end < t.start
    {
      var t := TargetOfRecord(lines, targets, k);
      SecondsInjective(lines[k].end, lines[k].start);
    }
  }

  lemma TargetOfRecord(lines: seq<LogLine>, targets: seq<Target>, k: nat) returns (t: Target)
    requires IntervalsOf(lines, BuildStart(lines, false, |lines|), targets)
    requires BuildStart(lines, false, |lines|) <= k < |lines| && lines[k].Record?
    ensures t in targets && t.start == Seconds(lines[k].start) && t.end == Seconds(lines[k].end)
  {
    var s, n := BuildStart(lines, false, |lines|), |lines|;
    var hs := Hashes(lines, s, n);
    HashesBasics(lines, s, n);
    assert lines[k].cmdhash in hs;
    var i :| 0 <= i < |hs| && hs[i] == lines[k].cmdhash;
    var f := First(lines, s, n, hs[i]);
    FirstIsFirst(lines, s, n, hs[i], k);
    if f < k {
      SameHashSameInterval(lines, n, f, k);
    }
    t := targets[i];
  }
}
