// Merging streamed outputs into a growing result.
module OutputMergeSpec {
  import opened Sequences
  import opened Wrappers

  /** One completion, as a value. */
  datatype Completion<T> = Completion(index: int, text: string, tokenIds: seq<int>, logprobs: Option<seq<T>>,
                                      cumulativeLogprob: Option<real>, finishReason: Option<string>,
                                      stopReason: Option<string>)

  /** Text, tokens and logprobs are appended, the rest is taken over from the later one. */
  function Merge<T>(c: Completion<T>, n: Completion<T>): Completion<T> {
    Completion(c.index, c.text + n.text, c.tokenIds + n.tokenIds,
               if OrEmpty(n.logprobs) == [] then c.logprobs else Some(OrEmpty(c.logprobs) + n.logprobs.value),
               n.cumulativeLogprob, n.finishReason, n.stopReason)
  }

  function Combine<T>(c: Completion<T>, n: Completion<T>, aggregate: bool): Completion<T> {
    if aggregate then Merge(c, n) else n
  }

  /** The position of the first completion with an index, or the number of completions. */
  function Find<T>(outs: seq<Completion<T>>, index: int): (i: nat)
    ensures i <= |outs| && (i < |outs| ==> outs[i].index == index)
    ensures forall j | 0 <= j < i :: outs[j].index != index
  {
    if outs == [] then 0
    else
      var i := Find(outs[..|outs| - 1], index);
      if i < |outs| - 1 || outs[|outs| - 1].index == index then i else |outs|
  }

  function Step<T>(outs: seq<Completion<T>>, n: Completion<T>, aggregate: bool): seq<Completion<T>> {
    var i := Find(outs, n.index);
    if i == |outs| then outs + [n] else outs[i := Combine(outs[i], n, aggregate)]
  }

  /** Completions are added one after the other. */
  function Fold<T>(outs: seq<Completion<T>>, nexts: seq<Completion<T>>, aggregate: bool): seq<Completion<T>> {
    if nexts == [] then outs else Step(Fold(outs, nexts[..|nexts| - 1], aggregate), nexts[|nexts| - 1], aggregate)
  }

  // ---------- indices ----------

  function Indices<T>(outs: seq<Completion<T>>): seq<int> {
    seq(|outs|, i requires 0 <= i < |outs| => outs[i].index)
  }

  /** Each index once, where it appears first. */
  function FirstAppearances(indices: seq<int>): seq<int> {
    if indices == [] then []
    else
      var front, last := FirstAppearances(indices[..|indices| - 1]), indices[|indices| - 1];
      if last in front then front else front + [last]
  }

  lemma {:induction false} FirstAppearancesDistinct(indices: seq<int>)
    ensures Distinct(FirstAppearances(indices))
    ensures Distinct(indices) ==> FirstAppearances(indices) == indices
    ensures forall i :: i in FirstAppearances(indices) <==> i in indices
  {
    if indices != [] {
      FirstAppearancesDistinct(indices[..|indices| - 1]);
      assert indices == indices[..|indices| - 1] + [indices[|indices| - 1]];
    }
  }

  lemma FirstAppearancesSnoc(indices: seq<int>, index: int)
    ensures var front := FirstAppearances(indices);
            FirstAppearances(indices + [index]) == if index in front then front else front + [index]
  {
    assert (indices + [index])[..|indices|] == indices;
  }

  lemma StepIndices<T>(outs: seq<Completion<T>>, n: Completion<T>, aggregate: bool)
    ensures Indices(Step(outs, n, aggregate))
            == if n.index in Indices(outs) then Indices(outs) else Indices(outs) + [n.index]
  {
    var i := Find(outs, n.index);
    if i < |outs| {
      assert Indices(outs)[i] == n.index;
    }
  }

  lemma IndicesSnoc<T>(outs: seq<Completion<T>>, n: Completion<T>)
    ensures Indices(outs + [n]) == Indices(outs) + [n.index]
  {
  }

  /** The indices of the result are those of both lists, each once, in the order of first appearance. */
  lemma {:induction false} FoldIndices<T>(outs: seq<Completion<T>>, nexts: seq<Completion<T>>, aggregate: bool)
    requires Distinct(Indices(outs))
    ensures Indices(Fold(outs, nexts, aggregate)) == FirstAppearances(Indices(outs + nexts))
    ensures Distinct(Indices(Fold(outs, nexts, aggregate)))
  {
    hide Distinct, Step, FirstAppearances, Indices;
    FirstAppearancesDistinct(Indices(outs + nexts));
    if nexts == [] {
      assert outs + nexts == outs;
    } else {
      var front, n := nexts[..|nexts| - 1], nexts[|nexts| - 1];
      FoldIndices(outs, front, aggregate);
      StepIndices(Fold(outs, front, aggregate), n, aggregate);
      IndicesSnoc(outs + front, n);
      assert outs + nexts == outs + front + [n];
      FirstAppearancesSnoc(Indices(outs + front), n.index);
    }
  }

  // ---------- contents ----------

  /** Everything that an index was given, piece by piece. */
  function TextOf<T>(outs: seq<Completion<T>>, index: int): string {
    if outs == [] then []
    else TextOf(outs[..|outs| - 1], index) + if outs[|outs| - 1].index == index then outs[|outs| - 1].text else []
  }

  function TokensOf<T>(outs: seq<Completion<T>>, index: int): seq<int> {
    if outs == [] then []
    else TokensOf(outs[..|outs| - 1], index)
         + if outs[|outs| - 1].index == index then outs[|outs| - 1].tokenIds else []
  }

  function LogprobsOf<T>(outs: seq<Completion<T>>, index: int): seq<T> {
    if outs == [] then []
    else LogprobsOf(outs[..|outs| - 1], index)
         + if outs[|outs| - 1].index == index then OrEmpty(outs[|outs| - 1].logprobs) else []
  }

  /** What was said about an index last. */
  function LastOf<T>(outs: seq<Completion<T>>, index: int): Option<(Option<real>, Option<string>, Option<string>)> {
    if outs == [] then None
    else
      var c := outs[|outs| - 1];
      if c.index == index then Some((c.cumulativeLogprob, c.finishReason, c.stopReason))
      else LastOf(outs[..|outs| - 1], index)
  }

  /** Two lists give an index the same contents. */
  ghost predicate SameContents<T>(a: seq<Completion<T>>, b: seq<Completion<T>>, index: int) {
    && TextOf(a, index) == TextOf(b, index) && TokensOf(a, index) == TokensOf(b, index)
    && LogprobsOf(a, index) == LogprobsOf(b, index) && LastOf(a, index) == LastOf(b, index)
  }

  lemma {:induction false} MissingContents<T>(outs: seq<Completion<T>>, index: int)
    requires forall c | c in outs :: c.index != index
    ensures TextOf(outs, index) == [] && TokensOf(outs, index) == [] && LogprobsOf(outs, index) == []
    ensures LastOf(outs, index) == None
  {
    if outs != [] {
      MissingContents(outs[..|outs| - 1], index);
    }
  }

  /** Among distinct indices an index has the contents of its one completion. */
  lemma {:induction false} OnlyContents<T>(outs: seq<Completion<T>>, k: nat)
    requires k < |outs| && Distinct(Indices(outs))
    ensures var c := outs[k];
            && TextOf(outs, c.index) == c.text && TokensOf(outs, c.index) == c.tokenIds
            && LogprobsOf(outs, c.index) == OrEmpty(c.logprobs)
            && LastOf(outs, c.index) == Some((c.cumulativeLogprob, c.finishReason, c.stopReason))
  {
    var front, last := outs[..|outs| - 1], outs[|outs| - 1];
    assert Indices(front) == Indices(outs)[..|outs| - 1];
    if k == |outs| - 1 {
      forall c | c in front ensures c.index != last.index {
        var i :| 0 <= i < |front| && front[i] == c;
        assert Indices(outs)[i] != Indices(outs)[k];
      }
      MissingContents(front, last.index);
    } else {
      assert Indices(outs)[k] != Indices(outs)[|outs| - 1];
      OnlyContents(front, k);
    }
  }

  lemma {:induction false} ElsewhereUntouched<T>(outs: seq<Completion<T>>, i: nat, c: Completion<T>, index: int)
    requires i < |outs| && outs[i].index == c.index != index
    ensures SameContents(outs[i := c], outs, index)
  {
    var front, after := outs[..|outs| - 1], outs[i := c];
    if i < |outs| - 1 {
      ElsewhereUntouched(front, i, c, index);
      assert after[..|outs| - 1] == front[i := c];
    } else {
      assert after[..|outs| - 1] == front;
    }
  }

  lemma StepContents<T>(outs: seq<Completion<T>>, n: Completion<T>, index: int)
    requires Distinct(Indices(outs))
    ensures SameContents(Step(outs, n, true), outs + [n], index)
  {
    var i := Find(outs, n.index);
    if i < |outs| {
      assert (outs + [n])[..|outs|] == outs;
      var c := Merge(outs[i], n);
      if index == n.index {
        assert Indices(outs[i := c]) == Indices(outs);
        OnlyContents(outs, i);
        OnlyContents(outs[i := c], i);
      } else {
        ElsewhereUntouched(outs, i, c, index);
      }
    }
  }

  lemma ContentsSnoc<T>(a: seq<Completion<T>>, b: seq<Completion<T>>, n: Completion<T>, index: int)
    requires SameContents(a, b, index)
    ensures SameContents(a + [n], b + [n], index)
  {
    assert (a + [n])[..|a|] == a && (b + [n])[..|b|] == b;
  }

  /** Merging is concatenation per index: nothing is lost, doubled or reordered. */
  lemma {:induction false} FoldContents<T>(outs: seq<Completion<T>>, nexts: seq<Completion<T>>, index: int)
    requires Distinct(Indices(outs))
    ensures SameContents(Fold(outs, nexts, true), outs + nexts, index)
  {
    hide Step, Distinct;
    if nexts == [] {
      assert outs + nexts == outs;
    } else {
      var front, n := nexts[..|nexts| - 1], nexts[|nexts| - 1];
      FoldContents(outs, front, index);
      FoldIndices(outs, front, true);
      StepContents(Fold(outs, front, true), n, index);
      ContentsSnoc(Fold(outs, front, true), outs + front, n, index);
      assert outs + nexts == outs + front + [n];
      hide SameContents;
      SameContentsTransitive(Step(Fold(outs, front, true), n, true), Fold(outs, front, true) + [n], outs + nexts, index);
    }
  }

  lemma SameContentsTransitive<T>(a: seq<Completion<T>>, b: seq<Completion<T>>, c: seq<Completion<T>>, index: int)
    requires SameContents(a, b, index) && SameContents(b, c, index)
    ensures SameContents(a, c, index)
  {
  }

  // ---------- without aggregation ----------

  function LastWith<T>(outs: seq<Completion<T>>, index: int): Option<Completion<T>> {
    if outs == [] then None
    else if outs[|outs| - 1].index == index then Some(outs[|outs| - 1])
    else LastWith(outs[..|outs| - 1], index)
  }

  lemma {:induction false} LastWithIs<T>(outs: seq<Completion<T>>, k: nat)
    requires k < |outs| && forall j | k < j < |outs| :: outs[j].index != outs[k].index
    ensures LastWith(outs, outs[k].index) == Some(outs[k])
  {
    if k < |outs| - 1 {
      LastWithIs(outs[..|outs| - 1], k);
    }
  }

  lemma {:induction false} LastWithNone<T>(outs: seq<Completion<T>>, index: int)
    requires forall c | c in outs :: c.index != index
    ensures LastWith(outs, index) == None
  {
    if outs != [] {
      LastWithNone(outs[..|outs| - 1], index);
    }
  }

  lemma {:induction false} LastWithElsewhere<T>(outs: seq<Completion<T>>, i: nat, n: Completion<T>, index: int)
    requires i < |outs| && outs[i].index == n.index != index
    ensures LastWith(outs[i := n], index) == LastWith(outs, index)
  {
    var front, after := outs[..|outs| - 1], outs[i := n];
    if i < |outs| - 1 {
      LastWithElsewhere(front, i, n, index);
      assert after[..|outs| - 1] == front[i := n];
    } else {
      assert after[..|outs| - 1] == front;
    }
  }

  lemma StepKeepsLast<T>(outs: seq<Completion<T>>, n: Completion<T>, index: int)
    requires Distinct(Indices(outs))
    ensures LastWith(Step(outs, n, false), index) == if n.index == index then Some(n) else LastWith(outs, index)
  {
    var i, after := Find(outs, n.index), Step(outs, n, false);
    if i == |outs| {
      assert after[..|outs|] == outs;
    } else if n.index != index {
      LastWithElsewhere(outs, i, n, index);
    } else {
      forall j | i < j < |after| ensures after[j].index != after[i].index {
        assert Indices(outs)[i] != Indices(outs)[j];
      }
      LastWithIs(after, i);
    }
  }

  /** One completion for each index, in the order of first appearance, and it is the last one of that index. */
  ghost predicate IsLatest<T>(outs: seq<Completion<T>>, all: seq<Completion<T>>) {
    && Indices(outs) == FirstAppearances(Indices(all))
    && forall i | 0 <= i < |outs| :: LastWith(all, outs[i].index) == Some(outs[i])
  }

  lemma {:induction false} FoldKeepsLast<T>(outs: seq<Completion<T>>, nexts: seq<Completion<T>>, index: int)
    requires Distinct(Indices(outs))
    ensures LastWith(Fold(outs, nexts, false), index) == LastWith(outs + nexts, index)
  {
    hide Step, Distinct;
    if nexts == [] {
      assert outs + nexts == outs;
    } else {
      var front, n := nexts[..|nexts| - 1], nexts[|nexts| - 1];
      FoldKeepsLast(outs, front, index);
      FoldIndices(outs, front, false);
      StepKeepsLast(Fold(outs, front, false), n, index);
      assert (outs + nexts)[..|outs + nexts| - 1] == outs + front;
    }
  }

  /** Without aggregation a later completion replaces the earlier one of its index. */
  lemma FoldLatest<T>(outs: seq<Completion<T>>, nexts: seq<Completion<T>>)
    requires Distinct(Indices(outs))
    ensures IsLatest(Fold(outs, nexts, false), outs + nexts)
  {
    var r := Fold(outs, nexts, false);
    FoldIndices(outs, nexts, false);
    forall i | 0 <= i < |r| ensures LastWith(outs + nexts, r[i].index) == Some(r[i]) {
      forall j | i < j < |r| ensures r[j].index != r[i].index {
        assert Indices(r)[i] != Indices(r)[j];
      }
      LastWithIs(r, i);
      FoldKeepsLast(outs, nexts, r[i].index);
    }
  }

  /** What is on hand after merging, said without the merging steps. */
  ghost predicate Merged<T>(outs: seq<Completion<T>>, all: seq<Completion<T>>, aggregate: bool) {
    && Indices(outs) == FirstAppearances(Indices(all))
    && if aggregate then forall index: int :: SameContents(outs, all, index) else IsLatest(outs, all)
  }

  lemma FoldIsMerged<T>(outs: seq<Completion<T>>, nexts: seq<Completion<T>>, aggregate: bool)
    requires Distinct(Indices(outs))
    ensures Merged(Fold(outs, nexts, aggregate), outs + nexts, aggregate)
  {
    FoldIndices(outs, nexts, aggregate);
    if aggregate {
      forall index: int ensures SameContents(Fold(outs, nexts, true), outs + nexts, index) {
        FoldContents(outs, nexts, index);
      }
    } else {
      FoldLatest(outs, nexts);
    }
  }

  // ---------- merging merged outputs ----------

  lemma MergeAssociative<T>(x: Completion<T>, y: Completion<T>, z: Completion<T>)
    ensures Merge(Merge(x, y), z) == Merge(x, Merge(y, z))
  {
    assert x.text + y.text + z.text == x.text + (y.text + z.text);
    assert x.tokenIds + y.tokenIds + z.tokenIds == x.tokenIds + (y.tokenIds + z.tokenIds);
    var a, b, c := OrEmpty(x.logprobs), OrEmpty(y.logprobs), OrEmpty(z.logprobs);
    assert a + b + c == a + (b + c) && a + [] == a && [] + c == c;
  }

  lemma FindUpdated<T>(outs: seq<Completion<T>>, i: nat, c: Completion<T>, index: int)
    requires i < |outs| && outs[i].index == c.index
    ensures Find(outs[i := c], index) == Find(outs, index)
  {
    FindIs(outs[i := c], index, Find(outs, index));
  }

  lemma {:induction false} FindIs<T>(outs: seq<Completion<T>>, index: int, i: nat)
    requires i <= |outs| && (i < |outs| ==> outs[i].index == index)
    requires forall j | 0 <= j < i :: outs[j].index != index
    ensures Find(outs, index) == i
  {
  }

  lemma FindSnoc<T>(outs: seq<Completion<T>>, n: Completion<T>, index: int)
    ensures Find(outs + [n], index)
            == if Find(outs, index) < |outs| || n.index == index then Find(outs, index) else |outs| + 1
  {
    assert (outs + [n])[..|outs|] == outs;
  }

  lemma StepTwice<T>(outs: seq<Completion<T>>, p: Completion<T>, z: Completion<T>, aggregate: bool)
    requires p.index == z.index
    ensures Step(Step(outs, p, aggregate), z, aggregate) == Step(outs, Combine(p, z, aggregate), aggregate)
  {
    var i := Find(outs, p.index);
    if i < |outs| {
      MergeAssociative(outs[i], p, z);
      FindUpdated(outs, i, Combine(outs[i], p, aggregate), p.index);
    } else {
      FindSnoc(outs, p, p.index);
    }
  }

  lemma UpdatesCommute<T>(s: seq<T>, i: nat, x: T, j: nat, y: T)
    requires i < |s| && j < |s| && i != j
    ensures s[i := x][j := y] == s[j := y][i := x] && s[i := x][j] == s[j] && s[j := y][i] == s[i]
  {
  }

  lemma StepsCommute<T>(outs: seq<Completion<T>>, z: Completion<T>, p: Completion<T>, aggregate: bool)
    requires p.index != z.index && Find(outs, z.index) < |outs|
    ensures Step(Step(outs, z, aggregate), p, aggregate) == Step(Step(outs, p, aggregate), z, aggregate)
  {
    hide Step, Find, Combine;
    var i, j := Find(outs, z.index), Find(outs, p.index);
    var c := Combine(outs[i], z, aggregate);
    StepIs(outs, z, aggregate);
    StepIs(outs, p, aggregate);
    FindUpdated(outs, i, c, p.index);
    StepIs(outs[i := c], p, aggregate);
    if j < |outs| {
      var d := Combine(outs[j], p, aggregate);
      FindUpdated(outs, j, d, z.index);
      StepIs(outs[j := d], z, aggregate);
      UpdatesCommute(outs, i, c, j, d);
    } else {
      FindSnoc(outs, p, z.index);
      StepIs(outs + [p], z, aggregate);
      assert (outs + [p])[i := c] == outs[i := c] + [p];
    }
  }

  lemma StepIs<T>(outs: seq<Completion<T>>, n: Completion<T>, aggregate: bool)
    ensures var i := Find(outs, n.index);
            Step(outs, n, aggregate)
            == if i == |outs| then outs + [n] else outs[i := Combine(outs[i], n, aggregate)]
    ensures var i := Find(outs, n.index);
            i < |outs| ==> outs[i].index == n.index == Combine(outs[i], n, aggregate).index
  {
  }

  lemma {:induction false} FoldFinds<T>(outs: seq<Completion<T>>, nexts: seq<Completion<T>>, index: int, aggregate: bool)
    requires Find(nexts, index) < |nexts|
    ensures Find(Fold(outs, nexts, aggregate), index) < |Fold(outs, nexts, aggregate)|
  {
    hide Step;
    var front, n := nexts[..|nexts| - 1], nexts[|nexts| - 1];
    if n.index != index {
      FoldFinds(outs, front, index, aggregate);
    }
    StepFinds(Fold(outs, front, aggregate), n, index, aggregate);
  }

  lemma StepFinds<T>(outs: seq<Completion<T>>, n: Completion<T>, index: int, aggregate: bool)
    requires n.index == index || Find(outs, index) < |outs|
    ensures Find(Step(outs, n, aggregate), index) < |Step(outs, n, aggregate)|
  {
    var i := Find(outs, n.index);
    if i < |outs| {
      FindUpdated(outs, i, Combine(outs[i], n, aggregate), index);
    } else {
      FindSnoc(outs, n, index);
    }
  }

  lemma {:induction false} FoldThroughStep<T>(a: seq<Completion<T>>, b: seq<Completion<T>>, z: Completion<T>,
                                              aggregate: bool)
    requires Distinct(Indices(b))
    ensures Fold(a, Step(b, z, aggregate), aggregate) == Step(Fold(a, b, aggregate), z, aggregate)
  {
    var i, stepped := Find(b, z.index), Step(b, z, aggregate);
    if i == |b| {
      assert stepped[..|b|] == b;
    } else {
      var front, last := b[..|b| - 1], b[|b| - 1];
      assert Indices(front) == Indices(b)[..|b| - 1];
      assert Indices(b)[i] == z.index && Indices(b)[|b| - 1] == last.index;
      hide Combine;
      if i == |b| - 1 {
        assert stepped[..|b| - 1] == front;
        StepTwice(Fold(a, front, aggregate), last, z, aggregate);
      } else {
        FoldThroughStep(a, front, z, aggregate);
        assert stepped[..|b| - 1] == Step(front, z, aggregate);
        FoldFinds(a, front, z.index, aggregate);
        StepsCommute(Fold(a, front, aggregate), z, last, aggregate);
      }
    }
  }

  /** Where no assertion fails, merging b and then c is the same as merging what b and c merge into. */
  lemma {:induction false} FoldRegroups<T>(a: seq<Completion<T>>, b: seq<Completion<T>>, c: seq<Completion<T>>,
                                           aggregate: bool)
    requires Distinct(Indices(b))
    ensures Fold(Fold(a, b, aggregate), c, aggregate) == Fold(a, Fold(b, c, aggregate), aggregate)
  {
    hide Step, Distinct;
    if c != [] {
      var front, z := c[..|c| - 1], c[|c| - 1];
      FoldRegroups(a, b, front, aggregate);
      FoldIndices(b, front, aggregate);
      FoldThroughStep(a, Fold(b, front, aggregate), z, aggregate);
    }
  }

  /** Merging one list after the other is merging all of them, whatever their indices. */
  lemma {:induction false} FoldConcat<T>(a: seq<Completion<T>>, b: seq<Completion<T>>, c: seq<Completion<T>>,
                                         aggregate: bool)
    ensures Fold(Fold(a, b, aggregate), c, aggregate) == Fold(a, b + c, aggregate)
  {
    if c == [] {
      assert b + c == b;
    } else {
      FoldConcat(a, b, c[..|c| - 1], aggregate);
      assert (b + c)[..|b + c| - 1] == b + c[..|c| - 1];
    }
  }

  // ---------- logprobs that cannot be extended ----------

  /** The assertion that there are logprobs to extend. */
  predicate StepOk<T>(outs: seq<Completion<T>>, n: Completion<T>, aggregate: bool) {
    aggregate && OrEmpty(n.logprobs) != [] ==> Given(outs, n.index)
  }

  /** An index is new, or its first completion has logprobs. */
  predicate Given<T>(outs: seq<Completion<T>>, index: int) {
    var i := Find(outs, index);
    i < |outs| ==> outs[i].logprobs.Some?
  }

  predicate FoldOk<T>(outs: seq<Completion<T>>, nexts: seq<Completion<T>>, aggregate: bool) {
    nexts == [] ||
    (FoldOk(outs, nexts[..|nexts| - 1], aggregate)
     && StepOk(Fold(outs, nexts[..|nexts| - 1], aggregate), nexts[|nexts| - 1], aggregate))
  }

  lemma StepGiven<T>(outs: seq<Completion<T>>, n: Completion<T>, index: int)
    requires StepOk(outs, n, true)
    ensures Given(Step(outs, n, true), index) <==> Given(outs + [n], index)
  {
    var i := Find(outs, n.index);
    FindSnoc(outs, n, index);
    if i < |outs| {
      FindUpdated(outs, i, Combine(outs[i], n, true), index);
    }
  }

  lemma GivenSnoc<T>(a: seq<Completion<T>>, b: seq<Completion<T>>, n: Completion<T>, index: int)
    requires Given(a, index) <==> Given(b, index)
    requires Find(a, index) < |a| <==> Find(b, index) < |b|
    ensures Given(a + [n], index) <==> Given(b + [n], index)
  {
    FindSnoc(a, n, index);
    FindSnoc(b, n, index);
  }

  lemma {:induction false} FoldGiven<T>(outs: seq<Completion<T>>, nexts: seq<Completion<T>>, index: int)
    requires FoldOk(outs, nexts, true)
    ensures Given(Fold(outs, nexts, true), index) <==> Given(outs + nexts, index)
    ensures var r := Fold(outs, nexts, true);
            Find(r, index) < |r| <==> Find(outs + nexts, index) < |outs + nexts|
  {
    hide Step, Given, Find, StepOk;
    if nexts == [] {
      assert outs + nexts == outs;
    } else {
      var front, n := nexts[..|nexts| - 1], nexts[|nexts| - 1];
      var r := Fold(outs, front, true);
      FoldGiven(outs, front, index);
      assert outs + nexts == outs + front + [n];
      StepGiven(r, n, index);
      GivenSnoc(r, outs + front, n, index);
      StepFound(r, n, index);
      FindSnoc(outs + front, n, index);
    }
  }

  lemma StepFound<T>(outs: seq<Completion<T>>, n: Completion<T>, index: int)
    ensures var r := Step(outs, n, true);
            Find(r, index) < |r| <==> n.index == index || Find(outs, index) < |outs|
  {
    var i := Find(outs, n.index);
    if i < |outs| {
      FindUpdated(outs, i, Combine(outs[i], n, true), index);
    } else {
      FindSnoc(outs, n, index);
    }
  }

  /** All logprobs that arrive are for indices whose first completion has logprobs. */
  ghost predicate LogprobsFit<T>(outs: seq<Completion<T>>, nexts: seq<Completion<T>>) {
    forall k | 0 <= k < |nexts| :: OrEmpty(nexts[k].logprobs) == [] || Given(outs + nexts, nexts[k].index)
  }

  /** No assertion fails exactly if every index that gets logprobs had logprobs from its first completion on. */
  lemma {:induction false} FoldOkExact<T>(outs: seq<Completion<T>>, nexts: seq<Completion<T>>)
    ensures FoldOk(outs, nexts, true) <==> LogprobsFit(outs, nexts)
  {
    hide Step, Given, Find;
    if nexts != [] {
      var front, n := nexts[..|nexts| - 1], nexts[|nexts| - 1];
      FoldOkExact(outs, front);
      assert outs + nexts == outs + front + [n];
      forall k | 0 <= k < |front| ensures Given(outs + nexts, nexts[k].index) <==> Given(outs + front, front[k].index) {
        GivenEarlier(outs, front, n, k);
      }
      if FoldOk(outs, front, true) {
        FoldGiven(outs, front, n.index);
        GivenLast(outs + front, n);
      }
    }
  }

  lemma GivenEarlier<T>(outs: seq<Completion<T>>, front: seq<Completion<T>>, n: Completion<T>, k: nat)
    requires k < |front|
    ensures Given(outs + front + [n], front[k].index) <==> Given(outs + front, front[k].index)
  {
    FindSnoc(outs + front, n, front[k].index);
    assert (outs + front)[|outs| + k].index == front[k].index;
  }

  lemma GivenLast<T>(outs: seq<Completion<T>>, n: Completion<T>)
    ensures OrEmpty(n.logprobs) != [] ==> (Given(outs + [n], n.index) <==> Given(outs, n.index))
  {
    FindSnoc(outs, n, n.index);
  }

  // ---------- grouping of merges ----------

  lemma GivenElsewhere<T>(outs: seq<Completion<T>>, n: Completion<T>, index: int)
    requires n.index != index
    ensures Given(Step(outs, n, true), index) <==> Given(outs, index)
  {
    hide Combine;
    var i := Find(outs, n.index);
    StepIs(outs, n, true);
    FindSnoc(outs, n, index);
    if i < |outs| {
      FindUpdated(outs, i, Combine(outs[i], n, true), index);
    }
  }

  lemma StepOkTwice<T>(outs: seq<Completion<T>>, p: Completion<T>, z: Completion<T>)
    requires p.index == z.index && (OrEmpty(z.logprobs) != [] ==> p.logprobs.Some?)
    ensures StepOk(outs, Merge(p, z), true) <==> StepOk(outs, p, true) && StepOk(Step(outs, p, true), z, true)
  {
    var i := Find(outs, p.index);
    if i < |outs| {
      FindUpdated(outs, i, Merge(outs[i], p), p.index);
    } else {
      FindSnoc(outs, p, p.index);
    }
  }

  /** Merging z into b first, where that works, fails in a exactly if merging b and then z into a does. */
  lemma {:induction false} OkThroughStep<T>(a: seq<Completion<T>>, b: seq<Completion<T>>, z: Completion<T>)
    requires Distinct(Indices(b)) && StepOk(b, z, true)
    ensures FoldOk(a, Step(b, z, true), true) <==> FoldOk(a, b, true) && StepOk(Fold(a, b, true), z, true)
  {
    var i, stepped := Find(b, z.index), Step(b, z, true);
    if i == |b| {
      assert stepped[..|b|] == b;
    } else {
      var front, last := b[..|b| - 1], b[|b| - 1];
      var x := Fold(a, front, true);
      assert Indices(front) == Indices(b)[..|b| - 1];
      assert Indices(b)[i] == z.index && Indices(b)[|b| - 1] == last.index;
      if i == |b| - 1 {
        assert stepped == front + [Merge(last, z)];
        assert stepped[..|b| - 1] == front;
        hide Merge, Step, StepOk;
        StepOkTwice(x, last, z);
      } else {
        OkThroughStep(a, front, z);
        assert stepped[..|b| - 1] == Step(front, z, true);
        FoldThroughStep(a, front, z, true);
        GivenElsewhere(x, z, last.index);
        GivenElsewhere(x, last, z.index);
        hide Merge, Step, Given;
      }
    }
  }

  lemma {:induction false} OkRegroups<T>(a: seq<Completion<T>>, b: seq<Completion<T>>, c: seq<Completion<T>>)
    requires Distinct(Indices(b)) && FoldOk(b, c, true)
    ensures FoldOk(a, Fold(b, c, true), true) <==> FoldOk(a, b, true) && FoldOk(Fold(a, b, true), c, true)
  {
    hide Step, StepOk, Distinct;
    if c != [] {
      var front, z := c[..|c| - 1], c[|c| - 1];
      OkRegroups(a, b, front);
      FoldIndices(b, front, true);
      FoldRegroups(a, b, front, true);
      OkThroughStep(a, Fold(b, front, true), z);
    }
  }

  /**
   Merging b and then c, against merging what b and c merge into. The second way fails no assertion if and only if
   the first fails none and every index that c brings logprobs for had logprobs from its first completion on in b
   and c alone; the results are then equal. Without aggregation nothing fails, and they are always equal.
   */
  lemma FoldAssociative<T>(a: seq<Completion<T>>, b: seq<Completion<T>>, c: seq<Completion<T>>)
    requires Distinct(Indices(b))
    ensures FoldOk(b, c, true) && FoldOk(a, Fold(b, c, true), true)
            <==> FoldOk(a, b, true) && FoldOk(Fold(a, b, true), c, true) && LogprobsFit(b, c)
    ensures FoldOk(b, c, true) && FoldOk(a, Fold(b, c, true), true) ==>
              Fold(Fold(a, b, true), c, true) == Fold(a, Fold(b, c, true), true)
    ensures Fold(Fold(a, b, false), c, false) == Fold(a, Fold(b, c, false), false)
  {
    FoldOkExact(b, c);
    FoldRegroups(a, b, c, true);
    FoldRegroups(a, b, c, false);
    if FoldOk(b, c, true) {
      OkRegroups(a, b, c);
    }
  }

  /** Three outputs of one index that can be merged one after the other, although the last two cannot be merged. */
  lemma GroupingFails() returns (a: seq<Completion<int>>, b: seq<Completion<int>>, c: seq<Completion<int>>)
    ensures FoldOk(a, b, true) && FoldOk(Fold(a, b, true), c, true) && !FoldOk(b, c, true)
  {
    var x := Completion(0, "", [], Some([1]), None, None, None);
    var y := Completion(0, "", [], None, None, None, None);
    var z := Completion(0, "", [], Some([2]), None, None, None);
    a, b, c := [x], [y], [z];
    FoldOne(a, y);
    FoldOne(b, z);
    FoldOne(a, z);
    assert x.text + y.text == x.text && x.tokenIds + y.tokenIds == x.tokenIds;
    assert Merge(x, y) == x && Find(a, 0) == 0 && Find(b, 0) == 0;
    assert Step(a, y, true) == a[0 := x] == a;
    assert |OrEmpty(z.logprobs)| == 1 && Given(a, 0) && !Given(b, 0);
    hide Fold, FoldOk, Find, Step, Given;
  }

  lemma FoldOne<T>(outs: seq<Completion<T>>, n: Completion<T>)
    ensures Fold(outs, [n], true) == Step(outs, n, true) && (FoldOk(outs, [n], true) <==> StepOk(outs, n, true))
  {
    assert [n][..0] == [];
    assert Fold(outs, [], true) == outs && FoldOk(outs, [], true);
    hide Step, StepOk;
  }
}

module OutputMerge {
  import opened OutputMergeSpec
  import opened Sequences
  import opened Wrappers

  /** The output data of one completion; its index never changes. */
  class CompletionOutput<T> {
    const index: int
    var text: string
    var tokenIds: seq<int>
    var logprobs: Option<seq<T>>
    var cumulativeLogprob: Option<real>
    var finishReason: Option<string>
    var stopReason: Option<string>

    constructor (c: Completion<T>)
      ensures View() == c
    {
      index, text, tokenIds, logprobs := c.index, c.text, c.tokenIds, c.logprobs;
      cumulativeLogprob, finishReason, stopReason := c.cumulativeLogprob, c.finishReason, c.stopReason;
    }

    ghost function View(): Completion<T>
      reads this
    {
      Completion(index, text, tokenIds, logprobs, cumulativeLogprob, finishReason, stopReason)
    }

    /** Appends a later output of the same index; stops half-way if there are no logprobs to extend. */
    method Extend(next: CompletionOutput<T>) returns (ok: bool)
      requires next != this
      modifies this
      ensures ok <==> OrEmpty(next.logprobs) == [] || old(logprobs).Some?
      ensures View() == if ok then Merge(old(View()), next.View()) else HalfMerged(old(View()), next.View())
    {
      text := text + next.text;
      tokenIds := tokenIds + next.tokenIds;
      if next.logprobs.Some? && next.logprobs.value != [] {
        if logprobs.None? {
          return false;
        }
        logprobs := Some(logprobs.value + next.logprobs.value);
      }
      cumulativeLogprob := next.cumulativeLogprob;
      finishReason := next.finishReason;
      stopReason := next.stopReason;
      ok := true;
    }
  }

  /** What the failed assertion leaves behind. */
  function HalfMerged<T>(c: Completion<T>, n: Completion<T>): Completion<T> {
    c.(text := c.text + n.text, tokenIds := c.tokenIds + n.tokenIds)
  }

  ghost function Views<T>(outs: seq<CompletionOutput<T>>): (v: seq<Completion<T>>)
    reads outs
    ensures |v| == |outs| && forall i | 0 <= i < |outs| :: v[i] == outs[i].View()
  {
    if outs == [] then [] else Views(outs[..|outs| - 1]) + [outs[|outs| - 1].View()]
  }

  ghost function Objects<T>(outs: seq<CompletionOutput<T>>): set<CompletionOutput<T>> {
    set o | o in outs
  }

  class RequestOutput<T, K> {
    var outputs: seq<CompletionOutput<T>>
    var finished: bool
    var kvTransferParams: Option<K>

    constructor (outputs: seq<CompletionOutput<T>>, finished: bool, kvTransferParams: Option<K>)
      ensures this.outputs == outputs && this.finished == finished && this.kvTransferParams == kvTransferParams
    {
      this.outputs, this.finished, this.kvTransferParams := outputs, finished, kvTransferParams;
    }

    /** The inner loop's search: the first output of an index, or the end. */
    method FirstOutput(index: int) returns (i: nat)
      ensures i == Find(Views(outputs), index) && i <= |outputs|
    {
      i := 0;
      while i < |outputs| && outputs[i].index != index
        invariant i <= |outputs|
        invariant forall j | 0 <= j < i :: outputs[j].index != index
      {
        i := i + 1;
      }
      FindIs(Views(outputs), index, i);
    }

    /** Merges one completion into the first output of its index, or appends it. */
    method AddCompletion(next: CompletionOutput<T>, aggregate: bool) returns (ok: bool)
      requires Distinct(outputs) && next !in outputs
      modifies this`outputs, Objects(outputs)
      ensures Distinct(outputs) && Objects(outputs) <= Objects(old(outputs)) + {next}
      ensures ok <==> StepOk(old(Views(outputs)), next.View(), aggregate)
      ensures ok ==> Views(outputs) == Step(old(Views(outputs)), next.View(), aggregate)
      ensures !ok ==> HalfStepped(Views(outputs), old(Views(outputs)), next.View())
    {
      hide Find, Merge, Distinct, Views, HalfMerged;
      var i := FirstOutput(next.index);
      UnsharedStep(outputs, next, i);
      if i == |outputs| {
        outputs := outputs + [next];
        ok := true;
      } else if aggregate {
        ok := MergeAt(i, next);
      } else {
        outputs := outputs[i := next];
        ok := true;
      }
    }

    /**
     Merges a later output of the request into this one. A failed assertion leaves the completions before the
     failing one merged, and the failing one half merged.
     */
    method Add(next: RequestOutput<T, K>, aggregate: bool) returns (ok: bool)
      requires next != this && Distinct(outputs + next.outputs)
      modifies this, Objects(outputs), Objects(next.outputs)
      ensures finished == (old(finished) || next.finished) && kvTransferParams == next.kvTransferParams
      ensures ok <==> FoldOk(old(Views(outputs)), old(Views(next.outputs)), aggregate)
      ensures ok ==> Views(outputs) == Fold(old(Views(outputs)), old(Views(next.outputs)), aggregate)
      ensures ok && old(Distinct(Indices(Views(outputs)))) ==>
                Merged(Views(outputs), old(Views(outputs) + Views(next.outputs)), aggregate)
      ensures ok <==> !aggregate || LogprobsFit(old(Views(outputs)), old(Views(next.outputs)))
      ensures !ok ==> FailedHalfway(Views(outputs), old(Views(outputs)), old(Views(next.outputs)), aggregate)
      ensures Distinct(outputs) && Objects(outputs) <= Objects(old(outputs)) + Objects(next.outputs)
    {
      hide Views, StepOk, Step, HalfStepped, Distinct, FailedHalfway, FailedAt, Objects, Fold, FoldOk, Merged, Indices,
           LogprobsFit;
      finished := finished || next.finished;
      kvTransferParams := next.kvTransferParams;
      ghost var was, nexts := Views(outputs), Views(next.outputs);
      UnsharedParts(outputs, next.outputs);
      ViewsLength(next.outputs);
      FoldNothing(was, nexts, aggregate);
      FoldResult(was, nexts, aggregate);
      AllObjects(next.outputs);
      for k := 0 to |next.outputs|
        invariant next.outputs == old(next.outputs)
        invariant finished == (old(finished) || next.finished) && kvTransferParams == next.kvTransferParams
        invariant Distinct(outputs) && Objects(outputs) <= Objects(old(outputs)) + Objects(next.outputs[..k])
        invariant FoldOk(was, nexts[..k], aggregate) && Views(outputs) == Fold(was, nexts[..k], aggregate)
        invariant forall j | k <= j < |next.outputs| :: next.outputs[j].View() == nexts[j]
      {
        StillNew(old(outputs), next.outputs, k, outputs);
        FoldPrefix(was, nexts, k, aggregate);
        ok := AddCompletion(next.outputs[k], aggregate);
        if !ok {
          FoldStops(was, nexts, k, aggregate);
          FailsHere(Views(outputs), was, nexts, k, aggregate);
          return;
        }
      }
      assert nexts[..|nexts|] == nexts;
      ok := true;
    }

    method MergeAt(i: nat, next: CompletionOutput<T>) returns (ok: bool)
      requires i < |outputs| && Distinct(outputs) && next !in outputs
      modifies Objects(outputs)
      ensures var was, n := old(Views(outputs)), next.View();
              && (ok <==> OrEmpty(n.logprobs) == [] || was[i].logprobs.Some?)
              && Views(outputs) == was[i := if ok then Merge(was[i], n) else HalfMerged(was[i], n)]
    {
      hide Views, Merge, HalfMerged;
      assert outputs[i] in Objects(outputs);
      assert forall j | 0 <= j < |outputs| && j != i :: outputs[j] != outputs[i];
      ok := outputs[i].Extend(next);
    }
  }

  lemma UnsharedStep<T>(outs: seq<CompletionOutput<T>>, next: CompletionOutput<T>, i: nat)
    requires Distinct(outs) && next !in outs && i <= |outs|
    ensures Views(outs + [next]) == Views(outs) + [next.View()] && Distinct(outs + [next])
    ensures Objects(outs + [next]) == Objects(outs) + {next}
    ensures i < |outs| ==> Views(outs[i := next]) == Views(outs)[i := next.View()] && Distinct(outs[i := next])
    ensures i < |outs| ==> Objects(outs[i := next]) <= Objects(outs) + {next}
  {
    hide Views;
  }

  /** The failing step's own output is half merged, and the others are as they were. */
  ghost predicate HalfStepped<T>(after: seq<Completion<T>>, was: seq<Completion<T>>, n: Completion<T>) {
    var i := Find(was, n.index);
    i < |was| && after == was[i := HalfMerged(was[i], n)]
  }

  ghost predicate FailedHalfway<T>(after: seq<Completion<T>>, was: seq<Completion<T>>, nexts: seq<Completion<T>>,
                                   aggregate: bool) {
    exists k | 0 <= k < |nexts| :: FailedAt(after, was, nexts, k, aggregate)
  }

  ghost predicate FailedAt<T>(after: seq<Completion<T>>, was: seq<Completion<T>>, nexts: seq<Completion<T>>, k: nat,
                              aggregate: bool)
    requires k < |nexts|
  {
    && FoldOk(was, nexts[..k], aggregate) && !StepOk(Fold(was, nexts[..k], aggregate), nexts[k], aggregate)
    && HalfStepped(after, Fold(was, nexts[..k], aggregate), nexts[k])
  }

  lemma {:induction false} NeverFails<T>(was: seq<Completion<T>>, nexts: seq<Completion<T>>)
    ensures FoldOk(was, nexts, false)
  {
    hide Fold;
    if nexts != [] {
      NeverFails(was, nexts[..|nexts| - 1]);
    }
  }

  lemma FoldResult<T>(was: seq<Completion<T>>, nexts: seq<Completion<T>>, aggregate: bool)
    ensures Distinct(Indices(was)) ==> Merged(Fold(was, nexts, aggregate), was + nexts, aggregate)
    ensures FoldOk(was, nexts, aggregate) <==> !aggregate || LogprobsFit(was, nexts)
  {
    if Distinct(Indices(was)) {
      FoldIsMerged(was, nexts, aggregate);
    }
    NeverFails(was, nexts);
    FoldOkExact(was, nexts);
  }

  lemma FoldNothing<T>(was: seq<Completion<T>>, nexts: seq<Completion<T>>, aggregate: bool)
    ensures Fold(was, nexts[..0], aggregate) == was && FoldOk(was, nexts[..0], aggregate)
  {
  }

  lemma FoldPrefix<T>(was: seq<Completion<T>>, nexts: seq<Completion<T>>, k: nat, aggregate: bool)
    requires k < |nexts|
    ensures Fold(was, nexts[..k + 1], aggregate) == Step(Fold(was, nexts[..k], aggregate), nexts[k], aggregate)
    ensures FoldOk(was, nexts[..k + 1], aggregate)
            <==> FoldOk(was, nexts[..k], aggregate) && StepOk(Fold(was, nexts[..k], aggregate), nexts[k], aggregate)
  {
    assert nexts[..k + 1][..k] == nexts[..k];
  }

  lemma FailsHere<T>(after: seq<Completion<T>>, was: seq<Completion<T>>, nexts: seq<Completion<T>>, k: nat,
                     aggregate: bool)
    requires k < |nexts| && FoldOk(was, nexts[..k], aggregate)
    requires !StepOk(Fold(was, nexts[..k], aggregate), nexts[k], aggregate)
    requires HalfStepped(after, Fold(was, nexts[..k], aggregate), nexts[k])
    ensures FailedHalfway(after, was, nexts, aggregate)
  {
    assert FailedAt(after, was, nexts, k, aggregate);
  }

  lemma {:induction false} FoldStops<T>(was: seq<Completion<T>>, nexts: seq<Completion<T>>, k: nat, aggregate: bool)
    requires k < |nexts| && !StepOk(Fold(was, nexts[..k], aggregate), nexts[k], aggregate)
    ensures !FoldOk(was, nexts, aggregate)
  {
    if k < |nexts| - 1 {
      assert nexts[..|nexts| - 1][..k] == nexts[..k];
      FoldStops(was, nexts[..|nexts| - 1], k, aggregate);
    }
  }

  lemma UnsharedParts<T>(outs: seq<CompletionOutput<T>>, nexts: seq<CompletionOutput<T>>)
    requires Distinct(outs + nexts)
    ensures Distinct(outs) && Distinct(nexts) && forall o | o in nexts :: o !in outs
  {
    var all := outs + nexts;
    forall i, j | 0 <= i < |outs| && 0 <= j < |nexts| ensures outs[i] != nexts[j] {
      assert all[i] != all[|outs| + j];
    }
    forall i, j | 0 <= i < j < |nexts| ensures nexts[i] != nexts[j] {
      assert all[|outs| + i] != all[|outs| + j];
    }
    forall i, j | 0 <= i < j < |outs| ensures outs[i] != outs[j] {
      assert all[i] != all[j];
    }
  }

  lemma ViewsLength<T>(outs: seq<CompletionOutput<T>>)
    ensures |Views(outs)| == |outs| && forall i | 0 <= i < |outs| :: Views(outs)[i] == outs[i].View()
  {
  }

  lemma AllObjects<T>(nexts: seq<CompletionOutput<T>>)
    ensures nexts[..0] == [] && Objects<T>([]) == {} && nexts[..|nexts|] == nexts
  {
  }

  /** The completion to come, and those after it, are not among the outputs yet. */
  lemma StillNew<T>(was: seq<CompletionOutput<T>>, nexts: seq<CompletionOutput<T>>, k: nat,
                    outs: seq<CompletionOutput<T>>)
    requires k < |nexts| && Distinct(nexts) && forall o | o in nexts :: o !in was
    requires Objects(outs) <= Objects(was) + Objects(nexts[..k])
    ensures forall j | k <= j < |nexts| :: nexts[j] !in outs && nexts[j] !in Objects(outs)
    ensures Objects(outs) <= Objects(was) + Objects(nexts)
    ensures Objects(nexts[..k]) + {nexts[k]} == Objects(nexts[..k + 1]) <= Objects(nexts)
  {
    assert nexts[..k + 1] == nexts[..k] + [nexts[k]];
    forall j | k <= j < |nexts| ensures nexts[j] !in Objects(outs) {
      assert nexts[j] in nexts;
      assert nexts[j] !in Objects(was);
      assert nexts[j] !in nexts[..k];
    }
    forall j | k <= j < |nexts| ensures nexts[j] !in outs {
      assert nexts[j] !in Objects(outs);
    }
  }
}
