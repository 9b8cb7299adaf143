// Keeping generated token sequences free of forbidden words, one step at a time.
module BadWordsSpec {

  /** A float, as far as adding zero and minus infinity can tell one from another. */
  datatype Logit = NegInf | Fin(value: real) | PosInf | NaN

  function Add(a: Logit, b: Logit): Logit {
    match (a, b)
    case (NaN, _) => NaN
    case (_, NaN) => NaN
    case (Fin(x), Fin(y)) => Fin(x + y)
    case (NegInf, PosInf) => NaN
    case (PosInf, NegInf) => NaN
    case (Fin(_), _) => b
    case (_, _) => a
  }

  const NEUTRAL := Fin(0.0)

  // ---------- what it means to complete a word ----------

  /** The token would make the word the end of the tokens so far. */
  predicate Completes(word: seq<int>, past: seq<int>, token: int) {
    0 < |word| <= |past| + 1 && (past + [token])[|past| + 1 - |word|..] == word
  }

  ghost predicate CompletesAny(words: seq<seq<int>>, past: seq<int>, token: int) {
    exists w | w in words :: Completes(w, past, token)
  }

  /** The word stands at a position. */
  ghost predicate OccursAt(word: seq<int>, tokens: seq<int>, at: int) {
    0 <= at <= |tokens| - |word| && tokens[at..at + |word|] == word
  }

  ghost predicate Contains(tokens: seq<int>, word: seq<int>) {
    exists at :: OccursAt(word, tokens, at)
  }

  /** No word that has a token occurs anywhere. */
  ghost predicate Clean(words: seq<seq<int>>, tokens: seq<int>) {
    forall w | w in words && w != [] :: !Contains(tokens, w)
  }

  /** A word is completed exactly when it becomes the last thing that the tokens contain. */
  lemma CompletesExact(word: seq<int>, past: seq<int>, token: int)
    ensures Completes(word, past, token) <==>
            word != [] && OccursAt(word, past + [token], |past| + 1 - |word|)
  {
    var all := past + [token];
    if word != [] && |word| <= |all| {
      assert all[|all| - |word|..] == all[|all| - |word|..|all|];
    }
  }

  /** One more token keeps the tokens clean exactly if it completes no word. */
  lemma CleanStep(words: seq<seq<int>>, past: seq<int>, token: int)
    ensures Clean(words, past + [token]) <==> Clean(words, past) && !CompletesAny(words, past, token)
  {
    hide Completes;
    forall w | w in words && w != []
      ensures Contains(past + [token], w) <==> Contains(past, w) || Completes(w, past, token)
    {
      ContainsStep(w, past, token);
    }
    forall w | w in words && Completes(w, past, token) ensures w != [] {
      CompletesExact(w, past, token);
    }
  }

  lemma ContainsStep(word: seq<int>, past: seq<int>, token: int)
    requires word != []
    ensures Contains(past + [token], word) <==> Contains(past, word) || Completes(word, past, token)
  {
    hide Completes;
    var all := past + [token];
    CompletesExact(word, past, token);
    forall at ensures OccursAt(word, past, at) <==> OccursAt(word, all, at) && at + |word| <= |past| {
      if 0 <= at && at + |word| <= |past| {
        assert all[at..at + |word|] == past[at..at + |word|];
      }
    }
    assert forall at | OccursAt(word, all, at) :: at + |word| <= |past| || at == |past| + 1 - |word|;
  }

  /** A sequence is clean exactly if no step of it completes a word. */
  lemma {:induction false} CleanExact(words: seq<seq<int>>, tokens: seq<int>)
    ensures Clean(words, tokens) <==> forall k: nat | k < |tokens| :: !CompletesAny(words, tokens[..k], tokens[k])
  {
    hide CompletesAny;
    if tokens == [] {
      hide *;
      NothingIsClean(words);
    } else {
      var n := |tokens| - 1;
      var front := tokens[..n];
      assert tokens == front + [tokens[n]];
      CleanExact(words, front);
      CleanStep(words, front, tokens[n]);
      hide Clean;
      assert forall k: nat | k < n :: tokens[..k] == front[..k] && tokens[k] == front[k];
      assert tokens[..n] == front;
    }
  }

  lemma NothingIsClean(words: seq<seq<int>>)
    ensures Clean(words, [])
  {
  }

  // ---------- the logits after a step ----------

  /** The logit that a token has after the processor has seen it. */
  ghost function Processed(words: seq<seq<int>>, past: seq<int>, token: int, logit: Logit): Logit {
    if CompletesAny(words, past, token) then Add(logit, NegInf) else logit
  }

  /** Of the finite logits exactly those of completing tokens are masked; only plus infinity and NaN escape. */
  lemma MaskedExact(words: seq<seq<int>>, past: seq<int>, token: int, logit: Logit)
    ensures Processed(words, past, token, logit) == NegInf <==>
            logit == NegInf || (CompletesAny(words, past, token) && logit.Fin?)
  {
  }

  /** A forbidden token whose logit is plus infinity is not masked. */
  lemma InfinityEscapes()
    ensures Processed([[7]], [], 7, PosInf) == NaN
  {
    assert [7] in [[7]] && [] + [7] == [7];
    assert Completes([7], [], 7);
  }
}

module BadWords {
  import opened Wrappers
  import opened BadWordsSpec

  datatype Failure = ValueError(invalid: seq<int>) | IndexError

  predicate Outside(token: int, vocabSize: nat) {
    token < 0 || token >= vocabSize
  }

  /** The tokens of a word that are not in the vocabulary. */
  function InvalidIn(word: seq<int>, vocabSize: nat): seq<int> {
    if word == [] then []
    else InvalidIn(word[..|word| - 1], vocabSize)
         + if Outside(word[|word| - 1], vocabSize) then [word[|word| - 1]] else []
  }

  function Invalid(words: seq<seq<int>>, vocabSize: nat): seq<int> {
    if words == [] then [] else Invalid(words[..|words| - 1], vocabSize) + InvalidIn(words[|words| - 1], vocabSize)
  }

  ghost predicate WordInside(word: seq<int>, vocabSize: nat) {
    forall t | t in word :: !Outside(t, vocabSize)
  }

  ghost predicate InVocabulary(words: seq<seq<int>>, vocabSize: nat) {
    forall w | w in words :: WordInside(w, vocabSize)
  }

  lemma {:induction false} InvalidInExact(word: seq<int>, vocabSize: nat)
    ensures InvalidIn(word, vocabSize) == [] <==> WordInside(word, vocabSize)
  {
    if word != [] {
      InvalidInExact(word[..|word| - 1], vocabSize);
      assert word == word[..|word| - 1] + [word[|word| - 1]];
    }
  }

  lemma {:induction false} InvalidExact(words: seq<seq<int>>, vocabSize: nat)
    ensures Invalid(words, vocabSize) == [] <==> InVocabulary(words, vocabSize)
  {
    if words != [] {
      var front, last := words[..|words| - 1], words[|words| - 1];
      InvalidExact(front, vocabSize);
      InvalidInExact(last, vocabSize);
      hide WordInside;
      assert words == front + [last];
      assert forall w :: w in words <==> w in front || w == last;
    }
  }

  /** All the words' tokens in order. */
  function Flat(words: seq<seq<int>>): seq<int> {
    if words == [] then [] else Flat(words[..|words| - 1]) + words[|words| - 1]
  }

  /** The picked tokens stand, in this order, at exactly the places of all that hold a token outside the vocabulary. */
  ghost predicate Picks(picked: seq<int>, all: seq<int>, places: seq<nat>, vocabSize: nat) {
    && |places| == |picked|
    && (forall i, j | 0 <= i < j < |places| :: places[i] < places[j])
    && (forall i | 0 <= i < |places| :: places[i] < |all| && all[places[i]] == picked[i])
    && forall p: nat | p < |all| :: p in places <==> all[p] < 0 || all[p] >= vocabSize
  }

  lemma PicksSnoc(picked: seq<int>, all: seq<int>, places: seq<nat>, vocabSize: nat, token: int)
    requires Picks(picked, all, places, vocabSize)
    ensures if token < 0 || token >= vocabSize
            then Picks(picked + [token], all + [token], places + [|all|], vocabSize)
            else Picks(picked, all + [token], places, vocabSize)
  {
    var places' := if token < 0 || token >= vocabSize then places + [|all|] else places;
    forall p: nat | p < |all| + 1
      ensures p in places' <==> (all + [token])[p] < 0 || (all + [token])[p] >= vocabSize
    {
      if p == |all| {
        assert p !in places;
      } else {
        assert (all + [token])[p] == all[p];
      }
    }
  }

  lemma {:induction false} InvalidInConcat(a: seq<int>, b: seq<int>, vocabSize: nat)
    ensures InvalidIn(a + b, vocabSize) == InvalidIn(a, vocabSize) + InvalidIn(b, vocabSize)
  {
    if b == [] {
      assert a + b == a;
    } else {
      var front, last := b[..|b| - 1], b[|b| - 1];
      InvalidInConcat(a, front, vocabSize);
      assert (a + b)[..|a + b| - 1] == a + front;
    }
  }

  lemma {:induction false} InvalidFlat(words: seq<seq<int>>, vocabSize: nat)
    ensures Invalid(words, vocabSize) == InvalidIn(Flat(words), vocabSize)
  {
    hide InvalidIn;
    if words == [] {
      assert Invalid(words, vocabSize) == [] && Flat(words) == [];
      NoneInvalid(vocabSize);
    } else {
      InvalidFlat(words[..|words| - 1], vocabSize);
      InvalidInConcat(Flat(words[..|words| - 1]), words[|words| - 1], vocabSize);
    }
  }

  lemma NoneInvalid(vocabSize: nat)
    ensures InvalidIn([], vocabSize) == []
  {
  }

  lemma {:induction false} InvalidInPicks(all: seq<int>, vocabSize: nat) returns (places: seq<nat>)
    ensures Picks(InvalidIn(all, vocabSize), all, places, vocabSize)
  {
    places := [];
    if all != [] {
      var front, last := all[..|all| - 1], all[|all| - 1];
      places := InvalidInPicks(front, vocabSize);
      PicksSnoc(InvalidIn(front, vocabSize), front, places, vocabSize, last);
      assert front + [last] == all;
      if last < 0 || last >= vocabSize {
        places := places + [|front|];
      } else {
        assert InvalidIn(all, vocabSize) == InvalidIn(front, vocabSize);
      }
    }
  }

  /** The tokens reported are, in order and as often as they occur, those outside the vocabulary. */
  lemma InvalidPicks(words: seq<seq<int>>, vocabSize: nat)
    ensures exists places: seq<nat> :: Picks(Invalid(words, vocabSize), Flat(words), places, vocabSize)
  {
    InvalidFlat(words, vocabSize);
    var places := InvalidInPicks(Flat(words), vocabSize);
    hide Picks, Invalid, InvalidIn;
  }

  method CheckTokenIdsBounds(words: seq<seq<int>>, vocabSize: nat) returns (invalid: seq<int>)
    ensures invalid == Invalid(words, vocabSize)
    ensures exists places: seq<nat> :: Picks(invalid, Flat(words), places, vocabSize)
  {
    InvalidPicks(words, vocabSize);
    hide Picks;
    invalid := [];
    for i := 0 to |words|
      invariant invalid == Invalid(words[..i], vocabSize)
    {
      ghost var before := invalid;
      for j := 0 to |words[i]|
        invariant invalid == before + InvalidIn(words[i][..j], vocabSize)
      {
        assert words[i][..j + 1][..j] == words[i][..j];
        if words[i][j] < 0 || words[i][j] >= vocabSize {
          invalid := invalid + [words[i][j]];
        }
      }
      assert words[i][..|words[i]|] == words[i] && words[..i + 1][..i] == words[..i];
    }
    assert words[..|words|] == words;
  }

  // ---------- the two biases ----------

  ghost predicate CompletesLong(words: seq<seq<int>>, past: seq<int>, token: int) {
    exists w | w in words :: |w| != 1 && Completes(w, past, token)
  }

  /** Minus infinity for every word of one token, neutral otherwise. */
  ghost predicate IsWordBias(bias: seq<Logit>, words: seq<seq<int>>) {
    forall t | 0 <= t < |bias| :: bias[t] == if [t] in words then NegInf else NEUTRAL
  }

  ghost predicate IsLastTokenBias(bias: seq<Logit>, words: seq<seq<int>>, past: seq<int>) {
    forall t | 0 <= t < |bias| :: bias[t] == if CompletesLong(words, past, t) then NegInf else NEUTRAL
  }

  function Zeros(n: nat): (z: seq<Logit>)
    ensures |z| == n && forall t | 0 <= t < n :: z[t] == NEUTRAL
  {
    seq(n, _ => NEUTRAL)
  }

  lemma CompletesLongSnoc(words: seq<seq<int>>, w: seq<int>, past: seq<int>, token: int)
    ensures CompletesLong(words + [w], past, token) <==>
            CompletesLong(words, past, token) || (|w| != 1 && Completes(w, past, token))
  {
    hide Completes;
    assert forall v :: v in words + [w] <==> v in words || v == w;
  }

  lemma CompletesSplit(words: seq<seq<int>>, past: seq<int>, token: int)
    ensures CompletesAny(words, past, token) <==> [token] in words || CompletesLong(words, past, token)
  {
    forall w | |w| == 1 ensures Completes(w, past, token) <==> w == [token] {
    }
    if [token] in words {
      assert Completes([token], past, token);
    }
    hide Completes;
  }

  method InitWordBias(words: seq<seq<int>>, vocabSize: nat) returns (bias: seq<Logit>)
    requires InVocabulary(words, vocabSize)
    ensures |bias| == vocabSize && IsWordBias(bias, words)
  {
    bias := Zeros(vocabSize);
    for i := 0 to |words|
      invariant |bias| == vocabSize && IsWordBias(bias, words[..i])
    {
      var w := words[i];
      assert words[..i + 1] == words[..i] + [w];
      if |w| == 1 {
        assert w in words && w[0] in w && w == [w[0]];
        bias := bias[w[0] := NegInf];
      }
    }
    assert words[..|words|] == words;
  }

  /** Whether the tokens so far end with all but the last token of a word decides whether a token completes it. */
  lemma PrefixDecides(w: seq<int>, past: seq<int>, token: int)
    requires 1 < |w| <= |past| + 1
    ensures Completes(w, past, token) <==>
            past[|past| - (|w| - 1)..] == w[..|w| - 1] && token == w[|w| - 1]
  {
    var n := |past| - (|w| - 1);
    assert (past + [token])[n..] == past[n..] + [token];
    assert w == w[..|w| - 1] + [w[|w| - 1]];
  }

  lemma LastTokenBiasStep(bias: seq<Logit>, words: seq<seq<int>>, w: seq<int>, past: seq<int>, after: seq<Logit>)
    requires IsLastTokenBias(bias, words, past) && |after| == |bias|
    requires forall t | 0 <= t < |bias| ::
               after[t] == if |w| != 1 && Completes(w, past, t) then NegInf else bias[t]
    ensures IsLastTokenBias(after, words + [w], past)
  {
    hide Completes, CompletesLong;
    forall t | 0 <= t < |bias| ensures after[t] == if CompletesLong(words + [w], past, t) then NegInf else NEUTRAL {
      CompletesLongSnoc(words, w, past, t);
    }
  }

  /** A long word that is not longer than the tokens so far and one more. */
  method AddBias(bias: seq<Logit>, w: seq<int>, past: seq<int>) returns (after: seq<Logit>)
    requires 1 < |w| <= |past| + 1 && 0 <= w[|w| - 1] < |bias|
    requires bias[w[|w| - 1]] == NegInf || bias[w[|w| - 1]] == NEUTRAL
    ensures |after| == |bias|
    ensures forall t | 0 <= t < |bias| :: after[t] == if |w| != 1 && Completes(w, past, t) then NegInf else bias[t]
  {
    var prefixLength := |w| - 1;
    var last := w[|w| - 1];
    var isMatch := past[|past| - prefixLength..] == w[..prefixLength];
    after := bias[last := Add(bias[last], if isMatch then NegInf else NEUTRAL)];
    hide Completes;
    forall t | 0 <= t < |bias| ensures after[t] == if |w| != 1 && Completes(w, past, t) then NegInf else bias[t] {
      PrefixDecides(w, past, t);
    }
  }

  lemma LastIsInside(words: seq<seq<int>>, w: seq<int>, vocabSize: nat)
    requires InVocabulary(words, vocabSize) && w in words && w != []
    ensures 0 <= w[|w| - 1] < vocabSize
  {
    assert w[|w| - 1] in w;
  }

  /** The IndexError comes from reading the last token of an empty word. */
  method LastTokenBias(words: seq<seq<int>>, past: seq<int>, vocabSize: nat) returns (r: Result<seq<Logit>, Failure>)
    requires InVocabulary(words, vocabSize)
    ensures r.Ok? <==> [] !in words
    ensures r.Err? ==> r.error == IndexError
    ensures r.Ok? ==> |r.value| == vocabSize && IsLastTokenBias(r.value, words, past)
  {
    hide IsLastTokenBias, Completes, InVocabulary;
    var bias := Zeros(vocabSize);
    NoBias(bias, past);
    for i := 0 to |words|
      invariant |bias| == vocabSize && IsLastTokenBias(bias, words[..i], past) && [] !in words[..i]
    {
      var w := words[i];
      assert words[..i + 1] == words[..i] + [w] && w in words;
      if |w| == 1 {
        LastTokenBiasStep(bias, words[..i], w, past, bias);
        continue;
      }
      if |w| > |past| + 1 {
        TooLong(w, past);
        LastTokenBiasStep(bias, words[..i], w, past, bias);
        continue;
      }
      if w == [] {
        return Err(IndexError);
      }
      LastIsInside(words, w, vocabSize);
      NeverPositive(bias, words[..i], past, w[|w| - 1]);
      var after := AddBias(bias, w, past);
      LastTokenBiasStep(bias, words[..i], w, past, after);
      bias := after;
    }
    assert words[..|words|] == words;
    r := Ok(bias);
  }

  lemma NoBias(bias: seq<Logit>, past: seq<int>)
    requires forall t | 0 <= t < |bias| :: bias[t] == NEUTRAL
    ensures IsLastTokenBias(bias, [], past)
  {
  }

  lemma TooLong(w: seq<int>, past: seq<int>)
    requires |w| > |past| + 1
    ensures forall t :: !Completes(w, past, t)
  {
  }

  lemma NeverPositive(bias: seq<Logit>, words: seq<seq<int>>, past: seq<int>, t: int)
    requires IsLastTokenBias(bias, words, past) && 0 <= t < |bias|
    ensures bias[t] == NegInf || bias[t] == NEUTRAL
  {
  }

  // ---------- the processor ----------

  /** What the processor returns if nothing is wrong with the words. */
  ghost predicate IsProcessed(out: seq<Logit>, logits: seq<Logit>, words: seq<seq<int>>, past: seq<int>) {
    |out| == |logits| && forall t | 0 <= t < |out| :: out[t] == Processed(words, past, t, logits[t])
  }

  lemma BiasesAddUp(logits: seq<Logit>, wordBias: seq<Logit>, lastBias: seq<Logit>,
                    words: seq<seq<int>>, past: seq<int>, t: int)
    requires 0 <= t < |logits| == |wordBias| == |lastBias|
    requires IsWordBias(wordBias, words) && IsLastTokenBias(lastBias, words, past)
    ensures Add(Add(logits[t], wordBias[t]), lastBias[t]) == Processed(words, past, t, logits[t])
  {
    hide CompletesAny, CompletesLong;
    CompletesSplit(words, past, t);
  }

  class NoBadWordsLogitsProcessor {
    const badWordsIds: seq<seq<int>>
    var wordBias: Option<seq<Logit>>

    constructor (badWordsIds: seq<seq<int>>)
      ensures this.badWordsIds == badWordsIds && wordBias == None
    {
      this.badWordsIds := badWordsIds;
      wordBias := None;
    }

    ghost predicate Valid()
      reads this
    {
      wordBias.Some? ==> InVocabulary(badWordsIds, |wordBias.value|) && IsWordBias(wordBias.value, badWordsIds)
    }

    /**
     One step. The first call with a bad token is a ValueError naming all bad tokens, and any call with an empty
     word is an IndexError; otherwise exactly the completing tokens are masked.
     */
    method Call(past: seq<int>, logits: seq<Logit>) returns (r: Result<seq<Logit>, Failure>)
      requires Valid() && (wordBias.Some? ==> |wordBias.value| == |logits|)
      modifies this
      ensures Valid()
      ensures r.Err? && r.error.ValueError? <==> old(wordBias).None? && !InVocabulary(badWordsIds, |logits|)
      ensures r.Err? && r.error.ValueError? ==> r.error.invalid == Invalid(badWordsIds, |logits|) && wordBias == None
      ensures r.Ok? || r.error.IndexError? ==> wordBias.Some? && |wordBias.value| == |logits|
      ensures r.Ok? || r.error.IndexError? ==> (r.Ok? <==> [] !in badWordsIds)
      ensures r.Ok? ==> IsProcessed(r.value, logits, badWordsIds, past)
    {
      hide InVocabulary, IsWordBias, IsLastTokenBias, Processed;
      if wordBias.None? {
        var invalid := CheckTokenIdsBounds(badWordsIds, |logits|);
        InvalidExact(badWordsIds, |logits|);
        if invalid != [] {
          return Err(ValueError(invalid));
        }
        var bias := InitWordBias(badWordsIds, |logits|);
        wordBias := Some(bias);
      }
      r := LastTokenBias(badWordsIds, past, |logits|);
      if r.Ok? {
        var word, last := wordBias.value, r.value;
        forall t | 0 <= t < |logits| ensures Add(Add(logits[t], word[t]), last[t]) == Processed(badWordsIds, past, t, logits[t]) {
          BiasesAddUp(logits, word, last, badWordsIds, past, t);
        }
        r := Ok(seq(|logits|, t requires 0 <= t < |logits| => Add(Add(logits[t], word[t]), last[t])));
      }
    }
  }

  // ---------- whole generations ----------

  /** The logits of a model step, and the token that the sampler would like to take. */
  datatype Step = Step(logits: seq<Logit>, token: nat)

  /** Logits of one vocabulary, none of them plus infinity or NaN. */
  ghost predicate Usable(steps: seq<Step>, vocabSize: nat) {
    forall s | s in steps ::
      && |s.logits| == vocabSize && s.token < vocabSize
      && forall l | l in s.logits :: l == NegInf || l.Fin?
  }

  /** Every step takes its token although it may not. */
  ghost function Wanted(steps: seq<Step>): seq<int> {
    seq(|steps|, i requires 0 <= i < |steps| => steps[i].token)
  }

  /**
   A whole run, which ends early if a step's token is masked. No bad word occurs in what has been generated, and
   a run that ends early had to: taking the token would have completed a word, or the model forbade it.
   */
  method Generate(badWordsIds: seq<seq<int>>, vocabSize: nat, steps: seq<Step>) returns (r: Result<seq<int>, Failure>)
    requires Usable(steps, vocabSize)
    ensures r.Ok? ==> |r.value| <= |steps| && r.value == Wanted(steps)[..|r.value|]
    ensures r.Ok? ==> Clean(badWordsIds, r.value)
    ensures r.Ok? && |r.value| < |steps| ==>
              var s := steps[|r.value|];
              s.token < |s.logits| &&
              (s.logits[s.token] == NegInf || !Clean(badWordsIds, r.value + [s.token]))
    ensures r.Ok? <==> steps == [] || ([] !in badWordsIds && InVocabulary(badWordsIds, vocabSize))
  {
    hide Clean, Processed, Invalid, InVocabulary;
    var processor := new NoBadWordsLogitsProcessor(badWordsIds);
    var tokens: seq<int> := [];
    NothingIsClean(badWordsIds);
    for k := 0 to |steps|
      invariant processor.Valid() && processor.badWordsIds == badWordsIds
      invariant processor.wordBias.Some? ==> |processor.wordBias.value| == vocabSize
      invariant fresh(processor)
      invariant k > 0 ==> [] !in badWordsIds && InVocabulary(badWordsIds, vocabSize)
      invariant tokens == Wanted(steps)[..k] && Clean(badWordsIds, tokens)
    {
      assert steps[k] in steps;
      var s := steps[k];
      var out := processor.Call(tokens, s.logits);
      if !out.Ok? {
        return Err(out.error);
      }
      assert out.value[s.token] == Processed(badWordsIds, tokens, s.token, s.logits[s.token]);
      assert s.logits[s.token] in s.logits;
      MaskedExact(badWordsIds, tokens, s.token, s.logits[s.token]);
      CleanStep(badWordsIds, tokens, s.token);
      if out.value[s.token] == NegInf {
        return Ok(tokens);
      }
      tokens := tokens + [s.token];
    }
    r := Ok(tokens);
  }
}
