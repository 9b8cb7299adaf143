// Planning memory reuse over the lines of a wrapper: a trailing run of useless planning lines is dropped,
// then every planning line is planned with the state on top of a stack that subgraphs push and pop.
module MemoryPlanSpec {

  /** A planning line becomes a planned one; states are numbered in the order in which they are created. */
  datatype Line =
    | Plan(name: string)
    | EnterSubgraph
    | ExitSubgraph
    | Other(text: string)
    | Planned(name: string, state: nat)

  function Depth(lines: seq<Line>, i: nat): int
    requires i <= |lines|
  {
    if i == 0 then 0
    else Depth(lines, i - 1)
         + match lines[i - 1] case EnterSubgraph => 1 case ExitSubgraph => -1 case _ => 0
  }

  /** How many subgraphs the first i lines enter, which is also the number of the last state they create. */
  function Enters(lines: seq<Line>, i: nat): nat
    requires i <= |lines|
  {
    if i == 0 then 0 else Enters(lines, i - 1) + if lines[i - 1].EnterSubgraph? then 1 else 0
  }

  ghost predicate WellNested(lines: seq<Line>) {
    Depth(lines, |lines|) == 0 && forall i | 0 <= i <= |lines| :: Depth(lines, i) >= 0
  }

  /** Line i lies inside the subgraph that line j enters. */
  ghost predicate Encloses(lines: seq<Line>, j: int, i: int) {
    && 0 <= j < i <= |lines| && lines[j].EnterSubgraph?
    && forall k | j < k <= i :: Depth(lines, k) > Depth(lines, j)
  }

  ghost predicate Innermost(lines: seq<Line>, j: int, i: int) {
    Encloses(lines, j, i) && forall k | j < k < i :: !Encloses(lines, k, i)
  }

  /** State s is the one of the innermost subgraph around line i, or the outermost state if there is none. */
  ghost predicate Governs(lines: seq<Line>, i: int, s: nat)
    requires 0 <= i <= |lines|
  {
    if exists j :: Encloses(lines, j, i) then exists j :: Innermost(lines, j, i) && s == Enters(lines, j + 1)
    else s == 0
  }

  /** The stack is popped or read at line i although nothing is on it. */
  ghost predicate Underflow(lines: seq<Line>, i: int)
    requires 0 <= i < |lines|
  {
    (lines[i].Plan? || lines[i].ExitSubgraph?) && Depth(lines, i) < 0
  }

  /** Position p of the stack holds state s after i lines. */
  ghost predicate Holds(lines: seq<Line>, i: nat, p: nat, s: nat)
    requires i <= |lines|
  {
    || (p == 0 && s == 0 && forall k | 0 <= k <= i :: Depth(lines, k) >= 0)
    || exists j :: Encloses(lines, j, i) && Depth(lines, j) == p - 1 && s == Enters(lines, j + 1)
  }

  lemma {:induction false} EntersGrow(lines: seq<Line>, i: nat, j: nat)
    requires i <= j <= |lines|
    ensures Enters(lines, i) <= Enters(lines, j)
  {
    if i < j {
      EntersGrow(lines, i, j - 1);
    }
  }

  /** Two subgraphs never share a state. */
  lemma StatesAreDistinct(lines: seq<Line>, i: nat, j: nat)
    requires i < j < |lines| && lines[i].EnterSubgraph? && lines[j].EnterSubgraph?
    ensures 0 < Enters(lines, i + 1) < Enters(lines, j + 1)
  {
    EntersGrow(lines, i + 1, j);
  }

  /** Planning lines share a state if and only if the same subgraph is innermost around both, or none is. */
  lemma SharedStateIsSharedScope(lines: seq<Line>, a: nat, b: nat, s: nat, t: nat)
    requires a <= |lines| && b <= |lines| && Governs(lines, a, s) && Governs(lines, b, t)
    ensures s == t <==> forall j :: Innermost(lines, j, a) <==> Innermost(lines, j, b)
  {
    if i :| Innermost(lines, i, a) && s == Enters(lines, i + 1) {
      if j :| Innermost(lines, j, b) && t == Enters(lines, j + 1) {
        if i < j {
          StatesAreDistinct(lines, i, j);
          assert Innermost(lines, j, b);
        } else if j < i {
          StatesAreDistinct(lines, j, i);
          assert Innermost(lines, j, b);
        }
      }
    }
  }

  /** What is on top of the stack governs the next line. */
  lemma TopGoverns(lines: seq<Line>, i: nat, s: nat)
    requires i <= |lines| && Depth(lines, i) >= 0 && Holds(lines, i, Depth(lines, i), s)
    ensures Governs(lines, i, s)
  {
    if j :| Encloses(lines, j, i) && Depth(lines, j) == Depth(lines, i) - 1 && s == Enters(lines, j + 1) {
      assert forall k | j < k < i :: Depth(lines, k) >= Depth(lines, i);
      assert Innermost(lines, j, i);
    }
  }

  /** An entry of the stack stays valid as long as it is not popped. */
  lemma HoldsStep(lines: seq<Line>, i: nat, p: nat, s: nat)
    requires i < |lines| && Holds(lines, i, p, s) && p <= Depth(lines, i + 1)
    ensures Holds(lines, i + 1, p, s)
  {
    if j :| Encloses(lines, j, i) && Depth(lines, j) == p - 1 && s == Enters(lines, j + 1) {
      assert Encloses(lines, j, i + 1);
    }
  }

  lemma HoldsNew(lines: seq<Line>, i: nat)
    requires i < |lines| && lines[i].EnterSubgraph? && Depth(lines, i) >= -1
    ensures Holds(lines, i + 1, Depth(lines, i + 1), Enters(lines, i + 1))
  {
    assert Encloses(lines, i, i + 1);
  }

  ghost predicate AllHold(lines: seq<Line>, i: nat, stack: seq<nat>)
    requires i <= |lines|
  {
    forall p | 0 <= p < |stack| :: Holds(lines, i, p, stack[p])
  }

  lemma AllHoldStep(lines: seq<Line>, i: nat, stack: seq<nat>)
    requires i < |lines| && AllHold(lines, i, stack) && |stack| - 1 <= Depth(lines, i + 1)
    ensures AllHold(lines, i + 1, stack)
  {
    hide Holds, Depth;
    forall p | 0 <= p < |stack| ensures Holds(lines, i + 1, p, stack[p]) {
      HoldsStep(lines, i, p, stack[p]);
    }
  }

  lemma AllHoldNew(lines: seq<Line>, i: nat, stack: seq<nat>, s: nat)
    requires i <= |lines| && AllHold(lines, i, stack) && Holds(lines, i, |stack|, s)
    ensures AllHold(lines, i, stack + [s])
  {
    hide Holds;
  }

  /** The stack after i lines holds what Holds says, and with the retired states it accounts for every state once. */
  ghost predicate StackOk(lines: seq<Line>, i: nat, stack: seq<nat>, past: seq<nat>)
    requires i <= |lines|
  {
    && |stack| == Depth(lines, i) + 1
    && AllHold(lines, i, stack)
    && EachOnce(multiset(past + stack), Enters(lines, i) + 1)
  }

  /** The states are the numbers below n, each of them once. */
  ghost predicate EachOnce(states: multiset<nat>, n: nat) {
    forall s: nat :: states[s] == if s < n then 1 else 0
  }

  lemma StackKeep(lines: seq<Line>, i: nat, stack: seq<nat>, past: seq<nat>)
    requires i < |lines| && StackOk(lines, i, stack, past)
    requires !lines[i].EnterSubgraph? && !lines[i].ExitSubgraph?
    ensures StackOk(lines, i + 1, stack, past)
  {
    AllHoldStep(lines, i, stack);
  }

  lemma StackPush(lines: seq<Line>, i: nat, stack: seq<nat>, past: seq<nat>)
    requires i < |lines| && StackOk(lines, i, stack, past) && lines[i].EnterSubgraph?
    ensures StackOk(lines, i + 1, stack + [Enters(lines, i) + 1], past)
  {
    hide Holds, AllHold, EachOnce;
    AllHoldStep(lines, i, stack);
    HoldsNew(lines, i);
    AllHoldNew(lines, i + 1, stack, Enters(lines, i) + 1);
    PushAccounts(past, stack, Enters(lines, i) + 1);
  }

  lemma StackPop(lines: seq<Line>, i: nat, stack: seq<nat>, past: seq<nat>)
    requires i < |lines| && StackOk(lines, i, stack, past) && lines[i].ExitSubgraph? && stack != []
    ensures StackOk(lines, i + 1, stack[..|stack| - 1], past + [stack[|stack| - 1]])
  {
    AllHoldStep(lines, i, stack[..|stack| - 1]);
    PopAccounts(stack, past, Enters(lines, i) + 1);
  }

  lemma PushAccounts(past: seq<nat>, stack: seq<nat>, n: nat)
    requires EachOnce(multiset(past + stack), n)
    ensures EachOnce(multiset(past + (stack + [n])), n + 1)
  {
    assert past + (stack + [n]) == (past + stack) + [n];
  }

  lemma PopAccounts(stack: seq<nat>, past: seq<nat>, n: nat)
    requires stack != [] && EachOnce(multiset(past + stack), n)
    ensures var k := |stack| - 1; EachOnce(multiset(past + [stack[k]] + stack[..k]), n)
  {
    var k := |stack| - 1;
    assert stack == stack[..k] + [stack[k]];
    assert multiset(past + [stack[k]] + stack[..k]) == multiset(past + stack);
  }

  lemma StackBegins(lines: seq<Line>)
    ensures StackOk(lines, 0, [0], [])
  {
    assert Holds(lines, 0, 0, 0);
    assert multiset([] + [0]) == multiset{0};
  }

  /** The lines after planning the first i of them: planned with the governing state, the others as they were. */
  ghost predicate PlannedUpTo(ls: seq<Line>, lines: seq<Line>, i: nat) {
    && |lines| == |ls|
    && (forall j | 0 <= j < |ls| && j < i ::
          if ls[j].Plan?
          then lines[j].Planned? && lines[j].name == ls[j].name && Governs(ls, j, lines[j].state)
          else lines[j] == ls[j])
    && (forall j | i <= j < |ls| :: lines[j] == ls[j])
  }

  lemma PlanBegins(ls: seq<Line>)
    ensures PlannedUpTo(ls, ls, 0)
  {
  }

  /** What the loop looks at when it comes to line i. */
  lemma LineFacts(ls: seq<Line>, lines: seq<Line>, i: nat, stack: seq<nat>, past: seq<nat>)
    requires i < |ls| && PlannedUpTo(ls, lines, i) && StackOk(ls, i, stack, past)
    ensures |lines| == |ls| && lines[i] == ls[i]
    ensures Underflow(ls, i) <==> stack == [] && (ls[i].Plan? || ls[i].ExitSubgraph?)
    ensures stack != [] ==> Governs(ls, i, stack[|stack| - 1])
    ensures !ls[i].Plan? ==> PlannedUpTo(ls, lines, i + 1)
  {
    if stack != [] {
      TopGoverns(ls, i, stack[|stack| - 1]);
    }
  }

  lemma PlanLine(ls: seq<Line>, lines: seq<Line>, i: nat, state: nat)
    requires i < |ls| && PlannedUpTo(ls, lines, i) && ls[i].Plan? && Governs(ls, i, state)
    ensures |lines| == |ls| && PlannedUpTo(ls, lines[i := Planned(ls[i].name, state)], i + 1)
  {
  }

  lemma StackEnds(ls: seq<Line>, stack: seq<nat>, past: seq<nat>)
    requires StackOk(ls, |ls|, stack, past)
    ensures |stack| == Depth(ls, |ls|) + 1
    ensures |stack| == 1 ==> EachOnce(multiset(past + [stack[0]]), Enters(ls, |ls|) + 1)
  {
    assert |stack| == 1 ==> stack == [stack[0]];
  }

  // ---------- what is pointless ----------

  predicate Pointless(line: Line, outNames: set<string>) {
    line.Plan? && line.name !in outNames
  }

  /**
   The first k lines are what is left: all dropped ones are planning lines, none of them for an output, and the last
   one left is of another kind or for an output.
   */
  ghost predicate TrimmedAt(lines: seq<Line>, outNames: set<string>, k: nat) {
    && k <= |lines|
    && (forall i | k <= i < |lines| :: lines[i].Plan? && lines[i].name !in outNames)
    && (k > 0 && lines[k - 1].Plan? ==> lines[k - 1].name in outNames)
  }

  /** A list that is well nested meets no empty stack. */
  lemma WellNestedNeverUnderflows(lines: seq<Line>)
    requires WellNested(lines)
    ensures forall i | 0 <= i < |lines| :: !Underflow(lines, i)
  {
  }

  /** No subgraph is entered while more have been left than entered. */
  ghost predicate EntersAbove(lines: seq<Line>) {
    forall k | 0 <= k < |lines| && lines[k].EnterSubgraph? :: Depth(lines, k) >= 0
  }

  lemma {:induction false} NeverNegative(lines: seq<Line>, i: nat)
    requires i <= |lines| && Depth(lines, |lines|) == 0 && EntersAbove(lines)
    ensures Depth(lines, i) >= 0
    decreases |lines| - i
  {
    hide Depth, EntersAbove;
    if i < |lines| {
      NeverNegative(lines, i + 1);
      NotBelowBefore(lines, i);
    }
  }

  lemma NotBelowBefore(lines: seq<Line>, i: nat)
    requires i < |lines| && EntersAbove(lines) && Depth(lines, i + 1) >= 0
    ensures Depth(lines, i) >= 0
  {
  }

  /**
   A list that passes the final assertion, as many subgraphs being left as entered, is well nested if and only if
   none is entered while more have been left than entered.
   */
  lemma WellNestedExact(lines: seq<Line>)
    requires Depth(lines, |lines|) == 0
    ensures WellNested(lines) <==> EntersAbove(lines)
  {
    if EntersAbove(lines) {
      forall i | 0 <= i <= |lines| ensures Depth(lines, i) >= 0 {
        NeverNegative(lines, i);
      }
    }
  }

  lemma NotWellNestedYetComplete() returns (lines: seq<Line>)
    ensures !WellNested(lines) && Depth(lines, |lines|) == 0
    ensures forall i | 0 <= i < |lines| :: !Underflow(lines, i)
  {
    lines := [ExitSubgraph, EnterSubgraph];
    assert Depth(lines, 1) == -1;
  }
}

module MemoryPlan {
  import opened MemoryPlanSpec

  datatype Outcome = IndexError | AssertionError | Done(pastStates: seq<nat>)

  class Wrapper {
    var lines: seq<Line>

    constructor (lines: seq<Line>)
      ensures this.lines == lines
    {
      this.lines := lines;
    }

    /** Drops the pointless planning lines at the end. */
    method Trim(outNames: set<string>)
      modifies this
      ensures TrimmedAt(old(lines), outNames, |lines|) && lines == old(lines)[..|lines|]
    {
      ghost var k := |lines|;
      while lines != [] && Pointless(lines[|lines| - 1], outNames)
        invariant k == |lines| <= |old(lines)| && lines == old(lines)[..k]
        invariant forall i | k <= i < |old(lines)| :: old(lines)[i].Plan? && old(lines)[i].name !in outNames
        decreases |lines|
      {
        lines := lines[..|lines| - 1];
        k := k - 1;
      }
    }

    /**
     Trims, then plans. It completes exactly when neither a planning line nor an exit meets an empty stack
     and as many subgraphs are left as entered; then every planning line is planned with the state that
     governs it, every other line stays, and every state is retired once.
     */
    method MemoryPlanReuse(outNames: set<string>) returns (r: Outcome)
      modifies this
      ensures exists k: nat :: TrimmedAt(old(lines), outNames, k) &&
                var ls := old(lines)[..k];
                && |lines| == k
                && (r == IndexError <==> Depth(ls, k) < 0 || exists i | 0 <= i < k :: Underflow(ls, i))
                && (r == AssertionError <==>
                      Depth(ls, k) > 0 && forall i | 0 <= i < k :: !Underflow(ls, i))
                && (r.Done? ==>
                      EachOnce(multiset(r.pastStates), Enters(ls, k) + 1) && PlannedUpTo(ls, lines, k))
    {
      hide PlannedUpTo, Underflow, EachOnce;
      Trim(outNames);
      assert TrimmedAt(old(lines), outNames, |lines|);
      r := PlanLines();
    }

    /** The planning of the lines that are left. */
    method PlanLines() returns (r: Outcome)
      modifies this
      ensures |lines| == |old(lines)|
      ensures r == IndexError <==>
              Depth(old(lines), |lines|) < 0 || exists i | 0 <= i < |lines| :: Underflow(old(lines), i)
      ensures r == AssertionError <==>
              Depth(old(lines), |lines|) > 0 && forall i | 0 <= i < |lines| :: !Underflow(old(lines), i)
      ensures r.Done? ==> EachOnce(multiset(r.pastStates), Enters(old(lines), |lines|) + 1)
      ensures r.Done? ==> PlannedUpTo(old(lines), lines, |lines|)
    {
      ghost var ls, k := lines, |lines|;
      hide StackOk, PlannedUpTo, Underflow, Governs, Holds, EachOnce;
      var planningStates: seq<nat>, created := [0], 0;
      var pastStates: seq<nat> := [];
      StackBegins(ls);
      PlanBegins(ls);
      for i := 0 to |lines|
        invariant |lines| == k && created == Enters(ls, i)
        invariant StackOk(ls, i, planningStates, pastStates)
        invariant forall j | 0 <= j < i :: !Underflow(ls, j)
        invariant PlannedUpTo(ls, lines, i)
      {
        var line, n := lines[i], |planningStates|;
        LineFacts(ls, lines, i, planningStates, pastStates);
        match line {
          case Plan(name) =>
            if n == 0 {
              return IndexError;
            }
            StackKeep(ls, i, planningStates, pastStates);
            PlanLine(ls, lines, i, planningStates[n - 1]);
            lines := lines[i := Planned(name, planningStates[n - 1])];
          case EnterSubgraph =>
            StackPush(ls, i, planningStates, pastStates);
            created := created + 1;
            planningStates := planningStates + [created];
          case ExitSubgraph =>
            if n == 0 {
              return IndexError;
            }
            StackPop(ls, i, planningStates, pastStates);
            pastStates := pastStates + [planningStates[n - 1]];
            planningStates := planningStates[..n - 1];
          case _ =>
            StackKeep(ls, i, planningStates, pastStates);
        }
      }
      StackEnds(ls, planningStates, pastStates);
      if planningStates == [] {
        return IndexError;
      }
      var n := |planningStates|;
      pastStates := pastStates + [planningStates[n - 1]];
      planningStates := planningStates[..n - 1];
      if planningStates != [] {
        return AssertionError;
      }
      r := Done(pastStates);
    }
  }
}
