// The signature of each graph partition: a backward pass over the partitions decides what each one takes,
// what it frees and what it returns. The proofs run the partitions forward again on those signatures.
module PartitionSpec {

  datatype Buffer = Buffer(noneLayout: bool, mutationOutput: bool)

  /** One scheduler node: the buffers it creates, those it reads and writes, and those it uses last. */
  datatype Node = Node(outputs: set<string>, readNames: set<string>, writeNames: set<string>, lastUsage: set<string>)

  type Partition = seq<Node>

  /** What the pass looks up: graph outputs, names that have a node, constants, buffers, and mutation aliases. */
  datatype Graph = Graph(outputs: set<string>, nodes: set<string>, constants: set<string>,
                         buffers: map<string, Buffer>, realNames: map<string, string>)

  datatype Signature = Signature(inputNodes: set<string>, outputNodes: set<string>,
                                 deallocation: map<string, bool>, skipCudagraph: bool, constants: set<string>)

  /** The seen names only serve termination: without a cycle of aliases they are never met again. */
  predicate NoneLayout(g: Graph, name: string, seen: set<string> := {})
    decreases g.buffers.Keys - seen
  {
    && name in g.buffers && name !in seen
    && g.buffers[name].noneLayout
    && if g.buffers[name].mutationOutput && name in g.realNames && g.realNames[name] != ""
       then NoneLayout(g, g.realNames[name], seen + {name})
       else true
  }

  function Real(g: Graph, name: string): string {
    if name in g.realNames then g.realNames[name] else name
  }

  function Outputs(p: Partition): set<string> {
    if p == [] then {} else Outputs(p[..|p| - 1]) + p[|p| - 1].outputs
  }

  function Touched(p: Partition): set<string> {
    if p == [] then {} else Touched(p[..|p| - 1]) + p[|p| - 1].readNames + p[|p| - 1].writeNames
  }

  function LastUsed(p: Partition): set<string> {
    if p == [] then {} else LastUsed(p[..|p| - 1]) + p[|p| - 1].lastUsage
  }

  /** Everything the partition touches but does not create, under its real name, and everything known it frees. */
  function Inputs(g: Graph, p: Partition): set<string> {
    (set x | x in Touched(p) && !NoneLayout(g, x) && x !in Outputs(p) :: Real(g, x))
    + (set x | x in LastUsed(p) && x !in Outputs(p) && x in g.nodes)
  }

  function Frees(g: Graph, p: Partition): set<string> {
    set x | x in Inputs(g, p) && x in g.nodes && x in LastUsed(p)
  }

  /** What is created here and still needed, and every known input that is not freed here. */
  function Returned(g: Graph, p: Partition, unmet: set<string>): set<string> {
    (set x | x in Outputs(p) && x in unmet :: Real(g, x))
    + (set x | x in Inputs(g, p) && x in g.nodes && x !in LastUsed(p) :: Real(g, x))
  }

  function OutputNodes(g: Graph, p: Partition, unmet: set<string>): set<string> {
    set x | x in Returned(g, p, unmet) && !NoneLayout(g, x)
  }

  function SignatureOf(g: Graph, p: Partition, unmet: set<string>, skip: bool): Signature {
    Signature(Inputs(g, p) * g.nodes, OutputNodes(g, p, unmet),
              map x | x in Inputs(g, p) && x in g.nodes :: x in LastUsed(p),
              skip, Inputs(g, p) * g.constants)
  }

  /** The names still unmet in front of partition i. */
  ghost function Unmet(g: Graph, ps: seq<Partition>, i: nat): set<string>
    requires i <= |ps|
    decreases |ps| - i
  {
    if i == |ps| then g.outputs
    else Inputs(g, ps[i]) + (Unmet(g, ps, i + 1) - ReturnedBy(g, ps, i))
  }

  ghost function ReturnedBy(g: Graph, ps: seq<Partition>, i: nat): set<string>
    requires i < |ps|
    decreases |ps| - i, 0
  {
    Returned(g, ps[i], Unmet(g, ps, i + 1))
  }

  ghost function SignatureAt(g: Graph, ps: seq<Partition>, skips: seq<bool>, i: nat): Signature
    requires i < |ps| == |skips|
  {
    SignatureOf(g, ps[i], Unmet(g, ps, i + 1), skips[i])
  }

  // ---------- which names have no allocation ----------

  predicate Unallocated(g: Graph, x: string) {
    x in g.buffers && g.buffers[x].noneLayout
  }

  predicate IsAlias(g: Graph, x: string) {
    x in g.buffers && g.buffers[x].mutationOutput && x in g.realNames && g.realNames[x] != ""
  }

  /** From the first name aliases lead over None-layout buffers to one that is no alias. */
  ghost predicate Chain(g: Graph, c: seq<string>) {
    && c != [] && (forall i | 0 <= i < |c| :: Unallocated(g, c[i]))
    && (forall i | 0 <= i < |c| - 1 :: IsAlias(g, c[i]) && g.realNames[c[i]] == c[i + 1])
    && !IsAlias(g, c[|c| - 1])
  }

  ghost predicate ChainFrom(g: Graph, c: seq<string>, x: string) {
    Chain(g, c) && c[0] == x
  }

  lemma ChainRest(g: Graph, c: seq<string>)
    requires Chain(g, c) && |c| > 1
    ensures Chain(g, c[1..])
  {
    var d := c[1..];
    assert forall i | 0 <= i < |d| :: d[i] == c[i + 1];
  }

  /** No name stands on a chain twice, because what follows a name is always the same. */
  lemma {:induction false} ChainsAgree(g: Graph, c: seq<string>, d: seq<string>)
    requires Chain(g, c) && Chain(g, d) && c[0] == d[0]
    ensures |c| == |d|
  {
    if |c| > 1 {
      assert |d| > 1 && d[1] == c[1];
      ChainRest(g, c);
      ChainRest(g, d);
      ChainsAgree(g, c[1..], d[1..]);
    } else {
      assert |d| == 1;
    }
  }

  lemma {:induction false} ChainTail(g: Graph, c: seq<string>, i: nat)
    requires Chain(g, c) && i < |c|
    ensures Chain(g, c[i..])
  {
    if i > 0 {
      ChainRest(g, c);
      ChainTail(g, c[1..], i - 1);
      assert c[1..][i - 1..] == c[i..];
    }
  }

  lemma {:induction false} ChainIsNoneLayout(g: Graph, c: seq<string>, i: nat, seen: set<string>)
    requires Chain(g, c) && i < |c| && forall x :: x in seen <==> exists j :: 0 <= j < i && c[j] == x
    ensures NoneLayout(g, c[i], seen)
    decreases |c| - i
  {
    if c[i] in seen {
      var j :| 0 <= j < i && c[j] == c[i];
      ChainTail(g, c, i);
      ChainTail(g, c, j);
      ChainsAgree(g, c[i..], c[j..]);
    }
    if i < |c| - 1 {
      ChainIsNoneLayout(g, c, i + 1, seen + {c[i]});
    }
  }

  lemma {:induction false} NoneLayoutIsChain(g: Graph, x: string, seen: set<string>) returns (c: seq<string>)
    requires NoneLayout(g, x, seen)
    ensures ChainFrom(g, c, x)
    decreases g.buffers.Keys - seen
  {
    if IsAlias(g, x) {
      var rest := NoneLayoutIsChain(g, g.realNames[x], seen + {x});
      c := [x] + rest;
    } else {
      c := [x];
    }
  }

  /** A name has no allocation if and only if its buffer has none, nor any that it stands for, down to the last. */
  lemma NoneLayoutExact(g: Graph, x: string)
    ensures NoneLayout(g, x) <==> exists c :: ChainFrom(g, c, x)
  {
    if NoneLayout(g, x) {
      var c := NoneLayoutIsChain(g, x, {});
    }
    if c :| ChainFrom(g, c, x) {
      ChainIsNoneLayout(g, c, 0, {});
    }
  }

  // ---------- what the nodes say ----------

  ghost predicate Creates(p: Partition, x: string) {
    exists n | n in p :: x in n.outputs
  }

  ghost predicate ReadsOrWrites(p: Partition, x: string) {
    exists n | n in p :: x in n.readNames || x in n.writeNames
  }

  ghost predicate UsesLast(p: Partition, x: string) {
    exists n | n in p :: x in n.lastUsage
  }

  lemma {:induction false} ByNodes(p: Partition, x: string)
    ensures x in Outputs(p) <==> Creates(p, x)
    ensures x in Touched(p) <==> ReadsOrWrites(p, x)
    ensures x in LastUsed(p) <==> UsesLast(p, x)
  {
    if p != [] {
      var front, last := p[..|p| - 1], p[|p| - 1];
      ByNodes(front, x);
      assert p == front + [last];
      assert forall n | n in p :: n in front || n == last;
    }
  }

  /** The name goes by y: the alias that it is given, or itself. */
  predicate GoesBy(g: Graph, x: string, y: string) {
    if x in g.realNames then y == g.realNames[x] else y == x
  }

  /** A read or written name that has an allocation and is not created here is taken under the name it goes by. */
  ghost predicate TakesAs(g: Graph, p: Partition, x: string, y: string) {
    ReadsOrWrites(p, x) && !Creates(p, x) && !NoneLayout(g, x) && GoesBy(g, x, y)
  }

  /** The partition takes the name: for a read or a write, or because it uses the name last and the name has a node. */
  ghost predicate Takes(g: Graph, p: Partition, y: string) {
    || (exists x :: TakesAs(g, p, x, y))
    || (UsesLast(p, y) && !Creates(p, y) && y in g.nodes)
  }

  ghost predicate FreesName(g: Graph, p: Partition, y: string) {
    Takes(g, p, y) && UsesLast(p, y) && y in g.nodes
  }

  /** The inputs are what the nodes read, write and use last, and do not create. */
  lemma InputsExact(g: Graph, p: Partition, y: string)
    ensures y in Inputs(g, p) <==> Takes(g, p, y)
    ensures y in Frees(g, p) <==> FreesName(g, p, y)
  {
    hide NoneLayout, Outputs, Touched, LastUsed, Creates, ReadsOrWrites, UsesLast;
    ByNodes(p, y);
    if y in Inputs(g, p) && !(UsesLast(p, y) && !Creates(p, y) && y in g.nodes) {
      var x :| x in Touched(p) && !NoneLayout(g, x) && x !in Outputs(p) && Real(g, x) == y;
      ByNodes(p, x);
      assert TakesAs(g, p, x, y);
    }
    if x :| TakesAs(g, p, x, y) {
      ByNodes(p, x);
      assert Real(g, x) == y;
    }
  }

  // ---------- the backward pass computes liveness ----------

  /** The name is taken by partition i, or it is a graph output if i is the end. */
  ghost predicate Uses(g: Graph, ps: seq<Partition>, i: nat, name: string)
    requires i <= |ps|
  {
    if i == |ps| then name in g.outputs else Takes(g, ps[i], name)
  }

  /** Partition i returns x under the name y: x is created here and live behind it, or taken, known and not freed. */
  ghost predicate ReturnsAs(g: Graph, ps: seq<Partition>, i: nat, x: string, y: string)
    requires i < |ps|
    decreases |ps| - i, 0
  {
    && GoesBy(g, x, y)
    && ((Creates(ps[i], x) && Live(g, ps, i + 1, x)) || (Takes(g, ps[i], x) && x in g.nodes && !UsesLast(ps[i], x)))
  }

  ghost predicate Returns(g: Graph, ps: seq<Partition>, i: nat, y: string)
    requires i < |ps|
    decreases |ps| - i, 1
  {
    exists x :: ReturnsAs(g, ps, i, x, y)
  }

  /** Some use at or after i is reached without any partition in between returning the name. */
  ghost predicate LiveVia(g: Graph, ps: seq<Partition>, i: nat, j: nat, name: string)
    requires i <= |ps|
    decreases |ps| - i, 2
  {
    && i <= j <= |ps| && Uses(g, ps, j, name)
    && forall k | i <= k < j :: !Returns(g, ps, k, name)
  }

  ghost predicate Live(g: Graph, ps: seq<Partition>, i: nat, name: string)
    requires i <= |ps|
    decreases |ps| - i, 3
  {
    exists j: nat :: LiveVia(g, ps, i, j, name)
  }

  lemma LiveStep(g: Graph, ps: seq<Partition>, i: nat, name: string)
    requires i < |ps|
    ensures Live(g, ps, i, name) <==> Uses(g, ps, i, name) || (!Returns(g, ps, i, name) && Live(g, ps, i + 1, name))
  {
    hide Uses, Returns;
    if Uses(g, ps, i, name) {
      assert LiveVia(g, ps, i, i, name);
    } else {
      if j: nat :| LiveVia(g, ps, i, j, name) {
        assert LiveVia(g, ps, i + 1, j, name);
      }
      if !Returns(g, ps, i, name) && Live(g, ps, i + 1, name) {
        var j: nat :| LiveVia(g, ps, i + 1, j, name);
        assert LiveVia(g, ps, i, j, name);
      }
    }
  }

  lemma LiveAtEnd(g: Graph, ps: seq<Partition>, name: string)
    ensures Live(g, ps, |ps|, name) <==> name in g.outputs
  {
    if name in g.outputs {
      assert LiveVia(g, ps, |ps|, |ps|, name);
    }
  }

  /** The unmet names in front of a partition are exactly the live ones. */
  lemma {:induction false} UnmetIsLive(g: Graph, ps: seq<Partition>, i: nat, name: string)
    requires i <= |ps|
    ensures name in Unmet(g, ps, i) <==> Live(g, ps, i, name)
    decreases |ps| - i, 1
  {
    hide Inputs, Takes, Live, Returns, Returned, ReturnedBy;
    if i < |ps| {
      InputsExact(g, ps[i], name);
      UnmetIsLive(g, ps, i + 1, name);
      ReturnsExact(g, ps, i, name);
      LiveStep(g, ps, i, name);
    } else {
      LiveAtEnd(g, ps, name);
    }
  }

  lemma {:induction false} ReturnsExact(g: Graph, ps: seq<Partition>, i: nat, y: string)
    requires i < |ps|
    ensures y in ReturnedBy(g, ps, i) <==> Returns(g, ps, i, y)
    decreases |ps| - i, 0
  {
    hide Unmet, Inputs, Outputs, LastUsed, Takes, Creates, UsesLast, Live;
    var p := ps[i];
    forall x
      ensures x in Outputs(p) <==> Creates(p, x)
      ensures x in LastUsed(p) <==> UsesLast(p, x)
      ensures x in Inputs(g, p) <==> Takes(g, p, x)
      ensures x in Unmet(g, ps, i + 1) <==> Live(g, ps, i + 1, x)
    {
      ByNodes(p, x);
      InputsExact(g, p, x);
      UnmetIsLive(g, ps, i + 1, x);
    }
    if y in ReturnedBy(g, ps, i) {
      var x :| Real(g, x) == y
        && ((x in Outputs(p) && x in Unmet(g, ps, i + 1)) || (x in Inputs(g, p) && x in g.nodes && x !in LastUsed(p)));
      assert ReturnsAs(g, ps, i, x, y);
    }
    if x :| ReturnsAs(g, ps, i, x, y) {
      assert Real(g, x) == y;
    }
  }

  /** Partition i looks up a node for a name that has none. */
  ghost predicate MissingNode(g: Graph, ps: seq<Partition>, i: nat)
    requires i < |ps|
  {
    exists y :: Returns(g, ps, i, y) && !NoneLayout(g, y) && y !in g.nodes
  }

  /** What the signature of partition i has to say, as far as names and nodes go. */
  ghost predicate Describes(s: Signature, g: Graph, ps: seq<Partition>, skips: seq<bool>, i: nat)
    requires i < |ps| == |skips|
  {
    && (forall y :: y in s.inputNodes <==> Takes(g, ps[i], y) && y in g.nodes)
    && (forall y :: y in s.outputNodes <==> Returns(g, ps, i, y) && !NoneLayout(g, y))
    && s.deallocation.Keys == s.inputNodes
    && (forall y | y in s.deallocation :: s.deallocation[y] <==> UsesLast(ps[i], y))
    && s.skipCudagraph == skips[i]
    && (forall y :: y in s.constants <==> Takes(g, ps[i], y) && y in g.constants)
  }

  lemma SignatureExact(g: Graph, ps: seq<Partition>, skips: seq<bool>, i: nat)
    requires i < |ps| == |skips|
    ensures Describes(SignatureAt(g, ps, skips, i), g, ps, skips, i)
    ensures MissingNode(g, ps, i) <==> !(SignatureAt(g, ps, skips, i).outputNodes <= g.nodes)
  {
    hide Unmet, Inputs, Returned, LastUsed, Takes, UsesLast, Returns, NoneLayout;
    forall y
      ensures y in Inputs(g, ps[i]) <==> Takes(g, ps[i], y)
      ensures y in LastUsed(ps[i]) <==> UsesLast(ps[i], y)
      ensures y in ReturnedBy(g, ps, i) <==> Returns(g, ps, i, y)
    {
      InputsExact(g, ps[i], y);
      ByNodes(ps[i], y);
      ReturnsExact(g, ps, i, y);
    }
  }

  // ---------- running the partitions forward ----------

  /** Calling a partition takes away what its signature deallocates and adds what it returns. */
  ghost function Call(present: set<string>, s: Signature): set<string> {
    present - (set x | x in s.deallocation && s.deallocation[x]) + s.outputNodes
  }

  /** The names that are present in front of partition i, starting from those unmet at the front. */
  ghost function Present(g: Graph, ps: seq<Partition>, i: nat): set<string>
    requires i <= |ps|
  {
    if i == 0 then Unmet(g, ps, 0)
    else Call(Present(g, ps, i - 1), SignatureOf(g, ps[i - 1], Unmet(g, ps, i), false))
  }

  lemma CallStep(g: Graph, p: Partition, unmet: set<string>, skip: bool, present: set<string>)
    ensures Call(present, SignatureOf(g, p, unmet, skip)) == present - Frees(g, p) + OutputNodes(g, p, unmet)
  {
    hide Inputs, OutputNodes;
    var d := SignatureOf(g, p, unmet, skip).deallocation;
    assert (set x | x in d && d[x]) == Frees(g, p);
  }

  /** A name is present behind a partition if it is returned and allocated, or was present and is not freed. */
  lemma PresentStep(g: Graph, ps: seq<Partition>, i: nat, x: string)
    requires i < |ps|
    ensures x in Present(g, ps, i + 1)
            <==> (Returns(g, ps, i, x) && !NoneLayout(g, x)) || (x in Present(g, ps, i) && !FreesName(g, ps[i], x))
  {
    hide Unmet, Inputs, Returned, NoneLayout, Call, SignatureOf, FreesName, Returns, Frees;
    CallStep(g, ps[i], Unmet(g, ps, i + 1), false, Present(g, ps, i));
    InputsExact(g, ps[i], x);
    ReturnsExact(g, ps, i, x);
  }

  /** At the front exactly the live names are present. */
  lemma PresentAtFront(g: Graph, ps: seq<Partition>, x: string)
    ensures x in Present(g, ps, 0) <==> Live(g, ps, 0, x)
  {
    UnmetIsLive(g, ps, 0, x);
    hide Unmet, Live;
  }

  /** Every allocated name that is used is present when it is used. */
  ghost predicate RunsForward(g: Graph, ps: seq<Partition>) {
    forall i, x | 0 <= i <= |ps| && Uses(g, ps, i, x) && !NoneLayout(g, x) :: x in Present(g, ps, i)
  }

  /** Partition i frees an allocated name, does not return it, and the name is live behind it. */
  ghost predicate FreedTooEarly(g: Graph, ps: seq<Partition>, i: nat, x: string)
    requires i < |ps|
  {
    && FreesName(g, ps[i], x) && !NoneLayout(g, x)
    && !Returns(g, ps, i, x) && Live(g, ps, i + 1, x)
  }

  lemma {:induction false} LiveIsPresent(g: Graph, ps: seq<Partition>, i: nat, x: string)
    requires i <= |ps| && Live(g, ps, i, x) && !NoneLayout(g, x)
    requires forall k, y | 0 <= k < |ps| :: !FreedTooEarly(g, ps, k, y)
    ensures x in Present(g, ps, i)
  {
    hide Present, Live, Uses, FreesName, Returns, NoneLayout;
    if i == 0 {
      PresentAtFront(g, ps, x);
    } else {
      PresentStep(g, ps, i - 1, x);
      if !Returns(g, ps, i - 1, x) {
        LiveStep(g, ps, i - 1, x);
        LiveIsPresent(g, ps, i - 1, x);
        assert !FreedTooEarly(g, ps, i - 1, x);
      }
    }
  }

  lemma {:induction false} AbsentUntilReturned(g: Graph, ps: seq<Partition>, i: nat, j: nat, x: string)
    requires i <= j <= |ps| && x !in Present(g, ps, i)
    requires forall k | i <= k < j :: !Returns(g, ps, k, x)
    ensures x !in Present(g, ps, j)
  {
    hide Present, Returns, FreesName, NoneLayout;
    if i < j {
      AbsentUntilReturned(g, ps, i, j - 1, x);
      PresentStep(g, ps, j - 1, x);
    }
  }

  /**
   The forward run finds everything if and only if no partition frees an allocated name, without
   returning it, that is still live behind it.
   */
  lemma ForwardRunExact(g: Graph, ps: seq<Partition>)
    ensures RunsForward(g, ps) <==> forall i, x | 0 <= i < |ps| :: !FreedTooEarly(g, ps, i, x)
  {
    hide Present, Uses, NoneLayout, FreedTooEarly, Live;
    if forall i, x | 0 <= i < |ps| :: !FreedTooEarly(g, ps, i, x) {
      forall i, x | 0 <= i <= |ps| && Uses(g, ps, i, x) && !NoneLayout(g, x) ensures x in Present(g, ps, i) {
        UsedIsLive(g, ps, i, x);
        LiveIsPresent(g, ps, i, x);
      }
    }
    if i, x :| 0 <= i < |ps| && FreedTooEarly(g, ps, i, x) {
      var j := FreedIsMissed(g, ps, i, x);
    }
  }

  lemma UsedIsLive(g: Graph, ps: seq<Partition>, i: nat, x: string)
    requires i <= |ps| && Uses(g, ps, i, x)
    ensures Live(g, ps, i, x)
  {
    hide Uses, Returns;
    assert LiveVia(g, ps, i, i, x);
  }

  lemma LaterUse(g: Graph, ps: seq<Partition>, i: nat, x: string) returns (j: nat)
    requires i <= |ps| && Live(g, ps, i, x)
    ensures i <= j <= |ps| && Uses(g, ps, j, x)
  {
    j :| LiveVia(g, ps, i, j, x);
  }

  lemma FreedIsMissed(g: Graph, ps: seq<Partition>, i: nat, x: string) returns (j: nat)
    requires i < |ps| && FreedTooEarly(g, ps, i, x)
    ensures i < j <= |ps| && Uses(g, ps, j, x) && !NoneLayout(g, x) && x !in Present(g, ps, j)
  {
    hide Present, Uses, NoneLayout, FreesName, Returns;
    PresentStep(g, ps, i, x);
    j :| LiveVia(g, ps, i + 1, j, x);
    AbsentUntilReturned(g, ps, i + 1, j, x);
  }

  /** Said on the nodes' own names: every allocated one that is read, written or used last is present under its name. */
  ghost predicate FindsNames(g: Graph, ps: seq<Partition>) {
    && (forall i, x, y | 0 <= i < |ps| && TakesAs(g, ps[i], x, y) && !NoneLayout(g, y) :: y in Present(g, ps, i))
    && (forall i, y | 0 <= i < |ps| && UsesLast(ps[i], y) && !Creates(ps[i], y) && y in g.nodes && !NoneLayout(g, y) ::
          y in Present(g, ps, i))
    && forall y | y in g.outputs && !NoneLayout(g, y) :: y in Present(g, ps, |ps|)
  }

  lemma NamesAreFound(g: Graph, ps: seq<Partition>)
    ensures RunsForward(g, ps) <==> FindsNames(g, ps)
  {
    hide Present, NoneLayout, TakesAs, UsesLast, Creates;
    if RunsForward(g, ps) {
      forall i, x, y | 0 <= i < |ps| && TakesAs(g, ps[i], x, y) && !NoneLayout(g, y) ensures y in Present(g, ps, i) {
        assert Uses(g, ps, i, y);
      }
      forall i, y | 0 <= i < |ps| && UsesLast(ps[i], y) && !Creates(ps[i], y) && y in g.nodes && !NoneLayout(g, y)
        ensures y in Present(g, ps, i)
      {
        assert Uses(g, ps, i, y);
      }
      forall y | y in g.outputs && !NoneLayout(g, y) ensures y in Present(g, ps, |ps|) {
        assert Uses(g, ps, |ps|, y);
      }
    }
  }

  // ---------- names without an allocation ----------

  /** Nothing returns a None-layout name: it is present only if it was so at the front and was not freed. */
  lemma {:induction false} NoneLayoutPresence(g: Graph, ps: seq<Partition>, i: nat, x: string)
    requires i <= |ps| && NoneLayout(g, x)
    ensures x in Present(g, ps, i)
            <==> Live(g, ps, 0, x) && forall k | 0 <= k < i :: !FreesName(g, ps[k], x)
  {
    hide Present, Live, Returns, FreesName, NoneLayout;
    if i == 0 {
      PresentAtFront(g, ps, x);
    } else {
      PresentStep(g, ps, i - 1, x);
      NoneLayoutPresence(g, ps, i - 1, x);
    }
  }

  /**
   A partition takes a name without an allocation if and only if it frees one that has a node and that it did not
   create, or it touches an allocated name, not created by it, that goes by a name without an allocation.
   */
  lemma NoneLayoutTakenExact(g: Graph, p: Partition)
    ensures (exists y | y in Inputs(g, p) :: NoneLayout(g, y))
            <==> (exists y | UsesLast(p, y) && y in g.nodes && !Creates(p, y) :: NoneLayout(g, y))
                 || exists x, y | TakesAs(g, p, x, y) :: NoneLayout(g, y)
  {
    hide NoneLayout, Inputs, UsesLast, Creates, TakesAs;
    if y :| y in Inputs(g, p) && NoneLayout(g, y) {
      InputsExact(g, p, y);
    }
    if y :| UsesLast(p, y) && y in g.nodes && !Creates(p, y) && NoneLayout(g, y) {
      InputsExact(g, p, y);
    }
    if x, y :| TakesAs(g, p, x, y) && NoneLayout(g, y) {
      InputsExact(g, p, y);
    }
  }

  /** Every name that is used, allocated or not, is present when it is used. */
  ghost predicate FindsEverything(g: Graph, ps: seq<Partition>) {
    forall i, x | 0 <= i <= |ps| && Uses(g, ps, i, x) :: x in Present(g, ps, i)
  }

  /** A name without an allocation is used although it is not live at the front, or although it was freed before. */
  ghost predicate NeverHandedOver(g: Graph, ps: seq<Partition>, i: nat, x: string)
    requires i <= |ps|
  {
    && Uses(g, ps, i, x) && NoneLayout(g, x)
    && (!Live(g, ps, 0, x) || exists k :: 0 <= k < i && FreesName(g, ps[k], x))
  }

  /**
   The forward run finds really everything if and only if, besides, every name without an allocation that is used
   is live at the front and is not freed before.
   */
  lemma FindsEverythingExact(g: Graph, ps: seq<Partition>)
    ensures FindsEverything(g, ps)
            <==> (forall i, x | 0 <= i < |ps| :: !FreedTooEarly(g, ps, i, x))
                 && forall i, x | 0 <= i <= |ps| :: !NeverHandedOver(g, ps, i, x)
  {
    hide FreedTooEarly, Present, Uses, NoneLayout, Live, FreesName;
    ForwardRunExact(g, ps);
    forall i, x | 0 <= i <= |ps| && Uses(g, ps, i, x) && NoneLayout(g, x)
      ensures x in Present(g, ps, i) <==> !NeverHandedOver(g, ps, i, x)
    {
      NoneLayoutPresence(g, ps, i, x);
    }
  }

  /**
   If a name freed in one partition is neither a graph output nor taken by a later one, every allocated name is
   found; and everything is found if and only if the used names without an allocation are live at the front.
   */
  lemma FreedNamesUnused(g: Graph, ps: seq<Partition>)
    requires forall i, j, x | 0 <= i < j <= |ps| && FreesName(g, ps[i], x) :: !Uses(g, ps, j, x)
    ensures RunsForward(g, ps)
    ensures FindsEverything(g, ps)
            <==> forall i, x | 0 <= i <= |ps| && Uses(g, ps, i, x) && NoneLayout(g, x) :: Live(g, ps, 0, x)
  {
    ForwardRunExact(g, ps);
    FindsEverythingExact(g, ps);
    hide FindsEverything, RunsForward, Uses, NoneLayout, FreesName, Returns;
    forall i, x | 0 <= i < |ps| ensures !FreedTooEarly(g, ps, i, x) {
      if Live(g, ps, i + 1, x) {
        var j := LaterUse(g, ps, i + 1, x);
      }
    }
    hide Live;
    assert forall i, x | 0 <= i <= |ps| ::
        NeverHandedOver(g, ps, i, x) <==> Uses(g, ps, i, x) && NoneLayout(g, x) && !Live(g, ps, 0, x);
    hide NeverHandedOver;
  }

  /** A None-layout buffer that a later partition reads and frees becomes its input, and nobody hands it over. */
  lemma NoneLayoutInputIsMissing() returns (g: Graph, ps: seq<Partition>)
    ensures RunsForward(g, ps) && !FindsEverything(g, ps) && |ps| == 2
    ensures "b" in SignatureAt(g, ps, [false, false], 1).inputNodes
    ensures "b" !in Present(g, ps, 1)
  {
    g := Graph({}, {"b"}, {}, map["b" := Buffer(true, false)], map[]);
    var n0, n1 := Node({"b"}, {}, {"b"}, {}), Node({}, {"b"}, {}, {"b"});
    ps := [[n0], [n1]];
    assert NoneLayout(g, "b");
    hide NoneLayout, Present, Live, Returns;
    assert n0 in ps[0] && n1 in ps[1];
    assert UsesLast(ps[1], "b") && !Creates(ps[1], "b") && Creates(ps[0], "b") && !UsesLast(ps[0], "b");
    assert forall x | ReadsOrWrites(ps[0], x) || ReadsOrWrites(ps[1], x) :: x == "b";
    assert Uses(g, ps, 1, "b") && !Takes(g, ps[0], "b") && !Uses(g, ps, 0, "b");
    UsedIsLive(g, ps, 1, "b");
    CreatedIsReturned(g, ps, 0, "b");
    LiveStep(g, ps, 0, "b");
    assert !Live(g, ps, 0, "b");
    NoneLayoutPresence(g, ps, 1, "b");
    SignatureExact(g, ps, [false, false], 1);
    forall i, j, x | 0 <= i < j <= |ps| && FreesName(g, ps[i], x) ensures !Uses(g, ps, j, x) {
      assert i == 1 && j == 2;
    }
    FreedNamesUnused(g, ps);
  }

  lemma CreatedIsReturned(g: Graph, ps: seq<Partition>, i: nat, x: string)
    requires i < |ps| && Creates(ps[i], x) && Live(g, ps, i + 1, x) && x !in g.realNames
    ensures Returns(g, ps, i, x)
  {
    assert ReturnsAs(g, ps, i, x, x);
  }
}

module PartitionSignature {
  import opened PartitionSpec

  datatype Outcome = KeyError | Signatures(signatures: seq<Signature>)

  /**
   The reverse loop. Partitions and flags are paired from the end, as far as both reach; the loop fails
   with a KeyError exactly when some partition returns an allocated name that has no node.
   */
  method GetGraphPartitionSignature(g: Graph, partitions: seq<Partition>, skips: seq<bool>) returns (r: Outcome)
    ensures var n := if |partitions| <= |skips| then |partitions| else |skips|;
            var ps, fs := partitions[|partitions| - n..], skips[|skips| - n..];
            && (r == KeyError <==> exists i | 0 <= i < n :: MissingNode(g, ps, i))
            && (r.Signatures? ==>
                  && |r.signatures| == n
                  && forall i | 0 <= i < n ::
                       r.signatures[i] == SignatureAt(g, ps, fs, i) && Describes(r.signatures[i], g, ps, fs, i))
  {
    hide SignatureOf, SignatureAt, Unmet, MissingNode, ReturnedBy, Describes;
    var n := if |partitions| <= |skips| then |partitions| else |skips|;
    var ps, fs := partitions[|partitions| - n..], skips[|skips| - n..];
    var signatures: seq<Signature> := [];
    var unmet := g.outputs;
    NothingUnmetButOutputs(g, ps);
    for i := n downto 0
      invariant unmet == Unmet(g, ps, i)
      invariant |signatures| == n - i
      invariant forall j | i <= j < n ::
                  signatures[j - i] == SignatureAt(g, ps, fs, j) && Described(g, ps, fs, j)
                  && !MissingNode(g, ps, j)
    {
      var signature, inputs, returned := SignPartition(g, ps[i], unmet, fs[i]);
      LoopStep(g, ps, fs, i);
      if !(signature.outputNodes <= g.nodes) {
        return KeyError;
      }
      signatures := [signature] + signatures;
      unmet := inputs + (unmet - returned);
    }
    r := Signatures(signatures);
  }

  ghost predicate Described(g: Graph, ps: seq<Partition>, skips: seq<bool>, i: nat)
    requires i < |ps| == |skips|
  {
    Describes(SignatureAt(g, ps, skips, i), g, ps, skips, i)
  }

  lemma NothingUnmetButOutputs(g: Graph, ps: seq<Partition>)
    ensures Unmet(g, ps, |ps|) == g.outputs
  {
  }

  lemma LoopStep(g: Graph, ps: seq<Partition>, skips: seq<bool>, i: nat)
    requires i < |ps| == |skips|
    ensures var unmet := Unmet(g, ps, i + 1);
            && SignatureOf(g, ps[i], unmet, skips[i]) == SignatureAt(g, ps, skips, i)
            && (MissingNode(g, ps, i) <==> !(SignatureOf(g, ps[i], unmet, skips[i]).outputNodes <= g.nodes))
            && Described(g, ps, skips, i)
            && Unmet(g, ps, i) == Inputs(g, ps[i]) + (unmet - Returned(g, ps[i], unmet))
  {
    hide Inputs, Returned, NoneLayout, MissingNode, Describes;
    SignatureExact(g, ps, skips, i);
    assert Described(g, ps, skips, i);
  }

  /** One turn of the loop. */
  method SignPartition(g: Graph, partition: Partition, unmet: set<string>, skip: bool)
    returns (signature: Signature, inputs: set<string>, returned: set<string>)
    ensures signature == SignatureOf(g, partition, unmet, skip)
    ensures inputs == Inputs(g, partition) && returned == Returned(g, partition, unmet)
  {
    var outputNames, touched, toFree := NamesOf(partition);
    hide Outputs, Touched, LastUsed, NoneLayout;
    returned := set x | x in outputNames && x in unmet;
    inputs := set x | x in touched && !NoneLayout(g, x) && x !in outputNames :: Real(g, x);
    inputs := inputs + set x | x in toFree && x !in outputNames && x in g.nodes;
    var inputNodes := inputs * g.nodes;
    var deallocation := map x | x in inputs && x in g.nodes :: x in toFree;
    var extraOutputs := set x | x in inputs && x in g.nodes && x !in toFree;
    returned := set x | x in returned + extraOutputs :: Real(g, x);
    assert returned == Returned(g, partition, unmet);
    var outputNodes := set x | x in returned && !NoneLayout(g, x);
    signature := Signature(inputNodes, outputNodes, deallocation, skip, inputs * g.constants);
  }

  method NamesOf(p: Partition) returns (outputs: set<string>, touched: set<string>, toFree: set<string>)
    ensures outputs == Outputs(p) && touched == Touched(p) && toFree == LastUsed(p)
  {
    outputs, touched, toFree := {}, {}, {};
    for i := 0 to |p|
      invariant outputs == Outputs(p[..i]) && touched == Touched(p[..i]) && toFree == LastUsed(p[..i])
    {
      assert p[..i + 1][..i] == p[..i];
      outputs := outputs + p[i].outputs;
      touched := touched + p[i].readNames + p[i].writeNames;
      toFree := toFree + p[i].lastUsage;
    }
    assert p[..|p|] == p;
  }
}
