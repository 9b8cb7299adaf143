// Printing a module tree with repeated layers collapsed.
module ModulePrinter {
  import opened Sequences
  import opened Wrappers
  import opened Numerals
  import opened IndexRanges
  import opened ModuleTree
  import opened PrintedTree
  import opened PyIntegers
  import opened PrintedText

  // ---------- sorting the children ----------

  /** Infos begin with a class name. */
  predicate Printable(m: Module)
    decreases m, 1
  {
    m.info != [] && !IsSpace(m.info[0]) && PrintableChildren(m.children)
  }

  predicate PrintableChildren(cs: seq<Child>)
    decreases cs, 0
  {
    cs == [] || (Printable(cs[0].sub) && PrintableChildren(cs[1..]))
  }

  /** Children that the printer can go down to. */
  ghost predicate Below(sub: Module, m: Module) {
    sub < m && Printable(sub)
  }

  lemma {:induction false} ChildrenAreBelow(cs: seq<Child>, m: Module)
    requires PrintableChildren(cs) && forall c | c in cs :: c.sub < m
    ensures forall c | c in cs :: Below(c.sub, m)
  {
    if cs != [] {
      ChildrenAreBelow(cs[1..], m);
      assert forall c | c in cs :: c == cs[0] || c in cs[1..];
    }
  }

  lemma {:induction false} NumberedSnoc(cs: seq<Child>, c: Child)
    ensures Numbered(cs + [c]) == Numbered(cs) + AsItem(c)
  {
    hide AsItem;
    if cs == [] {
      assert cs + [c] == [c] && [c][1..] == [] && AsItem(c) + [] == AsItem(c);
    } else {
      assert (cs + [c])[1..] == cs[1..] + [c];
      NumberedSnoc(cs[1..], c);
    }
  }

  lemma {:induction false} NamedSnoc(cs: seq<Child>, c: Child)
    ensures Named(cs + [c]) == Named(cs) + AsNamed(c)
  {
    hide AsNamed;
    if cs == [] {
      assert cs + [c] == [c] && [c][1..] == [] && AsNamed(c) + [] == AsNamed(c);
    } else {
      assert (cs + [c])[1..] == cs[1..] + [c];
      NamedSnoc(cs[1..], c);
    }
  }

  lemma NoChildren()
    ensures Numbered([]) == [] && Named([]) == []
  {
  }

  method Separate(cs: seq<Child>) returns (numbered: seq<Item>, named: seq<Child>)
    ensures numbered == Numbered(cs) && named == Named(cs)
  {
    numbered, named := [], [];
    hide PyInt, Numbered, Named;
    assert Numbered([]) == [] && Named([]) == [] by { NoChildren(); }
    assert cs[..0] == [];
    for k := 0 to |cs|
      invariant numbered == Numbered(cs[..k]) && named == Named(cs[..k])
    {
      assert cs[..k + 1] == cs[..k] + [cs[k]];
      NumberedSnoc(cs[..k], cs[k]);
      NamedSnoc(cs[..k], cs[k]);
      match PyInt(cs[k].name)
      case Some(i) => numbered := numbered + [Item(i, cs[k].sub)];
      case None => named := named + [cs[k]];
    }
    assert cs[..|cs|] == cs;
  }

  lemma {:induction false} PartsCover(cs: seq<Child>)
    ensures |Numbered(cs)| + |Named(cs)| == |cs|
  {
    if cs != [] {
      PartsCover(cs[1..]);
    }
  }

  // ---------- grouping by signature ----------

  /** Some numbered children of one signature. */
  ghost predicate Alike(bucket: seq<Item>) {
    bucket != [] && forall it | it in bucket :: Signature(it.sub) == Signature(bucket[0].sub)
  }

  ghost predicate AllAlike(buckets: seq<seq<Item>>, items: seq<Item>) {
    forall b | b in buckets :: Alike(b) && b[0] in items
  }

  /** The signatures that occur. */
  ghost function Kinds(items: seq<Item>): set<string> {
    set it | it in items :: Signature(it.sub)
  }

  /** Each bucket is filed under its signature. */
  ghost predicate Keyed(sigs: seq<string>, buckets: seq<seq<Item>>, kinds: set<string>) {
    && |sigs| == |buckets| == |kinds|
    && (forall i | 0 <= i < |sigs| :: buckets[i] != [] && sigs[i] == Signature(buckets[i][0].sub))
    && forall sig :: sig in sigs <==> sig in kinds
  }

  /** The items of one signature, in order. */
  function OfKind(items: seq<Item>, sig: string): seq<Item> {
    if items == [] then []
    else
      var front, last := OfKind(items[..|items| - 1], sig), items[|items| - 1];
      if Signature(last.sub) == sig then front + [last] else front
  }

  lemma OfKindSnoc(items: seq<Item>, it: Item, sig: string)
    ensures OfKind(items + [it], sig)
            == if Signature(it.sub) == sig then OfKind(items, sig) + [it] else OfKind(items, sig)
  {
    hide Signature;
    assert (items + [it])[..|items|] == items;
  }

  lemma {:induction false} NoneOfKind(items: seq<Item>, sig: string)
    requires sig !in Kinds(items)
    ensures OfKind(items, sig) == []
  {
    hide Signature;
    if items != [] {
      var front, last := items[..|items| - 1], items[|items| - 1];
      assert items == front + [last];
      KindsSnoc(front, last);
      NoneOfKind(front, sig);
    }
  }

  /** Each bucket holds exactly the items of its signature, in order. */
  ghost predicate Filed(sigs: seq<string>, buckets: seq<seq<Item>>, items: seq<Item>) {
    && |sigs| == |buckets| && Distinct(sigs)
    && forall i | 0 <= i < |sigs| :: buckets[i] == OfKind(items, sigs[i])
  }

  lemma FiledOld(sigs: seq<string>, buckets: seq<seq<Item>>, items: seq<Item>, k: nat, it: Item)
    requires Filed(sigs, buckets, items) && k < |sigs| && sigs[k] == Signature(it.sub)
    ensures Filed(sigs, buckets[k := buckets[k] + [it]], items + [it])
  {
    hide Signature, OfKind;
    forall i | 0 <= i < |sigs| ensures buckets[k := buckets[k] + [it]][i] == OfKind(items + [it], sigs[i]) {
      OfKindSnoc(items, it, sigs[i]);
    }
  }

  lemma FiledNew(sigs: seq<string>, buckets: seq<seq<Item>>, items: seq<Item>, it: Item)
    requires Filed(sigs, buckets, items) && Signature(it.sub) !in sigs && Signature(it.sub) !in Kinds(items)
    ensures Filed(sigs + [Signature(it.sub)], buckets + [[it]], items + [it])
  {
    var sig := Signature(it.sub);
    NoneOfKind(items, sig);
    OfKindSnoc(items, it, sig);
    hide Signature, OfKind, Kinds;
    assert [] + [it] == [it];
    forall i | 0 <= i < |sigs| ensures buckets[i] == OfKind(items + [it], sigs[i]) {
      OfKindSnoc(items, it, sigs[i]);
    }
  }

  /** Every bucket is the list of all the items of its first item's signature. */
  ghost predicate FullBuckets(buckets: seq<seq<Item>>, items: seq<Item>) {
    forall b: seq<Item> | b in buckets :: b != [] && b == OfKind(items, Signature(b[0].sub))
  }

  lemma FiledIsFull(sigs: seq<string>, buckets: seq<seq<Item>>, items: seq<Item>)
    requires Filed(sigs, buckets, items) && Keyed(sigs, buckets, Kinds(items))
    ensures FullBuckets(buckets, items)
  {
    hide Signature, OfKind, Kinds;
  }

  lemma {:induction false} ConcatSnoc(buckets: seq<seq<Item>>, b: seq<Item>)
    ensures Concat(buckets + [b]) == Concat(buckets) + b
  {
    if buckets == [] {
      assert (buckets + [b])[1..] == [];
    } else {
      assert (buckets + [b])[1..] == buckets[1..] + [b];
      ConcatSnoc(buckets[1..], b);
    }
  }

  lemma {:induction false} ConcatGrown(buckets: seq<seq<Item>>, k: nat, it: Item)
    requires k < |buckets|
    ensures multiset(Concat(buckets[k := buckets[k] + [it]])) == multiset(Concat(buckets)) + multiset{it}
  {
    var grown := buckets[k := buckets[k] + [it]];
    if k == 0 {
      assert grown[1..] == buckets[1..];
    } else {
      assert grown[1..] == buckets[1..][k - 1 := buckets[1..][k - 1] + [it]];
      ConcatGrown(buckets[1..], k - 1, it);
    }
  }

  lemma {:induction false} ConcatPermuted(a: seq<seq<Item>>, b: seq<seq<Item>>)
    requires multiset(a) == multiset(b)
    ensures multiset(Concat(a)) == multiset(Concat(b))
  {
    hide Concat;
    assert |a| == |multiset(a)| == |multiset(b)| == |b|;
    if a != [] {
      assert a[0] in multiset(b);
      var k :| 0 <= k < |b| && b[k] == a[0];
      Without(a, 0);
      Without(b, k);
      ConcatPermuted(a[..0] + a[1..], b[..k] + b[k + 1..]);
      ConcatMoved(a, 0);
      ConcatMoved(b, k);
    } else {
      assert b == [];
    }
  }

  lemma {:induction false} ConcatMoved(b: seq<seq<Item>>, k: nat)
    requires k < |b|
    ensures multiset(Concat(b)) == multiset(b[k]) + multiset(Concat(b[..k] + b[k + 1..]))
  {
    var rest := b[..k] + b[k + 1..];
    if k == 0 {
      assert rest == b[1..];
    } else {
      assert rest[0] == b[0] && rest[1..] == b[1..][..k - 1] + b[1..][k..];
      ConcatMoved(b[1..], k - 1);
    }
  }

  method Find(sigs: seq<string>, sig: string) returns (k: nat)
    ensures k <= |sigs| && (k < |sigs| ==> sigs[k] == sig) && (k == |sigs| ==> sig !in sigs)
  {
    k := 0;
    while k < |sigs| && sigs[k] != sig
      invariant k <= |sigs| && sig !in sigs[..k]
    {
      k := k + 1;
    }
  }

  lemma KeyedNew(sigs: seq<string>, buckets: seq<seq<Item>>, kinds: set<string>, it: Item)
    requires Keyed(sigs, buckets, kinds) && Signature(it.sub) !in sigs
    ensures Keyed(sigs + [Signature(it.sub)], buckets + [[it]], kinds + {Signature(it.sub)})
  {
  }

  lemma KeyedOld(sigs: seq<string>, buckets: seq<seq<Item>>, kinds: set<string>, k: nat, it: Item)
    requires Keyed(sigs, buckets, kinds) && k < |sigs|
    ensures Keyed(sigs, buckets[k := buckets[k] + [it]], kinds)
  {
    var grown := buckets[k := buckets[k] + [it]];
    assert forall i | 0 <= i < |sigs| :: grown[i] != [] && grown[i][0] == buckets[i][0];
  }

  lemma AlikeGrown(buckets: seq<seq<Item>>, k: nat, it: Item, items: seq<Item>)
    requires AllAlike(buckets, items) && k < |buckets|
    requires buckets[k] != [] && Signature(buckets[k][0].sub) == Signature(it.sub)
    ensures AllAlike(buckets[k := buckets[k] + [it]], items + [it])
  {
    var grown := buckets[k := buckets[k] + [it]];
    assert Alike(buckets[k] + [it]);
    forall b | b in grown ensures Alike(b) && b[0] in items + [it] {
      assert b == buckets[k] + [it] || b in buckets;
      assert buckets[k] in buckets;
    }
  }

  lemma AlikeNew(buckets: seq<seq<Item>>, it: Item, items: seq<Item>)
    requires AllAlike(buckets, items)
    ensures AllAlike(buckets + [[it]], items + [it])
  {
  }

  lemma KindsSnoc(items: seq<Item>, it: Item)
    ensures Kinds(items + [it]) == Kinds(items) + {Signature(it.sub)}
  {
    assert (items + [it])[|items|] == it;
    assert forall x | x in items :: x in items + [it];
  }

  lemma KeyedFound(sigs: seq<string>, buckets: seq<seq<Item>>, kinds: set<string>, k: nat)
    requires Keyed(sigs, buckets, kinds) && k < |sigs|
    ensures k < |buckets| && buckets[k] != [] && Signature(buckets[k][0].sub) == sigs[k] && sigs[k] in kinds
  {
  }

  lemma KeyedMissing(sigs: seq<string>, buckets: seq<seq<Item>>, kinds: set<string>, sig: string)
    requires Keyed(sigs, buckets, kinds) && sig !in sigs
    ensures sig !in kinds
  {
  }

  lemma KeyedSize(sigs: seq<string>, buckets: seq<seq<Item>>, kinds: set<string>)
    requires Keyed(sigs, buckets, kinds)
    ensures |buckets| == |kinds|
  {
  }

  lemma GroupingBegins(items: seq<Item>)
    ensures Keyed([], [], Kinds(items[..0])) && AllAlike([], items[..0]) && Concat([]) == []
    ensures Filed([], [], items[..0])
  {
    assert Kinds(items[..0]) == {};
  }

  /** One bucket for each signature, in the order in which the signatures first appear. */
  method GroupBySignature(items: seq<Item>) returns (buckets: seq<seq<Item>>)
    ensures multiset(Concat(buckets)) == multiset(items)
    ensures AllAlike(buckets, items) && |buckets| == |Kinds(items)| && FullBuckets(buckets, items)
  {
    hide Keyed, AllAlike, Signature, Concat, Filed, FullBuckets, Kinds;
    var sigs: seq<string> := [];
    buckets := [];
    GroupingBegins(items);
    for k := 0 to |items|
      invariant Keyed(sigs, buckets, Kinds(items[..k])) && AllAlike(buckets, items[..k])
      invariant multiset(Concat(buckets)) == multiset(items[..k]) && Filed(sigs, buckets, items[..k])
    {
      var it := items[k];
      assert items[..k + 1] == items[..k] + [it];
      KindsSnoc(items[..k], it);
      var sig := Signature(it.sub);
      var at := Find(sigs, sig);
      if at == |sigs| {
        KeyedMissing(sigs, buckets, Kinds(items[..k]), sig);
        FiledNew(sigs, buckets, items[..k], it);
        KeyedNew(sigs, buckets, Kinds(items[..k]), it);
        AlikeNew(buckets, it, items[..k]);
        ConcatSnoc(buckets, [it]);
        sigs, buckets := sigs + [sig], buckets + [[it]];
      } else {
        KeyedFound(sigs, buckets, Kinds(items[..k]), at);
        KeyedOld(sigs, buckets, Kinds(items[..k]), at, it);
        AlikeGrown(buckets, at, it, items[..k]);
        FiledOld(sigs, buckets, items[..k], at, it);
        ConcatGrown(buckets, at, it);
        assert Kinds(items[..k]) + {sig} == Kinds(items[..k]);
        buckets := buckets[at := buckets[at] + [it]];
      }
    }
    assert items[..|items|] == items;
    KeyedSize(sigs, buckets, Kinds(items));
    FiledIsFull(sigs, buckets, items);
  }

  /** The first index of a bucket; no bucket is ever empty. */
  function FirstIndex(bucket: seq<Item>): int {
    if bucket == [] then 0 else bucket[0].idx
  }

  ghost predicate ByFirst(buckets: seq<seq<Item>>) {
    forall i, j | 0 <= i < j < |buckets| :: FirstIndex(buckets[i]) <= FirstIndex(buckets[j])
  }

  /** The buckets stand in the order of their first items' indices. */
  ghost predicate InOrder(buckets: seq<seq<Item>>) {
    forall i, j | 0 <= i < j < |buckets| && buckets[i] != [] && buckets[j] != [] ::
      buckets[i][0].idx <= buckets[j][0].idx
  }

  lemma ByFirstIsInOrder(buckets: seq<seq<Item>>)
    requires ByFirst(buckets)
    ensures InOrder(buckets)
  {
    forall i, j | 0 <= i < j < |buckets| && buckets[i] != [] && buckets[j] != []
      ensures buckets[i][0].idx <= buckets[j][0].idx
    {
      assert FirstIndex(buckets[i]) <= FirstIndex(buckets[j]);
    }
  }

  lemma InsertedByFirst(sorted: seq<seq<Item>>, b: seq<Item>, at: nat)
    requires ByFirst(sorted) && at <= |sorted|
    requires at > 0 ==> FirstIndex(sorted[at - 1]) <= FirstIndex(b)
    requires at < |sorted| ==> FirstIndex(b) <= FirstIndex(sorted[at])
    ensures ByFirst(InsertedAt(sorted, b, at))
  {
    hide FirstIndex;
  }

  /** A stable sort by the first index of each bucket. */
  method SortByFirst(buckets: seq<seq<Item>>) returns (r: seq<seq<Item>>)
    ensures multiset(r) == multiset(buckets) && |r| == |buckets| && ByFirst(r)
  {
    hide ByFirst, FirstIndex;
    r := [];
    assert ByFirst(r) by { NothingByFirst(); }
    for k := 0 to |buckets|
      invariant multiset(r) == multiset(buckets[..k]) && |r| == k && ByFirst(r)
    {
      var b := buckets[k];
      var at := |r|;
      while at > 0 && FirstIndex(r[at - 1]) > FirstIndex(b)
        invariant 0 <= at <= |r| && (at < |r| ==> FirstIndex(b) <= FirstIndex(r[at]))
      {
        at := at - 1;
      }
      InsertedByFirst(r, b, at);
      InsertedMultiset(r, b, at);
      assert buckets[..k + 1] == buckets[..k] + [b];
      r := InsertedAt(r, b, at);
    }
    assert buckets[..|buckets|] == buckets;
  }

  lemma NothingByFirst()
    ensures ByFirst([])
  {
  }

  lemma OneIndex(i: int)
    ensures Indices(Text(i)) == [i]
  {
    var rs := [Range(i, i)];
    ReadRangesOfText(rs);
    assert Texts(rs) == [Text(i)] && Interval(i, i) == [i];
    assert rs[1..] == [] && Expand(rs) == [i];
  }

  // ---------- the printer ----------

  /** The line of a bucket's indices, and its count if there is more than one. */
  method Heading(bucket: seq<Item>) returns (heading: string, count: Option<nat>)
    requires bucket != []
    ensures multiset(Indices(heading)) == multiset(IndicesOf(bucket))
    ensures count == if |bucket| > 1 then Some(|bucket|) else None
    ensures GoodWord(heading) && (count.Some? || PyInt(heading).Some?)
  {
    hide GoodWord, PyInt, Texts, Join;
    var indices := IndicesOf(bucket);
    if |indices| > 1 {
      var text := FormatIndexRanges(indices);
      ghost var sorted, rs :| Prints(text.value, sorted, rs) && multiset(sorted) == multiset(indices);
      assert |sorted| == |multiset(sorted)| == |multiset(indices)| == |indices|;
      RangesAreWord(rs);
      heading, count := text.value, Some(|indices|);
    } else {
      OneIndex(indices[0]);
      TextIsWord(indices[0]);
      assert indices == [indices[0]];
      heading, count := Text(indices[0]), None;
    }
  }

  /** The groups of a printed tree are for these buckets, one by one. */
  ghost predicate GroupsFor(p: Printed, buckets: seq<seq<Item>>)
    decreases p, 0
  {
    && |p.groups| == |buckets|
    && forall i | 0 <= i < |buckets| ::
         && buckets[i] != [] && multiset(Indices(p.groups[i].heading)) == multiset(IndicesOf(buckets[i]))
         && p.groups[i].count == (if |buckets[i]| > 1 then Some(|buckets[i]|) else None)
         && Arranged(p.groups[i].body, buckets[i][0].sub)
  }

  /**
   What is printed where, whether or not signatures decide: one group for each signature, in the order of the first
   indices, with all its indices and with the first of its layers as its body; then the named children in order.
   */
  ghost predicate Arranged(p: Printed, m: Module)
    decreases p, 1
  {
    var items, cs := Numbered(m.children), Named(m.children);
    && p.info == m.info
    && (exists buckets :: GroupsFor(p, buckets) && BucketsOf(buckets, items))
    && |p.named| == |cs|
    && forall i | 0 <= i < |cs| :: p.named[i].name == cs[i].name && Arranged(p.named[i].body, cs[i].sub)
  }

  ghost predicate BucketsOf(buckets: seq<seq<Item>>, items: seq<Item>) {
    && FullBuckets(buckets, items) && InOrder(buckets) && |buckets| == |Kinds(items)|
    && multiset(Concat(buckets)) == multiset(items)
  }

  ghost predicate GroupsArranged(gs: seq<Group>, buckets: seq<seq<Item>>) {
    |gs| == |buckets| && forall i | 0 <= i < |gs| :: buckets[i] != [] && Arranged(gs[i].body, buckets[i][0].sub)
  }

  ghost predicate EntriesArranged(es: seq<Entry>, cs: seq<Child>) {
    |es| == |cs| && forall i | 0 <= i < |es| :: es[i].name == cs[i].name && Arranged(es[i].body, cs[i].sub)
  }

  lemma ArrangedFromParts(p: Printed, m: Module, buckets: seq<seq<Item>>)
    requires p.info == m.info && StandForAll(p.groups, buckets) && BucketsOf(buckets, Numbered(m.children))
    requires GroupsArranged(p.groups, buckets) && EntriesArranged(p.named, Named(m.children))
    ensures Arranged(p, m)
  {
    hide BucketsOf, Indices, IndicesOf, Numbered, Named, Faithful, Decided, Signature;
    assert GroupsFor(p, buckets);
  }

  /**
   The lines render a printed tree with one group for each signature of a numbered child. It stands for the module
   if signatures decide which layers are equal, and it can be read if names and infos are of the readable kinds.
   */
  ghost predicate Displays(p: Printed, lines: seq<string>, m: Module, name: string, indent: nat) {
    && lines == Render(p, NameTag(name), indent)
    && (Decided(m) ==> Faithful(p, m)) && (Readable(m) ==> WellPrinted(p)) && Arranged(p, m)
    && p.info == m.info && |p.groups| == |Kinds(Numbered(m.children))|
  }

  ghost predicate DisplaysGroup(g: Group, lines: seq<string>, bucket: seq<Item>, indent: nat) {
    && Stands(g, bucket) && Reads(g, bucket) && lines == Render(g.body, GroupTag(g), indent)
    && bucket != [] && Arranged(g.body, bucket[0].sub)
  }

  /** The lines render one group for each signature, in the order of the first indices. */
  ghost predicate DisplaysGroups(gs: seq<Group>, buckets: seq<seq<Item>>, lines: seq<string>, items: seq<Item>, indent: nat) {
    && lines == RenderGroups(gs, indent) && |gs| == |Kinds(items)|
    && StandForAll(gs, buckets) && GroupsRead(gs, buckets) && GroupsArranged(gs, buckets) && BucketsOf(buckets, items)
    && multiset(Concat(buckets)) == multiset(items)
  }

  ghost predicate DisplaysEntries(es: seq<Entry>, lines: seq<string>, cs: seq<Child>, indent: nat) {
    EntriesStand(es, cs) && EntriesRead(es, cs) && EntriesArranged(es, cs) && lines == RenderEntries(es, indent)
  }

  /** One printed group: the representative's lines with the heading put before the first. */
  method FormatGroup(bucket: seq<Item>, ghost m: Module, indent: nat) returns (lines: seq<string>)
    requires Alike(bucket) && Below(bucket[0].sub, m)
    ensures exists g :: DisplaysGroup(g, lines, bucket, indent)
    decreases m, 0
  {
    hide Readable, WellPrinted, GoodWord, PyInt, Signature, Decided, Printable, Indices, IndicesOf, ItemsOf, Render, GroupTag, Indent, LStrip, Kinds, Numbered,
         Arranged;
    var representative := bucket[0].sub;
    var heading, count := Heading(bucket);
    lines := FormatModuleTree(representative, "", indent);
    ghost var body :| Displays(body, lines, representative, "", indent);
    ghost var g := Group(heading, count, body);
    var tag := "(" + heading + "): " + CountText(count);
    Tagged(g, tag, representative, lines, indent);
    lines := lines[0 := Indent(indent) + tag + LStrip(lines[0])];
    assert DisplaysGroup(g, lines, bucket, indent);
  }

  lemma Tagged(g: Group, tag: string, m: Module, lines: seq<string>, indent: nat)
    requires Printable(m) && g.body.info == m.info && lines == Render(g.body, [], indent)
    requires tag == "(" + g.heading + "): " + CountText(g.count)
    ensures lines[0 := Indent(indent) + tag + LStrip(lines[0])] == Render(g.body, GroupTag(g), indent)
  {
    Relabel(g.body, tag, indent, lines);
  }

  method FormatGroups(items: seq<Item>, ghost m: Module, indent: nat) returns (lines: seq<string>)
    requires forall it | it in items :: Below(it.sub, m)
    ensures exists gs, buckets :: DisplaysGroups(gs, buckets, lines, items, indent)
    decreases m, 1
  {
    hide Below, Stands, Reads, Render, GroupTag, Concat, Kinds, ByFirst, InOrder, FullBuckets, Arranged;
    var unsorted := GroupBySignature(items);
    var order := SortByFirst(unsorted);
    ConcatPermuted(unsorted, order);
    ByFirstIsInOrder(order);
    FullPermuted(unsorted, order, items);
    ghost var gs := [];
    lines := [];
    for k := 0 to |order|
      invariant StandForAll(gs, order[..k]) && GroupsRead(gs, order[..k]) && GroupsArranged(gs, order[..k])
      invariant lines == RenderGroups(gs, indent)
    {
      assert order[k] in multiset(order);
      assert order[k] in unsorted;
      var bucketLines := FormatGroup(order[k], m, indent);
      ghost var g :| DisplaysGroup(g, bucketLines, order[k], indent);
      RenderGroupsSnoc(gs, g, indent);
      lines := lines + bucketLines;
      gs := gs + [g];
    }
    assert order[..|order|] == order;
    assert DisplaysGroups(gs, order, lines, items, indent);
  }

  lemma FullPermuted(a: seq<seq<Item>>, b: seq<seq<Item>>, items: seq<Item>)
    requires multiset(a) == multiset(b) && FullBuckets(a, items)
    ensures FullBuckets(b, items)
  {
    hide OfKind, Signature;
    forall x | x in b ensures x in a {
      assert x in multiset(b);
    }
  }

  method FormatEntries(cs: seq<Child>, ghost m: Module, indent: nat) returns (lines: seq<string>)
    requires forall c | c in cs :: Below(c.sub, m)
    ensures exists es :: DisplaysEntries(es, lines, cs, indent)
    decreases m, 1
  {
    hide Readable, WellPrinted, Signature, Decided, Printable, Render, NameTag, Faithful, Kinds, Numbered, Arranged;
    ghost var es := [];
    lines := [];
    for k := 0 to |cs|
      invariant EntriesStand(es, cs[..k]) && EntriesRead(es, cs[..k]) && EntriesArranged(es, cs[..k])
      invariant lines == RenderEntries(es, indent)
    {
      assert cs[k] in cs;
      var childLines := FormatModuleTree(cs[k].sub, cs[k].name, indent);
      ghost var body :| Displays(body, childLines, cs[k].sub, cs[k].name, indent);
      ghost var e := Entry(cs[k].name, body);
      RenderEntriesSnoc(es, e, indent);
      lines := lines + childLines;
      es := es + [e];
    }
    assert cs[..|cs|] == cs;
    assert DisplaysEntries(es, lines, cs, indent);
  }

  /**
   The lines are the rendering of a tree that stands for the module: repeating each group's body for each of
   its indices gives back every row of the module exactly once, if signatures decide which layers are equal.
   */
  method FormatModuleTree(m: Module, name: string, indent: nat) returns (lines: seq<string>)
    requires Printable(m)
    ensures exists p :: Displays(p, lines, m, name, indent)
    decreases m, 2
  {
    hide Readable, WellPrinted, GroupsRead, EntriesRead, Decided;
    hide Faithful, StandForAll, EntriesStand, RenderGroups, RenderEntries, Concat, Kinds, Below, Numbered, Named;
    hide Arranged, GroupsArranged, EntriesArranged, BucketsOf;
    var prefix := Indent(indent);
    assert prefix + [] == prefix;
    assert prefix + m.info + "(" == prefix + (m.info + "(");
    if m.children == [] {
      LeafIsFaithful(m);
      lines := [if name == [] then prefix + m.info else prefix + ("(" + name + "): ") + m.info];
      assert Displays(Printed(m.info, [], []), lines, m, name, indent);
      return;
    }
    var numbered, named := Separate(m.children);
    PartsAreBelow(m);
    PartsCover(m.children);
    lines := [if name == [] then prefix + m.info + "(" else prefix + ("(" + name + "): ") + (m.info + "(")];
    var groupLines := FormatGroups(numbered, m, indent + 1);
    ghost var gs, buckets :| DisplaysGroups(gs, buckets, groupLines, numbered, indent + 1);
    var entryLines := FormatEntries(named, m, indent + 1);
    ghost var es :| DisplaysEntries(es, entryLines, named, indent + 1);
    ghost var p := Printed(m.info, gs, es);
    FaithfulFromParts(p, m, buckets);
    WellPrintedFromParts(p, m, buckets);
    ArrangedFromParts(p, m, buckets);
    KindsNonEmpty(numbered);
    EntriesLength(es, named);
    lines := lines + groupLines + entryLines + [prefix + ")"];
    assert Displays(p, lines, m, name, indent);
  }

  lemma LeafIsFaithful(m: Module)
    requires m.children == []
    ensures (Decided(m) ==> Faithful(Printed(m.info, [], []), m)) && |Kinds(Numbered(m.children))| == 0
    ensures Readable(m) ==> WellPrinted(Printed(m.info, [], []))
    ensures Arranged(Printed(m.info, [], []), m)
  {
    FaithfulFromParts(Printed(m.info, [], []), m, []);
    WellPrintedFromParts(Printed(m.info, [], []), m, []);
    assert Kinds([]) == {} && BucketsOf([], []);
    ArrangedFromParts(Printed(m.info, [], []), m, []);
  }

  lemma PartsAreBelow(m: Module)
    requires Printable(m)
    ensures forall it | it in Numbered(m.children) :: Below(it.sub, m)
    ensures forall c | c in Named(m.children) :: Below(c.sub, m)
  {
    hide Below, PrintableChildren;
    ChildrenAreBelow(m.children, m);
    PartsComeFrom(m.children);
  }

  lemma KindsNonEmpty(items: seq<Item>)
    ensures Kinds(items) == {} <==> items == []
  {
    if items != [] {
      assert Signature(items[0].sub) in Kinds(items);
    }
  }

  lemma EntriesLength(es: seq<Entry>, cs: seq<Child>)
    requires EntriesStand(es, cs)
    ensures |es| == |cs|
  {
  }

  /** The text is that of a printed tree of the module. */
  ghost predicate Inspects(text: string, m: Module) {
    exists p :: InspectsAs(p, text, m)
  }

  ghost predicate InspectsAs(p: Printed, text: string, m: Module) {
    && text == Join(Render(p, [], 0), "\n")
    && (Readable(m) ==> WellPrinted(p)) && (Decided(m) ==> Faithful(p, m)) && Arranged(p, m)
  }

  method FormatModelInspection(m: Module) returns (text: string)
    requires Printable(m)
    ensures Inspects(text, m)
  {
    hide Render, Join, Readable, WellPrinted, Faithful, Kinds, Numbered, Decided, Arranged;
    var lines := FormatModuleTree(m, "", 0);
    ghost var p :| Displays(p, lines, m, "", 0);
    text := Join(lines, "\n");
    assert InspectsAs(p, text, m);
  }

  /**
   The text loses nothing: models with the same text have the same listing, with each name as the printer shows it,
   and if their numeral names are plain, then exactly the same rows.
   */
  lemma SameText(text: string, m: Module, n: Module)
    requires Inspects(text, m) && Inspects(text, n)
    requires Readable(m) && Readable(n) && Decided(m) && Decided(n)
    ensures forall path: seq<string> :: Listed(m, path) == Listed(n, path)
    ensures PlainNames(m) && PlainNames(n) ==> multiset(Flatten(m, [])) == multiset(Flatten(n, []))
  {
    hide Render, Join, Readable, WellPrinted, Decided, Listed, PlainNames, Arranged;
    var p :| InspectsAs(p, text, m);
    var q :| InspectsAs(q, text, n);
    TextDetermines(p, q);
    forall path: seq<string> ensures Listed(m, path) == Listed(n, path) {
      assert Shown(p, path) == Listed(m, path) && Shown(q, path) == Listed(n, path);
    }
    if PlainNames(m) && PlainNames(n) {
      PlainIsListed(m, []);
      PlainIsListed(n, []);
    }
  }
}
