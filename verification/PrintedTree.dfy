// What a printed module tree with collapsed layers stands for, and when that is all of the tree.
module PrintedTree {
  import opened Sequences
  import opened Wrappers
  import opened Numerals
  import opened IndexRanges
  import opened ModuleTree
  import opened PyIntegers

  // ---------- numbered and named children ----------

  datatype Item = Item(idx: int, sub: Module)

  /** The child as a numbered one, or as a named one. */
  function AsItem(c: Child): seq<Item> {
    match PyInt(c.name) case None => [] case Some(i) => [Item(i, c.sub)]
  }

  function AsNamed(c: Child): seq<Child> {
    if PyInt(c.name).None? then [c] else []
  }

  function Numbered(cs: seq<Child>): seq<Item> {
    if cs == [] then [] else AsItem(cs[0]) + Numbered(cs[1..])
  }

  function Named(cs: seq<Child>): seq<Child> {
    if cs == [] then [] else AsNamed(cs[0]) + Named(cs[1..])
  }

  lemma {:induction false} PartsConcat(a: seq<Child>, b: seq<Child>)
    ensures Numbered(a + b) == Numbered(a) + Numbered(b) && Named(a + b) == Named(a) + Named(b)
  {
    hide AsItem, AsNamed;
    if a == [] {
      assert a + b == b;
    } else {
      assert (a + b)[1..] == a[1..] + b;
      PartsConcat(a[1..], b);
    }
  }

  lemma OnePart(c: Child)
    ensures Numbered([c]) == AsItem(c) && Named([c]) == AsNamed(c)
  {
    hide AsItem, AsNamed;
    assert [c][1..] == [];
    assert AsItem(c) + [] == AsItem(c) && AsNamed(c) + [] == AsNamed(c);
  }

  lemma PartsAround(before: seq<Child>, c: Child, after: seq<Child>)
    ensures Numbered(before + [c] + after) == Numbered(before) + AsItem(c) + Numbered(after)
    ensures Named(before + [c] + after) == Named(before) + AsNamed(c) + Named(after)
  {
    hide AsItem, AsNamed, Numbered, Named;
    PartsConcat(before + [c], after);
    PartsConcat(before, [c]);
    OnePart(c);
  }

  /**
   A child whose name is a numeral is numbered with its value, and any other child is a named one, shown under its
   name; neither changes what becomes of the children around it.
   */
  lemma PartOfChild(before: seq<Child>, c: Child, after: seq<Child>)
    ensures var cs := before + [c] + after;
            if IsNumeral(c.name)
            then Numbered(cs) == Numbered(before) + [Item(NumeralValue(c.name), c.sub)] + Numbered(after)
                 && Named(cs) == Named(before) + Named(after)
            else Numbered(cs) == Numbered(before) + Numbered(after)
                 && Named(cs) == Named(before) + [c] + Named(after) && ShownName(c.name) == c.name
  {
    hide PyInt, IsNumeral, NumeralValue, Numbered, Named;
    PartsAround(before, c, after);
    PyIntExact(c.name);
  }

  // ---------- what has to be shown ----------

  /** Every path and info of a tree, with each name as the printer shows it. */
  ghost function Listed(m: Module, path: seq<string>): multiset<Row>
    decreases m, 1
  {
    multiset{Row(path, m.info)} + ListedChildren(m.children, path)
  }

  ghost function ListedChildren(cs: seq<Child>, path: seq<string>): multiset<Row>
    decreases cs, 0
  {
    if cs == [] then multiset{}
    else Listed(cs[0].sub, path + [ShownName(cs[0].name)]) + ListedChildren(cs[1..], path)
  }

  ghost function ListedItems(items: seq<Item>, path: seq<string>): multiset<Row> {
    if items == [] then multiset{}
    else Listed(items[0].sub, path + [Text(items[0].idx)]) + ListedItems(items[1..], path)
  }

  ghost function ListedNamed(cs: seq<Child>, path: seq<string>): multiset<Row> {
    if cs == [] then multiset{}
    else Listed(cs[0].sub, path + [cs[0].name]) + ListedNamed(cs[1..], path)
  }

  lemma FirstKid(cs: seq<Child>, path: seq<string>)
    requires cs != []
    ensures ListedItems(AsItem(cs[0]), path) + ListedNamed(AsNamed(cs[0]), path)
            == Listed(cs[0].sub, path + [ShownName(cs[0].name)])
    ensures Numbered(cs) == AsItem(cs[0]) + Numbered(cs[1..]) && Named(cs) == AsNamed(cs[0]) + Named(cs[1..])
  {
    hide Listed, PyInt;
    var c := cs[0];
    if PyInt(c.name).Some? {
      OneItem(AsItem(c), path);
    } else {
      OneNamed(AsNamed(c), path);
    }
  }

  lemma OneItem(items: seq<Item>, path: seq<string>)
    requires |items| == 1
    ensures ListedItems(items, path) == Listed(items[0].sub, path + [Text(items[0].idx)])
  {
    hide Listed;
    assert items[1..] == [];
  }

  lemma OneNamed(cs: seq<Child>, path: seq<string>)
    requires |cs| == 1
    ensures ListedNamed(cs, path) == Listed(cs[0].sub, path + [cs[0].name])
  {
    hide Listed;
    assert cs[1..] == [];
  }

  lemma {:induction false} KidsSplit(cs: seq<Child>, path: seq<string>)
    ensures ListedChildren(cs, path) == ListedItems(Numbered(cs), path) + ListedNamed(Named(cs), path)
  {
    hide Listed, ListedItems, ListedNamed, ShownName, AsItem, AsNamed, Numbered, Named;
    if cs == [] {
      NoKids(path);
    } else {
      KidsSplit(cs[1..], path);
      FirstKid(cs, path);
      ListedConcat(AsItem(cs[0]), Numbered(cs[1..]), path);
      NamedConcat(AsNamed(cs[0]), Named(cs[1..]), path);
    }
  }

  lemma NoKids(path: seq<string>)
    ensures ListedItems(Numbered([]), path) == multiset{} && ListedNamed(Named([]), path) == multiset{}
  {
  }

  lemma {:induction false} NamedConcat(a: seq<Child>, b: seq<Child>, path: seq<string>)
    ensures ListedNamed(a + b, path) == ListedNamed(a, path) + ListedNamed(b, path)
  {
    hide Listed;
    if a == [] {
      assert a + b == b;
    } else {
      assert (a + b)[1..] == a[1..] + b;
      NamedConcat(a[1..], b, path);
    }
  }

  predicate ShownNames(cs: seq<string>) {
    forall n | n in cs :: ShownName(n) == n
  }

  predicate PlainName(name: string) {
    !IsNumeral(name) || IsPlain(name)
  }

  /** Every name in the tree is no numeral, or one in the printer's own way. */
  predicate PlainNames(m: Module)
    decreases m, 1
  {
    PlainChildren(m.children)
  }

  predicate PlainChildren(cs: seq<Child>)
    decreases cs, 0
  {
    cs == [] || (PlainName(cs[0].name) && PlainNames(cs[0].sub) && PlainChildren(cs[1..]))
  }

  lemma {:induction false} PlainIsListed(m: Module, path: seq<string>)
    requires PlainNames(m)
    ensures Listed(m, path) == multiset(Flatten(m, path))
    decreases m, 1
  {
    PlainChildrenListed(m.children, path);
  }

  lemma {:induction false} PlainChildrenListed(cs: seq<Child>, path: seq<string>)
    requires PlainChildren(cs)
    ensures ListedChildren(cs, path) == multiset(FlattenChildren(cs, path))
    decreases cs, 0
  {
    hide ShownName, IsNumeral, IsPlain;
    if cs != [] {
      ShownAsItIs(cs[0].name);
      PlainIsListed(cs[0].sub, path + [cs[0].name]);
      PlainChildrenListed(cs[1..], path);
    }
  }

  lemma {:induction false} ListedIsShown(m: Module, path: seq<string>, row: Row)
    requires ShownNames(path) && row in Listed(m, path)
    ensures ShownNames(row.path)
    decreases m, 1
  {
    hide ShownName;
    if row != Row(path, m.info) {
      ListedChildIsShown(m.children, path, row);
    }
  }

  lemma {:induction false} ListedChildIsShown(cs: seq<Child>, path: seq<string>, row: Row)
    requires ShownNames(path) && row in ListedChildren(cs, path)
    ensures ShownNames(row.path)
    decreases cs, 0
  {
    hide ShownName;
    var shown := path + [ShownName(cs[0].name)];
    ShownNameIsShown(cs[0].name);
    if row in Listed(cs[0].sub, shown) {
      ListedIsShown(cs[0].sub, shown, row);
    } else {
      ListedChildIsShown(cs[1..], path, row);
    }
  }

  lemma {:induction false} ShownRowsArePlain(m: Module, path: seq<string>)
    requires forall r | r in Flatten(m, path) :: ShownNames(r.path)
    ensures PlainNames(m)
    decreases m, 1
  {
    ShownChildRowsArePlain(m.children, path);
  }

  lemma {:induction false} ShownChildRowsArePlain(cs: seq<Child>, path: seq<string>)
    requires forall r | r in FlattenChildren(cs, path) :: ShownNames(r.path)
    ensures PlainChildren(cs)
    decreases cs, 0
  {
    hide ShownName, IsNumeral, IsPlain;
    if cs != [] {
      ShownAsItIs(cs[0].name);
      var inner := path + [cs[0].name];
      assert Flatten(cs[0].sub, inner)[0] == Row(inner, cs[0].sub.info);
      assert Row(inner, cs[0].sub.info) in FlattenChildren(cs, path);
      assert cs[0].name in inner;
      ShownRowsArePlain(cs[0].sub, inner);
      ShownChildRowsArePlain(cs[1..], path);
    }
  }

  /** The printer shows the tree's own listing exactly if no numbered child has a name such as "007". */
  lemma ListedExact(m: Module)
    ensures Listed(m, []) == multiset(Flatten(m, [])) <==> PlainNames(m)
  {
    if PlainNames(m) {
      PlainIsListed(m, []);
    }
    if Listed(m, []) == multiset(Flatten(m, [])) {
      forall r | r in Flatten(m, []) ensures ShownNames(r.path) {
        assert r in multiset(Flatten(m, []));
        ListedIsShown(m, [], r);
      }
      ShownRowsArePlain(m, []);
    }
  }

  /** A child named "007" is shown as "7". */
  lemma SevenIsNotPlain(m: Module)
    requires m == Single("M", "007", "X")
    ensures ShownName("007") == "7" && Listed(m, []) != multiset(Flatten(m, []))
  {
    assert "007"[1..] == "07" && "07"[1..] == "7" && "7"[1..] == "";
    assert ReadNumeral("7", 0) == Some(7) && ReadNumeral("007", 0) == Some(7);
    assert PyInt("007") == Some(7) && Text(7) == "7";
    assert IsNumeral("007") && !IsPlain("007") && !PlainNames(m);
    ListedExact(m);
  }

  // ---------- the printed tree ----------

  datatype Printed = Printed(info: string, groups: seq<Group>, named: seq<Entry>)

  /** A line for numbered children, such as "(0-27, 29): 29 x ...", or "(3): ..." without a count. */
  datatype Group = Group(heading: string, count: Option<nat>, body: Printed)

  datatype Entry = Entry(name: string, body: Printed)

  /** What a reader takes from a printed tree, who repeats each group's body once for each of its indices. */
  ghost function Shown(p: Printed, path: seq<string>): multiset<Row>
    decreases p, 0, 0
  {
    multiset{Row(path, p.info)} + ShownGroups(p.groups, path) + ShownEntries(p.named, path)
  }

  ghost function ShownGroups(gs: seq<Group>, path: seq<string>): multiset<Row>
    decreases gs, 2, 0
  {
    if gs == [] then multiset{}
    else ShownAt(gs[0].body, Indices(gs[0].heading), path) + ShownGroups(gs[1..], path)
  }

  ghost function ShownAt(p: Printed, indices: seq<int>, path: seq<string>): multiset<Row>
    decreases p, 1, |indices|
  {
    if indices == [] then multiset{}
    else Shown(p, path + [Text(indices[0])]) + ShownAt(p, indices[1..], path)
  }

  ghost function ShownEntries(es: seq<Entry>, path: seq<string>): multiset<Row>
    decreases es, 2, 0
  {
    if es == [] then multiset{}
    else Shown(es[0].body, path + [es[0].name]) + ShownEntries(es[1..], path)
  }

  function Indices(heading: string): seq<int> {
    match ReadRanges(heading)
    case None => []
    case Some(rs) => Expand(rs)
  }

  /** The printed tree stands for the module, wherever the two are put. */
  ghost predicate Faithful(p: Printed, m: Module) {
    forall path: seq<string> :: Shown(p, path) == Listed(m, path)
  }

  // ---------- one group ----------

  function ItemsOf(indices: seq<int>, sub: Module): seq<Item> {
    seq(|indices|, i requires 0 <= i < |indices| => Item(indices[i], sub))
  }

  lemma {:induction false} ItemsOfCount(indices: seq<int>, sub: Module, it: Item)
    ensures multiset(ItemsOf(indices, sub))[it] == if it.sub == sub then multiset(indices)[it.idx] else 0
  {
    if indices != [] {
      var x, rest := indices[0], indices[1..];
      ItemsOfCount(rest, sub, it);
      assert indices == [x] + rest;
      assert ItemsOf(indices, sub) == [Item(x, sub)] + ItemsOf(rest, sub);
    }
  }

  lemma ItemsOfPermuted(a: seq<int>, b: seq<int>, sub: Module)
    requires multiset(a) == multiset(b)
    ensures multiset(ItemsOf(a, sub)) == multiset(ItemsOf(b, sub))
  {
    forall it: Item ensures multiset(ItemsOf(a, sub))[it] == multiset(ItemsOf(b, sub))[it] {
      ItemsOfCount(a, sub, it);
      ItemsOfCount(b, sub, it);
    }
  }

  lemma {:induction false} ListedConcat(a: seq<Item>, b: seq<Item>, path: seq<string>)
    ensures ListedItems(a + b, path) == ListedItems(a, path) + ListedItems(b, path)
  {
    hide Listed;
    if a == [] {
      assert a + b == b;
    } else {
      assert (a + b)[1..] == a[1..] + b;
      ListedConcat(a[1..], b, path);
    }
  }

  lemma {:induction false} ListedMoved(b: seq<Item>, k: nat, path: seq<string>)
    requires k < |b|
    ensures ListedItems(b, path) == ListedItems([b[k]], path) + ListedItems(b[..k] + b[k + 1..], path)
  {
    hide Listed, ListedItems;
    ListedConcat(b[..k], [b[k]] + b[k + 1..], path);
    ListedConcat([b[k]], b[k + 1..], path);
    ListedConcat(b[..k], b[k + 1..], path);
    assert b == b[..k] + ([b[k]] + b[k + 1..]);
  }

  lemma {:induction false} ListedPermuted(a: seq<Item>, b: seq<Item>, path: seq<string>)
    requires multiset(a) == multiset(b)
    ensures ListedItems(a, path) == ListedItems(b, path)
  {
    hide Listed, ListedItems;
    assert |a| == |multiset(a)| == |multiset(b)| == |b|;
    if a != [] {
      assert a[0] in multiset(b);
      var k :| 0 <= k < |b| && b[k] == a[0];
      Without(a, 0);
      Without(b, k);
      ListedPermuted(a[..0] + a[1..], b[..k] + b[k + 1..], path);
      ListedMoved(a, 0, path);
      ListedMoved(b, k, path);
    } else {
      assert b == [];
    }
  }

  lemma {:induction false} ShownAtIsListed(p: Printed, sub: Module, indices: seq<int>, path: seq<string>)
    requires Faithful(p, sub)
    ensures ShownAt(p, indices, path) == ListedItems(ItemsOf(indices, sub), path)
  {
    hide Listed, Shown;
    if indices != [] {
      ShownAtIsListed(p, sub, indices[1..], path);
      assert ItemsOf(indices, sub)[1..] == ItemsOf(indices[1..], sub);
    }
  }

  /** Layers of equal signature are equal. */
  ghost predicate Decides(items: seq<Item>) {
    forall x, y | x in items && y in items && Signature(x.sub) == Signature(y.sub) :: x.sub == y.sub
  }

  /** Everywhere in the tree signatures decide which numbered children are equal. */
  ghost predicate Decided(m: Module)
    decreases m, 1
  {
    Decides(Numbered(m.children)) && DecidedChildren(m.children)
  }

  ghost predicate DecidedChildren(cs: seq<Child>)
    decreases cs, 0
  {
    cs == [] || (Decided(cs[0].sub) && DecidedChildren(cs[1..]))
  }

  /** A group's line stands for a bucket of layers of one signature. */
  ghost predicate Stands(g: Group, bucket: seq<Item>) {
    && bucket != []
    && (forall it | it in bucket :: Signature(it.sub) == Signature(bucket[0].sub))
    && (Decided(bucket[0].sub) ==> Faithful(g.body, bucket[0].sub))
    && multiset(Indices(g.heading)) == multiset(IndicesOf(bucket))
    && g.count == if |bucket| > 1 then Some(|bucket|) else None
  }

  function IndicesOf(bucket: seq<Item>): seq<int> {
    seq(|bucket|, i requires 0 <= i < |bucket| => bucket[i].idx)
  }

  ghost predicate AllDecided(items: seq<Item>) {
    Decides(items) && forall it | it in items :: Decided(it.sub)
  }

  lemma BucketIsItemsOf(bucket: seq<Item>)
    requires bucket != [] && forall it | it in bucket :: it.sub == bucket[0].sub
    ensures bucket == ItemsOf(IndicesOf(bucket), bucket[0].sub)
  {
  }

  lemma GroupIsListed(g: Group, bucket: seq<Item>, items: seq<Item>, path: seq<string>)
    requires Stands(g, bucket) && AllDecided(items) && forall it | it in bucket :: it in items
    ensures ShownAt(g.body, Indices(g.heading), path) == ListedItems(bucket, path)
  {
    hide Indices, Faithful, Signature, Decided;
    var sub := bucket[0].sub;
    assert bucket[0] in items;
    BucketIsItemsOf(bucket);
    ShownAtIsListed(g.body, sub, Indices(g.heading), path);
    ItemsOfPermuted(Indices(g.heading), IndicesOf(bucket), sub);
    ListedPermuted(ItemsOf(Indices(g.heading), sub), bucket, path);
  }

  // ---------- all groups ----------

  function Concat(buckets: seq<seq<Item>>): seq<Item> {
    if buckets == [] then [] else buckets[0] + Concat(buckets[1..])
  }

  ghost predicate StandForAll(gs: seq<Group>, buckets: seq<seq<Item>>) {
    |gs| == |buckets| && forall i | 0 <= i < |gs| :: Stands(gs[i], buckets[i])
  }

  lemma {:induction false} InConcat(buckets: seq<seq<Item>>, b: seq<Item>, it: Item)
    requires b in buckets && it in b
    ensures it in Concat(buckets)
  {
    if b != buckets[0] {
      InConcat(buckets[1..], b, it);
    }
  }

  lemma {:induction false} GroupsAreListed(gs: seq<Group>, buckets: seq<seq<Item>>, items: seq<Item>, path: seq<string>)
    requires StandForAll(gs, buckets) && AllDecided(items) && forall b | b in buckets :: forall it | it in b :: it in items
    ensures ShownGroups(gs, path) == ListedItems(Concat(buckets), path)
  {
    hide Stands, ShownAt, Listed, AllDecided;
    if gs != [] {
      assert buckets[0] in buckets;
      assert forall b | b in buckets[1..] :: b in buckets;
      GroupIsListed(gs[0], buckets[0], items, path);
      GroupsAreListed(gs[1..], buckets[1..], items, path);
      ListedConcat(buckets[0], Concat(buckets[1..]), path);
    }
  }

  ghost predicate EntriesStand(es: seq<Entry>, cs: seq<Child>) {
    && |es| == |cs|
    && forall i | 0 <= i < |es| :: es[i].name == cs[i].name && (Decided(cs[i].sub) ==> Faithful(es[i].body, cs[i].sub))
  }

  lemma {:induction false} EntriesAreListed(es: seq<Entry>, cs: seq<Child>, path: seq<string>)
    requires EntriesStand(es, cs) && forall c | c in cs :: Decided(c.sub)
    ensures ShownEntries(es, path) == ListedNamed(cs, path)
  {
    hide Shown, Listed, Decided;
    if es != [] {
      assert cs[0] in cs;
      EntriesAreListed(es[1..], cs[1..], path);
    }
  }

  lemma {:induction false} PartsComeFrom(cs: seq<Child>)
    ensures forall it | it in Numbered(cs) :: exists c :: c in cs && c.sub == it.sub
    ensures forall c | c in Named(cs) :: c in cs
  {
    if cs != [] {
      PartsComeFrom(cs[1..]);
    }
  }

  lemma {:induction false} ChildrenDecided(cs: seq<Child>)
    requires DecidedChildren(cs)
    ensures forall c | c in cs :: Decided(c.sub)
  {
    if cs != [] {
      ChildrenDecided(cs[1..]);
      assert forall c | c in cs :: c == cs[0] || c in cs[1..];
    }
  }

  lemma PartsDecided(m: Module)
    requires Decided(m)
    ensures AllDecided(Numbered(m.children)) && forall c | c in Named(m.children) :: Decided(c.sub)
  {
    ChildrenDecided(m.children);
    PartsComeFrom(m.children);
    hide Decides, DecidedChildren, Numbered, Named;
  }

  /**
   Groups that stand for all numbered children, and entries for all named ones, make a faithful tree, as far as
   signatures decide which layers are equal.
   */
  lemma FaithfulFromParts(p: Printed, m: Module, buckets: seq<seq<Item>>)
    requires p.info == m.info && StandForAll(p.groups, buckets) && EntriesStand(p.named, Named(m.children))
    requires multiset(Concat(buckets)) == multiset(Numbered(m.children))
    ensures Decided(m) ==> Faithful(p, m)
  {
    hide StandForAll, EntriesStand, ShownGroups, ShownEntries, ListedChildren, ListedItems, ListedNamed, Concat;
    hide Decided, AllDecided;
    if Decided(m) {
      var items := Numbered(m.children);
      PartsDecided(m);
      forall b, it | b in buckets && it in b ensures it in items {
        InConcat(buckets, b, it);
        assert it in multiset(Concat(buckets));
      }
      forall path: seq<string> ensures Shown(p, path) == Listed(m, path) {
        GroupsAreListed(p.groups, buckets, items, path);
        ListedPermuted(Concat(buckets), items, path);
        EntriesAreListed(p.named, Named(m.children), path);
        KidsSplit(m.children, path);
      }
    }
  }

  // ---------- when signatures decide ----------

  lemma {:induction false} NamesOfPart(cs: seq<Child>, c: Child)
    requires c in cs
    ensures Names(c.sub) <= NamesOf(cs) && c.name in NamesOf(cs) && (WellNamedChildren(cs) ==> WellNamed(c.sub))
  {
    if c != cs[0] {
      NamesOfPart(cs[1..], c);
    }
  }

  /** Signatures decide in every tree whose names are unambiguous, so in particular if they hold no colon. */
  lemma {:induction false} UnambiguousIsDecided(m: Module, names: set<string>)
    requires WellNamed(m) && Names(m) <= names && Unambiguous(names)
    ensures Decided(m)
    decreases m, 1
  {
    hide Unambiguous;
    var items := Numbered(m.children);
    PartsComeFrom(m.children);
    forall x, y | x in items && y in items && Signature(x.sub) == Signature(y.sub) ensures x.sub == y.sub {
      var c :| c in m.children && c.sub == x.sub;
      var d :| d in m.children && d.sub == y.sub;
      NamesOfPart(m.children, c);
      NamesOfPart(m.children, d);
      FewerNames(Names(c.sub) + Names(d.sub), names);
      SignatureInjective(c.sub, d.sub);
    }
    ChildrenUnambiguous(m.children, names);
  }

  lemma {:induction false} ChildrenUnambiguous(cs: seq<Child>, names: set<string>)
    requires WellNamedChildren(cs) && NamesOf(cs) <= names && Unambiguous(names)
    ensures DecidedChildren(cs)
    decreases cs, 0
  {
    hide Unambiguous;
    if cs != [] {
      UnambiguousIsDecided(cs[0].sub, names);
      ChildrenUnambiguous(cs[1..], names);
    }
  }

  lemma FewerNames(few: set<string>, names: set<string>)
    requires few <= names && Unambiguous(names)
    ensures Unambiguous(few)
  {
  }

  lemma SingleListed(info: string, name: string, leafInfo: string, path: seq<string>)
    ensures Listed(Single(info, name, leafInfo), path)
            == multiset{Row(path, info), Row(path + [ShownName(name)], leafInfo)}
  {
    hide ShownName;
    var leaf, cs := Module(leafInfo, []), Single(info, name, leafInfo).children;
    assert cs[1..] == [];
    assert Listed(leaf, path + [ShownName(name)]) == multiset{Row(path + [ShownName(name)], leafInfo)};
    assert ListedChildren(cs, path) == multiset{Row(path + [ShownName(name)], leafInfo)};
  }

  /** Layers whose signatures collide are printed as one group, although they have to be shown differently. */
  lemma CollisionIsShownWrongly(info: string, u: string, v: string, leafInfo: string, path: seq<string>)
    ensures var x, y := Single(info, u + ":" + v, leafInfo), Single(info, u, v + ":" + leafInfo);
            Signature(x) == Signature(y) && Listed(x, path) != Listed(y, path)
  {
    hide ShownName, Listed;
    ColonCollides(info, u, v, leafInfo);
    SingleListed(info, u + ":" + v, leafInfo, path);
    SingleListed(info, u, v + ":" + leafInfo, path);
    var r := Row(path + [ShownName(u + ":" + v)], leafInfo);
    assert |r.path| != |path| && |leafInfo| != |v + ":" + leafInfo|;
    assert r in Listed(Single(info, u + ":" + v, leafInfo), path);
  }
}
