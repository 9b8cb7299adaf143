// The tree of a model's modules, its preorder listing, and the signature that decides which layers look alike.
module Splitting {
  import opened IndexRanges

  predicate Free(s: string, c: char) {
    c !in s
  }

  function Split(s: string, c: char): (parts: seq<string>)
    ensures parts != []
  {
    if s == [] then [[]]
    else if s[0] == c then [[]] + Split(s[1..], c)
    else
      var rest := Split(s[1..], c);
      [[s[0]] + rest[0]] + rest[1..]
  }

  lemma {:induction false} SplitWord(w: string, c: char, tail: string)
    requires Free(w, c) && (tail == [] || tail[0] == c)
    ensures Split(w + tail, c) == if tail == [] then [w] else [w] + Split(tail[1..], c)
  {
    if w == [] {
      assert w + tail == tail;
    } else {
      assert (w + tail)[1..] == w[1..] + tail;
      SplitWord(w[1..], c, tail);
      assert w == [w[0]] + w[1..];
    }
  }

  /** Splitting undoes joining if no part holds the separator. */
  lemma {:induction false} SplitOfJoin(parts: seq<string>, c: char)
    requires parts != [] && forall p | p in parts :: Free(p, c)
    ensures Split(Join(parts, [c]), c) == parts
  {
    assert parts[0] in parts;
    if |parts| == 1 {
      SplitWord(parts[0], c, []);
      assert parts[0] + [] == parts[0];
    } else {
      var tail := [c] + Join(parts[1..], [c]);
      assert Join(parts, [c]) == parts[0] + tail;
      SplitWord(parts[0], c, tail);
      assert tail[1..] == Join(parts[1..], [c]);
      SplitOfJoin(parts[1..], c);
    }
  }

  lemma JoinInjective(xs: seq<string>, ys: seq<string>, c: char)
    requires xs != [] && ys != [] && Join(xs, [c]) == Join(ys, [c])
    requires (forall p | p in xs :: Free(p, c)) && forall p | p in ys :: Free(p, c)
    ensures xs == ys
  {
    SplitOfJoin(xs, c);
    SplitOfJoin(ys, c);
  }

  lemma {:induction false} JoinFree(parts: seq<string>, separator: string, c: char)
    requires Free(separator, c) && forall p | p in parts :: Free(p, c)
    ensures Free(Join(parts, separator), c)
  {
    if parts == [] {
    } else {
      assert parts[0] in parts;
      JoinFree(parts[1..], separator, c);
    }
  }
}

module ModuleTree {
  import opened IndexRanges
  import opened Splitting

  /** A module: its info text and its named children, in order. */
  datatype Module = Module(info: string, children: seq<Child>)

  datatype Child = Child(name: string, sub: Module)

  /** One line of the preorder listing. */
  datatype Row = Row(path: seq<string>, info: string)

  function Flatten(m: Module, path: seq<string>): (rows: seq<Row>)
    ensures rows != [] && rows[0] == Row(path, m.info)
    decreases m, 1
  {
    [Row(path, m.info)] + FlattenChildren(m.children, path)
  }

  function FlattenChildren(cs: seq<Child>, path: seq<string>): seq<Row>
    decreases cs, 0
  {
    if cs == [] then []
    else Flatten(cs[0].sub, path + [cs[0].name]) + FlattenChildren(cs[1..], path)
  }

  function Line(row: Row): string {
    Join(row.path, ".") + ":" + row.info
  }

  function Lines(rows: seq<Row>): seq<string> {
    seq(|rows|, i requires 0 <= i < |rows| => Line(rows[i]))
  }

  function Signature(m: Module): string {
    Join(Lines(Flatten(m, [])), "\n")
  }

  /** Names as module containers allow them. */
  predicate GoodName(name: string) {
    name != [] && Free(name, '.')
  }

  /** Names are good, and infos are lines. */
  predicate WellNamed(m: Module)
    decreases m, 1
  {
    Free(m.info, '\n') && WellNamedChildren(m.children)
  }

  predicate WellNamedChildren(cs: seq<Child>)
    decreases cs, 0
  {
    cs == [] || (GoodName(cs[0].name) && WellNamed(cs[0].sub) && WellNamedChildren(cs[1..]))
  }

  /** All the names in a tree. */
  function Names(m: Module): set<string>
    decreases m, 1
  {
    NamesOf(m.children)
  }

  function NamesOf(cs: seq<Child>): set<string>
    decreases cs, 0
  {
    if cs == [] then {} else {cs[0].name} + Names(cs[0].sub) + NamesOf(cs[1..])
  }

  /** No name followed by a colon begins another name; so it is in particular if no name holds a colon. */
  ghost predicate Unambiguous(names: set<string>) {
    forall a, b | a in names && b in names :: !(b + ":" <= a)
  }

  // ---------- the listing determines the tree ----------

  /** Whatever follows a subtree in a listing is not deeper than the subtree's root. */
  ghost predicate NotBelow(rest: seq<Row>, depth: nat) {
    rest == [] || |rest[0].path| <= depth
  }

  /** A listing, followed by rows that are not below it, determines the tree and where the listing ends. */
  lemma {:induction false} FlattenInjective(a: Module, b: Module, path: seq<string>, ra: seq<Row>, rb: seq<Row>)
    requires Flatten(a, path) + ra == Flatten(b, path) + rb
    requires NotBelow(ra, |path|) && NotBelow(rb, |path|)
    ensures a == b && ra == rb
    decreases a, 1
  {
    var fa, fb := FlattenChildren(a.children, path), FlattenChildren(b.children, path);
    assert (Flatten(a, path) + ra)[0] == Row(path, a.info);
    assert (Flatten(b, path) + rb)[0] == Row(path, b.info);
    assert (Flatten(a, path) + ra)[1..] == fa + ra;
    assert (Flatten(b, path) + rb)[1..] == fb + rb;
    ChildrenInjective(a.children, b.children, path, ra, rb);
  }

  lemma {:induction false} ChildrenInjective(xs: seq<Child>, ys: seq<Child>, path: seq<string>,
                                             ra: seq<Row>, rb: seq<Row>)
    requires FlattenChildren(xs, path) + ra == FlattenChildren(ys, path) + rb
    requires NotBelow(ra, |path|) && NotBelow(rb, |path|)
    ensures xs == ys && ra == rb
    decreases xs, 0
  {
    if xs == [] || ys == [] {
      HeadRow(xs, path, ra);
      HeadRow(ys, path, rb);
      assert xs == [] ==> FlattenChildren(xs, path) + ra == ra;
      assert ys == [] ==> FlattenChildren(ys, path) + rb == rb;
    } else {
      var a, b := xs[0], ys[0];
      var ta, tb := FlattenChildren(xs[1..], path) + ra, FlattenChildren(ys[1..], path) + rb;
      assert FlattenChildren(xs, path) + ra == Flatten(a.sub, path + [a.name]) + ta;
      assert FlattenChildren(ys, path) + rb == Flatten(b.sub, path + [b.name]) + tb;
      assert (Flatten(a.sub, path + [a.name]) + ta)[0].path == path + [a.name];
      assert (Flatten(b.sub, path + [b.name]) + tb)[0].path == path + [b.name];
      assert a.name == (path + [a.name])[|path|] == (path + [b.name])[|path|] == b.name;
      HeadRow(xs[1..], path, ra);
      HeadRow(ys[1..], path, rb);
      FlattenInjective(a.sub, b.sub, path + [a.name], ta, tb);
      ChildrenInjective(xs[1..], ys[1..], path, ra, rb);
      assert xs == [a] + xs[1..] && ys == [b] + ys[1..];
    }
  }

  lemma HeadRow(cs: seq<Child>, path: seq<string>, rest: seq<Row>)
    requires NotBelow(rest, |path|)
    ensures NotBelow(FlattenChildren(cs, path) + rest, |path| + 1)
    ensures cs != [] ==> var all := FlattenChildren(cs, path) + rest; all != [] && |all[0].path| == |path| + 1
  {
    if cs != [] {
      var all := Flatten(cs[0].sub, path + [cs[0].name]);
      assert (FlattenChildren(cs, path) + rest)[0] == all[0];
    } else {
      assert FlattenChildren(cs, path) + rest == rest;
    }
  }

  // ---------- the signature determines the listing ----------

  ghost predicate GoodRow(row: Row, names: set<string>) {
    (forall n | n in row.path :: GoodName(n) && n in names) && Free(row.info, '\n')
  }

  ghost predicate GoodRows(rows: seq<Row>, names: set<string>) {
    forall i | 0 <= i < |rows| :: GoodRow(rows[i], names)
  }

  /** Only the first row of a tree's listing has the tree's own path. */
  ghost predicate Deeper(rows: seq<Row>, depth: nat) {
    forall i | 0 <= i < |rows| :: |rows[i].path| > depth
  }

  lemma {:induction false} RowsAreGood(m: Module, path: seq<string>, names: set<string>)
    requires WellNamed(m) && Names(m) <= names && forall n | n in path :: GoodName(n) && n in names
    ensures GoodRows(Flatten(m, path), names) && Deeper(FlattenChildren(m.children, path), |path|)
    decreases m, 1
  {
    ChildRowsAreGood(m.children, path, names);
  }

  lemma {:induction false} ChildRowsAreGood(cs: seq<Child>, path: seq<string>, names: set<string>)
    requires WellNamedChildren(cs) && NamesOf(cs) <= names && forall n | n in path :: GoodName(n) && n in names
    ensures GoodRows(FlattenChildren(cs, path), names) && Deeper(FlattenChildren(cs, path), |path|)
    decreases cs, 0
  {
    hide GoodName;
    if cs != [] {
      RowsAreGood(cs[0].sub, path + [cs[0].name], names);
      ChildRowsAreGood(cs[1..], path, names);
    }
  }

  /** A word without dots and a colon, at the front of text that begins with a name, are at the front of the name. */
  lemma ColonInName(x: string, t: string, y: string)
    requires Free(x, '.') && x + ":" <= t && y <= t && (y == t || t[|y|] == '.')
    ensures x + ":" <= y
  {
    assert '.' !in x + ":";
    assert forall k | 0 <= k <= |x| :: t[k] == (x + ":")[k] != '.';
  }

  /** A word without dots and a dot, at the front of such text, are the name and a dot. */
  lemma DotAfterName(x: string, t: string, y: string)
    requires Free(x, '.') && Free(y, '.') && x + "." <= t && y <= t && (y == t || t[|y|] == '.')
    ensures y == x && y != t
  {
    assert t[|x|] == (x + ".")[|x|] == '.';
    assert forall k | 0 <= k < |x| :: t[k] == (x + ".")[k] == x[k] != '.';
    assert forall k | 0 <= k < |y| :: t[k] == y[k] != '.';
    assert |x| == |y|;
  }

  /** If a path up to a colon begins another path, then a name up to a colon begins another name. */
  lemma {:induction false} ColonInPath(p: seq<string>, q: seq<string>) returns (a: string, b: string)
    requires p != [] && q != [] && (forall n | n in p :: Free(n, '.')) && forall n | n in q :: Free(n, '.')
    requires Join(p, ".") + ":" <= Join(q, ".")
    ensures a in q && b in p && b + ":" <= a
  {
    var s, t := Join(p, "."), Join(q, ".");
    assert p[0] in p && q[0] in q;
    assert q[0] <= t && (q[0] == t || t[|q[0]|] == '.');
    if |p| == 1 {
      ColonInName(p[0], t, q[0]);
      return q[0], p[0];
    }
    assert p[0] + "." <= s + ":";
    DotAfterName(p[0], t, q[0]);
    var s', t' := Join(p[1..], "."), Join(q[1..], ".");
    assert s == p[0] + "." + s' && t == q[0] + "." + t';
    assert s' + ":" == (s + ":")[|p[0]| + 1..] && t' == t[|p[0]| + 1..];
    a, b := ColonInPath(p[1..], q[1..]);
  }

  // ---------- one row at a time ----------

  function RowsText(rows: seq<Row>): string {
    Join(Lines(rows), "\n")
  }

  /** What follows the first row of a text: nothing, or a line break and the other rows. */
  function Tail(rows: seq<Row>): string
    requires rows != []
  {
    if |rows| == 1 then [] else "\n" + RowsText(rows[1..])
  }

  lemma RowsTextIs(rows: seq<Row>)
    requires rows != []
    ensures RowsText(rows) == Join(rows[0].path, ".") + ":" + (rows[0].info + Tail(rows))
  {
    var p := Join(rows[0].path, ".");
    assert Lines(rows)[0] == p + ":" + rows[0].info;
    assert Lines(rows)[1..] == Lines(rows[1..]);
    assert p + ":" + rows[0].info + Tail(rows) == p + ":" + (rows[0].info + Tail(rows));
    if |rows| == 1 {
      assert p + ":" + rows[0].info + [] == p + ":" + rows[0].info;
    } else {
      assert p + ":" + rows[0].info + "\n" + RowsText(rows[1..]) == p + ":" + rows[0].info + Tail(rows);
    }
  }

  /** Text up to the first line break is determined. */
  lemma LineEnds(i: string, u: string, j: string, v: string)
    requires Free(i, '\n') && Free(j, '\n') && i + u == j + v
    requires (u == [] || u[0] == '\n') && (v == [] || v[0] == '\n')
    ensures i == j && u == v
  {
    var t := i + u;
    assert |i| == |j| by {
      assert forall k | 0 <= k < |i| :: t[k] == i[k] != '\n';
      assert forall k | 0 <= k < |j| :: t[k] == j[k] != '\n';
      assert |i| < |t| ==> t[|i|] == u[0];
      assert |j| < |t| ==> t[|j|] == v[0];
    }
    assert i == t[..|i|] == j && u == t[|i|..] == v;
  }

  lemma PathsUnambiguous(p: seq<string>, q: seq<string>, names: set<string>)
    requires Unambiguous(names) && p != [] && q != []
    requires (forall n | n in p :: GoodName(n) && n in names) && forall n | n in q :: GoodName(n) && n in names
    ensures !(Join(p, ".") + ":" <= Join(q, "."))
  {
    hide Join;
    if Join(p, ".") + ":" <= Join(q, ".") {
      var a, b := ColonInPath(p, q);
    }
  }

  /** The text of a path ends at the first colon that can end it. */
  lemma PathEnds(s: string, u: string, t: string, v: string)
    requires s + ":" + u == t + ":" + v && !(s + ":" <= t) && !(t + ":" <= s)
    ensures s == t && u == v
  {
    var all := s + ":" + u;
    assert all[..|s|] == s && all[..|t|] == t && all[|s|] == ':' && all[|t|] == ':';
    assert s + ":" <= all && t + ":" <= all;
    assert |s| < |t| ==> s + ":" <= t;
    assert |t| < |s| ==> t + ":" <= s;
    assert |s| == |t|;
    assert u == all[|s| + 1..] == v;
  }

  /** The text of rows determines its first row, and the text of the others. */
  lemma FirstRowIs(xs: seq<Row>, ys: seq<Row>, names: set<string>)
    requires xs != [] && ys != [] && RowsText(xs) == RowsText(ys) && Unambiguous(names)
    requires GoodRow(xs[0], names) && GoodRow(ys[0], names) && (xs[0].path == [] <==> ys[0].path == [])
    ensures xs[0] == ys[0] && Tail(xs) == Tail(ys)
  {
    RowsTextIs(xs);
    RowsTextIs(ys);
    var p, q := xs[0].path, ys[0].path;
    var u, v := xs[0].info + Tail(xs), ys[0].info + Tail(ys);
    if p != [] {
      PathsUnambiguous(p, q, names);
      PathsUnambiguous(q, p, names);
    }
    PathEnds(Join(p, "."), u, Join(q, "."), v);
    LineEnds(xs[0].info, Tail(xs), ys[0].info, Tail(ys));
    if p != [] {
      JoinInjective(p, q, '.');
    }
  }

  /** The text of rows determines the rows. */
  lemma {:induction false} RowsTextInjective(xs: seq<Row>, ys: seq<Row>, names: set<string>)
    requires xs != [] && ys != [] && RowsText(xs) == RowsText(ys) && Unambiguous(names)
    requires GoodRows(xs, names) && GoodRows(ys, names) && Deeper(xs[1..], 0) && Deeper(ys[1..], 0)
    requires xs[0].path == [] <==> ys[0].path == []
    ensures xs == ys
  {
    hide RowsText, GoodRow, Unambiguous;
    FirstRowIs(xs, ys, names);
    if |xs| > 1 && |ys| > 1 {
      assert RowsText(xs[1..]) == Tail(xs)[1..] && RowsText(ys[1..]) == Tail(ys)[1..];
      assert |xs[1..][0].path| > 0 && |ys[1..][0].path| > 0;
      RowsTextInjective(xs[1..], ys[1..], names);
    }
    assert xs == [xs[0]] + xs[1..] && ys == [ys[0]] + ys[1..];
  }

  /** Equal signatures mean equal trees, if no name followed by a colon begins another name. */
  lemma SignatureInjective(a: Module, b: Module)
    requires WellNamed(a) && WellNamed(b) && Unambiguous(Names(a) + Names(b)) && Signature(a) == Signature(b)
    ensures a == b
  {
    var xs, ys, names := Flatten(a, []), Flatten(b, []), Names(a) + Names(b);
    RowsAreGood(a, [], names);
    RowsAreGood(b, [], names);
    assert xs[1..] == FlattenChildren(a.children, []) && ys[1..] == FlattenChildren(b.children, []);
    hide Unambiguous, Names, WellNamed, GoodRows, Deeper;
    RowsTextInjective(xs, ys, names);
    assert xs + [] == ys + [];
    FlattenInjective(a, b, [], [], []);
  }

  // ---------- when signatures collide ----------

  /** A tree with one leaf. */
  function Single(info: string, name: string, leafInfo: string): Module {
    Module(info, [Child(name, Module(leafInfo, []))])
  }

  lemma SingleFlatten(info: string, name: string, leafInfo: string)
    ensures Flatten(Single(info, name, leafInfo), []) == [Row([], info), Row([name], leafInfo)]
    ensures Names(Single(info, name, leafInfo)) == {name}
  {
    var leaf, cs := Module(leafInfo, []), Single(info, name, leafInfo).children;
    assert [] + [name] == [name] && cs[1..] == [];
    assert Flatten(leaf, [name]) == [Row([name], leafInfo)];
    assert FlattenChildren(cs, []) == [Row([name], leafInfo)];
    assert NamesOf([]) == {} && Names(leaf) == {} && NamesOf(cs) == {name} + {} + {};
  }

  /** The colon of a name cannot be told from the colon behind a name. */
  lemma ColonCollides(info: string, u: string, v: string, leafInfo: string)
    ensures Signature(Single(info, u + ":" + v, leafInfo)) == Signature(Single(info, u, v + ":" + leafInfo))
    ensures Single(info, u + ":" + v, leafInfo) != Single(info, u, v + ":" + leafInfo)
  {
    var x, y := Row([u + ":" + v], leafInfo), Row([u], v + ":" + leafInfo);
    SingleFlatten(info, u + ":" + v, leafInfo);
    SingleFlatten(info, u, v + ":" + leafInfo);
    assert Line(x) == u + ":" + v + ":" + leafInfo == u + ":" + (v + ":" + leafInfo) == Line(y);
    assert Lines([Row([], info), x]) == Lines([Row([], info), y]);
    assert |u + ":" + v| > |u|;
  }

  /** Trees with these names never have the same signature unless they are equal. */
  ghost predicate Distinguished(names: set<string>) {
    forall a, b | WellNamed(a) && WellNamed(b) && Names(a) <= names && Names(b) <= names :: Signature(a) == Signature(b) ==> a == b
  }

  /** No line break follows a colon. */
  predicate NoBreakAfterColon(name: string) {
    forall i, j | 0 <= i < j < |name| :: name[i] == ':' ==> name[j] != '\n'
  }

  /**
   Signatures tell trees apart if no name followed by a colon begins another name; for names in which no line break
   follows a colon this is necessary as well.
   */
  lemma SignatureExact(names: set<string>)
    requires forall n | n in names :: GoodName(n)
    ensures Unambiguous(names) ==> Distinguished(names)
    ensures (forall n | n in names :: NoBreakAfterColon(n)) ==> (Distinguished(names) <==> Unambiguous(names))
  {
    if Unambiguous(names) {
      forall a, b | WellNamed(a) && WellNamed(b) && Names(a) <= names && Names(b) <= names && Signature(a) == Signature(b)
        ensures a == b
      {
        SignatureInjective(a, b);
      }
    }
    hide NoBreakAfterColon, GoodName;
    if n, u :| n in names && u in names && u + ":" <= n && NoBreakAfterColon(n) {
      NotDistinguished(names, n, u);
    }
  }

  lemma NotDistinguished(names: set<string>, n: string, u: string)
    requires n in names && u in names && GoodName(n) && GoodName(u) && u + ":" <= n && NoBreakAfterColon(n)
    ensures !Distinguished(names)
  {
    var v := n[|u| + 1..];
    assert n == u + ":" + v;
    assert n[|u|] == ':' && forall k | 0 <= k < |v| :: v[k] == n[|u| + 1 + k] != '\n';
    var a, b := Single("M", n, "X"), Single("M", u, v + ":X");
    ColonCollides("M", u, v, "X");
    assert v + ":" + "X" == v + ":X";
    SingleFlatten("M", n, "X");
    SingleFlatten("M", u, v + ":X");
    assert Free(v + ":X", '\n');
    assert a.children[1..] == [] && b.children[1..] == [] && WellNamedChildren([]);
    assert WellNamed(a.children[0].sub) && WellNamed(b.children[0].sub);
    assert WellNamed(a) && WellNamed(b);
  }

  /** In particular signatures tell apart trees whose names hold no colon. */
  lemma ColonFree(names: set<string>)
    requires forall n | n in names :: Free(n, ':')
    ensures Unambiguous(names)
  {
    forall a, b | a in names && b in names ensures !(b + ":" <= a) {
      assert |b| < |a| ==> a[|b|] != ':';
    }
  }
}
