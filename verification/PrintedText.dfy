// The text of a printed module tree: its lines, and why a reader can tell the tree from them.
module PrintedText {
  import opened Sequences
  import opened Wrappers
  import opened Numerals
  import opened IndexRanges
  import opened Splitting
  import opened ModuleTree
  import opened PrintedTree
  import opened PyIntegers

  // ---------- layout ----------

  function Indent(n: nat): string {
    if n == 0 then [] else "  " + Indent(n - 1)
  }

  predicate IsSpace(c: char) {
    c == ' ' || '\t' <= c <= '\r'
  }

  function LStrip(s: string): string {
    if s != [] && IsSpace(s[0]) then LStrip(s[1..]) else s
  }

  lemma {:induction false} LStripIndent(n: nat, s: string)
    requires s != [] && !IsSpace(s[0])
    ensures LStrip(Indent(n) + s) == s
  {
    if n == 0 {
      assert Indent(0) + s == s;
    } else {
      var t := Indent(n) + s;
      assert t[1..][1..] == Indent(n - 1) + s;
      LStripIndent(n - 1, s);
    }
  }

  /** The lines of a printed tree; the tag is what stands before the info of its root. */
  function Render(p: Printed, tag: string, indent: nat): (lines: seq<string>)
    ensures lines != []
    decreases p, 0
  {
    if p.groups == [] && p.named == [] then [Indent(indent) + tag + p.info]
    else [Indent(indent) + tag + (p.info + "(")] + RenderGroups(p.groups, indent + 1)
         + RenderEntries(p.named, indent + 1) + [Indent(indent) + ")"]
  }

  function RenderGroups(gs: seq<Group>, indent: nat): seq<string>
    decreases gs, 1
  {
    if gs == [] then [] else Render(gs[0].body, GroupTag(gs[0]), indent) + RenderGroups(gs[1..], indent)
  }

  function RenderEntries(es: seq<Entry>, indent: nat): seq<string>
    decreases es, 1
  {
    if es == [] then [] else Render(es[0].body, NameTag(es[0].name), indent) + RenderEntries(es[1..], indent)
  }

  lemma {:induction false} RenderGroupsSnoc(gs: seq<Group>, g: Group, indent: nat)
    ensures RenderGroups(gs + [g], indent) == RenderGroups(gs, indent) + Render(g.body, GroupTag(g), indent)
  {
    hide Render, GroupTag;
    if gs == [] {
      assert gs + [g] == [g] && [g][1..] == [];
    } else {
      assert (gs + [g])[1..] == gs[1..] + [g];
      RenderGroupsSnoc(gs[1..], g, indent);
    }
  }

  lemma {:induction false} RenderEntriesSnoc(es: seq<Entry>, e: Entry, indent: nat)
    ensures RenderEntries(es + [e], indent) == RenderEntries(es, indent) + Render(e.body, NameTag(e.name), indent)
  {
    hide Render, NameTag;
    if es == [] {
      assert es + [e] == [e] && [e][1..] == [];
    } else {
      assert (es + [e])[1..] == es[1..] + [e];
      RenderEntriesSnoc(es[1..], e, indent);
    }
  }

  function GroupTag(g: Group): string {
    "(" + g.heading + "): " + CountText(g.count)
  }

  function CountText(count: Option<nat>): string {
    match count case None => "" case Some(n) => Text(n) + " x "
  }

  function NameTag(name: string): string {
    if name == [] then [] else "(" + name + "): "
  }

  /** What the first line of a rendering holds besides indent and tag. */
  function Head(p: Printed): string {
    if p.groups == [] && p.named == [] then p.info else p.info + "("
  }

  lemma RenderHead(p: Printed, tag: string, indent: nat)
    ensures Render(p, tag, indent) == [Indent(indent) + tag + Head(p)] + Render(p, [], indent)[1..]
    ensures Render(p, [], indent)[0] == Indent(indent) + Head(p)
  {
    assert Indent(indent) + [] == Indent(indent);
    hide Indent, RenderGroups, RenderEntries;
  }

  /** The first line of a rendering can be given its tag later on. */
  lemma Relabel(p: Printed, tag: string, indent: nat, lines: seq<string>)
    requires lines == Render(p, [], indent) && p.info != [] && !IsSpace(p.info[0])
    ensures lines[0 := Indent(indent) + tag + LStrip(lines[0])] == Render(p, tag, indent)
  {
    RenderHead(p, tag, indent);
    LStripIndent(indent, Head(p));
    hide LStrip, Indent, Render, Head;
  }

  // ---------- what can be read ----------

  /** An info is one line that begins with a class name. */
  predicate GoodInfo(info: string) {
    info != [] && !IsSpace(info[0]) && !IsDigit(info[0]) && info[0] != '-' && Free(info, '\n')
  }

  /** A word between parentheses. */
  predicate GoodWord(word: string) {
    word != [] && Free(word, ')') && Free(word, '\n')
  }

  /** Groups are told from entries by their count or, without one, by their index. */
  predicate WellPrinted(p: Printed)
    decreases p, 1
  {
    GoodInfo(p.info) && WellPrintedGroups(p.groups) && WellPrintedEntries(p.named)
  }

  predicate WellPrintedGroups(gs: seq<Group>)
    decreases gs, 0
  {
    gs == [] ||
    (GoodWord(gs[0].heading) && (gs[0].count.Some? || PyInt(gs[0].heading).Some?)
     && WellPrinted(gs[0].body) && WellPrintedGroups(gs[1..]))
  }

  predicate WellPrintedEntries(es: seq<Entry>)
    decreases es, 0
  {
    es == [] ||
    (GoodWord(es[0].name) && PyInt(es[0].name).None? && WellPrinted(es[0].body) && WellPrintedEntries(es[1..]))
  }

  /** Modules whose names and infos are of the kinds that can be read. */
  predicate Readable(m: Module)
    decreases m, 1
  {
    GoodInfo(m.info) && ReadableChildren(m.children)
  }

  predicate ReadableChildren(cs: seq<Child>)
    decreases cs, 0
  {
    cs == [] || ((PyInt(cs[0].name).None? ==> GoodWord(cs[0].name)) && Readable(cs[0].sub) && ReadableChildren(cs[1..]))
  }

  /** A group's line can be read if its bucket's first layer can. */
  ghost predicate Reads(g: Group, bucket: seq<Item>) {
    && bucket != [] && GoodWord(g.heading) && (g.count.Some? || PyInt(g.heading).Some?)
    && (Readable(bucket[0].sub) ==> WellPrinted(g.body))
  }

  ghost predicate GroupsRead(gs: seq<Group>, buckets: seq<seq<Item>>) {
    |gs| == |buckets| && forall i | 0 <= i < |gs| :: Reads(gs[i], buckets[i])
  }

  ghost predicate EntriesRead(es: seq<Entry>, cs: seq<Child>) {
    |es| == |cs| && forall i | 0 <= i < |es| ::
      es[i].name == cs[i].name && (Readable(cs[i].sub) ==> WellPrinted(es[i].body))
  }

  lemma {:induction false} GroupsAreWellPrinted(gs: seq<Group>, buckets: seq<seq<Item>>)
    requires GroupsRead(gs, buckets) && forall b: seq<Item> | b in buckets && b != [] :: Readable(b[0].sub)
    ensures WellPrintedGroups(gs)
  {
    hide GoodWord, PyInt, Readable, WellPrinted;
    if gs != [] {
      assert buckets[0] in buckets && forall b | b in buckets[1..] :: b in buckets;
      GroupsAreWellPrinted(gs[1..], buckets[1..]);
    }
  }

  lemma {:induction false} EntriesAreWellPrinted(es: seq<Entry>, cs: seq<Child>)
    requires EntriesRead(es, cs) && forall c | c in cs :: GoodWord(c.name) && PyInt(c.name).None? && Readable(c.sub)
    ensures WellPrintedEntries(es)
  {
    hide GoodWord, PyInt, Readable, WellPrinted;
    if es != [] {
      assert cs[0] in cs;
      EntriesAreWellPrinted(es[1..], cs[1..]);
    }
  }

  lemma {:induction false} PartsReadable(cs: seq<Child>)
    requires ReadableChildren(cs)
    ensures forall it | it in Numbered(cs) :: Readable(it.sub)
    ensures forall c | c in Named(cs) :: GoodWord(c.name) && PyInt(c.name).None? && Readable(c.sub)
  {
    hide GoodWord, PyInt, Readable;
    if cs != [] {
      PartsReadable(cs[1..]);
    }
  }

  /** The printed tree of a readable module is well printed. */
  lemma WellPrintedFromParts(p: Printed, m: Module, buckets: seq<seq<Item>>)
    requires p.info == m.info && GroupsRead(p.groups, buckets) && EntriesRead(p.named, Named(m.children))
    requires multiset(Concat(buckets)) == multiset(Numbered(m.children))
    ensures Readable(m) ==> WellPrinted(p)
  {
    if Readable(m) {
      PartsReadable(m.children);
      hide Readable, Numbered, Named, GroupsRead, EntriesRead, GoodWord, Concat;
      forall b: seq<Item> | b in buckets && b != [] ensures Readable(b[0].sub) {
        InConcat(buckets, b, b[0]);
        assert b[0] in multiset(Concat(buckets));
      }
      GroupsAreWellPrinted(p.groups, buckets);
      EntriesAreWellPrinted(p.named, Named(m.children));
    }
  }

  // ---------- headings ----------

  lemma TextIsFree(i: int, c: char)
    requires !IsDigit(c) && c != '-'
    ensures Free(Text(i), c)
  {
    DigitsAreFree(if i < 0 then -i else i, c);
  }

  lemma RangesAreFree(rs: seq<Range>, c: char)
    requires !IsDigit(c) && c != '-' && c != ',' && c != ' '
    ensures Free(Join(Texts(rs), ", "), c)
  {
    forall i | 0 <= i < |rs| ensures Free(Texts(rs)[i], c) {
      TextIsFree(rs[i].first, c);
      TextIsFree(rs[i].last, c);
    }
    JoinFree(Texts(rs), ", ", c);
  }

  lemma RangesAreWord(rs: seq<Range>)
    requires rs != []
    ensures GoodWord(Join(Texts(rs), ", "))
  {
    RangesAreFree(rs, ')');
    RangesAreFree(rs, '\n');
    ReadRangesOfText(rs);
  }

  lemma TextIsWord(i: int)
    ensures GoodWord(Text(i)) && PyInt(Text(i)).Some?
  {
    TextIsFree(i, ')');
    TextIsFree(i, '\n');
    PyIntOfText(i);
  }

  // ---------- depths ----------

  function Spaces(line: string): nat {
    if line != [] && line[0] == ' ' then 1 + Spaces(line[1..]) else 0
  }

  lemma {:induction false} SpacesOf(d: nat, x: string)
    requires x != [] && x[0] != ' '
    ensures Spaces(Indent(d) + x) == 2 * d
  {
    if d == 0 {
      assert Indent(0) + x == x;
    } else {
      var t := Indent(d) + x;
      assert t[0] == ' ' && t[1..][0] == ' ' && t[1..][1..] == Indent(d - 1) + x;
      SpacesOf(d - 1, x);
    }
  }

  /** The lines begin with one that has fewer than n spaces, if there are any. */
  predicate Shallow(lines: seq<string>, n: nat) {
    lines == [] || Spaces(lines[0]) < n
  }

  // ---------- one line ----------

  /** What stands before a colon and what follows are determined by the text. */
  lemma WordEnds(w: string, u: string, v: string, t: string)
    requires Free(w, ')') && Free(v, ')') && "(" + w + "): " + u == "(" + v + "): " + t
    ensures w == v && u == t
  {
    var s := "(" + w + "): " + u;
    assert s[|w| + 1] == ')' && s[|v| + 1] == ')';
    assert forall k | 0 <= k < |w| :: s[k + 1] == w[k] != ')';
    assert forall k | 0 <= k < |v| :: s[k + 1] == v[k] != ')';
    assert |w| == |v|;
    assert w == s[1..|w| + 1] == v;
    assert u == s[|w| + 4..] == t;
  }

  lemma CountEnds(c: Option<nat>, info: string, d: Option<nat>, jnfo: string)
    requires GoodInfo(info) && GoodInfo(jnfo) && CountText(c) + info == CountText(d) + jnfo
    ensures c == d && info == jnfo
  {
    hide Free;
    CountStarts(c, info);
    CountStarts(d, jnfo);
    if c.Some? && d.Some? {
      NumberEnds(c.value, info);
      NumberEnds(d.value, jnfo);
      hide CountText;
    } else {
      assert [] + info == info && [] + jnfo == jnfo;
    }
  }

  /** The count reads back, and the rest of the text is the info. */
  lemma NumberEnds(n: nat, info: string)
    ensures ReadInt(CountText(Some(n)) + info) == Some((n, " x " + info))
    ensures (" x " + info)[3..] == info
  {
    hide Text, ReadInt;
    assert CountText(Some(n)) + info == Text(n) + (" x " + info);
    ReadIntOfText(n, " x " + info);
  }

  lemma CountStarts(c: Option<nat>, info: string)
    requires GoodInfo(info)
    ensures var s := CountText(c) + info; s != [] && (IsDigit(s[0]) <==> c.Some?)
  {
    if c.Some? {
      var n: nat := c.value;
      assert Text(n) == Digits(n);
      assert (CountText(c) + info)[0] == Digits(n)[0];
    } else {
      assert CountText(c) + info == info;
    }
  }

  /** The tag of a child and the info behind it are determined by the text. */
  lemma TagEnds(w: string, c: Option<nat>, info: string, v: string, d: Option<nat>, jnfo: string)
    requires GoodWord(w) && GoodWord(v) && GoodInfo(info) && GoodInfo(jnfo)
    requires "(" + w + "): " + CountText(c) + info == "(" + v + "): " + CountText(d) + jnfo
    ensures w == v && c == d && info == jnfo
  {
    hide CountText, GoodInfo;
    assert "(" + w + "): " + CountText(c) + info == "(" + w + "): " + (CountText(c) + info);
    assert "(" + v + "): " + CountText(d) + jnfo == "(" + v + "): " + (CountText(d) + jnfo);
    WordEnds(w, CountText(c) + info, v, CountText(d) + jnfo);
    CountEnds(c, info, d, jnfo);
  }

  // ---------- the lines of a tree determine it ----------

  datatype Kid = Kid(word: string, count: Option<nat>, body: Printed)

  function TagOf(k: Kid): string {
    "(" + k.word + "): " + CountText(k.count)
  }

  predicate HasKids(gs: seq<Group>, es: seq<Entry>) {
    gs != [] || es != []
  }

  /** Groups come before entries. */
  function FirstKid(gs: seq<Group>, es: seq<Entry>): Kid
    requires HasKids(gs, es)
  {
    if gs != [] then Kid(gs[0].heading, gs[0].count, gs[0].body) else Kid(es[0].name, None, es[0].body)
  }

  function OtherGroups(gs: seq<Group>): seq<Group> {
    if gs != [] then gs[1..] else []
  }

  function OtherEntries(gs: seq<Group>, es: seq<Entry>): seq<Entry>
    requires HasKids(gs, es)
  {
    if gs != [] then es else es[1..]
  }

  /** Whether the first kid is a group can be seen from its tag, so the kids are determined by it and the others. */
  lemma KidsSame(gs: seq<Group>, es: seq<Entry>, hs: seq<Group>, fs: seq<Entry>)
    requires HasKids(gs, es) && HasKids(hs, fs) && WellPrintedKids(gs, es) && WellPrintedKids(hs, fs)
    requires FirstKid(gs, es) == FirstKid(hs, fs) && OtherGroups(gs) == OtherGroups(hs)
    requires OtherEntries(gs, es) == OtherEntries(hs, fs)
    ensures gs == hs && es == fs
  {
    hide PyInt, WellPrinted, GoodWord;
    assert gs != [] <==> hs != [];
    assert gs != [] ==> gs == [gs[0]] + gs[1..] && hs == [hs[0]] + hs[1..];
    assert gs == [] ==> es == [es[0]] + es[1..] && fs == [fs[0]] + fs[1..];
  }

  function RenderKids(gs: seq<Group>, es: seq<Entry>, indent: nat): seq<string> {
    RenderGroups(gs, indent) + RenderEntries(es, indent)
  }

  predicate WellPrintedKids(gs: seq<Group>, es: seq<Entry>) {
    WellPrintedGroups(gs) && WellPrintedEntries(es)
  }

  lemma KidsUnfold(gs: seq<Group>, es: seq<Entry>, indent: nat)
    requires HasKids(gs, es) && WellPrintedKids(gs, es)
    ensures RenderKids(gs, es, indent)
            == Render(FirstKid(gs, es).body, TagOf(FirstKid(gs, es)), indent)
               + RenderKids(OtherGroups(gs), OtherEntries(gs, es), indent)
  {
    hide Render, CountText, GoodWord, WellPrinted, PyInt;
    if gs == [] {
      NameIsWord(es[0].name);
      var first, rest := Render(es[0].body, NameTag(es[0].name), indent), RenderEntries(es[1..], indent);
      assert RenderGroups([], indent) == [] && [] + (first + rest) == first + ([] + rest);
    } else {
      var first, rest := Render(gs[0].body, GroupTag(gs[0]), indent), RenderGroups(gs[1..], indent);
      assert first + rest + RenderEntries(es, indent) == first + (rest + RenderEntries(es, indent));
    }
  }

  lemma FirstKidIsGood(gs: seq<Group>, es: seq<Entry>)
    requires HasKids(gs, es) && WellPrintedKids(gs, es)
    ensures GoodWord(FirstKid(gs, es).word) && WellPrinted(FirstKid(gs, es).body)
    ensures WellPrintedKids(OtherGroups(gs), OtherEntries(gs, es))
  {
    hide GoodWord, PyInt;
  }

  lemma NameIsWord(name: string)
    requires GoodWord(name)
    ensures NameTag(name) == "(" + name + "): " + CountText(None)
  {
    assert "(" + name + "): " + [] == "(" + name + "): ";
  }

  lemma FirstLine(p: Printed, tag: string, indent: nat)
    requires WellPrinted(p) && (tag == [] || tag[0] == '(')
    ensures Render(p, tag, indent)[0] == Indent(indent) + (tag + Head(p))
    ensures Spaces(Render(p, tag, indent)[0]) == 2 * indent
  {
    RenderHead(p, tag, indent);
    HeadStarts(p);
    hide Render, Indent, Spaces, Head, WellPrinted;
    assert Indent(indent) + tag + Head(p) == Indent(indent) + (tag + Head(p));
    assert (tag + Head(p))[0] == if tag == [] then Head(p)[0] else tag[0];
    SpacesOf(indent, tag + Head(p));
  }

  lemma HeadStarts(p: Printed)
    requires WellPrinted(p)
    ensures Head(p) != [] && Head(p)[0] != ' '
  {
    assert Head(p)[0] == p.info[0];
  }

  lemma FirstKidLine(gs: seq<Group>, es: seq<Entry>, indent: nat)
    requires HasKids(gs, es) && WellPrintedKids(gs, es)
    ensures RenderKids(gs, es, indent) != [] && Spaces(RenderKids(gs, es, indent)[0]) == 2 * indent
  {
    hide Render, RenderKids, Spaces, WellPrintedKids, FirstKid, OtherGroups, OtherEntries, CountText;
    var k := FirstKid(gs, es);
    KidsUnfold(gs, es, indent);
    FirstKidIsGood(gs, es);
    FirstLine(k.body, TagOf(k), indent);
  }

  /** After the lines of the kids before them, the other kids and what follows do not lie deeper. */
  lemma KidsThenShallow(gs: seq<Group>, es: seq<Entry>, indent: nat, rest: seq<string>)
    requires WellPrintedKids(gs, es) && Shallow(rest, 2 * indent)
    ensures Shallow(RenderKids(gs, es, indent) + rest, 2 * indent + 1)
    ensures HasKids(gs, es) <==> !Shallow(RenderKids(gs, es, indent) + rest, 2 * indent)
  {
    if HasKids(gs, es) {
      FirstKidLine(gs, es, indent);
    } else {
      NoKids(indent, rest);
    }
    hide RenderKids, Spaces;
  }

  lemma NoKids(indent: nat, rest: seq<string>)
    ensures RenderKids([], [], indent) + rest == rest
  {
    assert [] + rest == rest;
  }

  /** The lines of a tree, followed by lines that do not lie deeper than its first, determine the tree. */
  lemma {:induction false} RenderInjective(p: Printed, tag: string, q: Printed, tag': string, indent: nat,
                                           ra: seq<string>, rb: seq<string>)
    requires WellPrinted(p) && WellPrinted(q) && (tag == [] || tag[0] == '(') && (tag' == [] || tag'[0] == '(')
    requires tag + p.info == tag' + q.info ==> tag == tag' && p.info == q.info
    requires Render(p, tag, indent) + ra == Render(q, tag', indent) + rb
    requires Shallow(ra, 2 * indent + 1) && Shallow(rb, 2 * indent + 1)
    ensures tag == tag' && p == q && ra == rb
    decreases p, |p.groups| + |p.named| + 1
  {
    SameHead(p, tag, q, tag', indent, ra, rb);
    var xs, ys := RenderTail(p, indent), RenderTail(q, indent);
    TailIs(p, tag, indent, ra);
    TailIs(q, tag', indent, rb);
    assert xs + ra == ys + rb;
    if HasKids(p.groups, p.named) {
      var ca, cb := [Indent(indent) + ")"] + ra, [Indent(indent) + ")"] + rb;
      CloseIsShallow(indent, ra);
      CloseIsShallow(indent, rb);
      KidsInjective(p, p.groups, p.named, q.groups, q.named, indent + 1, ca, cb);
      assert ca[1..] == ra && cb[1..] == rb;
    }
  }

  /** The lines after the first one. */
  function RenderTail(p: Printed, indent: nat): seq<string> {
    if HasKids(p.groups, p.named) then RenderKids(p.groups, p.named, indent + 1) + [Indent(indent) + ")"] else []
  }

  lemma TailIs(p: Printed, tag: string, indent: nat, rest: seq<string>)
    ensures (Render(p, tag, indent) + rest)[1..] == RenderTail(p, indent) + rest
    ensures HasKids(p.groups, p.named) ==>
              RenderTail(p, indent) + rest
              == RenderKids(p.groups, p.named, indent + 1) + ([Indent(indent) + ")"] + rest)
  {
    hide Indent, RenderGroups, RenderEntries;
    var t := Render(p, tag, indent);
    assert (t + rest)[1..] == t[1..] + rest;
  }

  lemma CloseIsShallow(indent: nat, rest: seq<string>)
    ensures Shallow([Indent(indent) + ")"] + rest, 2 * (indent + 1))
  {
    SpacesOf(indent, ")");
  }

  /** Equal first lines mean equal tags and infos, and lines below both or neither. */
  lemma SameHead(p: Printed, tag: string, q: Printed, tag': string, indent: nat, ra: seq<string>, rb: seq<string>)
    requires WellPrinted(p) && WellPrinted(q) && (tag == [] || tag[0] == '(') && (tag' == [] || tag'[0] == '(')
    requires tag + p.info == tag' + q.info ==> tag == tag' && p.info == q.info
    requires Render(p, tag, indent) + ra == Render(q, tag', indent) + rb
    requires Shallow(ra, 2 * indent + 1) && Shallow(rb, 2 * indent + 1)
    ensures tag == tag' && p.info == q.info && (HasKids(p.groups, p.named) <==> HasKids(q.groups, q.named))
  {
    FirstLine(p, tag, indent);
    FirstLine(q, tag', indent);
    LinesBelow(p, tag, indent, ra);
    LinesBelow(q, tag', indent, rb);
    hide Render, Shallow, Spaces, Indent, WellPrinted, HasKids;
    var x, y := Render(p, tag, indent) + ra, Render(q, tag', indent) + rb;
    assert x[0] == Render(p, tag, indent)[0] && y[0] == Render(q, tag', indent)[0];
    Cancel(Indent(indent), tag + Head(p), tag' + Head(q));
    HeadIs(p, tag);
    HeadIs(q, tag');
    if HasKids(p.groups, p.named) {
      assert tag + p.info == (tag + p.info + "(")[..|tag + p.info|];
      assert |tag + p.info| == |tag' + q.info|;
      assert tag' + q.info == (tag' + q.info + "(")[..|tag' + q.info|];
    }
  }

  lemma Cancel(x: string, u: string, v: string)
    requires x + u == x + v
    ensures u == v
  {
    assert u == (x + u)[|x|..] == (x + v)[|x|..] == v;
  }

  lemma HeadIs(p: Printed, tag: string)
    ensures tag + Head(p) == if HasKids(p.groups, p.named) then tag + p.info + "(" else tag + p.info
  {
    assert tag + (p.info + "(") == tag + p.info + "(";
  }

  lemma LinesBelow(p: Printed, tag: string, indent: nat, rest: seq<string>)
    requires WellPrinted(p) && Shallow(rest, 2 * indent + 1)
    ensures HasKids(p.groups, p.named) <==> !Shallow((Render(p, tag, indent) + rest)[1..], 2 * indent + 1)
  {
    TailIs(p, tag, indent, rest);
    if HasKids(p.groups, p.named) {
      CloseIsShallow(indent, rest);
      KidsThenShallow(p.groups, p.named, indent + 1, [Indent(indent) + ")"] + rest);
      FirstKidLine(p.groups, p.named, indent + 1);
      assert (RenderTail(p, indent) + rest)[0] == RenderKids(p.groups, p.named, indent + 1)[0];
    } else {
      assert [] + rest == rest;
    }
    hide Render, RenderKids, Spaces;
  }

  /** The first kid, and what follows its lines. */
  lemma KidsFollowed(gs: seq<Group>, es: seq<Entry>, indent: nat, rest: seq<string>)
    requires HasKids(gs, es) && WellPrintedKids(gs, es) && Shallow(rest, 2 * indent)
    ensures var k, others := FirstKid(gs, es), RenderKids(OtherGroups(gs), OtherEntries(gs, es), indent) + rest;
            && RenderKids(gs, es, indent) + rest == Render(k.body, TagOf(k), indent) + others
            && Shallow(others, 2 * indent + 1)
  {
    hide Render, RenderKids, Shallow, WellPrintedKids, FirstKid, OtherGroups, OtherEntries, TagOf;
    KidsUnfold(gs, es, indent);
    FirstKidIsGood(gs, es);
    KidsThenShallow(OtherGroups(gs), OtherEntries(gs, es), indent, rest);
    var first, others := Render(FirstKid(gs, es).body, TagOf(FirstKid(gs, es)), indent),
                         RenderKids(OtherGroups(gs), OtherEntries(gs, es), indent);
    assert first + others + rest == first + (others + rest);
  }

  lemma {:induction false} KidsInjective(top: Printed, gs: seq<Group>, es: seq<Entry>, hs: seq<Group>, fs: seq<Entry>,
                                         indent: nat, ra: seq<string>, rb: seq<string>)
    requires (forall g | g in gs :: g.body < top) && forall e | e in es :: e.body < top
    requires WellPrintedKids(gs, es) && WellPrintedKids(hs, fs)
    requires RenderKids(gs, es, indent) + ra == RenderKids(hs, fs, indent) + rb
    requires Shallow(ra, 2 * indent) && Shallow(rb, 2 * indent)
    ensures gs == hs && es == fs && ra == rb
    decreases top, |gs| + |es|
  {
    hide Render, RenderKids, TagOf, Shallow, WellPrintedKids;
    KidsThenShallow(gs, es, indent, ra);
    KidsThenShallow(hs, fs, indent, rb);
    if !HasKids(gs, es) {
      NoKids(indent, ra);
      NoKids(indent, rb);
    } else {
      KidsFollowed(gs, es, indent, ra);
      KidsFollowed(hs, fs, indent, rb);
      FirstKidIsGood(gs, es);
      FirstKidIsGood(hs, fs);
      var gs', es' := OtherGroups(gs), OtherEntries(gs, es);
      var hs', fs' := OtherGroups(hs), OtherEntries(hs, fs);
      var xa, xb := RenderKids(gs', es', indent) + ra, RenderKids(hs', fs', indent) + rb;
      FirstKidsSame(FirstKid(gs, es), FirstKid(hs, fs), indent, xa, xb);
      KidsInjective(top, gs', es', hs', fs', indent, ra, rb);
      KidsSame(gs, es, hs, fs);
    }
  }

  lemma FirstKidsSame(k: Kid, l: Kid, indent: nat, xa: seq<string>, xb: seq<string>)
    requires GoodWord(k.word) && WellPrinted(k.body) && GoodWord(l.word) && WellPrinted(l.body)
    requires Render(k.body, TagOf(k), indent) + xa == Render(l.body, TagOf(l), indent) + xb
    requires Shallow(xa, 2 * indent + 1) && Shallow(xb, 2 * indent + 1)
    ensures k == l && xa == xb
    decreases k.body, |k.body.groups| + |k.body.named| + 2
  {
    hide Render, Shallow, GoodWord, CountText;
    if TagOf(k) + k.body.info == TagOf(l) + l.body.info {
      TagEnds(k.word, k.count, k.body.info, l.word, l.count, l.body.info);
    }
    RenderInjective(k.body, TagOf(k), l.body, TagOf(l), indent, xa, xb);
    TagEnds(k.word, k.count, k.body.info, l.word, l.count, l.body.info);
  }

  // ---------- the whole text ----------

  lemma {:induction false} RenderIsLines(p: Printed, tag: string, indent: nat)
    requires WellPrinted(p) && Free(tag, '\n')
    ensures forall l | l in Render(p, tag, indent) :: Free(l, '\n')
    decreases p, 1
  {
    OwnLines(p, tag, indent);
    GroupsAreLines(p.groups, indent + 1);
    EntriesAreLines(p.named, indent + 1);
    hide Indent, RenderGroups, RenderEntries, WellPrinted, Free;
  }

  lemma OwnLines(p: Printed, tag: string, indent: nat)
    requires WellPrinted(p) && Free(tag, '\n')
    ensures Free(Indent(indent) + tag + p.info, '\n') && Free(Indent(indent) + tag + (p.info + "("), '\n')
    ensures Free(Indent(indent) + ")", '\n')
  {
    IndentIsLine(indent);
    hide Indent;
  }

  lemma {:induction false} IndentIsLine(n: nat)
    ensures Free(Indent(n), '\n')
  {
    if n > 0 {
      IndentIsLine(n - 1);
    }
  }

  lemma {:induction false} GroupsAreLines(gs: seq<Group>, indent: nat)
    requires WellPrintedGroups(gs)
    ensures forall l | l in RenderGroups(gs, indent) :: Free(l, '\n')
    decreases gs, 0
  {
    if gs != [] {
      CountIsLine(gs[0].count);
      hide CountText;
      RenderIsLines(gs[0].body, GroupTag(gs[0]), indent);
      GroupsAreLines(gs[1..], indent);
      hide Render, GroupTag, Free;
    }
  }

  lemma {:induction false} EntriesAreLines(es: seq<Entry>, indent: nat)
    requires WellPrintedEntries(es)
    ensures forall l | l in RenderEntries(es, indent) :: Free(l, '\n')
    decreases es, 0
  {
    if es != [] {
      RenderIsLines(es[0].body, NameTag(es[0].name), indent);
      EntriesAreLines(es[1..], indent);
      hide Render, NameTag, Free;
    }
  }

  lemma CountIsLine(count: Option<nat>)
    ensures Free(CountText(count), '\n')
  {
    if count.Some? {
      DigitsAreFree(count.value, '\n');
    }
  }

  lemma {:induction false} DigitsAreFree(n: nat, c: char)
    requires !IsDigit(c)
    ensures Free(Digits(n), c)
  {
    if n >= 10 {
      DigitsAreFree(n / 10, c);
    }
  }

  /** The printed text determines the printed tree. */
  lemma TextDetermines(p: Printed, q: Printed)
    requires WellPrinted(p) && WellPrinted(q) && Join(Render(p, [], 0), "\n") == Join(Render(q, [], 0), "\n")
    ensures p == q
  {
    RenderIsLines(p, [], 0);
    RenderIsLines(q, [], 0);
    JoinInjective(Render(p, [], 0), Render(q, [], 0), '\n');
    hide Render, WellPrinted;
    assert [] + p.info == p.info && [] + q.info == q.info;
    assert Render(p, [], 0) + [] == Render(q, [], 0) + [];
    RenderInjective(p, [], q, [], 0, [], []);
  }
}
