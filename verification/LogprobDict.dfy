// Python dictionaries with their insertion order, as lists of entries with distinct keys.
module LogprobDict {

  import opened Wrappers

  datatype Logprob = Logprob(logprob: real, rank: Option<int>, decodedToken: Option<string>)

  datatype Entry = Entry(tokenId: int, info: Logprob)

  /** A dictionary in insertion order. */
  type Dict = seq<Entry>

  ghost predicate IsDict(d: Dict) {
    forall i, j | 0 <= i < j < |d| :: d[i].tokenId != d[j].tokenId
  }

  function IndexOf(d: Dict, key: int): (i: nat)
    ensures i <= |d|
    ensures i < |d| ==> d[i].tokenId == key
    ensures forall j | 0 <= j < i :: d[j].tokenId != key
  {
    if d == [] then 0
    else
      var i := IndexOf(d[..|d| - 1], key);
      if i < |d| - 1 then i else if d[|d| - 1].tokenId == key then |d| - 1 else |d|
  }

  /** Assignment to a key: in place if the key is there, at the end otherwise. */
  function Put(d: Dict, e: Entry): Dict {
    var i := IndexOf(d, e.tokenId);
    if i < |d| then d[i := e] else d + [e]
  }

  /** What a dictionary comprehension builds from a list of entries. */
  function FromEntries(es: seq<Entry>): Dict {
    if es == [] then [] else Put(FromEntries(es[..|es| - 1]), es[|es| - 1])
  }

  lemma PutKeepsDict(d: Dict, e: Entry)
    requires IsDict(d)
    ensures IsDict(Put(d, e))
  {
  }

  lemma {:induction false} FromEntriesIsDict(es: seq<Entry>)
    ensures IsDict(FromEntries(es))
  {
    if es != [] {
      FromEntriesIsDict(es[..|es| - 1]);
      PutKeepsDict(FromEntries(es[..|es| - 1]), es[|es| - 1]);
    }
  }

  /** A list that already is a dictionary is rebuilt entry by entry. */
  lemma {:induction false} FromEntriesOfDict(d: Dict)
    requires IsDict(d)
    ensures FromEntries(d) == d
  {
    if d != [] {
      var p, e := d[..|d| - 1], d[|d| - 1];
      FromEntriesOfDict(p);
      assert d == p + [e];
    }
  }

  /** The value of a key is that of its last entry; the keys stand in the order of their first entries. */
  ghost predicate IsLast(es: seq<Entry>, i: nat) {
    i < |es| && forall j | i < j < |es| :: es[j].tokenId != es[i].tokenId
  }

  lemma PutMembers(d: Dict, x: Entry, e: Entry)
    requires IsDict(d)
    ensures e in Put(d, x) <==> e == x || (e in d && e.tokenId != x.tokenId)
  {
    var k := IndexOf(d, x.tokenId);
    assert Put(d, x)[k] == x;
    if e in d && e.tokenId != x.tokenId {
      var j :| 0 <= j < |d| && d[j] == e;
      assert Put(d, x)[j] == e;
    }
  }

  lemma {:induction false} LastEntryWins(es: seq<Entry>, e: Entry)
    ensures e in FromEntries(es) <==> exists i: nat :: IsLast(es, i) && es[i] == e
  {
    if es != [] {
      var n := |es| - 1;
      var p, d := es[..n], FromEntries(es[..n]);
      LastEntryWins(p, e);
      FromEntriesIsDict(p);
      PutMembers(d, es[n], e);
      assert IsLast(es, n);
      if i: nat :| IsLast(p, i) && p[i] == e && e.tokenId != es[n].tokenId {
        assert IsLast(es, i);
      }
      if i: nat :| IsLast(es, i) && es[i] == e && i != n {
        assert IsLast(p, i);
      }
    }
  }

  /** The keys of a list of entries in the order of their first occurrence. */
  function FirstKeys(es: seq<Entry>): seq<int> {
    if es == [] then []
    else
      var ks, k := FirstKeys(es[..|es| - 1]), es[|es| - 1].tokenId;
      if k in ks then ks else ks + [k]
  }

  function Keys(d: Dict): seq<int> {
    seq(|d|, i requires 0 <= i < |d| => d[i].tokenId)
  }

  lemma {:induction false} FirstEntryOrders(es: seq<Entry>)
    ensures Keys(FromEntries(es)) == FirstKeys(es)
  {
    if es != [] {
      var d, e := FromEntries(es[..|es| - 1]), es[|es| - 1];
      FirstEntryOrders(es[..|es| - 1]);
      var i := IndexOf(d, e.tokenId);
      if i < |d| {
        assert Keys(d)[i] == e.tokenId;
      }
    }
  }
}
