// Creating and mapping the chunks of an allocation, and undoing it, against a driver that may fail.

// Maps that are another map plus a list of further entries.
module Extension {
  ghost function KeySet<K>(ks: seq<K>): set<K> {
    set k | k in ks
  }

  /** m is m0 with, in addition, the distinct new keys ks, which have the values vs. */
  ghost predicate Extends<K, V>(m: map<K, V>, m0: map<K, V>, ks: seq<K>, vs: seq<V>) {
    && |ks| == |vs|
    && (forall i, j | 0 <= i < j < |ks| :: ks[i] != ks[j])
    && (forall i | 0 <= i < |ks| :: ks[i] !in m0 && ks[i] in m && m[ks[i]] == vs[i])
    && m - KeySet(ks) == m0
  }

  lemma ExtendsNone<K, V>(m: map<K, V>, m0: map<K, V>)
    ensures Extends(m, m0, [], []) <==> m == m0
  {
    assert KeySet<K>([]) == {};
    assert m - {} == m;
  }

  lemma ExtendsSnoc<K, V>(m: map<K, V>, m0: map<K, V>, ks: seq<K>, vs: seq<V>, k: K, v: V)
    requires Extends(m, m0, ks, vs) && k !in m
    ensures Extends(m[k := v], m0, ks + [k], vs + [v])
  {
    assert KeySet(ks + [k]) == KeySet(ks) + {k};
    assert m[k := v] - KeySet(ks + [k]) == m - KeySet(ks);
  }

  lemma ExtendsNext<K, V>(m: map<K, V>, m0: map<K, V>, ks: seq<K>, vs: seq<V>, i: nat)
    requires i < |ks| == |vs| && Extends(m, m0, ks[..i], vs[..i]) && ks[i] !in m
    ensures Extends(m[ks[i] := vs[i]], m0, ks[..i + 1], vs[..i + 1])
  {
    ExtendsSnoc(m, m0, ks[..i], vs[..i], ks[i], vs[i]);
    assert ks[..i + 1] == ks[..i] + [ks[i]] && vs[..i + 1] == vs[..i] + [vs[i]];
  }

  lemma KeySetNone<K>()
    ensures KeySet<K>([]) == {}
  {
  }

  lemma KeySetSnoc<K>(ks: seq<K>, i: nat)
    requires i < |ks|
    ensures KeySet(ks[..i + 1]) == KeySet(ks[..i]) + {ks[i]}
  {
  }
}

module Driver {
  datatype Call = Create | Map | Unmap | Release | SetAccess

  const INVALID_VALUE: int := 1

  datatype Mapping = Mapping(size: int, handle: int)

  /** No mapped range reaches into the given one. */
  predicate FreeIn(maps: map<int, Mapping>, addr: int, size: int) {
    forall a | a in maps :: addr + size <= a || a + maps[a].size <= addr
  }

  /**
   The driver's view of memory: which handles are live, with their sizes, and which address ranges are
   mapped. Which calls fail, although their arguments are valid, is fixed by faults: the status of the
   n-th call, zero for success.
   */
  class Driver {
    const faults: (Call, nat) -> int
    var clock: nat
    var nextHandle: int
    var handles: map<int, int>
    var maps: map<int, Mapping>

    constructor (faults: (Call, nat) -> int)
      ensures Valid() && this.faults == faults
      ensures clock == 0 && handles == map[] && maps == map[]
    {
      this.faults := faults;
      clock, nextHandle := 0, 0;
      handles, maps := map[], map[];
    }

    /** Mapped ranges are not empty, and a handle is never given out twice. */
    ghost predicate Valid()
      reads this
    {
      && (forall h | h in handles :: h < nextHandle)
      && (forall a | a in maps :: maps[a].size > 0)
    }

    method MemCreate(size: int) returns (status: int, handle: int)
      requires Valid()
      modifies this`clock, this`nextHandle, this`handles
      ensures Valid() && clock == old(clock) + 1 && nextHandle >= old(nextHandle)
      ensures status == if faults(Create, old(clock)) == 0 && size <= 0 then INVALID_VALUE
                        else faults(Create, old(clock))
      ensures status == 0 ==> handle == old(nextHandle) && handle !in old(handles)
                              && handles == old(handles)[handle := size]
      ensures status != 0 ==> handles == old(handles)
    {
      status, handle := faults(Create, clock), 0;
      clock := clock + 1;
      if status == 0 {
        if size <= 0 {
          status := INVALID_VALUE;
        } else {
          handle := nextHandle;
          nextHandle := nextHandle + 1;
          handles := handles[handle := size];
        }
      }
    }

    method MemMap(addr: int, size: int, handle: int) returns (status: int)
      requires Valid()
      modifies this`clock, this`maps
      ensures Valid() && clock == old(clock) + 1
      ensures status == if faults(Map, old(clock)) == 0
                           && !(size > 0 && old(FreeIn(maps, addr, size)) && handle in handles && handles[handle] == size)
                        then INVALID_VALUE else faults(Map, old(clock))
      ensures status == 0 ==> addr !in old(maps) && maps == old(maps)[addr := Mapping(size, handle)]
      ensures status != 0 ==> maps == old(maps)
    {
      status := faults(Map, clock);
      clock := clock + 1;
      if status == 0 {
        if size > 0 && FreeIn(maps, addr, size) && handle in handles && handles[handle] == size {
          maps := maps[addr := Mapping(size, handle)];
        } else {
          status := INVALID_VALUE;
        }
      }
    }

    method MemUnmap(addr: int, size: int) returns (status: int)
      requires Valid()
      modifies this`clock, this`maps
      ensures Valid() && clock == old(clock) + 1
      ensures status == if faults(Unmap, old(clock)) == 0 && !(addr in old(maps) && old(maps)[addr].size == size)
                        then INVALID_VALUE else faults(Unmap, old(clock))
      ensures maps == if status == 0 then old(maps) - {addr} else old(maps)
    {
      status := faults(Unmap, clock);
      clock := clock + 1;
      if status == 0 {
        if addr in maps && maps[addr].size == size {
          maps := maps - {addr};
        } else {
          status := INVALID_VALUE;
        }
      }
    }

    method MemRelease(handle: int) returns (status: int)
      requires Valid()
      modifies this`clock, this`handles
      ensures Valid() && clock == old(clock) + 1
      ensures status == if faults(Release, old(clock)) == 0 && handle !in old(handles)
                        then INVALID_VALUE else faults(Release, old(clock))
      ensures handles == if status == 0 then old(handles) - {handle} else old(handles)
    {
      status := faults(Release, clock);
      clock := clock + 1;
      if status == 0 {
        if handle in handles {
          handles := handles - {handle};
        } else {
          status := INVALID_VALUE;
        }
      }
    }

    method MemSetAccess() returns (status: int)
      requires Valid()
      modifies this`clock
      ensures Valid() && clock == old(clock) + 1
      ensures status == faults(SetAccess, old(clock))
    {
      status := faults(SetAccess, clock);
      clock := clock + 1;
    }

    /** Creating and mapping never fail on valid arguments. */
    ghost predicate MappingSucceeds() {
      forall n :: faults(Create, n) == 0 && faults(Map, n) == 0
    }

    ghost predicate AccessSucceeds() {
      forall n :: faults(SetAccess, n) == 0
    }

    /** Undoing never fails on valid arguments. */
    ghost predicate CleanupSucceeds() {
      forall n :: faults(Unmap, n) == 0 && faults(Release, n) == 0
    }
  }
}

module CumemAllocator {
  import opened ChunkLayout
  import opened Extension
  import opened Driver

  /** The mappings of the chunks: at its prefix-sum address, each chunk is backed by its own handle. */
  ghost function Mappings(sizes: seq<int>, hs: seq<int>): (ms: seq<Mapping>)
    requires |sizes| == |hs|
    ensures |ms| == |sizes|
  {
    seq(|sizes|, i requires 0 <= i < |sizes| => Mapping(sizes[i], hs[i]))
  }

  /** The driver holds what it held before, h0 and m0, and in addition exactly the backed chunks. */
  ghost predicate Backed(d: Driver, h0: map<int, int>, m0: map<int, Mapping>,
                         base: int, sizes: seq<int>, hs: seq<int>)
    reads d
  {
    && |sizes| == |hs|
    && Extends(d.handles, h0, hs, sizes)
    && Extends(d.maps, m0, Addresses(base, sizes), Mappings(sizes, hs))
  }

  lemma ExtendsUndo<K, V>(m: map<K, V>, m0: map<K, V>, ks: seq<K>, vs: seq<V>)
    requires Extends(m, m0, ks, vs)
    ensures m - KeySet(ks) == m0
  {
  }

  /** The statuses are just the faults of the calls from number start on. */
  ghost predicate OnlyFaults(faults: (Call, nat) -> int, call: Call, start: nat, statuses: seq<int>) {
    forall i | 0 <= i < |statuses| :: statuses[i] == faults(call, start + i)
  }

  lemma OnlyFaultsSnoc(faults: (Call, nat) -> int, call: Call, start: nat, statuses: seq<int>, status: int)
    requires OnlyFaults(faults, call, start, statuses) && status == faults(call, start + |statuses|)
    ensures OnlyFaults(faults, call, start, statuses + [status])
  {
  }

  /** The keys whose call had status zero. */
  ghost function Undone(ks: seq<int>, statuses: seq<int>): set<int>
    requires |ks| == |statuses|
  {
    set i | 0 <= i < |ks| && statuses[i] == 0 :: ks[i]
  }

  /** The first status that is not zero, or zero. */
  function FirstError(statuses: seq<int>): int {
    if statuses == [] then 0
    else
      var first := FirstError(statuses[..|statuses| - 1]);
      if first != 0 then first else statuses[|statuses| - 1]
  }

  lemma FirstErrorSnoc(statuses: seq<int>, status: int)
    ensures FirstError(statuses + [status]) == if FirstError(statuses) != 0 then FirstError(statuses) else status
  {
    assert (statuses + [status])[..|statuses|] == statuses;
  }

  lemma UndoneNone(ks: seq<int>)
    ensures Undone(ks[..0], []) == {}
  {
  }

  lemma UndoneStep(ks: seq<int>, statuses: seq<int>, status: int, i: nat)
    requires i < |ks| && |statuses| == i
    ensures Undone(ks[..i + 1], statuses + [status])
            == if status == 0 then Undone(ks[..i], statuses) + {ks[i]} else Undone(ks[..i], statuses)
  {
    var a, b := Undone(ks[..i + 1], statuses + [status]), Undone(ks[..i], statuses);
    forall k | k in b ensures k in a {
      var j :| 0 <= j < i && statuses[j] == 0 && ks[j] == k;
      assert (statuses + [status])[j] == 0 && ks[..i + 1][j] == k;
    }
    if status == 0 {
      assert (statuses + [status])[i] == 0 && ks[..i + 1][i] == ks[i];
    }
  }

  /** Undoing the entries one by one never touches one that is still to come. */
  lemma StillThere<V>(m: map<int, V>, m0: map<int, V>, ks: seq<int>, vs: seq<V>, statuses: seq<int>, i: nat)
    requires Extends(m, m0, ks, vs) && i < |ks| && |statuses| == i
    ensures ks[i] in m - Undone(ks[..i], statuses) && m[ks[i]] == vs[i]
  {
  }

  /** If every call succeeds, what is left is the map that was extended. */
  lemma AllUndone<V>(m: map<int, V>, m0: map<int, V>, ks: seq<int>, vs: seq<V>, statuses: seq<int>)
    requires Extends(m, m0, ks, vs) && |statuses| == |ks|
    requires forall i | 0 <= i < |statuses| :: statuses[i] == 0
    ensures m - Undone(ks, statuses) == m0
  {
    assert Undone(ks, statuses) == KeySet(ks);
  }

  lemma {:induction false} NoErrors(statuses: seq<int>)
    requires forall i | 0 <= i < |statuses| :: statuses[i] == 0
    ensures FirstError(statuses) == 0
  {
    if statuses != [] {
      NoErrors(statuses[..|statuses| - 1]);
    }
  }

  lemma MappedSizes(m: map<int, Mapping>, m0: map<int, Mapping>, base: int, sizes: seq<int>, hs: seq<int>, n: nat)
    requires |hs| == |sizes| && n <= |sizes|
    requires Extends(m, m0, Addresses(base, sizes)[..n], Mappings(sizes, hs)[..n])
    ensures forall j | 0 <= j < n :: Addresses(base, sizes)[j] in m && m[Addresses(base, sizes)[j]].size == sizes[j]
    ensures m - KeySet(Addresses(base, sizes)[..n]) == m0
  {
    var addrs, ms := Addresses(base, sizes), Mappings(sizes, hs);
    assert forall j | 0 <= j < n :: addrs[..n][j] == addrs[j] && ms[..n][j] == ms[j];
  }

  lemma PrefixNone(sizes: seq<int>)
    ensures Prefix(sizes, 0) == 0
  {
  }

  lemma MappingAt(sizes: seq<int>, hs: seq<int>, i: nat)
    requires i < |sizes| == |hs|
    ensures Mappings(sizes, hs)[i] == Mapping(sizes[i], hs[i])
  {
  }

  lemma AddressAt(base: int, sizes: seq<int>, i: nat)
    requires i < |sizes|
    ensures Addresses(base, sizes)[i] == base + Prefix(sizes, i)
    ensures Prefix(sizes, i + 1) == Prefix(sizes, i) + sizes[i]
  {
  }

  // ---------- when every call succeeds ----------

  /** The creation of chunk i has no fault, if the creations begin with call number start, and asks for a positive size. */
  ghost predicate CreatesAt(faults: (Call, nat) -> int, start: nat, sizes: seq<int>, i: nat)
    requires i < |sizes|
  {
    faults(Create, start + i) == 0 && sizes[i] > 0
  }

  ghost predicate CanCreate(faults: (Call, nat) -> int, start: nat, sizes: seq<int>, n: nat)
    requires n <= |sizes|
  {
    forall i | 0 <= i < n :: CreatesAt(faults, start, sizes, i)
  }

  /** The mapping of chunk i has no fault, and in its range, which is not empty, nothing is mapped. */
  ghost predicate MapsAt(faults: (Call, nat) -> int, start: nat, maps: map<int, Mapping>, base: int, sizes: seq<int>,
                         i: nat)
    requires i < |sizes|
  {
    faults(Map, start + i) == 0 && sizes[i] > 0 && FreeIn(maps, base + Prefix(sizes, i), sizes[i])
  }

  ghost predicate CanMap(faults: (Call, nat) -> int, start: nat, maps: map<int, Mapping>, base: int, sizes: seq<int>,
                         n: nat)
    requires n <= |sizes|
  {
    forall i | 0 <= i < n :: MapsAt(faults, start, maps, base, sizes, i)
  }

  lemma CanMapStep(faults: (Call, nat) -> int, start: nat, maps: map<int, Mapping>, base: int, sizes: seq<int>, n: nat)
    requires n < |sizes|
    ensures CanMap(faults, start, maps, base, sizes, n + 1)
            <==> CanMap(faults, start, maps, base, sizes, n) && MapsAt(faults, start, maps, base, sizes, n)
    ensures !MapsAt(faults, start, maps, base, sizes, n) ==> !CanMap(faults, start, maps, base, sizes, |sizes|)
  {
    hide MapsAt;
  }

  /** Every handle is live with its chunk's size. */
  ghost predicate Holds(handles: map<int, int>, hs: seq<int>, sizes: seq<int>) {
    |hs| == |sizes| && forall i | 0 <= i < |hs| :: hs[i] in handles && handles[hs[i]] == sizes[i]
  }

  lemma ExtendsHolds(handles: map<int, int>, h0: map<int, int>, hs: seq<int>, sizes: seq<int>)
    requires Extends(handles, h0, hs, sizes)
    ensures Holds(handles, hs, sizes)
  {
  }

  lemma InBoth<K, V>(m: map<K, V>, m0: map<K, V>, ks: seq<K>, vs: seq<V>, k: K)
    requires Extends(m, m0, ks, vs)
    ensures k in m0 ==> k in m && m[k] == m0[k]
    ensures k in m && k !in m0 ==> exists j :: 0 <= j < |ks| && ks[j] == k && m[k] == vs[j]
  {
    if k in m0 {
      assert k in m - KeySet(ks);
    } else if k in m {
      assert k in KeySet(ks) by { assert k !in m - KeySet(ks); }
      assert k in ks;
      var j :| 0 <= j < |ks| && ks[j] == k;
    }
  }

  lemma SizesBefore(faults: (Call, nat) -> int, start: nat, maps: map<int, Mapping>, base: int, sizes: seq<int>, n: nat)
    requires n <= |sizes| && CanMap(faults, start, maps, base, sizes, n)
    ensures forall j | 0 <= j < n :: sizes[j] > 0
  {
    forall j | 0 <= j < n ensures sizes[j] > 0 {
      assert MapsAt(faults, start, maps, base, sizes, j);
    }
  }

  /** New entries that lie below an address do not matter for a range from there on. */
  lemma SameFree(maps: map<int, Mapping>, m0: map<int, Mapping>, ks: seq<int>, vs: seq<Mapping>, addr: int, size: int)
    requires Extends(maps, m0, ks, vs) && forall j | 0 <= j < |ks| :: ks[j] + vs[j].size <= addr
    ensures FreeIn(maps, addr, size) <==> FreeIn(m0, addr, size)
  {
    forall a ensures a in m0 ==> a in maps && maps[a] == m0[a]
             ensures a in maps && a !in m0 ==> a + maps[a].size <= addr
    {
      InBoth(maps, m0, ks, vs, a);
    }
    hide Extends;
  }

  lemma BelowNext(base: int, sizes: seq<int>, hs: seq<int>, i: nat)
    requires |hs| == |sizes| && i < |sizes| && forall j | 0 <= j < i :: sizes[j] > 0
    ensures var ks, vs := Addresses(base, sizes)[..i], Mappings(sizes, hs)[..i];
            forall j | 0 <= j < i :: ks[j] + vs[j].size <= base + Prefix(sizes, i)
  {
    hide Prefix;
    forall j | 0 <= j < i
      ensures Addresses(base, sizes)[j] + Mappings(sizes, hs)[j].size <= base + Prefix(sizes, i)
    {
      PrefixGrows(sizes, j, i);
    }
  }

  /** The chunks mapped so far do not reach into the range of the next one. */
  lemma MapStep(faults: (Call, nat) -> int, start: nat, maps: map<int, Mapping>, m0: map<int, Mapping>,
                base: int, sizes: seq<int>, hs: seq<int>, i: nat)
    requires |hs| == |sizes| && i < |sizes|
    requires Extends(maps, m0, Addresses(base, sizes)[..i], Mappings(sizes, hs)[..i])
    requires CanMap(faults, start, m0, base, sizes, i)
    ensures if faults(Map, start + i) == 0 && sizes[i] > 0 && FreeIn(maps, base + Prefix(sizes, i), sizes[i])
            then CanMap(faults, start, m0, base, sizes, i + 1)
            else !CanMap(faults, start, m0, base, sizes, |sizes|)
  {
    SizesBefore(faults, start, m0, base, sizes, i);
    BelowNext(base, sizes, hs, i);
    CanMapStep(faults, start, m0, base, sizes, i);
    hide Extends, CanMap, Prefix, Addresses, Mappings, FreeIn;
    SameFree(maps, m0, Addresses(base, sizes)[..i], Mappings(sizes, hs)[..i], base + Prefix(sizes, i), sizes[i]);
  }

  /** No call of the whole operation can fail: neither for its arguments nor for a fault of the driver. */
  ghost predicate CanCreateAndMap(d: Driver, base: int, sizes: seq<int>)
    reads d
  {
    && CanCreate(d.faults, d.clock, sizes, |sizes|)
    && CanMap(d.faults, d.clock + |sizes|, d.maps, base, sizes, |sizes|)
    && d.faults(SetAccess, d.clock + 2 * |sizes|) == 0
  }

  /** Every chunk has a positive size, and nothing is mapped in its range. */
  ghost predicate AllFree(maps: map<int, Mapping>, base: int, sizes: seq<int>) {
    forall i | 0 <= i < |sizes| :: sizes[i] > 0 && FreeIn(maps, base + Prefix(sizes, i), sizes[i])
  }

  /** Chunks that tile a free range are free. */
  lemma FreeRange(maps: map<int, Mapping>, base: int, sizes: seq<int>, total: int, c: int, granularity: int)
    requires granularity > 0 && Tiles(sizes, total, c, granularity) && FreeIn(maps, base, total)
    ensures AllFree(maps, base, sizes)
  {
    forall i | 0 <= i < |sizes| ensures FreeIn(maps, base + Prefix(sizes, i), sizes[i]) {
      PrefixGrows(sizes, 0, i);
      PrefixGrows(sizes, i, |sizes|);
    }
  }

  /** Without faults it is enough that the chunks have positive sizes and free ranges. */
  lemma FreeIsEnough(d: Driver, base: int, sizes: seq<int>)
    requires d.MappingSucceeds() && d.AccessSucceeds() && AllFree(d.maps, base, sizes)
    ensures CanCreateAndMap(d, base, sizes)
  {
    hide Prefix, FreeIn;
    forall i | 0 <= i < |sizes|
      ensures CreatesAt(d.faults, d.clock, sizes, i)
      ensures MapsAt(d.faults, d.clock + |sizes|, d.maps, base, sizes, i)
    {
      assert sizes[i] > 0;
    }
  }

  datatype MallocResult = NullPointer | DividedByZero | Pointer(base: int)

  class Allocator {
    const driver: Driver
    var errorCode: int

    constructor (driver: Driver)
      ensures this.driver == driver && errorCode == 0
    {
      this.driver := driver;
      errorCode := 0;
    }

    /** The CUDA_CHECK macro: only a failure is recorded; nothing here ever clears the code. */
    method CudaCheck(status: int)
      modifies this`errorCode
      ensures errorCode == if status != 0 then status else old(errorCode)
    {
      if status != 0 {
        errorCode := status;
      }
    }

    /** Releases the first n handles; the statuses are ignored. */
    method ReleaseFirst(cells: array<int>, n: nat)
      requires driver.Valid() && n <= cells.Length
      modifies driver`clock, driver`handles
      ensures driver.Valid()
      ensures driver.CleanupSucceeds() || n == 0 ==> driver.handles == old(driver.handles) - KeySet(cells[..n])
    {
      ghost var hs := cells[..n];
      for j := 0 to n
        invariant driver.Valid()
        invariant driver.CleanupSucceeds() || j == 0 ==> driver.handles == old(driver.handles) - KeySet(hs[..j])
      {
        KeySetSnoc(hs, j);
        var _ := driver.MemRelease(cells[j]);
      }
      assert hs[..n] == hs;
    }

    /** Unmaps the first n chunks, walking the range from its base; the statuses are ignored. */
    method UnmapFirst(base: int, sizes: seq<int>, n: nat)
      requires driver.Valid() && n <= |sizes|
      requires forall j | 0 <= j < n && Addresses(base, sizes)[j] in driver.maps ::
                 driver.maps[Addresses(base, sizes)[j]].size == sizes[j]
      modifies driver`clock, driver`maps
      ensures driver.Valid()
      ensures driver.CleanupSucceeds() ==> driver.maps == old(driver.maps) - KeySet(Addresses(base, sizes)[..n])
    {
      ghost var addrs := Addresses(base, sizes);
      KeySetNone<int>();
      PrefixNone(sizes);
      hide Addresses, Prefix, Driver.Valid, KeySet;
      var unmappedSize := 0;
      for j := 0 to n
        invariant driver.Valid() && unmappedSize == Prefix(sizes, j)
        invariant driver.CleanupSucceeds() ==> driver.maps == old(driver.maps) - KeySet(addrs[..j])
      {
        KeySetSnoc(addrs, j);
        AddressAt(base, sizes, j);
        var _ := driver.MemUnmap(base + unmappedSize, sizes[j]);
        unmappedSize := unmappedSize + sizes[j];
      }
    }

    /** The first loop: a handle for every chunk, or, on a failure, none, provided that no old error is pending. */
    method CreateHandles(cells: array<int>, sizes: seq<int>)
      requires driver.Valid() && cells.Length == |sizes|
      modifies this`errorCode, cells, driver`clock, driver`nextHandle, driver`handles
      ensures driver.Valid()
      ensures sizes == [] ==> errorCode == old(errorCode)
      ensures sizes == [] || errorCode == 0 ==> driver.clock == old(driver.clock) + |sizes|
      ensures old(errorCode) == 0 ==>
                (errorCode == 0 <==> CanCreate(driver.faults, old(driver.clock), sizes, |sizes|))
      ensures old(errorCode) == 0 && errorCode == 0 ==> Extends(driver.handles, old(driver.handles), cells[..], sizes)
      ensures old(errorCode) == 0 && errorCode != 0 && driver.CleanupSucceeds() ==>
                driver.handles == old(driver.handles)
      ensures old(errorCode) != 0 ==>
                && errorCode != 0
                && driver.handles == if sizes != [] && driver.faults(Create, old(driver.clock)) == 0 && sizes[0] > 0
                                     then old(driver.handles)[old(driver.nextHandle) := sizes[0]]
                                     else old(driver.handles)
    {
      ghost var h0 := driver.handles;
      ExtendsNone(driver.handles, h0);
      assert cells[..0] == [] && sizes[..0] == [];
      for i := 0 to |sizes|
        invariant driver.Valid() && Extends(driver.handles, h0, cells[..i], sizes[..i])
        invariant driver.clock == old(driver.clock) + i && CanCreate(driver.faults, old(driver.clock), sizes, i)
        invariant if i > 0 then errorCode == old(errorCode) == 0
                  else errorCode == old(errorCode) && driver.handles == h0
                       && driver.clock == old(driver.clock) && driver.nextHandle == old(driver.nextHandle)
      {
        ghost var before, known := driver.handles, cells[..i];
        assert before - KeySet(known) == h0;
        assert CreatesAt(driver.faults, old(driver.clock), sizes, i)
          <==> driver.faults(Create, driver.clock) == 0 && sizes[i] > 0;
        var status, handle := driver.MemCreate(sizes[i]);
        if status == 0 {
          cells[i] := handle;
          ExtendsSnoc(before, h0, known, sizes[..i], handle, sizes[i]);
          assert cells[..i + 1] == known + [handle] && sizes[..i + 1] == sizes[..i] + [sizes[i]];
        }
        CudaCheck(status);
        if errorCode != 0 {
          assert cells[..i] == known;
          ReleaseFirst(cells, i);
          assert i == 0 ==> KeySet(known) == {};
          return;
        }
      }
      assert cells[..|sizes|] == cells[..] && sizes[..|sizes|] == sizes;
    }

    /** What the second loop does on a failure: unmap the first n chunks and release all handles. */
    method RollBack(base: int, cells: array<int>, sizes: seq<int>, n: nat, ghost m0: map<int, Mapping>)
      requires driver.Valid() && cells.Length == |sizes| && n <= |sizes|
      requires Extends(driver.maps, m0, Addresses(base, sizes)[..n], Mappings(sizes, cells[..])[..n])
      modifies driver`clock, driver`handles, driver`maps
      ensures driver.Valid()
      ensures driver.CleanupSucceeds() ==>
                driver.handles == old(driver.handles) - KeySet(cells[..]) && driver.maps == m0
    {
      MappedSizes(driver.maps, m0, base, sizes, cells[..], n);
      hide Extends, Addresses, Mappings, Driver.Valid, KeySet;
      UnmapFirst(base, sizes, n);
      ReleaseFirst(cells, cells.Length);
      assert cells[..cells.Length] == cells[..];
    }

    /** The second loop: every chunk is mapped, or, on a failure, none is and every handle is released. */
    method MapChunks(base: int, cells: array<int>, sizes: seq<int>)
      requires driver.Valid() && cells.Length == |sizes| && (errorCode == 0 || sizes == [])
      modifies this`errorCode, driver`clock, driver`handles, driver`maps
      ensures driver.Valid()
      ensures sizes == [] ==> errorCode == old(errorCode)
      ensures old(errorCode) == 0 && old(Holds(driver.handles, cells[..], sizes)) ==>
                (errorCode == 0
                 <==> CanMap(driver.faults, old(driver.clock), old(driver.maps), base, sizes, |sizes|))
      ensures sizes == [] || errorCode == 0 ==>
                && driver.clock == old(driver.clock) + |sizes|
                && driver.handles == old(driver.handles)
                && Extends(driver.maps, old(driver.maps), Addresses(base, sizes), Mappings(sizes, cells[..]))
      ensures sizes != [] && errorCode != 0 && driver.CleanupSucceeds() ==>
                && driver.handles == old(driver.handles) - KeySet(cells[..])
                && driver.maps == old(driver.maps)
    {
      ghost var m0, addrs, ms := driver.maps, Addresses(base, sizes), Mappings(sizes, cells[..]);
      ghost var holds := Holds(driver.handles, cells[..], sizes);
      ExtendsNone(driver.maps, m0);
      PrefixNone(sizes);
      assert addrs[..0] == [] && ms[..0] == [];
      assert holds ==> CanMap(driver.faults, driver.clock, m0, base, sizes, 0);
      assert holds ==> forall i | 0 <= i < |sizes| :: cells[i] in driver.handles && driver.handles[cells[i]] == sizes[i];
      hide Addresses, Mappings, Prefix, Extends, Driver.Valid, FreeIn, Driver.CleanupSucceeds, KeySet;
      hide CanMap, MapsAt, Holds;
      var allocatedSize := 0;
      for i := 0 to |sizes|
        invariant driver.Valid() && errorCode == old(errorCode) && allocatedSize == Prefix(sizes, i)
        invariant driver.handles == old(driver.handles) && driver.clock == old(driver.clock) + i
        invariant Extends(driver.maps, m0, addrs[..i], ms[..i])
        invariant holds ==> CanMap(driver.faults, old(driver.clock), m0, base, sizes, i)
      {
        ghost var before := driver.maps;
        if holds {
          MapStep(driver.faults, old(driver.clock), before, m0, base, sizes, cells[..], i);
        }
        AddressAt(base, sizes, i);
        MappingAt(sizes, cells[..], i);
        var status := driver.MemMap(base + allocatedSize, sizes[i], cells[i]);
        CudaCheck(status);
        if errorCode != 0 {
          RollBack(base, cells, sizes, i, m0);
          return;
        }
        ExtendsNext(before, m0, addrs, ms, i);
        allocatedSize := allocatedSize + sizes[i];
      }
      assert addrs[..|sizes|] == addrs && ms[..|sizes|] == ms;
    }

    /**
     Creates and maps all the chunks. Without a pending error it either backs the whole range or leaves the
     driver as it was; only a failure to set the access rights is reported with the range left backed.
     A pending error makes it fail after the first chunk, whose handle then stays behind.
     */
    method CreateAndMap(base: int, cells: array<int>, sizes: seq<int>)
      requires driver.Valid() && cells.Length == |sizes|
      modifies this`errorCode, cells, driver
      ensures driver.Valid()
      ensures old(errorCode) == 0 ==> (errorCode == 0 <==> old(CanCreateAndMap(driver, base, sizes)))
      ensures old(errorCode) == 0 && errorCode == 0 ==>
                Backed(driver, old(driver.handles), old(driver.maps), base, sizes, cells[..])
      ensures old(errorCode) == 0 && errorCode != 0 && driver.CleanupSucceeds() ==>
                || (driver.handles == old(driver.handles) && driver.maps == old(driver.maps))
                || (&& driver.clock > 0 && driver.faults(SetAccess, driver.clock - 1) == errorCode
                    && Backed(driver, old(driver.handles), old(driver.maps), base, sizes, cells[..]))
      ensures old(errorCode) != 0 ==>
                && errorCode != 0 && driver.maps == old(driver.maps)
                && driver.handles == if sizes != [] && driver.faults(Create, old(driver.clock)) == 0 && sizes[0] > 0
                                     then old(driver.handles)[old(driver.nextHandle) := sizes[0]]
                                     else old(driver.handles)
    {
      hide Extends, Driver.Valid, Addresses, Mappings, CanCreate, CanMap, Holds;
      CreateHandles(cells, sizes);
      if errorCode != 0 && sizes != [] {
        return;
      }
      ghost var created := driver.handles;
      if old(errorCode) == 0 {
        ExtendsHolds(created, old(driver.handles), cells[..], sizes);
      }
      MapChunks(base, cells, sizes);
      if old(errorCode) == 0 {
        ExtendsUndo(created, old(driver.handles), cells[..], sizes);
      }
      if errorCode != 0 && sizes != [] {
        return;
      }
      if sizes == [] {
        ExtendsNone(driver.maps, old(driver.maps));
        assert Addresses(base, sizes) == [] && Mappings(sizes, cells[..]) == [];
      }
      var status := driver.MemSetAccess();
      CudaCheck(status);
    }

    /** Unmaps every chunk whatever the statuses; on a range mapped as given only the driver's faults fail. */
    method UnmapAll(base: int, sizes: seq<int>, ghost m0: map<int, Mapping>, ghost hs: seq<int>)
      returns (firstError: int, ghost us: seq<int>)
      requires driver.Valid() && |hs| == |sizes|
      modifies driver`clock, driver`maps
      ensures driver.Valid() && driver.clock == old(driver.clock) + |sizes| && |us| == |sizes|
      ensures driver.maps == old(driver.maps) - Undone(Addresses(base, sizes), us)
      ensures firstError == FirstError(us)
      ensures Extends(old(driver.maps), m0, Addresses(base, sizes), Mappings(sizes, hs)) ==>
                OnlyFaults(driver.faults, Unmap, old(driver.clock), us)
    {
      ghost var addrs, ms, m := Addresses(base, sizes), Mappings(sizes, hs), driver.maps;
      UndoneNone(addrs);
      assert OnlyFaults(driver.faults, Unmap, driver.clock, []);
      PrefixNone(sizes);
      hide Addresses, Mappings, Prefix, Driver.Valid, Extends, Undone, OnlyFaults;
      var allocatedSize := 0;
      firstError, us := 0, [];
      for i := 0 to |sizes|
        invariant driver.Valid() && |us| == i && driver.clock == old(driver.clock) + i
        invariant allocatedSize == Prefix(sizes, i) && firstError == FirstError(us)
        invariant driver.maps == m - Undone(addrs[..i], us)
        invariant Extends(m, m0, addrs, ms) ==>
                    OnlyFaults(driver.faults, Unmap, old(driver.clock), us)
      {
        if Extends(m, m0, addrs, ms) {
          StillThere(m, m0, addrs, ms, us, i);
          MappingAt(sizes, hs, i);
        }
        AddressAt(base, sizes, i);
        var status := driver.MemUnmap(base + allocatedSize, sizes[i]);
        if Extends(m, m0, addrs, ms) {
          OnlyFaultsSnoc(driver.faults, Unmap, old(driver.clock), us, status);
        }
        UndoneStep(addrs, us, status, i);
        FirstErrorSnoc(us, status);
        us := us + [status];
        if status != 0 && firstError == 0 {
          firstError := status;
        }
        allocatedSize := allocatedSize + sizes[i];
      }
      assert addrs[..|sizes|] == addrs;
    }

    /** Releases every handle whatever the statuses; on live handles only the driver's faults fail. */
    method ReleaseAll(cells: array<int>, firstError: int,
                      ghost h0: map<int, int>, ghost sizes: seq<int>, ghost us: seq<int>)
      returns (first: int, ghost rs: seq<int>)
      requires driver.Valid() && cells.Length == |sizes| && firstError == FirstError(us)
      modifies driver`clock, driver`handles
      ensures driver.Valid() && |rs| == |sizes|
      ensures driver.handles == old(driver.handles) - Undone(cells[..], rs)
      ensures first == FirstError(us + rs)
      ensures Extends(old(driver.handles), h0, cells[..], sizes) ==>
                OnlyFaults(driver.faults, Release, old(driver.clock), rs)
    {
      ghost var hs, m := cells[..], driver.handles;
      UndoneNone(hs);
      assert OnlyFaults(driver.faults, Release, driver.clock, []);
      hide Driver.Valid, Extends, Undone, OnlyFaults;
      first, rs := firstError, [];
      assert us + rs == us;
      for i := 0 to cells.Length
        invariant driver.Valid() && |rs| == i && driver.clock == old(driver.clock) + i
        invariant first == FirstError(us + rs)
        invariant driver.handles == m - Undone(hs[..i], rs)
        invariant Extends(m, h0, hs, sizes) ==>
                    OnlyFaults(driver.faults, Release, old(driver.clock), rs)
      {
        if Extends(m, h0, hs, sizes) {
          StillThere(m, h0, hs, sizes, rs, i);
        }
        var status := driver.MemRelease(cells[i]);
        if Extends(m, h0, hs, sizes) {
          OnlyFaultsSnoc(driver.faults, Release, old(driver.clock), rs, status);
        }
        UndoneStep(hs, rs, status, i);
        FirstErrorSnoc(us + rs, status);
        assert us + (rs + [status]) == us + rs + [status];
        rs := rs + [status];
        if status != 0 && first == 0 {
          first := status;
        }
      }
      assert hs[..|sizes|] == hs;
    }

    /**
     Unmaps and releases all the chunks. No failure stops the two loops: exactly the calls that fail leave
     their chunk mapped or its handle live, and the first status that is not zero is recorded. On a backed
     range no call has invalid arguments, so only the driver's own faults can fail; without any, what the
     driver held before the range was backed is back.
     */
    method UnmapAndRelease(base: int, cells: array<int>, sizes: seq<int>,
                           ghost h0: map<int, int>, ghost m0: map<int, Mapping>)
      returns (ghost us: seq<int>, ghost rs: seq<int>)
      requires driver.Valid() && cells.Length == |sizes|
      modifies this`errorCode, driver`clock, driver`handles, driver`maps
      ensures driver.Valid() && |us| == |rs| == |sizes|
      ensures driver.maps == old(driver.maps) - Undone(Addresses(base, sizes), us)
      ensures driver.handles == old(driver.handles) - Undone(cells[..], rs)
      ensures errorCode == if FirstError(us + rs) != 0 then FirstError(us + rs) else old(errorCode)
      ensures old(Backed(driver, h0, m0, base, sizes, cells[..])) ==>
                && OnlyFaults(driver.faults, Unmap, old(driver.clock), us)
                && OnlyFaults(driver.faults, Release, old(driver.clock) + |sizes|, rs)
                && (driver.CleanupSucceeds() ==>
                      driver.handles == h0 && driver.maps == m0 && errorCode == old(errorCode))
    {
      ghost var backed := Backed(driver, h0, m0, base, sizes, cells[..]);
      ghost var h, m := driver.handles, driver.maps;
      var firstError: int;
      firstError, us := UnmapAll(base, sizes, m0, cells[..]);
      firstError, rs := ReleaseAll(cells, firstError, h0, sizes, us);
      if firstError != 0 {
        CudaCheck(firstError);
      }
      if backed && driver.CleanupSucceeds() {
        NoErrors(us + rs);
        AllUndone(m, m0, Addresses(base, sizes), Mappings(sizes, cells[..]), us);
        AllUndone(h, h0, cells[..], sizes, rs);
      }
    }

    /**
     The first allocation of a range. The driver's answers about granularity, reservation and release of the
     address range are parameters. A pointer means a backed range cut as the layout says, which is no chunk at
     all if the number of chunks wraps; no pointer means that the driver holds what it held before and that the
     error stays pending for whoever comes next.
     */
    method MyMalloc(size: int, setting: ChunkSetting, granularityStatus: int, granularity: int,
                    reserveStatus: int, base: int, freeStatus: int)
      returns (r: MallocResult, cells: array<int>, sizes: seq<int>)
      requires driver.Valid() && ValidSetting(setting) && 0 <= size < WORD && 0 < granularity < WORD
      modifies this`errorCode, driver
      ensures driver.Valid()
      ensures old(errorCode) != 0 ==> r == NullPointer && driver.handles == old(driver.handles) && driver.maps == old(driver.maps)
      ensures r == DividedByZero
              <==> old(errorCode) == 0 && granularityStatus == 0 && reserveStatus == 0
                   && MemcreateChunkSize(setting) + granularity - 1 >= WORD
      ensures r.Pointer?
              <==> old(errorCode) == 0 && granularityStatus == 0 && reserveStatus == 0
                   && MemcreateChunkSize(setting) + granularity - 1 < WORD && old(CanCreateAndMap(driver, base, sizes))
      ensures r == NullPointer ==> errorCode != 0
      ensures r == NullPointer && driver.CleanupSucceeds() && driver.AccessSucceeds() ==>
                driver.handles == old(driver.handles) && driver.maps == old(driver.maps)
      ensures r.Pointer? ==>
                && r.base == base && errorCode == 0 && cells.Length == |sizes|
                && Backed(driver, old(driver.handles), old(driver.maps), base, sizes, cells[..])
      ensures old(errorCode) == 0 && granularityStatus == 0 && reserveStatus == 0 && r != DividedByZero ==>
                var c := Align(MemcreateChunkSize(setting), granularity);
                && (Align(size, granularity) + c - 1 < WORD ==> Tiles(sizes, Align(size, granularity), c, granularity))
                && (Align(size, granularity) + c - 1 >= WORD ==> sizes == [])
    {
      hide Backed, Tiles, Driver.Valid, CanCreateAndMap;
      cells, sizes := new int[0], [];
      CudaCheck(granularityStatus);
      if errorCode != 0 {
        return NullPointer, cells, sizes;
      }
      CudaCheck(reserveStatus);
      if errorCode != 0 {
        return NullPointer, cells, sizes;
      }
      var layout := ComputeLayout(size, granularity, setting);
      if layout.DivisionByZero? {
        return DividedByZero, cells, sizes;
      }
      sizes := layout.chunkSizes;
      cells := new int[|sizes|];
      CreateAndMap(base, cells, sizes);
      if errorCode != 0 {
        CudaCheck(freeStatus);
        return NullPointer, cells, sizes;
      }
      r := Pointer(base);
    }

    // ---------- the functions exposed to Python ----------

    /** The pending error is reported and cleared. */
    method TakeError() returns (ok: bool)
      modifies this`errorCode
      ensures errorCode == 0 && ok == (old(errorCode) == 0)
    {
      ok := errorCode == 0;
      errorCode := 0;
    }

    method PythonCreateAndMap(base: int, cells: array<int>, sizes: seq<int>) returns (ok: bool)
      requires driver.Valid() && cells.Length == |sizes|
      modifies this`errorCode, cells, driver
      ensures driver.Valid() && errorCode == 0
      ensures ok <==> old(errorCode) == 0 && old(CanCreateAndMap(driver, base, sizes))
      ensures ok ==> Backed(driver, old(driver.handles), old(driver.maps), base, sizes, cells[..])
      ensures !ok && old(errorCode) == 0 && driver.CleanupSucceeds() && driver.AccessSucceeds() ==>
                driver.handles == old(driver.handles) && driver.maps == old(driver.maps)
      ensures old(errorCode) != 0 ==>
                && !ok && driver.maps == old(driver.maps)
                && driver.handles == if sizes != [] && driver.faults(Create, old(driver.clock)) == 0 && sizes[0] > 0
                                     then old(driver.handles)[old(driver.nextHandle) := sizes[0]]
                                     else old(driver.handles)
    {
      hide Backed, CanCreateAndMap;
      CreateAndMap(base, cells, sizes);
      ok := TakeError();
    }

    method PythonUnmapAndRelease(base: int, cells: array<int>, sizes: seq<int>,
                                 ghost h0: map<int, int>, ghost m0: map<int, Mapping>)
      returns (ok: bool)
      requires driver.Valid() && cells.Length == |sizes|
      modifies this`errorCode, driver`clock, driver`handles, driver`maps
      ensures driver.Valid() && errorCode == 0
      ensures old(Backed(driver, h0, m0, base, sizes, cells[..])) && driver.CleanupSucceeds() ==>
                driver.handles == h0 && driver.maps == m0 && ok == (old(errorCode) == 0)
    {
      hide Backed;
      ghost var us, rs := UnmapAndRelease(base, cells, sizes, h0, m0);
      ok := TakeError();
    }

    /**
     Any alternating run of putting the range to sleep and waking it up, in which a wake-up is tried again
     after it failed: after each call the range is either fully backed, chunk by chunk, or the driver holds
     nothing of it, whatever creations and mappings have failed. If none fails, it is awake exactly after an odd
     number of calls.
     */
    method SleepAndWake(base: int, cells: array<int>, sizes: seq<int>, calls: nat) returns (awake: bool)
      requires driver.Valid() && cells.Length == |sizes| && errorCode == 0
      requires driver.CleanupSucceeds() && driver.AccessSucceeds()
      modifies this`errorCode, cells, driver
      ensures driver.Valid() && errorCode == 0
      ensures if awake then Backed(driver, old(driver.handles), old(driver.maps), base, sizes, cells[..])
              else driver.handles == old(driver.handles) && driver.maps == old(driver.maps)
      ensures driver.MappingSucceeds() && old(AllFree(driver.maps, base, sizes)) ==> (awake <==> calls % 2 == 1)
    {
      hide Backed, AllFree, CanCreateAndMap;
      ghost var h0, m0 := driver.handles, driver.maps;
      awake := false;
      for call := 0 to calls
        invariant driver.Valid() && errorCode == 0
        invariant if awake then Backed(driver, h0, m0, base, sizes, cells[..])
                  else driver.handles == h0 && driver.maps == m0
        invariant driver.MappingSucceeds() && AllFree(m0, base, sizes) ==> (awake <==> call % 2 == 1)
      {
        if !awake && driver.MappingSucceeds() && AllFree(m0, base, sizes) {
          FreeIsEnough(driver, base, sizes);
        }
        if awake {
          var ok := PythonUnmapAndRelease(base, cells, sizes, h0, m0);
          awake := false;
        } else {
          awake := PythonCreateAndMap(base, cells, sizes);
        }
      }
    }
  }

  /**
   The pending error in action. With no fault of the driver at all, a wake-up that finds an old error
   pending is refused, and the one handle it created stays live with nobody to release it.
   */
  method PendingErrorLeaks(a: Allocator, base: int, cells: array<int>) returns (ok: bool)
    requires a.driver.Valid() && a.driver.handles == map[] && cells.Length == 1
    requires forall c, n :: a.driver.faults(c, n) == 0
    requires a.errorCode != 0
    modifies a, a.driver, cells
    ensures !ok && a.driver.maps == old(a.driver.maps)
    ensures |a.driver.handles| == 1
  {
    ok := a.PythonCreateAndMap(base, cells, [MB]);
    assert a.driver.handles == map[old(a.driver.nextHandle) := MB];
  }

  /** The same wake-up without a pending error succeeds and maps its chunk. */
  method WithoutPendingError(a: Allocator, base: int, cells: array<int>) returns (ok: bool)
    requires a.driver.Valid() && a.driver.handles == map[] && a.driver.maps == map[] && cells.Length == 1
    requires a.driver.MappingSucceeds() && a.driver.AccessSucceeds()
    requires a.errorCode == 0
    modifies a, a.driver, cells
    ensures ok && Backed(a.driver, map[], map[], base, [MB], cells[..])
  {
    assert AllFree(a.driver.maps, base, [MB]);
    FreeIsEnough(a.driver, base, [MB]);
    hide Backed, CanCreateAndMap;
    ok := a.PythonCreateAndMap(base, cells, [MB]);
  }
}
