// Data-parallel ranks with different numbers of tokens, working through them in lockstep chunks.
module DPChunkingSpec {

  function CeilDiv(n: nat, d: nat): nat
    requires d > 0
  {
    (n + d - 1) / d
  }

  function Min(a: int, b: int): int {
    if a <= b then a else b
  }

  /** Where chunk k begins. */
  function StartOf(chunk: int, k: int): int {
    chunk * k
  }

  /** Tokens of a rank in a chunk; a rank that is done works on one dummy token. */
  function LocalSize(tokens: int, chunk: int, k: int): int {
    var size := Min(chunk, tokens - StartOf(chunk, k));
    if size <= 0 then 1 else size
  }

  /** What a rank works on in its first chunks. */
  function Worked(tokens: int, chunk: int, chunks: nat): int {
    if chunks == 0 then 0 else Worked(tokens, chunk, chunks - 1) + LocalSize(tokens, chunk, chunks - 1)
  }

  lemma CeilDivIs(n: nat, d: nat)
    requires d > 0
    ensures d * CeilDiv(n, d) >= n && (n > 0 ==> d * (CeilDiv(n, d) - 1) < n) && (n == 0 ==> CeilDiv(n, d) == 0)
    ensures d * CeilDiv(n, d) < n + d
  {
    var q: int := CeilDiv(n, d);
    assert n + d - 1 == d * q + (n + d - 1) % d;
    assert d * (q - 1) == d * q - d;
    if n == 0 {
      assert (d - 1) / d == 0;
    }
  }

  lemma CeilDivMonotone(a: nat, b: nat, d: nat)
    requires d > 0 && a <= b
    ensures CeilDiv(a, d) <= CeilDiv(b, d)
  {
    CeilDivIs(a, d);
    CeilDivIs(b, d);
    var p, q := CeilDiv(a, d), CeilDiv(b, d);
    if p > q {
      Factor(d, q, p - 1);
    }
  }

  lemma Factor(d: nat, j: nat, k: nat)
    requires j <= k
    ensures d * j <= d * k
  {
    assert d * k == d * j + d * (k - j);
  }

  /** Each chunk before the last full one is full, and later ones are dummies. */
  lemma LocalSizeIs(tokens: nat, chunk: nat, k: nat)
    requires chunk > 0
    ensures 1 <= LocalSize(tokens, chunk, k) <= chunk
    ensures k < CeilDiv(tokens, chunk) ==>
              LocalSize(tokens, chunk, k) == Min(chunk, tokens - chunk * k) && chunk * k < tokens
    ensures k >= CeilDiv(tokens, chunk) ==> LocalSize(tokens, chunk, k) == 1 && chunk * k >= tokens
  {
    var q := CeilDiv(tokens, chunk);
    CeilDivIs(tokens, chunk);
    if k < q {
      Factor(chunk, k, q - 1);
    } else {
      Factor(chunk, q, k);
    }
  }

  /** The chunks of a rank cover its tokens exactly, and each further chunk adds one dummy token. */
  lemma {:induction false} WorkedExact(tokens: nat, chunk: nat, chunks: nat)
    requires chunk > 0
    ensures chunks <= CeilDiv(tokens, chunk) ==> Worked(tokens, chunk, chunks) == Min(chunk * chunks, tokens)
    ensures chunks >= CeilDiv(tokens, chunk) ==>
              Worked(tokens, chunk, chunks) == tokens + chunks - CeilDiv(tokens, chunk)
  {
    if chunks == 0 {
      CeilDivIs(tokens, chunk);
    } else {
      WorkedExact(tokens, chunk, chunks - 1);
      LocalSizeIs(tokens, chunk, chunks - 1);
      hide CeilDiv, LocalSize;
      CeilDivIs(tokens, chunk);
      assert chunk * chunks == chunk * (chunks - 1) + chunk;
      if chunks == CeilDiv(tokens, chunk) {
        assert tokens > 0;
      }
    }
  }

  // ---------- sharding ----------

  /** Each rank's tokens, shared among the ranks of its sequence-parallel group. */
  function SpTokens(tokens: seq<nat>, sp: nat): (r: seq<nat>)
    requires sp > 0
    ensures |r| == |tokens| * sp
  {
    if tokens == [] then [] else Repeat(CeilDiv(tokens[0], sp), sp) + SpTokens(tokens[1..], sp)
  }

  function Repeat<T>(x: T, n: nat): (r: seq<T>)
    ensures |r| == n
  {
    seq(n, _ => x)
  }

  lemma Position(n: nat, sp: nat, rank: nat, shard: nat)
    requires rank < n && shard < sp
    ensures rank * sp + shard < n * sp
    ensures rank > 0 ==> rank * sp + shard == (rank - 1) * sp + shard + sp
  {
    assert (n - 1 - rank) * sp >= 0;
    assert n * sp == (n - 1 - rank) * sp + rank * sp + sp;
  }

  lemma {:induction false} SpTokensAt(tokens: seq<nat>, sp: nat, rank: nat, shard: nat)
    requires rank < |tokens| && shard < sp
    ensures rank * sp + shard < |tokens| * sp
    ensures SpTokens(tokens, sp)[rank * sp + shard] == CeilDiv(tokens[rank], sp)
  {
    hide CeilDiv;
    Position(|tokens|, sp, rank, shard);
    if rank > 0 {
      Position(|tokens| - 1, sp, rank - 1, shard);
      SpTokensAt(tokens[1..], sp, rank - 1, shard);
      AfterRepeat(Repeat(CeilDiv(tokens[0], sp), sp), SpTokens(tokens[1..], sp), (rank - 1) * sp + shard);
    } else {
      assert SpTokens(tokens, sp)[shard] == Repeat(CeilDiv(tokens[0], sp), sp)[shard];
    }
  }

  lemma AfterRepeat(a: seq<nat>, b: seq<nat>, i: nat)
    requires i < |b|
    ensures (a + b)[i + |a|] == b[i]
  {
  }

  function Sum(xs: seq<nat>): nat {
    if xs == [] then 0 else xs[0] + Sum(xs[1..])
  }

  lemma {:induction false} SumConcat(a: seq<nat>, b: seq<nat>)
    ensures Sum(a + b) == Sum(a) + Sum(b)
  {
    if a == [] {
      assert a + b == b;
    } else {
      assert (a + b)[1..] == a[1..] + b;
      SumConcat(a[1..], b);
    }
  }

  lemma {:induction false} SumRepeat(x: nat, n: nat)
    ensures Sum(Repeat(x, n)) == n * x
  {
    if n > 0 {
      assert Repeat(x, n)[1..] == Repeat(x, n - 1);
      SumRepeat(x, n - 1);
      assert n * x == (n - 1) * x + x;
    }
  }

  /** The shards hold all tokens, and each group has fewer rows of padding than shards. */
  lemma {:induction false} ShardsCover(tokens: seq<nat>, sp: nat)
    requires sp > 0
    ensures Sum(tokens) <= Sum(SpTokens(tokens, sp)) <= Sum(tokens) + |tokens| * (sp - 1)
  {
    hide CeilDiv;
    if tokens != [] {
      ShardsCover(tokens[1..], sp);
      SumConcat(Repeat(CeilDiv(tokens[0], sp), sp), SpTokens(tokens[1..], sp));
      SumRepeat(CeilDiv(tokens[0], sp), sp);
      CeilDivIs(tokens[0], sp);
      assert |tokens| * (sp - 1) == (|tokens| - 1) * (sp - 1) + (sp - 1);
    }
  }

  /** Running totals. */
  function Cumulative(xs: seq<nat>): (r: seq<nat>)
    ensures |r| == |xs|
  {
    seq(|xs|, i requires 0 <= i < |xs| => Sum(xs[..i + 1]))
  }

  function Concat<T>(xss: seq<seq<T>>): seq<T> {
    if xss == [] then [] else xss[0] + Concat(xss[1..])
  }

  function Lengths<T>(xss: seq<seq<T>>): (r: seq<nat>)
    ensures |r| == |xss|
  {
    seq(|xss|, i requires 0 <= i < |xss| => |xss[i]|)
  }

  lemma {:induction false} ConcatLength<T>(xss: seq<seq<T>>)
    ensures |Concat(xss)| == Sum(Lengths(xss))
  {
    if xss != [] {
      ConcatLength(xss[1..]);
      assert Lengths(xss)[1..] == Lengths(xss[1..]);
    }
  }

  lemma {:induction false} ConcatSnoc<T>(xss: seq<seq<T>>, xs: seq<T>)
    ensures Concat(xss + [xs]) == Concat(xss) + xs
  {
    if xss == [] {
      assert (xss + [xs])[1..] == [];
    } else {
      assert (xss + [xs])[1..] == xss[1..] + [xs];
      ConcatSnoc(xss[1..], xs);
    }
  }
}

module DPChunking {
  import opened DPChunkingSpec
  import opened Wrappers

  method ComputeChunkedLocalNumTokens(tokens: seq<nat>, sp: nat, maxNumTokens: int, chunkIdx: int)
    returns (localSize: seq<int>)
    requires sp > 0
    ensures |localSize| == |tokens| * sp
    ensures forall i | 0 <= i < |localSize| :: localSize[i] == LocalSize(SpTokens(tokens, sp)[i], maxNumTokens, chunkIdx)
  {
    hide SpTokens, CeilDiv;
    var spTokens := SpTokens(tokens, sp);
    localSize := Repeat(-1, |spTokens|);
    for i := 0 to |spTokens|
      invariant |localSize| == |spTokens|
      invariant forall j | 0 <= j < i :: localSize[j] == LocalSize(spTokens[j], maxNumTokens, chunkIdx)
    {
      localSize := localSize[i := Min(maxNumTokens, spTokens[i] - maxNumTokens * chunkIdx)];
      if localSize[i] <= 0 {
        localSize := localSize[i := 1];
      }
    }
  }

  function Max(tokens: seq<nat>): (m: nat)
    requires tokens != []
    ensures m in tokens && forall n | n in tokens :: n <= m
  {
    if |tokens| == 1 then tokens[0]
    else
      var m := Max(tokens[1..]);
      assert forall n | n in tokens :: n == tokens[0] || n in tokens[1..];
      if tokens[0] >= m then tokens[0] else m
  }

  class DPMetadata {
    const numTokensAcrossDp: seq<nat>
    const maxTokensAcrossDp: nat
    var localSizes: Option<seq<int>>

    constructor (numTokensAcrossDp: seq<nat>)
      requires numTokensAcrossDp != []
      ensures this.numTokensAcrossDp == numTokensAcrossDp && maxTokensAcrossDp == Max(numTokensAcrossDp)
      ensures localSizes == None
    {
      this.numTokensAcrossDp := numTokensAcrossDp;
      maxTokensAcrossDp := Max(numTokensAcrossDp);
      localSizes := None;
    }

    ghost predicate Valid() {
      numTokensAcrossDp != [] && maxTokensAcrossDp == Max(numTokensAcrossDp)
    }

    /** Entering the context of a chunk. */
    method EnterChunk(sp: nat, maxChunkSizePerRank: int, chunkIdx: int)
      requires sp > 0
      modifies this
      ensures localSizes.Some? && |localSizes.value| == |numTokensAcrossDp| * sp
      ensures forall i | 0 <= i < |localSizes.value| ::
                localSizes.value[i] == LocalSize(SpTokens(numTokensAcrossDp, sp)[i], maxChunkSizePerRank, chunkIdx)
    {
      var sizes := ComputeChunkedLocalNumTokens(numTokensAcrossDp, sp, maxChunkSizePerRank, chunkIdx);
      localSizes := Some(sizes);
    }

    /** Leaving it, also by an exception. */
    method ExitChunk()
      modifies this
      ensures localSizes == None
    {
      localSizes := None;
    }
  }

  // ---------- the chunk loop of one rank ----------

  /** Python's slice of rows; the start may be minus one, which counts from the end. */
  function Rows<T>(full: seq<T>, start: int, end: int): seq<T>
    requires -1 <= start <= end && 0 <= end <= |full|
  {
    var from := if start >= 0 then start else if |full| > 0 then |full| - 1 else 0;
    if from <= end then full[from..end] else []
  }

  function ChunkStart(n: nat, start: int): int {
    Min(start, n - 1)
  }

  function ChunkEnd(n: nat, start: int, chunk: int, most: int): int {
    Min(Min(start + chunk, most), n)
  }

  /**
   On a rank with tokens the rows of a chunk are as many as all ranks expect of it, and they are its next rows
   as long as it has any. A rank without tokens has no row for the one that is expected.
   */
  lemma RowsAreExpected<T>(full: seq<T>, chunk: nat, most: nat, k: nat)
    requires chunk > 0 && |full| <= most && 0 <= StartOf(chunk, k) < most
    ensures var n, s := |full|, StartOf(chunk, k);
            var (a, b) := (ChunkStart(n, s), ChunkEnd(n, s, chunk, most));
            && -1 <= a <= b && 0 <= b <= n && b - a == LocalSize(n, chunk, k)
            && (|Rows(full, a, b)| == b - a <==> n > 0)
            && (s < n ==> a == s && b == Min(s + chunk, n) && Rows(full, a, b) == full[s..b])
  {
    RowsFrom(full, chunk, most, StartOf(chunk, k));
  }

  /** The same for a chunk that starts at s; its size is the local size for tokens - s. */
  lemma RowsFrom<T>(full: seq<T>, chunk: nat, most: nat, s: nat)
    requires chunk > 0 && |full| <= most && s < most
    ensures var n, size := |full|, Min(chunk, |full| - s);
            var (a, b) := (ChunkStart(n, s), ChunkEnd(n, s, chunk, most));
            && -1 <= a <= b && 0 <= b <= n && b - a == (if size <= 0 then 1 else size)
            && (|Rows(full, a, b)| == b - a <==> n > 0)
            && (s < n ==> a == s && b == Min(s + chunk, n) && Rows(full, a, b) == full[s..b])
  {
  }

  /** A rank without tokens has no row where one is expected. */
  lemma NoRowForDummy(chunk: nat, most: nat)
    requires chunk > 0 && most > 0
    ensures LocalSize(0, chunk, 0) == 1 && Rows<int>([], ChunkStart(0, 0), ChunkEnd(0, 0, chunk, most)) == []
  {
  }

  /**
   The number of tokens that each rank of a sequence-parallel group has, and the group's share of the largest
   rank, which bounds it.
   */
  lemma ShareIsBounded(tokens: seq<nat>, sp: nat, rank: nat, shard: nat)
    requires tokens != [] && rank < |tokens| && shard < sp
    ensures rank * sp + shard < |SpTokens(tokens, sp)|
    ensures SpTokens(tokens, sp)[rank * sp + shard] == CeilDiv(tokens[rank], sp) <= CeilDiv(Max(tokens), sp)
  {
    hide CeilDiv, SpTokens;
    SpTokensAt(tokens, sp, rank, shard);
    assert tokens[rank] in tokens;
    CeilDivMonotone(tokens[rank], Max(tokens), sp);
  }

  /** The results of the first tokens are in place. */
  ghost predicate StoredUpTo<T, U>(out: seq<U>, experts: T -> U, full: seq<T>, count: int) {
    |out| == |full| && forall i | 0 <= i < |out| && i < count :: out[i] == experts(full[i])
  }

  /** Works on one chunk; fails if there are not as many rows as the chunk has places. */
  method ProcessChunk<T, U>(out: array<U>, full: seq<T>, experts: T -> U, start: int, end: int, skipResultStore: bool)
    returns (ok: bool)
    requires out.Length == |full| && -1 <= start <= end && 0 <= end <= |full| && (start >= 0 || skipResultStore)
    modifies out
    ensures ok <==> |Rows(full, start, end)| == end - start
    ensures !ok || skipResultStore ==> out[..] == old(out[..])
    ensures ok && !skipResultStore && StoredUpTo(old(out[..]), experts, full, start) ==>
              StoredUpTo(out[..], experts, full, end)
  {
    var rows := Rows(full, start, end);
    if |rows| != end - start {
      return false;
    }
    ok := true;
    if !skipResultStore {
      for i := start to end
        invariant forall j | 0 <= j < start :: out[j] == old(out[j])
        invariant forall j | start <= j < i :: out[j] == experts(full[j])
      {
        out[i] := experts(rows[i - start]);
      }
    }
  }

  /** One turn of the chunk loop, inside the context of the chunk's sizes, which hold the rank's own at index me. */
  method RunChunk<T, U>(meta: DPMetadata, sp: nat, chunk: nat, k: nat, next: nat, most: nat, ghost me: nat,
                        full: seq<T>, experts: T -> U, out: array<U>)
    returns (ok: bool, ghost rows: int)
    requires chunk > 0 && sp > 0 && next == StartOf(chunk, k) < most && |full| <= most
    requires me < |SpTokens(meta.numTokensAcrossDp, sp)| && SpTokens(meta.numTokensAcrossDp, sp)[me] == |full|
    requires StoredUpTo(out[..], experts, full, next)
    modifies meta, out
    ensures meta.localSizes == None
    ensures ok <==> |full| > 0
    ensures ok ==> rows == LocalSize(|full|, chunk, k) && StoredUpTo(out[..], experts, full, next + chunk)
  {
    hide CeilDiv, LocalSize, SpTokens, StoredUpTo, Rows, ChunkStart, ChunkEnd, StartOf;
    assert out.Length == |full| by { StoredLength(out[..], experts, full, next); }
    var n := |full|;
    var start, end := ChunkStart(n, next), ChunkEnd(n, next, chunk, most);
    meta.EnterChunk(sp, chunk, k);
    RowsAreExpected(full, chunk, most, k);
    LocalSizeIs(n, chunk, k);
    assert meta.localSizes.value[me] == end - start <= chunk;
    SkippedOrNext(n, next, chunk, most);
    ok := ProcessChunk(out, full, experts, start, end, next >= n);
    meta.ExitChunk();
    rows := end - start;
    if ok {
      StoredFurther(out[..], experts, full, next, end, chunk, most);
    }
  }

  lemma StoredLength<T, U>(out: seq<U>, experts: T -> U, full: seq<T>, count: int)
    requires StoredUpTo(out, experts, full, count)
    ensures |out| == |full|
  {
  }

  /**
   One rank's chunk loop. It fails on a rank without tokens, as soon as any rank has one. Otherwise the rank
   goes through as many chunks as the largest rank needs, with as many rows in each as all ranks expect of it,
   and every token's result is stored in its place.
   */
  method ForwardImplChunked<T, U(0)>(meta: DPMetadata, sp: nat, chunk: nat, rank: nat, shard: nat, full: seq<T>,
                                     experts: T -> U)
    returns (ok: bool, out: array<U>, ghost worked: seq<int>)
    requires meta.Valid() && chunk > 0 && rank < |meta.numTokensAcrossDp| && shard < sp
    requires |full| == CeilDiv(meta.numTokensAcrossDp[rank], sp)
    modifies meta
    ensures fresh(out)
    ensures ok <==> |full| > 0 || meta.maxTokensAcrossDp == 0
    ensures ok ==> StoredUpTo(out[..], experts, full, |full|)
    ensures ok ==> |worked| == CeilDiv(CeilDiv(meta.maxTokensAcrossDp, sp), chunk)
    ensures ok ==> forall k | 0 <= k < |worked| :: worked[k] == LocalSize(|full|, chunk, k)
    ensures old(meta.localSizes) == None ==> meta.localSizes == None
  {
    hide CeilDiv, LocalSize, SpTokens, StoredUpTo, StartOf;
    var n := |full|;
    out := new U[n];
    var most := CeilDiv(meta.maxTokensAcrossDp, sp);
    ShareIsBounded(meta.numTokensAcrossDp, sp, rank, shard);
    ghost var me := rank * sp + shard;
    worked := [];
    NothingStored(out[..], experts, full);
    ChunksSpan(most, chunk, 0);
    NoTokens(meta.maxTokensAcrossDp, sp);
    var k, next := 0, 0;
    while next < most
      invariant 0 <= next == StartOf(chunk, k)
      invariant n > 0 || k == 0
      invariant StoredUpTo(out[..], experts, full, next)
      invariant |worked| == k && forall j | 0 <= j < k :: worked[j] == LocalSize(n, chunk, j)
      invariant next < most <==> k < CeilDiv(most, chunk)
      invariant k <= CeilDiv(most, chunk)
      invariant old(meta.localSizes) == None ==> meta.localSizes == None
      decreases most - next
    {
      ghost var rows;
      ok, rows := RunChunk(meta, sp, chunk, k, next, most, me, full, experts, out);
      if !ok {
        return;
      }
      worked := worked + [rows];
      ChunksSpan(most, chunk, k);
      ChunksSpan(most, chunk, k + 1);
      k, next := k + 1, next + chunk;
    }
    StoredAll(out[..], experts, full, next);
    ok := true;
  }

  lemma NothingStored<T, U>(out: seq<U>, experts: T -> U, full: seq<T>)
    requires |out| == |full|
    ensures StoredUpTo(out, experts, full, 0)
  {
  }

  lemma StoredAll<T, U>(out: seq<U>, experts: T -> U, full: seq<T>, count: int)
    requires StoredUpTo(out, experts, full, count) && count >= |full|
    ensures StoredUpTo(out, experts, full, |full|)
  {
  }

  /** Results beyond the last token need not be stored. */
  lemma StoredFurther<T, U>(out: seq<U>, experts: T -> U, full: seq<T>, next: nat, end: int, chunk: nat, most: int)
    requires |full| <= most && end == ChunkEnd(|full|, next, chunk, most)
    requires StoredUpTo(out, experts, full, if next < |full| then end else next)
    ensures StoredUpTo(out, experts, full, next + chunk)
  {
  }

  lemma SkippedOrNext(n: nat, next: nat, chunk: nat, most: int)
    ensures ChunkStart(n, next) >= 0 || next >= n
    ensures next < n ==> ChunkStart(n, next) == next
  {
  }

  lemma ChunksSpan(most: nat, chunk: nat, k: nat)
    requires chunk > 0
    ensures StartOf(chunk, k) < most <==> k < CeilDiv(most, chunk)
    ensures StartOf(chunk, k + 1) == StartOf(chunk, k) + chunk && StartOf(chunk, 0) == 0
  {
    LocalSizeIs(most, chunk, k);
  }

  lemma NoTokens(tokens: nat, sp: nat)
    requires sp > 0
    ensures CeilDiv(tokens, sp) == 0 <==> tokens == 0
  {
    CeilDivIs(tokens, sp);
  }

  // ---------- gathering all ranks' rows ----------

  /** Running totals of the shards' sizes: where each shard's rows end. */
  function CuTokensAcrossSp(tokens: seq<nat>, sp: nat): (r: seq<nat>)
    requires sp > 0
    ensures |r| == |tokens| * sp
  {
    Cumulative(SpTokens(tokens, sp))
  }

  /** The region of a shard lies right behind the region of the one before it, and has the shard's size. */
  lemma RegionIs(tokens: seq<nat>, sp: nat, shard: nat)
    requires sp > 0 && shard < |tokens| * sp
    ensures var cu, sizes := CuTokensAcrossSp(tokens, sp), SpTokens(tokens, sp);
            && cu[shard] == (if shard == 0 then 0 else cu[shard - 1]) + sizes[shard]
            && cu[shard] == Sum(sizes[..shard + 1]) <= Sum(sizes)
  {
    hide SpTokens;
    var sizes := SpTokens(tokens, sp);
    assert sizes[..shard + 1] == sizes[..shard] + [sizes[shard]];
    assert sizes == sizes[..shard + 1] + sizes[shard + 1..];
    SumConcat(sizes[..shard], [sizes[shard]]);
    SumConcat(sizes[..shard + 1], sizes[shard + 1..]);
    assert Sum([sizes[shard]]) == sizes[shard];
  }

  /** Broadcasting: the shard's rows arrive in its region of the buffer. */
  method Broadcast<T>(buffer: array<T>, start: nat, end: nat, rows: seq<T>)
    requires start <= end <= buffer.Length && |rows| == end - start
    modifies buffer
    ensures buffer[..start] == old(buffer[..start]) && buffer[start..end] == rows
  {
    for i := start to end
      invariant buffer[..start] == old(buffer[..start])
      invariant forall j | start <= j < i :: buffer[j] == rows[j - start]
    {
      buffer[i] := rows[i - start];
    }
  }

  /** Every rank gets the rows of all ranks, in the order of the ranks, and nothing else. */
  method NaiveMulticast<T(0)>(meta: DPMetadata, sp: nat, shards: seq<seq<T>>) returns (buffer: array<T>)
    requires meta.Valid() && sp > 0
    requires Lengths(shards) == SpTokens(meta.numTokensAcrossDp, sp)
    ensures fresh(buffer) && buffer[..] == Concat(shards)
  {
    hide SpTokens, CuTokensAcrossSp;
    var tokens := meta.numTokensAcrossDp;
    assert |tokens| * sp >= 1 by { Position(|tokens|, sp, 0, 0); }
    var cu := CuTokensAcrossSp(tokens, sp);
    RegionIs(tokens, sp, |cu| - 1);
    ghost var sizes := SpTokens(tokens, sp);
    assert sizes[..|cu|] == sizes;
    buffer := new T[cu[|cu| - 1]];
    ghost var filled := 0;
    for idx := 0 to |shards|
      invariant fresh(buffer) && buffer.Length == Sum(sizes)
      invariant filled == (if idx == 0 then 0 else cu[idx - 1]) && filled <= buffer.Length
      invariant Concat(shards[..idx]) == buffer[..filled]
    {
      var start := if idx == 0 then 0 else cu[idx - 1];
      var end := cu[idx];
      RegionIs(tokens, sp, idx);
      assert |shards[idx]| == Lengths(shards)[idx];
      Broadcast(buffer, start, end, shards[idx]);
      assert shards[..idx + 1] == shards[..idx] + [shards[idx]];
      ConcatSnoc(shards[..idx], shards[idx]);
      assert buffer[..end] == buffer[..start] + buffer[start..end];
      filled := end;
    }
    RegionIs(tokens, sp, |shards| - 1);
    assert shards[..|shards|] == shards;
  }
}
