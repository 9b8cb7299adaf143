// How the allocator cuts an aligned range into chunks, in the 64-bit unsigned arithmetic of the source.
module ChunkLayout {

  const WORD: int := 0x1_0000_0000_0000_0000
  const MB: int := 1024 * 1024
  const DEFAULT_CHUNK_SIZE: int := 256 * MB

  /** The environment variable: unset, not a number (or out of range), or a number of megabytes. */
  datatype ChunkSetting = Unset | Unparsable | Megabytes(mb: int)

  ghost predicate ValidSetting(setting: ChunkSetting) {
    setting.Megabytes? ==> 0 <= setting.mb < WORD
  }

  /** The base chunk size is always a positive multiple of a megabyte, and the conversion never wraps. */
  function MemcreateChunkSize(setting: ChunkSetting): (size: int)
    requires ValidSetting(setting)
    ensures 0 < size < WORD && size % MB == 0
    ensures setting.Megabytes? && 0 < setting.mb * MB < WORD ==> size == setting.mb * MB
    ensures !(setting.Megabytes? && 0 < setting.mb * MB < WORD) ==> size == DEFAULT_CHUNK_SIZE
  {
    match setting
    case Unset => DEFAULT_CHUNK_SIZE
    case Unparsable => DEFAULT_CHUNK_SIZE
    case Megabytes(mb) =>
      if mb == 0 then DEFAULT_CHUNK_SIZE
      else if mb > (WORD - 1) / MB then DEFAULT_CHUNK_SIZE
      else mb * MB
  }

  /** The number of pieces of size p that cover x, as (x + p - 1) / p in 64 bits. */
  function CeilDiv(x: int, p: int): int
    requires 0 <= x < WORD && 0 < p < WORD
  {
    (x + p - 1) % WORD / p
  }

  function Align(x: int, p: int): int
    requires 0 <= x < WORD && 0 < p < WORD
  {
    CeilDiv(x, p) * p
  }

  /** Without wrap-around the quotient is the ceiling; with it the quotient is zero. */
  lemma CeilDivExact(x: int, p: int)
    requires 0 <= x < WORD && 0 < p < WORD
    ensures x + p - 1 < WORD ==> x <= CeilDiv(x, p) * p < x + p
    ensures x + p - 1 >= WORD ==> CeilDiv(x, p) == 0
    ensures CeilDiv(x, p) >= 0
  {
    var y := (x + p - 1) % WORD;
    assert y == y / p * p + y % p;
    if x + p - 1 >= WORD {
      assert y == x + p - 1 - WORD;
      SmallQuotient(y, p);
    }
  }

  lemma SmallQuotient(y: int, p: int)
    requires 0 <= y < p
    ensures y / p == 0
  {
  }

  /** Rounding up works if and only if the sum does not wrap; if it wraps, the result is zero. */
  lemma AlignExact(x: int, p: int)
    requires 0 <= x < WORD && 0 < p < WORD
    ensures 0 <= Align(x, p) < WORD
    ensures Align(x, p) % p == 0
    ensures x + p - 1 < WORD ==> x <= Align(x, p) < x + p
    ensures x + p - 1 >= WORD ==> Align(x, p) == 0
    ensures x > 0 ==> (x <= Align(x, p) <==> x + p - 1 < WORD)
  {
    CeilDivExact(x, p);
    MultipleOf(CeilDiv(x, p), p);
  }

  lemma MultipleOf(k: int, p: int)
    requires p > 0
    ensures k * p % p == 0
  {
    var q, r := k * p / p, k * p % p;
    assert k * p == p * q + r;
    assert (k - q) * p == r;
    AtLeastOnce(k - q, p);
  }

  lemma AtLeastOnce(m: int, p: int)
    requires p > 0
    ensures m >= 1 ==> m * p >= p
    ensures m <= -1 ==> m * p <= -p
    ensures m == 0 ==> m * p == 0
  {
  }

  lemma MultiplesDiffer(x: int, y: int, k: int, p: int)
    requires p > 0 && x % p == 0 && y % p == 0
    ensures (x - k * y) % p == 0
  {
    var a, b := x / p, y / p;
    assert x == p * a && y == p * b;
    assert k * (p * b) == p * (k * b);
    assert x - k * y == (a - k * b) * p;
    MultipleOf(a - k * b, p);
  }

  /** The total size of the first i chunks. */
  function Prefix(sizes: seq<int>, i: nat): int
    requires i <= |sizes|
  {
    if i == 0 then 0 else Prefix(sizes, i - 1) + sizes[i - 1]
  }

  /** The start addresses of the chunks in the range that begins at base. */
  function Addresses(base: int, sizes: seq<int>): (addrs: seq<int>)
    ensures |addrs| == |sizes|
  {
    seq(|sizes|, i requires 0 <= i < |sizes| => base + Prefix(sizes, i))
  }

  /** The chunks are positive multiples of the granularity, all but the last have size c, and they add up to total. */
  ghost predicate Tiles(sizes: seq<int>, total: int, c: int, granularity: int)
    requires granularity > 0
  {
    && (forall i | 0 <= i < |sizes| :: 0 < sizes[i] <= c && sizes[i] % granularity == 0)
    && (forall i | 0 <= i < |sizes| - 1 :: sizes[i] == c)
    && Prefix(sizes, |sizes|) == total
  }

  lemma {:induction false} PrefixGrows(sizes: seq<int>, i: nat, j: nat)
    requires i <= j <= |sizes| && forall k | i <= k < j :: sizes[k] > 0
    ensures Prefix(sizes, i) <= Prefix(sizes, j)
    ensures i < j ==> Prefix(sizes, i) + sizes[i] <= Prefix(sizes, j)
  {
    if i < j - 1 {
      PrefixGrows(sizes, i, j - 1);
    }
  }

  /** The chunks occupy adjacent ranges that do not overlap and that fill the whole range. */
  lemma ChunksAreDisjoint(base: int, sizes: seq<int>, i: nat, j: nat)
    requires i < j < |sizes| && forall k | 0 <= k < |sizes| :: sizes[k] > 0
    ensures var a := Addresses(base, sizes);
            && base <= a[i] && a[i] + sizes[i] <= a[j]
            && (j == i + 1 ==> a[i] + sizes[i] == a[j])
            && a[j] + sizes[j] <= base + Prefix(sizes, |sizes|)
  {
    PrefixGrows(sizes, 0, i);
    PrefixGrows(sizes, i, j);
    PrefixGrows(sizes, j, |sizes|);
  }

  datatype Layout =
    | DivisionByZero
    | Layout(alignedSize: int, chunkSizes: seq<int>)

  lemma RoundedBits(k: int, n: int, c: int, aligned: int, granularity: int)
    requires granularity > 0 && 0 <= k < n && c > 0 && aligned <= n * c < aligned + c
    requires aligned % granularity == 0 && c % granularity == 0
    ensures 0 < aligned - k * c
    ensures k < n - 1 ==> aligned - k * c >= c
    ensures k == n - 1 ==> aligned - k * c <= c
    ensures (aligned - k * c) % granularity == 0
  {
    MultiplesDiffer(aligned, c, k, granularity);
    assert n * c - k * c - c == (n - k - 1) * c;
    AtLeastOnce(n - k - 1, c);
  }

  /**
   The layout computed for an allocation. Dividing by the aligned chunk size is a division by zero exactly
   when rounding the base chunk size up to the granularity wraps around 64 bits. Otherwise the chunks tile
   the aligned size if and only if adding a chunk to it does not wrap.
   */
  method ComputeLayout(size: int, granularity: int, setting: ChunkSetting) returns (r: Layout)
    requires 0 <= size < WORD && 0 < granularity < WORD && ValidSetting(setting)
    ensures r == DivisionByZero <==> MemcreateChunkSize(setting) + granularity - 1 >= WORD
    ensures r.Layout? ==>
              var c := Align(MemcreateChunkSize(setting), granularity);
              && r.alignedSize == Align(size, granularity) && c > 0
              && (Tiles(r.chunkSizes, r.alignedSize, c, granularity) <==> r.alignedSize + c - 1 < WORD)
              && (r.alignedSize + c - 1 >= WORD ==> r.chunkSizes == [])
  {
    var alignedSize := Align(size, granularity);
    var baseChunk := MemcreateChunkSize(setting);
    var alignedChunk := Align(baseChunk, granularity);
    AlignExact(size, granularity);
    AlignExact(baseChunk, granularity);
    if alignedChunk == 0 {
      return DivisionByZero;
    }
    var numChunks := CeilDiv(alignedSize, alignedChunk);
    CeilDivExact(alignedSize, alignedChunk);
    hide Tiles, Align, CeilDiv, MemcreateChunkSize;
    var chunkSizes := CutIntoChunks(alignedSize, alignedChunk, numChunks, granularity);
    NoChunks(chunkSizes, alignedSize, alignedChunk, granularity);
    r := Layout(alignedSize, chunkSizes);
  }

  lemma NoChunks(sizes: seq<int>, total: int, c: int, granularity: int)
    requires granularity > 0
    ensures sizes == [] ==> (Tiles(sizes, total, c, granularity) <==> total == 0)
  {
  }

  /** The loop over the chunks: each gets what is left, but no more than a chunk. */
  method CutIntoChunks(alignedSize: int, alignedChunk: int, numChunks: nat, granularity: int) returns (sizes: seq<int>)
    requires granularity > 0 && alignedChunk > 0 && alignedSize % granularity == 0 && alignedChunk % granularity == 0
    requires numChunks > 0 ==> alignedSize <= numChunks * alignedChunk < alignedSize + alignedChunk
    ensures |sizes| == numChunks && (numChunks > 0 ==> Tiles(sizes, alignedSize, alignedChunk, granularity))
  {
    var chunkSizes := new int[numChunks];
    hide Covered;
    assert Covered(0, numChunks, alignedSize, alignedChunk) == 0 by { NothingCovered(numChunks, alignedSize, alignedChunk); }
    for i := 0 to numChunks
      invariant forall k | 0 <= k < i :: 0 < chunkSizes[k] <= alignedChunk && chunkSizes[k] % granularity == 0
      invariant forall k | 0 <= k < i && k < numChunks - 1 :: chunkSizes[k] == alignedChunk
      invariant Prefix(chunkSizes[..i], i) == Covered(i, numChunks, alignedSize, alignedChunk)
    {
      var rest := alignedSize - i * alignedChunk;
      chunkSizes[i] := if rest < alignedChunk then rest else alignedChunk;
      ChunkIs(i, numChunks, alignedChunk, alignedSize, granularity, chunkSizes[i]);
      PrefixSnoc(chunkSizes[..i], chunkSizes[i]);
      assert chunkSizes[..i + 1] == chunkSizes[..i] + [chunkSizes[i]];
    }
    assert chunkSizes[..numChunks] == chunkSizes[..];
    sizes := chunkSizes[..];
    AllCovered(numChunks, alignedSize, alignedChunk);
  }

  /** How much of the range the first i of n chunks cover. */
  function Covered(i: nat, n: nat, aligned: int, c: int): int {
    if i == n && i > 0 then aligned else i * c
  }

  lemma NothingCovered(n: nat, aligned: int, c: int)
    ensures Covered(0, n, aligned, c) == 0
  {
  }

  lemma AllCovered(n: nat, aligned: int, c: int)
    ensures n > 0 ==> Covered(n, n, aligned, c) == aligned
  {
  }

  lemma ChunkIs(i: nat, n: nat, c: int, aligned: int, granularity: int, size: int)
    requires granularity > 0 && i < n && c > 0 && aligned <= n * c < aligned + c
    requires aligned % granularity == 0 && c % granularity == 0
    requires var rest := aligned - i * c; size == if rest < c then rest else c
    ensures 0 < size <= c && size % granularity == 0 && (i < n - 1 ==> size == c)
    ensures Covered(i, n, aligned, c) + size == Covered(i + 1, n, aligned, c)
  {
    RoundedBits(i, n, c, aligned, granularity);
    assert (i + 1) * c == i * c + c;
  }

  /** A chunk size of 2^44 - 1 megabytes wraps to zero at a granularity of two megabytes. */
  lemma ChunkSizeWraps()
    ensures Align(MemcreateChunkSize(Megabytes(0xFFF_FFFF_FFFF)), 2 * MB) == 0
  {
    CeilDivExact(0xFFF_FFFF_FFFF * MB, 2 * MB);
  }

  /** With one megabyte less the chunk size is right, and an allocation of four megabytes gets no chunk. */
  lemma ChunkCountWraps()
    ensures var c := Align(MemcreateChunkSize(Megabytes(0xFFF_FFFF_FFFE)), 2 * MB);
            c == 0xFFF_FFFF_FFFE * MB && Align(4 * MB, 2 * MB) == 4 * MB && CeilDiv(4 * MB, c) == 0
  {
  }

  lemma {:induction false} PrefixSame(a: seq<int>, b: seq<int>, i: nat)
    requires i <= |a| && i <= |b| && a[..i] == b[..i]
    ensures Prefix(a, i) == Prefix(b, i)
  {
    if i > 0 {
      assert a[i - 1] == a[..i][i - 1] == b[..i][i - 1];
      assert a[..i - 1] == a[..i][..i - 1] == b[..i][..i - 1];
      PrefixSame(a, b, i - 1);
    }
  }

  lemma PrefixSnoc(sizes: seq<int>, size: int)
    ensures Prefix(sizes + [size], |sizes| + 1) == Prefix(sizes, |sizes|) + size
  {
    PrefixSame(sizes + [size], sizes, |sizes|);
  }
}
