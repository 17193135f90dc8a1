/**
 * How `prepare_images` splits the pre-sized feature vector with
 * `chunks_mut(chunk_size)` and how each worker finds the image for each
 * slot of its chunk.
 */
module Chunking {
  import opened Wrappers

  /** The chunk size used when none was configured: one slot per worker. */
  const DefaultChunkSize: nat := 1

  /** `self.chunks.unwrap_or(1)`. */
  function ChunkSize(configured: Option<nat>): nat {
    configured.UnwrapOr(DefaultChunkSize)
  }

  /** Number of chunks `chunks_mut(size)` yields for `n` elements: n / size rounded up. */
  function ChunkCount(n: nat, size: nat): nat
    requires size > 0
  {
    (n + size - 1) / size
  }

  /**
   * Length of the chunk starting at `lo`: `size`, except that the last one
   * takes what is left.
   */
  function ChunkLen(n: nat, size: nat, lo: nat): (len: nat)
    requires size > 0
    ensures len <= size
    ensures lo < n ==> 0 < len && lo + len <= n
  {
    if lo >= n then 0
    else if n - lo < size then n - lo
    else size
  }

  /** The slices `chunks_mut(size)` yields, as values. */
  function ChunksMut<T>(s: seq<T>, size: nat): (chunks: seq<seq<T>>)
    requires size > 0
    ensures |chunks| == ChunkCount(|s|, size)
    ensures forall k :: 0 <= k < |chunks| ==> |chunks[k]| == ChunkLen(|s|, size, k * size)
    decreases |s|
  {
    if |s| == 0 then []
    else if |s| <= size then
      assert ChunkCount(|s|, size) == 1 by { DivOne(|s|, size); }
      [s]
    else
      var rest := ChunksMut(s[size..], size);
      ChunkCountStep(|s|, size);
      forall k | 1 <= k < |rest| + 1
        ensures ChunkLen(|s| - size, size, (k - 1) * size) == ChunkLen(|s|, size, k * size)
      {
        assert (k - 1) * size == k * size - size;
      }
      [s[..size]] + rest
  }

  /** Concatenation of a sequence of chunks. */
  function Flatten<T>(chunks: seq<seq<T>>): seq<T> {
    if |chunks| == 0 then [] else chunks[0] + Flatten(chunks[1..])
  }

  /** `f` maps every chunk to a result of the chunk's own length. */
  ghost predicate KeepsLength<T(!new), U>(f: seq<T> -> seq<U>) {
    forall p: seq<T> :: |f(p)| == |p|
  }

  /**
   * One worker per chunk: `f` applied to each slice `chunks_mut(size)`
   * yields, the results laid end to end.
   */
  function MapChunks<T, U>(s: seq<T>, size: nat, f: seq<T> -> seq<U>): seq<U>
    requires size > 0
    decreases |s|
  {
    if |s| <= size then f(s) else f(s[..size]) + MapChunks(s[size..], size, f)
  }

  lemma {:induction false} MapChunksLength<T(!new), U>(s: seq<T>, size: nat, f: seq<T> -> seq<U>)
    requires size > 0 && KeepsLength(f)
    ensures |MapChunks(s, size, f)| == |s|
    decreases |s|
  {
    if |s| > size {
      MapChunksLength(s[size..], size, f);
      assert |f(s[..size])| == size;
    } else {
      assert |f(s)| == |s|;
    }
  }

  /** Laid end to end, the per-chunk results are the results of the slices `ChunksMut` describes. */
  lemma {:induction false} MapChunksFlatten<T(!new), U>(s: seq<T>, size: nat, f: seq<T> -> seq<U>)
    requires size > 0 && KeepsLength(f)
    ensures MapChunks(s, size, f) == Flatten(MapEach(ChunksMut(s, size), f))
    decreases |s|
  {
    var chunks := ChunksMut(s, size);
    if |s| == 0 {
      assert chunks == [];
      assert MapEach(chunks, f) == [];
      assert |f(s)| == 0;
    } else if |s| <= size {
      assert chunks == [s];
    } else {
      MapChunksFlatten(s[size..], size, f);
      assert chunks == [s[..size]] + ChunksMut(s[size..], size);
      assert chunks[1..] == ChunksMut(s[size..], size);
    }
  }

  /** `f` applied to every chunk. */
  function MapEach<T, U>(chunks: seq<seq<T>>, f: seq<T> -> seq<U>): (r: seq<seq<U>>)
    ensures |r| == |chunks|
  {
    if |chunks| == 0 then [] else [f(chunks[0])] + MapEach(chunks[1..], f)
  }

  /** The part of the combined result at chunk `idx` is `f` of that chunk. */
  lemma {:induction false} MapChunksAt<T(!new), U>(s: seq<T>, size: nat, f: seq<T> -> seq<U>, idx: nat)
    requires size > 0 && KeepsLength(f) && idx * size < |s|
    ensures var lo := idx * size;
      var len := ChunkLen(|s|, size, lo);
      && lo + len <= |MapChunks(s, size, f)|
      && MapChunks(s, size, f)[lo..lo + len] == f(s[lo..lo + len])
    decreases idx
  {
    MapChunksLength(s, size, f);
    if idx == 0 {
      assert idx * size == 0;
      MapChunksFirst(s, size, f);
    } else {
      var lo' := (idx - 1) * size;
      MulMono(0, idx - 1, size);
      assert idx * size == lo' + size;
      MapChunksAt(s[size..], size, f, idx - 1);
      MapChunksLength(s[size..], size, f);
      MapChunksLater(s, size, f, lo', ChunkLen(|s|, size, idx * size));
    }
  }

  lemma MapChunksFirst<T(!new), U>(s: seq<T>, size: nat, f: seq<T> -> seq<U>)
    requires size > 0 && KeepsLength(f) && |s| > 0
    ensures var len := ChunkLen(|s|, size, 0);
      MapChunks(s, size, f)[0..len] == f(s[0..len])
  {
    if |s| <= size {
      assert s[0..|s|] == s;
      assert |f(s)| == |s|;
    } else {
      var first := f(s[..size]);
      assert |first| == size;
      assert s[0..size] == s[..size];
    }
  }

  /** A later chunk is the chunk one step earlier once the first chunk is removed. */
  lemma MapChunksLater<T(!new), U>(s: seq<T>, size: nat, f: seq<T> -> seq<U>, lo': nat, len: nat)
    requires size > 0 && KeepsLength(f) && size < |s| && lo' + len <= |s| - size
    requires |MapChunks(s[size..], size, f)| == |s| - size
    requires MapChunks(s[size..], size, f)[lo'..lo' + len] == f(s[size..][lo'..lo' + len])
    ensures |MapChunks(s, size, f)| == |s|
    ensures MapChunks(s, size, f)[size + lo'..size + lo' + len] == f(s[size + lo'..size + lo' + len])
  {
    var first := f(s[..size]);
    assert |first| == size;
    assert MapChunks(s, size, f) == first + MapChunks(s[size..], size, f);
    DropSlice(s, size, lo', len);
    SliceAfter(first, MapChunks(s[size..], size, f), lo', lo' + len);
  }

  /** Slicing the rest after `size` elements is slicing the whole further on. */
  lemma DropSlice<T>(s: seq<T>, size: nat, lo: nat, len: nat)
    requires size + lo + len <= |s|
    ensures s[size..][lo..lo + len] == s[size + lo..size + lo + len]
  {
  }

  /** Slicing past a prefix of length `|a|` slices the rest. */
  lemma SliceAfter<T>(a: seq<T>, b: seq<T>, lo: nat, hi: nat)
    requires lo <= hi <= |b|
    ensures (a + b)[|a| + lo..|a| + hi] == b[lo..hi]
  {
  }

  /** Where `prepare_images` reads image number `iidx` of chunk `idx`. */
  function Counter(idx: nat, iidx: nat, size: nat): nat {
    if idx > 0 then idx * size + iidx else iidx
  }

  lemma MulMono(a: int, b: int, size: nat)
    requires a <= b
    ensures a * size <= b * size
  {
  }

  /** Integer division is determined by quotient and remainder. */
  lemma DivUnique(x: nat, size: nat, q: nat, r: nat)
    requires 0 <= r < size && x == q * size + r
    ensures x / size == q
  {
    var q', r' := x / size, x % size;
    assert q' * size + r' == x;
    if q' < q {
      assert (q' + 1) * size == q' * size + size;
      MulMono(q' + 1, q, size);
    } else if q' > q {
      assert (q + 1) * size == q * size + size;
      MulMono(q + 1, q', size);
    }
  }

  lemma DivOne(n: nat, size: nat)
    requires 0 < n <= size
    ensures (n + size - 1) / size == 1
  {
    DivUnique(n + size - 1, size, 1, n - 1);
  }

  lemma ChunkCountStep(n: nat, size: nat)
    requires 0 < size < n
    ensures ChunkCount(n, size) == ChunkCount(n - size, size) + 1
  {
    var m := n - 1;
    var q, r := m / size, m % size;
    assert m == q * size + r;
    DivUnique(n - size + size - 1, size, q, r);
    assert n + size - 1 == (q + 1) * size + r;
    DivUnique(n + size - 1, size, q + 1, r);
  }

  /** Chunk `idx` exists exactly when it starts before the end. */
  lemma {:induction false} ChunkExists(n: nat, size: nat, idx: nat)
    requires size > 0
    ensures idx < ChunkCount(n, size) <==> idx * size < n
  {
    var c := ChunkCount(n, size);
    assert c * size <= n + size - 1 < (c + 1) * size;
    if idx < c {
      MulMono(idx, c - 1, size);
      assert (c - 1) * size == c * size - size;
    } else {
      MulMono(c, idx, size);
    }
  }

  /**
   * The chunks tile the vector: they are non-empty, contiguous, only the
   * last may be shorter than `size`, and the last one ends at `n`.
   */
  lemma ChunkLayout(n: nat, size: nat, idx: nat)
    requires size > 0 && idx < ChunkCount(n, size)
    ensures 0 < ChunkLen(n, size, idx * size) <= size
    ensures idx * size + ChunkLen(n, size, idx * size) <= n
    ensures idx + 1 < ChunkCount(n, size) ==> ChunkLen(n, size, idx * size) == size
    ensures idx + 1 == ChunkCount(n, size) ==> idx * size + ChunkLen(n, size, idx * size) == n
  {
    ChunkExists(n, size, idx);
    ChunkExists(n, size, idx + 1);
    assert (idx + 1) * size == idx * size + size;
  }

  /** Where the chunk after chunk `idx` starts: one chunk size further, or at the end after the last chunk. */
  lemma NextChunk(n: nat, size: nat, idx: nat)
    requires size > 0 && idx < ChunkCount(n, size)
    ensures idx * size < n
    ensures var next := idx * size + ChunkLen(n, size, idx * size);
      && (idx + 1 < ChunkCount(n, size) ==> next == (idx + 1) * size)
      && (idx + 1 == ChunkCount(n, size) ==> next == n)
  {
    ChunkLayout(n, size, idx);
    assert (idx + 1) * size == idx * size + size;
  }

  /**
   * Every position `i < n` lies in exactly one chunk: chunk `i / size`, at
   * offset `i % size`.
   */
  lemma {:induction false} ChunkOfIndex(n: nat, size: nat, i: nat, idx: nat, iidx: nat)
    requires size > 0 && i < n
    ensures i / size < ChunkCount(n, size) && i % size < ChunkLen(n, size, i / size * size)
    ensures iidx < ChunkLen(n, size, idx * size) && idx * size + iidx == i
        <==> idx == i / size && iidx == i % size
  {
    var q, r := i / size, i % size;
    assert q * size + r == i;
    ChunkExists(n, size, q);
    if iidx < ChunkLen(n, size, idx * size) && idx * size + iidx == i {
      DivUnique(i, size, idx, iidx);
    }
  }

  /** The chunk holding position `i`, and the offset of `i` in it. */
  lemma ChunkOf(n: nat, size: nat, i: nat) returns (idx: nat, iidx: nat)
    requires size > 0 && i < n
    ensures idx * size + iidx == i && idx * size < n && iidx < ChunkLen(n, size, idx * size)
  {
    idx, iidx := i / size, i % size;
    ChunkOfIndex(n, size, i, idx, iidx);
  }

  /**
   * Element `iidx` of chunk `idx` is the vector's element `idx * size + iidx`:
   * what a worker writes through its slice lands at that global index.
   */
  lemma {:induction false} ChunkElement<T>(s: seq<T>, size: nat, idx: nat, iidx: nat)
    requires size > 0
    requires idx < |ChunksMut(s, size)| && iidx < |ChunksMut(s, size)[idx]|
    ensures idx * size + iidx < |s|
    ensures ChunksMut(s, size)[idx][iidx] == s[idx * size + iidx]
    decreases |s|
  {
    var chunks := ChunksMut(s, size);
    if |s| <= size {
      assert chunks == [s] && idx == 0;
    } else {
      var rest := s[size..];
      assert chunks == [s[..size]] + ChunksMut(rest, size);
      if idx > 0 {
        assert chunks[idx] == ChunksMut(rest, size)[idx - 1];
        ChunkElement(rest, size, idx - 1, iidx);
        assert (idx - 1) * size + size == idx * size;
      }
    }
  }

  /** Laid end to end, the chunks give back the vector: they cover it, in order, without overlap. */
  lemma {:induction false} ChunksCover<T>(s: seq<T>, size: nat)
    requires size > 0
    ensures Flatten(ChunksMut(s, size)) == s
    decreases |s|
  {
    if |s| > size {
      ChunksCover(s[size..], size);
      assert ChunksMut(s, size)[1..] == ChunksMut(s[size..], size);
      assert s == s[..size] + s[size..];
    }
  }

  /**
   * The image index a worker computes, with its special case for the first
   * chunk, is the global index of the slot it fills: slot `i` is always
   * filled from image `i`, whatever the chunk size.
   */
  lemma {:induction false} CounterMatchesSlot<T>(s: seq<T>, size: nat, idx: nat, iidx: nat)
    requires size > 0
    requires idx < |ChunksMut(s, size)| && iidx < |ChunksMut(s, size)[idx]|
    ensures Counter(idx, iidx, size) == idx * size + iidx
    ensures Counter(idx, iidx, size) < |s|
    ensures ChunksMut(s, size)[idx][iidx] == s[Counter(idx, iidx, size)]
  {
    ChunkElement(s, size, idx, iidx);
  }
}
