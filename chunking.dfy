/** The arithmetic of a chunked upload (src-tauri/src/file_upload.rs):
    how many chunks a file of a given size has, where each chunk lies in the
    preallocated file and how long it must be, and what writing a chunk does
    to the file's bytes.  The reassembly theorem at the end says that once
    every chunk has been written, in whatever order, the file is the
    concatenation of the chunks in index order. */
module Chunking {

  /** Largest accepted upload, `MAX_FILE_SIZE` (100 MiB). */
  const MaxFileSize: nat := 100 * 1024 * 1024

  /** `(size + chunk_size - 1) / chunk_size`, evaluated without overflow. */
  function ExpectedChunks(size: nat, chunkSize: nat): nat
    requires chunkSize > 0
  {
    (size + chunkSize - 1) / chunkSize
  }

  /** The chunk count is the ceiling of size / chunkSize: the smallest n
      whose n chunks cover `size` bytes. */
  lemma ExpectedChunksIsCeiling(size: nat, chunkSize: nat)
    requires chunkSize > 0
    ensures ExpectedChunks(size, chunkSize) * chunkSize >= size
    ensures ExpectedChunks(size, chunkSize) > 0 ==> (ExpectedChunks(size, chunkSize) - 1) * chunkSize < size
    ensures ExpectedChunks(size, chunkSize) == 0 <==> size == 0
  {
    var n := size + chunkSize - 1;
    var q := n / chunkSize;
    var m := n % chunkSize;
    assert n == q * chunkSize + m && 0 <= m < chunkSize;
    assert (q - 1) * chunkSize == q * chunkSize - chunkSize;
  }

  /** Any count n with (n - 1) * chunkSize < size <= n * chunkSize is the
      expected one, so a caller's `total_chunks` is accepted exactly when
      it is that ceiling. */
  lemma ExpectedChunksUnique(size: nat, chunkSize: nat, n: nat)
    requires chunkSize > 0
    requires n * chunkSize >= size
    requires n > 0 ==> (n - 1) * chunkSize < size
    ensures n == ExpectedChunks(size, chunkSize)
  {
    var e := ExpectedChunks(size, chunkSize);
    ExpectedChunksIsCeiling(size, chunkSize);
    if n < e {
      MulMono(n, e - 1, chunkSize);
    } else if e < n {
      MulMono(e, n - 1, chunkSize);
    }
  }

  lemma MulMono(a: nat, b: nat, c: nat)
    requires a <= b
    ensures a * c <= b * c
  {
  }

  /** Byte offset of chunk `index`: `chunk_index * chunk_size`. */
  function ChunkOffset(chunkSize: nat, index: nat): nat
  {
    index * chunkSize
  }

  /** The payload length `upload_chunk` demands for chunk `index`: the
      remainder `size - chunk_size * (total_chunks - 1)` for the last chunk,
      `chunk_size` for every other. */
  function ChunkLen(size: nat, chunkSize: nat, index: nat): (len: int)
    requires chunkSize > 0
  {
    if index + 1 == ExpectedChunks(size, chunkSize) then
      size - chunkSize * (ExpectedChunks(size, chunkSize) - 1)
    else
      chunkSize
  }

  /** Every chunk of a valid session has a length in [1, chunkSize] and
      lies inside the file; the last one ends exactly at `size`. */
  lemma ChunkWithinFile(size: nat, chunkSize: nat, index: nat)
    requires chunkSize > 0
    requires index < ExpectedChunks(size, chunkSize)
    ensures 1 <= ChunkLen(size, chunkSize, index) <= chunkSize
    ensures ChunkOffset(chunkSize, index) + ChunkLen(size, chunkSize, index) <= size
    ensures index + 1 == ExpectedChunks(size, chunkSize) ==>
      ChunkOffset(chunkSize, index) + ChunkLen(size, chunkSize, index) == size
    ensures index + 1 < ExpectedChunks(size, chunkSize) ==>
      ChunkOffset(chunkSize, index) + ChunkLen(size, chunkSize, index) == ChunkOffset(chunkSize, index + 1)
  {
    var e := ExpectedChunks(size, chunkSize);
    ExpectedChunksIsCeiling(size, chunkSize);
    assert chunkSize * (e - 1) == (e - 1) * chunkSize;
    if index + 1 < e {
      MulMono(index + 1, e - 1, chunkSize);
      assert (index + 1) * chunkSize == index * chunkSize + chunkSize;
    } else {
      assert index == e - 1;
    }
  }

  /** Chunks occupy pairwise disjoint byte ranges. */
  lemma ChunksDisjoint(size: nat, chunkSize: nat, i: nat, j: nat)
    requires chunkSize > 0
    requires i < j < ExpectedChunks(size, chunkSize)
    ensures ChunkOffset(chunkSize, i) + ChunkLen(size, chunkSize, i) <= ChunkOffset(chunkSize, j)
  {
    ChunkWithinFile(size, chunkSize, i);
    MulMono(i + 1, j, chunkSize);
    assert (i + 1) * chunkSize == i * chunkSize + chunkSize;
  }

  /** A file of `n` zero bytes: what `set_len` leaves in a fresh file. */
  function Zeros(n: nat): (z: seq<bv8>)
    ensures |z| == n && forall k :: 0 <= k < n ==> z[k] == 0
  {
    seq(n, _ => 0)
  }

  /** Writing `payload` at `offset` (seek, then `write_all`). */
  function Splice(file: seq<bv8>, offset: nat, payload: seq<bv8>): (r: seq<bv8>)
    requires offset + |payload| <= |file|
    ensures |r| == |file|
    ensures r[offset..offset + |payload|] == payload
    ensures forall k :: 0 <= k < |file| && !(offset <= k < offset + |payload|) ==> r[k] == file[k]
  {
    file[..offset] + payload + file[offset + |payload|..]
  }

  /** Two writes to disjoint ranges can be done in either order. */
  lemma SpliceCommutes(file: seq<bv8>, a: nat, p: seq<bv8>, b: nat, q: seq<bv8>)
    requires a + |p| <= b && b + |q| <= |file|
    ensures Splice(Splice(file, a, p), b, q) == Splice(Splice(file, b, q), a, p)
  {
    var x := Splice(Splice(file, a, p), b, q);
    var y := Splice(Splice(file, b, q), a, p);
    assert forall k :: 0 <= k < |file| ==> x[k] == y[k] by {
      forall k | 0 <= k < |file| ensures x[k] == y[k] {
        if a <= k < a + |p| {
          assert x[k] == Splice(file, a, p)[k] == p[k - a];
          assert y[a..a + |p|] == p;
        } else if b <= k < b + |q| {
          assert y[k] == Splice(file, b, q)[k] == q[k - b];
          assert x[b..b + |q|] == q;
        }
      }
    }
  }

  /** A chunk-indexed payload map covers indices 0 .. n-1. */
  predicate Covers(chunks: map<nat, seq<bv8>>, n: nat)
  {
    forall i: nat :: i < n ==> i in chunks
  }

  /** The payloads of chunks 0 .. n-1 concatenated in index order. */
  function Concat(chunks: map<nat, seq<bv8>>, n: nat): seq<bv8>
    requires Covers(chunks, n)
  {
    if n == 0 then [] else Concat(chunks, n - 1) + chunks[n - 1]
  }

  /** `payload` is an acceptable chunk `index` of a `size`-byte upload. */
  predicate FitsChunk(size: nat, chunkSize: nat, index: nat, payload: seq<bv8>)
    requires chunkSize > 0
  {
    index < ExpectedChunks(size, chunkSize) && |payload| == ChunkLen(size, chunkSize, index)
  }

  /** `file` carries `payload` at the place of chunk `index`. */
  predicate HoldsChunk(file: seq<bv8>, chunkSize: nat, index: nat, payload: seq<bv8>)
  {
    && ChunkOffset(chunkSize, index) + |payload| <= |file|
    && file[ChunkOffset(chunkSize, index)..ChunkOffset(chunkSize, index) + |payload|] == payload
  }

  /** `file` is `size` bytes long and holds, at the place of every chunk
      recorded in `chunks`, that chunk's payload, which has the length its
      index demands. */
  predicate Holds(file: seq<bv8>, size: nat, chunkSize: nat, chunks: map<nat, seq<bv8>>)
    requires chunkSize > 0
  {
    && |file| == size
    && forall i :: i in chunks ==> FitsChunk(size, chunkSize, i, chunks[i]) && HoldsChunk(file, chunkSize, i, chunks[i])
  }

  /** Chunk i is the slice of `file` between bounds[i] and bounds[i + 1]. */
  predicate SliceAt(file: seq<bv8>, chunks: map<nat, seq<bv8>>, bounds: seq<nat>, i: nat)
  {
    && i + 1 < |bounds| && i in chunks && bounds[i] <= bounds[i + 1] <= |file|
    && chunks[i] == file[bounds[i]..bounds[i + 1]]
  }

  /** Chunks 0 .. k-1 are the consecutive slices of `file` between the
      bounds 0 = bounds[0] <= bounds[1] <= ... <= bounds[k]. */
  predicate Slices(file: seq<bv8>, chunks: map<nat, seq<bv8>>, bounds: seq<nat>, k: nat)
  {
    && k < |bounds| && bounds[0] == 0
    && forall i: nat :: i < k ==> SliceAt(file, chunks, bounds, i)
  }

  /** Consecutive slices, concatenated in order, are the prefix up to the
      last bound. */
  lemma {:induction false} ConcatSlices(file: seq<bv8>, chunks: map<nat, seq<bv8>>, bounds: seq<nat>, k: nat)
    requires Slices(file, chunks, bounds, k)
    ensures Covers(chunks, k) && bounds[k] <= |file|
    ensures Concat(chunks, k) == file[..bounds[k]]
  {
    if k > 0 {
      assert Slices(file, chunks, bounds, k - 1);
      ConcatSlices(file, chunks, bounds, k - 1);
      assert SliceAt(file, chunks, bounds, k - 1);
      assert file[..bounds[k - 1]] + file[bounds[k - 1]..bounds[k]] == file[..bounds[k]];
    }
  }

  /** Where chunk i starts in a `size`-byte file; `size` itself past the
      last chunk. */
  function ChunkBound(size: nat, chunkSize: nat, i: int): nat
    requires chunkSize > 0
  {
    if 0 <= i < ExpectedChunks(size, chunkSize) then ChunkOffset(chunkSize, i) else size
  }

  /** A file holding every chunk below the count is cut by the chunk
      offsets into exactly those chunks. */
  lemma ChunksAreSlices(file: seq<bv8>, size: nat, chunkSize: nat, chunks: map<nat, seq<bv8>>)
    requires chunkSize > 0
    requires Holds(file, size, chunkSize, chunks)
    requires Covers(chunks, ExpectedChunks(size, chunkSize))
    ensures Slices(file, chunks, seq(ExpectedChunks(size, chunkSize) + 1, i => ChunkBound(size, chunkSize, i)),
                   ExpectedChunks(size, chunkSize))
  {
    var e := ExpectedChunks(size, chunkSize);
    var bounds := seq(e + 1, i => ChunkBound(size, chunkSize, i));
    ExpectedChunksIsCeiling(size, chunkSize);
    forall i: nat | i < e
      ensures SliceAt(file, chunks, bounds, i)
    {
      ChunkWithinFile(size, chunkSize, i);
      assert FitsChunk(size, chunkSize, i, chunks[i]) && HoldsChunk(file, chunkSize, i, chunks[i]);
    }
  }

  /** Reassembly: when every chunk index below the chunk count is recorded,
      the file equals the concatenation of the chunks in index order. */
  lemma Reassembled(file: seq<bv8>, size: nat, chunkSize: nat, chunks: map<nat, seq<bv8>>)
    requires chunkSize > 0
    requires Holds(file, size, chunkSize, chunks)
    requires Covers(chunks, ExpectedChunks(size, chunkSize))
    ensures Concat(chunks, ExpectedChunks(size, chunkSize)) == file
  {
    var e := ExpectedChunks(size, chunkSize);
    ChunksAreSlices(file, size, chunkSize, chunks);
    var bounds := seq(e + 1, i => ChunkBound(size, chunkSize, i));
    ConcatSlices(file, chunks, bounds, e);
    assert bounds[e] == size;
  }

  /** Writing a new chunk of the right length keeps every chunk already
      recorded in place and records the new one. */
  lemma SpliceKeepsHolds(file: seq<bv8>, size: nat, chunkSize: nat, chunks: map<nat, seq<bv8>>,
                         index: nat, payload: seq<bv8>)
    requires chunkSize > 0
    requires Holds(file, size, chunkSize, chunks)
    requires index !in chunks && FitsChunk(size, chunkSize, index, payload)
    ensures ChunkOffset(chunkSize, index) + |payload| <= |file|
    ensures Holds(Splice(file, ChunkOffset(chunkSize, index), payload), size, chunkSize, chunks[index := payload])
  {
    ChunkWithinFile(size, chunkSize, index);
    var off := ChunkOffset(chunkSize, index);
    var f := Splice(file, off, payload);
    var c := chunks[index := payload];
    forall i | i in c
      ensures FitsChunk(size, chunkSize, i, c[i]) && HoldsChunk(f, chunkSize, i, c[i])
    {
      if i != index {
        assert FitsChunk(size, chunkSize, i, chunks[i]) && HoldsChunk(file, chunkSize, i, chunks[i]);
        SpliceElsewhere(file, size, chunkSize, index, payload, i, chunks[i]);
      }
    }
  }

  /** A chunk write leaves every other chunk's bytes as they were. */
  lemma SpliceElsewhere(file: seq<bv8>, size: nat, chunkSize: nat, index: nat, payload: seq<bv8>,
                        i: nat, q: seq<bv8>)
    requires chunkSize > 0 && |file| == size && i != index
    requires FitsChunk(size, chunkSize, index, payload) && FitsChunk(size, chunkSize, i, q)
    requires HoldsChunk(file, chunkSize, i, q)
    ensures ChunkOffset(chunkSize, index) + |payload| <= |file|
    ensures HoldsChunk(Splice(file, ChunkOffset(chunkSize, index), payload), chunkSize, i, q)
  {
    ChunkWithinFile(size, chunkSize, index);
    var f := Splice(file, ChunkOffset(chunkSize, index), payload);
    var o := ChunkOffset(chunkSize, i);
    if i < index {
      ChunksDisjoint(size, chunkSize, i, index);
    } else {
      ChunksDisjoint(size, chunkSize, index, i);
    }
    assert forall k :: o <= k < o + |q| ==> f[k] == file[k];
    assert f[o..o + |q|] == file[o..o + |q|];
  }

  /** Applies chunk writes in the order given. */
  function WriteAll(file: seq<bv8>, chunkSize: nat, writes: seq<(nat, seq<bv8>)>): seq<bv8>
  {
    if writes == [] then file
    else
      var w := writes[|writes| - 1];
      var before := WriteAll(file, chunkSize, writes[..|writes| - 1]);
      if ChunkOffset(chunkSize, w.0) + |w.1| <= |before| then Splice(before, ChunkOffset(chunkSize, w.0), w.1)
      else before
  }

  /** The payload map a list of writes (with distinct indices) records. */
  function Recorded(writes: seq<(nat, seq<bv8>)>): map<nat, seq<bv8>>
  {
    if writes == [] then map[]
    else Recorded(writes[..|writes| - 1])[writes[|writes| - 1].0 := writes[|writes| - 1].1]
  }

  predicate DistinctIndices(writes: seq<(nat, seq<bv8>)>)
  {
    forall a, b :: 0 <= a < b < |writes| ==> writes[a].0 != writes[b].0
  }

  /** The chunk indices a list of writes touches. */
  function Indices(writes: seq<(nat, seq<bv8>)>): set<nat>
  {
    set a | 0 <= a < |writes| :: writes[a].0
  }

  predicate AllFit(size: nat, chunkSize: nat, writes: seq<(nat, seq<bv8>)>)
    requires chunkSize > 0
  {
    forall a :: 0 <= a < |writes| ==> FitsChunk(size, chunkSize, writes[a].0, writes[a].1)
  }

  /** Every write of a list that carries one valid chunk per index leaves
      the file holding all of them. */
  lemma {:induction false} WriteAllHolds(size: nat, chunkSize: nat, writes: seq<(nat, seq<bv8>)>)
    requires chunkSize > 0
    requires DistinctIndices(writes) && AllFit(size, chunkSize, writes)
    ensures Holds(WriteAll(Zeros(size), chunkSize, writes), size, chunkSize, Recorded(writes))
    ensures Recorded(writes).Keys == Indices(writes)
  {
    if writes != [] {
      var init := writes[..|writes| - 1];
      var w := writes[|writes| - 1];
      assert DistinctIndices(init) && AllFit(size, chunkSize, init);
      WriteAllHolds(size, chunkSize, init);
      assert w.0 !in Recorded(init);
      assert FitsChunk(size, chunkSize, w.0, w.1);
      var before := WriteAll(Zeros(size), chunkSize, init);
      SpliceKeepsHolds(before, size, chunkSize, Recorded(init), w.0, w.1);
      assert WriteAll(Zeros(size), chunkSize, writes) == Splice(before, ChunkOffset(chunkSize, w.0), w.1);
      assert Indices(writes) == Indices(init) + {w.0} by {
        forall x | x in Indices(writes) ensures x in Indices(init) + {w.0} {
          var a :| 0 <= a < |writes| && writes[a].0 == x;
          if a < |init| { assert init[a].0 == x; }
        }
        forall x | x in Indices(init) ensures x in Indices(writes) {
          var a :| 0 <= a < |init| && init[a].0 == x;
          assert writes[a].0 == x;
        }
      }
    }
  }

  /** Reassembly in any order: writing one valid chunk for every index, in
      any order, into a fresh zero-filled file of the declared size yields
      the chunks concatenated in index order. */
  lemma AnyOrderReassembles(size: nat, chunkSize: nat, writes: seq<(nat, seq<bv8>)>)
    requires chunkSize > 0
    requires DistinctIndices(writes) && AllFit(size, chunkSize, writes)
    requires forall i: nat :: i < ExpectedChunks(size, chunkSize) ==> i in Indices(writes)
    ensures Covers(Recorded(writes), ExpectedChunks(size, chunkSize))
    ensures WriteAll(Zeros(size), chunkSize, writes) == Concat(Recorded(writes), ExpectedChunks(size, chunkSize))
  {
    WriteAllHolds(size, chunkSize, writes);
    Reassembled(WriteAll(Zeros(size), chunkSize, writes), size, chunkSize, Recorded(writes));
  }

  // ---- The chunk count as the source computes it, in 64-bit arithmetic ----

  const U64Limit: int := 0x1_0000_0000_0000_0000

  /** `(size + chunk_size - 1) / chunk_size` with u64 wrap-around, as a
      release build evaluates it: the addition wraps modulo 2^64. */
  function ExpectedChunksU64(size: nat, chunkSize: nat): nat
    requires 0 < chunkSize < U64Limit && size < U64Limit
  {
    ((size + chunkSize) % U64Limit + U64Limit - 1) % U64Limit / chunkSize
  }

  /** For every size the source accepts and every chunk size up to the
      largest size, the 64-bit computation is the ceiling. */
  lemma ExpectedChunksU64AgreesBelowLimit(size: nat, chunkSize: nat)
    requires 0 < chunkSize < U64Limit && size < U64Limit
    requires size + chunkSize <= U64Limit
    ensures ExpectedChunksU64(size, chunkSize) == ExpectedChunks(size, chunkSize)
  {
  }

  /** The wrap-around shows for a 4096-byte file with chunk size
      2^64 - 2048: the sum wraps to 2047, the count comes out 0 instead of
      1, and a session with no chunks is accepted for a non-empty file. */
  lemma ExpectedChunksU64Wraps()
    ensures ExpectedChunksU64(4096, U64Limit - 2048) == 0
    ensures ExpectedChunks(4096, U64Limit - 2048) == 1
  {
  }
}
