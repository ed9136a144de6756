// The incremental hasher of rust/crates/blks-core/src/tree.rs and the loop that feeds it from a
// reader, against the digest of the whole message.
module BlksStream {
  import opened Common
  import opened BlksTree

  // How much of an input of more than one chunk is hashed at once.
  function HashableLength(n: nat): (h: nat)
    requires n > CHUNK_SIZE
    ensures h < n <= h + CHUNK_SIZE && h % CHUNK_SIZE == 0
  {
    if n % CHUNK_SIZE == 0 then n - CHUNK_SIZE else n / CHUNK_SIZE * CHUNK_SIZE
  }

  // The 64-bit byte counter is unbounded here.
  class BlksHasher<!D(0)> {
    const compressor: Compressor<D>
    var buffer: seq<Byte>
    var leafHashes: seq<D>
    var totalBytes: nat
    // everything fed so far, and how many of its chunks are hashed
    ghost var fed: seq<Byte>
    ghost var chunks: nat

    // The last chunk, complete or not, waits in the buffer; all chunks before it are hashed.
    ghost predicate Valid()
      reads this
    {
      && totalBytes == |fed|
      && |buffer| <= CHUNK_SIZE
      && (fed != [] ==> buffer != [])
      && Hashed()
    }

    ghost predicate Hashed()
      reads this
    {
      && chunks * CHUNK_SIZE + |buffer| == |fed|
      && leafHashes == Leaves(compressor, fed[..chunks * CHUNK_SIZE])
      && buffer == fed[chunks * CHUNK_SIZE..]
    }

    constructor (c: Compressor<D>)
      ensures Valid() && fed == [] && compressor == c
    {
      compressor := c;
      buffer, leafHashes, totalBytes, fed, chunks := [], [], 0, [], 0;
    }

    // Closes the buffered chunk once more data follows it.
    method HashBuffer()
      requires Hashed() && |buffer| == CHUNK_SIZE
      modifies this`buffer, this`leafHashes, this`chunks
      ensures Hashed() && buffer == []
    {
      LeavesConcat(compressor, fed[..chunks * CHUNK_SIZE], buffer, chunks);
      assert fed == fed[..chunks * CHUNK_SIZE] + buffer;
      leafHashes := leafHashes + [compressor.chunk(buffer, false)];
      buffer, chunks := [], chunks + 1;
      assert fed[..chunks * CHUNK_SIZE] == fed;
    }

    // Appends to the chunk in the buffer.
    method Buffer(part: seq<Byte>)
      requires Hashed() && |buffer| + |part| <= CHUNK_SIZE
      modifies this`buffer, this`fed
      ensures Hashed() && buffer == old(buffer) + part && fed == old(fed) + part
    {
      buffer := buffer + part;
      fed := fed + part;
      assert fed[..chunks * CHUNK_SIZE] == old(fed)[..chunks * CHUNK_SIZE];
    }

    // Hashes whole chunks straight from the input.
    method HashDirectly(part: seq<Byte>)
      requires Hashed() && buffer == [] && |part| % CHUNK_SIZE == 0
      modifies this`leafHashes, this`fed, this`chunks
      ensures Hashed() && fed == old(fed) + part
    {
      ghost var m := |part| / CHUNK_SIZE;
      LeavesConcat(compressor, fed, part, chunks);
      assert fed[..chunks * CHUNK_SIZE] == fed;
      var leaves := HashChunksAccelerated(compressor, part, true);
      leafHashes := leafHashes + leaves;
      fed, chunks := fed + part, chunks + m;
      assert fed[..chunks * CHUNK_SIZE] == fed;
    }

    // First steps of an update: hash a complete chunk that is pending once more data arrives, and
    // fill up a partial one. Either all the data is taken or the buffer is empty.
    method TopUp(data: seq<Byte>) returns (input: seq<Byte>)
      requires Hashed() && |buffer| <= CHUNK_SIZE
      modifies this`buffer, this`leafHashes, this`fed, this`chunks
      ensures Hashed() && |buffer| <= CHUNK_SIZE
      ensures fed + input == old(fed) + data
      ensures buffer == [] || input == []
      ensures buffer == [] ==> old(buffer) == [] || input != []
      ensures old(buffer) == [] ==> input == data && buffer == []
    {
      input := data;
      if |buffer| == CHUNK_SIZE && input != [] {
        HashBuffer();
      }
      if buffer != [] {
        var available := CHUNK_SIZE - |buffer|;
        var toTake := if available <= |input| then available else |input|;
        Buffer(input[..toTake]);
        assert data == data[..toTake] + data[toTake..];
        input := input[toTake..];
        if |buffer| == CHUNK_SIZE && input != [] {
          HashBuffer();
        }
      }
    }

    // Last steps: hash whole chunks, except one that could be the last, and keep the rest.
    method TakeRest(data: seq<Byte>)
      requires Hashed() && buffer == []
      modifies this`buffer, this`leafHashes, this`fed, this`chunks
      ensures Hashed() && |buffer| <= CHUNK_SIZE
      ensures fed == old(fed) + data
      ensures data != [] ==> buffer != []
    {
      var input := data;
      if |input| > CHUNK_SIZE {
        var hashable := HashableLength(|input|);
        if hashable > 0 {
          Associate(fed, data[..hashable], data[hashable..]);
          assert data == data[..hashable] + data[hashable..];
          HashDirectly(input[..hashable]);
          input := input[hashable..];
        }
      }
      if input != [] {
        Buffer(input);
      }
    }

    method Update(data: seq<Byte>)
      requires Valid()
      modifies this
      ensures Valid() && fed == old(fed) + data
    {
      totalBytes := totalBytes + |data|;
      var input := TopUp(data);
      if buffer == [] {
        TakeRest(input);
      }
    }

    // The digest of everything that was fed, however it was cut into pieces.
    method Finalize() returns (digest: D)
      requires Valid()
      modifies this`leafHashes
      ensures digest == Digest(compressor, fed)
    {
      assert fed == fed[..chunks * CHUNK_SIZE] + buffer;
      LeavesConcat(compressor, fed[..chunks * CHUNK_SIZE], buffer, chunks);
      if leafHashes == [] {
        return compressor.chunk(buffer, true);
      }
      if buffer != [] {
        leafHashes := leafHashes + [compressor.chunk(buffer, false)];
      }
      digest := ReduceNodes(compressor, leafHashes, true);
    }
  }

  // The leaves of a slice: four chunks at a time where the processor allows it, then one at a
  // time, then the tail. The vector code hashes each of its four chunks as hash_chunk does.
  method HashChunksAccelerated<D>(c: Compressor<D>, slice: seq<Byte>, avx2: bool) returns (leaves: seq<D>)
    ensures leaves == Leaves(c, slice)
  {
    var fullChunks := |slice| / CHUNK_SIZE;
    leaves := [];
    var i := 0;
    if avx2 {
      while i + 4 <= fullChunks
        invariant i <= fullChunks
        invariant leaves == Leaves(c, slice[..i * CHUNK_SIZE])
      {
        NextFourLeaves(c, slice, i);
        var four := [
          c.chunk(ChunkAt(slice, i), false), c.chunk(ChunkAt(slice, i + 1), false),
          c.chunk(ChunkAt(slice, i + 2), false), c.chunk(ChunkAt(slice, i + 3), false)];
        leaves := leaves + four;
        i := i + 4;
      }
    }
    while i < fullChunks
      invariant i <= fullChunks
      invariant leaves == Leaves(c, slice[..i * CHUNK_SIZE])
    {
      NextLeaf(c, slice, i);
      leaves := leaves + [c.chunk(ChunkAt(slice, i), false)];
      i := i + 1;
    }
    var tail := fullChunks * CHUNK_SIZE;
    assert slice == slice[..tail] + slice[tail..];
    LeavesConcat(c, slice[..tail], slice[tail..], fullChunks);
    if tail < |slice| {
      leaves := leaves + [c.chunk(slice[tail..], false)];
    }
  }

  function ChunkAt(slice: seq<Byte>, i: nat): seq<Byte>
    requires (i + 1) * CHUNK_SIZE <= |slice|
  {
    slice[i * CHUNK_SIZE..(i + 1) * CHUNK_SIZE]
  }

  lemma NextLeaf<D>(c: Compressor<D>, slice: seq<Byte>, i: nat)
    requires (i + 1) * CHUNK_SIZE <= |slice|
    ensures Leaves(c, slice[..(i + 1) * CHUNK_SIZE]) ==
      Leaves(c, slice[..i * CHUNK_SIZE]) + [c.chunk(ChunkAt(slice, i), false)]
  {
    assert slice[..(i + 1) * CHUNK_SIZE] == slice[..i * CHUNK_SIZE] + ChunkAt(slice, i);
    LeavesConcat(c, slice[..i * CHUNK_SIZE], ChunkAt(slice, i), i);
  }

  lemma NextFourLeaves<D>(c: Compressor<D>, slice: seq<Byte>, i: nat)
    requires (i + 4) * CHUNK_SIZE <= |slice|
    ensures Leaves(c, slice[..(i + 4) * CHUNK_SIZE]) == Leaves(c, slice[..i * CHUNK_SIZE]) + [
      c.chunk(ChunkAt(slice, i), false), c.chunk(ChunkAt(slice, i + 1), false),
      c.chunk(ChunkAt(slice, i + 2), false), c.chunk(ChunkAt(slice, i + 3), false)]
  {
    NextLeaf(c, slice, i);
    NextLeaf(c, slice, i + 1);
    NextLeaf(c, slice, i + 2);
    NextLeaf(c, slice, i + 3);
  }

  // The subtrees' roots, one for each slice of SUBTREE_BYTES, the last of which may be shorter.
  method HashSlices<D>(c: Compressor<D>, data: seq<Byte>, avx2: bool) returns (subroots: seq<D>)
    ensures subroots == SliceRoots(c, data)
  {
    var rest := data;
    subroots := [];
    while rest != []
      invariant subroots + SliceRoots(c, rest) == SliceRoots(c, data)
      decreases |rest|
    {
      var n := if |rest| <= SUBTREE_BYTES then |rest| else SUBTREE_BYTES;
      NextSlice(c, rest);
      var leaves := HashChunksAccelerated(c, rest[..n], avx2);
      var root := ReduceNodes(c, leaves, false);
      Associate(subroots, [root], SliceRoots(c, rest[n..]));
      subroots := subroots + [root];
      rest := rest[n..];
    }
    assert subroots + [] == subroots;
  }

  lemma NextSlice<D>(c: Compressor<D>, rest: seq<Byte>)
    requires rest != []
    ensures var n := if |rest| <= SUBTREE_BYTES then |rest| else SUBTREE_BYTES;
      && Leaves(c, rest[..n]) != []
      && SliceRoots(c, rest) == [MerkleRoot(c, Leaves(c, rest[..n]), false)] + SliceRoots(c, rest[n..])
  {
    if |rest| <= SUBTREE_BYTES {
      assert rest[..|rest|] == rest && rest[|rest|..] == [];
    }
  }

  // hash_slice_parallel: a single chunk, few chunks, or slices whose roots are reduced in turn.
  method HashSlice<D>(c: Compressor<D>, data: seq<Byte>, avx2: bool) returns (digest: D)
    ensures digest == Digest(c, data)
  {
    ParallelHashIsDigest(c, data);
    if |data| <= CHUNK_SIZE {
      return c.chunk(data, true);
    }
    if |data| >= SUBTREE_BYTES * 2 {
      var subroots := HashSlices(c, data, avx2);
      digest := ReduceNodes(c, subroots, true);
    } else {
      var leaves := HashChunksAccelerated(c, data, avx2);
      digest := ReduceNodes(c, leaves, true);
    }
  }

  // What a reader delivers up to its end, which it signals by an empty read.
  function Delivered(pieces: seq<seq<Byte>>): seq<Byte> {
    if pieces == [] || pieces[0] == [] then [] else pieces[0] + Delivered(pieces[1..])
  }

  function Joined(pieces: seq<seq<Byte>>): seq<Byte> {
    if pieces == [] then [] else pieces[0] + Joined(pieces[1..])
  }

  // All pieces up to the first empty one, if there is one.
  lemma {:induction false} DeliveredIsJoined(pieces: seq<seq<Byte>>, rest: seq<seq<Byte>>)
    requires forall i :: 0 <= i < |pieces| ==> pieces[i] != []
    ensures Delivered(pieces) == Joined(pieces) && Delivered(pieces + [[]] + rest) == Joined(pieces)
  {
    if pieces != [] {
      assert (pieces + [[]] + rest)[1..] == pieces[1..] + [[]] + rest;
      DeliveredIsJoined(pieces[1..], rest);
    } else {
      assert ([] + [[]] + rest)[0] == [];
    }
  }

  lemma NextPiece(pieces: seq<seq<Byte>>, i: nat)
    requires i < |pieces| && pieces[i] != []
    ensures Delivered(pieces[i..]) == pieces[i] + Delivered(pieces[i + 1..])
  {
    assert pieces[i..][1..] == pieces[i + 1..];
  }

  // hash_reader: feeding a stream piece by piece gives the digest of the whole stream.
  method HashReader<D(0)>(c: Compressor<D>, pieces: seq<seq<Byte>>) returns (digest: D)
    ensures digest == Digest(c, Delivered(pieces))
    ensures digest == HashSliceParallel(c, Delivered(pieces))
  {
    var hasher := new BlksHasher<D>(c);
    var i := 0;
    assert pieces[0..] == pieces;
    while i < |pieces| && pieces[i] != []
      invariant i <= |pieces|
      invariant hasher.Valid() && hasher.compressor == c && fresh(hasher)
      invariant hasher.fed + Delivered(pieces[i..]) == Delivered(pieces)
    {
      NextPiece(pieces, i);
      Associate(hasher.fed, pieces[i], Delivered(pieces[i + 1..]));
      hasher.Update(pieces[i]);
      i := i + 1;
    }
    assert i < |pieces| ==> pieces[i..][0] == [];
    assert hasher.fed + [] == hasher.fed;
    digest := hasher.Finalize();
    ParallelHashIsDigest(c, Delivered(pieces));
  }
}
