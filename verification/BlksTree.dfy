// The BLKS-384 Merkle tree (rust/crates/blks-core/src/tree.rs): level-by-level reduction,
// reduction in parallel subtrees, and the top-down tree both compute. The compression of a chunk
// and of two child digests (rust/crates/blks-core/src/compress.rs) is a parameter: everything
// here holds for any choice of it.
module BlksTree {
  import opened Common
  import opened Powers

  const CHUNK_SIZE: nat := 4096
  const SUBTREE_CHUNKS: nat := 64
  const SUBTREE_BYTES: nat := CHUNK_SIZE * SUBTREE_CHUNKS

  // chunk (bytes, isRoot) is hash_chunk; parent (left, right, isRoot) is compress_parent.
  datatype Compressor<!D> = Compressor(chunk: (seq<Byte>, bool) -> D, parent: (D, D, bool) -> D)

  // ----- the reference: a tree defined from the root down -----

  // The largest power of two below n.
  function Split(n: nat): (k: nat)
    requires n >= 2
    ensures k < n <= 2 * k
  {
    if n == 2 then 1 else 2 * Split((n + 1) / 2)
  }

  lemma {:induction false} SplitIsPowerOfTwo(n: nat) returns (j: nat)
    requires n >= 2
    ensures Split(n) == Pow(2, j)
  {
    if n == 2 {
      j := 0;
    } else {
      j := SplitIsPowerOfTwo((n + 1) / 2);
      j := j + 1;
    }
  }

  // The left subtree is the largest complete one; only the topmost node carries the root flag.
  function MerkleRoot<D>(c: Compressor<D>, leaves: seq<D>, isRoot: bool): D
    requires leaves != []
    decreases |leaves|
  {
    if |leaves| == 1 then leaves[0]
    else
      var k := Split(|leaves|);
      c.parent(MerkleRoot(c, leaves[..k], false), MerkleRoot(c, leaves[k..], false), isRoot)
  }

  function Leaves<D>(c: Compressor<D>, data: seq<Byte>): (leaves: seq<D>)
    ensures data != [] <==> leaves != []
  {
    if data == [] then []
    else if |data| <= CHUNK_SIZE then [c.chunk(data, false)]
    else [c.chunk(data[..CHUNK_SIZE], false)] + Leaves(c, data[CHUNK_SIZE..])
  }

  // The digest of a message. A message of one chunk is its own root.
  function Digest<D>(c: Compressor<D>, data: seq<Byte>): D {
    if |data| <= CHUNK_SIZE then c.chunk(data, true) else MerkleRoot(c, Leaves(c, data), true)
  }

  // ----- reduction level by level -----

  // Neighbours are combined in pairs; a last node without a neighbour moves up as it is.
  function NextLevel<D>(c: Compressor<D>, level: seq<D>, flag: bool): (next: seq<D>)
    ensures |next| == (|level| + 1) / 2
  {
    if |level| <= 1 then level
    else [c.parent(level[0], level[1], flag)] + NextLevel(c, level[2..], flag)
  }

  function Pairs<D>(c: Compressor<D>, level: seq<D>, flag: bool): seq<D> {
    seq(|level| / 2, i requires 0 <= i < |level| / 2 => c.parent(level[2 * i], level[2 * i + 1], flag))
  }

  lemma {:induction false} NextLevelConcat<D>(c: Compressor<D>, a: seq<D>, b: seq<D>, flag: bool)
    requires |a| % 2 == 0
    ensures NextLevel(c, a + b, flag) == NextLevel(c, a, flag) + NextLevel(c, b, flag)
  {
    if a == [] {
      assert a + b == b;
    } else {
      assert (a + b)[2..] == a[2..] + b;
      NextLevelConcat(c, a[2..], b, flag);
    }
  }

  lemma {:induction false} PairsAreNextLevel<D>(c: Compressor<D>, level: seq<D>, flag: bool)
    requires |level| % 2 == 0
    ensures NextLevel(c, level, flag) == Pairs(c, level, flag)
  {
    if level != [] {
      PairsAreNextLevel(c, level[2..], flag);
      assert Pairs(c, level, flag) == [c.parent(level[0], level[1], flag)] + Pairs(c, level[2..], flag);
    }
  }

  // The source's step: take off the node without a neighbour, combine the pairs, put it back.
  lemma PairsAndOrphan<D>(c: Compressor<D>, level: seq<D>, flag: bool)
    ensures NextLevel(c, level, flag) ==
      if |level| % 2 == 1 then Pairs(c, level[..|level| - 1], flag) + [level[|level| - 1]]
      else Pairs(c, level, flag)
  {
    if |level| % 2 == 1 {
      var even, orphan := level[..|level| - 1], level[|level| - 1];
      assert level == even + [orphan];
      NextLevelConcat(c, even, [orphan], flag);
      PairsAreNextLevel(c, even, flag);
    } else {
      PairsAreNextLevel(c, level, flag);
    }
  }

  method ReduceNodes<D>(c: Compressor<D>, nodes: seq<D>, isEntireTreeRoot: bool) returns (root: D)
    requires nodes != []
    ensures root == MerkleRoot(c, nodes, isEntireTreeRoot)
  {
    var current := nodes;
    if |current| == 1 {
      return current[0];
    }
    while |current| > 1
      invariant current != []
      invariant MerkleRoot(c, current, isEntireTreeRoot) == MerkleRoot(c, nodes, isEntireTreeRoot)
      decreases |current|
    {
      var isRootLevel := isEntireTreeRoot && |current| == 2;
      PairsAndOrphan(c, current, isRootLevel);
      LevelKeepsRoot(c, current, isEntireTreeRoot);
      var hasOrphan := |current| % 2 == 1;
      var orphan := current[|current| - 1];
      if hasOrphan {
        current := current[..|current| - 1];
      }
      var next := Pairs(c, current, isRootLevel);
      if hasOrphan {
        next := next + [orphan];
      }
      current := next;
    }
    root := current[0];
  }

  // Reducing one level keeps the root: a level of two nodes is combined with the tree's own flag,
  // a larger level without it.
  lemma {:induction false} LevelKeepsRoot<D>(c: Compressor<D>, level: seq<D>, isRoot: bool)
    requires level != []
    ensures MerkleRoot(c, NextLevel(c, level, isRoot && |level| == 2), isRoot) == MerkleRoot(c, level, isRoot)
    decreases |level|
  {
    var n := |level|;
    if n >= 3 {
      var k := Split(n);
      var left, right := level[..k], level[k..];
      assert level == left + right;
      NextLevelConcat(c, left, right, false);
      LevelKeepsRoot(c, left, false);
      LevelKeepsRoot(c, right, false);
      var next := NextLevel(c, level, false);
      assert Split(|next|) == |NextLevel(c, left, false)| || |next| == 1;
      assert next[..k / 2] == NextLevel(c, left, false);
      assert next[k / 2..] == NextLevel(c, right, false);
    }
  }

  // ----- reduction in subtrees -----

  // j levels of reduction below the root.
  function Levels<D>(c: Compressor<D>, nodes: seq<D>, j: nat): seq<D>
    decreases j
  {
    if j == 0 then nodes else Levels(c, NextLevel(c, nodes, false), j - 1)
  }

  // At most 2^j nodes shrink to the root of their own tree.
  lemma {:induction false} LevelsReachRoot<D>(c: Compressor<D>, nodes: seq<D>, j: nat)
    requires 1 <= |nodes| <= Pow(2, j)
    ensures Levels(c, nodes, j) == [MerkleRoot(c, nodes, false)]
    decreases j
  {
    if j > 0 {
      LevelsReachRoot(c, NextLevel(c, nodes, false), j - 1);
      LevelKeepsRoot(c, nodes, false);
    }
  }

  // A complete block of 2^j nodes is reduced apart from what follows it.
  lemma {:induction false} LevelsConcat<D>(c: Compressor<D>, a: seq<D>, b: seq<D>, j: nat)
    requires |a| == Pow(2, j)
    ensures Levels(c, a + b, j) == Levels(c, a, j) + Levels(c, b, j)
    decreases j
  {
    if j > 0 {
      NextLevelConcat(c, a, b, false);
      LevelsConcat(c, NextLevel(c, a, false), NextLevel(c, b, false), j - 1);
    }
  }

  // More than 2^j nodes can be reduced j levels without meeting the root.
  lemma {:induction false} LevelsKeepRoot<D>(c: Compressor<D>, nodes: seq<D>, j: nat)
    requires |nodes| > Pow(2, j)
    ensures |Levels(c, nodes, j)| >= 2
    ensures MerkleRoot(c, Levels(c, nodes, j), true) == MerkleRoot(c, nodes, true)
    decreases j
  {
    if j > 0 {
      LevelKeepsRoot(c, nodes, true);
      LevelsKeepRoot(c, NextLevel(c, nodes, false), j - 1);
    }
  }

  // The roots of the subtrees over size nodes each; the last may be smaller.
  function Subroots<D>(c: Compressor<D>, nodes: seq<D>, size: nat): (roots: seq<D>)
    requires size > 0
    ensures nodes != [] ==> roots != []
    decreases |nodes|
  {
    if nodes == [] then []
    else if |nodes| <= size then [MerkleRoot(c, nodes, false)]
    else [MerkleRoot(c, nodes[..size], false)] + Subroots(c, nodes[size..], size)
  }

  lemma {:induction false} SubrootsAreLevels<D>(c: Compressor<D>, nodes: seq<D>, j: nat)
    requires nodes != []
    ensures Subroots(c, nodes, Pow(2, j)) == Levels(c, nodes, j)
    decreases |nodes|
  {
    var size := Pow(2, j);
    if |nodes| <= size {
      LevelsReachRoot(c, nodes, j);
    } else {
      assert nodes == nodes[..size] + nodes[size..];
      LevelsConcat(c, nodes[..size], nodes[size..], j);
      LevelsReachRoot(c, nodes[..size], j);
      SubrootsAreLevels(c, nodes[size..], j);
    }
  }

  // Reducing subtrees of 2^j nodes first, without the root flag, and then their roots gives the
  // root of the whole tree whenever there is more than one subtree.
  lemma SubtreesKeepRoot<D>(c: Compressor<D>, nodes: seq<D>, j: nat)
    requires |nodes| > Pow(2, j)
    ensures MerkleRoot(c, Subroots(c, nodes, Pow(2, j)), true) == MerkleRoot(c, nodes, true)
  {
    SubrootsAreLevels(c, nodes, j);
    LevelsKeepRoot(c, nodes, j);
  }

  // The subroots computed by the worker threads, one for each slice of SUBTREE_BYTES.
  function SliceRoots<D>(c: Compressor<D>, data: seq<Byte>): (roots: seq<D>)
    ensures data != [] ==> roots != []
  {
    if data == [] then []
    else if |data| <= SUBTREE_BYTES then [MerkleRoot(c, Leaves(c, data), false)]
    else [MerkleRoot(c, Leaves(c, data[..SUBTREE_BYTES]), false)] + SliceRoots(c, data[SUBTREE_BYTES..])
  }

  function HashSliceParallel<D>(c: Compressor<D>, data: seq<Byte>): D {
    if |data| <= CHUNK_SIZE then c.chunk(data, true)
    else if |data| >= SUBTREE_BYTES * 2 then MerkleRoot(c, SliceRoots(c, data), true)
    else MerkleRoot(c, Leaves(c, data), true)
  }

  // Whole chunks can be cut off the front of a message.
  lemma {:induction false} LeavesConcat<D>(c: Compressor<D>, a: seq<Byte>, b: seq<Byte>, n: nat)
    requires |a| == n * CHUNK_SIZE
    ensures Leaves(c, a + b) == Leaves(c, a) + Leaves(c, b)
    ensures |Leaves(c, a)| == n
    decreases n
  {
    if n == 0 {
      assert a + b == b;
    } else {
      var first, rest := a[..CHUNK_SIZE], a[CHUNK_SIZE..];
      LeavesConcat(c, rest, b, n - 1);
      assert (a + b)[..CHUNK_SIZE] == first && (a + b)[CHUNK_SIZE..] == rest + b;
      if rest == [] {
        assert a == first;
        if b == [] {
          assert a + b == a;
        }
      }
    }
  }

  lemma {:induction false} LeafCount<D>(c: Compressor<D>, data: seq<Byte>)
    ensures |Leaves(c, data)| * CHUNK_SIZE >= |data|
    ensures data != [] ==> (|Leaves(c, data)| - 1) * CHUNK_SIZE < |data|
  {
    if |data| > CHUNK_SIZE {
      LeafCount(c, data[CHUNK_SIZE..]);
    }
  }

  lemma {:induction false} SliceRootsAreSubroots<D>(c: Compressor<D>, data: seq<Byte>)
    ensures SliceRoots(c, data) == Subroots(c, Leaves(c, data), SUBTREE_CHUNKS)
    decreases |data|
  {
    LeafCount(c, data);
    if |data| > SUBTREE_BYTES {
      var slice, rest := data[..SUBTREE_BYTES], data[SUBTREE_BYTES..];
      assert data == slice + rest;
      LeavesConcat(c, slice, rest, SUBTREE_CHUNKS);
      SliceRootsAreSubroots(c, rest);
      assert Leaves(c, data)[..SUBTREE_CHUNKS] == Leaves(c, slice);
      assert Leaves(c, data)[SUBTREE_CHUNKS..] == Leaves(c, rest);
    }
  }

  // Hashing in parallel, slice by slice, gives the digest of the message, for every message.
  lemma ParallelHashIsDigest<D>(c: Compressor<D>, data: seq<Byte>)
    ensures HashSliceParallel(c, data) == Digest(c, data)
  {
    if |data| >= SUBTREE_BYTES * 2 {
      SliceRootsAreSubroots(c, data);
      LeafCount(c, data);
      assert Pow(2, 6) == SUBTREE_CHUNKS;
      SubtreesKeepRoot(c, Leaves(c, data), 6);
    }
  }
}
