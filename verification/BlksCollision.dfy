// The digest determines the message as far as the compression does: when two messages have one
// digest, two of the inputs that are compressed on the way to it have one output. This holds for
// any compressor, and the two inputs are among those that the two computations evaluate.
module BlksCollision {
  import opened Common
  import opened BlksTree

  // An input of hash_chunk or of compress_parent; the root flag is part of it.
  datatype Input<D> = ChunkIn(bytes: seq<Byte>, isRoot: bool) | ParentIn(left: D, right: D, isRoot: bool)

  function Output<D>(c: Compressor<D>, input: Input<D>): D {
    match input
    case ChunkIn(bytes, isRoot) => c.chunk(bytes, isRoot)
    case ParentIn(left, right, isRoot) => c.parent(left, right, isRoot)
  }

  // ----- what a digest evaluates -----

  function Chunks(data: seq<Byte>): (chunks: seq<seq<Byte>>)
    ensures data != [] <==> chunks != []
    ensures forall i :: 0 <= i < |chunks| ==> 0 < |chunks[i]| <= CHUNK_SIZE
  {
    if data == [] then []
    else if |data| <= CHUNK_SIZE then [data]
    else [data[..CHUNK_SIZE]] + Chunks(data[CHUNK_SIZE..])
  }

  function LeavesOf<D>(c: Compressor<D>, chunks: seq<seq<Byte>>): (leaves: seq<D>)
    ensures |leaves| == |chunks|
  {
    seq(|chunks|, i requires 0 <= i < |chunks| => c.chunk(chunks[i], false))
  }

  // The inputs of the nodes of the tree over some chunks, the topmost first.
  function TreeInputs<D>(c: Compressor<D>, chunks: seq<seq<Byte>>, isRoot: bool): seq<Input<D>>
    requires chunks != []
    decreases |chunks|
  {
    if |chunks| == 1 then [ChunkIn(chunks[0], false)]
    else
      var k := Split(|chunks|);
      [TopInput(c, chunks, isRoot)] + (TreeInputs(c, chunks[..k], false) + TreeInputs(c, chunks[k..], false))
  }

  function TopInput<D>(c: Compressor<D>, chunks: seq<seq<Byte>>, isRoot: bool): Input<D>
    requires |chunks| > 1
  {
    var k := Split(|chunks|);
    ParentIn(MerkleRoot(c, LeavesOf(c, chunks[..k]), false), MerkleRoot(c, LeavesOf(c, chunks[k..]), false), isRoot)
  }

  function DigestInputs<D>(c: Compressor<D>, data: seq<Byte>): seq<Input<D>> {
    if |data| <= CHUNK_SIZE then [ChunkIn(data, true)] else TreeInputs(c, Chunks(data), true)
  }

  lemma {:induction false} LeavesAreOfChunks<D>(c: Compressor<D>, data: seq<Byte>)
    ensures Leaves(c, data) == LeavesOf(c, Chunks(data))
  {
    if |data| > CHUNK_SIZE {
      LeavesAreOfChunks(c, data[CHUNK_SIZE..]);
    }
  }

  // The first of a tree's inputs is compressed to its root.
  lemma RootIsOutput<D>(c: Compressor<D>, chunks: seq<seq<Byte>>, isRoot: bool)
    requires chunks != []
    ensures Output(c, TreeInputs(c, chunks, isRoot)[0]) == MerkleRoot(c, LeavesOf(c, chunks), isRoot)
  {
    if |chunks| > 1 {
      var k := Split(|chunks|);
      assert LeavesOf(c, chunks)[..k] == LeavesOf(c, chunks[..k]);
      assert LeavesOf(c, chunks)[k..] == LeavesOf(c, chunks[k..]);
    }
  }

  // And the first of a message's inputs to its digest.
  lemma DigestIsOutput<D>(c: Compressor<D>, data: seq<Byte>)
    ensures DigestInputs(c, data) != [] && Output(c, DigestInputs(c, data)[0]) == Digest(c, data)
  {
    if |data| > CHUNK_SIZE {
      LeavesAreOfChunks(c, data);
      RootIsOutput(c, Chunks(data), true);
    }
  }

  ghost predicate Legal<D>(inputs: seq<Input<D>>) {
    forall i :: 0 <= i < |inputs| && inputs[i].ChunkIn? ==> |inputs[i].bytes| <= CHUNK_SIZE
  }

  // No chunk that is evaluated is longer than hash_chunk accepts.
  lemma {:induction false} TreeInputsAreLegal<D>(c: Compressor<D>, chunks: seq<seq<Byte>>, isRoot: bool)
    requires chunks != [] && forall i :: 0 <= i < |chunks| ==> |chunks[i]| <= CHUNK_SIZE
    ensures Legal(TreeInputs(c, chunks, isRoot))
    decreases |chunks|
  {
    if |chunks| > 1 {
      var k := Split(|chunks|);
      TreeInputsAreLegal(c, chunks[..k], false);
      TreeInputsAreLegal(c, chunks[k..], false);
    }
  }

  lemma DigestInputsAreLegal<D>(c: Compressor<D>, data: seq<Byte>)
    ensures Legal(DigestInputs(c, data))
  {
    if |data| > CHUNK_SIZE {
      TreeInputsAreLegal(c, Chunks(data), true);
    }
  }

  // The inputs p, in order, are those of the list from an index on.
  ghost predicate Within<D>(p: seq<Input<D>>, list: seq<Input<D>>, at: nat) {
    at + |p| <= |list| && forall i :: 0 <= i < |p| ==> list[at + i] == p[i]
  }

  // The inputs of the two subtrees of the topmost node.
  function LeftInputs<D>(c: Compressor<D>, chunks: seq<seq<Byte>>): seq<Input<D>>
    requires |chunks| > 1
  {
    TreeInputs(c, chunks[..Split(|chunks|)], false)
  }

  function RightInputs<D>(c: Compressor<D>, chunks: seq<seq<Byte>>): seq<Input<D>>
    requires |chunks| > 1
  {
    TreeInputs(c, chunks[Split(|chunks|)..], false)
  }

  lemma SubtreesWithin<D>(c: Compressor<D>, chunks: seq<seq<Byte>>, isRoot: bool)
    requires |chunks| > 1
    ensures |TreeInputs(c, chunks, isRoot)| == 1 + |LeftInputs(c, chunks)| + |RightInputs(c, chunks)|
    ensures TreeInputs(c, chunks, isRoot)[0] == TopInput(c, chunks, isRoot)
    ensures Within(LeftInputs(c, chunks), TreeInputs(c, chunks, isRoot), 1)
    ensures Within(RightInputs(c, chunks), TreeInputs(c, chunks, isRoot), 1 + |LeftInputs(c, chunks)|)
  {
    var left, right := LeftInputs(c, chunks), RightInputs(c, chunks);
    assert TreeInputs(c, chunks, isRoot) == [TopInput(c, chunks, isRoot)] + (left + right);
  }

  // One input for every node of the tree.
  lemma {:induction false} TreeInputsCount<D>(c: Compressor<D>, chunks: seq<seq<Byte>>, isRoot: bool)
    requires chunks != []
    ensures |TreeInputs(c, chunks, isRoot)| == 2 * |chunks| - 1
    decreases |chunks|
  {
    if |chunks| > 1 {
      var k := Split(|chunks|);
      TreeInputsCount(c, chunks[..k], false);
      TreeInputsCount(c, chunks[k..], false);
    }
  }

  // The output of every input but the first is a part of another input of the tree.
  ghost predicate IsUsed<D>(c: Compressor<D>, inputs: seq<Input<D>>, i: nat)
    requires i < |inputs|
  {
    exists j :: 0 <= j < |inputs| && Feeds(c, inputs[i], inputs[j])
  }

  ghost predicate Feeds<D>(c: Compressor<D>, input: Input<D>, parent: Input<D>) {
    parent.ParentIn? && (parent.left == Output(c, input) || parent.right == Output(c, input))
  }

  lemma UsedWithin<D>(c: Compressor<D>, p: seq<Input<D>>, list: seq<Input<D>>, at: nat, i: nat)
    requires i < |p| && IsUsed(c, p, i) && Within(p, list, at)
    ensures IsUsed(c, list, at + i)
  {
    var j :| 0 <= j < |p| && Feeds(c, p[i], p[j]);
    assert Feeds(c, list[at + i], list[at + j]);
  }

  // The roots of the subtrees are parts of the topmost input.
  lemma SubrootsAreUsed<D>(c: Compressor<D>, chunks: seq<seq<Byte>>, isRoot: bool)
    requires |chunks| > 1
    ensures var list, k := TreeInputs(c, chunks, isRoot), 1 + |LeftInputs(c, chunks)|;
      1 < k < |list| && IsUsed(c, list, 1) && IsUsed(c, list, k)
  {
    var list, k := TreeInputs(c, chunks, isRoot), 1 + |LeftInputs(c, chunks)|;
    SubtreesWithin(c, chunks, isRoot);
    RootIsOutput(c, chunks[..Split(|chunks|)], false);
    RootIsOutput(c, chunks[Split(|chunks|)..], false);
    assert list[1] == LeftInputs(c, chunks)[0] && list[k] == RightInputs(c, chunks)[0];
    assert Feeds(c, list[1], list[0]) && Feeds(c, list[k], list[0]);
  }

  ghost predicate AllUsed<D>(c: Compressor<D>, inputs: seq<Input<D>>) {
    forall i :: 0 < i < |inputs| ==> IsUsed(c, inputs, i)
  }

  lemma PartsAreUsed<D>(c: Compressor<D>, list: seq<Input<D>>, left: seq<Input<D>>, right: seq<Input<D>>)
    requires |list| == 1 + |left| + |right| && Within(left, list, 1) && Within(right, list, 1 + |left|)
    requires AllUsed(c, left) && AllUsed(c, right)
    requires 1 + |left| < |list| && IsUsed(c, list, 1) && IsUsed(c, list, 1 + |left|)
    ensures AllUsed(c, list)
  {
    forall i | 0 < i < |list|
      ensures IsUsed(c, list, i)
    {
      if 1 < i < 1 + |left| {
        UsedWithin(c, left, list, 1, i - 1);
      } else if i > 1 + |left| {
        UsedWithin(c, right, list, 1 + |left|, i - 1 - |left|);
      }
    }
  }

  lemma {:induction false} TreeInputsAreUsed<D>(c: Compressor<D>, chunks: seq<seq<Byte>>, isRoot: bool)
    requires chunks != []
    ensures AllUsed(c, TreeInputs(c, chunks, isRoot))
    decreases |chunks|
  {
    if |chunks| > 1 {
      TreeInputsAreUsed(c, chunks[..Split(|chunks|)], false);
      TreeInputsAreUsed(c, chunks[Split(|chunks|)..], false);
      SubtreesWithin(c, chunks, isRoot);
      SubrootsAreUsed(c, chunks, isRoot);
      PartsAreUsed(c, TreeInputs(c, chunks, isRoot), LeftInputs(c, chunks), RightInputs(c, chunks));
    }
  }

  // All listed inputs are evaluated for the digest: from each, outputs lead up to it.
  lemma DigestInputsAreUsed<D>(c: Compressor<D>, data: seq<Byte>)
    ensures |data| <= CHUNK_SIZE ==> |DigestInputs(c, data)| == 1
    ensures |data| > CHUNK_SIZE ==> |DigestInputs(c, data)| == 2 * |Chunks(data)| - 1
    ensures AllUsed(c, DigestInputs(c, data))
  {
    if |data| > CHUNK_SIZE {
      TreeInputsCount(c, Chunks(data), true);
      TreeInputsAreUsed(c, Chunks(data), true);
    }
  }

  // ----- collisions -----

  // One of the inputs p and another of the inputs q have one output.
  ghost predicate Collision<D>(c: Compressor<D>, p: seq<Input<D>>, q: seq<Input<D>>) {
    exists i, j :: 0 <= i < |p| && 0 <= j < |q| && p[i] != q[j] && Output(c, p[i]) == Output(c, q[j])
  }

  lemma CollisionWithin<D>(
      c: Compressor<D>, p: seq<Input<D>>, q: seq<Input<D>>,
      l: seq<Input<D>>, at: nat, r: seq<Input<D>>, to: nat)
    requires Collision(c, p, q) && Within(p, l, at) && Within(q, r, to)
    ensures Collision(c, l, r)
  {
    var i, j :| 0 <= i < |p| && 0 <= j < |q| && p[i] != q[j] && Output(c, p[i]) == Output(c, q[j]);
    assert l[at + i] == p[i] && r[to + j] == q[j];
  }

  // Trees with one root are over the same chunks, or collide in two of their nodes.
  lemma {:induction false} SameRootCollides<D>(
      c: Compressor<D>, xs: seq<seq<Byte>>, ys: seq<seq<Byte>>, isRoot: bool)
    requires xs != [] && ys != []
    requires MerkleRoot(c, LeavesOf(c, xs), isRoot) == MerkleRoot(c, LeavesOf(c, ys), isRoot)
    ensures xs == ys || Collision(c, TreeInputs(c, xs, isRoot), TreeInputs(c, ys, isRoot))
    decreases |xs|
  {
    if TreeInputs(c, xs, isRoot)[0] != TreeInputs(c, ys, isRoot)[0] {
      TopsCollide(c, xs, ys, isRoot);
    } else if |xs| > 1 {
      var k, m := Split(|xs|), Split(|ys|);
      assert TopInput(c, xs, isRoot) == TopInput(c, ys, isRoot);
      SameRootCollides(c, xs[..k], ys[..m], false);
      SameRootCollides(c, xs[k..], ys[m..], false);
      PartsCollide(c, xs, ys, isRoot);
    }
  }

  lemma TopsCollide<D>(c: Compressor<D>, xs: seq<seq<Byte>>, ys: seq<seq<Byte>>, isRoot: bool)
    requires xs != [] && ys != []
    requires MerkleRoot(c, LeavesOf(c, xs), isRoot) == MerkleRoot(c, LeavesOf(c, ys), isRoot)
    requires TreeInputs(c, xs, isRoot)[0] != TreeInputs(c, ys, isRoot)[0]
    ensures Collision(c, TreeInputs(c, xs, isRoot), TreeInputs(c, ys, isRoot))
  {
    RootIsOutput(c, xs, isRoot);
    RootIsOutput(c, ys, isRoot);
  }

  lemma PartsCollide<D>(c: Compressor<D>, xs: seq<seq<Byte>>, ys: seq<seq<Byte>>, isRoot: bool)
    requires |xs| > 1 && |ys| > 1
    requires xs[..Split(|xs|)] == ys[..Split(|ys|)] || Collision(c, LeftInputs(c, xs), LeftInputs(c, ys))
    requires xs[Split(|xs|)..] == ys[Split(|ys|)..] || Collision(c, RightInputs(c, xs), RightInputs(c, ys))
    ensures xs == ys || Collision(c, TreeInputs(c, xs, isRoot), TreeInputs(c, ys, isRoot))
  {
    if Collision(c, LeftInputs(c, xs), LeftInputs(c, ys)) {
      LeftTreesCollide(c, xs, ys, isRoot);
    } else if Collision(c, RightInputs(c, xs), RightInputs(c, ys)) {
      RightTreesCollide(c, xs, ys, isRoot);
    } else {
      SameParts(xs, Split(|xs|), ys, Split(|ys|));
    }
  }

  lemma SameParts<T>(a: seq<T>, k: nat, b: seq<T>, m: nat)
    requires k <= |a| && m <= |b| && a[..k] == b[..m] && a[k..] == b[m..]
    ensures a == b
  {
    assert a == a[..k] + a[k..] && b == b[..m] + b[m..];
  }

  // A collision in the left or the right subtrees is one in the trees.
  lemma LeftTreesCollide<D>(c: Compressor<D>, xs: seq<seq<Byte>>, ys: seq<seq<Byte>>, isRoot: bool)
    requires |xs| > 1 && |ys| > 1
    requires Collision(c, LeftInputs(c, xs), LeftInputs(c, ys))
    ensures Collision(c, TreeInputs(c, xs, isRoot), TreeInputs(c, ys, isRoot))
  {
    SubtreesWithin(c, xs, isRoot);
    SubtreesWithin(c, ys, isRoot);
    CollisionWithin(c, LeftInputs(c, xs), LeftInputs(c, ys),
                    TreeInputs(c, xs, isRoot), 1, TreeInputs(c, ys, isRoot), 1);
  }

  lemma RightTreesCollide<D>(c: Compressor<D>, xs: seq<seq<Byte>>, ys: seq<seq<Byte>>, isRoot: bool)
    requires |xs| > 1 && |ys| > 1
    requires Collision(c, RightInputs(c, xs), RightInputs(c, ys))
    ensures Collision(c, TreeInputs(c, xs, isRoot), TreeInputs(c, ys, isRoot))
  {
    SubtreesWithin(c, xs, isRoot);
    SubtreesWithin(c, ys, isRoot);
    CollisionWithin(c, RightInputs(c, xs), RightInputs(c, ys), TreeInputs(c, xs, isRoot), 1 + |LeftInputs(c, xs)|,
                    TreeInputs(c, ys, isRoot), 1 + |LeftInputs(c, ys)|);
  }

  lemma {:induction false} ChunksDetermineMessage(a: seq<Byte>, b: seq<Byte>)
    requires Chunks(a) == Chunks(b)
    ensures a == b
  {
    if a != [] {
      assert Chunks(a)[0] == Chunks(b)[0];
      if |a| > CHUNK_SIZE {
        assert Chunks(a)[1..] == Chunks(a[CHUNK_SIZE..]) != [];
        assert |b| > CHUNK_SIZE && Chunks(b)[1..] == Chunks(b[CHUNK_SIZE..]);
        ChunksDetermineMessage(a[CHUNK_SIZE..], b[CHUNK_SIZE..]);
        assert a == a[..CHUNK_SIZE] + a[CHUNK_SIZE..] && b == b[..CHUNK_SIZE] + b[CHUNK_SIZE..];
      }
    }
  }

  // Two messages with one digest: the two computations evaluate two inputs with one output.
  lemma SameDigestCollides<D>(c: Compressor<D>, a: seq<Byte>, b: seq<Byte>)
    requires Digest(c, a) == Digest(c, b) && a != b
    ensures Collision(c, DigestInputs(c, a), DigestInputs(c, b))
    ensures Legal(DigestInputs(c, a)) && Legal(DigestInputs(c, b))
  {
    DigestInputsAreLegal(c, a);
    DigestInputsAreLegal(c, b);
    DigestIsOutput(c, a);
    DigestIsOutput(c, b);
    if |a| > CHUNK_SIZE && |b| > CHUNK_SIZE {
      LeavesAreOfChunks(c, a);
      LeavesAreOfChunks(c, b);
      SameRootCollides(c, Chunks(a), Chunks(b), true);
      if Chunks(a) == Chunks(b) {
        ChunksDetermineMessage(a, b);
      }
    } else {
      assert DigestInputs(c, a)[0] != DigestInputs(c, b)[0];
    }
  }
}
