// The digest as a formal term, so that two digests are equal only if they were computed in the
// same way: exactly which term the digest of a message is.
module BlksTerm {
  import opened Common
  import opened Powers
  import opened BlksTree

  datatype Term = Chunk(bytes: seq<Byte>, isRoot: bool) | Parent(left: Term, right: Term, isRoot: bool)

  const FORMAL: Compressor<Term> :=
    Compressor((bytes, isRoot) => Chunk(bytes, isRoot), (left, right, isRoot) => Parent(left, right, isRoot))

  ghost predicate AreLeaves(leaves: seq<Term>) {
    forall i :: 0 <= i < |leaves| ==> leaves[i].Chunk? && !leaves[i].isRoot && leaves[i].bytes != []
  }

  function Fringe(t: Term): seq<Term> {
    match t
    case Chunk(_, _) => [t]
    case Parent(left, right, _) => Fringe(left) + Fringe(right)
  }

  lemma {:induction false} FringeOfRoot(leaves: seq<Term>, isRoot: bool)
    requires leaves != [] && AreLeaves(leaves)
    ensures Fringe(MerkleRoot(FORMAL, leaves, isRoot)) == leaves
    decreases |leaves|
  {
    if |leaves| > 1 {
      var k := Split(|leaves|);
      FringeOfRoot(leaves[..k], false);
      FringeOfRoot(leaves[k..], false);
      assert leaves == leaves[..k] + leaves[k..];
    }
  }

  lemma {:induction false} LeavesAreLeaves(data: seq<Byte>)
    ensures AreLeaves(Leaves(FORMAL, data))
  {
    if |data| > CHUNK_SIZE {
      LeavesAreLeaves(data[CHUNK_SIZE..]);
    }
  }

  lemma FringeOfDigest(data: seq<Byte>)
    ensures |data| > CHUNK_SIZE ==> Fringe(Digest(FORMAL, data)) == Leaves(FORMAL, data)
    ensures |data| <= CHUNK_SIZE ==> Fringe(Digest(FORMAL, data)) == [Chunk(data, true)]
  {
    if |data| > CHUNK_SIZE {
      LeavesAreLeaves(data);
      FringeOfRoot(Leaves(FORMAL, data), true);
    }
  }

  // ----- the term of a message -----

  function Bytes(leaves: seq<Term>): seq<Byte> {
    if leaves == [] then []
    else (match leaves[0] case Chunk(bytes, _) => bytes case Parent(_, _, _) => []) + Bytes(leaves[1..])
  }

  // The leaves cut a message into pieces of 4096 bytes, of which the last may be shorter.
  ghost predicate Cuts(leaves: seq<Term>, data: seq<Byte>) {
    && leaves != [] && Bytes(leaves) == data
    && (forall i :: 0 <= i < |leaves| ==> leaves[i].Chunk? && !leaves[i].isRoot)
    && (forall i :: 0 <= i < |leaves| - 1 ==> |leaves[i].bytes| == 4096)
    && 0 < |leaves[|leaves| - 1].bytes| <= 4096
  }

  predicate NoFlag(t: Term) {
    match t
    case Chunk(_, isRoot) => !isRoot
    case Parent(left, right, isRoot) => !isRoot && NoFlag(left) && NoFlag(right)
  }

  // Below every node the left subtree has a power of two of leaves, fewer than the node and at least
  // half of them.
  ghost predicate LeftComplete(t: Term) {
    match t
    case Chunk(_, _) => true
    case Parent(left, right, _) =>
      && LeftComplete(left) && LeftComplete(right)
      && exists j: nat :: |Fringe(left)| == Pow(2, j) && Pow(2, j) < |Fringe(t)| <= 2 * Pow(2, j)
  }

  // A message of at most 4096 bytes is one chunk with the root flag. A longer one is a tree over its
  // pieces whose topmost node, and nothing else, carries the flag.
  ghost predicate IsTermOf(t: Term, data: seq<Byte>) {
    if |data| <= 4096 then t == Chunk(data, true)
    else
      && t.Parent? && t.isRoot && NoFlag(t.left) && NoFlag(t.right)
      && LeftComplete(t) && Cuts(Fringe(t), data)
  }

  lemma {:induction false} LeavesCut(data: seq<Byte>)
    requires data != []
    ensures Cuts(Leaves(FORMAL, data), data)
  {
    var leaves := Leaves(FORMAL, data);
    if |data| <= 4096 {
      assert Bytes(leaves[1..]) == [];
    } else {
      LeavesCut(data[4096..]);
      assert leaves[1..] == Leaves(FORMAL, data[4096..]);
      assert data == data[..4096] + data[4096..];
    }
  }

  lemma {:induction false} RootIsLeftComplete(leaves: seq<Term>, isRoot: bool)
    requires leaves != [] && AreLeaves(leaves)
    ensures var t := MerkleRoot(FORMAL, leaves, isRoot);
      && LeftComplete(t)
      && (|leaves| > 1 ==> t.Parent? && t.isRoot == isRoot && NoFlag(t.left) && NoFlag(t.right))
      && (|leaves| == 1 || !isRoot ==> NoFlag(t))
    decreases |leaves|
  {
    if |leaves| > 1 {
      var k := Split(|leaves|);
      RootIsLeftComplete(leaves[..k], false);
      RootIsLeftComplete(leaves[k..], false);
      FringeOfRoot(leaves[..k], false);
      FringeOfRoot(leaves, isRoot);
      var j := SplitIsPowerOfTwo(|leaves|);
      assert Pow(2, j) < |leaves| <= 2 * Pow(2, j);
    }
  }

  lemma DigestIsTerm(data: seq<Byte>)
    ensures IsTermOf(Digest(FORMAL, data), data)
  {
    if |data| > 4096 {
      LeavesCut(data);
      LeavesAreLeaves(data);
      RootIsLeftComplete(Leaves(FORMAL, data), true);
      FringeOfRoot(Leaves(FORMAL, data), true);
    }
  }

  // ----- there is no other -----

  lemma {:induction false} CutsAreUnique(a: seq<Term>, b: seq<Term>, data: seq<Byte>)
    requires Cuts(a, data) && Cuts(b, data)
    ensures a == b
    decreases |a|
  {
    CutStart(a, data);
    CutStart(b, data);
    if |data| > 4096 {
      CutsAreUnique(a[1..], b[1..], data[4096..]);
      assert a == [a[0]] + a[1..] && b == [b[0]] + b[1..];
    }
  }

  lemma CutStart(leaves: seq<Term>, data: seq<Byte>)
    requires Cuts(leaves, data)
    ensures |data| <= 4096 ==> leaves == [Chunk(data, false)]
    ensures |data| > 4096 ==>
      |leaves| > 1 && leaves[0] == Chunk(data[..4096], false) && Cuts(leaves[1..], data[4096..])
  {
    assert data == leaves[0].bytes + Bytes(leaves[1..]);
    if |leaves| == 1 {
      assert leaves[0] == Chunk(data, false);
    } else {
      assert Bytes(leaves[1..]) == data[4096..];
      assert leaves[1..][|leaves| - 2] == leaves[|leaves| - 1];
      BytesOfCut(leaves[1..]);
    }
  }

  lemma {:induction false} BytesOfCut(leaves: seq<Term>)
    requires leaves != [] && leaves[|leaves| - 1].Chunk? && leaves[|leaves| - 1].bytes != []
    ensures Bytes(leaves) != []
  {
    if |leaves| > 1 {
      BytesOfCut(leaves[1..]);
    }
  }

  lemma PowersApart(n: nat, i: nat, j: nat)
    requires Pow(2, i) < n <= 2 * Pow(2, i) && Pow(2, j) < n <= 2 * Pow(2, j)
    ensures i == j
  {
    PowOrder(i, j);
    PowOrder(j, i);
  }

  lemma PowOrder(i: nat, j: nat)
    ensures i < j ==> 2 * Pow(2, i) <= Pow(2, j)
  {
    if i < j {
      PowMonotonic(2, i + 1, j);
    }
  }

  // Trees over the same leaves have the same shape.
  lemma {:induction false} ShapeIsUnique(t: Term, u: Term)
    requires LeftComplete(t) && LeftComplete(u) && NoFlag(t) && NoFlag(u) && Fringe(t) == Fringe(u)
    ensures t == u
    decreases t
  {
    if t.Parent? && u.Parent? {
      SameSplit(t, u);
      ShapeIsUnique(t.left, u.left);
      ShapeIsUnique(t.right, u.right);
    }
  }

  lemma SameSplit(t: Term, u: Term)
    requires t.Parent? && u.Parent? && LeftComplete(t) && LeftComplete(u) && Fringe(t) == Fringe(u)
    ensures Fringe(t.left) == Fringe(u.left) && Fringe(t.right) == Fringe(u.right)
  {
    var i: nat :| |Fringe(t.left)| == Pow(2, i) && Pow(2, i) < |Fringe(t)| <= 2 * Pow(2, i);
    var j: nat :| |Fringe(u.left)| == Pow(2, j) && Pow(2, j) < |Fringe(u)| <= 2 * Pow(2, j);
    PowersApart(|Fringe(t)|, i, j);
    var k := |Fringe(t.left)|;
    assert Fringe(t)[..k] == Fringe(t.left) && Fringe(t)[k..] == Fringe(t.right);
    assert Fringe(u)[..k] == Fringe(u.left) && Fringe(u)[k..] == Fringe(u.right);
  }

  // The digest of a message is this one term, for every message.
  lemma DigestIffTerm(data: seq<Byte>, t: Term)
    ensures t == Digest(FORMAL, data) <==> IsTermOf(t, data)
  {
    var u := Digest(FORMAL, data);
    DigestIsTerm(data);
    if IsTermOf(t, data) && |data| > 4096 {
      CutsAreUnique(Fringe(t), Fringe(u), data);
      SameSplit(t, u);
      ShapeIsUnique(t.left, u.left);
      ShapeIsUnique(t.right, u.right);
    }
  }

  // ----- any compression -----

  function Eval<D>(c: Compressor<D>, t: Term): D {
    match t
    case Chunk(bytes, isRoot) => c.chunk(bytes, isRoot)
    case Parent(left, right, isRoot) => c.parent(Eval(c, left), Eval(c, right), isRoot)
  }

  function EvalAll<D>(c: Compressor<D>, leaves: seq<Term>): (ds: seq<D>)
    ensures |ds| == |leaves|
  {
    seq(|leaves|, i requires 0 <= i < |leaves| => Eval(c, leaves[i]))
  }

  lemma {:induction false} EvalLeaves<D>(c: Compressor<D>, data: seq<Byte>)
    ensures EvalAll(c, Leaves(FORMAL, data)) == Leaves(c, data)
  {
    if |data| > CHUNK_SIZE {
      EvalLeaves(c, data[CHUNK_SIZE..]);
    }
  }

  lemma {:induction false} EvalRoot<D>(c: Compressor<D>, leaves: seq<Term>, isRoot: bool)
    requires leaves != []
    ensures Eval(c, MerkleRoot(FORMAL, leaves, isRoot)) == MerkleRoot(c, EvalAll(c, leaves), isRoot)
    decreases |leaves|
  {
    if |leaves| > 1 {
      var k := Split(|leaves|);
      EvalRoot(c, leaves[..k], false);
      EvalRoot(c, leaves[k..], false);
      assert EvalAll(c, leaves)[..k] == EvalAll(c, leaves[..k]);
      assert EvalAll(c, leaves)[k..] == EvalAll(c, leaves[k..]);
    }
  }

  // With any compression the digest is the value of that term.
  lemma DigestIsValueOfTerm<D>(c: Compressor<D>, data: seq<Byte>)
    ensures Digest(c, data) == Eval(c, Digest(FORMAL, data))
  {
    if |data| > CHUNK_SIZE {
      EvalLeaves(c, data);
      EvalRoot(c, Leaves(FORMAL, data), true);
    }
  }
}
