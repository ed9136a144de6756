// Exactly when the sharded copy's digest is the digest of the input. Digests are formal terms
// here, so that two of them are equal only if they were computed in the same way.
module ShardedExact {
  import opened Common
  import opened Powers
  import opened BlksTree
  import opened BlksTerm
  import opened ShardedHash
  import opened ShardedRuns

  // ----- reads and chunks -----

  lemma {:induction false} ReadsYieldLeaves(data: seq<Byte>, sizes: seq<nat>)
    ensures AreLeaves(LeavesByReads(FORMAL, data, sizes))
    decreases |sizes|
  {
    if sizes != [] && sizes[0] <= |data| {
      LeavesAreLeaves(data[..sizes[0]]);
      ReadsYieldLeaves(data[sizes[0]..], sizes[1..]);
    }
  }

  // The q-th chunk of a message.
  lemma {:induction false} ChunkOfMessage(data: seq<Byte>, q: nat)
    requires q * CHUNK_SIZE < |data|
    ensures q < |Leaves(FORMAL, data)| && Leaves(FORMAL, data)[q].Chunk?
    ensures |Leaves(FORMAL, data)[q].bytes| ==
      if |data| - q * CHUNK_SIZE <= CHUNK_SIZE then |data| - q * CHUNK_SIZE else CHUNK_SIZE
    decreases q
  {
    if q > 0 {
      ChunkOfMessage(data[CHUNK_SIZE..], q - 1);
    }
  }

  // The chunks that reads yield are those of the message exactly when every read but the last ends on a
  // chunk boundary: a short read elsewhere shifts all chunks behind it.
  lemma {:induction false} ShortReadShiftsChunks(data: seq<Byte>, sizes: seq<nat>)
    requires Delivers(sizes, |data|)
    ensures LeavesByReads(FORMAL, data, sizes) == Leaves(FORMAL, data) <==> Aligned(sizes)
    decreases |sizes|
  {
    if Aligned(sizes) {
      AlignedReadsKeepLeaves(FORMAL, data, sizes);
    } else {
      var n := sizes[0];
      var first, rest := data[..n], data[n..];
      assert data == first + rest;
      if n % CHUNK_SIZE == 0 {
        LeavesConcat(FORMAL, first, rest, n / CHUNK_SIZE);
        ShortReadShiftsChunks(rest, sizes[1..]);
        assert !Aligned(sizes[1..]) by {
          var i :| 0 <= i < |sizes| - 1 && sizes[i] % CHUNK_SIZE != 0;
          assert sizes[1..][i - 1] == sizes[i];
        }
        var front := Leaves(FORMAL, first);
        assert (front + LeavesByReads(FORMAL, rest, sizes[1..]))[|front|..] !=
               (front + Leaves(FORMAL, rest))[|front|..];
      } else {
        assert n < |data| by {
          assert Delivers(sizes[1..], |data| - n) && sizes[1..] != [];
        }
        ChunkOfMessage(first, n / CHUNK_SIZE);
        ChunkOfMessage(data, n / CHUNK_SIZE);
      }
    }
  }

  // ----- stripes that are cut short -----

  function Size(leaves: seq<Term>): nat
    requires AreLeaves(leaves)
  {
    if leaves == [] then 0 else |leaves[0].bytes| + Size(leaves[1..])
  }

  lemma {:induction false} SizeConcat(a: seq<Term>, b: seq<Term>)
    requires AreLeaves(a) && AreLeaves(b)
    ensures AreLeaves(a + b) && Size(a + b) == Size(a) + Size(b)
  {
    if a == [] {
      assert a + b == b;
    } else {
      assert (a + b)[1..] == a[1..] + b;
      SizeConcat(a[1..], b);
    }
  }

  lemma {:induction false} SizeOfLeaves(data: seq<Byte>)
    ensures AreLeaves(Leaves(FORMAL, data)) && Size(Leaves(FORMAL, data)) == |data|
  {
    if |data| > CHUNK_SIZE {
      SizeOfLeaves(data[CHUNK_SIZE..]);
    }
  }

  lemma {:induction false} SizeByReads(data: seq<Byte>, sizes: seq<nat>)
    ensures AreLeaves(LeavesByReads(FORMAL, data, sizes)) && Size(LeavesByReads(FORMAL, data, sizes)) <= |data|
    decreases |sizes|
  {
    if sizes != [] && sizes[0] <= |data| {
      SizeOfLeaves(data[..sizes[0]]);
      SizeByReads(data[sizes[0]..], sizes[1..]);
      SizeConcat(Leaves(FORMAL, data[..sizes[0]]), LeavesByReads(FORMAL, data[sizes[0]..], sizes[1..]));
    }
  }

  // How many bytes are read of the stripes at some bases.
  function TotalRead(job: Job<Term>, bases: seq<nat>): nat {
    if bases == [] then 0 else |ReadPart(job, bases[0])| + TotalRead(job, bases[1..])
  }

  lemma {:induction false} SizeOfStripes(job: Job<Term>, stripes: seq<Stripe<Term>>)
    requires job.compressor == FORMAL && Right(job, stripes)
    ensures AreLeaves(CombinedLeaves(stripes))
    ensures Size(CombinedLeaves(stripes)) <= TotalRead(job, BasesOf(stripes))
  {
    if stripes != [] {
      SizeOfStripes(job, stripes[1..]);
      assert stripes[0] == StripeAt(job, stripes[0].base);
      assert BasesOf(stripes)[1..] == BasesOf(stripes[1..]);
      SizeByReads(ReadPart(job, stripes[0].base), job.sizes(stripes[0].base));
      SizeConcat(stripes[0].leaves, CombinedLeaves(stripes[1..]));
    }
  }

  // Some of the stripes from a base on, in order.
  ghost predicate Among(xs: seq<nat>, len: nat, size: Positive, base: nat) {
    Sorted(xs) && multiset(xs) <= multiset(Bases(len, size, base))
  }

  // Those that are not the first of them.
  function Later(xs: seq<nat>, base: nat): seq<nat> {
    if xs != [] && xs[0] == base then xs[1..] else xs
  }

  lemma NoneBehind(xs: seq<nat>, len: nat, size: Positive, base: nat)
    requires Among(xs, len, size, base) && base >= len
    ensures xs == []
  {
    assert |multiset(xs)| == |xs|;
  }

  lemma LaterAmong(xs: seq<nat>, len: nat, size: Positive, base: nat)
    requires Among(xs, len, size, base) && base < len
    ensures Among(Later(xs, base), len, size, base + size)
  {
    assert Bases(len, size, base) == [base] + Bases(len, size, base + size);
    if xs != [] && xs[0] == base {
      MultisetTail(xs);
    } else {
      BaseNotAmong(xs, len, size, base);
    }
  }

  lemma BaseNotAmong(xs: seq<nat>, len: nat, size: Positive, base: nat)
    requires Among(xs, len, size, base) && (xs == [] || xs[0] != base)
    ensures base !in multiset(xs)
  {
    BasesAreSorted(len, size, base);
    forall i | 0 <= i < |xs|
      ensures xs[i] > base
    {
      assert xs[0] in multiset(xs) && xs[0] in multiset(Bases(len, size, base));
    }
  }

  // The same, base by base.
  ghost predicate Picks(xs: seq<nat>, len: nat, size: Positive, base: nat)
    decreases len - base
  {
    if base >= len then xs == [] else Picks(Later(xs, base), len, size, base + size)
  }

  lemma {:induction false} AmongPicks(xs: seq<nat>, len: nat, size: Positive, base: nat)
    requires Among(xs, len, size, base)
    ensures Picks(xs, len, size, base)
    decreases len - base
  {
    if base >= len {
      NoneBehind(xs, len, size, base);
    } else {
      LaterAmong(xs, len, size, base);
      AmongPicks(Later(xs, base), len, size, base + size);
    }
  }

  lemma TotalReadLater(job: Job<Term>, xs: seq<nat>, base: nat)
    ensures TotalRead(job, xs) <= |ReadPart(job, base)| + TotalRead(job, Later(xs, base))
  {
  }

  lemma ReadPartThenRest(job: Job<Term>, base: nat)
    ensures |ReadPart(job, base)| <= |StripeData(job, base)|
    ensures |StripeData(job, base)| + |Rest(job, base + job.stripeSize)| == |Rest(job, base)|
  {
  }

  lemma {:induction false} TotalReadBounded(job: Job<Term>, xs: seq<nat>, base: nat)
    requires Picks(xs, |job.input|, job.stripeSize, base)
    ensures TotalRead(job, xs) <= |Rest(job, base)|
    decreases |job.input| - base
  {
    if base < |job.input| {
      TotalReadBounded(job, Later(xs, base), base + job.stripeSize);
      TotalReadLater(job, xs, base);
      ReadPartThenRest(job, base);
    }
  }

  // When the first stripe is cut short, fewer bytes are hashed than the input has.
  lemma CutStripeLosesBytes(job: Job<Term>, xs: seq<nat>)
    requires |ReadPart(job, 0)| < |StripeData(job, 0)| && Among(xs, |job.input|, job.stripeSize, 0)
    ensures TotalRead(job, xs) < |job.input|
  {
    AmongPicks(xs, |job.input|, job.stripeSize, 0);
    TotalReadBounded(job, Later(xs, 0), job.stripeSize);
    TotalReadLater(job, xs, 0);
    ReadPartThenRest(job, 0);
  }

  lemma CutStripeMissesDigest(job: Job<Term>, run: seq<State<Term>>, sorted: seq<Stripe<Term>>)
    requires ValidJob(job) && !FitsReads(job) && job.compressor == FORMAL
    requires IsRun(job, run) && SortsRun(sorted, run)
    ensures !GivesDigest(job, sorted)
  {
    var collected := Collected(run[|run| - 1].finished);
    RunCollects(job, run);
    MapPermutes((stripe: Stripe<Term>) => stripe.base, sorted, collected);
    PermutedRight(job, sorted, collected);
    UnfitReadsCutFirst(job);
    CutStripeLosesBytes(job, BasesOf(sorted));
    SizeOfStripes(job, sorted);
    if CombinedLeaves(sorted) != [] {
      FringeOfRoot(CombinedLeaves(sorted), true);
      SizeOfLeaves(job.input);
      FringeOfDigest(job.input);
    }
  }

  // ----- when the digest is right -----

  // For every schedule and every input, there is a combined digest and it is computed as the digest
  // of the input is if and only if the requests fit in 32 bits, the input has more than one chunk,
  // and every read but the last ends on a chunk boundary.
  lemma ShardedDigestIff(job: Job<Term>, run: seq<State<Term>>, sorted: seq<Stripe<Term>>)
    requires ValidJob(job) && job.compressor == FORMAL
    requires IsCompleteRun(job, run) && SortsRun(sorted, run)
    ensures GivesDigest(job, sorted) <==>
      FitsReads(job) && |job.input| > CHUNK_SIZE && Aligned(AllReads(job, 0))
  {
    if job.input == [] {
      EveryStripeOnce(job, run, sorted);
    } else if FitsReads(job) {
      FittingDigestIff(job, run, sorted);
    } else {
      CutStripeMissesDigest(job, run, sorted);
    }
  }

  lemma FittingDigestIff(job: Job<Term>, run: seq<State<Term>>, sorted: seq<Stripe<Term>>)
    requires ValidJob(job) && FitsReads(job) && job.compressor == FORMAL && job.input != []
    requires IsCompleteRun(job, run) && SortsRun(sorted, run)
    ensures GivesDigest(job, sorted) <==> |job.input| > CHUNK_SIZE && Aligned(AllReads(job, 0))
  {
    WholeIffFits(job);
    WholeFromAll(job, 0);
    EveryStripeOnce(job, run, sorted);
    StripesCombine(job, 0);
    assert Rest(job, 0) == job.input;
    ReadsYieldLeaves(job.input, AllReads(job, 0));
    FringeOfRoot(CombinedLeaves(sorted), true);
    FringeOfDigest(job.input);
    ShortReadShiftsChunks(job.input, AllReads(job, 0));
  }

  // ----- two copies that go wrong -----

  function Start(workers: nat): (s: State<Term>)
    requires workers > 0
    ensures Init(s)
  {
    State(0, false, seq(workers, w => Idle), seq(workers, w => []), map[])
  }

  // One byte more than a chunk, whose first read returns that one byte.
  const SHORT_READ: Job<Term> := Job(
    FORMAL, seq(CHUNK_SIZE + 1, i => 0), Some(CHUNK_SIZE + 1), 65536, STRIPE_BYTES,
    base => if base == 0 then [1, CHUNK_SIZE] else [])

  lemma ShortReadReads()
    ensures ValidJob(SHORT_READ) && FitsReads(SHORT_READ) && AllReads(SHORT_READ, 0) == [1, CHUNK_SIZE]
  {
    var job := SHORT_READ;
    assert job.sizes(0) == [1, CHUNK_SIZE] && [1, CHUNK_SIZE][1..] == [CHUNK_SIZE] && [CHUNK_SIZE][1..] == [];
    assert StripeData(job, 0) == job.input;
    assert ReadsAsAsked(job, 0, CHUNK_SIZE + 1, []);
    assert ReadsAsAsked(job, 0, 1, [CHUNK_SIZE]);
    assert AllReads(job, STRIPE_BYTES) == [];
    assert [1, CHUNK_SIZE] + [] == [1, CHUNK_SIZE];
  }

  // There is a run, with any number of workers, that copies it, and its digest is not the input's.
  lemma ShortReadBreaksDigest(workers: nat) returns (run: seq<State<Term>>, sorted: seq<Stripe<Term>>)
    requires workers > 0
    ensures ValidJob(SHORT_READ) && FitsReads(SHORT_READ)
    ensures IsCompleteRun(SHORT_READ, run) && SortsRun(sorted, run) && |run[0].phases| == workers
    ensures CombinedLeaves(sorted) != [] && !GivesDigest(SHORT_READ, sorted)
  {
    ShortReadReads();
    run := RunCanComplete(SHORT_READ, [Start(workers)]);
    sorted := InputStripes(SHORT_READ, 0);
    EveryStripeOnce(SHORT_READ, run, sorted);
    ShardedDigestIff(SHORT_READ, run, sorted);
    assert [1, CHUNK_SIZE][0] % CHUNK_SIZE != 0;
    WholeIffFits(SHORT_READ);
    WholeFromAll(SHORT_READ, 0);
    StripesCombine(SHORT_READ, 0);
  }

  // An input of 4 GiB that is copied in one block, for which every read asks for nothing.
  const HUGE_BLOCK: Job<Term> := Job(
    FORMAL, seq(0x1_0000_0000, i => 0), Some(0x1_0000_0000), 0x1_0000_0000, 0x1_0000_0000, base => [])

  lemma HugeBlockReads()
    ensures ValidJob(HUGE_BLOCK) && !FitsReads(HUGE_BLOCK)
  {
    assert Asked(HUGE_BLOCK, 0, 0) == 0;
  }

  // No run copies or hashes any of it.
  lemma HugeBlockCopiesNothing(run: seq<State<Term>>)
    requires IsRun(HUGE_BLOCK, run)
    ensures run[|run| - 1].output == map[] && Collected(run[|run| - 1].finished) == []
  {
    var job, s := HUGE_BLOCK, run[|run| - 1];
    HugeBlockReads();
    RunInv(job, run);
    assert ReadPart(job, 0) == [];
    assert HoldsInput(job, s.output) && HoldsReadPart(job, s.output);
    assert forall i: nat :: i !in s.output;
    RunCollects(job, run);
    NoReadsNoLeaves(job, Collected(s.finished));
  }

  // And the copy comes to its end, with any number of workers.
  lemma HugeBlockCompletes(workers: nat) returns (run: seq<State<Term>>)
    requires workers > 0
    ensures IsCompleteRun(HUGE_BLOCK, run) && |run[0].phases| == workers
  {
    HugeBlockReads();
    run := RunCanComplete(HUGE_BLOCK, [Start(workers)]);
  }

  lemma NoReadsNoLeaves(job: Job<Term>, stripes: seq<Stripe<Term>>)
    requires Right(job, stripes) && forall base: nat :: job.sizes(base) == []
    ensures stripes == []
  {
    assert stripes == [] || stripes[0].leaves != [];
    assert stripes == [] || StripeLeaves(job, stripes[0].base) == [];
  }

  // ----- the guard before a sharded copy -----

  // The reads of a stripe behind done bytes when none is short.
  function FullReads<D>(job: Job<D>, base: nat, done: nat): seq<nat>
    decreases |StripeData(job, base)| - done
  {
    var asked := Asked(job, base, done);
    if done >= |StripeData(job, base)| || asked == 0 then []
    else
      var left := |StripeData(job, base)| - done;
      var n := if asked < left then asked else left;
      [n] + FullReads(job, base, done + n)
  }

  lemma {:induction false} FullReadsAreAsked<D>(job: Job<D>, base: nat, done: nat)
    ensures ReadsAsAsked(job, base, done, FullReads(job, base, done))
    decreases |StripeData(job, base)| - done
  {
    var full := FullReads(job, base, done);
    if full != [] {
      FullReadsAreAsked(job, base, done + full[0]);
      assert full[1..] == FullReads(job, base, done + full[0]);
    }
  }

  // No read is short.
  ghost predicate ReadsInFull<D>(job: Job<D>) {
    forall base: nat :: OnGrid(job, base) ==> job.sizes(base) == FullReads(job, base, 0)
  }

  ghost predicate AllMultiples(sizes: seq<nat>) {
    forall i :: 0 <= i < |sizes| ==> sizes[i] % CHUNK_SIZE == 0
  }

  lemma AlignedConcat(a: seq<nat>, b: seq<nat>, both: seq<nat>)
    requires both == a + b
    requires Aligned(a) && Aligned(b) && (b == [] || AllMultiples(a))
    ensures Aligned(both)
  {
  }

  lemma AlignedCons(n: nat, rest: seq<nat>)
    requires n % CHUNK_SIZE == 0 && Aligned(rest)
    ensures Aligned([n] + rest) && (AllMultiples(rest) ==> AllMultiples([n] + rest))
  {
  }

  lemma MultipleLess(m: int, n: int)
    requires n % CHUNK_SIZE == 0
    ensures (m - n) % CHUNK_SIZE == 0 <==> m % CHUNK_SIZE == 0
  {
  }

  // As long as all of a stripe can be asked for, a block is asked for until less is left.
  lemma FullReadIsBlock<D>(job: Job<D>, base: nat, done: nat)
    requires Sized(job) && done < |StripeData(job, base)| && StripeLength(job, base) < READ_LIMIT
    ensures var left := |StripeData(job, base)| - done;
      var n := if job.blockSize < left then job.blockSize else left;
      FullReads(job, base, done) == [n] + FullReads(job, base, done + n)
  {
    var len := StripeLength(job, base);
    assert |StripeData(job, base)| <= len;
    DivModUnique(0, READ_LIMIT, if len - done < job.blockSize then len - done else job.blockSize);
  }

  // Blocks of whole chunks keep to chunk boundaries; the last one does if the stripe does.
  lemma {:induction false} FullReadsAligned<D>(job: Job<D>, base: nat, done: nat)
    requires Sized(job) && job.blockSize % CHUNK_SIZE == 0 && StripeLength(job, base) < READ_LIMIT
    requires done <= |StripeData(job, base)|
    ensures Aligned(FullReads(job, base, done))
    ensures (|StripeData(job, base)| - done) % CHUNK_SIZE == 0 ==> AllMultiples(FullReads(job, base, done))
    decreases |StripeData(job, base)| - done
  {
    if done < |StripeData(job, base)| {
      FullReadIsBlock(job, base, done);
      if job.blockSize < |StripeData(job, base)| - done {
        FullReadsAligned(job, base, done + job.blockSize);
        AlignedCons(job.blockSize, FullReads(job, base, done + job.blockSize));
        MultipleLess(|StripeData(job, base)| - done, job.blockSize);
      } else {
        var left := |StripeData(job, base)| - done;
        assert FullReads(job, base, done) == [left] + FullReads(job, base, done + left) == [left];
      }
    }
  }

  // The reads of a stripe keep to chunk boundaries, and so does its end unless it is the last.
  ghost predicate AlignedStripe<D>(job: Job<D>, base: nat) {
    && Aligned(job.sizes(base))
    && (base + job.stripeSize < |job.input| ==> AllMultiples(job.sizes(base)))
  }

  lemma FullReadsAlignStripe<D>(job: Job<D>, base: nat)
    requires Sized(job) && ReadsInFull(job) && job.blockSize % CHUNK_SIZE == 0 && OnGrid(job, base)
    requires StripeLength(job, 0) < READ_LIMIT
    ensures AlignedStripe(job, base)
  {
    FullReadsAligned(job, base, 0);
    assert job.stripeSize % CHUNK_SIZE == 0;
  }

  lemma {:induction false} AlignedStripesAlignAll<D>(job: Job<D>, base: nat)
    requires OnGrid(job, base) && forall b: nat :: OnGrid(job, b) ==> AlignedStripe(job, b)
    ensures Aligned(AllReads(job, base))
    decreases |job.input| - base
  {
    if base < |job.input| {
      var next := base + job.stripeSize;
      AlignedStripesAlignAll(job, next);
      assert AlignedStripe(job, base);
      AlignedConcat(job.sizes(base), AllReads(job, next), AllReads(job, base));
    }
  }

  // A first read that does not end the input is as long as a block.
  lemma FirstRead<D>(job: Job<D>)
    requires Sized(job) && ReadsInFull(job) && StripeLength(job, 0) < READ_LIMIT && |job.input| > job.blockSize
    ensures |AllReads(job, 0)| > 1 && AllReads(job, 0)[0] == job.blockSize
  {
    var data, size := StripeData(job, 0), job.blockSize;
    assert OnGrid(job, 0) && OnGrid(job, job.stripeSize);
    FullReadIsBlock(job, 0, 0);
    if |data| > size {
      FullReadIsBlock(job, 0, size);
    } else {
      assert job.stripeSize == size && |StripeData(job, size)| > 0;
      assert StripeLength(job, size) < READ_LIMIT;
      FullReadIsBlock(job, size, 0);
      assert AllReads(job, 0) == job.sizes(0) + AllReads(job, size);
    }
  }

  lemma SingleRead<D>(job: Job<D>)
    requires Sized(job) && ReadsInFull(job) && FitsReads(job) && 0 < |job.input| <= job.blockSize
    ensures |AllReads(job, 0)| == 1
  {
    assert OnGrid(job, 0) && StripeData(job, 0) == job.input;
    if StripeLength(job, 0) < READ_LIMIT {
      FullReadIsBlock(job, 0, 0);
    } else {
      AskedRemainder(job, 0);
    }
    assert FullReads(job, 0, |job.input|) == [];
  }

  lemma FullReadsAlignedIff<D>(job: Job<D>)
    requires Sized(job) && ReadsInFull(job) && FitsReads(job) && job.input != []
    ensures Aligned(AllReads(job, 0)) <==> job.blockSize % CHUNK_SIZE == 0 || |job.input| <= job.blockSize
  {
    if |job.input| <= job.blockSize {
      SingleRead(job);
    } else if job.blockSize % CHUNK_SIZE == 0 {
      forall b: nat | OnGrid(job, b)
        ensures AlignedStripe(job, b)
      {
        FullReadsAlignStripe(job, b);
      }
      AlignedStripesAlignAll(job, 0);
    } else {
      FirstRead(job);
    }
  }

  // Without short reads, for every block size and every schedule the combined digest is computed as
  // the digest of the input is if and only if the requests fit in 32 bits, the input has more than
  // one chunk, and the block size is a multiple of the chunk size or no smaller than the input.
  lemma GuardIsExact(job: Job<Term>, run: seq<State<Term>>, sorted: seq<Stripe<Term>>)
    requires Sized(job) && ReadsInFull(job) && job.compressor == FORMAL
    requires IsCompleteRun(job, run) && SortsRun(sorted, run)
    ensures GivesDigest(job, sorted) <==>
      && FitsReads(job) && |job.input| > CHUNK_SIZE
      && (job.blockSize % CHUNK_SIZE == 0 || |job.input| <= job.blockSize)
  {
    forall base: nat | OnGrid(job, base)
      ensures ReadsAsAsked(job, base, 0, job.sizes(base))
    {
      FullReadsAreAsked(job, base, 0);
    }
    ShardedDigestIff(job, run, sorted);
    if FitsReads(job) && job.input != [] {
      FullReadsAlignedIff(job);
    }
  }
}
