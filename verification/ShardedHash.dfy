// The sharded copy and its BLKS combiner (rust/src/uring.rs): worker threads claim stripes of
// the input from a shared counter, copy them read by read, hash what each read returns, and the
// stripes' leaves are put in order at the end. Cancellation and I/O errors are left out.
module ShardedHash {
  import opened Common
  import opened Powers
  import opened BlksTree

  // ----- one stripe -----

  // The sizes are those of successful reads that together deliver len bytes.
  ghost predicate Delivers(sizes: seq<nat>, len: nat) {
    if sizes == [] then len == 0 else 0 < sizes[0] <= len && Delivers(sizes[1..], len - sizes[0])
  }

  // Each read's bytes are cut into chunks on their own.
  function LeavesByReads<D>(c: Compressor<D>, data: seq<Byte>, sizes: seq<nat>): (leaves: seq<D>)
    ensures Delivers(sizes, |data|) ==> (leaves == [] <==> data == [])
    decreases |sizes|
  {
    if sizes == [] || sizes[0] > |data| then []
    else Leaves(c, data[..sizes[0]]) + LeavesByReads(c, data[sizes[0]..], sizes[1..])
  }

  // Every read but the last ends on a chunk boundary.
  ghost predicate Aligned(sizes: seq<nat>) {
    forall i :: 0 <= i < |sizes| - 1 ==> sizes[i] % CHUNK_SIZE == 0
  }

  lemma {:induction false} AlignedReadsKeepLeaves<D>(c: Compressor<D>, data: seq<Byte>, sizes: seq<nat>)
    requires Delivers(sizes, |data|) && Aligned(sizes)
    ensures LeavesByReads(c, data, sizes) == Leaves(c, data)
    decreases |sizes|
  {
    if |sizes| == 1 {
      assert data[..sizes[0]] == data;
    } else if sizes != [] {
      var n := sizes[0];
      assert data == data[..n] + data[n..];
      LeavesConcat(c, data[..n], data[n..], n / CHUNK_SIZE);
      AlignedReadsKeepLeaves(c, data[n..], sizes[1..]);
    }
  }

  lemma FirstReadOfBoth<D>(c: Compressor<D>, a: seq<Byte>, s: seq<nat>, b: seq<Byte>, t: seq<nat>)
    requires s != [] && 0 < s[0] <= |a|
    ensures Delivers(s + t, |a + b|) <==> Delivers(s[1..] + t, |a[s[0]..] + b|)
    ensures LeavesByReads(c, a + b, s + t) ==
      Leaves(c, a[..s[0]]) + LeavesByReads(c, a[s[0]..] + b, s[1..] + t)
  {
    assert (s + t)[1..] == s[1..] + t;
    assert (a + b)[..s[0]] == a[..s[0]] && (a + b)[s[0]..] == a[s[0]..] + b;
  }

  // Reads of one message followed by reads of another are reads of both.
  lemma {:induction false} ReadsConcat<D>(
      c: Compressor<D>, a: seq<Byte>, s: seq<nat>, b: seq<Byte>, t: seq<nat>)
    requires Delivers(s, |a|) && Delivers(t, |b|)
    ensures Delivers(s + t, |a + b|)
    ensures LeavesByReads(c, a + b, s + t) == LeavesByReads(c, a, s) + LeavesByReads(c, b, t)
    decreases |s|
  {
    if s == [] {
      assert a + b == b && s + t == t;
    } else {
      var n := s[0];
      ReadsConcat(c, a[n..], s[1..], b, t);
      FirstReadOfBoth(c, a, s, b, t);
      Associate(Leaves(c, a[..n]), LeavesByReads(c, a[n..], s[1..]), LeavesByReads(c, b, t));
    }
  }

  lemma ReadsOfBoth<D>(
      c: Compressor<D>, a: seq<Byte>, s: seq<nat>, b: seq<Byte>, t: seq<nat>, both: seq<Byte>, all: seq<nat>)
    requires Delivers(s, |a|) && Delivers(t, |b|) && both == a + b && all == s + t
    ensures Delivers(all, |both|)
    ensures LeavesByReads(c, both, all) == LeavesByReads(c, a, s) + LeavesByReads(c, b, t)
  {
    ReadsConcat(c, a, s, b, t);
  }

  // ----- the workers -----

  // A worker is between stripes, has copied done bytes of the stripe at base and will meet the
  // rest of its reads, or has left.
  datatype Phase<D> = Idle | Busy(base: nat, rest: seq<nat>, done: nat, leaves: seq<D>) | Gone

  datatype Stripe<D> = Stripe(base: nat, leaves: seq<D>)

  // The output's bytes by their offset from where the copy starts.
  datatype State<D> = State(
    next: nat, abort: bool, phases: seq<Phase<D>>, finished: seq<seq<Stripe<D>>>, output: map<nat, Byte>)

  type Positive = n: nat | n > 0 witness 1

  const STRIPE_BYTES: Positive := 64 * 1024 * 1024

  // The length of a read is passed on in 32 bits.
  const READ_LIMIT: Positive := 0x1_0000_0000

  // What does not change during a copy. The input is what there is to read in the requested
  // range; the range may go on behind the input, or be unknown. The sizes are those of the reads
  // that the worker of a stripe will meet.
  datatype Job<!D> = Job(
    compressor: Compressor<D>, input: seq<Byte>, requested: Option<nat>, blockSize: Positive, stripeSize: Positive,
    sizes: nat -> seq<nat>)

  // The length of the stripe at base; 0 if nothing is requested there.
  function StripeLength<D>(job: Job<D>, base: nat): nat {
    match job.requested
    case None => job.stripeSize
    case Some(total) =>
      if total <= base then 0 else if total - base < job.stripeSize then total - base else job.stripeSize
  }

  // What the input holds of it.
  function StripeData<D>(job: Job<D>, base: nat): seq<Byte> {
    if base >= |job.input| then []
    else if base + job.stripeSize <= |job.input| then job.input[base..base + job.stripeSize]
    else job.input[base..]
  }

  // How many bytes the read behind done bytes of a stripe asks for: the smaller of what is left
  // and a block, modulo 2^32.
  function Asked<D>(job: Job<D>, base: nat, done: nat): nat {
    var len := StripeLength(job, base);
    if done >= len then 0
    else (if len - done < job.blockSize then len - done else job.blockSize) % READ_LIMIT
  }

  // A read returns at least a byte and at most what it asks for, and nothing at the end of the
  // file or if it asks for nothing.
  ghost predicate ReadsAsAsked<D>(job: Job<D>, base: nat, done: nat, sizes: seq<nat>)
    decreases |sizes|
  {
    if sizes == [] then done >= |StripeData(job, base)| || Asked(job, base, done) == 0
    else
      && 0 < sizes[0] <= Asked(job, base, done)
      && done + sizes[0] <= |StripeData(job, base)|
      && ReadsAsAsked(job, base, done + sizes[0], sizes[1..])
  }

  predicate Sized<D>(job: Job<D>) {
    && (job.requested.Some? ==> |job.input| <= job.requested.value)
    && job.stripeSize == if job.blockSize > STRIPE_BYTES then job.blockSize else STRIPE_BYTES
  }

  // A stripe starts at 0 or behind the first one.
  predicate OnGrid<D>(job: Job<D>, base: nat) {
    base == 0 || base >= job.stripeSize
  }

  ghost predicate ValidJob<D>(job: Job<D>) {
    Sized(job) && forall base: nat :: OnGrid(job, base) ==> ReadsAsAsked(job, base, 0, job.sizes(base))
  }

  function Sum(sizes: seq<nat>): nat {
    if sizes == [] then 0 else sizes[0] + Sum(sizes[1..])
  }

  // What is read of a stripe.
  function ReadPart<D>(job: Job<D>, base: nat): (part: seq<Byte>)
    ensures part <= StripeData(job, base)
  {
    var n, data := Sum(job.sizes(base)), StripeData(job, base);
    if n <= |data| then data[..n] else data
  }

  function StripeLeaves<D>(job: Job<D>, base: nat): seq<D> {
    LeavesByReads(job.compressor, ReadPart(job, base), job.sizes(base))
  }

  lemma {:induction false} AskedReadsDeliver<D>(job: Job<D>, base: nat, done: nat, sizes: seq<nat>)
    requires ReadsAsAsked(job, base, done, sizes) && done <= |StripeData(job, base)|
    ensures done + Sum(sizes) <= |StripeData(job, base)| && Delivers(sizes, Sum(sizes))
    ensures done + Sum(sizes) == |StripeData(job, base)| || Asked(job, base, done + Sum(sizes)) == 0
    decreases |sizes|
  {
    if sizes != [] {
      AskedReadsDeliver(job, base, done + sizes[0], sizes[1..]);
    }
  }

  // Requests of less than 4 GiB fit.
  lemma SmallBlocksFit<D>(job: Job<D>)
    requires Sized(job) && job.blockSize < 4 * 1024 * 1024 * 1024
    ensures FitsReads(job)
  {
  }

  // All stripes are read to their end.
  ghost predicate Whole<D>(job: Job<D>) {
    forall base: nat :: OnGrid(job, base) ==> |ReadPart(job, base)| == |StripeData(job, base)|
  }

  // What a caller can check: the first stripe, which is the longest, can be asked for in 32 bits,
  // or the input ends before the remainder that its first read asks for instead.
  predicate FitsReads<D>(job: Job<D>) {
    StripeLength(job, 0) < READ_LIMIT || |job.input| <= StripeLength(job, 0) % READ_LIMIT
  }

  lemma FittingReadsAreWhole<D>(job: Job<D>, base: nat)
    requires ValidJob(job) && FitsReads(job) && OnGrid(job, base)
    ensures |ReadPart(job, base)| == |StripeData(job, base)|
  {
    AskedReadsDeliver(job, base, 0, job.sizes(base));
    var done, len := Sum(job.sizes(base)), StripeLength(job, base);
    if len < READ_LIMIT && done < len {
      AskedBelow(job, base, done);
    } else if StripeLength(job, 0) >= READ_LIMIT && base == 0 && done < |StripeData(job, 0)| {
      AskedRemainder(job, done);
    }
  }

  lemma AskedBelow<D>(job: Job<D>, base: nat, done: nat)
    requires done < StripeLength(job, base) < READ_LIMIT
    ensures Asked(job, base, done) > 0
  {
    var n := if StripeLength(job, base) - done < job.blockSize then StripeLength(job, base) - done else job.blockSize;
    DivModUnique(0, READ_LIMIT, n);
  }

  // A first stripe of 4 GiB or more is asked for at once, and the remainder is all that it gets.
  lemma AskedRemainder<D>(job: Job<D>, done: nat)
    requires Sized(job) && StripeLength(job, 0) >= READ_LIMIT && done <= StripeLength(job, 0) % READ_LIMIT
    ensures Asked(job, 0, done) == StripeLength(job, 0) % READ_LIMIT - done
  {
    var len := StripeLength(job, 0);
    assert job.blockSize == job.stripeSize >= len;
    DivModUnique(len / READ_LIMIT, READ_LIMIT, len % READ_LIMIT - done);
  }

  lemma {:induction false} RemainderIsAll<D>(job: Job<D>, done: nat, sizes: seq<nat>)
    requires Sized(job) && StripeLength(job, 0) >= READ_LIMIT && done <= StripeLength(job, 0) % READ_LIMIT
    requires ReadsAsAsked(job, 0, done, sizes)
    ensures done + Sum(sizes) <= StripeLength(job, 0) % READ_LIMIT
    decreases |sizes|
  {
    if sizes != [] {
      AskedRemainder(job, done);
      RemainderIsAll(job, done + sizes[0], sizes[1..]);
    }
  }

  // Otherwise the first stripe is cut short.
  lemma UnfitReadsCutFirst<D>(job: Job<D>)
    requires ValidJob(job) && !FitsReads(job)
    ensures |ReadPart(job, 0)| < |StripeData(job, 0)|
  {
    assert OnGrid(job, 0);
    RemainderIsAll(job, 0, job.sizes(0));
  }

  // The stripes are all read to their end exactly when the requests fit.
  lemma WholeIffFits<D>(job: Job<D>)
    requires ValidJob(job)
    ensures Whole(job) <==> FitsReads(job)
  {
    if FitsReads(job) {
      forall base: nat | OnGrid(job, base)
        ensures |ReadPart(job, base)| == |StripeData(job, base)|
      {
        FittingReadsAreWhole(job, base);
      }
    } else {
      UnfitReadsCutFirst(job);
      assert OnGrid(job, 0);
    }
  }

  ghost predicate Init<D>(s: State<D>) {
    && s.next == 0 && !s.abort && s.output == map[]
    && s.phases != [] && |s.phases| == |s.finished|
    && forall w :: 0 <= w < |s.phases| ==> s.phases[w] == Idle && s.finished[w] == []
  }

  // fetch_add on the shared offset: the worker owns the stripe it got, if there is one.
  ghost predicate Claim<D>(job: Job<D>, s: State<D>, s': State<D>, w: nat) {
    && w < |s.phases| && s.phases[w] == Idle
    && s' == s.(next := s.next + job.stripeSize, phases := s.phases[w := Claimed(job, s.next)])
  }

  function Claimed<D>(job: Job<D>, base: nat): Phase<D> {
    if StripeLength(job, base) > 0 then Busy(base, job.sizes(base), 0, []) else Gone
  }

  // A worker that sees the flag leaves; the load is relaxed, so it may also go on.
  ghost predicate Abort<D>(s: State<D>, s': State<D>, w: nat) {
    w < |s.phases| && s.phases[w] == Idle && s.abort && s' == s.(phases := s.phases[w := Gone])
  }

  ghost predicate Writes(output: map<nat, Byte>, output': map<nat, Byte>, at: nat, block: seq<Byte>) {
    forall i: nat {:trigger i in output'} ::
      && (i in output' <==> i in output || at <= i < at + |block|)
      && (i in output' ==> output'[i] == if at <= i < at + |block| then block[i - at] else output[i])
  }

  function Overwritten(output: map<nat, Byte>, at: nat, block: seq<Byte>): (output': map<nat, Byte>)
    ensures Writes(output, output', at, block)
  {
    if block == [] then output
    else Overwritten(output, at, block[..|block| - 1])[at + |block| - 1 := block[|block| - 1]]
  }

  // The block that a busy worker's next read returns, and the worker afterwards.
  ghost predicate HasBlock<D>(job: Job<D>, p: Phase<D>) {
    p.Busy? && p.rest != [] && p.done + p.rest[0] <= |ReadPart(job, p.base)|
  }

  function Block<D>(job: Job<D>, p: Phase<D>): (block: seq<Byte>)
    requires HasBlock(job, p)
    ensures |block| == p.rest[0]
  {
    ReadPart(job, p.base)[p.done..p.done + p.rest[0]]
  }

  function AfterBlock<D>(job: Job<D>, p: Phase<D>): Phase<D>
    requires HasBlock(job, p)
  {
    Busy(p.base, p.rest[1..], p.done + p.rest[0], p.leaves + Leaves(job.compressor, Block(job, p)))
  }

  function OutputAfter<D>(job: Job<D>, output: map<nat, Byte>, p: Phase<D>): map<nat, Byte>
    requires HasBlock(job, p)
  {
    Overwritten(output, p.base + p.done, Block(job, p))
  }

  // One read and the writes of what it returned, to the same place of the output.
  ghost predicate Copy<D>(job: Job<D>, s: State<D>, s': State<D>, w: nat) {
    && w < |s.phases| && HasBlock(job, s.phases[w])
    && s' == s.(output := OutputAfter(job, s.output, s.phases[w]),
                phases := s.phases[w := AfterBlock(job, s.phases[w])])
  }

  // A worker keeps a stripe's leaves if there are any.
  function HandIn<D>(mine: seq<Stripe<D>>, p: Phase<D>): seq<Stripe<D>>
    requires p.Busy?
  {
    if p.leaves == [] then mine else mine + [Stripe(p.base, p.leaves)]
  }

  // The stripe is copied to its end.
  ghost predicate Finish<D>(job: Job<D>, s: State<D>, s': State<D>, w: nat) {
    && w < |s.phases| == |s.finished| && s.phases[w].Busy?
    && s.phases[w].done == StripeLength(job, s.phases[w].base)
    && s' == s.(phases := s.phases[w := Idle], finished := s.finished[w := HandIn(s.finished[w], s.phases[w])])
  }

  predicate ReadsNothing<D>(job: Job<D>, base: nat, done: nat) {
    base + done >= |job.input| || Asked(job, base, done) == 0
  }

  // A read inside the stripe returns nothing, which the worker takes for the end of the file: it
  // tells the others and leaves.
  ghost predicate Eof<D>(job: Job<D>, s: State<D>, s': State<D>, w: nat) {
    && w < |s.phases| == |s.finished| && s.phases[w].Busy?
    && s.phases[w].done < StripeLength(job, s.phases[w].base)
    && ReadsNothing(job, s.phases[w].base, s.phases[w].done)
    && s' == s.(abort := true, phases := s.phases[w := Gone],
                finished := s.finished[w := HandIn(s.finished[w], s.phases[w])])
  }

  ghost predicate WorkerStep<D>(job: Job<D>, s: State<D>, s': State<D>, w: nat) {
    Claim(job, s, s', w) || Abort(s, s', w) || Copy(job, s, s', w) || Finish(job, s, s', w) || Eof(job, s, s', w)
  }

  ghost predicate Step<D>(job: Job<D>, s: State<D>, s': State<D>) {
    exists w: nat :: WorkerStep(job, s, s', w)
  }

  ghost predicate IsRun<D>(job: Job<D>, run: seq<State<D>>) {
    && run != [] && Init(run[0])
    && forall i :: 0 < i < |run| ==> Step(job, run[i - 1], run[i])
  }

  // ----- every stripe once -----

  // Where the stripes of an input of so many bytes start, from a base on.
  function Bases(len: nat, size: Positive, base: nat): seq<nat>
    decreases len - base
  {
    if base >= len then [] else [base] + Bases(len, size, base + size)
  }

  // How often the stripe at a base is held by a worker: while it is busy with it.
  function HeldBy<D>(len: nat, p: Phase<D>, base: nat): nat {
    if p.Busy? && p.base == base < len then 1 else 0
  }

  function Held<D>(len: nat, phases: seq<Phase<D>>, base: nat): nat {
    if phases == [] then 0 else HeldBy(len, phases[0], base) + Held(len, phases[1..], base)
  }

  function Map<A, B>(f: A -> B, xs: seq<A>): (ys: seq<B>)
    ensures |ys| == |xs| && forall i :: 0 <= i < |xs| ==> ys[i] == f(xs[i])
  {
    seq(|xs|, i requires 0 <= i < |xs| => f(xs[i]))
  }

  function BasesOf<D>(stripes: seq<Stripe<D>>): seq<nat> {
    Map((stripe: Stripe<D>) => stripe.base, stripes)
  }

  // How often it is finished, and how often still to be claimed.
  function Finished<D>(finished: seq<seq<Stripe<D>>>, base: nat): nat {
    if finished == [] then 0 else multiset(BasesOf(finished[0]))[base] + Finished(finished[1..], base)
  }

  function Unclaimed(len: nat, size: Positive, next: nat, base: nat): nat
    decreases len - next
  {
    if next >= len then 0 else (if next == base then 1 else 0) + Unclaimed(len, size, next + size, base)
  }

  // Joining the workers collects what they finished.
  function Collected<D>(finished: seq<seq<Stripe<D>>>): seq<Stripe<D>> {
    if finished == [] then [] else finished[0] + Collected(finished[1..])
  }

  lemma {:induction false} HeldUpdate<D>(len: nat, phases: seq<Phase<D>>, w: nat, p: Phase<D>, base: nat)
    requires w < |phases|
    ensures Held(len, phases[w := p], base) + HeldBy(len, phases[w], base) ==
      Held(len, phases, base) + HeldBy(len, p, base)
  {
    if w == 0 {
      assert phases[w := p][1..] == phases[1..];
    } else {
      assert phases[w := p][1..] == phases[1..][w - 1 := p];
      HeldUpdate(len, phases[1..], w - 1, p, base);
    }
  }

  lemma BasesSnoc<D>(mine: seq<Stripe<D>>, stripe: Stripe<D>, base: nat)
    ensures multiset(BasesOf(mine + [stripe]))[base] ==
      multiset(BasesOf(mine))[base] + if stripe.base == base then 1 else 0
  {
    assert BasesOf(mine + [stripe]) == BasesOf(mine) + [stripe.base];
  }

  lemma {:induction false} FinishedUpdate<D>(finished: seq<seq<Stripe<D>>>, w: nat, stripe: Stripe<D>, base: nat)
    requires w < |finished|
    ensures Finished(finished[w := finished[w] + [stripe]], base) ==
      Finished(finished, base) + if stripe.base == base then 1 else 0
  {
    var more := finished[w := finished[w] + [stripe]];
    if w == 0 {
      assert more[1..] == finished[1..];
      BasesSnoc(finished[0], stripe, base);
    } else {
      assert more[1..] == finished[1..][w - 1 := finished[1..][w - 1] + [stripe]];
      FinishedUpdate(finished[1..], w - 1, stripe, base);
    }
  }

  // ----- the invariant -----

  // Claims go from stripe to stripe. When all stripes are read to their end, whoever has left, or
  // set the flag, did so behind the end of the input.
  ghost predicate ClaimsInv<D>(job: Job<D>, next: nat, abort: bool, phases: seq<Phase<D>>) {
    && OnGrid(job, next)
    && (Whole(job) && abort ==> next >= |job.input|)
    && forall w :: 0 <= w < |phases| ==>
         && (Whole(job) && phases[w].Gone? ==> next >= |job.input|)
         && (phases[w].Busy? ==> phases[w].base + job.stripeSize <= next)
  }

  // The rest of the reads delivers the rest of the data, and its leaves are those that are missing.
  ghost predicate Tracks<D>(
      c: Compressor<D>, data: seq<Byte>, done: nat, rest: seq<nat>, leaves: seq<D>, all: seq<D>)
  {
    && done <= |data|
    && Delivers(rest, |data| - done)
    && leaves + LeavesByReads(c, data[done..], rest) == all
  }

  ghost predicate OnTrack<D>(job: Job<D>, p: Phase<D>) {
    p.Busy? ==>
      && OnGrid(job, p.base) && StripeLength(job, p.base) > 0
      && Tracks(job.compressor, ReadPart(job, p.base), p.done, p.rest, p.leaves, StripeLeaves(job, p.base))
      && ReadsAsAsked(job, p.base, p.done, p.rest)
  }

  ghost predicate AllOnTrack<D>(job: Job<D>, phases: seq<Phase<D>>) {
    forall w :: 0 <= w < |phases| ==> OnTrack(job, phases[w])
  }

  // What is in the output is in the input, at the same place, and of the first stripe it is only
  // what is read. When all stripes are read to their end, what is claimed and not in the output is
  // still to be copied by the worker that claimed it.
  ghost predicate CopyInv<D>(
      job: Job<D>, next: nat, phases: seq<Phase<D>>, output: map<nat, Byte>, whole: bool)
  {
    && HoldsInput(job, output)
    && HoldsReadPart(job, output)
    && (whole ==> AllPending(job, next, phases, output))
  }

  ghost predicate HoldsInput<D>(job: Job<D>, output: map<nat, Byte>) {
    forall i {:trigger i in output} :: i in output ==> i < |job.input| && output[i] == job.input[i]
  }

  ghost predicate HoldsReadPart<D>(job: Job<D>, output: map<nat, Byte>) {
    forall i :: i in output && i < job.stripeSize ==> i < |ReadPart(job, 0)|
  }

  ghost predicate AllPending<D>(job: Job<D>, next: nat, phases: seq<Phase<D>>, output: map<nat, Byte>) {
    forall i: nat :: i < next && i < |job.input| && i !in output ==> Pending(job, phases, i)
  }

  ghost predicate Pending<D>(job: Job<D>, phases: seq<Phase<D>>, i: nat) {
    exists w :: 0 <= w < |phases| && ToCopy(job, phases[w], i)
  }

  ghost predicate ToCopy<D>(job: Job<D>, p: Phase<D>, i: nat) {
    p.Busy? && p.base + p.done <= i < p.base + |ReadPart(job, p.base)|
  }

  // Every stripe of the input is finished, held or unclaimed, at most once, and exactly once if no
  // stripe is cut short.
  ghost predicate Complete<D>(
      len: nat, size: Positive, finished: seq<seq<Stripe<D>>>, phases: seq<Phase<D>>, next: nat, whole: bool)
  {
    forall base: nat ::
      var sum := Finished(finished, base) + Held(len, phases, base) + Unclaimed(len, size, next, base);
      sum <= Unclaimed(len, size, 0, base) && (whole ==> sum == Unclaimed(len, size, 0, base))
  }

  // The finished stripes have their leaves, at least one.
  ghost predicate Right<D>(job: Job<D>, stripes: seq<Stripe<D>>) {
    forall k :: 0 <= k < |stripes| ==> stripes[k] == StripeAt(job, stripes[k].base) && stripes[k].leaves != []
  }

  function StripeAt<D>(job: Job<D>, base: nat): Stripe<D> {
    Stripe(base, StripeLeaves(job, base))
  }

  ghost predicate AllRight<D>(job: Job<D>, finished: seq<seq<Stripe<D>>>) {
    forall w :: 0 <= w < |finished| ==> Right(job, finished[w])
  }

  ghost predicate WorkInv<D>(job: Job<D>, s: State<D>) {
    && 0 < |s.phases| == |s.finished|
    && ClaimsInv(job, s.next, s.abort, s.phases)
    && AllOnTrack(job, s.phases)
    && AllRight(job, s.finished)
  }

  ghost predicate OutputInv<D>(job: Job<D>, s: State<D>) {
    CopyInv(job, s.next, s.phases, s.output, Whole(job))
  }

  ghost predicate CountInv<D>(job: Job<D>, s: State<D>) {
    |s.phases| == |s.finished| && Complete(|job.input|, job.stripeSize, s.finished, s.phases, s.next, Whole(job))
  }

  ghost predicate Inv<D>(job: Job<D>, s: State<D>) {
    WorkInv(job, s) && OutputInv(job, s) && CountInv(job, s)
  }

  lemma {:induction false} NothingHeld<D>(len: nat, phases: seq<Phase<D>>, base: nat)
    requires forall w :: 0 <= w < |phases| ==> !phases[w].Busy?
    ensures Held(len, phases, base) == 0
  {
    if phases != [] {
      NothingHeld(len, phases[1..], base);
    }
  }

  lemma {:induction false} NothingFinished<D>(finished: seq<seq<Stripe<D>>>, base: nat)
    requires forall w :: 0 <= w < |finished| ==> finished[w] == []
    ensures Finished(finished, base) == 0
  {
    if finished != [] {
      NothingFinished(finished[1..], base);
    }
  }

  lemma InitInv<D>(job: Job<D>, s: State<D>)
    requires Init(s)
    ensures Inv(job, s)
  {
    forall base: nat
      ensures Finished(s.finished, base) == Held(|job.input|, s.phases, base) == 0
    {
      NothingHeld(|job.input|, s.phases, base);
      NothingFinished(s.finished, base);
    }
  }

  // ----- claiming -----

  lemma ClaimComplete<D>(
      len: nat, size: Positive, finished: seq<seq<Stripe<D>>>, phases: seq<Phase<D>>, next: nat, whole: bool,
      w: nat, p: Phase<D>)
    requires w < |phases| && phases[w] == Idle
    requires if next < len then p.Busy? && p.base == next else p.Busy? ==> p.base >= len
    requires Complete(len, size, finished, phases, next, whole)
    ensures Complete(len, size, finished, phases[w := p], next + size, whole)
  {
    forall base: nat
      ensures Held(len, phases[w := p], base) + Unclaimed(len, size, next + size, base) ==
        Held(len, phases, base) + Unclaimed(len, size, next, base)
    {
      HeldUpdate(len, phases, w, p, base);
    }
  }

  lemma ClaimOnTrack<D>(job: Job<D>, phases: seq<Phase<D>>, w: nat, base: nat)
    requires ValidJob(job) && AllOnTrack(job, phases) && w < |phases| && OnGrid(job, base)
    ensures AllOnTrack(job, phases[w := Claimed(job, base)])
  {
    var data, sizes := ReadPart(job, base), job.sizes(base);
    AskedReadsDeliver(job, base, 0, sizes);
    assert data[0..] == data;
    assert [] + StripeLeaves(job, base) == StripeLeaves(job, base);
  }

  lemma ClaimCopies<D>(job: Job<D>, next: nat, phases: seq<Phase<D>>, output: map<nat, Byte>, w: nat)
    requires ValidJob(job) && AllPending(job, next, phases, output) && w < |phases| && phases[w] == Idle
    requires |ReadPart(job, next)| == |StripeData(job, next)|
    ensures AllPending(job, next + job.stripeSize, phases[w := Claimed(job, next)], output)
  {
    var phases' := phases[w := Claimed(job, next)];
    forall i: nat | i < next + job.stripeSize && i < |job.input| && i !in output
      ensures Pending(job, phases', i)
    {
      if i < next {
        StillPending(job, phases, w, Claimed(job, next), i);
      } else {
        assert ToCopy(job, phases'[w], i);
      }
    }
  }

  // What another worker, or what this one has not given up, remains to be copied.
  lemma StillPending<D>(job: Job<D>, phases: seq<Phase<D>>, w: nat, p: Phase<D>, i: nat)
    requires Pending(job, phases, i) && w < |phases|
    requires ToCopy(job, phases[w], i) ==> ToCopy(job, p, i)
    ensures Pending(job, phases[w := p], i)
  {
    var v :| 0 <= v < |phases| && ToCopy(job, phases[v], i);
    assert ToCopy(job, phases[w := p][v], i);
  }

  lemma ClaimWork<D>(job: Job<D>, s: State<D>, s': State<D>, w: nat)
    requires ValidJob(job) && WorkInv(job, s) && Claim(job, s, s', w)
    ensures WorkInv(job, s')
  {
    ClaimOnTrack(job, s.phases, w, s.next);
  }

  lemma ClaimOutput<D>(job: Job<D>, s: State<D>, s': State<D>, w: nat)
    requires ValidJob(job) && WorkInv(job, s) && OutputInv(job, s) && Claim(job, s, s', w)
    ensures OutputInv(job, s')
  {
    if Whole(job) {
      ClaimCopies(job, s.next, s.phases, s.output, w);
    }
  }

  lemma ClaimCount<D>(job: Job<D>, s: State<D>, s': State<D>, w: nat)
    requires ValidJob(job) && CountInv(job, s) && Claim(job, s, s', w)
    ensures CountInv(job, s')
  {
    ClaimComplete(|job.input|, job.stripeSize, s.finished, s.phases, s.next, Whole(job),
                  w, Claimed(job, s.next));
  }

  // ----- copying -----

  lemma NextRead<D>(c: Compressor<D>, data: seq<Byte>, done: nat, rest: seq<nat>, leaves: seq<D>, all: seq<D>)
    requires Tracks(c, data, done, rest, leaves, all) && rest != [] && done + rest[0] <= |data|
    ensures var now := done + rest[0];
      Tracks(c, data, now, rest[1..], leaves + Leaves(c, data[done..now]), all)
  {
    var now := done + rest[0];
    assert data[done..][..rest[0]] == data[done..now] && data[done..][rest[0]..] == data[now..];
    Associate(leaves, Leaves(c, data[done..now]), LeavesByReads(c, data[now..], rest[1..]));
  }

  lemma NextAsked<D>(job: Job<D>, base: nat, done: nat, rest: seq<nat>)
    requires ReadsAsAsked(job, base, done, rest) && rest != []
    ensures ReadsAsAsked(job, base, done + rest[0], rest[1..])
  {
  }

  lemma NextBlock<D>(job: Job<D>, p: Phase<D>)
    requires OnTrack(job, p) && HasBlock(job, p)
    ensures OnTrack(job, AfterBlock(job, p))
  {
    NextAsked(job, p.base, p.done, p.rest);
    NextRead(job.compressor, ReadPart(job, p.base), p.done, p.rest, p.leaves, StripeLeaves(job, p.base));
  }

  // A worker can be replaced by one that holds the same.
  lemma SameHeldComplete<D>(
      len: nat, size: Positive, finished: seq<seq<Stripe<D>>>, phases: seq<Phase<D>>, next: nat, whole: bool,
      w: nat, p: Phase<D>)
    requires w < |phases| && Complete(len, size, finished, phases, next, whole)
    requires if phases[w].Busy? && phases[w].base < len then p.Busy? && p.base == phases[w].base
             else p.Busy? ==> p.base >= len
    ensures Complete(len, size, finished, phases[w := p], next, whole)
  {
    forall base: nat
      ensures Held(len, phases[w := p], base) == Held(len, phases, base)
    {
      HeldUpdate(len, phases, w, p, base);
    }
  }

  lemma StripeIsInput<D>(job: Job<D>, base: nat, k: nat)
    requires k < |StripeData(job, base)|
    ensures base + k < |job.input| && StripeData(job, base)[k] == job.input[base + k]
  {
  }

  lemma BlockIsInput<D>(job: Job<D>, p: Phase<D>)
    requires HasBlock(job, p)
    ensures var at, block := p.base + p.done, Block(job, p);
      forall j :: 0 <= j < |block| ==> at + j < |job.input| && block[j] == job.input[at + j]
  {
    var block := Block(job, p);
    forall j | 0 <= j < |block|
      ensures p.base + p.done + j < |job.input| && block[j] == job.input[p.base + p.done + j]
    {
      assert block[j] == ReadPart(job, p.base)[p.done + j] == StripeData(job, p.base)[p.done + j];
      StripeIsInput(job, p.base, p.done + j);
    }
  }

  lemma WritesInput<D>(job: Job<D>, p: Phase<D>, output: map<nat, Byte>, output': map<nat, Byte>)
    requires HasBlock(job, p) && Writes(output, output', p.base + p.done, Block(job, p))
    requires HoldsInput(job, output)
    ensures HoldsInput(job, output')
  {
    BlockIsInput(job, p);
    var at, block := p.base + p.done, Block(job, p);
    forall i | i in output'
      ensures i < |job.input| && output'[i] == job.input[i]
    {
      if at <= i < at + |block| {
        assert block[i - at] == job.input[at + (i - at)];
      }
    }
  }

  lemma WritesReadPart<D>(job: Job<D>, p: Phase<D>, output: map<nat, Byte>, output': map<nat, Byte>)
    requires HasBlock(job, p) && Writes(output, output', p.base + p.done, Block(job, p))
    requires HoldsReadPart(job, output) && OnGrid(job, p.base)
    ensures HoldsReadPart(job, output')
  {
  }

  lemma WritesPending<D>(
      job: Job<D>, next: nat, phases: seq<Phase<D>>, output: map<nat, Byte>, output': map<nat, Byte>, w: nat)
    requires AllPending(job, next, phases, output) && w < |phases| && HasBlock(job, phases[w])
    requires Writes(output, output', phases[w].base + phases[w].done, Block(job, phases[w]))
    ensures AllPending(job, next, phases[w := AfterBlock(job, phases[w])], output')
  {
    forall i: nat | i < next && i < |job.input| && i !in output'
      ensures Pending(job, phases[w := AfterBlock(job, phases[w])], i)
    {
      StillPending(job, phases, w, AfterBlock(job, phases[w]), i);
    }
  }

  lemma CopyWork<D>(job: Job<D>, s: State<D>, s': State<D>, w: nat)
    requires WorkInv(job, s) && Copy(job, s, s', w)
    ensures WorkInv(job, s')
  {
    NextBlock(job, s.phases[w]);
  }

  lemma CopyHoldsInput<D>(job: Job<D>, s: State<D>, s': State<D>, w: nat)
    requires HoldsInput(job, s.output) && Copy(job, s, s', w)
    ensures HoldsInput(job, s'.output)
  {
    WritesInput(job, s.phases[w], s.output, s'.output);
  }

  lemma CopyHoldsReadPart<D>(job: Job<D>, s: State<D>, s': State<D>, w: nat)
    requires HoldsReadPart(job, s.output) && Copy(job, s, s', w) && OnGrid(job, s.phases[w].base)
    ensures HoldsReadPart(job, s'.output)
  {
    WritesReadPart(job, s.phases[w], s.output, s'.output);
  }

  lemma CopyPending<D>(job: Job<D>, s: State<D>, s': State<D>, w: nat)
    requires AllPending(job, s.next, s.phases, s.output) && Copy(job, s, s', w)
    ensures AllPending(job, s'.next, s'.phases, s'.output)
  {
    WritesPending(job, s.next, s.phases, s.output, s'.output, w);
  }

  lemma CopyOutput<D>(job: Job<D>, s: State<D>, s': State<D>, w: nat)
    requires WorkInv(job, s) && OutputInv(job, s) && Copy(job, s, s', w)
    ensures OutputInv(job, s')
  {
    CopyHoldsInput(job, s, s', w);
    CopyHoldsReadPart(job, s, s', w);
    if Whole(job) {
      CopyPending(job, s, s', w);
    }
  }

  lemma CopyCount<D>(job: Job<D>, s: State<D>, s': State<D>, w: nat)
    requires CountInv(job, s) && Copy(job, s, s', w)
    ensures CountInv(job, s')
  {
    SameHeldComplete(|job.input|, job.stripeSize, s.finished, s.phases, s.next, Whole(job),
                     w, AfterBlock(job, s.phases[w]));
  }

  // ----- leaving a stripe -----

  // A worker that has reached the end of its stripe, or reads nothing, has copied what is read of
  // the stripe and has its leaves.
  lemma StripeRead<D>(job: Job<D>, p: Phase<D>)
    requires ValidJob(job) && OnTrack(job, p) && p.Busy?
    requires p.done == StripeLength(job, p.base) || ReadsNothing(job, p.base, p.done)
    ensures p.done == |ReadPart(job, p.base)| && p.leaves == StripeLeaves(job, p.base)
    ensures p.leaves == [] <==> ReadPart(job, p.base) == []
  {
    AskedReadsDeliver(job, p.base, 0, job.sizes(p.base));
    assert p.rest == [];
  }

  // Handing in the leaves of a stripe finishes it; a worker without leaves gives its stripe up.
  lemma HandInComplete<D>(
      len: nat, size: Positive, finished: seq<seq<Stripe<D>>>, phases: seq<Phase<D>>, next: nat, whole: bool,
      w: nat, p: Phase<D>)
    requires w < |phases| == |finished| && phases[w].Busy? && !p.Busy?
    requires phases[w].base >= len ==> phases[w].leaves == []
    requires whole && phases[w].leaves == [] ==> phases[w].base >= len
    requires Complete(len, size, finished, phases, next, whole)
    ensures Complete(len, size, finished[w := HandIn(finished[w], phases[w])], phases[w := p], next, whole)
  {
    var more := finished[w := HandIn(finished[w], phases[w])];
    forall base: nat
      ensures Finished(more, base) + Held(len, phases[w := p], base) <=
        Finished(finished, base) + Held(len, phases, base)
      ensures whole ==>
        Finished(more, base) + Held(len, phases[w := p], base) == Finished(finished, base) + Held(len, phases, base)
    {
      HeldUpdate(len, phases, w, p, base);
      if phases[w].leaves == [] {
        assert more == finished;
      } else {
        FinishedUpdate(finished, w, Stripe(phases[w].base, phases[w].leaves), base);
      }
    }
  }

  // A worker that has nothing to copy can be replaced by any other.
  lemma LeaveCopies<D>(
      job: Job<D>, next: nat, phases: seq<Phase<D>>, output: map<nat, Byte>, whole: bool, w: nat, p: Phase<D>)
    requires CopyInv(job, next, phases, output, whole) && w < |phases|
    requires phases[w].Busy? ==> phases[w].done == |ReadPart(job, phases[w].base)|
    ensures CopyInv(job, next, phases[w := p], output, whole)
  {
    if whole {
      forall i: nat | i < next && i < |job.input| && i !in output
        ensures Pending(job, phases[w := p], i)
      {
        StillPending(job, phases, w, p, i);
      }
    }
  }

  lemma HandInRight<D>(job: Job<D>, mine: seq<Stripe<D>>, p: Phase<D>)
    requires Right(job, mine) && p.Busy? && p.leaves == StripeLeaves(job, p.base)
    ensures Right(job, HandIn(mine, p))
  {
  }

  lemma FinishWork<D>(job: Job<D>, s: State<D>, s': State<D>, w: nat)
    requires ValidJob(job) && WorkInv(job, s) && Finish(job, s, s', w)
    ensures WorkInv(job, s')
  {
    StripeRead(job, s.phases[w]);
    HandInRight(job, s.finished[w], s.phases[w]);
  }

  lemma FinishOutput<D>(job: Job<D>, s: State<D>, s': State<D>, w: nat)
    requires ValidJob(job) && WorkInv(job, s) && OutputInv(job, s) && Finish(job, s, s', w)
    ensures OutputInv(job, s')
  {
    StripeRead(job, s.phases[w]);
    LeaveCopies(job, s.next, s.phases, s.output, Whole(job), w, Idle);
  }

  lemma FinishCount<D>(job: Job<D>, s: State<D>, s': State<D>, w: nat)
    requires ValidJob(job) && WorkInv(job, s) && CountInv(job, s) && Finish(job, s, s', w)
    ensures CountInv(job, s')
  {
    StripeRead(job, s.phases[w]);
    HandInComplete(|job.input|, job.stripeSize, s.finished, s.phases, s.next, Whole(job), w, Idle);
  }

  // If no stripe is cut short, all stripes are claimed when a read returns nothing.
  lemma EofWork<D>(job: Job<D>, s: State<D>, s': State<D>, w: nat)
    requires ValidJob(job) && WorkInv(job, s) && Eof(job, s, s', w)
    ensures WorkInv(job, s')
  {
    StripeRead(job, s.phases[w]);
    HandInRight(job, s.finished[w], s.phases[w]);
  }

  lemma EofOutput<D>(job: Job<D>, s: State<D>, s': State<D>, w: nat)
    requires ValidJob(job) && WorkInv(job, s) && OutputInv(job, s) && Eof(job, s, s', w)
    ensures OutputInv(job, s')
  {
    StripeRead(job, s.phases[w]);
    LeaveCopies(job, s.next, s.phases, s.output, Whole(job), w, Gone);
  }

  lemma EofCount<D>(job: Job<D>, s: State<D>, s': State<D>, w: nat)
    requires ValidJob(job) && WorkInv(job, s) && CountInv(job, s) && Eof(job, s, s', w)
    ensures CountInv(job, s')
  {
    StripeRead(job, s.phases[w]);
    HandInComplete(|job.input|, job.stripeSize, s.finished, s.phases, s.next, Whole(job), w, Gone);
  }

  lemma AbortInv<D>(job: Job<D>, s: State<D>, s': State<D>, w: nat)
    requires Inv(job, s) && Abort(s, s', w)
    ensures Inv(job, s')
  {
    SameHeldComplete(|job.input|, job.stripeSize, s.finished, s.phases, s.next, Whole(job), w, Gone);
    LeaveCopies(job, s.next, s.phases, s.output, Whole(job), w, Gone);
  }

  lemma ClaimInv<D>(job: Job<D>, s: State<D>, s': State<D>, w: nat)
    requires ValidJob(job) && Inv(job, s) && Claim(job, s, s', w)
    ensures Inv(job, s')
  {
    ClaimWork(job, s, s', w);
    ClaimOutput(job, s, s', w);
    ClaimCount(job, s, s', w);
  }

  lemma CopyKeepsInv<D>(job: Job<D>, s: State<D>, s': State<D>, w: nat)
    requires Inv(job, s) && Copy(job, s, s', w)
    ensures Inv(job, s')
  {
    CopyWork(job, s, s', w);
    CopyOutput(job, s, s', w);
    CopyCount(job, s, s', w);
  }

  lemma FinishInv<D>(job: Job<D>, s: State<D>, s': State<D>, w: nat)
    requires ValidJob(job) && Inv(job, s) && Finish(job, s, s', w)
    ensures Inv(job, s')
  {
    FinishWork(job, s, s', w);
    FinishOutput(job, s, s', w);
    FinishCount(job, s, s', w);
  }

  lemma EofInv<D>(job: Job<D>, s: State<D>, s': State<D>, w: nat)
    requires ValidJob(job) && Inv(job, s) && Eof(job, s, s', w)
    ensures Inv(job, s')
  {
    EofWork(job, s, s', w);
    EofOutput(job, s, s', w);
    EofCount(job, s, s', w);
  }

  lemma StepInv<D>(job: Job<D>, s: State<D>, s': State<D>)
    requires ValidJob(job) && Inv(job, s) && Step(job, s, s')
    ensures Inv(job, s')
  {
    var w: nat :| WorkerStep(job, s, s', w);
    if
    case Claim(job, s, s', w) => ClaimInv(job, s, s', w);
    case Abort(s, s', w) => AbortInv(job, s, s', w);
    case Copy(job, s, s', w) => CopyKeepsInv(job, s, s', w);
    case Finish(job, s, s', w) => FinishInv(job, s, s', w);
    case Eof(job, s, s', w) => EofInv(job, s, s', w);
  }

  lemma {:induction false} RunInv<D>(job: Job<D>, run: seq<State<D>>)
    requires ValidJob(job) && IsRun(job, run)
    ensures Inv(job, run[|run| - 1])
  {
    if |run| == 1 {
      InitInv(job, run[0]);
    } else {
      RunInv(job, run[..|run| - 1]);
      StepInv(job, run[|run| - 2], run[|run| - 1]);
    }
  }

  // ----- putting the stripes in order -----

  ghost predicate Sorted(xs: seq<nat>) {
    forall i, j :: 0 <= i < j < |xs| ==> xs[i] <= xs[j]
  }

  ghost predicate StrictlySorted(xs: seq<nat>) {
    forall i, j :: 0 <= i < j < |xs| ==> xs[i] < xs[j]
  }

  lemma {:induction false} BasesAreSorted(len: nat, size: Positive, base: nat)
    ensures StrictlySorted(Bases(len, size, base))
    ensures forall i :: 0 <= i < |Bases(len, size, base)| ==> base <= Bases(len, size, base)[i]
    decreases len - base
  {
    if base < len {
      BasesAreSorted(len, size, base + size);
    }
  }

  lemma MultisetTail<T>(s: seq<T>)
    requires s != []
    ensures multiset(s[1..]) == multiset(s) - multiset{s[0]}
  {
    assert s == [s[0]] + s[1..];
  }

  lemma SameFirst(xs: seq<nat>, ys: seq<nat>)
    requires multiset(xs) == multiset(ys) && Sorted(xs) && StrictlySorted(ys) && xs != []
    ensures ys != [] && xs[0] == ys[0]
  {
    assert xs[0] in multiset(ys);
    var i :| 0 <= i < |ys| && ys[i] == xs[0];
    assert ys[0] in multiset(xs);
    var j :| 0 <= j < |xs| && xs[j] == ys[0];
    assert xs[0] <= xs[j];
  }

  // The stripe number k starts k stripes behind the first.
  lemma {:induction false} BasesAreMultiples(len: nat, size: Positive, base: nat, k: nat)
    requires k < |Bases(len, size, base)|
    ensures Bases(len, size, base)[k] == base + k * size
    decreases k
  {
    if k > 0 {
      BasesAreMultiples(len, size, base + size, k - 1);
      assert k * size == (k - 1) * size + size;
    }
  }

  // Sorting distinct keys has one result.
  lemma {:induction false} SortedIsUnique(xs: seq<nat>, ys: seq<nat>)
    requires multiset(xs) == multiset(ys) && Sorted(xs) && StrictlySorted(ys)
    ensures xs == ys
  {
    if xs == [] {
      assert |multiset(ys)| == |ys|;
    } else {
      SameFirst(xs, ys);
      MultisetTail(xs);
      MultisetTail(ys);
      SortedIsUnique(xs[1..], ys[1..]);
      assert xs == [xs[0]] + xs[1..] && ys == [ys[0]] + ys[1..];
    }
  }

  lemma MapConcat<A, B>(f: A -> B, xs: seq<A>, ys: seq<A>)
    ensures Map(f, xs + ys) == Map(f, xs) + Map(f, ys)
  {
  }

  lemma MultisetWithout<T>(s: seq<T>, i: nat)
    requires i < |s|
    ensures multiset(s[..i] + s[i + 1..]) == multiset(s) - multiset{s[i]}
    ensures s == s[..i] + ([s[i]] + s[i + 1..])
  {
    assert s == s[..i] + ([s[i]] + s[i + 1..]);
  }

  lemma RemoveSame<T>(xs: seq<T>, ys: seq<T>, i: nat)
    requires multiset(xs) == multiset(ys) && xs != [] && i < |ys| && ys[i] == xs[0]
    ensures multiset(xs[1..]) == multiset(ys[..i] + ys[i + 1..])
  {
    MultisetTail(xs);
    MultisetWithout(ys, i);
  }

  // A map takes permutations to permutations.
  lemma {:induction false} MapPermutes<A, B>(f: A -> B, xs: seq<A>, ys: seq<A>)
    requires multiset(xs) == multiset(ys)
    ensures multiset(Map(f, xs)) == multiset(Map(f, ys))
  {
    if xs == [] {
      assert |multiset(ys)| == |ys|;
    } else {
      assert xs[0] in multiset(ys);
      var i :| 0 <= i < |ys| && ys[i] == xs[0];
      var xs', ys' := xs[1..], ys[..i] + ys[i + 1..];
      RemoveSame(xs, ys, i);
      MapPermutes(f, xs', ys');
      MapFirst(f, xs);
      MapSplit(f, ys, i);
      SameAddition(f(xs[0]), multiset(Map(f, xs')), multiset(Map(f, ys')), multiset(Map(f, xs)), multiset(Map(f, ys)));
    }
  }

  lemma SameAddition<T>(x: T, a: multiset<T>, b: multiset<T>, xa: multiset<T>, xb: multiset<T>)
    requires a == b && xa == multiset{x} + a && xb == multiset{x} + b
    ensures xa == xb
  {
  }

  lemma MapFirst<A, B>(f: A -> B, xs: seq<A>)
    requires xs != []
    ensures multiset(Map(f, xs)) == multiset{f(xs[0])} + multiset(Map(f, xs[1..]))
  {
    assert Map(f, xs) == [f(xs[0])] + Map(f, xs[1..]);
  }

  lemma MapSplit<A, B>(f: A -> B, xs: seq<A>, i: nat)
    requires i < |xs|
    ensures multiset(Map(f, xs)) == multiset{f(xs[i])} + multiset(Map(f, xs[..i] + xs[i + 1..]))
  {
    MapConcat(f, xs[..i], xs[i + 1..]);
    MultisetWithout(Map(f, xs), i);
    assert Map(f, xs)[..i] == Map(f, xs[..i]) && Map(f, xs)[i + 1..] == Map(f, xs[i + 1..]);
  }

  // The stripes of the input, in order, with their leaves.
  function InputStripes<D>(job: Job<D>, base: nat): seq<Stripe<D>> {
    Map(b => StripeAt(job, b), Bases(|job.input|, job.stripeSize, base))
  }

  // Stripes of 64 MiB, or of a block if that is more.
  lemma StripesStartAt<D>(job: Job<D>, k: nat)
    requires Sized(job) && k < |InputStripes(job, 0)|
    ensures InputStripes(job, 0)[k].base == k * if job.blockSize > 67108864 then job.blockSize else 67108864
  {
    BasesAreMultiples(|job.input|, job.stripeSize, 0, k);
  }

  lemma {:induction false} CollectedBases<D>(finished: seq<seq<Stripe<D>>>, base: nat)
    ensures multiset(BasesOf(Collected(finished)))[base] == Finished(finished, base)
  {
    if finished != [] {
      CollectedBases(finished[1..], base);
      assert BasesOf(Collected(finished)) == BasesOf(finished[0]) + BasesOf(Collected(finished[1..]));
    }
  }

  lemma {:induction false} UnclaimedBases(len: nat, size: Positive, next: nat, base: nat)
    ensures multiset(Bases(len, size, next))[base] == Unclaimed(len, size, next, base)
    decreases len - next
  {
    if next < len {
      UnclaimedBases(len, size, next + size, base);
    }
  }

  lemma {:induction false} CollectedRight<D>(job: Job<D>, finished: seq<seq<Stripe<D>>>)
    requires AllRight(job, finished)
    ensures Right(job, Collected(finished))
  {
    if finished != [] {
      CollectedRight(job, finished[1..]);
    }
  }

  // ----- the combined digest -----

  function CombinedLeaves<D>(stripes: seq<Stripe<D>>): seq<D> {
    if stripes == [] then [] else stripes[0].leaves + CombinedLeaves(stripes[1..])
  }

  // The sizes of all reads, in the order of the input.
  ghost function AllReads<D>(job: Job<D>, base: nat): seq<nat>
    decreases |job.input| - base
  {
    if base >= |job.input| then [] else job.sizes(base) + AllReads(job, base + job.stripeSize)
  }

  // What is behind an offset of the input.
  function Rest<D>(job: Job<D>, base: nat): seq<Byte> {
    if base >= |job.input| then [] else job.input[base..]
  }

  lemma StripeThenRest<D>(job: Job<D>, base: nat)
    requires |ReadPart(job, base)| == |StripeData(job, base)|
    ensures ReadPart(job, base) + Rest(job, base + job.stripeSize) == Rest(job, base)
  {
  }

  // The stripes from a base on are read to their end.
  ghost predicate WholeFrom<D>(job: Job<D>, base: nat)
    decreases |job.input| - base
  {
    base < |job.input| ==>
      |ReadPart(job, base)| == |StripeData(job, base)| && WholeFrom(job, base + job.stripeSize)
  }

  lemma {:induction false} WholeFromAll<D>(job: Job<D>, base: nat)
    requires Whole(job) && OnGrid(job, base)
    ensures WholeFrom(job, base)
    decreases |job.input| - base
  {
    if base < |job.input| {
      WholeFromAll(job, base + job.stripeSize);
    }
  }

  // Putting the stripes' leaves together gives the leaves that all reads, in order, yield.
  lemma {:induction false} StripesCombine<D>(job: Job<D>, base: nat)
    requires ValidJob(job) && WholeFrom(job, base) && OnGrid(job, base)
    ensures Delivers(AllReads(job, base), |Rest(job, base)|)
    ensures CombinedLeaves(InputStripes(job, base)) ==
      LeavesByReads(job.compressor, Rest(job, base), AllReads(job, base))
    decreases |job.input| - base
  {
    if base < |job.input| {
      StripesCombine(job, base + job.stripeSize);
      StripeCombines(job, base);
    }
  }

  lemma StripeCombines<D>(job: Job<D>, base: nat)
    requires ValidJob(job) && OnGrid(job, base) && base < |job.input|
    requires |ReadPart(job, base)| == |StripeData(job, base)|
    requires var next := base + job.stripeSize;
      && Delivers(AllReads(job, next), |Rest(job, next)|)
      && CombinedLeaves(InputStripes(job, next)) ==
        LeavesByReads(job.compressor, Rest(job, next), AllReads(job, next))
    ensures Delivers(AllReads(job, base), |Rest(job, base)|)
    ensures CombinedLeaves(InputStripes(job, base)) ==
      LeavesByReads(job.compressor, Rest(job, base), AllReads(job, base))
  {
    ReadPartDelivered(job, base);
    FirstStripeReads(job, base);
    FirstStripeLeaves(job, base);
  }

  lemma ReadPartDelivered<D>(job: Job<D>, base: nat)
    requires ValidJob(job) && OnGrid(job, base)
    ensures Delivers(job.sizes(base), |ReadPart(job, base)|)
  {
    AskedReadsDeliver(job, base, 0, job.sizes(base));
  }

  lemma FirstStripeReads<D>(job: Job<D>, base: nat)
    requires Delivers(job.sizes(base), |ReadPart(job, base)|)
    requires base < |job.input| && |ReadPart(job, base)| == |StripeData(job, base)|
    requires Delivers(AllReads(job, base + job.stripeSize), |Rest(job, base + job.stripeSize)|)
    ensures Delivers(AllReads(job, base), |Rest(job, base)|)
    ensures LeavesByReads(job.compressor, Rest(job, base), AllReads(job, base)) ==
      var next := base + job.stripeSize;
      StripeLeaves(job, base) + LeavesByReads(job.compressor, Rest(job, next), AllReads(job, next))
  {
    var next := base + job.stripeSize;
    StripeThenRest(job, base);
    ReadsOfBoth(job.compressor, ReadPart(job, base), job.sizes(base), Rest(job, next), AllReads(job, next),
                Rest(job, base), AllReads(job, base));
  }

  lemma FirstStripeLeaves<D>(job: Job<D>, base: nat)
    requires base < |job.input|
    ensures CombinedLeaves(InputStripes(job, base)) ==
      StripeLeaves(job, base) + CombinedLeaves(InputStripes(job, base + job.stripeSize))
  {
    FirstStripe(job, base);
    CombineCons(StripeAt(job, base), InputStripes(job, base + job.stripeSize));
  }

  lemma FirstStripe<D>(job: Job<D>, base: nat)
    requires base < |job.input|
    ensures InputStripes(job, base) == [StripeAt(job, base)] + InputStripes(job, base + job.stripeSize)
  {
    var f := (b: nat) => StripeAt(job, b);
    MapConcat(f, [base], Bases(|job.input|, job.stripeSize, base + job.stripeSize));
  }

  lemma CombineCons<D>(stripe: Stripe<D>, rest: seq<Stripe<D>>)
    ensures CombinedLeaves([stripe] + rest) == stripe.leaves + CombinedLeaves(rest)
  {
  }

  // The workers are done when all of them have left.
  ghost predicate Done<D>(s: State<D>) {
    forall w :: 0 <= w < |s.phases| ==> s.phases[w] == Gone
  }

  // A result of the sort at the end of a run.
  ghost predicate SortsRun<D>(sorted: seq<Stripe<D>>, run: seq<State<D>>)
    requires run != []
  {
    multiset(sorted) == multiset(Collected(run[|run| - 1].finished)) && Sorted(BasesOf(sorted))
  }

  ghost predicate IsCompleteRun<D>(job: Job<D>, run: seq<State<D>>) {
    IsRun(job, run) && Done(run[|run| - 1])
  }

  // In any run the workers have collected no stripe twice, and only what is read of a stripe.
  lemma RunCollects<D>(job: Job<D>, run: seq<State<D>>)
    requires ValidJob(job) && IsRun(job, run)
    ensures var collected := Collected(run[|run| - 1].finished);
      && multiset(BasesOf(collected)) <= multiset(Bases(|job.input|, job.stripeSize, 0))
      && Right(job, collected)
  {
    var s := run[|run| - 1];
    RunInv(job, run);
    forall base: nat
      ensures multiset(BasesOf(Collected(s.finished)))[base] <= multiset(Bases(|job.input|, job.stripeSize, 0))[base]
    {
      CollectedBases(s.finished, base);
      UnclaimedBases(|job.input|, job.stripeSize, 0, base);
    }
    CollectedRight(job, s.finished);
  }

  // If no stripe is cut short, the workers together have collected the stripes of the input, in
  // some order.
  lemma DoneCollects<D>(job: Job<D>, run: seq<State<D>>)
    requires ValidJob(job) && Whole(job) && IsCompleteRun(job, run)
    ensures var collected := Collected(run[|run| - 1].finished);
      && multiset(BasesOf(collected)) == multiset(Bases(|job.input|, job.stripeSize, 0))
      && Right(job, collected)
  {
    var s := run[|run| - 1];
    RunInv(job, run);
    assert s.phases[0].Gone?;
    forall base: nat
      ensures multiset(BasesOf(Collected(s.finished)))[base] == multiset(Bases(|job.input|, job.stripeSize, 0))[base]
    {
      NothingHeld(|job.input|, s.phases, base);
      CollectedBases(s.finished, base);
      UnclaimedBases(|job.input|, job.stripeSize, 0, base);
    }
    CollectedRight(job, s.finished);
  }

  lemma RightStripes<D>(job: Job<D>, stripes: seq<Stripe<D>>)
    requires Right(job, stripes)
    ensures stripes == Map(b => StripeAt(job, b), BasesOf(stripes))
  {
  }

  // No schedule loses, repeats or reorders a stripe: whatever the sort gives, it is the stripes
  // of the input in order, and these are a result of the sort.
  lemma EveryStripeOnce<D>(job: Job<D>, run: seq<State<D>>, sorted: seq<Stripe<D>>)
    requires ValidJob(job) && FitsReads(job) && IsCompleteRun(job, run)
    ensures SortsRun(sorted, run) <==> sorted == InputStripes(job, 0)
  {
    WholeIffFits(job);
    var collected, bases := Collected(run[|run| - 1].finished), Bases(|job.input|, job.stripeSize, 0);
    DoneCollects(job, run);
    BasesAreSorted(|job.input|, job.stripeSize, 0);
    if SortsRun(sorted, run) {
      MapPermutes((stripe: Stripe<D>) => stripe.base, sorted, collected);
      SortedIsUnique(BasesOf(sorted), bases);
      PermutedRight(job, sorted, collected);
      RightStripes(job, sorted);
    }
    MapPermutes(b => StripeAt(job, b), BasesOf(collected), bases);
    RightStripes(job, collected);
    assert BasesOf(InputStripes(job, 0)) == bases;
  }

  lemma PermutedRight<D>(job: Job<D>, xs: seq<Stripe<D>>, ys: seq<Stripe<D>>)
    requires multiset(xs) == multiset(ys) && Right(job, ys)
    ensures Right(job, xs)
  {
    forall k | 0 <= k < |xs|
      ensures xs[k] == StripeAt(job, xs[k].base) && xs[k].leaves != []
    {
      assert xs[k] in multiset(ys);
    }
  }

  // At any time the output holds nothing but the input's bytes in their places, and when the
  // workers are done it holds all of them if and only if the requests fit, whatever the schedule
  // and the sizes of the reads.
  lemma OutputIsInput<D>(job: Job<D>, run: seq<State<D>>)
    requires ValidJob(job) && IsRun(job, run)
    ensures var output := run[|run| - 1].output;
      && (forall i :: i in output ==> i < |job.input| && output[i] == job.input[i])
      && (Done(run[|run| - 1]) ==> (FitsReads(job) <==> forall i :: 0 <= i < |job.input| ==> i in output))
  {
    RunInv(job, run);
    WholeIffFits(job);
    var s := run[|run| - 1];
    if !FitsReads(job) {
      UnfitReadsCutFirst(job);
      assert |ReadPart(job, 0)| !in s.output;
    } else if Done(s) {
      assert s.phases[0].Gone?;
      assert forall i: nat, w :: 0 <= w < |s.phases| ==> !ToCopy(job, s.phases[w], i);
    }
  }

  // There are leaves, and their root is the digest of the input.
  ghost predicate GivesDigest<D>(job: Job<D>, sorted: seq<Stripe<D>>) {
    && CombinedLeaves(sorted) != []
    && MerkleRoot(job.compressor, CombinedLeaves(sorted), true) == Digest(job.compressor, job.input)
  }

  // Whatever the number of workers and the order in which stripes are claimed and finished, the
  // combined digest is the digest of the input, provided that the requests fit, every read but
  // the last ends on a chunk boundary and there is more than one chunk.
  lemma ShardedDigestIsDigest<D>(job: Job<D>, run: seq<State<D>>, sorted: seq<Stripe<D>>)
    requires ValidJob(job) && FitsReads(job) && Aligned(AllReads(job, 0)) && |job.input| > CHUNK_SIZE
    requires IsCompleteRun(job, run) && SortsRun(sorted, run)
    ensures GivesDigest(job, sorted)
  {
    WholeIffFits(job);
    WholeFromAll(job, 0);
    EveryStripeOnce(job, run, sorted);
    StripesCombine(job, 0);
    assert job.input[0..] == job.input;
    AlignedReadsKeepLeaves(job.compressor, job.input, AllReads(job, 0));
  }
}
