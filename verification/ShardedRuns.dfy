// The sharded copy comes to its end: no worker is ever stuck, every run is bounded, and so every
// run can be continued until all workers have left.
module ShardedRuns {
  import opened Common
  import opened BlksTree
  import opened ShardedHash

  // ----- no worker is stuck -----

  // A busy worker copies the next block of its stripe, or finishes it, or reads nothing.
  lemma BusyCanStep<D>(job: Job<D>, p: Phase<D>)
    requires Sized(job) && OnTrack(job, p) && p.Busy?
    ensures HasBlock(job, p) || p.done == StripeLength(job, p.base)
      || (p.done < StripeLength(job, p.base) && ReadsNothing(job, p.base, p.done))
  {
  }

  lemma WorkersCanStep<D>(job: Job<D>, s: State<D>, w: nat) returns (s': State<D>)
    requires ValidJob(job) && |s.phases| == |s.finished|
    requires w < |s.phases| && !s.phases[w].Gone? && OnTrack(job, s.phases[w])
    ensures WorkerStep(job, s, s', w)
  {
    var p := s.phases[w];
    if p.Idle? {
      s' := s.(next := s.next + job.stripeSize, phases := s.phases[w := Claimed(job, s.next)]);
    } else {
      BusyCanStep(job, p);
      if HasBlock(job, p) {
        s' := s.(output := OutputAfter(job, s.output, p), phases := s.phases[w := AfterBlock(job, p)]);
      } else if p.done == StripeLength(job, p.base) {
        s' := s.(phases := s.phases[w := Idle], finished := s.finished[w := HandIn(s.finished[w], p)]);
      } else {
        s' := s.(abort := true, phases := s.phases[w := Gone], finished := s.finished[w := HandIn(s.finished[w], p)]);
      }
    }
  }

  // ----- every step leaves less to do -----

  // A claim behind the input leads straight out of the loop.
  function PhaseWork<D>(job: Job<D>, p: Phase<D>): nat {
    match p
    case Idle => 2
    case Busy(base, rest, _, _) => |rest| + if base < |job.input| then 3 else 1
    case Gone => 0
  }

  function PhasesWork<D>(job: Job<D>, phases: seq<Phase<D>>): nat {
    if phases == [] then 0 else PhaseWork(job, phases[0]) + PhasesWork(job, phases[1..])
  }

  // The work in the stripes from a base on.
  function StripesWork<D>(job: Job<D>, base: nat): nat
    decreases |job.input| - base
  {
    if base >= |job.input| then 0 else |job.sizes(base)| + 2 + StripesWork(job, base + job.stripeSize)
  }

  function Work<D>(job: Job<D>, s: State<D>): nat {
    PhasesWork(job, s.phases) + StripesWork(job, s.next)
  }

  lemma {:induction false} PhasesWorkUpdate<D>(job: Job<D>, phases: seq<Phase<D>>, w: nat, p: Phase<D>)
    requires w < |phases|
    ensures PhasesWork(job, phases[w := p]) == PhasesWork(job, phases) - PhaseWork(job, phases[w]) + PhaseWork(job, p)
  {
    if w == 0 {
      assert phases[w := p][1..] == phases[1..];
    } else {
      assert phases[w := p][1..] == phases[1..][w - 1 := p];
      PhasesWorkUpdate(job, phases[1..], w - 1, p);
    }
  }

  lemma NoReadsBehind<D>(job: Job<D>, base: nat)
    requires ValidJob(job) && OnGrid(job, base) && base >= |job.input|
    ensures job.sizes(base) == []
  {
    AskedReadsDeliver(job, base, 0, job.sizes(base));
  }

  // What one worker's step changes: that worker has less to do, with what is unclaimed.
  ghost predicate LessWork<D>(job: Job<D>, s: State<D>, s': State<D>, w: nat)
    requires w < |s.phases|
  {
    && |s'.phases| == |s.phases| && s'.phases == s.phases[w := s'.phases[w]]
    && PhaseWork(job, s'.phases[w]) + StripesWork(job, s'.next)
     < PhaseWork(job, s.phases[w]) + StripesWork(job, s.next)
  }

  lemma ClaimWorks<D>(job: Job<D>, s: State<D>, s': State<D>, w: nat)
    requires ValidJob(job) && OnGrid(job, s.next) && Claim(job, s, s', w)
    ensures LessWork(job, s, s', w)
  {
    assert s'.phases[w] == Claimed(job, s.next) && s'.next == s.next + job.stripeSize;
    ClaimedWork(job, s.next, s'.phases[w], s'.next);
  }

  lemma ClaimedWork<D>(job: Job<D>, base: nat, p: Phase<D>, next: nat)
    requires ValidJob(job) && OnGrid(job, base) && p == Claimed(job, base) && next == base + job.stripeSize
    ensures PhaseWork(job, p) + StripesWork(job, next) < PhaseWork<D>(job, Idle) + StripesWork(job, base)
  {
    if base >= |job.input| {
      EmptyClaimedWork(job, base);
    } else {
      InputClaimedWork(job, base);
    }
  }

  lemma EmptyClaimedWork<D>(job: Job<D>, base: nat)
    requires ValidJob(job) && OnGrid(job, base) && base >= |job.input|
    ensures PhaseWork(job, Claimed(job, base)) <= 1
    ensures StripesWork(job, base) == StripesWork(job, base + job.stripeSize) == 0
  {
    NoReadsBehind(job, base);
  }

  lemma InputClaimedWork<D>(job: Job<D>, base: nat)
    requires Sized(job) && base < |job.input|
    ensures Claimed(job, base) == Busy(base, job.sizes(base), 0, [])
    ensures StripesWork(job, base) == |job.sizes(base)| + 2 + StripesWork(job, base + job.stripeSize)
  {
  }

  lemma CopyWorks<D>(job: Job<D>, s: State<D>, s': State<D>, w: nat)
    requires Copy(job, s, s', w)
    ensures LessWork(job, s, s', w)
  {
  }

  // A stripe behind the input is never finished: its first read meets the end of the file.
  lemma FinishWorks<D>(job: Job<D>, s: State<D>, s': State<D>, w: nat)
    requires ValidJob(job) && Finish(job, s, s', w) && OnTrack(job, s.phases[w])
    ensures LessWork(job, s, s', w)
  {
    StripeRead(job, s.phases[w]);
  }

  lemma LeaveWorks<D>(job: Job<D>, s: State<D>, s': State<D>, w: nat)
    requires Abort(s, s', w) || Eof(job, s, s', w)
    ensures LessWork(job, s, s', w)
  {
  }

  lemma WorkerWorks<D>(job: Job<D>, s: State<D>, s': State<D>, w: nat)
    requires ValidJob(job) && OnGrid(job, s.next) && w < |s.phases| && OnTrack(job, s.phases[w])
    requires WorkerStep(job, s, s', w)
    ensures LessWork(job, s, s', w)
  {
    if
    case Claim(job, s, s', w) => ClaimWorks(job, s, s', w);
    case Copy(job, s, s', w) => CopyWorks(job, s, s', w);
    case Finish(job, s, s', w) => FinishWorks(job, s, s', w);
    case Abort(s, s', w) => LeaveWorks(job, s, s', w);
    case Eof(job, s, s', w) => LeaveWorks(job, s, s', w);
  }

  lemma StepWorks<D>(job: Job<D>, s: State<D>, s': State<D>, w: nat)
    requires ValidJob(job) && WorkInv(job, s) && WorkerStep(job, s, s', w)
    ensures Work(job, s') < Work(job, s)
  {
    WorkerWorks(job, s, s', w);
    PhasesWorkUpdate(job, s.phases, w, s'.phases[w]);
  }

  lemma {:induction false} IdleWork<D>(job: Job<D>, phases: seq<Phase<D>>)
    requires forall w :: 0 <= w < |phases| ==> phases[w] == Idle
    ensures PhasesWork(job, phases) == 2 * |phases|
  {
    if phases != [] {
      IdleWork(job, phases[1..]);
    }
  }

  // The most steps a run of so many workers can have.
  function MostSteps<D>(job: Job<D>, workers: nat): nat {
    2 * workers + StripesWork(job, 0)
  }

  lemma {:induction false} WorkDone<D>(job: Job<D>, run: seq<State<D>>)
    requires ValidJob(job) && IsRun(job, run)
    ensures Work(job, run[|run| - 1]) + |run| - 1 <= MostSteps(job, |run[0].phases|)
  {
    if |run| == 1 {
      IdleWork(job, run[0].phases);
    } else {
      var s, s' := run[|run| - 2], run[|run| - 1];
      WorkDone(job, run[..|run| - 1]);
      RunInv(job, run[..|run| - 1]);
      var w: nat :| WorkerStep(job, s, s', w);
      StepWorks(job, s, s', w);
    }
  }

  // Every run is bounded, whatever the schedule: each read, each stripe and each worker accounts
  // for its steps.
  lemma RunsAreBounded<D>(job: Job<D>, run: seq<State<D>>)
    requires ValidJob(job) && IsRun(job, run)
    ensures |run| <= MostSteps(job, |run[0].phases|) + 1
  {
    WorkDone(job, run);
  }

  // Every run can be completed.
  lemma {:induction false} RunCanComplete<D>(job: Job<D>, run: seq<State<D>>) returns (complete: seq<State<D>>)
    requires ValidJob(job) && IsRun(job, run)
    ensures run <= complete && IsCompleteRun(job, complete)
    decreases MostSteps(job, |run[0].phases|) + 1 - |run|
  {
    var s := run[|run| - 1];
    if Done(s) {
      complete := run;
    } else {
      RunInv(job, run);
      var w: nat :| w < |s.phases| && !s.phases[w].Gone?;
      var s' := WorkersCanStep(job, s, w);
      var longer := run + [s'];
      assert IsRun(job, longer) by {
        assert Step(job, s, s');
      }
      RunsAreBounded(job, longer);
      complete := RunCanComplete(job, longer);
    }
  }
}
