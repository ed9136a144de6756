// How much an asynchronous copy writes: a source that gives full reads while it has data is
// copied up to its end, to the records and the further bytes asked for, or to the total.
module AsyncSource {
  import opened Common
  import opened AsyncPipeline

  // A source, and what is asked of it: records of a size, further bytes, and a total if there is one.
  datatype Request = Request(
    source: seq<Byte>, blockSize: nat, maxRecords: nat, maxBytes: nat, total: Option<nat>)

  // The smallest of what is there, the records with the further bytes, and the total.
  function Wanted(q: Request): (end: nat)
    ensures end <= |q.source|
  {
    var asked := q.maxRecords * q.blockSize + q.maxBytes;
    var most := if q.total.Some? && q.total.value < asked then q.total.value else asked;
    if |q.source| < most then |q.source| else most
  }

  // The read number i starts behind i full records and returns a record, or the further bytes
  // behind the last record, as far as the source and the total allow.
  function SourceRead(q: Request, i: nat): Outcome {
    var start := i * q.blockSize;
    var stop := start + if i < q.maxRecords then q.blockSize else if i == q.maxRecords then q.maxBytes else 0;
    var there := if q.total.Some? && q.total.value < |q.source| then q.total.value else |q.source|;
    var end := if stop < there then stop else there;
    if start < end then Data(q.source[start..end]) else End
  }

  function SourceScript(q: Request): Script {
    Script((i: nat) => SourceRead(q, i), q.blockSize, q.maxRecords, q.maxBytes, q.total)
  }

  // Where the read number i starts, or the end.
  function Position(q: Request, i: nat): nat {
    if i > q.maxRecords || i * q.blockSize >= Wanted(q) then Wanted(q) else i * q.blockSize
  }

  lemma {:induction false} SourceBlocks(q: Request, n: nat)
    requires AllData(SourceScript(q), n)
    ensures Blocks(SourceScript(q), n) == q.source[..Position(q, n)]
  {
    if n > 0 {
      SourceBlocks(q, n - 1);
      assert SourceScript(q).outcome(n - 1) == SourceRead(q, n - 1);
      NextPosition(q, n - 1);
    }
  }

  lemma NextPosition(q: Request, i: nat)
    requires SourceRead(q, i).Data?
    ensures q.source[..Position(q, i)] + SourceRead(q, i).block == q.source[..Position(q, i + 1)]
  {
    Products(i + 1, q.maxRecords, q.blockSize);
  }

  lemma SourceKeepsLimits(q: Request, i: nat)
    requires AllData(SourceScript(q), i)
    ensures KeepsLimits(SourceScript(q), i)
  {
    SourceBlocks(q, i);
  }

  // Such reads are among those that the reader may meet.
  lemma SourceScriptIsValid(q: Request)
    ensures ValidScript(SourceScript(q))
  {
    var script := SourceScript(q);
    forall i: nat | AllData(script, i)
      ensures KeepsLimits(script, i)
    {
      SourceKeepsLimits(q, i);
    }
  }

  // A finished copy of the source either failed to write or has written all that was asked for and
  // there, and nothing else.
  lemma FinishedCopyIsWanted(q: Request, run: seq<State>)
    requires q.blockSize > 0 && IsRun(SourceScript(q), run) && run[|run| - 1].writer.WFinished?
    ensures run[|run| - 1].writer.result == Success || run[|run| - 1].writer.result == WriteError
    ensures run[|run| - 1].writer.result == Success ==> run[|run| - 1].output == q.source[..Wanted(q)]
  {
    var script := SourceScript(q);
    SourceScriptIsValid(q);
    var n := ResultIsTrue(script, run);
    SourceBlocks(q, n);
    assert script.outcome(n) == SourceRead(q, n);
    if SourceRead(q, n) == End {
      EndIsWanted(q, n);
    }
  }

  // The source ends where all that is wanted has been read.
  lemma EndIsWanted(q: Request, n: nat)
    requires q.blockSize > 0 && SourceRead(q, n) == End
    ensures Position(q, n) == Wanted(q)
  {
    Products(n + 1, q.maxRecords, q.blockSize);
  }

  // And every copy of it can be finished.
  lemma SourceCopyCanFinish(q: Request, run: seq<State>) returns (complete: seq<State>)
    requires IsRun(SourceScript(q), run)
    ensures IsRun(SourceScript(q), complete)
    ensures run <= complete && complete[|complete| - 1].writer.WFinished?
  {
    SourceScriptIsValid(q);
    complete := RunCanComplete(SourceScript(q), run, q.maxRecords + 1);
  }

  // Once the total is written, or all records and further bytes are taken, the engine ends the copy
  // with success and without waiting for the reader.
  lemma LimitEndsCopy(script: Script, s: State, s': State)
    requires s.writer == WTop && WriterStep(script, s, s')
    requires match script.bytesToCopy
      case Some(total) => |s.output| >= total
      case None => s.taken >= script.maxRecords + 1 || (s.taken == script.maxRecords && script.maxBytes == 0)
    ensures s'.writer == WStop(Success)
  {
  }
}
