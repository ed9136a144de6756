// The asynchronous copy driver (src/io_async.c), and the engine's loop that calls it
// (src/io_engine.c), as a protocol: a reader thread fills the slots
// of a circular queue, the writer takes them out, and the two meet under one mutex with two
// condition variables. A step is a critical section or the unlocked work between two of them.
module AsyncPipeline {
  import opened Common
  import opened Cyclic

  // What a turn of the reader's loop yields: a block, the end of the input or of the requested
  // length, or a read error with its errno.
  datatype Outcome = Data(block: seq<Byte>) | End | Fail(err: int)

  datatype Slot = Slot(data: seq<Byte>, isEof: bool, err: int)

  // Top: about to lock. Waiting: asleep on not_full. Fill: owns the slot at tail, unlocked.
  // Publish: the slot is filled. Exit: has left the loop. Done: has said so.
  datatype Reader = RTop | RWaiting | RFill | RPublish | RExit | RDone

  datatype Result = Success | ReadError(err: int) | WriteError

  // Top: about to lock. Waiting: asleep on not_empty. Write: owns the slot at head, unlocked.
  // Release: the slot is written. Stop: has a result. Join: waits for the reader. Finished: over.
  datatype Writer =
    | WTop | WWaiting | WWrite | WRelease
    | WStop(result: Result) | WJoin(result: Result) | WFinished(result: Result)

  datatype State = State(
    slots: seq<Slot>, head: nat, tail: nat, count: nat, stop: bool, readerDone: bool,
    turns: nat, taken: nat, output: seq<Byte>, reader: Reader, writer: Writer)

  // What a copy is asked to do, and what the turns of its reader yield: at most so many records,
  // then so many bytes of one more, and no more bytes in all than a total if there is one.
  datatype Script = Script(
    outcome: nat -> Outcome, blockSize: nat, maxRecords: nat, maxBytes: nat, bytesToCopy: Option<nat>)

  function MostRecords(script: Script): nat {
    script.maxRecords + if script.maxBytes != 0 then 1 else 0
  }

  // The reader's test before a read.
  predicate ReaderLimit(script: Script, records: nat, bytes: nat) {
    records >= MostRecords(script) || (script.bytesToCopy.Some? && bytes >= script.bytesToCopy.value)
  }

  // How much it then reads at most.
  function ToRead(script: Script, records: nat, bytes: nat): nat
    requires !ReaderLimit(script, records, bytes)
  {
    var n := if records >= script.maxRecords then script.maxBytes else script.blockSize;
    if script.bytesToCopy.Some? && script.bytesToCopy.value - bytes < n then script.bytesToCopy.value - bytes else n
  }

  // The engine's test before a step of the writer.
  predicate EngineLimit(script: Script, records: nat, bytes: nat) {
    if script.bytesToCopy.Some? then bytes >= script.bytesToCopy.value else records >= MostRecords(script)
  }

  // A failed read has an error, and the reader keeps to its limits.
  ghost predicate ValidScript(script: Script) {
    && (forall i :: script.outcome(i).Fail? ==> script.outcome(i).err != 0)
    && forall i: nat :: AllData(script, i) ==> KeepsLimits(script, i)
  }

  predicate KeepsLimits(script: Script, i: nat) {
    var bytes := |Blocks(script, i)|;
    if ReaderLimit(script, i, bytes) then script.outcome(i) == End
    else script.outcome(i).Data? ==> |script.outcome(i).block| <= ToRead(script, i, bytes)
  }

  function SlotOf(o: Outcome): Slot {
    match o
    case Data(block) => Slot(block, false, 0)
    case End => Slot([], true, 0)
    case Fail(err) => Slot([], true, err)
  }

  // Signalling a condition wakes the thread that sleeps on it.
  function WakeReader(r: Reader): Reader {
    if r == RWaiting then RTop else r
  }

  function WakeWriter(w: Writer): Writer {
    if w == WWaiting then WTop else w
  }

  ghost predicate Init(s: State) {
    && |s.slots| > 0
    && s.head == 0 && s.tail == 0 && s.count == 0
    && !s.stop && !s.readerDone && s.turns == 0 && s.taken == 0 && s.output == []
    && s.reader == RTop && s.writer == WTop
  }

  // ----- the steps -----

  ghost predicate ReaderEnter(s: State, s': State) {
    && s.reader == RTop
    && s' == s.(reader := if s.stop then RExit else if s.count == |s.slots| then RWaiting else RFill)
  }

  ghost predicate ReaderFill(script: Script, s: State, s': State) {
    && s.reader == RFill && s.tail < |s.slots|
    && s' == s.(slots := s.slots[s.tail := SlotOf(script.outcome(s.turns))], turns := s.turns + 1, reader := RPublish)
  }

  ghost predicate ReaderPublish(s: State, s': State) {
    && s.reader == RPublish && s.tail < |s.slots|
    && s' == s.(tail := Index(s.tail, 1, |s.slots|), count := s.count + 1,
                reader := if s.slots[s.tail].isEof || s.stop then RExit else RTop,
                writer := WakeWriter(s.writer))
  }

  ghost predicate ReaderExit(s: State, s': State) {
    && s.reader == RExit
    && s' == s.(readerDone := true, reader := RDone, writer := WakeWriter(s.writer))
  }

  // The engine ends the loop without another step of the writer.
  ghost predicate EngineStop(script: Script, s: State, s': State) {
    && s.writer == WTop && EngineLimit(script, s.taken, |s.output|)
    && s' == s.(writer := WStop(Success))
  }

  // Nothing the engine tests changes while the writer sleeps, so that the test may precede every
  // return to the lock.
  ghost predicate WriterEnter(script: Script, s: State, s': State) {
    && s.writer == WTop && !EngineLimit(script, s.taken, |s.output|)
    && s' == s.(writer := if s.count > 0 then WWrite else if s.readerDone then WStop(Success) else WWaiting)
  }

  // The end-of-input slot gives the result; a block is written whole, or fails after a part.
  ghost predicate WriterWrite(s: State, s': State) {
    && s.writer == WWrite && s.head < |s.slots|
    && var slot := s.slots[s.head];
      if slot.isEof then
        s' == s.(writer := WStop(if slot.err != 0 then ReadError(slot.err) else Success))
      else
        || s' == s.(taken := s.taken + 1, output := s.output + slot.data, writer := WRelease)
        || exists n: nat :: n < |slot.data|
             && s' == s.(taken := s.taken + 1, output := s.output + slot.data[..n], writer := WStop(WriteError))
  }

  ghost predicate WriterRelease(s: State, s': State) {
    && s.writer == WRelease && s.head < |s.slots| && s.count > 0
    && s' == s.(head := Index(s.head, 1, |s.slots|), count := s.count - 1,
                reader := WakeReader(s.reader), writer := WTop)
  }

  // The cleanup: ask the reader to stop, and join it.
  ghost predicate WriterStop(s: State, s': State) {
    && s.writer.WStop?
    && s' == s.(stop := true, reader := WakeReader(s.reader), writer := WJoin(s.writer.result))
  }

  ghost predicate WriterJoin(s: State, s': State) {
    && s.writer.WJoin? && s.reader == RDone
    && s' == s.(writer := WFinished(s.writer.result))
  }

  ghost predicate ReaderStep(script: Script, s: State, s': State) {
    ReaderEnter(s, s') || ReaderFill(script, s, s') || ReaderPublish(s, s') || ReaderExit(s, s')
  }

  ghost predicate WriterStep(script: Script, s: State, s': State) {
    || EngineStop(script, s, s') || WriterEnter(script, s, s')
    || WriterWrite(s, s') || WriterRelease(s, s') || WriterStop(s, s') || WriterJoin(s, s')
  }

  // A condition wait may also end without a signal.
  ghost predicate SpuriousWakeup(s: State, s': State) {
    || (s.reader == RWaiting && s' == s.(reader := RTop))
    || (s.writer == WWaiting && s' == s.(writer := WTop))
  }

  ghost predicate Step(script: Script, s: State, s': State) {
    ReaderStep(script, s, s') || WriterStep(script, s, s') || SpuriousWakeup(s, s')
  }

  ghost predicate IsRun(script: Script, run: seq<State>) {
    && run != [] && Init(run[0])
    && forall i :: 0 < i < |run| ==> Step(script, run[i - 1], run[i])
  }

  // ----- the invariant -----

  // How many outcomes have been published, and how many of those are released.
  function Published(s: State): int {
    if s.reader == RPublish then s.turns - 1 else s.turns
  }

  function Released(s: State): int {
    Published(s) - s.count
  }

  ghost predicate AllData(script: Script, n: nat) {
    forall i :: 0 <= i < n ==> script.outcome(i).Data?
  }

  // The input's first n blocks.
  function Blocks(script: Script, n: nat): seq<Byte> {
    if n == 0 then [] else Blocks(script, n - 1) + SlotOf(script.outcome(n - 1)).data
  }

  // Indices stay in the circle, and a thread that owns a slot has room for it.
  ghost predicate QueueInv(s: State) {
    && 0 < |s.slots| && s.head < |s.slots| && s.count <= |s.slots|
    && s.tail == Index(s.head, s.count, |s.slots|)
    && (s.reader in {RFill, RPublish} ==> s.count < |s.slots|)
    && (s.writer in {WWrite, WRelease} ==> s.count > 0)
    && (s.reader == RPublish ==> s.turns > 0)
  }

  // The queue holds the published outcomes that are not released, in order.
  ghost predicate ContentsInv(script: Script, s: State)
    requires QueueInv(s)
  {
    && Released(s) >= 0
    && (forall k :: 0 <= k < s.count ==> Cells(s.slots, s.head, s.count)[k] == SlotOf(script.outcome(Released(s) + k)))
    && (s.reader == RPublish ==> s.slots[s.tail] == SlotOf(script.outcome(s.turns - 1)))
  }

  // The reader goes on after blocks only; it leaves the loop behind the first other outcome, or
  // because it was asked to.
  ghost predicate ReaderInv(script: Script, s: State) {
    && s.turns >= 0
    && (s.reader in {RTop, RWaiting, RFill} ==> AllData(script, s.turns))
    && (s.reader in {RPublish, RExit, RDone} && s.turns > 0 ==> AllData(script, s.turns - 1))
    && (s.reader in {RExit, RDone} && !s.stop ==> s.turns > 0 && !script.outcome(s.turns - 1).Data?)
    && (s.readerDone <==> s.reader == RDone)
  }

  // What has been written, and why the writer stopped.
  ghost predicate WriterInv(script: Script, s: State)
    requires Released(s) >= 0
  {
    var r: nat := Released(s);
    && AllData(script, r)
    && (s.stop <==> s.writer.WJoin? || s.writer.WFinished?)
    && (s.writer.WFinished? ==> s.reader == RDone)
    && match s.writer
       case WTop => s.taken == r && s.output == Blocks(script, r)
       case WWaiting => s.taken == r && s.output == Blocks(script, r)
       case WWrite => s.taken == r && s.output == Blocks(script, r)
       case WRelease => s.taken == r + 1 && script.outcome(r).Data? && s.output == Blocks(script, r + 1)
       case WStop(result) => Explains(script, r, s.output, result)
       case WJoin(result) => exists n: nat :: Explains(script, n, s.output, result)
       case WFinished(result) => exists n: nat :: Explains(script, n, s.output, result)
  }

  // The result of a copy whose first n outcomes were blocks, all written.
  ghost predicate Explains(script: Script, n: nat, output: seq<Byte>, result: Result) {
    && AllData(script, n)
    && match result
       case Success => script.outcome(n) == End && output == Blocks(script, n)
       case ReadError(err) => script.outcome(n) == Fail(err) && output == Blocks(script, n)
       case WriteError => script.outcome(n).Data? && Blocks(script, n) <= output < Blocks(script, n + 1)
  }

  // A thread sleeps only while there is nothing for it to do: no wakeup is lost.
  ghost predicate SleepInv(s: State) {
    && (s.reader == RWaiting ==> s.count == |s.slots| && !s.stop)
    && (s.writer == WWaiting ==> s.count == 0 && !s.readerDone)
  }

  ghost predicate Inv(script: Script, s: State) {
    QueueInv(s) && ContentsInv(script, s) && ReaderInv(script, s) && WriterInv(script, s) && SleepInv(s)
  }

  lemma InitInv(script: Script, s: State)
    requires Init(s)
    ensures Inv(script, s)
  {
  }

  lemma ReaderEnterInv(script: Script, s: State, s': State)
    requires Inv(script, s) && ReaderEnter(s, s')
    ensures Inv(script, s')
  {
  }

  lemma ReaderFillInv(script: Script, s: State, s': State)
    requires Inv(script, s) && ReaderFill(script, s, s')
    ensures Inv(script, s')
  {
    WriteBehind(s.slots, s.head, s.count, SlotOf(script.outcome(s.turns)));
  }

  lemma ReaderPublishInv(script: Script, s: State, s': State)
    requires Inv(script, s) && ReaderPublish(s, s')
    ensures Inv(script, s')
  {
    PublishKeepsContents(script, s, s');
    PublishKeepsWriter(script, s, s');
  }

  lemma PublishKeepsContents(script: Script, s: State, s': State)
    requires QueueInv(s) && ContentsInv(script, s) && ReaderPublish(s, s')
    ensures QueueInv(s') && ContentsInv(script, s') && Released(s') == Released(s)
  {
    AppendCell(s.slots, s.head, s.count);
  }

  lemma PublishKeepsWriter(script: Script, s: State, s': State)
    requires Released(s) >= 0 && WriterInv(script, s) && ReaderPublish(s, s') && Released(s') == Released(s)
    ensures WriterInv(script, s')
  {
  }

  lemma ReaderExitInv(script: Script, s: State, s': State)
    requires Inv(script, s) && ReaderExit(s, s')
    ensures Inv(script, s')
  {
  }

  // The end of the input stays in the queue: a writer that finds the queue empty never meets a
  // reader that is done.
  lemma NoStarvedExit(script: Script, s: State)
    requires Inv(script, s) && s.writer == WTop && s.count == 0
    ensures !s.readerDone
  {
  }

  // When the engine meets its limit the reader has met it too, behind the same blocks.
  lemma EngineStopInv(script: Script, s: State, s': State)
    requires ValidScript(script) && Inv(script, s) && EngineStop(script, s, s')
    ensures Inv(script, s')
  {
    assert KeepsLimits(script, Released(s));
  }

  lemma WriterEnterInv(script: Script, s: State, s': State)
    requires Inv(script, s) && WriterEnter(script, s, s')
    ensures Inv(script, s')
  {
    if s.count == 0 {
      NoStarvedExit(script, s);
    }
  }

  lemma WriterWriteInv(script: Script, s: State, s': State)
    requires ValidScript(script) && Inv(script, s) && WriterWrite(s, s')
    ensures Inv(script, s')
  {
    HeadOfQueue(script, s);
    WriteKeepsQueue(script, s, s');
    if s.slots[s.head].isEof {
      WriterSeesEnd(script, s, s');
    } else {
      WriterWritesBlock(script, s, s');
    }
  }

  lemma HeadOfQueue(script: Script, s: State)
    requires QueueInv(s) && ContentsInv(script, s) && s.count > 0
    ensures s.slots[s.head] == SlotOf(script.outcome(Released(s)))
  {
    assert Cells(s.slots, s.head, s.count)[0] == s.slots[s.head];
  }

  // Writing touches neither the queue nor the reader.
  lemma WriteKeepsQueue(script: Script, s: State, s': State)
    requires Inv(script, s) && WriterWrite(s, s')
    ensures QueueInv(s') && ContentsInv(script, s') && ReaderInv(script, s') && SleepInv(s')
    ensures Released(s') == Released(s)
  {
  }

  lemma WriterSeesEnd(script: Script, s: State, s': State)
    requires ValidScript(script) && Inv(script, s) && WriterWrite(s, s') && s.slots[s.head].isEof
    requires s.slots[s.head] == SlotOf(script.outcome(Released(s))) && Released(s') == Released(s)
    ensures WriterInv(script, s')
  {
  }

  lemma WriterWritesBlock(script: Script, s: State, s': State)
    requires Inv(script, s) && WriterWrite(s, s') && !s.slots[s.head].isEof
    requires s.slots[s.head] == SlotOf(script.outcome(Released(s))) && Released(s') == Released(s)
    ensures WriterInv(script, s')
  {
    var r: nat := Released(s);
    assert Blocks(script, r + 1) == Blocks(script, r) + s.slots[s.head].data;
  }

  lemma WriterReleaseInv(script: Script, s: State, s': State)
    requires Inv(script, s) && WriterRelease(s, s')
    ensures Inv(script, s')
  {
    ReleaseKeepsContents(script, s, s');
    assert AllData(script, Released(s'));
  }

  lemma ReleaseKeepsContents(script: Script, s: State, s': State)
    requires QueueInv(s) && ContentsInv(script, s) && WriterRelease(s, s')
    ensures QueueInv(s') && ContentsInv(script, s') && Released(s') == Released(s) + 1
  {
    ReleaseKeepsQueue(s, s');
    DropFirstCell(s.slots, s.head, s.count);
    var cells := Cells(s.slots, s.head, s.count);
    forall k | 0 <= k < s'.count
      ensures Cells(s'.slots, s'.head, s'.count)[k] == SlotOf(script.outcome(Released(s') + k))
    {
      assert cells[1..][k] == cells[k + 1];
    }
  }

  lemma ReleaseKeepsQueue(s: State, s': State)
    requires QueueInv(s) && WriterRelease(s, s')
    ensures QueueInv(s') && s'.tail == s.tail
  {
  }

  lemma WriterStopInv(script: Script, s: State, s': State)
    requires Inv(script, s) && WriterStop(s, s')
    ensures Inv(script, s')
  {
  }

  lemma WriterJoinInv(script: Script, s: State, s': State)
    requires Inv(script, s) && WriterJoin(s, s')
    ensures Inv(script, s')
  {
  }

  lemma ReaderStepInv(script: Script, s: State, s': State)
    requires Inv(script, s) && ReaderStep(script, s, s')
    ensures Inv(script, s')
  {
    if
    case ReaderEnter(s, s') => ReaderEnterInv(script, s, s');
    case ReaderFill(script, s, s') => ReaderFillInv(script, s, s');
    case ReaderPublish(s, s') => ReaderPublishInv(script, s, s');
    case ReaderExit(s, s') => ReaderExitInv(script, s, s');
  }

  lemma WriterStepInv(script: Script, s: State, s': State)
    requires ValidScript(script) && Inv(script, s) && WriterStep(script, s, s')
    ensures Inv(script, s')
  {
    if
    case EngineStop(script, s, s') => EngineStopInv(script, s, s');
    case WriterEnter(script, s, s') => WriterEnterInv(script, s, s');
    case WriterWrite(s, s') => WriterWriteInv(script, s, s');
    case WriterRelease(s, s') => WriterReleaseInv(script, s, s');
    case WriterStop(s, s') => WriterStopInv(script, s, s');
    case WriterJoin(s, s') => WriterJoinInv(script, s, s');
  }

  lemma SpuriousWakeupInv(script: Script, s: State, s': State)
    requires Inv(script, s) && SpuriousWakeup(s, s')
    ensures Inv(script, s')
  {
  }

  lemma StepInv(script: Script, s: State, s': State)
    requires ValidScript(script) && Inv(script, s) && Step(script, s, s')
    ensures Inv(script, s')
  {
    if
    case ReaderStep(script, s, s') => ReaderStepInv(script, s, s');
    case WriterStep(script, s, s') => WriterStepInv(script, s, s');
    case SpuriousWakeup(s, s') => SpuriousWakeupInv(script, s, s');
  }

  lemma {:induction false} RunInv(script: Script, run: seq<State>)
    requires ValidScript(script) && IsRun(script, run)
    ensures Inv(script, run[|run| - 1])
  {
    if |run| == 1 {
      InitInv(script, run[0]);
    } else {
      RunInv(script, run[..|run| - 1]);
      StepInv(script, run[|run| - 2], run[|run| - 1]);
    }
  }

  // ----- what holds in every reachable state -----

  // The two threads never own the same slot: no slot is touched by both outside the mutex.
  lemma NoSharedSlot(script: Script, run: seq<State>)
    requires ValidScript(script) && IsRun(script, run)
    ensures var s := run[|run| - 1];
      s.reader in {RFill, RPublish} && s.writer in {WWrite, WRelease} ==> s.tail != s.head
  {
    RunInv(script, run);
  }

  // At any time the output is a beginning of the input's blocks: nothing is lost, repeated or
  // reordered.
  lemma OutputIsPrefix(script: Script, run: seq<State>) returns (n: nat)
    requires ValidScript(script) && IsRun(script, run)
    ensures AllData(script, n) && run[|run| - 1].output <= Blocks(script, n + 1)
  {
    var s := run[|run| - 1];
    RunInv(script, run);
    n := Released(s);
    if s.writer.WJoin? || s.writer.WFinished? {
      n :| Explains(script, n, s.output, s.writer.result);
    }
  }

  // The first n blocks keep to the limits.
  lemma {:induction false} BlocksKeepTotal(script: Script, n: nat)
    requires ValidScript(script) && AllData(script, n) && script.bytesToCopy.Some?
    ensures |Blocks(script, n)| <= script.bytesToCopy.value
  {
    if n > 0 {
      BlocksKeepTotal(script, n - 1);
      assert KeepsLimits(script, n - 1);
    }
  }

  lemma {:induction false} BlocksKeepRecords(script: Script, n: nat)
    requires ValidScript(script) && AllData(script, n)
    ensures n <= MostRecords(script)
    ensures n <= script.maxRecords ==> |Blocks(script, n)| <= n * script.blockSize
    ensures |Blocks(script, n)| <= script.maxRecords * script.blockSize + script.maxBytes
  {
    if n > 0 {
      BlocksKeepRecords(script, n - 1);
      assert KeepsLimits(script, n - 1);
      Products(n, script.maxRecords, script.blockSize);
    }
  }

  lemma Products(n: nat, max: nat, size: nat)
    requires n > 0
    ensures n * size == (n - 1) * size + size
    ensures n <= max ==> n * size <= max * size
  {
    if n <= max {
      assert max * size == n * size + (max - n) * size;
    }
  }

  // No more is ever written than was asked for.
  lemma OutputKeepsLimits(script: Script, run: seq<State>)
    requires ValidScript(script) && IsRun(script, run)
    ensures var bytes := |run[|run| - 1].output|;
      && (script.bytesToCopy.Some? ==> bytes <= script.bytesToCopy.value)
      && bytes <= script.maxRecords * script.blockSize + script.maxBytes
  {
    var n := OutputIsPrefix(script, run);
    var m := if script.outcome(n).Data? then n + 1 else n;
    assert Blocks(script, m) == Blocks(script, n + 1);
    BlocksKeepRecords(script, m);
    if script.bytesToCopy.Some? {
      BlocksKeepTotal(script, m);
    }
  }

  // When the copy is over its result is the truth: success only behind the end of the input,
  // with all blocks written; a read error behind all blocks before it; a write error within the
  // block that failed.
  lemma ResultIsTrue(script: Script, run: seq<State>) returns (n: nat)
    requires ValidScript(script) && IsRun(script, run) && run[|run| - 1].writer.WFinished?
    ensures Explains(script, n, run[|run| - 1].output, run[|run| - 1].writer.result)
  {
    var s := run[|run| - 1];
    RunInv(script, run);
    n :| Explains(script, n, s.output, s.writer.result);
  }

  // No deadlock: until the copy is over, some thread can take a step that needs no spurious
  // wakeup.
  lemma NoDeadlock(script: Script, s: State) returns (s': State)
    requires Inv(script, s) && !s.writer.WFinished?
    ensures ReaderStep(script, s, s') || WriterStep(script, s, s')
  {
    match s.writer
    case WTop =>
      s' := s.(writer := if EngineLimit(script, s.taken, |s.output|) then WStop(Success)
                         else if s.count > 0 then WWrite
                         else if s.readerDone then WStop(Success) else WWaiting);
    case WWrite =>
      var slot := s.slots[s.head];
      s' := if slot.isEof then s.(writer := WStop(if slot.err != 0 then ReadError(slot.err) else Success))
            else s.(taken := s.taken + 1, output := s.output + slot.data, writer := WRelease);
    case WRelease =>
      s' := s.(head := Index(s.head, 1, |s.slots|), count := s.count - 1,
               reader := WakeReader(s.reader), writer := WTop);
    case WStop(result) =>
      s' := s.(stop := true, reader := WakeReader(s.reader), writer := WJoin(result));
    case WJoin(result) =>
      if s.reader == RDone {
        s' := s.(writer := WFinished(result));
      } else {
        s' := ReaderCanStep(script, s);
      }
    case WWaiting =>
      s' := ReaderCanStep(script, s);
  }

  // A reader that is neither done nor asleep can step; while the writer waits for it, in either
  // way, it is not asleep.
  lemma ReaderCanStep(script: Script, s: State) returns (s': State)
    requires Inv(script, s) && s.reader != RDone && (s.writer == WWaiting || s.writer.WJoin?)
    ensures ReaderStep(script, s, s')
  {
    match s.reader
    case RTop =>
      s' := s.(reader := if s.stop then RExit else if s.count == |s.slots| then RWaiting else RFill);
    case RFill =>
      s' := s.(slots := s.slots[s.tail := SlotOf(script.outcome(s.turns))], turns := s.turns + 1, reader := RPublish);
    case RPublish =>
      s' := s.(tail := Index(s.tail, 1, |s.slots|), count := s.count + 1,
               reader := if s.slots[s.tail].isEof || s.stop then RExit else RTop,
               writer := WakeWriter(s.writer));
    case RExit =>
      s' := s.(readerDone := true, reader := RDone, writer := WakeWriter(s.writer));
  }

  // ----- every copy comes to its end -----

  function ReaderRank(r: Reader): nat {
    match r
    case RTop => 4
    case RWaiting => 3
    case RFill => 3
    case RPublish => 10
    case RExit => 2
    case RDone => 0
  }

  function WriterRank(w: Writer): nat {
    match w
    case WTop => 5
    case WWaiting => 4
    case WWrite => 4
    case WRelease => 3
    case WStop(_) => 3
    case WJoin(_) => 1
    case WFinished(_) => 0
  }

  // The work left when the outcome number last is the first that is not a block.
  function WorkLeft(s: State, last: nat): int {
    8 * (last + 1 - s.turns) + 4 * s.count + ReaderRank(s.reader) + WriterRank(s.writer)
  }

  // Every step except a spurious wakeup leaves less work.
  lemma ReaderStepWorks(script: Script, s: State, s': State, last: nat)
    requires ReaderStep(script, s, s')
    ensures WorkLeft(s', last) < WorkLeft(s, last)
  {
  }

  lemma WriterStepWorks(script: Script, s: State, s': State, last: nat)
    requires WriterStep(script, s, s')
    ensures WorkLeft(s', last) < WorkLeft(s, last)
  {
  }

  // How many of a run's first n steps are spurious wakeups.
  ghost function Wakeups(script: Script, run: seq<State>, n: nat): nat
    requires n < |run|
  {
    if n == 0 then 0
    else
      var s, s' := run[n - 1], run[n];
      Wakeups(script, run, n - 1) + if ReaderStep(script, s, s') || WriterStep(script, s, s') then 0 else 1
  }

  lemma {:induction false} WorkDone(script: Script, run: seq<State>, last: nat, n: nat)
    requires IsRun(script, run) && n < |run|
    ensures WorkLeft(run[n], last) + n <= 8 * last + 17 + 2 * Wakeups(script, run, n)
  {
    if n > 0 {
      WorkDone(script, run, last, n - 1);
      if ReaderStep(script, run[n - 1], run[n]) || WriterStep(script, run[n - 1], run[n]) {
        StepWorks(script, run[n - 1], run[n], last);
      }
    }
  }

  // A copy whose input ends, after its last block or with an error, takes a bounded number of
  // steps besides the spurious wakeups and what they repeat, whatever the schedule and the number
  // of slots; with NoDeadlock it comes to its end.
  lemma RunsAreBounded(script: Script, run: seq<State>, last: nat)
    requires ValidScript(script) && IsRun(script, run) && !script.outcome(last).Data?
    ensures |run| <= 8 * last + 18 + 2 * Wakeups(script, run, |run| - 1)
  {
    WorkDone(script, run, last, |run| - 1);
    RunInv(script, run);
    TurnsBounded(script, run[|run| - 1], last);
  }

  // Every copy whose input ends can be brought to its end, from wherever it is.
  lemma {:induction false} RunCanComplete(script: Script, run: seq<State>, last: nat) returns (complete: seq<State>)
    requires ValidScript(script) && IsRun(script, run) && !script.outcome(last).Data?
    ensures run <= complete && IsRun(script, complete) && complete[|complete| - 1].writer.WFinished?
    decreases WorkLeft(run[|run| - 1], last)
  {
    var s := run[|run| - 1];
    RunInv(script, run);
    TurnsBounded(script, s, last);
    if s.writer.WFinished? {
      complete := run;
    } else {
      var s' := NoDeadlock(script, s);
      StepWorks(script, s, s', last);
      assert IsRun(script, run + [s']);
      complete := RunCanComplete(script, run + [s'], last);
    }
  }

  lemma StepWorks(script: Script, s: State, s': State, last: nat)
    requires ReaderStep(script, s, s') || WriterStep(script, s, s')
    ensures WorkLeft(s', last) < WorkLeft(s, last)
  {
    if ReaderStep(script, s, s') {
      ReaderStepWorks(script, s, s', last);
    } else {
      WriterStepWorks(script, s, s', last);
    }
  }

  // The reader never goes past the first outcome that is not a block.
  lemma TurnsBounded(script: Script, s: State, last: nat)
    requires Inv(script, s) && !script.outcome(last).Data?
    ensures s.turns <= last + 1
  {
  }
}
