# blkcp verified model

A Dafny model of blkcp, a block copier with an integrated tree hash, and of the algorithmic gnulib headers it
is built on. `dafny verify dfyconfig.toml` checks everything.

## What is modelled

**The BLKS-384 tree hash** (`rust/crates/blks-core/src/tree.rs`). `BlksTree` defines the digest of a message as
a tree cut from the root down (the left subtree is the largest complete one, only the topmost node carries the
root flag) and proves that the level-by-level reduction, the reduction in 256 KiB subtrees and the
parallel slice hash compute it. `BlksStream` is the incremental hasher, an object with a chunk buffer and a
list of leaves, and the loop that feeds it: however a stream is cut into pieces, the digest is that of the whole.
`BlksTerm` says exactly which computation the digest is, and `BlksCollision` that when two messages have one digest,
two of the inputs that are compressed on the way to it have one output.
The compression of a chunk and of two child digests is a parameter, so all of this holds for any choice of it.

**The sharded copy** (`rust/src/uring.rs`). `ShardedHash` is a transition system in which any number of
workers claim stripes of 64 MiB, or of a block if that is more, from a shared counter, read and write them block by
block, and hand in leaves. A read asks for the smaller of a block and what is left of the stripe, modulo 2^32, and
returns any part of that. A worker leaves when nothing is left to claim, when a read returns nothing (at the end of
the file, or because it asked for nothing), or when it sees the flag that such a worker sets. For every schedule the
output holds only bytes of the input in their places; it ends up equal to the input exactly when the requests fit in
32 bits (`ShardedHash.FitsReads`), and then every stripe is collected exactly once and the combined digest is the
digest of the input provided that reads keep to chunk boundaries. `ShardedRuns` shows that every run is bounded and
can be completed. `ShardedExact` shows, with digests as formal terms, that these provisos are exact. Leaves are
carried along in every copy; one without a hash ignores them.

**The asynchronous pipeline** (`src/io_async.c` and the loop of `src/io_engine.c` that drives it). `AsyncPipeline` is
the protocol of a reader and a writer thread over a circular queue, one mutex and two conditions, with the limits on
records and bytes that both sides test, and with spurious wakeups. An inductive invariant gives: no slot is owned by
both threads, the output is always a beginning of the input and within the limits, the result reported at the end is
true, no wakeup is lost, no deadlock, and a bound on the length of every run. `AsyncSource` derives how much a copy of a
source writes: all that is there and was asked for.

**Argument groups** (`include/argmatch.h`). `ArgMatch` has the matcher, the reverse lookup and the list of valid
arguments; `ArgUsage` the column calculator, the word-wrapping usage printer, and what one assumes of the other.

**Word and size arithmetic**, for every word width. `Rotate` (`include/bitrotate.h`), `FlexSize`
(`include/flexmember.h` and the rounding of `include/alignalloc.h`), `LeadingZeros`
(`include/count-leading-zeros.h`), `HumanBound` (`include/human.h`). `Powers`, `Bits` and `Decimal` hold the
mathematics they share.

**Strings and tables.** `VersionSort` (`include/filevercmp.h`), `CaseEqual` (`include/c-strcaseeq.h`,
`include/c-ctype.h`), `PerfectHash`, `AixMapping` and `IrixMapping` (`include/iconv_open-aix.h`,
`include/iconv_open-irix.h`), `Uptime` (`include/boot-time-aux.h`).

**The displacing ring** (`include/i-ring.h`). `IRing` is an object over an array that refines an unbounded stack;
`Cyclic` holds the facts about circular slots that it shares with the pipeline, `Common` what all share.

The headers `filevercmp.h` and `i-ring.h` describe their algorithm and representation in comments; the C bodies
are not part of this model, and the steps are written from those comments.

## What turned out not to hold as stated

- The length of a read in the sharded copy is converted to 32 bits, and a read that returns nothing is taken for the
  end of the file. With a block of 4 GiB or more the first read asks only for the stripe's length modulo 2^32, and
  what is behind that is never copied. `ShardedHash.OutputIsInput` gives the exact condition under which the whole
  input is copied, for all runs, and `ShardedExact.HugeBlockCopiesNothing` a 4 GiB input of which nothing is copied.
- The comment on `reduce_nodes` promises trees that are bit-exact across the multithreaded and streaming paths. The
  sharded path hashes what each read returns, so a short read that does not end on a chunk boundary gives another
  tree. `ShardedExact.ShardedDigestIff` gives the exact condition over all runs, `ShardedExact.ShortReadBreaksDigest`
  a copy of 4097 bytes whose digest is wrong, and `ShardedExact.GuardIsExact` the exact condition on the block size
  when no read is short: the guard before the sharded path establishes it for stripes below 4 GiB.
- The usage calculator of argmatch tests `col == 4` to see whether a synonym is the first. An entry whose first
  synonym is the empty name is therefore counted two columns too narrow, and if no other entry is as wide a text that
  would fit moves to a line of its own. `ArgUsage.CalculatorAgreesWithPrinter` and `ArgUsage.DocOnNamesLineIff` say
  exactly when, for groups of any size, and `ArgUsage.EmptyNameMisleadsCalculator` is such a group. Where the text
  starts is right in any case.
- The value round trip of argmatch needs no distinct names in general: `ArgMatch.ValueRoundTrip` gives the exact
  condition for one value.
- The exit of the pipeline's writer on an empty queue whose reader is done is never taken: the reader always
  publishes an end-of-input slot first (`AsyncPipeline.NoStarvedExit`).
- `alignalloc` clamps a negative size to the largest `size_t` but stores it in a signed `idx_t`, which makes it -1;
  rounding then turns that into 0 for every alignment above 1. `FlexSize.AlignAlloc` follows the code.

## Model

| member | source | states |
|---|---|---|
| BlksTree.SplitIsPowerOfTwo | rust/crates/blks-core/src/tree.rs:150-173 | the reference tree cuts n leaves at a power of two (Split's contract: below n, at least half of n), which is why 64-chunk subtrees fit into it |
| BlksTree.PairsAndOrphan | rust/crates/blks-core/src/tree.rs:118-145 | taking off the node without a neighbour, combining the pairs and putting it back is one level of reduction |
| BlksTree.LevelKeepsRoot | rust/crates/blks-core/src/tree.rs:118-145 | reducing one level, with the root flag only on a level of two, leaves the root of the top-down tree unchanged |
| BlksTree.ReduceNodes | rust/crates/blks-core/src/tree.rs:112-148 | the reduction loop returns the root of the top-down tree over the given nodes, for every number of nodes |
| BlksTree.LeavesConcat | rust/crates/blks-core/src/tree.rs:68-97 | cutting whole chunks off the front of a message splits its leaves at the same place |
| BlksTree.SubtreesKeepRoot | rust/crates/blks-core/src/tree.rs:159-168 | reducing subtrees of 2^j nodes without the root flag and then their roots gives the root of the whole tree whenever there are more than 2^j nodes |
| BlksTree.SliceRootsAreSubroots | rust/crates/blks-core/src/tree.rs:160-166 | the roots of 256 KiB slices are the roots of 64-leaf subtrees of the whole message |
| BlksTree.ParallelHashIsDigest | rust/crates/blks-core/src/tree.rs:151-173 | the parallel slice hash is the digest of the message, for every message and on each of its three paths |
| BlksStream.HashChunksAccelerated | rust/crates/blks-core/src/tree.rs:68-100 | with or without four-at-a-time vector rounds, a slice yields the leaves of its chunks, the tail included |
| BlksStream.BlksHasher.constructor | rust/crates/blks-core/src/tree.rs:191-197 | a new hasher has been fed nothing |
| BlksStream.BlksHasher.TopUp | rust/crates/blks-core/src/tree.rs:207-228 | a pending complete chunk is hashed only once more data follows, a partial one is filled up; nothing is lost, and either the input or the buffer is used up |
| BlksStream.BlksHasher.TakeRest | rust/crates/blks-core/src/tree.rs:230-248 | from an empty buffer all input is taken, and its last chunk, complete or not, stays in the buffer |
| BlksStream.BlksHasher.Update | rust/crates/blks-core/src/tree.rs:204-249 | an update appends its data to what was fed and keeps the invariant that all chunks but the last are hashed |
| BlksStream.BlksHasher.Finalize | rust/crates/blks-core/src/tree.rs:254-266 | the result is the digest of everything fed, however it was cut into pieces |
| BlksStream.HashReader | rust/crates/blks-core/src/tree.rs:270-281 | hashing a reader gives the digest of its whole stream, the same value as the parallel slice hash |
| BlksStream.DeliveredIsJoined | rust/crates/blks-core/src/tree.rs:273-279 | what a reader delivers is all its pieces up to the first empty one |
| BlksTerm.DigestIffTerm | rust/crates/blks-core/src/tree.rs:151-173 | exactly which computation the digest is: a message of at most 4096 bytes is one chunk with the root flag; of a longer one the leaves are its pieces of 4096 bytes, the left subtree of every node has a power of two of leaves, and the topmost node and nothing else carries the flag; no other term has these properties |
| BlksTerm.DigestIsValueOfTerm | rust/crates/blks-core/src/tree.rs:112-173 | with any compression the digest is the value of that computation |
| BlksStream.HashSlices | rust/crates/blks-core/src/tree.rs:159-166 | slice by slice, hashing chunks and reducing without the root flag yields the roots of the slices |
| BlksStream.HashSlice | rust/crates/blks-core/src/tree.rs:151-173 | built from the code's own steps, the parallel slice hash returns the digest of every message |
| BlksCollision.DigestIsOutput | rust/crates/blks-core/src/tree.rs:112-173 | the first of the listed inputs of a message, those of its chunks and of every node of its tree, is compressed to its digest |
| BlksCollision.DigestInputsAreUsed | rust/crates/blks-core/src/tree.rs:112-148 | the list has one input per chunk and inner node, and the output of every input but the first is a part of another one |
| BlksCollision.SameRootCollides | rust/crates/blks-core/src/tree.rs:112-148 | two trees with one root are over the same chunks, or an input evaluated in one and a different input evaluated in the other have one output |
| BlksCollision.SameDigestCollides | rust/crates/blks-core/src/tree.rs:151-173 | for every compression, if two different messages have one digest then an input evaluated for one and a different input evaluated for the other have one output; no chunk among them is longer than 4096 bytes |
| ShardedHash.AlignedReadsKeepLeaves | rust/src/uring.rs:308-313 | reads that keep to chunk boundaries yield the leaves of the message |
| ShardedHash.AskedReadsDeliver | rust/src/uring.rs:269-297 | reads that are asked for in turn deliver a beginning of the stripe, and stop only at the end of the input's part or when nothing is asked for |
| ShardedHash.WholeIffFits | rust/src/uring.rs:274-278 | all stripes are read to their end if and only if the first stripe is below 4 GiB or the input ends within its length modulo 2^32 |
| ShardedHash.SmallBlocksFit | rust/src/uring.rs:274-278 | with blocks below 4 GiB all requests fit |
| ShardedHash.StripesStartAt | rust/src/uring.rs:198 | the stripe number k starts k times 64 MiB, or k blocks if these are more, behind the first |
| ShardedHash.StepInv | rust/src/uring.rs:241-359 | every claim, block, finished stripe, read of nothing and abort of every worker keeps the invariant: each stripe is finished, held or unclaimed at most once, leaves are on track, copied bytes are in place; and if no stripe is cut short, exactly once, with nobody leaving before all stripes of the input are claimed |
| ShardedHash.RunInv | rust/src/uring.rs:223-373 | the invariant holds at the end of every run, for every block size, requested length and read size |
| ShardedHash.OutputIsInput | rust/src/uring.rs:268-344 | at any time the output holds only bytes of the input in their places; once the workers are done it holds all of them if and only if the requests fit in 32 bits, for every schedule and all read sizes |
| ShardedHash.SortedIsUnique | rust/src/uring.rs:376-377 | an unstable sort of distinct bases has one possible result |
| ShardedHash.StripesCombine | rust/src/uring.rs:378-381 | the leaves of all stripes in order are what all reads in order yield of the whole input, for every block size that cuts no stripe short |
| ShardedHash.RunCollects | rust/src/uring.rs:356-373 | in every run, also one that is cut short, no stripe is collected twice, and each with the leaves of what is read of it |
| ShardedHash.EveryStripeOnce | rust/src/uring.rs:242-381 | when the requests fit, for every schedule the sort has exactly one result, the stripes of the input in order with their leaves: none is lost, repeated or reordered |
| ShardedHash.ShardedDigestIsDigest | rust/src/uring.rs:375-385 | for any compression, worker count and schedule, the combined digest is the digest of the input if the requests fit, reads keep to chunk boundaries and there is more than one chunk |
| ShardedRuns.WorkersCanStep | rust/src/uring.rs:241-359 | a worker that has not left can always take a step |
| ShardedRuns.StepWorks | rust/src/uring.rs:241-359 | every step of every worker leaves less to do |
| ShardedRuns.RunsAreBounded | rust/src/uring.rs:223-373 | every run is bounded by two steps per worker, two per stripe and one per read, whatever the schedule |
| ShardedRuns.RunCanComplete | rust/src/uring.rs:223-373 | every run can be continued until all workers have left |
| ShardedExact.FringeOfRoot | rust/crates/blks-core/src/tree.rs:112-148 | as a formal term the root determines its leaves in order |
| ShardedExact.ShortReadShiftsChunks | rust/src/uring.rs:308-313 | the chunks that reads yield are those of the message if and only if every read but the last ends on a chunk boundary |
| ShardedExact.CutStripeMissesDigest | rust/src/uring.rs:289-298 | when the first stripe is cut short, no run, whatever its other workers still copy, gives the digest of the input |
| ShardedExact.ShardedDigestIff | rust/src/uring.rs:375-385 | over every complete run, there is a combined digest and it is built as the digest of the input is if and only if the requests fit, the input has more than one chunk and every read but the last of the copy ends on a chunk boundary |
| ShardedExact.ShortReadBreaksDigest | rust/src/uring.rs:308-313 | a 4097-byte input whose first read returns one byte is copied, by any number of workers, with a digest that is not its own |
| ShardedExact.HugeBlockCopiesNothing | rust/src/uring.rs:274-298 | of a 4 GiB input with a block of 4 GiB no run copies a byte or collects a leaf |
| ShardedExact.HugeBlockCompletes | rust/src/uring.rs:274-298 | and that copy comes to its end, with any number of workers |
| ShardedExact.FullReadsAlignedIff | rust/src/uring.rs:274-313 | when the requests fit and no read is short, all reads keep to chunk boundaries if and only if the block size is a multiple of the chunk size or no smaller than the input |
| ShardedExact.GuardIsExact | rust/src/uring.rs:48-50 | without short reads and for every block size, the copy gives the digest of the input if and only if the requests fit, there is more than one chunk and the block size is a multiple of the chunk size or no smaller than the input; the guard implies the last two |
| AsyncPipeline.StepInv | src/io_async.c:98-363 | every critical section and unlocked piece of work of either thread, the engine's limit check, and every spurious wakeup keeps the invariant |
| AsyncPipeline.RunInv | src/io_async.c:92-420 | the invariant holds at the end of every run |
| AsyncPipeline.EngineStopInv | src/io_engine.c:830-837 | when the engine ends the loop at its record or byte limit the reader's script ends behind the same blocks, all of them written, so that its success is true |
| AsyncPipeline.NoStarvedExit | src/io_async.c:316-323 | when the reader is done and the writer looks for a slot, the queue is not empty |
| AsyncPipeline.NoSharedSlot | src/io_async.c:113-115 | while the reader fills one slot and the writer reads one outside the mutex, the slots differ |
| AsyncPipeline.OutputIsPrefix | src/io_async.c:345-361 | in every reachable state the output is a beginning of the input's blocks |
| AsyncPipeline.OutputKeepsLimits | src/io_async.c:117-154 | in every reachable state no more is written than the byte total, and than the records and extra bytes, that were asked for |
| AsyncPipeline.ResultIsTrue | src/io_async.c:329-353 | success is reported only at the end of input or at the limit with all blocks written, a read error behind all earlier blocks, a write error within the block that failed |
| AsyncPipeline.NoDeadlock | src/io_async.c:309-327 | in every state that satisfies the invariant and is not final some thread can step without a spurious wakeup |
| AsyncPipeline.StepWorks | src/io_async.c:98-363 | every step except a spurious wakeup decreases one measure of the work left |
| AsyncPipeline.RunCanComplete | src/io_async.c:92-420 | every run over an input that ends extends to one in which the writer has finished |
| AsyncPipeline.RunsAreBounded | src/io_async.c:92-420 | a run over an input whose first non-block outcome has number n has at most 8n + 18 states and two more for each spurious wakeup, whatever the schedule and queue size |
| AsyncSource.SourceScriptIsValid | src/io_async.c:117-156 | a source that gives full reads, maxRecords records and then the further bytes, as far as it and the total reach, is among the scripts that the reader may meet |
| AsyncSource.FinishedCopyIsWanted | src/io_async.c:92-387 | a finished copy of such a source has failed to write, or has written exactly the smallest of the source, the records with the further bytes, and the total |
| AsyncSource.SourceCopyCanFinish | src/io_async.c:92-420 | every copy of such a source can be brought to its end |
| AsyncSource.LimitEndsCopy | src/io_engine.c:830-837 | once the total is written, or without one all records and further bytes are taken, the loop ends with success |
| ArgMatch.Choice | include/argmatch.h:193-220 | the scan returns the first exact match; else invalid, the first abbreviated entry, or ambiguous, as the documentation asks |
| ArgMatch.AbbreviatesIff | include/argmatch.h:200-205 | an argument abbreviates exactly the names that are the argument and something more, or nothing |
| ArgMatch.ChoiceOutcomes | include/argmatch.h:193-220 | when each of the outcomes occurs, both ways; an accepted name continues the argument; that an exact match overrides clashing abbreviations before it |
| ArgMatch.AbbreviationStable | include/argmatch.h:204-219 | extending an accepted abbreviation never makes it ambiguous nor changes its value; a rejected one stays rejected |
| ArgMatch.Value | include/argmatch.h:252-264 | an accepted spelling yields the value of the chosen entry, any other is reported |
| ArgMatch.Argument | include/argmatch.h:222-231 | the first name that carries the value, if one does |
| ArgMatch.ValueRoundTrip | include/argmatch.h:189-231 | looking up a value's own argument gives the value back if and only if no earlier entry has that name |
| ArgMatch.CanonicalSpelling | include/argmatch.h:193-231 | replacing an accepted spelling by its value's argument keeps the value, and is then idempotent, if and only if no earlier entry has that argument's name |
| ArgMatch.Valid | include/argmatch.h:233-250 | the text printed is one bullet for each run of equal values |
| ArgMatch.BulletTexts | include/argmatch.h:240-247 | a bullet starts on a new line with a dash, and its further names follow after commas |
| ArgMatch.RunsAreMaximal | include/argmatch.h:240-248 | the bullets list every entry once, in order, and are the maximal runs of equal values |
| ArgMatch.BulletValuesOfRuns | include/argmatch.h:240-248 | there are as many bullets as bullet values, and each bullet carries its value |
| ArgMatch.OneBulletPerValue | include/argmatch.h:240-248 | the bullets' values are the values of the table, each once when synonyms follow each other |
| ArgUsage.DocCol | include/argmatch.h:266-290 | the column is the least of 20 and the widest entry, and 20 for a group without documentation |
| ArgUsage.PrintSynonyms | include/argmatch.h:312-332 | the inner loop prints the wrapped synonyms and tracks the column of the last line |
| ArgUsage.PrintHead | include/argmatch.h:306-340 | an entry up to its documentation is its wrapped names and the gap to the column |
| ArgUsage.Usage | include/argmatch.h:292-344 | the text printed: every entry in order with its documentation, between the leading and the closing text, each on its line if there is one |
| ArgUsage.SynonymsAreDisplayed | include/argmatch.h:312-316 | a genuine entry displays each table entry with its value exactly once, in table order |
| ArgUsage.EntryDisplays | include/argmatch.h:303-316 | an argument that chooses nothing displays itself; any other displays the names of exactly the entries with the chosen entry's value, in table order and each once |
| ArgUsage.WrapKeepsNames | include/argmatch.h:317-331 | wrapping keeps all names in order; a line, without the comma that may end it, exceeds the screen only if it holds one name |
| ArgUsage.NamesStayOnScreen | include/argmatch.h:312-332 | while names are printed the output's column never exceeds the larger of the screen's width and two more than the longest name, by more than the comma that ends a line |
| ArgUsage.UsageNamesStayOnScreen | include/argmatch.h:292-332 | the same for the names of every entry where they stand in the whole usage text |
| ArgUsage.FittingNamesStayTogether | include/argmatch.h:317-331 | names that fit are not wrapped |
| ArgUsage.WrapIsGreedy | include/argmatch.h:317-323 | a new line is begun only for a name that does not fit on the line before |
| ArgUsage.WrapTwo | include/argmatch.h:312-332 | how two names are printed, with blanks, comma and line break |
| ArgUsage.CalculatorAgreesWithPrinter | include/argmatch.h:276-285 | the calculator's count is the printer's count plus two if and only if the entry has one name or its first name is not empty; it is never larger |
| ArgUsage.ColumnAfterLines | include/argmatch.h:306-332 | after the names the output is in the column the printer has counted, for names without line breaks |
| ArgUsage.DocColIsLeftmost | include/argmatch.h:266-289 | the column is between 4 and 20, holds every counted entry if below 20, and some entry needs it |
| ArgUsage.DocStartsInColumn | include/argmatch.h:303-340 | every documentation text starts exactly in the calculated column behind at least two blanks, whatever precedes it and however names wrap; the entry is these names, the gap, the text and a line break |
| ArgUsage.UsageEnds | include/argmatch.h:301-343 | before the first entry there is the leading paragraph only, and there are no other entries |
| ArgUsage.DocOnNamesLine | include/argmatch.h:266-340 | the text follows on the names' line whenever the unwrapped names and two blanks fit in 20, under the condition of the calculator |
| ArgUsage.DocOnNamesLineIff | include/argmatch.h:266-289 | for every group, when names and two blanks fit in 20 the column leaves room for them if and only if the entry has one name, its first name is not empty, or some entry is counted as wide |
| ArgUsage.DocLineFollowsRoom | include/argmatch.h:333-340 | unwrapped names are followed by the text on their line if there is room, else by a line break and the column |
| ArgUsage.EmptyNameMisleadsCalculator | include/argmatch.h:283-284 | a group whose first synonym is empty gets a column two too small |
| Rotate.RotlIsCyclicShift | include/bitrotate.h:40-116 | a left rotation is the cyclic shift of the word's bits, for every width and register |
| Rotate.RotrIsRotl | include/bitrotate.h:48-136 | a right rotation by n is a left rotation by the width minus n |
| Rotate.RotationsCompose | include/bitrotate.h:40-136 | rotations compose by adding amounts around the circle |
| Rotate.RotationsInvert | include/bitrotate.h:40-136 | right undoes left by the same amount, and the other way round |
| Rotate.RotationIgnoresRegister | include/bitrotate.h:97-136 | the forms that shift in a wider register agree with the others, and are the identity at 0 and at the width |
| FlexSize.FlexAlignOfIsLargestPower | include/flexmember.h:30-39 | the fallback alignment is the largest power of two dividing the size, and every other such power divides it |
| FlexSize.FlexSizeOfRoundsUp | include/flexmember.h:41-65 | the rounded size is less than n if and only if the sum overflows; otherwise it is the least aligned size that holds offset + n bytes |
| FlexSize.OverflowIffTooBig | include/flexmember.h:61-65 | the sum overflows exactly when the aligned size itself does not fit |
| FlexSize.AlignAlloc | include/alignalloc.h:85-96 | which alignment and size are requested, the size the least multiple of a positive alignment; negative inputs as the code treats them |
| FlexSize.MaskRoundingIsDivisionRounding | include/alignalloc.h:92-96 | for power-of-two alignments the mask rounding of FLEXSIZEOF and this division rounding agree |
| LeadingZeros.SmearDoubles | include/count-leading-zeros.h:90-95 | or-ing a word with itself shifted doubles the run of ones below its top bit |
| LeadingZeros.DeBruijnTable | include/count-leading-zeros.h:81-96 | every run of ones selects the table entry that counts the zeros above it |
| LeadingZeros.CountLeadingZeros32 | include/count-leading-zeros.h:79-97 | for every nonzero 32-bit word, 32 minus its bit length |
| LeadingZeros.NextChunkIsExact | include/count-leading-zeros.h:72-75 | the two-step shift to the next chunk loses no bit |
| LeadingZeros.LoopExit | include/count-leading-zeros.h:67-76 | when the loop stops its chunk is nonzero and holds the word's highest bit |
| LeadingZeros.CountLeadingZeros | include/count-leading-zeros.h:62-77 | for every width that is a multiple of 32 and every word, the width minus the bit length |
| LeadingZeros.BitLengthBounds | include/count-leading-zeros.h:79-80 | the bit length is the exponent of the least power of two above the word |
| HumanBound.Log10Of2 | include/human.h:29-32 | log10(2) < 146/485, stated as 2^485 < 10^146 |
| HumanBound.DigitCountBound | include/human.h:29-39 | every number of n bits has at most n * 146 / 485 + 1 decimal digits, for every n |
| HumanBound.GroupedLength | include/human.h:33-39 | digits with a separator after each one but the last stay within the macro's product |
| HumanBound.GroupedIsExact | include/human.h:33-39 | what is printed are the digits and the separators and nothing else |
| HumanBound.LongestIsEnough | include/human.h:29-39 | the square of the largest uintmax_t of any width, with separators, a space and a suffix, fits in the buffer |
| HumanBound.LongestIsReached | include/human.h:37-39 | with 64 bits and separators of 16 bytes the bound is 651 bytes, and is reached |
| Uptime.GetLinuxUptime | include/boot-time-aux.h:43-64 | the parser returns what the text says, and nothing if it does not start with a digit; every read is within the text or its NUL |
| Uptime.Seconds | include/boot-time-aux.h:50-53 | the loop reads the leading digits and stops behind them |
| Uptime.ReadFraction | include/boot-time-aux.h:56-59 | exactly nine fractional digits are taken, zeros once they run out |
| Uptime.UptimeIsTruncatedDecimal | include/boot-time-aux.h:50-61 | the result is normalised and is the decimal number written, truncated to nanoseconds |
| Uptime.ParsedPointText | include/boot-time-aux.h:50-61 | digits, a point, any number of digits and anything else are parsed to the decimal number, truncated to nanoseconds |
| Uptime.ParsedWholeText | include/boot-time-aux.h:50-61 | digits without a point behind them are parsed to whole seconds, and no digits to nothing |
| Uptime.FixedPointRoundTrip | include/boot-time-aux.h:50-61 | printing a time in fixed point and parsing it gives it back, whatever follows |
| Uptime.BootTime | include/boot-time-aux.h:150-157 | subtracting with a borrow is normalised and conserves the nanoseconds |
| VersionSort.RoundConsumes | include/filevercmp.h:34-46 | every round of the comparison consumes a byte of each string that is not empty |
| VersionSort.RankFollowsComment | include/filevercmp.h:48-52 | letters before other bytes, a tilde before even the end of the string, otherwise byte order |
| VersionSort.LettersAndDigits | include/filevercmp.h:34-52 | the letters are A to Z and a to z, the digits 0 to 9 |
| VersionSort.SpecialNamesFirst | include/filevercmp.h:54-60 | a reading of the comment's list in the model: the empty name, dot, dot-dot and hidden names come first |
| VersionSort.SuffixIffMatches | include/filevercmp.h:62-65 | the one-pass suffix test accepts exactly what the regular expression matches |
| VersionSort.StripIsMaximal | include/filevercmp.h:62-71 | stripping removes the longest matching suffix that leaves something |
| VersionSort.VersionCompareIsKeyOrder | include/filevercmp.h:34-46 | the rounds of the comparison compare parsed keys lexicographically |
| VersionSort.NumbersDecide | include/filevercmp.h:34-46 | behind the same beginning, which does not end in a digit, names are ordered by the numbers that come next, whatever leading zeros they have and whatever follows |
| VersionSort.BytesDecide | include/filevercmp.h:34-52 | behind any same beginning names are ordered by the next bytes that are not digits, or the end, if these differ |
| VersionSort.FileOrderIsLexicographic | include/filevercmp.h:54-71 | names are ordered by special class, then key of the stripped name, then key of the whole name |
| VersionSort.StemsDecide | include/filevercmp.h:62-71 | ordinary names are ordered by what is left without the longest matching suffix, and by the whole names if that ties |
| VersionSort.FileNumbersDecide | include/filevercmp.h:34-71 | file names that agree up to a number are ordered by that number, whatever suffixes follow |
| VersionSort.KeyOrderTransitive | include/filevercmp.h:34-46 | the order of keys is transitive, strictly if either step is strict |
| VersionSort.FileOrderIsTotalPreorder | include/filevercmp.h:30-71 | sign-antisymmetric, reflexive, transitive and total on all byte strings |
| VersionSort.FileOrderTies | include/filevercmp.h:30-71 | exactly which names tie |
| CaseEqual.CaseEqFolds | include/c-strcaseeq.h:33-39 | the bit trick decides equality up to case when its second argument is upper-cased |
| CaseEqual.CaseEqNeedsUpper | include/c-strcaseeq.h:32-39 | it does so for a second argument if and only if that is not a lower-case letter |
| CaseEqual.FoldsLetters | include/c-ctype.h:311-358 | folding identifies the 26 letters in either case and no other characters |
| CaseEqual.StrCaseCmpFolds | include/c-strcaseeq.h:41-45 | the comparison the chain ends in is zero exactly for equal folded rests |
| CaseEqual.StrCaseCmpOrders | include/c-strcaseeq.h:41-45 | and otherwise tells which folded string is less |
| CaseEqual.ChainFolds | include/c-strcaseeq.h:41-171 | each function of the chain decides folded equality from its index on, and reads past neither terminator |
| CaseEqual.StrCaseEqIsFoldedEquality | include/c-strcaseeq.h:159-174 | STRCASEEQ holds exactly for strings equal after C-locale case folding, of any length |
| PerfectHash.KeywordInPool | include/iconv_open-aix.h:84-228 | a keyword's offset stays inside the pool and the pool holds the keyword and its NUL there |
| PerfectHash.StrEqIsEquality | include/iconv_open-aix.h:230-250 | comparing with a pooled keyword is string equality |
| PerfectHash.LinearSearchFinds | include/iconv_open-aix.h:230-250 | the simple lookup returns the first slot holding the string, and nothing exactly for other strings |
| PerfectHash.LookupTestsSlot | include/iconv_open-aix.h:230-250 | the lookup accepts a string exactly if the one slot it hashes to holds it |
| PerfectHash.LookupIsLinearSearch | include/iconv_open-aix.h:230-250 | for every perfect table and every C string the lookup equals the linear search |
| AixMapping.AixIsPerfect | include/iconv_open-aix.h:49-228 | each of the 32 keywords hashes to its own slot; the association table covers index 257 |
| AixMapping.AixLookup | include/iconv_open-aix.h:230-250 | the AIX lookup equals the linear search and finds exactly the 32 names of its table, for every C string |
| IrixMapping.IrixIsPerfect | include/iconv_open-irix.h:49-170 | each of the 19 keywords hashes to its own slot |
| IrixMapping.IrixLookup | include/iconv_open-irix.h:172-193 | the IRIX lookup equals the linear search and finds exactly the 19 names of its table, for every C string |
| IRing.PushView | include/i-ring.h:23-47 | a push keeps the representation, including default values in unused slots, and makes the value the newest element |
| IRing.Ring.constructor | include/i-ring.h:29-43 | a new ring is empty and all slots hold the default value |
| IRing.Ring.IsEmpty | include/i-ring.h:29-47 | only the flag tells an empty ring from a ring with one entry |
| IRing.Ring.Push | include/i-ring.h:23-47 | a push appends, and on a full ring returns and displaces the oldest item |
| IRing.Ring.Pop | include/i-ring.h:23-47 | a pop takes back the newest item and leaves the others |
| IRing.RingIsTopOfStack | include/i-ring.h:23-47 | over every run the ring is the top of an unbounded stack, and what is missing below was handed back, oldest first |
| IRing.NothingLostBelowCapacity | include/i-ring.h:23-47 | while the stack never outgrows the ring the two are equal |
| IRing.RunOps | include/i-ring.h:23-47 | any list of pushes and pops run on a ring object gives the contents, the displaced items and the abort of the list model, so that the object is the top of the stack |

## Left out

- The compression function, its 384-bit state and the AVX2 lanes: a parameter here; each vector lane is taken to
  hash its chunk as the scalar code does.
- System calls, io_uring rings, the single-ring driver, the mmap, reflink and copy_file_range engines, swab and
  other conversions, progress output, statistics, the terminal interface and the safety checks on devices.
- ShardedHash.RunInv: cancellation, I/O errors and a file whose size changes during the copy are not steps of the
  model, and the 64-bit offset counter is unbounded; a read that is interrupted changes nothing, and the retry loop
  around a partial write is one write of the whole block. A system's own limit on the length of a read makes it short.
- AsyncPipeline.StepInv: the read itself is one outcome per turn of the reader; signals, failures of allocation and
  of thread creation, and the flush of a partial output block are not steps.
- BlksStream.BlksHasher.Update: the 64-bit byte counter is unbounded.
- BlksStream.HashReader: a read that fails ends the hashing without a digest; that is not modelled.
- FlexSize.AlignAlloc: integers are unbounded, where the code's caller must keep size + alignment - 1 within
  idx_t; the posix_memalign variant and the allocation itself are not modelled.
- Uptime.GetLinuxUptime: a time_t is unbounded; reading the file and the clocks are inputs.
- LeadingZeros.CountLeadingZeros: compiler built-ins are not modelled.
- ArgMatch.Choice: values are compared by equality rather than as bytes of memory.
- ArgUsage.Usage: translation is the identity, output is a string, and the screen width is a parameter.
- PerfectHash.Lookup: returns the slot; the vendor names stored beside the keywords are not modelled.
- Character sets other than ASCII, and the compile-time checks for them.
- Declaration-only headers, configuration headers and constant tables.
