# pepita: a verified model of its hard core

pepita is a small sovereign-compute kernel written in Rust. This project models the
parts of it whose correctness is not visible from one function body, in Dafny 4.11, and
proves what its code and documentation promise about them. `dafny verify dfyconfig.toml`
checks everything.

- **LZ4 codec** (`Lz4Format`, `Lz4Grammar`, `Lz4Codec`, `Lz4Finder`, `Lz4Page`, `Lz4Loop`). The block format of the "Compressed block
  format" section of the LZ4 Block Format Description is given as a printer, a parser and
  a meaning. The reference decoder is the composition of parser and meaning. The in-place
  decoder of src/zram.rs, which interleaves reading and overlapping copying, is proved to
  accept exactly the same streams and write exactly the same bytes. What it decodes is also
  described independently, as a grammar of byte layouts and a description of the output
  position by position. The greedy match
  finder is proved to be inverted by it whatever its hash table holds, and what it finds is
  said without the table, in terms of the positions it visited. On a page the round
  trip of the bare codec holds exactly when the result is shorter: a stream that decodes
  to itself would be the only exception, and the match finder shortens every such stream,
  because no collision in its hash table can hide all repetitions at its beginning.
  Beyond a page this fails: arbitrarily long streams that decode to themselves come back
  unchanged.
- **Compressed block device** (`Zram`). Five stored forms of a page behave like a plain
  array of 4096-byte pages over every run of writes, discards and resets.
- **Work-stealing scheduler**, five times over: as a state machine of atomic operations
  (`SchedulerSpec`, `RoundRobin`), as the imperative object with its scans (`Scheduler`),
  one deque under threads with program counters (`DequeThreads`), the whole scheduler
  under threads with one step per deque operation (`SchedulerThreads`, `SchedulerScans`,
  `SchedulerBatches`, `SchedulerAlone`, `SchedulerRaces`),
  and the product of the two, in which every lock, look, change, counter update and return
  is a step (`SchedulerProduct`). The product is proved to refine the coarser machine, and
  every undisturbed call in either to be its atomic operation.
- **Tiled matrix kernels** (`Matrix`, `MatrixLaws`). The six tiled loops compute, in every
  cell, the plain left fold, for an uninterpreted addition and multiplication. This
  therefore covers f32 with its rounding.
- **Circuit breaker**, alone (`CircuitBreaker`) and under threads (`CircuitThreads`, `CircuitAlone`);
  **failure detector** (`FailureDetector`); **backoff and the retrying pool** (`Pool`).
- **Wire codec** (`Transport`), also byte by byte (`TransportBytes`).

`Prelude`, `Arith` and `Seqs` hold shared types and the few laws of division and of
sequences that the proofs call.

## Modelling decisions

- Bytes are integers below 256; shifts and masks of the source are written as division
  and remainder by powers of two. Wrap-around is written out where the source can reach
  it: hash multiplication and table entries (32 bits), scheduler counters and task ids
  (64 bits), the pool's counters (64 bits), failure streaks (32 bits), frame lengths
  (32 bits), name lengths (16 bits), the backoff power (32 bits, as in the release profile, which has no overflow checks).
- Time is a parameter. Locks are never poisoned; atomics are sequentially consistent.
- Where documentation and code differ the model follows the code. An inactive worker's
  tasks cannot be stolen (src/scheduler.rs:341 and 372, against the comment at 435). A
  match may run to the last input byte, so the end-of-block conditions of the LZ4
  description are not claimed.
- "None if all queues full" (src/scheduler.rs:280). An undisturbed submission obeys this
  law: it is refused exactly if the scheduler is stopped or no active worker has room
  (`SchedulerAlone.UndisturbedRefusal`). With other threads at work it does not, for two
  reasons. The chosen queue may fill between the look and the push
  (`SchedulerRaces.RefusedAtPush`), and a queue may drain after the scan has passed it, with
  nothing pushed at all (`SchedulerRaces.RefusedAfterDraining`). The exact condition is
  `SchedulerScans.RefusedExactly`: the running flag was seen false, or there were no
  workers, or every worker was found inactive or full at some moment of the same scan, or
  the chosen queue, which had room when this call looked, was full at the push. A thief
  likewise comes back with nothing exactly if each other worker was inactive or empty at the
  moment of its own look (`SchedulerScans.EmptyHandedExactly`). Both laws hold for the small
  steps too (`SchedulerProduct.SmallStepsRefuse`, `SchedulerProduct.SmallStepsGiveUp`).
- A batch thief under threads robs the first of the longest queues it saw, each at the
  moment of its own look (`SchedulerBatches.BatchRobsLongest`); by then that queue may be
  shorter or empty.
- The match finder forgets a position from 2^32 on, because its table holds 32 bits; the
  condition is part of `Lz4Finder.FinderExactly`.
- A reset of the circuit breaker does not survive a request that has already seen the
  circuit open and timed out (src/fault.rs:501-582, `CircuitThreads.StaleHalfOpen`, for
  every configuration). The exact condition is `CircuitThreads.StaleHalfOpenIff`.
- Raw fallback. The compressor returns small or incompressible input unchanged and
  unmarked, so its result alone is decodable only if it is shorter than the input.
  `Lz4Codec.CompressedRoundTrip` states the law and `Lz4Page.RoundTripIffShorter` its
  converse for inputs of at most a page, and for longer ones that do not start with a byte
  of 240 or above and a byte of 255. Streams that decode to themselves do exist
  (`Lz4Page.SelfDecodingStream`), and the restriction is needed: each of the inputs of
  1384 + 40 n bytes, for n from 3570 on, in `Lz4Loop.RoundTripUnshortened` is such a stream
  and is returned unchanged. Once the output of such a stream is ahead of its input by the
  length of a header, literals are copied onto themselves and are free; choosing them so
  that each word shares its slot of the hash table with its neighbour hides every repetition
  from the match finder, and the length bytes of one long run of literals cost more than
  the beginning saves. The device closes the gap with its 3584-byte threshold (`Zram.LoadStored`).

## Model

| member | source | states |
|---|---|---|
| `Lz4Format.ParsePrint` | src/zram.rs:516-578 | parsing undoes printing for every block the format can express, with all length extensions |
| `Lz4Format.CutPrinted` | src/zram.rs:516-556 | one printed sequence in front of any bytes is read back as that sequence, leaving those bytes |
| `Lz4Format.CopyMatchPeriodic` | src/zram.rs:648-655 | an overlapping copy repeats the last `offset` bytes periodically |
| `Lz4Format.DecodeStep` | src/zram.rs:589-659 | decoding piece by piece, as the loop does, equals parsing the whole stream and then expanding it |
| `Lz4Format.DecodeAfterGrows` | src/zram.rs:589-659 | whatever is decoded later, the bytes already written stay a prefix of the output |
| `Lz4Format.PrintSize` | src/zram.rs:516-578 | a printed block exceeds the bytes it stands for by at most one in 255 and two |
| `Lz4Format.DecodeSize` | src/zram.rs:581-662 | any accepted byte string decodes to at most 255 times its own length |
| `Lz4Grammar.ParseExactly` | src/zram.rs:589-659 | the parser accepts exactly the streams that the grammar of byte layouts gives a block for, as that block; among them last tokens with any low nibble and a last match length that breaks off |
| `Lz4Grammar.DecodeExactly` | src/zram.rs:581-662 | a stream decodes to y exactly if it spells a block whose literals stand in y in order and whose copies each equal, byte for byte, what stands offset places before, with 1 <= offset <= position |
| `Lz4Grammar.PrintSequenceOpens` | src/zram.rs:516-556 | an emitted sequence is token, extension, literals, two offset bytes least significant first, and extension, with both lengths closed |
| `Lz4Grammar.PrintTailCloses` | src/zram.rs:559-578 | the last literals have a token whose low nibble is zero |
| `Lz4Codec.MatchLength` | src/zram.rs:482-490 | the extended match agrees byte for byte and cannot be extended by one more byte |
| `Lz4Codec.CopyReproduces` | src/zram.rs:482-496 | replaying a byte-checked match after the input before it reproduces the input, overlapping or not |
| `Lz4Codec.GreedyExpands` | src/zram.rs:466-505 | from any position and any hash table, the block found stands for the rest of the input |
| `Lz4Codec.EmittedDecodes` | src/zram.rs:449-505 | the emitted stream decodes to the input, for every input and every starting hash table |
| `Lz4Codec.CompressedRoundTrip` | src/zram.rs:449-513 | the result is never longer than the input; if shorter it decodes to the input, otherwise it is the input |
| `Lz4Codec.NoSelfDecoding` | src/zram.rs:581-662 | a nonempty stream of fewer than 16 bytes, or whose first literal length needs at most one extension byte, never decodes to itself |
| `Lz4Codec.EmittedSize` | src/zram.rs:459-505 | before the fallback check the stream is at most n + n/255 + 2 bytes, whatever the hash table holds |
| `Lz4Finder.FinderExactly` | src/zram.rs:466-505 | from any table the block is spelled out by the positions visited: at each a copy is emitted exactly if the position last visited with the same 32-bit hash of four bytes (or else the one the table began with) is neither the first nor 65535 or more bytes back and has the same four bytes, and then it is the longest copy from there behind the pending literals; the walk ends five bytes before the end |
| `Lz4Finder.RepetitionFound` | src/zram.rs:468-496 | if the finder visited g, gets to p less than 65535 bytes further on with the same four bytes, and no visit between had their hash, it emits a copy from g at p |
| `Lz4Finder.OffsetsInReach` | src/zram.rs:475-496 | every offset of the block is from 1 to 65534, from any table |
| `Lz4Finder.CompressedExactly` | src/zram.rs:449-513 | the result is the printed block of such a walk with an empty table if the input has at least 16 bytes and that is shorter, and else the input |
| `Lz4Codec.EmitSequence` | src/zram.rs:516-556 | appends exactly one printed sequence |
| `Lz4Codec.EmitLiterals` | src/zram.rs:559-578 | appends token, extended length and literals exactly as the format prints them |
| `Lz4Codec.ExtendMatch` | src/zram.rs:484-490 | the loop finds the maximal agreeing length |
| `Lz4Codec.FindMatch` | src/zram.rs:466-500 | one iteration replaces the table slot and emits or advances as the greedy block prescribes |
| `Lz4Codec.EmitBlock` | src/zram.rs:459-505 | the main loop with its mutable table emits the printed greedy block |
| `Lz4Codec.CompressLz4` | src/zram.rs:449-513 | the compressor computes the function whose round trip and size are proved |
| `Lz4Codec.CopyWithin` | src/zram.rs:648-655 | the byte-by-byte in-place copy is the overlapping copy and touches nothing behind it |
| `Lz4Codec.DecodeSequence` | src/zram.rs:589-659 | one iteration fails exactly if the piece is malformed, reaches outside the output or does not fit, and otherwise applies it |
| `Lz4Codec.DecompressLz4` | src/zram.rs:581-662 | for every byte string and buffer: succeeds exactly if the reference decoder accepts and the window can hold the output, then writes exactly that output, independent of old contents, and nothing behind it; on an error nothing behind the window changes |
| `Lz4Page.SelfDecodingStream` | src/zram.rs:581-662 | a stream of 546 bytes decodes to itself |
| `Lz4Page.SelfDecodingBegins` | src/zram.rs:589-655 | every stream that decodes to itself begins with a header of h >= 3 bytes that is repeated through the whole first run of literals; for h <= 6 its token and closing byte are restricted, because a first match that reached its own offset bytes would make them a piece of the header |
| `Lz4Page.ClosingWordAlone` | src/zram.rs:664-671 | for each of these short headers, the four bytes at the closing byte hash to a slot that no other four bytes of the repetition have |
| `Lz4Page.RecallAt` | src/zram.rs:468-480 | from any position in such a beginning, a place fewer than 15 bytes on still finds an equal four bytes in the hash table, whatever the table held before |
| `Lz4Page.MatchByThen` | src/zram.rs:468-496 | the match finder therefore emits a match by then, from any table |
| `Lz4Page.BeginningSaves` | src/zram.rs:466-505 | while the beginning lasts, every 2h + 4 bytes of it save at least one byte of output |
| `Lz4Page.SelfDecodingShrinks` | src/zram.rs:449-513 | the compressor shortens every stream of at most a page that decodes to itself |
| `Lz4Page.RoundTripIffShorter` | src/zram.rs:449-513 | for every input of at most a page, and every longer one whose first literal length would need at most one extension byte, the result decodes to the input exactly when it is shorter or the input is empty |
| `Lz4Loop.CycleHides` | src/zram.rs:664-671 | there are forty different bytes, repeated, of whose words every second shares its hash slot with the next |
| `Lz4Loop.NothingFound` | src/zram.rs:466-505 | through any number of such repetitions the match finder finds no match, whatever its table held before |
| `Lz4Loop.RoundTripUnshortened` | src/zram.rs:449-662 | for every n from 3570 to 100 million an input of 1384 + 40 n bytes that the compressor returns unchanged and the decoder maps to itself |
| `Zram.LoadStored` | src/zram.rs:716-801 | whichever of the stored forms is chosen, with either compressor, loading gives back the page |
| `Zram.StoredSize` | src/zram.rs:788-798 | a page never takes more than 4096 bytes, and a compressed one less than seven eighths of that |
| `Zram.StoredExactly` | src/zram.rs:769-801 | a page is stored as zero exactly if all zeros, as filled exactly if filled with another byte, compressed exactly if LZ4 makes it shorter than 3584 bytes, and else as it is; it takes 0, 1, the compressed length or 4096 bytes |
| `Zram.LoadedExactly` | src/zram.rs:727-753 | whichever way an entry came about: which bytes it loads, padded with zeros, and that it fails exactly if LZ4 cannot decode it into a page |
| `Zram.PagesAfterSet` | src/zram.rs:366-370 | storing a page changes that page of the array and no other |
| `Zram.PagesAfterRemove` | src/zram.rs:373-376 | removing an entry turns that page into zeros and changes no other |
| `Zram.Load` | src/zram.rs:727-753 | an entry is loaded into the first 4096 bytes of the buffer and nothing behind them changes; fails only on an undecodable stream |
| `Zram.ZramDevice.constructor` | src/zram.rs:694-703 | a new device is all zero pages |
| `Zram.ZramDevice.ReadPage` | src/zram.rs:716-757 | succeeds exactly for an in-range page and a large enough buffer, returns the page, leaves bytes past 4096 untouched |
| `Zram.ZramDevice.WritePage` | src/zram.rs:760-801 | succeeds exactly for an in-range page and enough data, replaces that page only; a refused write changes nothing |
| `Zram.ZramDevice.DiscardPage` | src/zram.rs:804-810 | succeeds exactly in range; the page reads as zeros afterwards, the others are unchanged |
| `Zram.ZramDevice.Reset` | src/zram.rs:831-837 | no entry is left and every page reads as zeros |
| `Zram.ZramDevice.Run` | src/zram.rs:760-837 | any run of writes, discards and resets leaves the device as it leaves a plain array of pages |
| `Zram.LastTouchDecides` | src/zram.rs:716-837 | after any run a page holds what the last operation that touched it put there, or its old content if none did |
| `SchedulerSpec.SubmitSucceedsIff` | src/scheduler.rs:281-307 | a submission is accepted exactly if the scheduler runs and some active worker has room |
| `SchedulerSpec.StealSucceedsIff` | src/scheduler.rs:330-349 | a valid thief gets one task exactly if some other active worker has one |
| `SchedulerSpec.SubmitPlaces` | src/scheduler.rs:281-304 | a submission goes to the back of the first active worker with room from the round-robin counter on; counter and id advance, nothing else changes |
| `SchedulerSpec.SubmitRefused` | src/scheduler.rs:281-306 | a refused submission advances the counter, if the scheduler runs and has workers, and changes nothing else |
| `SchedulerSpec.StealTakes` | src/scheduler.rs:330-349 | a thief gets the front task of the first active worker behind it that has one; nothing else changes |
| `SchedulerSpec.StealFails` | src/scheduler.rs:330-385 | without such a worker neither theft changes anything |
| `SchedulerSpec.BatchTakes` | src/scheduler.rs:356-385 | a batch is the front half of the first of the most loaded active other workers; nothing else changes |
| `SchedulerSpec.PopTakes` | src/scheduler.rs:314-321 | a pop takes the last task of the worker named, active or not, running or not |
| `SchedulerSpec.OtherOperations` | src/scheduler.rs:420-451 | adding a worker, deactivating one and stopping each change one thing |
| `SchedulerSpec.BatchIsFrontHalf` | src/scheduler.rs:356-385 | a batch is the front half, in order, of a most loaded active other worker, which keeps the rest |
| `SchedulerSpec.Busiest` | src/scheduler.rs:367-379 | the scan returns the first of the most loaded active workers other than the thief, and none only if all are empty |
| `SchedulerSpec.PopUndoesSubmit` | src/scheduler.rs:281-321 | popping the worker that got a task hands it back and restores every queue |
| `SchedulerSpec.StepConserves` | src/scheduler.rs:281-451 | each operation neither loses nor duplicates a task |
| `SchedulerSpec.TasksConserved` | src/scheduler.rs:281-385 | over every run, accepted tasks equal pending tasks plus tasks handed out, as multisets |
| `SchedulerSpec.IdsConsecutive` | src/scheduler.rs:302-303 | one id per accepted task, issued consecutively modulo 2^64 |
| `SchedulerSpec.IdsDistinct` | src/scheduler.rs:302-303 | ids of one run are pairwise distinct until the 64-bit counter goes round |
| `SchedulerSpec.CapacityKept` | src/scheduler.rs:122-130 | no run overfills a queue |
| `SchedulerSpec.InactiveForever` | src/scheduler.rs:440-451 | a deactivated worker stays so; its queue is ever after a prefix of what it held and shrinks only by pops under its own id |
| `RoundRobin.Balance` | src/scheduler.rs:260-307 | from a fresh scheduler the first n*c submissions are accepted and all later ones refused; worker i holds the tasks numbered i modulo n, (k + n - 1 - i) / n of them, so loads differ by at most one |
| `Scheduler.WorkStealingDeque.Push` | src/scheduler.rs:122-130 | appends exactly if below capacity; counter and size stay equal |
| `Scheduler.WorkStealingDeque.Pop` | src/scheduler.rs:135-140 | removes and returns the last item, or nothing from an empty deque |
| `Scheduler.WorkStealingDeque.StealOne` | src/scheduler.rs:145-150 | removes and returns the first item, or nothing from an empty deque |
| `Scheduler.WorkStealingDeque.StealHalf` | src/scheduler.rs:155-172 | moves the front half, in order, and lowers the counter by as much |
| `Scheduler.Scheduler.constructor` | src/scheduler.rs:260-273 | a new scheduler is the fresh state of the state machine |
| `Scheduler.Scheduler.FindRoom` | src/scheduler.rs:292-298 | the loop finds the first active worker with room in round-robin order from the start |
| `Scheduler.Scheduler.FindBusiest` | src/scheduler.rs:367-379 | the loop finds the first most loaded active worker other than the thief |
| `Scheduler.Scheduler.TryRob` | src/scheduler.rs:339-346 | one victim loses its front task exactly if it is active and not empty; no other worker changes |
| `Scheduler.Scheduler.Submit` | src/scheduler.rs:281-307 | the scan and push do what the submit step prescribes, for state and id |
| `Scheduler.Scheduler.Pop` | src/scheduler.rs:314-321 | does what the pop step prescribes |
| `Scheduler.Scheduler.Steal` | src/scheduler.rs:330-349 | the scan over modular offsets does what the steal step prescribes |
| `Scheduler.Scheduler.StealBatch` | src/scheduler.rs:356-385 | the scan for the busiest worker and the theft do what the batch step prescribes |
| `Scheduler.Scheduler.AddWorker` | src/scheduler.rs:427-433 | appends an empty active worker and returns its index |
| `Scheduler.Scheduler.DeactivateWorker` | src/scheduler.rs:440-451 | clears the flag of an existing worker and reports whether there is one |
| `Scheduler.Scheduler.PendingTasks` | src/scheduler.rs:395-401 | the counters add up to the number of waiting tasks |
| `DequeThreads.Linearizable` | src/scheduler.rs:122-178 | every interleaving of push, pop, steal, steal_half and the lock-free len linearizes to a sequential bounded deque with the same replies |
| `DequeThreads.EffectBetween` | src/scheduler.rs:122-178 | every returned call took effect once, between its call and its return, and its thread logged nothing else in between |
| `DequeThreads.CounterTracksSize` | src/scheduler.rs:122-178 | in every reachable state size and counter are within capacity; they are equal when the mutex is free and otherwise differ by the holder's unfinished work only |
| `DequeThreads.SomeoneCanMove` | src/scheduler.rs:122-172 | some thread inside an operation can always move |
| `DequeThreads.StepShape` | src/scheduler.rs:122-178 | every step keeps the deque linearized; an operation takes effect on the logical queue in exactly one step, as the sequential deque prescribes |
| `SchedulerThreads.ThreadsConserveTasks` | src/scheduler.rs:281-385 | under every interleaving of submits, pops, steals, batch steals, growth, retirement and stop, accepted tasks equal pending plus handed out |
| `SchedulerThreads.ThreadIdsDistinct` | src/scheduler.rs:281-307 | under every interleaving ids are pairwise distinct before the counter goes round, one per accepted task once no thread is between push and id, and no queue is overfilled |
| `SchedulerThreads.OtherMoves` | src/scheduler.rs:420-451 | adding a worker, while no call holds the worker list, deactivating and stopping are their atomic operations |
| `SchedulerScans.RefusedExactly` | src/scheduler.rs:281-307 | under every interleaving a submission is refused exactly if it sees the scheduler stopped, finds no workers, pushes to a full queue, or finds a worker inactive or full after finding every other one so earlier in the same scan |
| `SchedulerScans.ClosedIff` | src/scheduler.rs:292-346 | what a scan carries as closed is exactly what its own looks found inactive or full, or for a thief inactive or empty, each at its own moment of the run |
| `SchedulerScans.EmptyHandedExactly` | src/scheduler.rs:330-349 | under every interleaving a thief returns with nothing exactly if there is no such worker or every other worker was inactive or empty at the moment the same scan looked at it |
| `SchedulerBatches.BatchRobsLongest` | src/scheduler.rs:367-384 | under every interleaving a batch thief about to take has looked once at every other worker in order, and robs the first of those whose queue was longest, and not empty, at its own look |
| `SchedulerBatches.BatchGivesUpExactly` | src/scheduler.rs:362-384 | and it returns with nothing exactly if there is no such worker or no other one, or each was inactive or empty at its look |
| `SchedulerScans.PushSawRoom` | src/scheduler.rs:292-301 | a queue found full at the push had room when the same call looked |
| `SchedulerAlone.SubmitUndisturbed` | src/scheduler.rs:281-307 | from any state, whatever other threads are in the middle of, a submission that no other thread disturbs ends with the state and the reply of the atomic submit step |
| `SchedulerAlone.UndisturbedRefusal` | src/scheduler.rs:277-307 | such a submission is refused exactly if the scheduler is stopped or no active worker has room |
| `SchedulerAlone.CallUndisturbed` | src/scheduler.rs:281-385 | every call - submit, pop, steal, batch steal - that no other thread disturbs ends with the scheduler, the tasks handed out and the reply of its atomic operation |
| `SchedulerRaces.RefusedAtPush` | src/scheduler.rs:292-306 | a reachable state in which a submission was refused while another active worker has never had a task |
| `SchedulerRaces.RefusedAfterDraining` | src/scheduler.rs:292-306 | for any number of workers from two on and any capacity from one on, a reachable state in which a submission was refused although a worker, popped after the scan had passed it, has room |
| `SchedulerScans.TheftEnds` | src/scheduler.rs:330-349 | a theft that is over handed out exactly one task or gave up in this sense |
| `SchedulerProduct.StepRefines` | src/scheduler.rs:122-385 | with the deques taken apart into their steps, every step of the whole scheduler is the same step of the coarser machine or changes nothing there |
| `SchedulerProduct.Refines` | src/scheduler.rs:122-385 | every interleaving of all small steps stands, state by state, for a run of the coarser machine in which each move is the same or none |
| `SchedulerProduct.SmallStepsConserve` | src/scheduler.rs:122-385 | under every interleaving of all small steps accepted tasks equal those in the logical queues plus those handed out, ids are well numbered and no deque is overfilled |
| `SchedulerProduct.SmallStepsRefuse` | src/scheduler.rs:122-307 | the exact refusal law for every interleaving of all small steps: a submission is refused by a step that takes effect and closes a round of looks of the same scan, or finds the flag down, no workers or the chosen queue full |
| `SchedulerProduct.SmallStepsGiveUp` | src/scheduler.rs:145-349 | the exact law for an empty-handed thief for every interleaving of all small steps |
| `SchedulerProduct.SmallStepsRob` | src/scheduler.rs:122-384 | whom a batch thief robs, for every interleaving of all small steps |
| `SchedulerProduct.AloneRefines` | src/scheduler.rs:122-385 | a thread that moves alone while no other holds a mutex is never blocked and does in small steps what it does in the coarser machine |
| `SchedulerProduct.CallInSmallSteps` | src/scheduler.rs:122-385 | so every whole undisturbed call ends, step by step, with the scheduler, the tasks handed out and the reply of its atomic operation |
| `SchedulerProduct.SubmitInSmallSteps` | src/scheduler.rs:122-307 | in particular a submission, with the reply of the atomic submit step |
| `Matrix.MatMul` | src/simd.rs:560-590 | for all sizes and any addition and multiplication, every cell ends as the left fold from zero over k in increasing order |
| `Matrix.RowUpdate` | src/simd.rs:580-584 | the innermost loop advances a stretch of one row by exactly one product and changes no other cell |
| `Matrix.Tile` | src/simd.rs:579-586 | one tile takes each of its cells from depth k0 to kEnd and changes no other cell |
| `Matrix.ProductUnique` | src/simd.rs:560-590 | there is only one such result, so tiling does not change it |
| `Matrix.ProductExactly` | src/simd.rs:560-590 | in the flat arrays, it is the one in which each cell i * n + j is the last of the running sums that begin with zero and add a[i * k + q] * b[q * n + j] for q from 0 to k - 1 |
| `Matrix.Transpose` | src/simd.rs:593-602 | every cell of the destination is the mirrored cell of the source |
| `Matrix.TransposeExactly` | src/simd.rs:593-602 | in the flat arrays, element j * rows + i is element i * cols + j of the source |
| `Matrix.TransposeTwice` | src/simd.rs:593-602 | transposing twice restores the matrix |
| `Matrix.ProductTranspose` | src/simd.rs:560-602 | the transpose of a product is the product of the transposes in reverse, given only commutative multiplication |
| `MatrixLaws.ProductAssociative` | contracts/matmul-v1.yaml:17-21 | over the reals matrix multiplication is associative |
| `MatrixLaws.DotAvx2` | src/simd.rs:444-475 | over the reals the eight-lane dot product with its horizontal sum and remainder equals the scalar one |
| `MatrixLaws.DotIsProduct` | src/simd.rs:309-311 | the scalar dot product is the one cell of a row times a column |
| `CircuitBreaker.CircuitBreaker.constructor` | src/fault.rs:481-491 | a new breaker is closed with cleared counters |
| `CircuitBreaker.CircuitBreaker.AllowsExecution` | src/fault.rs:501-519 | answers and moves as the state machine does; for what it answers see AnswerExactly |
| `CircuitBreaker.CircuitBreaker.RecordSuccess` | src/fault.rs:522-536 | moves as the state machine does on a success |
| `CircuitBreaker.CircuitBreaker.RecordFailure` | src/fault.rs:539-553 | moves as the state machine does on a failure |
| `CircuitBreaker.CircuitBreaker.ResetNow` | src/fault.rs:580-582 | a reset from any state gives a new breaker |
| `CircuitBreaker.CircuitBreaker.Replay` | src/fault.rs:481-582 | any sequence of calls on a new breaker ends in the state the history says, and each request among them is answered as the history before it says |
| `CircuitBreaker.ClosedStreak` | src/fault.rs:522-553 | while closed, the counter is the number of failures since the last success or reset and is below the threshold |
| `CircuitBreaker.OpensExactly` | src/fault.rs:539-561 | a closed circuit opens exactly on the failure that completes the threshold uninterrupted by a success or reset |
| `CircuitBreaker.OpenSince` | src/fault.rs:539-561 | an open circuit has been open since a failure whose time it recorded |
| `CircuitBreaker.RefusesUntilTimeout` | src/fault.rs:501-519 | from opening until the timeout, without a reset, the circuit stays open and refuses everything |
| `CircuitBreaker.AnswerExactly` | src/fault.rs:501-519 | a request is let through exactly if the circuit is closed or half-open, or open since a failure at least the reset timeout ago |
| `CircuitBreaker.LeavesOpen` | src/fault.rs:501-582 | an open circuit half-opens exactly on a request at least the reset timeout after the failure that opened it, and closes only by a reset |
| `CircuitBreaker.HalfOpenSince` | src/fault.rs:522-568 | a half-open circuit was entered by such a request and has since seen no failure or reset and fewer successes than the threshold |
| `CircuitBreaker.ClosesExactly` | src/fault.rs:522-582 | a half-open circuit closes exactly on a reset or on the success that completes the threshold, and opens exactly on a failure |
| `CircuitThreads.OpenHasTime` | src/fault.rs:501-577 | under every interleaving, when no thread holds the state lock for writing an open circuit has an opening time and a closed one has none |
| `CircuitThreads.NoDeadlock` | src/fault.rs:501-577 | under every interleaving, if a thread is inside an operation some such thread can move |
| `CircuitThreads.StaleHalfOpenIff` | src/fault.rs:501-582 | from every reachable state that is closed with no writer, some continuation half-opens the circuit without its being opened first exactly if a request that timed out is still about to half-open it |
| `CircuitThreads.HalfOpenerTimedOut` | src/fault.rs:501-519 | under every interleaving, a thread about to half-open has, in the same call, seen the circuit open and then read an opening time at least the reset timeout old |
| `CircuitThreads.StaleHalfOpen` | src/fault.rs:501-582 | for every configuration, a reachable state after a finished reset from which a request in flight can still half-open the circuit |
| `CircuitAlone.OperationUndisturbed` | src/fault.rs:501-582 | an operation that begins while no lock is held and that no other thread disturbs does and answers what the state machine of one thread does, and leaves no lock behind |
| `FailureDetector.JudgeVerdict` | src/fault.rs:266-279 | an update makes a worker unavailable exactly if it was, missed the timeout or reached the failure threshold; three timeouts or the threshold mean failed |
| `FailureDetector.JudgeExactly` | src/fault.rs:266-279 | the verdict is failed on a full streak or after three timeouts, suspected after one, and else stands; nothing else changes |
| `FailureDetector.CondemnedUntilPardon` | src/fault.rs:248-279 | an unavailable worker stays so until a heartbeat, registration or deregistration |
| `FailureDetector.VerdictJustified` | src/fault.rs:338-412 | every unavailable verdict goes back to an update since the last such event that saw a missed timeout or the failure threshold |
| `FailureDetector.SilenceDetected` | src/fault.rs:266-279 | after the last heartbeat every update past the timeout finds the worker unavailable, and past three timeouts failed |
| `FailureDetector.RecordIsHistory` | src/fault.rs:234-264 | every record holds what the history says: known since the last deregistration, the last heartbeat, and the failure streak modulo 2^32 |
| `FailureDetector.CondemnedIff` | src/fault.rs:248-412 | after every run a worker is unavailable exactly if some update since its last registration, deregistration or heartbeat saw, by the history alone, a missed timeout or a full failure streak |
| `FailureDetector.LastFaultDecides` | src/fault.rs:234-412 | after every run such a worker is failed or suspected as the last of those updates saw it, by the history alone |
| `FailureDetector.UnfaultedStatus` | src/fault.rs:234-412 | a known worker without one is healthy if it has beaten since it registered, and else unknown |
| `FailureDetector.TotalsAreHistory` | src/fault.rs:255-264 | the completed and failed totals are the results of each kind since registration, modulo 2^64 |
| `FailureDetector.FailureDetector.Replay` | src/fault.rs:338-412 | any sequence of calls on a new detector ends in the records the history says |
| `FailureDetector.FailureDetector.UpdateAllStatuses` | src/fault.rs:407-412 | every record is judged once, in whatever order they are visited |
| `FailureDetector.FailureDetector.IsAvailable` | src/fault.rs:372-418 | a worker is available unless its record says suspected or failed; an unknown one is |
| `Pool.DelayIdealIff` | src/fault.rs:92-105 | for every policy the delay is initial * factor^(a-1) capped at the maximum exactly if cutting power and initial delay to their widths keeps the product and the product is within a maximum that was cut, or the maximum was not cut and even the cut product reaches it |
| `Pool.DelaysGrow` | src/fault.rs:92-105 | while it fits and the factor is at least one, delays never decrease and never exceed the maximum |
| `Pool.DoublingDelayIff` | src/fault.rs:92-105 | with factor two the delay is the intended one exactly for the first 32 attempts, and zero afterwards |
| `Pool.FirstDelays` | src/fault.rs:92-105 | no delay before the first attempt, and the initial delay capped at the maximum before the first retry |
| `Pool.EndsOnce` | src/pool.rs:251-309 | there is exactly one attempt at which a submission ends |
| `Pool.Pool.Submit` | src/pool.rs:251-309 | for every executor: each answer before the last was unsuccessful or an error that may be retried; the last is a success, an error that may not, or number maxRetries + 1; the reply is a success exactly if the last answer is, unsuccessful exactly if it is, and the error exactly if it is one; the sleeps are the delays 1, 2, ..., and each 64-bit counter moves accordingly |
| `Pool.Pool.SubmitAsync` | src/pool.rs:312-320 | counts the call and returns the scheduler's id, or queue full; refused without effect when stopped |
| `Pool.CountersBalance` | src/pool.rs:251-331 | under every interleaving submissions are completed, failed, asynchronous or in flight, modulo 2^64 and exactly while fewer than 2^64 calls were made, each counter shows the number of calls or retries it counts, and retries are at most maxRetries per submission |
| `Pool.CallsDeserve` | src/pool.rs:251-309 | under every interleaving a call runs on while its answers may be retried and attempts are left, is finished by a success and rejected by the first other answer |
| `Transport.NumberRoundTrip` | src/transport.rs:508-516 | a number that fits its width is read back from its big-endian bytes |
| `Transport.MessageRoundTripIff` | src/transport.rs:508-543 | a frame in front of any bytes decodes to its message exactly if the payload is shorter than 2^32 - 1 bytes |
| `Transport.StreamRoundTripIff` | src/transport.rs:508-543 | a concatenation of frames is recovered by advancing by each size, exactly if all payloads are that short |
| `Transport.ResultRoundTripIff` | src/transport.rs:213-312 | a task result in front of any bytes decodes to itself exactly if its error is absent, or nonempty and shorter than 2^32 bytes |
| `Transport.RegisterRoundTripIff` | src/transport.rs:335-387 | a registration in front of any bytes decodes to itself exactly if its name has at most 65535 bytes |
| `TransportBytes.CodesArePlaces` | src/transport.rs:66-96 | message types, task states and backends are the numbers 0 to 9, 0 to 6 and 0 to 3 in their order, and no other byte is read |
| `TransportBytes.MessageLayout` | src/transport.rs:508-519 | four bytes of length, most significant first, one of type, the payload |
| `TransportBytes.MessageDecodes` | src/transport.rs:521-538 | what becomes of any bytes: refused, a panic exactly if the length is zero, or the payload the length announces |
| `TransportBytes.ResultLayout` | src/transport.rs:213-255 | the place and byte order of every field, the exit code in two's complement |
| `TransportBytes.ResultDecodes` | src/transport.rs:258-312 | what becomes of any bytes: refused, a panic exactly if the error length is cut off, or the fields at those places |
| `TransportBytes.RegisterLayout` | src/transport.rs:335-358 | the place and byte order of every field |
| `TransportBytes.RegisterDecodes` | src/transport.rs:361-387 | what becomes of any bytes |

## Left out

- Lz4Page.RoundTripIffShorter: between a page and the 144184 bytes of the shortest input of Lz4Loop.RoundTripUnshortened, which of the inputs that start with a byte of 240 or above and a byte of 255 meet the law is not settled; the device compresses pages only.
- Statistics of the block device (src/zram.rs:202-280): counters that only accumulate; memory limit and stream count are stored and never enforced.
- Index overflow in the decoder for inputs near 2^55 bytes: lengths are unbounded integers.
- CircuitAlone.OperationUndisturbed: at counters one short of 2^64, where a count would wrap, nothing is claimed; in single-threaded use thresholds keep them smaller.
- Pool.Submit: sleeping and the task's own retry count are recorded only as the list of delays.
- Pool.DelayIdealIff: a build with overflow checks, where the power panics instead of wrapping, is not modelled.
- Weak memory orderings, lock poisoning, fairness and starvation.
- f32 rounding: MatrixLaws.ProductAssociative and MatrixLaws.DotAvx2 are stated over the reals, where the contract of the repository asks for a tolerance.
- Heartbeat payloads, message constructors and accessors of src/transport.rs: fixed-size fields that only add easy members.
- UTF-8 validation: an arbitrary predicate on byte sequences.
- Executors, processes, pipes and sockets (src/executor.rs): the executor is an oracle.
- src/io_uring.rs, src/ublk.rs, src/blk_mq.rs, src/memory.rs, src/error.rs, src/gpu.rs, src/vmm.rs, src/virtio.rs, src/task.rs: constants, accessors, mocks and flat copies.
