# A verified model of the ESE reader's hard core

This project models five independent parts of a reader for ESE (`.edb`) databases and of the
Microsoft ESE OS layer that ships with it, and proves what they are for.

**Page checksum and repair.** A page carries a 64-bit checksum: the xor of its words (with the
page number) in the low half, an error-correcting code in the high half. The code is, in its low
half, the xor of the positions of all set bits and, in its high half, the xor of the complemented
positions. `PageEcc.PageChecksum` says that directly, bit by bit. The program computes it in
several unlike ways: block-wise with index words that are stepped by wrap-around constants and
with parity looked up in tables, row and column by row and column, in 128-bit and in 256-bit
registers. Each is a method with the source's loops and constants, proved to return
`PageChecksum`. On top stands the repair theorem: what the correctability tests accept, exactly,
and that the reported bit is the corrupted one. (`Bits`, `PageEcc`, `Parity`, `ChecksumPass`,
`ChecksumScalar`, `ChecksumVector`, `EccRepair`)

**The disk queue.** Two binary heaps grow towards each other in one array and an elevator
alternates between them (`IoHeaps`, `Elevator`); runs of requests are merged under gap and size
limits (`IoRun`); slots are reserved, handed on and given back (`SlotLedger`, with what becomes of
the requests in `SlotRuns`); metered runs are collected in one ordered tree and drained from
another (`MeteredQueue`); a gate separates concurrent from exclusive use (`IoGate`). The heaps, the
queue, the runs and the metered queue are classes whose methods update them in place; the ledger and
the gate are protocols, given as steps over which every run is considered.

**The timer task protocol.** Callers schedule, callbacks run and one caller cancels a task; all
share a lock, a semaphore and two generation counters (`TimerTask`, with what the calls bring about
in `TimerRuns`).

**The row cursor.** A walk over linked leaf pages that skips defunct tags and detects cycles
(`Cursor`, with its runs on sound tables in `CursorRuns` and on damaged ones in `CursorGraph`).

**Codecs and counting.** 7-bit text (`SevenBit`), Julian day numbers (`Julian`), CRC-32C
(`Crc32c`, section 12.1 of RFC 3720) and the count of writes that are not flushed (the steps in
`FlushLedger`, the theorems over their runs in `FlushRuns` and `FlushProgress`).

## What turned out not to hold as one would wish

* The comparison of two queue positions subtracts unsigned 64-bit numbers and reads the result as
  signed. It orders two positions if and only if the deciding difference fits
  (`IoHeaps.CmpOrdersIff`); `IoHeaps.CmpWraps` gives a pair for which it does not.
* Adding one request to a run takes a shortcut that looks only at the bounds of the run. It decides
  as the general merge does if and only if the request is not an overriding one put before a run
  with a span, up to the last request but one, of at least the largest double word
  (`IoRun.ShortcutAgreesIff`); `IoRun.ShortcutDiffers` gives such a request.
* A run's size can outgrow the largest double word, after which asking for it stops the program. An
  accepted addition keeps the size below that if and only if it is not one that is free of the size
  limit and whose bounds reach that far together with the run's (`IoRun.LimitKeptIff`);
  `IoRun.OverrideOutgrows` gives such a request. The metered queue never stops as long as no such run
  is put into it (`MeteredQueue.IOQueueToo.FInsertIo`).
* The full correctability test accepts more than single-bit errors. `EccRepair.AcceptedIff` gives
  the exact set. Flipping the reported bit restores the code if and only if the checksum covers that
  bit, and the whole checksum if and only if, besides, the corrupted columns xor to its column
  (`EccRepair.RepairRestores`). `EccRepair.ThreeFlipsMisrepaired` gives three bits of any header page
  whose corruption is accepted and whose repair flips a bit that is not covered.
* Moving to the first row reports an empty table whenever the first leaf has no data tag, whatever
  the later leaves hold (`CursorRuns.FirstFinds`, `CursorRuns.FirstFindsMisses`).
* Moving to the last row puts every page it passes on record, and stepping back then meets them. A
  table is read backward without an error if and only if the move to the last row is made on one of
  its last two leaves; made anywhere else, the rows of the last leaf are read and then a cycle is
  reported (`CursorRuns.PreviousAfterLast`, `CursorRuns.BackScanCleanIff`).
  `CursorRuns.BackwardScanFails` and `CursorRuns.BackwardScanFailsLater` give sound tables that fail
  at the first and at the second step.
* Running off the end of a table moves the cursor to the last page but keeps the tag of the last
  row. A step back from there indexes the last page's tags with it, which is in bounds if and only
  if that page has enough tags (`CursorRuns.StepBackFromEndFails`). It then returns to the last row
  if and only if that row is on another page; otherwise it skips it (`CursorRuns.StepBackFromEndIff`).
* The count of unflushed writes is raised by a plain increment, a load and a store, while flushes
  change it atomically, and a file declared to need no flush has it reset. Over every run the count is
  right throughout if and only if what happens between each load and its store adds up to nothing and
  no write is open at a reset (`FlushRuns.CountRightIff`). `FlushRuns.StoreLosesReturned` and
  `FlushRuns.ResetForgets` are runs in which a write goes uncounted.
* The number of writes not flushed is the sum of two numbers read one after the other.
  `FlushRuns.SplitReportIff` gives its error as a sum over the steps between the two reads, and so
  says exactly when it is high enough; `FlushRuns.ReportRight` names the steps without which it is. In
  the runs `FlushRuns.ReportMissesReturned` and `FlushRuns.ReportMissesTaken`, one for either order of
  reading, it misses a write.

## Model

| member | source | states |
|---|---|---|
| PageEcc.EccRowColumn | lib/cpp/ms/checksum_amd64.cxx:832-876 | on every page the bit-by-bit code equals the xor of odd row numbers and of odd column numbers, with the complement in the high half on odd parity |
| Parity.ParityMaskCorrect | lib/cpp/ms/checksum_amd64.cxx:222-253 | the table-driven mask of a word is all ones exactly when the word has an odd number of set bits; every table entry is covered |
| Parity.ParityMaskPopcntCorrect | lib/cpp/ms/checksum_amd64.cxx:646-650 | so is the mask taken from the population count |
| Parity.ParityMask128Correct | lib/cpp/ms/checksum_amd64.cxx:619-644 | both 128-bit parity masks are the parity over all four lanes |
| Parity.ParityMaskAVXCorrect | lib/cpp/ms/checksum_avx.cxx:54-70 | the 256-bit parity mask is the parity over all eight lanes |
| ChecksumPass.IndexWord | lib/cpp/ms/checksum_amd64.cxx:405-452 | starting at the constant and adding the step with wrap-around k times gives block number k in one half and its complement in the other |
| ChecksumPass.PassStep | lib/cpp/ms/checksum_amd64.cxx:411-452 | one block of the pass keeps the accumulators, the packed odd block numbers and the index word in step with the words read |
| ChecksumPass.CodeFromBlocks | lib/cpp/ms/checksum_amd64.cxx:383-485 | the code of a page follows from the block numbers of odd blocks and the code of the xored blocks |
| ChecksumScalar.ColumnCode | lib/cpp/ms/checksum_amd64.cxx:466-478 | the loop over the 32 columns yields the xor of odd column numbers and of their complements |
| ChecksumScalar.ChecksumNewFormatSlowly | lib/cpp/ms/checksum_amd64.cxx:383-485 | for every page, page number and header flag the result is PageChecksum |
| ChecksumScalar.ColumnPairs | lib/cpp/ms/checksum_amd64.cxx:859-868 | the paired column loop of the 64-bit form yields the column part of the code |
| ChecksumScalar.ChecksumNewFormat64Bit | lib/cpp/ms/checksum_amd64.cxx:832-876 | for every page, page number and header flag the result is PageChecksum |
| ChecksumVector.EccTableCorrect | lib/cpp/ms/checksum_avx.cxx:72-95 | every entry of the byte code table is the code of its index |
| ChecksumVector.WordCode | lib/cpp/ms/checksum_amd64.cxx:765-780 | the loop over the words of the folded registers yields the packed numbers of odd words |
| ChecksumVector.ByteCode | lib/cpp/ms/checksum_amd64.cxx:782-801 | the loop over the bytes of the folded word yields the packed numbers of odd bytes |
| ChecksumVector.ChecksumNewFormatSSE2 | lib/cpp/ms/checksum_amd64.cxx:660-810 | in both parity modes, for every page, page number and header flag the result is PageChecksum |
| ChecksumVector.RegisterCode | lib/cpp/ms/checksum_avx.cxx:162-177 | the four registers left by the AVX pass yield the packed numbers of odd registers |
| ChecksumVector.ChecksumNewFormatAVX | lib/cpp/ms/checksum_avx.cxx:97-214 | for every page, page number and header flag the result is PageChecksum |
| EccRepair.CbitSet | lib/cpp/ms/checksum.cxx:232-243 | the loop counts the set bits |
| EccRepair.DifferenceCode | lib/cpp/ms/checksum_amd64.cxx:211-219 | the two checksums of two pages differ by the code and the xor of the pages' difference, and by the page numbers |
| EccRepair.CorrectableIffOddDifference | lib/cpp/ms/checksum.cxx:279-288 | for any two pages the test on the code accepts if and only if they differ in an odd number of covered bits |
| EccRepair.AcceptedIff | lib/cpp/ms/checksum.cxx:246-263 | the full test accepts if and only if the difference is odd and its columns, with the page numbers, xor to a single bit |
| EccRepair.WrongPageNumber | lib/cpp/ms/checksum.cxx:246-288 | an intact page under a wrong page number is never called correctable |
| EccRepair.ReportedPosition | lib/cpp/ms/checksum.cxx:268-308 | the position reported for an accepted difference is the xor of the corrupted positions and lies in the page |
| EccRepair.SingleBitRepair | lib/cpp/ms/checksum.cxx:246-308 | if one covered bit flips, the full test accepts, the position reported is exactly that bit, and flipping it back restores page and checksum |
| EccRepair.RepairRestores | lib/cpp/ms/checksum.cxx:290-308 | for any two pages with an odd difference, flipping the reported bit restores the code if and only if that bit is covered, and the whole checksum if and only if, besides, the corrupted columns xor to that bit's column |
| EccRepair.UncoveredFlip | lib/cpp/ms/checksum.cxx:290-308 | flipping a bit of the first eight bytes of a header page leaves the checksum as it is |
| EccRepair.ThreeFlipsMisrepaired | lib/cpp/ms/checksum.cxx:246-308 | on every header page the corruption of bits 64, 128 and 192 is accepted, position 0 is reported, and flipping it restores nothing |
| IoHeaps.CmpOrdersIff | lib/cpp/ms/osdisk.cxx:30-40 | the comparison orders two positions correctly if and only if the deciding difference fits a signed 64-bit number |
| IoHeaps.CmpWraps | lib/cpp/ms/osdisk.cxx:30-40 | a pair of offsets the comparison puts in the wrong order |
| IoHeaps.TopIsLeast | lib/cpp/ms/osdisk.cxx:2770-2775 | the first element of a heap is a smallest one |
| IoHeaps.SiftUp | lib/cpp/ms/osdisk.cxx:2787-2794 | one turn of the upward loop keeps the requests and leaves only the new slot to repair |
| IoHeaps.SiftDown | lib/cpp/ms/osdisk.cxx:2856-2881 | one turn of the downward loop keeps the requests, the order above, and leaves only the new slot to repair |
| IoHeaps.IOHeapA.HeapAAdd | lib/cpp/ms/osdisk.cxx:2778-2799 | the heap gains exactly the request, stays ordered, every request knows its slot, and the rest of the array is untouched |
| IoHeaps.IOHeapA.HeapAIUpdate | lib/cpp/ms/osdisk.cxx:2833-2887 | a heap with one misplaced request is ordered again with the same requests |
| IoHeaps.IOHeapA.HeapARemove | lib/cpp/ms/osdisk.cxx:2802-2830 | the heap loses exactly the given member, wherever it is, and stays ordered with correct slots |
| IoHeaps.IOHeapA.PioreqHeapATop | lib/cpp/ms/osdisk.cxx:2770-2775 | the top is a member with the smallest key |
| IoHeaps.IOHeapB.IpioreqHeapBIParent | lib/cpp/ms/osdisk.cxx:3033-3036 | counted from the back of the array, the parent slot is the usual one |
| IoHeaps.IOHeapB.HeapBAdd | lib/cpp/ms/osdisk.cxx:2968-2990 | as for heap A, mirrored from the back of the array |
| IoHeaps.IOHeapB.HeapBIUpdate | lib/cpp/ms/osdisk.cxx:3051-3103 | as for heap A, mirrored |
| IoHeaps.IOHeapB.HeapBRemove | lib/cpp/ms/osdisk.cxx:2993-3021 | as for heap A, mirrored |
| IoHeaps.IOHeapB.PioreqHeapBTop | lib/cpp/ms/osdisk.cxx:2960-2965 | the top is a member with the smallest key |
| Elevator.IOQueue.constructor | lib/cpp/ms/osdisk.cxx:3434-3473 | the queue starts with both heaps empty, at position zero, sweeping heap A |
| Elevator.IOQueue.PioreqIOHeapTop | lib/cpp/ms/osdisk.cxx:3509-3559 | null exactly when both heaps are empty, otherwise a least request of the heap the elevator serves |
| Elevator.IOQueue.FHeapAFrom | lib/cpp/ms/osdisk.cxx:2916-2919 | the test by slot number picks the heap the request is in |
| Elevator.IOQueue.IOHeapAdd | lib/cpp/ms/osdisk.cxx:3562-3591 | adding is a step of the elevator: the request joins the heap that its position and the sweep call for, and nothing else changes; the heaps stay disjoint and sound |
| Elevator.IOQueue.IOHeapRemove | lib/cpp/ms/osdisk.cxx:3594-3626 | any queued request is taken out of the heap it is in, the sweep and the position follow it; taking the top is a step of the elevator |
| Elevator.StartElevating | lib/cpp/ms/osdisk.cxx:3459-3462 | the queue as initialised satisfies the elevator's invariant |
| Elevator.RunElevating | lib/cpp/ms/osdisk.cxx:3509-3626 | in every run that removes only the top, all active keys are at or ahead of the position and all waiting keys at or behind it |
| Elevator.TakeForward | lib/cpp/ms/osdisk.cxx:3594-3626 | a removal turns the elevator around if and only if the active heap is empty; otherwise the position does not go back |
| Elevator.SweepForward | lib/cpp/ms/osdisk.cxx:3509-3626 | within a sweep the position never goes back, whatever is added meanwhile |
| Elevator.TakeLowers | lib/cpp/ms/osdisk.cxx:3509-3559 | every removal within a sweep lowers a measure of what is left of it |
| Elevator.AddKeeps | lib/cpp/ms/osdisk.cxx:3562-3591 | an addition does not raise the measure, since one at the current position joins the other heap |
| Elevator.Served | lib/cpp/ms/osdisk.cxx:3509-3626 | no request starves: in any run, with any additions, a queued request is passed over fewer times than two whole sweeps are long |
| IoRun.MergePass | lib/cpp/ms/osdisk.cxx:4020-4113 | the pass over two runs links all requests in offset order exactly when that order is admissible |
| IoRun.FOSDiskIMergeRuns | lib/cpp/ms/osdisk.cxx:3983-4140 | test pass and real pass decide alike; the test pass and a rejection change nothing; acceptance yields the offset-ordered union |
| IoRun.MergeKeepsRequests | lib/cpp/ms/osdisk.cxx:4050-4113 | the merged run holds exactly the requests of both runs |
| IoRun.MergeIsRun | lib/cpp/ms/osdisk.cxx:3785-3806 | an accepted merge is ordered, without overlap, with gaps of at most cbMaxReadGapSize for reads and none for writes and, unless overridden, of at most cbMaxReadSize or cbMaxWriteSize bytes |
| IoRun.RefusedOnlyIfImpossible | lib/cpp/ms/osdisk.cxx:4050-4113 | if any arrangement of the two runs' requests is admissible, the merge is accepted and yields that arrangement |
| IoRun.MergeableIff | lib/cpp/ms/osdisk.cxx:4050-4113 | on the configured limits of each direction: the merge accepts if and only if the ordered union is without overlap, within the gap limit and within the size limit or, if overridden, measurable before its last request |
| IoRun.MergeKeepsReservations | lib/cpp/ms/osdisk.cxx:4024-4045 | the number of slot reservations is kept, and the head of the merged run has one if the base run's head had |
| IoRun.AppendAgrees | lib/cpp/ms/osdisk.cxx:3857-3861 | behind the run the shortcut decides as the merge does, and the merge appends |
| IoRun.PrependAgrees | lib/cpp/ms/osdisk.cxx:3862-3868 | before the run the merge is the shortcut's test plus one bound on the span |
| IoRun.ShortcutAgreesIff | lib/cpp/ms/osdisk.cxx:3827-3888 | the shortcut decides as the merge does if and only if the request is not of the family named there |
| IoRun.ShortcutDiffers | lib/cpp/ms/osdisk.cxx:3862-3868 | a request of that family, accepted by the shortcut and refused by the merge |
| IoRun.FOSDiskICanAddToRun | lib/cpp/ms/osdisk.cxx:3827-3888 | the question is answered by the shortcut, or by a test merge inside the run, and changes nothing |
| IoRun.FAddToRun | lib/cpp/ms/osdisk.cxx:4142-4248 | an empty run takes what is offered; otherwise the result is the ordered union with the head's reservation handed on, or no change; a run stays a run, and its size becomes that of both together |
| IoRun.AcceptsIff | lib/cpp/ms/osdisk.cxx:4142-4248 | a run takes what is offered if and only if file and direction agree, the ordered union is without overlap and within the gap limit, and the size is within the limit of its direction; with what is left of the bounds when overridden |
| IoRun.FittingIsAccepted | lib/cpp/ms/osdisk.cxx:4142-4248 | two runs of one file and direction that share no byte, leave no gap too wide and together stay within the limit of their direction are accepted |
| IoRun.LimitKeptIff | lib/cpp/ms/osdisk.cxx:4250-4264 | an accepted addition keeps the size below what may be asked for if and only if it is not one free of the limit whose bounds reach that far together with the run's |
| IoRun.OverrideOutgrows | lib/cpp/ms/osdisk.cxx:4250-4264 | an overriding write that is accepted and makes the run too large |
| IoRun.AcceptsIsCanAdd | lib/cpp/ms/osdisk.cxx:5771-5779 | for one request, the answer given beforehand is the answer when it is added |
| SlotLedger.SplitKeepsReservations | lib/cpp/ms/osdisk.cxx:6697-6708 | splitting the head off a chain keeps the number of reservations, and a reserved chain stays reserved |
| SlotLedger.BackKeepsReservations | lib/cpp/ms/osdisk.cxx:6747-6768 | putting a piece back before the rest of its chain keeps the number of reservations and leaves the head with one |
| SlotLedger.SplitRoundTrip | lib/cpp/ms/osdisk.cxx:6697-6768 | a piece that is put back at once leaves the chain exactly as it was before the split |
| SlotLedger.AimStands | lib/cpp/ms/osdisk.cxx:5755-5779 | a request found combinable finds a run of its file in the pool, and any such run takes it |
| SlotLedger.NewRunHolds | lib/cpp/ms/osdisk.cxx:5792-5833 | a request that starts a pooled run holds a reservation, as the source asserts |
| SlotLedger.RefusedHolds | lib/cpp/ms/osdisk.cxx:5771-5789 | so does a request that the pooled run of its file refuses |
| SlotLedger.StepInv | lib/cpp/ms/osdisk.cxx:4810-4834 | reserving, pooling, merging, splitting, putting a piece back, queueing, re-queueing, freeing and completing all keep the ledger balanced, the heads reserved, one run per file in a pool, and one piece per chain being split |
| SlotLedger.LedgerBalances | lib/cpp/ms/osdisk.cxx:5285-5289 | in every run free slots plus held reservations equal the number of slots; the head of every pooled, heap, metered or combining run holds one, and so does that of every run of several requests and of what is left of a chain; every other request of these runs holds one or could be combined, as the source asserts |
| SlotLedger.ReturnedPiece | lib/cpp/ms/osdisk.cxx:6747-6768 | in every run a piece that cannot be issued is put back with its chain's reservation: the rest of the chain has it, then the piece heads the chain and has it, and the ledger is unchanged |
| SlotLedger.HeapNeverOverflows | lib/cpp/ms/osdisk.cxx:3577-3577 | whenever a run is put into the heaps they have room, so the capacity check cannot fail |
| SlotRuns.RequestsAccounted | lib/cpp/ms/osdisk.cxx:5755-6120 | in every run each request is in the ledger exactly as often as it was allocated and not yet freed or completed, whatever was pooled, merged, split, put back or re-queued meanwhile |
| SlotRuns.AllSlotsComeBack | lib/cpp/ms/osdisk.cxx:5285-5289 | from every state of every run, without another allocation, all requests can be freed or completed and then every slot is free |
| SlotRuns.RequeueKeeps | lib/cpp/ms/osdisk.cxx:6628-6662 | a run whose issue failed for a moment is queued again with all its requests |
| SlotRuns.VipComesOut | lib/cpp/ms/osdisk.cxx:6628-6662 | from there it can always go to the preferred list and comes out for issue as it was |
| SlotRuns.HeapComesOut | lib/cpp/ms/osdisk.cxx:6628-6662 | and, if its head holds a reservation, to the heaps |
| SlotRuns.MeteredComesOut | lib/cpp/ms/osdisk.cxx:6628-6662 | and to the metered queue |
| SlotRuns.AllocationReserves | lib/cpp/ms/osdisk.cxx:4810-4834 | a request allocated for a run of its own holds a reservation exactly if a slot was free, and always if it is not backed by the reserve pool |
| SlotRuns.WaitsForSlotIff | lib/cpp/ms/osdisk.cxx:4810-4834 | exactly the requests without that backing wait, and only while no slot is free |
| SlotRuns.CombinableJoins | lib/cpp/ms/osdisk.cxx:5771-5779 | a request found combinable can be added to the run it was compared with and joins it without a slot of its own |
| SlotRuns.PoolingTurnsOut | lib/cpp/ms/osdisk.cxx:5755-5838 | a pooled run of the file takes the request, or goes on to the queue with all its requests and leaves its place to it |
| SlotRuns.QueuedRunsMerge | lib/cpp/ms/osdisk.cxx:5180-5215 | a run taken from the heap takes along one there that can be merged with it, and a metered run one that is inserted |
| SlotRuns.SplitTurnsOut | lib/cpp/ms/osdisk.cxx:6697-6768 | a chain is split into its first request and the rest; issued, both go their ways; put back, the chain is exactly what it was |
| MeteredQueue.ErrFindNearest | lib/cpp/ms/collection.hxx:4882-4920 | the entry found has no key between it and the one looked for |
| MeteredQueue.IOQueueToo.FInsertIo | lib/cpp/ms/osdisk.cxx:3126-3197 | a run joins its neighbour if that accepts it and is filed alone if not; a taken key is turned away; keys stay those of the run heads, the counters count runs and requests, exactly the new requests are gained, and all sizes stay ones that may be asked for exactly when the size of the run it became part of does, which a run within the limits ensures |
| MeteredQueue.IOQueueToo.Cycle | lib/cpp/ms/osdisk.cxx:3228-3233 | runs move from building to draining, namesakes stay behind, counters, requests and the bound on sizes are kept |
| MeteredQueue.IOQueueToo.ExtractIo | lib/cpp/ms/osdisk.cxx:3236-3324 | the run of the lowest file and, within it, the lowest offset is returned, cycling first if asked and needed; the counters go down by one run and its requests; the bound on sizes is kept |
| MeteredQueue.MovedRequests | lib/cpp/ms/collection.hxx:5039-5077 | merging trees neither loses nor duplicates a request |
| MeteredQueue.DrainedInOrder | lib/cpp/ms/osdisk.cxx:3236-3324 | successive extractions return runs by file and, within a file, by offset, each once |
| IoGate.ExclusiveMeansAlone | lib/cpp/ms/osdisk.cxx:6130-6238 | in every interleaving there is at most one exclusive thread, and while it owns the disk nothing is in flight |
| IoGate.OwnerIsUndisturbed | lib/cpp/ms/osdisk.cxx:6197-6238 | while the disk is owned the only step anyone can take is giving it up |
| IoGate.CountsWhatIsInFlight | lib/cpp/ms/osdisk.cxx:6130-6195 | the two counters count exactly the operations begun and not ended |
| IoGate.GateOpenIff | lib/cpp/ms/osdisk.cxx:6130-6169 | an operation can begin if and only if no thread has or wants the disk for itself |
| IoGate.GateReopens | lib/cpp/ms/osdisk.cxx:6230-6238 | when the owner gives the disk up, every operation and every other owner can begin |
| IoGate.WaiterCanOwn | lib/cpp/ms/osdisk.cxx:6197-6228 | every waiting thread can come to own the disk by nothing but the ending of the operations in flight and its own looking |
| TimerTask.StepInv | lib/cpp/ms/ostimerqueue.cxx:174-277 | every step of every thread keeps the protocol's invariant: one semaphore holder, the generation counters, the states, the account of contexts and the callback count |
| TimerTask.Protocol | lib/cpp/ms/ostimerqueue.cxx:174-277 | the task body never overlaps itself; idRun is at most idSchedule; when equal no context is pending and the task is not in the scheduled state; when less it is scheduled or running, with a timer set or a callback on its way |
| TimerTask.AssertionsHold | lib/cpp/ms/ostimerqueue.cxx:191-265 | the assertions of the callback and of the canceller hold whenever they are reached |
| TimerTask.CancelledIsQuiet | lib/cpp/ms/ostimerqueue.cxx:455-512 | after a cancel has returned nothing runs or is going to run until the next schedule |
| TimerTask.FateIsFinalInRuns | lib/cpp/ms/ostimerqueue.cxx:362-512 | what became of a context is settled once and never changes |
| TimerTask.EveryContextConsumed | lib/cpp/ms/ostimerqueue.cxx:362-512 | every accepted context has gone to one run, one later schedule or one cancel, unless it is the latest and a timer or callback will fetch it |
| TimerTask.RunTakesItsContext | lib/cpp/ms/ostimerqueue.cxx:211-230 | a callback runs the context of the schedule call it took |
| TimerRuns.ScheduledContexts | lib/cpp/ms/ostimerqueue.cxx:362-451 | in every run the contexts accepted are exactly those of the schedule calls made while no cancel was under way, numbered in order, and each lets the timer fire at most once |
| TimerRuns.ScheduleLeadsToRun | lib/cpp/ms/ostimerqueue.cxx:174-230 | from every state in which no cancel is under way a schedule call can be followed, without another call, by a run of the task with its context and under its number |
| TimerRuns.CancelReturnsContext | lib/cpp/ms/ostimerqueue.cxx:455-487 | a task not cancelled yet can be cancelled, and the cancel hands the pending context back |
| TimerRuns.CancelCompletes | lib/cpp/ms/ostimerqueue.cxx:487-512 | from every state in which a cancel is under way it can be completed by steps of the callbacks and the canceller alone, and what became of every context stays as it was |
| TimerRuns.WaitsReturnQuiet | lib/cpp/ms/ostimerqueue.cxx:487-497 | both waits of the canceller return only when no callback is left and the count is zero |
| Cursor.Table.SetCurrentPage | lib/src/ese_parser.rs:99-117 | a page is entered unless it was entered before; the record stays free of duplicates |
| Cursor.Table.ScanForward | lib/src/ese_parser.rs:255-277 | the forward loop ends on every page graph, cyclic ones included, where WalkForward says |
| Cursor.Table.ScanBackward | lib/src/ese_parser.rs:296-317 | the backward loop ends on every page graph where WalkBackward says |
| Cursor.Table.MoveNextRow | lib/src/ese_parser.rs:231-278 | position and result of a forward move are those of NextRow, errors included |
| Cursor.Table.MovePreviousRow | lib/src/ese_parser.rs:280-318 | position and result of a backward move, and of a move to the last row from any page and any tag but 0, are those of PreviousRow |
| CursorRuns.RowsFromExact | lib/src/ese_parser.rs:255-268 | the rows of a chain are exactly its tags that are not defunct |
| CursorRuns.WalkOnChain | lib/src/ese_parser.rs:255-277 | on a chain the walk finds the first live row ahead or the end, and enters exactly the pages in between |
| CursorRuns.FirstFinds | lib/src/ese_parser.rs:236-254 | a move to the first row finds it if the first leaf has a data tag, and otherwise reports an empty table |
| CursorRuns.FirstFindsMisses | lib/src/ese_parser.rs:246-254 | a table with a row in its second leaf that is reported empty |
| CursorRuns.ScanReadsTable | lib/src/ese_parser.rs:231-278 | first and then next, repeated, visits the live rows in chain order, each once, and then reports the end every time |
| CursorRuns.NextThenPrevious | lib/src/ese_parser.rs:231-318 | on a doubly linked chain a successful move forward and a move back return to the same row |
| CursorRuns.NoFalseAlarm | lib/src/ese_parser.rs:73-117 | on such a chain no run of first, next and previous moves, and of last moves made on one of the last two leaves, reports a circular reference or any other error |
| CursorRuns.StepBackFromEndIff | lib/src/ese_parser.rs:285-301 | after running off the end, a step back stays in bounds if and only if the last page has as many tags as the remembered one; it then returns to the last row if and only if that is not on the last page, and otherwise reads the row before it, or the start |
| CursorRuns.StepBackFromEndFails | lib/src/ese_parser.rs:285-301 | a table of two pages on which it does not |
| CursorRuns.LastFinds | lib/src/ese_parser.rs:285-318 | on a doubly linked chain a move to the last row finds it, except that a last leaf without data tags is taken for an empty table and one with defunct tags only for a cycle, unless the move started there or one leaf before |
| CursorRuns.PreviousAfterLast | lib/src/ese_parser.rs:280-318 | position and result of every move of a backward scan of any length, begun on any leaf of a doubly linked chain: all rows in reverse and then the start, if begun on one of the last two leaves; the rows of the last leaf and then a circular reference, if not; one move later if the last leaf has no data tag |
| CursorRuns.BackScanCleanIff | lib/src/ese_parser.rs:280-318 | a backward scan that goes on past the first row is free of errors if and only if the leaf it was begun on has no next leaf or one without a next |
| CursorRuns.BackwardScanFails | lib/src/ese_parser.rs:280-318 | three sound leaves on which the step after the last row fails |
| CursorRuns.BackwardScanFailsLater | lib/src/ese_parser.rs:280-318 | three sound leaves on which that step succeeds and the next one fails |
| CursorGraph.ForwardEnds | lib/src/ese_parser.rs:255-277 | on every page graph the forward walk ends on the first live tag, or on a page without one whose next is none, missing, or already entered, having entered only pages without a live tag, each the next of the one before, none twice |
| CursorGraph.ForwardEndIsUnique | lib/src/ese_parser.rs:255-277 | no other end satisfies that |
| CursorGraph.BackwardEnds | lib/src/ese_parser.rs:296-317 | the same for the backward walk |
| CursorGraph.BackwardEndIsUnique | lib/src/ese_parser.rs:296-317 | no other end satisfies that |
| CursorGraph.NextReports | lib/src/ese_parser.rs:255-277 | a forward move that finds no row reports the end exactly if no page is next, a missing page exactly if the next is not there, and a cycle exactly if the next was entered since the record was cleared |
| CursorGraph.PreviousReports | lib/src/ese_parser.rs:296-317 | the same for a backward move |
| CursorGraph.LastReports | lib/src/ese_parser.rs:287-290 | the walk to the last leaf gets there exactly if the leaf it stands on has no next, and otherwise reports a missing page or a cycle |
| CursorGraph.ScanReadsGraph | lib/src/ese_parser.rs:231-278 | on every page graph whose first leaf has a data tag, first and then next, repeated, visits the live rows of the pages reached in order, each once, and then reports the end, the missing page or the page that closes the cycle, every time |
| CursorGraph.WholePath | lib/src/ese_parser.rs:231-278 | every page graph has such a path of pages reached |
| CursorGraph.CycleIsReported | lib/src/ese_parser.rs:73-117 | a chain whose last leaf links back to one of its leaves is read once and then reported as a cycle at that leaf, every time |
| CursorGraph.TwoLeafCycle | lib/src/ese_parser.rs:73-117 | two leaves that link to each other: the third move reports the cycle |
| SevenBit.GroupReadIsLowest | lib/cpp/decompress.cpp:282-290 | the group read from one byte or two is the lowest seven bits of what is left of the stream |
| SevenBit.ReadsInBounds | lib/cpp/decompress.cpp:279-290 | every read lies within the data |
| SevenBit.ErrDecompress7BitAscii | lib/cpp/decompress.cpp:244-303 | a buffer of any size receives exactly the prefix of the text that fits, the rest of it is untouched, and the full size is reported |
| SevenBit.ErrDecompress7BitUnicode | lib/cpp/decompress.cpp:305-374 | the same for text interleaved with zero bytes, odd buffer sizes included |
| SevenBit.RoundTrip | lib/cpp/decompress.cpp:244-303 | decoding the packed form of any nonempty text, with its header byte, returns the text |
| Julian.JulianFromDate | lib/src/vartime.rs:29-35 | the Julian day number is the variant date plus a constant |
| Julian.DMYFromJulian | lib/src/vartime.rs:38-49 | for every day from DATE_MIN to DATE_MAX no 32-bit intermediate overflows and the result is the valid Gregorian date whose day count is that day |
| Julian.DateOf | lib/src/vartime.rs:167-169 | every variant date in range becomes the valid date that many days after 30 December 1899 |
| Julian.YearStartClosed | lib/src/vartime.rs:21-23 | counting years one by one agrees with the closed form, leap years as the code tests them |
| Julian.ConsecutiveDays | lib/src/vartime.rs:38-49 | dates with consecutive day counts are consecutive days of the calendar |
| Julian.DateIsUnique | lib/src/vartime.rs:38-49 | a day count has one valid date |
| Crc32c.TableIsShift8 | lib/cpp/ms/encrypt.cxx:9-43 | every one of the 256 table entries is its index with eight bits shifted out |
| Crc32c.CalcEntry | lib/cpp/ms/encrypt.cxx:46-57 | the entry generator feeds the eight bits of its index to the register |
| Crc32c.TableFromPolynomial | lib/cpp/ms/encrypt.cxx:46-65 | every table entry is what the generator gives for the polynomial 0x82F63B78 |
| Crc32c.ByteByTable | lib/cpp/ms/encrypt.cxx:145-148 | one table step equals feeding the byte bit by bit |
| Crc32c.TableCrc | lib/cpp/ms/encrypt.cxx:144-150 | for every buffer the table-driven loop computes the bit-serial CRC-32C |
| Crc32c.ProcessorComputeCRC32 | lib/cpp/ms/encrypt.cxx:77-108 | so does the form that takes eight bytes at a time and then the tail |
| Crc32c.Crc32Checksum | lib/cpp/ms/encrypt.cxx:128-161 | whichever way is taken the result is the same |
| FlushLedger.StepInv | lib/cpp/ms/osfile.cxx:648-714 | every step of every thread keeps the number being flushed the sum of the flushes' deltas, the lock held by at most one flush, and each completed write in one place |
| FlushRuns.LedgerSums | lib/cpp/ms/osfile.cxx:648-770 | in every interleaving, resets of the count among its steps, the number being flushed is the sum of what the flushes in progress have taken over |
| FlushRuns.CountRightIff | lib/cpp/ms/osfile.cxx:1791-1794 | the unflushed number counts the writes no flush has taken, throughout a run, if and only if the steps between each completion's load and its store change it by nothing in all and it is reset only while no such write exists |
| FlushRuns.StoreLosesReturned | lib/cpp/ms/osfile.cxx:1791-1794 | a run from an opened file in which a failing flush falls between load and store and a write goes uncounted |
| FlushRuns.ResetForgets | lib/cpp/ms/osfile.cxx:767-770 | a run from an opened file in which a reset leaves a write uncounted |
| FlushRuns.SnapshotCounts | lib/cpp/ms/osfile.cxx:648-714 | looked at in one moment, the two numbers add up to the writes not durable plus those a flush has in both numbers just then |
| FlushRuns.SplitReportIff | lib/cpp/ms/osfile.cxx:762-765 | a report, its two reads apart by any steps, is the number of writes durable at neither read, plus those in both numbers at the first, less a sum over the steps in between; so it is high enough if and only if those steps take no more than was in both numbers |
| FlushRuns.ReportRight | lib/cpp/ms/osfile.cxx:762-765 | it is, unless a failed flush gives writes back between the reads (unflushed number read first) or a flush takes writes over (read second) |
| FlushRuns.ReportMissesReturned | lib/cpp/ms/osfile.cxx:762-765 | a run from an opened file with a failing flush in which the report is zero though a write is not flushed |
| FlushRuns.ReportMissesTaken | lib/cpp/ms/osfile.cxx:762-765 | the same for the other order of reading, with an ordinary flush |
| FlushRuns.RunKeepsWrites | lib/cpp/ms/osfile.cxx:695-714 | no completed write is lost, by a failed flush or otherwise, and a durable one stays durable |
| FlushRuns.FlushCoversEarlierWrites | lib/cpp/ms/osfile.cxx:650-714 | a flush subtracts, or gives back, the count it read, and carries exactly the writes counted when it read it |
| FlushRuns.FlushMakesDurable | lib/cpp/ms/osfile.cxx:695-703 | a successful flush makes durable exactly the writes counted when it read the count |
| FlushRuns.FailureGivesBack | lib/cpp/ms/osfile.cxx:704-714 | a failed one makes them open again |
| FlushRuns.FailureIsFinal | lib/cpp/ms/osfile.cxx:704-714 | from the step in which the first flush fails on, its error stays recorded and no flush gets past its check |
| FlushRuns.CheckPassesIff | lib/cpp/ms/osfile.cxx:631-634 | a flush gets past its check if and only if no flush has failed before |
| FlushProgress.AllCanBecomeDurable | lib/cpp/ms/osfile.cxx:631-714 | from every state of every run in which no flush has failed, flush steps alone can make every completed write durable |

## Left out

- ChecksumNewFormatSSE: no member of its own; it is the plain form with prefetching, which does not affect the result, so `ChecksumScalar.ChecksumNewFormatSlowly` stands for both.
- ChecksumNewFormatBasic, the inline-assembly and run-time-emitted variants and the choice among variants by processor: not modelled; the first agrees with the others on header pages only.
- Old-format checksums: not modelled; they would add easy members.
- Page memory: a page is a sequence of 32-bit words; byte order and alignment of loads are not modelled.
- IoHeaps: requests whose file index or offset is 2^63 or more are outside the heap theorems, because the comparison does not order them; `IoHeaps.CmpOrdersIff` says exactly which comparisons are right. The 32-bit width of slot numbers is not modelled.
- Elevator: the theorems over runs consider removals of the top only, which is how the queue is drained; removal of other members is covered by `Elevator.IOQueue.IOHeapRemove`.
- IoRun: a run's requests are values in a sequence; the links between requests and the sharing of request objects are not modelled.
- IoRun.FAddToRun: asks for a run whose size may be asked for where the code asks for it, since the program stops otherwise; `MeteredQueue.IOQueueToo.FInsertIo` models the stop.
- SlotLedger: a thread is taken to work on one request found combinable at a time, and not to give up a pooled run meanwhile; background and urgent quotas and requests without data are not modelled.
- MeteredQueue: the red-black trees are ordered maps; starvation timing is not modelled.
- IoGate: direct increments of the dispatch count are taken to happen only while an operation is dispatched; the splitting of a run whose first piece completes early is outside that.
- TimerTask: the delays, statistics and the deletion of a task are not modelled; the thread pool is taken to run a callback for each firing of a set timer and to honour its waits.
- Cursor: multi-row moves, which repeat single ones, are not modelled; a backward move is made from a tag other than 0, and a step back only where the tag before the current one exists on the page, since the code subtracts and indexes unchecked.
- Progress: the theorems that something can be completed give a continuation from every reachable state; that the scheduler takes it is not modelled.
- SevenBit: sizes are unbounded integers; the encoder is not part of the repository and is given here only as the inverse.
- Julian: the time of day, the floating-point part of the conversion and the rolling over of dates are not modelled.
- Crc32c: the processor's instruction is taken by its definition, the bits of its operand fed lowest first.
- FlushLedger: files without a write-back cache, for which a flush only resets the count, are not modelled.
- FlushRuns.SnapshotCounts: asks, as the report theorems do, for a run in which the count stays right; `FlushRuns.CountRightIff` says exactly which those are.
- Xpress and AES codecs, string normalisation, registry, tracing, event log, page loading and the Python bindings: not modelled; they are foreign code or thin wrappers.
