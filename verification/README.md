# AetherOS: verified models

Dafny models of the parts of the AetherOS kernel that carry state, interleavings
or arithmetic, with proofs about every run, every input or every reachable state.

| part | files |
|---|---|
| physical frames: boot map scan, one-caller allocator, lock-free protocol | `FrameRanges`, `FrameAllocator`, `FrameProtocol`, `FrameAnswers`, `FrameProgress`, `FrameExactness`, `FrameMoves`, `FrameWorstCase`, `FrameCompleteness` |
| bump heap: mask alignment, lock-free protocol, one-caller allocator | `Bits`, `HeapProtocol`, `HeapSafety`, `HeapAnswers`, `HeapExactness`, `BumpHeap` |
| overlay file system: UTF-8, paths, slots as a finite map, byte buffers in place | `Utf8`, `Paths`, `Overlay`, `OverlayLaws`, `Initramfs`, `Vfs` |
| framebuffer: painter's algorithm, boot picture | `Painter`, `BootVisual` |
| round-robin scheduler | `TaskTable`, `Scheduler` |
| keyboard, line editor, commands, end to end | `Keyboard`, `Commands`, `ShellSession`, `Shell` |

`Words` holds the machine word types. `dafny verify dfyconfig.toml` checks everything.

## Reading guide

**Atomics.** Each atomic load, store or compare-exchange, together with the local
computation after it, is one sequentially consistent step. A thread's step is a
function of the state, so an interleaving is a list of thread numbers (frames) or
of actions (heap), and every theorem quantifies over all of them, over any number
of threads. Fields that only record history are named as such in the datatypes.

**Arithmetic.** Integers are mathematical with the 64- and 32-bit bounds written
out. Unchecked additions wrap, as in a release build; a development build stops
on the same inputs. Where that makes a promised property false, the exact
condition is proved as an if-and-only-if:

- a usable region contributes exactly its frames unless it is at least a frame
  long and reaches past 2^64 (`RegionRangeExact`);
- no interleaving returns a frame twice if and only if no two recorded ranges
  overlap or touch (`UniqueExactlyWhenSeparated`). Touching ranges are
  legal in a boot map, and the window between lines 140 and 143 of
  `frame_allocator.rs` then lets a frame out twice; a run is constructed
  for every such list of ranges;
- several callers together get all frames before the allocator answers None, in
  every interleaving, if and only if the ranges are covered
  (`CompleteExactlyWhenCovered`, for all well-formed ranges). A store delayed past its
  range can take current_frame out of a later range, which is then given up. What
  is secured all the same is the first range and every range that starts no higher
  than all starts between it and the first; covered means that no range starts
  below the first one or above what is secured when it is entered, and none ends
  above what is secured in the end. For every other list a run is constructed
  after which no continuation issues some frame. Two ranges are covered exactly
  when the second starts inside the first or at its end, and ranges that do not
  overlap exactly when there is at most one, or two that touch in order. A lone
  caller always gets everything (`AllocateMany`);
- every call returns, whatever the other threads do, for all well-formed ranges
  (`EveryCallReturns`). The atomics change at most frames, plus frames reached
  without a break past the end of each range, plus twice ranges, less one; a run
  that attains this is constructed for every list (`LeastBound`). So the changes
  stay within frames plus twice ranges if and only if at most one frame in all is
  reached past the ends of ranges (`SharpBoundExactly`), which is so whenever no
  two ranges overlap or touch;
- in every run with alignments up to 2^k, heap blocks returned non-null are
  aligned, disjoint and inside the heap, a null return leaves `next` alone,
  `heap_used` accounts for every block and never falls, and retries have a limit,
  each if and only if rounding up to 2^k cannot wrap anywhere in the heap
  (`SoundExactlyWithoutWrap` and the four lemmas after it). A wrapped request returns
  address 0, the null pointer, after it has moved `next` below the heap;
- a rectangle fill shows its rectangle if both far edges fit in 32 bits and nothing
  otherwise (`Drawn`); the boot picture never wraps (`PanelInFull`).

**Texts** are sequences of Unicode scalar values; bytes are their UTF-8 encoding
(sections 3 and 4 of RFC 3629). White space is the Unicode White_Space property.

**Locks.** A section under a lock is one step.

## Model

| member | source | states |
|---|---|---|
| FrameRanges.AlignUp | kernel/src/memory/frame_allocator.rs:59-65 | least frame boundary at or above the value, except that the topmost partial frame wraps to 0 |
| FrameRanges.AlignDown | kernel/src/memory/frame_allocator.rs:67-69 | greatest frame boundary at or below the value |
| FrameRanges.RegionRange | kernel/src/memory/frame_allocator.rs:23-32 | what a region contributes is always a non-empty range aligned at both ends |
| FrameRanges.RegionRangeExact | kernel/src/memory/frame_allocator.rs:23-32 | a usable region contributes exactly the aligned frames wholly inside it if and only if it is shorter than a frame or its end fits in 64 bits |
| FrameRanges.Initialize | kernel/src/memory/frame_allocator.rs:13-45 | for every map and entry count, records the first 32 qualifying ranges in order, leaves the other entries empty, and the frame total is that of all qualifying ranges and fits in 64 bits |
| FrameRanges.ScanRegion | kernel/src/memory/frame_allocator.rs:18-40 | one region of the scan: its tests in their order keep table, count and total those of the regions seen so far |
| FrameRanges.RegionWithin64Bits | kernel/src/memory/frame_allocator.rs:23-32 | a usable region that ends within 64 bits contributes exactly the frames wholly inside it |
| FrameRanges.TotalFramesBound | kernel/src/memory/frame_allocator.rs:39 | each range holds between one and 2^52 frames, so the running total cannot overflow |
| FrameRanges.OriginContributes | kernel/src/memory/frame_allocator.rs:18-40 | each recorded range is what its own region contributes |
| FrameRanges.OriginsAscend | kernel/src/memory/frame_allocator.rs:18-40 | ranges are recorded in map order, at most one per region |
| FrameRanges.OriginFound | kernel/src/memory/frame_allocator.rs:18-40 | no qualifying region is missed |
| FrameRanges.ScanFindsExactlyTheFrames | kernel/src/memory/frame_allocator.rs:18-40 | the scanned frames are exactly the aligned frames wholly inside some usable region |
| FrameRanges.EntriesDecide | kernel/src/memory/frame_allocator.rs:18-22 | a frame is counted if and only if it lies wholly inside a usable region among the first `entries` and the first 64 |
| FrameRanges.FramesAreWhole | kernel/src/memory/frame_allocator.rs:23-35 | every frame of a list of ranges is at a multiple of 4096 and lies wholly in one range |
| FrameRanges.GapsGiveSeparatedRanges | kernel/src/memory/frame_allocator.rs:27-35 | usable regions with gaps between them give ranges that neither overlap nor touch |
| FrameRanges.SeparatedExactlyWithGaps | kernel/src/memory/frame_allocator.rs:27-35 | for page-aligned maps, the recorded ranges are separated if and only if the regions behind them (the first 32 usable ones) keep gaps; with at most 32 usable regions, if and only if all of them do |
| FrameRanges.PublishedCount | kernel/src/memory/frame_allocator.rs:34-43 | the published count is never below the frames obtainable and equals them exactly when at most 32 regions qualify |
| FrameAllocator.Allocator.constructor | kernel/src/memory/frame_allocator.rs:79-88 | starts with all frames of all recorded ranges still to hand out |
| FrameAllocator.Allocator.AdvanceRange | kernel/src/memory/frame_allocator.rs:129-148 | leaving an exhausted range loses no frame; false exactly for the last range |
| FrameAllocator.Allocator.AllocateFrame | kernel/src/memory/frame_allocator.rs:90-127 | hands out the first remaining frame and keeps the rest, or answers None for ever; the frame-end branch is dead and the addition fits in 64 bits |
| FrameAllocator.Allocator.AllocateMany | kernel/src/memory/frame_allocator.rs:90-127 | repeated calls give the recorded frames one by one in order, then None |
| FrameProtocol.Next | kernel/src/memory/frame_allocator.rs:90-148 | one atomic step of one thread; loaded range indices always stay in bounds |
| FrameProtocol.ClaimKeepsInv | kernel/src/memory/frame_allocator.rs:117-123 | for separated ranges a successful claim extends the issued prefix of exactly one range |
| FrameProtocol.StoreKeepsInv | kernel/src/memory/frame_allocator.rs:143-144 | storing a range's start makes it live, with nothing issued from it before |
| FrameProtocol.WinKeepsCore | kernel/src/memory/frame_allocator.rs:138-141 | each range exchange is won once and creates the only pending store for that range |
| FrameProtocol.OtherStepKeepsCore | kernel/src/memory/frame_allocator.rs:91-136 | loads, failed exchanges and the final store leave current_frame alone; current_range only grows |
| FrameProtocol.StoreKeepsCore | kernel/src/memory/frame_allocator.rs:143-144 | each start is stored at most once, and current_frame stays a frame boundary |
| FrameProtocol.RunCore | kernel/src/memory/frame_allocator.rs:90-148 | along every interleaving of any well-formed ranges current_frame is a frame boundary no higher than the highest range end, and each pending store has one owner |
| FrameProtocol.RunInv | kernel/src/memory/frame_allocator.rs:90-148 | the invariant holds along every interleaving of separated ranges |
| FrameProtocol.WholeFrameLeft | kernel/src/memory/frame_allocator.rs:101-115 | in every run over any well-formed ranges, for whatever range a thread loaded, the second out-of-range test never fires and its addition fits in 64 bits |
| FrameProtocol.Safety | kernel/src/memory/frame_allocator.rs:90-148 | in every interleaving no frame is returned twice, each is a frame of a recorded range, and each range is issued front to back |
| FrameAnswers.StepAnswers | kernel/src/memory/frame_allocator.rs:90-148 | a step ends no call and issues nothing, or ends one call of its own thread, which got one whole frame or leaves the allocator exhausted |
| FrameAnswers.NoneOnlyWhenExhausted | kernel/src/memory/frame_allocator.rs:90-148 | in every run, until the allocator is exhausted as many calls have returned as frames were issued, so none has answered None |
| FrameProgress.ChangesBound | kernel/src/memory/frame_allocator.rs:117-147 | for any well-formed ranges changes never exceed the frames, the frames reached past range ends and twice the ranges, less one |
| FrameProgress.NextPaid | kernel/src/memory/frame_allocator.rs:117-147 | every change, and every claim still possible from current_frame, is paid for by a stored start or an advance |
| FrameProgress.ReachThrough | kernel/src/memory/frame_allocator.rs:101-123 | from inside a range all its frames can be claimed and then what follows its end without a break |
| FrameProgress.ChangesBounded | kernel/src/memory/frame_allocator.rs:90-148 | in every run the changes are within that bound, which is frames plus twice ranges less one for separated ranges |
| FrameProgress.NextCharged | kernel/src/memory/frame_allocator.rs:91-126 | an iteration that does not return changed an atomic or saw one change since its load |
| FrameProgress.RetriesBounded | kernel/src/memory/frame_allocator.rs:91-126 | for any well-formed ranges a thread retries over all its calls at most as often as the atomics change, which is bounded |
| FrameProgress.EveryCallReturns | kernel/src/memory/frame_allocator.rs:91-126 | for any well-formed ranges, from any reachable point a thread scheduled more than four times the bound plus four returns from a call, whatever the others do |
| FrameExactness.SoloTo | kernel/src/memory/frame_allocator.rs:90-148 | a thread left alone issues all frames up to the end of any later range, in order |
| FrameExactness.SoloFromStart | kernel/src/memory/frame_allocator.rs:79-148 | from the initial state one thread issues exactly the concatenation of the ranges |
| FrameExactness.OverlapRepeats | kernel/src/memory/frame_allocator.rs:90-148 | overlapping ranges make even a lone caller get a frame twice |
| FrameExactness.TouchForwardRepeats | kernel/src/memory/frame_allocator.rs:138-145 | if a later range starts where an earlier one ends, a store delayed past another thread's claim returns its start twice |
| FrameExactness.TouchBackwardRepeats | kernel/src/memory/frame_allocator.rs:92-123 | if an earlier range starts where a later one ends, a thread holding the old index returns its start twice |
| FrameExactness.UniqueExactlyWhenSeparated | kernel/src/memory/frame_allocator.rs:90-148 | every interleaving returns each frame at most once if and only if no two ranges overlap or touch |
| FrameExactness.UniqueExactlyWithGaps | kernel/src/memory/frame_allocator.rs:13-148 | for a page-aligned boot map, frames are unique in every interleaving exactly when no two of the regions behind the recorded ranges overlap or touch |
| FrameMoves.MoveClaim | kernel/src/memory/frame_allocator.rs:99-123 | a thread that loaded a range long ago claims the current frame if it lies in that range |
| FrameMoves.MoveAdvance | kernel/src/memory/frame_allocator.rs:101-141 | a thread wins the next range and is held up before its store |
| FrameMoves.MoveStore | kernel/src/memory/frame_allocator.rs:143-144 | the delayed store takes current_frame to its range start at any later time |
| FrameMoves.MoveGiveUp | kernel/src/memory/frame_allocator.rs:101-136 | a thread that finds current_frame outside the last range exhausts the allocator |
| FrameWorstCase.ClimbOut | kernel/src/memory/frame_allocator.rs:99-123 | threads with old range indices claim upward as far as any range they loaded reaches |
| FrameWorstCase.PileUp | kernel/src/memory/frame_allocator.rs:101-141 | all range exchanges can be won before any start is stored |
| FrameWorstCase.StoreAll | kernel/src/memory/frame_allocator.rs:143-144 | the delayed stores can be made one by one, each followed by every claim it makes possible |
| FrameWorstCase.MaxChangesAttained | kernel/src/memory/frame_allocator.rs:90-148 | for every list of ranges a run changes the atomics exactly as often as the bound allows |
| FrameWorstCase.LeastBound | kernel/src/memory/frame_allocator.rs:90-148 | a number bounds the changes of every interleaving if and only if it is at least that bound |
| FrameWorstCase.SharpBoundExactly | kernel/src/memory/frame_allocator.rs:90-148 | changes stay within frames plus twice ranges in every interleaving if and only if at most one frame in all is reached past the ends of ranges |
| FrameWorstCase.NoOverrunExactly | kernel/src/memory/frame_allocator.rs:101-123 | for ranges that do not overlap, no frame is reached past an end if and only if no two ranges touch |
| FrameCompleteness.ExhaustedForGood | kernel/src/memory/frame_allocator.rs:92-148 | once exhausted with no claim in flight, pending stores and advances included, nothing is ever issued again |
| FrameCompleteness.LeavesSecured | kernel/src/memory/frame_allocator.rs:101-106 | a thread that leaves a range does so only after everything secured by that range was issued |
| FrameCompleteness.CoveredIsComplete | kernel/src/memory/frame_allocator.rs:90-148 | with covered ranges exhaustion means every frame was issued, in every interleaving |
| FrameCompleteness.PassAbove | kernel/src/memory/frame_allocator.rs:90-148 | from above a frame all remaining ranges can be passed without issuing it |
| FrameCompleteness.SlipOut | kernel/src/memory/frame_allocator.rs:101-145 | from below a boundary the current range can be left without issuing anything at or above it, by a delayed store if need be |
| FrameCompleteness.ReachBelow | kernel/src/memory/frame_allocator.rs:90-148 | any range can be entered from below a boundary that no anchored range before it contains |
| FrameCompleteness.StartBelowIsLost | kernel/src/memory/frame_allocator.rs:90-148 | a range that starts below the first one can be lost |
| FrameCompleteness.StartAboveIsLost | kernel/src/memory/frame_allocator.rs:90-148 | a range that starts above what is secured when it is entered makes a frame be lost |
| FrameCompleteness.EndAboveIsLost | kernel/src/memory/frame_allocator.rs:90-148 | a range that ends above what is secured in the end makes a frame be lost |
| FrameCompleteness.CompleteExactlyWhenCovered | kernel/src/memory/frame_allocator.rs:90-148 | for all well-formed ranges no interleaving loses frames if and only if the ranges are covered; otherwise some interleaving loses frames for good |
| FrameCompleteness.CoveredPair | kernel/src/memory/frame_allocator.rs:90-148 | two ranges are covered if and only if the second starts inside the first or at its end |
| FrameCompleteness.CoveredWithoutOverlap | kernel/src/memory/frame_allocator.rs:90-148 | ranges that do not overlap are covered if and only if there is at most one, or two of which the second starts where the first ends |
| Bits.AndHighMask | kernel/src/memory/heap.rs:65 | clearing the k lowest bits rounds down to a multiple of 2^k |
| Bits.MaskAlignExact | kernel/src/memory/heap.rs:65 | the mask expression is the least multiple of the alignment at or above `next` if and only if its sum fits in 64 bits, and 0 otherwise |
| HeapProtocol.Next | kernel/src/memory/heap.rs:46-83 | one atomic action of the initializer, an allocator or a usage reader; words stay within 64 bits; a result at address 0 is a null return |
| HeapProtocol.DecideInv | kernel/src/memory/heap.rs:57-73 | from consistent loads alloc computes null or the least aligned block inside the heap |
| HeapProtocol.CasInv | kernel/src/memory/heap.rs:75-81 | a successful exchange appends a block exactly where the previous ones stop |
| HeapProtocol.NextMemory | kernel/src/memory/heap.rs:46-83 | no action lets the bytes in use shrink |
| HeapProtocol.RunInv | kernel/src/memory/heap.rs:20-83 | the invariant holds along every interleaving of initialization, allocations and reads |
| HeapSafety.TiledIsSound | kernel/src/memory/heap.rs:65-81 | blocks that tile the heap are aligned, inside it and pairwise disjoint |
| HeapSafety.Safety | kernel/src/memory/heap.rs:20-83 | in every run in which nothing wraps blocks are aligned as their own calls asked, inside the heap and disjoint, and heap_used equals the sum of sizes and padding and is at most the heap size |
| HeapSafety.NeverHalfPublished | kernel/src/memory/heap.rs:46-63 | whatever alignments are asked for, an allocator about to exchange has seen all three initializing stores |
| HeapSafety.RetriesBounded | kernel/src/memory/heap.rs:57-82 | while no alignment wraps, a failed exchange means `next` strictly grew; a thread retries at most once per byte in use |
| HeapSafety.UsedIsMonotone | kernel/src/memory/heap.rs:20-29 | while no alignment wraps, heap_used stays within the heap and never falls below an answer finished before it began |
| HeapSafety.NullExactlyWhenNoRoom | kernel/src/memory/heap.rs:61-73 | alloc decides on null exactly when the least aligned address leaves no room |
| HeapSafety.OnlyBlocksMoveNext | kernel/src/memory/heap.rs:61-82 | while no alignment wraps, after publication `next` moves only up and only when a non-null block is handed out |
| HeapAnswers.RequestsAreKept | kernel/src/memory/heap.rs:54-82 | a call begins with its own layout, and no other action touches it |
| HeapAnswers.BlockHasItsRequest | kernel/src/memory/heap.rs:54-82 | whatever other threads do and however often the call retries, the block a call hands out has the size and alignment that call asked for |
| HeapAnswers.LostExchangeRetries | kernel/src/memory/heap.rs:57-82 | a lost exchange starts over with the same request and does not return |
| HeapAnswers.NullMeansNoRoom | kernel/src/memory/heap.rs:61-73 | while nothing wraps a call returns null only if the heap was unpublished or has no room for its request |
| HeapAnswers.ReadingIsExact | kernel/src/memory/heap.rs:20-29 | while nothing wraps a reading is the bytes in use at its last step, or 0 if it began before publication |
| HeapExactness.NullMovesNextExactly | kernel/src/memory/heap.rs:57-81 | a call returns null after moving `next` exactly when rounding up wraps and the size passes the bounds test; `next` becomes the size |
| HeapExactness.WrappedRequest | kernel/src/memory/heap.rs:65-80 | from a full heap one byte at an alignment that wraps returns null and leaves 1 in `next` |
| HeapExactness.AddressOne | kernel/src/memory/heap.rs:65-81 | the next plain byte is then handed out at the non-null address 1 |
| HeapExactness.WrapIsUnsound | kernel/src/memory/heap.rs:65-81 | that address lies outside the heap |
| HeapExactness.WrapMovesNext | kernel/src/memory/heap.rs:65-81 | that null return moved `next` |
| HeapExactness.WrapLosesCount | kernel/src/memory/heap.rs:20-29 | heap_used then answers 0 for a full heap |
| HeapExactness.WrapBreaksReadings | kernel/src/memory/heap.rs:20-29 | a reading then falls below one finished before it began |
| HeapExactness.WrapRetriesForEver | kernel/src/memory/heap.rs:57-82 | `next` can be driven round so that one thread exceeds any number of retries |
| HeapExactness.SoundExactlyWithoutWrap | kernel/src/memory/heap.rs:54-83 | non-null blocks of all runs with alignments up to 2^k are sound if and only if heap end plus 2^k fits in 64 bits |
| HeapExactness.AccountedExactlyWithoutWrap | kernel/src/memory/heap.rs:20-83 | heap_used accounts for every block in all such runs under exactly the same condition |
| HeapExactness.NullHarmlessExactlyWithoutWrap | kernel/src/memory/heap.rs:54-83 | null returns leave `next` alone in all such runs under exactly the same condition |
| HeapExactness.MonotoneExactlyWithoutWrap | kernel/src/memory/heap.rs:20-29 | readings never fall in all such runs under exactly the same condition |
| HeapExactness.RetriesLimitedExactlyWithoutWrap | kernel/src/memory/heap.rs:57-82 | retries have a limit over all such runs under exactly the same condition, and then the heap size is one |
| BumpHeap.BumpAllocator.Initialize | kernel/src/memory/heap.rs:46-50 | publishes the bounds with nothing in use |
| BumpHeap.BumpAllocator.Alloc | kernel/src/memory/heap.rs:54-83 | returns the least aligned address that leaves room and moves `next` past it, or null exactly when there is none or rounding up wraps; null changes nothing unless it wraps, and then `next` becomes the size if the bounds test passes |
| BumpHeap.BumpAllocator.HeapUsed | kernel/src/memory/heap.rs:20-29 | bytes between heap start and `next`, 0 before publication and when `next` is below the start |
| Utf8.DecodeEncode | kernel/src/fs/vfs.rs:113-120 | decoding an encoded text gives the text back, so stored texts always read back |
| Utf8.EncodeDecode | kernel/src/fs/vfs.rs:192-194 | whatever decodes is the encoding of what it decodes to |
| Utf8.EncodeInjective | kernel/src/fs/vfs.rs:188-190 | comparing bytes is comparing texts |
| Utf8.EncodedForm | kernel/src/fs/vfs.rs:128-154 | number, leading and following bytes and spelled value of every character, as in section 3 of RFC 3629 |
| Paths.TrimSpec | kernel/src/fs/vfs.rs:126 | trimming strips white space at both ends and nothing else, and empties exactly blank texts |
| Paths.TrimIgnoresPadding | kernel/src/shell.rs:78-80 | white space around a text makes no difference after trimming |
| Paths.NormalizeSpec | kernel/src/fs/vfs.rs:122-142 | result is the trimmed path with a slash in front if it had none, trimmed, at most 32 bytes and a fixed point; InvalidPath exactly for blank paths, PathTooLong exactly when the slash-led form exceeds 32 bytes |
| Paths.CopyWithSlashPrefix | kernel/src/fs/vfs.rs:144-155 | fills the buffer and reads back slash plus path; the decoding never fails |
| Paths.NormalizePath | kernel/src/fs/vfs.rs:122-142 | computes the normal form or its error |
| Overlay.FindPath | kernel/src/fs/vfs.rs:51-54 | first slot holding the path, None exactly when no slot does |
| Overlay.FindFree | kernel/src/fs/vfs.rs:59 | first free slot, None exactly when all are used |
| Overlay.MapLookup | kernel/src/fs/vfs.rs:113-116 | slot lookup and map lookup agree on presence and contents |
| Overlay.RoomInMap | kernel/src/fs/vfs.rs:59-64 | a free slot exists exactly when fewer than eight paths are stored |
| Overlay.ApplyRefines | kernel/src/fs/vfs.rs:41-85 | each write or remove on slots keeps distinct normal paths and equals the same operation on a finite map, outcome included |
| Overlay.ReadRefines | kernel/src/fs/vfs.rs:21-30 | reading slots is reading the map with the read-only table behind it |
| OverlayLaws.OverlayIsAMap | kernel/src/fs/vfs.rs:21-85 | every run of writes and removes has the outcomes and ends in the contents of a finite map of at most eight paths |
| OverlayLaws.ReadAfterWrite | kernel/src/fs/vfs.rs:21-65 | a written text is read back through every spelling of its path, and every other path is unchanged |
| OverlayLaws.FindContents | kernel/src/fs/vfs.rs:107-111 | each path of the read-only table is found with its own contents |
| OverlayLaws.UnshadowedRead | kernel/src/fs/vfs.rs:21-30 | a path that no slot holds reads as its own read-only file, or not at all |
| OverlayLaws.ShadowedRead | kernel/src/fs/vfs.rs:25-27 | a stored path reads as what its slot holds |
| OverlayLaws.RefusedPathReadsNothing | kernel/src/fs/vfs.rs:22-23 | blank and over-long paths read as nothing |
| OverlayLaws.WriteOutcome | kernel/src/fs/vfs.rs:41-65 | every outcome of a write exactly: blank path, path over 32 bytes, text over 256 bytes, eight other paths stored |
| OverlayLaws.FailureChangesNothing | kernel/src/fs/vfs.rs:41-85 | a failed write or remove changes nothing |
| OverlayLaws.RemoveRestores | kernel/src/fs/vfs.rs:67-85 | removing a shadow restores the file's own read-only contents, or absence, and every other path is unchanged |
| OverlayLaws.NoSpaceExactly | kernel/src/fs/vfs.rs:45-64 | a write of acceptable path and size fails exactly when eight other paths are stored |
| OverlayLaws.RemoveOutcome | kernel/src/fs/vfs.rs:72-84 | removal succeeds exactly for stored paths and answers NotFound exactly for unreadable ones and ReadOnly exactly for unshadowed read-only ones |
| OverlayLaws.RemoveRefusesPath | kernel/src/fs/vfs.rs:67-69 | removal refuses exactly blank and over-long paths, with the reason |
| OverlayLaws.WriteThenRemove | kernel/src/fs/vfs.rs:41-85 | writing a new file and removing it leaves every path as it was |
| OverlayLaws.ListingIsExact | kernel/src/fs/vfs.rs:87-105 | each name is visited once, and the names are exactly the normal-form paths that can be read |
| OverlayLaws.ListingOrder | kernel/src/fs/vfs.rs:87-105 | overlay files are visited first in slot order, then unshadowed read-only files in table order |
| Initramfs.InitramfsIsOk | kernel/src/fs/initramfs.rs:20-38 | the four read-only paths are distinct and in normal form, whatever the files contain |
| Initramfs.FilesByName | kernel/src/fs/initramfs.rs:20-38 | each of the four files is found under its own path |
| Initramfs.ReadAfterBoot | kernel/src/fs/vfs.rs:21-30 | with nothing written every file reads as its own contents, with or without the leading slash |
| Vfs.OverlayFile.Write | kernel/src/fs/vfs.rs:180-186 | the slot shows exactly the new name and text although the buffers keep their old tails |
| Vfs.OverlayFile.Clear | kernel/src/fs/vfs.rs:172-178 | the slot is free again |
| Vfs.OverlayFile.MatchesName | kernel/src/fs/vfs.rs:188-190 | the byte comparison holds exactly for the stored name |
| Vfs.FileSystem.constructor | kernel/src/fs/vfs.rs:15-19 | eight free slots that share no storage |
| Vfs.FileSystem.Lookup | kernel/src/fs/vfs.rs:113-115 | first slot whose bytes match the name |
| Vfs.FileSystem.StoreAt | kernel/src/fs/vfs.rs:51-62 | one slot changes, the seven others keep name and contents |
| Vfs.FileSystem.Write | kernel/src/fs/vfs.rs:41-65 | performs the write of the slot model, outcome and errors included |
| Vfs.FileSystem.Remove | kernel/src/fs/vfs.rs:67-85 | performs the remove of the slot model, outcome and errors included |
| Vfs.FileSystem.ReadOverlay | kernel/src/fs/vfs.rs:113-120 | contents stored under a name; decoding them never fails |
| Vfs.FileSystem.Read | kernel/src/fs/vfs.rs:21-30 | overlay contents, else read-only contents, else None |
| Vfs.FileSystem.Exists | kernel/src/fs/vfs.rs:32-39 | true exactly when the path can be read |
| Vfs.FileSystem.ForEachEntry | kernel/src/fs/vfs.rs:87-105 | visits the listing in order |
| Painter.ColorFromLanes | kernel/src/arch/x86_64/vga.rs:175-178 | the four bytes of a pixel spell its colour, lowest first |
| Painter.PixelBytes | kernel/src/arch/x86_64/vga.rs:169-178 | a pixel's four bytes are exactly those of its row and column and lie inside pitch times height |
| Painter.LastRectangleWins | kernel/src/arch/x86_64/vga.rs:159-181 | after any list of fills each visible byte shows the last rectangle covering its pixel; padding and uncovered pixels keep theirs |
| Painter.RedrawIsIdempotent | kernel/src/arch/x86_64/vga.rs:21-95 | with a background the picture ignores earlier contents, and redrawing changes nothing |
| BootVisual.PanelFits | kernel/src/arch/x86_64/vga.rs:32-87 | for every width and height no coordinate sum drawn relative to the panel overflows 32 bits |
| BootVisual.PanelInFull | kernel/src/arch/x86_64/vga.rs:32-86 | on every screen the panel frame, mark and progress bar are drawn at their exact coordinates relative to the panel, none moved or dropped by a wrapped sum |
| BootVisual.PanelCentred | kernel/src/arch/x86_64/vga.rs:32-35 | the panel is centred, up to one pixel, and 60 pixels from either side where there is room |
| BootVisual.TwoFifths | kernel/src/arch/x86_64/vga.rs:145 | the filled part is two fifths of the track, rounded down, with the doubling saturated |
| BootVisual.LayersInFull | kernel/src/arch/x86_64/vga.rs:12-93 | backdrop, bars and shell surface in the width and height of the screen, colours included |
| BootVisual.PanelLayersInFull | kernel/src/arch/x86_64/vga.rs:32-86 | panel, frame, mark and progress bar in the width and height of the screen, colours included |
| BootVisual.SceneInOrder | kernel/src/arch/x86_64/vga.rs:12-95 | the twenty fills in their order, back to front |
| BootVisual.ContentsInsidePanel | kernel/src/arch/x86_64/vga.rs:32-93 | on screens of at least 204 by 220 pixels everything drawn on the panel lies inside it, and panel and shell surface inside the screen |
| BootVisual.StrokeInFull | kernel/src/arch/x86_64/vga.rs:110-127 | a frame whose far edges fit in 32 bits is drawn as its four edges |
| BootVisual.Clip | kernel/src/arch/x86_64/vga.rs:164-165 | clipping to the screen changes nothing that is visible |
| BootVisual.ClipDrawn | kernel/src/arch/x86_64/vga.rs:164-172 | for any coordinates the loop bounds show the rectangle if both far edges fit in 32 bits and nothing otherwise |
| BootVisual.FramebufferDisplay.WritePixel | kernel/src/arch/x86_64/vga.rs:173-178 | one store paints one pixel and nothing else, in bounds and with a 64-bit offset |
| BootVisual.FramebufferDisplay.FillRect | kernel/src/arch/x86_64/vga.rs:159-181 | for any coordinates paints the visible part of the rectangle and nothing else, or nothing if a far edge passes 2^32 |
| BootVisual.FramebufferDisplay.StrokeRect | kernel/src/arch/x86_64/vga.rs:110-127 | paints the four edges, with wrapping sums |
| BootVisual.FramebufferDisplay.DrawMark | kernel/src/arch/x86_64/vga.rs:129-140 | paints the three bars of the mark, with wrapping sums |
| BootVisual.FramebufferDisplay.DrawProgress | kernel/src/arch/x86_64/vga.rs:142-157 | paints track, filled part and marker, with wrapping sums |
| BootVisual.FramebufferDisplay.RenderBootVisual | kernel/src/arch/x86_64/vga.rs:12-95 | paints the whole scene for 32-bit pixels and touches nothing otherwise |
| BootVisual.PictureIsPainted | kernel/src/arch/x86_64/vga.rs:12-95 | each visible pixel of the finished picture has the colour of the last covering rectangle, padding is untouched, redrawing changes nothing |
| TaskTable.ApplyInv | kernel/src/task/scheduler.rs:83-121 | additions and ticks keep: the current task, and only it, is Running, and only task 0 is ever Idle |
| TaskTable.AddAppends | kernel/src/task/scheduler.rs:83-88 | below 16 tasks the given process is appended unchanged behind the old ones; a full table stays as it is |
| TaskTable.CurrentIdIsRunning | kernel/src/task/scheduler.rs:123-131 | the current id is that of the Running task |
| TaskTable.PublishedIdIsRunning | kernel/src/task/scheduler.rs:62-66 | in every run the published id is that of the one Running task, or the no-task value while there is none |
| TaskTable.BootedTakesTurns | kernel/src/task/scheduler.rs:14-21 | after boot the published id is 0 after an even number of ticks and 1 after an odd one |
| TaskTable.ExactlyOneRunning | kernel/src/task/scheduler.rs:94-121 | in every run, once a tick found a task, exactly one task is Running and it is the current one |
| TaskTable.TickStates | kernel/src/task/scheduler.rs:99-120 | a tick sets the left task to Idle or Ready, the entered one to Running and no other |
| TaskTable.TickKeepsTasks | kernel/src/task/scheduler.rs:94-121 | ticks keep ids, names and order |
| TaskTable.TickShortensWait | kernel/src/task/scheduler.rs:110-115 | a tick reaches a task or shortens its wait, which is at most 16 |
| TaskTable.EveryTaskRunsWithin16Ticks | kernel/src/task/scheduler.rs:83-121 | from any table, with additions anywhere in between, every stored task becomes current within 16 ticks |
| TaskTable.EachWindowRunsEachTaskOnce | kernel/src/task/scheduler.rs:110-115 | without additions, each window of as many ticks as tasks makes every task current exactly once, the first window of a table that has not run included |
| Scheduler.TaskScheduler.AddTask | kernel/src/task/scheduler.rs:83-88 | appends the task, or nothing when 16 are stored |
| Scheduler.TaskScheduler.RunNextTask | kernel/src/task/scheduler.rs:94-121 | performs the tick of the table model on the slot array |
| Scheduler.TaskScheduler.CurrentTaskId | kernel/src/task/scheduler.rs:123-131 | id of the current task, which is that of the Running one, or the no-task value |
| Scheduler.TaskScheduler.Initialize | kernel/src/task/scheduler.rs:14-21 | adds tasks 0 and 1, starts the first task and publishes matching count and id: 2 and 0 for an empty table |
| Scheduler.TaskScheduler.OnTick | kernel/src/task/scheduler.rs:62-66 | advances the table and publishes the id of the Running task |
| Keyboard.KeyboardDriver.DecodeScancode | kernel/src/drivers/keyboard.rs:39-54 | new shift state and event of every scancode |
| Keyboard.TranslatedIsPrintable | kernel/src/drivers/keyboard.rs:56-245 | every character event is printable ASCII |
| Keyboard.EveryPrintableHasAKey | kernel/src/drivers/keyboard.rs:56-245 | every printable ASCII character is on the keyboard |
| Keyboard.TypingDecodes | kernel/src/drivers/keyboard.rs:39-54 | any printable text can be typed, from either shift state |
| Keyboard.ShiftFollowsShiftKeys | kernel/src/drivers/keyboard.rs:39-49 | the shift state follows the two shift keys alike and nothing else; releases give no event |
| Keyboard.EditingKeys | kernel/src/drivers/keyboard.rs:50-51 | Enter and Backspace come from exactly one scancode each |
| Keyboard.OneKeyPerCharacter | kernel/src/drivers/keyboard.rs:39-245 | a scancode gives a character exactly if it is that character's key in that shift state |
| Commands.WriteLine | kernel/src/shell.rs:214-224 | `write p t` writes exactly t to exactly p |
| Commands.CatLine | kernel/src/shell.rs:203-209 | `cat p` shows p |
| Commands.RmLine | kernel/src/shell.rs:229-235 | `rm p` removes p |
| Commands.VerbAlone | kernel/src/shell.rs:204-233 | a verb without its path gets the usage answer |
| Commands.WriteNeedsText | kernel/src/shell.rs:219-222 | `write p` without text gets the usage answer |
| Commands.WriteIsSuffix | kernel/src/shell.rs:215-224 | what a command writes is a proper suffix of its line |
| Commands.SplitExactly | kernel/src/shell.rs:219-222 | splitting is at the first space and fails exactly when there is none |
| Commands.VerbDecides | kernel/src/shell.rs:101-252 | what a line means for every first word, known or not |
| Commands.PathIsNextWord | kernel/src/shell.rs:203-235 | cat and rm take the next word, however much white space is before it and whatever follows |
| Commands.WriteSplits | kernel/src/shell.rs:214-224 | write takes everything up to the next space as the path, even nothing, and everything after it as the text |
| Commands.WriteNeedsSpace | kernel/src/shell.rs:215-218 | write followed by anything but a space gets the usage answer |
| ShellSession.TypedWriteFits | kernel/src/shell.rs:77-94 | a typed line always decodes, and what it writes is shorter than 128 bytes |
| ShellSession.EveryKeyRun | kernel/src/shell.rs:45-94 | for every scancode run the line stays printable and within 128 bytes, the files stay in order, and invalid input and ContentTooLong never occur |
| ShellSession.BackspacesUndoTyping | kernel/src/shell.rs:56-74 | backspaces undo typing, and one character past the limit drops the line |
| ShellSession.TypedLineRuns | kernel/src/shell.rs:51-94 | a printable line of at most 128 characters is executed as typed and the line is empty again |
| ShellSession.AnyLineRuns | kernel/src/shell.rs:45-94 | any printable line of at most 128 characters runs as what trimming leaves of it, and a blank one does nothing |
| ShellSession.PaddingIsIgnored | kernel/src/shell.rs:78-80 | white space around a line does not change what it does |
| ShellSession.TypedLs | kernel/src/shell.rs:198-202 | typing `ls` answers with the listing and changes nothing |
| ShellSession.TypedInfo | kernel/src/shell.rs:107-251 | the informational verbs are answered as such, whatever follows them, and change no file |
| ShellSession.TypedUsage | kernel/src/shell.rs:203-233 | `cat` and `rm` alone are answered with their usage |
| ShellSession.TypedUnknown | kernel/src/shell.rs:251 | a line with any other first word is answered as unrecognized and changes no file |
| ShellSession.TypedWriteUsage | kernel/src/shell.rs:219-222 | typing `write p` without text answers with the usage |
| ShellSession.UndecodableLine | kernel/src/shell.rs:78-85 | a line that is not UTF-8 is refused, dropped and changes no file |
| ShellSession.BackspaceOnEmpty | kernel/src/shell.rs:56-60 | Backspace on an empty line does nothing |
| ShellSession.TypedWrite | kernel/src/shell.rs:214-228 | typing `write p t` performs that write and answers with its outcome |
| ShellSession.TypedCat | kernel/src/shell.rs:203-213 | typing `cat p` answers with the contents or their absence and changes no file |
| ShellSession.TypedRm | kernel/src/shell.rs:229-239 | typing `rm p` performs that removal and answers with its outcome |
| ShellSession.WriteThenCat | kernel/src/shell.rs:45-228 | from scancodes to console: `write p t` then `cat q` for any spelling q of p answers exactly t whenever the overlay has room |
| ShellSession.WriteThenCatCanBeTyped | kernel/src/drivers/keyboard.rs:39-54 | such a scancode run exists for every such p, t and q |
| ShellSession.WriteThenRm | kernel/src/shell.rs:214-239 | writing a new file and removing it answers both and leaves every path readable as before |
| Shell.LineShell.ExecuteCommand | kernel/src/shell.rs:101-253 | performs the command on the file system object and gives the session model's answer |
| Shell.LineShell.ExecuteCurrentLine | kernel/src/shell.rs:77-94 | runs the buffered line and empties it |
| Shell.LineShell.OnKey | kernel/src/shell.rs:45-75 | each key event edits the buffer, files and answers as the session model does; an uninitialized shell ignores keys |

## Left out

- Requests of size 0, which callers of `alloc` may not make.
- Weak memory: acquire and release orderings are modelled as sequentially consistent steps.
- Deadlock: a lock taken inside an interrupt while held is not modelled; locked sections are single steps.
- Framebuffers whose pitch is below four bytes per pixel of width.
- The texts of the four read-only files; the table is proved for any contents.
- The boot-info copy of the first 64 map entries, Limine requests and boot stages; the memory map is an arbitrary input.
- Aliasing of text returned by `read` with later writes; `read` returns the contents at call time.
- The process fields context, execution mode, address space and image, which the scheduler only carries.
- Console echo and prompts, and the text of the shell's informational commands; their verbs are recognised and answered as such.
- The initialization flags of the keyboard, timer and file system.
- `dealloc`, which does nothing; the mapper, address-space and syscall wrappers; port I/O, PIC, PIT, GDT, IDT and serial.
- Build tooling, scripts and documentation.
