# A Dafny model of wharf

wharf makes, rewrites and applies binary patches between two versions of a folder of files. This project models its five
linked cores on bytes, arrays and a map from paths to contents, and proves what they promise of each other:

1. **bsdiff** (`BsdiffScan`, `BsdiffDiff`, `BsdiffPatch`, `LruFile`, `ScanPipeline`, `SuffixSearch`): the scan of a block
   against a partitioned suffix array, the control stream, the pipeline of workers, and the patcher that reads the old file
   through a chunk cache. The two suffix sorters are proved too: `SuffixArrayZ`, and qsufsort in both its modes in
   `QsufBuckets`, `QsufSplit`, `QsufPass`, `QsufSequential` and `Qsufsort`, over the order of suffixes in `SuffixOrder`.
2. **wsync** (`RollingHash`, `WsyncOps`, `WsyncDiff`, `WsyncWindow`, `WsyncGreedy`, `WsyncKnown`, `WsyncRest`, `WsyncRun`,
   `WsyncComputeDiff`): rolling hash, block library, the wrapping window of ComputeDiff, the plain scan it is to agree with
   block by block and byte by byte, which blocks that scan finds, the joining of ranges, what is left for the last
   operation, and applying an operation.
3. **The overlay bowl** (`OverlayCodec`, `EntryWriters`, `BowlFolder`, `BowlTransposition`, `OverlayBowl`, with the fresh
   bowl beside it in `Bowls`): encoding only changed bytes, and a commit that replaces files in place in any map order.
4. **Patching sessions and rediff** (`PatchStream`, `Patcher`, `PatchRuns`, `Rediff`, `ReadContext`): writing a patch,
   applying it over runs that save, stop, die and resume, and rewriting it with bsdiff series.
5. **Signatures and validation** (`Signature`, `Validation`, `Wounds`): storing and segmenting hashes, re-chunking writes,
   and reporting wounds over exactly the differing blocks.

`Upgrade` puts them together: signing the old files, diffing the new ones, perhaps rewriting the patch, and applying it in
place or to a new folder leaves exactly the new files. `Common` holds what all of them use.

## How to read it

Code that changes things step by step is a method or a class, proved against a specification function or predicate; what
the source promises is then stated about that specification, or in the method's own `ensures`. A choice the source leaves to
chance (map iteration order, the victim of an eviction, what a dead process leaves on disk) is a nondeterministic choice in
the method, so that its contract holds for all of them. When the consumer wants a checkpoint, and where a run is stopped or
its process dies, is an input: a `Schedule` says it for every position in the patch, and a schedule that never ends the run
is `Calm`. A patch or an overlay is a sequence of messages, and a position in it counts messages.

`dafny verify dfyconfig.toml` checks the whole project.

## What the theorems rest on

- The strong hash (MD5, section 3 of RFC 1321) is any function; that it separates the blocks and windows at hand is a stated
  hypothesis, `Separates` for diffing and `Trusted` for validating.
- The external suffix sorter of the partitions is any function that returns suffix arrays, `SortsSuffixes`. Of the two
  sorters of the repository, qsufsort is proved to return them for every text, and `SuffixArrayZ` for those named below.
- Readers fill the buffer they are given unless they meet the end of the file, and a source does not fail in the middle.
- ComputeDiff has blocks of at least 2 bytes and the buffer the code allocates. `MaxDataOp` (4 MiB), the overlay buffer
  (128 KiB) and the overlay threshold (8 KiB) are parameters: the proofs hold for any value.
- For a commit, paths are unique within a container, target files exist, `.butler-rename-N` names are unused, and no target
  file has the path of a source directory or symlink (`Clean`, and the last requirement of `Commit`). For a session in
  place these are asked of the folder at its start, `Installed`.
- When a session starts, the staging folder, or the output folder of a fresh bowl, may hold anything, except a file that is
  longer than the one to be written there: the writers do not truncate (`DiskFits`, and the exact condition in
  `EntryWriters.WriteOver`).

## What was found

- `Do` panics exactly when the new file is not empty and the old one is, so that the first search reads a suffix that is
  not there (bsdiff/math.go:382-384), or when the new file is shorter than the number of partitions, so that it divides by
  zero (bsdiff/diff.go:324-326). `BsdiffDiff.Do` and `Rediff.Context.Optimize` state the exact condition.
- `SuffixArrayZ` does not refine a bucket of zero bytes, which the end marker shares (bsdiff/suffixarrayz.go:54). So it
  orders suffixes by their heads, up to the first zero byte. That is the suffix array when all heads differ, as they do
  without zero bytes, and for texts of up to 17 bytes, which insertion sort orders whole; a longer text of zeros is left
  unsorted. `SuffixArrayZ.SuffixArrayZ.constructor` states all of this.
- `AggregateWounds` also joins wounds that do not touch (`End <= Start` suffices, pwr/wounds.go:267), which widens them
  over healthy bytes. `Wounds.SizeConservedIff` says for all wounds when the size is conserved, and
  `Wounds.SizeConservedIffNoGap` that for forward wounds within the maximum it is exactly when no two neighbours have a gap
  between them.
- It never compares file indices either (pwr/wounds.go:256-297): wounds of two files are joined into one of the first file
  (`Wounds.FilesAreMixed`). `Wounds.CoverageConservedIff` says, for wounds of any number of files in order, that coverage
  is conserved if and only if only wounds that touch and are of one file are joined. The only caller in the repository
  feeds it the stream of one file (pwr/validator.go:326), which `Validation.ValidateFile` proves right for files of every
  length, although the wounds of a file that is too long have gaps between them.
- The bytes a range is credited with when a rediff mapping is chosen are off: the block asked for is the one behind the
  range and the rest is one byte short (pwr/rediff/rediff.go:215-218). `Rediff.CreditIsExact` gives the one case where they
  are right. The choice stays sound, since any mapping gives the same contents; the count in pwr/diff.go:234-237 is right.
- A block that the target has is not copied when its window reaches into the short last block of the source and is not
  that block itself: once a read comes short, `shortSize` is that of the last block, and a whole window is looked up as a
  short one (wsync/algo.go:244-284). The scan then ends, and ships what is left. `WsyncKnown.KnownIsCopiedIff` says of every
  known window the scan comes to, aligned or not, that it is copied if and only if it ends before the short last block; a
  byte in front of a file of one block makes it ship all of it (`WsyncKnown.LastBlockIsMissed`). A known window is also
  passed by when the window a byte before has the same weak hash (wsync/algo.go:271-273).
- An unchanged file is recognized as one full-file range if and only if no block of it repeats; a repeated
  block is looked up as its first copy, which ends the range (wsync/hashes.go:109-119).
- The last data operation may exceed `MaxDataOp` (wsync/algo.go:315), since a block and the rest of the window are added to
  what waits without a look at its length. It is below `MaxDataOp` plus two blocks. With nothing to copy its length is a
  closed form of the lengths of source, block, `MaxDataOp` and buffer, so `WsyncComputeDiff.LimitHoldsIff` says exactly when
  the limit holds; it does not for a source of one byte more than 4 MiB (`WsyncComputeDiff.LimitExceeded`). A source no
  longer than the limit is safe whatever the targets.
- A read of `AdderReader` that meets the end of the file hands its bytes through unadded (bsdiff/adder_reader.go:17-19);
  `Apply` never lets that happen on an intact message.
- A new chunk cache claims that every slot holds chunk 0 until `Reset` is called (bsdiff/lrufile/lrufile.go:43-61).
- `overlayProcessor.Write` compares what is written with what is left (pwr/overlay/overlay_writer.go:99), so it takes all it
  is given if and only if that fits in one buffer; the buffered writer's loop sends the rest again.
- Opening a file to write it whole does not truncate it (pwr/bowl/bowl_fresh.go:152-175): written over a stale file, it is
  right if and only if that was no longer (`EntryWriters.WriteOver`).
- The first marking pass of qsufsort starts at byte 1 (bsdiff/math.go:192-197), so a lone zero byte is finished but not
  marked; the next scan finds it as a group of one (`QsufBuckets.FirstStops`).

## Model

| member | source | states |
|---|---|---|
| Upgrade.UpgradeFolder | pwr/diff.go:40-190 | Signing the old files, diffing the new ones against the stored signature, rewriting the patch and applying it in place, from whatever fits in the staging folder and over any runs, each with its own schedule of saves, stops and kills: once a run is left alone the folder holds exactly the new files (untracked files untouched), until then it is unchanged; the only refusal is a non-empty new file shorter than the partition count |
| Upgrade.UpgradeDirectly | pwr/patcher/patcher.go:122-208 | The same without the rediff, and then nothing is refused |
| Upgrade.BuildFolder | pwr/patcher/patcher.go:122-208 | Diffing and patching into a folder of its own, whatever fits in it at first, leaves every new file there once a run is left alone |
| Upgrade.Diff | pwr/diff.go:40-190 | From the new files and the stored signature of the old ones comes a patch that means exactly the new files |
| SuffixSearch.SearchOne | bsdiff/math.go:381-401 | On a sorted suffix array the bisection returns a real match that is the longest over every suffix, not only over those visited |
| SuffixSearch.NearestIsLongest | bsdiff/math.go:382-394 | Once the bracket is down to two neighbours, no suffix below or above matches longer than its nearer neighbour |
| SuffixSearch.LongestIsAtBracket | bsdiff/math.go:382-394 | The longest match over all suffixes is at one of the two ends of the bracket |
| SuffixSearch.MatchLen | bsdiff/math.go:371-378 | The counting loop finds the length of the longest common prefix |
| SuffixSearch.NewPSA | bsdiff/psa.go:20-59 | Boundaries tile the file into p non-empty partitions, equal but for the last one, and each stretch of the index is the suffix array of its partition |
| SuffixSearch.PSA.Search | bsdiff/psa.go:61-76 | The answer is a maximum over every offset of every partition, with position and length inside one partition |
| SuffixSearch.PSA.BestIsMonotone | bsdiff/diff.go:233-250 | The best match one byte further on is at most one byte shorter, so the scored window never ends earlier |
| BsdiffScan.AnalyzeBlock | bsdiff/diff.go:222-319 | The nested loops end, and the matches tile the block without gap or overlap, keep every add region inside the old file and start reading at old offset 0. Each is settled at best extensions from a best match at the first place, as the scan goes, that beats the alignment of the match before by more than 8 bytes, or from the end of the block; only stops where the best match is the old alignment itself are passed over |
| BsdiffScan.RecordMatch | bsdiff/diff.go:302-315 | Appending a settled match keeps the tiling, moves the cursor to where the backward extension starts, and explains one match more by the stop it was settled from |
| BsdiffScan.FindStop | bsdiff/diff.go:231-250 | scan stops at the first position that qualifies, no earlier one did, and oldscore is then the number of agreeing bytes in the match window |
| BsdiffScan.NextStop | bsdiff/diff.go:230-252 | The next stop is passed over if its match is the old alignment, and else settled into a match; whichever it is, the trace of the scan still explains every match, and the scan has moved on |
| BsdiffScan.StopTells | bsdiff/diff.go:231-250 | A stop whose match agrees with the old alignment throughout is one the walk passes over; any other is the first place that beats the alignment, or the end of the block |
| BsdiffScan.Probe | bsdiff/diff.go:234-249 | One turn keeps the score equal to the count of agreeing bytes of the current window, also when the window has been outrun by one byte |
| BsdiffScan.SlideWindow | bsdiff/diff.go:236-241 | Counting only the newly covered bytes gives the agreement over the whole window of the match |
| BsdiffScan.SearchAt | bsdiff/diff.go:234-234 | The match found is best, lies inside both files and ends no earlier than the one found a byte before |
| BsdiffScan.ForwardExtend | bsdiff/diff.go:253-264 | lenf is the first length at which twice the agreeing bytes minus the length is largest |
| BsdiffScan.BackwardExtend | bsdiff/diff.go:266-278 | lenb is the first length at which the backward score is largest, and 0 at the end of the block |
| BsdiffScan.SplitOverlap | bsdiff/diff.go:281-296 | The overlap is cut at the first point where the gain of the forward alignment over the backward one is largest |
| BsdiffScan.SettleMatch | bsdiff/diff.go:253-300 | Both extensions are the best ones, and where they overlapped they are cut at the best point and meet there |
| BsdiffScan.SettledFits | bsdiff/diff.go:280-307 | Settled extensions never overlap, stay behind the cursor and keep the add region inside the old file |
| BsdiffScan.CountHits | bsdiff/diff.go:236-241 | The score grows by exactly the agreeing bytes of the positions passed |
| BsdiffDiff.Do | bsdiff/diff.go:147-423 | It panics exactly when new is not empty and old is empty or new shorter than the number of partitions; otherwise interpreting its stream from old offset 0 gives new, only the last message is an end message, and the stream is that of the scans of the planned blocks over the planned partitions |
| BsdiffDiff.PlanBlocks | bsdiff/diff.go:321-327 | Block size and count are defined exactly when new has at least as many bytes as there are partitions, and then the blocks cover it |
| BsdiffDiff.BlockSizeIs | bsdiff/diff.go:321-327 | Blocks of 128 KiB if that gives at least one for every partition, and else one block of an equal share for each |
| BsdiffDiff.BlockFits | bsdiff/diff.go:348-356 | Every block is non-empty, inside the file, and starts where the one before it ends |
| BsdiffDiff.ScanBlocks | bsdiff/diff.go:345-404 | The matches of all blocks in block order tile the whole new file, and the first reads from old offset 0; each block's are explained stop by stop, and they are what every finished run of the pipeline over these blocks delivers, whatever the number of workers and the interleaving |
| BsdiffDiff.PipelineDelivers | bsdiff/diff.go:329-404 | Any finished run of the pipeline, with at most a worker per block, delivers the scans of the blocks in block order |
| BsdiffPatch.WriteMessages | bsdiff/diff.go:92-143 | One message per match with its difference bytes, its copied bytes and the seek to the next match, wherever that is, then an end message |
| BsdiffPatch.MessageRebuilds | bsdiff/diff.go:92-143 | A message applied at its match's old start gives that match's share of new and leads to the next match's old start |
| BsdiffPatch.StreamRebuilds | bsdiff/patch.go:77-162 | From any message on, started at that match's addOldStart, the stream rebuilds the rest of new |
| BsdiffPatch.SumDifference | bsdiff/adder_reader.go:16-31 | Wrapping byte addition undoes the wrapping subtraction of the diff |
| BsdiffPatch.PatchContext.Apply | bsdiff/patch.go:77-122 | It succeeds exactly when the message is intact for this old file and offset, and then writes the message's bytes and moves OldOffset as the message says |
| BsdiffPatch.PatchContext.Patch | bsdiff/patch.go:126-163 | It succeeds exactly when the stream is intact and gives newSize bytes, and then the output is what the stream means |
| BsdiffPatch.PatchContext.NewIndividualPatchContext | bsdiff/patch.go:41-75 | A reused context starts clean on another old file |
| BsdiffPatch.PatchContext.CopyAdd | bsdiff/patch.go:88-104 | All add bytes come out exactly when the old file has that many left, and then each is the wrapping sum with its old byte |
| BsdiffPatch.PatchContext.CopyOnce | bsdiff/patch.go:94-97 | One turn of the copy loop writes sums of consecutive bytes and makes progress unless the old file is at its end |
| BsdiffPatch.AdderReader.Read | bsdiff/adder_reader.go:16-31 | What is read has the buffer added, except on a read that meets the end of the file, whose bytes come through unadded |
| LruFile.File.Read | bsdiff/lrufile/lrufile.go:87-130 | Bytes, count and end-of-file report are those of a plain file, whatever is cached |
| LruFile.File.GetChunk | bsdiff/lrufile/lrufile.go:163-228 | The slot returned holds the chunk's bytes, the cache invariant is kept, and a free slot is always found |
| LruFile.RoomExists | bsdiff/lrufile/lrufile.go:180-195 | While a key waits for a slot some slot is free whatever was evicted, so the could-not-find-room error is unreachable |
| LruFile.File.AddKey | bsdiff/lrufile/lrufile.go:181-181 | Adding a key evicts at most one other key, any one, and frees its slot |
| LruFile.AddedInverse | bsdiff/lrufile/lrufile.go:180-181 | Adding a key without a slot keeps keys and allocations inverse to each other but for that key |
| LruFile.EvictedInverse | bsdiff/lrufile/lrufile.go:157-161 | Evicting any key and releasing its slot keeps keys and allocations inverse bijections |
| LruFile.PlacedInverse | bsdiff/lrufile/lrufile.go:197-200 | Giving the waiting key a free slot restores the bijection and shares no slot |
| LruFile.CacheHoldsAfterLoad | bsdiff/lrufile/lrufile.go:202-227 | Loading one slot leaves what every other cached chunk holds |
| LruFile.File.Reset | bsdiff/lrufile/lrufile.go:63-85 | After a reset nothing of the former file can be read |
| LruFile.File.Seek | bsdiff/lrufile/lrufile.go:132-151 | From the start, the current offset or the end: a seek to a place in the file goes there, one outside it fails and rewinds to 0, one with an unknown origin fails and moves nothing |
| LruFile.File.ReadChunk | bsdiff/lrufile/lrufile.go:93-127 | One turn copies consecutive bytes of the file and makes progress, or ends at the end of the file |
| LruFile.File.Locate | bsdiff/lrufile/lrufile.go:94-118 | The stretch of storage handed out holds exactly the file's bytes from the offset on |
| ScanPipeline.RunReceivesScan | bsdiff/diff.go:329-404 | For every interleaving with bounded channels the consumer has received a prefix of the sequential scan, and all of it in a finished run |
| ScanPipeline.OneTokenPerWorker | bsdiff/diff.go:335-343 | Tokens waiting, tokens taken and blocks in flight of one worker always add up to one |
| ScanPipeline.NeverStuck | bsdiff/diff.go:345-404 | In every reachable unfinished state some goroutine can move |
| ScanPipeline.RunKeeps | bsdiff/diff.go:329-404 | Every reachable state meets the invariant that ties channel contents to the blocks in flight |
| ScanPipeline.StepKeeps | bsdiff/diff.go:345-404 | Every step of dispatcher, worker, collector or consumer keeps the invariant |
| ScanPipeline.CollectorsTurn | bsdiff/diff.go:385-401 | The round-robin worker the collector reads from is the one that scans the next block |
| ScanPipeline.DispatchersTurn | bsdiff/diff.go:361-369 | The token the dispatcher waits for belongs to a worker with no block in flight |
| ScanPipeline.SendMatchKeeps | bsdiff/diff.go:310-318 | Sending a match or the end-of-block mark keeps the invariant |
| ScanPipeline.ReadMatchKeeps | bsdiff/diff.go:391-397 | The collector takes exactly the next item of the block it is on |
| ScanPipeline.ReturnTokenKeeps | bsdiff/diff.go:399-400 | Returning the token ends the block with nothing of it left in the channels |
| RollingHash.BetaHash | wsync/hashes.go:138-148 | The wrapping 32-bit accumulators give the sums modulo 2^16 although they overflow on the way |
| RollingHash.BetaIsSums | wsync/hashes.go:138-148 | The two halves of the weak hash are, modulo 65536, the sum of the bytes of the window and the sum of the sums of its tails |
| RollingHash.RollIsBetaOf | wsync/algo.go:266-269 | Rolling the hash of a full window by one byte, in wrapping arithmetic, gives beta, beta1 and beta2 of the next window |
| RollingHash.SumSlides | wsync/algo.go:266-269 | How the plain and the weighted sum change when one byte leaves and one enters |
| RollingHash.WeightWraps | wsync/hashes.go:142-142 | The weight of a byte survives the unsigned subtraction it is computed with |
| WsyncOps.ApplySingle | wsync/algo.go:74-130 | Any range of an existing file, also one that reaches behind its end or has no block, writes what the file has of it, short last block included; data is written as it is |
| WsyncOps.CopySize | wsync/algo.go:85-92 | The computed copy length reaches exactly to the end of the last block or of the file |
| WsyncOps.CopyAny | wsync/algo.go:79-113 | Whatever the range, the length asked for gives the bytes from its first block to the end of its last one or of the file, whichever comes first, and none for a span below one |
| WsyncOps.NumBlocksOffsets | pwr/diff.go:201-205 | A block index is within the block count exactly when the block starts inside the file |
| WsyncOps.SignatureNames | wsync/hashes.go:16-79 | Every signature entry names a real block of a real file with that block's hash and short size |
| WsyncOps.RangesJoin | wsync/algo.go:189-193 | Joining a range with the block behind it changes no byte |
| WsyncDiff.NewBlockLibrary | wsync/block_library.go:5-19 | Each bucket holds the hashes of one weak hash, in signature order |
| WsyncDiff.FindUniqueHash | wsync/hashes.go:99-135 | An empty window finds nothing; else the first match in the preferred file, or the first in any |
| WsyncDiff.FoundIsWindow | wsync/hashes.go:99-135 | Under a strong hash that separates target blocks from source windows, the block found is the window |
| WsyncDiff.EnqueuedProduces | wsync/algo.go:185-219 | Holding back, joining, flushing and cleaning never change the bytes the operations stand for |
| WsyncDiff.FlushPrevProduces | wsync/algo.go:176-181 | Sending the range held back loses nothing |
| WsyncDiff.SendProduces | wsync/algo.go:134-146 | Dropping empty data operations behind the first loses nothing |
| WsyncRun.Differ.Step | wsync/algo.go:221-330 | One turn keeps emitted bytes plus window equal to the source read so far, and moves on; what is found is exactly what the plain scan sees there, and what has been said is what the plain scan says: a known block is sent and passed, an unknown byte shipped |
| WsyncRun.Differ.Refill | wsync/algo.go:223-254 | Wrapping and reading leave a full window or the exhausted source with its short size, at the same source position |
| WsyncRun.Differ.Wrap | wsync/algo.go:225-242 | The wrap moves the window to the front and sends the waiting data first |
| WsyncRun.Differ.ReadBlock | wsync/algo.go:244-253 | A read appends the source's next bytes; a short one ends the run with its size |
| WsyncRun.Differ.HashWindow | wsync/algo.go:262-277 | On a full window the rolled or fresh hash is the window's hash, and the lookup is skipped if and only if the window one byte before has the same one |
| WsyncRun.Differ.Examine | wsync/algo.go:256-286 | What is found is what the plain scan sees at this place, and a block found can be copied in place of the window |
| WsyncWindow.LookupIn | wsync/algo.go:281-286 | What is found has the window's strong hash and short size; under a hash that is the window's own it is exactly the library entry for it |
| WsyncRun.Differ.EmitMatch | wsync/algo.go:291-312 | Sending data and block accounts for everything up to the end of the window |
| WsyncRun.Differ.EmitNoMatch | wsync/algo.go:291-329 | Without a match the window slides by a byte, or the rest is sent and the run is finished |
| WsyncRun.Differ.SendFull | wsync/algo.go:291-297 | Data is sent exactly when a whole data operation waits in front of the window, and then all of what waits |
| WsyncRun.FlushFinishes | wsync/algo.go:176-181 | After the deferred flush the operations rebuild the source, data operations are non-empty but for one alone, every one but the last keeps to the limit, and the last stays below it plus two blocks |
| WsyncGreedy.EnqueuedTells | wsync/algo.go:185-219 | Holding back, joining and cleaning change nothing of what is said block by block and byte by byte |
| WsyncGreedy.EnqueuedApart | wsync/algo.go:189-202 | No two neighbouring ranges come out that could have been one |
| WsyncGreedy.SameHashIs | wsync/algo.go:263-273 | Comparing the rolled hash with the one before compares the weak hashes of the two windows |
| WsyncGreedy.MatchLeadsOn | wsync/algo.go:299-312 | Sending a known block and going on a block further is what the plain scan does |
| WsyncGreedy.MissLeadsOn | wsync/algo.go:313-329 | Shipping a byte and going on behind it is what the plain scan does |
| WsyncGreedy.GreedyTells | wsync/algo.go:221-330 | Whatever is said first, second or last: it is what the window at its place gives |
| WsyncKnown.LookupIsFirst | wsync/hashes.go:99-135 | With the signature of the target files as library, a window is found if and only if it is a block of a target file, and then the first one of the preferred file, or else the first of all |
| WsyncKnown.KnownIsCopiedIff | wsync/algo.go:236-286 | Wherever the scan comes to a whole window that is a block of a target file, aligned or not, and that is not one byte behind a window with the same weak hash, it copies a block with these bytes if and only if the window ends before the short last block of the source; if not, the byte is shipped |
| WsyncKnown.CopiedIsWindow | wsync/algo.go:279-312 | What the scan copies for a window before the short last block has the bytes of the window |
| WsyncKnown.LastBlockIsMissed | wsync/algo.go:244-286 | The target is one block and the source a byte in front of it: the block is known, and all of the source is shipped |
| WsyncRest.RunEnds | wsync/algo.go:313-329 | With nothing to copy, what waits when the source is exhausted has the closed length LastLength, given by the lengths of source, block, data operation and buffer alone |
| WsyncRest.Trace | wsync/algo.go:221-312 | Turn by turn, the start of the buffer, the oldest waiting byte and the next byte to read are where a count of blocks read and of wraps says; a block is read exactly one byte behind each block boundary |
| WsyncRest.WalkedIsDistance | wsync/algo.go:225-253 | Walking wrap by wrap from block to block gives the closed form: whole before the first wrap, then periodic in whole blocks |
| WsyncComputeDiff.ComputeDiff | wsync/algo.go:152-332 | Applying the operations rebuilds the source for every source, target set, preferred index and large enough buffer. Block by block and byte by byte the operations say exactly what the plain scan of the source says, whatever the buffer, and no two neighbouring ranges could have been one; an unchanged non-empty file yields one full-file range if and only if its blocks are pairwise distinct; when no block of the source is in the library the last operation is data of the closed length |
| WsyncComputeDiff.LimitHoldsIff | wsync/algo.go:314-329 | With nothing to copy, all data operations keep to the limit if and only if the closed length of the last one does |
| WsyncComputeDiff.LimitExceeded | wsync/algo.go:313-329 | With the block size and data operation size of the code and no targets, any source of one byte more than MaxDataOp ends in a single data operation of all of it |
| WsyncComputeDiff.ShortSourceIsLimited | wsync/algo.go:314-329 | For any targets: a source no longer than the limit gives no data operation above it |
| WsyncComputeDiff.LookupInUnchanged | wsync/hashes.go:106-121 | Looking up a block of an unchanged file in its own signature finds the first copy of that block in the file |
| WsyncComputeDiff.UnchangedTurn | wsync/algo.go:221-330 | At a block of an unchanged file the scan copies the first copy of that block and goes on with the next one |
| WsyncComputeDiff.UnchangedScan | wsync/algo.go:221-330 | The scan of an unchanged file copies, block by block, the first copy of each |
| WsyncComputeDiff.OneRange | wsync/algo.go:189-202 | Operations that could not be joined and say consecutive blocks are one range |
| WsyncComputeDiff.CopiesInPlaceIff | wsync/hashes.go:108-121 | The first copies of all blocks are the blocks themselves if and only if the blocks are pairwise distinct |
| WsyncComputeDiff.TransposeIsApply | pwr/patcher/patcher_rsync.go:232-256 | When a series that rebuilds a source starts with a full-file operation, the source is that target file and the remaining operations add nothing |
| PatchStream.WritePatch | pwr/diff.go:107-178 | The stream is the headers, operations and end markers of one series per file, each what ComputeDiff says with the last target file of the same path preferred, or none; it makes exactly the source files. The fresh count is the bytes of all data operations in the stream, the reused count what all its ranges copy, and together they count every source byte once |
| PatchStream.WriteSeries | pwr/diff.go:136-177 | One file's messages mean that file, wherever in the stream they are, and fresh and reused bytes are those of its data operations and of its ranges |
| PatchStream.WriteFile | pwr/diff.go:132-178 | One file's series is the one planned for it: its own path decides the preferred index |
| PatchStream.WriteOps | pwr/diff.go:217-256 | Messages carry the operations unchanged; fresh bytes are those in the data operations, reused bytes those the ranges copy |
| PatchStream.RangeIsCounted | pwr/diff.go:234-237 | A range is counted with exactly the bytes it copies, short last block included |
| PatchStream.CountedAppend | pwr/diff.go:217-256 | The two counts of a stream are the sums of those of its parts |
| PatchStream.RsyncSeriesMeans | pwr/diff.go:136-177 | Header, operations and end marker are a series that means what the operations produce |
| PatchStream.BsdiffSeriesMeans | pwr/rediff/rediff.go:441-511 | Header, bsdiff header, control messages and end marker are a series that means what patching gives |
| PatchStream.SectionsMakePatch | pwr/diff.go:132-178 | Consecutive series are a patch for all files |
| PatchStream.RsyncPatchIsPatch | pwr/patcher/patcher.go:152-205 | A patch of rsync series only, as the differ writes it, is one the patcher takes |
| PatchStream.IndexPaths | pwr/diff.go:114-117 | Every target path is found at the last index that has it, and no other path is found |
| Rediff.Context.AnalyzePatch | pwr/rediff/rediff.go:131-291 | For every map order each file gets a mapping the rules allow: of the files its series takes blocks from, one with the greatest total, with numBytes that total, where the total of a file is the sum over all ranges of the series from it; every mapping chosen has a non-empty target and sizes within the limit |
| Rediff.Context.AnalyzeFile | pwr/rediff/rediff.go:185-285 | One file's operations are read to their end and decided on by them alone |
| Rediff.Context.MapFile | pwr/rediff/rediff.go:235-285 | Empty and single-range files are skipped unless forced; a greatest credit wins with the own path preferred; without reuse a non-empty namesake within the limit |
| Rediff.Context.PickMapping | pwr/rediff/rediff.go:242-251 | Whatever order the reused files come in, the pick has the greatest credit, and the file's own path among equals |
| Rediff.Context.BestIsGreatest | pwr/rediff/rediff.go:242-251 | A mapping is best in the map of credits if and only if its file has the greatest total of all files the series takes from |
| Rediff.Context.ReadOps | pwr/rediff/rediff.go:204-233 | The op loop sums credits and counts over exactly this series |
| Rediff.ReusedIsTotal | pwr/rediff/rediff.go:204-220 | What is summed up for a file is the total over all positions of the series that take from it, of size times span less one plus the block behind the range |
| Rediff.ReusedTargets | pwr/rediff/rediff.go:212-220 | Credited files are exactly those the series takes blocks from |
| Rediff.TakesNonEmpty | pwr/rediff/rediff.go:212-220 | The file a well-formed operation takes blocks from is not empty |
| Rediff.CreditIsExact | pwr/rediff/rediff.go:215-220 | The credit equals the bytes the range contributes if and only if exactly one byte of the target file is left behind the range |
| Rediff.Context.DecidedIsOk | pwr/rediff/rediff.go:240-284 | Any mapping the rules allow is one Optimize can rely on |
| Rediff.Context.Optimize | pwr/rediff/rediff.go:404-514 | It goes through if and only if no mapped source is non-empty and shorter than its partition count; then the new patch makes the same contents as the old one, every mapped file has a bsdiff series against its mapped target with what the differ sends, and every other file the operations it had |
| Rediff.Context.OptimizeSeries | pwr/rediff/rediff.go:404-514 | One series is kept if the file is not mapped, and written anew against the mapped target if it is |
| Rediff.Context.RewriteSeries | pwr/rediff/rediff.go:441-511 | The bsdiff series written means the source file and holds what the differ sends for the mapped target, or bsdiff cannot be asked for it |
| Rediff.Context.CopySeries | pwr/rediff/rediff.go:417-439 | A copied series has the operations it had and means what it meant |
| Rediff.Context.SkipSeries | pwr/rediff/rediff.go:457-467 | Throwing operations away leads to the next file's series |
| Rediff.TailIsOps | pwr/rediff/rediff.go:424-439 | A well-formed series is its operations up to the first end marker and means their bytes |
| OverlayCodec.Patch | pwr/overlay/overlay_patch.go:16-53 | The interpreter stops at the first end message and fails when there is none |
| OverlayCodec.EncodedApplies | pwr/bowl/bowl_overlay.go:703-744 | Patching an encoded overlay over old and cutting at the final position gives the new bytes, whatever stale messages follow the end |
| OverlayCodec.PatchIgnoresTail | pwr/overlay/overlay_patch.go:35-38 | What follows the end message is never read |
| OverlayCodec.SkipEncodes | pwr/overlay/overlay_writer.go:228-243 | A skip is right over bytes equal to the old ones |
| OverlayCodec.FreshEncodes | pwr/overlay/overlay_writer.go:211-226 | Fresh data is right anywhere, beyond the old file too |
| OverlayCodec.OverlayWriter.constructor | pwr/overlay/overlay_writer.go:49-78 | A new overlay starts with the header, which reads back as a skip of nothing |
| OverlayCodec.OverlayWriter.Resume | pwr/overlay/overlay_writer.go:49-78 | From saved offsets the writer goes on as the one that saved |
| OverlayCodec.OverlayWriter.EncodeBlock | pwr/overlay/overlay_writer.go:112-209 | One block is encoded whole, readOffset equals the bytes processed, no fresh message holds a run of unchanged bytes longer than the threshold, every skip is longer than the threshold, no fresh message is empty, and no two fresh messages of a block are neighbours |
| OverlayCodec.OverlayWriter.EncodeCommon | pwr/overlay/overlay_writer.go:160-173 | The comparison loop commits every long equal run and no other |
| OverlayCodec.OverlayWriter.FinishBlock | pwr/overlay/overlay_writer.go:175-204 | Last streak, fresh rest and bytes beyond the old file complete the block |
| OverlayCodec.OverlayWriter.Commit | pwr/overlay/overlay_writer.go:138-158 | Fresh bytes before the streak, then the streak as a skip over equal bytes |
| OverlayCodec.OverlayWriter.ProcessorWrite | pwr/overlay/overlay_writer.go:96-110 | What is encoded is what is reported, never nothing of something; everything is taken if and only if it fits in one buffer |
| OverlayCodec.OverlayWriter.Write | pwr/overlay/overlay_writer.go:80-82 | Through the buffered writer nothing is lost or reordered whatever the pieces, short counts included |
| OverlayCodec.OverlayWriter.Flush | pwr/overlay/overlay_writer.go:84-86 | After a flush everything written has been encoded |
| OverlayCodec.OverlayWriter.Finalize | pwr/overlay/overlay_writer.go:245-262 | The finished overlay turns old into all that was written, whatever stale messages follow it, and behind its header holds what the blocks were encoded to and one end message |
| EntryWriters.OverlayRoundTrip | pwr/bowl/bowl_overlay.go:927-1033 | Any pieces, any save and resume points and any garbage behind the saved offset: the overlay over old gives the new content, and it is closed by one end message |
| EntryWriters.Reopen | pwr/bowl/bowl_overlay.go:927-1006 | Save, lose what is behind the checkpoint, resume: nothing written is lost |
| EntryWriters.OverlayEntryWriter.Resume | pwr/bowl/bowl_overlay.go:950-1006 | A resumed overlay writer has written what the saving one had, and its checkpoint stays usable |
| EntryWriters.OverlayEntryWriter.Save | pwr/bowl/bowl_overlay.go:927-948 | The offsets saved stand for everything written, because it flushes first |
| EntryWriters.OverlayEntryWriter.Write | pwr/bowl/bowl_overlay.go:1008-1016 | Bytes are appended and the source offset counts them |
| EntryWriters.OverlayEntryWriter.Finalize | pwr/bowl/bowl_overlay.go:1018-1033 | Applying the finished file to the old one gives all that was written |
| EntryWriters.FreshEntryWriter.Resume | pwr/bowl/bowl_fresh.go:152-175 | The file is opened without being cut and the offset is the saved one |
| EntryWriters.FreshEntryWriter.Write | pwr/bowl/bowl_fresh.go:189-197 | What is before the offset is what was written; what is behind it stays |
| EntryWriters.WriteOver | pwr/bowl/bowl_fresh.go:152-197 | A whole file written over a stale one is right if and only if the stale one is no longer; its head is right in any case |
| EntryWriters.EntryWriter.Write | pwr/bowl/bowl_overlay.go:1008-1016 | Either writer appends, and a checkpoint saved before stays usable |
| EntryWriters.EntryWriter.Save | pwr/bowl/bowl_overlay.go:927-948 | Either writer's checkpoint can be restarted from with what is on disk |
| EntryWriters.EntryWriter.Finalize | pwr/bowl/bowl_overlay.go:1018-1033 | Either writer, with the whole content written, leaves a finished file |
| BowlTransposition.SafePathsDiffer | pwr/bowl/bowl_overlay.go:534-535 | Temporary names made with different seeds differ, whatever the paths |
| BowlTransposition.ApplyTranspositions | pwr/bowl/bowl_overlay.go:447-606 | For every map order all renames, swaps, cycles and duplications take place at once: every output holds what its target held, and a target not wanted or overlaid any more is gone |
| BowlTransposition.GroupByTarget | pwr/bowl/bowl_overlay.go:448-459 | The groups hold exactly the assignment from outputs to targets |
| BowlTransposition.RenameClashes | pwr/bowl/bowl_overlay.go:519-543 | Afterwards no output is a target except in place, and the cleanup list restores exactly the original assignment |
| BowlTransposition.RenameGroup | pwr/bowl/bowl_overlay.go:523-543 | One group's clashing outputs get new names that clash with nothing |
| BowlTransposition.ApplyMultiple | pwr/bowl/bowl_overlay.go:461-517 | Copies first, then the rename: every output of the group has the target's content and the target stays only if kept or overlaid |
| BowlTransposition.ApplyGroup | pwr/bowl/bowl_overlay.go:557-593 | One group leaves all its outputs with the target's content and touches no other path |
| BowlTransposition.ApplyGroups | pwr/bowl/bowl_overlay.go:551-594 | Whatever the order of the groups, each sees its target as it was at first |
| BowlTransposition.AppliedStep | pwr/bowl/bowl_overlay.go:551-594 | Applying one more group disturbs no target still to come |
| BowlTransposition.Cleanup | pwr/bowl/bowl_overlay.go:596-603 | Every temporary name is gone and its output has the content |
| BowlTransposition.CleanupCompletes | pwr/bowl/bowl_overlay.go:596-603 | Renaming through temporary names equals the assignment without them |
| OverlayBowl.Bowl.Commit | pwr/bowl/bowl_overlay.go:257-279 | A simultaneous assignment: every source path ends with its content, target-only files are gone, nothing else changes |
| OverlayBowl.PhasesMeet | pwr/bowl/bowl_overlay.go:257-273 | Transpositions, moves and overlays in this order give every source its content and leave other paths alone |
| OverlayBowl.TransposedMeets | pwr/bowl/bowl_overlay.go:257-261 | A transposed file has its content after the first phase |
| OverlayBowl.OverlaidIsKept | pwr/bowl/bowl_overlay.go:545-563 | What an overlay is to be applied to survives the transpositions unchanged |
| OverlayBowl.StageReady | pwr/bowl/bowl_overlay.go:263-273 | Moves leave the overlays and the files they apply to in place |
| OverlayBowl.TranspositionsReady | pwr/bowl/bowl_overlay.go:447-459 | The recorded transpositions meet what applying them needs |
| OverlayBowl.Bowl.ApplyMoves | pwr/bowl/bowl_overlay.go:683-701 | Exactly the staged files of the list appear, and leave the stage |
| OverlayBowl.Bowl.ApplyOverlays | pwr/bowl/bowl_overlay.go:703-754 | Exactly the files of the list become what their overlay makes of them |
| OverlayBowl.Bowl.DetectGhosts | pwr/bowl/bowl_overlay.go:777-817 | Ghosts are exactly the target files whose path is no file, directory or symlink of the source |
| OverlayBowl.Bowl.DeleteGhosts | pwr/bowl/bowl_overlay.go:833-864 | Ghosts are gone and nothing else is |
| OverlayBowl.Bowl.MarkOverlay | pwr/bowl/bowl_overlay.go:186-197 | A file is listed once however often it is marked |
| OverlayBowl.Bowl.MarkMove | pwr/bowl/bowl_overlay.go:199-210 | A file is listed once however often it is marked |
| OverlayBowl.Bowl.Transpose | pwr/bowl/bowl_overlay.go:212-225 | A source has one transposition, the last one recorded |
| OverlayBowl.Bowl.GetWriter | pwr/bowl/bowl_overlay.go:156-184 | An existing path gets an overlay over its old content, a new one a staged file, and is listed accordingly |
| Bowls.FreshBowl.Transpose | pwr/bowl/bowl_fresh.go:93-125 | The target file is copied right away |
| Bowls.TransposeRecords | pwr/bowl/bowl.go:41-44 | Transposing deals with the file in either bowl |
| Bowls.MarkStarts | pwr/bowl/bowl_overlay.go:156-210 | Asking for a writer, again after a resume too, leaves the file recorded once and in one list |
| Bowls.StoreRecords | pwr/bowl/bowl_overlay.go:1018-1033 | What a finished writer leaves deals with its file |
| Bowls.AllRecorded | pwr/bowl/bowl_fresh.go:127-130 | When all files are dealt with, a fresh bowl holds the contents and a commit in place will: the two bowls agree |
| Bowls.AnyBowl.Save | pwr/bowl/bowl_overlay.go:132-141 | Restoring what was saved changes nothing |
| Bowls.AnyBowl.Resume | pwr/bowl/bowl_overlay.go:143-154 | The bowl has the lists of the checkpoint again |
| PatchRuns.PatchInPlace | pwr/patcher/patcher.go:122-208 | Over any runs, each stopped or killed wherever its schedule says and resumed from the last checkpoint, the committed folder is that of an uninterrupted run; before the commit it is unchanged; one run that is left alone is enough |
| PatchRuns.RunInPlace | pwr/patcher/patcher.go:122-208 | One run from the last checkpoint commits, or leaves the folder as it was and a checkpoint another run can go on from: that of the last place it passed where one was asked for; left alone, it commits |
| PatchRuns.PatchFresh | pwr/patcher/patcher.go:122-208 | The same for a fresh bowl, whatever fits in its folder at first: every source file ends with its content |
| Patcher.SavingPatcher.Resume | pwr/patcher/patcher.go:122-208 | On a well-formed patch a run never fails; it completes with every file dealt with, or ends with a last checkpoint another run can resume from; a run that is neither stopped nor killed completes. A stopped run holds the checkpoint of the place it stopped at; every run holds the checkpoint of the last place it passed where one was asked for, or the one it was given if there was none, and it ended at the first place where its schedule ends it |
| Patcher.SavingPatcher.ProcessFiles | pwr/patcher/patcher.go:152-205 | File by file the patch position, the bowl and the last checkpoint stay in step, and it ends early only where the schedule stops or kills it |
| Patcher.SavingPatcher.NextFile | pwr/patcher/patcher.go:152-205 | Between two files the process may die, which leaves a usable checkpoint; else the next series is patched, from its checkpoint or its header; a bowl in place transposes the file if and only if its series starts with a full-file operation |
| Patcher.SavingPatcher.TakeUp | pwr/patcher/patcher.go:133-147 | From a checkpoint the patch, the bowl and the file index are where they were saved |
| Patcher.SavingPatcher.ProcessFile | pwr/patcher/patcher.go:230-241 | A file's series ends with the file dealt with, or interrupted with a usable checkpoint |
| Patcher.SavingPatcher.ProcessRsync | pwr/patcher/patcher_rsync.go:18-211 | The same for an rsync series, transposed, from its first operation or from a checkpoint |
| Patcher.SavingPatcher.TransposeFile | pwr/patcher/patcher_rsync.go:58-90 | A full-file operation is transposed and its end marker found |
| Patcher.SavingPatcher.AbandonTransposition | pwr/bowl/bowl_fresh.go:93-125 | A process that dies while a file is being transposed leaves a part of it at most, which spoils no checkpoint |
| Patcher.FullFileOp | pwr/patcher/patcher_rsync.go:232-256 | A full-file operation at the start of a series makes the whole content, and what follows is empty |
| Patcher.TransposedPlaces | pwr/patcher/patcher_rsync.go:58-90 | In the series of a transposed file no checkpoint can be taken |
| Patcher.SavingPatcher.WriteFirst | pwr/patcher/patcher_rsync.go:92-139 | The first operation is relayed before any checkpoint can be taken, so none skips it |
| Patcher.SavingPatcher.RelayRsync | pwr/patcher/patcher_rsync.go:141-210 | What is written plus what remains of the series is always the content |
| Patcher.SavingPatcher.RsyncMessage | pwr/patcher/patcher_rsync.go:185-209 | One operation moves its bytes from the rest of the series to the writer; the end marker finalizes a complete file |
| Patcher.SavingPatcher.ProcessBsdiff | pwr/patcher/patcher_bsdiff.go:16-199 | A bsdiff series, from its header or from a checkpoint with its old offset, ends the same way |
| Patcher.SavingPatcher.RelayBsdiff | pwr/patcher/patcher_bsdiff.go:107-163 | At every message old offset and position agree with what remains of the content |
| Patcher.SavingPatcher.BsdiffMessage | pwr/patcher/patcher_bsdiff.go:149-163 | One control message moves its bytes to the writer and its offset to the next message |
| Patcher.SavingPatcher.EndBsdiff | pwr/patcher/patcher_bsdiff.go:165-198 | Behind the last control message the size check passes and the file is finalized |
| Patcher.SavingPatcher.SaveCheckpoint | pwr/patcher/patcher_rsync.go:143-170 | What is saved can be resumed from with what is then on disk |
| Patcher.NewCheckpointFits | pwr/patcher/patcher_rsync.go:143-170 | Writer offset, bowl lists and patch position taken at the same message agree: what is written before it and what the patch still means behind it make the file |
| Patcher.SavingPatcher.Interlude | pwr/patcher/patcher_rsync.go:143-178 | Between messages a save, a stop or the death of the process as the schedule says: a checkpoint that is asked for is saved, for this message and this file, and else the last one stays; all leave a usable checkpoint, and the run goes on otherwise |
| Patcher.SavingPatcher.SaveOrEnd | pwr/patcher/patcher_rsync.go:143-178 | A checkpoint is saved if and only if one is asked for, before the run ends, and the run ends if and only if the schedule says so |
| Patcher.PlacePassed | pwr/patcher/patcher_rsync.go:143-178 | Passing one place: what is held behind it is its checkpoint if one was asked for, and what was held before it otherwise |
| Patcher.CameFurther | pwr/patcher/patcher.go:152-205 | A stretch passed and a stretch the run ends in are one stretch it ends in: of two last saves the later one is held |
| Patcher.SavingPatcher.StartWriting | pwr/patcher/patcher_rsync.go:24-41 | A new or resumed writer has exactly the bytes the checkpoint stands for |
| Patcher.SavingPatcher.Abandon | pwr/patcher/patcher_rsync.go:173-176 | Whatever is left of the file behind the checkpoint is no obstacle to resuming |
| Patcher.SavingPatcher.Finish | pwr/patcher/patcher_rsync.go:185-195 | A finalized file is complete and spoils no checkpoint |
| Patcher.OkAfterStore | pwr/patcher/patcher.go:122-208 | Files from the checkpoint's own on may change on disk, its own only behind the saved offsets |
| Patcher.TransposeKeeps | pwr/patcher/patcher_rsync.go:63-66 | Transposing a later file spoils no checkpoint |
| Patcher.MarkKeeps | pwr/patcher/patcher_rsync.go:95-98 | Listing a later file spoils no checkpoint |
| ReadContext.ReadTwice | wire/read_context.go:74-144 | For every place where the source saves and every place where it comes back: there is a checkpoint to resume from exactly when the source came by that place while it was asked to save, and comes back no further on than the message offset; what is then read is the same bytes, those of the source from there on |
| ReadContext.ReadContext.Resume | wire/read_context.go:74-121 | It succeeds exactly when there is a source checkpoint and the source does not come back behind the message offset, and then stands at the message offset |
| ReadContext.ReadContext.PopCheckpoint | wire/read_context.go:131-144 | A checkpoint, handed out once, is for the place the next message starts and has the source's own, which is not behind it |
| ReadContext.ReadContext.WantSave | wire/read_context.go:123-129 | An idle reader waits afterwards and the source has been asked; asking again while waiting changes nothing |
| ReadContext.ReadContext.Read | wire/read_context.go:208-227 | The offset counts exactly the source bytes handed out, and a source that was asked to saves exactly when it comes by the place where it can |
| SuffixArrayZ.SuffixArrayZ.constructor | bsdiff/suffixarrayz.go:11-26 | For every text the index is a permutation in the order of the suffixes cut at their first zero byte; it is the suffix array when these heads are all different or the text has at most 17 bytes, and it is not when a longer text is all zeros |
| SuffixArrayZ.ZeroFreeHeads | bsdiff/suffixarrayz.go:11-26 | In a text without zero bytes the heads are all different |
| SuffixArrayZ.HeadsDecide | bsdiff/suffixarrayz.go:11-26 | When the heads are all different, their order is that of the suffixes |
| SuffixArrayZ.SuffixArrayZ.Sort | bsdiff/suffixarrayz.go:28-58 | It ends, keeps the members of the range and everything outside it, orders the range by heads, and by whole suffixes up to the cutoff; a range that is all end markers or zeros is left as it was |
| SuffixArrayZ.SuffixArrayZ.SortParts | bsdiff/suffixarrayz.go:53-57 | Outer parts are refined at the same depth, the middle one a byte further, and not for end markers; each part comes out in the order of heads |
| SuffixArrayZ.SuffixArrayZ.Partition | bsdiff/suffixarrayz.go:34-50 | Three-way partition by the byte at the depth, a permutation of the range only |
| SuffixArrayZ.SuffixArrayZ.SameKeyShares | bsdiff/suffixarrayz.go:54-56 | Members with the same non-zero byte share one byte more; those at a zero byte or the end have the same head |
| SuffixArrayZ.SuffixArrayZ.KeyDecides | bsdiff/suffixarrayz.go:39-47 | A smaller byte behind a shared head decides the order |
| SuffixArrayZ.SuffixArrayZ.PartsJoin | bsdiff/suffixarrayz.go:52-57 | Three parts ordered by heads make an ordered range |
| SuffixArrayZ.SuffixArrayZ.Insertion | bsdiff/suffixarrayz.go:68-74 | Insertion sort orders the range and changes nothing outside it, zero bytes or not |
| SuffixArrayZ.SuffixArrayZ.LessFrom | bsdiff/suffixarrayz.go:77-94 | Comparing from the shared depth decides the order of the whole suffixes |
| SuffixArrayZ.ShorterZeros | bsdiff/suffixarrayz.go:54-56 | Among zeros the shorter suffix comes first, which the first order of the index contradicts |
| SuffixOrder.SortedIsSuffixArray | bsdiff/suffixarrayz.go:11-26 | Distinct starts in strict order are the suffix array |
| SuffixOrder.HDoubles | bsdiff/math.go:222-222 | Where the first h bytes agree, the next g decide the order by the first h + g |
| SuffixOrder.DoubledOrders | bsdiff/math.go:25-28 | Ranks at h paired with ranks h further on order the suffixes by 2h bytes |
| Qsufsort.Sort | bsdiff/math.go:158-368 | In the concurrent mode: the empty suffix first and behind it the suffix array of the text, for every text and every order in which groups are sorted |
| Qsufsort.SortSequentially | bsdiff/math.go:158-368 | In the sequential mode, the default, with one rank array that is updated while groups are split: the same result for every text |
| Qsufsort.InitialSort | bsdiff/math.go:165-210 | After the bucket pass suffixes are ordered by their first byte, with ranks and run marks to match |
| Qsufsort.AllAlone | bsdiff/math.go:222-222 | When the first entry covers everything, every suffix is alone at its rank |
| Qsufsort.WriteOut | bsdiff/math.go:364-367 | Writing each suffix to its rank gives the order |
| QsufBuckets.BucketStarts | bsdiff/math.go:172-179 | Each bucket begins behind all smaller bytes |
| QsufBuckets.FillBuckets | bsdiff/math.go:181-186 | Every suffix lands in its own slot, and each bucket entry ends as its last position |
| QsufBuckets.RankBuckets | bsdiff/math.go:187-191 | Every suffix gets the last position of its bucket as its rank |
| QsufBuckets.MarkBuckets | bsdiff/math.go:192-197 | Exactly the buckets of one suffix of bytes 1 to 255 are marked, and position 0 |
| QsufBuckets.BucketsLevel | bsdiff/math.go:181-191 | Bucket positions and ranks number the suffixes by their first byte |
| QsufBuckets.FirstStops | bsdiff/math.go:192-197 | The marks and buckets cover all positions; a position is under a mark if and only if it is finished, but for a lone bucket of byte 0, which is finished and not marked |
| QsufBuckets.LoneZero | bsdiff/math.go:192-197 | A single zero byte in the text is alone at position 1 and not marked, since the marking loop starts at byte 1 |
| QsufSplit.Split | bsdiff/math.go:17-141 | One group is ordered by the ranks h further on, each suffix gets the last position of its key as new rank, the lone ones are marked, and nothing else changes |
| QsufSplit.CountKeys | bsdiff/math.go:62-79 | The counts are the sizes of the parts below and at the pivot |
| QsufSplit.Partition | bsdiff/math.go:62-113 | The three loops put every member on its side of the pivot and permute the group only |
| QsufSplit.FillBelow | bsdiff/math.go:81-100 | The first loop fills the part below the pivot and never runs out of room on the other sides |
| QsufSplit.FillEqual | bsdiff/math.go:102-113 | The second loop sorts out the equal and the greater ones |
| QsufSplit.RoomOnSide | bsdiff/math.go:89-99 | A side with an element elsewhere still has room, so the swaps stay in their parts |
| QsufSplit.CommitEqual | bsdiff/math.go:124-135 | Equal keys get one rank, their last position; a single one is marked |
| QsufSplit.PartsDone | bsdiff/math.go:119-140 | Three finished parts make a finished group |
| QsufPass.Pass | bsdiff/math.go:222-354 | After the pass with step h suffixes are ordered by their first 2h bytes, groups are exactly those that agree on them, and a position is under a negative run length if and only if it is finished |
| QsufPass.FinishedIffMarked | bsdiff/math.go:254-340 | Where no group of one is left unmarked, the positions under negative entries are exactly the finished ones |
| QsufPass.Scan | bsdiff/math.go:254-317 | The scan finds every unfinished group once, with its length, and joins neighbouring finished runs |
| QsufPass.RunTasks | bsdiff/math.go:226-235 | Whatever the order of the groups, each group is split from the old ranks |
| QsufPass.TaskRan | bsdiff/math.go:230-233 | Splitting one group leaves the others untouched or split as they were |
| QsufPass.ApplyMarks | bsdiff/math.go:328-340 | The joined runs are marked with their lengths once all groups are sorted |
| QsufPass.NextLevel | bsdiff/math.go:222-354 | Ranks after the pass order the suffixes by doubled length |
| QsufPass.NextStops | bsdiff/math.go:222-354 | The next scan will find runs and groups that cover everything, with no group of one |
| QsufPass.OneRun | bsdiff/math.go:335-340 | Once h is past the length of the text, the scan makes one run of everything, so the loop ends |
| QsufSequential.SplitBlock | bsdiff/math.go:17-141 | With the rank array read and written at once, a group is split by ranks that may already be newer: its new ranks agree in twice as many bytes where they are equal, order the suffixes where they differ, and the lone ones are marked |
| QsufSequential.Refined | bsdiff/math.go:124-131 | Giving the front of a group its own last position as rank keeps ranks ordered as the suffixes, whatever they know beyond h bytes |
| QsufSequential.PartsAreRight | bsdiff/math.go:62-113 | What the keys said when they were compared stays true of the suffixes although the ranks they were read from change afterwards |
| QsufSequential.NextIsBlock | bsdiff/math.go:119-140 | Once what is before it has its own ranks, the next part is the front of what is left of the group |
| QsufSequential.PassInPlace | bsdiff/math.go:222-354 | A pass that marks runs and splits groups as it comes to them leaves ranks that look at twice as many bytes, and a position under a negative run length if and only if it is finished |
| QsufSequential.GroupTurn | bsdiff/math.go:277-317 | Splitting one group changes no step of the scan in front of it or behind it, and makes its subgroups steps of the next one |
| QsufSequential.LevelRanked | bsdiff/math.go:181-191 | Ranks by exactly h bytes are ranks of this kind |
| Wounds.AggregateWounds | pwr/wounds.go:256-297 | The goroutine computes the wound-by-wound aggregation the lemmas are about, and relays what is no file wound: kind, index, bounds and order |
| Wounds.MarksAreRelayed | pwr/wounds.go:276-289 | The wounds that are no file wounds come out as they went in, in the same order, and nothing else of their kind does |
| Wounds.AggregationSplitsAtMark | pwr/wounds.go:276-289 | Each keeps its place: the file wounds before it and behind it are aggregated on their own |
| Wounds.SizeGrowsByGaps | pwr/wounds.go:267-268 | Aggregation adds exactly the gaps it swallows to the total size |
| Wounds.SizeConservedIff | pwr/wounds.go:256-297 | For all wounds: the total size is conserved if and only if no gap between neighbours lies within one of the groups that are joined |
| Wounds.SizeConservedIffNoGap | pwr/wounds.go:256-297 | For forward wounds that never fill a group: the total size is conserved if and only if no file wound starts behind the end of the one before it |
| Wounds.PendingIsGroup | pwr/wounds.go:256-297 | The wound that waits after any prefix is the group of neighbours it ends, from the start of the first to the end of the last |
| Wounds.GapIsSwallowed | pwr/wounds.go:267-268 | Any two wounds of a file with a gap between them come out as one that covers the gap |
| Wounds.FilesAreMixed | pwr/wounds.go:256-297 | Wounds of two files, the second further on, come out as one wound of the first file, which covers bytes it was never wounded at and loses those of the second |
| Wounds.CoverageConservedIff | pwr/wounds.go:256-297 | For non-empty wounds that come file by file and front to back, of any number of files: what comes out covers exactly the bytes of each file that were covered if and only if only wounds that touch and are of one file are joined |
| Wounds.UncleanWidens | pwr/wounds.go:267-268 | The first join over a gap, or of two files, covers a byte of the first file that no wound covers |
| Wounds.CoverageKeptAt | pwr/wounds.go:256-297 | For forward wounds of one file, gaps or not: a byte that lies in no gap is covered afterwards just if it was before |
| Wounds.AggregationIsExact | pwr/wounds.go:256-297 | Over wounds of one file that lie end to end, as a validated file gives them, coverage and total size are conserved |
| Wounds.AggregationKeepsFile | pwr/wounds.go:256-297 | Wounds of one file stay wounds of that file |
| Wounds.AggregationIsBounded | pwr/wounds.go:271-274 | No wound that comes out reaches the maximum plus one block |
| Wounds.AggregationKeepsHealth | pwr/wounds.go:319-327 | Something unhealthy comes out if and only if something unhealthy went in |
| Validation.ValidateFile | pwr/validator.go:390-411 | Every wound sent is about the file validated. What is sent is the aggregation of one verdict per block of the file, in order: healthy just where the signature has that block, and else a wound, each over the place of its block, also behind the end of the signed file; the healthy marks sent are exactly those, with their bounds. Whatever the file's length, wounds and trailing wound together cover exactly the bytes of the differing blocks of the signed file, and all is healthy exactly when the bytes are those signed; for equal lengths they add up to the differing blocks' sizes and stay below the maximum plus one block; for every split into writes |
| Validation.DripWriter.Write | pwr/drip/dripwriter.go:25-58 | Whatever the pieces, what has been handed on plus the buffer is what was written, in whole buffers |
| Validation.DripWriter.Close | pwr/drip/dripwriter.go:61-89 | The rest goes out as one shorter block, and everything handed on was validated |
| Validation.CutsAreBlocks | pwr/drip/dripwriter.go:25-89 | There is one way to cut bytes into blocks, so the k-th write is the file's k-th block |
| Validation.FileValidator.ValidateAsWound | pwr/blockvalidator.go:33-74 | A block beyond the signature, or with another hash, is a wound over its place; else it is reported healthy |
| Validation.FileValidator.ValidateAsError | pwr/blockvalidator.go:76-97 | It fails exactly on the blocks the other form calls wounds |
| Validation.FileValidator.Validate | pwr/validatingpool.go:96-110 | One wound per block, in block order |
| Validation.WoundsAreVerdicts | pwr/blockvalidator.go:33-74 | What is reported block by block is the verdict on each: whether the signed file has that very block, and where the block lies |
| Validation.VerdictsMark | pwr/validatingpool.go:96-110 | The marks among the verdicts are the healthy blocks, one each |
| Validation.MatchIsEqual | pwr/blockvalidator.go:33-74 | Hashes match if and only if the signed file has that very block |
| Validation.BlockWounds | pwr/validatingpool.go:96-110 | For equal lengths the block wounds lie end to end and tell exactly the differing blocks |
| Validation.WoundsAreRight | pwr/validator.go:326-326 | For files of the signed length the wounds say the same joined or not: coverage, sizes, bound |
| Validation.HealthIsRight | pwr/validator.go:390-411 | All blocks healthy and the length right mean the file that was signed, and the other way round |
| Validation.CoveredIffDiffers | pwr/validator.go:390-411 | Whatever the file's length, a byte of the signed file is under a wound, or behind the end of the file, if and only if its block differs, although the joined wounds of a longer file may reach over gaps |
| Signature.CreateSignature | wsync/hashes.go:16-79 | One hash per block in order, and one of the empty block for an empty file |
| Signature.ComputeSignature | pwr/sign.go:43-89 | The signatures of all files, one after the other |
| Signature.ReadSignature | pwr/sign.go:121-185 | Every stored hash gets its file, block and short size from the container; a stream that ends early gives fewer |
| Signature.SignatureRoundTrip | pwr/diff.go:192-199 | Storing only weak and strong hashes loses nothing: reading with the container restores every entry |
| Signature.ShortSizeKnown | pwr/sign.go:168-172 | The container alone tells the size of a short last block |
| Signature.ComputeHashInfo | pwr/hashinfo.go:16-50 | It succeeds exactly when the hash count fits the container, and then gives each file its own stretch; it panics exactly when the stretch of some non-empty file ends behind the capacity of the slice, and is an error else |
| Signature.EachFileItsOwn | pwr/hashinfo.go:16-50 | From disk to disk every non-empty file gets exactly its own block hashes, and an empty one none |

## Left out

- QsufSplit.Split: the selection sort for small groups is disabled in the source (bsdiff/math.go:21) and is not part of this model.
- QsufPass.RunTasks: groups are split one after the other in any order; steps of different workers inside two splits are not interleaved (the groups share no position, and ranks are read from the array no worker writes).
- ScanPipeline.RunReceivesScan: what a worker sends is the given list of matches of its block; the scan that makes it is `BsdiffScan.AnalyzeBlock`.
- Patcher.SavingPatcher.Resume: no whitelist and no `skipFile` (pwr/patcher/patcher.go:182-191), and only well-formed patches; what a malformed patch makes it report is not stated.
- PatchRuns.PatchInPlace: the process is not killed inside `Commit`, which the source cannot resume, and no staged file is longer at the start than it is to become; `EntryWriters.WriteOver` says what happens then.
- Patcher.SavingPatcher.Abandon: of a file being written anything may be left behind the last checkpoint's offsets, but a new file is never longer than it is to become, since the writer does not truncate.
- ReadContext.ReadTwice: is about bytes; the patcher model counts messages, so the two are not connected, and `ReadMessage` with its length prefix and growing buffer is not modelled.
- OverlayCodec.OverlayWriter.Resume: overlay offsets count messages, not bytes; a torn message behind the saved offset is any sequence of messages.
- BsdiffPatch.PatchContext.Patch: the buffer and chunk sizes of the code are parameters, and hit and miss counts are left out.
- LruFile.File.AddKey: which other key is evicted is any choice; recency is not modelled.
- SuffixArrayZ.SuffixArrayZ.constructor: in a text of more than 17 bytes the order among suffixes with the same head is left open, except that all zeros come out wrong; it depends on the pivots.
- Validation.ValidateFile: one regular file with its own stream of wounds; missing files, directories or symlinks in its place, cancellation and the fail-fast guardian are left out, and for a file that is too long the trailing wound has its end before its start, as in the code.
- Bowls.FreshBowl.Transpose: writing a file that was left from an earlier run truncates it.
- OverlayBowl.Bowl.Commit: no directories, symlinks, modes, case fixing, ghost directories, order of ghost removal, or fallback from renaming to copying.
- BowlTransposition.ApplyTranspositions: `.butler-rename-N` names are taken by nothing else.
- PatchStream.WritePatch: the signature of the new files that is written at the same time is `Signature.ComputeSignature` on its own.
- `failFast = false` in ApplySingleFull, which fills up with zeros, and every I/O error path.
- Compression, protobuf and gob encoding, magic numbers, progress, statistics, memory measurement.
- The archive healer, safekeeper, genie, dry and pool bowls, containers and walking folders: plumbing with easier properties.
