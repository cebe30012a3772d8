# oans: a verified model

oans scans files, hashes them, groups duplicates by generation window and asks the kernel to share their
storage. This project models the parts of it where correctness spans many steps, and proves what they promise:

- **The scan of one file** (`Grid`, `Layout`, `ScanSpec`, `ScanTheorems`, `ScanRows`, `ScanPass`, `ScanLoop`,
  `ScanEnd`, `GridDigest`, `HoleDescriptors`, `DigestOptions`, `ScanExamples`). `ScanSpec` says what every pass does
  as a function of the file offset alone. `ScanLoop` is the loop as the program has it, with a cached read cap, an
  extent cursor, leftover bytes in the buffer and three running digests, and is proved to emit exactly what the
  memoryless form emits. `ScanPass` says what a pass's bytes do to any digest in progress, for the loop and for the
  resumes alike. `ScanRows` proves which extent and block rows the scan emits, `ScanEnd` where it stops,
  `GridDigest` when its digest is what the block grid alone would give, `HoleDescriptors` that it tells files with
  other holes apart, and `DigestOptions` when block hashing shows in it.
- **Checkpoints** (`Resume`, `ResumeProof`, `ResumeProgress`, `ResumeLoop`): a hashfile with a pending batch, a
  worker, kills and resumes. A pass makes its rows from the bytes it reads and the digest the worker holds, so a
  wrongly restored digest would show. No sequence of kills shows in what is stored, and what a checkpoint has
  claimed is not hashed again. `ResumeLoop` hands the state a resume leaves to the loop of `ScanLoop`.
- **Copying instead of hashing** (`LayoutCopy`), and **extent maps** (`Fiemap`, `PhysSet`).
- **Generation windows** (`Windows`, `Convergence`, `Watermark`, `ExtentWindows`, `WorkTotal`, `Sums`): the SQL
  loaders as set comprehensions, the elected target, what any interleaving of moves does to the storage, over any
  history of runs, and the exact progress total.
- **One dedupe request** (`Dedupe`) against a kernel that may answer anything.
- **Tables, queues, the walk, write units and the block search** (`HashTable`, `WorkQueue`, `Walk`, `WalkContents`,
  `WriteUnits`, `BlockMatch`).

A digest is modelled as the bytes fed to it, so it is collision-free and saving it is the identity. Extent records
are sorted, disjoint and of positive length; 64-bit sums do not overflow; `pread` returns what it was asked for up
to the end of the file; the block size is at most the buffer. Rows of the hashfile's tables are maps from id to
row. Deduplicating `dest` is `storage[dest] := storage[target]`. Batches are reaped in generation order
(src/run_dedupe.h:25-27).

## Where the code does not do what it says

- The scan does not always end at the file size. `hole_run_length()` takes any hole with a record after it for an
  interior one; with blocks preallocated past the end of the file (`fallocate -n`), the trailing hole is measured
  to that record, the offset passes the file size, and the file is reported as changed while hashing, on every
  run. `ScanEnd.ScanEnds` gives the exact condition for every file and every option, in terms of the map's records:
  no record past the end is one behind a hole that a run of whole buffers comes to. Quick checks are
  `ScanEnd.EndsWithoutTail` and `ScanEnd.EndsOnGrid` for ending, `ScanEnd.TailOvershoots` for not ending.
  `ScanExamples.SwallowedTail` is a file on the block grid, `ScanExamples.SwallowedOffGrid` one with 96 KiB blocks.
- Without block hashing and with a block size that does not divide the buffer, the offset leaves the block grid
  with the first full buffer. A file's digest is the same with block hashing on and off, for all files, if and
  only if the block size divides the buffer (`DigestOptions.DigestIgnoresBlocks`);
  `DigestOptions.UnevenDigests` is a file for every other pair.
- Hole blocks are described in the digest and not read (src/file_scan.c:3235-3244). But a buffer in which something
  is preallocated and nothing is data is taken as zeroes whole, the holes in it included. The digest is the block
  grid's if and only if no run of whole buffers comes to one that is faked over a hole block or over bytes that are
  not zero (`GridDigest.StreamIsGridStream`). Exactly then preallocation does not show, and the same file with its
  blocks written has the same digest (`GridDigest.PreallocationShows`). Where the kernel reads zeroes for what is
  not data, the condition is one on the map alone (`GridDigest.StreamOverHoles`); no file meets it amiss if and only
  if the buffer holds one block (`GridDigest.BuffersOfOneBlock`). The buffer is 1 MiB (src/file_scan.c:515):
  `ScanExamples.HoleTaken` is a file for it with 4 KiB blocks. Over all buffer lengths,
  `GridDigest.DigestIgnoresBuffer`. Block sizes begin at 4 KiB (src/file_scan.h:12); these theorems ask for more
  than the 16 bytes of a hole's descriptor.
- A later run can change a group's leading extent: exactly when its file turns out to have a whole-file duplicate
  (`ExtentWindows.LeaderStays`, `ExtentWindows.LeaderLeaves`). The comment at src/dbfile.c:1173-1176 only
  thinks of a copy that would outrank it.
- `store_file_row()` does not look at whether removing a file's old hashes failed. If SQLite dropped the
  transaction over it, the row written next is durable outside any kept unit (`WriteUnits.IgnoredFailure`). What is
  durable is a prefix of the units kept if and only if no unit stores a row after a statement of its own made
  SQLite drop the transaction (`WriteUnits.DurableIsPrefix`); the calls of `store_file_row()` do so exactly if the
  removal drops it and the row goes in (`WriteUnits.StoreFileRowWritesOn`).
- Two ranges can count as shared and hold different bytes: if a record that matches is ENCODED on either side
  (`Fiemap.EncodedMayDiffer`) or UNWRITTEN on one side only (`Fiemap.UnwrittenMayDiffer`). Otherwise the bytes are
  equal, and exactly then (`Fiemap.ShareMeansEqualBytes`). The comment at src/fiemap.c:567-572 says as much of the
  first.
- A destination of a dedupe group can be credited again for storage another one was credited for: exactly when
  memory for the address set was refused in between (`PhysSet.CreditedExactly`, `PhysSet.CreditedOnce`).
- A destination the kernel gave fewer bytes than the round's most is asked next at its own offset, while the source
  moves on by the most (src/dedupe.c:333-355): the two ranges are then out of step. A queued request is in step if
  and only if every round gave it the most (`Dedupe.DedupeCtxt.AskedInStep`), and only such a one gets all its
  bytes; `Dedupe.OutOfStep` is a kernel that breaks it.

## Model

| member | source | states |
|---|---|---|
| Grid.RoundDownIsDivision | src/file_scan.c:3281 | quotient times block size is the last grid point at or before an offset |
| Grid.RoundUpIsDivision | src/file_scan.c:3303 | the other quotient form is the first grid point at or after it |
| Layout.GetExtent | src/fiemap.c:71-96 | whatever the resume cursor holds, the answer is that of a scan from index 0 |
| Layout.ReachingUnique | src/fiemap.c:60-70 | an index whose predecessor ends by the offset and that reaches past it is that answer |
| Layout.IsAreaIgnored | src/file_scan.c:3198-3224 | true exactly if no byte of the area is backed by data and some preallocated or inline record overlaps it |
| ScanSpec.Job.PassAdvances | src/file_scan.c:4132-4216 | every pass moves the offset and keeps it on the block grid; only a hole skip can pass the end of the file |
| ScanSpec.Job.ReadAdvances | src/file_scan.c:3511-3555 | a read pass consumes something, stays in the buffer and short of the next all-hole block |
| ScanTheorems.ReadCapStable | src/file_scan.c:3511-3519 | a cached read cap is what computing it again at the present offset would give |
| ScanTheorems.NoHoleBelowReadCap | src/file_scan.c:3523-3529 | no grid block before the read cap is a hole, so leftover bytes never meet a hole skip |
| ScanEnd.Lands | src/file_scan.c:4132-4216 | a pass goes one whole buffer on if one fits, else to the next hole, over the hole, or to the end |
| ScanEnd.ScanEnds | src/file_scan.c:3260-3282 | for every file and every option, the scan ends at the file size if and only if no record whose block begins past it is where reading starts anew behind a hole |
| ScanEnd.VisitsExactly | src/file_scan.c:4132-4216 | the scan reads or fakes at exactly the offsets that a run of whole buffers from such a record, or from the start, comes to |
| ScanEnd.EvenSpacing | src/file_scan.c:3479-3485 | on the grid the whole buffers behind such a record are evenly spaced, so that is an arithmetic check |
| ScanEnd.EndsWithoutTail | src/file_scan.c:3268-3281 | it does end there if no record's block begins past the end |
| ScanEnd.EndsOnGrid | src/file_scan.c:3268-3281 | and on the grid if no block boundary lies between the data and the end |
| ScanEnd.TailOvershoots | src/file_scan.c:3268-3281 | it ends at the record past the end, whatever the options, if data is followed by a block of hole and then that record |
| ScanExamples.SwallowedTail | src/file_scan.c:3268-3281 | a 6000-byte file on which it ends at 12288, against the comment |
| ScanExamples.SwallowedOffGrid | src/file_scan.c:3479-3485 | one with 96 KiB blocks that only an unaligned offset makes overshoot |
| DigestOptions.SameScan | src/file_scan.c:3329-3331 | if the block size divides the buffer, the scan makes the same passes and digest with block hashing on and off, whatever the layout |
| DigestOptions.UnevenDigests | src/file_scan.c:3329-3331 | for every block size that does not, a file whose two digests differ |
| DigestOptions.DigestIgnoresBlocks | src/file_scan.c:3329-3331 | so block hashing leaves every file's digest alone if and only if the block size divides the buffer |
| GridDigest.GridShorter | src/file_scan.c:4149-4158 | between two grid points the grid's stream is never longer than the bytes, and shorter if a block there is a hole |
| GridDigest.PassOnGrid | src/file_scan.c:3479-3502 | a pass feeds what the grid has there, unless it is faked over a hole or bytes that are not zero; then it feeds more, or other bytes |
| GridDigest.StreamFrom | src/file_scan.c:4132-4216 | from any offset on the digest is the grid's exactly if no pass still to come is amiss |
| GridDigest.StreamIsGridStream | src/file_scan.c:3479-3502 | the file digest is the bytes of the blocks that are no hole and one descriptor per run of those that are, if and only if no run of whole buffers comes to one that is faked amiss; for every map |
| GridDigest.PreallocationShows | src/file_scan.c:3479-3502 | exactly then a file has the digest of the same file with its preallocated and inline records written |
| GridDigest.StreamOverHoles | src/file_scan.c:3479-3502 | where what is not data reads as zeroes, exactly if none is faked over a hole block |
| GridDigest.DigestIgnoresBuffer | src/file_scan.c:3479-3485 | then all buffers that keep to the grid give one digest if and only if none of them is faked over a hole block |
| GridDigest.HoleFaked | src/file_scan.c:3479-3502 | for every block size and a buffer of two blocks or more, a file whose digest is not the grid's, nor that of the file written |
| GridDigest.BuffersOfOneBlock | src/file_scan.c:3479-3502 | every such file has the grid's digest if and only if the buffer holds one block |
| ScanExamples.HoleTaken | src/file_scan.c:515 | one with the program's buffer and 4 KiB blocks |
| HoleDescriptors.DescriptorTells | src/file_scan.c:4139-4153 | a descriptor tells a hole's offset and length, whatever they are in 64 bits |
| HoleDescriptors.HolesTold | src/file_scan.c:4139-4158 | two scans that have fed the same bytes and then skip holes of different place or length end with different digests |
| HoleDescriptors.StreamTellsHoles | src/file_scan.c:4139-4153 | from the same data the grid's stream tells all holes: the same stream means the same holes |
| HoleDescriptors.SparseLayoutShows | src/file_scan.c:4139-4153 | two files of one size with identical data have the same digest if and only if they have the same holes, nothing being faked amiss |
| ScanRows.ExtentRowsComplete | src/file_scan.c:3350-3467 | a finished scan has one row for each data record starting before the end of the file, covering exactly its bytes up to its end or the file's, and no other row |
| ScanRows.BlockRowsExact | src/file_scan.c:3322-3348 | the block rows are those of the grid blocks that are no hole, hold data and are not skipped as zeroes, each once, with its own bytes |
| ScanRows.FakedBlocks | src/file_scan.c:3479-3502 | a faked buffer leaves no row out: each of its blocks is a hole or holds no data |
| ScanRows.SkippedBlocks | src/file_scan.c:4149-4158 | a skipped hole run leaves no block row out |
| ScanRows.SkippedRows | src/file_scan.c:4149-4158 | a skipped hole run crosses no extent row and no extent digest in progress |
| ScanRows.GapStep | src/file_scan.c:3403-3420 | hole bytes in the buffer change no extent row and belong to no extent digest |
| ScanRows.ExtentStep | src/file_scan.c:3422-3464 | the bytes of one record finish its row exactly when its end, or the file's, is reached |
| ScanRows.Leftover | src/file_scan.c:4208-4212 | what a pass leaves in the buffer is less than a block, and no hole begins in it |
| ScanRows.NoHoleInBuffer | src/file_scan.c:3511-3533 | no block starting in a filled buffer is a hole |
| ScanLoop.ScanCtxt.HoleRunLength | src/file_scan.c:3260-3282 | the length of the hole run at the offset, or 0 if the block there is no hole |
| ScanLoop.ScanCtxt.NextHoleBlock | src/file_scan.c:3290-3307 | the first all-hole block at or after an offset, or the file size; the search ends |
| ScanLoop.ScanCtxt.RefreshReadCap | src/file_scan.c:3511-3519 | cached or not, the cap afterwards is the fresh one, past the offset |
| ScanLoop.ScanCtxt.MoveLeftovers | src/file_scan.c:3504-3507 | the leftover bytes stand at the front of the buffer |
| ScanLoop.ScanCtxt.ReadMore | src/file_scan.c:3535-3543 | the buffer holds the file's bytes from the offset on |
| ScanLoop.ScanCtxt.Fake | src/file_scan.c:3494-3501 | the buffer is that many zeroes |
| ScanLoop.ScanCtxt.TopUp | src/file_scan.c:3504-3543 | the buffer ends where it is full or the read cap is; the assertion that the read position is within the cap holds |
| ScanLoop.ScanCtxt.FillBuffer | src/file_scan.c:3476-3556 | what is in the buffer depends on the offset alone, whatever was left over, cached or hinted; the end of the file is told exactly |
| ScanLoop.ScanCtxt.IsBlockZeroed | src/file_scan.c:2842-2845 | comparing a block with itself moved by one byte tells whether it is all zero |
| ScanLoop.ScanCtxt.ProcessBlock | src/file_scan.c:3334-3342 | a whole block adds a row unless nothing in it is data or it is skipped as zeroes |
| ScanLoop.ScanCtxt.ProcessBlocks | src/file_scan.c:3322-3348 | the rows added are those of ScanPass.BlockPass for the whole blocks of the buffer, and how many bytes they are |
| ScanLoop.ScanCtxt.ProcessLastBlock | src/file_scan.c:4183-4198 | the partial block at the end of the file gets its row whatever it holds |
| ScanLoop.ScanCtxt.ProcessExtents | src/file_scan.c:3373-3467 | rows and digest in progress are those ScanPass.ExtentPass makes of the buffer's bytes and whatever digest there was |
| ScanLoop.ScanCtxt.ConsumeExtents | src/file_scan.c:4202-4207 | with the offset's rows and digest before, they are those of the new offset after |
| ScanLoop.ScanCtxt.ProcessRecord | src/file_scan.c:3422-3464 | the part of the buffer inside one record leaves the rest of the pass to do exactly what is left |
| ScanLoop.ScanCtxt.AddToExtent | src/file_scan.c:3430-3436 | the digest in progress, or a new one, takes exactly the next bytes |
| ScanLoop.ScanCtxt.StoreExtent | src/file_scan.c:3350-3371 | a data extent's row carries the digest in progress, which is then used up; a skipped one leaves nothing that is stored |
| ScanLoop.ScanCtxt.SkipHole | src/file_scan.c:4149-4158 | a hole skip is the memoryless pass at that offset |
| ScanLoop.ScanCtxt.ConsumeBlocks | src/file_scan.c:4174-4200 | a read pass adds the rows of its bytes, which makes them those of the new offset, and consumes the bytes of the pass |
| ScanLoop.ScanCtxt.Pass | src/file_scan.c:4132-4216 | one turn of the loop is the memoryless pass at that offset and keeps every row and digest exact |
| ScanLoop.ScanCtxt.ReadPass | src/file_scan.c:4160-4216 | the same for a pass that reads or fakes |
| ScanLoop.ScanCtxt.Consume | src/file_scan.c:4202-4212 | extents and offset take the pass's bytes, the rest is left over |
| ScanLoop.ScanCtxt.Hash | src/file_scan.c:4132-4295 | the whole loop, from the start or a checkpoint, ends where the memoryless scan ends, with its digest stream and rows |
| ScanLoop.ScanCtxt.constructor | src/file_scan.c:4060-4100 | a scan begins at 0 or takes up a checkpoint's offset, digests and rows |
| ResumeProof.RollBack | src/dbfile.c:2297-2307 | dropping rows at and past a checkpoint leaves exactly the rows of its offset, whatever blocks had overflowed since |
| ResumeProof.NeverDeclined | src/file_scan.c:3082-3148 | the layout always backs a checkpoint of this version: adopt_resume() does not decline it |
| ResumeProof.StartKeeps | src/file_scan.c:2138-2204 | taking a file up, resumed or anew, keeps rows, digests and checkpoint in agreement |
| ResumeProgress.TakesUpWhereSaved | src/file_scan.c:2188-2202 | taking a file up goes on at its checkpoint, or at 0 without one |
| ResumeProgress.AdoptedExactly | src/file_scan.c:3082-3148 | whatever the map is now, a checkpoint is adopted exactly if its digest is of a record that is still there around its offset, or it has none and no data record is around it |
| ResumeProgress.ChangedStartsOver | src/file_scan.c:2138-2204 | a file whose size changed or whose map does not back the checkpoint starts anew, with no rows |
| ScanPass.ExtentPassRight | src/file_scan.c:3373-3467 | feeding a pass's bytes to the digest of its offset, record by record, yields the rows finished by them and the digest of the new offset |
| ScanPass.PassExtentsRight | src/file_scan.c:3373-3467 | a worker that holds the offset's digest gets the next offset's rows and digest from its pass, hole skip or not |
| ScanPass.BlockPassSplit | src/file_scan.c:3322-3348 | bytes cut at a block boundary add the rows of both parts |
| ScanPass.BlockPassRight | src/file_scan.c:3322-3348 | cutting the bytes into blocks and looking at each adds exactly the stored blocks of the range |
| ScanPass.PassBlocksRight | src/file_scan.c:4174-4200 | so a pass's block rows are those of the next offset |
| ResumeProof.PassKeeps | src/file_scan.c:3150-3176 | a pass, with rows and digest computed from the digest in hand, keeps that too, with any part of the staged block rows overflowing into the batch |
| ResumeProof.SaveKeeps | src/file_scan.c:2951-3013 | so does a checkpoint |
| ResumeProof.FinishKeeps | src/file_scan.c:4285-4390 | so does storing the finished file |
| ResumeProof.StepKeeps | src/file_scan.c:2938-3013 | and commits and kills: every step keeps the invariant |
| ResumeProof.RunKeeps | src/file_scan.c:2938-3013 | hence it holds throughout every run |
| ResumeProof.RowsDistinct | src/file_scan.c:2132-2137 | no row is in the hashfile twice |
| ResumeProof.KillsDoNotShow | src/file_scan.c:2938-2950 | after any kills, commits and resumes a file with a digest has the rows and digest of one uninterrupted scan, no row is ever twice there, and no checkpoint is ever declined |
| ResumeProof.LeftAlone | src/file_scan.c:4132-4278 | from any such state the remaining passes end and store those rows |
| ResumeProgress.ResumesWhereSaved | src/file_scan.c:3140-3147 | over any run, whenever the file is taken up the worker begins where the batch's checkpoint is |
| ResumeProgress.SavesAll | src/file_scan.c:2951-3013 | a checkpoint claims all that has been hashed, and is in the hashfile at once |
| ResumeProgress.NeverFalls | src/file_scan.c:2938-2950 | what the hashfile claims never becomes less, until the file is finished |
| ResumeProgress.KillCosts | src/file_scan.c:2938-2950 | so whatever is killed, no worker begins before the last checkpoint: a kill costs only the passes since |
| ResumeProgress.FinishedForGood | src/file_scan.c:4285-4390 | once a finished file is committed, no later kill or resume takes it back |
| ResumeLoop.LoopReady | src/file_scan.c:3082-3148 | what a resume restores is what the scan loop asks of the offset, digest and rows it starts from |
| ResumeLoop.CarryOn | src/file_scan.c:4132-4295 | the loop itself, started from there, finishes exactly if an uninterrupted scan does, with the same table |
| ResumeLoop.TakeUpAgain | src/file_scan.c:2138-2204 | and so it does after any run of kills, commits and resumes |
| ResumeProof.InlineOnePass | src/file_scan.c:4335-4343 | an inline file is hashed in one pass, so none of its blocks can have been flushed before |
| LayoutCopy.LayoutKey | src/fiemap.c:583-635 | a key exists exactly for maps of usable records, and is their size, count, places and content flags |
| LayoutCopy.KeyOnFlags | src/fiemap.c:567-577 | which flags keep a map from having a key, by name, and which are not part of it |
| LayoutCopy.LayoutMatches | src/dbfile.c:2499-2532 | true exactly if the donor's rows are this file's records one by one, and there are some |
| LayoutCopy.EqualKeysVouch | src/fiemap.c:609-628 | equal keys mean equal size, count and content flags |
| LayoutCopy.SameContent | src/file_scan.c:3558-3573 | equal records that can be keyed, on one disk, mean equal bytes |
| LayoutCopy.CopyEqualsHash | src/file_scan.c:3762-3820 | the copied extent rows, block rows, digest and extent count are what hashing the file would store |
| Fiemap.GapIsHole | src/fiemap.c:322-327 | what gap_at() reports is unallocated throughout |
| Fiemap.AgreeOnRecords | src/fiemap.c:377-387 | two bytes agree exactly if no record covers either, or the same records do, at one address and as far in, neither UNKNOWN, DELALLOC nor DATA_INLINE |
| Fiemap.MapsShare | src/fiemap.c:348-406 | true exactly if byte by byte both ranges are holes or at the same place of the same stored extent; it ends |
| Fiemap.Compare | src/fiemap.c:358-406 | the walk itself, for maps that are there |
| Fiemap.ShareSymmetric | src/fiemap.c:348-406 | which range is called the target does not matter |
| Fiemap.ShareMeansEqualBytes | src/fiemap.c:329-347 | two files with maps that share must hold equal bytes there if and only if no records that match are ENCODED or UNWRITTEN on one side only |
| Fiemap.Differ | src/fiemap.c:329-347 | where such records match, two contents the maps back, with different bytes at that place |
| Fiemap.EncodedMayDiffer | src/fiemap.c:342-344 | two files in different parts of one encoded extent that count as shared and differ |
| Fiemap.UnwrittenMayDiffer |  src/fiemap.c:377-387 | so do a written record and a preallocated one at the same address |
| PhysSet.SortUniq | src/fiemap.c:408-420 | in place, the entries sorted and without repeats |
| PhysSet.Compact | src/fiemap.c:496-500 | in place, equal neighbours collapsed |
| PhysSet.UniqueProps | src/fiemap.c:408-420 | of a sorted sequence that leaves a strictly rising one with the same elements |
| PhysSet.MergedProps | src/fiemap.c:484-493 | the backward merge of two strictly rising sequences is rising and has the elements of both |
| PhysSet.CreditCounts | src/fiemap.c:539-560 | a credit is the number of bytes of the range in records that are UNKNOWN, DELALLOC, DATA_INLINE or at an address not seen |
| PhysSet.AddressSet.constructor | src/fiemap.c:422-445 | the set starts as the target's addresses, sorted and unique, or empty without map or memory |
| PhysSet.AddressSet.Grow | src/fiemap.c:471-482 | the grown array holds the same entries |
| PhysSet.AddressSet.MergeBackwards | src/fiemap.c:484-493 | in place, without overwriting what is still to be merged |
| PhysSet.AddressSet.Merge | src/fiemap.c:463-501 | the set stays sorted and unique and becomes the union, or stays as it was without memory |
| PhysSet.AddressSet.Measure | src/fiemap.c:539-560 | the bytes of the range on addresses not in the set or without one, and those addresses |
| PhysSet.AddressSet.UnsharedBytes | src/fiemap.c:525-565 | those bytes are credited, and those addresses join the set exactly if there was memory for their list, and for the set or room in it |
| PhysSet.AddressSet.MeasureAll | src/fiemap.c:503-524 | over a group's destinations the set and the credits are those of the sequence with its refusals; with memory all addresses join |
| PhysSet.CreditedIsUnseen | src/fiemap.c:552-559 | a destination is credited for exactly the addresses it has bytes on that were not seen before |
| PhysSet.SeenExactly | src/fiemap.c:503-524 | over any destinations, an address is accounted for exactly if the target is on it or some destination on it joined the set |
| PhysSet.CreditedExactly | src/fiemap.c:508-511 | a destination is credited for an address it uses exactly if the target is not on it and no earlier destination on it joined |
| PhysSet.CreditedOnce | src/fiemap.c:508-511 | a credited address is credited again exactly if neither that destination nor any between joined; so once for those that did |
| Dedupe.RoundConserves | src/dedupe.c:319-352 | a round loses and duplicates no request and adds exactly the bytes the kernel reported |
| Dedupe.AnswerDoes | src/dedupe.c:327-351 | an answer with a status, or one that gives the last bytes, ends its request with that status; any other queues it again behind what it was given |
| Dedupe.ShareableIsBlocks | src/dedupe.c:186-196 | from one block up, whole blocks, less than one short of the range; a shorter range as it is |
| Dedupe.RoundWithin | src/dedupe.c:327-357 | each request stays as far into its file as into the work, and its total plus the rest within the clamped length |
| Dedupe.RoundSteps | src/dedupe.c:327-357 | after a round the requests in step with the source are those that were and were given the most; one that left was behind if it ever was not |
| Dedupe.LeftFinished | src/dedupe.c:337-344 | a request leaves a round only with an error or all its bytes |
| Dedupe.NoBytes | src/dedupe.c:520-542 | a round of no bytes moves the source by none, and the other way round |
| Dedupe.DedupeCtxt.constructor | src/dedupe.c:197-234 | at most 119 destinations, nothing queued, the whole length to go |
| Dedupe.DedupeCtxt.AddExtent | src/dedupe.c:236-250 | the request is queued last, or not at all without memory |
| Dedupe.DedupeCtxt.AskedInStep | src/dedupe.c:300-316 | the next ranges of source and destination are as far into the work if and only if every round gave the destination the most |
| Dedupe.OutOfStep | src/dedupe.c:333-355 | an honest kernel after whose first answer a queued request is out of step |
| Dedupe.DedupeCtxt.RoundLength | src/dedupe.c:287-298 | a round asks for no more than is left and than 32 MiB |
| Dedupe.DedupeCtxt.Populate | src/dedupe.c:252-316 | everything queued goes into the request, in order and numbered; it never overflows |
| Dedupe.DedupeCtxt.Settle | src/dedupe.c:327-351 | one request is completed with its status or queued again |
| Dedupe.DedupeCtxt.ProcessDedupes | src/dedupe.c:319-367 | what is left after a round, and who goes on; under a block nobody does |
| Dedupe.DedupeCtxt.Clamp | src/dedupe.c:382-421 | the work ends where the source does, and is over if it lies past it |
| Dedupe.DedupeCtxt.FailInFlight | src/dedupe.c:470-483 | every request still in flight or queued is completed as failed, with what it had |
| Dedupe.DedupeCtxt.Ask | src/dedupe.c:499-518 | the answer is the kernel's to the request, or, where it refuses the first destination with EINVAL and whole blocks are another length, its answer to that one; neither goes past the end of the work |
| Dedupe.DedupeCtxt.Process | src/dedupe.c:520-527 | the lists are what the answers make of them, the totals are the bytes reported so far, and those given less than the most are remembered |
| Dedupe.DedupeCtxt.Round | src/dedupe.c:491-543 | a round keeps all requests, reports what the last answer gave, fails exactly if a call does, and if it moves bytes less is left |
| Dedupe.DedupeCtxt.Conclude | src/dedupe.c:500-527 | a failed call ends everything, and an answered one is applied to the lists |
| Dedupe.GenerousRound | src/dedupe.c:327-357 | if everybody is given all that was asked, everybody goes on in step or everybody is done |
| Dedupe.DedupeCtxt.Fail | src/dedupe.c:500-503 | a failed ioctl keeps all requests and what earlier rounds shared |
| Dedupe.DedupeCtxt.GiveUp | src/dedupe.c:539-542 | a round without progress completes what is queued |
| Dedupe.DedupeCtxt.DedupeExtents | src/dedupe.c:485-546 | for any kernel: it ends, every request is completed exactly once, no range passes the source's size, reported bytes are the requests' totals, only one always given the most gets all its bytes, nobody is completed without a reason, and it fails if and only if some call did; for a kernel that gives all that is asked, every request gets all its bytes with status 0 |
| Dedupe.DedupeCtxt.PopResult | src/dedupe.c:551-576 | results come in order, and freed bytes are never more than done bytes |
| Windows.TargetUnique | src/dbfile.c:1278-1284 | the election has one winner |
| Convergence.MovesOnRows | src/dbfile.c:1238-1298 | on the rows alone: a window moves a file if and only if it and the file it moves onto are of one group, that one is read-only if any is, has the fewest extents of those and then the lowest id, and the file is new in the window, or that one is and the file is older than the run |
| Windows.WindowOf | src/oans.c:1499-1542 | every generation of the run is in one of its windows |
| Convergence.TargetsStay | src/dbfile.c:1238-1242 | a target is never a destination, and a file has one target |
| Convergence.ExecResult | src/dbfile.c:1238-1242 | moves leave a file on its target's first storage if any moves it, else where it was |
| Convergence.AnyInterleaving | src/dbfile.c:1238-1242 | the order of a run's moves does not matter |
| Convergence.MemberMoved | src/dbfile.c:1270-1298 | some completed window loads, and moves, every member that is not on its target yet |
| Convergence.RunConverges | src/dbfile.c:1250-1257 | after any prefix of its windows a run leaves every group whose target is below the watermark converged below it |
| Convergence.FullRunConverges | src/dbfile.c:1244-1257 | after a complete run every duplicate group is on one storage |
| Convergence.ArrivalsKeep | src/dbfile.c:1250-1257 | files arriving above the watermark do not disturb that |
| Convergence.HistoryConverges | src/oans.c:1371-1399 | nor does any history of runs, complete or not, and arrivals |
| Watermark.DedupePhase.constructor | src/oans.c:1368-1369 | a phase starts at the stored watermark with no failed load |
| Watermark.DedupePhase.AdvanceSeq | src/oans.c:1371-1383 | the watermark only rises, and not past a window that did not load |
| Watermark.DedupePhase.LoadFailed | src/oans.c:1394-1399 | the lowest failed window is remembered |
| Watermark.DedupePhase.ReapOne | src/oans.c:1371-1383 | one more reaped batch moves the watermark to its end, or to the first failed window |
| Watermark.DedupePhase.Load | src/oans.c:1402-1469 | a failed load leaves the first failed window as the bound |
| Watermark.DedupePhase.ReapUpTo | src/oans.c:1371-1383 | exactly the batches that are complete, of those loaded, are reaped |
| Watermark.DedupePhase.Stream | src/oans.c:1478-1550 | what is reaped is the most any turn found complete; the watermark is the last cut before which every window was loaded and reaped; success means no load failed, and a run that is not interrupted, succeeds and finds all complete leaves the watermark at the last generation |
| Watermark.StridesExact | src/oans.c:1499-1500 | each window is a stride long, the last one up to the last generation |
| Watermark.WatermarkIsSafe | src/oans.c:1371-1399 | at that watermark the hashfile is converged |
| WorkTotal.WindowCopies | src/dbfile.c:1250-1269 | a window moves its own members, and the target's window the old ones too |
| WorkTotal.GroupTotal | src/dbfile.c:3075-3104 | however a run is split, its windows move the copies the query counts |
| WorkTotal.FormsAgree | src/dbfile.c:3059-3070 | the form without a window agrees with the other at watermark 0 |
| WorkTotal.FilesWorkExact | src/dbfile.c:3094-3117 | the whole-file byte total is the sum of length times (members - 1) over all windows and loaded groups |
| ExtentWindows.OrderedRows | src/dbfile.c:1186-1208 | the loader's order lists every row of the window once |
| ExtentWindows.OrderedRises | src/dbfile.c:1186-1208 | by generation, then file id, then rowid |
| ExtentWindows.LoadedRows | src/dbfile.c:1173-1208 | on the rows alone: what a window loads of a group are extents of one digest and length, of files without a whole-file duplicate; the first is before all such extents there are, and every other is new in the window |
| ExtentWindows.OneLeader | src/dbfile.c:1173-1176 | every window that loads a group puts the least of all its copies first |
| ExtentWindows.LoadedOnce | src/dbfile.c:1186-1208 | every other new copy is loaded exactly once over all windows, behind that leader |
| ExtentWindows.LeaderStays | src/dbfile.c:1174-1180 | later arrivals leave the leader in place if and only if its file does not become a whole-file duplicate |
| ExtentWindows.LeaderLeaves | src/dbfile.c:1012-1016 | which can happen: a copy of its file arrives, with its own extent row |
| ExtentWindows.ExtentsTotal | src/dbfile.c:3106-3121 | per group, the windows load what the query counts, in both its forms |
| ExtentWindows.ExtentsWorkExact | src/dbfile.c:3106-3121 | the extent byte total is exact for every table and split |
| ExtentWindows.PartsDisjoint | src/dbfile.c:3176-3184 | no file is counted in both parts |
| ExtentWindows.WorkTotalExact | src/dbfile.c:3157-3199 | the whole byte total is what all windows compare |
| HashTable.Table.constructor | src/file_scan.c:3668-3692 | an empty table of 1024 slots, or none without memory |
| HashTable.Table.Probe | src/file_scan.c:3633-3636 | the probe ends, at the key's slot or at a free one if the key is in none |
| HashTable.Table.Find | src/file_scan.c:3730-3744 | the value registered for a key, or none; the same loop as seen_inode() |
| HashTable.Table.Insert | src/file_scan.c:3628-3640 | a new key is added, a known one keeps its value |
| HashTable.Table.Grow | src/file_scan.c:3643-3666 | twice the slots and the same entries, or no change without memory |
| HashTable.Table.AddDonor | src/file_scan.c:3717-3727 | a donor is taken unless the table wants to grow and cannot |
| HashTable.Table.Mark | src/file_scan.c:4652-4664 | an inode is marked unless the last free slot would go; a slot always stays free |
| HashTable.Inserted | src/file_scan.c:3628-3640 | taking the slot a probe found leaves every key within reach of its probe |
| HashTable.FirstDonorWins | src/file_scan.c:3717-3744 | over any run a key answers with the first registration that was not turned away, and only then |
| HashTable.SeenExactly | src/file_scan.c:4598-4664 | over any run an inode is found exactly if some mark of it was not dropped |
| HashTable.NothingDropped | src/file_scan.c:4652-4664 | with memory to be had, exactly if it was marked |
| WorkQueue.BucketRange | src/file_scan.c:128-143 | every 64-bit size has one of the 64 buckets, and those under 1 MiB share the first |
| WorkQueue.BucketHalf | src/file_scan.c:106-110 | a size in the same or a higher bucket is more than half the other, or both are under 1 MiB |
| WorkQueue.ScanWorkq.constructor | src/file_scan.c:3930-3944 | an empty queue, not draining |
| WorkQueue.ScanWorkq.Push | src/file_scan.c:3834-3852 | the file is last in its class, and the mask names the non-empty classes |
| WorkQueue.ScanWorkq.HighestOccupied | src/file_scan.c:3870 | the mask's highest bit is the highest non-empty class |
| WorkQueue.ScanWorkq.Pop | src/file_scan.c:3855-3884 | the first file of that class, or nothing when all are empty |
| WorkQueue.ScanWorkq.Drain | src/file_scan.c:3946-3954 | no more files come |
| WorkQueue.LargestFirst | src/file_scan.c:91-110 | no file still queued has twice the work of the popped one, unless both are under 1 MiB |
| WorkQueue.ClassesAreFifos | src/file_scan.c:102-108 | over any interleaving what was pushed of a class is what was popped, then what is queued, in order |
| WorkQueue.DrainedIsDone | src/file_scan.c:3946-3963 | once the queue is empty every pushed file was handed out exactly as often |
| WorkQueue.EveryPopLargest | src/file_scan.c:91-110 | every pop of a run takes from the largest class there is |
| Walk.StepKeeps | src/file_scan.c:1688-1729 | every step of every thread keeps count, queues and markers in agreement |
| Walk.MarkerMeansDone | src/file_scan.c:1688-1695 | the stop marker comes at most once and after every file; no directory is queued or in process then, and each walker still there has one marker |
| Walk.ConsumerMissesNothing | src/file_scan.c:1990-2027 | the consumer stops only after every file the walk ever pushes |
| Walk.NeverHangs | src/file_scan.c:1885-1909 | while any thread is still there some thread can step |
| Walk.WalkEnds | src/file_scan.c:1963-2027 | a walk over finitely many files and directories takes a number of steps fixed by them, in every interleaving |
| Walk.StepCosts | src/file_scan.c:1885-1909 | only finding something makes more work, so aborted walks unwind too |
| WalkContents.QueueIsFound | src/file_scan.c:1885-1909 | in every interleaving the file queue has the files found, in the order they were |
| WalkContents.ConsumerTakesFound | src/file_scan.c:1990-2027 | when the consumer stops it has taken exactly those, and the marker |
| WalkContents.DirsConserved | src/file_scan.c:1688-1729 | every directory found has been taken by a walker, is queued, or is about to be |
| WalkContents.EveryDirWalked | src/file_scan.c:1688-1695 | at the stop marker each one has been walked as often as it was found |
| WriteUnits.ScanWriter.constructor | src/file_scan.c:278-291 | a writer with no transaction and no unit |
| WriteUnits.ScanWriter.BatchLost | src/file_scan.c:297-310 | a lost batch leaves what was durable and nothing open |
| WriteUnits.ScanWriter.Begin | src/file_scan.c:360-381 | a unit opens on the batch as it is, never inside another, and never after a batch was lost |
| WriteUnits.ScanWriter.Write | src/file_scan.c:260-275 | a statement joins the unit, or is durable on its own once SQLite has dropped the transaction |
| WriteUnits.ScanWriter.Release | src/file_scan.c:384-395 | a released unit is kept; if that fails the batch is lost |
| WriteUnits.ScanWriter.Flush | src/file_scan.c:398-410 | all units kept so far become durable, or none more and the batch is lost |
| WriteUnits.ScanWriter.End | src/file_scan.c:416-425 | the unit is kept, and the batch committed when it is due |
| WriteUnits.ScanWriter.Abort | src/file_scan.c:432-442 | the pending batch is as it was before the unit, or lost |
| WriteUnits.Perform | src/file_scan.c:260-275 | every call does to transaction and savepoint what it means for the history of units |
| WriteUnits.Run | src/file_scan.c:260-275 | over any calls and failures what is durable is the committed units kept, and then what came too late for one |
| WriteUnits.UnitStored | src/file_scan.c:360-425 | a unit whose writes succeed is kept whole; a due end or a flush makes it and all before it durable, an end that is not due leaves that for later, and a failed commit loses the batch |
| WriteUnits.UndercutExactly | src/file_scan.c:297-310 | the transaction is gone under the open unit exactly if one of its statements made SQLite drop it |
| WriteUnits.LateExactly | src/file_scan.c:260-275 | something is too late exactly if, by the calls, some unit stores a row after that |
| WriteUnits.DurableIsPrefix | src/file_scan.c:260-275 | what is durable is a prefix of the units kept if and only if no unit does |
| WriteUnits.NothingLate | src/file_scan.c:2922-2933 | none does if every unit ends at its first failed write |
| WriteUnits.LostForGood | src/file_scan.c:297-310 | kept and durable units stay so, and after a lost batch no unit opens and nothing is added |
| WriteUnits.AbortedLeavesNoTrace | src/file_scan.c:427-442 | an aborted unit, wherever it got to, leaves the units kept, and those durable, as they were before it |
| WriteUnits.StoreFileRowWritesOn | src/file_scan.c:2063-2098 | over any outcomes, store_file_row() stores a row too late exactly if the removal made SQLite drop the transaction and the row went in |
| WriteUnits.IgnoredFailure | src/file_scan.c:2081-2094 | those calls, in a batch with one kept unit: disciplined, and what is durable is no prefix of the units kept |
| BlockMatch.BlockLen | src/find_dupes.c:56-68 | a block's length is cut by the end of the file, and 0 past it |
| BlockMatch.FastForward | src/find_dupes.c:157-172 | it stops at the next equal pair, at the search length or where a file has no more blocks |
| BlockMatch.FollowRun | src/find_dupes.c:187-215 | it follows equal blocks as far as they are contiguous in both files and within the search length |
| BlockMatch.CompareExtents | src/find_dupes.c:137-257 | every match is a longest run of equal blocks, contiguous in both files, ending within the search length; every equal pair before the end of the search is in one; it ends, for one of four reasons |
| BlockMatch.MatchOnBlocks | src/find_dupes.c:157-237 | on the blocks alone: a match is of equal digests, contiguous in both files, and ends within the search length from where the search began; it cannot be extended either way |
| BlockMatch.StopsOnBlocks | src/find_dupes.c:143-257 | and the search stops only for lack of blocks, at the search length, at a gap, or at a run that goes past it |
| BlockMatch.MatchesAreEqualBytes | src/find_dupes.c:70-99 | the two ranges recorded are equally long and hold the same bytes |

## Left out

- System calls, SQLite's query engine, UUID and filesystem probing, signals: only their contracts are here, as parameters.
- Progress display, reports, JSON, option parsing, globs, vendored trees and lists: user interface and containers.
- XXH3: a digest is the bytes fed to it, so collisions are left out, and version 1 checkpoints with them.
- ResumeProof.KillsDoNotShow: content, layout and options do not change and writes succeed; a failed write after the staged rows were cleared (src/file_scan.c:2892-2910) is not covered. An inline file is taken to fit in a block, as the code asserts. The steps are modelled on values; ResumeLoop hands a resumed state to the loop's object and its one uninterrupted run.
- ScanLoop.ScanCtxt.Hash: the loop's interrupt and checkpoint branches are the steps of Resume; a failed read is left out.
- Convergence.HistoryConverges: between runs a target above the watermark is not deleted or changed.
- The mtime in a checkpoint and the display byte counters.
- GET_DUPLICATE_BLOCKS: its anchor is ordered by rowid, so the one-leader property does not apply.
- Watermark.DedupePhase.Stream: that batches complete in order is an assumption; src/run_dedupe.c is not part of this model.
- ScanLoop.ScanCtxt.StoreExtent: the empty row staged for a skipped extent, which is never stored, is not modelled.
- GridDigest.DigestIgnoresBuffer: the program's buffer is a constant; other lengths are here to say what depends on it. Scans off the grid are those of DigestOptions.
- PhysSet.CreditedExactly: a destination whose map could not be read uses no address and changes no set; it is one without records.
- HashTable.Table.Find: used bits and slots are one array, and the hash functions are any functions.
- WorkQueue.ScanWorkq.Pop: the condition variable's wait is the precondition; the intrusive links are a sequence per class.
- WorkQueue.ScanWorkq.Drain: joining the workers, which the code does after it, is not modelled.
- Dedupe.DedupeCtxt.DedupeExtents: the three linked lists are sequences, and a kernel is a function of the call's number and request.
- WriteUnits.ScanWriter.Begin: savepoint statements are taken to fail without dropping the transaction; only statements that read or write the database do that.
- WriteUnits.DurableIsPrefix: callers write only inside a unit and open none inside it, as all callers in src/file_scan.c do, and no two statements write the same row value.
- PhysSet.SortUniq: qsort() is its specification, and bsearch() a membership test.
- Layout.GetExtent: the form without a cursor, which is the one with a cursor of 0.
- HoleDescriptors.SparseLayoutShows: offsets are below 2^64 and block sizes multiples of 16, as those of the program are (src/oans.c:1068-1069).
- The group count of the progress line, which the code itself calls an estimate.
