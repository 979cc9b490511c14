# Verified models of the disk and card layers

These Dafny modules model the virtual disk engine of `sim_disk.c`, the card deck codec of
`sim_card.c` and the byte-order routines of `sim_fio.c`, and prove what a guest system relies on:
that a virtual hard disk is a flat array of bytes, that requests handed to the I/O thread are
carried out once, and that decks survive being punched and read.

`dafny verify dfyconfig.toml` checks everything.

## How the model is laid out

- **Virtual hard disks.** `VhdLayout` describes a store (geometry, block allocation table, bytes of
  the file) and the flat view it stands for, and proves the layout kept. `VhdTable` follows the
  table and the frame of the file through the writes, `VhdFormat` parses files and `VhdImages` has
  the headers of new ones. `Vhd` is the open disk: a class over a file, a table and an optional
  parent, with `Read` and `Write`. `VhdFiles` opens and creates disks, `VhdRuns` has whole runs,
  sessions and merging, and `VhdLife` puts them together. `VhdBytes` says once more what a file
  means, in bytes and sums only, and what is opened and shown is proved to agree with it. Formats
  follow the Virtual Hard Disk Image Format Specification 1.0, sections "Hard Disk Footer Format",
  "Dynamic Disk Header Format", "Block Allocation Table and Data Blocks" and "Appendix: CHS
  Calculation".
- **Sector transfers.** `ByteOrder` has the swap loops, `SectorIo` the raw container with its
  read-modify-write and the sector transfers of virtual disks.
- **The I/O thread.** `AsyncIo` is the two-thread protocol as a machine of atomic steps, from one
  point where the other thread can interfere to the next. A waiting thread wakes by a signal only.
- **Directory walkers.** `Rt11`, `Rsts` and `Interleave` read whatever a disk contains. `Rt11Bytes`
  has what an RT-11 disk says in terms of its bytes, to which the walk is proved equivalent.
- **The coverage test.** `SectorCoverage` fills a drive in a random order and reads it back.
- **Cards.** `CardCodes` has the tables, `Cards` the formats as functions on bytes, `CardLines` text
  and octal lines, `CardDecks` files of cards, and `CardReader` and `CardPunch` the code that reads
  and punches them. `CardText` says what lines mean without the way they are laid out, `CardBits`
  which holes the bits of the binary formats are.

Disks are constrained by a layout (`VhdLayout.Placed`, `VirtualDisks.Vhd.Valid`), and `CreateDisk`
and `CreateDifferencing` show that every disk they make satisfies it, `Write` and `Merge` that it
is kept.

## What the code does not do

Where the code falls short of what one would expect, the model keeps the code as it is and states
exactly when it does what it should:

- A dynamic header with a bad checksum or cookie is reported as the current `errno`; when that is
  zero a dynamic disk opens without a table (`VhdFormat.BadHeaderAccepted`).
- The buffer of a merge is sized by a 32-bit product and is too small for blocks of 8 MB and more
  (`VirtualDiskRuns.SmallBlocksFit`).
- A write that runs past the table reports no bytes, although those inside have been written
  (`VirtualDisks.Vhd.Write`).
- A transfer over the end of a fixed disk goes over its footer, and the disk may not open again
  (`VirtualDisks.Vhd.Write`).
- Handing over an asynchronous request looks for a callback outstanding, not for a request in
  progress. A request without a callback is executed on the spot and by the I/O thread
  (`AsyncIo.ExactlyOnce`), unless another overtakes it (`AsyncIo.Overtaken`); while it is finishing,
  the next request is lost and gets its status (`AsyncIo.LostRequest`), and its completion aborts
  when the next one is on its way (`AsyncIo.StaleCompletion`). `AsyncIo.AllExecuted` has the exact
  condition under which no request is lost.
- The size of a RSTS disk whose last cluster is free wraps in 16 bits (`Rsts.LoadAndScan`); free
  clusters in the first byte of the table are passed over.
- A special card for the end of information is punched in octal as an end of file, and other cards
  with only a first column as an end of record (`CardLines.OctalRoundTrip`).
- A tilde alone on a line takes the next card with it (`CardLines.EofTakesNextLine`).
- The card of rows 7 and 8 is named by `~78` only if a NUL follows (`CardText.SpecialReads`); an ordinary
  line `~78` is read as text.
- An error in the first column of a text card, or in the first byte of a column-binary card, is
  flagged in the column that is stored next, and lost (`CardLines.TextErrors`, `Cards.RecordFlags`).

## Model

| member | source | states |
|---|---|---|
| VirtualDiskRuns.RunWrites | src/SIMH/sim_disk.c:6259-6450 | any sequence of writes to a well-formed disk leaves it showing exactly what the same writes make of a flat byte array; it stays well formed, keeps room for every free block and stays fit to be opened again |
| VirtualDiskLife.Lifecycle | src/SIMH/sim_disk.c:5378-6450 | a disk is created and written to in any number of sessions, a child of it is created and written to in any number of sessions, and merged back: the disk, opened again, shows what all the writes would have made of a flat array of zeros |
| VirtualDiskRuns.RunSessions | src/SIMH/sim_disk.c:5378-5460 | any number of sessions of writes, each ended by closing and opening the file, add up to all their writes; the last handle is fit for more |
| VirtualDiskRuns.Session | src/SIMH/sim_disk.c:5378-5460 | after any sequence of writes, closing the file and opening it succeeds while the parent is unchanged, whatever `errno` is at the time; the new handle has the same file, parent, footer and header, is as fit for reading, writing and reopening, and shows what the writes made of the disk |
| VirtualDiskRuns.Merge | src/SIMH/sim_disk.c:5516-5554 | merging leaves what the child shows unchanged and the parent showing what the child showed before, for any placement of the blocks and with a clipped last block |
| VirtualDiskRuns.MergeBlock | src/SIMH/sim_disk.c:5523-5548 | one step writes the block into the parent and frees the entry of the child; the child shows the same before and after, and no other entry changes |
| VirtualDiskRuns.ReadBlock | src/SIMH/sim_disk.c:5530-5540 | what is read of an allocated block is the part of the view it stands for: the whole block, or of the last block what lies on the disk |
| VirtualDiskRuns.BlockSectorsExact | src/SIMH/sim_disk.c:5524-5534 | the 32-bit difference used to clip the last block gives the sectors of it that lie on the disk |
| VirtualDiskRuns.SmallBlocksFit | src/SIMH/sim_disk.c:5499-5501 | the buffer of a merge, sized by a 32-bit product, has room for a power-of-two block if and only if the block is below 8 MB |
| VirtualDisks.Vhd.Write | src/SIMH/sim_disk.c:6259-6450 | the view changes exactly on the bytes written, through zero-skipping, allocation and copy-up; only this file and this table are modified; free blocks never become more; a transfer behind the table ends with an end-of-file status and reports no bytes although those inside were written; a transfer over the end of a fixed disk leaves its file fit to be opened if and only if it writes the footer that is there |
| VirtualDisks.Vhd.WritePiece | src/SIMH/sim_disk.c:6312-6445 | one turn of the loop writes all its bytes, or none and uses up a free block: with the bytes left, the free blocks are the measure that makes the loop and the recursion end |
| VirtualDisks.Vhd.CopyUp | src/SIMH/sim_disk.c:6407-6424 | after the copy from the parent the view is what it was before the block was allocated, a clipped last block included |
| VirtualDisks.Vhd.Allocate | src/SIMH/sim_disk.c:6326-6406 | a new block shows zeros where it is and changes nothing else of the view, uses exactly one table entry, and keeps the footers, the header and the table of the file in order |
| VirtualDisks.Vhd.AppendBlock | src/SIMH/sim_disk.c:6338-6406 | the writes for a block, the moved footer and the table window amount to one allocation step of the store |
| VirtualDisks.Vhd.PlaceBlock | src/SIMH/sim_disk.c:6327-6373 | both alignment branches put bitmap and zeroed data where the layout says |
| VirtualDisks.Vhd.Read | src/SIMH/sim_disk.c:6128-6210 | a read that ends inside the disk returns exactly that slice of the view, across blocks and parents; bytes of the buffer outside the transfer are untouched; out-of-range offsets and bad block sizes are refused |
| VirtualDisks.Vhd.ReadPiece | src/SIMH/sim_disk.c:6171-6206 | one turn of the loop delivers bytes of the view: of the parent or zeros for a free block, of the file for an allocated one |
| VirtualDisks.Vhd.BufferIsZeros | src/SIMH/sim_disk.c:6247-6257 | true if and only if every byte is zero |
| VhdLayout.OverwriteView | src/SIMH/sim_disk.c:6431-6440 | overwriting part of an allocated block in the file patches the view there and nowhere else |
| VhdLayout.AllocateView | src/SIMH/sim_disk.c:6326-6374 | an allocation patches the view with one block of zeros |
| VhdLayout.AllocatePlaced | src/SIMH/sim_disk.c:6326-6381 | allocation keeps the layout: regions pairwise disjoint, behind the table and before the footer, data on 4096 boundaries |
| VhdLayout.OverwritePlaced | src/SIMH/sim_disk.c:6431-6440 | a write into an allocated block keeps the layout |
| VhdLayout.NewBlockFacts | src/SIMH/sim_disk.c:6338-6369 | in both branches a new block lies behind everything there is, with its data on a 4096 boundary and a bounded growth of the file |
| VhdLayout.NewBlockApart | src/SIMH/sim_disk.c:6338-6373 | the new block keeps clear of every block there was |
| VhdLayout.NewEntryFits | src/SIMH/sim_disk.c:6374-6374 | the sector number stored for a new block is never truncated by 32 bits and never the free mark |
| VhdLayout.CapacityBound | src/SIMH/sim_disk.c:5697-5700 | a disk within the creation limit of 2040 GB stays addressable whatever the order of its allocations, with the table where either creator puts it |
| VhdLayout.BytesInBlockExact | src/SIMH/sim_disk.c:6310-6311 | the 32-bit product and difference give the true number of bytes up to the end of the block, beyond 4 GB too |
| VhdLayout.BehindTable | src/SIMH/sim_disk.c:6307-6309 | only an offset behind the last block has no entry in the table |
| VhdLayout.BitmapAligned | src/SIMH/sim_disk.c:6330-6337 | a power-of-two bitmap is no longer than a storage page or a multiple of it, so the padded buffer aligns the data |
| VhdLayout.FreeShowsBase | src/SIMH/sim_disk.c:6178-6191 | a free block shows what lies under it |
| VhdLayout.BlockShowsFile | src/SIMH/sim_disk.c:6193-6201 | an allocated block shows the bytes of the file at the computed offset |
| VhdLayout.UnallocatedView | src/SIMH/sim_disk.c:6178-6191 | a disk without allocated blocks shows what lies under it |
| VhdLayout.MergeView | src/SIMH/sim_disk.c:5541-5549 | freeing a block whose bytes the parent has received does not change the view |
| VhdLayout.SameTable | src/SIMH/sim_disk.c:5180-5185 | the padding of the table in memory is never looked at |
| VhdTable.WindowCovers | src/SIMH/sim_disk.c:6384-6400 | for every table offset and entry the window written covers the changed entry, is made of whole entries and stays inside the padded table, both early-entry and small-table cases included |
| VhdTable.WindowMirrors | src/SIMH/sim_disk.c:6401-6406 | after one entry changes, writing the window leaves the table in the file equal to the table in memory |
| VhdTable.AllocationDone | src/SIMH/sim_disk.c:6341-6406 | the three writes of an allocation leave bitmap, data, footer and table window in the file and nothing else changed |
| VhdTable.AllocationMirrors | src/SIMH/sim_disk.c:6374-6406 | the table in the file follows the table in memory through an allocation |
| VhdTable.AllocationFrames | src/SIMH/sim_disk.c:6376-6381 | after an allocation the file still begins with both headers and ends with the footer |
| VhdTable.AllocationMarks | src/SIMH/sim_disk.c:6333-6337 | the sector bitmap of every allocated block is all ones |
| VhdTable.AllocationEffects | src/SIMH/sim_disk.c:6326-6406 | everything an allocation does and keeps, in one statement |
| VhdTable.OverwriteKeeps | src/SIMH/sim_disk.c:6434-6438 | a write into a block touches neither headers nor footer nor table |
| VhdFormat.ComputeChecksum | src/SIMH/sim_disk.c:5023-5033 | the loop over wrapping sums computes the one's complement of the 32-bit sum of all bytes |
| VhdFormat.SealIsSealed | src/SIMH/sim_disk.c:5132-5136 | the checksum a writer stores is the one the reader computes with the field cleared |
| VhdFormat.ParseFramed | src/SIMH/sim_disk.c:5118-5189 | a file framed by accepted headers and footer is parsed into them and the table in the file |
| VhdFormat.BadHeaderAccepted | src/SIMH/sim_disk.c:5160-5194 | a dynamic header that fails its own checks is reported as the current `errno`: the file is parsed without a table if and only if that is zero, and such a disk opens if and only if it has no parent besides |
| VhdFormat.ReadTableWord | src/SIMH/sim_disk.c:5179-5189 | each entry read is the word of the file at its place |
| VirtualDiskFiles.GetVhdFooter | src/SIMH/sim_disk.c:5084-5189 | refuses a file exactly when its bytes are not in order: a big-endian checksum that is not the complement of the sum of the other bytes, another cookie or disk type, a copy of the footer that differs; otherwise it takes the file apart |
| VirtualDiskFiles.OpenDisk | src/SIMH/sim_disk.c:5378-5460 | a handle is returned if and only if the bytes of the file are in order, none says that a state was saved and, for a child, the parent is there with the id and time of last change recorded; the handle has the last 512 bytes as its footer and the header they lead to |
| VirtualDiskFiles.Reopen | src/SIMH/sim_disk.c:5378-5460 | a disk whose file is in order opens again if and only if its parent is the one recorded, unchanged; the new handle has the same headers and shows the same contents |
| VirtualDiskFiles.ShowsFile | src/SIMH/sim_disk.c:6171-6206 | each byte of the view of a dynamic disk is the byte of its file that header and table lead to, as big-endian numbers, or that of the disk under it where an entry is all ones |
| VhdBytes.ParsesBytes | src/SIMH/sim_disk.c:5118-5189 | parsing refuses exactly the files whose bytes are not in order, by a definition with bytes and sums, and takes the others apart |
| VhdBytes.OpensBytes | src/SIMH/sim_disk.c:5378-5460 | a file opens if and only if its bytes are in order, by the same definition, with every refusal |
| VhdBytes.ChecksumIs | src/SIMH/sim_disk.c:5132-5136 | a checksum is right if and only if it is the complement of the sum of all other bytes modulo 2^32 |
| VhdBytes.TableBytesRead | src/SIMH/sim_disk.c:5179-5189 | the entries of the table are the big-endian numbers behind one another where the header says |
| VirtualDiskFiles.CreateDisk | src/SIMH/sim_disk.c:5678-5842 | fails if and only if the disk is beyond 2040 GB; otherwise the new disk is well formed, has that size and the id given, and reads as zeros |
| VirtualDiskFiles.CreateDynamic | src/SIMH/sim_disk.c:5780-5829 | the geometry and the free table of a new dynamic disk, laid out without gaps |
| VirtualDiskFiles.CreateFixed | src/SIMH/sim_disk.c:5770-5778 | a fixed disk is its zeros followed by the footer |
| VirtualDiskFiles.CreateDifferencing | src/SIMH/sim_disk.c:5947-6116 | a new child reads exactly as its parent, knows it again and has its block size; header, locator sectors, table and footer occupy disjoint ranges although a first layout was overwritten; every locator sector is in place |
| VirtualDiskFiles.MovedTable | src/SIMH/sim_disk.c:6035-6035 | moving the table to a storage page keeps the geometry sound, and the parent's table still covers every block of the child |
| VirtualDiskFiles.WriteChild | src/SIMH/sim_disk.c:6045-6094 | the writes over the first layout leave a complete fresh image with the locators between header and table |
| VhdImages.NewFooterFacts | src/SIMH/sim_disk.c:5714-5768 | the fields of a new footer read back as written, under a valid checksum |
| VhdImages.NewFooterBytes | src/SIMH/sim_disk.c:5714-5768 | the other fields of a new footer, byte by byte: features, version, creator, time, sizes, geometry and id |
| VhdImages.Be64Number | src/SIMH/sim_disk.c:5036-5058 | the bytes stored for a 64-bit number stand for that number, the highest first |
| VhdImages.ChsExact | src/SIMH/sim_disk.c:5729-5767 | the cylinders are the fewest that hold the sectors, the sectors of a track are 255 from 65535 * 16 * 63 sectors on and otherwise 63, 31 or 17, and the smaller numbers are taken only for fewer than 1024 cylinders |
| VhdImages.NewHeaderFacts | src/SIMH/sim_disk.c:5781-5792 | the fields of a new header read back as written, under a valid checksum |
| VhdImages.NewHeaderBytes | src/SIMH/sim_disk.c:5781-5792 | the remaining fields of a new header, byte by byte: no offset of further data, and the version |
| VhdImages.ChildFooterFacts | src/SIMH/sim_disk.c:6038-6043 | only the disk type of the fields read back changes, under a valid checksum |
| VhdImages.ChildFooterBytes | src/SIMH/sim_disk.c:6038-6043 | the footer of a child has the drive type, sector size and transfer size of its parent; but for these, the disk type and the checksum no byte changes |
| VhdImages.ChildHeaderFacts | src/SIMH/sim_disk.c:6018-6037 | only the table offset of the layout fields changes, the id and time of the parent read back as recorded, under a valid checksum |
| VhdImages.ChildHeaderBytes | src/SIMH/sim_disk.c:6018-6037 | the name of the parent and the locators are in their places in the header of a child, and what is behind them does not change |
| VhdImages.ChsCovers | src/SIMH/sim_disk.c:5729-5767 | the CHS geometry fits its 16, 8 and 8 bits and addresses every sector it can |
| SectorIo.RawDisk.WriteSectors | src/SIMH/sim_disk.c:848-884 | through either path the container changes exactly on the bytes of the sectors, where it has the items of the caller little endian, byte by byte and on either kind of host; `sects` are reported |
| SectorIo.RawDisk.WritePartial | src/SIMH/sim_disk.c:863-883 | the read-modify-write around larger storage sectors is one flat update; every access stays inside the temporary buffer |
| SectorIo.RawDisk.ReadSectors | src/SIMH/sim_disk.c:716-748 | through either path exactly the bytes of the sectors arrive, byte by byte in the order of the host if they are little endian in the container; `sects` are reported |
| SectorIo.RawDisk.ReadPartial | src/SIMH/sim_disk.c:727-748 | the slice is swapped and copied out of the fetched storage sectors |
| SectorIo.RawDisk.WholeTransferExact | src/SIMH/sim_disk.c:849-851 | the alignment test on products that wrap at 32 bits decides as the true products would |
| SectorIo.MergedWrite | src/SIMH/sim_disk.c:873-879 | writing back whole storage sectors with the new bytes laid over them is writing the new bytes |
| SectorIo.WriteVhdSectors | src/SIMH/sim_disk.c:6452-6478 | writing sectors patches the view with the items of the caller in little-endian order, byte by byte and on either kind of host; `sects` are reported |
| SectorIo.ReadVhdSectors | src/SIMH/sim_disk.c:6212-6237 | reading sectors returns that slice of the view, its little-endian items byte by byte in the order of the host |
| SectorIo.VhdRoundTrip | src/SIMH/sim_disk.c:833-842 | what is written to sectors of a virtual disk comes back, on either kind of host and for any element size |
| SectorIo.OnDiskOrderTwice | src/SIMH/sim_disk.c:724-724 | putting bytes in disk order twice gives them back |
| ByteOrder.SwapInPlace | src/SIMH/sim_fio.c:123-147 | the in-place loops leave each byte where little-endian items have it: in its place on a little-endian host, counted from the other end of its item on a big-endian one; nothing else is touched |
| ByteOrder.CopySwapped | src/SIMH/sim_fio.c:162-181 | the copying loops put each byte where little-endian items have it, as the in-place swap does |
| ByteOrder.DiskOrderTwice | src/SIMH/sim_fio.c:123-128 | the swap is its own inverse for every item size and count |
| ByteOrder.DiskOrderBytes | src/SIMH/sim_fio.c:123-128 | byte by byte, disk order is that of little-endian items: byte `i` is the same on a little-endian host and byte `i / size * size + size - 1 - i % size` on a big-endian one |
| AsyncIo.Safety | src/SIMH/sim_disk.c:195-327 | in every state callers that keep the rule can reach: no abort, at most one request outstanding, requests executed once each and in order, callbacks once each with the status of their own request, and nobody asleep on work or completion |
| AsyncIo.RunInv | src/SIMH/sim_disk.c:232-300 | the invariant holds after every run |
| AsyncIo.StepInv | src/SIMH/sim_disk.c:232-300 | every step of either thread keeps the invariant |
| AsyncIo.ClrWaitsForRequest | src/SIMH/sim_disk.c:616-640 | when turning asynchronous operation off returns, every accepted request has been executed |
| AsyncIo.Returned | src/SIMH/sim_disk.c:313-327 | whatever callers do: when a cancel has returned, the I/O thread is done with the request that was pending; when turning asynchronous operation on has returned, that thread waits for work, and when turning it off has, it is gone |
| AsyncIo.CancelCarriesOut | src/SIMH/sim_disk.c:313-327 | for callers that keep the rule, when a cancel has returned every request handed over has been executed, in order |
| AsyncIo.CancelBlocks | src/SIMH/sim_disk.c:318-323 | a cancel while a request is pending makes the simulator thread wait, and only the end of that request wakes it |
| AsyncIo.DispatchCallsBack | src/SIMH/sim_disk.c:286-300 | the call back delivers the status of the request that was outstanding, once |
| AsyncIo.Progress | src/SIMH/sim_disk.c:313-327 | while the simulator thread waits some step can happen, and each such step brings the end of the wait nearer |
| AsyncIo.WaitEnds | src/SIMH/sim_disk.c:313-327 | every wait of the simulator thread can come to an end by steps of the I/O thread and returns alone, within a bound |
| AsyncIo.IssueAborts | src/SIMH/sim_disk.c:211-212 | handing over a request aborts if and only if an earlier one has not been called back |
| AsyncIo.ExactlyOnce | src/SIMH/sim_disk.c:195-273 | whatever callers have done before, a request handed over with no callback outstanding is executed, up to the next handover, on the spot if it has no callback and by the I/O thread unless that was just finishing another: so exactly once if and only if exactly one of the two holds |
| AsyncIo.RuleMakesItOnce | src/SIMH/sim_disk.c:195-273 | for callers that keep the rule every request is executed exactly once |
| AsyncIo.NothingElseLost | src/SIMH/sim_disk.c:195-273 | for any callers and any run, the requests handed over are those the I/O thread has executed, the one pending and those lost by being handed over, or followed by another, before the thread was done |
| AsyncIo.AllExecuted | src/SIMH/sim_disk.c:205-221 | with nothing pending, the I/O thread has executed all requests handed over if and only if each found it done with the one before, which the code does not look at |
| AsyncIo.AnyRun | src/SIMH/sim_disk.c:232-327 | in every state any callers can reach, the I/O thread attends to a request that is handed over and each thread is where its wait allows |
| AsyncIo.LostRequest | src/SIMH/sim_disk.c:211-220 | a request with a callback handed over while one without is finishing is never executed, and is called back with the status of the other |
| AsyncIo.Overtaken | src/SIMH/sim_disk.c:211-220 | a request without a callback followed at once by another is never executed by the I/O thread |
| AsyncIo.StaleCompletion | src/SIMH/sim_disk.c:293-294 | the completion of a request without a callback aborts when the next request is on its way |
| Rt11.WalkDirectory | src/SIMH/sim_disk.c:2168-2221 | the loop with its table of segments seen computes the walk on any disk contents: it terminates, every access is in bounds and no segment is used twice |
| Rt11.WalkFindsDirectory | src/SIMH/sim_disk.c:2168-2221 | the walk succeeds if and only if the segments form a complete directory, and then finds the highest block behind any entry |
| Rt11.EntriesForward | src/SIMH/sim_disk.c:2205-2212 | within a segment the block number never decreases |
| Rt11.ScanSegment | src/SIMH/sim_disk.c:2196-2214 | the loop with its 16-bit overflow test computes the end of a segment |
| Rt11.SegmentEndBytes | src/SIMH/sim_disk.c:2196-2214 | in bytes: if `n` entries of 14 bytes and those the header adds stand in front of an end mark or of the end of the segment, their end is the start block and the sum of their lengths, or nothing if that takes more than 16 bits |
| Rt11.WalkEnds | src/SIMH/sim_disk.c:2168-2221 | in bytes: the walk ends at a block if and only if the links lead from the first segment along different segments in use to one without a link, and it is the highest block their entries end at |
| Rt11.WalkUnreadable | src/SIMH/sim_disk.c:2177-2185 | the walk gives up for a segment that cannot be read if and only if its links lead to one |
| Rt11.WalkBreaksOff | src/SIMH/sim_disk.c:2177-2185 | the same in bytes |
| Rt11.LookBytes | src/SIMH/sim_disk.c:2107-2125 | a partition holds a file system, to a certain block and alone on its disk or not, exactly when identification, version and directory in its blocks say so |
| Rt11.FileSystemSize | src/SIMH/sim_disk.c:2150-2232 | in bytes: the size is that to the end of the last file system among the partitions the scan comes to, or -1 if there is none; where the scan stops is stated exactly; with a directory of one segment on a disk of one partition it is 512 times the start block and the sum of all lengths |
| Rsts.LoadBitmap | src/SIMH/sim_disk.c:1916-1942 | on any contents, a cyclic chain included, the load ends; the bitmap then holds the first blocks of the file in order and is untouched behind them, and all blocks asked for are there or the file has no more |
| Rsts.LoadCluster | src/SIMH/sim_disk.c:1932-1941 | offset and blocks left stay in step and within the bitmap |
| Rsts.LoadEntry | src/SIMH/sim_disk.c:1926-1942 | the clusters of one retrieval entry are read in order up to the first empty place |
| Rsts.BlockOfEntry | src/SIMH/sim_disk.c:1923-1942 | block `k` of the file is block `k % clusterSize` of the cluster named by its place in its retrieval entry, seven to an entry behind the link |
| Rsts.ClusterOfEntry | src/SIMH/sim_disk.c:1929-1942 | the file ends at the first empty place or behind an entry without a link |
| Rsts.ByteOfBits | src/SIMH/sim_disk.c:1949-1949 | a byte of the table is the sum of its eight bits, each counting twice the one before it |
| Rsts.ClearInNumber | src/SIMH/sim_disk.c:1944-1952 | bit `k` of the table is bit `k` of the number its bytes make up, the first byte lowest |
| Rsts.ScanBitmap | src/SIMH/sim_disk.c:1944-1953 | finds the highest clear bit behind the first byte, and stores its successor in 16 bits |
| Rsts.LoadAndScan | src/SIMH/sim_disk.c:1901-1961 | the size reaches to the end of the highest free cluster if and only if that is not the last of the 65536, when 16 bits overflow |
| Rsts.ValidateClusterSize | src/SIMH/sim_disk.c:1742-1756 | accepts exactly the powers of two from the minimum up |
| Interleave.LogicalOfPhysical | src/SIMH/sim_disk.c:989-1001 | the sector map has an inverse, and puts a sector into its slot of the track behind its own |
| Interleave.PhysicalOfLogical | src/SIMH/sim_disk.c:989-1001 | every physical sector behind track 0 is hit |
| Interleave.Injective | src/SIMH/sim_disk.c:1021-1030 | no two logical sectors share a physical one, and none is on track 0 |
| Interleave.TrackOrder | src/SIMH/sim_disk.c:995-999 | within a track each slot is taken by exactly one logical sector |
| Interleave.InterleaveAndSkew | src/SIMH/sim_disk.c:995-999 | the next sector is two slots on and the next track begins six slots on, around the 26 slots; the thirteenth sector begins the other half of them |
| Interleave.ReadInterleaved | src/SIMH/sim_disk.c:980-1012 | a run is gathered from the mapped sectors in order, up to the first that cannot be read, which is counted too |
| SectorCoverage.Coverage.Fill | src/SIMH/sim_disk.c:6760-6803 | whatever the random numbers, the fill ends; no sector is written twice, every sector is written, and each holds its own number |
| SectorCoverage.Coverage.FillRun | src/SIMH/sim_disk.c:6773-6803 | a run claims sectors that were not set, numbers them and writes them, and the count of set bits stays exact |
| SectorCoverage.Coverage.Claim | src/SIMH/sim_disk.c:6779-6786 | sets bits up to the first one set already, and counts exactly those |
| SectorCoverage.Coverage.FindUnset | src/SIMH/sim_disk.c:6774-6775 | the search around the end of the drive ends at an unset sector, the next one if there is one behind the start |
| SectorCoverage.Coverage.Number | src/SIMH/sim_disk.c:6787-6789 | every number in the buffer belongs to its sector |
| SectorCoverage.Coverage.Check | src/SIMH/sim_disk.c:6804-6836 | the read-back finds the drive fine if and only if every sector holds its own number |
| SectorCoverage.SetShows | src/SIMH/sim_disk.c:6758-6759 | setting a bit of the bitmap words changes that bit and no other |
| SectorCoverage.StoredShows | src/SIMH/sim_disk.c:6787-6790 | after a run is written its sectors show their numbers and the others what they showed |
| SectorCoverage.Exercise | src/SIMH/sim_disk.c:6760-6842 | a drive that stores what is written to it passes the fill and the read-back, whatever the random numbers |
| CardCodes.Invert | src/SIMH/sim_card.c:1328-1347 | the table of characters gives for every code the last character that has it, or none |
| CardCodes.TableIsCoded | src/SIMH/sim_card.c:119-251 | in each of the three tables control characters have no code and only the blank has one without punches |
| Cards.BinaryRoundTrip | src/SIMH/sim_card.c:1155-1162 | a card punched in binary parses back, with nothing flagged |
| Cards.ColumnBinaryRoundTrip | src/SIMH/sim_card.c:1164-1176 | a card punched in column binary parses back if what follows it begins with a mark, with nothing flagged |
| Cards.ParityMeaning | src/SIMH/sim_card.c:406-416 | the parity table makes the number of bits of a punched byte odd |
| Cards.WindowDoesNotShow | src/SIMH/sim_card.c:994-1015 | a card parsed from a window of 500 bytes is the card of the whole file there, in every format |
| CardLines.TextRoundTrip | src/SIMH/sim_card.c:1093-1108 | a card whose columns all have characters survives as a line of text, trailing blanks trimmed, if and only if the line does not name a special card |
| CardLines.LowerIsWritable | src/SIMH/sim_card.c:820-838 | with lower case left alone every card whose columns have characters is one that can be written |
| CardLines.OctalRoundTrip | src/SIMH/sim_card.c:1110-1152 | a card survives as octal digits if and only if a column behind the first is punched or the first is empty, an end of record or an end of file |
| CardLines.EofTakesNextLine | src/SIMH/sim_card.c:747-852 | a tilde alone on its line is an end-of-file card, and the line behind it is skipped with it |
| CardLines.TextErrors | src/SIMH/sim_card.c:836-838 | a line of characters is read as one card, flagged as an error if and only if a character behind the first has no code |
| CardText.LineReads | src/SIMH/sim_card.c:805-841 | a line that leaves room on its card has in the columns of the card the codes of what the line is when tabs are filled up with blanks to a multiple of eight, NUL and CR are left out and, unless `lower` is set, small letters are capitals; the card is flagged for a character behind the first without a code |
| CardText.LongLineReads | src/SIMH/sim_card.c:845-852 | a line that fills the card is read as far as it does, and the rest is skipped with its end, be it LF, CR or both |
| CardText.TabbedLineReads | src/SIMH/sim_card.c:813-815 | for text, a tab and text: the codes of the first, blanks up to the next multiple of eight, the codes of the second |
| CardText.SpecialReads | src/SIMH/sim_card.c:789-804 | a tilde and eor, eof, eoi in either case, or 78 and a NUL, is the card with 0x007, 0x00D, 0x00F or 0x006 in its first column; the rest of the line is skipped |
| CardText.EndOfFileReads | src/SIMH/sim_card.c:747-769 | a tilde and blanks is an end-of-file card, and the line behind it is skipped with it |
| CardText.RawReads | src/SIMH/sim_card.c:771-788 | octal digits fill the columns four at a time, as numbers; any other character ends them and puts 0x2000 in the first column |
| CardText.LinesAreCards | src/SIMH/sim_card.c:992-1025 | a file of lines is the deck of the cards of its lines |
| CardText.LettersAndDigits | src/SIMH/sim_card.c:119-251 | in each of the three tables a digit has its own row and a letter a zone and a digit, small letters two zones |
| CardText.TextPunches | src/SIMH/sim_card.c:1093-1108 | a card is punched as the last characters with the codes of its columns, a question mark where there is none, without trailing blanks |
| CardText.OctalPunches | src/SIMH/sim_card.c:1110-1152 | a card is punched in octal by its name or as numbers of four digits, one to a column |
| CardBits.BinaryReads | src/SIMH/sim_card.c:856-873 | hole by hole: the lowest four rows of a column are in the upper half of its first byte, the others in its second; a one elsewhere flags the card |
| CardBits.BinaryPunches | src/SIMH/sim_card.c:1155-1162 | a card is punched in binary with those holes and nothing else |
| CardBits.RecordReads | src/SIMH/sim_card.c:885-917 | hole by hole: a record has six rows to a byte, the upper ones first, and no holes behind its end; it is flagged if a byte behind the first has an even number of ones or the record is longer than 160 bytes |
| CardBits.RecordPunches | src/SIMH/sim_card.c:1164-1176 | a card is punched in column binary with those holes, an odd number of ones in each byte and a mark on the first |
| CardBits.TapeMarkReads | src/SIMH/sim_card.c:877-883 | a byte of 0x8F in front of a mark or alone is an end-of-file card of one byte |
| Cards.RecordFlags | src/SIMH/sim_card.c:889-917 | a whole record is flagged if and only if a byte behind the first has wrong parity or the record is too long |
| CardDecks.PunchedIsRead | src/SIMH/sim_card.c:1056-1176 | in every format a card it can hold is parsed back from what is punched, whatever follows in the file; in column binary what follows must begin with a mark, as the next card does |
| CardDecks.DeckRoundTrip | src/SIMH/sim_card.c:992-1025 | a deck of such cards, punched one after the other, reads back as the same list |
| CardDecks.WindowShowsCard | src/SIMH/sim_card.c:992-1025 | the window in front of the rest of a file shows the next card of the file |
| CardReader.ReadCards | src/SIMH/sim_card.c:988-1025 | the buffer that slides over a file does not show: the cards are those parsed from the whole file |
| CardReader.Hopper.ReadDeck | src/SIMH/sim_card.c:971-1046 | appends the cards of the file to the hopper, and an end-of-file card if asked for; of a file of lines these are the cards with what the lines have in their columns when their tabs are expanded |
| CardReader.ParseCard | src/SIMH/sim_card.c:684-968 | the code of each format computes what its specification says of the bytes in the buffer, and leaves all but the first byte alone |
| CardReader.ReadColumnBinary | src/SIMH/sim_card.c:875-917 | mark, tape mark, short and overlong records and parity; an error in the first byte is lost because its column is stored over the flag |
| CardReader.ReadBinary | src/SIMH/sim_card.c:856-873 | two bytes to a column, with stray bits flagged, and short decks refused |
| CardReader.ReadText | src/SIMH/sim_card.c:747-854 | the loops for special lines, tabs, ignored characters and line ends compute the specification, of which `CardText` says what it means |
| CardReader.CardBuffer.Advance | src/SIMH/sim_card.c:1017-1024 | what follows the card moves to the front of the buffer |
| CardReader.CardBuffer.Fill | src/SIMH/sim_card.c:994-997 | the next bytes of the file follow those there are |
| CardPunches.CardPunch.PunchCard | src/SIMH/sim_card.c:1091-1176 | adds exactly the bytes of the card, in one of four formats, to the file and clears the image |
| CardPunches.PunchDeck | src/SIMH/sim_card.c:1056-1210 | punching cards one by one onto an empty file writes the deck |
| CardPunches.WriteText | src/SIMH/sim_card.c:1093-1108 | the loops produce the trimmed line, of which one column is always kept |
| CardPunches.WriteOctal | src/SIMH/sim_card.c:1110-1152 | the loops produce the digits or the name; the code for an end of information is written as an end of file |
| CardPunches.WriteColumnBinary | src/SIMH/sim_card.c:1164-1176 | halves of columns with odd parity and a mark on the first |
| CardPunches.CopyDeck | src/SIMH/sim_card.c:971-1210 | punching a deck and reading the file puts the same cards into the hopper |

## Left out

- Host I/O: files are growable byte arrays whose transfers succeed; failures of the host, closed handles, stdio buffering and raw device calls are not modelled. The model claims nothing about the status of a read after a failed one, which the code reports as success.
- File names, the search for the parent along its locators, the text of locator paths and the locator entries of a header: the disk the search leads to, unique ids and time stamps are parameters.
- VirtualDiskFiles.CreateDisk: block sizes are multiples of 2 MB, whose bitmap fills whole sectors; both callers pass such a size, and for others the bitmap and data of a block are not where the layout has them.
- VirtualDiskFiles.GetVhdFooter: the time stamp and the name of the parent that the code also returns.
- VirtualDiskFiles.OpenDisk: the switches that override the check of the parent or repair what was recorded of it.
- VirtualDiskFiles.OpenFresh: the parent of a differencing disk has the same size and covers its blocks, as `CreateDifferencing` leaves it; a parent replaced by another disk is not modelled.
- VirtualDisks.Vhd.Read: the read loop indexes the table without a check, so a transfer must end inside the blocks of the table; what happens behind is undefined in the code.
- VirtualDiskRuns.Merge: for block sizes that overflow the buffer of a merge nothing is stated, because the code writes outside it.
- VirtualDiskFiles.CreateDifferencing: the parent is below 2 TB, where its number of sectors fits the 32 bits the code passes on.
- CardReader.Hopper.ReadDeck: files are not empty and each card is complete within 499 bytes, or ends with the file; where a card is cut off or a last line has no end, what the code reads behind it depends on what an earlier card or call left there.
- CardReader.ParseCard: windows that end inside a card, as above, and text bytes of 128 and more, for which the code indexes its tables with negative numbers; so too `ReadText`, `ReadColumnBinary` and `ReadCards`.
- CardPunches.CardPunch.PunchCard: in text, columns have twelve rows, since the code indexes a table of 4096 with them; the automatic, BCD and EBCDIC formats are not modelled.
- SectorCoverage.Exercise: at least two sectors to a megabyte, since the code divides by one less; the sectors behind the end of the drive that the test reads last are not modelled.
- Rsts.LoadAndScan: the search for the account of the table and its home directory; blocks and retrieval entries are functions of their numbers.
- AsyncIo.WaitEnds: fairness of the scheduler; it states that a wait can always be ended and how soon, not that the host schedules the thread.
- AsyncIo.ExactlyOnce: transfers while asynchronous operation is off, which run on the spot and call back at once; the thread takes a request over in one step, so handing one over while the parameters are being read is not modelled.
- AsyncIo.Safety: the queue by which the simulator learns of completions is a counter; its own code is not part of this model.
- BCD, EBCDIC and automatically detected card formats, and the storage of decks in hopper pages.
- The STD disk format, autosizing, attach and detach, set and show commands, disk footers (both routines return at once), bad-block files, and the zap and info commands.
- `sim_fwrite` over several flip buffers, which does not write one swapped copy.
- The other directory walkers (ODS-1, ODS-2, Ultrix, ISO 9660), which have no loops over linked structures as hard as the two here.
- The console, terminal and multiplexer code, and everything in header files but constants.
