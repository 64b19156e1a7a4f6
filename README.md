# Minirel buffer manager, modelled in Dafny

This project models `BufMgr`, the buffer manager of the Minirel database
engine (engine/buf.C). It keeps a fixed table of frame descriptors
(`bufTable`) beside a pool of page frames (`bufPool`). A page index
(`hashTable`) maps (file, page number) to a frame number. A clock hand picks
the frame to reuse by the second-chance policy. There are three counters:
`accesses`, `diskreads` and `diskwrites`.

How the model is laid out:

- `types.dfy` (module `Types`): the status codes, page keys and the frame
  descriptor `BufDesc`. `Set` and `Clear` follow their standard Minirel
  meaning. `Pinned` and `Unpinned` are the pin and unpin updates that
  engine/buf.C:261-265 and engine/buf.C:310-317 write inline.
- `hashtable.dfy` (module `HashTable`): `BufHashTbl` as a class over a
  `map`. It is specified by its contract: an insert of a key it already
  holds fails, and so do a lookup or a remove of a key it lacks.
- `disk.dfy` (module `Io`): one `Disk` object stands for the I/O layer
  beneath every open `File`. A page in `faulty` cannot be read, written or
  disposed of. A read or disposal of a page the file lacks fails. Allocation
  fails on a file in `full`.
- `clock.dfy` (module `Clock`): the clock scan of `allocBuf` as a function
  of the frame table (`ClockSweep`), with the second-chance properties proved
  about it.
- `index.dfy` (module `Index`): agreement between the index and the table,
  and how each kind of update keeps it.
- `frames.dfy` (module `Frames`): the table and the index as values. It
  gives each step an operation takes on them, with what the step preserves,
  and the specification functions of `flushFile`.
- `writeback.dfy` (module `WriteBack`): the disk after a pass of
  write-backs in frame order, used by the destructor and by `flushFile`.
- `pins.dfy` (module `Pins`): pin conservation on one frame.
- `bufmgr.dfy` (module `Buffer`): the class `BufMgr`. Its `array` fields,
  clock hand and counters are updated in place by methods with `modifies`
  clauses:
  - `AllocBuf` runs the `while` loop of `allocBuf` (in `SweepClock`) and is
    proved against `ClockSweep`;
  - `FlushFile` runs the loop of `flushFile` (in `FlushFrames`) and is
    proved against `FlushStop`, `FlushTable`, `OwnedKeys` and `WriteBacks`.

Invariants the model carries:

- `Wf()` holds on every path, error paths included. It covers the sizes, the
  hand on a frame, well-formed descriptors, and every index entry naming a
  frame that holds its page.
- Full agreement between the index and the table (`Consistent()`) is
  preserved on success paths only. The code breaks it on some failure paths,
  and the model keeps those breaks:
  - `allocBuf` removes the victim's index entry (engine/buf.C:146) before
    the write-back of a dirty victim (engine/buf.C:171-177). A failed write
    leaves the frame valid but unindexed, and still dirty.
  - `readPage` counts a disk read (engine/buf.C:228) before reading. A
    failed read leaves the victim frame with its old metadata and no index
    entry.
  - `allocPage` installs the frame before inserting into the index. On an
    insert failure the frame holds the page but the index does not name it.
  - `disposePage` clears the frame even when it is pinned. It ignores the
    status of the index removal (engine/buf.C:388).

Two more things the code does that a reader might not expect:

- `flushFile` checks for an invalid frame that still names a file
  (`BADBUFFER`, engine/buf.C:438-439), though no operation creates one. So
  the model keeps "no invalid frame names a file" (`InvalidFramesUnowned`)
  out of `Wf()`. It proves that the constructor establishes it and every
  operation preserves it, and that with it `flushFile` never reports a bad
  buffer.
- Only a valid frame is pinned or dirty. The constructor zeroes every pin
  count, `Clear` zeroes it, and `flushFile` empties only unpinned frames.
  So a frame that allocBuf hands out is never pinned, empty or not.

## Model

| member | source | states |
|---|---|---|
| Buffer.BufMgr.constructor | engine/buf.C:61-82 | frame i is empty with frame number i; the index is empty; the counters are 0; the hand is bufs-1, so the first advance reaches frame 0; `Wf`, `Consistent` and `InvalidFramesUnowned` hold |
| Buffer.BufMgr.AdvanceClock | engine/buf.C:132 | the hand moves one frame on, wrapping to 0 after the last frame |
| Buffer.BufMgr.SweepClock | engine/buf.C:124-158 | the loop ends in the state that `ClockSweep` assigns to the starting table, hand and access count; the index loses the victim's entry exactly when a victim was found; the loop runs out only after 2*numBufs steps |
| Buffer.BufMgr.AllocBuf | engine/buf.C:122-182 | the new table, hand and access count are those of the clock scan; BUFFEREXCEEDED is returned exactly when every frame is valid and pinned, and then nothing is written; otherwise the hand is on an unpinned frame that is empty or unreferenced, and no index entry names it; a dirty frame costs one disk write, gives UNIXERR exactly when its page is faulty, and otherwise lands on disk; only OK hands out the frame; `Wf` holds on every path, and agreement with every other frame holds when it held before |
| Buffer.BufMgr.InstallPage | engine/buf.C:241-250 | the frame is installed with `Set`; the insert fails with HASHTBLERROR exactly when the key was already indexed; on OK the key maps to the frame and the index agrees with the table again |
| Buffer.BufMgr.ReadPage | engine/buf.C:199-273 | only OK, BUFFEREXCEEDED or UNIXERR come back, never HASHTBLERROR; on a hit, only that frame changes: one more pin, reference bit set, OK, no disk traffic; on a miss, the scan's outcome with the victim unindexed, plus one disk write of a dirty victim that lands its frame's bytes unless its page is faulty (then UNIXERR); diskreads rises by one exactly when a frame was obtained; given a frame, OK comes exactly when the page is readable on the disk as it is after the write-back, and then the frame holds the page, the pool the disk's bytes and the index the key; every error path hands out no frame and leaves the state listed |
| Buffer.BufMgr.UnPinPage | engine/buf.C:287-322 | an unindexed key gives HASHNOTFOUND and a pin count of 0 gives PAGENOTPINNED, both with no change; otherwise exactly that frame loses one pin and becomes dirty when asked, never clean |
| Buffer.BufMgr.AllocPage | engine/buf.C:336-375 | a full file gives UNIXERR with nothing changed; otherwise the disk hands out the next page number and leaves every other file's numbering alone, and the frame outcome is that of allocBuf, including the write-back of a dirty victim to the disk that now holds the new page, counted in diskwrites; UNIXERR comes exactly when that write fails; on OK or HASHTBLERROR the frame is installed with the new page, and on OK the index maps it; no disk read is counted |
| Buffer.BufMgr.DisposePage | engine/buf.C:377-392 | the key's entry is gone afterwards; an indexed frame is cleared whatever its pin count; the status is that of the disk's disposal, OK or UNIXERR, and the page leaves the disk exactly on OK |
| Buffer.BufMgr.FlushFrame | engine/buf.C:413-439 | one frame of flushFile: it goes past the frame exactly when `FlushPassed` holds, and otherwise returns PAGEPINNED, UNIXERR or BADBUFFER as `FlushStatus` says; a page of the file that is passed is written if dirty, unindexed and emptied |
| Buffer.BufMgr.FlushFrames | engine/buf.C:412-442 | the loop stops at `FlushStop`; every page of the file before it is flushed (`FlushTable`); their keys leave the index (`OwnedKeys`); their dirty pages are written in frame order (`WriteBacks`) |
| Buffer.BufMgr.FlushFile | engine/buf.C:408-443 | the same outcome as the loop, with `Wf`, `Consistent` and `InvalidFramesUnowned` preserved; on OK no frame holds a page of the file |
| Buffer.BufMgr.Teardown | engine/buf.C:90-105 | the disk afterwards is `WriteBacks` over every valid dirty frame, with write errors ignored; under agreement, every such frame whose page is not faulty is on disk with its frame's bytes |
| Clock.Advance | engine/buf.C:132 | the next hand position stays in range and wraps from the last frame to frame 0 |
| Clock.SweepInvariant | engine/buf.C:131-158 | the loop invariant of the scan, carried from any step to the scan's end: the hand position, which frames lost their reference bit, and that every frame passed over was valid and referenced or pinned |
| Clock.ClockSweepCorrect | engine/buf.C:131-158 | the whole scan from any hand: it ends on a frame inside the table after 1 to 2*numBufs steps; exactly the valid frames the hand reached lost their reference bit; a frame passed over on the second lap is pinned; accesses rise by the number of bits cleared |
| Clock.SweepCountsAccesses | engine/buf.C:152-156 | accesses rise by the number of reference bits the scan clears |
| Clock.ExhaustedIffAllPinned | engine/buf.C:164-167 | the scan runs out exactly when every frame is valid and pinned |
| Clock.SweepChoosesFreeFrame | engine/buf.C:135-149 | a chosen frame is in range and either invalid, or unpinned with its reference bit clear; it stops at an invalid frame exactly when the frame is invalid, and within the first lap |
| Clock.SweepOnlyClearsRefbits | engine/buf.C:142-156 | the scan changes nothing but reference bits, and accesses never fall |
| Clock.RefCountBound | engine/buf.C:154 | clearing reference bits never raises their count |
| Index.IndexSizeIsValidFrames | engine/buf.C:241-247 | under agreement the index's frames are exactly the valid frames, so it has no more entries than there are frames |
| Index.ConsistentPagesDistinct | engine/buf.C:241-247 | under agreement no page is held by two valid frames |
| Index.ReuseFrame | engine/buf.C:146 | dropping the chosen frame's page from the index leaves it agreeing with every other frame |
| Index.InstallRestores | engine/buf.C:241-247 | installing and indexing a page that the index lacked restores full agreement |
| Index.UnindexFrame | engine/buf.C:386-388 | emptying a frame and removing its page's entry keeps agreement |
| Index.OnlyHoldingsMatter | engine/buf.C:261-265 | changes to pins, reference bits or dirtiness keep soundness and agreement |
| Index.OnlyOwnKeyNamesFrame | engine/buf.C:146 | in a sound index only the page a frame holds can name it, and nothing names an empty frame |
| Index.SoundAfterInstall | engine/buf.C:241-247 | overwriting a frame that nothing names, and then indexing it under its new page, keeps the index sound |
| Index.SoundAfterUnindex | engine/buf.C:386-388 | overwriting a valid frame and dropping its page's entry keeps the index sound |
| Frames.SweepKeepsTable | engine/buf.C:131-167 | the scan keeps descriptors well formed and the index sound; it fails exactly when all are pinned, and then agreement is kept; when it succeeds the frame is reusable and unpinned, nothing names it, and the index agrees with every other frame |
| Frames.InstallKeepsTable | engine/buf.C:241-247 | `Set` on an unnamed frame keeps the table well formed and the index sound with or without the insert, and with it restores agreement |
| Frames.HoldingKeepsTable | engine/buf.C:261-265 | a pin, an unpin or a dirty mark keeps every table and index property |
| Frames.ClearKeepsTable | engine/buf.C:386-388 | `Clear` on an indexed frame with its entry dropped keeps every table and index property |
| Frames.FlushStop | engine/buf.C:412-440 | the stopping frame lies between the starting frame and numBufs |
| Frames.FlushStopStep | engine/buf.C:412-440 | the stopping frame is unchanged by going past a frame, and is the frame itself when it cannot be passed |
| Frames.FlushStopIsFirst | engine/buf.C:412-440 | flushFile goes past every frame before the stopping frame and cannot go past the stopping frame |
| Frames.FlushTableStep | engine/buf.C:428-435 | treating one more frame empties it exactly when it held a page of the file |
| Frames.OwnedKeysStep | engine/buf.C:431 | treating one more frame removes at most its own page from the index |
| Frames.OwnedKeysAre | engine/buf.C:414-431 | the keys flushed so far are exactly the pages of the file in the frames treated |
| Frames.FlushKeepsTable | engine/buf.C:412-436 | a partial or complete flush that empties only unpinned frames keeps descriptors well formed, the index sound, no stale owners, and agreement |
| Frames.NoBadBufferWithoutStaleOwners | engine/buf.C:438-439 | when no invalid frame names a file, flushFile never returns BADBUFFER |
| Frames.FlushedFileLeavesPool | engine/buf.C:412-443 | a flush that goes past every frame leaves no page of the file in the pool and every dirty page of it on disk with its frame's bytes |
| WriteBack.WriteBacksStep | engine/buf.C:96-103 | one more frame adds its write exactly when it is a valid dirty frame of the owner and its page is not faulty |
| WriteBack.WriteBacksTouchOnlyWritten | engine/buf.C:93-105 | a write-back pass touches only the pages it writes, and never a faulty one |
| WriteBack.WriteBacksLand | engine/buf.C:93-105 | when no page is held twice, every page written lands with its frame's bytes |
| Pins.PinnedTimesAdds | engine/buf.C:261-265 | n hits add exactly n pins and leave the frame referenced |
| Pins.UnpinAllCountsDown | engine/buf.C:303-317 | a run of releases succeeds exactly when there are no more of them than pins; each takes one pin; dirtiness ends up set when any release asked for it |
| Pins.PinsAllowExactlyAsManyUnpins | engine/buf.C:295-321 | from an unpinned frame, n pins allow exactly n successful releases, after which the frame is unpinned again |
| HashTable.BufHashTbl.constructor | engine/buf.C:79 | the index starts empty |
| HashTable.BufHashTbl.Insert | engine/buf.C:247 | an insert adds the entry, or fails with HASHTBLERROR on a key the index already holds and changes nothing |
| HashTable.BufHashTbl.Lookup | engine/buf.C:208 | a lookup succeeds exactly when the key is indexed, and then gives its frame |
| HashTable.BufHashTbl.Remove | engine/buf.C:388 | after a remove the key is absent; OK exactly when it was present |
| Io.Disk.ReadPage | engine/buf.C:233 | a read succeeds exactly on a page the file has that is not faulty, and gives its bytes |
| Io.Disk.WritePage | engine/buf.C:172-173 | a write fails exactly on a faulty page, and otherwise stores the bytes |
| Io.Disk.AllocatePage | engine/buf.C:343 | an allocation fails exactly on a full file; otherwise it hands out the file's next page number, adds the page, and changes no other file's numbering |
| Io.Disk.DisposePage | engine/buf.C:391 | a disposal succeeds exactly on a page the file has that is not faulty, and then removes it |

## Left out

- `printSelf` (engine/buf.C:449-463), the `DEBUGBUF` traces and the
  `ASSERT` macro: console output only.
- `new`, `memset` and `delete[]` (engine/buf.C:65-76, 107-108): the
  table and the pool are Dafny arrays, allocated by the constructor.
- The hash table's bucket count `htsize` (engine/buf.C:78), which is
  computed in floating point, and the implementation of `BufHashTbl`:
  buf.h and the hash table's source are not part of this model. The index
  is a `map` specified by the contract of insert, lookup and remove.
- `Set`, `Clear` and `advanceClock` are defined in buf.h, which is not part
  of this model. They are modelled by their standard Minirel meaning.
- The real I/O layer (`File::readPage`, `writePage`, `allocatePage` and
  `disposePage`). One `Disk` object stands for every file. Whether a call
  fails is decided by the `faulty` and `full` sets rather than by the
  operating system.
- `File*` pointers become `FileId` numbers. The `Page*&` results and the
  aliasing they allow are not modelled; the operations return the frame
  number instead.
- Buffer.BufMgr.AllocBuf: on failure the model returns frame -1, where the
  source leaves its reference argument untouched. ReadPage and AllocPage
  do the same.
- Page bytes are sequences of `bv8` of any length; the fixed page size is
  not modelled.
- Counters and pin counts are unbounded naturals: the overflow of the
  source's `int` fields is not modelled.
- The end-to-end round trip is not one lemma: write a page, unpin it dirty,
  force its eviction, and read it back. Its steps are separate contracts.
  `UnPinPage` keeps the dirty mark. `ReadPage` and `AllocPage` state the
  disk after writing back a dirty victim's bytes. `ReadPage` then loads the
  disk's bytes into the frame.
- The release of memory at the end of the destructor. `Teardown` models
  only its write-back pass.
