/** The buffer manager: a fixed table of frame descriptors beside a pool of
    page frames, a page index from (file, page number) to frame number, a
    clock hand that picks the frame to reuse, and access counters. */
module Buffer {
  import opened Types
  import opened Clock
  import opened Index
  import opened WriteBack
  import opened Frames
  import opened HashTable
  import opened Io

  class BufMgr {
    const numBufs: nat
    const bufTable: array<BufDesc>
    const bufPool: array<Page>
    const hashTable: BufHashTbl
    var clockHand: int
    var accesses: nat
    var diskreads: nat
    var diskwrites: nat

    /** The structure every operation keeps, on every path: sizes, the clock
        hand on a frame, well-formed descriptors, and every index entry
        naming a frame that holds its page. */
    ghost predicate Wf()
      reads this, bufTable, hashTable
    {
      && bufTable.Length == numBufs && bufPool.Length == numBufs
      && (if numBufs == 0 then clockHand == -1 else 0 <= clockHand < numBufs)
      && TableOk(bufTable[..])
      && IndexSound(bufTable[..], hashTable.entries)
    }

    /** The index maps k to f exactly when frame f is valid and holds k. */
    ghost predicate Consistent()
      reads this, bufTable, hashTable
    {
      IndexConsistent(bufTable[..], hashTable.entries)
    }

    /** No invalid frame still names a file. */
    ghost predicate InvalidFramesUnowned()
      reads this, bufTable
    {
      NoStaleOwners(bufTable[..])
    }

    /** The clock scan that the next allocation performs. */
    ghost function Scan(): Sweep
      reads this, bufTable, hashTable
      requires Wf()
    {
      ClockSweep(bufTable[..], clockHand, 0, accesses)
    }

    constructor (bufs: nat)
      ensures Wf() && Consistent() && InvalidFramesUnowned()
      ensures fresh(bufTable) && fresh(bufPool) && fresh(hashTable)
      ensures numBufs == bufs
      ensures forall i :: 0 <= i < bufs ==> bufTable[i] == BufDesc(i, None, 0, 0, false, false, false)
      ensures hashTable.entries == map[]
      ensures accesses == 0 && diskreads == 0 && diskwrites == 0
      ensures clockHand == bufs - 1
      ensures bufs > 0 ==> Advance(clockHand, numBufs) == 0
    {
      numBufs := bufs;
      bufTable := new BufDesc[bufs](i => BufDesc(i, None, 0, 0, false, false, false));
      bufPool := new Page[bufs](i => []);
      hashTable := new BufHashTbl();
      accesses, diskreads, diskwrites := 0, 0, 0;
      clockHand := bufs - 1;
    }

    method AdvanceClock()
      requires 0 <= clockHand < numBufs
      modifies this`clockHand
      ensures clockHand == Advance(old(clockHand), numBufs)
    {
      clockHand := (clockHand + 1) % numBufs;
    }

    /** allocBuf's clock loop, by itself: at most two turns of the hand,
        clearing reference bits, until an empty frame or an unpinned frame
        whose bit is already clear turns up. A frame of the second kind
        loses its index entry. */
    method SweepClock() returns (foundFrame: bool, visitedCount: nat, ghost stop: Stop)
      requires numBufs == bufTable.Length
      requires numBufs > 0 ==> 0 <= clockHand < numBufs
      requires TableOk(bufTable[..])
      modifies this`clockHand, this`accesses, bufTable, hashTable
      ensures var s := ClockSweep(old(bufTable[..]), old(clockHand), 0, old(accesses));
        && s == Sweep(bufTable[..], clockHand, visitedCount, accesses, stop)
        && hashTable.entries == AfterEviction(old(hashTable.entries), s)
      ensures foundFrame <==> stop == FoundVictim
      ensures stop == Exhausted ==> visitedCount == 2 * numBufs
      ensures if numBufs == 0 then clockHand == old(clockHand) else 0 <= clockHand < numBufs
    {
      ghost var t0, h0, a0, idx0 := bufTable[..], clockHand, accesses, hashTable.entries;
      foundFrame := false;
      visitedCount := 0;
      stop := Exhausted;
      while visitedCount < 2 * numBufs
        invariant 0 <= visitedCount <= 2 * numBufs
        invariant if numBufs == 0 then clockHand == h0 else 0 <= clockHand < numBufs
        invariant TableOk(bufTable[..])
        invariant !foundFrame && stop == Exhausted
        invariant hashTable.entries == idx0
        invariant ClockSweep(bufTable[..], clockHand, visitedCount, accesses) == ClockSweep(t0, h0, 0, a0)
        decreases 2 * numBufs - visitedCount
      {
        AdvanceClock();
        visitedCount := visitedCount + 1;
        if !bufTable[clockHand].valid {
          stop := FoundEmpty;
          break;
        }
        if !bufTable[clockHand].refbit {
          if bufTable[clockHand].pinCnt == 0 {
            var _ := hashTable.Remove(bufTable[clockHand].file.value, bufTable[clockHand].pageNo);
            foundFrame := true;
            stop := FoundVictim;
            break;
          }
        } else {
          bufTable[clockHand] := bufTable[clockHand].(refbit := false);
          accesses := accesses + 1;
        }
      }
    }

    /** Chooses a frame by the clock algorithm, writing a dirty victim back. */
    method AllocBuf(disk: Disk) returns (status: Status, frame: int)
      requires Wf()
      modifies this`clockHand, this`accesses, this`diskwrites, bufTable, hashTable, disk`pages
      ensures Wf()
      ensures old(InvalidFramesUnowned()) ==> InvalidFramesUnowned()
      ensures var s := old(Scan());
        && clockHand == s.hand && accesses == s.accesses && bufTable[..] == s.table
        && hashTable.entries == AfterEviction(old(hashTable.entries), s)
      ensures status == BufferExceeded <==> old(Scan()).stop == Exhausted
      ensures status == BufferExceeded <==> AllPinned(old(bufTable[..]))
      ensures status == BufferExceeded ==>
        && frame == -1 && diskwrites == old(diskwrites) && disk.pages == old(disk.pages)
        && (old(Consistent()) ==> Consistent())
      ensures status != BufferExceeded ==>
        && 0 <= clockHand < numBufs && Reusable(bufTable[clockHand]) && bufTable[clockHand].pinCnt == 0
        && Unreferenced(hashTable.entries, clockHand)
        && (old(Consistent()) ==> IndexMatches(bufTable[..], hashTable.entries, clockHand))
        && if bufTable[clockHand].dirty then
             && diskwrites == old(diskwrites) + 1
             && status == (if KeyOf(bufTable[clockHand]) in disk.faulty then UnixErr else OK)
             && disk.pages == (if status == OK then old(disk.pages)[KeyOf(bufTable[clockHand]) := bufPool[clockHand]]
                               else old(disk.pages))
           else status == OK && diskwrites == old(diskwrites) && disk.pages == old(disk.pages)
      ensures status == OK ==> frame == clockHand
      ensures status != OK ==> frame == -1
    {
      ghost var t0, h0, a0, idx0 := bufTable[..], clockHand, accesses, hashTable.entries;
      status, frame := OK, -1;
      var foundFrame, visitedCount;
      ghost var stop;
      foundFrame, visitedCount, stop := SweepClock();
      SweepKeepsTable(t0, h0, a0, idx0);
      if !foundFrame && visitedCount >= 2 * numBufs {
        status := BufferExceeded;
        return;
      }
      if bufTable[clockHand].dirty {
        status := disk.WritePage(bufTable[clockHand].file.value, bufTable[clockHand].pageNo, bufPool[clockHand]);
        diskwrites := diskwrites + 1;
        if status != OK {
          return;
        }
      }
      frame := clockHand;
    }

    /** Installs page (file, pageNo) in frame x, which no index entry names,
        and indexes it; the step readPage and allocPage end with. */
    method InstallPage(file: FileId, pageNo: int, x: int) returns (status: Status)
      requires Wf() && 0 <= x < numBufs && Unreferenced(hashTable.entries, x)
      modifies bufTable, hashTable
      ensures Wf()
      ensures old(InvalidFramesUnowned()) ==> InvalidFramesUnowned()
      ensures old(IndexMatches(bufTable[..], hashTable.entries, x)) && status == OK ==> Consistent()
      ensures bufTable[..] == old(bufTable[..])[x := old(bufTable[x]).Set(file, pageNo)]
      ensures status == OK || status == HashTblError
      ensures status == HashTblError <==> (file, pageNo) in old(hashTable.entries)
      ensures hashTable.entries ==
        if status == OK then old(hashTable.entries)[(file, pageNo) := x] else old(hashTable.entries)
    {
      InstallKeepsTable(bufTable[..], hashTable.entries, x, (file, pageNo));
      bufTable[x] := bufTable[x].Set(file, pageNo);
      status := hashTable.Insert(file, pageNo, x);
    }

    /** Pins page (file, pageNo) in a frame, reading it from disk on a miss. */
    method ReadPage(disk: Disk, file: FileId, pageNo: int) returns (status: Status, frame: int)
      requires Wf()
      modifies this`clockHand, this`accesses, this`diskreads, this`diskwrites
      modifies bufTable, bufPool, hashTable, disk`pages
      ensures Wf()
      ensures old(InvalidFramesUnowned()) ==> InvalidFramesUnowned()
      ensures status == OK || status == BufferExceeded || status == UnixErr
      ensures old(Consistent()) && status == OK ==> Consistent()
      ensures (file, pageNo) in old(hashTable.entries) ==>
        && status == OK && frame == old(hashTable.entries)[(file, pageNo)]
        && bufTable[..] == old(bufTable[..])[frame := old(bufTable[frame]).Pinned()]
        && hashTable.entries == old(hashTable.entries)
        && clockHand == old(clockHand) && accesses == old(accesses)
        && diskreads == old(diskreads) && diskwrites == old(diskwrites)
        && bufPool[..] == old(bufPool[..]) && disk.pages == old(disk.pages)
      ensures (file, pageNo) !in old(hashTable.entries) ==>
        var s := old(Scan());
        var evicted := AfterEviction(old(hashTable.entries), s);
        var obtained := s.stop != Exhausted && !WriteBackFails(s, disk.faulty);
        && |s.table| == numBufs && clockHand == s.hand && accesses == s.accesses
        && (status == BufferExceeded <==> AllPinned(old(bufTable[..])))
        && diskwrites == old(diskwrites) + (if VictimDirty(s) then 1 else 0)
        && disk.pages == VictimWrite(old(disk.pages), disk.faulty, s, old(bufPool[..]))
        && diskreads == old(diskreads) + (if obtained then 1 else 0)
        && (WriteBackFails(s, disk.faulty) ==> status == UnixErr)
        && (obtained ==> (status == OK <==> (file, pageNo) in disk.pages && (file, pageNo) !in disk.faulty))
        && (status == OK ==>
              && 0 <= frame < numBufs && frame == clockHand && obtained
              && (file, pageNo) in disk.pages && (file, pageNo) !in disk.faulty
              && bufTable[..] == s.table[frame := s.table[frame].Set(file, pageNo)]
              && bufPool[..] == old(bufPool[..])[frame := disk.pages[(file, pageNo)]]
              && hashTable.entries == evicted[(file, pageNo) := frame])
        && (status != OK ==>
              && frame == -1 && bufTable[..] == s.table && bufPool[..] == old(bufPool[..])
              && hashTable.entries == evicted)
    {
      status, frame := hashTable.Lookup(file, pageNo);
      var inPool := status == OK;
      if !inPool {
        status, frame := AllocBuf(disk);
        if status != OK {
          return;
        }
        diskreads := diskreads + 1;
        var data;
        status, data := disk.ReadPage(file, pageNo);
        if status != OK {
          frame := -1;
          return;
        }
        bufPool[frame] := data;
        status := InstallPage(file, pageNo, frame);
      } else {
        HoldingKeepsTable(bufTable[..], hashTable.entries, frame, bufTable[frame].Pinned());
        bufTable[frame] := bufTable[frame].Pinned();
      }
    }

    /** Releases one pin on page (file, pageNo), marking it dirty on request. */
    method UnPinPage(file: FileId, pageNo: int, dirty: bool) returns (status: Status)
      requires Wf()
      modifies bufTable
      ensures Wf()
      ensures old(Consistent()) ==> Consistent()
      ensures old(InvalidFramesUnowned()) ==> InvalidFramesUnowned()
      ensures (file, pageNo) !in hashTable.entries ==>
        status == HashNotFound && bufTable[..] == old(bufTable[..])
      ensures (file, pageNo) in hashTable.entries ==>
        var f := hashTable.entries[(file, pageNo)];
        if old(bufTable[f]).pinCnt < 1 then status == PageNotPinned && bufTable[..] == old(bufTable[..])
        else status == OK && bufTable[..] == old(bufTable[..])[f := old(bufTable[f]).Unpinned(dirty)]
    {
      var frameNo;
      status, frameNo := hashTable.Lookup(file, pageNo);
      if status != OK {
        status := HashNotFound;
        return;
      }
      if bufTable[frameNo].pinCnt < 1 {
        status := PageNotPinned;
        return;
      }
      HoldingKeepsTable(bufTable[..], hashTable.entries, frameNo, bufTable[frameNo].Unpinned(dirty));
      bufTable[frameNo] := bufTable[frameNo].Unpinned(dirty);
      status := OK;
    }

    /** Allocates a new page of `file` on disk and pins it in a frame. */
    method AllocPage(disk: Disk, file: FileId) returns (status: Status, pageNo: int, frame: int)
      requires Wf()
      modifies this`clockHand, this`accesses, this`diskwrites, bufTable, hashTable
      modifies disk`pages, disk`nextPageNo
      ensures Wf()
      ensures old(InvalidFramesUnowned()) ==> InvalidFramesUnowned()
      ensures status == OK || status == UnixErr || status == BufferExceeded || status == HashTblError
      ensures old(Consistent()) && status == OK ==> Consistent()
      ensures file in disk.full ==>
        && status == UnixErr && frame == -1
        && bufTable[..] == old(bufTable[..]) && hashTable.entries == old(hashTable.entries)
        && clockHand == old(clockHand) && accesses == old(accesses) && diskwrites == old(diskwrites)
        && disk.pages == old(disk.pages) && disk.nextPageNo == old(disk.nextPageNo)
      ensures file !in disk.full ==>
        var s := old(Scan());
        var evicted := AfterEviction(old(hashTable.entries), s);
        && pageNo == old(disk.NextPage(file)) && disk.NextPage(file) == pageNo + 1
        && (forall g :: g != file ==> disk.NextPage(g) == old(disk.NextPage(g)))
        && |s.table| == numBufs && clockHand == s.hand && accesses == s.accesses
        && diskwrites == old(diskwrites) + (if VictimDirty(s) then 1 else 0)
        && disk.pages == VictimWrite(old(disk.pages)[(file, pageNo) := []], disk.faulty, s, old(bufPool[..]))
        && (file, pageNo) in disk.pages
        && (status == BufferExceeded <==> AllPinned(old(bufTable[..])))
        && (status == UnixErr <==> WriteBackFails(s, disk.faulty))
        && (status == OK || status == HashTblError ==>
              && 0 <= frame < numBufs && frame == clockHand
              && bufTable[..] == s.table[frame := s.table[frame].Set(file, pageNo)])
        && (status == OK ==> hashTable.entries == evicted[(file, pageNo) := frame])
        && (status == HashTblError ==> (file, pageNo) in evicted && hashTable.entries == evicted)
        && (status == UnixErr || status == BufferExceeded ==>
              && frame == -1 && bufTable[..] == s.table && hashTable.entries == evicted)
    {
      status, pageNo := disk.AllocatePage(file);
      frame := -1;
      if status != OK {
        return;
      }
      ghost var pages := disk.pages;
      assert bufTable[..] == old(bufTable[..]);
      status, frame := AllocBuf(disk);
      assert pages.Keys <= disk.pages.Keys;
      if status != OK {
        return;
      }
      status := InstallPage(file, pageNo, frame);
    }

    /** Drops page (file, pageNo) from the pool, pinned or not, and disposes of
        it on disk. */
    method DisposePage(disk: Disk, file: FileId, pageNo: int) returns (status: Status)
      requires Wf()
      modifies bufTable, hashTable, disk`pages
      ensures Wf()
      ensures old(Consistent()) ==> Consistent()
      ensures old(InvalidFramesUnowned()) ==> InvalidFramesUnowned()
      ensures hashTable.entries == old(hashTable.entries) - {(file, pageNo)}
      ensures (file, pageNo) in old(hashTable.entries) ==>
        var f := old(hashTable.entries)[(file, pageNo)];
        bufTable[..] == old(bufTable[..])[f := old(bufTable[f]).Clear()]
      ensures (file, pageNo) !in old(hashTable.entries) ==> bufTable[..] == old(bufTable[..])
      ensures status == OK || status == UnixErr
      ensures status == OK <==> (file, pageNo) in old(disk.pages) && (file, pageNo) !in disk.faulty
      ensures disk.pages == if status == OK then old(disk.pages) - {(file, pageNo)} else old(disk.pages)
    {
      var frameNo := 0;
      status, frameNo := hashTable.Lookup(file, pageNo);
      if status == OK {
        ClearKeepsTable(bufTable[..], hashTable.entries, frameNo);
        bufTable[frameNo] := bufTable[frameNo].Clear();
      }
      status := hashTable.Remove(file, pageNo);
      status := disk.DisposePage(file, pageNo);
    }

    /** One round of flushFile's loop, on frame i: OK when the loop goes on
        to the next frame, otherwise the status flushFile returns. */
    method FlushFrame(disk: Disk, file: FileId, i: nat) returns (status: Status)
      requires i < bufTable.Length == bufPool.Length
      modifies bufTable, hashTable, disk`pages
      ensures var d := old(bufTable[i]);
        && status == (if FlushPassed(d, file, disk.faulty) then OK else FlushStatus(d, file))
        && bufTable[..] == old(bufTable[..])[i := if status == OK && Owned(d, file) then Flushed(d) else d]
        && hashTable.entries ==
             (if status == OK && Owned(d, file) then old(hashTable.entries) - {(file, d.pageNo)}
              else old(hashTable.entries))
        && disk.pages ==
             (if status == OK && WritesBack(d, Some(file)) && KeyOf(d) !in disk.faulty
              then old(disk.pages)[KeyOf(d) := bufPool[i]] else old(disk.pages))
    {
      status := OK;
      if bufTable[i].valid && bufTable[i].file == Some(file) {
        if bufTable[i].pinCnt > 0 {
          return PagePinned;
        }
        if bufTable[i].dirty {
          status := disk.WritePage(file, bufTable[i].pageNo, bufPool[i]);
          if status != OK {
            return;
          }
          bufTable[i] := bufTable[i].(dirty := false);
        }
        var _ := hashTable.Remove(file, bufTable[i].pageNo);
        bufTable[i] := bufTable[i].(file := None, pageNo := -1, valid := false);
      } else if !bufTable[i].valid && bufTable[i].file == Some(file) {
        return BadBuffer;
      }
    }

    /** Writes back and evicts every page of `file`, in frame order, stopping
        at a pinned page of the file, a failed write or an invalid frame that
        still names the file. */
    method FlushFile(disk: Disk, file: FileId) returns (status: Status)
      requires Wf()
      modifies bufTable, hashTable, disk`pages
      ensures Wf()
      ensures old(Consistent()) ==> Consistent()
      ensures old(InvalidFramesUnowned()) ==> InvalidFramesUnowned()
      ensures var t0 := old(bufTable[..]);
        var stop := FlushStop(t0, file, disk.faulty, 0);
        && status == (if stop == numBufs then OK else FlushStatus(t0[stop], file))
        && bufTable[..] == FlushTable(t0, file, stop)
        && hashTable.entries == old(hashTable.entries) - OwnedKeys(t0, file, stop)
        && disk.pages == WriteBacks(old(disk.pages), disk.faulty, t0, bufPool[..], stop, Some(file))
      ensures status == OK ==> forall j :: 0 <= j < numBufs ==> !Owned(bufTable[j], file)
    {
      ghost var t0, idx0 := bufTable[..], hashTable.entries;
      status := FlushFrames(disk, file);
      FlushStopIsFirst(t0, file, disk.faulty, 0);
      FlushKeepsTable(t0, idx0, file, FlushStop(t0, file, disk.faulty, 0));
    }

    /** flushFile's loop over the frames, by itself. */
    method FlushFrames(disk: Disk, file: FileId) returns (status: Status)
      requires numBufs == bufTable.Length == bufPool.Length
      modifies bufTable, hashTable, disk`pages
      ensures var t0 := old(bufTable[..]);
        var stop := FlushStop(t0, file, disk.faulty, 0);
        && status == (if stop == numBufs then OK else FlushStatus(t0[stop], file))
        && bufTable[..] == FlushTable(t0, file, stop)
        && hashTable.entries == old(hashTable.entries) - OwnedKeys(t0, file, stop)
        && disk.pages == WriteBacks(old(disk.pages), disk.faulty, t0, bufPool[..], stop, Some(file))
    {
      ghost var t0, idx0, pool, faulty := bufTable[..], hashTable.entries, bufPool[..], disk.faulty;
      assert idx0 - OwnedKeys(t0, file, 0) == idx0;
      assert FlushTable(t0, file, 0) == t0;
      for i := 0 to numBufs
        invariant disk.faulty == faulty && bufPool[..] == pool
        invariant FlushStop(t0, file, faulty, i) == FlushStop(t0, file, faulty, 0)
        invariant bufTable[..] == FlushTable(t0, file, i)
        invariant hashTable.entries == idx0 - OwnedKeys(t0, file, i)
        invariant disk.pages == WriteBacks(old(disk.pages), faulty, t0, pool, i, Some(file))
      {
        FlushTableStep(t0, file, i);
        OwnedKeysStep(idx0, t0, file, i);
        FlushStopStep(t0, file, faulty, i);
        WriteBacksStep(old(disk.pages), faulty, t0, pool, i, Some(file));
        status := FlushFrame(disk, file, i);
        if status != OK {
          return;
        }
      }
      return OK;
    }

    /** The destructor's pass: every valid dirty frame is written back, and
        the statuses of the writes are ignored. */
    method Teardown(disk: Disk)
      requires Wf()
      modifies disk`pages
      ensures disk.pages == WriteBacks(old(disk.pages), disk.faulty, bufTable[..], bufPool[..], numBufs, None)
      ensures Consistent() ==>
        forall j :: 0 <= j < numBufs && bufTable[j].valid && bufTable[j].dirty && KeyOf(bufTable[j]) !in disk.faulty ==>
          KeyOf(bufTable[j]) in disk.pages && disk.pages[KeyOf(bufTable[j])] == bufPool[j]
    {
      for i := 0 to numBufs
        invariant disk.pages == WriteBacks(old(disk.pages), disk.faulty, bufTable[..], bufPool[..], i, None)
      {
        if bufTable[i].valid && bufTable[i].dirty {
          var _ := disk.WritePage(bufTable[i].file.value, bufTable[i].pageNo, bufPool[i]);
        }
      }
      if Consistent() {
        ConsistentPagesDistinct(bufTable[..], hashTable.entries);
        WriteBacksLand(old(disk.pages), disk.faulty, bufTable[..], bufPool[..], numBufs, None);
      }
    }
  }
}
