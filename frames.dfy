/** The frame table and the page index as values: the well-formedness every
    operation keeps, and each step an operation takes on them (the clock
    scan, installing a page, pinning and unpinning, emptying a frame, and
    flushing a file), with what each step preserves. */
module Frames {
  import opened Types
  import opened Clock
  import opened Index
  import opened WriteBack

  /** Descriptor `d` is well formed at position `i`: it knows its own frame
      number, only a valid frame is dirty or pinned, and a valid frame names
      a file. */
  predicate FrameOk(d: BufDesc, i: int) {
    d.frameNo == i && (d.dirty ==> d.valid) && (d.pinCnt > 0 ==> d.valid) && (d.valid ==> d.file.Some?)
  }

  /** Every descriptor of the table is well formed. */
  ghost predicate TableOk(t: seq<BufDesc>) {
    forall i :: 0 <= i < |t| ==> FrameOk(t[i], i)
  }

  /** No invalid frame still names a file. */
  ghost predicate NoStaleOwners(t: seq<BufDesc>) {
    forall i :: 0 <= i < |t| && !t[i].valid ==> t[i].file.None?
  }

  /** A frame allocBuf may hand out: empty, or unpinned and unreferenced. */
  predicate Reusable(d: BufDesc) {
    !d.valid || (d.pinCnt == 0 && !d.refbit)
  }

  /** The index after the scan `s` has taken its frame: the page of a victim
      is no longer indexed. */
  function AfterEviction(idx: map<Key, int>, s: Sweep): map<Key, int> {
    if s.stop == FoundVictim && 0 <= s.hand < |s.table| && s.table[s.hand].file.Some?
    then idx - {KeyOf(s.table[s.hand])}
    else idx
  }

  /** The scan `s` chose a dirty frame, which allocBuf writes back. */
  predicate VictimDirty(s: Sweep) {
    s.stop != Exhausted && 0 <= s.hand < |s.table| && s.table[s.hand].dirty
  }

  /** The disk after allocBuf's write-back of the frame the scan `s` chose,
      whose bytes are `pool[s.hand]`: a write to a faulty page fails and
      changes nothing. */
  function VictimWrite(pages: map<Key, Page>, faulty: set<Key>, s: Sweep, pool: seq<Page>): map<Key, Page> {
    if VictimDirty(s) && s.table[s.hand].file.Some? && KeyOf(s.table[s.hand]) !in faulty && s.hand < |pool|
    then pages[KeyOf(s.table[s.hand]) := pool[s.hand]]
    else pages
  }

  /** The scan `s` chose a dirty frame whose write-back fails. */
  predicate WriteBackFails(s: Sweep, faulty: set<Key>) {
    && s.stop != Exhausted && 0 <= s.hand < |s.table|
    && s.table[s.hand].dirty && s.table[s.hand].file.Some? && KeyOf(s.table[s.hand]) in faulty
  }

  /** The clock scan keeps the table well formed and the index sound, and
      fails exactly when every frame is pinned. When it fails the index still
      agrees with the table; when it succeeds the chosen frame is reusable, no
      entry names it any more, and the index agrees with every other frame. */
  lemma SweepKeepsTable(t: seq<BufDesc>, h: int, acc: nat, idx: map<Key, int>)
    requires |t| > 0 ==> 0 <= h < |t|
    requires TableOk(t) && IndexSound(t, idx)
    ensures var s := ClockSweep(t, h, 0, acc);
      var idx' := AfterEviction(idx, s);
      && |s.table| == |t| && TableOk(s.table) && IndexSound(s.table, idx')
      && (NoStaleOwners(t) ==> NoStaleOwners(s.table))
      && (s.stop == Exhausted <==> AllPinned(t))
      && (s.stop == Exhausted ==> idx' == idx && (IndexConsistent(t, idx) ==> IndexConsistent(s.table, idx)))
      && (s.stop == FoundEmpty ==> s.visited < 2 * |t|)
      && (s.stop != Exhausted ==>
            && 0 <= s.hand < |t| && Reusable(s.table[s.hand]) && s.table[s.hand].pinCnt == 0
            && Unreferenced(idx', s.hand)
            && (IndexConsistent(t, idx) ==> IndexMatches(s.table, idx', s.hand)))
  {
    var s := ClockSweep(t, h, 0, acc);
    ExhaustedIffAllPinned(t, h, acc);
    SweepChoosesFreeFrame(t, h, acc);
    SweepOnlyClearsRefbits(t, h, acc);
    OnlyHoldingsMatter(t, s.table, idx, -1);
    if s.stop != Exhausted {
      OnlyOwnKeyNamesFrame(s.table, idx, s.hand);
      if IndexConsistent(t, idx) {
        ReuseFrame(s.table, idx, s.hand);
      }
    }
  }

  /** Installing page k in frame x, which no entry names, keeps the table
      well formed and the index sound, with or without k's new entry; with it,
      and when the index agreed with every other frame and lacked k, the index
      agrees with the whole table again. */
  lemma InstallKeepsTable(t: seq<BufDesc>, idx: map<Key, int>, x: int, k: Key)
    requires TableOk(t) && IndexSound(t, idx) && 0 <= x < |t| && Unreferenced(idx, x)
    ensures var u := t[x := t[x].Set(k.0, k.1)];
      && TableOk(u) && IndexSound(u, idx) && IndexSound(u, idx[k := x])
      && (NoStaleOwners(t) ==> NoStaleOwners(u))
      && (IndexMatches(t, idx, x) && k !in idx ==> IndexConsistent(u, idx[k := x]))
  {
    SoundAfterInstall(t, idx, x, t[x].Set(k.0, k.1), k);
    if IndexMatches(t, idx, x) && k !in idx {
      InstallRestores(t, idx, x, k);
    }
  }

  /** Replacing a frame by one that holds the same page the same way (a pin,
      an unpin, a dirty mark) keeps every property of the table and index. */
  lemma HoldingKeepsTable(t: seq<BufDesc>, idx: map<Key, int>, x: int, d: BufDesc)
    requires 0 <= x < |t| && FrameOk(d, x)
    requires d.valid == t[x].valid && d.file == t[x].file && d.pageNo == t[x].pageNo
    ensures var u := t[x := d];
      && (TableOk(t) ==> TableOk(u))
      && (IndexSound(t, idx) ==> IndexSound(u, idx))
      && (NoStaleOwners(t) ==> NoStaleOwners(u))
      && (IndexConsistent(t, idx) ==> IndexConsistent(u, idx))
  {
    OnlyHoldingsMatter(t, t[x := d], idx, -1);
  }

  /** Emptying the valid frame x and dropping its page's entry keeps every
      property of the table and index. */
  lemma ClearKeepsTable(t: seq<BufDesc>, idx: map<Key, int>, x: int)
    requires TableOk(t) && IndexSound(t, idx) && 0 <= x < |t| && t[x].valid
    ensures var u := t[x := t[x].Clear()];
      var idx' := idx - {KeyOf(t[x])};
      && TableOk(u) && IndexSound(u, idx')
      && (NoStaleOwners(t) ==> NoStaleOwners(u))
      && (IndexConsistent(t, idx) ==> IndexConsistent(u, idx'))
  {
    SoundAfterUnindex(t, idx, x, t[x].Clear());
    if IndexConsistent(t, idx) {
      UnindexFrame(t, idx, x, t[x].Clear());
    }
  }

  // flushFile

  /** The frame holds a page of `file`. */
  predicate Owned(d: BufDesc, file: FileId) {
    d.valid && d.file == Some(file)
  }

  /** A frame that flushFile has written back (if needed) and emptied. */
  function Flushed(d: BufDesc): BufDesc {
    d.(dirty := false, file := None, pageNo := -1, valid := false)
  }

  /** A frame that flushFile goes past: not a pinned page of the file, not a
      dirty page of the file whose write fails, not an invalid frame that
      still names the file. */
  predicate FlushPassed(d: BufDesc, file: FileId, faulty: set<Key>) {
    && (Owned(d, file) ==> d.pinCnt == 0 && (d.dirty ==> (file, d.pageNo) !in faulty))
    && !(!d.valid && d.file == Some(file))
  }

  /** The status flushFile returns at a frame it does not go past. */
  function FlushStatus(d: BufDesc, file: FileId): Status {
    if !Owned(d, file) then BadBuffer
    else if d.pinCnt > 0 then PagePinned
    else UnixErr
  }

  /** The frame, from `i` on, where flushFile stops; |t| when it goes past
      them all. */
  function FlushStop(t: seq<BufDesc>, file: FileId, faulty: set<Key>, i: nat): (r: nat)
    requires i <= |t|
    ensures i <= r <= |t|
    decreases |t| - i
  {
    if i == |t| then |t|
    else if FlushPassed(t[i], file, faulty) then FlushStop(t, file, faulty, i + 1)
    else i
  }

  /** Going past frame i. */
  lemma FlushStopStep(t: seq<BufDesc>, file: FileId, faulty: set<Key>, i: nat)
    requires i < |t|
    ensures FlushPassed(t[i], file, faulty) ==> FlushStop(t, file, faulty, i + 1) == FlushStop(t, file, faulty, i)
    ensures !FlushPassed(t[i], file, faulty) ==> FlushStop(t, file, faulty, i) == i
  {
  }

  /** flushFile stops at the first frame it cannot go past. */
  lemma {:induction false} FlushStopIsFirst(t: seq<BufDesc>, file: FileId, faulty: set<Key>, i: nat)
    requires i <= |t|
    ensures var r := FlushStop(t, file, faulty, i);
      && (forall j :: i <= j < r ==> FlushPassed(t[j], file, faulty))
      && (r < |t| ==> !FlushPassed(t[r], file, faulty))
    decreases |t| - i
  {
    if i < |t| && FlushPassed(t[i], file, faulty) {
      FlushStopIsFirst(t, file, faulty, i + 1);
    }
  }

  /** The table once flushFile has treated the first `m` frames: each page of
      the file among them is emptied. */
  function FlushTable(t: seq<BufDesc>, file: FileId, m: nat): seq<BufDesc>
    requires m <= |t|
  {
    seq(|t|, j requires 0 <= j < |t| => if j < m && Owned(t[j], file) then Flushed(t[j]) else t[j])
  }

  /** Treating one more frame. */
  lemma FlushTableStep(t: seq<BufDesc>, file: FileId, i: nat)
    requires i < |t|
    ensures |FlushTable(t, file, i)| == |t| && FlushTable(t, file, i)[i] == t[i]
    ensures FlushTable(t, file, i + 1) ==
      FlushTable(t, file, i)[i := if Owned(t[i], file) then Flushed(t[i]) else t[i]]
  {
  }

  /** The pages of `file` held by the first `m` frames. */
  ghost function OwnedKeys(t: seq<BufDesc>, file: FileId, m: nat): set<Key>
    requires m <= |t|
  {
    if m == 0 then {}
    else OwnedKeys(t, file, m - 1) + (if Owned(t[m - 1], file) then {(file, t[m - 1].pageNo)} else {})
  }

  /** Treating one more frame drops at most its own page from the index. */
  lemma OwnedKeysStep(idx: map<Key, int>, t: seq<BufDesc>, file: FileId, i: nat)
    requires i < |t|
    ensures Owned(t[i], file) ==>
      idx - OwnedKeys(t, file, i + 1) == (idx - OwnedKeys(t, file, i)) - {(file, t[i].pageNo)}
    ensures !Owned(t[i], file) ==> idx - OwnedKeys(t, file, i + 1) == idx - OwnedKeys(t, file, i)
  {
  }

  /** OwnedKeys holds exactly the pages of the file held by the first m frames. */
  lemma {:induction false} OwnedKeysAre(t: seq<BufDesc>, file: FileId, m: nat)
    requires m <= |t|
    ensures forall j :: 0 <= j < m && Owned(t[j], file) ==> (file, t[j].pageNo) in OwnedKeys(t, file, m)
    ensures forall k :: k in OwnedKeys(t, file, m) ==>
      exists j :: 0 <= j < m && Owned(t[j], file) && k == (file, t[j].pageNo)
  {
    if m > 0 {
      OwnedKeysAre(t, file, m - 1);
    }
  }

  /** Flushing the first m frames, none of whose pages of the file is
      pinned, and dropping their pages from the index, keeps every property
      of the table and index. */
  lemma FlushKeepsTable(t: seq<BufDesc>, idx: map<Key, int>, file: FileId, m: nat)
    requires m <= |t| && TableOk(t) && IndexSound(t, idx)
    requires forall j :: 0 <= j < m && Owned(t[j], file) ==> t[j].pinCnt == 0
    ensures var u := FlushTable(t, file, m);
      var idx' := idx - OwnedKeys(t, file, m);
      && TableOk(u) && IndexSound(u, idx')
      && (NoStaleOwners(t) ==> NoStaleOwners(u))
      && (IndexConsistent(t, idx) ==> IndexConsistent(u, idx'))
  {
    var u := FlushTable(t, file, m);
    var idx' := idx - OwnedKeys(t, file, m);
    OwnedKeysAre(t, file, m);
    forall k | k in idx'
      ensures 0 <= idx'[k] < |u| && u[idx'[k]].Holds(k)
    {
      var f := idx[k];
      if f < m && Owned(t[f], file) {
        assert false;
      }
    }
    if IndexConsistent(t, idx) {
      forall i | 0 <= i < |u| && u[i].valid
        ensures u[i].file.Some? && KeyOf(u[i]) in idx' && idx'[KeyOf(u[i])] == i
      {
        assert u[i] == t[i];
        if KeyOf(t[i]) in OwnedKeys(t, file, m) {
          assert false;
        }
      }
    }
  }

  /** An invalid frame that names the file exists only where a frame was left
      stale: with none, flushFile never reports a bad buffer. */
  lemma NoBadBufferWithoutStaleOwners(t: seq<BufDesc>, file: FileId, faulty: set<Key>)
    requires NoStaleOwners(t)
    ensures var r := FlushStop(t, file, faulty, 0);
      r < |t| ==> FlushStatus(t[r], file) != BadBuffer
  {
    FlushStopIsFirst(t, file, faulty, 0);
  }

  /** A flush that goes past every frame leaves no page of the file in the
      pool, and, when the index agreed with the table, every dirty page of the
      file is on disk with the contents of its frame. */
  lemma FlushedFileLeavesPool(t: seq<BufDesc>, idx: map<Key, int>, pages: map<Key, Page>,
                              faulty: set<Key>, pool: seq<Page>, file: FileId)
    requires |pool| == |t| && IndexConsistent(t, idx) && FlushStop(t, file, faulty, 0) == |t|
    ensures forall j :: 0 <= j < |t| ==> !Owned(FlushTable(t, file, |t|)[j], file)
    ensures var w := WriteBacks(pages, faulty, t, pool, |t|, Some(file));
      forall j :: 0 <= j < |t| && Owned(t[j], file) && t[j].dirty ==>
        (file, t[j].pageNo) in w && w[(file, t[j].pageNo)] == pool[j]
  {
    FlushStopIsFirst(t, file, faulty, 0);
    ConsistentPagesDistinct(t, idx);
    WriteBacksLand(pages, faulty, t, pool, |t|, Some(file));
  }
}
