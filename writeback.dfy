/** Writing dirty frames back to disk, frame by frame in index order, as the
    destructor does for every file and flushFile does for one. */
module WriteBack {
  import opened Types
  import opened Index

  /** A frame that a write-back pass over the frames of `owner` (of every
      file when `owner` is None) writes to disk. */
  predicate WritesBack(d: BufDesc, owner: Option<FileId>) {
    d.valid && d.dirty && d.file.Some? && (owner.None? || d.file == owner)
  }

  /** The disk after the pass has written, in frame order, every such frame
      among the first `m`; a write to a faulty page fails and changes nothing. */
  function WriteBacks(pages: map<Key, Page>, faulty: set<Key>, t: seq<BufDesc>, pool: seq<Page>,
                      m: nat, owner: Option<FileId>): map<Key, Page>
    requires m <= |t| && |pool| == |t|
  {
    if m == 0 then pages
    else
      var p := WriteBacks(pages, faulty, t, pool, m - 1, owner);
      var d := t[m - 1];
      if WritesBack(d, owner) && KeyOf(d) !in faulty then p[KeyOf(d) := pool[m - 1]] else p
  }

  /** One more frame of the pass. */
  lemma WriteBacksStep(pages: map<Key, Page>, faulty: set<Key>, t: seq<BufDesc>, pool: seq<Page>,
                       i: nat, owner: Option<FileId>)
    requires i < |t| && |pool| == |t|
    ensures WriteBacks(pages, faulty, t, pool, i + 1, owner) ==
      if WritesBack(t[i], owner) && KeyOf(t[i]) !in faulty
      then WriteBacks(pages, faulty, t, pool, i, owner)[KeyOf(t[i]) := pool[i]]
      else WriteBacks(pages, faulty, t, pool, i, owner)
  {
  }

  /** The pages that such a pass writes successfully. */
  ghost function WrittenKeys(faulty: set<Key>, t: seq<BufDesc>, m: nat, owner: Option<FileId>): set<Key>
    requires m <= |t|
  {
    if m == 0 then {}
    else
      var d := t[m - 1];
      WrittenKeys(faulty, t, m - 1, owner) +
        (if WritesBack(d, owner) && KeyOf(d) !in faulty then {KeyOf(d)} else {})
  }

  /** The pass touches only the pages it writes, and never a faulty one. */
  lemma {:induction false} WriteBacksTouchOnlyWritten(pages: map<Key, Page>, faulty: set<Key>, t: seq<BufDesc>,
                                                      pool: seq<Page>, m: nat, owner: Option<FileId>)
    requires m <= |t| && |pool| == |t|
    ensures var r := WriteBacks(pages, faulty, t, pool, m, owner);
      && r.Keys == pages.Keys + WrittenKeys(faulty, t, m, owner)
      && WrittenKeys(faulty, t, m, owner) !! faulty
      && forall k :: k in pages && k !in WrittenKeys(faulty, t, m, owner) ==> r[k] == pages[k]
  {
    if m > 0 {
      WriteBacksTouchOnlyWritten(pages, faulty, t, pool, m - 1, owner);
    }
  }

  /** When no two valid frames hold the same page, every frame the pass
      writes successfully ends up on disk with the frame's contents. */
  lemma {:induction false} WriteBacksLand(pages: map<Key, Page>, faulty: set<Key>, t: seq<BufDesc>,
                                          pool: seq<Page>, m: nat, owner: Option<FileId>)
    requires m <= |t| && |pool| == |t| && DistinctPages(t)
    ensures var r := WriteBacks(pages, faulty, t, pool, m, owner);
      forall i :: 0 <= i < m && WritesBack(t[i], owner) && KeyOf(t[i]) !in faulty ==>
        KeyOf(t[i]) in r && r[KeyOf(t[i])] == pool[i]
  {
    if m > 0 {
      WriteBacksLand(pages, faulty, t, pool, m - 1, owner);
    }
  }
}
