/** Pin counting on one frame: every page-index hit pins the frame once more,
    every successful release unpins it once, and a release of an unpinned
    frame is refused. */
module Pins {
  import opened Types

  /** The frame after `n` successive page-index hits. */
  function PinnedTimes(d: BufDesc, n: nat): BufDesc {
    if n == 0 then d else PinnedTimes(d, n - 1).Pinned()
  }

  /** Releases the frame once per mark, in order (a mark says whether that
      release reports the page dirty); None when a release finds the pin
      count already zero. */
  function UnpinAll(d: BufDesc, marks: seq<bool>): Option<BufDesc>
    decreases marks
  {
    if marks == [] then Some(d)
    else if d.pinCnt < 1 then None
    else UnpinAll(d.Unpinned(marks[0]), marks[1..])
  }

  /** n hits add exactly n to the pin count and leave the frame referenced. */
  lemma {:induction false} PinnedTimesAdds(d: BufDesc, n: nat)
    ensures PinnedTimes(d, n) == d.(pinCnt := d.pinCnt + n, refbit := d.refbit || n > 0)
  {
    if n > 0 {
      PinnedTimesAdds(d, n - 1);
    }
  }

  /** A run of releases succeeds exactly when there are no more of them than
      the pin count; each takes one pin and the dirty flag ends up set when it
      was set before or any release reported the page dirty. */
  lemma {:induction false} UnpinAllCountsDown(d: BufDesc, marks: seq<bool>)
    ensures UnpinAll(d, marks).Some? <==> |marks| <= d.pinCnt
    ensures |marks| <= d.pinCnt ==>
      UnpinAll(d, marks) == Some(d.(pinCnt := d.pinCnt - |marks|, dirty := d.dirty || true in marks))
    decreases marks
  {
    if marks != [] && d.pinCnt >= 1 {
      UnpinAllCountsDown(d.Unpinned(marks[0]), marks[1..]);
      assert marks == [marks[0]] + marks[1..];
      assert (true in marks) == (marks[0] || true in marks[1..]);
    }
  }

  /** Pin conservation: from an unpinned frame, n hits allow exactly n
      successful releases; the (n+1)-th is refused. After the n-th the frame
      is unpinned again and dirty when any release said so. */
  lemma PinsAllowExactlyAsManyUnpins(d: BufDesc, n: nat, marks: seq<bool>)
    requires d.pinCnt == 0
    ensures UnpinAll(PinnedTimes(d, n), marks).Some? <==> |marks| <= n
    ensures |marks| == n ==>
      UnpinAll(PinnedTimes(d, n), marks)
        == Some(d.(refbit := d.refbit || n > 0, dirty := d.dirty || true in marks))
  {
    PinnedTimesAdds(d, n);
    UnpinAllCountsDown(PinnedTimes(d, n), marks);
  }
}
