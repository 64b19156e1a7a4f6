/** Agreement between the page index (key -> frame number) and the frame
    table: the index maps k to f exactly when frame f is valid and holds k. */
module Index {
  import opened Types

  /** Every index entry names a frame that holds its page. Every operation
      keeps this, on its error paths too. */
  ghost predicate IndexSound(t: seq<BufDesc>, idx: map<Key, int>) {
    forall k :: k in idx ==> 0 <= idx[k] < |t| && t[idx[k]].Holds(k)
  }

  /** No index entry names frame x. */
  ghost predicate Unreferenced(idx: map<Key, int>, x: int) {
    forall k :: k in idx ==> idx[k] != x
  }

  /** The index and the table agree on every frame except `skip` (a frame
      that is being reused: valid or not, no entry may point at it). */
  ghost predicate IndexMatches(t: seq<BufDesc>, idx: map<Key, int>, skip: int) {
    && IndexSound(t, idx)
    && Unreferenced(idx, skip)
    && (forall i :: 0 <= i < |t| && i != skip && t[i].valid ==>
          t[i].file.Some? && KeyOf(t[i]) in idx && idx[KeyOf(t[i])] == i)
  }

  /** The index and the table agree on every frame. */
  ghost predicate IndexConsistent(t: seq<BufDesc>, idx: map<Key, int>) {
    IndexMatches(t, idx, -1)
  }

  /** The frames that hold a page. */
  ghost function ValidFrames(t: seq<BufDesc>): set<int> {
    if t == [] then {}
    else ValidFrames(t[..|t| - 1]) + (if t[|t| - 1].valid then {|t| - 1} else {})
  }

  /** ValidFrames holds the valid frames, and there are no more of them than
      frames. */
  lemma {:induction false} ValidFramesAre(t: seq<BufDesc>)
    ensures forall i :: i in ValidFrames(t) <==> 0 <= i < |t| && t[i].valid
    ensures |ValidFrames(t)| <= |t|
  {
    if t != [] {
      ValidFramesAre(t[..|t| - 1]);
    }
  }

  /** No two valid frames hold the same page. */
  ghost predicate DistinctPages(t: seq<BufDesc>) {
    forall i, j :: 0 <= i < |t| && 0 <= j < |t| && i != j && t[i].valid && t[j].valid ==>
      t[i].file.Some? && t[j].file.Some? && KeyOf(t[i]) != KeyOf(t[j])
  }

  /** A consistent index allows no page to be held by two frames. */
  lemma ConsistentPagesDistinct(t: seq<BufDesc>, idx: map<Key, int>)
    requires IndexConsistent(t, idx)
    ensures DistinctPages(t)
  {
  }

  /** No two keys of a map share a value. */
  ghost predicate Injective(m: map<Key, int>) {
    forall k, k' :: k in m && k' in m && k != k' ==> m[k] != m[k']
  }

  /** An injective map has as many values as keys. */
  lemma {:induction false} InjectiveCard(m: map<Key, int>)
    requires Injective(m)
    ensures |m.Values| == |m.Keys|
    decreases |m.Keys|
  {
    if m.Keys != {} {
      var k :| k in m.Keys;
      var m' := m - {k};
      assert m'.Keys == m.Keys - {k};
      assert m'.Values == m.Values - {m[k]} by {
        forall v | v in m.Values - {m[k]} ensures v in m'.Values {
          var k' :| k' in m && m[k'] == v;
          assert k' != k;
          assert k' in m'.Keys;
        }
      }
      InjectiveCard(m');
    }
  }

  /** The page index has exactly one entry per valid frame: its size is the
      number of valid frames, which never exceeds the pool size. */
  lemma IndexSizeIsValidFrames(t: seq<BufDesc>, idx: map<Key, int>)
    requires IndexConsistent(t, idx)
    ensures idx.Values == ValidFrames(t)
    ensures |idx| == |ValidFrames(t)| <= |t|
  {
    ValidFramesAre(t);
    assert Injective(idx);
    forall i | i in ValidFrames(t) ensures i in idx.Values {
      assert idx[KeyOf(t[i])] == i;
    }
    InjectiveCard(idx);
  }

  /** The index looks only at validity and the page a frame holds: changes
      to pins, reference bits or dirtiness keep both soundness and agreement. */
  lemma OnlyHoldingsMatter(t: seq<BufDesc>, u: seq<BufDesc>, idx: map<Key, int>, skip: int)
    requires |t| == |u|
    requires forall i :: 0 <= i < |t| ==>
      u[i].valid == t[i].valid && u[i].file == t[i].file && u[i].pageNo == t[i].pageNo
    ensures IndexSound(t, idx) ==> IndexSound(u, idx)
    ensures IndexMatches(t, idx, skip) ==> IndexMatches(u, idx, skip)
  {
    forall k | k in idx && 0 <= idx[k] < |t| && t[idx[k]].Holds(k) ensures u[idx[k]].Holds(k) {
      assert u[idx[k]].valid == t[idx[k]].valid;
    }
  }

  /** Only the page a valid frame holds can name it in a sound index; an
      invalid frame is named by no entry. */
  lemma OnlyOwnKeyNamesFrame(t: seq<BufDesc>, idx: map<Key, int>, x: int)
    requires IndexSound(t, idx) && 0 <= x < |t|
    ensures t[x].valid && t[x].file.Some? ==> Unreferenced(idx - {KeyOf(t[x])}, x)
    ensures !t[x].valid ==> Unreferenced(idx, x)
  {
  }

  /** Overwriting a frame that no entry names keeps the index sound, and so
      does then indexing under the frame's new page. */
  lemma SoundAfterInstall(t: seq<BufDesc>, idx: map<Key, int>, x: int, d: BufDesc, k: Key)
    requires IndexSound(t, idx) && Unreferenced(idx, x) && 0 <= x < |t|
    ensures IndexSound(t[x := d], idx)
    ensures d.Holds(k) ==> IndexSound(t[x := d], idx[k := x])
  {
  }

  /** Overwriting a valid frame and dropping the entry for the page it held
      keeps the index sound. */
  lemma SoundAfterUnindex(t: seq<BufDesc>, idx: map<Key, int>, x: int, d: BufDesc)
    requires IndexSound(t, idx) && 0 <= x < |t| && t[x].valid && t[x].file.Some?
    ensures IndexSound(t[x := d], idx - {KeyOf(t[x])})
  {
  }

  /** Taking frame x for reuse: if it held a page, dropping that page's entry
      leaves the index agreeing with every other frame. */
  lemma ReuseFrame(t: seq<BufDesc>, idx: map<Key, int>, x: int)
    requires IndexConsistent(t, idx) && 0 <= x < |t|
    ensures t[x].valid ==> IndexMatches(t, idx - {KeyOf(t[x])}, x)
    ensures !t[x].valid ==> IndexMatches(t, idx, x)
  {
  }

  /** Installing page k in the frame being reused, and indexing it, restores
      full agreement, provided k was not indexed. */
  lemma InstallRestores(t: seq<BufDesc>, idx: map<Key, int>, x: int, k: Key)
    requires IndexMatches(t, idx, x) && 0 <= x < |t| && k !in idx
    ensures IndexConsistent(t[x := t[x].Set(k.0, k.1)], idx[k := x])
  {
    var u := t[x := t[x].Set(k.0, k.1)];
    forall i | 0 <= i < |u| && u[i].valid
      ensures u[i].file.Some? && KeyOf(u[i]) in idx[k := x] && idx[k := x][KeyOf(u[i])] == i
    {
      if i != x {
        assert KeyOf(u[i]) in idx;
      }
    }
  }

  /** Emptying the frame that holds page k and dropping k's entry keeps the
      agreement. */
  lemma UnindexFrame(t: seq<BufDesc>, idx: map<Key, int>, x: int, d: BufDesc)
    requires IndexConsistent(t, idx) && 0 <= x < |t| && t[x].valid && !d.valid
    ensures IndexConsistent(t[x := d], idx - {KeyOf(t[x])})
  {
  }
}
