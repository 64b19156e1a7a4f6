/** The clock (second-chance) replacement policy as a function of the frame
    table: the hand advances one frame at a time, for at most two full
    revolutions; an invalid frame is taken at once, a referenced frame loses
    its reference bit and is passed over, an unreferenced unpinned frame is
    chosen, an unreferenced pinned frame is passed over. */
module Clock {
  import opened Types

  /** One step of the clock hand over `n` frames. */
  function Advance(hand: int, n: int): (r: int)
    requires 0 <= hand < n
    ensures 0 <= r < n
    ensures r == if hand == n - 1 then 0 else hand + 1
  {
    (hand + 1) % n
  }

  /** How many steps the hand, standing at `from`, takes to reach frame `i`
      (between 1 and n: a full revolution brings it back to `from`). */
  function Dist(from: int, i: int, n: int): int {
    if i > from then i - from else i - from + n
  }

  /** Which step of its revolution the `v`-th step of a two-revolution scan is. */
  function Lap(v: int, n: int): int {
    if v <= n then v else v - n
  }

  /** A frame after the hand has (`seen`) or has not passed it: a valid frame
      that the hand reached has lost its reference bit. */
  function Passed(d: BufDesc, seen: bool): BufDesc {
    if seen && d.valid then d.(refbit := false) else d
  }

  /** Number of frames whose reference bit is set. */
  function RefCount(t: seq<BufDesc>): nat {
    if t == [] then 0
    else RefCount(t[..|t| - 1]) + (if t[|t| - 1].refbit then 1 else 0)
  }

  /** Every frame is valid and pinned: nothing can be chosen. */
  predicate AllPinned(t: seq<BufDesc>) {
    forall i :: 0 <= i < |t| ==> t[i].valid && t[i].pinCnt > 0
  }

  datatype Stop = FoundEmpty | FoundVictim | Exhausted

  /** Where a scan ends: the table, the hand, the number of steps taken, the
      running count of accesses, and why it stopped. */
  datatype Sweep = Sweep(table: seq<BufDesc>, hand: int, visited: nat, accesses: nat, stop: Stop)

  /** The scan of allocBuf from the hand `hand` after `visited` steps. */
  function ClockSweep(t: seq<BufDesc>, hand: int, visited: nat, accesses: nat): Sweep
    requires visited <= 2 * |t|
    requires |t| > 0 ==> 0 <= hand < |t|
    decreases 2 * |t| - visited
  {
    if visited >= 2 * |t| then Sweep(t, hand, visited, accesses, Exhausted)
    else
      var h := Advance(hand, |t|);
      if !t[h].valid then Sweep(t, h, visited + 1, accesses, FoundEmpty)
      else if !t[h].refbit then
        if t[h].pinCnt == 0 then Sweep(t, h, visited + 1, accesses, FoundVictim)
        else ClockSweep(t, h, visited + 1, accesses)
      else ClockSweep(t[h := t[h].(refbit := false)], h, visited + 1, accesses + 1)
  }

  /** What the scan that started at hand `h0` over `t0` has done once it
      stops in `r`. */
  ghost predicate SweepOutcome(t0: seq<BufDesc>, h0: int, r: Sweep) {
    var n := |t0|;
    && |r.table| == n
    && 0 <= r.hand < n
    && 1 <= r.visited <= 2 * n
    // the hand stands where r.visited steps from h0 bring it
    && Dist(h0, r.hand, n) == Lap(r.visited, n)
    // exactly the valid frames the hand reached lost their reference bit
    && (forall i :: 0 <= i < n ==> r.table[i] == Passed(t0[i], Dist(h0, i, n) <= r.visited))
    // every frame passed over was valid, and referenced or pinned
    && (forall i :: 0 <= i < n && Dist(h0, i, n) < r.visited ==>
          t0[i].valid && (t0[i].refbit || t0[i].pinCnt > 0))
    // every frame passed over on the second revolution was pinned
    && (forall i :: 0 <= i < n && Dist(h0, i, n) + n < r.visited ==> t0[i].pinCnt > 0)
    && (r.stop == Exhausted ==> r.visited == 2 * n && AllPinned(t0))
    && (r.stop == FoundEmpty ==> !t0[r.hand].valid)
    && (r.stop == FoundVictim ==>
          t0[r.hand].valid && t0[r.hand].pinCnt == 0 && !r.table[r.hand].refbit)
  }

  /** Clearing one set reference bit lowers the count by one. */
  lemma {:induction false} RefCountClear(t: seq<BufDesc>, h: int)
    requires 0 <= h < |t| && t[h].refbit
    ensures RefCount(t[h := t[h].(refbit := false)]) == RefCount(t) - 1
  {
    var u := t[h := t[h].(refbit := false)];
    if h == |t| - 1 {
      assert u[..|u| - 1] == t[..|t| - 1];
    } else {
      assert u[..|u| - 1] == t[..|t| - 1][h := t[h].(refbit := false)];
      RefCountClear(t[..|t| - 1], h);
    }
  }

  /** One step of the hand moves it one step further in the scan. */
  lemma AdvanceDist(h0: int, hand: int, n: int, visited: nat)
    requires 0 <= h0 < n && 0 <= hand < n && visited < 2 * n
    requires visited == 0 ==> hand == h0
    requires visited > 0 ==> Dist(h0, hand, n) == Lap(visited, n)
    ensures Dist(h0, Advance(hand, n), n) == Lap(visited + 1, n)
  {
  }

  /** What holds after `visited` steps of the scan that started at hand `h0`
      over `t0`, when it has not stopped yet. */
  ghost predicate ScanInv(t0: seq<BufDesc>, h0: int, t: seq<BufDesc>, hand: int, visited: nat) {
    var n := |t0|;
    && 0 <= h0 < n && |t| == n && 0 <= hand < n && visited <= 2 * n
    && (visited == 0 ==> hand == h0)
    && (visited > 0 ==> Dist(h0, hand, n) == Lap(visited, n))
    && (forall i :: 0 <= i < n ==> t[i] == Passed(t0[i], Dist(h0, i, n) <= visited))
    && (forall i :: 0 <= i < n && Dist(h0, i, n) <= visited ==>
          t0[i].valid && (t0[i].refbit || t0[i].pinCnt > 0))
    && (forall i :: 0 <= i < n && Dist(h0, i, n) + n <= visited ==> t0[i].pinCnt > 0)
  }

  /** Passing over a pinned, unreferenced frame keeps the invariant. */
  lemma StepOverPinned(t0: seq<BufDesc>, h0: int, t: seq<BufDesc>, hand: int, visited: nat)
    requires ScanInv(t0, h0, t, hand, visited) && visited < 2 * |t0|
    requires var h := Advance(hand, |t0|); t[h].valid && !t[h].refbit && t[h].pinCnt > 0
    ensures ScanInv(t0, h0, t, Advance(hand, |t0|), visited + 1)
  {
    var n, h := |t0|, Advance(hand, |t0|);
    AdvanceDist(h0, hand, n, visited);
    assert forall i :: 0 <= i < n && i != h ==> Dist(h0, i, n) != Dist(h0, h, n);
  }

  /** Clearing the reference bit of the frame under the hand keeps the invariant. */
  lemma StepOverReferenced(t0: seq<BufDesc>, h0: int, t: seq<BufDesc>, hand: int, visited: nat)
    requires ScanInv(t0, h0, t, hand, visited) && visited < 2 * |t0|
    requires var h := Advance(hand, |t0|); t[h].valid && t[h].refbit
    ensures var h := Advance(hand, |t0|); ScanInv(t0, h0, t[h := t[h].(refbit := false)], h, visited + 1)
  {
    var n, h := |t0|, Advance(hand, |t0|);
    AdvanceDist(h0, hand, n, visited);
    assert forall i :: 0 <= i < n && i != h ==> Dist(h0, i, n) != Dist(h0, h, n);
  }

  /** Stopping at an invalid frame. */
  lemma StopAtEmpty(t0: seq<BufDesc>, h0: int, t: seq<BufDesc>, hand: int, visited: nat, acc: nat)
    requires ScanInv(t0, h0, t, hand, visited) && visited < 2 * |t0|
    requires !t[Advance(hand, |t0|)].valid
    ensures SweepOutcome(t0, h0, ClockSweep(t, hand, visited, acc))
    ensures ClockSweep(t, hand, visited, acc).table == t && ClockSweep(t, hand, visited, acc).accesses == acc
  {
    var n, h := |t0|, Advance(hand, |t0|);
    assert ClockSweep(t, hand, visited, acc) == Sweep(t, h, visited + 1, acc, FoundEmpty);
    AdvanceDist(h0, hand, n, visited);
    assert forall i :: 0 <= i < n && i != h ==> Dist(h0, i, n) != Dist(h0, h, n);
  }

  /** Stopping at an unreferenced, unpinned frame. */
  lemma StopAtVictim(t0: seq<BufDesc>, h0: int, t: seq<BufDesc>, hand: int, visited: nat, acc: nat)
    requires ScanInv(t0, h0, t, hand, visited) && visited < 2 * |t0|
    requires var h := Advance(hand, |t0|); t[h].valid && !t[h].refbit && t[h].pinCnt == 0
    ensures SweepOutcome(t0, h0, ClockSweep(t, hand, visited, acc))
    ensures ClockSweep(t, hand, visited, acc).table == t && ClockSweep(t, hand, visited, acc).accesses == acc
  {
    var n, h := |t0|, Advance(hand, |t0|);
    assert ClockSweep(t, hand, visited, acc) == Sweep(t, h, visited + 1, acc, FoundVictim);
    AdvanceDist(h0, hand, n, visited);
    assert forall i :: 0 <= i < n && i != h ==> Dist(h0, i, n) != Dist(h0, h, n);
  }

  /** Giving up after two revolutions. */
  lemma StopExhausted(t0: seq<BufDesc>, h0: int, t: seq<BufDesc>, hand: int, acc: nat)
    requires ScanInv(t0, h0, t, hand, 2 * |t0|)
    ensures SweepOutcome(t0, h0, ClockSweep(t, hand, 2 * |t0|, acc))
    ensures ClockSweep(t, hand, 2 * |t0|, acc).table == t && ClockSweep(t, hand, 2 * |t0|, acc).accesses == acc
  {
    var n := |t0|;
    assert ClockSweep(t, hand, 2 * n, acc) == Sweep(t, hand, 2 * n, acc, Exhausted);
    assert forall i :: 0 <= i < n ==> Dist(h0, i, n) + n <= 2 * n;
  }

  /** The scan that passes over a pinned frame ends where the scan one step
      later ends. */
  lemma SkipPinned(t0: seq<BufDesc>, h0: int, t: seq<BufDesc>, hand: int, visited: nat, acc: nat)
    requires 0 <= hand < |t| && visited < 2 * |t|
    requires var h := Advance(hand, |t|); t[h].valid && !t[h].refbit && t[h].pinCnt > 0
    requires SweepOutcome(t0, h0, ClockSweep(t, Advance(hand, |t|), visited + 1, acc))
    ensures SweepOutcome(t0, h0, ClockSweep(t, hand, visited, acc))
    ensures ClockSweep(t, hand, visited, acc) == ClockSweep(t, Advance(hand, |t|), visited + 1, acc)
  {
  }

  /** The scan that clears a reference bit ends where the scan one step later
      ends. */
  lemma SkipReferenced(t0: seq<BufDesc>, h0: int, t: seq<BufDesc>, hand: int, visited: nat, acc: nat)
    requires 0 <= hand < |t| && visited < 2 * |t|
    requires var h := Advance(hand, |t|); t[h].valid && t[h].refbit
    requires var h := Advance(hand, |t|);
      SweepOutcome(t0, h0, ClockSweep(t[h := t[h].(refbit := false)], h, visited + 1, acc + 1))
    ensures SweepOutcome(t0, h0, ClockSweep(t, hand, visited, acc))
    ensures var h := Advance(hand, |t|);
      ClockSweep(t, hand, visited, acc) == ClockSweep(t[h := t[h].(refbit := false)], h, visited + 1, acc + 1)
  {
  }

  /** The loop invariant of the scan, carried from step `visited` to its end. */
  lemma {:induction false} SweepInvariant(t0: seq<BufDesc>, h0: int, t: seq<BufDesc>, hand: int, visited: nat, acc: nat)
    requires ScanInv(t0, h0, t, hand, visited)
    ensures SweepOutcome(t0, h0, ClockSweep(t, hand, visited, acc))
    decreases 2 * |t0| - visited
  {
    var n := |t0|;
    if visited == 2 * n {
      StopExhausted(t0, h0, t, hand, acc);
    } else {
      var h := Advance(hand, n);
      if !t[h].valid {
        StopAtEmpty(t0, h0, t, hand, visited, acc);
      } else if !t[h].refbit && t[h].pinCnt == 0 {
        StopAtVictim(t0, h0, t, hand, visited, acc);
      } else if !t[h].refbit {
        StepOverPinned(t0, h0, t, hand, visited);
        SweepInvariant(t0, h0, t, h, visited + 1, acc);
        SkipPinned(t0, h0, t, hand, visited, acc);
      } else {
        var t' := t[h := t[h].(refbit := false)];
        StepOverReferenced(t0, h0, t, hand, visited);
        SweepInvariant(t0, h0, t', h, visited + 1, acc + 1);
        SkipReferenced(t0, h0, t, hand, visited, acc);
      }
    }
  }

  /** Every reference bit the scan clears counts as one access. */
  lemma {:induction false} SweepCountsAccesses(t: seq<BufDesc>, hand: int, visited: nat, acc: nat)
    requires visited <= 2 * |t| && (|t| > 0 ==> 0 <= hand < |t|)
    ensures var r := ClockSweep(t, hand, visited, acc); r.accesses + RefCount(r.table) == acc + RefCount(t)
    decreases 2 * |t| - visited
  {
    if visited < 2 * |t| {
      var h := Advance(hand, |t|);
      if t[h].valid && !t[h].refbit && t[h].pinCnt > 0 {
        SweepCountsAccesses(t, h, visited + 1, acc);
      } else if t[h].valid && t[h].refbit {
        RefCountClear(t, h);
        SweepCountsAccesses(t[h := t[h].(refbit := false)], h, visited + 1, acc + 1);
      }
    }
  }

  /** The whole scan of allocBuf from hand `h` over `t`. */
  lemma ClockSweepCorrect(t: seq<BufDesc>, h: int, acc: nat)
    requires 0 <= h < |t|
    ensures SweepOutcome(t, h, ClockSweep(t, h, 0, acc))
    ensures var r := ClockSweep(t, h, 0, acc); r.accesses == acc + RefCount(t) - RefCount(r.table)
  {
    SweepInvariant(t, h, t, h, 0, acc);
    SweepCountsAccesses(t, h, 0, acc);
  }

  /** The scan fails exactly when every frame is valid and pinned. */
  lemma ExhaustedIffAllPinned(t: seq<BufDesc>, h: int, acc: nat)
    requires |t| > 0 ==> 0 <= h < |t|
    ensures ClockSweep(t, h, 0, acc).stop == Exhausted <==> AllPinned(t)
  {
    if |t| > 0 {
      ClockSweepCorrect(t, h, acc);
    }
  }

  /** A frame the scan chooses is in range and either invalid, or valid,
      unreferenced and unpinned; it is never a pinned valid frame, and
      keeps its pin count. The scan stops at
      an invalid frame exactly when it chose one, and always within the first
      revolution. */
  lemma SweepChoosesFreeFrame(t: seq<BufDesc>, h: int, acc: nat)
    requires |t| > 0 ==> 0 <= h < |t|
    ensures var r := ClockSweep(t, h, 0, acc);
      r.stop != Exhausted ==>
        && 0 <= r.hand < |t|
        && |r.table| == |t|
        && r.visited <= 2 * |t|
        && r.table[r.hand].pinCnt == t[r.hand].pinCnt
        && (!t[r.hand].valid || (t[r.hand].pinCnt == 0 && !r.table[r.hand].refbit))
        && (r.stop == FoundEmpty <==> !t[r.hand].valid)
        && (r.stop == FoundEmpty ==> r.visited <= |t|)
  {
    if |t| > 0 {
      ClockSweepCorrect(t, h, acc);
      var r := ClockSweep(t, h, 0, acc);
      assert r.table[r.hand] == Passed(t[r.hand], Dist(h, r.hand, |t|) <= r.visited);
    }
  }

  /** The scan only clears reference bits: validity, pins, dirtiness and the
      page held by every frame stay as they were. */
  lemma SweepOnlyClearsRefbits(t: seq<BufDesc>, h: int, acc: nat)
    requires |t| > 0 ==> 0 <= h < |t|
    ensures var r := ClockSweep(t, h, 0, acc);
      && |r.table| == |t|
      && r.accesses >= acc
      && forall i :: 0 <= i < |t| ==> r.table[i] == t[i].(refbit := r.table[i].refbit)
  {
    if |t| > 0 {
      ClockSweepCorrect(t, h, acc);
      var r := ClockSweep(t, h, 0, acc);
      forall i | 0 <= i < |t|
        ensures r.table[i] == t[i].(refbit := r.table[i].refbit)
      {
        assert r.table[i] == Passed(t[i], Dist(h, i, |t|) <= r.visited);
      }
      RefCountBound(t, r.table);
    }
  }

  /** A table whose reference bits are all no higher than another's has no
      more of them set. */
  lemma {:induction false} RefCountBound(t: seq<BufDesc>, u: seq<BufDesc>)
    requires |t| == |u|
    requires forall i :: 0 <= i < |t| && u[i].refbit ==> t[i].refbit
    ensures RefCount(u) <= RefCount(t)
  {
    if t != [] {
      RefCountBound(t[..|t| - 1], u[..|u| - 1]);
    }
  }
}
