/** The window invariant before the generator wraps, and what each ring operation
    does to it. */
module RingInvariant {
  import opened Words
  import opened RingSpec
  import opened Residues

  /** Item i is live and x is its number: it sits in the slot x selects. */
  ghost predicate LiveAs(r: Ring, i: nat, x: int)
    requires WellFormed(r) && i < |r.items|
  {
    && !r.items[i].acked && r.items[i].seqNum == x
    && 1 <= x
    && r.slots[(x - 1) % r.window] == Some(i)
  }

  ghost predicate NothingLive(r: Ring)
    requires WellFormed(r)
  {
    forall k :: 0 <= k < |r.slots| ==> !LiveSlot(r, k)
  }

  ghost predicate SlotsAgree(r: Ring, w: int)
    requires WellFormed(r)
  {
    forall k :: 0 <= k < |r.slots| && LiveSlot(r, k) ==>
      1 <= ItemAt(r, k).seqNum < w && (ItemAt(r, k).seqNum - 1) % r.window == k
  }

  ghost predicate AckedAreReset(r: Ring)
    requires WellFormed(r)
  {
    forall i :: 0 <= i < |r.items| && r.items[i].acked ==> r.items[i].seqNum == 0
  }

  /** The oldest pointer is the live item with the smallest number, and the next
      number to hand out is at most a window ahead of it. */
  ghost predicate OldestIsMin(r: Ring)
    requires WellFormed(r)
  {
    match r.oldest
    case None => NothingLive(r)
    case Some(i) =>
      && LiveAs(r, i, r.items[i].seqNum)
      && r.items[i].seqNum < r.seqNum <= r.items[i].seqNum + r.window
      && forall k :: 0 <= k < |r.slots| && LiveSlot(r, k) ==> r.items[i].seqNum <= ItemAt(r, k).seqNum
  }

  /** Numbers below w have been installed or given up; those from w up to
      r.seqNum are handed out but not installed. */
  ghost predicate RingInv(r: Ring, w: int) {
    && WellFormed(r)
    && 1 <= w <= r.seqNum <= LAST
    && SlotsAgree(r, w)
    && AckedAreReset(r)
    && OldestIsMin(r)
  }

  lemma InitInv(window: u16)
    requires window > 0
    ensures RingInv(InitRing(window), 1)
  {
  }

  /** The test by modulus is exact: it holds if and only if something is live and
      the next number is a whole window ahead of the oldest. */
  lemma FullExactly(r: Ring, w: int)
    requires RingInv(r, w)
    ensures WindowFull(r) <==>
              r.oldest.Some? && r.seqNum - r.items[r.oldest.value].seqNum == r.window
  {
    if r.oldest.Some? {
      var d := r.seqNum - r.items[r.oldest.value].seqNum;
      assert Sub32(r.seqNum, r.items[r.oldest.value].seqNum) == d;
      if d == r.window {
        ModUnique(d, 1, 0, r.window);
      } else {
        ModSmall(d, r.window);
      }
    }
  }

  /** Handing out a number keeps the invariant unless it is the last before the wrap. */
  lemma NextKeeps(r: Ring, w: int)
    requires RingInv(r, w)
    requires r.seqNum < LAST
    ensures RingInv(NextSeqNum(r).0, w)
    ensures NextSeqNum(r).1 == if WindowFull(r) then Full else Next(r.seqNum)
  {
    FullExactly(r, w);
    var r' := NextSeqNum(r).0;
    assert forall k :: 0 <= k < |r.slots| ==>
        LiveSlot(r', k) == LiveSlot(r, k) && (LiveSlot(r, k) ==> ItemAt(r', k) == ItemAt(r, k));
  }

  lemma OldestIffLive(r: Ring, w: int)
    requires RingInv(r, w)
    ensures r.oldest.None? <==> NothingLive(r)
  {
    if r.oldest.Some? {
      assert LiveSlot(r, (r.items[r.oldest.value].seqNum - 1) % r.window);
    }
  }

  /** With nothing live the repaired ring always has capacity. */
  lemma IdleHasCapacity(r: Ring, w: int)
    requires RingInv(r, w) && NothingLive(r)
    ensures NextSeqNum(r).1 == Next(r.seqNum)
  {
    OldestIffLive(r, w);
  }

  /** The slot of the number about to be installed holds nothing live. */
  lemma InstallSlotFree(r: Ring, w: int)
    requires RingInv(r, w) && w < r.seqNum
    requires r.seqNum - w <= r.window
    ensures !LiveSlot(r, Modulus(r, w))
  {
    var k := Modulus(r, w);
    assert Sub32(w, 1) == w - 1;
    if LiveSlot(r, k) {
      var x := ItemAt(r, k).seqNum;
      assert r.oldest.Some?;
      ModDistinct(x - 1, w - 1, r.window);
    }
  }

  lemma InstallKeeps(r: Ring, w: int)
    requires RingInv(r, w) && w < r.seqNum
    requires r.seqNum - w <= r.window
    ensures RingInv(SetNextItem(r, w), w + 1)
    ensures LiveSlot(SetNextItem(r, w), Modulus(r, w))
  {
    InstallSlotFree(r, w);
    var r' := SetNextItem(r, w);
    var j := Modulus(r, w);
    assert Sub32(w, 1) == w - 1;
    forall k | 0 <= k < |r.slots|
      ensures k == j ==> LiveSlot(r', k) && ItemAt(r', k) == Item(w, false)
      ensures k != j ==> LiveSlot(r', k) == LiveSlot(r, k)
      ensures k != j && LiveSlot(r, k) ==> ItemAt(r', k) == ItemAt(r, k)
    {
    }
    assert SlotsAgree(r', w + 1);
    assert AckedAreReset(r');
    if r.oldest.Some? {
      var x := r.items[r.oldest.value].seqNum;
      assert LiveSlot(r, (x - 1) % r.window);
      assert LiveAs(r', r.oldest.value, x);
    } else {
      assert LiveAs(r', |r.items|, w);
    }
  }

  /** Giving a number up (its write failed) only moves the installation point. */
  lemma SkipKeeps(r: Ring, w: int)
    requires RingInv(r, w) && w < r.seqNum
    ensures RingInv(r, w + 1)
  {
  }

  // ----- acknowledgement -----

  lemma ScanStopsFirst(r: Ring, j: nat, i: nat)
    requires WellFormed(r) && j < |r.slots| && i >= 1
    ensures match Scan(r, j, i)
            case None => forall m :: i <= m <= r.window ==> !LiveSlot(r, SlotAfter(j, m, r.window))
            case Some(k) => exists m :: i <= m <= r.window && k == SlotAfter(j, m, r.window)
                                        && forall m' :: i <= m' < m ==> !LiveSlot(r, SlotAfter(j, m', r.window))
    decreases r.window + 1 - i
  {
    if i <= r.window && !LiveSlot(r, SlotAfter(j, i, r.window)) {
      ScanStopsFirst(r, j, i + 1);
    }
  }

  /** The place of slot k in the scan that starts after slot j. */
  lemma ScanCovers(j: nat, k: nat, w: nat) returns (m: nat)
    requires j < w && k < w
    ensures 1 <= m <= w && SlotAfter(j, m, w) == k
  {
    if k > j {
      m := k - j;
      ModSmall(k, w);
    } else {
      m := k + w - j;
      ModUnique(j + m, 1, k, w);
    }
  }

  /** A number d after x, d below the window, is met by the scan from x's slot
      at place d and nowhere else. */
  lemma ScanPlace(x: int, d: nat, w: nat, j: nat, k: nat)
    requires x >= 1 && 0 < d < w
    requires j == (x - 1) % w && k == (x - 1 + d) % w
    ensures SlotAfter(j, d, w) == k
    ensures forall m :: 1 <= m <= w && m != d ==> SlotAfter(j, m, w) != k
  {
    ModAdd(x - 1, d, w);
    forall m | 1 <= m <= w && m != d
      ensures SlotAfter(j, m, w) != SlotAfter(j, d, w)
    {
      ModDistinct(j + (if m < d then m else d), j + (if m < d then d else m), w);
    }
  }

  /** Circular scan refines minimum: with every live number above x and within a
      window of it, the scan from the slot of x stops at the live item with the
      smallest number, and falls through if and only if nothing is live. */
  lemma ScanFindsMinimum(r: Ring, w: int, x: int, j: nat)
    requires WellFormed(r) && SlotsAgree(r, w)
    requires 1 <= x && j == (x - 1) % r.window
    requires forall k :: 0 <= k < |r.slots| && LiveSlot(r, k) ==> x < ItemAt(r, k).seqNum < x + r.window
    ensures Scan(r, j, 1).None? <==> NothingLive(r)
    ensures Scan(r, j, 1).Some? ==>
              forall k :: 0 <= k < |r.slots| && LiveSlot(r, k) ==>
                ItemAt(r, Scan(r, j, 1).value).seqNum <= ItemAt(r, k).seqNum
  {
    ScanStopsFirst(r, j, 1);
    match Scan(r, j, 1)
    case None =>
      forall k | 0 <= k < |r.slots|
        ensures !LiveSlot(r, k)
      {
        var m := ScanCovers(j, k, r.window);
      }
    case Some(k) =>
      var m :| 1 <= m <= r.window && k == SlotAfter(j, m, r.window)
               && forall m' :: 1 <= m' < m ==> !LiveSlot(r, SlotAfter(j, m', r.window));
      var y := ItemAt(r, k).seqNum;
      ScanPlace(x, y - x, r.window, j, k);
      assert m == y - x;
      forall k' | 0 <= k' < |r.slots| && LiveSlot(r, k')
        ensures y <= ItemAt(r, k').seqNum
      {
        ScanPlace(x, ItemAt(r, k').seqNum - x, r.window, j, k');
      }
  }

  lemma ResetFacts(r: Ring, w: int, j: nat)
    requires RingInv(r, w) && j < |r.slots| && r.slots[j].Some?
    requires ItemAt(r, j).acked || LiveSlot(r, j)
    ensures var r1 := ResetItem(r, r.slots[j].value);
            && SlotsAgree(r1, w) && AckedAreReset(r1) && !LiveSlot(r1, j)
            && (forall k :: 0 <= k < |r.slots| && k != j ==> LiveSlot(r1, k) == LiveSlot(r, k))
            && (forall k :: 0 <= k < |r.slots| && LiveSlot(r1, k) ==> LiveSlot(r, k) && ItemAt(r1, k) == ItemAt(r, k))
  {
    var i := r.slots[j].value;
    var r1 := ResetItem(r, i);
    forall k | 0 <= k < |r.slots|
      ensures k != j ==> LiveSlot(r1, k) == LiveSlot(r, k)
      ensures LiveSlot(r1, k) ==> LiveSlot(r, k) && ItemAt(r1, k) == ItemAt(r, k)
    {
    }
  }

  /** Any acknowledgement keeps the invariant of the repaired ring. */
  lemma AckKeeps(r: Ring, w: int, n: u32)
    requires RingInv(r, w)
    ensures RingInv(UpdateAck(r, n, ClearOldest).0, w)
  {
    var j := Modulus(r, n);
    if r.slots[j].None? || ItemAt(r, j).seqNum != n { return; }
    var i := r.slots[j].value;
    var r1 := ResetItem(r, i);
    ResetFacts(r, w, j);
    if r.oldest.None? {
      assert NothingLive(r1);
      ScanStopsFirst(r1, j, 1);
    } else {
      var x := r.items[r.oldest.value].seqNum;
      assert LiveSlot(r, (x - 1) % r.window);
      if r.oldest == Some(i) {
        assert j == (x - 1) % r.window;
        AckOldestKeeps(r, w, x, j);
      } else {
        assert LiveAs(r1, r.oldest.value, x);
      }
    }
  }

  lemma AckOldestKeeps(r: Ring, w: int, x: int, j: nat)
    requires RingInv(r, w) && r.oldest.Some? && LiveAs(r, r.oldest.value, x)
    requires j == (x - 1) % r.window
    ensures RingInv(UpdateAck(r, x, ClearOldest).0, w)
  {
    var r1 := ResetItem(r, r.oldest.value);
    assert Modulus(r, x) == j;
    ResetFacts(r, w, j);
    forall k | 0 <= k < |r.slots| && LiveSlot(r1, k)
      ensures x < ItemAt(r1, k).seqNum < x + r.window
    {
      assert x <= ItemAt(r, k).seqNum;
    }
    ScanFindsMinimum(r1, w, x, j);
    match Scan(r1, j, 1)
    case Some(k) => AdvanceKeeps(r1, w, k);
    case None => ClearKeeps(r1, w);
  }

  lemma AdvanceKeeps(r: Ring, w: int, k: nat)
    requires WellFormed(r) && 1 <= w <= r.seqNum <= LAST && SlotsAgree(r, w) && AckedAreReset(r)
    requires k < |r.slots| && LiveSlot(r, k)
    requires r.seqNum <= ItemAt(r, k).seqNum + r.window
    requires forall k' :: 0 <= k' < |r.slots| && LiveSlot(r, k') ==> ItemAt(r, k).seqNum <= ItemAt(r, k').seqNum
    ensures RingInv(r.(oldest := r.slots[k]), w)
  {
    var r' := r.(oldest := r.slots[k]);
    assert LiveAs(r', r.slots[k].value, ItemAt(r, k).seqNum);
    assert forall k' :: 0 <= k' < |r.slots| && LiveSlot(r', k') ==> LiveSlot(r, k') && ItemAt(r', k') == ItemAt(r, k');
  }

  lemma ClearKeeps(r: Ring, w: int)
    requires WellFormed(r) && 1 <= w <= r.seqNum <= LAST && SlotsAgree(r, w) && AckedAreReset(r) && NothingLive(r)
    ensures RingInv(r.(oldest := None), w)
  {
    var r' := r.(oldest := None);
    assert forall k :: 0 <= k < |r.slots| ==> LiveSlot(r', k) == LiveSlot(r, k);
  }

  /** Acknowledging number n takes exactly n's item out of the live ones. */
  lemma AckRemovesExactly(r: Ring, w: int, n: u32, drain: Drain, k: nat)
    requires RingInv(r, w) && k < |r.slots|
    ensures LiveSlot(UpdateAck(r, n, drain).0, k) <==> LiveSlot(r, k) && ItemAt(r, k).seqNum != n
    ensures LiveSlot(UpdateAck(r, n, drain).0, k) ==> ItemAt(UpdateAck(r, n, drain).0, k) == ItemAt(r, k)
  {
    var j := Modulus(r, n);
    if n >= 1 {
      assert Sub32(n, 1) == n - 1;
    }
    if r.slots[j].Some? && ItemAt(r, j).seqNum == n {
      ResetFacts(r, w, j);
    }
  }

  /** As long as an acknowledgement does not drain the ring, the code as written
      and the repair do the same. */
  lemma SameUntilDrain(r: Ring, n: u32)
    requires WellFormed(r)
    ensures UpdateAck(r, n, KeepOldest).1 == UpdateAck(r, n, ClearOldest).1
    ensures UpdateAck(r, n, KeepOldest).1 != Drained ==> UpdateAck(r, n, KeepOldest) == UpdateAck(r, n, ClearOldest)
  {
  }

  /** Which of its outcomes an acknowledgement of number n has: the slot that n
      selects is empty, or holds an item already acknowledged, or another number, all
      of which leave the ring as it was; or it holds n, and what follows depends on
      whether that is the oldest item and on whether anything else is live. */
  lemma AckOutcomeExactly(r: Ring, n: u32, drain: Drain)
    requires WellFormed(r) && n >= 1
    ensures var (r', res) := UpdateAck(r, n, drain);
            var at := r.slots[(n - 1) % r.window];
            && (res == NoItem <==> at == None)
            && (res == AlreadyAcked <==> at.Some? && r.items[at.value] == Item(0, true))
            && (res == Mismatch <==> at.Some? && r.items[at.value] != Item(0, true) && r.items[at.value].seqNum != n)
            && (res == NotOldest <==>
                at.Some? && r.items[at.value].seqNum == n && r.oldest.Some? && r.oldest != at)
            && (res == NoItem || res == AlreadyAcked || res == Mismatch ==> r' == r)
            && (res == NotOldest ==> r' == r.(items := r.items[at.value := Item(0, true)]))
            && (res == Drained <==>
                at.Some? && r.items[at.value].seqNum == n && (r.oldest.None? || r.oldest == at) && NothingLive(r'))
  {
    var j := (n - 1) % r.window;
    assert Sub32(n, 1) == n - 1 && Modulus(r, n) == j;
    var at := r.slots[j];
    if at.Some? && r.items[at.value].seqNum == n && (r.oldest.None? || r.oldest == at) {
      var r1 := ResetItem(r, at.value);
      ScanStopsFirst(r1, j, 1);
      forall k | 0 <= k < |r.slots| && Scan(r1, j, 1) == None
        ensures !LiveSlot(r1, k)
      {
        var m := ScanCovers(j, k, r.window);
      }
      var r' := UpdateAck(r, n, drain).0;
      assert forall k :: 0 <= k < |r.slots| ==> LiveSlot(r', k) == LiveSlot(r1, k);
    }
  }

  /** The generator's overflow error: out of its range, and nowhere else. */
  lemma OverflowExactly(r: Ring)
    requires WellFormed(r)
    ensures NextSeqNum(r).1 == Overflow <==> !WindowFull(r) && r.seqNum == 0xFFFF_FFFF
    ensures NextSeqNum(r).1 == Overflow ==> NextSeqNum(r).0 == r
  {
  }
}
