/** Slot safety of the code as written: after a drain the window no longer bounds
    what is out, and a buffer of three frames is enough to install over a live
    item before the wrap. */
module WrittenWindow {
  import opened Words
  import opened RingSpec
  import opened RingInvariant
  import opened SendWindow
  import opened Starvation
  import WrapAround
  import SenderWrap
  import Residues

  // ----- two buffered frames are safe -----

  /** After a drain: everything out lies in the window that ends at m, the multiple
      of the window at which the stranded generator stops. */
  ghost predicate Kept(s: Sender, m: int) {
    && Stranded(s) && QueueConsecutive(s)
    && m % s.ring.window == 0 && s.ring.seqNum <= m && m - s.ring.window <= Frontier(s)
    && forall k :: 0 <= k < |s.ring.slots| && LiveSlot(s.ring, k) ==>
         InWindow(s, m, ItemAt(s.ring, k).seqNum) && (ItemAt(s.ring, k).seqNum - 1) % s.ring.window == k
  }

  predicate InWindow(s: Sender, m: int, n: u32) {
    m - s.ring.window <= n < Frontier(s)
  }

  lemma KeptPut(s: Sender, frame: seq<byte>, m: int)
    requires Kept(s, m) && !Wraps(s, Put(frame))
    ensures Kept(Step(s, Put(frame), KeepOldest), m)
  {
    StrandedFull(s);
    StrandedPut(s, frame);
    var s' := Step(s, Put(frame), KeepOldest);
    assert forall k :: 0 <= k < |s.ring.slots| ==> LiveSlot(s'.ring, k) == LiveSlot(s.ring, k);
  }

  lemma KeptHeadFree(s: Sender, m: int)
    requires Kept(s, m) && s.queue != []
    ensures !LiveSlot(s.ring, Modulus(s.ring, s.queue[0].seqNum))
  {
    var n := s.queue[0].seqNum;
    var k := Modulus(s.ring, n);
    assert n == Frontier(s) && Sub32(n, 1) == n - 1;
    if LiveSlot(s.ring, k) {
      Residues.ModDistinct(ItemAt(s.ring, k).seqNum - 1, n - 1, s.ring.window);
    }
  }

  lemma KeptWrite(s: Sender, outcome: Outcome, m: int)
    requires Kept(s, m)
    ensures Kept(Step(s, Write(outcome), KeepOldest), m)
  {
    if s.queue == [] { return; }
    var n := s.queue[0].seqNum;
    assert n == Frontier(s) && Sub32(n, 1) == n - 1;
    StrandedStep(s, Write(outcome));
    var s' := Step(s, Write(outcome), KeepOldest);
    assert Frontier(s') == n + 1;
    assert forall i :: 0 <= i < |s'.queue| ==> s'.queue[i] == s.queue[i + 1];
    forall k | 0 <= k < |s.ring.slots| && LiveSlot(s'.ring, k)
      ensures InWindow(s', m, ItemAt(s'.ring, k).seqNum) && (ItemAt(s'.ring, k).seqNum - 1) % s.ring.window == k
    {
      if !(outcome.Complete? && k == Modulus(s.ring, n)) {
        assert LiveSlot(s.ring, k) && ItemAt(s'.ring, k) == ItemAt(s.ring, k);
      }
    }
  }

  lemma KeptFire(s: Sender, n: u32, m: int)
    requires Kept(s, m)
    ensures Kept(Step(s, Fire(n), KeepOldest), m)
  {
    StrandedFire(s, n);
    var s' := Step(s, Fire(n), KeepOldest);
    if n in s.waiting {
      var j := Modulus(s.ring, n);
      assert s.ring.slots[j].Some? && ItemAt(s.ring, j).seqNum == n ==> s.ring.slots[j] != s.ring.oldest;
    }
    forall k | 0 <= k < |s.ring.slots| && LiveSlot(s'.ring, k)
      ensures LiveSlot(s.ring, k) && ItemAt(s'.ring, k) == ItemAt(s.ring, k)
    {
    }
  }

  lemma KeptStep(s: Sender, e: Event, m: int)
    requires Kept(s, m) && !Wraps(s, e)
    ensures Kept(Step(s, e, KeepOldest), m)
  {
    match e
    case Put(frame) => KeptPut(s, frame, m);
    case Write(outcome) => KeptWrite(s, outcome, m);
    case Fire(n) => KeptFire(s, n, m);
    case Timeout(n) =>
  }

  /** When the last live item of at most two buffered frames is acknowledged, at
      most one frame is still queued. */
  lemma DrainKept(s: Sender, e: Event) returns (m: int)
    requires Inv(s) && s.maxsize <= 2 && Drains(s, e)
    ensures Kept(Step(s, e, KeepOldest), m)
  {
    DrainStrands(s, e);
    DrainedEmpty(s, e);
    QueueOfOne(s, e.seqNum);
    m := NextMultiple(s.ring.seqNum, s.ring.window);
  }

  lemma NextMultiple(x: int, w: int) returns (m: int)
    requires w > 0
    ensures m % w == 0 && m - w <= x - 1 < m
  {
    m := if x % w == 0 then x else x - x % w + w;
    if x % w != 0 {
      Residues.ModUnique(m, x / w + 1, 0, w);
    }
  }

  lemma DrainedEmpty(s: Sender, e: Event)
    requires Inv(s) && Drains(s, e)
    ensures NothingLive(Step(s, e, KeepOldest).ring)
  {
    FireKeeps(s, e.seqNum);
    var r := Step(s, e, ClearOldest).ring;
    SameUntilDrain(s.ring, e.seqNum);
    assert r.oldest == None && r.slots == Step(s, e, KeepOldest).ring.slots;
    forall k | 0 <= k < |r.slots|
      ensures LiveSlot(Step(s, e, KeepOldest).ring, k) == LiveSlot(r, k)
    {
    }
  }

  lemma QueueOfOne(s: Sender, n: u32)
    requires Inv(s) && s.maxsize <= 2 && n in s.waiting
    ensures |s.queue| <= 1
  {
    var w := Frontier(s);
    forall x: u32 | w <= x < s.ring.seqNum
      ensures x in s.buffer.Keys - {n}
    {
      assert s.queue[x - w].seqNum == x;
    }
    RangeFits(w, s.ring.seqNum, s.buffer.Keys - {n});
    assert |s.buffer.Keys - {n}| == |s.buffer.Keys| - 1;
  }

  ghost predicate Fine(s: Sender) {
    (Inv(s) && s.maxsize <= 2) || exists m :: Kept(s, m)
  }

  lemma FineStep(s: Sender, e: Event)
    requires Fine(s) && WellFormed(s.ring) && !Wraps(s, e)
    ensures Fine(Step(s, e, KeepOldest)) && !Overwrites(s, e)
  {
    if Inv(s) && s.maxsize <= 2 {
      HeadSlotFree(s, e);
      if Drains(s, e) {
        var m := DrainKept(s, e);
      } else {
        StepKeeps(s, e);
        StepSizes(s, e, ClearOldest);
        if e.Fire? { SameUntilDrain(s.ring, e.seqNum); }
        assert Step(s, e, KeepOldest) == Step(s, e, ClearOldest);
      }
    } else {
      var m :| Kept(s, m);
      KeptStep(s, e, m);
      if s.queue != [] { KeptHeadFree(s, m); }
    }
  }

  lemma {:induction false} FineRun(s: Sender, es: seq<Event>, e: Event)
    requires WellFormed(s.ring) && Fine(s) && NoWrap(s, es + [e], KeepOldest)
    ensures !Overwrites(Run(s, es, KeepOldest), e)
    decreases |es|
  {
    if es == [] {
      assert es + [e] == [e];
      FineStep(s, e);
    } else {
      assert (es + [e])[1..] == es[1..] + [e];
      FineStep(s, es[0]);
      FineRun(Step(s, es[0], KeepOldest), es[1..], e);
    }
  }

  // ----- three are not -----

  ghost predicate Gets(s0: Sender, s: Sender)
    requires WellFormed(s0.ring)
  {
    exists es: seq<Event> :: NoWrap(s0, es, KeepOldest) && Run(s0, es, KeepOldest) == s
  }

  lemma Then(s0: Sender, s: Sender, e: Event) returns (s': Sender)
    requires WellFormed(s0.ring) && WellFormed(s.ring) && Gets(s0, s) && !Wraps(s, e)
    ensures s' == Step(s, e, KeepOldest) && Gets(s0, s')
  {
    var es :| NoWrap(s0, es, KeepOldest) && Run(s0, es, KeepOldest) == s;
    s' := Step(s, e, KeepOldest);
    NoWrapPrefix(s0, es, [e], KeepOldest);
    assert [e][1..] == [];
    assert NoWrap(s, [e], KeepOldest) && Run(s, [e], KeepOldest) == Run(s', [], KeepOldest);
    assert NoWrap(s0, es + [e], KeepOldest);
  }

  /** The ring with number n alone live and two more numbered behind it. */
  function TwoMore(r: Ring, n: u32): Ring
    requires n + 3 <= LAST
  {
    r.(seqNum := n + 3)
  }

  /** Two more may be numbered, and then n's acknowledgement drains the ring. */
  ghost predicate DrainsAlone(r: Ring, n: u32) {
    && WellFormed(r) && r.seqNum == n + 1 && 1 <= n && n + 3 <= LAST
    && !WindowFull(r) && !WindowFull(r.(seqNum := n + 2)) && r.oldest.Some?
    && UpdateAck(TwoMore(r, n), n, KeepOldest) == (ResetItem(TwoMore(r, n), r.oldest.value), Drained)
  }

  lemma AloneRoom(r: Ring, n: u32, d: nat)
    requires WrapAround.OneLive(r, n) && r.window >= 3 && d < 2 && n + 3 <= LAST
    ensures !WindowFull(r.(seqNum := n + 1 + d))
  {
    assert Sub32(n + 1 + d, n) == 1 + d;
    Residues.ModSmall(1 + d, r.window);
  }

  lemma AloneDrain(r: Ring, n: u32)
    requires WrapAround.OneLive(r, n) && n + 3 <= LAST
    ensures UpdateAck(TwoMore(r, n), n, KeepOldest) == (ResetItem(TwoMore(r, n), r.oldest.value), Drained)
  {
    var j := Modulus(r, n);
    assert Sub32(n, 1) == n - 1 && r.slots[j] == r.oldest;
    ResetLeavesNone(r, n, j);
    NothingScanned(ResetItem(TwoMore(r, n), r.oldest.value), ResetItem(r, r.oldest.value), j);
  }

  lemma AloneDrains(s: Sender, n: u32)
    requires SenderWrap.OneOut(s, n) && s.ring.window >= 3 && n + 3 <= LAST
    ensures DrainsAlone(s.ring, n)
  {
    AloneRoom(s.ring, n, 0);
    AloneRoom(s.ring, n, 1);
    AloneDrain(s.ring, n);
    assert s.ring.(seqNum := n + 1) == s.ring;
  }

  lemma ResetLeavesNone(r: Ring, n: u32, j: nat)
    requires WrapAround.OneLive(r, n) && j < |r.slots| && r.slots[j] == r.oldest
    ensures NothingLive(ResetItem(r, r.oldest.value))
  {
    ResetFacts(r, n + 1, j);
  }

  lemma NothingScanned(r: Ring, r0: Ring, j: nat)
    requires WellFormed(r) && WellFormed(r0) && r.slots == r0.slots && r.items == r0.items
    requires r.window == r0.window && NothingLive(r0) && j < |r.slots|
    ensures Scan(r, j, 1) == None
  {
    ScanStopsFirst(r, j, 1);
    forall k | 0 <= k < |r.slots|
      ensures !LiveSlot(r, k)
    {
      assert !LiveSlot(r0, k);
    }
  }

  /** One more frame is numbered behind the one that is out. */
  lemma PutNext(s: Sender, n: u32) returns (s': Sender)
    requires WellFormed(s.ring) && s.ring.seqNum == n < LAST
    requires !WindowFull(s.ring) && |s.buffer| < s.maxsize
    ensures s' == Step(s, Put([]), KeepOldest) && !Wraps(s, Put([]))
    ensures s' == s.(ring := s.ring.(seqNum := n + 1), buffer := s.buffer[n := []],
                     queue := s.queue + [Pending(n, [])])
    ensures s'.buffer.Keys == s.buffer.Keys + {n} && |s'.buffer| <= |s.buffer| + 1
  {
    s' := Step(s, Put([]), KeepOldest);
    assert s'.buffer.Keys == s.buffer.Keys + {n};
  }

  /** Two more frames are numbered behind the one that is out, whose
      acknowledgement then drains the ring. */
  lemma DrainAhead(s0: Sender, s: Sender, n: u32) returns (s3: Sender)
    requires WellFormed(s0.ring) && Gets(s0, s) && SenderWrap.OneOut(s, n)
    requires s.maxsize >= 3 && s.ring.window >= 3 && n + 3 <= LAST
    ensures Gets(s0, s3) && Stranded(s3)
    ensures s3.queue == [Pending(n + 1, []), Pending(n + 2, [])] && s3.buffer.Keys == {n + 1, n + 2}
    ensures s3.ring.seqNum == n + 3 && s3.ring.window == s.ring.window && s3.maxsize == s.maxsize
  {
    AloneDrains(s, n);
    var s1, s2;
    s1, s2, s3 := PutTwoFire(s, n);
    ThenThree(s0, s, s1, s2, s3, Put([]), Put([]), Fire(n));
  }

  lemma ThenThree(s0: Sender, s: Sender, s1: Sender, s2: Sender, s3: Sender, a: Event, b: Event, c: Event)
    requires WellFormed(s0.ring) && WellFormed(s.ring) && Gets(s0, s)
    requires !Wraps(s, a) && s1 == Step(s, a, KeepOldest)
    requires !Wraps(s1, b) && s2 == Step(s1, b, KeepOldest)
    requires !Wraps(s2, c) && s3 == Step(s2, c, KeepOldest)
    ensures Gets(s0, s3)
  {
    var t1 := Then(s0, s, a);
    var t2 := Then(s0, t1, b);
    var t3 := Then(s0, t2, c);
  }

  lemma PutTwoFire(s: Sender, n: u32) returns (s1: Sender, s2: Sender, s3: Sender)
    requires s.queue == [] && s.buffer == map[n := []] && s.waiting == {n} && s.maxsize >= 3
    requires DrainsAlone(s.ring, n)
    ensures s1 == Step(s, Put([]), KeepOldest) && !Wraps(s, Put([]))
    ensures s2 == Step(s1, Put([]), KeepOldest) && !Wraps(s1, Put([]))
    ensures s3 == Step(s2, Fire(n), KeepOldest) && Stranded(s3)
    ensures s3.queue == [Pending(n + 1, []), Pending(n + 2, [])] && s3.buffer.Keys == {n + 1, n + 2}
    ensures s3.ring.seqNum == n + 3 && s3.ring.window == s.ring.window && s3.maxsize == s.maxsize
  {
    s1, s2 := PutTwo(s, n);
    s3 := Step(s2, Fire(n), KeepOldest);
    KeysLeft(n, s2.buffer);
  }

  lemma PutTwo(s: Sender, n: u32) returns (s1: Sender, s2: Sender)
    requires s.queue == [] && s.buffer == map[n := []] && s.maxsize >= 3 && DrainsAlone(s.ring, n)
    ensures s1 == Step(s, Put([]), KeepOldest) && !Wraps(s, Put([]))
    ensures s2 == Step(s1, Put([]), KeepOldest) && !Wraps(s1, Put([]))
    ensures s2.ring == TwoMore(s.ring, n) && s2.queue == [Pending(n + 1, []), Pending(n + 2, [])]
    ensures s2.buffer.Keys == {n} + {n + 1} + {n + 2} && s2.waiting == s.waiting && s2.maxsize == s.maxsize
  {
    assert s.buffer.Keys == {n} && |s.buffer.Keys| == 1;
    s1 := PutNext(s, n + 1);
    s2 := PutNext(s1, n + 2);
  }

  lemma KeysLeft(n: nat, buffer: map<u32, seq<byte>>)
    requires n + 2 <= LAST as nat && buffer.Keys == {n as u32} + {n as u32 + 1} + {n as u32 + 2}
    ensures (buffer - {n as u32}).Keys == {n as u32 + 1, n as u32 + 2}
  {
  }

  /** Number w - 1 stays live in slot w - 2 while x, beyond the window's end, is next. */
  ghost predicate Pinned(s: Sender, x: u32) {
    && Stranded(s) && s.ring.window >= 3 && s.ring.seqNum == x && s.ring.window < x < 2 * s.ring.window
    && s.queue == [] && s.buffer.Keys == {s.ring.window - 1} && s.maxsize >= 3
    && LiveSlot(s.ring, s.ring.window - 2) && ItemAt(s.ring, s.ring.window - 2).seqNum == s.ring.window - 1
  }

  /** One frame written and installed by a stranded sender. */
  lemma StrandedWrite(s0: Sender, s: Sender) returns (s': Sender)
    requires WellFormed(s0.ring) && Gets(s0, s) && Stranded(s) && s.queue != []
    ensures s' == Step(s, Write(Complete), KeepOldest) && Gets(s0, s') && Stranded(s')
    ensures var j := Modulus(s.ring, s.queue[0].seqNum);
            && LiveSlot(s'.ring, j) && ItemAt(s'.ring, j).seqNum == s.queue[0].seqNum
            && s'.ring.slots[j] == Some(|s.ring.items|)
            && forall k :: 0 <= k < |s.ring.slots| && k != j && LiveSlot(s.ring, k) ==>
                 LiveSlot(s'.ring, k) && ItemAt(s'.ring, k) == ItemAt(s.ring, k) && s'.ring.slots[k] == s.ring.slots[k]
  {
    StrandedStep(s, Write(Complete));
    s' := Then(s0, s, Write(Complete));
  }

  /** The acknowledgement of a number just installed in slot j. */
  lemma StrandedAck(s0: Sender, s: Sender, n: u32, k: nat) returns (s': Sender)
    requires WellFormed(s0.ring) && Gets(s0, s) && Stranded(s) && n in s.waiting
    requires k < |s.ring.slots| && LiveSlot(s.ring, k) && ItemAt(s.ring, k).seqNum != n
    ensures s' == Step(s, Fire(n), KeepOldest) && Gets(s0, s') && Stranded(s')
    ensures LiveSlot(s'.ring, k) && ItemAt(s'.ring, k) == ItemAt(s.ring, k)
    ensures s'.ring.seqNum == s.ring.seqNum && s'.ring.window == s.ring.window
  {
    StrandedFire(s, n);
    var j := Modulus(s.ring, n);
    assert s.ring.slots[j].Some? && ItemAt(s.ring, j).seqNum == n ==> s.ring.slots[j] != s.ring.oldest;
    s' := Then(s0, s, Fire(n));
  }

  lemma PinStart(s0: Sender, s: Sender) returns (s': Sender)
    requires WellFormed(s0.ring) && Gets(s0, s) && Stranded(s) && s.ring.window >= 3 && s.maxsize >= 3
    requires var w := s.ring.window;
             && s.ring.seqNum == w as int + 1 && s.buffer.Keys == {w as u32 - 1, w as u32}
             && s.queue == [Pending(w - 1, []), Pending(w, [])]
    ensures Gets(s0, s') && Pinned(s', s.ring.window as int + 1) && s'.ring.window == s.ring.window
  {
    var w: u32 := s.ring.window;
    SlotOf(s.ring, w - 1, 0, w - 2);
    var s1 := StrandedWrite(s0, s);
    assert s1.queue == [Pending(w, [])];
    SlotOf(s1.ring, w, 0, w - 1);
    var s2 := StrandedWrite(s0, s1);
    PinAcked(s0, s2);
    s' := Step(s2, Fire(w), KeepOldest);
  }

  lemma PinAcked(s0: Sender, s: Sender)
    requires WellFormed(s0.ring) && Gets(s0, s) && Stranded(s) && s.ring.window >= 3 && s.maxsize >= 3
    requires var w := s.ring.window;
             && s.ring.seqNum == w as int + 1 && s.buffer.Keys == {w as u32 - 1, w as u32}
             && s.queue == [] && w in s.waiting && LiveSlot(s.ring, w - 2) && ItemAt(s.ring, w - 2).seqNum == w - 1
    ensures Gets(s0, Step(s, Fire(s.ring.window), KeepOldest))
    ensures Pinned(Step(s, Fire(s.ring.window), KeepOldest), s.ring.window as int + 1)
  {
    var w: u32 := s.ring.window;
    var s' := StrandedAck(s0, s, w, w - 2);
    assert s'.buffer.Keys == s.buffer.Keys - {w};
  }

  /** Number n = q * w + k + 1 goes to slot k. */
  lemma SlotOf(r: Ring, n: u32, q: nat, k: nat)
    requires WellFormed(r) && n >= 1 && k < r.window && q <= 1
    requires n - 1 == (if q == 0 then 0 else r.window) + k
    ensures Modulus(r, n) == k
  {
    assert Sub32(n, 1) == n - 1;
    Residues.ModUnique(n - 1, q, k, r.window);
  }

  lemma PinPut(s0: Sender, s: Sender, x: u32) returns (s1: Sender)
    requires WellFormed(s0.ring) && Gets(s0, s) && Pinned(s, x)
    ensures Gets(s0, s1) && Stranded(s1) && s1.queue == [Pending(x, [])] && s1.ring == s.ring.(seqNum := x + 1)
    ensures s1.buffer.Keys == s.buffer.Keys + {x} && s1.maxsize == s.maxsize
  {
    StrandedFull(s);
    Residues.ModUnique(x, 1, x - s.ring.window, s.ring.window);
    assert |s.buffer.Keys| == 1;
    StrandedPut(s, []);
    s1 := Then(s0, s, Put([]));
  }

  lemma PinRound(s0: Sender, s: Sender, x: u32) returns (s': Sender)
    requires WellFormed(s0.ring) && Gets(s0, s) && Pinned(s, x) && x + 1 < 2 * s.ring.window
    ensures Gets(s0, s') && Pinned(s', x + 1) && s'.ring.window == s.ring.window
  {
    var w: u32 := s.ring.window;
    var s1 := PinPut(s0, s, x);
    SlotOf(s1.ring, x, 1, x - 1 - w);
    var s2 := StrandedWrite(s0, s1);
    s' := StrandedAck(s0, s2, x, w - 2);
    assert s'.buffer.Keys == s.buffer.Keys;
  }

  lemma {:induction false} PinTo(s0: Sender, s: Sender, x: u32) returns (s': Sender)
    requires WellFormed(s0.ring) && Gets(s0, s) && Pinned(s, x)
    ensures Gets(s0, s') && Pinned(s', 2 * s'.ring.window - 1)
    decreases 2 * s.ring.window - x
  {
    if x == 2 * s.ring.window - 1 {
      s' := s;
    } else {
      var s1 := PinRound(s0, s, x);
      s' := PinTo(s0, s1, x + 1);
    }
  }

  /** The number a window after the pinned one is put, and finds its slot taken. */
  lemma PinLast(s0: Sender, s: Sender) returns (s': Sender)
    requires WellFormed(s0.ring) && Gets(s0, s) && s.ring.window >= 1 && Pinned(s, 2 * s.ring.window - 1)
    ensures Gets(s0, s') && WellFormed(s'.ring) && Overwrites(s', Write(Complete))
  {
    var w: u32 := s.ring.window;
    s' := PinPut(s0, s, 2 * w - 1);
    SlotOf(s'.ring, 2 * w - 1, 1, w - 2);
  }

  lemma ThreeOverwrite(window: u16, maxsize: nat) returns (s: Sender)
    requires maxsize >= 3 && window >= 3
    ensures Gets(InitSender(window, maxsize), s) && WellFormed(s.ring) && Overwrites(s, Write(Complete))
  {
    var s0 := InitSender(window, maxsize);
    var n: u32 := window - 2;
    var out := SenderWrap.OutAt(window, maxsize, n, KeepOldest);
    var s1 := Run(s0, out, KeepOldest);
    assert Gets(s0, s1);
    var s2 := DrainAhead(s0, s1, n);
    var s3 := PinStart(s0, s2);
    var s4 := PinTo(s0, s3, window as int + 1);
    s := PinLast(s0, s4);
  }

  /** As written the sender is safe before the wrap if and only if its buffer is no
      larger than its window and holds at most two frames. */
  lemma WrittenSafeExactly(window: u16, maxsize: nat)
    requires window > 0
    ensures SafeSizes(window, maxsize, KeepOldest) <==> maxsize <= window && maxsize <= 2
  {
    var s0 := InitSender(window, maxsize);
    if maxsize > window {
      var es := BurstEither(window, maxsize, KeepOldest);
    } else if maxsize > 2 {
      var s := ThreeOverwrite(window, maxsize);
      var es :| NoWrap(s0, es, KeepOldest) && Run(s0, es, KeepOldest) == s;
      NoWrapPrefix(s0, es, [Write(Complete)], KeepOldest);
      assert NoWrap(s, [Write(Complete)], KeepOldest);
    } else {
      InitKeeps(window, maxsize);
      forall es: seq<Event>, e: Event | NoWrap(s0, es + [e], KeepOldest)
        ensures !Overwrites(Run(s0, es, KeepOldest), e)
      {
        FineRun(s0, es, e);
      }
    }
  }
}
