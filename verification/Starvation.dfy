/** What stops the sender for good: as written, draining the ring leaves the
    oldest pointer on a reset item; and in either version a buffer entry whose
    write failed, or whose acknowledgement timed out, is never released. */
module Starvation {
  import opened Words
  import opened RingSpec
  import opened RingInvariant
  import opened SendWindow
  import Residues

  // ----- the code as written, up to its first drain -----

  predicate Drains(s: Sender, e: Event)
    requires WellFormed(s.ring)
  {
    e.Fire? && e.seqNum in s.waiting && UpdateAck(s.ring, e.seqNum, KeepOldest).1 == Drained
  }

  predicate NeverDrains(s: Sender, es: seq<Event>)
    requires WellFormed(s.ring)
    decreases |es|
  {
    es == [] || (!Drains(s, es[0]) && NeverDrains(Step(s, es[0], KeepOldest), es[1..]))
  }

  /** Until the ring first drains, the code as written does what the repair does,
      so everything proved of the repair holds of it. */
  lemma {:induction false} WrittenIsRepairedUntilDrain(s: Sender, es: seq<Event>)
    requires WellFormed(s.ring) && NeverDrains(s, es)
    ensures Run(s, es, KeepOldest) == Run(s, es, ClearOldest)
    ensures NoWrap(s, es, KeepOldest) <==> NoWrap(s, es, ClearOldest)
    decreases |es|
  {
    if es != [] {
      if es[0].Fire? {
        SameUntilDrain(s.ring, es[0].seqNum);
      }
      assert Step(s, es[0], KeepOldest) == Step(s, es[0], ClearOldest);
      WrittenIsRepairedUntilDrain(Step(s, es[0], KeepOldest), es[1..]);
    }
  }

  lemma {:induction false} NoFireNoDrain(s: Sender, es: seq<Event>)
    requires WellFormed(s.ring) && forall i :: 0 <= i < |es| ==> !es[i].Fire?
    ensures NeverDrains(s, es)
    decreases |es|
  {
    if es != [] {
      NoFireNoDrain(Step(s, es[0], KeepOldest), es[1..]);
    }
  }

  /** With a buffer larger than the window either version installs over a live item,
      before anything has been acknowledged. */
  lemma BurstEither(window: u16, maxsize: nat, drain: Drain) returns (es: seq<Event>)
    requires window > 0 && maxsize > window
    ensures NoWrap(InitSender(window, maxsize), es + [Write(Complete)], drain)
    ensures Overwrites(Run(InitSender(window, maxsize), es, drain), Write(Complete))
  {
    es := BurstOverwrites(window, maxsize);
    NoFireNoDrain(InitSender(window, maxsize), es);
    NoFireNoDrain(InitSender(window, maxsize), es + [Write(Complete)]);
    WrittenIsRepairedUntilDrain(InitSender(window, maxsize), es);
    WrittenIsRepairedUntilDrain(InitSender(window, maxsize), es + [Write(Complete)]);
  }

  // ----- after a drain -----

  ghost predicate NumbersPositive(s: Sender) {
    && (forall n :: n in s.waiting ==> n >= 1)
    && (forall i :: 0 <= i < |s.queue| ==> s.queue[i].seqNum >= 1)
  }

  /** The oldest pointer is left on an item that was reset. */
  ghost predicate Stranded(s: Sender) {
    && WellFormed(s.ring) && 1 <= s.ring.seqNum <= LAST && NumbersPositive(s)
    && s.ring.oldest.Some? && s.ring.items[s.ring.oldest.value] == Item(0, true)
  }

  lemma DrainStrands(s: Sender, e: Event)
    requires Inv(s) && Drains(s, e)
    ensures Stranded(Step(s, e, KeepOldest))
  {
    var n := e.seqNum;
    assert LiveSlot(s.ring, (n - 1) % s.ring.window);
    OldestIffLive(s.ring, Frontier(s));
    assert Sub32(n, 1) == n - 1;
  }

  /** From then on the full test reads the next number alone. */
  lemma StrandedFull(s: Sender)
    requires Stranded(s)
    ensures WindowFull(s.ring) <==> s.ring.seqNum % s.ring.window == 0
  {
    assert Sub32(s.ring.seqNum, 0) == s.ring.seqNum;
  }

  /** How many more numbers the stranded generator hands out before it reaches a
      multiple of the window, through the wrap if there is none before it. */
  function Allowance(n: u32, window: u16): (k: nat)
    requires 1 <= n <= LAST && window > 0
    ensures k < 2 * window as nat
    ensures k == 0 <==> n % window == 0
  {
    var room := if n % window == 0 then 0 else window - n % window;
    if n + room <= LAST then room else LAST - n + 1 + (if window == 1 then 0 else window - 1)
  }

  lemma AllowanceStep(n: u32, window: u16)
    requires 1 <= n <= LAST && window > 0 && n % window != 0
    ensures Allowance(Succ(n), window) == Allowance(n, window) - 1
  {
    Residues.ModAdd(n, 1, window);
    if n % window + 1 < window {
      Residues.ModSmall(n % window + 1, window);
    } else {
      Residues.ModUnique(n % window + 1, 1, 0, window);
    }
    if n == LAST && window > 1 {
      Residues.ModSmall(1, window);
    }
  }

  function Accepted(s: Sender, e: Event): nat
    requires WellFormed(s.ring)
  {
    if e.Put? && PutFrame(s, e.frame).1.Queued? then 1 else 0
  }

  function TotalAccepted(s: Sender, es: seq<Event>, drain: Drain): nat
    requires WellFormed(s.ring)
    decreases |es|
  {
    if es == [] then 0 else Accepted(s, es[0]) + TotalAccepted(Step(s, es[0], drain), es[1..], drain)
  }

  lemma StrandedPut(s: Sender, frame: seq<byte>)
    requires Stranded(s)
    ensures var s' := PutFrame(s, frame).0;
            && Stranded(s') && s'.ring.oldest == s.ring.oldest && s'.ring.window == s.ring.window
            && Accepted(s, Put(frame)) + Allowance(s'.ring.seqNum, s.ring.window)
               == Allowance(s.ring.seqNum, s.ring.window)
  {
    StrandedFull(s);
    if s.ring.seqNum % s.ring.window != 0 {
      AllowanceStep(s.ring.seqNum, s.ring.window);
    }
  }

  lemma StrandedFire(s: Sender, n: u32)
    requires Stranded(s)
    ensures var s' := FireAck(s, n, KeepOldest);
            Stranded(s') && s'.ring.oldest == s.ring.oldest
            && s'.ring.seqNum == s.ring.seqNum && s'.ring.window == s.ring.window
  {
    if n in s.waiting {
      var j := Modulus(s.ring, n);
      if s.ring.slots[j].Some? && ItemAt(s.ring, j).seqNum == n {
        assert s.ring.slots[j] != s.ring.oldest;
      }
    }
  }

  lemma StrandedStep(s: Sender, e: Event)
    requires Stranded(s)
    ensures var s' := Step(s, e, KeepOldest);
            && Stranded(s') && s'.ring.oldest == s.ring.oldest && s'.ring.window == s.ring.window
            && Accepted(s, e) + Allowance(s'.ring.seqNum, s.ring.window) == Allowance(s.ring.seqNum, s.ring.window)
  {
    match e
    case Put(frame) => StrandedPut(s, frame);
    case Write(outcome) =>
    case Fire(n) => StrandedFire(s, n);
    case Timeout(n) =>
  }

  /** After a drain the code as written keeps its oldest pointer for ever and
      accepts, over every continuation, exactly as many frames as its allowance
      shrinks by: fewer than two windows in all, and none once the next number is
      a multiple of the window. */
  lemma {:induction false} StrandedStarves(s: Sender, es: seq<Event>)
    requires Stranded(s)
    ensures var s' := Run(s, es, KeepOldest);
            && Stranded(s') && s'.ring.oldest == s.ring.oldest && s'.ring.window == s.ring.window
            && TotalAccepted(s, es, KeepOldest) + Allowance(s'.ring.seqNum, s.ring.window)
               == Allowance(s.ring.seqNum, s.ring.window)
    decreases |es|
  {
    if es != [] {
      StrandedStep(s, es[0]);
      StrandedStarves(Step(s, es[0], KeepOldest), es[1..]);
    }
  }

  lemma FirstInstalled(frame: seq<byte>) returns (s1: Sender, s2: Sender)
    ensures s1 == Step(InitSender(16, 16), Put(frame), KeepOldest)
    ensures s2 == Step(s1, Write(Complete), KeepOldest)
    ensures Inv(s2) && s2.waiting == {1} && s2.ring.window == 16 && s2.ring.seqNum == 2
    ensures s2.ring.slots[0] == Some(0) && s2.ring.items == [Item(1, false)]
    ensures forall k :: 1 <= k < 16 ==> s2.ring.slots[k] == None
  {
    var s0 := InitSender(16, 16);
    InitKeeps(16, 16);
    PutKeeps(s0, frame);
    s1 := PutOne(s0, frame, KeepOldest, 0);
    s2 := FirstWritten(s1, frame);
  }

  lemma FirstWritten(s1: Sender, frame: seq<byte>) returns (s2: Sender)
    requires Inv(s1) && s1.ring == InitRing(16).(seqNum := 2) && s1.queue == [Pending(1, frame)] && s1.waiting == {}
    ensures s2 == Step(s1, Write(Complete), KeepOldest)
    ensures Inv(s2) && s2.waiting == {1} && s2.ring.window == 16 && s2.ring.seqNum == 2
    ensures s2.ring.slots[0] == Some(0) && s2.ring.items == [Item(1, false)]
    ensures forall k :: 1 <= k < 16 ==> s2.ring.slots[k] == None
  {
    s2 := Step(s1, Write(Complete), KeepOldest);
    WriteKeeps(s1, Complete);
    assert Sub32(1, 1) == 0;
  }

  lemma FirstDrains(s: Sender)
    requires Inv(s) && s.waiting == {1} && s.ring.window == 16 && s.ring.seqNum == 2
    requires s.ring.slots[0] == Some(0) && s.ring.items == [Item(1, false)]
    requires forall k :: 1 <= k < 16 ==> s.ring.slots[k] == None
    ensures Stranded(Step(s, Fire(1), KeepOldest))
    ensures Step(s, Fire(1), KeepOldest).ring.seqNum == 2 && Step(s, Fire(1), KeepOldest).ring.window == 16
  {
    assert Modulus(s.ring, 1) == 0;
    OldestIffLive(s.ring, Frontier(s)) by { assert LiveSlot(s.ring, 0); }
    ScanStopsFirst(ResetItem(s.ring, 0), 0, 1);
    assert Drains(s, Fire(1));
    DrainStrands(s, Fire(1));
  }

  /** One frame sent and acknowledged is enough: with the sizes the transport is
      opened with, at most 14 more are accepted, whatever happens. */
  lemma FirstAckStarves(frame: seq<byte>, es: seq<Event>)
    ensures var s := Run(InitSender(16, 16), [Put(frame), Write(Complete), Fire(1)], KeepOldest);
            TotalAccepted(s, es, KeepOldest) <= 14
  {
    var s1, s2 := FirstInstalled(frame);
    FirstDrains(s2);
    var s3 := Step(s2, Fire(1), KeepOldest);
    RunThree(InitSender(16, 16), Put(frame), Write(Complete), Fire(1));
    StrandedStarves(s3, es);
    assert Allowance(2, 16) == 14;
  }

  lemma RunThree(s: Sender, a: Event, b: Event, c: Event)
    requires WellFormed(s.ring)
    ensures Run(s, [a, b, c], KeepOldest) == Step(Step(Step(s, a, KeepOldest), b, KeepOldest), c, KeepOldest)
  {
    var s1 := Step(s, a, KeepOldest);
    var s2 := Step(s1, b, KeepOldest);
    RunLast(s2, c);
    RunCons(s1, b, [c], KeepOldest);
    RunCons(s, a, [b, c], KeepOldest);
    assert [a] + [b, c] == [a, b, c] && [b] + [c] == [b, c];
  }

  lemma RunLast(s: Sender, e: Event)
    requires WellFormed(s.ring)
    ensures Run(s, [e], KeepOldest) == Step(s, e, KeepOldest)
  {
    RunCons(s, e, [], KeepOldest);
    assert [e] + [] == [e];
  }

  // ----- entries that are never released -----

  /** Buffered, but neither queued nor waited for: its write failed, or its
      acknowledgement timed out. */
  ghost predicate Leaked(s: Sender, n: u32) {
    n in s.buffer && n !in s.waiting && n < Frontier(s)
  }

  /** The two events that leak number n: its write fails, or the wait for its
      acknowledgement times out. */
  predicate Leaks(s: Sender, e: Event, n: u32) {
    || (e.Write? && !e.outcome.Complete? && s.queue != [] && s.queue[0].seqNum == n)
    || (e == Timeout(n) && n in s.waiting)
  }

  /** The queue is in order, and what is waited for comes before it: what either
      version keeps before the wrap. */
  ghost predicate Ordered(s: Sender) {
    && WellFormed(s.ring) && 1 <= s.ring.seqNum <= LAST && QueueConsecutive(s)
    && forall n :: n in s.waiting ==> n < Frontier(s)
  }

  lemma OrderedStep(s: Sender, e: Event, drain: Drain)
    requires Ordered(s) && !Wraps(s, e)
    ensures Ordered(Step(s, e, drain))
  {
    var s' := Step(s, e, drain);
    if e.Write? && s.queue != [] {
      assert s.queue[0].seqNum == Frontier(s);
      assert forall i :: 0 <= i < |s'.queue| ==> s'.queue[i] == s.queue[i + 1];
    }
  }

  /** Those two and no others: before the wrap, in either version, a leaked entry
      stays leaked, and another buffered entry leaks by exactly these events. */
  lemma LeakExactly(s: Sender, e: Event, n: u32, drain: Drain)
    requires Ordered(s) && !Wraps(s, e) && n in s.buffer
    ensures Leaked(Step(s, e, drain), n) <==> Leaked(s, n) || Leaks(s, e, n)
  {
    if s.queue != [] {
      assert s.queue[0].seqNum == Frontier(s);
    }
  }

  lemma {:induction false} LeakStays(s: Sender, es: seq<Event>, n: u32, drain: Drain)
    requires Ordered(s) && NoWrap(s, es, drain) && Leaked(s, n)
    ensures Leaked(Run(s, es, drain), n)
    decreases |es|
  {
    if es != [] {
      OrderedStep(s, es[0], drain);
      LeakExactly(s, es[0], n, drain);
      LeakStays(Step(s, es[0], drain), es[1..], n, drain);
    }
  }

  predicate AllLeaked(s: Sender) {
    |s.buffer| == s.maxsize && forall n :: n in s.buffer ==> n !in s.waiting && n < Frontier(s)
  }

  lemma {:induction false} BufferFits(s: Sender, es: seq<Event>, drain: Drain)
    requires WellFormed(s.ring) && |s.buffer| <= s.maxsize
    ensures |Run(s, es, drain).buffer| <= Run(s, es, drain).maxsize
    decreases |es|
  {
    if es != [] {
      var s1 := Step(s, es[0], drain);
      assert |s1.buffer| <= s1.maxsize by {
        match es[0]
        case Put(frame) =>
          assert s1.buffer.Keys <= s.buffer.Keys + {s.ring.seqNum};
          SubsetFits(s1.buffer.Keys, s.buffer.Keys + {s.ring.seqNum});
        case Fire(n) => SubsetFits(s1.buffer.Keys, s.buffer.Keys);
        case _ =>
      }
      BufferFits(s1, es[1..], drain);
    }
  }

  lemma AllLeakedStays(s: Sender, es: seq<Event>, drain: Drain)
    requires Ordered(s) && |s.buffer| <= s.maxsize && NoWrap(s, es, drain) && AllLeaked(s)
    ensures |Run(s, es, drain).buffer| == Run(s, es, drain).maxsize
  {
    var s' := Run(s, es, drain);
    forall n | n in s.buffer.Keys
      ensures n in s'.buffer.Keys
    {
      LeakStays(s, es, n, drain);
    }
    BufferFits(s, es, drain);
    RunSizes(s, es, drain);
    SubsetFits(s.buffer.Keys, s'.buffer.Keys);
  }

  lemma SubsetFits(a: set<u32>, b: set<u32>)
    requires a <= b
    ensures |a| <= |b|
  {
    assert b == a + (b - a);
  }

  // ----- items that are never acknowledged -----

  /** Number n is live and nobody waits for its acknowledgement any more. */
  ghost predicate Abandoned(s: Sender, n: u32)
    requires WellFormed(s.ring)
  {
    && 1 <= n < Frontier(s) && n !in s.waiting
    && LiveSlot(s.ring, (n - 1) % s.ring.window)
    && ItemAt(s.ring, (n - 1) % s.ring.window).seqNum == n
  }

  /** A timeout abandons the number it was waiting for. */
  lemma TimeoutAbandons(s: Sender, n: u32)
    requires Inv(s) && n in s.waiting
    ensures Inv(Step(s, Timeout(n), ClearOldest)) && Abandoned(Step(s, Timeout(n), ClearOldest), n)
  {
    StepKeeps(s, Timeout(n));
  }

  lemma AbandonedWrite(s: Sender, n: u32)
    requires Inv(s) && Abandoned(s, n) && s.queue != []
    ensures Abandoned(WriteFrame(s, Complete), n)
  {
    QueueFits(s);
    var w := Frontier(s);
    assert s.queue[0].seqNum == w && Sub32(w, 1) == w - 1;
    InstallSlotFree(s.ring, w);
    assert Modulus(s.ring, w) != (n - 1) % s.ring.window;
  }

  lemma AbandonedStep(s: Sender, e: Event, n: u32)
    requires Inv(s) && !Wraps(s, e) && Abandoned(s, n)
    ensures Abandoned(Step(s, e, ClearOldest), n)
    ensures Step(s, e, ClearOldest).ring.seqNum == s.ring.seqNum + Accepted(s, e)
  {
    match e
    case Put(frame) =>
    case Write(outcome) => if s.queue != [] && outcome.Complete? { AbandonedWrite(s, n); }
    case Fire(m) => AckRemovesExactly(s.ring, Frontier(s), m, ClearOldest, (n - 1) % s.ring.window);
    case Timeout(m) =>
  }

  /** An abandoned number stays live, so the next number never gets more than a
      window ahead of it. */
  lemma {:induction false} AbandonedBounds(s: Sender, es: seq<Event>, n: u32)
    requires Inv(s) && NoWrap(s, es, ClearOldest) && Abandoned(s, n)
    ensures var s' := Run(s, es, ClearOldest);
            && Inv(s') && Abandoned(s', n)
            && s'.ring.seqNum == s.ring.seqNum + TotalAccepted(s, es, ClearOldest)
            && s'.ring.seqNum <= n + s.ring.window
    decreases |es|
  {
    if es != [] {
      StepKeeps(s, es[0]);
      StepSizes(s, es[0], ClearOldest);
      AbandonedStep(s, es[0], n);
      AbandonedBounds(Step(s, es[0], ClearOldest), es[1..], n);
    }
  }

  /** One timed-out acknowledgement is enough: the repaired sender too accepts, over
      every continuation before the wrap, no frame more than a window beyond the
      number that timed out. */
  lemma OneTimeoutStarves(s: Sender, n: u32, es: seq<Event>)
    requires Inv(s) && n in s.waiting
    requires NoWrap(Step(s, Timeout(n), ClearOldest), es, ClearOldest)
    ensures s.ring.seqNum + TotalAccepted(Step(s, Timeout(n), ClearOldest), es, ClearOldest) <= n + s.ring.window
  {
    TimeoutAbandons(s, n);
    AbandonedBounds(Step(s, Timeout(n), ClearOldest), es, n);
  }

  // ----- exactly when the repaired sender has stopped for good -----

  /** Whatever happens before the wrap, the next frame is refused. */
  ghost predicate Starved(s: Sender, drain: Drain)
    requires WellFormed(s.ring)
  {
    forall es: seq<Event>, frame: seq<byte> :: NoWrap(s, es, drain) ==>
      !PutFrame(Run(s, es, drain), frame).1.Queued?
  }

  /** The buffer is full of leaked entries, or the window is full and nobody waits
      for its oldest number. */
  predicate Stopped(s: Sender)
    requires WellFormed(s.ring)
  {
    AllLeaked(s) || (WindowFull(s.ring) && s.ring.items[s.ring.oldest.value].seqNum !in s.waiting)
  }

  lemma StoppedStarves(s: Sender, es: seq<Event>, frame: seq<byte>)
    requires Inv(s) && Stopped(s) && NoWrap(s, es, ClearOldest)
    ensures !PutFrame(Run(s, es, ClearOldest), frame).1.Queued?
  {
    if AllLeaked(s) {
      AllLeakedStays(s, es, ClearOldest);
    } else {
      var n := AbandonedOldest(s);
      AbandonedBounds(s, es, n);
      RunSizes(s, es, ClearOldest);
      PinnedFull(Run(s, es, ClearOldest), n);
    }
  }

  lemma AbandonedOldest(s: Sender) returns (n: u32)
    requires Inv(s) && Stopped(s) && !AllLeaked(s)
    ensures Abandoned(s, n) && s.ring.seqNum == n + s.ring.window
  {
    n := s.ring.items[s.ring.oldest.value].seqNum;
    FullExactly(s.ring, Frontier(s));
    assert LiveSlot(s.ring, (n - 1) % s.ring.window);
  }

  lemma PinnedFull(s: Sender, n: u32)
    requires Inv(s) && Abandoned(s, n) && s.ring.seqNum >= n + s.ring.window
    ensures WindowFull(s.ring)
  {
    FullExactly(s.ring, Frontier(s));
  }

  /** An acknowledgement makes room for a frame if the window had room, or if it is
      the oldest number's. */
  lemma FireFrees(s: Sender, n: u32, frame: seq<byte>)
    requires Inv(s) && n in s.waiting
    requires WindowFull(s.ring) ==> s.ring.items[s.ring.oldest.value].seqNum == n
    ensures PutFrame(Step(s, Fire(n), ClearOldest), frame).1.Queued?
  {
    var s' := Step(s, Fire(n), ClearOldest);
    FireKeeps(s, n);
    assert s'.buffer.Keys == s.buffer.Keys - {n};
    assert |s'.buffer.Keys| == |s.buffer.Keys| - 1;
    FireOpens(s, n);
  }

  lemma FireOpens(s: Sender, n: u32)
    requires Inv(s) && n in s.waiting
    requires WindowFull(s.ring) ==> s.ring.items[s.ring.oldest.value].seqNum == n
    ensures !WindowFull(UpdateAck(s.ring, n, ClearOldest).0)
  {
    var w, r' := Frontier(s), UpdateAck(s.ring, n, ClearOldest).0;
    AckKeeps(s.ring, w, n);
    FullExactly(s.ring, w);
    FullExactly(r', w);
    if r'.oldest.Some? {
      LaterOldest(s.ring, w, n);
    }
  }

  /** What is oldest after an acknowledgement was live before it, under another number. */
  lemma LaterOldest(r: Ring, w: int, n: u32)
    requires RingInv(r, w) && RingInv(UpdateAck(r, n, ClearOldest).0, w)
    requires UpdateAck(r, n, ClearOldest).0.oldest.Some?
    ensures var r' := UpdateAck(r, n, ClearOldest).0;
            var x := r'.items[r'.oldest.value].seqNum;
            x != n && r.oldest.Some? && r.items[r.oldest.value].seqNum <= x
  {
    var r' := UpdateAck(r, n, ClearOldest).0;
    var x := r'.items[r'.oldest.value].seqNum;
    var k := (x - 1) % r.window;
    assert LiveSlot(r', k) && ItemAt(r', k).seqNum == x;
    AckRemovesExactly(r, w, n, ClearOldest, k);
  }

  /** With the window not full, writing the head of the queue and having it
      acknowledged at once leaves the window as far from full as it was. */
  lemma WriteThenFire(s: Sender, frame: seq<byte>) returns (n: u32)
    requires Inv(s) && s.queue != [] && !WindowFull(s.ring)
    ensures var s1 := Step(s, Write(Complete), ClearOldest);
            PutFrame(Step(s1, Fire(n), ClearOldest), frame).1.Queued?
  {
    n := s.queue[0].seqNum;
    var s1 := Step(s, Write(Complete), ClearOldest);
    StepKeeps(s, Write(Complete));
    FullExactly(s.ring, Frontier(s));
    FullExactly(s1.ring, Frontier(s1));
    assert n == Frontier(s) && n in s1.waiting;
    FireFrees(s1, n, frame);
  }

  /** A sender that has not stopped is at most two events from accepting a frame. */
  lemma NotStopped(s: Sender, frame: seq<byte>) returns (es: seq<Event>)
    requires Inv(s) && !Stopped(s)
    ensures NoWrap(s, es, ClearOldest) && PutFrame(Run(s, es, ClearOldest), frame).1.Queued?
  {
    if WindowFull(s.ring) {
      var n := s.ring.items[s.ring.oldest.value].seqNum;
      FireFrees(s, n, frame);
      es := OneEvent(s, Fire(n), ClearOldest);
    } else if |s.buffer| < s.maxsize {
      es := [];
    } else {
      var n :| n in s.buffer && (n in s.waiting || n >= Frontier(s));
      if n in s.waiting {
        FireFrees(s, n, frame);
        es := OneEvent(s, Fire(n), ClearOldest);
      } else {
        var m := WriteThenFire(s, frame);
        es := [Write(Complete), Fire(m)];
        var tail := OneEvent(Step(s, Write(Complete), ClearOldest), Fire(m), ClearOldest);
        RunCons(s, Write(Complete), tail, ClearOldest);
        assert [Write(Complete)] + tail == es;
      }
    }
  }

  lemma OneEvent(s: Sender, e: Event, drain: Drain) returns (es: seq<Event>)
    requires WellFormed(s.ring) && !e.Put?
    ensures es == [e] && NoWrap(s, es, drain) && Run(s, es, drain) == Step(s, e, drain)
  {
    es := [e];
    RunCons(s, e, [], drain);
    assert [e] + [] == es;
  }

  /** The repaired sender has stopped for good if and only if its buffer is full of
      leaked entries, or its window is full and nobody waits for the oldest number. */
  lemma StarvedExactly(s: Sender)
    requires Inv(s)
    ensures Starved(s, ClearOldest) <==> Stopped(s)
  {
    if Stopped(s) {
      forall es: seq<Event>, frame: seq<byte> | NoWrap(s, es, ClearOldest)
        ensures !PutFrame(Run(s, es, ClearOldest), frame).1.Queued?
      {
        StoppedStarves(s, es, frame);
      }
    } else {
      var es := NotStopped(s, []);
    }
  }

  // ----- exactly when the sender that has drained as written has -----

  ghost predicate QueueBuffered(s: Sender) {
    forall i :: 0 <= i < |s.queue| ==> s.queue[i].seqNum in s.buffer
  }

  /** What a drain leaves besides the stranded pointer. */
  lemma DrainOrders(s: Sender, e: Event)
    requires Inv(s) && Drains(s, e)
    ensures var s' := Step(s, e, KeepOldest);
            && Ordered(s') && QueueBuffered(s') && |s'.buffer| <= s'.maxsize
            && forall n :: n in s'.buffer ==> n < s'.ring.seqNum
  {
    OrderedStep(s, e, KeepOldest);
    SubsetFits(Step(s, e, KeepOldest).buffer.Keys, s.buffer.Keys);
  }

  lemma StrandedPutAccepted(s: Sender, frame: seq<byte>)
    requires Stranded(s) && s.ring.seqNum % s.ring.window != 0 && |s.buffer| < s.maxsize
    ensures PutFrame(s, frame).1.Queued?
  {
    StrandedFull(s);
  }

  /** An acknowledgement makes room in the buffer and leaves the generator alone. */
  lemma StrandedFireFrees(s: Sender, n: u32, frame: seq<byte>)
    requires Stranded(s) && s.ring.seqNum % s.ring.window != 0 && |s.buffer| <= s.maxsize
    requires n in s.waiting && n in s.buffer
    ensures PutFrame(Step(s, Fire(n), KeepOldest), frame).1.Queued?
  {
    var s' := Step(s, Fire(n), KeepOldest);
    StrandedFire(s, n);
    assert s'.buffer.Keys == s.buffer.Keys - {n};
    assert |s'.buffer.Keys| == |s.buffer.Keys| - 1;
    StrandedPutAccepted(s', frame);
  }

  lemma StrandedNotStopped(s: Sender, frame: seq<byte>) returns (es: seq<Event>)
    requires Stranded(s) && Ordered(s) && QueueBuffered(s) && |s.buffer| <= s.maxsize
    requires s.ring.seqNum % s.ring.window != 0 && !AllLeaked(s)
    requires forall n :: n in s.buffer ==> n < s.ring.seqNum
    ensures NoWrap(s, es, KeepOldest) && PutFrame(Run(s, es, KeepOldest), frame).1.Queued?
  {
    if |s.buffer| < s.maxsize {
      es := [];
      StrandedPutAccepted(s, frame);
    } else {
      var n :| n in s.buffer && (n in s.waiting || n >= Frontier(s));
      if n in s.waiting {
        StrandedFireFrees(s, n, frame);
        es := OneEvent(s, Fire(n), KeepOldest);
      } else {
        es := StrandedWriteThenFire(s, frame);
      }
    }
  }

  lemma StrandedWriteThenFire(s: Sender, frame: seq<byte>) returns (es: seq<Event>)
    requires Stranded(s) && QueueBuffered(s) && |s.buffer| <= s.maxsize && s.queue != []
    requires s.ring.seqNum % s.ring.window != 0
    ensures NoWrap(s, es, KeepOldest) && PutFrame(Run(s, es, KeepOldest), frame).1.Queued?
  {
    var m := s.queue[0].seqNum;
    var s1 := Step(s, Write(Complete), KeepOldest);
    StrandedStep(s, Write(Complete));
    StrandedFireFrees(s1, m, frame);
    var tail := OneEvent(s1, Fire(m), KeepOldest);
    RunCons(s, Write(Complete), tail, KeepOldest);
    es := [Write(Complete)] + tail;
  }

  /** After a drain the sender as written has stopped for good if and only if its
      next number is a multiple of the window, or its buffer is full of leaked
      entries. */
  lemma StrandedStarvedExactly(s: Sender)
    requires Stranded(s) && Ordered(s) && QueueBuffered(s) && |s.buffer| <= s.maxsize
    requires forall n :: n in s.buffer ==> n < s.ring.seqNum
    ensures Starved(s, KeepOldest) <==> s.ring.seqNum % s.ring.window == 0 || AllLeaked(s)
  {
    if s.ring.seqNum % s.ring.window == 0 || AllLeaked(s) {
      forall es: seq<Event>, frame: seq<byte> | NoWrap(s, es, KeepOldest)
        ensures !PutFrame(Run(s, es, KeepOldest), frame).1.Queued?
      {
        StrandedRefuses(s, es, frame);
      }
    } else {
      var es := StrandedNotStopped(s, []);
    }
  }

  lemma StrandedRefuses(s: Sender, es: seq<Event>, frame: seq<byte>)
    requires Stranded(s) && Ordered(s) && |s.buffer| <= s.maxsize && NoWrap(s, es, KeepOldest)
    requires s.ring.seqNum % s.ring.window == 0 || AllLeaked(s)
    ensures !PutFrame(Run(s, es, KeepOldest), frame).1.Queued?
  {
    if AllLeaked(s) {
      AllLeakedStays(s, es, KeepOldest);
    } else {
      StrandedStarves(s, es);
      StrandedFull(Run(s, es, KeepOldest));
    }
  }
}
