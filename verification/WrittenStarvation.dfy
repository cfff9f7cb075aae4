/** Exactly when the code as written, not yet drained, has stopped for good: where
    the repaired code has, and where its only way on is through a drain that leaves
    the stranded generator at a multiple of the window. */
module WrittenStarvation {
  import opened Words
  import opened RingSpec
  import opened RingInvariant
  import opened SendWindow
  import opened Starvation

  ghost predicate OthersLive(s: Sender, n: u32)
    requires WellFormed(s.ring)
  {
    exists k :: 0 <= k < |s.ring.slots| && LiveSlot(s.ring, k) && ItemAt(s.ring, k).seqNum != n
  }

  /** One number alone is out, live or still queued. */
  ghost predicate Alone(s: Sender)
    requires WellFormed(s.ring)
  {
    if s.queue == [] then s.ring.oldest.Some? && !OthersLive(s, s.ring.items[s.ring.oldest.value].seqNum)
    else |s.queue| == 1 && NothingLive(s.ring)
  }

  predicate Refuses(s: Sender)
    requires WellFormed(s.ring)
  {
    WindowFull(s.ring) || |s.buffer| == s.maxsize
  }

  /** Nothing more can be accepted before a drain, and after it nothing either. */
  ghost predicate LastOne(s: Sender)
    requires WellFormed(s.ring)
  {
    Refuses(s) && Alone(s) && s.ring.seqNum % s.ring.window == 0
  }

  /** An acknowledgement drains the ring if and only if nothing else is live. */
  lemma DrainsExactly(s: Sender, n: u32)
    requires Inv(s) && n in s.waiting
    ensures Drains(s, Fire(n)) <==> !OthersLive(s, n)
  {
    var w, r' := Frontier(s), UpdateAck(s.ring, n, ClearOldest).0;
    AckKeeps(s.ring, w, n);
    OldestIffLive(r', w);
    SameUntilDrain(s.ring, n);
    WaitingFound(s, n);
    forall k | 0 <= k < |s.ring.slots|
      ensures LiveSlot(r', k) <==> LiveSlot(s.ring, k) && ItemAt(s.ring, k).seqNum != n
    {
      AckRemovesExactly(s.ring, w, n, ClearOldest, k);
    }
  }

  lemma WaitingFound(s: Sender, n: u32)
    requires Inv(s) && n in s.waiting
    ensures var res := UpdateAck(s.ring, n, ClearOldest);
            && s.ring.oldest.Some? && (res.1.NotOldest? || res.1.Advanced? || res.1.Drained?)
            && (res.1.Drained? <==> res.0.oldest == None)
  {
    assert Sub32(n, 1) == n - 1;
    assert LiveSlot(s.ring, (n - 1) % s.ring.window);
  }

  lemma SameStep(s: Sender, e: Event)
    requires WellFormed(s.ring) && !Drains(s, e)
    ensures Step(s, e, KeepOldest) == Step(s, e, ClearOldest)
  {
    if e.Fire? { SameUntilDrain(s.ring, e.seqNum); }
  }

  // ----- a way on -----

  /** An acknowledgement lets a frame in unless it drains the ring at a multiple of
      the window. */
  lemma FireLetsIn(s: Sender, n: u32, frame: seq<byte>)
    requires Inv(s) && n in s.waiting
    requires WindowFull(s.ring) ==> s.ring.items[s.ring.oldest.value].seqNum == n
    requires OthersLive(s, n) || s.ring.seqNum % s.ring.window != 0
    ensures PutFrame(Step(s, Fire(n), KeepOldest), frame).1.Queued?
  {
    DrainsExactly(s, n);
    if Drains(s, Fire(n)) {
      DrainStrands(s, Fire(n));
      var s' := Step(s, Fire(n), KeepOldest);
      assert s'.buffer.Keys == s.buffer.Keys - {n};
      assert |s'.buffer.Keys| == |s.buffer.Keys| - 1;
      StrandedPutAccepted(s', frame);
    } else {
      SameStep(s, Fire(n));
      FireFrees(s, n, frame);
    }
  }

  /** The head of the queue written: it is live and waited for, and what was live is. */
  lemma HeadWritten(s: Sender) returns (s': Sender)
    requires Inv(s) && s.queue != []
    ensures s' == Step(s, Write(Complete), KeepOldest) && Inv(s')
    ensures s'.ring.seqNum == s.ring.seqNum && s'.ring.window == s.ring.window
    ensures s'.queue == s.queue[1..] && s'.waiting == s.waiting + {s.queue[0].seqNum}
    ensures forall n: u32 :: n != s.queue[0].seqNum ==> OthersLive(s', n)
    ensures OthersLive(s, s.queue[0].seqNum) || !NothingLive(s.ring) ==> OthersLive(s', s.queue[0].seqNum)
    ensures s'.ring.oldest.Some?
    ensures if s.ring.oldest.Some? then s'.ring.items[s'.ring.oldest.value] == s.ring.items[s.ring.oldest.value]
            else s'.ring.items[s'.ring.oldest.value].seqNum == s.queue[0].seqNum
  {
    s' := Step(s, Write(Complete), KeepOldest);
    WriteKeeps(s, Complete);
    QueueFits(s);
    var m := s.queue[0].seqNum;
    var j := Modulus(s.ring, m);
    assert m == Frontier(s);
    InstallSlotFree(s.ring, m);
    assert LiveSlot(s'.ring, j) && ItemAt(s'.ring, j).seqNum == m;
    forall k | 0 <= k < |s.ring.slots| && LiveSlot(s.ring, k)
      ensures LiveSlot(s'.ring, k) && ItemAt(s'.ring, k) == ItemAt(s.ring, k) && ItemAt(s.ring, k).seqNum != m
    {
    }
  }

  lemma ThenOne(s: Sender, a: Event, es: seq<Event>, frame: seq<byte>)
    requires WellFormed(s.ring) && !a.Put?
    requires NoWrap(Step(s, a, KeepOldest), es, KeepOldest)
    requires PutFrame(Run(Step(s, a, KeepOldest), es, KeepOldest), frame).1.Queued?
    ensures NoWrap(s, [a] + es, KeepOldest) && PutFrame(Run(s, [a] + es, KeepOldest), frame).1.Queued?
  {
    RunCons(s, a, es, KeepOldest);
  }

  lemma FireOne(s: Sender, n: u32, frame: seq<byte>) returns (es: seq<Event>)
    requires Inv(s) && n in s.waiting
    requires WindowFull(s.ring) ==> s.ring.items[s.ring.oldest.value].seqNum == n
    requires OthersLive(s, n) || s.ring.seqNum % s.ring.window != 0
    ensures NoWrap(s, es, KeepOldest) && PutFrame(Run(s, es, KeepOldest), frame).1.Queued?
  {
    FireLetsIn(s, n, frame);
    es := OneEvent(s, Fire(n), KeepOldest);
  }

  /** Number n is waited for, and nothing but it stands in the way. */
  lemma ThroughWaiting(s: Sender, n: u32, frame: seq<byte>) returns (es: seq<Event>)
    requires Inv(s) && n in s.waiting && !LastOne(s) && Refuses(s)
    requires WindowFull(s.ring) ==> s.ring.items[s.ring.oldest.value].seqNum == n
    ensures NoWrap(s, es, KeepOldest) && PutFrame(Run(s, es, KeepOldest), frame).1.Queued?
  {
    WaitingFound(s, n);
    if OthersLive(s, n) || s.ring.seqNum % s.ring.window != 0 {
      es := FireOne(s, n, frame);
    } else if s.queue != [] {
      var s1 := HeadWritten(s);
      assert n != s.queue[0].seqNum;
      SameFull(s, s1);
      var tail := FireOne(s1, n, frame);
      ThenOne(s, Write(Complete), tail, frame);
      es := [Write(Complete)] + tail;
    } else {
      OldestIsLive(s);
      assert false;
    }
  }

  lemma SameFull(s: Sender, s': Sender)
    requires WellFormed(s.ring) && WellFormed(s'.ring) && s.ring.oldest.Some? && s'.ring.oldest.Some?
    requires s'.ring.items[s'.ring.oldest.value] == s.ring.items[s.ring.oldest.value]
    requires s'.ring.seqNum == s.ring.seqNum && s'.ring.window == s.ring.window
    ensures WindowFull(s'.ring) == WindowFull(s.ring)
  {
  }

  /** With nothing else live the oldest number is the one live. */
  lemma OldestIsLive(s: Sender)
    requires Inv(s) && s.ring.oldest.Some?
    ensures var x := s.ring.items[s.ring.oldest.value].seqNum;
            forall n: u32 :: !OthersLive(s, n) ==> n == x
  {
    var x := s.ring.items[s.ring.oldest.value].seqNum;
    assert LiveSlot(s.ring, (x - 1) % s.ring.window) && ItemAt(s.ring, (x - 1) % s.ring.window).seqNum == x;
  }

  /** The buffer is full, the window is not, and the head of the queue is the way on. */
  lemma ThroughQueue(s: Sender, frame: seq<byte>) returns (es: seq<Event>)
    requires Inv(s) && s.queue != [] && !WindowFull(s.ring) && Refuses(s) && !LastOne(s)
    ensures NoWrap(s, es, KeepOldest) && PutFrame(Run(s, es, KeepOldest), frame).1.Queued?
  {
    var m := s.queue[0].seqNum;
    var s1 := HeadWritten(s);
    HeadAllows(s, s1);
    if OthersLive(s1, m) || s.ring.seqNum % s.ring.window != 0 {
      var tail := FireOne(s1, m, frame);
      ThenOne(s, Write(Complete), tail, frame);
      es := [Write(Complete)] + tail;
    } else {
      assert |s.queue| >= 2 && NothingLive(s.ring);
      assert s.queue[1].seqNum == m + 1;
      var s2 := HeadWritten(s1);
      SameFull(s1, s2);
      var tail := FireOne(s2, m, frame);
      ThenOne(s1, Write(Complete), tail, frame);
      ThenOne(s, Write(Complete), [Write(Complete)] + tail, frame);
      es := [Write(Complete)] + ([Write(Complete)] + tail);
    }
  }

  /** Writing the head of the queue makes the window read full at most on its account. */
  lemma HeadAllows(s: Sender, s1: Sender)
    requires Inv(s) && s.queue != [] && !WindowFull(s.ring)
    requires s1 == Step(s, Write(Complete), KeepOldest) && WellFormed(s1.ring)
    ensures WindowFull(s1.ring) ==> s1.ring.items[s1.ring.oldest.value].seqNum == s.queue[0].seqNum
  {
    if s.ring.oldest.Some? {
      SameFull(s, s1);
    }
  }

  /** A sender that has not stopped is at most three events from accepting a frame. */
  lemma WayOn(s: Sender, frame: seq<byte>) returns (es: seq<Event>)
    requires Inv(s) && !Stopped(s) && !LastOne(s)
    ensures NoWrap(s, es, KeepOldest) && PutFrame(Run(s, es, KeepOldest), frame).1.Queued?
  {
    if !Refuses(s) {
      es := [];
    } else if WindowFull(s.ring) {
      es := ThroughWaiting(s, s.ring.items[s.ring.oldest.value].seqNum, frame);
    } else {
      var n :| n in s.buffer && (n in s.waiting || n >= Frontier(s));
      if n in s.waiting {
        es := ThroughWaiting(s, n, frame);
      } else {
        es := ThroughQueue(s, frame);
      }
    }
  }

  // ----- no way on -----

  /** An abandoned number keeps the ring from ever draining. */
  lemma {:induction false} AbandonedNeverDrains(s: Sender, es: seq<Event>, n: u32)
    requires Inv(s) && NoWrap(s, es, KeepOldest) && Abandoned(s, n)
    ensures NeverDrains(s, es)
    decreases |es|
  {
    if es != [] {
      if Drains(s, es[0]) {
        DrainsExactly(s, es[0].seqNum);
      }
      SameStep(s, es[0]);
      StepKeeps(s, es[0]);
      AbandonedStep(s, es[0], n);
      AbandonedNeverDrains(Step(s, es[0], KeepOldest), es[1..], n);
    }
  }

  /** Everything that a sender with no way on can come to. */
  ghost predicate Done(s: Sender) {
    || (Stranded(s) && s.ring.seqNum % s.ring.window == 0)
    || (Ordered(s) && |s.buffer| <= s.maxsize && AllLeaked(s))
    || (Inv(s) && (Stopped(s) || LastOne(s)))
  }

  lemma StoppedRefuses(s: Sender, es: seq<Event>, frame: seq<byte>)
    requires Inv(s) && Stopped(s) && NoWrap(s, es, KeepOldest)
    ensures !PutFrame(Run(s, es, KeepOldest), frame).1.Queued?
  {
    if AllLeaked(s) {
      AllLeakedStays(s, es, KeepOldest);
    } else {
      var n := AbandonedOldest(s);
      AbandonedNeverDrains(s, es, n);
      WrittenIsRepairedUntilDrain(s, es);
      StoppedStarves(s, es, frame);
    }
  }

  /** The last one is written, or fails, or is acknowledged, or times out: each time
      there is still no way on. */
  lemma LastStep(s: Sender, e: Event)
    requires Inv(s) && LastOne(s) && !Wraps(s, e)
    ensures Done(Step(s, e, KeepOldest))
  {
    match e
    case Put(frame) =>
    case Write(outcome) =>
      if s.queue != [] {
        if outcome.Complete? { LastWritten(s); } else { LastFails(s, outcome); }
      }
    case Fire(n) =>
      if n in s.waiting {
        LastDrains(s, n);
        DrainStrands(s, Fire(n));
      }
    case Timeout(n) => LastTimesOut(s, n);
  }

  lemma LastDrains(s: Sender, n: u32)
    requires Inv(s) && LastOne(s) && n in s.waiting
    ensures Drains(s, Fire(n))
  {
    DrainsExactly(s, n);
    WaitingFound(s, n);
    assert LiveSlot(s.ring, (n - 1) % s.ring.window) && ItemAt(s.ring, (n - 1) % s.ring.window).seqNum == n;
  }

  lemma LastWritten(s: Sender)
    requires Inv(s) && LastOne(s) && s.queue != []
    ensures Inv(Step(s, Write(Complete), KeepOldest)) && LastOne(Step(s, Write(Complete), KeepOldest))
  {
    var s' := HeadWritten(s);
    OldestIffLive(s.ring, Frontier(s));
    var j := Modulus(s.ring, s.queue[0].seqNum);
    assert forall k :: 0 <= k < |s.ring.slots| && k != j ==> LiveSlot(s'.ring, k) == LiveSlot(s.ring, k);
    assert ItemAt(s'.ring, j).seqNum == s.queue[0].seqNum;
    assert !OthersLive(s', s.queue[0].seqNum);
  }

  lemma LastFails(s: Sender, outcome: Outcome)
    requires Inv(s) && LastOne(s) && s.queue != [] && !outcome.Complete?
    ensures Done(Step(s, Write(outcome), KeepOldest))
  {
    var s' := Step(s, Write(outcome), KeepOldest);
    OrderedStep(s, Write(outcome), KeepOldest);
    OldestIffLive(s.ring, Frontier(s));
    assert s.waiting == {} by { NoneWaiting(s); }
    assert AllLeaked(s');
  }

  lemma NoneWaiting(s: Sender)
    requires Inv(s) && NothingLive(s.ring)
    ensures s.waiting == {}
  {
  }

  lemma LastTimesOut(s: Sender, n: u32)
    requires Inv(s) && LastOne(s)
    ensures Done(Step(s, Timeout(n), KeepOldest))
  {
    StepKeeps(s, Timeout(n));
    var s' := Step(s, Timeout(n), KeepOldest);
    assert forall k :: 0 <= k < |s.ring.slots| ==> LiveSlot(s'.ring, k) == LiveSlot(s.ring, k);
    assert OthersLive(s', n) == OthersLive(s, n);
    if s.queue == [] {
      assert Alone(s') by { AloneSame(s, s'); }
    } else {
      assert Alone(s');
    }
  }

  lemma AloneSame(s: Sender, s': Sender)
    requires WellFormed(s.ring) && s'.ring == s.ring && s'.queue == s.queue && Alone(s)
    ensures Alone(s')
  {
    if s.queue == [] {
      var x := s.ring.items[s.ring.oldest.value].seqNum;
      assert OthersLive(s', x) == OthersLive(s, x);
    }
  }

  lemma {:induction false} LastRefuses(s: Sender, es: seq<Event>, frame: seq<byte>)
    requires WellFormed(s.ring) && Done(s) && NoWrap(s, es, KeepOldest)
    ensures !PutFrame(Run(s, es, KeepOldest), frame).1.Queued?
    decreases |es|
  {
    if Stranded(s) && s.ring.seqNum % s.ring.window == 0 {
      StrandedStarves(s, es);
      StrandedFull(Run(s, es, KeepOldest));
    } else if Ordered(s) && |s.buffer| <= s.maxsize && AllLeaked(s) {
      AllLeakedStays(s, es, KeepOldest);
    } else if Stopped(s) {
      StoppedRefuses(s, es, frame);
    } else if es != [] {
      LastStep(s, es[0]);
      LastRefuses(Step(s, es[0], KeepOldest), es[1..], frame);
    }
  }

  /** Not yet drained, the sender as written has stopped for good if and only if the
      repaired one would have, or it refuses frames at a multiple of the window with
      one number alone out. */
  lemma WrittenStarvedExactly(s: Sender)
    requires Inv(s)
    ensures Starved(s, KeepOldest) <==> Stopped(s) || LastOne(s)
  {
    if Stopped(s) || LastOne(s) {
      forall es: seq<Event>, frame: seq<byte> | NoWrap(s, es, KeepOldest)
        ensures !PutFrame(Run(s, es, KeepOldest), frame).1.Queued?
      {
        LastRefuses(s, es, frame);
      }
    } else {
      var es := WayOn(s, []);
    }
  }
}
