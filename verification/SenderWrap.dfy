/** The whole sender at the wrap of its numbers: the buffer beside the ring does
    not save it, whatever sizes it is opened with. */
module SenderWrap {
  import opened Words
  import opened RingSpec
  import opened RingInvariant
  import opened SendWindow
  import WrapAround
  import Starvation
  import Residues

  // ----- sending one frame at a time -----

  /** Nothing buffered, queued or live, and n is the next number. */
  ghost predicate IdleSender(s: Sender, n: u32) {
    && s.buffer == map[] && s.queue == [] && s.waiting == {} && s.maxsize > 0
    && RingInv(s.ring, n) && s.ring.seqNum == n && NothingLive(s.ring)
  }

  /** Numbering, buffering and installing one frame is one send of the ring; a
      refused frame changes nothing. */
  lemma SendLifts(s: Sender, frame: seq<byte>, drain: Drain) returns (s1: Sender, s2: Sender)
    requires WellFormed(s.ring) && s.queue == [] && |s.buffer| != s.maxsize
    ensures s1 == Step(s, Put(frame), drain) && s2 == Step(s1, Write(Complete), drain)
    ensures s2.ring == WrapAround.SendOne(s.ring) && s2.queue == [] && s2.maxsize == s.maxsize
    ensures |s2.buffer| <= |s.buffer| + 1
    ensures var res := NextSeqNum(s.ring).1;
            if res.Next?
            then && s1.queue == [Pending(res.seqNum, frame)] && s1.ring == NextSeqNum(s.ring).0
                 && s2.buffer == s.buffer[res.seqNum := []] && s2.waiting == s.waiting + {res.seqNum}
            else s2 == s
  {
    s1 := Step(s, Put(frame), drain);
    s2 := Step(s1, Write(Complete), drain);
    var res := NextSeqNum(s.ring).1;
    if res.Next? {
      assert s2.buffer.Keys == s.buffer.Keys + {res.seqNum};
    }
  }

  lemma RoundKeepsIdle(s: Sender, n: u32, frame: seq<byte>) returns (s1: Sender, s2: Sender, s3: Sender)
    requires IdleSender(s, n) && n < LAST
    ensures s1 == Step(s, Put(frame), ClearOldest) && s1.queue == [Pending(n, frame)]
    ensures s2 == Step(s1, Write(Complete), ClearOldest) && s2.waiting == {n}
    ensures s3 == Step(s2, Fire(n), ClearOldest)
    ensures IdleSender(s3, n + 1) && s3.ring.window == s.ring.window && s3.maxsize == s.maxsize
  {
    IdleHasCapacity(s.ring, n);
    s1, s2 := SendLifts(s, frame, ClearOldest);
    s3 := Step(s2, Fire(n), ClearOldest);
    WrapAround.SendAndAck(s.ring, n);
  }

  lemma RunTwo(s: Sender, a: Event, b: Event, drain: Drain)
    requires WellFormed(s.ring)
    ensures Run(s, [a, b], drain) == Step(Step(s, a, drain), b, drain)
  {
    var s1 := Step(s, a, drain);
    RunCons(s1, b, [], drain);
    assert [b] + [] == [b];
    RunCons(s, a, [b], drain);
    assert [a] + [b] == [a, b];
  }

  lemma RunMore(s: Sender, es: seq<Event>, fs: seq<Event>, drain: Drain)
    requires WellFormed(s.ring)
    ensures Run(s, es + fs, drain) == Run(Run(s, es, drain), fs, drain)
  {
    NoWrapPrefix(s, es, fs, drain);
  }

  lemma RunOneMore(s: Sender, e: Event, drain: Drain)
    requires WellFormed(s.ring)
    ensures Run(s, [e], drain) == Step(s, e, drain)
  {
    RunCons(s, e, [], drain);
    assert [e] + [] == [e];
  }

  // ----- one frame always out -----

  /** Number n alone is out: written, live and waited for. */
  ghost predicate OneOut(s: Sender, n: u32) {
    && s.queue == [] && s.buffer == map[n := []] && s.waiting == {n} && s.maxsize >= 2
    && s.ring.window >= 2 && WrapAround.OneLive(s.ring, n)
  }

  /** The next frame is out before n is acknowledged: either version comes to n + 1. */
  lemma AheadRound(s: Sender, n: u32, frame: seq<byte>, drain: Drain)
    returns (s1: Sender, s2: Sender, s3: Sender)
    requires OneOut(s, n) && n + 1 < LAST
    ensures s1 == Step(s, Put(frame), drain) && s1.queue == [Pending(n + 1, frame)]
    ensures NextSeqNum(s.ring).1 == Next(n + 1) && |s.buffer| != s.maxsize
    ensures s2 == Step(s1, Write(Complete), drain) && s2.waiting == {n, n + 1}
    ensures s3 == Step(s2, Fire(n), drain)
    ensures OneOut(s3, n + 1) && s3.ring.window == s.ring.window && s3.maxsize == s.maxsize
  {
    assert s.buffer.Keys == {n};
    WrapAround.AheadKeeps(s.ring, n, drain);
    s1, s2 := SendLifts(s, frame, drain);
    s3 := Step(s2, Fire(n), drain);
    assert s3.buffer == map[n + 1 := []] && s3.waiting == {n + 1};
  }

  lemma FirstOut(s: Sender, frame: seq<byte>, drain: Drain) returns (s1: Sender, s2: Sender)
    requires s.ring.window >= 2 && s.maxsize >= 2 && s == InitSender(s.ring.window, s.maxsize)
    ensures s1 == Step(s, Put(frame), drain) && s1.queue == [Pending(1, frame)]
    ensures s2 == Step(s1, Write(Complete), drain) && OneOut(s2, 1)
    ensures s2.ring.window == s.ring.window && s2.maxsize == s.maxsize
  {
    s1, s2 := SendLifts(s, frame, drain);
    WrapAround.FirstLive(s.ring.window);
  }

  /** After the run es of s0, short of the wrap, n alone is out. */
  ghost predicate OutRun(s0: Sender, es: seq<Event>, n: u32, drain: Drain)
    requires WellFormed(s0.ring)
  {
    && NoWrap(s0, es, drain)
    && var s := Run(s0, es, drain);
       OneOut(s, n) && s.ring.window == s0.ring.window && s.maxsize == s0.maxsize
  }

  /** Either version of a new sender comes to any number alone, short of the wrap. */
  lemma {:induction false} OutAt(window: u16, maxsize: nat, n: u32, drain: Drain) returns (es: seq<Event>)
    requires window >= 2 && maxsize >= 2 && 1 <= n < LAST
    ensures OutRun(InitSender(window, maxsize), es, n, drain)
    decreases n
  {
    if n == 1 {
      es := FirstRun(InitSender(window, maxsize), drain);
    } else {
      var before := OutAt(window, maxsize, n - 1, drain);
      es := OutFurther(InitSender(window, maxsize), before, n - 1, drain);
    }
  }

  lemma OutFurther(s0: Sender, before: seq<Event>, n: u32, drain: Drain) returns (es: seq<Event>)
    requires WellFormed(s0.ring) && OutRun(s0, before, n, drain) && n + 1 < LAST
    ensures OutRun(s0, es, n + 1, drain)
  {
    var s := Run(s0, before, drain);
    var round := AheadRun(s, n, drain);
    es := before + round;
    NoWrapPrefix(s0, before, round, drain);
  }

  lemma FirstRun(s: Sender, drain: Drain) returns (es: seq<Event>)
    requires s.ring.window >= 2 && s.maxsize >= 2 && s == InitSender(s.ring.window, s.maxsize)
    ensures OutRun(s, es, 1, drain)
  {
    var s1, s2 := FirstOut(s, [], drain);
    es := [Put([]), Write(Complete)];
    RunTwo(s, Put([]), Write(Complete), drain);
    SendNoWrap(s, drain);
  }

  lemma AheadRun(s: Sender, n: u32, drain: Drain) returns (es: seq<Event>)
    requires OneOut(s, n) && n + 1 < LAST
    ensures var s' := Run(s, es, drain);
            OneOut(s', n + 1) && s'.ring.window == s.ring.window && s'.maxsize == s.maxsize
    ensures NoWrap(s, es, drain)
  {
    var send := [Put([]), Write(Complete)];
    var s1, s2, s3 := AheadRound(s, n, [], drain);
    es := send + [Fire(n)];
    RunTwo(s, Put([]), Write(Complete), drain);
    SendNoWrap(s, drain);
    NoWrapPrefix(s, send, [Fire(n)], drain);
    RunOneMore(s2, Fire(n), drain);
    assert NoWrap(s2, [Fire(n)], drain);
  }

  lemma SendNoWrap(s: Sender, drain: Drain)
    requires WellFormed(s.ring) && s.ring.seqNum < LAST
    ensures NoWrap(s, [Put([]), Write(Complete)], drain)
  {
    var s1 := Step(s, Put([]), drain);
    assert NoWrap(s1, [Write(Complete)], drain);
    assert [Put([]), Write(Complete)][1..] == [Write(Complete)];
  }

  // ----- two numbers kept back, everything else acknowledged at once -----

  /** Every number below x is sent; first is the oldest live one; m, once sent, is
      live; and nothing else is buffered. */
  ghost predicate Sparse(s: Sender, first: u32, x: u32, m: u32) {
    && RingInv(s.ring, x) && s.ring.seqNum == x && s.queue == []
    && s.ring.oldest.Some? && s.ring.items[s.ring.oldest.value].seqNum == first
    && (m < x ==> WrapAround.LiveNumber(s.ring, m))
    && s.buffer.Keys <= {first, m} && s.maxsize >= 5
  }

  lemma AckOther(r: Ring, w: int, n: u32, drain: Drain)
    requires RingInv(r, w) && r.oldest.Some? && 1 <= n != r.items[r.oldest.value].seqNum
    ensures var r' := UpdateAck(r, n, drain).0;
            && RingInv(r', w) && r'.oldest == r.oldest && r'.seqNum == r.seqNum && r'.window == r.window
            && r'.items[r'.oldest.value] == r.items[r.oldest.value]
  {
    AckKeeps(r, w, n);
    SameUntilDrain(r, n);
  }

  /** Another number's acknowledgement leaves number m live. */
  lemma AckLeaves(r: Ring, w: int, n: u32, m: u32, drain: Drain)
    requires RingInv(r, w) && WrapAround.LiveNumber(r, m) && 1 <= n
    requires ItemAt(r, (m - 1) % r.window).seqNum != n
    ensures WrapAround.LiveNumber(UpdateAck(r, n, drain).0, m)
  {
    AckRemovesExactly(r, w, n, drain, (m - 1) % r.window);
  }

  /** Before the wrap, what is live in the slot of a live number m of this window
      is m itself. */
  lemma LiveIsItself(r: Ring, w: int, first: u32, m: u32)
    requires RingInv(r, w) && r.oldest.Some? && r.items[r.oldest.value].seqNum == first
    requires first <= m < first + r.window && WrapAround.LiveNumber(r, m)
    ensures ItemAt(r, (m - 1) % r.window).seqNum == m
  {
    var y := ItemAt(r, (m - 1) % r.window).seqNum;
    assert first <= y < first + r.window;
    if y < m {
      Residues.ModDistinct(y - 1, m - 1, r.window);
    } else if m < y {
      Residues.ModDistinct(m - 1, y - 1, r.window);
    }
  }

  /** One more number sent; acknowledged too unless it is m. */
  lemma SparseStep(s: Sender, first: u32, x: u32, m: u32, drain: Drain) returns (es: seq<Event>)
    requires Sparse(s, first, x, m) && first < x < LAST && first <= m < first + s.ring.window
    requires x < first + s.ring.window
    ensures Sparse(Run(s, es, drain), first, x + 1, m)
    ensures Run(s, es, drain).ring.window == s.ring.window
  {
    var send := [Put([]), Write(Complete)];
    var s2 := SparseSend(s, first, x, m, drain);
    if x == m {
      es := send;
    } else {
      es := send + [Fire(x)];
      RunMore(s, send, [Fire(x)], drain);
      RunOneMore(s2, Fire(x), drain);
      SparseAck(s2, first, x, m, drain);
    }
  }

  /** Number x just sent, not yet acknowledged. */
  ghost predicate JustSent(s: Sender, first: u32, x: u32, m: u32) {
    && x < LAST && RingInv(s.ring, x + 1) && s.ring.seqNum == x + 1 && s.queue == []
    && s.ring.oldest.Some? && s.ring.items[s.ring.oldest.value].seqNum == first
    && (m <= x ==> WrapAround.LiveNumber(s.ring, m))
    && s.buffer.Keys <= {first, m, x} && x in s.waiting && s.maxsize >= 5
  }

  lemma SparseSend(s: Sender, first: u32, x: u32, m: u32, drain: Drain) returns (s2: Sender)
    requires Sparse(s, first, x, m) && x < LAST && x < first + s.ring.window
    ensures s2 == Run(s, [Put([]), Write(Complete)], drain)
    ensures JustSent(s2, first, x, m) && s2.ring.window == s.ring.window
  {
    FullExactly(s.ring, x);
    TwoFit(s.buffer.Keys, first, m);
    var s1;
    s1, s2 := SendLifts(s, [], drain);
    RunTwo(s, Put([]), Write(Complete), drain);
    WrapAround.SendKeeps(s.ring, x);
    WrapAround.SendGrows(s.ring);
  }

  lemma SparseAck(s: Sender, first: u32, x: u32, m: u32, drain: Drain)
    requires JustSent(s, first, x, m) && first < x && x != m && first <= m < first + s.ring.window
    ensures Sparse(Step(s, Fire(x), drain), first, x + 1, m)
    ensures Step(s, Fire(x), drain).ring.window == s.ring.window
  {
    AckOther(s.ring, x + 1, x, drain);
    if m < x {
      LiveIsItself(s.ring, x + 1, first, m);
      AckLeaves(s.ring, x + 1, x, m, drain);
    }
  }

  lemma TwoFit(keys: set<u32>, a: u32, b: u32)
    requires keys <= {a, b}
    ensures |keys| <= 2
  {
    assert |{a, b}| <= 2;
    assert {a, b} == keys + ({a, b} - keys);
  }

  lemma {:induction false} SparseTo(s: Sender, first: u32, x: u32, m: u32, drain: Drain) returns (es: seq<Event>)
    requires Sparse(s, first, x, m) && first < x <= LAST && first <= m < first + s.ring.window
    requires LAST < first + s.ring.window
    ensures Sparse(Run(s, es, drain), first, LAST, m)
    ensures Run(s, es, drain).ring.window == s.ring.window
    decreases LAST - x
  {
    if x == LAST {
      es := [];
    } else {
      var one := SparseStep(s, first, x, m, drain);
      var more := SparseTo(Run(s, one, drain), first, x + 1, m, drain);
      es := one + more;
      RunMore(s, one, more, drain);
    }
  }

  lemma SparseStart(s: Sender, first: u32, m: u32)
    requires OneOut(s, first) && s.maxsize >= 5 && first <= m
    ensures Sparse(s, first, first + 1, m)
  {
    assert LiveSlot(s.ring, (first - 1) % s.ring.window);
  }

  /** The last number before the wrap is sent, and the window no longer reads full. */
  lemma OverTheWrap(s: Sender, first: u32, m: u32, drain: Drain) returns (es: seq<Event>)
    requires Sparse(s, first, LAST, m) && s.ring.window >= 3 && first == LAST - s.ring.window + 2
    requires first <= m <= LAST && ((m - 1) % s.ring.window == 0 || (m - 1) % s.ring.window == 1)
    ensures Overwrites(Run(s, es, drain), Write(Complete))
  {
    var send := [Put([]), Write(Complete)];
    FullExactly(s.ring, LAST);
    TwoFit(s.buffer.Keys, first, m);
    var s1, s2 := SendLifts(s, [], drain);
    RunTwo(s, Put([]), Write(Complete), drain);
    WrapAround.SendGrows(s.ring);
    var ops := WrapAround.PastWrapOverwrites(s2.ring, m, drain);
    var last := OpsLift(s2, ops, drain);
    es := send + last;
    RunMore(s, send, last, drain);
  }

  lemma OpsLift(s: Sender, ops: seq<WrapAround.Op>, drain: Drain) returns (es: seq<Event>)
    requires WellFormed(s.ring) && s.queue == [] && |s.buffer| + 1 < s.maxsize
    requires ops == [] || ops == [WrapAround.Send]
    requires WrapAround.Overwrites(WrapAround.Run(s.ring, ops, drain))
    ensures Overwrites(Run(s, es, drain), Write(Complete))
  {
    if ops == [] {
      es := [Put([])];
      LastPut(s, drain);
    } else {
      var send := [Put([]), Write(Complete)];
      var s1, s2 := SendLifts(s, [], drain);
      RunTwo(s, Put([]), Write(Complete), drain);
      WrapAround.RunOne(s.ring, [], WrapAround.Send, drain);
      assert [] + [WrapAround.Send] == [WrapAround.Send];
      es := send + [Put([])];
      RunMore(s, send, [Put([])], drain);
      LastPut(s2, drain);
    }
  }

  lemma LastPut(s: Sender, drain: Drain)
    requires WellFormed(s.ring) && s.queue == [] && |s.buffer| != s.maxsize && WrapAround.Overwrites(s.ring)
    ensures Overwrites(Run(s, [Put([])], drain), Write(Complete))
  {
    RunOneMore(s, Put([]), drain);
    var n := NextSeqNum(s.ring).1.seqNum;
    var s' := Step(s, Put([]), drain);
    assert s'.queue == [Pending(n, [])];
    assert Modulus(s'.ring, n) == Modulus(s.ring, n);
  }

  /** No sizes that the constructors can produce make either version of the sender
      safe for ever: the map of frames holds at least 16, and whatever the window,
      some run installs over a live item, before the wrap or at it. */
  lemma NeverSafeForever(window: u16, writeBufferSize: nat, drain: Drain) returns (es: seq<Event>)
    requires window > 0
    ensures var maxsize := if writeBufferSize < 16 then 16 else writeBufferSize;
            Overwrites(Run(InitSender(window, maxsize), es, drain), Write(Complete))
  {
    var maxsize := if writeBufferSize < 16 then 16 else writeBufferSize;
    var s0 := InitSender(window, maxsize);
    if window < maxsize {
      es := Starvation.BurstEither(window, maxsize, drain);
    } else {
      var first: u32 := LAST - window + 2;
      var m := WrapAround.EarlySlotTaken(window);
      var out := OutAt(window, maxsize, first, drain);
      var s := Run(s0, out, drain);
      SparseStart(s, first, m);
      var most := SparseTo(s, first, first + 1, m, drain);
      var s2 := Run(s, most, drain);
      var tail := OverTheWrap(s2, first, m, drain);
      es := out + most + tail;
      RunMore(s0, out, most, drain);
      RunMore(s0, out + most, tail, drain);
    }
  }
}
