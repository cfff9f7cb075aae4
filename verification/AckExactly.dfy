/** Exactly which user payloads the two safety properties depend on, and what
    becomes of two sides whose frames cross. */
module AckExactly {
  import opened Words
  import opened Header
  import opened RingSpec
  import SendWindow
  import opened Transport
  import opened AckSafety
  import RingInvariant
  import SenderWrap
  import Starvation

  // ----- reachability by fair runs of either version -----

  ghost predicate Reaches(crc: Crc, s: Net, s': Net, drain: Drain, rules: Rules)
    requires NetOk(s)
  {
    exists ms: seq<Move> :: FairRun(crc, s, ms, drain, rules) && Run(crc, s, ms, drain) == s'
  }

  lemma {:induction false} RunAppend(crc: Crc, s: Net, ms: seq<Move>, more: seq<Move>, drain: Drain, rules: Rules)
    requires NetOk(s)
    ensures Run(crc, s, ms + more, drain) == Run(crc, Run(crc, s, ms, drain), more, drain)
    ensures FairRun(crc, s, ms + more, drain, rules) <==>
            FairRun(crc, s, ms, drain, rules) && FairRun(crc, Run(crc, s, ms, drain), more, drain, rules)
    decreases |ms|
  {
    if ms == [] {
      assert ms + more == more;
    } else {
      assert (ms + more)[1..] == ms[1..] + more;
      RunAppend(crc, Step(crc, s, ms[0], drain), ms[1..], more, drain, rules);
    }
  }

  lemma Start(crc: Crc, s: Net, drain: Drain, rules: Rules)
    requires NetOk(s)
    ensures Reaches(crc, s, s, drain, rules)
  {
    assert FairRun(crc, s, [], drain, rules) && Run(crc, s, [], drain) == s;
  }

  /** One more fair move. */
  lemma Move1(crc: Crc, s: Net, s1: Net, m: Move, drain: Drain, rules: Rules) returns (s2: Net)
    requires NetOk(s) && NetOk(s1) && Reaches(crc, s, s1, drain, rules) && Fair(s1, m, rules)
    ensures s2 == Step(crc, s1, m, drain) && Reaches(crc, s, s2, drain, rules)
  {
    s2 := Step(crc, s1, m, drain);
    var ms :| FairRun(crc, s, ms, drain, rules) && Run(crc, s, ms, drain) == s1;
    RunAppend(crc, s, ms, [m], drain, rules);
    assert [m][1..] == [] && Run(crc, s2, [], drain) == s2;
    assert Run(crc, s1, [m], drain) == s2;
    assert FairRun(crc, s, ms + [m], drain, rules);
  }

  lemma ReachesKeepsOwn(crc: Crc, s0: Net, s: Net, drain: Drain, rules: Rules)
    requires NetOk(s0) && Reaches(crc, s0, s, drain, rules)
    ensures NetOk(s) && s.a.own == s0.a.own && s.b.own == s0.b.own
  {
  }

  /** Each side holds the other's reference number, as after a handshake. */
  predicate Paired(s: Net) {
    s.a.peer == s.b.own && s.b.peer == s.a.own
  }

  ghost predicate Roomy(s: Net, k: nat) {
    s.a.sender.maxsize >= k && s.b.sender.maxsize >= k
  }

  // ----- one frame sent, acknowledged and released -----

  /** A puts payload f and writes it under number n: header and payload go out. */
  lemma ASends(crc: Crc, s0: Net, s: Net, n: u32, f: seq<byte>, drain: Drain, rules: Rules) returns (s2: Net)
    requires NetOk(s0) && NetOk(s) && Reaches(crc, s0, s, drain, rules) && f in rules.toB
    requires s.a.sender.queue == [] && |s.a.sender.buffer| != s.a.sender.maxsize
    requires NextSeqNum(s.a.sender.ring).1 == Next(n)
    ensures NetOk(s2) && Reaches(crc, s0, s2, drain, rules) && s2.b == s.b && s2.toB >= s.toB
    ensures s2.a.own == s.a.own && s2.a.peer == s.a.peer && s2.a.headed == s.a.headed + {n}
    ensures n in s2.a.sender.waiting && s2.a.ackCh == s.a.ackCh + {n}
    ensures s2.a.sender == SendWindow.Step(SendWindow.Step(s.a.sender, SendWindow.Put(f), drain),
                                           SendWindow.Write(SendWindow.Complete), drain)
    ensures f in s2.toB && Encode(crc, s.a.peer, n, 0, DATAGRAM as int, |f|, crc(f)) in s2.toB
    ensures s2 == Step(crc, Step(crc, s, Local(A, Action.Put(f)), drain),
                       Local(A, Action.Write(SendWindow.Complete)), drain)
  {
    var snd1, snd2 := SenderWrap.SendLifts(s.a.sender, f, drain);
    var s1 := Move1(crc, s0, s, Local(A, Action.Put(f)), drain, rules);
    assert s1.a.sender == snd1 && s1.a.peer == s.a.peer;
    s2 := Move1(crc, s0, s1, Local(A, Action.Write(SendWindow.Complete)), drain, rules);
    var hdr := Encode(crc, s.a.peer, n, 0, DATAGRAM as int, |f|, crc(f));
    assert hdr in [hdr, f] && f in [hdr, f];
  }

  /** A sender as it was opened. */
  ghost predicate FreshSender(s: SendWindow.Sender) {
    s.ring.window > 0 && s.maxsize > 0 && s == SendWindow.InitSender(s.ring.window, s.maxsize)
  }

  /** B does so with a first payload. */
  lemma BSends(crc: Crc, s0: Net, s: Net, f: seq<byte>, drain: Drain, rules: Rules) returns (s2: Net)
    requires NetOk(s0) && NetOk(s) && Reaches(crc, s0, s, drain, rules) && f in rules.toA
    requires FreshSender(s.b.sender)
    ensures NetOk(s2) && Reaches(crc, s0, s2, drain, rules)
    ensures s2.a == s.a && s2.b.parsed == s.b.parsed && f in s2.toA
  {
    var snd1, snd2 := SenderWrap.SendLifts(s.b.sender, f, drain);
    var s1 := Move1(crc, s0, s, Local(B, Action.Put(f)), drain, rules);
    s2 := Move1(crc, s0, s1, Local(B, Action.Write(SendWindow.Complete)), drain, rules);
    var hdr := Encode(crc, s1.b.peer, 1, 0, DATAGRAM as int, |f|, crc(f));
    assert f in [hdr, f];
  }

  /** B, with nothing of its own buffered, parses frame n's header and acknowledges it. */
  lemma Acknowledge(crc: Crc, s0: Net, s: Net, n: u32, hdr: seq<byte>, drain: Drain, rules: Rules)
    returns (s2: Net, ack: seq<byte>)
    requires NetOk(s0) && NetOk(s) && Reaches(crc, s0, s, drain, rules) && Paired(s)
    requires s.b.sender.buffer == map[] && hdr in s.toB && ReadsAsGram(crc, s.b.own, hdr, n)
    ensures Reaches(crc, s0, s2, drain, rules) && NetOk(s2) && s2.a == s.a && s2.toB == s.toB
    ensures s2.b.sender == s.b.sender && s2.b.peer == s.b.peer && s2.b.own == s.b.own
    ensures s2.b.parsed == s.b.parsed + {n}
    ensures ack in s2.toA && ReadsAsAck(crc, s2.a.own, ack, n)
    ensures s2 == Step(crc, Step(crc, s, Deliver(B, hdr), drain), Local(B, HandleGram(n)), drain)
  {
    var s1 := Move1(crc, s0, s, Deliver(B, hdr), drain, rules);
    s2 := Move1(crc, s0, s1, Local(B, HandleGram(n)), drain, rules);
    ack := AckDatagram(crc, s.b.peer, n);
    assert ack in [ack];
    EncodedReads(crc, s.a.own, s.b.peer, 0, n, DATA_ACK, 0, 0, n);
  }

  /** A reads a datagram as the acknowledgement of its frame n and releases it. */
  lemma Release(crc: Crc, s0: Net, s: Net, n: u32, ack: seq<byte>, drain: Drain, rules: Rules) returns (s3: Net)
    requires NetOk(s0) && NetOk(s) && Reaches(crc, s0, s, drain, rules)
    requires n in s.a.sender.waiting && n in s.a.ackCh && ack in s.toA && ReadsAsAck(crc, s.a.own, ack, n)
    ensures Reaches(crc, s0, s3, drain, rules) && NetOk(s3) && s3.b == s.b && s3.toB == s.toB
    ensures s3.a.own == s.a.own && s3.a.peer == s.a.peer && s3.a.ackCh == s.a.ackCh
    ensures s3.a.sender == SendWindow.Step(s.a.sender, SendWindow.Fire(n), drain)
    ensures n in s3.a.popped
    ensures s3 == Step(crc, Step(crc, Step(crc, s, Deliver(A, ack), drain), Local(A, HandleAck(n)), drain),
                       Local(A, Action.Fire(n)), drain)
  {
    var s1 := Move1(crc, s0, s, Deliver(A, ack), drain, rules);
    assert s1.a == s.a.(acks := s.a.acks + {n});
    var s2 := Move1(crc, s0, s1, Local(A, HandleAck(n)), drain, rules);
    s3 := Move1(crc, s0, s2, Local(A, Action.Fire(n)), drain, rules);
  }

  // ----- driving A to any number -----

  /** Number n is out and waited for, B has sent nothing, and nothing of n, which
      is the latest, has been parsed. */
  ghost predicate FrameOut(s: Net, n: u32) {
    && NetOk(s) && Paired(s) && n in s.a.sender.waiting && n in s.a.ackCh
    && FreshSender(s.b.sender)
    && (forall k :: k in s.b.parsed ==> k < n)
  }

  /** A has sent every number below n and had it released; B has sent nothing. */
  ghost predicate IdleNet(s: Net, n: u32) {
    && NetOk(s) && Paired(s)
    && SenderWrap.IdleSender(s.a.sender, n)
    && FreshSender(s.b.sender)
    && (forall k :: k in s.b.parsed ==> k < n)
  }

  lemma SendFrame(crc: Crc, s0: Net, s: Net, n: u32, g: seq<byte>, drain: Drain, rules: Rules)
    returns (s2: Net, hdr: seq<byte>)
    requires NetOk(s0) && Reaches(crc, s0, s, drain, rules) && IdleNet(s, n) && InRange(n) && g in rules.toB
    ensures Reaches(crc, s0, s2, drain, rules) && FrameOut(s2, n) && s2.b == s.b
    ensures hdr in s2.toB && ReadsAsGram(crc, s2.b.own, hdr, n)
    ensures s2.a.sender == SendWindow.Step(SendWindow.Step(s.a.sender, SendWindow.Put(g), drain),
                                           SendWindow.Write(SendWindow.Complete), drain)
    ensures s2 == Step(crc, Step(crc, s, Local(A, Action.Put(g)), drain),
                       Local(A, Action.Write(SendWindow.Complete)), drain)
    ensures |hdr| == SIZE
  {
    RingInvariant.IdleHasCapacity(s.a.sender.ring, n);
    s2 := ASends(crc, s0, s, n, g, drain, rules);
    hdr := Encode(crc, s.a.peer, n, 0, DATAGRAM as int, |g|, crc(g));
    EncodedReads(crc, s.b.own, s.a.peer, n, 0, DATAGRAM, |g|, crc(g), n);
  }

  lemma Round(crc: Crc, s0: Net, s: Net, n: u32, g: seq<byte>, rules: Rules) returns (s': Net)
    requires NetOk(s0) && Reaches(crc, s0, s, ClearOldest, rules) && IdleNet(s, n) && n < LAST && g in rules.toB
    ensures Reaches(crc, s0, s', ClearOldest, rules) && IdleNet(s', n + 1)
  {
    var snd1, snd2, snd3 := SenderWrap.RoundKeepsIdle(s.a.sender, n, g);
    var s1, hdr := SendFrame(crc, s0, s, n, g, ClearOldest, rules);
    var s2, ack := Acknowledge(crc, s0, s1, n, hdr, ClearOldest, rules);
    s' := Release(crc, s0, s2, n, ack, ClearOldest, rules);
  }

  /** The repaired code, one frame at a time. */
  lemma {:induction false} DriveIdle(crc: Crc, s0: Net, n: u32, g: seq<byte>, rules: Rules) returns (s: Net)
    requires NetOk(s0) && Opened(crc, s0) && Paired(s0) && Roomy(s0, 1) && g in rules.toB && InRange(n)
    ensures Reaches(crc, s0, s, ClearOldest, rules) && IdleNet(s, n)
    decreases n
  {
    if n == 1 {
      s := s0;
      Start(crc, s0, ClearOldest, rules);
    } else {
      var before := DriveIdle(crc, s0, n - 1, g, rules);
      s := Round(crc, s0, before, n - 1, g, rules);
    }
  }

  /** Number n alone is out, and its header on the network unparsed. */
  ghost predicate AheadNet(crc: Crc, s: Net, n: u32, hdr: seq<byte>) {
    && FrameOut(s, n) && SenderWrap.OneOut(s.a.sender, n)
    && hdr in s.toB && ReadsAsGram(crc, s.b.own, hdr, n)
  }

  /** A sends the number after n before n is acknowledged. */
  lemma SendNext(crc: Crc, s0: Net, s: Net, n: u32, hdr: seq<byte>, g: seq<byte>, drain: Drain, rules: Rules)
    returns (s1: Net, next: seq<byte>)
    requires NetOk(s0) && Reaches(crc, s0, s, drain, rules) && AheadNet(crc, s, n, hdr) && g in rules.toB
    ensures Reaches(crc, s0, s1, drain, rules) && FrameOut(s1, n + 1) && s1.b == s.b && hdr in s1.toB
    ensures n in s1.a.ackCh && next in s1.toB && ReadsAsGram(crc, s1.b.own, next, n + 1)
    ensures s1.a.sender == SendWindow.Step(SendWindow.Step(s.a.sender, SendWindow.Put(g), drain),
                                           SendWindow.Write(SendWindow.Complete), drain)
  {
    RingInvariant.FullExactly(s.a.sender.ring, n + 1);
    assert s.a.sender.buffer.Keys == {n} && |s.a.sender.buffer.Keys| == 1;
    s1 := ASends(crc, s0, s, n + 1, g, drain, rules);
    next := Encode(crc, s.a.peer, n + 1, 0, DATAGRAM as int, |g|, crc(g));
    EncodedReads(crc, s.b.own, s.a.peer, n + 1, 0, DATAGRAM, |g|, crc(g), n + 1);
  }

  lemma RoundAhead(crc: Crc, s0: Net, s: Net, n: u32, hdr: seq<byte>, g: seq<byte>, drain: Drain, rules: Rules)
    returns (s': Net, next: seq<byte>)
    requires NetOk(s0) && Reaches(crc, s0, s, drain, rules) && AheadNet(crc, s, n, hdr) && n + 1 < LAST
    requires g in rules.toB
    ensures Reaches(crc, s0, s', drain, rules) && AheadNet(crc, s', n + 1, next)
  {
    var snd1, snd2, snd3 := SenderWrap.AheadRound(s.a.sender, n, g, drain);
    var s1;
    s1, next := SendNext(crc, s0, s, n, hdr, g, drain, rules);
    var s2, ack := Acknowledge(crc, s0, s1, n, hdr, drain, rules);
    s' := Release(crc, s0, s2, n, ack, drain, rules);
  }

  /** Some fair run brings n out alone. */
  ghost predicate AheadAt(crc: Crc, s0: Net, n: u32, drain: Drain, rules: Rules)
    requires NetOk(s0)
  {
    exists s: Net, hdr: seq<byte> :: Reaches(crc, s0, s, drain, rules) && AheadNet(crc, s, n, hdr)
  }

  lemma FirstAhead(crc: Crc, s0: Net, g: seq<byte>, drain: Drain, rules: Rules)
    requires NetOk(s0) && Opened(crc, s0) && Paired(s0) && Roomy(s0, 2) && s0.a.sender.ring.window >= 2
    requires g in rules.toB
    ensures AheadAt(crc, s0, 1, drain, rules)
  {
    Start(crc, s0, drain, rules);
    var snd1, snd2 := SenderWrap.FirstOut(s0.a.sender, g, drain);
    var s, hdr := SendFrame(crc, s0, s0, 1, g, drain, rules);
    assert AheadNet(crc, s, 1, hdr);
  }

  lemma NextAhead(crc: Crc, s0: Net, n: u32, g: seq<byte>, drain: Drain, rules: Rules)
    requires NetOk(s0) && AheadAt(crc, s0, n, drain, rules) && n + 1 < LAST && g in rules.toB
    ensures AheadAt(crc, s0, n + 1, drain, rules)
  {
    var s, hdr :| Reaches(crc, s0, s, drain, rules) && AheadNet(crc, s, n, hdr);
    var s', next := RoundAhead(crc, s0, s, n, hdr, g, drain, rules);
  }

  /** Either version, one frame always out, so that the ring never drains. */
  lemma DriveAhead(crc: Crc, s0: Net, n: u32, g: seq<byte>, drain: Drain, rules: Rules)
    requires NetOk(s0) && AheadAt(crc, s0, 1, drain, rules) && g in rules.toB && 1 <= n < LAST
    ensures AheadAt(crc, s0, n, drain, rules)
  {
    var p := (k: u32) => AheadAt(crc, s0, k, drain, rules);
    EachNext(crc, s0, n, g, drain, rules);
    assert forall k: u32 :: 1 <= k < n && p(k) ==> p(k + 1);
    Climb(p, n);
  }

  lemma EachNext(crc: Crc, s0: Net, n: u32, g: seq<byte>, drain: Drain, rules: Rules)
    requires NetOk(s0) && g in rules.toB && n < LAST
    ensures forall k: u32 :: 1 <= k < n && AheadAt(crc, s0, k, drain, rules) ==> AheadAt(crc, s0, k + 1, drain, rules)
  {
    forall k: u32 | 1 <= k < n && AheadAt(crc, s0, k, drain, rules)
      ensures AheadAt(crc, s0, k + 1, drain, rules)
    {
      NextAhead(crc, s0, k, g, drain, rules);
    }
  }

  lemma {:induction false} Climb(p: u32 -> bool, n: u32)
    requires 1 <= n && p(1) && forall k: u32 :: 1 <= k < n && p(k) ==> p(k + 1)
    ensures p(n)
    decreases n
  {
    if n > 1 {
      Climb(p, n - 1);
    }
  }

  /** What it takes to reach every number: the code as written must keep two frames
      out to avoid a drain. */
  ghost predicate CanDrive(s: Net, drain: Drain) {
    || (drain == ClearOldest && Roomy(s, 1))
    || (Roomy(s, 2) && s.a.sender.ring.window >= 2 && s.b.sender.ring.window >= 2)
  }

  lemma DriveTo(crc: Crc, s0: Net, n: u32, g: seq<byte>, drain: Drain, rules: Rules) returns (s: Net)
    requires NetOk(s0) && Opened(crc, s0) && Paired(s0) && CanDrive(s0, drain) && g in rules.toB && InRange(n)
    ensures Reaches(crc, s0, s, drain, rules) && FrameOut(s, n)
  {
    if drain == ClearOldest && Roomy(s0, 1) {
      var idle := DriveIdle(crc, s0, n, g, rules);
      var hdr;
      s, hdr := SendFrame(crc, s0, idle, n, g, drain, rules);
    } else {
      FirstAhead(crc, s0, g, drain, rules);
      s := AheadOut(crc, s0, n, g, drain, rules);
    }
  }

  lemma AheadOut(crc: Crc, s0: Net, n: u32, g: seq<byte>, drain: Drain, rules: Rules) returns (s: Net)
    requires NetOk(s0) && AheadAt(crc, s0, 1, drain, rules) && g in rules.toB && InRange(n)
    ensures Reaches(crc, s0, s, drain, rules) && FrameOut(s, n)
  {
    var k: u32 := if n < LAST then n else n - 1;
    DriveAhead(crc, s0, k, g, drain, rules);
    var last, hdr :| Reaches(crc, s0, last, drain, rules) && AheadNet(crc, last, k, hdr);
    if n < LAST {
      s := last;
    } else {
      var next;
      s, next := SendNext(crc, s0, last, k, hdr, g, drain, rules);
    }
  }

  // ----- acknowledgements -----

  /** Any payload that passes for an acknowledgement of any number n lets A release
      frame n although B has not parsed it: bring A to n, lose its header, and have
      B send the payload. */
  lemma ForgedAckPops(crc: Crc, s0: Net, n: u32, f: seq<byte>, g: seq<byte>, drain: Drain, rules: Rules)
    returns (s': Net)
    requires NetOk(s0) && Opened(crc, s0) && Paired(s0) && CanDrive(s0, drain)
    requires f in rules.toA && g in rules.toB && InRange(n) && ReadsAsAck(crc, s0.a.own, f, n)
    ensures Reaches(crc, s0, s', drain, rules) && n in s'.a.popped && n !in s'.b.parsed
  {
    var s1 := DriveTo(crc, s0, n, g, drain, rules);
    var s2 := BSends(crc, s0, s1, f, drain, rules);
    ReachesKeepsOwn(crc, s0, s2, drain, rules);
    s' := Release(crc, s0, s2, n, f, drain, rules);
  }

  ghost predicate AckSafe(crc: Crc, s: Net, drain: Drain, rules: Rules)
    requires NetOk(s)
  {
    forall s' :: Reaches(crc, s, s', drain, rules) ==> s'.a.popped <= s'.b.parsed && s'.b.popped <= s'.a.parsed
  }

  lemma SwapReaches(crc: Crc, s: Net, s': Net, drain: Drain, rules: Rules)
    requires NetOk(s) && Reaches(crc, SwapNet(s), s', drain, SwapRules(rules))
    ensures Reaches(crc, s, SwapNet(s'), drain, rules)
  {
    var ms :| FairRun(crc, SwapNet(s), ms, drain, SwapRules(rules)) && Run(crc, SwapNet(s), ms, drain) == s';
    SwapRun(crc, SwapNet(s), ms, drain, SwapRules(rules));
    assert SwapNet(SwapNet(s)) == s && SwapRules(SwapRules(rules)) == rules;
    assert FairRun(crc, s, SwapAll(ms), drain, rules);
  }

  /** Between two sides that agree on their numbers and both send, either version
      releases only what was parsed, over every fair run, if and only if neither
      side's users may send a payload that the other reads as an acknowledgement of
      a number some frame can have. */
  lemma AckSafeExactly(crc: Crc, s: Net, drain: Drain, rules: Rules, f: seq<byte>, g: seq<byte>)
    requires NetOk(s) && Opened(crc, s) && Paired(s) && CanDrive(s, drain)
    requires f in rules.toA && g in rules.toB
    ensures AckSafe(crc, s, drain, rules) <==>
            NoForgedAcks(crc, s.a.own, rules.toA) && NoForgedAcks(crc, s.b.own, rules.toB)
  {
    if NoForgedAcks(crc, s.a.own, rules.toA) && NoForgedAcks(crc, s.b.own, rules.toB) {
      forall s' | Reaches(crc, s, s', drain, rules)
        ensures s'.a.popped <= s'.b.parsed && s'.b.popped <= s'.a.parsed
      {
        var ms :| FairRun(crc, s, ms, drain, rules) && Run(crc, s, ms, drain) == s';
        PoppedWasParsed(crc, s, ms, drain, rules);
      }
    }
    if !NoForgedAcks(crc, s.a.own, rules.toA) {
      var d, n :| d in rules.toA && InRange(n) && ReadsAsAck(crc, s.a.own, d, n);
      var s' := ForgedAckPops(crc, s, n, d, g, drain, rules);
    } else if !NoForgedAcks(crc, s.b.own, rules.toB) {
      var d, n :| d in rules.toB && InRange(n) && ReadsAsAck(crc, s.b.own, d, n);
      var s' := ForgedAckPops(crc, SwapNet(s), n, d, f, drain, SwapRules(rules));
      SwapReaches(crc, s, s', drain, rules);
    }
  }

  // ----- frames -----

  /** A sends payload f under a number that is not m: 1, or 2 after a first write
      that failed. */
  lemma SendUnder(crc: Crc, s0: Net, m: u32, f: seq<byte>, drain: Drain, rules: Rules) returns (s': Net)
    requires NetOk(s0) && Opened(crc, s0) && Roomy(s0, 2) && f in rules.toB
    ensures Reaches(crc, s0, s', drain, rules) && f in s'.toB && m !in s'.a.headed && s'.b == s0.b
  {
    Start(crc, s0, drain, rules);
    if m != 1 {
      s' := ASends(crc, s0, s0, 1, f, drain, rules);
    } else {
      var s1 := FailFirst(crc, s0, f, drain, rules);
      s' := ASends(crc, s0, s1, 2, f, drain, rules);
    }
  }

  /** A's first frame fails before its header is out, and number 1 is given up. */
  lemma FailFirst(crc: Crc, s0: Net, f: seq<byte>, drain: Drain, rules: Rules) returns (s2: Net)
    requires NetOk(s0) && Opened(crc, s0) && Roomy(s0, 2) && f in rules.toB
    ensures NetOk(s2) && Reaches(crc, s0, s2, drain, rules) && s2.b == s0.b && s2.a.headed == {}
    ensures s2.a.sender.queue == [] && |s2.a.sender.buffer| != s2.a.sender.maxsize
    ensures NextSeqNum(s2.a.sender.ring).1 == Next(2)
  {
    Start(crc, s0, drain, rules);
    var s1 := Move1(crc, s0, s0, Local(A, Action.Put(f)), drain, rules);
    assert s1.a.sender.queue == [SendWindow.Pending(1, f)] && s1.a.sender.buffer == map[1 := []];
    s2 := Move1(crc, s0, s1, Local(A, Action.Write(SendWindow.NoHeader)), drain, rules);
  }

  lemma ForgedGramParses(crc: Crc, s0: Net, n: u32, f: seq<byte>, drain: Drain, rules: Rules) returns (s': Net)
    requires NetOk(s0) && Opened(crc, s0) && Roomy(s0, 2)
    requires f in rules.toB && ReadsAsGram(crc, s0.b.own, f, n)
    ensures Reaches(crc, s0, s', drain, rules) && n in s'.b.parsed && n !in s'.a.headed
  {
    var s := SendUnder(crc, s0, n, f, drain, rules);
    ReachesKeepsOwn(crc, s0, s, drain, rules);
    s' := Move1(crc, s0, s, Deliver(B, f), drain, rules);
  }

  ghost predicate GramSafe(crc: Crc, s: Net, drain: Drain, rules: Rules)
    requires NetOk(s)
  {
    forall s' :: Reaches(crc, s, s', drain, rules) ==> s'.b.parsed <= s'.a.headed && s'.a.parsed <= s'.b.headed
  }

  /** In either version each side parses only numbers the other has written into a
      header, over every fair run, if and only if neither side's users may send a
      payload that the other reads as a frame's header. */
  lemma GramSafeExactly(crc: Crc, s: Net, drain: Drain, rules: Rules)
    requires NetOk(s) && Opened(crc, s) && Roomy(s, 2)
    ensures GramSafe(crc, s, drain, rules) <==>
            NoForgedGrams(crc, s.b.own, rules.toB) && NoForgedGrams(crc, s.a.own, rules.toA)
  {
    if NoForgedGrams(crc, s.b.own, rules.toB) && NoForgedGrams(crc, s.a.own, rules.toA) {
      forall s' | Reaches(crc, s, s', drain, rules)
        ensures s'.b.parsed <= s'.a.headed && s'.a.parsed <= s'.b.headed
      {
        var ms :| FairRun(crc, s, ms, drain, rules) && Run(crc, s, ms, drain) == s';
        ParsedWasHeaded(crc, s, ms, drain, rules);
      }
    }
    if !NoForgedGrams(crc, s.b.own, rules.toB) {
      var d, n :| d in rules.toB && ReadsAsGram(crc, s.b.own, d, n);
      var s' := ForgedGramParses(crc, s, n, d, drain, rules);
    } else if !NoForgedGrams(crc, s.a.own, rules.toA) {
      var d, n :| d in rules.toA && ReadsAsGram(crc, s.a.own, d, n);
      var s' := ForgedGramParses(crc, SwapNet(s), n, d, drain, SwapRules(rules));
      SwapReaches(crc, s, s', drain, rules);
    }
  }

  // ----- crossing frames -----

  /** Nothing acknowledges a frame of e's, and e has one buffered. */
  ghost predicate NoAckFor(crc: Crc, e: Endpoint, p: Endpoint, toE: set<seq<byte>>) {
    && e.own != 0 && WellFormed(e.sender.ring) && WellFormed(p.sender.ring)
    && QueueNumbered(e.sender) && QueueNumbered(p.sender)
    && e.sender.buffer != map[] && e.signalled == {}
    && (forall n :: n in e.acks ==> !InRange(n)) && (forall n :: n in e.ackCh ==> InRange(n))
    && (forall d :: d in toE ==> !ForgesAck(crc, e.own, d))
    && (forall i :: 0 <= i < |p.sender.queue| ==> !ForgesAck(crc, e.own, p.sender.queue[i].frame))
  }

  ghost predicate Crossed(crc: Crc, s: Net) {
    NoAckFor(crc, s.a, s.b, s.toA) && NoAckFor(crc, s.b, s.a, s.toB)
  }

  lemma CrossedOwnActs(crc: Crc, e: Endpoint, p: Endpoint, toE: set<seq<byte>>, act: Action, drain: Drain)
    requires NoAckFor(crc, e, p, toE)
    ensures var e' := Act(crc, e, act, drain).0;
            NoAckFor(crc, e', p, toE) && e'.popped == e.popped
  {
    QueueFrom(crc, e, act, drain);
    if act.Put? {
      var n := e.sender.ring.seqNum;
      assert n in e.sender.buffer[n := []];
    }
  }

  /** A side with a frame of its own buffered acknowledges nothing. */
  lemma CrossedPeerActs(crc: Crc, e: Endpoint, p: Endpoint, toE: set<seq<byte>>, act: Action, drain: Drain)
    requires NoAckFor(crc, e, p, toE) && p.sender.buffer != map[]
    requires act.Put? ==> !ForgesAck(crc, e.own, act.frame)
    ensures var (p', out) := Act(crc, p, act, drain);
            NoAckFor(crc, e, p', toE + Datagrams(out))
  {
    var (p', out) := Act(crc, p, act, drain);
    QueueFrom(crc, p, act, drain);
    forall d | d in out
      ensures !ForgesAck(crc, e.own, d)
    {
      if !NextPayload(p, d) {
        forall n: u32
          ensures !ReadsAsAck(crc, e.own, d, n)
        {
          OutReads(crc, p, e.own, act, drain, d, n);
        }
      }
    }
  }

  lemma CrossedReceives(crc: Crc, e: Endpoint, p: Endpoint, toE: set<seq<byte>>, d: seq<byte>)
    requires NoAckFor(crc, e, p, toE)
    ensures d in toE ==> NoAckFor(crc, Receive(crc, e, d), p, toE)
    ensures NoAckFor(crc, e, Receive(crc, p, d), toE)
  {
    var parse := Parse(crc, e.own, d);
    if parse.Frame? && FlagOf(parse) == DATA_ACK {
      assert ReadsAsAck(crc, e.own, d, AckOf(parse.numbers));
    }
  }

  lemma CrossedStep(crc: Crc, s: Net, m: Move, drain: Drain, rules: Rules)
    requires NetOk(s) && Crossed(crc, s) && Fair(s, m, rules)
    requires NoForgedAcks(crc, s.a.own, rules.toA) && NoForgedAcks(crc, s.b.own, rules.toB)
    ensures var s' := Step(crc, s, m, drain);
            Crossed(crc, s') && s'.a.popped == s.a.popped && s'.b.popped == s.b.popped
  {
    match m
    case Local(A, act) =>
      CrossedOwnActs(crc, s.a, s.b, s.toA, act, drain);
      CrossedPeerActs(crc, s.b, s.a, s.toB, act, drain);
    case Local(B, act) =>
      CrossedOwnActs(crc, s.b, s.a, s.toB, act, drain);
      CrossedPeerActs(crc, s.a, s.b, s.toA, act, drain);
    case Deliver(A, d) =>
      CrossedReceives(crc, s.a, s.b, s.toA, d);
      CrossedReceives(crc, s.b, s.a, s.toB, d);
    case Deliver(B, d) =>
      CrossedReceives(crc, s.b, s.a, s.toB, d);
      CrossedReceives(crc, s.a, s.b, s.toA, d);
    case Stray(A, d) => StrayForgesNothing(crc, s.a.own, d);
    case Stray(B, d) => StrayForgesNothing(crc, s.b.own, d);
  }

  /** Once both sides have a frame buffered and no acknowledgement is on its way,
      nobody releases anything ever again, over every fair run. */
  lemma {:induction false} CrossedNeverPops(crc: Crc, s: Net, ms: seq<Move>, drain: Drain, rules: Rules)
    requires NetOk(s) && Crossed(crc, s) && FairRun(crc, s, ms, drain, rules)
    requires NoForgedAcks(crc, s.a.own, rules.toA) && NoForgedAcks(crc, s.b.own, rules.toB)
    ensures var s' := Run(crc, s, ms, drain);
            Crossed(crc, s') && s'.a.popped == s.a.popped && s'.b.popped == s.b.popped
    decreases |ms|
  {
    if ms != [] {
      CrossedStep(crc, s, ms[0], drain, rules);
      CrossedNeverPops(crc, Step(crc, s, ms[0], drain), ms[1..], drain, rules);
    }
  }

  /** So two sides that each put a first frame before the other's has arrived wait
      for each other for ever, whatever they and the network then do. */
  lemma CrossingFramesStarve(crc: Crc, s: Net, f: seq<byte>, g: seq<byte>, ms: seq<Move>, drain: Drain, rules: Rules)
    requires NetOk(s) && Opened(crc, s) && Roomy(s, 1) && f in rules.toB && g in rules.toA
    requires NoForgedAcks(crc, s.a.own, rules.toA) && NoForgedAcks(crc, s.b.own, rules.toB)
    requires FairRun(crc, s, [Local(A, Action.Put(f)), Local(B, Action.Put(g))] + ms, drain, rules)
    ensures var s' := Run(crc, s, [Local(A, Action.Put(f)), Local(B, Action.Put(g))] + ms, drain);
            s'.a.popped == s'.b.popped == {}
  {
    var all := [Local(A, Action.Put(f)), Local(B, Action.Put(g))] + ms;
    var s1 := Step(crc, s, all[0], drain);
    var s2 := Step(crc, s1, all[1], drain);
    assert all[1..][1..] == ms && all[1..][0] == all[1];
    assert 1 in s2.a.sender.buffer && 1 in s2.b.sender.buffer;
    CrossedNeverPops(crc, s2, ms, drain, rules);
  }

  // ----- exactly when crossing frames starve both sides -----

  predicate AllPuts(ms: seq<Move>) {
    forall i :: 0 <= i < |ms| ==> ms[i].Local? && ms[i].act.Put?
  }

  /** A side that has done nothing but put frames. */
  ghost predicate OnlyPut(e: Endpoint) {
    && WellFormed(e.sender.ring) && e.sender.ring.items == [] && e.sender.ring.oldest == None
    && QueueNumbered(e.sender)
    && e.sender.waiting == {} && e.acks == {} && e.ackCh == {} && e.signalled == {} && e.popped == {}
    && (if e.sender.buffer == map[] then e.sender.queue == [] && e.sender.ring.seqNum == 1
        else e.sender.queue != [] && e.sender.queue[0].seqNum == 1)
  }

  /** Nothing that could forge an acknowledgement is queued by p or on its way to e. */
  ghost predicate Clean(crc: Crc, e: Endpoint, p: Endpoint, toE: set<seq<byte>>) {
    && e.own != 0
    && (forall d :: d in toE ==> !ForgesAck(crc, e.own, d))
    && (forall i :: 0 <= i < |p.sender.queue| ==> !ForgesAck(crc, e.own, p.sender.queue[i].frame))
  }

  ghost predicate PutNet(crc: Crc, s: Net) {
    && OnlyPut(s.a) && OnlyPut(s.b) && Paired(s) && Roomy(s, 1)
    && Clean(crc, s.a, s.b, s.toA) && Clean(crc, s.b, s.a, s.toB)
  }

  lemma OnlyPutKeeps(crc: Crc, e: Endpoint, f: seq<byte>, drain: Drain)
    requires OnlyPut(e)
    ensures var (e', out) := Act(crc, e, Action.Put(f), drain);
            OnlyPut(e') && out == [] && e'.sender.maxsize == e.sender.maxsize
  {
    QueueFrom(crc, e, Action.Put(f), drain);
    var n := e.sender.ring.seqNum;
    assert n in e.sender.buffer[n := []];
  }

  lemma PutNetStep(crc: Crc, s: Net, m: Move, drain: Drain, rules: Rules)
    requires PutNet(crc, s) && Fair(s, m, rules) && m.Local? && m.act.Put?
    requires NoForgedAcks(crc, s.a.own, rules.toA) && NoForgedAcks(crc, s.b.own, rules.toB)
    ensures PutNet(crc, Step(crc, s, m, drain))
  {
    if m.side == A {
      OnlyPutKeeps(crc, s.a, m.act.frame, drain);
      QueueFrom(crc, s.a, m.act, drain);
    } else {
      OnlyPutKeeps(crc, s.b, m.act.frame, drain);
      QueueFrom(crc, s.b, m.act, drain);
    }
  }

  lemma {:induction false} PutNetRun(crc: Crc, s: Net, ms: seq<Move>, drain: Drain, rules: Rules)
    requires NetOk(s) && PutNet(crc, s) && AllPuts(ms) && FairRun(crc, s, ms, drain, rules)
    requires NoForgedAcks(crc, s.a.own, rules.toA) && NoForgedAcks(crc, s.b.own, rules.toB)
    ensures PutNet(crc, Run(crc, s, ms, drain))
    decreases |ms|
  {
    if ms != [] {
      PutNetStep(crc, s, ms[0], drain, rules);
      PutNetRun(crc, Step(crc, s, ms[0], drain), ms[1..], drain, rules);
    }
  }

  /** A's frame 1, put already, is written. */
  lemma WriteFirst(crc: Crc, s0: Net, s: Net, drain: Drain, rules: Rules) returns (s1: Net, hdr: seq<byte>)
    requires NetOk(s0) && NetOk(s) && Reaches(crc, s0, s, drain, rules) && Paired(s)
    requires OnlyPut(s.a) && s.a.sender.buffer != map[]
    ensures NetOk(s1) && Reaches(crc, s0, s1, drain, rules) && Paired(s1) && s1.b == s.b
    ensures 1 in s1.a.sender.waiting && 1 in s1.a.ackCh
    ensures hdr in s1.toB && ReadsAsGram(crc, s1.b.own, hdr, 1)
  {
    var p := s.a.sender.queue[0];
    s1 := Move1(crc, s0, s, Local(A, Action.Write(SendWindow.Complete)), drain, rules);
    hdr := Encode(crc, s.a.peer, 1, 0, DATAGRAM as int, |p.frame|, crc(p.frame));
    assert hdr in [hdr, p.frame];
    EncodedReads(crc, s.b.own, s.a.peer, 1, 0, DATAGRAM, |p.frame|, crc(p.frame), 1);
  }

  /** While B has nothing buffered, A can have a frame released. */
  lemma FirstReleases(crc: Crc, s: Net, g: seq<byte>, drain: Drain, rules: Rules) returns (s': Net)
    requires NetOk(s) && PutNet(crc, s) && g in rules.toB && s.b.sender.buffer == map[]
    ensures Reaches(crc, s, s', drain, rules) && 1 in s'.a.popped
  {
    Start(crc, s, drain, rules);
    var s1 := s;
    if s.a.sender.buffer == map[] {
      OnlyPutKeeps(crc, s.a, g, drain);
      s1 := Move1(crc, s, s, Local(A, Action.Put(g)), drain, rules);
      assert 1 in s1.a.sender.buffer;
    }
    var s2, hdr := WriteFirst(crc, s, s1, drain, rules);
    var s3, ack := Acknowledge(crc, s, s2, 1, hdr, drain, rules);
    s' := Release(crc, s, s3, 1, ack, drain, rules);
  }

  /** Whatever frames the two sides of an opened session have put, some fair
      continuation releases one if and only if not both have one buffered. */
  lemma CrossingExactly(crc: Crc, s: Net, ps: seq<Move>, drain: Drain, rules: Rules, f: seq<byte>, g: seq<byte>)
    requires NetOk(s) && Opened(crc, s) && Paired(s) && Roomy(s, 1) && f in rules.toA && g in rules.toB
    requires NoForgedAcks(crc, s.a.own, rules.toA) && NoForgedAcks(crc, s.b.own, rules.toB)
    requires AllPuts(ps) && FairRun(crc, s, ps, drain, rules)
    ensures var s1 := Run(crc, s, ps, drain);
            (exists s' :: Reaches(crc, s1, s', drain, rules) && (s'.a.popped != {} || s'.b.popped != {}))
            <==> s1.a.sender.buffer == map[] || s1.b.sender.buffer == map[]
  {
    PutNetRun(crc, s, ps, drain, rules);
    var s1 := Run(crc, s, ps, drain);
    if s1.b.sender.buffer == map[] {
      var s' := FirstReleases(crc, s1, g, drain, rules);
    } else if s1.a.sender.buffer == map[] {
      var s' := FirstReleases(crc, SwapNet(s1), f, drain, SwapRules(rules));
      SwapReaches(crc, s1, s', drain, rules);
      assert SwapNet(s').b.popped == s'.a.popped;
    } else {
      NoneReleased(crc, s1, drain, rules);
    }
  }

  lemma NoneReleased(crc: Crc, s: Net, drain: Drain, rules: Rules)
    requires NetOk(s) && PutNet(crc, s) && s.a.sender.buffer != map[] && s.b.sender.buffer != map[]
    requires NoForgedAcks(crc, s.a.own, rules.toA) && NoForgedAcks(crc, s.b.own, rules.toB)
    ensures forall s' :: Reaches(crc, s, s', drain, rules) ==> s'.a.popped == s'.b.popped == {}
  {
    forall s' | Reaches(crc, s, s', drain, rules)
      ensures s'.a.popped == s'.b.popped == {}
    {
      var ms :| FairRun(crc, s, ms, drain, rules) && Run(crc, s, ms, drain) == s';
      CrossedNeverPops(crc, s, ms, drain, rules);
    }
  }

  // ----- what an acknowledgement does not say -----

  lemma Cons(crc: Crc, s: Net, m: Move, ms: seq<Move>, drain: Drain)
    requires NetOk(s)
    ensures Run(crc, s, [m] + ms, drain) == Run(crc, Step(crc, s, m, drain), ms, drain)
  {
    assert ([m] + ms)[1..] == ms;
  }

  lemma RunFour(crc: Crc, s: Net, a: Move, b: Move, c: Move, d: Move, ms: seq<Move>, drain: Drain)
    requires NetOk(s)
    ensures Run(crc, s, [a, b, c, d] + ms, drain)
            == Run(crc, Step(crc, Step(crc, Step(crc, Step(crc, s, a, drain), b, drain), c, drain), d, drain),
                   ms, drain)
  {
    var s1 := Step(crc, s, a, drain);
    var s2 := Step(crc, s1, b, drain);
    var s3 := Step(crc, s2, c, drain);
    Cons(crc, s3, d, ms, drain);
    Cons(crc, s2, c, [d] + ms, drain);
    Cons(crc, s1, b, [c] + ([d] + ms), drain);
    Cons(crc, s, a, [b] + ([c] + ([d] + ms)), drain);
    assert [a, b, c, d] + ms == [a] + ([b] + ([c] + ([d] + ms)));
  }

  lemma RunThree(crc: Crc, s: Net, a: Move, b: Move, c: Move, drain: Drain)
    requires NetOk(s)
    ensures Run(crc, s, [a, b, c], drain) == Step(crc, Step(crc, Step(crc, s, a, drain), b, drain), c, drain)
  {
    var s1 := Step(crc, s, a, drain);
    var s2 := Step(crc, s1, b, drain);
    Cons(crc, s2, c, [], drain);
    Cons(crc, s1, b, [c], drain);
    Cons(crc, s, a, [b, c], drain);
    assert [c] + [] == [c] && [b] + [c] == [b, c] && [a] + [b, c] == [a, b, c];
  }

  /** Frame 1 of A's sent, acknowledged and released, step by step. */
  lemma FirstFrame(crc: Crc, s: Net, g: seq<byte>, drain: Drain, rules: Rules)
    returns (s2: Net, s4: Net, s7: Net, hdr: seq<byte>, ack: seq<byte>)
    requires NetOk(s) && Opened(crc, s) && Paired(s) && Roomy(s, 1) && g in rules.toB
    ensures NetOk(s2) && NetOk(s4)
    ensures s2 == Step(crc, Step(crc, s, Local(A, Action.Put(g)), drain),
                       Local(A, Action.Write(SendWindow.Complete)), drain)
    ensures s4 == Step(crc, Step(crc, s2, Deliver(B, hdr), drain), Local(B, HandleGram(1)), drain)
    ensures s7 == Step(crc, Step(crc, Step(crc, s4, Deliver(A, ack), drain), Local(A, HandleAck(1)), drain),
                       Local(A, Action.Fire(1)), drain)
    ensures |hdr| == SIZE && ReadsAsGram(crc, s.b.own, hdr, 1) && 1 in s7.a.popped
  {
    Start(crc, s, drain, rules);
    s2, hdr := SendFrame(crc, s, s, 1, g, drain, rules);
    s4, ack := Acknowledge(crc, s, s2, 1, hdr, drain, rules);
    s7 := Release(crc, s, s4, 1, ack, drain, rules);
  }

  function FirstFrameMoves(g: seq<byte>, hdr: seq<byte>): seq<Move> {
    [Local(A, Action.Put(g)), Local(A, Action.Write(SendWindow.Complete)), Deliver(B, hdr), Local(B, HandleGram(1))]
  }

  function ReleaseMoves(ack: seq<byte>): seq<Move> {
    [Deliver(A, ack), Local(A, HandleAck(1)), Local(A, Action.Fire(1))]
  }

  /** A frame is acknowledged when its header is parsed: it can be released though
      nothing but its header has ever been delivered. */
  lemma ReleasedUnread(crc: Crc, s: Net, g: seq<byte>, drain: Drain, rules: Rules)
    returns (hdr: seq<byte>, ack: seq<byte>)
    requires NetOk(s) && Opened(crc, s) && Paired(s) && Roomy(s, 1) && g in rules.toB
    ensures |hdr| == SIZE && ReadsAsGram(crc, s.b.own, hdr, 1)
    ensures 1 in Run(crc, s, FirstFrameMoves(g, hdr) + ReleaseMoves(ack), drain).a.popped
  {
    var s2, s4, s7;
    s2, s4, s7, hdr, ack := FirstFrame(crc, s, g, drain, rules);
    RunFour(crc, s, Local(A, Action.Put(g)), Local(A, Action.Write(SendWindow.Complete)), Deliver(B, hdr),
            Local(B, HandleGram(1)), ReleaseMoves(ack), drain);
    RunThree(crc, s4, Deliver(A, ack), Local(A, HandleAck(1)), Local(A, Action.Fire(1)), drain);
  }

  // ----- a leaked entry silences a side -----

  ghost predicate NeverWraps(crc: Crc, s: Net, ms: seq<Move>, drain: Drain)
    requires NetOk(s)
    decreases |ms|
  {
    ms == [] ||
    ((ms[0].Local? && ms[0].side == B && ms[0].act.Put? ==>
        !SendWindow.Wraps(s.b.sender, SendWindow.Put(ms[0].act.frame)))
     && NeverWraps(crc, Step(crc, s, ms[0], drain), ms[1..], drain))
  }

  lemma LeakActs(crc: Crc, e: Endpoint, act: Action, n: u32, drain: Drain)
    requires Starvation.Ordered(e.sender) && Starvation.Leaked(e.sender, n)
    requires act.Put? ==> !SendWindow.Wraps(e.sender, SendWindow.Put(act.frame))
    ensures var e' := Act(crc, e, act, drain).0; Starvation.Ordered(e'.sender) && Starvation.Leaked(e'.sender, n)
  {
    match act
    case Put(f) => LeakEvent(e.sender, SendWindow.Put(f), n, drain);
    case Write(outcome) => LeakEvent(e.sender, SendWindow.Write(outcome), n, drain);
    case Fire(m) => LeakEvent(e.sender, SendWindow.Fire(m), n, drain);
    case Timeout(m) => LeakEvent(e.sender, SendWindow.Event.Timeout(m), n, drain);
    case _ =>
  }

  lemma LeakEvent(s: SendWindow.Sender, ev: SendWindow.Event, n: u32, drain: Drain)
    requires Starvation.Ordered(s) && Starvation.Leaked(s, n) && !SendWindow.Wraps(s, ev)
    ensures Starvation.Ordered(SendWindow.Step(s, ev, drain)) && Starvation.Leaked(SendWindow.Step(s, ev, drain), n)
  {
    Starvation.OrderedStep(s, ev, drain);
    Starvation.LeakExactly(s, ev, n, drain);
  }

  /** One leaked entry of B's keeps it from acknowledging anything, over every run
      before the wrap of its numbers, in either version. */
  lemma {:induction false} LeakSilences(crc: Crc, s: Net, ms: seq<Move>, n: u32, k: u32, drain: Drain)
    requires NetOk(s) && Starvation.Ordered(s.b.sender) && Starvation.Leaked(s.b.sender, n)
    requires NeverWraps(crc, s, ms, drain)
    ensures var s' := Run(crc, s, ms, drain);
            Starvation.Leaked(s'.b.sender, n) && Act(crc, s'.b, HandleGram(k), drain).1 == []
    decreases |ms|
  {
    if ms != [] {
      if ms[0].Local? && ms[0].side == B {
        LeakActs(crc, s.b, ms[0].act, n, drain);
      }
      LeakSilences(crc, Step(crc, s, ms[0], drain), ms[1..], n, k, drain);
    }
  }
}
