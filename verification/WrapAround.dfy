/** The number generator over its whole period, and what its wrap does to the
    ring when every number is installed as soon as it is handed out. */
module WrapAround {
  import opened Words
  import opened RingSpec
  import opened RingInvariant
  import Residues

  // ----- the generator -----

  /** The number generator after k calls from its initial state. */
  function Nth(k: nat): (n: u32)
    ensures 1 <= n <= LAST
  {
    if k == 0 then 1 else Succ(Nth(k - 1))
  }

  /** The k-th number handed out is 1 + k mod (2^32 - 2): the overflow error is
      out of reach, and before the wrap number k + 1 is the k-th. */
  lemma {:induction false} NthNumber(k: nat)
    ensures Nth(k) == 1 + k % (LAST as int)
  {
    if k > 0 {
      NthNumber(k - 1);
    }
  }

  // ----- runs in which a number is installed when it is handed out -----

  datatype Op = Send | Ack(n: u32)

  function SendOne(r: Ring): (r': Ring)
    requires WellFormed(r)
    ensures WellFormed(r')
  {
    var (r1, res) := NextSeqNum(r);
    if res.Next? then SetNextItem(r1, res.seqNum) else r1
  }

  function Step(r: Ring, op: Op, drain: Drain): (r': Ring)
    requires WellFormed(r)
    ensures WellFormed(r')
  {
    match op
    case Send => SendOne(r)
    case Ack(n) => UpdateAck(r, n, drain).0
  }

  function Run(r: Ring, ops: seq<Op>, drain: Drain): (r': Ring)
    requires WellFormed(r)
    ensures WellFormed(r')
    decreases |ops|
  {
    if ops == [] then r else Run(Step(r, ops[0], drain), ops[1..], drain)
  }

  /** The next send installs its number over a live item. */
  predicate Overwrites(r: Ring)
    requires WellFormed(r)
  {
    var res := NextSeqNum(r).1;
    res.Next? && LiveSlot(r, Modulus(r, res.seqNum))
  }

  /** No run at all, however long, overwrites a live item. */
  ghost predicate SafeForever(window: u16, drain: Drain)
    requires window > 0
  {
    forall ops: seq<Op> :: !Overwrites(Run(InitRing(window), ops, drain))
  }

  lemma {:induction false} RunAppend(r: Ring, ops: seq<Op>, more: seq<Op>, drain: Drain)
    requires WellFormed(r)
    ensures Run(r, ops + more, drain) == Run(Run(r, ops, drain), more, drain)
    decreases |ops|
  {
    if ops == [] {
      assert ops + more == more;
    } else {
      assert (ops + more)[1..] == ops[1..] + more;
      RunAppend(Step(r, ops[0], drain), ops[1..], more, drain);
    }
  }

  // ----- windows of one and two survive -----

  /** A window of one: with no oldest pointer nothing is live; with one, stranded
      or not, the window reads full. */
  ghost predicate OneInv(r: Ring) {
    WellFormed(r) && r.window == 1 && (r.oldest.None? ==> !LiveSlot(r, 0))
  }

  lemma OneStep(r: Ring, op: Op, drain: Drain)
    requires OneInv(r)
    ensures OneInv(Step(r, op, drain)) && !Overwrites(r)
  {
    match op
    case Send =>
    case Ack(n) =>
      assert Modulus(r, n) == 0;
      if r.slots[0].Some? && ItemAt(r, 0).seqNum == n {
        var r1 := ResetItem(r, r.slots[0].value);
        assert Scan(r1, 0, 2) == None;
        assert SlotAfter(0, 1, 1) == 0;
      }
  }

  lemma {:induction false} OneRun(r: Ring, ops: seq<Op>, drain: Drain)
    requires OneInv(r)
    ensures OneInv(Run(r, ops, drain))
    decreases |ops|
  {
    if ops != [] {
      OneStep(r, ops[0], drain);
      OneRun(Step(r, ops[0], drain), ops[1..], drain);
    }
  }

  /** The slot of x in a ring of two; consecutive numbers alternate, also across
      the wrap, because the period is even. */
  function Side(x: u32): (k: nat)
    requires 1 <= x <= LAST
    ensures k < 2 && k == Sub32(x, 1) % 2
    ensures x < LAST ==> (x + 1 - 1) % 2 == 1 - k
  {
    (x - 1) % 2
  }

  /** A window of two: nothing live; or the oldest live number x is the last
      handed out, alone; or it is the last but one, and the last may be live; or,
      as written, the oldest pointer is stranded. */
  ghost predicate TwoInv(r: Ring) {
    && WellFormed(r) && r.window == 2 && 1 <= r.seqNum <= LAST
    && match r.oldest
       case None => !LiveSlot(r, 0) && !LiveSlot(r, 1)
       case Some(i) => TwoOldest(r, i, r.items[i].seqNum) || TwoStranded(r, i)
  }

  ghost predicate TwoOldest(r: Ring, i: nat, x: u32)
    requires WellFormed(r) && r.window == 2 && i < |r.items|
  {
    && 1 <= x <= LAST && !r.items[i].acked && r.slots[Side(x)] == Some(i)
    && (r.seqNum == Succ(x) || r.seqNum == Succ(Succ(x)))
    && (LiveSlot(r, 1 - Side(x)) ==> ItemAt(r, 1 - Side(x)).seqNum == Succ(x) && r.seqNum == Succ(Succ(x)))
  }

  /** The window reads full at even numbers only: at an odd one nothing is live, and
      at an even one at most the number just sent. */
  ghost predicate TwoStranded(r: Ring, i: nat)
    requires WellFormed(r) && r.window == 2 && i < |r.items| && 1 <= r.seqNum <= LAST
  {
    && r.items[i] == Item(0, true)
    && (forall k :: 0 <= k < 2 && LiveSlot(r, k) ==>
          r.seqNum % 2 == 0 && ItemAt(r, k).seqNum == r.seqNum - 1 && k == 0)
  }

  lemma TwoSend(r: Ring)
    requires TwoInv(r)
    ensures TwoInv(SendOne(r)) && !Overwrites(r)
  {
    var n := r.seqNum;
    assert Modulus(r, n) == Side(n);
    if r.oldest.Some? {
      var x := r.items[r.oldest.value].seqNum;
      if TwoStranded(r, r.oldest.value) {
        TwoSendStranded(r);
      } else {
        assert WindowFull(r) <==> n == Succ(Succ(x));
        if n == Succ(x) {
          assert Side(n) == 1 - Side(x);
        }
      }
    }
  }

  lemma TwoSendStranded(r: Ring)
    requires TwoInv(r) && r.oldest.Some? && TwoStranded(r, r.oldest.value)
    ensures TwoInv(SendOne(r)) && !Overwrites(r)
  {
    var n := r.seqNum;
    assert Sub32(n, 0) == n && WindowFull(r) == (n % 2 == 0);
    if n % 2 == 1 {
      var r' := SendOne(r);
      assert Side(n) == 0 && Modulus(r, n) == 0;
      assert r'.seqNum == n + 1 && r'.seqNum % 2 == 0 && r'.slots[1] == r.slots[1];
      assert !LiveSlot(r, 1) && !LiveSlot(r', 1);
      assert TwoStranded(r', r'.oldest.value);
    }
  }

  lemma TwoAck(r: Ring, n: u32, drain: Drain)
    requires TwoInv(r)
    ensures TwoInv(UpdateAck(r, n, drain).0)
  {
    var j := Modulus(r, n);
    if r.slots[j].None? || ItemAt(r, j).seqNum != n { return; }
    var r1 := ResetItem(r, r.slots[j].value);
    TwoScan(r1, j);
    if r.oldest.Some? {
      if TwoStranded(r, r.oldest.value) {
        TwoAckStranded(r, n, drain);
      } else {
        TwoAckOldest(r, n, drain);
      }
    }
  }

  lemma TwoAckStranded(r: Ring, n: u32, drain: Drain)
    requires TwoInv(r) && r.oldest.Some? && TwoStranded(r, r.oldest.value)
    requires r.slots[Modulus(r, n)].Some? && ItemAt(r, Modulus(r, n)).seqNum == n
    ensures TwoInv(UpdateAck(r, n, drain).0)
  {
    var j := Modulus(r, n);
    var r1 := ResetItem(r, r.slots[j].value);
    TwoScan(r1, j);
    assert forall k :: 0 <= k < 2 && LiveSlot(r1, k) ==> LiveSlot(r, k) && ItemAt(r1, k) == ItemAt(r, k);
    if LiveSlot(r1, 0) {
      assert Side(r.seqNum - 1) == 0;
      assert !LiveSlot(r1, 1);
    }
  }

  lemma TwoAckOldest(r: Ring, n: u32, drain: Drain)
    requires TwoInv(r) && r.oldest.Some? && TwoOldest(r, r.oldest.value, r.items[r.oldest.value].seqNum)
    requires r.slots[Modulus(r, n)].Some? && ItemAt(r, Modulus(r, n)).seqNum == n
    ensures TwoInv(UpdateAck(r, n, drain).0)
  {
    var j := Modulus(r, n);
    var r1 := ResetItem(r, r.slots[j].value);
    TwoScan(r1, j);
    if r.oldest == r.slots[j] {
      assert j == Side(n);
      assert Side(Succ(n)) == 1 - j;
    } else {
      var x := r.items[r.oldest.value].seqNum;
      assert j == 1 - Side(x);
      assert TwoOldest(r1, r.oldest.value, x);
    }
  }

  lemma TwoScan(r: Ring, j: nat)
    requires WellFormed(r) && r.window == 2 && j < 2 && !LiveSlot(r, j)
    ensures Scan(r, j, 1) == if LiveSlot(r, 1 - j) then Some(1 - j) else None
  {
    assert SlotAfter(j, 1, 2) == 1 - j && SlotAfter(j, 2, 2) == j;
    assert Scan(r, j, 3) == None;
    assert Scan(r, j, 2) == None;
  }

  lemma {:induction false} TwoRun(r: Ring, ops: seq<Op>, drain: Drain)
    requires TwoInv(r)
    ensures TwoInv(Run(r, ops, drain))
    decreases |ops|
  {
    if ops != [] {
      match ops[0] {
        case Send => TwoSend(r);
        case Ack(n) => TwoAck(r, n, drain);
      }
      TwoRun(Step(r, ops[0], drain), ops[1..], drain);
    }
  }

  // ----- a window of three or more does not -----

  /** Number n alone is live, and n + 1 is next. */
  ghost predicate OneLive(r: Ring, n: u32) {
    && n < LAST && RingInv(r, n + 1) && r.seqNum == n + 1
    && r.oldest.Some? && r.items[r.oldest.value].seqNum == n
  }

  /** With the next number sent before n is acknowledged the ring never drains, so
      that both versions come to n + 1 alone. */
  lemma AheadKeeps(r: Ring, n: u32, drain: Drain)
    requires OneLive(r, n) && n + 1 < LAST && r.window >= 2
    ensures !WindowFull(r)
    ensures var r' := UpdateAck(SendOne(r), n, drain).0;
            OneLive(r', n + 1) && r'.window == r.window
  {
    FullExactly(r, n + 1);
    SendKeeps(r, n + 1);
    AheadAck(SendOne(r), n, drain);
  }

  lemma AheadAck(r: Ring, n: u32, drain: Drain)
    requires RingInv(r, n + 2) && r.seqNum == n + 2 && 1 <= n
    requires LiveSlot(r, Modulus(r, n + 1)) && ItemAt(r, Modulus(r, n + 1)).seqNum == n + 1
    requires r.oldest.Some? && r.items[r.oldest.value].seqNum == n
    ensures OneLive(UpdateAck(r, n, drain).0, n + 1) && UpdateAck(r, n, drain).0.window == r.window
  {
    var r' := UpdateAck(r, n, ClearOldest).0;
    AckKeeps(r, n + 2, n);
    AckRemovesExactly(r, n + 2, n, ClearOldest, Modulus(r, n + 1));
    OldestIffLive(r', n + 2);
    var x := r'.items[r'.oldest.value].seqNum;
    assert LiveSlot(r', (x - 1) % r.window);
    AckRemovesExactly(r, n + 2, n, ClearOldest, (x - 1) % r.window);
    SameUntilDrain(r, n);
  }

  lemma FirstLive(window: u16)
    requires window > 0
    ensures OneLive(SendOne(InitRing(window)), 1)
  {
    InitInv(window);
    SendKeeps(InitRing(window), 1);
  }

  /** Before the wrap either version of the ring comes to any number alone. */
  lemma {:induction false} OneLiveAt(window: u16, n: u32, drain: Drain) returns (ops: seq<Op>)
    requires window >= 2 && 1 <= n < LAST
    ensures var r := Run(InitRing(window), ops, drain); OneLive(r, n) && r.window == window
    decreases n
  {
    var r0 := InitRing(window);
    if n == 1 {
      ops := [Send];
      FirstLive(window);
      RunOne(r0, [], Send, drain);
      assert [] + [Send] == ops;
    } else {
      var before := OneLiveAt(window, n - 1, drain);
      var r := Run(r0, before, drain);
      AheadKeeps(r, n - 1, drain);
      ops := before + [Send] + [Ack(n - 1)];
      RunOne(r0, before, Send, drain);
      RunOne(r0, before + [Send], Ack(n - 1), drain);
    }
  }

  lemma SendKeeps(r: Ring, n: u32)
    requires RingInv(r, n) && r.seqNum == n < LAST && !WindowFull(r)
    ensures RingInv(SendOne(r), n + 1) && SendOne(r).seqNum == n + 1 && SendOne(r).window == r.window
    ensures LiveSlot(SendOne(r), Modulus(r, n)) && ItemAt(SendOne(r), Modulus(r, n)).seqNum == n
    ensures forall k :: 0 <= k < |r.slots| && k != Modulus(r, n) ==>
              LiveSlot(SendOne(r), k) == LiveSlot(r, k)
    ensures SendOne(r).oldest.Some?
    ensures SendOne(r).items[SendOne(r).oldest.value].seqNum ==
            if r.oldest.None? then n else r.items[r.oldest.value].seqNum
  {
    NextKeeps(r, n);
    var r1 := NextSeqNum(r).0;
    FullExactly(r, n);
    assert r1 == r.(seqNum := n + 1);
    InstallKeeps(r1, n);
    forall k | 0 <= k < |r.slots| && k != Modulus(r, n)
      ensures LiveSlot(SendOne(r), k) == LiveSlot(r, k)
    {
    }
  }

  /** Before the wrap, sending and acknowledging one number at a time leaves the
      repaired ring idle at the next. */
  lemma SendAndAck(r: Ring, n: nat)
    requires RingInv(r, n) && r.seqNum == n && n < LAST as nat && NothingLive(r)
    ensures var r' := UpdateAck(SendOne(r), n as u32, ClearOldest).0;
            RingInv(r', n + 1) && r'.seqNum == n + 1 && r'.window == r.window && NothingLive(r')
  {
    OldestIffLive(r, n);
    SendKeeps(r, n as u32);
    var r1 := SendOne(r);
    AckKeeps(r1, n + 1, n as u32);
    var r2 := UpdateAck(r1, n as u32, ClearOldest).0;
    forall k | 0 <= k < |r.slots|
      ensures !LiveSlot(r2, k)
    {
      AckRemovesExactly(r1, n + 1, n as u32, ClearOldest, k);
    }
  }

  /** The slot of number m is live. */
  ghost predicate LiveNumber(r: Ring, m: int)
    requires WellFormed(r)
  {
    m >= 1 && LiveSlot(r, (m - 1) % r.window)
  }

  /** Any send leaves live slots live and the oldest item where it is. */
  lemma SendGrows(r: Ring)
    requires WellFormed(r) && 1 <= r.seqNum <= LAST && !WindowFull(r)
    ensures var r' := SendOne(r);
            && r'.seqNum == Succ(r.seqNum) && r'.window == r.window
            && (forall m :: LiveNumber(r, m) ==> LiveNumber(r', m))
            && LiveNumber(r', r.seqNum)
            && r'.oldest.Some?
            && (r.oldest.Some? ==> r'.items[r'.oldest.value] == r.items[r.oldest.value])
            && (r.oldest.None? ==> r'.items[r'.oldest.value].seqNum == r.seqNum)
  {
    assert Sub32(r.seqNum, 1) == r.seqNum - 1;
    var r' := SendOne(r);
    forall m | LiveNumber(r, m)
      ensures LiveNumber(r', m)
    {
    }
  }

  lemma RunOne(r: Ring, ops: seq<Op>, op: Op, drain: Drain)
    requires WellFormed(r)
    ensures Run(r, ops + [op], drain) == Step(Run(r, ops, drain), op, drain)
  {
    RunAppend(r, ops, [op], drain);
    assert [op][1..] == [];
  }

  /** From number n alone, sends without acknowledgement until d numbers are out, d
      within the window: all d are live and n is the oldest. */
  lemma {:induction false} Burst(r: Ring, n: nat, d: nat, drain: Drain) returns (ops: seq<Op>, r': Ring)
    requires 1 <= n < LAST as nat && OneLive(r, n)
    requires 1 <= d <= r.window && n + d <= LAST as nat
    ensures r' == Run(r, ops, drain)
    ensures RingInv(r', n + d) && r'.seqNum == n + d && r'.window == r.window
    ensures r'.oldest.Some? && r'.items[r'.oldest.value].seqNum == n
    ensures forall m :: n <= m < n + d ==> LiveNumber(r', m)
    decreases d
  {
    if d == 1 {
      ops, r' := [], r;
    } else {
      var before, r1 := Burst(r, n, d - 1, drain);
      ops := before + [Send];
      RunOne(r, before, Send, drain);
      r' := SendOne(r1);
      BurstStep(r1, n, d - 1);
    }
  }

  lemma BurstStep(r: Ring, n: nat, d: nat)
    requires RingInv(r, n + d) && r.seqNum == n + d && 1 <= n && d < r.window && n + d < LAST as nat
    requires r.oldest.Some? && r.items[r.oldest.value].seqNum == n
    requires forall m :: n <= m < n + d ==> LiveNumber(r, m)
    ensures var r' := SendOne(r);
            && RingInv(r', n + d + 1) && r'.seqNum == n + d + 1 && r'.window == r.window
            && r'.oldest.Some? && r'.items[r'.oldest.value].seqNum == n
            && forall m :: n <= m < n + d + 1 ==> LiveNumber(r', m)
  {
    FullExactly(r, n + d);
    SendKeeps(r, (n + d) as u32);
    SendGrows(r);
  }

  /** One of the first two slots belongs to a number among the last w - 1 before
      the wrap. */
  lemma EarlySlotTaken(w: nat) returns (m: nat)
    requires w >= 3 && w <= LAST as nat
    ensures LAST as int - w + 2 <= m <= LAST as int
    ensures (m - 1) % w == 0 || (m - 1) % w == 1
  {
    var top: nat := LAST as int - 1;
    var res := top % w;
    assert top == top / w * w + res;
    if res < w - 1 {
      m := top - res + 1;
      Residues.ModUnique(m - 1, top / w, 0, w);
    } else {
      m := top - res + 2;
      Residues.ModUnique(m - 1, top / w, 1, w);
    }
  }

  /** A ring just past the wrap, w + 1 beyond its oldest: the full test has
      skipped past full, and one of the next two sends overwrites. */
  lemma PastWrapOverwrites(r: Ring, m: nat, drain: Drain) returns (ops: seq<Op>)
    requires WellFormed(r) && r.window >= 3 && r.seqNum == 1
    requires r.oldest.Some? && r.items[r.oldest.value].seqNum == LAST - r.window + 2
    requires LiveNumber(r, m) && ((m - 1) % r.window == 0 || (m - 1) % r.window == 1)
    ensures (ops == [] || ops == [Send]) && Overwrites(Run(r, ops, drain))
  {
    var w := r.window;
    var first := r.items[r.oldest.value].seqNum;
    assert Sub32(1, first) == w as int + 1;
    Residues.ModUnique(w as int + 1, 1, 1, w as int);
    assert Sub32(1, 1) == 0 && Modulus(r, 1) == 0;
    if (m - 1) % w == 0 {
      ops := [];
    } else {
      ops := [Send];
      SendGrows(r);
      var r1 := SendOne(r);
      assert Run(r, [Send], drain) == r1 by { RunOne(r, [], Send, drain); assert [] + [Send] == [Send]; }
      assert Sub32(2, first) == w as int + 2;
      Residues.ModUnique(w as int + 2, 1, 2, w as int);
      assert Sub32(2, 1) == 1 && Modulus(r1, 2) == 1 by { Residues.ModSmall(1, w as int); }
    }
  }

  lemma WrapOverwrites(window: u16, drain: Drain) returns (ops: seq<Op>)
    requires window >= 3
    ensures Overwrites(Run(InitRing(window), ops, drain))
  {
    var w: nat := window;
    var n: nat := LAST as int - w + 2;
    var alone := OneLiveAt(window, n as u32, drain);
    var r := Run(InitRing(window), alone, drain);
    var burst, r1 := Burst(r, n, w - 2, drain);
    assert r1.seqNum == LAST;
    FullExactly(r1, LAST);
    SendGrows(r1);
    var r2 := SendOne(r1);
    var m := EarlySlotTaken(w);
    assert LiveNumber(r2, m);
    var tail := PastWrapOverwrites(r2, m, drain);
    ops := alone + burst + [Send] + tail;
    RunAppend(InitRing(window), alone, burst, drain);
    RunOne(InitRing(window), alone + burst, Send, drain);
    RunAppend(InitRing(window), alone + burst + [Send], tail, drain);
  }

  /** Either version of the ring survives its number generator's wrap if and only if
      its window is at most two. */
  lemma WrapSafeExactly(window: u16, drain: Drain)
    requires window > 0
    ensures SafeForever(window, drain) <==> window <= 2
  {
    if window <= 2 {
      forall ops: seq<Op>
        ensures !Overwrites(Run(InitRing(window), ops, drain))
      {
        if window == 1 {
          OneRun(InitRing(window), ops, drain);
          OneStep(Run(InitRing(window), ops, drain), Send, drain);
        } else {
          TwoRun(InitRing(window), ops, drain);
          TwoSend(Run(InitRing(window), ops, drain));
        }
      }
    } else {
      var ops := WrapOverwrites(window, drain);
    }
  }
}
