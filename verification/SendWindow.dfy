/** The sender as one machine: the ring, the map of unacknowledged frames beside
    it and the queue of numbered frames between them. A frame is numbered and
    buffered by one event, written and installed by a later one, and released by
    its acknowledgement, in any interleaving. */
module SendWindow {
  import opened Words
  import opened RingSpec
  import opened RingInvariant
  import Residues

  datatype Pending = Pending(seqNum: u32, frame: seq<byte>)

  datatype Sender = Sender(
    ring: Ring, maxsize: nat, buffer: map<u32, seq<byte>>, queue: seq<Pending>, waiting: set<u32>)

  /** How far writeFrame gets: the socket refuses before the header, between
      header and payload, or not at all. */
  datatype Outcome = NoHeader | HeaderOnly | Complete

  datatype Event = Put(frame: seq<byte>) | Write(outcome: Outcome) | Fire(seqNum: u32) | Timeout(seqNum: u32)

  datatype PutResult = BufferFull | Refused(why: NextResult) | Queued(seqNum: u32)

  function InitSender(window: u16, maxsize: nat): Sender
    requires window > 0
  {
    Sender(InitRing(window), maxsize, map[], [], {})
  }

  function PutFrame(s: Sender, frame: seq<byte>): (res: (Sender, PutResult))
    requires WellFormed(s.ring)
    ensures WellFormed(res.0.ring)
  {
    if |s.buffer| == s.maxsize then (s, BufferFull)
    else
      var (ring, next) := NextSeqNum(s.ring);
      match next
      case Next(n) =>
        // the entry is empty: the request carries its payload under another key
        (s.(ring := ring, buffer := s.buffer[n := []], queue := s.queue + [Pending(n, frame)]), Queued(n))
      case _ => (s, Refused(next))
  }

  function WriteFrame(s: Sender, outcome: Outcome): (s': Sender)
    requires WellFormed(s.ring)
    ensures WellFormed(s'.ring)
  {
    if s.queue == [] then s
    else
      var n := s.queue[0].seqNum;
      if outcome.Complete? then
        s.(ring := SetNextItem(s.ring, n), queue := s.queue[1..], waiting := s.waiting + {n})
      else
        s.(queue := s.queue[1..])
  }

  /** The goroutine that waits for number n's acknowledgement gets it. */
  function FireAck(s: Sender, n: u32, drain: Drain): (s': Sender)
    requires WellFormed(s.ring)
    ensures WellFormed(s'.ring)
  {
    if n !in s.waiting then s
    else s.(ring := UpdateAck(s.ring, n, drain).0, buffer := s.buffer - {n}, waiting := s.waiting - {n})
  }

  function Step(s: Sender, e: Event, drain: Drain): (s': Sender)
    requires WellFormed(s.ring)
    ensures WellFormed(s'.ring)
  {
    match e
    case Put(frame) => PutFrame(s, frame).0
    case Write(outcome) => WriteFrame(s, outcome)
    case Fire(n) => FireAck(s, n, drain)
    case Timeout(n) => s.(waiting := s.waiting - {n})
  }

  function Run(s: Sender, es: seq<Event>, drain: Drain): (s': Sender)
    requires WellFormed(s.ring)
    ensures WellFormed(s'.ring)
    decreases |es|
  {
    if es == [] then s else Run(Step(s, es[0], drain), es[1..], drain)
  }

  /** Event e hands out the last number before the generator starts again at 1. */
  predicate Wraps(s: Sender, e: Event)
    requires WellFormed(s.ring)
  {
    e.Put? && s.ring.seqNum == LAST && PutFrame(s, e.frame).1.Queued?
  }

  predicate NoWrap(s: Sender, es: seq<Event>, drain: Drain)
    requires WellFormed(s.ring)
    decreases |es|
  {
    es == [] || (!Wraps(s, es[0]) && NoWrap(Step(s, es[0], drain), es[1..], drain))
  }

  /** Event e installs an item over one that is still live. */
  predicate Overwrites(s: Sender, e: Event)
    requires WellFormed(s.ring)
  {
    e == Write(Complete) && s.queue != [] && LiveSlot(s.ring, Modulus(s.ring, s.queue[0].seqNum))
  }

  // ----- the combined invariant -----

  ghost predicate Live(s: Sender, n: u32)
    requires WellFormed(s.ring)
  {
    exists k :: 0 <= k < |s.ring.slots| && LiveSlot(s.ring, k) && ItemAt(s.ring, k).seqNum == n
  }

  ghost predicate Outstanding(s: Sender, n: u32)
    requires WellFormed(s.ring)
  {
    Live(s, n) || exists i :: 0 <= i < |s.queue| && s.queue[i].seqNum == n
  }

  /** The first number not yet installed or given up. */
  function Frontier(s: Sender): int {
    s.ring.seqNum - |s.queue|
  }

  ghost predicate QueueConsecutive(s: Sender) {
    forall i :: 0 <= i < |s.queue| ==> s.queue[i].seqNum == Frontier(s) + i
  }

  ghost predicate BufferCovers(s: Sender)
    requires WellFormed(s.ring)
  {
    && (forall i :: 0 <= i < |s.queue| ==> s.queue[i].seqNum in s.buffer)
    && (forall k :: 0 <= k < |s.ring.slots| && LiveSlot(s.ring, k) ==> ItemAt(s.ring, k).seqNum in s.buffer)
    && (forall n :: n in s.buffer ==> 1 <= n < s.ring.seqNum)
  }

  ghost predicate WaitingLive(s: Sender)
    requires WellFormed(s.ring)
  {
    forall n :: n in s.waiting ==>
      n in s.buffer && n < Frontier(s) && LiveSlot(s.ring, (n - 1) % s.ring.window)
      && ItemAt(s.ring, (n - 1) % s.ring.window).seqNum == n
  }

  ghost predicate Inv(s: Sender) {
    && RingInv(s.ring, Frontier(s))
    && s.maxsize <= s.ring.window
    && |s.buffer| <= s.maxsize
    && QueueConsecutive(s)
    && (forall n :: n in s.buffer ==> 1 <= n)
    && BufferCovers(s)
    && WaitingLive(s)
  }

  lemma {:induction false} RangeFits(lo: int, hi: int, s: set<u32>)
    requires lo <= hi
    requires forall x: u32 :: lo <= x < hi ==> x in s
    requires 0 <= lo && hi < U32
    ensures hi - lo <= |s|
    decreases hi - lo
  {
    if lo < hi {
      assert (hi - 1) as u32 in s;
      RangeFits(lo, hi - 1, s - {hi - 1});
    }
  }

  /** The queue never outgrows the window: its numbers are all buffered. */
  lemma QueueFits(s: Sender)
    requires Inv(s)
    ensures |s.queue| <= |s.buffer| <= s.ring.window
  {
    var w := Frontier(s);
    forall x: u32 | w <= x < s.ring.seqNum
      ensures x in s.buffer.Keys
    {
      assert s.queue[x - w].seqNum == x;
    }
    RangeFits(w, s.ring.seqNum, s.buffer.Keys);
  }

  lemma PutKeeps(s: Sender, frame: seq<byte>)
    requires Inv(s) && !Wraps(s, Put(frame))
    ensures Inv(PutFrame(s, frame).0)
  {
    var (s', res) := PutFrame(s, frame);
    if res.Queued? {
      NextKeeps(s.ring, Frontier(s));
      assert Frontier(s') == Frontier(s);
      PutKeepsCover(s, frame);
      var n := s.ring.seqNum;
      assert n !in s.buffer;
      assert s'.buffer.Keys == s.buffer.Keys + {n};
      assert |s'.buffer.Keys| == |s.buffer.Keys| + 1;
    }
  }

  lemma PutKeepsCover(s: Sender, frame: seq<byte>)
    requires Inv(s) && PutFrame(s, frame).1.Queued? && s.ring.seqNum < LAST
    ensures BufferCovers(PutFrame(s, frame).0) && WaitingLive(PutFrame(s, frame).0)
  {
    var s' := PutFrame(s, frame).0;
    assert s'.ring == s.ring.(seqNum := s.ring.seqNum + 1);
    forall k | 0 <= k < |s.ring.slots|
      ensures LiveSlot(s'.ring, k) == LiveSlot(s.ring, k)
      ensures LiveSlot(s.ring, k) ==> ItemAt(s'.ring, k) == ItemAt(s.ring, k)
    {
    }
  }

  lemma WriteKeeps(s: Sender, outcome: Outcome)
    requires Inv(s)
    ensures Inv(WriteFrame(s, outcome))
  {
    if s.queue == [] { return; }
    QueueFits(s);
    var w := Frontier(s);
    var s' := WriteFrame(s, outcome);
    assert s.queue[0].seqNum == w;
    assert Frontier(s') == w + 1;
    assert QueueConsecutive(s') by {
      assert forall i :: 0 <= i < |s'.queue| ==> s'.queue[i] == s.queue[i + 1];
    }
    if outcome.Complete? {
      InstallKeeps(s.ring, w);
      InstallKeepsCover(s, s', w);
    } else {
      SkipKeeps(s.ring, w);
    }
  }

  lemma InstallKeepsCover(s: Sender, s': Sender, w: u32)
    requires Inv(s) && s.queue != [] && s.queue[0].seqNum == w == Frontier(s)
    requires s.ring.seqNum - w <= s.ring.window
    requires s' == WriteFrame(s, Complete)
    ensures BufferCovers(s') && WaitingLive(s')
  {
    var j := Modulus(s.ring, w);
    assert Sub32(w, 1) == w - 1;
    InstallSlotFree(s.ring, w);
    assert s'.ring == SetNextItem(s.ring, w);
    forall k | 0 <= k < |s.ring.slots|
      ensures k == j ==> LiveSlot(s'.ring, k) && ItemAt(s'.ring, k) == Item(w, false)
      ensures k != j ==> LiveSlot(s'.ring, k) == LiveSlot(s.ring, k)
      ensures k != j && LiveSlot(s.ring, k) ==> ItemAt(s'.ring, k) == ItemAt(s.ring, k)
    {
    }
  }

  lemma FireKeeps(s: Sender, n: u32)
    requires Inv(s)
    ensures Inv(FireAck(s, n, ClearOldest))
  {
    if n !in s.waiting { return; }
    var s' := FireAck(s, n, ClearOldest);
    AckKeeps(s.ring, Frontier(s), n);
    FireKeepsCover(s, n);
    assert s'.buffer.Keys == s.buffer.Keys - {n};
    assert |s'.buffer.Keys| <= |s.buffer.Keys|;
  }

  lemma FireKeepsCover(s: Sender, n: u32)
    requires Inv(s) && n in s.waiting
    ensures BufferCovers(FireAck(s, n, ClearOldest)) && WaitingLive(FireAck(s, n, ClearOldest))
  {
    var s' := FireAck(s, n, ClearOldest);
    forall k | 0 <= k < |s.ring.slots|
      ensures LiveSlot(s'.ring, k) <==> LiveSlot(s.ring, k) && ItemAt(s.ring, k).seqNum != n
      ensures LiveSlot(s'.ring, k) ==> ItemAt(s'.ring, k) == ItemAt(s.ring, k)
    {
      AckRemovesExactly(s.ring, Frontier(s), n, ClearOldest, k);
    }
    assert Frontier(s') == Frontier(s);
  }

  lemma StepKeeps(s: Sender, e: Event)
    requires Inv(s) && !Wraps(s, e)
    ensures Inv(Step(s, e, ClearOldest))
  {
    match e
    case Put(frame) => PutKeeps(s, frame);
    case Write(outcome) => WriteKeeps(s, outcome);
    case Fire(n) => FireKeeps(s, n);
    case Timeout(n) =>
  }

  /** Over every interleaving before the wrap the repaired sender keeps its invariant. */
  lemma {:induction false} RunKeeps(s: Sender, es: seq<Event>)
    requires Inv(s) && NoWrap(s, es, ClearOldest)
    ensures Inv(Run(s, es, ClearOldest))
    decreases |es|
  {
    if es != [] {
      StepKeeps(s, es[0]);
      RunKeeps(Step(s, es[0], ClearOldest), es[1..]);
    }
  }

  lemma InitKeeps(window: u16, maxsize: nat)
    requires window > 0 && maxsize <= window
    ensures Inv(InitSender(window, maxsize))
  {
  }

  /** From the smallest outstanding number to the next one to hand out is at most
      a window; every outstanding number is buffered; and the write event at the
      head of the queue finds its slot free. */
  lemma SpreadWithinWindow(window: u16, maxsize: nat, es: seq<Event>)
    requires window > 0 && maxsize <= window
    requires NoWrap(InitSender(window, maxsize), es, ClearOldest)
    ensures var s := Run(InitSender(window, maxsize), es, ClearOldest);
            forall n: u32 :: Outstanding(s, n) ==> n < s.ring.seqNum <= n + window && n in s.buffer
  {
    InitKeeps(window, maxsize);
    RunSizes(InitSender(window, maxsize), es, ClearOldest);
    RunKeeps(InitSender(window, maxsize), es);
    var s := Run(InitSender(window, maxsize), es, ClearOldest);
    QueueFits(s);
    OldestIffLive(s.ring, Frontier(s));
  }

  lemma StepSizes(s: Sender, e: Event, drain: Drain)
    requires WellFormed(s.ring)
    ensures Step(s, e, drain).ring.window == s.ring.window && Step(s, e, drain).maxsize == s.maxsize
  {
  }

  lemma {:induction false} RunSizes(s: Sender, es: seq<Event>, drain: Drain)
    requires WellFormed(s.ring)
    ensures Run(s, es, drain).ring.window == s.ring.window && Run(s, es, drain).maxsize == s.maxsize
    decreases |es|
  {
    if es != [] {
      StepSizes(s, es[0], drain);
      RunSizes(Step(s, es[0], drain), es[1..], drain);
    }
  }

  lemma HeadSlotFree(s: Sender, e: Event)
    requires Inv(s)
    ensures !Overwrites(s, e)
  {
    if s.queue != [] {
      QueueFits(s);
      assert s.queue[0].seqNum == Frontier(s);
      InstallSlotFree(s.ring, Frontier(s));
    }
  }

  // ----- exactly which sizes are safe -----

  /** No run before the wrap installs over a live item. */
  ghost predicate SafeSizes(window: u16, maxsize: nat, drain: Drain)
    requires window > 0
  {
    forall es: seq<Event>, e: Event ::
      NoWrap(InitSender(window, maxsize), es + [e], drain) ==>
        !Overwrites(Run(InitSender(window, maxsize), es, drain), e)
  }

  lemma {:induction false} NoWrapPrefix(s: Sender, es: seq<Event>, fs: seq<Event>, drain: Drain)
    requires WellFormed(s.ring)
    ensures NoWrap(s, es + fs, drain) <==> NoWrap(s, es, drain) && NoWrap(Run(s, es, drain), fs, drain)
    ensures Run(s, es + fs, drain) == Run(Run(s, es, drain), fs, drain)
    decreases |es|
  {
    if es == [] {
      assert es + fs == fs;
    } else {
      assert (es + fs)[1..] == es[1..] + fs;
      NoWrapPrefix(Step(s, es[0], drain), es[1..], fs, drain);
    }
  }

  lemma RunCons(s: Sender, e: Event, es: seq<Event>, drain: Drain)
    requires WellFormed(s.ring)
    ensures Run(s, [e] + es, drain) == Run(Step(s, e, drain), es, drain)
    ensures NoWrap(s, [e] + es, drain) <==> !Wraps(s, e) && NoWrap(Step(s, e, drain), es, drain)
  {
    assert ([e] + es)[1..] == es;
  }

  function Repeat(e: Event, k: nat): (es: seq<Event>)
    ensures |es| == k && forall i :: 0 <= i < k ==> es[i] == e
  {
    seq(k, _ => e)
  }

  /** k empty frames numbered from first on. */
  function Numbered(first: nat, k: nat): (q: seq<Pending>)
    requires first + k <= LAST as nat + 1
    ensures |q| == k && forall i :: 0 <= i < k ==> q[i].seqNum == first + i
    decreases k
  {
    if k == 0 then [] else [Pending(first, [])] + Numbered(first + 1, k - 1)
  }

  ghost predicate RoomFor(s: Sender, k: nat) {
    && WellFormed(s.ring) && s.ring.oldest == None && s.ring.seqNum as nat + k <= LAST
    && (forall n :: n in s.buffer ==> n < s.ring.seqNum)
    && |s.buffer| + k <= s.maxsize
  }

  lemma PutOne(s: Sender, frame: seq<byte>, drain: Drain, k: nat) returns (s1: Sender)
    requires RoomFor(s, k + 1)
    ensures s1 == Step(s, Put(frame), drain) && !Wraps(s, Put(frame)) && RoomFor(s1, k)
    ensures s1.ring == s.ring.(seqNum := s.ring.seqNum + 1) && s1.waiting == s.waiting
    ensures s1.queue == s.queue + [Pending(s.ring.seqNum, frame)]
  {
    s1 := Step(s, Put(frame), drain);
    var n := s.ring.seqNum;
    assert PutFrame(s, frame).1 == Queued(n);
    assert s1.buffer.Keys == s.buffer.Keys + {n};
    assert |s1.buffer.Keys| == |s.buffer.Keys| + 1;
  }

  lemma RepeatCons(e: Event, k: nat)
    ensures Repeat(e, k + 1) == [e] + Repeat(e, k)
  {
  }

  lemma NumberedCons(q: seq<Pending>, first: nat, k: nat)
    requires first + k + 1 <= LAST as nat + 1
    ensures q + [Pending(first, [])] + Numbered(first + 1, k) == q + Numbered(first, k + 1)
  {
    assert Numbered(first, k + 1) == [Pending(first, [])] + Numbered(first + 1, k);
  }

  ghost predicate HasPut(s: Sender, s': Sender, k: nat) {
    && s.ring.seqNum as nat + k <= LAST
    && s'.ring == s.ring.(seqNum := s.ring.seqNum as nat + k)
    && s'.queue == s.queue + Numbered(s.ring.seqNum, k)
  }

  lemma HasPutCons(s: Sender, s1: Sender, s': Sender, k: nat)
    requires s.ring.seqNum as nat + k + 1 <= LAST
    requires s1.ring == s.ring.(seqNum := s.ring.seqNum + 1)
    requires s1.queue == s.queue + [Pending(s.ring.seqNum, [])]
    requires HasPut(s1, s', k)
    ensures HasPut(s, s', k + 1)
  {
    NumberedCons(s.queue, s.ring.seqNum, k);
  }

  /** k frames numbered and buffered before anything is written. */
  lemma {:induction false} PutMany(s: Sender, k: nat)
    requires RoomFor(s, k)
    ensures NoWrap(s, Repeat(Put([]), k), ClearOldest)
    ensures HasPut(s, Run(s, Repeat(Put([]), k), ClearOldest), k)
    decreases k
  {
    if k == 0 {
      assert Repeat(Put([]), k) == [];
      assert s.queue + [] == s.queue;
    } else {
      var s1 := PutOne(s, [], ClearOldest, k - 1);
      var puts := Repeat(Put([]), k - 1);
      PutMany(s1, k - 1);
      RunCons(s, Put([]), puts, ClearOldest);
      RepeatCons(Put([]), k - 1);
      HasPutCons(s, s1, Run(s1, puts, ClearOldest), k - 1);
    }
  }

  lemma WriteOne(s: Sender, first: nat) returns (s1: Sender)
    requires WellFormed(s.ring) && s.queue != [] && s.queue[0].seqNum == first
    requires 1 <= first <= s.ring.window
    requires first > 1 ==> LiveSlot(s.ring, 0)
    ensures s1 == Step(s, Write(Complete), ClearOldest) && WellFormed(s1.ring)
    ensures s1.queue == s.queue[1..] && s1.ring.window == s.ring.window && LiveSlot(s1.ring, 0)
  {
    s1 := Step(s, Write(Complete), ClearOldest);
    assert Sub32(first, 1) == first - 1 < s.ring.window;
    assert Modulus(s.ring, first) == first - 1 by { Residues.ModSmall(first - 1, s.ring.window); }
  }

  /** k queued frames written and installed; slot 0 keeps the item of number 1. */
  lemma {:induction false} WriteMany(s: Sender, k: nat, first: nat)
    requires WellFormed(s.ring) && k <= |s.queue| && 1 <= first && first + k <= s.ring.window as nat + 1
    requires forall i :: 0 <= i < k ==> s.queue[i].seqNum == first + i
    requires first > 1 ==> LiveSlot(s.ring, 0)
    ensures NoWrap(s, Repeat(Write(Complete), k), ClearOldest)
    ensures var s' := Run(s, Repeat(Write(Complete), k), ClearOldest);
            && s'.queue == s.queue[k..] && s'.ring.window == s.ring.window
            && (first + k > 1 ==> LiveSlot(s'.ring, 0))
    decreases k
  {
    var es := Repeat(Write(Complete), k);
    if k == 0 {
      assert es == [];
    } else {
      var s1 := WriteOne(s, first);
      WriteMany(s1, k - 1, first + 1);
      RunCons(s, Write(Complete), Repeat(Write(Complete), k - 1), ClearOldest);
      assert es == [Write(Complete)] + Repeat(Write(Complete), k - 1);
      assert s1.queue[k - 1..] == s.queue[k..];
    }
  }

  /** With room for more buffered frames than the window holds, numbering one
      frame too many and then writing them all installs over number 1. */
  lemma BurstOverwrites(window: u16, maxsize: nat) returns (es: seq<Event>)
    requires window > 0 && maxsize > window
    ensures NoWrap(InitSender(window, maxsize), es + [Write(Complete)], ClearOldest)
    ensures Overwrites(Run(InitSender(window, maxsize), es, ClearOldest), Write(Complete))
    ensures forall i :: 0 <= i < |es| ==> !es[i].Fire?
  {
    var s, w: nat := InitSender(window, maxsize), window;
    var puts := Repeat(Put([]), w + 1);
    var writes := Repeat(Write(Complete), w);
    PutMany(s, w + 1);
    var s1 := Run(s, puts, ClearOldest);
    assert s1.queue == Numbered(1, w + 1);
    WriteMany(s1, w, 1);
    var s2 := Run(s1, writes, ClearOldest);
    es := puts + writes;
    NoWrapPrefix(s, puts, writes, ClearOldest);
    NoWrapPrefix(s, es, [Write(Complete)], ClearOldest);
    LastOverwrites(s2, w);
    assert NoWrap(s2, [Write(Complete)], ClearOldest);
  }

  lemma LastOverwrites(s: Sender, w: nat)
    requires WellFormed(s.ring) && s.ring.window == w && LiveSlot(s.ring, 0)
    requires s.queue != [] && s.queue[0].seqNum == w + 1
    ensures Overwrites(s, Write(Complete))
  {
    assert Sub32(w + 1, 1) == w;
    Residues.ModUnique(w, 1, 0, w);
  }

  /** The repaired sender is safe before the wrap if and only if its buffer is no
      larger than its window. */
  lemma SafeExactly(window: u16, maxsize: nat)
    requires window > 0
    ensures SafeSizes(window, maxsize, ClearOldest) <==> maxsize <= window
  {
    if maxsize <= window {
      forall es: seq<Event>, e: Event | NoWrap(InitSender(window, maxsize), es + [e], ClearOldest)
        ensures !Overwrites(Run(InitSender(window, maxsize), es, ClearOldest), e)
      {
        NoWrapPrefix(InitSender(window, maxsize), es, [e], ClearOldest);
        InitKeeps(window, maxsize);
        RunKeeps(InitSender(window, maxsize), es);
        HeadSlotFree(Run(InitSender(window, maxsize), es, ClearOldest), e);
      }
    } else {
      var es := BurstOverwrites(window, maxsize);
    }
  }

  /** What becomes of a frame put: the buffer is looked at before the window, and a
      frame that is taken gets the next number, an empty buffer entry and the last
      place in the queue; a refused one changes nothing. */
  lemma PutExactly(s: Sender, frame: seq<byte>)
    requires WellFormed(s.ring) && 1 <= s.ring.seqNum <= 0xFFFF_FFFE
    ensures var (s', res) := PutFrame(s, frame);
            var n := s.ring.seqNum;
            var full := s.ring.oldest.Some?
                        && (n - s.ring.items[s.ring.oldest.value].seqNum) % 0x1_0000_0000 % s.ring.window == 0;
            && res == (if |s.buffer| == s.maxsize then BufferFull else if full then Refused(Full) else Queued(n))
            && s' == if res != Queued(n) then s
                     else Sender(s.ring.(seqNum := if n == 0xFFFF_FFFE then 1 else n + 1), s.maxsize,
                                 s.buffer[n := []], s.queue + [Pending(n, frame)], s.waiting)
  {
  }
}
