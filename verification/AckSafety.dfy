/** Two open sides on a network that loses, duplicates and reorders datagrams and
    may carry strays: a frame's buffer entry is released only after the other
    side has parsed that frame's header, and a header is parsed only if it was
    written. Each half depends on one thing about users' payloads. */
module AckSafety {
  import opened Words
  import opened Header
  import opened RingSpec
  import opened SendWindow
  import opened Transport

  /** Datagrams ever sent towards each side; delivery takes any of them, any
      number of times, in any order, or never. */
  datatype Net = Net(a: Endpoint, b: Endpoint, toA: set<seq<byte>>, toB: set<seq<byte>>)

  datatype Side = A | B

  datatype Move =
    | Local(side: Side, act: Action)
    | Deliver(side: Side, dgram: seq<byte>)
    | Stray(side: Side, dgram: seq<byte>)

  /** The payloads that users may send towards each side. */
  datatype Rules = Rules(toA: iset<seq<byte>>, toB: iset<seq<byte>>)

  ghost predicate NetOk(s: Net) {
    && WellFormed(s.a.sender.ring) && WellFormed(s.b.sender.ring)
    && s.a.own != 0 && s.b.own != 0
  }

  ghost function At(s: Net, side: Side): Endpoint {
    if side == A then s.a else s.b
  }

  function Datagrams(out: seq<seq<byte>>): set<seq<byte>> {
    set d | d in out
  }

  ghost function Step(crc: Crc, s: Net, m: Move, drain: Drain): (s': Net)
    requires NetOk(s)
    ensures NetOk(s') && s'.a.own == s.a.own && s'.b.own == s.b.own
  {
    match m
    case Local(A, act) =>
      var (e, out) := Act(crc, s.a, act, drain);
      s.(a := e, toB := s.toB + Datagrams(out))
    case Local(B, act) =>
      var (e, out) := Act(crc, s.b, act, drain);
      s.(b := e, toA := s.toA + Datagrams(out))
    case Deliver(A, d) => if d in s.toA then s.(a := Receive(crc, s.a, d)) else s
    case Deliver(B, d) => if d in s.toB then s.(b := Receive(crc, s.b, d)) else s
    case Stray(A, d) => s.(toA := s.toA + {d})
    case Stray(B, d) => s.(toB := s.toB + {d})
  }

  ghost function Run(crc: Crc, s: Net, ms: seq<Move>, drain: Drain): (s': Net)
    requires NetOk(s)
    ensures NetOk(s') && s'.a.own == s.a.own && s'.b.own == s.b.own
    decreases |ms|
  {
    if ms == [] then s else Run(crc, Step(crc, s, ms[0], drain), ms[1..], drain)
  }

  /** Strays do not carry the receiver's reference number; users keep to the rules. */
  ghost predicate Fair(s: Net, m: Move, rules: Rules)
    requires NetOk(s)
  {
    match m
    case Stray(side, d) => GetU16(Received(d)[..2]) != At(s, side).own
    case Local(A, Put(frame)) => frame in rules.toB
    case Local(B, Put(frame)) => frame in rules.toA
    case _ => true
  }

  ghost predicate FairRun(crc: Crc, s: Net, ms: seq<Move>, drain: Drain, rules: Rules)
    requires NetOk(s)
    decreases |ms|
  {
    ms == [] || (Fair(s, ms[0], rules) && FairRun(crc, Step(crc, s, ms[0], drain), ms[1..], drain, rules))
  }

  // ----- payloads that pass for headers -----

  /** The numbers a generator hands out. */
  predicate InRange(n: u32) {
    1 <= n <= LAST
  }

  /** The reader with number own would take the datagram for an acknowledgement of
      some frame, or for some frame's header. */
  ghost predicate ForgesAck(crc: Crc, own: u16, d: seq<byte>) {
    exists n: u32 :: InRange(n) && ReadsAsAck(crc, own, d, n)
  }

  ghost predicate ForgesGram(crc: Crc, own: u16, d: seq<byte>) {
    exists n: u32 :: ReadsAsGram(crc, own, d, n)
  }

  ghost predicate NoForgedAcks(crc: Crc, own: u16, payloads: iset<seq<byte>>) {
    forall f :: f in payloads ==> !ForgesAck(crc, own, f)
  }

  ghost predicate NoForgedGrams(crc: Crc, own: u16, payloads: iset<seq<byte>>) {
    forall f :: f in payloads ==> !ForgesGram(crc, own, f)
  }

  lemma StrayForgesNothing(crc: Crc, own: u16, d: seq<byte>)
    requires own != 0 && GetU16(Received(d)[..2]) != own
    ensures !ForgesAck(crc, own, d) && !ForgesGram(crc, own, d)
  {
    ForeignRefRejected(crc, own, d);
  }

  /** The datagram is the bare payload that the next write puts on the wire. */
  predicate NextPayload(e: Endpoint, d: seq<byte>) {
    e.sender.queue != [] && d == e.sender.queue[0].frame
  }

  /** What a writer puts on the wire, read by the side with number own: payloads
      aside, an acknowledgement only of a number it has handled while nothing of
      its own is buffered, and a frame only under a number it has written. */
  lemma OutReads(crc: Crc, e: Endpoint, own: u16, act: Action, drain: Drain, d: seq<byte>, n: u32)
    requires WellFormed(e.sender.ring) && own != 0 && d in Act(crc, e, act, drain).1 && !NextPayload(e, d)
    ensures ReadsAsAck(crc, own, d, n) ==> act == HandleGram(n) && n in e.grams && e.sender.buffer == map[]
    ensures ReadsAsGram(crc, own, d, n) ==> n in Act(crc, e, act, drain).0.headed
  {
    match act
    case Write(outcome) =>
      var q := e.sender.queue[0];
      EncodedReads(crc, own, e.peer, q.seqNum, 0, DATAGRAM, |q.frame|, crc(q.frame), n);
    case HandleGram(m) => EncodedReads(crc, own, e.peer, 0, m, DATA_ACK, 0, 0, n);
    case Close => EncodedReads(crc, own, e.peer, 0, 0, RMT_CLOSING, 0, 0, n);
    case _ =>
  }

  ghost predicate QueueNumbered(s: Sender) {
    InRange(s.ring.seqNum) && forall i :: 0 <= i < |s.queue| ==> InRange(s.queue[i].seqNum)
  }

  /** Every frame queued after an action was queued before it, or put by it. */
  lemma QueueFrom(crc: Crc, e: Endpoint, act: Action, drain: Drain)
    requires WellFormed(e.sender.ring) && QueueNumbered(e.sender)
    ensures var q' := Act(crc, e, act, drain).0.sender.queue;
            forall i :: 0 <= i < |q'| ==> q'[i] in e.sender.queue || (act.Put? && q'[i].frame == act.frame)
    ensures QueueNumbered(Act(crc, e, act, drain).0.sender)
  {
    var q, q' := e.sender.queue, Act(crc, e, act, drain).0.sender.queue;
    match act
    case Put(frame) => assert forall i :: 0 <= i < |q'| ==> (i < |q| && q'[i] == q[i]) || q'[i].frame == frame;
    case _ =>
  }

  // ----- acknowledgements: everything e makes of one is backed by p -----

  ghost predicate AckWay(crc: Crc, e: Endpoint, p: Endpoint, toE: set<seq<byte>>) {
    && e.own != 0 && WellFormed(e.sender.ring) && WellFormed(p.sender.ring)
    && QueueNumbered(e.sender) && QueueNumbered(p.sender)
    && (forall d, n :: d in toE && InRange(n) && ReadsAsAck(crc, e.own, d, n) ==> n in p.parsed)
    && (forall n :: n in e.acks && InRange(n) ==> n in p.parsed)
    && (forall n :: n in e.ackCh ==> InRange(n))
    && e.signalled <= p.parsed && e.popped <= p.parsed && p.grams <= p.parsed
    && (forall i :: 0 <= i < |p.sender.queue| ==> !ForgesAck(crc, e.own, p.sender.queue[i].frame))
  }

  lemma AckOwnActs(crc: Crc, e: Endpoint, p: Endpoint, toE: set<seq<byte>>, act: Action, drain: Drain)
    requires AckWay(crc, e, p, toE)
    ensures AckWay(crc, Act(crc, e, act, drain).0, p, toE)
  {
    QueueFrom(crc, e, act, drain);
  }

  lemma AckPeerActs(crc: Crc, e: Endpoint, p: Endpoint, toE: set<seq<byte>>, act: Action, drain: Drain)
    requires AckWay(crc, e, p, toE)
    requires act.Put? ==> !ForgesAck(crc, e.own, act.frame)
    ensures var (p', out) := Act(crc, p, act, drain);
            AckWay(crc, e, p', toE + Datagrams(out))
  {
    var (p', out) := Act(crc, p, act, drain);
    QueueFrom(crc, p, act, drain);
    assert p'.parsed == p.parsed && p'.grams == p.grams;
    forall d, n | d in toE + Datagrams(out) && InRange(n) && ReadsAsAck(crc, e.own, d, n)
      ensures n in p.parsed
    {
      if d in out && !NextPayload(p, d) {
        OutReads(crc, p, e.own, act, drain, d, n);
      }
    }
  }

  lemma AckOwnReceives(crc: Crc, e: Endpoint, p: Endpoint, toE: set<seq<byte>>, d: seq<byte>)
    requires AckWay(crc, e, p, toE) && d in toE
    ensures AckWay(crc, Receive(crc, e, d), p, toE)
  {
    var parse := Parse(crc, e.own, d);
    if parse.Frame? && FlagOf(parse) == DATA_ACK {
      assert ReadsAsAck(crc, e.own, d, AckOf(parse.numbers));
    }
  }

  lemma AckPeerReceives(crc: Crc, e: Endpoint, p: Endpoint, toE: set<seq<byte>>, d: seq<byte>)
    requires AckWay(crc, e, p, toE)
    ensures AckWay(crc, e, Receive(crc, p, d), toE)
  {
  }

  lemma AckStep(crc: Crc, s: Net, m: Move, drain: Drain, rules: Rules)
    requires NetOk(s) && AckWay(crc, s.a, s.b, s.toA) && Fair(s, m, rules)
    requires NoForgedAcks(crc, s.a.own, rules.toA)
    ensures var s' := Step(crc, s, m, drain); AckWay(crc, s'.a, s'.b, s'.toA)
  {
    match m
    case Local(A, act) => AckOwnActs(crc, s.a, s.b, s.toA, act, drain);
    case Local(B, act) => AckPeerActs(crc, s.a, s.b, s.toA, act, drain);
    case Deliver(A, d) => if d in s.toA { AckOwnReceives(crc, s.a, s.b, s.toA, d); }
    case Deliver(B, d) => AckPeerReceives(crc, s.a, s.b, s.toA, d);
    case Stray(A, d) => StrayForgesNothing(crc, s.a.own, d);
    case Stray(B, d) =>
  }

  lemma {:induction false} AckRun(crc: Crc, s: Net, ms: seq<Move>, drain: Drain, rules: Rules)
    requires NetOk(s) && AckWay(crc, s.a, s.b, s.toA) && FairRun(crc, s, ms, drain, rules)
    requires NoForgedAcks(crc, s.a.own, rules.toA)
    ensures var s' := Run(crc, s, ms, drain); AckWay(crc, s'.a, s'.b, s'.toA)
    decreases |ms|
  {
    if ms != [] {
      AckStep(crc, s, ms[0], drain, rules);
      AckRun(crc, Step(crc, s, ms[0], drain), ms[1..], drain, rules);
    }
  }

  // ----- frames: everything p parses was written by e -----

  ghost predicate GramWay(crc: Crc, e: Endpoint, p: Endpoint, toP: set<seq<byte>>) {
    && p.own != 0 && WellFormed(e.sender.ring) && QueueNumbered(e.sender)
    && (forall d, n :: d in toP && ReadsAsGram(crc, p.own, d, n) ==> n in e.headed)
    && p.parsed <= e.headed
    && (forall i :: 0 <= i < |e.sender.queue| ==> !ForgesGram(crc, p.own, e.sender.queue[i].frame))
  }

  lemma GramOwnActs(crc: Crc, e: Endpoint, p: Endpoint, toP: set<seq<byte>>, act: Action, drain: Drain)
    requires GramWay(crc, e, p, toP)
    requires act.Put? ==> !ForgesGram(crc, p.own, act.frame)
    ensures var (e', out) := Act(crc, e, act, drain);
            GramWay(crc, e', p, toP + Datagrams(out))
  {
    var (e', out) := Act(crc, e, act, drain);
    QueueFrom(crc, e, act, drain);
    forall d, n | d in toP + Datagrams(out) && ReadsAsGram(crc, p.own, d, n)
      ensures n in e'.headed
    {
      if d in out && !NextPayload(e, d) {
        OutReads(crc, e, p.own, act, drain, d, n);
      }
    }
  }

  lemma GramPeerReceives(crc: Crc, e: Endpoint, p: Endpoint, toP: set<seq<byte>>, d: seq<byte>)
    requires GramWay(crc, e, p, toP) && d in toP
    ensures GramWay(crc, e, Receive(crc, p, d), toP)
  {
    var parse := Parse(crc, p.own, d);
    if parse.Frame? && FlagOf(parse) == DATAGRAM {
      assert ReadsAsGram(crc, p.own, d, SeqOf(parse.numbers));
    }
  }

  lemma GramStep(crc: Crc, s: Net, m: Move, drain: Drain, rules: Rules)
    requires NetOk(s) && GramWay(crc, s.a, s.b, s.toB) && Fair(s, m, rules)
    requires NoForgedGrams(crc, s.b.own, rules.toB)
    ensures var s' := Step(crc, s, m, drain); GramWay(crc, s'.a, s'.b, s'.toB)
  {
    match m
    case Local(A, act) => GramOwnActs(crc, s.a, s.b, s.toB, act, drain);
    case Local(B, act) =>
    case Deliver(A, d) =>
    case Deliver(B, d) => if d in s.toB { GramPeerReceives(crc, s.a, s.b, s.toB, d); }
    case Stray(A, d) =>
    case Stray(B, d) => StrayForgesNothing(crc, s.b.own, d);
  }

  lemma {:induction false} GramRun(crc: Crc, s: Net, ms: seq<Move>, drain: Drain, rules: Rules)
    requires NetOk(s) && GramWay(crc, s.a, s.b, s.toB) && FairRun(crc, s, ms, drain, rules)
    requires NoForgedGrams(crc, s.b.own, rules.toB)
    ensures var s' := Run(crc, s, ms, drain); GramWay(crc, s'.a, s'.b, s'.toB)
    decreases |ms|
  {
    if ms != [] {
      GramStep(crc, s, ms[0], drain, rules);
      GramRun(crc, Step(crc, s, ms[0], drain), ms[1..], drain, rules);
    }
  }

  // ----- the other direction, by symmetry -----

  function Other(side: Side): Side {
    if side == A then B else A
  }

  function SwapMove(m: Move): Move {
    m.(side := Other(m.side))
  }

  function SwapNet(s: Net): Net {
    Net(s.b, s.a, s.toB, s.toA)
  }

  function SwapAll(ms: seq<Move>): (rs: seq<Move>)
    ensures |rs| == |ms| && forall i :: 0 <= i < |ms| ==> rs[i] == SwapMove(ms[i])
  {
    seq(|ms|, i requires 0 <= i < |ms| => SwapMove(ms[i]))
  }

  function SwapRules(rules: Rules): Rules {
    Rules(rules.toB, rules.toA)
  }

  lemma {:induction false} SwapRun(crc: Crc, s: Net, ms: seq<Move>, drain: Drain, rules: Rules)
    requires NetOk(s)
    ensures Run(crc, SwapNet(s), SwapAll(ms), drain) == SwapNet(Run(crc, s, ms, drain))
    ensures FairRun(crc, SwapNet(s), SwapAll(ms), drain, SwapRules(rules)) <==> FairRun(crc, s, ms, drain, rules)
    decreases |ms|
  {
    if ms != [] {
      assert Step(crc, SwapNet(s), SwapMove(ms[0]), drain) == SwapNet(Step(crc, s, ms[0], drain));
      assert Fair(SwapNet(s), SwapMove(ms[0]), SwapRules(rules)) == Fair(s, ms[0], rules);
      assert SwapAll(ms)[1..] == SwapAll(ms[1..]);
      SwapRun(crc, Step(crc, s, ms[0], drain), ms[1..], drain, rules);
    }
  }

  // ----- the two safety properties -----

  /** A session just opened: the network may still hold handshake leftovers, none
      of which reads as an acknowledgement or a frame. */
  ghost predicate Opened(crc: Crc, s: Net) {
    && s.a.own != 0 && s.b.own != 0
    && (exists window: u16, maxsize: nat ::
          window > 0 && s.a == Open(s.a.own, s.a.peer, window, maxsize)
          && s.b == Open(s.b.own, s.b.peer, window, maxsize))
    && (forall d :: d in s.toA ==> !ForgesAck(crc, s.a.own, d) && !ForgesGram(crc, s.a.own, d))
    && (forall d :: d in s.toB ==> !ForgesAck(crc, s.b.own, d) && !ForgesGram(crc, s.b.own, d))
  }

  lemma OpenedWays(crc: Crc, s: Net)
    requires Opened(crc, s)
    ensures AckWay(crc, s.a, s.b, s.toA) && GramWay(crc, s.a, s.b, s.toB)
    ensures AckWay(crc, s.b, s.a, s.toB) && GramWay(crc, s.b, s.a, s.toA)
  {
  }

  /** Acknowledgement safety: whatever is lost, duplicated, reordered or strayed, a
      side pops a number only if the other side has parsed a valid frame header
      with it, as long as no payload sent to the popping side passes for an
      acknowledgement. It holds of the code as written and of the repair alike. */
  lemma PoppedWasParsed(crc: Crc, s: Net, ms: seq<Move>, drain: Drain, rules: Rules)
    requires Opened(crc, s) && NetOk(s) && FairRun(crc, s, ms, drain, rules)
    ensures var s' := Run(crc, s, ms, drain);
            && (NoForgedAcks(crc, s.a.own, rules.toA) ==> s'.a.popped <= s'.b.parsed)
            && (NoForgedAcks(crc, s.b.own, rules.toB) ==> s'.b.popped <= s'.a.parsed)
  {
    OpenedWays(crc, s);
    if NoForgedAcks(crc, s.a.own, rules.toA) {
      AckRun(crc, s, ms, drain, rules);
    }
    if NoForgedAcks(crc, s.b.own, rules.toB) {
      SwapRun(crc, s, ms, drain, rules);
      AckRun(crc, SwapNet(s), SwapAll(ms), drain, SwapRules(rules));
    }
  }

  /** And a side parses a number only if the other side wrote it into a header, as
      long as no payload sent to it passes for a frame's header. */
  lemma ParsedWasHeaded(crc: Crc, s: Net, ms: seq<Move>, drain: Drain, rules: Rules)
    requires Opened(crc, s) && NetOk(s) && FairRun(crc, s, ms, drain, rules)
    ensures var s' := Run(crc, s, ms, drain);
            && (NoForgedGrams(crc, s.b.own, rules.toB) ==> s'.b.parsed <= s'.a.headed)
            && (NoForgedGrams(crc, s.a.own, rules.toA) ==> s'.a.parsed <= s'.b.headed)
  {
    OpenedWays(crc, s);
    if NoForgedGrams(crc, s.b.own, rules.toB) {
      GramRun(crc, s, ms, drain, rules);
    }
    if NoForgedGrams(crc, s.a.own, rules.toA) {
      SwapRun(crc, s, ms, drain, rules);
      GramRun(crc, SwapNet(s), SwapAll(ms), drain, SwapRules(rules));
    }
  }
}
