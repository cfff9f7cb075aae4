/** The four handshake messages, what each side makes of them, and the order in
    which the dialer and the listener take their steps, over a network that
    loses, duplicates and reorders datagrams and may carry strays. */
module Handshake {
  import opened Words
  import opened Header
  import Transport
  import AckSafety
  import AckExactly

  // HDP_STATE1 codes on the wire
  const ACCEPT_ACK: byte := 2
  const CONNECT: byte := 5
  const CONNECT_ACK: byte := 6
  const CONNECTED: byte := 7

  /** refNum: [own number, peer's number]. */
  datatype Pair = Pair(own: u16, peer: u16)

  datatype Verdict = Passed | SocketFailed | BadSum | WrongPeer | WrongFlag

  /** A number from the clock; it is never 0, so the `refNum[0] != 0` escape of
      the reference checks is never taken. */
  function GetRefNum(nanos: nat): (id: u16)
    ensures 1000 <= id
    ensures nanos % 65536 >= 1000 ==> id == nanos % 65536
    ensures nanos % 65536 < 1000 ==> id < 2000 && id % 1000 == nanos % 65536
  {
    var id := nanos % 65536;
    if id >= 1000 then id else 1000 + id
  }

  // ----- messages -----

  function Message(crc: Crc, ref0: u16, ref1: u16, flag: byte, window: u16): (b: seq<byte>)
    ensures |b| == SIZE
  {
    Seal(crc, MessageBody(ref0, ref1, flag, window))
  }

  function MessageBody(ref0: u16, ref1: u16, flag: byte, window: u16): (b: Body) {
    PutU16(ref0) + PutU16(ref1) + [0, 0, 0, 0, 0, 0] + [flag, 0] + PutU16(window) + [0, 0, 0, 0]
  }

  function Ref0(b: seq<byte>): u16
    requires |b| == SIZE
  {
    GetU16(b[..2])
  }

  function Ref1(b: seq<byte>): u16
    requires |b| == SIZE
  {
    GetU16(b[2..4])
  }

  lemma MessageReads(crc: Crc, ref0: u16, ref1: u16, flag: byte, window: u16)
    ensures var b := Message(crc, ref0, ref1, flag, window);
            && Ref0(b) == ref0 && Ref1(b) == ref1 && b[10] == flag && GetU16(b[12..14]) == window
            && ChecksumOk(crc, b)
  {
    var body := MessageBody(ref0, ref1, flag, window);
    var b := Message(crc, ref0, ref1, flag, window);
    SealIsChecked(crc, body);
    assert b[..2] == body[..2] == PutU16(ref0);
    assert b[2..4] == body[2..4] == PutU16(ref1);
    assert b[12..14] == body[12..14] == PutU16(window);
    GetPutU16(ref0);
    GetPutU16(ref1);
    GetPutU16(window);
  }

  function ConnectMsg(crc: Crc): seq<byte> {
    Message(crc, 0, 0, CONNECT, 0)
  }

  function ConnectAckMsg(crc: Crc, rn: Pair, window: u16): seq<byte> {
    Message(crc, rn.own, 0, CONNECT_ACK, window)
  }

  /** The listener's answer is three datagrams: the message, the length of its
      address in two bytes, and the address as text. */
  function ConnectAckOut(crc: Crc, rn: Pair, window: u16, address: seq<byte>): (out: seq<seq<byte>>)
    ensures |out| == 3
  {
    [ConnectAckMsg(crc, rn, window), PutU16(|address| % 0x1_0000), address]
  }

  predicate IsText(address: seq<byte>) {
    forall i :: 0 <= i < |address| ==> address[i] >= 32
  }

  function AcceptAckMsg(crc: Crc, rn: Pair, window: u16): seq<byte> {
    Message(crc, rn.peer, rn.own, ACCEPT_ACK, window)
  }

  function ConnectedMsg(crc: Crc, rn: Pair): seq<byte> {
    Message(crc, rn.peer, 0, CONNECTED, 0)
  }

  // ----- readers -----

  function OnAccept(crc: Crc, b: seq<byte>): Verdict
    requires |b| == SIZE
  {
    if !ChecksumOk(crc, b) then BadSum
    else if b[10] != CONNECT then WrongFlag
    else Passed
  }

  /** No reference check: the dialer believes whichever acknowledgement comes first. */
  function OnConnectAck(crc: Crc, rn: Pair, b: seq<byte>): (Pair, Verdict)
    requires |b| == SIZE
  {
    if !ChecksumOk(crc, b) then (rn, BadSum)
    else if b[10] != CONNECT_ACK then (rn, WrongFlag)
    else (rn.(peer := Ref0(b)), Passed)
  }

  /** The peer's number is stored before the message is checked against ours. */
  function OnAcceptAck(crc: Crc, rn: Pair, b: seq<byte>): (Pair, Verdict)
    requires |b| == SIZE
  {
    if !ChecksumOk(crc, b) then (rn, BadSum)
    else
      var rn' := rn.(peer := Ref1(b));
      if rn.own != 0 && rn.own != Ref0(b) then (rn', WrongPeer)
      else if b[10] != ACCEPT_ACK then (rn', WrongFlag)
      else (rn', Passed)
  }

  function OnOpenAck(crc: Crc, rn: Pair, b: seq<byte>): Verdict
    requires |b| == SIZE
  {
    if !ChecksumOk(crc, b) then BadSum
    else if rn.own != 0 && rn.own != Ref0(b) then WrongPeer
    else if b[10] != CONNECTED then WrongFlag
    else Passed
  }

  // ----- the two sides on the network -----

  /** Where a side stands in Dial, or in the listener's onAccept: the number of
      steps it has completed, or that one failed. */
  datatype Phase = Done(steps: nat) | Failed

  datatype Session = Session(
    d: Pair, l: Pair, dialer: Phase, listener: Phase, toD: set<seq<byte>>, toL: set<seq<byte>>)

  datatype Move =
    | SendConnect
    | ReadConnect(b: seq<byte>, socketOk: bool)
    | SendConnectAck(window: u16, address: seq<byte>, written: nat)
    | ReadConnectAck(b: seq<byte>, addressOk: bool)
    | SendAcceptAck(window: u16)
    | ReadAcceptAck(b: seq<byte>)
    | SendConnected
    | ReadConnected(b: seq<byte>)
    | DialerFails
    | ListenerFails
    | StrayToDialer(b: seq<byte>)
    | StrayToListener(b: seq<byte>)

  function Advance(v: Verdict, steps: nat): Phase {
    if v == Passed then Done(steps) else Failed
  }

  predicate Busy(p: Phase) {
    p.Done? && p.steps < 4
  }

  function FirstOf(out: seq<seq<byte>>, k: nat): (sent: seq<seq<byte>>)
    ensures sent <= out
  {
    if k < |out| then out[..k] else out
  }

  function Sent(out: seq<seq<byte>>): set<seq<byte>> {
    set b | b in out
  }

  function Start(d: u16, l: u16): Session {
    Session(Pair(d, 0), Pair(l, 0), Done(0), Done(0), {}, {})
  }

  function Step(crc: Crc, s: Session, m: Move): Session {
    match m
    case SendConnect =>
      if s.dialer == Done(0) then s.(dialer := Done(1), toL := s.toL + {ConnectMsg(crc)}) else s
    case ReadConnect(b, socketOk) =>
      // the accepting socket is opened before the message is looked at
      if s.listener == Done(0) && b in s.toL && |b| == SIZE
      then s.(listener := if socketOk then Advance(OnAccept(crc, b), 1) else Failed) else s
    case SendConnectAck(window, address, written) =>
      if s.listener == Done(1) then
        var out := ConnectAckOut(crc, s.l, window, address);
        s.(listener := if written >= 3 then Done(2) else Failed, toD := s.toD + Sent(FirstOf(out, written)))
      else s
    case ReadConnectAck(b, addressOk) =>
      // the pair is overwritten before the address is read
      if s.dialer == Done(1) && b in s.toD && |b| == SIZE then
        var (rn, v) := OnConnectAck(crc, s.d, b);
        s.(d := rn, dialer := if addressOk then Advance(v, 2) else Failed)
      else s
    case SendAcceptAck(window) =>
      if s.dialer == Done(2)
      then s.(dialer := Done(3), toL := s.toL + {AcceptAckMsg(crc, s.d, window)}) else s
    case ReadAcceptAck(b) =>
      if s.listener == Done(2) && b in s.toL && |b| == SIZE then
        var (rn, v) := OnAcceptAck(crc, s.l, b);
        s.(l := rn, listener := Advance(v, 3))
      else s
    case SendConnected =>
      if s.listener == Done(3)
      then s.(listener := Done(4), toD := s.toD + {ConnectedMsg(crc, s.l)}) else s
    case ReadConnected(b) =>
      if s.dialer == Done(3) && b in s.toD && |b| == SIZE
      then s.(dialer := Advance(OnOpenAck(crc, s.d, b), 4)) else s
    case DialerFails => if Busy(s.dialer) then s.(dialer := Failed) else s
    case ListenerFails => if Busy(s.listener) then s.(listener := Failed) else s
    case StrayToDialer(b) => s.(toD := s.toD + {b})
    case StrayToListener(b) => s.(toL := s.toL + {b})
  }

  function Run(crc: Crc, s: Session, ms: seq<Move>): Session
    decreases |ms|
  {
    if ms == [] then s else Run(crc, Step(crc, s, ms[0]), ms[1..])
  }

  /** Strays carry a reference number that is neither side's; addresses are text. */
  predicate Foreign(m: Move, d: u16, l: u16) {
    && (m.StrayToDialer? || m.StrayToListener? ==>
          GetU16(Received(m.b)[..2]) != d && GetU16(Received(m.b)[..2]) != l)
    && (m.SendConnectAck? ==> IsText(m.address))
  }

  predicate ForeignRun(ms: seq<Move>, d: u16, l: u16) {
    forall i :: 0 <= i < |ms| ==> Foreign(ms[i], d, l)
  }

  // ----- agreement -----

  /** Each side holds the other's number. */
  predicate Agreed(s: Session, d: u16, l: u16) {
    s.d == Pair(d, l) && s.l == Pair(l, d)
  }

  predicate AtLeast(p: Phase, steps: nat) {
    p.Done? && p.steps >= steps
  }

  /** The dialer has sent its accept acknowledgement, after which it never
      changes its pair. */
  predicate Committed(s: Session) {
    s.dialer != Done(0) && s.dialer != Done(1) && s.dialer != Done(2)
  }

  /** Only the dialer's own accept acknowledgement carries the listener's number. */
  ghost predicate ListenerBound(s: Session, d: u16, l: u16) {
    forall b :: b in s.toL && Ref0(Received(b)) == l ==>
      |b| == SIZE && b[10] == ACCEPT_ACK && Ref1(b) == d && s.d.peer == l && Committed(s)
  }

  /** An open message for the dialer comes from a listener that has agreed, and
      nothing on its way to the dialer reads as a data header. */
  ghost predicate DialerBound(s: Session, d: u16) {
    forall b :: b in s.toD && Ref0(Received(b)) == d ==> Handshakes(Received(b)[10], AtLeast(s.listener, 4))
  }

  predicate Handshakes(flag: byte, agreed: bool) {
    flag != DATA_ACK && flag != DATAGRAM && (flag == CONNECTED ==> agreed)
  }

  ghost predicate Inv(s: Session, d: u16, l: u16) {
    && s.d.own == d && s.l.own == l
    && ListenerBound(s, d, l) && DialerBound(s, d)
    && (AtLeast(s.listener, 3) ==> Agreed(s, d, l) && Committed(s))
    && (AtLeast(s.dialer, 4) ==> AtLeast(s.listener, 4))
  }

  /** The dialer puts message b on the network. */
  lemma DialerSendKeeps(s: Session, phase: Phase, b: seq<byte>, d: u16, l: u16)
    requires Inv(s, d, l) && |b| == SIZE && phase.Done? && phase.steps < 4
    requires Committed(s) ==> Committed(s.(dialer := phase))
    requires Ref0(b) == l ==>
      b[10] == ACCEPT_ACK && Ref1(b) == d && s.d.peer == l && Committed(s.(dialer := phase))
    ensures Inv(s.(dialer := phase, toL := s.toL + {b}), d, l)
  {
    assert Received(b) == b;
  }

  /** The listener puts message b on the network. */
  lemma ListenerSendKeeps(s: Session, steps: nat, b: seq<byte>, d: u16, l: u16)
    requires Inv(s, d, l) && |b| == SIZE && s.listener.Done? && s.listener.steps < steps
    requires AtLeast(s.listener, 3) || steps < 3
    requires Ref0(b) == d ==> Handshakes(b[10], steps >= 4)
    ensures Inv(s.(listener := Done(steps), toD := s.toD + {b}), d, l)
  {
    assert Received(b) == b;
  }

  /** The listener's three-datagram answer, or as much of it as gets out. */
  lemma AnswerKeeps(crc: Crc, s: Session, m: Move, d: u16, l: u16)
    requires Inv(s, d, l) && m.SendConnectAck? && IsText(m.address)
    ensures Inv(Step(crc, s, m), d, l)
  {
    if s.listener == Done(1) {
      var out := ConnectAckOut(crc, s.l, m.window, m.address);
      AnswerHarmless(crc, s.l, m.window, m.address);
      var phase := if m.written >= 3 then Done(2) else Failed;
      HarmlessKeeps(s, phase, Sent(FirstOf(out, m.written)), d, l);
    }
  }

  lemma AnswerHarmless(crc: Crc, rn: Pair, window: u16, address: seq<byte>)
    requires IsText(address)
    ensures forall b :: b in ConnectAckOut(crc, rn, window, address) ==> Handshakes(Received(b)[10], false)
  {
    var out := ConnectAckOut(crc, rn, window, address);
    MessageReads(crc, rn.own, 0, CONNECT_ACK, window);
    assert Handshakes(Received(out[0])[10], false);
    assert Handshakes(Received(out[1])[10], false);
    assert Handshakes(Received(out[2])[10], false);
    assert forall b :: b in out ==> b == out[0] || b == out[1] || b == out[2];
  }

  lemma HarmlessKeeps(s: Session, phase: Phase, more: set<seq<byte>>, d: u16, l: u16)
    requires Inv(s, d, l) && s.listener == Done(1) && (phase == Done(2) || phase == Failed)
    requires forall b :: b in more ==> Handshakes(Received(b)[10], false)
    ensures Inv(s.(listener := phase, toD := s.toD + more), d, l)
  {
  }

  lemma ReadKeeps(crc: Crc, s: Session, m: Move, d: u16, l: u16)
    requires d >= 1000 && l >= 1000 && Inv(s, d, l)
    requires m.ReadConnect? || m.ReadConnectAck? || m.ReadAcceptAck? || m.ReadConnected?
    ensures Inv(Step(crc, s, m), d, l)
  {
    if |m.b| == SIZE {
      assert Received(m.b) == m.b;
    }
  }

  lemma ConnectKeeps(crc: Crc, s: Session, d: u16, l: u16)
    requires l >= 1000 && Inv(s, d, l)
    ensures Inv(Step(crc, s, SendConnect), d, l)
  {
    if s.dialer == Done(0) {
      MessageReads(crc, 0, 0, CONNECT, 0);
      DialerSendKeeps(s, Done(1), ConnectMsg(crc), d, l);
    }
  }

  lemma AcceptAckReads(crc: Crc, rn: Pair, window: u16)
    ensures var b := AcceptAckMsg(crc, rn, window);
            |b| == SIZE && Ref0(b) == rn.peer && Ref1(b) == rn.own && b[10] == ACCEPT_ACK
  {
    MessageReads(crc, rn.peer, rn.own, ACCEPT_ACK, window);
  }

  lemma AcceptAckSent(crc: Crc, s: Session, window: u16)
    ensures Step(crc, s, SendAcceptAck(window)) ==
            if s.dialer == Done(2) then s.(dialer := Done(3), toL := s.toL + {AcceptAckMsg(crc, s.d, window)}) else s
  {
  }

  lemma AcceptAckKeeps(crc: Crc, s: Session, window: u16, d: u16, l: u16) returns (s': Session)
    requires Inv(s, d, l)
    ensures s' == Step(crc, s, SendAcceptAck(window)) && Inv(s', d, l)
  {
    AcceptAckSent(crc, s, window);
    if s.dialer == Done(2) {
      var b := AcceptAckMsg(crc, s.d, window);
      s' := s.(dialer := Done(3), toL := s.toL + {b});
      AcceptAckReads(crc, s.d, window);
      DialerSendKeeps(s, Done(3), b, d, l);
    } else {
      s' := s;
    }
  }

  lemma ConnectedKeeps(crc: Crc, s: Session, d: u16, l: u16)
    requires d >= 1000 && l >= 1000 && Inv(s, d, l)
    ensures Inv(Step(crc, s, SendConnected), d, l)
  {
    if s.listener == Done(3) {
      MessageReads(crc, s.l.peer, 0, CONNECTED, 0);
      ListenerSendKeeps(s, 4, ConnectedMsg(crc, s.l), d, l);
    }
  }

  lemma StrayKeeps(crc: Crc, s: Session, m: Move, d: u16, l: u16)
    requires Inv(s, d, l) && Foreign(m, d, l)
    requires m.StrayToDialer? || m.StrayToListener? || m.DialerFails? || m.ListenerFails?
    ensures Inv(Step(crc, s, m), d, l)
  {
  }

  lemma StepKeeps(crc: Crc, s: Session, m: Move, d: u16, l: u16)
    requires d >= 1000 && l >= 1000 && Inv(s, d, l) && Foreign(m, d, l)
    ensures Inv(Step(crc, s, m), d, l)
  {
    if m.SendConnect? {
      ConnectKeeps(crc, s, d, l);
    } else if m.SendAcceptAck? {
      var s' := AcceptAckKeeps(crc, s, m.window, d, l);
    } else if m.SendConnectAck? {
      AnswerKeeps(crc, s, m, d, l);
    } else if m.SendConnected? {
      ConnectedKeeps(crc, s, d, l);
    } else if m.StrayToDialer? || m.StrayToListener? || m.DialerFails? || m.ListenerFails? {
      StrayKeeps(crc, s, m, d, l);
    } else {
      ReadKeeps(crc, s, m, d, l);
    }
  }

  lemma {:induction false} RunKeeps(crc: Crc, s: Session, ms: seq<Move>, d: u16, l: u16)
    requires d >= 1000 && l >= 1000 && Inv(s, d, l) && ForeignRun(ms, d, l)
    ensures Inv(Run(crc, s, ms), d, l)
    decreases |ms|
  {
    if ms != [] {
      assert Foreign(ms[0], d, l);
      StepKeeps(crc, s, ms[0], d, l);
      RunKeeps(crc, Step(crc, s, ms[0]), ms[1..], d, l);
    }
  }

  /** Handshake agreement: over any such network, once the dialer has passed its
      last check the two pairs mirror each other; and the listener, once past its
      own check, is already sure of it. */
  lemma Agreement(crc: Crc, ms: seq<Move>, d: u16, l: u16)
    requires d >= 1000 && l >= 1000 && ForeignRun(ms, d, l)
    ensures var s := Run(crc, Start(d, l), ms);
            && (AtLeast(s.dialer, 4) ==> Agreed(s, d, l))
            && (AtLeast(s.listener, 3) ==> Agreed(s, d, l))
  {
    RunKeeps(crc, Start(d, l), ms, d, l);
  }

  /** After agreement each side's headers, handshake or data, pass the other's
      reference check, and no stray does. */
  lemma HeadersPass(crc: Crc, s: Session, d: u16, l: u16,
                    seqNum: u32, ackNum: u32, flag: nat, fsize: nat, frameCrc: u16, stray: seq<byte>)
    requires d >= 1000 && l >= 1000 && Agreed(s, d, l) && flag < 256
    requires GetU16(Received(stray)[..2]) != d && GetU16(Received(stray)[..2]) != l
    ensures var toL, toD := Encode(crc, s.d.peer, seqNum, ackNum, flag, fsize, frameCrc),
                            Encode(crc, s.l.peer, seqNum, ackNum, flag, fsize, frameCrc);
            && Parse(crc, s.l.own, toL) != WrongRef && Parse(crc, s.l.own, toL) != BadChecksum
            && Parse(crc, s.d.own, toD) != WrongRef && Parse(crc, s.d.own, toD) != BadChecksum
    ensures Parse(crc, s.l.own, stray) == Parse(crc, s.d.own, stray) == WrongRef
  {
    RoundTrip(crc, l, seqNum, ackNum, flag, fsize, frameCrc);
    RoundTrip(crc, d, seqNum, ackNum, flag, fsize, frameCrc);
  }

  /** The lower bound on reference numbers matters: a side whose own number were
      0 would take a stray for the peer's open message. */
  lemma ZeroRefTakesStrays(crc: Crc, peer: u16, stray: u16)
    ensures OnOpenAck(crc, Pair(0, peer), Message(crc, stray, 0, CONNECTED, 0)) == Passed
  {
    MessageReads(crc, stray, 0, CONNECTED, 0);
  }

  /** What the handshake leaves on the network reads, to an open side, neither as
      an acknowledgement nor as a frame: the session starts as AckSafety assumes. */
  lemma LeavesCleanNetwork(crc: Crc, ms: seq<Move>, d: u16, l: u16, window: u16, maxsize: nat)
    requires d >= 1000 && l >= 1000 && ForeignRun(ms, d, l) && window > 0
    requires AtLeast(Run(crc, Start(d, l), ms).dialer, 4)
    ensures var s := Run(crc, Start(d, l), ms);
            var net := AckSafety.Net(Transport.Open(s.d.own, s.d.peer, window, maxsize),
                                     Transport.Open(s.l.own, s.l.peer, window, maxsize), s.toD, s.toL);
            AckSafety.Opened(crc, net) && AckExactly.Paired(net)
  {
    RunKeeps(crc, Start(d, l), ms, d, l);
    var s := Run(crc, Start(d, l), ms);
    forall b | b in s.toD
      ensures !AckSafety.ForgesAck(crc, d, b) && !AckSafety.ForgesGram(crc, d, b)
    {
      LeftoverForgesNothing(crc, d, b);
    }
    forall b | b in s.toL
      ensures !AckSafety.ForgesAck(crc, l, b) && !AckSafety.ForgesGram(crc, l, b)
    {
      assert Ref0(Received(b)) == l ==> Received(b) == b;
      LeftoverForgesNothing(crc, l, b);
    }
  }

  lemma LeftoverForgesNothing(crc: Crc, own: u16, b: seq<byte>)
    requires own != 0
    requires Ref0(Received(b)) == own ==> Received(b)[10] != DATA_ACK && Received(b)[10] != DATAGRAM
    ensures !AckSafety.ForgesAck(crc, own, b) && !AckSafety.ForgesGram(crc, own, b)
  {
    if Ref0(Received(b)) != own {
      ForeignRefRejected(crc, own, b);
    }
  }

  /** A dialer past its second step never changes its pair again. */
  lemma {:induction false} PairIsFixed(crc: Crc, s: Session, ms: seq<Move>)
    requires s.dialer != Done(0) && s.dialer != Done(1)
    ensures Run(crc, s, ms).d == s.d
    decreases |ms|
  {
    if ms != [] {
      PairIsFixed(crc, Step(crc, s, ms[0]), ms[1..]);
    }
  }

  /** Until it has read an accept acknowledgement the listener has no peer's number. */
  ghost predicate ListenerUnset(s: Session) {
    s.listener.Done? && s.listener.steps <= 2 ==> s.l.peer == 0
  }

  lemma {:induction false} StaysUnset(crc: Crc, s: Session, ms: seq<Move>)
    requires ListenerUnset(s)
    ensures ListenerUnset(Run(crc, s, ms))
    decreases |ms|
  {
    if ms != [] {
      StaysUnset(crc, Step(crc, s, ms[0]), ms[1..]);
    }
  }

  /** The dialer believes whichever CONNECT_ACK it reads first. In any reachable
      session in which both sides have completed two steps, the handshake can still
      be completed if and only if the number the dialer took is the listener's. */
  lemma CompletableExactly(crc: Crc, before: seq<Move>, d: u16, l: u16)
    requires d >= 1000 && l >= 1000 && ForeignRun(before, d, l)
    requires Run(crc, Start(d, l), before).dialer == Done(2) && Run(crc, Start(d, l), before).listener == Done(2)
    ensures var s := Run(crc, Start(d, l), before);
            (exists ms: seq<Move> :: ForeignRun(ms, d, l) && Run(crc, s, ms).dialer == Done(4)) <==> s.d.peer == l
  {
    var s := Run(crc, Start(d, l), before);
    RunKeeps(crc, Start(d, l), before, d, l);
    StaysUnset(crc, Start(d, l), before);
    if s.d.peer == l {
      var ms := CompletesSecond(crc, s, d, l, 16);
      assert ForeignRun(ms, d, l) && Run(crc, s, ms).dialer == Done(4);
    }
    forall ms: seq<Move> | ForeignRun(ms, d, l) && Run(crc, s, ms).dialer == Done(4)
      ensures s.d.peer == l
    {
      PairIsFixed(crc, s, ms);
      RunAppend(crc, Start(d, l), before, ms);
      Agreement(crc, before + ms, d, l);
    }
  }

  /** And it does take another's: three moves are enough. */
  lemma StrayAckMisleads(crc: Crc, d: u16, l: u16, stray: u16, window: u16, ms: seq<Move>)
    requires d >= 1000 && l >= 1000 && stray != d && stray != l && ForeignRun(ms, d, l)
    ensures var b := ConnectAckMsg(crc, Pair(stray, 0), window);
            var s := Run(crc, Start(d, l), [SendConnect, StrayToDialer(b), ReadConnectAck(b, true)]);
            s.d == Pair(d, stray) && s.dialer == Done(2) && !AtLeast(Run(crc, s, ms).dialer, 4)
  {
    var b := ConnectAckMsg(crc, Pair(stray, 0), window);
    MessageReads(crc, stray, 0, CONNECT_ACK, window);
    var first := [SendConnect, StrayToDialer(b), ReadConnectAck(b, true)];
    var s1 := Step(crc, Start(d, l), first[0]);
    var s2 := Step(crc, s1, first[1]);
    var s := Step(crc, s2, first[2]);
    RunThree(crc, Start(d, l), first[0], first[1], first[2]);
    PairIsFixed(crc, s, ms);
    RunAppend(crc, Start(d, l), first, ms);
    Agreement(crc, first + ms, d, l);
  }

  lemma RunThree(crc: Crc, s: Session, a: Move, b: Move, c: Move)
    ensures Run(crc, s, [a, b, c]) == Step(crc, Step(crc, Step(crc, s, a), b), c)
  {
    var s1 := Step(crc, s, a);
    var s2 := Step(crc, s1, b);
    assert [c][1..] == [] && [b, c][1..] == [c] && [a, b, c][1..] == [b, c];
    assert Run(crc, s2, [c]) == Step(crc, s2, c);
    assert Run(crc, s1, [b, c]) == Run(crc, s2, [c]);
  }

  /** The handshake does complete on a network that behaves. */
  lemma Completes(crc: Crc, d: u16, l: u16, window: u16) returns (ms: seq<Move>)
    requires d >= 1000 && l >= 1000
    ensures ForeignRun(ms, d, l)
    ensures var s := Run(crc, Start(d, l), ms); s.dialer == Done(4) && s.listener == Done(4)
  {
    var s0 := Start(d, l);
    var m1, s1 := CompletesFirst(crc, d, l, window);
    var m2 := CompletesSecond(crc, s1, d, l, window);
    ms := m1 + m2;
    RunAppend(crc, s0, m1, m2);
  }

  lemma CompletesFirst(crc: Crc, d: u16, l: u16, window: u16) returns (ms: seq<Move>, s: Session)
    requires d >= 1000 && l >= 1000
    ensures ForeignRun(ms, d, l) && s == Run(crc, Start(d, l), ms)
    ensures s.dialer == Done(2) && s.listener == Done(2) && s.d == Pair(d, l) && s.l == Pair(l, 0)
  {
    var connect, ack := ConnectMsg(crc), ConnectAckMsg(crc, Pair(l, 0), window);
    MessageReads(crc, 0, 0, CONNECT, 0);
    MessageReads(crc, l, 0, CONNECT_ACK, window);
    ms := [SendConnect, ReadConnect(connect, true), SendConnectAck(window, [], 3), ReadConnectAck(ack, true)];
    assert ack in ConnectAckOut(crc, Pair(l, 0), window, []);
    s := RunFour(crc, Start(d, l), ms[0], ms[1], ms[2], ms[3]);
  }

  lemma CompletesSecond(crc: Crc, s: Session, d: u16, l: u16, window: u16) returns (ms: seq<Move>)
    requires d >= 1000 && l >= 1000
    requires s.dialer == Done(2) && s.listener == Done(2) && s.d == Pair(d, l) && s.l == Pair(l, 0)
    ensures ForeignRun(ms, d, l)
    ensures var s' := Run(crc, s, ms); s'.dialer == Done(4) && s'.listener == Done(4)
  {
    var ack, connected := AcceptAckMsg(crc, Pair(d, l), window), ConnectedMsg(crc, Pair(l, d));
    MessageReads(crc, l, d, ACCEPT_ACK, window);
    MessageReads(crc, d, 0, CONNECTED, 0);
    ms := [SendAcceptAck(window), ReadAcceptAck(ack), SendConnected, ReadConnected(connected)];
    var s' := RunFour(crc, s, ms[0], ms[1], ms[2], ms[3]);
  }

  lemma RunFour(crc: Crc, s: Session, a: Move, b: Move, c: Move, e: Move) returns (s': Session)
    ensures s' == Step(crc, Step(crc, Step(crc, Step(crc, s, a), b), c), e) == Run(crc, s, [a, b, c, e])
  {
    var s1 := Step(crc, s, a);
    var s2 := Step(crc, s1, b);
    var s3 := Step(crc, s2, c);
    s' := Step(crc, s3, e);
    assert Run(crc, s', []) == s';
    assert [e][1..] == [] && [c, e][1..] == [e] && [b, c, e][1..] == [c, e] && [a, b, c, e][1..] == [b, c, e];
    assert Run(crc, s3, [e]) == s';
    assert Run(crc, s2, [c, e]) == s';
    assert Run(crc, s1, [b, c, e]) == s';
  }

  lemma {:induction false} RunAppend(crc: Crc, s: Session, ms: seq<Move>, ns: seq<Move>)
    ensures Run(crc, s, ms + ns) == Run(crc, Run(crc, s, ms), ns)
    decreases |ms|
  {
    if ms == [] {
      assert ms + ns == ns;
    } else {
      assert (ms + ns)[1..] == ms[1..] + ns;
      RunAppend(crc, Step(crc, s, ms[0]), ms[1..], ns);
    }
  }

  // ----- messages and steps in bytes -----

  /** Every byte of the four messages but their sums, and the sums. */
  lemma MessagesInBytes(crc: Crc, rn: Pair, window: u16)
    ensures ConnectMsg(crc)[..16] == [0, 0, 0, 0, 0, 0, 0, 0, 0, 0, 5, 0, 0, 0, 0, 0]
    ensures ConnectAckMsg(crc, rn, window)[..16] ==
            [rn.own % 256, rn.own / 256, 0, 0, 0, 0, 0, 0, 0, 0, 6, 0, window % 256, window / 256, 0, 0]
    ensures AcceptAckMsg(crc, rn, window)[..16] ==
            [rn.peer % 256, rn.peer / 256, rn.own % 256, rn.own / 256, 0, 0, 0, 0, 0, 0,
             2, 0, window % 256, window / 256, 0, 0]
    ensures ConnectedMsg(crc, rn)[..16] ==
            [rn.peer % 256, rn.peer / 256, 0, 0, 0, 0, 0, 0, 0, 0, 7, 0, 0, 0, 0, 0]
    ensures Summed(crc, ConnectMsg(crc)) && Summed(crc, ConnectAckMsg(crc, rn, window))
    ensures Summed(crc, AcceptAckMsg(crc, rn, window)) && Summed(crc, ConnectedMsg(crc, rn))
  {
    MessageInBytes(crc, 0, 0, CONNECT, 0);
    MessageInBytes(crc, rn.own, 0, CONNECT_ACK, window);
    MessageInBytes(crc, rn.peer, rn.own, ACCEPT_ACK, window);
    MessageInBytes(crc, rn.peer, 0, CONNECTED, 0);
  }

  lemma MessageInBytes(crc: Crc, ref0: u16, ref1: u16, flag: byte, window: u16)
    ensures Message(crc, ref0, ref1, flag, window)[..16] ==
            [ref0 % 256, ref0 / 256, ref1 % 256, ref1 / 256, 0, 0, 0, 0, 0, 0,
             flag, 0, window % 256, window / 256, 0, 0]
    ensures Summed(crc, Message(crc, ref0, ref1, flag, window))
  {
    var b := Message(crc, ref0, ref1, flag, window);
    assert b[..16] == MessageBody(ref0, ref1, flag, window)[..16];
    SealIsChecked(crc, MessageBody(ref0, ref1, flag, window));
    ReceivedBytes(b);
    assert Received(b) == b;
  }

  /** The listener's answer in order: the message, then its address's length in two
      bytes, low byte first, then the address. */
  lemma AnswerInBytes(crc: Crc, rn: Pair, window: u16, address: seq<byte>)
    ensures ConnectAckOut(crc, rn, window, address) ==
            [ConnectAckMsg(crc, rn, window), [|address| % 65536 % 256, |address| % 65536 / 256], address]
  {
  }

  /** A header buffer with that flag and a valid sum. */
  ghost predicate Sound(crc: Crc, b: seq<byte>, flag: byte) {
    |b| == 18 && b[10] == flag && Summed(crc, b)
  }

  /** Which check refuses a message, for each of the four readers: the sum first,
      then the reference where there is one, then the flag. */
  lemma VerdictsExactly(crc: Crc, rn: Pair, b: seq<byte>)
    requires |b| == SIZE
    ensures OnAccept(crc, b) == if !Summed(crc, b) then BadSum else if b[10] != 5 then WrongFlag else Passed
    ensures OnConnectAck(crc, rn, b).1 == if !Summed(crc, b) then BadSum else if b[10] != 6 then WrongFlag else Passed
    ensures OnAcceptAck(crc, rn, b).1 ==
            if !Summed(crc, b) then BadSum else if !Addressed(rn.own, b) then WrongPeer
            else if b[10] != 2 then WrongFlag else Passed
    ensures OnOpenAck(crc, rn, b) ==
            if !Summed(crc, b) then BadSum else if !Addressed(rn.own, b) then WrongPeer
            else if b[10] != 7 then WrongFlag else Passed
  {
    ReceivedBytes(b);
    assert Received(b) == b;
  }

  /** What each read step makes of a delivered message, in bytes: a side goes on if
      and only if the message has the step's flag, a valid sum and, on the last two,
      its own reference number; otherwise it has failed. The dialer's pair changes on
      a sound CONNECT_ACK only; the listener's on any message with a valid sum. */
  lemma ReadsExactly(crc: Crc, s: Session, b: seq<byte>, ok: bool)
    requires |b| == SIZE
    ensures s.listener == Done(0) && b in s.toL ==>
              Step(crc, s, ReadConnect(b, ok)) == s.(listener := if ok && Sound(crc, b, 5) then Done(1) else Failed)
    ensures s.dialer == Done(1) && b in s.toD ==>
              Step(crc, s, ReadConnectAck(b, ok)) ==
              s.(d := Pair(s.d.own, if Sound(crc, b, 6) then Word(b, 0) else s.d.peer),
                 dialer := if ok && Sound(crc, b, 6) then Done(2) else Failed)
    ensures s.listener == Done(2) && b in s.toL ==>
              Step(crc, s, ReadAcceptAck(b)) ==
              s.(l := Pair(s.l.own, if Summed(crc, b) then Word(b, 2) else s.l.peer),
                 listener := if Sound(crc, b, 2) && Addressed(s.l.own, b) then Done(3) else Failed)
    ensures s.dialer == Done(3) && b in s.toD ==>
              Step(crc, s, ReadConnected(b)) ==
              s.(dialer := if Sound(crc, b, 7) && Addressed(s.d.own, b) then Done(4) else Failed)
  {
    VerdictsExactly(crc, s.d, b);
    VerdictsExactly(crc, s.l, b);
    ReceivedBytes(b);
    assert Received(b) == b && b[2..4] == [b[2], b[3]];
  }

  /** What a side has been delivered when it is through its steps. */
  ghost predicate Earned(crc: Crc, s: Session) {
    && (AtLeast(s.listener, 1) ==> exists b :: b in s.toL && Sound(crc, b, 5))
    && (AtLeast(s.dialer, 2) ==> exists b :: b in s.toD && Sound(crc, b, 6) && Word(b, 0) == s.d.peer)
    && (AtLeast(s.listener, 3) ==>
          exists b :: b in s.toL && Sound(crc, b, 2) && Addressed(s.l.own, b) && Word(b, 2) == s.l.peer)
    && (AtLeast(s.dialer, 4) ==> exists b :: b in s.toD && Sound(crc, b, 7) && Addressed(s.d.own, b))
  }

  lemma EarnedStep(crc: Crc, s: Session, m: Move)
    requires Earned(crc, s)
    ensures Earned(crc, Step(crc, s, m))
  {
    if (m.ReadConnect? || m.ReadConnectAck? || m.ReadAcceptAck? || m.ReadConnected?) && |m.b| == SIZE {
      ReadsExactly(crc, s, m.b, if m.ReadConnect? then m.socketOk else if m.ReadConnectAck? then m.addressOk else true);
    }
    var s' := Step(crc, s, m);
    assert s.toL <= s'.toL && s.toD <= s'.toD;
  }

  lemma {:induction false} EarnedRun(crc: Crc, s: Session, ms: seq<Move>)
    requires Earned(crc, s)
    ensures Earned(crc, Run(crc, s, ms))
    decreases |ms|
  {
    if ms != [] {
      EarnedStep(crc, s, ms[0]);
      EarnedRun(crc, Step(crc, s, ms[0]), ms[1..]);
    }
  }

  /** In every run a side is through a reading step only if a message with that
      step's flag and a valid sum, and on the last two with its own number, has been
      sent towards it. */
  lemma StepsAreEarned(crc: Crc, ms: seq<Move>, d: u16, l: u16)
    ensures Earned(crc, Run(crc, Start(d, l), ms))
  {
    EarnedRun(crc, Start(d, l), ms);
  }

  /** No stray towards the listener passes for a connect request. */
  ghost predicate NoStrayRequest(crc: Crc, ms: seq<Move>) {
    forall i :: 0 <= i < |ms| && ms[i].StrayToListener? ==> !Sound(crc, ms[i].b, 5)
  }

  ghost predicate RequestsAreSent(crc: Crc, s: Session) {
    forall b :: b in s.toL && Sound(crc, b, 5) ==> s.dialer != Done(0) && b == ConnectMsg(crc)
  }

  lemma {:induction false} RequestsRun(crc: Crc, s: Session, ms: seq<Move>)
    requires RequestsAreSent(crc, s) && NoStrayRequest(crc, ms)
    ensures RequestsAreSent(crc, Run(crc, s, ms))
    decreases |ms|
  {
    if ms != [] {
      RequestsStep(crc, s, ms[0]);
      assert NoStrayRequest(crc, ms[1..]);
      RequestsRun(crc, Step(crc, s, ms[0]), ms[1..]);
    }
  }

  lemma RequestsStep(crc: Crc, s: Session, m: Move)
    requires RequestsAreSent(crc, s) && (m.StrayToListener? ==> !Sound(crc, m.b, 5))
    ensures RequestsAreSent(crc, Step(crc, s, m))
  {
    if m.SendAcceptAck? {
      MessagesInBytes(crc, s.d, m.window);
      assert AcceptAckMsg(crc, s.d, m.window)[..16][10] == 2;
    }
  }

  /** Without such a stray the listener is through its first step only after the
      dialer has sent its request. */
  lemma AcceptsOnlyDialer(crc: Crc, ms: seq<Move>, d: u16, l: u16)
    requires NoStrayRequest(crc, ms)
    ensures var s := Run(crc, Start(d, l), ms);
            AtLeast(s.listener, 1) ==> s.dialer != Done(0) && ConnectMsg(crc) in s.toL
  {
    StepsAreEarned(crc, ms, d, l);
    RequestsRun(crc, Start(d, l), ms);
  }

  /** A side that has failed sends nothing more and keeps its pair. */
  lemma {:induction false} FailedSendsNothing(crc: Crc, s: Session, ms: seq<Move>)
    ensures s.listener == Failed && (forall i :: 0 <= i < |ms| ==> !ms[i].StrayToDialer?) ==>
              var s' := Run(crc, s, ms); s'.listener == Failed && s'.toD == s.toD && s'.l == s.l
    ensures s.dialer == Failed && (forall i :: 0 <= i < |ms| ==> !ms[i].StrayToListener?) ==>
              var s' := Run(crc, s, ms); s'.dialer == Failed && s'.toL == s.toL && s'.d == s.d
    decreases |ms|
  {
    if ms != [] {
      FailedSendsNothing(crc, Step(crc, s, ms[0]), ms[1..]);
    }
  }

  /** The listener gets to send its answer, after whatever else happens, if and only
      if the first message it reads is a connect request with a valid sum. */
  lemma FirstMessageExactly(crc: Crc, s: Session, b: seq<byte>)
    requires s.listener == Done(0) && |b| == SIZE && b in s.toL
    ensures MayAnswer(crc, Step(crc, s, ReadConnect(b, true))) <==> Sound(crc, b, 5)
  {
    ReadsExactly(crc, s, b, true);
    var s1 := Step(crc, s, ReadConnect(b, true));
    if Sound(crc, b, 5) {
      AnswerRun(crc, s1);
    } else {
      forall ms: seq<Move>
        ensures Run(crc, s1, ms).listener == Failed
      {
        FailedStays(crc, s1, ms);
      }
    }
  }

  /** Some continuation brings the listener through the step that sends its answer. */
  ghost predicate MayAnswer(crc: Crc, s: Session) {
    exists ms: seq<Move> :: AtLeast(Run(crc, s, ms).listener, 2)
  }

  lemma AnswerRun(crc: Crc, s: Session)
    requires s.listener == Done(1)
    ensures MayAnswer(crc, s)
  {
    var m := SendConnectAck(16, [], 3);
    var s' := Step(crc, s, m);
    assert [m][1..] == [] && Run(crc, s', []) == s';
    assert Run(crc, s, [m]) == s';
  }

  lemma {:induction false} FailedStays(crc: Crc, s: Session, ms: seq<Move>)
    requires s.listener == Failed
    ensures Run(crc, s, ms).listener == Failed
    decreases |ms|
  {
    if ms != [] {
      FailedStays(crc, Step(crc, s, ms[0]), ms[1..]);
    }
  }

  /** Any other message delivered first ends the accept for good, with nothing sent. */
  lemma OtherFirstSendsNothing(crc: Crc, s: Session, b: seq<byte>, ok: bool, ms: seq<Move>)
    requires s.listener == Done(0) && |b| == SIZE && b in s.toL && !Sound(crc, b, 5)
    requires forall i :: 0 <= i < |ms| ==> !ms[i].StrayToDialer?
    ensures Run(crc, Step(crc, s, ReadConnect(b, ok)), ms).toD == s.toD
  {
    ReadsExactly(crc, s, b, ok);
    FailedSendsNothing(crc, Step(crc, s, ReadConnect(b, ok)), ms);
  }
}
