/** The handshake as the transport runs it: a reader and a writer share one pair
    of reference numbers in place, header buffers are filled and checked in
    place, and Dial and the listener's onAccept take their steps in order and
    stop at the first error. */
module HandshakeIo {
  import opened Words
  import opened Header
  import opened Handshake

  /** Fills a header buffer and seals it, as each of the four writers does. */
  method Compose(crc: Crc, ref0: u16, ref1: u16, flag: byte, window: u16) returns (b: array<byte>)
    ensures fresh(b) && b[..] == Message(crc, ref0, ref1, flag, window)
  {
    b := new byte[18](_ => 0);
    assert b[4..] == seq(14, _ => 0);
    PutRefs(b, ref0, ref1);
    assert b[4..10] == b[4..][..6] && b[11] == b[4..][7] && b[14..] == b[4..][10..];
    PutFlag(b, flag, window);
    assert b[4..10] == b[..10][4..];
    BodyInParts(b[..], ref0, ref1, flag, window);
    PutU16At(b, 16, crc(b[..]));
  }

  lemma BodyInParts(b: seq<byte>, ref0: u16, ref1: u16, flag: byte, window: u16)
    requires |b| == SIZE && b[..4] == PutU16(ref0) + PutU16(ref1) && b[4..10] == [0, 0, 0, 0, 0, 0]
    requires b[10] == flag && b[11] == 0 && b[12..14] == PutU16(window) && b[14..] == [0, 0, 0, 0]
    ensures b == MessageBody(ref0, ref1, flag, window)
  {
    assert b[..10] == b[..4] + b[4..10];
    assert b == b[..10] + [b[10], b[11]] + b[12..14] + b[14..];
  }

  method PutRefs(b: array<byte>, ref0: u16, ref1: u16)
    requires b.Length == SIZE
    modifies b
    ensures b[..4] == PutU16(ref0) + PutU16(ref1)
    ensures b[4..] == old(b[4..])
  {
    PutU16At(b, 0, ref0);
    PutU16At(b, 2, ref1);
  }

  method PutFlag(b: array<byte>, flag: byte, window: u16)
    requires b.Length == SIZE
    modifies b
    ensures b[..10] == old(b[..10]) && b[10] == flag && b[11] == old(b[11])
    ensures b[12..14] == PutU16(window) && b[14..] == old(b[14..])
  {
    b[10] := flag;
    PutU16At(b, 12, window);
  }

  /** hdpRead1: its pair is shared with the writer, its window size is its own. */
  class Reader {
    const refNum: array<u16>
    var windowSize: u16

    ghost predicate Valid() {
      refNum.Length == 2
    }

    ghost function Numbers(): Pair
      requires Valid()
      reads refNum
    {
      Pair(refNum[0], refNum[1])
    }

    constructor (refNum: array<u16>)
      requires refNum.Length == 2
      ensures Valid() && this.refNum == refNum && windowSize == 16
    {
      this.refNum := refNum;
      windowSize := 16;
    }

    /** The accepting socket is opened first; opening it may fail. */
    method OnAccept(crc: Crc, b: array<byte>, socketOk: bool) returns (v: Verdict)
      requires b.Length == SIZE
      modifies b
      ensures v == if socketOk then Handshake.OnAccept(crc, old(b[..])) else SocketFailed
    {
      if !socketOk {
        return SocketFailed;
      }
      var ok := VerifyChecksum1(crc, b);
      if !ok {
        return BadSum;
      }
      if b[10] != CONNECT {
        return WrongFlag;
      }
      return Passed;
    }

    /** The peer's address is read last, when the pair and the window are already
        overwritten; reading it may fail. */
    method OnConnectAcknow(crc: Crc, b: array<byte>, addressOk: bool) returns (v: Verdict)
      requires Valid() && b.Length == SIZE
      modifies b, refNum, this`windowSize
      ensures var (rn, checked) := OnConnectAck(crc, old(Numbers()), old(b[..]));
              && Numbers() == rn
              && v == (if checked == Passed && !addressOk then SocketFailed else checked)
              && windowSize == if checked == Passed then GetU16(old(b[12..14])) else old(windowSize)
    {
      ghost var was := b[..];
      var ok := VerifyChecksum1(crc, b);
      if !ok {
        return BadSum;
      }
      if b[10] != CONNECT_ACK {
        return WrongFlag;
      }
      assert was[..2] == [b[0], b[1]] && was[12..14] == [b[12], b[13]];
      refNum[1] := GetU16([b[0], b[1]]);
      windowSize := GetU16([b[12], b[13]]);
      return if addressOk then Passed else SocketFailed;
    }

    method OnAcceptAcknow(crc: Crc, b: array<byte>) returns (v: Verdict)
      requires Valid() && b.Length == SIZE
      modifies b, refNum, this`windowSize
      ensures (Numbers(), v) == OnAcceptAck(crc, old(Numbers()), old(b[..]))
      ensures windowSize == if v == Passed then GetU16(old(b[12..14])) else old(windowSize)
    {
      ghost var was := b[..];
      var ok := VerifyChecksum1(crc, b);
      if !ok {
        return BadSum;
      }
      assert was[..2] == [b[0], b[1]] && was[2..4] == [b[2], b[3]] && was[12..14] == [b[12], b[13]];
      var ref := GetU16([b[0], b[1]]);
      refNum[1] := GetU16([b[2], b[3]]);
      if refNum[0] != 0 && refNum[0] != ref {
        return WrongPeer;
      }
      if b[10] != ACCEPT_ACK {
        return WrongFlag;
      }
      windowSize := GetU16([b[12], b[13]]);
      return Passed;
    }

    method OnOpenAcknow(crc: Crc, b: array<byte>) returns (v: Verdict)
      requires Valid() && b.Length == SIZE
      modifies b
      ensures v == OnOpenAck(crc, old(Numbers()), old(b[..]))
    {
      ghost var was := b[..];
      var own := refNum[0];
      var ok := VerifyChecksum1(crc, b);
      if !ok {
        return BadSum;
      }
      assert was[..2] == [b[0], b[1]];
      if own != 0 && own != GetU16([b[0], b[1]]) {
        return WrongPeer;
      }
      if b[10] != CONNECTED {
        return WrongFlag;
      }
      return Passed;
    }
  }

  /** hdpWrite1: the peer's window size never reaches this copy. */
  class Writer {
    const refNum: array<u16>
    const windowSize: u16

    ghost predicate Valid() {
      refNum.Length == 2
    }

    ghost function Numbers(): Pair
      requires Valid()
      reads refNum
    {
      Pair(refNum[0], refNum[1])
    }

    constructor (refNum: array<u16>)
      requires refNum.Length == 2
      ensures Valid() && this.refNum == refNum && windowSize == 16
    {
      this.refNum := refNum;
      windowSize := 16;
    }

    method ConnectHdp(crc: Crc) returns (b: array<byte>)
      ensures fresh(b) && b[..] == ConnectMsg(crc)
    {
      b := Compose(crc, 0, 0, CONNECT, 0);
    }

    /** Header, address length and address, as far as the socket takes them. */
    method AcknowConnect(crc: Crc, address: seq<byte>, written: nat) returns (sent: seq<seq<byte>>)
      requires Valid()
      ensures sent == FirstOf(ConnectAckOut(crc, Numbers(), windowSize, address), written)
    {
      if written == 0 {
        return [];
      }
      var b := Compose(crc, refNum[0], 0, CONNECT_ACK, windowSize);
      sent := [b[..]];
      if written == 1 {
        return;
      }
      var size := new byte[2](_ => 0);
      PutU16At(size, 0, |address| % 0x1_0000);
      assert size[..] == PutU16(|address| % 0x1_0000);
      sent := sent + [size[..]];
      if written == 2 {
        return;
      }
      return sent + [address];
    }

    method AcknowAccept(crc: Crc) returns (b: array<byte>)
      requires Valid()
      ensures fresh(b) && b[..] == AcceptAckMsg(crc, Numbers(), windowSize)
    {
      b := Compose(crc, refNum[1], refNum[0], ACCEPT_ACK, windowSize);
    }

    method AcknowOpen(crc: Crc) returns (b: array<byte>)
      requires Valid()
      ensures fresh(b) && b[..] == ConnectedMsg(crc, Numbers())
    {
      b := Compose(crc, refNum[1], 0, CONNECTED, 0);
    }
  }

  // ----- the two orders of steps -----

  /** Which of the socket calls of a dial, or of an accept, succeed; of the
      listener's answer, how many of its three datagrams get out. */
  datatype DialIo = DialIo(connectOk: bool, ackOk: bool, addressOk: bool, acceptOk: bool, lastOk: bool)
  datatype AcceptIo = AcceptIo(readOk: bool, socketOk: bool, written: nat, ackOk: bool, openOk: bool)

  /** Numbers after the call, datagrams sent, and whether a connection came out. */
  datatype Dialled = Dialled(rn: Pair, sent: seq<seq<byte>>, open: bool)

  function DialSpec(crc: Crc, rn: Pair, window: u16, ack: seq<byte>, last: seq<byte>, io: DialIo): Dialled
    requires |ack| == SIZE && |last| == SIZE
  {
    if !io.connectOk then Dialled(rn, [], false)
    else if !io.ackOk then Dialled(rn, [ConnectMsg(crc)], false)
    else
      var (rn1, v) := OnConnectAck(crc, rn, ack);
      if v != Passed || !io.addressOk || !io.acceptOk then Dialled(rn1, [ConnectMsg(crc)], false)
      else Dialled(rn1, [ConnectMsg(crc), AcceptAckMsg(crc, rn1, window)],
                        io.lastOk && OnOpenAck(crc, rn1, last) == Passed)
  }

  function AcceptSpec(crc: Crc, rn: Pair, window: u16, address: seq<byte>,
                      connect: seq<byte>, ack: seq<byte>, io: AcceptIo): Dialled
    requires |connect| == SIZE && |ack| == SIZE
  {
    if !io.readOk || !io.socketOk || OnAccept(crc, connect) != Passed then Dialled(rn, [], false)
    else
      var sent := FirstOf(ConnectAckOut(crc, rn, window, address), io.written);
      if io.written < 3 || !io.ackOk then Dialled(rn, sent, false)
      else
        var (rn1, v) := OnAcceptAck(crc, rn, ack);
        if v != Passed || !io.openOk then Dialled(rn1, sent, false)
        else Dialled(rn1, sent + [ConnectedMsg(crc, rn1)], true)
  }

  /** Dial's four steps on the two headers the network delivers to it. */
  method Dial(crc: Crc, r: Reader, w: Writer, ack: array<byte>, last: array<byte>, io: DialIo)
    returns (open: bool, sent: seq<seq<byte>>)
    requires r.Valid() && w.Valid() && r.refNum == w.refNum
    requires ack.Length == SIZE && last.Length == SIZE && ack != last
    modifies r, r.refNum, ack, last
    ensures Dialled(r.Numbers(), sent, open)
            == DialSpec(crc, old(r.Numbers()), w.windowSize, old(ack[..]), old(last[..]), io)
  {
    if !io.connectOk {
      return false, [];
    }
    var b := w.ConnectHdp(crc);
    sent := [b[..]];
    if !io.ackOk {
      return false, sent;
    }
    var v := r.OnConnectAcknow(crc, ack, io.addressOk);
    if v != Passed || !io.acceptOk {
      return false, sent;
    }
    b := w.AcknowAccept(crc);
    sent := sent + [b[..]];
    if !io.lastOk {
      return false, sent;
    }
    v := r.OnOpenAcknow(crc, last);
    return v == Passed, sent;
  }

  /** The listener's onAccept on the two headers delivered to it. */
  method AcceptOne(crc: Crc, r: Reader, w: Writer, address: seq<byte>,
                   connect: array<byte>, ack: array<byte>, io: AcceptIo)
    returns (open: bool, sent: seq<seq<byte>>)
    requires r.Valid() && w.Valid() && r.refNum == w.refNum
    requires connect.Length == SIZE && ack.Length == SIZE && connect != ack
    modifies r, r.refNum, connect, ack
    ensures Dialled(r.Numbers(), sent, open)
            == AcceptSpec(crc, old(r.Numbers()), w.windowSize, address, old(connect[..]), old(ack[..]), io)
  {
    sent := [];
    if !io.readOk {
      return false, sent;
    }
    var v := r.OnAccept(crc, connect, io.socketOk);
    if v != Passed {
      return false, sent;
    }
    sent := w.AcknowConnect(crc, address, io.written);
    if io.written < 3 || !io.ackOk {
      return false, sent;
    }
    v := r.OnAcceptAcknow(crc, ack);
    if v != Passed || !io.openOk {
      return false, sent;
    }
    var b := w.AcknowOpen(crc);
    sent := sent + [b[..]];
    return true, sent;
  }

  function DialMoves(window: u16, ack: seq<byte>, last: seq<byte>, io: DialIo): (ms: seq<Move>)
    ensures |ms| == 4
  {
    [if io.connectOk then SendConnect else DialerFails,
     if io.ackOk then ReadConnectAck(ack, io.addressOk) else DialerFails,
     if io.acceptOk then SendAcceptAck(window) else DialerFails,
     if io.lastOk then ReadConnected(last) else DialerFails]
  }

  function AcceptMoves(window: u16, address: seq<byte>, connect: seq<byte>, ack: seq<byte>, io: AcceptIo)
    : (ms: seq<Move>)
    ensures |ms| == 4
  {
    [if io.readOk then ReadConnect(connect, io.socketOk) else ListenerFails,
     SendConnectAck(window, address, io.written),
     if io.ackOk then ReadAcceptAck(ack) else ListenerFails,
     if io.openOk then SendConnected else ListenerFails]
  }

  /** Dial is the dialer of the session machine: run on headers that are on the
      network, with whichever socket calls failing, it sends what the machine's
      dialer sends, ends with the same numbers, and returns a connection exactly
      when the machine's dialer is through its fourth step. */
  lemma DialIsTheDialer(crc: Crc, s: Session, window: u16, ack: seq<byte>, last: seq<byte>, io: DialIo)
    requires s.dialer == Done(0) && |ack| == SIZE && |last| == SIZE && ack in s.toD && last in s.toD
    ensures var s' := Handshake.Run(crc, s, DialMoves(window, ack, last, io));
            var res := DialSpec(crc, s.d, window, ack, last, io);
            && s'.d == res.rn && (s'.dialer == Done(4) <==> res.open)
            && s'.toL == s.toL + Sent(res.sent)
            && s'.l == s.l && s'.listener == s.listener && s'.toD == s.toD
  {
    var ms := DialMoves(window, ack, last, io);
    var s' := RunFour(crc, s, ms[0], ms[1], ms[2], ms[3]);
    var s2 := DialHalf(crc, s, window, ack, last, io);
    assert Sent([ConnectMsg(crc)]) == {ConnectMsg(crc)};
  }

  /** Dial's first two steps. */
  lemma DialHalf(crc: Crc, s: Session, window: u16, ack: seq<byte>, last: seq<byte>, io: DialIo) returns (s2: Session)
    requires s.dialer == Done(0) && |ack| == SIZE && |last| == SIZE && ack in s.toD
    ensures var ms := DialMoves(window, ack, last, io);
            s2 == Handshake.Step(crc, Handshake.Step(crc, s, ms[0]), ms[1])
    ensures var (rn1, v) := OnConnectAck(crc, s.d, ack);
            && s2.d == (if io.connectOk && io.ackOk then rn1 else s.d)
            && s2.dialer == (if io.connectOk && io.ackOk && v == Passed && io.addressOk then Done(2) else Failed)
            && s2.toL == s.toL + (if io.connectOk then {ConnectMsg(crc)} else {})
            && s2.l == s.l && s2.listener == s.listener && s2.toD == s.toD
  {
    var ms := DialMoves(window, ack, last, io);
    var s1 := Handshake.Step(crc, s, ms[0]);
    s2 := Handshake.Step(crc, s1, ms[1]);
  }

  lemma AcceptIsTheListener(crc: Crc, s: Session, window: u16, address: seq<byte>,
                            connect: seq<byte>, ack: seq<byte>, io: AcceptIo)
    requires s.listener == Done(0) && |connect| == SIZE && |ack| == SIZE && connect in s.toL && ack in s.toL
    ensures var s' := Handshake.Run(crc, s, AcceptMoves(window, address, connect, ack, io));
            var res := AcceptSpec(crc, s.l, window, address, connect, ack, io);
            && s'.l == res.rn && (s'.listener == Done(4) <==> res.open)
            && s'.toD == s.toD + Sent(res.sent)
            && s'.d == s.d && s'.dialer == s.dialer && s'.toL == s.toL
  {
    var ms := AcceptMoves(window, address, connect, ack, io);
    var s' := RunFour(crc, s, ms[0], ms[1], ms[2], ms[3]);
  }

  /** When Dial returns a connection, and what it has sent, in bytes. */
  lemma DialExactly(crc: Crc, rn: Pair, window: u16, ack: seq<byte>, last: seq<byte>, io: DialIo)
    requires |ack| == SIZE && |last| == SIZE
    ensures var res := DialSpec(crc, rn, window, ack, last, io);
            var two := io.connectOk && io.ackOk && Sound(crc, ack, 6) && io.addressOk && io.acceptOk;
            && (res.open <==> two && io.lastOk && Sound(crc, last, 7) && Addressed(rn.own, last))
            && res.rn == Pair(rn.own, if io.connectOk && io.ackOk && Sound(crc, ack, 6) then Word(ack, 0) else rn.peer)
            && res.sent == (if io.connectOk then [ConnectMsg(crc)] else [])
                           + (if two then [AcceptAckMsg(crc, res.rn, window)] else [])
  {
    VerdictsExactly(crc, rn, ack);
    VerdictsExactly(crc, OnConnectAck(crc, rn, ack).0, last);
    ReceivedBytes(ack);
    assert Received(ack) == ack;
  }

  /** The same of the listener: among other things it sends nothing unless the first
      message is a connect request with a valid sum. */
  lemma AcceptExactly(crc: Crc, rn: Pair, window: u16, address: seq<byte>,
                      connect: seq<byte>, ack: seq<byte>, io: AcceptIo)
    requires |connect| == SIZE && |ack| == SIZE
    ensures var res := AcceptSpec(crc, rn, window, address, connect, ack, io);
            var one := io.readOk && io.socketOk && Sound(crc, connect, 5);
            var two := one && io.written >= 3 && io.ackOk;
            var out := [ConnectAckMsg(crc, rn, window), [|address| % 65536 % 256, |address| % 65536 / 256], address];
            && (res.open <==> two && Sound(crc, ack, 2) && Addressed(rn.own, ack) && io.openOk)
            && res.rn == Pair(rn.own, if two && Summed(crc, ack) then Word(ack, 2) else rn.peer)
            && res.sent == (if !one then [] else if io.written < 3 then out[..io.written] else out)
                           + (if res.open then [ConnectedMsg(crc, res.rn)] else [])
  {
    VerdictsExactly(crc, rn, connect);
    VerdictsExactly(crc, rn, ack);
    AnswerInBytes(crc, rn, window, address);
    ReceivedBytes(ack);
    assert Received(ack) == ack && ack[2..4] == [ack[2], ack[3]];
  }
}
