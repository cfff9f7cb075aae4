/** One side of an open session: the reader that parses headers and the writer
    that numbers, sends, acknowledges and releases frames. A frame travels as two
    datagrams, its header and its bare payload. */
module Transport {
  import opened Words
  import opened Header
  import opened RingSpec
  import opened SendWindow

  /** `acks` and `grams` are the numbers parseHeader pushed to the writer and the
      writer has still to handle; `ackCh` the numbers with an acknowledgement
      channel, `signalled` those whose channel holds a signal. The last three
      fields record what happened: numbers parsed off datagram headers, numbers
      whose header was written, and numbers popped from the buffer. */
  datatype Endpoint = Endpoint(
    own: u16, peer: u16, sender: Sender,
    acks: set<u32>, grams: set<u32>, ackCh: set<u32>, signalled: set<u32>,
    parsed: set<u32>, headed: set<u32>, popped: set<u32>)

  datatype Action =
    | Put(frame: seq<byte>)
    | Write(outcome: Outcome)
    | HandleAck(n: u32)
    | HandleGram(n: u32)
    | Fire(n: u32)
    | Timeout(n: u32)
    | Close

  function Open(own: u16, peer: u16, window: u16, maxsize: nat): (e: Endpoint)
    requires window > 0
    ensures WellFormed(e.sender.ring)
  {
    Endpoint(own, peer, InitSender(window, maxsize), {}, {}, {}, {}, {}, {}, {})
  }

  /** What one writeFrame puts on the wire. */
  function FrameDatagrams(crc: Crc, peer: u16, p: Pending, outcome: Outcome): seq<seq<byte>> {
    var hdr := Encode(crc, peer, p.seqNum, 0, DATAGRAM as int, |p.frame|, crc(p.frame));
    match outcome
    case NoHeader => []
    case HeaderOnly => [hdr]
    case Complete => [hdr, p.frame]
  }

  function AckDatagram(crc: Crc, peer: u16, n: u32): seq<byte> {
    Encode(crc, peer, 0, n, DATA_ACK as int, 0, 0)
  }

  function Act(crc: Crc, e: Endpoint, act: Action, drain: Drain): (res: (Endpoint, seq<seq<byte>>))
    requires WellFormed(e.sender.ring)
    ensures WellFormed(res.0.sender.ring) && res.0.own == e.own && res.0.peer == e.peer
  {
    match act
    case Put(frame) => (e.(sender := PutFrame(e.sender, frame).0), [])
    case Write(outcome) => WriteHead(crc, e, outcome)
    case HandleAck(n) =>
      (if n in e.acks && n in e.ackCh then e.(signalled := e.signalled + {n}) else e, [])
    case HandleGram(n) =>
      // with frames of its own outstanding the writer stores the number instead,
      // in a buffer passed by value, so the acknowledgement is never sent
      (e, if n in e.grams && e.sender.buffer == map[] then [AckDatagram(crc, e.peer, n)] else [])
    case Fire(n) =>
      (if n in e.sender.waiting && n in e.signalled
       then e.(sender := FireAck(e.sender, n, drain), popped := e.popped + {n}) else e, [])
    case Timeout(n) => (e.(sender := SendWindow.Step(e.sender, SendWindow.Event.Timeout(n), drain)), [])
    case Close => (e, [Encode(crc, e.peer, 0, 0, RMT_CLOSING as int, 0, 0)])
  }

  function WriteHead(crc: Crc, e: Endpoint, outcome: Outcome): (res: (Endpoint, seq<seq<byte>>))
    requires WellFormed(e.sender.ring)
    ensures WellFormed(res.0.sender.ring) && res.0.own == e.own && res.0.peer == e.peer
  {
    if e.sender.queue == [] then (e, [])
    else
      var p := e.sender.queue[0];
      var e' := e.(sender := WriteFrame(e.sender, outcome),
                   headed := if outcome.NoHeader? then e.headed else e.headed + {p.seqNum},
                   ackCh := if outcome.Complete? then e.ackCh + {p.seqNum} else e.ackCh);
      (e', FrameDatagrams(crc, e.peer, p, outcome))
  }

  /** parseHeader on a delivered datagram. */
  function Receive(crc: Crc, e: Endpoint, dgram: seq<byte>): (e': Endpoint) {
    match Parse(crc, e.own, dgram)
    case Frame(numbers, info) =>
      var p := Frame(numbers, info);
      if |numbers| == 8 && |info| == 6 then
        if FlagOf(p) == DATA_ACK then e.(acks := e.acks + {AckOf(numbers)})
        else if FlagOf(p) == DATAGRAM then
          e.(grams := e.grams + {SeqOf(numbers)}, parsed := e.parsed + {SeqOf(numbers)})
        else e
      else e
    case _ => e
  }

  /** The datagram reads as an acknowledgement of n (as a frame's header with
      number n) at the side whose number is own. */
  ghost predicate ReadsAsAck(crc: Crc, own: u16, dgram: seq<byte>, n: u32) {
    var p := Parse(crc, own, dgram);
    p.Frame? && FlagOf(p) == DATA_ACK && AckOf(p.numbers) == n
  }

  ghost predicate ReadsAsGram(crc: Crc, own: u16, dgram: seq<byte>, n: u32) {
    var p := Parse(crc, own, dgram);
    p.Frame? && FlagOf(p) == DATAGRAM && SeqOf(p.numbers) == n
  }

  /** An encoded header reads back as what it was written for, or is refused. */
  lemma EncodedReads(crc: Crc, own: u16, refNum: u16, seqNum: u32, ackNum: u32, flag: byte,
                     fsize: nat, fcrc: u16, n: u32)
    requires own != 0
    ensures var b := Encode(crc, refNum, seqNum, ackNum, flag as int, fsize, fcrc);
            && (ReadsAsAck(crc, own, b, n) <==> refNum == own && flag == DATA_ACK && n == ackNum)
            && (ReadsAsGram(crc, own, b, n) <==> refNum == own && flag == DATAGRAM && n == seqNum)
  {
    var b := Encode(crc, refNum, seqNum, ackNum, flag as int, fsize, fcrc);
    EncodedBytes(crc, refNum, seqNum, ackNum, flag as int, fsize, fcrc);
    GetPutU16(refNum);
    assert Received(b) == b;
    if refNum == own {
      RoundTrip(crc, refNum, seqNum, ackNum, flag as int, fsize, fcrc);
    } else {
      ForeignRefRejected(crc, own, b);
    }
  }

  /** What each action puts on the wire: a frame's header and payload as far as the
      socket takes them, an acknowledgement of a parsed number while nothing of its
      own is buffered, and the closing header, always; nothing else. */
  lemma SentExactly(crc: Crc, e: Endpoint, act: Action, drain: Drain)
    requires WellFormed(e.sender.ring)
    ensures var out := Act(crc, e, act, drain).1;
            match act
            case Write(outcome) =>
              (if e.sender.queue == [] || outcome == NoHeader then out == []
               else
                 var p := e.sender.queue[0];
                 var hdr := Encode(crc, e.peer, p.seqNum, 0, 5, |p.frame|, crc(p.frame));
                 out == if outcome == HeaderOnly then [hdr] else [hdr, p.frame])
            case HandleGram(n) =>
              out == if n in e.grams && e.sender.buffer == map[] then [Encode(crc, e.peer, 0, n, 4, 0, 0)] else []
            case Close => out == [Encode(crc, e.peer, 0, 0, 17, 0, 0)]
            case _ => out == []
  {
  }

  /** What a delivered datagram changes, in bytes: acknowledgements and frames'
      headers pass their number on, and everything else changes nothing. */
  lemma ReceiveExactly(crc: Crc, e: Endpoint, d: seq<byte>)
    ensures Receive(crc, e, d) ==
            if !Addressed(e.own, d) || !Summed(crc, d) then e
            else if ByteAt(d, 10) == 4 then e.(acks := e.acks + {Long(d, 6)})
            else if ByteAt(d, 10) == 5 then e.(grams := e.grams + {Long(d, 2)}, parsed := e.parsed + {Long(d, 2)})
            else e
  {
    ParseExactly(crc, e.own, d);
  }

  /** What each action does to the endpoint beside its sender: only a frame written
      whole gets an acknowledgement channel, a frame whose header is out counts as
      headed, an acknowledgement signals a channel that exists, and only a signalled
      number that is waited for is released. */
  lemma ActExactly(crc: Crc, e: Endpoint, act: Action, drain: Drain, n: u32)
    requires WellFormed(e.sender.ring)
    ensures var e' := Act(crc, e, act, drain).0;
            var head := act.Write? && e.sender.queue != [] && e.sender.queue[0].seqNum == n;
            && e'.own == e.own && e'.peer == e.peer
            && e'.acks == e.acks && e'.grams == e.grams && e'.parsed == e.parsed
            && (n in e'.ackCh <==> n in e.ackCh || (head && act.outcome == Complete))
            && (n in e'.headed <==> n in e.headed || (head && act.outcome != NoHeader))
            && (n in e'.signalled <==> n in e.signalled || (act == HandleAck(n) && n in e.acks && n in e.ackCh))
            && (n in e'.popped <==>
                n in e.popped || (act == Action.Fire(n) && n in e.sender.waiting && n in e.signalled))
  {
  }

  /** And to its sender: the event of the same name, an acknowledged release only once
      it is signalled. */
  lemma SenderActs(crc: Crc, e: Endpoint, act: Action, drain: Drain)
    requires WellFormed(e.sender.ring)
    ensures Act(crc, e, act, drain).0.sender ==
            match act
            case Put(frame) => SendWindow.Step(e.sender, SendWindow.Event.Put(frame), drain)
            case Write(outcome) => SendWindow.Step(e.sender, SendWindow.Event.Write(outcome), drain)
            case Fire(n) =>
              if n in e.signalled then SendWindow.Step(e.sender, SendWindow.Event.Fire(n), drain) else e.sender
            case Timeout(n) => SendWindow.Step(e.sender, SendWindow.Event.Timeout(n), drain)
            case _ => e.sender
  {
  }
}
