/** The data-phase writer in place: a ring object, a map of buffered frames, the
    queue of numbered frames and the acknowledgement channels. Each method is one
    event of the writer or of a waiting goroutine, and does to the object what
    Transport.Act does to the value. */
module HdpWrite {
  import opened Words
  import opened Header
  import opened RingSpec
  import opened SendWindow
  import opened Transport
  import opened RingBuffer

  class HdpWrite2 {
    const own: u16
    const peer: u16
    const rb: RingBuffer
    const maxsize: nat
    var buffer: map<u32, seq<byte>>
    var queue: seq<Pending>
    var waiting: set<u32>
    var ackCh: set<u32>
    var signalled: set<u32>
    // events queued by the reader, and what has happened so far
    ghost var acks: set<u32>
    ghost var grams: set<u32>
    ghost var parsed: set<u32>
    ghost var headed: set<u32>
    ghost var popped: set<u32>

    ghost predicate Valid()
      reads this, rb, rb.slots, rb.items
    {
      rb.Valid()
    }

    ghost function View(): Endpoint
      reads this, rb
    {
      Endpoint(own, peer, Sender(rb.model, maxsize, buffer, queue, waiting),
                        acks, grams, ackCh, signalled, parsed, headed, popped)
    }

    constructor (own: u16, peer: u16, windowSize: u16, writeBufferSize: nat)
      requires windowSize > 0
      ensures Valid() && fresh(rb) && fresh(rb.slots) && rb.items == []
      ensures View() == Open(own, peer, windowSize, if writeBufferSize < 16 then 16 else writeBufferSize)
    {
      this.own, this.peer := own, peer;
      rb := new RingBuffer(windowSize);
      maxsize := if writeBufferSize < 16 then 16 else writeBufferSize;
      buffer, queue, waiting, ackCh, signalled := map[], [], {}, {}, {};
      acks, grams, parsed, headed, popped := {}, {}, {}, {}, {};
    }

    method PutFrame(crc: Crc, frame: seq<byte>, drain: Drain) returns (res: PutResult)
      requires Valid()
      modifies this, rb
      ensures Valid() && rb.items == old(rb.items)
      ensures View() == Act(crc, old(View()), Action.Put(frame), drain).0
      ensures res == SendWindow.PutFrame(old(View()).sender, frame).1
    {
      if |buffer| == maxsize {
        return BufferFull;
      }
      var next := rb.NextSeqNum();
      if !next.Next? {
        return Refused(next);
      }
      queue := queue + [Pending(next.seqNum, frame)];
      buffer := buffer[next.seqNum := []];
      return Queued(next.seqNum);
    }

    /** A frame written whole also asks the reader to parse one more datagram. */
    method WriteFrame(crc: Crc, outcome: Outcome) returns (sent: seq<seq<byte>>, askReader: bool)
      requires Valid() && queue != []
      modifies this, rb, rb.slots
      ensures Valid() && |rb.items| >= |old(rb.items)| && rb.items[..|old(rb.items)|] == old(rb.items)
      ensures forall i :: |old(rb.items)| <= i < |rb.items| ==> fresh(rb.items[i])
      ensures View() == WriteHead(crc, old(View()), outcome).0
      ensures sent == FrameDatagrams(crc, peer, old(queue[0]), outcome) && (askReader <==> outcome == Complete)
    {
      var p := queue[0];
      queue := queue[1..];
      if outcome == NoHeader {
        return [], false;
      }
      var hdr := WriteHeader(crc, p);
      headed := headed + {p.seqNum};
      if outcome == HeaderOnly {
        return [hdr], false;
      }
      Install(p.seqNum);
      return [hdr, p.frame], true;
    }

    method WriteHeader(crc: Crc, p: Pending) returns (hdr: seq<byte>)
      ensures hdr == Encode(crc, peer, p.seqNum, 0, DATAGRAM as int, |p.frame|, crc(p.frame))
    {
      var b := WriteHeader1(crc, peer, p.seqNum, 0, DATAGRAM as int, |p.frame|, crc(p.frame));
      return b[..];
    }

    /** Takes the ring slot of frame n and starts waiting for its acknowledgement. */
    method Install(n: u32)
      requires Valid()
      modifies this`ackCh, this`waiting, rb, rb.slots
      ensures Valid() && |rb.items| == |old(rb.items)| + 1
      ensures rb.items[..|old(rb.items)|] == old(rb.items) && fresh(rb.items[|old(rb.items)|])
      ensures rb.model == SetNextItem(old(rb.model), n)
      ensures ackCh == old(ackCh) + {n} && waiting == old(waiting) + {n}
    {
      rb.SetNextItem(n);
      ackCh := ackCh + {n};
      waiting := waiting + {n};
    }

    /** The peer's frame n is acknowledged at once, unless frames of ours are out. */
    method AcknowSeqnum(crc: Crc, n: u32, drain: Drain) returns (sent: seq<seq<byte>>)
      requires Valid() && n in grams
      ensures (View(), sent) == Act(crc, View(), HandleGram(n), drain)
    {
      if |buffer| == 0 {
        var hdr := WriteHeader1(crc, peer, 0, n, DATA_ACK as int, 0, 0);
        return [hdr[..]];
      }
      return [];
    }

    method ResetAckSeqnum(crc: Crc, n: u32, drain: Drain)
      requires Valid() && n in acks
      modifies this`signalled
      ensures Valid()
      ensures View() == Act(crc, old(View()), HandleAck(n), drain).0
    {
      if n in ackCh {
        signalled := signalled + {n};
      }
    }

    /** The goroutine of frame n, woken by its acknowledgement channel. */
    method OnAcknowledged(crc: Crc, n: u32, drain: Drain)
      requires Valid() && n in waiting && n in signalled
      modifies this, rb, rb.items
      ensures Valid() && rb.items == old(rb.items)
      ensures View() == Act(crc, old(View()), Action.Fire(n), drain).0
    {
      var res := rb.UpdateAckSeqNum(n, drain);
      buffer := buffer - {n};
      waiting := waiting - {n};
      popped := popped + {n};
    }

    /** The goroutine of frame n, woken by its timer instead. */
    method OnTimeout(crc: Crc, n: u32, drain: Drain)
      requires Valid()
      modifies this`waiting
      ensures Valid()
      ensures View() == Act(crc, old(View()), Action.Timeout(n), drain).0
    {
      waiting := waiting - {n};
    }

    method SendClosing(crc: Crc, drain: Drain) returns (sent: seq<seq<byte>>)
      requires Valid()
      ensures (View(), sent) == Act(crc, View(), Close, drain)
    {
      var hdr := WriteHeader1(crc, peer, 0, 0, RMT_CLOSING as int, 0, 0);
      return [hdr[..]];
    }
  }
}
