/** The reader's answer to a user's read, from the datagrams on the socket to the
    bytes in the user's frame: queued bytes first, else a header, then its
    payload, peeked and queued when the user's frame is too small for it. */
module FrameStream {
  import opened Words
  import opened Header
  import opened ReadSpec
  import SendWindow
  import Transport

  datatype Reader = Reader(sock: Socket, chunks: Chunks)

  /** What the read request hears: nothing at all, that an acknowledgement was
      read in place of a frame, a failure before any payload, or the bytes. */
  datatype Reply = Silent | AckSeen | Failed(why: IoErr) | Data(bytes: seq<byte>, err: Option<IoErr>)

  /** read3: f is the user's frame, dsize and sum the header's. */
  function Fetch(crc: Crc, r: Reader, f: seq<byte>, dsize: nat, sum: u16): (res: (Reader, Reply))
    requires NoneEmpty(r.chunks)
    ensures NoneEmpty(res.0.chunks)
  {
    if r.sock == [] then (r, Data([], Some(Again)))
    else
      var n := Min(|r.sock[0]|, |f|);
      var got := r.sock[0][..n];
      if |f| >= dsize then
        var err := if n == 0 then Some(Eof) else if crc((got + f[n..])[..dsize]) != sum then Some(Checksum) else None;
        (r.(sock := r.sock[1..]), Data(got, err))
      else if n == 0 then (r, Data([], Some(Eof)))
      else
        // the remainder's error, its checksum's included, is only logged
        var (rest, b) := Fill(r.sock, dsize);
        (Reader(rest, if b.Some? then r.chunks + [b.value[n..]] else r.chunks), Data(got, None))
  }

  /** readFrame, with parseHeader and read2. */
  function ReadFrame(crc: Crc, own: u16, r: Reader, f: seq<byte>, rule: DropRule): (res: (Reader, Reply))
    requires NoneEmpty(r.chunks)
    ensures NoneEmpty(res.0.chunks)
  {
    if r.chunks != [] then
      var more := Read(r.chunks, |f|, rule);
      (r.(chunks := more.rest), Data(more.bytes, None))
    else if r.sock == [] then (r, Failed(Eof))
    else
      var r1 := r.(sock := r.sock[1..]);
      if r.sock[0] == [] then (r1, Failed(Eof))
      else
        match Parse(crc, own, r.sock[0])
        case WrongRef => (r1, Failed(WrongPeer))
        case BadChecksum => (r1, Failed(HeaderSum))
        case PeerClosing => (r1, Failed(Eof))
        case Frame(numbers, info) =>
          if info[0] == DATA_ACK then (r1, AckSeen)
          else if f == [] then (r1, Silent)
          else Fetch(crc, r1, f, SizeOf(info), FrameCrcOf(info))
  }

  function BytesOf(reply: Reply): seq<byte> {
    if reply.Data? then reply.bytes else []
  }

  /** Successive reads into frames fs: the reader afterwards and all bytes given. */
  function ReadFrames(crc: Crc, own: u16, r: Reader, fs: seq<seq<byte>>, rule: DropRule): (res: (Reader, seq<byte>))
    requires NoneEmpty(r.chunks)
    ensures NoneEmpty(res.0.chunks)
    decreases |fs|
  {
    if fs == [] then (r, [])
    else
      var (r1, reply) := ReadFrame(crc, own, r, fs[0], rule);
      var (r2, more) := ReadFrames(crc, own, r1, fs[1..], rule);
      (r2, BytesOf(reply) + more)
  }

  // ----- what waits on the socket -----

  /** A frame as its writer sends it, header and payload, or a datagram that is no
      frame's header: an acknowledgement, a stray, a damaged or an empty one. */
  datatype Item = Sent(p: SendWindow.Pending) | Noise(d: seq<byte>)

  predicate Sound(crc: Crc, own: u16, item: Item) {
    match item
    case Sent(p) => |p.frame| < 0x1_0000
    case Noise(d) =>
      d == [] ||
      match Parse(crc, own, d)
      case Frame(_, info) => info[0] == DATA_ACK
      case _ => true
  }

  function Wire(crc: Crc, own: u16, items: seq<Item>): Socket {
    if items == [] then []
    else
      (match items[0]
       case Sent(p) => Transport.FrameDatagrams(crc, own, p, SendWindow.Complete)
       case Noise(d) => [d]) + Wire(crc, own, items[1..])
  }

  function Payloads(items: seq<Item>): seq<byte> {
    if items == [] then []
    else (if items[0].Sent? then items[0].p.frame else []) + Payloads(items[1..])
  }

  /** Enough reads to take every byte and every other datagram. */
  function Cost(items: seq<Item>): nat {
    if items == [] then 0
    else (if items[0].Sent? && items[0].p.frame != [] then |items[0].p.frame| else 1) + Cost(items[1..])
  }

  ghost predicate Carries(crc: Crc, own: u16, r: Reader, items: seq<Item>) {
    && r.sock == Wire(crc, own, items) && NoneEmpty(r.chunks)
    && forall i :: 0 <= i < |items| ==> Sound(crc, own, items[i])
  }

  function Left(r: Reader, items: seq<Item>): nat {
    |Contents(r.chunks)| + Cost(items)
  }

  function All(r: Reader, items: seq<Item>): seq<byte> {
    Contents(r.chunks) + Payloads(items)
  }

  // ----- one read -----

  predicate EmptyNext(r: Reader, items: seq<Item>) {
    r.chunks == [] && items != [] && items[0].Sent? && items[0].p.frame == []
  }

  /** A read that found r and items leaves r' and items': no byte is lost, repeated
      or moved, something is taken, and no payload is refused; an empty payload, and
      no other, is reported as end of file. */
  ghost predicate Took(crc: Crc, own: u16, r: Reader, items: seq<Item>, r': Reader, items': seq<Item>, reply: Reply) {
    && Carries(crc, own, r', items')
    && All(r, items) == BytesOf(reply) + All(r', items')
    && Left(r', items') < Left(r, items)
    && (reply.Data? ==> reply.err == (if EmptyNext(r, items) then Some(Eof) else None))
    && (reply.Data? ==> (reply.bytes == [] <==> EmptyNext(r, items)))
  }

  lemma QueuedRead(crc: Crc, own: u16, r: Reader, items: seq<Item>, f: seq<byte>)
    requires Carries(crc, own, r, items) && f != [] && r.chunks != []
    ensures var (r', reply) := ReadFrame(crc, own, r, f, DropCopied);
            Took(crc, own, r, items, r', items, reply)
  {
    var all := Contents(r.chunks);
    ContentsFirst(r.chunks);
    ReadGives(r.chunks, |f|, DropCopied);
    var n := Min(|f|, |all|);
    Cut(all, n, Payloads(items));
  }

  lemma NoiseRead(crc: Crc, own: u16, r: Reader, items: seq<Item>, f: seq<byte>)
    requires Carries(crc, own, r, items) && r.chunks == [] && items != [] && items[0].Noise?
    ensures var (r', reply) := ReadFrame(crc, own, r, f, DropCopied);
            Took(crc, own, r, items, r', items[1..], reply)
  {
    assert Sound(crc, own, items[0]);
    assert r.sock == [items[0].d] + Wire(crc, own, items[1..]);
  }

  /** Whatever a frame's header announces, its reader fetches from what follows it. */
  lemma HeaderFetches(crc: Crc, own: u16, n: u32, size: nat, sum: u16, rest: Socket, f: seq<byte>, rule: DropRule)
    requires f != [] && size < 0x1_0000
    ensures ReadFrame(crc, own, Reader([Encode(crc, own, n, 0, DATAGRAM as int, size, sum)] + rest, []), f, rule)
            == Fetch(crc, Reader(rest, []), f, size, sum)
  {
    RoundTrip(crc, own, n, 0, DATAGRAM as int, size, sum);
    var sock := [Encode(crc, own, n, 0, DATAGRAM as int, size, sum)] + rest;
    assert sock[1..] == rest;
  }

  /** A frame's header leads its reader to the payload, with its true size and sum. */
  lemma HeaderLeads(crc: Crc, own: u16, r: Reader, p: SendWindow.Pending, rest: Socket, f: seq<byte>, rule: DropRule)
    requires r.sock == Transport.FrameDatagrams(crc, own, p, SendWindow.Complete) + rest
    requires r.chunks == [] && f != [] && |p.frame| < 0x1_0000
    ensures ReadFrame(crc, own, r, f, rule) == Fetch(crc, Reader([p.frame] + rest, []), f, |p.frame|, crc(p.frame))
  {
    var hdr := Encode(crc, own, p.seqNum, 0, DATAGRAM as int, |p.frame|, crc(p.frame));
    HeaderFetches(crc, own, p.seqNum, |p.frame|, crc(p.frame), [p.frame] + rest, f, rule);
    assert [hdr, p.frame] + rest == [hdr] + ([p.frame] + rest);
    assert r == Reader([hdr] + ([p.frame] + rest), []);
  }

  /** What is fetched of a payload that waits whole: all of it, or a prefix with
      the remainder queued. */
  lemma FetchWaiting(crc: Crc, payload: seq<byte>, rest: Socket, f: seq<byte>)
    requires f != [] && payload != []
    ensures Fetch(crc, Reader([payload] + rest, []), f, |payload|, crc(payload)) ==
            if |f| >= |payload| then (Reader(rest, []), Data(payload, None))
            else (Reader(rest, [payload[|f|..]]), Data(payload[..|f|], None))
  {
    var sock := [payload] + rest;
    assert sock[1..] == rest;
    if |f| >= |payload| {
      var n := |payload|;
      assert payload[..n] == payload;
      assert (payload + f[n..])[..n] == payload;
    } else {
      FillWhole(payload, rest);
      assert [] + [payload[|f|..]] == [payload[|f|..]];
    }
  }

  lemma SentRead(crc: Crc, own: u16, r: Reader, items: seq<Item>, f: seq<byte>)
    requires Carries(crc, own, r, items) && f != [] && r.chunks == [] && items != [] && items[0].Sent?
    ensures var (r', reply) := ReadFrame(crc, own, r, f, DropCopied);
            Took(crc, own, r, items, r', items[1..], reply)
  {
    assert Sound(crc, own, items[0]);
    var p, rest := items[0].p, Wire(crc, own, items[1..]);
    HeaderLeads(crc, own, r, p, rest, f, DropCopied);
    if p.frame == [] {
      assert ([p.frame] + rest)[1..] == rest;
      return;
    }
    FetchWaiting(crc, p.frame, rest, f);
    if |f| < |p.frame| {
      PartTaken(crc, own, r, items, Reader(rest, [p.frame[|f|..]]), |f|);
    } else {
      PartTaken(crc, own, r, items, Reader(rest, []), |p.frame|);
    }
  }

  /** Taking n bytes of the first payload, the others queued if there are any. */
  lemma PartTaken(crc: Crc, own: u16, r: Reader, items: seq<Item>, r': Reader, n: nat)
    requires Carries(crc, own, r, items) && r.chunks == [] && items != [] && items[0].Sent?
    requires 0 < n <= |items[0].p.frame| && r'.sock == Wire(crc, own, items[1..])
    requires r'.chunks == if n < |items[0].p.frame| then [items[0].p.frame[n..]] else []
    ensures Took(crc, own, r, items, r', items[1..], Data(items[0].p.frame[..n], None))
  {
    var payload := items[0].p.frame;
    ContentsOne(payload[n..]);
    Cut(payload, n, Payloads(items[1..]));
    assert [] + (payload + Payloads(items[1..])) == payload + Payloads(items[1..]);
  }

  lemma Cut(a: seq<byte>, n: nat, b: seq<byte>)
    requires n <= |a|
    ensures a + b == a[..n] + (a[n..] + b)
  {
    assert a == a[..n] + a[n..];
  }

  /** A read into any non-empty frame takes something while anything is left, and
      reports end of file when nothing is. */
  lemma OneRead(crc: Crc, own: u16, r: Reader, items: seq<Item>, f: seq<byte>) returns (items': seq<Item>)
    requires Carries(crc, own, r, items) && f != []
    ensures var (r', reply) := ReadFrame(crc, own, r, f, DropCopied);
            if Left(r, items) == 0 then r' == r && items' == items && reply == Failed(Eof)
            else Took(crc, own, r, items, r', items', reply)
  {
    if r.chunks != [] {
      items' := items;
      QueuedRead(crc, own, r, items, f);
    } else if items == [] {
      items' := items;
    } else {
      items' := items[1..];
      assert Sound(crc, own, items[0]);
      if items[0].Sent? { SentRead(crc, own, r, items, f); } else { NoiseRead(crc, own, r, items, f); }
    }
  }

  predicate SaysEof(reply: Reply) {
    reply == Failed(Eof) || (reply.Data? && reply.err == Some(Eof))
  }

  /** A read into a non-empty frame reports end of file exactly when nothing is
      queued and nothing is left, or next comes an empty payload, an empty datagram,
      or the other side's closing header. */
  lemma EofExactly(crc: Crc, own: u16, r: Reader, items: seq<Item>, f: seq<byte>)
    requires Carries(crc, own, r, items) && f != []
    ensures SaysEof(ReadFrame(crc, own, r, f, DropCopied).1) <==>
            r.chunks == [] &&
            (items == [] ||
             match items[0]
             case Sent(p) => p.frame == []
             case Noise(d) => d == [] || Parse(crc, own, d) == PeerClosing)
  {
    if r.chunks == [] && items != [] {
      assert Sound(crc, own, items[0]);
      if items[0].Sent? {
        SentRead(crc, own, r, items, f);
        HeaderLeads(crc, own, r, items[0].p, Wire(crc, own, items[1..]), f, DropCopied);
      } else {
        assert r.sock == [items[0].d] + Wire(crc, own, items[1..]);
      }
    }
  }

  /** Whatever the sizes of the user's frames and whatever else arrives between
      the frames sent, successive reads give the payloads' bytes in order, each
      once; and enough of them give every byte and leave nothing behind. */
  lemma {:induction false} FramesInOrder(crc: Crc, own: u16, r: Reader, items: seq<Item>, fs: seq<seq<byte>>)
    requires Carries(crc, own, r, items)
    requires forall i :: 0 <= i < |fs| ==> fs[i] != []
    ensures var (r', got) := ReadFrames(crc, own, r, fs, DropCopied);
            && got <= All(r, items)
            && (|fs| >= Left(r, items) ==> got == All(r, items) && r'.sock == [] && r'.chunks == [])
    decreases |fs|
  {
    if |fs| > 0 {
      var items1 := OneRead(crc, own, r, items, fs[0]);
      var (r1, reply) := ReadFrame(crc, own, r, fs[0], DropCopied);
      FramesInOrder(crc, own, r1, items1, fs[1..]);
    }
    if Left(r, items) == 0 {
      NothingLeft(r, items);
    }
  }

  lemma NothingLeft(r: Reader, items: seq<Item>)
    requires NoneEmpty(r.chunks) && Left(r, items) == 0
    ensures r.chunks == [] && items == [] && All(r, items) == []
  {
  }

  /** An empty payload is the exception: reading it reports end of file, though
      more frames may follow. */
  lemma EmptyPayloadReadsAsEof(crc: Crc, own: u16, n: u32, rest: Socket, f: seq<byte>, rule: DropRule)
    requires f != []
    ensures var p := SendWindow.Pending(n, []);
            ReadFrame(crc, own, Reader(Transport.FrameDatagrams(crc, own, p, SendWindow.Complete) + rest, []), f, rule)
            == (Reader(rest, []), Data([], Some(Eof)))
  {
    var p := SendWindow.Pending(n, []);
    var sock := Transport.FrameDatagrams(crc, own, p, SendWindow.Complete) + rest;
    HeaderLeads(crc, own, Reader(sock, []), p, rest, f, rule);
    assert ([p.frame] + rest)[1..] == rest;
  }

  // ----- when a payload is refused -----

  /** A payload that does not have the checksum its header announces is refused if
      and only if the user's frame is large enough for it: otherwise the prefix is
      given and the rest queued as if it were sound. */
  lemma RefusedExactly(crc: Crc, own: u16, n: u32, payload: seq<byte>, sum: u16, rest: Socket,
                       f: seq<byte>, rule: DropRule)
    requires f != [] && 0 < |payload| < 0x1_0000
    ensures var hdr := Encode(crc, own, n, 0, DATAGRAM as int, |payload|, sum);
            var (r', reply) := ReadFrame(crc, own, Reader([hdr] + ([payload] + rest), []), f, rule);
            && reply.Data? && (reply.err == None || reply.err == Some(Checksum))
            && (reply.err == Some(Checksum) <==> |f| >= |payload| && crc(payload) != sum)
            && reply.bytes + Contents(r'.chunks) == payload && r'.sock == rest
  {
    HeaderFetches(crc, own, n, |payload|, sum, [payload] + rest, f, rule);
    var sock := [payload] + rest;
    assert sock[1..] == rest;
    if |f| >= |payload| {
      assert payload[..|payload|] == payload && (payload + f[|payload|..])[..|payload|] == payload;
      assert payload + [] == payload;
    } else {
      FillWhole(payload, rest);
      assert [] + [payload[|f|..]] == [payload[|f|..]];
      ContentsOne(payload[|f|..]);
    }
  }

  /** When a payload is lost, whatever datagram comes after its header is given to
      the user in its place. This goes unreported if and only if the datagram is not
      empty and either the user's frame is smaller than the payload was, or the frame
      as the datagram leaves it has the lost payload's checksum. */
  lemma LostPayloadTakesNext(crc: Crc, own: u16, n: u32, size: nat, sum: u16, next: seq<byte>, rest: Socket,
                             f: seq<byte>, rule: DropRule)
    requires f != [] && size < 0x1_0000
    ensures var hdr := Encode(crc, own, n, 0, DATAGRAM as int, size, sum);
            var reply := ReadFrame(crc, own, Reader([hdr] + ([next] + rest), []), f, rule).1;
            var front := next[..Min(|next|, |f|)];
            && reply.Data? && reply.bytes == front
            && (reply.err == None <==>
                next != [] && (|f| < size || crc((front + f[|front|..])[..size]) == sum))
  {
    HeaderFetches(crc, own, n, size, sum, [next] + rest, f, rule);
  }

  // ----- any socket whatever: bytes may be lost, but not repeated, moved or made up -----

  /** a is b with some of its bytes left out. */
  predicate Within(a: seq<byte>, b: seq<byte>)
    decreases |b|
  {
    a == [] || (b != [] && (Within(a, b[1..]) || (a[0] == b[0] && Within(a[1..], b[1..]))))
  }

  lemma {:induction false} WithinSame(p: seq<byte>, a: seq<byte>, b: seq<byte>)
    requires Within(a, b)
    ensures Within(p + a, p + b)
    decreases |p|
  {
    if p == [] {
      assert p + a == a && p + b == b;
    } else {
      WithinSame(p[1..], a, b);
      assert (p + a)[1..] == p[1..] + a && (p + b)[1..] == p[1..] + b;
    }
  }

  lemma {:induction false} WithinMore(p: seq<byte>, a: seq<byte>, b: seq<byte>)
    requires Within(a, b)
    ensures Within(a, p + b)
    decreases |p|
  {
    if p == [] {
      assert p + b == b;
    } else {
      WithinMore(p[1..], a, b);
      assert (p + b)[1..] == p[1..] + b;
    }
  }

  lemma {:induction false} WithinTrans(a: seq<byte>, b: seq<byte>, c: seq<byte>)
    requires Within(a, b) && Within(b, c)
    ensures Within(a, c)
    decreases |c|
  {
    if a != [] {
      if Within(b, c[1..]) {
        WithinTrans(a, b, c[1..]);
      } else if Within(a, b[1..]) {
        WithinTrans(a, b[1..], c[1..]);
      } else {
        WithinTrans(a[1..], b[1..], c[1..]);
      }
    }
  }

  lemma WithinSelf(a: seq<byte>)
    ensures Within(a, a)
  {
    WithinSame(a, [], []);
    assert a + [] == a;
  }

  function Flatten(sock: Socket): seq<byte> {
    if sock == [] then [] else sock[0] + Flatten(sock[1..])
  }

  /** Everything the reader could still give: queued, then on the socket. */
  function Unread(r: Reader): seq<byte> {
    Contents(r.chunks) + Flatten(r.sock)
  }

  /** A front of the first datagram, then something of the others. */
  lemma FrontWithin(sock: Socket, k: nat, a: seq<byte>)
    requires sock != [] && k <= |sock[0]| && Within(a, Flatten(sock[1..]))
    ensures Within(sock[0][..k] + a, Flatten(sock))
  {
    var d, tail := sock[0], Flatten(sock[1..]);
    WithinMore(d[k..], a, tail);
    WithinSame(d[..k], a, d[k..] + tail);
    Cut(d, k, tail);
  }

  lemma {:induction false} FillWithin(sock: Socket, n: nat)
    ensures var (rest, b) := Fill(sock, n);
            && Within(Flatten(rest), Flatten(sock))
            && (sock != [] && n > 0 ==> Within(Flatten(rest), Flatten(sock[1..])))
            && (b.Some? ==> Within(b.value + Flatten(rest), Flatten(sock)))
            && (b.Some? && n > 0 ==> sock != [] && sock[0][..Min(|sock[0]|, n)] <= b.value)
    decreases n
  {
    var (rest, b) := Fill(sock, n);
    if n == 0 || sock == [] {
      WithinSelf(Flatten(sock));
      assert b.Some? ==> b.value + Flatten(rest) == Flatten(rest);
    } else {
      WithinSelf(Flatten(sock[1..]));
      if sock[0] != [] {
        FillSteps(sock, n);
      }
      WithinMore(sock[0], Flatten(rest), Flatten(sock[1..]));
    }
  }

  lemma FillSteps(sock: Socket, n: nat)
    requires n > 0 && sock != [] && sock[0] != []
    ensures var (rest, b) := Fill(sock, n);
            && Within(Flatten(rest), Flatten(sock[1..]))
            && (b.Some? ==> Within(b.value + Flatten(rest), Flatten(sock)))
    decreases n, 0
  {
    var front := sock[0][..Min(|sock[0]|, n)];
    FillWithin(sock[1..], n - |front|);
    var (rest, more) := Fill(sock[1..], n - |front|);
    assert Fill(sock, n) == (rest, match more case Some(m) => Some(front + m) case None => None);
    if more.Some? {
      FrontWithin(sock, |front|, more.value + Flatten(rest));
      Joined(front, more.value, Flatten(rest));
    }
  }

  lemma Joined(a: seq<byte>, b: seq<byte>, c: seq<byte>)
    ensures a + (b + c) == a + b + c
  {
  }

  lemma FetchWithin(crc: Crc, sock: Socket, f: seq<byte>, dsize: nat, sum: u16)
    requires f != []
    ensures var (r', reply) := Fetch(crc, Reader(sock, []), f, dsize, sum);
            Within(BytesOf(reply) + Unread(r'), Flatten(sock))
  {
    var (r', reply) := Fetch(crc, Reader(sock, []), f, dsize, sum);
    if sock == [] {
      assert BytesOf(reply) + Unread(r') == [];
    } else {
      var n := Min(|sock[0]|, |f|);
      WithinSelf(Flatten(sock[1..]));
      if |f| >= dsize {
        FrontWithin(sock, n, Flatten(sock[1..]));
        assert Unread(r') == Flatten(sock[1..]);
      } else if n == 0 {
        WithinSelf(Flatten(sock));
        assert BytesOf(reply) + Unread(r') == Flatten(sock);
      } else {
        PeekWithin(sock, n, dsize);
        var b := Fill(sock, dsize).1;
        if b.Some? {
          assert [] + [b.value[n..]] == [b.value[n..]];
        }
      }
    }
  }

  /** A prefix peeked, then the whole datagrams taken. */
  lemma PeekWithin(sock: Socket, n: nat, dsize: nat)
    requires sock != [] && 0 < n <= |sock[0]| && n < dsize
    ensures var (rest, b) := Fill(sock, dsize);
            var queued := if b.Some? then Contents([b.value[n..]]) else [];
            Within(sock[0][..n] + (queued + Flatten(rest)), Flatten(sock))
  {
    FillWithin(sock, dsize);
    var (rest, b) := Fill(sock, dsize);
    if b.Some? {
      ContentsOne(b.value[n..]);
      assert b.value[..n] == sock[0][..n];
      Cut(b.value, n, Flatten(rest));
    } else {
      FrontWithin(sock, n, Flatten(rest));
      assert [] + Flatten(rest) == Flatten(rest);
    }
  }

  lemma ReadWithin(crc: Crc, own: u16, r: Reader, f: seq<byte>)
    requires NoneEmpty(r.chunks)
    ensures var (r', reply) := ReadFrame(crc, own, r, f, DropCopied);
            Within(BytesOf(reply) + Unread(r'), Unread(r))
  {
    var (r', reply) := ReadFrame(crc, own, r, f, DropCopied);
    if r.chunks != [] {
      var all := Contents(r.chunks);
      ReadGives(r.chunks, |f|, DropCopied);
      Cut(all, Min(|f|, |all|), Flatten(r.sock));
      WithinSelf(Unread(r));
    } else if r.sock == [] {
      assert BytesOf(reply) + Unread(r') == [];
    } else {
      HeaderGone(crc, own, r, f);
    }
  }

  lemma HeaderGone(crc: Crc, own: u16, r: Reader, f: seq<byte>)
    requires r.chunks == [] && r.sock != []
    ensures var (r', reply) := ReadFrame(crc, own, r, f, DropCopied);
            Within(BytesOf(reply) + Unread(r'), Unread(r))
  {
    var (r', reply) := ReadFrame(crc, own, r, f, DropCopied);
    var rest := Flatten(r.sock[1..]);
    var parsed := Parse(crc, own, r.sock[0]);
    if r.sock[0] != [] && parsed.Frame? && parsed.info[0] != DATA_ACK && f != [] {
      FetchWithin(crc, r.sock[1..], f, SizeOf(parsed.info), FrameCrcOf(parsed.info));
      assert r.(sock := r.sock[1..]) == Reader(r.sock[1..], []);
    } else {
      WithinSelf(rest);
      assert BytesOf(reply) + Unread(r') == rest;
    }
    WithinMore(r.sock[0], BytesOf(reply) + Unread(r'), rest);
    assert Unread(r) == r.sock[0] + rest;
  }

  /** What the reader is asked to do: a read of the user's, or the read of one
      datagram that the writer asks for after each frame, whose outcome reaches
      nobody's frame. */
  datatype Call = UserRead(f: seq<byte>) | WriterAsks

  function Serve(crc: Crc, own: u16, r: Reader, call: Call, rule: DropRule): (res: (Reader, Reply))
    requires NoneEmpty(r.chunks)
    ensures NoneEmpty(res.0.chunks)
  {
    match call
    case UserRead(f) => ReadFrame(crc, own, r, f, rule)
    case WriterAsks => (if r.sock == [] then r else r.(sock := r.sock[1..]), Silent)
  }

  function ServeAll(crc: Crc, own: u16, r: Reader, calls: seq<Call>, rule: DropRule): (res: (Reader, seq<byte>))
    requires NoneEmpty(r.chunks)
    ensures NoneEmpty(res.0.chunks)
    decreases |calls|
  {
    if calls == [] then (r, [])
    else
      var (r1, reply) := Serve(crc, own, r, calls[0], rule);
      var (r2, more) := ServeAll(crc, own, r1, calls[1..], rule);
      (r2, BytesOf(reply) + more)
  }

  lemma ServeWithin(crc: Crc, own: u16, r: Reader, call: Call)
    requires NoneEmpty(r.chunks)
    ensures var (r', reply) := Serve(crc, own, r, call, DropCopied);
            Within(BytesOf(reply) + Unread(r'), Unread(r))
  {
    match call
    case UserRead(f) => ReadWithin(crc, own, r, f);
    case WriterAsks =>
      var (r', reply) := Serve(crc, own, r, call, DropCopied);
      assert BytesOf(reply) + Unread(r') == Unread(r');
      WithinSelf(Unread(r));
      if r.sock != [] {
        WithinSelf(Flatten(r'.sock));
        WithinMore(r.sock[0], Flatten(r'.sock), Flatten(r'.sock));
        WithinSame(Contents(r.chunks), Flatten(r'.sock), Flatten(r.sock));
      }
  }

  /** Whatever the network has lost, reordered or damaged, and whatever the writer
      makes the reader take away, as meant the user's reads give bytes of the queue
      and the socket in their order, none of them twice. */
  lemma {:induction false} NothingInvented(crc: Crc, own: u16, r: Reader, calls: seq<Call>)
    requires NoneEmpty(r.chunks)
    ensures var (r', got) := ServeAll(crc, own, r, calls, DropCopied);
            Within(got + Unread(r'), Unread(r))
    decreases |calls|
  {
    if calls == [] {
      WithinSelf(Unread(r));
      assert [] + Unread(r) == Unread(r);
    } else {
      var (r1, reply) := Serve(crc, own, r, calls[0], DropCopied);
      var (r2, more) := ServeAll(crc, own, r1, calls[1..], DropCopied);
      NothingInvented(crc, own, r1, calls[1..]);
      ServeWithin(crc, own, r, calls[0]);
      WithinSame(BytesOf(reply), more + Unread(r2), Unread(r1));
      WithinTrans(BytesOf(reply) + (more + Unread(r2)), BytesOf(reply) + Unread(r1), Unread(r));
      Joined(BytesOf(reply), more, Unread(r2));
    }
  }

  // ----- one payload read in pieces, in either version -----

  function Sizes(fs: seq<seq<byte>>): (ks: seq<nat>)
    ensures |ks| == |fs|
  {
    seq(|fs|, i requires 0 <= i < |fs| => |fs[i]|)
  }

  lemma {:induction false} DrySocket(crc: Crc, own: u16, c: Chunks, fs: seq<seq<byte>>, rule: DropRule)
    requires NoneEmpty(c)
    ensures ReadFrames(crc, own, Reader([], c), fs, rule).1 == Stream(c, Sizes(fs), rule)
    decreases |fs|
  {
    if fs != [] {
      var more := Read(c, |fs[0]|, rule);
      assert Sizes(fs)[1..] == Sizes(fs[1..]);
      if c == [] {
        assert more.bytes == [] && more.rest == [];
      }
      DrySocket(crc, own, more.rest, fs[1..], rule);
    }
  }

  /** SplitRead is what the reader gives of one frame sent, when the first of the
      user's frames is too small for it. */
  lemma SplitReadIsRead(crc: Crc, own: u16, p: SendWindow.Pending, f: seq<byte>, fs: seq<seq<byte>>, rule: DropRule)
    requires 0 < |f| < |p.frame| < 0x1_0000
    ensures ReadFrames(crc, own, Reader(Wire(crc, own, [Sent(p)]), []), [f] + fs, rule).1
            == SplitRead(p.frame, |f|, Sizes(fs), rule)
  {
    var r := Reader(Wire(crc, own, [Sent(p)]), []);
    assert [Sent(p)][1..] == [] && Wire(crc, own, []) == [];
    HeaderLeads(crc, own, r, p, [], f, rule);
    FetchWaiting(crc, p.frame, [], f);
    assert ([f] + fs)[1..] == fs;
    DrySocket(crc, own, [p.frame[|f|..]], fs, rule);
  }

  // ----- every reply -----

  /** The datagram reads as a frame's header. */
  predicate LeadsFrame(crc: Crc, own: u16, d: seq<byte>) {
    d != [] && Addressed(own, d) && Summed(crc, d) && ByteAt(d, 10) != 4 && ByteAt(d, 10) != 17
  }

  /** With nothing queued, the reply is decided by the next datagram's bytes: another
      reference, a wrong sum, an acknowledgement, an empty datagram or the closing
      flag, or a frame's header; and all but the last of these take that datagram and
      nothing else. */
  lemma ReplyExactly(crc: Crc, own: u16, d: seq<byte>, rest: Socket, f: seq<byte>, rule: DropRule)
    ensures var (r', reply) := ReadFrame(crc, own, Reader([d] + rest, []), f, rule);
            && (reply == Failed(WrongPeer) <==> d != [] && !Addressed(own, d))
            && (reply == Failed(HeaderSum) <==> d != [] && Addressed(own, d) && !Summed(crc, d))
            && (reply == AckSeen <==> d != [] && Addressed(own, d) && Summed(crc, d) && ByteAt(d, 10) == 4)
            && (reply == Failed(Eof) <==>
                d == [] || (Addressed(own, d) && Summed(crc, d) && ByteAt(d, 10) == 17))
            && (reply == Silent <==> LeadsFrame(crc, own, d) && f == [])
            && (reply.Data? <==> LeadsFrame(crc, own, d) && f != [])
            && (!reply.Data? ==> r' == Reader(rest, []))
  {
    var sock := [d] + rest;
    assert sock[1..] == rest;
    ParseExactly(crc, own, d);
  }

  /** An acknowledgement sent to this reader is seen as one, and the other side's
      closing notice ends the stream. */
  lemma AcksAndClosings(crc: Crc, own: u16, n: u32, rest: Socket, f: seq<byte>, rule: DropRule)
    ensures ReadFrame(crc, own, Reader([Transport.AckDatagram(crc, own, n)] + rest, []), f, rule)
            == (Reader(rest, []), AckSeen)
    ensures ReadFrame(crc, own, Reader([Encode(crc, own, 0, 0, 17, 0, 0)] + rest, []), f, rule)
            == (Reader(rest, []), Failed(Eof))
  {
    var ack, closing := Transport.AckDatagram(crc, own, n), Encode(crc, own, 0, 0, 17, 0, 0);
    EncodedInBytes(crc, own, 0, n, 4, 0, 0);
    EncodedInBytes(crc, own, 0, 0, 17, 0, 0);
    assert ack[..16][0] == own % 256 && ack[..16][1] == own / 256 && ack[..16][10] == 4;
    assert closing[..16][0] == own % 256 && closing[..16][1] == own / 256 && closing[..16][10] == 17;
    ReplyExactly(crc, own, ack, rest, f, rule);
    ReplyExactly(crc, own, closing, rest, f, rule);
  }

  // ----- what a read takes from the socket -----

  predicate AllFull(ds: Socket) {
    forall i :: 0 <= i < |ds| ==> ds[i] != []
  }

  /** Filling n bytes takes whole datagrams until they reach n, and cuts the last;
      an empty datagram or a dry socket on the way fails it, with what was taken lost. */
  lemma {:induction false} FillExactly(ds: Socket, rest: Socket, n: nat)
    requires AllFull(ds) && n > 0
    ensures |Flatten(ds)| < n && rest == [] ==> Fill(ds + rest, n) == ([], None)
    ensures |Flatten(ds)| < n && rest != [] && rest[0] == [] ==> Fill(ds + rest, n) == (rest[1..], None)
    ensures ds != [] && |Flatten(ds[..|ds| - 1])| < n <= |Flatten(ds)| ==>
              Fill(ds + rest, n) == (rest, Some(Flatten(ds)[..n]))
    decreases |ds|
  {
    if ds == [] {
      assert ds + rest == rest;
    } else {
      var d, tail := ds[0], ds[1..];
      assert (ds + rest)[1..] == tail + rest && (ds + rest)[0] == d;
      if |d| < n {
        FillExactly(tail, rest, n - |d|);
        assert d[..|d|] == d;
        if tail != [] {
          assert ds[..|ds| - 1] == [d] + tail[..|tail| - 1];
          assert ([d] + tail[..|tail| - 1])[1..] == tail[..|tail| - 1];
          assert |Flatten(ds)| >= n ==> Flatten(ds)[..n] == d + Flatten(tail)[..n - |d|];
        }
      } else {
        FillOne(d, tail, rest, n);
      }
    }
  }

  lemma FillOne(d: seq<byte>, tail: Socket, rest: Socket, n: nat)
    requires n > 0 && |d| >= n && AllFull([d] + tail)
    ensures tail == [] ==> Fill([d] + tail + rest, n) == (rest, Some(d[..n]))
    ensures Flatten([d] + tail) == d + Flatten(tail) && (d + Flatten(tail))[..n] == d[..n]
    ensures tail != [] ==> |Flatten(([d] + tail)[..|tail|])| >= |d|
  {
    assert ([d] + tail)[1..] == tail;
    if tail == [] {
      var sock := [d] + tail + rest;
      assert sock[0] == d && sock[1..] == rest;
      assert Fill(rest, 0) == (rest, Some([])) && d[..n] + [] == d[..n];
    } else {
      var front := ([d] + tail)[..|tail|];
      assert front[0] == d;
    }
  }

  /** After a header whose payload is larger than the user's frame: the front of the
      next datagram is given, and the remainder queued if enough datagrams follow;
      if they do not, it is lost without a word. */
  lemma SplitExactly(crc: Crc, own: u16, n: u32, size: nat, sum: u16, ds: Socket, rest: Socket,
                     f: seq<byte>, rule: DropRule)
    requires 0 < |f| < size < 0x1_0000 && ds != [] && AllFull(ds)
    ensures var hdr := Encode(crc, own, n, 0, DATAGRAM as int, size, sum);
            var (r', reply) := ReadFrame(crc, own, Reader([hdr] + (ds + rest), []), f, rule);
            var front := ds[0][..Min(|ds[0]|, |f|)];
            && reply == Data(front, None)
            && (|Flatten(ds)| < size && rest == [] ==> r' == Reader([], []))
            && (|Flatten(ds)| < size && rest != [] && rest[0] == [] ==> r' == Reader(rest[1..], []))
            && (|Flatten(ds[..|ds| - 1])| < size <= |Flatten(ds)| ==>
                r' == Reader(rest, [Flatten(ds)[..size][|front|..]]))
  {
    HeaderFetches(crc, own, n, size, sum, ds + rest, f, rule);
    FillExactly(ds, rest, size);
    assert [] + [Flatten(ds)[|ds[0][..Min(|ds[0]|, |f|)]|..]] == [Flatten(ds)[|ds[0][..Min(|ds[0]|, |f|)]|..]];
  }

  /** A header with no datagram behind it, or with an empty one that the peek of a
      small frame leaves where it is. */
  lemma NothingBehind(crc: Crc, own: u16, n: u32, size: nat, sum: u16, rest: Socket, f: seq<byte>, rule: DropRule)
    requires f != [] && size < 0x1_0000
    ensures var hdr := Encode(crc, own, n, 0, DATAGRAM as int, size, sum);
            && ReadFrame(crc, own, Reader([hdr], []), f, rule) == (Reader([], []), Data([], Some(Again)))
            && ReadFrame(crc, own, Reader([hdr] + ([[]] + rest), []), f, rule)
               == (Reader(if |f| >= size then rest else [[]] + rest, []), Data([], Some(Eof)))
  {
    HeaderFetches(crc, own, n, size, sum, [], f, rule);
    var hdr := Encode(crc, own, n, 0, DATAGRAM as int, size, sum);
    assert [hdr] + [] == [hdr];
    ghost var empty: seq<byte> := [];
    HeaderFetches(crc, own, n, size, sum, [empty] + rest, f, rule);
    assert ([empty] + rest)[1..] == rest;
  }
}
