/** BufferR and the frame reader in place: reads copy byte by byte into the
    caller's frame and drop chunks as they empty. */
module ReadBuffer {
  import opened Words
  import opened ReadSpec
  import opened Header
  import opened FrameStream

  class BufferR {
    var chunks: Chunks

    constructor ()
      ensures chunks == []
    {
      chunks := [];
    }

    method Add(f: seq<byte>)
      modifies this
      ensures chunks == old(chunks) + [f]
    {
      chunks := chunks + [f];
    }

    method Len() returns (n: nat)
      ensures n == |Contents(chunks)|
    {
      n := 0;
      var i := 0;
      while i < |chunks|
        invariant 0 <= i <= |chunks|
        invariant n + |Contents(chunks[i..])| == |Contents(chunks)|
      {
        assert chunks[i..][1..] == chunks[i + 1..];
        n := n + |chunks[i]|;
        i := i + 1;
      }
    }

    /** Copies into frame from index `from` on; the rule argument is the one-word
        repair, KeepLast the code as written. */
    method WriteTo(frame: array<byte>, from: nat, rule: DropRule) returns (n: nat, eof: bool)
      requires NoneEmpty(chunks) && from < frame.Length
      modifies this, frame
      ensures NoneEmpty(chunks) && n <= frame.Length - from && (!eof ==> n > 0)
      ensures ReadResult(chunks, frame[from..from + n], eof) == ReadSpec.WriteTo(old(chunks), frame.Length - from, rule)
      ensures frame[..from + n] == old(frame[..from]) + frame[from..from + n]
      ensures frame[from + n..] == old(frame[from + n..])
    {
      if |chunks| == 0 {
        return 0, true;
      }
      var head := chunks[0];
      var last0 := |head| - 1;
      var i := 0;
      while true
        invariant 0 <= i < frame.Length - from && i < |head|
        invariant chunks == old(chunks)
        invariant frame[from..from + i] == head[..i]
        invariant frame[..from] == old(frame[..from]) && frame[from + i..] == old(frame[from + i..])
        decreases frame.Length - from - i
      {
        frame[from + i] := head[i];
        assert frame[from..from + i + 1] == head[..i + 1];
        assert frame[..from + i + 1] == frame[..from] + frame[from..from + i + 1];
        assert frame[from + i + 1..] == old(frame[from + i + 1..]);
        if i == last0 {
          chunks := chunks[1..];
          return i + 1, false;
        }
        if from + i + 1 == frame.Length {
          break;
        }
        i := i + 1;
      }
      chunks := chunks[0 := head[if rule == KeepLast then i else i + 1..]];
      return i + 1, false;
    }

    /** One turn of the read loop. */
    method TakeMore(frame: array<byte>, nn: nat, rule: DropRule, ghost whole: ReadResult) returns (n: nat, eof: bool)
      requires NoneEmpty(chunks) && nn < frame.Length
      requires ReadsOn(whole, chunks, frame[..nn], frame.Length - nn, rule)
      modifies this, frame
      ensures NoneEmpty(chunks) && n <= frame.Length - nn && (!eof ==> n > 0)
      ensures eof ==> whole == ReadResult(chunks, frame[..nn + n], true)
      ensures !eof ==> ReadsOn(whole, chunks, frame[..nn + n], frame.Length - (nn + n), rule)
    {
      ghost var before, got := chunks, frame[..nn];
      n, eof := WriteTo(frame, nn, rule);
      ReadSteps(whole, before, got, frame.Length - nn, rule, ReadResult(chunks, frame[nn..nn + n], eof));
    }

    method Read(frame: array<byte>, rule: DropRule) returns (nn: nat, eof: bool)
      requires NoneEmpty(chunks)
      modifies this, frame
      ensures NoneEmpty(chunks) && nn <= frame.Length
      ensures ReadResult(chunks, frame[..nn], eof) == ReadSpec.Read(old(chunks), frame.Length, rule)
    {
      nn := 0;
      ghost var whole := ReadSpec.Read(chunks, frame.Length, rule);
      ReadBegins(chunks, frame.Length, rule);
      while nn < frame.Length
        invariant NoneEmpty(chunks) && nn <= frame.Length
        invariant ReadsOn(whole, chunks, frame[..nn], frame.Length - nn, rule)
      {
        var n, err := TakeMore(frame, nn, rule, whole);
        nn := nn + n;
        if err {
          return nn, true;
        }
      }
      return nn, false;
    }
  }

  /** A read that has got some bytes and has k more to get from chunks c. */
  ghost predicate ReadsOn(whole: ReadResult, c: Chunks, got: seq<byte>, k: nat, rule: DropRule)
    requires NoneEmpty(c)
  {
    if k == 0 then whole == ReadResult(c, got, false)
    else whole == Prefix(got, ReadSpec.Read(c, k, rule))
  }

  lemma ReadBegins(c: Chunks, k: nat, rule: DropRule)
    requires NoneEmpty(c)
    ensures ReadsOn(ReadSpec.Read(c, k, rule), c, [], k, rule)
  {
    Prefixed([], ReadSpec.Read(c, k, rule));
  }

  lemma ReadSteps(whole: ReadResult, c: Chunks, got: seq<byte>, k: nat, rule: DropRule, piece: ReadResult)
    requires NoneEmpty(c) && k > 0 && ReadsOn(whole, c, got, k, rule)
    requires piece == ReadSpec.WriteTo(c, k, rule) && NoneEmpty(piece.rest) && |piece.bytes| <= k
    ensures piece.eof ==> whole == ReadResult(piece.rest, got + piece.bytes, true)
    ensures !piece.eof ==> ReadsOn(whole, piece.rest, got + piece.bytes, k - |piece.bytes|, rule)
  {
    ReadUnfold(c, k, rule, got);
    Prefixed(got + piece.bytes, ReadResult(piece.rest, [], false));
  }

  /** A read continued after the bytes already got. */
  function Prefix(got: seq<byte>, r: ReadResult): ReadResult {
    r.(bytes := got + r.bytes)
  }

  lemma Prefixed(got: seq<byte>, r: ReadResult)
    ensures Prefix([], r) == r
    ensures r.bytes == [] ==> Prefix(got, r) == r.(bytes := got)
  {
    assert [] + r.bytes == r.bytes;
    assert got + [] == got;
  }

  lemma ReadUnfold(c: Chunks, k: nat, rule: DropRule, got: seq<byte>)
    requires NoneEmpty(c) && k > 0
    ensures var w := ReadSpec.WriteTo(c, k, rule);
            Prefix(got, ReadSpec.Read(c, k, rule)) ==
            if w.eof then w.(bytes := got + w.bytes)
            else Prefix(got + w.bytes, ReadSpec.Read(w.rest, k - |w.bytes|, rule))
  {
    var w := ReadSpec.WriteTo(c, k, rule);
    if !w.eof {
      var more := ReadSpec.Read(w.rest, k - |w.bytes|, rule);
      assert got + (w.bytes + more.bytes) == got + w.bytes + more.bytes;
    }
  }

  lemma EmptyIffNoBytes(c: Chunks)
    requires NoneEmpty(c)
    ensures c == [] <==> |Contents(c)| == 0
  {
  }

  /** hdpRead2: its socket, its queue of bytes read ahead, and its own number. */
  class FrameReader {
    var sock: Socket
    const buffer: BufferR
    const own: u16

    ghost function View(): Reader
      reads this, buffer
    {
      Reader(sock, buffer.chunks)
    }

    constructor (own: u16, sock: Socket)
      ensures this.own == own && fresh(buffer) && View() == Reader(sock, [])
    {
      this.own := own;
      this.sock := sock;
      buffer := new BufferR();
    }

    /** One read system call; with peek set the datagram stays. */
    method Recv(f: array<byte>, peek: bool) returns (n: nat, err: Option<IoErr>)
      modifies this`sock, f
      ensures n <= f.Length && f[n..] == old(f[n..])
      ensures if old(sock) == [] then err == Some(Again) && n == 0 && sock == []
              else
                && n == Min(|old(sock)[0]|, f.Length) && (err == if n == 0 then Some(Eof) else None)
                && sock == (if peek then old(sock) else old(sock)[1..])
                && f[..n] == old(sock)[0][..n]
    {
      if |sock| == 0 {
        return 0, Some(Again);
      }
      var d := sock[0];
      n := Min(|d|, f.Length);
      var i := 0;
      while i < n
        invariant 0 <= i <= n && sock == old(sock)
        invariant f[..i] == d[..i] && f[i..] == old(f[i..])
      {
        f[i] := d[i];
        i := i + 1;
        assert f[..i] == d[..i];
      }
      if !peek {
        sock := sock[1..];
      }
      err := if n == 0 then Some(Eof) else None;
    }

    /** Reads until n bytes have come, one datagram after another. */
    method FillFrame(n: nat) returns (b: Option<seq<byte>>)
      modifies this`sock
      ensures (sock, b) == Fill(old(sock), n)
    {
      var got: seq<byte> := [];
      ghost var whole := Fill(sock, n);
      assert whole.1.Some? ==> [] + whole.1.value == whole.1.value;
      while |got| < n
        invariant |got| <= n
        invariant var (rest, more) := Fill(sock, n - |got|);
                  Fill(old(sock), n) == (rest, match more case Some(m) => Some(got + m) case None => None)
        decreases n - |got|
      {
        if |sock| == 0 {
          return None;
        }
        var d := sock[0];
        ghost var before := sock;
        sock := sock[1..];
        if |d| == 0 {
          return None;
        }
        ghost var had := got;
        var take := d[..Min(|d|, n - |got|)];
        got := got + take;
        ghost var tail := Fill(sock, n - |got|);
        assert Fill(before, n - |had|) == (tail.0, match tail.1 case Some(m) => Some(take + m) case None => None);
        assert tail.1.Some? ==> had + (take + tail.1.value) == got + tail.1.value;
      }
      assert got + [] == got;
      return Some(got);
    }

    /** Queues what lies beyond the peeked prefix; the checksum is looked at only
        after the bytes are queued. */
    method ReadFrom(crc: Crc, offset: nat, dsize: nat, sum: u16) returns (err: Option<IoErr>)
      requires offset <= dsize
      modifies this`sock, buffer
      ensures sock == Fill(old(sock), dsize).0
      ensures match Fill(old(sock), dsize).1
              case None => buffer.chunks == old(buffer.chunks) && err == Some(Again)
              case Some(b) =>
                && buffer.chunks == old(buffer.chunks) + [b[offset..]]
                && err == (if crc(b) == sum then None else Some(Checksum))
    {
      var b := FillFrame(dsize);
      if b.None? {
        return Some(Again);
      }
      buffer.Add(b.value[offset..]);
      if crc(b.value) != sum {
        return Some(Checksum);
      }
      return None;
    }

    /** The read of one payload. A frame large enough is read straight into and
        checked; otherwise the remainder's error is logged and dropped. */
    method Read3(crc: Crc, f: array<byte>, dsize: nat, sum: u16) returns (n: nat, err: Option<IoErr>)
      requires NoneEmpty(buffer.chunks)
      modifies this`sock, buffer, f
      ensures n <= f.Length
      ensures (View(), Data(f[..n], err)) == Fetch(crc, old(View()), old(f[..]), dsize, sum)
    {
      ghost var was, f0 := sock, f[..];
      if f.Length >= dsize {
        n, err := Recv(f, false);
        if err.Some? {
          return;
        }
        assert f[..] == f[..n] + f[n..];
        assert f[..dsize] == (was[0][..n] + f0[n..])[..dsize];
        err := if crc(f[..dsize]) != sum then Some(Checksum) else None;
        return;
      }
      n, err := Recv(f, true);
      if err.Some? {
        return;
      }
      var ignored := ReadFrom(crc, n, dsize, sum);
      err := None;
    }

    /** Reads one datagram as a header and checks it in place; None when the
        socket stays dry over the three attempts, or an empty datagram comes. */
    method ParseHeader(crc: Crc) returns (parsed: Option<Parsed>)
      modifies this`sock
      ensures sock == if old(sock) == [] then [] else old(sock)[1..]
      ensures parsed == if old(sock) == [] || old(sock)[0] == [] then None
                        else Some(Parse(crc, own, old(sock)[0]))
    {
      var hdr := new byte[18](_ => 0);
      ghost var zero := hdr[..];
      var n, err := Recv(hdr, false);
      if err.Some? {
        return None;
      }
      ghost var b := Received(old(sock)[0]);
      assert hdr[..] == hdr[..n] + hdr[n..];
      assert hdr[n..] == zero[n..] == seq(18 - n, _ => 0);
      assert hdr[..] == b;
      assert b[..2] == [hdr[0], hdr[1]];
      if own != 0 && own != GetU16([hdr[0], hdr[1]]) {
        return Some(WrongRef);
      }
      var ok := VerifyChecksum1(crc, hdr);
      if !ok {
        return Some(BadChecksum);
      }
      assert hdr[..16] == b[..16];
      assert hdr[2..10] == hdr[..16][2..10] == b[2..10] && hdr[10..16] == hdr[..16][10..] == b[10..16];
      if hdr[10] == RMT_CLOSING {
        return Some(PeerClosing);
      }
      return Some(Frame(hdr[2..10], hdr[10..16]));
    }

    /** One read request of the user: f is the frame to fill. */
    method ReadFrame(crc: Crc, f: array<byte>, rule: DropRule) returns (reply: Reply)
      requires NoneEmpty(buffer.chunks)
      modifies this`sock, buffer, f
      ensures (View(), reply) == FrameStream.ReadFrame(crc, own, old(View()), old(f[..]), rule)
      ensures reply.Data? ==> |reply.bytes| <= f.Length && f[..|reply.bytes|] == reply.bytes
    {
      EmptyIffNoBytes(buffer.chunks);
      var queued := buffer.Len();
      if queued > 0 {
        // end of file only means that the queue ran empty
        var nn, eof := buffer.Read(f, rule);
        return Data(f[..nn], None);
      }
      var parsed := ParseHeader(crc);
      match parsed
      case None => return Failed(Eof);
      case Some(p) =>
        match p {
          case WrongRef => return Failed(WrongPeer);
          case BadChecksum => return Failed(HeaderSum);
          case PeerClosing => return Failed(Eof);
          case Frame(_, info) =>
            if info[0] == DATA_ACK {
              return AckSeen;
            } else if f.Length == 0 {
              return Silent;
            }
            var n, err := Read3(crc, f, SizeOf(info), FrameCrcOf(info));
            return Data(f[..n], err);
        }
    }
  }
}
