/** The reader's byte queue and the split read: a frame too small for the payload
    gets a peeked prefix, and the rest of the payload is queued for later reads. */
module ReadSpec {
  import opened Words

  type Chunks = seq<seq<byte>>

  /** What a partial copy out of the first chunk leaves of it: as written the
      last copied byte stays, `[i:]`; as meant it goes, `[i+1:]`. */
  datatype DropRule = KeepLast | DropCopied

  /** A read's result: the queue afterwards, the bytes, and whether io.EOF came with them. */
  datatype ReadResult = ReadResult(rest: Chunks, bytes: seq<byte>, eof: bool)

  function Contents(c: Chunks): (b: seq<byte>) {
    if c == [] then [] else c[0] + Contents(c[1..])
  }

  predicate NoneEmpty(c: Chunks) {
    forall i :: 0 <= i < |c| ==> c[i] != []
  }

  /** Copies from the first chunk into a frame of the given room. */
  function WriteTo(c: Chunks, room: nat, rule: DropRule): (r: ReadResult)
    requires room >= 1 && NoneEmpty(c)
    ensures NoneEmpty(r.rest) && (!r.eof ==> 1 <= |r.bytes| <= room)
  {
    if c == [] then ReadResult(c, [], true)
    else if |c[0]| <= room then ReadResult(c[1..], c[0], false)
    else ReadResult(c[0 := c[0][if rule == KeepLast then room - 1 else room..]], c[0][..room], false)
  }

  /** Copies until the frame is full or the queue runs out. */
  function Read(c: Chunks, k: nat, rule: DropRule): (r: ReadResult)
    requires NoneEmpty(c)
    ensures NoneEmpty(r.rest)
    decreases k
  {
    if k == 0 then ReadResult(c, [], false)
    else
      var w := WriteTo(c, k, rule);
      if w.eof then w
      else
        var more := Read(w.rest, k - |w.bytes|, rule);
        ReadResult(more.rest, w.bytes + more.bytes, more.eof)
  }

  function Min(a: nat, b: nat): nat {
    if a < b then a else b
  }

  /** k bytes are a whole number of chunks. */
  predicate Boundary(c: Chunks, k: nat) {
    k == 0 || (c != [] && |c[0]| <= k && Boundary(c[1..], k - |c[0]|))
  }

  lemma ContentsFirst(c: Chunks)
    requires c != []
    ensures Contents(c) == c[0] + Contents(c[1..])
  {
  }

  lemma ContentsOne(b: seq<byte>)
    ensures Contents([b]) == b
  {
    var c := [b];
    assert c[1..] == [];
    assert b + [] == b;
  }

  /** A read gives the front of the queue in either version, with io.EOF exactly
      when the queue holds less than was asked for. What it leaves differs: the
      rest as meant; as written the last byte given is left in front of the rest
      whenever the read ends inside a chunk. */
  lemma {:induction false} ReadGives(c: Chunks, k: nat, rule: DropRule)
    requires NoneEmpty(c)
    ensures Gives(Read(c, k, rule), Contents(c), k, rule == DropCopied || Boundary(c, k))
    decreases k
  {
    var all := Contents(c);
    if k == 0 || c == [] {
      assert all[..0] == [] && all[0..] == all;
    } else if |c[0]| <= k {
      ReadGives(c[1..], k - |c[0]|, rule);
      ReadAcross(c, k, rule);
    } else {
      ReadInside(c, k, rule);
    }
  }

  /** Result r is the first k of the bytes, io.EOF included; it leaves the others,
      or those from the last byte given on if it is not clean and cuts them short. */
  predicate Gives(r: ReadResult, all: seq<byte>, k: nat, clean: bool) {
    && r.bytes == all[..Min(k, |all|)]
    && (r.eof <==> |all| < k)
    && Contents(r.rest) == if clean || k == 0 || |all| <= k then all[Min(k, |all|)..] else all[k - 1..]
  }

  lemma ReadAcross(c: Chunks, k: nat, rule: DropRule)
    requires NoneEmpty(c) && c != [] && |c[0]| <= k
    requires Gives(Read(c[1..], k - |c[0]|, rule), Contents(c[1..]), k - |c[0]|,
                   rule == DropCopied || Boundary(c[1..], k - |c[0]|))
    ensures Gives(Read(c, k, rule), Contents(c), k, rule == DropCopied || Boundary(c, k))
  {
    var n := |c[0]|;
    var all, tail := Contents(c), Contents(c[1..]);
    var more := Read(c[1..], k - n, rule);
    assert Read(c, k, rule) == ReadResult(more.rest, c[0] + more.bytes, more.eof);
    assert Boundary(c, k) == Boundary(c[1..], k - n);
    CutAcross(c[0], tail, k);
  }

  lemma CutAcross(head: seq<byte>, tail: seq<byte>, k: nat)
    requires |head| <= k
    ensures var all, n := head + tail, |head|;
            && all[..Min(k, |all|)] == head + tail[..Min(k - n, |tail|)]
            && all[Min(k, |all|)..] == tail[Min(k - n, |tail|)..]
            && (k > n && |all| > k ==> all[k - 1..] == tail[k - n - 1..])
  {
  }

  lemma ReadInside(c: Chunks, k: nat, rule: DropRule)
    requires NoneEmpty(c) && c != [] && 0 < k < |c[0]|
    ensures var r, all := Read(c, k, rule), Contents(c);
            && |all| > k && r.bytes == all[..k] && !r.eof
            && Contents(r.rest) == all[if rule == DropCopied then k else k - 1..]
  {
    var all := Contents(c);
    var keep := if rule == KeepLast then k - 1 else k;
    var w := WriteTo(c, k, rule);
    assert Read(w.rest, 0, rule) == ReadResult(w.rest, [], false);
    assert w.bytes + [] == w.bytes == all[..k];
    assert w.rest[1..] == c[1..];
    assert Contents(w.rest) == c[0][keep..] + Contents(c[1..]);
  }

  // ----- a sequence of reads -----

  function Sum(ks: seq<nat>): nat {
    if ks == [] then 0 else ks[0] + Sum(ks[1..])
  }

  /** The bytes of successive reads, one after the other. */
  function Stream(c: Chunks, ks: seq<nat>, rule: DropRule): seq<byte>
    requires NoneEmpty(c)
    decreases |ks|
  {
    if ks == [] then []
    else
      var r := Read(c, ks[0], rule);
      r.bytes + Stream(r.rest, ks[1..], rule)
  }

  lemma TakeTwice(all: seq<byte>, k: nat, m: nat)
    ensures var rest := all[Min(k, |all|)..];
            all[..Min(k, |all|)] + rest[..Min(m, |rest|)] == all[..Min(k + m, |all|)]
  {
  }

  /** As meant, any sequence of reads gives the queue's bytes in order, once. */
  lemma {:induction false} StreamInOrder(c: Chunks, ks: seq<nat>)
    requires NoneEmpty(c)
    ensures Stream(c, ks, DropCopied) == Contents(c)[..Min(Sum(ks), |Contents(c)|)]
    decreases |ks|
  {
    var all := Contents(c);
    if ks == [] {
      assert all[..0] == [];
    } else {
      var k := ks[0];
      ReadGives(c, k, DropCopied);
      var r := Read(c, k, DropCopied);
      StreamInOrder(r.rest, ks[1..]);
      TakeTwice(all, k, Sum(ks[1..]));
    }
  }

  /** As written, one-byte reads of a longer chunk never advance: each gives the
      same first byte again. */
  lemma {:induction false} OneByteReadsStick(c: Chunks, n: nat)
    requires NoneEmpty(c) && c != [] && |c[0]| > 1
    ensures Stream(c, seq(n, _ => 1), KeepLast) == seq(n, _ => c[0][0])
    decreases n
  {
    var ks := seq(n, _ => 1 as nat);
    if n > 0 {
      var r := Read(c, 1, KeepLast);
      var w := WriteTo(c, 1, KeepLast);
      assert c[0][0..] == c[0] && c[0 := c[0]] == c;
      assert w == ReadResult(c, [c[0][0]], false);
      assert Read(c, 0, KeepLast) == ReadResult(c, [], false);
      assert r == ReadResult(c, [c[0][0]], false);
      assert ks[1..] == seq(n - 1, _ => 1 as nat);
      OneByteReadsStick(c, n - 1);
      assert [c[0][0]] + seq(n - 1, _ => c[0][0]) == seq(n, _ => c[0][0]);
    }
  }

  // ----- the socket side of a split read -----

  /** Datagrams waiting on the socket; a read takes a whole one and cuts it to size. */
  type Socket = seq<seq<byte>>

  datatype IoErr = Again | Eof | Checksum | WrongPeer | HeaderSum

  /** Reads n bytes, datagram after datagram; None when the socket runs dry or
      an empty datagram reads as end of file. */
  function Fill(sock: Socket, n: nat): (r: (Socket, Option<seq<byte>>))
    ensures r.1.Some? ==> |r.1.value| == n
    decreases n
  {
    if n == 0 then (sock, Some([]))
    else if sock == [] then (sock, None)
    else if sock[0] == [] then (sock[1..], None)
    else
      var b := sock[0][..Min(|sock[0]|, n)];
      var (rest, more) := Fill(sock[1..], n - |b|);
      (rest, match more case Some(m) => Some(b + m) case None => None)
  }

  lemma FillWhole(payload: seq<byte>, rest: Socket)
    requires payload != []
    ensures Fill([payload] + rest, |payload|) == (rest, Some(payload))
  {
    assert payload[..|payload|] == payload;
    assert ([payload] + rest)[1..] == rest;
    assert Fill(rest, 0) == (rest, Some([]));
    assert payload + [] == payload;
  }

  /** The whole exchange: the prefix peeked into a first frame of n bytes, then
      reads of any sizes from the queue. */
  function SplitRead(payload: seq<byte>, n: nat, ks: seq<nat>, rule: DropRule): seq<byte>
    requires 0 < n < |payload|
  {
    payload[..n] + Stream([payload[n..]], ks, rule)
  }

  /** Split-read round trip: whatever the frame sizes, the pieces concatenate to
      the payload as far as they reach, and to all of it once they reach its end. */
  lemma SplitRoundTrip(payload: seq<byte>, n: nat, ks: seq<nat>)
    requires 0 < n < |payload|
    ensures SplitRead(payload, n, ks, DropCopied) == payload[..Min(n + Sum(ks), |payload|)]
    ensures n + Sum(ks) >= |payload| ==> SplitRead(payload, n, ks, DropCopied) == payload
  {
    var c := [payload[n..]];
    ContentsOne(payload[n..]);
    StreamInOrder(c, ks);
    assert payload[..n] + payload[n..][..Min(Sum(ks), |payload| - n)] == payload[..Min(n + Sum(ks), |payload|)];
    assert payload[..|payload|] == payload;
  }

  /** As written the round trip fails whenever the second read stops inside the
      queued rest: the third piece starts with a byte already given. */
  lemma WrittenRepeatsByte(payload: seq<byte>, n: nat, k: nat, m: nat)
    requires 0 < n && 0 < k && n + k < |payload| && m > 0
    ensures SplitRead(payload, n, [k, m], KeepLast)
            == payload[..n + k] + payload[n + k - 1..Min(n + k - 1 + m, |payload|)]
  {
    var rest := payload[n..];
    TwoReadsOverlap(rest, k, m);
    var from := n + k - 1;
    assert rest[k - 1..Min(k - 1 + m, |rest|)] == payload[from..Min(from + m, |payload|)];
    assert payload[..n] + rest[..k] == payload[..n + k];
  }

  lemma TwoReadsOverlap(rest: seq<byte>, k: nat, m: nat)
    requires 0 < k < |rest| && m > 0
    ensures Stream([rest], [k, m], KeepLast) == rest[..k] + rest[k - 1..Min(k - 1 + m, |rest|)]
  {
    ContentsOne(rest);
    ReadInside([rest], k, KeepLast);
    var r := Read([rest], k, KeepLast);
    ReadGives(r.rest, m, KeepLast);
    StreamTwo([rest], k, m, KeepLast);
  }

  lemma StreamTwo(c: Chunks, k: nat, m: nat, rule: DropRule)
    requires NoneEmpty(c)
    ensures var r := Read(c, k, rule);
            Stream(c, [k, m], rule) == r.bytes + Read(r.rest, m, rule).bytes
  {
    var r := Read(c, k, rule);
    var r2 := Read(r.rest, m, rule);
    assert [k, m][1..] == [m] && [m][1..] == [];
    assert Stream(r2.rest, [], rule) == [];
    assert Stream(r.rest, [m], rule) == r2.bytes + [] == r2.bytes;
  }
}
