/** The 18-byte HDP header: the in-place writer of the data phase, the in-place
    checksum test, and the parser that every reader goes through.

    The checksum is a parameter: nothing here depends on which one it is. */
module Header {
  import opened Words

  type Crc = seq<byte> -> u16

  const SIZE: nat := 18

  // HDP_STATE2 codes a data header may carry
  const DATA_ACK: byte := 4
  const DATAGRAM: byte := 5
  const RMT_CLOSING: byte := 17

  // ----- sealing: bytes 16 and 17 hold the checksum of the rest -----

  /** A header whose last two bytes are still zero. */
  type Body = b: seq<byte> | |b| == 18 && b[16] == 0 && b[17] == 0
    witness seq(18, _ => 0)

  function Seal(crc: Crc, body: Body): (b: seq<byte>)
    ensures |b| == SIZE
    ensures b[..16] == body[..16]
  {
    body[..16] + PutU16(crc(body))
  }

  function Blanked(b: seq<byte>): (body: Body)
    requires |b| == SIZE
  {
    b[16 := 0][17 := 0]
  }

  predicate ChecksumOk(crc: Crc, b: seq<byte>)
    requires |b| == SIZE
  {
    GetU16(b[16..18]) == crc(Blanked(b))
  }

  lemma SealIsChecked(crc: Crc, body: Body)
    ensures ChecksumOk(crc, Seal(crc, body))
    ensures Blanked(Seal(crc, body)) == body
  {
    var b := Seal(crc, body);
    assert Blanked(b) == body;
    assert b[16..18] == PutU16(crc(body));
    GetPutU16(crc(body));
  }

  /** Zeroes the checksum bytes of the caller's buffer before comparing, as the
      original does; a failed test leaves them zeroed as well. */
  method VerifyChecksum1(crc: Crc, b: array<byte>) returns (ok: bool)
    requires b.Length == SIZE
    modifies b
    ensures b[..] == Blanked(old(b[..]))
    ensures ok <==> ChecksumOk(crc, old(b[..]))
  {
    var sum: u16 := b[16] as int + 256 * (b[17] as int);
    assert b[..][16..18] == [b[16], b[17]];
    b[16] := 0;
    b[17] := 0;
    assert b[..] == Blanked(old(b[..]));
    ok := sum == crc(b[..]);
  }

  // ----- the data header -----

  function Fields(refNum: u16, seqNum: u32, ackNum: u32, flag: nat, fsize: nat, frameCrc: u16): (b: Body)
  {
    PutU16(refNum) + PutU32(seqNum) + PutU32(ackNum)
    + [flag % 256, 0]
    + PutU16(fsize % 0x1_0000) + PutU16(frameCrc) + [0, 0]
  }

  function Encode(crc: Crc, refNum: u16, seqNum: u32, ackNum: u32, flag: nat, fsize: nat, frameCrc: u16): (b: seq<byte>)
    ensures |b| == SIZE
  {
    Seal(crc, Fields(refNum, seqNum, ackNum, flag, fsize, frameCrc))
  }

  method PutU16At(b: array<byte>, i: nat, v: u16)
    requires i + 2 <= b.Length
    modifies b
    ensures b[..] == old(b[..i]) + PutU16(v) + old(b[i + 2..])
  {
    b[i] := v % 256;
    b[i + 1] := v / 256;
    assert b[..] == b[..i] + [b[i], b[i + 1]] + b[i + 2..];
  }

  method PutU32At(b: array<byte>, i: nat, v: u32)
    requires i + 4 <= b.Length
    modifies b
    ensures b[..] == old(b[..i]) + PutU32(v) + old(b[i + 4..])
  {
    b[i] := v % 256;
    b[i + 1] := v / 0x100 % 256;
    b[i + 2] := v / 0x1_0000 % 256;
    b[i + 3] := v / 0x100_0000;
    assert b[..] == b[..i] + [b[i], b[i + 1], b[i + 2], b[i + 3]] + b[i + 4..];
  }

  /** Fills a fresh header field by field and seals it last. */
  method WriteHeader1(crc: Crc, refNum: u16, seqNum: u32, ackNum: u32, flag: nat, fsize: nat, frameCrc: u16)
    returns (hdr: array<byte>)
    ensures fresh(hdr)
    ensures hdr[..] == Encode(crc, refNum, seqNum, ackNum, flag, fsize, frameCrc)
  {
    hdr := new byte[18](_ => 0);
    PutNumbers(hdr, refNum, seqNum, ackNum);
    hdr[10] := flag % 256;
    PutU16At(hdr, 12, fsize % 0x1_0000);
    PutU16At(hdr, 14, frameCrc);
    assert hdr[..] == Fields(refNum, seqNum, ackNum, flag, fsize, frameCrc);
    PutU16At(hdr, 16, crc(hdr[..]));
  }

  method PutNumbers(hdr: array<byte>, refNum: u16, seqNum: u32, ackNum: u32)
    requires hdr.Length == SIZE && hdr[..] == seq(18, _ => 0)
    modifies hdr
    ensures hdr[..] == PutU16(refNum) + PutU32(seqNum) + PutU32(ackNum) + seq(8, _ => 0)
  {
    PutU16At(hdr, 0, refNum);
    PutU32At(hdr, 2, seqNum);
    PutU32At(hdr, 6, ackNum);
  }

  // ----- parsing -----

  datatype Parsed =
    | WrongRef
    | BadChecksum
    | PeerClosing
    | Frame(numbers: seq<byte>, info: seq<byte>)

  /** What an 18-byte read leaves in a zeroed header buffer: a longer datagram
      is cut, a shorter one leaves zeroes behind it. */
  function Received(dgram: seq<byte>): (b: seq<byte>)
    ensures |b| == SIZE
    ensures |dgram| == SIZE ==> b == dgram
  {
    if |dgram| >= 18 then dgram[..18] else dgram + seq(18 - |dgram|, _ => 0)
  }

  /** The reference check and the rest of parseHeader: `numbers` is hdr[2:10],
      pushed to the writer, and `info` is hdr[10:16], handed to the frame reader. */
  function Parse(crc: Crc, own: u16, dgram: seq<byte>): (p: Parsed)
    ensures p.Frame? ==> |p.numbers| == 8 && |p.info| == 6
  {
    var hdr := Received(dgram);
    if own != 0 && own != GetU16(hdr[..2]) then WrongRef
    else if !ChecksumOk(crc, hdr) then BadChecksum
    else if hdr[10] == RMT_CLOSING then PeerClosing
    else Frame(hdr[2..10], hdr[10..16])
  }

  function FlagOf(p: Parsed): byte
    requires p.Frame? && |p.info| == 6
  {
    p.info[0]
  }

  // the consumers' slices of hdr[2:10] and hdr[10:16]
  function SeqOf(numbers: seq<byte>): u32
    requires |numbers| == 8
  {
    GetU32(numbers[..4])
  }

  function AckOf(numbers: seq<byte>): u32
    requires |numbers| == 8
  {
    GetU32(numbers[4..])
  }

  function SizeOf(info: seq<byte>): u16
    requires |info| == 6
  {
    GetU16(info[2..4])
  }

  function FrameCrcOf(info: seq<byte>): u16
    requires |info| == 6
  {
    GetU16(info[4..6])
  }

  lemma EncodedBytes(crc: Crc, refNum: u16, seqNum: u32, ackNum: u32, flag: nat, fsize: nat, frameCrc: u16)
    ensures var b := Encode(crc, refNum, seqNum, ackNum, flag, fsize, frameCrc);
            && b[..2] == PutU16(refNum)
            && b[2..10] == PutU32(seqNum) + PutU32(ackNum)
            && b[10..16] == [flag % 256, 0] + PutU16(fsize % 0x1_0000) + PutU16(frameCrc)
            && b[10] == flag % 256
            && ChecksumOk(crc, b)
  {
    var f := Fields(refNum, seqNum, ackNum, flag, fsize, frameCrc);
    var b := Encode(crc, refNum, seqNum, ackNum, flag, fsize, frameCrc);
    SealIsChecked(crc, f);
    assert b[..16] == f[..16];
    assert b[..2] == f[..2] == PutU16(refNum);
    assert b[2..10] == f[2..10] == PutU32(seqNum) + PutU32(ackNum);
    assert b[10..16] == f[10..16];
    assert f[10..16] == [flag % 256, 0] + PutU16(fsize % 0x1_0000) + PutU16(frameCrc);
  }

  /** Round trip: the peer named by refNum reads back the two numbers, the flag
      and the frame checksum at the offsets its consumers slice, whatever the
      checksum function; the size survives exactly when it fits in 16 bits. */
  lemma RoundTrip(crc: Crc, refNum: u16, seqNum: u32, ackNum: u32, flag: nat, fsize: nat, frameCrc: u16)
    requires flag < 256
    ensures var p := Parse(crc, refNum, Encode(crc, refNum, seqNum, ackNum, flag, fsize, frameCrc));
            if flag == RMT_CLOSING then p == PeerClosing else
            && p.Frame?
            && SeqOf(p.numbers) == seqNum
            && AckOf(p.numbers) == ackNum
            && FlagOf(p) == flag
            && FrameCrcOf(p.info) == frameCrc
            && (SizeOf(p.info) == fsize <==> fsize < 0x1_0000)
  {
    EncodedBytes(crc, refNum, seqNum, ackNum, flag, fsize, frameCrc);
    var b := Encode(crc, refNum, seqNum, ackNum, flag, fsize, frameCrc);
    assert Received(b) == b;
    GetPutU16(refNum);
    if flag == RMT_CLOSING { return; }
    var p := Parse(crc, refNum, b);
    assert p.numbers == PutU32(seqNum) + PutU32(ackNum);
    assert p.numbers[..4] == PutU32(seqNum) && p.numbers[4..] == PutU32(ackNum);
    assert p.info[2..4] == PutU16(fsize % 0x1_0000);
    assert p.info[4..6] == PutU16(frameCrc);
    GetPutU32(seqNum);
    GetPutU32(ackNum);
    GetPutU16(fsize % 0x1_0000);
    GetPutU16(frameCrc);
  }

  /** Only a datagram that starts with the reader's own reference number gets
      past parseHeader, once that number is set. */
  lemma ForeignRefRejected(crc: Crc, own: u16, dgram: seq<byte>)
    requires own != 0
    requires GetU16(Received(dgram)[..2]) != own
    ensures Parse(crc, own, dgram) == WrongRef
  {
  }

  // ----- headers in bytes -----

  /** Byte i of a datagram as an 18-byte header buffer holds it. */
  function ByteAt(d: seq<byte>, i: nat): byte {
    if i < |d| then d[i] else 0
  }

  function Word(d: seq<byte>, i: nat): int {
    ByteAt(d, i) as int + 256 * (ByteAt(d, i + 1) as int)
  }

  function Long(d: seq<byte>, i: nat): int {
    ByteAt(d, i) as int + 256 * (ByteAt(d, i + 1) as int)
    + 65536 * (ByteAt(d, i + 2) as int) + 16777216 * (ByteAt(d, i + 3) as int)
  }

  /** The first sixteen bytes and two zeroes: what the checksum is taken over. */
  function Front(d: seq<byte>): (b: seq<byte>)
    ensures |b| == 18
  {
    seq(16, (i: nat) => ByteAt(d, i)) + [0, 0]
  }

  /** The datagram carries the reader's own number, or the reader has none. */
  predicate Addressed(own: u16, d: seq<byte>) {
    own == 0 || Word(d, 0) == own
  }

  /** The last two bytes are the checksum of the others, low byte first. */
  predicate Summed(crc: Crc, d: seq<byte>) {
    Word(d, 16) == crc(Front(d))
  }

  lemma ReceivedBytes(d: seq<byte>)
    ensures Received(d) == seq(18, (i: nat) => ByteAt(d, i))
    ensures Blanked(Received(d)) == Front(d)
    ensures GetU16(Received(d)[..2]) == Word(d, 0) && GetU16(Received(d)[16..18]) == Word(d, 16)
  {
    var b := Received(d);
    assert b == seq(18, (i: nat) => ByteAt(d, i));
    assert b[..2] == [b[0], b[1]] && b[16..18] == [b[16], b[17]];
    assert Blanked(b) == Front(d);
  }

  /** Which of the four outcomes a datagram gets, for every checksum function: by
      its reference, then its sum, then its closing flag; and which of its bytes
      reach the consumers. */
  lemma ParseExactly(crc: Crc, own: u16, d: seq<byte>)
    ensures var p := Parse(crc, own, d);
            && (p == WrongRef <==> !Addressed(own, d))
            && (p == BadChecksum <==> Addressed(own, d) && !Summed(crc, d))
            && (p == PeerClosing <==> Addressed(own, d) && Summed(crc, d) && ByteAt(d, 10) == 17)
            && (p.Frame? <==> Addressed(own, d) && Summed(crc, d) && ByteAt(d, 10) != 17)
            && (p.Frame? ==> |p.numbers| == 8 && |p.info| == 6
                             && SeqOf(p.numbers) == Long(d, 2) && AckOf(p.numbers) == Long(d, 6)
                             && FlagOf(p) == ByteAt(d, 10)
                             && SizeOf(p.info) == Word(d, 12) && FrameCrcOf(p.info) == Word(d, 14))
  {
    ReceivedBytes(d);
    var b := Received(d);
    assert b[2..10][..4] == [b[2], b[3], b[4], b[5]] && b[2..10][4..] == [b[6], b[7], b[8], b[9]];
    assert b[10..16][2..4] == [b[12], b[13]] && b[10..16][4..6] == [b[14], b[15]];
  }

  /** Every byte of an encoded header. */
  lemma EncodedInBytes(crc: Crc, refNum: u16, seqNum: u32, ackNum: u32, flag: nat, fsize: nat, frameCrc: u16)
    ensures var b := Encode(crc, refNum, seqNum, ackNum, flag, fsize, frameCrc);
            && b[..16] == [refNum % 256, refNum / 256,
                           seqNum % 256, seqNum / 256 % 256, seqNum / 65536 % 256, seqNum / 16777216,
                           ackNum % 256, ackNum / 256 % 256, ackNum / 65536 % 256, ackNum / 16777216,
                           flag % 256, 0, fsize % 65536 % 256, fsize % 65536 / 256,
                           frameCrc % 256, frameCrc / 256]
            && Summed(crc, b)
  {
    var b := Encode(crc, refNum, seqNum, ackNum, flag, fsize, frameCrc);
    var f := Fields(refNum, seqNum, ackNum, flag, fsize, frameCrc);
    assert b[..16] == f[..16];
    SealIsChecked(crc, f);
    ReceivedBytes(b);
    assert Received(b) == b;
  }

  /** A sealed header whose other bytes are changed on the way is refused by the
      reader they name if and only if the checksum tells the two apart. */
  lemma TamperedExactly(crc: Crc, own: u16, body: Body, front: seq<byte>)
    requires |front| == 16 && Addressed(own, front)
    ensures Parse(crc, own, front + Seal(crc, body)[16..]) == BadChecksum <==> crc(front + [0, 0]) != crc(body)
  {
    var d := front + Seal(crc, body)[16..];
    ParseExactly(crc, own, d);
    assert Front(d) == front + [0, 0];
    assert d[16..] == PutU16(crc(body));
    GetPutU16(crc(body));
    assert d[16] == PutU16(crc(body))[0] && d[17] == PutU16(crc(body))[1];
  }
}
