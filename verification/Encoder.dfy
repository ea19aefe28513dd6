// Splitting a message into checksummed frames
// (include/FrameProtocalCodec.hpp:52-100, 160-171, 264-286).
module Encoder {
  import opened Bytes
  import opened Proto
  import Adler32

  /** A DecodedPacket: what a receiver is handed, and what a sender asks to send. */
  datatype Packet = Packet(id: u64, ptype: byte, body: seq<byte>)
  {
    predicate Encodable() {
      0 < |body| <= MAX_DATA_SIZE
    }

    /** How many frames carry the message. */
    function Parts(): (n: nat)
      requires Encodable()
      ensures 1 <= n <= 2560
    {
      (|body| + 4095) / 4096
    }
  }

  datatype Frame = Frame(h: Header, payload: seq<byte>)
  {
    function Wire(): seq<byte> {
      h.Bytes() + payload
    }

    /** The length field tells the truth. */
    predicate Fits() {
      |payload| == h.payloadLen
    }

    /** A frame that decode hands to handleSingleFrame. */
    predicate Handled() {
      Fits() && h.version == VERSION && h.ptype != HEARTBEAT
    }
  }

  datatype EncodeResult = Encoded(frames: seq<seq<byte>>) | InvalidArgument

  /** The i-th 4 KB piece of a message, the last one possibly shorter. */
  function Piece(body: seq<byte>, i: nat): (r: seq<byte>)
    requires i * CHUNK_SIZE < |body|
    ensures 1 <= |r| <= CHUNK_SIZE
  {
    body[i * CHUNK_SIZE..Cut(body, i + 1)]
  }

  /** Where piece i starts and piece i - 1 ends. */
  function Cut(body: seq<byte>, i: nat): (r: nat)
    ensures r <= |body|
  {
    if i * CHUNK_SIZE <= |body| then i * CHUNK_SIZE else |body|
  }

  /** The frame that carries piece i: a whole short message, a checksummed
      fragment, or the end fragment with the checksum of the whole message. */
  function FrameOf(m: Packet, i: nat): (f: Frame)
    requires m.Encodable() && i < m.Parts()
    ensures f.Fits()
  {
    var n := m.Parts();
    var piece := Piece(m.body, i);
    var flags: u16 := if n == 1 then SHORT_FLAGS else if i == n - 1 then END_FLAGS else PART_FLAGS;
    var sum := if i == n - 1 then Adler32.Checksum(m.body) else Adler32.Checksum(piece);
    Frame(Header(VERSION, m.ptype, |piece|, flags, HighWord(m.id), LowWord(m.id),
                 i, if n == 1 then 0 else n, sum), piece)
  }

  function FramesOf(m: Packet): seq<Frame>
    requires m.Encodable()
  {
    seq(m.Parts(), i requires 0 <= i < m.Parts() => FrameOf(m, i))
  }

  function Wires(fs: seq<Frame>): seq<seq<byte>>
  {
    seq(|fs|, i requires 0 <= i < |fs| => fs[i].Wire())
  }

  /** createProtoHeader: its 16-bit parameters truncate whatever the caller passes. */
  function CreateProtoHeader(version: byte, ptype: byte, payloadLen: nat, id: u64,
                             flags: u16, seqNo: nat, total: nat, checksum: u32): Header
  {
    Header(version, ptype, payloadLen % 0x1_0000, flags, HighWord(id), LowWord(id),
           seqNo % 0x1_0000, total % 0x1_0000, checksum)
  }

  /** What frame i of a message is on the wire, byte by byte: the magic, version 1, the type,
      the payload length, the flags (2 for a short message, else 3, or 7 at the end), the id,
      the number, the total (0 for a short message), the Adler-32 of the whole message in the
      last frame and of the payload in the others, and the payload; numbers big-endian. */
  predicate PartOnWire(f: seq<byte>, id: u64, body: seq<byte>, ptype: byte, i: nat)
  {
    var n := (|body| + 4095) / 4096;
    && i * 4096 < |body| && |f| >= 26
    && f[0] == 0x23 && f[1] == 0x31 && f[2] == 0x12 && f[3] == 0x48
    && f[4] == 1 && f[5] == ptype
    && f[6] as int * 256 + f[7] == |f| - 26
    && f[8] as int * 256 + f[9] == (if n == 1 then 2 else if i == n - 1 then 7 else 3)
    && f[10] as int * 0x100_0000_0000_0000 + f[11] as int * 0x1_0000_0000_0000
         + f[12] as int * 0x100_0000_0000 + f[13] as int * 0x1_0000_0000
         + f[14] as int * 0x100_0000 + f[15] as int * 0x1_0000 + f[16] as int * 0x100 + f[17] == id
    && f[18] as int * 256 + f[19] == i
    && f[20] as int * 256 + f[21] == (if n == 1 then 0 else n)
    && ((f[22] as int * 256 + f[23]) * 256 + f[24]) * 256 + f[25] ==
         Adler32.Checksum(if i == n - 1 then body else f[26..])
    && f[26..] == body[i * 4096..if i == n - 1 then |body| else i * 4096 + 4096]
  }

  lemma WireSplits(f: Frame)
    ensures |f.Wire()| == 26 + |f.payload| && f.Wire()[26..] == f.payload
    ensures f.Wire()[..26] == f.h.Bytes()
    ensures forall k :: 0 <= k < 26 ==> f.Wire()[k] == f.h.Bytes()[k]
  {
  }

  lemma PieceEnds(m: Packet, i: nat)
    requires m.Encodable() && i < m.Parts()
    ensures i * 4096 < |m.body|
    ensures Cut(m.body, i + 1) == if i == m.Parts() - 1 then |m.body| else i * 4096 + 4096
  {
  }

  lemma IdWords(id: u64, high: u32, low: u32)
    ensures high as int * 0x1_0000_0000 + low == id <==> high == HighWord(id) && low == LowWord(id)
  {
  }

  /** The frames of a message have exactly this layout. */
  lemma FrameLayout(m: Packet, i: nat)
    requires m.Encodable() && i < m.Parts()
    ensures PartOnWire(FrameOf(m, i).Wire(), m.id, m.body, m.ptype, i)
  {
    var f := FrameOf(m, i);
    PieceEnds(m, i);
    WireSplits(f);
    HeaderLayout(f.h);
    IdWords(m.id, f.h.idHigh, f.h.idLow);
    hide Adler32.Checksum, Header.Bytes;
  }

  /** And nothing else has it: a peer that writes this layout writes the frame. */
  lemma LayoutDetermines(f: seq<byte>, m: Packet, i: nat)
    requires m.Encodable() && i < m.Parts() && PartOnWire(f, m.id, m.body, m.ptype, i)
    ensures f == FrameOf(m, i).Wire()
  {
    hide Adler32.Checksum, ReadHeader, Header.Bytes;
    ReadLayout(f);
    HeaderBytesRoundTrip(f);
    PieceEnds(m, i);
    var h := ReadHeader(f);
    IdWords(m.id, h.idHigh, h.idLow);
    assert h == FrameOf(m, i).h;
    assert f == f[..26] + f[26..];
  }

  /** The body of encode's loop: piece i of a message that needs more than one frame. */
  method EncodePart(m: Packet, i: nat, totalParts: nat, totalCheckSum: u32) returns (frame: seq<byte>)
    requires m.Encodable() && |m.body| > CHUNK_SIZE && i < totalParts == m.Parts()
    requires totalCheckSum == Adler32.Checksum(m.body)
    ensures frame == FrameOf(m, i).Wire()
  {
    PartHeader(m, i);
    var offset := i * CHUNK_SIZE;
    var msgPiece := m.body[offset..if offset + CHUNK_SIZE <= |m.body| then offset + CHUNK_SIZE else |m.body|];
    assert msgPiece == Piece(m.body, i);
    var hdr: Header;
    if i != totalParts - 1 {
      var adl := Adler32.Adler32Update(1, msgPiece);
      hdr := CreateProtoHeader(VERSION, m.ptype, |msgPiece|, m.id, PART_FLAGS, i, totalParts, adl);
    } else {
      hdr := CreateProtoHeader(VERSION, m.ptype, |msgPiece|, m.id, END_FLAGS, i, totalParts, totalCheckSum);
    }
    frame := hdr.Bytes() + msgPiece;
  }

  /** encode: fails exactly on an empty or oversized message, and otherwise yields the
      wire form of FramesOf, whose fields are exact: no 16-bit field truncates. */
  method Encode(msgId: u64, msg: seq<byte>, ptype: byte) returns (r: EncodeResult)
    ensures r.InvalidArgument? <==> |msg| == 0 || |msg| > 10485760
    ensures r.Encoded? ==> |r.frames| == (|msg| + 4095) / 4096
    ensures r.Encoded? ==> forall i :: 0 <= i < |r.frames| ==> PartOnWire(r.frames[i], msgId, msg, ptype, i)
    ensures r.Encoded? ==> r.frames == Wires(FramesOf(Packet(msgId, ptype, msg)))
  {
    hide PartOnWire, Header.Bytes, Adler32.Fold;
    if |msg| == 0 || |msg| > MAX_DATA_SIZE {
      return InvalidArgument;
    }
    var m := Packet(msgId, ptype, msg);
    var totalCheckSum := Adler32.Adler32Update(1, msg);
    if |msg| <= CHUNK_SIZE {
      var hdr := CreateProtoHeader(VERSION, ptype, |msg|, msgId, SHORT_FLAGS, 0, 0, totalCheckSum);
      ShortFrame(m);
      FrameLayout(m, 0);
      return Encoded([hdr.Bytes() + msg]);
    }

    var totalParts := (|msg| + 4095) / 4096;
    var frames: seq<seq<byte>> := [];
    for i := 0 to totalParts
      invariant totalParts == m.Parts() > 1
      invariant |frames| == i
      invariant forall k :: 0 <= k < i ==> frames[k] == FrameOf(m, k).Wire()
      invariant forall k :: 0 <= k < i ==> PartOnWire(frames[k], msgId, msg, ptype, k)
    {
      FrameLayout(m, i);
      var frame := EncodePart(m, i, totalParts, totalCheckSum);
      frames := frames + [frame];
    }
    r := Encoded(frames);
  }

  lemma ShortFrame(m: Packet)
    requires m.Encodable() && |m.body| <= CHUNK_SIZE
    ensures m.Parts() == 1
    ensures FrameOf(m, 0).payload == m.body
    ensures FrameOf(m, 0).h
         == CreateProtoHeader(VERSION, m.ptype, |m.body|, m.id, SHORT_FLAGS, 0, 0, Adler32.Checksum(m.body))
  {
    hide Adler32.Checksum;
    assert Piece(m.body, 0) == m.body;
    SmallFits(|m.body|);
  }

  lemma SmallFits(n: nat)
    requires n <= CHUNK_SIZE
    ensures n % 0x1_0000 == n
  {
  }

  lemma PartHeader(m: Packet, i: nat)
    requires m.Encodable() && |m.body| > CHUNK_SIZE && i < m.Parts()
    ensures m.Parts() > 1
    ensures i * CHUNK_SIZE < |m.body| && Piece(m.body, i) == m.body[i * CHUNK_SIZE..Cut(m.body, i + 1)]
    ensures FrameOf(m, i) == var p := Piece(m.body, i); Frame(
      if i != m.Parts() - 1
      then CreateProtoHeader(VERSION, m.ptype, |p|, m.id, PART_FLAGS, i, m.Parts(), Adler32.Checksum(p))
      else CreateProtoHeader(VERSION, m.ptype, |p|, m.id, END_FLAGS, i, m.Parts(), Adler32.Checksum(m.body)), p)
  {
    hide Adler32.Checksum;
    var n := m.Parts();
    var p := Piece(m.body, i);
    assert 1 < n;
    SmallFits(|p|);
    SmallFits(i);
    SmallFits(n);
  }

  /** createHeartbeatFrame: a header with every other field zeroed, and no payload. */
  function CreateHeartbeatFrame(): seq<byte>
  {
    Header(VERSION, HEARTBEAT, 0, 0, 0, 0, 0, 0, 0).Bytes()
  }

  /** Its 26 bytes: the magic, version 1, type 1 and zeros. */
  lemma HeartbeatLayout()
    ensures CreateHeartbeatFrame() == [0x23, 0x31, 0x12, 0x48, 1, 1] + seq(20, i => 0)
  {
  }

  // ---- what the pieces mean ----

  function Pieces(body: seq<byte>, n: nat): seq<seq<byte>>
    requires n == 0 || (n - 1) * CHUNK_SIZE < |body|
  {
    seq(n, i requires 0 <= i < n => Piece(body, i))
  }

  lemma PieceExtends(body: seq<byte>, i: nat)
    requires i * CHUNK_SIZE < |body|
    ensures body[..Cut(body, i)] + Piece(body, i) == body[..Cut(body, i + 1)]
  {
  }

  lemma {:induction false} PrefixOfPieces(body: seq<byte>, n: nat)
    requires n == 0 || (n - 1) * CHUNK_SIZE < |body|
    ensures Concat(Pieces(body, n)) == body[..Cut(body, n)]
  {
    if n > 0 {
      PrefixOfPieces(body, n - 1);
      assert Pieces(body, n) == Pieces(body, n - 1) + [Piece(body, n - 1)];
      ConcatSnoc(Pieces(body, n - 1), Piece(body, n - 1));
      PieceExtends(body, n - 1);
    }
  }

  /** The payloads of a message's frames, in order, are exactly its body. */
  lemma PiecesCoverBody(m: Packet)
    requires m.Encodable()
    ensures Concat(Pieces(m.body, m.Parts())) == m.body
    ensures forall i :: 0 <= i < m.Parts() ==> FrameOf(m, i).payload == Pieces(m.body, m.Parts())[i]
  {
    PrefixOfPieces(m.body, m.Parts());
  }
}
