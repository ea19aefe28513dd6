// The wire format: header layout, magic number, flags and limits
// (include/proto.h, include/FrameProtocalCodec.hpp:29-32).
module Proto {
  import opened Bytes

  const HEADER_SIZE := 26
  const VERSION: byte := 1

  const CHATMSG: byte := 0
  const HEARTBEAT: byte := 1

  // The flag combinations encode uses, of FRAGMENTED (bit 0), CHECKSUM (bit 1) and ENDPART (bit 2).
  const SHORT_FLAGS: u16 := 2
  const PART_FLAGS: u16 := 3
  const END_FLAGS: u16 := 7

  const CHUNK_SIZE := 4096
  const MAX_DATA_SIZE := 10485760

  /** PROTO_MAGIC as a little-endian host stores it; the four bytes are distinct. */
  const MAGIC: seq<byte> := [0x23, 0x31, 0x12, 0x48]

  /** flags & FRAGMENTED and flags & ENDPART: bits 0 and 2 of the field. */
  predicate HasFragmented(flags: u16)
  {
    flags % 2 == 1
  }

  predicate HasEndPart(flags: u16)
  {
    flags / 4 % 2 == 1
  }

  /** A ProtoHeader after the magic, its fields in host order. */
  datatype Header = Header(
    version: byte, ptype: byte, payloadLen: u16, flags: u16,
    idHigh: u32, idLow: u32, seqNo: u16, total: u16, checksum: u32)
  {
    function MsgId(): u64 {
      idHigh as int * 0x1_0000_0000 + idLow
    }

    predicate IsFragment() {
      HasFragmented(flags)
    }

    predicate IsEnd() {
      HasEndPart(flags)
    }

    /** The packed 26 bytes, multi-byte fields other than the magic big-endian. */
    function Bytes(): (r: seq<byte>)
      ensures |r| == HEADER_SIZE
    {
      MAGIC + [version, ptype] + U16Bytes(payloadLen) + U16Bytes(flags)
      + U32Bytes(idHigh) + U32Bytes(idLow) + U16Bytes(seqNo) + U16Bytes(total) + U32Bytes(checksum)
    }
  }

  lemma PartFlags(h: Header)
    requires h.flags == PART_FLAGS
    ensures h.IsFragment() && !h.IsEnd()
  {
  }

  lemma EndFlags(h: Header)
    requires h.flags == END_FLAGS
    ensures h.IsFragment() && h.IsEnd()
  {
  }

  predicate MagicAt(s: seq<byte>, i: nat)
    requires i + 4 <= |s|
  {
    s[i..i + 4] == MAGIC
  }

  /** The header fields read at the front of a buffer. */
  function ReadHeader(s: seq<byte>): Header
    requires |s| >= HEADER_SIZE
  {
    Header(s[4], s[5], U16At(s, 6), U16At(s, 8), U32At(s, 10), U32At(s, 14),
           U16At(s, 18), U16At(s, 20), U32At(s, 22))
  }

  /** The header's id fields split and rejoin a 64-bit id. */
  function HighWord(id: u64): u32 { id / 0x1_0000_0000 }
  function LowWord(id: u64): u32 { id % 0x1_0000_0000 }

  lemma U16RoundTrip(n: u16, s: seq<byte>, i: nat)
    requires i + 2 <= |s| && s[i] == U16Bytes(n)[0] && s[i + 1] == U16Bytes(n)[1]
    ensures U16At(s, i) == n
  {
  }

  lemma U32RoundTrip(n: u32, s: seq<byte>, i: nat)
    requires i + 4 <= |s|
    requires forall k :: 0 <= k < 4 ==> s[i + k] == U32Bytes(n)[k]
    ensures U32At(s, i) == n
  {
    var b := U32Bytes(n);
    assert s[i + 0] == b[0] && s[i + 1] == b[1] && s[i + 2] == b[2] && s[i + 3] == b[3];
    WordDigits(n);
  }

  /** A word is made of its four bytes. */
  lemma WordDigits(n: nat)
    ensures n == n / 0x100_0000 * 0x100_0000 + n / 0x1_0000 % 0x100 * 0x1_0000 + n / 0x100 % 0x100 * 0x100 + n % 0x100
  {
    var low, mid := n / 0x100, n / 0x1_0000;
    DivideOnce(n);
    assert n == low * 0x100 + n % 0x100;
    assert low == mid * 0x100 + low % 0x100;
    assert mid == n / 0x100_0000 * 0x100 + mid % 0x100;
  }

  lemma DivideOnce(n: nat)
    ensures n / 0x1_0000 == n / 0x100 / 0x100
    ensures n / 0x100_0000 == n / 0x1_0000 / 0x100
  {
  }

  /** Reading a written header gives back its fields, whatever follows it. */
  lemma HeaderRoundTrip(h: Header, rest: seq<byte>)
    ensures MagicAt(h.Bytes() + rest, 0)
    ensures ReadHeader(h.Bytes() + rest) == h
  {
    var s := h.Bytes() + rest;
    U16RoundTrip(h.payloadLen, s, 6);
    U16RoundTrip(h.flags, s, 8);
    U32RoundTrip(h.idHigh, s, 10);
    U32RoundTrip(h.idLow, s, 14);
    U16RoundTrip(h.seqNo, s, 18);
    U16RoundTrip(h.total, s, 20);
    U32RoundTrip(h.checksum, s, 22);
  }

  /** Where a written header's fields lie: every offset and every weight of include/proto.h:41-52. */
  lemma HeaderLayout(h: Header)
    ensures var b := h.Bytes();
      && b[0] == 0x23 && b[1] == 0x31 && b[2] == 0x12 && b[3] == 0x48
      && b[4] == h.version && b[5] == h.ptype
      && b[6] as int * 256 + b[7] == h.payloadLen
      && b[8] as int * 256 + b[9] == h.flags
      && ((b[10] as int * 256 + b[11]) * 256 + b[12]) * 256 + b[13] == h.idHigh
      && ((b[14] as int * 256 + b[15]) * 256 + b[16]) * 256 + b[17] == h.idLow
      && b[18] as int * 256 + b[19] == h.seqNo
      && b[20] as int * 256 + b[21] == h.total
      && ((b[22] as int * 256 + b[23]) * 256 + b[24]) * 256 + b[25] == h.checksum
  {
    var b := h.Bytes();
    HeaderRoundTrip(h, []);
    assert b + [] == b;
    assert b[..4] == MAGIC;
    ReadLayout(b);
  }

  /** Where decode and handleSingleFrame look for the fields, in any 26 bytes. */
  lemma ReadLayout(s: seq<byte>)
    requires |s| >= 26
    ensures var h := ReadHeader(s);
      && h.version == s[4] && h.ptype == s[5]
      && h.payloadLen == s[6] as int * 256 + s[7]
      && h.flags == s[8] as int * 256 + s[9]
      && h.idHigh == ((s[10] as int * 256 + s[11]) * 256 + s[12]) * 256 + s[13]
      && h.idLow == ((s[14] as int * 256 + s[15]) * 256 + s[16]) * 256 + s[17]
      && h.seqNo == s[18] as int * 256 + s[19]
      && h.total == s[20] as int * 256 + s[21]
      && h.checksum == ((s[22] as int * 256 + s[23]) * 256 + s[24]) * 256 + s[25]
    ensures ReadHeader(s).MsgId() ==
         s[10] as int * 0x100_0000_0000_0000 + s[11] as int * 0x1_0000_0000_0000
         + s[12] as int * 0x100_0000_0000 + s[13] as int * 0x1_0000_0000
         + s[14] as int * 0x100_0000 + s[15] as int * 0x1_0000 + s[16] as int * 0x100 + s[17]
    ensures ReadHeader(s).IsFragment() <==> s[9] % 2 == 1
    ensures ReadHeader(s).IsEnd() <==> s[9] / 4 % 2 == 1
    ensures MagicAt(s, 0) <==> s[0] == 0x23 && s[1] == 0x31 && s[2] == 0x12 && s[3] == 0x48
  {
    FlagBits(s[8], s[9]);
    assert MagicAt(s, 0) <==> s[0..4] == [0x23, 0x31, 0x12, 0x48];
    assert s[0..4] == [s[0], s[1], s[2], s[3]];
  }

  lemma FlagBits(high: int, low: int)
    ensures (high * 256 + low) % 2 == low % 2
    ensures (high * 256 + low) / 4 % 2 == low / 4 % 2
  {
    EvenPart(high * 128, low);
    FourParts(high * 64, low);
    EvenPart(high * 32, low / 4);
  }

  lemma EvenPart(k: int, x: int)
    ensures (2 * k + x) % 2 == x % 2
  {
  }

  lemma FourParts(k: int, x: int)
    ensures (4 * k + x) / 4 == k + x / 4
  {
  }

  lemma U16BytesAt(s: seq<byte>, i: nat)
    requires i + 2 <= |s|
    ensures U16Bytes(U16At(s, i)) == s[i..i + 2]
  {
  }

  lemma U32BytesAt(s: seq<byte>, i: nat)
    requires i + 4 <= |s|
    ensures U32Bytes(U32At(s, i)) == s[i..i + 4]
  {
    var a, b, c, d := s[i] as int, s[i + 1] as int, s[i + 2] as int, s[i + 3] as int;
    var n := U32At(s, i);
    assert n / 0x100_0000 == a && n / 0x1_0000 == a * 0x100 + b && n / 0x100 == (a * 0x100 + b) * 0x100 + c;
  }

  /** Conversely, writing the fields read from 26 bytes that start with the magic
      reproduces those bytes: the layout wastes no byte and hides none. */
  lemma HeaderBytesRoundTrip(s: seq<byte>)
    requires |s| >= HEADER_SIZE && MagicAt(s, 0)
    ensures ReadHeader(s).Bytes() == s[..HEADER_SIZE]
  {
    hide U16Bytes, U16At, U32Bytes, U32At;
    U16BytesAt(s, 6);
    U16BytesAt(s, 8);
    U16BytesAt(s, 18);
    U16BytesAt(s, 20);
    U32BytesAt(s, 10);
    U32BytesAt(s, 14);
    U32BytesAt(s, 22);
    assert s[..26] == s[0..4] + [s[4], s[5]] + s[6..8] + s[8..10] + s[10..14] + s[14..18]
                   + s[18..20] + s[20..22] + s[22..26];
  }
}
