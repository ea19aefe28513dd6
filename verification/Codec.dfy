// FrameProtocolCodec itself: the receive buffer and the fragment cache, changed in place
// (include/FrameProtocalCodec.hpp:34-37, 102-158, 194-262, 288-290).
module Codec {
  import opened Bytes
  import opened Proto
  import opened Encoder
  import opened Scanner
  import opened Streaming
  import opened Reassembly
  import Adler32

  class FrameProtocolCodec {
    var buffer_: seq<byte>
    var fragCache_: Cache

    constructor ()
      ensures buffer_ == [] && fragCache_ == map[]
    {
      buffer_, fragCache_ := [], map[];
    }

    /** decode: appends the chunk, takes every token the buffer now holds, and handles the
        frames among them in order, appending their packets to the caller's list. */
    method Decode(data: seq<byte>, outMsg: seq<Packet>) returns (out: seq<Packet>)
      modifies this
      ensures var p := Scan(old(buffer_) + data);
        var r := Run(old(fragCache_), FramesIn(p.tokens));
        buffer_ == p.left && fragCache_ == r.cache && out == outMsg + r.out
    {
      hide Scan, Run, FramesIn, Progress;
      ghost var goal := Goal(buffer_ + data, fragCache_, outMsg);
      ghost var taken: seq<Token> := [];
      buffer_ := buffer_ + data;
      out := outMsg;
      Begin(goal);
      while |buffer_| >= HEADER_SIZE
        invariant goal == Goal(old(buffer_) + data, old(fragCache_), outMsg)
        invariant Progress(goal, taken, buffer_, fragCache_, out)
        decreases |buffer_|
      {
        if !MagicAt(buffer_, 0) {
          var foundMagic := false;
          ghost var first := NextMagic(buffer_, 1);
          var i := 1;
          while i <= |buffer_| - 4
            invariant 1 <= i <= |buffer_| - 3
            invariant NextMagic(buffer_, i) == first
          {
            if MagicAt(buffer_, i) {
              foundMagic := true;
              break;
            }
            i := i + 1;
          }
          if !foundMagic {
            Clear(goal, taken, buffer_, fragCache_, out);
            buffer_ := [];
            return;
          }
          SkipGarbage(goal, taken, buffer_, fragCache_, out, i);
          taken := taken + [Garbage(buffer_[..i])];
          buffer_ := buffer_[i..];
          continue;
        }

        if buffer_[4] != VERSION {
          Clear(goal, taken, buffer_, fragCache_, out);
          buffer_ := [];
          return;
        }

        if buffer_[5] == HEARTBEAT {
          SkipBeat(goal, taken, buffer_, fragCache_, out);
          taken := taken + [Beat(buffer_[..HEADER_SIZE])];
          buffer_ := buffer_[HEADER_SIZE..];
          continue;
        }

        var hdr := ReadHeader(buffer_);
        var totalFrameLen := HEADER_SIZE + hdr.payloadLen;
        if |buffer_| < totalFrameLen {
          break;
        }

        TakeFrame(goal, taken, buffer_, fragCache_, out);
        taken := taken + [Data(Frame(hdr, buffer_[HEADER_SIZE..totalFrameLen]))];
        var error;
        out, error := HandleSingleFrame(hdr, buffer_[HEADER_SIZE..totalFrameLen], out);
        buffer_ := buffer_[totalFrameLen..];
      }
      Finish(goal, taken, buffer_, fragCache_, out);
    }

    /** handleSingleFrame: the cache changes only at the frame's own id, and as Assemble says;
        error is the exception that decode catches, logs and forgets. */
    method HandleSingleFrame(hdr: Header, body: seq<byte>, outMsg: seq<Packet>)
      returns (out: seq<Packet>, error: Option<Error>)
      requires |body| == hdr.payloadLen
      modifies this`fragCache_
      ensures var o := Handle(old(fragCache_), Frame(hdr, body));
        && fragCache_ == Store(old(fragCache_), hdr.MsgId(), o.entry)
        && out == outMsg + o.verdict.Out()
        && error == if o.verdict.Reject? then Some(o.verdict.error) else None
    {
      out, error := outMsg, None;
      var msgId := hdr.MsgId();
      var adl: u32;
      if !HasFragmented(hdr.flags) {
        adl := Adler32.Adler32Update(1, body);
        if adl == hdr.checksum {
          out := out + [Packet(msgId, hdr.ptype, body)];
        } else {
          error := Some(ChecksumMismatch);
        }
        return;
      }

      if msgId !in fragCache_ {
        fragCache_ := fragCache_[msgId := []];
      }
      if fragCache_[msgId] == [] {
        fragCache_ := fragCache_[msgId := Blank(hdr.total)];
      }
      if hdr.seqNo < |fragCache_[msgId]| {
        fragCache_ := fragCache_[msgId := fragCache_[msgId][hdr.seqNo := body]];
      } else {
        fragCache_ := fragCache_ - {msgId};
        assert fragCache_ == old(fragCache_) - {msgId};
        error := Some(InvalidSeq);
        return;
      }
      var parts := fragCache_[msgId];
      assert fragCache_ == old(fragCache_)[msgId := parts];

      if !HasEndPart(hdr.flags) {
        adl := Adler32.Adler32Update(1, body);
        if adl != hdr.checksum {
          fragCache_ := fragCache_ - {msgId};
          assert fragCache_ == old(fragCache_) - {msgId};
          error := Some(ChecksumMismatch);
        }
      } else {
        var fullMsg := JoinParts(parts);
        if fullMsg.None? {
          fragCache_ := fragCache_ - {msgId};
          assert fragCache_ == old(fragCache_) - {msgId};
          error := Some(MissingPart);
          return;
        }
        adl := Adler32.Adler32Update(1, fullMsg.value);
        if adl != hdr.checksum {
          error := Some(ChecksumMismatch);
          return;
        }
        out := out + [Packet(msgId, hdr.ptype, fullMsg.value)];
        fragCache_ := fragCache_ - {msgId};
        assert fragCache_ == old(fragCache_) - {msgId};
      }
    }
  }

  /** Any number of decode calls on a codec that holds no bytes: together they take the
      tokens of ScanChunks and handle their frames in order. */
  method DecodeAll(codec: FrameProtocolCodec, chunks: seq<seq<byte>>) returns (out: seq<Packet>)
    requires codec.buffer_ == []
    modifies codec
    ensures var p := ScanChunks(chunks);
      var r := Run(old(codec.fragCache_), FramesIn(p.tokens));
      codec.buffer_ == p.left && codec.fragCache_ == r.cache && out == r.out
  {
    out := [];
    for i := 0 to |chunks|
      invariant codec.buffer_ == ScanChunks(chunks[..i]).left
      invariant codec.fragCache_ == Run(old(codec.fragCache_), FramesIn(ScanChunks(chunks[..i]).tokens)).cache
      invariant out == Run(old(codec.fragCache_), FramesIn(ScanChunks(chunks[..i]).tokens)).out
    {
      assert chunks[..i + 1][..i] == chunks[..i];
      ghost var before := ScanChunks(chunks[..i]);
      ghost var now := Scan(before.left + chunks[i]);
      FramesInConcat(before.tokens, now.tokens);
      RunConcat(old(codec.fragCache_), FramesIn(before.tokens), FramesIn(now.tokens));
      out := codec.Decode(chunks[i], out);
    }
    assert chunks[..|chunks|] == chunks;
  }

  /** The loop of lines 239-252: the slots in order, or None when one is still empty. */
  method JoinParts(parts: Slots) returns (r: Option<seq<byte>>)
    ensures r == if [] in parts then None else Some(Concat(parts))
  {
    var fullMsg: seq<byte> := [];
    for k := 0 to |parts|
      invariant fullMsg == Concat(parts[..k])
      invariant [] !in parts[..k]
    {
      if parts[k] == [] {
        return None;
      }
      assert parts[..k + 1] == parts[..k] + [parts[k]];
      ConcatSnoc(parts[..k], parts[k]);
      fullMsg := fullMsg + parts[k];
    }
    assert parts[..|parts|] == parts;
    r := Some(fullMsg);
  }

  // ---- the invariant of decode's loop, and its steps ----

  /** What a call starts from: the bytes to drain, the cache, and the caller's list. */
  datatype Goal = Goal(bytes: seq<byte>, cache: Cache, out: seq<Packet>)

  /** The tokens taken so far and the parse of the buffer make up the parse of all bytes,
      and the frames taken so far have been handled. */
  ghost predicate Progress(g: Goal, taken: seq<Token>, buffer: seq<byte>, cache: Cache, out: seq<Packet>)
  {
    && Scan(g.bytes) == Join(Parse(taken, []), Scan(buffer))
    && Run(g.cache, FramesIn(taken)).cache == cache
    && out == g.out + Run(g.cache, FramesIn(taken)).out
  }

  ghost predicate Done(g: Goal, buffer: seq<byte>, cache: Cache, out: seq<Packet>)
  {
    var p := Scan(g.bytes);
    var r := Run(g.cache, FramesIn(p.tokens));
    buffer == p.left && cache == r.cache && out == g.out + r.out
  }

  lemma Begin(g: Goal)
    ensures Progress(g, [], g.bytes, g.cache, g.out)
  {
  }

  lemma TakeFramesIn(taken: seq<Token>, p: Token)
    ensures FramesIn(taken + [p]) == FramesIn(taken) + (if p.Data? then [p.frame] else [])
  {
    FramesInConcat(taken, [p]);
    FramesInCons(p, []);
    assert [p] + [] == [p];
  }

  lemma TakesNoFrame(taken: seq<Token>, p: Token)
    requires !p.Data?
    ensures FramesIn(taken + [p]) == FramesIn(taken)
  {
    TakeFramesIn(taken, p);
  }

  /** Erasing the first token's bytes moves that token from the buffer's parse to the taken ones. */
  lemma TakeNext(taken: seq<Token>, s: seq<byte>)
    requires Scan(s).tokens != [] && !Scan(s).tokens[0].Cleared?
    ensures var p := Scan(s).tokens[0]; var n := |p.Raw()|;
      && 0 < n <= |s|
      && Join(Parse(taken, []), Scan(s)) == Join(Parse(taken + [p], []), Scan(s[n..]))
  {
    ScanTakes(s);
    var p := Scan(s).tokens[0];
    var rest := Scan(s[|p.Raw()|..]);
    assert taken + ([p] + rest.tokens) == taken + [p] + rest.tokens;
  }

  lemma SkipToken(g: Goal, taken: seq<Token>, s: seq<byte>, cache: Cache, out: seq<Packet>)
    requires Progress(g, taken, s, cache, out)
    requires Scan(s).tokens != [] && (Scan(s).tokens[0].Garbage? || Scan(s).tokens[0].Beat?)
    ensures var p := Scan(s).tokens[0]; var n := |p.Raw()|;
      0 < n <= |s| && Progress(g, taken + [p], s[n..], cache, out)
  {
    var p := Scan(s).tokens[0];
    TakeNext(taken, s);
    assert FramesIn(taken + [p]) == FramesIn(taken) by { TakesNoFrame(taken, p); }
  }

  lemma SkipGarbage(g: Goal, taken: seq<Token>, s: seq<byte>, cache: Cache, out: seq<Packet>, i: nat)
    requires Progress(g, taken, s, cache, out)
    requires |s| >= HEADER_SIZE && !MagicAt(s, 0) && NextMagic(s, 1) == Some(i)
    ensures 0 < i <= |s| && Progress(g, taken + [Garbage(s[..i])], s[i..], cache, out)
  {
    assert Scan(s).tokens[0] == Garbage(s[..i]);
    SkipToken(g, taken, s, cache, out);
  }

  lemma SkipBeat(g: Goal, taken: seq<Token>, s: seq<byte>, cache: Cache, out: seq<Packet>)
    requires Progress(g, taken, s, cache, out)
    requires |s| >= HEADER_SIZE && MagicAt(s, 0) && s[4] == VERSION && s[5] == HEARTBEAT
    ensures Progress(g, taken + [Beat(s[..HEADER_SIZE])], s[HEADER_SIZE..], cache, out)
  {
    assert Scan(s).tokens[0] == Beat(s[..HEADER_SIZE]);
    SkipToken(g, taken, s, cache, out);
  }

  lemma TakeFrame(g: Goal, taken: seq<Token>, s: seq<byte>, cache: Cache, out: seq<Packet>)
    requires Progress(g, taken, s, cache, out)
    requires |s| >= HEADER_SIZE && MagicAt(s, 0) && s[4] == VERSION && s[5] != HEARTBEAT
    requires |s| >= HEADER_SIZE + ReadHeader(s).payloadLen
    ensures var n := HEADER_SIZE + ReadHeader(s).payloadLen;
      var f := Frame(ReadHeader(s), s[HEADER_SIZE..n]);
      var o := Handle(cache, f);
      Progress(g, taken + [Data(f)], s[n..], Store(cache, f.h.MsgId(), o.entry), out + o.verdict.Out())
  {
    var n := HEADER_SIZE + ReadHeader(s).payloadLen;
    var f := Frame(ReadHeader(s), s[HEADER_SIZE..n]);
    FirstFrame(s, n);
    TakeNext(taken, s);
    HandledNext(g, taken, f, cache, out);
  }

  lemma FirstFrame(s: seq<byte>, n: nat)
    requires |s| >= HEADER_SIZE && MagicAt(s, 0) && s[4] == VERSION && s[5] != HEARTBEAT
    requires n == HEADER_SIZE + ReadHeader(s).payloadLen <= |s|
    ensures var f := Frame(ReadHeader(s), s[HEADER_SIZE..n]);
      Scan(s).tokens != [] && Scan(s).tokens[0] == Data(f) && |Data(f).Raw()| == n
  {
  }

  lemma HandledNext(g: Goal, taken: seq<Token>, f: Frame, cache: Cache, out: seq<Packet>)
    requires Run(g.cache, FramesIn(taken)).cache == cache
    requires out == g.out + Run(g.cache, FramesIn(taken)).out
    ensures var r := Run(g.cache, FramesIn(taken + [Data(f)])); var o := Handle(cache, f);
      r.cache == Store(cache, f.h.MsgId(), o.entry) && out + o.verdict.Out() == g.out + r.out
  {
    TakeFramesIn(taken, Data(f));
    RunSnoc(g.cache, FramesIn(taken), f);
    var v := Handle(cache, f).verdict;
    var earlier := Run(g.cache, FramesIn(taken)).out;
    assert g.out + (earlier + v.Out()) == g.out + earlier + v.Out();
  }

  lemma Clear(g: Goal, taken: seq<Token>, s: seq<byte>, cache: Cache, out: seq<Packet>)
    requires Progress(g, taken, s, cache, out)
    requires |s| >= HEADER_SIZE
    requires if MagicAt(s, 0) then s[4] != VERSION else NextMagic(s, 1).None?
    ensures Done(g, [], cache, out)
  {
    assert Scan(s) == Parse([Cleared(s)], []);
    assert Scan(g.bytes) == Parse(taken + [Cleared(s)], []);
    TakesNoFrame(taken, Cleared(s));
  }

  lemma Finish(g: Goal, taken: seq<Token>, s: seq<byte>, cache: Cache, out: seq<Packet>)
    requires Progress(g, taken, s, cache, out)
    requires Stuck(s)
    ensures Done(g, s, cache, out)
  {
    assert Scan(s) == Parse([], s);
    assert taken + [] == taken;
  }
}
