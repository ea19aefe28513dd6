// Soundness on arbitrary input: where a handed-on packet's bytes come from, in terms of
// the frames received so far.
module History {
  import opened Bytes
  import opened Proto
  import opened Encoder
  import opened Scanner
  import opened Streaming
  import opened Reassembly
  import opened Interleaving
  import Adler32

  // ---- one id's frames ----

  ghost predicate Cached(gs: seq<Frame>)
  {
    RunOne(None, gs).entry.Some?
  }

  /** The position in gs of the frame that created the entry now in the cache. */
  ghost function Birth(gs: seq<Frame>): (b: nat)
    requires Cached(gs)
    ensures b < |gs|
  {
    var n := |gs| - 1;
    if Cached(gs[..n]) then Birth(gs[..n]) else n
  }

  /** The payload of the latest fragment numbered k, or nothing if there is none. */
  function Latest(gs: seq<Frame>, k: nat): seq<byte>
  {
    if gs == [] then [] else
      var f := gs[|gs| - 1];
      if f.h.IsFragment() && f.h.seqNo == k then f.payload else Latest(gs[..|gs| - 1], k)
  }

  function LatestSlots(gs: seq<Frame>, n: nat): Slots
  {
    seq(n, k requires k >= 0 => Latest(gs, k))
  }

  lemma LatestSnoc(gs: seq<Frame>, f: Frame, n: nat)
    ensures LatestSlots(gs + [f], n) ==
      if f.h.IsFragment() && f.h.seqNo < n then LatestSlots(gs, n)[f.h.seqNo := f.payload] else LatestSlots(gs, n)
  {
  }

  lemma LatestNone(n: nat)
    ensures LatestSlots([], n) == Blank(n)
  {
  }

  /** The slots of a cached entry are the latest fragments since the entry was created. */
  ghost predicate Explained(gs: seq<Frame>)
  {
    Cached(gs) ==>
      var b := Birth(gs);
      gs[b].h.IsFragment() && RunOne(None, gs).entry == Some(LatestSlots(gs[b..], gs[b].h.total))
  }

  lemma FillsExisting(gs: seq<Frame>, f: Frame)
    requires Cached(gs) && Explained(gs) && EntryOk(RunOne(None, gs).entry) && f.h.IsFragment()
    ensures var b := Birth(gs); var n := gs[b].h.total; var slots := Opened(RunOne(None, gs).entry, f.h.total);
      && |slots| == n
      && (f.h.seqNo < n ==> slots[f.h.seqNo := f.payload] == LatestSlots(gs[b..] + [f], n))
  {
    LatestSnoc(gs[Birth(gs)..], f, gs[Birth(gs)].h.total);
  }

  lemma FillsNew(f: Frame)
    requires f.h.IsFragment()
    ensures var n := f.h.total; var slots := Opened(None, f.h.total);
      && |slots| == n
      && (f.h.seqNo < n ==> slots[f.h.seqNo := f.payload] == LatestSlots([f], n))
  {
    LatestNone(f.h.total);
    LatestSnoc([], f, f.h.total);
    assert [] + [f] == [f];
  }

  /** The slots a fragment f finds and fills, after frames gs. */
  lemma FillsLatest(gs: seq<Frame>, f: Frame)
    requires Explained(gs) && EntryOk(RunOne(None, gs).entry) && f.h.IsFragment()
    ensures var b := if Cached(gs) then Birth(gs) else |gs|;
      var hs := gs + [f];
      var n := hs[b].h.total; var slots := Opened(RunOne(None, gs).entry, f.h.total);
      && |slots| == n
      && (f.h.seqNo < n ==> slots[f.h.seqNo := f.payload] == LatestSlots(hs[b..], n))
  {
    hide Opened, LatestSlots, Explained;
    var hs := gs + [f];
    if Cached(gs) {
      FillsExisting(gs, f);
      assert hs[Birth(gs)..] == gs[Birth(gs)..] + [f];
    } else {
      FillsNew(f);
      assert hs[|gs|..] == [f];
    }
  }

  lemma BirthSnoc(gs: seq<Frame>, f: Frame)
    requires Cached(gs + [f])
    ensures Birth(gs + [f]) == if Cached(gs) then Birth(gs) else |gs|
  {
  }

  lemma FragmentExplained(gs: seq<Frame>, f: Frame)
    requires Explained(gs) && EntryOk(RunOne(None, gs).entry) && f.h.IsFragment()
    ensures Explained(gs + [f])
  {
    hide Assemble, Opened, LatestSlots, RunOne;
    RunOneSnoc(None, gs, f);
    FragmentFills(RunOne(None, gs).entry, f);
    if Cached(gs + [f]) {
      BirthSnoc(gs, f);
      FillsLatest(gs, f);
    }
  }

  /** A fragment that leaves an entry has put its payload in its slot. */
  lemma FragmentFills(entry: Option<Slots>, f: Frame)
    requires f.h.IsFragment()
    ensures var e := Assemble(entry, f).entry; var slots := Opened(entry, f.h.total);
      e.Some? ==> f.h.seqNo < |slots| && e.value == slots[f.h.seqNo := f.payload]
  {
  }

  lemma WholeExplained(gs: seq<Frame>, f: Frame)
    requires Explained(gs) && !f.h.IsFragment()
    ensures Explained(gs + [f])
  {
    var hs := gs + [f];
    RunOneSnoc(None, gs, f);
    if Cached(hs) {
      BirthSnoc(gs, f);
      var b := Birth(gs);
      assert hs[b..] == gs[b..] + [f];
      LatestSnoc(gs[b..], f, gs[b].h.total);
    }
  }

  lemma ExplainedSnoc(gs: seq<Frame>, f: Frame)
    requires Explained(gs) && EntryOk(RunOne(None, gs).entry)
    ensures Explained(gs + [f])
  {
    if f.h.IsFragment() { FragmentExplained(gs, f); } else { WholeExplained(gs, f); }
  }

  lemma {:induction false} AlwaysExplained(gs: seq<Frame>)
    ensures Explained(gs) && EntryOk(RunOne(None, gs).entry)
  {
    if gs != [] {
      var t, f := gs[..|gs| - 1], gs[|gs| - 1];
      AlwaysExplained(t);
      AssembleKeepsEntry(RunOne(None, t).entry, f);
      ExplainedSnoc(t, f);
      assert gs == t + [f];
    }
  }

  /** Where a packet handed on by frame f comes from, gs being the earlier frames of its id:
      its body has the Adler-32 that f announces, and is f's payload, or, if f is a fragment,
      the concatenation of as many non-empty slots as the frame that created the entry said,
      each the latest fragment of that number since then. */
  ghost predicate Justified(p: Packet, gs: seq<Frame>, f: Frame)
  {
    && p.id == f.h.MsgId() && p.ptype == f.h.ptype
    && Adler32.Checksum(p.body) == f.h.checksum
    && if !f.h.IsFragment() then p.body == f.payload
       else
         var b := if Cached(gs) then Birth(gs) else |gs|;
         var hs := gs + [f];
         var slots := LatestSlots(hs[b..], hs[b].h.total);
         f.h.IsEnd() && [] !in slots && p.body == Concat(slots)
  }

  lemma EmittedIsJustified(gs: seq<Frame>, f: Frame)
    ensures var v := Assemble(RunOne(None, gs).entry, f).verdict;
      v.Emit? ==> Justified(v.packet, gs, f)
  {
    AlwaysExplained(gs);
    if f.h.IsFragment() {
      FillsLatest(gs, f);
    }
  }

  // ---- all frames a codec has handled ----

  /** p is justified by the j-th frame and the earlier frames of the same id. */
  ghost predicate JustifiedAt(fs: seq<Frame>, p: Packet, j: nat)
  {
    j < |fs| && Justified(p, Only(fs[..j], p.id), fs[j])
  }

  /** The packets come one from each of a rising sequence of frames that justify them. */
  ghost predicate Sound(fs: seq<Frame>, out: seq<Packet>, at: seq<nat>)
  {
    && |at| == |out|
    && (forall k :: 0 <= k < |at| ==> JustifiedAt(fs, out[k], at[k]))
    && (forall k, l :: 0 <= k < l < |at| ==> at[k] < at[l])
  }

  lemma JustifiedLater(fs: seq<Frame>, f: Frame, p: Packet, j: nat)
    requires JustifiedAt(fs, p, j)
    ensures JustifiedAt(fs + [f], p, j)
  {
    assert (fs + [f])[..j] == fs[..j];
  }

  lemma SoundExtends(fs: seq<Frame>, f: Frame, out: seq<Packet>, at: seq<nat>)
    requires Sound(fs, out, at)
    ensures Sound(fs + [f], out, at)
  {
    forall k | 0 <= k < |at| ensures JustifiedAt(fs + [f], out[k], at[k]) {
      JustifiedLater(fs, f, out[k], at[k]);
    }
  }

  lemma SoundSnoc(fs: seq<Frame>, out: seq<Packet>, at: seq<nat>, p: Packet, j: nat)
    requires Sound(fs, out, at) && JustifiedAt(fs, p, j)
    requires forall k :: 0 <= k < |at| ==> at[k] < j
    ensures Sound(fs, out + [p], at + [j])
  {
  }

  ghost predicate AllJustified(fs: seq<Frame>, out: seq<Packet>)
  {
    exists at: seq<nat> :: Sound(fs, out, at)
  }

  /** What a codec with an empty cache hands on. */
  function Received(fs: seq<Frame>): seq<Packet>
  {
    Run(map[], fs).out
  }

  lemma NextJustified(fs: seq<Frame>, f: Frame)
    requires AllJustified(fs, Received(fs))
    ensures AllJustified(fs + [f], Received(fs + [f]))
  {
    var out := Received(fs);
    var at: seq<nat> :| Sound(fs, out, at);
    assert forall k :: 0 <= k < |at| ==> JustifiedAt(fs, out[k], at[k]) && at[k] < |fs|;
    var id := f.h.MsgId();
    var v := Handle(Run(map[], fs).cache, f).verdict;
    RunSnoc(map[], fs, f);
    assert Lookup(Run(map[], fs).cache, id) == RunOne(None, Only(fs, id)).entry by { Projection(map[], fs, id); }
    EmittedIsJustified(Only(fs, id), f);
    SoundExtends(fs, f, out, at);
    if v.Emit? {
      var hs := fs + [f];
      assert hs[..|fs|] == fs;
      assert JustifiedAt(hs, v.packet, |fs|);
      SoundSnoc(hs, out, at, v.packet, |fs|);
    } else {
      assert out + [] == out;
    }
  }

  lemma {:induction false} EveryPacketJustified(fs: seq<Frame>)
    ensures AllJustified(fs, Received(fs))
  {
    if fs == [] {
      assert Sound(fs, Received(fs), []);
    } else {
      var t, f := fs[..|fs| - 1], fs[|fs| - 1];
      EveryPacketJustified(t);
      NextJustified(t, f);
      assert fs == t + [f];
    }
  }

  lemma {:induction false} ChunkedFramesHandled(chunks: seq<seq<byte>>)
    ensures AllHandled(FramesIn(ScanChunks(chunks).tokens))
  {
    if chunks != [] {
      var before := ScanChunks(chunks[..|chunks| - 1]);
      var s := before.left + chunks[|chunks| - 1];
      ChunkedFramesHandled(chunks[..|chunks| - 1]);
      ScannedFramesHandled(s);
      FramesInConcat(before.tokens, Scan(s).tokens);
    }
  }

  /** Soundness on arbitrary bytes in arbitrary chunks: every packet a fresh codec hands on
      is justified by the frames it took from the stream, and none is of type HEARTBEAT. */
  lemma SoundOnAnyInput(chunks: seq<seq<byte>>)
    ensures var fs := FramesIn(ScanChunks(chunks).tokens);
      && AllJustified(fs, Received(fs))
      && forall k :: 0 <= k < |Received(fs)| ==> Received(fs)[k].ptype != HEARTBEAT
  {
    var fs := FramesIn(ScanChunks(chunks).tokens);
    ChunkedFramesHandled(chunks);
    NeverHeartbeat(map[], fs);
    EveryPacketJustified(fs);
  }

  // ---- the bytes themselves ----

  lemma JoinBytes(before: Parse, now: Parse, d: seq<byte>)
    requires before.left + d == RawBytes(now.tokens) + now.left
    ensures RawBytes(before.tokens) + before.left + d == RawBytes(Join(before, now).tokens) + now.left
  {
    var x, y := RawBytes(before.tokens), RawBytes(now.tokens);
    RawBytesConcat(before.tokens, now.tokens);
    assert x + before.left + d == x + (before.left + d);
    assert x + (y + now.left) == x + y + now.left;
  }

  /** Byte accounting: over any chunks whatever, every byte received is in exactly one token
      or in the leftover, in order, and after each call at most 65560 bytes are kept. */
  lemma {:induction false} ChunksAccounted(chunks: seq<seq<byte>>)
    ensures Concat(chunks) == RawBytes(ScanChunks(chunks).tokens) + ScanChunks(chunks).left
    ensures |ScanChunks(chunks).left| <= 65560
  {
    if chunks != [] {
      var t, d := chunks[..|chunks| - 1], chunks[|chunks| - 1];
      ChunksAccounted(t);
      var before := ScanChunks(t);
      var s := before.left + d;
      LeftoverBound(s);
      assert s == RawBytes(Scan(s).tokens) + Scan(s).left by { ScanIsParse(s); }
      JoinBytes(before, Scan(s), d);
    }
  }
}
