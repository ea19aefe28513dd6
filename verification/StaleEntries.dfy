// Sending a message whose id still has a cache entry, for instance the one a corrupted end
// fragment leaves behind: exactly when it is delivered.
module StaleEntries {
  import opened Bytes
  import opened Proto
  import opened Encoder
  import opened Scanner
  import opened Reassembly
  import opened Delivery
  import opened Interleaving
  import Adler32

  /** The stale slots once the first k pieces of m have overwritten theirs. */
  function Overlaid(m: Packet, slots: Slots, k: nat): Slots
    requires m.Encodable() && k <= m.Parts() && k <= |slots|
  {
    Pieces(m.body, k) + slots[k..]
  }

  lemma OverlaidSnoc(m: Packet, slots: Slots, k: nat)
    requires m.Encodable() && k < m.Parts() && k < |slots|
    ensures Overlaid(m, slots, k)[k := Piece(m.body, k)] == Overlaid(m, slots, k + 1)
  {
  }

  lemma OverlaysMiddle(m: Packet, slots: Slots, k: nat)
    requires m.Encodable() && k < m.Parts() - 1 && k < |slots|
    ensures Assemble(Some(Overlaid(m, slots, k)), FrameOf(m, k)) == Outcome(Some(Overlaid(m, slots, k + 1)), Quiet)
  {
    FrameFacts(m, k);
    MiddleFacts(m, k);
    OverlaidSnoc(m, slots, k);
    assert FrameOf(m, k).payload == Piece(m.body, k);
    assert Overlaid(m, slots, k) != [];
  }

  lemma AdvanceMiddle(m: Packet, slots: Slots, k: nat)
    requires m.Encodable() && k < m.Parts() - 1 && k < |slots|
    ensures AdvanceOne(View(Some(Overlaid(m, slots, k)), []), FrameOf(m, k)) ==
              View(Some(Overlaid(m, slots, k + 1)), [])
  {
    hide Assemble, Overlaid, FrameOf;
    OverlaysMiddle(m, slots, k);
  }

  lemma {:induction false} Overlays(m: Packet, slots: Slots, k: nat)
    requires m.Encodable() && k < m.Parts() && k <= |slots|
    ensures RunOne(Some(slots), FramesOf(m)[..k]) == View(Some(Overlaid(m, slots, k)), [])
  {
    if k == 0 {
      assert Overlaid(m, slots, 0) == slots;
    } else {
      FramesUpTo(m, k);
      hide *;
      Overlays(m, slots, k - 1);
      RunOneSnoc(Some(slots), FramesOf(m)[..k - 1], FrameOf(m, k - 1));
      AdvanceMiddle(m, slots, k - 1);
    }
  }

  lemma LastFrame(m: Packet)
    requires m.Encodable()
    ensures |FramesOf(m)| == m.Parts()
    ensures FramesOf(m) == FramesOf(m)[..m.Parts() - 1] + [FinalFrame(m)]
  {
  }

  /** All frames but the last have been taken; the end fragment fills its slot too. */
  lemma ReachesEnd(m: Packet, slots: Slots)
    requires m.Encodable() && m.Parts() > 1 && |slots| >= m.Parts()
    ensures RunOne(Some(slots), FramesOf(m)) ==
              AdvanceOne(View(Some(Overlaid(m, slots, m.Parts() - 1)), []), FinalFrame(m))
  {
    hide Overlaid, FrameOf, FramesOf, AdvanceOne;
    var n := m.Parts() - 1;
    LastFrame(m);
    Overlays(m, slots, n);
    RunOneSnoc(Some(slots), FramesOf(m)[..n], FinalFrame(m));
  }

  lemma EndOverlays(m: Packet, slots: Slots)
    requires m.Encodable() && m.Parts() > 1 && |slots| >= m.Parts()
    ensures var all := Overlaid(m, slots, m.Parts());
      Assemble(Some(Overlaid(m, slots, m.Parts() - 1)), FinalFrame(m)) ==
        if [] in all then Outcome(None, Reject(MissingPart))
        else if Adler32.Checksum(Concat(all)) != Adler32.Checksum(m.body) then
          Outcome(Some(all), Reject(ChecksumMismatch))
        else Outcome(None, Emit(Packet(m.id, m.ptype, Concat(all))))
  {
    var n := m.Parts() - 1;
    OverlaidSnoc(m, slots, n);
    FrameFacts(m, n);
    EndFacts(m);
    assert FinalFrame(m).payload == Piece(m.body, n);
  }

  lemma NoBlankPiece(body: seq<byte>, n: nat)
    requires n == 0 || (n - 1) * CHUNK_SIZE < |body|
    ensures [] !in Pieces(body, n)
  {
  }

  /** As many stale slots as m has pieces: all are overwritten and m is delivered. */
  lemma SameCount(m: Packet, slots: Slots)
    requires m.Encodable() && m.Parts() > 1 && |slots| == m.Parts()
    ensures RunOne(Some(slots), FramesOf(m)) == View(None, [m])
  {
    ReachesEnd(m, slots);
    EndOverlays(m, slots);
    assert Overlaid(m, slots, m.Parts()) == Pieces(m.body, m.Parts());
    NoBlankPiece(m.body, m.Parts());
    PiecesCoverBody(m);
  }

  lemma NonBlankConcat(ss: Slots)
    requires ss != [] && [] !in ss
    ensures |Concat(ss)| > 0
  {
  }

  /** Stale slots behind the last piece make the assembled body too long. */
  lemma SurplusLengthens(m: Packet, slots: Slots)
    requires m.Encodable() && |slots| > m.Parts() && [] !in Overlaid(m, slots, m.Parts())
    ensures |Concat(Overlaid(m, slots, m.Parts()))| > |m.body|
  {
    var n := m.Parts();
    hide Concat, Pieces, Packet.Parts, Packet.Encodable;
    PiecesCoverBody(m);
    ConcatAppend(Pieces(m.body, n), slots[n..]);
    NonBlankBehind(Pieces(m.body, n), slots[n..]);
    NonBlankConcat(slots[n..]);
  }

  lemma NonBlankBehind(a: Slots, b: Slots)
    requires [] !in a + b
    ensures [] !in b
  {
    forall k | 0 <= k < |b| ensures b[k] != [] {
      assert (a + b)[|a| + k] == b[k];
    }
  }

  /** More stale slots than pieces: whatever is handed on is not m. */
  lemma TooMany(m: Packet, slots: Slots)
    requires m.Encodable() && m.Parts() > 1 && |slots| > m.Parts()
    ensures RunOne(Some(slots), FramesOf(m)).out != [m]
  {
    hide Assemble, Overlaid, FrameOf, FramesOf, Concat, Adler32.Checksum, RunOne;
    ReachesEnd(m, slots);
    EndOverlays(m, slots);
    var all := Overlaid(m, slots, m.Parts());
    if [] !in all {
      SurplusLengthens(m, slots);
      var packet := Packet(m.id, m.ptype, Concat(all));
      assert ([] + [packet])[0] == packet && packet.body != m.body;
    }
  }

  /** Fewer stale slots than pieces: the first number out of range destroys the entry, and
      what follows lacks the pieces before it. */
  lemma TooFew(m: Packet, slots: Slots)
    requires m.Encodable() && 0 < |slots| < m.Parts()
    ensures RunOne(Some(slots), FramesOf(m)).out == []
  {
    hide Assemble, AdvanceOne, Overlaid, FrameOf, RunOne;
    var n := |slots|;
    var fs := FramesOf(m);
    Overlays(m, slots, n);
    OutOfRange(m, slots);
    RunOneSnoc(Some(slots), fs[..n], FrameOf(m, n));
    assert fs[..n + 1] == fs[..n] + [FrameOf(m, n)];
    assert fs == fs[..n + 1] + fs[n + 1..];
    RunOneConcat(Some(slots), fs[..n + 1], fs[n + 1..]);
    if n < m.Parts() - 1 {
      RestLacksStart(m, n + 1);
    } else {
      assert fs[n + 1..] == [];
      RunOneNothing();
    }
  }

  lemma RunOneNothing()
    ensures RunOne(None, []) == View(None, [])
  {
  }

  lemma OutOfRange(m: Packet, slots: Slots)
    requires m.Encodable() && 0 < |slots| < m.Parts()
    ensures AdvanceOne(View(Some(Overlaid(m, slots, |slots|)), []), FrameOf(m, |slots|)) == View(None, [])
  {
    var n := |slots|;
    FrameFacts(m, n);
    if n < m.Parts() - 1 { MiddleFacts(m, n); } else { EndFacts(m); }
  }

  lemma RestIsMiddle(m: Packet, k: nat)
    requires m.Encodable() && 0 < k < m.Parts()
    ensures var mid := FramesOf(m)[k..m.Parts() - 1];
      AllMiddle(m, mid) && !Complete(m, mid)
  {
    hide FrameOf;
    var mid := FramesOf(m)[k..m.Parts() - 1];
    forall i | 0 <= i < |mid| ensures MiddleOf(m, mid[i]) && mid[i] != FrameOf(m, 0) {
      assert mid[i] == FrameOf(m, k + i);
      FramesDiffer(m, 0, k + i);
    }
    assert FrameOf(m, 0) !in mid;
  }

  lemma RestSplits(m: Packet, k: nat)
    requires m.Encodable() && 0 < k < m.Parts()
    ensures FramesOf(m)[k..] == FramesOf(m)[k..m.Parts() - 1] + [FinalFrame(m)]
  {
    hide FrameOf;
  }

  lemma RestLacksStart(m: Packet, k: nat)
    requires m.Encodable() && 0 < k < m.Parts()
    ensures RunOne(None, FramesOf(m)[k..]) == View(None, [])
  {
    hide FrameOf, AllMiddle, Complete, RunOne;
    RestIsMiddle(m, k);
    RestSplits(m, k);
    LossContained(m, FramesOf(m)[k..m.Parts() - 1]);
  }

  /** The condition under which m goes through a receiver with the given cache. */
  predicate Receptive(c: Cache, m: Packet)
    requires m.Encodable()
  {
    m.id !in c || m.Parts() == 1 || |c[m.id]| == m.Parts()
  }

  lemma OneIdExactly(c: Cache, m: Packet)
    requires CacheOk(c) && m.Encodable()
    ensures RunOne(Lookup(c, m.id), FramesOf(m)).out == [m] <==> Receptive(c, m)
  {
    if m.id !in c {
      EncodedIsArranged(m);
      OneMessage(m, FramesOf(m));
    } else if m.Parts() == 1 {
      ShortFacts(m);
      FrameFacts(m, 0);
      assert FramesOf(m) == [] + [FinalFrame(m)];
      RunOneSnoc(Lookup(c, m.id), [], FinalFrame(m));
    } else {
      var slots := c[m.id];
      if |slots| == m.Parts() { SameCount(m, slots); }
      else if |slots| > m.Parts() { TooMany(m, slots); }
      else { TooFew(m, slots); }
    }
  }

  lemma {:induction false} PacketsOfAll(ps: seq<Packet>, id: u64)
    requires forall i :: 0 <= i < |ps| ==> ps[i].id == id
    ensures PacketsOf(ps, id) == ps
  {
    if ps != [] {
      PacketsOfAll(ps[..|ps| - 1], id);
      assert ps == ps[..|ps| - 1] + [ps[|ps| - 1]];
    }
  }

  lemma {:induction false} PacketsHaveFrameIds(c: Cache, fs: seq<Frame>, id: u64)
    requires forall j :: 0 <= j < |fs| ==> fs[j].h.MsgId() == id
    ensures forall i :: 0 <= i < |Run(c, fs).out| ==> Run(c, fs).out[i].id == id
  {
    if fs != [] {
      PacketsHaveFrameIds(c, fs[..|fs| - 1], id);
      EmitsOwnId(Lookup(Run(c, fs[..|fs| - 1]).cache, id), fs[|fs| - 1]);
    }
  }

  lemma AloneExactly(c: Cache, m: Packet)
    requires CacheOk(c) && m.Encodable()
    ensures Run(c, FramesOf(m)).out == [m] <==> Receptive(c, m)
  {
    OwnFrames(m);
    Projection(c, FramesOf(m), m.id);
    PacketsHaveFrameIds(c, FramesOf(m), m.id);
    PacketsOfAll(Run(c, FramesOf(m)).out, m.id);
    OneIdExactly(c, m);
  }

  /** Encoding m and decoding the bytes hands on m and nothing else. */
  ghost predicate Returns(c: Cache, m: Packet)
    requires m.Encodable()
  {
    Run(c, FramesIn(Scan(Concat(Wires(FramesOf(m)))).tokens)).out == [m]
  }

  /** The round trip over a receiver in any state it can reach: encoding a message and
      decoding the bytes hands on exactly that message if and only if it is not of type
      HEARTBEAT and either its id is uncached, or it is short, or the cached entry has as
      many slots as the message has pieces. */
  lemma RoundTripFromAnyCache(c: Cache, m: Packet)
    requires CacheOk(c) && m.Encodable()
    ensures Returns(c, m) <==> m.ptype != HEARTBEAT && Receptive(c, m)
  {
    var wire := Concat(Wires(FramesOf(m)));
    if m.ptype != HEARTBEAT {
      EncodedScan(m);
      AloneExactly(c, m);
    } else {
      HeartbeatNeverReturns(c, m, wire);
    }
  }

  /** For instance, two pieces sent over a stale entry of three slots do not come back, and
      neither does a one-byte message of type HEARTBEAT sent to an empty cache. */
  lemma SomeDoNotReturn()
    ensures !Returns(map[0 := Blank(3)], Packet(0, CHATMSG, seq(4097, i => 0)))
    ensures !Returns(map[], Packet(0, HEARTBEAT, [0]))
  {
    hide Returns;
    var c: Cache := map[0 := Blank(3)];
    var m := Packet(0, CHATMSG, seq(4097, i => 0));
    assert CacheOk(c) && m.Parts() == 2;
    RoundTripFromAnyCache(c, m);
    RoundTripFromAnyCache(map[], Packet(0, HEARTBEAT, [0]));
  }
}
