// What the frames of whole messages do to a receiver: in order, interleaved with other
// messages, with fragments lost, and with payload bytes corrupted.
module Delivery {
  import opened Bytes
  import opened Proto
  import opened Encoder
  import opened Reassembly
  import Adler32

  /** The last frame of a message, the one that triggers its delivery. */
  function FinalFrame(m: Packet): Frame
    requires m.Encodable()
  {
    FrameOf(m, m.Parts() - 1)
  }

  /** A fragment of m other than the end fragment. */
  ghost predicate MiddleOf(m: Packet, f: Frame)
    requires m.Encodable()
  {
    exists i :: 0 <= i < m.Parts() - 1 && f == FrameOf(m, i)
  }

  ghost predicate AllMiddle(m: Packet, gs: seq<Frame>)
    requires m.Encodable()
  {
    forall k :: 0 <= k < |gs| ==> MiddleOf(m, gs[k])
  }

  /** Every fragment of m but the end fragment is there. */
  ghost predicate Complete(m: Packet, gs: seq<Frame>)
    requires m.Encodable()
  {
    forall i :: 0 <= i < m.Parts() - 1 ==> FrameOf(m, i) in gs
  }

  // ---- the frames of one message, field by field ----

  lemma FrameFacts(m: Packet, i: nat)
    requires m.Encodable() && i < m.Parts()
    ensures var f := FrameOf(m, i);
      && f.Fits() && f.h.version == VERSION && f.h.ptype == m.ptype
      && f.h.MsgId() == m.id && f.h.seqNo == i && 1 <= |f.payload| <= CHUNK_SIZE
      && (m.ptype != HEARTBEAT ==> f.Handled())
  {
  }

  lemma MiddleFacts(m: Packet, i: nat)
    requires m.Encodable() && i < m.Parts() - 1
    ensures var f := FrameOf(m, i);
      && f.h.IsFragment() && !f.h.IsEnd() && f.h.total == m.Parts()
      && f.h.checksum == Adler32.Checksum(f.payload)
  {
    var f := FrameOf(m, i);
    assert f.h.flags == PART_FLAGS;
    PartFlags(f.h);
  }

  lemma EndFacts(m: Packet)
    requires m.Encodable() && m.Parts() > 1
    ensures var f := FinalFrame(m);
      && f.h.IsFragment() && f.h.IsEnd() && f.h.total == m.Parts()
      && f.h.checksum == Adler32.Checksum(m.body)
  {
    var n := m.Parts();
    var f := FrameOf(m, n - 1);
    assert f.h.flags == END_FLAGS;
    EndFlags(f.h);
  }

  lemma ShortFacts(m: Packet)
    requires m.Encodable() && m.Parts() == 1
    ensures var f := FinalFrame(m);
      && !f.h.IsFragment() && f.payload == m.body && f.h.checksum == Adler32.Checksum(m.body)
  {
  }

  lemma FramesDiffer(m: Packet, i: nat, j: nat)
    requires m.Encodable() && i < m.Parts() && j < m.Parts() && i != j
    ensures FrameOf(m, i) != FrameOf(m, j)
  {
  }

  lemma FramesUpTo(m: Packet, k: nat)
    requires m.Encodable() && 0 < k <= m.Parts()
    ensures |FramesOf(m)| == m.Parts()
    ensures FramesOf(m)[..k] == FramesOf(m)[..k - 1] + [FrameOf(m, k - 1)]
  {
    hide FrameOf;
  }

  // ---- slots ----

  function SlotOf(m: Packet, gs: seq<Frame>, i: nat): seq<byte>
    requires m.Encodable() && i < m.Parts()
  {
    if FrameOf(m, i) in gs then FrameOf(m, i).payload else []
  }

  /** The slots of m once the frames gs have arrived, in whatever order. */
  function Filled(m: Packet, gs: seq<Frame>): Slots
    requires m.Encodable()
  {
    seq(m.Parts(), i requires 0 <= i < m.Parts() => SlotOf(m, gs, i))
  }

  lemma FilledSnoc(m: Packet, gs: seq<Frame>, i: nat)
    requires m.Encodable() && i < m.Parts()
    ensures Filled(m, gs + [FrameOf(m, i)]) == Filled(m, gs)[i := FrameOf(m, i).payload]
  {
  }

  /** The entry of m after the fragments gs. */
  function EntryOf(m: Packet, gs: seq<Frame>): Option<Slots>
    requires m.Encodable()
  {
    if gs == [] then None else Some(Filled(m, gs))
  }

  lemma OpensFilled(m: Packet, gs: seq<Frame>)
    requires m.Encodable()
    ensures Opened(EntryOf(m, gs), m.Parts()) == Filled(m, gs)
  {
  }

  lemma TakesMiddle(m: Packet, gs: seq<Frame>, i: nat)
    requires m.Encodable() && i < m.Parts() - 1
    ensures Assemble(EntryOf(m, gs), FrameOf(m, i)) == Outcome(Some(Filled(m, gs + [FrameOf(m, i)])), Quiet)
  {
    FrameFacts(m, i);
    MiddleFacts(m, i);
    OpensFilled(m, gs);
    FilledSnoc(m, gs, i);
  }

  /** The fragments gs have been collected and nothing has been handed on. */
  ghost predicate Collected(m: Packet, gs: seq<Frame>)
    requires m.Encodable()
  {
    RunOne(None, gs) == View(EntryOf(m, gs), [])
  }

  lemma MiddleStep(m: Packet, gs: seq<Frame>, f: Frame)
    requires m.Encodable() && MiddleOf(m, f) && Collected(m, gs)
    ensures Collected(m, gs + [f])
  {
    var i :| 0 <= i < m.Parts() - 1 && f == FrameOf(m, i);
    TakesMiddle(m, gs, i);
    RunOneSnoc(None, gs, f);
  }

  lemma AllMiddleLast(m: Packet, gs: seq<Frame>)
    requires m.Encodable() && gs != [] && AllMiddle(m, gs)
    ensures AllMiddle(m, gs[..|gs| - 1]) && MiddleOf(m, gs[|gs| - 1])
  {
  }

  /** Fragments other than the end one are collected silently, in any order and with repetitions. */
  lemma {:induction false} MiddleRun(m: Packet, gs: seq<Frame>)
    requires m.Encodable() && AllMiddle(m, gs)
    ensures Collected(m, gs)
  {
    if gs != [] {
      var t, f := gs[..|gs| - 1], gs[|gs| - 1];
      AllMiddleLast(m, gs);
      MiddleRun(m, t);
      MiddleStep(m, t, f);
      assert gs == t + [f];
    }
  }

  lemma EndSlots(m: Packet, gs: seq<Frame>)
    requires m.Encodable() && m.Parts() > 1 && AllMiddle(m, gs)
    ensures var slots := Filled(m, gs + [FinalFrame(m)]);
      && ([] in slots <==> !Complete(m, gs))
      && (Complete(m, gs) ==> slots == Pieces(m.body, m.Parts()))
  {
    var n := m.Parts();
    var f := FinalFrame(m);
    var slots := Filled(m, gs + [f]);
    forall i | 0 <= i < n
      ensures slots[i] == if i == n - 1 || FrameOf(m, i) in gs then Piece(m.body, i) else []
    {
      if i < n - 1 { FramesDiffer(m, i, n - 1); }
      assert FrameOf(m, i) in gs + [f] <==> FrameOf(m, i) in gs || FrameOf(m, i) == f;
    }
    if Complete(m, gs) {
      assert slots == Pieces(m.body, n);
    } else {
      var i :| 0 <= i < n - 1 && FrameOf(m, i) !in gs;
      assert slots[i] == [];
    }
  }

  /** The end fragment delivers a complete message and discards an incomplete one; either
      way the entry is gone. */
  lemma TakesEnd(m: Packet, gs: seq<Frame>)
    requires m.Encodable() && m.Parts() > 1 && AllMiddle(m, gs)
    ensures Assemble(EntryOf(m, gs), FinalFrame(m))
         == Outcome(None, if Complete(m, gs) then Emit(m) else Reject(MissingPart))
  {
    var n := m.Parts();
    FrameFacts(m, n - 1);
    EndFacts(m);
    OpensFilled(m, gs);
    FilledSnoc(m, gs, n - 1);
    EndSlots(m, gs);
    PiecesCoverBody(m);
  }

  // ---- one message ----

  /** The frames gs bring m: its fragments in any order, possibly repeated, every one of
      them before a single end fragment. */
  ghost predicate Arrangement(m: Packet, gs: seq<Frame>)
    requires m.Encodable()
  {
    && gs != []
    && gs[|gs| - 1] == FinalFrame(m)
    && (if m.Parts() == 1 then |gs| == 1 else AllMiddle(m, gs[..|gs| - 1]) && Complete(m, gs[..|gs| - 1]))
  }

  lemma ArrangementPrefix(m: Packet, gs: seq<Frame>, p: nat)
    requires m.Encodable() && m.Parts() > 1 && Arrangement(m, gs) && p < |gs|
    ensures RunOne(None, gs[..p]) == View(EntryOf(m, gs[..p]), [])
    ensures p < |gs| - 1 ==> MiddleOf(m, gs[p])
  {
    var mid := gs[..|gs| - 1];
    forall k | 0 <= k < p ensures MiddleOf(m, gs[..p][k]) {
      assert gs[..p][k] == mid[k];
      assert MiddleOf(m, mid[k]);
    }
    MiddleRun(m, gs[..p]);
    if p < |gs| - 1 {
      assert gs[p] == mid[p];
      assert MiddleOf(m, mid[p]);
    }
  }

  lemma NotFinal(m: Packet, gs: seq<Frame>, f: Frame)
    requires m.Encodable() && MiddleOf(m, f)
    ensures Assemble(EntryOf(m, gs), f).verdict == Quiet
    ensures f != FinalFrame(m)
  {
    var i :| 0 <= i < m.Parts() - 1 && f == FrameOf(m, i);
    TakesMiddle(m, gs, i);
    FramesDiffer(m, i, m.Parts() - 1);
  }

  /** Nothing is handed on before the final frame, which hands on exactly m. */
  lemma ArrangementStep(m: Packet, gs: seq<Frame>, p: nat)
    requires m.Encodable() && Arrangement(m, gs) && p < |gs|
    ensures RunOne(None, gs[..p]).out == []
    ensures var o := Assemble(RunOne(None, gs[..p]).entry, gs[p]);
      && o.verdict.Out() == (if p == |gs| - 1 then [m] else [])
      && (p == |gs| - 1 ==> o.entry == None)
    ensures gs[p] == FinalFrame(m) <==> p == |gs| - 1
  {
    if m.Parts() == 1 {
      ShortFacts(m);
      FrameFacts(m, 0);
    } else {
      ArrangementPrefix(m, gs, p);
      if p < |gs| - 1 {
        NotFinal(m, gs[..p], gs[p]);
      } else {
        TakesEnd(m, gs[..p]);
      }
    }
  }

  /** A message whose frames arrive, by themselves, is delivered exactly once. */
  lemma OneMessage(m: Packet, gs: seq<Frame>)
    requires m.Encodable() && Arrangement(m, gs)
    ensures RunOne(None, gs) == View(None, [m])
  {
    var n := |gs| - 1;
    assert gs == gs[..n] + [gs[n]];
    ArrangementStep(m, gs, n);
    RunOneSnoc(None, gs[..n], gs[n]);
  }

  /** The order encode produces is an arrangement. */
  lemma EncodedIsArranged(m: Packet)
    requires m.Encodable()
    ensures Arrangement(m, FramesOf(m))
  {
    var gs := FramesOf(m);
    var n := |gs| - 1;
    if n > 0 {
      var mid := gs[..n];
      forall k | 0 <= k < n ensures MiddleOf(m, mid[k]) && FrameOf(m, k) in mid {
        assert mid[k] == FrameOf(m, k);
      }
    }
  }

  // ---- loss ----

  /** If any fragment before the end one never arrives, the end fragment delivers nothing
      and removes the entry. */
  lemma LossContained(m: Packet, mid: seq<Frame>)
    requires m.Encodable() && m.Parts() > 1 && AllMiddle(m, mid) && !Complete(m, mid)
    ensures RunOne(None, mid + [FinalFrame(m)]) == View(None, [])
  {
    MiddleRun(m, mid);
    TakesEnd(m, mid);
    RunOneSnoc(None, mid, FinalFrame(m));
  }

  // ---- corruption ----

  /** g is f with one payload byte, or two, changed. */
  ghost predicate Corrupts(f: Frame, g: Frame)
  {
    f.h == g.h && exists i: nat, j: nat :: Adler32.DifferAt(f.payload, g.payload, i, j)
  }

  lemma CorruptPayload(m: Packet, i: nat, g: Frame)
    requires m.Encodable() && i < m.Parts() && Corrupts(FrameOf(m, i), g)
    ensures |g.payload| == |FrameOf(m, i).payload| && g.Fits()
    ensures Adler32.Checksum(g.payload) != Adler32.Checksum(FrameOf(m, i).payload)
  {
    FrameFacts(m, i);
    var f := FrameOf(m, i);
    var x: nat, y: nat :| Adler32.DifferAt(f.payload, g.payload, x, y);
    Adler32.NearbyChangesDetected(f.payload, g.payload, x, y);
  }

  lemma CorruptTail(m: Packet, g: Frame)
    requires m.Encodable() && Corrupts(FinalFrame(m), g)
    ensures var n := m.Parts() - 1;
      Adler32.Checksum(m.body[..Cut(m.body, n)] + g.payload) != Adler32.Checksum(m.body)
  {
    var n := m.Parts() - 1;
    var f := FinalFrame(m);
    FrameFacts(m, n);
    var cut := Cut(m.body, n);
    var x: nat, y: nat :| Adler32.DifferAt(f.payload, g.payload, x, y);
    var pre := m.body[..cut];
    assert m.body == pre + f.payload by { PieceExtends(m.body, n); }
    hide FrameOf, Adler32.DifferAt, Adler32.Checksum, Cut;
    Adler32.DifferBehindPrefix(pre, f.payload, g.payload, x, y);
    Adler32.NearbyChangesDetected(pre + f.payload, pre + g.payload, cut + x, cut + y);
  }

  /** A corrupted short message is rejected. */
  lemma CorruptShort(m: Packet, g: Frame)
    requires m.Encodable() && m.Parts() == 1 && Corrupts(FinalFrame(m), g)
    ensures RunOne(None, [g]) == View(None, [])
  {
    ShortFacts(m);
    CorruptPayload(m, 0, g);
    RunOneSnoc(None, [], g);
    assert [] + [g] == [g];
  }

  /** A corrupted fragment destroys the entry; if it is not sent again, what follows cannot
      complete the message. */
  lemma CorruptMiddle(m: Packet, a: seq<Frame>, i: nat, g: Frame, b: seq<Frame>)
    requires m.Encodable() && i < m.Parts() - 1 && AllMiddle(m, a) && AllMiddle(m, b)
    requires Corrupts(FrameOf(m, i), g) && FrameOf(m, i) !in b
    ensures RunOne(None, a + [g] + b + [FinalFrame(m)]) == View(None, [])
  {
    MiddleRun(m, a);
    FrameFacts(m, i);
    MiddleFacts(m, i);
    CorruptPayload(m, i, g);
    OpensFilled(m, a);
    RunOneSnoc(None, a, g);
    assert RunOne(None, a + [g]) == View(None, []);
    hide Assemble, RunOne, FrameOf;
    LossContained(m, b);
    RunOneConcat(None, a + [g], b + [FinalFrame(m)]);
    assert a + [g] + b + [FinalFrame(m)] == a + [g] + (b + [FinalFrame(m)]);
  }

  /** A corrupted end fragment fails the whole-message checksum. Its slots stay cached. */
  lemma CorruptEnd(m: Packet, mid: seq<Frame>, g: Frame)
    requires m.Encodable() && m.Parts() > 1 && AllMiddle(m, mid) && Complete(m, mid)
    requires Corrupts(FinalFrame(m), g)
    ensures RunOne(None, mid + [g]).out == []
    ensures RunOne(None, mid + [g]).entry == Some(Filled(m, mid)[m.Parts() - 1 := g.payload])
  {
    var n := m.Parts() - 1;
    FrameFacts(m, n);
    EndFacts(m);
    MiddleRun(m, mid);
    OpensFilled(m, mid);
    CorruptPayload(m, n, g);
    CorruptTail(m, g);
    CorruptSlots(m, mid, g);
    RunOneSnoc(None, mid, g);
  }

  lemma CorruptSlots(m: Packet, mid: seq<Frame>, g: Frame)
    requires m.Encodable() && m.Parts() > 1 && AllMiddle(m, mid) && Complete(m, mid)
    requires |g.payload| > 0
    ensures var n := m.Parts() - 1; var slots := Filled(m, mid)[n := g.payload];
      [] !in slots && Concat(slots) == m.body[..Cut(m.body, n)] + g.payload
  {
    var n := m.Parts() - 1;
    var slots := Filled(m, mid)[n := g.payload];
    assert slots == Pieces(m.body, n) + [g.payload];
    PrefixOfPieces(m.body, n);
    ConcatSnoc(Pieces(m.body, n), g.payload);
  }

  /** The frames gs are those of m, each once, in some order with the end fragment last,
      except that the q-th has one or two payload bytes changed. */
  ghost predicate CorruptedArrangement(m: Packet, gs: seq<Frame>, q: nat, original: seq<Frame>)
    requires m.Encodable()
  {
    && Arrangement(m, original)
    && (forall k, l :: 0 <= k < l < |original| ==> original[k] != original[l])
    && q < |original| == |gs|
    && gs == original[q := gs[q]]
    && Corrupts(original[q], gs[q])
  }

  lemma CleanAfter(m: Packet, original: seq<Frame>, q: nat)
    requires m.Encodable() && m.Parts() > 1 && Arrangement(m, original) && q < |original| - 1
    requires forall k, l :: 0 <= k < l < |original| ==> original[k] != original[l]
    ensures var mid := original[..|original| - 1];
      AllMiddle(m, mid[..q]) && AllMiddle(m, mid[q + 1..]) && MiddleOf(m, original[q]) && original[q] !in mid[q + 1..]
  {
    var mid := original[..|original| - 1];
    var b := mid[q + 1..];
    assert MiddleOf(m, mid[q]);
    forall k | 0 <= k < |b| ensures MiddleOf(m, b[k]) && b[k] != original[q] {
      assert b[k] == mid[q + 1 + k] == original[q + 1 + k];
      assert MiddleOf(m, mid[q + 1 + k]);
    }
  }

  lemma CorruptionInMiddle(m: Packet, gs: seq<Frame>, q: nat, original: seq<Frame>)
    requires m.Encodable() && CorruptedArrangement(m, gs, q, original)
    requires m.Parts() > 1 && q < |gs| - 1
    ensures RunOne(None, gs) == View(None, [])
  {
    hide Assemble, RunOne, FrameOf, Corrupts;
    assert original[|gs| - 1] == FinalFrame(m);
    var mid := original[..|gs| - 1];
    CleanAfter(m, original, q);
    var i :| 0 <= i < m.Parts() - 1 && original[q] == FrameOf(m, i);
    var a, b := mid[..q], mid[q + 1..];
    assert gs == a + [gs[q]] + b + [FinalFrame(m)] by { SplitAround(original, q, gs[q]); }
    CorruptMiddle(m, a, i, gs[q], b);
  }

  lemma SplitAround<T>(s: seq<T>, q: nat, x: T)
    requires q < |s| - 1
    ensures var mid := s[..|s| - 1];
      s[q := x] == mid[..q] + [x] + mid[q + 1..] + [s[|s| - 1]]
  {
  }

  lemma LastReplaced<T>(s: seq<T>, x: T)
    requires s != []
    ensures s[|s| - 1 := x] == s[..|s| - 1] + [x]
  {
  }

  lemma CorruptionAtEnd(m: Packet, gs: seq<Frame>, original: seq<Frame>)
    requires m.Encodable() && m.Parts() > 1 && gs != [] && CorruptedArrangement(m, gs, |gs| - 1, original)
    ensures RunOne(None, gs).out == []
  {
    var g := gs[|gs| - 1];
    var mid := original[..|original| - 1];
    assert gs == mid + [g] by { LastReplaced(original, g); }
    assert Corrupts(FinalFrame(m), g);
    CorruptEnd(m, mid, g);
  }

  lemma CorruptionAlone(m: Packet, gs: seq<Frame>, q: nat, original: seq<Frame>)
    requires m.Encodable() && m.Parts() == 1 && CorruptedArrangement(m, gs, q, original)
    ensures RunOne(None, gs) == View(None, [])
  {
    assert gs == [gs[0]];
    CorruptShort(m, gs[0]);
  }

  /** Whichever frame is hit, the message is never delivered. */
  lemma CorruptionSilences(m: Packet, gs: seq<Frame>, q: nat, original: seq<Frame>)
    requires m.Encodable() && CorruptedArrangement(m, gs, q, original)
    ensures RunOne(None, gs).out == []
    ensures q < |gs| - 1 || m.Parts() == 1 ==> RunOne(None, gs).entry == None
  {
    hide RunOne, Packet.Parts, Packet.Encodable;
    if m.Parts() == 1 {
      CorruptionAlone(m, gs, q, original);
    } else if q == |gs| - 1 {
      CorruptionAtEnd(m, gs, original);
    } else {
      CorruptionInMiddle(m, gs, q, original);
    }
  }
}
