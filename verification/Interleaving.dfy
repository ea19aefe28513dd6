// Many messages over one stream: deliveries, their order, and what a lost or corrupted
// message costs the others. Then the same statements about raw bytes in any chunks.
module Interleaving {
  import opened Bytes
  import opened Proto
  import opened Encoder
  import opened Scanner
  import opened Streaming
  import opened Reassembly
  import opened Delivery

  /** Messages under pairwise distinct ids. */
  type Messages = m: map<u64, Packet> | forall id :: id in m ==> m[id].id == id && m[id].Encodable()
    witness map[]

  function DeliveredBy(msgs: Messages, f: Frame): seq<Packet>
  {
    var id := f.h.MsgId();
    if id in msgs && f == FinalFrame(msgs[id]) then [msgs[id]] else []
  }

  /** The messages of msgs in the order in which their final frames occur in fs. */
  function Deliveries(msgs: Messages, fs: seq<Frame>): seq<Packet>
  {
    if fs == [] then [] else Deliveries(msgs, fs[..|fs| - 1]) + DeliveredBy(msgs, fs[|fs| - 1])
  }

  /** The frames of each message of msgs occur in fs as an arrangement of it. */
  ghost predicate Carries(fs: seq<Frame>, msgs: Messages)
  {
    forall id :: id in msgs ==> Arrangement(msgs[id], Only(fs, id))
  }

  /** Frames of ids outside msgs hand on nothing. */
  ghost predicate OthersSilent(c: Cache, fs: seq<Frame>, msgs: Messages)
  {
    forall id :: id !in msgs ==> RunOne(Lookup(c, id), Only(fs, id)).out == []
  }

  ghost predicate Uncached(c: Cache, msgs: Messages)
  {
    forall id :: id in msgs ==> id !in c
  }

  // ---- positions within one id's frames ----

  lemma {:induction false} OnlyConcat(a: seq<Frame>, b: seq<Frame>, id: u64)
    ensures Only(a + b, id) == Only(a, id) + Only(b, id)
  {
    if b == [] {
      assert a + b == a;
    } else {
      var n := |b| - 1;
      assert (a + b)[..|a + b| - 1] == a + b[..n];
      OnlyConcat(a, b[..n], id);
    }
  }

  lemma OnlyAt(fs: seq<Frame>, j: nat)
    requires j < |fs|
    ensures var id := fs[j].h.MsgId(); var p := |Only(fs[..j], id)|; var gs := Only(fs, id);
      p < |gs| && gs[p] == fs[j] && gs[..p] == Only(fs[..j], id)
  {
    var id := fs[j].h.MsgId();
    assert fs == fs[..j] + [fs[j]] + fs[j + 1..];
    OnlyConcat(fs[..j] + [fs[j]], fs[j + 1..], id);
    OnlyConcat(fs[..j], [fs[j]], id);
    assert [fs[j]][..0] == [];
    assert Only([fs[j]], id) == [fs[j]];
  }

  lemma SilentPrefix(entry: Option<Slots>, gs: seq<Frame>, p: nat)
    requires p <= |gs| && RunOne(entry, gs).out == []
    ensures RunOne(entry, gs[..p]).out == []
  {
    assert gs == gs[..p] + gs[p..];
    RunOneConcat(entry, gs[..p], gs[p..]);
  }

  /** If a whole run hands on nothing, neither does any of its steps. */
  lemma SilentStep(entry: Option<Slots>, gs: seq<Frame>, p: nat)
    requires p < |gs| && RunOne(entry, gs).out == []
    ensures Assemble(RunOne(entry, gs[..p]).entry, gs[p]).verdict.Out() == []
  {
    hide Assemble, RunOne;
    SilentPrefix(entry, gs, p + 1);
    assert gs[..p + 1] == gs[..p] + [gs[p]];
    RunOneSnoc(entry, gs[..p], gs[p]);
  }

  lemma StepDelivers(c: Cache, msgs: Messages, fs: seq<Frame>, j: nat)
    requires Uncached(c, msgs) && Carries(fs, msgs) && OthersSilent(c, fs, msgs) && j < |fs|
    ensures Handle(Run(c, fs[..j]).cache, fs[j]).verdict.Out() == DeliveredBy(msgs, fs[j])
  {
    var id := fs[j].h.MsgId();
    EffectAt(c, fs, j);
    OnlyAt(fs, j);
    var gs, p := Only(fs, id), |Only(fs[..j], id)|;
    if id in msgs {
      ArrangementStep(msgs[id], gs, p);
    } else {
      SilentStep(Lookup(c, id), gs, p);
    }
  }

  lemma {:induction false} DeliveredSoFar(c: Cache, msgs: Messages, fs: seq<Frame>, k: nat)
    requires Uncached(c, msgs) && Carries(fs, msgs) && OthersSilent(c, fs, msgs) && k <= |fs|
    ensures Run(c, fs[..k]).out == Deliveries(msgs, fs[..k])
  {
    hide *;
    if k > 0 {
      DeliveredSoFar(c, msgs, fs, k - 1);
      StepDelivers(c, msgs, fs, k - 1);
      DeliversOneMore(c, msgs, fs[..k - 1], fs[k - 1]);
      assert fs[..k] == fs[..k - 1] + [fs[k - 1]];
    } else {
      assert fs[..0] == [];
      NothingDelivered(c, msgs);
    }
  }

  lemma NothingDelivered(c: Cache, msgs: Messages)
    ensures Run(c, []).out == Deliveries(msgs, [])
  {
  }

  lemma DeliveriesSnoc(msgs: Messages, fs: seq<Frame>, f: Frame)
    ensures Deliveries(msgs, fs + [f]) == Deliveries(msgs, fs) + DeliveredBy(msgs, f)
  {
    hide DeliveredBy;
    assert (fs + [f])[..|fs|] == fs;
  }

  lemma DeliversOneMore(c: Cache, msgs: Messages, t: seq<Frame>, f: Frame)
    requires Run(c, t).out == Deliveries(msgs, t)
    requires Handle(Run(c, t).cache, f).verdict.Out() == DeliveredBy(msgs, f)
    ensures Run(c, t + [f]).out == Deliveries(msgs, t + [f])
  {
    hide Run, Handle, Deliveries, DeliveredBy;
    RunSnoc(c, t, f);
    DeliveriesSnoc(msgs, t, f);
  }

  /** However the frames are interleaved, exactly the messages of msgs are handed on, in the
      order of their final frames, provided the other ids hand on nothing. */
  lemma MixedDelivery(c: Cache, msgs: Messages, fs: seq<Frame>)
    requires Uncached(c, msgs) && Carries(fs, msgs) && OthersSilent(c, fs, msgs)
    ensures Run(c, fs).out == Deliveries(msgs, fs)
    ensures forall id :: id in msgs ==> id !in Run(c, fs).cache && PacketsOf(Run(c, fs).out, id) == [msgs[id]]
  {
    assert fs[..|fs|] == fs;
    DeliveredSoFar(c, msgs, fs, |fs|);
    forall id | id in msgs ensures id !in Run(c, fs).cache && PacketsOf(Run(c, fs).out, id) == [msgs[id]] {
      Projection(c, fs, id);
      OneMessage(msgs[id], Only(fs, id));
    }
  }

  lemma SameLookups(c: Cache, d: Cache)
    requires forall id: u64 :: Lookup(c, id) == Lookup(d, id)
    ensures c == d
  {
    forall id: u64 ensures id in c <==> id in d {
      assert Lookup(c, id) == Lookup(d, id);
    }
    forall id | id in c ensures c[id] == d[id] {
      assert Lookup(c, id) == Lookup(d, id);
    }
  }

  /** The frames in fs belong to msgs or to the id v, and v hands on nothing. */
  ghost predicate OneSilent(c: Cache, msgs: Messages, fs: seq<Frame>, v: u64)
  {
    && Uncached(c, msgs) && Carries(fs, msgs) && v !in msgs && v !in c
    && (forall j :: 0 <= j < |fs| ==> fs[j].h.MsgId() in msgs || fs[j].h.MsgId() == v)
    && RunOne(None, Only(fs, v)).out == []
  }

  lemma SilentDelivery(c: Cache, msgs: Messages, fs: seq<Frame>, v: u64)
    requires OneSilent(c, msgs, fs, v)
    ensures Run(c, fs).out == Deliveries(msgs, fs)
    ensures forall id :: id in msgs ==> id !in Run(c, fs).cache
  {
    forall id | id !in msgs && id != v ensures Only(fs, id) == [] { OnlyNone(fs, id); }
    MixedDelivery(c, msgs, fs);
  }

  lemma SilentEntry(c: Cache, msgs: Messages, fs: seq<Frame>, v: u64, id: u64)
    requires OneSilent(c, msgs, fs, v) && id != v
    ensures Lookup(Run(c, fs).cache, id) == Lookup(c, id)
  {
    if id in msgs {
      SilentDelivery(c, msgs, fs, v);
    } else {
      OnlyNone(fs, id);
      Projection(c, fs, id);
    }
  }

  /** The cache afterwards differs from the one before at most at the silent id. */
  lemma SilentCache(c: Cache, msgs: Messages, fs: seq<Frame>, v: u64)
    requires OneSilent(c, msgs, fs, v)
    ensures Run(c, fs).cache - {v} == c
    ensures Lookup(Run(c, fs).cache, v) == RunOne(None, Only(fs, v)).entry
  {
    var d := Run(c, fs).cache;
    forall id: u64 ensures Lookup(d - {v}, id) == Lookup(c, id) {
      if id != v {
        SilentEntry(c, msgs, fs, v, id);
        assert Lookup(d - {v}, id) == Lookup(d, id);
      }
    }
    SameLookups(d - {v}, c);
    Projection(c, fs, v);
  }

  /** Interleaved reassembly: each message is handed on exactly once, in the order of the
      final frames, and the cache is as it was. */
  lemma InterleavedMessages(c: Cache, msgs: Messages, fs: seq<Frame>)
    requires Uncached(c, msgs) && Carries(fs, msgs)
    requires forall j :: 0 <= j < |fs| ==> fs[j].h.MsgId() in msgs
    ensures Run(c, fs) == Result(c, Deliveries(msgs, fs))
    ensures forall id :: id in msgs ==> PacketsOf(Deliveries(msgs, fs), id) == [msgs[id]]
  {
    forall id | id !in msgs ensures Only(fs, id) == [] { OnlyNone(fs, id); }
    MixedDelivery(c, msgs, fs);
    forall id: u64 ensures Lookup(Run(c, fs).cache, id) == Lookup(c, id) {
      if id !in msgs { Projection(c, fs, id); }
    }
    SameLookups(Run(c, fs).cache, c);
  }

  /** The frames in fs belong to msgs, all of them arranged, or to one more message v. */
  ghost predicate AmongOthers(c: Cache, msgs: Messages, fs: seq<Frame>, v: Packet)
  {
    && Uncached(c, msgs) && Carries(fs, msgs)
    && v.Encodable() && v.id !in msgs && v.id !in c
    && forall j :: 0 <= j < |fs| ==> fs[j].h.MsgId() in msgs || fs[j].h.MsgId() == v.id
  }

  /** Loss containment: a message v some of whose earlier fragments never arrive is not
      handed on and leaves nothing behind, and costs no other message anything. */
  lemma LossCostsOnlyItself(c: Cache, msgs: Messages, fs: seq<Frame>, v: Packet, mid: seq<Frame>)
    requires AmongOthers(c, msgs, fs, v) && v.Parts() > 1
    requires Only(fs, v.id) == mid + [FinalFrame(v)] && AllMiddle(v, mid) && !Complete(v, mid)
    ensures Run(c, fs) == Result(c, Deliveries(msgs, fs))
  {
    LossContained(v, mid);
    SilentDelivery(c, msgs, fs, v.id);
    SilentCache(c, msgs, fs, v.id);
    RemovesNothing(Run(c, fs).cache, v.id);
  }

  lemma RemovesNothing(c: Cache, id: u64)
    requires Lookup(c, id) == None
    ensures c - {id} == c
  {
  }

  /** Corruption containment: a message v one of whose frames had one or two payload bytes
      changed is never handed on, and every other message comes out unchanged. */
  lemma CorruptionCostsOnlyItself(c: Cache, msgs: Messages, fs: seq<Frame>, v: Packet, q: nat, original: seq<Frame>)
    requires AmongOthers(c, msgs, fs, v)
    requires CorruptedArrangement(v, Only(fs, v.id), q, original)
    ensures Run(c, fs).out == Deliveries(msgs, fs)
    ensures PacketsOf(Run(c, fs).out, v.id) == []
    ensures Run(c, fs).cache - {v.id} == c
  {
    CorruptionSilences(v, Only(fs, v.id), q, original);
    SilentDelivery(c, msgs, fs, v.id);
    SilentCache(c, msgs, fs, v.id);
    Projection(c, fs, v.id);
  }

  // ---- over the wire ----

  function DataUnits(fs: seq<Frame>): seq<Token>
  {
    seq(|fs|, i requires 0 <= i < |fs| => Data(fs[i]))
  }

  lemma DataUnitsCons(f: Frame, t: seq<Frame>)
    ensures DataUnits([f] + t) == [Data(f)] + DataUnits(t)
    ensures Wires([f] + t) == [f.Wire()] + Wires(t)
  {
  }

  lemma RawBytesCons(p: Token, ps: seq<Token>)
    ensures RawBytes([p] + ps) == p.Raw() + RawBytes(ps)
  {
  }

  lemma {:induction false} DataUnitsBytes(fs: seq<Frame>)
    ensures RawBytes(DataUnits(fs)) == Concat(Wires(fs))
    ensures FramesIn(DataUnits(fs)) == fs
  {
    if fs != [] {
      var f, t := fs[0], fs[1..];
      assert fs == [f] + t;
      DataUnitsBytes(t);
      DataUnitsCons(f, t);
      ConcatCons(f.Wire(), Wires(t));
      RawBytesCons(Data(f), DataUnits(t));
      FramesInCons(Data(f), DataUnits(t));
    }
  }

  lemma MessageUnits(m: Packet)
    requires m.Encodable() && m.ptype != HEARTBEAT
    ensures Units(DataUnits(FramesOf(m)))
  {
  }

  lemma {:induction false} OnlyAll(fs: seq<Frame>, id: u64)
    requires forall j :: 0 <= j < |fs| ==> fs[j].h.MsgId() == id
    ensures Only(fs, id) == fs
  {
    if fs != [] {
      OnlyAll(fs[..|fs| - 1], id);
      assert fs == fs[..|fs| - 1] + [fs[|fs| - 1]];
    }
  }

  lemma OwnFrames(m: Packet)
    requires m.Encodable()
    ensures forall j :: 0 <= j < |FramesOf(m)| ==> FramesOf(m)[j].h.MsgId() == m.id
    ensures Only(FramesOf(m), m.id) == FramesOf(m)
  {
    var fs := FramesOf(m);
    forall j | 0 <= j < |fs| ensures fs[j].h.MsgId() == m.id { FrameFacts(m, j); }
    OnlyAll(fs, m.id);
  }

  lemma EncodedRun(c: Cache, m: Packet)
    requires m.Encodable() && m.id !in c
    ensures Run(c, FramesOf(m)) == Result(c, [m])
  {
    OwnFrames(m);
    EncodedIsArranged(m);
    hide FramesOf, Run, Deliveries, Arrangement, Only;
    InterleavedMessages(c, map[m.id := m], FramesOf(m));
    DeliveriesOfOne(m);
  }

  lemma DeliveredByOwn(m: Packet, k: nat)
    requires m.Encodable() && k < m.Parts()
    ensures DeliveredBy(map[m.id := m], FrameOf(m, k)) == if k == m.Parts() - 1 then [m] else []
  {
    FrameFacts(m, k);
    hide FrameOf;
    if k < m.Parts() - 1 { FramesDiffer(m, k, m.Parts() - 1); }
  }

  lemma {:induction false} DeliveriesBefore(m: Packet, k: nat)
    requires m.Encodable() && k < m.Parts()
    ensures Deliveries(map[m.id := m], FramesOf(m)[..k]) == []
  {
    if k > 0 {
      FramesUpTo(m, k);
      hide *;
      DeliveriesBefore(m, k - 1);
      DeliveredByOwn(m, k - 1);
      DeliveriesSnoc(map[m.id := m], FramesOf(m)[..k - 1], FrameOf(m, k - 1));
    }
  }

  lemma DeliveriesOfOne(m: Packet)
    requires m.Encodable()
    ensures Deliveries(map[m.id := m], FramesOf(m)) == [m]
  {
    var n: nat := m.Parts() - 1;
    FramesUpTo(m, n + 1);
    assert FramesOf(m)[..n + 1] == FramesOf(m);
    hide *;
    DeliveriesBefore(m, n);
    DeliveredByOwn(m, n);
    DeliveriesSnoc(map[m.id := m], FramesOf(m)[..n], FrameOf(m, n));
  }

  /** Round trip: encoding a message and decoding the bytes, in whatever chunks, hands on
      exactly that message and leaves buffer and cache as they were. */
  lemma RoundTrip(c: Cache, m: Packet, chunks: seq<seq<byte>>)
    requires m.Encodable() && m.ptype != HEARTBEAT && m.id !in c
    requires Concat(chunks) == Concat(Wires(FramesOf(m)))
    ensures ScanChunks(chunks).left == []
    ensures Run(c, FramesIn(ScanChunks(chunks).tokens)) == Result(c, [m])
  {
    var fs := FramesOf(m);
    DataUnitsBytes(fs);
    MessageUnits(m);
    ChunkIndependence(DataUnits(fs), chunks);
    EncodedRun(c, m);
  }

  /** The receiving half on literal bytes: any byte strings with the layout of a message's
      frames, concatenated and cut into any chunks, are handed on as that message. */
  lemma LiteralRoundTrip(c: Cache, m: Packet, fs: seq<seq<byte>>, chunks: seq<seq<byte>>)
    requires 0 < |m.body| <= 10485760 && m.ptype != 1 && m.id !in c
    requires |fs| == (|m.body| + 4095) / 4096
    requires forall i :: 0 <= i < |fs| ==> PartOnWire(fs[i], m.id, m.body, m.ptype, i)
    requires Concat(chunks) == Concat(fs)
    ensures ScanChunks(chunks).left == []
    ensures Run(c, FramesIn(ScanChunks(chunks).tokens)) == Result(c, [m])
  {
    var wires := Wires(FramesOf(m));
    assert m.Parts() == |fs| == |wires|;
    assert forall i :: 0 <= i < |fs| ==> wires[i] == FrameOf(m, i).Wire();
    hide PartOnWire, FrameOf, FramesOf, Wires, Run, ScanChunks;
    forall i | 0 <= i < |fs| ensures fs[i] == wires[i] {
      LayoutDetermines(fs[i], m, i);
    }
    assert fs == wires;
    RoundTrip(c, m, chunks);
  }

  /** Nothing decode hands on is ever of type HEARTBEAT. */
  lemma {:induction false} NeverHeartbeat(c: Cache, fs: seq<Frame>)
    requires forall j :: 0 <= j < |fs| ==> fs[j].h.ptype != HEARTBEAT
    ensures forall k :: 0 <= k < |Run(c, fs).out| ==> Run(c, fs).out[k].ptype != HEARTBEAT
  {
    if fs != [] {
      NeverHeartbeat(c, fs[..|fs| - 1]);
    }
  }

  ghost predicate AllHandled(fs: seq<Frame>)
  {
    forall j :: 0 <= j < |fs| ==> fs[j].Handled()
  }

  lemma {:induction false} ScannedFramesHandled(s: seq<byte>)
    ensures AllHandled(FramesIn(Scan(s).tokens))
    decreases |s|
  {
    var ps := Scan(s).tokens;
    if ps != [] && !ps[0].Cleared? {
      ScanTakes(s);
      var t := s[|ps[0].Raw()|..];
      ScannedFramesHandled(t);
      FramesInCons(ps[0], Scan(t).tokens);
    }
  }

  /** The bytes of an encoded message, scanned in one go, are its frames. */
  lemma EncodedScan(m: Packet)
    requires m.Encodable() && m.ptype != HEARTBEAT
    ensures Scan(Concat(Wires(FramesOf(m)))) == Parse(DataUnits(FramesOf(m)), [])
    ensures FramesIn(DataUnits(FramesOf(m))) == FramesOf(m)
  {
    hide Scan, RawBytes, FramesIn, FramesOf, DataUnits, Wires;
    var fs := FramesOf(m);
    DataUnitsBytes(fs);
    MessageUnits(m);
    PrefixOfUnits(DataUnits(fs), RawBytes(DataUnits(fs)));
  }

  lemma HeartbeatNeverReturns(c: Cache, m: Packet, s: seq<byte>)
    requires m.ptype == HEARTBEAT
    ensures Run(c, FramesIn(Scan(s).tokens)).out != [m]
  {
    ScannedFramesHandled(s);
    NeverHeartbeat(c, FramesIn(Scan(s).tokens));
    assert [m][0].ptype == HEARTBEAT;
  }

  /** Any units, data and heartbeats, in any chunks: what is handed on depends on the data
      frames alone. So the statements above about frames hold of byte streams. */
  lemma FramesOverTheWire(c: Cache, ps: seq<Token>, chunks: seq<seq<byte>>)
    requires Units(ps) && Concat(chunks) == RawBytes(ps)
    ensures ScanChunks(chunks).left == []
    ensures Run(c, FramesIn(ScanChunks(chunks).tokens)) == Run(c, FramesIn(ps))
  {
    ChunkIndependence(ps, chunks);
  }

  /** Interleaved reassembly on bytes, with heartbeats anywhere and any chunking. */
  lemma InterleavedStream(c: Cache, msgs: Messages, ps: seq<Token>, chunks: seq<seq<byte>>)
    requires Units(ps) && Concat(chunks) == RawBytes(ps)
    requires Uncached(c, msgs) && Carries(FramesIn(ps), msgs)
    requires forall j :: 0 <= j < |FramesIn(ps)| ==> FramesIn(ps)[j].h.MsgId() in msgs
    ensures ScanChunks(chunks).left == []
    ensures Run(c, FramesIn(ScanChunks(chunks).tokens)) == Result(c, Deliveries(msgs, FramesIn(ps)))
  {
    FramesOverTheWire(c, ps, chunks);
    InterleavedMessages(c, msgs, FramesIn(ps));
  }

  /** Loss containment on bytes: units of other messages, heartbeats, and a message v some of
      whose earlier fragments are missing, in any chunks. */
  lemma LossyStream(c: Cache, msgs: Messages, ps: seq<Token>, chunks: seq<seq<byte>>, v: Packet, mid: seq<Frame>)
    requires Units(ps) && Concat(chunks) == RawBytes(ps)
    requires AmongOthers(c, msgs, FramesIn(ps), v) && v.Parts() > 1
    requires Only(FramesIn(ps), v.id) == mid + [FinalFrame(v)] && AllMiddle(v, mid) && !Complete(v, mid)
    ensures ScanChunks(chunks).left == []
    ensures Run(c, FramesIn(ScanChunks(chunks).tokens)) == Result(c, Deliveries(msgs, FramesIn(ps)))
  {
    hide *;
    FramesOverTheWire(c, ps, chunks);
    LossCostsOnlyItself(c, msgs, FramesIn(ps), v, mid);
  }

  /** Corruption containment on bytes: units of other messages, heartbeats, and a message v
      one of whose frames has one or two payload bytes changed, in any chunks. */
  lemma CorruptedStream(c: Cache, msgs: Messages, ps: seq<Token>, chunks: seq<seq<byte>>, v: Packet,
                        q: nat, original: seq<Frame>)
    requires Units(ps) && Concat(chunks) == RawBytes(ps)
    requires AmongOthers(c, msgs, FramesIn(ps), v)
    requires CorruptedArrangement(v, Only(FramesIn(ps), v.id), q, original)
    ensures ScanChunks(chunks).left == []
    ensures var r := Run(c, FramesIn(ScanChunks(chunks).tokens));
      r.out == Deliveries(msgs, FramesIn(ps)) && PacketsOf(r.out, v.id) == [] && r.cache - {v.id} == c
  {
    FramesOverTheWire(c, ps, chunks);
    hide *;
    CorruptionCostsOnlyItself(c, msgs, FramesIn(ps), v, q, original);
  }

  /** Garbage without a magic, in the same call as the units behind it, costs none of them. */
  lemma GarbageCostsNothing(c: Cache, g: seq<byte>, ps: seq<Token>)
    requires g != [] && NoMagicIn(g) && Units(ps) && ps != []
    ensures Scan(g + RawBytes(ps)).left == []
    ensures Run(c, FramesIn(Scan(g + RawBytes(ps)).tokens)) == Run(c, FramesIn(ps))
  {
    hide Scan, Run, RawBytes, FramesIn;
    Resynchronises(g, ps);
    FramesInCons(Garbage(g), ps);
    assert [] + FramesIn(ps) == FramesIn(ps);
  }

  // ---- damage to what encode produced ----

  lemma {:induction false} NoMessagesNoDeliveries(fs: seq<Frame>)
    ensures Deliveries(map[], fs) == []
  {
    if fs != [] { NoMessagesNoDeliveries(fs[..|fs| - 1]); }
  }

  lemma CorruptedEncodingArranged(m: Packet, q: nat, g: Frame)
    requires m.Encodable() && q < m.Parts() && Corrupts(FrameOf(m, q), g)
    ensures CorruptedArrangement(m, FramesOf(m)[q := g], q, FramesOf(m))
    ensures Only(FramesOf(m)[q := g], m.id) == FramesOf(m)[q := g]
    ensures var fs := FramesOf(m)[q := g]; forall j :: 0 <= j < |fs| ==> fs[j].h.MsgId() == m.id
  {
    hide FrameOf;
    var original := FramesOf(m);
    var fs := original[q := g];
    EncodedIsArranged(m);
    forall k, l | 0 <= k < l < |original| ensures original[k] != original[l] { FramesDiffer(m, k, l); }
    forall j | 0 <= j < |fs| ensures fs[j].h.MsgId() == m.id { FrameFacts(m, j); }
    OnlyAll(fs, m.id);
  }

  /** Changing one or two payload bytes of any one frame of an encoded message makes the
      receiver hand on nothing. */
  lemma CorruptedEncoding(c: Cache, m: Packet, q: nat, g: Frame)
    requires m.Encodable() && m.id !in c && q < m.Parts() && Corrupts(FrameOf(m, q), g)
    ensures Run(c, FramesOf(m)[q := g]).out == []
    ensures Run(c, FramesOf(m)[q := g]).cache - {m.id} == c
  {
    hide FrameOf, Run, CorruptedArrangement;
    CorruptedEncodingArranged(m, q, g);
    assert AmongOthers(c, map[], FramesOf(m)[q := g], m);
    NoMessagesNoDeliveries(FramesOf(m)[q := g]);
    CorruptionCostsOnlyItself(c, map[], FramesOf(m)[q := g], m, q, FramesOf(m));
  }

  lemma LossyEncodingLacks(m: Packet, i: nat)
    requires m.Encodable() && i < m.Parts() - 1
    ensures var n := m.Parts() - 1; var mid := FramesOf(m)[..i] + FramesOf(m)[i + 1..n];
      && AllMiddle(m, mid) && !Complete(m, mid)
      && FramesOf(m)[..i] + FramesOf(m)[i + 1..] == mid + [FinalFrame(m)]
      && forall j :: 0 <= j < |mid| ==> mid[j].h.MsgId() == m.id
  {
    hide FrameOf;
    var n := m.Parts() - 1;
    var mid := FramesOf(m)[..i] + FramesOf(m)[i + 1..n];
    forall j | 0 <= j < |mid| ensures MiddleOf(m, mid[j]) && mid[j] != FrameOf(m, i) && mid[j].h.MsgId() == m.id {
      var k := if j < i then j else j + 1;
      assert mid[j] == FrameOf(m, k);
      FrameFacts(m, k);
      FramesDiffer(m, k, i);
    }
    assert FrameOf(m, i) !in mid;
  }

  /** Dropping any one frame but the last of an encoded message makes the receiver hand on
      nothing and keep nothing. */
  lemma LossyEncoding(c: Cache, m: Packet, i: nat)
    requires m.Encodable() && m.id !in c && i < m.Parts() - 1
    ensures Run(c, FramesOf(m)[..i] + FramesOf(m)[i + 1..]) == Result(c, [])
  {
    hide FrameOf, Run, AllMiddle, Complete;
    var mid := FramesOf(m)[..i] + FramesOf(m)[i + 1..m.Parts() - 1];
    var fs := mid + [FinalFrame(m)];
    LossyEncodingLacks(m, i);
    FrameFacts(m, m.Parts() - 1);
    OnlyAll(fs, m.id);
    NoMessagesNoDeliveries(fs);
    LossCostsOnlyItself(c, map[], fs, m, mid);
  }
}
