// Two peers joined by a byte stream in each direction, under every schedule: the
// end-to-end property of ClientSession, TcpConnection and FrameProtocolCodec together.
module Pipeline {
  import opened Bytes
  import opened Proto
  import opened Encoder
  import opened Scanner
  import opened Streaming
  import opened Reassembly
  import opened Interleaving
  import opened Connection
  import opened Session

  /** A peer and its history: the messages sendMessage accepted and the wire units they and
      the heartbeats became, the bytes put on the network, how many bytes of the front
      buffer the write in flight has put there, how many bytes of the other direction have
      been read, the packets passed to the message handler, and whether a read has completed
      since the socket was closed. */
  datatype End = End(peer: Peer, sent: seq<Packet>, stream: seq<Token>, wire: seq<byte>, progress: nat,
                     read: nat, delivered: seq<Packet>, lastRead: bool)

  datatype Action =
    | SendMessage(body: seq<byte>, ptype: byte)
    | SendHeartBeat
    | RunPosted
    | Transmit(n: nat)
    | WriteDone
    | WriteFails
    | CloseSocket
    | Receive(n: nat)

  function NewEnd(): End
  {
    End(Peer(0, NewConn(), [], map[]), [], [], [], 0, 0, [], false)
  }

  function Beats(): Token
  {
    Beat(CreateHeartbeatFrame())
  }

  /** One step of an end, incoming being what the other end has put on the network; None
      when the step is not possible. Writes put bytes on the network piecemeal and may fail
      at any moment; a read takes 1 to 4096 bytes. The completion of one read may be waiting
      on the strand when the socket is closed, and none comes after it. */
  function Act(x: End, incoming: seq<byte>, a: Action): Option<End>
  {
    var c := x.peer.conn;
    match a
    case SendMessage(body, ptype) =>
      var m := Packet(x.peer.uid, ptype, body);
      if ptype == HEARTBEAT then None
      else if m.Encodable() then
        Some(x.(peer := AfterSend(x.peer, body, ptype), sent := x.sent + [m],
                stream := x.stream + DataUnits(FramesOf(m))))
      else Some(x.(peer := AfterSend(x.peer, body, ptype)))
    case SendHeartBeat =>
      Some(x.(peer := AfterHeartBeat(x.peer), stream := x.stream + [Beats()]))
    case RunPosted =>
      if c.strand == [] then None
      else
        var handed := match c.strand[0] case Write(_) => [] case Deliver(p) => [p];
        Some(x.(peer := x.peer.(conn := RunTask(c)), delivered := x.delivered + handed))
    case Transmit(n) =>
      if c.outstanding > 0 && c.writeQ != [] && c.open && x.progress + n <= |c.writeQ[0]| then
        Some(x.(wire := x.wire + c.writeQ[0][x.progress..x.progress + n], progress := x.progress + n))
      else None
    case WriteDone =>
      if c.outstanding > 0 && c.writeQ != [] && x.progress == |c.writeQ[0]| then
        Some(x.(peer := x.peer.(conn := WriteCompleted(c, true)), progress := 0))
      else None
    case WriteFails =>
      if c.outstanding > 0 && c.writeQ != [] then
        Some(x.(peer := x.peer.(conn := WriteCompleted(c, false))))
      else None
    case CloseSocket =>
      Some(x.(peer := x.peer.(conn := Shut(c))))
    case Receive(n) =>
      if 1 <= n <= 4096 && (c.open || !x.lastRead) && x.read + n <= |incoming| then
        Some(AfterReceive(x, incoming, n))
      else None
  }

  function AfterReceive(x: End, incoming: seq<byte>, n: nat): End
    requires x.read + n <= |incoming|
  {
    x.(peer := AfterData(x.peer, incoming[x.read..x.read + n]), read := x.read + n, lastRead := !x.peer.conn.open)
  }

  datatype System = System(left: End, right: End)

  datatype Event = Event(onLeft: bool, action: Action)

  function Step(s: System, e: Event): Option<System>
  {
    if e.onLeft then
      var r := Act(s.left, s.right.wire, e.action);
      if r.None? then None else Some(s.(left := r.value))
    else
      var r := Act(s.right, s.left.wire, e.action);
      if r.None? then None else Some(s.(right := r.value))
  }

  /** The state a schedule leads to, or None if one of its events was not possible. */
  function After(schedule: seq<Event>): Option<System>
  {
    if schedule == [] then Some(System(NewEnd(), NewEnd())) else
      var s := After(schedule[..|schedule| - 1]);
      if s.None? then None else Step(s.value, schedule[|schedule| - 1])
  }

  // ---- the sending half ----

  function AllFrames(ms: seq<Packet>): seq<Frame>
    requires forall i :: 0 <= i < |ms| ==> ms[i].Encodable()
  {
    if ms == [] then [] else AllFrames(ms[..|ms| - 1]) + FramesOf(ms[|ms| - 1])
  }

  function RawList(ps: seq<Token>): seq<seq<byte>>
  {
    seq(|ps|, i requires 0 <= i < |ps| => ps[i].Raw())
  }

  lemma {:induction false} RawListBytes(ps: seq<Token>)
    ensures Concat(RawList(ps)) == RawBytes(ps)
  {
    if ps != [] {
      RawListBytes(ps[1..]);
      assert RawList(ps) == [ps[0].Raw()] + RawList(ps[1..]);
      ConcatCons(ps[0].Raw(), RawList(ps[1..]));
    }
  }

  ghost predicate Sendable(ms: seq<Packet>)
  {
    forall i :: 0 <= i < |ms| ==> ms[i].Encodable() && ms[i].ptype != HEARTBEAT
  }

  /** The bytes of the front buffer that are already on the network. */
  function OnTheWay(x: End): seq<byte>
  {
    var q := x.peer.conn.writeQ;
    if q != [] && x.progress <= |q[0]| then q[0][..x.progress] else []
  }

  /** Everything posted is the sent messages' frames and heartbeats, in order, and the
      network has the completed buffers and part of the one being written. */
  ghost predicate Sender(x: End)
  {
    var c := x.peer.conn;
    && SingleWriter(c)
    && Sendable(x.sent) && Units(x.stream)
    && FramesIn(x.stream) == AllFrames(x.sent)
    && Enqueued(c) == RawList(x.stream)
    && (if c.writeQ == [] then x.progress == 0 else x.progress <= |c.writeQ[0]|)
    && x.wire == Concat(c.completed) + OnTheWay(x)
  }

  lemma QueueBytes(completed: seq<seq<byte>>, q: seq<seq<byte>>, rest: seq<seq<byte>>, k: nat)
    requires q != [] && k <= |q[0]|
    ensures Concat(completed) + q[0][..k] <= Concat(completed + q + rest)
  {
    hide Concat;
    ConcatAppend(completed + q, rest);
    ConcatAppend(completed, q);
    assert q == [q[0]] + q[1..];
    ConcatCons(q[0], q[1..]);
  }

  lemma WireIsPrefix(x: End)
    requires Sender(x)
    ensures x.wire <= RawBytes(x.stream)
    ensures x.peer.conn.writeQ == [] && Writes(x.peer.conn.strand) == [] ==> x.wire == RawBytes(x.stream)
  {
    hide RawBytes, FramesIn, AllFrames;
    var c := x.peer.conn;
    RawListBytes(x.stream);
    if c.writeQ == [] {
      assert c.completed + [] == c.completed;
      ConcatAppend(c.completed, Writes(c.strand));
      assert x.wire == Concat(c.completed) + [] == Concat(c.completed);
      if Writes(c.strand) == [] { assert c.completed + [] == c.completed; }
    } else {
      QueueBytes(c.completed, c.writeQ, Writes(c.strand), x.progress);
    }
  }

  // ---- the receiving half ----

  /** What has been read so far was decoded as if it had come in one chunk, and the packets
      are delivered, or waiting on the strand, in order. */
  ghost predicate Receiver(y: End, incoming: seq<byte>)
  {
    y.read <= |incoming| && DecodedFrom(y, incoming[..y.read])
  }

  ghost predicate DecodedFrom(y: End, w: seq<byte>)
  {
    var p := Scan(w);
    var r := Run(map[], FramesIn(p.tokens));
    && y.peer.buffer == p.left && y.peer.cache == r.cache
    && y.delivered + Delivers(y.peer.conn.strand) == r.out
  }

  lemma AllFramesSnoc(t: seq<Packet>, m: Packet)
    requires Sendable(t) && m.Encodable()
    ensures Sendable([m]) ==> Sendable(t + [m])
    ensures forall i :: 0 <= i < |t + [m]| ==> (t + [m])[i].Encodable()
    ensures AllFrames(t + [m]) == AllFrames(t) + FramesOf(m)
  {
  }

  /** The frames of the messages, in order, are handed on as exactly those messages. */
  ghost predicate RoundTrips(ms: seq<Packet>)
    requires Sendable(ms)
  {
    Run(map[], AllFrames(ms)) == Result(map[], ms)
  }

  lemma RoundTripsSnoc(t: seq<Packet>, m: Packet)
    requires Sendable(t) && Sendable(t + [m]) && RoundTrips(t)
    ensures RoundTrips(t + [m])
  {
    assert (t + [m])[|t|] == m;
    AllFramesSnoc(t, m);
    EncodedRun(map[], m);
    RunConcat(map[], AllFrames(t), FramesOf(m));
  }

  lemma {:induction false} AllDelivered(ms: seq<Packet>)
    requires Sendable(ms)
    ensures RoundTrips(ms)
  {
    if ms != [] {
      var t, m := ms[..|ms| - 1], ms[|ms| - 1];
      AllDelivered(t);
      assert ms == t + [m];
      RoundTripsSnoc(t, m);
    }
  }

  /** Decoding a prefix of a stream hands on a prefix of what the whole stream does. */
  lemma PrefixDelivers(ps: seq<Token>, w: seq<byte>)
    requires Units(ps) && w <= RawBytes(ps)
    ensures !Clears(Scan(w).tokens)
    ensures Run(map[], FramesIn(Scan(w).tokens)).out <= Run(map[], FramesIn(ps)).out
    ensures w == RawBytes(ps) ==> Scan(w).tokens == ps
  {
    hide Scan, Run, RawBytes, FramesIn;
    PrefixOfUnits(ps, w);
    var ts := Scan(w).tokens;
    var rest := ps[|ts|..];
    assert ps == ts + rest;
    FramesInConcat(ts, rest);
    RunConcat(map[], FramesIn(ts), FramesIn(rest));
    if ts != [] { assert Unit(ps[|ts| - 1]); }
  }

  /** What a receiver has decoded is a prefix of what the sender has accepted. */
  lemma DecodedIsPrefix(x: End, w: seq<byte>)
    requires Sender(x) && w <= x.wire
    ensures !Clears(Scan(w).tokens)
    ensures Run(map[], FramesIn(Scan(w).tokens)).out <= x.sent
    ensures w == RawBytes(x.stream) ==> Run(map[], FramesIn(Scan(w).tokens)).out == x.sent
  {
    hide Scan, Run, RawBytes, FramesIn, AllFrames;
    WireIsPrefix(x);
    PrefixDelivers(x.stream, w);
    AllDelivered(x.sent);
  }

  // ---- posting ----

  /** The parts of a connection that posting leaves alone. */
  ghost predicate OnlyStrandDiffers(c: Conn, d: Conn)
  {
    d == c.(strand := d.strand)
  }

  lemma {:induction false} PostWritesEnqueues(c: Conn, data: seq<seq<byte>>)
    ensures var d := PostWrites(c, data);
      && OnlyStrandDiffers(c, d)
      && Enqueued(d) == Enqueued(c) + data
      && Delivers(d.strand) == Delivers(c.strand)
  {
    if data == [] {
      assert Enqueued(c) + data == Enqueued(c);
    } else {
      var t, w := data[..|data| - 1], data[|data| - 1];
      var d := PostWrites(c, t);
      PostWritesEnqueues(c, t);
      PostEnqueues(d, Write(w));
      WritesSnoc(d.strand, Write(w));
      assert Enqueued(c) + t + [w] == Enqueued(c) + data;
    }
  }

  lemma {:induction false} PostDeliversQueues(c: Conn, ps: seq<Packet>)
    requires forall i :: 0 <= i < |ps| ==> ps[i].ptype != HEARTBEAT
    ensures var d := PostDelivers(c, ps);
      && OnlyStrandDiffers(c, d)
      && Enqueued(d) == Enqueued(c)
      && Delivers(d.strand) == Delivers(c.strand) + ps
  {
    if ps == [] {
      assert Delivers(c.strand) + ps == Delivers(c.strand);
    } else {
      var t, p := ps[..|ps| - 1], ps[|ps| - 1];
      var d := PostDelivers(c, t);
      PostDeliversQueues(c, t);
      PostEnqueues(d, Deliver(p));
      WritesSnoc(d.strand, Deliver(p));
      assert Enqueued(d) + [] == Enqueued(d);
      assert Delivers(c.strand) + t + [p] == Delivers(c.strand) + ps;
    }
  }

  lemma BeatIsUnit()
    ensures Unit(Beats())
  {
  }

  // ---- every step keeps the sending half ----

  /** More units are posted behind everything posted before. */
  lemma SenderPosts(x: End, y: End, ps: seq<Token>, ms: seq<Packet>)
    requires Sender(x) && Units(ps) && Sendable(ms)
    requires OnlyStrandDiffers(x.peer.conn, y.peer.conn)
    requires Enqueued(y.peer.conn) == Enqueued(x.peer.conn) + RawList(ps)
    requires y.stream == x.stream + ps && y.sent == x.sent + ms
    requires AllFrames(x.sent) + FramesIn(ps) == AllFrames(y.sent)
    requires y.wire == x.wire && y.progress == x.progress
    ensures Sender(y)
  {
    hide RawList, FramesIn, AllFrames, Enqueued, Units;
    FramesInConcat(x.stream, ps);
    RawListConcat(x.stream, ps);
    UnitsConcat(x.stream, ps);
  }

  lemma RawListConcat(a: seq<Token>, b: seq<Token>)
    ensures RawList(a + b) == RawList(a) + RawList(b)
  {
  }

  lemma UnitsConcat(a: seq<Token>, b: seq<Token>)
    requires Units(a) && Units(b)
    ensures Units(a + b)
  {
    hide Unit;
  }

  lemma RawListOfFrames(fs: seq<Frame>)
    ensures RawList(DataUnits(fs)) == Wires(fs)
  {
  }

  lemma SendsFrames(x: End, m: Packet)
    requires m == Packet(x.peer.uid, m.ptype, m.body) && m.Encodable()
    requires Act(x, [], SendMessage(m.body, m.ptype)).Some?
    ensures m.ptype != HEARTBEAT
    ensures var y := Act(x, [], SendMessage(m.body, m.ptype)).value;
      && y.peer.conn == PostWrites(x.peer.conn, Wires(FramesOf(m)))
      && y.stream == x.stream + DataUnits(FramesOf(m)) && y.sent == x.sent + [m]
      && y.wire == x.wire && y.progress == x.progress
  {
    hide FramesOf, DataUnits, Wires, PostWrites;
  }

  lemma SenderSendsFrames(x: End, m: Packet)
    requires Sender(x) && m == Packet(x.peer.uid, m.ptype, m.body) && m.Encodable()
    requires Act(x, [], SendMessage(m.body, m.ptype)).Some?
    ensures Sender(Act(x, [], SendMessage(m.body, m.ptype)).value)
  {
    assert Sendable(x.sent);
    SendsFrames(x, m);
    assert Sendable([m]);
    var fs := FramesOf(m);
    hide *;
    MessageUnits(m);
    DataUnitsBytes(fs);
    RawListOfFrames(fs);
    PostWritesEnqueues(x.peer.conn, Wires(fs));
    AllFramesSnoc(x.sent, m);
    SenderPosts(x, Act(x, [], SendMessage(m.body, m.ptype)).value, DataUnits(fs), [m]);
  }

  lemma SenderSendsMessage(x: End, body: seq<byte>, ptype: byte)
    requires Sender(x) && Act(x, [], SendMessage(body, ptype)).Some?
    ensures Sender(Act(x, [], SendMessage(body, ptype)).value)
  {
    hide Sender, FramesOf, DataUnits, Wires, PostWrites;
    var m := Packet(x.peer.uid, ptype, body);
    if m.Encodable() {
      SenderSendsFrames(x, m);
    } else {
      SameSender(x, Act(x, [], SendMessage(body, ptype)).value);
    }
  }

  lemma BeatAlone()
    ensures Units([Beats()]) && RawList([Beats()]) == [CreateHeartbeatFrame()] && FramesIn([Beats()]) == []
  {
    BeatIsUnit();
  }

  lemma SendsBeat(x: End)
    ensures var y := Act(x, [], SendHeartBeat).value;
      && y.peer.conn == Post(x.peer.conn, Write(CreateHeartbeatFrame()))
      && OnlyStrandDiffers(x.peer.conn, y.peer.conn)
      && y.stream == x.stream + [Beats()] && y.sent == x.sent + []
      && y.wire == x.wire && y.progress == x.progress
  {
    hide CreateHeartbeatFrame, Beats;
  }

  lemma SenderBeats(x: End)
    requires Sender(x)
    ensures Sender(Act(x, [], SendHeartBeat).value)
  {
    assert Sendable(x.sent) && Sendable([]);
    BeatAlone();
    SendsBeat(x);
    assert x.sent + [] == x.sent && AllFrames(x.sent) + [] == AllFrames(x.sent);
    hide *;
    PostEnqueues(x.peer.conn, Write(CreateHeartbeatFrame()));
    SenderPosts(x, Act(x, [], SendHeartBeat).value, [Beats()], []);
  }

  lemma SenderTransmits(x: End, n: nat)
    requires Sender(x) && Act(x, [], Transmit(n)).Some?
    ensures Sender(Act(x, [], Transmit(n)).value)
  {
  }

  lemma SenderCompletes(x: End)
    requires Sender(x) && Act(x, [], WriteDone).Some?
    ensures Sender(Act(x, [], WriteDone).value)
  {
    hide FramesIn, AllFrames, RawList, Units, Concat, Enqueued, SingleWriter, Writes;
    var c := x.peer.conn;
    WriteCompletedKeeps(c, true);
    ConcatSnoc(c.completed, c.writeQ[0]);
    assert c.writeQ[0][..x.progress] == c.writeQ[0];
    var y := Act(x, [], WriteDone).value;
    assert OnTheWay(y) == [];
  }

  lemma SenderFails(x: End)
    requires Sender(x) && Act(x, [], WriteFails).Some?
    ensures Sender(Act(x, [], WriteFails).value)
  {
    hide FramesIn, AllFrames, RawList, Units, Concat;
    WriteCompletedKeeps(x.peer.conn, false);
  }

  lemma SenderCloses(x: End)
    requires Sender(x)
    ensures Sender(Act(x, [], CloseSocket).value)
  {
    hide FramesIn, AllFrames, RawList, Units, Concat;
  }

  lemma SenderRuns(x: End)
    requires Sender(x) && Act(x, [], RunPosted).Some?
    ensures Sender(Act(x, [], RunPosted).value)
  {
    hide FramesIn, AllFrames, RawList, Units, Concat;
    RunTaskKeeps(x.peer.conn);
    hide Enqueued, SingleWriter, Writes;
    var y := Act(x, [], RunPosted).value;
    assert OnTheWay(y) == OnTheWay(x);
  }

  lemma DataPostsNoWrite(p: Peer, data: seq<byte>)
    ensures OnlyStrandDiffers(p.conn, AfterData(p, data).conn)
    ensures Enqueued(AfterData(p, data).conn) == Enqueued(p.conn)
  {
    var s := p.buffer + data;
    ScannedFramesHandled(s);
    NeverHeartbeat(p.cache, FramesIn(Scan(s).tokens));
    PostDeliversQueues(p.conn, Run(p.cache, FramesIn(Scan(s).tokens)).out);
  }

  lemma SenderReceives(x: End, incoming: seq<byte>, n: nat)
    requires Sender(x) && x.read + n <= |incoming|
    ensures Sender(AfterReceive(x, incoming, n))
  {
    hide AfterData, Sender;
    DataPostsNoWrite(x.peer, incoming[x.read..x.read + n]);
    SameSender(x, AfterReceive(x, incoming, n));
  }

  lemma SameSender(x: End, y: End)
    requires Sender(x) && OnlyStrandDiffers(x.peer.conn, y.peer.conn)
    requires Enqueued(y.peer.conn) == Enqueued(x.peer.conn)
    requires y.stream == x.stream && y.sent == x.sent && y.wire == x.wire && y.progress == x.progress
    ensures Sender(y)
  {
  }

  lemma SenderStep(x: End, incoming: seq<byte>, a: Action)
    requires Sender(x) && Act(x, incoming, a).Some?
    ensures Sender(Act(x, incoming, a).value)
    ensures x.wire <= Act(x, incoming, a).value.wire
    ensures x.sent <= Act(x, incoming, a).value.sent
  {
    OnlyGrows(x, incoming, a);
    SenderKept(x, incoming, a);
  }

  lemma OnlyGrows(x: End, incoming: seq<byte>, a: Action)
    requires Act(x, incoming, a).Some?
    ensures x.wire <= Act(x, incoming, a).value.wire
    ensures x.sent <= Act(x, incoming, a).value.sent
  {
    hide AfterSend, AfterHeartBeat, AfterData, RunTask, WriteCompleted, Shut, FramesOf;
  }

  lemma SenderKept(x: End, incoming: seq<byte>, a: Action)
    requires Sender(x) && Act(x, incoming, a).Some?
    ensures Sender(Act(x, incoming, a).value)
  {
    hide Sender, AfterSend, AfterHeartBeat, AfterReceive, RunTask, WriteCompleted, Shut, FramesOf;
    match a {
      case SendMessage(body, ptype) => SenderSendsMessage(x, body, ptype);
      case SendHeartBeat => SenderBeats(x);
      case RunPosted => SenderRuns(x);
      case Transmit(n) => SenderTransmits(x, n);
      case WriteDone => SenderCompletes(x);
      case WriteFails => SenderFails(x);
      case CloseSocket => SenderCloses(x);
      case Receive(n) => SenderReceives(x, incoming, n);
    }
  }

  // ---- every step keeps the receiving half ----

  lemma ReceiverRuns(y: End, incoming: seq<byte>)
    requires Receiver(y, incoming) && Act(y, incoming, RunPosted).Some?
    ensures Receiver(Act(y, incoming, RunPosted).value, incoming)
  {
    var strand := y.peer.conn.strand;
    hide Writes, Delivers, Scan, Run, FramesIn;
    WritesHead(strand);
    var handed := if strand[0].Deliver? then [strand[0].packet] else [];
    assert y.delivered + handed + Delivers(strand[1..]) == y.delivered + (handed + Delivers(strand[1..]));
  }

  /** Decoding data after w is decoding w + data, as far as buffer, cache and packets go. */
  lemma DecodeMore(w: seq<byte>, data: seq<byte>)
    requires !Clears(Scan(w).tokens)
    ensures var now := Scan(Scan(w).left + data);
      var first := Run(map[], FramesIn(Scan(w).tokens));
      var second := Run(first.cache, FramesIn(now.tokens));
      && Scan(w + data).left == now.left
      && Run(map[], FramesIn(Scan(w + data).tokens)) == Then(first, second)
      && forall i :: 0 <= i < |second.out| ==> second.out[i].ptype != HEARTBEAT
  {
    ScanAppend(w, data);
    var s := Scan(w).left + data;
    var fs, gs := FramesIn(Scan(w).tokens), FramesIn(Scan(s).tokens);
    FramesInConcat(Scan(w).tokens, Scan(s).tokens);
    RunConcat(map[], fs, gs);
    ScannedFramesHandled(s);
    NeverHeartbeat(Run(map[], fs).cache, gs);
  }

  lemma DecodesMore(y: End, z: End, w: seq<byte>, data: seq<byte>)
    requires DecodedFrom(y, w) && !Clears(Scan(w).tokens)
    requires z.peer == AfterData(y.peer, data) && z.delivered == y.delivered
    ensures DecodedFrom(z, w + data)
  {
    DecodeMore(w, data);
    PostsDecoded(y, z, Run(y.peer.cache, FramesIn(Scan(y.peer.buffer + data).tokens)).out);
  }

  lemma ReceiverExtends(z: End, incoming: seq<byte>, read: nat)
    requires read <= z.read <= |incoming| && DecodedFrom(z, incoming[..read] + incoming[read..z.read])
    ensures Receiver(z, incoming)
  {
    assert incoming[..read] + incoming[read..z.read] == incoming[..z.read];
  }

  lemma ReceiverReceives(y: End, x: End, n: nat)
    requires Receiver(y, x.wire) && Sender(x) && y.read + n <= |x.wire|
    ensures Receiver(AfterReceive(y, x.wire, n), x.wire)
  {
    hide Scan, Run, AfterData, Sender, DecodedFrom;
    var w, data := x.wire[..y.read], x.wire[y.read..y.read + n];
    assert !Clears(Scan(w).tokens) by { DecodedIsPrefix(x, w); }
    var z := AfterReceive(y, x.wire, n);
    DecodesMore(y, z, w, data);
    ReceiverExtends(z, x.wire, y.read);
  }

  lemma PostsDecoded(y: End, z: End, out: seq<Packet>)
    requires forall i :: 0 <= i < |out| ==> out[i].ptype != HEARTBEAT
    requires z.peer.conn == PostDelivers(y.peer.conn, out) && z.delivered == y.delivered
    ensures z.delivered + Delivers(z.peer.conn.strand) == y.delivered + Delivers(y.peer.conn.strand) + out
  {
  }

  lemma ReceiverStep(y: End, x: End, a: Action)
    requires Receiver(y, x.wire) && Sender(x) && Act(y, x.wire, a).Some?
    ensures Receiver(Act(y, x.wire, a).value, x.wire)
  {
    match a {
      case SendMessage(body, ptype) =>
        var m := Packet(y.peer.uid, ptype, body);
        if m.Encodable() { PostWritesEnqueues(y.peer.conn, Wires(FramesOf(m))); }
      case SendHeartBeat => WritesSnoc(y.peer.conn.strand, Write(CreateHeartbeatFrame()));
      case RunPosted => ReceiverRuns(y, x.wire);
      case Receive(n) => ReceiverReceives(y, x, n);
      case _ =>
    }
  }

  lemma ReceiverSeesMore(y: End, w: seq<byte>, more: seq<byte>)
    requires Receiver(y, w) && w <= more
    ensures Receiver(y, more)
  {
    assert more[..y.read] == w[..y.read];
  }

  // ---- the system ----

  ghost predicate Inv(s: System)
  {
    && Sender(s.left) && Sender(s.right)
    && Receiver(s.right, s.left.wire) && Receiver(s.left, s.right.wire)
  }

  lemma StepKeepsInv(s: System, e: Event)
    requires Inv(s) && Step(s, e).Some?
    ensures Inv(Step(s, e).value)
  {
    var t := Step(s, e).value;
    if e.onLeft {
      SenderStep(s.left, s.right.wire, e.action);
      ReceiverStep(s.left, s.right, e.action);
      ReceiverSeesMore(s.right, s.left.wire, t.left.wire);
    } else {
      SenderStep(s.right, s.left.wire, e.action);
      ReceiverStep(s.right, s.left, e.action);
      ReceiverSeesMore(s.left, s.right.wire, t.right.wire);
    }
  }

  lemma StartInv()
    ensures Inv(System(NewEnd(), NewEnd()))
  {
  }

  lemma {:induction false} ReachableInv(schedule: seq<Event>)
    requires After(schedule).Some?
    ensures Inv(After(schedule).value)
  {
    if schedule == [] {
      StartInv();
    } else {
      ReachableInv(schedule[..|schedule| - 1]);
      StepKeepsInv(After(schedule[..|schedule| - 1]).value, schedule[|schedule| - 1]);
    }
  }

  /** End-to-end safety: under every schedule of sends, heartbeats, partial, completed and
      failed writes, closes and reads of any size, what each side has delivered is a prefix
      of what the other side has sent: the same ids, types and bodies in the same order. */
  lemma DeliveredIsPrefixOfSent(schedule: seq<Event>)
    requires After(schedule).Some?
    ensures var s := After(schedule).value;
      s.right.delivered <= s.left.sent && s.left.delivered <= s.right.sent
  {
    ReachableInv(schedule);
    var s := After(schedule).value;
    DecodedIsPrefix(s.left, s.left.wire[..s.right.read]);
    DecodedIsPrefix(s.right, s.right.wire[..s.left.read]);
  }

  /** Nothing of x is still waiting to be written, read or delivered. */
  ghost predicate Flushed(x: End, y: End)
  {
    && x.peer.conn.writeQ == [] && Writes(x.peer.conn.strand) == []
    && y.read == |x.wire| && Delivers(y.peer.conn.strand) == []
  }

  /** Completeness: once nothing is waiting any more, everything sent has been delivered. */
  lemma FlushedDeliversAll(schedule: seq<Event>)
    requires After(schedule).Some?
    ensures var s := After(schedule).value;
      && (Flushed(s.left, s.right) ==> s.right.delivered == s.left.sent)
      && (Flushed(s.right, s.left) ==> s.left.delivered == s.right.sent)
  {
    ReachableInv(schedule);
    var s := After(schedule).value;
    FlushedOneWay(s.left, s.right);
    FlushedOneWay(s.right, s.left);
  }

  lemma FlushedOneWay(x: End, y: End)
    requires Sender(x) && Receiver(y, x.wire)
    ensures Flushed(x, y) ==> y.delivered == x.sent
  {
    if Flushed(x, y) {
      WireIsPrefix(x);
      assert x.wire[..y.read] == x.wire;
      DecodedIsPrefix(x, x.wire);
      assert y.delivered + [] == y.delivered;
    }
  }

  /** An end with at most one write in flight, one exactly when the queue is non-empty and
      no write has failed, whose completed buffers, queue and posted buffers together are
      the units it sent, in order. */
  ghost predicate OneWriter(x: End)
  {
    var c := x.peer.conn;
    && c.outstanding <= 1
    && (c.outstanding == 1 <==> c.writeQ != [] && !c.failed)
    && c.completed + c.writeQ + Writes(c.strand) == RawList(x.stream)
  }

  /** Both ends' write queues are in order in every reachable state. */
  lemma OneWriterAlways(schedule: seq<Event>)
    requires After(schedule).Some?
    ensures OneWriter(After(schedule).value.left) && OneWriter(After(schedule).value.right)
  {
    ReachableInv(schedule);
  }
}
