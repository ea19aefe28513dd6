// ClientSession: numbering and posting outgoing messages, decoding and posting incoming
// ones (src/ClientSession.cpp:20-30, 52-65).
module Session {
  import opened Bytes
  import opened Proto
  import opened Encoder
  import opened Scanner
  import opened Reassembly
  import opened Connection
  import opened Codec

  /** One end of a connection: the session's counter, its connection and its codec. */
  datatype Peer = Peer(uid: u64, conn: Conn, buffer: seq<byte>, cache: Cache)

  function PostWrites(c: Conn, data: seq<seq<byte>>): Conn
  {
    if data == [] then c else Post(PostWrites(c, data[..|data| - 1]), Write(data[|data| - 1]))
  }

  function PostDelivers(c: Conn, ps: seq<Packet>): Conn
  {
    if ps == [] then c else
      var p := ps[|ps| - 1];
      var d := PostDelivers(c, ps[..|ps| - 1]);
      if p.ptype == HEARTBEAT then d else Post(d, Deliver(p))
  }

  /** sendMessage: the counter moves, modulo 2^64, even when encode then throws. */
  function AfterSend(p: Peer, body: seq<byte>, ptype: byte): Peer
  {
    var m := Packet(p.uid, ptype, body);
    p.(uid := (p.uid + 1) % 0x1_0000_0000_0000_0000,
       conn := if m.Encodable() then PostWrites(p.conn, Wires(FramesOf(m))) else p.conn)
  }

  function AfterHeartBeat(p: Peer): Peer
  {
    p.(conn := Post(p.conn, Write(CreateHeartbeatFrame())))
  }

  /** onRawDataReceived: decode, then post every packet. */
  function AfterData(p: Peer, data: seq<byte>): Peer
  {
    var parse := Scan(p.buffer + data);
    var r := Run(p.cache, FramesIn(parse.tokens));
    p.(buffer := parse.left, cache := r.cache, conn := PostDelivers(p.conn, r.out))
  }

  /** The strand has the buffers as further tasks, in order. */
  predicate Posted(before: seq<Task>, after: seq<Task>, data: seq<seq<byte>>)
  {
    && |after| == |before| + |data| && before <= after
    && forall k :: |before| <= k < |after| ==> after[k] == Write(data[k - |before|])
  }

  /** The strand has the frames of a message as further tasks, in order. */
  predicate MessagePosted(before: seq<Task>, after: seq<Task>, id: u64, msg: seq<byte>, ptype: byte)
  {
    && |after| == |before| + (|msg| + 4095) / 4096 && before <= after
    && forall k :: |before| <= k < |after| ==>
         after[k].Write? && PartOnWire(after[k].data, id, msg, ptype, k - |before|)
  }

  class ClientSession {
    var sentMsgUid_: u64
    const connection_: TcpConnection
    const codec_: FrameProtocolCodec

    ghost function View(): Peer
      reads this, connection_, codec_
    {
      Peer(sentMsgUid_, connection_.View(), codec_.buffer_, codec_.fragCache_)
    }

    constructor (conn: TcpConnection)
      ensures connection_ == conn && fresh(codec_)
      ensures View() == Peer(0, conn.View(), [], map[])
    {
      connection_ := conn;
      codec_ := new FrameProtocolCodec();
      sentMsgUid_ := 0;
    }

    /** sendMessage: ok is false when encode throws. The counter moves in any case; the
        buffers posted have the frames' layout and carry the counter's old value as id. */
    method SendMessage(msg: seq<byte>, ptype: byte) returns (ok: bool)
      modifies this, connection_
      ensures View() == AfterSend(old(View()), msg, ptype)
      ensures ok <==> 0 < |msg| <= 10485760
      ensures sentMsgUid_ == (old(sentMsgUid_) + 1) % 0x1_0000_0000_0000_0000
      ensures !ok ==> connection_.strand_ == old(connection_.strand_)
      ensures ok ==> MessagePosted(old(connection_.strand_), connection_.strand_, old(sentMsgUid_), msg, ptype)
    {
      hide PartOnWire, FramesOf, Wires;
      var id := sentMsgUid_;
      sentMsgUid_ := (sentMsgUid_ + 1) % 0x1_0000_0000_0000_0000;
      var r := Encode(id, msg, ptype);
      if r.InvalidArgument? {
        return false;
      }
      PostFrames(r.frames);
      ok := true;
    }

    method PostFrames(frames: seq<seq<byte>>)
      modifies connection_
      ensures connection_.View() == PostWrites(old(connection_.View()), frames)
      ensures Posted(old(connection_.strand_), connection_.strand_, frames)
    {
      for i := 0 to |frames|
        invariant connection_.View() == PostWrites(old(connection_.View()), frames[..i])
        invariant Posted(old(connection_.strand_), connection_.strand_, frames[..i])
      {
        assert frames[..i + 1][..i] == frames[..i];
        connection_.SendBytes(frames[i]);
      }
      assert frames[..|frames|] == frames;
    }

    /** The loop of onRawDataReceived: heartbeats are skipped, the rest is posted. */
    method PostMessages(messages: seq<Packet>)
      modifies connection_
      ensures connection_.View() == PostDelivers(old(connection_.View()), messages)
    {
      for i := 0 to |messages|
        invariant connection_.View() == PostDelivers(old(connection_.View()), messages[..i])
      {
        assert messages[..i + 1][..i] == messages[..i];
        if messages[i].ptype == HEARTBEAT {
          continue;
        }
        connection_.PostToStrand(messages[i]);
      }
      assert messages[..|messages|] == messages;
    }

    method SendHeartBeat()
      modifies connection_
      ensures View() == AfterHeartBeat(old(View()))
      ensures connection_.strand_ ==
                old(connection_.strand_) + [Write([0x23, 0x31, 0x12, 0x48, 1, 1] + seq(20, i => 0))]
    {
      HeartbeatLayout();
      connection_.SendBytes(CreateHeartbeatFrame());
    }

    /** The data callback of startRead. */
    method OnRawDataReceived(data: seq<byte>)
      modifies codec_, connection_
      ensures View() == AfterData(old(View()), data)
    {
      var messages := codec_.Decode(data, []);
      ghost var r := Run(old(codec_.fragCache_), FramesIn(Scan(old(codec_.buffer_) + data).tokens));
      assert messages == r.out;
      PostMessages(messages);
    }

    /** The completion handler of startRead: data goes to the session, an error closes. */
    method OnRead(ok: bool, data: seq<byte>)
      modifies codec_, connection_
      ensures ok ==> View() == AfterData(old(View()), data)
      ensures !ok ==> View() == old(View()).(conn := Shut(old(View()).conn))
    {
      if ok {
        OnRawDataReceived(data);
      } else {
        connection_.Close();
      }
    }
  }
}
