// That everything sent can arrive: from every reachable state, and whatever sizes the reads
// take, there is a way to go on after which everything sent has been delivered
// (include/TcpConnection.hpp:35-96, src/ClientSession.cpp:20-65).
module Liveness {
  import opened Bytes
  import opened Encoder
  import opened Scanner
  import opened Connection
  import opened Session
  import opened Pipeline
  import opened Numbering

  /** The state that events lead to from s, or None if one of them was not possible. */
  function Extend(s: System, es: seq<Event>): Option<System>
  {
    if es == [] then Some(s) else
      var t := Extend(s, es[..|es| - 1]);
      if t.None? then None else Step(t.value, es[|es| - 1])
  }

  /** The sizes of the reads of one end, in order. */
  function ReadSizes(es: seq<Event>, left: bool): seq<nat>
  {
    if es == [] then [] else
      var before, e := ReadSizes(es[..|es| - 1], left), es[|es| - 1];
      if e.onLeft == left && e.action.Receive? then before + [e.action.n] else before
  }

  function Total(sizes: seq<nat>): nat
  {
    if sizes == [] then 0 else sizes[0] + Total(sizes[1..])
  }

  /** Read sizes that the 4096-byte read buffer allows. */
  predicate Readable(sizes: seq<nat>)
  {
    forall i :: 0 <= i < |sizes| ==> 1 <= sizes[i] <= 4096
  }

  lemma {:induction false} AfterExtend(schedule: seq<Event>, es: seq<Event>)
    requires After(schedule).Some?
    ensures After(schedule + es) == Extend(After(schedule).value, es)
  {
    if es == [] {
      assert schedule + es == schedule;
    } else {
      var t, e := es[..|es| - 1], es[|es| - 1];
      AfterExtend(schedule, t);
      hide Step;
      assert (schedule + es)[..|schedule + es| - 1] == schedule + t;
    }
  }

  lemma {:induction false} ExtendConcat(s: System, a: seq<Event>, b: seq<Event>)
    requires Extend(s, a).Some?
    ensures Extend(s, a + b) == Extend(Extend(s, a).value, b)
  {
    if b == [] {
      assert a + b == a;
    } else {
      var t, e := b[..|b| - 1], b[|b| - 1];
      ExtendConcat(s, a, t);
      hide Step;
      assert (a + b)[..|a + b| - 1] == a + t;
    }
  }

  lemma {:induction false} ReadSizesConcat(a: seq<Event>, b: seq<Event>, left: bool)
    ensures ReadSizes(a + b, left) == ReadSizes(a, left) + ReadSizes(b, left)
  {
    if b == [] {
      assert a + b == a;
    } else {
      ReadSizesConcat(a, b[..|b| - 1], left);
      assert (a + b)[..|a + b| - 1] == a + b[..|b| - 1];
    }
  }

  // ---- ways to go on ----

  /** An event other than a call, a failure or a close. */
  predicate Plain(e: Event)
  {
    e.action.RunPosted? || e.action.Transmit? || e.action.WriteDone? || e.action.Receive?
  }

  /** Plain events lead from s to t, and the reads of the receiver, whose side is not left,
      have the given sizes. */
  ghost predicate Leads(s: System, es: seq<Event>, t: System, left: bool, sizes: seq<nat>)
  {
    && Extend(s, es) == Some(t) && Inv(t)
    && ReadSizes(es, !left) == sizes && (forall e :: e in es ==> Plain(e))
    && Side(t, left).sent == Side(s, left).sent && Side(t, left).stream == Side(s, left).stream
    && Side(t, left).peer.conn.open == Side(s, left).peer.conn.open
    && Side(t, !left).peer.conn.open == Side(s, !left).peer.conn.open
  }

  lemma Stay(s: System, left: bool)
    requires Inv(s)
    ensures Leads(s, [], s, left, [])
  {
  }

  lemma LeadsOn(s: System, a: seq<Event>, t: System, b: seq<Event>, u: System, left: bool, x: seq<nat>, y: seq<nat>)
    requires Leads(s, a, t, left, x) && Leads(t, b, u, left, y)
    ensures Leads(s, a + b, u, left, x + y)
  {
    hide Inv, Extend, ReadSizes;
    ExtendConcat(s, a, b);
    ReadSizesConcat(a, b, !left);
  }

  /** One event of one end, which leaves the other end alone. */
  lemma OneStep(s: System, onLeft: bool, a: Action) returns (t: System)
    requires Inv(s) && Act(Side(s, onLeft), Side(s, !onLeft).wire, a).Some?
    ensures Extend(s, [Event(onLeft, a)]) == Some(t) && Inv(t)
    ensures Side(t, onLeft) == Act(Side(s, onLeft), Side(s, !onLeft).wire, a).value
    ensures Side(t, !onLeft) == Side(s, !onLeft)
    ensures forall left: bool ::
              ReadSizes([Event(onLeft, a)], left) == if onLeft == left && a.Receive? then [a.n] else []
  {
    var e := Event(onLeft, a);
    hide Act, Inv;
    assert [e][..0] == [];
    t := Step(s, e).value;
    StepKeepsInv(s, e);
  }

  // ---- the strand ----

  lemma RunPossible(x: End, incoming: seq<byte>)
    requires x.peer.conn.strand != []
    ensures Act(x, incoming, RunPosted).Some?
    ensures var y := Act(x, incoming, RunPosted).value;
      && y.peer.conn.strand == x.peer.conn.strand[1..] && y.peer.conn.open == x.peer.conn.open
      && y.sent == x.sent && y.stream == x.stream && y.wire == x.wire && y.read == x.read
  {
  }

  /** An end can run everything on its strand. */
  lemma {:induction false} RunAllPosted(s: System, onLeft: bool, left: bool) returns (es: seq<Event>, t: System)
    requires Inv(s)
    ensures Leads(s, es, t, left, [])
    ensures Side(t, !onLeft) == Side(s, !onLeft)
    ensures Side(t, onLeft).peer.conn.strand == []
    ensures Side(t, onLeft).wire == Side(s, onLeft).wire && Side(t, onLeft).read == Side(s, onLeft).read
    decreases |Side(s, onLeft).peer.conn.strand|
  {
    hide Inv, Act, Extend, ReadSizes;
    if Side(s, onLeft).peer.conn.strand == [] {
      es, t := [], s;
      Stay(s, left);
    } else {
      RunPossible(Side(s, onLeft), Side(s, !onLeft).wire);
      var u := OneStep(s, onLeft, RunPosted);
      var rest;
      rest, t := RunAllPosted(u, onLeft, left);
      es := [Event(onLeft, RunPosted)] + rest;
      LeadsOn(s, [Event(onLeft, RunPosted)], u, rest, t, left, [], []);
    }
  }

  // ---- the write queue ----

  lemma TransmitPossible(x: End, incoming: seq<byte>)
    requires Sender(x) && x.peer.conn.open && x.peer.conn.writeQ != []
    ensures x.progress <= |x.peer.conn.writeQ[0]|
    ensures Act(x, incoming, Transmit(|x.peer.conn.writeQ[0]| - x.progress)).Some?
    ensures var y := Act(x, incoming, Transmit(|x.peer.conn.writeQ[0]| - x.progress)).value;
      && y.peer == x.peer && y.progress == |y.peer.conn.writeQ[0]|
      && y.sent == x.sent && y.stream == x.stream
  {
  }

  lemma DonePossible(x: End, incoming: seq<byte>)
    requires Sender(x) && x.peer.conn.open && x.peer.conn.writeQ != [] && x.progress == |x.peer.conn.writeQ[0]|
    ensures Act(x, incoming, WriteDone).Some?
    ensures var y := Act(x, incoming, WriteDone).value;
      && y.peer.conn.writeQ == x.peer.conn.writeQ[1..] && y.peer.conn.strand == x.peer.conn.strand
      && y.peer.conn.open && y.sent == x.sent && y.stream == x.stream
  {
  }

  lemma InvSender(s: System, left: bool)
    requires Inv(s)
    ensures Sender(Side(s, left))
  {
    hide Sender, Receiver;
  }

  /** An open end can write out the front of its queue. */
  lemma WriteFront(s: System, left: bool) returns (es: seq<Event>, t: System)
    requires Inv(s) && Side(s, left).peer.conn.open && Side(s, left).peer.conn.writeQ != []
    ensures Leads(s, es, t, left, [])
    ensures Side(t, !left) == Side(s, !left)
    ensures Side(t, left).peer.conn.writeQ == Side(s, left).peer.conn.writeQ[1..]
    ensures Side(t, left).peer.conn.strand == Side(s, left).peer.conn.strand
  {
    hide Act, Extend, ReadSizes, Sender, Receiver, Inv;
    var x := Side(s, left);
    InvSender(s, left);
    TransmitPossible(x, Side(s, !left).wire);
    var n := |x.peer.conn.writeQ[0]| - x.progress;
    var u := OneStep(s, left, Transmit(n));
    InvSender(u, left);
    DonePossible(Side(u, left), Side(u, !left).wire);
    t := OneStep(u, left, WriteDone);
    es := [Event(left, Transmit(n))] + [Event(left, WriteDone)];
    LeadsOn(s, [Event(left, Transmit(n))], u, [Event(left, WriteDone)], t, left, [], []);
  }

  /** An open end can write out its whole queue. */
  lemma {:induction false} WriteAll(s: System, left: bool) returns (es: seq<Event>, t: System)
    requires Inv(s) && Side(s, left).peer.conn.open
    ensures Leads(s, es, t, left, [])
    ensures Side(t, !left) == Side(s, !left)
    ensures Side(t, left).peer.conn.writeQ == []
    ensures Side(t, left).peer.conn.strand == Side(s, left).peer.conn.strand
    decreases |Side(s, left).peer.conn.writeQ|
  {
    hide Inv, Extend, ReadSizes;
    if Side(s, left).peer.conn.writeQ == [] {
      es, t := [], s;
      Stay(s, left);
    } else {
      var first, u := WriteFront(s, left);
      var rest;
      rest, t := WriteAll(u, left);
      es := first + rest;
      LeadsOn(s, first, u, rest, t, left, [], []);
    }
  }

  // ---- the reads ----

  lemma ReadPossible(y: End, incoming: seq<byte>, n: nat)
    requires y.peer.conn.open && 1 <= n <= 4096 && y.read + n <= |incoming|
    ensures Act(y, incoming, Receive(n)).Some?
    ensures var z := Act(y, incoming, Receive(n)).value;
      && z.read == y.read + n && z.peer.conn.open && z.wire == y.wire
  {
    hide AfterData, Enqueued;
    DataPostsNoWrite(y.peer, incoming[y.read..y.read + n]);
  }

  /** An open end can read what the network has for it in reads of any sizes. */
  lemma {:induction false} ReadAll(s: System, left: bool, sizes: seq<nat>) returns (es: seq<Event>, t: System)
    requires Inv(s) && Side(s, !left).peer.conn.open && Readable(sizes)
    requires Side(s, !left).read + Total(sizes) == |Side(s, left).wire|
    ensures Leads(s, es, t, left, sizes)
    ensures Side(t, left) == Side(s, left)
    ensures Side(t, !left).read == |Side(t, left).wire|
    decreases |sizes|
  {
    hide Inv, Act, Extend, ReadSizes;
    if sizes == [] {
      es, t := [], s;
      Stay(s, left);
    } else {
      ReadPossible(Side(s, !left), Side(s, left).wire, sizes[0]);
      var u := OneStep(s, !left, Receive(sizes[0]));
      var rest;
      rest, t := ReadAll(u, left, sizes[1..]);
      es := [Event(!left, Receive(sizes[0]))] + rest;
      LeadsOn(s, [Event(!left, Receive(sizes[0]))], u, rest, t, left, [sizes[0]], sizes[1..]);
      assert sizes == [sizes[0]] + sizes[1..];
    }
  }

  // ---- everything arrives ----

  /** The sender's half: everything posted reaches the network. */
  lemma FlushSender(s: System, left: bool) returns (es: seq<Event>, t: System)
    requires Inv(s) && Side(s, left).peer.conn.open
    ensures Leads(s, es, t, left, []) && Side(t, !left) == Side(s, !left)
    ensures Side(t, left).peer.conn.writeQ == [] && Side(t, left).peer.conn.strand == []
    ensures Side(t, left).wire == RawBytes(Side(s, left).stream)
  {
    hide Extend, ReadSizes, Sender, Receiver;
    var a, u := RunAllPosted(s, left, left);
    var b;
    b, t := WriteAll(u, left);
    es := a + b;
    LeadsOn(s, a, u, b, t, left, [], []);
    WireIsPrefix(Side(t, left));
  }

  /** More plain events end a schedule with nothing of the sender's waiting any more and all
      messages of its calls handed to the receiver, in reads of the given sizes. */
  ghost predicate Finishes(schedule: seq<Event>, more: seq<Event>, left: bool, sizes: seq<nat>)
  {
    && After(schedule + more).Some?
    && (forall e :: e in more ==> Plain(e)) && ReadSizes(more, !left) == sizes
    && var t := After(schedule + more).value;
      && Flushed(Side(t, left), Side(t, !left))
      && Side(t, !left).delivered == Numbered(Calls(schedule, left))
  }

  lemma FlushAll(s: System, left: bool, sizes: seq<nat>) returns (es: seq<Event>, t: System)
    requires Inv(s) && Side(s, left).peer.conn.open && Side(s, !left).peer.conn.open && Readable(sizes)
    requires Side(s, !left).read + Total(sizes) == |RawBytes(Side(s, left).stream)|
    ensures Leads(s, es, t, left, sizes)
    ensures Flushed(Side(t, left), Side(t, !left)) && Side(t, !left).delivered == Side(s, left).sent
  {
    hide Extend, ReadSizes, Sender, Receiver, RawBytes, Total, Readable;
    var a, u := FlushSender(s, left);
    var b, v := ReadAll(u, left, sizes);
    LeadsOn(s, a, u, b, v, left, [], sizes);
    var c;
    c, t := RunAllPosted(v, !left, left);
    LeadsOn(s, a + b, v, c, t, left, [] + sizes, []);
    es := a + b + c;
    assert [] + sizes + [] == sizes;
    FlushedOneWay(Side(t, left), Side(t, !left));
  }

  /** In every reachable state with both sockets open, and for every cutting of the bytes yet
      to be read into reads of 1 to 4096 bytes, there is a way to go on that makes exactly
      these reads and ends with everything sent delivered. */
  lemma EveryCuttingDelivers(schedule: seq<Event>, left: bool, sizes: seq<nat>)
    requires After(schedule).Some? && Readable(sizes)
    requires var s := After(schedule).value;
      && Side(s, left).peer.conn.open && Side(s, !left).peer.conn.open
      && Side(s, !left).read + Total(sizes) == |RawBytes(Emitted(schedule, left))|
    ensures exists more :: Finishes(schedule, more, left, sizes)
  {
    hide After, Extend, ReadSizes, Inv, Flushed, Calls, Emitted, Numbered, Total, Readable;
    ReachableInv(schedule);
    HistoryOfEnds(schedule);
    var more, t := FlushAll(After(schedule).value, left, sizes);
    AfterExtend(schedule, more);
    assert Finishes(schedule, more, left, sizes);
  }

  lemma {:induction false} TotalOfOnes(n: nat)
    ensures Total(seq(n, i => 1)) == n
  {
    if n > 0 {
      TotalOfOnes(n - 1);
      assert seq(n, i => 1)[1..] == seq(n - 1, i => 1);
    }
  }

  /** No reachable state is a dead end: while both sockets are open there is a way to go on
      that ends with everything sent delivered. */
  lemma EveryStateFinishes(schedule: seq<Event>, left: bool)
    requires After(schedule).Some?
    requires var s := After(schedule).value; Side(s, left).peer.conn.open && Side(s, !left).peer.conn.open
    ensures exists more, sizes :: Finishes(schedule, more, left, sizes)
  {
    ReadsBounded(schedule, left);
    var rest: nat := |RawBytes(Emitted(schedule, left))| - Side(After(schedule).value, !left).read;
    assert Readable(seq(rest, i => 1));
    hide *;
    TotalOfOnes(rest);
    EveryCuttingDelivers(schedule, left, seq(rest, i => 1));
  }

  lemma ReadsBounded(schedule: seq<Event>, left: bool)
    requires After(schedule).Some?
    ensures Side(After(schedule).value, !left).read <= |RawBytes(Emitted(schedule, left))|
  {
    hide After, Sender, DecodedFrom, RawBytes, Emitted;
    ReachableInv(schedule);
    WireIsScheduled(schedule, left);
  }

  /** What an application does: messages of any type but HEARTBEAT, and heartbeats. */
  predicate Outgoing(a: Action)
  {
    a.SendHeartBeat? || (a.SendMessage? && a.ptype != 1)
  }

  function Doing(acts: seq<Action>, left: bool): seq<Event>
  {
    seq(|acts|, i requires 0 <= i < |acts| => Event(left, acts[i]))
  }

  lemma SendPossible(x: End, incoming: seq<byte>, a: Action)
    requires Outgoing(a)
    ensures Act(x, incoming, a).Some?
    ensures Act(x, incoming, a).value.peer.conn.open == x.peer.conn.open
  {
    if a.SendMessage? {
      var m := Packet(x.peer.uid, a.ptype, a.body);
      if m.Encodable() { PostWritesEnqueues(x.peer.conn, Wires(FramesOf(m))); }
    }
  }

  /** Sending is always possible. */
  lemma {:induction false} SendsPossible(acts: seq<Action>, left: bool)
    requires forall i :: 0 <= i < |acts| ==> Outgoing(acts[i])
    ensures After(Doing(acts, left)).Some?
    ensures var s := After(Doing(acts, left)).value;
      Side(s, left).peer.conn.open && Side(s, !left) == NewEnd()
  {
    var es := Doing(acts, left);
    if acts != [] {
      var t := acts[..|acts| - 1];
      SendsPossible(t, left);
      assert es[..|es| - 1] == Doing(t, left);
      var s := After(Doing(t, left)).value;
      SendPossible(Side(s, left), Side(s, !left).wire, acts[|acts| - 1]);
      hide Act;
    }
  }

  /** End-to-end liveness: whatever messages and heartbeats an end sends, and however its
      bytes are cut into reads, there is a schedule in which the other end makes these reads
      and has delivered exactly the messages, numbered by their calls, in order. */
  lemma EverySequenceArrives(acts: seq<Action>, left: bool, sizes: seq<nat>)
    requires (forall i :: 0 <= i < |acts| ==> Outgoing(acts[i])) && Readable(sizes)
    requires Total(sizes) == |RawBytes(Emitted(Doing(acts, left), left))|
    ensures exists more :: Finishes(Doing(acts, left), more, left, sizes)
  {
    SendsPossible(acts, left);
    assert NewEnd().read == 0 && NewEnd().peer.conn.open;
    hide After, Finishes, Emitted, Doing, Total, Readable, Outgoing, NewEnd;
    EveryCuttingDelivers(Doing(acts, left), left, sizes);
  }

  /** The schedules include every failure and partial write: in every reachable state an end
      can close, and a write in flight can fail, or put any part of what is left of it on the
      network while the socket is open. */
  lemma FailuresPossible(schedule: seq<Event>, left: bool)
    requires After(schedule).Some?
    ensures After(schedule + [Event(left, CloseSocket)]).Some?
    ensures Side(After(schedule).value, left).peer.conn.outstanding > 0 ==>
              After(schedule + [Event(left, WriteFails)]).Some?
    ensures var x := Side(After(schedule).value, left);
      x.peer.conn.outstanding > 0 && x.peer.conn.open ==>
        forall n: nat :: x.progress + n <= |x.peer.conn.writeQ[0]| ==>
          var next := After(schedule + [Event(left, Transmit(n))]);
          next.Some? && |Side(next.value, left).wire| == |x.wire| + n
  {
    hide After, Sender, Receiver, Act;
    ReachableInv(schedule);
    var x, incoming := Side(After(schedule).value, left), Side(After(schedule).value, !left).wire;
    FailPossible(x, incoming);
    AfterSnoc(schedule, Event(left, CloseSocket));
    AfterSnoc(schedule, Event(left, WriteFails));
    if x.peer.conn.outstanding > 0 && x.peer.conn.open {
      forall n: nat | x.progress + n <= |x.peer.conn.writeQ[0]|
        ensures var next := After(schedule + [Event(left, Transmit(n))]);
          next.Some? && |Side(next.value, left).wire| == |x.wire| + n
      {
        PartPossible(x, incoming, n);
        AfterSnoc(schedule, Event(left, Transmit(n)));
      }
    }
  }

  lemma PartPossible(x: End, incoming: seq<byte>, n: nat)
    requires x.peer.conn.outstanding > 0 && x.peer.conn.open && x.peer.conn.writeQ != []
    requires x.progress + n <= |x.peer.conn.writeQ[0]|
    ensures Act(x, incoming, Transmit(n)).Some?
    ensures |Act(x, incoming, Transmit(n)).value.wire| == |x.wire| + n
  {
  }

  lemma FailPossible(x: End, incoming: seq<byte>)
    requires Sender(x)
    ensures x.peer.conn.outstanding > 0 ==> x.peer.conn.writeQ != []
    ensures Act(x, incoming, CloseSocket).Some?
    ensures x.peer.conn.outstanding > 0 ==> Act(x, incoming, WriteFails).Some?
  {
    hide FramesIn, AllFrames, RawList, Concat, Enqueued;
  }

  lemma AfterSnoc(schedule: seq<Event>, e: Event)
    requires After(schedule).Some?
    ensures After(schedule + [e]) == Step(After(schedule).value, e)
  {
    hide Step;
    assert (schedule + [e])[..|schedule|] == schedule;
  }
}
