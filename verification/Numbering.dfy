// What an end has sent and emitted, told from the schedule alone: message numbers, the units
// they become, and the end-to-end property in these terms (src/ClientSession.cpp:20-30).
module Numbering {
  import opened Bytes
  import opened Encoder
  import opened Scanner
  import opened Interleaving
  import opened Connection
  import opened Session
  import opened Pipeline

  const WRAP := 0x1_0000_0000_0000_0000

  /** A call of sendMessage, accepted or not. */
  datatype Call = Call(body: seq<byte>, ptype: byte)

  /** The sendMessage calls of one end, in order. */
  function Calls(schedule: seq<Event>, left: bool): seq<Call>
  {
    if schedule == [] then [] else
      var before, e := Calls(schedule[..|schedule| - 1], left), schedule[|schedule| - 1];
      if e.onLeft == left && e.action.SendMessage? then before + [Call(e.action.body, e.action.ptype)] else before
  }

  /** The messages that calls of sendMessage make: each is numbered by the calls before it,
      modulo 2^64, and a call with an empty or over-long body makes none. */
  function Numbered(calls: seq<Call>): seq<Packet>
  {
    if calls == [] then [] else
      var k := |calls| - 1;
      var before := Numbered(calls[..k]);
      if 0 < |calls[k].body| <= 10485760 then before + [Packet(k % WRAP, calls[k].ptype, calls[k].body)] else before
  }

  /** The units one end has posted, in order: the frames of each message and the heartbeats. */
  function Emitted(schedule: seq<Event>, left: bool): seq<Token>
  {
    if schedule == [] then [] else
      var t, e := schedule[..|schedule| - 1], schedule[|schedule| - 1];
      var before := Emitted(t, left);
      if e.onLeft != left then before
      else
        match e.action
        case SendMessage(body, ptype) =>
          var m := Packet(|Calls(t, left)| % WRAP, ptype, body);
          if m.Encodable() then before + DataUnits(FramesOf(m)) else before
        case SendHeartBeat => before + [Beat([0x23, 0x31, 0x12, 0x48, 1, 1] + seq(20, i => 0))]
        case _ => before
  }

  function Side(s: System, left: bool): End
  {
    if left then s.left else s.right
  }

  /** One end's counter, messages and units are those the schedule says. */
  ghost predicate AsScheduled(x: End, schedule: seq<Event>, left: bool)
  {
    && x.peer.uid == |Calls(schedule, left)| % WRAP
    && x.sent == Numbered(Calls(schedule, left))
    && x.stream == Emitted(schedule, left)
  }

  lemma NextNumber(n: nat)
    ensures (n % WRAP + 1) % WRAP == (n + 1) % WRAP
  {
  }

  lemma NumberedSnoc(calls: seq<Call>, c: Call)
    ensures Numbered(calls + [c]) ==
      if 0 < |c.body| <= 10485760 then Numbered(calls) + [Packet(|calls| % WRAP, c.ptype, c.body)] else Numbered(calls)
  {
    assert (calls + [c])[..|calls|] == calls;
  }

  lemma CallsSnoc(t: seq<Event>, e: Event, left: bool)
    ensures Calls(t + [e], left) ==
      if e.onLeft == left && e.action.SendMessage? then Calls(t, left) + [Call(e.action.body, e.action.ptype)]
      else Calls(t, left)
  {
    assert (t + [e])[..|t|] == t;
  }

  lemma EmittedSnoc(t: seq<Event>, e: Event, left: bool)
    ensures Emitted(t + [e], left) ==
      if e.onLeft != left then Emitted(t, left)
      else
        match e.action
        case SendMessage(body, ptype) =>
          var m := Packet(|Calls(t, left)| % WRAP, ptype, body);
          if m.Encodable() then Emitted(t, left) + DataUnits(FramesOf(m)) else Emitted(t, left)
        case SendHeartBeat => Emitted(t, left) + [Beat([0x23, 0x31, 0x12, 0x48, 1, 1] + seq(20, i => 0))]
        case _ => Emitted(t, left)
  {
    hide Calls, DataUnits, FramesOf;
    assert (t + [e])[..|t|] == t;
  }

  lemma MessageStep(x: End, incoming: seq<byte>, t: seq<Event>, e: Event)
    requires AsScheduled(x, t, e.onLeft) && e.action.SendMessage? && Act(x, incoming, e.action).Some?
    ensures AsScheduled(Act(x, incoming, e.action).value, t + [e], e.onLeft)
  {
    hide Calls, Emitted, Numbered, FramesOf, DataUnits, PostWrites;
    CallsSnoc(t, e, e.onLeft);
    EmittedSnoc(t, e, e.onLeft);
    NextNumber(|Calls(t, e.onLeft)|);
    NumberedSnoc(Calls(t, e.onLeft), Call(e.action.body, e.action.ptype));
  }

  lemma BeatStep(x: End, incoming: seq<byte>, t: seq<Event>, e: Event)
    requires AsScheduled(x, t, e.onLeft) && e.action.SendHeartBeat?
    ensures AsScheduled(Act(x, incoming, e.action).value, t + [e], e.onLeft)
  {
    hide Calls, Emitted, Numbered, CreateHeartbeatFrame;
    CallsSnoc(t, e, e.onLeft);
    EmittedSnoc(t, e, e.onLeft);
    HeartbeatLayout();
  }

  lemma OtherAction(x: End, incoming: seq<byte>, a: Action)
    requires !a.SendMessage? && !a.SendHeartBeat? && Act(x, incoming, a).Some?
    ensures var y := Act(x, incoming, a).value; y.peer.uid == x.peer.uid && y.sent == x.sent && y.stream == x.stream
  {
    hide RunTask, WriteCompleted, PostDelivers, Shut;
  }

  /** A step of the end itself. */
  lemma OwnStep(x: End, incoming: seq<byte>, t: seq<Event>, e: Event)
    requires AsScheduled(x, t, e.onLeft) && Act(x, incoming, e.action).Some?
    ensures AsScheduled(Act(x, incoming, e.action).value, t + [e], e.onLeft)
  {
    if e.action.SendMessage? {
      MessageStep(x, incoming, t, e);
    } else if e.action.SendHeartBeat? {
      BeatStep(x, incoming, t, e);
    } else {
      hide Act, Calls, Emitted, Numbered;
      CallsSnoc(t, e, e.onLeft);
      EmittedSnoc(t, e, e.onLeft);
      OtherAction(x, incoming, e.action);
    }
  }

  /** A step of the other end. */
  lemma OtherStep(x: End, t: seq<Event>, e: Event, left: bool)
    requires AsScheduled(x, t, left) && e.onLeft != left
    ensures AsScheduled(x, t + [e], left)
  {
    CallsSnoc(t, e, left);
    assert (t + [e])[..|t|] == t;
  }

  /** Numbering under every schedule: an end's counter is the number of its sendMessage calls
      modulo 2^64, and what it has sent and emitted is what these calls say, in order. */
  lemma {:induction false} HistoryOfEnds(schedule: seq<Event>)
    requires After(schedule).Some?
    ensures AsScheduled(After(schedule).value.left, schedule, true)
    ensures AsScheduled(After(schedule).value.right, schedule, false)
  {
    if schedule != [] {
      var t, e := schedule[..|schedule| - 1], schedule[|schedule| - 1];
      HistoryOfEnds(t);
      var s := After(t).value;
      assert schedule == t + [e];
      hide AsScheduled, Act;
      if e.onLeft {
        OwnStep(s.left, s.right.wire, t, e);
        OtherStep(s.right, t, e, false);
      } else {
        OwnStep(s.right, s.left.wire, t, e);
        OtherStep(s.left, t, e, true);
      }
    }
  }

  /** A message's number is that of its call: with no more than 2^64 calls numbers are
      pairwise distinct and rising. */
  lemma {:induction false} NumbersRise(calls: seq<Call>)
    requires |calls| <= WRAP
    ensures forall k :: 0 <= k < |Numbered(calls)| ==> var p := Numbered(calls)[k];
              p.id < |calls| && calls[p.id] == Call(p.body, p.ptype)
    ensures forall j, k :: 0 <= j < k < |Numbered(calls)| ==> Numbered(calls)[j].id < Numbered(calls)[k].id
  {
    if calls != [] {
      NumbersRise(calls[..|calls| - 1]);
    }
  }

  /** End-to-end safety in terms of the schedule: what an end has delivered is a prefix of
      the messages made by the other end's calls. */
  lemma DeliveredIsPrefixOfCalls(schedule: seq<Event>)
    requires After(schedule).Some?
    ensures var s := After(schedule).value;
      && s.right.delivered <= Numbered(Calls(schedule, true))
      && s.left.delivered <= Numbered(Calls(schedule, false))
  {
    hide After, Calls, Numbered, Emitted;
    HistoryOfEnds(schedule);
    DeliveredIsPrefixOfSent(schedule);
  }

  /** What an end puts on the network is a prefix of the bytes its calls say, and all of them
      once nothing waits to be written. */
  lemma WireIsScheduled(schedule: seq<Event>, left: bool)
    requires After(schedule).Some?
    ensures var x := Side(After(schedule).value, left);
      && x.wire <= RawBytes(Emitted(schedule, left))
      && (x.peer.conn.writeQ == [] && Writes(x.peer.conn.strand) == [] ==> x.wire == RawBytes(Emitted(schedule, left)))
  {
    ReachableInv(schedule);
    HistoryOfEnds(schedule);
    hide After, Calls, Numbered, Emitted, Sender;
    WireIsPrefix(Side(After(schedule).value, left));
  }
}
