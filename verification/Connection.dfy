// TcpConnection's strand and write queue (include/TcpConnection.hpp:35-96).
module Connection {
  import opened Bytes
  import opened Encoder

  /** What is posted to a connection's strand: a sendBytes lambda, or the delivery of a packet. */
  datatype Task = Write(data: seq<byte>) | Deliver(packet: Packet)

  /** A connection between two handlers. outstanding counts the async_write operations in
      flight; failed and completed are history: whether a write failed, and the buffers
      whose writes succeeded. */
  datatype Conn = Conn(strand: seq<Task>, writeQ: seq<seq<byte>>, outstanding: nat, open: bool,
                       failed: bool, completed: seq<seq<byte>>)

  function NewConn(): Conn
  {
    Conn([], [], 0, true, false, [])
  }

  function Post(c: Conn, t: Task): Conn
  {
    c.(strand := c.strand + [t])
  }

  /** The head of the strand runs: a write joins the queue and starts writing if the queue was empty. */
  function RunTask(c: Conn): Conn
    requires c.strand != []
  {
    var d := c.(strand := c.strand[1..]);
    match c.strand[0]
    case Write(data) =>
      d.(writeQ := c.writeQ + [data], outstanding := if c.writeQ == [] then c.outstanding + 1 else c.outstanding)
    case Deliver(_) => d
  }

  function Shut(c: Conn): Conn
  {
    c.(open := false)
  }

  /** An async_write completes. */
  function WriteCompleted(c: Conn, ok: bool): Conn
    requires c.outstanding > 0 && c.writeQ != []
  {
    if ok then
      c.(writeQ := c.writeQ[1..], completed := c.completed + [c.writeQ[0]],
         outstanding := if |c.writeQ| > 1 then c.outstanding else c.outstanding - 1)
    else
      Shut(c).(outstanding := c.outstanding - 1, failed := true)
  }

  function Writes(ts: seq<Task>): seq<seq<byte>>
  {
    if ts == [] then [] else
      var t := ts[|ts| - 1];
      Writes(ts[..|ts| - 1]) + (if t.Write? then [t.data] else [])
  }

  function Delivers(ts: seq<Task>): seq<Packet>
  {
    if ts == [] then [] else
      var t := ts[|ts| - 1];
      Delivers(ts[..|ts| - 1]) + (if t.Deliver? then [t.packet] else [])
  }

  /** Everything ever given to sendBytes, wherever it is by now. */
  function Enqueued(c: Conn): seq<seq<byte>>
  {
    c.completed + c.writeQ + Writes(c.strand)
  }

  /** One writer: a write is in flight exactly when the queue is non-empty and none has failed. */
  predicate SingleWriter(c: Conn)
  {
    && c.outstanding == (if c.writeQ != [] && !c.failed then 1 else 0)
    && (c.failed ==> !c.open && c.writeQ != [])
  }

  class TcpConnection {
    var strand_: seq<Task>
    var writeQ_: seq<seq<byte>>
    var outstanding: nat
    var open: bool
    ghost var failed: bool
    ghost var completed: seq<seq<byte>>

    ghost function View(): Conn
      reads this
    {
      Conn(strand_, writeQ_, outstanding, open, failed, completed)
    }

    constructor ()
      ensures View() == NewConn()
    {
      strand_, writeQ_, outstanding, open := [], [], 0, true;
      failed, completed := false, [];
    }

    /** sendBytes: the buffer is only posted; nothing is queued before the strand runs. */
    method SendBytes(data: seq<byte>)
      modifies this
      ensures View() == Post(old(View()), Write(data))
    {
      strand_ := strand_ + [Write(data)];
    }

    method PostToStrand(packet: Packet)
      modifies this
      ensures View() == Post(old(View()), Deliver(packet))
    {
      strand_ := strand_ + [Deliver(packet)];
    }

    /** The strand runs its next task; a packet to deliver is passed to the message handler. */
    method RunPosted() returns (handed: Option<Packet>)
      requires strand_ != []
      modifies this
      ensures View() == RunTask(old(View()))
      ensures handed == match old(strand_)[0] case Write(_) => None case Deliver(p) => Some(p)
    {
      var task := strand_[0];
      strand_ := strand_[1..];
      handed := None;
      match task {
        case Deliver(p) => handed := Some(p);
        case Write(data) =>
          var writing := writeQ_ != [];
          writeQ_ := writeQ_ + [data];
          if !writing {
            DoWrite();
          }
      }
    }

    /** doWrite: starts one async_write on the front of the queue. */
    method DoWrite()
      modifies this`outstanding
      ensures outstanding == old(outstanding) + if writeQ_ == [] then 0 else 1
    {
      if writeQ_ == [] {
        return;
      }
      outstanding := outstanding + 1;
    }

    /** The completion handler of async_write. */
    method OnWrite(ok: bool)
      requires outstanding > 0 && writeQ_ != []
      modifies this
      ensures View() == WriteCompleted(old(View()), ok)
    {
      outstanding := outstanding - 1;
      if ok {
        completed := completed + [writeQ_[0]];
        writeQ_ := writeQ_[1..];
        if writeQ_ != [] {
          DoWrite();
        }
      } else {
        failed := true;
        Close();
      }
    }

    /** close: idempotent. */
    method Close()
      modifies this`open
      ensures !open
    {
      if open {
        open := false;
      }
    }
  }

  // ---- the queue invariant, event by event ----

  lemma WritesSnoc(ts: seq<Task>, t: Task)
    ensures Writes(ts + [t]) == Writes(ts) + (if t.Write? then [t.data] else [])
    ensures Delivers(ts + [t]) == Delivers(ts) + (if t.Deliver? then [t.packet] else [])
  {
  }

  lemma {:induction false} WritesConcat(a: seq<Task>, b: seq<Task>)
    ensures Writes(a + b) == Writes(a) + Writes(b)
    ensures Delivers(a + b) == Delivers(a) + Delivers(b)
  {
    if b == [] {
      assert a + b == a;
    } else {
      hide Writes, Delivers;
      var t, last := b[..|b| - 1], b[|b| - 1];
      assert b == t + [last] && a + b == a + t + [last];
      WritesConcat(a, t);
      WritesSnoc(a + t, last);
      WritesSnoc(t, last);
    }
  }

  lemma WritesHead(ts: seq<Task>)
    requires ts != []
    ensures Writes(ts) == (if ts[0].Write? then [ts[0].data] else []) + Writes(ts[1..])
    ensures Delivers(ts) == (if ts[0].Deliver? then [ts[0].packet] else []) + Delivers(ts[1..])
  {
    assert [ts[0]] == [] + [ts[0]] && ts == [ts[0]] + ts[1..];
    WritesSnoc([], ts[0]);
    WritesConcat([ts[0]], ts[1..]);
  }

  /** Posting adds at the end of everything enqueued. */
  lemma PostEnqueues(c: Conn, t: Task)
    ensures Enqueued(Post(c, t)) == Enqueued(c) + (if t.Write? then [t.data] else [])
    ensures SingleWriter(c) ==> SingleWriter(Post(c, t))
  {
  }

  /** Running a task moves a buffer from the strand to the queue, in order. */
  lemma RunTaskKeeps(c: Conn)
    requires SingleWriter(c) && c.strand != []
    ensures SingleWriter(RunTask(c)) && Enqueued(RunTask(c)) == Enqueued(c)
  {
    WritesHead(c.strand);
    var rest := Writes(c.strand[1..]);
    if c.strand[0].Write? {
      var data := c.strand[0].data;
      assert c.completed + (c.writeQ + [data]) + rest == c.completed + c.writeQ + ([data] + rest);
    } else {
      assert [] + rest == rest;
    }
  }

  /** A completed write moves a buffer from the queue to the completed ones; a failed one moves nothing. */
  lemma WriteCompletedKeeps(c: Conn, ok: bool)
    requires SingleWriter(c) && c.outstanding > 0
    ensures SingleWriter(WriteCompleted(c, ok)) && Enqueued(WriteCompleted(c, ok)) == Enqueued(c)
  {
  }
}
