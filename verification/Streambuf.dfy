// asio::basic_streambuf (include/asio/basic_streambuf.hpp): a byte queue kept in one array
// that is compacted and grown on demand, refined to a plain queue of bytes.
module Streambuf {
  import opened Bytes

  const BUFFER_DELTA := 128
  const INT_LIMIT := 0x8000_0000

  function Min(a: nat, b: nat): nat { if a < b then a else b }
  function Max(a: nat, b: nat): nat { if a > b then a else b }

  /** static_cast<int> of a size: its low 32 bits as a signed number. */
  function ToInt(n: nat): (r: int)
    ensures r == n <==> n < INT_LIMIT
  {
    var low := n % 0x1_0000_0000;
    if low < INT_LIMIT then low else low - 0x1_0000_0000
  }

  /** What reading s[..] yields after s has been copied g places down over itself, while the
      reader still starts at the old place: the mark a failing reserve leaves. */
  function Smeared(s: seq<byte>, g: nat): seq<byte>
  {
    seq(|s|, t requires 0 <= t < |s| => if g + t < |s| then s[g + t] else s[t])
  }

  /** s equals itself moved by g places wherever both are defined. */
  ghost predicate Repeats(s: seq<byte>, g: nat)
  {
    forall t :: 0 <= t && g + t < |s| ==> s[g + t] == s[t]
  }

  lemma SmearedKeeps(s: seq<byte>, g: nat)
    ensures Smeared(s, g) == s <==> Repeats(s, g)
  {
    if Smeared(s, g) == s {
      forall t | 0 <= t && g + t < |s| ensures s[g + t] == s[t] {
        assert Smeared(s, g)[t] == s[g + t];
      }
    }
  }

  lemma SmearedInPlace(s: seq<byte>)
    ensures Smeared(s, 0) == s
  {
  }

  class StreamBuf {
    const max_size: nat
    var buffer: array<byte>
    // gptr, egptr, pptr and epptr as offsets from the start of the buffer.
    var gnext: int
    var gend: int
    var pnext: int
    var pend: int

    ghost predicate Valid()
      reads this
    {
      && 0 <= gnext <= gend <= pnext <= pend <= max_size
      && buffer.Length == Max(pend, 1)
    }

    /** The input sequence: the bytes committed and not yet consumed. */
    ghost function Contents(): seq<byte>
      requires Valid()
      reads this, buffer
    {
      buffer[gnext..pnext]
    }

    /** The output sequence, where a caller writes after prepare. */
    ghost function Output(): seq<byte>
      requires Valid()
      reads this, buffer
    {
      buffer[pnext..pend]
    }

    constructor (maximum_size: nat)
      ensures Valid() && fresh(buffer) && max_size == maximum_size
      ensures Contents() == []
    {
      max_size := maximum_size;
      var end := Min(maximum_size, BUFFER_DELTA);
      buffer := new byte[Max(end, 1)](_ => 0);
      gnext, gend, pnext, pend := 0, 0, 0, end;
    }

    method Size() returns (n: nat)
      requires Valid()
      ensures n == |Contents()| <= max_size
    {
      n := pnext - gnext;
    }

    /** reserve: fails exactly when the contents and n more bytes exceed the maximum. On
        success nothing is lost; on failure the positions stay but the bytes have moved. */
    method Reserve(n: nat) returns (ok: bool)
      requires Valid()
      modifies this, buffer
      ensures Valid() && (buffer == old(buffer) || fresh(buffer))
      ensures ok <==> |old(Contents())| + n <= max_size
      ensures ok ==> Contents() == old(Contents()) && n <= |Output()|
      ensures ok && n <= |old(Output())| ==> Output() == old(Output()) && gend == old(gend)
      ensures ok && n > |old(Output())| ==> gnext == 0 && gend == pnext
      ensures !ok ==> gnext == old(gnext) && gend == old(gend) && pnext == old(pnext) && pend == old(pend)
      ensures !ok ==> Contents() == Smeared(old(Contents()), old(gnext))
      ensures !ok ==> (Contents() == old(Contents()) <==> Repeats(old(Contents()), old(gnext)))
    {
      hide Smeared, Repeats;
      var gnext0, pnext0, pend0 := gnext, pnext, pend;
      if n <= pend0 - pnext0 {
        return true;
      }
      ghost var contents := Contents();
      if gnext0 > 0 {
        pnext0 := pnext0 - gnext0;
        MoveDown(gnext0, pnext0);
      }
      assert buffer[..pnext0] == contents;
      if n > pend0 - pnext0 {
        if n <= max_size && pnext0 <= max_size - n {
          pend0 := pnext0 + n;
          Resize(Max(pend0, 1));
          assert buffer[..pnext0] == contents;
        } else {
          assert Contents() == Smeared(contents, gnext0) by { MovedIsSmeared(buffer[..], contents, gnext0); }
          SmearedKeeps(contents, gnext0);
          return false;
        }
      }
      gnext, gend := 0, pnext0;
      pnext, pend := pnext0, pend0;
      ok := true;
    }

    /** The memmove of reserve. */
    method MoveDown(g: nat, len: nat)
      requires g + len <= buffer.Length
      modifies buffer
      ensures buffer[..len] == old(buffer[g..g + len])
      ensures buffer[len..] == old(buffer[len..])
    {
      forall i | 0 <= i < len {
        buffer[i] := buffer[g + i];
      }
    }

    /** vector::resize to a larger size: the old elements, then zeros. */
    method Resize(size: nat)
      requires size >= buffer.Length
      modifies this`buffer
      ensures fresh(buffer) && buffer.Length == size
      ensures buffer[..old(buffer.Length)] == old(buffer[..])
    {
      var from := buffer;
      var to := new byte[size](_ => 0);
      forall i | 0 <= i < from.Length {
        to[i] := from[i];
      }
      buffer := to;
    }

    /** prepare: the span handed out starts at pnext. */
    method Prepare(n: nat) returns (ok: bool)
      requires Valid()
      modifies this, buffer
      ensures Valid() && (buffer == old(buffer) || fresh(buffer))
      ensures ok <==> |old(Contents())| + n <= max_size
      ensures ok ==> Contents() == old(Contents()) && n <= |Output()|
      ensures !ok ==> Contents() == Smeared(old(Contents()), old(gnext))
      ensures !ok ==> (Contents() == old(Contents()) <==> Repeats(old(Contents()), old(gnext)))
    {
      ok := Reserve(n);
    }

    /** A caller writing into the span that prepare returned. */
    method Fill(data: seq<byte>)
      requires Valid() && |data| <= |Output()|
      modifies buffer
      ensures Valid() && Contents() == old(Contents())
      ensures Output()[..|data|] == data && |Output()| == |old(Output())|
    {
      forall i | 0 <= i < |data| {
        buffer[pnext + i] := data[i];
      }
      assert Output()[..|data|] == data;
    }

    /** commit: at most the whole output sequence moves to the input sequence. The pointer
        moves by the count narrowed to int, so by the count itself exactly below 2^31. */
    method Commit(n: nat)
      requires Valid()
      modifies this
      ensures buffer == old(buffer) && gnext == old(gnext) && pend == old(pend) && gend == pnext
      ensures pnext == old(pnext) + ToInt(Min(n, |old(Output())|))
      ensures pnext == old(pnext) + Min(n, |old(Output())|) <==> Min(n, |old(Output())|) < INT_LIMIT
      ensures Min(n, |old(Output())|) < INT_LIMIT ==>
                Valid() && Contents() == old(Contents()) + old(Output())[..Min(n, |old(Output())|)]
    {
      ghost var contents, output := Contents(), Output();
      var k := Min(n, pend - pnext);
      pnext := pnext + ToInt(k);
      gend := pnext;
      assert k < INT_LIMIT ==> buffer[gnext..pnext] == contents + output[..k];
    }

    /** consume: at most the whole input sequence goes, with the same narrowing. */
    method Consume(n: nat)
      requires Valid()
      modifies this
      ensures buffer == old(buffer) && pnext == old(pnext) && pend == old(pend) && gend == pnext
      ensures gnext == old(gnext) + ToInt(Min(n, |old(Contents())|))
      ensures gnext == old(gnext) + Min(n, |old(Contents())|) <==> Min(n, |old(Contents())|) < INT_LIMIT
      ensures Min(n, |old(Contents())|) < INT_LIMIT ==>
                Valid() && Contents() == old(Contents())[Min(n, |old(Contents())|)..]
    {
      if gend < pnext {
        gend := pnext;
      }
      var k := n;
      if gnext + k > pnext {
        k := pnext - gnext;
      }
      gnext := gnext + ToInt(k);
    }

    /** underflow: the next byte, or None for end of file. */
    method Underflow() returns (c: Option<byte>)
      requires Valid()
      modifies this`gend
      ensures Valid() && Contents() == old(Contents()) && gend == pnext
      ensures c == if Contents() == [] then None else Some(Contents()[0])
    {
      if gnext < pnext {
        gend := pnext;
        c := Some(buffer[gnext]);
      } else {
        c := None;
      }
    }

    /** *pptr() = c; pbump(1). */
    method Append(c: byte)
      requires Valid() && pnext < pend
      modifies buffer, this`pnext
      ensures Valid() && Contents() == old(Contents()) + [c]
    {
      buffer[pnext] := c;
      pnext := pnext + 1;
    }

    /** overflow: appends one byte (None stands for end of file and appends nothing); it fails
        exactly when the buffer is full, and then nothing has changed. */
    method Overflow(c: Option<byte>) returns (ok: bool)
      requires Valid()
      modifies this, buffer
      ensures Valid() && (buffer == old(buffer) || fresh(buffer))
      ensures ok <==> c.None? || |old(Contents())| < max_size
      ensures Contents() == if ok && c.Some? then old(Contents()) + [c.value] else old(Contents())
    {
      hide Smeared, Repeats;
      ok := true;
      if c.Some? {
        if pnext == pend {
          var buffer_size := pnext - gnext;
          if buffer_size < max_size && max_size - buffer_size < BUFFER_DELTA {
            ok := Reserve(max_size - buffer_size);
          } else {
            ok := Reserve(BUFFER_DELTA);
          }
          if !ok {
            assert old(gnext) == 0;
            SmearedInPlace(old(Contents()));
            return;
          }
        }
        assert pnext < pend;
        Append(c.value);
      }
    }
  }

  /** An array whose first bytes are the contents and whose bytes behind them are where the
      contents were before, read from the old start. */
  lemma MovedIsSmeared(bytes: seq<byte>, contents: seq<byte>, g: nat)
    requires g + |contents| <= |bytes| && bytes[..|contents|] == contents
    requires forall t :: 0 <= t < |contents| && |contents| <= g + t ==> bytes[g + t] == contents[t]
    ensures bytes[g..g + |contents|] == Smeared(contents, g)
  {
  }

  // ---- runs of operations ----

  /** Operations on the buffer: prepare(span), write data at the start of the span and commit
      it; consume; put one byte; look at the next byte. */
  datatype Op = Receive(span: nat, data: seq<byte>) | Take(n: nat) | Put(c: byte) | Peek

  /** A queue of bytes with its history. */
  datatype Queue = Queue(contents: seq<byte>, committed: seq<byte>, consumed: seq<byte>)

  /** The operation on a queue bounded by max, or None if it throws. */
  function Apply(q: Queue, op: Op, max: nat): Option<Queue>
  {
    match op
    case Receive(span, data) =>
      if |q.contents| + span > max || |data| > span then None
      else Some(q.(contents := q.contents + data, committed := q.committed + data))
    case Take(n) =>
      var k := Min(n, |q.contents|);
      Some(q.(contents := q.contents[k..], consumed := q.consumed + q.contents[..k]))
    case Put(c) =>
      if |q.contents| >= max then None
      else Some(q.(contents := q.contents + [c], committed := q.committed + [c]))
    case Peek => Some(q)
  }

  function ApplyAll(ops: seq<Op>, max: nat): Option<Queue>
  {
    if ops == [] then Some(Queue([], [], [])) else
      var q := ApplyAll(ops[..|ops| - 1], max);
      if q.None? then None else Apply(q.value, ops[|ops| - 1], max)
  }

  /** Over any run, the consumed bytes followed by the contents are the committed bytes, and
      the documented bound holds. */
  lemma {:induction false} Conservation(ops: seq<Op>, max: nat)
    requires ApplyAll(ops, max).Some?
    ensures var q := ApplyAll(ops, max).value;
      q.consumed + q.contents == q.committed && |q.contents| <= max
  {
    if ops != [] {
      Conservation(ops[..|ops| - 1], max);
      ApplyConserves(ApplyAll(ops[..|ops| - 1], max).value, ops[|ops| - 1], max);
    }
  }

  lemma ApplyConserves(q: Queue, op: Op, max: nat)
    requires q.consumed + q.contents == q.committed && |q.contents| <= max && Apply(q, op, max).Some?
    ensures var r := Apply(q, op, max).value;
      r.consumed + r.contents == r.committed && |r.contents| <= max
  {
  }

  /** How many bytes the operation moves between the queue and its users at once. */
  function Moved(q: Queue, op: Op): nat
  {
    match op
    case Receive(_, data) => |data|
    case Take(n) => Min(n, |q.contents|)
    case Put(_) => 1
    case Peek => 0
  }

  /** No commit or consume of the run moves 2^31 bytes or more, so that none is narrowed. */
  ghost predicate Unnarrowed(ops: seq<Op>, max: nat)
  {
    forall i :: 0 <= i < |ops| && ApplyAll(ops[..i], max).Some? ==>
      Moved(ApplyAll(ops[..i], max).value, ops[i]) < INT_LIMIT
  }

  lemma UnnarrowedAt(ops: seq<Op>, max: nat, i: nat)
    requires Unnarrowed(ops, max) && i < |ops| && ApplyAll(ops[..i], max).Some?
    ensures Moved(Queue(ApplyAll(ops[..i], max).value.contents, [], []), ops[i]) < INT_LIMIT
    ensures ApplyAll(ops[..i + 1], max) == Apply(ApplyAll(ops[..i], max).value, ops[i], max)
  {
    assert ops[..i + 1][..i] == ops[..i];
  }

  /** The buffer does what the queue does, whatever the maximum: a run goes through exactly
      when every operation of it goes through on the queue, and then the contents and the
      bytes consumed agree. */
  method RunAll(maximum: nat, ops: seq<Op>) returns (sb: StreamBuf, ok: bool, consumed: seq<byte>)
    requires Unnarrowed(ops, maximum)
    requires forall i :: 0 <= i < |ops| && ops[i].Receive? ==> |ops[i].data| <= ops[i].span
    ensures ok <==> ApplyAll(ops, maximum).Some?
    ensures sb.Valid()
    ensures ok ==> sb.Contents() == ApplyAll(ops, maximum).value.contents
    ensures ok ==> consumed == ApplyAll(ops, maximum).value.consumed
    ensures ok ==> consumed + sb.Contents() == ApplyAll(ops, maximum).value.committed
  {
    hide Unnarrowed, ApplyAll;
    sb := new StreamBuf(maximum);
    ok, consumed := true, [];
    StartsEmpty(ops, maximum);
    for i := 0 to |ops|
      invariant fresh(sb) && fresh(sb.buffer) && sb.Valid() && sb.max_size == maximum
      invariant ok && ApplyAll(ops[..i], maximum).Some?
      invariant sb.Contents() == ApplyAll(ops[..i], maximum).value.contents
      invariant consumed == ApplyAll(ops[..i], maximum).value.consumed
    {
      UnnarrowedAt(ops, maximum, i);
      var taken;
      ok, taken := RunOne(sb, ops[i]);
      consumed := consumed + taken;
      if !ok {
        NeverRecovers(ops, i + 1, maximum);
        return;
      }
    }
    assert ops[..|ops|] == ops;
    Conservation(ops, maximum);
  }

  lemma StartsEmpty(ops: seq<Op>, max: nat)
    ensures ApplyAll(ops[..0], max) == Some(Queue([], [], []))
  {
  }

  lemma {:induction false} NeverRecovers(ops: seq<Op>, i: nat, max: nat)
    requires i <= |ops| && ApplyAll(ops[..i], max).None?
    ensures ApplyAll(ops, max).None?
    decreases |ops| - i
  {
    if i == |ops| {
      assert ops[..i] == ops;
    } else {
      assert ops[..i + 1][..i] == ops[..i];
      NeverRecovers(ops, i + 1, max);
    }
  }

  /** prepare, write into the span, commit what was written. */
  method ReceiveInto(sb: StreamBuf, span: nat, data: seq<byte>) returns (ok: bool)
    requires sb.Valid() && |data| <= span && |data| < INT_LIMIT
    modifies sb, sb.buffer
    ensures sb.Valid() && (sb.buffer == old(sb.buffer) || fresh(sb.buffer))
    ensures ok <==> |old(sb.Contents())| + span <= sb.max_size
    ensures ok ==> sb.Contents() == old(sb.Contents()) + data
  {
    ok := sb.Prepare(span);
    if ok {
      sb.Fill(data);
      sb.Commit(|data|);
    }
  }

  method RunOne(sb: StreamBuf, op: Op) returns (ok: bool, taken: seq<byte>)
    requires sb.Valid() && Moved(Queue(sb.Contents(), [], []), op) < INT_LIMIT
    requires op.Receive? ==> |op.data| <= op.span
    modifies sb, sb.buffer
    ensures sb.Valid() && (sb.buffer == old(sb.buffer) || fresh(sb.buffer))
    ensures var q := Queue(old(sb.Contents()), [], []); var r := Apply(q, op, sb.max_size);
      && (ok <==> r.Some?)
      && (ok ==> sb.Contents() == r.value.contents && taken == r.value.consumed)
  {
    hide ToInt, Smeared, Repeats;
    ok, taken := true, [];
    match op {
      case Receive(span, data) =>
        ok := ReceiveInto(sb, span, data);
      case Take(n) =>
        var size := sb.Size();
        taken := sb.buffer[sb.gnext..sb.gnext + Min(n, size)];
        assert taken == sb.Contents()[..Min(n, size)];
        sb.Consume(n);
      case Put(c) =>
        ok := sb.Overflow(Some(c));
      case Peek =>
        var _ := sb.Underflow();
    }
  }

  // ---- what a failing prepare leaves ----

  /** Whatever contents of a given size are kept exactly when the input starts at the front
      of the array or lies wholly behind the copy. */
  lemma AllRepeatExactly(size: nat, g: nat)
    ensures (forall s: seq<byte> :: |s| == size ==> Repeats(s, g)) <==> g == 0 || g >= size
  {
    if 0 < g < size {
      var s: seq<byte> := seq(size, i => if i == g then 1 else 0);
      assert s[g + 0] != s[0] && !Repeats(s, g);
    } else {
      forall s: seq<byte> | |s| == size ensures Repeats(s, g) {}
    }
  }

  /** A buffer of three bytes with one of them consumed. */
  method Consumed() returns (sb: StreamBuf)
    ensures fresh(sb) && fresh(sb.buffer) && sb.Valid()
    ensures sb.max_size == 3 && sb.gnext == 1 && sb.Contents() == [0, 1]
  {
    sb := new StreamBuf(3);
    var ok := ReceiveInto(sb, 3, [9, 0, 1]);
    ghost var contents := sb.Contents();
    assert contents == [9, 0, 1];
    sb.Consume(1);
    assert contents[1..] == [0, 1];
  }

  lemma SmearsOneZero()
    ensures Smeared([0, 1], 1) == [1, 1]
  {
  }

  /** For instance: three bytes in, one consumed, and a prepare that fails turns the
      contents 0, 1 into 1, 1. */
  method FailedPrepareSmears() returns (sb: StreamBuf, before: seq<byte>, ok: bool)
    ensures sb.Valid() && !ok && before == [0, 1] && sb.Contents() == [1, 1]
  {
    sb := Consumed();
    before := sb.buffer[sb.gnext..sb.pnext];
    ok := sb.Prepare(2);
    SmearsOneZero();
  }
}
