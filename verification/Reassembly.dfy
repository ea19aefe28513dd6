// The frame half of decode: handleSingleFrame (include/FrameProtocalCodec.hpp:194-262)
// as a function of one message id's cache entry, and runs of it over frame sequences.
module Reassembly {
  import opened Bytes
  import opened Encoder
  import Adler32

  /** The fragment slots of one message; an empty slot has not been filled. */
  type Slots = seq<seq<byte>>
  type Cache = map<u64, Slots>

  datatype Error = ChecksumMismatch | InvalidSeq | MissingPart

  datatype Verdict = Emit(packet: Packet) | Quiet | Reject(error: Error)
  {
    function Out(): seq<Packet> {
      if Emit? then [packet] else []
    }
  }

  datatype Outcome = Outcome(entry: Option<Slots>, verdict: Verdict)

  function Blank(n: nat): Slots
  {
    seq(n, i => [])
  }

  /** The slots a fragment finds: operator[] followed by the resize of an empty vector. */
  function Opened(entry: Option<Slots>, total: u16): Slots
  {
    if entry.Some? && entry.value != [] then entry.value else Blank(total)
  }

  /** handleSingleFrame seen from the cache entry of the frame's own id. */
  function Assemble(entry: Option<Slots>, f: Frame): Outcome
  {
    if !f.h.IsFragment() then
      Outcome(entry,
              if Adler32.Checksum(f.payload) == f.h.checksum
              then Emit(Packet(f.h.MsgId(), f.h.ptype, f.payload)) else Reject(ChecksumMismatch))
    else if f.h.seqNo >= |Opened(entry, f.h.total)| then Outcome(None, Reject(InvalidSeq))
    else
      var slots := Opened(entry, f.h.total)[f.h.seqNo := f.payload];
      if !f.h.IsEnd() then
        if Adler32.Checksum(f.payload) == f.h.checksum then Outcome(Some(slots), Quiet)
        else Outcome(None, Reject(ChecksumMismatch))
      else if [] in slots then Outcome(None, Reject(MissingPart))
      else if Adler32.Checksum(Concat(slots)) != f.h.checksum then Outcome(Some(slots), Reject(ChecksumMismatch))
      else Outcome(None, Emit(Packet(f.h.MsgId(), f.h.ptype, Concat(slots))))
  }

  function Lookup(c: Cache, id: u64): Option<Slots>
  {
    if id in c then Some(c[id]) else None
  }

  function Store(c: Cache, id: u64, entry: Option<Slots>): Cache
  {
    if entry.Some? then c[id := entry.value] else c - {id}
  }

  datatype Result = Result(cache: Cache, out: seq<Packet>)

  /** What handling f does in a given cache. */
  function Handle(c: Cache, f: Frame): Outcome
  {
    Assemble(Lookup(c, f.h.MsgId()), f)
  }

  function Advance(r: Result, f: Frame): Result
  {
    var o := Handle(r.cache, f);
    Result(Store(r.cache, f.h.MsgId(), o.entry), r.out + o.verdict.Out())
  }

  /** Handling frames one after the other. */
  function Run(c: Cache, fs: seq<Frame>): Result
  {
    if fs == [] then Result(c, []) else Advance(Run(c, fs[..|fs| - 1]), fs[|fs| - 1])
  }

  lemma RunSnoc(c: Cache, fs: seq<Frame>, f: Frame)
    ensures Run(c, fs + [f]) == Advance(Run(c, fs), f)
  {
  }

  /** Results of two successive runs, the second starting in the cache the first left. */
  function Then(first: Result, second: Result): Result
  {
    Result(second.cache, first.out + second.out)
  }

  /** Packets handed on earlier do not influence later handling. */
  lemma AdvanceThen(first: Result, second: Result, f: Frame)
    ensures Advance(Then(first, second), f) == Then(first, Advance(second, f))
  {
  }

  lemma ThenNothing(r: Result)
    ensures Then(r, Run(r.cache, [])) == r
  {
    assert r.out + [] == r.out;
  }

  lemma RunConcatSnoc(c: Cache, at: seq<Frame>, first: Result, t: seq<Frame>, f: Frame)
    requires Run(c, at) == Then(first, Run(first.cache, t))
    ensures Run(c, at + [f]) == Then(first, Run(first.cache, t + [f]))
  {
    RunSnoc(c, at, f);
    RunSnoc(first.cache, t, f);
    AdvanceThen(first, Run(first.cache, t), f);
  }

  lemma {:induction false} RunConcat(c: Cache, a: seq<Frame>, b: seq<Frame>)
    ensures Run(c, a + b) == Then(Run(c, a), Run(Run(c, a).cache, b))
  {
    hide *;
    if b == [] {
      assert a + b == a;
      ThenNothing(Run(c, a));
    } else {
      var t, f := b[..|b| - 1], b[|b| - 1];
      RunConcat(c, a, t);
      RunConcatSnoc(c, a + t, Run(c, a), t, f);
      assert b == t + [f] && a + b == a + t + [f];
    }
  }

  // ---- messages do not interfere ----

  function Only(fs: seq<Frame>, id: u64): seq<Frame>
  {
    if fs == [] then [] else
      var f := fs[|fs| - 1];
      Only(fs[..|fs| - 1], id) + (if f.h.MsgId() == id then [f] else [])
  }

  function PacketsOf(ps: seq<Packet>, id: u64): seq<Packet>
  {
    if ps == [] then [] else
      var p := ps[|ps| - 1];
      PacketsOf(ps[..|ps| - 1], id) + (if p.id == id then [p] else [])
  }

  /** One id's view of a run: its entry and its packets. */
  datatype View = View(entry: Option<Slots>, out: seq<Packet>)

  function AdvanceOne(v: View, f: Frame): View
  {
    var o := Assemble(v.entry, f);
    View(o.entry, v.out + o.verdict.Out())
  }

  /** Handling the frames of a single id, with nothing else in the cache. */
  function RunOne(entry: Option<Slots>, fs: seq<Frame>): View
  {
    if fs == [] then View(entry, []) else AdvanceOne(RunOne(entry, fs[..|fs| - 1]), fs[|fs| - 1])
  }

  lemma RunOneSnoc(entry: Option<Slots>, fs: seq<Frame>, f: Frame)
    ensures RunOne(entry, fs + [f]) == AdvanceOne(RunOne(entry, fs), f)
  {
  }

  function ThenOne(first: View, second: View): View
  {
    View(second.entry, first.out + second.out)
  }

  lemma AdvanceOneThen(first: View, second: View, f: Frame)
    ensures AdvanceOne(ThenOne(first, second), f) == ThenOne(first, AdvanceOne(second, f))
  {
  }

  lemma OneThenNothing(v: View)
    ensures ThenOne(v, RunOne(v.entry, [])) == v
  {
    assert v.out + [] == v.out;
  }

  lemma RunOneConcatSnoc(entry: Option<Slots>, at: seq<Frame>, first: View, t: seq<Frame>, f: Frame)
    requires RunOne(entry, at) == ThenOne(first, RunOne(first.entry, t))
    ensures RunOne(entry, at + [f]) == ThenOne(first, RunOne(first.entry, t + [f]))
  {
    RunOneSnoc(entry, at, f);
    RunOneSnoc(first.entry, t, f);
    AdvanceOneThen(first, RunOne(first.entry, t), f);
  }

  lemma {:induction false} RunOneConcat(entry: Option<Slots>, a: seq<Frame>, b: seq<Frame>)
    ensures RunOne(entry, a + b) == ThenOne(RunOne(entry, a), RunOne(RunOne(entry, a).entry, b))
  {
    hide *;
    if b == [] {
      assert a + b == a;
      OneThenNothing(RunOne(entry, a));
    } else {
      var t, f := b[..|b| - 1], b[|b| - 1];
      RunOneConcat(entry, a, t);
      RunOneConcatSnoc(entry, a + t, RunOne(entry, a), t, f);
      assert b == t + [f] && a + b == a + t + [f];
    }
  }

  lemma PacketsOfOut(ps: seq<Packet>, v: Verdict, id: u64)
    ensures PacketsOf(ps + v.Out(), id) == PacketsOf(ps, id) + (if v.Emit? && v.packet.id == id then v.Out() else [])
  {
    if v.Emit? {
      assert (ps + [v.packet])[..|ps|] == ps;
    } else {
      assert ps + v.Out() == ps;
    }
  }

  lemma EmitsOwnId(entry: Option<Slots>, f: Frame)
    ensures Assemble(entry, f).verdict.Emit? ==> Assemble(entry, f).verdict.packet.id == f.h.MsgId()
  {
  }

  function ViewOf(r: Result, id: u64): View
  {
    View(Lookup(r.cache, id), PacketsOf(r.out, id))
  }

  lemma AdvanceView(r: Result, f: Frame, id: u64)
    ensures ViewOf(Advance(r, f), id) == if f.h.MsgId() == id then AdvanceOne(ViewOf(r, id), f) else ViewOf(r, id)
  {
    var o := Handle(r.cache, f);
    EmitsOwnId(Lookup(r.cache, f.h.MsgId()), f);
    PacketsOfOut(r.out, o.verdict, id);
    if f.h.MsgId() != id {
      assert PacketsOf(r.out, id) + [] == PacketsOf(r.out, id);
    }
  }

  /** Non-interference: over any frames whatever, what becomes of one id (its cache entry
      and its packets) is what its own frames alone would have caused. */
  lemma {:induction false} Projection(c: Cache, fs: seq<Frame>, id: u64)
    ensures ViewOf(Run(c, fs), id) == RunOne(Lookup(c, id), Only(fs, id))
  {
    if fs != [] {
      var f := fs[|fs| - 1];
      var t := fs[..|fs| - 1];
      Projection(c, t, id);
      AdvanceView(Run(c, t), f, id);
      if f.h.MsgId() == id {
        RunOneSnoc(Lookup(c, id), Only(t, id), f);
      } else {
        assert Only(fs, id) == Only(t, id);
      }
    }
  }

  /** What the j-th of a sequence of frames does depends only on earlier frames of its id. */
  lemma EffectAt(c: Cache, fs: seq<Frame>, j: nat)
    requires j < |fs|
    ensures var id := fs[j].h.MsgId();
      Handle(Run(c, fs[..j]).cache, fs[j]) == Assemble(RunOne(Lookup(c, id), Only(fs[..j], id)).entry, fs[j])
  {
    Projection(c, fs[..j], fs[j].h.MsgId());
  }

  /** Frames of other ids neither create, change nor remove an entry. */
  lemma FramesKeepOtherEntries(c: Cache, fs: seq<Frame>, id: u64)
    requires forall i :: 0 <= i < |fs| ==> fs[i].h.MsgId() != id
    ensures Lookup(Run(c, fs).cache, id) == Lookup(c, id)
    ensures PacketsOf(Run(c, fs).out, id) == []
  {
    OnlyNone(fs, id);
    Projection(c, fs, id);
  }

  lemma {:induction false} OnlyNone(fs: seq<Frame>, id: u64)
    requires forall i :: 0 <= i < |fs| ==> fs[i].h.MsgId() != id
    ensures Only(fs, id) == []
  {
    if fs != [] { OnlyNone(fs[..|fs| - 1], id); }
  }

  // ---- unfragmented frames, and what is rejected ----

  /** An unfragmented frame changes no entry, whatever is cached under its id, and is handed
      on exactly if its checksum is right. */
  lemma ShortFrame(c: Cache, f: Frame)
    requires f.h.flags % 2 == 0
    ensures Advance(Result(c, []), f).cache == c
    ensures Advance(Result(c, []), f).out ==
      if Adler32.Checksum(f.payload) == f.h.checksum then [Packet(f.h.MsgId(), f.h.ptype, f.payload)] else []
  {
    assert forall p: Packet :: [] + [p] == [p];
  }

  lemma {:induction false} ShortFramesKeepCache(c: Cache, fs: seq<Frame>)
    requires forall i :: 0 <= i < |fs| ==> fs[i].h.flags % 2 == 0
    ensures Run(c, fs).cache == c
  {
    if fs != [] {
      var t, f := fs[..|fs| - 1], fs[|fs| - 1];
      ShortFramesKeepCache(c, t);
      ShortFrame(c, f);
    }
  }

  /** Which exception a fragment raises: its number is out of range; or it is the end
      fragment and some slot other than its own, or its payload, is empty; or the bytes it
      answers for do not have its checksum. */
  lemma FragmentRejected(entry: Option<Slots>, f: Frame)
    requires f.h.IsFragment()
    ensures var v := Assemble(entry, f).verdict;
      var found := if entry.Some? && |entry.value| > 0 then entry.value else seq(f.h.total, i => []);
      && (v == Reject(InvalidSeq) <==> |found| <= f.h.seqNo)
      && (f.h.seqNo < |found| ==>
            && (v == Reject(MissingPart) <==> f.h.IsEnd() && [] in found[f.h.seqNo := f.payload])
            && (v == Reject(ChecksumMismatch) <==>
                  if f.h.IsEnd() then [] !in found[f.h.seqNo := f.payload]
                    && Adler32.Checksum(Concat(found[f.h.seqNo := f.payload])) != f.h.checksum
                  else Adler32.Checksum(f.payload) != f.h.checksum)
            && (v == Quiet <==> !f.h.IsEnd() && Adler32.Checksum(f.payload) == f.h.checksum))
  {
    hide Adler32.Checksum, Concat;
  }

  // ---- the cache invariant ----

  predicate EntryOk(entry: Option<Slots>)
  {
    entry.Some? ==> 1 <= |entry.value| <= 65535
  }

  ghost predicate CacheOk(c: Cache)
  {
    forall id :: id in c ==> EntryOk(Some(c[id]))
  }

  /** Between frames every entry has 1 to 65535 slots, a surviving entry keeps its slot
      count, and a new one has the slot count of the frame that created it. */
  lemma AssembleKeepsEntry(entry: Option<Slots>, f: Frame)
    requires EntryOk(entry)
    ensures var e := Assemble(entry, f).entry;
      && EntryOk(e)
      && (e.Some? ==> |e.value| == if entry.Some? then |entry.value| else f.h.total)
  {
  }

  lemma {:induction false} RunKeepsCache(c: Cache, fs: seq<Frame>)
    requires CacheOk(c)
    ensures CacheOk(Run(c, fs).cache)
  {
    if fs != [] {
      var f := fs[|fs| - 1];
      var t := fs[..|fs| - 1];
      RunKeepsCache(c, t);
      AssembleKeepsEntry(Lookup(Run(c, t).cache, f.h.MsgId()), f);
    }
  }

  /** So the emptiness test of line 221 asks exactly whether the id was uncached. */
  lemma EmptyMeansUncached(c: Cache, fs: seq<Frame>, id: u64)
    requires CacheOk(c)
    ensures var entry := Lookup(Run(c, fs).cache, id);
      (entry.Some? && entry.value != []) <==> id in Run(c, fs).cache
  {
  }
}
