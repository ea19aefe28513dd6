// The byte-stream half of decode (include/FrameProtocalCodec.hpp:102-158) as a pure
// one-pass parser: what a buffer is cut into, before any frame is interpreted.
module Scanner {
  import opened Bytes
  import opened Proto
  import opened Encoder

  /** What one pass of decode's loop takes off the front of the buffer. */
  datatype Token =
    | Garbage(skipped: seq<byte>)
    | Beat(header: seq<byte>)
    | Data(frame: Frame)
    | Cleared(lost: seq<byte>)
  {
    function Raw(): seq<byte> {
      match this
      case Garbage(skipped) => skipped
      case Beat(header) => header
      case Data(frame) => frame.Wire()
      case Cleared(lost) => lost
    }
  }

  datatype Parse = Parse(tokens: seq<Token>, left: seq<byte>)

  /** The first magic at or after position i. */
  function NextMagic(s: seq<byte>, i: nat): (r: Option<nat>)
    ensures r.Some? ==> i <= r.value && r.value + 4 <= |s| && MagicAt(s, r.value)
    ensures forall k :: i <= k && k + 4 <= |s| && (r.Some? ==> k < r.value) ==> !MagicAt(s, k)
    decreases |s| - i
  {
    if i + 4 > |s| then None
    else if MagicAt(s, i) then Some(i)
    else NextMagic(s, i + 1)
  }

  function Cons(p: Token, rest: Parse): Parse
  {
    Parse([p] + rest.tokens, rest.left)
  }

  function Scan(s: seq<byte>): Parse
    decreases |s|
  {
    if |s| < HEADER_SIZE then Parse([], s)
    else if !MagicAt(s, 0) then
      var i := NextMagic(s, 1);
      if i.None? then Parse([Cleared(s)], []) else Cons(Garbage(s[..i.value]), Scan(s[i.value..]))
    else if s[4] != VERSION then Parse([Cleared(s)], [])
    else if s[5] == HEARTBEAT then Cons(Beat(s[..HEADER_SIZE]), Scan(s[HEADER_SIZE..]))
    else
      var n := HEADER_SIZE + U16At(s, 6);
      if |s| < n then Parse([], s) else Cons(Data(Frame(ReadHeader(s), s[HEADER_SIZE..n])), Scan(s[n..]))
  }

  function RawBytes(ps: seq<Token>): seq<byte>
  {
    if ps == [] then [] else ps[0].Raw() + RawBytes(ps[1..])
  }

  /** The frames handed to handleSingleFrame, in order. */
  function FramesIn(ps: seq<Token>): seq<Frame>
  {
    if ps == [] then [] else (if ps[0].Data? then [ps[0].frame] else []) + FramesIn(ps[1..])
  }

  predicate Clears(ps: seq<Token>)
  {
    ps != [] && ps[|ps| - 1].Cleared?
  }

  // ---- a declarative account of the same parse ----

  ghost predicate NoMagicIn(s: seq<byte>)
  {
    forall k :: 0 <= k && k + 4 <= |s| ==> !MagicAt(s, k)
  }

  /** Decode would wait for more bytes. */
  ghost predicate Stuck(s: seq<byte>)
  {
    || |s| < HEADER_SIZE
    || (MagicAt(s, 0) && s[4] == VERSION && s[5] != HEARTBEAT && |s| < HEADER_SIZE + U16At(s, 6))
  }

  /** When a stretch of bytes may be taken as the given token, rest being what follows it. */
  ghost predicate Legal(p: Token, rest: seq<byte>)
  {
    match p
    case Garbage(g) => g != [] && NoMagicIn(g) && MAGIC <= rest && HEADER_SIZE <= |g| + |rest|
    case Beat(b) => |b| == HEADER_SIZE && MagicAt(b, 0) && b[4] == VERSION && b[5] == HEARTBEAT
    case Data(f) => f.Handled()
    case Cleared(lost) =>
      && rest == [] && HEADER_SIZE <= |lost|
      && (NoMagicIn(lost) || (MagicAt(lost, 0) && lost[4] != VERSION))
  }

  /** Every byte of s is in exactly one token or in the leftover, in order, each token is
      what its bytes say, and nothing more could be taken. */
  ghost predicate IsParse(s: seq<byte>, ps: seq<Token>, left: seq<byte>)
  {
    && s == RawBytes(ps) + left
    && Stuck(left)
    && AllLegal(ps, left)
  }

  ghost predicate AllLegal(ps: seq<Token>, left: seq<byte>)
  {
    forall i :: 0 <= i < |ps| ==> Legal(ps[i], RawBytes(ps[i + 1..]) + left)
  }

  lemma IsParseCons(s: seq<byte>, p: Token, ps: seq<Token>, left: seq<byte>)
    requires IsParse(s, ps, left) && Legal(p, s)
    ensures IsParse(p.Raw() + s, [p] + ps, left)
  {
    hide Legal, Stuck, Token.Raw;
    var all := [p] + ps;
    assert all[1..] == ps;
    forall i | 0 <= i < |all| ensures Legal(all[i], RawBytes(all[i + 1..]) + left) {
      if i > 0 { assert all[i + 1..] == ps[i..] && all[i] == ps[i - 1]; }
    }
    assert p.Raw() + RawBytes(ps) + left == p.Raw() + (RawBytes(ps) + left);
  }

  lemma LegalTail(ps: seq<Token>, left: seq<byte>)
    requires ps != [] && AllLegal(ps, left)
    ensures AllLegal(ps[1..], left)
    ensures Legal(ps[0], RawBytes(ps[1..]) + left)
  {
  }

  lemma IsParseTail(s: seq<byte>, ps: seq<Token>, left: seq<byte>)
    requires IsParse(s, ps, left) && ps != []
    ensures Legal(ps[0], RawBytes(ps[1..]) + left)
    ensures s == ps[0].Raw() + (RawBytes(ps[1..]) + left)
    ensures IsParse(RawBytes(ps[1..]) + left, ps[1..], left)
  {
    LegalTail(ps, left);
    RawTail(ps, left);
  }

  lemma RawTail(ps: seq<Token>, left: seq<byte>)
    requires ps != []
    ensures RawBytes(ps) + left == ps[0].Raw() + (RawBytes(ps[1..]) + left)
  {
  }

  /** The four magic bytes are distinct, so a match cannot straddle the end of a
      magic-free stretch that a magic follows. */
  lemma NoStraddle(g: seq<byte>, rest: seq<byte>, k: nat)
    requires NoMagicIn(g) && MAGIC <= rest && k < |g|
    ensures k + 4 <= |g + rest| && !MagicAt(g + rest, k)
  {
    var s := g + rest;
    if k + 4 <= |g| {
      assert s[k..k + 4] == g[k..k + 4];
      assert !MagicAt(g, k);
    } else {
      assert s[|g|] == rest[0] == MAGIC[0];
      assert s[k..k + 4][|g| - k] == s[|g|];
    }
  }

  lemma FirstMagicAfterGarbage(g: seq<byte>, rest: seq<byte>)
    requires g != [] && NoMagicIn(g) && MAGIC <= rest
    ensures !MagicAt(g + rest, 0)
    ensures NextMagic(g + rest, 1) == Some(|g|)
  {
    var s := g + rest;
    forall k | 0 <= k < |g| ensures k + 4 <= |s| && !MagicAt(s, k) { NoStraddle(g, rest, k); }
    assert MagicAt(s, |g|) by { assert s[|g|..|g| + 4] == rest[..4]; }
  }

  lemma GarbageLegal(s: seq<byte>, i: nat)
    requires |s| >= HEADER_SIZE && !MagicAt(s, 0) && NextMagic(s, 1) == Some(i)
    ensures Legal(Garbage(s[..i]), s[i..])
  {
    var g, t := s[..i], s[i..];
    assert t[..4] == s[i..i + 4];
    forall k | 0 <= k && k + 4 <= |g| ensures !MagicAt(g, k) {
      assert g[k..k + 4] == s[k..k + 4];
      assert !MagicAt(s, k);
    }
  }

  lemma BeatLegal(s: seq<byte>)
    requires |s| >= HEADER_SIZE && MagicAt(s, 0) && s[4] == VERSION && s[5] == HEARTBEAT
    ensures Legal(Beat(s[..HEADER_SIZE]), s[HEADER_SIZE..])
  {
  }

  lemma DataLegal(s: seq<byte>, n: nat)
    requires |s| >= HEADER_SIZE && MagicAt(s, 0) && s[4] == VERSION && s[5] != HEARTBEAT
    requires n == HEADER_SIZE + U16At(s, 6) <= |s|
    ensures Legal(Data(Frame(ReadHeader(s), s[HEADER_SIZE..n])), s[n..])
    ensures s == Frame(ReadHeader(s), s[HEADER_SIZE..n]).Wire() + s[n..]
  {
    HeaderBytesRoundTrip(s);
    assert s == s[..HEADER_SIZE] + s[HEADER_SIZE..n] + s[n..];
  }

  lemma ClearedLegal(s: seq<byte>)
    requires |s| >= HEADER_SIZE
    requires if MagicAt(s, 0) then s[4] != VERSION else NextMagic(s, 1).None?
    ensures Legal(Cleared(s), [])
  {
  }

  /** Soundness: what Scan returns is a parse in the declarative sense. */
  lemma {:induction false} ScanIsParse(s: seq<byte>)
    ensures IsParse(s, Scan(s).tokens, Scan(s).left)
    decreases |s|
  {
    var r := Scan(s);
    if r.tokens == [] {
      assert s == r.left;
    } else if r.tokens[0].Cleared? {
      ClearedLegal(s);
      ClearedAlone(s);
    } else {
      var p := r.tokens[0];
      var t := s[|p.Raw()|..];
      ScanTakes(s);
      ScanIsParse(t);
      IsParseCons(t, p, Scan(t).tokens, Scan(t).left);
    }
  }

  lemma ScanTakes(s: seq<byte>)
    requires Scan(s).tokens != [] && !Scan(s).tokens[0].Cleared?
    ensures var p := Scan(s).tokens[0];
      && 0 < |p.Raw()| <= |s|
      && s == p.Raw() + s[|p.Raw()|..]
      && Legal(p, s[|p.Raw()|..])
      && Scan(s) == Cons(p, Scan(s[|p.Raw()|..]))
  {
    var p := Scan(s).tokens[0];
    if p.Garbage? {
      GarbageLegal(s, |p.skipped|);
    } else if p.Beat? {
      BeatLegal(s);
    } else {
      DataLegal(s, HEADER_SIZE + U16At(s, 6));
    }
  }

  lemma ClearedAlone(s: seq<byte>)
    requires |s| >= HEADER_SIZE && (NoMagicIn(s) || (MagicAt(s, 0) && s[4] != VERSION))
    ensures IsParse(s, [Cleared(s)], [])
  {
  }

  lemma TakesGarbage(g: seq<byte>, rest: seq<byte>)
    requires Legal(Garbage(g), rest)
    ensures Scan(g + rest) == Cons(Garbage(g), Scan(rest))
  {
    var s := g + rest;
    FirstMagicAfterGarbage(g, rest);
    assert s[..|g|] == g && s[|g|..] == rest;
  }

  lemma TakesBeat(b: seq<byte>, rest: seq<byte>)
    requires Legal(Beat(b), rest)
    ensures Scan(b + rest) == Cons(Beat(b), Scan(rest))
  {
  }

  lemma TakesData(f: Frame, rest: seq<byte>)
    requires f.Handled()
    ensures Scan(f.Wire() + rest) == Cons(Data(f), Scan(rest))
  {
    var s := f.Wire() + rest;
    assert s == f.h.Bytes() + (f.payload + rest);
    HeaderRoundTrip(f.h, f.payload + rest);
    var n := HEADER_SIZE + |f.payload|;
    assert s[HEADER_SIZE..n] == f.payload && s[n..] == rest;
    assert s[4] == ReadHeader(s).version && s[5] == ReadHeader(s).ptype && U16At(s, 6) == ReadHeader(s).payloadLen;
  }

  lemma TakesAll(lost: seq<byte>)
    requires Legal(Cleared(lost), [])
    ensures Scan(lost) == Parse([Cleared(lost)], [])
  {
  }

  /** One step: a legal token at the front is the token Scan takes. */
  lemma ScanStep(p: Token, rest: seq<byte>)
    requires Legal(p, rest)
    ensures Scan(p.Raw() + rest) == Cons(p, Scan(rest))
  {
    match p {
      case Garbage(g) => TakesGarbage(g, rest);
      case Beat(b) => TakesBeat(b, rest);
      case Data(f) => TakesData(f, rest);
      case Cleared(lost) =>
        assert lost + [] == lost && [p] + [] == [p];
        TakesAll(lost);
    }
  }

  /** Uniqueness: Scan computes the only parse there is. */
  lemma {:induction false} ParseIsScan(s: seq<byte>, ps: seq<Token>, left: seq<byte>)
    requires IsParse(s, ps, left)
    ensures Scan(s) == Parse(ps, left)
    decreases |ps|
  {
    if ps == [] {
      assert s == left;
    } else {
      hide *;
      IsParseTail(s, ps, left);
      ParseIsScan(RawBytes(ps[1..]) + left, ps[1..], left);
      ScanStep(ps[0], RawBytes(ps[1..]) + left);
      ConsTail(ps, left);
    }
  }

  lemma ConsTail(ps: seq<Token>, left: seq<byte>)
    requires ps != []
    ensures Cons(ps[0], Parse(ps[1..], left)) == Parse(ps, left)
  {
  }
}
