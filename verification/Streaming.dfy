// How the parse depends on the way the byte stream is cut into decode calls.
module Streaming {
  import opened Bytes
  import opened Proto
  import opened Encoder
  import opened Scanner

  /** Successive decode calls: each scans the previous leftover plus the new chunk. */
  function ScanChunks(chunks: seq<seq<byte>>): Parse
  {
    if chunks == [] then Parse([], []) else
      var before := ScanChunks(chunks[..|chunks| - 1]);
      Join(before, Scan(before.left + chunks[|chunks| - 1]))
  }

  lemma FramesInCons(p: Token, ps: seq<Token>)
    ensures FramesIn([p] + ps) == (if p.Data? then [p.frame] else []) + FramesIn(ps)
  {
  }

  lemma {:induction false} FramesInConcat(a: seq<Token>, b: seq<Token>)
    ensures FramesIn(a + b) == FramesIn(a) + FramesIn(b)
  {
    if a == [] {
      assert a + b == b;
    } else {
      hide FramesIn;
      var t := a[1..];
      FramesInConcat(t, b);
      FramesInCons(a[0], t + b);
      FramesInCons(a[0], t);
      assert a + b == [a[0]] + (t + b) && a == [a[0]] + t;
    }
  }

  lemma {:induction false} RawBytesConcat(a: seq<Token>, b: seq<Token>)
    ensures RawBytes(a + b) == RawBytes(a) + RawBytes(b)
  {
    if a == [] {
      assert a + b == b;
    } else {
      assert (a + b)[1..] == a[1..] + b;
      RawBytesConcat(a[1..], b);
    }
  }

  /** A drained buffer is a suffix of what was scanned and holds at most one incomplete frame. */
  lemma LeftoverBound(s: seq<byte>)
    ensures |Scan(s).left| <= 65560 && |Scan(s).left| <= |s|
    ensures Scan(s).left == s[|s| - |Scan(s).left|..]
    ensures Scan(Scan(s).left) == Parse([], Scan(s).left)
  {
    ScanIsParse(s);
    var r := Scan(s);
    assert s == RawBytes(r.tokens) + r.left;
    assert RawBytes([]) + r.left == r.left;
    ParseIsScan(r.left, [], r.left);
  }

  /** What remains of x once its first token is taken. */
  function Rest(x: seq<byte>): seq<byte>
    requires Scan(x).tokens != [] && |Scan(x).tokens[0].Raw()| <= |x|
  {
    x[|Scan(x).tokens[0].Raw()|..]
  }

  lemma StepThen(p: Token, t: seq<byte>, y: seq<byte>)
    requires !p.Cleared? && Legal(p, t)
    ensures Scan(p.Raw() + t + y) == Cons(p, Scan(t + y))
  {
    LegalBefore(p, t, y);
    hide Scan, Legal;
    ScanStep(p, t + y);
    assert p.Raw() + t + y == p.Raw() + (t + y);
  }

  lemma LegalBefore(p: Token, t: seq<byte>, y: seq<byte>)
    requires !p.Cleared? && Legal(p, t)
    ensures Legal(p, t + y)
  {
  }

  /** The token taken first from x is taken first from x + y too. */
  lemma TakesFirst(x: seq<byte>, y: seq<byte>)
    requires Scan(x).tokens != [] && !Scan(x).tokens[0].Cleared?
    ensures |Scan(x).tokens[0].Raw()| <= |x| && |Rest(x)| < |x|
    ensures Scan(x) == Cons(Scan(x).tokens[0], Scan(Rest(x)))
    ensures Scan(x + y) == Cons(Scan(x).tokens[0], Scan(Rest(x) + y))
  {
    ScanTakes(x);
    StepThen(Scan(x).tokens[0], Rest(x), y);
  }

  function Join(first: Parse, next: Parse): Parse
  {
    Parse(first.tokens + next.tokens, next.left)
  }

  lemma JoinCons(p: Token, a: Parse, b: Parse)
    ensures Cons(p, Join(a, b)) == Join(Cons(p, a), b)
  {
  }

  /** Scanning x + y in one go is scanning x and then its leftover followed by y,
      provided the pass over x does not clear the buffer. */
  lemma {:induction false} ScanAppend(x: seq<byte>, y: seq<byte>)
    requires !Clears(Scan(x).tokens)
    ensures Scan(x + y) == Join(Scan(x), Scan(Scan(x).left + y))
    decreases |x|
  {
    if Scan(x).tokens == [] {
      assert Scan(x).left == x;
      assert [] + Scan(x + y).tokens == Scan(x + y).tokens;
    } else {
      TakesFirst(x, y);
      var p, r := Scan(x).tokens[0], Scan(Rest(x));
      assert Scan(x) == Cons(p, r);
      ClearsTail(p, r.tokens);
      ScanAppend(Rest(x), y);
      JoinCons(p, r, Scan(r.left + y));
    }
  }

  lemma ClearsTail(p: Token, ps: seq<Token>)
    requires !Clears([p] + ps)
    ensures !Clears(ps)
  {
  }

  /** A stream is safe to cut anywhere when no pass over a prefix of it would clear. */
  ghost predicate SafeToCut(s: seq<byte>)
  {
    forall k :: 0 <= k <= |s| ==> !Clears(Scan(s[..k]).tokens)
  }

  /** Any split of a safe stream gives the parse of the whole stream. */
  lemma {:induction false} AnySplit(chunks: seq<seq<byte>>)
    requires SafeToCut(Concat(chunks))
    ensures ScanChunks(chunks) == Scan(Concat(chunks))
  {
    if chunks != [] {
      var n := |chunks| - 1;
      var x, y := Concat(chunks[..n]), chunks[n];
      assert SafeToCut(x) by {
        forall k | 0 <= k <= |x| ensures !Clears(Scan(x[..k]).tokens) {
          assert (x + y)[..k] == x[..k];
        }
      }
      AnySplit(chunks[..n]);
      assert x[..|x|] == x;
      ScanAppend(x, y);
    }
  }

  // ---- exactly which boundaries are harmless ----

  /** Whatever two chunks follow, cutting after x does not change the frames handled. */
  ghost predicate HarmlessCut(x: seq<byte>)
  {
    forall y, z :: FramesIn(ScanChunks([x, y, z]).tokens) == FramesIn(ScanChunks([x + y, z]).tokens)
  }

  lemma TwoCalls(x: seq<byte>, z: seq<byte>)
    ensures ScanChunks([x, z]) == Join(Scan(x), Scan(Scan(x).left + z))
  {
    OneCall(x);
    assert [x, z][..1] == [x];
  }

  lemma OneCall(x: seq<byte>)
    ensures ScanChunks([x]) == Scan(x)
  {
    assert [x][..0] == [];
    assert [] + x == x && [] + Scan(x).tokens == Scan(x).tokens;
  }

  lemma ThreeCalls(x: seq<byte>, y: seq<byte>, z: seq<byte>)
    ensures var one := Scan(x); var two := Scan(one.left + y);
      ScanChunks([x, y, z]) == Join(Join(one, two), Scan(two.left + z))
  {
    TwoCalls(x, y);
    assert [x, y, z][..2] == [x, y];
  }

  /** The first byte of a magic: on its own it is kept, appended to a cleared pass it is lost. */
  const START: seq<byte> := MAGIC[..1]

  lemma NoMagicWithStart(s: seq<byte>)
    requires NoMagicIn(s)
    ensures NoMagicIn(s + START)
  {
    forall k | 0 <= k && k + 4 <= |s + START| ensures !MagicAt(s + START, k) {
      var t := s + START;
      if k + 4 <= |s| {
        assert t[k..k + 4] == s[k..k + 4];
        assert !MagicAt(s, k);
      } else {
        assert t[k..k + 4][3] == START[0];
      }
    }
  }

  lemma ClearsAtOnce(x: seq<byte>)
    requires Scan(x).tokens != [] && Scan(x).tokens[0].Cleared?
    ensures Scan(x + START) == Parse([Cleared(x + START)], [])
  {
    ClearedLegal(x);
    var y := START;
    if MagicAt(x, 0) {
      assert (x + y)[0..4] == x[0..4];
    } else {
      NoMagicWithStart(x);
      TakesAll(x + y);
    }
  }

  /** If the pass over x clears, so does the pass over x and one magic byte, and that byte is lost. */
  lemma {:induction false} ClearsFurther(x: seq<byte>)
    requires Clears(Scan(x).tokens)
    ensures Scan(x).left == [] && Scan(x + START).left == []
    ensures FramesIn(Scan(x + START).tokens) == FramesIn(Scan(x).tokens)
    decreases |x|
  {
    if Scan(x).tokens[0].Cleared? {
      ClearsAtOnce(x);
    } else {
      TakesFirst(x, START);
      assert Scan(Rest(x)).tokens == Scan(x).tokens[1..];
      ClearsFurther(Rest(x));
      FramesInCons(Scan(x).tokens[0], Scan(Rest(x) + START).tokens);
    }
  }

  /** A frame one byte longer than its header, used as a probe. */
  const PROBE := Frame(Header(VERSION, CHATMSG, 1, 0, 0, 0, 0, 0, 0), [0])

  lemma ProbeWhole()
    ensures Scan(PROBE.Wire()) == Parse([Data(PROBE)], [])
    ensures START + PROBE.Wire()[1..] == PROBE.Wire()
  {
    var w := PROBE.Wire();
    TakesData(PROBE, []);
    assert w + [] == w;
    assert [Data(PROBE)] + [] == [Data(PROBE)];
    assert w[..1] == START;
  }

  lemma ProbeTail()
    ensures Scan(PROBE.Wire()[1..]).left == []
    ensures FramesIn(Scan(PROBE.Wire()[1..]).tokens) == []
  {
    var t := PROBE.Wire()[1..];
    var zeros: seq<byte> := seq(19, i => 0);
    assert t == MAGIC[1..] + [1, 0, 0, 1] + zeros by { ProbeBytes(); }
    forall k | 0 <= k < |t| ensures t[k] != MAGIC[0] {}
    forall k | 0 <= k && k + 4 <= |t| ensures !MagicAt(t, k) {
      assert t[k..k + 4][0] == t[k];
    }
    TakesAll(t);
  }

  lemma ProbeBytes()
    ensures PROBE.Wire() == MAGIC + [1, 0, 0, 1] + seq(19, i => 0)
  {
  }

  /** A cut after x is harmless exactly when the pass over x takes no clearing branch. */
  lemma HarmlessExactly(x: seq<byte>)
    ensures HarmlessCut(x) <==> !Clears(Scan(x).tokens)
  {
    if Clears(Scan(x).tokens) {
      CutMatters(x);
    } else {
      forall y, z ensures FramesIn(ScanChunks([x, y, z]).tokens) == FramesIn(ScanChunks([x + y, z]).tokens) {
        ScanAppend(x, y);
        ThreeCalls(x, y, z);
        TwoCalls(x + y, z);
      }
    }
  }

  lemma SplitKeepsProbe(x: seq<byte>)
    requires Clears(Scan(x).tokens)
    ensures FramesIn(ScanChunks([x, START, PROBE.Wire()[1..]]).tokens) == FramesIn(Scan(x).tokens) + [PROBE]
  {
    var y, z := START, PROBE.Wire()[1..];
    ClearsFurther(x);
    ProbeWhole();
    ThreeCalls(x, y, z);
    assert [] + y == y;
    assert Scan(y) == Parse([], y);
    var two := Join(Scan(x), Scan(y));
    assert two.tokens == Scan(x).tokens;
    FramesInConcat(two.tokens, [Data(PROBE)]);
    assert FramesIn([Data(PROBE)]) == [PROBE];
  }

  lemma WholeLosesProbe(x: seq<byte>)
    requires Clears(Scan(x).tokens)
    ensures FramesIn(ScanChunks([x + START, PROBE.Wire()[1..]]).tokens) == FramesIn(Scan(x).tokens)
  {
    var z := PROBE.Wire()[1..];
    ClearsFurther(x);
    ProbeTail();
    TwoCalls(x + START, z);
    assert [] + z == z;
    FramesInConcat(Scan(x + START).tokens, Scan(z).tokens);
  }

  lemma CutMatters(x: seq<byte>)
    requires Clears(Scan(x).tokens)
    ensures !HarmlessCut(x)
  {
    SplitKeepsProbe(x);
    WholeLosesProbe(x);
    var split := FramesIn(ScanChunks([x, START, PROBE.Wire()[1..]]).tokens);
    var whole := FramesIn(ScanChunks([x + START, PROBE.Wire()[1..]]).tokens);
    assert |split| == |whole| + 1;
  }

  // ---- exactly when the next call is not affected ----

  /** Whatever the next chunk is, cutting before it does not change the frames handled. */
  ghost predicate NextCallUnaffected(x: seq<byte>)
  {
    forall y :: FramesIn(ScanChunks([x, y]).tokens) == FramesIn(Scan(x + y).tokens)
  }

  /** The bytes end in the first k bytes of a magic. */
  predicate EndsInMagic(s: seq<byte>, k: nat)
  {
    k <= 4 && k <= |s| && s[|s| - k..] == MAGIC[..k]
  }

  /** Cleared bytes whose loss the next call cannot notice: they had no magic, and they do
      not end in a part of one. */
  predicate ForgottenSafely(lost: seq<byte>)
  {
    && (|lost| >= 4 ==> !MagicAt(lost, 0))
    && !EndsInMagic(lost, 1) && !EndsInMagic(lost, 2) && !EndsInMagic(lost, 3)
  }

  /** The bytes that a clearing pass drops. */
  function LostBytes(x: seq<byte>): (lost: seq<byte>)
    requires Clears(Scan(x).tokens)
  {
    Scan(x).tokens[|Scan(x).tokens| - 1].lost
  }

  /** Tokens taken before the clearing one do not change what is dropped. */
  lemma LostOfRest(x: seq<byte>)
    requires Clears(Scan(x).tokens) && !Scan(x).tokens[0].Cleared?
    ensures |Scan(x).tokens[0].Raw()| <= |x| && |Rest(x)| < |x|
    ensures Scan(x) == Cons(Scan(x).tokens[0], Scan(Rest(x)))
    ensures Clears(Scan(Rest(x)).tokens) && LostBytes(Rest(x)) == LostBytes(x)
  {
    hide Scan;
    TakesFirst(x, []);
    assert Scan(Rest(x)).tokens == Scan(x).tokens[1..];
  }

  lemma LostAtOnce(x: seq<byte>)
    requires Clears(Scan(x).tokens) && Scan(x).tokens[0].Cleared?
    ensures |x| >= HEADER_SIZE && Legal(Cleared(x), [])
    ensures Scan(x) == Parse([Cleared(x)], []) && LostBytes(x) == x
  {
    hide Legal, MagicAt, NextMagic, U16At, ReadHeader;
    assert Scan(x) == Parse([Cleared(x)], []);
    ClearedLegal(x);
  }

  lemma {:induction false} LostLegal(x: seq<byte>)
    requires Clears(Scan(x).tokens)
    ensures |LostBytes(x)| >= HEADER_SIZE && Legal(Cleared(LostBytes(x)), [])
    ensures Scan(x).left == []
    decreases |x|
  {
    hide Scan, Legal, LostBytes;
    if Scan(x).tokens[0].Cleared? {
      LostAtOnce(x);
    } else {
      LostOfRest(x);
      LostLegal(Rest(x));
    }
  }

  /** A clearing pass over more bytes takes the same tokens up to the bytes it dropped, and
      goes on from there. */
  lemma {:induction false} GoesOnFromLost(x: seq<byte>, y: seq<byte>)
    requires Clears(Scan(x).tokens)
    ensures FramesIn(Scan(x + y).tokens) == FramesIn(Scan(x).tokens) + FramesIn(Scan(LostBytes(x) + y).tokens)
    decreases |x|
  {
    hide Scan, Legal, LostBytes, FramesIn;
    var p := Scan(x).tokens[0];
    if p.Cleared? {
      LostAtOnce(x);
      NoFrameIn(p);
    } else {
      LostOfRest(x);
      TakesFirst(x, y);
      GoesOnFromLost(Rest(x), y);
      FramesInCons(p, Scan(Rest(x)).tokens);
      FramesInCons(p, Scan(Rest(x) + y).tokens);
    }
  }

  lemma NoFrameIn(p: Token)
    requires !p.Data?
    ensures FramesIn([p]) == []
  {
  }

  lemma CutAtLost(x: seq<byte>, y: seq<byte>)
    requires Clears(Scan(x).tokens)
    ensures FramesIn(ScanChunks([x, y]).tokens) == FramesIn(Scan(x + y).tokens)
       <==> FramesIn(Scan(y).tokens) == FramesIn(Scan(LostBytes(x) + y).tokens)
  {
    LostLegal(x);
    TwoCalls(x, y);
    assert [] + y == y;
    FramesInConcat(Scan(x).tokens, Scan(y).tokens);
    GoesOnFromLost(x, y);
    SamePrefix(FramesIn(Scan(x).tokens), FramesIn(Scan(y).tokens), FramesIn(Scan(LostBytes(x) + y).tokens));
  }

  lemma SamePrefix<T>(a: seq<T>, b: seq<T>, c: seq<T>)
    ensures a + b == a + c <==> b == c
  {
    if a + b == a + c {
      assert b == (a + b)[|a|..] && c == (a + c)[|a|..];
    }
  }

  /** No magic begins in bytes without one that do not end in a part of one. */
  lemma NoMagicAcross(g: seq<byte>, y: seq<byte>, k: nat)
    requires NoMagicIn(g) && |g| >= 4 && ForgottenSafely(g) && k < |g| && k + 4 <= |g + y|
    ensures !MagicAt(g + y, k)
  {
    var s := g + y;
    if k + 4 <= |g| {
      assert s[k..k + 4] == g[k..k + 4];
      assert !MagicAt(g, k);
    } else {
      var j := |g| - k;
      SliceAcross(g, y, k);
      assert !EndsInMagic(g, j);
    }
  }

  lemma SliceAcross(g: seq<byte>, y: seq<byte>, k: nat)
    requires k <= |g| < k + 4 <= |g + y|
    ensures (g + y)[k..k + 4][..|g| - k] == g[k..]
  {
  }

  lemma MagicBeyond(g: seq<byte>, y: seq<byte>, k: nat)
    requires |g| <= k && k + 4 <= |g + y|
    ensures MagicAt(g + y, k) <==> MagicAt(y, k - |g|)
  {
    assert (g + y)[k..k + 4] == y[k - |g|..k - |g| + 4];
  }

  lemma NoMagicJoined(g: seq<byte>, y: seq<byte>)
    requires NoMagicIn(g) && |g| >= 4 && ForgottenSafely(g) && NoMagicIn(y)
    ensures NoMagicIn(g + y)
  {
    forall k | 0 <= k && k + 4 <= |g + y| ensures !MagicAt(g + y, k) {
      if k < |g| { NoMagicAcross(g, y, k); } else { MagicBeyond(g, y, k); }
    }
  }

  /** Up to its first magic, a chunk yields no frame. */
  lemma FramesFromMagic(y: seq<byte>, j: nat)
    requires NextMagic(y, 0) == Some(j)
    ensures FramesIn(Scan(y).tokens) == FramesIn(Scan(y[j..]).tokens)
  {
    if j == 0 {
      assert y[0..] == y;
    } else if |y| >= HEADER_SIZE {
      assert !MagicAt(y, 0);
      assert NextMagic(y, 1) == Some(j);
      FramesInCons(Garbage(y[..j]), Scan(y[j..]).tokens);
    }
  }

  lemma NoFramesWithoutMagic(y: seq<byte>)
    requires NoMagicIn(y)
    ensures FramesIn(Scan(y).tokens) == []
  {
    if |y| >= HEADER_SIZE {
      TakesAll(y);
      assert FramesIn([Cleared(y)]) == [];
    }
  }

  lemma SameFirstMagic(g: seq<byte>, y: seq<byte>, j: nat)
    requires NoMagicIn(g) && |g| >= 4 && ForgottenSafely(g) && NextMagic(y, 0) == Some(j)
    ensures NextMagic(g + y, 0) == Some(|g| + j)
  {
    forall k | 0 <= k < |g| + j ensures k + 4 <= |g + y| && !MagicAt(g + y, k) {
      if k < |g| { NoMagicAcross(g, y, k); } else { MagicBeyond(g, y, k); }
    }
    MagicBeyond(g, y, |g| + j);
  }

  /** Magic-free bytes that do not end in a part of a magic change no frame of what follows. */
  lemma ForgottenChangesNothing(g: seq<byte>, y: seq<byte>)
    requires NoMagicIn(g) && |g| >= 4 && ForgottenSafely(g)
    ensures FramesIn(Scan(g + y).tokens) == FramesIn(Scan(y).tokens)
  {
    hide Scan, FramesIn, MagicAt, EndsInMagic, ForgottenSafely;
    var j := NextMagic(y, 0);
    if j.None? {
      NoMagicJoined(g, y);
      NoFramesWithoutMagic(y);
      NoFramesWithoutMagic(g + y);
    } else {
      SameFirstMagic(g, y, j.value);
      FramesFromMagic(y, j.value);
      FramesFromMagic(g + y, |g| + j.value);
      assert (g + y)[|g| + j.value..] == y[j.value..];
    }
  }

  /** A frame that a version error before it drops is handled if a cut comes between. */
  lemma VersionErrorDrops(lost: seq<byte>)
    requires |lost| >= HEADER_SIZE && MagicAt(lost, 0) && lost[4] != VERSION
    ensures FramesIn(Scan(lost + PROBE.Wire()).tokens) == []
    ensures FramesIn(Scan(PROBE.Wire()).tokens) == [PROBE]
  {
    var s := lost + PROBE.Wire();
    assert s[0..4] == lost[0..4] && s[4] == lost[4];
    assert Scan(s) == Parse([Cleared(s)], []);
    assert FramesIn([Cleared(s)]) == [];
    ProbeWhole();
    assert FramesIn([Data(PROBE)]) == [PROBE];
  }

  lemma ProbeAfter(g: seq<byte>)
    requires g != [] && NoMagicIn(g)
    ensures FramesIn(Scan(g + PROBE.Wire()).tokens) == [PROBE]
  {
    hide Scan, FramesIn, NoMagicIn;
    ProbeWhole();
    ProbeBytes();
    assert MAGIC <= PROBE.Wire();
    TakesGarbage(g, PROBE.Wire());
    FramesInCons(Garbage(g), [Data(PROBE)]);
    ProbeAlone();
  }

  lemma ProbeAlone()
    ensures FramesIn([Data(PROBE)]) == [PROBE]
  {
    FramesInCons(Data(PROBE), []);
    assert [Data(PROBE)] + [] == [Data(PROBE)];
  }

  lemma NoMagicInPrefix(s: seq<byte>, n: nat)
    requires NoMagicIn(s) && n <= |s|
    ensures NoMagicIn(s[..n])
  {
    forall i | 0 <= i && i + 4 <= n ensures !MagicAt(s[..n], i) {
      assert s[..n][i..i + 4] == s[i..i + 4];
      assert !MagicAt(s, i);
    }
  }

  /** A frame whose first k bytes the clearing pass dropped is lost by the cut, and handled
      without it. */
  lemma CutMagicLoses(lost: seq<byte>, k: nat)
    requires |lost| >= HEADER_SIZE && NoMagicIn(lost) && 1 <= k <= 3 && EndsInMagic(lost, k)
    ensures FramesIn(Scan(PROBE.Wire()[k..]).tokens) == []
    ensures FramesIn(Scan(lost + PROBE.Wire()[k..]).tokens) == [PROBE]
  {
    hide Scan, FramesIn, NoMagicIn;
    var g, w := lost[..|lost| - k], PROBE.Wire();
    ProbeRest(k);
    ProbeBytes();
    assert w[..k] == MAGIC[..k];
    assert lost + w[k..] == g + w;
    NoMagicInPrefix(lost, |lost| - k);
    ProbeAfter(g);
  }

  lemma ProbeRest(k: nat)
    requires 1 <= k <= 3
    ensures FramesIn(Scan(PROBE.Wire()[k..]).tokens) == []
  {
    if k == 1 {
      ProbeTail();
    }
  }

  /** The next call is unaffected by a cut after x exactly when the pass over x does not
      clear, or clears for lack of a magic and what it drops does not end in a part of one. */
  lemma NextCallExactly(x: seq<byte>)
    ensures NextCallUnaffected(x)
       <==> (Clears(Scan(x).tokens) ==> ForgottenSafely(LostBytes(x)))
  {
    if !Clears(Scan(x).tokens) {
      forall y ensures FramesIn(ScanChunks([x, y]).tokens) == FramesIn(Scan(x + y).tokens) {
        ScanAppend(x, y);
        TwoCalls(x, y);
      }
    } else {
      LostLegal(x);
      LostDecides(x);
    }
  }

  lemma LostDecides(x: seq<byte>)
    requires Clears(Scan(x).tokens) && |LostBytes(x)| >= HEADER_SIZE && Legal(Cleared(LostBytes(x)), [])
    ensures NextCallUnaffected(x) <==> ForgottenSafely(LostBytes(x))
  {
    var lost := LostBytes(x);
    if ForgottenSafely(lost) {
      forall y ensures FramesIn(ScanChunks([x, y]).tokens) == FramesIn(Scan(x + y).tokens) {
        CutAtLost(x, y);
        ForgottenChangesNothing(lost, y);
      }
    } else {
      var y := LosingChunk(lost);
      CutAtLost(x, y);
      assert FramesIn(ScanChunks([x, y]).tokens) != FramesIn(Scan(x + y).tokens);
    }
  }

  /** A chunk whose frames depend on whether the dropped bytes are still there. */
  lemma LosingChunk(lost: seq<byte>) returns (y: seq<byte>)
    requires |lost| >= HEADER_SIZE && Legal(Cleared(lost), []) && !ForgottenSafely(lost)
    ensures FramesIn(Scan(y).tokens) != FramesIn(Scan(lost + y).tokens)
  {
    if MagicAt(lost, 0) {
      assert !NoMagicIn(lost);
      VersionErrorDrops(lost);
      y := PROBE.Wire();
    } else {
      assert NoMagicIn(lost);
      var k := if EndsInMagic(lost, 1) then 1 else if EndsInMagic(lost, 2) then 2 else 3;
      CutMagicLoses(lost, k);
      y := PROBE.Wire()[k..];
    }
  }

  /** For instance: 26 zero bytes and the first byte of a frame, then the rest of the frame.
      In one call the frame is handled; with the cut it is lost. */
  lemma CutLosesFrame()
    ensures var x := seq(26, i => 0) + START; var y := PROBE.Wire()[1..];
      && FramesIn(ScanChunks([x, y]).tokens) == []
      && FramesIn(Scan(x + y).tokens) == [PROBE]
  {
    var zeros: seq<byte> := seq(26, i => 0);
    var x, y := zeros + START, PROBE.Wire()[1..];
    forall k | 0 <= k && k + 4 <= |zeros| ensures !MagicAt(zeros, k) {
      assert zeros[k..k + 4][0] == 0;
    }
    NoMagicWithStart(zeros);
    TakesAll(x);
    CutMagicLoses(x, 1);
    TwoCalls(x, y);
    assert [] + y == y;
    FramesInConcat(Scan(x).tokens, Scan(y).tokens);
    assert FramesIn([Cleared(x)]) == [];
  }

  // ---- well-framed streams ----

  /** A heartbeat or a frame with the right magic and version; its flags, numbering,
      checksum and payload are arbitrary. */
  ghost predicate Unit(p: Token)
  {
    !p.Garbage? && !p.Cleared? && Legal(p, [])
  }

  ghost predicate Units(ps: seq<Token>)
  {
    forall i :: 0 <= i < |ps| ==> Unit(ps[i])
  }

  /** A prefix of a well-framed stream parses to a prefix of its units. */
  lemma {:induction false} PrefixOfUnits(ps: seq<Token>, s: seq<byte>)
    requires Units(ps) && s <= RawBytes(ps)
    ensures Scan(s).tokens <= ps
    ensures s == RawBytes(ps) ==> Scan(s) == Parse(ps, [])
    decreases |ps|
  {
    if ps != [] {
      var p := ps[0];
      var w, rest := p.Raw(), RawBytes(ps[1..]);
      assert Unit(p) && RawBytes(ps) == w + rest;
      hide Scan, Legal, Token.Raw, RawBytes, Unit;
      if |s| < |w| {
        assert s <= w;
        IncompleteUnit(p, s);
      } else {
        var t := s[|w|..];
        PrefixBehind(s, w, rest);
        PrefixOfUnits(ps[1..], t);
        UnitLegal(p, t);
        ScanStep(p, t);
        assert [p] + ps[1..] == ps;
      }
    }
  }

  lemma PrefixBehind(s: seq<byte>, w: seq<byte>, rest: seq<byte>)
    requires s <= w + rest && |s| >= |w|
    ensures s == w + s[|w|..] && s[|w|..] <= rest
    ensures s == w + rest ==> s[|w|..] == rest
  {
  }

  lemma UnitLegal(p: Token, t: seq<byte>)
    requires Unit(p)
    ensures Legal(p, t)
  {
  }

  lemma IncompleteUnit(p: Token, s: seq<byte>)
    requires Unit(p) && s < p.Raw()
    ensures Scan(s) == Parse([], s)
  {
    if |s| >= HEADER_SIZE {
      assert s[0..4] == p.Raw()[0..4];
      if p.Data? {
        var rest := p.frame.payload;
        HeaderRoundTrip(p.frame.h, rest);
        assert U16At(s, 6) == U16At(p.Raw(), 6);
      }
    }
  }

  lemma UnitsAreSafe(ps: seq<Token>, s: seq<byte>)
    requires Units(ps) && s <= RawBytes(ps)
    ensures SafeToCut(s)
  {
    forall k | 0 <= k <= |s| ensures !Clears(Scan(s[..k]).tokens) {
      PrefixOfUnits(ps, s[..k]);
    }
  }

  /** Chunk independence: however a well-framed stream is cut, even inside headers, the
      decode calls together take the units of the one-pass parse and leave the same bytes. */
  lemma ChunkIndependence(ps: seq<Token>, chunks: seq<seq<byte>>)
    requires Units(ps) && Concat(chunks) <= RawBytes(ps)
    ensures ScanChunks(chunks) == Scan(Concat(chunks))
    ensures ScanChunks(chunks).tokens <= ps
    ensures Concat(chunks) == RawBytes(ps) ==> ScanChunks(chunks) == Parse(ps, [])
  {
    UnitsAreSafe(ps, Concat(chunks));
    AnySplit(chunks);
    PrefixOfUnits(ps, Concat(chunks));
  }

  /** Resynchronisation: a magic-free stretch before well-framed units, seen in one call,
      costs no unit. */
  lemma Resynchronises(g: seq<byte>, ps: seq<Token>)
    requires g != [] && NoMagicIn(g) && Units(ps) && ps != []
    ensures Scan(g + RawBytes(ps)) == Parse([Garbage(g)] + ps, [])
  {
    var rest := RawBytes(ps);
    assert Unit(ps[0]);
    assert MAGIC <= ps[0].Raw() by {
      if ps[0].Beat? { assert ps[0].header[0..4] == MAGIC; }
    }
    PrefixOfUnits(ps, rest);
    TakesGarbage(g, rest);
  }
}
