// The running checksum of the frame format (include/FrameProtocalCodec.hpp:17-27),
// the Adler-32 of RFC 1950.
module Adler32 {
  import opened Bytes

  const MOD := 65521

  /** The two halves of the checksum register. */
  datatype Sums = Sums(a: u16, b: u16)

  function Unpack(adler: u32): Sums
  {
    Sums(adler % 0x1_0000, adler / 0x1_0000)
  }

  function Pack(p: Sums): u32
  {
    p.b * 0x1_0000 + p.a
  }

  function Fold(p: Sums, s: seq<byte>): Sums
  {
    if s == [] then p else
      var q := Fold(p, s[..|s| - 1]);
      var a := (q.a + s[|s| - 1]) % MOD;
      Sums(a, (q.b + a) % MOD)
  }

  /** The value the loop computes from a start value, defined on the data's prefixes. */
  function Update(adler: u32, s: seq<byte>): u32
  {
    Pack(Fold(Unpack(adler), s))
  }

  function Checksum(s: seq<byte>): u32
  {
    Update(1, s)
  }

  /** adler32_update: every intermediate sum is held in a u32, so none wraps. */
  method Adler32Update(adler: u32, data: seq<byte>) returns (r: u32)
    ensures r == Update(adler, data)
  {
    var a: u32, b: u32 := adler % 0x1_0000, adler / 0x1_0000 % 0x1_0000;
    for i := 0 to |data|
      invariant a < 0x1_0000 && b < 0x1_0000
      invariant Sums(a, b) == Fold(Unpack(adler), data[..i])
    {
      assert data[..i + 1][..i] == data[..i];
      var sum: u32 := a + data[i];
      a := sum % MOD;
      sum := b + a;
      b := sum % MOD;
    }
    assert data[..|data|] == data;
    r := b * 0x1_0000 + a;
  }

  // ---- composition ----

  lemma {:induction false} FoldConcat(p: Sums, x: seq<byte>, y: seq<byte>)
    ensures Fold(Fold(p, x), y) == Fold(p, x + y)
  {
    if y == [] {
      assert x + y == x;
    } else {
      assert (x + y)[..|x + y| - 1] == x + y[..|y| - 1];
      FoldConcat(p, x, y[..|y| - 1]);
    }
  }

  /** Checksumming in two calls equals checksumming the concatenation, from any register value. */
  lemma UpdateConcat(adler: u32, x: seq<byte>, y: seq<byte>)
    ensures Update(Update(adler, x), y) == Update(adler, x + y)
  {
    FoldConcat(Unpack(adler), x, y);
    PackParts(Fold(Unpack(adler), x));
  }

  // ---- closed form ----

  function Sum(s: seq<byte>): int
  {
    if s == [] then 0 else s[0] + Sum(s[1..])
  }

  /** The sum of (n - i) * s[i] over the positions i of s. */
  function Weighted(s: seq<byte>): int
  {
    if s == [] then 0 else |s| * s[0] + Weighted(s[1..])
  }

  lemma {:induction false} SumsSnoc(s: seq<byte>, x: byte)
    ensures Sum(s + [x]) == Sum(s) + x
    ensures Weighted(s + [x]) == Weighted(s) + Sum(s) + x
  {
    if s == [] {
      assert s + [x] == [x];
      assert [x][1..] == [];
    } else {
      assert (s + [x])[1..] == s[1..] + [x];
      SumsSnoc(s[1..], x);
      assert (|s| + 1) * s[0] == |s| * s[0] + s[0];
    }
  }

  lemma AbsorbMod(x: int, y: int)
    ensures (x % MOD + y) % MOD == (x + y) % MOD
  {
  }

  /** One more byte, in residues. */
  lemma AddsOne(n: int, sum: int, weighted: int, x: int)
    ensures ((1 + sum) % MOD + x) % MOD == (1 + (sum + x)) % MOD
    ensures ((n + weighted) % MOD + (1 + (sum + x)) % MOD) % MOD == (n + 1 + (weighted + sum + x)) % MOD
  {
    var a := 1 + sum + x;
    AbsorbMod(1 + sum, x);
    AbsorbMod(n + weighted, a % MOD);
    AbsorbMod(a, n + weighted);
    assert n + 1 + (weighted + sum + x) == a + (n + weighted);
  }

  lemma {:induction false} FoldClosedForm(s: seq<byte>)
    ensures var p := Fold(Sums(1, 0), s);
      p.a == (1 + Sum(s)) % MOD && p.b == (|s| + Weighted(s)) % MOD
  {
    if s != [] {
      var t, x := s[..|s| - 1], s[|s| - 1];
      FoldClosedForm(t);
      assert s == t + [x];
      hide Sum, Weighted;
      SumsSnoc(t, x);
      AddsOne(|t|, Sum(t), Weighted(t), x);
    }
  }

  /** Sections 2.2 and 9 of RFC 1950: the low half is 1 plus the byte sum, the
      high half n plus the weighted byte sum, both modulo 65521. */
  lemma ClosedForm(s: seq<byte>)
    ensures Checksum(s) % 0x1_0000 == (1 + Sum(s)) % 65521
    ensures Checksum(s) / 0x1_0000 == (|s| + Weighted(s)) % 65521
  {
    ChecksumIsFold(s);
    hide Checksum, Fold, Sum, Weighted, Pack;
    FoldClosedForm(s);
    PackParts(Fold(Sums(1, 0), s));
  }

  lemma ChecksumIsFold(s: seq<byte>)
    ensures Checksum(s) == Pack(Fold(Sums(1, 0), s))
  {
    hide Fold, Pack;
    assert Unpack(1) == Sums(1, 0);
  }

  lemma PackParts(p: Sums)
    ensures Pack(p) % 0x1_0000 == p.a && Pack(p) / 0x1_0000 == p.b
  {
  }

  lemma ResiduesAgree(p: Sums, q: Sums, n: int, s1: int, w1: int, s2: int, w2: int)
    requires p.a == (1 + s1) % MOD && p.b == (n + w1) % MOD
    requires q.a == (1 + s2) % MOD && q.b == (n + w2) % MOD
    ensures p == q <==> (s2 - s1) % MOD == 0 && (w2 - w1) % MOD == 0
  {
  }

  lemma ChecksumsAgree(s: seq<byte>, t: seq<byte>)
    requires |s| == |t|
    ensures Checksum(s) == Checksum(t)
       <==> (Sum(t) - Sum(s)) % MOD == 0 && (Weighted(t) - Weighted(s)) % MOD == 0
  {
    hide Checksum, Fold, Sum, Weighted, Pack;
    ChecksumIsFold(s);
    ChecksumIsFold(t);
    FoldClosedForm(s);
    FoldClosedForm(t);
    var p, q := Fold(Sums(1, 0), s), Fold(Sums(1, 0), t);
    PackInjective(p, q);
    ResiduesAgree(p, q, |s|, Sum(s), Weighted(s), Sum(t), Weighted(t));
  }

  lemma PackInjective(p: Sums, q: Sums)
    ensures Pack(p) == Pack(q) <==> p == q
  {
  }

  // ---- error detection ----

  lemma {:induction false} SumsUpdate(s: seq<byte>, i: nat, x: byte)
    requires i < |s|
    ensures Sum(s[i := x]) == Sum(s) + (x as int - s[i])
    ensures Weighted(s[i := x]) == Weighted(s) + (|s| - i) * (x as int - s[i])
  {
    if i == 0 {
      assert s[i := x][1..] == s[1..];
      assert |s| * x == |s| * s[0] + |s| * (x as int - s[0]);
    } else {
      assert s[i := x][1..] == s[1..][i - 1 := x];
      SumsUpdate(s[1..], i - 1, x);
    }
  }

  /** 65521 has no divisor among the possible byte differences. */
  lemma NoSmallDivisor(d: int)
    requires 2 <= d <= 255
    ensures MOD % d != 0
  {
  }

  /** Euclid's descent: a byte difference cannot cancel a factor of 65521. */
  lemma {:induction false} CancelFactor(d: nat, k: int)
    requires 1 <= d <= 255 && (d * k) % MOD == 0
    ensures k % MOD == 0
    decreases d
  {
    if d > 1 {
      var q, r := MOD / d, MOD % d;
      NoSmallDivisor(d);
      var c := d * k / MOD;
      assert d * k == MOD * c;
      calc {
        r * k;
        (MOD - q * d) * k;
        MOD * k - q * (d * k);
        MOD * k - q * (MOD * c);
        MOD * (k - q * c);
      }
      assert (r * k) % MOD == 0 by { MultipleOfMod(k - q * c); }
      CancelFactor(r, k);
    }
  }

  lemma MultipleOfMod(x: int)
    ensures (MOD * x) % MOD == 0
  {
  }

  /** t is s with exactly the two positions i < j changed. */
  ghost predicate DifferAt(s: seq<byte>, t: seq<byte>, i: nat, j: nat)
  {
    && |s| == |t| && i <= j < |s|
    && s[i] != t[i] && s[j] != t[j]
    && forall k :: 0 <= k < |s| && k != i && k != j ==> s[k] == t[k]
  }

  function Delta(s: seq<byte>, t: seq<byte>, i: nat): (d: int)
    requires i < |s| && i < |t|
    ensures -255 <= d <= 255 && (d == 0 <==> s[i] == t[i])
  {
    t[i] as int - s[i] as int
  }

  /** A single changed byte always changes the checksum. */
  lemma OneByteDetected(s: seq<byte>, t: seq<byte>, i: nat)
    requires DifferAt(s, t, i, i)
    ensures Checksum(s) != Checksum(t)
  {
    assert t == s[i := t[i]];
    hide Checksum, Sum, Weighted;
    SumsUpdate(s, i, t[i]);
    ChecksumsAgree(s, t);
    SmallResidue(t[i] as int - s[i]);
  }

  /** Two changed bytes go undetected exactly when the changes cancel and the
      positions are a multiple of 65521 apart. */
  lemma TwoBytesDetected(s: seq<byte>, t: seq<byte>, i: nat, j: nat)
    requires DifferAt(s, t, i, j) && i < j
    ensures Checksum(s) == Checksum(t) <==> Delta(s, t, i) + Delta(s, t, j) == 0 && (j - i) % MOD == 0
  {
    hide Checksum, Sum, Weighted, Delta;
    TwoByteSums(s, t, i, j);
    ChecksumsAgree(s, t);
    TwoChangesCancel(|s| - i, |s| - j, Delta(s, t, i), Delta(s, t, j));
    assert |s| - i - (|s| - j) == j - i;
  }

  /** Two such strings: a one moved by 65521 places among zeros. */
  lemma MissedChange()
    ensures exists s, t :: DifferAt(s, t, 0, 65521) && Checksum(s) == Checksum(t)
  {
    var s: seq<byte> := seq(65522, i => if i == 0 then 1 else 0);
    var t: seq<byte> := seq(65522, i => if i == 65521 then 1 else 0);
    assert DifferAt(s, t, 0, 65521) && Delta(s, t, 0) + Delta(s, t, 65521) == 0;
    hide DifferAt, Delta, Checksum;
    TwoBytesDetected(s, t, 0, 65521);
    assert (65521 - 0) % MOD == 0;
  }

  /** The effect of changes d and e with weights x and y on the two sums. */
  lemma TwoChangesCancel(x: int, y: int, d: int, e: int)
    requires d != 0 && -255 <= d <= 255 && -255 <= e <= 255 && y <= x
    ensures (d + e) % MOD == 0 && (x * d + y * e) % MOD == 0 <==> d + e == 0 && (x - y) % MOD == 0
  {
    SmallResidue(d + e);
    if d + e == 0 {
      assert e == -d;
      Telescope(x, y, d);
      ProductVanishes(x - y, d);
    }
  }

  lemma SmallResidue(x: int)
    requires -510 <= x <= 510
    ensures x % MOD == 0 <==> x == 0
  {
  }

  lemma Telescope(x: int, y: int, d: int)
    ensures x * d + y * -d == (x - y) * d
  {
  }

  lemma TwoByteSums(s: seq<byte>, t: seq<byte>, i: nat, j: nat)
    requires DifferAt(s, t, i, j) && i < j
    ensures Sum(t) - Sum(s) == Delta(s, t, i) + Delta(s, t, j)
    ensures Weighted(t) - Weighted(s) == (|s| - i) * Delta(s, t, i) + (|s| - j) * Delta(s, t, j)
  {
    var m := s[i := t[i]];
    assert t == m[j := t[j]];
    SumsUpdate(s, i, t[i]);
    SumsUpdate(m, j, t[j]);
  }

  lemma ProductVanishes(k: nat, d: int)
    requires d != 0 && -255 <= d <= 255
    ensures (k * d) % MOD == 0 <==> k % MOD == 0
  {
    if k % MOD == 0 {
      MultipleVanishes(k, d);
    } else if (k * d) % MOD == 0 {
      DifferenceCancels(k, d);
    }
  }

  lemma MultipleVanishes(k: int, d: int)
    requires k % MOD == 0
    ensures (k * d) % MOD == 0
  {
    var c := k / MOD;
    calc {
      k * d;
      (MOD * c) * d;
      MOD * (c * d);
    }
    MultipleOfMod(c * d);
  }

  lemma DifferenceCancels(k: int, d: int)
    requires d != 0 && -255 <= d <= 255 && (k * d) % MOD == 0
    ensures k % MOD == 0
  {
    if d > 0 {
      assert d * k == k * d;
      CancelFactor(d, k);
    } else {
      assert (-d) * k == -(k * d);
      NegatedMultiple(k * d);
      CancelFactor(-d, k);
    }
  }

  lemma NegatedMultiple(x: int)
    requires x % MOD == 0
    ensures (-x) % MOD == 0
  {
  }

  /** One or two changed bytes within any window shorter than 65521 are always detected. */
  lemma NearbyChangesDetected(s: seq<byte>, t: seq<byte>, i: nat, j: nat)
    requires DifferAt(s, t, i, j) && j - i < MOD
    ensures Checksum(s) != Checksum(t)
  {
    if i == j { OneByteDetected(s, t, i); } else { TwoBytesDetected(s, t, i, j); }
  }

  lemma DifferBehindPrefix(pre: seq<byte>, s: seq<byte>, t: seq<byte>, i: nat, j: nat)
    requires DifferAt(s, t, i, j)
    ensures DifferAt(pre + s, pre + t, |pre| + i, |pre| + j)
  {
  }
}
