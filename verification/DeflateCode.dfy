/** The prefix codes of deflate (section 3.2.2 of RFC 1951), as inflate_table of inftrees.c reads them: bits come
    first bit lowest, and a length of zero means that a symbol has no code. */
module DeflateCode {
  import opened Common
  import opened BitStream
  import opened Bwt
  import opened CanonicalCode

  const MAXBITS := 15

  // ---------------------------------------------------------------- bit strings read first bit lowest

  ghost predicate Bin(b: seq<int>) {
    forall k :: 0 <= k < |b| ==> 0 <= b[k] <= 1
  }

  /** The number whose lowest bit is the first of b. */
  ghost function Val(b: seq<int>): (r: nat)
    requires Bin(b)
  {
    if b == [] then 0 else b[0] + 2 * Val(b[1..])
  }

  lemma {:induction false} ValBelow(b: seq<int>)
    requires Bin(b)
    ensures Val(b) < Pow2(|b|)
  {
    if b != [] {
      ValBelow(b[1..]);
    }
  }

  lemma {:induction false} ValInjective(a: seq<int>, b: seq<int>)
    requires Bin(a) && Bin(b) && |a| == |b| && Val(a) == Val(b)
    ensures a == b
  {
    if a != [] {
      ValInjective(a[1..], b[1..]);
      assert a == [a[0]] + a[1..] && b == [b[0]] + b[1..];
    }
  }

  /** Shifting drops bits from the front, masking keeps them. */
  lemma {:induction false} ValParts(b: seq<int>, n: nat)
    requires Bin(b) && n <= |b|
    ensures Shr(Val(b), n) == Val(b[n..]) && Low(Val(b), n) == Val(b[..n])
  {
    if n > 0 {
      var c := b[1..];
      assert c[n - 1..] == b[n..] && b[..n][1..] == c[..n - 1];
      ValParts(c, n - 1);
      assert Val(b) / 2 == Val(c) && Val(b) % 2 == b[0];
    } else {
      assert b[0..] == b && b[..0] == [];
    }
  }

  lemma {:induction false} ValConcat(a: seq<int>, b: seq<int>)
    requires Bin(a) && Bin(b)
    ensures Bin(a + b) && Val(a + b) == Val(a) + Shl(Val(b), |a|)
  {
    if a == [] {
      assert a + b == b;
    } else {
      assert (a + b)[1..] == a[1..] + b;
      ValConcat(a[1..], b);
    }
  }

  ghost function Zeros(n: nat): (r: seq<int>)
    ensures |r| == n && Bin(r)
  {
    seq(n, i => 0)
  }

  lemma {:induction false} ValZeros(n: nat)
    ensures Val(Zeros(n)) == 0
  {
    if n > 0 {
      assert Zeros(n)[1..] == Zeros(n - 1);
      ValZeros(n - 1);
    }
  }

  lemma {:induction false} ValPadded(b: seq<int>, n: nat)
    requires Bin(b)
    ensures Bin(b + Zeros(n)) && Val(b + Zeros(n)) == Val(b)
  {
    ValConcat(b, Zeros(n));
    ValZeros(n);
    ShlZero(|b|);
  }

  lemma {:induction false} ShlZero(n: nat)
    ensures Shl(0, n) == 0
    decreases n
  {
    if n > 0 {
      ShlZero(n - 1);
    }
  }

  lemma {:induction false} BitsBin(v: nat, n: nat)
    ensures Bin(Bits(v, n))
    decreases n
  {
    if n > 0 {
      BitsBin(v / 2, n - 1);
    }
  }

  /** The first zero bit from the end becomes one and the ones behind it become zero. */
  lemma {:induction false} BitsNext(v: nat, n: nat, j: int)
    requires -1 <= j < n && (forall i :: j < i < n ==> Bits(v, n)[i] == 1) && (j >= 0 ==> Bits(v, n)[j] == 0)
    ensures Bits(v + 1, n) == (if j >= 0 then Bits(v, n)[..j] + [1] else []) + Zeros(n - 1 - j)
    decreases n
  {
    if n > 0 {
      var b := Bits(v / 2, n - 1);
      assert Bits(v, n) == b + [v % 2];
      if j == n - 1 {
        assert (v + 1) / 2 == v / 2 && (v + 1) % 2 == 1;
        assert Bits(v, n)[..j] == b;
      } else {
        assert Bits(v, n)[n - 1] == 1;
        assert (v + 1) / 2 == v / 2 + 1 && (v + 1) % 2 == 0;
        forall i | j <= i < n - 1 && i >= 0
          ensures b[i] == Bits(v, n)[i]
        {
        }
        BitsNext(v / 2, n - 1, j);
        if j >= 0 { assert Bits(v, n)[..j] == b[..j]; }
        assert Zeros(n - 1 - j) == Zeros(n - 2 - j) + [0];
      }
    }
  }

  // ---------------------------------------------------------------- the lengths of a code

  /** The lengths with those of unused symbols put beyond the longest. */
  ghost function Used(lens: seq<int>): (r: seq<int>)
    ensures |r| == |lens|
    ensures forall i :: 0 <= i < |lens| ==> r[i] == if lens[i] == 0 then 16 else lens[i]
  {
    seq(|lens|, i requires 0 <= i < |lens| => if lens[i] == 0 then 16 else lens[i])
  }

  ghost predicate HasCode(g: seq<int>, s: int) {
    0 <= s < |g| && 1 <= g[s] <= MAXBITS
  }

  lemma {:induction false} UsedCount(lens: seq<int>, n: nat, l: int)
    requires n <= |lens| && Lengths(lens, 0, MAXBITS) && 1 <= l <= MAXBITS
    ensures CountTo(Used(lens), n, l) == CountTo(lens, n, l)
  {
    if n > 0 {
      UsedCount(lens, n - 1, l);
    }
  }

  /** What all codes take up of the 2^15 strings of MAXBITS bits. */
  ghost function Share(lens: seq<int>, n: nat): (r: nat)
    requires n <= |lens| && Lengths(lens, 0, MAXBITS)
  {
    if n == 0 then 0 else Share(lens, n - 1) + (if lens[n - 1] > 0 then Pow2(MAXBITS - lens[n - 1]) else 0)
  }

  /** The same for codes no longer than l. */
  ghost function ShareTo(g: seq<int>, n: nat, l: int): (r: nat)
    requires n <= |g| && Lengths(g, 1, 16) && l <= MAXBITS
  {
    if n == 0 then 0 else ShareTo(g, n - 1, l) + (if g[n - 1] <= l then Pow2(MAXBITS - g[n - 1]) else 0)
  }

  lemma {:induction false} ShareAll(lens: seq<int>, n: nat)
    requires n <= |lens| && Lengths(lens, 0, MAXBITS)
    ensures Lengths(Used(lens), 1, 16) && ShareTo(Used(lens), n, MAXBITS) == Share(lens, n)
  {
    if n > 0 {
      ShareAll(lens, n - 1);
    }
  }

  lemma {:induction false} ShareStep(g: seq<int>, n: nat, l: int)
    requires n <= |g| && Lengths(g, 1, 16) && 1 <= l <= MAXBITS
    ensures ShareTo(g, n, l) == ShareTo(g, n, l - 1) + Shl(CountTo(g, n, l), MAXBITS - l)
  {
    if n > 0 {
      ShareStep(g, n - 1, l);
      ShlAdd(CountTo(g, n - 1, l), 1, MAXBITS - l);
      ShlPow(1, MAXBITS - l);
    } else {
      ShlZero(MAXBITS - l);
    }
  }

  lemma {:induction false} ShareNone(g: seq<int>, n: nat)
    requires n <= |g| && Lengths(g, 1, 16)
    ensures ShareTo(g, n, 0) == 0 && CountTo(g, n, 0) == 0
  {
    if n > 0 {
      ShareNone(g, n - 1);
    }
  }

  ghost function End(g: seq<int>, l: nat): (r: nat) {
    First(g, l) + Cnt(g, l)
  }

  /** Where the codes of length l end tells the share of all codes up to that length. */
  lemma {:induction false} EndShare(g: seq<int>, l: nat)
    requires Lengths(g, 1, 16) && l <= MAXBITS
    ensures Shl(End(g, l), MAXBITS - l) == ShareTo(g, |g|, l)
    decreases l
  {
    if l == 0 {
      ShareNone(g, |g|);
      ShlZero(MAXBITS);
    } else {
      EndShare(g, l - 1);
      ShareStep(g, |g|, l);
      ShlAdd(First(g, l), Cnt(g, l), MAXBITS - l);
      ShlShl(End(g, l - 1), 1, MAXBITS - l);
      assert Shl(End(g, l - 1), 1) == 2 * Shl(End(g, l - 1), 0);
    }
  }

  lemma {:induction false} EndGrows(g: seq<int>, l: nat, m: nat)
    requires l <= m && End(g, l) > Pow2(l)
    ensures End(g, m) > Pow2(m)
    decreases m
  {
    if l < m {
      EndGrows(g, l, m - 1);
    }
  }

  /** The codes fit exactly when their share is no more than everything. */
  lemma {:induction false} FitsIffShare(lens: seq<int>)
    requires Lengths(lens, 0, MAXBITS)
    ensures Lengths(Used(lens), 1, 16) && End(Used(lens), MAXBITS) == Share(lens, |lens|)
    ensures Fits(Used(lens), MAXBITS) <==> Share(lens, |lens|) <= Pow2(MAXBITS)
  {
    var g := Used(lens);
    ShareAll(lens, |lens|);
    EndShare(g, MAXBITS);
    if Share(lens, |lens|) <= Pow2(MAXBITS) {
      forall l | 0 <= l <= MAXBITS
        ensures First(g, l) + Cnt(g, l) <= Pow2(l)
      {
        if End(g, l) > Pow2(l) { EndGrows(g, l, MAXBITS); }
      }
    } else {
      assert End(g, MAXBITS) > Pow2(MAXBITS);
    }
  }

  /** What is left of the codes of length l after max, when none is longer. */
  lemma {:induction false} EndBeyond(g: seq<int>, max: nat, l: nat)
    requires max <= l && forall m :: max < m <= l ==> Cnt(g, m) == 0
    ensures End(g, l) == Shl(End(g, max), l - max)
    decreases l
  {
    if max < l {
      EndBeyond(g, max, l - 1);
    }
  }

  // ---------------------------------------------------------------- every string begins with a code

  ghost function Num(b: seq<int>): (r: nat)
    requires Bin(b)
  {
    if b == [] then 0 else 2 * Num(b[..|b| - 1]) + b[|b| - 1]
  }

  lemma {:induction false} NumBits(b: seq<int>)
    requires Bin(b)
    ensures Bits(Num(b), |b|) == b && Num(b) < Pow2(|b|)
  {
    if b != [] {
      NumBits(b[..|b| - 1]);
      assert b == b[..|b| - 1] + [b[|b| - 1]];
    }
  }

  lemma {:induction false} RankWitness(s: seq<int>, n: nat, x: int, k: nat) returns (i: nat)
    requires n <= |s| && k < CountTo(s, n, x)
    ensures i < n && s[i] == x && CountTo(s, i, x) == k
  {
    if k < CountTo(s, n - 1, x) {
      i := RankWitness(s, n - 1, x, k);
    } else {
      i := n - 1;
    }
  }

  lemma {:induction false} CodeWitness(g: seq<int>, l: nat, c: nat) returns (s: nat)
    requires First(g, l) <= c < End(g, l)
    ensures s < |g| && g[s] == l && Code(g, s) == c
  {
    s := RankWitness(g, |g|, l, c - First(g, l));
  }

  lemma {:induction false} SomeCodeFrom(g: seq<int>, all: seq<int>, l: nat, max: nat) returns (s: nat)
    requires Bin(all) && l <= max <= |all| && Num(all[..l]) >= First(g, l) && End(g, max) == Pow2(max)
    ensures Begins(all, g, s) && l <= g[s] <= max
    decreases max - l
  {
    var c := Num(all[..l]);
    NumBits(all[..l]);
    if c < End(g, l) {
      s := CodeWitness(g, l, c);
      assert CodeBits(g, s) == all[..l];
    } else {
      assert l < max;
      assert all[..l + 1][..l] == all[..l];
      s := SomeCodeFrom(g, all, l + 1, max);
    }
  }

  /** With a complete code, every long enough string begins with one of its codes. */
  lemma {:induction false} SomeCode(g: seq<int>, all: seq<int>, max: nat) returns (s: nat)
    requires Lengths(g, 1, 16) && Bin(all) && max <= MAXBITS && max <= |all| && End(g, max) == Pow2(max)
    ensures Begins(all, g, s) && HasCode(g, s) && g[s] <= max
  {
    assert all[..0] == [];
    s := SomeCodeFrom(g, all, 0, max);
  }

  // ---------------------------------------------------------------- the order of the codes

  /** The first r bits of a code as a number. */
  ghost function Top(g: seq<int>, s: nat, r: nat): (t: nat)
    requires s < |g| && r <= g[s]
  {
    Shr(Code(g, s), g[s] - r)
  }

  lemma {:induction false} TopBitsOf(g: seq<int>, s: nat, r: nat)
    requires HasCode(g, s) && r <= g[s] && Fits(g, MAXBITS)
    ensures CodeBits(g, s)[..r] == Bits(Top(g, s, r), r) && Top(g, s, r) < Pow2(r)
  {
    CodeRange(g, MAXBITS, s);
    BitsTop(Code(g, s), r, g[s] - r);
    ShrBelow(Code(g, s), r, g[s] - r);
    var all := CodeBits(g, s);
    assert all == all[..r] + all[r..];
  }

  lemma {:induction false} ShrMonotone(a: nat, b: nat, n: nat)
    requires a <= b
    ensures Shr(a, n) <= Shr(b, n)
    decreases n
  {
    if n > 0 {
      ShrMonotone(a / 2, b / 2, n - 1);
    }
  }

  lemma {:induction false} ShrShr(a: nat, m: nat, n: nat)
    ensures Shr(Shr(a, m), n) == Shr(a, m + n)
    decreases m
  {
    if m > 0 {
      ShrShr(a / 2, m - 1, n);
    }
  }

  lemma {:induction false} RowsInLengthOrder(g: seq<int>, a: nat, b: nat)
    requires a < |g| && b < |g| && RowOf(g, a) < RowOf(g, b)
    ensures g[a] < g[b] || (g[a] == g[b] && CountTo(g, a, g[a]) < CountTo(g, b, g[a]))
  {
    RowRange(g, a);
    RowRange(g, b);
    if g[a] > g[b] { BelowMonotone(g, |g|, g[b] + 1, g[a]); }
  }

  /** Later symbols have later codes, compared bit by bit from the first. */
  lemma {:induction false} TopMonotone(g: seq<int>, a: nat, b: nat, r: nat)
    requires HasCode(g, a) && HasCode(g, b) && RowOf(g, a) < RowOf(g, b) && r <= g[a] && r <= g[b]
    ensures Top(g, a, r) <= Top(g, b, r)
  {
    RowsInLengthOrder(g, a, b);
    if g[a] == g[b] {
      ShrMonotone(Code(g, a), Code(g, b), g[a] - r);
    } else {
      CountMonotone(g, a + 1, |g|, g[a]);
      AboveShorter(g, Code(g, b), g[b], g[a]);
      ShrShr(Code(g, b), g[b] - g[a], g[a] - r);
      ShrMonotone(Code(g, a), Shr(Code(g, b), g[b] - g[a]), g[a] - r);
    }
  }

  lemma {:induction false} SameTop(g: seq<int>, a: nat, b: nat, r: nat)
    requires Fits(g, MAXBITS) && HasCode(g, a) && HasCode(g, b) && r <= g[a] && r <= g[b]
    ensures CodeBits(g, a)[..r] == CodeBits(g, b)[..r] <==> Top(g, a, r) == Top(g, b, r)
  {
    TopBitsOf(g, a, r);
    TopBitsOf(g, b, r);
    if CodeBits(g, a)[..r] == CodeBits(g, b)[..r] {
      BitsInjective(Top(g, a, r), Top(g, b, r), r);
    }
  }

  lemma {:induction false} TopInOrder(g: seq<int>, a: nat, b: nat, r: nat)
    requires HasCode(g, a) && HasCode(g, b) && RowOf(g, a) <= RowOf(g, b) && r <= g[a] && r <= g[b]
    ensures Top(g, a, r) <= Top(g, b, r)
  {
    if RowOf(g, a) < RowOf(g, b) {
      TopMonotone(g, a, b, r);
    } else if a < b {
      RowInjective(g, a, b);
    } else if b < a {
      RowInjective(g, b, a);
    }
  }

  /** The codes that share their first r bits are neighbours. */
  lemma {:induction false} Between(g: seq<int>, a: nat, b: nat, c: nat, r: nat)
    requires Fits(g, MAXBITS) && HasCode(g, a) && HasCode(g, b) && HasCode(g, c)
    requires RowOf(g, a) <= RowOf(g, b) <= RowOf(g, c) && r <= g[a] && r <= g[b] && r <= g[c]
    requires CodeBits(g, a)[..r] == CodeBits(g, c)[..r]
    ensures CodeBits(g, b)[..r] == CodeBits(g, c)[..r]
  {
    SameTop(g, a, c, r);
    TopInOrder(g, a, b, r);
    TopInOrder(g, b, c, r);
    SameTop(g, b, c, r);
  }
}
