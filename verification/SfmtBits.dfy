/** What the recursion of SFMT computes (SFMT-common.h): its two long shifts as arithmetic on 128-bit numbers, and the
    whole of it bit by bit. */
module SfmtBits {
  import opened Common
  import opened Sfmt

  // ---------------------------------------------------------------- bits

  ghost predicate At(u: bv32, x: bv8) {
    x < 32 && forall k {:trigger Open(k)} :: Open(k) ==> (u >> x) & 1 == 1
  }

  /** A number below 256 as a shift count. */
  ghost function Count(j: nat): (x: bv8)
    requires j < 256
    ensures x as int == j
  {
    if j == 0 then 0 else Count(j - 1) + 1
  }

  /** Bit j of a 32-bit word. */
  ghost predicate Bit32(u: bv32, j: nat) {
    j < 32 && At(u, Count(j))
  }

  /** Bit i of a 128-bit word, the lowest bit of the first lane being bit 0; there are none from 128 on. */
  ghost predicate Bit(w: W128, i: nat) {
    i < 128 && forall k {:trigger Unfold(k)} :: Unfold(k) ==> Bit32(Lane32(w, i / 32), i % 32)
  }

  lemma Order(x: bv8, y: bv8)
    ensures x < y <==> x as int < y as int
  {
  }

  lemma Later8(x: bv8, y: bv8)
    requires y as int == x as int + 8
    ensures y == x + 8
  {
  }

  lemma Later11(x: bv8, y: bv8)
    requires y as int == x as int + 11
    ensures y == x + 11
  {
  }

  lemma Later18(x: bv8, y: bv8)
    requires y as int == x as int + 18
    ensures y == x + 18
  {
  }

  lemma Later24(x: bv8, y: bv8)
    requires y as int == x as int + 24
    ensures y == x + 24
  {
  }

  // ---------------------------------------------------------------- the long shifts

  /** One lane of a left shift by a byte: v and what comes in from u below it. */
  ghost function Shl(u: bv32, v: bv32): bv32 {
    (v << 8) | (u >> 24)
  }

  /** One lane of a right shift by a byte: u and what comes in from v above it. */
  ghost function Shr(u: bv32, v: bv32): bv32 {
    (u >> 8) | (v << 24)
  }

  lemma LeftLow(u0: bv32, u1: bv32)
    ensures var l := ((u1 as bv64) << 32) | u0 as bv64;
            ((l << 8) & 0xffff_ffff) as bv32 == Shl(0, u0) && ((l << 8) >> 32) as bv32 == Shl(u0, u1)
  {
  }

  lemma LeftHigh(u0: bv32, u1: bv32, u2: bv32, u3: bv32)
    ensures var l, h := ((u1 as bv64) << 32) | u0 as bv64, ((u3 as bv64) << 32) | u2 as bv64;
            var r := (h << 8) | (l >> 56);
            (r & 0xffff_ffff) as bv32 == Shl(u1, u2) && (r >> 32) as bv32 == Shl(u2, u3)
  {
  }

  lemma ShiftLeftLanes(a: W128)
    ensures ShiftLeft(a) == W128(Shl(0, a.u0), Shl(a.u0, a.u1), Shl(a.u1, a.u2), Shl(a.u2, a.u3))
  {
    LeftLow(a.u0, a.u1);
    LeftHigh(a.u0, a.u1, a.u2, a.u3);
  }

  lemma RightHigh(u2: bv32, u3: bv32)
    ensures var h := ((u3 as bv64) << 32) | u2 as bv64;
            ((h >> 8) & 0xffff_ffff) as bv32 == Shr(u2, u3) && ((h >> 8) >> 32) as bv32 == Shr(u3, 0)
  {
  }

  lemma RightLow(u0: bv32, u1: bv32, u2: bv32, u3: bv32)
    ensures var l, h := ((u1 as bv64) << 32) | u0 as bv64, ((u3 as bv64) << 32) | u2 as bv64;
            var r := (l >> 8) | (h << 56);
            (r & 0xffff_ffff) as bv32 == Shr(u0, u1) && (r >> 32) as bv32 == Shr(u1, u2)
  {
  }

  lemma ShiftRightLanes(c: W128)
    ensures ShiftRight(c) == W128(Shr(c.u0, c.u1), Shr(c.u1, c.u2), Shr(c.u2, c.u3), Shr(c.u3, 0))
  {
    RightHigh(c.u2, c.u3);
    RightLow(c.u0, c.u1, c.u2, c.u3);
  }

  lemma ShlFirst(u: bv32, v: bv32, x: bv8)
    requires x < 8
    ensures At(Shl(u, v), x) <==> At(u, x + 24)
  {
    assert Open(0);
  }

  lemma ShlRest(u: bv32, v: bv32, y: bv8)
    requires y < 24
    ensures At(Shl(u, v), y + 8) <==> At(v, y)
  {
    assert Open(0);
  }

  lemma ShlBit(u: bv32, v: bv32, j: nat)
    requires j < 32
    ensures Bit32(Shl(u, v), j) <==> if j < 8 then Bit32(u, j + 24) else Bit32(v, j - 8)
  {
    if j < 8 {
      Later24(Count(j), Count(j + 24));
      Order(Count(j), 8);
      ShlFirst(u, v, Count(j));
    } else {
      Later8(Count(j - 8), Count(j));
      Order(Count(j - 8), 24);
      ShlRest(u, v, Count(j - 8));
    }
  }

  lemma ShrAt(u: bv32, v: bv32, x: bv8, y: bv8)
    requires x < 8 && y < 24
    ensures (At(Shr(u, v), x + 24) <==> At(v, x)) && (At(Shr(u, v), y) <==> At(u, y + 8))
  {
    assert Open(0);
  }

  lemma ShrBit(u: bv32, v: bv32, j: nat)
    requires j < 32
    ensures Bit32(Shr(u, v), j) <==> if j < 24 then Bit32(u, j + 8) else Bit32(v, j - 24)
  {
    if j < 24 {
      Later8(Count(j), Count(j + 8));
      Order(Count(j), 24);
      ShrAt(u, v, 0, Count(j));
    } else {
      Later24(Count(j - 24), Count(j));
      Order(Count(j - 24), 8);
      ShrAt(u, v, Count(j - 24), 0);
    }
  }

  lemma ZeroAt(x: bv8)
    ensures !At(0, x)
  {
    assert Open(0);
  }

  lemma ZeroBit(j: nat)
    ensures !Bit32(0, j)
  {
    if j < 32 { ZeroAt(Count(j)); }
  }

  lemma InLane(w: W128, k: nat, j: nat, i: nat)
    requires k < 4 && j < 32 && i == 32 * k + j
    ensures Bit(w, i) <==> Bit32(Lane32(w, k), j)
  {
    assert Unfold(0);
    assert i / 32 == k && i % 32 == j;
  }

  lemma LeftLane(a: W128, k: nat)
    requires k < 4
    ensures Lane32(ShiftLeft(a), k) == Shl(if k == 0 then 0 else Lane32(a, k - 1), Lane32(a, k))
  {
    ShiftLeftLanes(a);
  }

  lemma RightLane(c: W128, k: nat)
    requires k < 4
    ensures Lane32(ShiftRight(c), k) == Shr(Lane32(c, k), if k == 3 then 0 else Lane32(c, k + 1))
  {
    ShiftRightLanes(c);
  }

  /** lshift128 moves every bit up by eight. */
  lemma {:induction false} ShiftLeftBit(a: W128, i: nat)
    requires i < 128
    ensures Bit(ShiftLeft(a), i) <==> i >= 8 && Bit(a, i - 8)
  {
    var k, j := i / 32, i % 32;
    LeftLane(a, k);
    InLane(ShiftLeft(a), k, j, i);
    ShlBit(if k == 0 then 0 else Lane32(a, k - 1), Lane32(a, k), j);
    if j >= 8 {
      InLane(a, k, j - 8, i - 8);
    } else if k == 0 {
      ZeroBit(j + 24);
    } else {
      InLane(a, k - 1, j + 24, i - 8);
    }
  }

  /** rshift128 moves every bit down by eight. */
  lemma {:induction false} ShiftRightBit(c: W128, i: nat)
    requires i < 128
    ensures Bit(ShiftRight(c), i) <==> Bit(c, i + 8)
  {
    var k, j := i / 32, i % 32;
    RightLane(c, k);
    InLane(ShiftRight(c), k, j, i);
    ShrBit(Lane32(c, k), if k == 3 then 0 else Lane32(c, k + 1), j);
    if j < 24 {
      InLane(c, k, j + 8, i + 8);
    } else if k == 3 {
      ZeroBit(j - 24);
    } else {
      InLane(c, k + 1, j - 24, i + 8);
    }
  }

  // ---------------------------------------------------------------- numbers

  ghost function Bits(w: W128): (r: seq<bool>)
    ensures |r| == 128 && forall i :: 0 <= i < 128 ==> r[i] == Bit(w, i)
  {
    seq(128, i requires 0 <= i => Bit(w, i))
  }

  /** The number that the bits lo..hi-1 make up. */
  ghost function Part(s: seq<bool>, lo: nat, hi: nat): (r: nat)
    requires lo <= hi <= |s|
    decreases hi - lo
  {
    if lo == hi then 0 else (if s[lo] then 1 else 0) + 2 * Part(s, lo + 1, hi)
  }

  /** The number that all 128 bits make up. */
  ghost function Number(w: W128): (r: nat) {
    Part(Bits(w), 0, |Bits(w)|)
  }

  lemma {:induction false} PartSplit(s: seq<bool>, lo: nat, mid: nat, hi: nat)
    requires lo <= mid <= hi <= |s|
    ensures Part(s, lo, hi) == Part(s, lo, mid) + Pow2(mid - lo) * Part(s, mid, hi)
    decreases mid - lo
  {
    if lo < mid {
      PartSplit(s, lo + 1, mid, hi);
      Doubled(Pow2(mid - lo - 1), Part(s, mid, hi));
    }
  }

  lemma Doubled(x: int, y: int)
    ensures 2 * (x * y) == (2 * x) * y
  {
  }

  lemma {:induction false} PartBound(s: seq<bool>, lo: nat, hi: nat)
    requires lo <= hi <= |s|
    ensures Part(s, lo, hi) < Pow2(hi - lo)
    decreases hi - lo
  {
    if lo < hi {
      PartBound(s, lo + 1, hi);
    }
  }

  lemma {:induction false} PartMoved(s: seq<bool>, t: seq<bool>, lo: nat, hi: nat, up: nat)
    requires lo <= hi <= |t| && hi + up <= |s| && forall i :: lo <= i < hi ==> s[i + up] == t[i]
    ensures Part(s, lo + up, hi + up) == Part(t, lo, hi)
    decreases hi - lo
  {
    if lo < hi {
      PartMoved(s, t, lo + 1, hi, up);
    }
  }

  lemma {:induction false} PartNone(s: seq<bool>, lo: nat, hi: nat)
    requires lo <= hi <= |s| && forall i :: lo <= i < hi ==> !s[i]
    ensures Part(s, lo, hi) == 0
    decreases hi - lo
  {
    if lo < hi {
      PartNone(s, lo + 1, hi);
    }
  }

  ghost function LaneBits(u: bv32): (r: seq<bool>)
    ensures |r| == 32 && forall j :: 0 <= j < 32 ==> r[j] == Bit32(u, j)
  {
    seq(32, j requires 0 <= j => Bit32(u, j))
  }

  /** The 32-bit number in a lane. */
  ghost function LaneNumber(u: bv32): (r: nat) {
    Part(LaneBits(u), 0, |LaneBits(u)|)
  }

  lemma {:induction false} LanePart(w: W128, k: nat, lo: nat, hi: nat)
    requires k < 4 && lo == 32 * k && hi == lo + 32
    ensures Part(Bits(w), lo, hi) == LaneNumber(Lane32(w, k))
  {
    forall j | 0 <= j < hi - lo
      ensures Bits(w)[j + lo] == LaneBits(Lane32(w, k))[j]
    {
      InLane(w, k, j, j + lo);
    }
    PartMoved(Bits(w), LaneBits(Lane32(w, k)), 0, hi - lo, lo);
  }

  ghost function FourDigits(base: nat, d0: nat, d1: nat, d2: nat, d3: nat): nat {
    d0 + base * (d1 + base * (d2 + base * d3))
  }

  lemma {:induction false} FourParts(s: seq<bool>, n: nat)
    requires |s| == 4 * n
    ensures Part(s, 0, 4 * n) == FourDigits(Pow2(n), Part(s, 0, n), Part(s, n, 2 * n), Part(s, 2 * n, 3 * n),
        Part(s, 3 * n, 4 * n))
  {
    PartSplit(s, 0, n, 4 * n);
    PartSplit(s, n, 2 * n, 4 * n);
    PartSplit(s, 2 * n, 3 * n, 4 * n);
  }

  /** The 128-bit number of a word has its lanes as digits to the base 2^32. */
  lemma {:induction false} NumberOfLanes(w: W128)
    ensures Number(w) == FourDigits(Pow2(32), LaneNumber(w.u0), LaneNumber(w.u1), LaneNumber(w.u2), LaneNumber(w.u3))
  {
    var n := |LaneBits(w.u0)|;
    FourParts(Bits(w), n);
    LanePart(w, 0, 0, n);
    LanePart(w, 1, n, 2 * n);
    LanePart(w, 2, 2 * n, 3 * n);
    LanePart(w, 3, 3 * n, 4 * n);
  }

  lemma NoMultiple(d: int, m: int)
    requires d != 0 && m > 0
    ensures d * m >= m || d * m <= -m
  {
    if d > 0 {
      assert (d - 1) * m >= 0;
    } else {
      assert (-d - 1) * m >= 0;
    }
  }

  lemma ModUnique(q: int, m: int, r: int)
    requires 0 <= r < m
    ensures (r + m * q) % m == r && (r + m * q) / m == q
  {
    var n := r + m * q;
    var d := n / m - q;
    assert d * m + n % m == r;
    if d != 0 { NoMultiple(d, m); }
  }

  /** Of a number times m, its part high times p is lost modulo m p. */
  lemma TopLost(low: nat, p: nat, high: nat, m: nat)
    requires low < p && m > 0
    ensures 0 < m * p && m * (low + p * high) % (m * p) == m * low
  {
    assert m * low + m * (p - low) == m * p;
    assert m * (p - low) >= m by {
      assert m * (p - low - 1) >= 0;
    }
    assert m * (low + p * high) == m * low + (m * p) * high;
    ModUnique(high, m * p, m * low);
  }

  lemma {:induction false} MovedUp(s: seq<bool>, t: seq<bool>, m: nat, n: nat)
    requires |s| == |t| == n + m && forall i :: 0 <= i < n + m ==> (s[i] <==> i >= m && t[i - m])
    ensures Part(s, 0, n + m) == Pow2(m) * Part(t, 0, n + m) % Pow2(n + m)
  {
    Pow2Add(m, n);
    PartSplit(s, 0, m, n + m);
    PartNone(s, 0, m);
    PartMoved(s, t, 0, n, m);
    PartSplit(t, 0, n, n + m);
    PartBound(t, 0, n);
    TopLost(Part(t, 0, n), Pow2(n), Part(t, n, n + m), Pow2(m));
  }

  lemma {:induction false} MovedDown(s: seq<bool>, t: seq<bool>, m: nat, n: nat)
    requires |s| == |t| == n + m && forall i :: 0 <= i < n + m ==> (s[i] <==> i < n && t[i + m])
    ensures Part(s, 0, n + m) == Part(t, 0, n + m) / Pow2(m)
  {
    PartSplit(s, 0, n, n + m);
    PartNone(s, n, n + m);
    PartMoved(t, s, 0, n, m);
    PartSplit(t, 0, m, n + m);
    PartBound(t, 0, m);
    ModUnique(Part(t, m, n + m), Pow2(m), Part(t, 0, m));
  }

  /** lshift128 by one byte is multiplication by 256 modulo 2^128. */
  lemma {:induction false} ShiftLeftNumber(a: W128)
    ensures Number(ShiftLeft(a)) == 256 * Number(a) % Pow2(128)
  {
    var s, t := Bits(ShiftLeft(a)), Bits(a);
    forall i | 0 <= i < 128
      ensures s[i] <==> i >= 8 && t[i - 8]
    {
      ShiftLeftBit(a, i);
    }
    Pow2Values();
    MovedUp(s, t, 8, 120);
  }

  /** rshift128 by one byte is division by 256. */
  lemma {:induction false} ShiftRightNumber(c: W128)
    ensures Number(ShiftRight(c)) == Number(c) / 256
  {
    var s, t := Bits(ShiftRight(c)), Bits(c);
    forall i | 0 <= i < 128
      ensures s[i] <==> i < 120 && t[i + 8]
    {
      ShiftRightBit(c, i);
    }
    Pow2Values();
    MovedDown(s, t, 8, 120);
  }

  // ---------------------------------------------------------------- the recursion

  ghost function Xor(p: bool, q: bool): bool {
    p != q
  }

  const MASK: W128 := W128(0xdfff_ffef, 0xddfe_cb7f, 0xbffa_ffff, 0xbfff_fff6)

  lemma ThreeAt(p: bv32, q: bv32, r: bv32, i: bv8)
    requires i < 32
    ensures At(p ^ q ^ r, i) <==> Xor(Xor(At(p, i), At(q, i)), At(r, i))
  {
    assert Open(0);
  }

  lemma FiveAt(p: bv32, q: bv32, r: bv32, s: bv32, t: bv32, i: bv8)
    requires i < 32
    ensures At(p ^ q ^ r ^ s ^ t, i) <==> Xor(Xor(Xor(Xor(At(p, i), At(q, i)), At(r, i)), At(s, i)), At(t, i))
  {
    ThreeAt(p, q, r, i);
    ThreeAt(p ^ q ^ r, s, t, i);
  }

  lemma MaskedAt(b: bv32, mask: bv32, i: bv8)
    requires i < 32
    ensures At((b >> 11) & mask, i) <==> i < 21 && At(mask, i) && At(b, i + 11)
  {
    assert Open(0);
  }

  lemma RaisedAt(d: bv32, i: bv8)
    requires i < 32
    ensures At(d << 18, i) <==> i >= 18 && At(d, i - 18)
  {
    assert Open(0);
  }

  lemma MaskedBit(b: bv32, mask: bv32, j: nat)
    requires j < 32
    ensures Bit32((b >> 11) & mask, j) <==> Bit32(mask, j) && Bit32(b, j + 11)
  {
    MaskedAt(b, mask, Count(j));
    Order(Count(j), 21);
    if j < 21 { Later11(Count(j), Count(j + 11)); }
  }

  lemma RaisedBit(d: bv32, j: nat)
    requires j < 32
    ensures Bit32(d << 18, j) <==> j >= 18 && Bit32(d, j - 18)
  {
    RaisedAt(d, Count(j));
    Order(Count(j), 18);
    if j >= 18 { Later18(Count(j - 18), Count(j)); }
  }

  lemma FiveBit(p: bv32, q: bv32, r: bv32, s: bv32, t: bv32, j: nat)
    requires j < 32
    ensures Bit32(p ^ q ^ r ^ s ^ t, j) <==>
      Xor(Xor(Xor(Xor(Bit32(p, j), Bit32(q, j)), Bit32(r, j)), Bit32(s, j)), Bit32(t, j))
  {
    Order(Count(j), 32);
    FiveAt(p, q, r, s, t, Count(j));
  }

  lemma LaneBit(a: bv32, x: bv32, b: bv32, mask: bv32, y: bv32, d: bv32, j: nat)
    requires j < 32
    ensures Bit32(RecurLane(a, x, b, mask, y, d), j) <==>
      Xor(Xor(Xor(Xor(Bit32(a, j), Bit32(x, j)), Bit32(mask, j) && Bit32(b, j + 11)), Bit32(y, j)),
          j >= 18 && Bit32(d, j - 18))
  {
    FiveBit(a, x, (b >> 11) & mask, y, d << 18, j);
    MaskedBit(b, mask, j);
    RaisedBit(d, j);
  }

  lemma RecurLanes(a: W128, b: W128, c: W128, d: W128, k: nat)
    requires k < 4
    ensures Lane32(Recur(a, b, c, d), k) == RecurLane(Lane32(a, k), Lane32(ShiftLeft(a), k), Lane32(b, k), Lane32(MASK, k),
        Lane32(ShiftRight(c), k), Lane32(d, k))
  {
  }

  lemma LaneOfRecur(a: W128, b: W128, c: W128, d: W128, k: nat, j: nat)
    requires k < 4 && j < 32
    ensures Bit32(Lane32(Recur(a, b, c, d), k), j) <==>
      Xor(Xor(Xor(Xor(Bit32(Lane32(a, k), j), Bit32(Lane32(ShiftLeft(a), k), j)),
          Bit32(Lane32(MASK, k), j) && Bit32(Lane32(b, k), j + 11)), Bit32(Lane32(ShiftRight(c), k), j)),
          j >= 18 && Bit32(Lane32(d, k), j - 18))
  {
    RecurLanes(a, b, c, d, k);
    LaneBit(Lane32(a, k), Lane32(ShiftLeft(a), k), Lane32(b, k), Lane32(MASK, k), Lane32(ShiftRight(c), k),
        Lane32(d, k), j);
  }

  lemma BitInLane(r: W128, a: W128, x: W128, b: W128, m: W128, y: W128, d: W128, k: nat, j: nat, i: nat)
    requires k < 4 && j < 32 && i == 32 * k + j
    requires Bit32(Lane32(r, k), j) <==>
      Xor(Xor(Xor(Xor(Bit32(Lane32(a, k), j), Bit32(Lane32(x, k), j)), Bit32(Lane32(m, k), j) && Bit32(Lane32(b, k), j + 11)),
          Bit32(Lane32(y, k), j)), j >= 18 && Bit32(Lane32(d, k), j - 18))
    ensures Bit(r, i) <==>
      Xor(Xor(Xor(Xor(Bit(a, i), Bit(x, i)), j < 21 && Bit(m, i) && Bit(b, i + 11)), Bit(y, i)), j >= 18 && Bit(d, i - 18))
  {
    InLane(r, k, j, i);
    InLane(a, k, j, i);
    InLane(x, k, j, i);
    InLane(m, k, j, i);
    InLane(y, k, j, i);
    if j < 21 { InLane(b, k, j + 11, i + 11); }
    if j >= 18 { InLane(d, k, j - 18, i - 18); }
  }

  /** do_recursion bit by bit: bit i is the sum modulo 2 of bits i and i-8 of a, bit i+8 of c and, within the same lane,
      bit i+11 of b where the mask has a bit, and bit i-18 of d. */
  lemma {:induction false} RecurBit(a: W128, b: W128, c: W128, d: W128, i: nat)
    requires i < 128
    ensures Bit(Recur(a, b, c, d), i) <==>
      Xor(Xor(Xor(Xor(Bit(a, i), i >= 8 && Bit(a, i - 8)), i % 32 < 21 && Bit(MASK, i) && Bit(b, i + 11)), Bit(c, i + 8)),
          i % 32 >= 18 && Bit(d, i - 18))
  {
    LaneOfRecur(a, b, c, d, i / 32, i % 32);
    BitInLane(Recur(a, b, c, d), a, ShiftLeft(a), b, MASK, ShiftRight(c), d, i / 32, i % 32, i);
    ShiftLeftBit(a, i);
    ShiftRightBit(c, i);
  }
}
