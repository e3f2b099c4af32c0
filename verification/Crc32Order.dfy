/** Why the table of powers of x may wrap round (crc32.c): modulo the CRC-32 polynomial, x^(2^32) is x. */
module Crc32Order {
  import opened Common
  import opened Gf2
  import opened Crc32

  // ---------------------------------------------------------------- words as polynomials

  /** Bit i of a word. */
  predicate Bit(a: bv32, i: nat)
    requires i < 32
  {
    (a >> i) & 1 != 0
  }

  /** The polynomial whose coefficient of x^i is bit i. */
  function ToPoly(a: bv32): (r: Poly) { seq(32, i requires 0 <= i < 32 => Bit(a, i)) }

  lemma {:induction false} XorShift(a: bv32, b: bv32, i: nat)
    requires i < 32
    ensures (((a ^ b) >> i) & 1 != 0) == (((a >> i) & 1 != 0) != ((b >> i) & 1 != 0))
  {
  }

  lemma {:induction false} XorBit(a: bv32, b: bv32, i: nat)
    requires i < 32
    ensures Bit(a ^ b, i) == (Bit(a, i) != Bit(b, i))
  {
    XorShift(a, b, i);
  }

  lemma {:induction false} ShiftBit(a: bv32, i: nat)
    requires i < 32
    ensures Bit(a << 1, i) == (i > 0 && Bit(a, i - 1))
  {
    if i == 0 { assert !Bit(a << 1, 0); }
    if i == 1 { assert Bit(a << 1, 1) == Bit(a, 0); }
    if i == 2 { assert Bit(a << 1, 2) == Bit(a, 1); }
    if i == 3 { assert Bit(a << 1, 3) == Bit(a, 2); }
    if i == 4 { assert Bit(a << 1, 4) == Bit(a, 3); }
    if i == 5 { assert Bit(a << 1, 5) == Bit(a, 4); }
    if i == 6 { assert Bit(a << 1, 6) == Bit(a, 5); }
    if i == 7 { assert Bit(a << 1, 7) == Bit(a, 6); }
    if i == 8 { assert Bit(a << 1, 8) == Bit(a, 7); }
    if i == 9 { assert Bit(a << 1, 9) == Bit(a, 8); }
    if i == 10 { assert Bit(a << 1, 10) == Bit(a, 9); }
    if i == 11 { assert Bit(a << 1, 11) == Bit(a, 10); }
    if i == 12 { assert Bit(a << 1, 12) == Bit(a, 11); }
    if i == 13 { assert Bit(a << 1, 13) == Bit(a, 12); }
    if i == 14 { assert Bit(a << 1, 14) == Bit(a, 13); }
    if i == 15 { assert Bit(a << 1, 15) == Bit(a, 14); }
    if i == 16 { assert Bit(a << 1, 16) == Bit(a, 15); }
    if i == 17 { assert Bit(a << 1, 17) == Bit(a, 16); }
    if i == 18 { assert Bit(a << 1, 18) == Bit(a, 17); }
    if i == 19 { assert Bit(a << 1, 19) == Bit(a, 18); }
    if i == 20 { assert Bit(a << 1, 20) == Bit(a, 19); }
    if i == 21 { assert Bit(a << 1, 21) == Bit(a, 20); }
    if i == 22 { assert Bit(a << 1, 22) == Bit(a, 21); }
    if i == 23 { assert Bit(a << 1, 23) == Bit(a, 22); }
    if i == 24 { assert Bit(a << 1, 24) == Bit(a, 23); }
    if i == 25 { assert Bit(a << 1, 25) == Bit(a, 24); }
    if i == 26 { assert Bit(a << 1, 26) == Bit(a, 25); }
    if i == 27 { assert Bit(a << 1, 27) == Bit(a, 26); }
    if i == 28 { assert Bit(a << 1, 28) == Bit(a, 27); }
    if i == 29 { assert Bit(a << 1, 29) == Bit(a, 28); }
    if i == 30 { assert Bit(a << 1, 30) == Bit(a, 29); }
    if i == 31 { assert Bit(a << 1, 31) == Bit(a, 30); }
  }

  lemma {:induction false} PolyBits(i: nat)
    requires i < 32
    ensures Bit(0x04c1_1db7, i) == PolyBit(i) && !Bit(0, i)
  {
  }

  lemma {:induction false} ToPolyXor(a: bv32, b: bv32)
    ensures ToPoly(a ^ b) == Xor(ToPoly(a), ToPoly(b))
  {
    XorBits(ToPoly(a), ToPoly(b));
    forall i | 0 <= i < 32
      ensures ToPoly(a ^ b)[i] == Xor(ToPoly(a), ToPoly(b))[i]
    {
      XorBit(a, b, i);
    }
  }

  function Up(b: Poly): (r: Poly) { seq(32, i requires 0 <= i < 32 => i > 0 && b[i - 1]) }

  function PolyWord(): (r: Poly) { seq(32, i => PolyBit(i)) }

  lemma {:induction false} ToPolyShift(a: bv32)
    ensures ToPoly(a << 1) == Up(ToPoly(a))
  {
    forall i | 0 <= i < 32
      ensures ToPoly(a << 1)[i] == Up(ToPoly(a))[i]
    {
      ShiftBit(a, i);
    }
  }

  lemma {:induction false} ToPolyConstants()
    ensures ToPoly(0) == Zero() && ToPoly(0x04c1_1db7) == PolyWord()
  {
    forall i | 0 <= i < 32
      ensures ToPoly(0)[i] == Zero()[i] && ToPoly(0x04c1_1db7)[i] == PolyWord()[i]
    {
      PolyBits(i);
    }
  }

  /** Multiplication by x, from its two parts. */
  lemma {:induction false} XtParts(b: Poly)
    ensures Xt(b) == Xor(Up(b), if b[31] then PolyWord() else Zero())
  {
    XtBits(b);
    XorBits(Up(b), PolyWord());
    XorZero(Up(b));
  }

  /** The word a stands for p. */
  ghost predicate Stands(a: bv32, p: Poly) {
    forall k {:trigger Unfold(k)} :: Unfold(k) ==> ToPoly(a) == p
  }

  lemma {:induction false} StandsSum(a: bv32, p: Poly, b: bv32, q: Poly)
    requires Stands(a, p) && Stands(b, q)
    ensures Stands(a ^ b, Xor(p, q))
  {
    assert Unfold(0);
    ToPolyXor(a, b);
  }

  lemma {:induction false} StandsUp(a: bv32, p: Poly)
    requires Stands(a, p)
    ensures Stands(a << 1, Up(p)) && Bit(a, 31) == p[31]
  {
    assert Unfold(0);
    ToPolyShift(a);
    assert ToPoly(a)[31] == Bit(a, 31);
  }

  lemma {:induction false} StandsConstants()
    ensures Stands(0, Zero()) && Stands(0x04c1_1db7, PolyWord())
  {
    ToPolyConstants();
  }

  lemma {:induction false} StandsShiftedBy(a: bv32, p: Poly, c: bv32, q: Poly)
    requires Stands(a, p) && Stands(c, q) && q == if p[31] then PolyWord() else Zero()
    ensures Stands((a << 1) ^ c, Xt(p))
  {
    StandsUp(a, p);
    XtParts(p);
    StandsSum(a << 1, Up(p), c, q);
  }

  // ---------------------------------------------------------------- squares

  /** The sum of x^(2i) for the coefficients of a from x^i on. */
  function SquareFrom(a: Poly, i: nat): (r: Poly)
    requires i <= 32
    decreases 32 - i, a
  {
    if i == 32 then Zero() else Xor(Scale(a[i], XPow(2 * i)), SquareFrom(a, i + 1))
  }

  lemma {:induction false} MulZeroLeft(b: Poly, i: nat)
    requires i <= 32
    ensures MulFrom(Zero(), b, i) == Zero()
    decreases 32 - i
  {
    if i < 32 {
      MulZeroLeft(b, i + 1);
      XorZero(Zero());
    }
  }

  lemma {:induction false} FromAll(a: Poly)
    ensures From(a, 0) == a
  {
  }

  lemma {:induction false} TimesPower(r: Poly, n: nat)
    ensures Mul(r, XPow(n)) == XtN(r, n)
  {
    MulXtN(r, Unit(0), n);
    MulOne(r, 0);
    FromAll(r);
  }

  lemma {:induction false} PowCommutes(n: nat, r: Poly)
    ensures Mul(XPow(n), r) == Mul(r, XPow(n))
  {
    PowMul(n, r);
    TimesPower(r, n);
  }

  lemma {:induction false} TermCommutes(c: bool, u: Poly, n: nat, r: Poly)
    requires u == XPow(n)
    ensures Mul(Scale(c, u), r) == Mul(r, Scale(c, u))
    ensures Mul(Scale(c, u), Scale(c, u)) == Scale(c, XPow(2 * n))
  {
    if c {
      PowCommutes(n, r);
      PowAdd(n, n);
    } else {
      MulZeroLeft(r, 0);
      MulZero(r, 0);
      MulZero(Zero(), 0);
    }
  }

  /** (s + r) * (s + r) == s * s + r * r, if s and r commute. */
  lemma {:induction false} SquareSum(s: Poly, r: Poly)
    requires Mul(s, r) == Mul(r, s)
    ensures Mul(Xor(s, r), Xor(s, r)) == Xor(Mul(s, s), Mul(r, r))
  {
    var t := Xor(s, r);
    MulLeft(s, r, t, 0);
    MulRight(s, s, r, 0);
    MulRight(r, s, r, 0);
    var ss, sr, rr := Mul(s, s), Mul(s, r), Mul(r, r);
    XorAssoc(ss, sr, Xor(sr, rr));
    XorSelf(sr, rr);
  }

  lemma {:induction false} SquareIs(a: Poly, i: nat)
    requires i <= 32
    ensures Mul(From(a, i), From(a, i)) == SquareFrom(a, i)
    decreases 32 - i
  {
    FromStep(a, i);
    if i < 32 {
      SquareIs(a, i + 1);
      UnitPowers(i);
      TermCommutes(a[i], Unit(i), i, From(a, i + 1));
      SquareSum(Scale(a[i], Unit(i)), From(a, i + 1));
    } else {
      MulZero(Zero(), 0);
    }
  }

  /** Squaring is adding up squares. */
  lemma {:induction false} Square(a: Poly)
    ensures Mul(a, a) == SquareFrom(a, 0)
  {
    SquareIs(a, 0);
    FromAll(a);
  }

  // ---------------------------------------------------------------- squares of words

  /** The word h if bit i of a is set, and otherwise zero. */
  function Term(a: bv32, i: nat, h: bv32): (r: bv32)
    requires i < 32
  {
    if Bit(a, i) then h else 0
  }

  ghost predicate IsSum(a: bv32, i: nat, h: bv32, rest: bv32, c: bv32)
    requires i < 32
  {
    forall k {:trigger Open(k)} :: Open(k) ==> c == Term(a, i, h) ^ rest
  }

  lemma SumExists(a: bv32, i: nat, h: bv32, rest: bv32)
    requires i < 32
    ensures exists c :: IsSum(a, i, h, rest, c)
  {
    assert IsSum(a, i, h, rest, Term(a, i, h) ^ rest);
  }

  /** rest, with h added if bit i of a is set. */
  ghost function Plus(a: bv32, i: nat, h: bv32, rest: bv32): (r: bv32)
    requires i < 32
    ensures IsSum(a, i, h, rest, r)
  {
    SumExists(a, i, h, rest);
    var c :| IsSum(a, i, h, rest, c);
    c
  }

  lemma {:induction false} PlusIs(a: bv32, i: nat, h: bv32, rest: bv32)
    requires i < 32
    ensures Plus(a, i, h, rest) == Term(a, i, h) ^ rest
  {
    assert Open(0);
  }

  lemma {:induction false} StandsBit(a: bv32, p: Poly, i: nat)
    requires Stands(a, p) && i < 32
    ensures Bit(a, i) == p[i]
  {
    assert Unfold(0);
    assert ToPoly(a)[i] == Bit(a, i);
  }

  lemma {:induction false} StandsTerm(a: bv32, p: Poly, i: nat, h: bv32, q: Poly, t: bv32)
    requires i < 32 && Stands(a, p) && Stands(h, q) && t == Term(a, i, h)
    ensures Stands(t, Scale(p[i], q))
  {
    StandsBit(a, p, i);
    StandsConstants();
  }

  lemma {:induction false} StandsPlus(a: bv32, p: Poly, i: nat, h: bv32, q: Poly, rest: bv32, r: Poly)
    requires i < 32 && Stands(a, p) && Stands(h, q) && Stands(rest, r)
    ensures Stands(Plus(a, i, h, rest), Xor(Scale(p[i], q), r))
  {
    PlusIs(a, i, h, rest);
    StandsTerm(a, p, i, h, q, Term(a, i, h));
    StandsSum(Term(a, i, h), Scale(p[i], q), rest, r);
  }

  lemma {:induction false} PowerSquare(n: nat)
    ensures SquareFrom(XPow(n), 0) == XPow(2 * n)
  {
    Square(XPow(n));
    PowAdd(n, n);
  }

  lemma {:induction false} StandsSame(a: bv32, p: Poly, q: Poly)
    requires Stands(a, p) && p == q
    ensures Stands(a, q)
  {
  }

  /** Eight terms added to rest. */
  ghost function Eight(a: bv32, i: nat, h0: bv32, h1: bv32, h2: bv32, h3: bv32, h4: bv32, h5: bv32, h6: bv32, h7: bv32,
      rest: bv32): (r: bv32)
    requires i + 8 <= 32
  {
    Plus(a, i, h0, Plus(a, i + 1, h1, Plus(a, i + 2, h2,
        Plus(a, i + 3, h3, Plus(a, i + 4, h4, Plus(a, i + 5, h5, Plus(a, i + 6, h6, Plus(a, i + 7, h7, rest))))))))
  }

  /** The words stand for x^(2i), x^(2i+2), ... x^(2i+14). */
  ghost predicate Powers(i: nat, h0: bv32, h1: bv32, h2: bv32, h3: bv32, h4: bv32, h5: bv32, h6: bv32, h7: bv32) {
    && Stands(h0, XPow(2 * i)) && Stands(h1, XPow(2 * (i + 1))) && Stands(h2, XPow(2 * (i + 2)))
        && Stands(h3, XPow(2 * (i + 3)))
    && Stands(h4, XPow(2 * (i + 4))) && Stands(h5, XPow(2 * (i + 5))) && Stands(h6, XPow(2 * (i + 6)))
        && Stands(h7, XPow(2 * (i + 7)))
  }

  lemma {:induction false} SquarePlus(a: bv32, p: Poly, i: nat, h: bv32, rest: bv32)
    requires i < 32 && Stands(a, p) && Stands(h, XPow(2 * i)) && Stands(rest, SquareFrom(p, i + 1))
    ensures Stands(Plus(a, i, h, rest), SquareFrom(p, i))
  {
    StandsPlus(a, p, i, h, XPow(2 * i), rest, SquareFrom(p, i + 1));
  }

  lemma {:induction false} EightStand(a: bv32, p: Poly, i: nat, h0: bv32, h1: bv32, h2: bv32, h3: bv32, h4: bv32,
      h5: bv32, h6: bv32, h7: bv32, rest: bv32)
    requires i + 8 <= 32 && Stands(a, p) && Powers(i, h0, h1, h2, h3, h4, h5, h6, h7)
        && Stands(rest, SquareFrom(p, i + 8))
    ensures Stands(Eight(a, i, h0, h1, h2, h3, h4, h5, h6, h7, rest), SquareFrom(p, i))
  {
    SquarePlus(a, p, i + 7, h7, rest);
    var r7 := Plus(a, i + 7, h7, rest);
    SquarePlus(a, p, i + 6, h6, r7);
    var r6 := Plus(a, i + 6, h6, r7);
    SquarePlus(a, p, i + 5, h5, r6);
    var r5 := Plus(a, i + 5, h5, r6);
    SquarePlus(a, p, i + 4, h4, r5);
    var r4 := Plus(a, i + 4, h4, r5);
    SquarePlus(a, p, i + 3, h3, r4);
    var r3 := Plus(a, i + 3, h3, r4);
    SquarePlus(a, p, i + 2, h2, r3);
    var r2 := Plus(a, i + 2, h2, r3);
    SquarePlus(a, p, i + 1, h1, r2);
    var r1 := Plus(a, i + 1, h1, r2);
    SquarePlus(a, p, i, h0, r1);
  }

  // ---------------------------------------------------------------- words for the even powers of x

  function Carry(h: bv32): (r: bv32) { if Bit(h, 31) then 0x04c1_1db7 else 0 }

  ghost predicate IsOnce(h: bv32, r: bv32) {
    forall k {:trigger Open(k)} :: Open(k) ==> r == (h << 1) ^ Carry(h)
  }

  /** Multiplication of a word by x. */
  ghost function Once(h: bv32): (r: bv32)
    ensures IsOnce(h, r)
  {
    assert IsOnce(h, (h << 1) ^ Carry(h));
    var r :| IsOnce(h, r);
    r
  }

  ghost predicate IsTwice(h: bv32, r: bv32) {
    r == Once(Once(h))
  }

  lemma {:induction false} StandsCarry(h: bv32, p: Poly)
    requires Stands(h, p)
    ensures Stands(Carry(h), if p[31] then PolyWord() else Zero())
  {
    StandsUp(h, p);
    StandsConstants();
  }

  lemma {:induction false} TimesX(h: bv32, p: Poly)
    requires Stands(h, p)
    ensures Stands((h << 1) ^ Carry(h), Xt(p))
  {
    StandsCarry(h, p);
    StandsShiftedBy(h, p, Carry(h), if p[31] then PolyWord() else Zero());
  }

  lemma {:induction false} OnceStands(h: bv32, p: Poly)
    requires Stands(h, p)
    ensures Stands(Once(h), Xt(p))
  {
    assert Open(0);
    TimesX(h, p);
  }

  lemma {:induction false} NextEven(h: bv32, r: bv32, i: nat)
    requires IsTwice(h, r) && Stands(h, XPow(2 * i))
    ensures Stands(r, XPow(2 * (i + 1)))
  {
    OnceStands(h, XPow(2 * i));
    OnceStands(Once(h), Xt(XPow(2 * i)));
    assert XPow(2 * i + 1) == Xt(XPow(2 * i)) && XPow(2 * i + 2) == Xt(XPow(2 * i + 1));
    StandsSame(r, Xt(Xt(XPow(2 * i))), XPow(2 * (i + 1)));
  }

  /** Each word is the one before it, multiplied by x twice. */
  ghost predicate Doubled(h0: bv32, h1: bv32, h2: bv32, h3: bv32, h4: bv32, h5: bv32, h6: bv32, h7: bv32) {
    IsTwice(h0, h1) && IsTwice(h1, h2) && IsTwice(h2, h3) && IsTwice(h3, h4) && IsTwice(h4, h5) && IsTwice(h5, h6)
        && IsTwice(h6, h7)
  }

  lemma {:induction false} PowersFrom(i: nat, h0: bv32, h1: bv32, h2: bv32, h3: bv32, h4: bv32, h5: bv32, h6: bv32,
      h7: bv32)
    requires Stands(h0, XPow(2 * i)) && Doubled(h0, h1, h2, h3, h4, h5, h6, h7)
    ensures Powers(i, h0, h1, h2, h3, h4, h5, h6, h7)
  {
    NextEven(h0, h1, i);
    NextEven(h1, h2, i + 1);
    NextEven(h2, h3, i + 2);
    NextEven(h3, h4, i + 3);
    NextEven(h4, h5, i + 4);
    NextEven(h5, h6, i + 5);
    NextEven(h6, h7, i + 6);
  }

  // The words for x^0, x^2, ... x^62.

  lemma Evens0()
    ensures Doubled(0x0000_0001, 0x0000_0004, 0x0000_0010, 0x0000_0040, 0x0000_0100, 0x0000_0400, 0x0000_1000,
        0x0000_4000)
    ensures IsTwice(0x0000_4000, 0x0001_0000)
  {
    assert Open(0);
  }

  lemma Evens1()
    ensures Doubled(0x0001_0000, 0x0004_0000, 0x0010_0000, 0x0040_0000, 0x0100_0000, 0x0400_0000, 0x1000_0000,
        0x4000_0000)
    ensures IsTwice(0x4000_0000, 0x04c1_1db7)
  {
    assert Open(0);
  }

  lemma Evens2()
    ensures Doubled(0x04c1_1db7, 0x1304_76dc, 0x4c11_db70, 0x3486_7077, 0xd219_c1dc, 0x4524_21a9, 0x1051_9b13,
        0x4146_6c4c)
    ensures IsTwice(0x4146_6c4c, 0x01d8_ac87)
  {
    assert Open(0);
  }

  lemma Evens3()
    ensures Doubled(0x01d8_ac87, 0x0762_b21c, 0x1d8a_c870, 0x762b_21c0, 0xdc6d_9ab7, 0x7cf5_4c05, 0xf714_2da3,
        0xd113_9055)
  {
    assert Open(0);
  }

  lemma {:induction false} NextEight(i: nat, h: bv32, i': nat, h0: bv32, h1: bv32, h2: bv32, h3: bv32, h4: bv32,
      h5: bv32, h6: bv32, h7: bv32)
    requires Stands(h, XPow(2 * (i + 7))) && i' == i + 8 && IsTwice(h, h0) && Doubled(h0, h1, h2, h3, h4, h5, h6, h7)
    ensures Powers(i', h0, h1, h2, h3, h4, h5, h6, h7)
  {
    NextEven(h, h0, i + 7);
    PowersFrom(i', h0, h1, h2, h3, h4, h5, h6, h7);
  }

  /** One group of eight words, and one partial square. */
  datatype Group = Group(h0: bv32, h1: bv32, h2: bv32, h3: bv32, h4: bv32, h5: bv32, h6: bv32, h7: bv32)

  ghost predicate Good(i: nat, g: Group) {
    forall k {:trigger Open(k)} :: Open(k) ==> Powers(i, g.h0, g.h1, g.h2, g.h3, g.h4, g.h5, g.h6, g.h7)
  }

  ghost predicate IsOct(a: bv32, i: nat, g: Group, rest: bv32, c: bv32)
    requires i + 8 <= 32
  {
    forall k {:trigger Open(k)} :: Open(k) ==> c == Eight(a, i, g.h0, g.h1, g.h2, g.h3, g.h4, g.h5, g.h6, g.h7, rest)
  }

  ghost function Oct(a: bv32, i: nat, g: Group, rest: bv32): (r: bv32)
    requires i + 8 <= 32
    ensures IsOct(a, i, g, rest, r)
  {
    assert IsOct(a, i, g, rest, Eight(a, i, g.h0, g.h1, g.h2, g.h3, g.h4, g.h5, g.h6, g.h7, rest));
    var c :| IsOct(a, i, g, rest, c);
    c
  }

  lemma {:induction false} OctStands(a: bv32, p: Poly, i: nat, g: Group, rest: bv32)
    requires i + 8 <= 32 && Stands(a, p) && Good(i, g) && Stands(rest, SquareFrom(p, i + 8))
    ensures Stands(Oct(a, i, g, rest), SquareFrom(p, i))
  {
    OctIs(a, i, g, rest);
    GoodIs(i, g);
    EightStand(a, p, i, g.h0, g.h1, g.h2, g.h3, g.h4, g.h5, g.h6, g.h7, rest);
  }

  lemma {:induction false} OctIs(a: bv32, i: nat, g: Group, rest: bv32)
    requires i + 8 <= 32
    ensures Oct(a, i, g, rest) == Eight(a, i, g.h0, g.h1, g.h2, g.h3, g.h4, g.h5, g.h6, g.h7, rest)
  {
    assert Open(0);
  }

  lemma {:induction false} GoodIs(i: nat, g: Group)
    requires Good(i, g)
    ensures Powers(i, g.h0, g.h1, g.h2, g.h3, g.h4, g.h5, g.h6, g.h7)
  {
    assert Open(0);
  }

  /** The square of a word, by the words for the even powers of x. */
  ghost function Squared(a: bv32, g0: Group, g1: Group, g2: Group, g3: Group): (r: bv32) {
    Oct(a, 0, g0, Oct(a, 8, g1, Oct(a, 16, g2, Oct(a, 24, g3, 0))))
  }

  lemma {:induction false} TwoOcts(a: bv32, p: Poly, i: nat, i': nat, g: Group, g': Group, rest: bv32)
    requires i' == i + 8 && i' + 8 <= 32 && Stands(a, p) && Good(i, g) && Good(i', g')
        && Stands(rest, SquareFrom(p, i' + 8))
    ensures Stands(Oct(a, i, g, Oct(a, i', g', rest)), SquareFrom(p, i))
  {
    OctStands(a, p, i', g', rest);
    OctStands(a, p, i, g, Oct(a, i', g', rest));
  }

  lemma {:induction false} SquaredStands(a: bv32, p: Poly, i0: nat, i1: nat, i2: nat, i3: nat, g0: Group, g1: Group,
      g2: Group, g3: Group)
    requires Stands(a, p) && i0 == 0 && i1 == 8 && i2 == 16 && i3 == 24 && Good(i0, g0) && Good(i1, g1) && Good(i2, g2)
        && Good(i3, g3)
    ensures Stands(Squared(a, g0, g1, g2, g3), SquareFrom(p, i0))
  {
    EndStands(p, i3 + 8);
    var r := Oct(a, i2, g2, Oct(a, i3, g3, 0));
    TwoOcts(a, p, i2, i3, g2, g3, 0);
    TwoOcts(a, p, i0, i1, g0, g1, r);
  }

  lemma {:induction false} EndStands(p: Poly, n: nat)
    requires n == 32
    ensures Stands(0, SquareFrom(p, n))
  {
    StandsConstants();
    StandsSame(0, Zero(), SquareFrom(p, n));
  }

  /** The square of a word for x^n is a word for x^(2n). */
  lemma {:induction false} SquareOfPower(a: bv32, n: nat, i0: nat, i1: nat, i2: nat, i3: nat, g0: Group, g1: Group,
      g2: Group, g3: Group)
    requires Stands(a, XPow(n)) && i0 == 0 && i1 == 8 && i2 == 16 && i3 == 24 && Good(i0, g0) && Good(i1, g1)
        && Good(i2, g2) && Good(i3, g3)
    ensures Stands(Squared(a, g0, g1, g2, g3), XPow(2 * n))
  {
    SquaredStands(a, XPow(n), i0, i1, i2, i3, g0, g1, g2, g3);
    PowerSquare(n);
    StandsSame(Squared(a, g0, g1, g2, g3), SquareFrom(XPow(n), i0), XPow(2 * n));
  }

  const G0 := Group(0x0000_0001, 0x0000_0004, 0x0000_0010, 0x0000_0040, 0x0000_0100, 0x0000_0400, 0x0000_1000,
      0x0000_4000)
  const G1 := Group(0x0001_0000, 0x0004_0000, 0x0010_0000, 0x0040_0000, 0x0100_0000, 0x0400_0000, 0x1000_0000,
      0x4000_0000)
  const G2 := Group(0x04c1_1db7, 0x1304_76dc, 0x4c11_db70, 0x3486_7077, 0xd219_c1dc, 0x4524_21a9, 0x1051_9b13,
      0x4146_6c4c)
  const G3 := Group(0x01d8_ac87, 0x0762_b21c, 0x1d8a_c870, 0x762b_21c0, 0xdc6d_9ab7, 0x7cf5_4c05, 0xf714_2da3,
      0xd113_9055)

  /** The words for x^0, x^2, ... x^62 are right. */
  ghost predicate AllGood(i0: nat, i1: nat, i2: nat, i3: nat) {
    i0 == 0 && i1 == 8 && i2 == 16 && i3 == 24 && Good(i0, G0) && Good(i1, G1) && Good(i2, G2) && Good(i3, G3)
  }

  lemma {:induction false} OneBitSet(i: nat)
    requires i < 32
    ensures Bit(1, i) == (i == 0) && Bit(2, i) == (i == 1)
  {
  }

  /** The words 1 and 2 stand for 1 and x. */
  lemma {:induction false} StandsUnits()
    ensures Stands(1, Unit(0)) && Stands(2, Unit(1))
  {
    forall i | 0 <= i < 32
      ensures ToPoly(1)[i] == Unit(0)[i] && ToPoly(2)[i] == Unit(1)[i]
    {
      OneBitSet(i);
    }
  }

  lemma {:induction false} StandsOne(n: nat)
    requires n == 0
    ensures Stands(1, XPow(2 * n))
  {
    StandsUnits();
    StandsSame(1, Unit(0), XPow(2 * n));
  }

  lemma {:induction false} MakeGroups(i0: nat, i1: nat, i2: nat, i3: nat)
    requires i0 == 0 && i1 == 8 && i2 == 16 && i3 == 24
    ensures AllGood(i0, i1, i2, i3)
  {
    StandsOne(i0);
    Evens0();
    PowersFrom(i0, 0x0000_0001, 0x0000_0004, 0x0000_0010, 0x0000_0040, 0x0000_0100, 0x0000_0400, 0x0000_1000,
        0x0000_4000);
    Evens1();
    NextEight(i0, 0x0000_4000, i1, 0x0001_0000, 0x0004_0000, 0x0010_0000, 0x0040_0000, 0x0100_0000, 0x0400_0000,
        0x1000_0000, 0x4000_0000);
    Evens2();
    NextEight(i1, 0x4000_0000, i2, 0x04c1_1db7, 0x1304_76dc, 0x4c11_db70, 0x3486_7077, 0xd219_c1dc, 0x4524_21a9,
        0x1051_9b13, 0x4146_6c4c);
    Evens3();
    NextEight(i2, 0x4146_6c4c, i3, 0x01d8_ac87, 0x0762_b21c, 0x1d8a_c870, 0x762b_21c0, 0xdc6d_9ab7, 0x7cf5_4c05,
        0xf714_2da3, 0xd113_9055);
  }

  // ---------------------------------------------------------------- thirty-two squarings

  ghost predicate IsSquare(a: bv32, r: bv32) {
    r == Squared(a, G0, G1, G2, G3)
  }

  lemma {:induction false} SquareStep(a: bv32, r: bv32, k: nat, i0: nat, i1: nat, i2: nat, i3: nat)
    requires IsSquare(a, r) && Stands(a, XPow(Pow2(k))) && AllGood(i0, i1, i2, i3)
    ensures Stands(r, XPow(Pow2(k + 1)))
  {
    SquareOfPower(a, Pow2(k), i0, i1, i2, i3, G0, G1, G2, G3);
  }

  /** Two squarings in a row. */
  ghost predicate Squarings(a: bv32, b: bv32, c: bv32) {
    IsSquare(a, b) && IsSquare(b, c)
  }

  lemma {:induction false} TwoSquares(a: bv32, b: bv32, c: bv32, k: nat, i0: nat, i1: nat, i2: nat, i3: nat)
    requires Squarings(a, b, c) && Stands(a, XPow(Pow2(k))) && AllGood(i0, i1, i2, i3)
    ensures Stands(c, XPow(Pow2(k + 2)))
  {
    SquareStep(a, b, k, i0, i1, i2, i3);
    SquareStep(b, c, k + 1, i0, i1, i2, i3);
  }

  // The words for x, x^2, x^4, ... x^(2^32).

  lemma Squarings0()
    ensures Squarings(0x0000_0002, 0x0000_0004, 0x0000_0010)
  {
    assert Open(0);
  }

  lemma Squarings1()
    ensures Squarings(0x0000_0010, 0x0000_0100, 0x0001_0000)
  {
    assert Open(0);
  }

  lemma Squarings2()
    ensures Squarings(0x0001_0000, 0x04c1_1db7, 0x490d_678d)
  {
    assert Open(0);
  }

  lemma Squarings3()
    ensures Squarings(0x490d_678d, 0xe8a4_5605, 0x75be_46b7)
  {
    assert Open(0);
  }

  lemma Squarings4()
    ensures Squarings(0x75be_46b7, 0xe622_8b11, 0x567f_ddeb)
  {
    assert Open(0);
  }

  lemma Squarings5()
    ensures Squarings(0x567f_ddeb, 0x88fe_2237, 0x0e85_7e71)
  {
    assert Open(0);
  }

  lemma Squarings6()
    ensures Squarings(0x0e85_7e71, 0x7001_e426, 0x075d_e2b2)
  {
    assert Open(0);
  }

  lemma Squarings7()
    ensures Squarings(0x075d_e2b2, 0xf12a_7f90, 0xf0b4_a1c1)
  {
    assert Open(0);
  }

  lemma Squarings8()
    ensures Squarings(0xf0b4_a1c1, 0x58f4_6c0c, 0xc339_5ade)
  {
    assert Open(0);
  }

  lemma Squarings9()
    ensures Squarings(0xc339_5ade, 0x9683_7f8c, 0x5440_37f9)
  {
    assert Open(0);
  }

  lemma Squarings10()
    ensures Squarings(0x5440_37f9, 0x23b7_b136, 0xb2e1_6ba8)
  {
    assert Open(0);
  }

  lemma Squarings11()
    ensures Squarings(0xb2e1_6ba8, 0x725e_7bfa, 0xec70_9b5d)
  {
    assert Open(0);
  }

  lemma Squarings12()
    ensures Squarings(0xec70_9b5d, 0xf77a_7274, 0x2845_d572)
  {
    assert Open(0);
  }

  lemma Squarings13()
    ensures Squarings(0x2845_d572, 0x034e_2515, 0x7969_5942)
  {
    assert Open(0);
  }

  lemma Squarings14()
    ensures Squarings(0x7969_5942, 0x540c_b128, 0x0b65_d023)
  {
    assert Open(0);
  }

  lemma Squarings15()
    ensures Squarings(0x0b65_d023, 0x3c34_4723, 0x0000_0002)
  {
    assert Open(0);
  }

  lemma {:induction false} EightSquares0(k: nat, i0: nat, i1: nat, i2: nat, i3: nat)
    requires Stands(0x0000_0002, XPow(Pow2(k))) && AllGood(i0, i1, i2, i3)
    ensures Stands(0x75be_46b7, XPow(Pow2(k + 8)))
  {
    Squarings0();
    TwoSquares(0x0000_0002, 0x0000_0004, 0x0000_0010, k, i0, i1, i2, i3);
    Squarings1();
    TwoSquares(0x0000_0010, 0x0000_0100, 0x0001_0000, k + 2, i0, i1, i2, i3);
    Squarings2();
    TwoSquares(0x0001_0000, 0x04c1_1db7, 0x490d_678d, k + 4, i0, i1, i2, i3);
    Squarings3();
    TwoSquares(0x490d_678d, 0xe8a4_5605, 0x75be_46b7, k + 6, i0, i1, i2, i3);
  }

  lemma {:induction false} EightSquares1(k: nat, i0: nat, i1: nat, i2: nat, i3: nat)
    requires Stands(0x75be_46b7, XPow(Pow2(k))) && AllGood(i0, i1, i2, i3)
    ensures Stands(0xf0b4_a1c1, XPow(Pow2(k + 8)))
  {
    Squarings4();
    TwoSquares(0x75be_46b7, 0xe622_8b11, 0x567f_ddeb, k, i0, i1, i2, i3);
    Squarings5();
    TwoSquares(0x567f_ddeb, 0x88fe_2237, 0x0e85_7e71, k + 2, i0, i1, i2, i3);
    Squarings6();
    TwoSquares(0x0e85_7e71, 0x7001_e426, 0x075d_e2b2, k + 4, i0, i1, i2, i3);
    Squarings7();
    TwoSquares(0x075d_e2b2, 0xf12a_7f90, 0xf0b4_a1c1, k + 6, i0, i1, i2, i3);
  }

  lemma {:induction false} EightSquares2(k: nat, i0: nat, i1: nat, i2: nat, i3: nat)
    requires Stands(0xf0b4_a1c1, XPow(Pow2(k))) && AllGood(i0, i1, i2, i3)
    ensures Stands(0xec70_9b5d, XPow(Pow2(k + 8)))
  {
    Squarings8();
    TwoSquares(0xf0b4_a1c1, 0x58f4_6c0c, 0xc339_5ade, k, i0, i1, i2, i3);
    Squarings9();
    TwoSquares(0xc339_5ade, 0x9683_7f8c, 0x5440_37f9, k + 2, i0, i1, i2, i3);
    Squarings10();
    TwoSquares(0x5440_37f9, 0x23b7_b136, 0xb2e1_6ba8, k + 4, i0, i1, i2, i3);
    Squarings11();
    TwoSquares(0xb2e1_6ba8, 0x725e_7bfa, 0xec70_9b5d, k + 6, i0, i1, i2, i3);
  }

  lemma {:induction false} EightSquares3(k: nat, i0: nat, i1: nat, i2: nat, i3: nat)
    requires Stands(0xec70_9b5d, XPow(Pow2(k))) && AllGood(i0, i1, i2, i3)
    ensures Stands(0x0000_0002, XPow(Pow2(k + 8)))
  {
    Squarings12();
    TwoSquares(0xec70_9b5d, 0xf77a_7274, 0x2845_d572, k, i0, i1, i2, i3);
    Squarings13();
    TwoSquares(0x2845_d572, 0x034e_2515, 0x7969_5942, k + 2, i0, i1, i2, i3);
    Squarings14();
    TwoSquares(0x7969_5942, 0x540c_b128, 0x0b65_d023, k + 4, i0, i1, i2, i3);
    Squarings15();
    TwoSquares(0x0b65_d023, 0x3c34_4723, 0x0000_0002, k + 6, i0, i1, i2, i3);
  }

  /** After 32 squarings the word 2 is reached again. */
  lemma {:induction false} ThirtyTwoSquares(k: nat, i0: nat, i1: nat, i2: nat, i3: nat)
    requires Stands(2, XPow(Pow2(k))) && AllGood(i0, i1, i2, i3)
    ensures Stands(2, XPow(Pow2(k + 32)))
  {
    EightSquares0(k, i0, i1, i2, i3);
    EightSquares1(k + 8, i0, i1, i2, i3);
    EightSquares2(k + 16, i0, i1, i2, i3);
    EightSquares3(k + 24, i0, i1, i2, i3);
  }

  lemma {:induction false} StandsFirst(k: nat)
    requires k == 0
    ensures Stands(2, XPow(Pow2(k)))
  {
    StandsUnits();
    UnitPowers(1);
    assert Pow2(k) == 1;
    StandsSame(2, Unit(1), XPow(Pow2(k)));
  }

  lemma {:induction false} StandsBoth(a: bv32, n: nat)
    requires Stands(a, Unit(1)) && Stands(a, XPow(Pow2(n)))
    ensures Wraps(n)
  {
    assert Unfold(0);
  }

  lemma {:induction false} ReturnsFrom(k: nat, n: nat, i0: nat, i1: nat, i2: nat, i3: nat)
    requires k == 0 && n == k + 32 && AllGood(i0, i1, i2, i3)
    ensures Stands(2, XPow(Pow2(n)))
  {
    StandsFirst(k);
    ThirtyTwoSquares(k, i0, i1, i2, i3);
  }

  /** Modulo the CRC-32 polynomial, x^(2^32) is x: the table of 32 doublings may be read round and round. */
  lemma {:induction false} XReturns(n: nat)
    requires n == 32
    ensures Wraps(n)
  {
    MakeGroups(n - 32, n - 24, n - 16, n - 8);
    ReturnsFrom(n - 32, n, n - 32, n - 24, n - 16, n - 8);
    StandsUnits();
    StandsBoth(2, n);
  }

  /** The counter of x2nmodp after t turns of its loop: an arithmetic shift, which rounds down. */
  function Halved(n: int, t: nat): (r: int)
    decreases t
  {
    if t == 0 then n else Halved(n, t - 1) / 2
  }

  lemma {:induction false} HalvedSign(n: int, t: nat)
    ensures Halved(n, t) < 0 <==> n < 0
    decreases t
  {
    if t > 0 {
      HalvedSign(n, t - 1);
    }
  }

  lemma {:induction false} HalvedAway(n: nat, t: nat)
    ensures 0 <= Halved(n, t) && Pow2(t) * Halved(n, t) <= n
    decreases t
  {
    if t == 0 {
      assert Pow2(t) == 1;
    } else {
      HalvedAway(n, t - 1);
      var h, h' := Halved(n, t - 1), Halved(n, t);
      assert 2 * h' <= h && Pow2(t) == 2 * Pow2(t - 1);
      AtMostTimes(Pow2(t - 1), 2 * h', h);
    }
  }

  lemma AtMostTimes(p: nat, a: int, b: int)
    requires a <= b
    ensures p * a <= p * b
  {
  }

  lemma {:induction false} Pow2Above(n: nat)
    ensures n < Pow2(n)
  {
    if n > 0 {
      Pow2Above(n - 1);
    }
  }

  /** The loop of x2nmodp ends exactly when it is not given a negative length: a negative one stays negative for ever.
      */
  lemma {:induction false} LoopEnds(n: int)
    ensures (exists t :: Halved(n, t) == 0) <==> n >= 0
  {
    if n >= 0 {
      HalvedAway(n, n);
      Pow2Above(n);
      var h := Halved(n, n);
      if h > 0 { AtMostTimes(Pow2(n), 1, h); }
      assert Halved(n, n) == 0;
    } else {
      forall t: nat
        ensures Halved(n, t) != 0
      {
        HalvedSign(n, t);
      }
    }
  }

  /** x2nmodp: x^(n * 2^k), for all n and k. */
  method PowerModP(n: nat, k: nat, x2n: seq<Poly>) returns (p: Poly)
    requires |x2n| == 32 && Doublings(x2n)
    ensures IsPow(p, n * Pow2(k))
  {
    XReturns(|x2n|);
    p := X2nModP(n, k, x2n);
  }

  /** crc32_combine64, for strings of all lengths. */
  method Combine64(crc1: Poly, crc2: Poly, len2: nat, x2n: seq<Poly>) returns (r: Poly)
    requires |x2n| == 32 && Doublings(x2n)
    ensures forall s: seq<Octet>, t: seq<Octet> {:trigger Crc(s + t)} :: crc1 == Crc(s) && crc2 == Crc(t) && len2 == |t| ==> r == Crc(s + t)
  {
    XReturns(|x2n|);
    r := Combine(crc1, crc2, len2, x2n);
  }
}
