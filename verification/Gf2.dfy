/** Polynomials over GF(2) modulo the CRC-32 polynomial (crc32.c). A machine word stands for the polynomial
    whose coefficient of x^i is its bit 31 - i; here it is the sequence of these coefficients. */
module Gf2 {
  import opened Common

  type Poly = p: seq<bool> | |p| == 32 witness seq(32, _ => false)

  // ---------------------------------------------------------------- addition

  function Zero(): (r: Poly) { seq(32, _ => false) }

  function Xor(a: Poly, b: Poly): (r: Poly) {
    XorTo(a, b, |a|)
  }

  function XorTo(a: Poly, b: Poly, n: nat): (r: seq<bool>)
    requires n <= 32
    ensures |r| == n
  {
    if n == 0 then [] else XorTo(a, b, n - 1) + [a[n - 1] != b[n - 1]]
  }

  lemma {:induction false} XorToAt(a: Poly, b: Poly, n: nat, i: nat)
    requires i < n <= 32
    ensures XorTo(a, b, n)[i] == (a[i] != b[i])
  {
    if i < n - 1 {
      XorToAt(a, b, n - 1, i);
    }
  }

  /** Coefficient by coefficient. */
  lemma {:induction false} XorBits(a: Poly, b: Poly)
    ensures forall i :: 0 <= i < 32 ==> Xor(a, b)[i] == (a[i] != b[i])
  {
    forall i | 0 <= i < 32
      ensures Xor(a, b)[i] == (a[i] != b[i])
    {
      XorToAt(a, b, |a|, i);
    }
  }

  lemma {:induction false} XorComm(a: Poly, b: Poly)
    ensures Xor(a, b) == Xor(b, a)
  {
    XorBits(a, b);
    XorBits(b, a);
  }

  lemma {:induction false} XorAssoc(a: Poly, b: Poly, c: Poly)
    ensures Xor(Xor(a, b), c) == Xor(a, Xor(b, c))
  {
    XorBits(a, b);
    XorBits(b, c);
    XorBits(Xor(a, b), c);
    XorBits(a, Xor(b, c));
  }

  lemma {:induction false} XorZero(a: Poly)
    ensures Xor(a, Zero()) == a && Xor(Zero(), a) == a
  {
    XorBits(a, Zero());
    XorBits(Zero(), a);
  }

  lemma {:induction false} XorSelf(a: Poly, b: Poly)
    ensures Xor(a, a) == Zero() && Xor(a, Xor(a, b)) == b
  {
    XorBits(a, a);
    XorBits(a, b);
    XorBits(a, Xor(a, b));
  }

  /** (a + b) + (c + d) == (a + c) + (b + d) */
  lemma {:induction false} XorMiddle(a: Poly, b: Poly, c: Poly, d: Poly)
    ensures Xor(Xor(a, b), Xor(c, d)) == Xor(Xor(a, c), Xor(b, d))
  {
    XorBits(a, b);
    XorBits(c, d);
    XorBits(a, c);
    XorBits(b, d);
    XorBits(Xor(a, b), Xor(c, d));
    XorBits(Xor(a, c), Xor(b, d));
  }

  // ---------------------------------------------------------------- multiplication by x

  /** The places of x^32 modulo the polynomial: 26, 23, 22, 16, 12, 11, 10, 8, 7, 5, 4, 2, 1, 0. */
  predicate PolyBit(i: int) {
    i == 26 || i == 23 || i == 22 || i == 16 || i == 12 || i == 11 || i == 10 || i == 8 || i == 7 || i == 5 || i == 4
        || i == 2 || i == 1 || i == 0
  }

  /** One step of the shift register: multiplication by x. */
  function Xt(b: Poly): (r: Poly) {
    XtTo(b, |b|)
  }

  function XtTo(b: Poly, n: nat): (r: seq<bool>)
    requires n <= 32
    ensures |r| == n
  {
    if n == 0 then [] else XtTo(b, n - 1) + [(n > 1 && b[n - 2]) != (b[31] && PolyBit(n - 1))]
  }

  lemma {:induction false} XtToAt(b: Poly, n: nat, i: nat)
    requires i < n <= 32
    ensures XtTo(b, n)[i] == ((i > 0 && b[i - 1]) != (b[31] && PolyBit(i)))
  {
    if i < n - 1 {
      XtToAt(b, n - 1, i);
    }
  }

  lemma {:induction false} XtBits(b: Poly)
    ensures forall i :: 0 <= i < 32 ==> Xt(b)[i] == ((i > 0 && b[i - 1]) != (b[31] && PolyBit(i)))
  {
    forall i | 0 <= i < 32
      ensures Xt(b)[i] == ((i > 0 && b[i - 1]) != (b[31] && PolyBit(i)))
    {
      XtToAt(b, |b|, i);
    }
  }

  lemma {:induction false} XtLinear(a: Poly, b: Poly)
    ensures Xt(Xor(a, b)) == Xor(Xt(a), Xt(b))
  {
    XorBits(a, b);
    XtBits(Xor(a, b));
    XtBits(a);
    XtBits(b);
    XorBits(Xt(a), Xt(b));
  }

  lemma {:induction false} XtZero()
    ensures Xt(Zero()) == Zero()
  {
    XtBits(Zero());
  }

  function XtN(b: Poly, n: nat): (r: Poly)
    decreases n, b
  {
    if n == 0 then b else Xt(XtN(b, n - 1))
  }

  lemma {:induction false} XtNLinear(a: Poly, b: Poly, n: nat)
    ensures XtN(Xor(a, b), n) == Xor(XtN(a, n), XtN(b, n))
    decreases n
  {
    if n > 0 {
      XtNLinear(a, b, n - 1);
      XtLinear(XtN(a, n - 1), XtN(b, n - 1));
    }
  }

  lemma {:induction false} XtNAdd(b: Poly, m: nat, n: nat)
    ensures XtN(XtN(b, m), n) == XtN(b, m + n)
    decreases n
  {
    if n > 0 {
      XtNAdd(b, m, n - 1);
    }
  }

  lemma {:induction false} XtNZero(n: nat)
    ensures XtN(Zero(), n) == Zero()
    decreases n
  {
    if n > 0 {
      XtNZero(n - 1);
      XtZero();
    }
  }

  /** Multiplication by x loses nothing. */
  lemma XtInjective(b: Poly)
    requires Xt(b) == Zero()
    ensures b == Zero()
  {
    XtBits(b);
    assert Xt(b)[0] == b[31];
    forall i | 0 <= i < 31
      ensures !b[i]
    {
      assert Xt(b)[i + 1] == b[i];
    }
  }

  // ---------------------------------------------------------------- products

  function Scale(c: bool, b: Poly): (r: Poly) { if c then b else Zero() }

  lemma ScaleSum(x: bool, y: bool, t: Poly)
    ensures Scale(x != y, t) == Xor(Scale(x, t), Scale(y, t))
  {
    XorZero(t);
    XorZero(Zero());
    XorSelf(t, t);
  }

  lemma ScaleXor(x: bool, s: Poly, t: Poly)
    ensures Scale(x, Xor(s, t)) == Xor(Scale(x, s), Scale(x, t))
  {
    XorZero(Zero());
  }

  /** The part of a * b that the coefficients of a from x^i on contribute. */
  function MulFrom(a: Poly, b: Poly, i: nat): (r: Poly)
    requires i <= 32
    decreases 32 - i, a
  {
    if i == 32 then Zero() else Xor(Scale(a[i], XtN(b, i)), MulFrom(a, b, i + 1))
  }

  function Mul(a: Poly, b: Poly): (r: Poly) {
    MulFrom(a, b, 0)
  }

  lemma {:induction false} MulLeft(a: Poly, c: Poly, b: Poly, i: nat)
    requires i <= 32
    ensures MulFrom(Xor(a, c), b, i) == Xor(MulFrom(a, b, i), MulFrom(c, b, i))
    decreases 32 - i
  {
    if i < 32 {
      MulLeft(a, c, b, i + 1);
      var t := XtN(b, i);
      XorBits(a, c);
      ScaleSum(a[i], c[i], t);
      XorMiddle(Scale(a[i], t), Scale(c[i], t), MulFrom(a, b, i + 1), MulFrom(c, b, i + 1));
    } else {
      XorZero(Zero());
    }
  }

  lemma {:induction false} MulRight(a: Poly, b: Poly, c: Poly, i: nat)
    requires i <= 32
    ensures MulFrom(a, Xor(b, c), i) == Xor(MulFrom(a, b, i), MulFrom(a, c, i))
    decreases 32 - i
  {
    if i < 32 {
      MulRight(a, b, c, i + 1);
      XtNLinear(b, c, i);
      ScaleXor(a[i], XtN(b, i), XtN(c, i));
      XorMiddle(Scale(a[i], XtN(b, i)), Scale(a[i], XtN(c, i)), MulFrom(a, b, i + 1), MulFrom(a, c, i + 1));
    } else {
      XorZero(Zero());
    }
  }

  /** Multiplying the right factor by x multiplies the product by x. */
  lemma {:induction false} MulXt(a: Poly, b: Poly, i: nat)
    requires i <= 32
    ensures MulFrom(a, Xt(b), i) == Xt(MulFrom(a, b, i))
    decreases 32 - i
  {
    if i == 32 {
      XtZero();
    } else {
      MulXt(a, b, i + 1);
      XtNAdd(b, 1, i);
      assert XtN(b, 1) == Xt(XtN(b, 0));
      XtZero();
      XtLinear(Scale(a[i], XtN(b, i)), MulFrom(a, b, i + 1));
    }
  }

  /** x^i for i below 32. */
  function Unit(i: int): (r: Poly) { seq(32, j => j == i) }

  lemma {:induction false} UnitPowers(i: nat)
    requires i < 32
    ensures XtN(Unit(0), i) == Unit(i)
  {
    if i > 0 {
      UnitPowers(i - 1);
      XtBits(Unit(i - 1));
      assert Xt(Unit(i - 1)) == Unit(i);
    }
  }

  /** The coefficients of a from x^i on. */
  function From(a: Poly, i: nat): (r: Poly) { seq(32, j requires 0 <= j < 32 => j >= i && a[j]) }

  lemma {:induction false} MulOne(a: Poly, i: nat)
    requires i <= 32
    ensures MulFrom(a, Unit(0), i) == From(a, i)
    decreases 32 - i
  {
    FromStep(a, i);
    if i < 32 {
      MulOne(a, i + 1);
      UnitPowers(i);
    }
  }

  lemma FromStep(a: Poly, i: nat)
    requires i <= 32
    ensures From(a, i) == if i < 32 then Xor(Scale(a[i], Unit(i)), From(a, i + 1)) else Zero()
  {
    if i < 32 { XorBits(Scale(a[i], Unit(i)), From(a, i + 1)); }
  }

  lemma {:induction false} MulXtN(a: Poly, b: Poly, n: nat)
    ensures Mul(a, XtN(b, n)) == XtN(Mul(a, b), n)
    decreases n
  {
    if n > 0 {
      var c := XtN(b, n - 1);
      MulXtN(a, b, n - 1);
      MulXt(a, c, 0);
    }
  }

  // ---------------------------------------------------------------- products with powers of x

  /** The coefficients of b below x^n. */
  function Below(b: Poly, n: nat): (r: Poly) { seq(32, j requires 0 <= j < 32 => j < n && b[j]) }

  lemma {:induction false} PolyTimesUnit(w: Poly, k: nat, n: nat)
    requires n < 32 && w == XtN(Unit(0), k)
    ensures Mul(w, Unit(n)) == XtN(Unit(n), k)
  {
    UnitPowers(n);
    MulXtN(w, Unit(0), n);
    MulOne(w, 0);
    assert From(w, 0) == w;
    XtNAdd(Unit(0), k, n);
    XtNAdd(Unit(0), n, k);
  }

  ghost predicate Agree(w: Poly, k: nat, b: Poly) {
    Mul(w, b) == XtN(b, k)
  }

  lemma {:induction false} AgreeXor(w: Poly, k: nat, a: Poly, b: Poly)
    requires Agree(w, k, a) && Agree(w, k, b)
    ensures Agree(w, k, Xor(a, b))
  {
    MulRight(w, a, b, 0);
    XtNLinear(a, b, k);
  }

  lemma {:induction false} AgreeZero(w: Poly, k: nat)
    ensures Agree(w, k, Zero())
  {
    MulZero(w, 0);
    XtNZero(k);
  }

  lemma BelowStep(b: Poly, n: nat)
    requires n < 32
    ensures Below(b, n + 1) == Xor(Below(b, n), Scale(b[n], Unit(n)))
  {
    XorBits(Below(b, n), Scale(b[n], Unit(n)));
  }

  lemma BelowEnds(b: Poly)
    ensures Below(b, 0) == Zero() && Below(b, 32) == b
  {
  }

  lemma {:induction false} PolyTimesBelow(w: Poly, k: nat, b: Poly, n: nat)
    requires n <= 32 && w == XtN(Unit(0), k)
    ensures Agree(w, k, Below(b, n))
  {
    AgreeZero(w, k);
    if n == 0 {
      BelowEnds(b);
    } else {
      PolyTimesBelow(w, k, b, n - 1);
      PolyTimesUnit(w, k, n - 1);
      BelowStep(b, n - 1);
      AgreeXor(w, k, Below(b, n - 1), Scale(b[n - 1], Unit(n - 1)));
    }
  }

  lemma {:induction false} MulZero(a: Poly, i: nat)
    requires i <= 32
    ensures MulFrom(a, Zero(), i) == Zero()
    decreases 32 - i
  {
    if i < 32 {
      MulZero(a, i + 1);
      XtNZero(i);
      XorZero(Zero());
    }
  }

  lemma {:induction false} PowerTimes(w: Poly, k: nat, b: Poly)
    requires w == XtN(Unit(0), k)
    ensures Agree(w, k, b)
  {
    PolyTimesBelow(w, k, b, 32);
    BelowEnds(b);
  }

  // ---------------------------------------------------------------- powers of x

  function XPow(n: nat): (r: Poly) { XtN(Unit(0), n) }

  /** Multiplication by x^n is n steps of the shift register. */
  lemma {:induction false} PowMul(n: nat, b: Poly)
    ensures Mul(XPow(n), b) == XtN(b, n)
  {
    PowerTimes(XPow(n), n, b);
  }

  lemma {:induction false} PowAdd(m: nat, n: nat)
    ensures Mul(XPow(m), XPow(n)) == XPow(m + n)
  {
    PowMul(m, XPow(n));
    XtNAdd(Unit(0), n, m);
  }

  lemma {:induction false} PowNotZero(n: nat)
    ensures XPow(n) != Zero()
  {
    if n == 0 {
      assert Unit(0)[0];
    } else {
      PowNotZero(n - 1);
      if XPow(n) == Zero() { XtInjective(XPow(n - 1)); }
    }
  }

  /** p is x^n. */
  ghost predicate IsPow(p: Poly, n: nat) {
    forall k {:trigger Unfold(k)} :: Unfold(k) ==> p == XPow(n)
  }

  lemma {:induction false} PowTimes(a: Poly, m: nat, b: Poly, n: nat)
    requires IsPow(a, m) && IsPow(b, n)
    ensures IsPow(Mul(a, b), m + n) && a != Zero()
  {
    assert Unfold(0);
    PowAdd(m, n);
    PowNotZero(m);
  }

  lemma {:induction false} FirstPowers()
    ensures IsPow(Unit(0), 0) && IsPow(Unit(1), 1)
  {
    UnitPowers(0);
    UnitPowers(1);
  }
}
