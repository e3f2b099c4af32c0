/** CRC-32 (crc32.c): byte-at-a-time computation, multiplication modulo the polynomial, powers of x, and
    combining the checksums of two strings. */
module Crc32 {
  import opened Common
  import opened Gf2

  // ---------------------------------------------------------------- multmodp

  /** No coefficient from x^i on. */
  predicate NoneFrom(a: Poly, i: nat) {
    forall j :: i <= j < 32 ==> !a[j]
  }

  lemma {:induction false} NoneMul(a: Poly, b: Poly, i: nat)
    requires i <= 32 && NoneFrom(a, i)
    ensures MulFrom(a, b, i) == Zero()
    decreases 32 - i
  {
    if i < 32 {
      NoneMul(a, b, i + 1);
      XorZero(Zero());
    }
  }

  lemma SomeFrom(a: Poly)
    requires a != Zero()
    ensures !NoneFrom(a, 0)
  {
    assert NoneFrom(a, 0) ==> a == Zero();
  }

  /** c is b * x^i, and p together with the coefficients of a from x^i on gives the product. */
  ghost predicate Multiplying(a: Poly, b: Poly, i: nat, c: Poly, p: Poly) {
    i < 32 && !NoneFrom(a, i) && forall k {:trigger Unfold(k)} :: Unfold(k) ==> c == XtN(b, i) && Xor(p, MulFrom(a, b, i)) == Mul(a, b)
  }

  lemma {:induction false} MultiplyStart(a: Poly, b: Poly)
    requires a != Zero()
    ensures Multiplying(a, b, 0, b, Zero())
  {
    SomeFrom(a);
    XorZero(Mul(a, b));
  }

  lemma {:induction false} MultiplyOne(a: Poly, b: Poly, i: nat, c: Poly, p: Poly)
    requires Multiplying(a, b, i, c, p)
    ensures var p' := if a[i] then Xor(p, c) else p;
            if NoneFrom(a, i + 1) then a[i] && p' == Mul(a, b) else Multiplying(a, b, i + 1, Xt(c), p')
  {
    assert NoneFrom(a, 32);
    if NoneFrom(a, i + 1) {
      MultiplyLast(a, b, i, c, p);
    } else {
      MultiplyNext(a, b, i, c, p);
    }
  }

  lemma {:induction false} MultiplyLast(a: Poly, b: Poly, i: nat, c: Poly, p: Poly)
    requires Multiplying(a, b, i, c, p) && NoneFrom(a, i + 1)
    ensures a[i] && Xor(p, c) == Mul(a, b)
  {
    assert Unfold(0);
    NoneMul(a, b, i + 1);
    XorZero(c);
  }

  lemma {:induction false} MultiplyNext(a: Poly, b: Poly, i: nat, c: Poly, p: Poly)
    requires Multiplying(a, b, i, c, p) && !NoneFrom(a, i + 1) && i < 31
    ensures Multiplying(a, b, i + 1, Xt(c), if a[i] then Xor(p, c) else p)
  {
    assert Unfold(0);
    var m := MulFrom(a, b, i + 1);
    if a[i] {
      XorAssoc(p, c, m);
    } else {
      XorZero(m);
    }
  }

  /** a * b modulo the polynomial, for a not zero (multmodp). */
  method MultModP(a: Poly, b: Poly) returns (p: Poly)
    requires a != Zero()
    ensures p == Mul(a, b)
  {
    var i: nat, c := 0, b;
    p := Zero();
    MultiplyStart(a, b);
    while true
      invariant Multiplying(a, b, i, c, p)
      decreases 32 - i
    {
      MultiplyOne(a, b, i, c, p);
      if a[i] {
        p := Xor(p, c);
        if NoneFrom(a, i + 1) { break; }
      }
      i := i + 1;
      c := Xt(c);
    }
  }

  // ---------------------------------------------------------------- powers of x

  /** x2n[k] is x^(2^k). */
  ghost predicate Doublings(x2n: seq<Poly>) {
    forall k {:trigger x2n[k]} :: 0 <= k < |x2n| ==> IsPow(x2n[k], Pow2(k))
  }

  lemma {:induction false} AppendDoubling(x2n: seq<Poly>, p: Poly)
    requires Doublings(x2n) && IsPow(p, Pow2(|x2n|))
    ensures Doublings(x2n + [p])
  {
  }

  method XItself() returns (p: Poly)
    ensures IsPow(p, Pow2(0))
  {
    p := Unit(1);
    FirstPowers();
    assert Pow2(0) == 1;
  }

  method One() returns (p: Poly)
    ensures IsPow(p, 0)
  {
    p := Unit(0);
    FirstPowers();
  }

  method Squared(p: Poly, ghost k: nat) returns (q: Poly)
    requires IsPow(p, Pow2(k))
    ensures IsPow(q, Pow2(k + 1))
  {
    PowTimes(p, Pow2(k), p, Pow2(k));
    q := MultModP(p, p);
  }

  /** The table of x^(2^k) (make_crc_table). */
  method MakeX2nTable() returns (x2n: seq<Poly>)
    ensures |x2n| == 32 && Doublings(x2n)
  {
    x2n := [];
    var p := XItself();
    AppendDoubling(x2n, p);
    x2n := x2n + [p];
    for n := 1 to 32
      invariant |x2n| == n && Doublings(x2n) && IsPow(p, Pow2(n - 1))
    {
      p := Squared(p, n - 1);
      AppendDoubling(x2n, p);
      x2n := x2n + [p];
    }
  }

  /** x^(2^p) is x again. */
  ghost predicate Wraps(p: nat) {
    IsPow(Unit(1), Pow2(p))
  }

  function Times(c: nat, m: nat): (r: nat)
    decreases m
  {
    if m == 0 then 0 else Times(c, m - 1) + c
  }

  lemma {:induction false} TimesIs(c: nat, m: nat)
    ensures Times(c, m) == c * m
    decreases m
  {
    if m > 0 {
      TimesIs(c, m - 1);
    }
  }

  lemma {:induction false} PowWraps(c: nat, d: nat, m: nat)
    requires XPow(c) == XPow(d)
    ensures XPow(Times(c, m)) == XPow(Times(d, m))
    decreases m
  {
    if m > 0 {
      PowWraps(c, d, m - 1);
      PowAdd(Times(c, m - 1), c);
      PowAdd(Times(d, m - 1), d);
    }
  }

  lemma {:induction false} BothPowers(p: Poly, m: nat, n: nat)
    requires IsPow(p, m) && IsPow(p, n)
    ensures XPow(m) == XPow(n)
  {
    assert Unfold(0);
  }

  lemma {:induction false} TableWraps(k: nat, p: nat)
    requires p > 0 && Wraps(p)
    ensures XPow(Pow2(k)) == XPow(Pow2(Round(k, p)))
    decreases k
  {
    if k >= p {
      TableWraps(k - p, p);
      Pow2Add(p, k - p);
      TimesIs(Pow2(p), Pow2(k - p));
      TimesIs(1, Pow2(k - p));
      FirstPowers();
      BothPowers(Unit(1), Pow2(p), 1);
      PowWraps(Pow2(p), 1, Pow2(k - p));
    }
  }

  /** Every table entry that x2nmodp(n, k) uses is the right one: either no index wraps round, or wrapping is right. */
  ghost predicate InTable(n: nat, k: nat, p: nat) {
    Wraps(p) || (k <= p && n < Pow2(p - k))
  }

  lemma {:induction false} InTableStep(n: nat, k: nat, p: nat)
    requires InTable(n, k, p) && n > 0 && p > 0
    ensures InTable(n / 2, k + 1, p) && XPow(Pow2(k)) == XPow(Pow2(Round(k, p)))
  {
    if Wraps(p) {
      TableWraps(k, p);
    } else {
      assert k < p;
    }
  }

  /** x^(n * 2^k) modulo the polynomial (x2nmodp). The index into the table wraps after its last entry, which
      is right because x^(2^32) is x. */
  method X2nModP(n0: nat, k0: nat, x2n: seq<Poly>) returns (p: Poly)
    requires |x2n| > 0 && Doublings(x2n)
    ensures InTable(n0, k0, |x2n|) ==> IsPow(p, n0 * Pow2(k0))
    ensures p != Zero()
  {
    var n, k := n0, k0;
    p := One();
    ghost var e: nat, total, right := 0, n0 * Pow2(k0), InTable(n0, k0, |x2n|);
    while n > 0
      invariant IsPow(p, e) && (right ==> InTable(n, k, |x2n|) && Exponent(e, n, k) == total)
      decreases n
    {
      ExponentStep(e, n, k);
      if right { InTableStep(n, k, |x2n|); }
      if n % 2 == 1 {
        ghost var d;
        p, d := TimesEntry(p, e, k, x2n, right);
        e := e + d;
      }
      n := n / 2;
      k := k + 1;
    }
    PowTimes(p, e, p, e);
  }

  lemma {:induction false} SamePow(p: Poly, m: nat, n: nat)
    requires IsPow(p, m) && XPow(m) == XPow(n)
    ensures IsPow(p, n)
  {
    assert Unfold(0);
  }

  /** Multiplies x^e by the table's entry for k, which is x^d. */
  method TimesEntry(p: Poly, ghost e: nat, k: nat, x2n: seq<Poly>, ghost right: bool) returns (r: Poly, ghost d: nat)
    requires |x2n| > 0 && Doublings(x2n) && IsPow(p, e)
    requires right ==> XPow(Pow2(k)) == XPow(Pow2(Round(k, |x2n|)))
    ensures IsPow(r, e + d) && (right ==> d == Pow2(k))
  {
    RoundIs(k, |x2n|);
    d := Pow2(Round(k, |x2n|));
    var entry := x2n[k % |x2n|];
    if right {
      SamePow(entry, d, Pow2(k));
      d := Pow2(k);
    }
    PowTimes(entry, d, p, e);
    r := MultModP(entry, p);
  }

  ghost function Exponent(e: nat, n: nat, k: nat): (r: nat) { e + n * Pow2(k) }

  lemma ExponentStep(e: nat, n: nat, k: nat)
    requires n > 0
    ensures Exponent(if n % 2 == 1 then e + Pow2(k) else e, n / 2, k + 1) == Exponent(e, n, k)
  {
    var p := Pow2(k);
    assert n == 2 * (n / 2) + n % 2;
    assert n * p == n / 2 * (2 * p) + n % 2 * p;
  }

  // ---------------------------------------------------------------- the checksum

  /** A byte as a polynomial, its highest power in the lowest bit, times x^24: added to the register it
      meets the coefficients that are shifted out next. */
  type Octet = p: seq<bool> | |p| == 8 witness seq(8, _ => false)

  function Raise(q: Octet): (r: Poly) { seq(32, i requires 0 <= i < 32 => i >= 24 && q[i - 24]) }

  /** One byte through the shift register, bit by bit. */
  function Step(c: Poly, q: Octet): (r: Poly) {
    XtN(Xor(c, Raise(q)), 8)
  }

  /** The register after all of s. */
  function Register(c: Poly, s: seq<Octet>): (r: Poly) {
    if s == [] then c else Step(Register(c, s[..|s| - 1]), s[|s| - 1])
  }

  function Ones(): (r: Poly) { seq(32, _ => true) }

  /** The checksum: register preset to ones, and inverted at the end. */
  function Crc(s: seq<Octet>): (r: Poly) {
    Xor(Register(Ones(), s), Ones())
  }

  lemma {:induction false} StepLinear(c: Poly, d: Poly, q: Octet)
    ensures Step(Xor(c, d), q) == Xor(Step(c, q), XtN(d, 8))
  {
    XorAssoc(c, d, Raise(q));
    XorComm(d, Raise(q));
    XorAssoc(c, Raise(q), d);
    XtNLinear(Xor(c, Raise(q)), d, 8);
  }

  /** A change of the initial register only adds itself, moved on past the data. */
  lemma {:induction false} RegisterLinear(c: Poly, d: Poly, s: seq<Octet>)
    ensures Register(Xor(c, d), s) == Xor(Register(c, s), XtN(d, 8 * |s|))
  {
    if s == [] {
      assert XtN(d, 0) == d;
    } else {
      var t := s[..|s| - 1];
      RegisterLinear(c, d, t);
      StepLinear(Register(c, t), XtN(d, 8 * |t|), s[|s| - 1]);
      XtNAdd(d, 8 * |t|, 8);
    }
  }

  lemma {:induction false} RegisterConcat(c: Poly, s: seq<Octet>, t: seq<Octet>)
    ensures Register(c, s + t) == Register(Register(c, s), t)
  {
    if t == [] {
      assert s + t == s;
    } else {
      var u := t[..|t| - 1];
      RegisterConcat(c, s, u);
      assert (s + t)[..|s + t| - 1] == s + u;
    }
  }

  /** The checksum of a concatenation from the checksums of its parts. */
  lemma {:induction false} CrcConcat(s: seq<Octet>, t: seq<Octet>)
    ensures Crc(s + t) == Xor(XtN(Crc(s), 8 * |t|), Crc(t))
  {
    var r := Register(Ones(), s);
    RegisterConcat(Ones(), s, t);
    XorComm(r, Ones());
    XorSelf(Ones(), r);
    RegisterLinear(Ones(), Crc(s), t);
    var x, y := Register(Ones(), t), XtN(Crc(s), 8 * |t|);
    XorComm(x, y);
    XorAssoc(y, x, Ones());
  }

  lemma {:induction false} CombineSum(s: seq<Octet>, t: seq<Octet>, op: Poly, e: nat)
    requires IsPow(op, e) && e == 8 * |t|
    ensures Xor(Mul(op, Crc(s)), Crc(t)) == Crc(s + t)
  {
    assert Unfold(0);
    PowMul(e, Crc(s));
    CrcConcat(s, t);
  }

  lemma EightTimes(n: nat, k: nat)
    requires k == 3
    ensures n * Pow2(k) == 8 * n
  {
    assert Pow2(k) == 2 * Pow2(k - 1) && Pow2(k - 1) == 2 * Pow2(k - 2) && Pow2(k - 2) == 2 * Pow2(k - 3);
  }

  /** crc32_combine64: from the checksums of two strings, the second of length len2, the checksum of both together. */
  method Combine(crc1: Poly, crc2: Poly, len2: nat, x2n: seq<Poly>) returns (r: Poly)
    requires |x2n| > 0 && Doublings(x2n)
    ensures forall s: seq<Octet>, t: seq<Octet> {:trigger Crc(s + t)} ::
              InTable(len2, 3, |x2n|) && crc1 == Crc(s) && crc2 == Crc(t) && len2 == |t| ==> r == Crc(s + t)
  {
    var k := 3;
    var op := X2nModP(len2, k, x2n);
    EightTimes(len2, k);
    var p := MultModP(op, crc1);
    r := Xor(p, crc2);
    forall s: seq<Octet>, t: seq<Octet> {:trigger Crc(s + t)} |
      InTable(len2, 3, |x2n|) && crc1 == Crc(s) && crc2 == Crc(t) && len2 == |t|
      ensures r == Crc(s + t)
    {
      CombineSum(s, t, op, len2 * Pow2(k));
    }
  }
}
