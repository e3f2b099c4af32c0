/** The Adler-32 checksum of adler32.c (section 8.2 of RFC 1950). */
module Adler32 {
  import opened Common

  const BASE := 65521
  const NMAX := 5552

  /** An unsigned 32-bit quantity: a sum kept in one has not overflowed. */
  type Word = x: int | 0 <= x < 0x1_0000_0000

  datatype Sums = Sums(a: nat, b: nat)

  /** The remainder modulo BASE. */
  function Rem(x: nat): (r: nat)
    ensures r < BASE
  {
    if x < BASE then x else Rem(x - BASE)
  }

  lemma {:induction false} RemIsModulo(x: nat)
    ensures Rem(x) == x % BASE
  {
    if x >= BASE {
      RemIsModulo(x - BASE);
    }
  }

  lemma {:induction false} SameRem(x: nat, y: nat, k: nat)
    requires x == y + BASE * k
    ensures Rem(x) == Rem(y)
    decreases k
  {
    if k > 0 {
      SameRem(x - BASE, y, k - 1);
    }
  }

  /** Every number is its remainder and some multiple of BASE. */
  lemma {:induction false} RemParts(x: nat) returns (k: nat)
    ensures x == Rem(x) + BASE * k
  {
    if x < BASE {
      k := 0;
    } else {
      k := RemParts(x - BASE);
      k := k + 1;
    }
  }

  lemma {:induction false} RemSum(x: nat, y: nat)
    ensures Rem(Rem(x) + y) == Rem(x + y)
  {
    var k := RemParts(x);
    SameRem(x + y, Rem(x) + y, k);
  }

  lemma {:induction false} RemSums(x: nat, y: nat)
    ensures Rem(Rem(x) + Rem(y)) == Rem(x + y)
  {
    RemSum(x, Rem(y));
    RemSum(y, x);
  }

  lemma RemOnce(x: nat)
    requires x < 2 * BASE
    ensures Rem(x) == if x < BASE then x else x - BASE
  {
    if x >= BASE {
      SameRem(x, x - BASE, 1);
    }
  }

  function Reduced(s: Sums): (r: Sums)
    ensures Small(r)
    ensures Small(s) ==> r == s
  {
    Sums(Rem(s.a), Rem(s.b))
  }

  /** The definition: both sums are taken modulo BASE after every byte. */
  function Adler(s: Sums, t: seq<byte>): (r: Sums) {
    if t == [] then s
    else
      var p := Adler(s, t[..|t| - 1]);
      var a := Rem(p.a + t[|t| - 1]);
      Sums(a, Rem(p.b + a))
  }

  /** The sums without any reduction. */
  function Plain(s: Sums, t: seq<byte>): (r: Sums) {
    if t == [] then s
    else
      var p := Plain(s, t[..|t| - 1]);
      Sums(p.a + t[|t| - 1], p.b + p.a + t[|t| - 1])
  }

  function Start(): (r: Sums) {
    Sums(1, 0)
  }

  /** The checksum as one 32-bit value: the first sum in the low half, the second in the high half. */
  function Packed(s: Sums): (r: nat) {
    s.a + 0x1_0000 * s.b
  }

  function Unpacked(v: Word): (r: Sums)
    ensures Packed(r) == v && r.a < 0x1_0000 && r.b < 0x1_0000
  {
    Sums(v % 0x1_0000, v / 0x1_0000)
  }

  lemma PackedInjective(s: Sums, t: Sums)
    requires s.a < 0x1_0000 && t.a < 0x1_0000 && Packed(s) == Packed(t)
    ensures s == t
  {
  }

  predicate Small(s: Sums) {
    s.a < BASE && s.b < BASE
  }

  lemma {:induction false} AdlerAppend(s: Sums, t: seq<byte>, u: seq<byte>)
    ensures Adler(s, t + u) == Adler(Adler(s, t), u)
    decreases |u|
  {
    if u == [] {
      assert t + u == t;
    } else {
      var v := u[..|u| - 1];
      assert (t + u)[..|t + u| - 1] == t + v;
      AdlerAppend(s, t, v);
    }
  }

  lemma {:induction false} AdlerSmall(s: Sums, t: seq<byte>)
    requires Small(s)
    ensures Small(Adler(s, t))
  {
    if t != [] {
      AdlerSmall(s, t[..|t| - 1]);
    }
  }

  /** Reducing once at the end gives what reducing after every byte gives. */
  lemma {:induction false} Deferred(s: Sums, t: seq<byte>)
    ensures Reduced(Plain(s, t)) == Adler(Reduced(s), t)
  {
    if t != [] {
      Deferred(s, t[..|t| - 1]);
      var p := Plain(s, t[..|t| - 1]);
      RemSum(p.a, t[|t| - 1]);
      RemSums(p.b, p.a + t[|t| - 1]);
    }
  }

  // ---------------------------------------------------------------- how large the sums get

  /** 0 + 1 + ... + n. */
  function Triangle(n: nat): (r: nat) {
    if n == 0 then 0 else Triangle(n - 1) + n
  }

  lemma {:induction false} TriangleValue(n: nat)
    ensures 2 * Triangle(n) == n * (n + 1)
  {
    if n > 0 {
      TriangleValue(n - 1);
    }
  }

  /** The largest sums that n bytes can lead to. */
  lemma {:induction false} PlainBound(s: Sums, t: seq<byte>)
    requires s.a < 0x1_0000 && s.b < 0x1_0000
    ensures Plain(s, t).a <= 0xffff + 255 * |t|
    ensures Plain(s, t).b <= (|t| + 1) * 0xffff + 255 * Triangle(|t|)
  {
    if t != [] {
      PlainBound(s, t[..|t| - 1]);
    }
  }

  lemma {:induction false} TriangleMonotone(m: nat, n: nat)
    requires m <= n
    ensures Triangle(m) <= Triangle(n)
    decreases n
  {
    if m < n {
      TriangleMonotone(m, n - 1);
    }
  }

  /** NMAX bytes fit into 32 bits, whatever 16-bit sums they start from. */
  lemma {:induction false} BlockFits(s: Sums, t: seq<byte>)
    requires s.a < 0x1_0000 && s.b < 0x1_0000 && |t| <= NMAX
    ensures Plain(s, t).a < 0x1_0000_0000 && Plain(s, t).b < 0x1_0000_0000
  {
    PlainBound(s, t);
    TriangleMonotone(|t|, NMAX);
    TriangleValue(NMAX);
  }

  /** All bytes 255. */
  function Full(n: nat): (r: seq<byte>)
    ensures |r| == n
  {
    seq(n, i => 255)
  }

  lemma {:induction false} FullSums(n: nat)
    ensures Plain(Sums(BASE - 1, BASE - 1), Full(n)).a == BASE - 1 + 255 * n
    ensures Plain(Sums(BASE - 1, BASE - 1), Full(n)).b == (n + 1) * (BASE - 1) + 255 * Triangle(n)
  {
    if n > 0 {
      FullSums(n - 1);
      assert Full(n)[..n - 1] == Full(n - 1);
    }
  }

  /** One byte more would not: NMAX is the largest block that is safe for every input. */
  lemma {:induction false} BlockIsLargest(n: nat)
    ensures n <= NMAX <==> forall s: Sums, t: seq<byte> :: Small(s) && |t| == n ==> Plain(s, t).b < 0x1_0000_0000
  {
    if n <= NMAX {
      forall s: Sums, t: seq<byte> | Small(s) && |t| == n
        ensures Plain(s, t).b < 0x1_0000_0000
      {
        BlockFits(s, t);
      }
    } else {
      FullSums(n);
      TriangleMonotone(NMAX + 1, n);
      TriangleValue(NMAX + 1);
      assert Small(Sums(BASE - 1, BASE - 1)) && |Full(n)| == n;
    }
  }

  // ---------------------------------------------------------------- reductions without division

  /** CHOP: 65536 is 15 more than BASE, so a high half counts fifteen times. */
  method Chop(x: nat) returns (r: nat)
    ensures Rem(r) == Rem(x)
    ensures r <= 0xffff + 15 * (x / 0x1_0000)
  {
    var tmp := x / 0x1_0000;
    r := x % 0x1_0000 + (tmp * 16 - tmp);
    SameRem(x, r, tmp);
  }

  method Mod28(x: nat) returns (r: nat)
    requires x < 0x1000_0000
    ensures r == Rem(x)
  {
    r := Chop(x);
    if r >= BASE { r := r - BASE; }
  }

  method Mod(x: Word) returns (r: nat)
    ensures r == Rem(x)
  {
    r := Chop(x);
    r := Mod28(r);
  }

  /** 2^32 is 225 more than a multiple of BASE. */
  method Fold63(x: nat) returns (r: nat)
    requires x < 0x8000_0000_0000_0000
    ensures Rem(r) == Rem(x)
    ensures r < 0x80_0000_0000
  {
    var tmp := x / 0x1_0000_0000;
    r := x % 0x1_0000_0000 + (tmp * 256 - tmp * 32 + tmp);
    SameRem(x, r, 65551 * tmp);
  }

  method Mod63(x: nat) returns (r: nat)
    requires x < 0x8000_0000_0000_0000
    ensures r == Rem(x)
  {
    r := Fold63(x);
    r := Chop(r);
    r := Chop(r);
    if r >= BASE { r := r - BASE; }
  }

  // ---------------------------------------------------------------- adler32_z

  /** DO16 and the byte loops: n bytes from position i on, no reduction. */
  method AddBytes(buf: seq<byte>, i: nat, n: nat, adler0: Word, sum20: Word, ghost s: Sums, ghost from: nat)
      returns (adler: Word, sum2: Word)
    requires from <= i && i + n <= |buf| && i + n - from <= NMAX && s.a < 0x1_0000 && s.b < 0x1_0000
    requires Sums(adler0, sum20) == Plain(s, buf[from..i])
    ensures Sums(adler, sum2) == Plain(s, buf[from..i + n])
  {
    adler, sum2 := adler0, sum20;
    for k := 0 to n
      invariant Sums(adler, sum2) == Plain(s, buf[from..i + k])
    {
      BlockFits(s, buf[from..i + k + 1]);
      assert buf[from..i + k + 1][..i + k - from] == buf[from..i + k];
      adler := adler + buf[i + k];
      sum2 := sum2 + adler;
    }
  }

  /** One block of NMAX bytes, sixteen at a time, with one reduction. */
  method AddBlock(buf: seq<byte>, i: nat, adler0: Word, sum20: Word) returns (adler: Word, sum2: Word)
    requires i + NMAX <= |buf| && adler0 < 0x1_0000 && sum20 < 0x1_0000
    ensures Sums(adler, sum2) == Adler(Reduced(Sums(adler0, sum20)), buf[i..i + NMAX])
    ensures adler < BASE && sum2 < BASE
  {
    ghost var s := Sums(adler0, sum20);
    adler, sum2 := adler0, sum20;
    for n := 0 to NMAX / 16
      invariant Sums(adler, sum2) == Plain(s, buf[i..i + 16 * n])
    {
      adler, sum2 := AddBytes(buf, i + 16 * n, 16, adler, sum2, s, i);
    }
    Deferred(s, buf[i..i + NMAX]);
    adler := Mod(adler);
    sum2 := Mod(sum2);
  }

  /** The last bytes, fewer than NMAX. */
  method AddRest(buf: seq<byte>, i: nat, adler0: Word, sum20: Word) returns (adler: Word, sum2: Word)
    requires i < |buf| < i + NMAX && adler0 < 0x1_0000 && sum20 < 0x1_0000
    ensures Sums(adler, sum2) == Adler(Reduced(Sums(adler0, sum20)), buf[i..])
    ensures adler < BASE && sum2 < BASE
  {
    ghost var s := Sums(adler0, sum20);
    adler, sum2 := adler0, sum20;
    var j := i;
    while |buf| - j >= 16
      invariant i <= j <= |buf|
      invariant Sums(adler, sum2) == Plain(s, buf[i..j])
    {
      adler, sum2 := AddBytes(buf, j, 16, adler, sum2, s, i);
      j := j + 16;
    }
    adler, sum2 := AddBytes(buf, j, |buf| - j, adler, sum2, s, i);
    assert buf[i..] == buf[i..|buf|];
    Deferred(s, buf[i..]);
    adler := Mod(adler);
    sum2 := Mod(sum2);
  }

  /** Fewer than sixteen bytes: the first sum needs one subtraction at most. */
  method AddShort(buf: seq<byte>, adler0: Word, sum20: Word) returns (adler: Word, sum2: Word)
    requires |buf| < 16 && adler0 < 0x1_0000 && sum20 < 0x1_0000
    ensures Sums(adler, sum2) == Adler(Reduced(Sums(adler0, sum20)), buf)
    ensures adler < BASE && sum2 < BASE
  {
    ghost var s := Sums(adler0, sum20);
    adler, sum2 := AddBytes(buf, 0, |buf|, adler0, sum20, s, 0);
    assert buf[0..|buf|] == buf;
    Deferred(s, buf);
    PlainBound(s, buf);
    TriangleMonotone(|buf|, 15);
    TriangleValue(15);
    RemOnce(adler);
    if adler >= BASE { adler := adler - BASE; }
    sum2 := Mod28(sum2);
  }

  /** One byte, with subtractions in place of reductions. */
  method AddOne(c: byte, adler0: Word, sum20: Word) returns (adler: Word, sum2: Word)
    requires adler0 < 0x1_0000 && sum20 < 0x1_0000
    ensures adler < BASE && sum2 < 0x1_0000
    ensures Sums(adler, sum2) == Adler(Reduced(Sums(adler0, sum20)), [c]) <==> sum20 + Rem(adler0 + c) < 2 * BASE
  {
    assert [c][..0] == [];
    ghost var s := Reduced(Sums(adler0, sum20));
    assert Adler(s, []) == s;
    adler := adler0 + c;
    if adler >= BASE { adler := adler - BASE; }
    RemSum(adler0, c);
    RemSum(sum20, adler);
    sum2 := sum20 + adler;
    if sum2 >= BASE { sum2 := sum2 - BASE; }
  }

  /** Sixteen bytes or more. */
  method AddLong(t: seq<byte>, adler0: Word, sum20: Word) returns (adler: Word, sum2: Word)
    requires |t| >= 16 && adler0 < 0x1_0000 && sum20 < 0x1_0000
    ensures Sums(adler, sum2) == Adler(Reduced(Sums(adler0, sum20)), t)
    ensures adler < BASE && sum2 < BASE
  {
    ghost var s := Reduced(Sums(adler0, sum20));
    adler, sum2 := adler0, sum20;
    var i := 0;
    while |t| - i >= NMAX
      invariant 0 <= i <= |t| && adler < 0x1_0000 && sum2 < 0x1_0000
      invariant Reduced(Sums(adler, sum2)) == Adler(s, t[..i])
      invariant i > 0 ==> adler < BASE && sum2 < BASE
    {
      AdlerAppend(s, t[..i], t[i..i + NMAX]);
      assert t[..i] + t[i..i + NMAX] == t[..i + NMAX];
      adler, sum2 := AddBlock(t, i, adler, sum2);
      i := i + NMAX;
    }
    if i < |t| {
      AdlerAppend(s, t[..i], t[i..]);
      assert t[..i] + t[i..] == t;
      adler, sum2 := AddRest(t, i, adler, sum2);
    } else {
      assert t[..i] == t;
    }
  }

  /** The checksum of buf, from any 32-bit start; a null pointer asks for the start value. Only one byte
      added to sums that no checksum has can come out short of a full reduction. */
  method Adler32Z(adler: Word, buf: Option<seq<byte>>) returns (r: Word)
    ensures buf.None? ==> r == Packed(Start())
    ensures buf.Some? ==>
      (r == Packed(Adler(Reduced(Unpacked(adler)), buf.value)) <==>
        |buf.value| != 1 || Unpacked(adler).b + Rem(Unpacked(adler).a + buf.value[0]) < 2 * BASE)
    ensures buf.Some? && Small(Unpacked(adler)) ==> r == Packed(Adler(Unpacked(adler), buf.value))
  {
    var sum2, low := adler / 0x1_0000, adler % 0x1_0000;
    if buf.None? { return 1; }
    var t := buf.value;
    AdlerSmall(Reduced(Unpacked(adler)), t);
    if |t| == 1 {
      assert t == [t[0]];
      low, sum2 := AddOne(t[0], low, sum2);
    } else if |t| < 16 {
      low, sum2 := AddShort(t, low, sum2);
    } else {
      low, sum2 := AddLong(t, low, sum2);
    }
    r := low + 0x1_0000 * sum2;
    if r == Packed(Adler(Reduced(Unpacked(adler)), t)) {
      PackedInjective(Sums(low, sum2), Adler(Reduced(Unpacked(adler)), t));
    }
  }

  /** The sums 65520 and 65535, which no checksum has, and one byte of zero: two sums that add up to twice the base or
      more. */
  lemma {:induction false} UnreducedStart()
    ensures Unpacked(0xffff_fff0) == Sums(65520, 65535)
        && Unpacked(0xffff_fff0).b + Rem(Unpacked(0xffff_fff0).a + 0) >= 2 * BASE
  {
    RemOnce(65520);
  }

  /** For these the single subtraction leaves the second sum short of a full reduction. */
  method UnreducedByte() returns (r: Word)
    ensures r != Packed(Adler(Reduced(Unpacked(0xffff_fff0)), [0]))
  {
    UnreducedStart();
    r := Adler32Z(0xffff_fff0, Some([0]));
  }

  // ---------------------------------------------------------------- adler32_combine_

  /** How the sums of a text depend on where they start. */
  lemma {:induction false} PlainShift(s: Sums, t: seq<byte>)
    ensures Plain(s, t).a == s.a + Plain(Sums(0, 0), t).a
    ensures Plain(s, t).b == s.b + |t| * s.a + Plain(Sums(0, 0), t).b
  {
    if t != [] {
      PlainShift(s, t[..|t| - 1]);
    }
  }

  lemma {:induction false} RemProduct(n: nat, x: nat)
    ensures Rem(Rem(n) * x) == Rem(n * x)
  {
    var k := RemParts(n);
    assert n * x == Rem(n) * x + BASE * (k * x);
    SameRem(n * x, Rem(n) * x, k * x);
  }

  lemma {:induction false} StartSums(u: seq<byte>)
    ensures var z := Plain(Sums(0, 0), u); Adler(Start(), u) == Reduced(Sums(1 + z.a, |u| + z.b))
  {
    Deferred(Start(), u);
    PlainShift(Start(), u);
  }

  lemma {:induction false} ConcatSums(t: seq<byte>, u: seq<byte>)
    ensures var p, z := Adler(Start(), t), Plain(Sums(0, 0), u);
      Adler(Start(), t + u) == Reduced(Sums(p.a + z.a, p.b + |u| * p.a + z.b))
  {
    var p := Adler(Start(), t);
    AdlerSmall(Start(), t);
    AdlerAppend(Start(), t, u);
    Deferred(p, u);
    PlainShift(p, u);
  }

  lemma {:induction false} LowSum(p: nat, z: nat, r: nat, k: nat)
    requires r < BASE && r + BASE * k == p + Rem(1 + z) + BASE - 1
    ensures r == Rem(p + z)
  {
    var j := RemParts(1 + z);
    SameRem(p + z + BASE, r, k + j);
    SameRem(p + z + BASE, p + z, 1);
  }

  lemma {:induction false} HighSum(p: nat, n: nat, m: nat, z: nat, r: nat, k: nat)
    requires r < BASE && r + BASE * k == Rem(m) + p + Rem(n + z) + BASE - Rem(n)
    ensures r == Rem(p + m + z)
  {
    var i := RemParts(m);
    var j := RemParts(n);
    var l := RemParts(n + z);
    SameRem(p + m + z + BASE * (j + 1), r, k + i + l);
    SameRem(p + m + z + BASE * (j + 1), p + m + z, j + 1);
  }

  lemma {:induction false} CombinedLow(t: seq<byte>, u: seq<byte>, sum1: nat, k: nat)
    requires sum1 < BASE && sum1 + BASE * k == Adler(Start(), t).a + Adler(Start(), u).a + BASE - 1
    ensures sum1 == Adler(Start(), t + u).a
  {
    ConcatSums(t, u);
    StartSums(u);
    LowSum(Adler(Start(), t).a, Plain(Sums(0, 0), u).a, sum1, k);
  }

  lemma {:induction false} CombinedHigh(t: seq<byte>, u: seq<byte>, m: nat, sum2: nat, l: nat)
    requires m == |u| * Adler(Start(), t).a && sum2 < BASE
    requires sum2 + BASE * l == Rem(m) + Adler(Start(), t).b + Adler(Start(), u).b + BASE - Rem(|u|)
    ensures sum2 == Adler(Start(), t + u).b
  {
    HighParts(t, u, m);
    HighSum(Adler(Start(), t).b, |u|, m, Plain(Sums(0, 0), u).b, sum2, l);
  }

  lemma {:induction false} HighParts(t: seq<byte>, u: seq<byte>, m: nat)
    requires m == |u| * Adler(Start(), t).a
    ensures Adler(Start(), u).b == Rem(|u| + Plain(Sums(0, 0), u).b)
    ensures Adler(Start(), t + u).b == Rem(Adler(Start(), t).b + m + Plain(Sums(0, 0), u).b)
  {
    ConcatSums(t, u);
    StartSums(u);
  }

  /** The conditional subtractions of adler32_combine_ reduce both sums fully. */
  method Subtract(sum10: nat, sum20: nat) returns (sum1: nat, sum2: nat, ghost k: nat, ghost l: nat)
    requires sum10 < 3 * BASE && sum20 < 4 * BASE
    ensures sum1 < BASE && sum2 < BASE && sum10 == sum1 + BASE * k && sum20 == sum2 + BASE * l
  {
    sum1, sum2, k, l := sum10, sum20, 0, 0;
    if sum1 >= BASE { sum1, k := sum1 - BASE, k + 1; }
    if sum1 >= BASE { sum1, k := sum1 - BASE, k + 1; }
    if sum2 >= 2 * BASE { sum2, l := sum2 - 2 * BASE, l + 2; }
    if sum2 >= BASE { sum2, l := sum2 - BASE, l + 1; }
  }

  lemma {:induction false} ProductBound(x: nat, y: nat)
    requires x < BASE
    ensures 0 <= x * y <= 65520 * y
  {
    if y > 0 {
      ProductBound(x, y - 1);
      assert x * y == x * (y - 1) + x;
    }
  }

  /** The product of the reduced length and a reduced sum fits into 32 bits. */
  method Product(len2: nat, rem: nat, x: nat) returns (r: nat)
    requires rem == Rem(len2) && x < BASE
    ensures r == Rem(len2 * x)
  {
    ProductBound(rem, x);
    RemProduct(len2, x);
    r := Mod(rem * x);
  }

  method CombineSums(p: Sums, q: Sums, len2: nat, ghost t: seq<byte>, ghost u: seq<byte>) returns (r: Sums)
    requires len2 < 0x8000_0000_0000_0000 && len2 == |u| && p == Adler(Start(), t) && q == Adler(Start(), u)
    ensures r == Adler(Start(), t + u)
  {
    AdlerSmall(Start(), t);
    AdlerSmall(Start(), u);
    var rem := Mod63(len2);
    var sum2 := Product(len2, rem, p.a);
    var sum1;
    ghost var k, l;
    sum1, sum2, k, l := Subtract(p.a + q.a + BASE - 1, sum2 + p.b + q.b + BASE - rem);
    CombinedLow(t, u, sum1, k);
    CombinedHigh(t, u, len2 * p.a, sum2, l);
    r := Sums(sum1, sum2);
  }

  /** adler32_combine_: the checksum of a concatenation from the checksums of its parts. */
  method Combine(adler1: Word, adler2: Word, len2: int, ghost t: seq<byte>, ghost u: seq<byte>) returns (r: Word)
    requires len2 < 0x8000_0000_0000_0000
    requires len2 >= 0 ==> len2 == |u| && adler1 == Packed(Adler(Start(), t)) && adler2 == Packed(Adler(Start(), u))
    ensures r == if len2 < 0 then 0xffff_ffff else Packed(Adler(Start(), t + u))
  {
    if len2 < 0 { return 0xffff_ffff; }
    AdlerSmall(Start(), t);
    AdlerSmall(Start(), u);
    AdlerSmall(Start(), t + u);
    PackedInjective(Unpacked(adler1), Adler(Start(), t));
    PackedInjective(Unpacked(adler2), Adler(Start(), u));
    var s := CombineSums(Unpacked(adler1), Unpacked(adler2), len2, t, u);
    r := s.a + 0x1_0000 * s.b;
  }
}
