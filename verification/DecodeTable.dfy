/** The entries of a two-level decoding table (inftrees.h, inftrees.c) and what they mean. */
module DecodeTable {
  import opened Common
  import opened BitStream
  import opened Bwt
  import opened CanonicalCode
  import opened DeflateCode

  datatype Kind = CODES | LENS | DISTS

  /** What to do, how many bits to drop, and a value: the struct code. */
  datatype Entry = Entry(op: int, bits: int, val: int)

  const LBASE := [3, 4, 5, 6, 7, 8, 9, 10, 11, 13, 15, 17, 19, 23, 27, 31,
                  35, 43, 51, 59, 67, 83, 99, 115, 131, 163, 195, 227, 258, 0, 0]
  const LEXT := [16, 16, 16, 16, 16, 16, 16, 16, 17, 17, 17, 17, 18, 18, 18, 18,
                 19, 19, 19, 19, 20, 20, 20, 20, 21, 21, 21, 21, 16, 199, 202]
  const DBASE := [1, 2, 3, 4, 5, 7, 9, 13, 17, 25, 33, 49, 65, 97, 129, 193, 257, 385, 513, 769, 1025, 1537,
                  2049, 3073, 4097, 6145, 8193, 12289, 16385, 24577, 0, 0]
  const DEXT := [16, 16, 16, 16, 17, 17, 18, 18, 19, 19, 20, 20, 21, 21, 22, 22, 23, 23, 24, 24, 25, 25, 26, 26,
                 27, 27, 28, 28, 29, 29, 64, 64]

  /** The symbols that each kind of table has entries for. */
  predicate Known(kind: Kind, s: int) {
    0 <= s < (match kind case CODES => 19 case LENS => 288 case DISTS => 32)
  }

  function Meaning(kind: Kind, s: int, bits: int): (e: Entry)
    requires Known(kind, s)
    ensures e.bits == bits
  {
    match kind
    case CODES => Entry(0, bits, s)
    case LENS =>
      if s < 256 then Entry(0, bits, s)
      else if s >= 257 then Entry(LEXT[s - 257], bits, LBASE[s - 257])
      else Entry(96, bits, 0)
    case DISTS => Entry(DEXT[s], bits, DBASE[s])
  }

  const INVALID := Entry(64, 1, 0)

  /** An entry of the root table that leads to a sub-table of 2^op entries at val. */
  predicate IsLink(e: Entry) {
    0 < e.op < 16
  }

  lemma MeaningNoLink(kind: Kind, s: int, bits: int)
    requires Known(kind, s)
    ensures !IsLink(Meaning(kind, s, bits))
  {
    if kind == LENS && s >= 257 {
      LengthOp(s - 257);
    } else if kind == DISTS {
      DistanceOp(s);
    }
  }

  lemma LengthOp(i: nat)
    requires i < 31
    ensures LEXT[i] >= 16
  {
  }

  lemma DistanceOp(j: nat)
    requires j < 32
    ensures DEXT[j] >= 16
  {
  }

  // ---------------------------------------------------------------- stretches of a table

  ghost function Slot(t: seq<Entry>, base: int, x: seq<int>): (e: Entry) {
    if Bin(x) && 0 <= base + Val(x) < |t| then t[base + Val(x)] else INVALID
  }

  /** In the table of 2^c entries at base, every string that begins with w leads to e. */
  ghost predicate Block(t: seq<Entry>, base: int, c: nat, w: seq<int>, e: Entry) {
    && Bin(w) && |w| <= c && 0 <= base && base + Pow2(c) <= |t|
    && forall x {:trigger Slot(t, base, x)} :: |x| == c && Bin(x) && w <= x ==> Slot(t, base, x) == e
  }

  /** t' is t with e in every place of that table whose low n bits are v. */
  ghost predicate Filled(t': seq<Entry>, t: seq<Entry>, base: int, c: nat, n: nat, v: nat, e: Entry) {
    && |t'| == |t| && 0 <= base && base + Pow2(c) <= |t|
    && forall i :: 0 <= i < |t| ==> t'[i] == if base <= i < base + Pow2(c) && Low(i - base, n) == v then e else t[i]
  }

  lemma {:induction false} FilledBlock(t: seq<Entry>, t': seq<Entry>, base: int, c: nat, w: seq<int>, e: Entry)
    requires Bin(w) && |w| <= c && Filled(t', t, base, c, |w|, Val(w), e)
    ensures Block(t', base, c, w, e)
  {
    forall x | |x| == c && Bin(x) && w <= x
      ensures Slot(t', base, x) == e
    {
      ValBelow(x);
      ValParts(x, |w|);
      assert x[..|w|] == w;
    }
  }

  /** A block elsewhere is not touched. */
  lemma {:induction false} ApartBlock(t: seq<Entry>, t': seq<Entry>, base: int, c: nat, n: nat, v: nat, e: Entry,
      b: int, d: nat, w: seq<int>, f: Entry)
    requires Filled(t', t, base, c, n, v, e) && Block(t, b, d, w, f) && b + Pow2(d) <= base
    ensures Block(t', b, d, w, f)
  {
    forall x | |x| == d && Bin(x) && w <= x
      ensures Slot(t', b, x) == f
    {
      ValBelow(x);
      assert Slot(t, b, x) == f;
    }
  }

  /** Nor is a block of the same table for strings that cannot begin with both. */
  lemma {:induction false} BesideBlock(t: seq<Entry>, t': seq<Entry>, base: int, c: nat, w: seq<int>, e: Entry,
      u: seq<int>, f: Entry)
    requires Bin(w) && |w| <= c && Filled(t', t, base, c, |w|, Val(w), e) && Block(t, base, c, u, f) && !(w <= u)
        && !(u <= w)
    ensures Block(t', base, c, u, f)
  {
    forall x | |x| == c && Bin(x) && u <= x
      ensures Slot(t', base, x) == f
    {
      ValBelow(x);
      assert Slot(t, base, x) == f;
      ValParts(x, |w|);
      if Low(Val(x), |w|) == Val(w) {
        ValInjective(x[..|w|], w);
        Comparable(w, u, x);
      }
    }
  }

  lemma Comparable(w: seq<int>, u: seq<int>, x: seq<int>)
    requires w <= x && u <= x
    ensures w <= u || u <= w
  {
    if |w| <= |u| {
      assert u[..|w|] == w;
    } else {
      assert w[..|u|] == u;
    }
  }

  /** One entry of the root table changed leaves blocks that do not hold it. */
  lemma {:induction false} LinkBlock(t: seq<Entry>, q: seq<int>, e: Entry, b: int, d: nat, w: seq<int>, f: Entry)
    requires Bin(q) && Val(q) < |t| && Block(t, b, d, w, f)
    requires Val(q) < b || (b == 0 && d == |q| && !(w <= q))
    ensures Block(t[Val(q) := e], b, d, w, f)
  {
    var t' := t[Val(q) := e];
    forall x | |x| == d && Bin(x) && w <= x
      ensures Slot(t', b, x) == f
    {
      ValBelow(x);
      assert Slot(t, b, x) == f;
      if b + Val(x) == Val(q) { ValInjective(x, q); }
    }
  }

  // ---------------------------------------------------------------- filling in one code

  /** Among the places from fill on and below fill + 2^n, only one has v as its low bits. */
  lemma {:induction false} OnlyOne(d: nat, n: nat, v: nat, m: nat)
    requires Low(d, n) == v && Shl(m, n) <= d < Shl(m + 1, n)
    ensures d == Shl(m, n) + v
  {
    ShrLow(d, n);
    var q := Shr(d, n);
    if q < m {
      ShlBelowNext(q, v, n);
      ShlMonotone(q + 1, m, n);
    } else if q > m {
      ShlMonotone(m + 1, q, n);
    }
  }

  lemma {:induction false} ShlBelowNext(q: nat, v: nat, n: nat)
    requires v < Pow2(n)
    ensures Shl(q, n) + v < Shl(q + 1, n)
  {
    ShlAdd(q, 1, n);
    ShlPow(1, n);
  }

  /** The places from fill on are done. */
  ghost predicate FilledFrom(t': seq<Entry>, t: seq<Entry>, base: int, c: nat, n: nat, v: nat, e: Entry, fill: nat) {
    && |t'| == |t| && 0 <= base && base + Pow2(c) <= |t|
    && forall i :: 0 <= i < |t| ==> t'[i] == if base + fill <= i < base + Pow2(c) && Low(i - base, n) == v then e
        else t[i]
  }

  lemma {:induction false} FillOne(t'': seq<Entry>, t': seq<Entry>, t: seq<Entry>, base: int, c: nat, n: nat, v: nat,
      e: Entry, m: nat)
    requires v < Pow2(n) && m > 0 && Shl(m, n) <= Pow2(c) && FilledFrom(t', t, base, c, n, v, e, Shl(m, n))
    requires base + Shl(m - 1, n) + v < |t| && t'' == t'[base + Shl(m - 1, n) + v := e]
    ensures FilledFrom(t'', t, base, c, n, v, e, Shl(m - 1, n))
  {
    ShlBelowNext(m - 1, v, n);
    ShrUnique(m - 1, v, n);
    forall i | 0 <= i < |t|
      ensures t''[i] == if base + Shl(m - 1, n) <= i < base + Pow2(c) && Low(i - base, n) == v then e else t[i]
    {
      if base + Shl(m - 1, n) <= i < base + Shl(m, n) && Low(i - base, n) == v {
        OnlyOne(i - base, n, v, m - 1);
      }
    }
  }

  /** Puts here in every place whose low bits are the code, from the top down. */
  method Fill(table: array<Entry>, next: nat, curr: nat, at: nat, n: nat, here: Entry)
    requires n <= curr && at < Pow2(n) && next + Pow2(curr) <= table.Length
    modifies table
    ensures Filled(table[..], old(table[..]), next, curr, n, at, here)
  {
    var incr := Pow2(n);
    var fill := Pow2(curr);
    ghost var m, was := Pow2(curr - n), table[..];
    ShlPow(m, n);
    Pow2Add(curr - n, n);
    while fill != 0
      invariant fill == Shl(m, n) && 0 <= fill <= Pow2(curr) && (m == 0 ==> fill == 0)
      invariant FilledFrom(table[..], was, next, curr, n, at, here, fill)
      decreases m
    {
      ghost var before := table[..];
      if m == 0 { ShlZero(n); }
      ShlAdd(m - 1, 1, n);
      ShlPow(1, n);
      ShlBelowNext(m - 1, at, n);
      fill := fill - incr;
      table[next + at + fill] := here;
      FillOne(table[..], before, was, next, curr, n, at, here, m);
      m := m - 1;
      if m == 0 { ShlZero(n); }
    }
  }
}
