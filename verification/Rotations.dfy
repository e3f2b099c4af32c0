/** Cyclic rotations of a block and their lexicographic order. */
module Rotations {
  import opened Common

  function Next(n: nat, i: nat): (r: nat)
    requires i < n
    ensures r < n
  {
    if i + 1 == n then 0 else i + 1
  }

  /** The position h places after i, h at most one turn. */
  function Adv(n: nat, i: nat, h: nat): (r: nat)
    requires i < n && h <= n
    ensures r < n
  {
    if i + h < n then i + h else i + h - n
  }

  /** The position h places before i, as the sort computes it. */
  function Back(n: nat, i: nat, h: nat): (r: nat)
    requires i < n && h <= n
    ensures r < n && Adv(n, r, h) == i
  {
    if i - h < 0 then i - h + n else i - h
  }

  function Rot(b: seq<int>, i: nat): (r: seq<int>)
    requires i < |b|
    ensures |r| == |b|
  {
    b[i..] + b[..i]
  }

  /** Three-way lexicographic comparison of equally long strings. */
  function Lex(s: seq<int>, t: seq<int>): (r: int)
    requires |s| == |t|
    ensures -1 <= r <= 1 && (r == 0 <==> s == t)
  {
    if s == [] then 0
    else if s[0] < t[0] then -1
    else if s[0] > t[0] then 1
    else
      assert s == [s[0]] + s[1..] && t == [t[0]] + t[1..];
      Lex(s[1..], t[1..])
  }

  /** Three-way comparison of the k characters that follow i and j, read cyclically. */
  function Cmp(b: seq<int>, i: nat, j: nat, k: nat): (r: int)
    requires i < |b| && j < |b|
    ensures -1 <= r <= 1
    decreases k
  {
    if k == 0 then 0
    else if b[i] < b[j] then -1
    else if b[i] > b[j] then 1
    else Cmp(b, Next(|b|, i), Next(|b|, j), k - 1)
  }

  lemma {:induction false} CmpAnti(b: seq<int>, i: nat, j: nat, k: nat)
    requires i < |b| && j < |b|
    ensures Cmp(b, j, i, k) == -Cmp(b, i, j, k)
    decreases k
  {
    if k > 0 && b[i] == b[j] {
      CmpAnti(b, Next(|b|, i), Next(|b|, j), k - 1);
    }
  }

  lemma {:induction false} CmpTrans(b: seq<int>, i: nat, j: nat, l: nat, k: nat)
    requires i < |b| && j < |b| && l < |b|
    requires Cmp(b, i, j, k) <= 0 && Cmp(b, j, l, k) <= 0
    ensures Cmp(b, i, l, k) <= 0
    ensures Cmp(b, i, j, k) < 0 || Cmp(b, j, l, k) < 0 <==> Cmp(b, i, l, k) < 0
    decreases k
  {
    if k > 0 && b[i] == b[j] == b[l] {
      CmpTrans(b, Next(|b|, i), Next(|b|, j), Next(|b|, l), k - 1);
    }
  }

  /** Comparing h + k characters is comparing h, then the k that follow. */
  lemma {:induction false} CmpSplit(b: seq<int>, i: nat, j: nat, h: nat, k: nat)
    requires i < |b| && j < |b| && h <= |b|
    ensures Cmp(b, i, j, h + k)
         == if Cmp(b, i, j, h) != 0 then Cmp(b, i, j, h) else Cmp(b, Adv(|b|, i, h), Adv(|b|, j, h), k)
    decreases h
  {
    if h > 0 && b[i] == b[j] {
      CmpSplit(b, Next(|b|, i), Next(|b|, j), h - 1, k);
    }
  }

  /** The k characters that follow i, read cyclically. */
  function Cyclic(b: seq<int>, i: nat, k: nat): (r: seq<int>)
    requires i < |b|
    ensures |r| == k
    decreases k
  {
    if k == 0 then [] else [b[i]] + Cyclic(b, Next(|b|, i), k - 1)
  }

  lemma {:induction false} CmpIsLex(b: seq<int>, i: nat, j: nat, k: nat)
    requires i < |b| && j < |b|
    ensures Cmp(b, i, j, k) == Lex(Cyclic(b, i, k), Cyclic(b, j, k))
    decreases k
  {
    if k > 0 {
      var s, t := Cyclic(b, i, k), Cyclic(b, j, k);
      assert s[1..] == Cyclic(b, Next(|b|, i), k - 1);
      assert t[1..] == Cyclic(b, Next(|b|, j), k - 1);
      CmpIsLex(b, Next(|b|, i), Next(|b|, j), k - 1);
    }
  }

  lemma {:induction false} CyclicAt(b: seq<int>, i: nat, k: nat, p: nat)
    requires i < |b| && p < k <= |b|
    ensures Cyclic(b, i, k)[p] == b[Adv(|b|, i, p)]
    decreases k
  {
    if p > 0 {
      CyclicAt(b, Next(|b|, i), k - 1, p - 1);
    }
  }

  /** The order used by the sort is the order of the rotations as strings. */
  lemma {:induction false} RotationOrder(b: seq<int>, i: nat, j: nat)
    requires i < |b| && j < |b|
    ensures Cmp(b, i, j, |b|) == Lex(Rot(b, i), Rot(b, j))
  {
    forall x: nat | x < |b|
      ensures Cyclic(b, x, |b|) == Rot(b, x)
    {
      forall p | 0 <= p < |b|
        ensures Cyclic(b, x, |b|)[p] == Rot(b, x)[p]
      {
        CyclicAt(b, x, |b|, p);
      }
    }
    CmpIsLex(b, i, j, |b|);
  }

  /** Rotations that compare equal as whole strings stay equal one place further on. */
  lemma {:induction false} EqualRotations(b: seq<int>, i: nat, j: nat)
    requires i < |b| && j < |b| && Cmp(b, i, j, |b|) == 0
    ensures b[i] == b[j]
    ensures Cmp(b, Next(|b|, i), Next(|b|, j), |b|) == 0
  {
    var n := |b|;
    CmpSplit(b, i, j, n, 1);
    assert Adv(n, i, n) == i && Adv(n, j, n) == j;
    assert Cmp(b, i, j, n + 1) == 0;
  }

  /** Row p's rotation is lexicographically no larger than row q's. */
  ghost predicate RowsInOrder(b: seq<int>, f: seq<int>, p: nat, q: nat)
    requires p < |f| && q < |f| && |f| == |b| && IsPerm(f)
  {
    Lex(Rot(b, f[p]), Rot(b, f[q])) <= 0
  }

  /** f lists all rotations in lexicographic order, ties in any order. */
  ghost predicate SortsRotations(b: seq<int>, f: seq<int>) {
    && |f| == |b| && IsPerm(f)
    && forall p, q {:trigger RowsInOrder(b, f, p, q)} :: 0 <= p < q < |f| ==> RowsInOrder(b, f, p, q)
  }

  lemma {:induction false} RowOrder(b: seq<int>, f: seq<int>, p: nat, q: nat)
    requires SortsRotations(b, f) && p < q < |f|
    ensures Cmp(b, f[p], f[q], |b|) <= 0
  {
    assert RowsInOrder(b, f, p, q);
    RotationOrder(b, f[p], f[q]);
  }
}
