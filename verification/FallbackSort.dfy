/** The block sort by prefix doubling (fallbackSort of blocksort.c): each pass makes the
    buckets of equal H-character prefixes exact for 2H characters. */
module FallbackSort {
  import opened Common
  import opened Rotations
  import opened FallbackQSort

  // ---------------------------------------------------------------- buckets

  /** The last bucket header at or before row i. */
  function BucketStart(bh: seq<bool>, i: nat): (r: nat)
    requires i < |bh|
    ensures r <= i
  {
    if i == 0 || bh[i] then i else BucketStart(bh, i - 1)
  }

  ghost function Step(b: seq<int>, f: seq<int>, i: nat, h: nat): (r: int)
    requires 0 < i < |f| && IsPerm(f) && |f| == |b|
  {
    Cmp(b, f[i - 1], f[i], h)
  }

  /** The rows are in order of their first h characters, and a header bit marks each change. */
  ghost predicate Buckets(b: seq<int>, f: seq<int>, bh: seq<bool>, h: nat) {
    && |f| == |b| && IsPerm(f) && |bh| > |b|
    && forall i {:trigger Step(b, f, i, h)} :: 0 < i < |f| ==> Step(b, f, i, h) <= 0 && (bh[i] <==> Step(b, f, i, h) < 0)
  }

  lemma {:induction false} SpanOrder(b: seq<int>, f: seq<int>, bh: seq<bool>, h: nat, p: nat, q: nat)
    requires Buckets(b, f, bh, h) && p <= q < |f|
    ensures BucketStart(bh, p) <= BucketStart(bh, q)
    ensures Cmp(b, f[p], f[q], h) == if BucketStart(bh, p) == BucketStart(bh, q) then 0 else -1
    decreases q
  {
    if p == q {
      CmpAnti(b, f[p], f[p], h);
    } else {
      SpanOrder(b, f, bh, h, p, q - 1);
      assert Step(b, f, q, h) <= 0;
      CmpTrans(b, f[p], f[q - 1], f[q], h);
    }
  }

  lemma {:induction false} BucketsOrder(b: seq<int>, f: seq<int>, bh: seq<bool>, h: nat, p: nat, q: nat)
    requires Buckets(b, f, bh, h) && p < |f| && q < |f|
    ensures BucketStart(bh, p) < BucketStart(bh, q) <==> Cmp(b, f[p], f[q], h) < 0
    ensures BucketStart(bh, p) == BucketStart(bh, q) <==> Cmp(b, f[p], f[q], h) == 0
  {
    CmpAnti(b, f[p], f[q], h);
    if p <= q {
      SpanOrder(b, f, bh, h, p, q);
    } else {
      SpanOrder(b, f, bh, h, q, p);
    }
  }

  /** Each position is given the bucket of the row h places further on. */
  ghost predicate Classes(f: seq<int>, bh: seq<bool>, h: nat, e: seq<int>)
    requires IsPerm(f) && h <= |f|
  {
    && |e| == |f| && |bh| > |f|
    && forall i :: 0 <= i < |f| ==> e[Back(|f|, f[i], h)] == BucketStart(bh, i)
  }

  lemma {:induction false} ClassOrder(b: seq<int>, f: seq<int>, bh: seq<bool>, h: nat, e: seq<int>, k: nat, l: nat)
    requires Buckets(b, f, bh, h) && h <= |f| && Classes(f, bh, h, e)
    requires k < |f| && l < |f|
    ensures e[k] < e[l] <==> Cmp(b, Adv(|b|, k, h), Adv(|b|, l, h), h) < 0
    ensures e[k] == e[l] <==> Cmp(b, Adv(|b|, k, h), Adv(|b|, l, h), h) == 0
  {
    var n := |f|;
    var p := PermSurjective(f, Adv(n, k, h));
    var q := PermSurjective(f, Adv(n, l, h));
    assert Back(n, f[p], h) == k && Back(n, f[q], h) == l;
    BucketsOrder(b, f, bh, h, p, q);
  }

  // ---------------------------------------------------------------- one refining pass

  /** Every row kept its h-character class. */
  ghost predicate SameClass(b: seq<int>, f: seq<int>, f0: seq<int>, h: nat) {
    && |f| == |f0| == |b| && IsPerm(f) && IsPerm(f0)
    && forall i :: 0 <= i < |f| ==> Cmp(b, f[i], f0[i], h) == 0
  }

  /** Row i stands in class order after its predecessor and is marked where a class begins. */
  ghost predicate Refined(e: seq<int>, f: seq<int>, bh: seq<bool>, bh0: seq<bool>, i: nat)
    requires 0 < i < |f| && AllIn(f, e) && i < |bh| && i < |bh0|
  {
    && (bh[i] <==> bh0[i] || e[f[i - 1]] != e[f[i]])
    && (bh0[i] || e[f[i - 1]] <= e[f[i]])
  }

  ghost predicate RefinedTo(e: seq<int>, f: seq<int>, bh: seq<bool>, bh0: seq<bool>, m: nat)
    requires m <= |f| && AllIn(f, e) && m <= |bh| && m <= |bh0|
  {
    forall i {:trigger Refined(e, f, bh, bh0, i)} :: 0 < i < m ==> Refined(e, f, bh, bh0, i)
  }

  lemma {:induction false} ClassStep(b: seq<int>, f: seq<int>, f0: seq<int>, h: nat, i: nat)
    requires SameClass(b, f, f0, h) && 0 < i < |f|
    ensures Step(b, f, i, h) == Step(b, f0, i, h)
  {
    var x, y, x0, y0 := f[i - 1], f[i], f0[i - 1], f0[i];
    CmpAnti(b, x, x0, h);
    CmpAnti(b, y, y0, h);
    if Cmp(b, x0, y0, h) <= 0 {
      CmpTrans(b, x, x0, y0, h);
      CmpTrans(b, x, y0, y, h);
    } else {
      CmpAnti(b, x0, y0, h);
      CmpAnti(b, x, y, h);
      CmpTrans(b, y, y0, x0, h);
      CmpTrans(b, y, x0, x, h);
    }
  }

  /** A finished pass turns buckets exact for h characters into buckets exact for 2h. */
  lemma {:induction false} PassDoubles(b: seq<int>, f0: seq<int>, bh0: seq<bool>, f: seq<int>, bh: seq<bool>, h: nat,
      e: seq<int>)
    requires Buckets(b, f0, bh0, h) && h <= |b| && Classes(f0, bh0, h, e)
    requires SameClass(b, f, f0, h) && AllIn(f, e) && |bh| == |bh0|
    requires RefinedTo(e, f, bh, bh0, |f|)
    ensures Buckets(b, f, bh, 2 * h)
  {
    forall i {:trigger Step(b, f, i, 2 * h)} | 0 < i < |f|
      ensures Step(b, f, i, 2 * h) <= 0 && (bh[i] <==> Step(b, f, i, 2 * h) < 0)
    {
      assert Refined(e, f, bh, bh0, i);
      assert Step(b, f0, i, h) <= 0;
      ClassStep(b, f, f0, h, i);
      CmpSplit(b, f[i - 1], f[i], h, h);
      ClassOrder(b, f0, bh0, h, e, f[i - 1], f[i]);
    }
  }

  /** Buckets exact for at least a whole turn sort the rotations. */
  lemma {:induction false} BucketsSort(b: seq<int>, f: seq<int>, bh: seq<bool>, h: nat)
    requires Buckets(b, f, bh, h) && h >= |b|
    ensures SortsRotations(b, f)
  {
    forall p, q {:trigger RowsInOrder(b, f, p, q)} | 0 <= p < q < |f|
      ensures RowsInOrder(b, f, p, q)
    {
      SpanOrder(b, f, bh, h, p, q);
      CmpSplit(b, f[p], f[q], |b|, h - |b|);
      RotationOrder(b, f[p], f[q]);
    }
  }

  /** If every bucket is a single row the rotations are already sorted. */
  lemma {:induction false} SinglesSort(b: seq<int>, f: seq<int>, bh: seq<bool>, h: nat)
    requires Buckets(b, f, bh, h) && h <= |b|
    requires forall i :: 0 <= i < |f| ==> bh[i]
    ensures SortsRotations(b, f)
  {
    forall p, q {:trigger RowsInOrder(b, f, p, q)} | 0 <= p < q < |f|
      ensures RowsInOrder(b, f, p, q)
    {
      SpanOrder(b, f, bh, h, p, q);
      CmpSplit(b, f[p], f[q], h, |b| - h);
      RotationOrder(b, f[p], f[q]);
    }
  }

  // ---------------------------------------------------------------- header bits

  /** Bits lo..hi-1 all equal v. */
  ghost predicate Run(bh: seq<bool>, lo: int, hi: int, v: bool) {
    && 0 <= lo && hi <= |bh|
    && forall i :: lo <= i < hi ==> bh[i] == v
  }

  /** The bit table has room for the sentinels, which stop every scan. */
  ghost predicate Fenced(bh: seq<bool>, n: nat) {
    && |bh| >= n + 64 && |bh| % 32 == 0
    && bh[n] && !bh[n + 1]
  }

  /** Are all 32 bits of the word that holds bit k equal to v? */
  method WordIs(bh: array<bool>, k: nat, v: bool) returns (all: bool)
    requires k % 32 == 0 && k + 32 <= bh.Length
    ensures all <==> Run(bh[..], k, k + 32, v)
  {
    all := true;
    for i := k to k + 32
      invariant all <==> Run(bh[..], k, i, v)
    {
      if bh[i] != v { all := false; }
    }
  }

  /** Skips a run of bits equal to v from k on, whole words at a time where possible. */
  method SkipRun(bh: array<bool>, k0: nat, v: bool, ghost stop: nat) returns (k: nat)
    requires k0 <= stop && stop + 32 <= bh.Length && bh.Length % 32 == 0 && bh[stop] != v
    ensures k0 <= k <= stop && bh[k] != v && Run(bh[..], k0, k, v)
  {
    k := k0;
    while bh[k] == v && k % 32 != 0
      invariant k0 <= k <= stop && Run(bh[..], k0, k, v)
      decreases stop - k
    {
      k := k + 1;
    }
    if bh[k] == v {
      while true
        invariant k0 <= k <= stop && k % 32 == 0 && Run(bh[..], k0, k, v)
        decreases stop - k
      {
        var full := WordIs(bh, k, v);
        if !full { break; }
        k := k + 32;
      }
      while bh[k] == v
        invariant k0 <= k <= stop && Run(bh[..], k0, k, v)
        decreases stop - k
      {
        k := k + 1;
      }
    }
  }

  /** Finds the next bucket l..r of more than one row, or l >= n if there is none. */
  method NextBucket(bh: array<bool>, n: nat, r0: int) returns (l: int, r: int)
    requires Fenced(bh[..], n) && -1 <= r0 < n && bh[r0 + 1]
    ensures l >= n ==> Run(bh[..], r0 + 1, n + 1, true)
    ensures l < n ==> r0 < l < r < n && Run(bh[..], r0 + 1, l + 1, true) && Run(bh[..], l + 1, r + 1, false) && bh[r + 1]
  {
    var k := SkipRun(bh, r0 + 1, true, n + 1);
    l := k - 1;
    r := l;
    if l >= n { return; }
    k := SkipRun(bh, k, false, n);
    r := k - 1;
  }

  lemma {:induction false} RunStart(bh: seq<bool>, l: nat, i: nat)
    requires l <= i < |bh| && bh[l] && Run(bh, l + 1, i + 1, false)
    ensures BucketStart(bh, i) == l
    decreases i
  {
    if i > l {
      RunStart(bh, l, i - 1);
    }
  }

  /** The headers within l+1..m-1 mark exactly the class changes. */
  ghost predicate Marked(e: seq<int>, f: seq<int>, bh: seq<bool>, bh0: seq<bool>, l: nat, m: nat)
    requires AllIn(f, e) && m <= |f| && m <= |bh| && |bh| == |bh0|
  {
    && (forall i :: 0 <= i < |bh| && !(l < i < m) ==> bh[i] == bh0[i])
    && (forall i :: l < i < m ==> (bh[i] <==> bh0[i] || e[f[i - 1]] != e[f[i]]))
  }

  /** Scans the sorted bucket l..r and sets a header where the class changes. */
  method MarkHeaders(fmap: array<int>, eclass: array<int>, bh: array<bool>, l: nat, r: nat)
    requires AllIn(fmap[..], eclass[..]) && l < r < fmap.Length && r < bh.Length && bh[l]
    requires forall i :: 0 <= i < eclass.Length ==> eclass[i] >= 0
    modifies bh
    ensures Marked(eclass[..], fmap[..], bh[..], old(bh[..]), l, r + 1)
  {
    var cc := -1;
    for i := l to r + 1
      invariant cc == if i == l then -1 else eclass[fmap[i - 1]]
      invariant Marked(eclass[..], fmap[..], bh[..], old(bh[..]), l, i)
    {
      var cc1 := eclass[fmap[i]];
      if cc != cc1 {
        bh[i] := true;
        cc := cc1;
      }
    }
  }

  // ---------------------------------------------------------------- the pass over all buckets

  /** A pass that has dealt with the rows below m and not touched the rest. */
  ghost predicate Passing(b: seq<int>, f0: seq<int>, bh0: seq<bool>, f: seq<int>, bh: seq<bool>, h: nat, e: seq<int>,
      m: nat) {
    && Buckets(b, f0, bh0, h) && m <= |b| && |bh| == |bh0| && bh0[m]
    && SameClass(b, f, f0, h) && AllIn(f, e)
    && RefinedTo(e, f, bh, bh0, m)
    && (forall i :: m <= i < |f| ==> f[i] == f0[i])
    && (forall i :: m <= i < |bh| ==> bh[i] == bh0[i])
  }

  /** Sorting one bucket by class moves its rows within their h-character class. */
  lemma {:induction false} BucketKeepsClass(b: seq<int>, f0: seq<int>, bh0: seq<bool>, f: seq<int>, g: seq<int>, h: nat,
      l: nat, r: nat)
    requires Buckets(b, f0, bh0, h) && SameClass(b, f, f0, h)
    requires l < r < |b| && bh0[l] && Run(bh0, l + 1, r + 1, false)
    requires forall i :: l <= i <= r ==> f[i] == f0[i]
    requires Rearranged(g, f, l, r)
    ensures SameClass(b, g, f0, h)
  {
    RearrangedPerm(g, f, l, r);
    forall i | 0 <= i < |g|
      ensures Cmp(b, g[i], f0[i], h) == 0
    {
      if l <= i <= r {
        var j := RearrangedMember(g, f, l, r, i);
        RunStart(bh0, l, i);
        RunStart(bh0, l, j);
        BucketsOrder(b, f0, bh0, h, j, i);
      }
    }
  }

  lemma {:induction false} PassStep(b: seq<int>, f0: seq<int>, bh0: seq<bool>, f: seq<int>, bh: seq<bool>, h: nat,
      e: seq<int>, m: nat,
                                    g: seq<int>, bg: seq<bool>, l: nat, r: nat)
    requires Passing(b, f0, bh0, f, bh, h, e, m)
    requires m <= l < r < |b| && Run(bh, m, l + 1, true) && Run(bh, l + 1, r + 1, false) && bh[r + 1]
    requires Rearranged(g, f, l, r) && AllIn(g, e) && SortedBy(e, g, l, r)
    requires |bg| == |bh| && Marked(e, g, bg, bh, l, r + 1)
    ensures Passing(b, f0, bh0, g, bg, h, e, r + 1)
  {
    BucketKeepsClass(b, f0, bh0, f, g, h, l, r);
    forall i {:trigger Refined(e, g, bg, bh0, i)} | 0 < i < r + 1
      ensures Refined(e, g, bg, bh0, i)
    {
      if i < m {
        assert Refined(e, f, bh, bh0, i);
      }
    }
  }

  lemma {:induction false} PassEnd(b: seq<int>, f0: seq<int>, bh0: seq<bool>, f: seq<int>, bh: seq<bool>, h: nat,
      e: seq<int>, m: nat)
    requires Passing(b, f0, bh0, f, bh, h, e, m) && Run(bh, m, |b| + 1, true)
    ensures RefinedTo(e, f, bh, bh0, |f|)
  {
    forall i {:trigger Refined(e, f, bh, bh0, i)} | 0 < i < |f|
      ensures Refined(e, f, bh, bh0, i)
    {
      if i < m {
        assert Refined(e, f, bh, bh0, i);
      }
    }
  }

  /** Sorts every bucket of more than one row by class; reports how many rows that was. */
  method SortBuckets(fmap: array<int>, eclass: array<int>, bh: array<bool>, ghost b: seq<int>, ghost h: nat)
      returns (nNotDone: int)
    requires fmap != eclass && fmap.Length == |b| < 0x4000_0000 && |b| > 0
    requires Fenced(bh[..], |b|) && bh[0] && Buckets(b, fmap[..], bh[..], h)
    requires eclass.Length == |b| && forall i :: 0 <= i < eclass.Length ==> eclass[i] >= 0
    modifies fmap, bh
    ensures SameClass(b, fmap[..], old(fmap[..]), h) && AllIn(fmap[..], eclass[..]) && Fenced(bh[..], |b|) && bh[0]
    ensures RefinedTo(eclass[..], fmap[..], bh[..], old(bh[..]), |b|)
    ensures nNotDone == 0 ==> forall i :: 0 <= i < |b| ==> bh[i]
  {
    ghost var f0, bh0, e := fmap[..], bh[..], eclass[..];
    var n := fmap.Length;
    forall i | 0 <= i < n
      ensures Cmp(b, f0[i], f0[i], h) == 0
    {
      CmpAnti(b, f0[i], f0[i], h);
    }
    nNotDone := 0;
    var r := -1;
    while true
      invariant -1 <= r < n && nNotDone >= 0
      invariant Fenced(bh[..], n) && bh[0]
      invariant Passing(b, f0, bh0, fmap[..], bh[..], h, e, r + 1)
      invariant nNotDone == 0 ==> r == -1
      decreases n - r
    {
      ghost var f, bits := fmap[..], bh[..];
      var l, r' := NextBucket(bh, n, r);
      if l >= n { break; }
      nNotDone := nNotDone + (r' - l + 1);
      QSort3(fmap, eclass, l, r');
      MarkHeaders(fmap, eclass, bh, l, r');
      PassStep(b, f0, bh0, f, bits, h, e, r + 1, fmap[..], bh[..], l, r');
      r := r';
    }
    PassEnd(b, f0, bh0, fmap[..], bh[..], h, e, r + 1);
  }

  /** Stores a word of eclass. The block's bytes share that memory: bytes 4k..4k+3 are lost. */
  method StoreClass(eclass: array<int>, eclass8: array<byte>, k: nat, v: nat)
    requires k < eclass.Length
    modifies eclass, eclass8
    ensures eclass[..] == old(eclass[..])[k := v]
  {
    eclass[k] := v;
    if 4 * k < eclass8.Length { eclass8[4 * k] := v % 256; }
    if 4 * k + 1 < eclass8.Length { eclass8[4 * k + 1] := v / 0x100 % 256; }
    if 4 * k + 2 < eclass8.Length { eclass8[4 * k + 2] := v / 0x1_0000 % 256; }
    if 4 * k + 3 < eclass8.Length { eclass8[4 * k + 3] := v / 0x100_0000 % 256; }
  }

  ghost predicate ClassesTo(f: seq<int>, bh: seq<bool>, h: nat, e: seq<int>, m: nat)
    requires IsPerm(f) && h <= |f|
  {
    && |e| == |f| && |bh| > |f| && m <= |f|
    && forall i :: 0 <= i < m ==> e[Back(|f|, f[i], h)] == BucketStart(bh, i)
  }

  lemma {:induction false} ClassesStep(f: seq<int>, bh: seq<bool>, h: nat, e: seq<int>, m: nat)
    requires IsPerm(f) && h <= |f| && m < |f| && ClassesTo(f, bh, h, e, m)
    ensures ClassesTo(f, bh, h, e[Back(|f|, f[m], h) := BucketStart(bh, m)], m + 1)
  {
  }

  lemma {:induction false} ClassesCover(f: seq<int>, bh: seq<bool>, h: nat, e: seq<int>, k: nat)
    requires IsPerm(f) && h <= |f| && Classes(f, bh, h, e) && k < |f|
    ensures e[k] >= 0
  {
    var p := PermSurjective(f, Adv(|f|, k, h));
    assert Back(|f|, f[p], h) == k;
  }

  /** Gives every position the bucket of the row h places further on. */
  method SetClasses(fmap: array<int>, eclass: array<int>, eclass8: array<byte>, bh: array<bool>, h: nat)
    requires fmap != eclass && IsPerm(fmap[..]) && h <= fmap.Length == eclass.Length && bh.Length > fmap.Length
    modifies eclass, eclass8
    ensures Classes(fmap[..], bh[..], h, eclass[..])
    ensures forall i :: 0 <= i < eclass.Length ==> eclass[i] >= 0
  {
    var n, j := fmap.Length, 0;
    ghost var f, bits := fmap[..], bh[..];
    for i := 0 to n
      invariant j == if i == 0 then 0 else BucketStart(bits, i - 1)
      invariant ClassesTo(f, bits, h, eclass[..], i)
    {
      if bh[i] { j := i; }
      var k := fmap[i] - h;
      if k < 0 { k := k + n; }
      ClassesStep(f, bits, h, eclass[..], i);
      StoreClass(eclass, eclass8, k, j);
    }
    forall k | 0 <= k < n
      ensures eclass[k] >= 0
    {
      ClassesCover(f, bits, h, eclass[..], k);
    }
  }

  /** One pass at depth h makes the buckets exact for 2h characters. */
  method Pass(fmap: array<int>, eclass: array<int>, eclass8: array<byte>, bh: array<bool>, ghost b: seq<int>, h: nat)
      returns (nNotDone: int)
    requires fmap != eclass && fmap.Length == |b| < 0x4000_0000 && 0 < h <= |b|
    requires Fenced(bh[..], |b|) && bh[0] && Buckets(b, fmap[..], bh[..], h)
    requires eclass.Length == |b|
    modifies fmap, eclass, eclass8, bh
    ensures Fenced(bh[..], |b|) && bh[0] && Buckets(b, fmap[..], bh[..], 2 * h)
    ensures SameClass(b, fmap[..], old(fmap[..]), h)
    ensures nNotDone == 0 ==> forall i :: 0 <= i < |b| ==> bh[i]
  {
    ghost var f0, bh0 := fmap[..], bh[..];
    SetClasses(fmap, eclass, eclass8, bh, h);
    nNotDone := SortBuckets(fmap, eclass, bh, b, h);
    PassDoubles(b, f0, bh0, fmap[..], bh[..], h, eclass[..]);
  }

  // ---------------------------------------------------------------- first bytes

  /** Row i starts with the byte whose counting-sort slot holds i. */
  ghost predicate ByFirst(b: seq<int>, f: seq<int>) {
    && |f| == |b| && IsPerm(f)
    && forall i :: 0 <= i < |f| ==> BelowTo(b, |b|, b[f[i]]) <= i < BelowTo(b, |b|, b[f[i]] + 1)
  }

  lemma {:induction false} ByFirstKept(b: seq<int>, f: seq<int>, f0: seq<int>, h: nat)
    requires ByFirst(b, f0) && SameClass(b, f, f0, h) && h > 0
    ensures ByFirst(b, f)
  {
    forall i | 0 <= i < |f|
      ensures b[f[i]] == b[f0[i]]
    {
      assert Cmp(b, f[i], f0[i], h) == 0;
    }
  }

  /** At most one byte value owns slot i. */
  lemma {:induction false} SlotOwner(b: seq<int>, i: nat, c: int, d: int)
    requires BelowTo(b, |b|, c) <= i < BelowTo(b, |b|, c + 1)
    requires BelowTo(b, |b|, d) <= i < BelowTo(b, |b|, d + 1)
    ensures c == d
  {
    if c < d { BelowMonotone(b, |b|, c + 1, d); }
    if d < c { BelowMonotone(b, |b|, d + 1, c); }
  }

  /** What is left of each byte's count when i rows have been written back, the last as byte j. */
  ghost predicate Remaining(b: seq<int>, left: seq<int>, i: nat, j: int) {
    && |left| == 256 && 0 <= j < 256 && i <= |b|
    && BelowTo(b, |b|, j) <= i <= BelowTo(b, |b|, j + 1)
    && left[j] == BelowTo(b, |b|, j + 1) - i
    && forall c :: j < c < 256 ==> left[c] == CountTo(b, |b|, c)
  }

  ghost predicate Written(b: seq<int>, f: seq<int>, out: seq<int>, i: nat) {
    && |out| == |b| == |f| && IsPerm(f) && i <= |f|
    && forall k :: 0 <= k < i ==> out[f[k]] == b[f[k]]
  }

  lemma {:induction false} WrittenAll(b: seq<int>, f: seq<int>, out: seq<int>)
    requires Written(b, f, out, |f|)
    ensures out == b
  {
    forall v | 0 <= v < |b|
      ensures out[v] == b[v]
    {
      var k := PermSurjective(f, v);
    }
  }

  /** Rebuilds the block bytes that the classes overwrote. */
  method Rebuild(fmap: array<int>, eclass8: array<byte>, ftabCopy: array<int>, ghost b: seq<int>)
    requires Bytes(b) && fmap.Length == eclass8.Length == |b| && ByFirst(b, fmap[..])
    requires ftabCopy.Length == 256 && ftabCopy != fmap && forall c :: 0 <= c < 256 ==> ftabCopy[c] == CountTo(b, |b|, c)
    modifies eclass8, ftabCopy
    ensures eclass8[..] == b
  {
    var n, j := fmap.Length, 0;
    ghost var f := fmap[..];
    BelowBytes(b, |b|);
    BelowStep(b, |b|, 0);
    for i := 0 to n
      invariant Remaining(b, ftabCopy[..], i, j)
      invariant Written(b, f, eclass8[..], i)
    {
      while ftabCopy[j] == 0
        invariant Remaining(b, ftabCopy[..], i, j) && Written(b, f, eclass8[..], i)
        decreases 256 - j
      {
        assert j == 255 ==> false;
        BelowStep(b, |b|, j + 1);
        j := j + 1;
      }
      ftabCopy[j] := ftabCopy[j] - 1;
      SlotOwner(b, i, j, b[f[i]]);
      ghost var before := eclass8[..];
      eclass8[fmap[i]] := j;
      assert eclass8[..] == before[f[i] := j];
    }
    WrittenAll(b, f, eclass8[..]);
  }

  // ---------------------------------------------------------------- the initial radix sort

  /** The slot that the counting sort gives to position i. */
  ghost function Slot(b: seq<int>, i: nat): (r: int)
    requires i < |b|
  {
    BelowTo(b, |b|, b[i] + 1) - 1 - CountTo(b, i, b[i])
  }

  lemma {:induction false} SlotRange(b: seq<int>, i: nat)
    requires Bytes(b) && i < |b|
    ensures 0 <= BelowTo(b, |b|, b[i]) <= Slot(b, i) < BelowTo(b, |b|, b[i] + 1) <= |b|
  {
    BelowStep(b, |b|, b[i]);
    CountMonotone(b, i + 1, |b|, b[i]);
  }

  lemma {:induction false} SlotInjective(b: seq<int>, i: nat, j: nat)
    requires Bytes(b) && i < j < |b|
    ensures Slot(b, i) != Slot(b, j)
  {
    SlotRange(b, i);
    SlotRange(b, j);
    if b[i] == b[j] {
      CountMonotone(b, i + 1, j, b[i]);
    } else if b[i] < b[j] {
      BelowMonotone(b, |b|, b[i] + 1, b[j]);
    } else {
      BelowMonotone(b, |b|, b[j] + 1, b[i]);
    }
  }

  ghost predicate Scattered(b: seq<int>, f: seq<int>, m: nat) {
    && Bytes(b) && |f| == |b| && m <= |b|
    && forall i {:trigger Slot(b, i)} :: 0 <= i < m ==> 0 <= Slot(b, i) < |f| && f[Slot(b, i)] == i
  }

  lemma {:induction false} ScatterStep(b: seq<int>, f: seq<int>, m: nat)
    requires Scattered(b, f, m) && m < |b|
    ensures 0 <= Slot(b, m) < |b| && Scattered(b, f[Slot(b, m) := m], m + 1)
  {
    SlotRange(b, m);
    forall i {:trigger Slot(b, i)} | 0 <= i < m
      ensures Slot(b, i) != Slot(b, m)
    {
      SlotInjective(b, i, m);
    }
  }

  lemma {:induction false} ScatteredSorts(b: seq<int>, f: seq<int>)
    requires Scattered(b, f, |b|)
    ensures ByFirst(b, f)
  {
    var d := seq(|b|, i requires 0 <= i < |b| => Slot(b, i));
    forall i, j | 0 <= i < j < |b|
      ensures d[i] != d[j]
    {
      SlotInjective(b, i, j);
    }
    forall k | 0 <= k < |b|
      ensures 0 <= f[k] < |b| && Slot(b, f[k]) == k
    {
      var i := PermSurjective(d, k);
      assert Slot(b, i) == k;
    }
    forall k | 0 <= k < |b|
      ensures BelowTo(b, |b|, b[f[k]]) <= k < BelowTo(b, |b|, b[f[k]] + 1)
    {
      SlotRange(b, f[k]);
    }
    forall k, l | 0 <= k < l < |b|
      ensures f[k] != f[l]
    {
      assert Slot(b, f[k]) != Slot(b, f[l]);
    }
  }

  ghost predicate Counts(b: seq<int>, t: seq<int>, m: nat) {
    && |t| >= 256 && m <= |b|
    && forall c :: 0 <= c < 256 ==> t[c] == CountTo(b, m, c)
  }

  /** Slots of the counting sort when m positions have been placed. */
  ghost predicate Slots(b: seq<int>, t: seq<int>, m: nat) {
    && |t| >= 256 && m <= |b|
    && forall c :: 0 <= c < 256 ==> t[c] == BelowTo(b, |b|, c + 1) - CountTo(b, m, c)
  }

  method CountBytes(eclass8: array<byte>, ftab: array<int>, ftabCopy: array<int>)
    requires ftab.Length == 257 && ftabCopy.Length == 256 && ftab != ftabCopy
    modifies ftab, ftabCopy
    ensures Slots(eclass8[..], ftab[..], 0)
    ensures Counts(eclass8[..], ftabCopy[..], eclass8.Length)
  {
    var n := eclass8.Length;
    ghost var b: seq<int> := eclass8[..];
    for i := 0 to 257
      invariant forall c :: 0 <= c < i ==> ftab[c] == 0
    {
      ftab[i] := 0;
    }
    for i := 0 to n
      invariant Counts(b, ftab[..], i)
    {
      ftab[eclass8[i]] := ftab[eclass8[i]] + 1;
    }
    for i := 0 to 256
      invariant Counts(b, ftab[..], n)
      invariant forall c :: 0 <= c < i ==> ftabCopy[c] == CountTo(b, n, c)
    {
      ftabCopy[i] := ftab[i];
    }
    BelowBytes(b, n);
    BelowStep(b, n, 0);
    for i := 1 to 257
      invariant Counts(b, ftabCopy[..], n)
      invariant forall c :: 0 <= c < i && c < 256 ==> ftab[c] == BelowTo(b, n, c + 1)
      invariant forall c :: i <= c < 256 ==> ftab[c] == CountTo(b, n, c)
    {
      BelowStep(b, n, i);
      ftab[i] := ftab[i] + ftab[i - 1];
    }
  }

  method Scatter(fmap: array<int>, eclass8: array<byte>, ftab: array<int>)
    requires fmap.Length == eclass8.Length && ftab != fmap && Slots(eclass8[..], ftab[..], 0)
    modifies fmap, ftab
    ensures ByFirst(eclass8[..], fmap[..])
    ensures Slots(eclass8[..], ftab[..], eclass8.Length)
  {
    ghost var b: seq<int> := eclass8[..];
    for i := 0 to eclass8.Length
      invariant Slots(b, ftab[..], i) && Scattered(b, fmap[..], i)
    {
      var j := eclass8[i];
      var k := ftab[j] - 1;
      ScatterStep(b, fmap[..], i);
      ftab[j] := k;
      ghost var before := fmap[..];
      fmap[k] := i;
      assert fmap[..] == before[k := i];
    }
    ScatteredSorts(b, fmap[..]);
  }

  /** Some byte value below c has its first slot at i. */
  ghost predicate IsStart(b: seq<int>, c: nat, i: int) {
    c > 0 && (BelowTo(b, |b|, c - 1) == i || IsStart(b, c - 1, i))
  }

  lemma {:induction false} IsStartFrom(b: seq<int>, c: nat, d: nat)
    requires d < c
    ensures IsStart(b, c, BelowTo(b, |b|, d))
    decreases c
  {
    if d < c - 1 {
      IsStartFrom(b, c - 1, d);
    }
  }

  lemma {:induction false} IsStartOf(b: seq<int>, c: nat, i: int) returns (d: nat)
    requires IsStart(b, c, i)
    ensures d < c && BelowTo(b, |b|, d) == i
    decreases c
  {
    if BelowTo(b, |b|, c - 1) == i {
      d := c - 1;
    } else {
      d := IsStartOf(b, c - 1, i);
    }
  }

  /** After the radix sort the buckets are exact for one character. */
  lemma {:induction false} FirstBuckets(b: seq<int>, f: seq<int>, bh: seq<bool>)
    requires Bytes(b) && ByFirst(b, f) && |bh| > |b|
    requires forall i :: 0 <= i < |b| ==> bh[i] == IsStart(b, 256, i)
    ensures Buckets(b, f, bh, 1)
  {
    forall i {:trigger Step(b, f, i, 1)} | 0 < i < |f|
      ensures Step(b, f, i, 1) <= 0 && (bh[i] <==> Step(b, f, i, 1) < 0)
    {
      var c, d := b[f[i - 1]], b[f[i]];
      if d < c {
        BelowMonotone(b, |b|, d + 1, c);
      } else if c < d {
        BelowMonotone(b, |b|, c + 1, d);
        IsStartFrom(b, 256, d);
      } else if IsStart(b, 256, i) {
        var s := IsStartOf(b, 256, i);
        if s <= c { BelowMonotone(b, |b|, s, c); } else { BelowMonotone(b, |b|, c + 1, s); }
      }
    }
  }

  /** Clears the bit table, marks the first row of every byte, and sets the sentinels. */
  method FirstHeaders(ftab: array<int>, bh: array<bool>, n: nat, ghost b: seq<int>)
    requires |b| == n > 0 && Bytes(b) && Slots(b, ftab[..], n) && bh.Length == 32 * (n / 32 + 3)
    modifies bh
    ensures Fenced(bh[..], n) && bh[0]
    ensures forall i :: 0 <= i < n ==> bh[i] == IsStart(b, 256, i)
  {
    var nBhtab := 2 + n / 32;
    for i := 0 to 32 * nBhtab
      invariant forall k :: 0 <= k < i ==> !bh[k]
    {
      bh[i] := false;
    }
    for i := 0 to 256
      invariant forall k :: 0 <= k < n ==> bh[k] == IsStart(b, i, k)
    {
      BelowStep(b, n, i);
      bh[ftab[i]] := true;
    }
    BelowBytes(b, n);
    IsStartFrom(b, 256, 0);
    for i := 0 to 32
      invariant forall k :: 0 <= k < n ==> bh[k] == IsStart(b, 256, k)
      invariant i > 0 ==> bh[n] && !bh[n + 1]
    {
      bh[n + 2 * i] := true;
      bh[n + 2 * i + 1] := false;
    }
  }

  /** Sorts the rotations of the block held in eclass8, which shares its memory with
      eclass and is destroyed and rebuilt on the way. */
  method Sort(fmap: array<int>, eclass: array<int>, eclass8: array<byte>, bhtab: array<bool>)
    requires fmap != eclass && 0 < eclass8.Length == fmap.Length == eclass.Length < 0x4000_0000
    requires bhtab.Length == 32 * (fmap.Length / 32 + 3)
    modifies fmap, eclass, eclass8, bhtab
    ensures SortsRotations(old(eclass8[..]), fmap[..])
    ensures eclass8[..] == old(eclass8[..])
  {
    var n := eclass8.Length;
    ghost var b: seq<int> := eclass8[..];
    var ftab, ftabCopy := new int[257], new int[256];
    CountBytes(eclass8, ftab, ftabCopy);
    Scatter(fmap, eclass8, ftab);
    FirstHeaders(ftab, bhtab, n, b);
    FirstBuckets(b, fmap[..], bhtab[..]);
    var h := 1;
    while true
      invariant 0 < h <= n && Buckets(b, fmap[..], bhtab[..], h) && ByFirst(b, fmap[..])
      invariant Fenced(bhtab[..], n) && bhtab[0]
      invariant Counts(b, ftabCopy[..], n)
      decreases n - h
    {
      ghost var f0 := fmap[..];
      var nNotDone := Pass(fmap, eclass, eclass8, bhtab, b, h);
      ByFirstKept(b, fmap[..], f0, h);
      h := 2 * h;
      if h > n || nNotDone == 0 {
        if h <= n {
          SinglesSort(b, fmap[..], bhtab[..], h);
        } else {
          BucketsSort(b, fmap[..], bhtab[..], h);
        }
        break;
      }
    }
    Rebuild(fmap, eclass8, ftabCopy, b);
  }
}
