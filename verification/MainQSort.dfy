/** The sorts that order one small bucket of rotations (mainSimpleSort and mainQSort3 of blocksort.c). */
module MainQSort {
  import opened Common
  import opened Rotations
  import opened FallbackQSort
  import opened MainCompare

  // ---------------------------------------------------------------- rotations by rank

  /** How many of the first m rotations are less than the i-th. */
  ghost function RankTo(b: seq<int>, i: int, m: nat): (r: nat)
    requires 0 <= i < |b| && m <= |b|
  {
    if m == 0 then 0 else RankTo(b, i, m - 1) + (if Cmp(b, m - 1, i, |b|) < 0 then 1 else 0)
  }

  ghost function Ranks(b: seq<int>): (r: seq<int>)
    ensures |r| == |b| && forall i :: 0 <= i < |b| ==> r[i] == RankTo(b, i, |b|)
  {
    seq(|b|, i requires 0 <= i < |b| => RankTo(b, i, |b|))
  }

  lemma {:induction false} RankGrows(b: seq<int>, i: int, j: int, m: nat)
    requires 0 <= i < |b| && 0 <= j < |b| && m <= |b| && Cmp(b, i, j, |b|) <= 0
    ensures RankTo(b, i, m) <= RankTo(b, j, m)
    ensures Cmp(b, i, j, |b|) < 0 && i < m ==> RankTo(b, i, m) < RankTo(b, j, m)
  {
    if m > 0 {
      RankGrows(b, i, j, m - 1);
      if Cmp(b, m - 1, i, |b|) < 0 { CmpTrans(b, m - 1, i, j, |b|); }
      if m - 1 == i { CmpAnti(b, i, i, |b|); }
    }
  }

  /** The ranks order the rotations. */
  lemma {:induction false} RankOrder(b: seq<int>, i: int, j: int)
    requires 0 <= i < |b| && 0 <= j < |b|
    ensures Ranks(b)[i] <= Ranks(b)[j] <==> Cmp(b, i, j, |b|) <= 0
  {
    CmpAnti(b, i, j, |b|);
    if Cmp(b, i, j, |b|) <= 0 { RankGrows(b, i, j, |b|); } else { RankGrows(b, j, i, |b|); }
  }

  // ---------------------------------------------------------------- comparing at a depth

  /** All rotations at lo..hi begin with the same d characters. */
  ghost predicate Share(b: seq<int>, f: seq<int>, lo: int, hi: int, d: nat) {
    forall p, q {:trigger Alike(b, f[p], f[q], d)} :: lo <= p <= hi && lo <= q <= hi && 0 <= p < |f| && 0 <= q < |f|
        ==> Alike(b, f[p], f[q], d)
  }

  ghost predicate Alike(b: seq<int>, x: int, y: int, d: nat) {
    0 <= x < |b| && 0 <= y < |b| && Cmp(b, x, y, d) == 0
  }

  /** Rotations that begin alike compare as they do behind that beginning. */
  lemma {:induction false} DeepCompare(b: seq<int>, x: int, y: int, d: nat)
    requires Alike(b, x, y, d) && d <= |b|
    ensures Cmp(b, x, y, |b|) == Cmp(b, Adv(|b|, x, d), Adv(|b|, y, d), |b|)
    decreases d
  {
    if d > 0 {
      var n, x1, y1 := |b|, Next(|b|, x), Next(|b|, y);
      CmpSplit(b, x, y, n, 1);
      assert Adv(n, x, n) == x && Adv(n, y, n) == y;
      assert Cmp(b, x, y, n + 1) == Cmp(b, x1, y1, n) && Cmp(b, x, y, 1) == 0;
      DeepCompare(b, x1, y1, d - 1);
    }
  }

  /** An answer about the characters from depth d on is an answer about the ranks. */
  lemma {:induction false} AnswerRanks(b: seq<int>, x: int, y: int, d: nat, gt: bool)
    requires OVERSHOOT < |b| && d <= 15 && Alike(b, x, y, d) && Answer(b, Cyc(|b|, x + d), Cyc(|b|, y + d), gt)
    ensures if gt then Ranks(b)[y] <= Ranks(b)[x] else Ranks(b)[x] <= Ranks(b)[y]
  {
    DeepCompare(b, x, y, d);
    RankOrder(b, x, y);
    RankOrder(b, y, x);
    CmpAnti(b, x, y, |b|);
  }

  lemma {:induction false} ShareRearranged(b: seq<int>, f: seq<int>, g: seq<int>, lo: int, hi: int, d: nat)
    requires Share(b, f, lo, hi, d) && Rearranged(g, f, lo, hi) && 0 <= lo && hi < |f|
    ensures Share(b, g, lo, hi, d)
  {
    forall p, q {:trigger Alike(b, g[p], g[q], d)} | lo <= p <= hi && lo <= q <= hi && 0 <= p < |g| && 0 <= q < |g|
      ensures Alike(b, g[p], g[q], d)
    {
      var p' := RearrangedMember(g, f, lo, hi, p);
      var q' := RearrangedMember(g, f, lo, hi, q);
      assert Alike(b, f[p'], f[q'], d);
    }
  }

  // ---------------------------------------------------------------- mainSimpleSort

  /** The block and what is known of it while its rotations are sorted. */
  ghost predicate Sortable(block: seq<int>, quadrant: seq<int>, n: int, e: seq<int>) {
    && Wraps(block, n) && Wraps(quadrant, n)
    && forall u {:trigger Unfold(u)} :: Unfold(u) ==> Consistent(block[..n], quadrant) && e == Ranks(block[..n])
  }

  /** Two different rotations begin with the same twenty characters. */
  ghost predicate Repetitive(b: seq<int>) {
    forall u {:trigger Unseal(u)} :: Unseal(u) ==> exists x, y :: x != y && Alike(b, x, y, 20)
  }

  /** Of the budget something is spent only on repetitions. */
  ghost predicate Spent(b: seq<int>, budget0: int, budget: int) {
    budget <= budget0 && (budget < budget0 ==> Repetitive(b))
  }

  lemma {:induction false} CostsSpent(a: seq<int>, n: int, x: int, y: int, d: nat, budget0: int, budget: int)
    requires OVERSHOOT < n <= |a| && 0 <= x < n && 0 <= y < n && x != y && d <= 15
    requires Costs(a, n, Cyc(n, x + d), Cyc(n, y + d), budget0, budget)
    ensures Spent(a[..n], budget0, budget)
  {
    assert Unseal(0);
    if budget < budget0 {
      assert Unfold(0);
      var b, i, j := a[..n], Cyc(n, x + d), Cyc(n, y + d);
      CmpSplit(b, i, j, 20, 12 + 8 * (budget0 - budget) - 20);
      assert i != j && Alike(b, i, j, 20);
    }
  }

  /** Compares two rotations that begin with the same d characters. */
  method Greater(x: int, y: int, d: nat, block: seq<int>, quadrant: seq<int>, n: int, budget0: int, ghost e: seq<int>)
      returns (gt: bool, budget: int)
    requires Sortable(block, quadrant, n, e) && d <= 15 && Alike(block[..n], x, y, d) && |e| == n && x != y
    ensures Spent(block[..n], budget0, budget) && 0 <= x < |e| && 0 <= y < |e|
    ensures if gt then e[y] <= e[x] else e[x] <= e[y]
  {
    assert Unfold(0);
    gt, budget := GtU(x + d, y + d, block, quadrant, n, budget0);
    AnswerRanks(block[..n], x, y, d, gt);
    CostsSpent(block, n, x, y, d, budget0, budget);
  }

  /** The rows lo..hi are sorted but for the one at h, which is not above any to its right. */
  ghost predicate Sinking(e: seq<int>, f: seq<int>, lo: int, h: int, hi: int)
    requires AllIn(f, e) && 0 <= lo <= h <= hi < |f|
  {
    && (forall p, q :: lo <= p < q <= hi && p != h && q != h ==> e[f[p]] <= e[f[q]])
    && (forall q :: h < q <= hi ==> e[f[h]] <= e[f[q]])
  }

  lemma {:induction false} SinkOne(e: seq<int>, f: seq<int>, lo: int, h: int, hi: int)
    requires AllIn(f, e) && 0 <= lo < h <= hi < |f| && Sinking(e, f, lo, h, hi) && e[f[h]] <= e[f[h - 1]]
    ensures AllIn(Swapped(f, h, h - 1), e) && Sinking(e, Swapped(f, h, h - 1), lo, h - 1, hi)
  {
  }

  lemma {:induction false} Sunk(e: seq<int>, f: seq<int>, lo: int, h: int, hi: int)
    requires AllIn(f, e) && 0 <= lo <= h <= hi < |f| && Sinking(e, f, lo, h, hi) && (h == lo || e[f[h - 1]] <= e[f[h]])
    ensures SortedBy(e, f, lo, hi)
  {
    forall p, q | lo <= p < q <= hi
      ensures e[f[p]] <= e[f[q]]
    {
      if q == h && p < h - 1 { assert e[f[p]] <= e[f[h - 1]]; }
    }
  }

  /** What the array holds when the row taken out at i is put back at j: g. */
  ghost predicate Hole(a: seq<int>, g: seq<int>, j: int, v: int) {
    |a| == |g| && 0 <= j < |g| && g[j] == v && forall k :: 0 <= k < |g| && k != j ==> a[k] == g[k]
  }

  lemma {:induction false} HoleMoves(a: seq<int>, a': seq<int>, g: seq<int>, j: int, i: int, v: int)
    requires Hole(a, g, j, v) && 0 <= i < |g| && i != j && a' == a[j := a[i]]
    ensures Hole(a', Swapped(g, j, i), i, v)
  {
  }

  lemma {:induction false} HoleFilled(a: seq<int>, g: seq<int>, j: int, v: int)
    requires Hole(a, g, j, v)
    ensures a[j := v] == g
  {
  }

  /** A range of rows that begin with the same d characters, while it is rearranged. */
  ghost predicate Ranged(b: seq<int>, e: seq<int>, was: seq<int>, lo: int, hi: int, d: nat) {
    && |e| == |b| && 0 <= lo && hi < |was| && d <= 15
    && AllIn(was, e) && (forall u {:trigger Unfold(u)} :: Unfold(u) ==> Share(b, was, lo, hi, d)) && Permuted(was)
  }

  /** No row stands in two places. */
  ghost predicate Permuted(f: seq<int>) {
    forall u {:trigger Unseal(u)} :: Unseal(u) ==> IsPerm(f)
  }

  lemma {:induction false} PermutedOn(f: seq<int>, g: seq<int>, lo: int, hi: int)
    requires Permuted(f) && Rearranged(g, f, lo, hi)
    ensures Permuted(g)
  {
    assert Unseal(0);
    RearrangedPerm(g, f, lo, hi);
  }

  lemma {:induction false} PermutedDiffer(f: seq<int>, p: int, q: int)
    requires Permuted(f) && 0 <= p < |f| && 0 <= q < |f| && p != q
    ensures f[p] != f[q]
  {
    assert Unseal(0);
  }

  lemma {:induction false} RangedAlike(b: seq<int>, e: seq<int>, was: seq<int>, g: seq<int>, lo: int, hi: int, d: nat,
      p: int, q: int)
    requires Ranged(b, e, was, lo, hi, d) && Rearranged(g, was, lo, hi) && lo <= p <= hi && lo <= q <= hi
    ensures Alike(b, g[p], g[q], d) && (p != q ==> g[p] != g[q])
  {
    PermutedOn(was, g, lo, hi);
    if p != q { PermutedDiffer(g, p, q); }
    assert Unfold(0);
    ShareRearranged(b, was, g, lo, hi, d);
  }

  /** The row taken out, put back where it is now, with the rest sorted if the stride is one. */
  ghost predicate Moving(e: seq<int>, was: seq<int>, a: seq<int>, g: seq<int>, lo: int, j: int, i: int, hi: int, v: int,
      h: int) {
    && 0 <= lo <= j <= i <= hi < |g| && Rearranged(g, was, lo, hi) && AllIn(g, e) && Hole(a, g, j, v)
    && (h == 1 ==> Sinking(e, g, lo, j, i))
  }

  lemma {:induction false} MoveOne(e: seq<int>, was: seq<int>, a: seq<int>, a': seq<int>, g: seq<int>, lo: int, j: int,
      i: int, hi: int, v: int, h: int)
    requires Moving(e, was, a, g, lo, j, i, hi, v, h) && 1 <= h && lo <= j - h && a' == a[j := a[j - h]]
        && AllIn(was, e)
    requires e[g[j]] <= e[g[j - h]]
    ensures Moving(e, was, a', Swapped(g, j, j - h), lo, j - h, i, hi, v, h)
  {
    HoleMoves(a, a', g, j, j - h, v);
    SwapRearranges(g, was, lo, hi, j, j - h);
    if h == 1 { SinkOne(e, g, lo, j, i); }
  }

  /** Inserts the row at i into the rows h, 2h, ... before it. */
  method InsertRow(ptr: array<int>, i: int, h: int, lo: int, hi: int, d: nat, block: seq<int>, quadrant: seq<int>,
      n: int, budget0: int,
                   ghost e: seq<int>, ghost was: seq<int>) returns (budget: int)
    requires Sortable(block, quadrant, n, e) && Ranged(block[..n], e, was, lo, hi, d)
        && Rearranged(ptr[..], was, lo, hi)
    requires 1 <= h && lo + h <= i <= hi && AllIn(ptr[..], e) && (h == 1 ==> SortedBy(e, ptr[..], lo, i - 1))
    modifies ptr
    ensures Rearranged(ptr[..], was, lo, hi) && AllIn(ptr[..], e) && Spent(block[..n], budget0, budget)
    ensures h == 1 ==> SortedBy(e, ptr[..], lo, i)
  {
    budget := budget0;
    var v, j := ptr[i], i;
    ghost var g := ptr[..];
    while true
      invariant Moving(e, was, ptr[..], g, lo, j, i, hi, v, h) && lo + h <= j && Spent(block[..n], budget0, budget)
      decreases j
    {
      RangedAlike(block[..n], e, was, g, lo, hi, d, j - h, j);
      var gt;
      gt, budget := Greater(ptr[j - h], v, d, block, quadrant, n, budget, e);
      if !gt {
        if h == 1 { Sunk(e, g, lo, j, i); }
        break;
      }
      ghost var a := ptr[..];
      ptr[j] := ptr[j - h];
      MoveOne(e, was, a, ptr[..], g, lo, j, i, hi, v, h);
      g := Swapped(g, j, j - h);
      j := j - h;
      if j <= lo + h - 1 {
        if h == 1 { Sunk(e, g, lo, j, i); }
        break;
      }
    }
    HoleFilled(ptr[..], g, j, v);
    ghost var a := ptr[..];
    ptr[j] := v;
    assert ptr[..] == a[j := v];
  }

  const INCS := [1, 4, 13, 40, 121, 364, 1093, 3280, 9841, 29524, 88573, 265720, 797161, 2391484]

  /** One pass with stride h; after every third row the budget is looked at. */
  method StridePass(ptr: array<int>, h: int, lo: int, hi: int, d: nat, block: seq<int>, quadrant: seq<int>, n: int,
      budget0: int,
                    ghost e: seq<int>, ghost was: seq<int>) returns (budget: int, stop: bool)
    requires Sortable(block, quadrant, n, e) && Ranged(block[..n], e, was, lo, hi, d)
        && Rearranged(ptr[..], was, lo, hi)
    requires 1 <= h && AllIn(ptr[..], e) && lo <= hi
    modifies ptr
    ensures Rearranged(ptr[..], was, lo, hi) && AllIn(ptr[..], e) && Spent(block[..n], budget0, budget)
    ensures stop ==> budget < 0
    ensures h == 1 && !stop ==> SortedBy(e, ptr[..], lo, hi)
  {
    budget, stop := budget0, false;
    var i, copies := lo + h, 0;
    while i <= hi
      invariant lo + h <= i && (i <= hi + 1 || i == lo + h) && Rearranged(ptr[..], was, lo, hi) && AllIn(ptr[..], e)
          && Spent(block[..n], budget0, budget)
      invariant h == 1 ==> SortedBy(e, ptr[..], lo, i - 1)
    {
      budget := InsertRow(ptr, i, h, lo, hi, d, block, quadrant, n, budget, e, was);
      i := i + 1;
      copies := copies + 1;
      if copies == 3 {
        copies := 0;
        if budget < 0 { return budget, true; }
      }
    }
  }

  /** Shell sort; it gives up when the budget is used up. */
  method MainSimpleSort(ptr: array<int>, block: seq<int>, quadrant: seq<int>, n: int, lo: int, hi: int, d: nat,
      budget0: int, ghost e: seq<int>)
    returns (budget: int)
    requires Sortable(block, quadrant, n, e) && Ranged(block[..n], e, ptr[..], lo, hi, d) && hi - lo + 1 <= INCS[13]
    modifies ptr
    ensures Rearranged(ptr[..], old(ptr[..]), lo, hi) && AllIn(ptr[..], e) && Spent(block[..n], budget0, budget)
    ensures budget >= 0 ==> SortedBy(e, ptr[..], lo, hi)
  {
    ghost var was := ptr[..];
    budget := budget0;
    var bigN := hi - lo + 1;
    if bigN < 2 { return; }
    var hp := 0;
    while INCS[hp] < bigN
      invariant 0 <= hp <= 13
      decreases 13 - hp
    {
      hp := hp + 1;
    }
    hp := hp - 1;
    while hp >= 0
      invariant -1 <= hp < 13 && Rearranged(ptr[..], was, lo, hi) && AllIn(ptr[..], e) && Spent(block[..n], budget0, budget)
      invariant hp < 0 ==> SortedBy(e, ptr[..], lo, hi)
    {
      assert INCS[hp] >= 1 && (hp == 0 ==> INCS[hp] == 1);
      var stop;
      budget, stop := StridePass(ptr, INCS[hp], lo, hi, d, block, quadrant, n, budget, e, was);
      if stop { return; }
      hp := hp - 1;
    }
  }

  // ---------------------------------------------------------------- partition at a depth

  /** Splitting by the character at depth d splits by rank. */
  lemma {:induction false} KeyOrder(b: seq<int>, e: seq<int>, keys: seq<int>, x: int, y: int, d: nat)
    requires e == Ranks(b) && Alike(b, x, y, d) && d <= |b| && |keys| == |b|
        && (forall i :: 0 <= i < |b| ==> keys[i] == b[Adv(|b|, i, d)])
    requires keys[x] < keys[y]
    ensures e[x] <= e[y]
  {
    DeepCompare(b, x, y, d);
    assert Cmp(b, Adv(|b|, x, d), Adv(|b|, y, d), |b|) < 0;
    RankOrder(b, x, y);
  }

  lemma {:induction false} KeyDeeper(b: seq<int>, keys: seq<int>, x: int, y: int, d: nat)
    requires Alike(b, x, y, d) && d <= |b| && |keys| == |b|
        && (forall i :: 0 <= i < |b| ==> keys[i] == b[Adv(|b|, i, d)])
    requires keys[x] == keys[y]
    ensures Alike(b, x, y, d + 1)
  {
    CmpSplit(b, x, y, d, 1);
    assert Cmp(b, Adv(|b|, x, d), Adv(|b|, y, d), 1) == 0;
  }

  /** The characters d places on. */
  ghost predicate Keys(block: seq<int>, n: int, d: nat, keys: seq<int>) {
    && OVERSHOOT < n <= |block| && d <= n && |keys| == n && forall i :: 0 <= i < n ==> keys[i] == block[..n][Adv(n, i, d)]
  }

  lemma {:induction false} SliceKeys(block: seq<int>, n: int, d: nat)
    requires Wraps(block, n) && d <= 15
    ensures Keys(block, n, d, block[d..d + n])
  {
    assert Unfold(0);
  }

  /** The median of three. */
  method Med3(a0: int, b0: int, c: int) returns (b: int)
    ensures b == a0 || b == b0 || b == c
    ensures (a0 <= b && b0 <= b) || (a0 <= b && c <= b) || (b0 <= b && c <= b)
    ensures (a0 >= b && b0 >= b) || (a0 >= b && c >= b) || (b0 >= b && c >= b)
  {
    var a;
    a, b := a0, b0;
    if a > b { a, b := b, a; }
    if b > c {
      b := c;
      if a > b { b := a; }
    }
  }

  // ---------------------------------------------------------------- three parts on the stack

  /** A popped range replaced by parts a, b and c of it, when rows of different parts are in order. */
  ghost predicate Divides(e: seq<int>, g: seq<int>, top: Range, a: Range, b: Range, c: Range)
    requires AllIn(g, e)
  {
    && 0 <= top.lo && top.hi < |g|
    && (forall p :: top.Holds(p) ==> a.Holds(p) || b.Holds(p) || c.Holds(p))
    && (forall p :: !(a.Holds(p) && b.Holds(p)) && !(a.Holds(p) && c.Holds(p)) && !(b.Holds(p) && c.Holds(p)))
    && top.lo <= a.lo && a.hi <= top.hi && a.lo <= a.hi + 1
    && top.lo <= b.lo && b.hi <= top.hi && b.lo <= b.hi + 1
    && top.lo <= c.lo && c.hi <= top.hi && c.lo <= c.hi + 1
    && a.Size() + b.Size() + c.Size() == top.Size()
    && (forall p, q :: top.Holds(p) && top.Holds(q) && p < q ==> e[g[p]] <= e[g[q]] || InOne(a, b, c, p, q))
  }

  ghost predicate InOne(a: Range, b: Range, c: Range, p: int, q: int) {
    (a.Holds(p) && a.Holds(q)) || (b.Holds(p) && b.Holds(q)) || (c.Holds(p) && c.Holds(q))
  }

  lemma {:induction false} DividesSwap(e: seq<int>, g: seq<int>, top: Range, a: Range, b: Range, c: Range)
    requires AllIn(g, e) && Divides(e, g, top, a, b, c)
    ensures Divides(e, g, top, b, a, c) && Divides(e, g, top, a, c, b)
  {
    forall p, q | top.Holds(p) && top.Holds(q) && p < q && !(e[g[p]] <= e[g[q]])
      ensures InOne(b, a, c, p, q) && InOne(a, c, b, p, q)
    {
      assert InOne(a, b, c, p, q);
    }
  }

  lemma {:induction false} TogetherAppend(st: seq<Range>, a: Range, p: int, q: int)
    ensures Together(st + [a], p, q) <==> (a.Holds(p) && a.Holds(q)) || Together(st, p, q)
  {
    assert (st + [a])[..|st|] == st;
  }

  lemma {:induction false} DisjointAppend(st: seq<Range>, a: Range, lo: int, hi: int)
    requires Disjoint(st, lo, hi) && lo <= a.lo && a.hi <= hi && a.lo <= a.hi + 1 && forall p :: a.Holds(p) ==> !Together(st, p, p)
    ensures Disjoint(st + [a], lo, hi)
  {
    assert (st + [a])[..|st|] == st;
  }

  lemma {:induction false} PopDivided(e: seq<int>, f: seq<int>, g: seq<int>, st: seq<Range>, lo: int, hi: int, a: Range,
      b: Range, c: Range)
    requires AllIn(f, e) && AllIn(g, e) && 0 <= lo && hi < |f| && |f| == |g|
    requires st != [] && Disjoint(st, lo, hi) && OrderedBut(e, f, st, lo, hi)
    requires Rearranged(g, f, st[|st| - 1].lo, st[|st| - 1].hi) && Divides(e, g, st[|st| - 1], a, b, c)
    ensures OrderedBut(e, g, st[..|st| - 1] + [a] + [b] + [c], lo, hi)
    ensures Disjoint(st[..|st| - 1] + [a] + [b] + [c], lo, hi)
  {
    var top, rest := st[|st| - 1], st[..|st| - 1];
    forall p, q
      ensures Together(rest + [a] + [b] + [c], p, q) <==> InOne(a, b, c, p, q) || Together(rest, p, q)
      ensures Together(rest + [a] + [b], p, q) <==> (a.Holds(p) && a.Holds(q)) || (b.Holds(p) && b.Holds(q)) || Together(rest, p, q)
      ensures Together(rest + [a], p, q) <==> (a.Holds(p) && a.Holds(q)) || Together(rest, p, q)
    {
      TogetherAppend(rest, a, p, q);
      TogetherAppend(rest + [a], b, p, q);
      TogetherAppend(rest + [a] + [b], c, p, q);
    }
    forall p
      ensures a.Holds(p) ==> !Together(rest, p, p)
      ensures b.Holds(p) ==> !Together(rest + [a], p, p)
      ensures c.Holds(p) ==> !Together(rest + [a] + [b], p, p)
    {
      if a.Holds(p) || b.Holds(p) || c.Holds(p) { assert top.Holds(p); }
    }
    DisjointAppend(rest, a, lo, hi);
    DisjointAppend(rest + [a], b, lo, hi);
    DisjointAppend(rest + [a] + [b], c, lo, hi);
    forall p, q | lo <= p < q <= hi
      ensures e[g[p]] <= e[g[q]] || Together(rest + [a] + [b] + [c], p, q)
    {
      if !(top.Holds(p) && top.Holds(q)) {
        CrossOrder(e, f, g, st, lo, hi, p, q);
      }
    }
  }

  // ---------------------------------------------------------------- depths of the stacked ranges

  /** Each stacked range begins with as many equal characters as is noted beside it. */
  ghost predicate Shares(b: seq<int>, f: seq<int>, st: seq<Range>, ds: seq<int>) {
    |ds| == |st| && (st != [] ==>
      && 2 <= ds[|st| - 1] <= 15 && Share(b, f, st[|st| - 1].lo, st[|st| - 1].hi, ds[|st| - 1])
      && Shares(b, f, st[..|st| - 1], ds[..|st| - 1]))
  }

  /** What is done to other rows does not matter to the stacked ranges. */
  lemma {:induction false} SharesElsewhere(b: seq<int>, f: seq<int>, g: seq<int>, st: seq<Range>, ds: seq<int>)
    requires Shares(b, f, st, ds) && |f| == |g| && forall p :: 0 <= p < |f| && Together(st, p, p) ==> g[p] == f[p]
    ensures Shares(b, g, st, ds)
  {
    if st != [] {
      var top, rest := st[|st| - 1], st[..|st| - 1];
      forall p | 0 <= p < |f| && Together(rest, p, p)
        ensures g[p] == f[p]
      {
        assert Together(st, p, p);
      }
      SharesElsewhere(b, f, g, rest, ds[..|st| - 1]);
      forall p, q {:trigger Alike(b, g[p], g[q], ds[|st| - 1])} | top.lo <= p <= top.hi && top.lo <= q <= top.hi
          && 0 <= p < |g| && 0 <= q < |g|
        ensures Alike(b, g[p], g[q], ds[|st| - 1])
      {
        assert Together(st, p, p) && Together(st, q, q);
        assert Alike(b, f[p], f[q], ds[|st| - 1]);
      }
    }
  }

  lemma {:induction false} SharesAppend(b: seq<int>, f: seq<int>, st: seq<Range>, ds: seq<int>, a: Range, d: int)
    requires Shares(b, f, st, ds) && 2 <= d <= 15 && Share(b, f, a.lo, a.hi, d)
    ensures Shares(b, f, st + [a], ds + [d])
  {
    assert (st + [a])[..|st|] == st && (ds + [d])[..|st|] == ds;
  }

  /** Rearranging the popped range leaves the others alone. */
  lemma {:induction false} SharesRest(b: seq<int>, f: seq<int>, g: seq<int>, st: seq<Range>, ds: seq<int>, lo: int,
      hi: int)
    requires st != [] && Shares(b, f, st, ds) && Disjoint(st, lo, hi)
        && Rearranged(g, f, st[|st| - 1].lo, st[|st| - 1].hi)
    ensures Shares(b, g, st[..|st| - 1], ds[..|st| - 1])
  {
    var top, rest := st[|st| - 1], st[..|st| - 1];
    forall p | 0 <= p < |f| && Together(rest, p, p)
      ensures g[p] == f[p]
    {
      assert !top.Holds(p);
    }
    SharesElsewhere(b, f, g, rest, ds[..|st| - 1]);
  }

  // ---------------------------------------------------------------- how deep the stack can get

  /** The k-th stacked range holds at most n / 2^(k/2) rows. */
  ghost predicate Tapered3(st: seq<Range>, n: nat) {
    && (forall k :: 0 <= k < |st| ==> st[k].Size() <= Halved(n, k / 2))
    && (|st| >= 3 ==> Halved(n, (|st| - 3) / 2) >= 21)
  }

  lemma {:induction false} Tapered3Depth(st: seq<Range>, n: nat)
    requires Tapered3(st, n) && n < 0x8000_0000
    ensures |st| < 66
  {
    if |st| >= 66 {
      Pow2Values();
      HalvedSmall(n, 31, 0);
      HalvedMonotone(n, 31, (|st| - 3) / 2);
    }
  }

  lemma {:induction false} Pop3(st: seq<Range>, n: nat)
    requires Tapered3(st, n) && st != []
    ensures Tapered3(st[..|st| - 1], n)
  {
    if |st| >= 4 { HalvedMonotone(n, (|st| - 4) / 2, (|st| - 3) / 2); }
  }

  /** The largest part goes to the bottom, the smallest to the top. */
  lemma {:induction false} Push3(st: seq<Range>, n: nat, a: Range, b: Range, c: Range)
    requires st != [] && Tapered3(st, n) && st[|st| - 1].Size() >= 21
    requires 0 <= c.Size() <= b.Size() <= a.Size() && a.Size() + b.Size() + c.Size() == st[|st| - 1].Size()
    ensures Tapered3(st[..|st| - 1] + [a] + [b] + [c], n)
  {
    var t := |st| - 1;
    var st' := st[..t] + [a] + [b] + [c];
    assert st[t].Size() <= Halved(n, t / 2);
    assert Halved(n, t / 2 + 1) == Halved(n, t / 2) / 2;
    HalvedMonotone(n, (t + 1) / 2, t / 2 + 1);
    assert (t + 2) / 2 == t / 2 + 1 && (|st'| - 3) / 2 == t / 2;
    forall k | 0 <= k < |st'|
      ensures st'[k].Size() <= Halved(n, k / 2)
    {
      if k < t { assert st'[k] == st[k]; }
    }
  }

  /** Total work that the stacked ranges still ask for: a range that is split goes deeper in at least one row. */
  ghost function Work3(st: seq<Range>, ds: seq<int>): (r: int)
    requires |st| == |ds|
  {
    if st == [] then 0 else Work3(st[..|st| - 1], ds[..|st| - 1]) + Load(st[|st| - 1].Size(), ds[|st| - 1])
  }

  ghost function Load(size: int, d: int): (r: int) {
    3 * (size * (17 - d)) + 1
  }

  lemma {:induction false} LoadPositive(size: int, d: int)
    requires size >= 0 && d <= 17
    ensures Load(size, d) >= 1
  {
    var left := 17 - d;
    assert size * left >= 0;
  }

  lemma {:induction false} LoadSplits(x: int, y: int, z: int, d: int)
    requires 0 <= x && 0 <= y && 1 <= z
    ensures Load(x, d) + Load(y, d) + Load(z, d + 1) < Load(x + y + z, d)
  {
    assert (x + y + z) * (17 - d) == x * (17 - d) + y * (17 - d) + z * (17 - d);
    assert z * (17 - (d + 1)) == z * (17 - d) - z;
  }

  lemma {:induction false} Work3Append(st: seq<Range>, ds: seq<int>, a: Range, d: int)
    requires |st| == |ds|
    ensures Work3(st + [a], ds + [d]) == Work3(st, ds) + Load(a.Size(), d)
  {
    assert (st + [a])[..|st|] == st && (ds + [d])[..|st|] == ds;
  }

  lemma {:induction false} Work3Positive(b: seq<int>, f: seq<int>, st: seq<Range>, ds: seq<int>, lo: int, hi: int)
    requires Disjoint(st, lo, hi) && Shares(b, f, st, ds)
    ensures Work3(st, ds) >= 0
  {
    if st != [] {
      Work3Positive(b, f, st[..|st| - 1], ds[..|st| - 1], lo, hi);
      LoadPositive(st[|st| - 1].Size(), ds[|st| - 1]);
    }
  }

  /** The three fixed arrays and the stack pointer (mpush and mpop). */
  class DepthStack {
    const stackLo: array<int>
    const stackHi: array<int>
    const stackD: array<int>
    var sp: int
    ghost var ranges: seq<Range>
    ghost var depths: seq<int>

    ghost predicate Valid()
      reads this, stackLo, stackHi, stackD
    {
      && stackLo != stackHi && stackLo != stackD && stackHi != stackD
      && stackLo.Length == 100 && stackHi.Length == 100 && stackD.Length == 100
      && 0 <= sp <= 100 && |ranges| == sp && |depths| == sp
      && forall k :: 0 <= k < sp ==> ranges[k] == Range(stackLo[k], stackHi[k]) && depths[k] == stackD[k]
    }

    constructor ()
      ensures Valid() && ranges == [] && depths == [] && fresh(stackLo) && fresh(stackHi) && fresh(stackD)
    {
      stackLo, stackHi, stackD := new int[100], new int[100], new int[100];
      sp, ranges, depths := 0, [], [];
    }

    method Push(lo: int, hi: int, d: int)
      requires Valid() && sp < 100
      modifies this, stackLo, stackHi, stackD
      ensures Valid() && ranges == old(ranges) + [Range(lo, hi)] && depths == old(depths) + [d]
    {
      stackLo[sp] := lo;
      stackHi[sp] := hi;
      stackD[sp] := d;
      sp := sp + 1;
      ranges, depths := ranges + [Range(lo, hi)], depths + [d];
    }

    method Pop() returns (lo: int, hi: int, d: int)
      requires Valid() && sp > 0
      modifies this
      ensures Valid() && ranges == old(ranges)[..old(sp) - 1] && depths == old(depths)[..old(sp) - 1]
      ensures Range(lo, hi) == old(ranges)[old(sp) - 1] && d == old(depths)[old(sp) - 1]
    {
      sp := sp - 1;
      lo, hi, d := stackLo[sp], stackHi[sp], stackD[sp];
      ranges, depths := ranges[..sp], depths[..sp];
    }
  }

  // ---------------------------------------------------------------- one range

  datatype Part = Part(r: Range, d: int)

  ghost predicate SharesPart(b: seq<int>, f: seq<int>, x: Part) {
    2 <= x.d <= 15 && Share(b, f, x.r.lo, x.r.hi, x.d)
  }

  lemma {:induction false} ShareWithin(b: seq<int>, f: seq<int>, lo: int, hi: int, d: nat, lo': int, hi': int)
    requires Share(b, f, lo, hi, d) && lo <= lo' && hi' <= hi
    ensures Share(b, f, lo', hi', d)
  {
  }

  lemma {:induction false} ShareDeeper(b: seq<int>, keys: seq<int>, f: seq<int>, med: int, lo: int, hi: int, d: nat)
    requires Share(b, f, lo, hi, d) && d <= |b| && |keys| == |b|
        && (forall i :: 0 <= i < |b| ==> keys[i] == b[Adv(|b|, i, d)])
    requires AllIn(f, keys) && 0 <= lo && hi < |f| && Same(keys, f, med, lo, hi)
    ensures Share(b, f, lo, hi, d + 1)
  {
    forall p, q {:trigger Alike(b, f[p], f[q], d + 1)} | lo <= p <= hi && lo <= q <= hi && 0 <= p < |f| && 0 <= q < |f|
      ensures Alike(b, f[p], f[q], d + 1)
    {
      assert Alike(b, f[p], f[q], d);
      KeyDeeper(b, keys, f[p], f[q], d);
    }
  }

  lemma {:induction false} SplitDivides(b: seq<int>, e: seq<int>, keys: seq<int>, f: seq<int>, med: int, lo: int,
      n: int, m: int, hi: int, d: nat)
    requires e == Ranks(b) && Share(b, f, lo, hi, d) && d <= |b| && |keys| == |b|
        && (forall i :: 0 <= i < |b| ==> keys[i] == b[Adv(|b|, i, d)])
    requires AllIn(f, keys) && AllIn(f, e) && Split(keys, f, med, lo, n, m, hi)
    ensures Divides(e, f, Range(lo, hi), Range(lo, n), Range(m, hi), Range(n + 1, m - 1))
  {
    var x, y, z := Range(lo, n), Range(m, hi), Range(n + 1, m - 1);
    forall p, q | lo <= p < q <= hi
      ensures e[f[p]] <= e[f[q]] || InOne(x, y, z, p, q)
    {
      if !InOne(x, y, z, p, q) {
        assert Alike(b, f[p], f[q], d);
        assert keys[f[p]] < keys[f[q]];
        KeyOrder(b, e, keys, f[p], f[q], d);
      }
    }
  }

  /** Three-way partition by the character at depth d. */
  method PartitionAt(ptr: array<int>, block: seq<int>, n: int, lo: int, hi: int, d: nat, ghost quadrant: seq<int>,
      ghost e: seq<int>)
    returns (allEqual: bool, k: int, m: int)
    requires Sortable(block, quadrant, n, e) && Ranged(block[..n], e, ptr[..], lo, hi, d) && lo <= hi && 2 <= d <= 14
    modifies ptr
    ensures AllIn(ptr[..], e) && Rearranged(ptr[..], old(ptr[..]), lo, hi)
    ensures allEqual ==> SharesPart(block[..n], ptr[..], Part(Range(lo, hi), d + 1))
    ensures !allEqual ==> k + 1 < m && Divides(e, ptr[..], Range(lo, hi), Range(lo, k), Range(m, hi),
        Range(k + 1, m - 1))
    ensures !allEqual ==> SharesPart(block[..n], ptr[..], Part(Range(lo, k), d)) && SharesPart(block[..n], ptr[..], Part(Range(m, hi), d))
    ensures !allEqual ==> SharesPart(block[..n], ptr[..], Part(Range(k + 1, m - 1), d + 1))
  {
    ghost var was, b := ptr[..], block[..n];
    SliceKeys(block, n, d);
    var keys := block[d..d + n];
    var med := Med3(keys[ptr[lo]], keys[ptr[hi]], keys[ptr[(lo + hi) / 2]]);
    ghost var at := if med == keys[was[lo]] then lo else if med == keys[was[hi]] then hi else (lo + hi) / 2;
    allEqual, k, m := Partition(ptr, keys, med, lo, hi);
    Divided(b, e, keys, was, ptr[..], block, quadrant, n, at, lo, k, m, hi, d);
  }

  lemma {:induction false} Divided(b: seq<int>, e: seq<int>, keys: seq<int>, was: seq<int>, f: seq<int>,
      block: seq<int>, quadrant: seq<int>, n: int,
                                   at: int, lo: int, k: int, m: int, hi: int, d: nat)
    requires Sortable(block, quadrant, n, e) && b == block[..n] && Keys(block, n, d, keys)
        && Ranged(b, e, was, lo, hi, d) && 2 <= d <= 14
    requires AllIn(was, keys) && AllIn(f, keys) && Rearranged(f, was, lo, hi) && lo <= at <= hi
        && Split(keys, f, keys[was[at]], lo, k, m, hi)
    ensures k + 1 < m && AllIn(f, e) && Divides(e, f, Range(lo, hi), Range(lo, k), Range(m, hi), Range(k + 1, m - 1))
    ensures SharesPart(b, f, Part(Range(lo, k), d)) && SharesPart(b, f, Part(Range(m, hi), d))
        && SharesPart(b, f, Part(Range(k + 1, m - 1), d + 1))
  {
    assert Unfold(0);
    SplitShrinks(keys, was, f, lo, hi, at, k, m);
    ShareRearranged(b, was, f, lo, hi, d);
    SplitDivides(b, e, keys, f, keys[was[at]], lo, k, m, hi, d);
    ShareWithin(b, f, lo, hi, d, lo, k);
    ShareWithin(b, f, lo, hi, d, m, hi);
    ShareWithin(b, f, lo, hi, d, k + 1, m - 1);
    ShareDeeper(b, keys, f, keys[was[at]], k + 1, m - 1, d);
  }

  /** Three parts of a range, in any order, that are ready to be stacked. */
  ghost predicate Triple(b: seq<int>, e: seq<int>, f: seq<int>, top: Range, x: Part, y: Part, z: Part, work: int) {
    && AllIn(f, e) && Divides(e, f, top, x.r, y.r, z.r)
    && SharesPart(b, f, x) && SharesPart(b, f, y) && SharesPart(b, f, z)
    && Load(x.r.Size(), x.d) + Load(y.r.Size(), y.d) + Load(z.r.Size(), z.d) == work
  }

  lemma {:induction false} TripleSwap(b: seq<int>, e: seq<int>, f: seq<int>, top: Range, x: Part, y: Part, z: Part,
      work: int)
    requires Triple(b, e, f, top, x, y, z, work)
    ensures Triple(b, e, f, top, y, x, z, work) && Triple(b, e, f, top, x, z, y, work)
  {
    DividesSwap(e, f, top, x.r, y.r, z.r);
  }

  /** The parts in order of size, the largest first. */
  method Descending(x0: Part, y0: Part, z0: Part, ghost b: seq<int>, ghost e: seq<int>, ghost f: seq<int>,
      ghost top: Range, ghost work: int)
    returns (x: Part, y: Part, z: Part)
    requires Triple(b, e, f, top, x0, y0, z0, work)
    ensures Triple(b, e, f, top, x, y, z, work) && x.r.Size() >= y.r.Size() >= z.r.Size()
  {
    x, y, z := x0, y0, z0;
    TripleSwap(b, e, f, top, x, y, z, work);
    if x.r.Size() < y.r.Size() { x, y := y, x; }
    TripleSwap(b, e, f, top, x, y, z, work);
    if y.r.Size() < z.r.Size() { y, z := z, y; }
    TripleSwap(b, e, f, top, x, y, z, work);
    if x.r.Size() < y.r.Size() { x, y := y, x; }
  }

  /** What every turn of the sorting loop keeps. */
  ghost predicate Sorting3(b: seq<int>, e: seq<int>, f: seq<int>, was: seq<int>, st: seq<Range>, ds: seq<int>,
      loSt: int, hiSt: int) {
    |st| == |ds| && forall u {:trigger Unfold(u)} :: Unfold(u) ==> InSorting(b, e, f, was, st, ds, loSt, hiSt)
  }

  ghost predicate InSorting(b: seq<int>, e: seq<int>, f: seq<int>, was: seq<int>, st: seq<Range>, ds: seq<int>,
      loSt: int, hiSt: int) {
    && 0 <= loSt <= hiSt < |f| && hiSt - loSt + 1 <= INCS[13] && |e| == |b|
    && AllIn(f, e) && Rearranged(f, was, loSt, hiSt) && Permuted(f)
    && Disjoint(st, loSt, hiSt) && OrderedBut(e, f, st, loSt, hiSt)
    && Tapered3(st, hiSt - loSt + 1) && Shares(b, f, st, ds)
  }

  /** The top range is gone, or goes on one character deeper, or is replaced by three parts. */
  datatype Outcome = Gone | Deeper | Divided3(x: Part, y: Part, z: Part)

  /** Sorts or splits the range on top of the stack. */
  method SortOrDivide(ptr: array<int>, block: seq<int>, quadrant: seq<int>, n: int, lo: int, hi: int, d: nat,
      budget0: int, ghost e: seq<int>)
    returns (r: Outcome, budget: int, ghost work: int)
    requires Sortable(block, quadrant, n, e) && Ranged(block[..n], e, ptr[..], lo, hi, d) && d >= 2
        && hi - lo + 1 <= INCS[13] && lo <= hi + 1
    modifies ptr
    ensures AllIn(ptr[..], e) && Rearranged(ptr[..], old(ptr[..]), lo, hi) && Spent(block[..n], budget0, budget)
    ensures r.Gone? && budget >= 0 ==> SortedBy(e, ptr[..], lo, hi)
    ensures r.Deeper? ==> hi - lo >= 20 && SharesPart(block[..n], ptr[..], Part(Range(lo, hi), d + 1))
    ensures r.Divided3? ==> hi - lo >= 20 && r.x.r.Size() >= r.y.r.Size() >= r.z.r.Size() && work < Load(hi - lo + 1, d)
    ensures r.Divided3? ==> Triple(block[..n], e, ptr[..], Range(lo, hi), r.x, r.y, r.z, work)
  {
    budget, work := budget0, 0;
    if hi - lo < 20 || d > 14 {
      budget := MainSimpleSort(ptr, block, quadrant, n, lo, hi, d, budget0, e);
      return Gone, budget, 0;
    }
    var allEqual, k, m := PartitionAt(ptr, block, n, lo, hi, d, quadrant, e);
    if allEqual { return Deeper, budget, 0; }
    var x, y, z := Part(Range(lo, k), d), Part(Range(m, hi), d), Part(Range(k + 1, m - 1), d + 1);
    LoadSplits(x.r.Size(), y.r.Size(), z.r.Size(), d);
    work := Load(x.r.Size(), d) + Load(y.r.Size(), d) + Load(z.r.Size(), d + 1);
    x, y, z := Descending(x, y, z, block[..n], e, ptr[..], Range(lo, hi), work);
    r := Divided3(x, y, z);
  }

  lemma {:induction false} AfterGone(b: seq<int>, e: seq<int>, f: seq<int>, g: seq<int>, was: seq<int>, st: seq<Range>,
      ds: seq<int>, loSt: int, hiSt: int)
    requires Sorting3(b, e, f, was, st, ds, loSt, hiSt) && st != [] && AllIn(g, e)
        && Rearranged(g, f, st[|st| - 1].lo, st[|st| - 1].hi)
    requires 0 <= st[|st| - 1].lo && st[|st| - 1].hi < |g| && SortedBy(e, g, st[|st| - 1].lo, st[|st| - 1].hi)
    ensures Sorting3(b, e, g, was, st[..|st| - 1], ds[..|st| - 1], loSt, hiSt)
    ensures 0 <= Work3(st[..|st| - 1], ds[..|st| - 1]) < Work3(st, ds)
  {
    assert Unfold(0);
    var top := st[|st| - 1];
    PermutedOn(f, g, st[|st| - 1].lo, st[|st| - 1].hi);
    RearrangedChain(g, f, was, loSt, hiSt, top.lo, top.hi);
    PopSorted(e, f, g, st, loSt, hiSt);
    Pop3(st, hiSt - loSt + 1);
    SharesRest(b, f, g, st, ds, loSt, hiSt);
    Work3Positive(b, g, st[..|st| - 1], ds[..|st| - 1], loSt, hiSt);
    LoadPositive(top.Size(), ds[|st| - 1]);
  }

  /** Rearranging the range on top leaves it as it is on the stack. */
  lemma {:induction false} KeepOrder(e: seq<int>, f: seq<int>, g: seq<int>, st: seq<Range>, lo: int, hi: int)
    requires AllIn(f, e) && AllIn(g, e) && 0 <= lo && hi < |f| && |f| == |g|
    requires st != [] && Disjoint(st, lo, hi) && OrderedBut(e, f, st, lo, hi)
        && Rearranged(g, f, st[|st| - 1].lo, st[|st| - 1].hi)
    ensures OrderedBut(e, g, st, lo, hi)
  {
    var top := st[|st| - 1];
    forall p, q | lo <= p < q <= hi
      ensures e[g[p]] <= e[g[q]] || Together(st, p, q)
    {
      if !(top.Holds(p) && top.Holds(q)) { CrossOrder(e, f, g, st, lo, hi, p, q); }
    }
  }

  lemma {:induction false} DeeperWork(b: seq<int>, g: seq<int>, st: seq<Range>, ds: seq<int>, lo: int, hi: int)
    requires |st| == |ds| && st != [] && st[|st| - 1].Size() >= 1 && Disjoint(st, lo, hi)
        && Shares(b, g, st, ds[..|st| - 1] + [ds[|st| - 1] + 1])
    ensures 0 <= Work3(st, ds[..|st| - 1] + [ds[|st| - 1] + 1]) < Work3(st, ds)
  {
    var top, rest, d := st[|st| - 1], st[..|st| - 1], ds[|st| - 1];
    assert rest + [top] == st;
    Work3Append(rest, ds[..|st| - 1], top, d + 1);
    Work3Positive(b, g, st, ds[..|st| - 1] + [d + 1], lo, hi);
    assert top.Size() * (17 - d) == top.Size() * (17 - (d + 1)) + top.Size();
  }

  lemma {:induction false} AfterDeeper(b: seq<int>, e: seq<int>, f: seq<int>, g: seq<int>, was: seq<int>,
      st: seq<Range>, ds: seq<int>, loSt: int, hiSt: int)
    requires Sorting3(b, e, f, was, st, ds, loSt, hiSt) && st != [] && AllIn(g, e)
        && Rearranged(g, f, st[|st| - 1].lo, st[|st| - 1].hi)
    requires st[|st| - 1].Size() >= 1 && SharesPart(b, g, Part(st[|st| - 1], ds[|st| - 1] + 1))
    ensures Sorting3(b, e, g, was, st, ds[..|st| - 1] + [ds[|st| - 1] + 1], loSt, hiSt)
    ensures 0 <= Work3(st, ds[..|st| - 1] + [ds[|st| - 1] + 1]) < Work3(st, ds)
  {
    assert Unfold(0);
    var top, rest, d := st[|st| - 1], st[..|st| - 1], ds[|st| - 1];
    PermutedOn(f, g, st[|st| - 1].lo, st[|st| - 1].hi);
    RearrangedChain(g, f, was, loSt, hiSt, top.lo, top.hi);
    KeepOrder(e, f, g, st, loSt, hiSt);
    SharesRest(b, f, g, st, ds, loSt, hiSt);
    SharesAppend(b, g, rest, ds[..|st| - 1], top, d + 1);
    assert rest + [top] == st;
    DeeperWork(b, g, st, ds, loSt, hiSt);
  }

  lemma {:induction false} AfterDivided(b: seq<int>, e: seq<int>, f: seq<int>, g: seq<int>, was: seq<int>,
      st: seq<Range>, ds: seq<int>, loSt: int, hiSt: int,
                                        x: Part, y: Part, z: Part, work: int)
    requires Sorting3(b, e, f, was, st, ds, loSt, hiSt) && st != []
        && Rearranged(g, f, st[|st| - 1].lo, st[|st| - 1].hi)
    requires st[|st| - 1].Size() >= 21 && Triple(b, e, g, st[|st| - 1], x, y, z, work)
        && x.r.Size() >= y.r.Size() >= z.r.Size()
    requires work < Load(st[|st| - 1].Size(), ds[|st| - 1])
    ensures Sorting3(b, e, g, was, st[..|st| - 1] + [x.r] + [y.r] + [z.r], ds[..|st| - 1] + [x.d] + [y.d] + [z.d], loSt,
        hiSt)
    ensures 0 <= Work3(st[..|st| - 1] + [x.r] + [y.r] + [z.r], ds[..|st| - 1] + [x.d] + [y.d] + [z.d]) < Work3(st, ds)
  {
    assert Unfold(0);
    var top, rest, dr := st[|st| - 1], st[..|st| - 1], ds[..|st| - 1];
    PermutedOn(f, g, st[|st| - 1].lo, st[|st| - 1].hi);
    RearrangedChain(g, f, was, loSt, hiSt, top.lo, top.hi);
    PopDivided(e, f, g, st, loSt, hiSt, x.r, y.r, z.r);
    Push3(st, hiSt - loSt + 1, x.r, y.r, z.r);
    SharesRest(b, f, g, st, ds, loSt, hiSt);
    SharesAppend(b, g, rest, dr, x.r, x.d);
    SharesAppend(b, g, rest + [x.r], dr + [x.d], y.r, y.d);
    SharesAppend(b, g, rest + [x.r] + [y.r], dr + [x.d] + [y.d], z.r, z.d);
    Work3Append(rest, dr, x.r, x.d);
    Work3Append(rest + [x.r], dr + [x.d], y.r, y.d);
    Work3Append(rest + [x.r] + [y.r], dr + [x.d] + [y.d], z.r, z.d);
    Work3Positive(b, g, rest + [x.r] + [y.r] + [z.r], dr + [x.d] + [y.d] + [z.d], loSt, hiSt);
  }

  lemma {:induction false} TopRanged(b: seq<int>, e: seq<int>, f: seq<int>, was: seq<int>, st: seq<Range>, ds: seq<int>,
      loSt: int, hiSt: int)
    requires Sorting3(b, e, f, was, st, ds, loSt, hiSt) && st != []
    ensures var top := st[|st| - 1]; ds[|st| - 1] >= 2 && Ranged(b, e, f, top.lo, top.hi, ds[|st| - 1]) && top.lo <= top.hi + 1 && top.hi - top.lo + 1 <= INCS[13]
    ensures |st| < 66
  {
    assert Unfold(0);
    Tapered3Depth(st, hiSt - loSt + 1);
  }

  /** What remains true when the sort is given up. */
  lemma {:induction false} StillRearranged(b: seq<int>, e: seq<int>, f: seq<int>, g: seq<int>, was: seq<int>,
      st: seq<Range>, ds: seq<int>, loSt: int, hiSt: int)
    requires Sorting3(b, e, f, was, st, ds, loSt, hiSt) && st != []
        && Rearranged(g, f, st[|st| - 1].lo, st[|st| - 1].hi)
    ensures Rearranged(g, was, loSt, hiSt)
  {
    assert Unfold(0);
    RearrangedChain(g, f, was, loSt, hiSt, st[|st| - 1].lo, st[|st| - 1].hi);
  }

  lemma {:induction false} SortingDone(b: seq<int>, e: seq<int>, f: seq<int>, was: seq<int>, loSt: int, hiSt: int)
    requires Sorting3(b, e, f, was, [], [], loSt, hiSt)
    ensures Rearranged(f, was, loSt, hiSt) && AllIn(f, e) && 0 <= loSt && hiSt < |f| && SortedBy(e, f, loSt, hiSt)
  {
    assert Unfold(0);
    forall p, q | loSt <= p < q <= hiSt
      ensures e[f[p]] <= e[f[q]]
    {
      assert !Together([], p, q);
    }
  }

  /** One turn of the sorting loop: pop a range, sort or split it, push its parts. */
  method Turn3(stack: DepthStack, ptr: array<int>, block: seq<int>, quadrant: seq<int>, n: int, budget0: int,
               ghost e: seq<int>, ghost was: seq<int>, ghost loSt: int, ghost hiSt: int) returns (budget: int)
    requires stack.Valid() && stack.sp > 0 && ptr !in {stack.stackLo, stack.stackHi, stack.stackD}
    requires Sortable(block, quadrant, n, e) && Sorting3(block[..n], e, ptr[..], was, stack.ranges, stack.depths, loSt,
        hiSt)
    modifies ptr, stack, stack.stackLo, stack.stackHi, stack.stackD
    ensures stack.Valid() && Spent(block[..n], budget0, budget) && AllIn(ptr[..], e) && Rearranged(ptr[..], was, loSt, hiSt)
    ensures budget >= 0 ==> Sorting3(block[..n], e, ptr[..], was, stack.ranges, stack.depths, loSt, hiSt)
    ensures budget >= 0 ==> 0 <= Work3(stack.ranges, stack.depths) < old(Work3(stack.ranges, stack.depths))
  {
    ghost var b, st, ds, before := block[..n], stack.ranges, stack.depths, ptr[..];
    TopRanged(b, e, before, was, st, ds, loSt, hiSt);
    assert stack.sp < 98;
    var lo, hi, d := stack.Pop();
    var r;
    ghost var work;
    r, budget, work := SortOrDivide(ptr, block, quadrant, n, lo, hi, d, budget0, e);
    StillRearranged(b, e, before, ptr[..], was, st, ds, loSt, hiSt);
    match r {
      case Gone =>
        if budget >= 0 { AfterGone(b, e, before, ptr[..], was, st, ds, loSt, hiSt); }
      case Deeper =>
        AfterDeeper(b, e, before, ptr[..], was, st, ds, loSt, hiSt);
        stack.Push(lo, hi, d + 1);
        assert stack.ranges == st;
      case Divided3(x, y, z) =>
        AfterDivided(b, e, before, ptr[..], was, st, ds, loSt, hiSt, x, y, z, work);
        stack.Push(x.r.lo, x.r.hi, x.d);
        stack.Push(y.r.lo, y.r.hi, y.d);
        stack.Push(z.r.lo, z.r.hi, z.d);
    }
  }

  /** Sorts the rotations at loSt..hiSt, which begin with the same dSt characters, unless the budget is used up. The
      stacks of 100 entries never fill. */
  method MainQSort3(ptr: array<int>, block: seq<int>, quadrant: seq<int>, n: int, loSt: int, hiSt: int, dSt: nat,
      budget0: int, ghost e: seq<int>)
    returns (budget: int)
    requires Sortable(block, quadrant, n, e) && Ranged(block[..n], e, ptr[..], loSt, hiSt, dSt) && dSt >= 2
    requires loSt <= hiSt && hiSt - loSt + 1 <= INCS[13]
    modifies ptr
    ensures Rearranged(ptr[..], old(ptr[..]), loSt, hiSt) && AllIn(ptr[..], e) && Spent(block[..n], budget0, budget)
    ensures budget >= 0 ==> SortedBy(e, ptr[..], loSt, hiSt)
  {
    var stack := new DepthStack();
    ghost var was, b := ptr[..], block[..n];
    budget := budget0;
    stack.Push(loSt, hiSt, dSt);
    StartSorting(b, e, was, loSt, hiSt, dSt);
    assert stack.ranges == [Range(loSt, hiSt)] && stack.depths == [dSt];
    while stack.sp > 0
      invariant stack.Valid() && fresh(stack) && fresh(stack.stackLo) && fresh(stack.stackHi) && fresh(stack.stackD)
          && Spent(block[..n], budget0, budget)
      invariant Sorting3(b, e, ptr[..], was, stack.ranges, stack.depths, loSt, hiSt)
      decreases Work3(stack.ranges, stack.depths)
    {
      budget := Turn3(stack, ptr, block, quadrant, n, budget, e, was, loSt, hiSt);
      if budget < 0 { return; }
    }
    SortingDone(b, e, ptr[..], was, loSt, hiSt);
  }

  lemma {:induction false} StartSorting(b: seq<int>, e: seq<int>, was: seq<int>, lo: int, hi: int, d: nat)
    requires Ranged(b, e, was, lo, hi, d) && d >= 2 && lo <= hi && hi - lo + 1 <= INCS[13]
    ensures Sorting3(b, e, was, was, [Range(lo, hi)], [d], lo, hi)
  {
    assert Unfold(0);
    var st := [Range(lo, hi)];
    assert st[..0] == [] && [d][..0] == [];
    assert Shares(b, was, [], []);
    assert Halved(hi - lo + 1, 0) == hi - lo + 1;
    forall p, q | lo <= p < q <= hi
      ensures Together(st, p, q)
    {
    }
    assert InSorting(b, e, was, was, st, [d], lo, hi);
  }
}
