/** The in-place sorts that order one bucket of row numbers by equivalence class
    (fallbackSimpleSort and fallbackQSort3 of blocksort.c). */
module FallbackQSort {
  import opened Common

  /** Every entry of f may index e. */
  ghost predicate AllIn(f: seq<int>, e: seq<int>) {
    forall k :: 0 <= k < |f| ==> 0 <= f[k] < |e|
  }

  /** The rows at lo..hi are in non-decreasing class order. */
  ghost predicate SortedBy(e: seq<int>, f: seq<int>, lo: int, hi: int)
    requires AllIn(f, e) && 0 <= lo && hi < |f|
  {
    forall p, q :: lo <= p < q <= hi ==> e[f[p]] <= e[f[q]]
  }

  /** Carries the row at i rightwards, a stride at a time, past rows of smaller class. */
  ghost function Carried(e: seq<int>, f: seq<int>, i: nat, hi: int, gap: nat): (r: seq<int>)
    requires AllIn(f, e) && gap >= 1 && hi < |f|
    ensures |r| == |f| && AllIn(r, e)
    decreases hi - i
  {
    if i + gap <= hi && e[f[i]] > e[f[i + gap]]
    then Carried(e, Swapped(f, i, i + gap), i + gap, hi, gap)
    else f
  }

  lemma {:induction false} CarriedRearranges(e: seq<int>, f: seq<int>, i: nat, hi: int, gap: nat, was: seq<int>,
      lo: int)
    requires AllIn(f, e) && gap >= 1 && hi < |f| && lo <= i
    requires Rearranged(f, was, lo, hi)
    ensures Rearranged(Carried(e, f, i, hi, gap), was, lo, hi)
    decreases hi - i
  {
    if i + gap <= hi && e[f[i]] > e[f[i + gap]] {
      SwapRearranges(f, was, lo, hi, i, i + gap);
      CarriedRearranges(e, Swapped(f, i, i + gap), i + gap, hi, gap, was, lo);
    }
  }

  /** The rows lo..hi are sorted but for the one at h, which is not below any to its left. */
  ghost predicate Inserting(e: seq<int>, f: seq<int>, lo: int, h: int, hi: int)
    requires AllIn(f, e) && 0 <= lo <= h <= hi < |f|
  {
    && (forall p, q :: lo <= p < q <= hi && p != h && q != h ==> e[f[p]] <= e[f[q]])
    && (forall p :: lo <= p < h ==> e[f[p]] <= e[f[h]])
  }

  lemma {:induction false} CarriedSorts(e: seq<int>, f: seq<int>, lo: int, h: nat, hi: int)
    requires AllIn(f, e) && 0 <= lo <= h <= hi < |f|
    requires Inserting(e, f, lo, h, hi)
    ensures SortedBy(e, Carried(e, f, h, hi, 1), lo, hi)
    decreases hi - h
  {
    if h + 1 <= hi && e[f[h]] > e[f[h + 1]] {
      CarriedSorts(e, Swapped(f, h, h + 1), lo, h + 1, hi);
    }
  }

  /** Inserts the row at i into the rows at i+gap, i+2*gap, ... up to hi. */
  method InsertOne(fmap: array<int>, eclass: array<int>, i: int, hi: int, gap: int)
    requires fmap != eclass && gap >= 1
    requires 0 <= i && i + gap <= hi < fmap.Length
    requires AllIn(fmap[..], eclass[..])
    modifies fmap
    ensures fmap[..] == Carried(eclass[..], old(fmap[..]), i, hi, gap)
  {
    ghost var e, g := eclass[..], fmap[..];  // g is fmap with tmp put into the hole at j - gap
    var tmp := fmap[i];
    var ecTmp := eclass[tmp];
    var j := i + gap;
    while j <= hi && ecTmp > eclass[fmap[j]]
      invariant i + gap <= j <= hi + gap
      invariant |g| == fmap.Length && g[j - gap] == tmp && AllIn(g, e)
      invariant forall k :: 0 <= k < |g| && k != j - gap ==> fmap[k] == g[k]
      invariant Carried(e, g, j - gap, hi, gap) == Carried(e, old(fmap[..]), i, hi, gap)
    {
      g := Swapped(g, j - gap, j);
      fmap[j - gap] := fmap[j];
      j := j + gap;
    }
    fmap[j - gap] := tmp;
    assert fmap[..] == g;
  }

  /** One insertion pass with the given stride, from the right end. */
  method GapInsertion(fmap: array<int>, eclass: array<int>, lo: int, hi: int, gap: int)
    requires fmap != eclass && gap >= 1
    requires 0 <= lo && hi < fmap.Length
    requires AllIn(fmap[..], eclass[..])
    modifies fmap
    ensures Rearranged(fmap[..], old(fmap[..]), lo, hi)
    ensures AllIn(fmap[..], eclass[..])
    ensures gap == 1 ==> SortedBy(eclass[..], fmap[..], lo, hi)
  {
    var i := hi - gap;
    while i >= lo
      invariant i <= hi - gap
      invariant Rearranged(fmap[..], old(fmap[..]), lo, hi)
      invariant AllIn(fmap[..], eclass[..])
      invariant gap == 1 && lo <= hi ==> lo <= i + 1 && SortedBy(eclass[..], fmap[..], i + 1, hi)
    {
      ghost var before := fmap[..];
      InsertOne(fmap, eclass, i, hi, gap);
      CarriedRearranges(eclass[..], before, i, hi, gap, old(fmap[..]), lo);
      if gap == 1 {
        CarriedSorts(eclass[..], before, i, i, hi);
      }
      i := i - 1;
    }
  }

  method SimpleSort(fmap: array<int>, eclass: array<int>, lo: int, hi: int)
    requires fmap != eclass
    requires 0 <= lo && hi < fmap.Length
    requires AllIn(fmap[..], eclass[..])
    modifies fmap
    ensures Rearranged(fmap[..], old(fmap[..]), lo, hi)
    ensures AllIn(fmap[..], eclass[..])
    ensures SortedBy(eclass[..], fmap[..], lo, hi)
  {
    if lo == hi { return; }
    if hi - lo > 3 {
      GapInsertion(fmap, eclass, lo, hi, 4);
    }
    GapInsertion(fmap, eclass, lo, hi, 1);
  }

  // ---------------------------------------------------------------- partition

  method Swap(fmap: array<int>, i: int, j: int)
    requires 0 <= i < fmap.Length && 0 <= j < fmap.Length
    modifies fmap
    ensures fmap[..] == Swapped(old(fmap[..]), i, j)
  {
    fmap[i], fmap[j] := fmap[j], fmap[i];
  }

  /** Every row at lo..hi has a class on the given side of med. */
  ghost predicate Less(e: seq<int>, f: seq<int>, med: int, lo: int, hi: int)
    requires AllIn(f, e) && 0 <= lo && hi < |f|
  {
    forall k :: lo <= k <= hi ==> e[f[k]] < med
  }

  ghost predicate Same(e: seq<int>, f: seq<int>, med: int, lo: int, hi: int)
    requires AllIn(f, e) && 0 <= lo && hi < |f|
  {
    forall k :: lo <= k <= hi ==> e[f[k]] == med
  }

  ghost predicate More(e: seq<int>, f: seq<int>, med: int, lo: int, hi: int)
    requires AllIn(f, e) && 0 <= lo && hi < |f|
  {
    forall k :: lo <= k <= hi ==> e[f[k]] > med
  }

  /** The layout while partitioning: equal, less, unseen, more, equal. */
  ghost predicate Zones(e: seq<int>, f: seq<int>, med: int, lo: int, ltLo: int, unLo: int, unHi: int, gtHi: int,
      hi: int)
    requires AllIn(f, e)
  {
    && 0 <= lo <= ltLo <= unLo <= unHi + 1 && unHi <= gtHi <= hi < |f|
    && Same(e, f, med, lo, ltLo - 1)
    && Less(e, f, med, ltLo, unLo - 1)
    && More(e, f, med, unHi + 1, gtHi)
    && Same(e, f, med, gtHi + 1, hi)
  }

  /** Advances over the rows below med, collecting the equal ones at the left end. */
  method ScanUp(fmap: array<int>, e: seq<int>, med: int, ghost lo: int, ltLo0: int, unLo0: int, unHi: int,
                ghost gtHi: int, ghost hi: int, ghost was: seq<int>)
    returns (ltLo: int, unLo: int)
    requires AllIn(fmap[..], e)
    requires Zones(e, fmap[..], med, lo, ltLo0, unLo0, unHi, gtHi, hi)
    requires Rearranged(fmap[..], was, lo, hi)
    modifies fmap
    ensures AllIn(fmap[..], e) && Rearranged(fmap[..], was, lo, hi)
    ensures unLo0 <= unLo && Zones(e, fmap[..], med, lo, ltLo, unLo, unHi, gtHi, hi)
    ensures unLo > unHi || e[fmap[unLo]] > med
  {
    ltLo, unLo := ltLo0, unLo0;
    while unLo <= unHi && e[fmap[unLo]] <= med
      invariant AllIn(fmap[..], e) && Rearranged(fmap[..], was, lo, hi)
      invariant unLo0 <= unLo && Zones(e, fmap[..], med, lo, ltLo, unLo, unHi, gtHi, hi)
    {
      if e[fmap[unLo]] == med {
        SwapRearranges(fmap[..], was, lo, hi, unLo, ltLo);
        Swap(fmap, unLo, ltLo);
        ltLo := ltLo + 1;
      }
      unLo := unLo + 1;
    }
  }

  method ScanDown(fmap: array<int>, e: seq<int>, med: int, ghost lo: int, ghost ltLo: int, unLo: int, unHi0: int,
                  gtHi0: int, ghost hi: int, ghost was: seq<int>)
    returns (unHi: int, gtHi: int)
    requires AllIn(fmap[..], e)
    requires Zones(e, fmap[..], med, lo, ltLo, unLo, unHi0, gtHi0, hi)
    requires Rearranged(fmap[..], was, lo, hi)
    requires unLo > unHi0 || e[fmap[unLo]] > med
    modifies fmap
    ensures AllIn(fmap[..], e) && Rearranged(fmap[..], was, lo, hi)
    ensures unHi <= unHi0 && Zones(e, fmap[..], med, lo, ltLo, unLo, unHi, gtHi, hi)
    ensures unLo > unHi || (unLo < unHi && e[fmap[unLo]] > med > e[fmap[unHi]])
  {
    unHi, gtHi := unHi0, gtHi0;
    while unLo <= unHi && e[fmap[unHi]] >= med
      invariant AllIn(fmap[..], e) && Rearranged(fmap[..], was, lo, hi)
      invariant unHi <= unHi0 && Zones(e, fmap[..], med, lo, ltLo, unLo, unHi, gtHi, hi)
      invariant unLo > unHi || e[fmap[unLo]] > med
      decreases unHi - unLo
    {
      if e[fmap[unHi]] == med {
        SwapRearranges(fmap[..], was, lo, hi, unHi, gtHi);
        Swap(fmap, unHi, gtHi);
        gtHi := gtHi - 1;
      }
      unHi := unHi - 1;
    }
  }

  /** The n rows from p1 exchanged with the n rows from p2. */
  ghost function BlocksSwapped(f: seq<int>, p1: nat, p2: nat, n: nat): (r: seq<int>)
    requires p1 + n <= p2 && p2 + n <= |f|
    ensures |r| == |f|
    decreases n
  {
    if n == 0 then f else BlocksSwapped(Swapped(f, p1, p2), p1 + 1, p2 + 1, n - 1)
  }

  lemma {:induction false} BlocksSwappedAt(f: seq<int>, p1: nat, p2: nat, n: nat, k: nat)
    requires p1 + n <= p2 && p2 + n <= |f| && k < |f|
    ensures BlocksSwapped(f, p1, p2, n)[k]
         == if p1 <= k < p1 + n then f[k + (p2 - p1)] else if p2 <= k < p2 + n then f[k - (p2 - p1)] else f[k]
    decreases n
  {
    if n > 0 {
      BlocksSwappedAt(Swapped(f, p1, p2), p1 + 1, p2 + 1, n - 1, k);
    }
  }

  lemma {:induction false} BlocksSwappedRearranges(f: seq<int>, was: seq<int>, p1: nat, p2: nat, n: nat, lo: int,
      hi: int)
    requires p1 + n <= p2 && p2 + n <= |f| && lo <= p1 && p2 + n <= hi + 1
    requires Rearranged(f, was, lo, hi)
    ensures Rearranged(BlocksSwapped(f, p1, p2, n), was, lo, hi)
    decreases n
  {
    if n > 0 {
      SwapRearranges(f, was, lo, hi, p1, p2);
      BlocksSwappedRearranges(Swapped(f, p1, p2), was, p1 + 1, p2 + 1, n - 1, lo, hi);
    }
  }

  method SwapBlocks(fmap: array<int>, p1: int, p2: int, n: int)
    requires 0 <= n && 0 <= p1 && p1 + n <= p2 && p2 + n <= fmap.Length
    modifies fmap
    ensures fmap[..] == BlocksSwapped(old(fmap[..]), p1, p2, n)
  {
    var y1, y2, left := p1, p2, n;
    while left > 0
      invariant 0 <= left && y1 + left == p1 + n && y2 + left == p2 + n && 0 <= y1
      invariant BlocksSwapped(fmap[..], y1, y2, left) == BlocksSwapped(old(fmap[..]), p1, p2, n)
    {
      Swap(fmap, y1, y2);
      y1, y2, left := y1 + 1, y2 + 1, left - 1;
    }
  }

  /** The layout after partitioning: less up to n, equal, more from m. */
  ghost predicate Split(e: seq<int>, f: seq<int>, med: int, lo: int, n: int, m: int, hi: int)
    requires AllIn(f, e)
  {
    && 0 <= lo <= n + 1 <= m <= hi + 1 <= |f|
    && Less(e, f, med, lo, n) && Same(e, f, med, n + 1, m - 1) && More(e, f, med, m, hi)
  }

  /** Half way: the left end gathered, the right end still to do. */
  ghost predicate LeftGathered(e: seq<int>, f: seq<int>, med: int, lo: int, n: int, unLo: int, gtHi: int, hi: int)
    requires AllIn(f, e)
  {
    && 0 <= lo <= n + 1 <= unLo <= gtHi + 1 <= hi + 1 <= |f|
    && Less(e, f, med, lo, n) && Same(e, f, med, n + 1, unLo - 1)
    && More(e, f, med, unLo, gtHi) && Same(e, f, med, gtHi + 1, hi)
  }

  lemma GatherLeft(e: seq<int>, f: seq<int>, med: int, lo: int, ltLo: int, unLo: int, gtHi: int, hi: int, n: int)
    requires AllIn(f, e) && Zones(e, f, med, lo, ltLo, unLo, unLo - 1, gtHi, hi)
    requires n == if ltLo - lo < unLo - ltLo then ltLo - lo else unLo - ltLo
    ensures AllIn(BlocksSwapped(f, lo, unLo - n, n), e)
    ensures LeftGathered(e, BlocksSwapped(f, lo, unLo - n, n), med, lo, lo + unLo - ltLo - 1, unLo, gtHi, hi)
  {
    var r := BlocksSwapped(f, lo, unLo - n, n);
    forall k | 0 <= k < |r|
      ensures 0 <= r[k] < |e|
      ensures lo <= k <= lo + unLo - ltLo - 1 ==> e[r[k]] < med
      ensures lo + unLo - ltLo <= k <= unLo - 1 || gtHi + 1 <= k <= hi ==> e[r[k]] == med
      ensures unLo <= k <= gtHi ==> e[r[k]] > med
    {
      BlocksSwappedAt(f, lo, unLo - n, n, k);
    }
  }

  lemma GatherRight(e: seq<int>, f: seq<int>, med: int, lo: int, n: int, unLo: int, gtHi: int, hi: int, m: int)
    requires AllIn(f, e) && LeftGathered(e, f, med, lo, n, unLo, gtHi, hi)
    requires m == if hi - gtHi < gtHi - unLo + 1 then hi - gtHi else gtHi - unLo + 1
    ensures AllIn(BlocksSwapped(f, unLo, hi - m + 1, m), e)
    ensures Split(e, BlocksSwapped(f, unLo, hi - m + 1, m), med, lo, n, hi - (gtHi - unLo + 1) + 1, hi)
  {
    var r := BlocksSwapped(f, unLo, hi - m + 1, m);
    forall k | 0 <= k < |r|
      ensures 0 <= r[k] < |e|
      ensures lo <= k <= n ==> e[r[k]] < med
      ensures n + 1 <= k <= hi - (gtHi - unLo + 1) ==> e[r[k]] == med
      ensures hi - (gtHi - unLo + 1) + 1 <= k <= hi ==> e[r[k]] > med
    {
      BlocksSwappedAt(f, unLo, hi - m + 1, m, k);
    }
  }

  /** The crossing scans: leaves nothing unseen. */
  method Scan(fmap: array<int>, e: seq<int>, med: int, lo: int, hi: int)
      returns (ltLo: int, unLo: int, unHi: int, gtHi: int)
    requires AllIn(fmap[..], e)
    requires 0 <= lo <= hi < fmap.Length
    modifies fmap
    ensures AllIn(fmap[..], e) && Rearranged(fmap[..], old(fmap[..]), lo, hi)
    ensures unHi == unLo - 1 && Zones(e, fmap[..], med, lo, ltLo, unLo, unHi, gtHi, hi)
  {
    ghost var was := fmap[..];
    unLo, ltLo, unHi, gtHi := lo, lo, hi, hi;
    while true
      invariant AllIn(fmap[..], e) && Rearranged(fmap[..], was, lo, hi)
      invariant Zones(e, fmap[..], med, lo, ltLo, unLo, unHi, gtHi, hi)
      decreases unHi - unLo + 1
    {
      ltLo, unLo := ScanUp(fmap, e, med, lo, ltLo, unLo, unHi, gtHi, hi, was);
      unHi, gtHi := ScanDown(fmap, e, med, lo, ltLo, unLo, unHi, gtHi, hi, was);
      if unLo > unHi { break; }
      SwapRearranges(fmap[..], was, lo, hi, unLo, unHi);
      Swap(fmap, unLo, unHi);
      unLo, unHi := unLo + 1, unHi - 1;
    }
  }

  method SwapWithin(fmap: array<int>, i: int, j: int, n: int, lo: int, hi: int, ghost was: seq<int>)
    requires Rearranged(fmap[..], was, lo, hi)
    requires 0 <= lo <= i && 0 <= n && i + n <= j && j + n <= hi + 1 <= fmap.Length
    modifies fmap
    ensures fmap[..] == BlocksSwapped(old(fmap[..]), i, j, n) && Rearranged(fmap[..], was, lo, hi)
  {
    BlocksSwappedRearranges(fmap[..], was, i, j, n, lo, hi);
    SwapBlocks(fmap, i, j, n);
  }

  /** Moves the rows equal to med from the outer ends to the middle. */
  method Gather(fmap: array<int>, e: seq<int>, med: int, lo: int, ltLo: int, unLo: int, unHi: int, gtHi: int, hi: int,
      ghost was: seq<int>)
    requires AllIn(fmap[..], e) && Rearranged(fmap[..], was, lo, hi) && ltLo <= gtHi && unHi == unLo - 1
    requires Zones(e, fmap[..], med, lo, ltLo, unLo, unHi, gtHi, hi)
    modifies fmap
    ensures AllIn(fmap[..], e) && Rearranged(fmap[..], was, lo, hi)
    ensures Split(e, fmap[..], med, lo, lo + unLo - ltLo - 1, hi - (gtHi - unHi) + 1, hi)
  {
    GatherBelow(fmap, e, med, lo, ltLo, unLo, gtHi, hi, was);
    GatherAbove(fmap, e, med, lo, lo + unLo - ltLo - 1, unLo, gtHi, hi, was);
  }

  method GatherBelow(fmap: array<int>, e: seq<int>, med: int, lo: int, ltLo: int, unLo: int, gtHi: int, hi: int,
      ghost was: seq<int>)
    requires AllIn(fmap[..], e) && Rearranged(fmap[..], was, lo, hi)
        && Zones(e, fmap[..], med, lo, ltLo, unLo, unLo - 1, gtHi, hi)
    modifies fmap
    ensures AllIn(fmap[..], e) && Rearranged(fmap[..], was, lo, hi)
    ensures LeftGathered(e, fmap[..], med, lo, lo + unLo - ltLo - 1, unLo, gtHi, hi)
  {
    var n := if ltLo - lo < unLo - ltLo then ltLo - lo else unLo - ltLo;
    GatherLeft(e, fmap[..], med, lo, ltLo, unLo, gtHi, hi, n);
    SwapWithin(fmap, lo, unLo - n, n, lo, hi, was);
  }

  method GatherAbove(fmap: array<int>, e: seq<int>, med: int, lo: int, n: int, unLo: int, gtHi: int, hi: int,
      ghost was: seq<int>)
    requires AllIn(fmap[..], e) && Rearranged(fmap[..], was, lo, hi)
        && LeftGathered(e, fmap[..], med, lo, n, unLo, gtHi, hi)
    modifies fmap
    ensures AllIn(fmap[..], e) && Rearranged(fmap[..], was, lo, hi)
    ensures Split(e, fmap[..], med, lo, n, hi - (gtHi - (unLo - 1)) + 1, hi)
  {
    var m := if hi - gtHi < gtHi - unLo + 1 then hi - gtHi else gtHi - unLo + 1;
    GatherRight(e, fmap[..], med, lo, n, unLo, gtHi, hi, m);
    SwapWithin(fmap, unLo, hi - m + 1, m, lo, hi, was);
  }

  /** Three-way partition of lo..hi around med. */
  method Partition(fmap: array<int>, e: seq<int>, med: int, lo: int, hi: int) returns (allEqual: bool, n: int, m: int)
    requires AllIn(fmap[..], e)
    requires 0 <= lo <= hi < fmap.Length
    modifies fmap
    ensures AllIn(fmap[..], e) && Rearranged(fmap[..], old(fmap[..]), lo, hi)
    ensures allEqual ==> n == lo - 1 && m == hi + 1
    ensures Split(e, fmap[..], med, lo, n, m, hi)
  {
    ghost var was := fmap[..];
    var ltLo, unLo, unHi, gtHi := Scan(fmap, e, med, lo, hi);
    if gtHi < ltLo {
      return true, lo - 1, hi + 1;
    }
    Gather(fmap, e, med, lo, ltLo, unLo, unHi, gtHi, hi, was);
    return false, lo + unLo - ltLo - 1, hi - (gtHi - unHi) + 1;
  }

  // ---------------------------------------------------------------- the explicit stack

  datatype Range = Range(lo: int, hi: int) {
    ghost predicate Holds(p: int) { lo <= p <= hi }
    function Size(): int { hi - lo + 1 }
  }

  /** Rows p and q wait together in one stacked range. */
  ghost predicate Together(st: seq<Range>, p: int, q: int) {
    st != [] && ((st[|st| - 1].Holds(p) && st[|st| - 1].Holds(q)) || Together(st[..|st| - 1], p, q))
  }

  /** No row waits in two stacked ranges, and none outside lo..hi waits. */
  ghost predicate Disjoint(st: seq<Range>, lo: int, hi: int) {
    st != [] ==>
      var top := st[|st| - 1];
      && lo <= top.lo && top.hi <= hi && top.lo <= top.hi + 1
      && (forall p :: top.Holds(p) ==> !Together(st[..|st| - 1], p, p))
      && Disjoint(st[..|st| - 1], lo, hi)
  }

  /** All rows are in class order except within ranges that still wait. */
  ghost predicate OrderedBut(e: seq<int>, f: seq<int>, st: seq<Range>, lo: int, hi: int)
    requires AllIn(f, e) && 0 <= lo && hi < |f|
  {
    forall p, q {:trigger Together(st, p, q)} :: lo <= p < q <= hi ==> e[f[p]] <= e[f[q]] || Together(st, p, q)
  }

  lemma {:induction false} TogetherSingle(st: seq<Range>, p: int, q: int)
    requires Together(st, p, q)
    ensures Together(st, p, p) && Together(st, q, q)
  {
    if !(st[|st| - 1].Holds(p) && st[|st| - 1].Holds(q)) {
      TogetherSingle(st[..|st| - 1], p, q);
    }
  }

  /** Rearranging the popped range leaves it in order with everything outside. */
  lemma CrossOrder(e: seq<int>, f: seq<int>, g: seq<int>, st: seq<Range>, lo: int, hi: int, p: int, q: int)
    requires AllIn(f, e) && AllIn(g, e) && 0 <= lo && hi < |f| && |f| == |g|
    requires st != [] && Disjoint(st, lo, hi) && OrderedBut(e, f, st, lo, hi)
    requires Rearranged(g, f, st[|st| - 1].lo, st[|st| - 1].hi)
    requires lo <= p < q <= hi && !(st[|st| - 1].Holds(p) && st[|st| - 1].Holds(q))
    ensures e[g[p]] <= e[g[q]] || Together(st[..|st| - 1], p, q)
  {
    var top, rest := st[|st| - 1], st[..|st| - 1];
    if top.Holds(p) {
      var p' := RearrangedMember(g, f, top.lo, top.hi, p);
      assert p' < q && top.Holds(p');
      assert e[f[p']] <= e[f[q]] || Together(st, p', q);
      if Together(rest, p', q) { TogetherSingle(rest, p', q); }
    } else if top.Holds(q) {
      var q' := RearrangedMember(g, f, top.lo, top.hi, q);
      assert p < q' && top.Holds(q');
      assert e[f[p]] <= e[f[q']] || Together(st, p, q');
      if Together(rest, p, q') { TogetherSingle(rest, p, q'); }
    } else {
      assert e[f[p]] <= e[f[q]] || Together(st, p, q);
    }
  }

  /** A popped range that has been sorted needs no replacement. */
  lemma PopSorted(e: seq<int>, f: seq<int>, g: seq<int>, st: seq<Range>, lo: int, hi: int)
    requires AllIn(f, e) && AllIn(g, e) && 0 <= lo && hi < |f| && |f| == |g|
    requires st != [] && Disjoint(st, lo, hi) && OrderedBut(e, f, st, lo, hi)
    requires Rearranged(g, f, st[|st| - 1].lo, st[|st| - 1].hi)
    requires SortedBy(e, g, st[|st| - 1].lo, st[|st| - 1].hi)
    ensures OrderedBut(e, g, st[..|st| - 1], lo, hi)
  {
    var top := st[|st| - 1];
    forall p, q | lo <= p < q <= hi
      ensures e[g[p]] <= e[g[q]] || Together(st[..|st| - 1], p, q)
    {
      if !(top.Holds(p) && top.Holds(q)) {
        CrossOrder(e, f, g, st, lo, hi, p, q);
      }
    }
  }

  /** A popped range that has been partitioned is replaced by its two outer parts. */
  lemma PopSplit(e: seq<int>, f: seq<int>, g: seq<int>, st: seq<Range>, lo: int, hi: int, med: int, a: Range, b: Range,
      n: int, m: int)
    requires AllIn(f, e) && AllIn(g, e) && 0 <= lo && hi < |f| && |f| == |g|
    requires st != [] && Disjoint(st, lo, hi) && OrderedBut(e, f, st, lo, hi)
    requires Rearranged(g, f, st[|st| - 1].lo, st[|st| - 1].hi)
    requires Split(e, g, med, st[|st| - 1].lo, n, m, st[|st| - 1].hi)
    requires (a == Range(st[|st| - 1].lo, n) && b == Range(m, st[|st| - 1].hi))
        || (b == Range(st[|st| - 1].lo, n) && a == Range(m, st[|st| - 1].hi))
    ensures OrderedBut(e, g, st[..|st| - 1] + [a, b], lo, hi)
    ensures Disjoint(st[..|st| - 1] + [a, b], lo, hi)
  {
    var top, rest := st[|st| - 1], st[..|st| - 1];
    var st' := rest + [a, b];
    assert st'[..|st'| - 1] == rest + [a];
    assert (rest + [a])[..|rest|] == rest;
    forall p
      ensures a.Holds(p) ==> !Together(rest, p, p)
      ensures b.Holds(p) ==> !Together(rest + [a], p, p)
    {
      if a.Holds(p) || b.Holds(p) {
        assert top.Holds(p);
      }
    }
    assert Disjoint(rest + [a], lo, hi);
    forall p, q | lo <= p < q <= hi
      ensures e[g[p]] <= e[g[q]] || Together(st', p, q)
    {
      if !(top.Holds(p) && top.Holds(q)) {
        CrossOrder(e, f, g, st, lo, hi, p, q);
      }
    }
  }

  // ---- how deep the stack can get

  function Halved(n: nat, k: nat): (r: nat)
  {
    if k == 0 then n else Halved(n, k - 1) / 2
  }

  lemma {:induction false} HalvedSmall(n: nat, k: nat, j: nat)
    requires n < Pow2(k + j)
    ensures Halved(n, k) < Pow2(j)
    decreases k
  {
    if k > 0 {
      HalvedSmall(n, k - 1, j + 1);
    }
  }

  lemma {:induction false} HalvedMonotone(n: nat, k: nat, j: nat)
    requires k <= j
    ensures Halved(n, j) <= Halved(n, k)
    decreases j
  {
    if k < j {
      HalvedMonotone(n, k, j - 1);
    }
  }

  /** The k-th stacked range holds at most n / 2^k rows. */
  ghost predicate Tapered(st: seq<Range>, n: nat) {
    && (forall k :: 0 <= k < |st| ==> st[k].Size() <= Halved(n, k))
    && (|st| >= 2 ==> Halved(n, |st| - 2) >= 11)
  }

  lemma TaperedDepth(st: seq<Range>, n: nat)
    requires Tapered(st, n) && n < 0x8000_0000
    ensures |st| < 33
  {
    if |st| >= 33 {
      Pow2Values();
      HalvedSmall(n, 31, 0);
      HalvedMonotone(n, 31, |st| - 2);
    }
  }

  /** Total work that the stacked ranges still ask for. */
  ghost function Work(st: seq<Range>): (r: int) {
    if st == [] then 0 else Work(st[..|st| - 1]) + 2 * st[|st| - 1].Size() + 1
  }

  lemma {:induction false} WorkNonNegative(st: seq<Range>, lo: int, hi: int)
    requires Disjoint(st, lo, hi)
    ensures Work(st) >= 0
  {
    if st != [] {
      WorkNonNegative(st[..|st| - 1], lo, hi);
    }
  }

  /** A pivot taken from the range leaves both outer parts strictly smaller. */
  lemma SplitShrinks(e: seq<int>, f: seq<int>, g: seq<int>, lo: int, hi: int, pivot: int, n: int, m: int)
    requires AllIn(f, e) && AllIn(g, e) && |f| == |g| && 0 <= lo <= pivot <= hi < |f|
    requires Rearranged(g, f, lo, hi)
    requires Split(e, g, e[f[pivot]], lo, n, m, hi)
    ensures n + 1 < m
  {
    var k := RearrangedMember(f, g, lo, hi, pivot);
    assert !(lo <= k <= n) && !(m <= k <= hi);
  }

  lemma PushTapered(st: seq<Range>, n: nat, a: Range, b: Range)
    requires st != [] && Tapered(st, n)
    requires b.Size() <= a.Size() && a.Size() + b.Size() < st[|st| - 1].Size() && st[|st| - 1].Size() >= 11
    requires b.Size() >= 0
    ensures Tapered(st[..|st| - 1] + [a, b], n)
  {
    var top := |st| - 1;
    assert Halved(n, top + 1) == Halved(n, top) / 2;
    assert st[top].Size() <= Halved(n, top);
  }

  lemma PushWork(rest: seq<Range>, top: Range, a: Range, b: Range)
    requires a.Size() + b.Size() < top.Size()
    ensures Work(rest + [a, b]) < Work(rest + [top])
  {
    assert (rest + [a, b])[..|rest| + 1] == rest + [a];
    assert (rest + [a])[..|rest|] == rest && (rest + [top])[..|rest|] == rest;
  }

  /** Replacing the top range by its two outer parts, the larger one first, keeps
      the stack tapered and lowers the work left. */
  lemma PushParts(st: seq<Range>, n: nat, a: Range, b: Range)
    requires st != [] && Tapered(st, n)
    requires 0 <= b.Size() <= a.Size() && a.Size() + b.Size() < st[|st| - 1].Size() && st[|st| - 1].Size() >= 11
    ensures Tapered(st[..|st| - 1] + [a, b], n)
    ensures Work(st[..|st| - 1] + [a, b]) < Work(st)
  {
    PushTapered(st, n, a, b);
    PushWork(st[..|st| - 1], st[|st| - 1], a, b);
    assert st[..|st| - 1] + [st[|st| - 1]] == st;
  }

  /** The two fixed arrays and the stack pointer (fpush and fpop). */
  class RangeStack {
    const stackLo: array<int>
    const stackHi: array<int>
    var sp: int
    ghost var contents: seq<Range>

    ghost predicate Valid()
      reads this, stackLo, stackHi
    {
      && stackLo != stackHi && stackLo.Length == 100 == stackHi.Length
      && 0 <= sp <= 100 && |contents| == sp
      && forall k :: 0 <= k < sp ==> contents[k] == Range(stackLo[k], stackHi[k])
    }

    constructor ()
      ensures Valid() && contents == [] && fresh(stackLo) && fresh(stackHi)
    {
      stackLo, stackHi := new int[100], new int[100];
      sp, contents := 0, [];
    }

    method Push(lo: int, hi: int)
      requires Valid() && sp < 100
      modifies this, stackLo, stackHi
      ensures Valid() && contents == old(contents) + [Range(lo, hi)]
    {
      stackLo[sp] := lo;
      stackHi[sp] := hi;
      sp := sp + 1;
      contents := contents + [Range(lo, hi)];
    }

    method Pop() returns (lo: int, hi: int)
      requires Valid() && sp > 0
      modifies this
      ensures Valid() && contents == old(contents)[..old(sp) - 1]
      ensures Range(lo, hi) == old(contents)[old(sp) - 1]
    {
      sp := sp - 1;
      lo := stackLo[sp];
      hi := stackHi[sp];
      contents := contents[..sp];
    }
  }

  /** Takes the pivot class of a range: left end, middle or right end by turns. */
  method Pivot(fmap: array<int>, eclass: array<int>, lo: int, hi: int, r: int) returns (med: int, ghost at: int)
    requires AllIn(fmap[..], eclass[..]) && 0 <= lo <= hi < fmap.Length
    ensures lo <= at <= hi && med == eclass[fmap[at]]
  {
    if r % 3 == 0 {
      at := lo;
      med := eclass[fmap[lo]];
    } else if r % 3 == 1 {
      at := (lo + hi) / 2;
      med := eclass[fmap[(lo + hi) / 2]];
    } else {
      at := hi;
      med := eclass[fmap[hi]];
    }
  }

  /** Handles one popped range; says which parts, if any, are to be stacked. */
  method SortOrSplit(fmap: array<int>, eclass: array<int>, ghost st: seq<Range>, lo: int, hi: int, r: int,
                     ghost loSt: int, ghost hiSt: int) returns (parts: Option<(Range, Range)>, r': int)
    requires fmap != eclass && AllIn(fmap[..], eclass[..])
    requires 0 <= loSt && hiSt < fmap.Length
    requires st != [] && st[|st| - 1] == Range(lo, hi)
    requires Disjoint(st, loSt, hiSt) && OrderedBut(eclass[..], fmap[..], st, loSt, hiSt)
    modifies fmap
    ensures AllIn(fmap[..], eclass[..]) && Rearranged(fmap[..], old(fmap[..]), lo, hi)
    ensures parts.None? ==> OrderedBut(eclass[..], fmap[..], st[..|st| - 1], loSt, hiSt)
    ensures parts.Some? ==>
      var (a, b) := parts.value;
      && hi - lo >= 10 && 0 <= b.Size() <= a.Size() && a.Size() + b.Size() < hi - lo + 1
      && OrderedBut(eclass[..], fmap[..], st[..|st| - 1] + [a, b], loSt, hiSt)
      && Disjoint(st[..|st| - 1] + [a, b], loSt, hiSt)
  {
    ghost var e, was := eclass[..], fmap[..];
    if hi - lo < 10 {
      SimpleSort(fmap, eclass, lo, hi);
      PopSorted(e, was, fmap[..], st, loSt, hiSt);
      return None, r;
    }
    r' := (r * 7621 + 1) % 32768;
    var med, at := Pivot(fmap, eclass, lo, hi, r');
    var allEqual, n, m := Partition(fmap, eclass[..], med, lo, hi);
    if allEqual {
      PopSorted(e, was, fmap[..], st, loSt, hiSt);
      return None, r';
    }
    SplitShrinks(e, was, fmap[..], lo, hi, at, n, m);
    var (a, b) := if n - lo > hi - m then (Range(lo, n), Range(m, hi)) else (Range(m, hi), Range(lo, n));
    PopSplit(e, was, fmap[..], st, loSt, hiSt, med, a, b, n, m);
    parts := Some((a, b));
  }

  /** What every turn of the sorting loop keeps. */
  ghost predicate Sorting(e: seq<int>, f: seq<int>, was: seq<int>, st: seq<Range>, loSt: int, hiSt: int) {
    && 0 <= loSt <= hiSt < |f| && hiSt - loSt + 1 < 0x8000_0000
    && AllIn(f, e) && Rearranged(f, was, loSt, hiSt)
    && Disjoint(st, loSt, hiSt) && OrderedBut(e, f, st, loSt, hiSt)
    && Tapered(st, hiSt - loSt + 1)
  }

  /** One turn of the sorting loop: pop a range, sort or split it, push the parts. */
  method Turn(stack: RangeStack, fmap: array<int>, eclass: array<int>, r: int,
              ghost was: seq<int>, ghost loSt: int, ghost hiSt: int) returns (r': int)
    requires stack.Valid() && stack.sp > 0
    requires fmap != eclass && {stack.stackLo, stack.stackHi} !! {fmap, eclass}
    requires Sorting(eclass[..], fmap[..], was, stack.contents, loSt, hiSt)
    modifies fmap, stack, stack.stackLo, stack.stackHi
    ensures stack.Valid() && Sorting(eclass[..], fmap[..], was, stack.contents, loSt, hiSt)
    ensures 0 <= Work(stack.contents) < old(Work(stack.contents))
  {
    ghost var st, before, size := stack.contents, fmap[..], hiSt - loSt + 1;
    TaperedDepth(st, size);
    assert stack.sp < 99;
    var lo, hi := stack.Pop();
    var parts;
    parts, r' := SortOrSplit(fmap, eclass, st, lo, hi, r, loSt, hiSt);
    RearrangedChain(fmap[..], before, was, loSt, hiSt, lo, hi);
    if parts.Some? {
      var (a, b) := parts.value;
      PushParts(st, size, a, b);
      stack.Push(a.lo, a.hi);
      stack.Push(b.lo, b.hi);
      assert stack.contents == st[..|st| - 1] + [a, b];
    }
    WorkNonNegative(stack.contents, loSt, hiSt);
  }

  /** Sorts the rows loSt..hiSt by class; the stack of 100 entries never fills. */
  method QSort3(fmap: array<int>, eclass: array<int>, loSt: int, hiSt: int)
    requires fmap != eclass && AllIn(fmap[..], eclass[..])
    requires 0 <= loSt <= hiSt < fmap.Length && hiSt - loSt + 1 < 0x8000_0000
    modifies fmap
    ensures AllIn(fmap[..], eclass[..])
    ensures Rearranged(fmap[..], old(fmap[..]), loSt, hiSt)
    ensures SortedBy(eclass[..], fmap[..], loSt, hiSt)
  {
    var stack := new RangeStack();
    ghost var was := fmap[..];
    var r := 0;
    stack.Push(loSt, hiSt);
    assert stack.contents == [Range(loSt, hiSt)] && stack.contents[..0] == [];
    while stack.sp > 0
      invariant stack.Valid() && fresh(stack) && fresh(stack.stackLo) && fresh(stack.stackHi)
      invariant Sorting(eclass[..], fmap[..], was, stack.contents, loSt, hiSt)
      decreases Work(stack.contents)
    {
      r := Turn(stack, fmap, eclass, r, was, loSt, hiSt);
    }
    forall p, q | loSt <= p < q <= hiSt
      ensures eclass[fmap[p]] <= eclass[fmap[q]]
    {
      assert !Together(stack.contents, p, q);
    }
  }
}
