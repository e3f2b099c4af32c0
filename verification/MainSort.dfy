/** mainSort and BZ2_blockSort of blocksort.c. */
module MainSort {
  import opened Common
  import opened Rotations
  import opened FallbackQSort
  import opened MainCompare
  import opened MainQSort
  import opened MainBuckets
  import opened MainCopy
  import FallbackSort

  // ---------------------------------------------------------------- the order in which big buckets are sorted

  /** Inserts the byte at i into those h, 2h, ... before it, by the size of their big buckets. */
  method InsertBig(order: array<int>, freq: seq<int>, i: int, h: int, ghost was: seq<int>)
    requires order.Length == 256 == |freq| && 1 <= h <= i < 256 && Rearranged(order[..], was, 0, 255)
    requires AllIn(order[..], freq) && AllIn(was, freq) && (h == 1 ==> SortedBy(freq, order[..], 0, i - 1))
    modifies order
    ensures Rearranged(order[..], was, 0, 255) && AllIn(order[..], freq)
    ensures h == 1 ==> SortedBy(freq, order[..], 0, i)
  {
    var vv, j := order[i], i;
    ghost var g := order[..];
    while freq[order[j - h]] > freq[vv]
      invariant Moving(freq, was, order[..], g, 0, j, i, 255, vv, h) && h <= j
      decreases j
    {
      ghost var a := order[..];
      order[j] := order[j - h];
      MoveOne(freq, was, a, order[..], g, 0, j, i, 255, vv, h);
      g := Swapped(g, j, j - h);
      j := j - h;
      if j <= h - 1 { break; }
    }
    if h == 1 { Sunk(freq, g, 0, j, i); }
    HoleFilled(order[..], g, j, vv);
    ghost var a := order[..];
    order[j] := vv;
    assert order[..] == a[j := vv];
  }

  method OrderPass(order: array<int>, freq: seq<int>, h: int, ghost was: seq<int>)
    requires order.Length == 256 == |freq| && 1 <= h < 256 && Rearranged(order[..], was, 0, 255)
    requires AllIn(order[..], freq) && AllIn(was, freq)
    modifies order
    ensures Rearranged(order[..], was, 0, 255) && AllIn(order[..], freq)
    ensures h == 1 ==> SortedBy(freq, order[..], 0, 255)
  {
    for i := h to 256
      invariant Rearranged(order[..], was, 0, 255) && AllIn(order[..], freq)
      invariant h == 1 ==> SortedBy(freq, order[..], 0, i - 1)
    {
      InsertBig(order, freq, i, h, was);
    }
  }

  /** All bytes, those with the smallest big buckets first. */
  method RunningOrder(freq: seq<int>) returns (order: array<int>)
    requires |freq| == 256
    ensures fresh(order) && order.Length == 256 && IsPerm(order[..]) && SortedBy(freq, order[..], 0, 255)
  {
    order := new int[256](i => i);
    ghost var was := order[..];
    var h := 364;  // the first of 1, 4, 13, 40, ... above 256
    while h != 1
      invariant h == 364 || h == 121 || h == 40 || h == 13 || h == 4 || h == 1
      invariant Rearranged(order[..], was, 0, 255) && AllIn(order[..], freq)
      invariant h == 1 ==> SortedBy(freq, order[..], 0, 255)
    {
      h := h / 3;
      OrderPass(order, freq, h, was);
    }
    RearrangedPerm(order[..], was, 0, 255);
  }

  // ---------------------------------------------------------------- step 1: sorting the small buckets of one byte

  /** What the main loop keeps: places in their buckets, buckets marked as sorted sorted, and for every byte that is
      done
      all buckets marked that begin with it or in which it comes second. */
  ghost predicate Sorting(b: seq<int>, f: seq<int>, small: seq<bool>, bigDone: seq<bool>) {
    && |f| == |b| && |small| == BUCKETS && |bigDone| == 256
    && forall u {:trigger Unfold(u)} :: Unfold(u) ==> Marked(b, f, small) && Closed(small, bigDone)
  }

  ghost predicate Marked(b: seq<int>, f: seq<int>, small: seq<bool>)
    requires |small| == BUCKETS
  {
    && Bytes(b) && |b| > OVERSHOOT && Bucketed(b, f)
    && forall c, j {:trigger SmallSorted(b, f, c, j)} :: InRange(c, j) && Mark(small, c, j) ==> SmallSorted(b, f, c, j)
  }

  ghost predicate Closed(small: seq<bool>, bigDone: seq<bool>)
    requires |small| == BUCKETS && |bigDone| == 256
  {
    forall c, j {:trigger Mark(small, c, j)} :: InRange(c, j) && (bigDone[c] || bigDone[j]) ==> Mark(small, c, j)
  }

  predicate InRange(c: int, j: int) {
    0 <= c < 256 && 0 <= j < 256
  }

  /** The small bucket of places with byte c followed by j is marked. */
  ghost predicate Mark(small: seq<bool>, c: int, j: int) {
    0 <= 256 * c + j < |small| && small[256 * c + j]
  }

  /** The bounds of a bucket, and that its places begin alike. */
  lemma {:induction false} BucketRanged(b: seq<int>, f: seq<int>, k: int)
    requires Bytes(b) && |b| >= 2 && Bucketed(b, f)
    ensures Ranged(b, Ranks(b), f, Start(b, k), Start(b, k + 1) - 1, 2) && Start(b, k + 1) <= |b|
  {
    var lo, hi := Start(b, k), Start(b, k + 1) - 1;
    StartMonotone(b, k + 1, k + 1);
    forall p, q {:trigger Alike(b, f[p], f[q], 2)} | lo <= p <= hi && lo <= q <= hi && 0 <= p < |f| && 0 <= q < |f|
      ensures Alike(b, f[p], f[q], 2)
    {
      RowKey(b, f, p, k);
      RowKey(b, f, q, k);
      KeyRank(b, f[p], f[q]);
    }
  }

  lemma {:induction false} OtherSmall(b: seq<int>, f: seq<int>, g: seq<int>, small: seq<bool>, c: int, j: int, d: int,
      i: int)
    requires |small| == BUCKETS && InRange(c, j) && InRange(d, i) && Marked(b, f, small) && (d != c || i != j)
    requires Rearranged(g, f, Start(b, 256 * c + j), Start(b, 256 * c + j + 1) - 1)
        && Mark(small[256 * c + j := true], d, i)
    ensures SmallSorted(b, g, d, i)
  {
    assert Mark(small, d, i);
    assert SmallSorted(b, f, d, i);
    assert AllIn(f, Ranks(b));
    OthersSorted(b, Ranks(b), f, g, 256 * c + j, 256 * d + i);
  }

  /** One bucket rearranged and sorted. */
  lemma {:induction false} BucketDone(b: seq<int>, f: seq<int>, g: seq<int>, small: seq<bool>, c: int, j: int)
    requires |small| == BUCKETS && InRange(c, j) && Marked(b, f, small)
    requires Rearranged(g, f, Start(b, 256 * c + j), Start(b, 256 * c + j + 1) - 1) && SmallSorted(b, g, c, j)
    ensures Marked(b, g, small[256 * c + j := true])
  {
    var after := small[256 * c + j := true];
    BucketRearranged(b, f, g, 256 * c + j);
    forall d, i {:trigger SmallSorted(b, g, d, i)} | InRange(d, i) && Mark(after, d, i)
      ensures SmallSorted(b, g, d, i)
    {
      if d != c || i != j { OtherSmall(b, f, g, small, c, j, d, i); }
    }
  }

  lemma {:induction false} SortedBucket(b: seq<int>, e: seq<int>, f: seq<int>, k: int)
    requires AllIn(f, e) && Start(b, k + 1) <= |f| && SortedBy(e, f, Start(b, k), Start(b, k + 1) - 1)
    ensures BucketSorted(b, e, f, k)
  {
  }

  lemma {:induction false} TinyBucket(b: seq<int>, e: seq<int>, f: seq<int>, k: int)
    requires Start(b, k + 1) - 1 <= Start(b, k)
    ensures BucketSorted(b, e, f, k)
  {
  }

  lemma RearrangedSame(f: seq<int>, lo: int, hi: int)
    ensures Rearranged(f, f, lo, hi)
  {
  }

  lemma {:induction false} StillClosed(small: seq<bool>, bigDone: seq<bool>, k: nat)
    requires |small| == BUCKETS && |bigDone| == 256 && k < BUCKETS && Closed(small, bigDone)
    ensures Closed(small[k := true], bigDone)
  {
    var after := small[k := true];
    forall c, j {:trigger Mark(after, c, j)} | InRange(c, j) && (bigDone[c] || bigDone[j])
      ensures Mark(after, c, j)
    {
      assert Mark(small, c, j);
    }
  }

  /** A bucket that has been sorted is marked. */
  lemma {:induction false} MarkSorted(b: seq<int>, f: seq<int>, g: seq<int>, small: seq<bool>, bigDone: seq<bool>,
      c: int, j: int)
    requires Sorting(b, f, small, bigDone) && InRange(c, j)
    requires Rearranged(g, f, Start(b, 256 * c + j), Start(b, 256 * c + j + 1) - 1) && SmallSorted(b, g, c, j)
    ensures Sorting(b, g, small[256 * c + j := true], bigDone)
  {
    assert Unfold(0);
    BucketDone(b, f, g, small, c, j);
    StillClosed(small, bigDone, 256 * c + j);
  }

  lemma {:induction false} SortingRanged(b: seq<int>, f: seq<int>, small: seq<bool>, bigDone: seq<bool>, k: int)
    requires Sorting(b, f, small, bigDone)
    ensures Ranged(b, Ranks(b), f, Start(b, k), Start(b, k + 1) - 1, 2) && Start(b, k + 1) <= |b| && Bytes(b)
        && Bucketed(b, f)
  {
    assert Unfold(0);
    BucketRanged(b, f, k);
  }

  /** ftab holds the beginnings of the buckets. */
  ghost predicate Table(b: seq<int>, ftab: seq<int>) {
    |ftab| == BUCKETS + 1 && forall k :: 0 <= k <= BUCKETS ==> ftab[k] == Start(b, k)
  }

  /** Sorts one small bucket. */
  method SortSmall(ptr: array<int>, block: seq<int>, quadrant: seq<int>, n: int, c: nat, j: nat, ftab: seq<int>,
      budget0: int,
                   ghost b: seq<int>, ghost small: seq<bool>, ghost bigDone: seq<bool>) returns (budget: int)
    requires 0 <= n <= |block| && b == block[..n] && n <= 900000 && Sortable(block, quadrant, n, Ranks(b))
        && budget0 >= 0
    requires Sorting(b, ptr[..], small, bigDone) && InRange(c, j) && Table(b, ftab)
    modifies ptr
    ensures budget >= 0 ==> Sorting(b, ptr[..], small[256 * c + j := true], bigDone)
    ensures Spent(b, budget0, budget)
  {
    budget := budget0;
    var k := 256 * c + j;
    ghost var was := ptr[..];
    var lo, hi := ftab[k], ftab[k + 1] - 1;
    SortingRanged(b, was, small, bigDone, k);
    if hi > lo {
      budget := MainQSort3(ptr, block, quadrant, n, lo, hi, 2, budget0, Ranks(b));
      if budget < 0 { return; }
      SortedBucket(b, Ranks(b), ptr[..], k);
    } else {
      TinyBucket(b, Ranks(b), ptr[..], k);
      RearrangedSame(was, lo, hi);
    }
    MarkSorted(b, was, ptr[..], small, bigDone, c, j);
  }

  /** The small buckets of s before j, but for the middle one, are marked. */
  ghost predicate MarkedTo(small: seq<bool>, s: int, j: int) {
    |small| == BUCKETS && 0 <= s < 256 && j <= 256 && forall i {:trigger Mark(small, s, i)} :: 0 <= i < j && i != s ==> Mark(small, s, i)
  }

  lemma {:induction false} OneMarked(small: seq<bool>, s: int, j: int)
    requires MarkedTo(small, s, j) && 0 <= j < 256
    ensures MarkedTo(small[256 * s + j := true], s, j + 1)
  {
    var after := small[256 * s + j := true];
    forall i {:trigger Mark(after, s, i)} | 0 <= i < j + 1 && i != s
      ensures Mark(after, s, i)
    {
      if i < j {
        assert Mark(small, s, i);
      } else {
        assert i == j && after[256 * s + j];
      }
    }
  }

  /** Step 1: sorts all small buckets of s that are not sorted yet, but for that of places followed by s again. */
  method SortBig(ptr: array<int>, block: seq<int>, quadrant: seq<int>, n: int, s: int, ftab: seq<int>,
      small: array<bool>, budget0: int,
                 ghost b: seq<int>, ghost bigDone: seq<bool>) returns (budget: int)
    requires 0 <= n <= |block| && b == block[..n] && n <= 900000 && Sortable(block, quadrant, n, Ranks(b))
        && budget0 >= 0
    requires Sorting(b, ptr[..], small[..], bigDone) && Table(b, ftab) && 0 <= s < 256
    modifies ptr, small
    ensures budget >= 0 ==> Sorting(b, ptr[..], small[..], bigDone) && MarkedTo(small[..], s, 256)
    ensures Spent(b, budget0, budget)
  {
    budget := budget0;
    for j := 0 to 256
      invariant Sorting(b, ptr[..], small[..], bigDone) && MarkedTo(small[..], s, j) && budget >= 0 && Spent(b, budget0, budget)
    {
      if j != s {
        var sb := 256 * s + j;
        ghost var marks := small[..];
        if !small[sb] {
          budget := SortSmall(ptr, block, quadrant, n, s, j, ftab, budget, b, marks, bigDone);
          if budget < 0 { return; }
        } else {
          assert marks[sb := true] == marks;
        }
        small[sb] := true;
        assert small[..] == marks[sb := true];
        OneMarked(marks, s, j);
      }
    }
  }

  // ---------------------------------------------------------------- step 2: the copying scans

  ghost predicate LeftStarts(b: seq<int>, s: int, done: seq<bool>, seenL: seq<int>, copyStart: seq<int>) {
    |copyStart| == 256 == |done| && forall c :: 0 <= c < 256 && !done[c] ==> copyStart[c] == LeftRow(b, s, seenL, c)
  }

  ghost predicate RightEnds(b: seq<int>, s: int, done: seq<bool>, seenR: seq<int>, copyEnd: seq<int>) {
    |copyEnd| == 256 == |done| && forall c :: 0 <= c < 256 && !done[c] ==> copyEnd[c] == RightRow(b, s, seenR, c)
  }

  lemma {:induction false} StartsMove(b: seq<int>, s: int, done: seq<bool>, seenL: seq<int>, cs: seq<int>,
      cs': seq<int>, x: nat)
    requires LeftStarts(b, s, done, seenL, cs) && x < |b| && 0 <= b[Prev(|b|, x)] < 256
    requires var c := b[Prev(|b|, x)]; cs' == if done[c] then cs else cs[c := cs[c] + 1]
    ensures LeftStarts(b, s, done, seenL + [x], cs')
  {
    forall c | 0 <= c < 256 && !done[c]
      ensures cs'[c] == LeftRow(b, s, seenL + [x], c)
    {
      PredsAppend(b, seenL, x, c);
    }
  }

  lemma {:induction false} EndsMove(b: seq<int>, s: int, done: seq<bool>, seenR: seq<int>, ce: seq<int>, ce': seq<int>,
      x: nat)
    requires RightEnds(b, s, done, seenR, ce) && x < |b| && 0 <= b[Prev(|b|, x)] < 256
    requires var c := b[Prev(|b|, x)]; ce' == if done[c] then ce else ce[c := ce[c] - 1]
    ensures RightEnds(b, s, done, seenR + [x], ce')
  {
    forall c | 0 <= c < 256 && !done[c]
      ensures ce'[c] == RightRow(b, s, seenR + [x], c)
    {
      PredsAppend(b, seenR, x, c);
    }
  }

  /** Puts the place before the one in row j into its bucket, if that bucket is not done. */
  method CopyOneLeft(ptr: array<int>, b: seq<int>, s: int, bigDone: seq<bool>, copyStart: array<int>, j: int,
                     ghost was: seq<int>, ghost seenL: seq<int>, ghost seenR: seq<int>) returns (ghost seen: seq<int>)
    requires ptr != copyStart && Scanning(b, s, bigDone, was, ptr[..], seenL, seenR)
        && j == Start(b, 256 * s) + |seenL| < LeftRow(b, s, seenL, s)
    requires LeftStarts(b, s, bigDone, seenL, copyStart[..]) && j < ptr.Length
    modifies ptr, copyStart
    ensures |seen| == |seenL| + 1 && Scanning(b, s, bigDone, was, ptr[..], seen, seenR)
        && LeftStarts(b, s, bigDone, seen, copyStart[..])
  {
    ghost var f, cs := ptr[..], copyStart[..];
    var x := ptr[j];
    StepLeft(b, s, bigDone, was, f, seenL, seenR, x);
    var k := if x == 0 then |b| - 1 else x - 1;
    var c1 := b[k];
    if !bigDone[c1] {
      ptr[copyStart[c1]] := k;
      copyStart[c1] := copyStart[c1] + 1;
    }
    seen := seenL + [x];
    assert ptr[..] == PutLeft(b, s, bigDone, f, seenL, x);
    StartsMove(b, s, bigDone, seenL, cs, copyStart[..], x);
  }

  method CopyOneRight(ptr: array<int>, b: seq<int>, s: int, bigDone: seq<bool>, copyEnd: array<int>, j: int,
                      ghost was: seq<int>, ghost seenL: seq<int>, ghost seenR: seq<int>) returns (ghost seen: seq<int>)
    requires ptr != copyEnd && Scanning(b, s, bigDone, was, ptr[..], seenL, seenR)
    requires j == Start(b, 256 * s + 256) - 1 - |seenR| > RightRow(b, s, seenR, s) && 0 <= j < ptr.Length
    requires RightEnds(b, s, bigDone, seenR, copyEnd[..])
    modifies ptr, copyEnd
    ensures |seen| == |seenR| + 1 && Scanning(b, s, bigDone, was, ptr[..], seenL, seen)
        && RightEnds(b, s, bigDone, seen, copyEnd[..])
  {
    ghost var f, ce := ptr[..], copyEnd[..];
    var x := ptr[j];
    StepRight(b, s, bigDone, was, f, seenL, seenR, x);
    var k := if x == 0 then |b| - 1 else x - 1;
    var c1 := b[k];
    if !bigDone[c1] {
      ptr[copyEnd[c1]] := k;
      copyEnd[c1] := copyEnd[c1] - 1;
    }
    seen := seenR + [x];
    assert ptr[..] == PutRight(b, s, bigDone, f, seenR, x);
    EndsMove(b, s, bigDone, seenR, ce, copyEnd[..], x);
  }

  /** The scan from the left; what it puts into the bucket it scans it will scan as well. */
  method ScanLeft(ptr: array<int>, b: seq<int>, s: int, bigDone: seq<bool>, copyStart: array<int>, from: int,
      ghost was: seq<int>)
    returns (ghost seenL: seq<int>)
    requires ptr != copyStart && Scanning(b, s, bigDone, was, ptr[..], [], []) && from == Start(b, 256 * s)
    requires LeftStarts(b, s, bigDone, [], copyStart[..])
    modifies ptr, copyStart
    ensures Scanning(b, s, bigDone, was, ptr[..], seenL, []) && LeftStarts(b, s, bigDone, seenL, copyStart[..])
    ensures Start(b, 256 * s) + |seenL| >= LeftRow(b, s, seenL, s)
  {
    seenL := [];
    var j := from;
    while j < copyStart[s]
      invariant Scanning(b, s, bigDone, was, ptr[..], seenL, []) && LeftStarts(b, s, bigDone, seenL, copyStart[..])
      invariant j == Start(b, 256 * s) + |seenL|
      decreases |b| - j
    {
      ReadLeft(b, s, bigDone, was, ptr[..], seenL, []);
      seenL := CopyOneLeft(ptr, b, s, bigDone, copyStart, j, was, seenL, []);
      j := j + 1;
    }
  }

  method ScanRight(ptr: array<int>, b: seq<int>, s: int, bigDone: seq<bool>, copyEnd: array<int>, from: int,
      ghost was: seq<int>, ghost seenL: seq<int>)
    returns (ghost seenR: seq<int>)
    requires ptr != copyEnd && Scanning(b, s, bigDone, was, ptr[..], seenL, []) && from == Start(b, 256 * s + 256) - 1
    requires RightEnds(b, s, bigDone, [], copyEnd[..])
    modifies ptr, copyEnd
    ensures Scanning(b, s, bigDone, was, ptr[..], seenL, seenR) && RightEnds(b, s, bigDone, seenR, copyEnd[..])
    ensures Start(b, 256 * s + 256) - 1 - |seenR| <= RightRow(b, s, seenR, s)
  {
    seenR := [];
    var j := from;
    while j > copyEnd[s]
      invariant Scanning(b, s, bigDone, was, ptr[..], seenL, seenR) && RightEnds(b, s, bigDone, seenR, copyEnd[..])
      invariant j == Start(b, 256 * s + 256) - 1 - |seenR|
      decreases j
    {
      ReadRight(b, s, bigDone, was, ptr[..], seenL, seenR);
      seenR := CopyOneRight(ptr, b, s, bigDone, copyEnd, j, was, seenL, seenR);
      j := j - 1;
    }
  }

  lemma {:induction false} ScanReady(b: seq<int>, f: seq<int>, small: seq<bool>, bigDone: seq<bool>, s: int)
    requires Sorting(b, f, small, bigDone) && MarkedTo(small, s, 256) && !bigDone[s]
    ensures ReadyToScan(b, s, bigDone, f)
  {
    assert Unfold(0);
    forall j {:trigger SmallSorted(b, f, s, j)} | 0 <= j < 256 && j != s
      ensures SmallSorted(b, f, s, j)
    {
      assert Mark(small, s, j);
    }
  }

  /** The middle bucket is full, or the block is all one byte (assertion 1007). */
  lemma {:induction false} MiddleFull(b: seq<int>, s: int, done: seq<bool>, was: seq<int>, f: seq<int>, seenL: seq<int>,
      seenR: seq<int>)
    requires Settled(b, s, done, was, f, seenL, seenR) && Bytes(b)
    ensures LeftRow(b, s, seenL, s) - 1 == RightRow(b, s, seenR, s)
         || (LeftRow(b, s, seenL, s) == 0 && RightRow(b, s, seenR, s) == |b| - 1)
  {
    if z :| 0 <= z < |b| && b[z] != s {
      SettledFull(b, s, done, was, f, seenL, seenR, s, z);
    } else {
      OneByteSorted(b, s, done, was, f, seenL, seenR, 0);
      OneKey(b, s, |b|);
    }
  }

  lemma {:induction false} OneKey(b: seq<int>, s: int, n: nat)
    requires n <= |b| && forall z :: 0 <= z < |b| ==> b[z] == s
    ensures BelowTo(Pairs(b), n, 256 * s + s) == 0 && BelowTo(Pairs(b), n, 256 * s + s + 1) == n
  {
    if n > 0 {
      OneKey(b, s, n - 1);
      assert Pairs(b)[n - 1] == Key(b, n - 1);
    }
  }

  method FindCopyBounds(ftab: seq<int>, s: int, ghost b: seq<int>, ghost done: seq<bool>)
      returns (copyStart: array<int>, copyEnd: array<int>)
    requires Table(b, ftab) && 0 <= s < 256 && |done| == 256
    ensures fresh(copyStart) && fresh(copyEnd) && copyStart != copyEnd && LeftStarts(b, s, done, [], copyStart[..])
        && RightEnds(b, s, done, [], copyEnd[..])
  {
    copyStart, copyEnd := new int[256], new int[256];
    for j := 0 to 256
      invariant forall c :: 0 <= c < j ==> copyStart[c] == Start(b, 256 * c + s) && copyEnd[c] == Start(b, 256 * c + s + 1) - 1
    {
      copyStart[j] := ftab[256 * j + s];
      copyEnd[j] := ftab[256 * j + s + 1] - 1;
    }
  }

  /** Step 2: scanning big bucket s from both ends sorts the buckets of all places before it that are not done. */
  method CopyScans(ptr: array<int>, b: seq<int>, s: int, bigDone: seq<bool>, ftab: seq<int>)
    requires ReadyToScan(b, s, bigDone, ptr[..]) && Table(b, ftab)
    modifies ptr
    ensures StepDone(b, s, bigDone, old(ptr[..]), ptr[..])
  {
    ghost var was := ptr[..];
    var copyStart, copyEnd := FindCopyBounds(ftab, s, b, bigDone);
    ScanStart(b, s, bigDone, was);
    ghost var seenL := ScanLeft(ptr, b, s, bigDone, copyStart, ftab[256 * s], was);
    ghost var seenR := ScanRight(ptr, b, s, bigDone, copyEnd, ftab[256 * s + 256] - 1, was, seenL);
    BothFinished(b, s, bigDone, was, ptr[..], seenL, seenR);
    MiddleFull(b, s, bigDone, was, ptr[..], seenL, seenR);
    assert copyStart[s] - 1 == copyEnd[s] || (copyStart[s] == 0 && copyEnd[s] == |b| - 1);
    WholeStep(b, s, bigDone, was, ptr[..], seenL, seenR);
  }

  lemma {:induction false} BothFinished(b: seq<int>, s: int, done: seq<bool>, was: seq<int>, f: seq<int>,
      seenL: seq<int>, seenR: seq<int>)
    requires Scanning(b, s, done, was, f, seenL, seenR) && Start(b, 256 * s) + |seenL| >= LeftRow(b, s, seenL, s)
    requires Start(b, 256 * s + 256) - 1 - |seenR| <= RightRow(b, s, seenR, s)
    ensures Settled(b, s, done, was, f, seenL, seenR)
  {
    LeftFinished(b, s, done, was, f, seenL, seenR);
    RightFinished(b, s, done, was, f, seenL, seenR);
  }

  // ---------------------------------------------------------------- step 3 and the main loop

  /** All small buckets in which s comes second are marked as well. */
  ghost predicate SecondMarked(small: seq<bool>, after: seq<bool>, s: int) {
    |small| == |after| == BUCKETS &&
    forall c, j {:trigger Mark(after, c, j)} :: InRange(c, j) ==> (Mark(after, c, j) <==> Mark(small, c, j) || j == s)
  }

  method MarkBuckets(small: array<bool>, s: int)
    requires small.Length == BUCKETS && 0 <= s < 256
    modifies small
    ensures SecondMarked(old(small[..]), small[..], s)
  {
    ghost var was := small[..];
    for i := 0 to 256
      invariant forall c, j {:trigger Mark(small[..], c, j)} :: InRange(c, j) ==> (Mark(small[..], c, j) <==> Mark(was, c, j) || (j == s && c < i))
    {
      ghost var before := small[..];
      small[256 * i + s] := true;
      forall c, j {:trigger Mark(small[..], c, j)} | InRange(c, j)
        ensures Mark(small[..], c, j) <==> Mark(was, c, j) || (j == s && c < i + 1)
      {
        assert Mark(before, c, j) <==> Mark(was, c, j) || (j == s && c < i);
      }
    }
  }

  lemma {:induction false} StillMarked(b: seq<int>, f: seq<int>, g: seq<int>, small: seq<bool>, after: seq<bool>,
      bigDone: seq<bool>, s: int)
    requires |small| == BUCKETS && |bigDone| == 256 && Marked(b, f, small) && Closed(small, bigDone) && 0 <= s < 256
    requires StepDone(b, s, bigDone, f, g) && SecondMarked(small, after, s)
    ensures Marked(b, g, after)
  {
    forall c, j {:trigger SmallSorted(b, g, c, j)} | InRange(c, j) && Mark(after, c, j)
      ensures SmallSorted(b, g, c, j)
    {
      if j != s || bigDone[c] {
        assert Mark(small, c, j);
        assert SmallSorted(b, f, c, j) && Elsewhere(s, bigDone, c, j);
      }
    }
  }

  lemma {:induction false} MoreClosed(small: seq<bool>, after: seq<bool>, bigDone: seq<bool>, s: int)
    requires |small| == BUCKETS && |bigDone| == 256 && Closed(small, bigDone) && MarkedTo(small, s, 256)
        && SecondMarked(small, after, s)
    ensures Closed(after, bigDone[s := true])
  {
    forall c, j {:trigger Mark(after, c, j)} | InRange(c, j) && (bigDone[s := true][c] || bigDone[s := true][j])
      ensures Mark(after, c, j)
    {
      if j != s { assert Mark(small, c, j); }
    }
  }

  /** After steps 1 and 2 for s, everything that begins with s or has it second is sorted. */
  lemma {:induction false} BigBucketDone(b: seq<int>, f: seq<int>, g: seq<int>, small: seq<bool>, after: seq<bool>,
      bigDone: seq<bool>, s: int)
    requires Sorting(b, f, small, bigDone) && MarkedTo(small, s, 256) && StepDone(b, s, bigDone, f, g)
        && SecondMarked(small, after, s)
    ensures Sorting(b, g, after, bigDone[s := true])
  {
    assert Unfold(0);
    StillMarked(b, f, g, small, after, bigDone, s);
    MoreClosed(small, after, bigDone, s);
  }

  /** Every place of byte s stands in a row of its big bucket. */
  lemma {:induction false} BigPlace(b: seq<int>, f: seq<int>, s: int, x: int)
    requires Bytes(b) && Bucketed(b, f) && 0 <= s < 256 && 0 <= x < |b| && b[x] == s
    requires Start(b, 256 * s) <= Start(b, 256 * s + 256) <= |f|
    ensures x in f[Start(b, 256 * s)..Start(b, 256 * s + 256)]
  {
    assert 0 <= b[Next(|b|, x)] < 256;
    var p := RowAmong(b, s, f, x, 0, 256);
    assert f[Start(b, 256 * s)..Start(b, 256 * s + 256)][p - Start(b, 256 * s)] == x;
  }

  /** The big bucket of s is sorted as a whole. */
  lemma {:induction false} BigSorted(b: seq<int>, f: seq<int>, small: seq<bool>, bigDone: seq<bool>, s: int)
    requires Sorting(b, f, small, bigDone) && 0 <= s < 256 && bigDone[s]
    ensures Start(b, 256 * s) <= Start(b, 256 * s + 256) <= |f|
    ensures BigBucket(b, f[Start(b, 256 * s)..Start(b, 256 * s + 256)], s)
  {
    SortingRanged(b, f, small, bigDone, 0);
    StartMonotone(b, 256 * s, 256 * s + 256);
    var rows := f[Start(b, 256 * s)..Start(b, 256 * s + 256)];
    BigContents(b, f, s, Start(b, 256 * s), rows);
    BigOrder(b, f, small, bigDone, s, rows);
  }

  lemma {:induction false} BigOrder(b: seq<int>, f: seq<int>, small: seq<bool>, bigDone: seq<bool>, s: int,
      rows: seq<int>)
    requires Sorting(b, f, small, bigDone) && 0 <= s < 256 && bigDone[s]
    requires 0 <= Start(b, 256 * s) <= Start(b, 256 * s + 256) <= |f|
        && rows == f[Start(b, 256 * s)..Start(b, 256 * s + 256)]
    requires forall j :: 0 <= j < |rows| ==> 0 <= rows[j] < |b|
    ensures forall j, k {:trigger Cmp(b, rows[j], rows[k], |b|)} :: 0 <= j < k < |rows| ==> Cmp(b, rows[j], rows[k], |b|) <= 0
  {
    var lo := Start(b, 256 * s);
    forall j, k {:trigger Cmp(b, rows[j], rows[k], |b|)} | 0 <= j < k < |rows|
      ensures Cmp(b, rows[j], rows[k], |b|) <= 0
    {
      BigRows(b, f, small, bigDone, s, lo + j, lo + k);
    }
  }

  lemma {:induction false} BigContents(b: seq<int>, f: seq<int>, s: int, lo: int, rows: seq<int>)
    requires Bytes(b) && Bucketed(b, f) && 0 <= s < 256
        && 0 <= lo == Start(b, 256 * s) <= Start(b, 256 * s + 256) <= |f|
    requires rows == f[lo..Start(b, 256 * s + 256)]
    ensures forall j :: 0 <= j < |rows| ==> 0 <= rows[j] < |b| && b[rows[j]] == s
    ensures forall j, k :: 0 <= j < k < |rows| ==> rows[j] != rows[k]
    ensures forall x :: 0 <= x < |b| && b[x] == s ==> x in rows
  {
    forall j | 0 <= j < |rows|
      ensures 0 <= rows[j] < |b| && b[rows[j]] == s
    {
      RowBytes(b, s, f, lo + j, 0, 256);
    }
    forall x | 0 <= x < |b| && b[x] == s
      ensures x in rows
    {
      BigPlace(b, f, s, x);
    }
  }

  lemma {:induction false} BigRows(b: seq<int>, f: seq<int>, small: seq<bool>, bigDone: seq<bool>, s: int, p: nat,
      q: nat)
    requires Sorting(b, f, small, bigDone) && 0 <= s < 256 && bigDone[s]
        && Start(b, 256 * s) <= p < q < Start(b, 256 * s + 256)
    ensures q < |f| && 0 <= f[p] < |b| && 0 <= f[q] < |b| && Cmp(b, f[p], f[q], |b|) <= 0
  {
    assert Unfold(0);
    StartMonotone(b, 256 * s + 256, 256 * s + 256);
    RowBytes(b, s, f, p, 0, 256);
    RowBytes(b, s, f, q, 0, 256);
    BucketOrder(b, f, p, q);
    KeyRank(b, f[p], f[q]);
    if Key(b, f[p]) == Key(b, f[q]) {
      var j := b[Next(|b|, f[p])];
      assert Mark(small, s, j);
      assert SmallSorted(b, f, s, j);
      assert AllIn(f, Ranks(b));
      RankOrder(b, f[p], f[q]);
    }
  }

  // ---------------------------------------------------------------- the whole sort

  lemma {:induction false} MakeSortable(b: seq<int>, block: seq<int>, quadrant: seq<int>)
    requires |b| > OVERSHOOT && block == b + b[..OVERSHOOT] && Wraps(quadrant, |b|) && Consistent(b, quadrant)
    ensures block[..|b|] == b && Sortable(block, quadrant, |b|, Ranks(b))
  {
    assert block[..|b|] == b;
  }

  /** Clears the quadrants, the overshoot area too. */
  method ClearQuadrants(quadrant: array<int>, n: int, ghost b: seq<int>)
    requires |b| == n > OVERSHOOT && quadrant.Length == n + OVERSHOOT
    modifies quadrant
    ensures Wraps(quadrant[..], n) && Consistent(b, quadrant[..])
  {
    for i := 0 to quadrant.Length
      invariant forall k :: 0 <= k < i ==> quadrant[k] == 0
    {
      quadrant[i] := 0;
    }
    ZerosConsistent(b, quadrant[..]);
  }

  /** At the start no bucket is marked. */
  lemma {:induction false} NothingMarked(b: seq<int>, f: seq<int>, small: seq<bool>, bigDone: seq<bool>)
    requires Bytes(b) && |b| > OVERSHOOT && Bucketed(b, f) && |small| == BUCKETS && |bigDone| == 256
    requires (forall k :: 0 <= k < BUCKETS ==> !small[k]) && (forall c :: 0 <= c < 256 ==> !bigDone[c])
    ensures Sorting(b, f, small, bigDone)
  {
    assert Marked(b, f, small) && Closed(small, bigDone);
  }

  /** At the end all are. */
  lemma {:induction false} AllDone(b: seq<int>, f: seq<int>, small: seq<bool>, bigDone: seq<bool>)
    requires Sorting(b, f, small, bigDone) && forall c :: 0 <= c < 256 ==> bigDone[c]
    ensures SortsRotations(b, f)
  {
    assert Unfold(0);
    forall c, j {:trigger SmallSorted(b, f, c, j)} | InRange(c, j)
      ensures SmallSorted(b, f, c, j)
    {
      assert Mark(small, c, j);
    }
    AllBucketsSort(b, f);
  }

  /** The bytes of the running order before i are done, the others are not. */
  ghost predicate DoneTo(order: seq<int>, bigDone: seq<bool>, i: int) {
    && |order| == 256 == |bigDone| && IsPerm(order)
    && forall j :: 0 <= j < 256 ==> (bigDone[order[j]] <==> j < i)
  }

  lemma {:induction false} EveryByte(order: seq<int>, bigDone: seq<bool>)
    requires DoneTo(order, bigDone, 256)
    ensures forall c :: 0 <= c < 256 ==> bigDone[c]
  {
    forall c | 0 <= c < 256
      ensures bigDone[c]
    {
      var j := PermSurjective(order, c);
    }
  }

  method BigSizes(ftab: seq<int>) returns (freq: seq<int>)
    requires |ftab| == BUCKETS + 1
    ensures |freq| == 256 && forall c :: 0 <= c < 256 ==> freq[c] == ftab[256 * c + 256] - ftab[256 * c]
  {
    freq := seq(256, c requires 0 <= c < 256 => ftab[256 * c + 256] - ftab[256 * c]);
  }

  /** Step 3: numbers the quadrants of the big bucket that is now sorted. */
  method StampBig(ptr: array<int>, b: seq<int>, quadrant: array<int>, s: int, ftab: seq<int>,
                  ghost small: seq<bool>, ghost bigDone: seq<bool>)
    requires ptr != quadrant && OVERSHOOT < |b| <= 900000 && Table(b, ftab)
    requires Wraps(quadrant[..], |b|) && Consistent(b, quadrant[..])
    requires Sorting(b, ptr[..], small, bigDone) && 0 <= s < 256 && bigDone[s]
    modifies quadrant
    ensures Wraps(quadrant[..], |b|) && Consistent(b, quadrant[..])
  {
    BigSorted(b, ptr[..], small, bigDone, s);
    var bbStart := ftab[256 * s];
    var bbSize := ftab[256 * s + 256] - bbStart;
    assert ptr[bbStart..bbStart + bbSize] == ptr[..][bbStart..bbStart + bbSize];
    UpdateQuadrants(quadrant, ptr, bbStart, bbSize, |b|, b, s);
  }

  /** One big bucket: steps 1, 2 and 3. */
  method SortByte(ptr: array<int>, b: seq<int>, block: seq<int>, quadrant: array<int>, s: int, last: bool,
      ftab: seq<int>,
                  small: array<bool>, bigDone: array<bool>, budget0: int) returns (budget: int)
    requires ptr != quadrant && small != bigDone && OVERSHOOT < |b| <= 900000 && block == b + b[..OVERSHOOT]
        && budget0 >= 0
    requires Wraps(quadrant[..], |b|) && Consistent(b, quadrant[..]) && Table(b, ftab)
    requires Sorting(b, ptr[..], small[..], bigDone[..]) && 0 <= s < 256 && !bigDone[s]
    modifies ptr, quadrant, small, bigDone
    ensures budget >= 0 ==> Sorting(b, ptr[..], small[..], bigDone[..]) && bigDone[..] == old(bigDone[..])[s := true]
    ensures budget >= 0 ==> Wraps(quadrant[..], |b|) && Consistent(b, quadrant[..])
    ensures Spent(b, budget0, budget)
  {
    ghost var done := bigDone[..];
    MakeSortable(b, block, quadrant[..]);
    budget := SortBig(ptr, block, quadrant[..], |b|, s, ftab, small, budget0, b, done);
    if budget < 0 { return; }
    ghost var f, marks := ptr[..], small[..];
    ScanReady(b, f, marks, done, s);
    CopyScans(ptr, b, s, bigDone[..], ftab);
    MarkBuckets(small, s);
    BigBucketDone(b, f, ptr[..], marks, small[..], done, s);
    bigDone[s] := true;
    assert bigDone[..] == done[s := true];
    if !last {
      StampBig(ptr, b, quadrant, s, ftab, small[..], bigDone[..]);
    }
  }

  /** Sorts the rotations of the block, unless the budget is used up; of which something is spent only if two different
      rotations begin with the same twenty characters. */
  method Sort(ptr: array<int>, b: seq<int>, ftab: array<int>, quadrant: array<int>, budget0: int) returns (budget: int)
    requires ptr != quadrant && ptr != ftab && ftab != quadrant && Bytes(b) && OVERSHOOT < |b| <= 900000 && budget0 >= 0
    requires ptr.Length == |b| && quadrant.Length == |b| + OVERSHOOT && ftab.Length == BUCKETS + 1
    modifies ptr, ftab, quadrant
    ensures budget >= 0 ==> SortsRotations(b, ptr[..])
    ensures Spent(b, budget0, budget)
  {
    budget := budget0;
    ClearQuadrants(quadrant, |b|, b);
    var block := b + b[..OVERSHOOT];
    RadixSort(b, ptr, ftab);
    var starts := ftab[..];
    var freq := BigSizes(starts);
    var order := RunningOrder(freq);
    var small, bigDone := new bool[BUCKETS](i => false), new bool[256](i => false);
    NothingMarked(b, ptr[..], small[..], bigDone[..]);
    for i := 0 to 256
      invariant Sorting(b, ptr[..], small[..], bigDone[..]) && DoneTo(order[..], bigDone[..], i) && budget >= 0
          && Spent(b, budget0, budget)
      invariant Wraps(quadrant[..], |b|) && Consistent(b, quadrant[..]) && Table(b, starts)
      invariant fresh(small) && fresh(bigDone) && small != bigDone && fresh(order)
    {
      var s := order[i];
      ghost var done := bigDone[..];
      budget := SortByte(ptr, b, block, quadrant, s, i == 255, starts, small, bigDone, budget);
      if budget < 0 { return; }
    }
    EveryByte(order[..], bigDone[..]);
    AllDone(b, ptr[..], small[..], bigDone[..]);
  }
}
