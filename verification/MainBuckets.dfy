/** The two-byte buckets of mainSort (blocksort.c): radix sort, and what it means for them to be sorted. */
module MainBuckets {
  import opened Common
  import opened Rotations
  import opened Bwt
  import opened FallbackQSort
  import opened MainCompare
  import opened MainQSort

  const BUCKETS := 65536

  /** The first two bytes of a rotation as one number. */
  ghost function Key(b: seq<int>, i: nat): (r: int)
    requires i < |b|
  {
    256 * b[i] + b[Next(|b|, i)]
  }

  ghost function Pairs(b: seq<int>): (r: seq<int>)
    ensures |r| == |b| && forall i :: 0 <= i < |b| ==> r[i] == Key(b, i)
  {
    seq(|b|, i requires 0 <= i < |b| => Key(b, i))
  }

  /** Where the bucket of key k begins. */
  ghost function Start(b: seq<int>, k: int): (r: nat) {
    BelowTo(Pairs(b), |b|, k)
  }

  /** f lists all places, each in the bucket of its first two bytes. */
  ghost predicate Bucketed(b: seq<int>, f: seq<int>) {
    && |f| == |b| && IsPerm(f)
    && forall p {:trigger f[p]} :: 0 <= p < |f| ==> Start(b, Key(b, f[p])) <= p < Start(b, Key(b, f[p]) + 1)
  }

  ghost predicate BucketSorted(b: seq<int>, e: seq<int>, f: seq<int>, k: int) {
    forall p, q {:trigger f[p], f[q]} :: Start(b, k) <= p < q < Start(b, k + 1) && q < |f| && AllIn(f, e)
        ==> e[f[p]] <= e[f[q]]
  }

  /** The small bucket of the places with byte c followed by j is sorted. */
  ghost predicate SmallSorted(b: seq<int>, f: seq<int>, c: int, j: int) {
    BucketSorted(b, Ranks(b), f, 256 * c + j)
  }

  lemma {:induction false} StartMonotone(b: seq<int>, k: int, m: int)
    requires k <= m
    ensures Start(b, k) <= Start(b, m) <= |b|
  {
    BelowMonotone(Pairs(b), |b|, k, m);
  }

  lemma {:induction false} PairsBelow(b: seq<int>, n: nat)
    requires n <= |b| && Bytes(b)
    ensures BelowTo(Pairs(b), n, 0) == 0 && BelowTo(Pairs(b), n, BUCKETS) == n
  {
    if n > 0 {
      PairsBelow(b, n - 1);
    }
  }

  /** Rows of different buckets have different keys, in order. */
  lemma {:induction false} BucketOrder(b: seq<int>, f: seq<int>, p: nat, q: nat)
    requires Bucketed(b, f) && p < q < |f|
    ensures Key(b, f[p]) <= Key(b, f[q])
  {
    if Key(b, f[p]) > Key(b, f[q]) {
      StartMonotone(b, Key(b, f[q]) + 1, Key(b, f[p]));
    }
  }

  /** A row within the bounds of a bucket has its key. */
  lemma {:induction false} RowKey(b: seq<int>, f: seq<int>, p: nat, k: int)
    requires Bucketed(b, f) && Start(b, k) <= p < Start(b, k + 1)
    ensures p < |f| && Key(b, f[p]) == k
  {
    StartMonotone(b, k + 1, k + 1);
    var x := Key(b, f[p]);
    if x < k {
      StartMonotone(b, x + 1, k);
    } else if x > k {
      StartMonotone(b, k + 1, x);
    }
  }

  /** A smaller key means a smaller rotation. */
  lemma {:induction false} KeyRank(b: seq<int>, x: nat, y: nat)
    requires Bytes(b) && x < |b| && y < |b| && |b| >= 2
    ensures Key(b, x) < Key(b, y) ==> Ranks(b)[x] <= Ranks(b)[y] && Cmp(b, x, y, |b|) < 0
    ensures Key(b, x) == Key(b, y) ==> Alike(b, x, y, 2)
  {
    CmpSplit(b, x, y, 2, |b| - 2);
    var x1, y1 := Next(|b|, x), Next(|b|, y);
    assert 0 <= b[x1] < 256 && 0 <= b[y1] < 256;
    assert Cmp(b, x, y, 2) == if b[x] < b[y] then -1 else if b[x] > b[y] then 1 else Cmp(b, x1, y1, 1);
    assert Cmp(b, x1, y1, 1) == if b[x1] < b[y1] then -1 else if b[x1] > b[y1] then 1
        else Cmp(b, Next(|b|, x1), Next(|b|, y1), 0);
    RankOrder(b, x, y);
  }

  /** When every bucket is sorted, so are the rotations. */
  lemma {:induction false} AllBucketsSort(b: seq<int>, f: seq<int>)
    requires Bytes(b) && |b| >= 2 && Bucketed(b, f)
    requires forall c, j {:trigger SmallSorted(b, f, c, j)} :: 0 <= c < 256 && 0 <= j < 256 ==> SmallSorted(b, f, c, j)
    ensures SortsRotations(b, f)
  {
    assert AllIn(f, Ranks(b));
    forall p, q {:trigger RowsInOrder(b, f, p, q)} | 0 <= p < q < |f|
      ensures RowsInOrder(b, f, p, q)
    {
      BucketOrder(b, f, p, q);
      var k := Key(b, f[p]);
      KeyRank(b, f[p], f[q]);
      if k == Key(b, f[q]) {
        assert 0 <= b[f[p]] < 256 && 0 <= b[Next(|b|, f[p])] < 256;
        assert SmallSorted(b, f, b[f[p]], b[Next(|b|, f[p])]);
      }
      RankOrder(b, f[p], f[q]);
      RotationOrder(b, f[p], f[q]);
    }
  }

  // ---------------------------------------------------------------- rearranging one bucket

  /** Whatever happens inside one bucket, the places stay in their buckets. */
  lemma {:induction false} BucketRearranged(b: seq<int>, f: seq<int>, g: seq<int>, k: int)
    requires Bucketed(b, f) && Rearranged(g, f, Start(b, k), Start(b, k + 1) - 1)
    ensures Bucketed(b, g)
  {
    var lo, hi := Start(b, k), Start(b, k + 1) - 1;
    RearrangedPerm(g, f, lo, hi);
    StartMonotone(b, k + 1, k + 1);
    forall p {:trigger g[p]} | 0 <= p < |g|
      ensures Start(b, Key(b, g[p])) <= p < Start(b, Key(b, g[p]) + 1)
    {
      if lo <= p <= hi {
        var j := RearrangedMember(g, f, lo, hi, p);
        RowKey(b, f, j, k);
      } else {
        assert g[p] == f[p];
      }
    }
  }

  /** The other buckets stay sorted. */
  lemma {:induction false} OthersSorted(b: seq<int>, e: seq<int>, f: seq<int>, g: seq<int>, k: int, m: int)
    requires Rearranged(g, f, Start(b, k), Start(b, k + 1) - 1) && BucketSorted(b, e, f, m) && m != k && |f| == |b|
    requires AllIn(f, e)
    ensures BucketSorted(b, e, g, m)
  {
    if m < k { StartMonotone(b, m + 1, k); } else { StartMonotone(b, k + 1, m); }
    forall p, q {:trigger g[p], g[q]} | Start(b, m) <= p < q < Start(b, m + 1) && q < |g| && AllIn(g, e)
      ensures e[g[p]] <= e[g[q]]
    {
      assert g[p] == f[p] && g[q] == f[q];
    }
  }

  // ---------------------------------------------------------------- the radix sort

  /** The key of the place before, from that of a place: its first byte moves to second place. */
  lemma {:induction false} KeyShift(b: seq<int>, i: nat, j: int)
    requires Bytes(b) && i < |b| && j / 256 == b[Next(|b|, i)]
    ensures j / 256 + 256 * b[i] == Key(b, i) && (j / 256 + 256 * b[i]) / 256 == b[i] && 0 <= Key(b, i) < BUCKETS
  {
    assert 0 <= b[i] < 256 && 0 <= b[Next(|b|, i)] < 256;
  }

  ghost predicate Counted(b: seq<int>, ftab: seq<int>, i: nat) {
    |ftab| == BUCKETS + 1 && i <= |b| && forall k :: 0 <= k <= BUCKETS ==> ftab[k] == CountTo(Pairs(b), |b|, k) - CountTo(Pairs(b), i, k)
  }

  /** Counts the pairs of bytes, from the last place down. */
  method CountPairs(b: seq<int>, ftab: array<int>)
    requires Bytes(b) && |b| > 0 && ftab.Length == BUCKETS + 1
    modifies ftab
    ensures Counted(b, ftab[..], 0)
  {
    for k := 0 to BUCKETS + 1
      invariant forall m :: 0 <= m < k ==> ftab[m] == 0
    {
      ftab[k] := 0;
    }
    var j, i := b[0] * 256, |b|;
    while i > 0
      invariant 0 <= i <= |b| && (i > 0 ==> j / 256 == b[Next(|b|, i - 1)]) && Counted(b, ftab[..], i)
    {
      i := i - 1;
      KeyShift(b, i, j);
      j := j / 256 + 256 * b[i];
      ftab[j] := ftab[j] + 1;
    }
  }

  ghost predicate Starts(b: seq<int>, ftab: seq<int>, i: nat) {
    |ftab| == BUCKETS + 1 && i <= |b| && forall k :: 0 <= k <= BUCKETS ==> ftab[k] == Start(b, k) + CountTo(Pairs(b), i, k)
  }

  method AddUp(b: seq<int>, ftab: array<int>)
    requires Bytes(b) && Counted(b, ftab[..], 0)
    modifies ftab
    ensures Starts(b, ftab[..], |b|)
  {
    PairsBelow(b, |b|);
    BelowStep(Pairs(b), |b|, 0);
    for k := 1 to BUCKETS + 1
      invariant forall m :: 0 <= m < k ==> ftab[m] == Start(b, m) + CountTo(Pairs(b), |b|, m)
      invariant forall m :: k <= m <= BUCKETS ==> ftab[m] == CountTo(Pairs(b), |b|, m)
    {
      BelowStep(Pairs(b), |b|, k - 1);
      ftab[k] := ftab[k] + ftab[k - 1];
    }
  }

  /** The places from i on stand in their rows. */
  ghost predicate PlacedFrom(b: seq<int>, f: seq<int>, i: nat) {
    |f| == |b| && forall x {:trigger RowOf(Pairs(b), x)} :: i <= x < |b| ==> RowOf(Pairs(b), x) < |b| && f[RowOf(Pairs(b), x)] == x
  }

  lemma {:induction false} PlaceNext(b: seq<int>, f: seq<int>, f': seq<int>, i: nat)
    requires i < |b| && PlacedFrom(b, f, i + 1) && RowOf(Pairs(b), i) < |f| && f' == f[RowOf(Pairs(b), i) := i]
    ensures PlacedFrom(b, f', i)
  {
    forall x {:trigger RowOf(Pairs(b), x)} | i <= x < |b|
      ensures RowOf(Pairs(b), x) < |b| && f'[RowOf(Pairs(b), x)] == x
    {
      if x > i { RowInjective(Pairs(b), i, x); }
    }
  }

  /** Puts the places into their buckets, from the last down; the table ends with the beginnings of the buckets. */
  method PlacePairs(b: seq<int>, ptr: array<int>, ftab: array<int>)
    requires Bytes(b) && |b| > 0 && ptr.Length == |b| && ptr != ftab && Starts(b, ftab[..], |b|)
    modifies ptr, ftab
    ensures PlacedFrom(b, ptr[..], 0) && Starts(b, ftab[..], 0)
  {
    var s, i := b[0] * 256, |b|;
    while i > 0
      invariant 0 <= i <= |b| && (i > 0 ==> s / 256 == b[Next(|b|, i - 1)]) && Starts(b, ftab[..], i)
          && PlacedFrom(b, ptr[..], i)
    {
      i := i - 1;
      KeyShift(b, i, s);
      s := s / 256 + 256 * b[i];
      RowRange(Pairs(b), i);
      var j := ftab[s] - 1;
      ftab[s] := j;
      ghost var before := ptr[..];
      ptr[j] := i;
      PlaceNext(b, before, ptr[..], i);
    }
  }

  lemma {:induction false} PlacedBucketed(b: seq<int>, f: seq<int>)
    requires PlacedFrom(b, f, 0)
    ensures Bucketed(b, f)
  {
    assert Undoes(f, Pairs(b));
    forall p | 0 <= p < |f|
      ensures 0 <= f[p] < |f| && RowOf(Pairs(b), f[p]) == p
    {
      UndoesBack(f, Pairs(b), p);
    }
    forall p, q | 0 <= p < q < |f|
      ensures f[p] != f[q]
    {
      assert RowOf(Pairs(b), f[p]) == p && RowOf(Pairs(b), f[q]) == q;
    }
    forall p {:trigger f[p]} | 0 <= p < |f|
      ensures Start(b, Key(b, f[p])) <= p < Start(b, Key(b, f[p]) + 1)
    {
      RowRange(Pairs(b), f[p]);
    }
  }

  method RadixSort(b: seq<int>, ptr: array<int>, ftab: array<int>)
    requires Bytes(b) && |b| > 0 && ptr.Length == |b| && ptr != ftab && ftab.Length == BUCKETS + 1
    modifies ptr, ftab
    ensures Bucketed(b, ptr[..]) && forall k :: 0 <= k <= BUCKETS ==> ftab[k] == Start(b, k)
  {
    CountPairs(b, ftab);
    AddUp(b, ftab);
    PlacePairs(b, ptr, ftab);
    PlacedBucketed(b, ptr[..]);
    forall k | 0 <= k <= BUCKETS
      ensures ftab[k] == Start(b, k)
    {
      assert CountTo(Pairs(b), 0, k) == 0;
    }
  }
}
