/** The comparison of mainSort (mainGtU of blocksort.c) and the quadrants that cache what is known of the order. */
module MainCompare {
  import opened Common
  import opened Rotations

  const OVERSHOOT := 34

  // ---------------------------------------------------------------- block and quadrants beyond the end

  /** a repeats its beginning in the overshoot area behind its first n elements. */
  ghost predicate Wraps(a: seq<int>, n: int) {
    OVERSHOOT < n && |a| == n + OVERSHOOT && forall u {:trigger Unfold(u)} :: Unfold(u) ==> Repeats(a, n)
  }

  ghost predicate Repeats(a: seq<int>, n: int)
    requires |a| == n + OVERSHOOT && OVERSHOOT < n
  {
    forall i :: 0 <= i < OVERSHOOT ==> a[n + i] == a[i]
  }

  /** The place in the block that index i stands for. */
  function Cyc(n: int, i: int): (r: int)
    requires 0 <= i < n + OVERSHOOT + 1 && OVERSHOOT < n
    ensures 0 <= r < n
  {
    if i >= n then i - n else i
  }

  /** Where bytes agree, a smaller quadrant means a rotation that is not larger. */
  ghost predicate Consistent(b: seq<int>, q: seq<int>) {
    |b| <= |q| && forall i, j {:trigger Cmp(b, i, j, |b|)} :: 0 <= i < |b| && 0 <= j < |b| && b[i] == b[j] && q[i] < q[j] ==> Cmp(b, i, j, |b|) <= 0
  }

  lemma {:induction false} ZerosConsistent(b: seq<int>, q: seq<int>)
    requires |b| <= |q| && forall i :: 0 <= i < |q| ==> q[i] == 0
    ensures Consistent(b, q)
  {
  }

  // ---------------------------------------------------------------- comparing step by step

  /** After m equal characters, the comparison of p1 and p2 goes on with that of x1 and x2. */
  ghost predicate Tracks(b: seq<int>, p1: int, p2: int, x1: int, x2: int, m: nat) {
    && 0 <= p1 < |b| && 0 <= p2 < |b| && 0 <= x1 < |b| && 0 <= x2 < |b|
    && forall u {:trigger Unfold(u)} :: Unfold(u) ==>
         && Cmp(b, p1, p2, |b|) == Cmp(b, x1, x2, |b|)
         && forall k: nat {:trigger Cmp(b, x1, x2, k)} :: Cmp(b, p1, p2, m + k) == Cmp(b, x1, x2, k)
  }

  lemma {:induction false} TrackStep(b: seq<int>, p1: int, p2: int, x1: int, x2: int, m: nat)
    requires Tracks(b, p1, p2, x1, x2, m) && b[x1] == b[x2]
    ensures Tracks(b, p1, p2, Next(|b|, x1), Next(|b|, x2), m + 1)
  {
    assert Unfold(0);
    var n, y1, y2 := |b|, Next(|b|, x1), Next(|b|, x2);
    CmpSplit(b, x1, x2, n, 1);
    assert Adv(n, x1, n) == x1 && Adv(n, x2, n) == x2;
    assert Cmp(b, x1, x2, n + 1) == Cmp(b, y1, y2, n);
    assert Cmp(b, x1, x2, 1) == 0;
    forall k: nat {:trigger Cmp(b, y1, y2, k)}
      ensures Cmp(b, p1, p2, m + 1 + k) == Cmp(b, y1, y2, k)
    {
      assert Cmp(b, p1, p2, m + (k + 1)) == Cmp(b, x1, x2, k + 1);
      assert m + (k + 1) == m + 1 + k;
    }
  }

  /** After a whole turn without a difference the rotations are equal. */
  lemma {:induction false} TrackAll(b: seq<int>, p1: int, p2: int, x1: int, x2: int, m: nat)
    requires Tracks(b, p1, p2, x1, x2, m) && m >= |b|
    ensures Cmp(b, p1, p2, |b|) == 0
  {
    assert Unfold(0);
    assert Cmp(b, x1, x2, 0) == 0;
    assert Cmp(b, p1, p2, m + 0) == 0;
    CmpSplit(b, p1, p2, |b|, m - |b|);
  }

  /** What a comparison may answer: it never contradicts the order of the rotations. */
  ghost predicate Answer(b: seq<int>, p1: int, p2: int, gt: bool) {
    0 <= p1 < |b| && 0 <= p2 < |b| && (if gt then Cmp(b, p1, p2, |b|) >= 0 else Cmp(b, p1, p2, |b|) <= 0)
  }

  lemma {:induction false} Differs(b: seq<int>, p1: int, p2: int, x1: int, x2: int, m: nat)
    requires Tracks(b, p1, p2, x1, x2, m) && b[x1] != b[x2]
    ensures Answer(b, p1, p2, b[x1] > b[x2])
  {
    assert Unfold(0);
  }

  lemma {:induction false} QuadrantsDiffer(b: seq<int>, q: seq<int>, p1: int, p2: int, x1: int, x2: int, m: nat)
    requires Tracks(b, p1, p2, x1, x2, m) && Consistent(b, q) && b[x1] == b[x2] && q[x1] != q[x2]
    ensures Answer(b, p1, p2, q[x1] > q[x2])
  {
    assert Unfold(0);
    CmpAnti(b, x1, x2, |b|);
    if q[x1] < q[x2] {
      assert Cmp(b, x1, x2, |b|) <= 0;
    } else {
      assert Cmp(b, x2, x1, |b|) <= 0;
    }
  }

  lemma TrackStart(b: seq<int>, x1: int, x2: int)
    requires 0 <= x1 < |b| && 0 <= x2 < |b|
    ensures Tracks(b, x1, x2, x1, x2, 0)
  {
  }

  lemma {:induction false} NextIndex(n: int, i: int)
    requires OVERSHOOT < n && 0 <= i < n + OVERSHOOT
    ensures Cyc(n, i + 1) == Next(n, Cyc(n, i))
  {
  }

  /** After m equal characters, the comparison of the places p1 and p2 has come to the indices i1 and i2. */
  ghost predicate Reached(a: seq<int>, n: int, p1: int, p2: int, i1: int, i2: int, m: nat) {
    && OVERSHOOT < n <= |a| && 0 <= i1 <= n + OVERSHOOT && 0 <= i2 <= n + OVERSHOOT
    && forall u {:trigger Unfold(u)} :: Unfold(u) ==> Tracks(a[..n], p1, p2, Cyc(n, i1), Cyc(n, i2), m)
  }

  ghost predicate Decided(a: seq<int>, n: int, p1: int, p2: int, gt: bool) {
    0 <= n <= |a| && forall u {:trigger Unfold(u)} :: Unfold(u) ==> 0 <= p1 < n && 0 <= p2 < n && Answer(a[..n], p1, p2, gt)
  }

  ghost predicate Cached(a: seq<int>, q: seq<int>, n: int) {
    0 <= n <= |a| && forall u {:trigger Open(u)} :: Open(u) ==> Consistent(a[..n], q)
  }

  /** One comparison of bytes. */
  lemma {:induction false} StepBytes(a: seq<int>, n: int, p1: int, p2: int, i1: int, i2: int, m: nat)
    requires Wraps(a, n) && i1 < n + OVERSHOOT && i2 < n + OVERSHOOT && Reached(a, n, p1, p2, i1, i2, m)
    ensures a[i1] != a[i2] ==> Decided(a, n, p1, p2, a[i1] > a[i2])
    ensures a[i1] == a[i2] ==> Reached(a, n, p1, p2, i1 + 1, i2 + 1, m + 1)
  {
    assert Unfold(0);
    var b, x1, x2 := a[..n], Cyc(n, i1), Cyc(n, i2);
    assert a[i1] == b[x1] && a[i2] == b[x2];
    if b[x1] == b[x2] {
      TrackStep(b, p1, p2, x1, x2, m);
      NextIndex(n, i1);
      NextIndex(n, i2);
    } else {
      Differs(b, p1, p2, x1, x2, m);
    }
  }

  lemma {:induction false} StepQuadrants(a: seq<int>, q: seq<int>, n: int, p1: int, p2: int, i1: int, i2: int, m: nat)
    requires Wraps(a, n) && Wraps(q, n) && i1 < n + OVERSHOOT && i2 < n + OVERSHOOT && Reached(a, n, p1, p2, i1, i2, m)
    requires Cached(a, q, n) && a[i1] == a[i2] && q[i1] != q[i2]
    ensures Decided(a, n, p1, p2, q[i1] > q[i2])
  {
    assert Unfold(0) && Open(0);
    assert a[i1] == a[..n][Cyc(n, i1)] && a[i2] == a[..n][Cyc(n, i2)];
    QuadrantsDiffer(a[..n], q, p1, p2, Cyc(n, i1), Cyc(n, i2), m);
  }

  /** Going back by a whole turn. */
  lemma {:induction false} StepBack(a: seq<int>, n: int, p1: int, p2: int, i1: int, i2: int, m: nat)
    requires Reached(a, n, p1, p2, i1, i2, m)
    ensures Reached(a, n, p1, p2, Cyc(n, i1), Cyc(n, i2), m)
  {
  }

  /** A whole turn without a difference. */
  lemma {:induction false} StepEnd(a: seq<int>, n: int, p1: int, p2: int, i1: int, i2: int, m: nat, gt: bool)
    requires Reached(a, n, p1, p2, i1, i2, m) && m >= n && !gt
    ensures Decided(a, n, p1, p2, gt)
  {
    assert Unfold(0);
    TrackAll(a[..n], p1, p2, Cyc(n, i1), Cyc(n, i2), m);
  }

  lemma {:induction false} StepStart(a: seq<int>, q: seq<int>, n: int, i1: int, i2: int)
    requires Wraps(a, n) && 0 <= i1 < n + OVERSHOOT && 0 <= i2 < n + OVERSHOOT && Consistent(a[..n], q)
    ensures Reached(a, n, Cyc(n, i1), Cyc(n, i2), i1, i2, 0) && Cached(a, q, n)
  {
    TrackStart(a[..n], Cyc(n, i1), Cyc(n, i2));
  }

  lemma {:induction false} StepAnswer(a: seq<int>, n: int, p1: int, p2: int, gt: bool)
    requires Decided(a, n, p1, p2, gt)
    ensures 0 <= p1 < n && 0 <= p2 < n && Answer(a[..n], p1, p2, gt)
  {
    assert Unfold(0);
  }

  /** The first m characters agree. */
  ghost predicate Agreed(a: seq<int>, n: int, p1: int, p2: int, m: nat) {
    && 0 <= n <= |a| && 0 <= p1 < n && 0 <= p2 < n
    && forall u {:trigger Unfold(u)} :: Unfold(u) ==> Cmp(a[..n], p1, p2, m) == 0
  }

  lemma {:induction false} ReachedAgrees(a: seq<int>, n: int, p1: int, p2: int, i1: int, i2: int, m: nat)
    requires Reached(a, n, p1, p2, i1, i2, m)
    ensures Agreed(a, n, p1, p2, m)
  {
    assert Unfold(0);
    var x1, x2 := Cyc(n, i1), Cyc(n, i2);
    assert Cmp(a[..n], x1, x2, 0) == 0;
    assert Cmp(a[..n], p1, p2, m + 0) == 0;
  }

  /** Every eight characters more that agree cost one of the budget. */
  ghost predicate Costs(a: seq<int>, n: int, p1: int, p2: int, budget0: int, budget: int) {
    forall u {:trigger Unseal(u)} :: Unseal(u) ==>
      && budget <= budget0 && 8 * (budget0 - budget) <= n + 16
      && (budget < budget0 ==> Agreed(a, n, p1, p2, 12 + 8 * (budget0 - budget)))
  }

  lemma {:induction false} CostsMore(a: seq<int>, n: int, p1: int, p2: int, i1: int, i2: int,
      m: nat, budget0: int, budget: int, k: int)
    requires Reached(a, n, p1, p2, i1, i2, m) && budget <= budget0 && k == n + 8 - 8 * (budget0 - budget) && k >= -8
    requires m == 12 + 8 * (budget0 - budget)
    ensures Costs(a, n, p1, p2, budget0, budget)
  {
    ReachedAgrees(a, n, p1, p2, i1, i2, m);
  }

  /** The first twelve comparisons, without the quadrants. */
  method CompareTwelve(block: seq<int>, i10: int, i20: int, n: int, ghost p1: int, ghost p2: int)
    returns (answer: Option<bool>, i1: int, i2: int, ghost m: nat)
    requires Wraps(block, n) && i10 + 12 <= n + OVERSHOOT && i20 + 12 <= n + OVERSHOOT
        && Reached(block, n, p1, p2, i10, i20, 0)
    ensures answer.Some? ==> Decided(block, n, p1, p2, answer.value)
    ensures answer.None? ==> i1 == i10 + 12 && i2 == i20 + 12 && m == 12 && Reached(block, n, p1, p2, i1, i2, m)
  {
    i1, i2, m := i10, i20, 0;
    for t := 0 to 12
      invariant i1 == i10 + t && i2 == i20 + t && m == t && Reached(block, n, p1, p2, i1, i2, m)
    {
      StepBytes(block, n, p1, p2, i1, i2, m);
      if block[i1] != block[i2] { return Some(block[i1] > block[i2]), i1, i2, m; }
      i1, i2, m := i1 + 1, i2 + 1, m + 1;
    }
    answer := None;
  }

  /** Eight comparisons of bytes and, where they agree, of quadrants. */
  method CompareEight(block: seq<int>, quadrant: seq<int>, i10: int, i20: int, n: int, ghost p1: int, ghost p2: int,
      ghost m0: nat)
    returns (answer: Option<bool>, i1: int, i2: int, ghost m: nat)
    requires Wraps(block, n) && Wraps(quadrant, n) && i10 + 8 <= n + OVERSHOOT && i20 + 8 <= n + OVERSHOOT
    requires Cached(block, quadrant, n) && Reached(block, n, p1, p2, i10, i20, m0)
    ensures answer.Some? ==> Decided(block, n, p1, p2, answer.value)
    ensures answer.None? ==> i1 == i10 + 8 && i2 == i20 + 8 && m == m0 + 8 && Reached(block, n, p1, p2, i1, i2, m)
  {
    i1, i2, m := i10, i20, m0;
    for t := 0 to 8
      invariant i1 == i10 + t && i2 == i20 + t && m == m0 + t && Reached(block, n, p1, p2, i1, i2, m)
    {
      StepBytes(block, n, p1, p2, i1, i2, m);
      if block[i1] != block[i2] { return Some(block[i1] > block[i2]), i1, i2, m; }
      if quadrant[i1] != quadrant[i2] {
        StepQuadrants(block, quadrant, n, p1, p2, i1, i2, m);
        return Some(quadrant[i1] > quadrant[i2]), i1, i2, m;
      }
      i1, i2, m := i1 + 1, i2 + 1, m + 1;
    }
    answer := None;
  }

  /** Whether the rotation at i1 is greater than that at i2; where they are equal either answer may come. The indices
      stay within the overshoot area for starting points up to 14 places beyond the block. */
  method GtU(i10: int, i20: int, block: seq<int>, quadrant: seq<int>, n: int, budget0: int)
      returns (gt: bool, budget: int)
    requires Wraps(block, n) && Wraps(quadrant, n) && Consistent(block[..n], quadrant)
    requires 0 <= i10 < n + 15 && 0 <= i20 < n + 15
    ensures Answer(block[..n], Cyc(n, i10), Cyc(n, i20), gt)
    ensures Costs(block, n, Cyc(n, i10), Cyc(n, i20), budget0, budget)
  {
    StepStart(block, quadrant, n, i10, i20);
    gt, budget := Greater(i10, i20, block, quadrant, n, budget0, Cyc(n, i10), Cyc(n, i20));
    StepAnswer(block, n, Cyc(n, i10), Cyc(n, i20), gt);
  }

  method Greater(i10: int, i20: int, block: seq<int>, quadrant: seq<int>, n: int, budget0: int, ghost p1: int,
      ghost p2: int)
    returns (gt: bool, budget: int)
    requires Wraps(block, n) && Wraps(quadrant, n) && Cached(block, quadrant, n)
    requires 0 <= i10 < n + 15 && 0 <= i20 < n + 15 && Reached(block, n, p1, p2, i10, i20, 0)
    ensures Decided(block, n, p1, p2, gt) && Costs(block, n, p1, p2, budget0, budget)
  {
    budget := budget0;
    var answer, i1, i2;
    ghost var m;
    answer, i1, i2, m := CompareTwelve(block, i10, i20, n, p1, p2);
    if answer.Some? { return answer.value, budget; }
    var k := n + 8;
    while k >= 0
      invariant -8 <= k <= n + 8 && m + k == n + 20 && 0 <= i1 && 0 <= i2 && i1 + 8 <= n + OVERSHOOT
          && i2 + 8 <= n + OVERSHOOT
      invariant Reached(block, n, p1, p2, i1, i2, m) && Costs(block, n, p1, p2, budget0, budget)
      invariant m == 12 + 8 * (budget0 - budget)
    {
      answer, i1, i2, m := CompareEight(block, quadrant, i1, i2, n, p1, p2, m);
      if answer.Some? { return answer.value, budget; }
      CostsMore(block, n, p1, p2, i1, i2, m, budget0, budget - 1, k - 8);
      StepBack(block, n, p1, p2, i1, i2, m);
      i1 := if i1 >= n then i1 - n else i1;
      i2 := if i2 >= n then i2 - n else i2;
      k := k - 8;
      budget := budget - 1;
    }
    gt := false;
    StepEnd(block, n, p1, p2, i1, i2, m, gt);
  }

  /** Between rotations that differ, the answer is exact. */
  lemma {:induction false} AnswerExact(b: seq<int>, p1: int, p2: int, gt: bool)
    requires Answer(b, p1, p2, gt) && Rot(b, p1) != Rot(b, p2)
    ensures gt <==> Lex(Rot(b, p1), Rot(b, p2)) > 0
  {
    RotationOrder(b, p1, p2);
  }

  // ---------------------------------------------------------------- the quadrants of a finished bucket

  /** rows are all the places of byte c, in the order of their rotations. */
  ghost predicate BigBucket(b: seq<int>, rows: seq<int>, c: int) {
    && (forall j :: 0 <= j < |rows| ==> 0 <= rows[j] < |b| && b[rows[j]] == c)
    && (forall j, k :: 0 <= j < k < |rows| ==> rows[j] != rows[k])
    && (forall i :: 0 <= i < |b| && b[i] == c ==> i in rows)
    && (forall j, k {:trigger Cmp(b, rows[j], rows[k], |b|)} :: 0 <= j < k < |rows| ==> Cmp(b, rows[j], rows[k], |b|) <= 0)
  }

  /** j >> shifts */
  function Half(j: nat, shifts: nat): (r: nat)
    ensures r <= j
    decreases shifts
  {
    if shifts == 0 then j else Half(j / 2, shifts - 1)
  }

  lemma {:induction false} HalfMonotone(j: nat, k: nat, shifts: nat)
    requires j <= k
    ensures Half(j, shifts) <= Half(k, shifts)
    decreases shifts
  {
    if shifts > 0 {
      HalfMonotone(j / 2, k / 2, shifts - 1);
    }
  }

  lemma {:induction false} HalfDoubles(j: nat, shifts: nat)
    ensures Half(j, shifts + 1) == Half(j, shifts) / 2
    decreases shifts
  {
    if shifts > 0 {
      HalfDoubles(j / 2, shifts - 1);
    }
  }

  /** The quadrants with those of the rows from k on renewed. */
  ghost function Stamp(q: seq<int>, rows: seq<int>, k: nat, shifts: nat): (r: seq<int>)
    ensures |r| == |q|
    decreases |rows| - k
  {
    if k >= |rows| then q
    else
      var r := Stamp(q, rows, k + 1, shifts);
      if 0 <= rows[k] < |r| then r[rows[k] := Half(k, shifts)] else r
  }

  lemma {:induction false} StampAt(q: seq<int>, rows: seq<int>, k: nat, shifts: nat, i: nat) returns (j: nat)
    requires i < |q| && (forall x, y :: 0 <= x < y < |rows| ==> rows[x] != rows[y])
    ensures i !in rows[(if k < |rows| then k else |rows|)..] ==> Stamp(q, rows, k, shifts)[i] == q[i]
    ensures i in rows[(if k < |rows| then k else |rows|)..] ==> k <= j < |rows| && rows[j] == i && Stamp(q, rows, k, shifts)[i] == Half(j, shifts)
    decreases |rows| - k
  {
    j := k;
    if k < |rows| {
      j := StampAt(q, rows, k + 1, shifts, i);
      assert rows[k..] == [rows[k]] + rows[k + 1..];
      if rows[k] == i { j := k; }
    }
  }

  ghost predicate Distinct(rows: seq<int>) {
    forall x, y :: 0 <= x < y < |rows| ==> rows[x] != rows[y]
  }

  /** Within the bucket: the smaller quadrant is that of the earlier row. */
  lemma {:induction false} StampOrder(q: seq<int>, rows: seq<int>, shifts: nat, i: nat, j: nat) returns (x: nat, y: nat)
    requires i < |q| && j < |q| && Distinct(rows) && i in rows && j in rows
        && Stamp(q, rows, 0, shifts)[i] < Stamp(q, rows, 0, shifts)[j]
    ensures x < y < |rows| && rows[x] == i && rows[y] == j
  {
    assert rows[0..] == rows;
    x := StampAt(q, rows, 0, shifts, i);
    y := StampAt(q, rows, 0, shifts, j);
    if y <= x { HalfMonotone(y, x, shifts); }
  }

  lemma {:induction false} StampElsewhere(q: seq<int>, rows: seq<int>, shifts: nat, i: nat)
    requires i < |q| && Distinct(rows) && i !in rows
    ensures Stamp(q, rows, 0, shifts)[i] == q[i]
  {
    assert rows[0..] == rows;
    var x := StampAt(q, rows, 0, shifts, i);
  }

  /** The new quadrants of one byte's places agree with the order, and those of other bytes are as before. */
  lemma {:induction false} StampConsistent(b: seq<int>, q: seq<int>, rows: seq<int>, c: int, shifts: nat)
    requires BigBucket(b, rows, c) && Consistent(b, q)
    ensures Consistent(b, Stamp(q, rows, 0, shifts))
  {
    var r := Stamp(q, rows, 0, shifts);
    forall i, j {:trigger Cmp(b, i, j, |b|)} | 0 <= i < |b| && 0 <= j < |b| && b[i] == b[j] && r[i] < r[j]
      ensures Cmp(b, i, j, |b|) <= 0
    {
      if b[i] == c {
        var x, y := StampOrder(q, rows, shifts, i, j);
        assert Cmp(b, rows[x], rows[y], |b|) <= 0;
      } else {
        StampElsewhere(q, rows, shifts, i);
        StampElsewhere(q, rows, shifts, j);
      }
    }
  }

  /** By how much the numbers of size rows must be shifted to fit into 16 bits. */
  method Shifts(size: int) returns (shifts: nat)
    requires size >= 0
    ensures forall j :: 0 <= j < size ==> Half(j, shifts) <= 65534
  {
    shifts := 0;
    while Half(size, shifts) > 65534
      decreases Half(size, shifts)
    {
      HalfDoubles(size, shifts);
      shifts := shifts + 1;
    }
    forall j | 0 <= j < size
      ensures Half(j, shifts) <= 65534
    {
      HalfMonotone(j, size, shifts);
    }
  }

  /** Writes one quadrant, and again behind the end if it is repeated there. */
  method SetQuadrant(quadrant: array<int>, n: int, at: int, v: int)
    requires Wraps(quadrant[..], n) && 0 <= at < n
    modifies quadrant
    ensures Wraps(quadrant[..], n) && quadrant[..][..n] == old(quadrant[..])[..n][at := v]
  {
    assert Unfold(0);
    quadrant[at] := v;
    if at < OVERSHOOT { quadrant[at + n] := v; }
  }

  /** Once a big bucket is sorted, its order is recorded in the quadrants. */
  method UpdateQuadrants(quadrant: array<int>, ptr: array<int>, bbStart: nat, bbSize: nat, n: int, ghost b: seq<int>,
      ghost c: int)
    requires quadrant != ptr && bbStart + bbSize <= ptr.Length && |b| == n
        && BigBucket(b, ptr[bbStart..bbStart + bbSize], c)
    requires Wraps(quadrant[..], n) && Consistent(b, quadrant[..])
    modifies quadrant
    ensures Wraps(quadrant[..], n) && Consistent(b, quadrant[..])
    ensures forall j :: bbStart <= j < bbStart + bbSize ==> 0 <= ptr[j] < n && 0 <= quadrant[ptr[j]] <= 65535
  {
    ghost var q, rows := quadrant[..][..n], ptr[bbStart..bbStart + bbSize];
    var shifts := Shifts(bbSize);
    ConsistentPrefix(b, quadrant[..]);
    var j := bbSize;
    while j > 0
      invariant 0 <= j <= bbSize && Wraps(quadrant[..], n) && quadrant[..][..n] == Stamp(q, rows, j, shifts)
    {
      j := j - 1;
      var a2update := ptr[bbStart + j];
      assert rows[j] == a2update;
      SetQuadrant(quadrant, n, a2update, Half(j, shifts));
    }
    StampConsistent(b, q, rows, c, shifts);
    ConsistentPrefix(b, quadrant[..]);
    forall k | bbStart <= k < bbStart + bbSize
      ensures 0 <= ptr[k] < n && 0 <= quadrant[ptr[k]] <= 65535
    {
      assert rows[k - bbStart] == ptr[k];
      var x := StampAt(q, rows, 0, shifts, ptr[k]);
      assert rows[0..] == rows;
      assert quadrant[ptr[k]] == quadrant[..][..n][ptr[k]];
    }
  }

  // ---------------------------------------------------------------- what the quadrants mean

  /** Of two places of one byte, the one with the smaller quadrant has the rotation that comes first, exactly when their
      rotations differ. */
  lemma {:induction false} QuadrantOrder(b: seq<int>, q: seq<int>, i: nat, j: nat)
    requires Consistent(b, q) && i < |b| && j < |b| && b[i] == b[j] && q[i] < q[j]
    ensures Lex(Rot(b, i), Rot(b, j)) < 0 <==> Rot(b, i) != Rot(b, j)
  {
    assert Cmp(b, i, j, |b|) <= 0;
    RotationOrder(b, i, j);
  }

  /** A smaller quadrant means a rotation that strictly precedes, for i and j of byte c. */
  ghost predicate Precedes(b: seq<int>, q: seq<int>, c: int, i: nat, j: nat)
    requires i < |b| <= |q| && j < |b|
  {
    b[i] == b[j] == c && q[i] < q[j] ==> Lex(Rot(b, i), Rot(b, j)) < 0
  }

  /** Two places of byte c have different rotations. */
  ghost predicate Differ(b: seq<int>, c: int, i: nat, j: nat)
    requires i < |b| && j < |b|
  {
    b[i] == b[j] == c && i != j ==> Rot(b, i) != Rot(b, j)
  }

  /** The documented meaning of the quadrants, for byte c. */
  ghost predicate Documented(b: seq<int>, q: seq<int>, c: int)
    requires |b| <= |q|
  {
    forall i, j {:trigger Precedes(b, q, c, i, j)} :: 0 <= i < |b| && 0 <= j < |b| ==> Precedes(b, q, c, i, j)
  }

  ghost predicate AllDiffer(b: seq<int>, c: int) {
    forall i, j {:trigger Differ(b, c, i, j)} :: 0 <= i < |b| && 0 <= j < |b| ==> Differ(b, c, i, j)
  }

  lemma {:induction false} DifferentPrecede(b: seq<int>, q: seq<int>, c: int)
    requires Consistent(b, q) && AllDiffer(b, c)
    ensures Documented(b, q, c)
  {
    forall i, j {:trigger Precedes(b, q, c, i, j)} | 0 <= i < |b| && 0 <= j < |b|
      ensures Precedes(b, q, c, i, j)
    {
      if b[i] == b[j] == c && q[i] < q[j] {
        assert Differ(b, c, i, j);
        QuadrantOrder(b, q, i, j);
      }
    }
  }

  /** Without a shift every place of the bucket has a number of its own. */
  lemma {:induction false} StampSeparates(q: seq<int>, rows: seq<int>, i: nat, j: nat, shifts: nat)
    requires i < |q| && j < |q| && i != j && Distinct(rows) && i in rows && j in rows && shifts == 0
    ensures Stamp(q, rows, 0, shifts)[i] != Stamp(q, rows, 0, shifts)[j]
  {
    assert rows[0..] == rows;
    var x := StampAt(q, rows, 0, shifts, i);
    var y := StampAt(q, rows, 0, shifts, j);
  }

  /** Where a bucket is numbered without a shift, the documented meaning holds of it afterwards exactly when no two of
      its
      rotations are equal. */
  lemma {:induction false} DocumentedIff(b: seq<int>, q: seq<int>, rows: seq<int>, c: int, shifts: nat)
    requires BigBucket(b, rows, c) && Consistent(b, q) && shifts == 0
    ensures Documented(b, Stamp(q, rows, 0, shifts), c) <==> AllDiffer(b, c)
  {
    var r := Stamp(q, rows, 0, shifts);
    StampConsistent(b, q, rows, c, shifts);
    if AllDiffer(b, c) {
      DifferentPrecede(b, r, c);
    } else {
      var i: nat, j: nat :| i < |b| && j < |b| && !Differ(b, c, i, j);
      StampSeparates(q, rows, i, j, shifts);
      assert Lex(Rot(b, i), Rot(b, j)) == 0 == Lex(Rot(b, j), Rot(b, i));
      assert !Precedes(b, r, c, i, j) || !Precedes(b, r, c, j, i);
    }
  }

  /** The block abab...ab of 36 bytes. */
  function Alternating(): (r: seq<int>) { seq(36, i => if i % 2 == 0 then 97 else 98) }

  /** The places of its a. */
  function EvenPlaces(): (r: seq<int>) { seq(18, j => 2 * j) }

  lemma {:induction false} AlternatingEqual(i: nat, j: nat, k: nat)
    requires i < 36 && j < 36 && i % 2 == j % 2
    ensures Cmp(Alternating(), i, j, k) == 0
    decreases k
  {
    if k > 0 {
      AlternatingEqual(Next(36, i), Next(36, j), k - 1);
    }
  }

  lemma {:induction false} AlternatingBucket()
    ensures BigBucket(Alternating(), EvenPlaces(), 97)
  {
    var b, rows := Alternating(), EvenPlaces();
    forall i | 0 <= i < |b| && b[i] == 97
      ensures i in rows
    {
      assert rows[i / 2] == i;
    }
    forall j, k {:trigger Cmp(b, rows[j], rows[k], |b|)} | 0 <= j < k < |rows|
      ensures Cmp(b, rows[j], rows[k], |b|) <= 0
    {
      AlternatingEqual(rows[j], rows[k], |b|);
    }
  }

  /** The documented meaning fails on that block: once its a's are numbered, place 0 has a smaller quadrant than place
      2,
      and their rotations are equal. */
  lemma {:induction false} PeriodicBlock(q: seq<int>, shifts: nat)
    requires |q| == 36 + OVERSHOOT && Consistent(Alternating(), q) && shifts == 0
    ensures BigBucket(Alternating(), EvenPlaces(), 97)
    ensures Stamp(q, EvenPlaces(), 0, shifts)[0] == 0 && Stamp(q, EvenPlaces(), 0, shifts)[2] == 1
    ensures Rot(Alternating(), 0) == Rot(Alternating(), 2)
    ensures !Documented(Alternating(), Stamp(q, EvenPlaces(), 0, shifts), 97)
  {
    var b, rows := Alternating(), EvenPlaces();
    AlternatingBucket();
    assert rows[0..] == rows && rows[0] == 0 && rows[1] == 2;
    var x := StampAt(q, rows, 0, shifts, 0);
    var y := StampAt(q, rows, 0, shifts, 2);
    AlternatingEqual(0, 2, |b|);
    RotationOrder(b, 0, 2);
    assert !Precedes(b, Stamp(q, rows, 0, shifts), 97, 0, 2);
  }

  lemma {:induction false} ConsistentPrefix(b: seq<int>, q: seq<int>)
    requires |b| <= |q|
    ensures Consistent(b, q) <==> Consistent(b, q[..|b|])
  {
    if Consistent(b, q) || Consistent(b, q[..|b|]) {
      forall i, j {:trigger Cmp(b, i, j, |b|)} | 0 <= i < |b| && 0 <= j < |b| && b[i] == b[j] && q[i] < q[j]
        ensures Cmp(b, i, j, |b|) <= 0
      {
        assert q[..|b|][i] < q[..|b|][j];
      }
    }
  }
}
