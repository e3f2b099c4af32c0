/** Step 2 of mainSort's main loop (blocksort.c): scanning a big bucket from both ends puts the places before its places
    in order, among them those of the bucket itself that are still to be scanned. */
module MainCopy {
  import opened Common
  import opened Rotations
  import opened Bwt
  import opened FallbackQSort
  import opened MainCompare
  import opened MainQSort
  import opened MainBuckets

  function Prev(n: nat, x: nat): (r: nat)
    requires x < n
    ensures r < n && Next(n, r) == x
  {
    if x == 0 then n - 1 else x - 1
  }

  lemma {:induction false} PrevNext(n: nat, x: nat)
    requires x < n
    ensures Prev(n, Next(n, x)) == x
  {
  }

  // ---------------------------------------------------------------- where a run of one byte leads

  /** On the far side of s: below it, or above it when going up. */
  predicate Beyond(d: int, s: int, up: bool) {
    if up then d > s else d < s
  }

  /** A run of at most k more bytes s from x on ends in a byte on the given side. */
  ghost predicate Goes(b: seq<int>, s: int, up: bool, x: int, k: nat)
    decreases k
  {
    && 0 <= x < |b| && b[x] == s
    && (Beyond(b[Next(|b|, x)], s, up) || (b[Next(|b|, x)] == s && k > 0 && Goes(b, s, up, Next(|b|, x), k - 1)))
  }

  lemma {:induction false} GoesMore(b: seq<int>, s: int, up: bool, x: int, k: nat, m: nat)
    requires Goes(b, s, up, x, k) && k <= m
    ensures Goes(b, s, up, x, m)
    decreases k
  {
    if b[Next(|b|, x)] == s {
      GoesMore(b, s, up, Next(|b|, x), k - 1, m - 1);
    }
  }

  lemma {:induction false} OneWay(b: seq<int>, s: int, x: int, k: nat, m: nat)
    requires Goes(b, s, false, x, k)
    ensures !Goes(b, s, true, x, m)
    decreases k
  {
    if b[Next(|b|, x)] == s && m > 0 {
      OneWay(b, s, Next(|b|, x), k - 1, m - 1);
    }
  }

  /** Unless the block is all one byte, every run ends on one side. */
  lemma {:induction false} SomeWay(b: seq<int>, s: int, x: nat, d: nat) returns (up: bool, k: nat)
    requires x < |b| && d <= |b| && b[x] == s && b[Adv(|b|, x, d)] != s
    ensures Goes(b, s, up, x, k)
    decreases d
  {
    var y := Next(|b|, x);
    if b[y] == s {
      up, k := SomeWay(b, s, y, d - 1);
      k := k + 1;
    } else {
      up, k := b[y] > s, 0;
    }
  }

  /** A run that ends below comes before one that ends above. */
  lemma {:induction false} FallsBefore(b: seq<int>, s: int, x: int, y: int, k: nat, m: nat)
    requires Goes(b, s, false, x, k) && Goes(b, s, true, y, m)
    ensures Cmp(b, x, y, |b|) < 0
    decreases k
  {
    var x1, y1 := Next(|b|, x), Next(|b|, y);
    DeepCompare(b, x, y, 1);
    assert Cmp(b, x, y, 1) == 0;
    assert Adv(|b|, x, 1) == x1 && Adv(|b|, y, 1) == y1;
    if b[x1] == s && b[y1] == s {
      FallsBefore(b, s, x1, y1, k - 1, m - 1);
    } else {
      assert b[x1] < b[y1];
    }
  }

  // ---------------------------------------------------------------- the places before those seen

  /** The places before those of seen that hold byte c, in order. */
  ghost function Preds(b: seq<int>, seen: seq<int>, c: int): (r: seq<int>) {
    if seen == [] then []
    else
      var x := seen[|seen| - 1];
      Preds(b, seen[..|seen| - 1], c) + (if 0 <= x < |b| && b[Prev(|b|, x)] == c then [Prev(|b|, x)] else [])
  }

  lemma {:induction false} PredsAppend(b: seq<int>, seen: seq<int>, x: nat, c: int)
    requires x < |b|
    ensures Preds(b, seen + [x], c) == Preds(b, seen, c) + (if b[Prev(|b|, x)] == c then [Prev(|b|, x)] else [])
  {
    assert (seen + [x])[..|seen|] == seen;
  }

  /** The i-th of them comes from one that was seen. */
  lemma {:induction false} PredFrom(b: seq<int>, seen: seq<int>, c: int, i: nat) returns (j: nat)
    requires i < |Preds(b, seen, c)|
    ensures j < |seen| && i <= j && 0 <= seen[j] < |b| && Preds(b, seen, c)[i] == Prev(|b|, seen[j])
        && b[Prev(|b|, seen[j])] == c
  {
    var rest := seen[..|seen| - 1];
    if i < |Preds(b, rest, c)| {
      j := PredFrom(b, rest, c, i);
    } else {
      PredsShort(b, rest, c);
      j := |seen| - 1;
    }
  }

  lemma {:induction false} PredsShort(b: seq<int>, seen: seq<int>, c: int)
    ensures |Preds(b, seen, c)| <= |seen|
  {
    if seen != [] {
      PredsShort(b, seen[..|seen| - 1], c);
    }
  }

  /** And all that were seen have theirs. */
  lemma {:induction false} PredIn(b: seq<int>, seen: seq<int>, c: int, j: nat)
    requires j < |seen| && 0 <= seen[j] < |b| && b[Prev(|b|, seen[j])] == c
    ensures Prev(|b|, seen[j]) in Preds(b, seen, c)
  {
    if j < |seen| - 1 {
      PredIn(b, seen[..|seen| - 1], c, j);
    }
  }

  /** Later ones come from later ones. */
  lemma {:induction false} PredOrdered(b: seq<int>, seen: seq<int>, c: int, i: nat, i': nat) returns (j: nat, j': nat)
    requires i < i' < |Preds(b, seen, c)|
    ensures j < j' < |seen| && 0 <= seen[j] < |b| && 0 <= seen[j'] < |b|
    ensures Preds(b, seen, c)[i] == Prev(|b|, seen[j]) && Preds(b, seen, c)[i'] == Prev(|b|, seen[j'])
    ensures b[Prev(|b|, seen[j])] == c && b[Prev(|b|, seen[j'])] == c
  {
    var rest := seen[..|seen| - 1];
    if i' < |Preds(b, rest, c)| {
      j, j' := PredOrdered(b, rest, c, i, i');
    } else {
      j := PredFrom(b, rest, c, i);
      j' := |seen| - 1;
    }
  }

  // ---------------------------------------------------------------- what a scan has seen

  /** Sorted by rank, downwards when going up from the other end. */
  ghost predicate Along(b: seq<int>, seen: seq<int>, up: bool) {
    && (forall i :: 0 <= i < |seen| ==> 0 <= seen[i] < |b|)
    && forall i, j {:trigger seen[i], seen[j]} :: 0 <= i < j < |seen| ==> InDirection(b, seen[i], seen[j], up)
  }

  ghost predicate InDirection(b: seq<int>, x: nat, y: nat, up: bool)
    requires x < |b| && y < |b|
  {
    x != y && (if up then Ranks(b)[y] <= Ranks(b)[x] else Ranks(b)[x] <= Ranks(b)[y])
  }

  /** Places with the same byte before them keep their order. */
  lemma {:induction false} PrevDirection(b: seq<int>, x: nat, y: nat, up: bool)
    requires x < |b| && y < |b| && InDirection(b, x, y, up) && b[Prev(|b|, x)] == b[Prev(|b|, y)]
    ensures InDirection(b, Prev(|b|, x), Prev(|b|, y), up)
  {
    var p, q := Prev(|b|, x), Prev(|b|, y);
    assert Cmp(b, p, q, 1) == 0;
    DeepCompare(b, p, q, 1);
    assert Adv(|b|, p, 1) == x && Adv(|b|, q, 1) == y;
    RankOrder(b, x, y);
    RankOrder(b, y, x);
    RankOrder(b, p, q);
    RankOrder(b, q, p);
    CmpAnti(b, x, y, |b|);
    CmpAnti(b, p, q, |b|);
  }

  lemma {:induction false} PredsAlong(b: seq<int>, seen: seq<int>, c: int, up: bool)
    requires Along(b, seen, up)
    ensures Along(b, Preds(b, seen, c), up)
  {
    var r := Preds(b, seen, c);
    forall i | 0 <= i < |r|
      ensures 0 <= r[i] < |b|
    {
      var j := PredFrom(b, seen, c, i);
    }
    forall i, i' {:trigger r[i], r[i']} | 0 <= i < i' < |r|
      ensures InDirection(b, r[i], r[i'], up)
    {
      var j, j' := PredOrdered(b, seen, c, i, i');
      assert InDirection(b, seen[j], seen[j'], up);
      PrevDirection(b, seen[j], seen[j'], up);
    }
  }

  /** The outer part of a big bucket: places with byte s followed by a byte on the given side. */
  ghost predicate Outer(b: seq<int>, s: int, up: bool, part: seq<int>) {
    Along(b, part, up) && forall i :: 0 <= i < |part| ==> b[part[i]] == s && Beyond(b[Next(|b|, part[i])], s, up)
  }

  /** All that there is to scan: the outer part, and then what the scan itself adds. */
  ghost function ToScan(b: seq<int>, s: int, part: seq<int>, seen: seq<int>): (r: seq<int>) {
    part + Preds(b, seen, s)
  }

  /** What has been seen is the beginning of what there is to scan, in order, each place where its run leads. */
  ghost predicate Scanned(b: seq<int>, s: int, up: bool, part: seq<int>, seen: seq<int>) {
    && Outer(b, s, up, part) && Along(b, seen, up) && seen <= ToScan(b, s, part, seen)
    && forall i :: 0 <= i < |seen| ==> Goes(b, s, up, seen[i], i)
  }

  /** A place followed by a byte beyond s comes before one followed by s, in the direction of the scan. */
  lemma {:induction false} OuterFirst(b: seq<int>, s: int, up: bool, x: nat, y: nat)
    requires Bytes(b) && |b| >= 2 && x < |b| && y < |b| && b[x] == s && b[y] == s
    requires Beyond(b[Next(|b|, x)], s, up) && b[Next(|b|, y)] == s
    ensures InDirection(b, x, y, up)
  {
    KeyRank(b, x, y);
    KeyRank(b, y, x);
  }

  lemma {:induction false} ToScanAlong(b: seq<int>, s: int, up: bool, part: seq<int>, seen: seq<int>)
    requires Bytes(b) && |b| >= 2 && Scanned(b, s, up, part, seen)
    ensures Along(b, ToScan(b, s, part, seen), up)
  {
    PredsAlong(b, seen, s, up);
    var t, r := ToScan(b, s, part, seen), Preds(b, seen, s);
    forall i, j {:trigger t[i], t[j]} | 0 <= i < j < |t|
      ensures InDirection(b, t[i], t[j], up)
    {
      if j < |part| {
        assert InDirection(b, part[i], part[j], up);
      } else if i < |part| {
        var x := PredFrom(b, seen, s, j - |part|);
        assert Goes(b, s, up, seen[x], x);
        OuterFirst(b, s, up, part[i], t[j]);
      } else {
        assert InDirection(b, r[i - |part|], r[j - |part|], up);
      }
    }
  }

  /** Where the next place to scan leads. */
  lemma {:induction false} NextGoes(b: seq<int>, s: int, up: bool, part: seq<int>, seen: seq<int>)
    requires Scanned(b, s, up, part, seen) && |seen| < |ToScan(b, s, part, seen)|
    ensures Goes(b, s, up, ToScan(b, s, part, seen)[|seen|], |seen|)
  {
    var i := |seen|;
    if i < |part| {
      GoesMore(b, s, up, part[i], 0, i);
    } else {
      var j := PredFrom(b, seen, s, i - |part|);
      var x := Prev(|b|, seen[j]);
      assert Goes(b, s, up, seen[j], j);
      assert Goes(b, s, up, x, j + 1);
      GoesMore(b, s, up, x, j + 1, i);
    }
  }

  /** One place more is scanned. */
  lemma {:induction false} ScanOne(b: seq<int>, s: int, up: bool, part: seq<int>, seen: seq<int>)
    requires Bytes(b) && |b| >= 2 && Scanned(b, s, up, part, seen) && |seen| < |ToScan(b, s, part, seen)|
    ensures 0 <= ToScan(b, s, part, seen)[|seen|] < |b|
        && Scanned(b, s, up, part, seen + [ToScan(b, s, part, seen)[|seen|]])
  {
    var t := ToScan(b, s, part, seen);
    var x := t[|seen|];
    ToScanAlong(b, s, up, part, seen);
    NextGoes(b, s, up, part, seen);
    PredsAppend(b, seen, x, s);
    var seen' := seen + [x];
    assert t[..|seen'|] == seen';
    assert t <= ToScan(b, s, part, seen');
    assert seen' <= t;
    forall i, j {:trigger seen'[i], seen'[j]} | 0 <= i < j < |seen'|
      ensures InDirection(b, seen'[i], seen'[j], up)
    {
      assert seen'[i] == t[i] && seen'[j] == t[j];
    }
  }

  // ---------------------------------------------------------------- a finished scan

  /** The outer part has all the places it should have. */
  ghost predicate OuterComplete(b: seq<int>, s: int, up: bool, part: seq<int>) {
    forall x {:trigger Goes(b, s, up, x, 0)} :: Goes(b, s, up, x, 0) ==> x in part
  }

  ghost predicate Finished(b: seq<int>, s: int, up: bool, part: seq<int>, seen: seq<int>) {
    Scanned(b, s, up, part, seen) && OuterComplete(b, s, up, part) && seen == ToScan(b, s, part, seen)
  }

  /** A finished scan has seen every place whose run leads that way. */
  lemma {:induction false} AllSeen(b: seq<int>, s: int, up: bool, part: seq<int>, seen: seq<int>, x: int, k: nat)
    requires Finished(b, s, up, part, seen) && Goes(b, s, up, x, k)
    ensures x in seen
    decreases k
  {
    var y := Next(|b|, x);
    if Beyond(b[y], s, up) {
      assert Goes(b, s, up, x, 0);
    } else {
      AllSeen(b, s, up, part, seen, y, k - 1);
      var j :| 0 <= j < |seen| && seen[j] == y;
      PrevNext(|b|, x);
      PredIn(b, seen, s, j);
    }
  }

  // ---------------------------------------------------------------- two scans share a bucket

  ghost function Places(b: seq<int>, v: int): (r: set<int>) {
    set j | 0 <= j < |b| && Pairs(b)[j] == v
  }

  ghost function SetOf(s: seq<int>): (r: set<int>) {
    set x | x in s
  }

  lemma {:induction false} AlongDistinct(b: seq<int>, s: seq<int>, up: bool)
    requires Along(b, s, up)
    ensures |SetOf(s)| == |s|
  {
    forall i, j | 0 <= i < j < |s|
      ensures s[i] != s[j]
    {
      assert InDirection(b, s[i], s[j], up);
    }
    InjectiveSize(s);
  }

  /** Each place that a scan puts into the bucket of c comes before one whose run leads the way of the scan. */
  lemma {:induction false} PredGoes(b: seq<int>, s: int, up: bool, part: seq<int>, seen: seq<int>, c: int, x: int)
    requires Scanned(b, s, up, part, seen) && x in Preds(b, seen, c)
    ensures 0 <= x < |b| && b[x] == c && Goes(b, s, up, Next(|b|, x), |seen|)
  {
    var i :| 0 <= i < |Preds(b, seen, c)| && Preds(b, seen, c)[i] == x;
    var j := PredFrom(b, seen, c, i);
    assert Goes(b, s, up, seen[j], j);
    GoesMore(b, s, up, seen[j], j, |seen|);
  }

  /** What a scan puts into the bucket of c belongs there. */
  lemma {:induction false} PredsBelong(b: seq<int>, s: int, up: bool, part: seq<int>, seen: seq<int>, c: int)
    requires Scanned(b, s, up, part, seen)
    ensures SetOf(Preds(b, seen, c)) <= Places(b, 256 * c + s)
    ensures |SetOf(Preds(b, seen, c))| == |Preds(b, seen, c)|
  {
    var r := Preds(b, seen, c);
    PredsAlong(b, seen, c, up);
    AlongDistinct(b, r, up);
    forall x | x in r
      ensures x in Places(b, 256 * c + s)
    {
      PredGoes(b, s, up, part, seen, c, x);
      assert Pairs(b)[x] == Key(b, x);
    }
  }

  /** Both scans together never put more into a bucket than it holds. */
  lemma {:induction false} Room(b: seq<int>, s: int, partL: seq<int>, seenL: seq<int>, partR: seq<int>, seenR: seq<int>,
      c: int)
    requires Scanned(b, s, false, partL, seenL) && Scanned(b, s, true, partR, seenR)
    ensures |Preds(b, seenL, c)| + |Preds(b, seenR, c)| <= Start(b, 256 * c + s + 1) - Start(b, 256 * c + s)
  {
    var l, r, k := SetOf(Preds(b, seenL, c)), SetOf(Preds(b, seenR, c)), Places(b, 256 * c + s);
    PredsBelong(b, s, false, partL, seenL, c);
    PredsBelong(b, s, true, partR, seenR, c);
    Apart(b, s, partL, seenL, partR, seenR, c);
    assert |l + r| == |l| + |r|;
    SubsetSize(l + r, k);
    PlacesCount(b, 256 * c + s);
  }

  lemma {:induction false} Apart(b: seq<int>, s: int, partL: seq<int>, seenL: seq<int>, partR: seq<int>,
      seenR: seq<int>, c: int)
    requires Scanned(b, s, false, partL, seenL) && Scanned(b, s, true, partR, seenR)
    ensures SetOf(Preds(b, seenL, c)) !! SetOf(Preds(b, seenR, c))
  {
    forall x | x in Preds(b, seenL, c)
      ensures x !in Preds(b, seenR, c)
    {
      PredGoes(b, s, false, partL, seenL, c, x);
      if x in Preds(b, seenR, c) {
        PredGoes(b, s, true, partR, seenR, c, x);
        OneWay(b, s, Next(|b|, x), |seenL|, |seenR|);
      }
    }
  }

  lemma {:induction false} PlacesCount(b: seq<int>, v: int)
    ensures |Places(b, v)| == Start(b, v + 1) - Start(b, v)
  {
    CountSet(Pairs(b), 0, |b|, v);
    BelowStep(Pairs(b), |b|, v);
    assert Places(b, v) == set j | 0 <= j < |b| && Pairs(b)[j] == v;
  }

  /** Two finished scans fill the bucket, unless the block is all one byte. */
  lemma {:induction false} Full(b: seq<int>, s: int, partL: seq<int>, seenL: seq<int>, partR: seq<int>, seenR: seq<int>,
      c: int, z: nat)
    requires Finished(b, s, false, partL, seenL) && Finished(b, s, true, partR, seenR) && z < |b| && b[z] != s
    requires Bytes(b) && 0 <= s < 256
    ensures |Preds(b, seenL, c)| + |Preds(b, seenR, c)| == Start(b, 256 * c + s + 1) - Start(b, 256 * c + s)
  {
    var l, r, k := SetOf(Preds(b, seenL, c)), SetOf(Preds(b, seenR, c)), Places(b, 256 * c + s);
    PredsBelong(b, s, false, partL, seenL, c);
    PredsBelong(b, s, true, partR, seenR, c);
    Apart(b, s, partL, seenL, partR, seenR, c);
    assert |l + r| == |l| + |r|;
    forall x | x in k
      ensures x in l + r
    {
      PlaceSeen(b, s, partL, seenL, partR, seenR, c, z, x);
    }
    assert l + r == k;
    PlacesCount(b, 256 * c + s);
  }

  lemma {:induction false} PlaceSeen(b: seq<int>, s: int, partL: seq<int>, seenL: seq<int>, partR: seq<int>,
      seenR: seq<int>, c: int, z: nat, x: int)
    requires Finished(b, s, false, partL, seenL) && Finished(b, s, true, partR, seenR) && z < |b| && b[z] != s
        && x in Places(b, 256 * c + s)
    requires Bytes(b) && 0 <= s < 256
    ensures x in Preds(b, seenL, c) || x in Preds(b, seenR, c)
  {
    assert Pairs(b)[x] == Key(b, x);
    var y := Next(|b|, x);
    assert b[x] == c && b[y] == s;
    var d := if z >= y then z - y else z - y + |b|;
    assert Adv(|b|, y, d) == z;
    var up, k := SomeWay(b, s, y, d);
    PrevNext(|b|, x);
    if up {
      AllSeen(b, s, true, partR, seenR, y, k);
      var j :| 0 <= j < |seenR| && seenR[j] == y;
      PredIn(b, seenR, c, j);
    } else {
      AllSeen(b, s, false, partL, seenL, y, k);
      var j :| 0 <= j < |seenL| && seenL[j] == y;
      PredIn(b, seenL, c, j);
    }
  }

  // ---------------------------------------------------------------- what the two scans leave in the rows

  ghost function Rev(s: seq<int>): (r: seq<int>)
    ensures |r| == |s| && forall i :: 0 <= i < |s| ==> r[i] == s[|s| - 1 - i]
  {
    seq(|s|, i requires 0 <= i < |s| => s[|s| - 1 - i])
  }

  /** Row p lies in the bucket of the places with byte c before a place with byte s. */
  ghost predicate InBucket(b: seq<int>, s: int, c: int, p: int) {
    Start(b, 256 * c + s) <= p < Start(b, 256 * c + s + 1)
  }

  /** What the scan from the left found fills the bucket of c from its beginning, what the other found from its end. */
  ghost predicate BucketCopied(b: seq<int>, s: int, f: seq<int>, seenL: seq<int>, seenR: seq<int>, c: int) {
    var lo, hi, l, r := Start(b, 256 * c + s), Start(b, 256 * c + s + 1), Preds(b, seenL, c), Preds(b, seenR, c);
    lo + |l| <= hi - |r| && hi <= |f| && f[lo..lo + |l|] == l && f[hi - |r|..hi] == Rev(r)
  }

  ghost predicate Touched(b: seq<int>, s: int, done: seq<bool>, p: int) {
    exists c {:trigger InBucket(b, s, c, p)} :: 0 <= c < |done| && !done[c] && InBucket(b, s, c, p)
  }

  ghost predicate Copied(b: seq<int>, s: int, done: seq<bool>, was: seq<int>, f: seq<int>, seenL: seq<int>,
      seenR: seq<int>) {
    && |f| == |was| == |b| && |done| == 256
    && (forall c {:trigger BucketCopied(b, s, f, seenL, seenR, c)} ::
          0 <= c < 256 && !done[c] ==> BucketCopied(b, s, f, seenL, seenR, c))
    && (forall p {:trigger f[p]} :: 0 <= p < |f| && f[p] != was[p] ==> Touched(b, s, done, p))
    && (seenL == [] && seenR == [] ==> f == was)
  }

  lemma {:induction false} CopyStart(b: seq<int>, s: int, done: seq<bool>, was: seq<int>)
    requires |was| == |b| && |done| == 256
    ensures Copied(b, s, done, was, was, [], [])
  {
    forall c {:trigger BucketCopied(b, s, was, [], [], c)} | 0 <= c < 256 && !done[c]
      ensures BucketCopied(b, s, was, [], [], c)
    {
      StartMonotone(b, 256 * c + s, 256 * c + s + 1);
      assert Preds(b, [], c) == [] && Rev([]) == [];
    }
  }

  /** Buckets of different bytes before s do not meet. */
  lemma {:induction false} BucketsApart(b: seq<int>, s: int, c: int, d: int)
    requires 0 <= s < 256 && c != d
    ensures Start(b, 256 * c + s + 1) <= Start(b, 256 * d + s) || Start(b, 256 * d + s + 1) <= Start(b, 256 * c + s)
  {
    if c < d {
      StartMonotone(b, 256 * c + s + 1, 256 * d + s);
    } else {
      StartMonotone(b, 256 * d + s + 1, 256 * c + s);
    }
  }

  lemma {:induction false} SliceElsewhere(f: seq<int>, p: nat, k: int, lo: nat, hi: nat)
    requires p < |f| && lo <= hi <= |f| && !(lo <= p < hi)
    ensures f[p := k][lo..hi] == f[lo..hi]
  {
  }

  /** Writing into one bucket leaves the others. */
  lemma {:induction false} OtherBucket(b: seq<int>, s: int, f: seq<int>, seenL: seq<int>, seenR: seq<int>, c: int,
      p: nat, k: int, d: int)
    requires 0 <= s < 256 && BucketCopied(b, s, f, seenL, seenR, c) && p < |f| && InBucket(b, s, d, p) && c != d
    ensures BucketCopied(b, s, f[p := k], seenL, seenR, c)
  {
    var lo, hi, l, r := Start(b, 256 * c + s), Start(b, 256 * c + s + 1), Preds(b, seenL, c), Preds(b, seenR, c);
    BucketsApart(b, s, c, d);
    SliceElsewhere(f, p, k, lo, lo + |l|);
    SliceElsewhere(f, p, k, hi - |r|, hi);
  }

  /** The row that the scan from the left writes next. */
  ghost function LeftRow(b: seq<int>, s: int, seenL: seq<int>, c: int): (r: int) {
    Start(b, 256 * c + s) + |Preds(b, seenL, c)|
  }

  ghost function RightRow(b: seq<int>, s: int, seenR: seq<int>, c: int): (r: int) {
    Start(b, 256 * c + s + 1) - 1 - |Preds(b, seenR, c)|
  }

  /** The bucket itself, after a write from the left. */
  lemma {:induction false} ThisBucketLeft(b: seq<int>, s: int, f: seq<int>, seenL: seq<int>, seenR: seq<int>, x: nat)
    requires x < |b| && BucketCopied(b, s, f, seenL, seenR, b[Prev(|b|, x)])
    requires LeftRow(b, s, seenL, b[Prev(|b|, x)]) <= RightRow(b, s, seenR, b[Prev(|b|, x)])
    ensures var k := Prev(|b|, x); var p := LeftRow(b, s, seenL, b[k]);
      p < |f| && InBucket(b, s, b[k], p) && BucketCopied(b, s, f[p := k], seenL + [x], seenR, b[k])
  {
    var k := Prev(|b|, x);
    var c := b[k];
    var lo, hi, l, r := Start(b, 256 * c + s), Start(b, 256 * c + s + 1), Preds(b, seenL, c), Preds(b, seenR, c);
    var p := lo + |l|;
    PredsAppend(b, seenL, x, c);
    SliceElsewhere(f, p, k, hi - |r|, hi);
    assert f[p := k][lo..p + 1] == f[lo..p] + [k];
  }

  lemma {:induction false} ThisBucketRight(b: seq<int>, s: int, f: seq<int>, seenL: seq<int>, seenR: seq<int>, x: nat)
    requires x < |b| && BucketCopied(b, s, f, seenL, seenR, b[Prev(|b|, x)])
    requires LeftRow(b, s, seenL, b[Prev(|b|, x)]) <= RightRow(b, s, seenR, b[Prev(|b|, x)])
    ensures var k := Prev(|b|, x); var p := RightRow(b, s, seenR, b[k]);
      0 <= p < |f| && InBucket(b, s, b[k], p) && BucketCopied(b, s, f[p := k], seenL, seenR + [x], b[k])
  {
    var k := Prev(|b|, x);
    var c := b[k];
    var lo, hi, l, r := Start(b, 256 * c + s), Start(b, 256 * c + s + 1), Preds(b, seenL, c), Preds(b, seenR, c);
    var p := hi - 1 - |r|;
    PredsAppend(b, seenR, x, c);
    SliceElsewhere(f, p, k, lo, lo + |l|);
    assert f[p := k][p..hi] == [k] + f[p + 1..hi];
    assert Rev(r + [k]) == [k] + Rev(r);
  }

  /** A place with an other byte before it changes nothing in the bucket of c. */
  lemma {:induction false} PassedBy(b: seq<int>, s: int, f: seq<int>, seenL: seq<int>, seenR: seq<int>, c: int, x: nat)
    requires x < |b| && BucketCopied(b, s, f, seenL, seenR, c) && b[Prev(|b|, x)] != c
    ensures BucketCopied(b, s, f, seenL + [x], seenR, c) && BucketCopied(b, s, f, seenL, seenR + [x], c)
  {
    PredsAppend(b, seenL, x, c);
    PredsAppend(b, seenR, x, c);
  }

  /** The rows after one place more has been scanned from the left. */
  ghost function PutLeft(b: seq<int>, s: int, done: seq<bool>, f: seq<int>, seenL: seq<int>, x: nat): (r: seq<int>)
    requires x < |b|
  {
    var k := Prev(|b|, x);
    var p := LeftRow(b, s, seenL, b[k]);
    if 0 <= b[k] < |done| && !done[b[k]] && 0 <= p < |f| then f[p := k] else f
  }

  ghost function PutRight(b: seq<int>, s: int, done: seq<bool>, f: seq<int>, seenR: seq<int>, x: nat): (r: seq<int>)
    requires x < |b|
  {
    var k := Prev(|b|, x);
    var p := RightRow(b, s, seenR, b[k]);
    if 0 <= b[k] < |done| && !done[b[k]] && 0 <= p < |f| then f[p := k] else f
  }

  lemma {:induction false} CopyLeft(b: seq<int>, s: int, done: seq<bool>, was: seq<int>, f: seq<int>, seenL: seq<int>,
      seenR: seq<int>, x: nat)
    requires Copied(b, s, done, was, f, seenL, seenR) && x < |b| && Bytes(b) && 0 <= s < 256
    requires LeftRow(b, s, seenL, b[Prev(|b|, x)]) <= RightRow(b, s, seenR, b[Prev(|b|, x)])
    ensures Copied(b, s, done, was, PutLeft(b, s, done, f, seenL, x), seenL + [x], seenR)
    ensures !done[b[Prev(|b|, x)]] ==> 0 <= LeftRow(b, s, seenL, b[Prev(|b|, x)]) < |f|
  {
    var k := Prev(|b|, x);
    var d, f' := b[k], PutLeft(b, s, done, f, seenL, x);
    var p := LeftRow(b, s, seenL, d);
    if !done[d] {
      assert BucketCopied(b, s, f, seenL, seenR, d);
      ThisBucketLeft(b, s, f, seenL, seenR, x);
    }
    forall c {:trigger BucketCopied(b, s, f', seenL + [x], seenR, c)} | 0 <= c < 256 && !done[c]
      ensures BucketCopied(b, s, f', seenL + [x], seenR, c)
    {
      if c != d {
        assert BucketCopied(b, s, f, seenL, seenR, c);
        if !done[d] { OtherBucket(b, s, f, seenL, seenR, c, p, k, d); }
        PassedBy(b, s, f', seenL, seenR, c, x);
      }
    }
    forall q {:trigger f'[q]} | 0 <= q < |f'| && f'[q] != was[q]
      ensures Touched(b, s, done, q)
    {
      if f[q] == was[q] { assert q == p && InBucket(b, s, d, q); }
    }
  }

  lemma {:induction false} CopyRight(b: seq<int>, s: int, done: seq<bool>, was: seq<int>, f: seq<int>, seenL: seq<int>,
      seenR: seq<int>, x: nat)
    requires Copied(b, s, done, was, f, seenL, seenR) && x < |b| && Bytes(b) && 0 <= s < 256
    requires LeftRow(b, s, seenL, b[Prev(|b|, x)]) <= RightRow(b, s, seenR, b[Prev(|b|, x)])
    ensures Copied(b, s, done, was, PutRight(b, s, done, f, seenR, x), seenL, seenR + [x])
    ensures !done[b[Prev(|b|, x)]] ==> 0 <= RightRow(b, s, seenR, b[Prev(|b|, x)]) < |f|
  {
    var k := Prev(|b|, x);
    var d, f' := b[k], PutRight(b, s, done, f, seenR, x);
    var p := RightRow(b, s, seenR, d);
    if !done[d] {
      assert BucketCopied(b, s, f, seenL, seenR, d);
      ThisBucketRight(b, s, f, seenL, seenR, x);
    }
    forall c {:trigger BucketCopied(b, s, f', seenL, seenR + [x], c)} | 0 <= c < 256 && !done[c]
      ensures BucketCopied(b, s, f', seenL, seenR + [x], c)
    {
      if c != d {
        assert BucketCopied(b, s, f, seenL, seenR, c);
        if !done[d] { OtherBucket(b, s, f, seenL, seenR, c, p, k, d); }
        PassedBy(b, s, f', seenL, seenR, c, x);
      }
    }
    forall q {:trigger f'[q]} | 0 <= q < |f'| && f'[q] != was[q]
      ensures Touched(b, s, done, q)
    {
      if f[q] == was[q] { assert q == p && InBucket(b, s, d, q); }
    }
  }

  // ---------------------------------------------------------------- the big bucket that is scanned

  /** Before the scan of big bucket s: its small buckets are sorted, but for the one of places followed by s again. */
  ghost predicate ReadyToScan(b: seq<int>, s: int, done: seq<bool>, was: seq<int>) {
    && Bytes(b) && |b| >= 2 && Bucketed(b, was) && 0 <= s < 256 && |done| == 256 && !done[s]
    && forall j {:trigger SmallSorted(b, was, s, j)} :: 0 <= j < 256 && j != s ==> SmallSorted(b, was, s, j)
  }

  /** The rows before the middle bucket. */
  ghost function LeftPart(b: seq<int>, s: int, was: seq<int>): (r: seq<int>)
    requires |was| == |b| && 0 <= s < 256
    ensures |r| == Start(b, 256 * s + s) - Start(b, 256 * s)
    ensures forall i :: 0 <= i < |r| ==> r[i] == was[Start(b, 256 * s) + i]
  {
    StartMonotone(b, 256 * s, 256 * s + s);
    was[Start(b, 256 * s)..Start(b, 256 * s + s)]
  }

  /** The rows behind it, from the last. */
  ghost function RightPart(b: seq<int>, s: int, was: seq<int>): (r: seq<int>)
    requires |was| == |b| && 0 <= s < 256
    ensures |r| == Start(b, 256 * s + 256) - Start(b, 256 * s + s + 1)
    ensures forall i :: 0 <= i < |r| ==> r[i] == was[Start(b, 256 * s + 256) - 1 - i]
  {
    StartMonotone(b, 256 * s + s + 1, 256 * s + 256);
    Rev(was[Start(b, 256 * s + s + 1)..Start(b, 256 * s + 256)])
  }

  /** The bytes of the place in a row of the big bucket. */
  lemma {:induction false} RowBytes(b: seq<int>, s: int, was: seq<int>, p: nat, j1: int, j2: int)
    requires Bytes(b) && Bucketed(b, was) && 0 <= s < 256 && 0 <= j1 <= j2 <= 256
    requires Start(b, 256 * s + j1) <= p < Start(b, 256 * s + j2)
    ensures p < |was| && b[was[p]] == s && j1 <= b[Next(|b|, was[p])] < j2
  {
    StartMonotone(b, 256 * s + j2, 256 * s + j2);
    var k := Key(b, was[p]);
    assert 0 <= b[was[p]] < 256 && 0 <= b[Next(|b|, was[p])] < 256;
    if k < 256 * s + j1 { StartMonotone(b, k + 1, 256 * s + j1); }
    if k >= 256 * s + j2 { StartMonotone(b, 256 * s + j2, k); }
  }

  /** Two rows of the outer parts are in order. */
  lemma {:induction false} OuterRows(b: seq<int>, s: int, done: seq<bool>, was: seq<int>, p: nat, q: nat)
    requires ReadyToScan(b, s, done, was) && Start(b, 256 * s) <= p < q < Start(b, 256 * s + 256)
    requires !InBucket(b, s, s, p) && !InBucket(b, s, s, q)
    ensures q < |was| && InDirection(b, was[p], was[q], false)
  {
    StartMonotone(b, 256 * s + 256, 256 * s + 256);
    BucketOrder(b, was, p, q);
    KeyRank(b, was[p], was[q]);
    RowBytes(b, s, was, p, 0, 256);
    RowBytes(b, s, was, q, 0, 256);
    if Key(b, was[p]) == Key(b, was[q]) {
      var j := b[Next(|b|, was[p])];
      assert j != s;
      assert SmallSorted(b, was, s, j);
      assert AllIn(was, Ranks(b));
    }
  }

  /** Every place of the big bucket stands in one of its rows. */
  lemma {:induction false} RowAmong(b: seq<int>, s: int, was: seq<int>, x: int, j1: int, j2: int) returns (p: nat)
    requires Bytes(b) && Bucketed(b, was) && 0 <= x < |b| && b[x] == s && j1 <= b[Next(|b|, x)] < j2
    ensures Start(b, 256 * s + j1) <= p < Start(b, 256 * s + j2) && p < |was| && was[p] == x
  {
    p := PermSurjective(was, x);
    var k := Key(b, x);
    StartMonotone(b, 256 * s + j1, k);
    StartMonotone(b, k + 1, 256 * s + j2);
  }

  lemma {:induction false} LeftBytes(b: seq<int>, s: int, was: seq<int>, i: nat)
    requires Bytes(b) && Bucketed(b, was) && 0 <= s < 256 && i < |LeftPart(b, s, was)|
    ensures var x := LeftPart(b, s, was)[i]; 0 <= x < |b| && b[x] == s && Beyond(b[Next(|b|, x)], s, false)
  {
    RowBytes(b, s, was, Start(b, 256 * s) + i, 0, s);
  }

  lemma {:induction false} RightBytes(b: seq<int>, s: int, was: seq<int>, i: nat)
    requires Bytes(b) && Bucketed(b, was) && 0 <= s < 256 && i < |RightPart(b, s, was)|
    ensures var x := RightPart(b, s, was)[i]; 0 <= x < |b| && b[x] == s && Beyond(b[Next(|b|, x)], s, true)
  {
    RowBytes(b, s, was, Start(b, 256 * s + 256) - 1 - i, s + 1, 256);
  }

  lemma {:induction false} LeftAlong(b: seq<int>, s: int, done: seq<bool>, was: seq<int>)
    requires ReadyToScan(b, s, done, was)
    ensures Outer(b, s, false, LeftPart(b, s, was))
  {
    var part, lo, hi := LeftPart(b, s, was), Start(b, 256 * s), Start(b, 256 * s + s);
    StartMonotone(b, 256 * s + s, 256 * s + 256);
    forall i | 0 <= i < |part|
      ensures 0 <= part[i] < |b| && b[part[i]] == s && Beyond(b[Next(|b|, part[i])], s, false)
    {
      LeftBytes(b, s, was, i);
    }
    forall i, j {:trigger part[i], part[j]} | 0 <= i < j < |part|
      ensures InDirection(b, part[i], part[j], false)
    {
      OuterRows(b, s, done, was, lo + i, lo + j);
    }
  }

  lemma {:induction false} LeftComplete(b: seq<int>, s: int, done: seq<bool>, was: seq<int>)
    requires ReadyToScan(b, s, done, was)
    ensures OuterComplete(b, s, false, LeftPart(b, s, was))
  {
    var part := LeftPart(b, s, was);
    forall x {:trigger Goes(b, s, false, x, 0)} | Goes(b, s, false, x, 0)
      ensures x in part
    {
      assert 0 <= b[Next(|b|, x)] < 256;
      var p := RowAmong(b, s, was, x, 0, s);
      assert part[p - Start(b, 256 * s)] == x;
    }
  }

  lemma {:induction false} RightAlong(b: seq<int>, s: int, done: seq<bool>, was: seq<int>)
    requires ReadyToScan(b, s, done, was)
    ensures Outer(b, s, true, RightPart(b, s, was))
  {
    var part, lo, hi := RightPart(b, s, was), Start(b, 256 * s + s + 1), Start(b, 256 * s + 256);
    StartMonotone(b, 256 * s, 256 * s + s + 1);
    forall i | 0 <= i < |part|
      ensures 0 <= part[i] < |b| && b[part[i]] == s && Beyond(b[Next(|b|, part[i])], s, true)
    {
      RightBytes(b, s, was, i);
    }
    forall i, j {:trigger part[i], part[j]} | 0 <= i < j < |part|
      ensures InDirection(b, part[i], part[j], true)
    {
      OuterRows(b, s, done, was, hi - 1 - j, hi - 1 - i);
    }
  }

  lemma {:induction false} RightComplete(b: seq<int>, s: int, done: seq<bool>, was: seq<int>)
    requires ReadyToScan(b, s, done, was)
    ensures OuterComplete(b, s, true, RightPart(b, s, was))
  {
    var part := RightPart(b, s, was);
    forall x {:trigger Goes(b, s, true, x, 0)} | Goes(b, s, true, x, 0)
      ensures x in part
    {
      assert 0 <= b[Next(|b|, x)] < 256;
      var p := RowAmong(b, s, was, x, s + 1, 256);
      assert part[Start(b, 256 * s + 256) - 1 - p] == x;
    }
  }

  /** The scans write to none of the outer rows of the bucket they scan. */
  lemma {:induction false} OuterUntouched(b: seq<int>, s: int, done: seq<bool>, p: int)
    requires 0 <= s < 256 && Start(b, 256 * s) <= p < Start(b, 256 * s + 256) && !InBucket(b, s, s, p) && |done| == 256
    ensures !Touched(b, s, done, p)
  {
    forall c | 0 <= c < |done| && c != s
      ensures !InBucket(b, s, c, p)
    {
      if c < s {
        StartMonotone(b, 256 * c + s + 1, 256 * s);
      } else {
        StartMonotone(b, 256 * s + 256, 256 * c + s);
      }
    }
  }

  /** Both scans under way. */
  ghost predicate Scanning(b: seq<int>, s: int, done: seq<bool>, was: seq<int>, f: seq<int>, seenL: seq<int>,
      seenR: seq<int>) {
    && |f| == |was| == |b| >= 2 && 0 <= s < 256 && |done| == 256 && !done[s]
    && forall u {:trigger Unfold(u)} :: Unfold(u) ==>
         && ReadyToScan(b, s, done, was) && Copied(b, s, done, was, f, seenL, seenR)
         && Scanned(b, s, false, LeftPart(b, s, was), seenL) && Scanned(b, s, true, RightPart(b, s, was), seenR)
  }

  lemma {:induction false} ScanStart(b: seq<int>, s: int, done: seq<bool>, was: seq<int>)
    requires ReadyToScan(b, s, done, was)
    ensures Scanning(b, s, done, was, was, [], [])
  {
    LeftAlong(b, s, done, was);
    RightAlong(b, s, done, was);
    CopyStart(b, s, done, was);
  }

  lemma {:induction false} ScanBucket(b: seq<int>, s: int, done: seq<bool>, was: seq<int>, f: seq<int>, seenL: seq<int>,
      seenR: seq<int>, c: int)
    requires Scanning(b, s, done, was, f, seenL, seenR) && 0 <= c < 256 && !done[c]
    ensures BucketCopied(b, s, f, seenL, seenR, c)
  {
    assert Unfold(0);
  }

  lemma {:induction false} ScanRow(b: seq<int>, s: int, done: seq<bool>, was: seq<int>, f: seq<int>, seenL: seq<int>,
      seenR: seq<int>, p: int)
    requires Scanning(b, s, done, was, f, seenL, seenR) && 0 <= p < |f|
    requires Start(b, 256 * s) <= p < Start(b, 256 * s + 256) && !InBucket(b, s, s, p)
    ensures f[p] == was[p]
  {
    OuterUntouched(b, s, done, p);
    assert Unfold(0);
  }

  /** The row that the scan from the left is at holds the next place to scan. */
  lemma {:induction false} ReadLeft(b: seq<int>, s: int, done: seq<bool>, was: seq<int>, f: seq<int>, seenL: seq<int>,
      seenR: seq<int>)
    requires Scanning(b, s, done, was, f, seenL, seenR) && Start(b, 256 * s) + |seenL| < LeftRow(b, s, seenL, s)
    ensures |seenL| < |ToScan(b, s, LeftPart(b, s, was), seenL)| && Start(b, 256 * s) + |seenL| < |f|
    ensures f[Start(b, 256 * s) + |seenL|] == ToScan(b, s, LeftPart(b, s, was), seenL)[|seenL|]
  {
    var part, lo, mid, i := LeftPart(b, s, was), Start(b, 256 * s), Start(b, 256 * s + s), |seenL|;
    ScanBucket(b, s, done, was, f, seenL, seenR, s);
    if i < |part| {
      StartMonotone(b, 256 * s + s, 256 * s + 256);
      ScanRow(b, s, done, was, f, seenL, seenR, lo + i);
    } else {
      var l := Preds(b, seenL, s);
      assert f[mid..mid + |l|][i - |part|] == l[i - |part|];
    }
  }

  lemma {:induction false} ReadRight(b: seq<int>, s: int, done: seq<bool>, was: seq<int>, f: seq<int>, seenL: seq<int>,
      seenR: seq<int>)
    requires Scanning(b, s, done, was, f, seenL, seenR)
        && Start(b, 256 * s + 256) - 1 - |seenR| > RightRow(b, s, seenR, s)
    ensures |seenR| < |ToScan(b, s, RightPart(b, s, was), seenR)| && 0 <= Start(b, 256 * s + 256) - 1 - |seenR| < |f|
    ensures f[Start(b, 256 * s + 256) - 1 - |seenR|] == ToScan(b, s, RightPart(b, s, was), seenR)[|seenR|]
  {
    var part, end, mid, i := RightPart(b, s, was), Start(b, 256 * s + 256), Start(b, 256 * s + s + 1), |seenR|;
    StartMonotone(b, 256 * s + 256, 256 * s + 256);
    ScanBucket(b, s, done, was, f, seenL, seenR, s);
    if i < |part| {
      StartMonotone(b, 256 * s, 256 * s + s + 1);
      ScanRow(b, s, done, was, f, seenL, seenR, end - 1 - i);
    } else {
      var r := Preds(b, seenR, s);
      var t := i - |part|;
      assert f[mid - |r|..mid][|r| - 1 - t] == Rev(r)[|r| - 1 - t];
    }
  }

  lemma {:induction false} ScanSides(b: seq<int>, s: int, done: seq<bool>, was: seq<int>, f: seq<int>, seenL: seq<int>,
      seenR: seq<int>)
    requires Scanning(b, s, done, was, f, seenL, seenR)
    ensures Bytes(b) && Scanned(b, s, false, LeftPart(b, s, was), seenL)
        && Scanned(b, s, true, RightPart(b, s, was), seenR)
  {
    assert Unfold(0);
  }

  /** There is room for the place before the next one. */
  lemma {:induction false} RoomLeft(b: seq<int>, s: int, done: seq<bool>, was: seq<int>, f: seq<int>, seenL: seq<int>,
      seenR: seq<int>)
    requires Scanning(b, s, done, was, f, seenL, seenR) && |seenL| < |ToScan(b, s, LeftPart(b, s, was), seenL)|
    ensures var x := ToScan(b, s, LeftPart(b, s, was), seenL)[|seenL|];
      && 0 <= x < |b| && 0 <= b[Prev(|b|, x)] < 256 && Scanned(b, s, false, LeftPart(b, s, was), seenL + [x])
      && LeftRow(b, s, seenL, b[Prev(|b|, x)]) <= RightRow(b, s, seenR, b[Prev(|b|, x)])
  {
    ScanSides(b, s, done, was, f, seenL, seenR);
    var x := ToScan(b, s, LeftPart(b, s, was), seenL)[|seenL|];
    ScanOne(b, s, false, LeftPart(b, s, was), seenL);
    var c := b[Prev(|b|, x)];
    Room(b, s, LeftPart(b, s, was), seenL + [x], RightPart(b, s, was), seenR, c);
    PredsAppend(b, seenL, x, c);
  }

  lemma {:induction false} RoomRight(b: seq<int>, s: int, done: seq<bool>, was: seq<int>, f: seq<int>, seenL: seq<int>,
      seenR: seq<int>)
    requires Scanning(b, s, done, was, f, seenL, seenR) && |seenR| < |ToScan(b, s, RightPart(b, s, was), seenR)|
    ensures var x := ToScan(b, s, RightPart(b, s, was), seenR)[|seenR|];
      && 0 <= x < |b| && 0 <= b[Prev(|b|, x)] < 256 && Scanned(b, s, true, RightPart(b, s, was), seenR + [x])
      && LeftRow(b, s, seenL, b[Prev(|b|, x)]) <= RightRow(b, s, seenR, b[Prev(|b|, x)])
  {
    ScanSides(b, s, done, was, f, seenL, seenR);
    var x := ToScan(b, s, RightPart(b, s, was), seenR)[|seenR|];
    ScanOne(b, s, true, RightPart(b, s, was), seenR);
    var c := b[Prev(|b|, x)];
    Room(b, s, LeftPart(b, s, was), seenL, RightPart(b, s, was), seenR + [x], c);
    PredsAppend(b, seenR, x, c);
  }

  /** One step of the scan from the left. */
  lemma {:induction false} StepLeft(b: seq<int>, s: int, done: seq<bool>, was: seq<int>, f: seq<int>, seenL: seq<int>,
      seenR: seq<int>, x: int)
    requires Scanning(b, s, done, was, f, seenL, seenR) && Start(b, 256 * s) + |seenL| < LeftRow(b, s, seenL, s)
    requires Start(b, 256 * s) + |seenL| < |f| && x == f[Start(b, 256 * s) + |seenL|]
    ensures 0 <= x < |b| && 0 <= b[Prev(|b|, x)] < 256
    ensures Scanning(b, s, done, was, PutLeft(b, s, done, f, seenL, x), seenL + [x], seenR)
    ensures !done[b[Prev(|b|, x)]] ==> 0 <= LeftRow(b, s, seenL, b[Prev(|b|, x)]) < |f|
  {
    ReadLeft(b, s, done, was, f, seenL, seenR);
    RoomLeft(b, s, done, was, f, seenL, seenR);
    assert Unfold(0);
    CopyLeft(b, s, done, was, f, seenL, seenR, x);
  }

  lemma {:induction false} StepRight(b: seq<int>, s: int, done: seq<bool>, was: seq<int>, f: seq<int>, seenL: seq<int>,
      seenR: seq<int>, x: int)
    requires Scanning(b, s, done, was, f, seenL, seenR)
        && Start(b, 256 * s + 256) - 1 - |seenR| > RightRow(b, s, seenR, s)
    requires 0 <= Start(b, 256 * s + 256) - 1 - |seenR| < |f| && x == f[Start(b, 256 * s + 256) - 1 - |seenR|]
    ensures 0 <= x < |b| && 0 <= b[Prev(|b|, x)] < 256
    ensures Scanning(b, s, done, was, PutRight(b, s, done, f, seenR, x), seenL, seenR + [x])
    ensures !done[b[Prev(|b|, x)]] ==> 0 <= RightRow(b, s, seenR, b[Prev(|b|, x)]) < |f|
  {
    ReadRight(b, s, done, was, f, seenL, seenR);
    RoomRight(b, s, done, was, f, seenL, seenR);
    assert Unfold(0);
    CopyRight(b, s, done, was, f, seenL, seenR, x);
  }

  // ---------------------------------------------------------------- when both scans are finished

  lemma {:induction false} LeftFinished(b: seq<int>, s: int, done: seq<bool>, was: seq<int>, f: seq<int>,
      seenL: seq<int>, seenR: seq<int>)
    requires Scanning(b, s, done, was, f, seenL, seenR) && Start(b, 256 * s) + |seenL| >= LeftRow(b, s, seenL, s)
    ensures Finished(b, s, false, LeftPart(b, s, was), seenL)
  {
    assert Unfold(0);
    LeftComplete(b, s, done, was);
    var t := ToScan(b, s, LeftPart(b, s, was), seenL);
    assert seenL == t[..|seenL|] && |seenL| == |t|;
  }

  lemma {:induction false} RightFinished(b: seq<int>, s: int, done: seq<bool>, was: seq<int>, f: seq<int>,
      seenL: seq<int>, seenR: seq<int>)
    requires Scanning(b, s, done, was, f, seenL, seenR)
        && Start(b, 256 * s + 256) - 1 - |seenR| <= RightRow(b, s, seenR, s)
    ensures Finished(b, s, true, RightPart(b, s, was), seenR)
  {
    assert Unfold(0);
    RightComplete(b, s, done, was);
    var t := ToScan(b, s, RightPart(b, s, was), seenR);
    assert seenR == t[..|seenR|] && |seenR| == |t|;
  }

  /** The places before s with byte c: those from the left, and behind them those from the right. */
  ghost function Merged(b: seq<int>, seenL: seq<int>, seenR: seq<int>, c: int): (r: seq<int>) {
    Preds(b, seenL, c) + Rev(Preds(b, seenR, c))
  }

  lemma {:induction false} RevAlong(b: seq<int>, r: seq<int>)
    requires Along(b, r, true)
    ensures Along(b, Rev(r), false)
  {
    var t := Rev(r);
    forall i, j {:trigger t[i], t[j]} | 0 <= i < j < |t|
      ensures InDirection(b, t[i], t[j], false)
    {
      assert InDirection(b, r[|r| - 1 - j], r[|r| - 1 - i], true);
    }
  }

  /** What comes from the left precedes what comes from the right. */
  lemma {:induction false} LeftBeforeRight(b: seq<int>, s: int, partL: seq<int>, seenL: seq<int>, partR: seq<int>,
      seenR: seq<int>, c: int, x: int, y: int)
    requires Scanned(b, s, false, partL, seenL) && Scanned(b, s, true, partR, seenR) && x in Preds(b, seenL, c)
        && y in Preds(b, seenR, c)
    ensures 0 <= x < |b| && 0 <= y < |b| && InDirection(b, x, y, false)
  {
    PredGoes(b, s, false, partL, seenL, c, x);
    PredGoes(b, s, true, partR, seenR, c, y);
    var x1, y1 := Next(|b|, x), Next(|b|, y);
    FallsBefore(b, s, x1, y1, |seenL|, |seenR|);
    RankOrder(b, x1, y1);
    CmpAnti(b, x1, x1, |b|);
    PrevNext(|b|, x);
    PrevNext(|b|, y);
    PrevDirection(b, x1, y1, false);
  }

  lemma {:induction false} MergedAlong(b: seq<int>, s: int, partL: seq<int>, seenL: seq<int>, partR: seq<int>,
      seenR: seq<int>, c: int)
    requires Scanned(b, s, false, partL, seenL) && Scanned(b, s, true, partR, seenR)
    ensures Along(b, Merged(b, seenL, seenR, c), false)
  {
    var l, r, m := Preds(b, seenL, c), Rev(Preds(b, seenR, c)), Merged(b, seenL, seenR, c);
    PredsAlong(b, seenL, c, false);
    PredsAlong(b, seenR, c, true);
    RevAlong(b, Preds(b, seenR, c));
    forall i, j {:trigger m[i], m[j]} | 0 <= i < j < |m|
      ensures InDirection(b, m[i], m[j], false)
    {
      if j < |l| {
        assert InDirection(b, l[i], l[j], false);
      } else if i < |l| {
        assert r[j - |l|] in Preds(b, seenR, c);
        LeftBeforeRight(b, s, partL, seenL, partR, seenR, c, l[i], r[j - |l|]);
      } else {
        assert InDirection(b, r[i - |l|], r[j - |l|], false);
      }
    }
  }

  lemma {:induction false} MergedBelongs(b: seq<int>, s: int, partL: seq<int>, seenL: seq<int>, partR: seq<int>,
      seenR: seq<int>, c: int, i: nat)
    requires Scanned(b, s, false, partL, seenL) && Scanned(b, s, true, partR, seenR) && i < |Merged(b, seenL, seenR, c)|
    ensures 0 <= Merged(b, seenL, seenR, c)[i] < |b| && Key(b, Merged(b, seenL, seenR, c)[i]) == 256 * c + s
  {
    var l, r := Preds(b, seenL, c), Preds(b, seenR, c);
    if i < |l| {
      PredGoes(b, s, false, partL, seenL, c, l[i]);
    } else {
      assert Merged(b, seenL, seenR, c)[i] == Rev(r)[i - |l|];
      PredGoes(b, s, true, partR, seenR, c, r[|r| - 1 - (i - |l|)]);
    }
  }

  /** Both scans are finished and the bucket of every byte that is not done holds what they found. */
  ghost predicate Settled(b: seq<int>, s: int, done: seq<bool>, was: seq<int>, f: seq<int>, seenL: seq<int>,
      seenR: seq<int>) {
    && Scanning(b, s, done, was, f, seenL, seenR)
    && forall u {:trigger Unfold(u)} :: Unfold(u) ==>
         Finished(b, s, false, LeftPart(b, s, was), seenL) && Finished(b, s, true, RightPart(b, s, was), seenR)
  }

  lemma {:induction false} SettledAlong(b: seq<int>, s: int, done: seq<bool>, was: seq<int>, f: seq<int>,
      seenL: seq<int>, seenR: seq<int>, c: int)
    requires Settled(b, s, done, was, f, seenL, seenR)
    ensures Along(b, Merged(b, seenL, seenR, c), false)
  {
    assert Unfold(0);
    MergedAlong(b, s, LeftPart(b, s, was), seenL, RightPart(b, s, was), seenR, c);
  }

  lemma {:induction false} SettledFull(b: seq<int>, s: int, done: seq<bool>, was: seq<int>, f: seq<int>,
      seenL: seq<int>, seenR: seq<int>, c: int, z: nat)
    requires Settled(b, s, done, was, f, seenL, seenR) && Bytes(b) && z < |b| && b[z] != s
    ensures |Preds(b, seenL, c)| + |Preds(b, seenR, c)| == Start(b, 256 * c + s + 1) - Start(b, 256 * c + s)
  {
    assert Unfold(0);
    Full(b, s, LeftPart(b, s, was), seenL, RightPart(b, s, was), seenR, c, z);
  }

  lemma {:induction false} SettledKey(b: seq<int>, s: int, done: seq<bool>, was: seq<int>, f: seq<int>, seenL: seq<int>,
      seenR: seq<int>, c: int, i: nat)
    requires Settled(b, s, done, was, f, seenL, seenR) && i < |Merged(b, seenL, seenR, c)|
    ensures 0 <= Merged(b, seenL, seenR, c)[i] < |b| && Key(b, Merged(b, seenL, seenR, c)[i]) == 256 * c + s
  {
    assert Unfold(0);
    MergedBelongs(b, s, LeftPart(b, s, was), seenL, RightPart(b, s, was), seenR, c, i);
  }

  lemma {:induction false} AlongAt(b: seq<int>, m: seq<int>, up: bool, i: nat, j: nat)
    requires Along(b, m, up) && i < j < |m|
    ensures 0 <= m[i] < |b| && 0 <= m[j] < |b| && InDirection(b, m[i], m[j], up)
  {
  }

  lemma {:induction false} SettledBucket(b: seq<int>, s: int, done: seq<bool>, was: seq<int>, f: seq<int>,
      seenL: seq<int>, seenR: seq<int>, c: int, z: nat)
    requires Settled(b, s, done, was, f, seenL, seenR) && Bytes(b) && 0 <= c < 256 && !done[c] && z < |b| && b[z] != s
    ensures var lo, hi := Start(b, 256 * c + s), Start(b, 256 * c + s + 1); lo <= hi <= |f| && f[lo..hi] == Merged(b, seenL, seenR, c)
  {
    var lo, hi, l, r := Start(b, 256 * c + s), Start(b, 256 * c + s + 1), Preds(b, seenL, c), Preds(b, seenR, c);
    ScanBucket(b, s, done, was, f, seenL, seenR, c);
    SettledFull(b, s, done, was, f, seenL, seenR, c, z);
    assert f[lo..hi] == f[lo..lo + |l|] + f[hi - |r|..hi];
  }

  /** A row of such a bucket, and two of them. */
  lemma {:induction false} SettledRow(b: seq<int>, s: int, done: seq<bool>, was: seq<int>, f: seq<int>, seenL: seq<int>,
      seenR: seq<int>, c: int, z: nat, p: nat)
    requires Settled(b, s, done, was, f, seenL, seenR) && Bytes(b) && 0 <= c < 256 && !done[c] && z < |b| && b[z] != s
        && InBucket(b, s, c, p)
    ensures p < |f| && 0 <= f[p] < |b| && Key(b, f[p]) == 256 * c + s
  {
    var lo, hi := Start(b, 256 * c + s), Start(b, 256 * c + s + 1);
    SettledBucket(b, s, done, was, f, seenL, seenR, c, z);
    assert f[p] == f[lo..hi][p - lo];
    SettledKey(b, s, done, was, f, seenL, seenR, c, p - lo);
  }

  lemma {:induction false} SettledOrder(b: seq<int>, s: int, done: seq<bool>, was: seq<int>, f: seq<int>,
      seenL: seq<int>, seenR: seq<int>, c: int, z: nat, p: nat, q: nat)
    requires Settled(b, s, done, was, f, seenL, seenR) && Bytes(b) && 0 <= c < 256 && !done[c] && z < |b| && b[z] != s
    requires p < q && InBucket(b, s, c, p) && InBucket(b, s, c, q)
    ensures q < |f| && 0 <= f[p] < |b| && 0 <= f[q] < |b| && InDirection(b, f[p], f[q], false)
  {
    var lo, hi, m := Start(b, 256 * c + s), Start(b, 256 * c + s + 1), Merged(b, seenL, seenR, c);
    SettledBucket(b, s, done, was, f, seenL, seenR, c, z);
    SettledAlong(b, s, done, was, f, seenL, seenR, c);
    assert f[p] == f[lo..hi][p - lo] && f[q] == f[lo..hi][q - lo];
    AlongAt(b, m, false, p - lo, q - lo);
  }

  lemma {:induction false} UntouchedRow(b: seq<int>, s: int, done: seq<bool>, was: seq<int>, f: seq<int>,
      seenL: seq<int>, seenR: seq<int>, p: nat)
    requires Scanning(b, s, done, was, f, seenL, seenR) && p < |f| && !Touched(b, s, done, p)
    ensures f[p] == was[p]
  {
    assert Unfold(0);
  }

  /** Every row holds a place of its bucket. */
  lemma {:induction false} RowInPlace(b: seq<int>, s: int, done: seq<bool>, was: seq<int>, f: seq<int>, seenL: seq<int>,
      seenR: seq<int>, z: nat, p: nat)
    requires Settled(b, s, done, was, f, seenL, seenR) && Bytes(b) && Bucketed(b, was) && z < |b| && b[z] != s
        && p < |f|
    ensures 0 <= f[p] < |b| && Start(b, Key(b, f[p])) <= p < Start(b, Key(b, f[p]) + 1)
  {
    if Touched(b, s, done, p) {
      var c :| 0 <= c < |done| && !done[c] && InBucket(b, s, c, p);
      SettledRow(b, s, done, was, f, seenL, seenR, c, z, p);
    } else {
      UntouchedRow(b, s, done, was, f, seenL, seenR, p);
    }
  }

  /** No two rows hold the same place. */
  lemma {:induction false} RowsDiffer(b: seq<int>, s: int, done: seq<bool>, was: seq<int>, f: seq<int>, seenL: seq<int>,
      seenR: seq<int>, z: nat, p: nat, q: nat)
    requires Settled(b, s, done, was, f, seenL, seenR) && Bytes(b) && Bucketed(b, was) && z < |b| && b[z] != s
        && p < q < |f|
    ensures f[p] != f[q]
  {
    RowInPlace(b, s, done, was, f, seenL, seenR, z, p);
    RowInPlace(b, s, done, was, f, seenL, seenR, z, q);
    if f[p] == f[q] {
      var k := Key(b, f[p]);
      var c := b[f[p]];
      if b[Next(|b|, f[p])] == s && !done[c] {
        assert k == 256 * c + s;
        SettledOrder(b, s, done, was, f, seenL, seenR, c, z, p, q);
      } else {
        SameUntouched(b, s, done, was, f, seenL, seenR, z, p);
        SameUntouched(b, s, done, was, f, seenL, seenR, z, q);
      }
    }
  }

  lemma {:induction false} SameUntouched(b: seq<int>, s: int, done: seq<bool>, was: seq<int>, f: seq<int>,
      seenL: seq<int>, seenR: seq<int>, z: nat, p: nat)
    requires Settled(b, s, done, was, f, seenL, seenR) && Bytes(b) && z < |b| && b[z] != s && p < |f|
    requires 0 <= f[p] < |b| && (b[Next(|b|, f[p])] != s || (0 <= b[f[p]] < 256 && done[b[f[p]]]))
    ensures f[p] == was[p]
  {
    assert 0 <= b[f[p]] < 256 && 0 <= b[Next(|b|, f[p])] < 256;
    if Touched(b, s, done, p) {
      var c :| 0 <= c < |done| && !done[c] && InBucket(b, s, c, p);
      SettledRow(b, s, done, was, f, seenL, seenR, c, z, p);
    } else {
      UntouchedRow(b, s, done, was, f, seenL, seenR, p);
    }
  }

  /** The places stay in their buckets. */
  lemma {:induction false} StillBucketed(b: seq<int>, s: int, done: seq<bool>, was: seq<int>, f: seq<int>,
      seenL: seq<int>, seenR: seq<int>, z: nat)
    requires Settled(b, s, done, was, f, seenL, seenR) && Bytes(b) && Bucketed(b, was) && z < |b| && b[z] != s
    ensures Bucketed(b, f)
  {
    forall p {:trigger f[p]} | 0 <= p < |f|
      ensures 0 <= f[p] < |b| && Start(b, Key(b, f[p])) <= p < Start(b, Key(b, f[p]) + 1)
    {
      RowInPlace(b, s, done, was, f, seenL, seenR, z, p);
    }
    forall p, q | 0 <= p < q < |f|
      ensures f[p] != f[q]
    {
      RowsDiffer(b, s, done, was, f, seenL, seenR, z, p, q);
    }
  }

  /** The buckets that were filled are sorted. */
  lemma {:induction false} FilledSorted(b: seq<int>, s: int, done: seq<bool>, was: seq<int>, f: seq<int>,
      seenL: seq<int>, seenR: seq<int>, z: nat, c: int)
    requires Settled(b, s, done, was, f, seenL, seenR) && Bytes(b) && z < |b| && b[z] != s && 0 <= c < 256 && !done[c]
    ensures SmallSorted(b, f, c, s)
  {
    forall p, q {:trigger f[p], f[q]} | Start(b, 256 * c + s) <= p < q < Start(b, 256 * c + s + 1) && q < |f|
        && AllIn(f, Ranks(b))
      ensures Ranks(b)[f[p]] <= Ranks(b)[f[q]]
    {
      SettledOrder(b, s, done, was, f, seenL, seenR, c, z, p, q);
    }
  }

  /** A small bucket that the scans do not write to. */
  ghost predicate Elsewhere(s: int, done: seq<bool>, c: int, j: int) {
    |done| == 256 && 0 <= c < 256 && 0 <= j < 256 && (j != s || done[c])
  }

  /** The other buckets are as they were. */
  lemma {:induction false} KeptSorted(b: seq<int>, s: int, done: seq<bool>, was: seq<int>, f: seq<int>, seenL: seq<int>,
      seenR: seq<int>, c: int, j: int)
    requires Scanning(b, s, done, was, f, seenL, seenR) && Bucketed(b, was) && Elsewhere(s, done, c, j)
        && SmallSorted(b, was, c, j)
    ensures SmallSorted(b, f, c, j)
  {
    var k := 256 * c + j;
    assert AllIn(was, Ranks(b));
    forall p, q {:trigger f[p], f[q]} | Start(b, k) <= p < q < Start(b, k + 1) && q < |f| && AllIn(f, Ranks(b))
      ensures Ranks(b)[f[p]] <= Ranks(b)[f[q]]
    {
      NotTouched(b, s, done, c, j, p);
      NotTouched(b, s, done, c, j, q);
      UntouchedRow(b, s, done, was, f, seenL, seenR, p);
      UntouchedRow(b, s, done, was, f, seenL, seenR, q);
    }
  }

  lemma {:induction false} NotTouched(b: seq<int>, s: int, done: seq<bool>, c: int, j: int, p: int)
    requires 0 <= s < 256 && Elsewhere(s, done, c, j) && Start(b, 256 * c + j) <= p < Start(b, 256 * c + j + 1)
    ensures !Touched(b, s, done, p)
  {
    var k := 256 * c + j;
    forall d | 0 <= d < |done| && !done[d]
      ensures !InBucket(b, s, d, p)
    {
      var m := 256 * d + s;
      assert m != k;
      if m < k { StartMonotone(b, m + 1, k); } else { StartMonotone(b, k + 1, m); }
    }
  }

  // ---------------------------------------------------------------- a block of one byte

  lemma {:induction false} AllOneByte(b: seq<int>, s: int, x: nat, y: nat, k: nat)
    requires x < |b| && y < |b| && forall z :: 0 <= z < |b| ==> b[z] == s
    ensures Cmp(b, x, y, k) == 0
    decreases k
  {
    if k > 0 {
      AllOneByte(b, s, Next(|b|, x), Next(|b|, y), k - 1);
    }
  }

  lemma {:induction false} NoneGoes(b: seq<int>, s: int)
    requires forall z :: 0 <= z < |b| ==> b[z] == s
    ensures forall x, up {:trigger Goes(b, s, up, x, 0)} :: !Goes(b, s, up, x, 0)
  {
  }

  lemma {:induction false} FirstGoes(b: seq<int>, s: int, up: bool, part: seq<int>, seen: seq<int>)
    requires Scanned(b, s, up, part, seen)
    ensures seen == [] || Goes(b, s, up, seen[0], 0)
  {
  }

  lemma {:induction false} NothingSeen(b: seq<int>, s: int, done: seq<bool>, was: seq<int>, f: seq<int>,
      seenL: seq<int>, seenR: seq<int>)
    requires Scanning(b, s, done, was, f, seenL, seenR) && forall z :: 0 <= z < |b| ==> b[z] == s
    ensures f == was && seenL == [] && seenR == []
  {
    assert Unfold(0);
    FirstGoes(b, s, false, LeftPart(b, s, was), seenL);
    FirstGoes(b, s, true, RightPart(b, s, was), seenR);
    NoneGoes(b, s);
  }

  /** Then nothing is scanned and nothing written, and all rotations are equal. */
  lemma {:induction false} OneByteSorted(b: seq<int>, s: int, done: seq<bool>, was: seq<int>, f: seq<int>,
      seenL: seq<int>, seenR: seq<int>, k: int)
    requires Scanning(b, s, done, was, f, seenL, seenR) && forall z :: 0 <= z < |b| ==> b[z] == s
    ensures f == was && seenL == [] && seenR == [] && BucketSorted(b, Ranks(b), f, k)
  {
    NothingSeen(b, s, done, was, f, seenL, seenR);
    forall p, q {:trigger f[p], f[q]} | Start(b, k) <= p < q < Start(b, k + 1) && q < |f| && AllIn(f, Ranks(b))
      ensures Ranks(b)[f[p]] <= Ranks(b)[f[q]]
    {
      AllOneByte(b, s, f[p], f[q], |b|);
      RankOrder(b, f[p], f[q]);
    }
  }

  // ---------------------------------------------------------------- the whole step

  /** What the step leaves: the buckets of all bytes before s sorted, and the others as they were. */
  ghost predicate StepDone(b: seq<int>, s: int, done: seq<bool>, was: seq<int>, f: seq<int>) {
    && Bucketed(b, f)
    && (forall c {:trigger SmallSorted(b, f, c, s)} :: 0 <= c < |done| && !done[c] ==> SmallSorted(b, f, c, s))
    && (forall c, j {:trigger SmallSorted(b, f, c, j)} :: Elsewhere(s, done, c, j) && SmallSorted(b, was, c, j) ==> SmallSorted(b, f, c, j))
  }

  lemma {:induction false} WholeStep(b: seq<int>, s: int, done: seq<bool>, was: seq<int>, f: seq<int>, seenL: seq<int>,
      seenR: seq<int>)
    requires Settled(b, s, done, was, f, seenL, seenR) && Bytes(b) && Bucketed(b, was)
    ensures StepDone(b, s, done, was, f)
  {
    if z :| 0 <= z < |b| && b[z] != s {
      StillBucketed(b, s, done, was, f, seenL, seenR, z);
      forall c {:trigger SmallSorted(b, f, c, s)} | 0 <= c < |done| && !done[c]
        ensures SmallSorted(b, f, c, s)
      {
        FilledSorted(b, s, done, was, f, seenL, seenR, z, c);
      }
    } else {
      NothingSeen(b, s, done, was, f, seenL, seenR);
      forall c {:trigger SmallSorted(b, f, c, s)} | 0 <= c < |done| && !done[c]
        ensures SmallSorted(b, f, c, s)
      {
        OneByteSorted(b, s, done, was, f, seenL, seenR, 256 * c + s);
      }
    }
    forall c, j {:trigger SmallSorted(b, f, c, j)} | Elsewhere(s, done, c, j) && SmallSorted(b, was, c, j)
      ensures SmallSorted(b, f, c, j)
    {
      KeptSorted(b, s, done, was, f, seenL, seenR, c, j);
    }
  }
}
