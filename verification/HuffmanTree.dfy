/** Length-limited Huffman code lengths: BZ2_hbMakeCodeLengths of huffman.c. */
module HuffmanTree {
  import opened Common
  import opened CanonicalCode
  import opened HuffmanHeap
  import opened HuffmanForest
  import opened HuffmanOptimal

  // ---------------------------------------------------------------- building the tree

  method Link(parent: array<int>, weight: array<int>, n1: nat, n2: nat, nNodes: nat)
    requires parent != weight && nNodes + 1 < parent.Length && nNodes + 1 < weight.Length && n1 <= nNodes
        && n2 <= nNodes
    modifies parent, weight
    ensures parent[..nNodes + 2] == Join(old(parent[..nNodes + 1]), n1, n2)
    ensures weight[..nNodes + 2] == old(weight[..nNodes + 1]) + [old(AddWeights(weight[n1], weight[n2]))]
    ensures weight[..nNodes + 1] == old(weight[..nNodes + 1])
  {
    parent[n1] := nNodes + 1;
    parent[n2] := nNodes + 1;
    weight[nNodes + 1] := AddWeights(weight[n1], weight[n2]);
    parent[nNodes + 1] := -1;
  }

  lemma {:induction false} LightestTwo(p: seq<int>, w: seq<int>, n: nat, r: set<int>, last: int, a: nat, b: nat)
    requires Growing(p, w, n, r, last) && Total(w, n) < 0x80_0000 && Lightest(w, r, a, b)
    ensures LightTwo(p, w, a, b) && WeightAt(p, w, n, a) == w[a] / 256 && WeightAt(p, w, n, b) == w[b] / 256
    ensures AddWeights(w[a], w[b]) / 256 == w[a] / 256 + w[b] / 256
  {
    MergeRoots(p, w, n, r, last, a, b);
    assert Unfold(0);
    assert Sound(p, w, n, r, last, a) && Sound(p, w, n, r, last, b);
    forall k | 1 <= k < |p| && p[k] == -1
      ensures k in r
    {
      assert Sound(p, w, n, r, last, k);
    }
  }

  lemma {:induction false} RootsWeigh(p: seq<int>, w: seq<int>, n: nat, r: set<int>, last: int)
    requires Growing(p, w, n, r, last)
    ensures forall k :: 1 <= k < |p| && p[k] == -1 ==> w[k] >= 0
  {
    assert Unfold(0);
    forall k | 1 <= k < |p| && p[k] == -1
      ensures w[k] >= 0
    {
      assert Sound(p, w, n, r, last, k);
    }
  }

  /** Takes the two lightest trees and puts their join back. */
  method MergeOne(heap: array<int>, parent: array<int>, weight: array<int>, nNodes: nat, nHeap: nat,
                  ghost n: nat, ghost r: set<int>, ghost last: int) returns (ghost r': set<int>, ghost last': int)
    requires heap != parent && heap != weight && parent != weight
    requires heap.Length > nHeap >= 2 && nNodes + 1 < parent.Length && nNodes + 1 < weight.Length
    requires Growing(parent[..nNodes + 1], weight[..nNodes + 1], n, r, last)
        && Total(weight[..nNodes + 1], n) < 0x80_0000
    requires OnHeap(heap[..], nHeap, weight[..nNodes + 1], r)
    requires Thrifty(parent[..nNodes + 1], weight[..nNodes + 1], n)
    modifies heap, parent, weight
    ensures Growing(parent[..nNodes + 2], weight[..nNodes + 2], n, r', last')
    ensures Thrifty(parent[..nNodes + 2], weight[..nNodes + 2], n)
    ensures weight[..nNodes + 1] == old(weight[..nNodes + 1])
    ensures OnHeap(heap[..], nHeap - 1, weight[..nNodes + 2], r')
  {
    ghost var p, w := parent[..nNodes + 1], weight[..nNodes + 1];
    var n1, n2 := PopTwo(heap, weight[..nNodes + 1], nHeap, p, n, r, last);
    Merge(p, w, n, r, last, n1, n2);
    LightestTwo(p, w, n, r, last, n1, n2);
    MergeThrifty(p, w, n, n1, n2, AddWeights(w[n1], w[n2]));
    r', last' := r - {n1} - {n2} + {nNodes + 1}, w[n2] / 256;
    Link(parent, weight, n1, n2, nNodes);
    FreshNode(p, w, n, r, last, AddWeights(w[n1], w[n2]), r - {n1} - {n2});
    var w2 := weight[..nNodes + 2];
    ghost var p2 := parent[..nNodes + 2];
    assert Growing(p2, w2, n, r', last') && Thrifty(p2, w2, n);
    Push(heap, w, w2, nHeap - 2, nNodes + 1, r - {n1} - {n2});
    assert weight[..nNodes + 2] == w2 && parent[..nNodes + 2] == p2 && weight[..nNodes + 1] == w;
  }

  /** Takes the two lightest trees off the heap. */
  method PopTwo(heap: array<int>, w: seq<int>, nHeap: nat, ghost p: seq<int>, ghost n: nat, ghost r: set<int>,
      ghost last: int) returns (n1: int, n2: int)
    requires nHeap >= 2 && Growing(p, w, n, r, last) && Total(w, n) < 0x80_0000 && OnHeap(heap[..], nHeap, w, r)
    modifies heap
    ensures Lightest(w, r, n1, n2) && OnHeap(heap[..], nHeap - 2, w, r - {n1} - {n2})
    ensures 1 <= n1 < |p| && 1 <= n2 < |p| && AddWeights(w[n1], w[n2]) >= 256
  {
    n1 := Pop(heap, w, nHeap, r);
    n2 := Pop(heap, w, nHeap - 1, r - {n1});
    MergeRoots(p, w, n, r, last, n1, n2);
  }

  lemma {:induction false} FreshNode(p: seq<int>, w: seq<int>, n: nat, r: set<int>, last: int, v: int, s: set<int>)
    requires Growing(p, w, n, r, last) && s <= r && v >= 256
    ensures Fresh(w, w + [v], s, |w|)
  {
    assert Unfold(0);
    forall y | y in s
      ensures (w + [v])[y] > 0
    {
      assert Sound(p, w, n, r, last, y);
    }
  }

  /** The leaves on their own. */
  lemma {:induction false} LeafSums(p: seq<int>, w: seq<int>, n: nat, k: nat)
    requires Forest(p) && n < |p| == |w| && 1 <= k < |p| && forall i :: 1 <= i < |p| ==> p[i] == -1
    ensures KraftAt(p, n, k) == if k <= n then 1.0 else 0.0
    ensures WeightAt(p, w, n, k) == if k <= n then w[k] / 256 else 0
  {
    if n > 0 {
      LeafSums(p, w, n - 1, k);
    }
  }

  lemma {:induction false} LeavesGrow(p: seq<int>, w: seq<int>, n: nat)
    requires |p| == |w| == n + 1 && p[0] == -2 && w[0] == 0
    requires forall i :: 1 <= i <= n ==> p[i] == -1 && w[i] % 256 == 0 && w[i] >= 256
    ensures Growing(p, w, n, Interval(1, n + 1), 1)
  {
    forall k {:trigger Sound(p, w, n, Interval(1, n + 1), 1, k)} | 1 <= k <= n
      ensures Sound(p, w, n, Interval(1, n + 1), 1, k)
    {
      LeafSums(p, w, n, k);
    }
  }

  ghost predicate Leaves(w: seq<int>, n: nat) {
    n < |w| && forall i :: 1 <= i <= n ==> w[i] % 256 == 0 && w[i] >= 256
  }

  lemma {:induction false} FreshLeaf(w: seq<int>, n: nat, i: nat)
    requires Leaves(w, n) && w[0] == 0 && 1 <= i <= n
    ensures Fresh(w, w, Interval(1, i), i)
  {
  }

  lemma IntervalStep(i: nat)
    ensures Interval(1, i + 1) == if i >= 1 then Interval(1, i) + {i} else {}
  {
  }

  method HeapLeaf(heap: array<int>, w: seq<int>, ghost n: nat, i: nat)
    requires Leaves(w, n) && w[0] == 0 && 1 <= i <= n && i < heap.Length && OnHeap(heap[..], i - 1, w, Interval(1, i))
    modifies heap
    ensures OnHeap(heap[..], i, w, Interval(1, i + 1))
  {
    FreshLeaf(w, n, i);
    IntervalStep(i);
    Push(heap, w, w, i - 1, i, Interval(1, i));
  }

  ghost predicate AllRoots(p: seq<int>, n: nat) {
    n < |p| && p[0] == -2 && forall i :: 1 <= i <= n ==> p[i] == -1
  }

  /** Makes every leaf a tree of its own and heaps them. */
  method PlantLeaves(heap: array<int>, parent: array<int>, weight: array<int>, n: nat)
    requires heap != parent && heap != weight && parent != weight
    requires n + 1 < heap.Length && n < parent.Length && n < weight.Length && Leaves(weight[..], n)
    modifies heap, parent, weight
    ensures weight[1..n + 1] == old(weight[1..n + 1])
    ensures Growing(parent[..n + 1], weight[..n + 1], n, Interval(1, n + 1), 1)
    ensures Thrifty(parent[..n + 1], weight[..n + 1], n)
    ensures OnHeap(heap[..], n, weight[..n + 1], Interval(1, n + 1))
  {
    heap[0] := 0;
    weight[0] := 0;
    parent[0] := -2;
    var w := weight[..n + 1];
    assert w[1..] == old(weight[1..n + 1]);
    LeavesKept(old(weight[..]), w, n);
    HeapLeaves(heap, parent, w, n);
    assert weight[..n + 1] == w;
    assert w[1..] == weight[1..n + 1];
    LeavesGrow(parent[..n + 1], w, n);
    LeavesThrifty(parent[..n + 1], w, n);
  }

  lemma {:induction false} NoLeaves(h: seq<int>, w: seq<int>)
    requires |h| > 0 && h[0] == 0 && |w| > 0
    ensures OnHeap(h, 0, w, {})
  {
  }

  method HeapLeaves(heap: array<int>, parent: array<int>, w: seq<int>, n: nat)
    requires heap != parent && n + 1 < heap.Length && n < parent.Length && heap[0] == 0 && parent[0] == -2
    requires Leaves(w, n) && w[0] == 0
    modifies heap, parent
    ensures AllRoots(parent[..], n) && OnHeap(heap[..], n, w, Interval(1, n + 1))
  {
    IntervalStep(0);
    NoLeaves(heap[..], w);
    for i := 1 to n + 1
      invariant AllRoots(parent[..], i - 1)
      invariant OnHeap(heap[..], i - 1, w, Interval(1, i))
    {
      parent[i] := -1;
      assert AllRoots(parent[..], i);
      HeapLeaf(heap, w, n, i);
    }
  }

  lemma {:induction false} LeavesKept(w: seq<int>, w': seq<int>, n: nat)
    requires Leaves(w, n) && n < |w'| && w[1..n + 1] == w'[1..n + 1]
    ensures Leaves(w', n)
  {
    forall i | 1 <= i <= n
      ensures w'[i] == w[i]
    {
      assert w[1..n + 1][i - 1] == w'[1..n + 1][i - 1];
    }
  }

  lemma {:induction false} LastRoot(h: seq<int>, p: seq<int>, w: seq<int>, n: nat, r: set<int>, last: int)
    requires Growing(p, w, n, r, last) && OnHeap(h, 1, w, r)
    ensures Forest(p) && forall i {:trigger Root(p, i)} :: 1 <= i <= n ==> Root(p, i) == h[1]
    ensures h[1] in r
  {
    assert Unfold(0);
    assert Entry(h, 1) == h[1];
    forall i {:trigger Root(p, i)} | 1 <= i <= n
      ensures Root(p, i) == h[1]
    {
      assert Sound(p, w, n, r, last, Root(p, i));
      assert Stands(h, 1, Root(p, i));
    }
  }

  lemma {:induction false} OneTree(p: seq<int>, w: seq<int>, n: nat, m: nat, x: int)
    requires Forest(p) && m <= n < |p| == |w| && forall i {:trigger Root(p, i)} :: 1 <= i <= n ==> Root(p, i) == x
    ensures WeightAt(p, w, m, x) == Total(w, m)
  {
    if m > 0 {
      OneTree(p, w, n, m - 1, x);
    }
  }

  /** One tree over the leaves 1..n: a complete code no deeper than the weights allow. */
  ghost predicate Tree(p: seq<int>, w: seq<int>, n: nat) {
    && Forest(p) && n < |p| == |w|
    && exists x :: Grown(p, w, n, x)
  }

  ghost predicate Grown(p: seq<int>, w: seq<int>, n: nat, x: int)
    requires Forest(p) && n < |p| == |w|
  {
    && 1 <= x < |p| && Fib(w[x] % 256 + 2) <= Total(w, n) && KraftAt(p, n, x) == 1.0
    && forall i {:trigger Root(p, i)} :: 1 <= i <= n ==> Root(p, i) == x && Depth(p, i) <= w[x] % 256
  }

  lemma {:induction false} GrownDepths(p: seq<int>, w: seq<int>, n: nat, r: set<int>, last: int, x: int)
    requires Growing(p, w, n, r, last) && Forest(p) && x in r && WeightAt(p, w, n, x) == Total(w, n)
    requires forall i {:trigger Root(p, i)} :: 1 <= i <= n ==> Root(p, i) == x
    ensures Grown(p, w, n, x)
  {
    assert Unfold(0);
    assert Sound(p, w, n, r, last, x);
    forall i {:trigger Root(p, i)} | 1 <= i <= n
      ensures Depth(p, i) <= w[x] % 256
    {
      assert Sound(p, w, n, r, last, i);
    }
  }

  /** No lengths for the leaves with Kraft sum 1 cost less than their depths. */
  ghost predicate Cheapest(p: seq<int>, w: seq<int>, n: nat) {
    Thrifty(p, w, n) && forall k :: 1 <= k < |p| && p[k] == -1 ==> w[k] >= 0
  }

  /** Joins trees until one is left. */
  method GrowTree(heap: array<int>, parent: array<int>, weight: array<int>, n: nat)
    requires heap != parent && heap != weight && parent != weight && n >= 2
    requires n + 1 < heap.Length && 2 * n <= parent.Length && 2 * n <= weight.Length
    requires Leaves(weight[..], n)
    requires Total(weight[..], n) < 0x80_0000
    modifies heap, parent, weight
    ensures weight[1..n + 1] == old(weight[1..n + 1])
    ensures Tree(parent[..2 * n], weight[..2 * n], n) && Total(weight[..2 * n], n) == old(Total(weight[..], n))
    ensures Cheapest(parent[..2 * n], weight[..2 * n], n)
  {
    ghost var w0 := weight[..];
    PlantLeaves(heap, parent, weight, n);
    var nNodes, nHeap := n, n;
    ghost var r, last := Interval(1, n + 1), 1;
    TotalPrefix(w0, weight[..n + 1], n) by { assert w0[1..n + 1] == weight[1..n + 1]; }
    while nHeap > 1
      invariant 1 <= nHeap <= n && nNodes == 2 * n - nHeap
      invariant Growing(parent[..nNodes + 1], weight[..nNodes + 1], n, r, last)
      invariant Thrifty(parent[..nNodes + 1], weight[..nNodes + 1], n)
      invariant OnHeap(heap[..], nHeap, weight[..nNodes + 1], r)
      invariant weight[1..n + 1] == w0[1..n + 1] && Total(weight[..nNodes + 1], n) == Total(w0, n)
      decreases nHeap
    {
      ghost var before := weight[..nNodes + 1];
      r, last := MergeOne(heap, parent, weight, nNodes, nHeap, n, r, last);
      nNodes, nHeap := nNodes + 1, nHeap - 1;
      assert weight[1..n + 1] == before[1..n + 1];
      TotalPrefix(before, weight[..nNodes + 1], n);
    }
    ghost var p, w, x := parent[..2 * n], weight[..2 * n], heap[1];
    RootsWeigh(parent[..2 * n], weight[..2 * n], n, r, last);
    LastRoot(heap[..], p, w, n, r, last);
    OneTree(p, w, n, n, x);
    GrownDepths(p, w, n, r, last, x);
    assert Grown(p, w, n, x);
  }

  // ---------------------------------------------------------------- reading off the lengths

  ghost predicate Depths(lens: seq<int>, p: seq<int>, m: nat)
    requires Forest(p) && m < |p| && m <= |lens|
  {
    forall i {:trigger Depth(p, i)} :: 1 <= i <= m ==> lens[i - 1] == Depth(p, i)
  }

  /** How far leaf i stands below its root. */
  method Climb(parent: array<int>, i: nat, ghost size: nat) returns (j: nat)
    requires size <= parent.Length && Forest(parent[..size]) && 1 <= i < size
    ensures j == Depth(parent[..size], i)
  {
    j := 0;
    var k: nat := i;
    ghost var p := parent[..size];
    while parent[k] >= 0
      invariant 1 <= k < size && j + Depth(p, k) == Depth(p, i)
      decreases size - k
    {
      assert Up(p, k) == parent[k];
      k := parent[k];
      j := j + 1;
    }
    assert Up(p, k) == parent[k];
  }

  ghost predicate Exceeds(lens: seq<int>, m: nat, maxLen: nat) {
    exists k :: 0 <= k < m <= |lens| && lens[k] > maxLen
  }

  lemma ExceedsStep(lens: seq<int>, m: nat, j: int, maxLen: nat)
    requires m < |lens|
    ensures Exceeds(lens[m := j], m + 1, maxLen) <==> Exceeds(lens, m, maxLen) || j > maxLen
  {
    var after := lens[m := j];
    if Exceeds(lens, m, maxLen) {
      var k :| 0 <= k < m && lens[k] > maxLen;
      assert after[k] > maxLen;
    }
    if j > maxLen {
      assert after[m] > maxLen;
    }
  }

  method ReadLengths(len: array<int>, parent: array<int>, n: nat, maxLen: nat, ghost size: nat) returns (tooLong: bool)
    requires len != parent && n <= len.Length && n < size <= parent.Length && Forest(parent[..size])
    modifies len
    ensures Depths(len[..n], parent[..size], n) && parent[..size] == old(parent[..size])
    ensures tooLong == Exceeds(len[..n], n, maxLen)
  {
    tooLong := false;
    ghost var p := parent[..size];
    for i := 1 to n + 1
      invariant parent[..size] == p && Depths(len[..n], p, i - 1)
      invariant tooLong == Exceeds(len[..n], i - 1, maxLen)
    {
      var j := Climb(parent, i, size);
      ghost var was := len[..n];
      len[i - 1] := j;
      assert len[..n] == was[i - 1 := j];
      ExceedsStep(was, i - 1, j, maxLen);
      if j > maxLen { tooLong := true; }
    }
  }

  lemma {:induction false} KraftOfTree(lens: seq<int>, p: seq<int>, n: nat, m: nat, x: int)
    requires Forest(p) && m <= n < |p| && n == |lens| && Depths(lens, p, n)
    requires forall i :: 0 <= i < |lens| ==> lens[i] >= 0
    requires forall i {:trigger Root(p, i)} :: 1 <= i <= n ==> Root(p, i) == x
    ensures Kraft(lens, m) == KraftAt(p, m, x)
  {
    if m > 0 {
      KraftOfTree(lens, p, n, m - 1, x);
      assert lens[m - 1] == Depth(p, m);
    }
  }

  /** In a tree over at least two leaves no leaf is the root. */
  lemma {:induction false} LeafDeep(p: seq<int>, n: nat, i: nat, x: int)
    requires Forest(p) && 2 <= n < |p| && 1 <= i <= n && forall k {:trigger Root(p, k)} :: 1 <= k <= n ==> Root(p, k) == x
    requires x > n
    ensures Depth(p, i) >= 1
  {
    assert Root(p, i) == x;
  }

  lemma {:induction false} RootIsNoLeaf(p: seq<int>, n: nat, x: int)
    requires Forest(p) && 2 <= n < |p| && KraftAt(p, n, x) == 1.0 && forall k {:trigger Root(p, k)} :: 1 <= k <= n ==> Root(p, k) == x
    ensures x > n
  {
    if x <= n {
      var o := if x == 1 then 2 else 1;
      assert Root(p, o) == x && Root(p, x) == x;
      KraftBoth(p, n, x, o, n);
    }
  }

  /** A leaf that is its own root already makes the sum 1. */
  lemma {:induction false} KraftBoth(p: seq<int>, n: nat, x: int, o: nat, m: nat)
    requires Forest(p) && m <= n < |p| && 1 <= x <= n && 1 <= o <= n && x != o && Root(p, x) == x && Root(p, o) == x
    ensures KraftAt(p, m, x) >= (if x <= m then 1.0 else 0.0)
    ensures x <= m && o <= m ==> KraftAt(p, m, x) > 1.0
    ensures o <= m ==> KraftAt(p, m, x) > 0.0
  {
    if m > 0 {
      KraftBoth(p, n, x, o, m - 1);
      if m == x { RootItself(p, x); }
    }
  }

  lemma {:induction false} RootItself(p: seq<int>, x: nat)
    requires Forest(p) && 1 <= x < |p| && Root(p, x) == x
    ensures Depth(p, x) == 0
  {
  }

  /** The lengths are those of a complete code; a length over 12 needs a total weight of at least 610. */
  lemma {:induction false} TreeLengths(lens: seq<int>, p: seq<int>, w: seq<int>, n: nat)
    requires Tree(p, w, n) && 2 <= n == |lens| && Depths(lens, p, n)
    ensures forall i :: 0 <= i < n ==> lens[i] >= 1 && Fib(lens[i] + 2) <= Total(w, n)
    ensures Kraft(lens, n) == 1.0
  {
    var x :| Grown(p, w, n, x);
    forall i | 0 <= i < n
      ensures lens[i] >= 1 && Fib(lens[i] + 2) <= Total(w, n)
    {
      RootIsNoLeaf(p, n, x);
      assert lens[i] == Depth(p, i + 1) && Root(p, i + 1) == x;
      LeafDeep(p, n, i + 1, x);
      FibMonotone(lens[i] + 2, w[x] % 256 + 2);
    }
    KraftOfTree(lens, p, n, n, x);
  }

  // ---------------------------------------------------------------- limiting the lengths

  /** The total frequency, counting unused symbols as used once. */
  ghost function FreqTotal(freq: seq<int>, n: nat): (r: int)
    requires n <= |freq|
  {
    if n == 0 then 0 else FreqTotal(freq, n - 1) + (if freq[n - 1] == 0 then 1 else freq[n - 1])
  }

  lemma {:induction false} FreqWeights(freq: seq<int>, w: seq<int>, n: nat)
    requires n <= |freq| && n < |w| && (forall i :: 0 <= i < n ==> freq[i] >= 0) && forall i :: 0 <= i < n ==> w[i + 1] == 256 * (if freq[i] == 0 then 1 else freq[i])
    ensures 0 <= Total(w, n) == FreqTotal(freq, n)
  {
    if n > 0 {
      FreqWeights(freq, w, n - 1);
      assert w[n - 1 + 1] == w[n] && freq[n - 1] >= 0;
    }
  }

  /** One round of re-weighting. */
  ghost function HalfWeights(ws: seq<int>): (r: seq<int>)
    ensures |r| == |ws| && forall i :: 0 <= i < |ws| ==> r[i] == 1 + ws[i] / 2
  {
    seq(|ws|, i requires 0 <= i < |ws| => 1 + ws[i] / 2)
  }

  /** The frequencies, unused symbols counting as used once, after k rounds of re-weighting. */
  ghost function Weighed(freq: seq<int>, k: nat): (r: seq<int>)
    ensures |r| == |freq|
  {
    if k == 0 then seq(|freq|, i requires 0 <= i < |freq| => if freq[i] == 0 then 1 else freq[i])
    else HalfWeights(Weighed(freq, k - 1))
  }

  /** k rounds of re-weighting were needed: before each of them a code of least cost had a length over maxLen. */
  ghost predicate RoundsNeeded(freq: seq<int>, maxLen: int, k: nat) {
    k == 0 || (RoundsNeeded(freq, maxLen, k - 1) && exists t :: Minimal(Weighed(freq, k - 1), t) && TooLong(t, maxLen))
  }

  /** Lengths of least cost for the frequencies, re-weighted as often as needed. */
  ghost predicate Huffman(freq: seq<int>, maxLen: int, lens: seq<int>) {
    exists k :: RoundsNeeded(freq, maxLen, k) && Minimal(Weighed(freq, k), lens)
  }

  lemma {:induction false} FirstRound(freq: seq<int>, maxLen: int, k: nat)
    requires RoundsNeeded(freq, maxLen, k) && k > 0
    ensures exists t :: Minimal(Weighed(freq, 0), t) && TooLong(t, maxLen)
  {
    if k > 1 {
      FirstRound(freq, maxLen, k - 1);
    }
  }

  /** Unless a code of least cost for the frequencies themselves is too long, the lengths are of least cost for them. */
  lemma {:induction false} NoRounds(freq: seq<int>, maxLen: int, lens: seq<int>)
    requires Huffman(freq, maxLen, lens) && forall t :: Minimal(Weighed(freq, 0), t) ==> !TooLong(t, maxLen)
    ensures Minimal(Weighed(freq, 0), lens)
  {
    var k :| RoundsNeeded(freq, maxLen, k) && Minimal(Weighed(freq, k), lens);
    if k > 0 { FirstRound(freq, maxLen, k); }
  }

  lemma {:induction false} StartWeights(freq: seq<int>, w: seq<int>, n: nat)
    requires n <= |freq| && n < |w| && forall i :: 0 <= i < n ==> w[i + 1] == 256 * (if freq[i] == 0 then 1 else freq[i])
    ensures Weights(w[1..n + 1]) == Weighed(freq[..n], 0)
  {
    forall i | 0 <= i < n
      ensures Weights(w[1..n + 1])[i] == Weighed(freq[..n], 0)[i]
    {
      assert w[1..n + 1][i] == w[i + 1];
    }
  }

  ghost predicate Halved(w: seq<int>, w': seq<int>, n: nat) {
    n < |w| && n < |w'| && forall i :: 1 <= i <= n ==> w'[i] == 256 * (1 + w[i] / 256 / 2)
  }

  /** Re-weighting lowers the total until every weight is 1 or 2. */
  lemma {:induction false} HalvingShrinks(w: seq<int>, w': seq<int>, n: nat)
    requires Halved(w, w', n) && forall i :: 1 <= i <= n ==> w[i] / 256 >= 1
    ensures n <= Total(w', n) <= Total(w, n)
    ensures Total(w', n) == Total(w, n) ==> Total(w, n) <= 2 * n
  {
    if n > 0 {
      HalvingShrinks(w, w', n - 1);
    }
  }

  lemma {:induction false} HalvedWeights(w: seq<int>, w': seq<int>, n: nat)
    requires Halved(w, w', n)
    ensures Weights(w'[1..n + 1]) == HalfWeights(Weights(w[1..n + 1]))
  {
    var ws, ws' := Weights(w[1..n + 1]), Weights(w'[1..n + 1]);
    forall k | 0 <= k < n
      ensures ws'[k] == HalfWeights(ws)[k]
    {
      assert w[1..n + 1][k] == w[k + 1] && w'[1..n + 1][k] == w'[k + 1];
    }
  }

  method Reweigh(weight: array<int>, n: nat)
    requires n < weight.Length && Leaves(weight[..], n)
    modifies weight
    ensures Leaves(weight[..], n) && 0 <= Total(weight[..], n) <= old(Total(weight[..], n))
    ensures old(Total(weight[..], n)) > 2 * n ==> Total(weight[..], n) < old(Total(weight[..], n))
    ensures Weights(weight[1..n + 1]) == HalfWeights(old(Weights(weight[1..n + 1])))
  {
    for i := 1 to n + 1
      invariant forall k :: 1 <= k < i ==> weight[k] == 256 * (1 + old(weight[k]) / 256 / 2)
      invariant forall k :: i <= k <= n ==> weight[k] == old(weight[k])
    {
      var j := weight[i] / 256;
      j := 1 + j / 2;
      weight[i] := j * 256;
    }
    assert Halved(old(weight[..]), weight[..], n);
    HalvedWeights(old(weight[..]), weight[..], n);
    assert weight[..][1..n + 1] == weight[1..n + 1] && old(weight[..][1..n + 1] == weight[1..n + 1]);
    HalvingShrinks(old(weight[..]), weight[..], n);
  }

  lemma {:induction false} NotTooLong(lens: seq<int>, p: seq<int>, w: seq<int>, n: nat, i: nat, maxLen: nat)
    requires Tree(p, w, n) && 2 <= n == |lens| <= 258 && Depths(lens, p, n) && i < n && lens[i] > maxLen >= 12
    ensures Total(w, n) > 2 * n
  {
    TreeLengths(lens, p, w, n);
    FibMonotone(15, lens[i] + 2);
    FibValues();
  }

  // ---------------------------------------------------------------- least cost

  /** The weights above the depth byte. */
  ghost function Weights(w: seq<int>): (r: seq<int>)
    ensures |r| == |w| && forall i :: 0 <= i < |w| ==> r[i] == w[i] / 256
  {
    seq(|w|, i requires 0 <= i < |w| => w[i] / 256)
  }

  /** What the lengths of the first m symbols cost: weight times length. */
  ghost function Cost(ws: seq<int>, lens: seq<int>, m: nat): (r: int)
    requires m <= |ws| && m <= |lens|
  {
    if m == 0 then 0 else Cost(ws, lens, m - 1) + ws[m - 1] * lens[m - 1]
  }

  /** No other lengths with Kraft sum 1 cost less. */
  ghost predicate Minimal(ws: seq<int>, lens: seq<int>) {
    && |ws| == |lens| && NotNegative(lens) && Kraft(lens, |lens|) == 1.0
    && forall other {:trigger Kraft(other, |other|)} :: |other| == |ws| && NotNegative(other) && Kraft(other, |other|) == 1.0
        ==> Cost(ws, lens, |ws|) <= Cost(ws, other, |ws|)
  }

  ghost predicate TooLong(lens: seq<int>, maxLen: int) {
    exists i :: 0 <= i < |lens| && lens[i] > maxLen
  }

  lemma {:induction false} CostOf(w: seq<int>, l: seq<int>, lens: seq<int>, n: nat, m: nat)
    requires m <= n < |w| && |l| == n + 1 && |lens| == n && NotNegative(l) && NotNegative(lens) && l[1..] == lens
    ensures LeafKraft(l, m) == Kraft(lens, m) && LeafCost(w, l, m) == Cost(Weights(w[1..n + 1]), lens, m)
  {
    if m > 0 {
      CostOf(w, l, lens, n, m - 1);
      assert l[m] == l[1..][m - 1] && w[1..n + 1][m - 1] == w[m];
    }
  }

  lemma {:induction false} DepthCostOf(p: seq<int>, w: seq<int>, lens: seq<int>, n: nat, m: nat)
    requires Forest(p) && m <= n < |p| == |w| && |lens| == n && Depths(lens, p, n)
    ensures DepthCost(p, w, m) == Cost(Weights(w[1..n + 1]), lens, m)
  {
    if m > 0 {
      DepthCostOf(p, w, lens, n, m - 1);
      assert lens[m - 1] == Depth(p, m) && w[1..n + 1][m - 1] == w[m];
    }
  }

  /** The depths are lengths of least cost. */
  lemma {:induction false} DepthsMinimal(lens: seq<int>, p: seq<int>, w: seq<int>, n: nat)
    requires Cheapest(p, w, n) && |lens| == n && Depths(lens, p, n) && NotNegative(lens) && Kraft(lens, n) == 1.0
    ensures Minimal(Weights(w[1..n + 1]), lens)
  {
    var ws := Weights(w[1..n + 1]);
    DepthCostOf(p, w, lens, n, n);
    forall other {:trigger Kraft(other, |other|)} | |other| == n && NotNegative(other) && Kraft(other, |other|) == 1.0
      ensures Cost(ws, lens, n) <= Cost(ws, other, n)
    {
      var l := [0] + other;
      CostOf(w, l, other, n, n);
      DepthsLeast(p, w, n, l);
    }
  }

  /** Builds the tree for the present weights and reads the lengths off it. */
  method Attempt(len: array<int>, heap: array<int>, parent: array<int>, weight: array<int>, n: nat, maxLen: nat)
      returns (tooLong: bool)
    requires len != heap && len != parent && len != weight && heap != parent && heap != weight && parent != weight
    requires 2 <= n <= 258 && heap.Length == 260 && parent.Length == 516 && weight.Length == 516 && n <= len.Length
        && maxLen >= 12
    requires Leaves(weight[..], n) && Total(weight[..], n) < 0x80_0000
    modifies len, heap, parent, weight
    ensures Leaves(weight[..], n) && Total(weight[..], n) == old(Total(weight[..], n))
    ensures tooLong ==> Total(weight[..], n) > 2 * n && TooLong(len[..n], maxLen)
    ensures !tooLong ==> Lengths(len[..n], 1, maxLen) && Kraft(len[..n], n) == 1.0
    ensures weight[1..n + 1] == old(weight[1..n + 1]) && Minimal(Weights(weight[1..n + 1]), len[..n])
  {
    ghost var w0 := weight[..];
    GrowTree(heap, parent, weight, n);
    assert w0[1..n + 1] == weight[..][1..n + 1] by { assert weight[..][1..n + 1] == weight[1..n + 1]
        && w0[1..n + 1] == old(weight[1..n + 1]); }
    LeavesKept(w0, weight[..], n);
    TotalPrefix(weight[..2 * n], weight[..], n);
    ghost var p, w := parent[..2 * n], weight[..2 * n];
    tooLong := ReadLengths(len, parent, n, maxLen, 2 * n);
    assert weight[..2 * n] == w;
    TreeLengths(len[..n], p, w, n);
    assert w[1..n + 1] == weight[1..n + 1];
    DepthsMinimal(len[..n], p, w, n);
    if tooLong {
      ghost var i :| 0 <= i < n && len[..n][i] > maxLen;
      NotTooLong(len[..n], p, w, n, i, maxLen);
    }
  }

  /** The leaves get the frequencies as weights. */
  method StartWeighing(weight: array<int>, freq: seq<int>, n: nat)
    requires n <= |freq| && n < weight.Length && forall i :: 0 <= i < n ==> freq[i] >= 0
    modifies weight
    ensures Leaves(weight[..], n) && 0 <= Total(weight[..], n) == FreqTotal(freq, n)
    ensures Weights(weight[1..n + 1]) == Weighed(freq[..n], 0)
  {
    for i := 0 to n
      invariant forall k :: 0 <= k < i ==> weight[k + 1] == 256 * (if freq[k] == 0 then 1 else freq[k])
    {
      weight[i + 1] := (if freq[i] == 0 then 1 else freq[i]) * 256;
    }
    FreqWeights(freq, weight[..], n);
    StartWeights(freq, weight[..], n);
    assert weight[..][1..n + 1] == weight[1..n + 1];
    forall i | 1 <= i <= n
      ensures weight[i] % 256 == 0 && weight[i] >= 256
    {
      assert weight[i - 1 + 1] == 256 * (if freq[i - 1] == 0 then 1 else freq[i - 1]);
    }
  }

  /** ws is what the frequencies have become after k rounds, all of which were needed. */
  ghost predicate After(freq: seq<int>, maxLen: int, k: nat, ws: seq<int>) {
    forall u {:trigger Unfold(u)} :: Unfold(u) ==> RoundsNeeded(freq, maxLen, k) && ws == Weighed(freq, k)
  }

  lemma {:induction false} OneMore(freq: seq<int>, maxLen: int, k: nat, ws: seq<int>, t: seq<int>)
    requires After(freq, maxLen, k, ws) && Minimal(ws, t) && TooLong(t, maxLen)
    ensures After(freq, maxLen, k + 1, HalfWeights(ws))
  {
    assert Unfold(0);
  }

  lemma {:induction false} RoundsDone(freq: seq<int>, maxLen: int, k: nat, ws: seq<int>, lens: seq<int>)
    requires After(freq, maxLen, k, ws) && Minimal(ws, lens)
    ensures Huffman(freq, maxLen, lens)
  {
    assert Unfold(0);
  }

  /** Every alphabet of 2 to 258 symbols whose frequencies total less than 2^23 gets a complete prefix
      code with lengths of 1 to maxLen; the re-weighting loop ends for every maxLen from 12 up. No complete code costs
      less for the frequencies, re-weighted as often as the codes of least cost before were too long. */
  method MakeCodeLengths(len: array<int>, freq: seq<int>, alphaSize: nat, maxLen: nat)
    requires 2 <= alphaSize <= 258 && alphaSize <= |freq| && alphaSize <= len.Length && maxLen >= 12
    requires (forall i :: 0 <= i < alphaSize ==> freq[i] >= 0) && FreqTotal(freq, alphaSize) < 0x80_0000
    modifies len
    ensures Lengths(len[..alphaSize], 1, maxLen)
    ensures Kraft(len[..alphaSize], alphaSize) == 1.0
    ensures Huffman(freq[..alphaSize], maxLen, len[..alphaSize])
  {
    var heap, weight, parent := new int[260], new int[516], new int[516];
    StartWeighing(weight, freq, alphaSize);
    ghost var k: nat := 0;
    while true
      invariant Leaves(weight[..], alphaSize) && 0 <= Total(weight[..], alphaSize) < 0x80_0000
      invariant After(freq[..alphaSize], maxLen, k, Weights(weight[1..alphaSize + 1]))
      decreases Total(weight[..], alphaSize)
    {
      ghost var ws := Weights(weight[1..alphaSize + 1]);
      var tooLong := Attempt(len, heap, parent, weight, alphaSize, maxLen);
      if !tooLong {
        RoundsDone(freq[..alphaSize], maxLen, k, ws, len[..alphaSize]);
        break;
      }
      OneMore(freq[..alphaSize], maxLen, k, ws, len[..alphaSize]);
      Reweigh(weight, alphaSize);
      k := k + 1;
    }
  }

  // ---------------------------------------------------------------- complete lengths make a prefix code

  /** The part of the Kraft sum that lengths up to l contribute. */
  ghost function KraftUpTo(lens: seq<int>, m: nat, l: int): (r: real)
    requires m <= |lens| && forall i :: 0 <= i < |lens| ==> lens[i] >= 0
  {
    if m == 0 then 0.0 else KraftUpTo(lens, m - 1, l) + (if lens[m - 1] <= l then Half(lens[m - 1]) else 0.0)
  }

  lemma {:induction false} KraftPart(lens: seq<int>, m: nat, l: nat)
    requires m <= |lens| && Lengths(lens, 0, 20)
    ensures KraftUpTo(lens, m, l) <= Kraft(lens, m)
    ensures Lengths(lens, 0, l) ==> KraftUpTo(lens, m, l) == Kraft(lens, m)
    ensures KraftUpTo(lens, m, l) == KraftUpTo(lens, m, l - 1) + Times(CountTo(lens, m, l), Half(l))
  {
    if m > 0 {
      KraftPart(lens, m - 1, l);
    }
  }

  lemma {:induction false} KraftNone(lens: seq<int>, m: nat)
    requires m <= |lens| && Lengths(lens, 0, 20)
    ensures KraftUpTo(lens, m, -1) == 0.0
  {
    if m > 0 {
      KraftNone(lens, m - 1);
    }
  }

  lemma {:induction false} FirstKraft(lens: seq<int>, l: nat)
    requires Lengths(lens, 0, 20)
    ensures Times(First(lens, l) + Cnt(lens, l), Half(l)) == KraftUpTo(lens, |lens|, l)
  {
    KraftPart(lens, |lens|, l);
    if l == 0 {
      KraftNone(lens, |lens|);
    } else {
      FirstKraft(lens, l - 1);
      var a := First(lens, l - 1) + Cnt(lens, l - 1);
      TimesAdd(2 * a, Cnt(lens, l), Half(l));
      TimesTwice(a, Half(l));
    }
  }

  /** A complete set of lengths leaves room for every canonical code. */
  lemma {:induction false} CompleteFits(lens: seq<int>, hi: nat)
    requires Lengths(lens, 0, hi) && hi <= 20 && Kraft(lens, |lens|) == 1.0
    ensures Fits(lens, hi)
  {
    forall l | 0 <= l <= hi
      ensures First(lens, l) + Cnt(lens, l) <= Pow2(l)
    {
      CodesFit(lens, l, hi);
    }
  }

  /** ... and leaves no code unused. */
  lemma {:induction false} NoneUnused(lens: seq<int>, hi: nat)
    requires Lengths(lens, 0, hi) && hi <= 20 && Kraft(lens, |lens|) == 1.0
    ensures First(lens, hi) + Cnt(lens, hi) == Pow2(hi)
  {
    FirstKraft(lens, hi);
    KraftPart(lens, |lens|, hi);
    HalfPow2(hi);
    CodesFit(lens, hi, hi);
    var a := First(lens, hi) + Cnt(lens, hi);
    TimesGrows(a, Pow2(hi) - a, Half(hi));
  }

  lemma {:induction false} CodesFit(lens: seq<int>, l: nat, hi: nat)
    requires Lengths(lens, 0, hi) && hi <= 20 && Kraft(lens, |lens|) == 1.0
    ensures First(lens, l) + Cnt(lens, l) <= Pow2(l)
  {
    FirstKraft(lens, l);
    KraftPart(lens, |lens|, l);
    HalfPow2(l);
    var a := First(lens, l) + Cnt(lens, l);
    if a > Pow2(l) {
      TimesGrows(Pow2(l), a - Pow2(l), Half(l));
    }
  }
}
