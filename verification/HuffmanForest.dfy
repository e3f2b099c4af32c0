/** Forests of code trees as BZ2_hbMakeCodeLengths (huffman.c) holds them, and what joining two trees does to depths,
    weights and Kraft sums. */
module HuffmanForest {
  import opened Common
  import opened HuffmanHeap

  // ---------------------------------------------------------------- forests by parent links

  /** p[k] is the parent of node k, a later node, or negative for a root; node 0 is the sentinel. */
  ghost predicate Forest(p: seq<int>) {
    |p| >= 1 && p[0] < 0 && forall k {:trigger Up(p, k)} :: 1 <= k < |p| ==> Up(p, k) == -1 || k < Up(p, k) < |p|
  }

  ghost function Up(p: seq<int>, k: int): (r: int) {
    if 0 <= k < |p| then p[k] else -1
  }

  ghost function Root(p: seq<int>, k: nat): (r: nat)
    requires Forest(p) && 1 <= k < |p|
    ensures k <= r < |p| && p[r] == -1
    decreases |p| - k
  {
    if Up(p, k) < 0 then k else Root(p, Up(p, k))
  }

  ghost function Depth(p: seq<int>, k: nat): (d: nat)
    requires Forest(p) && 1 <= k < |p|
    decreases |p| - k
  {
    if Up(p, k) < 0 then 0 else 1 + Depth(p, Up(p, k))
  }

  /** Two roots a and b under one new node. */
  ghost function Join(p: seq<int>, a: nat, b: nat): (q: seq<int>)
    requires a < |p| && b < |p|
    ensures |q| == |p| + 1
  {
    p[a := |p|][b := |p|] + [-1]
  }

  ghost predicate Roots(p: seq<int>, a: int, b: int) {
    Forest(p) && 1 <= a < |p| && 1 <= b < |p| && a != b && p[a] == -1 && p[b] == -1
  }

  lemma {:induction false} JoinClimb(p: seq<int>, a: nat, b: nat, k: nat)
    requires Roots(p, a, b) && 1 <= k < |p|
    ensures Forest(Join(p, a, b))
    ensures Root(p, k) == a || Root(p, k) == b ==>
              Root(Join(p, a, b), k) == |p| && Depth(Join(p, a, b), k) == Depth(p, k) + 1
    ensures Root(p, k) != a && Root(p, k) != b ==>
              Root(Join(p, a, b), k) == Root(p, k) && Depth(Join(p, a, b), k) == Depth(p, k)
    decreases |p| - k
  {
    var q := Join(p, a, b);
    assert forall k {:trigger Up(q, k)} :: 1 <= k < |p| && k != a && k != b ==> Up(q, k) == Up(p, k);
    if Up(p, k) >= 0 {
      JoinClimb(p, a, b, p[k]);
    } else if k == a || k == b {
      assert q[k] == |p| && q[|p|] == -1;
      assert Root(q, |p|) == |p|;
    }
  }

  // ---------------------------------------------------------------- what the leaves below a root add up to

  ghost function Half(n: nat): (r: real)
    ensures r > 0.0
  {
    if n == 0 then 1.0 else Half(n - 1) / 2.0
  }

  /** The Kraft sum of the first m lengths. */
  ghost function Kraft(lens: seq<int>, m: nat): (r: real)
    requires m <= |lens| && forall i :: 0 <= i < |lens| ==> lens[i] >= 0
  {
    if m == 0 then 0.0 else Kraft(lens, m - 1) + Half(lens[m - 1])
  }

  /** The Kraft sum of the leaves 1..n standing below root x. */
  ghost function KraftAt(p: seq<int>, n: nat, x: int): (r: real)
    requires Forest(p) && n < |p|
  {
    if n == 0 then 0.0 else KraftAt(p, n - 1, x) + (if Root(p, n) == x then Half(Depth(p, n)) else 0.0)
  }

  /** The weight, without the depth byte, of the leaves 1..n standing below root x. */
  ghost function WeightAt(p: seq<int>, w: seq<int>, n: nat, x: int): (r: int)
    requires Forest(p) && n < |p| <= |w|
  {
    if n == 0 then 0 else WeightAt(p, w, n - 1, x) + (if Root(p, n) == x then w[n] / 256 else 0)
  }

  ghost function Total(w: seq<int>, n: nat): (r: int)
    requires n < |w|
  {
    if n == 0 then 0 else Total(w, n - 1) + w[n] / 256
  }

  lemma {:induction false} JoinSums(p: seq<int>, w: seq<int>, n: nat, a: nat, b: nat, v: int)
    requires Roots(p, a, b) && n < |p| == |w|
    ensures Forest(Join(p, a, b))
    ensures KraftAt(Join(p, a, b), n, |p|) == (KraftAt(p, n, a) + KraftAt(p, n, b)) / 2.0
    ensures WeightAt(Join(p, a, b), w + [v], n, |p|) == WeightAt(p, w, n, a) + WeightAt(p, w, n, b)
  {
    JoinClimb(p, a, b, a);
    if n > 0 {
      JoinSums(p, w, n - 1, a, b, v);
      JoinClimb(p, a, b, n);
    }
  }

  lemma {:induction false} JoinOthers(p: seq<int>, w: seq<int>, n: nat, a: nat, b: nat, v: int, x: int)
    requires Roots(p, a, b) && n < |p| == |w| && 1 <= x < |p| && x != a && x != b
    ensures Forest(Join(p, a, b))
    ensures KraftAt(Join(p, a, b), n, x) == KraftAt(p, n, x)
    ensures WeightAt(Join(p, a, b), w + [v], n, x) == WeightAt(p, w, n, x)
  {
    JoinClimb(p, a, b, a);
    if n > 0 {
      JoinOthers(p, w, n - 1, a, b, v, x);
      JoinClimb(p, a, b, n);
    }
  }

  lemma {:induction false} WeightsApart(p: seq<int>, w: seq<int>, n: nat, a: int, b: int)
    requires Forest(p) && n < |p| == |w| && a != b && forall i :: 1 <= i <= n ==> w[i] >= 0
    ensures 0 <= WeightAt(p, w, n, a) && 0 <= WeightAt(p, w, n, b)
    ensures WeightAt(p, w, n, a) + WeightAt(p, w, n, b) <= Total(w, n)
  {
    if n > 0 {
      WeightsApart(p, w, n - 1, a, b);
    }
  }

  // ---------------------------------------------------------------- depth against weight

  ghost function Fib(n: nat): (r: nat) {
    if n < 2 then n else Fib(n - 1) + Fib(n - 2)
  }

  lemma {:induction false} FibMonotone(m: nat, n: nat)
    requires m <= n
    ensures Fib(m) <= Fib(n)
    decreases n
  {
    if m < n {
      FibMonotone(m, n - 1);
    }
  }

  lemma FibValues()
    ensures Fib(15) == 610 && Fib(35) == 9227465
  {
    assert Fib(10) == 55 && Fib(11) == 89;
    assert Fib(12) == 144 && Fib(13) == 233 && Fib(14) == 377 && Fib(15) == 610 && Fib(16) == 987;
    assert Fib(17) == 1597 && Fib(18) == 2584 && Fib(19) == 4181 && Fib(20) == 6765 && Fib(21) == 10946;
    assert Fib(22) == 17711 && Fib(23) == 28657 && Fib(24) == 46368 && Fib(25) == 75025 && Fib(26) == 121393;
    assert Fib(27) == 196418 && Fib(28) == 317811 && Fib(29) == 514229 && Fib(30) == 832040 && Fib(31) == 1346269;
    assert Fib(32) == 2178309 && Fib(33) == 3524578 && Fib(34) == 5702887;
  }

  /** ADDWEIGHTS: the weights above the low byte add, the depth in the low byte is one more than the
      deeper of the two; the two are combined by a bitwise or. */
  function AddWeights(x: int, y: int): (r: int) {
    var sum := x / 256 * 256 + y / 256 * 256;
    var depth := 1 + (if x % 256 > y % 256 then x % 256 else y % 256);
    if depth < 256 then sum + depth
    else if (sum / 256) % 2 == 1 then sum else sum + 256
  }

  /** A node of weight v is at least as heavy as the node taken off the heap last, and its depth is
      bounded, through the Fibonacci numbers, by its own weight and by that node's. */
  ghost predicate Light(v: int, last: int) {
    v >= 256 && last >= 1 && last <= v / 256 && Fib(v % 256 + 2) <= v / 256 && Fib(v % 256 + 1) <= last
  }

  lemma {:induction false} Shallow(d: nat, weight: int, bound: nat)
    requires Fib(d + 2) <= weight < Fib(bound)
    ensures d + 2 < bound
  {
    if d + 2 >= bound { FibMonotone(bound, d + 2); }
  }

  lemma AddParts(x: int, y: int)
    requires x % 256 < 255 && y % 256 < 255
    ensures AddWeights(x, y) / 256 == x / 256 + y / 256
    ensures AddWeights(x, y) % 256 == 1 + (if x % 256 > y % 256 then x % 256 else y % 256)
  {
    var a, b := x / 256, y / 256;
    var depth := 1 + (if x % 256 > y % 256 then x % 256 else y % 256);
    assert AddWeights(x, y) == 256 * (a + b) + depth;
  }

  lemma {:induction false} AddLight(x: int, y: int, last: int)
    requires Light(x, last) && Light(y, last) && x <= y && x / 256 + y / 256 < 0x80_0000
    ensures Light(AddWeights(x, y), y / 256)
    ensures AddWeights(x, y) / 256 == x / 256 + y / 256
    ensures AddWeights(x, y) % 256 == 1 + (if x % 256 > y % 256 then x % 256 else y % 256)
  {
    FibValues();
    Shallow(x % 256, x / 256, 35);
    Shallow(y % 256, y / 256, 35);
    AddParts(x, y);
    SumGrows(x / 256, y / 256, x % 256, y % 256, last);
  }

  lemma {:induction false} SumGrows(a: int, b: int, c: nat, d: nat, last: int)
    requires last <= a <= b && Fib(c + 2) <= a && Fib(d + 2) <= b && Fib(c + 1) <= last && Fib(d + 1) <= last
    ensures var e := 1 + (if c > d then c else d); Fib(e + 2) <= a + b && Fib(e + 1) <= b
  {
    var e := if c > d then c else d;
    assert Fib(e + 3) == Fib(e + 2) + Fib(e + 1);
  }

  // ---------------------------------------------------------------- the state between two merges

  /** r holds the roots of p; every root is a complete tree over some of the leaves 1..n, carries their
      weight, bounds their depth, and is no lighter than anything taken off the heap so far. */
  ghost predicate Growing(p: seq<int>, w: seq<int>, n: nat, r: set<int>, last: int) {
    n < |p| == |w| && forall k {:trigger Unfold(k)} :: Unfold(k) ==> Grows(p, w, n, r, last)
  }

  ghost predicate Grows(p: seq<int>, w: seq<int>, n: nat, r: set<int>, last: int) {
    && Forest(p) && n < |p| == |w| && w[0] == 0 && last >= 1
    && (forall k :: k in r ==> 1 <= k < |p|)
    && (forall k {:trigger Sound(p, w, n, r, last, k)} :: 1 <= k < |p| ==> Sound(p, w, n, r, last, k))
  }

  ghost predicate Sound(p: seq<int>, w: seq<int>, n: nat, r: set<int>, last: int, k: int)
    requires Forest(p) && n < |p| == |w| && 1 <= k < |p|
  {
    && (Up(p, k) == -1 <==> k in r)
    && (k <= n ==> w[k] >= 256 && Depth(p, k) <= w[Root(p, k)] % 256)
    && (k in r ==> Light(w[k], last) && KraftAt(p, n, k) == 1.0 && WeightAt(p, w, n, k) == w[k] / 256)
  }

  lemma {:induction false} TotalPrefix(w: seq<int>, v: seq<int>, n: nat)
    requires n < |w| && n < |v| && forall i :: 1 <= i <= n ==> w[i] == v[i]
    ensures Total(w, n) == Total(v, n)
  {
    if n > 0 {
      TotalPrefix(w, v, n - 1);
    }
  }

  ghost predicate Lightest(w: seq<int>, r: set<int>, a: int, b: int) {
    a != b && Least(w, r, a) && Least(w, r - {a}, b)
  }

  lemma {:induction false} MergeRoots(p: seq<int>, w: seq<int>, n: nat, r: set<int>, last: int, a: nat, b: nat)
    requires Growing(p, w, n, r, last) && Total(w, n) < 0x80_0000 && Lightest(w, r, a, b)
    ensures Roots(p, a, b) && a in r && b in r && Light(AddWeights(w[a], w[b]), w[b] / 256)
    ensures AddWeights(w[a], w[b]) / 256 == w[a] / 256 + w[b] / 256
    ensures AddWeights(w[a], w[b]) % 256 > w[a] % 256 && AddWeights(w[a], w[b]) % 256 > w[b] % 256
    ensures 256 <= AddWeights(w[a], w[b]) < 0x8000_0000
  {
    assert Unfold(0);
    assert b in r && Sound(p, w, n, r, last, a) && Sound(p, w, n, r, last, b);
    forall i | 1 <= i <= n
      ensures w[i] >= 0
    {
      assert Sound(p, w, n, r, last, i);
    }
    WeightsApart(p, w, n, a, b);
    AddLight(w[a], w[b], last);
  }

  lemma {:induction false} MergeSound(p: seq<int>, w: seq<int>, n: nat, r: set<int>, last: int, a: nat, b: nat, k: nat)
    requires Growing(p, w, n, r, last) && Total(w, n) < 0x80_0000 && Lightest(w, r, a, b) && 1 <= k <= |p|
    ensures a < |p| && b < |p| && Forest(Join(p, a, b))
    ensures Sound(Join(p, a, b), w + [AddWeights(w[a], w[b])], n, r - {a} - {b} + {|p|}, w[b] / 256, k)
  {
    assert Unfold(0);
    MergeRoots(p, w, n, r, last, a, b);
    var q, r', v := Join(p, a, b), r - {a} - {b} + {|p|}, AddWeights(w[a], w[b]);
    var w' := w + [v];
    JoinClimb(p, a, b, a);
    if k == |p| {
      JoinSums(p, w, n, a, b, v);
      assert Sound(p, w, n, r, last, a) && Sound(p, w, n, r, last, b);
    } else {
      assert Sound(p, w, n, r, last, k);
      JoinClimb(p, a, b, k);
      if k in r' {
        assert k in r - {a};
        assert w[b] <= w[k] && Sound(p, w, n, r, last, b);
        JoinOthers(p, w, n, a, b, v, k);
      }
    }
  }

  lemma {:induction false} Merge(p: seq<int>, w: seq<int>, n: nat, r: set<int>, last: int, a: nat, b: nat)
    requires Growing(p, w, n, r, last) && Total(w, n) < 0x80_0000 && Lightest(w, r, a, b)
    ensures a < |p| && b < |p| && a < |w| && b < |w|
    ensures Growing(Join(p, a, b), w + [AddWeights(w[a], w[b])], n, r - {a} - {b} + {|p|}, w[b] / 256)
  {
    assert Unfold(0);
    MergeRoots(p, w, n, r, last, a, b);
    JoinClimb(p, a, b, a);
    forall k {:trigger Sound(Join(p, a, b), w + [AddWeights(w[a], w[b])], n, r - {a} - {b} + {|p|}, w[b] / 256,
        k)} | 1 <= k <= |p|
      ensures Sound(Join(p, a, b), w + [AddWeights(w[a], w[b])], n, r - {a} - {b} + {|p|}, w[b] / 256, k)
    {
      MergeSound(p, w, n, r, last, a, b, k);
    }
  }

  // ---------------------------------------------------------------- counting in halves

  /** c times h, by repeated addition. */
  ghost function Times(c: nat, h: real): (r: real) {
    if c == 0 then 0.0 else Times(c - 1, h) + h
  }

  lemma {:induction false} TimesAdd(a: nat, c: nat, h: real)
    ensures Times(a + c, h) == Times(a, h) + Times(c, h)
  {
    if c > 0 {
      TimesAdd(a, c - 1, h);
    }
  }

  lemma {:induction false} TimesTwice(a: nat, h: real)
    ensures Times(2 * a, h) == Times(a, h + h)
  {
    if a > 0 {
      TimesTwice(a - 1, h);
      assert Times(2 * a, h) == Times(2 * a - 1, h) + h;
      assert Times(2 * a - 1, h) == Times(2 * (a - 1), h) + h;
    }
  }

  lemma {:induction false} TimesGrows(a: nat, c: nat, h: real)
    requires h > 0.0
    ensures c > 0 ==> Times(a + c, h) > Times(a, h)
  {
    if c > 0 {
      TimesGrows(a, c - 1, h);
    }
  }

  lemma {:induction false} HalfPow2(l: nat)
    ensures Times(Pow2(l), Half(l)) == 1.0
  {
    if l > 0 {
      HalfPow2(l - 1);
      TimesTwice(Pow2(l - 1), Half(l));
    } else {
      assert Times(1, 1.0) == Times(0, 1.0) + 1.0;
    }
  }
}
