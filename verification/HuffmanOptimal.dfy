/** Why joining the two lightest trees makes a code of least cost (BZ2_hbMakeCodeLengths, huffman.c): whatever lengths one
    might give to the leaves, the roots of the forest can be given lengths that together with the depths cost no more. */
module HuffmanOptimal {
  import opened Common
  import opened HuffmanHeap
  import opened HuffmanForest

  // ---------------------------------------------------------------- lengths for the roots

  ghost predicate NotNegative(l: seq<int>) {
    forall k :: 0 <= k < |l| ==> l[k] >= 0
  }

  /** The Kraft sum of the roots 1..m. */
  ghost function RootKraft(p: seq<int>, l: seq<int>, m: nat): (r: real)
    requires m < |p| == |l| && NotNegative(l)
  {
    if m == 0 then 0.0 else RootKraft(p, l, m - 1) + (if p[m] == -1 then Half(l[m]) else 0.0)
  }

  /** What the roots 1..m cost: weight times length. */
  ghost function RootCost(p: seq<int>, w: seq<int>, l: seq<int>, m: nat): (r: int)
    requires m < |p| == |l| == |w|
  {
    if m == 0 then 0 else RootCost(p, w, l, m - 1) + (if p[m] == -1 then w[m] / 256 * l[m] else 0)
  }

  /** What the depths of the leaves 1..m in their trees cost. */
  ghost function DepthCost(p: seq<int>, w: seq<int>, m: nat): (r: int)
    requires Forest(p) && m < |p| <= |w|
  {
    if m == 0 then 0 else DepthCost(p, w, m - 1) + w[m] / 256 * Depth(p, m)
  }

  /** What lengths for the leaves cost. */
  ghost function LeafCost(w: seq<int>, l: seq<int>, m: nat): (r: int)
    requires m < |w| && m < |l|
  {
    if m == 0 then 0 else LeafCost(w, l, m - 1) + w[m] / 256 * l[m]
  }

  ghost function LeafKraft(l: seq<int>, m: nat): (r: real)
    requires m < |l| && NotNegative(l)
  {
    if m == 0 then 0.0 else LeafKraft(l, m - 1) + Half(l[m])
  }

  // ---------------------------------------------------------------- two of the longest

  /** The Kraft sum counted in units of 2^-top. */
  ghost function Shares(p: seq<int>, l: seq<int>, m: nat, top: nat): (r: nat)
    requires m < |p| == |l| && NotNegative(l)
  {
    if m == 0 then 0
    else Shares(p, l, m - 1, top) + (if p[m] == -1 && l[m] <= top then Pow2(top - l[m]) else 0)
  }

  /** How many of the roots 1..m have the length top. */
  ghost function Tops(p: seq<int>, l: seq<int>, m: nat, top: nat): (r: nat)
    requires m < |p| == |l|
  {
    if m == 0 then 0 else Tops(p, l, m - 1, top) + (if p[m] == -1 && l[m] == top then 1 else 0)
  }

  ghost predicate AtMost(p: seq<int>, l: seq<int>, top: nat) {
    |p| == |l| && NotNegative(l) && forall k :: 1 <= k < |p| && p[k] == -1 ==> l[k] <= top
  }

  lemma {:induction false} HalfScaled(n: nat, d: nat)
    ensures Times(Pow2(d), Half(n + d)) == Half(n)
    decreases d
  {
    if d > 0 {
      HalfScaled(n, d - 1);
      TimesTwice(Pow2(d - 1), Half(n + d));
      assert Half(n + d) + Half(n + d) == Half(n + d - 1);
    } else {
      assert Times(1, Half(n)) == Times(0, Half(n)) + Half(n);
    }
  }

  lemma {:induction false} SharesKraft(p: seq<int>, l: seq<int>, m: nat, top: nat)
    requires m < |p| && AtMost(p, l, top)
    ensures Times(Shares(p, l, m, top), Half(top)) == RootKraft(p, l, m)
  {
    if m > 0 {
      SharesKraft(p, l, m - 1, top);
      if p[m] == -1 {
        HalfScaled(l[m], top - l[m]);
        TimesAdd(Shares(p, l, m - 1, top), Pow2(top - l[m]), Half(top));
      }
    }
  }

  lemma {:induction false} TimesEqual(a: nat, c: nat, h: real)
    requires h > 0.0 && Times(a, h) == Times(c, h)
    ensures a == c
  {
    if a < c { TimesGrows(a, c - a, h); }
    if c < a { TimesGrows(c, a - c, h); }
  }

  /** As many ones are added as there are roots of the length top; the rest is even. */
  lemma {:induction false} SharesParity(p: seq<int>, l: seq<int>, m: nat, top: nat)
    requires m < |p| == |l| && NotNegative(l)
    ensures Shares(p, l, m, top) % 2 == Tops(p, l, m, top) % 2
  {
    if m > 0 {
      SharesParity(p, l, m - 1, top);
      if l[m] < top { assert Pow2(top - l[m]) == 2 * Pow2(top - l[m] - 1); }
    }
  }

  lemma {:induction false} SharesMost(p: seq<int>, l: seq<int>, m: nat, k: nat)
    requires 1 <= k <= m < |p| && AtMost(p, l, 0) && p[k] == -1
    ensures Shares(p, l, m, 0) >= 1
  {
    if k < m {
      SharesMost(p, l, m - 1, k);
    }
  }

  lemma {:induction false} SharesTwo(p: seq<int>, l: seq<int>, m: nat, a: nat, b: nat)
    requires 1 <= a <= m < |p| && 1 <= b <= m && a != b && AtMost(p, l, 0) && p[a] == -1 && p[b] == -1
    ensures Shares(p, l, m, 0) >= 2
  {
    if a == m {
      SharesMost(p, l, m - 1, b);
    } else if b == m {
      SharesMost(p, l, m - 1, a);
    } else {
      SharesTwo(p, l, m - 1, a, b);
    }
  }

  lemma {:induction false} TopsCounted(p: seq<int>, l: seq<int>, m: nat, top: nat, k: nat)
    requires 1 <= k <= m < |p| == |l| && p[k] == -1 && l[k] == top
    ensures Tops(p, l, m, top) >= 1
  {
    if k < m {
      TopsCounted(p, l, m - 1, top, k);
    }
  }

  lemma {:induction false} TopWitness(p: seq<int>, l: seq<int>, m: nat, top: nat) returns (x: nat)
    requires m < |p| == |l| && Tops(p, l, m, top) >= 1
    ensures 1 <= x <= m && p[x] == -1 && l[x] == top && Tops(p, l, x - 1, top) == Tops(p, l, m, top) - 1
  {
    if p[m] == -1 && l[m] == top {
      x := m;
    } else {
      x := TopWitness(p, l, m - 1, top);
    }
  }

  lemma {:induction false} LongestRoot(p: seq<int>, l: seq<int>, m: nat, a: nat) returns (x: nat)
    requires 1 <= a <= m < |p| == |l| && p[a] == -1
    ensures 1 <= x <= m && p[x] == -1 && forall k :: 1 <= k <= m && p[k] == -1 ==> l[k] <= l[x]
    decreases m
  {
    if m == a {
      x := OrElse(p, l, m, a);
    } else {
      x := LongestRoot(p, l, m - 1, a);
      if p[m] == -1 && l[m] > l[x] { x := m; }
    }
  }

  lemma {:induction false} OrElse(p: seq<int>, l: seq<int>, m: nat, a: nat) returns (x: nat)
    requires 1 <= a == m < |p| == |l| && p[a] == -1
    ensures 1 <= x <= m && p[x] == -1 && forall k :: 1 <= k <= m && p[k] == -1 ==> l[k] <= l[x]
  {
    x := a;
    for k := 1 to m
      invariant 1 <= x <= m && p[x] == -1 && l[x] >= l[a] && forall i :: 1 <= i < k && p[i] == -1 ==> l[i] <= l[x]
    {
      if p[k] == -1 && l[k] > l[x] { x := k; }
    }
  }

  /** When the Kraft sum of two roots or more is 1, two of them have the greatest length. */
  lemma {:induction false} TwoLongest(p: seq<int>, l: seq<int>, a: nat, b: nat) returns (top: nat, x: nat, y: nat)
    requires Roots(p, a, b) && |p| == |l| && NotNegative(l) && RootKraft(p, l, |p| - 1) == 1.0
    ensures AtMost(p, l, top) && top >= 1 && x != y
    ensures 1 <= x < |p| && p[x] == -1 && l[x] == top && 1 <= y < |p| && p[y] == -1 && l[y] == top
  {
    var m := |p| - 1;
    x := LongestRoot(p, l, m, a);
    top := l[x];
    SharesKraft(p, l, m, top);
    HalfScaled(0, top);
    TimesEqual(Shares(p, l, m, top), Pow2(top), Half(top));
    if top == 0 { SharesTwo(p, l, m, a, b); }
    SharesParity(p, l, m, top);
    assert Pow2(top) == 2 * Pow2(top - 1);
    TopsCounted(p, l, m, top, x);
    x := TopWitness(p, l, m, top);
    y := TopWitness(p, l, x - 1, top);
  }

  // ---------------------------------------------------------------- exchanging lengths

  ghost function Swap(l: seq<int>, i: nat, j: nat): (r: seq<int>)
    requires i < |l| && j < |l|
    ensures |r| == |l|
  {
    l[i := l[j]][j := l[i]]
  }

  lemma {:induction false} SetKraft(p: seq<int>, l: seq<int>, m: nat, i: nat, v: nat)
    requires m < |p| == |l| && NotNegative(l) && 1 <= i < |l| && p[i] == -1
    ensures RootKraft(p, l[i := v], m) == RootKraft(p, l, m) + if i <= m then Half(v) - Half(l[i]) else 0.0
  {
    if m > 0 {
      SetKraft(p, l, m - 1, i, v);
    }
  }

  lemma {:induction false} SetCost(p: seq<int>, w: seq<int>, l: seq<int>, m: nat, i: nat, v: nat)
    requires m < |p| == |l| == |w| && 1 <= i < |l| && p[i] == -1
    ensures RootCost(p, w, l[i := v], m) == RootCost(p, w, l, m) + if i <= m then w[i] / 256 * v - w[i] / 256 * l[i] else 0
  {
    if m > 0 {
      SetCost(p, w, l, m - 1, i, v);
    }
  }

  lemma Exchanged(wi: int, wj: int, li: int, lj: int)
    requires wi <= wj && li <= lj
    ensures wi * lj + wj * li <= wi * li + wj * lj
  {
    assert (wj - wi) * (lj - li) >= 0;
  }

  /** Giving the greater length to the lighter of two roots costs no more. */
  lemma {:induction false} SwapCosts(p: seq<int>, w: seq<int>, l: seq<int>, i: nat, j: nat)
    requires Roots(p, i, j) && |p| == |l| == |w| && NotNegative(l) && w[i] <= w[j] && l[i] <= l[j]
    ensures NotNegative(Swap(l, i, j)) && RootKraft(p, Swap(l, i, j), |p| - 1) == RootKraft(p, l, |p| - 1)
    ensures RootCost(p, w, Swap(l, i, j), |p| - 1) <= RootCost(p, w, l, |p| - 1)
  {
    var m, l1 := |p| - 1, l[i := l[j]];
    SetKraft(p, l, m, i, l[j]);
    SetKraft(p, l1, m, j, l[i]);
    SetCost(p, w, l, m, i, l[j]);
    SetCost(p, w, l1, m, j, l[i]);
    Exchanged(w[i] / 256, w[j] / 256, l[i], l[j]);
  }

  /** No worse than l: the Kraft sum is 1 and the cost no greater. */
  ghost predicate NoWorse(p: seq<int>, w: seq<int>, l: seq<int>, cost: int) {
    |p| == |l| == |w| && |p| >= 1 && NotNegative(l) && RootKraft(p, l, |p| - 1) == 1.0 && RootCost(p, w, l, |p| - 1) <= cost
  }

  /** The roots and their weights: a is the lightest, and b the lightest but for a. */
  ghost predicate LightTwo(p: seq<int>, w: seq<int>, a: int, b: int) {
    && Roots(p, a, b) && |p| == |w|
    && (forall k :: 1 <= k < |p| && p[k] == -1 ==> w[a] <= w[k])
    && (forall k :: 1 <= k < |p| && p[k] == -1 && k != a ==> w[b] <= w[k])
  }

  /** The two lightest roots can be given the greatest length. */
  lemma {:induction false} Deepest(p: seq<int>, w: seq<int>, l: seq<int>, cost: int, a: nat, b: nat)
      returns (l': seq<int>, top: nat)
    requires LightTwo(p, w, a, b) && NoWorse(p, w, l, cost)
    ensures NoWorse(p, w, l', cost) && top >= 1 && l'[a] == top && l'[b] == top
  {
    var x, y;
    top, x, y := TwoLongest(p, l, a, b);
    l' := l;
    if l[a] != top {
      if x == b { x, y := y, x; }
      SwapCosts(p, w, l, a, x);
      l' := Swap(l, a, x);
    } else if y == a {
      y := x;
    }
    if l'[b] != top {
      SwapCosts(p, w, l', b, y);
      l' := Swap(l', b, y);
    }
  }

  // ---------------------------------------------------------------- joining two roots

  lemma {:induction false} JoinKraft(p: seq<int>, a: nat, b: nat, l: seq<int>, v: nat, m: nat)
    requires Roots(p, a, b) && m < |p| == |l| && NotNegative(l)
    ensures RootKraft(Join(p, a, b), l + [v], m)
         == RootKraft(p, l, m) - (if a <= m then Half(l[a]) else 0.0) - (if b <= m then Half(l[b]) else 0.0)
  {
    if m > 0 {
      JoinKraft(p, a, b, l, v, m - 1);
    }
  }

  lemma {:induction false} JoinCost(p: seq<int>, w: seq<int>, a: nat, b: nat, u: int, l: seq<int>, v: nat, m: nat)
    requires Roots(p, a, b) && m < |p| == |l| == |w|
    ensures RootCost(Join(p, a, b), w + [u], l + [v], m)
         == RootCost(p, w, l, m) - (if a <= m then w[a] / 256 * l[a] else 0) - (if b <= m then w[b] / 256 * l[b] else 0)
  {
    if m > 0 {
      JoinCost(p, w, a, b, u, l, v, m - 1);
    }
  }

  lemma {:induction false} JoinDepths(p: seq<int>, w: seq<int>, a: nat, b: nat, u: int, n: nat)
    requires Roots(p, a, b) && n < |p| == |w|
    ensures Forest(Join(p, a, b))
    ensures DepthCost(Join(p, a, b), w + [u], n) == DepthCost(p, w, n) + WeightAt(p, w, n, a) + WeightAt(p, w, n, b)
  {
    JoinClimb(p, a, b, a);
    if n > 0 {
      JoinDepths(p, w, a, b, u, n - 1);
      JoinClimb(p, a, b, n);
      var d := Depth(p, n);
      assert w[n] / 256 * (d + 1) == w[n] / 256 * d + w[n] / 256;
    }
  }

  lemma OneLess(x: int, y: int, t: int)
    ensures (x + y) * (t - 1) == x * t + y * t - (x + y)
  {
  }

  /** With the two lightest roots joined, lengths for the roots cost as much less as the depths cost more. */
  lemma {:induction false} JoinNoWorse(p: seq<int>, w: seq<int>, l: seq<int>, cost: int, a: nat, b: nat, u: int)
      returns (l': seq<int>)
    requires LightTwo(p, w, a, b) && NoWorse(p, w, l, cost) && u / 256 == w[a] / 256 + w[b] / 256
    ensures NoWorse(Join(p, a, b), w + [u], l', cost - w[a] / 256 - w[b] / 256)
  {
    var l1, top := Deepest(p, w, l, cost, a, b);
    var m, q, w' := |p| - 1, Join(p, a, b), w + [u];
    l' := l1 + [top - 1];
    JoinKraft(p, a, b, l1, top - 1, m);
    JoinCost(p, w, a, b, u, l1, top - 1, m);
    OneLess(w[a] / 256, w[b] / 256, top);
    assert RootKraft(q, l', |p|) == RootKraft(q, l', m) + Half(top - 1);
    assert RootCost(q, w', l', |p|) == RootCost(q, w', l', m) + u / 256 * (top - 1);
  }

  // ---------------------------------------------------------------- the invariant

  /** Whatever lengths with Kraft sum 1 the leaves might have, lengths for the roots together with the depths cost no
      more. */
  ghost predicate Thrifty(p: seq<int>, w: seq<int>, n: nat) {
    Forest(p) && n < |p| == |w| && forall k {:trigger Unseal(k)} :: Unseal(k) ==>
      forall l {:trigger LeafKraft(l, n)} :: |l| == n + 1 && NotNegative(l) && LeafKraft(l, n) == 1.0 ==>
        Affordable(p, w, LeafCost(w, l, n) - DepthCost(p, w, n))
  }

  ghost predicate Affordable(p: seq<int>, w: seq<int>, cost: int) {
    exists l :: NoWorse(p, w, l, cost)
  }

  lemma {:induction false} LeafCostPrefix(w: seq<int>, u: int, l: seq<int>, n: nat)
    requires n < |w| && n < |l|
    ensures LeafCost(w + [u], l, n) == LeafCost(w, l, n)
  {
    if n > 0 {
      LeafCostPrefix(w, u, l, n - 1);
    }
  }

  lemma {:induction false} MergeThrifty(p: seq<int>, w: seq<int>, n: nat, a: nat, b: nat, u: int)
    requires Thrifty(p, w, n) && LightTwo(p, w, a, b) && u / 256 == w[a] / 256 + w[b] / 256
    requires WeightAt(p, w, n, a) == w[a] / 256 && WeightAt(p, w, n, b) == w[b] / 256
    ensures Forest(Join(p, a, b)) && Thrifty(Join(p, a, b), w + [u], n)
  {
    assert Unseal(0);
    var q, w' := Join(p, a, b), w + [u];
    JoinDepths(p, w, a, b, u, n);
    forall l {:trigger LeafKraft(l, n)} | |l| == n + 1 && NotNegative(l) && LeafKraft(l, n) == 1.0
      ensures Affordable(q, w', LeafCost(w', l, n) - DepthCost(q, w', n))
    {
      LeafCostPrefix(w, u, l, n);
      var cost := LeafCost(w, l, n) - DepthCost(p, w, n);
      var m :| NoWorse(p, w, m, cost);
      var m' := JoinNoWorse(p, w, m, cost, a, b, u);
      assert NoWorse(q, w', m', LeafCost(w', l, n) - DepthCost(q, w', n));
    }
  }

  lemma {:induction false} LeavesThrifty(p: seq<int>, w: seq<int>, n: nat)
    requires Forest(p) && |p| == |w| == n + 1 && forall i :: 1 <= i <= n ==> p[i] == -1
    ensures Thrifty(p, w, n)
  {
    forall l {:trigger LeafKraft(l, n)} | |l| == n + 1 && NotNegative(l) && LeafKraft(l, n) == 1.0
      ensures Affordable(p, w, LeafCost(w, l, n) - DepthCost(p, w, n))
    {
      AllLeaves(p, w, l, n, n);
      assert NoWorse(p, w, l, LeafCost(w, l, n) - DepthCost(p, w, n));
    }
  }

  lemma {:induction false} AllLeaves(p: seq<int>, w: seq<int>, l: seq<int>, n: nat, m: nat)
    requires Forest(p) && |p| == |w| == |l| == n + 1 && m <= n && NotNegative(l) && forall i :: 1 <= i <= n ==> p[i] == -1
    ensures RootKraft(p, l, m) == LeafKraft(l, m) && RootCost(p, w, l, m) == LeafCost(w, l, m) && DepthCost(p, w, m) == 0
  {
    if m > 0 {
      AllLeaves(p, w, l, n, m - 1);
    }
  }

  lemma {:induction false} CostNotNegative(p: seq<int>, w: seq<int>, l: seq<int>, m: nat)
    requires m < |p| == |w| == |l| && NotNegative(l) && forall k :: 1 <= k <= m && p[k] == -1 ==> w[k] >= 0
    ensures RootCost(p, w, l, m) >= 0
  {
    if m > 0 {
      CostNotNegative(p, w, l, m - 1);
      if p[m] == -1 { assert w[m] / 256 * l[m] >= 0; }
    }
  }

  /** Of all lengths with Kraft sum 1 the depths cost least. */
  lemma {:induction false} DepthsLeast(p: seq<int>, w: seq<int>, n: nat, l: seq<int>)
    requires Thrifty(p, w, n) && forall k :: 1 <= k < |p| && p[k] == -1 ==> w[k] >= 0
    requires |l| == n + 1 && NotNegative(l) && LeafKraft(l, n) == 1.0
    ensures DepthCost(p, w, n) <= LeafCost(w, l, n)
  {
    assert Unseal(0);
    var cost := LeafCost(w, l, n) - DepthCost(p, w, n);
    var m :| NoWorse(p, w, m, cost);
    CostNotNegative(p, w, m, |p| - 1);
  }
}
