/** Notions shared by every stage: bytes, powers of two, counting and permutations. */
module Common {

  type byte = x: int | 0 <= x < 256

  ghost predicate Bytes(b: seq<int>) {
    forall k :: 0 <= k < |b| ==> 0 <= b[k] < 256
  }

  /** Always true; a definition guarded by it stays folded in proofs that do not mention it. */
  ghost predicate Unfold(k: int) {
    true
  }

  /** The same, for definitions that should stay folded where others are unfolded. */
  ghost predicate Open(k: int) {
    true
  }

  /** The same, for what objects keep and most of their methods do not look at. */
  ghost predicate Unseal(k: int) {
    true
  }

  datatype Option<+T> = None | Some(value: T)

  function Pow2(n: nat): (r: nat)
    ensures r >= 1
  {
    if n == 0 then 1 else 2 * Pow2(n - 1)
  }

  lemma {:induction false} Pow2Add(m: nat, n: nat)
    ensures Pow2(m + n) == Pow2(m) * Pow2(n)
  {
    if m > 0 {
      Pow2Add(m - 1, n);
    }
  }

  lemma Pow2Values()
    ensures Pow2(4) == 16 && Pow2(8) == 256 && Pow2(16) == 0x1_0000 && Pow2(24) == 0x100_0000
    ensures Pow2(31) == 0x8000_0000 && Pow2(32) == 0x1_0000_0000
  {
    assert Pow2(2) == 4 && Pow2(4) == 16;
    Pow2Add(4, 4);
    Pow2Add(8, 8);
    Pow2Add(16, 8);
    Pow2Add(16, 16);
  }

  /** How many of the first n elements of s equal x. */
  function CountTo(s: seq<int>, n: nat, x: int): (r: nat)
    requires n <= |s|
    ensures r <= n
  {
    if n == 0 then 0 else CountTo(s, n - 1, x) + (if s[n - 1] == x then 1 else 0)
  }

  /** How many of the first n elements of s lie below x. */
  function BelowTo(s: seq<int>, n: nat, x: int): (r: nat)
    requires n <= |s|
    ensures r <= n
  {
    if n == 0 then 0 else BelowTo(s, n - 1, x) + (if s[n - 1] < x then 1 else 0)
  }

  lemma {:induction false} BelowStep(s: seq<int>, n: nat, x: int)
    requires n <= |s|
    ensures BelowTo(s, n, x + 1) == BelowTo(s, n, x) + CountTo(s, n, x)
  {
    if n > 0 {
      BelowStep(s, n - 1, x);
    }
  }

  lemma {:induction false} BelowMonotone(s: seq<int>, n: nat, x: int, y: int)
    requires n <= |s| && x <= y
    ensures BelowTo(s, n, x) <= BelowTo(s, n, y)
  {
    if n > 0 {
      BelowMonotone(s, n - 1, x, y);
    }
  }

  lemma {:induction false} BelowBytes(s: seq<int>, n: nat)
    requires n <= |s| && Bytes(s)
    ensures BelowTo(s, n, 0) == 0 && BelowTo(s, n, 256) == n
  {
    if n > 0 {
      BelowBytes(s, n - 1);
    }
  }

  lemma {:induction false} CountMonotone(s: seq<int>, m: nat, n: nat, x: int)
    requires m <= n <= |s|
    ensures CountTo(s, m, x) <= CountTo(s, n, x)
  {
    if m < n {
      CountMonotone(s, m, n - 1, x);
    }
  }

  /** The counting functions depend on the prefix only. */
  lemma {:induction false} CountPrefix(s: seq<int>, t: seq<int>, n: nat, x: int)
    requires n <= |s| && n <= |t| && forall k :: 0 <= k < n ==> s[k] == t[k]
    ensures CountTo(s, n, x) == CountTo(t, n, x)
    ensures BelowTo(s, n, x) == BelowTo(t, n, x)
  {
    if n > 0 {
      CountPrefix(s, t, n - 1, x);
    }
  }

  /** f lists every index 0..|f|-1 exactly once. */
  ghost predicate IsPerm(f: seq<int>) {
    && (forall i :: 0 <= i < |f| ==> 0 <= f[i] < |f|)
    && (forall i, j :: 0 <= i < j < |f| ==> f[i] != f[j])
  }

  /** The integers lo..hi-1. */
  ghost function Interval(lo: int, hi: int): (r: set<int>)
    ensures forall k :: k in r <==> lo <= k < hi
    ensures |r| == if lo <= hi then hi - lo else 0
    decreases hi - lo
  {
    if lo >= hi then {} else Interval(lo, hi - 1) + {hi - 1}
  }

  lemma SubsetSize<T>(a: set<T>, b: set<T>)
    requires a <= b
    ensures |a| <= |b|
    ensures |a| == |b| ==> a == b
  {
    assert b == a + (b - a);
  }

  /** An injective sequence has as many distinct elements as it is long. */
  lemma {:induction false} InjectiveSize(f: seq<int>)
    requires forall i, j :: 0 <= i < j < |f| ==> f[i] != f[j]
    ensures |set x | x in f| == |f|
  {
    var n := |f|;
    if n > 0 {
      var g := f[..n - 1];
      InjectiveSize(g);
      assert f == g + [f[n - 1]];
      assert (set x | x in f) == (set x | x in g) + {f[n - 1]};
    }
  }

  lemma PermSurjective(f: seq<int>, v: int) returns (i: nat)
    requires IsPerm(f) && 0 <= v < |f|
    ensures i < |f| && f[i] == v
  {
    var image := set x | x in f;
    InjectiveSize(f);
    forall x | x in image
      ensures 0 <= x < |f|
    {
      var k :| 0 <= k < |f| && f[k] == x;
    }
    SubsetSize(image, Interval(0, |f|));
    assert v in image;
    i :| 0 <= i < |f| && f[i] == v;
  }

  /** a is b with the elements at lo..hi rearranged among themselves. */
  ghost predicate Rearranged(a: seq<int>, b: seq<int>, lo: int, hi: int) {
    && |a| == |b|
    && (forall k :: 0 <= k < |a| && !(lo <= k <= hi) ==> a[k] == b[k])
    && (forall v :: CountTo(a, |a|, v) == CountTo(b, |b|, v))
  }

  function Swapped(a: seq<int>, i: nat, j: nat): (r: seq<int>)
    requires i < |a| && j < |a|
    ensures |r| == |a|
  {
    a[i := a[j]][j := a[i]]
  }

  lemma {:induction false} CountUpdate(a: seq<int>, n: nat, i: nat, x: int, v: int)
    requires i < |a| && n <= |a|
    ensures CountTo(a[i := x], n, v)
         == CountTo(a, n, v) + (if i < n && x == v then 1 else 0) - (if i < n && a[i] == v then 1 else 0)
  {
    if n > 0 {
      CountUpdate(a, n - 1, i, x, v);
    }
  }

  lemma SwapRearranges(a: seq<int>, b: seq<int>, lo: int, hi: int, i: nat, j: nat)
    requires Rearranged(a, b, lo, hi)
    requires i < |a| && j < |a| && lo <= i <= hi && lo <= j <= hi
    ensures Rearranged(Swapped(a, i, j), b, lo, hi)
  {
    var r := Swapped(a, i, j);
    forall v
      ensures CountTo(r, |r|, v) == CountTo(b, |b|, v)
    {
      CountUpdate(a, |a|, i, a[j], v);
      CountUpdate(a[i := a[j]], |a|, j, a[i], v);
    }
  }

  lemma RearrangedChain(a: seq<int>, b: seq<int>, c: seq<int>, lo: int, hi: int, lo': int, hi': int)
    requires Rearranged(a, b, lo', hi') && Rearranged(b, c, lo, hi)
    requires lo <= lo' && hi' <= hi
    ensures Rearranged(a, c, lo, hi)
  {
    forall v
      ensures CountTo(a, |a|, v) == CountTo(c, |c|, v)
    {
      assert CountTo(a, |a|, v) == CountTo(b, |b|, v);
    }
  }

  lemma {:induction false} CountPositive(s: seq<int>, n: nat, k: nat)
    requires k < n <= |s|
    ensures CountTo(s, n, s[k]) > 0
  {
    if k < n - 1 {
      CountPositive(s, n - 1, k);
    }
  }

  lemma {:induction false} CountWitness(s: seq<int>, n: nat, v: int) returns (k: nat)
    requires n <= |s| && CountTo(s, n, v) > 0
    ensures k < n && s[k] == v
  {
    if s[n - 1] == v {
      k := n - 1;
    } else {
      k := CountWitness(s, n - 1, v);
    }
  }

  /** Equal outer parts and equal totals leave equal counts in the middle. */
  lemma {:induction false} CountGap(s: seq<int>, t: seq<int>, m: nat, n: nat, v: int)
    requires m <= n <= |s| == |t| && forall k :: m <= k < n ==> s[k] == t[k]
    ensures CountTo(s, n, v) - CountTo(s, m, v) == CountTo(t, n, v) - CountTo(t, m, v)
  {
    if m < n {
      CountGap(s, t, m, n - 1, v);
    }
  }

  lemma {:induction false} CountGapWitness(s: seq<int>, m: nat, n: nat, v: int) returns (k: nat)
    requires m <= n <= |s| && CountTo(s, m, v) < CountTo(s, n, v)
    ensures m <= k < n && s[k] == v
  {
    if s[n - 1] == v {
      k := n - 1;
    } else {
      k := CountGapWitness(s, m, n - 1, v);
    }
  }

  lemma CountGapPositive(s: seq<int>, m: nat, k: nat, n: nat)
    requires m <= k < n <= |s|
    ensures CountTo(s, m, s[k]) < CountTo(s, n, s[k])
  {
    CountMonotone(s, m, k, s[k]);
    CountMonotone(s, k + 1, n, s[k]);
  }

  /** Every element of a rearranged stretch was in that stretch before. */
  lemma RearrangedMember(a: seq<int>, b: seq<int>, lo: int, hi: int, k: int) returns (j: int)
    requires Rearranged(a, b, lo, hi)
    requires 0 <= lo <= k <= hi < |a|
    ensures lo <= j <= hi && a[k] == b[j]
  {
    CountGap(a, b, 0, lo, a[k]);
    CountGap(a, b, hi + 1, |a|, a[k]);
    CountGapPositive(a, lo, k, hi + 1);
    j := CountGapWitness(b, lo, hi + 1, a[k]);
  }

  lemma {:induction false} InjectiveOnce(b: seq<int>, n: nat, v: int)
    requires n <= |b| && forall i, j :: 0 <= i < j < |b| ==> b[i] != b[j]
    ensures CountTo(b, n, v) <= 1
  {
    if n > 0 {
      InjectiveOnce(b, n - 1, v);
      if v == b[n - 1] && CountTo(b, n - 1, v) > 0 {
        var k := CountWitness(b, n - 1, v);
      }
    }
  }

  lemma RearrangedElement(a: seq<int>, b: seq<int>, lo: int, hi: int, k: nat) returns (j: nat)
    requires Rearranged(a, b, lo, hi) && k < |a|
    ensures j < |b| && a[k] == b[j]
  {
    CountPositive(a, |a|, k);
    j := CountWitness(b, |b|, a[k]);
  }

  lemma RearrangedPerm(a: seq<int>, b: seq<int>, lo: int, hi: int)
    requires Rearranged(a, b, lo, hi) && IsPerm(b)
    ensures IsPerm(a)
  {
    forall i | 0 <= i < |a|
      ensures 0 <= a[i] < |a|
    {
      var j := RearrangedElement(a, b, lo, hi, i);
    }
    forall i, j | 0 <= i < j < |a|
      ensures a[i] != a[j]
    {
      if a[i] == a[j] {
        CountPositive(a, j, i);
        CountMonotone(a, j + 1, |a|, a[i]);
        InjectiveOnce(b, |b|, a[i]);
        assert false;
      }
    }
  }

  // ---------------------------------------------------------------- texts in pieces

  function Joined(cuts: seq<seq<byte>>): (r: seq<byte>) {
    if cuts == [] then [] else cuts[0] + Joined(cuts[1..])
  }

  lemma {:induction false} JoinedAppend(cuts: seq<seq<byte>>, t: seq<byte>)
    ensures Joined(cuts + [t]) == Joined(cuts) + t
  {
    if cuts != [] {
      JoinedAppend(cuts[1..], t);
      assert (cuts + [t])[1..] == cuts[1..] + [t];
    } else {
      assert (cuts + [t])[1..] == [];
    }
  }

  // ---------------------------------------------------------------- tables that are read round and round

  /** Where entry k is found in a table of length p that is read round and round: at k modulo p. */
  function Round(k: nat, p: nat): (r: nat)
    requires p > 0
    ensures r < p
    decreases k
  {
    if k < p then k else Round(k - p, p)
  }

  lemma {:induction false} RoundIs(k: nat, p: nat)
    requires p > 0
    ensures Round(k, p) == k % p
    decreases k
  {
    if k >= p {
      RoundIs(k - p, p);
      ModStep(k, p, k / p, k % p, (k - p) / p, (k - p) % p);
    }
  }

  lemma ModStep(k: nat, p: nat, q: int, r: int, q2: int, r2: int)
    requires 0 < p <= k && k == p * q + r && 0 <= r < p && k - p == p * q2 + r2 && 0 <= r2 < p
    ensures r == r2
  {
    var d := q - 1 - q2;
    assert p * d == r2 - r;
    Multiples(p, d);
  }

  lemma Multiples(p: int, d: int)
    requires p > 0
    ensures d > 0 ==> p * d >= p
    ensures d < 0 ==> p * d <= -p
  {
  }
}
