/** How many entries the tables of a code take up: the root table, and for every string of root bits with which longer
    codes begin a sub-table that the longest of them fills (inflate_table, inftrees.c). */
module TableSize {
  import opened Common
  import opened BitStream
  import opened Bwt
  import opened CanonicalCode
  import opened DeflateCode

  // ---------------------------------------------------------------- the number of entries

  /** The code of s is longer than root, and its first root bits are p. */
  ghost predicate InSub(g: seq<int>, root: nat, p: nat, s: int) {
    HasCode(g, s) && g[s] > root && Top(g, s, root) == p
  }

  /** The greatest length among them, or 0 if there are none. */
  ghost function SubLen(g: seq<int>, root: nat, p: nat, n: nat): (r: nat)
    requires n <= |g|
    ensures r == 0 || r > root
  {
    if n == 0 then 0
    else var m := SubLen(g, root, p, n - 1);
      if InSub(g, root, p, n - 1) && g[n - 1] > m then g[n - 1] else m
  }

  ghost function SubSize(g: seq<int>, root: nat, p: nat): (r: nat) {
    var m := SubLen(g, root, p, |g|);
    if m == 0 then 0 else Pow2(m - root)
  }

  ghost function SubSizes(g: seq<int>, root: nat, n: nat): (r: nat) {
    if n == 0 then 0 else SubSizes(g, root, n - 1) + SubSize(g, root, n - 1)
  }

  /** How many entries the tables need. */
  ghost function Entries(g: seq<int>, root: nat): (r: nat) {
    Pow2(root) + SubSizes(g, root, Pow2(root))
  }

  lemma {:induction false} SubLenMost(g: seq<int>, root: nat, p: nat, n: nat, s: nat)
    requires n <= |g| && s < n && InSub(g, root, p, s)
    ensures SubLen(g, root, p, n) >= g[s]
  {
    if s < n - 1 {
      SubLenMost(g, root, p, n - 1, s);
    }
  }

  lemma {:induction false} SubLenAtMost(g: seq<int>, root: nat, p: nat, n: nat, m: nat)
    requires n <= |g| && forall s :: InSub(g, root, p, s) ==> g[s] <= m
    ensures SubLen(g, root, p, n) <= m
  {
    if n > 0 {
      SubLenAtMost(g, root, p, n - 1, m);
    }
  }

  /** A sub-table has just the size that its longest code needs. */
  lemma {:induction false} SubSizeIs(g: seq<int>, root: nat, p: nat, b: nat)
    requires InSub(g, root, p, b) && forall s :: InSub(g, root, p, s) ==> g[s] <= g[b]
    ensures SubSize(g, root, p) == Pow2(g[b] - root)
  {
    SubLenMost(g, root, p, |g|, b);
    SubLenAtMost(g, root, p, |g|, g[b]);
  }

  lemma {:induction false} SubSizeNone(g: seq<int>, root: nat, p: nat)
    requires forall s :: !InSub(g, root, p, s)
    ensures SubSize(g, root, p) == 0
  {
    SubLenAtMost(g, root, p, |g|, 0);
  }

  lemma {:induction false} SizesGrow(g: seq<int>, root: nat, m: nat, n: nat)
    requires m <= n
    ensures SubSizes(g, root, m) <= SubSizes(g, root, n)
  {
    if m < n {
      SizesGrow(g, root, m, n - 1);
    }
  }

  /** Strings with which no longer code begins add nothing. */
  lemma {:induction false} SizesSame(g: seq<int>, root: nat, m: nat, n: nat)
    requires m <= n && forall s, p {:trigger InSub(g, root, p, s)} :: m <= p < n ==> !InSub(g, root, p, s)
    ensures SubSizes(g, root, m) == SubSizes(g, root, n)
  {
    if m < n {
      SizesSame(g, root, m, n - 1);
      SubSizeNone(g, root, n - 1);
    }
  }

  /** When no code is longer than root, the root table is all. */
  lemma {:induction false} RootOnly(g: seq<int>, root: nat)
    requires forall s {:trigger HasCode(g, s)} :: HasCode(g, s) ==> g[s] <= root
    ensures Entries(g, root) == Pow2(root)
  {
    SizesSame(g, root, 0, Pow2(root));
  }

  // ---------------------------------------------------------------- with a complete code

  /** The codes fit. */
  ghost predicate Sound(g: seq<int>) {
    Lengths(g, 1, 16) && forall k {:trigger Open(k)} :: Open(k) ==> Fits(g, MAXBITS)
  }

  /** The codes leave nothing; none is longer than max. */
  ghost predicate Full(g: seq<int>, max: nat) {
    forall k {:trigger Open(k)} :: Open(k) ==> End(g, max) == Pow2(max)
  }

  lemma {:induction false} SomeCodeOf(g: seq<int>, all: seq<int>, max: nat) returns (s: nat)
    requires Lengths(g, 1, 16) && Bin(all) && max <= MAXBITS && max <= |all| && Full(g, max)
    ensures Begins(all, g, s) && HasCode(g, s) && g[s] <= max
  {
    assert Open(0);
    s := SomeCode(g, all, max);
  }

  lemma {:induction false} CodeIn(g: seq<int>, s: nat)
    requires Sound(g) && HasCode(g, s)
    ensures First(g, g[s]) <= Code(g, s) < End(g, g[s]) && Code(g, s) < Pow2(g[s])
  {
    assert Open(0);
    CodeRange(g, MAXBITS, s);
  }

  lemma {:induction false} NoneBegins(g: seq<int>, b: nat, s: nat)
    requires Sound(g) && HasCode(g, b) && HasCode(g, s) && CodeBits(g, b) <= CodeBits(g, s)
    ensures b == s
  {
    assert Open(0);
    PrefixFree(CodeBits(g, s), g, MAXBITS, b, s);
  }

  lemma {:induction false} NotPrefix(g: seq<int>, b: nat, s: nat)
    requires Sound(g) && HasCode(g, b) && HasCode(g, s) && b != s && g[b] <= g[s]
    ensures Code(g, b) != Shr(Code(g, s), g[s] - g[b])
  {
    if Code(g, b) == Shr(Code(g, s), g[s] - g[b]) {
      BitsTop(Code(g, s), g[b], g[s] - g[b]);
      NoneBegins(g, b, s);
    }
  }

  lemma {:induction false} ShrOfLast(t: nat, m: nat)
    ensures Shl(t + 1, m) >= 1 && Shr(Shl(t + 1, m) - 1, m) == t
    decreases m
  {
    if m > 0 {
      ShrOfLast(t, m - 1);
      assert (2 * Shl(t + 1, m - 1) - 1) / 2 == Shl(t + 1, m - 1) - 1;
    }
  }

  /** Some code begins like the n bits of v, or they begin like it. */
  lemma {:induction false} Covering(g: seq<int>, max: nat, v: nat, n: nat) returns (b: nat)
    requires Sound(g) && n <= max <= MAXBITS && Full(g, max) && v < Pow2(n)
    ensures HasCode(g, b) && g[b] <= max
    ensures if g[b] <= n then Code(g, b) == Shr(v, n - g[b]) else Shr(Code(g, b), g[b] - n) == v
  {
    BitsBin(v, n);
    var all := Bits(v, n) + Zeros(max - n);
    b := SomeCodeOf(g, all, max);
    CodeIn(g, b);
    if g[b] <= n {
      assert CodeBits(g, b) <= Bits(v, n);
      TopOf(Bits(v, n), v, n, Code(g, b), g[b]);
    } else {
      assert Bits(v, n) <= CodeBits(g, b);
      TopOf(CodeBits(g, b), Code(g, b), g[b], v, n);
    }
  }

  lemma {:induction false} Above(g: seq<int>, v: nat, n: nat, l: nat)
    requires l <= n && v >= End(g, n)
    ensures Shr(v, n - l) >= End(g, l)
  {
    AboveShorter(g, 2 * v, n + 1, l);
    assert Shr(2 * v, n + 1 - l) == Shr(v, n - l);
  }

  /** Where the codes of n bits do not reach as far as the strings that begin with t, a longer code begins with t. */
  lemma {:induction false} LongerOne(g: seq<int>, max: nat, t: nat, root: nat, n: nat) returns (b: nat)
    requires Sound(g) && root <= n < max <= MAXBITS && Full(g, max)
    requires t < Pow2(root) && End(g, n) < Shl(t + 1, n - root)
    ensures InSub(g, root, t, b) && n < g[b] <= max
  {
    var v := Shl(t + 1, n - root) - 1;
    ShrOfLast(t, n - root);
    ShlMonotone(t + 1, Pow2(root), n - root);
    ShlPow(Pow2(root), n - root);
    Pow2Add(root, n - root);
    b := Covering(g, max, v, n);
    CodeIn(g, b);
    if g[b] <= n { Above(g, v, n, g[b]); }
    ShrShr(Code(g, b), g[b] - n, n - root);
  }

  lemma {:induction false} ShrBefore(c: nat, n: nat)
    requires Low(c, n) > 0
    ensures c > 0 && Shr(c - 1, n) == Shr(c, n)
    decreases n
  {
    if c % 2 == 0 {
      ShrBefore(c / 2, n - 1);
      assert (c - 1) / 2 == c / 2 - 1;
    } else {
      assert (c - 1) / 2 == c / 2;
    }
  }

  /** A code one less than that of s at its length, or a shorter one. */
  lemma {:induction false} Earlier(g: seq<int>, s: nat, b: nat)
    requires HasCode(g, s) && HasCode(g, b) && g[b] <= g[s] && (g[b] == g[s] ==> Code(g, b) < Code(g, s))
    ensures RowOf(g, b) < RowOf(g, s)
  {
    RowRange(g, b);
    RowRange(g, s);
    if g[b] < g[s] { BelowMonotone(g, |g|, g[b] + 1, g[s]); }
  }

  lemma {:induction false} NotAligned(g: seq<int>, s: nat, b: nat, root: nat, c: nat, n: nat)
    requires Sound(g) && HasCode(g, s) && HasCode(g, b) && root < g[s] && g[b] <= g[s] && b != s
    requires c == Code(g, s) > 0 && n == g[s] - root && Shr(c - 1, n) == Shr(c, n) && Code(g, b) == Shr(c - 1, g[s] - g[b])
    ensures g[b] > root && Top(g, b, root) == Top(g, s, root)
  {
    if g[b] > root {
      ShrShr(c - 1, g[s] - g[b], g[b] - root);
    } else {
      ShrShr(c - 1, n, root - g[b]);
      ShrShr(c, n, root - g[b]);
      NotPrefix(g, b, s);
    }
  }

  /** The code with which a sub-table begins has zeros behind its first root bits. */
  lemma {:induction false} Aligned(g: seq<int>, max: nat, s: nat, root: nat)
    requires Sound(g) && max <= MAXBITS && Full(g, max)
    requires HasCode(g, s) && root < g[s] <= max
    requires forall b {:trigger HasCode(g, b)} :: HasCode(g, b) && g[b] > root && RowOf(g, b) < RowOf(g, s) ==>
      Top(g, b, root) != Top(g, s, root)
    ensures Code(g, s) == Shl(Top(g, s, root), g[s] - root)
  {
    var c, n := Code(g, s), g[s] - root;
    ShrLow(c, n);
    if Low(c, n) > 0 {
      ShrBefore(c, n);
      CodeIn(g, s);
      var b := Covering(g, max, c - 1, g[s]);
      CodeIn(g, b);
      if g[b] > g[s] {
        AboveShorter(g, Code(g, b), g[b], g[s]);
      } else {
        Earlier(g, s, b);
        NotAligned(g, s, b, root, c, n);
      }
    }
  }
}
