/** The main loop of inflate_table (inftrees.c): goes through the codes in order and fills in root table and sub-tables.
    */
module TableBuilder {
  import opened Common
  import opened BitStream
  import opened Bwt
  import opened CanonicalCode
  import opened DeflateCode
  import opened DecodeTable
  import opened TableFilling
  import opened TableSize

  // ---------------------------------------------------------------- codes backwards

  /** A code with its first bit lowest, as the table is indexed. */
  ghost function Huff(c: nat, n: nat): (r: nat) {
    BitsBin(c, n);
    Val(Bits(c, n))
  }

  /** Bit i of v. */
  lemma {:induction false} BitAt(v: nat, n: nat, i: nat)
    requires i < n
    ensures Shr(Huff(v, n), i) % 2 == Bits(v, n)[i] && Low(Huff(v, n), i) == (BitsBin(v, n); Val(Bits(v, n)[..i]))
  {
    BitsBin(v, n);
    ValParts(Bits(v, n), i);
  }

  lemma {:induction false} HuffCarry(c: nat, n: nat, i: nat)
    requires i < n && (forall k :: i < k < n ==> Bits(c, n)[k] == 1) && Bits(c, n)[i] == 0
    ensures Huff(c + 1, n) == Low(Huff(c, n), i) + Pow2(i)
  {
    var b := Bits(c, n);
    BitsBin(c, n);
    BitsNext(c, n, i);
    BitAt(c, n, i);
    ValPadded(b[..i] + [1], n - 1 - i);
    ValConcat(b[..i], [1]);
    assert Val([1]) == 1;
    ShlPow(1, i);
  }

  /** The next code of the same length: carries run from the last bit to the first. */
  method NextHuff(huff: nat, len: nat, ghost c: nat) returns (r: nat)
    requires len >= 1 && huff == Huff(c, len)
    ensures r == Huff(c + 1, len)
  {
    var i := len - 1;  // incr is 1 << i, or 0 when i is -1
    if i >= 0 { BitAt(c, len, i); }
    while i >= 0 && Shr(huff, i) % 2 == 1
      invariant -1 <= i < len && forall k :: i < k < len ==> Bits(c, len)[k] == 1
      invariant i >= 0 ==> Shr(huff, i) % 2 == Bits(c, len)[i]
    {
      i := i - 1;
      if i >= 0 { BitAt(c, len, i); }
    }
    if i >= 0 {
      BitsBin(c, len);
      assert 0 <= Bits(c, len)[i] <= 1;
      HuffCarry(c, len, i);
      r := Low(huff, i) + Pow2(i);
    } else {
      BitsNext(c, len, -1);
      assert [] + Zeros(len) == Zeros(len);
      ValZeros(len);
      r := 0;
    }
  }

  lemma {:induction false} BitsWiden(c: nat, n: nat, d: nat)
    ensures Bits(Shl(c, d), n + d) == Bits(c, n) + Zeros(d)
    decreases d
  {
    if d > 0 {
      BitsWiden(c, n, d - 1);
      assert Zeros(d) == Zeros(d - 1) + [0];
      assert Shl(c, d) / 2 == Shl(c, d - 1) && Shl(c, d) % 2 == 0;
    } else {
      assert Zeros(0) == [];
    }
  }

  /** Going on to longer codes leaves the number as it is. */
  lemma {:induction false} HuffWiden(c: nat, n: nat, d: nat)
    ensures Huff(Shl(c, d), n + d) == Huff(c, n)
  {
    BitsWiden(c, n, d);
    BitsBin(c, n);
    ValPadded(Bits(c, n), d);
  }

  // ---------------------------------------------------------------- going through the codes in order

  /** The sym-th symbol in order of codes has the given code. */
  ghost predicate AtCode(g: seq<int>, sym: int, len: nat, code: nat) {
    1 <= len <= MAXBITS && First(g, len) <= code < End(g, len) && sym == BelowTo(g, |g|, len) + code - First(g, len)
  }

  /** work lists the symbols in order of their codes. */
  ghost predicate InOrder(work: seq<int>, g: seq<int>) {
    forall s {:trigger HasCode(g, s)} :: HasCode(g, s) ==> RowOf(g, s) < |work| && work[RowOf(g, s)] == s
  }

  lemma {:induction false} SymbolHere(g: seq<int>, work: seq<int>, sym: int, len: nat, code: nat) returns (s: nat)
    requires AtCode(g, sym, len, code) && InOrder(work, g)
    ensures HasCode(g, s) && g[s] == len && Code(g, s) == code && RowOf(g, s) == sym && 0 <= sym < |work|
        && work[sym] == s
  {
    s := CodeWitness(g, len, code);
    assert HasCode(g, s);
  }

  lemma {:induction false} NextLengthFrom(g: seq<int>, len: nat, max: nat, l: nat) returns (l': nat)
    requires 1 <= len < l <= max <= MAXBITS && Cnt(g, max) > 0
    requires First(g, l) == Shl(End(g, len), l - len) && BelowTo(g, |g|, l) == BelowTo(g, |g|, len) + Cnt(g, len)
    ensures len < l' <= max && First(g, l') == Shl(End(g, len), l' - len)
        && AtCode(g, BelowTo(g, |g|, len) + Cnt(g, len), l', First(g, l'))
    decreases max - l
  {
    if Cnt(g, l) > 0 {
      l' := l;
    } else {
      BelowStep(g, |g|, l);
      l' := NextLengthFrom(g, len, max, l + 1);
    }
  }

  /** After the last code of a length comes the first of the next length that there are codes of. */
  lemma {:induction false} NextLength(g: seq<int>, len: nat, max: nat) returns (l': nat)
    requires 1 <= len < max <= MAXBITS && Cnt(g, max) > 0
    ensures len < l' <= max && First(g, l') == Shl(End(g, len), l' - len)
        && AtCode(g, BelowTo(g, |g|, len) + Cnt(g, len), l', First(g, l'))
  {
    BelowStep(g, |g|, len);
    assert Shl(End(g, len), 1) == 2 * Shl(End(g, len), 0);
    l' := NextLengthFrom(g, len, max, len + 1);
  }

  // ---------------------------------------------------------------- how large a sub-table must be

  /** How many codes of each length are still to come, when code is the next. */
  ghost predicate Counts(count: seq<int>, g: seq<int>, len: nat, code: nat) {
    && |count| == MAXBITS + 1 && 1 <= len <= MAXBITS && count[len] == End(g, len) - code
    && forall l :: len < l <= MAXBITS ==> count[l] == Cnt(g, l)
  }

  lemma {:induction false} PastEnd(g: seq<int>, b: int, root: nat, l: nat, t: nat)
    requires HasCode(g, b) && root <= l < g[b] && End(g, l) >= Shl(t, l - root)
    ensures Top(g, b, root) >= t
  {
    var c := Code(g, b);
    AboveShorter(g, c, g[b], l);
    ShrAbove(Shr(c, g[b] - l), t, l - root);
    ShrShr(c, g[b] - l, l - root);
  }

  /** Once the codes of length l reach the end of those that begin like s, no longer one begins like s. */
  lemma {:induction false} EnoughBy(j: Job, s: int, l: nat)
    requires j.Good() && HasCode(j.g, s) && j.root < j.g[s] && j.root <= l <= MAXBITS
    requires End(j.g, l) >= Shl(Top(j.g, s, j.root) + 1, l - j.root)
    ensures Enough(j, j.Word(s)[..j.root], l - j.root)
  {
    forall b {:trigger HasCode(j.g, b)} | HasCode(j.g, b) && j.g[b] > j.root
        && j.Word(b)[..j.root] == j.Word(s)[..j.root]
      ensures j.g[b] <= l
    {
      assert Open(0);
      SameTop(j.g, b, s, j.root);
      if j.g[b] > l {
        PastEnd(j.g, b, j.root, l, Top(j.g, s, j.root) + 1);
      }
    }
  }

  lemma {:induction false} FirstNeed(code: nat, n: nat)
    requires code == Shl(Shr(code, n), n)
    ensures Pow2(n) == Shl(Shr(code, n) + 1, n) - code
  {
    ShlAdd(Shr(code, n), 1, n);
    ShlPow(1, n);
  }

  /** Looks ahead at the numbers of codes to come until they reach the end of those that begin with the bits of t. */
  method LookAhead(count: seq<int>, len: nat, max: nat, root: nat, ghost g: seq<int>, ghost code: nat)
      returns (curr: nat)
    requires root < len <= max <= MAXBITS && Counts(count, g, len, code)
    requires code == Shl(Shr(code, len - root), len - root)
    ensures len <= root + curr <= max && (root + curr == max
        || End(g, root + curr) >= Shl(Shr(code, len - root) + 1, curr))
    ensures root + curr == len || End(g, root + curr - 1) < Shl(Shr(code, len - root) + 1, curr - 1)
  {
    curr := len - root;
    var left: int := Pow2(curr);
    FirstNeed(code, curr);
    ghost var t, from := Shr(code, curr) + 1, code;
    while curr + root < max
      invariant len <= curr + root <= max && count[curr + root] == End(g, curr + root) - from
      invariant left == Shl(t, curr) - from
      invariant root + curr == len || End(g, root + curr - 1) < Shl(t, curr - 1)
    {
      left := left - count[curr + root];
      if left <= 0 { return; }
      from := First(g, curr + root + 1);
      assert Shl(t, curr + 1) == 2 * Shl(t, curr);
      curr := curr + 1;
      left := 2 * left;
    }
  }

  ghost predicate NoneLonger(g: seq<int>, max: nat) {
    forall b {:trigger HasCode(g, b)} :: HasCode(g, b) ==> g[b] <= max
  }

  lemma {:induction false} EnoughFor(j: Job, s: int, len: nat, max: nat, curr: nat)
    requires j.Good() && HasCode(j.g, s) && j.g[s] == len && j.root < len <= j.root + curr <= max <= MAXBITS
        && NoneLonger(j.g, max)
    requires j.root + curr == max || End(j.g, j.root + curr) >= Shl(Shr(Code(j.g, s), len - j.root) + 1, curr)
    ensures Enough(j, j.Word(s)[..j.root], curr)
  {
    if j.root + curr < max { EnoughBy(j, s, j.root + curr); }
  }

  lemma SoundCode(j: Job)
    requires j.Good() && Lengths(j.g, 1, 16)
    ensures Sound(j.g)
  {
  }

  lemma {:induction false} TopWithin(g: seq<int>, s: nat, root: nat)
    requires Sound(g) && HasCode(g, s) && root <= g[s]
    ensures Top(g, s, root) < Pow2(root)
  {
    assert Open(0);
    TopBitsOf(g, s, root);
  }

  lemma {:induction false} SameWords(j: Job, a: int, b: int)
    requires j.Good() && HasCode(j.g, a) && HasCode(j.g, b) && j.root < j.g[a] && j.root < j.g[b]
    ensures j.Word(a)[..j.root] == j.Word(b)[..j.root] <==> Top(j.g, a, j.root) == Top(j.g, b, j.root)
  {
    assert Open(0);
    SameTop(j.g, a, b, j.root);
  }

  /** A longest code that begins like s fills the sub-table. */
  lemma {:induction false} ExactlyEnough(j: Job, s: int, len: nat, max: nat, curr: nat)
    requires j.Good() && Sound(j.g) && HasCode(j.g, s) && j.g[s] == len && j.root < len <= j.root + curr <= max <= MAXBITS
    requires Full(j.g, max) && Enough(j, j.Word(s)[..j.root], curr)
    requires j.root + curr == len || End(j.g, j.root + curr - 1) < Shl(Top(j.g, s, j.root) + 1, curr - 1)
    ensures SubSize(j.g, j.root, Top(j.g, s, j.root)) == Pow2(curr)
  {
    var t := Top(j.g, s, j.root);
    var b: nat := s;
    if j.root + curr > len {
      TopWithin(j.g, s, j.root);
      b := LongerOne(j.g, max, t, j.root, j.root + curr - 1);
    }
    forall x | InSub(j.g, j.root, t, x)
      ensures j.g[x] <= j.root + curr
    {
      SameWords(j, x, s);
    }
    SubSizeIs(j.g, j.root, t, b);
  }

  /** No code before that of s that is longer than root begins like it. */
  ghost predicate FirstOfTop(g: seq<int>, root: nat, s: int) {
    HasCode(g, s) && g[s] > root && forall b {:trigger HasCode(g, b)} ::
      HasCode(g, b) && g[b] > root && RowOf(g, b) < RowOf(g, s) ==> Top(g, b, root) != Top(g, s, root)
  }

  /** The size of the sub-table that s needs. */
  method SubTableBits(count: seq<int>, len: nat, max: nat, root: nat, ghost j: Job, ghost s: int) returns (curr: nat)
    requires j.Good() && j.root == root && HasCode(j.g, s) && j.g[s] == len && j.root < len <= max <= MAXBITS
    requires Counts(count, j.g, len, Code(j.g, s)) && NoneLonger(j.g, max)
    requires Sound(j.g) && Full(j.g, max) && FirstOfTop(j.g, root, s)
    ensures len <= j.root + curr <= max && Enough(j, j.Word(s)[..j.root], curr)
    ensures Pow2(curr) == SubSize(j.g, root, Top(j.g, s, root))
  {
    Aligned(j.g, max, s, root);
    curr := LookAhead(count, len, max, root, j.g, Code(j.g, s));
    EnoughFor(j, s, len, max, curr);
    ExactlyEnough(j, s, len, max, curr);
  }

  // ---------------------------------------------------------------- how many entries have been used

  /** What the tables up to that of s take up; drop tells whether there are sub-tables yet. */
  ghost predicate Reckoned(g: seq<int>, root: nat, drop: nat, s: int, used: int) {
    HasCode(g, s) && (drop != 0 ==> g[s] > root) && forall k {:trigger Unfold(k)} :: Unfold(k) ==>
      used == Pow2(root) + SubSizes(g, root, if drop == 0 then 0 else Top(g, s, root) + 1)
  }

  /** What the tables before that of s take up. */
  ghost predicate BeforeSub(g: seq<int>, root: nat, s: int, used: int) {
    HasCode(g, s) && g[s] > root && forall k {:trigger Unfold(k)} :: Unfold(k) ==>
      used == Pow2(root) + SubSizes(g, root, Top(g, s, root))
  }

  lemma {:induction false} ShortSoFar(t: seq<Entry>, j: Job, z: Spot, g: int, k: int, b: int)
    requires Filling(t, j, z, g, k) && z.drop == 0 && HasCode(j.g, b) && RowOf(j.g, b) < k
    ensures j.g[b] <= j.root
  {
    assert Unfold(0);
    assert Cur(t, j, z, b);
  }

  /** Where a new sub-table begins, those before it are all that come before it in order. */
  lemma {:induction false} NewReckoned(t: seq<Entry>, j: Job, z: Spot, g: int, k: int, s: int, last: int, used: int)
    requires Filling(t, j, z, g, k) && HasCode(j.g, s) && RowOf(j.g, s) == k && j.g[s] > j.root && Sound(j.g)
    requires z.drop == 0 || (HasCode(j.g, last) && g <= RowOf(j.g, last) == k - 1 && j.Word(s)[..j.root] != z.p)
    requires Reckoned(j.g, j.root, z.drop, last, used)
    ensures FirstOfTop(j.g, j.root, s) && BeforeSub(j.g, j.root, s, used)
  {
    assert Unfold(0);
    forall b {:trigger HasCode(j.g, b)} | HasCode(j.g, b) && j.g[b] > j.root && RowOf(j.g, b) < k
      ensures Top(j.g, b, j.root) != Top(j.g, s, j.root)
    {
      NewPrefix(t, j, z, g, k, s, last, b);
      SameWords(j, b, s);
    }
    if z.drop != 0 { TopInOrder(j.g, last, s, j.root); }
    var from := if z.drop == 0 then 0 else Top(j.g, last, j.root) + 1;
    forall b, p {:trigger InSub(j.g, j.root, p, b)} | from <= p < Top(j.g, s, j.root) && InSub(j.g, j.root, p, b)
      ensures false
    {
      if RowOf(j.g, b) >= k {
        TopInOrder(j.g, s, b, j.root);
      } else if z.drop == 0 {
        ShortSoFar(t, j, z, g, k, b);
      } else {
        TopInOrder(j.g, b, last, j.root);
      }
    }
    SizesSame(j.g, j.root, from, Top(j.g, s, j.root));
  }

  /** When s is the last symbol, the tables are all that is needed. */
  lemma {:induction false} AllReckoned(t: seq<Entry>, j: Job, z: Spot, g: int, k: int, s: int, used: int, max: nat)
    requires Filling(t, j, z, g, k) && Sound(j.g) && Reckoned(j.g, j.root, z.drop, s, used) && NoneLonger(j.g, max)
    requires k == BelowTo(j.g, |j.g|, max) + Cnt(j.g, max) && RowOf(j.g, s) == k - 1
    ensures used == Entries(j.g, j.root)
  {
    assert Unfold(0);
    if z.drop == 0 {
      forall b {:trigger HasCode(j.g, b)} | HasCode(j.g, b)
        ensures j.g[b] <= j.root
      {
        RowsUpTo(j.g, b, max);
        ShortSoFar(t, j, z, g, k, b);
      }
      RootOnly(j.g, j.root);
    } else {
      var from := Top(j.g, s, j.root) + 1;
      TopWithin(j.g, s, j.root);
      forall b, p {:trigger InSub(j.g, j.root, p, b)} | from <= p < Pow2(j.root) && InSub(j.g, j.root, p, b)
        ensures false
      {
        RowsUpTo(j.g, b, max);
        TopInOrder(j.g, b, s, j.root);
      }
      SizesSame(j.g, j.root, from, Pow2(j.root));
    }
  }

  // ---------------------------------------------------------------- the steps of the main loop

  lemma {:induction false} SpotSize(t: seq<Entry>, j: Job, z: Spot, g: int, k: int)
    requires Filling(t, j, z, g, k)
    ensures 0 <= z.base && Pow2(j.root) <= z.base + Pow2(z.c) <= |t|
  {
    assert Unfold(0);
  }

  /** Fills in the code of one symbol. */
  method PutCode(table: array<Entry>, huff: nat, len: nat, next: nat, curr: nat, drop: nat, here: Entry,
                 ghost j: Job, ghost z: Spot, ghost g: int, ghost k: int, ghost s: int)
    requires z == Spot(next, curr, drop, z.p)
    requires Filling(table[..], j, z, g, k) && Fitting(j, z, s) && RowOf(j.g, s) == k
    requires j.g[s] == len && huff == Huff(Code(j.g, s), len) && here == Meaning(j.kind, s, len - z.drop)
    modifies table
    ensures Filling(table[..], j, z, g, k + 1)
  {
    ghost var was := table[..];
    SpotSize(was, j, z, g, k);
    WordBin(j, s);
    ValParts(j.Word(s), z.drop);
    ValBelow(j.Word(s)[z.drop..]);
    Fill(table, next, curr, Shr(huff, drop), len - drop, here);
    FillKeeps(was, table[..], j, z, g, k, s);
  }

  /** Whether the root entry of s is another than that of the table being filled. */
  lemma {:induction false} RootEntry(t: seq<Entry>, j: Job, z: Spot, g: int, k: int, s: int, huff: nat, low: int)
    requires Filling(t, j, z, g, k) && HasCode(j.g, s) && j.g[s] > j.root && huff == Huff(Code(j.g, s), j.g[s])
    requires Bin(z.p) && low == (if z.drop == 0 then -1 else Val(z.p))
    ensures Bin(j.Word(s)[..j.root]) && Low(huff, j.root) == Val(j.Word(s)[..j.root]) < Pow2(j.root)
    ensures z.drop != 0 ==> (Low(huff, j.root) == low <==> j.Word(s)[..j.root] == z.p)
    ensures z.drop != 0 && Low(huff, j.root) == low ==> Fitting(j, z, s)
  {
    assert Unfold(0);
    WordBin(j, s);
    ValParts(j.Word(s), j.root);
    ValBelow(j.Word(s)[..j.root]);
    if z.drop != 0 && Low(huff, j.root) == low { ValInjective(j.Word(s)[..j.root], z.p); }
  }

  /** How many entries the callers provide. */
  function Space(kind: Kind, bits: nat): (r: nat) {
    match kind case CODES => Pow2(bits) case LENS => 852 case DISTS => 592
  }

  lemma {:induction false} NeededSoFar(g: seq<int>, root: nat, s: int, used: int, curr: nat)
    requires root >= 1 && Sound(g) && BeforeSub(g, root, s, used) && Pow2(curr) == SubSize(g, root, Top(g, s, root))
    ensures Reckoned(g, root, root, s, used + Pow2(curr)) && used + Pow2(curr) <= Entries(g, root)
  {
    assert Unfold(0);
    TopWithin(g, s, root);
    SizesGrow(g, root, Top(g, s, root) + 1, Pow2(root));
  }

  /** Begins the sub-table that s needs, behind the table being filled, and links it to the root table. */
  method NewTable(table: array<Entry>, count: seq<int>, huff: nat, len: nat, max: nat, root: nat, kind: Kind, used: nat,
      low: int,
                  ghost j: Job, ghost z: Spot, ghost g: int, ghost k: int, ghost s: int, ghost last: int)
                      returns (ok: bool, curr: nat)
    requires Filling(table[..], j, z, g, k) && j.root == root && j.kind == kind && HasCode(j.g, s) && RowOf(j.g, s) == k
        && j.g[s] == len
    requires root < len <= max <= MAXBITS && huff == Huff(Code(j.g, s), len) && NoneLonger(j.g, max)
        && Counts(count, j.g, len, Code(j.g, s))
    requires Bin(z.p) && low == (if z.drop == 0 then -1 else Val(z.p)) && Low(huff, root) != low
    requires z.drop == 0 || (HasCode(j.g, last) && g <= RowOf(j.g, last) == k - 1)
    requires kind != CODES && table.Length >= Space(kind, 0) && used == z.base + Pow2(z.c)
    requires Sound(j.g) && Full(j.g, max) && Reckoned(j.g, root, z.drop, last, used)
    modifies table
    ensures ok ==> Reckoned(j.g, root, root, s, used + Pow2(curr))
    ensures !ok ==> Entries(j.g, root) > Space(kind, 0)
    ensures ok ==> Filling(table[..], j, Spot(used, curr, root, j.Word(s)[..root]), k, k)
    ensures ok ==> used + Pow2(curr) <= Space(kind, 0) && Fitting(j, Spot(used, curr, root, j.Word(s)[..root]), s)
  {
    ghost var t := table[..];
    RootEntry(t, j, z, g, k, s, huff, low);
    SpotSize(t, j, z, g, k);
    NewReckoned(t, j, z, g, k, s, last, used);
    curr := SubTableBits(count, len, max, root, j, s);
    NeededSoFar(j.g, root, s, used, curr);
    if used + Pow2(curr) > Space(kind, 0) { return false, curr; }
    ghost var y := Spot(used, curr, root, j.Word(s)[..root]);
    var at := Low(huff, root);
    table[at] := Entry(curr, root, used);
    LinkKeeps(t, table[..], j, z, g, k, s, last, y);
    ok := true;
  }

  // ---------------------------------------------------------------- the main loop

  /** All symbols with codes can be found. */
  ghost predicate Built(t: seq<Entry>, j: Job) {
    j.Good() && forall u {:trigger Unfold(u)} :: Unfold(u) ==> forall s {:trigger HasCode(j.g, s)} :: HasCode(j.g, s) ==> Old(t, j, |t|, s)
  }

  lemma {:induction false} TrimBlock(t: seq<Entry>, lim: nat, b: int, c: nat, w: seq<int>, e: Entry)
    requires lim <= |t| && Block(t, b, c, w, e) && b + Pow2(c) <= lim
    ensures Block(t[..lim], b, c, w, e)
  {
    forall x | |x| == c && Bin(x) && w <= x
      ensures Slot(t[..lim], b, x) == e
    {
      ValBelow(x);
      assert Slot(t, b, x) == e;
    }
  }

  lemma {:induction false} TrimOld(t: seq<Entry>, j: Job, lim: nat, s: int)
    requires j.Good() && HasCode(j.g, s) && Pow2(j.root) <= lim <= |t| && Old(t, j, lim, s)
    ensures Old(t[..lim], j, lim, s)
  {
    var w := j.Word(s);
    WordBin(j, s);
    if j.g[s] <= j.root {
      TrimBlock(t, lim, 0, j.root, w, Meaning(j.kind, s, j.g[s]));
    } else {
      var e := Slot(t, 0, w[..j.root]);
      ValBelow(w[..j.root]);
      assert Slot(t[..lim], 0, w[..j.root]) == e;
      TrimBlock(t, lim, e.val, e.op, w[j.root..], Meaning(j.kind, s, j.g[s] - j.root));
    }
  }

  lemma {:induction false} RowsUpTo(g: seq<int>, s: nat, max: nat)
    requires s < |g| && g[s] <= max
    ensures RowOf(g, s) < BelowTo(g, |g|, max) + Cnt(g, max)
  {
    RowRange(g, s);
    BelowStep(g, |g|, max);
    BelowMonotone(g, |g|, g[s] + 1, max + 1);
  }

  lemma {:induction false} AllBuilt(t: seq<Entry>, j: Job, z: Spot, g: int, k: int, max: nat)
    requires Filling(t, j, z, g, k) && NoneLonger(j.g, max) && k == BelowTo(j.g, |j.g|, max) + Cnt(j.g, max)
    ensures 0 <= z.base + Pow2(z.c) <= |t| && Built(t[..z.base + Pow2(z.c)], j)
  {
    Retire(t, j, z, g, k);
    SpotSize(t, j, z, g, k);
    var lim := z.base + Pow2(z.c);
    forall s {:trigger HasCode(j.g, s)} | HasCode(j.g, s)
      ensures Old(t[..lim], j, lim, s)
    {
      RowsUpTo(j.g, s, max);
      TrimOld(t, j, lim, s);
    }
  }

  /** Before any symbol is filled in. */
  lemma {:induction false} StartFilling(t: seq<Entry>, j: Job)
    requires j.Good() && Pow2(j.root) <= |t|
    ensures Filling(t, j, Spot(0, j.root, 0, []), 0, 0)
  {
  }

  /** s is the next symbol in order. */
  ghost predicate IsNext(j: Job, work: seq<int>, s: int, sym: int, len: int) {
    && HasCode(j.g, s) && j.g[s] == len && AtCode(j.g, sym, len, Code(j.g, s)) && RowOf(j.g, s) == sym
    && 0 <= sym < |work| && work[sym] == s
  }

  /** What the main loop has done when s is the next symbol. */
  ghost predicate Reached(t: seq<Entry>, count: seq<int>, j: Job, z: Spot, g: int, s: int, k: int, huff: nat, low: int,
      used: int) {
    && HasCode(j.g, s) && RowOf(j.g, s) == k && Filling(t, j, z, g, k) && huff == Huff(Code(j.g, s), j.g[s])
        && Counts(count, j.g, j.g[s], Code(j.g, s))
    && used == z.base + Pow2(z.c) && Bin(z.p) && low == (if z.drop == 0 then -1 else Val(z.p))
    && (z.drop == 0 || z.drop == j.root)
  }

  /** Goes on to the next code: the same length, or the next one there is. */
  method Advance(lens: seq<int>, work: seq<int>, count: array<int>, max: nat, huff: nat, sym: nat, len: nat,
                 ghost g: seq<int>, ghost code: nat) returns (done: bool, len': nat, ghost code': nat)
    requires g == Used(lens) && InOrder(work, g) && AtCode(g, sym, len, code) && len <= max <= MAXBITS
        && Cnt(g, max) > 0
    requires count.Length == 16 && Counts(count[..], g, len, code) && huff == Huff(code + 1, len)
    modifies count
    ensures done ==> len == max && code + 1 == End(g, max)
    ensures !done ==> len <= len' <= max && AtCode(g, sym + 1, len', code') && Counts(count[..], g, len', code') && huff == Huff(code', len')
  {
    count[len] := count[len] - 1;
    len', code', done := len, code + 1, false;
    if count[len] == 0 {
      if len == max { return true, len, code'; }
      ghost var l := NextLength(g, len, max);
      code' := First(g, l);
      ghost var s := SymbolHere(g, work, sym + 1, l, code');
      HuffWiden(code + 1, len, l - len);
      len' := lens[work[sym + 1]];
    }
  }

  /** Goes on to the next symbol and its code. */
  method NextSymbol(lens: seq<int>, work: seq<int>, count: array<int>, max: nat, huff0: nat, sym: nat, len0: nat,
      ghost j: Job, ghost s0: int)
    returns (done: bool, huff: nat, len: nat, ghost s: int)
    requires j.g == Used(lens) && InOrder(work, j.g) && IsNext(j, work, s0, sym, len0) && len0 <= max <= MAXBITS
        && Cnt(j.g, max) > 0
    requires count.Length == 16 && Counts(count[..], j.g, len0, Code(j.g, s0)) && huff0 == Huff(Code(j.g, s0), len0)
    modifies count
    ensures done ==> s == s0 && len0 == max && Code(j.g, s0) + 1 == End(j.g, max) && huff == Huff(End(j.g, max), max)
    ensures !done ==> IsNext(j, work, s, sym + 1, len) && len0 <= len <= max
    ensures !done ==> Counts(count[..], j.g, len, Code(j.g, s)) && huff == Huff(Code(j.g, s), len)
  {
    ghost var c := Code(j.g, s0);
    huff := NextHuff(huff0, len0, c);
    ghost var code;
    done, len, code := Advance(lens, work, count, max, huff, sym, len0, j.g, c);
    s := s0;
    if !done { s := SymbolHere(j.g, work, sym + 1, len, code); }
  }

  lemma {:induction false} SpotKinds(t: seq<Entry>, j: Job, z: Spot, g: int, k: int)
    requires Filling(t, j, z, g, k)
    ensures z.drop == 0 || z.drop == j.root
    ensures z.drop == 0 ==> z.base == 0 && z.c == j.root && z.p == []
  {
    assert Unfold(0);
  }

  /** A new sub-table, if s does not belong to the table being filled. */
  method TableFor(table: array<Entry>, count: seq<int>, huff: nat, len: nat, max: nat, root: nat, kind: Kind,
      next0: nat, curr0: nat, drop0: nat,
                  low0: int, used0: nat, ghost j: Job, ghost z0: Spot, ghost g0: int, ghost k: int, ghost s: int,
                      ghost last: int)
    returns (ok: bool, next: nat, curr: nat, drop: nat, low: int, used: nat, ghost z: Spot, ghost g: int)
    requires Reached(table[..], count, j, z0, g0, s, k, huff, low0, used0) && z0 == Spot(next0, curr0, drop0, z0.p)
    requires j.root == root && j.kind == kind && j.g[s] == len <= max <= MAXBITS && NoneLonger(j.g, max)
        && (kind == CODES ==> root == max)
    requires z0.drop == 0 || (root < len && HasCode(j.g, last) && g0 <= RowOf(j.g, last) == k - 1)
    requires g0 <= k && used0 <= table.Length && (kind != CODES ==> used0 <= Space(kind, 0) <= table.Length)
    requires Sound(j.g) && (Full(j.g, max) || root == max) && Reckoned(j.g, root, drop0, last, used0)
    requires drop0 != 0 ==> j.Word(last)[..root] == z0.p
    modifies table
    ensures ok ==> Reckoned(j.g, root, drop, s, used) && (kind != CODES ==> used <= Space(kind, 0))
    ensures !ok ==> Entries(j.g, root) > Space(kind, 0)
    ensures ok ==> Reached(table[..], count, j, z, g, s, k, huff, low, used) && z == Spot(next, curr, drop, z.p) && Fitting(j, z, s) && g <= k
    ensures ok ==> used <= table.Length
    ensures !ok ==> kind != CODES
  {
    ok, next, curr, drop, low, used := true, next0, curr0, drop0, low0, used0;
    z, g := z0, g0;
    SpotKinds(table[..], j, z0, g0, k);
    if len > root {
      RootEntry(table[..], j, z0, g0, k, s, huff, low0);
      if Low(huff, root) != low {
        drop := root;
        next := used;
        ok, curr := NewTable(table, count, huff, len, max, root, kind, used, low, j, z0, g0, k, s, last);
        if !ok { return; }
        z, g := Spot(next, curr, root, j.Word(s)[..root]), k;
        used := used + Pow2(curr);
        low := Low(huff, root);
      } else {
        SameWords(j, last, s);
        assert Unfold(0);
      }
    }
  }

  lemma {:induction false} FirstCode(g: seq<int>, min: nat)
    requires Lengths(g, 1, 16) && 1 <= min <= MAXBITS && Cnt(g, min) > 0 && forall l :: 1 <= l < min ==> Cnt(g, l) == 0
    ensures AtCode(g, 0, min, 0) && Huff(0, min) == 0
  {
    FirstNone(g, min);
    BitsWiden(0, 0, min);
    ShlZero(min);
    ValZeros(min);
    assert [] + Zeros(min) == Zeros(min);
  }

  lemma {:induction false} FirstNone(g: seq<int>, m: nat)
    requires Lengths(g, 1, 16) && 1 <= m <= MAXBITS && forall l :: 1 <= l < m ==> Cnt(g, l) == 0
    ensures First(g, m) == 0 && BelowTo(g, |g|, m) == 0
    decreases m
  {
    if m == 1 {
      ShareNone(g, |g|);
      AllBelowLen(g, |g|, 1, 1);
    } else {
      FirstNone(g, m - 1);
      BelowStep(g, |g|, m - 1);
    }
  }

  /** Fills the tables, code by code. */
  method Build(kind: Kind, lens: seq<int>, count: array<int>, work: seq<int>, table: array<Entry>, min: nat, max: nat,
      root: nat, ghost j: Job)
    returns (ok: bool, used: nat, huff: nat, next: nat, drop: nat, ghost z: Spot, ghost g: int)
    requires j == Job(Used(lens), kind, root) && j.Good() && Lengths(j.g, 1, 16) && InOrder(work, j.g)
    requires 1 <= min <= root <= max <= MAXBITS && Cnt(j.g, max) > 0 && NoneLonger(j.g, max)
        && (kind == CODES ==> root == max)
    requires count.Length == 16 && Counts(count[..], j.g, min, 0) && AtCode(j.g, 0, min, 0) && Huff(0, min) == 0
    requires if kind == CODES then Pow2(root) <= table.Length else Space(kind, 0) <= table.Length
    requires Full(j.g, max) || root == max
    modifies count, table
    ensures !ok ==> kind != CODES && Entries(j.g, root) > Space(kind, 0)
    ensures ok ==> used == Entries(j.g, root) && (kind != CODES ==> used <= Space(kind, 0))
    ensures ok ==> Filling(table[..], j, z, g, BelowTo(j.g, |j.g|, max) + Cnt(j.g, max)) && used == z.base + Pow2(z.c) && next == z.base && drop == z.drop
    ensures ok ==> huff == Huff(End(j.g, max), max) && drop < max
  {
    var sym, len, curr, low := 0, min, root, -1;
    huff, used, next, drop := 0, Pow2(root), 0, 0;
    if kind != CODES && used > Space(kind, 0) { return false, used, huff, next, drop, Spot(0, 0, 0, []), 0; }
    SoundCode(j);
    StartFilling(table[..], j);
    z, g := Spot(0, root, 0, []), 0;
    ghost var s := SymbolHere(j.g, work, 0, min, 0);
    while true
      invariant IsNext(j, work, s, sym, len) && Reached(table[..], count[..], j, z, g, s, sym, huff, low, used)
      invariant z == Spot(next, curr, drop, z.p) && Fitting(j, z, s) && g <= sym && used <= table.Length && len <= max
      invariant Reckoned(j.g, root, drop, s, used) && (kind != CODES ==> used <= Space(kind, 0))
      decreases |work| - sym
    {
      var here := Meaning(kind, work[sym], len - drop);
      PutCode(table, huff, len, next, curr, drop, here, j, z, g, sym, s);
      ghost var last := s;
      var done;
      done, huff, len, s := NextSymbol(lens, work, count, max, huff, sym, len, j, s);
      sym := sym + 1;
      if done { break; }
      ok, next, curr, drop, low, used, z, g := TableFor(table, count[..], huff, len, max, root, kind, next, curr, drop,
          low, used, j, z, g, sym, s, last);
      if !ok { return; }
    }
    AllReckoned(table[..], j, z, g, sym, s, used, max);
    ok := true;
  }
}
