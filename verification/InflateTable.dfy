/** inflate_table of inftrees.c: checks a set of code lengths and builds decoding tables for it. */
module InflateTable {
  import opened Common
  import opened BitStream
  import opened Bwt
  import opened CanonicalCode
  import opened DeflateCode
  import opened DecodeTable
  import opened TableFilling
  import opened TableBuilder
  import opened TableSize

  // ---------------------------------------------------------------- the lengths

  ghost function Longest(lens: seq<int>, n: nat): (r: int)
    requires n <= |lens|
  {
    if n == 0 then 0 else if lens[n - 1] > Longest(lens, n - 1) then lens[n - 1] else Longest(lens, n - 1)
  }

  lemma {:induction false} LongestIs(lens: seq<int>, n: nat, max: int)
    requires n <= |lens| && Lengths(lens, 0, MAXBITS) && 0 <= max
    requires (forall i :: 0 <= i < n ==> lens[i] <= max) && (max > 0 ==> CountTo(lens, n, max) > 0)
    ensures Longest(lens, n) == max
  {
    LongestMost(lens, n);
    if max > 0 {
      var k := CountWitness(lens, n, max);
    }
  }

  lemma {:induction false} LongestMost(lens: seq<int>, n: nat)
    requires n <= |lens|
    ensures Longest(lens, n) >= 0 && forall i :: 0 <= i < n ==> lens[i] <= Longest(lens, n)
    ensures Longest(lens, n) > 0 ==> exists i :: 0 <= i < n && lens[i] == Longest(lens, n)
  {
    if n > 0 {
      LongestMost(lens, n - 1);
    }
  }

  /** The shortest length that is not zero. */
  ghost function Shortest(lens: seq<int>, n: nat): (r: int)
    requires n <= |lens|
  {
    if n == 0 then 0
    else var m := Shortest(lens, n - 1);
      if lens[n - 1] > 0 && (m == 0 || lens[n - 1] < m) then lens[n - 1] else m
  }

  lemma {:induction false} ShortestIs(lens: seq<int>, n: nat, min: int)
    requires n <= |lens| && Lengths(lens, 0, MAXBITS) && min > 0 && CountTo(lens, n, min) > 0
    requires forall i :: 0 <= i < n && lens[i] > 0 ==> lens[i] >= min
    ensures Shortest(lens, n) == min
  {
    if CountTo(lens, n - 1, min) > 0 {
      ShortestIs(lens, n - 1, min);
    } else {
      forall i | 0 <= i < n - 1
        ensures lens[i] != min
      {
        if lens[i] == min { CountMonotone(lens, i + 1, n - 1, min); }
      }
      ShortestAbove(lens, n - 1, min);
    }
  }

  lemma {:induction false} ShortestAbove(lens: seq<int>, n: nat, min: int)
    requires n <= |lens| && (forall i :: 0 <= i < n && lens[i] > 0 ==> lens[i] > min) && CountTo(lens, n, min) == 0
    ensures Shortest(lens, n) == 0 || Shortest(lens, n) > min
  {
    if n > 0 {
      ShortestAbove(lens, n - 1, min);
    }
  }

  ghost predicate Counted(count: seq<int>, lens: seq<int>) {
    |count| == 16 && forall l :: 0 <= l <= MAXBITS ==> count[l] == CountTo(lens, |lens|, l)
  }

  method CountLengths(lens: seq<int>) returns (count: array<int>)
    requires Lengths(lens, 0, MAXBITS)
    ensures fresh(count) && Counted(count[..], lens)
  {
    count := new int[16](i => 0);
    for s := 0 to |lens|
      invariant forall l :: 0 <= l <= MAXBITS ==> count[l] == CountTo(lens, s, l)
    {
      count[lens[s]] := count[lens[s]] + 1;
    }
  }

  /** The longest and the shortest length. */
  method Bounds(count: array<int>, ghost lens: seq<int>) returns (min: nat, max: nat)
    requires Lengths(lens, 0, MAXBITS) && Counted(count[..], lens)
    ensures max == Longest(lens, |lens|) <= MAXBITS && (max > 0 ==> count[max] > 0)
    ensures max > 0 ==> 1 <= min <= max && count[min] > 0 && forall l :: 1 <= l < min ==> count[l] == 0
    ensures max > 0 ==> min == Shortest(lens, |lens|)
  {
    max := MAXBITS;
    while max >= 1 && count[max] == 0
      invariant max <= MAXBITS && forall l :: max < l <= MAXBITS ==> count[l] == 0
    {
      max := max - 1;
    }
    forall i | 0 <= i < |lens|
      ensures lens[i] <= max
    {
      CountPositive(lens, |lens|, i);
    }
    LongestIs(lens, |lens|, max);
    min := 1;
    while min < max && count[min] == 0
      invariant 1 <= min <= MAXBITS && (max > 0 ==> min <= max) && forall l :: 1 <= l < min ==> count[l] == 0
    {
      min := min + 1;
    }
    if max > 0 {
      forall i | 0 <= i < |lens| && lens[i] > 0
        ensures lens[i] >= min
      {
        CountPositive(lens, |lens|, i);
      }
      ShortestIs(lens, |lens|, min);
    }
  }

  /** What the codes leave of all strings of MAXBITS bits, or a negative number if they ask for more. */
  method Left(count: array<int>, ghost lens: seq<int>) returns (left: int)
    requires Lengths(lens, 0, MAXBITS) && Counted(count[..], lens)
    ensures left < 0 <==> Share(lens, |lens|) > Pow2(MAXBITS)
    ensures left >= 0 ==> left == Pow2(MAXBITS) - Share(lens, |lens|)
  {
    ghost var g := Used(lens);
    FitsIffShare(lens);
    ShareNone(g, |g|);
    left := 1;
    for l := 1 to MAXBITS + 1
      invariant 0 <= left == Pow2(l - 1) - End(g, l - 1)
    {
      UsedCount(lens, |lens|, l);
      left := 2 * left - count[l];
      if left < 0 {
        EndGrows(g, l, MAXBITS);
        return;
      }
    }
  }

  // ---------------------------------------------------------------- the symbols in order

  ghost predicate Offsets(offs: seq<int>, g: seq<int>, n: nat) {
    |offs| == 16 && n <= |g| && forall l :: 1 <= l <= MAXBITS ==> offs[l] == BelowTo(g, |g|, l) + CountTo(g, n, l)
  }

  ghost predicate InOrderTo(work: seq<int>, g: seq<int>, n: nat) {
    forall s {:trigger HasCode(g, s)} :: HasCode(g, s) && s < n ==> RowOf(g, s) < |work| && work[RowOf(g, s)] == s
  }

  method MakeOffsets(count: array<int>, ghost lens: seq<int>) returns (offs: array<int>)
    requires Lengths(lens, 0, MAXBITS) && Counted(count[..], lens)
    ensures fresh(offs) && Offsets(offs[..], Used(lens), 0)
  {
    ghost var g := Used(lens);
    offs := new int[16];
    offs[1] := 0;
    AllBelowLen(g, |g|, 1, 1);
    for l := 1 to MAXBITS
      invariant forall i :: 1 <= i <= l ==> offs[i] == BelowTo(g, |g|, i)
    {
      UsedCount(lens, |lens|, l);
      BelowStep(g, |g|, l);
      offs[l + 1] := offs[l] + count[l];
    }
  }

  lemma {:induction false} PlaceSymbol(work: seq<int>, work': seq<int>, g: seq<int>, n: nat, at: int)
    requires InOrderTo(work, g, n) && HasCode(g, n) && |work| >= |g| && at == RowOf(g, n) && at < |work|
        && work' == work[at := n]
    ensures InOrderTo(work', g, n + 1)
  {
    forall s {:trigger HasCode(g, s)} | HasCode(g, s) && s < n + 1
      ensures RowOf(g, s) < |work'| && work'[RowOf(g, s)] == s
    {
      if s < n { RowInjective(g, s, n); }
    }
  }

  /** Sorts the symbols by length, and within a length by number. */
  method SortSymbols(lens: seq<int>, count: array<int>, work: array<int>)
    requires Lengths(lens, 0, MAXBITS) && Counted(count[..], lens) && work.Length >= |lens| && work != count
    modifies work
    ensures InOrder(work[..], Used(lens))
  {
    ghost var g := Used(lens);
    var offs := MakeOffsets(count, lens);
    for s := 0 to |lens|
      invariant Offsets(offs[..], g, s) && InOrderTo(work[..], g, s)
    {
      if lens[s] != 0 {
        RowRange(g, s);
        ghost var before := work[..];
        work[offs[lens[s]]] := s;
        PlaceSymbol(before, work[..], g, s, RowOf(g, s));
        offs[lens[s]] := offs[lens[s]] + 1;
      }
    }
  }

  // ---------------------------------------------------------------- the last code

  /** The number after the last code is zero again exactly when the codes leave nothing. */
  lemma {:induction false} HuffAtEnd(g: seq<int>, max: nat)
    requires max <= MAXBITS && End(g, max) <= Pow2(max)
    ensures Huff(End(g, max), max) == 0 <==> End(g, max) == Pow2(max) || End(g, max) == 0
  {
    var e := End(g, max);
    BitsWiden(1, 0, max);
    BitsWiden(0, 0, max);
    ShlZero(max);
    ShlPow(1, max);
    assert Bits(1, 0) + Zeros(max) == Zeros(max) && Bits(0, 0) + Zeros(max) == Zeros(max);
    ValZeros(max);
    if Huff(e, max) == 0 && e < Pow2(max) {
      BitsBin(e, max);
      ValInjective(Bits(e, max), Zeros(max));
      BitsInjective(e, 0, max);
    }
  }

  lemma {:induction false} EndShareAt(lens: seq<int>, max: nat)
    requires Lengths(lens, 0, MAXBITS) && max == Longest(lens, |lens|) <= MAXBITS
    ensures Share(lens, |lens|) == Shl(End(Used(lens), max), MAXBITS - max) && NoneLonger(Used(lens), max)
    ensures forall l :: max < l <= MAXBITS ==> Cnt(Used(lens), l) == 0
  {
    var g := Used(lens);
    LongestMost(lens, |lens|);
    forall l | max < l <= MAXBITS
      ensures Cnt(g, l) == 0
    {
      NoneOf(g, |g|, l);
    }
    FitsIffShare(lens);
    EndBeyond(g, max, MAXBITS);
  }

  // ---------------------------------------------------------------- the whole

  /** Every symbol with a code can be found; what begins with no code leads to the marker for an invalid code. */
  ghost predicate Ready(t: seq<Entry>, lens: seq<int>, kind: Kind, root: nat) {
    && Lengths(lens, 0, MAXBITS) && Built(t, Job(Used(lens), kind, root)) && Share(lens, |lens|) <= Pow2(MAXBITS)
        && 1 <= root <= MAXBITS && Pow2(root) <= |t|
    && (Share(lens, |lens|) < Pow2(MAXBITS) ==>
          && root == 1 && |t| >= 2 && t[1] == INVALID && Longest(lens, |lens|) <= 1
          && (Longest(lens, |lens|) == 0 ==> t[0] == INVALID))
  }

  lemma {:induction false} MakeJob(lens: seq<int>, kind: Kind, root: nat)
    requires Lengths(lens, 0, MAXBITS) && Share(lens, |lens|) <= Pow2(MAXBITS) && 1 <= root <= MAXBITS
    requires forall s :: 0 <= s < |lens| ==> Known(kind, s)
    ensures Job(Used(lens), kind, root).Good() && Lengths(Used(lens), 1, 16)
  {
    FitsIffShare(lens);
  }

  /** No symbols at all. */
  lemma {:induction false} NothingToBuild(t: seq<Entry>, lens: seq<int>, kind: Kind)
    requires Lengths(lens, 0, MAXBITS) && Longest(lens, |lens|) == 0 && t == [INVALID, INVALID]
        && forall s :: 0 <= s < |lens| ==> Known(kind, s)
    ensures Ready(t, lens, kind, 1)
  {
    LongestMost(lens, |lens|);
    ShareZero(lens, |lens|);
    MakeJob(lens, kind, 1);
  }

  lemma {:induction false} ShareZero(lens: seq<int>, n: nat)
    requires n <= |lens| && Lengths(lens, 0, 0)
    ensures Share(lens, n) == 0
  {
    if n > 0 {
      ShareZero(lens, n - 1);
    }
  }

  /** With a single code of one bit, the other bit is marked. */
  lemma {:induction false} MarkInvalid(t: seq<Entry>, j: Job)
    requires Built(t, j) && j.root == 1 && NoneLonger(j.g, 1) && Cnt(j.g, 1) == 1 && |t| >= 2 && First(j.g, 1) == 0
    ensures Built(t[1 := INVALID], j)
  {
    assert Unfold(0);
    forall s {:trigger HasCode(j.g, s)} | HasCode(j.g, s)
      ensures Old(t[1 := INVALID], j, |t|, s)
    {
      assert Old(t, j, |t|, s);
      CountMonotone(j.g, s + 1, |j.g|, 1);
      assert Code(j.g, s) == 0 && j.Word(s) == Bits(0, 0) + [0];
      assert Val([1]) == 1;
      LinkBlock(t, [1], INVALID, 0, 1, j.Word(s), Meaning(j.kind, s, 1));
    }
  }

  /** The counts that the main loop starts with. */
  lemma {:induction false} StartCounts(count: seq<int>, lens: seq<int>, min: nat, max: nat)
    requires Lengths(lens, 0, MAXBITS) && Lengths(Used(lens), 1, 16) && Counted(count, lens)
        && 1 <= min <= max <= MAXBITS
    requires count[min] > 0 && count[max] > 0 && forall l :: 1 <= l < min ==> count[l] == 0
    ensures Counts(count, Used(lens), min, 0) && AtCode(Used(lens), 0, min, 0) && Huff(0, min) == 0
        && Cnt(Used(lens), max) > 0
  {
    var g := Used(lens);
    forall l | 1 <= l <= MAXBITS
      ensures Cnt(g, l) == count[l]
    {
      UsedCount(lens, |lens|, l);
    }
    FirstCode(g, min);
  }

  /** Whether the codes leave nothing can be seen at their longest length. */
  lemma {:induction false} ShlFull(e: nat, max: nat)
    requires max <= MAXBITS && e <= Pow2(max)
    ensures Shl(e, MAXBITS - max) == Pow2(MAXBITS) <==> e == Pow2(max)
  {
    Pow2Add(max, MAXBITS - max);
    ShlPow(Pow2(max), MAXBITS - max);
    if e < Pow2(max) {
      ShlBelowNext(e, 0, MAXBITS - max);
      ShlMonotone(e + 1, Pow2(max), MAXBITS - max);
    }
  }

  lemma {:induction false} EndFits(lens: seq<int>, l: nat)
    requires Lengths(lens, 0, MAXBITS) && Share(lens, |lens|) <= Pow2(MAXBITS) && l <= MAXBITS
    ensures End(Used(lens), l) <= Pow2(l)
  {
    FitsIffShare(lens);
  }

  lemma {:induction false} EndsExactly(lens: seq<int>, max: nat)
    requires Lengths(lens, 0, MAXBITS) && max == Longest(lens, |lens|) <= MAXBITS
        && Share(lens, |lens|) <= Pow2(MAXBITS) && Cnt(Used(lens), max) > 0
    ensures Huff(End(Used(lens), max), max) == 0 <==> Share(lens, |lens|) == Pow2(MAXBITS)
  {
    EndFits(lens, max);
    EndShareAt(lens, max);
    HuffAtEnd(Used(lens), max);
    ShlFull(End(Used(lens), max), max);
  }

  /** Codes of one bit that leave something: there is only one. */
  lemma {:induction false} OneCode(lens: seq<int>, max: nat)
    requires Lengths(lens, 0, MAXBITS) && max == Longest(lens, |lens|) == 1 && Cnt(Used(lens), 1) > 0
        && Share(lens, |lens|) < Pow2(MAXBITS)
    ensures Cnt(Used(lens), 1) == 1 && First(Used(lens), 1) == 0 && Huff(End(Used(lens), 1), 1) == 1
  {
    var g := Used(lens);
    EndsExactly(lens, 1);
    EndFits(lens, 1);
    ShareAll(lens, |lens|);
    ShareNone(g, |g|);
    assert First(g, 1) == 2 * (First(g, 0) + Cnt(g, 0));
    assert Pow2(1) == 2;
    HuffAtEnd(g, 1);
    assert Bits(1, 1) == Bits(0, 0) + [1];
    assert Bits(1, 1) == [1] && Val([1]) == 1;
  }

  /** Marks what a single code of one bit leaves. */
  method Finish(table: array<Entry>, huff: nat, next: nat, bits: int, used: nat, ghost lens: seq<int>, ghost j: Job)
    requires Lengths(lens, 0, MAXBITS) && Longest(lens, |lens|) == 1 && Share(lens, |lens|) < Pow2(MAXBITS)
        && Cnt(Used(lens), 1) > 0
    requires j == Job(Used(lens), j.kind, 1) && 2 <= used <= table.Length && Built(table[..][..used], j)
    requires huff == Huff(End(j.g, 1), 1) && next == 0 && bits == 1
    modifies table
    ensures Ready(table[..][..used], lens, j.kind, 1)
  {
    ghost var t := table[..][..used];
    OneCode(lens, 1);
    EndShareAt(lens, 1);
    MarkInvalid(t, j);
    table[next + huff] := Entry(64, bits, 0);
    assert table[..][..used] == t[1 := INVALID];
  }

  lemma {:induction false} AllFilled(t: seq<Entry>, lens: seq<int>, j: Job, z: Spot, g: int, k: int, max: nat,
      used: nat)
    requires Lengths(lens, 0, MAXBITS) && j.g == Used(lens) && max == Longest(lens, |lens|) <= MAXBITS
    requires Filling(t, j, z, g, k) && k == BelowTo(j.g, |j.g|, max) + Cnt(j.g, max) && used == z.base + Pow2(z.c)
    ensures Pow2(j.root) <= used <= |t| && Built(t[..used], j)
  {
    EndShareAt(lens, max);
    AllBuilt(t, j, z, g, k, max);
    SpotSize(t, j, z, g, k);
  }

  /** The codes that are accepted: not over-subscribed, and complete unless there is a single code of one bit. */
  ghost predicate Accepted(kind: Kind, lens: seq<int>)
    requires Lengths(lens, 0, MAXBITS)
  {
    || Longest(lens, |lens|) == 0
    || Share(lens, |lens|) == Pow2(MAXBITS)
    || (Share(lens, |lens|) < Pow2(MAXBITS) && kind != CODES && Longest(lens, |lens|) == 1)
  }

  /** The number of root bits: what is asked for, but no more than the longest code has and no fewer than the shortest. */
  ghost function RootBits(lens: seq<int>, bits: nat): (r: nat) {
    var min, max := Shortest(lens, |lens|), Longest(lens, |lens|);
    var root := if bits > max && max >= 0 then max else bits;
    if max == 0 then 1 else if root < min then min else root
  }

  /** How many entries are needed: two that lead to an error if there are no codes. */
  ghost function Needed(lens: seq<int>, bits: nat): (r: nat) {
    if Longest(lens, |lens|) == 0 then 2 else Entries(Used(lens), RootBits(lens, bits))
  }

  lemma RootIs(lens: seq<int>, bits: nat, min: nat, max: nat, root: nat)
    requires min == Shortest(lens, |lens|) && 0 < max == Longest(lens, |lens|)
    requires root == var r := if bits > max then max else bits; if r < min then min else r
    ensures root == RootBits(lens, bits) && Needed(lens, bits) == Entries(Used(lens), root)
  {
  }

  lemma SameSpace(kind: Kind, bits: nat, root: nat)
    requires kind != CODES
    ensures Space(kind, root) == Space(kind, bits)
  {
  }

  /** With all codes in the root table, 2^bits entries are enough. */
  lemma {:induction false} RootIsEnough(kind: Kind, lens: seq<int>, bits: nat)
    requires Lengths(lens, 0, MAXBITS) && 0 < Longest(lens, |lens|) <= bits && Pow2(bits) <= Space(kind, bits)
    ensures Needed(lens, bits) <= Space(kind, bits)
  {
    LongestMost(lens, |lens|);
    ShortestMost(lens, |lens|);
    EndShareAt(lens, Longest(lens, |lens|));
    RootOnly(Used(lens), RootBits(lens, bits));
    Pow2Grows(RootBits(lens, bits), bits);
  }

  lemma {:induction false} ShortestMost(lens: seq<int>, n: nat)
    requires n <= |lens| && Lengths(lens, 0, MAXBITS)
    ensures 0 <= Shortest(lens, n) <= Longest(lens, n)
  {
    if n > 0 {
      ShortestMost(lens, n - 1);
    }
  }

  /** A complete code is full at its longest length. */
  lemma {:induction false} CompleteFull(lens: seq<int>, max: nat)
    requires Lengths(lens, 0, MAXBITS) && max == Longest(lens, |lens|) <= MAXBITS && Share(lens, |lens|) == Pow2(MAXBITS)
    ensures Full(Used(lens), max)
  {
    EndFits(lens, max);
    EndShareAt(lens, max);
    ShlFull(End(Used(lens), max), max);
  }

  /** Builds the tables for lengths that have been found to be acceptable. */
  method MakeTables(kind: Kind, lens: seq<int>, count: array<int>, table: array<Entry>, work: array<int>, min: nat,
      max: nat, root: nat)
    returns (ok: bool, used: nat)
    requires Lengths(lens, 0, MAXBITS) && (forall s :: 0 <= s < |lens| ==> Known(kind, s)) && Counted(count[..], lens)
    requires max == Longest(lens, |lens|) && 1 <= min <= root <= max <= MAXBITS && (kind == CODES ==> root == max)
    requires count[min] > 0 && count[max] > 0 && forall l :: 1 <= l < min ==> count[l] == 0
    requires work.Length >= |lens| && work != count && table.Length >= Space(kind, root)
    requires Share(lens, |lens|) == Pow2(MAXBITS) || (Share(lens, |lens|) < Pow2(MAXBITS) && max == 1)
    modifies count, table, work
    ensures !ok ==> kind != CODES && Entries(Used(lens), root) > Space(kind, root)
    ensures ok ==> used <= table.Length && Ready(table[..][..used], lens, kind, root)
    ensures ok ==> used == Entries(Used(lens), root) && (kind != CODES ==> used <= Space(kind, root))
  {
    SortSymbols(lens, count, work);
    ghost var j := Job(Used(lens), kind, root);
    MakeJob(lens, kind, root);
    EndShareAt(lens, max);
    StartCounts(count[..], lens, min, max);
    if max != 1 { CompleteFull(lens, max); }
    var huff, next, drop;
    ghost var z, g;
    ok, used, huff, next, drop, z, g := Build(kind, lens, count, work[..], table, min, max, root, j);
    if ok {
      EndsExactly(lens, max);
      ghost var k := BelowTo(j.g, |j.g|, max) + Cnt(j.g, max);
      AllFilled(table[..], lens, j, z, g, k, max, used);
      if huff != 0 {
        SpotKinds(table[..], j, z, g, k);
        assert Pow2(1) == 2;
        Finish(table, huff, next, max - drop, used, lens, j);
      }
    }
  }

  /** Returns -1 exactly for lengths that are not accepted, and 1 exactly if the tables need more entries than there is
      space for. */
  method BuildTable(kind: Kind, lens: seq<int>, bits: nat, table: array<Entry>, work: array<int>)
      returns (r: int, root: nat, used: nat)
    requires Lengths(lens, 0, MAXBITS) && forall s :: 0 <= s < |lens| ==> Known(kind, s)
    requires work.Length >= |lens| && table.Length >= Space(kind, bits)
    requires kind == CODES ==> 1 <= bits && Lengths(lens, 0, bits)
    modifies table, work
    ensures r == -1 <==> !Accepted(kind, lens)
    ensures r == 1 <==> Accepted(kind, lens) && Needed(lens, bits) > Space(kind, bits)
    ensures r == 0 || r == 1 || r == -1
    ensures r == 0 ==> used <= table.Length && Ready(table[..][..used], lens, kind, root)
    ensures r == 0 ==> root == RootBits(lens, bits) && used == Needed(lens, bits)
  {
    var count := CountLengths(lens);
    root := bits;
    var min, max := Bounds(count, lens);
    if root > max { root := max; }
    if max == 0 {
      SpaceForTwo(kind, bits);
      MarkBoth(table, lens, kind);
      return 0, 1, 2;
    }
    if root < min { root := min; }
    RootIs(lens, bits, min, max, root);
    var left := Left(count, lens);
    if left < 0 { return -1, root, 0; }
    if left > 0 && (kind == CODES || max != 1) { return -1, root, 0; }
    SpaceForRoot(kind, lens, bits, root);
    if kind == CODES { RootIsEnough(kind, lens, bits); }
    var ok;
    ok, used := MakeTables(kind, lens, count, table, work, min, max, root);
    if kind != CODES { SameSpace(kind, bits, root); }
    r := if ok then 0 else 1;
  }

  /** A table that leads to an error whatever the input. */
  method MarkBoth(table: array<Entry>, ghost lens: seq<int>, ghost kind: Kind)
    requires Lengths(lens, 0, MAXBITS) && Longest(lens, |lens|) == 0 && table.Length >= 2 && forall s :: 0 <= s < |lens| ==> Known(kind, s)
    modifies table
    ensures Ready(table[..][..2], lens, kind, 1)
  {
    table[0] := INVALID;
    table[1] := INVALID;
    assert table[..][..2] == [INVALID, INVALID];
    NothingToBuild(table[..][..2], lens, kind);
  }

  lemma {:induction false} SpaceForRoot(kind: Kind, lens: seq<int>, bits: nat, root: nat)
    requires kind == CODES ==> Lengths(lens, 0, bits) && root <= Longest(lens, |lens|)
    ensures Space(kind, root) <= Space(kind, bits)
    ensures kind == CODES && root > 0 ==> Longest(lens, |lens|) <= bits
  {
    if kind == CODES && root > 0 {
      LongestMost(lens, |lens|);
      Pow2Grows(root, bits);
    } else if kind == CODES {
      Pow2Grows(root, bits);
    }
  }

  lemma {:induction false} Pow2Grows(m: nat, n: nat)
    requires m <= n
    ensures Pow2(m) <= Pow2(n)
  {
    if m < n {
      Pow2Grows(m, n - 1);
    }
  }

  lemma SpaceForTwo(kind: Kind, bits: nat)
    requires kind == CODES ==> bits >= 1
    ensures Space(kind, bits) >= 2
  {
    if kind == CODES { assert Pow2(bits) == 2 * Pow2(bits - 1); }
  }
}
