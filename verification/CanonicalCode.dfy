/** Canonical prefix codes of huffman.c: BZ2_hbAssignCodes, BZ2_hbCreateDecodeTables, and the
    limit/base/perm decoding of GET_MTF_VAL. */
module CanonicalCode {
  import opened Common
  import opened BitStream
  import opened Bwt

  /** How many symbols have a code of length l. */
  ghost function Cnt(lens: seq<int>, l: int): (r: nat) {
    CountTo(lens, |lens|, l)
  }

  /** The first code of length l: codes of one length are consecutive, and the next length goes on
      with a zero bit appended. */
  ghost function First(lens: seq<int>, l: nat): (r: nat) {
    if l == 0 then 0 else 2 * (First(lens, l - 1) + Cnt(lens, l - 1))
  }

  ghost function Code(lens: seq<int>, i: nat): (r: nat)
    requires i < |lens| && lens[i] >= 0
  {
    First(lens, lens[i]) + CountTo(lens, i, lens[i])
  }

  ghost predicate Lengths(lens: seq<int>, lo: int, hi: int) {
    forall i :: 0 <= i < |lens| ==> lo <= lens[i] <= hi
  }

  /** No length has more codes than fit: the set of lengths is not over-subscribed. */
  ghost predicate Fits(lens: seq<int>, hi: nat) {
    forall l :: 0 <= l <= hi ==> First(lens, l) + Cnt(lens, l) <= Pow2(l)
  }

  lemma {:induction false} CodeRange(lens: seq<int>, hi: nat, i: nat)
    requires i < |lens| && 0 <= lens[i] <= hi && Fits(lens, hi)
    ensures First(lens, lens[i]) <= Code(lens, i) < First(lens, lens[i]) + Cnt(lens, lens[i]) <= Pow2(lens[i])
  {
    CountMonotone(lens, i + 1, |lens|, lens[i]);
  }

  lemma {:induction false} FirstZero(lens: seq<int>, lo: int, l: nat)
    requires Lengths(lens, lo, 20) && l <= lo
    ensures First(lens, l) == 0
  {
    if l > 0 {
      FirstZero(lens, lo, l - 1);
      NoneOf(lens, |lens|, l - 1);
    }
  }

  lemma {:induction false} NoneOf(lens: seq<int>, n: nat, l: int)
    requires n <= |lens| && forall i :: 0 <= i < |lens| ==> lens[i] != l
    ensures CountTo(lens, n, l) == 0
  {
    if n > 0 {
      NoneOf(lens, n - 1, l);
    }
  }

  // ---------------------------------------------------------------- the encoder's codes

  method AssignCodes(code: array<int>, lens: seq<int>, minLen: nat, maxLen: nat)
    requires code.Length >= |lens| && minLen <= maxLen && Lengths(lens, minLen, maxLen) && maxLen <= 20
    modifies code
    ensures forall i :: 0 <= i < |lens| ==> code[i] == Code(lens, i)
  {
    var vec := 0;
    FirstZero(lens, minLen, minLen);
    for n := minLen to maxLen + 1
      invariant vec == First(lens, n)
      invariant forall i :: 0 <= i < |lens| && lens[i] < n ==> code[i] == Code(lens, i)
    {
      for i := 0 to |lens|
        invariant vec == First(lens, n) + CountTo(lens, i, n)
        invariant forall j :: 0 <= j < |lens| && (lens[j] < n || (lens[j] == n && j < i)) ==> code[j] == Code(lens, j)
      {
        if lens[i] == n {
          code[i] := vec;
          vec := vec + 1;
        }
      }
      vec := 2 * vec;
    }
  }

  // ---------------------------------------------------------------- the decoder's tables

  /** What the tables mean: the last code of each length, and where each length's codes lie in perm. */
  ghost predicate Tables(lens: seq<int>, minLen: nat, maxLen: nat, limit: seq<int>, base: seq<int>, perm: seq<int>) {
    && minLen <= maxLen <= 20 && Lengths(lens, minLen, maxLen) && |limit| >= 23 && |base| >= 23 && |perm| >= |lens|
    && Attained(lens, maxLen)
    && Limits(limit, lens, minLen, maxLen + 1) && Bases(base, lens, minLen, maxLen)
    && Undoes(perm[..|lens|], lens)
  }

  ghost predicate Attained(lens: seq<int>, l: int) {
    exists k :: 0 <= k < |lens| && lens[k] == l
  }

  ghost predicate Bases(base: seq<int>, lens: seq<int>, minLen: nat, maxLen: nat) {
    |base| >= 23 && maxLen <= 20 && forall l :: minLen <= l <= maxLen ==> base[l] == First(lens, l) - BelowTo(lens, |lens|, l)
  }

  lemma {:induction false} AllBelowLen(lens: seq<int>, n: nat, lo: int, l: int)
    requires n <= |lens| && Lengths(lens, lo, 20) && l <= lo
    ensures BelowTo(lens, n, l) == 0
  {
    if n > 0 {
      AllBelowLen(lens, n - 1, lo, l);
    }
  }

  method FillPerm(perm: array<int>, lens: seq<int>, minLen: nat, maxLen: nat)
    requires perm.Length >= |lens| && minLen <= maxLen <= 20 && Lengths(lens, minLen, maxLen)
    modifies perm
    ensures forall i {:trigger RowOf(lens, i)} :: 0 <= i < |lens| ==> RowOf(lens, i) < |lens| && perm[RowOf(lens, i)] == i
  {
    var pp := 0;
    AllBelowLen(lens, |lens|, minLen, minLen);
    for l := minLen to maxLen + 1
      invariant pp == BelowTo(lens, |lens|, l)
      invariant Placed(lens, perm[..], l, 0)
    {
      BelowStep(lens, |lens|, l);
      for j := 0 to |lens|
        invariant pp == BelowTo(lens, |lens|, l) + CountTo(lens, j, l)
        invariant Placed(lens, perm[..], l, j)
      {
        if lens[j] == l {
          PlaceOne(lens, perm[..], l, j);
          ghost var before := perm[..];
          perm[pp] := j;
          assert perm[..] == before[RowOf(lens, j) := j];
          pp := pp + 1;
        }
      }
    }
  }

  /** Symbols with codes shorter than l, and those of length l before j, stand in their rows. */
  ghost predicate Placed(lens: seq<int>, perm: seq<int>, l: int, j: int) {
    && |perm| >= |lens|
    && forall i {:trigger RowOf(lens, i)} :: 0 <= i < |lens| && (lens[i] < l || (lens[i] == l && i < j)) ==>
         RowOf(lens, i) < |lens| && perm[RowOf(lens, i)] == i
  }

  lemma {:induction false} PlaceOne(lens: seq<int>, perm: seq<int>, l: int, j: nat)
    requires Placed(lens, perm, l, j) && j < |lens| && lens[j] == l
    ensures RowOf(lens, j) < |lens| && Placed(lens, perm[RowOf(lens, j) := j], l, j + 1)
  {
    RowRange(lens, j);
    forall i {:trigger RowOf(lens, i)} | 0 <= i < |lens| && i != j
      ensures RowOf(lens, i) != RowOf(lens, j)
    {
      if i < j { RowInjective(lens, i, j); } else { RowInjective(lens, j, i); }
    }
  }

  /** base[l] becomes the number of symbols with codes shorter than l. */
  method CountShorter(base: array<int>, lens: seq<int>)
    requires base.Length >= 23 && Lengths(lens, 0, 20)
    modifies base
    ensures forall l :: 0 <= l < 23 ==> base[l] == BelowTo(lens, |lens|, l)
  {
    for i := 0 to 23
      invariant forall l :: 0 <= l < i ==> base[l] == 0
    {
      base[i] := 0;
    }
    for i := 0 to |lens|
      invariant base[0] == 0 && forall l :: 1 <= l < 23 ==> base[l] == CountTo(lens, i, l - 1)
    {
      base[lens[i] + 1] := base[lens[i] + 1] + 1;
    }
    AllBelowLen(lens, |lens|, 0, 0);
    for i := 1 to 23
      invariant forall l :: 0 <= l < i ==> base[l] == BelowTo(lens, |lens|, l)
      invariant forall l :: i <= l < 23 ==> base[l] == CountTo(lens, |lens|, l - 1)
    {
      BelowStep(lens, |lens|, i - 1);
      base[i] := base[i] + base[i - 1];
    }
  }

  ghost predicate Limits(limit: seq<int>, lens: seq<int>, minLen: nat, m: int) {
    && |limit| >= 23
    && (forall l :: minLen <= l < m ==> l < |limit| && limit[l] == First(lens, l) + Cnt(lens, l) - 1)
    && (forall l :: 0 <= m <= l < 23 ==> limit[l] == 0)
  }

  method ClearLimit(limit: array<int>)
    requires limit.Length >= 23
    modifies limit
    ensures forall l :: 0 <= l < 23 ==> limit[l] == 0
  {
    for i := 0 to 23
      invariant forall l :: 0 <= l < i ==> limit[l] == 0
    {
      limit[i] := 0;
    }
  }

  method FillLimit(limit: array<int>, base: seq<int>, lens: seq<int>, minLen: nat, maxLen: nat)
    requires limit.Length >= 23 && |base| >= 23 && minLen <= maxLen <= 20 && Lengths(lens, minLen, maxLen)
    requires forall l :: 0 <= l < 23 ==> base[l] == BelowTo(lens, |lens|, l)
    modifies limit
    ensures Limits(limit[..], lens, minLen, maxLen + 1)
  {
    ClearLimit(limit);
    var vec := 0;
    FirstZero(lens, minLen, minLen);
    for i := minLen to maxLen + 1
      invariant vec == First(lens, i)
      invariant Limits(limit[..], lens, minLen, i)
    {
      BelowStep(lens, |lens|, i);
      vec := vec + (base[i + 1] - base[i]);
      limit[i] := vec - 1;
      vec := 2 * vec;
    }
  }

  /** base[l] becomes what turns a code of length l into its row. */
  method AdjustBase(base: array<int>, limit: seq<int>, lens: seq<int>, minLen: nat, maxLen: nat)
    requires |limit| >= 23 && base.Length >= 23 && minLen <= maxLen <= 20 && Lengths(lens, minLen, maxLen)
    requires forall l :: 0 <= l < 23 ==> base[l] == BelowTo(lens, |lens|, l)
    requires forall l :: minLen <= l <= maxLen ==> limit[l] == First(lens, l) + Cnt(lens, l) - 1
    modifies base
    ensures forall l :: minLen <= l <= maxLen ==> base[l] == First(lens, l) - BelowTo(lens, |lens|, l)
  {
    AllBelowLen(lens, |lens|, minLen, minLen);
    FirstZero(lens, minLen, minLen);
    for i := minLen + 1 to maxLen + 1
      invariant forall l :: minLen <= l < i ==> base[l] == First(lens, l) - BelowTo(lens, |lens|, l)
      invariant forall l :: i <= l < 23 ==> base[l] == BelowTo(lens, |lens|, l)
    {
      base[i] := 2 * (limit[i - 1] + 1) - base[i];
    }
  }

  method CreateDecodeTables(limit: array<int>, base: array<int>, perm: array<int>, lens: seq<int>, minLen: nat,
      maxLen: nat)
    requires limit != base && limit != perm && base != perm && limit.Length >= 23 && base.Length >= 23
        && perm.Length >= |lens|
    requires minLen <= maxLen <= 20 && Lengths(lens, minLen, maxLen) && Attained(lens, maxLen)
    modifies limit, base, perm
    ensures Tables(lens, minLen, maxLen, limit[..], base[..], perm[..])
  {
    FillPerm(perm, lens, minLen, maxLen);
    CountShorter(base, lens);
    FillLimit(limit, base[..], lens, minLen, maxLen);
    AdjustBase(base, limit[..], lens, minLen, maxLen);
  }

  /** The shortest and the longest length, as both compressor and decompressor find them. */
  method Extent(lens: seq<int>) returns (minLen: int, maxLen: int)
    requires |lens| > 0 && Lengths(lens, 0, 31)
    ensures 0 <= minLen <= maxLen && Lengths(lens, minLen, maxLen) && Attained(lens, maxLen) && Attained(lens, minLen)
  {
    minLen, maxLen := 32, 0;
    ghost var p, q := 0, 0;
    for i := 0 to |lens|
      invariant forall k :: 0 <= k < i ==> minLen <= lens[k] <= maxLen
      invariant 0 <= p < |lens| && 0 <= q < |lens| && maxLen >= 0 && (i == 0 ==> minLen == 32 && maxLen == 0)
      invariant i > 0 ==> lens[p] == minLen && (maxLen == 0 || lens[q] == maxLen)
    {
      if lens[i] > maxLen { maxLen, q := lens[i], i; }
      if lens[i] < minLen { minLen, p := lens[i], i; }
    }
    assert minLen <= lens[0] <= maxLen;
    assert lens[p] == minLen && (maxLen == 0 ==> lens[0] == 0);
  }

  // ---------------------------------------------------------------- decoding one symbol

  /** A code of length hi continues where the shorter codes end. */
  lemma {:induction false} FirstGrows(lens: seq<int>, l: nat, hi: nat)
    requires l < hi
    ensures First(lens, hi) >= Shl(First(lens, l) + Cnt(lens, l), hi - l)
    decreases hi
  {
    if l == hi - 1 {
      assert Shl(First(lens, l) + Cnt(lens, l), 1) == 2 * Shl(First(lens, l) + Cnt(lens, l), 0);
    } else {
      FirstGrows(lens, l, hi - 1);
    }
  }

  lemma {:induction false} ShrAbove(v: nat, a: nat, m: nat)
    requires v >= Shl(a, m)
    ensures Shr(v, m) >= a
    decreases m
  {
    if m > 0 {
      ShrAbove(v / 2, a, m - 1);
    }
  }

  /** The bits of symbol i's code. */
  ghost function CodeBits(lens: seq<int>, i: nat): (r: seq<int>)
    requires i < |lens| && lens[i] >= 0
    ensures |r| == lens[i]
  {
    Bits(Code(lens, i), lens[i])
  }

  ghost predicate Begins(all: seq<int>, lens: seq<int>, i: int) {
    0 <= i < |lens| && lens[i] >= 0 && CodeBits(lens, i) <= all
  }

  lemma {:induction false} TopOf(all: seq<int>, v: nat, n: nat, u: nat, m: nat)
    requires m <= n && v < Pow2(n) && u < Pow2(m) && Bits(v, n) <= all && Bits(u, m) <= all
    ensures u == Shr(v, n - m)
  {
    BitsTop(v, m, n - m);
    ShrBelow(v, m, n - m);
    var w := Shr(v, n - m);
    assert all[..m] == Bits(w, m) && all[..m] == Bits(u, m);
    BitsInjective(w, u, m);
  }

  lemma {:induction false} AboveShorter(lens: seq<int>, zvec: nat, zn: nat, l: nat)
    requires zvec >= First(lens, zn) && l < zn
    ensures Shr(zvec, zn - l) >= First(lens, l) + Cnt(lens, l)
  {
    FirstGrows(lens, l, zn);
    ShrAbove(zvec, First(lens, l) + Cnt(lens, l), zn - l);
  }

  /** If the first zn bits lie above all shorter codes, the code that the input begins with is no shorter. */
  lemma {:induction false} NotPassed(all: seq<int>, lens: seq<int>, hi: nat, zvec: nat, zn: nat, i: nat)
    requires Begins(all, lens, i) && Fits(lens, hi) && lens[i] <= hi
    requires zvec < Pow2(zn) && Bits(zvec, zn) <= all && zvec >= First(lens, zn)
    ensures lens[i] >= zn
    ensures lens[i] == zn ==> zvec == Code(lens, i) < First(lens, zn) + Cnt(lens, zn)
  {
    CodeRange(lens, hi, i);
    Passing(all, lens, zvec, zn, lens[i], Code(lens, i));
  }

  lemma {:induction false} Passing(all: seq<int>, lens: seq<int>, zvec: nat, zn: nat, l: nat, code: nat)
    requires code < Pow2(l) && Bits(code, l) <= all && code < First(lens, l) + Cnt(lens, l)
    requires zvec < Pow2(zn) && Bits(zvec, zn) <= all && zvec >= First(lens, zn)
    ensures l >= zn && (l == zn ==> zvec == code)
  {
    if l < zn {
      TopOf(all, zvec, zn, code, l);
      AboveShorter(lens, zvec, zn, l);
    } else if l == zn {
      TopOf(all, zvec, zn, code, l);
      assert Shr(zvec, 0) == zvec;
    }
  }

  /** No code is a prefix of another. */
  lemma {:induction false} PrefixFree(all: seq<int>, lens: seq<int>, hi: nat, i: nat, j: nat)
    requires Fits(lens, hi) && Begins(all, lens, i) && Begins(all, lens, j) && lens[i] <= hi && lens[j] <= hi
    ensures i == j
  {
    CodeRange(lens, hi, i);
    CodeRange(lens, hi, j);
    NotPassed(all, lens, hi, Code(lens, i), lens[i], j);
    NotPassed(all, lens, hi, Code(lens, j), lens[j], i);
    CodeInjective(lens, i, j);
  }

  lemma {:induction false} CodeInjective(lens: seq<int>, i: nat, j: nat)
    requires i < |lens| && j < |lens| && 0 <= lens[i] == lens[j] && Code(lens, i) == Code(lens, j)
    ensures i == j
  {
    if i < j {
      CountMonotone(lens, i + 1, j, lens[i]);
    } else if j < i {
      CountMonotone(lens, j + 1, i, lens[i]);
    }
  }

  lemma OneBit(x: nat)
    requires x < Pow2(1)
    ensures x < 2 && Bits(x, 1) == [x]
  {
    assert Pow2(1) == 2 * Pow2(0);
    assert Bits(x, 1) == Bits(x / 2, 0) + [x % 2];
  }

  /** zvec holds the first zn bits of the input, and lies above all codes shorter than zn. */
  ghost predicate Reading(all: seq<int>, rest: seq<int>, lens: seq<int>, zn: nat, zvec: nat) {
    zvec < Pow2(zn) && all == Bits(zvec, zn) + rest && zvec >= First(lens, zn)
  }

  lemma {:induction false} ReadingBit(all: seq<int>, rest: seq<int>, rest': seq<int>, lens: seq<int>, zn: nat,
      zvec: nat, bit: nat)
    requires Reading(all, rest, lens, zn, zvec) && zvec >= First(lens, zn) + Cnt(lens, zn)
    requires bit < Pow2(1) && rest == Bits(bit, 1) + rest'
    ensures Reading(all, rest', lens, zn + 1, 2 * zvec + bit)
  {
    OneBit(bit);
    assert Bits(2 * zvec + bit, zn + 1) == Bits(zvec, zn) + [bit];
  }

  /** When the bits run out, or the longest length is passed, the input begins with no code. */
  lemma {:induction false} NoCode(all: seq<int>, rest: seq<int>, lens: seq<int>, hi: nat, zn: nat, zvec: nat)
    requires Reading(all, rest, lens, zn, zvec) && Fits(lens, hi) && Lengths(lens, 0, hi)
    requires zn > hi || (rest == [] && zvec >= First(lens, zn) + Cnt(lens, zn))
    ensures forall i :: !Begins(all, lens, i)
  {
    forall i | Begins(all, lens, i)
      ensures false
    {
      NotPassed(all, lens, hi, zvec, zn, i);
    }
  }

  /** A code of length zn within its length's range belongs to the symbol that perm gives for it. */
  lemma {:induction false} SymbolAt(lens: seq<int>, perm: seq<int>, zn: nat, zvec: nat) returns (s: nat)
    requires |perm| >= |lens| && Undoes(perm[..|lens|], lens)
        && First(lens, zn) <= zvec < First(lens, zn) + Cnt(lens, zn)
    ensures zvec - First(lens, zn) + BelowTo(lens, |lens|, zn) < |lens|
    ensures s == perm[zvec - First(lens, zn) + BelowTo(lens, |lens|, zn)] && s < |lens| && lens[s] == zn
        && Code(lens, s) == zvec
  {
    var q := zvec - First(lens, zn) + BelowTo(lens, |lens|, zn);
    BelowStep(lens, |lens|, zn);
    UndoesBack(perm[..|lens|], lens, q);
    s := perm[q];
    RowRange(lens, s);
    if lens[s] < zn {
      BelowMonotone(lens, |lens|, lens[s] + 1, zn);
    } else if lens[s] > zn {
      BelowMonotone(lens, |lens|, zn + 1, lens[s]);
    }
  }

  datatype Symbol = Sym(s: int) | DataError | OutOfInput

  /** A symbol comes from its own code at the front of the input; and for codes that fit, the symbol
      whose code the input begins with is found. */
  ghost predicate Decodes(all: seq<int>, lens: seq<int>, hi: nat, r: Symbol, rest: seq<int>) {
    && (r.Sym? ==> 0 <= r.s < |lens| && lens[r.s] >= 0 && all == CodeBits(lens, r.s) + rest)
    && (Fits(lens, hi) ==> forall i :: Begins(all, lens, i) ==> r == Sym(i))
  }

  lemma {:induction false} Found(all: seq<int>, rest: seq<int>, lens: seq<int>, hi: nat, s: nat)
    requires s < |lens| && Lengths(lens, 0, hi) && all == CodeBits(lens, s) + rest
    ensures Decodes(all, lens, hi, Sym(s), rest)
  {
    if Fits(lens, hi) {
      forall i | Begins(all, lens, i)
        ensures i == s
      {
        PrefixFree(all, lens, hi, i, s);
      }
    }
  }

  lemma {:induction false} NotFound(all: seq<int>, rest: seq<int>, rest': seq<int>, lens: seq<int>, hi: nat, zn: nat,
      zvec: nat, r: Symbol)
    requires Reading(all, rest, lens, zn, zvec) && Lengths(lens, 0, hi) && !r.Sym?
    requires zn > hi || (rest == [] && zvec >= First(lens, zn) + Cnt(lens, zn))
    ensures Decodes(all, lens, hi, r, rest')
  {
    if Fits(lens, hi) {
      NoCode(all, rest, lens, hi, zn, zvec);
    }
  }

  lemma {:induction false} TooShort(all: seq<int>, rest: seq<int>, lens: seq<int>, lo: nat, hi: nat)
    requires |all| < lo && Lengths(lens, lo, hi)
    ensures Decodes(all, lens, hi, OutOfInput, rest)
  {
  }

  lemma {:induction false} PastAll(lens: seq<int>, maxLen: nat, zn: nat, k: nat)
    requires zn > maxLen && k < |lens| && lens[k] == maxLen
    ensures First(lens, zn) > 0
    decreases zn
  {
    if zn > maxLen + 1 {
      PastAll(lens, maxLen, zn - 1, k);
    } else {
      CountPositive(lens, |lens|, k);
    }
  }

  /** Comparing with the limit of length zn tells whether the code ends there. */
  lemma {:induction false} AtLimit(lens: seq<int>, minLen: nat, maxLen: nat, limit: seq<int>, zn: nat, zvec: nat)
    requires minLen <= maxLen <= 20 && minLen <= zn <= 20 && Limits(limit, lens, minLen, maxLen + 1)
    requires Lengths(lens, minLen, maxLen) && Attained(lens, maxLen) && zvec >= First(lens, zn)
    ensures zvec <= limit[zn] ==> zn <= maxLen
    ensures zvec <= limit[zn] <==> zvec < First(lens, zn) + Cnt(lens, zn)
  {
    if zn > maxLen {
      NoneOf(lens, |lens|, zn);
      var k :| 0 <= k < |lens| && lens[k] == maxLen;
      PastAll(lens, maxLen, zn, k);
    }
  }

  /** Reads on until the bits read are a code; without one the result says why. */
  method FindCode(input: Input, limit: seq<int>, minLen: nat, ghost lens: seq<int>, ghost maxLen: nat)
    returns (stop: Option<Symbol>, zn: nat, zvec: nat)
    requires minLen <= maxLen <= 20 && Limits(limit, lens, minLen, maxLen + 1)
    requires Lengths(lens, minLen, maxLen) && Attained(lens, maxLen)
    modifies input, input.reader
    ensures stop.Some? ==> !stop.value.Sym? && Decodes(old(input.Rest()), lens, maxLen, stop.value, input.Rest())
    ensures stop == Some(OutOfInput) ==> |input.Rest()| < 20
    ensures stop.None? ==> Reading(old(input.Rest()), input.Rest(), lens, zn, zvec)
    ensures stop.None? ==> minLen <= zn <= maxLen && zvec < First(lens, zn) + Cnt(lens, zn)
  {
    ghost var all := input.Rest();
    zn, zvec := minLen, 0;
    var got := input.Get(zn);
    if got.None? {
      TooShort(all, input.Rest(), lens, minLen, maxLen);
      return Some(OutOfInput), zn, zvec;
    }
    FirstZero(lens, minLen, minLen);
    assert Read(all, input.Rest(), lens, minLen, got.value);
    stop, zn, zvec := ReadOn(input, limit, minLen, got.value, all, lens, maxLen);
  }

  /** The first zn bits of all have been read, and zvec is their value. */
  ghost predicate Read(all: seq<int>, rest: seq<int>, lens: seq<int>, zn: nat, zvec: nat) {
    forall k {:trigger Unfold(k)} :: Unfold(k) ==> Reading(all, rest, lens, zn, zvec)
  }

  lemma {:induction false} ReadAtLimit(all: seq<int>, rest: seq<int>, lens: seq<int>, minLen: nat, maxLen: nat,
      limit: seq<int>, zn: nat, zvec: nat)
    requires minLen <= maxLen <= 20 && minLen <= zn <= 20 && Limits(limit, lens, minLen, maxLen + 1)
    requires Lengths(lens, minLen, maxLen) && Attained(lens, maxLen) && Read(all, rest, lens, zn, zvec)
    ensures zvec <= limit[zn] ==> zn <= maxLen && Reading(all, rest, lens, zn, zvec)
    ensures zvec <= limit[zn] <==> zvec < First(lens, zn) + Cnt(lens, zn)
  {
    assert Unfold(0);
    AtLimit(lens, minLen, maxLen, limit, zn, zvec);
  }

  lemma {:induction false} ReadBit(all: seq<int>, rest: seq<int>, rest': seq<int>, lens: seq<int>, zn: nat, zvec: nat,
      bit: nat)
    requires Read(all, rest, lens, zn, zvec) && zvec >= First(lens, zn) + Cnt(lens, zn)
    requires bit < Pow2(1) && rest == Bits(bit, 1) + rest'
    ensures Read(all, rest', lens, zn + 1, 2 * zvec + bit)
  {
    assert Unfold(0);
    ReadingBit(all, rest, rest', lens, zn, zvec, bit);
  }

  lemma {:induction false} ReadNothing(all: seq<int>, rest: seq<int>, rest': seq<int>, lens: seq<int>, hi: nat, zn: nat,
      zvec: nat, r: Symbol)
    requires Read(all, rest, lens, zn, zvec) && Lengths(lens, 0, hi) && !r.Sym?
    requires zn > hi || (rest == [] && zvec >= First(lens, zn) + Cnt(lens, zn))
    ensures Decodes(all, lens, hi, r, rest')
  {
    assert Unfold(0);
    NotFound(all, rest, rest', lens, hi, zn, zvec, r);
  }

  /** The loop: one bit more as long as the bits are above the limit for their number. */
  method ReadOn(input: Input, limit: seq<int>, minLen: nat, zvec0: nat, ghost all: seq<int>, ghost lens: seq<int>,
      ghost maxLen: nat)
    returns (stop: Option<Symbol>, zn: nat, zvec: nat)
    requires minLen <= maxLen <= 20 && Limits(limit, lens, minLen, maxLen + 1)
    requires Lengths(lens, minLen, maxLen) && Attained(lens, maxLen) && Read(all, input.Rest(), lens, minLen, zvec0)
    modifies input, input.reader
    ensures stop.Some? ==> !stop.value.Sym? && Decodes(all, lens, maxLen, stop.value, input.Rest())
    ensures stop == Some(OutOfInput) ==> |input.Rest()| < 20
    ensures stop.None? ==> Reading(all, input.Rest(), lens, zn, zvec)
    ensures stop.None? ==> minLen <= zn <= maxLen && zvec < First(lens, zn) + Cnt(lens, zn)
  {
    zn, zvec := minLen, zvec0;
    while true
      invariant minLen <= zn <= 21 && Read(all, input.Rest(), lens, zn, zvec)
      decreases 21 - zn
    {
      if zn > 20 {
        ReadNothing(all, input.Rest(), input.Rest(), lens, maxLen, zn, zvec, DataError);
        return Some(DataError), zn, zvec;
      }
      ReadAtLimit(all, input.Rest(), lens, minLen, maxLen, limit, zn, zvec);
      if zvec <= limit[zn] { return None, zn, zvec; }
      ghost var before := input.Rest();
      var bit := input.Get(1);
      if bit.None? {
        ReadNothing(all, before, input.Rest(), lens, maxLen, zn, zvec, OutOfInput);
        return Some(OutOfInput), zn, zvec;
      }
      ReadBit(all, before, input.Rest(), lens, zn, zvec, bit.value);
      zn := zn + 1;
      zvec := 2 * zvec + bit.value;
    }
  }

  /** Decodes one symbol (GET_MTF_VAL without the change of group). */
  method DecodeSymbol(input: Input, limit: seq<int>, base: seq<int>, perm: seq<int>, minLen: nat,
                      ghost lens: seq<int>, ghost maxLen: nat) returns (r: Symbol)
    requires Tables(lens, minLen, maxLen, limit, base, perm) && |lens| <= 258
    modifies input, input.reader
    ensures Decodes(old(input.Rest()), lens, maxLen, r, input.Rest())
    ensures r.OutOfInput? ==> |input.Rest()| < 20
  {
    ghost var all := input.Rest();
    var stop, zn, zvec := FindCode(input, limit, minLen, lens, maxLen);
    if stop.Some? { return stop.value; }
    ghost var s := SymbolAt(lens, perm, zn, zvec);
    if zvec - base[zn] < 0 || zvec - base[zn] >= 258 { assert false; return DataError; }
    Found(all, input.Rest(), lens, maxLen, s);
    r := Sym(perm[zvec - base[zn]]);
  }
}
