/** Move-to-front ranks and the bijective base-2 coding of their zero runs. */
module MtfCoding {
  import opened Common

  const RUNA := 0
  const RUNB := 1

  // ---------------------------------------------------------------- move to front

  /** Where x stands in the list, searching from i. */
  function IndexFrom(list: seq<int>, x: int, i: nat): (r: nat)
    requires i <= |list|
    ensures i <= r <= |list| && (r < |list| ==> list[r] == x)
    ensures forall k :: i <= k < r ==> list[k] != x
    decreases |list| - i
  {
    if i == |list| || list[i] == x then i else IndexFrom(list, x, i + 1)
  }

  function IndexOf(list: seq<int>, x: int): (r: nat)
    ensures r <= |list|
  {
    IndexFrom(list, x, 0)
  }

  lemma {:induction false} IndexFound(list: seq<int>, x: int, k: nat)
    requires k < |list| && list[k] == x
    ensures IndexOf(list, x) <= k && list[IndexOf(list, x)] == x
  {
  }

  function ToFront(list: seq<int>, j: nat): (r: seq<int>)
    requires j < |list|
    ensures |r| == |list| && r[0] == list[j]
    ensures forall k :: 1 <= k <= j ==> r[k] == list[k - 1]
    ensures forall k :: j < k < |list| ==> r[k] == list[k]
  {
    [list[j]] + list[..j] + list[j + 1..]
  }

  /** The identity list of n symbols. */
  function Identity(n: nat): (r: seq<int>)
    ensures |r| == n && forall k :: 0 <= k < n ==> r[k] == k
  {
    seq(n, k => k)
  }

  /** The encoder's list after the first m symbols of s. */
  ghost function ListTo(n: nat, s: seq<int>, m: nat): (r: seq<int>)
    requires m <= |s|
    ensures |r| == n
  {
    if m == 0 then Identity(n)
    else
      var p := ListTo(n, s, m - 1);
      var j := IndexOf(p, s[m - 1]);
      if j < n then ToFront(p, j) else p
  }

  ghost function Rank(n: nat, s: seq<int>, k: nat): (r: int)
    requires k < |s|
  {
    IndexOf(ListTo(n, s, k), s[k])
  }

  ghost function Ranks(n: nat, s: seq<int>): (r: seq<int>)
    ensures |r| == |s|
  {
    seq(|s|, k requires 0 <= k < |s| => Rank(n, s, k))
  }

  /** Every symbol of s is below n. */
  ghost predicate Symbols(n: nat, s: seq<int>) {
    forall k :: 0 <= k < |s| ==> 0 <= s[k] < n
  }

  lemma {:induction false} MovedStillThere(p: seq<int>, j: nat, k: nat) returns (i: nat)
    requires j < |p| && k < |p|
    ensures i < |p| && ToFront(p, j)[i] == p[k]
  {
    i := if k < j then k + 1 else if k == j then 0 else k;
  }

  /** The list always holds every symbol, so every rank is below n. */
  lemma {:induction false} RankBelow(n: nat, s: seq<int>, m: nat, x: int)
    requires m <= |s| && Symbols(n, s) && 0 <= x < n
    ensures IndexOf(ListTo(n, s, m), x) < n && ListTo(n, s, m)[IndexOf(ListTo(n, s, m), x)] == x
  {
    var l := ListTo(n, s, m);
    if m == 0 {
      IndexFound(l, x, x);
    } else {
      RankBelow(n, s, m - 1, s[m - 1]);
      RankBelow(n, s, m - 1, x);
      var p := ListTo(n, s, m - 1);
      var i := MovedStillThere(p, IndexOf(p, s[m - 1]), IndexOf(p, x));
      IndexFound(l, x, i);
    }
  }

  lemma {:induction false} RanksAreSymbols(n: nat, s: seq<int>)
    requires Symbols(n, s)
    ensures Symbols(n, Ranks(n, s))
  {
    forall k | 0 <= k < |s|
      ensures 0 <= Ranks(n, s)[k] < n
    {
      RankBelow(n, s, k, s[k]);
    }
  }

  /** The decoder's list, of big symbols, after undoing the first m ranks. */
  ghost function UnlistTo(big: nat, ranks: seq<int>, m: nat): (r: seq<int>)
    requires m <= |ranks| && Symbols(big, ranks)
    ensures |r| == big
  {
    if m == 0 then Identity(big) else ToFront(UnlistTo(big, ranks, m - 1), ranks[m - 1])
  }

  ghost function Unrank(big: nat, ranks: seq<int>, k: nat): (r: int)
    requires k < |ranks| && Symbols(big, ranks)
  {
    UnlistTo(big, ranks, k)[ranks[k]]
  }

  ghost function Unranks(big: nat, ranks: seq<int>): (r: seq<int>)
    requires Symbols(big, ranks)
    ensures |r| == |ranks|
  {
    seq(|ranks|, k requires 0 <= k < |ranks| => Unrank(big, ranks, k))
  }

  lemma {:induction false} ToFrontPrefix(p: seq<int>, q: seq<int>, j: nat)
    requires |p| <= |q| && j < |p| && q[..|p|] == p
    ensures ToFront(q, j)[..|p|] == ToFront(p, j)
  {
    assert forall k :: 0 <= k < |p| ==> q[k] == q[..|p|][k];
  }

  /** A decoder list at least as long as the encoder's begins with the encoder's list throughout. */
  lemma {:induction false} ListsAgree(n: nat, big: nat, s: seq<int>, ranks: seq<int>, m: nat)
    requires m <= |s| && n <= big && Symbols(n, s) && ranks == Ranks(n, s) && Symbols(big, ranks)
    ensures UnlistTo(big, ranks, m)[..n] == ListTo(n, s, m)
  {
    if m > 0 {
      ListsAgree(n, big, s, ranks, m - 1);
      RankBelow(n, s, m - 1, s[m - 1]);
      ToFrontPrefix(ListTo(n, s, m - 1), UnlistTo(big, ranks, m - 1), ranks[m - 1]);
    }
  }

  /** Undoing the ranks gives the text back. */
  lemma {:induction false} UnrankInverts(n: nat, big: nat, s: seq<int>)
    requires n <= big && Symbols(n, s)
    ensures Symbols(big, Ranks(n, s)) && Unranks(big, Ranks(n, s)) == s
  {
    var ranks := Ranks(n, s);
    RanksAreSymbols(n, s);
    forall k | 0 <= k < |s|
      ensures Unranks(big, ranks)[k] == s[k]
    {
      ListsAgree(n, big, s, ranks, k);
      RankBelow(n, s, k, s[k]);
      assert UnlistTo(big, ranks, k)[..n][ranks[k]] == s[k];
    }
  }

  // ---------------------------------------------------------------- zero runs

  /** Bijective base 2, least significant digit first; RUNA counts 1, RUNB counts 2. */
  function Digits(z: nat): (r: seq<int>)
    ensures |r| <= z
    ensures forall k :: 0 <= k < |r| ==> r[k] == RUNA || r[k] == RUNB
  {
    if z == 0 then [] else [(z - 1) % 2] + Digits((z - 1) / 2)
  }

  function Value(d: seq<int>): int {
    if d == [] then 0 else d[0] + 1 + 2 * Value(d[1..])
  }

  lemma {:induction false} DigitsValue(z: nat)
    ensures Value(Digits(z)) == z
  {
    if z > 0 {
      var x, h := (z - 1) % 2, (z - 1) / 2;
      DigitsValue(h);
      assert Digits(z) == [x] + Digits(h);
      assert Digits(z)[1..] == Digits(h);
    }
  }

  /** A run of z zeros takes at most k digits exactly when z <= 2^(k+1) - 2. */
  lemma {:induction false} DigitsLength(z: nat, k: nat)
    ensures |Digits(z)| <= k <==> z <= 2 * Pow2(k) - 2
    decreases k
  {
    if k > 0 && z > 0 {
      DigitsLength((z - 1) / 2, k - 1);
    }
  }

  datatype Coded = Coded(syms: seq<int>, zPend: nat)

  /** Symbols written and zeros pending after the first m ranks. */
  ghost function CodeTo(ranks: seq<int>, m: nat): (r: Coded)
    requires m <= |ranks|
    ensures |r.syms| + r.zPend <= m
  {
    if m == 0 then Coded([], 0)
    else
      var p := CodeTo(ranks, m - 1);
      if ranks[m - 1] == 0 then Coded(p.syms, p.zPend + 1)
      else Coded(p.syms + Digits(p.zPend) + [ranks[m - 1] + 1], 0)
  }

  /** The whole symbol stream of a block, with the end symbol. */
  ghost function CodeAll(ranks: seq<int>, eob: int): (r: seq<int>)
    ensures |r| <= |ranks| + 1
  {
    var p := CodeTo(ranks, |ranks|);
    p.syms + Digits(p.zPend) + [eob]
  }

  // ---------------------------------------------------------------- decoding the symbol stream

  function Zeros(n: nat): (r: seq<int>)
    ensures |r| == n && forall k :: 0 <= k < n ==> r[k] == 0
  {
    seq(n, k => 0)
  }

  /** Ranks recovered and the digits of the zero run being read. */
  datatype Decoded = Decoded(ranks: seq<int>, digits: seq<int>) {
    ghost function All(): seq<int> { ranks + Zeros(Count(digits)) }
  }

  predicate IsDigit(x: int) { x == RUNA || x == RUNB }

  ghost function Count(d: seq<int>): (r: nat) {
    if Value(d) < 0 then 0 else Value(d)
  }

  ghost function DecodeTo(syms: seq<int>, m: nat): (r: Decoded)
    requires m <= |syms|
  {
    if m == 0 then Decoded([], [])
    else
      var p := DecodeTo(syms, m - 1);
      if IsDigit(syms[m - 1]) then Decoded(p.ranks, p.digits + [syms[m - 1]])
      else Decoded(p.All() + [syms[m - 1] - 1], [])
  }

  lemma {:induction false} DecodePrefix(a: seq<int>, b: seq<int>, m: nat)
    requires m <= |a| && m <= |b| && forall k :: 0 <= k < m ==> a[k] == b[k]
    ensures DecodeTo(a, m) == DecodeTo(b, m)
  {
    if m > 0 {
      DecodePrefix(a, b, m - 1);
    }
  }

  lemma {:induction false} DecodeDigit(syms: seq<int>, m: nat, x: int)
    requires m < |syms| && syms[m] == x && IsDigit(x)
    ensures DecodeTo(syms, m + 1) == Decoded(DecodeTo(syms, m).ranks, DecodeTo(syms, m).digits + [x])
  {
  }

  /** Digits at the places m, m + 1, and so on of a stream. */
  lemma {:induction false} DecodeDigitsFrom(syms: seq<int>, m: nat, d: seq<int>)
    requires m + |d| <= |syms| && DecodeTo(syms, m).digits == []
    requires forall k :: 0 <= k < |d| ==> syms[m + k] == d[k] && IsDigit(d[k])
    ensures DecodeTo(syms, m + |d|) == Decoded(DecodeTo(syms, m).ranks, d)
    decreases |d|
  {
    if d != [] {
      var e, x := d[..|d| - 1], d[|d| - 1];
      DecodeDigitsFrom(syms, m, e);
      DecodeDigit(syms, m + |e|, x);
      assert d == e + [x];
    }
  }

  lemma {:induction false} DecodeDigits(a: seq<int>, d: seq<int>)
    requires DecodeTo(a, |a|).digits == [] && forall k :: 0 <= k < |d| ==> IsDigit(d[k])
    ensures DecodeTo(a + d, |a| + |d|) == Decoded(DecodeTo(a, |a|).ranks, d)
  {
    DecodePrefix(a + d, a, |a|);
    DecodeDigitsFrom(a + d, |a|, d);
  }

  /** The digits of a run of z zeros. */
  lemma {:induction false} DecodeZeros(a: seq<int>, z: nat)
    requires DecodeTo(a, |a|).digits == []
    ensures DecodeTo(a + Digits(z), |a| + |Digits(z)|).All() == DecodeTo(a, |a|).ranks + Zeros(z)
  {
    DigitsValue(z);
    DecodeDigits(a, Digits(z));
  }

  lemma {:induction false} DecodeRunAndRank(a: seq<int>, z: nat, r: int)
    requires DecodeTo(a, |a|).digits == [] && r > 0
    ensures var b := a + Digits(z) + [r + 1];
            DecodeTo(b, |b|) == Decoded(DecodeTo(a, |a|).ranks + Zeros(z) + [r], [])
  {
    var q := a + Digits(z);
    DecodeZeros(a, z);
    DecodePrefix(q + [r + 1], q, |q|);
  }

  /** Decoding what has been written so far gives the ranks except the zeros still pending. */
  lemma {:induction false} CodeDecodes(ranks: seq<int>, m: nat)
    requires m <= |ranks| && forall k :: 0 <= k < |ranks| ==> ranks[k] >= 0
    ensures var p := CodeTo(ranks, m);
            DecodeTo(p.syms, |p.syms|) == Decoded(ranks[..m - p.zPend], [])
                && ranks[..m] == ranks[..m - p.zPend] + Zeros(p.zPend)
  {
    if m > 0 {
      CodeDecodes(ranks, m - 1);
      var p := CodeTo(ranks, m - 1);
      assert ranks[..m] == ranks[..m - 1] + [ranks[m - 1]];
      if ranks[m - 1] == 0 {
        assert ranks[..m] == ranks[..m - 1 - p.zPend] + Zeros(p.zPend + 1);
      } else {
        DecodeRunAndRank(p.syms, p.zPend, ranks[m - 1]);
        assert ranks[..m] + Zeros(0) == ranks[..m];
      }
    }
  }

  /** The decoded symbol stream, its last symbol being the end mark. */
  ghost function DecodeAll(syms: seq<int>): (r: seq<int>)
    requires |syms| > 0
  {
    DecodeTo(syms, |syms| - 1).All()
  }

  /** The end mark after the digits of a run. */
  lemma {:induction false} DecodePending(a: seq<int>, z: nat, eob: int)
    requires DecodeTo(a, |a|).digits == []
    ensures DecodeAll(a + Digits(z) + [eob]) == DecodeTo(a, |a|).ranks + Zeros(z)
  {
    var q := a + Digits(z);
    DecodeZeros(a, z);
    DecodePrefix(q + [eob], q, |q|);
  }

  lemma {:induction false} DecodeInvertsCode(ranks: seq<int>, eob: int)
    requires forall k :: 0 <= k < |ranks| ==> ranks[k] >= 0
    ensures DecodeAll(CodeAll(ranks, eob)) == ranks
  {
    var p := CodeTo(ranks, |ranks|);
    CodeDecodes(ranks, |ranks|);
    DecodePending(p.syms, p.zPend, eob);
    assert ranks[..|ranks|] == ranks;
  }
}
