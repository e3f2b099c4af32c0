/** The decoder's loop over the symbol stream (decompress.c): zero runs, the two-level list, and the
    characters and counts handed to the inverse Burrows-Wheeler transform. */
module MtfDecode {
  import opened Common
  import opened MtfCoding
  import opened TwoLevelMtf
  import opened MtfEncode

  /** The used byte values in order (makeMaps_d). */
  method MakeMapsD(inUse: seq<bool>) returns (seqToUnseq: seq<byte>, nInUse: int)
    requires |inUse| == 256
    ensures |seqToUnseq| == 256 && nInUse == UsedBelow(inUse, 256)
    ensures forall v :: 0 <= v < 256 && inUse[v] ==> UsedBelow(inUse, v) < 256 && seqToUnseq[UsedBelow(inUse, v)] == v
  {
    seqToUnseq := seq(256, _ => 0);
    nInUse := 0;
    for i := 0 to 256
      invariant |seqToUnseq| == 256 && nInUse == UsedBelow(inUse, i)
      invariant forall v :: 0 <= v < i && inUse[v] ==> UsedBelow(inUse, v) < nInUse && seqToUnseq[UsedBelow(inUse, v)] == v
    {
      if inUse[i] {
        seqToUnseq := seqToUnseq[nInUse := i];
        nInUse := nInUse + 1;
      }
    }
  }

  // ---------------------------------------------------------------- one rank at a time

  lemma {:induction false} UnlistPrefix(big: nat, ranks: seq<int>, more: seq<int>, m: nat)
    requires m <= |ranks| && Symbols(big, ranks) && Symbols(big, ranks + more)
    ensures UnlistTo(big, ranks + more, m) == UnlistTo(big, ranks, m)
  {
    if m > 0 {
      UnlistPrefix(big, ranks, more, m - 1);
    }
  }

  lemma {:induction false} UnrankAppend(big: nat, ranks: seq<int>, r: int)
    requires Symbols(big, ranks) && 0 <= r < big
    ensures Symbols(big, ranks + [r])
    ensures UnlistTo(big, ranks + [r], |ranks + [r]|) == ToFront(UnlistTo(big, ranks, |ranks|), r)
    ensures Unranks(big, ranks + [r]) == Unranks(big, ranks) + [UnlistTo(big, ranks, |ranks|)[r]]
  {
    var all, n, list := ranks + [r], |ranks|, UnlistTo(big, ranks, |ranks|);
    UnlistPrefix(big, ranks, [r], n);
    assert all[n] == r;
    forall k | 0 <= k <= n
      ensures Unranks(big, all)[k] == (Unranks(big, ranks) + [list[r]])[k]
    {
      UnlistPrefix(big, ranks, [r], k);
      if k < n { assert Unrank(big, all, k) == Unrank(big, ranks, k); } else { assert Unrank(big, all, n) == list[r]; }
    }
  }

  ghost function Mapped(table: seq<byte>, s: seq<int>): (r: seq<int>)
    requires |table| == 256 && Symbols(256, s)
    ensures |r| == |s| && forall k :: 0 <= k < |s| ==> r[k] == table[s[k]]
  {
    seq(|s|, k requires 0 <= k < |s| => table[s[k]])
  }

  lemma {:induction false} UnrankedSymbols(ranks: seq<int>)
    requires Symbols(256, ranks)
    ensures Symbols(256, Unranks(256, ranks))
  {
    forall k | 0 <= k < |ranks|
      ensures 0 <= Unranks(256, ranks)[k] < 256
    {
      ListSymbols(ranks, k);
    }
  }

  lemma {:induction false} ListSymbols(ranks: seq<int>, m: nat)
    requires Symbols(256, ranks) && m <= |ranks|
    ensures Symbols(256, UnlistTo(256, ranks, m))
  {
    if m > 0 {
      ListSymbols(ranks, m - 1);
    }
  }

  /** The characters that the ranks stand for. */
  ghost function Chars(table: seq<byte>, ranks: seq<int>): (r: seq<int>)
    requires |table| == 256 && Symbols(256, ranks)
    ensures |r| == |ranks|
  {
    UnrankedSymbols(ranks);
    Mapped(table, Unranks(256, ranks))
  }

  lemma {:induction false} CharsAppend(table: seq<byte>, ranks: seq<int>, r: int)
    requires |table| == 256 && Symbols(256, ranks) && 0 <= r < 256
    ensures Symbols(256, ranks + [r]) && 0 <= UnlistTo(256, ranks, |ranks|)[r] < 256
    ensures Chars(table, ranks + [r]) == Chars(table, ranks) + [table[UnlistTo(256, ranks, |ranks|)[r]]]
  {
    ListSymbols(ranks, |ranks|);
    UnrankAppend(256, ranks, r);
  }

  /** The counts of all byte values in s. */
  ghost predicate Tallied(s: seq<int>, counts: seq<int>) {
    && |counts| == 256
    && forall c :: 0 <= c < 256 ==> counts[c] == CountTo(s, |s|, c)
  }

  lemma {:induction false} TallyOne(s: seq<int>, counts: seq<int>, c: byte)
    requires Tallied(s, counts)
    ensures Tallied(s + [c], counts[c := counts[c] + 1])
  {
    forall d | 0 <= d < 256
      ensures CountTo(s + [c], |s| + 1, d) == CountTo(s, |s|, d) + (if c == d then 1 else 0)
    {
      CountPrefix(s + [c], s, |s|, d);
    }
  }

  /** Characters and counts so far. */
  ghost predicate Collected(table: seq<byte>, ranks: seq<int>, list: seq<int>, tt: seq<int>, counts: seq<int>) {
    && |table| == 256 && Symbols(256, ranks) && |ranks| <= |tt|
    && list == UnlistTo(256, ranks, |ranks|)
    && tt[..|ranks|] == Chars(table, ranks) && Tallied(Chars(table, ranks), counts)
  }

  lemma {:induction false} CollectOne(table: seq<byte>, ranks: seq<int>, list: seq<int>, tt: seq<int>, counts: seq<int>,
      r: int)
    requires Collected(table, ranks, list, tt, counts) && 0 <= r < 256 && |ranks| < |tt|
    ensures 0 <= list[r] < 256
    ensures var c := table[list[r]];
            Collected(table, ranks + [r], ToFront(list, r), tt[|ranks| := c], counts[c := counts[c] + 1])
  {
    CharsAppend(table, ranks, r);
    UnrankAppend(256, ranks, r);
    var c := table[list[r]];
    TallyOne(Chars(table, ranks), counts, c);
    assert tt[|ranks| := c][..|ranks| + 1] == tt[..|ranks|] + [c];
  }

  // ---------------------------------------------------------------- the symbol stream

  /** Among the first m symbols no run of digits is longer than 21, the most the decoder accepts. */
  ghost predicate ShortRuns(syms: seq<int>, m: nat)
    requires m <= |syms|
  {
    |DecodeTo(syms, m).digits| <= 21 && (m > 0 ==> ShortRuns(syms, m - 1))
  }

  lemma {:induction false} LongRunStays(syms: seq<int>, m: nat, n: nat)
    requires m <= n <= |syms| && |DecodeTo(syms, m).digits| > 21
    ensures !ShortRuns(syms, n)
  {
    if m < n {
      LongRunStays(syms, m, n - 1);
    }
  }

  lemma {:induction false} AllGrows(syms: seq<int>, m: nat, n: nat)
    requires m <= n <= |syms| && forall k :: 0 <= k < n ==> syms[k] >= 0
    ensures |DecodeTo(syms, m).All()| <= |DecodeTo(syms, n).All()|
    decreases n
  {
    if m < n {
      AllGrows(syms, m, n - 1);
      ValueAppend(DecodeTo(syms, n - 1).digits, syms[n - 1]);
    }
  }

  lemma {:induction false} ValueAppend(d: seq<int>, x: int)
    ensures Value(d + [x]) == Value(d) + (x + 1) * Pow2(|d|)
  {
    if d != [] {
      ValueAppend(d[1..], x);
      assert (d + [x])[1..] == d[1..] + [x];
    }
  }

  function Fill(c: int, z: nat): (r: seq<int>)
    ensures |r| == z && forall k :: 0 <= k < z ==> r[k] == c
  {
    seq(z, _ => c)
  }

  /** z zeros leave the list as it is and add its front character z times. */
  lemma {:induction false} ZeroMore(ranks: seq<int>, list: seq<int>, z: nat, c: int)
    requires list != [] && z > 0
    ensures ranks + Zeros(z - 1) + [0] == ranks + Zeros(z) && ToFront(list, 0) == list
        && Fill(c, z) == Fill(c, z - 1) + [c]
  {
  }

  lemma {:induction false} ZeroChar(table: seq<byte>, r: seq<int>)
    requires |table| == 256 && Symbols(256, r)
    ensures Symbols(256, r + [0]) && UnlistTo(256, r + [0], |r + [0]|) == UnlistTo(256, r, |r|)
    ensures 0 <= UnlistTo(256, r, |r|)[0] < 256 && Chars(table, r + [0]) == Chars(table, r)
        + [table[UnlistTo(256, r, |r|)[0]]]
  {
    ListSymbols(r, |r|);
    CharsAppend(table, r, 0);
    UnrankAppend(256, r, 0);
    ZeroMore(r, UnlistTo(256, r, |r|), 1, 0);
  }

  lemma {:induction false} ZerosChars(table: seq<byte>, ranks: seq<int>, z: nat)
    requires |table| == 256 && Symbols(256, ranks)
    ensures Symbols(256, ranks + Zeros(z)) && 0 <= UnlistTo(256, ranks, |ranks|)[0] < 256
    ensures UnlistTo(256, ranks + Zeros(z), |ranks + Zeros(z)|) == UnlistTo(256, ranks, |ranks|)
    ensures Chars(table, ranks + Zeros(z)) == Chars(table, ranks) + Fill(table[UnlistTo(256, ranks, |ranks|)[0]], z)
  {
    ListSymbols(ranks, |ranks|);
    if z == 0 {
      assert ranks + Zeros(0) == ranks;
    } else {
      var r, list := ranks + Zeros(z - 1), UnlistTo(256, ranks, |ranks|);
      ZerosChars(table, ranks, z - 1);
      ZeroMore(ranks, list, z, table[list[0]]);
      ZeroChar(table, r);
    }
  }

  lemma {:induction false} TallyMany(s: seq<int>, counts: seq<int>, c: byte, z: nat)
    requires Tallied(s, counts)
    ensures Tallied(s + Fill(c, z), counts[c := counts[c] + z])
  {
    if z == 0 {
      assert s + Fill(c, 0) == s && counts[c := counts[c] + 0] == counts;
    } else {
      TallyMany(s, counts, c, z - 1);
      var t, u := s + Fill(c, z - 1), counts[c := counts[c] + (z - 1)];
      TallyOne(t, u, c);
      assert t + [c] == s + Fill(c, z);
      assert u[c := u[c] + 1] == counts[c := counts[c] + z];
    }
  }

  lemma {:induction false} CollectZeros(table: seq<byte>, ranks: seq<int>, list: seq<int>, tt: seq<int>,
      counts: seq<int>, z: nat)
    requires Collected(table, ranks, list, tt, counts) && |ranks| + z <= |tt|
    requires 0 <= list[0] < 256
    requires forall k :: |ranks| <= k < |ranks| + z ==> tt[k] == table[list[0]]
    ensures Collected(table, ranks + Zeros(z), list, tt, counts[table[list[0]] := counts[table[list[0]]] + z])
  {
    var s, c, more := Chars(table, ranks), table[list[0]], ranks + Zeros(z);
    ZerosChars(table, ranks, z);
    TallyMany(s, counts, c, z);
    FilledAfter(tt, |ranks|, |more|, c, z);
  }

  lemma {:induction false} FilledAfter(tt: seq<int>, n: nat, m: nat, c: byte, z: nat)
    requires n + z == m <= |tt| && forall k :: n <= k < m ==> tt[k] == c
    ensures tt[..m] == tt[..n] + Fill(c, z)
  {
  }

  /** The block under reconstruction. */
  class Collector {
    const tt: array<int>
    const unzftab: array<int>
    const list: MtfList
    const table: seq<byte>
    const nblockMAX: nat
    var nblock: nat
    ghost var ranks: seq<int>

    ghost predicate Valid()
      reads this, tt, unzftab, list, list.mtfa, list.mtfbase
    {
      && list.Valid() && tt != unzftab && tt != list.mtfa && tt != list.mtfbase
      && unzftab != list.mtfa && unzftab != list.mtfbase
      && |ranks| == nblock <= nblockMAX <= tt.Length
      && Collected(table, ranks, list.list, tt[..], unzftab[..])
    }

    constructor (tt: array<int>, nblockMAX: nat, table: seq<byte>)
      requires nblockMAX <= tt.Length && |table| == 256
      ensures Valid() && ranks == [] && this.tt == tt && this.table == table && this.nblockMAX == nblockMAX
      ensures fresh(unzftab) && fresh(list) && fresh(list.mtfa) && fresh(list.mtfbase)
    {
      this.tt, this.nblockMAX, this.table := tt, nblockMAX, table;
      unzftab := new int[256](_ => 0);
      list := new MtfList();
      nblock, ranks := 0, [];
    }

    /** Stores uc z times, or fails when the block is full. */
    method Repeat(uc: byte, z: nat) returns (ok: bool)
      requires tt.Length >= nblockMAX && nblock <= nblockMAX
      modifies this`nblock, tt
      ensures ok <==> old(nblock) + z <= nblockMAX
      ensures ok ==> nblock == old(nblock) + z
      ensures forall k :: 0 <= k < tt.Length && !(old(nblock) <= k < old(nblock) + z) ==> tt[k] == old(tt[k])
      ensures ok ==> forall k :: old(nblock) <= k < nblock ==> tt[k] == uc
    {
      var es := z;
      while es > 0
        invariant 0 <= es <= z && nblock == old(nblock) + (z - es) <= nblockMAX
        invariant forall k :: 0 <= k < tt.Length && !(old(nblock) <= k < nblock) ==> tt[k] == old(tt[k])
        invariant forall k :: old(nblock) <= k < nblock ==> tt[k] == uc
      {
        if nblock >= nblockMAX { return false; }
        tt[nblock] := uc;
        nblock := nblock + 1;
        es := es - 1;
      }
      ok := true;
    }

    /** A run of z zero ranks. */
    method AddZeros(z: nat) returns (ok: bool)
      requires Valid()
      modifies this, tt, unzftab
      ensures ok <==> old(nblock) + z <= nblockMAX
      ensures ok ==> Valid() && ranks == old(ranks) + Zeros(z)
    {
      ListSymbols(ranks, |ranks|);
      var front := list.Front();
      var uc := table[front];
      ghost var counts, before := unzftab[..], tt[..];
      unzftab[uc] := unzftab[uc] + z;
      ok := Repeat(uc, z);
      if ok {
        assert tt[..][..|ranks|] == before[..|ranks|];
        CollectZeros(table, ranks, list.list, tt[..], counts, z);
        ranks := ranks + Zeros(z);
      }
    }

    /** One rank above zero. */
    method AddRank(r: nat) returns (ok: bool)
      requires Valid() && r < 256
      modifies this, tt, unzftab, list, list.mtfa, list.mtfbase
      ensures ok <==> old(nblock) < nblockMAX
      ensures ok ==> Valid() && ranks == old(ranks) + [r]
    {
      if nblock >= nblockMAX { return false; }
      CollectOne(table, ranks, list.list, tt[..], unzftab[..], r);
      ghost var counts, before := unzftab[..], tt[..];
      var uc := list.Move(r);
      unzftab[table[uc]] := unzftab[table[uc]] + 1;
      tt[nblock] := table[uc];
      assert unzftab[..] == counts[table[uc] := counts[table[uc]] + 1];
      assert tt[..] == before[nblock := table[uc]];
      nblock := nblock + 1;
      ranks := ranks + [r];
      ok := true;
    }
  }

  /** A symbol stream: symbols below the end mark, then the end mark. */
  ghost predicate Stream(syms: seq<int>, eob: int) {
    && |syms| > 0 && 2 <= eob <= 257 && syms[|syms| - 1] == eob
    && forall k :: 0 <= k < |syms| - 1 ==> 0 <= syms[k] < eob
  }

  /** Reads one run of digits starting at symbol m; fails if it is longer than 21. */
  method ReadRun(syms: seq<int>, m0: nat, ghost eob: int) returns (ok: bool, es: int, m: nat)
    requires Stream(syms, eob) && m0 < |syms| - 1 && IsDigit(syms[m0])
    requires DecodeTo(syms, m0).digits == [] && ShortRuns(syms, m0)
    ensures m0 < m < |syms|
    ensures !ok ==> !ShortRuns(syms, |syms| - 1)
    ensures ok ==> !IsDigit(syms[m]) && ShortRuns(syms, m) && es == Value(DecodeTo(syms, m).digits) >= 0
    ensures ok ==> DecodeTo(syms, m).ranks == DecodeTo(syms, m0).ranks
  {
    es, m := -1, m0;
    var N := 1;
    ghost var d: seq<int> := [];
    while true
      invariant m0 <= m < |syms| - 1 && IsDigit(syms[m]) && InRun(syms, m0, m, d)
      invariant N == Pow2(|d|) && es + 1 == Value(d) >= 0
      decreases |syms| - m
    {
      if N >= 2 * 1024 * 1024 {
        RunTooLong(syms, m0, m, d);
        return false, es, m + 1;
      }
      RunDigit(syms, m0, m, d);
      ValueAppend(d, syms[m]);
      if syms[m] == RUNA { es := es + (0 + 1) * N; } else { es := es + (1 + 1) * N; }
      N := N * 2;
      d := d + [syms[m]];
      m := m + 1;
      if !IsDigit(syms[m]) { break; }
    }
    es := es + 1;
    ok := true;
    RunRead(syms, m0, m, d);
  }

  /** Inside a run that began at m0; d are its digits. */
  ghost predicate InRun(syms: seq<int>, m0: nat, m: nat, d: seq<int>) {
    m0 <= m <= |syms| && forall k {:trigger Unfold(k)} :: Unfold(k) ==>
      ShortRuns(syms, m) && DecodeTo(syms, m) == Decoded(DecodeTo(syms, m0).ranks, d)
  }

  lemma {:induction false} RunDigit(syms: seq<int>, m0: nat, m: nat, d: seq<int>)
    requires InRun(syms, m0, m, d) && m < |syms| && IsDigit(syms[m]) && Pow2(|d|) < 2 * 1024 * 1024
    ensures InRun(syms, m0, m + 1, d + [syms[m]])
  {
    assert Unfold(0);
    ShortRun(d);
    DecodeDigit(syms, m, syms[m]);
  }

  lemma {:induction false} RunTooLong(syms: seq<int>, m0: nat, m: nat, d: seq<int>)
    requires InRun(syms, m0, m, d) && m < |syms| - 1 && IsDigit(syms[m]) && Pow2(|d|) >= 2 * 1024 * 1024
    ensures !ShortRuns(syms, |syms| - 1)
  {
    assert Unfold(0);
    LongRun(d);
    DecodeDigit(syms, m, syms[m]);
    LongRunStays(syms, m + 1, |syms| - 1);
  }

  lemma {:induction false} RunRead(syms: seq<int>, m0: nat, m: nat, d: seq<int>)
    requires InRun(syms, m0, m, d)
    ensures ShortRuns(syms, m) && DecodeTo(syms, m).digits == d && DecodeTo(syms, m).ranks == DecodeTo(syms, m0).ranks
  {
    assert Unfold(0);
  }

  lemma {:induction false} Pow2Monotone(m: nat, n: nat)
    requires m < n
    ensures Pow2(m) < Pow2(n)
  {
    if m < n - 1 {
      Pow2Monotone(m, n - 1);
    }
  }

  lemma Pow21()
    ensures Pow2(21) == 2 * 1024 * 1024
  {
    Pow2Values();
    Pow2Add(16, 4);
  }

  lemma {:induction false} LongRun(d: seq<int>)
    requires Pow2(|d|) >= 2 * 1024 * 1024
    ensures |d| >= 21
  {
    Pow21();
    if |d| < 21 {
      Pow2Monotone(|d|, 21);
    }
  }

  lemma {:induction false} ShortRun(d: seq<int>)
    requires Pow2(|d|) < 2 * 1024 * 1024
    ensures |d| <= 20
  {
    Pow21();
    if |d| > 21 {
      Pow2Monotone(21, |d|);
    }
  }

  // ---------------------------------------------------------------- streams that the encoder writes

  lemma {:induction false} ShortPrefix(a: seq<int>, b: seq<int>, m: nat)
    requires m <= |a| && m <= |b| && (forall k :: 0 <= k < m ==> a[k] == b[k]) && ShortRuns(a, m)
    ensures ShortRuns(b, m)
  {
    DecodePrefix(a, b, m);
    if m > 0 {
      ShortPrefix(a, b, m - 1);
    }
  }

  lemma {:induction false} ShortDigits(a: seq<int>, d: seq<int>)
    requires ShortRuns(a, |a|) && DecodeTo(a, |a|).digits == [] && |d| <= 21 && forall k :: 0 <= k < |d| ==> IsDigit(d[k])
    ensures ShortRuns(a + d, |a| + |d|)
  {
    DecodeDigits(a, d);
    if d == [] {
      assert a + d == a;
    } else {
      var e := d[..|d| - 1];
      ShortDigits(a, e);
      ShortPrefix(a + e, a + d, |a| + |e|);
    }
  }

  lemma {:induction false} ShortPending(a: seq<int>, z: nat, k: nat)
    requires ShortRuns(a, |a|) && DecodeTo(a, |a|).digits == [] && z <= 0x40_0000 - 2 && k == 21
    ensures ShortRuns(a + Digits(z), |a| + |Digits(z)|)
  {
    Pow21();
    DigitsLength(z, k);
    ShortDigits(a, Digits(z));
  }

  lemma {:induction false} ShortRunAndRank(a: seq<int>, z: nat, r: int)
    requires ShortRuns(a, |a|) && DecodeTo(a, |a|).digits == [] && z <= 0x40_0000 - 2 && r > 0
    ensures ShortRuns(a + Digits(z) + [r + 1], |a| + |Digits(z)| + 1)
  {
    ShortPending(a, z, 21);
    var q := a + Digits(z);
    ShortPrefix(q, q + [r + 1], |q|);
    DecodeRunAndRank(a, z, r);
  }

  /** Runs of up to 2^22 - 2 zeros, far more than a block holds, are coded in at most 21 digits. */
  lemma {:induction false} CodedShort(ranks: seq<int>, m: nat)
    requires m <= |ranks| && |ranks| <= 0x40_0000 - 2 && forall k :: 0 <= k < |ranks| ==> ranks[k] >= 0
    ensures ShortRuns(CodeTo(ranks, m).syms, |CodeTo(ranks, m).syms|)
  {
    if m > 0 {
      CodedShort(ranks, m - 1);
      if ranks[m - 1] != 0 {
        CodeDecodes(ranks, m - 1);
        ShortRunAndRank(CodeTo(ranks, m - 1).syms, CodeTo(ranks, m - 1).zPend, ranks[m - 1]);
      }
    }
  }

  lemma {:induction false} CodedStreamShort(ranks: seq<int>, eob: int)
    requires |ranks| <= 0x40_0000 - 2 && forall k :: 0 <= k < |ranks| ==> ranks[k] >= 0
    ensures ShortRuns(CodeAll(ranks, eob), |CodeAll(ranks, eob)| - 1)
  {
    var p := CodeTo(ranks, |ranks|);
    CodedShort(ranks, |ranks|);
    CodeDecodes(ranks, |ranks|);
    ShortPending(p.syms, p.zPend, 21);
    ShortPrefix(p.syms + Digits(p.zPend), CodeAll(ranks, eob), |CodeAll(ranks, eob)| - 1);
  }

  lemma {:induction false} CodedBelow(n: nat, ranks: seq<int>, m: nat)
    requires m <= |ranks| && Symbols(n, ranks) && n >= 1
    ensures forall k :: 0 <= k < |CodeTo(ranks, m).syms| ==> 0 <= CodeTo(ranks, m).syms[k] < n + 1
  {
    if m > 0 {
      CodedBelow(n, ranks, m - 1);
    }
  }

  lemma {:induction false} CodedIsStream(n: nat, ranks: seq<int>)
    requires Symbols(n, ranks) && 1 <= n <= 256
    ensures Stream(CodeAll(ranks, n + 1), n + 1)
  {
    CodedBelow(n, ranks, |ranks|);
  }

  /** Collects the characters of the whole stream; fails exactly on a run of more than 21 digits or
      when the block would overflow. */
  method DecodeStream(col: Collector, syms: seq<int>, eob: int) returns (ok: bool)
    requires Stream(syms, eob) && col.Valid() && col.ranks == []
    modifies col, col.tt, col.unzftab, col.list, col.list.mtfa, col.list.mtfbase
    ensures ok ==> col.Valid() && col.ranks == DecodeAll(syms) && ShortRuns(syms, |syms| - 1)
    ensures !ok ==> !ShortRuns(syms, |syms| - 1) || |DecodeAll(syms)| > col.nblockMAX
  {
    var m := 0;
    assert DecodeTo(syms, 0).All() == [];
    while syms[m] != eob
      invariant 0 <= m < |syms| && col.Valid() && BetweenRuns(syms, m, col.ranks)
      decreases |syms| - m
    {
      if IsDigit(syms[m]) {
        RunBegins(syms, m, col.ranks);
        var fine, es, m' := ReadRun(syms, m, eob);
        if !fine { return false; }
        RunEnds(syms, m, m', col.ranks, es, eob);
        fine := col.AddZeros(es);
        if !fine { return false; }
        m := m';
      } else {
        RankPasses(syms, m, col.ranks, eob);
        var fine := col.AddRank(syms[m] - 1);
        if !fine { return false; }
        m := m + 1;
      }
    }
    AllPassed(syms, m, col.ranks, eob);
    ok := true;
  }

  /** The ranks of the symbols before m, and that no run is begun that goes on at m. */
  ghost predicate BetweenRuns(syms: seq<int>, m: nat, ranks: seq<int>) {
    m < |syms| && forall k {:trigger Unfold(k)} :: Unfold(k) ==>
      ShortRuns(syms, m) && ranks == DecodeTo(syms, m).All() && (DecodeTo(syms, m).digits == [] || !IsDigit(syms[m]))
  }

  lemma {:induction false} RunBegins(syms: seq<int>, m: nat, ranks: seq<int>)
    requires BetweenRuns(syms, m, ranks) && IsDigit(syms[m])
    ensures DecodeTo(syms, m).digits == [] && ShortRuns(syms, m) && ranks == DecodeTo(syms, m).ranks
  {
    assert Unfold(0);
  }

  lemma {:induction false} RunEnds(syms: seq<int>, m: nat, m': nat, ranks: seq<int>, es: nat, eob: int)
    requires Stream(syms, eob) && m' < |syms| && ranks == DecodeTo(syms, m').ranks
    requires !IsDigit(syms[m']) && ShortRuns(syms, m') && es == Value(DecodeTo(syms, m').digits)
    ensures BetweenRuns(syms, m', ranks + Zeros(es)) && |ranks| + es <= |DecodeAll(syms)|
  {
    AllGrows(syms, m', |syms| - 1);
  }

  lemma {:induction false} RankPasses(syms: seq<int>, m: nat, ranks: seq<int>, eob: int)
    requires Stream(syms, eob) && m < |syms| - 1 && BetweenRuns(syms, m, ranks) && !IsDigit(syms[m])
    ensures BetweenRuns(syms, m + 1, ranks + [syms[m] - 1]) && |ranks| < |DecodeAll(syms)|
  {
    assert Unfold(0);
    AllGrows(syms, m + 1, |syms| - 1);
    var p := Decoded(ranks + [syms[m] - 1], []);
    assert DecodeTo(syms, m + 1) == p;
    assert p.All() == p.ranks;
  }

  lemma {:induction false} AllPassed(syms: seq<int>, m: nat, ranks: seq<int>, eob: int)
    requires Stream(syms, eob) && BetweenRuns(syms, m, ranks) && syms[m] == eob
    ensures ranks == DecodeAll(syms) && ShortRuns(syms, |syms| - 1)
  {
    assert Unfold(0);
    assert m == |syms| - 1;
  }
}
