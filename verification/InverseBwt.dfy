/** The two inverse Burrows-Wheeler decoders of decompress.c: FAST (one 32-bit word per row)
    and SMALL (20 bits per row, links reversed in place). */
module InverseBwt {
  import opened Common
  import opened Bwt
  import opened Rotations

  /** cftab[c] is the first row that starts with c. */
  ghost predicate FirstRows(l: seq<int>, cftab: seq<int>) {
    && |cftab| == 257
    && forall c :: 0 <= c <= 256 ==> cftab[c] == BelowTo(l, |l|, c)
  }

  /** Where the next row of each character goes when i rows have been read. */
  ghost predicate NextRows(l: seq<int>, cftab: seq<int>, i: nat) {
    && |cftab| == 257 && i <= |l|
    && forall c :: 0 <= c < 256 ==> cftab[c] == BelowTo(l, |l|, c) + CountTo(l, i, c)
  }

  lemma {:induction false} FirstIsNext(l: seq<int>, cftab: seq<int>)
    requires FirstRows(l, cftab)
    ensures NextRows(l, cftab, 0)
  {
  }

  lemma {:induction false} NextStep(l: seq<int>, cftab: seq<int>, i: nat)
    requires NextRows(l, cftab, i) && i < |l| && Bytes(l)
    ensures cftab[l[i]] == RowOf(l, i) < |l|
    ensures NextRows(l, cftab[l[i] := RowOf(l, i) + 1], i + 1)
  {
    RowRange(l, i);
  }

  function PrefixSum(u: seq<int>, c: nat): int
    requires c <= |u|
  {
    if c == 0 then 0 else PrefixSum(u, c - 1) + u[c - 1]
  }

  ghost predicate AllAtMost(u: seq<int>, c: nat, n: int) {
    c <= |u| && forall i :: 0 <= i < c ==> 0 <= u[i] <= n
  }

  lemma {:induction false} PrefixSumGrows(u: seq<int>, c: nat, d: nat, n: int)
    requires c <= d <= |u| && AllAtMost(u, |u|, n)
    ensures 0 <= PrefixSum(u, c) <= PrefixSum(u, d)
  {
    if c < d {
      PrefixSumGrows(u, c, d - 1, n);
    } else if c > 0 {
      PrefixSumGrows(u, c - 1, c - 1, n);
    }
  }

  ghost predicate Sums(u: seq<int>, cftab: seq<int>) {
    && |u| == 256 && |cftab| == 257
    && forall c :: 0 <= c <= 256 ==> cftab[c] == PrefixSum(u, c)
  }

  method Accumulate(unzftab: array<int>, cftab: array<int>)
    requires unzftab.Length == 256 && cftab.Length == 257 && unzftab != cftab
    modifies cftab
    ensures Sums(unzftab[..], cftab[..])
  {
    ghost var u := unzftab[..];
    cftab[0] := 0;
    for i := 1 to 257
      invariant cftab[0] == 0 && forall c :: 1 <= c < i ==> cftab[c] == u[c - 1]
    {
      cftab[i] := unzftab[i - 1];
    }
    for i := 1 to 257
      invariant forall c :: 0 <= c < i ==> cftab[c] == PrefixSum(u, c)
      invariant forall c :: i <= c < 257 ==> cftab[c] == u[c - 1]
    {
      cftab[i] := cftab[i] + cftab[i - 1];
    }
  }

  /** Builds cftab from the character counts; rejects exactly the counts that do not fit the block. */
  method MakeCftab(unzftab: array<int>, nblock: nat, cftab: array<int>) returns (ok: bool)
    requires unzftab.Length == 256 && cftab.Length == 257 && unzftab != cftab
    modifies cftab
    ensures ok <==> AllAtMost(unzftab[..], 256, nblock) && PrefixSum(unzftab[..], 256) <= nblock
    ensures ok ==> Sums(unzftab[..], cftab[..])
  {
    ghost var u := unzftab[..];
    for i := 0 to 256
      invariant AllAtMost(u, i, nblock)
    {
      if unzftab[i] < 0 || unzftab[i] > nblock { return false; }
    }
    Accumulate(unzftab, cftab);
    for i := 0 to 257
      invariant Sums(u, cftab[..])
      invariant i > 0 ==> PrefixSum(u, i - 1) <= nblock
    {
      PrefixSumGrows(u, i, 256, nblock);
      if cftab[i] < 0 || cftab[i] > nblock { return false; }
    }
    for i := 1 to 257
      invariant Sums(u, cftab[..])
    {
      PrefixSumGrows(u, i - 1, i, nblock);
      if cftab[i - 1] > cftab[i] { assert false; return false; }
    }
    ok := true;
  }

  /** True counts are never rejected and give the first row of every character. */
  lemma {:induction false} CountsMakeFirstRows(l: seq<int>, u: seq<int>, c: nat)
    requires Bytes(l) && |u| == 256 && c <= 256 && forall c :: 0 <= c < 256 ==> u[c] == CountTo(l, |l|, c)
    ensures PrefixSum(u, c) == BelowTo(l, |l|, c) && AllAtMost(u, 256, |l|)
  {
    if c == 0 {
      BelowBytes(l, |l|);
    } else {
      CountsMakeFirstRows(l, u, c - 1);
      BelowStep(l, |l|, c - 1);
    }
  }

  // ---------------------------------------------------------------- FAST

  /** Row words: the row's character in the low byte, its link above; -1 marks a link not yet set. */
  ghost predicate Words(tt: seq<int>, l: seq<int>, t: seq<int>, i: nat) {
    && |t| == |l| <= |tt| && i <= |l| && Bytes(l)
    && (forall k :: 0 <= k < |l| ==> tt[k] == l[k] + 256 * (if t[k] < 0 then 0 else t[k]))
    && (forall j {:trigger RowOf(l, j)} :: 0 <= j < |l| ==> RowOf(l, j) < |l| && t[RowOf(l, j)] == if j < i then j
        else -1)
  }

  lemma {:induction false} WordsStart(tt: seq<int>, l: seq<int>)
    requires |l| <= |tt| && Bytes(l) && forall k :: 0 <= k < |l| ==> tt[k] == l[k]
    ensures Words(tt, l, seq(|l|, k => -1), 0)
  {
    forall j {:trigger RowOf(l, j)} | 0 <= j < |l|
      ensures RowOf(l, j) < |l|
    {
      RowRange(l, j);
    }
  }

  lemma {:induction false} WordsStep(tt: seq<int>, l: seq<int>, t: seq<int>, i: nat)
    requires Words(tt, l, t, i) && i < |l|
    ensures RowOf(l, i) < |l| && tt[RowOf(l, i)] < 256
    ensures Words(tt[RowOf(l, i) := tt[RowOf(l, i)] + 256 * i], l, t[RowOf(l, i) := i], i + 1)
  {
    var p := RowOf(l, i);
    forall j {:trigger RowOf(l, j)} | 0 <= j < |l| && j != i
      ensures RowOf(l, j) != p
    {
      if j < i { RowInjective(l, j, i); } else { RowInjective(l, i, j); }
    }
  }

  lemma {:induction false} WordsUndo(tt: seq<int>, l: seq<int>, t: seq<int>)
    requires Words(tt, l, t, |l|)
    ensures Undoes(t, l) && Within(t)
    ensures forall k :: 0 <= k < |l| ==> tt[k] == l[k] + 256 * t[k]
  {
    UndoesWithin(t, l);
  }

  /** Adds to every row word the link to the row it was read from. */
  method BuildFast(tt: array<int>, cftab: array<int>, nblock: nat, ghost l: seq<int>) returns (ghost t: seq<int>)
    requires tt != cftab && |l| == nblock <= tt.Length && Bytes(l)
    requires (forall k :: 0 <= k < nblock ==> tt[k] == l[k]) && FirstRows(l, cftab[..])
    modifies tt, cftab
    ensures Undoes(t, l) && Within(t)
    ensures forall k :: 0 <= k < nblock ==> tt[k] == l[k] + 256 * t[k]
  {
    t := seq(|l|, k => -1);
    WordsStart(tt[..], l);
    FirstIsNext(l, cftab[..]);
    for i := 0 to nblock
      invariant Words(tt[..], l, t, i) && NextRows(l, cftab[..], i)
    {
      var uc := tt[i] % 256;
      WordsStep(tt[..], l, t, i);
      NextStep(l, cftab[..], i);
      ghost var before := tt[..];
      tt[cftab[uc]] := tt[cftab[uc]] + 256 * i;  // the word's upper bits are still zero, so this is the OR
      assert tt[..] == before[RowOf(l, i) := before[RowOf(l, i)] + 256 * i];
      ghost var table := cftab[..];
      cftab[uc] := cftab[uc] + 1;
      assert cftab[..] == table[l[i] := RowOf(l, i) + 1];
      t := t[RowOf(l, i) := i];
    }
    WordsUndo(tt[..], l, t);
  }

  /** The first m bytes of b are read off the last column along the walk from o. */
  ghost predicate Spells(l: seq<int>, t: seq<int>, o: nat, b: seq<int>, m: nat)
    requires |t| == |l| && o < |t| && Within(t) && m <= |b|
  {
    m > 0 ==> Spells(l, t, o, b, m - 1) && b[m - 1] == l[Walk(t, o, m)]
  }

  lemma {:induction false} SpellsAt(l: seq<int>, t: seq<int>, o: nat, b: seq<int>, m: nat, k: nat)
    requires |t| == |l| && o < |t| && Within(t) && k < m <= |b| && Spells(l, t, o, b, m)
    ensures b[k] == l[Walk(t, o, k + 1)]
  {
    if k < m - 1 {
      SpellsAt(l, t, o, b, m - 1, k);
    }
  }

  /** A sorted block is spelled from the row of rotation 0. */
  lemma {:induction false} BlockSpelled(b: seq<int>, f: seq<int>, t: seq<int>, o: nat, m: nat)
    requires SortsRotations(b, f) && o < |b| && f[o] == 0 && m <= |b| && Bytes(b)
    requires Undoes(t, LastColumn(b, f)) && Within(t)
    ensures Spells(LastColumn(b, f), t, o, b, m)
    decreases m
  {
    if m > 0 {
      BlockSpelled(b, f, t, o, m - 1);
      WalkCharacter(b, f, t, o, m - 1);
    }
  }

  /** A finished table of row words for the last column l. */
  ghost predicate FastTable(tt: seq<int>, l: seq<int>, t: seq<int>, o: nat, limit: int) {
    && o < |l| <= limit && |t| == |l| <= |tt|
    && Bytes(l) && Undoes(t, l) && Within(t)
    && forall k :: 0 <= k < |l| ==> tt[k] == l[k] + 256 * t[k]
  }

  /** BZ_GET_FAST over a finished table. */
  class FastReader {
    const tt: seq<int>
    const limit: int  // 100000 * blockSize100k
    var tPos: int
    ghost const l: seq<int>
    ghost const t: seq<int>
    ghost const o: nat
    ghost var used: nat

    ghost predicate Valid()
      reads this
    {
      FastTable(tt, l, t, o, limit) && tPos == Walk(t, o, used + 1)
    }

    constructor (tt: seq<int>, limit: int, origPtr: nat, ghost l: seq<int>, ghost t: seq<int>)
      requires FastTable(tt, l, t, origPtr, limit)
      ensures Valid() && used == 0 && this.l == l && this.t == t && this.o == origPtr && this.tt == tt
    {
      this.tt, this.limit, this.l, this.t, this.o := tt, limit, l, t, origPtr;
      tPos := tt[origPtr] / 256;
      used := 0;
      assert Walk(t, origPtr, 1) == t[Walk(t, origPtr, 0)];
    }

    method Get() returns (corrupt: bool, c: int)
      requires Valid()
      modifies this
      ensures Valid() && !corrupt && c == l[Walk(t, o, old(used) + 1)] && 0 <= c < 256 && used == old(used) + 1
    {
      if tPos >= limit { assert false; return true, 0; }
      tPos := tt[tPos];
      c := tPos % 256;
      tPos := tPos / 256;
      used := used + 1;
      corrupt := false;
      assert Walk(t, o, used + 1) == t[Walk(t, o, used)];
    }
  }

  // ---------------------------------------------------------------- SMALL: packed links

  /** Half a byte of ll4 (GET_LL4). */
  function Nibble(x: int, odd: bool): int {
    if odd then x / 16 % 16 else x % 16
  }

  /** The first m links as they lie packed: 16 bits in ll16, the upper 4 in half a byte of ll4. */
  ghost predicate Packs(ll16: seq<int>, ll4: seq<int>, links: seq<int>, m: nat)
    requires |links| == |ll16| && |ll4| == (1 + |ll16|) / 2 && m <= |links|
  {
    m > 0 ==>
      && Packs(ll16, ll4, links, m - 1)
      && 0 <= ll4[(m - 1) / 2] < 256
      && links[m - 1] == ll16[m - 1] + 0x1_0000 * Nibble(ll4[(m - 1) / 2], (m - 1) % 2 == 1)
  }

  lemma {:induction false} PacksAt(ll16: seq<int>, ll4: seq<int>, links: seq<int>, m: nat, k: nat)
    requires |links| == |ll16| && |ll4| == (1 + |ll16|) / 2 && k < m <= |links|
    requires Packs(ll16, ll4, links, m)
    ensures 0 <= ll4[k / 2] < 256
    ensures links[k] == ll16[k] + 0x1_0000 * Nibble(ll4[k / 2], k % 2 == 1)
  {
    if k < m - 1 {
      PacksAt(ll16, ll4, links, m - 1, k);
    }
  }

  /** What SET_LL4 stores. */
  function NibbleSet(x: int, odd: bool, hi: int): int {
    if odd then x % 16 + hi * 16 else x / 16 * 16 + hi
  }

  lemma NibbleSetGet(x: int, odd: bool, hi: int)
    requires 0 <= x < 256 && 0 <= hi < 16
    ensures 0 <= NibbleSet(x, odd, hi) < 256
    ensures Nibble(NibbleSet(x, odd, hi), odd) == hi
    ensures Nibble(NibbleSet(x, odd, hi), !odd) == Nibble(x, !odd)
  {
  }

  lemma {:induction false} PacksSet(ll16: seq<int>, ll4: seq<int>, links: seq<int>, m: nat, i: nat, n: nat)
    requires |links| == |ll16| && |ll4| == (1 + |ll16|) / 2 && m <= |links| && i < |links| && n < 0x10_0000
    requires Packs(ll16, ll4, links, m) && 0 <= ll4[i / 2] < 256
    ensures Packs(ll16[i := n % 0x1_0000], ll4[i / 2 := NibbleSet(ll4[i / 2], i % 2 == 1, n / 0x1_0000)], links[i := n],
        m)
  {
    if m > 0 {
      PacksSet(ll16, ll4, links, m - 1, i, n);
      NibbleSetGet(ll4[i / 2], i % 2 == 1, n / 0x1_0000);
      if (m - 1) / 2 == i / 2 && m - 1 != i {
        assert ((m - 1) % 2 == 1) == !(i % 2 == 1);
      }
    }
  }

  /** The links that any contents of the two tables stand for. */
  ghost function Unpacked(ll16: seq<int>, ll4: seq<int>): (r: seq<int>)
    requires |ll4| == (1 + |ll16|) / 2
    ensures |r| == |ll16|
  {
    seq(|ll16|, k requires 0 <= k < |ll16| => ll16[k] + 0x1_0000 * Nibble(ll4[k / 2], k % 2 == 1))
  }

  lemma {:induction false} UnpackedPacks(ll16: seq<int>, ll4: seq<int>, m: nat)
    requires |ll4| == (1 + |ll16|) / 2 && m <= |ll16| && forall k :: 0 <= k < |ll4| ==> 0 <= ll4[k] < 256
    ensures Packs(ll16, ll4, Unpacked(ll16, ll4), m)
  {
    if m > 0 {
      UnpackedPacks(ll16, ll4, m - 1);
    }
  }

  /** The 20-bit link table. */
  class PackedLinks {
    const ll16: array<int>
    const ll4: array<int>
    ghost var links: seq<int>

    ghost predicate Valid()
      reads this, ll16, ll4
    {
      && ll16 != ll4 && ll4.Length == (1 + ll16.Length) / 2
      && |links| == ll16.Length
      && Packs(ll16[..], ll4[..], links, |links|)
    }

    constructor (ll16: array<int>, ll4: array<int>)
      requires ll16 != ll4 && ll4.Length == (1 + ll16.Length) / 2 && forall k :: 0 <= k < ll4.Length ==> 0 <= ll4[k] < 256
      ensures Valid() && this.ll16 == ll16 && this.ll4 == ll4
    {
      this.ll16, this.ll4 := ll16, ll4;
      links := Unpacked(ll16[..], ll4[..]);
      new;
      UnpackedPacks(ll16[..], ll4[..], ll16.Length);
    }

    /** GET_LL */
    method Link(i: nat) returns (r: int)
      requires Valid() && i < ll16.Length
      ensures r == links[i]
    {
      PacksAt(ll16[..], ll4[..], links, |links|, i);
      r := ll16[i] + 0x1_0000 * Nibble(ll4[i / 2], i % 2 == 1);
    }

    /** SET_LL */
    method SetLink(i: nat, n: nat)
      requires Valid() && i < ll16.Length && n < 0x10_0000
      modifies this, ll16, ll4
      ensures Valid() && links == old(links)[i := n]
      ensures ll16[..] == old(ll16[..])[i := n % 0x1_0000]
    {
      PacksAt(ll16[..], ll4[..], links, |links|, i);
      PacksSet(ll16[..], ll4[..], links, |links|, i, n);
      ll16[i] := n % 0x1_0000;
      ghost var half := ll4[..];
      ll4[i / 2] := NibbleSet(ll4[i / 2], i % 2 == 1, n / 0x1_0000);
      links := links[i := n];
      assert ll4[..] == half[i / 2 := NibbleSet(half[i / 2], i % 2 == 1, n / 0x1_0000)];
    }
  }

  /** Replaces every row's character by the link to its partner row. */
  method BuildLinks(links: PackedLinks, cftabCopy: array<int>, nblock: nat, ghost l: seq<int>)
    requires links.Valid() && cftabCopy != links.ll16 && cftabCopy != links.ll4
    requires |l| == nblock <= links.ll16.Length && nblock < 0x10_0000 && Bytes(l)
    requires (forall k :: 0 <= k < nblock ==> links.ll16[k] == l[k]) && FirstRows(l, cftabCopy[..])
    modifies links, links.ll16, links.ll4, cftabCopy
    ensures links.Valid() && forall k :: 0 <= k < nblock ==> links.links[k] == RowOf(l, k)
  {
    FirstIsNext(l, cftabCopy[..]);
    for i := 0 to nblock
      invariant links.Valid() && NextRows(l, cftabCopy[..], i)
      invariant forall k :: i <= k < nblock ==> links.ll16[k] == l[k]
      invariant forall k :: 0 <= k < i ==> links.links[k] == RowOf(l, k)
    {
      var uc := links.ll16[i] % 256;
      NextStep(l, cftabCopy[..], i);
      links.SetLink(i, cftabCopy[uc]);
      ghost var table := cftabCopy[..];
      cftabCopy[uc] := cftabCopy[uc] + 1;
      assert cftabCopy[..] == table[l[i] := RowOf(l, i) + 1];
    }
  }

  /** Reversing the links of one cycle of r, started at o and now at i; the links out of w are done. */
  ghost predicate Reversing(r: seq<int>, t: seq<int>, cur: seq<int>, w: set<int>, o: nat, i: nat) {
    && IsPerm(r) && |t| == |r| <= |cur| && o < |r| && i < |r|
    && (forall x :: 0 <= x < |r| ==> t[r[x]] == x)
    && (forall x :: x in w ==> 0 <= x < |r| && (x == o || t[x] in w))
    && (i == o || t[i] in w) && (w == {} || o in w)
    && (forall x :: 0 <= x < |r| ==> cur[r[x]] == if x in w then x else r[r[x]])
  }

  lemma {:induction false} ReverseStep(r: seq<int>, t: seq<int>, cur: seq<int>, w: set<int>, o: nat, i: nat)
    requires Reversing(r, t, cur, w, o, i) && i !in w
    ensures cur[r[i]] == r[r[i]]
    ensures Reversing(r, t, cur[r[i] := i], w + {i}, o, r[i])
    ensures r[i] == o || r[i] !in w + {i}
  {
  }

  lemma {:induction false} ReverseRoom(w: set<int>, n: nat)
    requires forall x :: x in w ==> 0 <= x < n
    ensures |w| <= n
  {
    SubsetSize(w, Interval(0, n));
  }

  /** The set of rows on a finished cycle: cur agrees with t there and never leaves it. */
  ghost predicate Cycle(t: seq<int>, cur: seq<int>, w: set<int>) {
    && |t| <= |cur|
    && forall x :: x in w ==> 0 <= x < |t| && cur[x] == t[x] && t[x] in w
  }

  lemma {:induction false} ReverseDone(r: seq<int>, t: seq<int>, cur: seq<int>, w: set<int>, o: nat, i: nat)
    requires Reversing(r, t, cur, w, o, i) && i in w && r[i] == o
    ensures Cycle(t, cur, w) && o in w
  {
    forall x | x in w
      ensures cur[x] == t[x] && t[x] in w
    {
      var y := PermSurjective(r, x);
    }
  }

  /** Turns the links of origPtr's cycle round, so that they lead from each row to the one it came from. */
  method ReverseLinks(links: PackedLinks, origPtr: nat, ghost l: seq<int>, ghost t: seq<int>)
      returns (ghost w: set<int>)
    requires links.Valid() && origPtr < |l| <= links.ll16.Length && |l| < 0x10_0000
    requires (forall k :: 0 <= k < |l| ==> links.links[k] == RowOf(l, k)) && Undoes(t, l)
    modifies links, links.ll16, links.ll4
    ensures links.Valid() && origPtr in w && Cycle(t, links.links, w)
  {
    ghost var r := Rows(l);
    RowsPerm(l);
    w := {};
    var i: nat := origPtr;
    var j: int := links.Link(i);
    ghost var last := i;
    while true
      invariant links.Valid() && Reversing(r, t, links.links, w, origPtr, i)
      invariant j == r[i] && i !in w
      decreases |l| - |w|
    {
      ReverseStep(r, t, links.links, w, origPtr, i);
      var tmp := links.Link(j);
      links.SetLink(j, i);
      w := w + {i};
      ReverseRoom(w, |l|);
      last := i;
      i := j;
      j := tmp;
      if i == origPtr { break; }
    }
    ReverseDone(r, t, links.links, w, origPtr, last);
  }

  lemma {:induction false} WalkCycle(t: seq<int>, cur: seq<int>, w: set<int>, o: nat, k: nat)
    requires Cycle(t, cur, w) && o in w && Within(t)
    ensures Walk(t, o, k) in w && cur[Walk(t, o, k)] == t[Walk(t, o, k)]
  {
    if k > 0 {
      WalkCycle(t, cur, w, o, k - 1);
    }
  }

  /** Binary search for the character whose rows include indx. */
  method IndexIntoF(indx: int, cftab: seq<int>) returns (nb: int)
    requires |cftab| == 257 && cftab[0] <= indx < cftab[256]
    ensures 0 <= nb < 256 && cftab[nb] <= indx < cftab[nb + 1]
  {
    nb := 0;
    var na := 256;
    while true
      invariant 0 <= nb < na <= 256 && na - nb > 1
      invariant cftab[nb] <= indx < cftab[na]
      decreases na - nb
    {
      var mid := (nb + na) / 2;
      if indx >= cftab[mid] { nb := mid; } else { na := mid; }
      if na - nb == 1 { break; }
    }
  }

  /** The character found for row p is the one its link leads to in the last column. */
  lemma {:induction false} FirstOfRow(l: seq<int>, t: seq<int>, p: nat, c: int)
    requires Undoes(t, l) && p < |l|
    requires BelowTo(l, |l|, c) <= p < BelowTo(l, |l|, c + 1)
    ensures 0 <= t[p] < |l| && c == l[t[p]]
  {
    UndoesBack(t, l, p);
    RowRange(l, t[p]);
    var d := l[t[p]];
    if c < d { BelowMonotone(l, |l|, c + 1, d); }
    if d < c { BelowMonotone(l, |l|, d + 1, c); }
  }

  /** A finished table of packed links whose cycle through o has been reversed. */
  ghost predicate SmallTable(ll16: seq<int>, ll4: seq<int>, cftab: seq<int>, l: seq<int>, t: seq<int>, o: nat,
                             links: seq<int>, w: set<int>, limit: int) {
    && |links| == |ll16| && |ll4| == (1 + |ll16|) / 2 && Packs(ll16, ll4, links, |links|)
    && o < |l| <= limit && |t| == |l| <= |links|
    && Bytes(l) && Undoes(t, l) && Within(t) && FirstRows(l, cftab)
    && o in w && Cycle(t, links, w)
  }

  /** BZ_GET_SMALL over a finished table. */
  class SmallReader {
    const ll16: seq<int>
    const ll4: seq<int>
    const cftab: seq<int>
    const limit: int
    var tPos: int
    ghost const l: seq<int>
    ghost const t: seq<int>
    ghost const o: nat
    ghost const links: seq<int>
    ghost const w: set<int>
    ghost var used: nat

    ghost predicate Valid()
      reads this
    {
      SmallTable(ll16, ll4, cftab, l, t, o, links, w, limit) && tPos == Walk(t, o, used)
    }

    constructor (ll16: seq<int>, ll4: seq<int>, cftab: seq<int>, limit: int, origPtr: nat,
                 ghost l: seq<int>, ghost t: seq<int>, ghost links: seq<int>, ghost w: set<int>)
      requires SmallTable(ll16, ll4, cftab, l, t, origPtr, links, w, limit)
      ensures Valid() && used == 0 && this.l == l && this.t == t && this.o == origPtr
    {
      this.ll16, this.ll4, this.cftab, this.limit := ll16, ll4, cftab, limit;
      this.l, this.t, this.o, this.links, this.w := l, t, origPtr, links, w;
      tPos, used := origPtr, 0;
    }

    method Get() returns (corrupt: bool, c: int)
      requires Valid()
      modifies this
      ensures Valid() && !corrupt && c == l[Walk(t, o, old(used) + 1)] && 0 <= c < 256 && used == old(used) + 1
    {
      if tPos >= limit { assert false; return true, 0; }
      BelowBytes(l, |l|);
      c := IndexIntoF(tPos, cftab);
      FirstOfRow(l, t, tPos, c);
      WalkCycle(t, links, w, o, used);
      PacksAt(ll16, ll4, links, |links|, tPos);
      tPos := ll16[tPos] + 0x1_0000 * Nibble(ll4[tPos / 2], tPos % 2 == 1);
      used := used + 1;
      corrupt := false;
    }
  }

  // ---------------------------------------------------------------- from the decoded block to a reader

  /** Any last column and any start row spell some text. */
  lemma {:induction false} AnySpells(l: seq<int>, t: seq<int>, o: nat, b: seq<int>, m: nat)
    requires |t| == |l| && o < |t| && Within(t) && m <= |b| && forall k :: 0 <= k < |b| ==> b[k] == l[Walk(t, o, k + 1)]
    ensures Spells(l, t, o, b, m)
  {
    if m > 0 {
      AnySpells(l, t, o, b, m - 1);
      assert b[m - 1] == l[Walk(t, o, m - 1 + 1)];
    }
  }

  /** The text read off the last column l from row o. */
  ghost function Spelled(l: seq<int>, t: seq<int>, o: nat): (b: seq<byte>)
    requires |t| == |l| && o < |t| && Within(t) && Bytes(l)
    ensures |b| == |l|
  {
    seq(|l|, k requires 0 <= k < |l| => l[Walk(t, o, k + 1)] as byte)
  }

  lemma {:induction false} SpelledBlock(b: seq<byte>, f: seq<int>, t: seq<int>, o: nat)
    requires SortsRotations(b, f) && o < |b| && f[o] == 0 && Undoes(t, LastColumn(b, f)) && Within(t)
        && Bytes(LastColumn(b, f))
    ensures Spelled(LastColumn(b, f), t, o) == b
  {
    forall k | 0 <= k < |b|
      ensures Spelled(LastColumn(b, f), t, o)[k] == b[k]
    {
      WalkCharacter(b, f, t, o, k);
    }
  }

  lemma {:induction false} SpelledSpells(l: seq<int>, t: seq<int>, o: nat)
    requires |t| == |l| && o < |t| && Within(t) && Bytes(l)
    ensures Spells(l, t, o, Spelled(l, t, o), |l|)
  {
    AnySpells(l, t, o, Spelled(l, t, o), |l|);
  }

  lemma {:induction false} TalliedFirstRows(l: seq<int>, u: seq<int>, cftab: seq<int>)
    requires Bytes(l) && |u| == 256 && forall c :: 0 <= c < 256 ==> u[c] == CountTo(l, |l|, c)
    ensures AllAtMost(u, 256, |l|) && PrefixSum(u, 256) <= |l|
    ensures Sums(u, cftab) ==> FirstRows(l, cftab)
  {
    CountsMakeFirstRows(l, u, 256);
    if Sums(u, cftab) {
      forall c | 0 <= c <= 256
        ensures cftab[c] == BelowTo(l, |l|, c)
      {
        CountsMakeFirstRows(l, u, c);
      }
    }
  }

  /** Prepares the FAST reader. */
  method OpenFast(tt: array<int>, cftab: array<int>, nblock: nat, limit: int, origPtr: nat, ghost l: seq<int>)
      returns (reader: FastReader)
    requires tt != cftab && origPtr < |l| == nblock <= limit && nblock <= tt.Length && Bytes(l) && tt[..nblock] == l
        && FirstRows(l, cftab[..])
    modifies tt, cftab
    ensures fresh(reader) && reader.Valid() && reader.used == 0 && reader.l == l && reader.o == origPtr
  {
    ghost var t := BuildFast(tt, cftab, nblock, l);
    reader := new FastReader(tt[..], limit, origPtr, l, t);
  }

  /** Prepares the SMALL reader. */
  method OpenSmall(ll16: array<int>, cftab: seq<int>, nblock: nat, limit: int, origPtr: nat, ghost l: seq<int>)
      returns (reader: SmallReader)
    requires origPtr < |l| == nblock <= limit && nblock <= ll16.Length && nblock < 0x10_0000 && Bytes(l)
        && ll16[..nblock] == l
    requires FirstRows(l, cftab)
    modifies ll16
    ensures fresh(reader) && reader.Valid() && reader.used == 0 && reader.l == l && reader.o == origPtr
  {
    var ll4 := new int[(1 + ll16.Length) / 2](_ => 0);
    var cftabCopy := new int[257](i requires 0 <= i < 257 => cftab[i]);
    assert cftabCopy[..] == cftab;
    var links := new PackedLinks(ll16, ll4);
    BuildLinks(links, cftabCopy, nblock, l);
    ghost var t := UndoRows(l);
    ghost var w := ReverseLinks(links, origPtr, l, t);
    reader := new SmallReader(ll16[..], ll4[..], cftab, limit, origPtr, l, t, links.links, w);
  }

  lemma UndoRows(l: seq<int>) returns (t: seq<int>)
    ensures Undoes(t, l) && Within(t)
  {
    RowsPerm(l);
    t := [];
    while |t| < |l|
      invariant |t| <= |l| && forall p :: 0 <= p < |t| ==> 0 <= t[p] < |l| && Rows(l)[t[p]] == p
    {
      var i := PermSurjective(Rows(l), |t|);
      t := t + [i];
    }
    forall i {:trigger RowOf(l, i)} | 0 <= i < |l|
      ensures RowOf(l, i) < |l| && t[RowOf(l, i)] == i
    {
      RowRange(l, i);
      assert Rows(l)[i] == RowOf(l, i) && Rows(l)[t[RowOf(l, i)]] == RowOf(l, i);
    }
  }
}
