/** The bits of one compressed block: what BZ2_compressBlock and sendMTFValues (compress.c) write and
    BZ2_decompress (decompress.c) reads back. */
module BlockFormat {
  import opened Common
  import opened BitStream
  import opened CanonicalCode
  import opened MtfCoding
  import opened MtfEncode

  // ---------------------------------------------------------------- the bits of each part

  function Bit(f: bool): (r: nat)
    ensures r < Pow2(1)
  {
    if f then 1 else 0
  }

  /** The flags lo..hi-1, one bit each. */
  ghost function Flags(f: seq<bool>, lo: nat, hi: nat): (r: seq<int>)
    requires hi <= |f|
    decreases hi - lo
  {
    if lo >= hi then [] else Bits(Bit(f[lo]), 1) + Flags(f, lo + 1, hi)
  }

  /** Which of the 16 rows of 16 byte values are used at all. */
  ghost predicate RowUsed(inUse: seq<bool>, i: nat)
    requires |inUse| == 256 && i < 16
  {
    exists j :: 16 * i <= j < 16 * i + 16 && inUse[j]
  }

  ghost function RowsUsed(inUse: seq<bool>): (r: seq<bool>)
    requires |inUse| == 256
    ensures |r| == 16 && forall i :: 0 <= i < 16 ==> r[i] == RowUsed(inUse, i)
  {
    seq(16, i requires 0 <= i < 16 => RowUsed(inUse, i))
  }

  /** The used rows from row i on. */
  ghost function RowBits(inUse: seq<bool>, i: nat): (r: seq<int>)
    requires |inUse| == 256
    decreases 16 - i
  {
    if i >= 16 then [] else RowPart(inUse, i) + RowBits(inUse, i + 1)
  }

  ghost function RowPart(inUse: seq<bool>, i: nat): (r: seq<int>)
    requires |inUse| == 256 && i < 16
  {
    if RowUsed(inUse, i) then Flags(inUse, 16 * i, 16 * i + 16) else []
  }

  ghost function MapBits(inUse: seq<bool>): (r: seq<int>)
    requires |inUse| == 256
  {
    Flags(RowsUsed(inUse), 0, 16) + RowBits(inUse, 0)
  }

  ghost function Unary(j: nat): (r: seq<int>) {
    if j == 0 then Bits(0, 1) else Bits(1, 1) + Unary(j - 1)
  }

  /** The selector ranks from the i-th on. */
  ghost function SelectorBits(m: seq<int>, i: nat): (r: seq<int>)
    decreases |m| - i
  {
    if i >= |m| then [] else Unary(if m[i] < 0 then 0 else m[i]) + SelectorBits(m, i + 1)
  }

  /** The steps from length curr to length want. */
  ghost function Delta(curr: int, want: int): (r: seq<int>)
    decreases if curr < want then want - curr else curr - want
  {
    if curr < want then Bits(2, 2) + Delta(curr + 1, want)
    else if curr > want then Bits(3, 2) + Delta(curr - 1, want)
    else Bits(0, 1)
  }

  ghost function DeltaBits(curr: int, lens: seq<int>, i: nat): (r: seq<int>)
    decreases |lens| - i
  {
    if i >= |lens| then [] else Delta(curr, lens[i]) + DeltaBits(lens[i], lens, i + 1)
  }

  ghost function TableBits(lens: seq<int>): (r: seq<int>)
    requires |lens| > 0 && lens[0] >= 0
  {
    Bits(lens[0], 5) + DeltaBits(lens[0], lens, 0)
  }

  /** The coding tables from the t-th on. */
  ghost function TablesBits(tables: seq<seq<int>>, t: nat): (r: seq<int>)
    decreases |tables| - t
  {
    if t >= |tables| then []
    else (if |tables[t]| > 0 && tables[t][0] >= 0 then TableBits(tables[t]) else []) + TablesBits(tables, t + 1)
  }

  /** Symbol i is coded with the table that the selector of its group of 50 names. */
  ghost function SymbolBits(tables: seq<seq<int>>, selectors: seq<int>, syms: seq<int>, i: nat): (r: seq<int>)
    requires Selected(tables, selectors, syms)
    decreases |syms| - i
  {
    if i >= |syms| then []
    else SymbolCode(tables, selectors, syms, i) + SymbolBits(tables, selectors, syms, i + 1)
  }

  ghost function SymbolCode(tables: seq<seq<int>>, selectors: seq<int>, syms: seq<int>, i: nat): (r: seq<int>)
    requires Selected(tables, selectors, syms) && i < |syms|
  {
    assert SymbolOk(tables, syms, i);
    CodeBits(tables[selectors[i / 50]], syms[i])
  }

  /** Symbol i has a code in every table. */
  ghost predicate SymbolOk(tables: seq<seq<int>>, syms: seq<int>, i: nat)
    requires i < |syms|
  {
    forall t :: 0 <= t < |tables| ==> 0 <= syms[i] < |tables[t]| && tables[t][syms[i]] >= 0
  }

  ghost predicate Selected(tables: seq<seq<int>>, selectors: seq<int>, syms: seq<int>) {
    && |syms| <= 50 * |selectors|
    && (forall k :: 0 <= k < |selectors| ==> 0 <= selectors[k] < |tables|)
    && (forall i {:trigger SymbolOk(tables, syms, i)} :: 0 <= i < |syms| ==> SymbolOk(tables, syms, i))
  }

  // ---------------------------------------------------------------- what a block carries

  datatype Image = Image(crc: nat, origPtr: nat, inUse: seq<bool>, selectors: seq<int>, tables: seq<seq<int>>,
      syms: seq<int>)

  const MAX_SELECTORS := 18002  // the room for selectors: 2 + 900000 / 50

  const MAGIC: seq<byte> := [0x31, 0x41, 0x59, 0x26, 0x53, 0x59]

  ghost predicate Table(lens: seq<int>, alphaSize: int) {
    |lens| == alphaSize && Lengths(lens, 1, 20) && Fits(lens, 20)
  }

  ghost predicate WellFormed(im: Image) {
    && im.crc < 0x1_0000_0000 && im.origPtr < 0x100_0000
    && |im.inUse| == 256 && UsedBelow(im.inUse, 256) > 0
    && 2 <= |im.tables| <= 6 && 1 <= |im.selectors| <= MAX_SELECTORS
    && (forall t :: 0 <= t < |im.tables| ==> Table(im.tables[t], UsedBelow(im.inUse, 256) + 2))
    && Selected(im.tables, im.selectors, im.syms)
    && |im.syms| > 0 && im.syms[|im.syms| - 1] == UsedBelow(im.inUse, 256) + 1
    && forall i :: 0 <= i < |im.syms| - 1 ==> im.syms[i] <= UsedBelow(im.inUse, 256)
  }

  ghost function BodyBits(im: Image): (r: seq<int>)
    requires WellFormed(im)
  {
    HeadBits(im.inUse, |im.tables|, Ranks(|im.tables|, im.selectors)) + TablesBits(im.tables, 0)
    + SymbolBits(im.tables, im.selectors, im.syms, 0)
  }

  /** The mapping table and the selectors. */
  ghost function HeadBits(inUse: seq<bool>, nGroups: nat, selectorMtf: seq<int>): (r: seq<int>)
    requires |inUse| == 256
  {
    MapBits(inUse) + Bits(nGroups, 3) + Bits(|selectorMtf|, 15) + SelectorBits(selectorMtf, 0)
  }

  /** A word as four bytes. */
  function Word(x: nat): (r: seq<byte>)
    requires x < 0x1_0000_0000
  {
    [x / 0x100_0000, x / 0x1_0000 % 256, x / 256 % 256, x % 256]
  }

  ghost function ImageBits(im: Image): (r: seq<int>)
    requires WellFormed(im)
  {
    HeaderBits(im.crc, im.origPtr) + BodyBits(im)
  }

  /** The block's mark, its checksum, the bit that says it is not randomised, and the row of rotation 0. */
  ghost function HeaderBits(crc: nat, origPtr: nat): (r: seq<int>)
    requires crc < 0x1_0000_0000
  {
    ByteBits(MAGIC) + ByteBits(Word(crc)) + Bits(0, 1) + Bits(origPtr, 24)
  }

  lemma SmallNumbers()
    ensures Pow2(3) == 8 && Pow2(15) == 0x8000
  {
    assert Pow2(1) == 2 * Pow2(0) && Pow2(2) == 2 * Pow2(1) && Pow2(3) == 2 * Pow2(2);
    Pow2Values();
    assert Pow2(16) == 2 * Pow2(15);
  }

  // ---------------------------------------------------------------- writing

  method PutFlag(w: BitWriter, f: bool)
    requires w.Valid()
    modifies w
    ensures w.Valid() && w.Stream() == old(w.Stream()) + Bits(Bit(f), 1)
  {
    if f { w.Put(1, 1); } else { w.Put(1, 0); }
  }

  method PutFlags(w: BitWriter, f: seq<bool>, lo: nat, hi: nat)
    requires w.Valid() && lo <= hi <= |f|
    modifies w
    ensures w.Valid() && w.Stream() == old(w.Stream()) + Flags(f, lo, hi)
  {
    ghost var all := w.Stream() + Flags(f, lo, hi);
    for i := lo to hi
      invariant w.Valid() && w.Stream() + Flags(f, i, hi) == all
    {
      ghost var before := w.Stream();
      PutFlag(w, f[i]);
      Regroup(before, Bits(Bit(f[i]), 1), Flags(f, i + 1, hi));
    }
    Nothing(w.Stream());
  }

  method SummariseRows(inUse: seq<bool>) returns (inUse16: seq<bool>)
    requires |inUse| == 256
    ensures inUse16 == RowsUsed(inUse)
  {
    inUse16 := [];
    for i := 0 to 16
      invariant |inUse16| == i && forall k :: 0 <= k < i ==> inUse16[k] == RowUsed(inUse, k)
    {
      var used := false;
      for j := 0 to 16
        invariant used <==> exists k :: 16 * i <= k < 16 * i + j && inUse[k]
      {
        if inUse[i * 16 + j] { used := true; }
      }
      inUse16 := inUse16 + [used];
    }
  }

  method PutRows(w: BitWriter, inUse: seq<bool>, inUse16: seq<bool>)
    requires w.Valid() && |inUse| == 256 && inUse16 == RowsUsed(inUse)
    modifies w
    ensures w.Valid() && w.Stream() == old(w.Stream()) + RowBits(inUse, 0)
  {
    ghost var all := w.Stream() + RowBits(inUse, 0);
    for i := 0 to 16
      invariant w.Valid() && w.Stream() + RowBits(inUse, i) == all
    {
      Regroup(w.Stream(), RowPart(inUse, i), RowBits(inUse, i + 1));
      PutRow(w, inUse, inUse16[i], i);
    }
    Nothing(w.Stream());
  }

  method PutRow(w: BitWriter, inUse: seq<bool>, used: bool, i: nat)
    requires w.Valid() && |inUse| == 256 && i < 16 && used == RowUsed(inUse, i)
    modifies w
    ensures w.Valid() && w.Stream() == old(w.Stream()) + RowPart(inUse, i)
  {
    if used {
      PutFlags(w, inUse, 16 * i, 16 * i + 16);
    } else {
      Nothing(w.Stream());
    }
  }

  /** Transmits the mapping table. */
  method PutMap(w: BitWriter, inUse: seq<bool>)
    requires w.Valid() && |inUse| == 256
    modifies w
    ensures w.Valid() && w.Stream() == old(w.Stream()) + MapBits(inUse)
  {
    var inUse16 := SummariseRows(inUse);
    ghost var before := w.Stream();
    PutFlags(w, inUse16, 0, 16);
    PutRows(w, inUse, inUse16);
    Regroup(before, Flags(RowsUsed(inUse), 0, 16), RowBits(inUse, 0));
  }

  method PutUnary(w: BitWriter, j: nat)
    requires w.Valid()
    modifies w
    ensures w.Valid() && w.Stream() == old(w.Stream()) + Unary(j)
  {
    ghost var all := w.Stream() + Unary(j);
    for k := 0 to j
      invariant w.Valid() && w.Stream() + Unary(j - k) == all
    {
      ghost var before := w.Stream();
      PutFlag(w, true);
      Regroup(before, Bits(1, 1), Unary(j - k - 1));
    }
    PutFlag(w, false);
  }

  method PutSelectors(w: BitWriter, selectorMtf: seq<int>)
    requires w.Valid() && forall k :: 0 <= k < |selectorMtf| ==> selectorMtf[k] >= 0
    modifies w
    ensures w.Valid() && w.Stream() == old(w.Stream()) + SelectorBits(selectorMtf, 0)
  {
    ghost var all := w.Stream() + SelectorBits(selectorMtf, 0);
    for i := 0 to |selectorMtf|
      invariant w.Valid() && w.Stream() + SelectorBits(selectorMtf, i) == all
    {
      ghost var before := w.Stream();
      PutUnary(w, selectorMtf[i]);
      Regroup(before, Unary(selectorMtf[i]), SelectorBits(selectorMtf, i + 1));
    }
    Nothing(w.Stream());
  }

  lemma TwoBits()
    ensures 2 < Pow2(2) && 3 < Pow2(2) && 0 < Pow2(1) && 1 < Pow2(1)
  {
    assert Pow2(1) == 2 * Pow2(0) && Pow2(2) == 2 * Pow2(1);
  }

  method PutDelta(w: BitWriter, curr0: int, want: int)
    requires w.Valid()
    modifies w
    ensures w.Valid() && w.Stream() == old(w.Stream()) + Delta(curr0, want)
  {
    TwoBits();
    var curr := curr0;
    ghost var all := w.Stream() + Delta(curr0, want);
    while curr < want
      invariant w.Valid() && w.Stream() + Delta(curr, want) == all && (curr0 <= want ==> curr <= want)
          && (curr0 > want ==> curr == curr0)
    {
      ghost var before := w.Stream();
      w.Put(2, 2);
      Regroup(before, Bits(2, 2), Delta(curr + 1, want));
      curr := curr + 1;
    }
    while curr > want
      invariant w.Valid() && w.Stream() + Delta(curr, want) == all && curr >= want
    {
      ghost var before := w.Stream();
      w.Put(2, 3);
      Regroup(before, Bits(3, 2), Delta(curr - 1, want));
      curr := curr - 1;
    }
    w.Put(1, 0);
  }

  /** Transmits one coding table. */
  method PutTable(w: BitWriter, lens: seq<int>)
    requires w.Valid() && |lens| > 0 && Lengths(lens, 0, 20)
    modifies w
    ensures w.Valid() && w.Stream() == old(w.Stream()) + TableBits(lens)
  {
    Pow2Values();
    assert Pow2(5) == 2 * Pow2(4);
    ghost var all := w.Stream() + TableBits(lens);
    var curr := lens[0];
    Regroup(w.Stream(), Bits(curr, 5), DeltaBits(curr, lens, 0));
    w.Put(5, curr);
    for i := 0 to |lens|
      invariant w.Valid() && w.Stream() + DeltaBits(curr, lens, i) == all
    {
      ghost var before := w.Stream();
      PutDelta(w, curr, lens[i]);
      Regroup(before, Delta(curr, lens[i]), DeltaBits(lens[i], lens, i + 1));
      curr := lens[i];
    }
    Nothing(w.Stream());
  }

  ghost predicate Sendable(tables: seq<seq<int>>) {
    forall t :: 0 <= t < |tables| ==> |tables[t]| > 0 && Lengths(tables[t], 0, 20)
  }

  method PutTables(w: BitWriter, tables: seq<seq<int>>)
    requires w.Valid() && Sendable(tables)
    modifies w
    ensures w.Valid() && w.Stream() == old(w.Stream()) + TablesBits(tables, 0)
  {
    ghost var all := w.Stream() + TablesBits(tables, 0);
    for t := 0 to |tables|
      invariant w.Valid() && w.Stream() + TablesBits(tables, t) == all
    {
      ghost var before := w.Stream();
      PutTable(w, tables[t]);
      Regroup(before, TableBits(tables[t]), TablesBits(tables, t + 1));
    }
    Nothing(w.Stream());
  }

  /** codes holds the canonical codes of the tables. */
  ghost predicate Codes(tables: seq<seq<int>>, codes: seq<seq<int>>) {
    && |codes| == |tables|
    && (forall t {:trigger Canonical(tables[t], codes[t])} :: 0 <= t < |tables| ==> Canonical(tables[t], codes[t]))
  }

  ghost predicate Canonical(lens: seq<int>, code: seq<int>) {
    && |code| == |lens| && Lengths(lens, 0, 20) && Fits(lens, 20)
    && forall i :: 0 <= i < |lens| ==> code[i] == Code(lens, i)
  }

  /** Writes the block data, group by group. */
  method PutSymbols(w: BitWriter, tables: seq<seq<int>>, codes: seq<seq<int>>, selectors: seq<int>, syms: seq<int>)
    requires w.Valid() && Selected(tables, selectors, syms) && Codes(tables, codes)
    modifies w
    ensures w.Valid() && w.Stream() == old(w.Stream()) + SymbolBits(tables, selectors, syms, 0)
  {
    ghost var all := w.Stream() + SymbolBits(tables, selectors, syms, 0);
    var selCtr, gs := 0, 0;
    while gs < |syms|
      invariant 0 <= gs <= |syms| && w.Valid() && w.Stream() + SymbolBits(tables, selectors, syms, gs) == all
      invariant gs == 50 * selCtr || gs == |syms|
      decreases |syms| - gs
    {
      var ge := gs + 50 - 1;
      if ge >= |syms| { ge := |syms| - 1; }
      PutGroup(w, tables, codes, selectors, syms, selCtr, gs, ge);
      gs := ge + 1;
      selCtr := selCtr + 1;
    }
    Nothing(w.Stream());
  }

  method PutGroup(w: BitWriter, tables: seq<seq<int>>, codes: seq<seq<int>>, selectors: seq<int>, syms: seq<int>,
      selCtr: nat, gs: nat, ge: nat)
    requires w.Valid() && Selected(tables, selectors, syms) && Codes(tables, codes) && gs == 50 * selCtr <= ge < |syms|
        && ge < gs + 50
    modifies w
    ensures w.Valid() && w.Stream() + SymbolBits(tables, selectors, syms, ge + 1) == old(w.Stream())
        + SymbolBits(tables, selectors, syms, gs)
  {
    ghost var all := w.Stream() + SymbolBits(tables, selectors, syms, gs);
    for i := gs to ge + 1
      invariant w.Valid() && w.Stream() + SymbolBits(tables, selectors, syms, i) == all
    {
      assert i / 50 == selCtr;
      Regroup(w.Stream(), SymbolCode(tables, selectors, syms, i), SymbolBits(tables, selectors, syms, i + 1));
      assert SymbolOk(tables, syms, i) && Canonical(tables[selectors[selCtr]], codes[selectors[selCtr]]);
      PutSymbol(w, tables[selectors[selCtr]], codes[selectors[selCtr]], syms[i]);
    }
  }

  method PutSymbol(w: BitWriter, lens: seq<int>, code: seq<int>, s: nat)
    requires w.Valid() && s < |lens| && Canonical(lens, code)
    modifies w
    ensures w.Valid() && w.Stream() == old(w.Stream()) + CodeBits(lens, s)
  {
    CodeRange(lens, 20, s);
    w.Put(lens[s], code[s]);
  }
}
