/** How long a written block can be (compress.c): the output of one block fits into the memory behind the block. */
module BlockSize {
  import opened Common
  import opened BitStream
  import opened CanonicalCode
  import opened MtfCoding
  import opened MtfEncode
  import opened BlockFormat
  import opened BlockReceive
  import opened BlockCodec

  lemma {:induction false} FlagsLength(f: seq<bool>, lo: nat, hi: nat)
    requires lo <= hi <= |f|
    ensures |Flags(f, lo, hi)| == hi - lo
    decreases hi - lo
  {
    if lo < hi {
      FlagsLength(f, lo + 1, hi);
    }
  }

  lemma {:induction false} RowsLength(inUse: seq<bool>, i: nat)
    requires |inUse| == 256 && i <= 16
    ensures |RowBits(inUse, i)| <= 256 - 16 * i
    decreases 16 - i
  {
    if i < 16 {
      RowsLength(inUse, i + 1);
      FlagsLength(inUse, 16 * i, 16 * i + 16);
    }
  }

  lemma {:induction false} MapLength(inUse: seq<bool>)
    requires |inUse| == 256
    ensures |MapBits(inUse)| <= 272
  {
    FlagsLength(RowsUsed(inUse), 0, 16);
    RowsLength(inUse, 0);
  }

  lemma {:induction false} UnaryLength(j: nat)
    ensures |Unary(j)| == j + 1
  {
    if j > 0 {
      UnaryLength(j - 1);
    }
  }

  lemma {:induction false} SelectorsLength(n: nat, m: seq<int>, i: nat)
    requires n <= 6 && Symbols(n, m) && i <= |m|
    ensures |SelectorBits(m, i)| <= 6 * (|m| - i)
    decreases |m| - i
  {
    if i < |m| {
      SelectorsLength(n, m, i + 1);
      UnaryLength(m[i]);
    }
  }

  lemma {:induction false} DeltaLength(curr: int, want: int)
    ensures |Delta(curr, want)| == 1 + 2 * (if curr < want then want - curr else curr - want)
    decreases if curr < want then want - curr else curr - want
  {
    if curr < want {
      DeltaLength(curr + 1, want);
    } else if curr > want {
      DeltaLength(curr - 1, want);
    }
  }

  lemma {:induction false} DeltasLength(curr: int, lens: seq<int>, i: nat)
    requires 1 <= curr <= 20 && Lengths(lens, 1, 20) && i <= |lens|
    ensures |DeltaBits(curr, lens, i)| <= 39 * (|lens| - i)
    decreases |lens| - i
  {
    if i < |lens| {
      DeltasLength(lens[i], lens, i + 1);
      DeltaLength(curr, lens[i]);
    }
  }

  lemma {:induction false} TablesLength(tables: seq<seq<int>>, alphaSize: nat, t: nat)
    requires alphaSize <= 258 && t <= |tables| && AllLengths(tables, alphaSize)
    ensures |TablesBits(tables, t)| <= 10067 * (|tables| - t)
    decreases |tables| - t
  {
    if t < |tables| {
      TablesLength(tables, alphaSize, t + 1);
      if alphaSize > 0 { DeltasLength(tables[t][0], tables[t], 0); }
    }
  }

  lemma {:induction false} SymbolLength(tables: seq<seq<int>>, alphaSize: nat, selectors: seq<int>, syms: seq<int>,
      i: nat)
    requires Selected(tables, selectors, syms) && i < |syms| && AllLengths(tables, alphaSize)
    ensures |SymbolCode(tables, selectors, syms, i)| <= 20
  {
    assert SymbolOk(tables, syms, i);
  }

  lemma {:induction false} SymbolsLength(tables: seq<seq<int>>, alphaSize: nat, selectors: seq<int>, syms: seq<int>,
      i: nat)
    requires Selected(tables, selectors, syms) && i <= |syms| && AllLengths(tables, alphaSize)
    ensures |SymbolBits(tables, selectors, syms, i)| <= 20 * (|syms| - i)
    decreases |syms| - i
  {
    if i < |syms| {
      SymbolsLength(tables, alphaSize, selectors, syms, i + 1);
      SymbolLength(tables, alphaSize, selectors, syms, i);
    }
  }

  lemma {:induction false} HeadLength(inUse: seq<bool>, n: nat, m: seq<int>)
    requires |inUse| == 256 && n <= 6 && Symbols(n, m) && |m| <= MAX_SELECTORS
    ensures |HeadBits(inUse, n, m)| <= 108302
  {
    MapLength(inUse);
    SelectorsLength(n, m, 0);
  }

  lemma {:induction false} DataLength(tables: seq<seq<int>>, alphaSize: nat, selectors: seq<int>, syms: seq<int>)
    requires |tables| <= 6 && alphaSize <= 258 && AllLengths(tables, alphaSize) && Selected(tables, selectors, syms)
    ensures |TablesBits(tables, 0)| + |SymbolBits(tables, selectors, syms, 0)| <= 60402 + 20 * |syms|
  {
    TablesLength(tables, alphaSize, 0);
    SymbolsLength(tables, alphaSize, selectors, syms, 0);
  }

  /** Map, numbers, selectors, tables and symbols at their longest. */
  lemma {:induction false} BodyLength(im: Image)
    requires WellFormed(im)
    ensures |BodyBits(im)| <= 168704 + 20 * |im.syms|
  {
    UsedAtMost(im.inUse, 256);
    RanksAreSymbols(|im.tables|, im.selectors);
    HeadLength(im.inUse, |im.tables|, Ranks(|im.tables|, im.selectors));
    BodyTables(im);
    DataLength(im.tables, UsedBelow(im.inUse, 256) + 2, im.selectors, im.syms);
  }

  lemma {:induction false} UsedAtMost(inUse: seq<bool>, n: nat)
    requires n <= |inUse|
    ensures UsedBelow(inUse, n) <= n
  {
    if n > 0 {
      UsedAtMost(inUse, n - 1);
    }
  }

  lemma {:induction false} ImageLength(im: Image, b: seq<byte>)
    requires WellFormed(im) && Carries(im, b)
    ensures |ImageBits(im)| <= 168829 + 20 * |b|
  {
    var f :| ImageOf(im, b, f);
    BodyLength(im);
    assert |ByteBits(MAGIC)| == 48 && |ByteBits(Word(im.crc))| == 32;
  }

  /** What the output of one block may take up: arr2 has four bytes for every byte of the largest block and 34 more, and
      the output is put behind the block. */
  function OutputRoom(blockSize100k: int, nblock: nat): (r: int) {
    4 * (100000 * blockSize100k + 34) - nblock
  }

  /** 32 bits left over from the block before, header, block, trailer and padding leave room to spare. */
  lemma {:induction false} OutputFits(bits: nat, blockSize100k: int, nblock: nat)
    requires 1 <= blockSize100k && nblock <= 100000 * blockSize100k && bits <= 32 + 32 + (168829 + 20 * nblock) + 87
    ensures bits <= 8 * OutputRoom(blockSize100k, nblock)
  {
  }
}
