/** One whole block: BZ2_compressBlock (compress.c) against the block part of BZ2_decompress (decompress.c). */
module BlockCodec {
  import opened Common
  import opened Rotations
  import opened Bwt
  import opened InverseBwt
  import opened RunLength
  import opened UnRunLength
  import opened BitStream
  import opened CanonicalCode
  import opened MtfCoding
  import opened MtfEncode
  import opened MtfDecode
  import opened TwoLevelMtf
  import opened BlockFormat
  import opened BlockReceive
  import BlockSend
  import FallbackSort
  import MainSort

  // ---------------------------------------------------------------- what the image of a block is

  /** im carries block b, its rotations sorted by f. */
  ghost predicate ImageOf(im: Image, b: seq<byte>, f: seq<int>) {
    && 0 < |b| && SortsRotations(b, f) && im.origPtr < |b| && f[im.origPtr] == 0
    && Covers(im.inUse, b)
    && im.syms == CodeAll(Ranks(UsedBelow(im.inUse, 256), Column(im.inUse, b, f)), UsedBelow(im.inUse, 256) + 1)
  }

  /** im is the image of b under some sorting of its rotations. */
  ghost predicate Carries(im: Image, b: seq<byte>) {
    exists f :: ImageOf(im, b, f)
  }

  // ---------------------------------------------------------------- compressing

  /** The row of rotation 0 (BZ2_blockSort). */
  method FindOrigPtr(ptr: array<int>) returns (origPtr: int)
    requires ptr.Length > 0 && IsPerm(ptr[..])
    ensures 0 <= origPtr < ptr.Length && ptr[origPtr] == 0
  {
    ghost var at := PermSurjective(ptr[..], 0);
    origPtr := -1;
    for i := 0 to ptr.Length
      invariant origPtr == -1 && i <= at
    {
      if ptr[i] == 0 { origPtr := i; break; }
    }
  }

  /** The fallback sort, on copies of the block. */
  method SortByDoubling(block: seq<byte>, ptr: array<int>)
    requires 0 < |block| == ptr.Length < 0x4000_0000
    modifies ptr
    ensures SortsRotations(block, ptr[..])
  {
    var n := |block|;
    var eclass := new int[n];
    var eclass8 := new byte[n](i requires 0 <= i < n => block[i]);
    var bhtab := new bool[32 * (n / 32 + 3)];
    assert eclass8[..] == block;
    FallbackSort.Sort(ptr, eclass, eclass8, bhtab);
  }

  /** Sorts a block (BZ2_blockSort): small blocks, and those on which the main sort gives up, by the fallback sort. */
  method SortBlock(block: seq<byte>, workFactor: int) returns (ptr: array<int>)
    requires 0 < |block| <= 900000
    ensures fresh(ptr) && ptr.Length == |block| && SortsRotations(block, ptr[..])
  {
    var n := |block|;
    ptr := new int[n];
    if n < 10000 {
      SortByDoubling(block, ptr);
    } else {
      var wfact := if workFactor < 1 then 1 else if workFactor > 100 then 100 else workFactor;
      var ftab, quadrant := new int[65537], new int[n + 34];
      BudgetFits(n, (wfact - 1) / 3);
      var budget := MainSort.Sort(ptr, block, ftab, quadrant, n * ((wfact - 1) / 3));
      if budget < 0 { SortByDoubling(block, ptr); }
    }
  }

  lemma BudgetFits(n: nat, k: nat)
    ensures n * k >= 0
  {
  }

  lemma {:induction false} EncodedSymbols(b: seq<byte>, f: seq<int>, inUse: seq<bool>)
    requires 0 < |b| && SortsRotations(b, f) && Covers(inUse, b)
    ensures 0 < UsedBelow(inUse, 256) <= 256
    ensures Stream(CodeAll(Ranks(UsedBelow(inUse, 256), Column(inUse, b, f)), UsedBelow(inUse, 256) + 1),
        UsedBelow(inUse, 256) + 1)
  {
    var n, s := UsedBelow(inUse, 256), Column(inUse, b, f);
    ColumnSymbols(inUse, b, f);
    assert 0 <= s[0] < n;
    RanksAreSymbols(n, s);
    CodedIsStream(n, Ranks(n, s));
  }

  /** Sorts the block and turns it into its symbol stream. */
  method Transform(block: seq<byte>, inUse: seq<bool>, workFactor: int)
      returns (origPtr: int, syms: seq<int>, nInUse: int, ghost f: seq<int>)
    requires 0 < |block| <= 900000 && Covers(inUse, block)
    ensures SortsRotations(block, f) && 0 <= origPtr < |block| && f[origPtr] == 0
    ensures nInUse == UsedBelow(inUse, 256) && syms == CodeAll(Ranks(nInUse, Column(inUse, block, f)), nInUse + 1)
  {
    var ptr := SortBlock(block, workFactor);
    f := ptr[..];
    origPtr := FindOrigPtr(ptr);
    var mtfv := new int[|block| + 1];
    var buf;
    buf, nInUse := Generate(ptr, mtfv, block, inUse);
    syms := mtfv[..buf.wr];
  }

  method PutBytes(w: BitWriter, s: seq<byte>)
    requires w.Valid()
    modifies w
    ensures w.Valid() && w.Stream() == old(w.Stream()) + ByteBits(s)
  {
    Nothing(w.Stream());
    assert s[..0] == [];
    for i := 0 to |s|
      invariant w.Valid() && w.Stream() == old(w.Stream()) + ByteBits(s[..i])
    {
      Pow2Values();
      Regroup(old(w.Stream()), ByteBits(s[..i]), Bits(s[i], 8));
      ByteBitsAppend(s[..i], s[i]);
      assert s[..i + 1] == s[..i] + [s[i]];
      w.Put(8, s[i]);
    }
    assert s[..|s|] == s;
  }

  method PutBlockHeader(w: BitWriter, crc: nat, origPtr: nat)
    requires w.Valid() && crc < 0x1_0000_0000 && origPtr < 0x100_0000
    modifies w
    ensures w.Valid() && w.Stream() == old(w.Stream()) + HeaderBits(crc, origPtr)
  {
    Pow2Values();
    ghost var s := w.Stream();
    PutBytes(w, MAGIC);
    Regroup(s, ByteBits(MAGIC), ByteBits(Word(crc)));
    PutBytes(w, Word(crc));
    Regroup(s, ByteBits(MAGIC) + ByteBits(Word(crc)), Bits(0, 1));
    w.Put(1, 0);
    Regroup(s, ByteBits(MAGIC) + ByteBits(Word(crc)) + Bits(0, 1), Bits(origPtr, 24));
    w.Put(24, origPtr);
  }

  /** Writes one block that is not empty. */
  method CompressBlock(w: BitWriter, block: seq<byte>, inUse: seq<bool>, crc: nat, workFactor: int)
      returns (ghost im: Image)
    requires w.Valid() && 0 < |block| <= 900000 && Covers(inUse, block) && crc < 0x1_0000_0000
    modifies w
    ensures WellFormed(im) && Carries(im, block) && im.crc == crc
    ensures w.Valid() && w.Stream() == old(w.Stream()) + ImageBits(im)
  {
    ghost var s := w.Stream();
    var origPtr, syms, nInUse, f := Transform(block, inUse, workFactor);
    EncodedSymbols(block, f, inUse);
    PutBlockHeader(w, crc, origPtr);
    im := BlockSend.SendMTFValues(w, inUse, nInUse, syms, crc, origPtr);
    assert ImageOf(im, block, f);
    Regroup(s, HeaderBits(crc, origPtr), BodyBits(im));
  }

  // ---------------------------------------------------------------- decompressing

  lemma {:induction false} MappedColumn(inUse: seq<bool>, b: seq<byte>, f: seq<int>, table: seq<byte>)
    requires Covers(inUse, b) && |f| == |b| && IsPerm(f) && |table| == 256
    requires forall v :: 0 <= v < 256 && inUse[v] ==> UsedBelow(inUse, v) < 256 && table[UsedBelow(inUse, v)] == v
    ensures Symbols(256, Column(inUse, b, f)) && Mapped(table, Column(inUse, b, f)) == LastColumn(b, f)
  {
    var s, l := Column(inUse, b, f), LastColumn(b, f);
    forall k | 0 <= k < |b|
      ensures 0 <= s[k] < 256 && table[s[k]] == l[k]
    {
      assert inUse[l[k]];
    }
  }

  lemma {:induction false} DecodedRanks(n: nat, s: seq<int>, syms: seq<int>)
    requires Symbols(n, s) && n <= 256 && |s| <= 900000 && syms == CodeAll(Ranks(n, s), n + 1)
    ensures |syms| > 0 && DecodeAll(syms) == Ranks(n, s) && ShortRuns(syms, |syms| - 1)
    ensures Symbols(256, Ranks(n, s)) && Unranks(256, Ranks(n, s)) == s
  {
    RanksAreSymbols(n, s);
    DecodeInvertsCode(Ranks(n, s), n + 1);
    CodedStreamShort(Ranks(n, s), n + 1);
    UnrankInverts(n, 256, s);
  }

  /** Decoding the symbols of an image gives the last column of the sorted block. */
  lemma {:induction false} DecodedColumn(im: Image, b: seq<byte>, f: seq<int>, table: seq<byte>)
    requires ImageOf(im, b, f) && |b| <= 900000 && |table| == 256
    requires forall v :: 0 <= v < 256 && im.inUse[v] ==> UsedBelow(im.inUse, v) < 256 && table[UsedBelow(im.inUse, v)] == v
    ensures |im.syms| > 0 && ShortRuns(im.syms, |im.syms| - 1) && Symbols(256, DecodeAll(im.syms))
    ensures Chars(table, DecodeAll(im.syms)) == LastColumn(b, f)
  {
    ColumnDecoded(im.inUse, b, f, im.syms, table);
  }

  lemma {:induction false} ColumnDecoded(inUse: seq<bool>, b: seq<byte>, f: seq<int>, syms: seq<int>, table: seq<byte>)
    requires Covers(inUse, b) && |f| == |b| <= 900000 && IsPerm(f) && |table| == 256
    requires syms == CodeAll(Ranks(UsedBelow(inUse, 256), Column(inUse, b, f)), UsedBelow(inUse, 256) + 1)
    requires forall v :: 0 <= v < 256 && inUse[v] ==> UsedBelow(inUse, v) < 256 && table[UsedBelow(inUse, v)] == v
    ensures |syms| > 0 && ShortRuns(syms, |syms| - 1) && Symbols(256, DecodeAll(syms))
    ensures Chars(table, DecodeAll(syms)) == LastColumn(b, f)
  {
    ColumnSymbols(inUse, b, f);
    MappedColumn(inUse, b, f, table);
    DecodedChars(UsedBelow(inUse, 256), Column(inUse, b, f), syms, table);
  }

  lemma {:induction false} DecodedChars(n: nat, s: seq<int>, syms: seq<int>, table: seq<byte>)
    requires Symbols(n, s) && n <= 256 && |s| <= 900000 && syms == CodeAll(Ranks(n, s), n + 1) && |table| == 256
    ensures |syms| > 0 && ShortRuns(syms, |syms| - 1) && Symbols(256, DecodeAll(syms)) && Symbols(256, s)
    ensures Chars(table, DecodeAll(syms)) == Mapped(table, s)
  {
    DecodedRanks(n, s, syms);
  }

  lemma {:induction false} NextByte(s: seq<byte>, i: nat, rest: seq<int>)
    requires i < |s|
    ensures ByteBits(s[i..]) + rest == Bits(s[i], 8) + (ByteBits(s[i + 1..]) + rest)
  {
    FirstByteBits(s[i..]);
    assert s[i..][1..] == s[i + 1..];
    Regroup(Bits(s[i], 8), ByteBits(s[i + 1..]), rest);
  }

  method TakeByte(input: Input, ghost expected: bool, ghost want: byte, ghost rest: seq<int>) returns (r: Option<byte>)
    requires expected ==> input.Rest() == Bits(want, 8) + rest
    modifies input, input.reader
    ensures expected ==> r == Some(want) && input.Rest() == rest
    ensures if r.Some? then old(input.Rest()) == Bits(r.value, 8) + input.Rest() else |input.Rest()| < 24
  {
    Pow2Values();
    var c := Take(input, 8, expected, want, rest);
    r := if c.None? then None else Some(c.value);
  }

  ghost function Tail(s: seq<byte>, i: nat, rest: seq<int>): (r: seq<int>)
    decreases |s| - i
  {
    if i >= |s| then rest else Bits(s[i], 8) + Tail(s, i + 1, rest)
  }

  lemma {:induction false} TailBytes(s: seq<byte>, i: nat, rest: seq<int>)
    requires i <= |s|
    ensures Tail(s, i, rest) == ByteBits(s[i..]) + rest
    decreases |s| - i
  {
    if i < |s| {
      TailBytes(s, i + 1, rest);
      NextByte(s, i, rest);
    }
  }

  /** The bytes got have been read from the front of all. */
  ghost predicate BytesRead(got: seq<byte>, all: seq<int>, now: seq<int>) {
    forall k {:trigger Unfold(k)} :: Unfold(k) ==> all == ByteBits(got) + now
  }

  lemma NoBytesRead(all: seq<int>)
    ensures BytesRead([], all, all)
  {
    assert ByteBits([]) == [];
  }

  lemma {:induction false} OneByteRead(got: seq<byte>, c: byte, all: seq<int>, before: seq<int>, now: seq<int>)
    requires BytesRead(got, all, before) && before == Bits(c, 8) + now
    ensures BytesRead(got + [c], all, now)
  {
    assert Unfold(0);
    ByteBitsAppend(got, c);
    Regroup(ByteBits(got), Bits(c, 8), now);
  }

  lemma BytesAre(got: seq<byte>, all: seq<int>, now: seq<int>)
    requires BytesRead(got, all, now)
    ensures all == ByteBits(got) + now
  {
    assert Unfold(0);
  }

  /** Reads n bytes. */
  method TakeBytes(input: Input, n: nat, ghost expected: bool, ghost want: seq<byte>, ghost rest: seq<int>)
      returns (r: Option<seq<byte>>)
    requires expected ==> |want| == n && input.Rest() == ByteBits(want) + rest
    modifies input, input.reader
    ensures expected ==> r == Some(want) && input.Rest() == rest
    ensures r.Some? ==> |r.value| == n
    ensures if r.Some? then BytesRead(r.value, old(input.Rest()), input.Rest()) else |input.Rest()| < 24
  {
    var got: seq<byte> := [];
    ghost var all := input.Rest();
    NoBytesRead(all);
    assert want[0..] == want;
    TailBytes(want, 0, rest);
    for i := 0 to n
      invariant |got| == i && (expected ==> got == want[..i] && input.Rest() == Tail(want, i, rest))
      invariant BytesRead(got, all, input.Rest())
    {
      ghost var before := input.Rest();
      var c := TakeByte(input, expected, if expected then want[i] else 0, if expected then Tail(want, i + 1, rest)
          else []);
      if c.None? { return None; }
      OneByteRead(got, c.value, all, before, input.Rest());
      got := got + [c.value];
    }
    assert expected ==> got == want;
    r := Some(got);
  }

  // ---------------------------------------------------------------- the block header

  lemma {:induction false} WordValue(x: nat)
    requires x < 0x1_0000_0000
    ensures Number(Word(x)) == x
  {
    var w := Word(x);
    assert w[..3] == [w[0], w[1], w[2]] && w[..3][..2] == [w[0], w[1]] && w[..3][..2][..1] == [w[0]]
        && w[..3][..2][..1][..0] == [];
    assert Number([w[0]]) == w[0];
    assert Number([w[0], w[1]]) == 256 * Number([w[0]]) + w[1];
    assert Number([w[0], w[1], w[2]]) == 256 * Number([w[0], w[1]]) + w[2];
  }

  /** The number that bytes make up, most significant first. */
  function Number(s: seq<byte>): (r: nat) {
    if s == [] then 0 else 256 * Number(s[..|s| - 1]) + s[|s| - 1]
  }

  /** Three bytes as 24 bits. */
  function Triple(x: nat): (r: seq<byte>)
    requires x < 0x100_0000
  {
    [x / 0x1_0000, x / 256 % 256, x % 256]
  }

  lemma {:induction false} TripleValue(x: nat)
    requires x < 0x100_0000
    ensures Number(Triple(x)) == x
  {
    var w := Triple(x);
    assert w[..2] == [w[0], w[1]] && w[..2][..1] == [w[0]] && w[..2][..1][..0] == [];
    assert Number([w[0]]) == w[0];
    assert Number([w[0], w[1]]) == 256 * Number([w[0]]) + w[1];
  }

  lemma {:induction false} LastByteBits(x: nat, n: nat)
    ensures Bits(x, n + 8) == Bits(x / 256, n) + Bits(x % 256, 8)
  {
    Pow2Values();
    ShlPow(x / 256, 8);
    BitsConcat(x / 256, x % 256, n, 8);
  }

  lemma {:induction false} ThreeBytes(a: byte, b: byte, c: byte)
    ensures ByteBits([a, b, c]) == Bits(a, 8) + Bits(b, 8) + Bits(c, 8)
  {
    ByteBitsAppend([a, b], c);
    ByteBitsAppend([a], b);
    ByteBitsAppend([], a);
    assert [] + [a] == [a] && [a] + [b] == [a, b] && [a, b] + [c] == [a, b, c];
    assert ByteBits([]) == [];
    Nothing(Bits(a, 8));
  }

  lemma {:induction false} TripleBits(x: nat)
    requires x < 0x100_0000
    ensures Bits(x, 24) == ByteBits(Triple(x))
  {
    ThreeBytes(x / 0x1_0000, x / 256 % 256, x % 256);
    LastByteBits(x, 16);
    LastByteBits(x / 256, 8);
    assert x / 256 / 256 == x / 0x1_0000;
  }

  lemma {:induction false} HeaderParts(crc: nat, origPtr: nat, rest: seq<int>)
    requires crc < 0x1_0000_0000 && origPtr < 0x100_0000
    ensures HeaderBits(crc, origPtr) + rest
         == ByteBits(MAGIC) + (ByteBits(Word(crc)) + (Bits(0, 1) + (ByteBits(Triple(origPtr)) + rest)))
  {
    TripleBits(origPtr);
    var a, b, c, d := ByteBits(MAGIC), ByteBits(Word(crc)), Bits(0, 1), Bits(origPtr, 24);
    Regroup(a + b + c, d, rest);
    Regroup(a + b, c, d + rest);
    Regroup(a, b, c + (d + rest));
  }

  datatype Header = Header(crc: nat, randomised: bool, origPtr: nat)

  lemma FourDigits(a: byte, b: byte, c: byte, d: byte)
    ensures var x := 256 * (256 * (256 * a + b) + c) + d;
            0 <= x < 0x1_0000_0000 && x / 0x100_0000 == a && x / 0x1_0000 % 256 == b && x / 256 % 256 == c && x % 256 == d
  {
    var x := 256 * (256 * (256 * a + b) + c) + d;
    assert x / 256 == 256 * (256 * a + b) + c;
    assert x / 0x1_0000 == 256 * a + b;
  }

  /** Four bytes are what their number is written as. */
  lemma {:induction false} WordBack(w: seq<byte>)
    requires |w| == 4
    ensures Number(w) < 0x1_0000_0000 && Word(Number(w)) == w
  {
    assert w[..3] == [w[0], w[1], w[2]] && w[..3][..2] == [w[0], w[1]] && w[..3][..2][..1] == [w[0]]
        && w[..3][..2][..1][..0] == [];
    var a: int, b: int, c: int := w[0], w[1], w[2];
    FourDigits(w[0], w[1], w[2], w[3]);
    assert Number(w[..3][..2][..1]) == a;
    assert Number(w[..3][..2]) == 256 * a + b;
    assert Number(w[..3]) == 256 * (256 * a + b) + c;
  }

  /** The fields of a block behind its mark: the checksum, the bit that says whether it is randomised, and more. */
  ghost predicate FieldsRead(crc: nat, randomised: bool, body: seq<int>, all: seq<int>, now: seq<int>) {
    crc < 0x1_0000_0000 && forall k {:trigger Unfold(k)} :: Unfold(k) ==>
      all == ByteBits(Word(crc)) + (Bits(Bit(randomised), 1) + (body + now))
  }

  lemma {:induction false} FieldsAre(w: seq<byte>, flag: bool, all: seq<int>, a: seq<int>, b: seq<int>, now: seq<int>)
      returns (body: seq<int>)
    requires |w| == 4 && BytesRead(w, all, a) && a != [] && b == a[1..] && a[0] == Bit(flag) && Later(b, now)
    ensures FieldsRead(Number(w), flag, body, all, now)
  {
    WordBack(w);
    BytesAre(w, all, a);
    assert Open(0);
    body := b[..|b| - |now|];
    assert b == body + now;
    assert Bits(Bit(flag), 1) == Bits(0, 0) + [Bit(flag)] == [Bit(flag)];
    assert a == [a[0]] + b;
  }

  lemma {:induction false} BytesLater(w: seq<byte>, all: seq<int>, now: seq<int>)
    requires BytesRead(w, all, now)
    ensures Later(all, now)
  {
    BytesAre(w, all, now);
    LaterBits(ByteBits(w), now);
  }

  /** Reads the checksum, the randomised bit and the row of rotation 0, which must lie near the block. */
  method TakeFields(input: Input, limit: nat, ghost expected: bool, ghost crc: nat, ghost origPtr: nat,
      ghost rest: seq<int>) returns (r: Outcome<Header>, ghost body: seq<int>)
    requires expected ==> crc < 0x1_0000_0000 && origPtr < 0x100_0000 && origPtr <= 10 + limit
    requires expected ==> input.Rest() == ByteBits(Word(crc)) + (Bits(0, 1) + (ByteBits(Triple(origPtr)) + rest))
    modifies input, input.reader
    ensures !r.Overrun?
    ensures expected ==> r == Done(Header(crc, false, origPtr)) && input.Rest() == rest
    ensures r.Done? ==> FieldsRead(r.value.crc, r.value.randomised, body, old(input.Rest()), input.Rest())
    ensures r.NoInput? ==> |input.Rest()| < 24
  {
    ghost var all := input.Rest();
    body := [];
    ghost var c := if expected then ByteBits(Triple(origPtr)) + rest else [];
    ghost var b := if expected then Bits(0, 1) + c else [];
    var word := TakeBytes(input, 4, expected, if expected then Word(crc) else [], b);
    if word.None? { return NoInput, body; }
    ghost var atFlag := input.Rest();
    if expected { WordValue(crc); TripleValue(origPtr); }
    var randomised := TakeFlag(input, expected, false, c);
    if randomised.None? { return NoInput, body; }
    ghost var atPointer := input.Rest();
    var triple := TakeBytes(input, 3, expected, if expected then Triple(origPtr) else [], rest);
    if triple.None? { return NoInput, body; }
    BytesLater(triple.value, atPointer, input.Rest());
    body := FieldsAre(word.value, randomised.value, all, atFlag, atPointer, input.Rest());
    var o := Number(triple.value);
    if o > 10 + limit { return BadData, body; }
    r := Done(Header(Number(word.value), randomised.value, o));
  }

  /** Reads a fixed mark. */
  method TakeMark(input: Input, mark: seq<byte>, ghost expected: bool, ghost rest: seq<int>) returns (r: Outcome<()>)
    requires expected ==> input.Rest() == ByteBits(mark) + rest
    modifies input, input.reader
    ensures !r.Overrun?
    ensures expected ==> r == Done(()) && input.Rest() == rest
    ensures r.Done? ==> BytesRead(mark, old(input.Rest()), input.Rest())
    ensures r.NoInput? ==> |input.Rest()| < 24
  {
    ghost var all := input.Rest();
    NoBytesRead(all);
    assert mark[0..] == mark && mark[..0] == [] && mark[..|mark|] == mark;
    TailBytes(mark, 0, rest);
    for i := 0 to |mark|
      invariant expected ==> input.Rest() == Tail(mark, i, rest)
      invariant BytesRead(mark[..i], all, input.Rest())
    {
      ghost var before := input.Rest();
      var c := TakeByte(input, expected, mark[i], if expected then Tail(mark, i + 1, rest) else []);
      if c.None? { return NoInput; }
      if c.value != mark[i] { return BadData; }
      OneByteRead(mark[..i], c.value, all, before, input.Rest());
      assert mark[..i + 1] == mark[..i] + [mark[i]];
    }
    r := Done(());
  }

  // ---------------------------------------------------------------- from symbols to the text

  lemma {:induction false} CharsAreBytes(table: seq<byte>, ranks: seq<int>)
    requires |table| == 256 && Symbols(256, ranks)
    ensures Bytes(Chars(table, ranks))
  {
    UnrankedSymbols(ranks);
    assert Chars(table, ranks) == Mapped(table, Unranks(256, ranks));
  }

  /** Undoes the block sort with the table that the memory limit calls for. */
  method OpenColumn(tt: array<int>, cftab: array<int>, nblock: nat, origPtr: nat, limit: nat, small: bool,
      ghost l: seq<int>)
    returns (source: Source, ghost t: seq<int>)
    requires tt != cftab && origPtr < |l| == nblock <= limit <= 900000 && nblock <= tt.Length
    requires tt[..nblock] == l && Bytes(l) && FirstRows(l, cftab[..])
    modifies tt, cftab
    ensures fresh(source.Object()) && Undoes(t, l) && Within(t) && source.Delivers(Spelled(l, t, origPtr), 0)
  {
    if small {
      var reader := OpenSmall(tt, cftab[..], nblock, limit, origPtr, l);
      t := reader.t;
      source := Source.Small(reader);
    } else {
      var reader := OpenFast(tt, cftab, nblock, limit, origPtr, l);
      t := reader.t;
      source := Source.Fast(reader);
    }
    SpelledSpells(l, t, origPtr);
  }

  /** The rest of the block's decoding, once its characters are known. */
  method OpenText(tt: array<int>, unzftab: array<int>, nblock: nat, origPtr: nat, limit: nat, small: bool,
      crcTable: seq<bv32>, ghost l: seq<int>)
    returns (r: Outcome<Unpacker>, ghost t: seq<int>)
    requires tt != unzftab && |l| == nblock <= limit <= 900000 && nblock <= tt.Length && |crcTable| == 256
    requires tt[..nblock] == l && Bytes(l) && Tallied(l, unzftab[..])
    modifies tt
    ensures !r.Overrun? && !r.NoInput?
    ensures r.Done? <==> origPtr < nblock
    ensures r.Done? ==> fresh(r.value) && fresh(r.value.source.Object()) && r.value.Ready() && r.value.out == [] && r.value.crcTable == crcTable
    ensures r.Done? ==> Undoes(t, l) && Within(t) && r.value.b == Spelled(l, t, origPtr)
  {
    if origPtr >= nblock { return BadData, []; }
    var cftab := new int[257];
    var ok := MakeCftab(unzftab, nblock, cftab);
    TalliedFirstRows(l, unzftab[..], cftab[..]);
    if !ok { assert false; return BadData, []; }
    var source;
    source, t := OpenColumn(tt, cftab, nblock, origPtr, limit, small, l);
    var unpacker := new Unpacker(source, crcTable, nblock, Spelled(l, t, origPtr));
    r := Done(unpacker);
  }

  /** Undoes move-to-front and zero runs and prepares the reader that undoes the block sort. */
  method OpenBlock(inUse: seq<bool>, syms: seq<int>, origPtr: nat, limit: nat, small: bool, crcTable: seq<bv32>,
                   ghost expected: bool, ghost im: Image, ghost b: seq<byte>) returns (r: Outcome<Unpacker>)
    requires |inUse| == 256 && Stream(syms, UsedBelow(inUse, 256) + 1) && limit <= 900000 && |crcTable| == 256
    requires expected ==> Carries(im, b) && |b| <= limit && inUse == im.inUse && syms == im.syms && origPtr == im.origPtr
    ensures !r.Overrun? && !r.NoInput?
    ensures expected ==> r.Done? && r.value.b == b
    ensures r.Done? ==> fresh(r.value) && fresh(r.value.source.Object()) && r.value.Ready() && r.value.out == [] && r.value.crcTable == crcTable
  {
    var table, nInUse := MakeMapsD(inUse);
    var tt := new int[limit];
    var col := new Collector(tt, limit, table);
    ghost var f: seq<int> := [];
    if expected {
      f :| ImageOf(im, b, f);
      DecodedColumn(im, b, f, table);
    }
    var ok := DecodeStream(col, syms, nInUse + 1);
    if !ok { return BadData; }
    ghost var l := Chars(table, col.ranks);
    CharsAreBytes(table, col.ranks);
    ghost var t;
    r, t := OpenText(tt, col.unzftab, col.nblock, origPtr, limit, small, crcTable, l);
    if expected {
      SpelledBlock(b, f, t, origPtr);
    }
  }

  /** Reads a block whose first byte has been read already. On a block that CompressBlock wrote it
      recovers checksum and contents; on other input it fails or delivers some text, unless more selectors are
      announced than there is room for. What is read is a mark, the checksum, the bit 0 and a body. */
  method DecompressBlock(input: Input, limit: nat, small: bool, crcTable: seq<bv32>,
                         ghost expected: bool, ghost im: Image, ghost b: seq<byte>, ghost rest: seq<int>)
                             returns (r: Outcome<Unpacker>, crc: nat, ghost body: seq<int>)
    requires limit <= 900000 && |crcTable| == 256
    requires expected ==> WellFormed(im) && Carries(im, b) && |b| <= limit
    requires expected ==> Bits(MAGIC[0], 8) + input.Rest() == ImageBits(im) + rest
    modifies input, input.reader
    ensures r.Overrun? ==> MAX_SELECTORS < r.nSelectors < 0x8000
    ensures expected ==> r.Done? && r.value.b == b && crc == im.crc && input.Rest() == rest
    ensures r.Done? ==> fresh(r.value) && fresh(r.value.source.Object()) && r.value.Ready() && r.value.out == [] && r.value.crcTable == crcTable
    ensures r.Done? ==> BlockRead(crc, body, old(input.Rest()), input.Rest())
    ensures r.NoInput? ==> |input.Rest()| < 24
  {
    crc, body := 0, [];
    ghost var all := input.Rest();
    ghost var inner := if expected then BodyBits(im) + rest else [];
    ghost var fields := if expected then ByteBits(Word(im.crc)) + (Bits(0, 1) + (ByteBits(Triple(im.origPtr)) + inner))
        else [];
    if expected { BlockParts(im, rest, input.Rest()); }
    var mark := TakeMark(input, MAGIC[1..], expected, fields);
    if !mark.Done? { return Failed(mark), crc, body; }
    ghost var atFields := input.Rest();
    var header;
    header, body := TakeFields(input, limit, expected, im.crc, im.origPtr, inner);
    if !header.Done? { return Failed(header), crc, body; }
    ghost var atBody := input.Rest();
    crc := header.value.crc;
    var got := TakeBody(input, expected, im, rest);
    if !got.Done? { return Failed(got), crc, body; }
    if header.value.randomised { return BadData, crc, body; }
    body := BlockAre(crc, body, all, atFields, atBody, input.Rest());
    r := OpenBlock(got.value.0, got.value.1, header.value.origPtr, limit, small, crcTable, expected, im, b);
  }

  /** A block of which the first byte had been read before: the rest of its mark, the checksum, the bit 0 and a body. */
  ghost predicate BlockRead(crc: nat, body: seq<int>, all: seq<int>, now: seq<int>) {
    crc < 0x1_0000_0000 && forall k {:trigger Unfold(k)} :: Unfold(k) ==>
      all == ByteBits(MAGIC[1..]) + (ByteBits(Word(crc)) + (Bits(0, 1) + (body + now)))
  }

  lemma {:induction false} BlockAre(crc: nat, head: seq<int>, all: seq<int>, atFields: seq<int>, atBody: seq<int>,
      now: seq<int>) returns (body: seq<int>)
    requires BytesRead(MAGIC[1..], all, atFields) && FieldsRead(crc, false, head, atFields, atBody) && Later(atBody, now)
    ensures BlockRead(crc, body, all, now)
  {
    assert Unfold(0) && Open(0);
    ghost var more := atBody[..|atBody| - |now|];
    assert atBody == more + now;
    body := head + more;
    Regroup(head, more, now);
  }

  lemma {:induction false} BlockParts(im: Image, rest: seq<int>, after: seq<int>)
    requires WellFormed(im) && Bits(MAGIC[0], 8) + after == ImageBits(im) + rest
    ensures after == ByteBits(MAGIC[1..]) + (ByteBits(Word(im.crc))
        + (Bits(0, 1) + (ByteBits(Triple(im.origPtr)) + (BodyBits(im) + rest))))
  {
    Regroup(HeaderBits(im.crc, im.origPtr), BodyBits(im), rest);
    HeaderParts(im.crc, im.origPtr, BodyBits(im) + rest);
    var fields := ByteBits(Word(im.crc)) + (Bits(0, 1) + (ByteBits(Triple(im.origPtr)) + (BodyBits(im) + rest)));
    FirstByteBits(MAGIC);
    Regroup(Bits(MAGIC[0], 8), ByteBits(MAGIC[1..]), fields);
    SameTail(Bits(MAGIC[0], 8), after, ByteBits(MAGIC[1..]) + fields);
  }

  lemma SameTail(a: seq<int>, b: seq<int>, c: seq<int>)
    requires a + b == a + c
    ensures b == c
  {
    assert b == (a + b)[|a|..] && c == (a + c)[|a|..];
  }
}
