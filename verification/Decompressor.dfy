/** The decompressor as its caller sees it: BZ2_bzDecompress (bzlib.c) with the stream header, block marks
    and trailer that BZ2_decompress reads (decompress.c). */
module Decompressor {
  import opened Common
  import opened RunLength
  import opened UnRunLength
  import opened InverseBwt
  import opened BitStream
  import opened BlockFormat
  import opened BlockReceive
  import opened BlockCodec
  import opened StreamFormat

  /** Stalled: the input has run out, or a store went behind an array; every further call returns the same. */
  datatype Stage = Magic | BlockStart | Output | Ended | Stalled(ret: Ret)
  datatype Ret = Ok | StreamEnd | DataError | SequenceError | Overrun

  /** What the stream is expected to hold: the blocks ps and, after them, the trailer and some padding. */
  datatype Plan = Plan(expected: bool, blockSize100k: int, ps: seq<Piece>, pad: nat)

  ghost function AfterBlocks(table: seq<bv32>, plan: Plan): (r: seq<int>)
    requires |table| == 256
  {
    Trailer(CombinedTo(table, plan.ps, |plan.ps|)) + Bits(0, plan.pad)
  }

  /** The bits from block i on. */
  ghost function FromBlock(table: seq<bv32>, plan: Plan, i: nat): (r: seq<int>)
    requires |table| == 256
  {
    PieceBits(plan.ps, i) + AfterBlocks(table, plan)
  }

  ghost predicate PlanOk(table: seq<bv32>, plan: Plan) {
    |table| == 256 && 1 <= plan.blockSize100k <= 9 && PiecesOk(table, plan.ps, 100000 * plan.blockSize100k)
  }

  /** At a block's start: i blocks are out, the input goes on with block i. */
  ghost predicate AtBlock(table: seq<bv32>, plan: Plan, i: nat, rest: seq<int>, out: seq<byte>, combined: bv32,
      bs: int) {
    forall k {:trigger Unfold(k)} :: Unfold(k) ==>
      && PlanOk(table, plan) && bs == plan.blockSize100k && i <= |plan.ps|
      && rest == FromBlock(table, plan, i) && out == TextTo(plan.ps, i) && combined == CombinedTo(table, plan.ps, i)
  }

  /** Inside a block: block i is being written out. */
  ghost predicate InBlock(table: seq<bv32>, plan: Plan, i: nat, rest: seq<int>, done: seq<byte>, combined: bv32,
      bs: int, b: seq<byte>, crc: nat) {
    forall k {:trigger Unfold(k)} :: Unfold(k) ==>
      && PlanOk(table, plan) && bs == plan.blockSize100k && i < |plan.ps|
      && rest == FromBlock(table, plan, i + 1) && done == TextTo(plan.ps, i)
          && combined == CombinedTo(table, plan.ps, i)
      && b == plan.ps[i].b && crc == plan.ps[i].im.crc
  }

  lemma {:induction false} NoTruncation(table: seq<bv32>, plan: Plan, i: nat, rest: seq<int>, done: seq<byte>,
      combined: bv32, bs: int, b: seq<byte>, crc: nat)
    requires InBlock(table, plan, i, rest, done, combined, bs, b, crc)
    ensures !Truncated(b)
  {
    assert Unfold(0);
    assert PieceOk(table, plan.ps[i], 100000 * bs);
  }

  /** All of the block's text is out and crc is its checksum. */
  ghost predicate AllOut(table: seq<bv32>, b: seq<byte>, out: seq<byte>, crc: bv32) {
    |table| == 256 && |out| >= 1 && forall k {:trigger Unfold(k)} :: Unfold(k) ==> out == Expand(b) && crc == CrcOf(table, out)
  }

  /** When the whole block is out its checksum is right and the next block follows. */
  lemma {:induction false} BlockDone(table: seq<bv32>, plan: Plan, i: nat, rest: seq<int>, done: seq<byte>,
      combined: bv32, bs: int, b: seq<byte>, stored: nat,
                                     out: seq<byte>, crc: bv32)
    requires InBlock(table, plan, i, rest, done, combined, bs, b, stored) && AllOut(table, b, out, crc)
    ensures stored == CrcWord(FinalCrc(crc))
    ensures AtBlock(table, plan, i + 1, rest, done + out, Combine(combined, FinalCrc(crc)), bs)
  {
    assert Unfold(0);
    assert PieceOk(table, plan.ps[i], 100000 * bs);
  }

  lemma {:induction false} StartsBlock(table: seq<bv32>, plan: Plan, i: nat, rest: seq<int>, out: seq<byte>,
      combined: bv32, bs: int) returns (next: seq<int>)
    requires AtBlock(table, plan, i, rest, out, combined, bs) && |table| == 256
    ensures i <= |plan.ps|
    ensures i < |plan.ps| ==> WellFormed(plan.ps[i].im) && Carries(plan.ps[i].im, plan.ps[i].b) && |plan.ps[i].b| <= 100000 * bs
    ensures i < |plan.ps| ==> rest == ImageBits(plan.ps[i].im) + next
    ensures i < |plan.ps| ==> InBlock(table, plan, i, next, out, combined, bs, plan.ps[i].b, plan.ps[i].im.crc)
  {
    assert Unfold(0);
    next := FromBlock(table, plan, i + 1);
    if i < |plan.ps| {
      assert PieceOk(table, plan.ps[i], 100000 * bs);
      Regroup(plan.ps[i].bits, PieceBits(plan.ps, i + 1), AfterBlocks(table, plan));
    }
  }

  lemma {:induction false} StartsTrailer(table: seq<bv32>, plan: Plan, i: nat, rest: seq<int>, out: seq<byte>,
      combined: bv32, bs: int)
    requires AtBlock(table, plan, i, rest, out, combined, bs) && |table| == 256 && i == |plan.ps|
    ensures rest == ByteBits(END_MARK) + (ByteBits(Word(CrcWord(combined))) + Bits(0, plan.pad))
        && out == TextTo(plan.ps, |plan.ps|)
  {
    assert Unfold(0);
    Nothing(AfterBlocks(table, plan));
    Regroup(ByteBits(END_MARK), ByteBits(Word(CrcWord(combined))), Bits(0, plan.pad));
  }

  // ---------------------------------------------------------------- what has been read, on any input

  /** A block that has been read and delivered: the checksum stored in it, the bits behind its field, the text delivered
      for it, and the bits behind the block. */
  datatype Got = Got(crc: nat, body: seq<int>, text: seq<byte>, after: seq<int>)

  ghost function BlockBits(crc: nat, body: seq<int>, after: seq<int>): (r: seq<int>)
    requires crc < 0x1_0000_0000
  {
    ByteBits(MAGIC) + (ByteBits(Word(crc)) + (Bits(0, 1) + (body + after)))
  }

  ghost function EndBits(crc: nat, after: seq<int>): (r: seq<int>)
    requires crc < 0x1_0000_0000
  {
    ByteBits(END_MARK) + (ByteBits(Word(crc)) + after)
  }

  /** The bits begin with the image of a block that carries b. */
  ghost predicate StartsImage(bits: seq<int>, limit: int, im: Image, b: seq<byte>, after: seq<int>) {
    WellFormed(im) && Carries(im, b) && |b| <= limit && bits == ImageBits(im) + after
  }

  ghost predicate ImageThere(bits: seq<int>, limit: int) {
    exists im, b, after :: StartsImage(bits, limit, im, b, after)
  }

  /** Where the bits begin with an image of a block, that image has been read, and b with it. */
  ghost predicate ImageRead(bits: seq<int>, limit: int, crc: nat, b: seq<byte>, after: seq<int>) {
    ImageThere(bits, limit) ==> exists im :: StartsImage(bits, limit, im, b, after) && im.crc == crc
  }

  /** A block delivered: its text has the checksum that is stored in it, and if it is an image, it carries that text. */
  ghost predicate GotOk(table: seq<bv32>, limit: int, bits: seq<int>, g: Got) {
    && |table| == 256 && g.crc < 0x1_0000_0000 && bits == BlockBits(g.crc, g.body, g.after)
    && g.text != [] && g.crc == CrcWord(FinalCrc(CrcOf(table, g.text)))
    && exists b :: g.text == Expand(b) && ImageRead(bits, limit, g.crc, b, g.after)
  }

  ghost function AfterLog(log: seq<Got>, from: seq<int>): (r: seq<int>) {
    if log == [] then from else log[|log| - 1].after
  }

  /** The bits from hold the blocks of the log one after the other. */
  ghost predicate Logged(table: seq<bv32>, limit: int, from: seq<int>, log: seq<Got>) {
    log == [] || (Logged(table, limit, from, log[..|log| - 1])
      && GotOk(table, limit, AfterLog(log[..|log| - 1], from), log[|log| - 1]))
  }

  /** The bits of the blocks of the log, one block after the other. */
  ghost function LogBits(log: seq<Got>): (r: seq<int>) {
    if log == [] then []
    else var g := log[|log| - 1];
      LogBits(log[..|log| - 1]) + if g.crc < 0x1_0000_0000 then BlockBits(g.crc, g.body, []) else []
  }

  /** What has been read is the blocks of the log. */
  lemma {:induction false} LogSpells(table: seq<bv32>, limit: int, from: seq<int>, log: seq<Got>)
    requires Logged(table, limit, from, log)
    ensures from == LogBits(log) + AfterLog(log, from)
  {
    if log == [] {
      Nothing(from);
    } else {
      var init, g := log[..|log| - 1], log[|log| - 1];
      LogSpells(table, limit, from, init);
      var a, b, c := ByteBits(MAGIC), ByteBits(Word(g.crc)), Bits(0, 1);
      Nothing(g.body);
      Regroup(c, g.body, g.after);
      Regroup(b, c + g.body, g.after);
      Regroup(a, b + (c + g.body), g.after);
      Regroup(LogBits(init), BlockBits(g.crc, g.body, []), g.after);
    }
  }

  ghost function LogText(log: seq<Got>): (r: seq<byte>) {
    if log == [] then [] else LogText(log[..|log| - 1]) + log[|log| - 1].text
  }

  ghost function LogCrc(table: seq<bv32>, log: seq<Got>): bv32
    requires |table| == 256
  {
    if log == [] then 0 else Combine(LogCrc(table, log[..|log| - 1]), FinalCrc(CrcOf(table, log[|log| - 1].text)))
  }

  /** All is a stream header and then from; the log tells what has been read of that, and rest is left. */
  ghost predicate Hears(table: seq<bv32>, bs: int, all: seq<int>, from: seq<int>, log: seq<Got>, text: seq<byte>,
      combined: bv32, rest: seq<int>) {
    1 <= bs <= 9 && |table| == 256 && forall k {:trigger Unfold(k)} :: Unfold(k) ==>
      && all == ByteBits(StartMark(bs)) + from && Logged(table, 100000 * bs, from, log) && AfterLog(log, from) == rest
      && text == LogText(log) && combined == LogCrc(table, log)
  }

  /** The same inside a block. */
  ghost predicate HearsBlock(table: seq<bv32>, bs: int, all: seq<int>, from: seq<int>, log: seq<Got>, text: seq<byte>,
      combined: bv32, crc: nat, body: seq<int>, b: seq<byte>, rest: seq<int>) {
    crc < 0x1_0000_0000 && forall k {:trigger Open(k)} :: Open(k) ==>
      && Hears(table, bs, all, from, log, text, combined, BlockBits(crc, body, rest))
      && ImageRead(BlockBits(crc, body, rest), 100000 * bs, crc, b, rest)
  }

  /** The same after the trailer. */
  ghost predicate HearsEnd(table: seq<bv32>, bs: int, all: seq<int>, from: seq<int>, log: seq<Got>, text: seq<byte>,
      combined: bv32, crc: nat, rest: seq<int>) {
    crc < 0x1_0000_0000 && forall k {:trigger Open(k)} :: Open(k) ==>
      Hears(table, bs, all, from, log, text, combined, EndBits(crc, rest))
  }

  /** bits are a block with this checksum and body, and a block that is an image has been read as such. */
  ghost predicate BlockHere(bits: seq<int>, bs: int, crc: nat, body: seq<int>, b: seq<byte>, rest: seq<int>) {
    crc < 0x1_0000_0000 && forall k {:trigger Open(k)} :: Open(k) ==>
      bits == BlockBits(crc, body, rest) && ImageRead(bits, 100000 * bs, crc, b, rest)
  }

  ghost predicate EndHere(bits: seq<int>, crc: nat, rest: seq<int>) {
    crc < 0x1_0000_0000 && forall k {:trigger Open(k)} :: Open(k) ==> bits == EndBits(crc, rest)
  }

  lemma BlockHeard(table: seq<bv32>, bs: int, all: seq<int>, from: seq<int>, log: seq<Got>, text: seq<byte>,
      combined: bv32, bits: seq<int>, crc: nat, body: seq<int>, b: seq<byte>, rest: seq<int>)
    requires Hears(table, bs, all, from, log, text, combined, bits) && BlockHere(bits, bs, crc, body, b, rest)
    ensures HearsBlock(table, bs, all, from, log, text, combined, crc, body, b, rest)
  {
    assert Open(0);
  }

  lemma EndHeard(table: seq<bv32>, bs: int, all: seq<int>, from: seq<int>, log: seq<Got>, text: seq<byte>,
      combined: bv32, bits: seq<int>, crc: nat, rest: seq<int>)
    requires Hears(table, bs, all, from, log, text, combined, bits) && EndHere(bits, crc, rest)
    ensures HearsEnd(table, bs, all, from, log, text, combined, crc, rest)
  {
    assert Open(0);
  }

  lemma OutCrc(table: seq<bv32>, b: seq<byte>, out: seq<byte>, crc: bv32)
    requires AllOut(table, b, out, crc)
    ensures crc == CrcOf(table, out)
  {
    assert Unfold(0);
  }

  lemma {:induction false} HearsStart(table: seq<bv32>, bs: int, all: seq<int>, from: seq<int>)
    requires 1 <= bs <= 9 && |table| == 256 && all == ByteBits(StartMark(bs)) + from
    ensures Hears(table, bs, all, from, [], [], 0, from)
  {
  }

  /** A block that is all out and has the checksum stored in it joins the log. */
  lemma {:induction false} HearsMore(table: seq<bv32>, bs: int, all: seq<int>, from: seq<int>, log: seq<Got>,
      text: seq<byte>, combined: bv32, crc: nat, body: seq<int>, b: seq<byte>, rest: seq<int>, out: seq<byte>, c: bv32)
    requires HearsBlock(table, bs, all, from, log, text, combined, crc, body, b, rest)
    requires AllOut(table, b, out, c) && crc == CrcWord(FinalCrc(c))
    ensures Hears(table, bs, all, from, log + [Got(crc, body, out, rest)], text + out, Combine(combined, FinalCrc(c)), rest)
  {
    assert Unfold(0) && Open(0);
    var g := Got(crc, body, out, rest);
    assert GotOk(table, 100000 * bs, AfterLog(log, from), g);
    assert (log + [g])[..|log|] == log;
  }

  /** The bits are a stream header, blocks and a trailer; the checksum stored in every block is that of the text
      delivered for it, the one stored in the trailer is theirs combined, and out is all of the text. */
  ghost predicate Genuine(table: seq<bv32>, bits: seq<int>, out: seq<byte>) {
    forall k {:trigger Open(k)} :: Open(k) ==> exists bs, from, log, crc, rest :: Told(table, bits, out, bs, from, log, crc, rest)
  }

  ghost predicate Told(table: seq<bv32>, bits: seq<int>, out: seq<byte>, bs: int, from: seq<int>, log: seq<Got>,
      crc: nat, rest: seq<int>) {
    && |table| == 256 && 1 <= bs <= 9 && crc < 0x1_0000_0000
    && bits == ByteBits(StartMark(bs)) + from && Logged(table, 100000 * bs, from, log)
    && AfterLog(log, from) == EndBits(crc, rest) && crc == CrcWord(LogCrc(table, log)) && out == LogText(log)
  }

  lemma {:induction false} HearsGenuine(table: seq<bv32>, bs: int, all: seq<int>, from: seq<int>, log: seq<Got>,
      text: seq<byte>, combined: bv32, crc: nat, rest: seq<int>)
    requires HearsEnd(table, bs, all, from, log, text, combined, crc, rest) && crc == CrcWord(combined)
    ensures Genuine(table, all, text)
  {
    assert Unfold(0) && Open(0);
    assert Told(table, all, text, bs, from, log, crc, rest);
  }

  // ---------------------------------------------------------------- reading marks

  lemma {:induction false} ImageFirst(im: Image, next: seq<int>) returns (after: seq<int>)
    requires WellFormed(im)
    ensures ImageBits(im) + next == Bits(MAGIC[0], 8) + after
  {
    Regroup(HeaderBits(im.crc, im.origPtr), BodyBits(im), next);
    HeaderParts(im.crc, im.origPtr, BodyBits(im) + next);
    FirstByteBits(MAGIC);
    var fields := ByteBits(Word(im.crc)) + (Bits(0, 1) + (ByteBits(Triple(im.origPtr)) + (BodyBits(im) + next)));
    Regroup(Bits(MAGIC[0], 8), ByteBits(MAGIC[1..]), fields);
    after := ByteBits(MAGIC[1..]) + fields;
  }

  lemma {:induction false} EndFirst(next: seq<int>)
    ensures ByteBits(END_MARK) + next == Bits(END_MARK[0], 8) + (ByteBits(END_MARK[1..]) + next)
  {
    FirstByteBits(END_MARK);
    Regroup(Bits(END_MARK[0], 8), ByteBits(END_MARK[1..]), next);
  }

  ghost predicate AtStart(table: seq<bv32>, plan: Plan, rest: seq<int>) {
    forall k {:trigger Unfold(k)} :: Unfold(k) ==>
      PlanOk(table, plan) && rest == WholeBits(table, plan.blockSize100k, plan.ps) + Bits(0, plan.pad)
  }

  lemma {:induction false} StartParts(table: seq<bv32>, plan: Plan, rest: seq<int>)
    requires AtStart(table, plan, rest)
    ensures PlanOk(table, plan) && rest == ByteBits(StartMark(plan.blockSize100k)) + FromBlock(table, plan, 0)
    ensures AtBlock(table, plan, 0, FromBlock(table, plan, 0), [], 0, plan.blockSize100k)
  {
    assert Unfold(0);
    var a, b, c := ByteBits(StartMark(plan.blockSize100k)), PieceBits(plan.ps, 0),
        Trailer(CombinedTo(table, plan.ps, |plan.ps|));
    Regroup(a + b, c, Bits(0, plan.pad));
    Regroup(a, b, c + Bits(0, plan.pad));
  }

  /** The stream header; r is the block size. */
  method ReadMagic(input: Input, ghost table: seq<bv32>, ghost plan: Plan) returns (r: Outcome<int>)
    requires plan.expected ==> AtStart(table, plan, input.Rest())
    modifies input, input.reader
    ensures !r.Overrun?
    ensures r.Done? ==> 1 <= r.value <= 9
    ensures plan.expected ==> r.Done? && AtBlock(table, plan, 0, input.Rest(), [], 0, r.value)
    ensures r.Done? ==> old(input.Rest()) == ByteBits(StartMark(r.value)) + input.Rest()
    ensures r.NoInput? ==> |input.Rest()| < 24
  {
    ghost var all := input.Rest();
    if plan.expected { StartParts(table, plan, input.Rest()); }
    var got := TakeBytes(input, 4, plan.expected, if plan.expected then StartMark(plan.blockSize100k) else [],
                         if plan.expected then FromBlock(table, plan, 0) else []);
    if got.None? { return NoInput; }
    if got.value[0] != 0x42 || got.value[1] != 0x5A || got.value[2] != 0x68 { return BadData; }
    if got.value[3] < 0x31 || got.value[3] > 0x39 { return BadData; }
    r := Done(got.value[3] as int - 0x30);
    BytesAre(got.value, all, input.Rest());
    assert got.value == StartMark(r.value);
  }

  /** The rest of the trailer; r is the stored checksum. */
  method ReadEnd(input: Input, ghost expected: bool, ghost combined: bv32, ghost rest: seq<int>)
      returns (r: Outcome<nat>)
    requires expected ==> input.Rest() == ByteBits(END_MARK[1..]) + (ByteBits(Word(CrcWord(combined))) + rest)
    modifies input, input.reader
    ensures !r.Overrun?
    ensures expected ==> r == Done(CrcWord(combined))
    ensures r.Done? ==> r.value < 0x1_0000_0000 && old(input.Rest()) == ByteBits(END_MARK[1..]) + (ByteBits(Word(r.value)) + input.Rest())
    ensures r.NoInput? ==> |input.Rest()| < 24
  {
    ghost var all := input.Rest();
    ghost var after := if expected then ByteBits(Word(CrcWord(combined))) + rest else [];
    var mark := TakeMark(input, END_MARK[1..], expected, after);
    if !mark.Done? { return Failed(mark); }
    ghost var atWord := input.Rest();
    BytesAre(END_MARK[1..], all, atWord);
    var word := TakeBytes(input, 4, expected, if expected then Word(CrcWord(combined)) else [], rest);
    if word.None? { return NoInput; }
    if expected { WordValue(CrcWord(combined)); }
    BytesAre(word.value, atWord, input.Rest());
    WordBack(word.value);
    r := Done(Number(word.value));
  }

  datatype Next = Block(unpacker: Unpacker, crc: nat) | End(crc: nat)

  ghost predicate Opened(u: Unpacker, table: seq<bv32>)
    reads u, u.source.Object()
  {
    u.Ready() && u.out == [] && u.crcTable == table
  }

  /** What the next bits are expected to be: the block or the trailer of the plan or, where there is no plan, the image of
      a block if there is one. */
  lemma {:induction false} Expecting(table: seq<bv32>, plan: Plan, i: nat, rest: seq<int>, out: seq<byte>,
      combined: bv32, bs: int) returns (there: bool, end: bool, im: Image, b: seq<byte>, next: seq<int>, after: seq<int>)
    requires 1 <= bs <= 9 && |table| == 256 && (plan.expected ==> AtBlock(table, plan, i, rest, out, combined, bs))
    ensures there ==> StartsImage(rest, 100000 * bs, im, b, next) && rest == Bits(MAGIC[0], 8) + after && !end
    ensures plan.expected ==> there || end
    ensures plan.expected && there ==> InBlock(table, plan, i, next, out, combined, bs, b, im.crc)
    ensures end ==> plan.expected && out == TextTo(plan.ps, |plan.ps|) && rest == Bits(END_MARK[0], 8) + after
    ensures end ==> after == ByteBits(END_MARK[1..]) + (ByteBits(Word(CrcWord(combined))) + Bits(0, plan.pad))
    ensures !there && !end ==> !ImageThere(rest, 100000 * bs)
  {
    there, end, im, b, next, after := false, false, Image(0, 0, [], [], [], []), [], [], [];
    if plan.expected {
      next := StartsBlock(table, plan, i, rest, out, combined, bs);
      there := i < |plan.ps|;
      end := !there;
      if there {
        im, b := plan.ps[i].im, plan.ps[i].b;
        after := ImageFirst(im, next);
      } else {
        StartsTrailer(table, plan, i, rest, out, combined, bs);
        EndFirst(ByteBits(Word(CrcWord(combined))) + Bits(0, plan.pad));
        after := ByteBits(END_MARK[1..]) + (ByteBits(Word(CrcWord(combined))) + Bits(0, plan.pad));
      }
    } else if ImageThere(rest, 100000 * bs) {
      there := true;
      im, b, next :| StartsImage(rest, 100000 * bs, im, b, next);
      after := ImageFirst(im, next);
    }
  }

  /** The block behind its first byte, with that byte. */
  lemma {:induction false} WholeBlock(all: seq<int>, atMark: seq<int>, crc: nat, body: seq<int>, now: seq<int>)
    requires all == Bits(MAGIC[0], 8) + atMark && BlockRead(crc, body, atMark, now)
    ensures all == BlockBits(crc, body, now)
  {
    assert Unfold(0);
    FirstByteBits(MAGIC);
    Regroup(Bits(MAGIC[0], 8), ByteBits(MAGIC[1..]), ByteBits(Word(crc)) + (Bits(0, 1) + (body + now)));
  }

  lemma {:induction false} BlockIsHere(all: seq<int>, atMark: seq<int>, bs: int, there: bool, im: Image, b: seq<byte>,
      next: seq<int>, crc: nat, body: seq<int>, got: seq<byte>, now: seq<int>)
    requires all == Bits(MAGIC[0], 8) + atMark && BlockRead(crc, body, atMark, now)
    requires if there then StartsImage(all, 100000 * bs, im, b, next) && crc == im.crc && got == b && now == next
             else !ImageThere(all, 100000 * bs)
    ensures BlockHere(all, bs, crc, body, got, now)
  {
    WholeBlock(all, atMark, crc, body, now);
  }

  lemma {:induction false} WholeEnd(all: seq<int>, atMark: seq<int>, crc: nat, now: seq<int>)
    requires crc < 0x1_0000_0000 && all == Bits(END_MARK[0], 8) + atMark
    requires atMark == ByteBits(END_MARK[1..]) + (ByteBits(Word(crc)) + now)
    ensures EndHere(all, crc, now)
  {
    EndFirst(ByteBits(Word(crc)) + now);
  }

  /** The rest of a block, behind its first byte. */
  method ReadBlock(input: Input, bs: int, small: bool, crcTable: seq<bv32>, ghost all: seq<int>, ghost there: bool,
      ghost im: Image, ghost b: seq<byte>, ghost next: seq<int>)
    returns (r: Outcome<Next>, ghost body: seq<int>)
    requires 1 <= bs <= 9 && |crcTable| == 256 && all == Bits(MAGIC[0], 8) + input.Rest()
    requires if there then StartsImage(all, 100000 * bs, im, b, next) else !ImageThere(all, 100000 * bs)
    modifies input, input.reader
    ensures r.Overrun? ==> MAX_SELECTORS < r.nSelectors < 0x8000
    ensures r.Done? ==> r.value.Block? && Opened(r.value.unpacker, crcTable)
    ensures there ==> r.Done? && r.value.unpacker.b == b && r.value.crc == im.crc && input.Rest() == next
    ensures r.Done? ==> fresh(r.value.unpacker) && fresh(r.value.unpacker.source.Object())
    ensures r.Done? ==> BlockHere(all, bs, r.value.crc, body, r.value.unpacker.b, input.Rest())
    ensures r.NoInput? ==> |input.Rest()| < 24
  {
    ghost var atMark := input.Rest();
    var u, crc;
    u, crc, body := DecompressBlock(input, 100000 * bs, small, crcTable, there, im, b, next);
    if !u.Done? { return Failed(u), body; }
    BlockIsHere(all, atMark, bs, there, im, b, next, crc, body, u.value.b, input.Rest());
    r := Done(Block(u.value, crc));
  }

  /** The next block, or the trailer. */
  method ReadNext(input: Input, bs: int, small: bool, crcTable: seq<bv32>, ghost plan: Plan, ghost i: nat,
      ghost out: seq<byte>, ghost combined: bv32)
    returns (r: Outcome<Next>, ghost body: seq<int>)
    requires 1 <= bs <= 9 && |crcTable| == 256
    requires plan.expected ==> AtBlock(crcTable, plan, i, input.Rest(), out, combined, bs)
    modifies input, input.reader
    ensures r.Overrun? ==> MAX_SELECTORS < r.nSelectors < 0x8000
    ensures r.Done? && r.value.Block? ==>
              fresh(r.value.unpacker) && fresh(r.value.unpacker.source.Object()) && Opened(r.value.unpacker, crcTable)
    ensures plan.expected ==> r.Done?
    ensures plan.expected && r.value.Block? ==> InBlock(crcTable, plan, i, input.Rest(), out, combined, bs,
        r.value.unpacker.b, r.value.crc)
    ensures plan.expected && r.value.End? ==> r.value.crc == CrcWord(combined) && out == TextTo(plan.ps, |plan.ps|)
    ensures r.Done? && r.value.Block? ==> BlockHere(old(input.Rest()), bs, r.value.crc, body, r.value.unpacker.b, input.Rest())
    ensures r.Done? && r.value.End? ==> EndHere(old(input.Rest()), r.value.crc, input.Rest())
    ensures r.NoInput? ==> |input.Rest()| < 24
  {
    ghost var all := input.Rest();
    body := [];
    ghost var there, endNext, im, b, next, after := Expecting(crcTable, plan, i, all, out, combined, bs);
    var uc := BlockCodec.TakeByte(input, there || endNext, if there then MAGIC[0] else END_MARK[0], after);
    if uc.None? { return NoInput, body; }
    ghost var atMark := input.Rest();
    if uc.value == 0x17 {
      var crc := ReadEnd(input, endNext, combined, Bits(0, plan.pad));
      if !crc.Done? { return Failed(crc), body; }
      WholeEnd(all, atMark, crc.value, input.Rest());
      return Done(End(crc.value)), body;
    }
    if uc.value != 0x31 { return BadData, body; }
    r, body := ReadBlock(input, bs, small, crcTable, all, there, im, b, next);
  }

  // ---------------------------------------------------------------- the state machine

  ghost predicate Writing(u: Unpacker, table: seq<bv32>)
    reads u, u.source.Object()
  {
    u.crcTable == table && forall k {:trigger Unfold(k)} :: Unfold(k) ==> u.Ready()
  }

  method WriteOut(u: Unpacker, small: bool, room: nat, ghost table: seq<bv32>) returns (corrupt: bool, avail: nat)
    requires Writing(u, table) && |table| == 256
    modifies u, u.source.Object()
    ensures !corrupt ==> Writing(u, table) && |u.out| + avail == |old(u.out)| + room && old(u.out) <= u.out
    ensures !corrupt ==> avail == 0 || u.Finished()
    ensures !corrupt && u.Finished() ==> AllOut(table, u.b, u.out, u.crc)
    ensures corrupt ==> Truncated(u.b)
  {
    assert Unfold(0);
    ExpandNotEmpty(u.b, |u.b|);
    if small {
      corrupt, avail := u.OutputSmall(room);
    } else {
      corrupt, avail := u.OutputFast(room);
    }
  }

  class Decompression {
    const input: Input
    const small: bool
    const crcTable: seq<bv32>
    var stage: Stage
    var blockSize100k: int
    var storedBlockCRC: nat
    var combinedCRC: bv32
    var unpacker: Unpacker?
    var written: seq<byte>  // the text of the blocks that are finished
    ghost const plan: Plan
    ghost var i: nat        // how many blocks are finished
    ghost const all: seq<int>   // all bits of the input
    ghost var from: seq<int>    // the bits behind the stream header
    ghost var log: seq<Got>     // the blocks that are finished
    ghost var body: seq<int>    // the body of the block that is being written out
    ghost var trailer: nat      // the checksum stored in the trailer
    ghost var Repr: set<object>

    ghost predicate Owned()
      reads this
    {
      && {this, input, input.reader} <= Repr && |crcTable| == 256
      && (stage.Magic? || stage.Stalled? || 1 <= blockSize100k <= 9)
      && (stage.Output? ==> unpacker != null && {unpacker, unpacker.source.Object()} <= Repr
                            && {unpacker, unpacker.source.Object()} !! {this, input, input.reader})
    }

    ghost predicate Following()
      reads this, input, input.reader
      requires Owned()
    {
      match stage
      case Magic => AtStart(crcTable, plan, input.Rest()) && written == [] && combinedCRC == 0 && i == 0
      case BlockStart => AtBlock(crcTable, plan, i, input.Rest(), written, combinedCRC, blockSize100k)
      case Output => InBlock(crcTable, plan, i, input.Rest(), written, combinedCRC, blockSize100k, unpacker.b,
          storedBlockCRC)
      case Ended => written == TextTo(plan.ps, |plan.ps|)
      case Stalled => false
    }

    /** What has been read, with a plan or without. */
    ghost predicate Heard()
      reads this, input, input.reader
      requires Owned()
    {
      match stage
      case Magic => input.Rest() == all && log == [] && written == [] && combinedCRC == 0
      case BlockStart => Hears(crcTable, blockSize100k, all, from, log, written, combinedCRC, input.Rest())
      case Output => HearsBlock(crcTable, blockSize100k, all, from, log, written, combinedCRC, storedBlockCRC, body,
          unpacker.b, input.Rest())
      case Ended => HearsEnd(crcTable, blockSize100k, all, from, log, written, combinedCRC, trailer, input.Rest())
      case Stalled(_) => true
    }

    ghost predicate Valid()
      reads this, Repr
    {
      && Owned() && (stage.Output? ==> Writing(unpacker, crcTable))
      && (stage.Stalled? ==> if stage.ret.Ok? then |input.Rest()| < 24 else stage.ret == Ret.Overrun)
      && forall k {:trigger Unseal(k)} :: Unseal(k) ==> Heard() && (plan.expected ==> Following())
    }

    /** Everything delivered, over all calls. */
    function Out(): (r: seq<byte>)
      reads this, unpacker
    {
      if stage.Output? && unpacker != null then written + unpacker.out else written
    }

    /** d is what the pieces of input together hold. */
    constructor (pieces: seq<seq<byte>>, small: bool, crcTable: seq<bv32>, ghost d: seq<byte>, ghost text: seq<byte>)
      requires |crcTable| == 256 && ChunkBits(pieces) == ByteBits(d)
      ensures Valid() && fresh(Repr) && stage == Magic && Out() == [] && all == ByteBits(d)
      ensures Compressed(crcTable, d, text) ==> plan.expected && TextTo(plan.ps, |plan.ps|) == text
    {
      var source := new Input(pieces);
      input := source;
      this.small, this.crcTable := small, crcTable;
      stage, blockSize100k, storedBlockCRC, combinedCRC, unpacker, written, i := Magic, 0, 0, 0, null, [], 0;
      plan := PlanFor(crcTable, d, text);
      all, from, log, body, trailer := ByteBits(d), [], [], [], 0;
      Repr := {this, source, source.reader};
      new;
      PlanStarts(crcTable, d, text);
      SealedAtStart();
    }

    /** Reads the stream header. */
    method Begin() returns (ok: bool, bad: bool)
      requires Valid() && stage.Magic?
      modifies this`stage, this`blockSize100k, this`from, input, input.reader
      ensures !bad ==> Valid()
      ensures Repr == old(Repr) && Out() == old(Out())
      ensures plan.expected ==> ok
      ensures ok ==> !bad && stage.BlockStart?
      ensures !ok && !bad ==> stage == Stalled(Ok)
      ensures !stage.Ended?
    {
      assert Unseal(0);
      var r := ReadMagic(input, crcTable, plan);
      bad := r.BadData?;
      ok := r.Done?;
      if ok {
        HearsStart(crcTable, r.value, all, input.Rest());
        blockSize100k, from := r.value, input.Rest();
        stage := BlockStart;
      } else if !bad {
        stage := Stalled(Ok);
      }
    }

    lemma SealedAtBlock()
      requires Owned() && stage.BlockStart?
      requires Hears(crcTable, blockSize100k, all, from, log, written, combinedCRC, input.Rest())
      requires plan.expected ==> AtBlock(crcTable, plan, i, input.Rest(), written, combinedCRC, blockSize100k)
      ensures Valid()
    {
    }

    lemma SealedInBlock()
      requires Owned() && stage.Output? && Writing(unpacker, crcTable)
      requires HearsBlock(crcTable, blockSize100k, all, from, log, written, combinedCRC, storedBlockCRC, body, unpacker.b,
          input.Rest())
      requires plan.expected ==> InBlock(crcTable, plan, i, input.Rest(), written, combinedCRC, blockSize100k, unpacker.b,
          storedBlockCRC)
      ensures Valid()
    {
    }

    lemma SealedAtEnd()
      requires Owned() && stage.Ended?
      requires HearsEnd(crcTable, blockSize100k, all, from, log, written, combinedCRC, trailer, input.Rest())
      requires plan.expected ==> written == TextTo(plan.ps, |plan.ps|)
      ensures Valid()
    {
    }

    lemma SealedAtStart()
      requires Owned() && stage.Magic? && input.Rest() == all && log == [] && written == [] && combinedCRC == 0 && i == 0
      requires plan.expected ==> AtStart(crcTable, plan, input.Rest())
      ensures Valid()
    {
    }

    lemma AtStartOfBlock()
      requires Valid() && stage.BlockStart?
      ensures Hears(crcTable, blockSize100k, all, from, log, written, combinedCRC, input.Rest())
      ensures plan.expected ==> AtBlock(crcTable, plan, i, input.Rest(), written, combinedCRC, blockSize100k)
    {
      assert Unseal(0);
    }

    lemma AtOutput()
      requires Valid() && stage.Output?
      ensures HearsBlock(crcTable, blockSize100k, all, from, log, written, combinedCRC, storedBlockCRC, body, unpacker.b,
          input.Rest())
      ensures plan.expected ==> InBlock(crcTable, plan, i, input.Rest(), written, combinedCRC, blockSize100k, unpacker.b,
          storedBlockCRC)
    {
      assert Unseal(0);
    }

    lemma NotStalled()
      requires Valid() && plan.expected
      ensures !stage.Stalled? && (stage.Ended? ==> Out() == TextTo(plan.ps, |plan.ps|))
    {
      assert Unseal(0);
    }

    method Enter(u: Unpacker, crc: nat, ghost blockBody: seq<int>)
      requires Owned() && stage.BlockStart? && Opened(u, crcTable) && {u, u.source.Object()} !! Repr
      requires HearsBlock(crcTable, blockSize100k, all, from, log, written, combinedCRC, crc, blockBody, u.b, input.Rest())
      requires plan.expected ==> InBlock(crcTable, plan, i, input.Rest(), written, combinedCRC, blockSize100k, u.b, crc)
      modifies this
      ensures Valid() && stage.Output? && Repr == old(Repr) + {u, u.source.Object()} && Out() == old(Out())
          && unpacker == u
    {
      ghost var rest := input.Rest();
      unpacker, storedBlockCRC, stage, body := u, crc, Output, blockBody;
      Repr := Repr + {u, u.source.Object()};
      assert written + [] == written && input.Rest() == rest;
      SealedInBlock();
    }

    /** After the trailer. */
    method Close(crc: nat) returns (ret: Ret)
      requires Owned() && stage.BlockStart?
      requires HearsEnd(crcTable, blockSize100k, all, from, log, written, combinedCRC, crc, input.Rest())
      requires plan.expected ==> crc == CrcWord(combinedCRC) && written == TextTo(plan.ps, |plan.ps|)
      modifies this`stage, this`trailer
      ensures Valid() && stage.Ended? && trailer == crc && Out() == old(Out())
      ensures ret == if crc == CrcWord(combinedCRC) then StreamEnd else DataError
      ensures ret == StreamEnd ==> Genuine(crcTable, all, Out())
    {
      stage, trailer := Ended, crc;
      SealedAtEnd();
      if crc != CrcWord(combinedCRC) { return DataError; }
      HearsGenuine(crcTable, blockSize100k, all, from, log, written, combinedCRC, crc, input.Rest());
      ret := StreamEnd;
    }

    /** The next block or the trailer, with what it adds to what has been read. */
    method Fetch() returns (r: Outcome<Next>, ghost blockBody: seq<int>)
      requires Valid() && stage.BlockStart?
      modifies input, input.reader
      ensures Owned() && (plan.expected ==> r.Done?) && (r.NoInput? ==> |input.Rest()| < 24)
      ensures r.Done? && r.value.Block? ==>
        && fresh(r.value.unpacker) && fresh(r.value.unpacker.source.Object()) && Opened(r.value.unpacker, crcTable)
        && HearsBlock(crcTable, blockSize100k, all, from, log, written, combinedCRC, r.value.crc, blockBody,
            r.value.unpacker.b, input.Rest())
        && (plan.expected ==> InBlock(crcTable, plan, i, input.Rest(), written, combinedCRC, blockSize100k,
            r.value.unpacker.b, r.value.crc))
      ensures r.Done? && r.value.End? ==>
        && HearsEnd(crcTable, blockSize100k, all, from, log, written, combinedCRC, r.value.crc, input.Rest())
        && (plan.expected ==> r.value.crc == CrcWord(combinedCRC) && written == TextTo(plan.ps, |plan.ps|))
    {
      AtStartOfBlock();
      ghost var bits := input.Rest();
      r, blockBody := ReadNext(input, blockSize100k, small, crcTable, plan, i, written, combinedCRC);
      if r.Done? && r.value.Block? {
        BlockHeard(crcTable, blockSize100k, all, from, log, written, combinedCRC, bits, r.value.crc, blockBody,
            r.value.unpacker.b, input.Rest());
      }
      if r.Done? && r.value.End? {
        EndHeard(crcTable, blockSize100k, all, from, log, written, combinedCRC, bits, r.value.crc, input.Rest());
      }
    }

    /** Reads the next block or the trailer; ret is StreamEnd after a trailer with the right checksum. */
    method Next() returns (ret: Ret)
      requires Valid() && stage.BlockStart?
      modifies this, input, input.reader
      ensures ret != DataError ==> Valid()
      ensures fresh(Repr - old(Repr)) && Out() == old(Out())
      ensures plan.expected ==> ret != DataError && (ret == StreamEnd || stage.Output?)
      ensures ret == StreamEnd ==> stage.Ended? && Genuine(crcTable, all, Out())
      ensures stage.Ended? ==> ret == if trailer == CrcWord(combinedCRC) then StreamEnd else DataError
      ensures stage.Output? ==> ret == Ok && unpacker.out == []
      ensures ret != SequenceError && !stage.Magic? && (stage.Ended? ==> ret != Ok)
      ensures ret == Ret.Overrun || (ret == Ok && !stage.Output?) ==> stage == Stalled(ret)
    {
      var r;
      ghost var blockBody;
      r, blockBody := Fetch();
      if !r.Done? {
        if r.BadData? { return DataError; }
        ret := if r.Overrun? then Ret.Overrun else Ok;
        stage := Stalled(ret);
        return;
      }
      match r.value {
        case Block(u, crc) =>
          Enter(u, crc, blockBody);
          ret := Ok;
        case End(crc) =>
          ret := Close(crc);
      }
    }

    /** Writes out the block as far as there is room. */
    method Write(room: nat) returns (corrupt: bool, avail: nat)
      requires Valid() && stage.Output?
      modifies unpacker, unpacker.source.Object()
      ensures !corrupt ==> Valid() && |Out()| + avail == |old(Out())| + room && old(Out()) <= Out()
      ensures !corrupt ==> avail == 0 || unpacker.Finished()
      ensures !corrupt && unpacker.Finished() ==> AllOut(crcTable, unpacker.b, unpacker.out, unpacker.crc)
      ensures plan.expected ==> !corrupt
    {
      AtOutput();
      if plan.expected {
        NoTruncation(crcTable, plan, i, input.Rest(), written, combinedCRC, blockSize100k, unpacker.b, storedBlockCRC);
      }
      corrupt, avail := WriteOut(unpacker, small, room, crcTable);
    }

    /** Checks a finished block's checksum and goes on to the next one. */
    method EndBlock() returns (ok: bool)
      requires Valid() && stage.Output? && AllOut(crcTable, unpacker.b, unpacker.out, unpacker.crc)
      modifies this`stage, this`written, this`combinedCRC, this`i, this`log
      ensures Valid() && Out() == old(Out()) && (plan.expected ==> ok)
      ensures ok <==> stage.BlockStart?
      ensures ok <==> storedBlockCRC == CrcWord(FinalCrc(CrcOf(crcTable, old(unpacker.out))))
    {
      BlockEnds();
      var crc := FinalCrc(unpacker.crc);
      if CrcWord(crc) != storedBlockCRC { return false; }
      Accept(crc);
      ok := true;
    }

    /** The block whose checksum is crc has been read and is to be added to what has been read before. */
    ghost predicate Acceptable(crc: bv32)
      reads this, unpacker, input, input.reader
    {
      && unpacker != null && |crcTable| == 256
      && Hears(crcTable, blockSize100k, all, from, log + [Got(storedBlockCRC, body, unpacker.out, input.Rest())],
          written + unpacker.out, Combine(combinedCRC, crc), input.Rest())
      && (plan.expected ==> AtBlock(crcTable, plan, i + 1, input.Rest(), written + unpacker.out, Combine(combinedCRC, crc),
          blockSize100k))
    }

    lemma BlockEnds()
      requires Valid() && stage.Output? && AllOut(crcTable, unpacker.b, unpacker.out, unpacker.crc)
      ensures unpacker.crc == CrcOf(crcTable, unpacker.out)
      ensures plan.expected ==> storedBlockCRC == CrcWord(FinalCrc(unpacker.crc))
      ensures storedBlockCRC == CrcWord(FinalCrc(unpacker.crc)) ==> Acceptable(FinalCrc(unpacker.crc))
    {
      AtOutput();
      OutCrc(crcTable, unpacker.b, unpacker.out, unpacker.crc);
      if plan.expected {
        BlockDone(crcTable, plan, i, input.Rest(), written, combinedCRC, blockSize100k, unpacker.b, storedBlockCRC,
            unpacker.out, unpacker.crc);
      }
      if storedBlockCRC == CrcWord(FinalCrc(unpacker.crc)) {
        HearsMore(crcTable, blockSize100k, all, from, log, written, combinedCRC, storedBlockCRC, body, unpacker.b,
            input.Rest(), unpacker.out, unpacker.crc);
      }
    }

    /** The block is done. */
    method Accept(crc: bv32)
      requires Owned() && stage.Output? && Acceptable(crc)
      modifies this`stage, this`written, this`combinedCRC, this`i, this`log
      ensures Valid() && stage.BlockStart? && Out() == old(Out())
    {
      ghost var more := log + [Got(storedBlockCRC, body, unpacker.out, input.Rest())];
      GoOn(more, written + unpacker.out, Combine(combinedCRC, crc));
    }

    method GoOn(ghost more: seq<Got>, text: seq<byte>, sum: bv32)
      requires Owned() && stage.Output?
      requires Hears(crcTable, blockSize100k, all, from, more, text, sum, input.Rest())
      requires plan.expected ==> AtBlock(crcTable, plan, i + 1, input.Rest(), text, sum, blockSize100k)
      modifies this`stage, this`written, this`combinedCRC, this`i, this`log
      ensures Valid() && stage.BlockStart? && Out() == text
    {
      ghost var rest := input.Rest();
      log, written, combinedCRC, stage, i := more, text, sum, BlockStart, i + 1;
      assert input.Rest() == rest;
      SealedAtBlock();
    }

    /** At a block's start or before; counts turns that write nothing. */
    ghost function Turns(): (r: nat)
      reads this, unpacker
    {
      if stage.Output? && unpacker != null && unpacker.out == [] then 0 else 1
    }

    /** Writes out the present block; ret is what to return, if the block is not done. */
    method Empty(room: nat) returns (ret: Option<Ret>, avail: nat)
      requires Valid() && stage.Output?
      modifies this`stage, this`written, this`combinedCRC, this`i, this`log, unpacker, unpacker.source.Object()
      ensures ret != Some(DataError) ==> Valid() && |Out()| + avail == |old(Out())| + room && old(Out()) <= Out()
      ensures ret.None? ==> stage.BlockStart? && (old(unpacker.out) == [] ==> avail < room)
      ensures ret.Some? ==> (ret.value == Ok && avail == 0 && stage.Output?) || ret.value == DataError
      ensures plan.expected ==> ret != Some(DataError)
    {
      var corrupt;
      corrupt, avail := Write(room);
      if corrupt { return Some(DataError), avail; }
      if !(unpacker.nblockUsed == unpacker.saveNblock + 1 && unpacker.stateOutLen == 0) { return Some(Ok), avail; }
      var ok := EndBlock();
      ret := if ok then None else Some(DataError);
    }

    /** Reads up to the next block's text; ret is what to return, if there is none. */
    method Read() returns (ret: Option<Ret>)
      requires Valid() && (stage.Magic? || stage.BlockStart?)
      modifies this, input, input.reader
      ensures ret != Some(DataError) ==> Valid()
      ensures fresh(Repr - old(Repr)) && Out() == old(Out())
      ensures ret.None? ==> stage.Output? && unpacker.out == []
      ensures plan.expected ==> ret.None? || (ret == Some(StreamEnd) && stage.Ended?)
      ensures ret == Some(StreamEnd) ==> stage.Ended? && Genuine(crcTable, all, Out())
      ensures ret == Some(Ok) || ret == Some(Ret.Overrun) ==> stage == Stalled(ret.value)
      ensures ret != Some(SequenceError)
    {
      if stage.Magic? {
        var ok, bad := Begin();
        if !ok { return Some(if bad then DataError else Ok); }
      }
      var r := Next();
      ret := if stage.Output? then None else Some(r);
    }

    /** One turn of the loop; ret is what to return, if the loop ends. */
    method Turn(room: nat) returns (ret: Option<Ret>, avail: nat)
      requires Valid() && !stage.Ended?
      modifies Repr
      ensures fresh(Repr - old(Repr))
      ensures ret != Some(DataError) ==> Valid() && |Out()| + avail == |old(Out())| + room && old(Out()) <= Out()
      ensures ret.None? ==> stage.Output? && (avail < room || Turns() < old(Turns()))
      ensures ret == Some(StreamEnd) ==> stage.Ended? && Genuine(crcTable, all, Out())
      ensures ret == Some(Ok) ==> (stage.Output? && avail == 0) || stage == Stalled(Ok)
      ensures ret == Some(Ret.Overrun) ==> stage == Stalled(Ret.Overrun)
      ensures ret != Some(SequenceError)
      ensures plan.expected ==> ret.None? || (ret.value == Ok && stage.Output?) || (ret.value == StreamEnd && stage.Ended?)
      ensures plan.expected && ret == Some(StreamEnd) ==> Out() == TextTo(plan.ps, |plan.ps|)
    {
      avail := room;
      if plan.expected { NotStalled(); }
      if stage.Stalled? { return Some(stage.ret), avail; }
      if stage.Output? {
        ret, avail := Empty(room);
        if ret.Some? { return; }
      }
      ret := Read();
      if plan.expected { NotStalled(); }
    }

    /** One call with room for output (BZ2_bzDecompress). On a compressed stream it never fails, returns
        Ok only when the room is used up, and ends exactly when all of the text is out. On any input, Ok means that the
        room is used up or the input has run out, and the stream ends only if all checksums stored in what has been read
        are those of the text delivered. */
    method BzDecompress(room: nat) returns (ret: Ret)
      requires Valid()
      modifies Repr
      ensures fresh(Repr - old(Repr)) && (ret != DataError ==> Valid() && |Out()| <= |old(Out())| + room && old(Out()) <= Out())
      ensures ret == SequenceError <==> old(stage).Ended?
      ensures ret == StreamEnd ==> stage.Ended? && Genuine(crcTable, all, Out())
      ensures ret == Ok ==> (stage.Output? && |Out()| == |old(Out())| + room) || (stage == Stalled(Ok) && |input.Rest()| < 24)
      ensures ret == Ret.Overrun ==> stage == Stalled(Ret.Overrun)
      ensures plan.expected ==> ret != DataError && ret != Ret.Overrun && (ret == SequenceError ==> old(stage).Ended?)
      ensures plan.expected && ret == Ok ==> |Out()| == |old(Out())| + room && !stage.Ended?
      ensures plan.expected && ret == StreamEnd ==> Out() == TextTo(plan.ps, |plan.ps|)
    {
      var avail := room;
      while true
        invariant Valid() && fresh(Repr - old(Repr)) && |Out()| + avail == |old(Out())| + room && old(Out()) <= Out()
        invariant old(stage).Ended? ==> stage.Ended?
        invariant stage.Ended? ==> old(stage).Ended?
        decreases avail, Turns()
      {
        var r;
        if stage.Ended? { return SequenceError; }
        r, avail := Turn(avail);
        if r.Some? { return r.value; }
      }
    }

    /** At any time what has been delivered is a beginning of the text. */
    lemma OutPrefix()
      requires Valid() && plan.expected
      ensures Out() <= TextTo(plan.ps, |plan.ps|)
    {
      assert Unseal(0);
      assert Unfold(0);
      match stage {
        case BlockStart =>
          TextGrows(plan.ps, i, |plan.ps|);
        case Output =>
          NoTruncation(crcTable, plan, i, input.Rest(), written, combinedCRC, blockSize100k, unpacker.b,
              storedBlockCRC);
          ProgressPrefix(unpacker.b, unpacker.out, unpacker.stateOutCh, unpacker.stateOutLen, unpacker.nblockUsed,
              unpacker.k0);
          TextGrows(plan.ps, i + 1, |plan.ps|);
        case Magic =>
        case Ended =>
        case Stalled(_) =>
      }
    }
  }

  lemma {:induction false} TextGrows(ps: seq<Piece>, i: nat, n: nat)
    requires i <= n <= |ps|
    ensures TextTo(ps, i) <= TextTo(ps, n)
  {
    if i < n {
      TextGrows(ps, i, n - 1);
    }
  }

  /** The plan that a compressed stream follows. */
  ghost function PlanFor(table: seq<bv32>, d: seq<byte>, text: seq<byte>): (plan: Plan) {
    if Compressed(table, d, text)
    then var bs, ps, pad :| StreamOf(table, d, text, bs, ps, pad); Plan(true, bs, ps, pad)
    else Plan(false, 1, [], 0)
  }

  lemma {:induction false} PlanStarts(table: seq<bv32>, d: seq<byte>, text: seq<byte>)
    requires |table| == 256
    ensures var plan := PlanFor(table, d, text);
            plan.expected == Compressed(table, d, text)
                && (plan.expected ==> AtStart(table, plan, ByteBits(d)) && TextTo(plan.ps, |plan.ps|) == text)
  {
    if Compressed(table, d, text) {
      var plan := PlanFor(table, d, text);
      assert StreamOf(table, d, text, plan.blockSize100k, plan.ps, plan.pad);
    }
  }
}
