/** The whole compressed stream: header, blocks, trailer (compress.c, decompress.c). */
module StreamFormat {
  import opened Common
  import opened RunLength
  import opened UnRunLength
  import opened BitStream
  import opened BlockFormat
  import opened BlockCodec

  const END_MARK: seq<byte> := [0x17, 0x72, 0x45, 0x38, 0x50, 0x90]

  function StartMark(blockSize100k: int): (r: seq<byte>)
    requires 1 <= blockSize100k <= 9
    ensures |r| == 4
  {
    [0x42, 0x5A, 0x68, 0x30 + blockSize100k]
  }

  /** A checksum as a number. */
  function CrcWord(c: bv32): (r: nat)
    ensures r < 0x1_0000_0000
  {
    c as int
  }

  /** The checksum stored with a block (BZ_FINALISE_CRC). */
  function FinalCrc(c: bv32): bv32 {
    !c
  }

  /** Adds a block's checksum to the stream's. */
  function Combine(combined: bv32, crc: bv32): bv32 {
    ((combined << 1) | (combined >> 31)) ^ crc
  }

  /** A block in the stream and the coded text it carries. */
  datatype Piece = Piece(im: Image, b: seq<byte>, bits: seq<int>)

  ghost function Check(table: seq<bv32>, b: seq<byte>): bv32
    requires |table| == 256
  {
    FinalCrc(CrcOf(table, Expand(b)))
  }

  ghost predicate PieceOk(table: seq<bv32>, p: Piece, limit: int) {
    && |table| == 256
    && WellFormed(p.im) && p.bits == ImageBits(p.im) && Carries(p.im, p.b) && |p.b| <= limit && !Truncated(p.b)
    && p.im.crc == CrcWord(Check(table, p.b))
  }

  ghost predicate PiecesOk(table: seq<bv32>, ps: seq<Piece>, limit: int) {
    |table| == 256 && forall i {:trigger PieceOk(table, ps[i], limit)} :: 0 <= i < |ps| ==> PieceOk(table, ps[i], limit)
  }

  /** The checksum of the first i blocks. */
  ghost function CombinedTo(table: seq<bv32>, ps: seq<Piece>, i: nat): bv32
    requires |table| == 256 && i <= |ps|
  {
    if i == 0 then 0 else Combine(CombinedTo(table, ps, i - 1), Check(table, ps[i - 1].b))
  }

  /** The text of the first i blocks. */
  ghost function TextTo(ps: seq<Piece>, i: nat): (r: seq<byte>)
    requires i <= |ps|
  {
    if i == 0 then [] else TextTo(ps, i - 1) + Expand(ps[i - 1].b)
  }

  /** The bits of the blocks from the i-th on. */
  ghost function PieceBits(ps: seq<Piece>, i: nat): (r: seq<int>)
    decreases |ps| - i
  {
    if i >= |ps| then [] else ps[i].bits + PieceBits(ps, i + 1)
  }

  ghost function Trailer(combined: bv32): (r: seq<int>) {
    ByteBits(END_MARK) + ByteBits(Word(CrcWord(combined)))
  }

  ghost function WholeBits(table: seq<bv32>, blockSize100k: int, ps: seq<Piece>): (r: seq<int>)
    requires 1 <= blockSize100k <= 9 && |table| == 256
  {
    ByteBits(StartMark(blockSize100k)) + PieceBits(ps, 0) + Trailer(CombinedTo(table, ps, |ps|))
  }

  /** d is a complete stream of the blocks ps, padded to whole bytes, and text is what they stand for. */
  ghost predicate StreamOf(table: seq<bv32>, d: seq<byte>, text: seq<byte>, blockSize100k: int, ps: seq<Piece>,
      pad: nat) {
    && |table| == 256 && 1 <= blockSize100k <= 9 && pad < 8 && PiecesOk(table, ps, 100000 * blockSize100k)
    && ByteBits(d) == WholeBits(table, blockSize100k, ps) + Bits(0, pad)
    && text == TextTo(ps, |ps|)
  }

  /** d is a compressed form of text. */
  ghost predicate Compressed(table: seq<bv32>, d: seq<byte>, text: seq<byte>) {
    exists blockSize100k, ps, pad :: StreamOf(table, d, text, blockSize100k, ps, pad)
  }

  // ---------------------------------------------------------------- one more block

  lemma {:induction false} PrefixText(ps: seq<Piece>, p: Piece, i: nat)
    requires i <= |ps|
    ensures TextTo(ps + [p], i) == TextTo(ps, i)
  {
    if i > 0 {
      PrefixText(ps, p, i - 1);
    }
  }

  lemma {:induction false} PrefixCombined(table: seq<bv32>, ps: seq<Piece>, p: Piece, i: nat)
    requires |table| == 256 && i <= |ps|
    ensures CombinedTo(table, ps + [p], i) == CombinedTo(table, ps, i)
  {
    if i > 0 {
      PrefixCombined(table, ps, p, i - 1);
    }
  }

  lemma {:induction false} PrefixBits(ps: seq<Piece>, p: Piece, i: nat)
    requires i <= |ps|
    ensures PieceBits(ps + [p], i) == PieceBits(ps, i) + p.bits
    decreases |ps| - i
  {
    if i == |ps| {
      Nothing(p.bits);
      assert PieceBits(ps + [p], |ps| + 1) == [];
    } else {
      PrefixBits(ps, p, i + 1);
      Regroup(ps[i].bits, PieceBits(ps, i + 1), p.bits);
    }
  }

  lemma {:induction false} AppendOk(table: seq<bv32>, ps: seq<Piece>, p: Piece, limit: int)
    requires PiecesOk(table, ps, limit) && PieceOk(table, p, limit)
    ensures PiecesOk(table, ps + [p], limit)
  {
    var qs := ps + [p];
    forall i {:trigger PieceOk(table, qs[i], limit)} | 0 <= i < |qs|
      ensures PieceOk(table, qs[i], limit)
    {
      if i < |ps| { assert PieceOk(table, ps[i], limit); }
    }
  }

  lemma {:induction false} AppendPiece(table: seq<bv32>, ps: seq<Piece>, p: Piece)
    requires |table| == 256
    ensures TextTo(ps + [p], |ps| + 1) == TextTo(ps, |ps|) + Expand(p.b)
    ensures CombinedTo(table, ps + [p], |ps| + 1) == Combine(CombinedTo(table, ps, |ps|), Check(table, p.b))
    ensures PieceBits(ps + [p], 0) == PieceBits(ps, 0) + p.bits
  {
    PrefixText(ps, p, |ps|);
    PrefixCombined(table, ps, p, |ps|);
    PrefixBits(ps, p, 0);
  }
}
