/** The compressor as its caller sees it: BZ2_compressBlock (compress.c) and BZ2_bzCompress with
    copy_input_until_stop, copy_output_until_stop and handle_compress (bzlib.c). */
module Compressor {
  import opened Common
  import opened RunLength
  import opened UnRunLength
  import opened BitStream
  import opened MtfEncode
  import opened BlockFormat
  import opened BlockCodec
  import opened StreamFormat
  import opened BlockSize

  // ---------------------------------------------------------------- what has been written

  /** The blocks written, the bytes of earlier output buffers, whether header and trailer are out. */
  datatype Log = Log(pieces: seq<Piece>, base: seq<byte>, started: bool, finished: bool, pad: nat)

  ghost function SoFar(bs: int, log: Log): (r: seq<int>)
    requires 1 <= bs <= 9
  {
    if log.started then ByteBits(StartMark(bs)) + PieceBits(log.pieces, 0) else []
  }

  /** The writer holds exactly the bits that the log calls for. */
  ghost predicate Holds(table: seq<bv32>, bs: int, log: Log, zbits: seq<byte>, buff: int, live: int) {
    1 <= bs <= 9 && |table| == 256 && forall k {:trigger Unfold(k)} :: Unfold(k) ==> HoldsBits(table, bs, log, zbits, buff, live)
  }

  ghost predicate HoldsBits(table: seq<bv32>, bs: int, log: Log, zbits: seq<byte>, buff: int, live: int) {
    && 1 <= bs <= 9 && PiecesOk(table, log.pieces, 100000 * bs) && log.pad < 8 && (!log.started ==> log.pieces == [])
    && if log.finished
       then ByteBits(log.base + zbits) == WholeBits(table, bs, log.pieces) + Bits(0, log.pad)
       else TopHeld(buff, live) && ByteBits(log.base) + Held(zbits, buff, live) == SoFar(bs, log)
  }

  ghost predicate Logged(table: seq<bv32>, bs: int, log: Log, w: BitWriter)
    reads w
  {
    HoldsBits(table, bs, log, w.zbits, w.bsBuff, w.bsLive)
  }

  lemma Extend(a: seq<int>, b: seq<int>, c: seq<int>, x: seq<int>, y: seq<int>)
    requires a + b == c && y == b + x
    ensures a + y == c + x
  {
  }

  /** The stream header. */
  method PutStart(w: BitWriter, bs: int, ghost table: seq<bv32>, ghost log: Log) returns (ghost log': Log)
    requires Logged(table, bs, log, w) && !log.started && !log.finished
    modifies w
    ensures Logged(table, bs, log', w) && log' == log.(started := true)
    ensures w.Valid() && |w.Stream()| == |old(w.Stream())| + 32
  {
    ghost var s := w.Stream();
    PutBytes(w, StartMark(bs));
    log' := log.(started := true);
    Extend(ByteBits(log.base), s, [], ByteBits(StartMark(bs)), w.Stream());
    Nothing(ByteBits(StartMark(bs)));
    assert PieceBits([], 0) == [];
  }

  lemma {:induction false} MarksCovers(inUse: seq<bool>, b: seq<byte>)
    requires Marks(inUse, b)
    ensures Covers(inUse, b)
  {
    forall k | 0 <= k < |b|
      ensures inUse[b[k]]
    {
      assert Occurs(b, b[k]);
    }
  }

  /** One block that is not empty. */
  method PutPiece(w: BitWriter, bs: int, block: seq<byte>, inUse: seq<bool>, crc: bv32, workFactor: int,
      ghost table: seq<bv32>, ghost log: Log) returns (ghost log': Log)
    requires Logged(table, bs, log, w) && log.started && !log.finished
    requires 0 < |block| <= 100000 * bs && Marks(inUse, block) && !Truncated(block) && crc == Check(table, block)
    modifies w
    ensures Logged(table, bs, log', w)
    ensures |log'.pieces| == |log.pieces| + 1 && log' == log.(pieces := log'.pieces)
    ensures TextTo(log'.pieces, |log'.pieces|) == TextTo(log.pieces, |log.pieces|) + Expand(block)
    ensures CombinedTo(table, log'.pieces, |log'.pieces|) == Combine(CombinedTo(table, log.pieces, |log.pieces|), crc)
    ensures w.Valid() && |w.Stream()| <= |old(w.Stream())| + 168829 + 20 * |block|
  {
    ghost var s := w.Stream();
    MarksCovers(inUse, block);
    ghost var im := CompressBlock(w, block, inUse, CrcWord(crc), workFactor);
    ImageLength(im, block);
    ghost var p := Piece(im, block, ImageBits(im));
    log' := log.(pieces := log.pieces + [p]);
    Extend(ByteBits(log.base), s, SoFar(bs, log), p.bits, w.Stream());
    AppendOk(table, log.pieces, p, 100000 * bs);
    AppendPiece(table, log.pieces, p);
    Regroup(ByteBits(StartMark(bs)), PieceBits(log.pieces, 0), p.bits);
  }

  /** The stream trailer and the padding to a whole byte. */
  method PutTrailer(w: BitWriter, bs: int, combined: bv32, ghost table: seq<bv32>, ghost log: Log)
      returns (ghost log': Log)
    requires Logged(table, bs, log, w) && log.started && !log.finished
        && combined == CombinedTo(table, log.pieces, |log.pieces|)
    modifies w
    ensures Logged(table, bs, log', w) && log' == log.(finished := true, pad := log'.pad)
    ensures 8 * |w.zbits| <= |old(w.Stream())| + 87 && |w.zbits| > 0
  {
    ghost var s := w.Stream();
    PutBytes(w, END_MARK);
    Regroup(s, ByteBits(END_MARK), ByteBits(Word(CrcWord(combined))));
    PutBytes(w, Word(CrcWord(combined)));
    Extend(ByteBits(log.base), s, SoFar(bs, log), Trailer(combined), w.Stream());
    ghost var all := w.Stream();
    ghost var pad := w.Finish();
    log' := log.(finished := true, pad := pad);
    ByteBitsConcat(log.base, w.zbits);
    Extend(ByteBits(log.base), all, WholeBits(table, bs, log.pieces), Bits(0, pad), ByteBits(w.zbits));
  }

  /** Writes a block, with the stream header before the first and the trailer after the last (BZ2_compressBlock). */
  method WriteBlock(w: BitWriter, bs: int, first: bool, block: seq<byte>, inUse: seq<bool>, crc: bv32, combined0: bv32,
      last: bool, workFactor: int,
                    ghost table: seq<bv32>, ghost log: Log) returns (combined: bv32, ghost log': Log)
    requires Logged(table, bs, log, w) && !log.finished && first == !log.started
        && combined0 == CombinedTo(table, log.pieces, |log.pieces|)
    requires |block| <= 100000 * bs && Marks(inUse, block) && !Truncated(block) && crc == Check(table, block)
    modifies w
    ensures Logged(table, bs, log', w) && log'.started && log'.finished == last && log'.base == log.base
    ensures combined == CombinedTo(table, log'.pieces, |log'.pieces|)
    ensures TextTo(log'.pieces, |log'.pieces|) == TextTo(log.pieces, |log.pieces|) + Expand(block)
    ensures 8 * |w.zbits| <= |old(w.Stream())| + 32 + (168829 + 20 * |block|) + 87 && (last ==> |w.zbits| > 0)
  {
    combined, log' := combined0, log;
    ghost var text := TextTo(log.pieces, |log.pieces|);
    if first {
      log' := PutStart(w, bs, table, log');
    }
    if |block| > 0 {
      combined := Combine(combined, crc);
      log' := PutPiece(w, bs, block, inUse, crc, workFactor, table, log');
    } else {
      assert Expand([]) == [] && text + [] == text;
    }
    if last {
      log' := PutTrailer(w, bs, combined, table, log');
    }
  }

  /** The output buffer is used again for the next block. */
  method RestartBuffer(w: BitWriter, bs: int, ghost table: seq<bv32>, ghost log: Log) returns (ghost log': Log)
    requires Logged(table, bs, log, w) && !log.finished
    modifies w
    ensures Logged(table, bs, log', w) && w.zbits == [] && log' == log.(base := log.base + old(w.zbits))
  {
    ghost var z := w.zbits;
    ByteBitsConcat(log.base, z);
    w.Restart();
    log' := log.(base := log.base + z);
    Regroup(ByteBits(log.base), ByteBits(z), w.Stream());
  }

  // ---------------------------------------------------------------- the state machine

  datatype Mode = Idle | Running | Flushing | Finishing
  datatype Phase = Filling | Draining  // BZ_S_INPUT, BZ_S_OUTPUT
  datatype Action = Run | Flush | Finish
  datatype Ret = RunOk | FlushOk | FinishOk | StreamEnd | SequenceError | ParamError

  /** The text of a run not yet stored. */
  ghost function RunText(ch: int, len: int): (r: seq<byte>)
    requires 0 <= ch <= 256 && len >= 0
  {
    if ch < 256 then Rep(ch, len) else []
  }

  lemma MoveOne(done: seq<byte>, waiting: seq<byte>, taken: seq<byte>, next: seq<byte>)
    requires next != []
    ensures done + (waiting + [next[0]]) == (done + waiting) + [next[0]]
    ensures (taken + [next[0]]) + next[1..] == taken + next
  {
  }

  lemma DeliverOne(base: seq<byte>, z: seq<byte>, pos: nat)
    requires pos < |z|
    ensures base + z[..pos + 1] == (base + z[..pos]) + [z[pos]]
  {
  }

  lemma DeliverNone(base: seq<byte>, z: seq<byte>)
    ensures z[..0] == [] && base + [] == base
  {
  }

  lemma DeliverAll(base: seq<byte>, z: seq<byte>)
    ensures z[..|z|] == z && (base + z) + [] == base + z
  {
  }

  lemma NewWaiting(ch: int, len: int)
    requires 0 <= ch <= 256 && len >= 0
    ensures Standing([], ch, len) == RunText(ch, len)
  {
    assert Expand([]) == [];
  }

  /** The text of the block under construction, if it is not written yet, and of the pending run. */
  ghost predicate Waits(phase: Phase, b: seq<byte>, ch: int, len: int, waiting: seq<byte>) {
    0 <= ch <= 256 && len >= 0 && forall k {:trigger Unfold(k)} :: Unfold(k) ==>
      waiting == if phase.Filling? then Standing(b, ch, len) else RunText(ch, len)
  }

  lemma RunWaits(b: seq<byte>, ch: int, len: int)
    requires 0 <= ch <= 256 && len >= 0
    ensures Waits(Draining, b, ch, len, RunText(ch, len))
  {
  }

  /** Marks and checksum fit the block, which is complete and stands for text. */
  ghost predicate Writable(table: seq<bv32>, b: seq<byte>, inUse: seq<bool>, crc: bv32, text: seq<byte>) {
    |table| == 256 && forall k {:trigger Unfold(k)} :: Unfold(k) ==>
      Marks(inUse, b) && !Truncated(b) && FinalCrc(crc) == Check(table, b) && text == Expand(b)
  }

  ghost predicate InStep(base: seq<byte>, zbits: seq<byte>, pos: int, out: seq<byte>) {
    0 <= pos <= |zbits| && out == base + zbits[..pos]
  }

  ghost predicate Totals(table: seq<bv32>, ps: seq<Piece>, written: seq<byte>, combined: bv32) {
    |table| == 256 && forall k {:trigger Unfold(k)} :: Unfold(k) ==> written == TextTo(ps, |ps|) && combined == CombinedTo(table, ps, |ps|)
  }

  /** The room for the output of all blocks that so many characters can fill, the one begun included. */
  ghost function RoomFor(room: int, m: int, chars: int): (r: int) {
    assert m >= 1 ==> IsRoom(room, m, chars, room * (1 + chars / m));
    var r :| m >= 1 ==> IsRoom(room, m, chars, r);
    r
  }

  ghost predicate IsRoom(room: int, m: int, chars: int, r: int) {
    m >= 1 && forall k {:trigger Open(k)} :: Open(k) ==> r == room * (1 + chars / m)
  }

  /** A block is written that was reckoned with. */
  lemma {:induction false} BlockFewer(room: nat, m: nat, before: nat, after: nat)
    requires m >= 1 && before >= after + m
    ensures room + RoomFor(room, m, after) <= RoomFor(room, m, before)
  {
    assert Open(0);
    Quotients(after + m, before, m);
    NextQuotient(after, m);
    Scaled(room, 2 + after / m, 1 + before / m);
  }

  lemma {:induction false} LastBlock(room: nat, m: nat, before: nat)
    requires m >= 1
    ensures room <= RoomFor(room, m, before)
  {
    assert Open(0);
    Scaled(room, 1, 1 + before / m);
  }

  lemma {:induction false} BlocksMonotone(room: nat, m: nat, before: nat, after: nat)
    requires m >= 1 && after <= before
    ensures RoomFor(room, m, after) <= RoomFor(room, m, before)
  {
    assert Open(0);
    Quotients(after, before, m);
    Scaled(room, 1 + after / m, 1 + before / m);
  }

  lemma Scaled(room: nat, x: int, y: int)
    requires x <= y
    ensures room * x <= room * y
  {
    assert room * (y - x) >= 0;
  }

  lemma {:induction false} Quotients(x: int, y: int, m: nat)
    requires m >= 1 && 0 <= x <= y
    ensures 0 <= x / m <= y / m
  {
    var a, b := x / m, y / m;
    assert a * m <= x && y < b * m + m;
    if b < a { Scaled(m, b + 1, a); }
  }

  lemma {:induction false} NextQuotient(x: nat, m: nat)
    requires m >= 1
    ensures (x + m) / m == 1 + x / m
  {
    var a, b := x / m, (x + m) / m;
    assert a * m <= x < a * m + m && b * m <= x + m < b * m + m;
    if b < 1 + a { Scaled(m, b + 1, 1 + a); }
    if b > 1 + a { Scaled(m, 2 + a, b); }
  }

  lemma AllRoom(bs: int)
    requires 1 <= bs
    ensures forall n: nat :: RoomFor(OutputRoom(bs, 0), 100000 * bs - 19, 5 * n) == MostOutput(bs, n)
  {
    assert Open(0);
  }

  /** The most output there can be for n bytes of input. */
  function MostOutput(blockSize100k: int, n: nat): (r: int)
    requires blockSize100k >= 1
  {
    OutputRoom(blockSize100k, 0) * (1 + 5 * n / (100000 * blockSize100k - 19))
  }

  class Compression {
    const enc: Encoder
    const w: BitWriter
    const blockSize100k: int
    const workFactor: int
    var mode: Mode
    var phase: Phase
    var availInExpect: nat
    var blockNo: nat
    var combinedCRC: bv32
    var stateOutPos: nat
    var nextIn: seq<byte>   // the caller's input not yet taken
    var availOut: nat       // room left for output
    var out: seq<byte>      // everything delivered, over all calls
    ghost var taken: seq<byte>  // everything taken in, over all calls
    ghost var written: seq<byte>  // the text of the blocks written
    ghost var waiting: seq<byte>  // the text taken in that is in no written block yet
    ghost var log: Log

    ghost predicate Sized()
      reads this`phase, enc
    {
      && 1 <= blockSize100k <= 9 && enc.nblockMAX == 100000 * blockSize100k - 19
          && enc.block.Length == 100000 * blockSize100k
      && 0 <= enc.nblock <= 100000 * blockSize100k - 10
      && (phase.Filling? ==> enc.nblock <= enc.nblockMAX + 4)
    }

    /** How mode and phase go together. */
    ghost predicate Ordered()
      reads this`mode, this`phase, this`availInExpect, this`blockNo, this`stateOutPos, this`log, enc, w
    {
      && blockNo >= 1 && (log.started <==> blockNo > 1 || phase.Draining?)
      && (phase.Filling? ==> !log.finished && w.zbits == [] && (enc.stateInCh == 256 ==> enc.nblock == 0))
      && (log.finished ==> (mode.Finishing? || mode.Idle?) && enc.stateInCh == 256 && availInExpect == 0)
      && (phase.Draining? && !log.finished && enc.stateInCh == 256 ==> mode.Flushing? && availInExpect == 0)
      && (mode.Idle? ==> log.finished && stateOutPos == |w.zbits|)
    }

    /** What has been taken in is in the blocks written or waiting. */
    ghost predicate Accounted()
      reads this`phase, this`taken, this`written, this`waiting, enc, enc.block
    {
      && 0 <= enc.nblock <= enc.block.Length && taken == written + waiting
      && Waits(phase, enc.Block(), enc.stateInCh, enc.stateInLen, waiting)
    }

    /** What has been written is delivered or about to be. */
    ghost predicate Delivering()
      reads this`log, this`written, this`combinedCRC, this`stateOutPos, this`out, w
    {
      && Totals(enc.crcTable, log.pieces, written, combinedCRC)
      && Holds(enc.crcTable, blockSize100k, log, w.zbits, w.bsBuff, w.bsLive)
      && InStep(log.base, w.zbits, stateOutPos, out)
    }

    ghost predicate Sound()
      reads this, enc, enc.block, enc.inUse, w
    {
      enc.Valid() && Sized() && Ordered() && Accounted() && Delivering()
    }

    /** Once the trailer is written, some output is still to be delivered. */
    ghost predicate Owing()
      reads this`mode, this`stateOutPos, this`log, w`zbits
    {
      log.finished ==> stateOutPos < |w.zbits|
    }

    ghost predicate Valid()
      reads this, enc, enc.block, enc.inUse, w
    {
      Sound() && (mode.Idle? || Owing())
    }

    /** The call does not go with what has been asked for before. */
    ghost predicate Refused(action: Action, len: nat)
      reads this`mode, this`availInExpect
    {
      match mode
      case Idle => true
      case Running => false
      case Flushing => !action.Flush? || availInExpect != len
      case Finishing => !action.Finish? || availInExpect != len
    }

    /** How much output is still to be delivered at most, if n more bytes of input are taken; a byte adds at most five
        to a block. */
    ghost function OutputAhead(n: nat): (r: int)
      reads this`phase, this`stateOutPos, enc, w`zbits
    {
      |w.zbits| - stateOutPos +
        if phase.Draining? && enc.stateInCh == 256 then 0
        else RoomFor(OutputRoom(blockSize100k, 0), enc.nblockMAX, 5 * n + if phase.Filling? then enc.nblock else 0)
    }

    constructor (blockSize100k: int, workFactor: int, crcTable: seq<bv32>)
      requires 1 <= blockSize100k <= 9 && |crcTable| == 256
      ensures Valid() && taken == [] && out == [] && mode == Running && enc.crcTable == crcTable
      ensures enc.nblockMAX == 100000 * blockSize100k - 19
      ensures forall n: nat :: OutputAhead(n) == MostOutput(blockSize100k, n)
      ensures fresh(enc) && fresh(enc.block) && fresh(enc.inUse) && fresh(w)
    {
      enc := new Encoder(blockSize100k, crcTable);
      w := new BitWriter();
      this.blockSize100k, this.workFactor := blockSize100k, workFactor;
      mode, phase, availInExpect, blockNo, combinedCRC, stateOutPos := Running, Filling, 0, 1, 0, 0;
      nextIn, availOut, out, taken, written, waiting := [], 0, [], [], [], [];
      log := Log([], [], false, false, 0);
      new;
      AllRoom(blockSize100k);
      assert ByteBits([]) == [];
    }

    /** Ready for the next input byte. */
    ghost predicate Open()
      reads this`phase, this`taken, this`written, this`waiting, enc, enc.block, enc.inUse
    {
      enc.Valid() && Sized() && phase.Filling? && (enc.stateInCh == 256 ==> enc.nblock == 0) && Accounted()
    }

    /** Takes one input byte. */
    method TakeOne()
      requires Open() && nextIn != [] && enc.nblock < enc.nblockMAX
      modifies this`nextIn, this`taken, this`waiting, enc, enc.block, enc.inUse
      ensures Open() && taken + nextIn == old(taken + nextIn) && |nextIn| == |old(nextIn)| - 1
      ensures enc.stateInCh < 256 && enc.nblock <= old(enc.nblock) + 5
    {
      assert Unfold(0);
      var c := nextIn[0];
      enc.AddChar(c);
      MoveOne(written, waiting, taken, nextIn);
      taken, waiting := taken + [c], waiting + [c];
      nextIn := nextIn[1..];
    }

    /** Takes input until the block is full or there is no more to take (copy_input_until_stop). */
    method CopyInput() returns (progress: bool)
      requires Open() && (!mode.Running? ==> availInExpect == |nextIn|)
      modifies this`nextIn, this`taken, this`waiting, this`availInExpect, enc, enc.block, enc.inUse
      ensures Open() && taken + nextIn == old(taken + nextIn) && |nextIn| <= |old(nextIn)|
      ensures !mode.Running? ==> availInExpect == |nextIn|
      ensures mode.Running? ==> availInExpect == old(availInExpect)
      ensures enc.nblock >= enc.nblockMAX || nextIn == []
      ensures progress <==> |nextIn| < |old(nextIn)|
      ensures if progress then enc.stateInCh < 256 else enc.stateInCh == old(enc.stateInCh) && enc.nblock == old(enc.nblock)
      ensures 5 * |nextIn| + enc.nblock <= old(5 * |nextIn| + enc.nblock)
    {
      progress := false;
      while true
        invariant Open() && taken + nextIn == old(taken + nextIn) && |nextIn| <= |old(nextIn)|
        invariant !mode.Running? ==> availInExpect == |nextIn|
        invariant mode.Running? ==> availInExpect == old(availInExpect)
        invariant progress <==> |nextIn| < |old(nextIn)|
        invariant if progress then enc.stateInCh < 256 else enc.stateInCh == old(enc.stateInCh) && enc.nblock == old(enc.nblock)
        invariant 5 * |nextIn| + enc.nblock <= old(5 * |nextIn| + enc.nblock)
        decreases |nextIn|
      {
        if enc.nblock >= enc.nblockMAX { break; }
        if |nextIn| == 0 { break; }
        if !mode.Running? {
          if availInExpect == 0 { break; }
          availInExpect := availInExpect - 1;
        }
        progress := true;
        TakeOne();
      }
    }

    /** Delivers output until there is no room or no more of it (copy_output_until_stop). */
    method CopyOutput() returns (progress: bool)
      requires InStep(log.base, w.zbits, stateOutPos, out)
      modifies this`stateOutPos, this`availOut, this`out
      ensures InStep(log.base, w.zbits, stateOutPos, out) && old(out) <= out
          && |out| + availOut == old(|out| + availOut)
      ensures availOut == 0 || stateOutPos == |w.zbits|
      ensures progress <==> |out| > old(|out|)
    {
      progress := false;
      while true
        invariant InStep(log.base, w.zbits, stateOutPos, out) && old(out) <= out
            && |out| + availOut == old(|out| + availOut)
        invariant progress <==> |out| > old(|out|)
        decreases availOut
      {
        if availOut == 0 { break; }
        if stateOutPos >= |w.zbits| { break; }
        progress := true;
        DeliverOne(log.base, w.zbits, stateOutPos);
        out := out + [w.zbits[stateOutPos]];
        stateOutPos := stateOutPos + 1;
        availOut := availOut - 1;
      }
    }

    method ResetOutput()
      requires Delivering() && !log.finished && stateOutPos == |w.zbits|
      modifies this`stateOutPos, this`log, w
      ensures Delivering() && w.zbits == [] && log == old(log).(base := log.base)
    {
      assert Unfold(0);
      DeliverAll(log.base, w.zbits);
      log := RestartBuffer(w, blockSize100k, enc.crcTable, log);
      stateOutPos := 0;
    }

    method ResetInput()
      requires enc.Valid() && Sized() && Accounted() && phase.Draining?
      modifies this`phase, enc`nblock, enc`blockCRC, enc.inUse
      ensures Open() && enc.nblock == 0
    {
      assert Unfold(0);
      enc.NewBlock();
      NewWaiting(enc.stateInCh, enc.stateInLen);
      phase := Filling;
    }

    /** Begins the next block; the pending run is carried over (prepare_new_block). */
    method PrepareNewBlock()
      requires enc.Valid() && Sized() && Accounted() && Delivering() && phase.Draining? && !log.finished
          && stateOutPos == |w.zbits|
      modifies this`stateOutPos, this`blockNo, this`phase, this`log, enc`nblock, enc`blockCRC, enc.inUse, w
      ensures Open() && Delivering() && enc.nblock == 0 && w.zbits == [] && blockNo == old(blockNo) + 1
      ensures log == old(log).(base := log.base)
    {
      ResetOutput();
      ResetInput();
      blockNo := blockNo + 1;
    }

    /** The block can be written, and stands for text. */
    ghost predicate Complete(text: seq<byte>)
      reads enc, enc.block, enc.inUse
    {
      && 0 <= enc.nblock <= enc.block.Length <= 100000 * blockSize100k
      && Writable(enc.crcTable, enc.Block(), enc.inUse[..], enc.blockCRC, text)
    }

    /** Writes the block under construction, with the header if it is the first and the trailer if it is
        the last. */
    method CompressTheBlock(last: bool, ghost text: seq<byte>)
      requires Complete(text) && Delivering() && !log.finished && (log.started <==> blockNo > 1) && blockNo >= 1
          && w.zbits == []
      modifies this`combinedCRC, this`log, this`written, w
      ensures Delivering() && log.started && log.finished == last && stateOutPos == 0 && written == old(written) + text
      ensures |w.zbits| <= OutputRoom(blockSize100k, enc.nblock) && (last ==> |w.zbits| > 0)
    {
      assert Unfold(0);
      DeliverNone(log.base, w.zbits);
      var combined, log' := WriteBlock(w, blockSize100k, blockNo == 1, enc.block[..enc.nblock], enc.inUse[..],
          FinalCrc(enc.blockCRC),
                                       combinedCRC, last, workFactor, enc.crcTable, log);
      DeliverNone(log.base, w.zbits);
      OutputFits(8 * |w.zbits|, blockSize100k, enc.nblock);
      combinedCRC, log, written := combined, log', TextTo(log'.pieces, |log'.pieces|);
    }

    /** Stores the pending run (flush_RL). */
    method EndRun() returns (ghost text: seq<byte>)
      requires Open()
      modifies this`phase, this`waiting, enc, enc.block, enc.inUse
      ensures enc.Valid() && Complete(text) && Sized() && phase.Draining? && enc.stateInCh == 256
          && taken == written + text
      ensures waiting == [] && Waits(phase, enc.Block(), enc.stateInCh, enc.stateInLen, waiting)
    {
      assert Unfold(0);
      enc.Flush();
      phase := Draining;
      text := Expand(enc.Block());
      waiting := [];
    }

    /** Stores the pending run and writes the block, the last one when finishing. */
    method FlushBlock()
      requires Open() && Delivering() && w.zbits == [] && (log.started <==> blockNo > 1) && blockNo >= 1
          && !log.finished
      modifies this`combinedCRC, this`log, this`written, this`waiting, this`phase, w, enc, enc.block, enc.inUse
      ensures enc.Valid() && Sized() && Accounted() && Delivering() && phase.Draining? && log.started
          && stateOutPos == 0
      ensures log.finished == mode.Finishing? && enc.stateInCh == 256
      ensures |w.zbits| <= OutputRoom(blockSize100k, 0) && (log.finished ==> |w.zbits| > 0)
    {
      ghost var text := EndRun();
      CompressTheBlock(mode.Finishing?, text);
      NothingAdded(written);
    }

    lemma CarryOver() returns (text: seq<byte>)
      requires Open()
      ensures Complete(text) && taken == (written + text) + RunText(enc.stateInCh, enc.stateInLen)
    {
      assert Unfold(0);
      text := Expand(enc.Block());
      Carried(written, text, enc.stateInCh, enc.stateInLen);
    }

    /** Writes a full block; the pending run goes into the next one. */
    method FullBlock()
      requires Open() && Delivering() && w.zbits == [] && (log.started <==> blockNo > 1) && blockNo >= 1
          && !log.finished
      modifies this`combinedCRC, this`log, this`written, this`waiting, this`phase, w
      ensures enc.Valid() && Sized() && Accounted() && Delivering() && phase.Draining? && log.started
          && stateOutPos == 0
      ensures !log.finished && |w.zbits| <= OutputRoom(blockSize100k, 0)
    {
      ghost var text := CarryOver();
      CompressTheBlock(false, text);
      waiting := RunText(enc.stateInCh, enc.stateInLen);
      RunWaits(enc.Block(), enc.stateInCh, enc.stateInLen);
      phase := Draining;
    }

    predicate NoRun()  // isempty_RL
      reads enc
    {
      !(enc.stateInCh < 256 && enc.stateInLen > 0)
    }

    /** While flushing or finishing, exactly the announced input is left. */
    ghost predicate Announced()
      reads this`mode, this`availInExpect, this`nextIn
    {
      !mode.Idle? && (!mode.Running? ==> availInExpect == |nextIn|)
    }

    /** Delivers output. */
    method Deliver() returns (progress: bool)
      requires Sound() && !mode.Idle?
      modifies this`stateOutPos, this`availOut, this`out
      ensures Sound() && old(out) <= out && |out| + availOut == old(|out| + availOut)
      ensures availOut == 0 || stateOutPos == |w.zbits|
      ensures |out| - stateOutPos == old(|out| - stateOutPos)
      ensures progress <==> |out| > old(|out|)
    {
      progress := CopyOutput();
    }

    /** Begins the next block. */
    method NextBlock()
      requires Sound() && phase.Draining? && !log.finished && stateOutPos == |w.zbits|
      modifies this`stateOutPos, this`blockNo, this`phase, this`log, enc`nblock, enc`blockCRC, enc.inUse, w
      ensures Sound() && phase.Filling? && enc.nblock == 0 && !log.finished
    {
      PrepareNewBlock();
    }

    /** What is delivered, and what can be delivered still, is no more than before. */
    twostate predicate WithinRoom()
      reads this`phase, this`stateOutPos, this`nextIn, this`out, enc, w`zbits
    {
      |out| + OutputAhead(|nextIn|) <= old(|out|) + old(OutputAhead(|nextIn|))
    }

    /** Delivers output; once all of it is out, begins the next block or stops. */
    method Drain() returns (stop: bool, progress: bool)
      requires Sound() && phase.Draining? && Announced()
      modifies this`stateOutPos, this`availOut, this`out, this`blockNo, this`phase, this`log, enc`nblock, enc`blockCRC,
          enc.inUse, w
      ensures Sound() && old(out) <= out && |out| + availOut == old(|out| + availOut)
      ensures progress <==> |out| > old(|out|)
      ensures stop ==> Stopped(progress || !old(Owing())) && (phase.Draining? || mode.Flushing?)
      ensures !stop ==> phase.Filling? && enc.nblock == 0 && (availInExpect == 0 && !mode.Running? ==> !NoRun())
      ensures !stop || phase.Draining? ==> WithinRoom()
    {
      progress := Deliver();
      if stateOutPos < |w.zbits| { return true, progress; }
      if mode.Finishing? && availInExpect == 0 && NoRun() { return true, progress; }
      NextBlock();
      stop := mode.Flushing? && availInExpect == 0 && NoRun();
    }

    /** Writes the last block of a flush or of the stream. */
    method WriteFlushed()
      requires Sound() && phase.Filling? && (mode.Flushing? || mode.Finishing?) && availInExpect == 0
      modifies this`combinedCRC, this`log, this`written, this`waiting, this`phase, w, enc, enc.block, enc.inUse
      ensures Sound() && Owing() && phase.Draining? && enc.stateInCh == 256 && NoRun()
      ensures WithinRoom()
    {
      ghost var before := enc.nblock;
      FlushBlock();
      LastBlock(OutputRoom(blockSize100k, 0), enc.nblockMAX, 5 * |nextIn| + before);
    }

    method WriteFull()
      requires Sound() && phase.Filling? && enc.nblock >= enc.nblockMAX
      modifies this`combinedCRC, this`log, this`written, this`waiting, this`phase, w
      ensures Sound() && Owing() && phase.Draining?
      ensures WithinRoom()
    {
      ghost var before := enc.nblock;
      FullBlock();
      BlockFewer(OutputRoom(blockSize100k, 0), enc.nblockMAX, 5 * |nextIn| + before, 5 * |nextIn|);
    }

    method Intake() returns (progress: bool)
      requires Open() && Ordered() && Announced()
      modifies this`nextIn, this`taken, this`waiting, this`availInExpect, enc, enc.block, enc.inUse
      ensures Open() && Ordered() && Announced() && taken + nextIn == old(taken + nextIn) && |nextIn| <= |old(nextIn)|
      ensures enc.nblock >= enc.nblockMAX || nextIn == []
      ensures progress <==> |nextIn| < |old(nextIn)|
      ensures !progress ==> enc.nblock == old(enc.nblock)
      ensures WithinRoom()
    {
      ghost var before := 5 * |nextIn| + enc.nblock;
      progress := CopyInput();
      BlocksMonotone(OutputRoom(blockSize100k, 0), enc.nblockMAX, before, 5 * |nextIn| + enc.nblock);
    }

    /** Takes input; when the block is full, or the announced input is used up, writes the block. */
    method Fill() returns (stop: bool, progress: bool)
      requires Sound() && phase.Filling? && Announced()
      modifies this`nextIn, this`taken, this`waiting, this`availInExpect, this`combinedCRC, this`log, this`written,
          this`waiting, this`phase
      modifies w, enc, enc.block, enc.inUse
      ensures Sound() && Owing() && Announced() && taken + nextIn == old(taken + nextIn) && |nextIn| <= |old(nextIn)|
      ensures progress <==> |nextIn| < |old(nextIn)|
      ensures if stop then mode.Running? && phase.Filling? && nextIn == [] else phase.Draining?
      ensures !stop && !progress && old(enc.nblock) == 0 ==> NoRun()
      ensures WithinRoom()
    {
      progress := Intake();
      if !mode.Running? && availInExpect == 0 {
        WriteFlushed();
        stop := false;
      } else if enc.nblock >= enc.nblockMAX {
        WriteFull();
        stop := false;
      } else {
        stop := true;
      }
    }

    ghost function Work(): (r: nat)
      reads this`phase, enc
    {
      (if NoRun() then 0 else 2) + (if phase.Filling? then 1 else 0)
    }

    /** What was left of input and room is used for what was taken and delivered. */
    twostate predicate Moved()
      reads this
    {
      && taken + nextIn == old(taken + nextIn) && |nextIn| <= old(|nextIn|)
      && old(out) <= out && |out| + availOut == old(|out| + availOut)
    }

    /** Why handle_compress stops: there is no more room for output that is waiting, or the stream is written and
        delivered, or a flush is complete, or there is no more input. */
    ghost predicate Stopped(progress: bool)
      reads this`mode, this`phase, this`stateOutPos, this`log, this`availOut, this`nextIn, this`availInExpect, enc, w`zbits
    {
      || (phase.Draining? && stateOutPos < |w.zbits| && availOut == 0)
      || (phase.Draining? && stateOutPos == |w.zbits| && mode.Finishing? && log.finished && progress)
      || (phase.Filling? && mode.Flushing? && availInExpect == 0 && NoRun())
      || (phase.Filling? && mode.Running? && nextIn == [])
    }

    /** One turn of handle_compress. */
    method Turn() returns (stop: bool, progress: bool)
      requires Sound() && Owing() && Announced()
      modifies this, enc, enc.block, enc.inUse, w
      ensures Sound() && Announced() && mode == old(mode) && Moved()
      ensures progress <==> |nextIn| < |old(nextIn)| || |out| > old(|out|)
      ensures if stop then Stopped(progress) else Owing() && (|nextIn| < old(|nextIn|) || Work() < old(Work()))
      ensures !(stop && phase.Filling? && mode.Flushing?) ==> WithinRoom()
    {
      progress := false;
      if phase.Draining? {
        stop, progress := Drain();
        if stop { return; }
      }
      var took;
      stop, took := Fill();
      progress := progress || took;
    }

    /** Takes input and delivers output as far as both go (handle_compress). */
    method HandleCompress() returns (progress: bool)
      requires Sound() && Owing() && Announced()
      modifies this, enc, enc.block, enc.inUse, w
      ensures Sound() && Announced() && mode == old(mode) && Moved()
      ensures progress <==> |nextIn| < |old(nextIn)| || |out| > old(|out|)
      ensures Stopped(progress)
      ensures !(phase.Filling? && mode.Flushing?) ==> WithinRoom()
    {
      progress := false;
      while true
        invariant Sound() && Owing() && Announced() && mode == old(mode) && Moved()
        invariant progress <==> |nextIn| < |old(nextIn)| || |out| > old(|out|)
        invariant WithinRoom()
        decreases |nextIn|, Work()
      {
        var stop, moved := Turn();
        progress := progress || moved;
        if stop { break; }
      }
    }

    /** The call's input and output are accounted for. */
    twostate predicate Conserved(input: seq<byte>, room: nat)
      reads this
    {
      taken + nextIn == old(taken) + input && old(out) <= out && |out| + availOut == old(|out|) + room
    }

    /** Something is still to be taken in, stored or delivered. */
    ghost predicate Unfinished()
      reads this, enc, w
    {
      nextIn != [] || !NoRun() || stateOutPos < |w.zbits|
    }

    /** The caller's input and room for this call. */
    method Offer(input: seq<byte>, room: nat)
      requires Sound()
      modifies this`nextIn, this`availOut
      ensures Sound() && nextIn == input && availOut == room
    {
      nextIn, availOut := input, room;
    }

    /** Nothing has been taken in or delivered. */
    twostate predicate Untouched()
      reads this
    {
      mode == old(mode) && availInExpect == old(availInExpect) && taken == old(taken) && out == old(out)
    }

    method Refuse(input: seq<byte>, room: nat) returns (ret: Ret)
      requires Valid()
      modifies this`nextIn, this`availOut
      ensures Valid() && nextIn == input && availOut == room && ret == SequenceError
    {
      Offer(input, room);
      ret := SequenceError;
    }

    /** A flush or the end of the stream is asked for: all of this call's input belongs to it. */
    method Announce(action: Action, len: nat)
      requires Sound() && mode.Running? && !action.Run?
      modifies this`mode, this`availInExpect
      ensures Sound() && availInExpect == len && mode == if action.Flush? then Flushing else Finishing
    {
      availInExpect := len;
      mode := if action.Flush? then Flushing else Finishing;
    }

    /** The output of this call and what can follow it is no more than was to be expected before the call. */
    twostate predicate WithinRoomFor(n: nat)
      reads this`phase, this`stateOutPos, this`nextIn, this`out, enc, w`zbits
    {
      |out| + OutputAhead(|nextIn|) <= old(|out|) + old(OutputAhead(n))
    }

    /** Takes this call's input and uses its room as far as both go. */
    method Proceed(input: seq<byte>, room: nat) returns (progress: bool)
      requires Sound() && Owing() && !mode.Idle? && (!mode.Running? ==> availInExpect == |input|)
      modifies this, enc, enc.block, enc.inUse, w
      ensures Sound() && Announced() && mode == old(mode) && Conserved(input, room)
      ensures |nextIn| <= |input| && (progress <==> |nextIn| < |input| || |out| > old(|out|))
      ensures Stopped(progress)
      ensures !(phase.Filling? && mode.Flushing?) ==> WithinRoomFor(|input|)
    {
      Offer(input, room);
      progress := HandleCompress();
    }

    /** After a call to go on: the input is used up or the room is. */
    twostate predicate Ran(input: seq<byte>, ret: Ret)
      reads this
    {
      && mode.Running? && (nextIn == [] || availOut == 0)
      && ret == if |nextIn| < |input| || |out| > old(|out|) then RunOk else ParamError
    }

    /** After a call to flush: the room is used up and there is more to come, or the flush is complete. */
    ghost predicate Flushed(ret: Ret)
      reads this, enc, w
    {
      && (ret == FlushOk || ret == RunOk)
      && (ret == FlushOk ==> mode.Flushing? && Unfinished() && availOut == 0 && availInExpect == |nextIn|)
      && (ret == RunOk ==> mode.Running? && !Unfinished())
    }

    /** After a call to finish: the room is used up and there is more to come, or the stream is complete. A call that
        does neither take nor deliver anything has no room. */
    twostate predicate Ended(input: seq<byte>, ret: Ret)
      reads this, enc, w
    {
      && (ret == StreamEnd || ret == if |nextIn| < |input| || |out| > old(|out|) then FinishOk else SequenceError)
      && (ret == StreamEnd ==> mode.Idle? && !Unfinished() && Compressed(enc.crcTable, out, taken))
      && (ret != StreamEnd ==> mode.Finishing? && Unfinished() && availOut == 0 && availInExpect == |nextIn|)
    }

    method RunCall(input: seq<byte>, room: nat) returns (ret: Ret)
      requires Valid() && mode.Running?
      modifies this, enc, enc.block, enc.inUse, w
      ensures Valid() && Conserved(input, room) && Ran(input, ret) && WithinRoomFor(|input|)
    {
      var progress := Proceed(input, room);
      ret := if progress then RunOk else ParamError;
    }

    method FlushCall(input: seq<byte>, room: nat) returns (ret: Ret)
      requires Valid() && mode.Flushing?
      modifies this, enc, enc.block, enc.inUse, w
      ensures Valid() && Conserved(input, room)
      ensures if old(availInExpect) != |input| then ret == SequenceError && Untouched() else Flushed(ret)
      ensures ret == FlushOk ==> WithinRoomFor(|input|)
    {
      if availInExpect != |input| {
        ret := Refuse(input, room);
        return;
      }
      var progress := Proceed(input, room);
      if availInExpect > 0 || !NoRun() || stateOutPos < |w.zbits| { return FlushOk; }
      Resume();
      ret := RunOk;
    }

    method FinishCall(input: seq<byte>, room: nat) returns (ret: Ret)
      requires Valid() && mode.Finishing?
      modifies this, enc, enc.block, enc.inUse, w
      ensures Valid() && Conserved(input, room)
      ensures if old(availInExpect) != |input| then ret == SequenceError && Untouched()
              else Ended(input, ret) && WithinRoomFor(|input|)
    {
      if availInExpect != |input| {
        ret := Refuse(input, room);
        return;
      }
      ret := FinishMore(input, room);
    }

    method FinishMore(input: seq<byte>, room: nat) returns (ret: Ret)
      requires Valid() && mode.Finishing? && availInExpect == |input|
      modifies this, enc, enc.block, enc.inUse, w
      ensures Valid() && Conserved(input, room) && Ended(input, ret) && WithinRoomFor(|input|)
    {
      var progress := Proceed(input, room);
      if !progress { return SequenceError; }
      ret := Conclude();
    }

    /** The stream has ended if nothing is left of the announced input, of the run and of the output. */
    method Conclude() returns (ret: Ret)
      requires Sound() && Announced() && mode.Finishing? && Stopped(true)
      modifies this`mode
      ensures Valid() && (ret == FinishOk || ret == StreamEnd)
      ensures ret == FinishOk ==> mode.Finishing? && Unfinished() && availOut == 0
      ensures ret == StreamEnd ==> mode.Idle? && !Unfinished() && Compressed(enc.crcTable, out, taken)
    {
      if availInExpect > 0 || !NoRun() || stateOutPos < |w.zbits| { return FinishOk; }
      Retire();
      ret := StreamEnd;
    }

    method Retire()
      requires Sound() && log.finished && stateOutPos == |w.zbits|
      modifies this`mode
      ensures Valid() && mode.Idle? && Compressed(enc.crcTable, out, taken)
    {
      AllWritten();
      mode := Idle;
    }

    method Resume()
      requires Sound() && phase.Filling? && mode.Flushing?
      modifies this`mode
      ensures Valid() && mode.Running?
    {
      mode := Running;
    }

    /** One call with the given action, input and room for output (BZ2_bzCompress). A call that does not go with what
        has been asked for before is refused and changes nothing. Any other call makes what progress there can be: it
        uses up its room, or it takes all input and completes what was asked for. Every byte of the input is either
        taken in or left; the stream ends only when nothing is left to take in, store or deliver, and then the output
        is a compressed form of everything taken in over all calls. */
    method BzCompress(action: Action, input: seq<byte>, room: nat) returns (ret: Ret)
      requires Valid()
      modifies this, enc, enc.block, enc.inUse, w
      ensures Valid() && Conserved(input, room)
      ensures old(Refused(action, |input|)) ==> ret == SequenceError && Untouched()
      ensures !old(Refused(action, |input|)) ==>
        match action
        case Run => Ran(input, ret) && WithinRoomFor(|input|)
        case Flush => Flushed(ret) && (ret == FlushOk ==> WithinRoomFor(|input|))
        case Finish => Ended(input, ret) && WithinRoomFor(|input|)
    {
      if mode.Running? && !action.Run? {
        Announce(action, |input|);
      }
      if mode.Idle? || (mode.Flushing? && !action.Flush?) || (mode.Finishing? && !action.Finish?) {
        ret := Refuse(input, room);
        return;
      }
      if mode.Running? {
        ret := RunCall(input, room);
      } else if mode.Flushing? {
        ret := FlushCall(input, room);
      } else {
        ret := FinishCall(input, room);
      }
    }

    lemma AheadNotNegative(n: nat)
      requires Valid()
      ensures OutputAhead(n) >= 0
    {
      LastBlock(OutputRoom(blockSize100k, 0), enc.nblockMAX, 5 * n + if phase.Filling? then enc.nblock else 0);
    }

    /** Once the trailer is delivered, the output is a complete stream of everything taken in. */
    lemma AllWritten()
      requires Sound() && log.finished && stateOutPos == |w.zbits|
      ensures Compressed(enc.crcTable, out, taken)
    {
      assert Unfold(0);
      assert out == log.base + w.zbits;
      assert taken == written;
      assert StreamOf(enc.crcTable, out, taken, blockSize100k, log.pieces, log.pad);
    }
  }

  lemma NothingAdded(written: seq<byte>)
    ensures written + [] == written
  {
  }

  lemma Carried(written: seq<byte>, text: seq<byte>, ch: int, len: int)
    requires 0 <= ch <= 256 && len >= 0
    ensures written + (text + if ch < 256 then Rep(ch, len) else []) == (written + text) + RunText(ch, len)
  {
  }
}
