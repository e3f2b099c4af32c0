/** Undoing the first stage while the output arrives in pieces of any size
    (unRLE_obuf_to_output_FAST and _SMALL, for blocks that are not randomised). */
module UnRunLength {
  import opened Common
  import opened RunLength
  import opened InverseBwt

  /** The block ends in a run of four without its count. */
  ghost predicate Truncated(b: seq<byte>) {
    ScanAll(b).run == 4
  }

  /** used - 1 bytes of the block have been read and their text written out; k0 is the next byte.
      Past the end of a truncated block nothing is promised. */
  ghost predicate AtRun(b: seq<byte>, out: seq<byte>, used: int, k0: int) {
    if used <= |b| + 1 then
      && 1 <= used && out == ScanTo(b, used - 1).text
      && (used <= |b| ==> k0 == b[used - 1] && Fresh(ScanTo(b, used - 1), b[used - 1]))
    else
      Truncated(b)
  }

  /** The same once len more bytes of value ch have been written. */
  ghost predicate Progress(b: seq<byte>, out: seq<byte>, ch: byte, len: nat, used: int, k0: int)
    decreases len
  {
    if len > 0 then Progress(b, out + [ch], ch, len - 1, used, k0) else AtRun(b, out, used, k0)
  }

  lemma {:induction false} ProgressFrom(b: seq<byte>, out: seq<byte>, ch: byte, len: nat, used: int, k0: int)
    requires AtRun(b, out + Rep(ch, len), used, k0)
    ensures Progress(b, out, ch, len, used, k0)
    decreases len
  {
    if len == 0 {
      assert out + Rep(ch, 0) == out;
    } else {
      assert out + Rep(ch, len) == (out + [ch]) + Rep(ch, len - 1);
      ProgressFrom(b, out + [ch], ch, len - 1, used, k0);
    }
  }

  /** The run that begins with byte used - 1: len bytes of value k, after which used1 bytes are
      read and k1 is the last of them. */
  ghost predicate RunRead(b: seq<byte>, used: int, k: int, len: int, used1: int, k1: int) {
    && 1 <= used <= |b|
    && (used1 <= |b| ==> used1 >= 1 && k1 == b[used1 - 1])
    && (if len <= 3 then ShortRun(b, used, k, len, used1) else LongRun(b, used, k, len, used1))
  }

  ghost predicate ShortRun(b: seq<byte>, used: int, k: int, len: int, used1: int) {
    && 1 <= len && 1 <= used && used1 == used + len <= |b| + 1
    && (forall i :: used - 1 <= i < used - 1 + len ==> b[i] == k)
    && (used1 <= |b| ==> b[used1 - 1] != k)
  }

  ghost predicate LongRun(b: seq<byte>, used: int, k: int, len: int, used1: int) {
    && 1 <= used && used1 == used + 5 && used + 3 <= |b|
    && (forall i :: used - 1 <= i < used + 3 ==> b[i] == k)
    && (used + 4 <= |b| ==> len - 4 == b[used + 3])
  }

  lemma {:induction false} RunEmits(b: seq<byte>, out: seq<byte>, used: int, k0: byte, len: nat, used1: int, k1: int)
    requires AtRun(b, out, used, k0) && RunRead(b, used, k0, len, used1, k1)
    ensures Progress(b, out, k0, len, used1, k1)
  {
    if len <= 3 {
      RunSteps(b, used - 1, len);
    } else {
      RunSteps(b, used - 1, 4);
      if used + 4 <= |b| {
        RepAdd(k0, 4, len - 4);
        assert out + Rep(k0, len) == (out + Rep(k0, 4)) + Rep(k0, len - 4);
      }
    }
    ProgressFrom(b, out, k0, len, used1, k1);
  }

  lemma {:induction false} ScanGrows(b: seq<byte>, m: nat, n: nat)
    requires m <= n <= |b|
    ensures ScanTo(b, m).text <= ScanTo(b, n).text
  {
    if m < n {
      ScanGrows(b, m, n - 1);
    }
  }

  /** What has been written is always a beginning of the block's text. */
  lemma {:induction false} ProgressPrefix(b: seq<byte>, out: seq<byte>, ch: byte, len: nat, used: int, k0: int)
    requires Progress(b, out, ch, len, used, k0) && !Truncated(b)
    ensures out <= Expand(b)
    decreases len
  {
    if len > 0 {
      ProgressPrefix(b, out + [ch], ch, len - 1, used, k0);
    } else {
      ScanGrows(b, used - 1, |b|);
    }
  }

  /** A block that is not empty stands for some text. */
  lemma {:induction false} ExpandNotEmpty(b: seq<byte>, n: nat)
    requires 1 <= n <= |b|
    ensures |ScanTo(b, n).text| >= 1
  {
    if n > 1 {
      ExpandNotEmpty(b, n - 1);
    } else {
      assert ScanTo(b, 0) == Scan([], 0, 0);
    }
  }

  /** Which of the two tables the bytes come from (smallDecompress). */
  datatype Source = Fast(fast: FastReader) | Small(small: SmallReader) {
    ghost function Object(): object {
      match this case Fast(f) => f case Small(s) => s
    }

    /** The source is ready to deliver byte number used of b, and any bytes after its end. */
    ghost predicate Delivers(b: seq<byte>, used: int)
      reads Object()
    {
      match this
      case Fast(f) => f.Valid() && used == f.used && Spells(f.l, f.t, f.o, b, |b|)
      case Small(s) => s.Valid() && used == s.used && Spells(s.l, s.t, s.o, b, |b|)
    }

    method Get(ghost b: seq<byte>, ghost used: nat) returns (c: byte)
      requires Delivers(b, used)
      modifies Object()
      ensures Delivers(b, used + 1) && (used < |b| ==> c == b[used])
    {
      match this {
        case Fast(f) =>
          if used < |b| { SpellsAt(f.l, f.t, f.o, b, |b|, used); }
          var corrupt, x := f.Get();
          c := x;
        case Small(s) =>
          if used < |b| { SpellsAt(s.l, s.t, s.o, b, |b|, used); }
          var corrupt, x := s.Get();
          c := x;
      }
    }
    /** Reads the run that begins with k in the fast decoder's order of tests; one says that it is a
        single byte, to be written at once. */
    method RunFast(n: nat, used0: nat, k: byte, ghost b: seq<byte>) returns (one: bool, len: nat, next: byte, used: nat)
      requires Delivers(b, used0) && 1 <= used0 <= |b| == n && k == b[used0 - 1]
      modifies Object()
      ensures Delivers(b, used) && (one ==> len == 1) && len > 0
      ensures RunRead(b, used0, k, len, used, next)
    {
      one, len, next, used := true, 1, k, used0 + 1;
      var k1 := Get(b, used0);
      if k1 != k { next := k1; return; }
      if used == n + 1 { return; }
      one, len, used := false, 2, used + 1;
      k1 := Get(b, used0 + 1);
      if used == n + 1 { return; }
      if k1 != k { next := k1; return; }
      len, used := 3, used + 1;
      k1 := Get(b, used0 + 2);
      if used == n + 1 { return; }
      if k1 != k { next := k1; return; }
      k1 := Get(b, used0 + 3);
      len := k1 as int + 4;
      next := Get(b, used0 + 4);
      used := used + 2;
    }

    /** The same in the small decoder's order of tests. */
    method RunSmall(n: nat, used0: nat, k: byte, ghost b: seq<byte>) returns (len: nat, next: byte, used: nat)
      requires Delivers(b, used0) && 1 <= used0 <= |b| == n && k == b[used0 - 1]
      modifies Object()
      ensures Delivers(b, used) && RunRead(b, used0, k, len, used, next)
    {
      len, next, used := 1, k, used0 + 1;
      var k1 := Get(b, used0);
      if used == n + 1 { return; }
      if k1 != k { next := k1; return; }
      len, used := 2, used + 1;
      k1 := Get(b, used0 + 1);
      if used == n + 1 { return; }
      if k1 != k { next := k1; return; }
      len, used := 3, used + 1;
      k1 := Get(b, used0 + 2);
      if used == n + 1 { return; }
      if k1 != k { next := k1; return; }
      k1 := Get(b, used0 + 3);
      len := k1 as int + 4;
      next := Get(b, used0 + 4);
      used := used + 2;
    }
  }

  class Unpacker {
    const source: Source
    const crcTable: seq<bv32>
    const saveNblock: nat
    var stateOutCh: byte
    var stateOutLen: nat
    var nblockUsed: int
    var k0: byte
    var crc: bv32
    var out: seq<byte>       // everything written so far, over all calls
    ghost const b: seq<byte> // the block being expanded

    ghost predicate Valid()
      reads this, source.Object()
    {
      && source.Object() != this && source.Delivers(b, nblockUsed) && |crcTable| == 256
      && |b| == saveNblock > 0 && nblockUsed >= 1
      && crc == CrcOf(crcTable, out)
    }

    /** Between calls. */
    ghost predicate Ready()
      reads this, source.Object()
    {
      Valid() && Progress(b, out, stateOutCh, stateOutLen, nblockUsed, k0)
    }

    method Emit()
      requires Valid()
      modifies this`out, this`crc
      ensures Valid() && out == old(out) + [stateOutCh]
    {
      CrcAppend(crcTable, out, stateOutCh);
      crc := CrcByte(crcTable, crc, stateOutCh);
      out := out + [stateOutCh];
    }
  
    constructor (source: Source, crcTable: seq<bv32>, nblock: nat, ghost b: seq<byte>)
      requires source.Delivers(b, 0) && |crcTable| == 256 && |b| == nblock > 0
      modifies source.Object()
      ensures Ready() && out == [] && this.b == b && this.source == source && this.crcTable == crcTable
    {
      this.source, this.crcTable, this.saveNblock, this.b := source, crcTable, nblock, b;
      stateOutCh, stateOutLen, crc, out := 0, 0, 0xffff_ffff, [];
      k0, nblockUsed := 0, 0;
      new;
      k0 := source.Get(b, 0);
      nblockUsed := 1;
    }

    method NextRunFast() returns (one: bool)
      requires Valid() && AtRun(b, out, nblockUsed, k0) && nblockUsed <= |b|
      modifies this`stateOutCh, this`stateOutLen, this`k0, this`nblockUsed, source.Object()
      ensures Valid() && old(nblockUsed) < nblockUsed <= old(nblockUsed) + 5
      ensures Progress(b, out, stateOutCh, if one then 1 else stateOutLen, nblockUsed, k0)
    {
      var k := k0;
      var len, next, used;
      one, len, next, used := source.RunFast(saveNblock, nblockUsed, k, b);
      RunEmits(b, out, nblockUsed, k, len, used, next);
      stateOutCh, k0, nblockUsed := k, next, used;
      if !one { stateOutLen := len; }
    }

    /** Writes the pending run, of one byte or of stateOutLen; stops early if the output is full. */
    method FinishRunFast(one: bool, avail0: nat) returns (full: bool, avail: nat)
      requires Valid() && (one || stateOutLen > 0)
      requires Progress(b, out, stateOutCh, if one then 1 else stateOutLen, nblockUsed, k0)
      modifies this`out, this`crc, this`stateOutLen
      ensures Valid() && old(out) <= out && |out| + avail == old(|out|) + avail0
      ensures full ==> avail == 0 && Ready()
      ensures !full ==> AtRun(b, out, nblockUsed, k0)
    {
      avail := avail0;
      if !one {
        while true
          invariant Ready() && stateOutLen > 0 && old(out) <= out && |out| + avail == old(|out|) + avail0
          decreases stateOutLen
        {
          if avail == 0 { return true, avail; }
          if stateOutLen == 1 { break; }
          Emit();
          stateOutLen := stateOutLen - 1;
          avail := avail - 1;
        }
      }
      if avail == 0 { stateOutLen := 1; return true, avail; }
      Emit();
      return false, avail - 1;
    }

    /** All of the block has been read and written. */
    ghost predicate Finished()
      reads this
    {
      nblockUsed == saveNblock + 1 && stateOutLen == 0
    }

    /** One call with room for availOut bytes. It stops only when the room is used up or the block is
        finished, or reports corruption, which only a truncated block can cause. */
    method OutputFast(availOut: nat) returns (corrupt: bool, avail: nat)
      requires Ready()
      modifies this, source.Object()
      ensures Valid() && old(out) <= out
      ensures corrupt ==> Truncated(b)
      ensures !corrupt ==> Ready() && |out| + avail == old(|out|) + availOut && (avail == 0 || Finished())
      ensures !corrupt && Finished() ==> out == Expand(b)
    {
      avail := availOut;
      var one := false;
      while true
        invariant Valid() && old(out) <= out && |out| + avail == old(|out|) + availOut
        invariant Progress(b, out, stateOutCh, if one then 1 else stateOutLen, nblockUsed, k0)
        decreases |b| + 6 - nblockUsed
      {
        if one || stateOutLen > 0 {
          var full;
          full, avail := FinishRunFast(one, avail);
          if full { return false, avail; }
        }
        if nblockUsed > saveNblock + 1 { return true, avail; }
        if nblockUsed == saveNblock + 1 { stateOutLen := 0; return false, avail; }
        one := NextRunFast();
      }
    }
  
    method NextRunSmall()
      requires Valid() && AtRun(b, out, nblockUsed, k0) && nblockUsed <= |b|
      modifies this`stateOutCh, this`stateOutLen, this`k0, this`nblockUsed, source.Object()
      ensures Ready() && old(nblockUsed) < nblockUsed <= old(nblockUsed) + 5
    {
      var k := k0;
      var len, next, used := source.RunSmall(saveNblock, nblockUsed, k, b);
      RunEmits(b, out, nblockUsed, k, len, used, next);
      stateOutCh, stateOutLen, k0, nblockUsed := k, len, next, used;
    }

    /** Writes the pending run; stops early if the output is full. */
    method FinishRunSmall(avail0: nat) returns (full: bool, avail: nat)
      requires Ready()
      modifies this`out, this`crc, this`stateOutLen
      ensures Ready() && old(out) <= out && |out| + avail == old(|out|) + avail0
      ensures if full then avail == 0 else stateOutLen == 0
    {
      avail := avail0;
      while true
        invariant Ready() && old(out) <= out && |out| + avail == old(|out|) + avail0
        decreases stateOutLen
      {
        if avail == 0 { return true, avail; }
        if stateOutLen == 0 { return false, avail; }
        Emit();
        stateOutLen := stateOutLen - 1;
        avail := avail - 1;
      }
    }

    method OutputSmall(availOut: nat) returns (corrupt: bool, avail: nat)
      requires Ready()
      modifies this, source.Object()
      ensures Valid() && old(out) <= out
      ensures corrupt ==> Truncated(b)
      ensures !corrupt ==> Ready() && |out| + avail == old(|out|) + availOut && (avail == 0 || Finished())
      ensures !corrupt && Finished() ==> out == Expand(b)
    {
      avail := availOut;
      while true
        invariant Ready() && old(out) <= out && |out| + avail == old(|out|) + availOut
        decreases |b| + 6 - nblockUsed
      {
        var full;
        full, avail := FinishRunSmall(avail);
        if full { return false, avail; }
        if nblockUsed == saveNblock + 1 { return false, avail; }
        if nblockUsed > saveNblock + 1 { return true, avail; }
        NextRunSmall();
      }
    }
  }
}
