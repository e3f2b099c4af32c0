/** The first compression stage: runs of 4..255 equal bytes become four bytes and a count. */
module RunLength {
  import opened Common

  // ---------------------------------------------------------------- what a coded block means

  function Rep(c: byte, n: nat): (r: seq<byte>)
    ensures |r| == n && forall i :: 0 <= i < n ==> r[i] == c
  {
    if n == 0 then [] else Rep(c, n - 1) + [c]
  }

  /** Text read so far, the byte last read and how many of it in a row (4: a count comes next). */
  datatype Scan = Scan(text: seq<byte>, c: byte, run: nat)

  function ScanStep(s: Scan, x: byte): Scan {
    if s.run >= 4 then Scan(s.text + Rep(s.c, x), s.c, 0)
    else if s.run > 0 && s.c == x then Scan(s.text + [x], x, s.run + 1)
    else Scan(s.text + [x], x, 1)
  }

  /** Reading the first n bytes of a coded block from the left. */
  function ScanTo(b: seq<byte>, n: nat): (r: Scan)
    requires n <= |b|
    ensures r.run <= 4
  {
    if n == 0 then Scan([], 0, 0) else ScanStep(ScanTo(b, n - 1), b[n - 1])
  }

  /** The text a coded block stands for. */
  function Expand(b: seq<byte>): seq<byte> {
    ScanAll(b).text
  }

  function ScanAll(b: seq<byte>): Scan {
    ScanTo(b, |b|)
  }

  /** A byte x would begin a new run here. */
  ghost predicate Fresh(s: Scan, x: int) {
    s.run == 0 || (s.run < 4 && s.c != x)
  }

  lemma {:induction false} ScanPrefix(a: seq<byte>, b: seq<byte>, n: nat)
    requires n <= |a| && n <= |b| && forall k :: 0 <= k < n ==> a[k] == b[k]
    ensures ScanTo(a, n) == ScanTo(b, n)
  {
    if n > 0 {
      ScanPrefix(a, b, n - 1);
    }
  }

  lemma {:induction false} ScanAppend(b: seq<byte>, x: byte)
    ensures ScanTo(b + [x], |b| + 1) == ScanStep(ScanTo(b, |b|), x)
  {
    ScanPrefix(b + [x], b, |b|);
  }

  lemma {:induction false} RepAdd(c: byte, m: nat, n: nat)
    ensures Rep(c, m) + Rep(c, n) == Rep(c, m + n)
  {
  }

  /** The bytes that add_pair_to_block stores for a run. */
  function Pair(c: byte, len: nat): (r: seq<byte>)
    requires 1 <= len <= 255
  {
    if len <= 3 then Rep(c, len) else Rep(c, 4) + [len - 4]
  }

  lemma {:induction false} RunScan(b: seq<byte>, c: byte, n: nat)
    requires n <= 4 && Fresh(ScanTo(b, |b|), c)
    ensures ScanTo(b + Rep(c, n), |b| + n)
         == if n == 0 then ScanTo(b, |b|) else Scan(ScanTo(b, |b|).text + Rep(c, n), c, n)
  {
    if n == 0 {
      assert b + Rep(c, 0) == b;
    } else {
      RunScan(b, c, n - 1);
      assert b + Rep(c, n) == (b + Rep(c, n - 1)) + [c];
      ScanAppend(b + Rep(c, n - 1), c);
      assert ScanTo(b, |b|).text + Rep(c, n) == (ScanTo(b, |b|).text + Rep(c, n - 1)) + [c];
    }
  }

  /** Storing a run where it may begin adds exactly that run to the text. */
  lemma {:induction false} PairScan(b: seq<byte>, c: byte, len: nat)
    requires 1 <= len <= 255 && Fresh(ScanAll(b), c)
    ensures ScanAll(b + Pair(c, len)) == Scan(Expand(b) + Rep(c, len), c, if len <= 3 then len else 0)
  {
    if len <= 3 {
      RunScan(b, c, len);
    } else {
      RunScan(b, c, 4);
      var four := b + Rep(c, 4);
      ScanAppend(four, len - 4);
      assert b + Pair(c, len) == four + [len - 4];
      RepAdd(c, 4, len - 4);
      assert Expand(b) + Rep(c, len) == (Expand(b) + Rep(c, 4)) + Rep(c, len - 4);
    }
  }

  /** A run state: what is stored, the byte being counted (256: none) and its count. */
  ghost predicate Counting(b: seq<byte>, ch: int, len: int) {
    && 0 <= ch <= 256 && 0 <= len <= 255 && (ch == 256 <==> len == 0)
    && ScanAll(b).run < 4
    && (ch < 256 ==> Fresh(ScanAll(b), ch))
  }

  /** The text that a run state stands for. */
  ghost function Standing(b: seq<byte>, ch: int, len: int): (r: seq<byte>)
    requires 0 <= ch <= 256 && 0 <= len
  {
    Expand(b) + if ch < 256 then Rep(ch, len) else []
  }

  /** Storing the counted run and beginning one of c. */
  lemma {:induction false} RunEnds(b: seq<byte>, ch: int, len: int, c: byte)
    requires Counting(b, ch, len) && ch < 256 && (c != ch || len == 255)
    ensures Counting(b + Pair(ch, len), c, 1)
    ensures Expand(b + Pair(ch, len)) == Standing(b, ch, len)
    ensures Standing(b + Pair(ch, len), c, 1) == Standing(b, ch, len) + [c]
  {
    PairScan(b, ch, len);
    assert Rep(c, 1) == [c];
  }

  lemma {:induction false} RunGrows(b: seq<byte>, ch: int, len: int)
    requires Counting(b, ch, len) && ch < 256 && len < 255
    ensures Counting(b, ch, len + 1) && Standing(b, ch, len + 1) == Standing(b, ch, len) + [ch as byte]
  {
  }

  /** j equal bytes from position m, where a run may begin. */
  lemma {:induction false} RunSteps(b: seq<byte>, m: nat, j: nat)
    requires 1 <= j <= 4 && m + j <= |b| && Fresh(ScanTo(b, m), b[m])
    requires forall k :: m <= k < m + j ==> b[k] == b[m]
    ensures ScanTo(b, m + j) == Scan(ScanTo(b, m).text + Rep(b[m], j), b[m], j)
  {
    if j > 1 {
      RunSteps(b, m, j - 1);
      assert ScanTo(b, m).text + Rep(b[m], j) == (ScanTo(b, m).text + Rep(b[m], j - 1)) + [b[m]];
    } else {
      assert Rep(b[m], 1) == [b[m]];
    }
  }

  // ---------------------------------------------------------------- the block checksum

  /** BZ_UPDATE_CRC over a given 256-entry table. */
  function CrcByte(table: seq<bv32>, crc: bv32, ch: byte): bv32
    requires |table| == 256
  {
    (crc << 8) ^ table[((crc >> 24) as bv8 ^ (ch as bv8)) as int]
  }

  function CrcOf(table: seq<bv32>, s: seq<byte>): bv32
    requires |table| == 256
  {
    if s == [] then 0xffff_ffff else CrcByte(table, CrcOf(table, s[..|s| - 1]), s[|s| - 1])
  }

  lemma {:induction false} CrcAppend(table: seq<bv32>, s: seq<byte>, ch: byte)
    requires |table| == 256
    ensures CrcOf(table, s + [ch]) == CrcByte(table, CrcOf(table, s), ch)
  {
    assert (s + [ch])[..|s|] == s;
  }

  // ---------------------------------------------------------------- the encoder

  /** inUse marks exactly the byte values that occur. */
  ghost predicate Marks(inUse: seq<bool>, b: seq<byte>) {
    && |inUse| == 256
    && forall v {:trigger Occurs(b, v)} :: 0 <= v < 256 ==> (inUse[v] <==> Occurs(b, v))
  }

  ghost predicate Occurs(b: seq<byte>, v: int) {
    exists k :: 0 <= k < |b| && b[k] == v
  }

  lemma OccursConcat(b: seq<byte>, c: seq<byte>, v: int)
    ensures Occurs(b + c, v) <==> Occurs(b, v) || Occurs(c, v)
  {
    var s := b + c;
    if Occurs(b, v) {
      var k :| 0 <= k < |b| && b[k] == v;
      assert s[k] == v;
    }
    if Occurs(c, v) {
      var k :| 0 <= k < |c| && c[k] == v;
      assert s[|b| + k] == v;
    }
  }

  lemma {:induction false} PairMarks(inUse: seq<bool>, b: seq<byte>, ch: byte, len: nat)
    requires Marks(inUse, b) && 1 <= len <= 255
    ensures Marks(if len >= 4 then inUse[ch := true][len - 4 := true] else inUse[ch := true], b + Pair(ch, len))
  {
    var p := Pair(ch, len);
    assert p[0] == ch && (len >= 4 ==> p[4] == len - 4);
    assert forall k :: 0 <= k < |p| ==> p[k] == ch || (len >= 4 && p[k] == len - 4);
    forall v {:trigger Occurs(b + p, v)} | 0 <= v < 256
      ensures Occurs(b + p, v) <==> Occurs(b, v) || v == ch || (len >= 4 && v == len - 4)
    {
      OccursConcat(b, p, v);
    }
  }

  /** Pending run, marks and checksum agree with the stored block. */
  ghost predicate Consistent(table: seq<bv32>, b: seq<byte>, inUse: seq<bool>, ch: int, len: int, crc: bv32) {
    |table| == 256 && forall k {:trigger Unfold(k)} :: Unfold(k) ==>
      Counting(b, ch, len) && Marks(inUse, b) && crc == CrcOf(table, Expand(b))
  }

  /** The run-length state of the compressor: the block under construction and the run not yet stored. */
  class Encoder {
    const block: array<byte>
    const inUse: array<bool>
    const nblockMAX: int
    const crcTable: seq<bv32>
    var nblock: int
    var stateInCh: int
    var stateInLen: int
    var blockCRC: bv32

    ghost predicate Valid()
      reads this, block, inUse
    {
      && nblockMAX >= 1 && block.Length >= nblockMAX + 9 && inUse.Length == 256 && |crcTable| == 256
      && 0 <= nblock <= block.Length && 0 <= stateInCh <= 256 && 0 <= stateInLen <= 255
          && (stateInCh == 256 <==> stateInLen == 0)
      && Consistent(crcTable, Block(), inUse[..], stateInCh, stateInLen, blockCRC)
    }

    ghost function Block(): (r: seq<byte>)
      reads this, block
      requires 0 <= nblock <= block.Length
      ensures |r| == nblock
    {
      block[..nblock]
    }

    /** Everything taken in since the block was begun, with the run carried over. */
    ghost function Taken(): (r: seq<byte>)
      reads this, block
      requires 0 <= nblock <= block.Length && 0 <= stateInCh <= 256 && stateInLen >= 0
    {
      Standing(Block(), stateInCh, stateInLen)
    }

    method CrcRun(ch: byte, len: nat, ghost text: seq<byte>)
      requires |crcTable| == 256 && blockCRC == CrcOf(crcTable, text)
      modifies this`blockCRC
      ensures blockCRC == CrcOf(crcTable, text + Rep(ch, len))
    {
      assert text + Rep(ch, 0) == text;
      for i := 0 to len
        invariant blockCRC == CrcOf(crcTable, text + Rep(ch, i))
      {
        CrcAppend(crcTable, text + Rep(ch, i), ch);
        assert text + Rep(ch, i + 1) == (text + Rep(ch, i)) + [ch];
        blockCRC := CrcByte(crcTable, blockCRC, ch);
      }
    }

    method Store(c: byte)
      requires 0 <= nblock < block.Length
      modifies this`nblock, block
      ensures nblock == old(nblock) + 1 && Block() == old(Block()) + [c]
    {
      block[nblock] := c;
      nblock := nblock + 1;
    }

    method StoreRun(ch: byte, len: nat)
      requires 0 <= nblock && nblock + 5 <= block.Length && 1 <= len <= 255 && Marks(inUse[..], Block())
      modifies this`nblock, block, inUse
      ensures 0 <= nblock <= old(nblock) + 5 && nblock <= block.Length
      ensures Block() == old(Block()) + Pair(ch, len) && Marks(inUse[..], Block())
    {
      inUse[ch] := true;
      if len >= 4 { inUse[len - 4] := true; }
      Store(ch);
      if len >= 2 { Store(ch); }
      if len >= 3 { Store(ch); }
      if len >= 4 {
        Store(ch);
        Store(len - 4);
      }
      assert Block() == old(Block()) + Pair(ch, len);
      PairMarks(old(inUse[..]), old(Block()), ch, len);
    }

    /** Stores the pending run (add_pair_to_block). */
    method AddPair()
      requires Valid() && stateInCh < 256 && nblock + 5 <= block.Length
      modifies this`nblock, this`blockCRC, block, inUse
      ensures 0 <= nblock <= old(nblock) + 5 && nblock <= block.Length
      ensures Block() == old(Block()) + Pair(stateInCh, stateInLen) && Marks(inUse[..], Block())
      ensures blockCRC == CrcOf(crcTable, old(Taken()))
    {
      assert Unfold(0);
      CrcRun(stateInCh, stateInLen, Expand(Block()));
      StoreRun(stateInCh, stateInLen);
    }

    /** Stores the pending run and starts counting c. */
    method NextRun(c: byte)
      requires Valid() && stateInCh < 256 && (c != stateInCh || stateInLen == 255) && nblock < nblockMAX
      modifies this, block, inUse
      ensures Valid() && Taken() == old(Taken()) + [c]
      ensures nblock <= old(nblock) + 5 && stateInCh == c
    {
      assert Unfold(0);
      RunEnds(Block(), stateInCh, stateInLen, c);
      AddPair();
      stateInCh := c;
      stateInLen := 1;
    }

    /** Takes one input byte (ADD_CHAR_TO_BLOCK). Between a flush and the next block nothing may be added. */
    method AddChar(c: byte)
      requires Valid() && nblock < nblockMAX && (stateInCh == 256 ==> nblock == 0)
      modifies this, block, inUse
      ensures Valid() && Taken() == old(Taken()) + [c]
      ensures nblock <= old(nblock) + 5 && stateInCh < 256
    {
      if c != stateInCh && stateInLen == 1 {
        NextRun(c);
      } else if c != stateInCh || stateInLen == 255 {
        if stateInCh < 256 {
          NextRun(c);
        } else {
          assert Unfold(0) && Rep(c, 1) == [c];
          stateInCh := c;
          stateInLen := 1;
        }
      } else {
        assert Unfold(0);
        RunGrows(Block(), stateInCh, stateInLen);
        stateInLen := stateInLen + 1;
      }
    }

    /** Ends the pending run (flush_RL). */
    method Flush()
      requires Valid() && nblock <= nblockMAX + 4
      modifies this, block, inUse
      ensures Valid() && stateInCh == 256 && Expand(Block()) == Taken() == old(Taken())
      ensures nblock <= old(nblock) + 5
    {
      if stateInCh < 256 {
        assert Unfold(0);
        PairScan(Block(), stateInCh, stateInLen);
        AddPair();
      }
      stateInCh := 256;
      stateInLen := 0;
    }

    method ClearInUse()
      requires inUse.Length == 256
      modifies inUse
      ensures forall k :: 0 <= k < 256 ==> !inUse[k]
    {
      for i := 0 to 256
        invariant forall k :: 0 <= k < i ==> !inUse[k]
      {
        inUse[i] := false;
      }
    }

    /** Begins the next block; the pending run is carried over (prepare_new_block). */
    method NewBlock()
      requires Valid()
      modifies this`nblock, this`blockCRC, inUse
      ensures Valid() && nblock == 0 && Block() == []
    {
      nblock := 0;
      blockCRC := 0xffff_ffff;
      ClearInUse();
    }

    constructor (blockSize100k: int, crcTable: seq<bv32>)
      requires 1 <= blockSize100k <= 9 && |crcTable| == 256
      ensures Valid() && nblock == 0 && stateInCh == 256 && Taken() == []
      ensures nblockMAX == 100000 * blockSize100k - 19 && this.crcTable == crcTable
      ensures fresh(block) && fresh(inUse) && block.Length == 100000 * blockSize100k
    {
      block := new byte[100000 * blockSize100k];
      inUse := new bool[256](_ => false);
      nblockMAX := 100000 * blockSize100k - 19;
      this.crcTable := crcTable;
      nblock, blockCRC := 0, 0xffff_ffff;
      stateInCh, stateInLen := 256, 0;
    }
  }
}
