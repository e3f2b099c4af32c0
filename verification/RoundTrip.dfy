/** Compression and decompression together: whatever calls were made to compress a text, and however the
    output is cut up and read back, the text comes back. */
module RoundTrip {
  import opened Common
  import opened BitStream
  import opened StreamFormat
  import opened Compressor
  import opened Decompressor

  lemma {:induction false} JoinedBits(cuts: seq<seq<byte>>)
    ensures ChunkBits(cuts) == ByteBits(Joined(cuts))
  {
    if cuts != [] {
      JoinedBits(cuts[1..]);
      ByteBitsConcat(cuts[0], Joined(cuts[1..]));
    }
  }

  function Total(rooms: seq<nat>, n: nat): (r: nat)
    requires n <= |rooms|
  {
    if n == 0 then 0 else Total(rooms, n - 1) + rooms[n - 1]
  }

  /** Reads a compressed stream back in calls with the given rooms. */
  method ReadBack(d: Decompression, rooms: seq<nat>) returns (ended: bool)
    requires d.Valid() && d.plan.expected && d.Out() == [] && !d.stage.Ended?
    modifies d.Repr
    ensures d.Valid() && (ended ==> d.Out() == TextTo(d.plan.ps, |d.plan.ps|))
    ensures !ended ==> |d.Out()| == Total(rooms, |rooms|)
  {
    var n := 0;
    ended := false;
    while n < |rooms| && !ended
      invariant n <= |rooms| && d.Valid() && fresh(d.Repr - old(d.Repr))
      invariant if ended then d.Out() == TextTo(d.plan.ps, |d.plan.ps|) else |d.Out()| == Total(rooms, n) && !d.stage.Ended?
    {
      var ret := d.BzDecompress(rooms[n]);
      ended := ret == Decompressor.StreamEnd;
      n := n + 1;
    }
  }

  /** Decompresses the output of a finished compression, cut into any pieces, in calls with the given
      rooms. What comes out is always a beginning of the text that was compressed; the stream ends as
      soon as there is more room than text, and then all of it is out. */
  method Restore(c: Compression, cuts: seq<seq<byte>>, small: bool, rooms: seq<nat>)
      returns (text: seq<byte>, ended: bool)
    requires c.Valid() && c.mode.Idle? && Joined(cuts) == c.out
    ensures text <= c.taken
    ensures ended ==> text == c.taken
    ensures Total(rooms, |rooms|) > |c.taken| ==> ended
  {
    ghost var whole := c.taken;
    c.AllWritten();
    JoinedBits(cuts);
    var d := new Decompression(cuts, small, c.enc.crcTable, c.out, whole);
    ended := ReadBack(d, rooms);
    d.OutPrefix();
    text := d.Out();
  }

  /** Calls with the given rooms to take in the input and end the stream; what is not taken in is left. As long as the
      stream has not ended, every call fills its room, and once there is more room than output can come of it, it ends. */
  method FinishAll(c: Compression, input: seq<byte>, rooms: seq<nat>) returns (left: seq<byte>, ended: bool)
    requires c.Valid() && !c.Refused(Finish, |input|)
    modifies c, c.enc, c.enc.block, c.enc.inUse, c.w
    ensures c.Valid() && c.taken + left == old(c.taken) + input
    ensures ended ==> c.mode.Idle? && left == [] && Compressed(c.enc.crcTable, c.out, c.taken)
    ensures !ended ==> |c.out| == |old(c.out)| + Total(rooms, |rooms|)
    ensures Total(rooms, |rooms|) > old(c.OutputAhead(|input|)) ==> ended
  {
    var n := 0;
    left, ended := input, false;
    while n < |rooms| && !ended
      invariant n <= |rooms| && c.Valid() && c.taken + left == old(c.taken) + input
      invariant if ended then c.mode.Idle? && left == [] && Compressed(c.enc.crcTable, c.out, c.taken)
                else !c.Refused(Finish, |left|) && |c.out| == |old(c.out)| + Total(rooms, n)
      invariant !ended ==> |c.out| + c.OutputAhead(|left|) <= old(|c.out|) + old(c.OutputAhead(|input|))
    {
      var ret := c.BzCompress(Finish, left, rooms[n]);
      left, ended := c.nextIn, ret == Compressor.StreamEnd;
      n := n + 1;
    }
    if !ended { c.AheadNotNegative(|left|); }
  }

  /** Calls with the given rooms to take in the input and flush: likewise. */
  method FlushAll(c: Compression, input: seq<byte>, rooms: seq<nat>) returns (left: seq<byte>, done: bool)
    requires c.Valid() && !c.Refused(Flush, |input|)
    modifies c, c.enc, c.enc.block, c.enc.inUse, c.w
    ensures c.Valid() && c.taken + left == old(c.taken) + input
    ensures done ==> c.mode.Running? && left == [] && !c.Unfinished()
    ensures !done ==> |c.out| == |old(c.out)| + Total(rooms, |rooms|)
    ensures Total(rooms, |rooms|) > old(c.OutputAhead(|input|)) ==> done
  {
    var n := 0;
    left, done := input, false;
    while n < |rooms| && !done
      invariant n <= |rooms| && c.Valid() && c.taken + left == old(c.taken) + input
      invariant if done then c.mode.Running? && left == [] && !c.Unfinished()
                else !c.Refused(Flush, |left|) && |c.out| == |old(c.out)| + Total(rooms, n)
      invariant !done ==> |c.out| + c.OutputAhead(|left|) <= old(|c.out|) + old(c.OutputAhead(|input|))
    {
      var ret := c.BzCompress(Flush, left, rooms[n]);
      left, done := c.nextIn, ret == Compressor.RunOk;
      n := n + 1;
    }
    if !done { c.AheadNotNegative(|left|); }
  }

  method CompressAll(text: seq<byte>, blockSize100k: int, workFactor: int, crcTable: seq<bv32>, rooms: seq<nat>)
      returns (c: Compression, ended: bool)
    requires 1 <= blockSize100k <= 9 && |crcTable| == 256
    ensures c.Valid() && (ended ==> c.mode.Idle? && c.taken == text)
    ensures Total(rooms, |rooms|) > MostOutput(blockSize100k, |text|) ==> ended
  {
    c := new Compression(blockSize100k, workFactor, crcTable);
    var left;
    left, ended := FinishAll(c, text, rooms);
    assert c.taken + left == [] + text == text;
  }

  lemma JoinedOne(s: seq<byte>)
    ensures Joined([s]) == s
  {
    assert Joined([s]) == s + Joined([]) == s + [];
  }

  /** A text compressed and decompressed in calls with the given rooms. What comes back is a beginning of it, and when
      there is room enough for both, it is the text. */
  method ThereAndBack(text: seq<byte>, blockSize100k: int, workFactor: int, crcTable: seq<bv32>, rooms: seq<nat>,
      small: bool, roomsBack: seq<nat>) returns (back: seq<byte>)
    requires 1 <= blockSize100k <= 9 && |crcTable| == 256
    ensures back <= text
    ensures Total(rooms, |rooms|) > MostOutput(blockSize100k, |text|) && Total(roomsBack, |roomsBack|) > |text| ==> back == text
  {
    var c, ended := CompressAll(text, blockSize100k, workFactor, crcTable, rooms);
    if !ended { return []; }
    JoinedOne(c.out);
    var all;
    back, all := Restore(c, [c.out], small, roomsBack);
  }
}
