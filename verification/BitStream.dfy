/** Bit buffers: bsW and bsFinishWrite of compress.c, GET_BITS of decompress.c. */
module BitStream {
  import opened Common

  // ---------------------------------------------------------------- shifts

  /** v << n */
  function Shl(v: nat, n: nat): (r: nat)
    decreases n, v
  {
    if n == 0 then v else 2 * Shl(v, n - 1)
  }

  /** v >> n */
  function Shr(v: nat, n: nat): (r: nat)
    decreases n, v
  {
    if n == 0 then v else Shr(v / 2, n - 1)
  }

  /** v & ((1 << n) - 1) */
  function Low(v: nat, n: nat): (r: nat)
    ensures r < Pow2(n)
    decreases n, v
  {
    if n == 0 then 0 else 2 * Low(v / 2, n - 1) + v % 2
  }

  lemma {:induction false} ShlShl(v: nat, m: nat, n: nat)
    ensures Shl(Shl(v, m), n) == Shl(v, m + n)
    decreases n
  {
    if n > 0 {
      ShlShl(v, m, n - 1);
    }
  }

  lemma {:induction false} ShlAdd(a: nat, b: nat, n: nat)
    ensures Shl(a + b, n) == Shl(a, n) + Shl(b, n)
    decreases n
  {
    if n > 0 {
      ShlAdd(a, b, n - 1);
    }
  }

  /** A number below 2^m shifted up stays below 2^(m+n), with room for n further bits. */
  lemma {:induction false} ShlBelow(v: nat, x: nat, m: nat, n: nat)
    requires v < Pow2(m) && x < Pow2(n)
    ensures Shl(v, n) + x < Pow2(m + n)
    decreases n
  {
    if n > 0 {
      ShlBelow(v, x / 2, m, n - 1);
    }
  }

  lemma {:induction false} ShrLow(v: nat, n: nat)
    ensures v == Shl(Shr(v, n), n) + Low(v, n)
    decreases n
  {
    if n > 0 {
      ShrLow(v / 2, n - 1);
    }
  }

  lemma {:induction false} ShrUnique(a: nat, b: nat, n: nat)
    requires b < Pow2(n)
    ensures Shr(Shl(a, n) + b, n) == a && Low(Shl(a, n) + b, n) == b
    decreases n
  {
    if n > 0 {
      assert (Shl(a, n) + b) / 2 == Shl(a, n - 1) + b / 2;
      ShrUnique(a, b / 2, n - 1);
    }
  }

  lemma {:induction false} ShlMonotone(a: nat, b: nat, n: nat)
    requires a <= b
    ensures Shl(a, n) <= Shl(b, n)
    decreases n
  {
    if n > 0 {
      ShlMonotone(a, b, n - 1);
    }
  }

  lemma {:induction false} ShrBelow(v: nat, m: nat, n: nat)
    requires v < Pow2(m + n)
    ensures Shr(v, n) < Pow2(m)
    decreases n
  {
    if n > 0 {
      ShrBelow(v / 2, m, n - 1);
    }
  }

  lemma {:induction false} ShlPow(v: nat, n: nat)
    ensures Shl(v, n) == v * Pow2(n)
    decreases n
  {
    if n > 0 {
      ShlPow(v, n - 1);
    }
  }

  // ---------------------------------------------------------------- numbers as bits

  lemma Regroup(a: seq<int>, b: seq<int>, c: seq<int>)
    ensures (a + b) + c == a + (b + c)
  {
  }

  lemma Nothing(a: seq<int>)
    ensures a + [] == a && [] + a == a
  {
  }

  /** The n low bits of v, most significant first. */
  function Bits(v: nat, n: nat): (r: seq<int>)
    ensures |r| == n
    decreases n, v
  {
    if n == 0 then [] else Bits(v / 2, n - 1) + [v % 2]
  }

  ghost function ByteBits(s: seq<byte>): (r: seq<int>)
    ensures |r| == 8 * |s|
  {
    if s == [] then [] else ByteBits(s[..|s| - 1]) + Bits(s[|s| - 1], 8)
  }

  lemma {:induction false} BitsConcat(hi: nat, lo: nat, n: nat, m: nat)
    requires lo < Pow2(m)
    ensures Bits(Shl(hi, m) + lo, n + m) == Bits(hi, n) + Bits(lo, m)
    decreases m
  {
    if m > 0 {
      assert (Shl(hi, m) + lo) / 2 == Shl(hi, m - 1) + lo / 2;
      BitsConcat(hi, lo / 2, n, m - 1);
    }
  }

  /** Equal bits mean equal numbers. */
  lemma {:induction false} BitsInjective(v: nat, w: nat, n: nat)
    requires v < Pow2(n) && w < Pow2(n) && Bits(v, n) == Bits(w, n)
    ensures v == w
    decreases n
  {
    if n > 0 {
      var a, b := Bits(v / 2, n - 1), Bits(w / 2, n - 1);
      assert a == Bits(v, n)[..n - 1] && b == Bits(w, n)[..n - 1];
      assert Bits(v, n)[n - 1] == v % 2 && Bits(w, n)[n - 1] == w % 2;
      BitsInjective(v / 2, w / 2, n - 1);
    }
  }

  lemma {:induction false} ByteBitsAppend(s: seq<byte>, c: byte)
    ensures ByteBits(s + [c]) == ByteBits(s) + Bits(c, 8)
  {
    assert (s + [c])[..|s|] == s;
  }

  lemma {:induction false} ByteBitsConcat(s: seq<byte>, t: seq<byte>)
    ensures ByteBits(s + t) == ByteBits(s) + ByteBits(t)
  {
    if t == [] {
      assert s + t == s;
    } else {
      var u, c := t[..|t| - 1], t[|t| - 1];
      ByteBitsConcat(s, u);
      assert s + t == (s + u) + [c] && t == u + [c];
      ByteBitsAppend(s + u, c);
      ByteBitsAppend(u, c);
    }
  }

  // ---------------------------------------------------------------- the buffers

  lemma {:induction false} TopSplit(v: nat, l: nat, hi: nat, lo: nat)
    requires 8 <= l <= 32 && v == Shl(hi, l - 8) + lo && lo < Pow2(l - 8)
    ensures Shl(v, 32 - l) == 0x100_0000 * hi + Shl(lo, 32 - l)
    ensures Shl(lo, 32 - l) < 0x100_0000
  {
    Pow2Values();
    ShlAdd(Shl(hi, l - 8), lo, 32 - l);
    ShlShl(hi, l - 8, 32 - l);
    ShlPow(hi, 24);
    ShlBelow(lo, 0, l - 8, 32 - l);
  }

  lemma {:induction false} ShlOctet(v: nat, n: nat)
    ensures Shl(v, n + 8) == 256 * Shl(v, n)
  {
    ShlShl(v, n, 8);
    ShlPow(Shl(v, n), 8);
    Pow2Values();
  }

  lemma WordParts(x: nat, hi: nat, lo: nat)
    requires x == 0x100_0000 * hi + lo && hi < 256 && lo < 0x100_0000
    ensures x / 0x100_0000 == hi && x * 256 % 0x1_0000_0000 == 256 * lo
  {
    assert x * 256 == 0x1_0000_0000 * hi + 256 * lo;
  }

  lemma {:induction false} TopByteSmall(v: nat, l: nat)
    requires 8 <= l && v < Pow2(l)
    ensures Shr(v, l - 8) < 256
  {
    Pow2Values();
    ShrBelow(v, 8, l - 8);
  }

  lemma {:induction false} TopByteWord(v: nat, l: nat, hi: nat, lo: nat)
    requires 8 <= l <= 32 && hi < 256 && v == Shl(hi, l - 8) + lo && lo < Pow2(l - 8)
    ensures Shl(v, 32 - l) / 0x100_0000 == hi
    ensures Shl(v, 32 - l) * 256 % 0x1_0000_0000 == Shl(lo, 32 - l + 8)
  {
    TopSplit(v, l, hi, lo);
    ShlOctet(lo, 32 - l);
    WordParts(Shl(v, 32 - l), hi, Shl(lo, 32 - l));
  }

  /** The top byte of a buffer that holds v in its top l bits, and the buffer without it. */
  lemma {:induction false} TopByte(v: nat, l: nat)
    requires 8 <= l <= 32 && v < Pow2(l)
    ensures Shr(v, l - 8) < 256 && Shl(v, 32 - l) / 0x100_0000 == Shr(v, l - 8)
    ensures Shl(v, 32 - l) * 256 % 0x1_0000_0000 == Shl(Low(v, l - 8), 32 - l + 8)
    ensures Bits(v, l) == Bits(Shr(v, l - 8), 8) + Bits(Low(v, l - 8), l - 8)
  {
    var hi, lo := Shr(v, l - 8), Low(v, l - 8);
    ShrLow(v, l - 8);
    TopByteSmall(v, l);
    TopByteWord(v, l, hi, lo);
    BitsConcat(hi, lo, 8, l - 8);
  }

  /** Adding the n bits of x below the l bits of v at the top of the buffer. */
  lemma {:induction false} Append(v: nat, l: nat, x: nat, n: nat)
    requires l + n <= 32 && v < Pow2(l) && x < Pow2(n)
    ensures Shl(v, 32 - l) + Shl(x, 32 - l - n) == Shl(Shl(v, n) + x, 32 - (l + n))
    ensures Shl(v, n) + x < Pow2(l + n)
    ensures Bits(Shl(v, n) + x, l + n) == Bits(v, l) + Bits(x, n)
  {
    ShlAdd(Shl(v, n), x, 32 - l - n);
    ShlShl(v, n, 32 - l - n);
    ShlBelow(v, x, l, n);
    BitsConcat(v, x, l, n);
  }

  // ---------------------------------------------------------------- writing

  /** A 32-bit buffer whose bits below the top l are zero. */
  ghost predicate TopHeld(buff: int, l: int) {
    0 <= l <= 32 && 0 <= buff < 0x1_0000_0000 && Low(buff, 32 - l) == 0
  }

  /** The top l bits. */
  ghost function TopBits(buff: nat, l: nat): (r: seq<int>)
    requires l <= 32
    ensures |r| == l
  {
    Bits(Shr(buff, 32 - l), l)
  }

  lemma {:induction false} SendTop(buff: int, l: int)
    requires TopHeld(buff, l) && l >= 8
    ensures buff / 0x100_0000 < 256
    ensures TopHeld(buff * 256 % 0x1_0000_0000, l - 8)
    ensures TopBits(buff, l) == Bits(buff / 0x100_0000, 8) + TopBits(buff * 256 % 0x1_0000_0000, l - 8)
  {
    Pow2Values();
    var a := Shr(buff, 32 - l);
    ShrLow(buff, 32 - l);
    ShrBelow(buff, l, 32 - l);
    TopByte(a, l);
    ShrUnique(Low(a, l - 8), 0, 32 - (l - 8));
  }

  /** A buffer is its live bits shifted to the top. */
  lemma {:induction false} TopForm(buff: int, l: int)
    requires TopHeld(buff, l)
    ensures buff == Shl(Shr(buff, 32 - l), 32 - l) && Shr(buff, 32 - l) < Pow2(l)
  {
    Pow2Values();
    ShrLow(buff, 32 - l);
    ShrBelow(buff, l, 32 - l);
  }

  /** ... and any l bits shifted to the top make a buffer. */
  lemma {:induction false} FormTop(v: nat, l: nat)
    requires l <= 32 && v < Pow2(l)
    ensures TopHeld(Shl(v, 32 - l), l) && TopBits(Shl(v, 32 - l), l) == Bits(v, l)
  {
    Pow2Values();
    ShrUnique(v, 0, 32 - l);
    ShlBelow(v, 0, l, 32 - l);
  }

  lemma {:induction false} PutBelow(buff: int, l: int, x: nat, n: nat)
    requires TopHeld(buff, l) && l + n <= 32 && x < Pow2(n)
    ensures TopHeld(buff + Shl(x, 32 - l - n), l + n)
    ensures TopBits(buff + Shl(x, 32 - l - n), l + n) == TopBits(buff, l) + Bits(x, n)
  {
    var a := Shr(buff, 32 - l);
    TopForm(buff, l);
    Append(a, l, x, n);
    FormTop(Shl(a, n) + x, l + n);
  }

  /** Sending the top byte leaves the stream as it is. */
  lemma {:induction false} SendStream(zbits: seq<byte>, buff: int, l: int)
    requires TopHeld(buff, l) && l >= 8
    ensures buff / 0x100_0000 < 256
    ensures TopHeld(buff * 256 % 0x1_0000_0000, l - 8)
    ensures ByteBits(zbits + [buff / 0x100_0000]) + TopBits(buff * 256 % 0x1_0000_0000, l - 8) == ByteBits(zbits)
        + TopBits(buff, l)
  {
    SendTop(buff, l);
    ByteBitsAppend(zbits, buff / 0x100_0000);
  }

  lemma {:induction false} PadTop(buff: int, l: int)
    requires TopHeld(buff, l) && l <= 8
    ensures TopHeld(buff, 8) && TopBits(buff, 8) == TopBits(buff, l) + Bits(0, 8 - l)
  {
    ShlPow(0, 24);
    PutBelow(buff, l, 0, 8 - l);
  }

  /** Padding fewer than 8 bits to a byte. */
  lemma {:induction false} PadStream(zbits: seq<byte>, buff: int, l: int)
    requires TopHeld(buff, l) && 0 < l <= 8
    ensures buff / 0x100_0000 < 256
    ensures ByteBits(zbits + [buff / 0x100_0000]) == ByteBits(zbits) + TopBits(buff, l) + Bits(0, 8 - l)
  {
    PadTop(buff, l);
    SendTop(buff, 8);
    ByteBitsAppend(zbits, buff / 0x100_0000);
    Nothing(Bits(buff / 0x100_0000, 8));
    Regroup(ByteBits(zbits), TopBits(buff, l), Bits(0, 8 - l));
    assert TopBits(buff * 256 % 0x1_0000_0000, 0) == [];
  }

  /** The bits in the output bytes and at the top of the buffer. */
  ghost function Held(zbits: seq<byte>, buff: int, live: int): (r: seq<int>)
    requires TopHeld(buff, live)
  {
    ByteBits(zbits) + TopBits(buff, live)
  }

  class BitWriter {
    var bsBuff: int
    var bsLive: int
    var zbits: seq<byte>

    ghost predicate Valid()
      reads this
    {
      TopHeld(bsBuff, bsLive)
    }

    /** All bits written so far. */
    ghost function Stream(): (r: seq<int>)
      reads this
      requires Valid()
    {
      Held(zbits, bsBuff, bsLive)
    }

    constructor ()
      ensures Valid() && Stream() == [] && bsLive == 0 && zbits == []
    {
      bsBuff, bsLive, zbits := 0, 0, [];
      new;
      LowZero(32);
    }

    /** Moves the top byte of the buffer to the output. */
    method SendByte()
      requires Valid() && bsLive >= 8
      modifies this
      ensures Valid() && bsLive == old(bsLive) - 8 && Stream() == old(Stream())
      ensures old(zbits) <= zbits
    {
      SendStream(zbits, bsBuff, bsLive);
      zbits := zbits + [bsBuff / 0x100_0000];
      bsBuff := bsBuff * 256 % 0x1_0000_0000;
      bsLive := bsLive - 8;
    }

    method SendBytes()
      requires Valid()
      modifies this
      ensures Valid() && bsLive < 8 && Stream() == old(Stream()) && old(zbits) <= zbits
    {
      while bsLive >= 8
        invariant Valid() && Stream() == old(Stream()) && old(zbits) <= zbits
        decreases bsLive
      {
        SendByte();
      }
    }

    /** Appends the n bits of x (bsW). */
    method Put(n: nat, x: nat)
      requires Valid() && n <= 24 && x < Pow2(n)
      modifies this
      ensures Valid() && Stream() == old(Stream()) + Bits(x, n) && old(zbits) <= zbits
    {
      SendBytes();
      PutBelow(bsBuff, bsLive, x, n);
      bsBuff := bsBuff + Shl(x, 32 - bsLive - n);  // the OR: the buffer's lower bits are zero
      bsLive := bsLive + n;
    }

    /** The output buffer has been delivered and is used again (numZ = 0). */
    method Restart()
      requires Valid()
      modifies this
      ensures Valid() && zbits == [] && old(Stream()) == ByteBits(old(zbits)) + Stream()
    {
      zbits := [];
      assert ByteBits([]) == [] && [] + TopBits(bsBuff, bsLive) == TopBits(bsBuff, bsLive);
    }

    /** Sends what is left, the last byte filled up with zero bits (bsFinishWrite). */
    method Finish() returns (ghost pad: nat)
      requires Valid()
      modifies this
      ensures pad < 8 && ByteBits(zbits) == old(Stream()) + Bits(0, pad) && old(zbits) <= zbits
    {
      SendBytes();
      pad := 0;
      if bsLive > 0 {
        pad := 8 - bsLive;
        PadStream(zbits, bsBuff, bsLive);
        zbits := zbits + [bsBuff / 0x100_0000];
        bsBuff := bsBuff * 256 % 0x1_0000_0000;
        bsLive := bsLive - 8;
      }
    }
  }

  lemma {:induction false} LowZero(n: nat)
    ensures Low(0, n) == 0
  {
    if n > 0 {
      LowZero(n - 1);
    }
  }

  // ---------------------------------------------------------------- reading

  lemma {:induction false} BitsOfLow(v: nat, m: nat, n: nat)
    requires n <= m
    ensures Bits(Low(v, m), n) == Bits(v, n)
    decreases n
  {
    if n > 0 {
      assert Low(v, m) / 2 == Low(v / 2, m - 1);
      BitsOfLow(v / 2, m - 1, n - 1);
    }
  }

  lemma {:induction false} LowWord(v: nat)
    ensures Low(v, 32) == v % 0x1_0000_0000
  {
    var hi, lo := v / 0x1_0000_0000, v % 0x1_0000_0000;
    Pow2Values();
    ShlPow(hi, 32);
    ShrUnique(hi, lo, 32);
  }

  /** After taking in a byte the live bits are the old ones and the byte's; what is pushed out at the
      top of the 32-bit buffer was stale. */
  lemma {:induction false} TakeByte(buff: nat, l: nat, c: byte)
    requires l <= 24
    ensures Bits((buff * 256 + c) % 0x1_0000_0000, l + 8) == Bits(buff, l) + Bits(c, 8)
  {
    Pow2Values();
    ShlPow(buff, 8);
    BitsConcat(buff, c, l, 8);
    LowWord(buff * 256 + c);
    BitsOfLow(buff * 256 + c, 32, l + 8);
  }

  lemma {:induction false} BitsTop(v: nat, n: nat, m: nat)
    ensures Bits(v, n + m) == Bits(Shr(v, m), n) + Bits(v, m)
    decreases m
  {
    if m > 0 {
      BitsTop(v / 2, n, m - 1);
    }
  }

  lemma {:induction false} TakeInBits(buff: nat, live: nat, input: seq<byte>)
    requires live <= 24 && input != []
    ensures Bits((buff * 256 + input[0]) % 0x1_0000_0000, live + 8) + ByteBits(input[1..]) == Bits(buff, live)
        + ByteBits(input)
  {
    TakeByte(buff, live, input[0]);
    FirstByteBits(input);
  }

  lemma {:induction false} TopRead(buff: nat, live: nat, n: nat, more: seq<int>)
    requires n <= live
    ensures Bits(buff, live) + more == Bits(Low(Shr(buff, live - n), n), n) + (Bits(buff, live - n) + more)
  {
    BitsTop(buff, n, live - n);
    BitsOfLow(Shr(buff, live - n), n, n);
  }

  class BitReader {
    var bsBuff: nat
    var bsLive: nat
    var input: seq<byte>  // bytes supplied and not yet taken in

    /** All bits that can be read without further input. */
    ghost function Pending(): (r: seq<int>)
      reads this
      ensures |r| == bsLive + 8 * |input|
    {
      Bits(bsBuff, bsLive) + ByteBits(input)
    }

    constructor (input: seq<byte>)
      ensures Pending() == ByteBits(input) && bsLive == 0
    {
      bsBuff, bsLive := 0, 0;
      this.input := input;
    }

    /** The caller supplies more input. */
    method Feed(more: seq<byte>)
      modifies this
      ensures Pending() == old(Pending()) + ByteBits(more) && bsLive == old(bsLive)
    {
      ByteBitsConcat(input, more);
      input := input + more;
    }

    method TakeIn()
      requires bsLive <= 24 && input != []
      modifies this
      ensures bsLive == old(bsLive) + 8 && Pending() == old(Pending()) && |input| == |old(input)| - 1
    {
      TakeInBits(bsBuff, bsLive, input);
      bsBuff := (bsBuff * 256 + input[0]) % 0x1_0000_0000;
      bsLive := bsLive + 8;
      input := input[1..];
    }

    /** Reads n bits, or stops when the input runs out, having lost nothing (GET_BITS). */
    method Get(n: nat) returns (r: Option<nat>)
      requires n <= 24
      modifies this
      ensures r.Some? <==> |old(Pending())| >= n
      ensures r.Some? ==> r.value < Pow2(n) && old(Pending()) == Bits(r.value, n) + Pending()
      ensures r.None? ==> Pending() == old(Pending()) && input == []
    {
      while bsLive < n
        invariant Pending() == old(Pending())
        decreases |input|
      {
        if input == [] { return None; }
        TakeIn();
      }
      var x := Low(Shr(bsBuff, bsLive - n), n);
      TopRead(bsBuff, bsLive, n, ByteBits(input));
      bsLive := bsLive - n;
      return Some(x);
    }
  }

  lemma {:induction false} FirstByteBits(s: seq<byte>)
    requires s != []
    ensures ByteBits(s) == Bits(s[0], 8) + ByteBits(s[1..])
  {
    var c := s[0];
    assert s == [c] + s[1..];
    ByteBitsConcat([c], s[1..]);
    ByteBitsAppend([], c);
    assert [] + [c] == [c] && ByteBits([]) == [];
  }

  // ---------------------------------------------------------------- input that arrives in pieces

  ghost function ChunkBits(chunks: seq<seq<byte>>): (r: seq<int>) {
    if chunks == [] then [] else ByteBits(chunks[0]) + ChunkBits(chunks[1..])
  }

  /** The decoder's view of its input: whenever the bytes supplied run out it returns to its caller and
      is entered again with the next piece; what it reads does not depend on where the input is cut. */
  class Input {
    const reader: BitReader
    var chunks: seq<seq<byte>>

    constructor (chunks: seq<seq<byte>>)
      ensures Rest() == ChunkBits(chunks) && fresh(reader)
    {
      reader := new BitReader([]);
      this.chunks := chunks;
    }

    /** All bits still to come. */
    ghost function Rest(): (r: seq<int>)
      reads this, reader
    {
      reader.Pending() + ChunkBits(chunks)
    }

    method Get(n: nat) returns (r: Option<nat>)
      requires n <= 24
      modifies this, reader
      ensures r.Some? <==> |old(Rest())| >= n
      ensures r.Some? ==> r.value < Pow2(n) && old(Rest()) == Bits(r.value, n) + Rest()
      ensures r.None? ==> Rest() == old(Rest())
    {
      while true
        invariant Rest() == old(Rest())
        decreases |chunks|
      {
        r := reader.Get(n);
        if r.Some? {
          return;
        }
        if chunks == [] { return None; }
        Regroup(reader.Pending(), ByteBits(chunks[0]), ChunkBits(chunks[1..]));
        reader.Feed(chunks[0]);
        chunks := chunks[1..];
      }
    }
  }
}
