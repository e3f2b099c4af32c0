/** The token log of deflate (deflate.c, deflate.h) and the text it stands for (section 3.2.3 of RFC 1951). */
module Lz77 {
  import opened Common

  datatype Token = Literal(c: byte) | Copy(dist: int, len: nat)

  /** len bytes more, each copied from dist places back; source and copy may overlap. */
  function CopyBack(s: seq<byte>, dist: int, len: nat): (r: seq<byte>)
    decreases len
  {
    if len == 0 then s
    else
      var t := CopyBack(s, dist, len - 1);
      if 1 <= dist <= |t| then t + [t[|t| - dist]] else t
  }

  function Expand(ts: seq<Token>): (r: seq<byte>) {
    if ts == [] then []
    else Extend(Expand(ts[..|ts| - 1]), ts[|ts| - 1])
  }

  lemma {:induction false} ExpandAppend(ts: seq<Token>, t: Token)
    ensures Expand(ts + [t]) == Extend(Expand(ts), t)
  {
    assert (ts + [t])[..|ts|] == ts;
  }

  /** What one token adds. */
  function Extend(s: seq<byte>, t: Token): (r: seq<byte>) {
    match t
    case Literal(c) => s + [c]
    case Copy(dist, len) => CopyBack(s, dist, len)
  }

  /** Every copy goes back to bytes that are there, and no further than reach; its length is one that can be coded. */
  ghost predicate Coded(ts: seq<Token>, reach: int) {
    ts == [] || (Coded(ts[..|ts| - 1], reach) && Near(Expand(ts[..|ts| - 1]), ts[|ts| - 1], reach)
        && Codable(ts[|ts| - 1]))
  }

  ghost predicate Near(s: seq<byte>, t: Token, reach: int) {
    t.Copy? ==> t.dist <= |s| && t.dist <= reach
  }

  ghost predicate Codable(t: Token) {
    t.Copy? ==> 1 <= t.dist && 3 <= t.len <= 258
  }

  lemma {:induction false} CodedAppend(ts: seq<Token>, t: Token, reach: int)
    ensures Coded(ts + [t], reach) <==> Coded(ts, reach) && Near(Expand(ts), t, reach) && Codable(t)
  {
    assert (ts + [t])[..|ts|] == ts;
  }

  lemma {:induction false} CodedPrefix(ts: seq<Token>, n: nat, reach: int)
    requires n <= |ts| && Coded(ts, reach)
    ensures Coded(ts[..n], reach)
  {
    if n < |ts| {
      assert ts[..|ts| - 1][..n] == ts[..n];
      CodedPrefix(ts[..|ts| - 1], n, reach);
    } else {
      assert ts[..n] == ts;
    }
  }

  lemma {:induction false} CodedFurther(ts: seq<Token>, reach: int, reach': int)
    requires Coded(ts, reach) && reach <= reach'
    ensures Coded(ts, reach')
  {
    if ts != [] {
      CodedFurther(ts[..|ts| - 1], reach, reach');
    }
  }

  lemma {:induction false} CopyBackGrows(s: seq<byte>, dist: int, len: nat)
    ensures s <= CopyBack(s, dist, len)
    ensures 1 <= dist <= |s| ==> |CopyBack(s, dist, len)| == |s| + len
    decreases len
  {
    if len > 0 {
      CopyBackGrows(s, dist, len - 1);
    }
  }

  /** A copy can be made in two parts. */
  lemma {:induction false} CopyBackParts(s: seq<byte>, dist: int, m: nat, n: nat)
    ensures CopyBack(CopyBack(s, dist, m), dist, n) == CopyBack(s, dist, m + n)
    decreases n
  {
    if n > 0 {
      CopyBackParts(s, dist, m, n - 1);
    }
  }

  lemma {:induction false} ExpandGrows(ts: seq<Token>, n: nat)
    requires n <= |ts|
    ensures Expand(ts[..n]) <= Expand(ts)
  {
    if n < |ts| {
      var us := ts[..|ts| - 1];
      assert us[..n] == ts[..n];
      ExpandGrows(us, n);
      if ts[|ts| - 1].Copy? { CopyBackGrows(Expand(us), ts[|ts| - 1].dist, ts[|ts| - 1].len); }
    } else {
      assert ts[..n] == ts;
    }
  }

  /** The len bytes at p equal those at q. */
  ghost predicate Matches(s: seq<byte>, p: int, q: int, len: int)
    decreases len
  {
    0 <= q < p && p + len <= |s| && (len > 0 ==> Matches(s, p, q, len - 1) && s[p + len - 1] == s[q + len - 1])
  }

  /** A copy from where the text matches continues the text. */
  lemma {:induction false} CopyContinues(s: seq<byte>, p: nat, q: nat, len: nat)
    requires Matches(s, p, q, len)
    ensures CopyBack(s[..p], p - q, len) == s[..p + len]
    decreases len
  {
    if len > 0 {
      CopyContinues(s, p, q, len - 1);
      assert s[..p + len] == s[..p + len - 1] + [s[p + len - 1]];
    }
  }

  // ---------------------------------------------------------------- the rolling hash

  /** UPDATE_HASH: three updates forget everything before them, and tell the last bytes apart. */
  ghost predicate Rolling<H(!new)>(upd: (H, byte) -> H) {
    && (forall h: H, h': H, a: byte, b: byte, c: byte {:trigger Three(upd, h, a, b, c), Three(upd, h', a, b, c)} ::
          Three(upd, h, a, b, c) == Three(upd, h', a, b, c))
    && (forall h: H, a: byte, b: byte, c: byte, d: byte {:trigger Three(upd, h, a, b, c), Three(upd, h, a, b, d)} ::
          Three(upd, h, a, b, c) == Three(upd, h, a, b, d) ==> c == d)
  }

  function Three<H>(upd: (H, byte) -> H, h: H, a: byte, b: byte, c: byte): (r: H) {
    upd(upd(upd(h, a), b), c)
  }

  /** The key of the three bytes at p. */
  ghost function Key<H>(upd: (H, byte) -> H, h0: H, s: seq<byte>, p: int): (r: H) {
    if 0 <= p && p + 3 <= |s| then Three(upd, h0, s[p], s[p + 1], s[p + 2]) else h0
  }

  lemma {:induction false} KeyRolls<H(!new)>(upd: (H, byte) -> H, h0: H, h: H, s: seq<byte>, p: nat)
    requires Rolling(upd) && p + 3 <= |s|
    ensures upd(upd(upd(h, s[p]), s[p + 1]), s[p + 2]) == Key(upd, h0, s, p)
  {
    assert upd(upd(upd(h, s[p]), s[p + 1]), s[p + 2]) == Three(upd, h, s[p], s[p + 1], s[p + 2]);
  }

  /** Equal keys and two equal bytes: the third is equal too. */
  lemma {:induction false} ThirdByte<H(!new)>(upd: (H, byte) -> H, h0: H, s: seq<byte>, p: nat, q: nat)
    requires Rolling(upd) && p + 3 <= |s| && q + 3 <= |s| && Key(upd, h0, s, p) == Key(upd, h0, s, q)
    requires s[p] == s[q] && s[p + 1] == s[q + 1]
    ensures s[p + 2] == s[q + 2]
  {
  }

  // ---------------------------------------------------------------- zlib's hash is a rolling hash

  /** A byte as its eight bits. */
  function Bit(c: byte, i: int): bool {
    0 <= i < 8 && Shifted(c, i) % 2 == 1
  }

  function Shifted(c: nat, i: nat): (r: nat) {
    if i == 0 then c else Shifted(c / 2, i - 1)
  }

  lemma {:induction false} BitsTell(c: nat, d: nat, n: nat)
    requires c < Pow2(n) && d < Pow2(n) && forall i :: 0 <= i < n ==> Shifted(c, i) % 2 == Shifted(d, i) % 2
    ensures c == d
  {
    if n > 0 {
      assert Shifted(c, 0) == c && Shifted(d, 0) == d;
      forall i | 0 <= i < n - 1
        ensures Shifted(c / 2, i) % 2 == Shifted(d / 2, i) % 2
      {
        assert Shifted(c, i + 1) % 2 == Shifted(d, i + 1) % 2;
      }
      BitsTell(c / 2, d / 2, n - 1);
    }
  }

  /** The hash value h, of the given number of bits, shifted up by shift, and c added to its low bits. */
  function Update(bits: nat, shift: nat, h: seq<bool>, c: byte): (r: seq<bool>)
    ensures |r| == bits && forall i :: 0 <= i < bits ==> r[i] == ((0 <= i - shift < |h| && h[i - shift]) != Bit(c, i))
  {
    seq(bits, i requires 0 <= i < bits => ((0 <= i - shift < |h| && h[i - shift]) != Bit(c, i)))
  }

  lemma {:induction false} UpdatesForget(bits: nat, shift: nat, h: seq<bool>, h': seq<bool>, a: byte, b: byte, c: byte)
    requires bits <= 3 * shift
    ensures Update(bits, shift, Update(bits, shift, Update(bits, shift, h, a), b), c)
         == Update(bits, shift, Update(bits, shift, Update(bits, shift, h', a), b), c)
  {
  }

  lemma {:induction false} UpdateTells(bits: nat, shift: nat, h: seq<bool>, c: byte, d: byte)
    requires bits >= 8 && Update(bits, shift, h, c) == Update(bits, shift, h, d)
    ensures c == d
  {
    forall i | 0 <= i < 8
      ensures Shifted(c, i) % 2 == Shifted(d, i) % 2
    {
      assert Update(bits, shift, h, c)[i] == Update(bits, shift, h, d)[i];
    }
    Pow2Values();
    BitsTell(c, d, 8);
  }

  /** With a shift of at least a third of its bits, and at least eight of them, zlib's hash is a rolling hash. */
  lemma {:induction false} UpdateRolls(bits: nat, shift: nat)
    requires 8 <= bits <= 3 * shift
    ensures Rolling((h, c) => Update(bits, shift, h, c))
  {
    var upd := (h: seq<bool>, c: byte) => Update(bits, shift, h, c);
    forall h, h', a: byte, b: byte, c: byte {:trigger Three(upd, h, a, b, c), Three(upd, h', a, b, c)}
      ensures Three(upd, h, a, b, c) == Three(upd, h', a, b, c)
    {
      UpdatesForget(bits, shift, h, h', a, b, c);
    }
    forall h, a: byte, b: byte, c: byte, d: byte {:trigger Three(upd, h, a, b, c), Three(upd, h, a, b, d)} |
      Three(upd, h, a, b, c) == Three(upd, h, a, b, d)
      ensures c == d
    {
      UpdateTells(bits, shift, upd(upd(h, a), b), c, d);
    }
  }
}
