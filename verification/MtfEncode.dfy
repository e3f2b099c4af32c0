/** generateMTFValues of compress.c: last column, move-to-front and zero runs in one pass, writing
    16-bit symbols over the 32-bit row pointers it is still reading. */
module MtfEncode {
  import opened Common
  import opened Rotations
  import opened Bwt
  import opened MtfCoding

  // ---------------------------------------------------------------- the symbols in use

  function UsedBelow(inUse: seq<bool>, v: nat): (r: nat)
    requires v <= |inUse|
    ensures r <= v
  {
    if v == 0 then 0 else UsedBelow(inUse, v - 1) + (if inUse[v - 1] then 1 else 0)
  }

  lemma {:induction false} UsedBelowGrows(inUse: seq<bool>, u: nat, v: nat)
    requires u <= v <= |inUse|
    ensures UsedBelow(inUse, u) <= UsedBelow(inUse, v)
  {
    if u < v {
      UsedBelowGrows(inUse, u, v - 1);
    }
  }

  lemma UsedInRange(inUse: seq<bool>, v: nat)
    requires v < |inUse| && inUse[v]
    ensures UsedBelow(inUse, v) < UsedBelow(inUse, |inUse|)
  {
    UsedBelowGrows(inUse, v + 1, |inUse|);
  }

  method MakeMaps(inUse: seq<bool>) returns (unseqToSeq: array<int>, nInUse: int)
    requires |inUse| == 256
    ensures fresh(unseqToSeq) && unseqToSeq.Length == 256 && nInUse == UsedBelow(inUse, 256)
    ensures forall v :: 0 <= v < 256 && inUse[v] ==> unseqToSeq[v] == UsedBelow(inUse, v)
  {
    unseqToSeq := new int[256];
    nInUse := 0;
    for i := 0 to 256
      invariant nInUse == UsedBelow(inUse, i)
      invariant forall v :: 0 <= v < i && inUse[v] ==> unseqToSeq[v] == UsedBelow(inUse, v)
    {
      if inUse[i] {
        unseqToSeq[i] := nInUse;
        nInUse := nInUse + 1;
      }
    }
  }

  /** The last column in terms of the symbols in use. */
  ghost function Column(inUse: seq<bool>, b: seq<int>, f: seq<int>): (r: seq<int>)
    requires |inUse| == 256 && |f| == |b| && IsPerm(f) && Bytes(b)
    ensures |r| == |b|
  {
    seq(|b|, i requires 0 <= i < |b| => UsedBelow(inUse, LastColumn(b, f)[i]))
  }

  // ---------------------------------------------------------------- the symbol buffer

  /** Symbols are stored over the row pointers: symbol wr takes half of pointer wr / 2. */
  class SymbolBuffer {
    const ptr: array<int>
    const mtfv: array<int>
    var wr: int

    ghost predicate Valid()
      reads this
    {
      ptr != mtfv && 0 <= wr <= mtfv.Length
    }

    ghost function Written(): (r: seq<int>)
      reads this, mtfv
      requires Valid()
    {
      mtfv[..wr]
    }

    constructor (ptr: array<int>, mtfv: array<int>)
      requires ptr != mtfv
      ensures Valid() && wr == 0 && this.ptr == ptr && this.mtfv == mtfv
    {
      this.ptr, this.mtfv := ptr, mtfv;
      wr := 0;
    }

    /** Pointers beyond wr / 2 stay readable. */
    method Put(v: int)
      requires Valid() && wr < mtfv.Length
      modifies this, ptr, mtfv
      ensures Valid() && wr == old(wr) + 1 && Written() == old(Written()) + [v]
      ensures forall k :: 0 <= k < ptr.Length && k > old(wr) / 2 ==> ptr[k] == old(ptr[k])
    {
      mtfv[wr] := v;
      if wr / 2 < ptr.Length {
        ptr[wr / 2] := if wr % 2 == 0 then ptr[wr / 2] / 0x1_0000 * 0x1_0000 + v
            else ptr[wr / 2] % 0x1_0000 + v * 0x1_0000;
      }
      wr := wr + 1;
    }

    /** Writes the digits of a run of zeros. */
    method PutRun(zeros: nat)
      requires Valid() && zeros > 0 && wr + |Digits(zeros)| <= mtfv.Length
      modifies this, ptr, mtfv
      ensures Valid() && Written() == old(Written()) + Digits(zeros) && wr == old(wr) + |Digits(zeros)|
      ensures forall k :: 0 <= k < ptr.Length && 2 * k >= wr ==> ptr[k] == old(ptr[k])
    {
      ghost var before := Written();
      var zPend := zeros - 1;
      while true
        invariant Valid() && zPend >= 0 && Written() + Digits(zPend + 1) == before + Digits(zeros)
        invariant old(wr) <= wr && wr + |Digits(zPend + 1)| == old(wr) + |Digits(zeros)|
        invariant forall k :: 0 <= k < ptr.Length && 2 * k >= wr ==> ptr[k] == old(ptr[k])
        decreases zPend
      {
        ghost var w := Written();
        assert Digits(zPend + 1) == [zPend % 2] + Digits(zPend / 2);
        if zPend % 2 == 1 { Put(RUNB); } else { Put(RUNA); }
        assert Written() + Digits(zPend / 2) == w + Digits(zPend + 1);
        if zPend < 2 { break; }
        zPend := (zPend - 2) / 2;
      }
    }
  }

  // ---------------------------------------------------------------- the encoder's list

  lemma {:induction false} IndexUnique(list: seq<int>, x: int, j: nat)
    requires j < |list| && list[j] == x && forall k :: 0 <= k < j ==> list[k] != x
    ensures IndexOf(list, x) == j
  {
  }

  /** Finds x, which is not at the front, shifting the list up on the way, and puts it in front. */
  method FindAndMove(yy: array<int>, n: nat, x: int) returns (j: int)
    requires 2 <= n <= yy.Length && yy[0] != x && IndexOf(yy[..n], x) < n && yy[IndexOf(yy[..n], x)] == x
    modifies yy
    ensures j == IndexOf(old(yy[..n]), x) && 0 < j < n && yy[..n] == ToFront(old(yy[..n]), j)
  {
    ghost var l := yy[..n];
    ghost var at := IndexOf(l, x);
    var rtmp := yy[1];
    yy[1] := yy[0];
    j := 1;
    while rtmp != x
      invariant 1 <= j <= at && rtmp == l[j] && forall k :: 0 <= k < j ==> l[k] != x
      invariant forall k :: 0 <= k < n ==> yy[k] == l[if 1 <= k <= j then k - 1 else k]
      decreases at - j
    {
      j := j + 1;
      var rtmp2 := rtmp;
      rtmp := yy[j];
      yy[j] := rtmp2;
    }
    yy[0] := rtmp;
    IndexUnique(l, x, j);
  }

  /** What the encoder has done when it has read i rows. */
  ghost predicate Encoding(s: seq<int>, n: nat, i: nat, list: seq<int>, syms: seq<int>, zPend: nat) {
    && i <= |s| && Symbols(n, s)
    && list == ListTo(n, s, i)
    && Coded(syms, zPend) == CodeTo(Ranks(n, s), i)
  }

  lemma {:induction false} EncodingStart(s: seq<int>, n: nat)
    requires Symbols(n, s)
    ensures Encoding(s, n, 0, Identity(n), [], 0)
  {
  }

  lemma {:induction false} EncodingFront(s: seq<int>, n: nat, i: nat, list: seq<int>, syms: seq<int>, zPend: nat)
    requires Encoding(s, n, i, list, syms, zPend) && i < |s| && |list| > 0 && list[0] == s[i]
    ensures Encoding(s, n, i + 1, list, syms, zPend + 1)
  {
    IndexUnique(list, s[i], 0);
    assert ToFront(list, 0) == list;
  }

  lemma {:induction false} EncodingOther(s: seq<int>, n: nat, i: nat, list: seq<int>, syms: seq<int>, zPend: nat)
    requires Encoding(s, n, i, list, syms, zPend) && i < |s| && |list| > 0 && list[0] != s[i]
    ensures 0 < IndexOf(list, s[i]) < n == |list| && list[IndexOf(list, s[i])] == s[i]
    ensures Encoding(s, n, i + 1, ToFront(list, IndexOf(list, s[i])), syms + Digits(zPend) + [IndexOf(list, s[i]) + 1],
        0)
    ensures |syms| + |Digits(zPend)| <= i
  {
    RankBelow(n, s, i, s[i]);
  }

  /** Reads row i's last character and brings list and symbols up to date. */
  method EncodeRow(buf: SymbolBuffer, yy: array<int>, x: int, zPend: nat, nInUse: nat, ghost s: seq<int>, ghost i: nat)
    returns (zPend': nat)
    requires buf.Valid() && yy != buf.ptr && yy != buf.mtfv && 0 < nInUse <= yy.Length && buf.mtfv.Length > |s|
    requires i < |s| && x == s[i] && Encoding(s, nInUse, i, yy[..nInUse], buf.Written(), zPend)
    modifies buf, buf.ptr, buf.mtfv, yy
    ensures buf.Valid() && Encoding(s, nInUse, i + 1, yy[..nInUse], buf.Written(), zPend')
    ensures forall k :: 0 <= k < buf.ptr.Length && k > i ==> buf.ptr[k] == old(buf.ptr[k])
  {
    if yy[0] == x {
      EncodingFront(s, nInUse, i, yy[..nInUse], buf.Written(), zPend);
      return zPend + 1;
    }
    EncodingOther(s, nInUse, i, yy[..nInUse], buf.Written(), zPend);
    if zPend > 0 {
      buf.PutRun(zPend);
    }
    var j := FindAndMove(yy, nInUse, x);
    assert old(buf.Written()) + Digits(zPend) == buf.Written();
    buf.Put(j + 1);
    return 0;
  }

  ghost predicate Covers(inUse: seq<bool>, b: seq<int>) {
    |inUse| == 256 && Bytes(b) && forall k :: 0 <= k < |b| ==> inUse[b[k]]
  }

  lemma {:induction false} ColumnSymbols(inUse: seq<bool>, b: seq<int>, f: seq<int>)
    requires Covers(inUse, b) && |f| == |b| && IsPerm(f)
    ensures Symbols(UsedBelow(inUse, 256), Column(inUse, b, f))
  {
    forall k | 0 <= k < |b|
      ensures 0 <= Column(inUse, b, f)[k] < UsedBelow(inUse, 256)
    {
      UsedInRange(inUse, LastColumn(b, f)[k]);
    }
  }

  method FreshList(n: nat) returns (yy: array<int>)
    requires n <= 256
    ensures fresh(yy) && yy.Length == 256 && yy[..n] == Identity(n)
  {
    yy := new int[256];
    for i := 0 to n
      invariant forall k :: 0 <= k < i ==> yy[k] == k
    {
      yy[i] := i;
    }
  }

  /** Encodes all rows; returns the zeros still pending. */
  method EncodeRows(buf: SymbolBuffer, yy: array<int>, unseqToSeq: array<int>, block: seq<byte>, inUse: seq<bool>,
      nInUse: nat,
                    ghost f: seq<int>, ghost s: seq<int>) returns (zPend: nat)
    requires buf.Valid() && yy != buf.ptr && yy != buf.mtfv && 0 < nInUse <= yy.Length
    requires unseqToSeq != yy && unseqToSeq != buf.ptr && unseqToSeq != buf.mtfv && unseqToSeq.Length == 256
    requires |block| == buf.ptr.Length < buf.mtfv.Length && f == buf.ptr[..] && IsPerm(f) && Covers(inUse, block)
    requires forall v :: 0 <= v < 256 && inUse[v] ==> unseqToSeq[v] == UsedBelow(inUse, v)
    requires s == Column(inUse, block, f) && Encoding(s, nInUse, 0, yy[..nInUse], buf.Written(), 0)
    modifies buf, buf.ptr, buf.mtfv, yy
    ensures buf.Valid() && Encoding(s, nInUse, |block|, yy[..nInUse], buf.Written(), zPend)
  {
    var n := |block|;
    zPend := 0;
    for i := 0 to n
      invariant buf.Valid() && Encoding(s, nInUse, i, yy[..nInUse], buf.Written(), zPend)
      invariant forall k :: i <= k < n ==> buf.ptr[k] == f[k]
    {
      var j := buf.ptr[i] - 1;
      if j < 0 { j := j + n; }
      assert j == Back(n, f[i], 1);
      zPend := EncodeRow(buf, yy, unseqToSeq[block[j]], zPend, nInUse, s, i);
    }
  }

  /** Writes the symbol stream of the block over the row pointers. */
  method Generate(ptr: array<int>, mtfv: array<int>, block: seq<byte>, inUse: seq<bool>)
      returns (buf: SymbolBuffer, nInUse: int)
    requires ptr != mtfv && 0 < |block| == ptr.Length < mtfv.Length && IsPerm(ptr[..]) && Covers(inUse, block)
    modifies ptr, mtfv
    ensures fresh(buf) && buf.Valid() && buf.ptr == ptr && buf.mtfv == mtfv && nInUse == UsedBelow(inUse, 256)
    ensures buf.Written() == CodeAll(Ranks(nInUse, Column(inUse, block, old(ptr[..]))), nInUse + 1)
  {
    ghost var f := ptr[..];
    ghost var s := Column(inUse, block, f);
    var unseqToSeq;
    unseqToSeq, nInUse := MakeMaps(inUse);
    ColumnSymbols(inUse, block, f);
    assert 0 <= s[0] < nInUse;
    EncodingStart(s, nInUse);
    var yy := FreshList(nInUse);
    buf := new SymbolBuffer(ptr, mtfv);
    var zPend := EncodeRows(buf, yy, unseqToSeq, block, inUse, nInUse, f, s);
    if zPend > 0 {
      buf.PutRun(zPend);
    }
    buf.Put(nInUse + 1);
  }
}
