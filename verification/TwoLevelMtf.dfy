/** The decoder's move-to-front list: 16 segments of 16 symbols that slide down a 4096-entry array
    (mtfa and mtfbase of decompress.c), against the plain list they stand for. */
module TwoLevelMtf {
  import opened Common
  import opened MtfCoding

  /** The symbol at offset k of segment g. */
  function Cell(a: seq<int>, base: seq<int>, g: int, k: int): int
    requires |base| == 16 && 0 <= g < 16 && 0 <= base[g] + k < |a|
  {
    a[base[g] + k]
  }

  /** The segments lie in order without overlapping. */
  ghost predicate Ordered(base: seq<int>) {
    && |base| == 16 && 0 <= base[0]
    && (forall g :: 0 <= g < 16 ==> Room(base, g))
  }

  ghost predicate Room(base: seq<int>, g: int)
    requires |base| == 16 && 0 <= g < 16
  {
    base[g] + 16 <= if g < 15 then base[g + 1] else 4096
  }

  lemma {:induction false} OrderedApart(base: seq<int>, g: int, h: int)
    requires Ordered(base) && 0 <= g <= h < 16
    ensures 0 <= base[g] && base[g] + 16 * (h - g) <= base[h] <= 4096 - 16 * (16 - h)
    decreases h, 16 - g
  {
    if g > 0 {
      OrderedApart(base, g - 1, g - 1);
      assert Room(base, g - 1);
    }
    if g < h {
      OrderedApart(base, g, h - 1);
      assert Room(base, h - 1);
    }
    OrderedTop(base, h);
  }

  lemma {:induction false} OrderedTop(base: seq<int>, h: int)
    requires Ordered(base) && 0 <= h < 16
    ensures base[h] <= 4096 - 16 * (16 - h)
    decreases 16 - h
  {
    assert Room(base, h);
    if h < 15 {
      OrderedTop(base, h + 1);
    }
  }

  lemma OrderedCells(base: seq<int>)
    requires Ordered(base)
    ensures forall g :: 0 <= g < 16 ==> 0 <= base[g] <= 4080
    ensures forall g, h :: 0 <= g < h < 16 ==> base[g] + 16 <= base[h]
  {
    forall g, h | 0 <= g <= h < 16
      ensures 0 <= base[g] && base[g] + 16 * (h - g) <= base[h] <= 4080
    {
      OrderedApart(base, g, h);
    }
    assert forall g :: 0 <= g < 16 ==> 0 <= base[g] <= 4080 by {
      forall g | 0 <= g < 16
        ensures 0 <= base[g] <= 4080
      {
        OrderedApart(base, g, g);
      }
    }
  }

  /** The structure stands for the list. */
  ghost predicate Holds(a: seq<int>, base: seq<int>, list: seq<int>) {
    && |a| == 4096 && |list| == 256 && Ordered(base)
    && (forall g :: 0 <= g < 16 ==> 0 <= base[g] <= 4080)
    && forall g, k {:trigger Cell(a, base, g, k)} :: 0 <= g < 16 && 0 <= k < 16
        ==> Cell(a, base, g, k) == list[16 * g + k]
  }

  // ---------------------------------------------------------------- shifting within a segment

  /** The n entries from lo moved up by one place; the entry at lo stays. */
  ghost function Shifted(a: seq<int>, lo: nat, n: nat): (r: seq<int>)
    requires lo + n < |a|
    ensures |r| == |a|
    ensures forall i :: 0 <= i < |a| ==> r[i] == if lo < i <= lo + n then a[i - 1] else a[i]
  {
    a[..lo + 1] + a[lo..lo + n] + a[lo + n + 1..]
  }

  /** Moving within segment 0. */
  lemma {:induction false} ShortMove(a: seq<int>, base: seq<int>, list: seq<int>, nn: nat)
    requires Holds(a, base, list) && nn < 16
    ensures Holds(Shifted(a, base[0], nn)[base[0] := list[nn]], base, ToFront(list, nn))
  {
    var r := Shifted(a, base[0], nn)[base[0] := list[nn]];
    OrderedCells(base);
    forall g, k {:trigger Cell(r, base, g, k)} | 0 <= g < 16 && 0 <= k < 16
      ensures Cell(r, base, g, k) == ToFront(list, nn)[16 * g + k]
    {
      assert Cell(a, base, g, k) == list[16 * g + k];
      if g == 0 && 0 < k <= nn {
        assert Cell(a, base, 0, k - 1) == list[k - 1];
      }
    }
  }

  // ---------------------------------------------------------------- moving from a further segment

  /** Where segment h starts while the move out of segment top has come down to segment g. */
  function SlidBase(base0: seq<int>, top: int, g: int, h: int): int
    requires |base0| == 16 && 0 <= h < 16
  {
    base0[h] + if h == top then (if g == top then 1 else 0) else if g < h < top then -1 else 0
  }

  /** Segments below g still as they were; those above have slid down by one and taken over the last
      symbol of their neighbour; segment top has closed the gap that the moved symbol left. */
  ghost predicate Sliding(a: seq<int>, base: seq<int>, a0: seq<int>, base0: seq<int>, top: int, off: int, g: int) {
    && |a| == 4096 == |a0| && |base| == 16 == |base0| && 0 <= g <= top && 1 <= top < 16 && 0 <= off < 16
    && 1 <= base0[0]
    && (forall h :: 0 <= h < 16 ==> 0 <= base0[h] <= 4080)
    && (forall h, i :: 0 <= h < i < 16 ==> base0[h] + 16 <= base0[i])
    && (forall h :: 0 <= h < 16 ==> base[h] == SlidBase(base0, top, g, h))
    && (forall h, k {:trigger Cell(a0, base0, h, k)} :: 0 <= h < 16 && 0 <= k < 16 && h != top ==> a[base0[h] + k] == Cell(a0, base0, h, k))
    && (forall i :: base0[top] < i < base0[top] + 16 ==> a[i] == a0[if i <= base0[top] + off then i - 1 else i])
    && (forall h :: g < h <= top ==> a[base0[h] - (if h < top then 1 else 0)] == a0[base0[h - 1] + 15])
  }

  lemma {:induction false} SlideStart(a0: seq<int>, base0: seq<int>, list: seq<int>, top: int, off: int)
    requires Holds(a0, base0, list) && 1 <= top < 16 && 0 <= off < 16 && 1 <= base0[0]
    ensures base0[top] + off < 4096
    ensures Sliding(Shifted(a0, base0[top], off), base0[top := base0[top] + 1], a0, base0, top, off, top)
  {
    OrderedCells(base0);
  }

  lemma {:induction false} SlideStep(a: seq<int>, base: seq<int>, a0: seq<int>, base0: seq<int>, top: int, off: int,
      g: int)
    requires Sliding(a, base, a0, base0, top, off, g) && g > 0
    ensures 0 <= base[g] - 1 < 4096 && 0 <= base[g - 1] + 15 < 4096
    ensures Sliding(a[base[g] - 1 := a[base[g - 1] + 15]], base[g := base[g] - 1], a0, base0, top, off, g - 1)
  {
    assert Cell(a0, base0, g - 1, 15) == a[base0[g - 1] + 15];
  }

  lemma {:induction false} SlideEnd(a: seq<int>, base: seq<int>, a0: seq<int>, base0: seq<int>, list: seq<int>,
      top: int, off: int)
    requires Sliding(a, base, a0, base0, top, off, 0) && Holds(a0, base0, list)
    ensures 0 <= base[0] - 1 < 4096
    ensures Holds(a[base[0] - 1 := list[16 * top + off]], base[0 := base[0] - 1], ToFront(list, 16 * top + off))
  {
    var a', base', list' := a[base[0] - 1 := list[16 * top + off]], base[0 := base[0] - 1],
        ToFront(list, 16 * top + off);
    forall g | 0 <= g < 16
      ensures Room(base', g)
    {
      assert Room(base0, g);
    }
    forall g, k {:trigger Cell(a', base', g, k)} | 0 <= g < 16 && 0 <= k < 16
      ensures Cell(a', base', g, k) == list'[16 * g + k]
    {
      SlidCell(a, base, a0, base0, list, top, off, g, k);
    }
  }

  lemma {:induction false} SlidCell(a: seq<int>, base: seq<int>, a0: seq<int>, base0: seq<int>, list: seq<int>,
      top: int, off: int, g: int, k: int)
    requires Sliding(a, base, a0, base0, top, off, 0) && Holds(a0, base0, list)
    requires 0 <= g < 16 && 0 <= k < 16
    ensures 0 <= base[0] - 1 < 4096
    ensures var a', base' := a[base[0] - 1 := list[16 * top + off]], base[0 := base[0] - 1];
            0 <= base'[g] + k < 4096 && Cell(a', base', g, k) == ToFront(list, 16 * top + off)[16 * g + k]
  {
    assert Cell(a0, base0, g, k) == list[16 * g + k];
    if k > 0 {
      assert Cell(a0, base0, g, k - 1) == list[16 * g + (k - 1)];
    } else if g > 0 {
      assert Cell(a0, base0, g - 1, 15) == list[16 * (g - 1) + 15];
    }
  }

  // ---------------------------------------------------------------- moving everything back to the top

  /** The symbols from m on have been copied to the top end; the others are still where they were. */
  ghost predicate Rebuilding(a: seq<int>, base0: seq<int>, list: seq<int>, m: nat) {
    && |a| == 4096 && |list| == 256 && m <= 256 && |base0| == 16
    && (forall g :: 0 <= g < 16 ==> 0 <= base0[g] <= 3840 + 16 * g)
    && (forall g, k {:trigger Cell(a, base0, g, k)} :: 0 <= g < 16 && 0 <= k < 16 && 16 * g + k < m ==> Cell(a, base0, g, k) == list[16 * g + k])
    && (forall i :: m <= i < 256 ==> a[3840 + i] == list[i])
  }

  lemma {:induction false} RebuildStart(a: seq<int>, base: seq<int>, list: seq<int>)
    requires Holds(a, base, list)
    ensures Rebuilding(a, base, list, 256)
  {
    forall g | 0 <= g < 16
      ensures 0 <= base[g] <= 3840 + 16 * g
    {
      OrderedApart(base, g, g);
    }
  }

  /** The destination lies beyond every entry that is still to be read. */
  lemma {:induction false} RebuildStep(a: seq<int>, base0: seq<int>, list: seq<int>, g: int, k: int)
    requires 0 <= g < 16 && 0 <= k < 16 && Rebuilding(a, base0, list, 16 * g + k + 1)
    ensures Rebuilding(a[3840 + 16 * g + k := Cell(a, base0, g, k)], base0, list, 16 * g + k)
  {
    var r := a[3840 + 16 * g + k := Cell(a, base0, g, k)];
    forall h, i {:trigger Cell(r, base0, h, i)} | 0 <= h < 16 && 0 <= i < 16 && 16 * h + i < 16 * g + k
      ensures Cell(r, base0, h, i) == list[16 * h + i]
    {
      assert Cell(a, base0, h, i) == list[16 * h + i];
    }
  }

  lemma {:induction false} RebuildEnd(a: seq<int>, base0: seq<int>, base: seq<int>, list: seq<int>)
    requires Rebuilding(a, base0, list, 0)
    requires |base| == 16 && forall g :: 0 <= g < 16 ==> base[g] == 3840 + 16 * g
    ensures Holds(a, base, list)
  {
    forall g, k {:trigger Cell(a, base, g, k)} | 0 <= g < 16 && 0 <= k < 16
      ensures Cell(a, base, g, k) == list[16 * g + k]
    {
      assert a[3840 + (16 * g + k)] == list[16 * g + k];
    }
  }

  // ---------------------------------------------------------------- the structure

  class MtfList {
    const mtfa: array<int>
    const mtfbase: array<int>
    ghost var list: seq<int>

    ghost predicate Valid()
      reads this, mtfa, mtfbase
    {
      mtfa != mtfbase && Holds(mtfa[..], mtfbase[..], list) && mtfbase[0] >= 1
    }

    constructor ()
      ensures Valid() && list == Identity(256) && fresh(mtfa) && fresh(mtfbase)
    {
      mtfa, mtfbase := new int[4096](_ => 0), new int[16](_ => 0);
      list := Identity(256);
      new;
      var kk := 4095;
      var ii := 15;
      while ii >= 0
        invariant -1 <= ii <= 15 && kk == 3840 + 16 * (ii + 1) - 1
        invariant forall g :: ii < g < 16 ==> mtfbase[g] == 3840 + 16 * g
        invariant forall p :: 3840 + 16 * (ii + 1) <= p < 4096 ==> mtfa[p] == p - 3840
        invariant list == Identity(256)
      {
        var jj := 15;
        while jj >= 0
          invariant -1 <= jj <= 15 && kk == 3840 + 16 * ii + jj
          invariant forall g :: ii < g < 16 ==> mtfbase[g] == 3840 + 16 * g
          invariant forall p :: 3840 + 16 * ii + jj + 1 <= p < 4096 ==> mtfa[p] == p - 3840
          invariant list == Identity(256)
        {
          mtfa[kk] := ii * 16 + jj;
          kk := kk - 1;
          jj := jj - 1;
        }
        mtfbase[ii] := kk + 1;
        ii := ii - 1;
      }
      RebuildEnd(mtfa[..], mtfbase[..], mtfbase[..], list);
    }

    method Front() returns (uc: int)
      requires Valid()
      ensures uc == list[0]
    {
      uc := mtfa[mtfbase[0]];
      assert Cell(mtfa[..], mtfbase[..], 0, 0) == list[0];
    }

    /** Moves the n entries from lo up by one place, from the top end, four at a time while unrolled. */
    method ShiftUp(lo: nat, n: nat, unrolled: bool)
      requires lo + n < mtfa.Length
      modifies mtfa
      ensures mtfa[..] == Shifted(old(mtfa[..]), lo, n)
    {
      var nn := n;
      while unrolled && nn > 3
        invariant 0 <= nn <= n
        invariant forall i :: 0 <= i < mtfa.Length ==> mtfa[i] == old(mtfa[..])[if lo + nn < i <= lo + n then i - 1
            else i]
      {
        var z := lo + nn;
        mtfa[z] := mtfa[z - 1];
        mtfa[z - 1] := mtfa[z - 2];
        mtfa[z - 2] := mtfa[z - 3];
        mtfa[z - 3] := mtfa[z - 4];
        nn := nn - 4;
      }
      while nn > 0
        invariant 0 <= nn <= n
        invariant forall i :: 0 <= i < mtfa.Length ==> mtfa[i] == old(mtfa[..])[if lo + nn < i <= lo + n then i - 1
            else i]
      {
        mtfa[lo + nn] := mtfa[lo + nn - 1];
        nn := nn - 1;
      }
    }

    /** Copies all segments back to the top of the array. */
    method Rebuild()
      requires mtfa != mtfbase && Holds(mtfa[..], mtfbase[..], list)
      modifies mtfa, mtfbase
      ensures Valid() && list == old(list)
    {
      ghost var base0 := mtfbase[..];
      RebuildStart(mtfa[..], base0, list);
      var kk, ii := 4095, 15;
      while ii >= 0
        invariant -1 <= ii <= 15 && kk == 3840 + 16 * (ii + 1) - 1 && list == old(list)
        invariant Rebuilding(mtfa[..], base0, list, 16 * (ii + 1)) && mtfbase.Length == 16
        invariant forall g :: 0 <= g < 16 ==> mtfbase[g] == if g <= ii then base0[g] else 3840 + 16 * g
      {
        var jj := 15;
        while jj >= 0
          invariant -1 <= jj <= 15 && kk == 3840 + 16 * ii + jj && list == old(list)
          invariant Rebuilding(mtfa[..], base0, list, 16 * ii + jj + 1)
          invariant forall g :: 0 <= g < 16 ==> mtfbase[g] == if g <= ii then base0[g] else 3840 + 16 * g
        {
          RebuildStep(mtfa[..], base0, list, ii, jj);
          ghost var before := mtfa[..];
          mtfa[kk] := mtfa[mtfbase[ii] + jj];
          assert mtfa[..] == before[3840 + 16 * ii + jj := Cell(before, base0, ii, jj)];
          kk := kk - 1;
          jj := jj - 1;
        }
        mtfbase[ii] := kk + 1;
        ii := ii - 1;
      }
      RebuildEnd(mtfa[..], base0, mtfbase[..], list);
    }

    /** Passes the last symbol of each segment on to the next, from segment top down. */
    method SlideDown(top: int, ghost a0: seq<int>, ghost base0: seq<int>, ghost off: int)
      requires mtfa != mtfbase && Sliding(mtfa[..], mtfbase[..], a0, base0, top, off, top)
      modifies mtfa, mtfbase
      ensures Sliding(mtfa[..], mtfbase[..], a0, base0, top, off, 0)
    {
      var lno := top;
      while lno > 0
        invariant 0 <= lno <= top && Sliding(mtfa[..], mtfbase[..], a0, base0, top, off, lno)
      {
        SlideStep(mtfa[..], mtfbase[..], a0, base0, top, off, lno);
        ghost var a1, base1 := mtfa[..], mtfbase[..];
        mtfbase[lno] := mtfbase[lno] - 1;
        mtfa[mtfbase[lno]] := mtfa[mtfbase[lno - 1] + 16 - 1];
        assert mtfbase[..] == base1[lno := base1[lno] - 1];
        assert mtfa[..] == a1[base1[lno] - 1 := a1[base1[lno - 1] + 15]];
        lno := lno - 1;
      }
    }

    /** Takes the symbol at offset off of segment top to the front. */
    method MoveFar(top: int, off: int) returns (uc: int)
      requires Valid() && 1 <= top < 16 && 0 <= off < 16
      modifies this, mtfa, mtfbase
      ensures mtfa != mtfbase && Holds(mtfa[..], mtfbase[..], list)
      ensures uc == old(list)[16 * top + off] && list == ToFront(old(list), 16 * top + off)
    {
      ghost var a0, base0 := mtfa[..], mtfbase[..];
      uc := TakeOut(top, off);
      SlideDown(top, a0, base0, off);
      PutFront(uc, a0, base0, top, off);
    }

    /** Takes the symbol out of its segment, which leaves the segment's first place free. */
    method TakeOut(top: int, off: int) returns (uc: int)
      requires Valid() && 1 <= top < 16 && 0 <= off < 16
      modifies mtfa, mtfbase
      ensures mtfa != mtfbase && uc == list[16 * top + off]
      ensures Sliding(mtfa[..], mtfbase[..], old(mtfa[..]), old(mtfbase[..]), top, off, top)
    {
      ghost var a0, base0 := mtfa[..], mtfbase[..];
      SlideStart(a0, base0, list, top, off);
      uc := mtfa[mtfbase[top] + off];
      assert Cell(a0, base0, top, off) == list[16 * top + off];
      ShiftUp(mtfbase[top], off, false);
      mtfbase[top] := mtfbase[top] + 1;
      assert mtfbase[..] == base0[top := base0[top] + 1];
    }

    method PutFront(uc: int, ghost a0: seq<int>, ghost base0: seq<int>, ghost top: int, ghost off: int)
      requires mtfa != mtfbase && Sliding(mtfa[..], mtfbase[..], a0, base0, top, off, 0) && Holds(a0, base0, list)
          && uc == list[16 * top + off]
      modifies this`list, mtfa, mtfbase
      ensures Holds(mtfa[..], mtfbase[..], list) && list == ToFront(old(list), 16 * top + off)
    {
      ghost var a1, base1 := mtfa[..], mtfbase[..];
      SlideEnd(a1, base1, a0, base0, list, top, off);
      mtfbase[0] := mtfbase[0] - 1;
      mtfa[mtfbase[0]] := uc;
      assert mtfbase[..] == base1[0 := base1[0] - 1];
      assert mtfa[..] == a1[base1[0] - 1 := uc];
      list := ToFront(list, 16 * top + off);
    }

    /** Takes the symbol of rank nn to the front. */
    method Move(nn: nat) returns (uc: int)
      requires Valid() && nn < 256
      modifies this, mtfa, mtfbase
      ensures Valid() && uc == old(list)[nn] && list == ToFront(old(list), nn)
    {
      if nn < 16 {
        ShortMove(mtfa[..], mtfbase[..], list, nn);
        var pp := mtfbase[0];
        uc := mtfa[pp + nn];
        assert Cell(mtfa[..], mtfbase[..], 0, nn) == list[16 * 0 + nn];
        ghost var a0 := mtfa[..];
        ShiftUp(pp, nn, true);
        mtfa[pp] := uc;
        assert mtfa[..] == Shifted(a0, pp, nn)[pp := uc];
        list := ToFront(list, nn);
      } else {
        uc := MoveFar(nn / 16, nn % 16);
        if mtfbase[0] == 0 {
          Rebuild();
        }
      }
    }
  }
}
