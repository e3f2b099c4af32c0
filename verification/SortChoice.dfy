/** What does not depend on which sort is used (BZ2_blockSort of blocksort.c): any two sorts of a block give the same last
    column; they give the same origin for certain exactly when no other rotation equals the block itself. */
module SortChoice {
  import opened Common
  import opened Rotations
  import opened Bwt

  lemma {:induction false} Least(b: seq<int>, f: seq<int>, g: seq<int>, p: nat)
    requires SortsRotations(b, f) && SortsRotations(b, g) && p < |b|
    ensures Cmp(b, f[p], g[p], |b|) >= 0
  {
    if Cmp(b, f[p], g[p], |b|) < 0 {
      var small, before := f[..p + 1], g[..p];
      forall k | 0 <= k <= p
        ensures small[k] in before
      {
        LowerRow(b, f, g, p, k);
      }
      InjectiveSize(small);
      InjectiveSize(before);
      assert (set x | x in small) <= (set x | x in before);
      MoreMembers(set x | x in small, set x | x in before);
      assert false;
    }
  }

  lemma MoreMembers(s: set<int>, t: set<int>)
    requires s <= t
    ensures |s| <= |t|
  {
    assert t == s + (t - s);
  }

  /** A rotation below row p of g comes before it. */
  lemma {:induction false} LowerRow(b: seq<int>, f: seq<int>, g: seq<int>, p: nat, k: nat)
    requires SortsRotations(b, f) && SortsRotations(b, g) && k <= p < |b| && Cmp(b, f[p], g[p], |b|) < 0
    ensures f[k] in g[..p]
  {
    var j := PermSurjective(g, f[k]);
    if k < p { RowOrder(b, f, k, p); }
    CmpAnti(b, f[k], f[k], |b|);
    CmpTrans(b, f[k], f[p], g[p], |b|);
    if j > p {
      RowOrder(b, g, p, j);
      CmpAnti(b, g[p], f[k], |b|);
      assert false;
    }
    if j == p {
      assert false;
    }
    assert g[..p][j] == f[k];
  }

  /** Row by row, two sorts read alike. */
  lemma {:induction false} SameRows(b: seq<int>, f: seq<int>, g: seq<int>, p: nat)
    requires SortsRotations(b, f) && SortsRotations(b, g) && p < |b|
    ensures Rot(b, f[p]) == Rot(b, g[p]) && Cmp(b, f[p], g[p], |b|) == 0
  {
    Least(b, f, g, p);
    Least(b, g, f, p);
    CmpAnti(b, f[p], g[p], |b|);
    RotationOrder(b, f[p], g[p]);
  }

  lemma {:induction false} SameBefore(b: seq<int>, i: nat, j: nat)
    requires i < |b| && j < |b| && Rot(b, i) == Rot(b, j)
    ensures b[Back(|b|, i, 1)] == b[Back(|b|, j, 1)]
  {
    var n := |b|;
    assert Rot(b, i)[n - 1] == b[Back(n, i, 1)];
    assert Rot(b, j)[n - 1] == b[Back(n, j, 1)];
  }

  /** The last column, and with it everything coded but the origin, is the same. */
  lemma {:induction false} SameColumn(b: seq<int>, f: seq<int>, g: seq<int>)
    requires SortsRotations(b, f) && SortsRotations(b, g)
    ensures LastColumn(b, f) == LastColumn(b, g)
  {
    forall p | 0 <= p < |b|
      ensures LastColumn(b, f)[p] == LastColumn(b, g)[p]
    {
      SameRows(b, f, g, p);
      SameBefore(b, f[p], g[p]);
    }
  }

  /** No rotation but the first is the block itself. */
  ghost predicate Primitive(b: seq<int>) {
    forall i :: 0 < i < |b| ==> Rot(b, i) != Rot(b, 0)
  }

  /** Every sort puts rotation 0 into row p. */
  ghost predicate OneOrigin(b: seq<int>, p: nat) {
    forall g {:trigger SortsRotations(b, g)} :: SortsRotations(b, g) ==> p < |g| && g[p] == 0
  }

  lemma {:induction false} PrimitiveOrigin(b: seq<int>, f: seq<int>, p: nat)
    requires SortsRotations(b, f) && p < |b| && f[p] == 0 && Primitive(b)
    ensures OneOrigin(b, p)
  {
    forall g {:trigger SortsRotations(b, g)} | SortsRotations(b, g)
      ensures g[p] == 0
    {
      SameRows(b, f, g, p);
    }
  }

  /** Exchanging two rows that read alike leaves a sort. */
  lemma {:induction false} ExchangeRows(b: seq<int>, f: seq<int>, p: nat, q: nat)
    requires SortsRotations(b, f) && p < |b| && q < |b| && p != q && Rot(b, f[p]) == Rot(b, f[q])
    ensures SortsRotations(b, f[p := f[q]][q := f[p]])
  {
    var g := f[p := f[q]][q := f[p]];
    ExchangePerm(f, p, q);
    forall k | 0 <= k < |b|
      ensures Rot(b, g[k]) == Rot(b, f[k])
    {
    }
    forall x, y {:trigger RowsInOrder(b, g, x, y)} | 0 <= x < y < |g|
      ensures RowsInOrder(b, g, x, y)
    {
      assert RowsInOrder(b, f, x, y);
    }
  }

  lemma {:induction false} ExchangePerm(f: seq<int>, p: nat, q: nat)
    requires IsPerm(f) && p < |f| && q < |f| && p != q
    ensures IsPerm(f[p := f[q]][q := f[p]])
  {
  }

  /** The origin is the same for every sort exactly when the block equals none of its other rotations. */
  lemma {:induction false} OriginIff(b: seq<int>, f: seq<int>, p: nat)
    requires SortsRotations(b, f) && p < |b| && f[p] == 0
    ensures OneOrigin(b, p) <==> Primitive(b)
  {
    if Primitive(b) {
      PrimitiveOrigin(b, f, p);
    } else {
      var i :| 0 < i < |b| && Rot(b, i) == Rot(b, 0);
      var q := PermSurjective(f, i);
      ExchangeRows(b, f, p, q);
      var g := f[p := f[q]][q := f[p]];
      assert SortsRotations(b, g) && g[p] == i;
    }
  }
}
