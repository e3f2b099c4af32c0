/** Why the last column of the sorted rotations determines the block. */
module Bwt {
  import opened Common
  import opened Rotations

  // ---------------------------------------------------------------- counting through sets

  lemma {:induction false} CountSet(s: seq<int>, lo: nat, hi: nat, v: int)
    requires lo <= hi <= |s|
    ensures |set j | lo <= j < hi && s[j] == v| == CountTo(s, hi, v) - CountTo(s, lo, v)
    decreases hi
  {
    var a := set j | lo <= j < hi && s[j] == v;
    if lo == hi {
      assert a == {};
    } else {
      CountSet(s, lo, hi - 1, v);
      var p := set j | lo <= j < hi - 1 && s[j] == v;
      assert a == if s[hi - 1] == v then p + {hi - 1} else p;
    }
  }

  /** An injection into an interval needs that much room. */
  lemma {:induction false} FitsInto(js: set<int>, g: seq<int>, lo: int, hi: int)
    requires lo <= hi && IsPerm(g)
    requires forall j :: j in js ==> 0 <= j < |g| && lo <= g[j] < hi
    ensures |js| <= hi - lo
  {
    var image := set j | j in js :: g[j];
    ImageSize(js, g);
    SubsetSize(image, Interval(lo, hi));
  }

  lemma {:induction false} ImageSize(js: set<int>, g: seq<int>)
    requires IsPerm(g) && forall j :: j in js ==> 0 <= j < |g|
    ensures |set j | j in js :: g[j]| == |js|
  {
    var image := set j | j in js :: g[j];
    if js == {} {
      assert image == {};
    } else {
      var x := PickFrom(js);
      var rest := js - {x};
      ImageSize(rest, g);
      var sub := set j | j in rest :: g[j];
      assert g[x] !in sub;
      assert image == sub + {g[x]};
    }
  }

  lemma PickFrom<T>(s: set<T>) returns (x: T)
    requires s != {}
    ensures x in s
  {
    x :| x in s;
  }

  ghost function Picked(b: seq<int>, f: seq<int>): (r: seq<int>)
    requires |f| == |b| && IsPerm(f)
    ensures |r| == |b| && forall i :: 0 <= i < |b| ==> r[i] == b[f[i]]
  {
    seq(|b|, i requires 0 <= i < |b| => b[f[i]])
  }

  /** Reading a sequence in another order leaves every count unchanged. */
  lemma {:induction false} PickedCount(b: seq<int>, f: seq<int>, v: int)
    requires |f| == |b| && IsPerm(f)
    ensures CountTo(Picked(b, f), |b|, v) == CountTo(b, |b|, v)
  {
    var s := Picked(b, f);
    CountSet(s, 0, |b|, v);
    CountSet(b, 0, |b|, v);
    var js := set j | 0 <= j < |b| && s[j] == v;
    var ks := set j | 0 <= j < |b| && b[j] == v;
    ImageSize(js, f);
    var image := set j | j in js :: f[j];
    forall k | k in ks
      ensures k in image
    {
      var j := PermSurjective(f, k);
      assert j in js;
    }
    assert image == ks;
  }

  lemma {:induction false} PickedBelow(b: seq<int>, f: seq<int>, c: nat)
    requires |f| == |b| && IsPerm(f) && Bytes(b)
    ensures BelowTo(Picked(b, f), |b|, c) == BelowTo(b, |b|, c)
    decreases c
  {
    if c == 0 {
      BelowBytes(b, |b|);
      BelowBytes(Picked(b, f), |b|);
    } else {
      PickedBelow(b, f, c - 1);
      PickedCount(b, f, c - 1);
      BelowStep(b, |b|, c - 1);
      BelowStep(Picked(b, f), |b|, c - 1);
    }
  }

  /** In a sorted sequence the value at p owns slot p. */
  lemma {:induction false} SortedSlot(s: seq<int>, n: nat, p: nat)
    requires p < n <= |s| && forall i, j :: 0 <= i < j < |s| ==> s[i] <= s[j]
    ensures BelowTo(s, n, s[p]) <= p < BelowTo(s, n, s[p] + 1)
    decreases n
  {
    if p == n - 1 {
      AllBelow(s, n, s[p] + 1);
    } else {
      SortedSlot(s, n - 1, p);
    }
  }

  lemma {:induction false} AllBelow(s: seq<int>, n: nat, v: int)
    requires n <= |s| && forall i :: 0 <= i < n ==> s[i] < v
    ensures BelowTo(s, n, v) == n
  {
    if n > 0 {
      AllBelow(s, n - 1, v);
    }
  }

  // ---------------------------------------------------------------- the last column

  /** The last column of the sorted rotations (generateMTFValues reads the block this way). */
  function LastColumn(b: seq<int>, f: seq<int>): (r: seq<int>)
    requires |f| == |b| && forall i :: 0 <= i < |f| ==> 0 <= f[i] < |b|
    ensures |r| == |b|
  {
    seq(|b|, i requires 0 <= i < |b| => b[Back(|b|, f[i], 1)])
  }

  /** The row that the decoder pairs with row i: same rank among equal characters. */
  function RowOf(l: seq<int>, i: nat): (r: nat)
    requires i < |l|
  {
    BelowTo(l, |l|, l[i]) + CountTo(l, i, l[i])
  }

  lemma {:induction false} RowRange(l: seq<int>, i: nat)
    requires i < |l|
    ensures BelowTo(l, |l|, l[i]) <= RowOf(l, i) < BelowTo(l, |l|, l[i] + 1) <= |l|
  {
    BelowStep(l, |l|, l[i]);
    CountMonotone(l, i + 1, |l|, l[i]);
  }

  lemma {:induction false} RowInjective(l: seq<int>, i: nat, j: nat)
    requires i < j < |l|
    ensures RowOf(l, i) != RowOf(l, j)
  {
    RowRange(l, i);
    RowRange(l, j);
    if l[i] == l[j] {
      CountMonotone(l, i + 1, j, l[i]);
    } else if l[i] < l[j] {
      BelowMonotone(l, |l|, l[i] + 1, l[j]);
    } else {
      BelowMonotone(l, |l|, l[j] + 1, l[i]);
    }
  }

  /** All pairings as one permutation of the rows; it exists for any last column. */
  ghost function Rows(l: seq<int>): (r: seq<int>)
    ensures |r| == |l| && forall i :: 0 <= i < |l| ==> r[i] == RowOf(l, i)
  {
    seq(|l|, i requires 0 <= i < |l| => RowOf(l, i))
  }

  lemma {:induction false} RowsPerm(l: seq<int>)
    ensures IsPerm(Rows(l))
  {
    forall i | 0 <= i < |l|
      ensures 0 <= Rows(l)[i] < |l|
    {
      RowRange(l, i);
    }
    forall i, j | 0 <= i < j < |l|
      ensures Rows(l)[i] != Rows(l)[j]
    {
      RowInjective(l, i, j);
    }
  }

  /** t undoes the pairing: t[RowOf(l, i)] == i. */
  ghost predicate Undoes(t: seq<int>, l: seq<int>) {
    && |t| == |l|
    && forall i {:trigger RowOf(l, i)} :: 0 <= i < |l| ==> RowOf(l, i) < |l| && t[RowOf(l, i)] == i
  }

  lemma {:induction false} UndoesBack(t: seq<int>, l: seq<int>, p: nat)
    requires Undoes(t, l) && p < |l|
    ensures 0 <= t[p] < |l| && RowOf(l, t[p]) == p
  {
    RowsPerm(l);
    var i := PermSurjective(Rows(l), p);
    assert RowOf(l, i) == p;
  }

  // ---------------------------------------------------------------- why following the pairing works

  /** g[j] is the row of the rotation that starts one place earlier than row j's. */
  ghost predicate PrevRows(f: seq<int>, g: seq<int>) {
    && IsPerm(f) && IsPerm(g) && |g| == |f|
    && forall j :: 0 <= j < |f| ==> f[g[j]] == Back(|f|, f[j], 1)
  }

  lemma {:induction false} PrevRowsExist(f: seq<int>) returns (g: seq<int>)
    requires IsPerm(f)
    ensures PrevRows(f, g)
  {
    g := [];
    while |g| < |f|
      invariant |g| <= |f|
      invariant forall j :: 0 <= j < |g| ==> 0 <= g[j] < |f| && f[g[j]] == Back(|f|, f[j], 1)
    {
      var k := PermSurjective(f, Back(|f|, f[|g|], 1));
      g := g + [k];
    }
    forall i, j | 0 <= i < j < |g|
      ensures g[i] != g[j]
    {
      assert Adv(|f|, Back(|f|, f[i], 1), 1) == f[i] && Adv(|f|, Back(|f|, f[j], 1), 1) == f[j];
    }
  }

  /** Rows that end in the same character keep their order when that character is moved to the front. */
  lemma {:induction false} PrevRowsOrdered(b: seq<int>, f: seq<int>, i: nat, j: nat)
    requires SortsRotations(b, f) && j <= i < |b| && LastColumn(b, f)[j] == LastColumn(b, f)[i]
    ensures Cmp(b, Back(|b|, f[j], 1), Back(|b|, f[i], 1), |b|) <= 0
  {
    var n := |b|;
    var x, y := Back(n, f[j], 1), Back(n, f[i], 1);
    CmpAnti(b, f[i], f[i], n);
    if j < i { RowOrder(b, f, j, i); }
    CmpSplit(b, f[j], f[i], n - 1, 1);
    assert Next(n, x) == f[j] && Next(n, y) == f[i];
  }

  /** Strictly smaller rotations stand in strictly earlier rows. */
  lemma {:induction false} SmallerEarlier(b: seq<int>, f: seq<int>, p: nat, q: nat)
    requires SortsRotations(b, f) && p < |b| && q < |b| && Cmp(b, f[p], f[q], |b|) < 0
    ensures p < q
  {
    CmpAnti(b, f[p], f[q], |b|);
    if q < p {
      RowOrder(b, f, q, p);
    }
  }

  /** Rows whose rotation starts with c are exactly the slots of c. */
  lemma {:induction false} RowSlot(b: seq<int>, f: seq<int>, p: nat)
    requires SortsRotations(b, f) && p < |b| && Bytes(b)
    ensures BelowTo(b, |b|, b[f[p]]) <= p < BelowTo(b, |b|, b[f[p]] + 1)
  {
    var s := Picked(b, f);
    forall i, j | 0 <= i < j < |s|
      ensures s[i] <= s[j]
    {
      RowOrder(b, f, i, j);
    }
    SortedSlot(s, |s|, p);
    PickedBelow(b, f, b[f[p]]);
    PickedBelow(b, f, b[f[p]] + 1);
  }

  lemma {:induction false} LastBelow(b: seq<int>, f: seq<int>, c: nat)
    requires |f| == |b| && IsPerm(f) && Bytes(b)
    ensures BelowTo(LastColumn(b, f), |b|, c) == BelowTo(b, |b|, c)
  {
    var g := seq(|b|, i requires 0 <= i < |b| => Back(|b|, f[i], 1));
    forall i, j | 0 <= i < j < |b|
      ensures g[i] != g[j]
    {
      assert Adv(|b|, g[i], 1) == f[i] && Adv(|b|, g[j], 1) == f[j];
    }
    assert LastColumn(b, f) == Picked(b, g);
    PickedBelow(b, g, c);
  }

  /** If row g[i] comes before row p, so do the rows that g gives to earlier equal characters. */
  lemma {:induction false} EarlierLands(b: seq<int>, f: seq<int>, g: seq<int>, i: nat, j: nat, p: nat)
    requires SortsRotations(b, f) && PrevRows(f, g) && Bytes(b) && j <= i < |b| && p < |b|
    requires LastColumn(b, f)[j] == LastColumn(b, f)[i] && Cmp(b, f[g[i]], f[p], |b|) < 0
    ensures g[j] < p
  {
    PrevRowsOrdered(b, f, i, j);
    CmpTrans(b, f[g[j]], f[g[i]], f[p], |b|);
    SmallerEarlier(b, f, g[j], p);
  }

  lemma {:induction false} LaterLands(b: seq<int>, f: seq<int>, g: seq<int>, i: nat, j: nat, p: nat)
    requires SortsRotations(b, f) && PrevRows(f, g) && Bytes(b) && i <= j < |b| && p < |b|
    requires LastColumn(b, f)[j] == LastColumn(b, f)[i] && Cmp(b, f[p], f[g[i]], |b|) < 0
    ensures p < g[j]
  {
    PrevRowsOrdered(b, f, j, i);
    CmpTrans(b, f[p], f[g[i]], f[g[j]], |b|);
    SmallerEarlier(b, f, p, g[j]);
  }

  /** Some equal character up to i lands no earlier than i's own slot ... */
  lemma {:induction false} SomeNotBefore(l: seq<int>, g: seq<int>, i: nat) returns (j: nat)
    requires IsPerm(g) && |g| == |l| && i < |l|
    requires forall j :: 0 <= j <= i && l[j] == l[i] ==> BelowTo(l, |l|, l[i]) <= g[j]
    ensures j <= i && l[j] == l[i] && RowOf(l, i) <= g[j]
  {
    if k :| 0 <= k <= i && l[k] == l[i] && RowOf(l, i) <= g[k] {
      j := k;
    } else {
      FitsInto((set j | 0 <= j < i + 1 && l[j] == l[i]), g, BelowTo(l, |l|, l[i]), RowOf(l, i));
      CountSet(l, 0, i + 1, l[i]);
      assert false;
    }
  }

  /** ... and some from i on lands no later. */
  lemma {:induction false} SomeNotAfter(l: seq<int>, g: seq<int>, i: nat) returns (j: nat)
    requires IsPerm(g) && |g| == |l| && i < |l|
    requires forall j :: i <= j < |l| && l[j] == l[i] ==> g[j] < BelowTo(l, |l|, l[i] + 1)
    ensures i <= j < |l| && l[j] == l[i] && g[j] <= RowOf(l, i)
  {
    if k :| i <= k < |l| && l[k] == l[i] && g[k] <= RowOf(l, i) {
      j := k;
    } else {
      BelowStep(l, |l|, l[i]);
      CountMonotone(l, i + 1, |l|, l[i]);
      FitsInto((set j | i <= j < |l| && l[j] == l[i]), g, RowOf(l, i) + 1, BelowTo(l, |l|, l[i] + 1));
      CountSet(l, i, |l|, l[i]);
      assert false;
    }
  }

  /** The rows that g gives to the character c lie within its slots. */
  lemma {:induction false} PrevRowSlot(b: seq<int>, f: seq<int>, g: seq<int>, l: seq<int>, j: nat)
    requires SortsRotations(b, f) && PrevRows(f, g) && Bytes(b) && l == LastColumn(b, f) && j < |b|
    ensures BelowTo(l, |l|, l[j]) <= g[j] < BelowTo(l, |l|, l[j] + 1)
  {
    RowSlot(b, f, g[j]);
    LastBelow(b, f, l[j]);
    LastBelow(b, f, l[j] + 1);
  }

  /** Row i's partner is not larger than the row that starts one place earlier ... */
  lemma {:induction false} PartnerNotLarger(b: seq<int>, f: seq<int>, g: seq<int>, l: seq<int>, i: nat)
    requires SortsRotations(b, f) && PrevRows(f, g) && Bytes(b) && l == LastColumn(b, f) && i < |b|
    requires RowOf(l, i) < |b|
    ensures Cmp(b, f[g[i]], f[RowOf(l, i)], |b|) >= 0
  {
    forall j | 0 <= j < |l|
      ensures BelowTo(l, |l|, l[j]) <= g[j]
    {
      PrevRowSlot(b, f, g, l, j);
    }
    var j := SomeNotBefore(l, g, i);
    if Cmp(b, f[g[i]], f[RowOf(l, i)], |b|) < 0 {
      EarlierLands(b, f, g, i, j, RowOf(l, i));
      assert false;
    }
  }

  /** ... nor smaller. */
  lemma {:induction false} PartnerNotSmaller(b: seq<int>, f: seq<int>, g: seq<int>, l: seq<int>, i: nat)
    requires SortsRotations(b, f) && PrevRows(f, g) && Bytes(b) && l == LastColumn(b, f) && i < |b|
    requires RowOf(l, i) < |b|
    ensures Cmp(b, f[g[i]], f[RowOf(l, i)], |b|) <= 0
  {
    forall j | 0 <= j < |l|
      ensures g[j] < BelowTo(l, |l|, l[j] + 1)
    {
      PrevRowSlot(b, f, g, l, j);
    }
    var j := SomeNotAfter(l, g, i);
    CmpAnti(b, f[g[i]], f[RowOf(l, i)], |b|);
    if Cmp(b, f[RowOf(l, i)], f[g[i]], |b|) < 0 {
      LaterLands(b, f, g, i, j, RowOf(l, i));
      assert false;
    }
  }

  /** The decoder's partner of row i is a row that reads like the rotation starting one place earlier.
      Where several rotations are equal it may be another of them. */
  lemma {:induction false} PartnerReads(b: seq<int>, f: seq<int>, i: nat)
    requires SortsRotations(b, f) && i < |b|
    requires Bytes(b)
    ensures RowOf(LastColumn(b, f), i) < |b|
    ensures Cmp(b, Back(|b|, f[i], 1), f[RowOf(LastColumn(b, f), i)], |b|) == 0
  {
    var g := PrevRowsExist(f);
    RowRange(LastColumn(b, f), i);
    PartnerNotLarger(b, f, g, LastColumn(b, f), i);
    PartnerNotSmaller(b, f, g, LastColumn(b, f), i);
  }

  // ---------------------------------------------------------------- walking

  ghost predicate Within(t: seq<int>) {
    forall i :: 0 <= i < |t| ==> 0 <= t[i] < |t|
  }

  ghost function Walk(t: seq<int>, p: nat, k: nat): (r: int)
    requires p < |t| && Within(t)
    ensures 0 <= r < |t|
    decreases k
  {
    if k == 0 then p else t[Walk(t, p, k - 1)]
  }

  lemma {:induction false} UndoesWithin(t: seq<int>, l: seq<int>)
    requires Undoes(t, l)
    ensures Within(t)
  {
    forall i | 0 <= i < |t|
      ensures 0 <= t[i] < |t|
    {
      UndoesBack(t, l, i);
    }
  }

  /** After k steps from the row of rotation 0 the walk is at a row that reads like rotation k. */
  lemma {:induction false} WalkReads(b: seq<int>, f: seq<int>, t: seq<int>, o: nat, k: nat)
    requires SortsRotations(b, f) && o < |b| && f[o] == 0 && k < |b|
    requires Bytes(b)
    requires Undoes(t, LastColumn(b, f)) && Within(t)
    ensures Cmp(b, f[Walk(t, o, k)], k, |b|) == 0
  {
    var n := |b|;
    if k == 0 {
      CmpAnti(b, 0, 0, n);
    } else {
      WalkReads(b, f, t, o, k - 1);
      StepReads(b, f, t, Walk(t, o, k - 1), k - 1);
    }
  }

  /** One step of the walk moves on by one place. */
  lemma {:induction false} StepReads(b: seq<int>, f: seq<int>, t: seq<int>, p: nat, x: nat)
    requires SortsRotations(b, f) && p < |b| && x < |b| && Cmp(b, f[p], x, |b|) == 0
    requires Bytes(b)
    requires Undoes(t, LastColumn(b, f))
    ensures 0 <= t[p] < |b| && LastColumn(b, f)[t[p]] == b[x]
    ensures Cmp(b, f[t[p]], Next(|b|, x), |b|) == 0
  {
    var n := |b|;
    UndoesBack(t, LastColumn(b, f), p);
    var y := Back(n, f[t[p]], 1);
    PartnerReads(b, f, t[p]);
    CmpTrans(b, y, f[p], x, n);
    assert Next(n, y) == f[t[p]];
    EqualRotations(b, y, x);
  }

  lemma {:induction false} WalkCharacter(b: seq<int>, f: seq<int>, t: seq<int>, o: nat, k: nat)
    requires SortsRotations(b, f) && o < |b| && f[o] == 0 && k < |b| && Bytes(b)
    requires Undoes(t, LastColumn(b, f)) && Within(t)
    ensures LastColumn(b, f)[Walk(t, o, k + 1)] == b[k]
  {
    WalkReads(b, f, t, o, k);
    StepReads(b, f, t, Walk(t, o, k), k);
  }

  /** The bytes the fast decoder reads: the last column along the walk. */
  ghost function FastText(l: seq<int>, t: seq<int>, o: nat, k: nat): (r: seq<int>)
    requires |t| == |l| && o < |t| && Within(t)
    ensures |r| == k
  {
    seq(k, i requires 0 <= i < k => l[Walk(t, o, i + 1)])
  }

  /** Following the pairing back from the row of rotation 0 spells the block, periodic or not. */
  lemma {:induction false} WalkSpellsBlock(b: seq<int>, f: seq<int>, t: seq<int>, o: nat)
    requires SortsRotations(b, f) && o < |b| && f[o] == 0
    requires Bytes(b)
    requires Undoes(t, LastColumn(b, f)) && Within(t)
    ensures FastText(LastColumn(b, f), t, o, |b|) == b
  {
    forall k | 0 <= k < |b|
      ensures FastText(LastColumn(b, f), t, o, |b|)[k] == b[k]
    {
      WalkCharacter(b, f, t, o, k);
    }
  }
}
