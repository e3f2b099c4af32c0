/** What inflate_table of inftrees.c has put into its tables at any time, and why no step spoils it. */
module TableFilling {
  import opened Common
  import opened BitStream
  import opened Bwt
  import opened CanonicalCode
  import opened DeflateCode
  import opened DecodeTable

  /** The code to build tables for: its lengths with unused symbols beyond MAXBITS, what its symbols are, and
      the number of index bits of the root table. */
  datatype Job = Job(g: seq<int>, kind: Kind, root: nat) {
    ghost predicate Good() {
      && 1 <= root <= MAXBITS && (forall k {:trigger Open(k)} :: Open(k) ==> Fits(g, MAXBITS))
      && (forall s :: 0 <= s < |g| ==> Known(kind, s))
    }

    ghost function Word(s: int): (w: seq<int>)
      requires HasCode(g, s)
      ensures |w| == g[s]
    {
      CodeBits(g, s)
    }
  }

  /** The table being filled: 2^c entries at base, for codes that begin with p, which is dropped from them. */
  datatype Spot = Spot(base: int, c: nat, drop: nat, p: seq<int>)

  // ---------------------------------------------------------------- what has been filled in

  /** A symbol is found by the root table, or by the root table and a sub-table below lim. */
  ghost predicate Old(t: seq<Entry>, j: Job, lim: int, s: int)
    requires j.Good() && HasCode(j.g, s)
  {
    var w := j.Word(s);
    if j.g[s] <= j.root then Block(t, 0, j.root, w, Meaning(j.kind, s, j.g[s]))
    else
      var e := Slot(t, 0, w[..j.root]);
      && e.bits == j.root && 1 <= e.op && j.g[s] - j.root <= e.op && j.root + e.op <= MAXBITS
      && Pow2(j.root) <= e.val && e.val + Pow2(e.op) <= lim
      && Block(t, e.val, e.op, w[j.root..], Meaning(j.kind, s, j.g[s] - j.root))
  }

  /** A symbol is found in the table being filled. */
  ghost predicate Cur(t: seq<Entry>, j: Job, z: Spot, s: int)
    requires j.Good() && HasCode(j.g, s)
  {
    && z.drop < j.g[s] <= z.drop + z.c && j.Word(s)[..z.drop] == z.p
    && Block(t, z.base, z.c, j.Word(s)[z.drop..], Meaning(j.kind, s, j.g[s] - z.drop))
  }

  ghost predicate OldAll(t: seq<Entry>, j: Job, lim: int, k: int)
    requires j.Good()
  {
    forall s {:trigger HasCode(j.g, s)} :: HasCode(j.g, s) && RowOf(j.g, s) < k ==> Old(t, j, lim, s)
  }

  ghost predicate CurAll(t: seq<Entry>, j: Job, z: Spot, g: int, k: int)
    requires j.Good()
  {
    forall s {:trigger HasCode(j.g, s)} :: HasCode(j.g, s) && g <= RowOf(j.g, s) < k ==> Cur(t, j, z, s)
  }

  /** No code that begins with p is longer than the table for p allows. */
  ghost predicate Enough(j: Job, p: seq<int>, c: nat)
    requires j.Good()
  {
    forall s {:trigger HasCode(j.g, s)} :: HasCode(j.g, s) && j.g[s] > j.root && j.Word(s)[..j.root] == p
        ==> j.g[s] <= j.root + c
  }

  ghost predicate SpotFits(t: seq<Entry>, j: Job, z: Spot, g: int)
    requires j.Good()
  {
    && 0 <= z.base && z.base + Pow2(z.c) <= |t| && |z.p| == z.drop && Bin(z.p)
    && (z.drop == 0 || z.drop == j.root) && Pow2(j.root) <= z.base + Pow2(z.c)
    && (if z.drop == 0 then z.base == 0 && z.c == j.root && g == 0
        else Pow2(j.root) <= z.base && 1 <= z.c && j.root + z.c <= MAXBITS
             && Slot(t, 0, z.p) == Entry(z.c, j.root, z.base) && Enough(j, z.p, z.c))
  }

  /** The first k symbols are filled in: those from g on in the table being filled. */
  ghost predicate Filling(t: seq<Entry>, j: Job, z: Spot, g: int, k: int) {
    j.Good() && forall u {:trigger Unfold(u)} :: Unfold(u) ==> SpotFits(t, j, z, g) && OldAll(t, j, z.base, g) && CurAll(t, j, z, g, k)
  }

  /** Where s belongs next. */
  ghost predicate Fitting(j: Job, z: Spot, s: int) {
    HasCode(j.g, s) && z.drop < j.g[s] <= z.drop + z.c && j.Word(s)[..z.drop] == z.p
  }

  lemma {:induction false} WordBin(j: Job, s: int)
    requires HasCode(j.g, s)
    ensures Bin(j.Word(s))
  {
    BitsBin(Code(j.g, s), j.g[s]);
  }

  /** Words that begin alike differ later, and neither begins with the other. */
  lemma {:induction false} WordsApart(j: Job, s: int, s2: int, d: nat)
    requires j.Good() && HasCode(j.g, s) && HasCode(j.g, s2) && s != s2 && d <= j.g[s] && d <= j.g[s2]
    requires j.Word(s)[..d] == j.Word(s2)[..d]
    ensures !(j.Word(s)[d..] <= j.Word(s2)[d..])
  {
    var w, u := j.Word(s), j.Word(s2);
    assert Open(0);
    if w[d..] <= u[d..] {
      assert w == w[..d] + w[d..] && u == u[..d] + u[d..];
      assert w <= u;
      PrefixFree(u, j.g, MAXBITS, s, s2);
    }
  }

  // ---------------------------------------------------------------- filling in a symbol keeps the others

  lemma {:induction false} FillOld(t: seq<Entry>, t': seq<Entry>, j: Job, z: Spot, n: nat, v: nat, e: Entry, s: int)
    requires j.Good() && HasCode(j.g, s) && Old(t, j, z.base, s) && Pow2(j.root) <= z.base
        && Filled(t', t, z.base, z.c, n, v, e)
    ensures Old(t', j, z.base, s)
  {
    var w := j.Word(s);
    WordBin(j, s);
    if j.g[s] <= j.root {
      ApartBlock(t, t', z.base, z.c, n, v, e, 0, j.root, w, Meaning(j.kind, s, j.g[s]));
    } else {
      var f := Slot(t, 0, w[..j.root]);
      ValBelow(w[..j.root]);
      assert Slot(t', 0, w[..j.root]) == f;
      ApartBlock(t, t', z.base, z.c, n, v, e, f.val, f.op, w[j.root..], Meaning(j.kind, s, j.g[s] - j.root));
    }
  }

  lemma {:induction false} FillCur(t: seq<Entry>, t': seq<Entry>, j: Job, z: Spot, s: int, s2: int)
    requires j.Good() && Fitting(j, z, s) && HasCode(j.g, s2) && Cur(t, j, z, s2) && s != s2
    requires Bin(j.Word(s)[z.drop..]) && Filled(t', t, z.base, z.c, j.g[s] - z.drop, Val(j.Word(s)[z.drop..]),
        Meaning(j.kind, s, j.g[s] - z.drop))
    ensures Cur(t', j, z, s2)
  {
    WordsApart(j, s, s2, z.drop);
    WordsApart(j, s2, s, z.drop);
    BesideBlock(t, t', z.base, z.c, j.Word(s)[z.drop..], Meaning(j.kind, s, j.g[s] - z.drop),
                j.Word(s2)[z.drop..], Meaning(j.kind, s2, j.g[s2] - z.drop));
  }

  lemma {:induction false} FillSpot(t: seq<Entry>, t': seq<Entry>, j: Job, z: Spot, g: int, n: nat, v: nat, e: Entry)
    requires j.Good() && SpotFits(t, j, z, g) && Filled(t', t, z.base, z.c, n, v, e)
    ensures SpotFits(t', j, z, g)
  {
    if z.drop != 0 { ValBelow(z.p); }
  }

  lemma {:induction false} FillOldAll(t: seq<Entry>, t': seq<Entry>, j: Job, z: Spot, g: int, n: nat, v: nat, e: Entry)
    requires j.Good() && OldAll(t, j, z.base, g) && (g > 0 ==> Pow2(j.root) <= z.base)
        && Filled(t', t, z.base, z.c, n, v, e)
    ensures OldAll(t', j, z.base, g)
  {
    forall s {:trigger HasCode(j.g, s)} | HasCode(j.g, s) && RowOf(j.g, s) < g
      ensures Old(t', j, z.base, s)
    {
      FillOld(t, t', j, z, n, v, e, s);
    }
  }

  lemma {:induction false} FillCurAll(t: seq<Entry>, t': seq<Entry>, j: Job, z: Spot, g: int, k: int, s: int)
    requires j.Good() && CurAll(t, j, z, g, k) && Fitting(j, z, s) && RowOf(j.g, s) == k
    requires Bin(j.Word(s)[z.drop..]) && Filled(t', t, z.base, z.c, j.g[s] - z.drop, Val(j.Word(s)[z.drop..]),
        Meaning(j.kind, s, j.g[s] - z.drop))
    ensures CurAll(t', j, z, g, k + 1)
  {
    FilledBlock(t, t', z.base, z.c, j.Word(s)[z.drop..], Meaning(j.kind, s, j.g[s] - z.drop));
    forall s2 {:trigger HasCode(j.g, s2)} | HasCode(j.g, s2) && g <= RowOf(j.g, s2) < k + 1
      ensures Cur(t', j, z, s2)
    {
      if s2 < s {
        RowInjective(j.g, s2, s);
        FillCur(t, t', j, z, s, s2);
      } else if s2 > s {
        RowInjective(j.g, s, s2);
        FillCur(t, t', j, z, s, s2);
      }
    }
  }

  /** Filling in the next symbol. */
  lemma {:induction false} FillKeeps(t: seq<Entry>, t': seq<Entry>, j: Job, z: Spot, g: int, k: int, s: int)
    requires Filling(t, j, z, g, k) && Fitting(j, z, s) && RowOf(j.g, s) == k
    requires Bin(j.Word(s)[z.drop..]) && Filled(t', t, z.base, z.c, j.g[s] - z.drop, Val(j.Word(s)[z.drop..]),
        Meaning(j.kind, s, j.g[s] - z.drop))
    ensures Filling(t', j, z, g, k + 1)
  {
    assert Unfold(0);
    var n, v, e := j.g[s] - z.drop, Val(j.Word(s)[z.drop..]), Meaning(j.kind, s, j.g[s] - z.drop);
    FillSpot(t, t', j, z, g, n, v, e);
    FillOldAll(t, t', j, z, g, n, v, e);
    FillCurAll(t, t', j, z, g, k, s);
  }

  // ---------------------------------------------------------------- beginning a new sub-table

  /** When the table being filled is left, its symbols are found through its link. */
  lemma {:induction false} Retire(t: seq<Entry>, j: Job, z: Spot, g: int, k: int)
    requires Filling(t, j, z, g, k)
    ensures OldAll(t, j, z.base + Pow2(z.c), k)
  {
    assert Unfold(0);
    forall s {:trigger HasCode(j.g, s)} | HasCode(j.g, s) && RowOf(j.g, s) < k
      ensures Old(t, j, z.base + Pow2(z.c), s)
    {
      if RowOf(j.g, s) >= g {
        assert Cur(t, j, z, s);
        if z.drop == 0 { assert j.Word(s)[0..] == j.Word(s); }
      } else {
        assert Old(t, j, z.base, s);
      }
    }
  }

  /** Symbols already filled in whose code is long do not begin like one that needs a new table. */
  lemma {:induction false} NewPrefix(t: seq<Entry>, j: Job, z: Spot, g: int, k: int, s: int, last: int, s2: int)
    requires Filling(t, j, z, g, k) && HasCode(j.g, s) && RowOf(j.g, s) == k && j.g[s] > j.root
    requires z.drop == 0 || (HasCode(j.g, last) && g <= RowOf(j.g, last) == k - 1 && j.Word(s)[..j.root] != z.p)
    requires HasCode(j.g, s2) && RowOf(j.g, s2) < k && j.g[s2] > j.root
    ensures j.Word(s2)[..j.root] != j.Word(s)[..j.root]
  {
    assert Unfold(0);
    if z.drop != 0 {
      assert Cur(t, j, z, last);
      if j.Word(s2)[..j.root] == j.Word(s)[..j.root] {
        assert Open(0);
        Between(j.g, s2, last, s, j.root);
      }
    }
  }

  lemma {:induction false} LinkOld(t: seq<Entry>, j: Job, lim: int, s: int, e: Entry, s2: int)
    requires j.Good() && HasCode(j.g, s) && j.g[s] > j.root && HasCode(j.g, s2) && s != s2 && Old(t, j, lim, s2)
    requires j.g[s2] > j.root ==> j.Word(s2)[..j.root] != j.Word(s)[..j.root]
    requires Bin(j.Word(s)[..j.root]) && Pow2(j.root) <= |t|
    ensures Val(j.Word(s)[..j.root]) < |t| && Old(t[Val(j.Word(s)[..j.root]) := e], j, lim, s2)
  {
    var q, w := j.Word(s)[..j.root], j.Word(s2);
    ValBelow(q);
    WordBin(j, s2);
    if j.g[s2] <= j.root {
      WordsApart(j, s2, s, 0);
      assert w[0..] == w && j.Word(s)[0..] == j.Word(s) && w[..0] == j.Word(s)[..0];
      LinkBlock(t, q, e, 0, j.root, w, Meaning(j.kind, s2, j.g[s2]));
    } else {
      var f := Slot(t, 0, w[..j.root]);
      ValBelow(w[..j.root]);
      if Val(w[..j.root]) == Val(q) { ValInjective(w[..j.root], q); }
      assert Slot(t[Val(q) := e], 0, w[..j.root]) == f;
      LinkBlock(t, q, e, f.val, f.op, w[j.root..], Meaning(j.kind, s2, j.g[s2] - j.root));
    }
  }

  lemma {:induction false} LinkKeeps(t: seq<Entry>, t': seq<Entry>, j: Job, z: Spot, g: int, k: int, s: int, last: int,
      z': Spot)
    requires Filling(t, j, z, g, k) && HasCode(j.g, s) && RowOf(j.g, s) == k && j.g[s] > j.root
    requires z.drop == 0 || (HasCode(j.g, last) && g <= RowOf(j.g, last) == k - 1 && j.Word(s)[..j.root] != z.p)
    requires z' == Spot(z.base + Pow2(z.c), z'.c, j.root, j.Word(s)[..j.root]) && z'.base + Pow2(z'.c) <= |t|
    requires 1 <= z'.c && j.root + z'.c <= MAXBITS && Enough(j, z'.p, z'.c)
    requires Bin(z'.p) && Val(z'.p) < |t| && t' == t[Val(z'.p) := Entry(z'.c, j.root, z'.base)]
    ensures Filling(t', j, z', k, k)
  {
    Retire(t, j, z, g, k);
    assert Unfold(0);
    ValBelow(z'.p);
    forall s2 {:trigger HasCode(j.g, s2)} | HasCode(j.g, s2) && RowOf(j.g, s2) < k
      ensures Old(t', j, z'.base, s2)
    {
      if j.g[s2] > j.root { NewPrefix(t, j, z, g, k, s, last, s2); }
      LinkOld(t, j, z'.base, s, Entry(z'.c, j.root, z'.base), s2);
    }
  }
}
