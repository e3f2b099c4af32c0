/** Literals and matches as a block of a deflate stream codes them: codes and extra bits (section 3.2.5 of RFC 1951; the
    tables of inftrees.c). */
module DeflateItems {
  import opened Common
  import opened BitStream
  import opened CanonicalCode
  import opened DeflateCode
  import opened DecodeTable
  import opened InflateDecode
  import opened Lz77

  // ---------------------------------------------------------------- bases and extra bits

  lemma {:induction false} Powers()
    ensures Pow2(0) == 1 && Pow2(1) == 2 && Pow2(2) == 4 && Pow2(3) == 8 && Pow2(4) == 16 && Pow2(5) == 32
        && Pow2(6) == 64
    ensures Pow2(7) == 128 && Pow2(8) == 256 && Pow2(9) == 512 && Pow2(10) == 1024 && Pow2(11) == 2048
        && Pow2(12) == 4096 && Pow2(13) == 8192
  {
    assert Pow2(1) == 2 * Pow2(0) && Pow2(2) == 2 * Pow2(1) && Pow2(3) == 2 * Pow2(2) && Pow2(4) == 2 * Pow2(3);
    assert Pow2(5) == 2 * Pow2(4) && Pow2(6) == 2 * Pow2(5) && Pow2(7) == 2 * Pow2(6) && Pow2(8) == 2 * Pow2(7)
        && Pow2(9) == 2 * Pow2(8);
    assert Pow2(10) == 2 * Pow2(9) && Pow2(11) == 2 * Pow2(10) && Pow2(12) == 2 * Pow2(11) && Pow2(13) == 2 * Pow2(12);
  }

  /** How many extra bits a length or distance code has. */
  function LenExtra(i: nat): (r: nat)
    requires i < 29
    ensures r <= 5 && LEXT[i] == 16 + r
  {
    if i < 8 then 0 else if i == 28 then 0 else (i - 4) / 4
  }

  function DistExtra(j: nat): (r: nat)
    requires j < 30
    ensures r <= 13 && DEXT[j] == 16 + r
  {
    if j < 2 then 0 else (j - 2) / 2
  }

  /** Each length code begins where the one before it ends, but for 258, which has a code of its own. */
  lemma {:induction false} LengthRange(i: nat)
    requires i < 29
    ensures 3 <= LBASE[i] && LBASE[i] + Pow2(LenExtra(i)) - 1 <= 258
    ensures i < 28 ==> LBASE[i + 1] <= LBASE[i] + Pow2(LenExtra(i))
  {
    Powers();
  }

  lemma {:induction false} DistNear(j: nat)
    requires j < 8
    ensures 1 <= DBASE[j] && DBASE[j + 1] == DBASE[j] + Pow2(DistExtra(j)) <= 17
  {
    var e := DistExtra(j);
    assert e == if j < 4 then 0 else if j < 6 then 1 else 2;
    assert Pow2(e) == if j < 4 then 1 else if j < 6 then 2 else 4 by { Powers(); }
  }

  lemma {:induction false} DistMiddle(j: nat)
    requires 8 <= j < 15
    ensures 1 <= DBASE[j] && DBASE[j + 1] == DBASE[j] + Pow2(DistExtra(j)) <= 193
  {
    Powers();
  }

  lemma {:induction false} DistFar(j: nat)
    requires 15 <= j < 30
    ensures 1 <= DBASE[j] && DBASE[j] + Pow2(DistExtra(j)) - 1 <= 32768
    ensures j < 29 ==> DBASE[j + 1] == DBASE[j] + Pow2(DistExtra(j))
  {
    Powers();
  }

  lemma {:induction false} DistRange(j: nat)
    requires j < 30
    ensures 1 <= DBASE[j] && DBASE[j] + Pow2(DistExtra(j)) - 1 <= 32768
    ensures j < 29 ==> DBASE[j + 1] == DBASE[j] + Pow2(DistExtra(j))
  {
    if j < 8 { DistNear(j); } else if j < 15 { DistMiddle(j); } else { DistFar(j); }
  }

  // ---------------------------------------------------------------- items

  /** A literal, or the numbers of a length code and a distance code with the values of their extra bits. */
  datatype Item = Lit(c: byte) | Match(i: nat, x: nat, j: nat, y: nat)

  ghost predicate ItemOk(it: Item) {
    it.Match? ==> it.i < 29 && it.x < Pow2(LenExtra(it.i)) && it.j < 30 && it.y < Pow2(DistExtra(it.j))
  }

  ghost function TokenOf(it: Item): (t: Token)
    requires ItemOk(it)
  {
    match it
    case Lit(c) => Literal(c)
    case Match(i, x, j, y) => Copy(DBASE[j] + y, LBASE[i] + x)
  }

  /** Whatever is coded is a token within the limits of the format. */
  lemma {:induction false} ItemCodable(it: Item)
    requires ItemOk(it)
    ensures Codable(TokenOf(it)) && (it.Match? ==> TokenOf(it).dist <= 32768)
  {
    if it.Match? {
      LengthRange(it.i);
      DistRange(it.j);
    }
  }

  /** The symbol of the literal and length code. */
  function SymOf(it: Item): (r: nat) {
    if it.Lit? then it.c else 257 + it.i
  }

  ghost predicate ItemCoded(lens: seq<int>, dists: seq<int>, it: Item) {
    ItemOk(it) && HasCode(Used(lens), SymOf(it)) && (it.Match? ==> HasCode(Used(dists), it.j))
  }

  /** The bits behind the first code of an item. */
  ghost function Further(dists: seq<int>, it: Item): (r: seq<int>)
    requires ItemOk(it) && (it.Match? ==> HasCode(Used(dists), it.j))
  {
    if it.Lit? then [] else LowFirst(it.x, LenExtra(it.i)) + (CodeBits(Used(dists), it.j) + LowFirst(it.y, DistExtra(it.j)))
  }

  ghost function ItemBits(lens: seq<int>, dists: seq<int>, it: Item): (r: seq<int>)
    requires ItemCoded(lens, dists, it)
  {
    CodeBits(Used(lens), SymOf(it)) + Further(dists, it)
  }

  const END := 256  // the symbol that ends a block

  ghost predicate AllCoded(lens: seq<int>, dists: seq<int>, items: seq<Item>) {
    forall k :: 0 <= k < |items| ==> ItemCoded(lens, dists, items[k])
  }

  /** The items, one after the other. */
  ghost function ItemsBits(lens: seq<int>, dists: seq<int>, items: seq<Item>): (r: seq<int>)
    requires AllCoded(lens, dists, items)
  {
    if items == [] then [] else ItemBits(lens, dists, items[0]) + ItemsBits(lens, dists, items[1..])
  }

  lemma {:induction false} ItemsAppend(lens: seq<int>, dists: seq<int>, items: seq<Item>, it: Item)
    requires AllCoded(lens, dists, items) && ItemCoded(lens, dists, it)
    ensures AllCoded(lens, dists, items + [it])
    ensures ItemsBits(lens, dists, items + [it]) == ItemsBits(lens, dists, items) + ItemBits(lens, dists, it)
  {
    if items == [] {
      assert ([] + [it])[1..] == [] && items + [it] == [it];
    } else {
      ItemsAppend(lens, dists, items[1..], it);
      assert (items + [it])[1..] == items[1..] + [it];
      Regroup(ItemBits(lens, dists, items[0]), ItemsBits(lens, dists, items[1..]), ItemBits(lens, dists, it));
    }
  }

  // ---------------------------------------------------------------- only one way to read them

  /** Lengths that leave no string with two codes. */
  ghost predicate Decodable(lens: seq<int>) {
    forall k {:trigger Open(k)} :: Open(k) ==> Lengths(lens, 0, MAXBITS) && Fits(Used(lens), MAXBITS)
  }

  lemma {:induction false} OneCodeOnly(lens: seq<int>, all: seq<int>, s: nat, s': nat)
    requires Decodable(lens) && HasCode(Used(lens), s) && HasCode(Used(lens), s') && Begins(all, Used(lens), s)
        && Begins(all, Used(lens), s')
    ensures s == s'
  {
    assert Open(0);
    PrefixFree(all, Used(lens), MAXBITS, s, s');
  }

  lemma {:induction false} LowFirstOnly(v: nat, v': nat, n: nat)
    requires v < Pow2(n) && v' < Pow2(n) && LowFirst(v, n) == LowFirst(v', n)
    ensures v == v'
  {
    LowFirstVal(v, n);
    LowFirstVal(v', n);
  }

  lemma SplitFront(a: seq<int>, b: seq<int>, c: seq<int>, d: seq<int>)
    requires a + b == c + d && |a| == |c|
    ensures a == c && b == d
  {
    assert (a + b)[..|a|] == a && (c + d)[..|c|] == c;
    assert (a + b)[|a|..] == b && (c + d)[|c|..] == d;
  }

  /** The code at the front, and what follows it. */
  lemma {:induction false} SameCode(lens: seq<int>, s: nat, r: seq<int>, s': nat, r': seq<int>)
    requires Decodable(lens) && HasCode(Used(lens), s) && HasCode(Used(lens), s')
    requires CodeBits(Used(lens), s) + r == CodeBits(Used(lens), s') + r'
    ensures s == s' && r == r'
  {
    var all := CodeBits(Used(lens), s) + r;
    assert Begins(all, Used(lens), s) && Begins(all, Used(lens), s');
    OneCodeOnly(lens, all, s, s');
    SplitFront(CodeBits(Used(lens), s), r, CodeBits(Used(lens), s'), r');
  }

  lemma {:induction false} SameExtra(v: nat, r: seq<int>, v': nat, r': seq<int>, n: nat)
    requires v < Pow2(n) && v' < Pow2(n) && LowFirst(v, n) + r == LowFirst(v', n) + r'
    ensures v == v' && r == r'
  {
    SplitFront(LowFirst(v, n), r, LowFirst(v', n), r');
    LowFirstOnly(v, v', n);
  }

  /** No string begins with two items. */
  lemma {:induction false} SameItem(lens: seq<int>, dists: seq<int>, it: Item, r: seq<int>, it': Item, r': seq<int>)
    requires Decodable(lens) && Decodable(dists) && ItemCoded(lens, dists, it) && ItemCoded(lens, dists, it')
    requires ItemBits(lens, dists, it) + r == ItemBits(lens, dists, it') + r'
    ensures it == it' && r == r'
  {
    var c, c' := CodeBits(Used(lens), SymOf(it)), CodeBits(Used(lens), SymOf(it'));
    Regroup(c, Further(dists, it), r);
    Regroup(c', Further(dists, it'), r');
    SameCode(lens, SymOf(it), Further(dists, it) + r, SymOf(it'), Further(dists, it') + r');
    if it.Match? {
      SameMatch(dists, it, r, it', r');
    } else {
      assert [] + r == r && [] + r' == r';
    }
  }

  lemma {:induction false} SameMatch(dists: seq<int>, it: Item, r: seq<int>, it': Item, r': seq<int>)
    requires Decodable(dists) && ItemOk(it) && ItemOk(it') && it.Match? && it'.Match? && it.i == it'.i
    requires HasCode(Used(dists), it.j) && HasCode(Used(dists), it'.j)
        && Further(dists, it) + r == Further(dists, it') + r'
    ensures it == it' && r == r'
  {
    var x, x', n := LowFirst(it.x, LenExtra(it.i)), LowFirst(it'.x, LenExtra(it.i)), LenExtra(it.i);
    var d, d', y, y' := CodeBits(Used(dists), it.j), CodeBits(Used(dists), it'.j), LowFirst(it.y, DistExtra(it.j)),
        LowFirst(it'.y, DistExtra(it'.j));
    Regroup(x, d + y, r);
    Regroup(x', d' + y', r');
    SameExtra(it.x, (d + y) + r, it'.x, (d' + y') + r', n);
    Regroup(d, y, r);
    Regroup(d', y', r');
    SameCode(dists, it.j, y + r, it'.j, y' + r');
    SameExtra(it.y, r, it'.y, r', DistExtra(it.j));
  }

  /** Neither an item nor the end of the block can be read from here. */
  ghost predicate Stuck(lens: seq<int>, dists: seq<int>, all: seq<int>) {
    && (forall it: Item {:trigger ItemCoded(lens, dists, it)} :: ItemCoded(lens, dists, it) ==> !(ItemBits(lens, dists, it) <= all))
    && (HasCode(Used(lens), END) ==> !(CodeBits(Used(lens), END) <= all))
  }

  // ---------------------------------------------------------------- the item for a token

  /** The last of the first n bases that is not above v. */
  function LastBase(bases: seq<int>, n: nat, v: int): (r: nat)
    requires 0 < n <= |bases| && bases[0] <= v
    ensures r < n && bases[r] <= v && (r + 1 < n ==> v < bases[r + 1])
    decreases n
  {
    if bases[n - 1] <= v then n - 1 else LastBase(bases, n - 1, v)
  }

  function ItemOf(t: Token): (it: Item)
    requires Codable(t)
  {
    match t
    case Literal(c) => Lit(c)
    case Copy(dist, len) =>
      var i, j := LastBase(LBASE, 29, len), LastBase(DBASE, 30, dist);
      Match(i, len - LBASE[i], j, dist - DBASE[j])
  }

  /** Every token within the limits of the format has an item. */
  lemma {:induction false} ItemForToken(t: Token)
    requires Codable(t) && (t.Copy? ==> t.dist <= 32768)
    ensures ItemOk(ItemOf(t)) && TokenOf(ItemOf(t)) == t
  {
    if t.Copy? {
      LengthItem(t.len);
      DistItem(t.dist);
    }
  }

  lemma {:induction false} LengthItem(len: nat)
    requires 3 <= len <= 258
    ensures var i := LastBase(LBASE, 29, len); len - LBASE[i] < Pow2(LenExtra(i))
  {
    var i := LastBase(LBASE, 29, len);
    LengthRange(i);
    if i == 28 { Powers(); }
  }

  lemma {:induction false} DistItem(dist: nat)
    requires 1 <= dist <= 32768
    ensures var j := LastBase(DBASE, 30, dist); dist - DBASE[j] < Pow2(DistExtra(j))
  {
    var j := LastBase(DBASE, 30, dist);
    DistRange(j);
    if j == 29 { Powers(); }
  }
}
