/** Decoding the codes of a block as inflateBack does (infback.c, the LEN path): codes and extra bits from the input,
    literals
    and matches into the window. */
module InflateBlock {
  import opened Common
  import opened BitStream
  import opened CanonicalCode
  import opened DeflateCode
  import opened DecodeTable
  import opened TableBuilder
  import opened InflateTable
  import opened InflateDecode
  import opened DeflateItems
  import opened Lz77
  import opened InflateBack

  // ---------------------------------------------------------------- when nothing can be read

  /** No code can be read from here. */
  ghost predicate Codeless(lens: seq<int>, all: seq<int>) {
    forall k {:trigger Unfold(k)} :: Unfold(k) ==> NoneBegins(lens, all)
  }

  lemma {:induction false} StuckCode(lens: seq<int>, dists: seq<int>, all: seq<int>)
    requires Codeless(lens, all)
    ensures Stuck(lens, dists, all)
  {
    assert Unfold(0);
    forall it: Item {:trigger ItemCoded(lens, dists, it)} | ItemCoded(lens, dists, it)
      ensures !(ItemBits(lens, dists, it) <= all)
    {
      assert !Begins(all, Used(lens), SymOf(it));
    }
    if HasCode(Used(lens), END) { assert !Begins(all, Used(lens), END); }
  }

  /** The two symbols behind the length codes mean nothing. */
  lemma {:induction false} StuckSymbol(lens: seq<int>, dists: seq<int>, all: seq<int>, s: nat)
    requires Decodable(lens) && HasCode(Used(lens), s) && Begins(all, Used(lens), s) && s >= 286
    ensures Stuck(lens, dists, all)
  {
    forall it: Item {:trigger ItemCoded(lens, dists, it)} | ItemCoded(lens, dists, it)
      ensures !(ItemBits(lens, dists, it) <= all)
    {
      if ItemBits(lens, dists, it) <= all { OneCodeOnly(lens, all, s, SymOf(it)); }
    }
    if HasCode(Used(lens), END) && CodeBits(Used(lens), END) <= all { OneCodeOnly(lens, all, s, END); }
  }

  /** Behind a length code: no extra bits, distance code and extra bits can be read from here. */
  ghost predicate NoFurther(dists: seq<int>, i: nat, a: seq<int>) {
    forall it: Item {:trigger Further(dists, it)} ::
      it.Match? && it.i == i && ItemOk(it) && HasCode(Used(dists), it.j) ==> !(Further(dists, it) <= a)
  }

  lemma PrefixOfRest(c: seq<int>, f: seq<int>, a: seq<int>)
    requires c + f <= c + a
    ensures f <= a
  {
    assert (c + a)[|c|..] == a;
    assert (c + f)[|c|..] == f;
    assert (c + a)[..|c + f|] == c + f;
    assert (c + a)[|c|..|c + f|] == f;
    assert a[..|f|] == (c + a)[|c|..|c + f|];
  }

  lemma PrefixBehind(p: seq<int>, d: seq<int>, q: seq<int>, b: seq<int>)
    requires p + d <= q + b && |p| == |q|
    ensures d <= b
  {
    assert (p + d)[..|p|] == p && (q + b)[..|p|] == q;
    assert (q + b)[..|p + d|] == p + d;
    assert (p + d)[..|p|] == (q + b)[..|p|];
    PrefixOfRest(p, d, b);
  }

  lemma {:induction false} StuckMatch(lens: seq<int>, dists: seq<int>, i: nat, a: seq<int>)
    requires Decodable(lens) && i < 29 && HasCode(Used(lens), 257 + i) && NoFurther(dists, i, a)
    ensures Stuck(lens, dists, CodeBits(Used(lens), 257 + i) + a)
  {
    var c := CodeBits(Used(lens), 257 + i);
    var all := c + a;
    assert Begins(all, Used(lens), 257 + i);
    forall it: Item {:trigger ItemCoded(lens, dists, it)} | ItemCoded(lens, dists, it)
      ensures !(ItemBits(lens, dists, it) <= all)
    {
      if ItemBits(lens, dists, it) <= all {
        OneCodeOnly(lens, all, 257 + i, SymOf(it));
        PrefixOfRest(c, Further(dists, it), a);
      }
    }
    if HasCode(Used(lens), END) && CodeBits(Used(lens), END) <= all { OneCodeOnly(lens, all, 257 + i, END); }
  }

  /** No distance code with its extra bits can be read from here. */
  ghost predicate NoDistance(dists: seq<int>, b: seq<int>) {
    forall j: nat, y: nat {:trigger DistBits(dists, j, y)} ::
      j < 30 && y < Pow2(DistExtra(j)) && HasCode(Used(dists), j) ==> !(DistBits(dists, j, y) <= b)
  }

  ghost function DistBits(dists: seq<int>, j: nat, y: nat): (r: seq<int>) {
    if j < 30 && HasCode(Used(dists), j) then CodeBits(Used(dists), j) + LowFirst(y, DistExtra(j)) else []
  }

  lemma {:induction false} TooShort(dists: seq<int>, i: nat, a: seq<int>)
    requires i < 29 && |a| < LenExtra(i)
    ensures NoFurther(dists, i, a)
  {
  }

  lemma {:induction false} NoneFurther(dists: seq<int>, i: nat, x: nat, b: seq<int>)
    requires i < 29 && NoDistance(dists, b)
    ensures NoFurther(dists, i, LowFirst(x, LenExtra(i)) + b)
  {
    var n := LenExtra(i);
    forall it: Item {:trigger Further(dists, it)} | it.Match? && it.i == i && ItemOk(it) && HasCode(Used(dists), it.j)
      ensures !(Further(dists, it) <= LowFirst(x, n) + b)
    {
      var d := DistBits(dists, it.j, it.y);
      assert Further(dists, it) == LowFirst(it.x, n) + d;
      if Further(dists, it) <= LowFirst(x, n) + b { PrefixBehind(LowFirst(it.x, n), d, LowFirst(x, n), b); }
    }
  }

  lemma {:induction false} NoneAtAll(dists: seq<int>, b: seq<int>)
    requires Codeless(dists, b)
    ensures NoDistance(dists, b)
  {
    assert Unfold(0);
    forall j: nat, y: nat {:trigger DistBits(dists, j, y)} | j < 30 && y < Pow2(DistExtra(j)) && HasCode(Used(dists), j)
      ensures !(DistBits(dists, j, y) <= b)
    {
      assert !Begins(b, Used(dists), j);
    }
  }

  /** Distance codes 30 and 31 mean nothing, and extra bits may be missing. */
  lemma {:induction false} NoneBehind(dists: seq<int>, s: nat, c: seq<int>)
    requires Decodable(dists) && HasCode(Used(dists), s) && (s < 30 ==> |c| < DistExtra(s))
    ensures NoDistance(dists, CodeBits(Used(dists), s) + c)
  {
    var b := CodeBits(Used(dists), s) + c;
    assert Begins(b, Used(dists), s);
    forall j: nat, y: nat {:trigger DistBits(dists, j, y)} | j < 30 && y < Pow2(DistExtra(j)) && HasCode(Used(dists), j)
      ensures !(DistBits(dists, j, y) <= b)
    {
      if DistBits(dists, j, y) <= b { OneCodeOnly(dists, b, s, j); }
    }
  }

  // ---------------------------------------------------------------- extra bits

  lemma {:induction false} LowFirstOf(b: seq<int>)
    requires Bin(b)
    ensures LowFirst(Val(b), |b|) == b
  {
    if b != [] {
      LowFirstOf(b[1..]);
      assert b == [b[0]] + b[1..];
    }
  }

  /** NEEDBITS, BITS and DROPBITS. */
  method TakeExtra(acc: Accumulator, n: nat) returns (r: Option<nat>)
    requires acc.Valid() && n <= MAXBITS
    modifies acc
    ensures acc.Valid() && (r.Some? <==> |old(acc.Rest())| >= n)
    ensures r.Some? ==> r.value < Pow2(n) && old(acc.Rest()) == LowFirst(r.value, n) + acc.Rest()
  {
    ghost var all := acc.Rest();
    while acc.bits < n
      invariant acc.Valid() && acc.Rest() == all
      decreases |acc.input|
    {
      var ok := acc.PullByte();
      if !ok {
        assert |all| == acc.bits;
        return None;
      }
    }
    var v := acc.Low(n);
    ghost var b := acc.Held()[..n];
    assert Padded(acc.Held())[..n] == b;
    LowFirstOf(b);
    ValBelow(b);
    acc.Drop(n);
    assert all == b + all[n..];
    r := Some(v);
  }

  // ---------------------------------------------------------------- one item

  datatype Step = Tok(t: Token) | BlockEnd | Invalid | Starved

  /** Tables and lengths of the two codes of a block. */
  datatype Codes = Codes(lencode: seq<Entry>, lenbits: nat, distcode: seq<Entry>, distbits: nat)

  ghost predicate Prepared(cs: Codes, lens: seq<int>, dists: seq<int>) {
    && Usable(cs.lencode, lens, LENS, cs.lenbits) && Usable(cs.distcode, dists, DISTS, cs.distbits)
    && Decodable(lens) && Decodable(dists)
  }

  lemma {:induction false} CodeThenRest(lens: seq<int>, kind: Kind, all: seq<int>, s: Option<nat>, e: Entry,
      rest: seq<int>)
    requires Decoded(lens, kind, all, s, e, rest)
    ensures s.Some? ==> SymbolRead(lens, kind, all, s.value, e, rest)
    ensures s.None? ==> e == INVALID && Codeless(lens, all)
  {
    if s.Some? { assert all[..lens[s.value]] == CodeBits(Used(lens), s.value); }
  }

  /** A code has been read, and its entry is at hand. */
  ghost predicate SymbolRead(lens: seq<int>, kind: Kind, all: seq<int>, s: nat, e: Entry, rest: seq<int>) {
    HasCode(Used(lens), s) && all == CodeBits(Used(lens), s) + rest && Known(kind, s) && e == Meaning(kind, s, e.bits)
  }

  /** Reads one code. */
  method GetSymbol(acc: Accumulator, t: seq<Entry>, root: nat, ghost lens: seq<int>, ghost kind: Kind)
      returns (r: Option<Entry>, ghost s: Option<nat>)
    requires acc.Valid() && Usable(t, lens, kind, root)
    modifies acc
    ensures acc.Valid()
    ensures r.Some? && s.Some? ==> SymbolRead(lens, kind, old(acc.Rest()), s.value, r.value, acc.Rest())
    ensures r.Some? && s.None? ==> r.value == INVALID
    ensures r.None? || s.None? ==> Codeless(lens, old(acc.Rest()))
  {
    ghost var all := acc.Rest();
    r, s := GetEntry(acc, t, root, lens, kind);
    if r.Some? {
      CodeThenRest(lens, kind, all, s, r.value, acc.Rest());
    } else {
      s := None;
    }
  }

  datatype DistCode = Base(extra: nat, base: int) | NoCode(starved: bool)
  datatype Distance = Dist(value: int) | NoDist(starved: bool)

  method GetDistCode(acc: Accumulator, t: seq<Entry>, root: nat, ghost dists: seq<int>)
      returns (r: DistCode, ghost j: nat)
    requires acc.Valid() && Usable(t, dists, DISTS, root) && Decodable(dists)
    modifies acc
    ensures acc.Valid()
    ensures r.Base? ==> j < 30 && HasCode(Used(dists), j) && r.extra == DistExtra(j) && r.base == DBASE[j]
    ensures r.Base? ==> old(acc.Rest()) == CodeBits(Used(dists), j) + acc.Rest()
    ensures r.NoCode? ==> NoDistance(dists, old(acc.Rest()))
  {
    ghost var all := acc.Rest();
    var here;
    ghost var s;
    j := 0;
    here, s := GetSymbol(acc, t, root, dists, DISTS);
    if here.None? || s.None? { NoneAtAll(dists, all); }
    if here.None? { return NoCode(true), j; }
    var e := here.value;
    if s.Some? {
      j := s.value;
      DistOps(j, e);
      if j >= 30 { NoneBehind(dists, j, acc.Rest()); }
    }
    if e.op / 64 % 2 == 1 { return NoCode(false), j; }
    r := Base(e.op % 16, e.val);
  }

  /** The distance: its code and extra bits. */
  method GetDistance(acc: Accumulator, t: seq<Entry>, root: nat, ghost dists: seq<int>)
      returns (r: Distance, ghost j: nat, ghost y: nat)
    requires acc.Valid() && Usable(t, dists, DISTS, root) && Decodable(dists)
    modifies acc
    ensures acc.Valid()
    ensures r.Dist? ==> j < 30 && y < Pow2(DistExtra(j)) && HasCode(Used(dists), j) && r.value == DBASE[j] + y
    ensures r.Dist? ==> old(acc.Rest()) == DistBits(dists, j, y) + acc.Rest()
    ensures r.NoDist? ==> NoDistance(dists, old(acc.Rest()))
  {
    var code;
    y := 0;
    code, j := GetDistCode(acc, t, root, dists);
    if code.NoCode? { return NoDist(code.starved), j, y; }
    ghost var b := acc.Rest();
    var extra := TakeExtra(acc, code.extra);
    if extra.None? {
      NoneBehind(dists, j, b);
      return NoDist(true), j, y;
    }
    y := extra.value;
    Regroup(CodeBits(Used(dists), j), LowFirst(y, DistExtra(j)), acc.Rest());
    r := Dist(code.base + extra.value);
  }

  /** What the op of a distance entry says: 64 for the codes without a meaning, or 16 and the number of extra bits. */
  lemma {:induction false} DistOps(j: nat, e: Entry)
    requires Known(DISTS, j) && e == Meaning(DISTS, j, e.bits)
    ensures e.op / 64 % 2 == 1 <==> j >= 30
    ensures j < 30 ==> e.op % 16 == DistExtra(j) && e.val == DBASE[j]
  {
    if j < 30 { assert DEXT[j] == 16 + DistExtra(j); }
  }

  /** The same for literals and lengths: 0, 32 and 64 for the end of the block, 64 for no meaning, or 16 and extra bits.
      */
  lemma {:induction false} LenOps(s: nat, e: Entry)
    requires Known(LENS, s) && e == Meaning(LENS, s, e.bits)
    ensures s < 256 <==> e.op == 0
    ensures s < 256 ==> e.val == s
    ensures s == END <==> e.op / 32 % 2 == 1
    ensures s >= 286 || s == END <==> e.op / 64 % 2 == 1
    ensures 257 <= s < 286 ==> e.op % 16 == LenExtra(s - 257) && e.val == LBASE[s - 257]
  {
    if 257 <= s < 286 {
      assert LEXT[s - 257] == 16 + LenExtra(s - 257);
    } else if s >= 286 {
      assert s == 286 || s == 287;
    }
  }

  /** A length code has been read: extra bits and the distance complete the match. */
  method GetMatch(acc: Accumulator, cs: Codes, e: Entry, ghost i: nat, ghost lens: seq<int>, ghost dists: seq<int>)
      returns (r: Step, ghost it: Item)
    requires acc.Valid() && Prepared(cs, lens, dists) && i < 29 && e.op % 16 == LenExtra(i) && e.val == LBASE[i]
    modifies acc
    ensures acc.Valid() && !r.BlockEnd?
    ensures r.Tok? ==> it.Match? && it.i == i && ItemOk(it) && HasCode(Used(dists), it.j) && r.t == TokenOf(it)
    ensures r.Tok? ==> old(acc.Rest()) == Further(dists, it) + acc.Rest()
    ensures !r.Tok? ==> NoFurther(dists, i, old(acc.Rest()))
  {
    ghost var a := acc.Rest();
    it := Lit(0);
    var extra := TakeExtra(acc, e.op % 16);
    if extra.None? {
      TooShort(dists, i, a);
      return Starved, it;
    }
    var length := e.val + extra.value;
    ghost var b := acc.Rest();
    var dist;
    ghost var j, y;
    dist, j, y := GetDistance(acc, cs.distcode, cs.distbits, dists);
    if dist.NoDist? {
      NoneFurther(dists, i, extra.value, b);
      return if dist.starved then Starved else Invalid, it;
    }
    it := Match(i, extra.value, j, y);
    ItemCodable(it);
    Regroup(LowFirst(extra.value, LenExtra(i)), DistBits(dists, j, y), acc.Rest());
    r := Tok(Copy(dist.value, length));
  }

  /** A literal, a match, or the end of the block. */
  method GetItem(acc: Accumulator, cs: Codes, ghost lens: seq<int>, ghost dists: seq<int>)
      returns (r: Step, ghost it: Item)
    requires acc.Valid() && Prepared(cs, lens, dists)
    modifies acc
    ensures acc.Valid()
    ensures r.Tok? ==> ItemCoded(lens, dists, it) && r.t == TokenOf(it) && old(acc.Rest()) == ItemBits(lens, dists, it) + acc.Rest()
    ensures r.BlockEnd? ==> HasCode(Used(lens), END) && old(acc.Rest()) == CodeBits(Used(lens), END) + acc.Rest()
    ensures r.Invalid? || r.Starved? ==> Stuck(lens, dists, old(acc.Rest()))
  {
    ghost var all := acc.Rest();
    it := Lit(0);
    var here;
    ghost var sym;
    here, sym := GetSymbol(acc, cs.lencode, cs.lenbits, lens, LENS);
    if here.None? || sym.None? { StuckCode(lens, dists, all); }
    if here.None? { return Starved, it; }
    var e := here.value;
    ghost var s, a := if sym.Some? then sym.value else 0, acc.Rest();
    if sym.Some? {
      LenOps(s, e);
      if s >= 286 { StuckSymbol(lens, dists, all, s); }
    }
    if e.op == 0 {
      it := Lit(s);
      assert CodeBits(Used(lens), s) + [] == CodeBits(Used(lens), s);
      return Tok(Literal(e.val)), it;
    }
    if e.op / 32 % 2 == 1 { return BlockEnd, it; }
    if e.op / 64 % 2 == 1 { return Invalid, it; }
    r, it := GetMatch(acc, cs, e, s - 257, lens, dists);
    if r.Tok? {
      Regroup(CodeBits(Used(lens), s), Further(dists, it), acc.Rest());
    } else {
      StuckMatch(lens, dists, s - 257, a);
    }
  }

  // ---------------------------------------------------------------- a whole block

  /** What the items make of the output so far. */
  ghost function Output(h: seq<byte>, items: seq<Item>): (r: seq<byte>)
    requires AllOk(items)
  {
    if items == [] then h else Extend(Output(h, items[..|items| - 1]), TokenOf(items[|items| - 1]))
  }

  lemma {:induction false} OutputAppend(h: seq<byte>, items: seq<Item>, it: Item)
    requires ItemOk(it) && AllOk(items)
    ensures Output(h, items + [it]) == Extend(Output(h, items), TokenOf(it))
  {
    assert (items + [it])[..|items|] == items;
  }

  datatype Finish = BlockDone | Corrupt | NeedsInput | TooFar | Refused

  /** The items read from all so far, with tail still to come, have given the output h from h0. */
  ghost predicate Inflating(lens: seq<int>, dists: seq<int>, items: seq<Item>, all: seq<int>, tail: seq<int>,
      h0: seq<byte>, h: seq<byte>) {
    AllCoded(lens, dists, items) && forall k {:trigger Unfold(k)} :: Unfold(k) ==> all == ItemsBits(lens, dists, items) + tail && h == Output(h0, items)
  }

  lemma {:induction false} InflateStart(lens: seq<int>, dists: seq<int>, all: seq<int>, h: seq<byte>)
    ensures Inflating(lens, dists, [], all, all, h, h)
  {
    assert ItemsBits(lens, dists, []) + all == all;
  }

  lemma {:induction false} InflateOne(lens: seq<int>, dists: seq<int>, items: seq<Item>, it: Item, all: seq<int>,
      tail: seq<int>, rest: seq<int>, h0: seq<byte>, h: seq<byte>)
    requires Inflating(lens, dists, items, all, tail, h0, h) && ItemCoded(lens, dists, it)
        && tail == ItemBits(lens, dists, it) + rest
    ensures Inflating(lens, dists, items + [it], all, rest, h0, Extend(h, TokenOf(it))) && |rest| < |tail|
        && Codable(TokenOf(it))
  {
    assert Unfold(0);
    ItemsAppend(lens, dists, items, it);
    Regroup(ItemsBits(lens, dists, items), ItemBits(lens, dists, it), rest);
    OutputAppend(h0, items, it);
    ItemCodable(it);
  }

  /** The loop over the codes of a block. Whatever the input is, what has been read is the bits of some items, the
      output has
      grown by exactly what they stand for, and the loop stops only at the end of the block, where nothing can be read
      on,
      at the first distance that reaches too far, or when the output is refused. */
  method InflateCodes(win: Window, acc: Accumulator, cs: Codes, ghost lens: seq<int>, ghost dists: seq<int>)
    returns (r: Finish, ghost items: seq<Item>, ghost tail: seq<int>)
    requires win.Valid() && acc.Valid() && Prepared(cs, lens, dists)
    modifies acc, win, win.window
    ensures win.Valid() && acc.Valid() && win.Asked(r == Refused, old(win.refusals))
    ensures r == BlockDone ==> Inflating(lens, dists, items, old(acc.Rest()), tail, old(win.hist), win.hist)
    ensures r == BlockDone ==> HasCode(Used(lens), END) && tail == CodeBits(Used(lens), END) + acc.Rest()
    ensures r == Corrupt || r == NeedsInput ==> Inflating(lens, dists, items, old(acc.Rest()), tail, old(win.hist),
                                           win.hist) && Stuck(lens, dists, tail)
    ensures r == TooFar ==> Inflating(lens, dists, items, old(acc.Rest()), tail, old(win.hist), win.hist)
    ensures r == TooFar ==> exists it :: ItemCoded(lens, dists, it) && ItemBits(lens, dists, it) <= tail && !Near(win.hist, TokenOf(it), win.wsize)
  {
    items, tail := [], acc.Rest();
    InflateStart(lens, dists, tail, win.hist);
    while true
      invariant win.Valid() && acc.Valid() && tail == acc.Rest() && win.Asked(false, old(win.refusals))
      invariant Inflating(lens, dists, items, old(acc.Rest()), tail, old(win.hist), win.hist)
      decreases |tail|
    {
      var step;
      ghost var it;
      step, it := GetItem(acc, cs, lens, dists);
      match step {
        case BlockEnd => return BlockDone, items, tail;
        case Invalid => return Corrupt, items, tail;
        case Starved => return NeedsInput, items, tail;
        case Tok(t) =>
          InflateOne(lens, dists, items, it, old(acc.Rest()), tail, acc.Rest(), old(win.hist), win.hist);
          var st := win.Symbol(t);
          if st == Status.BufError { return Refused, items, tail; }
          if st == Status.DataError {
            assert ItemBits(lens, dists, it) <= tail;
            return TooFar, items, tail;
          }
          items, tail := items + [it], acc.Rest();
      }
    }
  }

  // ---------------------------------------------------------------- a block that was written

  /** The block: its items, the code that ends it, and what follows. */
  ghost function Written(lens: seq<int>, dists: seq<int>, items: seq<Item>, rest: seq<int>): (r: seq<int>)
    requires AllCoded(lens, dists, items) && HasCode(Used(lens), END)
  {
    ItemsBits(lens, dists, items) + (CodeBits(Used(lens), END) + rest)
  }

  lemma {:induction false} WrittenNext(lens: seq<int>, dists: seq<int>, want: seq<Item>, rest: seq<int>)
    requires AllCoded(lens, dists, want) && HasCode(Used(lens), END) && want != []
    ensures AllCoded(lens, dists, want[1..])
    ensures Written(lens, dists, want, rest) == ItemBits(lens, dists, want[0]) + Written(lens, dists, want[1..], rest)
  {
    Regroup(ItemBits(lens, dists, want[0]), ItemsBits(lens, dists, want[1..]), CodeBits(Used(lens), END) + rest);
  }

  /** The code that ends a block is not the beginning of an item. */
  lemma {:induction false} NotTheEnd(lens: seq<int>, dists: seq<int>, it: Item, r: seq<int>, rest: seq<int>)
    requires Decodable(lens) && ItemCoded(lens, dists, it) && HasCode(Used(lens), END)
    ensures ItemBits(lens, dists, it) + r != CodeBits(Used(lens), END) + rest
  {
    if ItemBits(lens, dists, it) + r == CodeBits(Used(lens), END) + rest {
      Regroup(CodeBits(Used(lens), SymOf(it)), Further(dists, it), r);
      SameCode(lens, SymOf(it), Further(dists, it) + r, END, rest);
    }
  }

  /** An item read from a written block is its first. */
  lemma {:induction false} FollowsOne(lens: seq<int>, dists: seq<int>, it: Item, more: seq<int>, want: seq<Item>,
      rest: seq<int>)
    requires Decodable(lens) && Decodable(dists) && ItemCoded(lens, dists, it) && AllCoded(lens, dists, want)
        && HasCode(Used(lens), END)
    requires ItemBits(lens, dists, it) + more == Written(lens, dists, want, rest)
    ensures want != [] && want[0] == it && AllCoded(lens, dists, want[1..])
        && more == Written(lens, dists, want[1..], rest)
  {
    if want == [] {
      assert ItemsBits(lens, dists, []) + (CodeBits(Used(lens), END) + rest) == CodeBits(Used(lens), END) + rest;
      NotTheEnd(lens, dists, it, more, rest);
    } else {
      WrittenNext(lens, dists, want, rest);
      SameItem(lens, dists, it, more, want[0], Written(lens, dists, want[1..], rest));
    }
  }

  lemma RestOf(want: seq<Item>, items: seq<Item>)
    requires want != [] && items != [] && want[0] == items[0] && items[1..] <= want[1..]
    ensures items <= want && want[|items|..] == want[1..][|items[1..]|..]
  {
    assert items == [items[0]] + items[1..] && want == [want[0]] + want[1..];
  }

  /** Whatever items are read from a written block, they are the ones that were written, as far as they go. */
  lemma {:induction false} Follows(lens: seq<int>, dists: seq<int>, items: seq<Item>, tail: seq<int>, want: seq<Item>,
      rest: seq<int>)
    requires Decodable(lens) && Decodable(dists) && AllCoded(lens, dists, items) && AllCoded(lens, dists, want)
        && HasCode(Used(lens), END)
    requires ItemsBits(lens, dists, items) + tail == Written(lens, dists, want, rest)
    ensures items <= want && AllCoded(lens, dists, want[|items|..])
        && tail == Written(lens, dists, want[|items|..], rest)
    decreases |items|
  {
    if items == [] {
      assert [] + tail == tail && want[0..] == want;
    } else {
      Regroup(ItemBits(lens, dists, items[0]), ItemsBits(lens, dists, items[1..]), tail);
      FollowsOne(lens, dists, items[0], ItemsBits(lens, dists, items[1..]) + tail, want, rest);
      Follows(lens, dists, items[1..], tail, want[1..], rest);
      RestOf(want, items);
    }
  }

  lemma {:induction false} NotStuck(lens: seq<int>, dists: seq<int>, want: seq<Item>, rest: seq<int>)
    requires AllCoded(lens, dists, want) && HasCode(Used(lens), END)
    ensures !Stuck(lens, dists, Written(lens, dists, want, rest))
  {
    if want == [] {
      assert ItemsBits(lens, dists, []) + (CodeBits(Used(lens), END) + rest) == CodeBits(Used(lens), END) + rest;
      assert CodeBits(Used(lens), END) <= Written(lens, dists, want, rest);
    } else {
      WrittenNext(lens, dists, want, rest);
      assert ItemCoded(lens, dists, want[0]) && ItemBits(lens, dists, want[0]) <= Written(lens, dists, want, rest);
    }
  }

  lemma {:induction false} EndsThere(lens: seq<int>, dists: seq<int>, want: seq<Item>, rest: seq<int>, rest': seq<int>)
    requires Decodable(lens) && AllCoded(lens, dists, want) && HasCode(Used(lens), END)
    requires CodeBits(Used(lens), END) + rest' == Written(lens, dists, want, rest)
    ensures want == [] && rest' == rest
  {
    if want == [] {
      assert ItemsBits(lens, dists, []) + (CodeBits(Used(lens), END) + rest) == CodeBits(Used(lens), END) + rest;
      SameCode(lens, END, rest', END, rest);
    } else {
      WrittenNext(lens, dists, want, rest);
      NotTheEnd(lens, dists, want[0], Written(lens, dists, want[1..], rest), rest');
    }
  }

  /** Every copy goes back to bytes that are there, and no further than reach. */
  ghost predicate AllNear(h: seq<byte>, items: seq<Item>, reach: int) {
    && AllOk(items)
    && forall k: nat {:trigger items[..k]} :: k < |items| ==> Near(Output(h, items[..k]), TokenOf(items[k]), reach)
  }

  lemma {:induction false} NotTooFar(lens: seq<int>, dists: seq<int>, items: seq<Item>, want: seq<Item>, rest: seq<int>,
      tail: seq<int>, h: seq<byte>, it: Item, reach: int)
    requires Decodable(lens) && Decodable(dists) && AllCoded(lens, dists, want) && HasCode(Used(lens), END)
        && AllNear(h, want, reach)
    requires items <= want && AllCoded(lens, dists, want[|items|..])
        && tail == Written(lens, dists, want[|items|..], rest)
    requires ItemCoded(lens, dists, it) && ItemBits(lens, dists, it) <= tail
    ensures Near(Output(h, items), TokenOf(it), reach)
  {
    var n, b := |items|, ItemBits(lens, dists, it);
    var more := tail[|b|..];
    assert tail == b + more;
    FollowsOne(lens, dists, it, more, want[n..], rest);
    assert want[n] == it && want[..n] == items;
  }

  /** From a block that was written, whose copies do not reach too far, exactly its items are inflated, and what follows
      the
      block is left; only the receiver of the output can stop it. */
  method InflateWritten(win: Window, acc: Accumulator, cs: Codes, ghost lens: seq<int>, ghost dists: seq<int>,
      ghost want: seq<Item>, ghost rest: seq<int>)
    returns (r: Finish)
    requires win.Valid() && acc.Valid() && Prepared(cs, lens, dists) && AllCoded(lens, dists, want)
        && HasCode(Used(lens), END)
    requires acc.Rest() == Written(lens, dists, want, rest) && AllNear(win.hist, want, win.wsize)
    modifies acc, win, win.window
    ensures win.Valid() && acc.Valid() && win.Asked(r == Refused, old(win.refusals)) && (r == BlockDone || r == Refused)
    ensures r == BlockDone ==> win.hist == Output(old(win.hist), want) && acc.Rest() == rest
  {
    ghost var h := win.hist;
    ghost var items, tail;
    r, items, tail := InflateCodes(win, acc, cs, lens, dists);
    if r != Refused {
      InflatedAll(lens, dists, items, tail, want, rest, h, win.hist, win.wsize, r, acc.Rest());
    }
  }

  lemma {:induction false} InflatedAll(lens: seq<int>, dists: seq<int>, items: seq<Item>, tail: seq<int>,
      want: seq<Item>, rest: seq<int>,
                                       h0: seq<byte>, h: seq<byte>, reach: int, r: Finish, left: seq<int>)
    requires Decodable(lens) && Decodable(dists) && AllCoded(lens, dists, want) && HasCode(Used(lens), END)
        && AllNear(h0, want, reach)
    requires Inflating(lens, dists, items, Written(lens, dists, want, rest), tail, h0, h) && r != Refused
    requires r == BlockDone ==> tail == CodeBits(Used(lens), END) + left
    requires r == Corrupt || r == NeedsInput ==> Stuck(lens, dists, tail)
    requires r == TooFar ==> exists it :: ItemCoded(lens, dists, it) && ItemBits(lens, dists, it) <= tail && !Near(h, TokenOf(it), reach)
    ensures r == BlockDone && h == Output(h0, want) && left == rest
  {
    assert Unfold(0);
    Follows(lens, dists, items, tail, want, rest);
    NotStuck(lens, dists, want[|items|..], rest);
    if r == TooFar {
      var it :| ItemCoded(lens, dists, it) && ItemBits(lens, dists, it) <= tail && !Near(h, TokenOf(it), reach);
      NotTooFar(lens, dists, items, want, rest, tail, h0, it, reach);
    } else if r == BlockDone {
      EndsThere(lens, dists, want[|items|..], rest, left);
      assert items == want;
    }
  }

  // ---------------------------------------------------------------- a block of tokens

  ghost predicate AllCodable(tokens: seq<Token>) {
    forall k :: 0 <= k < |tokens| ==> Codable(tokens[k])
  }

  ghost function ItemsOf(tokens: seq<Token>): (r: seq<Item>)
    requires AllCodable(tokens)
    ensures |r| == |tokens| && forall k :: 0 <= k < |tokens| ==> r[k] == ItemOf(tokens[k])
  {
    seq(|tokens|, k requires 0 <= k < |tokens| => ItemOf(tokens[k]))
  }

  lemma ItemsOfPrefix(tokens: seq<Token>, n: nat)
    requires AllCodable(tokens) && n <= |tokens|
    ensures AllCodable(tokens[..n]) && ItemsOf(tokens)[..n] == ItemsOf(tokens[..n])
  {
  }

  ghost predicate AllOk(items: seq<Item>) {
    forall k :: 0 <= k < |items| ==> ItemOk(items[k])
  }

  /** The items of a sequence of tokens give its expansion. */
  lemma {:induction false} ItemsExpand(tokens: seq<Token>, reach: int)
    requires AllCodable(tokens) && Coded(tokens, reach) && reach <= 32768
    ensures AllOk(ItemsOf(tokens)) && Output([], ItemsOf(tokens)) == Expand(tokens)
  {
    if tokens != [] {
      var n := |tokens| - 1;
      ItemsOfPrefix(tokens, n);
      ItemsExpand(tokens[..n], reach);
      ItemForToken(tokens[n]);
      ItemsSplit(tokens, n);
    }
  }

  lemma {:induction false} ItemsSplit(tokens: seq<Token>, n: nat)
    requires AllCodable(tokens) && n < |tokens| && ItemOk(ItemOf(tokens[n])) && AllCodable(tokens[..n])
        && ItemsOf(tokens)[..n] == ItemsOf(tokens[..n])
    requires AllOk(ItemsOf(tokens[..n])) && n == |tokens| - 1
    ensures AllOk(ItemsOf(tokens)) && Output([], ItemsOf(tokens)) == Extend(Output([], ItemsOf(tokens[..n])),
        TokenOf(ItemOf(tokens[n])))
  {
    var items := ItemsOf(tokens);
    assert items == items[..n] + [items[n]];
    OutputAppend([], ItemsOf(tokens[..n]), items[n]);
  }

  lemma {:induction false} OneNear(tokens: seq<Token>, k: nat, reach: int)
    requires AllCodable(tokens) && Coded(tokens, reach) && reach <= 32768 && k < |tokens|
    ensures ItemOk(ItemsOf(tokens)[k]) && AllOk(ItemsOf(tokens)[..k])
    ensures Near(Output([], ItemsOf(tokens)[..k]), TokenOf(ItemsOf(tokens)[k]), reach)
  {
    CodedPrefix(tokens, k + 1, reach);
    assert tokens[..k + 1] == tokens[..k] + [tokens[k]];
    CodedAppend(tokens[..k], tokens[k], reach);
    ItemForToken(tokens[k]);
    ItemsOfPrefix(tokens, k);
    ItemsExpand(tokens[..k], reach);
  }

  /** ... and reach no further than its copies. */
  lemma {:induction false} TokensNear(tokens: seq<Token>, reach: int)
    requires AllCodable(tokens) && Coded(tokens, reach) && reach <= 32768
    ensures AllNear([], ItemsOf(tokens), reach) && Output([], ItemsOf(tokens)) == Expand(tokens)
  {
    var items := ItemsOf(tokens);
    ItemsExpand(tokens, reach);
    forall k: nat {:trigger items[..k]} | k < |items|
      ensures Near(Output([], items[..k]), TokenOf(items[k]), reach)
    {
      OneNear(tokens, k, reach);
    }
  }

  /** inflateBack on the bits of a block: what deflate's tokens, coded with any two codes, are turned back into. data
      begins
      with the block. */
  method InflateTokens(data: seq<byte>, cs: Codes, wsize: nat, refusals: seq<bool>, ghost lens: seq<int>,
      ghost dists: seq<int>,
                       ghost tokens: seq<Token>, ghost reach: int, ghost rest: seq<int>)
                           returns (r: Status, out: seq<byte>)
    requires Prepared(cs, lens, dists) && HasCode(Used(lens), END) && 0 < wsize && reach <= wsize && reach <= 32768
    requires Coded(tokens, reach) && AllCodable(tokens) && AllCoded(lens, dists, ItemsOf(tokens))
    requires InputBits(data) == Written(lens, dists, ItemsOf(tokens), rest)
    ensures r == Fine ==> out == Expand(tokens)
    ensures r != Fine ==> Refuses(refusals)
  {
    var win := new Window(wsize, refusals);
    var acc := new Accumulator(data);
    TokensNear(tokens, reach);
    NearFurther([], ItemsOf(tokens), reach, wsize);
    var done := InflateWritten(win, acc, cs, lens, dists, ItemsOf(tokens), rest);
    if done != BlockDone { return BufError, []; }
    var refused := win.Finish();
    r, out := if refused then BufError else Fine, win.delivered;
  }

  lemma {:induction false} NearFurther(h: seq<byte>, items: seq<Item>, reach: int, reach': int)
    requires AllNear(h, items, reach) && reach <= reach'
    ensures AllNear(h, items, reach')
  {
  }

  // ---------------------------------------------------------------- the tables of a block

  lemma {:induction false} TablesUsable(t: seq<Entry>, lens: seq<int>, kind: Kind, root: nat)
    requires Ready(t, lens, kind, root)
    ensures Usable(t, lens, kind, root) && Decodable(lens)
  {
    FitsIffShare(lens);
  }

  method MakeTable(kind: Kind, lens: seq<int>, bits: nat, size: nat) returns (r: Option<(seq<Entry>, nat)>)
    requires kind != CODES && Lengths(lens, 0, MAXBITS) && size == Space(kind, bits) && forall s :: 0 <= s < |lens| ==> Known(kind, s)
    ensures r.Some? <==> Accepted(kind, lens) && Needed(lens, bits) <= size
    ensures r.Some? ==> Usable(r.value.0, lens, kind, r.value.1) && Decodable(lens)
  {
    var table, work := new Entry[size](i => INVALID), new int[|lens|];
    var ret, root, used := BuildTable(kind, lens, bits, table, work);
    if ret != 0 { return None; }
    TablesUsable(table[..][..used], lens, kind, root);
    r := Some((table[..used], root));
    assert table[..used] == table[..][..used];
  }

  /** Root tables of 9 and 6 bits, as inflateBack asks for them. */
  method MakeCodes(lens: seq<int>, dists: seq<int>) returns (r: Option<Codes>)
    requires Lengths(lens, 0, MAXBITS) && |lens| <= 288 && Lengths(dists, 0, MAXBITS) && |dists| <= 32
    ensures r.Some? ==> Prepared(r.value, lens, dists)
    ensures r.Some? <==> Accepted(LENS, lens) && Needed(lens, 9) <= 852 && Accepted(DISTS, dists) && Needed(dists, 6) <= 592
  {
    var l := MakeTable(LENS, lens, 9, 852);
    if l.None? { return None; }
    var d := MakeTable(DISTS, dists, 6, 592);
    if d.None? { return None; }
    r := Some(Codes(l.value.0, l.value.1, d.value.0, d.value.1));
  }
}
