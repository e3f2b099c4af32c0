/** Decoding one symbol with the tables of inflate_table, as the slow path of inflateBack (infback.c) does it: a look at
    the bits that are there, and more input only while they are too few. */
module InflateDecode {
  import opened Common
  import opened BitStream
  import opened CanonicalCode
  import opened DeflateCode
  import opened DecodeTable
  import opened TableFilling
  import opened TableBuilder
  import opened InflateTable

  // ---------------------------------------------------------------- what a look into the tables finds

  /** From the bits of all, the root table and perhaps a sub-table lead to e, and n bits are to be dropped. */
  ghost predicate Reads(t: seq<Entry>, root: nat, all: seq<int>, e: Entry, n: int) {
    && root <= |all|
    && var f := Slot(t, 0, all[..root]);
       if IsLink(f)
       then && f.bits == root && root + f.op <= MAXBITS && root + f.op <= |all| && 0 <= f.val
           && f.val + Pow2(f.op) <= |t|
            && e == Slot(t, f.val, all[root..root + f.op]) && e.bits >= 0 && n == root + e.bits
       else e == f && n == f.bits
  }

  /** A string that begins with the code of s leads to the entry of s, and as many bits are dropped as the code has. */
  lemma {:induction false} ReadsCode(t: seq<Entry>, j: Job, all: seq<int>, s: int) returns (e: Entry)
    requires Built(t, j) && Bin(all) && |all| >= MAXBITS && HasCode(j.g, s) && Begins(all, j.g, s)
    ensures Reads(t, j.root, all, e, j.g[s]) && e == Meaning(j.kind, s, e.bits)
  {
    assert Unfold(0);
    assert Old(t, j, |t|, s);
    var w := j.Word(s);
    if j.g[s] <= j.root {
      e := Meaning(j.kind, s, j.g[s]);
      MeaningNoLink(j.kind, s, j.g[s]);
      assert w <= all[..j.root];
      assert Slot(t, 0, all[..j.root]) == e;
    } else {
      e := Meaning(j.kind, s, j.g[s] - j.root);
      assert w[..j.root] == all[..j.root];
      var f := Slot(t, 0, w[..j.root]);
      assert w[j.root..] <= all[j.root..j.root + f.op];
      assert Slot(t, f.val, all[j.root..j.root + f.op]) == e;
    }
  }

  /** No string that begins with h begins with a code. */
  ghost predicate Hopeless(g: seq<int>, h: seq<int>) {
    forall more, s {:trigger Begins(h + more, g, s)} :: HasCode(g, s) ==> !Begins(h + more, g, s)
  }

  /** The symbol that the string begins with, if any; then what a look finds. */
  lemma {:induction false} Lookup(t: seq<Entry>, lens: seq<int>, kind: Kind, root: nat, all: seq<int>)
      returns (s: Option<nat>, e: Entry, n: nat)
    requires Ready(t, lens, kind, root) && Bin(all) && |all| >= MAXBITS
    ensures Reads(t, root, all, e, n) && 1 <= n <= MAXBITS
    ensures s.Some? ==> HasCode(Used(lens), s.value) && Begins(all, Used(lens), s.value) && Known(kind, s.value) && e == Meaning(kind, s.value, e.bits) && n == lens[s.value]
    ensures s.None? ==> e == INVALID && n == 1 && Hopeless(Used(lens), all[..1])
  {
    var g := Used(lens);
    var j := Job(g, kind, root);
    if Share(lens, |lens|) == Pow2(MAXBITS) {
      var x := FullCode(lens, all);
      e := ReadsCode(t, j, all, x);
      s, n := Some(x), lens[x];
    } else {
      var one := OneBitCode(lens, all);
      if one.Some? {
        e := ReadsCode(t, j, all, one.value);
        s, n := one, 1;
      } else {
        s, e, n := None, INVALID, 1;
        assert Val(all[..1]) == all[0];
        if all[0] == 0 { assert Longest(lens, |lens|) == 0; }
      }
    }
  }

  lemma {:induction false} FullCode(lens: seq<int>, all: seq<int>) returns (s: nat)
    requires Lengths(lens, 0, MAXBITS) && Share(lens, |lens|) == Pow2(MAXBITS) && Bin(all) && |all| >= MAXBITS
    ensures HasCode(Used(lens), s) && Begins(all, Used(lens), s)
  {
    FitsIffShare(lens);
    s := SomeCode(Used(lens), all, MAXBITS);
  }

  /** With at most one code, of one bit, which is 0. */
  lemma {:induction false} OneBitCode(lens: seq<int>, all: seq<int>) returns (s: Option<nat>)
    requires Lengths(lens, 0, MAXBITS) && Share(lens, |lens|) < Pow2(MAXBITS) && Longest(lens, |lens|) <= 1 && Bin(all)
        && |all| >= 1
    ensures s.Some? ==> HasCode(Used(lens), s.value) && lens[s.value] == 1 && Begins(all, Used(lens), s.value)
    ensures s.None? ==> Hopeless(Used(lens), all[..1]) && (all[0] == 1 || Longest(lens, |lens|) == 0)
  {
    var g := Used(lens);
    LongestMost(lens, |lens|);
    s := None;
    if Longest(lens, |lens|) == 1 {
      var k :| 0 <= k < |lens| && lens[k] == 1;
      CountPositive(g, |g|, k);
      OneCode(lens, 1);
      OnlyZero(g, k);
      if all[0] == 0 {
        assert all[..1] == [0];
        s := Some(k);
      } else {
        forall more, x {:trigger Begins(all[..1] + more, g, x)} | HasCode(g, x)
          ensures !Begins(all[..1] + more, g, x)
        {
          OnlyZero(g, x);
          assert (all[..1] + more)[0] == 1;
        }
      }
    }
  }

  lemma {:induction false} OnlyZero(g: seq<int>, s: nat)
    requires s < |g| && g[s] == 1 && Cnt(g, 1) == 1 && First(g, 1) == 0
    ensures CodeBits(g, s) == [0]
  {
    CountMonotone(g, s + 1, |g|, 1);
    assert Bits(0, 1) == Bits(0, 0) + [0];
  }

  // ---------------------------------------------------------------- looking when only some bits are there

  /** What has been decoded when the bits held are h and the rest of the input is not known. */
  ghost predicate Outcome(lens: seq<int>, kind: Kind, h: seq<int>, s: Option<nat>, e: Entry, n: int) {
    && 1 <= n <= |h|
    && (s.Some? ==> HasCode(Used(lens), s.value) && Begins(h, Used(lens), s.value) && Known(kind, s.value)
                    && e == Meaning(kind, s.value, e.bits) && n == lens[s.value])
    && (s.None? ==> e == INVALID && n == 1 && Hopeless(Used(lens), h[..1]))
  }

  ghost function Padded(h: seq<int>): (r: seq<int>) {
    h + Zeros(MAXBITS)
  }

  /** If no more bits are to be dropped than are there, missing bits did not matter; otherwise no code is complete. */
  lemma {:induction false} Peek(t: seq<Entry>, lens: seq<int>, kind: Kind, root: nat, h: seq<int>)
      returns (s: Option<nat>, e: Entry, n: nat)
    requires Ready(t, lens, kind, root) && Bin(h)
    ensures Reads(t, root, Padded(h), e, n) && 1 <= n <= MAXBITS
    ensures n <= |h| ==> Outcome(lens, kind, h, s, e, n)
    ensures n > |h| ==> forall x :: HasCode(Used(lens), x) ==> !Begins(h, Used(lens), x)
  {
    var g := Used(lens);
    s, e, n := Lookup(t, lens, kind, root, Padded(h));
    if n <= |h| {
      assert Padded(h)[..1] == h[..1];
      if s.Some? { assert CodeBits(g, s.value) <= h; }
    } else {
      forall x | HasCode(g, x) && Begins(h, g, x)
        ensures false
      {
        NotBoth(lens, h, x, s, n);
      }
    }
  }

  lemma {:induction false} NotBoth(lens: seq<int>, h: seq<int>, x: nat, s: Option<nat>, n: nat)
    requires Lengths(lens, 0, MAXBITS) && Share(lens, |lens|) <= Pow2(MAXBITS)
    requires HasCode(Used(lens), x) && Begins(h, Used(lens), x)
    requires s.Some? ==> HasCode(Used(lens), s.value) && Begins(Padded(h), Used(lens), s.value) && n == lens[s.value]
    requires s.None? ==> n == 1
    ensures n <= |h|
  {
    if s.Some? {
      FitsIffShare(lens);
      PrefixFree(Padded(h), Used(lens), MAXBITS, x, s.value);
    }
  }

  // ---------------------------------------------------------------- the bit accumulator

  /** The n low bits of v, lowest first. */
  ghost function LowFirst(v: nat, n: nat): (r: seq<int>)
    ensures |r| == n && Bin(r)
    decreases n
  {
    if n == 0 then [] else [v % 2] + LowFirst(v / 2, n - 1)
  }

  lemma {:induction false} LowFirstVal(v: nat, n: nat)
    requires v < Pow2(n)
    ensures Val(LowFirst(v, n)) == v
    decreases n
  {
    if n > 0 {
      LowFirstVal(v / 2, n - 1);
      assert LowFirst(v, n)[1..] == LowFirst(v / 2, n - 1);
    }
  }

  lemma {:induction false} LowFirstDrop(v: nat, n: nat, d: nat)
    requires d <= n
    ensures LowFirst(Shr(v, d), n - d) == LowFirst(v, n)[d..]
    decreases d
  {
    if d > 0 {
      LowFirstDrop(v / 2, n - 1, d - 1);
      assert LowFirst(v, n)[d..] == LowFirst(v / 2, n - 1)[d - 1..];
    } else {
      assert LowFirst(v, n)[0..] == LowFirst(v, n);
    }
  }

  lemma {:induction false} LowFirstAppend(v: nat, n: nat, c: nat, m: nat)
    requires v < Pow2(n)
    ensures LowFirst(v + Shl(c, n), n + m) == LowFirst(v, n) + LowFirst(c, m)
    decreases n
  {
    if n > 0 {
      assert (v + Shl(c, n)) / 2 == v / 2 + Shl(c, n - 1) && (v + Shl(c, n)) % 2 == v % 2;
      LowFirstAppend(v / 2, n - 1, c, m);
      assert LowFirst(v + Shl(c, n), n + m) == [v % 2] + (LowFirst(v / 2, n - 1) + LowFirst(c, m));
    } else {
      assert LowFirst(c, m) == [] + LowFirst(c, m);
    }
  }

  /** The bits of the input, each byte lowest bit first. */
  ghost function InputBits(input: seq<byte>): (r: seq<int>)
    ensures |r| == 8 * |input|
  {
    if input == [] then [] else LowFirst(input[0], 8) + InputBits(input[1..])
  }

  lemma DropFront(a: seq<int>, b: seq<int>, n: nat)
    requires n <= |a|
    ensures (a + b)[n..] == a[n..] + b
  {
  }

  class Accumulator {
    var hold: nat
    var bits: nat
    var input: seq<byte>

    ghost predicate Valid()
      reads this`hold, this`bits
    {
      hold < Pow2(bits)
    }

    /** The bits taken in and not dropped. */
    ghost function Held(): (r: seq<int>)
      reads this`hold, this`bits
      ensures |r| == bits && Bin(r)
    {
      LowFirst(hold, bits)
    }

    /** All bits not dropped. */
    ghost function Rest(): (r: seq<int>)
      reads this`hold, this`bits, this`input
    {
      Held() + InputBits(input)
    }

    constructor (input: seq<byte>)
      ensures Valid() && Rest() == InputBits(input)
    {
      hold, bits, this.input := 0, 0, input;
      new;
      assert [] + InputBits(input) == InputBits(input);
    }

    /** PULLBYTE */
    method PullByte() returns (ok: bool)
      requires Valid()
      modifies this`hold, this`bits, this`input
      ensures Valid() && Rest() == old(Rest()) && ok == (old(input) != [])
      ensures if ok then bits == old(bits) + 8 && input == old(input)[1..] && old(Held()) <= Held()
          else bits == old(bits) && hold == old(hold) && input == old(input)
    {
      if input == [] { return false; }
      LowFirstAppend(hold, bits, input[0], 8);
      Pow2Values();
      Taken(hold, bits, input[0]);
      Regroup(Held(), LowFirst(input[0], 8), InputBits(input[1..]));
      hold := hold + Shl(input[0], bits);
      bits := bits + 8;
      input := input[1..];
      ok := true;
    }

    /** BITS */
    method Low(n: nat) returns (r: nat)
      requires Valid() && n <= bits + MAXBITS
      ensures Bin(Padded(Held())[..n]) && r == Val(Padded(Held())[..n])
    {
      LowFirstVal(hold, bits);
      ValPadded(Held(), MAXBITS);
      ValParts(Padded(Held()), n);
      r := BitStream.Low(hold, n);
    }

    /** DROPBITS */
    method Drop(n: nat)
      requires Valid() && n <= bits
      modifies this`hold, this`bits
      ensures Valid() && bits == old(bits) - n && Held() == old(Held())[n..] && Rest() == old(Rest())[n..]
    {
      LowFirstDrop(hold, bits, n);
      ShrBelow(hold, bits - n, n);
      DropFront(Held(), InputBits(input), n);
      hold := Shr(hold, n);
      bits := bits - n;
    }
  }

  lemma {:induction false} Taken(v: nat, n: nat, c: byte)
    requires v < Pow2(n)
    ensures v + Shl(c, n) < Pow2(n + 8)
  {
    Pow2Values();
    ShlBelow(c, v, 8, n);
  }

  // ---------------------------------------------------------------- decoding

  /** What has been read from all, when rest remains: a symbol with its code, or an invalid code. */
  ghost predicate Decoded(lens: seq<int>, kind: Kind, all: seq<int>, s: Option<nat>, e: Entry, rest: seq<int>) {
    match s
    case Some(x) => HasCode(Used(lens), x) && Begins(all, Used(lens), x) && Known(kind, x)
        && e == Meaning(kind, x, e.bits) && rest == all[lens[x]..]
    case None => e == INVALID && 1 <= |all| && rest == all[1..] && NoneBegins(lens, all)
  }

  ghost predicate NoneBegins(lens: seq<int>, all: seq<int>) {
    forall x {:trigger Begins(all, Used(lens), x)} :: HasCode(Used(lens), x) ==> !Begins(all, Used(lens), x)
  }

  lemma {:induction false} HeldDecides(lens: seq<int>, kind: Kind, h: seq<int>, more: seq<int>, s: Option<nat>,
      e: Entry, n: nat)
    requires Outcome(lens, kind, h, s, e, n)
    ensures Decoded(lens, kind, h + more, s, e, (h + more)[n..])
  {
    var all := h + more;
    if s.None? {
      assert all == h[..1] + all[1..];
      forall x {:trigger Begins(all, Used(lens), x)} | HasCode(Used(lens), x)
        ensures !Begins(all, Used(lens), x)
      {
        assert !Begins(h[..1] + all[1..], Used(lens), x);
      }
    }
  }

  /** The entry of the root table for the bits held. */
  method RootLook(acc: Accumulator, t: seq<Entry>, root: nat) returns (here: Entry)
    requires acc.Valid() && root <= MAXBITS && Pow2(root) <= |t|
    ensures here == Slot(t, 0, Padded(acc.Held())[..root])
  {
    var i := acc.Low(root);
    ValBelow(Padded(acc.Held())[..root]);
    here := t[i];
  }

  /** The entry of the sub-table that last leads to. */
  method SubLook(acc: Accumulator, t: seq<Entry>, last: Entry) returns (here: Entry)
    requires acc.Valid() && 0 <= last.bits && 0 <= last.op && last.bits + last.op <= MAXBITS && 0 <= last.val
        && last.val + Pow2(last.op) <= |t|
    ensures here == Slot(t, last.val, Padded(acc.Held())[last.bits..last.bits + last.op])
  {
    var v := acc.Low(last.bits + last.op);
    ghost var b := Padded(acc.Held())[..last.bits + last.op];
    ValParts(b, last.bits);
    assert b[last.bits..] == Padded(acc.Held())[last.bits..last.bits + last.op];
    ValBelow(b[last.bits..]);
    here := t[last.val + Shr(v, last.bits)];
  }

  /** The tables are ready for use. */
  ghost predicate Usable(t: seq<Entry>, lens: seq<int>, kind: Kind, root: nat) {
    1 <= root <= MAXBITS && Pow2(root) <= |t| && forall k {:trigger Open(k)} :: Open(k) ==> Ready(t, lens, kind, root)
  }

  /** When the input ends before a code is complete. */
  lemma {:induction false} TooFewBits(t: seq<Entry>, lens: seq<int>, kind: Kind, root: nat, h: seq<int>, e: Entry,
      n: nat)
    requires Usable(t, lens, kind, root) && Bin(h) && n > |h|
    requires Reads(t, root, Padded(h), e, n) || (n <= Slot(t, 0, Padded(h)[..root]).bits)
    ensures NoneBegins(lens, h)
  {
    assert Open(0);
    var s, e', n' := Peek(t, lens, kind, root, h);
  }

  /** What an entry of the root table that leads on says. */
  lemma {:induction false} LinkFits(t: seq<Entry>, lens: seq<int>, kind: Kind, root: nat, h: seq<int>, f: Entry)
    requires Usable(t, lens, kind, root) && Bin(h) && f == Slot(t, 0, Padded(h)[..root]) && IsLink(f)
    ensures f.bits == root && root + f.op <= MAXBITS && 0 <= f.val && f.val + Pow2(f.op) <= |t|
  {
    var e, n := AlwaysReads(t, lens, kind, root, h);
  }

  /** The tables lead from the bits held to e, and n bits are to be dropped. */
  ghost predicate LeadsTo(t: seq<Entry>, root: nat, h: seq<int>, e: Entry, n: int) {
    forall k {:trigger Unfold(k)} :: Unfold(k) ==> Reads(t, root, Padded(h), e, n)
  }

  lemma {:induction false} LinkLeads(t: seq<Entry>, lens: seq<int>, kind: Kind, root: nat, h: seq<int>, f: Entry,
      e: Entry)
    requires Usable(t, lens, kind, root) && Bin(h) && f == Slot(t, 0, Padded(h)[..root]) && IsLink(f)
    requires 0 <= f.bits && f.bits + f.op <= |Padded(h)| && e == Slot(t, f.val, Padded(h)[f.bits..f.bits + f.op])
    ensures LeadsTo(t, root, h, e, f.bits + e.bits)
  {
    var e', n := AlwaysReads(t, lens, kind, root, h);
  }

  lemma {:induction false} TooFewToLead(t: seq<Entry>, lens: seq<int>, kind: Kind, root: nat, h: seq<int>, e: Entry,
      n: nat)
    requires Usable(t, lens, kind, root) && Bin(h) && n > |h| && LeadsTo(t, root, h, e, n)
    ensures NoneBegins(lens, h)
  {
    assert Unfold(0);
    TooFewBits(t, lens, kind, root, h, e, n);
  }

  lemma {:induction false} AlwaysReads(t: seq<Entry>, lens: seq<int>, kind: Kind, root: nat, h: seq<int>)
      returns (e: Entry, n: nat)
    requires Usable(t, lens, kind, root) && Bin(h)
    ensures Reads(t, root, Padded(h), e, n) && n >= 1
  {
    assert Open(0);
    var s;
    s, e, n := Peek(t, lens, kind, root, h);
  }

  lemma {:induction false} LeadsOnly(t: seq<Entry>, root: nat, h: seq<int>, e: Entry, n: int, e': Entry, n': int)
    requires LeadsTo(t, root, h, e, n) && Reads(t, root, Padded(h), e', n')
    ensures e == e' && n == n'
  {
    assert Unfold(0);
  }

  /** With enough bits for what has been read, the symbol is decided. */
  lemma {:induction false} Settled(t: seq<Entry>, lens: seq<int>, kind: Kind, root: nat, h: seq<int>, more: seq<int>,
      e: Entry, n: nat) returns (s: Option<nat>)
    requires Usable(t, lens, kind, root) && Bin(h) && LeadsTo(t, root, h, e, n) && n <= |h|
    ensures Decoded(lens, kind, h + more, s, e, (h + more)[n..])
  {
    assert Open(0);
    var e', n';
    s, e', n' := Peek(t, lens, kind, root, h);
    LeadsOnly(t, root, h, e, n, e', n');
    HeldDecides(lens, kind, h, more, s, e, n);
  }

  /** Reads on until the root table has an entry for the bits held. */
  method FindRoot(acc: Accumulator, t: seq<Entry>, root: nat, ghost lens: seq<int>, ghost kind: Kind)
      returns (r: Option<Entry>)
    requires acc.Valid() && Usable(t, lens, kind, root)
    modifies acc
    ensures acc.Valid() && acc.Rest() == old(acc.Rest())
    ensures r.None? ==> NoneBegins(lens, acc.Rest())
    ensures r.Some? ==> r.value == Slot(t, 0, Padded(acc.Held())[..root]) && r.value.bits <= acc.bits
  {
    while true
      invariant acc.Valid() && acc.Rest() == old(acc.Rest())
      decreases |acc.input|
    {
      var here := RootLook(acc, t, root);
      if here.bits <= acc.bits { return Some(here); }
      ghost var h := acc.Held();
      var ok := acc.PullByte();
      if !ok {
        assert acc.Rest() == h;
        TooFewBits(t, lens, kind, root, h, here, here.bits);
        return None;
      }
    }
  }

  /** Bits that are there do not change when more are taken in. */
  lemma SameRoot(h: seq<int>, h': seq<int>, root: nat)
    requires h <= h' && root <= |h|
    ensures Padded(h)[..root] == Padded(h')[..root]
  {
    assert Padded(h)[..root] == h[..root];
    assert Padded(h')[..root] == h'[..root];
  }

  /** Reads on until the sub-table has an entry for the bits held. */
  method FindSub(acc: Accumulator, t: seq<Entry>, root: nat, last: Entry, ghost lens: seq<int>, ghost kind: Kind)
      returns (r: Option<Entry>)
    requires acc.Valid() && Usable(t, lens, kind, root) && root <= acc.bits && IsLink(last)
        && last == Slot(t, 0, Padded(acc.Held())[..root])
    modifies acc
    ensures acc.Valid() && acc.Rest() == old(acc.Rest())
    ensures r.None? ==> NoneBegins(lens, acc.Rest())
    ensures r.Some? ==> LeadsTo(t, root, acc.Held(), r.value, last.bits + r.value.bits) && last.bits + r.value.bits <= acc.bits
  {
    LinkFits(t, lens, kind, root, acc.Held(), last);
    while true
      invariant acc.Valid() && acc.Rest() == old(acc.Rest()) && root <= acc.bits
          && last == Slot(t, 0, Padded(acc.Held())[..root])
      decreases |acc.input|
    {
      ghost var h := acc.Held();
      var here := SubLook(acc, t, last);
      LinkLeads(t, lens, kind, root, h, last, here);
      if last.bits + here.bits <= acc.bits { return Some(here); }
      var ok := acc.PullByte();
      if !ok {
        assert acc.Rest() == h;
        TooFewToLead(t, lens, kind, root, h, here, last.bits + here.bits);
        return None;
      }
      SameRoot(h, acc.Held(), root);
    }
  }

  /** Decodes one symbol: its entry, and the code dropped. None means that the input ended first. */
  method GetEntry(acc: Accumulator, t: seq<Entry>, root: nat, ghost lens: seq<int>, ghost kind: Kind)
      returns (r: Option<Entry>, ghost s: Option<nat>)
    requires acc.Valid() && Usable(t, lens, kind, root)
    modifies acc
    ensures acc.Valid()
    ensures r.Some? ==> Decoded(lens, kind, old(acc.Rest()), s, r.value, acc.Rest())
    ensures r.None? ==> acc.Rest() == old(acc.Rest()) && NoneBegins(lens, acc.Rest())
  {
    s := None;
    r := FindRoot(acc, t, root, lens, kind);
    if r.None? { return; }
    var here := r.value;
    var n := here.bits;
    if IsLink(here) {
      var last := here;
      LinkFits(t, lens, kind, root, acc.Held(), last);
      r := FindSub(acc, t, root, last, lens, kind);
      if r.None? { return; }
      here := r.value;
      n := last.bits + here.bits;
    }
    ReadsPositive(t, lens, kind, root, acc.Held(), here, n);
    s := Settled(t, lens, kind, root, acc.Held(), InputBits(acc.input), here, n);
    acc.Drop(n);
    r := Some(here);
  }

  lemma {:induction false} ReadsPositive(t: seq<Entry>, lens: seq<int>, kind: Kind, root: nat, h: seq<int>, e: Entry,
      n: int)
    requires Usable(t, lens, kind, root) && Bin(h) && LeadsTo(t, root, h, e, n)
    ensures n >= 1
  {
    assert Unfold(0);
    var e', n' := AlwaysReads(t, lens, kind, root, h);
  }
}
