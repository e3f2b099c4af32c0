/** The braided computation of crc32_z (crc32.c): five registers over interleaved 8-byte words, combined at
    the last block, give the register of the byte-at-a-time computation. */
module Braid {
  import opened Common
  import opened Gf2
  import opened Crc32
  import opened CrcTables

  // ---------------------------------------------------------------- the algebra of braids

  /** Moving a register on past one word of zeros. */
  ghost function Past(c: Poly, n: nat): (r: Poly) { XtN(c, 64 * n) }

  ghost predicate Words(ws: seq<seq<Octet>>) {
    forall i :: 0 <= i < |ws| ==> |ws[i]| == W
  }

  lemma {:induction false} WordLinear(c: Poly, d: Poly, w: seq<Octet>)
    requires |w| == W
    ensures Register(Xor(c, d), w) == Xor(Register(c, w), Past(d, 1))
  {
    RegisterLinear(c, d, w);
  }

  /** The registers of the first j braids, all moved on to where braid j - 1 stands. */
  ghost function Carry(cs: seq<Poly>, j: nat): (r: Poly)
    requires j <= |cs|
  {
    if j == 0 then Zero() else Xor(Past(Carry(cs, j - 1), 1), cs[j - 1])
  }

  /** The register after j words. */
  ghost function Through(c: Poly, ws: seq<seq<Octet>>, j: nat): (r: Poly)
    requires j <= |ws|
  {
    if j == 0 then c else Register(Through(c, ws, j - 1), ws[j - 1])
  }

  /** Combining the first j braids with their words of one block. */
  ghost function Combined(cs: seq<Poly>, ws: seq<seq<Octet>>, j: nat): (r: Poly)
    requires j <= |cs| && j <= |ws|
  {
    if j == 0 then Zero() else Register(Xor(cs[j - 1], Combined(cs, ws, j - 1)), ws[j - 1])
  }

  lemma {:induction false} ThroughLinear(c: Poly, d: Poly, ws: seq<seq<Octet>>, j: nat)
    requires j <= |ws| && Words(ws)
    ensures Through(Xor(c, d), ws, j) == Xor(Through(c, ws, j), Past(d, j))
  {
    if j == 0 {
      assert XtN(d, 0) == d;
    } else {
      ThroughLinear(c, d, ws, j - 1);
      WordLinear(Through(c, ws, j - 1), Past(d, j - 1), ws[j - 1]);
      XtNAdd(d, 64 * (j - 1), 64);
    }
  }

  lemma {:induction false} CombinedIs(cs: seq<Poly>, ws: seq<seq<Octet>>, j: nat)
    requires j <= |cs| && j <= |ws| && Words(ws)
    ensures Combined(cs, ws, j) == Xor(Past(Carry(cs, j), 1), Through(Zero(), ws, j))
  {
    if j == 0 {
      XtNZero(64);
      XorZero(Zero());
    } else {
      CombinedIs(cs, ws, j - 1);
      var c, k, t := cs[j - 1], Past(Carry(cs, j - 1), 1), Through(Zero(), ws, j - 1);
      XorComm(c, Xor(k, t));
      XorComm(k, t);
      XorAssoc(t, k, c);
      WordLinear(t, Xor(k, c), ws[j - 1]);
      XorComm(Register(t, ws[j - 1]), Past(Xor(k, c), 1));
    }
  }

  /** The braid registers after a block: each goes through its own word and past those of the others. */
  ghost predicate Advanced(cs: seq<Poly>, ws: seq<seq<Octet>>, cs': seq<Poly>, n: nat) {
    |cs| == |ws| == |cs'| && forall i :: 0 <= i < |cs| ==> cs'[i] == Past(Register(cs[i], ws[i]), n)
  }

  lemma {:induction false} CarryAdvances(cs: seq<Poly>, ws: seq<seq<Octet>>, cs': seq<Poly>, n: nat, j: nat)
    requires Advanced(cs, ws, cs', n) && j <= |cs| && Words(ws)
    ensures Carry(cs', j) == Past(Combined(cs, ws, j), n)
  {
    if j == 0 {
      XtNZero(64 * n);
    } else {
      CarryAdvances(cs, ws, cs', n, j - 1);
      var c, x := cs[j - 1], Combined(cs, ws, j - 1);
      AdvanceOne(c, x, ws[j - 1], n);
    }
  }

  lemma {:induction false} PastSwap(x: Poly, m: nat, n: nat)
    ensures Past(Past(x, m), n) == Past(Past(x, n), m)
  {
    XtNAdd(x, 64 * m, 64 * n);
    XtNAdd(x, 64 * n, 64 * m);
  }

  lemma {:induction false} AdvanceOne(c: Poly, x: Poly, w: seq<Octet>, n: nat)
    requires |w| == W
    ensures Xor(Past(Past(x, n), 1), Past(Register(c, w), n)) == Past(Register(Xor(c, x), w), n)
  {
    PastSwap(x, n, 1);
    WordLinear(c, x, w);
    XtNLinear(Register(c, w), Past(x, 1), 64 * n);
    XorComm(Past(Register(c, w), n), Past(Past(x, 1), n));
  }

  /** The braids stand for the register s: moved on to where the last braid stands, they add up to it. */
  ghost predicate Braided(cs: seq<Poly>, s: Poly) {
    |cs| > 0 && Carry(cs, |cs|) == Past(s, |cs| - 1)
  }

  /** Combining the braids over one block gives the register after that block. */
  lemma {:induction false} CombineBlock(cs: seq<Poly>, s: Poly, ws: seq<seq<Octet>>)
    requires Braided(cs, s) && |ws| == |cs| && Words(ws)
    ensures Combined(cs, ws, |cs|) == Through(s, ws, |ws|)
  {
    var n := |cs|;
    CombinedIs(cs, ws, n);
    XtNAdd(s, 64 * (n - 1), 64);
    ThroughLinear(Zero(), s, ws, n);
    XorZero(s);
    XorComm(Past(s, n), Through(Zero(), ws, n));
  }

  lemma {:induction false} AdvanceBlock(cs: seq<Poly>, s: Poly, ws: seq<seq<Octet>>, cs': seq<Poly>)
    requires Braided(cs, s) && |ws| == |cs| && Words(ws) && Advanced(cs, ws, cs', |cs| - 1)
    ensures Braided(cs', Through(s, ws, |ws|))
  {
    CombineBlock(cs, s, ws);
    CarryAdvances(cs, ws, cs', |cs| - 1, |cs|);
  }

  lemma {:induction false} StartBraids(cs: seq<Poly>, s: Poly, j: nat)
    requires 1 <= j <= |cs| && cs[0] == s && forall i :: 1 <= i < |cs| ==> cs[i] == Zero()
    ensures Carry(cs, j) == Past(s, j - 1)
  {
    if j == 1 {
      assert Carry(cs, 0) == Zero();
      XtNZero(64);
      XorZero(s);
      assert XtN(s, 0) == s;
    } else {
      StartBraids(cs, s, j - 1);
      XtNAdd(s, 64 * (j - 2), 64);
      XorZero(Past(s, j - 1));
    }
  }

  // ---------------------------------------------------------------- words and their octets

  function XorOctet(a: Octet, b: Octet): (r: Octet) { seq(8, i requires 0 <= i < 8 => a[i] != b[i]) }

  /** The byte of a register that meets the next byte of data. */
  function Front(c: Poly): (r: Octet) { seq(8, j requires 0 <= j < 8 => c[24 + j]) }

  /** The other three bytes, moved to the front. */
  function Later(c: Poly): (r: Poly) { seq(32, i requires 0 <= i < 32 => i >= 8 && c[i - 8]) }

  /** The first m bytes of a register added to the first bytes of some data. */
  function XorInto(c: Poly, s: seq<Octet>, m: nat): (r: seq<Octet>)
    requires m <= |s|
    ensures |r| == |s|
    decreases m, s
  {
    if m == 0 then s else [XorOctet(s[0], Front(c))] + XorInto(Later(c), s[1..], m - 1)
  }

  /** Eight steps move the lower three bytes up and feed the top one back. */
  lemma {:induction false} ShiftSteps(c: Poly, n: nat)
    requires n <= 8 && forall i :: 24 <= i < 32 ==> !c[i]
    ensures XtN(c, n) == seq(32, i requires 0 <= i < 32 => i >= n && c[i - n])
  {
    if n > 0 {
      ShiftSteps(c, n - 1);
      var d := XtN(c, n - 1);
      XtBits(d);
      assert !d[31];
    } else {
      assert XtN(c, 0) == c;
    }
  }

  /** What is left of c when its top byte is removed. */
  function Rest(c: Poly): (r: Poly) { seq(32, i requires 0 <= i < 32 => i < 24 && c[i]) }

  lemma TopAndRest(c: Poly)
    ensures c == Xor(Raise(Front(c)), Rest(c))
  {
    XorBits(Raise(Front(c)), Rest(c));
  }

  lemma {:induction false} EightSteps(c: Poly)
    ensures XtN(c, 8) == Xor(XtN(Raise(Front(c)), 8), Later(c))
  {
    TopAndRest(c);
    XtNLinear(Raise(Front(c)), Rest(c), 8);
    ShiftSteps(Rest(c), 8);
    assert XtN(Rest(c), 8) == Later(c);
  }

  lemma RaiseXor(q: Octet, o: Octet)
    ensures Raise(XorOctet(q, o)) == Xor(Raise(q), Raise(o))
  {
    XorBits(Raise(q), Raise(o));
  }

  /** Of a register added in a step, the front byte meets the data and the others only move up. */
  lemma {:induction false} StepSplits(d: Poly, c: Poly, q: Octet)
    ensures Step(Xor(d, c), q) == Xor(Step(d, XorOctet(q, Front(c))), Later(c))
  {
    var f := Raise(Front(c));
    StepLinear(d, c, q);
    EightSteps(c);
    RaiseXor(q, Front(c));
    XorAssoc(d, Raise(q), f);
    XtNLinear(Xor(d, Raise(q)), f, 8);
    XorAssoc(Step(d, q), XtN(f, 8), Later(c));
  }

  /** No coefficient below x^n. */
  ghost predicate NoneBelow(c: Poly, n: int) {
    forall i :: 0 <= i < n && i < 32 ==> !c[i]
  }

  lemma {:induction false} FrontRegister(c: Poly, q: Octet, t: seq<Octet>)
    ensures Register(c, [q] + t) == Register(Step(c, q), t)
  {
    RegisterConcat(c, [q], t);
    assert [q][..0] == [];
  }

  /** Adding a register to the data that follows is the same as starting from it. */
  lemma {:induction false} Absorb(d: Poly, c: Poly, s: seq<Octet>, m: nat)
    requires m <= |s| && NoneBelow(c, 32 - 8 * m)
    ensures Register(Xor(d, c), s) == Register(d, XorInto(c, s, m))
    decreases m
  {
    if m == 0 {
      assert c == Zero();
      XorZero(d);
    } else {
      var q, t, q' := s[0], s[1..], XorOctet(s[0], Front(c));
      assert s == [q] + t;
      FrontRegister(Xor(d, c), q, t);
      StepSplits(d, c, q);
      Absorb(Step(d, q'), Later(c), t, m - 1);
      FrontRegister(d, q', XorInto(Later(c), t, m - 1));
    }
  }

  // ---------------------------------------------------------------- shift and lookup

  /** crc >> 8 with the entry of the byte shifted out is one byte through the register. */
  lemma {:induction false} StepLooksUp(c: Poly, q: Octet, table: seq<Poly>)
    requires ByteTable(table)
    ensures Xor(Later(c), table[Index(XorOctet(q, Front(c)))]) == Step(c, q)
  {
    var o := XorOctet(q, Front(c));
    IndexedOctet(o);
    StepSplits(Zero(), c, q);
    XorZero(c);
    XorZero(Raise(o));
    XorComm(XtN(Raise(o), 8), Later(c));
  }

  /** A byte at a time, by table: crc = (crc >> 8) ^ crc_table[(crc ^ byte) & 0xff]. */
  method Bytewise(crc0: Poly, s: seq<Octet>, table: seq<Poly>) returns (crc: Poly)
    requires ByteTable(table)
    ensures crc == Register(crc0, s)
  {
    crc := crc0;
    assert s[..0] == [];
    for i := 0 to |s|
      invariant crc == Register(crc0, s[..i])
    {
      assert s[..i + 1][..i] == s[..i];
      StepLooksUp(crc, s[i], table);
      crc := Xor(Later(crc), table[Index(XorOctet(s[i], Front(crc)))]);
    }
    assert s[..|s|] == s;
  }

  // ---------------------------------------------------------------- crc_word

  /** Byte i of a register. */
  function ByteOf(c: Poly, i: nat): (r: Octet)
    requires i < 4
  {
    seq(8, j requires 0 <= j < 8 => c[24 - 8 * i + j])
  }

  lemma {:induction false} XorIntoAt(c: Poly, s: seq<Octet>, m: nat, i: nat)
    requires m <= |s| && m <= 4 && i < |s|
    ensures XorInto(c, s, m)[i] == if i < m then XorOctet(s[i], ByteOf(c, i)) else s[i]
    decreases m
  {
    if m > 0 {
      if i == 0 {
        assert Front(c) == ByteOf(c, 0);
      } else {
        XorIntoAt(Later(c), s[1..], m - 1, i - 1);
        if i < m { assert ByteOf(Later(c), i - 1) == ByteOf(c, i); }
      }
    }
  }

  /** data >> 8 */
  function Shifted(data: seq<Octet>): (r: seq<Octet>)
    requires data != []
    ensures |r| == |data|
  {
    data[1..] + [Zeros()]
  }

  /** The word when k bytes are done: the register so far, added to the bytes to come, and zeros behind them. */
  ghost function Pending(word: seq<Octet>, k: nat): (r: seq<Octet>)
    requires k <= |word| == W
    ensures |r| == W
  {
    XorInto(Register(Zero(), word[..k]), Behind(word, k), 4)
  }

  ghost function Behind(word: seq<Octet>, k: nat): (r: seq<Octet>)
    requires k <= |word| == W
    ensures |r| == W
  {
    word[k..] + seq(k, _ => Zeros())
  }

  /** The byte shifted out is the next byte of data together with the front byte of the register. */
  lemma {:induction false} PendingFront(word: seq<Octet>, k: nat)
    requires k < |word| == W
    ensures Pending(word, k)[0] == XorOctet(word[k], Front(Register(Zero(), word[..k])))
  {
    var c := Register(Zero(), word[..k]);
    assert Behind(word, k)[0] == word[k];
  }

  lemma {:induction false} BehindShifted(word: seq<Octet>, k: nat)
    requires k < |word| == W
    ensures Shifted(Behind(word, k)) == Behind(word, k + 1)
  {
  }

  lemma {:induction false} XorOctets(a: Octet, x: Octet, y: Octet)
    ensures XorOctet(XorOctet(a, x), y) == XorOctet(a, XorOctet(y, x)) && XorOctet(a, Zeros()) == a
  {
  }

  lemma {:induction false} ByteOfXor(c: Poly, d: Poly, i: nat)
    requires i < 4
    ensures ByteOf(Xor(c, d), i) == XorOctet(ByteOf(c, i), ByteOf(d, i))
  {
    XorBits(c, d);
  }

  /** Shifting the word moves the rest of the register up with the data; adding the entry e to it adds it to the
      register. */
  lemma {:induction false} ShiftAndAdd(c: Poly, e: Poly, s: seq<Octet>, i: nat)
    requires i < |s| == W
    ensures XorInto(e, Shifted(XorInto(c, s, 4)), 4)[i] == XorInto(Xor(Later(c), e), Shifted(s), 4)[i]
  {
    var x := XorInto(c, s, 4);
    XorIntoAt(e, Shifted(x), 4, i);
    XorIntoAt(Xor(Later(c), e), Shifted(s), 4, i);
    if i + 1 < W { XorIntoAt(c, s, 4, i + 1); }
    if i < 4 {
      ByteOfXor(Later(c), e, i);
      XorOctets(Shifted(s)[i], ByteOf(Later(c), i), ByteOf(e, i));
      LaterByte(c, i);
      XorOctets(Shifted(s)[i], ByteOf(e, i), ByteOf(Later(c), i));
    }
  }

  lemma {:induction false} LaterByte(c: Poly, i: nat)
    requires i < 4
    ensures ByteOf(Later(c), i) == if i < 3 then ByteOf(c, i + 1) else Zeros()
  {
  }

  /** One turn of the loop of crc_word. */
  lemma {:induction false} PendingStep(word: seq<Octet>, k: nat, table: seq<Poly>)
    requires k < |word| == W && ByteTable(table)
    ensures var data := Pending(word, k); XorInto(table[Index(data[0])], Shifted(data), 4) == Pending(word, k + 1)
  {
    var c, s, data := Register(Zero(), word[..k]), Behind(word, k), Pending(word, k);
    PendingFront(word, k);
    var e := table[Index(data[0])];
    StepLooksUp(c, word[k], table);
    assert word[..k + 1][..k] == word[..k];
    BehindShifted(word, k);
    forall i | 0 <= i < W
      ensures XorInto(e, Shifted(data), 4)[i] == Pending(word, k + 1)[i]
    {
      ShiftAndAdd(c, e, s, i);
    }
  }

  /** The low 32 bits of a word. */
  function LowWord(data: seq<Octet>): (r: Poly)
    requires |data| == W
  {
    seq(32, j requires 0 <= j < 32 => data[3 - j / 8][j % 8])
  }

  lemma {:induction false} PendingEnds(word: seq<Octet>)
    requires |word| == W
    ensures Pending(word, 0) == word && LowWord(Pending(word, W)) == Register(Zero(), word)
  {
    assert word[..0] == [] && word[..W] == word && Behind(word, 0) == word;
    forall i | 0 <= i < W
      ensures Pending(word, 0)[i] == word[i]
    {
      XorIntoAt(Zero(), word, 4, i);
      if i < 4 { assert ByteOf(Zero(), i) == Zeros(); XorOctets(word[i], Zeros(), Zeros()); }
    }
    var c := Register(Zero(), word);
    forall i | 0 <= i < 4
      ensures Pending(word, W)[i] == ByteOf(c, i)
    {
      XorIntoAt(c, Behind(word, W), 4, i);
    }
    forall j | 0 <= j < 32
      ensures LowWord(Pending(word, W))[j] == c[j]
    {
      assert ByteOf(c, 3 - j / 8)[j % 8] == c[24 - 8 * (3 - j / 8) + j % 8];
    }
  }

  /** Eight times, the byte shifted out of the word selects the entry that is added to its low four bytes (crc_word). */
  method CrcWord(word: seq<Octet>, table: seq<Poly>) returns (r: Poly)
    requires |word| == W && ByteTable(table)
    ensures r == Register(Zero(), word)
  {
    var data := word;
    PendingEnds(word);
    for k := 0 to W
      invariant data == Pending(word, k)
    {
      PendingStep(word, k, table);
      data := XorInto(table[Index(data[0])], Shifted(data), 4);
    }
    r := LowWord(data);
  }

  // ---------------------------------------------------------------- one braid, one word

  lemma {:induction false} RaiseSteps(q: Octet, n: nat)
    requires n <= 24
    ensures XtN(Lowered(q), n) == seq(32, i requires 0 <= i < 32 => n <= i < n + 8 && q[i - n])
  {
    if n > 0 {
      RaiseSteps(q, n - 1);
      var d := XtN(Lowered(q), n - 1);
      XtBits(d);
      assert !d[31];
    } else {
      assert XtN(Lowered(q), 0) == Lowered(q);
    }
  }

  lemma {:induction false} RaiseIs(q: Octet, n: nat)
    ensures XtN(Lowered(q), n + 24) == XtN(Raise(q), n)
  {
    RaiseSteps(q, 24);
    assert XtN(Lowered(q), 24) == Raise(q);
    XtNAdd(Lowered(q), 24, n);
  }

  /** Adding the entry of byte k to what the bytes before it gave. */
  lemma {:induction false} EntryStep(c: Poly, q: Octet, n: nat)
    ensures Xor(XtN(c, n + 8), XtN(Lowered(q), n + 32)) == XtN(Step(c, q), n)
  {
    RaiseIs(q, n + 8);
    XtNAdd(Xor(c, Raise(q)), 8, n);
    XtNLinear(c, Raise(q), n + 8);
  }

  lemma {:induction false} EntryAdds(word: seq<Octet>, k: nat, braid: seq<seq<Poly>>)
    requires k < |word| == W && BraidTable(braid)
    ensures Xor(XtN(Register(Zero(), word[..k]), 8 * (N * W - k)), braid[k][Index(word[k])])
         == XtN(Register(Zero(), word[..k + 1]), 8 * (N * W - k - 1))
  {
    assert word[..k + 1][..k] == word[..k];
    assert BraidRow(braid[k], k);
    IndexedOctet(word[k]);
    EntryStep(Register(Zero(), word[..k]), word[k], 8 * (N * W - k - 1));
  }

  /** A braid's register goes through its word and past the words of the other braids. */
  method BraidWord(c: Poly, w: seq<Octet>, braid: seq<seq<Poly>>) returns (r: Poly)
    requires |w| == W && BraidTable(braid)
    ensures r == Past(Register(c, w), N - 1)
  {
    var word := XorInto(c, w, 4);
    Absorb(Zero(), c, w, 4);
    XorZero(c);
    XtNZero(8 * N * W);
    assert word[..0] == [];
    EntryAdds(word, 0, braid);
    assert BraidRow(braid[0], 0);
    r := braid[0][Index(word[0])];
    XorZero(r);
    for k := 1 to W
      invariant r == XtN(Register(Zero(), word[..k]), 8 * (N * W - k))
    {
      EntryAdds(word, k, braid);
      assert BraidRow(braid[k], k);
      r := Xor(r, braid[k][Index(word[k])]);
    }
    assert word[..W] == word;
  }

  // ---------------------------------------------------------------- crc32_z

  /** The words of block t of the data. */
  function Block(s: seq<Octet>, t: nat): (r: seq<seq<Octet>>)
    requires N * W * (t + 1) <= |s|
    ensures |r| == N && Words(r)
  {
    seq(N, i requires 0 <= i < N => s[N * W * t + W * i..N * W * t + W * i + W])
  }

  lemma {:induction false} ThroughFrom(c: Poly, s: seq<Octet>, base: nat, ws: seq<seq<Octet>>, j: nat)
    requires j <= |ws| && base + 8 * |ws| <= |s| && forall i :: 0 <= i < |ws| ==> ws[i] == s[base + 8 * i..base + 8 * i + 8]
    ensures Through(Register(c, s[..base]), ws, j) == Register(c, s[..base + 8 * j])
    decreases j
  {
    if j > 0 {
      ThroughFrom(c, s, base, ws, j - 1);
      var a := s[..base + 8 * (j - 1)];
      RegisterConcat(c, a, ws[j - 1]);
      assert a + ws[j - 1] == s[..base + 8 * j];
    }
  }

  lemma {:induction false} BlockThrough(c: Poly, s: seq<Octet>, t: nat)
    requires N * W * (t + 1) <= |s|
    ensures Through(Register(c, s[..N * W * t]), Block(s, t), N) == Register(c, s[..N * W * (t + 1)])
  {
    ThroughFrom(c, s, N * W * t, Block(s, t), N);
  }

  /** All braids over one block. */
  method Weave(cs: seq<Poly>, ws: seq<seq<Octet>>, braid: seq<seq<Poly>>) returns (cs': seq<Poly>)
    requires |cs| == |ws| == N && Words(ws) && BraidTable(braid)
    ensures Advanced(cs, ws, cs', N - 1)
  {
    cs' := [];
    for i := 0 to N
      invariant |cs'| == i && forall k :: 0 <= k < i ==> cs'[k] == Past(Register(cs[k], ws[k]), N - 1)
    {
      var c := BraidWord(cs[i], ws[i], braid);
      cs' := cs' + [c];
    }
  }

  /** The last block, combining the braids on the way. */
  method Unweave(cs: seq<Poly>, ws: seq<seq<Octet>>, table: seq<Poly>) returns (crc: Poly)
    requires |cs| == |ws| == N && Words(ws) && ByteTable(table)
    ensures crc == Combined(cs, ws, N)
  {
    crc := Zero();
    for i := 0 to N
      invariant crc == Combined(cs, ws, i)
    {
      Absorb(Zero(), Xor(cs[i], crc), ws[i], 4);
      XorZero(Xor(cs[i], crc));
      crc := CrcWord(XorInto(Xor(cs[i], crc), ws[i], 4), table);
    }
  }

  /** The braided register over blks blocks of data. */
  method BraidBlocks(crc0: Poly, s: seq<Octet>, blks: nat, table: seq<Poly>, braid: seq<seq<Poly>>) returns (crc: Poly)
    requires ByteTable(table) && BraidTable(braid) && blks >= 1 && N * W * blks <= |s|
    ensures crc == Register(crc0, s[..N * W * blks])
  {
    var cs := [crc0, Zero(), Zero(), Zero(), Zero()];
    StartBraids(cs, crc0, N);
    assert s[..0] == [];
    ghost var reg := crc0;
    for t := 0 to blks - 1
      invariant |cs| == N && Braided(cs, reg) && reg == Register(crc0, s[..N * W * t])
    {
      var ws := Block(s, t);
      var cs' := Weave(cs, ws, braid);
      AdvanceBlock(cs, reg, ws, cs');
      BlockThrough(crc0, s, t);
      reg := Through(reg, ws, N);
      cs := cs';
    }
    var ws := Block(s, blks - 1);
    crc := Unweave(cs, ws, table);
    CombineBlock(cs, reg, ws);
    BlockThrough(crc0, s, blks - 1);
  }

  lemma {:induction false} RegisterSplit(c: Poly, s: seq<Octet>, m: nat)
    requires m <= |s|
    ensures Register(c, s) == Register(Register(c, s[..m]), s[m..])
  {
    RegisterConcat(c, s[..m], s[m..]);
    assert s[..m] + s[m..] == s;
  }

  /** Bytes up to a word boundary, then as many blocks as there are; what is left is for the caller. */
  method BraidMost(crc0: Poly, buf: seq<Octet>, lead: nat, table: seq<Poly>, braid: seq<seq<Poly>>)
      returns (crc: Poly, rest: seq<Octet>)
    requires ByteTable(table) && BraidTable(braid) && lead < W && |buf| >= N * W + W - 1
    ensures Register(crc, rest) == Register(crc0, buf)
  {
    RegisterSplit(crc0, buf, lead);
    crc := Bytewise(crc0, buf[..lead], table);
    rest := buf[lead..];
    var blks := |rest| / (N * W);
    RegisterSplit(crc, rest, N * W * blks);
    crc := BraidBlocks(crc, rest, blks, table, braid);
    rest := rest[N * W * blks..];
  }

  /** crc32_z on a buffer that begins lead bytes before a word boundary: the braided computation gives the
      checksum of the byte-at-a-time definition, continued from any earlier checksum. */
  method Crc32Z(crc0: Poly, buf: seq<Octet>, lead: nat, table: seq<Poly>, braid: seq<seq<Poly>>) returns (crc: Poly)
    requires ByteTable(table) && BraidTable(braid) && lead < W
    ensures crc == Xor(Register(Xor(crc0, Ones()), buf), Ones())
  {
    crc := Xor(crc0, Ones());
    var rest := buf;
    if |buf| >= N * W + W - 1 {
      crc, rest := BraidMost(crc, buf, lead, table, braid);
    }
    crc := Bytewise(crc, rest, table);
    crc := Xor(crc, Ones());
  }

  /** From the empty checksum it is the checksum of the data; the checksum of a longer text can be had piece by piece.
      */
  lemma {:induction false} CrcZContinues(s: seq<Octet>, t: seq<Octet>)
    ensures Xor(Register(Xor(Crc(s), Ones()), t), Ones()) == Crc(s + t)
  {
    var r := Register(Ones(), s);
    XorComm(r, Ones());
    XorSelf(Ones(), r);
    XorComm(Crc(s), Ones());
    RegisterConcat(Ones(), s, t);
    assert Xor(Crc(s), Ones()) == r;
  }
}
