/** The tables of crc32.c (make_crc_table, braid): crc_table, by eight steps of the shift register for each byte,
    and the braid tables, by multiplication with powers of x. */
module CrcTables {
  import opened Common
  import opened Gf2
  import opened Crc32
  import opened Crc32Order

  const N := 5  // braids
  const W := 8  // bytes in a word

  // ---------------------------------------------------------------- bytes as numbers and as octets

  /** The last n bits of v, the highest first. */
  function LowBits(v: nat, n: nat): (r: seq<bool>)
    ensures |r| == n
    decreases n, v
  {
    if n == 0 then [] else LowBits(v / 2, n - 1) + [v % 2 == 1]
  }

  function Value(s: seq<bool>): (r: nat)
    ensures r < Pow2(|s|)
  {
    if s == [] then 0 else 2 * Value(s[..|s| - 1]) + (if s[|s| - 1] then 1 else 0)
  }

  lemma {:induction false} BitsOfValue(s: seq<bool>)
    ensures LowBits(Value(s), |s|) == s
  {
    if s != [] {
      BitsOfValue(s[..|s| - 1]);
      assert s == s[..|s| - 1] + [s[|s| - 1]];
    }
  }

  /** A number below 2^n with no bit set is zero. */
  lemma {:induction false} NoBits(v: nat, n: nat)
    requires v < Pow2(n) && forall j :: 0 <= j < n ==> !LowBits(v, n)[j]
    ensures v == 0
    decreases n
  {
    if n > 0 {
      var b := LowBits(v / 2, n - 1);
      assert LowBits(v, n) == b + [v % 2 == 1];
      forall j | 0 <= j < n - 1
        ensures !b[j]
      {
        assert LowBits(v, n)[j] == b[j];
      }
      NoBits(v / 2, n - 1);
      assert !LowBits(v, n)[n - 1];
    }
  }

  lemma Pow2Eight(n: nat)
    requires n == 8
    ensures Pow2(n) == 256
  {
    assert Pow2(n) == 16 * Pow2(n - 4) && Pow2(n - 4) == 16 * Pow2(n - 8) by {
      assert Pow2(n) == 2 * Pow2(n - 1) && Pow2(n - 1) == 2 * Pow2(n - 2) && Pow2(n - 2) == 2 * Pow2(n - 3)
          && Pow2(n - 3) == 2 * Pow2(n - 4);
      assert Pow2(n - 4) == 2 * Pow2(n - 5) && Pow2(n - 5) == 2 * Pow2(n - 6) && Pow2(n - 6) == 2 * Pow2(n - 7)
          && Pow2(n - 7) == 2 * Pow2(n - 8);
    }
  }

  /** The byte i as an octet. */
  function OctetOf(i: nat): (r: Octet) { LowBits(i, |Zeros()|) }

  function Zeros(): (r: Octet) { seq(8, _ => false) }

  /** An octet as an index into a table. */
  function Index(q: Octet): (r: nat)
    ensures r < 256
  {
    Pow2Eight(|q|);
    Value(q)
  }

  lemma {:induction false} IndexedOctet(q: Octet)
    ensures OctetOf(Index(q)) == q
  {
    BitsOfValue(q);
  }

  /** q, in the lowest powers of x: the byte in the highest bits of a word. */
  function Lowered(q: Octet): (r: Poly) { seq(32, i requires 0 <= i < 32 => i < 8 && q[i]) }

  lemma {:induction false} LoweredNotZero(i: nat)
    requires 0 < i < 256
    ensures Lowered(OctetOf(i)) != Zero()
  {
    var q := OctetOf(i);
    if Lowered(q) == Zero() {
      forall j | 0 <= j < 8
        ensures !q[j]
      {
        assert Lowered(q)[j] == Zero()[j];
      }
      Pow2Eight(|q|);
      NoBits(i, |q|);
    }
  }

  lemma {:induction false} LoweredZero()
    ensures Lowered(OctetOf(0)) == Zero()
  {
    NoneSet(0, |Zeros()|);
  }

  lemma {:induction false} NoneSet(v: nat, n: nat)
    requires v == 0
    ensures forall j :: 0 <= j < n ==> !LowBits(v, n)[j]
    decreases n
  {
    if n > 0 {
      NoneSet(v / 2, n - 1);
    }
  }

  // ---------------------------------------------------------------- crc_table

  /** Entry q is what the byte q makes of an empty register. */
  ghost predicate ByteTable(table: seq<Poly>) {
    |table| == 256 && forall i :: 0 <= i < 256 ==> table[i] == XtN(Raise(OctetOf(i)), 8)
  }

  /** p >> 1, with the polynomial added if a one was shifted out. */
  method ShiftOne(p: Poly) returns (r: Poly)
    ensures r == Xt(p)
  {
    XtParts(p);
    XorZero(Up(p));
    r := if p[31] then Xor(Up(p), PolyWord()) else Up(p);
  }

  /** The loop for one byte: the byte as a word, shifted eight times. */
  method ByteEntry(i: nat) returns (p: Poly)
    requires i < 256
    ensures p == XtN(Raise(OctetOf(i)), 8)
  {
    p := Raise(OctetOf(i));
    assert XtN(p, 0) == p;
    for j := 0 to 8
      invariant p == XtN(Raise(OctetOf(i)), j)
    {
      p := ShiftOne(p);
    }
  }

  method MakeByteTable() returns (table: seq<Poly>)
    ensures ByteTable(table)
  {
    table := [];
    for i := 0 to 256
      invariant |table| == i && forall k :: 0 <= k < i ==> table[k] == XtN(Raise(OctetOf(k)), 8)
    {
      var p := ByteEntry(i);
      table := table + [p];
    }
  }

  // ---------------------------------------------------------------- the braid tables

  /** What byte k of a braid's word adds to that braid at the end of the block: q times x^(8 * (N * W + 3 - k)). */
  function Entry(k: nat, q: Octet): (r: Poly)
    requires k < W
  {
    XtN(Lowered(q), 8 * (N * W + 3 - k))
  }

  ghost predicate BraidRow(row: seq<Poly>, k: nat)
    requires k < W
  {
    |row| == 256 && forall i :: 0 <= i < 256 ==> row[i] == Entry(k, OctetOf(i))
  }

  ghost predicate BraidTable(braid: seq<seq<Poly>>) {
    |braid| == W && forall k :: 0 <= k < W ==> BraidRow(braid[k], k)
  }

  /** The product with a power of x. */
  lemma {:induction false} EntryIsProduct(q: Octet, p: Poly, n: nat)
    requires IsPow(p, n)
    ensures Mul(Lowered(q), p) == XtN(Lowered(q), n)
  {
    assert Unfold(0);
    TimesPower(Lowered(q), n);
  }

  /** One row of the table, from the power of x for its byte. */
  method MakeBraidRow(k: nat, p: Poly) returns (row: seq<Poly>)
    requires k < W && IsPow(p, 8 * (N * W + 3 - k))
    ensures BraidRow(row, k)
  {
    var n := 8 * (N * W + 3 - k);
    LoweredZero();
    XtNZero(n);
    row := [Zero()];
    for i := 1 to 256
      invariant |row| == i && forall j :: 0 <= j < i ==> row[j] == XtN(Lowered(OctetOf(j)), n)
    {
      LoweredNotZero(i);
      var q := MultModP(Lowered(OctetOf(i)), p);
      EntryIsProduct(OctetOf(i), p, n);
      row := row + [q];
    }
  }

  /** The braid tables for N braids of words of W bytes (braid). */
  method MakeBraid(x2n: seq<Poly>) returns (braid: seq<seq<Poly>>)
    requires |x2n| == 32 && Doublings(x2n)
    ensures BraidTable(braid)
  {
    braid := [];
    for k := 0 to W
      invariant |braid| == k && forall j :: 0 <= j < k ==> BraidRow(braid[j], j)
    {
      var p := PowerModP(8 * (N * W + 3 - k), 0, x2n);
      var row := MakeBraidRow(k, p);
      braid := braid + [row];
    }
  }

  /** All tables (make_crc_table). */
  method MakeCrcTable() returns (table: seq<Poly>, x2n: seq<Poly>, braid: seq<seq<Poly>>)
    ensures ByteTable(table) && |x2n| == 32 && Doublings(x2n) && BraidTable(braid)
  {
    table := MakeByteTable();
    x2n := MakeX2nTable();
    braid := MakeBraid(x2n);
  }
}
