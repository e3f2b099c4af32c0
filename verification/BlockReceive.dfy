/** Reading a block's header and body in BZ2_decompress (decompress.c). Every part is read back exactly as it
    was written. On other input the reader ends with an error or with parts in range, but for one case: the
    number of selectors is not compared with the room for them, and where more are announced than there is
    room for, the code may write behind its arrays (Overrun). */
module BlockReceive {
  import opened Common
  import opened BitStream
  import opened CanonicalCode
  import opened MtfCoding
  import opened MtfEncode
  import opened MtfDecode
  import opened BlockFormat

  /** Overrun: the code would now write behind an array; what it does from there on is not modelled. */
  datatype Outcome<+T> = Done(value: T) | BadData | NoInput | Overrun(nSelectors: nat)

  /** The same failure, where another type is expected. */
  function Failed<T, U>(o: Outcome<T>): (r: Outcome<U>)
    requires !o.Done?
    ensures !r.Done? && (o.BadData? <==> r.BadData?) && (o.NoInput? <==> r.NoInput?)
    ensures r.Overrun? ==> o.Overrun? && r.nSelectors == o.nSelectors
  {
    match o
    case BadData => BadData
    case NoInput => NoInput
    case Overrun(n) => Overrun(n)
  }

  /** now is what is left of all when some bits have been read. */
  ghost predicate Later(all: seq<int>, now: seq<int>) {
    forall k {:trigger Open(k)} :: Open(k) ==> |now| <= |all| && now == all[|all| - |now|..]
  }

  lemma LaterNone(all: seq<int>)
    ensures Later(all, all)
  {
  }

  lemma LaterStill(all: seq<int>, now: seq<int>, after: seq<int>)
    requires Later(all, now) && Later(now, after)
    ensures Later(all, after)
  {
    assert Open(0);
  }

  lemma LaterBits(head: seq<int>, now: seq<int>)
    ensures Later(head + now, now)
  {
  }

  /** How the input stands after reading: some bits have been read, or there are too few. */
  ghost predicate Consumed(done: bool, short: bool, all: seq<int>, now: seq<int>) {
    (done ==> Later(all, now)) && (short ==> |now| < 24)
  }

  /** Reads n bits. When the input goes on with the bits of v (expected), v is what is read. */
  method Take(input: Input, n: nat, ghost expected: bool, ghost v: nat, ghost rest: seq<int>) returns (r: Option<nat>)
    requires n <= 24 && (expected ==> v < Pow2(n) && input.Rest() == Bits(v, n) + rest)
    modifies input, input.reader
    ensures expected ==> r == Some(v) && input.Rest() == rest
    ensures r.Some? ==> r.value < Pow2(n) && |input.Rest()| == |old(input.Rest())| - n
    ensures r.Some? ==> old(input.Rest()) == Bits(r.value, n) + input.Rest()
    ensures Consumed(r.Some?, r.None?, old(input.Rest()), input.Rest())
  {
    ghost var all := input.Rest();
    r := input.Get(n);
    if r.Some? { LaterBits(Bits(r.value, n), input.Rest()); }
    if expected {
      SameHead(all, v, rest, r.value, input.Rest(), n);
    }
  }

  lemma {:induction false} SameHead(all: seq<int>, v: nat, rest: seq<int>, x: nat, rest': seq<int>, n: nat)
    requires v < Pow2(n) && x < Pow2(n) && all == Bits(v, n) + rest && all == Bits(x, n) + rest'
    ensures v == x && rest == rest'
  {
    assert all[..n] == Bits(v, n) && all[..n] == Bits(x, n);
    assert all[n..] == rest && all[n..] == rest';
    BitsInjective(v, x, n);
  }

  lemma Pow2One()
    ensures Pow2(1) == 2
  {
    assert Pow2(1) == 2 * Pow2(0);
  }

  method TakeFlag(input: Input, ghost expected: bool, ghost f: bool, ghost rest: seq<int>) returns (r: Option<bool>)
    requires expected ==> input.Rest() == Bits(Bit(f), 1) + rest
    modifies input, input.reader
    ensures expected ==> r == Some(f) && input.Rest() == rest
    ensures r.None? <==> old(input.Rest()) == []
    ensures r.Some? ==> |input.Rest()| == |old(input.Rest())| - 1
    ensures r.Some? ==> input.Rest() == old(input.Rest())[1..] && old(input.Rest())[0] == Bit(r.value)
    ensures Consumed(r.Some?, r.None?, old(input.Rest()), input.Rest())
  {
    Pow2One();
    ghost var all := input.Rest();
    var bit := input.Get(1);
    if bit.Some? {
      OneBit(bit.value, all, input.Rest());
      LaterBits(Bits(bit.value, 1), input.Rest());
    }
    if expected { OneBit(Bit(f), all, rest); }
    r := if bit.None? then None else Some(bit.value == 1);
  }

  lemma {:induction false} OneBit(v: nat, all: seq<int>, rest: seq<int>)
    requires v < 2 && all == Bits(v, 1) + rest
    ensures all != [] && all[0] == v && all[1..] == rest
  {
    assert Bits(v, 1) == Bits(v / 2, 0) + [v % 2];
  }

  // ---------------------------------------------------------------- the mapping table

  /** f is f0 with the places lo..i-1 as in want. */
  ghost predicate Filled(f: seq<bool>, f0: seq<bool>, want: seq<bool>, lo: nat, i: nat) {
    && |f| == |f0| == |want|
    && forall k :: 0 <= k < |f| ==> f[k] == if lo <= k < i then want[k] else f0[k]
  }

  /** f is f0 but for the places lo..i-1. */
  ghost predicate Outside(f: seq<bool>, f0: seq<bool>, lo: nat, i: nat) {
    |f| == |f0| && forall k :: 0 <= k < |f| && !(lo <= k < i) ==> f[k] == f0[k]
  }

  method TakeFlagAt(input: Input, f: seq<bool>, i: nat, ghost hi: nat, ghost expected: bool, ghost want: seq<bool>,
      ghost rest: seq<int>)
    returns (r: Option<seq<bool>>)
    requires i < hi <= |f| && (expected ==> |want| == |f| && input.Rest() == Flags(want, i, hi) + rest)
    modifies input, input.reader
    ensures expected ==> r.Some? && input.Rest() == Flags(want, i + 1, hi) + rest && (!f[i] ==> r.value == f[i := want[i]])
    ensures r.Some? ==> r.value == f || r.value == f[i := true]
    ensures Consumed(r.Some?, r.None?, old(input.Rest()), input.Rest())
  {
    if expected { Regroup(Bits(Bit(want[i]), 1), Flags(want, i + 1, hi), rest); }
    var bit := TakeFlag(input, expected, expected && want[i], if expected then Flags(want, i + 1, hi) + rest else []);
    if bit.None? { return None; }
    assert !f[i] ==> f[i := false] == f;
    r := Some(if bit.value then f[i := true] else f);
  }

  /** Reads a bit for each place from lo to hi - 1, setting those of f0 that are 1. */
  method TakeFlags(input: Input, f0: seq<bool>, lo: nat, hi: nat, ghost expected: bool, ghost want: seq<bool>,
      ghost rest: seq<int>)
    returns (r: Option<seq<bool>>)
    requires lo <= hi <= |f0| && forall k :: lo <= k < hi ==> !f0[k]
    requires expected ==> |want| == |f0| && input.Rest() == Flags(want, lo, hi) + rest
    modifies input, input.reader
    ensures expected ==> r.Some? && input.Rest() == rest && Filled(r.value, f0, want, lo, hi)
    ensures r.Some? ==> Outside(r.value, f0, lo, hi)
    ensures Consumed(r.Some?, r.None?, old(input.Rest()), input.Rest())
  {
    var f := f0;
    ghost var all := input.Rest();
    LaterNone(all);
    for i := lo to hi
      invariant Outside(f, f0, lo, i) && Later(all, input.Rest())
      invariant expected ==> input.Rest() == Flags(want, i, hi) + rest && Filled(f, f0, want, lo, i)
    {
      ghost var before := input.Rest();
      var next := TakeFlagAt(input, f, i, hi, expected, want, rest);
      if next.None? { return None; }
      LaterStill(all, before, input.Rest());
      f := next.value;
    }
    Nothing(rest);
    r := Some(f);
  }

  lemma {:induction false} UnusedRow(inUse: seq<bool>, i: nat, k: nat)
    requires |inUse| == 256 && i < 16 && !RowUsed(inUse, i) && 16 * i <= k < 16 * i + 16
    ensures !inUse[k]
  {
  }

  ghost predicate RowsRead(f: seq<bool>, want: seq<bool>, i: nat) {
    && |f| == |want| == 256
    && (forall k :: 0 <= k < 16 * i && k < 256 ==> f[k] == want[k])
  }

  ghost predicate RowsBlank(f: seq<bool>, i: nat) {
    |f| == 256 && forall k :: 16 * i <= k < 256 ==> !f[k]
  }

  method TakeRow(input: Input, f: seq<bool>, used: bool, i: nat, ghost expected: bool, ghost want: seq<bool>,
      ghost rest: seq<int>)
    returns (r: Option<seq<bool>>)
    requires i < 16 && RowsBlank(f, i)
    requires expected ==> RowsRead(f, want, i) && used == RowUsed(want, i) && input.Rest() == RowPart(want, i) + rest
    modifies input, input.reader
    ensures expected ==> r.Some? && RowsRead(r.value, want, i + 1) && input.Rest() == rest
    ensures r.Some? ==> RowsBlank(r.value, i + 1)
    ensures Consumed(r.Some?, r.None?, old(input.Rest()), input.Rest())
  {
    if used {
      r := TakeFlags(input, f, 16 * i, 16 * i + 16, expected, want, rest);
    } else {
      if expected {
        forall k | 16 * i <= k < 16 * i + 16
          ensures !want[k]
        {
          UnusedRow(want, i, k);
        }
        Nothing(rest);
      }
      LaterNone(input.Rest());
      r := Some(f);
    }
  }

  method TakeRows(input: Input, inUse16: seq<bool>, ghost expected: bool, ghost want: seq<bool>, ghost rest: seq<int>)
    returns (r: Option<seq<bool>>)
    requires |inUse16| == 16
    requires expected ==> |want| == 256 && inUse16 == RowsUsed(want) && input.Rest() == RowBits(want, 0) + rest
    modifies input, input.reader
    ensures expected ==> r == Some(want) && input.Rest() == rest
    ensures r.Some? ==> |r.value| == 256
    ensures Consumed(r.Some?, r.None?, old(input.Rest()), input.Rest())
  {
    var f := seq(256, _ => false);
    ghost var all := input.Rest();
    LaterNone(all);
    for i := 0 to 16
      invariant RowsBlank(f, i) && Later(all, input.Rest())
      invariant expected ==> RowsRead(f, want, i) && input.Rest() == RowBits(want, i) + rest
    {
      ghost var before := input.Rest();
      if expected { Regroup(RowPart(want, i), RowBits(want, i + 1), rest); }
      r := TakeRow(input, f, inUse16[i], i, expected, want, if expected then RowBits(want, i + 1) + rest else []);
      if r.None? { return; }
      LaterStill(all, before, input.Rest());
      f := r.value;
    }
    Nothing(rest);
    assert expected ==> f == want;
    r := Some(f);
  }

  method TakeSixteen(input: Input, ghost expected: bool, ghost want: seq<bool>, ghost rest: seq<int>)
      returns (r: Option<seq<bool>>)
    requires expected ==> |want| == 16 && input.Rest() == Flags(want, 0, 16) + rest
    modifies input, input.reader
    ensures expected ==> r == Some(want) && input.Rest() == rest
    ensures r.Some? ==> |r.value| == 16
    ensures Consumed(r.Some?, r.None?, old(input.Rest()), input.Rest())
  {
    var none := seq(16, _ => false);
    r := TakeFlags(input, none, 0, 16, expected, want, rest);
    assert expected ==> r.value == want;
  }

  /** Receives the mapping table. */
  method TakeMap(input: Input, ghost expected: bool, ghost want: seq<bool>, ghost rest: seq<int>)
      returns (r: Option<seq<bool>>)
    requires expected ==> |want| == 256 && input.Rest() == MapBits(want) + rest
    modifies input, input.reader
    ensures expected ==> r == Some(want) && input.Rest() == rest
    ensures r.Some? ==> |r.value| == 256
    ensures Consumed(r.Some?, r.None?, old(input.Rest()), input.Rest())
  {
    ghost var used, all := if expected then RowsUsed(want) else [], input.Rest();
    if expected { Regroup(Flags(used, 0, 16), RowBits(want, 0), rest); }
    r := TakeSixteen(input, expected, used, if expected then RowBits(want, 0) + rest else []);
    if r.None? { return; }
    ghost var before := input.Rest();
    r := TakeRows(input, r.value, expected, want, rest);
    if r.Some? { LaterStill(all, before, input.Rest()); }
  }

  // ---------------------------------------------------------------- the selectors

  /** What reading a rank of a selector comes to, when j ones have been read: the rank, with what is left, or an error.
      */
  ghost function ReadUnary(bits: seq<int>, nGroups: nat, j: nat): (r: Outcome<(nat, seq<int>)>)
    decreases |bits|
  {
    if bits == [] then NoInput
    else if bits[0] == 0 then Done((j, bits[1..]))
    else if j + 1 >= nGroups then BadData
    else ReadUnary(bits[1..], nGroups, j + 1)
  }

  /** n ranks can be read. */
  ghost predicate Reaches(bits: seq<int>, nGroups: nat, n: nat)
    decreases n
  {
    n == 0 || (ReadUnary(bits, nGroups, 0).Done? && Reaches(ReadUnary(bits, nGroups, 0).value.1, nGroups, n - 1))
  }

  lemma {:induction false} UnaryNext(left: nat, next: nat, rest: seq<int>)
    requires left == next + 1
    ensures Unary(left) + rest == Bits(1, 1) + (Unary(next) + rest)
  {
    Regroup(Bits(1, 1), Unary(next), rest);
  }

  method TakeUnary(input: Input, nGroups: nat, ghost expected: bool, ghost want: nat, ghost rest: seq<int>)
      returns (r: Outcome<nat>)
    requires nGroups > 0 && (expected ==> want < nGroups && input.Rest() == Unary(want) + rest)
    modifies input, input.reader
    ensures expected ==> r == Done(want) && input.Rest() == rest
    ensures r.Done? ==> r.value < nGroups && ReadUnary(old(input.Rest()), nGroups, 0) == Done((r.value, input.Rest()))
    ensures !r.Done? ==> !r.Overrun? && !ReadUnary(old(input.Rest()), nGroups, 0).Done?
    ensures Consumed(r.Done?, r.NoInput?, old(input.Rest()), input.Rest())
  {
    var j := 0;
    ghost var left, all := want, input.Rest();
    LaterNone(all);
    while true
      invariant 0 <= j < nGroups && (expected ==> j + left == want && input.Rest() == Unary(left) + rest)
      invariant ReadUnary(all, nGroups, 0) == ReadUnary(input.Rest(), nGroups, j) && Later(all, input.Rest())
      decreases nGroups - j
    {
      ghost var before := input.Rest();
      ghost var more := expected && left > 0;
      ghost var next := if more then left - 1 else 0;
      if more { UnaryNext(left, next, rest); }
      var bit := TakeFlag(input, expected, more, if more then Unary(next) + rest else rest);
      if bit.None? { return NoInput; }
      LaterStill(all, before, input.Rest());
      if !bit.value { return Done(j); }
      j, left := j + 1, next;
      if j >= nGroups { return BadData; }
    }
  }

  /** With nSelectors announced, reading the ranks in bits comes to a write behind the array. */
  ghost predicate Overruns(bits: seq<int>, nGroups: nat, nSelectors: nat) {
    nSelectors > MAX_SELECTORS && Reaches(bits, nGroups, MAX_SELECTORS + 1)
  }

  /** Where the loop over the selectors stands when i ranks have been stored. */
  ghost predicate Taking(nGroups: nat, m: seq<int>, all: seq<int>, now: seq<int>, i: nat) {
    |m| >= i && Symbols(nGroups, m[..i]) && i <= MAX_SELECTORS
    && Reaches(all, nGroups, MAX_SELECTORS + 1) == Reaches(now, nGroups, MAX_SELECTORS + 1 - i)
  }

  lemma {:induction false} TakenOne(nGroups: nat, m: seq<int>, all: seq<int>, now: seq<int>, i: nat, j: nat,
      rest: seq<int>)
    requires Taking(nGroups, m, all, now, i) && ReadUnary(now, nGroups, 0) == Done((j, rest)) && j < nGroups && i < |m|
    ensures Reaches(all, nGroups, MAX_SELECTORS + 1) == Reaches(rest, nGroups, MAX_SELECTORS - i)
    ensures i < MAX_SELECTORS ==> Taking(nGroups, m[i := j], all, rest, i + 1)
  {
    assert m[i := j][..i + 1] == m[..i] + [j];
  }

  /** Reads the ranks of the selectors. A write goes behind the array exactly when more selectors are announced than it
      holds and the input has as many. */
  method TakeSelectors(input: Input, nGroups: nat, nSelectors: nat, selectorMtf: array<int>,
                       ghost expected: bool, ghost want: seq<int>, ghost rest: seq<int>) returns (r: Outcome<()>)
    requires nGroups > 0 && selectorMtf.Length == MAX_SELECTORS
    requires expected ==> |want| == nSelectors <= MAX_SELECTORS && Symbols(nGroups, want) && input.Rest() == SelectorBits(want, 0) + rest
    modifies input, input.reader, selectorMtf
    ensures r.Overrun? <==> Overruns(old(input.Rest()), nGroups, nSelectors)
    ensures r.Overrun? ==> r.nSelectors == nSelectors
    ensures r.Done? ==> nSelectors <= MAX_SELECTORS && Symbols(nGroups, selectorMtf[..nSelectors])
    ensures expected ==> r.Done? && selectorMtf[..nSelectors] == want && input.Rest() == rest
    ensures Consumed(r.Done?, r.NoInput?, old(input.Rest()), input.Rest())
  {
    ghost var all := input.Rest();
    LaterNone(all);
    for i := 0 to nSelectors
      invariant Taking(nGroups, selectorMtf[..], all, input.Rest(), i) && Later(all, input.Rest())
      invariant expected ==> selectorMtf[..i] == want[..i] && input.Rest() == SelectorBits(want, i) + rest
    {
      if expected { Regroup(Unary(want[i]), SelectorBits(want, i + 1), rest); }
      ghost var m, now := selectorMtf[..], input.Rest();
      var j := TakeUnary(input, nGroups, expected, if expected then want[i]
          else 0, if expected then SelectorBits(want, i + 1) + rest else []);
      if !j.Done? { return Failed(j); }
      LaterStill(all, now, input.Rest());
      if i == MAX_SELECTORS { return Overrun(nSelectors); }
      TakenOne(nGroups, m, all, now, i, j.value, input.Rest());
      selectorMtf[i] := j.value;
      assert selectorMtf[..] == m[i := j.value];
    }
    Nothing(rest);
    r := Done(());
  }

  /** Zeros are ranks, as many as there are. */
  lemma {:induction false} ZerosReach(bits: seq<int>, nGroups: nat, n: nat)
    requires |bits| >= n && forall k :: 0 <= k < n ==> bits[k] == 0
    ensures Reaches(bits, nGroups, n)
    decreases n
  {
    if n > 0 {
      ZerosReach(bits[1..], nGroups, n - 1);
    }
  }

  /** A number of selectors is safe whatever follows exactly when there is room for so many. */
  lemma {:induction false} SelectorRoom(nGroups: nat, nSelectors: nat)
    ensures nSelectors <= MAX_SELECTORS <==> forall bits: seq<int> :: !Overruns(bits, nGroups, nSelectors)
  {
    var zeros := seq(MAX_SELECTORS + 1, _ => 0);
    ZerosReach(zeros, nGroups, MAX_SELECTORS + 1);
    assert nSelectors > MAX_SELECTORS ==> Overruns(zeros, nGroups, nSelectors);
  }

  /** Among the numbers that fit the 15-bit field, 18003 is the first that the code accepts without room for it: with as
      many ranks of zero behind it, the last is stored behind the array. */
  lemma {:induction false} SelectorsOverrun(nGroups: nat, ranks: seq<int>)
    requires |ranks| == 18003 && forall k :: 0 <= k < |ranks| ==> ranks[k] == 0
    ensures |ranks| < 0x8000 && Overruns(ranks, nGroups, |ranks|)
  {
    ZerosReach(ranks, nGroups, MAX_SELECTORS + 1);
  }

  /** Takes the entry at place v to the front, shifting the ones before it up. */
  method PullForward(pos: array<int>, n: nat, v0: nat) returns (tmp: int)
    requires v0 < n <= pos.Length
    modifies pos
    ensures tmp == old(pos[v0]) && pos[..n] == ToFront(old(pos[..n]), v0)
  {
    ghost var l := pos[..n];
    var v := v0;
    tmp := pos[v];
    while v > 0
      invariant 0 <= v <= v0
      invariant forall k :: 0 <= k < n ==> pos[k] == l[if v < k <= v0 then k - 1 else k]
    {
      pos[v] := pos[v - 1];
      v := v - 1;
    }
    pos[0] := tmp;
  }

  lemma {:induction false} UnranksStep(n: nat, ranks: seq<int>, i: nat)
    requires Symbols(n, ranks) && i < |ranks|
    ensures Unranks(n, ranks)[..i + 1] == Unranks(n, ranks)[..i] + [UnlistTo(n, ranks, i)[ranks[i]]]
  {
  }

  lemma {:induction false} UnlistSymbols(n: nat, ranks: seq<int>, m: nat)
    requires Symbols(n, ranks) && m <= |ranks|
    ensures Symbols(n, UnlistTo(n, ranks, m))
  {
    if m > 0 {
      UnlistSymbols(n, ranks, m - 1);
    }
  }

  /** i ranks have been undone; list is then the list of tables. */
  ghost predicate Undoing(nGroups: nat, ranks: seq<int>, list: seq<int>, selector: seq<int>, i: nat) {
    Symbols(nGroups, ranks) && |ranks| <= |selector| && forall k {:trigger Unfold(k)} :: Unfold(k) ==>
      i <= |ranks| && list == UnlistTo(nGroups, ranks, i) && selector[..i] == Unranks(nGroups, ranks)[..i]
          && Symbols(nGroups, selector[..i])
  }

  method FirstPlaces(nGroups: nat, ghost ranks: seq<int>, ghost selector: seq<int>) returns (pos: array<int>)
    requires 0 < nGroups <= 6 && Symbols(nGroups, ranks) && |ranks| <= |selector|
    ensures fresh(pos) && pos.Length == 6 && Undoing(nGroups, ranks, pos[..nGroups], selector, 0)
  {
    pos := new int[6];
    for v := 0 to nGroups
      invariant forall k :: 0 <= k < v ==> pos[k] == k
    {
      pos[v] := v;
    }
    assert pos[..nGroups] == UnlistTo(nGroups, ranks, 0);
  }

  lemma {:induction false} UndoneAll(nGroups: nat, ranks: seq<int>, list: seq<int>, selector: seq<int>)
    requires Undoing(nGroups, ranks, list, selector, |ranks|)
    ensures selector[..|ranks|] == Unranks(nGroups, ranks) && Symbols(nGroups, selector[..|ranks|])
  {
    assert Unfold(0);
  }

  /** Undoes the move-to-front ranks of the selectors. */
  method UndoSelectors(selectorMtf: array<int>, selector: array<int>, nSelectors: nat, nGroups: nat)
    requires selectorMtf != selector && nSelectors <= selectorMtf.Length && nSelectors <= selector.Length
    requires 0 < nGroups <= 6 && Symbols(nGroups, selectorMtf[..nSelectors])
    modifies selector
    ensures selector[..nSelectors] == Unranks(nGroups, selectorMtf[..nSelectors])
        && Symbols(nGroups, selector[..nSelectors])
  {
    ghost var ranks := selectorMtf[..nSelectors];
    var pos := FirstPlaces(nGroups, ranks, selector[..]);
    for i := 0 to nSelectors
      invariant Undoing(nGroups, ranks, pos[..nGroups], selector[..], i)
    {
      UndoOne(selector, pos, selectorMtf[i], i, nGroups, ranks);
    }
    UndoneAll(nGroups, ranks, pos[..nGroups], selector[..]);
    assert selector[..][..nSelectors] == selector[..nSelectors];
  }

  method UndoOne(selector: array<int>, pos: array<int>, v: int, i: nat, nGroups: nat, ghost ranks: seq<int>)
    requires pos != selector && 0 < nGroups <= pos.Length && i < |ranks| && ranks[i] == v
    requires Undoing(nGroups, ranks, pos[..nGroups], selector[..], i)
    modifies selector, pos
    ensures Undoing(nGroups, ranks, pos[..nGroups], selector[..], i + 1)
  {
    ghost var list, was := pos[..nGroups], selector[..];
    UndoStep(nGroups, ranks, list, was, i);
    var tmp := PullForward(pos, nGroups, v);
    selector[i] := tmp;
    assert selector[..] == was[i := tmp];
  }

  lemma {:induction false} UndoStep(nGroups: nat, ranks: seq<int>, list: seq<int>, selector: seq<int>, i: nat)
    requires Undoing(nGroups, ranks, list, selector, i) && i < |ranks|
    ensures |list| == nGroups && 0 <= ranks[i] < nGroups
    ensures Undoing(nGroups, ranks, ToFront(list, ranks[i]), selector[i := list[ranks[i]]], i + 1)
  {
    assert Unfold(0);
    UnlistSymbols(nGroups, ranks, i);
    UnranksStep(nGroups, ranks, i);
    assert selector[i := list[ranks[i]]][..i + 1] == selector[..i] + [list[ranks[i]]];
  }

  // ---------------------------------------------------------------- the coding tables

  /** Reads the steps from length curr0 to the next. */
  method TakeLength(input: Input, curr0: int, ghost expected: bool, ghost want: int, ghost rest: seq<int>)
      returns (r: Outcome<int>)
    requires expected ==> 1 <= curr0 <= 20 && 1 <= want <= 20 && input.Rest() == Delta(curr0, want) + rest
    modifies input, input.reader
    ensures !r.Overrun?
    ensures expected ==> r == Done(want) && input.Rest() == rest
    ensures r.Done? ==> 1 <= r.value <= 20
    ensures Consumed(r.Done?, r.NoInput?, old(input.Rest()), input.Rest())
  {
    var curr := curr0;
    ghost var all := input.Rest();
    LaterNone(all);
    while true
      invariant Later(all, input.Rest())
      invariant expected ==> 1 <= curr <= 20 && input.Rest() == Delta(curr, want) + rest
      decreases |input.Rest()|
    {
      if curr < 1 || curr > 20 { return BadData; }
      ghost var before := input.Rest();
      ghost var up := curr < want;
      ghost var next := if up then curr + 1 else curr - 1;
      ghost var more := expected && curr != want;
      ghost var after := if more then Delta(next, want) + rest else rest;
      if more { StepBits(up, Delta(next, want), rest); }
      var bit := TakeFlag(input, expected, more, if more then Bits(Bit(!up), 1) + after else after);
      if bit.None? { return NoInput; }
      LaterStill(all, before, input.Rest());
      if !bit.value { return Done(curr); }
      before := input.Rest();
      bit := TakeFlag(input, more, !up, after);
      if bit.None? { return NoInput; }
      LaterStill(all, before, input.Rest());
      curr := if !bit.value then curr + 1 else curr - 1;
    }
  }

  /** One step is two bits: 1, then the direction. */
  lemma StepBits(up: bool, next: seq<int>, rest: seq<int>)
    ensures (Bits(if up then 2 else 3, 2) + next) + rest == Bits(1, 1) + (Bits(Bit(!up), 1) + (next + rest))
  {
    var v := if up then 2 else 3;
    assert Bits(v, 2) == Bits(v / 2, 1) + [v % 2];
    assert Bits(1, 1) == Bits(0, 0) + [1] && Bits(Bit(!up), 1) == Bits(0, 0) + [Bit(!up)];
  }

  method TakeLengths(input: Input, curr0: int, alphaSize: nat, ghost expected: bool, ghost want: seq<int>,
      ghost rest: seq<int>)
    returns (r: Outcome<seq<int>>)
    requires expected ==> 1 <= curr0 <= 20 && |want| == alphaSize && Lengths(want, 1, 20) && input.Rest() == DeltaBits(curr0, want, 0) + rest
    modifies input, input.reader
    ensures !r.Overrun?
    ensures expected ==> r == Done(want) && input.Rest() == rest
    ensures r.Done? ==> |r.value| == alphaSize && Lengths(r.value, 1, 20)
    ensures Consumed(r.Done?, r.NoInput?, old(input.Rest()), input.Rest())
  {
    var curr := curr0;
    var lens: seq<int> := [];
    ghost var all := input.Rest();
    LaterNone(all);
    for i := 0 to alphaSize
      invariant |lens| == i && Lengths(lens, 1, 20) && Later(all, input.Rest())
      invariant expected ==> 1 <= curr <= 20 && lens == want[..i] && input.Rest() == DeltaBits(curr, want, i) + rest
    {
      ghost var before := input.Rest();
      if expected { Regroup(Delta(curr, want[i]), DeltaBits(want[i], want, i + 1), rest); }
      var l := TakeLength(input, curr, expected, if expected then want[i]
          else 0, if expected then DeltaBits(want[i], want, i + 1) + rest else []);
      if !l.Done? { return Failed(l); }
      LaterStill(all, before, input.Rest());
      curr := l.value;
      lens := lens + [curr];
    }
    Nothing(rest);
    assert expected ==> lens == want;
    r := Done(lens);
  }

  method TakeTable(input: Input, alphaSize: nat, ghost expected: bool, ghost want: seq<int>, ghost rest: seq<int>)
      returns (r: Outcome<seq<int>>)
    requires alphaSize > 0
    requires expected ==> |want| == alphaSize && Lengths(want, 1, 20) && input.Rest() == TableBits(want) + rest
    modifies input, input.reader
    ensures !r.Overrun?
    ensures expected ==> r == Done(want) && input.Rest() == rest
    ensures r.Done? ==> |r.value| == alphaSize && Lengths(r.value, 1, 20)
    ensures Consumed(r.Done?, r.NoInput?, old(input.Rest()), input.Rest())
  {
    Pow2Values();
    assert Pow2(5) == 2 * Pow2(4);
    ghost var all := input.Rest();
    if expected { Regroup(Bits(want[0], 5), DeltaBits(want[0], want, 0), rest); }
    var start := Take(input, 5, expected, if expected then want[0]
        else 0, if expected then DeltaBits(want[0], want, 0) + rest else []);
    if start.None? { return NoInput; }
    ghost var before := input.Rest();
    r := TakeLengths(input, start.value, alphaSize, expected, want, rest);
    if r.Done? { LaterStill(all, before, input.Rest()); }
  }

  ghost predicate AllLengths(tables: seq<seq<int>>, alphaSize: nat) {
    forall t :: 0 <= t < |tables| ==> |tables[t]| == alphaSize && Lengths(tables[t], 1, 20)
  }

  method TakeTables(input: Input, nGroups: nat, alphaSize: nat, ghost expected: bool, ghost want: seq<seq<int>>,
      ghost rest: seq<int>)
    returns (r: Outcome<seq<seq<int>>>)
    requires alphaSize > 0
    requires expected ==> |want| == nGroups && AllLengths(want, alphaSize) && input.Rest() == TablesBits(want, 0) + rest
    modifies input, input.reader
    ensures !r.Overrun?
    ensures expected ==> r == Done(want) && input.Rest() == rest
    ensures r.Done? ==> |r.value| == nGroups && AllLengths(r.value, alphaSize)
    ensures Consumed(r.Done?, r.NoInput?, old(input.Rest()), input.Rest())
  {
    var tables: seq<seq<int>> := [];
    ghost var all := input.Rest();
    LaterNone(all);
    for t := 0 to nGroups
      invariant |tables| == t && AllLengths(tables, alphaSize) && Later(all, input.Rest())
      invariant expected ==> tables == want[..t] && input.Rest() == TablesBits(want, t) + rest
    {
      ghost var before := input.Rest();
      if expected { Regroup(TableBits(want[t]), TablesBits(want, t + 1), rest); }
      var lens := TakeTable(input, alphaSize, expected, if expected then want[t]
          else [], if expected then TablesBits(want, t + 1) + rest else []);
      if !lens.Done? { return Failed(lens); }
      LaterStill(all, before, input.Rest());
      MoreLengths(tables, lens.value, alphaSize);
      if expected { MoreTables(tables, want, t); }
      tables := tables + [lens.value];
    }
    Nothing(rest);
    assert expected ==> tables == want;
    r := Done(tables);
  }

  lemma {:induction false} MoreLengths(tables: seq<seq<int>>, lens: seq<int>, alphaSize: nat)
    requires AllLengths(tables, alphaSize) && |lens| == alphaSize && Lengths(lens, 1, 20)
    ensures AllLengths(tables + [lens], alphaSize)
  {
  }

  lemma {:induction false} MoreTables(tables: seq<seq<int>>, want: seq<seq<int>>, t: nat)
    requires t < |want| && tables == want[..t]
    ensures tables + [want[t]] == want[..t + 1]
  {
  }

  // ---------------------------------------------------------------- the symbols

  datatype DecodeTable = DecodeTable(lens: seq<int>, limit: seq<int>, base: seq<int>, perm: seq<int>, minLen: nat,
      maxLen: nat)

  ghost predicate Ready(d: DecodeTable, lens: seq<int>) {
    d.lens == lens && Lengths(lens, 1, 20) && |lens| <= 258 && Tables(lens, d.minLen, d.maxLen, d.limit, d.base, d.perm)
  }

  ghost predicate AllReady(ds: seq<DecodeTable>, tables: seq<seq<int>>) {
    |ds| == |tables| && forall t {:trigger Ready(ds[t], tables[t])} :: 0 <= t < |ds| ==> Ready(ds[t], tables[t])
  }

  method MakeDecodeTable(lens: seq<int>) returns (d: DecodeTable)
    requires 0 < |lens| <= 258 && Lengths(lens, 1, 20)
    ensures Ready(d, lens)
  {
    var minLen, maxLen := Extent(lens);
    var limit, base, perm := new int[23], new int[23], new int[258];
    CreateDecodeTables(limit, base, perm, lens, minLen, maxLen);
    d := DecodeTable(lens, limit[..], base[..], perm[..], minLen, maxLen);
  }

  method MakeDecodeTables(tables: seq<seq<int>>, ghost alphaSize: nat) returns (ds: seq<DecodeTable>)
    requires AllLengths(tables, alphaSize) && 0 < alphaSize <= 258
    ensures AllReady(ds, tables)
  {
    ds := [];
    for t := 0 to |tables|
      invariant |ds| == t && forall k {:trigger Ready(ds[k], tables[k])} :: 0 <= k < t ==> Ready(ds[k], tables[k])
    {
      var d := MakeDecodeTable(tables[t]);
      ds := ds + [d];
    }
  }

  lemma {:induction false} ExpectedSymbol(all: seq<int>, lens: seq<int>, hi: nat, r: Symbol, rest: seq<int>, s: nat,
      rest': seq<int>)
    requires Decodes(all, lens, hi, r, rest) && hi <= 20 && Fits(lens, 20) && s < |lens| && lens[s] >= 0
        && all == CodeBits(lens, s) + rest'
    ensures r == Sym(s) && rest == rest'
  {
    assert Fits(lens, hi);
    assert Begins(all, lens, s);
    assert all[|CodeBits(lens, s)|..] == rest && all[|CodeBits(lens, s)|..] == rest';
  }

  /** GET_MTF_VAL: every 50 symbols the next selector's table comes into use. i symbols have been read. */
  method NextSymbol(input: Input, ds: seq<DecodeTable>, selectors: seq<int>, groupNo0: int, groupPos0: int,
      ghost i: nat,
                    ghost tables: seq<seq<int>>, ghost alphaSize: nat, ghost expected: bool, ghost want: seq<int>,
                        ghost rest: seq<int>)
    returns (r: Symbol, groupNo: int, groupPos: int)
    requires AllReady(ds, tables) && AllLengths(tables, alphaSize) && Symbols(|ds|, selectors)
    requires 0 <= groupPos0 < 50 && groupNo0 >= -1 && i == 50 * (groupNo0 + 1) - groupPos0 <= 50 * |selectors|
    requires expected ==> Selected(tables, selectors, want) && i < |want| && input.Rest() == SymbolBits(tables, selectors, want, i) + rest
    requires expected ==> forall t :: 0 <= t < |tables| ==> Fits(tables[t], 20)
    modifies input, input.reader
    ensures r.Sym? ==> 0 <= r.s < alphaSize && |input.Rest()| < |old(input.Rest())|
    ensures r.Sym? ==> 0 <= groupPos < 50 && groupNo >= -1 && i + 1 == 50 * (groupNo + 1) - groupPos <= 50 * |selectors|
    ensures expected ==> r == Sym(want[i]) && input.Rest() == SymbolBits(tables, selectors, want, i + 1) + rest
    ensures Consumed(r.Sym?, r.OutOfInput?, old(input.Rest()), input.Rest())
  {
    groupNo, groupPos := groupNo0, groupPos0;
    if groupPos == 0 {
      groupNo := groupNo + 1;
      if groupNo >= |selectors| { return DataError, groupNo, groupPos; }
      groupPos := 50;
    }
    var gSel := selectors[groupNo];
    groupPos := groupPos - 1;
    assert i / 50 == groupNo;
    ghost var all := input.Rest();
    var d := ds[gSel];
    assert Ready(d, tables[gSel]);
    r := DecodeSymbol(input, d.limit, d.base, d.perm, d.minLen, d.lens, d.maxLen);
    if r.Sym? { LaterBits(CodeBits(d.lens, r.s), input.Rest()); }
    if expected {
      assert SymbolOk(tables, want, i);
      Regroup(SymbolCode(tables, selectors, want, i), SymbolBits(tables, selectors, want, i + 1), rest);
      ExpectedSymbol(all, d.lens, d.maxLen, r, input.Rest(), want[i],
          SymbolBits(tables, selectors, want, i + 1) + rest);
    }
  }

  ghost predicate ExpectedSymbols(tables: seq<seq<int>>, selectors: seq<int>, want: seq<int>, eob: int) {
    && Selected(tables, selectors, want) && Stream(want, eob)
    && forall t :: 0 <= t < |tables| ==> Fits(tables[t], 20)
  }

  /** Reads symbols up to and including the end mark. */
  method TakeSymbols(input: Input, ds: seq<DecodeTable>, selectors: seq<int>, eob: int, ghost tables: seq<seq<int>>,
                     ghost expected: bool, ghost want: seq<int>, ghost rest: seq<int>) returns (r: Outcome<seq<int>>)
    requires AllReady(ds, tables) && 2 <= eob <= 257 && AllLengths(tables, eob + 1) && Symbols(|ds|, selectors)
    requires expected ==> ExpectedSymbols(tables, selectors, want, eob) && input.Rest() == SymbolBits(tables, selectors, want, 0) + rest
    modifies input, input.reader
    ensures !r.Overrun?
    ensures expected ==> r == Done(want) && input.Rest() == rest
    ensures r.Done? ==> Stream(r.value, eob)
    ensures Consumed(r.Done?, r.NoInput?, old(input.Rest()), input.Rest())
  {
    var syms: seq<int> := [];
    var groupNo, groupPos := -1, 0;
    ghost var all := input.Rest();
    LaterNone(all);
    while true
      invariant 0 <= groupPos < 50 && groupNo >= -1 && |syms| == 50 * (groupNo + 1) - groupPos <= 50 * |selectors|
      invariant Symbols(eob, syms) && Later(all, input.Rest())
      invariant expected ==> AtSymbol(syms, want) && input.Rest() == SymbolBits(tables, selectors, want, |syms|) + rest
      decreases |input.Rest()|
    {
      ghost var before := input.Rest();
      var next;
      next, groupNo, groupPos := NextSymbol(input, ds, selectors, groupNo, groupPos, |syms|, tables, eob + 1, expected,
          want, rest);
      if !next.Sym? { return if next.DataError? then BadData else NoInput; }
      LaterStill(all, before, input.Rest());
      if expected { PassSymbol(syms, want, eob); }
      syms := syms + [next.s];
      if next.s == eob { break; }
    }
    Nothing(rest);
    r := Done(syms);
  }

  /** syms are the first symbols of want, and more are to come. */
  ghost predicate AtSymbol(syms: seq<int>, want: seq<int>) {
    |syms| < |want| && syms == want[..|syms|]
  }

  lemma {:induction false} PassSymbol(syms: seq<int>, want: seq<int>, eob: int)
    requires AtSymbol(syms, want) && Stream(want, eob)
    ensures if want[|syms|] == eob then syms + [want[|syms|]] == want else AtSymbol(syms + [want[|syms|]], want)
  {
    assert want[..|syms| + 1] == syms + [want[|syms|]];
  }

  // ---------------------------------------------------------------- head and body

  datatype Head = Head(inUse: seq<bool>, nGroups: nat, selectors: seq<int>)

  /** The selectors: their ranks, and the ranks undone. */
  method ReadSelectors(input: Input, nGroups: nat, nSelectors: nat, ghost expected: bool, ghost want: seq<int>,
      ghost rest: seq<int>)
    returns (r: Outcome<seq<int>>)
    requires 0 < nGroups <= 6
    requires expected ==> |want| == nSelectors <= MAX_SELECTORS && Symbols(nGroups, want) && input.Rest() == SelectorBits(want, 0) + rest
    modifies input, input.reader
    ensures r.Overrun? <==> Overruns(old(input.Rest()), nGroups, nSelectors)
    ensures r.Overrun? ==> r.nSelectors == nSelectors
    ensures r.Done? ==> |r.value| == nSelectors <= MAX_SELECTORS && Symbols(nGroups, r.value)
    ensures expected ==> r == Done(Unranks(nGroups, want)) && input.Rest() == rest
    ensures Consumed(r.Done?, r.NoInput?, old(input.Rest()), input.Rest())
  {
    var selectorMtf, selector := new int[MAX_SELECTORS], new int[MAX_SELECTORS];
    var ranks := TakeSelectors(input, nGroups, nSelectors, selectorMtf, expected, want, rest);
    if !ranks.Done? { return Failed(ranks); }
    UndoSelectors(selectorMtf, selector, nSelectors, nGroups);
    r := Done(selector[..nSelectors]);
  }

  /** Receives the mapping table and the selectors. */
  method TakeHead(input: Input, ghost expected: bool, ghost im: Image, ghost rest: seq<int>) returns (r: Outcome<Head>)
    requires expected ==> WellFormed(im) && input.Rest() == HeadBits(im.inUse, |im.tables|,
        Ranks(|im.tables|, im.selectors)) + rest
    modifies input, input.reader
    ensures expected ==> r == Done(Head(im.inUse, |im.tables|, im.selectors)) && input.Rest() == rest
    ensures r.Done? ==> |r.value.inUse| == 256 && UsedBelow(r.value.inUse, 256) > 0
    ensures r.Done? ==> 2 <= r.value.nGroups <= 6 && Symbols(r.value.nGroups, r.value.selectors) && |r.value.selectors| <= MAX_SELECTORS
    ensures r.Overrun? ==> MAX_SELECTORS < r.nSelectors < 0x8000
    ensures Consumed(r.Done?, r.NoInput?, old(input.Rest()), input.Rest())
  {
    ghost var m := if expected then Ranks(|im.tables|, im.selectors) else [];
    ghost var a := if expected then SelectorBits(m, 0) + rest else [];
    ghost var b := if expected then Bits(|m|, 15) + a else [];
    ghost var c := if expected then Bits(|im.tables|, 3) + b else [];
    if expected { HeadParts(im, m, rest); }
    ghost var all := input.Rest();
    var used := TakeMap(input, expected, im.inUse, c);
    if used.None? { return NoInput; }
    ghost var before := input.Rest();
    var _, nInUse := MakeMapsD(used.value);
    if nInUse == 0 { return BadData; }
    var nGroups := Take(input, 3, expected, if expected then |im.tables| else 0, b);
    if nGroups.None? { return NoInput; }
    LaterStill(all, before, input.Rest());
    before := input.Rest();
    if nGroups.value < 2 || nGroups.value > 6 { return BadData; }
    var nSelectors := Take(input, 15, expected, |m|, a);
    if nSelectors.None? { return NoInput; }
    LaterStill(all, before, input.Rest());
    before := input.Rest();
    if nSelectors.value < 1 { return BadData; }
    SmallNumbers();
    var selectors := ReadSelectors(input, nGroups.value, nSelectors.value, expected, m, rest);
    if !selectors.Done? { return Failed(selectors); }
    LaterStill(all, before, input.Rest());
    r := Done(Head(used.value, nGroups.value, selectors.value));
  }

  lemma {:induction false} HeadParts(im: Image, m: seq<int>, rest: seq<int>)
    requires WellFormed(im) && m == Ranks(|im.tables|, im.selectors)
    ensures HeadBits(im.inUse, |im.tables|, m) + rest == MapBits(im.inUse)
        + (Bits(|im.tables|, 3) + (Bits(|m|, 15) + (SelectorBits(m, 0) + rest)))
    ensures |im.tables| < Pow2(3) && 1 <= |m| <= MAX_SELECTORS < Pow2(15) && Symbols(|im.tables|, m)
        && Unranks(|im.tables|, m) == im.selectors
  {
    SmallNumbers();
    UnrankInverts(|im.tables|, |im.tables|, im.selectors);
    var a, b, c, d := MapBits(im.inUse), Bits(|im.tables|, 3), Bits(|m|, 15), SelectorBits(m, 0);
    Regroup(a + b + c, d, rest);
    Regroup(a + b, c, d + rest);
    Regroup(a, b, c + (d + rest));
  }

  ghost predicate ExpectedData(tables: seq<seq<int>>, selectors: seq<int>, syms: seq<int>, nInUse: nat) {
    && Selected(tables, selectors, syms)
    && forall k {:trigger Unfold(k)} :: Unfold(k) ==> AllLengths(tables, nInUse + 2) && ExpectedSymbols(tables, selectors, syms, nInUse + 1)
  }

  ghost function DataBits(tables: seq<seq<int>>, selectors: seq<int>, syms: seq<int>): (r: seq<int>)
    requires Selected(tables, selectors, syms)
  {
    TablesBits(tables, 0) + SymbolBits(tables, selectors, syms, 0)
  }

  /** Receives the coding tables and the symbols coded with them. */
  method TakeData(input: Input, nGroups: nat, selectors: seq<int>, nInUse: nat, ghost expected: bool,
                  ghost tables: seq<seq<int>>, ghost syms: seq<int>, ghost rest: seq<int>)
                      returns (r: Outcome<seq<int>>)
    requires 0 < nInUse <= 256 && Symbols(nGroups, selectors)
    requires expected ==> |tables| == nGroups && ExpectedData(tables, selectors, syms, nInUse) && input.Rest() == DataBits(tables, selectors, syms) + rest
    modifies input, input.reader
    ensures !r.Overrun?
    ensures expected ==> r == Done(syms) && input.Rest() == rest
    ensures r.Done? ==> Stream(r.value, nInUse + 1)
    ensures Consumed(r.Done?, r.NoInput?, old(input.Rest()), input.Rest())
  {
    if expected {
      assert Unfold(0);
      Regroup(TablesBits(tables, 0), SymbolBits(tables, selectors, syms, 0), rest);
    }
    ghost var all := input.Rest();
    var got := TakeTables(input, nGroups, nInUse + 2, expected, tables, if expected
        then SymbolBits(tables, selectors, syms, 0) + rest else []);
    if !got.Done? { return Failed(got); }
    var ds := MakeDecodeTables(got.value, nInUse + 2);
    ghost var before := input.Rest();
    r := TakeSymbols(input, ds, selectors, nInUse + 1, got.value, expected, syms, rest);
    if r.Done? { LaterStill(all, before, input.Rest()); }
  }

  /** Receives everything after the block header. */
  method TakeBody(input: Input, ghost expected: bool, ghost im: Image, ghost rest: seq<int>)
      returns (r: Outcome<(seq<bool>, seq<int>)>)
    requires expected ==> WellFormed(im) && input.Rest() == BodyBits(im) + rest
    modifies input, input.reader
    ensures expected ==> r == Done((im.inUse, im.syms)) && input.Rest() == rest
    ensures r.Done? ==> |r.value.0| == 256 && Stream(r.value.1, UsedBelow(r.value.0, 256) + 1)
    ensures r.Overrun? ==> MAX_SELECTORS < r.nSelectors < 0x8000
    ensures Consumed(r.Done?, r.NoInput?, old(input.Rest()), input.Rest())
  {
    if expected {
      BodyParts(im, rest);
      BodySymbols(im);
    }
    ghost var all := input.Rest();
    var head := TakeHead(input, expected, im, if expected then DataBits(im.tables, im.selectors, im.syms) + rest
        else []);
    if !head.Done? { return Failed(head); }
    ghost var before := input.Rest();
    var got := TakeData(input, head.value.nGroups, head.value.selectors, UsedBelow(head.value.inUse, 256), expected,
        im.tables, im.syms, rest);
    if !got.Done? { return Failed(got); }
    LaterStill(all, before, input.Rest());
    r := Done((head.value.inUse, got.value));
  }

  lemma {:induction false} BodyParts(im: Image, rest: seq<int>)
    requires WellFormed(im)
    ensures BodyBits(im) + rest == HeadBits(im.inUse, |im.tables|, Ranks(|im.tables|, im.selectors))
                                   + (DataBits(im.tables, im.selectors, im.syms) + rest)
  {
    var a, b, c := HeadBits(im.inUse, |im.tables|, Ranks(|im.tables|, im.selectors)), TablesBits(im.tables, 0),
                   SymbolBits(im.tables, im.selectors, im.syms, 0);
    Regroup(a, b, c);
    Regroup(a, b + c, rest);
  }

  lemma {:induction false} BodyTables(im: Image)
    requires WellFormed(im)
    ensures AllLengths(im.tables, UsedBelow(im.inUse, 256) + 2) && forall t :: 0 <= t < |im.tables| ==> Fits(im.tables[t], 20)
  {
    forall t | 0 <= t < |im.tables|
      ensures |im.tables[t]| == UsedBelow(im.inUse, 256) + 2 && Lengths(im.tables[t], 1, 20) && Fits(im.tables[t], 20)
    {
      assert Table(im.tables[t], UsedBelow(im.inUse, 256) + 2);
    }
  }

  lemma {:induction false} BodySymbols(im: Image)
    requires WellFormed(im)
    ensures ExpectedData(im.tables, im.selectors, im.syms, UsedBelow(im.inUse, 256))
  {
    BodyTables(im);
    forall k | 0 <= k < |im.syms| - 1
      ensures 0 <= im.syms[k]
    {
      assert SymbolOk(im.tables, im.syms, k) && |im.tables[0]| == UsedBelow(im.inUse, 256) + 2;
    }
  }
}
