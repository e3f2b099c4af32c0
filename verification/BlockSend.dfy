/** sendMTFValues of compress.c: choosing coding tables and selectors for a symbol stream and writing
    the body of the block. */
module BlockSend {
  import opened Common
  import opened BitStream
  import opened CanonicalCode
  import opened HuffmanForest
  import opened HuffmanTree
  import opened MtfCoding
  import opened MtfEncode
  import opened BlockFormat

  // ---------------------------------------------------------------- frequencies

  ghost function Sum(f: seq<int>, n: nat): (r: int)
    requires n <= |f|
  {
    if n == 0 then 0 else Sum(f, n - 1) + f[n - 1]
  }

  lemma {:induction false} SumUpdate(f: seq<int>, n: nat, k: nat)
    requires n <= |f| && k < |f|
    ensures Sum(f[k := f[k] + 1], n) == Sum(f, n) + (if k < n then 1 else 0)
  {
    if n > 0 {
      SumUpdate(f, n - 1, k);
    }
  }

  lemma {:induction false} SumBoundsTotal(f: seq<int>, n: nat)
    requires n <= |f| && forall k :: 0 <= k < |f| ==> f[k] >= 0
    ensures FreqTotal(f, n) <= Sum(f, n) + n
  {
    if n > 0 {
      SumBoundsTotal(f, n - 1);
    }
  }

  ghost predicate Tally(f: seq<int>, alphaSize: nat, m: int) {
    |f| == alphaSize && (forall k :: 0 <= k < |f| ==> f[k] >= 0) && Sum(f, |f|) <= m
  }

  /** One frequency table per group, counting at most m symbols in all. */
  ghost predicate Tallies(rfreq: seq<seq<int>>, nGroups: nat, alphaSize: nat, m: int) {
    |rfreq| == nGroups && forall t {:trigger Tally(rfreq[t], alphaSize, m)} :: 0 <= t < nGroups ==> Tally(rfreq[t], alphaSize, m)
  }

  lemma {:induction false} TallyOne(rfreq: seq<seq<int>>, nGroups: nat, alphaSize: nat, m: nat, bt: nat, s: nat)
    requires Tallies(rfreq, nGroups, alphaSize, m) && bt < nGroups && s < alphaSize
    ensures |rfreq[bt]| == alphaSize && Tallies(rfreq[bt := rfreq[bt][s := rfreq[bt][s] + 1]], nGroups, alphaSize,
        m + 1)
  {
    assert Tally(rfreq[bt], alphaSize, m);
    SumUpdate(rfreq[bt], |rfreq[bt]|, s);
    var after := rfreq[bt := rfreq[bt][s := rfreq[bt][s] + 1]];
    forall t {:trigger Tally(after[t], alphaSize, m + 1)} | 0 <= t < nGroups
      ensures Tally(after[t], alphaSize, m + 1)
    {
      assert Tally(rfreq[t], alphaSize, m);
    }
  }

  ghost predicate InAlphabet(syms: seq<int>, alphaSize: nat) {
    forall i :: 0 <= i < |syms| ==> 0 <= syms[i] < alphaSize
  }

  /** How many of the first i symbols are v and belong to a group that table t is selected for. */
  ghost function Uses(selectors: seq<int>, syms: seq<int>, t: int, v: int, i: nat): (r: nat)
    requires i <= |syms|
  {
    if i == 0 then 0
    else Uses(selectors, syms, t, v, i - 1)
         + if (i - 1) / 50 < |selectors| && selectors[(i - 1) / 50] == t && syms[i - 1] == v then 1 else 0
  }

  /** The frequency tables hold exactly these numbers. */
  ghost predicate Counted(rfreq: seq<seq<int>>, selectors: seq<int>, syms: seq<int>, i: nat) {
    i <= |syms| && forall t, v {:trigger rfreq[t][v]} :: 0 <= t < |rfreq| && 0 <= v < |rfreq[t]| ==> rfreq[t][v] == Uses(selectors, syms, t, v, i)
  }

  lemma {:induction false} CountOne(rfreq: seq<seq<int>>, selectors: seq<int>, syms: seq<int>, i: nat, bt: nat)
    requires Counted(rfreq, selectors, syms, i) && i < |syms| && i / 50 < |selectors|
        && selectors[i / 50] == bt < |rfreq| && 0 <= syms[i] < |rfreq[bt]|
    ensures Counted(rfreq[bt := rfreq[bt][syms[i] := rfreq[bt][syms[i]] + 1]], selectors, syms, i + 1)
  {
  }

  lemma {:induction false} UsesPrefix(selectors: seq<int>, more: int, syms: seq<int>, t: int, v: int, i: nat)
    requires i <= |syms| && i <= 50 * |selectors|
    ensures Uses(selectors + [more], syms, t, v, i) == Uses(selectors, syms, t, v, i)
    decreases i
  {
    if i > 0 {
      UsesPrefix(selectors, more, syms, t, v, i - 1);
    }
  }

  lemma {:induction false} CountedPrefix(rfreq: seq<seq<int>>, selectors: seq<int>, more: int, syms: seq<int>, i: nat)
    requires Counted(rfreq, selectors, syms, i) && i <= 50 * |selectors|
    ensures Counted(rfreq, selectors + [more], syms, i)
  {
    forall t, v {:trigger rfreq[t][v]} | 0 <= t < |rfreq| && 0 <= v < |rfreq[t]|
      ensures rfreq[t][v] == Uses(selectors + [more], syms, t, v, i)
    {
      UsesPrefix(selectors, more, syms, t, v, i);
    }
  }

  /** Counts the symbols of one group, the last selected for, in the table selected for it. */
  method CountGroup(rfreq0: seq<seq<int>>, bt: nat, syms: seq<int>, gs: nat, ge: nat, ghost nGroups: nat,
      ghost alphaSize: nat, ghost selectors: seq<int>)
    returns (rfreq: seq<seq<int>>)
    requires Tallies(rfreq0, nGroups, alphaSize, gs) && bt < nGroups && gs <= ge < |syms| && InAlphabet(syms, alphaSize)
    requires |selectors| > 0 && selectors[|selectors| - 1] == bt && gs == 50 * (|selectors| - 1) && ge < gs + 50
    requires Counted(rfreq0, selectors, syms, gs)
    ensures Tallies(rfreq, nGroups, alphaSize, ge + 1) && Counted(rfreq, selectors, syms, ge + 1)
  {
    rfreq := rfreq0;
    for i := gs to ge + 1
      invariant Tallies(rfreq, nGroups, alphaSize, i) && Counted(rfreq, selectors, syms, i)
    {
      TallyOne(rfreq, nGroups, alphaSize, i, bt, syms[i]);
      assert i / 50 == |selectors| - 1;
      CountOne(rfreq, selectors, syms, i, bt);
      rfreq := rfreq[bt := rfreq[bt][syms[i] := rfreq[bt][syms[i]] + 1]];
    }
  }

  // ---------------------------------------------------------------- selecting a table per group

  /** What symbols gs..e-1 cost with the given lengths. */
  ghost function Cost(lens: seq<int>, syms: seq<int>, gs: nat, e: nat): (r: int)
    requires gs <= e <= |syms| && InAlphabet(syms, |lens|)
  {
    if e == gs then 0 else Cost(lens, syms, gs, e - 1) + lens[syms[e - 1]]
  }

  ghost predicate Grids(tables: seq<seq<int>>, nGroups: nat, alphaSize: nat) {
    |tables| == nGroups && forall t :: 0 <= t < nGroups ==> |tables[t]| == alphaSize
  }

  method GroupCost(lens: seq<int>, syms: seq<int>, gs: nat, ge: nat) returns (cost: int)
    requires gs <= ge < |syms| && InAlphabet(syms, |lens|)
    ensures cost == Cost(lens, syms, gs, ge + 1)
  {
    cost := 0;
    for i := gs to ge + 1
      invariant cost == Cost(lens, syms, gs, i)
    {
      cost := cost + lens[syms[i]];
    }
  }

  lemma {:induction false} CostBounded(lens: seq<int>, syms: seq<int>, gs: nat, e: nat)
    requires gs <= e <= |syms| && InAlphabet(syms, |lens|) && Lengths(lens, 0, 20)
    ensures 0 <= Cost(lens, syms, gs, e) <= 20 * (e - gs)
  {
    if gs < e {
      CostBounded(lens, syms, gs, e - 1);
    }
  }

  /** len_pack: the lengths of one symbol in two tables, in the two halves of a word. */
  function Packed(low: seq<int>, high: seq<int>, v: nat): (r: int)
    requires v < |low| && v < |high|
  {
    0x1_0000 * high[v] + low[v]
  }

  /** The costs of a full group with two tables, added up in one word; neither half overflows. */
  method PackedCost(low: seq<int>, high: seq<int>, syms: seq<int>, gs: nat) returns (costLow: int, costHigh: int)
    requires gs + 50 <= |syms| && |low| == |high| && InAlphabet(syms, |low|) && Lengths(low, 0, 20)
        && Lengths(high, 0, 20)
    ensures costLow == Cost(low, syms, gs, gs + 50) && costHigh == Cost(high, syms, gs, gs + 50)
  {
    var cost := 0;
    for i := gs to gs + 50
      invariant cost == 0x1_0000 * Cost(high, syms, gs, i) + Cost(low, syms, gs, i)
    {
      cost := cost + Packed(low, high, syms[i]);
    }
    CostBounded(low, syms, gs, gs + 50);
    CostBounded(high, syms, gs, gs + 50);
    costLow, costHigh := cost % 0x1_0000, cost / 0x1_0000;
  }

  ghost predicate Costs(cost: seq<int>, tables: seq<seq<int>>, syms: seq<int>, gs: nat, e: nat)
    requires gs <= e <= |syms| && forall t :: 0 <= t < |tables| ==> InAlphabet(syms, |tables[t]|)
  {
    |cost| == |tables| && forall t :: 0 <= t < |cost| ==> cost[t] == Cost(tables[t], syms, gs, e)
  }

  /** What symbols gs..ge cost with each table: two tables at a time if there are six tables and 50 symbols. */
  method GroupCosts(tables: seq<seq<int>>, nGroups: nat, alphaSize: nat, syms: seq<int>, gs: nat, ge: nat)
      returns (cost: seq<int>)
    requires Grids(tables, nGroups, alphaSize) && gs <= ge < |syms| && InAlphabet(syms, alphaSize)
    requires forall t :: 0 <= t < nGroups ==> Lengths(tables[t], 0, 20)
    ensures Costs(cost, tables, syms, gs, ge + 1)
  {
    if nGroups == 6 && ge - gs + 1 == 50 {
      var c0, c1 := PackedCost(tables[0], tables[1], syms, gs);
      var c2, c3 := PackedCost(tables[2], tables[3], syms, gs);
      var c4, c5 := PackedCost(tables[4], tables[5], syms, gs);
      cost := [c0, c1, c2, c3, c4, c5];
    } else {
      cost := [];
      for t := 0 to nGroups
        invariant |cost| == t && forall k :: 0 <= k < t ==> cost[k] == Cost(tables[k], syms, gs, ge + 1)
      {
        var c := GroupCost(tables[t], syms, gs, ge);
        cost := cost + [c];
      }
    }
  }

  /** bt is the first of the cheapest tables for symbols gs..e-1. */
  ghost predicate Cheapest(tables: seq<seq<int>>, syms: seq<int>, gs: nat, e: nat, bt: int)
    requires gs <= e <= |syms| && forall t :: 0 <= t < |tables| ==> InAlphabet(syms, |tables[t]|)
  {
    && 0 <= bt < |tables|
    && (forall t :: 0 <= t < |tables| ==> Cost(tables[bt], syms, gs, e) <= Cost(tables[t], syms, gs, e))
    && (forall t :: 0 <= t < bt ==> Cost(tables[bt], syms, gs, e) < Cost(tables[t], syms, gs, e))
  }

  method BestTable(tables: seq<seq<int>>, nGroups: nat, alphaSize: nat, syms: seq<int>, gs: nat, ge: nat)
      returns (bt: int)
    requires Grids(tables, nGroups, alphaSize) && nGroups > 0 && gs <= ge < |syms| && ge < gs + 50
        && InAlphabet(syms, alphaSize)
    requires forall t :: 0 <= t < nGroups ==> Lengths(tables[t], 0, 20)
    ensures Cheapest(tables, syms, gs, ge + 1, bt)
  {
    var cost := GroupCosts(tables, nGroups, alphaSize, syms, gs, ge);
    CostBounded(tables[0], syms, gs, ge + 1);
    var bc := 999999999;
    bt := -1;
    for t := 0 to nGroups
      invariant -1 <= bt < t && (t > 0 ==> bt >= 0)
      invariant bc == if bt >= 0 then cost[bt] else 999999999
      invariant forall k :: 0 <= k < t ==> bc <= cost[k]
      invariant forall k :: 0 <= k < bt ==> bc < cost[k]
    {
      if cost[t] < bc { bc, bt := cost[t], t; }
    }
  }

  /** Where group k ends. */
  function GroupEnd(k: nat, n: nat): (r: nat) { if 50 * k + 50 <= n then 50 * k + 50 else n }

  /** Every group has the first of its cheapest tables. */
  ghost predicate AllCheapest(tables: seq<seq<int>>, syms: seq<int>, selectors: seq<int>) {
    && 50 * |selectors| < |syms| + 50 && (forall t :: 0 <= t < |tables| ==> InAlphabet(syms, |tables[t]|))
    && forall k {:trigger selectors[k]} :: 0 <= k < |selectors|
        ==> Cheapest(tables, syms, 50 * k, GroupEnd(k, |syms|), selectors[k])
  }

  lemma {:induction false} MoreCheapest(tables: seq<seq<int>>, syms: seq<int>, selectors: seq<int>, gs: nat, e: nat,
      bt: int)
    requires AllCheapest(tables, syms, selectors) && gs == 50 * |selectors| < |syms|
        && e == GroupEnd(|selectors|, |syms|)
    requires Cheapest(tables, syms, gs, e, bt)
    ensures AllCheapest(tables, syms, selectors + [bt])
  {
    var all := selectors + [bt];
    forall k {:trigger all[k]} | 0 <= k < |all|
      ensures Cheapest(tables, syms, 50 * k, GroupEnd(k, |syms|), all[k])
    {
      if k < |selectors| { assert all[k] == selectors[k]; }
    }
  }

  /** Selects for every group the first of its cheapest tables, and counts the symbols each table gets. */
  method Select(tables: seq<seq<int>>, nGroups: nat, alphaSize: nat, syms: seq<int>)
      returns (selectors: seq<int>, rfreq: seq<seq<int>>)
    requires Grids(tables, nGroups, alphaSize) && nGroups > 0 && InAlphabet(syms, alphaSize)
    requires forall t :: 0 <= t < nGroups ==> Lengths(tables[t], 0, 20)
    ensures |selectors| == (|syms| + 49) / 50 && AllCheapest(tables, syms, selectors)
    ensures Tallies(rfreq, nGroups, alphaSize, |syms|) && Counted(rfreq, selectors, syms, |syms|)
  {
    selectors := [];
    rfreq := NoneCounted(nGroups, alphaSize);
    var gs := 0;
    assert Counted(rfreq, selectors, syms, gs);
    while gs < |syms|
      invariant 0 <= gs <= |syms| && (gs == 50 * |selectors| || (gs == |syms| && |selectors| == (gs + 49) / 50))
      invariant AllCheapest(tables, syms, selectors)
      invariant Tallies(rfreq, nGroups, alphaSize, gs) && Counted(rfreq, selectors, syms, gs)
      decreases |syms| - gs
    {
      var ge := gs + 50 - 1;
      if ge >= |syms| { ge := |syms| - 1; }
      var bt := BestTable(tables, nGroups, alphaSize, syms, gs, ge);
      CountedPrefix(rfreq, selectors, bt, syms, gs);
      MoreCheapest(tables, syms, selectors, gs, ge + 1, bt);
      selectors := selectors + [bt];
      rfreq := CountGroup(rfreq, bt, syms, gs, ge, nGroups, alphaSize, selectors);
      gs := ge + 1;
    }
  }

  method NoneCounted(nGroups: nat, alphaSize: nat) returns (rfreq: seq<seq<int>>)
    ensures Tallies(rfreq, nGroups, alphaSize, 0)
    ensures forall t, v {:trigger rfreq[t][v]} :: 0 <= t < |rfreq| && 0 <= v < |rfreq[t]| ==> rfreq[t][v] == 0
  {
    var zero := seq(alphaSize, _ => 0);
    SumZero(zero, alphaSize);
    rfreq := seq(nGroups, _ => zero);
  }

  lemma {:induction false} SumZero(f: seq<int>, n: nat)
    requires n <= |f| && forall k :: 0 <= k < |f| ==> f[k] == 0
    ensures Sum(f, n) == 0
  {
    if n > 0 {
      SumZero(f, n - 1);
    }
  }

  // ---------------------------------------------------------------- new tables from the counts

  /** A complete prefix code with lengths of at most 17 bits. */
  ghost predicate Complete(lens: seq<int>, alphaSize: nat) {
    |lens| == alphaSize && Lengths(lens, 1, 17) && Kraft(lens, |lens|) == 1.0
  }

  method MakeTable(freq: seq<int>, alphaSize: nat) returns (lens: seq<int>)
    requires 2 <= alphaSize <= 258 && Tally(freq, alphaSize, 0x7f_0000)
    ensures Complete(lens, alphaSize) && Huffman(freq, 17, lens)
  {
    SumBoundsTotal(freq, alphaSize);
    var len := new int[258];
    MakeCodeLengths(len, freq, alphaSize, 17);
    lens := len[..alphaSize];
    assert freq[..alphaSize] == freq;
  }

  /** Every table has lengths of least cost for its counts. */
  ghost predicate AllHuffman(rfreq: seq<seq<int>>, tables: seq<seq<int>>) {
    |rfreq| == |tables| && forall t {:trigger tables[t]} :: 0 <= t < |tables| ==> Huffman(rfreq[t], 17, tables[t])
  }

  method MakeTables(rfreq: seq<seq<int>>, nGroups: nat, alphaSize: nat) returns (tables: seq<seq<int>>)
    requires Tallies(rfreq, nGroups, alphaSize, 0x7f_0000) && 2 <= alphaSize <= 258
    ensures |tables| == nGroups && forall t :: 0 <= t < nGroups ==> Complete(tables[t], alphaSize)
    ensures AllHuffman(rfreq, tables)
  {
    tables := [];
    for t := 0 to nGroups
      invariant |tables| == t && forall k :: 0 <= k < t ==> Complete(tables[k], alphaSize)
      invariant forall k {:trigger tables[k]} :: 0 <= k < t ==> Huffman(rfreq[k], 17, tables[k])
    {
      assert Tally(rfreq[t], alphaSize, 0x7f_0000);
      var lens := MakeTable(rfreq[t], alphaSize);
      tables := tables + [lens];
    }
  }

  lemma {:induction false} TalliesWeaken(rfreq: seq<seq<int>>, nGroups: nat, alphaSize: nat, m: int, m': int)
    requires Tallies(rfreq, nGroups, alphaSize, m) && m <= m'
    ensures Tallies(rfreq, nGroups, alphaSize, m')
  {
    forall t {:trigger Tally(rfreq[t], alphaSize, m')} | 0 <= t < nGroups
      ensures Tally(rfreq[t], alphaSize, m')
    {
      assert Tally(rfreq[t], alphaSize, m);
    }
  }

  // ---------------------------------------------------------------- the first tables

  const LESSER_ICOST := 0
  const GREATER_ICOST := 15

  /** How often each symbol occurs. */
  method CountSymbols(syms: seq<int>, alphaSize: nat) returns (freq: seq<int>)
    requires InAlphabet(syms, alphaSize)
    ensures |freq| == alphaSize && (forall k :: 0 <= k < |freq| ==> freq[k] >= 0) && Sum(freq, alphaSize) == |syms|
  {
    freq := seq(alphaSize, _ => 0);
    SumZero(freq, alphaSize);
    for i := 0 to |syms|
      invariant |freq| == alphaSize && (forall k :: 0 <= k < |freq| ==> freq[k] >= 0) && Sum(freq, alphaSize) == i
    {
      SumUpdate(freq, alphaSize, syms[i]);
      freq := freq[syms[i] := freq[syms[i]] + 1];
    }
  }

  lemma {:induction false} SumGrows(f: seq<int>, m: nat, n: nat)
    requires m <= n <= |f| && forall k :: 0 <= k < |f| ==> f[k] >= 0
    ensures Sum(f, m) <= Sum(f, n)
  {
    if m < n {
      SumGrows(f, m, n - 1);
    }
  }

  /** Extends a range of symbols from gs until they make up tFreq; ge is its last symbol. */
  method Stretch(freq: seq<int>, gs: int, tFreq: int) returns (ge: int, aFreq: int)
    requires 0 <= gs <= |freq|
    ensures gs - 1 <= ge < |freq| && aFreq == Sum(freq, ge + 1) - Sum(freq, gs)
  {
    ge, aFreq := gs - 1, 0;
    while aFreq < tFreq && ge < |freq| - 1
      invariant gs - 1 <= ge < |freq| && aFreq == Sum(freq, ge + 1) - Sum(freq, gs)
      decreases |freq| - ge
    {
      ge := ge + 1;
      aFreq := aFreq + freq[ge];
    }
  }

  /** Splits the alphabet into ranges of about equal frequency and makes each range cheap in one table. */
  method FirstTables(freq: seq<int>, nMTF: nat, nGroups: nat, alphaSize: nat) returns (tables: seq<seq<int>>)
    requires |freq| == alphaSize && (forall k :: 0 <= k < |freq| ==> freq[k] >= 0) && Sum(freq, alphaSize) == nMTF
    ensures Grids(tables, nGroups, alphaSize) && forall t :: 0 <= t < nGroups ==> Lengths(tables[t], 0, 20)
  {
    tables := seq(nGroups, _ => seq(alphaSize, _ => GREATER_ICOST));
    var nPart, remF, gs := nGroups, nMTF, 0;
    while nPart > 0
      invariant 0 <= nPart <= nGroups && 0 <= gs <= alphaSize && remF == nMTF - Sum(freq, gs)
      invariant Grids(tables, nGroups, alphaSize) && forall t :: 0 <= t < nGroups ==> Lengths(tables[t], 0, 20)
    {
      SumGrows(freq, gs, alphaSize);
      var ge, aFreq := Stretch(freq, gs, remF / nPart);
      if ge > gs && nPart != nGroups && nPart != 1 && (nGroups - nPart) % 2 == 1 {
        aFreq := aFreq - freq[ge];
        ge := ge - 1;
      }
      tables := tables[nPart - 1 := seq(alphaSize, v => if gs <= v <= ge then LESSER_ICOST else GREATER_ICOST)];
      nPart := nPart - 1;
      gs := ge + 1;
      remF := remF - aFreq;
    }
  }

  lemma {:induction false} SelectorsBelow(tables: seq<seq<int>>, syms: seq<int>, selectors: seq<int>)
    requires AllCheapest(tables, syms, selectors)
    ensures forall k :: 0 <= k < |selectors| ==> 0 <= selectors[k] < |tables|
  {
  }

  /** The outcome of a round: every group has the first of its cheapest tables among those before, and every table now has
      lengths of least cost for the symbols of its groups. */
  ghost predicate Refined(syms: seq<int>, before: seq<seq<int>>, selectors: seq<int>, tables: seq<seq<int>>) {
    exists rfreq :: Round(syms, selectors, tables, before, rfreq)
  }

  /** The outcome of k rounds after the initial tables. */
  ghost predicate RefinedTimes(syms: seq<int>, initial: seq<seq<int>>, k: int, selectors: seq<int>,
      tables: seq<seq<int>>)
    decreases k
  {
    if k <= 0 then selectors == [] && tables == initial
    else var j := k - 1;
         exists sel, before :: RefinedTimes(syms, initial, j, sel, before) && Refined(syms, before, selectors, tables)
  }

  lemma {:induction false} OnceMore(syms: seq<int>, initial: seq<seq<int>>, j: nat, sel: seq<int>, before: seq<seq<int>>,
      selectors: seq<int>, tables: seq<seq<int>>, rfreq: seq<seq<int>>)
    requires RefinedTimes(syms, initial, j, sel, before) && Round(syms, selectors, tables, before, rfreq)
    ensures RefinedTimes(syms, initial, j + 1, selectors, tables)
  {
    assert Refined(syms, before, selectors, tables);
  }

  ghost predicate Round(syms: seq<int>, selectors: seq<int>, tables: seq<seq<int>>, before: seq<seq<int>>,
      rfreq: seq<seq<int>>) {
    AllCheapest(before, syms, selectors) && 50 * |selectors| >= |syms| && Counted(rfreq, selectors, syms, |syms|)
        && AllHuffman(rfreq, tables)
  }

  /** Four rounds of selecting and recomputing, from any starting tables. */
  method Refine(initial: seq<seq<int>>, nGroups: nat, alphaSize: nat, syms: seq<int>)
      returns (selectors: seq<int>, tables: seq<seq<int>>)
    requires Grids(initial, nGroups, alphaSize) && 0 < nGroups && 2 <= alphaSize <= 258
    requires InAlphabet(syms, alphaSize) && |syms| <= 0x7f_0000
    requires forall t :: 0 <= t < nGroups ==> Lengths(initial[t], 0, 20)
    ensures |selectors| == (|syms| + 49) / 50 && forall k :: 0 <= k < |selectors| ==> 0 <= selectors[k] < nGroups
    ensures |tables| == nGroups && forall t :: 0 <= t < nGroups ==> Complete(tables[t], alphaSize)
    ensures RefinedTimes(syms, initial, 4, selectors, tables)
  {
    selectors, tables := [], initial;
    for iter := 0 to 4
      invariant Grids(tables, nGroups, alphaSize) && forall t :: 0 <= t < nGroups ==> Lengths(tables[t], 0, 20)
      invariant iter > 0 ==> |selectors| == (|syms| + 49) / 50 && forall k :: 0 <= k < |selectors| ==> 0 <= selectors[k] < nGroups
      invariant iter > 0 ==> forall t :: 0 <= t < nGroups ==> Complete(tables[t], alphaSize)
      invariant RefinedTimes(syms, initial, iter, selectors, tables)
    {
      ghost var sel := selectors;
      var rfreq;
      selectors, rfreq := Select(tables, nGroups, alphaSize, syms);
      SelectorsBelow(tables, syms, selectors);
      TalliesWeaken(rfreq, nGroups, alphaSize, |syms|, 0x7f_0000);
      ghost var before := tables;
      tables := MakeTables(rfreq, nGroups, alphaSize);
      OnceMore(syms, initial, iter, sel, before, selectors, tables, rfreq);
    }
  }

  // ---------------------------------------------------------------- move-to-front for the selectors

  /** Finds x, shifting the entries before it up, and puts it in front. */
  method BringForward(pos: array<int>, n: nat, x: int) returns (j: int)
    requires 0 < n <= pos.Length && IndexOf(pos[..n], x) < n
    modifies pos
    ensures j == IndexOf(old(pos[..n]), x) < n && pos[..n] == ToFront(old(pos[..n]), j)
  {
    ghost var l := pos[..n];
    ghost var at := IndexOf(l, x);
    assert l[at] == x;
    j := 0;
    var tmp := pos[0];
    while x != tmp
      invariant 0 <= j <= at && tmp == l[j] && forall k :: 0 <= k < j ==> l[k] != x
      invariant forall k :: 0 <= k < n ==> pos[k] == l[if 1 <= k <= j then k - 1 else k]
      decreases at - j
    {
      j := j + 1;
      var tmp2 := tmp;
      tmp := pos[j];
      pos[j] := tmp2;
    }
    pos[0] := tmp;
    IndexUnique(l, x, j);
  }

  method FreshPositions(nGroups: nat) returns (pos: array<int>)
    requires nGroups <= 6
    ensures fresh(pos) && pos.Length == 6 && pos[..nGroups] == Identity(nGroups)
  {
    pos := new int[6];
    for i := 0 to nGroups
      invariant forall k :: 0 <= k < i ==> pos[k] == k
    {
      pos[i] := i;
    }
  }

  /** The move-to-front ranks of the selectors. */
  method RankSelectors(selectors: seq<int>, nGroups: nat) returns (selectorMtf: seq<int>)
    requires 0 < nGroups <= 6 && Symbols(nGroups, selectors)
    ensures selectorMtf == Ranks(nGroups, selectors)
  {
    var pos := FreshPositions(nGroups);
    selectorMtf := [];
    for i := 0 to |selectors|
      invariant pos[..nGroups] == ListTo(nGroups, selectors, i)
      invariant selectorMtf == Ranks(nGroups, selectors)[..i]
    {
      RankBelow(nGroups, selectors, i, selectors[i]);
      var j := BringForward(pos, nGroups, selectors[i]);
      RanksStep(nGroups, selectors, i);
      selectorMtf := selectorMtf + [j];
    }
  }

  lemma {:induction false} RanksStep(n: nat, s: seq<int>, i: nat)
    requires i < |s|
    ensures Ranks(n, s)[..i + 1] == Ranks(n, s)[..i] + [IndexOf(ListTo(n, s, i), s[i])]
  {
  }

  // ---------------------------------------------------------------- codes

  lemma {:induction false} CompleteCanonical(lens: seq<int>, alphaSize: nat, code: seq<int>)
    requires Complete(lens, alphaSize) && |code| == |lens| && forall i :: 0 <= i < |lens| ==> code[i] == Code(lens, i)
    ensures Canonical(lens, code)
  {
    CompleteFits(lens, 20);
  }

  method AssignTable(lens: seq<int>, ghost alphaSize: nat) returns (code: seq<int>)
    requires Complete(lens, alphaSize) && 2 <= alphaSize
    ensures Canonical(lens, code)
  {
    var minLen, maxLen := Extent(lens);
    var a := new int[|lens|];
    AssignCodes(a, lens, minLen, maxLen);
    code := a[..];
    CompleteCanonical(lens, alphaSize, code);
  }

  method AssignTables(tables: seq<seq<int>>, ghost alphaSize: nat) returns (codes: seq<seq<int>>)
    requires 2 <= alphaSize && forall t :: 0 <= t < |tables| ==> Complete(tables[t], alphaSize)
    ensures Codes(tables, codes)
  {
    codes := [];
    for t := 0 to |tables|
      invariant |codes| == t && forall k {:trigger Canonical(tables[k], codes[k])} :: 0 <= k < t ==> Canonical(tables[k], codes[k])
    {
      var code := AssignTable(tables[t], alphaSize);
      codes := codes + [code];
    }
  }

  // ---------------------------------------------------------------- the body of the block

  /** How many coding tables a block of nMTF symbols gets. */
  function GroupCount(nMTF: int): (n: int)
    ensures 2 <= n <= 6
  {
    if nMTF < 200 then 2 else if nMTF < 600 then 3 else if nMTF < 1200 then 4 else if nMTF < 2400 then 5 else 6
  }

  lemma {:induction false} SelectedBy(tables: seq<seq<int>>, selectors: seq<int>, syms: seq<int>, alphaSize: nat)
    requires InAlphabet(syms, alphaSize) && |selectors| == (|syms| + 49) / 50 && Symbols(|tables|, selectors)
    requires forall t :: 0 <= t < |tables| ==> Complete(tables[t], alphaSize)
    ensures Selected(tables, selectors, syms)
  {
    forall i {:trigger SymbolOk(tables, syms, i)} | 0 <= i < |syms|
      ensures SymbolOk(tables, syms, i)
    {
      forall t | 0 <= t < |tables|
        ensures 0 <= syms[i] < |tables[t]| && tables[t][syms[i]] >= 0
      {
        assert Complete(tables[t], alphaSize);
      }
    }
  }

  lemma {:induction false} ImageWellFormed(im: Image)
    requires im.crc < 0x1_0000_0000 && im.origPtr < 0x100_0000 && |im.inUse| == 256 && UsedBelow(im.inUse, 256) > 0
    requires 2 <= |im.tables| <= 6 && 0 < |im.syms| <= 900001 && |im.selectors| == (|im.syms| + 49) / 50
    requires Symbols(|im.tables|, im.selectors) && InAlphabet(im.syms, UsedBelow(im.inUse, 256) + 2)
    requires forall t :: 0 <= t < |im.tables| ==> Complete(im.tables[t], UsedBelow(im.inUse, 256) + 2)
    requires im.syms[|im.syms| - 1] == UsedBelow(im.inUse, 256) + 1
    requires forall i :: 0 <= i < |im.syms| - 1 ==> im.syms[i] <= UsedBelow(im.inUse, 256)
    ensures WellFormed(im)
  {
    SelectedBy(im.tables, im.selectors, im.syms, UsedBelow(im.inUse, 256) + 2);
    forall t | 0 <= t < |im.tables|
      ensures Table(im.tables[t], UsedBelow(im.inUse, 256) + 2)
    {
      CompleteFits(im.tables[t], 20);
    }
  }

  method PutHead(w: BitWriter, inUse: seq<bool>, nGroups: nat, selectorMtf: seq<int>)
    requires w.Valid() && |inUse| == 256 && nGroups < 8 && |selectorMtf| < 0x8000
    requires Symbols(nGroups, selectorMtf)
    modifies w
    ensures w.Valid() && w.Stream() == old(w.Stream()) + HeadBits(inUse, nGroups, selectorMtf)
  {
    ghost var s, a, b := w.Stream(), MapBits(inUse), Bits(nGroups, 3);
    SmallNumbers();
    PutMap(w, inUse);
    Regroup(s, a, b);
    w.Put(3, nGroups);
    Regroup(s, a + b, Bits(|selectorMtf|, 15));
    w.Put(15, |selectorMtf|);
    Regroup(s, a + b + Bits(|selectorMtf|, 15), SelectorBits(selectorMtf, 0));
    PutSelectors(w, selectorMtf);
  }

  lemma {:induction false} WellFormedParts(im: Image)
    requires WellFormed(im)
    ensures Sendable(im.tables) && Symbols(|im.tables|, Ranks(|im.tables|, im.selectors))
  {
    forall t | 0 <= t < |im.tables|
      ensures |im.tables[t]| > 0 && Lengths(im.tables[t], 0, 20)
    {
      assert Table(im.tables[t], UsedBelow(im.inUse, 256) + 2);
    }
    RanksAreSymbols(|im.tables|, im.selectors);
  }

  method PutBody(w: BitWriter, inUse: seq<bool>, tables: seq<seq<int>>, codes: seq<seq<int>>, selectors: seq<int>,
      selectorMtf: seq<int>,
                 syms: seq<int>, ghost im: Image)
    requires w.Valid() && WellFormed(im) && im.inUse == inUse && im.tables == tables && im.selectors == selectors
        && im.syms == syms
    requires Codes(tables, codes) && selectorMtf == Ranks(|tables|, selectors)
    modifies w
    ensures w.Valid() && w.Stream() == old(w.Stream()) + BodyBits(im)
  {
    ghost var s, a := w.Stream(), HeadBits(inUse, |tables|, selectorMtf);
    WellFormedParts(im);
    PutHead(w, inUse, |tables|, selectorMtf);
    Regroup(s, a, TablesBits(tables, 0));
    PutTables(w, tables);
    Regroup(s, a + TablesBits(tables, 0), SymbolBits(tables, selectors, syms, 0));
    PutSymbols(w, tables, codes, selectors, syms);
  }

  /** Chooses tables and selectors for the symbol stream and writes the body of the block. */
  method SendMTFValues(w: BitWriter, inUse: seq<bool>, nInUse: nat, syms: seq<int>, ghost crc: nat, ghost origPtr: nat)
      returns (ghost im: Image)
    requires w.Valid() && |inUse| == 256 && nInUse == UsedBelow(inUse, 256) > 0 && crc < 0x1_0000_0000
        && origPtr < 0x100_0000
    requires 0 < |syms| <= 900001 && syms[|syms| - 1] == nInUse + 1 && forall i :: 0 <= i < |syms| - 1 ==> 0 <= syms[i] <= nInUse
    modifies w
    ensures WellFormed(im) && im.crc == crc && im.origPtr == origPtr && im.inUse == inUse && im.syms == syms
    ensures w.Valid() && w.Stream() == old(w.Stream()) + BodyBits(im)
  {
    var alphaSize, nGroups := nInUse + 2, GroupCount(|syms|);
    var freq := CountSymbols(syms, alphaSize);
    var initial := FirstTables(freq, |syms|, nGroups, alphaSize);
    var selectors, tables := Refine(initial, nGroups, alphaSize, syms);
    im := Image(crc, origPtr, inUse, selectors, tables, syms);
    ImageWellFormed(im);
    var selectorMtf := RankSelectors(selectors, nGroups);
    var codes := AssignTables(tables, alphaSize);
    PutBody(w, inUse, tables, codes, selectors, selectorMtf, syms, im);
  }
}
