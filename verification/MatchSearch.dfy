/** What longest_match of deflate.c looks at, and what it has to find. */
module MatchSearch {
  import opened Common
  import opened Lz77
  import opened HashChains

  /** Always true, like Unfold, for what is only looked at while a match is searched for. */
  ghost predicate Sight(k: int) {
    true
  }

  const MIN_MATCH := 3
  const MAX_MATCH := 258
  const MIN_LOOKAHEAD := 262

  /** MAX_DIST: how far back a match may begin, with a window of w bytes. */
  function MaxDist(w: nat): (r: int) { w - MIN_LOOKAHEAD }

  /** How hard to look for matches: max_chain_length, good_match and nice_match. */
  datatype Effort = Effort(maxChain: nat, goodMatch: int, niceMatch: int)

  /** A match that a copy may refer to: near enough, of the text at q. */
  ghost predicate Pair(w: nat, s: seq<byte>, p: int, q: int, len: int) {
    Matches(s, p, q, len) && 0 <= len <= MAX_MATCH && p - q <= MaxDist(w)
  }

  // ---------------------------------------------------------------- the length of a match

  function Cap(lookahead: int): (r: int) {
    if lookahead < MAX_MATCH then lookahead else MAX_MATCH
  }

  ghost function LongestUpTo(s: seq<byte>, p: int, q: int, n: int): (r: int)
    decreases n
  {
    if n <= 0 || Matches(s, p, q, n) then n else LongestUpTo(s, p, q, n - 1)
  }

  /** The greatest number of bytes, up to MAX_MATCH and within the input, in which p and q agree. */
  ghost function MatchLength(s: seq<byte>, p: int, q: int): (r: int) {
    LongestUpTo(s, p, q, Cap(|s| - p))
  }

  lemma {:induction false} MatchesByte(s: seq<byte>, p: int, q: int, n: int, i: int)
    requires Matches(s, p, q, n) && 0 <= i < n
    ensures s[p + i] == s[q + i]
    decreases n
  {
    if i < n - 1 {
      MatchesByte(s, p, q, n - 1, i);
    }
  }

  lemma {:induction false} UpToStops(s: seq<byte>, p: int, q: int, n: int, i: int)
    requires 0 <= q < p && 0 <= i <= n && p + n <= |s| && (i < n ==> s[p + i] != s[q + i])
    ensures LongestUpTo(s, p, q, n) <= i
    ensures Matches(s, p, q, i) ==> LongestUpTo(s, p, q, n) == i
    decreases n
  {
    if i < n {
      if Matches(s, p, q, n) { MatchesByte(s, p, q, n, i); }
      UpToStops(s, p, q, n - 1, i);
    } else {
      UpToMatches(s, p, q, n);
    }
  }

  /** Where the bytes differ a match ends. */
  lemma {:induction false} MatchStops(s: seq<byte>, p: int, q: int, i: int)
    requires 0 <= q < p && 0 <= i <= Cap(|s| - p) && (i < Cap(|s| - p) ==> s[p + i] != s[q + i])
    ensures MatchLength(s, p, q) <= i
    ensures Matches(s, p, q, i) ==> MatchLength(s, p, q) == i
  {
    UpToStops(s, p, q, Cap(|s| - p), i);
  }

  lemma {:induction false} UpToMatches(s: seq<byte>, p: int, q: int, n: int)
    requires 0 <= q < p && 0 <= n && p + n <= |s|
    ensures 0 <= LongestUpTo(s, p, q, n) <= n && Matches(s, p, q, LongestUpTo(s, p, q, n))
    decreases n
  {
    if n > 0 && !Matches(s, p, q, n) {
      UpToMatches(s, p, q, n - 1);
    }
  }

  lemma {:induction false} UpToGreatest(s: seq<byte>, p: int, q: int, n: int, i: int)
    requires Matches(s, p, q, i) && i <= n
    ensures LongestUpTo(s, p, q, n) >= i
    decreases n - i
  {
    if i < n {
      UpToGreatest(s, p, q, n - 1, i);
    }
  }

  /** It is the length of a match, and of no match that is shorter than another. */
  lemma {:induction false} MatchLengthGreatest(s: seq<byte>, p: int, q: int, i: int)
    requires 0 <= q < p <= |s|
    ensures 0 <= MatchLength(s, p, q) <= MAX_MATCH && Matches(s, p, q, MatchLength(s, p, q))
    ensures i <= MAX_MATCH && Matches(s, p, q, i) ==> i <= MatchLength(s, p, q)
  {
    UpToMatches(s, p, q, Cap(|s| - p));
    if i <= MAX_MATCH && Matches(s, p, q, i) {
      assert i <= Cap(|s| - p);
      UpToGreatest(s, p, q, Cap(|s| - p), i);
    }
  }

  // ---------------------------------------------------------------- the positions looked at

  /** How many positions are looked at when a match of length from is known; the counter wraps round from 0. */
  function Tries(effort: Effort, from: int): (r: nat)
    ensures r > 0
  {
    Countdown(if from >= effort.goodMatch then effort.maxChain / 4 else effort.maxChain)
  }

  /** How many more positions a counter allows. */
  function Countdown(chain: nat): (r: nat) {
    if chain == 0 then 0x1_0000_0000 else chain
  }

  /** A match of this length ends the search; a negative setting is a great unsigned number. */
  function NiceLength(effort: Effort, lookahead: int): (r: int) {
    if 0 <= effort.niceMatch <= lookahead then effort.niceMatch else lookahead
  }

  ghost predicate Nice(s: seq<byte>, p: int, q: int, from: int, effort: Effort) {
    MatchLength(s, p, q) > from && MatchLength(s, p, q) >= NiceLength(effort, |s| - p)
  }

  /** q is in the window, its first byte left out, and near enough to p; the first position looked at may be one byte
      further away than the others. */
  ghost predicate Reach(w: nat, base: int, p: int, q: int, first: bool) {
    q > base && (p - q < MaxDist(w) || (first && p - q == MaxDist(w)))
  }

  /** The last position of v, p if there is none. */
  function Last(v: seq<int>, p: int): (r: int) {
    if v == [] then p else v[|v| - 1]
  }

  /** v are the last positions before p that have been inserted with the key of p, the latest first and none left out; all
      of them are within reach. */
  ghost predicate Trail<H(!new)>(upd: (H, byte) -> H, h0: H, s: seq<byte>, base: int, ins: set<int>, w: nat, p: int,
      v: seq<int>)
    decreases |v|
  {
    v == [] || (Trail(upd, h0, s, base, ins, w, p, v[..|v| - 1])
        && Step(upd, h0, s, base, ins, w, p, Last(v[..|v| - 1], p), v[|v| - 1], |v| == 1))
  }

  /** q is the last position inserted before r with the key of p, and within reach. */
  ghost predicate Step<H(!new)>(upd: (H, byte) -> H, h0: H, s: seq<byte>, base: int, ins: set<int>, w: nat, p: int,
      r: int, q: int, first: bool) {
    q in ins && q < r && Key(upd, h0, s, q) == Key(upd, h0, s, p) && NoneBetween(upd, h0, s, ins, q, Key(upd, h0, s, p), r)
    && Reach(w, base, p, q, first)
  }

  /** Before r there is no further position within reach with the key of p. */
  ghost predicate Exhausted<H(!new)>(upd: (H, byte) -> H, h0: H, s: seq<byte>, base: int, ins: set<int>, w: nat, p: int,
      r: int, first: bool) {
    forall u {:trigger Unseal(u)} :: Unseal(u) ==>
      forall q :: q in ins && q < r && Key(upd, h0, s, q) == Key(upd, h0, s, p) ==> !Reach(w, base, p, q, first)
  }

  /** None of the positions v is nice. */
  ghost predicate Dull(s: seq<byte>, p: int, v: seq<int>, from: int, effort: Effort) {
    forall u {:trigger Unseal(u)} :: Unseal(u) ==> forall i :: 0 <= i < |v| ==> !Nice(s, p, v[i], from, effort)
  }

  lemma {:induction false} DullMore(s: seq<byte>, p: int, v: seq<int>, q: int, from: int, effort: Effort)
    requires Dull(s, p, v, from, effort) && !Nice(s, p, q, from, effort)
    ensures Dull(s, p, v + [q], from, effort)
  {
    assert Unseal(0);
  }

  lemma {:induction false} TrailMore<H(!new)>(upd: (H, byte) -> H, h0: H, s: seq<byte>, base: int, ins: set<int>, w: nat,
      p: int, v: seq<int>, q: int)
    requires Trail(upd, h0, s, base, ins, w, p, v) && Step(upd, h0, s, base, ins, w, p, Last(v, p), q, v == [])
    ensures Trail(upd, h0, s, base, ins, w, p, v + [q])
  {
    assert (v + [q])[..|v|] == v;
  }

  /** The positions v are those looked at: the search goes on until there have been enough, a nice match is found, or there
      is no further position. */
  ghost predicate Searched<H(!new)>(upd: (H, byte) -> H, h0: H, s: seq<byte>, base: int, ins: set<int>, w: nat, p: int,
      from: int, effort: Effort, v: seq<int>) {
    && Trail(upd, h0, s, base, ins, w, p, v) && |v| <= Tries(effort, from)
    && (v != [] ==> Dull(s, p, v[..|v| - 1], from, effort))
    && (|v| == Tries(effort, from) || (v != [] && Nice(s, p, v[|v| - 1], from, effort))
        || Exhausted(upd, h0, s, base, ins, w, p, Last(v, p), v == []))
  }

  /** len is the greatest of from and the lengths of the matches at the positions v; if it is not from, then at is the
      first of them with a match of that length. */
  ghost predicate Greatest(s: seq<byte>, p: int, v: seq<int>, from: int, at: int, len: int) {
    && from <= len && (forall i :: 0 <= i < |v| ==> MatchLength(s, p, v[i]) <= len)
    && (len > from ==> exists i :: 0 <= i < |v| && v[i] == at && FirstOf(s, p, v, i, len))
  }

  ghost predicate FirstOf(s: seq<byte>, p: int, v: seq<int>, i: int, len: int) {
    0 <= i < |v| && MatchLength(s, p, v[i]) == len && forall j :: 0 <= j < i ==> MatchLength(s, p, v[j]) < len
  }

  /** The longest match found for the string at p, a match of length from being known already, has length len and is with
      the string at position at. */
  ghost predicate Found<H(!new)>(upd: (H, byte) -> H, h0: H, s: seq<byte>, base: int, ins: set<int>, w: nat, p: int,
      from: int, effort: Effort, at: int, len: int) {
    forall u {:trigger Sight(u)} :: Sight(u) ==>
      exists v :: Searched(upd, h0, s, base, ins, w, p, from, effort, v) && Greatest(s, p, v, from, at, len)
  }

  ghost predicate GreatestYet(s: seq<byte>, p: int, v: seq<int>, from: int, at: int, len: int) {
    forall u {:trigger Unseal(u)} :: Unseal(u) ==> Greatest(s, p, v, from, at, len)
  }

  lemma {:induction false} GreatestNone(s: seq<byte>, p: int, from: int, at: int)
    ensures GreatestYet(s, p, [], from, at, from)
  {
  }

  /** One position more. */
  lemma {:induction false} GreatestMore(s: seq<byte>, p: int, v: seq<int>, from: int, at: int, len: int, q: int)
    requires GreatestYet(s, p, v, from, at, len)
    ensures var n := MatchLength(s, p, q);
            GreatestYet(s, p, v + [q], from, if n > len then q else at, if n > len then n else len)
  {
    assert Unseal(0);
    var v' := v + [q];
    if MatchLength(s, p, q) > len {
      assert v'[|v|] == q && FirstOf(s, p, v', |v|, MatchLength(s, p, q));
    } else if len > from {
      var i :| 0 <= i < |v| && v[i] == at && FirstOf(s, p, v, i, len);
      assert v'[i] == at && FirstOf(s, p, v', i, len);
    }
  }

  /** Taking the match at q into account: best is its length as found by comparing, which may go beyond the input. */
  lemma {:induction false} Weighed(s: seq<byte>, p: int, v: seq<int>, q: int, from: int, effort: Effort, at: int, was: int,
      at': int, best: int, lookahead: int)
    requires GreatestYet(s, p, v, from, at, was) && lookahead == |s| - p && from <= was < lookahead
        && (was == from || was < NiceLength(effort, lookahead))
    requires var n := MatchLength(s, p, q);
             if best > was then n == (if best <= lookahead then best else lookahead) && at' == q
             else best == was && n <= was && at' == at
    ensures GreatestYet(s, p, v + [q], from, at', if best <= lookahead then best else lookahead)
    ensures best > was && best >= NiceLength(effort, lookahead) <==> Nice(s, p, q, from, effort)
  {
    GreatestMore(s, p, v, from, at, was, q);
  }

  lemma {:induction false} FoundBy<H(!new)>(upd: (H, byte) -> H, h0: H, s: seq<byte>, base: int, ins: set<int>, w: nat,
      p: int, from: int, effort: Effort, v: seq<int>, at: int, len: int)
    requires Searched(upd, h0, s, base, ins, w, p, from, effort, v) && GreatestYet(s, p, v, from, at, len)
    ensures Found(upd, h0, s, base, ins, w, p, from, effort, at, len)
  {
    assert Unseal(0);
  }

  lemma {:induction false} TrailReach<H(!new)>(upd: (H, byte) -> H, h0: H, s: seq<byte>, base: int, ins: set<int>, w: nat,
      p: int, v: seq<int>, i: int)
    requires Trail(upd, h0, s, base, ins, w, p, v) && 0 <= i < |v|
    ensures base < v[i] < p && p - v[i] <= MaxDist(w)
    decreases |v|
  {
    if |v| > 1 {
      TrailReach(upd, h0, s, base, ins, w, p, v[..|v| - 1], if i < |v| - 1 then i else i - 1);
    }
  }

  /** A match longer than the one known can be coded as a copy. */
  lemma {:induction false} FoundPair<H(!new)>(upd: (H, byte) -> H, h0: H, s: seq<byte>, base: int, ins: set<int>, w: nat,
      p: int, from: int, effort: Effort, at: int, len: int)
    requires Found(upd, h0, s, base, ins, w, p, from, effort, at, len) && len > from && 0 <= base && p <= |s|
    ensures Pair(w, s, p, at, len)
  {
    assert Sight(0);
    var v :| Searched(upd, h0, s, base, ins, w, p, from, effort, v) && Greatest(s, p, v, from, at, len);
    var i :| 0 <= i < |v| && v[i] == at && FirstOf(s, p, v, i, len);
    TrailReach(upd, h0, s, base, ins, w, p, v, i);
    MatchLengthGreatest(s, p, at, 0);
  }

  // ---------------------------------------------------------------- following the links

  lemma {:induction false} LastBefore<H(!new)>(upd: (H, byte) -> H, h0: H, s: seq<byte>, base: int, ins: set<int>, w: nat,
      p: int, v: seq<int>)
    requires Trail(upd, h0, s, base, ins, w, p, v)
    ensures Last(v, p) <= p
  {
    if v != [] { TrailReach(upd, h0, s, base, ins, w, p, v, |v| - 1); }
  }

  /** Where a link leads, the search goes on if that is within reach. */
  lemma {:induction false} StepBy<H(!new)>(upd: (H, byte) -> H, h0: H, s: seq<byte>, base: int, ins: set<int>, w: nat,
      p: int, r: int, m: int, first: bool)
    requires Latest(upd, h0, s, base, ins, m, Key(upd, h0, s, p), r)
    ensures if Reach(w, base, p, base + m, first) then Step(upd, h0, s, base, ins, w, p, r, base + m, first)
            else Exhausted(upd, h0, s, base, ins, w, p, r, first)
  {
    if !Reach(w, base, p, base + m, first) {
      assert Unseal(0);
    }
  }

  lemma {:induction false} SearchEnds<H(!new)>(upd: (H, byte) -> H, h0: H, s: seq<byte>, base: int, ins: set<int>, w: nat,
      p: int, from: int, effort: Effort, v: seq<int>, q: int, at: int, len: int)
    requires Trail(upd, h0, s, base, ins, w, p, v) && Step(upd, h0, s, base, ins, w, p, Last(v, p), q, v == [])
    requires Dull(s, p, v, from, effort) && |v| < Tries(effort, from)
    requires GreatestYet(s, p, v + [q], from, at, len)
    requires Nice(s, p, q, from, effort) || |v| + 1 == Tries(effort, from)
        || Exhausted(upd, h0, s, base, ins, w, p, q, false)
    ensures Found(upd, h0, s, base, ins, w, p, from, effort, at, len)
  {
    assert (v + [q])[..|v|] == v;
    TrailMore(upd, h0, s, base, ins, w, p, v, q);
    FoundBy(upd, h0, s, base, ins, w, p, from, effort, v + [q], at, len);
  }

  lemma {:induction false} NothingThere<H(!new)>(upd: (H, byte) -> H, h0: H, s: seq<byte>, base: int, ins: set<int>,
      w: nat, p: int, from: int, effort: Effort, at: int)
    requires Exhausted(upd, h0, s, base, ins, w, p, p, true)
    ensures Found(upd, h0, s, base, ins, w, p, from, effort, at, from)
  {
    GreatestNone(s, p, from, at);
    FoundBy(upd, h0, s, base, ins, w, p, from, effort, [], at, from);
  }

  // ---------------------------------------------------------------- the outcome is determined

  lemma {:induction false} StepUnique<H(!new)>(upd: (H, byte) -> H, h0: H, s: seq<byte>, base: int, ins: set<int>, w: nat,
      p: int, r: int, q: int, q': int, first: bool)
    requires Step(upd, h0, s, base, ins, w, p, r, q, first) && Step(upd, h0, s, base, ins, w, p, r, q', first)
    ensures q == q'
  {
    assert Unseal(0);
  }

  /** Of two trails one is the beginning of the other. */
  lemma {:induction false} TrailPrefix<H(!new)>(upd: (H, byte) -> H, h0: H, s: seq<byte>, base: int, ins: set<int>,
      w: nat, p: int, v: seq<int>, v': seq<int>)
    requires Trail(upd, h0, s, base, ins, w, p, v) && Trail(upd, h0, s, base, ins, w, p, v') && |v| <= |v'|
    ensures v == v'[..|v|]
    decreases |v'|
  {
    if |v| < |v'| {
      TrailPrefix(upd, h0, s, base, ins, w, p, v, v'[..|v'| - 1]);
      assert v'[..|v'| - 1][..|v|] == v'[..|v|];
    } else if v != [] {
      TrailPrefix(upd, h0, s, base, ins, w, p, v[..|v| - 1], v'[..|v'| - 1]);
      assert v[..|v| - 1] == v'[..|v| - 1];
      StepUnique(upd, h0, s, base, ins, w, p, Last(v[..|v| - 1], p), v[|v| - 1], v'[|v| - 1], |v| == 1);
      assert v == v[..|v| - 1] + [v[|v| - 1]];
    }
    assert v'[..|v'|] == v';
  }

  lemma {:induction false} TrailStep<H(!new)>(upd: (H, byte) -> H, h0: H, s: seq<byte>, base: int, ins: set<int>, w: nat,
      p: int, v: seq<int>, n: nat)
    requires Trail(upd, h0, s, base, ins, w, p, v) && n < |v|
    ensures Step(upd, h0, s, base, ins, w, p, Last(v[..n], p), v[n], n == 0)
    decreases |v|
  {
    if n < |v| - 1 {
      TrailStep(upd, h0, s, base, ins, w, p, v[..|v| - 1], n);
      assert v[..|v| - 1][..n] == v[..n];
    }
  }

  lemma {:induction false} TrailGoesOn<H(!new)>(upd: (H, byte) -> H, h0: H, s: seq<byte>, base: int, ins: set<int>,
      w: nat, p: int, v: seq<int>, n: nat)
    requires Trail(upd, h0, s, base, ins, w, p, v) && n < |v|
    ensures !Exhausted(upd, h0, s, base, ins, w, p, Last(v[..n], p), n == 0)
  {
    TrailStep(upd, h0, s, base, ins, w, p, v, n);
    assert Unseal(0);
  }

  lemma {:induction false} DullAt(s: seq<byte>, p: int, v: seq<int>, from: int, effort: Effort, i: int)
    requires 0 <= i < |v| - 1 && Dull(s, p, v[..|v| - 1], from, effort)
    ensures !Nice(s, p, v[i], from, effort)
  {
    assert Unseal(0);
    assert v[..|v| - 1][i] == v[i];
  }

  /** A search does not go on where another one ends. */
  lemma {:induction false} SearchesEnd<H(!new)>(upd: (H, byte) -> H, h0: H, s: seq<byte>, base: int, ins: set<int>,
      w: nat, p: int, from: int, effort: Effort, v: seq<int>, v': seq<int>)
    requires Searched(upd, h0, s, base, ins, w, p, from, effort, v)
        && Searched(upd, h0, s, base, ins, w, p, from, effort, v') && |v| <= |v'|
    ensures v == v'
  {
    TrailPrefix(upd, h0, s, base, ins, w, p, v, v');
    assert v'[..|v'|] == v';
    if |v| < |v'| {
      if v != [] { DullAt(s, p, v', from, effort, |v| - 1); }
      TrailGoesOn(upd, h0, s, base, ins, w, p, v', |v|);
    }
  }

  lemma {:induction false} GreatestUnique(s: seq<byte>, p: int, v: seq<int>, from: int, at: int, len: int, at': int,
      len': int)
    requires Greatest(s, p, v, from, at, len) && Greatest(s, p, v, from, at', len')
    ensures len == len' && (len > from ==> at == at')
  {
    if len > from || len' > from {
      if len > from {
        var i :| 0 <= i < |v| && v[i] == at && FirstOf(s, p, v, i, len);
        assert len <= len';
      }
      if len' > from {
        var j :| 0 <= j < |v| && v[j] == at' && FirstOf(s, p, v, j, len');
        assert len' <= len;
      }
    }
  }

  /** The text, the positions inserted and the settings determine what is found. */
  lemma {:induction false} FoundUnique<H(!new)>(upd: (H, byte) -> H, h0: H, s: seq<byte>, base: int, ins: set<int>,
      w: nat, p: int, from: int, effort: Effort, at: int, len: int, at': int, len': int)
    requires Found(upd, h0, s, base, ins, w, p, from, effort, at, len)
        && Found(upd, h0, s, base, ins, w, p, from, effort, at', len')
    ensures len == len' && (len > from ==> at == at')
  {
    assert Sight(0);
    var v :| Searched(upd, h0, s, base, ins, w, p, from, effort, v) && Greatest(s, p, v, from, at, len);
    var v' :| Searched(upd, h0, s, base, ins, w, p, from, effort, v') && Greatest(s, p, v', from, at', len');
    if |v| <= |v'| {
      SearchesEnd(upd, h0, s, base, ins, w, p, from, effort, v, v');
    } else {
      SearchesEnd(upd, h0, s, base, ins, w, p, from, effort, v', v);
    }
    GreatestUnique(s, p, v, from, at, len, at', len');
  }

  /** A trail leaves out no inserted position with its key that is not before its end. */
  lemma {:induction false} TrailComplete<H(!new)>(upd: (H, byte) -> H, h0: H, s: seq<byte>, base: int, ins: set<int>,
      w: nat, p: int, v: seq<int>, q: int)
    requires Trail(upd, h0, s, base, ins, w, p, v) && q in ins && Last(v, p) <= q < p
        && Key(upd, h0, s, q) == Key(upd, h0, s, p)
    ensures q in v
    decreases |v|
  {
    var u := v[..|v| - 1];
    if q < Last(u, p) {
      assert Unseal(0);
      assert q == v[|v| - 1];
    } else {
      TrailComplete(upd, h0, s, base, ins, w, p, u, q);
    }
  }

  /** A position within reach with a longer match is missed only behind a nice match or behind as many positions with the
      key as are looked at. */
  lemma {:induction false} MissedOnly<H(!new)>(upd: (H, byte) -> H, h0: H, s: seq<byte>, base: int, ins: set<int>,
      w: nat, p: int, from: int, effort: Effort, at: int, len: int, q: int)
    requires Found(upd, h0, s, base, ins, w, p, from, effort, at, len)
    requires q in ins && q < p && Key(upd, h0, s, q) == Key(upd, h0, s, p) && Reach(w, base, p, q, false)
        && MatchLength(s, p, q) > len
    ensures (len > from && len >= NiceLength(effort, |s| - p))
         || (exists v :: Trail(upd, h0, s, base, ins, w, p, v) && |v| == Tries(effort, from) && q < Last(v, p))
  {
    assert Sight(0);
    var v :| Searched(upd, h0, s, base, ins, w, p, from, effort, v) && Greatest(s, p, v, from, at, len);
    if q >= Last(v, p) {
      TrailComplete(upd, h0, s, base, ins, w, p, v, q);
    } else if |v| == Tries(effort, from) {
    } else if v != [] && Nice(s, p, v[|v| - 1], from, effort) {
      assert MatchLength(s, p, v[|v| - 1]) <= len;
    } else {
      ExhaustedAt(upd, h0, s, base, ins, w, p, Last(v, p), v == [], q);
    }
  }

  lemma {:induction false} ExhaustedAt<H(!new)>(upd: (H, byte) -> H, h0: H, s: seq<byte>, base: int, ins: set<int>,
      w: nat, p: int, r: int, first: bool, q: int)
    requires Exhausted(upd, h0, s, base, ins, w, p, r, first)
    ensures q in ins && q < r && Key(upd, h0, s, q) == Key(upd, h0, s, p) ==> !Reach(w, base, p, q, first)
  {
    assert Unseal(0);
  }

  /** What is found does not depend on the positions from p on. */
  ghost predicate SameBefore(a: set<int>, b: set<int>, p: int) {
    forall u {:trigger Unseal(u)} :: Unseal(u) ==> forall q :: q < p ==> (q in a <==> q in b)
  }

  lemma {:induction false} TrailSame<H(!new)>(upd: (H, byte) -> H, h0: H, s: seq<byte>, base: int, ins: set<int>,
      ins': set<int>, w: nat, p: int, v: seq<int>)
    requires Trail(upd, h0, s, base, ins, w, p, v) && SameBefore(ins, ins', p)
    ensures Trail(upd, h0, s, base, ins', w, p, v) && Last(v, p) <= p
    decreases |v|
  {
    if v != [] {
      TrailSame(upd, h0, s, base, ins, ins', w, p, v[..|v| - 1]);
      assert Unseal(0);
    }
  }

  lemma {:induction false} FoundSame<H(!new)>(upd: (H, byte) -> H, h0: H, s: seq<byte>, base: int, ins: set<int>,
      ins': set<int>, w: nat, p: int, from: int, effort: Effort, at: int, len: int)
    requires Found(upd, h0, s, base, ins, w, p, from, effort, at, len) && SameBefore(ins, ins', p)
    ensures Found(upd, h0, s, base, ins', w, p, from, effort, at, len)
  {
    assert Sight(0);
    var v :| Searched(upd, h0, s, base, ins, w, p, from, effort, v) && Greatest(s, p, v, from, at, len);
    TrailSame(upd, h0, s, base, ins, ins', w, p, v);
    assert Unseal(0);
    assert Searched(upd, h0, s, base, ins', w, p, from, effort, v);
  }

  lemma {:induction false} SameAdding(ins: set<int>, a: int, b: int, p: int)
    requires p <= a
    ensures SameBefore(ins, Adding(ins, a, b), p) && SameBefore(Adding(ins, a, b), ins, p)
  {
    forall q | q < p
      ensures q in ins <==> q in Adding(ins, a, b)
    {
      AddingIs(ins, a, b, q);
    }
  }
}
