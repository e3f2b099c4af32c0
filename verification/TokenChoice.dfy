/** Which tokens deflate_fast and deflate_slow write, given what longest_match finds. */
module TokenChoice {
  import opened Common
  import opened Lz77
  import opened HashChains
  import opened MatchSearch

  ghost function LiteralAt(s: seq<byte>, p: int): (r: Token) {
    Literal(if 0 <= p < |s| then s[p] else 0)
  }

  ghost function TokenFor(s: seq<byte>, p: int, at: int, len: int): (r: Token) {
    if len >= MIN_MATCH then Copy(p - at, len) else LiteralAt(s, p)
  }

  /** What deflate_fast writes for the string at p: the longest match found, if there is one. */
  ghost predicate FastToken<H(!new)>(upd: (H, byte) -> H, h0: H, s: seq<byte>, base: int, ins: set<int>, w: nat, p: int,
      effort: Effort, t: Token) {
    forall u {:trigger Sight(u)} :: Sight(u) ==> if |s| - p < MIN_MATCH then t == LiteralAt(s, p)
    else exists at, len :: Found(upd, h0, s, base, ins, w, p, 2, effort, at, len) && t == TokenFor(s, p, at, len)
  }

  /** One such token more. */
  ghost predicate FastAdds<H(!new)>(upd: (H, byte) -> H, h0: H, s: seq<byte>, base: int, ins: set<int>, w: nat, p: int,
      effort: Effort, ts: seq<Token>, ts': seq<Token>) {
    forall u {:trigger Sight(u)} :: Sight(u) ==> exists t :: ts' == ts + [t] && FastToken(upd, h0, s, base, ins, w, p, effort, t)
  }

  lemma {:induction false} FastSame<H(!new)>(upd: (H, byte) -> H, h0: H, s: seq<byte>, base: int, ins: set<int>,
      ins': set<int>, w: nat, p: int, effort: Effort, ts: seq<Token>, ts': seq<Token>)
    requires FastAdds(upd, h0, s, base, ins, w, p, effort, ts, ts') && SameBefore(ins, ins', p)
    ensures FastAdds(upd, h0, s, base, ins', w, p, effort, ts, ts')
  {
    assert Sight(0);
    var t :| ts' == ts + [t] && FastToken(upd, h0, s, base, ins, w, p, effort, t);
    assert Sight(0);
    if |s| - p >= MIN_MATCH {
      var at, len :| Found(upd, h0, s, base, ins, w, p, 2, effort, at, len)
          && t == TokenFor(s, p, at, len);
      FoundSame(upd, h0, s, base, ins, ins', w, p, 2, effort, at, len);
    }
    assert FastToken(upd, h0, s, base, ins', w, p, effort, t);
  }

  lemma {:induction false} FastFound<H(!new)>(upd: (H, byte) -> H, h0: H, s: seq<byte>, base: int, ins: set<int>, w: nat,
      p: int, effort: Effort, at: int, len: int)
    requires |s| - p >= MIN_MATCH ==> Found(upd, h0, s, base, ins, w, p, 2, effort, at, if len >= MIN_MATCH then len else 2)
    requires |s| - p < MIN_MATCH ==> len < MIN_MATCH
    ensures FastToken(upd, h0, s, base, ins, w, p, effort, TokenFor(s, p, at, len))
  {
  }

  /** The settings of deflate_slow: max_lazy, TOO_FAR and Z_FILTERED with those of the search. */
  datatype Lazy = Lazy(effort: Effort, maxLazy: int, tooFar: int, filtered: bool)

  /** A short match that is not worth a copy. */
  function Poor(cfg: Lazy, len: int, dist: int): bool {
    len <= 5 && (cfg.filtered || (len == MIN_MATCH && dist > cfg.tooFar))
  }

  /** The match at p that deflate_slow goes on with, where one of length from is known already: at least MIN_MATCH long,
      and longer than that, or of length 2. */
  ghost predicate Chosen<H(!new)>(upd: (H, byte) -> H, h0: H, s: seq<byte>, base: int, ins: set<int>, w: nat, p: int,
      from: int, cfg: Lazy, at: int, len: int) {
    forall u {:trigger Sight(u)} :: Sight(u) ==> if |s| - p >= MIN_MATCH && from < cfg.maxLazy && from < |s| - p then
      exists a, n :: Found(upd, h0, s, base, ins, w, p, from, cfg.effort, a, n)
          && (if n > from && !Poor(cfg, n, p - a) then at == a && len == n else len == 2)
    else len == 2
  }

  lemma {:induction false} ChosenBy<H(!new)>(upd: (H, byte) -> H, h0: H, s: seq<byte>, base: int, ins: set<int>, w: nat,
      p: int, from: int, cfg: Lazy, a: int, n: int, len: int)
    requires |s| - p >= MIN_MATCH && from < cfg.maxLazy && from < |s| - p
        ==> Found(upd, h0, s, base, ins, w, p, from, cfg.effort, a, n)
    requires len > from ==> len == n && |s| - p >= MIN_MATCH && from < cfg.maxLazy && from < |s| - p && !Poor(cfg, n, p - a)
    requires len <= from && n > from ==> Poor(cfg, n, p - a)
    ensures Chosen(upd, h0, s, base, ins, w, p, from, cfg, a, if len > from then len else 2)
  {
  }

  lemma {:induction false} ChosenSame<H(!new)>(upd: (H, byte) -> H, h0: H, s: seq<byte>, base: int, ins: set<int>,
      ins': set<int>, w: nat, p: int, from: int, cfg: Lazy, at: int, len: int)
    requires Chosen(upd, h0, s, base, ins, w, p, from, cfg, at, len) && SameBefore(ins, ins', p)
    ensures Chosen(upd, h0, s, base, ins', w, p, from, cfg, at, len)
  {
    assert Sight(0);
    if |s| - p >= MIN_MATCH && from < cfg.maxLazy && from < |s| - p {
      var a, n :| Found(upd, h0, s, base, ins, w, p, from, cfg.effort, a, n)
          && (if n > from && !Poor(cfg, n, p - a) then at == a && len == n else len == 2);
      FoundSame(upd, h0, s, base, ins, ins', w, p, from, cfg.effort, a, n);
    }
  }

  /** Between two rounds of deflate_slow: whether a literal waits, and the match that waits in its place, if it is at least
      MIN_MATCH long. */
  datatype Wait = Wait(available: bool, at: int, len: int)

  /** One round: a match that waits is written when the next one is no longer; otherwise a literal takes its place, and the
      next one waits. */
  ghost predicate SlowMoves<H(!new)>(upd: (H, byte) -> H, h0: H, s: seq<byte>, base: int, ins: set<int>, w: nat, p: int,
      cfg: Lazy, was: Wait, ts: seq<Token>, now: Wait, ts': seq<Token>) {
    forall u {:trigger Sight(u)} :: Sight(u) ==>
      exists at, len :: Chosen(upd, h0, s, base, ins, w, p, was.len, cfg, at, len) && SlowMove(s, p, was, ts, at, len, now, ts')
  }

  /** The copy for a match, with the text at position at, that waited one byte before p. */
  ghost function WaitingCopy(p: int, at: int, len: int): (r: Token) {
    Copy(p - 1 - at, if len >= 0 then len else 0)
  }

  ghost predicate SlowMove(s: seq<byte>, p: int, was: Wait, ts: seq<Token>, at: int, len: int, now: Wait,
      ts': seq<Token>) {
    if was.len >= MIN_MATCH && len <= was.len then
      ts' == ts + [WaitingCopy(p, was.at, was.len)] && !now.available && now.len == 2
    else
      && ts' == (if was.available then ts + [LiteralAt(s, p - 1)] else ts)
      && now.available && now.len == len && (len >= MIN_MATCH ==> now.at == at)
  }

  lemma {:induction false} SlowSame<H(!new)>(upd: (H, byte) -> H, h0: H, s: seq<byte>, base: int, ins: set<int>,
      ins': set<int>, w: nat, p: int, cfg: Lazy, was: Wait, ts: seq<Token>, now: Wait, ts': seq<Token>)
    requires SlowMoves(upd, h0, s, base, ins, w, p, cfg, was, ts, now, ts') && SameBefore(ins, ins', p)
    ensures SlowMoves(upd, h0, s, base, ins', w, p, cfg, was, ts, now, ts')
  {
    assert Sight(0);
    var at, len :| Chosen(upd, h0, s, base, ins, w, p, was.len, cfg, at, len) && SlowMove(s, p, was, ts, at, len, now, ts');
    ChosenSame(upd, h0, s, base, ins, ins', w, p, was.len, cfg, at, len);
  }

  // ---------------------------------------------------------------- whole runs

  /** What a round knew: the input read, where the window began, the positions inserted, and the position p it was at. */
  datatype Seen = Seen(s: seq<byte>, base: int, ins: set<int>, p: int)

  /** The strings that were looked for and complete are inserted, and what was read then is still the beginning of s. */
  ghost predicate Recalled(seen: seq<Seen>, ins: set<int>, s: seq<byte>) {
    forall u {:trigger Unseal(u)} :: Unseal(u) ==> forall j :: 0 <= j < |seen| ==>
      seen[j].s <= s && (seen[j].p + MIN_MATCH <= |seen[j].s| ==> seen[j].p in ins)
  }

  lemma {:induction false} RecalledOn(seen: seq<Seen>, ins: set<int>, ins': set<int>, s: seq<byte>, s': seq<byte>)
    requires Recalled(seen, ins, s) && ins <= ins' && s <= s'
    ensures Recalled(seen, ins', s')
  {
    assert Unseal(0);
  }

  lemma {:induction false} RecalledMore(seen: seq<Seen>, was: set<int>, ins: set<int>, s: seq<byte>, base: int, p: int,
      end: int)
    requires Recalled(seen, was, s) && ins == Adding(was, p, end) && (p + MIN_MATCH <= |s| ==> p < end)
    ensures Recalled(seen, ins, s) && Recalled(seen + [Seen(s, base, ins, p)], ins, s)
  {
    AddingMore(was, p, end);
    assert Unseal(0);
  }

  /** The settings of a compressor, and which of the two it is. */
  datatype Settings = Settings(slow: bool, lazy: Lazy)

  /** One round: made at the position behind the tokens and the literal that waits, with all strings inserted that were
      looked for before. */
  ghost predicate Moves<H(!new)>(upd: (H, byte) -> H, h0: H, w: nat, cfg: Settings, past: seq<Seen>, l: Seen, was: Wait,
      ts: seq<Token>, now: Wait, ts': seq<Token>) {
    forall u {:trigger Sight(u)} :: Sight(u) ==>
      && l.p == |Expand(ts)| + (if was.available then 1 else 0) && Recalled(past, l.ins, l.s)
      && if cfg.slow then SlowMoves(upd, h0, l.s, l.base, l.ins, w, l.p, cfg.lazy, was, ts, now, ts')
         else FastAdds(upd, h0, l.s, l.base, l.ins, w, l.p, cfg.lazy.effort, ts, ts')
  }

  lemma {:induction false} FastMoves<H(!new)>(upd: (H, byte) -> H, h0: H, w: nat, cfg: Settings, past: seq<Seen>,
      before: set<int>, l: Seen, end: int, was: Wait, ts: seq<Token>, now: Wait, ts': seq<Token>)
    requires !cfg.slow && l.p == |Expand(ts)| && !was.available && Recalled(past, before, l.s)
    requires l.ins == Adding(before, l.p, end) && (l.p + MIN_MATCH <= |l.s| ==> l.p < end)
    requires FastAdds(upd, h0, l.s, l.base, before, w, l.p, cfg.lazy.effort, ts, ts')
    ensures Moves(upd, h0, w, cfg, past, l, was, ts, now, ts') && Recalled(past + [l], l.ins, l.s)
  {
    RecalledMore(past, before, l.ins, l.s, l.base, l.p, end);
    SameAdding(before, l.p, end, l.p);
    FastSame(upd, h0, l.s, l.base, before, l.ins, w, l.p, cfg.lazy.effort, ts, ts');
  }

  lemma {:induction false} SlowMovesOn<H(!new)>(upd: (H, byte) -> H, h0: H, w: nat, cfg: Settings, past: seq<Seen>,
      before: set<int>, l: Seen, end: int, was: Wait, ts: seq<Token>, now: Wait, ts': seq<Token>)
    requires cfg.slow && l.p == |Expand(ts)| + (if was.available then 1 else 0) && Recalled(past, before, l.s)
    requires l.ins == Adding(before, l.p, end) && (l.p + MIN_MATCH <= |l.s| ==> l.p < end)
    requires SlowMoves(upd, h0, l.s, l.base, before, w, l.p, cfg.lazy, was, ts, now, ts')
    ensures Moves(upd, h0, w, cfg, past, l, was, ts, now, ts') && Recalled(past + [l], l.ins, l.s)
  {
    RecalledMore(past, before, l.ins, l.s, l.base, l.p, end);
    SameAdding(before, l.p, end, l.p);
    SlowSame(upd, h0, l.s, l.base, before, l.ins, w, l.p, cfg.lazy, was, ts, now, ts');
  }

  /** The rounds from m to n lead from what waits and the tokens at first to those at last. */
  ghost predicate Run<H(!new)>(upd: (H, byte) -> H, h0: H, w: nat, cfg: Settings, seen: seq<Seen>, m: nat, n: nat,
      was: Wait, ts: seq<Token>, now: Wait, ts': seq<Token>)
    decreases n
  {
    if n <= m then n == m && ts == ts' && was == now
    else
      var k := n - 1;
      n <= |seen| && exists wt, t :: Run(upd, h0, w, cfg, seen, m, k, was, ts, wt, t) && Moves(upd, h0, w, cfg, seen[..k], seen[k], wt, t, now, ts')
  }

  lemma {:induction false} RunKeeps<H(!new)>(upd: (H, byte) -> H, h0: H, w: nat, cfg: Settings, seen: seq<Seen>,
      seen': seq<Seen>, m: nat, n: nat, was: Wait, ts: seq<Token>, now: Wait, ts': seq<Token>)
    requires Run(upd, h0, w, cfg, seen, m, n, was, ts, now, ts') && n <= |seen| && seen <= seen'
    ensures Run(upd, h0, w, cfg, seen', m, n, was, ts, now, ts')
    decreases n
  {
    if n > m {
      var wt, t :| Run(upd, h0, w, cfg, seen, m, n - 1, was, ts, wt, t)
          && Moves(upd, h0, w, cfg, seen[..n - 1], seen[n - 1], wt, t, now, ts');
      RunKeeps(upd, h0, w, cfg, seen, seen', m, n - 1, was, ts, wt, t);
      assert seen'[..n - 1] == seen[..n - 1];
    }
  }

  /** One round more. */
  lemma {:induction false} RunOn<H(!new)>(upd: (H, byte) -> H, h0: H, w: nat, cfg: Settings, seen: seq<Seen>, l: Seen,
      m: nat, was: Wait, ts: seq<Token>, wt: Wait, t: seq<Token>, now: Wait, ts': seq<Token>)
    requires Run(upd, h0, w, cfg, seen, m, |seen|, was, ts, wt, t) && m <= |seen|
    requires Moves(upd, h0, w, cfg, seen, l, wt, t, now, ts')
    ensures Run(upd, h0, w, cfg, seen + [l], m, |seen| + 1, was, ts, now, ts')
  {
    RunKeeps(upd, h0, w, cfg, seen, seen + [l], m, |seen|, was, ts, wt, t);
    assert (seen + [l])[..|seen|] == seen;
  }

  /** Two runs, one after the other. */
  lemma {:induction false} RunJoins<H(!new)>(upd: (H, byte) -> H, h0: H, w: nat, cfg: Settings, seen: seq<Seen>, m: nat,
      n: nat, k: nat, w0: Wait, t0: seq<Token>, w1: Wait, t1: seq<Token>, w2: Wait, t2: seq<Token>)
    requires Run(upd, h0, w, cfg, seen, m, n, w0, t0, w1, t1) && Run(upd, h0, w, cfg, seen, n, k, w1, t1, w2, t2)
    requires m <= n <= k
    ensures Run(upd, h0, w, cfg, seen, m, k, w0, t0, w2, t2)
    decreases k
  {
    if k > n {
      var wt, t :| Run(upd, h0, w, cfg, seen, n, k - 1, w1, t1, wt, t)
          && Moves(upd, h0, w, cfg, seen[..k - 1], seen[k - 1], wt, t, w2, t2);
      RunJoins(upd, h0, w, cfg, seen, m, n, k - 1, w0, t0, w1, t1, wt, t);
    }
  }

  /** At the end of a block a literal that waits is written. */
  ghost predicate Closed<H(!new)>(upd: (H, byte) -> H, h0: H, w: nat, cfg: Settings, s: seq<byte>, seen: seq<Seen>,
      m: nat, n: nat, was: Wait, ts: seq<Token>, ts': seq<Token>) {
    exists wt, t :: Run(upd, h0, w, cfg, seen, m, n, was, ts, wt, t)
        && ts' == if wt.available then t + [LiteralAt(s, |s| - 1)] else t
  }

  /** A run after which the block is closed, after another run. */
  lemma {:induction false} ClosedAfter<H(!new)>(upd: (H, byte) -> H, h0: H, w: nat, cfg: Settings, s: seq<byte>,
      seen: seq<Seen>, seen': seq<Seen>, n: nat, k: nat, w0: Wait, t0: seq<Token>, w1: Wait, t1: seq<Token>,
      t2: seq<Token>)
    requires Run(upd, h0, w, cfg, seen, 0, n, w0, t0, w1, t1) && n <= |seen| && seen <= seen' && n <= k
    requires Closed(upd, h0, w, cfg, s, seen', n, k, w1, t1, t2)
    ensures Closed(upd, h0, w, cfg, s, seen', 0, k, w0, t0, t2)
  {
    var wt, t :| Run(upd, h0, w, cfg, seen', n, k, w1, t1, wt, t)
        && t2 == if wt.available then t + [LiteralAt(s, |s| - 1)] else t;
    RunKeeps(upd, h0, w, cfg, seen, seen', 0, n, w0, t0, w1, t1);
    RunJoins(upd, h0, w, cfg, seen', 0, n, k, w0, t0, w1, t1, wt, t);
  }
}
