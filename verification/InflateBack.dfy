/** The output side of inflateBack (infback.c): the circular window that is both the output buffer and the history
    that matches are copied from. */
module InflateBack {
  import opened Common
  import opened Lz77
  import opened Deflate
  import opened MatchSearch
  import opened TokenChoice

  /** The window w, written up to put, after d has been passed on: together they are the whole output h, and behind put
      the
      window still holds the last bytes passed on. */
  ghost predicate Ring(w: seq<byte>, put: int, d: seq<byte>, h: seq<byte>) {
    0 <= put <= |w| && forall k {:trigger Unfold(k)} :: Unfold(k) ==>
      && h == d + w[..put]
      && (d == [] || (|d| >= |w| && w[put..] == d[|d| - |w| + put..]))
  }

  lemma {:induction false} RingStart(w: seq<byte>)
    ensures Ring(w, 0, [], [])
  {
  }

  lemma {:induction false} RingSize(w: seq<byte>, put: int, d: seq<byte>, h: seq<byte>)
    requires Ring(w, put, d, h)
    ensures |h| == |d| + put && (d == [] || |d| >= |w|) && h == d + w[..put]
  {
    assert Unfold(0);
  }

  lemma {:induction false} RingPut(w: seq<byte>, w': seq<byte>, put: int, d: seq<byte>, h: seq<byte>, c: byte)
    requires Ring(w, put, d, h) && put < |w| && w' == w[put := c]
    ensures Ring(w', put + 1, d, h + [c])
  {
    assert Unfold(0);
    assert w'[..put + 1] == w[..put] + [c];
    if d != [] {
      assert w'[put + 1..] == w[put..][1..];
      assert d[|d| - |w| + put..][1..] == d[|d| - |w| + put + 1..];
    }
  }

  lemma {:induction false} RingFlush(w: seq<byte>, d: seq<byte>, h: seq<byte>)
    requires Ring(w, |w|, d, h)
    ensures Ring(w, 0, d + w, h)
  {
    assert Unfold(0);
    assert w[..|w|] == w && w[..0] == [];
    assert (d + w)[|d|..] == w && w[0..] == w;
  }

  /** Where in the window the byte is that was written dist bytes ago. */
  function Behind(size: int, put: int, dist: int): (r: int) {
    if dist <= put then put - dist else put + size - dist
  }

  lemma {:induction false} RingBack(w: seq<byte>, put: int, d: seq<byte>, h: seq<byte>, dist: int)
    requires Ring(w, put, d, h) && 1 <= dist <= |w| && dist <= |h|
    ensures 0 <= Behind(|w|, put, dist) < |w| && w[Behind(|w|, put, dist)] == h[|h| - dist]
  {
    assert Unfold(0);
    if dist > put {
      assert w[put..][|w| - dist] == d[|d| - |w| + put..][|w| - dist];
    }
  }

  /** A copy that is not complete lies between the text and the text with the whole copy. */
  lemma {:induction false} PartCopied(s: seq<byte>, h: seq<byte>, dist: int, m: nat, len: nat)
    requires m <= len && h == CopyBack(s, dist, m)
    ensures s <= h <= CopyBack(s, dist, len)
  {
    CopyBackGrows(s, dist, m);
    CopyBackParts(s, dist, m, len - m);
    CopyBackGrows(h, dist, len - m);
  }

  lemma Moved(a: seq<byte>, b: seq<byte>, c: seq<byte>, n: nat)
    requires n <= |b|
    ensures (a + b[..n]) + (b[n..] + c) == a + (b + c)
  {
  }

  lemma Append(a: seq<byte>, b: seq<byte>, c: seq<byte>)
    ensures (a + b) + c == a + (b + c)
  {
  }

  /** Some answer in the list is a refusal. */
  ghost predicate Refuses(answers: seq<bool>) {
    answers != [] && (answers[0] || Refuses(answers[1..]))
  }

  datatype Status = Fine | DataError | BufError

  class Window {
    const window: array<byte>
    const wsize: nat
    var put: nat
    var left: nat
    var whave: nat
    var delivered: seq<byte>  // what out() has been given
    var refusals: seq<bool>   // whether out() will refuse, call by call
    ghost var hist: seq<byte>  // the whole output

    ghost predicate Valid()
      reads this`put, this`left, this`whave, this`delivered, this`hist, window
    {
      && window.Length == wsize && wsize > 0 && put + left == wsize
      && (whave < wsize <==> delivered == [])
      && Ring(window[..], put, delivered, hist)
    }

    constructor (wsize: nat, refusals: seq<bool>)
      requires wsize > 0
      ensures Valid() && hist == [] && delivered == [] && this.wsize == wsize && this.refusals == refusals
      ensures fresh(window)
    {
      this.wsize := wsize;
      window := new byte[wsize];
      put, left, whave, delivered, hist := 0, wsize, 0, [], [];
      this.refusals := refusals;
      new;
      RingStart(window[..]);
    }

    /** An answer of out(), or of several calls of it: it is a refusal only if one was in store. */
    ghost predicate Asked(refused: bool, before: seq<bool>)
      reads this`refusals
    {
      refused || Refuses(refusals) ==> Refuses(before)
    }

    /** What out() answers next. */
    method Out(t: seq<byte>) returns (refused: bool)
      modifies this`delivered, this`refusals
      ensures delivered == old(delivered) + t && Asked(refused, old(refusals))
    {
      delivered := delivered + t;
      refused := false;
      if refusals != [] {
        refused := refusals[0];
        refusals := refusals[1..];
      }
    }

    /** Passes the window on when it is full (ROOM). */
    method Room() returns (refused: bool)
      requires Valid()
      modifies this`put, this`left, this`whave, this`delivered, this`refusals
      ensures Valid() && left > 0 && Asked(refused, old(refusals))
    {
      refused := false;
      if left == 0 {
        RingFlush(window[..], delivered, hist);
        put, left := 0, wsize;
        whave := left;
        refused := Out(window[..]);
      }
    }

    method PutByte(c: byte)
      requires Valid() && left > 0
      modifies this`put, this`left, this`hist, window
      ensures Valid() && hist == old(hist) + [c] && left == old(left) - 1
    {
      ghost var w := window[..];
      window[put] := c;
      RingPut(w, window[..], put, delivered, hist, c);
      put, left, hist := put + 1, left - 1, hist + [c];
    }

    /** Copies one byte from dist bytes back. */
    method CopyByte(f: nat, ghost dist: nat)
      requires window.Length == wsize && put < wsize && Ring(window[..], put, delivered, hist)
      requires 1 <= dist <= wsize && dist <= |hist| && f == Behind(wsize, put, dist)
      modifies this`put, this`hist, window
      ensures put == old(put) + 1 && Ring(window[..], put, delivered, hist)
          && hist == old(hist) + [old(hist)[|old(hist)| - dist]]
    {
      RingBack(window[..], put, delivered, hist, dist);
      ghost var w := window[..];
      ghost var c := w[f];
      window[put] := window[f];
      RingPut(w, window[..], put, delivered, hist, c);
      put := put + 1;
      hist := hist + [c];
    }

    /** Copies bytes within the window, each from dist bytes back; overlapping copies repeat what they wrote. */
    method CopyBytes(from: nat, copy: nat, ghost dist: nat)
      requires window.Length == wsize && Ring(window[..], put, delivered, hist)
      requires 1 <= dist <= wsize && dist <= |hist| && put + copy <= wsize && from + copy <= wsize
          && from == Behind(wsize, put, dist)
      modifies this`put, this`hist, window
      ensures put == old(put) + copy && Ring(window[..], put, delivered, hist)
          && hist == CopyBack(old(hist), dist, copy)
    {
      var f := from;
      for k := 0 to copy
        invariant f == from + k && put == old(put) + k && Ring(window[..], put, delivered, hist)
        invariant |hist| >= |old(hist)| && hist == CopyBack(old(hist), dist, k)
      {
        CopyByte(f, dist);
        f := f + 1;
      }
    }

    /** Copies as much of a match as the window allows: up to its end, or up to the end of the bytes that wrap round. */
    method CopyPart(dist: nat, length: nat) returns (copy: nat)
      requires Valid() && left > 0 && 1 <= dist <= wsize && dist <= |hist| && length > 0
      modifies this`put, this`left, this`hist, window
      ensures Valid() && 0 < copy <= length && hist == CopyBack(old(hist), dist, copy)
    {
      copy := wsize - dist;
      var from;
      if copy < left {
        from := put + copy;
        copy := left - copy;
      } else {
        from := put - dist;
        copy := left;
      }
      if copy > length { copy := length; }
      left := left - copy;
      CopyBytes(from, copy, dist);
    }

    /** A match of the given distance and length. */
    method CopyMatch(dist: nat, length: nat) returns (refused: bool)
      requires Valid() && 1 <= dist <= wsize && dist <= |hist| && length > 0
      modifies this`put, this`left, this`whave, this`delivered, this`refusals, this`hist, window
      ensures Valid() && old(hist) <= hist <= CopyBack(old(hist), dist, length)
      ensures !refused ==> hist == CopyBack(old(hist), dist, length)
      ensures Asked(refused, old(refusals))
    {
      ghost var s := hist;
      var n := length;
      PartCopied(s, s, dist, 0, length);
      while n > 0
        invariant Valid() && Asked(false, old(refusals)) && 0 <= n <= length
        invariant s <= hist <= CopyBack(s, dist, length) && hist == CopyBack(s, dist, length - n)
      {
        refused := Room();
        if refused { return true; }
        var copy := CopyPart(dist, n);
        CopyBackParts(s, dist, length - n, copy);
        n := n - copy;
        PartCopied(s, hist, dist, length - n, length);
      }
      refused := false;
    }

    /** One literal or match. A distance is an error exactly when it goes back beyond the output or the window. */
    method Symbol(t: Token) returns (r: Status)
      requires Valid() && Codable(t)
      modifies this`put, this`left, this`whave, this`delivered, this`refusals, this`hist, window
      ensures Valid() && old(hist) <= hist <= Extend(old(hist), t)
      ensures r == DataError <==> !Near(old(hist), t, wsize)
      ensures r == Fine ==> hist == Extend(old(hist), t)
      ensures r == DataError ==> hist == old(hist)
      ensures Asked(r == BufError, old(refusals))
    {
      RingSize(window[..], put, delivered, hist);
      r := Fine;
      if t.Literal? {
        var refused := Room();
        if refused { return BufError; }
        PutByte(t.c);
      } else {
        CopyBackGrows(hist, t.dist, t.len);
        if t.dist > wsize - (if whave < wsize then left else 0) { return DataError; }
        var refused := CopyMatch(t.dist, t.len);
        if refused { return BufError; }
      }
    }

    /** Copies bytes of a stored block into the window. */
    method PutBytes(t: seq<byte>)
      requires Valid() && |t| <= left
      modifies this`put, this`left, this`hist, window
      ensures Valid() && hist == old(hist) + t
    {
      assert t[..0] == [] && hist + [] == hist;
      for k := 0 to |t|
        invariant Valid() && left == old(left) - k && hist == old(hist) + t[..k]
      {
        assert t[..k + 1] == t[..k] + [t[k]];
        PutByte(t[k]);
      }
      assert t[..|t|] == t;
    }

    /** A stored block of the given length: next is the input at hand, supply what in() will give, piece by piece; an
        empty piece means that there is no more. What has been copied comes off the front of the input. */
    method Stored(length0: nat, next0: seq<byte>, supply0: seq<seq<byte>>)
      returns (r: Status, next: seq<byte>, supply: seq<seq<byte>>, ghost copied: seq<byte>)
      requires Valid()
      modifies this`put, this`left, this`whave, this`delivered, this`refusals, this`hist, window
      ensures Valid() && hist == old(hist) + copied && copied + (next + Joined(supply)) == next0 + Joined(supply0)
      ensures r != DataError && |copied| <= length0 && (r == Fine ==> |copied| == length0)
    {
      var length := length0;
      next, supply, copied := next0, supply0, [];
      while length != 0
        invariant Valid() && 0 <= length == length0 - |copied| && hist == old(hist) + copied
        invariant copied + (next + Joined(supply)) == next0 + Joined(supply0)
        decreases length
      {
        if next == [] {
          if supply == [] || supply[0] == [] { return BufError, next, supply, copied; }
          next, supply := supply[0], supply[1..];
        }
        var refused := Room();
        if refused { return BufError, next, supply, copied; }
        var copy := if length > |next| then |next| else length;
        if copy > left { copy := left; }
        Moved(copied, next, Joined(supply), copy);
        PutBytes(next[..copy]);
        Append(old(hist), copied, next[..copy]);
        copied := copied + next[..copy];
        next := next[copy..];
        length := length - copy;
      }
      r := Fine;
    }

    /** Writes what is left in the window when the stream ends. */
    method Finish() returns (refused: bool)
      requires Valid()
      modifies this`delivered, this`refusals
      ensures delivered == hist && Asked(refused, old(refusals))
    {
      RingSize(window[..], put, delivered, hist);
      refused := false;
      if left < wsize {
        refused := Out(window[..wsize - left]);
      } else {
        assert window[..put] == [];
      }
    }
  }

  /** A whole run over the tokens of a stream. What out() is given is at all times a prefix of the text that the tokens
      stand for, and at the end all of it; the run is stopped by an error exactly at the first copy that reaches too
      far. */
  method Inflate(win: Window, tokens: seq<Token>) returns (r: Status)
    requires win.Valid() && win.hist == [] && forall k :: 0 <= k < |tokens| ==> Codable(tokens[k])
    modifies win, win.window
    ensures r == Fine ==> Coded(tokens, win.wsize) && win.delivered == Expand(tokens)
    ensures r == DataError ==> !Coded(tokens, win.wsize)
    ensures r == BufError ==> Refuses(old(win.refusals))
    ensures win.delivered <= Expand(tokens)
  {
    for k := 0 to |tokens|
      invariant win.Valid() && win.Asked(false, old(win.refusals)) && win.hist == Expand(tokens[..k])
          && Coded(tokens[..k], win.wsize)
    {
      assert tokens[..k + 1] == tokens[..k] + [tokens[k]];
      ExpandAppend(tokens[..k], tokens[k]);
      CodedAppend(tokens[..k], tokens[k], win.wsize);
      ExpandGrows(tokens, k + 1);
      r := win.Symbol(tokens[k]);
      RingSize(win.window[..], win.put, win.delivered, win.hist);
      if r == DataError {
        if Coded(tokens, win.wsize) { CodedPrefix(tokens, k + 1, win.wsize); }
        return;
      }
      if r == BufError { return; }
    }
    assert tokens[..|tokens|] == tokens;
    var refused := win.Finish();
    r := if refused then BufError else Fine;
  }

  lemma {:induction false} CodedCodable(ts: seq<Token>, reach: int, k: nat)
    requires Coded(ts, reach) && k < |ts|
    ensures Codable(ts[k])
  {
    if k < |ts| - 1 {
      CodedCodable(ts[..|ts| - 1], reach, k);
    }
  }

  /** One call of the compressor that the settings name. */
  method Call<H(!new, ==)>(deflater: Deflater<H>, cfg: Settings, more: seq<byte>, flush: bool, rounds: nat)
      returns (done: bool)
    requires deflater.Valid() && deflater.Recalls()
        && (if cfg.slow then deflater.matchLength >= 2 else !deflater.matchAvailable)
    modifies deflater, deflater.window, deflater.prev
    ensures deflater.Valid() && deflater.Recalls()
        && (if cfg.slow then deflater.matchLength >= 2 else !deflater.matchAvailable)
    ensures deflater.hist + deflater.nextIn == old(deflater.hist + deflater.nextIn) + more
    ensures rounds > |deflater.hist + deflater.nextIn| ==> done
    ensures done && flush ==> deflater.nextIn == [] && Expand(deflater.tokens) == deflater.hist && Coded(deflater.tokens, MaxDist(deflater.wSize))
    ensures old(deflater.seen) <= deflater.seen
    ensures !(done && flush)
        ==> deflater.Ran(cfg, |old(deflater.seen)|, old(deflater.Waits()), old(deflater.tokens))
    ensures done && flush ==> deflater.RanOut(cfg, |old(deflater.seen)|, old(deflater.Waits()), old(deflater.tokens))
  {
    if cfg.slow {
      done := deflater.DeflateSlow(more, flush, rounds, cfg);
    } else {
      done := deflater.DeflateFast(more, flush, rounds, cfg.lazy.effort, cfg.lazy.maxLazy, cfg);
    }
  }

  /** One call more, without a flush. */
  method CallOn<H(!new, ==)>(deflater: Deflater<H>, cfg: Settings, more: seq<byte>, rounds: nat)
    requires deflater.Valid() && deflater.Recalls()
        && (if cfg.slow then deflater.matchLength >= 2 else !deflater.matchAvailable)
    requires deflater.Ran(cfg, 0, Wait(false, 0, 2), [])
    modifies deflater, deflater.window, deflater.prev
    ensures deflater.Valid() && deflater.Recalls()
        && (if cfg.slow then deflater.matchLength >= 2 else !deflater.matchAvailable)
    ensures deflater.hist + deflater.nextIn == old(deflater.hist + deflater.nextIn) + more
    ensures deflater.Ran(cfg, 0, Wait(false, 0, 2), [])
  {
    assert Open(0);
    ghost var seen, wt, t := deflater.seen, deflater.Waits(), deflater.tokens;
    var _ := Call(deflater, cfg, more, false, rounds);
    RunKeeps(deflater.upd, deflater.h0, deflater.wSize, cfg, seen, deflater.seen, 0, |seen|, Wait(false, 0, 2), [], wt, t);
    RunJoins(deflater.upd, deflater.h0, deflater.wSize, cfg, deflater.seen, 0, |seen|, |deflater.seen|,
        Wait(false, 0, 2), [], wt, t, deflater.Waits(), deflater.tokens);
  }

  /** The tokens that either compressor makes of a text that comes in pieces, each call stopping after any number of
      rounds: they stand for the text, and every one is what the search among the strings inserted found best. */
  method Tokenize<H(!new, ==)>(wSize: nat, upd: (H, byte) -> H, h0: H, cfg: Settings, pieces: seq<seq<byte>>,
      rounds: seq<nat>) returns (tokens: seq<Token>, ghost seen: seq<Seen>)
    requires wSize >= 512 && Rolling(upd) && |rounds| == |pieces|
    ensures Expand(tokens) == Joined(pieces) && Coded(tokens, MaxDist(wSize))
    ensures Closed(upd, h0, wSize, cfg, Joined(pieces), seen, 0, |seen|, Wait(false, 0, 2), [], tokens)
  {
    var deflater := new Deflater(wSize, upd, h0);
    var size := 0;
    for k := 0 to |pieces|
      invariant deflater.Valid() && deflater.Recalls() && deflater.Ran(cfg, 0, Wait(false, 0, 2), [])
          && (if cfg.slow then deflater.matchLength >= 2 else !deflater.matchAvailable)
      invariant fresh(deflater) && fresh(deflater.window) && fresh(deflater.prev)
      invariant deflater.hist + deflater.nextIn == Joined(pieces[..k]) && size == |Joined(pieces[..k])|
    {
      assert pieces[..k + 1] == pieces[..k] + [pieces[k]];
      JoinedAppend(pieces[..k], pieces[k]);
      CallOn(deflater, cfg, pieces[k], rounds[k]);
      size := size + |pieces[k]|;
    }
    assert pieces[..|pieces|] == pieces && Joined(pieces) + [] == Joined(pieces);
    seen := deflater.seen;
    assert Open(0);
    ghost var wt, t := deflater.Waits(), deflater.tokens;
    var done := Call(deflater, cfg, [], true, size + 1);
    assert deflater.hist + [] == deflater.hist;
    tokens := deflater.tokens;
    ClosedAfter(upd, h0, wSize, cfg, deflater.hist, seen, deflater.seen, |seen|, |deflater.seen|, Wait(false, 0, 2), [], wt,
        t, tokens);
    seen := deflater.seen;
  }

  /** What deflate makes of a text, inflateBack turns back into it: for both compressors, any settings, any rolling
      hash, any
      division of the text, every window of deflate from 512 bytes on and every window of inflateBack at least as large.
      */
  method Restore<H(!new, ==)>(wSize: nat, wBack: nat, upd: (H, byte) -> H, h0: H, cfg: Settings, pieces: seq<seq<byte>>,
      rounds: seq<nat>, refusals: seq<bool>)
    returns (r: Status, out: seq<byte>)
    requires 512 <= wSize <= wBack && Rolling(upd) && |rounds| == |pieces|
    ensures r != DataError && out <= Joined(pieces)
    ensures r == Fine ==> out == Joined(pieces)
    ensures r == BufError ==> Refuses(refusals)
  {
    var tokens, _ := Tokenize(wSize, upd, h0, cfg, pieces, rounds);
    CodedFurther(tokens, MaxDist(wSize), wBack);
    forall k | 0 <= k < |tokens|
      ensures Codable(tokens[k])
    {
      CodedCodable(tokens, MaxDist(wSize), k);
    }
    var win := new Window(wBack, refusals);
    r := Inflate(win, tokens);
    out := win.delivered;
  }
}
