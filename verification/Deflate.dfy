/** LZ77 compression of deflate.c: fill_window, longest_match, deflate_fast and deflate_slow. The tokens written,
    a literal that waits, and the input not yet processed together stand for all the input read. */
module Deflate {
  import opened Common
  import opened Lz77
  import opened HashChains
  import opened MatchSearch
  import opened TokenChoice

  /** The first end bytes of the window w are the input s from base on. */
  ghost predicate Shows(w: seq<byte>, s: seq<byte>, base: int, end: int) {
    0 <= end <= |w| && base >= 0 && |s| == base + end && forall k {:trigger Unfold(k)} :: Unfold(k) ==> w[..end] == s[base..]
  }

  lemma {:induction false} ShownByte(w: seq<byte>, s: seq<byte>, base: int, end: int, i: int)
    requires Shows(w, s, base, end) && 0 <= i < end
    ensures w[i] == s[base + i]
  {
    assert Unfold(0);
    assert w[..end][i] == s[base..][i];
  }

  lemma {:induction false} ShowMore(w: seq<byte>, w': seq<byte>, s: seq<byte>, base: int, end: int, t: seq<byte>)
    requires Shows(w, s, base, end) && |w'| == |w| && end + |t| <= |w| && w'[..end] == w[..end]
        && w'[end..end + |t|] == t
    ensures Shows(w', s + t, base, end + |t|)
  {
    assert Unfold(0);
    assert w'[..end + |t|] == w'[..end] + t;
    assert (s + t)[base..] == s[base..] + t;
  }

  lemma {:induction false} ShowSlid(w: seq<byte>, w': seq<byte>, s: seq<byte>, base: int, end: int, half: nat)
    requires Shows(w, s, base, end) && |w'| == |w| && half <= end && w'[..end - half] == w[half..end]
    ensures Shows(w', s, base + half, end - half)
  {
    assert Unfold(0);
    assert w[..end][half..] == w[half..end];
    assert s[base..][half..] == s[base + half..];
  }

  /** The running hash has taken in the two bytes at p and p + 1. */
  ghost predicate Primed<H(!new)>(upd: (H, byte) -> H, h: H, s: seq<byte>, p: int) {
    0 <= p && p + 2 <= |s| && forall k {:trigger Unfold(k)} :: Unfold(k) ==> TookTwo(upd, s[p], s[p + 1], h)
  }

  ghost predicate TookTwo<H(!new)>(upd: (H, byte) -> H, a: byte, b: byte, h: H) {
    exists g: H :: Took(upd, g, a, b, h)
  }

  ghost predicate Took<H>(upd: (H, byte) -> H, g: H, a: byte, b: byte, h: H) {
    h == upd(upd(g, a), b)
  }

  /** The hash can be rolled along the input. */
  ghost predicate Rolls<H(!new)>(upd: (H, byte) -> H) {
    forall k {:trigger Unfold(k)} :: Unfold(k) ==> Rolling(upd)
  }

  lemma {:induction false} PrimedKey<H(!new)>(upd: (H, byte) -> H, h0: H, h: H, s: seq<byte>, p: int)
    requires Rolls(upd) && Primed(upd, h, s, p) && p + 3 <= |s|
    ensures upd(h, s[p + 2]) == Key(upd, h0, s, p) && Primed(upd, upd(h, s[p + 2]), s, p + 1)
  {
    assert Unfold(0);
    var g: H :| Took(upd, g, s[p], s[p + 1], h);
    KeyRolls(upd, h0, g, s, p);
    assert Took(upd, upd(g, s[p]), s[p + 1], s[p + 2], upd(h, s[p + 2]));
  }

  lemma {:induction false} PrimedMore<H(!new)>(upd: (H, byte) -> H, h: H, s: seq<byte>, t: seq<byte>, p: int)
    requires Primed(upd, h, s, p)
    ensures Primed(upd, h, s + t, p)
  {
    assert Unfold(0);
    var g: H :| Took(upd, g, s[p], s[p + 1], h);
    assert Took(upd, g, (s + t)[p], (s + t)[p + 1], h);
  }

  lemma {:induction false} PrimeStart<H(!new)>(upd: (H, byte) -> H, g: H, s: seq<byte>, p: int)
    requires 0 <= p && p + 2 <= |s|
    ensures Primed(upd, upd(upd(g, s[p]), s[p + 1]), s, p)
  {
    assert Took(upd, g, s[p], s[p + 1], upd(upd(g, s[p]), s[p + 1]));
  }

  ghost predicate Placed(size: int, strstart: int, lookahead: int, insert: int, base: int, top: int) {
    0 <= strstart && 0 <= lookahead && 0 <= insert <= strstart && strstart + lookahead <= size
        && top < base + strstart - insert
  }

  /** When there is a string to insert at p, nothing earlier is left to insert and the running hash is ready for it. */
  ghost predicate Running<H(!new)>(upd: (H, byte) -> H, h: H, s: seq<byte>, p: int, lookahead: int, insert: int) {
    lookahead >= MIN_MATCH ==> insert == 0 && Primed(upd, h, s, p)
  }

  class Deflater<H(!new, ==)> {
    const upd: (H, byte) -> H
    const h0: H
    const wSize: nat  // w_size
    const window: array<byte>
    const prev: array<int>
    var head: map<H, int>
    var insH: H
    var strstart: int
    var lookahead: int
    var insert: int
    var matchStart: int
    var nextIn: seq<byte>
    var matchLength: int
    var prevLength: int
    var prevMatch: int
    var matchAvailable: bool
    var tokens: seq<Token>
    ghost var hist: seq<byte>  // all input read
    ghost var base: int        // where the window begins in it
    ghost var ins: set<int>    // the positions inserted
    ghost var top: int         // the last of them
    ghost var pos: int         // where strstart is in it
    ghost var stop: int        // where the input in the window ends
    ghost var seen: seq<Seen> // what every round knew

    /** The window and the chains fit the input read. */
    ghost predicate Loaded()
      reads this`head, this`strstart, this`lookahead, this`insert, this`hist, this`base, this`ins, this`top, this`pos,
          this`stop, window, prev
    {
      && Fixed() && Placed(2 * wSize, strstart, lookahead, insert, base, top) && Aligned()
      && Shows(window[..], hist, base, stop)
      && Table(upd, h0, hist, base, ins, top, head, prev[..])
    }

    ghost predicate Aligned()
      reads this`strstart, this`lookahead, this`base, this`pos, this`stop
    {
      pos == base + strstart && stop == strstart + lookahead
    }

    ghost predicate Fixed() {
      Rolls(upd) && wSize >= 512 && window.Length == 2 * wSize && prev.Length == wSize
    }

    /** ... and so does the running hash. */
    ghost predicate Ready()
      reads this`head, this`insH, this`strstart, this`lookahead, this`insert, this`hist, this`base, this`ins, this`top,
          this`pos, this`stop, window, prev
    {
      Loaded() && Running(upd, insH, hist, pos, lookahead, insert)
    }

    constructor (wSize: nat, upd: (H, byte) -> H, h0: H)
      requires wSize >= 512 && Rolling(upd)
      ensures Valid() && hist == [] && tokens == [] && nextIn == [] && !matchAvailable && matchLength == 2
      ensures fresh(window) && fresh(prev) && this.wSize == wSize && this.upd == upd && this.h0 == h0
      ensures Recalls() && seen == [] && Waits() == Wait(false, 0, 2)
    {
      this.wSize, this.upd, this.h0 := wSize, upd, h0;
      window, prev := new byte[2 * wSize], new int[wSize];
      head, insH := map[], h0;
      strstart, lookahead, insert, matchStart, nextIn := 0, 0, 0, 0, [];
      matchLength, prevLength, prevMatch, matchAvailable, tokens := 2, 2, 0, false, [];
      hist, base, ins, top, pos, stop, seen := [], 0, {}, -1, 0, 0, [];
      new;
      EmptyTable(upd, h0, prev[..]);
    }

    /** Copies the upper half of the window to the lower. */
    method MoveDown(n: nat)
      requires window.Length == 2 * wSize && n <= wSize
      modifies window
      ensures window[..][..n] == old(window[..])[wSize..wSize + n]
    {
      for i := 0 to n
        invariant forall k :: 0 <= k < i ==> window[k] == old(window[k + wSize])
        invariant forall k :: wSize <= k < 2 * wSize ==> window[k] == old(window[k])
      {
        window[i] := window[i + wSize];
      }
    }

    /** slide_hash */
    method SlideHash()
      requires prev.Length == wSize
      modifies this`head, prev
      ensures head == SlidHead(old(head), wSize) && prev[..] == SlidAll(old(prev[..]))
    {
      head := SlidHead(head, wSize);
      for n := 0 to wSize
        invariant head == SlidHead(old(head), wSize)
        invariant forall k :: 0 <= k < n ==> prev[k] == Slid(old(prev[k]), wSize)
        invariant forall k :: n <= k < wSize ==> prev[k] == old(prev[k])
      {
        prev[n] := Slid(prev[n], wSize);
      }
    }

    method SlideWindow(n: nat, ghost end: int)
      requires window.Length == 2 * wSize && n <= wSize && Shows(window[..], hist, base, end) && end == wSize + n
      modifies window
      ensures Shows(window[..], hist, base + wSize, end - wSize)
    {
      ghost var w := window[..];
      MoveDown(n);
      ShowSlid(w, window[..], hist, base, end, wSize);
    }

    method SlideChains()
      requires prev.Length == wSize && Table(upd, h0, hist, base, ins, top, head, prev[..])
      modifies this`head, prev
      ensures Table(upd, h0, hist, base + wSize, ins, top, head, prev[..])
    {
      SlideKeeps(upd, h0, hist, base, ins, top, head, prev[..]);
      SlideHash();
    }

    method SlideBoth(n: nat)
      requires window.Length == 2 * wSize && n <= wSize && Shows(window[..], hist, base, stop) && stop == wSize + n
      requires prev.Length == wSize && Table(upd, h0, hist, base, ins, top, head, prev[..])
      modifies this`head, window, prev
      ensures Shows(window[..], hist, base + wSize, stop - wSize)
          && Table(upd, h0, hist, base + wSize, ins, top, head, prev[..])
    {
      SlideWindow(n, stop);
      SlideChains();
    }

    /** Makes room when the window is almost full. */
    method Slide(more: nat)
      requires Ready() && strstart >= wSize + MaxDist(wSize) && more == 2 * wSize - stop
      modifies this`head, this`strstart, this`insert, this`matchStart, this`base, this`stop, window, prev
      ensures Ready() && strstart == old(strstart) - wSize && base == old(base) + wSize
          && insert == (if old(insert) > strstart then strstart else old(insert)) && matchStart == old(matchStart) - wSize
      ensures stop == old(stop) - wSize
    {
      SlideBoth(wSize - more);
      var left := strstart - wSize;
      Rebase(left, if insert > left then left else insert);
    }

    /** All positions are now counted from one window size further on. */
    method Rebase(left: int, rest: int)
      requires Fixed() && Placed(2 * wSize, strstart, lookahead, insert, base, top) && Aligned() && left == strstart - wSize >= 0
      requires rest == if insert > left then left else insert
      requires Shows(window[..], hist, base + wSize, stop - wSize)
      requires Table(upd, h0, hist, base + wSize, ins, top, head, prev[..])
      modifies this`strstart, this`insert, this`matchStart, this`base, this`stop
      ensures Loaded() && strstart == left && insert == rest && base == old(base) + wSize && stop == old(stop) - wSize
      ensures matchStart == old(matchStart) - wSize
    {
      matchStart := matchStart - wSize;
      base, stop, strstart, insert := base + wSize, stop - wSize, left, rest;
    }

    method CopyIn(at: nat, t: seq<byte>)
      requires at + |t| <= window.Length
      modifies window
      ensures window[..][..at] == old(window[..])[..at] && window[..][at..at + |t|] == t
    {
      for i := 0 to |t|
        invariant forall k :: 0 <= k < at ==> window[k] == old(window[k])
        invariant forall k :: 0 <= k < i ==> window[at + k] == t[k]
      {
        window[at + i] := t[i];
      }
    }

    method ReadBytes(t: seq<byte>, at: nat, ghost end: nat)
      requires at == end && window.Length == 2 * wSize && Shows(window[..], hist, base, end) && end + |t| <= 2 * wSize
      modifies window
      ensures Shows(window[..], hist + t, base, end + |t|)
    {
      ghost var w := window[..];
      CopyIn(at, t);
      ShowMore(w, window[..], hist, base, end, t);
    }

    /** Reads as much input as there is room for. */
    method Read(more: nat)
      requires Ready() && more == 2 * wSize - stop
      modifies this`lookahead, this`nextIn, this`hist, this`stop, window
      ensures Loaded() && hist + nextIn == old(hist + nextIn) && old(hist) <= hist
      ensures lookahead - old(lookahead) == |hist| - |old(hist)| == |old(nextIn)| - |nextIn|
      ensures nextIn == [] || stop == 2 * wSize
      ensures old(lookahead) >= MIN_MATCH ==> Primed(upd, insH, hist, pos)
    {
      var n := if |nextIn| < more then |nextIn| else more;
      var t := nextIn[..n];
      ReadBytes(t, strstart + lookahead, stop);
      MoreInput(upd, h0, hist, t, base, ins, top, head, prev[..]);
      if lookahead >= MIN_MATCH { PrimedMore(upd, insH, hist, t, pos); }
      Divide(hist, nextIn, n);
      hist := hist + t;
      nextIn := nextIn[n..];
      lookahead, stop := lookahead + n, stop + n;
    }

    /** INSERT_STRING; returns the previous head of the chain. */
    method InsertString(str: nat, ghost p: int, ghost end: int) returns (hashHead: int)
      requires Fixed() && Shows(window[..], hist, base, end) && Table(upd, h0, hist, base, ins, top, head, prev[..])
      requires p == base + str && top < p && str + 3 <= end && Primed(upd, insH, hist, p)
      modifies this`head, this`insH, this`ins, this`top, prev
      ensures Table(upd, h0, hist, base, ins, top, head, prev[..]) && top == p && Primed(upd, insH, hist, p + 1)
      ensures Latest(upd, h0, hist, base, ins, hashHead, Key(upd, h0, hist, p), p) && ins == old(ins) + {p}
    {
      ShownByte(window[..], hist, base, end, str + 2);
      PrimedKey(upd, h0, insH, hist, p);
      insH := upd(insH, window[str + 2]);
      InsertStep(upd, h0, hist, base, ins, top, head, prev[..], str, p, insH);
      hashHead := HeadOf(head, insH);
      ghost var links := prev[..][Round(str, wSize) := hashHead];
      prev[Round(str, wSize)] := hashHead;
      assert prev[..] == links;
      head, ins, top := head[insH := str], ins + {p}, p;
    }

    /** Starts the running hash afresh at the first string left over, and inserts those that are complete. */
    method PrimeHash()
      requires Loaded()
      modifies this`head, this`insH, this`insert, this`ins, this`top, prev
      ensures Ready() && insert <= old(insert) && ins == Adding(old(ins), pos - old(insert), pos - insert)
    {
      if lookahead + insert >= MIN_MATCH {
        var str := strstart - insert;
        ShownByte(window[..], hist, base, stop, str);
        ShownByte(window[..], hist, base, stop, str + 1);
        PrimeStart(upd, h0, hist, base + str);
        insH := upd(upd(h0, window[str]), window[str + 1]);
        InsertRest(str, base + str);
      }
    }

    method InsertRest(str0: nat, ghost p0: int)
      requires Loaded() && str0 == strstart - insert && p0 == base + str0 && lookahead + insert >= MIN_MATCH
          && Primed(upd, insH, hist, p0)
      modifies this`head, this`insH, this`insert, this`ins, this`top, prev
      ensures Ready() && insert <= old(insert) && ins == Adding(old(ins), pos - old(insert), pos - insert)
    {
      var str := str0;
      ghost var p := p0;
      while insert > 0
        invariant Loaded() && str == strstart - insert && p == base + str && insert <= old(insert)
            && lookahead + insert >= MIN_MATCH
        invariant Primed(upd, insH, hist, p) && ins == Adding(old(ins), p0, p)
      {
        var _ := InsertString(str, p, stop);
        str, p := str + 1, p + 1;
        insert := insert - 1;
        if lookahead + insert < MIN_MATCH { return; }
      }
      assert p == pos;
    }

    /** Slides if the window is almost full, and reads until there is enough to look ahead to (fill_window). */
    method FillWindow()
      requires Ready() && lookahead < MIN_LOOKAHEAD
      modifies this`head, this`insH, this`strstart, this`lookahead, this`insert, this`matchStart, this`nextIn,
          this`hist, this`base, this`ins, this`top
      modifies this`stop, window, prev
      ensures Ready() && hist + nextIn == old(hist + nextIn) && old(hist) <= hist
      ensures base + matchStart == old(base + matchStart) && lookahead >= old(lookahead)
      ensures strstart < wSize + MaxDist(wSize) && (lookahead >= MIN_LOOKAHEAD || nextIn == [])
          && (strstart == old(strstart) || strstart >= 1)
      ensures ins == Adding(old(ins), pos - (if old(insert) > strstart then strstart else old(insert)), pos - insert)
    {
      var more := 2 * wSize - lookahead - strstart;
      assert more == 2 * wSize - stop;
      if strstart >= wSize + MaxDist(wSize) {
        Slide(more);
        more := more + wSize;
      }
      if nextIn != [] {
        Read(more);
        PrimeHash();
        assert lookahead >= MIN_LOOKAHEAD || nextIn == [];  // so there is no second round
      }
    }

    /** The string at strstart has just been inserted. */
    ghost predicate Inserted()
      reads this`head, this`insH, this`strstart, this`lookahead, this`insert, this`hist, this`base, this`ins, this`top,
          this`pos, this`stop, window, prev
    {
      && Fixed() && Aligned() && strstart >= 0 && lookahead >= MIN_MATCH && insert == 0 && stop <= 2 * wSize
          && strstart <= 2 * wSize - MIN_LOOKAHEAD
      && Shows(window[..], hist, base, stop)
      && Table(upd, h0, hist, base, ins, top, head, prev[..]) && top == pos
    }

    /** How far the strings at strstart and cur agree, from their fourth byte on, up to MAX_MATCH. */
    method Scan(cur: nat) returns (len: nat)
      requires window.Length == 2 * wSize && 0 <= cur < strstart <= 2 * wSize - MIN_LOOKAHEAD
      ensures 3 <= len <= MAX_MATCH && Agree(window[..], strstart, cur, len)
      ensures len == MAX_MATCH || window[strstart + len] != window[cur + len]
    {
      len := 3;
      while len < MAX_MATCH && window[strstart + len] == window[cur + len]
        invariant 3 <= len <= MAX_MATCH && Agree(window[..], strstart, cur, len)
      {
        len := len + 1;
      }
    }

    /** What the scan found is in the input, as far as there is input: the third byte needs no comparison. */
    lemma ScanMatches(cur: nat, len: nat, m: nat)
      requires Inserted() && cur < strstart && m <= len <= MAX_MATCH && m <= lookahead && base + cur + 3 <= |hist|
      requires window[cur] == window[strstart] && window[cur + 1] == window[strstart + 1]
      requires Agree(window[..], strstart, cur, len)
      requires Key(upd, h0, hist, base + cur) == Key(upd, h0, hist, pos)
      ensures Matches(hist, pos, base + cur, m)
      decreases m
    {
      if m > 0 {
        ScanMatches(cur, len, m - 1);
        if m > 3 { AgreeAt(window[..], strstart, cur, len, m - 1); }
        ghost var end := stop;
        ShownByte(window[..], hist, base, end, strstart + m - 1);
        ShownByte(window[..], hist, base, end, cur + m - 1);
        if m == 3 {
          ShownByte(window[..], hist, base, end, strstart);
          ShownByte(window[..], hist, base, end, strstart + 1);
          ShownByte(window[..], hist, base, end, cur);
          ShownByte(window[..], hist, base, end, cur + 1);
          assert Unfold(0);
          ThirdByte(upd, h0, hist, pos, base + cur);
        }
      }
    }

    /** A byte that differs ends the match. */
    lemma Differs(cur: nat, i: nat)
      requires Inserted() && cur < strstart && i < lookahead && i < MAX_MATCH && window[cur + i] != window[strstart + i]
      ensures MatchLength(hist, pos, base + cur) <= i
    {
      ShownByte(window[..], hist, base, stop, strstart + i);
      ShownByte(window[..], hist, base, stop, cur + i);
      MatchStops(hist, pos, base + cur, i);
    }

    /** What the scan found is the length of the match, as far as there is input. */
    lemma ScanLength(cur: nat, len: nat)
      requires Inserted() && cur < strstart && 3 <= len <= MAX_MATCH && base + cur + 3 <= |hist|
      requires window[cur] == window[strstart] && window[cur + 1] == window[strstart + 1]
      requires Agree(window[..], strstart, cur, len)
      requires len == MAX_MATCH || window[strstart + len] != window[cur + len]
      requires Key(upd, h0, hist, base + cur) == Key(upd, h0, hist, pos)
      ensures MatchLength(hist, pos, base + cur) == Within(len)
    {
      ScanMatches(cur, len, Within(len));
      if len < MAX_MATCH && len < lookahead {
        ShownByte(window[..], hist, base, stop, strstart + len);
        ShownByte(window[..], hist, base, stop, cur + len);
      }
      MatchStops(hist, pos, base + cur, Within(len));
    }

    /** A length, but no more than there is input. */
    function Within(len: int): (r: int)
      reads this`lookahead
    {
      if len <= lookahead then len else lookahead
    }

    /** Tries the string at cur against the best match so far. */
    method Try(cur: nat, best0: nat) returns (best: nat)
      requires Looking() && 2 <= best0 <= MAX_MATCH && 0 < cur < strstart && base + cur + 3 <= |hist|
      requires Key(upd, h0, hist, base + cur) == Key(upd, h0, hist, pos)
      modifies this`matchStart
      ensures best0 <= best <= MAX_MATCH && matchStart == if best > best0 then cur else old(matchStart)
      ensures best0 < lookahead ==> var n := MatchLength(hist, pos, base + cur);
                                    if best > best0 then n == Within(best) else n <= best0
    {
      best := best0;
      var skip := Skips(cur, best);
      if !skip {
        assert Sight(0);
        var len := Scan(cur);
        ScanLength(cur, len);
        if len > best {
          matchStart := cur;
          best := len;
        }
      }
    }

    /** Whether the match at cur cannot be longer than best, or has less than two bytes. */
    method Skips(cur: nat, best: nat) returns (skip: bool)
      requires Looking() && 2 <= best <= MAX_MATCH && 0 < cur < strstart
      ensures skip && best < lookahead ==> MatchLength(hist, pos, base + cur) <= best
      ensures strstart + 1 < window.Length
      ensures !skip ==> window[cur] == window[strstart] && window[cur + 1] == window[strstart + 1]
    {
      assert Sight(0);
      MatchLengthGreatest(hist, pos, base + cur, 0);
      skip := window[cur + best] != window[strstart + best] || window[cur + best - 1] != window[strstart + best - 1]
        || window[cur] != window[strstart] || window[cur + 1] != window[strstart + 1];
      if skip && best < lookahead {
        if window[cur] != window[strstart] {
          Differs(cur, 0);
        } else if window[cur + 1] != window[strstart + 1] {
          Differs(cur, 1);
        } else if window[cur + best - 1] != window[strstart + best - 1] {
          Differs(cur, best - 1);
        } else if best < MAX_MATCH {
          Differs(cur, best);
        }
      }
    }

    /** Follows the chain from hashHead and seen for a match longer than prevLength (longest_match). If a match that long
        is within the input at all, the result is the longest at the positions looked at. */
    method LongestMatch(hashHead: nat, prevLength: nat, effort: Effort) returns (r: nat)
      requires Looking() && 2 <= prevLength <= MAX_MATCH
      requires 0 < hashHead && strstart - hashHead <= MaxDist(wSize)
      requires Latest(upd, h0, hist, base, ins, hashHead, Key(upd, h0, hist, pos), pos)
      modifies this`matchStart
      ensures r <= lookahead && r <= MAX_MATCH && (if prevLength < lookahead then r >= prevLength else r == lookahead)
      ensures prevLength < lookahead ==> Found(upd, h0, hist, base, ins, wSize, pos, prevLength, effort, base + matchStart, r)
    {
      var cur, best := hashHead, prevLength;
      var chain: nat := if prevLength >= effort.goodMatch then effort.maxChain / 4 else effort.maxChain;
      var limit := if strstart > MaxDist(wSize) then strstart - MaxDist(wSize) else 0;
      ghost var v: seq<int> := [];
      Starts(cur, prevLength, effort);
      var more := true;
      while more
        invariant Looking() && cur >= 0 && BestYet(v, prevLength, best, effort)
        invariant more ==> Following(v, cur, prevLength, effort) && |v| + Countdown(chain) == Tries(effort, prevLength)
        invariant !more ==> Result(prevLength, effort, Within(best))
        decreases if more then 1 else 0, cur
      {
        var longer := Visit(cur, prevLength, best, effort, v);
        if longer > best {
          ghost var was := best;
          best := longer;
          var nice := if 0 <= effort.niceMatch <= lookahead then effort.niceMatch else lookahead;  // unsigned
          if best >= nice {
            EndsNice(v, cur, prevLength, effort, was, best);
            break;
          }
        }
        cur, chain, more, v := Advance(cur, limit, chain, prevLength, effort, best, v);
      }
      r := Within(best);
    }

    /** The outcome, unless a longer match is known than there is input. */
    ghost predicate Result(from: int, effort: Effort, len: int)
      reads this`lookahead, this`hist, this`base, this`ins, this`pos, this`matchStart
    {
      from < lookahead ==> Found(upd, h0, hist, base, ins, wSize, pos, from, effort, base + matchStart, len)
    }

    /** Goes on to the next position of the chain, unless it is not within reach or the counter comes to 0. */
    method Advance(cur: nat, limit: int, chain: nat, from: int, effort: Effort, ghost best: int, ghost v: seq<int>)
      returns (next: int, left: nat, more: bool, ghost v': seq<int>)
      requires Looking() && Following(v, cur, from, effort) && |v| + Countdown(chain) == Tries(effort, from)
      requires BestYet(v + [base + cur], from, best, effort) && Plain(cur, from, effort)
      requires limit == if strstart > MaxDist(wSize) then strstart - MaxDist(wSize) else 0
      ensures 0 <= next < cur
      ensures more ==> Following(v', next, from, effort) && |v'| + Countdown(left) == Tries(effort, from)
      ensures BestYet(v', from, best, effort)
      ensures !more ==> Result(from, effort, best)
    {
      Reaches(v, cur, from, effort);
      Leads(v, cur, from, effort);
      next, left, more, v' := prev[Round(cur, wSize)], chain, false, v + [base + cur];
      ToNext(cur, next, limit);
      if next > limit {
        left := if chain == 0 then 0xffff_ffff else chain - 1;  // unsigned
        more := left != 0;
      }
      if more {
        GoesOn(v, cur, next, from, effort);
      } else {
        EndsPlain(v, cur, from, effort, best);
      }
    }

    /** The next position of the chain is within reach exactly if it is beyond limit. */
    lemma ToNext(cur: int, next: int, limit: int)
      requires Latest(upd, h0, hist, base, ins, next, Key(upd, h0, hist, pos), base + cur) && pos == base + strstart
      requires limit == if strstart > MaxDist(wSize) then strstart - MaxDist(wSize) else 0
      ensures 0 <= next && (next == 0 || next < cur)
      ensures if next > limit then Step(upd, h0, hist, base, ins, wSize, pos, base + cur, base + next, false)
              else Exhausted(upd, h0, hist, base, ins, wSize, pos, base + cur, false)
    {
      StepBy(upd, h0, hist, base, ins, wSize, pos, base + cur, next, false);
    }

    /** The string at strstart has been inserted and is looked for. */
    ghost predicate Looking()
      reads this`head, this`insH, this`strstart, this`lookahead, this`insert, this`hist, this`base, this`ins, this`top,
          this`pos, this`stop, window, prev
    {
      forall k {:trigger Sight(k)} :: Sight(k) ==> Inserted()
    }

    /** What is known of the best match when the positions v have been looked at. */
    ghost predicate BestYet(v: seq<int>, from: int, best: int, effort: Effort)
      reads this`lookahead, this`hist, this`base, this`pos, this`matchStart
    {
      from <= best <= MAX_MATCH && (from < lookahead ==> best < lookahead) && forall k {:trigger Open(k)} :: Open(k) ==>
        && (best == from || best < NiceLength(effort, lookahead))
        && (from < lookahead ==> GreatestYet(hist, pos, v, from, base + matchStart, best))
    }

    /** ... and the one at cur as well, which ends the search if it is nice. */
    ghost predicate BestNow(v: seq<int>, cur: int, from: int, best0: int, best: int, effort: Effort)
      reads this`lookahead, this`hist, this`base, this`pos, this`matchStart
    {
      best0 <= best <= MAX_MATCH && forall k {:trigger Open(k)} :: Open(k) ==>
        && (from < lookahead ==> GreatestYet(hist, pos, v + [base + cur], from, base + matchStart, Within(best)))
        && (from < lookahead ==> (best > best0 && best >= NiceLength(effort, lookahead)
            <==> Nice(hist, pos, base + cur, from, effort)))
    }

    ghost predicate Plain(cur: int, from: int, effort: Effort)
      reads this`lookahead, this`hist, this`base, this`pos
    {
      forall k {:trigger Open(k)} :: Open(k) ==> (from < lookahead ==> !Nice(hist, pos, base + cur, from, effort))
    }

    method Visit(cur: nat, from: nat, best0: nat, effort: Effort, ghost v: seq<int>) returns (best: nat)
      requires Looking() && 2 <= from && Following(v, cur, from, effort) && BestYet(v, from, best0, effort)
      modifies this`matchStart
      ensures Looking() && BestNow(v, cur, from, best0, best, effort)
      ensures best == best0 || best < NiceLength(effort, lookahead)
          ==> BestYet(v + [base + cur], from, best, effort) && Plain(cur, from, effort)
    {
      assert Open(0);
      Reaches(v, cur, from, effort);
      ghost var at := base + matchStart;
      best := Try(cur, best0);
      if from < lookahead {
        Weighed(hist, pos, v, base + cur, from, effort, at, best0, base + matchStart, best, lookahead);
      }
    }

    /** The positions v have been looked at, and cur comes next. */
    ghost predicate Following(v: seq<int>, cur: int, from: int, effort: Effort)
      reads this`lookahead, this`hist, this`base, this`ins, this`pos
    {
      forall k {:trigger Open(k)} :: Open(k) ==>
        && cur > 0 && Trail(upd, h0, hist, base, ins, wSize, pos, v)
        && (from < lookahead ==> Dull(hist, pos, v, from, effort))
        && Step(upd, h0, hist, base, ins, wSize, pos, Last(v, pos), base + cur, v == [])
    }

    /** What is looked at next is a complete string before the one at strstart, with the same key. */
    lemma Reaches(v: seq<int>, cur: int, from: int, effort: Effort)
      requires Looking() && Following(v, cur, from, effort)
      ensures lookahead == |hist| - pos && MatchLength(hist, pos, base + cur) <= lookahead
      ensures 0 < cur < strstart && strstart - cur <= MaxDist(wSize) && base + cur + 3 <= |hist|
      ensures Key(upd, h0, hist, base + cur) == Key(upd, h0, hist, pos) && pos == base + strstart && prev.Length == wSize > 0
    {
      assert Sight(0) && Open(0);
      LastBefore(upd, h0, hist, base, ins, wSize, pos, v);
      NextEntry(upd, h0, hist, base, ins, top, head, prev[..], cur, Key(upd, h0, hist, pos), pos);
      MatchLengthGreatest(hist, pos, base + cur, 0);
    }

    /** Its link leads to the one before. */
    lemma Leads(v: seq<int>, cur: int, from: int, effort: Effort)
      requires Looking() && Following(v, cur, from, effort) && prev.Length == wSize > 0 && cur > 0
      ensures Latest(upd, h0, hist, base, ins, prev[..][Round(cur, wSize)], Key(upd, h0, hist, pos), base + cur)
    {
      assert Sight(0) && Open(0);
      LastBefore(upd, h0, hist, base, ins, wSize, pos, v);
      NextEntry(upd, h0, hist, base, ins, top, head, prev[..], cur, Key(upd, h0, hist, pos), pos);
    }

    lemma Starts(cur: int, from: int, effort: Effort)
      requires Looking() && 0 < cur && strstart - cur <= MaxDist(wSize) && 2 <= from <= MAX_MATCH
      requires Latest(upd, h0, hist, base, ins, cur, Key(upd, h0, hist, pos), pos)
      ensures Following([], cur, from, effort) && BestYet([], from, from, effort) && lookahead >= 0
    {
      assert Sight(0);
      StepBy(upd, h0, hist, base, ins, wSize, pos, pos, cur, true);
      GreatestNone(hist, pos, from, base + matchStart);
    }

    lemma Ends(v: seq<int>, cur: int, from: int, effort: Effort, len: int)
      requires Following(v, cur, from, effort) && |v| < Tries(effort, from)
      requires from < lookahead ==> GreatestYet(hist, pos, v + [base + cur], from, base + matchStart, len)
      requires |v| + 1 == Tries(effort, from) || Exhausted(upd, h0, hist, base, ins, wSize, pos, base + cur, false)
          || (from < lookahead ==> Nice(hist, pos, base + cur, from, effort))
      ensures Result(from, effort, len)
    {
      assert Open(0);
      if from < lookahead {
        SearchEnds(upd, h0, hist, base, ins, wSize, pos, from, effort, v, base + cur, base + matchStart, len);
      }
    }

    lemma EndsPlain(v: seq<int>, cur: int, from: int, effort: Effort, best: int)
      requires Following(v, cur, from, effort) && |v| < Tries(effort, from)
      requires BestYet(v + [base + cur], from, best, effort)
      requires |v| + 1 == Tries(effort, from) || Exhausted(upd, h0, hist, base, ins, wSize, pos, base + cur, false)
      ensures Result(from, effort, best)
    {
      assert Open(0);
      Ends(v, cur, from, effort, best);
    }

    lemma EndsNice(v: seq<int>, cur: int, from: int, effort: Effort, was: int, best: int)
      requires Following(v, cur, from, effort) && |v| < Tries(effort, from)
      requires BestNow(v, cur, from, was, best, effort) && best > was && best >= NiceLength(effort, lookahead)
      ensures Result(from, effort, Within(best))
    {
      assert Open(0);
      Ends(v, cur, from, effort, Within(best));
    }

    lemma GoesOn(v: seq<int>, cur: int, next: int, from: int, effort: Effort)
      requires Following(v, cur, from, effort) && next > 0
      requires Plain(cur, from, effort)
      requires Step(upd, h0, hist, base, ins, wSize, pos, base + cur, base + next, false)
      ensures Following(v + [base + cur], next, from, effort)
    {
      assert Open(0);
      TrailMore(upd, h0, hist, base, ins, wSize, pos, v, base + cur);
      if from < lookahead { DullMore(hist, pos, v, base + cur, from, effort); }
    }

    /** Where the next token begins: one byte back, if a literal or a match waits there. */
    ghost function Done(): (p: int)
      reads this`pos, this`matchAvailable
    {
      pos - (if matchAvailable then 1 else 0)
    }

    /** Between two turns: the tokens stand for all input before Done(), and a match that waits there is a match. */
    ghost predicate Valid()
      reads this, window, prev
    {
      Ready() && Stands(wSize, tokens, hist, Done()) && Waiting(wSize, hist, Done(), base + matchStart, matchLength,
          matchAvailable, strstart)
    }

    /** The strings looked for so far are inserted. */
    ghost predicate Recalls()
      reads this`hist, this`ins, this`seen
    {
      Recalled(seen, ins, hist)
    }

    /** Fills the window if there is too little to look ahead to. */
    method Refill()
      requires Valid() && lookahead < MIN_LOOKAHEAD && Recalls()
      modifies this`head, this`insH, this`strstart, this`lookahead, this`insert, this`matchStart, this`nextIn,
          this`hist, this`base, this`ins, this`top
      modifies this`stop, window, prev
      ensures Valid() && Recalls() && hist + nextIn == old(hist + nextIn) && old(hist) <= hist
      ensures strstart <= 2 * wSize - MIN_LOOKAHEAD && (lookahead >= MIN_LOOKAHEAD || nextIn == [])
      ensures lookahead >= old(lookahead) && base + matchStart == old(base + matchStart)
    {
      ghost var s, p, q := hist, Done(), base + matchStart;
      ghost var was := ins;
      FillWindow();
      AddingMore(was, pos - (if old(insert) > strstart then strstart else old(insert)), pos - insert);
      RecalledOn(seen, was, ins, s, hist);
      StandsOn(wSize, tokens, s, hist, p);
      WaitingOn(wSize, s, hist, p, q, matchLength, matchAvailable, strstart);
    }

    /** Fills the window if need be; whether there is something to go on with. */
    method Prepare(flush: bool) returns (more: bool)
      requires Valid() && Recalls()
      modifies this`head, this`insH, this`strstart, this`lookahead, this`insert, this`matchStart, this`nextIn,
          this`hist, this`base, this`ins, this`top
      modifies this`stop, window, prev
      ensures Valid() && Recalls() && hist + nextIn == old(hist + nextIn) && old(hist) <= hist && Waits() == old(Waits())
      ensures more ==> lookahead > 0 && strstart <= 2 * wSize - MIN_LOOKAHEAD
      ensures !more ==> nextIn == [] && lookahead < MIN_LOOKAHEAD && (flush ==> lookahead == 0)
    {
      if lookahead < MIN_LOOKAHEAD {
        Refill();
        if lookahead < MIN_LOOKAHEAD && !flush { return false; }
        if lookahead == 0 { return false; }
      }
      more := true;
    }

    /** Inserts the string at strstart, if there are enough bytes for it. */
    method InsertHere() returns (hashHead: int)
      requires Ready() && strstart <= 2 * wSize - MIN_LOOKAHEAD
      modifies this`head, this`insH, this`ins, this`top, prev
      ensures AtString() && (lookahead >= MIN_MATCH ==> Inserted())
      ensures lookahead >= MIN_MATCH ==> Latest(upd, h0, hist, base, ins, hashHead, Key(upd, h0, hist, pos), pos)
      ensures lookahead < MIN_MATCH ==> hashHead == 0
      ensures ins == Adding(old(ins), pos, Complete(hist, pos + 1))
    {
      hashHead := 0;
      if lookahead >= MIN_MATCH {
        hashHead := InsertString(strstart, pos, stop);
      }
    }

    /** The string at strstart has been inserted, if there are enough bytes for it. */
    ghost predicate AtString()
      reads this`head, this`insH, this`strstart, this`lookahead, this`insert, this`hist, this`base, this`ins, this`top,
          this`pos, this`stop, window, prev
    {
      forall k {:trigger Unfold(k)} :: Unfold(k) ==> (if lookahead >= MIN_MATCH then Inserted()
          && Primed(upd, insH, hist, pos + 1) else Ready())
    }

    /** Inserts the string at strstart and, if asked to, seen for a match longer than from. */
    method Find(from: nat, look: bool, effort: Effort) returns (looked: bool, len: int)
      requires Ready() && strstart <= 2 * wSize - MIN_LOOKAHEAD && 2 <= from <= MAX_MATCH
      modifies this`head, this`insH, this`ins, this`top, this`matchStart, prev
      ensures AtString() && (looked ==> lookahead >= MIN_MATCH && 2 <= len <= lookahead && len <= MAX_MATCH)
      ensures looked && len > from ==> Pair(wSize, hist, pos, base + matchStart, len)
      ensures looked ==> look && (from >= lookahead ==> len == lookahead)
      ensures lookahead >= MIN_MATCH && look && from < lookahead ==>
                Found(upd, h0, hist, base, old(ins), wSize, pos, from, effort, base + matchStart, if looked then len else from)
      ensures ins == Adding(old(ins), pos, Complete(hist, pos + 1))
      ensures !looked ==> matchStart == old(matchStart)
    {
      var hashHead := InsertHere();
      looked, len := false, 2;
      if hashHead != 0 && look && strstart - hashHead <= MaxDist(wSize) {
        len := Search(hashHead, from, effort);
        looked := true;
      } else if lookahead >= MIN_MATCH && look {
        NoneHere(hashHead, from, effort);
      }
      SameAdding(old(ins), pos, Complete(hist, pos + 1), pos);
      if lookahead >= MIN_MATCH && look && from < lookahead {
        FoundSame(upd, h0, hist, base, ins, old(ins), wSize, pos, from, effort, base + matchStart, if looked then len else from);
      }
    }

    /** There is no earlier position with the key of the one at strstart within reach. */
    lemma NoneHere(hashHead: int, from: int, effort: Effort)
      requires AtString() && lookahead >= MIN_MATCH
      requires Latest(upd, h0, hist, base, ins, hashHead, Key(upd, h0, hist, pos), pos)
      requires hashHead == 0 || strstart - hashHead > MaxDist(wSize)
      ensures Found(upd, h0, hist, base, ins, wSize, pos, from, effort, base + matchStart, from)
    {
      assert Unfold(0);
      StepBy(upd, h0, hist, base, ins, wSize, pos, pos, hashHead, true);
      NothingThere(upd, h0, hist, base, ins, wSize, pos, from, effort, base + matchStart);
    }

    lemma AtLooking()
      requires AtString() && lookahead >= MIN_MATCH
      ensures Looking() && 0 <= base && lookahead == |hist| - pos
    {
      assert Unfold(0);
    }

    method Search(hashHead: nat, from: nat, effort: Effort) returns (len: nat)
      requires AtString() && lookahead >= MIN_MATCH && 2 <= from <= MAX_MATCH
      requires 0 < hashHead && strstart - hashHead <= MaxDist(wSize)
      requires Latest(upd, h0, hist, base, ins, hashHead, Key(upd, h0, hist, pos), pos)
      modifies this`matchStart
      ensures AtString() && 2 <= len <= lookahead && len <= MAX_MATCH && (from >= lookahead ==> len == lookahead)
      ensures from < lookahead ==> Found(upd, h0, hist, base, ins, wSize, pos, from, effort, base + matchStart, len)
      ensures len > from ==> Pair(wSize, hist, pos, base + matchStart, len)
    {
      AtLooking();
      len := LongestMatch(hashHead, from, effort);
      if len > from {
        FoundPair(upd, h0, hist, base, ins, wSize, pos, from, effort, base + matchStart, len);
      }
    }

    /** The state when the bytes up to strstart are dealt with and the string at strstart - 1 may have been inserted. */
    ghost predicate Passed(end: int)
      reads this`head, this`insH, this`strstart, this`insert, this`hist, this`base, this`ins, this`top, this`pos,
          window, prev
    {
      && Fixed() && pos == base + strstart && 0 <= strstart <= end <= 2 * wSize && 0 <= insert <= strstart
          && top < pos - insert
      && Shows(window[..], hist, base, end) && Table(upd, h0, hist, base, ins, top, head, prev[..])
      && (end - strstart >= MIN_MATCH ==> insert == 0 && Primed(upd, insH, hist, pos))
    }

    /** A literal is written and the window moves on by one byte. */
    method PassOne()
      requires lookahead > 0 && AtString()
      modifies this`strstart, this`pos, this`lookahead
      ensures Ready() && strstart == old(strstart) + 1 >= 1 && lookahead == old(lookahead) - 1 && pos == old(pos) + 1
    {
      assert Unfold(0);
      strstart, pos := strstart + 1, pos + 1;
      lookahead := lookahead - 1;
    }

    /** Inserts the strings inside a match of n more bytes, as far as they are complete, and moves past it. */
    method PassMatch(n: nat, last: int, ghost end: int)
      requires Fixed() && pos == base + strstart && 0 <= strstart && strstart + n < end <= 2 * wSize
          && insert <= strstart && 0 <= insert && last == end - MIN_MATCH
      requires Shows(window[..], hist, base, end) && Table(upd, h0, hist, base, ins, top, head, prev[..])
      requires strstart <= last ==> insert == 0 && top == pos && Primed(upd, insH, hist, pos + 1)
      requires strstart > last ==> top < pos - insert
      modifies this`head, this`insH, this`strstart, this`pos, this`ins, this`top, prev
      ensures Passed(end) && strstart == old(strstart) + n + 1
      ensures ins == Adding(old(ins), old(pos) + 1, Complete(hist, pos))
    {
      ghost var from := pos + 1;
      var left := n;
      while left > 0
        invariant 0 <= left <= n && strstart == old(strstart) + n - left && pos == base + strstart
        invariant Table(upd, h0, hist, base, ins, top, head, prev[..]) && Behind(last)
        invariant ins == Adding(old(ins), from, Complete(hist, pos + 1))
      {
        PassString(last, from, old(ins), end);
        left := left - 1;
      }
      strstart, pos := strstart + 1, pos + 1;
    }

    /** Up to strstart all strings are inserted, as far as they are complete. */
    ghost predicate Behind(last: int)
      reads this`insH, this`strstart, this`insert, this`hist, this`top, this`pos
    {
      if strstart <= last then insert == 0 && top == pos && Primed(upd, insH, hist, pos + 1)
      else top < pos - insert || (top < pos && insert == 0)
    }

    /** Goes on by one byte and inserts the string there. */
    method PassString(last: int, ghost from: int, ghost was: set<int>, ghost end: int)
      requires Fixed() && Shows(window[..], hist, base, end) && Table(upd, h0, hist, base, ins, top, head, prev[..])
      requires pos == base + strstart && 0 <= strstart && strstart + 1 < end && last == end - MIN_MATCH && Behind(last)
      requires ins == Adding(was, from, Complete(hist, pos + 1)) && from <= pos + 1
      modifies this`head, this`insH, this`strstart, this`pos, this`ins, this`top, prev
      ensures strstart == old(strstart) + 1 && pos == old(pos) + 1
      ensures Table(upd, h0, hist, base, ins, top, head, prev[..]) && Behind(last)
      ensures ins == Adding(was, from, Complete(hist, pos + 1))
    {
      strstart, pos := strstart + 1, pos + 1;
      if strstart <= last {
        var _ := InsertString(strstart, pos, end);
      }
    }

    /** Moves past a match without inserting its strings. */
    method SkipMatch(n: nat, ghost end: int)
      requires Fixed() && Shows(window[..], hist, base, end) && Table(upd, h0, hist, base, ins, top, head, prev[..])
      requires pos == base + strstart && insert == 0 && top == pos && 0 <= strstart && 0 < n
          && strstart + n <= end <= 2 * wSize && strstart + n + 2 <= 2 * wSize
      modifies this`insH, this`strstart, this`pos
      ensures Passed(end) && strstart == old(strstart) + n
    {
      strstart, pos := strstart + n, pos + n;
      insH := upd(upd(h0, window[strstart]), window[strstart + 1]);
      if end - strstart >= MIN_MATCH {
        ShownByte(window[..], hist, base, end, strstart);
        ShownByte(window[..], hist, base, end, strstart + 1);
        PrimeStart(upd, h0, hist, pos);
      }
    }

    /** Moves past a match of len bytes; inserts its strings only if it is short. */
    method MovePast(len: nat, maxInsert: int)
      requires AtString() && MIN_MATCH <= len <= lookahead && len <= MAX_MATCH
      modifies this`head, this`insH, this`strstart, this`pos, this`lookahead, this`ins, this`top, prev
      ensures Ready() && lookahead == old(lookahead) - len && strstart == old(strstart) + len && pos == old(pos) + len
      ensures ins == if len <= maxInsert && |hist| - pos >= MIN_MATCH then Adding(old(ins), old(pos) + 1, pos) else old(ins)
    {
      assert Unfold(0);
      var last := strstart + lookahead - MIN_MATCH;
      lookahead := lookahead - len;
      if len <= maxInsert && lookahead >= MIN_MATCH {
        PassMatch(len - 1, last, stop);
      } else {
        SkipMatch(len, stop);
      }
    }

    lemma Here()
      requires AtString()
      ensures pos == base + strstart && lookahead == |hist| - pos
    {
      assert Unfold(0);
    }

    /** deflate_fast: the match found becomes a token. */
    method FastCopy(maxInsert: int)
      requires AtString() && !matchAvailable && Stands(wSize, tokens, hist, pos)
      requires MIN_MATCH <= matchLength <= lookahead && Pair(wSize, hist, pos, base + matchStart, matchLength)
      modifies this`head, this`insH, this`strstart, this`pos, this`lookahead, this`matchLength, this`tokens, this`ins,
          this`top, prev
      ensures Valid() && strstart > old(strstart) && pos == old(pos) + old(matchLength)
      ensures tokens == old(tokens + [TokenFor(hist, pos, base + matchStart, matchLength)])
      ensures ins == if pos - old(pos) <= maxInsert && |hist| - pos >= MIN_MATCH then Adding(old(ins), old(pos) + 1, pos)
                     else old(ins)
    {
      var dist := strstart - matchStart;
      Here();
      StandsCopy(wSize, tokens, hist, pos, base + matchStart, dist, matchLength);
      tokens := tokens + [Copy(dist, matchLength)];
      MovePast(matchLength, maxInsert);
      matchLength := 0;
    }

    /** The byte at strstart becomes a literal. */
    method PutLiteral()
      requires lookahead > 0 && AtString() && Stands(wSize, tokens, hist, pos)
      modifies this`strstart, this`pos, this`lookahead, this`tokens
      ensures Ready() && strstart == old(strstart) + 1 && Stands(wSize, tokens, hist, pos)
      ensures pos == old(pos) + 1 && tokens == old(tokens) + [LiteralAt(hist, old(pos))]
    {
      assert Unfold(0);
      ShownByte(window[..], hist, base, stop, strstart);
      StandsLiteral(wSize, tokens, hist, pos, window[strstart]);
      tokens := tokens + [Literal(window[strstart])];
      PassOne();
    }

    /** deflate_fast: one round of its loop. */
    method FastTurn(flush: bool, effort: Effort, maxInsert: int, ghost cfg: Settings) returns (more: bool)
      requires Valid() && !matchAvailable && Recalls() && !cfg.slow && cfg.lazy.effort == effort
      modifies this, window, prev
      ensures Valid() && !matchAvailable && hist + nextIn == old(hist + nextIn) && old(hist) <= hist
      ensures !more ==> nextIn == [] && lookahead < MIN_LOOKAHEAD && (flush ==> lookahead == 0)
      ensures !more ==> tokens == old(tokens) && seen == old(seen) && Waits() == old(Waits())
      ensures more ==> pos > old(pos) && Noted(old(seen), old(pos))
      ensures more ==> seen != [] && Moves(upd, h0, wSize, cfg, old(seen), seen[|seen| - 1], old(Waits()), old(tokens), Waits(), tokens)
      ensures Recalls()
    {
      more := Prepare(flush);
      if !more { return; }
      FastMove(effort, maxInsert, cfg);
    }

    /** One round more has been made at p. */
    ghost predicate Noted(was: seq<Seen>, p: int)
      reads this`hist, this`base, this`ins, this`seen
    {
      seen == was + [Seen(hist, base, ins, p)]
    }

    /** ... and what it knew is noted. */
    method FastMove(effort: Effort, maxInsert: int, ghost cfg: Settings)
      requires Valid() && !matchAvailable && lookahead > 0 && strstart <= 2 * wSize - MIN_LOOKAHEAD
      requires Recalls() && !cfg.slow && cfg.lazy.effort == effort
      modifies this`head, this`insH, this`strstart, this`pos, this`lookahead, this`matchStart, this`matchLength,
          this`tokens, this`ins, this`top, this`seen, prev
      ensures Valid() && !matchAvailable && pos > old(pos) && Recalls() && Noted(old(seen), old(pos))
      ensures Moves(upd, h0, wSize, cfg, old(seen), seen[|seen| - 1], old(Waits()), old(tokens), Waits(), tokens)
    {
      ghost var was, ts, p, before := Waits(), tokens, pos, ins;
      StandsLength(wSize, tokens, hist, pos);
      FastStep(effort, maxInsert);
      ghost var l := Seen(hist, base, ins, p);
      FastMoves(upd, h0, wSize, cfg, seen, before, l, Dense(p, maxInsert), was, ts, Waits(), tokens);
      seen := seen + [l];
    }

    method FastLook(effort: Effort)
      requires Ready() && strstart <= 2 * wSize - MIN_LOOKAHEAD && 0 <= matchLength < MIN_MATCH
      modifies this`head, this`insH, this`ins, this`top, this`matchStart, this`matchLength, prev
      ensures AtString() && 0 <= matchLength <= MAX_MATCH
      ensures matchLength >= MIN_MATCH ==> matchLength <= lookahead && Pair(wSize, hist, pos, base + matchStart, matchLength)
      ensures FastToken(upd, h0, hist, base, old(ins), wSize, pos, effort, TokenFor(hist, pos, base + matchStart, matchLength))
      ensures ins == Adding(old(ins), pos, Complete(hist, pos + 1))
    {
      var looked, len := Find(2, true, effort);
      if looked { matchLength := len; }
      Here();
      FastFound(upd, h0, hist, base, old(ins), wSize, pos, effort, base + matchStart, matchLength);
    }

    method FastStep(effort: Effort, maxInsert: int)
      requires Valid() && !matchAvailable && lookahead > 0 && strstart <= 2 * wSize - MIN_LOOKAHEAD
      modifies this`head, this`insH, this`strstart, this`pos, this`lookahead, this`matchStart, this`matchLength,
          this`tokens, this`ins, this`top, prev
      ensures Valid() && !matchAvailable && strstart > old(strstart) && pos > old(pos)
      ensures FastAdds(upd, h0, hist, base, old(ins), wSize, old(pos), effort, old(tokens), tokens)
      ensures ins == Adding(old(ins), old(pos), Dense(old(pos), maxInsert))
    {
      FastLook(effort);
      ghost var t := TokenFor(hist, pos, base + matchStart, matchLength);
      assert FastToken(upd, h0, hist, base, old(ins), wSize, pos, effort, t);
      FastPut(maxInsert);
      DenseAdds(old(ins), old(pos), maxInsert);
    }

    /** Writes the match found, or a literal. */
    method FastPut(maxInsert: int)
      requires AtString() && lookahead > 0 && !matchAvailable && Stands(wSize, tokens, hist, pos)
      requires 0 <= matchLength <= MAX_MATCH && (matchLength >= MIN_MATCH
          ==> matchLength <= lookahead && Pair(wSize, hist, pos, base + matchStart, matchLength))
      modifies this`head, this`insH, this`strstart, this`pos, this`lookahead, this`matchLength, this`tokens, this`ins,
          this`top, prev
      ensures Valid() && strstart > old(strstart) && pos > old(pos)
      ensures tokens == old(tokens + [TokenFor(hist, pos, base + matchStart, matchLength)])
      ensures if pos > old(pos) + 1 && pos - old(pos) <= maxInsert && |hist| - pos >= MIN_MATCH
              then ins == Adding(old(ins), old(pos) + 1, pos) else ins == old(ins)
    {
      if matchLength >= MIN_MATCH {
        FastCopy(maxInsert);
      } else {
        PutLiteral();
      }
    }

    /** The strings of a token that began at p are inserted only if there are few of them and all are complete; the first
        one is always inserted, if it is complete. */
    ghost function Dense(p: int, maxInsert: int): (r: int)
      reads this`hist, this`pos
    {
      if pos - p <= maxInsert && |hist| - pos >= MIN_MATCH then pos else Complete(hist, p + 1)
    }

    lemma DenseAdds(was: set<int>, p: int, maxInsert: int)
      requires p < pos
      ensures pos - p <= maxInsert && |hist| - pos >= MIN_MATCH
          ==> Adding(Adding(was, p, Complete(hist, p + 1)), p + 1, pos) == Adding(was, p, Dense(p, maxInsert))
      ensures pos == p + 1 ==> Adding(was, p, Dense(p, maxInsert)) == Adding(was, p, Complete(hist, p + 1))
    {
      AddingOn(hist, was, p, pos);
    }

    /** Moves past a match of len bytes that began one byte back. */
    method MovePastWaiting(len: nat)
      requires AtString() && MIN_MATCH <= len <= lookahead + 1 && 0 <= strstart
      modifies this`head, this`insH, this`strstart, this`pos, this`lookahead, this`ins, this`top, prev
      ensures Ready() && strstart == old(strstart) + len - 1 && pos == old(pos) + len - 1
      ensures ins == Adding(old(ins), old(pos) + 1, Complete(hist, pos))
    {
      assert Unfold(0);
      var last := strstart + lookahead - MIN_MATCH;
      lookahead := lookahead - (len - 1);
      PassMatch(len - 2, last, stop);
    }

    /** deflate_slow: the match that waited becomes a token; the strings inside it are inserted. */
    method SlowCopy()
      requires AtString() && 1 <= strstart && Stands(wSize, tokens, hist, pos - 1)
      requires MIN_MATCH <= prevLength <= lookahead + 1 && Pair(wSize, hist, pos - 1, base + prevMatch, prevLength)
      modifies this`head, this`insH, this`strstart, this`pos, this`lookahead, this`tokens, this`ins, this`top, prev
      ensures Ready() && strstart == old(strstart) + prevLength - 1 && Stands(wSize, tokens, hist, pos)
      ensures pos == old(pos) + prevLength - 1 && ins == Adding(old(ins), old(pos) + 1, Complete(hist, pos))
      ensures tokens == old(tokens) + [WaitingCopy(old(pos), base + prevMatch, prevLength)]
    {
      ghost var after := pos - 1 + prevLength;
      PutWaitingMatch();
      MovePastWaiting(prevLength);
      StandsThere(wSize, tokens, hist, after, pos);
    }

    method PutWaitingMatch()
      requires AtString() && Stands(wSize, tokens, hist, pos - 1) && prevLength >= MIN_MATCH
      requires Pair(wSize, hist, pos - 1, base + prevMatch, prevLength)
      modifies this`tokens
      ensures Stands(wSize, tokens, hist, pos - 1 + prevLength)
      ensures tokens == old(tokens) + [WaitingCopy(pos, base + prevMatch, prevLength)]
    {
      Here();
      PutMatch(pos - 1, base + prevMatch, strstart - 1 - prevMatch, prevLength);
    }

    /** The token of a match at p, where a match waited, with the text at q. */
    method PutMatch(ghost p: int, ghost q: int, dist: int, len: int)
      requires AtString() && p == pos - 1 && dist == strstart - 1 - (q - base)
      requires Stands(wSize, tokens, hist, p) && Pair(wSize, hist, p, q, len) && len >= MIN_MATCH
      modifies this`tokens
      ensures Stands(wSize, tokens, hist, p + len) && tokens == old(tokens) + [Copy(dist, len)]
    {
      Here();
      StandsCopy(wSize, tokens, hist, p, q, dist, len);
      tokens := tokens + [Copy(dist, len)];
    }

    /** The byte before strstart becomes a literal. */
    method PutWaiting()
      requires 1 <= strstart && AtString() && Stands(wSize, tokens, hist, pos - 1)
      modifies this`tokens
      ensures Stands(wSize, tokens, hist, pos) && tokens == old(tokens) + [LiteralAt(hist, pos - 1)]
    {
      assert Unfold(0);
      ShownByte(window[..], hist, base, stop, strstart - 1);
      StandsLiteral(wSize, tokens, hist, pos - 1, window[strstart - 1]);
      tokens := tokens + [Literal(window[strstart - 1])];
    }

    /** The match that waited is the better one. */
    method TakeWaiting()
      requires AtString() && lookahead > 0 && matchAvailable && Stands(wSize, tokens, hist, pos - 1)
      requires 1 <= strstart && prevLength >= MIN_MATCH && Pair(wSize, hist, pos - 1, base + prevMatch, prevLength)
      modifies this`head, this`insH, this`strstart, this`pos, this`lookahead, this`matchLength, this`matchAvailable,
          this`tokens, this`ins, this`top, prev
      ensures Valid() && matchLength == 2 && strstart > old(strstart)
      ensures !matchAvailable && pos == old(pos) + prevLength - 1 && ins == Adding(old(ins), old(pos) + 1, Complete(hist, pos))
      ensures tokens == old(tokens) + [WaitingCopy(old(pos), base + prevMatch, prevLength)]
    {
      PairEnds(prevLength);
      SlowCopy();
      matchAvailable := false;
      matchLength := MIN_MATCH - 1;
    }

    lemma PairEnds(len: int)
      requires AtString() && Pair(wSize, hist, pos - 1, base + prevMatch, len)
      ensures len <= lookahead + 1
    {
      assert Unfold(0);
    }

    /** What waited can only be a literal; the string at strstart waits now. */
    method KeepWaiting()
      requires AtString() && lookahead > 0 && Stands(wSize, tokens, hist, Done()) && (matchAvailable ==> strstart >= 1)
      requires 2 <= matchLength <= MAX_MATCH && (matchLength >= MIN_MATCH
          ==> Pair(wSize, hist, pos, base + matchStart, matchLength))
      modifies this`strstart, this`pos, this`lookahead, this`matchAvailable, this`tokens
      ensures Valid() && strstart > old(strstart) && matchAvailable && pos == old(pos) + 1
      ensures tokens == if old(matchAvailable) then old(tokens) + [LiteralAt(hist, old(pos) - 1)] else old(tokens)
    {
      if matchAvailable { PutWaiting(); }
      WaitHere();
    }

    method WaitHere()
      requires AtString() && lookahead > 0 && Stands(wSize, tokens, hist, pos) && 2 <= matchLength <= MAX_MATCH
      requires matchLength >= MIN_MATCH ==> Pair(wSize, hist, pos, base + matchStart, matchLength)
      modifies this`strstart, this`pos, this`lookahead, this`matchAvailable
      ensures Valid() && strstart > old(strstart) && matchAvailable && pos == old(pos) + 1
    {
      ghost var p := pos;
      PassOne();
      matchAvailable := true;
      StandsThere(wSize, tokens, hist, p, Done());
      WaitsThere(wSize, hist, p, Done(), base + matchStart, matchLength, strstart);
    }

    /** Looks for a match longer than the one that waits, and drops short ones that are too far away. */
    method Look(effort: Effort, maxLazy: int, tooFar: int, filtered: bool)
      requires Ready() && 2 <= matchLength <= MAX_MATCH && strstart <= 2 * wSize - MIN_LOOKAHEAD
      modifies this`head, this`insH, this`matchStart, this`matchLength, this`prevLength, this`prevMatch, this`ins,
          this`top, prev
      ensures AtString() && prevLength == old(matchLength) && prevMatch == old(matchStart)
          && 2 <= matchLength <= MAX_MATCH
      ensures matchLength > prevLength && matchLength >= MIN_MATCH
          ==> Pair(wSize, hist, pos, base + matchStart, matchLength)
      ensures Chosen(upd, h0, hist, base, old(ins), wSize, pos, prevLength, Lazy(effort, maxLazy, tooFar, filtered),
                base + matchStart, if matchLength > prevLength then matchLength else 2)
      ensures ins == Adding(old(ins), pos, Complete(hist, pos + 1))
    {
      prevLength, prevMatch := matchLength, matchStart;
      var looked, len := Find(prevLength, prevLength < maxLazy, effort);
      Settle(looked, len, Lazy(effort, maxLazy, tooFar, filtered), old(ins));
    }

    /** Drops a match that is short and not worth a copy. */
    method Settle(looked: bool, len: int, cfg: Lazy, ghost was: set<int>)
      requires AtString() && prevLength >= 2
      requires looked ==> prevLength < cfg.maxLazy && MIN_MATCH <= lookahead && 2 <= len <= lookahead && len <= MAX_MATCH
      requires looked && prevLength >= lookahead ==> len == lookahead
      requires lookahead >= MIN_MATCH && prevLength < cfg.maxLazy && prevLength < lookahead ==>
                Found(upd, h0, hist, base, was, wSize, pos, prevLength, cfg.effort, base + matchStart, if looked then len else prevLength)
      modifies this`matchLength
      ensures 2 <= matchLength <= MAX_MATCH && (matchLength > prevLength ==> looked && matchLength == len)
      ensures Chosen(upd, h0, hist, base, was, wSize, pos, prevLength, cfg, base + matchStart,
                if matchLength > prevLength then matchLength else 2)
    {
      matchLength := if !looked || Poor(cfg, len, strstart - matchStart) then MIN_MATCH - 1 else len;
      Here();
      ghost var n := if looked then len else prevLength;
      ChosenBy(upd, h0, hist, base, was, wSize, pos, prevLength, cfg, base + matchStart, n, matchLength);
    }

    /** What waited is written, or what has been found waits from now on. */
    method Decide(ghost was: Wait)
      requires AtString() && lookahead > 0 && 2 <= matchLength <= MAX_MATCH && prevLength == was.len >= 2
          && base + prevMatch == was.at && matchAvailable == was.available
      requires Stands(wSize, tokens, hist, Done())
          && Waiting(wSize, hist, Done(), base + prevMatch, prevLength, matchAvailable, strstart)
      requires matchLength > prevLength && matchLength >= MIN_MATCH
          ==> Pair(wSize, hist, pos, base + matchStart, matchLength)
      modifies this`head, this`insH, this`strstart, this`pos, this`lookahead, this`matchLength, this`matchAvailable,
          this`tokens, this`ins, this`top, prev
      ensures Valid() && matchLength >= 2 && strstart > old(strstart) && pos > old(pos)
      ensures SlowMove(hist, old(pos), was, old(tokens), old(base + matchStart),
                old(if matchLength > prevLength then matchLength else 2), Waits(), tokens)
      ensures ins == if pos > old(pos) + 1 then Adding(old(ins), old(pos) + 1, Complete(hist, pos)) else old(ins)
    {
      if prevLength >= MIN_MATCH && matchLength <= prevLength {
        TakeWaiting();
      } else {
        KeepWaiting();
      }
    }

    method SlowStep(effort: Effort, maxLazy: int, tooFar: int, filtered: bool)
      requires Valid() && matchLength >= 2 && lookahead > 0 && strstart <= 2 * wSize - MIN_LOOKAHEAD
      modifies this`head, this`insH, this`strstart, this`pos, this`lookahead, this`matchStart, this`matchLength,
          this`prevLength, this`prevMatch
      modifies this`matchAvailable, this`tokens, this`ins, this`top, prev
      ensures Valid() && matchLength >= 2 && strstart > old(strstart) && pos > old(pos)
      ensures SlowMoves(upd, h0, hist, base, old(ins), wSize, old(pos), Lazy(effort, maxLazy, tooFar, filtered),
                old(Waits()), old(tokens), Waits(), tokens)
      ensures ins == Adding(old(ins), old(pos), Complete(hist, pos))
    {
      ghost var was, p, ts := Waits(), pos, tokens;
      Look(effort, maxLazy, tooFar, filtered);
      ghost var len := if matchLength > prevLength then matchLength else 2;
      ghost var at := base + matchStart;
      Decide(was);
      AddingOn(hist, old(ins), p, pos);
      assert SlowMove(hist, p, was, ts, at, len, Waits(), tokens);
    }

    /** What waits: a literal, or a match in its place. */
    ghost function Waits(): (r: Wait)
      reads this`base, this`matchStart, this`matchLength, this`matchAvailable
    {
      Wait(matchAvailable, base + matchStart, matchLength)
    }

    /** ... and what the round knew is noted. */
    method SlowStepOn(effort: Effort, maxLazy: int, tooFar: int, filtered: bool, ghost cfg: Settings)
      requires Valid() && matchLength >= 2 && lookahead > 0 && strstart <= 2 * wSize - MIN_LOOKAHEAD
      requires Recalls() && cfg == Settings(true, Lazy(effort, maxLazy, tooFar, filtered))
      modifies this`head, this`insH, this`strstart, this`pos, this`lookahead, this`matchStart, this`matchLength,
          this`prevLength, this`prevMatch
      modifies this`matchAvailable, this`tokens, this`ins, this`top, this`seen, prev
      ensures Valid() && matchLength >= 2 && pos > old(pos) && Recalls() && Noted(old(seen), old(pos))
      ensures Moves(upd, h0, wSize, cfg, old(seen), seen[|seen| - 1], old(Waits()), old(tokens), Waits(), tokens)
    {
      ghost var was, ts, p, before := Waits(), tokens, pos, ins;
      StandsLength(wSize, tokens, hist, Done());
      SlowStep(effort, maxLazy, tooFar, filtered);
      ghost var l := Seen(hist, base, ins, p);
      SlowMovesOn(upd, h0, wSize, cfg, seen, before, l, Complete(hist, pos), was, ts, Waits(), tokens);
      seen := seen + [l];
    }

    /** deflate_slow: one round of its loop. */
    method SlowTurn(flush: bool, effort: Effort, maxLazy: int, tooFar: int, filtered: bool, ghost cfg: Settings)
      returns (more: bool)
      requires Valid() && matchLength >= 2 && Recalls() && cfg == Settings(true, Lazy(effort, maxLazy, tooFar, filtered))
      modifies this, window, prev
      ensures Valid() && matchLength >= 2 && hist + nextIn == old(hist + nextIn) && old(hist) <= hist
      ensures !more ==> nextIn == [] && lookahead < MIN_LOOKAHEAD && (flush ==> lookahead == 0)
      ensures !more ==> tokens == old(tokens) && seen == old(seen) && Waits() == old(Waits())
      ensures more ==> pos > old(pos) && Noted(old(seen), old(pos))
      ensures more ==> seen != [] && Moves(upd, h0, wSize, cfg, old(seen), seen[|seen| - 1], old(Waits()), old(tokens), Waits(), tokens)
      ensures Recalls()
    {
      more := Prepare(flush);
      if !more { return; }
      SlowStepOn(effort, maxLazy, tooFar, filtered, cfg);
    }

    /** The literal that still waits, and the number of strings left to insert when more input comes. */
    method EndBlock()
      requires Valid() && lookahead == 0
      modifies this`tokens, this`matchAvailable, this`insert
      ensures Valid() && !matchAvailable && Expand(tokens) == hist && Coded(tokens, MaxDist(wSize))
      ensures tokens == if old(matchAvailable) then old(tokens) + [LiteralAt(hist, |hist| - 1)] else old(tokens)
      ensures insert == if strstart < MIN_MATCH - 1 then strstart else MIN_MATCH - 1
    {
      if matchAvailable { LastLiteral(); }
      SetInsert();
      StandsWhole(wSize, tokens, hist);
    }

    method LastLiteral()
      requires Valid() && lookahead == 0 && matchAvailable
      modifies this`tokens, this`matchAvailable
      ensures Valid() && !matchAvailable && tokens == old(tokens) + [LiteralAt(hist, |hist| - 1)]
    {
      WaitingLiteral();
      tokens := tokens + [Literal(window[strstart - 1])];
      matchAvailable := false;
    }

    /** Leaves the last two strings, which are not complete, to be inserted when more input comes. */
    method SetInsert()
      requires Ready() && lookahead == 0
      modifies this`insert
      ensures Ready() && insert == if strstart < MIN_MATCH - 1 then strstart else MIN_MATCH - 1
    {
      LastInserted(upd, h0, hist, base, ins, top, head, prev[..]);
      insert := if strstart < MIN_MATCH - 1 then strstart else MIN_MATCH - 1;
    }

    lemma WaitingLiteral()
      requires Valid() && matchAvailable
      ensures 1 <= strstart <= 2 * wSize && Stands(wSize, tokens + [Literal(window[strstart - 1])], hist, pos)
      ensures Literal(window[strstart - 1]) == LiteralAt(hist, pos - 1) && |hist| == base + stop
    {
      ShownByte(window[..], hist, base, stop, strstart - 1);
      StandsLiteral(wSize, tokens, hist, pos - 1, window[strstart - 1]);
    }

    /** At any time between two turns: what the tokens stand for, the literal that waits and the bytes not looked at yet
        are
        together all the input read. */
    lemma Accounts()
      requires Valid()
      ensures 0 <= strstart <= stop <= window.Length && (matchAvailable ==> strstart >= 1)
      ensures Coded(tokens, MaxDist(wSize))
      ensures Expand(tokens) + (if matchAvailable then [window[strstart - 1]] else []) + window[strstart..stop] == hist
    {
      assert Unfold(0);
      var p := Done();
      assert window[..stop] == hist[base..];
      assert window[strstart..stop] == hist[base..][strstart..];
      assert hist[base..][strstart..] == hist[pos..];
      if matchAvailable {
        assert window[..stop][strstart - 1] == hist[base..][strstart - 1];
        assert hist[..p + 1] == hist[..p] + [window[strstart - 1]];
      }
      assert hist == hist[..pos] + hist[pos..];
    }

    lemma PosWithin()
      requires Valid()
      ensures 0 <= pos <= |hist|
    {
    }

    /** The rounds from the m-th on lead from what waited and the tokens at first to those of now. */
    ghost predicate Ran(cfg: Settings, m: nat, was: Wait, ts: seq<Token>)
      reads this`base, this`matchStart, this`matchLength, this`matchAvailable, this`tokens, this`seen
    {
      forall k {:trigger Open(k)} :: Open(k) ==> Run(upd, h0, wSize, cfg, seen, m, |seen|, was, ts, Waits(), tokens)
    }

    /** ... and then the block was closed. */
    ghost predicate RanOut(cfg: Settings, m: nat, was: Wait, ts: seq<Token>)
      reads this`hist, this`tokens, this`seen
    {
      forall k {:trigger Open(k)} :: Open(k) ==> Closed(upd, h0, wSize, cfg, hist, seen, m, |seen|, was, ts, tokens)
    }

    /** One round more of deflate_fast. */
    method FastRound(flush: bool, effort: Effort, maxInsert: int, ghost cfg: Settings, ghost m: nat, ghost was: Wait,
        ghost ts: seq<Token>) returns (again: bool)
      requires Valid() && !matchAvailable && Recalls() && !cfg.slow && cfg.lazy.effort == effort
      requires m <= |seen| && Ran(cfg, m, was, ts)
      modifies this, window, prev
      ensures Valid() && !matchAvailable && hist + nextIn == old(hist + nextIn)
      ensures !again ==> nextIn == [] && (flush ==> lookahead == 0)
      ensures again ==> pos > old(pos)
      ensures Recalls() && old(seen) <= seen && Ran(cfg, m, was, ts)
    {
      assert Open(0);
      ghost var w, t, past := Waits(), tokens, seen;
      again := FastTurn(flush, effort, maxInsert, cfg);
      if again {
        RunOn(upd, h0, wSize, cfg, past, seen[|seen| - 1], m, was, ts, w, t, Waits(), tokens);
      }
    }

    /** One round more of deflate_slow. */
    method SlowRound(flush: bool, cfg: Settings, ghost m: nat, ghost was: Wait, ghost ts: seq<Token>) returns (again: bool)
      requires Valid() && matchLength >= 2 && Recalls() && cfg.slow && m <= |seen| && Ran(cfg, m, was, ts)
      modifies this, window, prev
      ensures Valid() && matchLength >= 2 && hist + nextIn == old(hist + nextIn)
      ensures !again ==> nextIn == [] && (flush ==> lookahead == 0)
      ensures again ==> pos > old(pos)
      ensures Recalls() && old(seen) <= seen && Ran(cfg, m, was, ts)
    {
      assert Open(0);
      ghost var w, t, past := Waits(), tokens, seen;
      again := SlowTurn(flush, cfg.lazy.effort, cfg.lazy.maxLazy, cfg.lazy.tooFar, cfg.lazy.filtered, cfg);
      if again {
        RunOn(upd, h0, wSize, cfg, past, seen[|seen| - 1], m, was, ts, w, t, Waits(), tokens);
      }
    }

    method LastBlock(ghost cfg: Settings, ghost m: nat, ghost was: Wait, ghost ts: seq<Token>)
      requires Valid() && lookahead == 0 && Recalls() && Ran(cfg, m, was, ts)
      modifies this`tokens, this`matchAvailable, this`insert
      ensures Valid() && !matchAvailable && Expand(tokens) == hist && Coded(tokens, MaxDist(wSize))
      ensures Recalls() && RanOut(cfg, m, was, ts)
    {
      assert Open(0);
      EndBlock();
    }

    /** One call of deflate_fast with more input; it may stop after any number of rounds, for want of room for output.
        */
    method DeflateFast(more: seq<byte>, flush: bool, rounds: nat, effort: Effort, maxInsert: int, ghost cfg: Settings)
      returns (done: bool)
      requires Valid() && !matchAvailable && Recalls() && !cfg.slow && cfg.lazy.effort == effort
      modifies this, window, prev
      ensures Valid() && !matchAvailable && hist + nextIn == old(hist + nextIn) + more
      ensures rounds > |hist + nextIn| ==> done
      ensures done ==> nextIn == [] && (flush ==> Expand(tokens) == hist && Coded(tokens, MaxDist(wSize)))
      ensures Recalls() && old(seen) <= seen && (!(done && flush) ==> Ran(cfg, |old(seen)|, old(Waits()), old(tokens)))
      ensures done && flush ==> RanOut(cfg, |old(seen)|, old(Waits()), old(tokens))
    {
      Given(hist, nextIn, more);
      nextIn := nextIn + more;
      PosWithin();
      for i := 0 to rounds
        invariant Valid() && !matchAvailable && hist + nextIn == old(hist + nextIn) + more && pos >= i
        invariant Recalls() && old(seen) <= seen && Ran(cfg, |old(seen)|, old(Waits()), old(tokens))
      {
        PosWithin();
        var again := FastRound(flush, effort, maxInsert, cfg, |old(seen)|, old(Waits()), old(tokens));
        if !again {
          if flush { LastBlock(cfg, |old(seen)|, old(Waits()), old(tokens)); }
          return true;
        }
      }
      PosWithin();
      done := false;
    }

    /** One call of deflate_slow. */
    method DeflateSlow(more: seq<byte>, flush: bool, rounds: nat, cfg: Settings) returns (done: bool)
      requires Valid() && matchLength >= 2 && Recalls() && cfg.slow
      modifies this, window, prev
      ensures Valid() && matchLength >= 2 && hist + nextIn == old(hist + nextIn) + more
      ensures rounds > |hist + nextIn| ==> done
      ensures done ==> nextIn == [] && (flush ==> Expand(tokens) == hist && Coded(tokens, MaxDist(wSize)))
      ensures Recalls() && old(seen) <= seen && (!(done && flush) ==> Ran(cfg, |old(seen)|, old(Waits()), old(tokens)))
      ensures done && flush ==> RanOut(cfg, |old(seen)|, old(Waits()), old(tokens))
    {
      Given(hist, nextIn, more);
      nextIn := nextIn + more;
      PosWithin();
      for i := 0 to rounds
        invariant Valid() && matchLength >= 2 && hist + nextIn == old(hist + nextIn) + more && pos >= i
        invariant Recalls() && old(seen) <= seen && Ran(cfg, |old(seen)|, old(Waits()), old(tokens))
      {
        PosWithin();
        var again := SlowRound(flush, cfg, |old(seen)|, old(Waits()), old(tokens));
        if !again {
          if flush { LastBlock(cfg, |old(seen)|, old(Waits()), old(tokens)); }
          return true;
        }
      }
      PosWithin();
      done := false;
    }
  }

  lemma Given(hist: seq<byte>, next: seq<byte>, more: seq<byte>)
    ensures hist + (next + more) == (hist + next) + more
  {
  }

  /** The tokens stand for the first p bytes of s, and can be coded. */
  ghost predicate Stands(w: nat, tokens: seq<Token>, s: seq<byte>, p: int) {
    0 <= p <= |s| && forall k {:trigger Unfold(k)} :: Unfold(k) ==> Expand(tokens) == s[..p] && Coded(tokens, MaxDist(w))
  }

  lemma {:induction false} StandsOn(w: nat, tokens: seq<Token>, s: seq<byte>, t: seq<byte>, p: int)
    requires Stands(w, tokens, s, p) && s <= t
    ensures Stands(w, tokens, t, p)
  {
    assert Unfold(0);
    assert t[..p] == s[..p];
  }

  lemma {:induction false} StandsLength(w: nat, tokens: seq<Token>, s: seq<byte>, p: int)
    requires Stands(w, tokens, s, p)
    ensures |Expand(tokens)| == p
  {
    assert Unfold(0);
  }

  lemma {:induction false} StandsThere(w: nat, tokens: seq<Token>, s: seq<byte>, p: int, q: int)
    requires Stands(w, tokens, s, p) && p == q
    ensures Stands(w, tokens, s, q)
  {
  }

  lemma {:induction false} StandsWhole(w: nat, tokens: seq<Token>, s: seq<byte>)
    requires Stands(w, tokens, s, |s|)
    ensures Expand(tokens) == s && Coded(tokens, MaxDist(w))
  {
    assert Unfold(0);
    assert s[..|s|] == s;
  }

  lemma {:induction false} StandsLiteral(w: nat, tokens: seq<Token>, s: seq<byte>, p: int, c: byte)
    requires Stands(w, tokens, s, p) && p < |s| && c == s[p]
    ensures Stands(w, tokens + [Literal(c)], s, p + 1)
  {
    assert Unfold(0);
    ExpandAppend(tokens, Literal(c));
    CodedAppend(tokens, Literal(c), MaxDist(w));
    assert s[..p + 1] == s[..p] + [c];
  }

  lemma {:induction false} StandsCopy(w: nat, tokens: seq<Token>, s: seq<byte>, p: int, q: int, dist: int, len: int)
    requires Stands(w, tokens, s, p) && Pair(w, s, p, q, len) && len >= MIN_MATCH && dist == p - q
    ensures Stands(w, tokens + [Copy(dist, len)], s, p + len)
  {
    assert Unfold(0);
    ExpandAppend(tokens, Copy(dist, len));
    CodedAppend(tokens, Copy(dist, len), MaxDist(w));
    CopyContinues(s, p, q, len);
  }

  /** What waits at p: at least a literal, and if it is long enough, a match with the text at q. */
  ghost predicate Waiting(w: nat, s: seq<byte>, p: int, q: int, len: int, available: bool, strstart: int) {
    && 0 <= len <= MAX_MATCH && (!available ==> len < MIN_MATCH) && (available ==> strstart >= 1)
    && (len >= MIN_MATCH ==> Pair(w, s, p, q, len))
  }

  lemma {:induction false} WaitsThere(w: nat, s: seq<byte>, p: int, p': int, q: int, len: int, strstart: int)
    requires p == p' && 2 <= len <= MAX_MATCH && strstart >= 1 && (len >= MIN_MATCH ==> Pair(w, s, p, q, len))
    ensures Waiting(w, s, p', q, len, true, strstart)
  {
  }

  lemma {:induction false} MatchesOn(s: seq<byte>, t: seq<byte>, p: int, q: int, len: int)
    requires Matches(s, p, q, len) && s <= t
    ensures Matches(t, p, q, len)
    decreases len
  {
    if len > 0 {
      MatchesOn(s, t, p, q, len - 1);
    }
  }

  lemma {:induction false} WaitingOn(w: nat, s: seq<byte>, t: seq<byte>, p: int, q: int, len: int, available: bool,
      strstart: int)
    requires s <= t && 0 <= len <= MAX_MATCH && (!available ==> len < MIN_MATCH) && (available ==> strstart >= 1)
    requires len >= MIN_MATCH ==> Pair(w, s, p, q, len)
    ensures Waiting(w, t, p, q, len, available, strstart)
  {
    if len >= MIN_MATCH { MatchesOn(s, t, p, q, len); }
  }

  /** The strings at p and q agree from their fourth byte on, up to len. */
  ghost predicate Agree(w: seq<byte>, p: nat, q: nat, len: nat)
    decreases len
  {
    p + len <= |w| && q + len <= |w| && (len > 3 ==> Agree(w, p, q, len - 1) && w[p + len - 1] == w[q + len - 1])
  }

  lemma {:induction false} AgreeAt(w: seq<byte>, p: nat, q: nat, len: nat, k: nat)
    requires Agree(w, p, q, len) && 3 <= k < len
    ensures w[p + k] == w[q + k]
    decreases len
  {
    if k < len - 1 {
      AgreeAt(w, p, q, len - 1, k);
    }
  }

  /** Inserting the string at p, whose key is h. */
  lemma {:induction false} InsertStep<H(!new)>(upd: (H, byte) -> H, h0: H, s: seq<byte>, base: int, ins: set<int>,
      top: int, head: map<H, int>, prev: seq<int>, str: nat, p: int, h: H)
    requires Table(upd, h0, s, base, ins, top, head, prev) && p == base + str > top && p + 3 <= |s|
    requires h == Key(upd, h0, s, p)
    ensures Table(upd, h0, s, base, ins + {p}, p, head[h := str], prev[Round(str, |prev|) := HeadOf(head, h)])
    ensures Latest(upd, h0, s, base, ins + {p}, HeadOf(head, h), h, p)
  {
    InsertKeeps(upd, h0, s, base, ins, top, head, prev, str, p);
  }

  lemma Divide(hist: seq<byte>, next: seq<byte>, n: nat)
    requires n <= |next|
    ensures (hist + next[..n]) + next[n..] == hist + next
  {
  }
}
