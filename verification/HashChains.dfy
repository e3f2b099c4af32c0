/** The hash chains of deflate.c: INSERT_STRING, slide_hash, and what every entry that can be reached stands for. */
module HashChains {
  import opened Common
  import opened Lz77

  // ---------------------------------------------------------------- places in the table of links

  // Position p is kept at p & w_mask, which is Round(p, w_size), w_size being a power of two.

  /** base is a multiple of w. */
  ghost predicate Turns(base: int, w: nat) {
    w > 0 && base >= 0 && Round(base, w) == 0
  }

  lemma {:induction false} TurnsMore(base: int, w: nat)
    requires Turns(base, w)
    ensures Turns(base + w, w)
  {
  }

  lemma {:induction false} SlotShift(base: nat, m: nat, w: nat)
    requires Turns(base, w)
    ensures Round(base + m, w) == Round(m, w)
    decreases base
  {
    if base >= w {
      SlotShift(base - w, m, w);
      assert Round(base + m, w) == Round(base + m - w, w);
    }
  }

  /** Positions less than w apart do not share a place. */
  lemma {:induction false} SlotsDiffer(q: nat, p: nat, w: nat)
    requires w > 0 && q < p < q + w
    ensures Round(q, w) != Round(p, w)
    decreases q
  {
    if q >= w {
      SlotsDiffer(q - w, p - w, w);
    } else if p >= w {
      assert Round(p, w) == Round(p - w, w) == p - w;
    }
  }

  // ---------------------------------------------------------------- the chains

  ghost function Link(prev: seq<int>, p: int): (r: int) {
    if |prev| > 0 && p >= 0 then prev[Round(p, |prev|)] else 0
  }

  /** Window index m is none, or an inserted position with key k before p. */
  ghost predicate Entry<H>(upd: (H, byte) -> H, h0: H, s: seq<byte>, base: int, ins: set<int>, m: int, k: H, p: int) {
    m == 0 || (m > 0 && base + m in ins && base + m < p && Key(upd, h0, s, base + m) == k)
  }

  /** No position inserted between a and p has key k. */
  ghost predicate NoneBetween<H(!new)>(upd: (H, byte) -> H, h0: H, s: seq<byte>, ins: set<int>, a: int, k: H, p: int) {
    forall u {:trigger Unseal(u)} :: Unseal(u) ==> forall q :: q in ins && a < q < p ==> Key(upd, h0, s, q) != k
  }

  /** Window index m is that of the last position inserted before p with key k; or there is none in the window, its first
      byte left out. */
  ghost predicate Latest<H(!new)>(upd: (H, byte) -> H, h0: H, s: seq<byte>, base: int, ins: set<int>, m: int, k: H,
      p: int) {
    Entry(upd, h0, s, base, ins, m, k, p) && NoneBetween(upd, h0, s, ins, base + m, k, p)
  }

  /** s is all the input read, base the position of the window's first byte, ins the positions inserted, top the last of
      them. The table of links is as long as the window. A head leads to the last position with its key; from the
      positions less than a window back, a link leads to the last one before with the same key. */
  ghost predicate Chains<H(!new)>(upd: (H, byte) -> H, h0: H, s: seq<byte>, base: int, ins: set<int>, top: int,
      head: map<H, int>, prev: seq<int>) {
    && Turns(base, |prev|) && (top == -1 || top in ins)
    && (forall p :: p in ins ==> 0 <= p <= top && p + 3 <= |s|)
    && (forall h {:trigger HeadOf(head, h)} :: Latest(upd, h0, s, base, ins, HeadOf(head, h), h, top + 1))
    && (forall p {:trigger Link(prev, p)} :: p in ins && p > top - |prev| ==> Latest(upd, h0, s, base, ins, Link(prev, p), Key(upd, h0, s, p), p))
  }

  ghost predicate Table<H(!new)>(upd: (H, byte) -> H, h0: H, s: seq<byte>, base: int, ins: set<int>, top: int,
      head: map<H, int>, prev: seq<int>) {
    |prev| > 0 && base >= 0 && forall k {:trigger Unfold(k)} :: Unfold(k) ==> Chains(upd, h0, s, base, ins, top, head, prev)
  }

  function HeadOf<H>(head: map<H, int>, h: H): (r: int) {
    if h in head then head[h] else 0
  }

  lemma {:induction false} EmptyTable<H(!new)>(upd: (H, byte) -> H, h0: H, prev: seq<int>)
    requires |prev| > 0
    ensures Table(upd, h0, [], 0, {}, -1, map[], prev)
  {
  }

  /** More input changes no key. */
  lemma {:induction false} MoreInput<H(!new)>(upd: (H, byte) -> H, h0: H, s: seq<byte>, t: seq<byte>, base: int,
      ins: set<int>, top: int, head: map<H, int>, prev: seq<int>)
    requires Table(upd, h0, s, base, ins, top, head, prev)
    ensures Table(upd, h0, s + t, base, ins, top, head, prev)
  {
    assert Unfold(0) && Unseal(0);
    forall p | p in ins
      ensures Key(upd, h0, s + t, p) == Key(upd, h0, s, p)
    {
      assert (s + t)[p] == s[p];
    }
  }

  /** Nothing is inserted between top and p. */
  lemma {:induction false} LatestLater<H(!new)>(upd: (H, byte) -> H, h0: H, s: seq<byte>, base: int, ins: set<int>,
      m: int, k: H, top: int, p: int)
    requires Latest(upd, h0, s, base, ins, m, k, top + 1) && top < p && forall q :: q in ins ==> q <= top
    ensures Latest(upd, h0, s, base, ins + {p}, m, k, p)
    ensures k != Key(upd, h0, s, p) ==> Latest(upd, h0, s, base, ins + {p}, m, k, p + 1)
  {
    assert Unseal(0);
  }

  lemma {:induction false} LatestBefore<H(!new)>(upd: (H, byte) -> H, h0: H, s: seq<byte>, base: int, ins: set<int>,
      m: int, k: H, q: int, p: int)
    requires Latest(upd, h0, s, base, ins, m, k, q) && q <= p
    ensures Latest(upd, h0, s, base, ins + {p}, m, k, q)
  {
    assert Unseal(0);
  }

  /** INSERT_STRING at a position after all inserted ones. */
  lemma {:induction false} InsertKeeps<H(!new)>(upd: (H, byte) -> H, h0: H, s: seq<byte>, base: int, ins: set<int>,
      top: int, head: map<H, int>, prev: seq<int>, str: nat, p: int)
    requires Table(upd, h0, s, base, ins, top, head, prev) && p == base + str > top && p + 3 <= |s|
    ensures var h := Key(upd, h0, s, p);
            Table(upd, h0, s, base, ins + {p}, p, head[h := str], prev[Round(str, |prev|) := HeadOf(head, h)])
            && Latest(upd, h0, s, base, ins + {p}, HeadOf(head, h), h, p)
  {
    assert Unfold(0);
    var h := Key(upd, h0, s, p);
    var prev' := prev[Round(str, |prev|) := HeadOf(head, h)];
    var head' := head[h := str];
    SlotShift(base, str, |prev|);
    LatestLater(upd, h0, s, base, ins, HeadOf(head, h), h, top, p);
    forall q {:trigger Link(prev', q)} | q in ins + {p} && q > p - |prev|
      ensures Latest(upd, h0, s, base, ins + {p}, Link(prev', q), Key(upd, h0, s, q), q)
    {
      if q != p {
        SlotsDiffer(q, p, |prev|);
        assert Link(prev', q) == Link(prev, q);
        LatestBefore(upd, h0, s, base, ins, Link(prev, q), Key(upd, h0, s, q), q, p);
      }
    }
    forall g {:trigger HeadOf(head', g)}
      ensures Latest(upd, h0, s, base, ins + {p}, HeadOf(head', g), g, p + 1)
    {
      if g != h {
        assert HeadOf(head', g) == HeadOf(head, g);
        LatestLater(upd, h0, s, base, ins, HeadOf(head, g), g, top, p);
      }
    }
  }

  /** The positions ins and those from a to b. */
  ghost function Adding(ins: set<int>, a: int, b: int): (r: set<int>)
    decreases b - a
  {
    if b <= a then ins else Adding(ins, a, b - 1) + {b - 1}
  }

  lemma {:induction false} AddingIs(ins: set<int>, a: int, b: int, q: int)
    ensures q in Adding(ins, a, b) <==> q in ins || a <= q < b
    decreases b - a
  {
    if b > a {
      AddingIs(ins, a, b - 1, q);
    }
  }

  lemma {:induction false} AddingMore(ins: set<int>, a: int, b: int)
    ensures ins <= Adding(ins, a, b) && (a < b ==> a in Adding(ins, a, b))
    decreases b - a
  {
    if b > a {
      AddingMore(ins, a, b - 1);
    }
  }

  lemma {:induction false} AddingParts(ins: set<int>, a: int, b: int, c: int)
    requires a <= b
    ensures Adding(Adding(ins, a, b), b, c) == Adding(ins, a, if c <= b then b else c)
    decreases c - b
  {
    if c > b {
      AddingParts(ins, a, b, c - 1);
    }
  }

  /** p, but not more than two bytes before the end of the input: of the positions before p those before it have a
      complete string. */
  ghost function Complete(s: seq<byte>, p: int): (r: int) {
    if p <= |s| - 2 then p else |s| - 2
  }

  lemma {:induction false} AddingOn(s: seq<byte>, ins: set<int>, p: int, q: int)
    requires p < q
    ensures Adding(Adding(ins, p, Complete(s, p + 1)), p + 1, Complete(s, q)) == Adding(ins, p, Complete(s, q))
  {
    if p + 1 <= |s| - 2 { AddingParts(ins, p, p + 1, Complete(s, q)); }
  }

  /** slide_hash on one entry. */
  function Slid(m: int, w: nat): (r: int) {
    if m >= w then m - w else 0
  }

  function SlidAll(prev: seq<int>): (r: seq<int>)
    ensures |r| == |prev|
  {
    seq(|prev|, i requires 0 <= i < |prev| => Slid(prev[i], |prev|))
  }

  function SlidHead<H>(head: map<H, int>, w: nat): (r: map<H, int>) {
    map h | h in head :: Slid(head[h], w)
  }

  /** What slides out of the window is no longer linked to; nothing else is lost. */
  lemma {:induction false} LatestSlides<H(!new)>(upd: (H, byte) -> H, h0: H, s: seq<byte>, base: int, ins: set<int>,
      m: int, k: H, p: int, w: nat)
    requires Latest(upd, h0, s, base, ins, m, k, p) && w > 0
    ensures Latest(upd, h0, s, base + w, ins, Slid(m, w), k, p)
  {
    assert Unseal(0);
  }

  lemma {:induction false} SlideKeeps<H(!new)>(upd: (H, byte) -> H, h0: H, s: seq<byte>, base: int, ins: set<int>,
      top: int, head: map<H, int>, prev: seq<int>)
    requires Table(upd, h0, s, base, ins, top, head, prev)
    ensures Table(upd, h0, s, base + |prev|, ins, top, SlidHead(head, |prev|), SlidAll(prev))
  {
    assert Unfold(0);
    var prev', head' := SlidAll(prev), SlidHead(head, |prev|);
    TurnsMore(base, |prev|);
    forall p {:trigger Link(prev', p)} | p in ins && p > top - |prev|
      ensures Latest(upd, h0, s, base + |prev|, ins, Link(prev', p), Key(upd, h0, s, p), p)
    {
      assert Link(prev', p) == Slid(Link(prev, p), |prev|);
      LatestSlides(upd, h0, s, base, ins, Link(prev, p), Key(upd, h0, s, p), p, |prev|);
    }
    forall h {:trigger HeadOf(head', h)}
      ensures Latest(upd, h0, s, base + |prev|, ins, HeadOf(head', h), h, top + 1)
    {
      assert HeadOf(head', h) == Slid(HeadOf(head, h), |prev|);
      LatestSlides(upd, h0, s, base, ins, HeadOf(head, h), h, top + 1, |prev|);
    }
  }

  /** Following a link that is less than its length back leads to the last position before with the same key. */
  lemma {:induction false} NextEntry<H(!new)>(upd: (H, byte) -> H, h0: H, s: seq<byte>, base: int, ins: set<int>,
      top: int, head: map<H, int>, prev: seq<int>, m: nat, k: H, p: int)
    requires Table(upd, h0, s, base, ins, top, head, prev) && m > 0 && Entry(upd, h0, s, base, ins, m, k, p)
        && base + m > top - |prev|
    ensures Latest(upd, h0, s, base, ins, prev[Round(m, |prev|)], k, base + m) && base + m + 3 <= |s|
  {
    assert Unfold(0);
    SlotShift(base, m, |prev|);
    assert Link(prev, base + m) == prev[Round(m, |prev|)];
  }

  /** Only complete strings are inserted. */
  lemma {:induction false} LastInserted<H(!new)>(upd: (H, byte) -> H, h0: H, s: seq<byte>, base: int, ins: set<int>,
      top: int, head: map<H, int>, prev: seq<int>)
    requires Table(upd, h0, s, base, ins, top, head, prev)
    ensures top == -1 || top + 3 <= |s|
  {
    assert Unfold(0);
  }
}
