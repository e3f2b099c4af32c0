/** SFMT (SFMT.c, SFMT.h, SFMT-common.h) with the parameters of SFMT-params19937.h: bulk generation and
    one-at-a-time generation draw from the same sequence. */
module Sfmt {
  import opened Common

  // ---------------------------------------------------------------- the recursion

  /** 128 bits as four words, least significant first. */
  datatype W128 = W128(u0: bv32, u1: bv32, u2: bv32, u3: bv32)

  function Lane32(w: W128, i: int): bv32 {
    if i == 0 then w.u0 else if i == 1 then w.u1 else if i == 2 then w.u2 else w.u3
  }

  const N := 156
  const POS1 := 122
  const N32 := 624

  function High(in128: W128): bv64 { ((in128.u3 as bv64) << 32) | in128.u2 as bv64 }
  function Low(in128: W128): bv64 { ((in128.u1 as bv64) << 32) | in128.u0 as bv64 }
  function Join(h: bv64, l: bv64): W128 {
    W128((l & 0xffff_ffff) as bv32, (l >> 32) as bv32, (h & 0xffff_ffff) as bv32, (h >> 32) as bv32)
  }

  /** lshift128 by one byte. */
  function ShiftLeft(a: W128): W128 {
    Join((High(a) << 8) | (Low(a) >> 56), Low(a) << 8)
  }

  /** rshift128 by one byte. */
  function ShiftRight(c: W128): W128 {
    Join(High(c) >> 8, (Low(c) >> 8) | (High(c) << 56))
  }

  /** One lane of do_recursion. */
  function RecurLane(a: bv32, x: bv32, b: bv32, mask: bv32, y: bv32, d: bv32): bv32 {
    a ^ x ^ ((b >> 11) & mask) ^ y ^ (d << 18)
  }

  /** do_recursion */
  function Recur(a: W128, b: W128, c: W128, d: W128): W128 {
    var x, y := ShiftLeft(a), ShiftRight(c);
    W128(RecurLane(a.u0, x.u0, b.u0, 0xdfff_ffef, y.u0, d.u0), RecurLane(a.u1, x.u1, b.u1, 0xddfe_cb7f, y.u1, d.u1),
         RecurLane(a.u2, x.u2, b.u2, 0xbffa_ffff, y.u2, d.u2), RecurLane(a.u3, x.u3, b.u3, 0xbfff_fff6, y.u3, d.u3))
  }

  // ---------------------------------------------------------------- the sequence

  /** The recursion, on words of any kind. */
  type Step<!W> = (W, W, W, W) -> W

  /** The infinite sequence that starts with the state s0 and goes on by the recursion f. */
  ghost function X<W>(f: Step<W>, s0: seq<W>, k: nat): (r: W)
    requires |s0| == N
    decreases k
  {
    if k < N then s0[k] else f(X(f, s0, k - N), X(f, s0, k - N + POS1), X(f, s0, k - 2), X(f, s0, k - 1))
  }

  /** Its k-th 32-bit word, counted after the initial state. */
  ghost function U<W, V>(f: Step<W>, lane: (W, int) -> V, s0: seq<W>, k: nat): (r: V)
    requires |s0| == N
  {
    lane(X(f, s0, N + k / 4), k % 4)
  }

  lemma {:induction false} NextX<W>(f: Step<W>, s0: seq<W>, k: nat)
    requires |s0| == N
    ensures X(f, s0, k + N) == f(X(f, s0, k), X(f, s0, k + POS1), X(f, s0, k + N - 2), X(f, s0, k + N - 1))
  {
  }

  /** a[..m] is the stretch of the sequence that starts at p. */
  ghost predicate Stretch<W>(f: Step<W>, s0: seq<W>, a: seq<W>, m: int, p: nat) {
    |s0| == N && 0 <= m <= |a| && forall k {:trigger Unfold(k)} :: Unfold(k) ==> forall t :: 0 <= t < m ==> a[t] == X(f, s0, p + t)
  }

  lemma StretchAt<W>(f: Step<W>, s0: seq<W>, a: seq<W>, m: int, p: nat, t: nat)
    requires Stretch(f, s0, a, m, p) && t < m
    ensures a[t] == X(f, s0, p + t)
  {
    assert Unfold(0);
  }

  /** The window at p, its first i elements already moved on; r1 and r2 are the elements before the next. */
  ghost predicate Moving<W>(f: Step<W>, s0: seq<W>, st: seq<W>, i: int, p: nat, r1: W, r2: W) {
    |s0| == N == |st| && 0 <= i <= N && forall k {:trigger Unfold(k)} :: Unfold(k) ==>
      && (forall t :: 0 <= t < N ==> st[t] == X(f, s0, if t < i then p + N + t else p + t))
      && r1 == X(f, s0, p + N + i - 2) && r2 == X(f, s0, p + N + i - 1)
  }

  lemma {:induction false} MoveStart<W>(f: Step<W>, s0: seq<W>, st: seq<W>, p: nat)
    requires Stretch(f, s0, st, N, p) && |st| == N
    ensures Moving(f, s0, st, 0, p, st[N - 2], st[N - 1])
  {
    assert Unfold(0);
  }

  lemma {:induction false} MoveOne<W>(f: Step<W>, s0: seq<W>, st: seq<W>, i: nat, p: nat, r1: W, r2: W)
    requires Moving(f, s0, st, i, p, r1, r2) && i < N
    ensures var v := f(st[i], st[if i + POS1 < N then i + POS1 else i + POS1 - N], r1, r2);
            Moving(f, s0, st[i := v], i + 1, p, r2, v)
  {
    assert Unfold(0);
    NextX(f, s0, p + i);
  }

  lemma {:induction false} MoveEnd<W>(f: Step<W>, s0: seq<W>, st: seq<W>, p: nat, r1: W, r2: W)
    requires Moving(f, s0, st, N, p, r1, r2)
    ensures Stretch(f, s0, st, N, p + N)
  {
    assert Unfold(0);
  }

  /** st is the window at p; i elements after it are in a; r1 and r2 are the last two. */
  ghost predicate Filling<W>(f: Step<W>, s0: seq<W>, st: seq<W>, a: seq<W>, i: int, p: nat, r1: W, r2: W) {
    |s0| == N == |st| && 0 <= i <= |a| && forall k {:trigger Unfold(k)} :: Unfold(k) ==>
      && (forall t :: 0 <= t < N ==> st[t] == X(f, s0, p + t))
      && (forall t :: 0 <= t < i ==> a[t] == X(f, s0, p + N + t))
      && r1 == X(f, s0, p + N + i - 2) && r2 == X(f, s0, p + N + i - 1)
  }

  lemma {:induction false} FillStart<W>(f: Step<W>, s0: seq<W>, st: seq<W>, a: seq<W>, p: nat)
    requires Stretch(f, s0, st, N, p) && |st| == N
    ensures Filling(f, s0, st, a, 0, p, st[N - 2], st[N - 1])
  {
    assert Unfold(0);
  }

  /** The element N places back is in the state or in the array, and so is the one POS1 after it. */
  lemma {:induction false} FillOne<W>(f: Step<W>, s0: seq<W>, st: seq<W>, a: seq<W>, i: nat, p: nat, r1: W, r2: W)
    requires Filling(f, s0, st, a, i, p, r1, r2) && i < |a|
    ensures var v := f(if i < N then st[i] else a[i - N], if i + POS1 < N then st[i + POS1]
        else a[i + POS1 - N], r1, r2);
            Filling(f, s0, st, a[i := v], i + 1, p, r2, v)
  {
    assert Unfold(0);
    NextX(f, s0, p + i);
  }

  lemma {:induction false} FillEnd<W>(f: Step<W>, s0: seq<W>, st: seq<W>, a: seq<W>, p: nat, r1: W, r2: W)
    requires Filling(f, s0, st, a, |a|, p, r1, r2) && |a| >= N
    ensures Stretch(f, s0, a, |a|, p + N) && Stretch(f, s0, a[|a| - N..], N, p + |a|)
  {
    assert Unfold(0);
    var b := a[|a| - N..];
    forall t | 0 <= t < N
      ensures b[t] == X(f, s0, p + |a| + t)
    {
      assert a[|a| - N + t] == X(f, s0, p + N + (|a| - N + t));
    }
  }

  /** The first j elements of st are those of a from off on. */
  ghost predicate Mirrors<W>(st: seq<W>, a: seq<W>, j: int, off: nat) {
    0 <= j <= |st| && j + off <= |a| && forall k {:trigger Unfold(k)} :: Unfold(k) ==> st[..j] == a[off..off + j]
  }

  lemma {:induction false} MirrorOne<W>(st: seq<W>, a: seq<W>, j: nat, off: nat, v: W)
    requires Mirrors(st, a, j, off) && j < |st| && j + off < |a|
    ensures Mirrors(st[j := v], a[j + off := v], j + 1, off)
  {
    assert Unfold(0);
    assert st[j := v][..j + 1] == st[..j] + [v];
    assert a[j + off := v][off..off + j + 1] == a[off..off + j] + [v];
  }

  lemma {:induction false} MirrorNone<W>(st: seq<W>, a: seq<W>, off: nat)
    requires off <= |a|
    ensures Mirrors(st, a, 0, off)
  {
  }

  lemma {:induction false} MirrorCopy<W>(st: seq<W>, a: seq<W>, j: nat, off: nat)
    requires Mirrors(st, a, j, off) && j < |st| && j + off < |a|
    ensures Mirrors(st[j := a[j + off]], a, j + 1, off)
  {
    MirrorOne(st, a, j, off, a[j + off]);
    assert a[j + off := a[j + off]] == a;
  }

  lemma {:induction false} MirrorWhole<W>(st: seq<W>, a: seq<W>, off: nat)
    requires Mirrors(st, a, |st|, off) && off + |st| == |a|
    ensures st == a[off..]
  {
    assert Unfold(0);
  }

  lemma {:induction false} Written<W>(f: Step<W>, s0: seq<W>, st: seq<W>, a: seq<W>, window: seq<W>, p: nat, r1: W,
      r2: W)
    requires Filling(f, s0, st, a, |a|, p, r1, r2) && |a| >= N == |window| && Mirrors(window, a, N, |a| - N)
    ensures Stretch(f, s0, a, |a|, p + N) && Stretch(f, s0, window, N, p + |a|)
  {
    FillEnd(f, s0, st, a, p, r1, r2);
    MirrorWhole(window, a, |a| - N);
  }

  /** The generator: its state is a window of N elements of the sequence. */
  class Generator<W(0)> {
    const f: Step<W>
    const state: array<W>
    var idx: int
    ghost const s0: seq<W>
    ghost var p: nat  // where the window begins

    ghost predicate Valid()
      reads this, state
    {
      state.Length == N && Stretch(f, s0, state[..], N, p) && 0 <= idx <= N32 && Drawn() >= 0
    }

    /** How many 32-bit words have been handed out. */
    ghost function Drawn(): (r: int)
      reads this
    {
      4 * (p - N) + idx
    }

    /** Any initialised state: the initialisers leave the index at the end of the window. */
    constructor (f: Step<W>, s: seq<W>)
      requires |s| == N
      ensures Valid() && fresh(state) && this.f == f && s0 == s && Drawn() == 0 && idx == N32
    {
      this.f := f;
      state := new W[N](i requires 0 <= i < N => s[i]);
      s0, idx, p := s, N32, 0;
    }

    /** Moves the window on by its whole length (sfmt_gen_rand_all). */
    method GenerateAll()
      requires state.Length == N && Stretch(f, s0, state[..], N, p)
      modifies this`p, state
      ensures Stretch(f, s0, state[..], N, p) && p == old(p) + N
    {
      var r1, r2 := state[N - 2], state[N - 1];
      MoveStart(f, s0, state[..], p);
      for i := 0 to N - POS1
        invariant p == old(p) && Moving(f, s0, state[..], i, p, r1, r2)
      {
        MoveOne(f, s0, state[..], i, p, r1, r2);
        ghost var after := state[..][i := f(state[i], state[i + POS1], r1, r2)];
        state[i] := f(state[i], state[i + POS1], r1, r2);
        r1, r2 := r2, state[i];
        assert state[..] == after;
      }
      for i := N - POS1 to N
        invariant p == old(p) && Moving(f, s0, state[..], i, p, r1, r2)
      {
        MoveOne(f, s0, state[..], i, p, r1, r2);
        ghost var after := state[..][i := f(state[i], state[i + POS1 - N], r1, r2)];
        state[i] := f(state[i], state[i + POS1 - N], r1, r2);
        r1, r2 := r2, state[i];
        assert state[..] == after;
      }
      MoveEnd(f, s0, state[..], p, r1, r2);
      p := p + N;
    }

    /** One 32-bit word (sfmt_genrand_uint32). */
    method Next<V>(lane: (W, int) -> V) returns (r: V)
      requires Valid()
      modifies this`p, this`idx, state
      ensures Valid() && r == U(f, lane, s0, old(Drawn())) && Drawn() == old(Drawn()) + 1
    {
      if idx >= N32 {
        GenerateAll();
        idx := 0;
      }
      StretchAt(f, s0, state[..], N, p, idx / 4);
      WordPlace(p, idx);
      r := lane(state[idx / 4], idx % 4);
      idx := idx + 1;
    }

    /** Fills a whole array (gen_rand_array), writing the last N elements back to the state. */
    method GenerateArray(a: array<W>)
      requires state.Length == N && Stretch(f, s0, state[..], N, p) && a.Length >= N && a != state
      modifies this`p, state, a
      ensures Stretch(f, s0, a[..], a.Length, old(p) + N)
      ensures Stretch(f, s0, state[..], N, p) && p == old(p) + a.Length
    {
      var size := a.Length;
      ghost var st := state[..];
      var r1, r2 := state[N - 2], state[N - 1];
      FillStart(f, s0, st, a[..], p);
      r1, r2 := FillFromState(a, r1, r2);
      r1, r2 := FillFromArray(a, N, if size - N > N then size - N else N, r1, r2, st);
      WriteBack(a, r1, r2, st);
      p := p + size;
    }

    /** The first N elements. */
    method FillFromState(a: array<W>, r1': W, r2': W) returns (r1: W, r2: W)
      requires state.Length == N && a.Length >= N && a != state && Filling(f, s0, state[..], a[..], 0, p, r1', r2')
      modifies a
      ensures Filling(f, s0, state[..], a[..], N, p, r1, r2)
    {
      r1, r2 := r1', r2';
      for i := 0 to N - POS1
        invariant Filling(f, s0, state[..], a[..], i, p, r1, r2)
      {
        FillOne(f, s0, state[..], a[..], i, p, r1, r2);
        ghost var after := a[..][i := f(state[i], state[i + POS1], r1, r2)];
        a[i] := f(state[i], state[i + POS1], r1, r2);
        r1, r2 := r2, a[i];
        assert a[..] == after;
      }
      for i := N - POS1 to N
        invariant Filling(f, s0, state[..], a[..], i, p, r1, r2)
      {
        FillOne(f, s0, state[..], a[..], i, p, r1, r2);
        ghost var after := a[..][i := f(state[i], a[i + POS1 - N], r1, r2)];
        a[i] := f(state[i], a[i + POS1 - N], r1, r2);
        r1, r2 := r2, a[i];
        assert a[..] == after;
      }
    }

    /** Elements lo..hi-1, each from elements already in the array. */
    method FillFromArray(a: array<W>, lo: nat, hi: nat, r1': W, r2': W, ghost st: seq<W>) returns (r1: W, r2: W)
      requires N <= lo <= hi <= a.Length && Filling(f, s0, st, a[..], lo, p, r1', r2')
      modifies a
      ensures Filling(f, s0, st, a[..], hi, p, r1, r2)
    {
      r1, r2 := r1', r2';
      for i := lo to hi
        invariant Filling(f, s0, st, a[..], i, p, r1, r2)
      {
        FillOne(f, s0, st, a[..], i, p, r1, r2);
        ghost var after := a[..][i := f(a[i - N], a[i + POS1 - N], r1, r2)];
        a[i] := f(a[i - N], a[i + POS1 - N], r1, r2);
        r1, r2 := r2, a[i];
        assert a[..] == after;
      }
    }

    /** One element into both the array and the state. */
    method GenerateBoth(a: array<W>, i: nat, j: nat, r1: W, r2: W, ghost st: seq<W>) returns (v: W)
      requires state.Length == N && a != state && N <= i < a.Length && i == j + a.Length - N
      requires Filling(f, s0, st, a[..], i, p, r1, r2) && Mirrors(state[..], a[..], j, a.Length - N)
      modifies state, a
      ensures Filling(f, s0, st, a[..], i + 1, p, r2, v) && Mirrors(state[..], a[..], j + 1, a.Length - N)
    {
      v := f(a[i - N], a[i + POS1 - N], r1, r2);
      FillOne(f, s0, st, a[..], i, p, r1, r2);
      MirrorOne(state[..], a[..], j, a.Length - N, v);
      ghost var array', state' := a[..][i := v], state[..][j := v];
      a[i] := v;
      state[j] := v;
      assert a[..] == array' && state[..] == state';
    }

    method GenerateTail(a: array<W>, i0: nat, j0: nat, r1': W, r2': W, ghost st: seq<W>)
      requires state.Length == N && a.Length >= N && a != state && N <= i0 <= a.Length && i0 == j0 + a.Length - N
      requires Filling(f, s0, st, a[..], i0, p, r1', r2') && Mirrors(state[..], a[..], j0, a.Length - N)
      modifies state, a
      ensures Stretch(f, s0, a[..], a.Length, p + N) && Stretch(f, s0, state[..], N, p + a.Length)
    {
      var i, j, r1, r2 := i0, j0, r1', r2';
      while i < a.Length
        invariant N <= i <= a.Length && i == j + a.Length - N
        invariant Filling(f, s0, st, a[..], i, p, r1, r2)
        invariant Mirrors(state[..], a[..], j, a.Length - N)
      {
        var v := GenerateBoth(a, i, j, r1, r2, st);
        r1, r2 := r2, v;
        i, j := i + 1, j + 1;
      }
      Written(f, s0, st, a[..], state[..], p, r1, r2);
    }

    /** Copies what the array already holds of its last N elements, then generates the others into both. */
    method WriteBack(a: array<W>, r1: W, r2: W, ghost st: seq<W>)
      requires state.Length == N && a.Length >= N && a != state
      requires Filling(f, s0, st, a[..], if a.Length - N > N then a.Length - N else N, p, r1, r2)
      modifies state, a
      ensures Stretch(f, s0, a[..], a.Length, p + N) && Stretch(f, s0, state[..], N, p + a.Length)
    {
      var size := a.Length;
      var j := CopyTail(a);
      GenerateTail(a, if size - N > N then size - N else N, j, r1, r2, st);
    }

    /** Copies to the state what the first N elements hold of the last N. */
    method CopyTail(a: array<W>) returns (j: int)
      requires state.Length == N && a.Length >= N && a != state
      modifies state
      ensures j == if a.Length < 2 * N then 2 * N - a.Length else 0
      ensures Mirrors(state[..], a[..], j, a.Length - N)
    {
      var size := a.Length;
      j := 0;
      MirrorNone(state[..], a[..], size - N);
      while j < 2 * N - size
        invariant 0 <= j && (j <= 2 * N - size || j == 0)
        invariant Mirrors(state[..], a[..], j, size - N)
      {
        MirrorCopy(state[..], a[..], j, size - N);
        ghost var window := state[..][j := a[j + size - N]];
        state[j] := a[j + size - N];
        assert state[..] == window;
        j := j + 1;
      }
    }

    /** size words at once (sfmt_fill_array32); the window must be used up. */
    method Fill<V>(a: array<W>, ghost lane: (W, int) -> V)
      requires Valid() && idx == N32 && a.Length >= N && a != state
      modifies this`p, this`idx, state, a
      ensures Valid() && idx == N32 && Drawn() == old(Drawn()) + 4 * a.Length
      ensures forall j :: 0 <= j < 4 * a.Length ==> lane(a[j / 4], j % 4) == U(f, lane, s0, old(Drawn()) + j)
    {
      ghost var q, k := p, Drawn();
      GenerateArray(a);
      idx := N32;
      forall j | 0 <= j < 4 * a.Length
        ensures lane(a[j / 4], j % 4) == U(f, lane, s0, k + j)
      {
        StretchAt(f, s0, a[..], a.Length, q + N, j / 4);
        BulkPlace(q, j);
      }
    }
  }

  lemma WordPlace(p: int, idx: int)
    requires idx >= 0 && 4 * (p - N) + idx >= 0
    ensures N + (4 * (p - N) + idx) / 4 == p + idx / 4 && (4 * (p - N) + idx) % 4 == idx % 4
  {
  }

  lemma BulkPlace(q: int, j: int)
    requires j >= 0 && q >= 0
    ensures N + (4 * (q - N) + N32 + j) / 4 == q + N + j / 4 && (4 * (q - N) + N32 + j) % 4 == j % 4
  {
  }

  // ---------------------------------------------------------------- any mix of calls

  /** The words of the arrays filled, in order. */
  function Words<W, V>(a: seq<W>, lane: (W, int) -> V): (r: seq<V>)
    ensures |r| == 4 * |a| && forall j :: 0 <= j < |r| ==> r[j] == lane(a[j / 4], j % 4)
  {
    seq(4 * |a|, j requires 0 <= j < 4 * |a| => lane(a[j / 4], j % 4))
  }

  function SumOf(sizes: seq<nat>, n: nat): (r: nat)
    requires n <= |sizes|
  {
    if n == 0 then 0 else SumOf(sizes, n - 1) + sizes[n - 1]
  }

  /** Fills arrays of the given sizes and then draws n single words: together they are the beginning of
      the one sequence, whatever the sizes. */
  method Draw<W(0), V>(f: Step<W>, lane: (W, int) -> V, s: seq<W>, sizes: seq<nat>, n: nat) returns (out: seq<V>)
    requires |s| == N && forall i :: 0 <= i < |sizes| ==> sizes[i] >= N
    ensures |out| == 4 * SumOf(sizes, |sizes|) + n && forall k :: 0 <= k < |out| ==> out[k] == U(f, lane, s, k)
  {
    var g := new Generator(f, s);
    out := [];
    for i := 0 to |sizes|
      invariant g.Valid() && fresh(g.state) && g.idx == N32 && g.f == f && g.s0 == s
          && |out| == g.Drawn() == 4 * SumOf(sizes, i)
      invariant forall k :: 0 <= k < |out| ==> out[k] == U(f, lane, s, k)
    {
      var a := new W[sizes[i]];
      g.Fill(a, lane);
      out := Appended(out, Words(a[..], lane), f, lane, s);
    }
    for i := 0 to n
      invariant g.Valid() && fresh(g.state) && g.f == f && g.s0 == s
          && |out| == g.Drawn() == 4 * SumOf(sizes, |sizes|) + i
      invariant forall k :: 0 <= k < |out| ==> out[k] == U(f, lane, s, k)
    {
      var r := g.Next(lane);
      out := out + [r];
    }
  }

  method Appended<W, V>(out: seq<V>, more: seq<V>, ghost f: Step<W>, ghost lane: (W, int) -> V, ghost s: seq<W>)
      returns (r: seq<V>)
    requires |s| == N && (forall k :: 0 <= k < |out| ==> out[k] == U(f, lane, s, k)) && forall j :: 0 <= j < |more| ==> more[j] == U(f, lane, s, |out| + j)
    ensures |r| == |out| + |more| && forall k :: 0 <= k < |r| ==> r[k] == U(f, lane, s, k)
  {
    r := out + more;
    forall k | |out| <= k < |r|
      ensures r[k] == U(f, lane, s, k)
    {
      assert more[k - |out|] == U(f, lane, s, |out| + (k - |out|));
    }
  }

  /** The same for the recursion of the 19937 parameter set. */
  method DrawStandard(s: seq<W128>, sizes: seq<nat>, n: nat) returns (out: seq<bv32>)
    requires |s| == N && forall i :: 0 <= i < |sizes| ==> sizes[i] >= N
    ensures |out| == 4 * SumOf(sizes, |sizes|) + n && forall k :: 0 <= k < |out| ==> out[k] == U(Recur, Lane32, s, k)
  {
    out := Draw(Recur, Lane32, s, sizes, n);
  }
}
