/** The weighted heap of BZ2_hbMakeCodeLengths in huffman.c: UPHEAP, DOWNHEAP and removal of the lightest node. */
module HuffmanHeap {
  import opened Common

  // ---------------------------------------------------------------- the heap

  ghost function Entry(h: seq<int>, i: int): (x: int) {
    if 0 <= i < |h| then h[i] else 0
  }

  ghost predicate Stands(h: seq<int>, n: nat, x: int) {
    exists i :: 1 <= i <= n && Entry(h, i) == x
  }

  /** h[1..n] holds the members of r, each once; h[0] is the sentinel. */
  ghost predicate Holding(h: seq<int>, n: nat, r: set<int>) {
    && n < |h| && h[0] == 0
    && (forall i {:trigger Entry(h, i)} :: 1 <= i <= n ==> Entry(h, i) in r)
    && (forall i, j {:trigger Entry(h, i), Entry(h, j)} :: 1 <= i < j <= n ==> Entry(h, i) != Entry(h, j))
    && (forall x {:trigger Stands(h, n, x)} :: x in r ==> Stands(h, n, x))
  }

  /** The weight at place i of the heap. */
  ghost function Key(h: seq<int>, w: seq<int>, i: int): (r: int) {
    if 0 <= Entry(h, i) < |w| then w[Entry(h, i)] else 0
  }

  ghost predicate Weighed(h: seq<int>, n: nat, w: seq<int>) {
    n < |h| && forall i {:trigger Entry(h, i)} :: 0 <= i <= n ==> 0 <= Entry(h, i) < |w|
  }

  /** No node is lighter than its parent, except perhaps the one at place z (up) or its children (down). */
  ghost predicate HeapBut(h: seq<int>, n: nat, w: seq<int>, z: nat) {
    && (forall i {:trigger Key(h, w, i)} :: 2 <= i <= n && i != z ==> i / 2 == z || Key(h, w, i / 2) <= Key(h, w, i))
    && (forall i {:trigger Key(h, w, i)} :: 2 <= i <= n && i / 2 == z && z >= 2 ==> Key(h, w, z / 2) <= Key(h, w, i))
  }

  ghost predicate Below(h: seq<int>, n: nat, w: seq<int>, z: nat) {
    forall i {:trigger Key(h, w, i)} :: 2 <= i <= n && i / 2 == z ==> Key(h, w, z) <= Key(h, w, i)
  }

  ghost predicate Heap(h: seq<int>, n: nat, w: seq<int>) {
    forall i {:trigger Key(h, w, i)} :: 2 <= i <= n ==> Key(h, w, i / 2) <= Key(h, w, i)
  }

  lemma {:induction false} HeapMin(h: seq<int>, n: nat, w: seq<int>, i: nat)
    requires Heap(h, n, w) && 1 <= i <= n
    ensures Key(h, w, 1) <= Key(h, w, i)
    decreases i
  {
    if i >= 2 {
      HeapMin(h, n, w, i / 2);
    }
  }

  lemma {:induction false} SwapHolding(h: seq<int>, n: nat, w: seq<int>, r: set<int>, i: nat, j: nat)
    requires Holding(h, n, r) && 1 <= i <= n && 1 <= j <= n
    ensures Holding(Swapped(h, i, j), n, r) && (Weighed(h, n, w) ==> Weighed(Swapped(h, i, j), n, w))
  {
    var g := Swapped(h, i, j);
    assert Entry(h, i) == h[i] && Entry(h, j) == h[j];
    assert forall k {:trigger Entry(g, k)} :: 0 <= k <= n && k != i && k != j ==> Entry(g, k) == Entry(h, k);
    forall x {:trigger Stands(g, n, x)} | x in r
      ensures Stands(g, n, x)
    {
      assert Stands(h, n, x);
      var k :| 1 <= k <= n && Entry(h, k) == x;
      var k' := if k == i then j else if k == j then i else k;
      assert Entry(g, k') == x;
    }
  }

  lemma {:induction false} UpStep(g: seq<int>, n: nat, w: seq<int>, z: nat)
    requires Weighed(g, n, w) && 2 <= z <= n && HeapBut(g, n, w, z) && Below(g, n, w, z)
        && Key(g, w, z) < Key(g, w, z / 2)
    ensures HeapBut(Swapped(g, z, z / 2), n, w, z / 2) && Below(Swapped(g, z, z / 2), n, w, z / 2)
  {
    var f := Swapped(g, z, z / 2);
    assert forall i :: 0 <= i <= n && i != z && i != z / 2 ==> Key(f, w, i) == Key(g, w, i);
    assert Key(f, w, z) == Key(g, w, z / 2) && Key(f, w, z / 2) == Key(g, w, z);
    forall i {:trigger Key(f, w, i)} | 2 <= i <= n && i != z / 2
      ensures i / 2 == z / 2 || Key(f, w, i / 2) <= Key(f, w, i)
    {
      assert Key(g, w, i) == Key(g, w, i);
    }
    forall i {:trigger Key(f, w, i)} | 2 <= i <= n && i / 2 == z / 2
      ensures z / 2 >= 2 ==> Key(f, w, z / 2 / 2) <= Key(f, w, i)
      ensures Key(f, w, z / 2) <= Key(f, w, i)
    {
      assert Key(g, w, i) == Key(g, w, i) && Key(g, w, z / 2) == Key(g, w, z / 2);
    }
  }

  lemma {:induction false} DownStep(g: seq<int>, n: nat, w: seq<int>, z: nat, y: nat)
    requires Weighed(g, n, w) && 1 <= z && y / 2 == z && 2 <= y <= n && HeapBut(g, n, w, z)
    requires z >= 2 ==> Key(g, w, z / 2) <= Key(g, w, z)
    requires Key(g, w, y) <= Key(g, w, z)
    requires forall i {:trigger Key(g, w, i)} :: 2 <= i <= n && i / 2 == z ==> Key(g, w, y) <= Key(g, w, i)
    ensures HeapBut(Swapped(g, z, y), n, w, y) && Key(Swapped(g, z, y), w, y / 2) <= Key(Swapped(g, z, y), w, y)
  {
    var f := Swapped(g, z, y);
    assert forall i :: 0 <= i <= n && i != z && i != y ==> Key(f, w, i) == Key(g, w, i);
    assert Key(f, w, z) == Key(g, w, y) && Key(f, w, y) == Key(g, w, z);
    forall i {:trigger Key(f, w, i)} | 2 <= i <= n
      ensures i != y ==> i / 2 == y || Key(f, w, i / 2) <= Key(f, w, i)
      ensures i / 2 == y ==> Key(f, w, y / 2) <= Key(f, w, i)
    {
      assert Key(g, w, i) == Key(g, w, i);
    }
  }

  lemma {:induction false} HeapClosed(g: seq<int>, n: nat, w: seq<int>, z: nat)
    requires HeapBut(g, n, w, z) && Below(g, n, w, z) && (2 <= z <= n ==> Key(g, w, z / 2) <= Key(g, w, z))
    ensures Heap(g, n, w)
  {
  }

  /** h[1..n] is a heap, by the weights w, of the members of r. */
  ghost predicate OnHeap(h: seq<int>, n: nat, w: seq<int>, r: set<int>) {
    n < |h| && forall k {:trigger Unfold(k)} :: Unfold(k) ==> Weighed(h, n, w) && Holding(h, n, r) && Heap(h, n, w)
  }

  /** ... except that the first entry may be too heavy, */
  ghost predicate TopLoose(h: seq<int>, n: nat, w: seq<int>, r: set<int>) {
    n < |h| && forall k {:trigger Unfold(k)} :: Unfold(k) ==> Weighed(h, n, w) && Holding(h, n, r) && HeapBut(h, n, w, 1)
  }

  /** ... or the last too light. */
  ghost predicate LastLoose(h: seq<int>, n: nat, w: seq<int>, r: set<int>) {
    1 <= n < |h| && forall k {:trigger Unfold(k)} :: Unfold(k) ==> Weighed(h, n, w) && Holding(h, n, r) && Heap(h, n - 1, w)
  }

  /** The heap while the entry tmp is being moved: h with tmp put in its gap at z. */
  ghost predicate Rising(h: seq<int>, tmp: int, n: nat, w: seq<int>, r: set<int>, z: nat) {
    && 1 <= z <= n < |h|
    && forall k {:trigger Unfold(k)} :: Unfold(k) ==>
         var g := h[z := tmp];
         Weighed(g, n, w) && Holding(g, n, r) && HeapBut(g, n, w, z) && Below(g, n, w, z)
  }

  ghost predicate Sinking(h: seq<int>, tmp: int, n: nat, w: seq<int>, r: set<int>, z: nat) {
    && 1 <= z <= n < |h|
    && forall k {:trigger Unfold(k)} :: Unfold(k) ==>
         var g := h[z := tmp];
         Weighed(g, n, w) && Holding(g, n, r) && HeapBut(g, n, w, z) && (z >= 2 ==> Key(g, w, z / 2) <= Key(g, w, z))
  }

  lemma {:induction false} RiseStart(h: seq<int>, z: nat, w: seq<int>, r: set<int>)
    requires LastLoose(h, z, w, r)
    ensures Rising(h, h[z], z, w, r, z)
  {
    assert Unfold(0);
    assert h[z := h[z]] == h;
  }

  lemma {:induction false} SinkStart(h: seq<int>, n: nat, w: seq<int>, r: set<int>)
    requires 1 <= n && TopLoose(h, n, w, r)
    ensures Sinking(h, h[1], n, w, r, 1)
  {
    assert Unfold(0);
    assert h[1 := h[1]] == h;
  }

  lemma {:induction false} RisingSafe(h: seq<int>, tmp: int, n: nat, w: seq<int>, r: set<int>, z: nat)
    requires Rising(h, tmp, n, w, r, z)
    ensures 0 <= tmp < |w| && 0 <= (if z == 1 then 0 else h[z / 2]) < |w| && tmp in r && h[0] == 0
  {
    assert Unfold(0);
    var g := h[z := tmp];
    assert Entry(g, z) == tmp && Entry(g, z / 2) == h[z / 2] && Entry(g, 0) == h[0];
  }

  lemma {:induction false} RiseOne(h: seq<int>, tmp: int, n: nat, w: seq<int>, r: set<int>, z: nat)
    requires Rising(h, tmp, n, w, r, z) && z >= 2 && 0 <= tmp < |w| && 0 <= h[z / 2] < |w| && w[tmp] < w[h[z / 2]]
    ensures Rising(h[z := h[z / 2]], tmp, n, w, r, z / 2)
  {
    assert Unfold(0);
    var g := h[z := tmp];
    assert Entry(g, z) == tmp && Entry(g, z / 2) == h[z / 2];
    UpStep(g, n, w, z);
    SwapHolding(g, n, w, r, z, z / 2);
    assert h[z := h[z / 2]][z / 2 := tmp] == Swapped(g, z, z / 2);
  }

  lemma {:induction false} RiseEnd(h: seq<int>, tmp: int, n: nat, w: seq<int>, r: set<int>, z: nat)
    requires Rising(h, tmp, n, w, r, z) && 0 <= tmp < |w| && 0 <= h[z / 2] < |w| && w[tmp] >= w[h[z / 2]]
    ensures OnHeap(h[z := tmp], n, w, r)
  {
    assert Unfold(0);
    var g := h[z := tmp];
    assert Entry(g, z) == tmp && Entry(g, z / 2) == h[z / 2];
    assert Key(g, w, z) == w[tmp];
    HeapClosed(g, n, w, z);
  }

  /** UPHEAP(z): sifts the last entry up to its place. */
  method UpHeap(heap: array<int>, w: seq<int>, z: nat, ghost r: set<int>)
    requires LastLoose(heap[..], z, w, r)
    requires |w| > 0 && w[0] == 0 && forall x :: x in r && 0 <= x < |w| ==> w[x] > 0
    modifies heap
    ensures OnHeap(heap[..], z, w, r)
  {
    var zz: nat := z;
    var tmp := heap[zz];
    RiseStart(heap[..], z, w, r);
    RisingSafe(heap[..], tmp, z, w, r, zz);
    while w[tmp] < w[heap[zz / 2]]
      invariant Rising(heap[..], tmp, z, w, r, zz) && 0 <= tmp < |w| && 0 <= heap[zz / 2] < |w| && heap[0] == 0
          && w[tmp] > 0
      decreases zz
    {
      RiseOne(heap[..], tmp, z, w, r, zz);
      ghost var h := heap[..][zz := heap[zz / 2]];
      heap[zz] := heap[zz / 2];
      zz := zz / 2;
      assert heap[..] == h;
      RisingSafe(h, tmp, z, w, r, zz);
    }
    RiseEnd(heap[..], tmp, z, w, r, zz);
    ghost var h := heap[..][zz := tmp];
    heap[zz] := tmp;
    assert heap[..] == h;
  }

  lemma {:induction false} SinkingSafe(h: seq<int>, tmp: int, n: nat, w: seq<int>, r: set<int>, z: nat)
    requires Sinking(h, tmp, n, w, r, z)
    ensures 0 <= tmp < |w|
    ensures 2 * z <= n ==> 0 <= h[2 * z] < |w|
    ensures 2 * z + 1 <= n ==> 0 <= h[2 * z + 1] < |w|
  {
    assert Unfold(0);
    var g := h[z := tmp];
    assert Entry(g, z) == tmp;
    assert 2 * z <= n ==> Entry(g, 2 * z) == h[2 * z];
    assert 2 * z + 1 <= n ==> Entry(g, 2 * z + 1) == h[2 * z + 1];
  }

  lemma {:induction false} SinkOne(h: seq<int>, tmp: int, n: nat, w: seq<int>, r: set<int>, z: nat, y: nat)
    requires Sinking(h, tmp, n, w, r, z) && (y == 2 * z || y == 2 * z + 1) && y <= n
    requires 0 <= tmp < |w| && 0 <= h[y] < |w| && w[h[y]] <= w[tmp]
    requires y == 2 * z && y < n ==> 0 <= h[y + 1] < |w| && w[h[y]] <= w[h[y + 1]]
    requires y == 2 * z + 1 ==> 0 <= h[y - 1] < |w| && w[h[y]] <= w[h[y - 1]]
    ensures Sinking(h[z := h[y]], tmp, n, w, r, y)
  {
    assert Unfold(0);
    var g := h[z := tmp];
    assert Entry(g, z) == tmp && Entry(g, y) == h[y];
    assert Key(g, w, y) <= Key(g, w, z);
    forall i {:trigger Key(g, w, i)} | 2 <= i <= n && i / 2 == z
      ensures Key(g, w, y) <= Key(g, w, i)
    {
      Children(i, z);
    }
    DownStep(g, n, w, z, y);
    SwapHolding(g, n, w, r, z, y);
    assert h[z := h[y]][y := tmp] == Swapped(g, z, y);
  }

  lemma Children(i: int, z: int)
    requires i / 2 == z
    ensures i == 2 * z || i == 2 * z + 1
  {
  }

  lemma {:induction false} SinkEnd(h: seq<int>, tmp: int, n: nat, w: seq<int>, r: set<int>, z: nat)
    requires Sinking(h, tmp, n, w, r, z) && 0 <= tmp < |w|
    requires 2 * z <= n ==> 0 <= h[2 * z] < |w| && w[tmp] <= w[h[2 * z]]
    requires 2 * z + 1 <= n ==> 0 <= h[2 * z + 1] < |w| && w[tmp] <= w[h[2 * z + 1]]
    ensures OnHeap(h[z := tmp], n, w, r)
  {
    assert Unfold(0);
    var g := h[z := tmp];
    assert Entry(g, z) == tmp && Key(g, w, z) == w[tmp];
    assert 2 * z <= n ==> Entry(g, 2 * z) == h[2 * z] && Key(g, w, 2 * z) == w[h[2 * z]];
    assert 2 * z + 1 <= n ==> Entry(g, 2 * z + 1) == h[2 * z + 1] && Key(g, w, 2 * z + 1) == w[h[2 * z + 1]];
    forall i {:trigger Key(g, w, i)} | 2 <= i <= n && i / 2 == z
      ensures Key(g, w, z) <= Key(g, w, i)
    {
      Children(i, z);
    }
    HeapClosed(g, n, w, z);
  }

  /** DOWNHEAP(1): sifts the first entry down to its place. */
  method DownHeap(heap: array<int>, w: seq<int>, n: nat, ghost r: set<int>)
    requires 1 < heap.Length && TopLoose(heap[..], n, w, r)
    modifies heap
    ensures OnHeap(heap[..], n, w, r)
  {
    if n == 0 { return; }
    var zz := 1;
    var tmp := heap[zz];
    SinkStart(heap[..], n, w, r);
    while true
      invariant Sinking(heap[..], tmp, n, w, r, zz)
      decreases n - zz
    {
      SinkingSafe(heap[..], tmp, n, w, r, zz);
      var yy := 2 * zz;
      if yy > n {
        break;
      }
      if yy < n && w[heap[yy + 1]] < w[heap[yy]] {
        yy := yy + 1;
      }
      if w[tmp] < w[heap[yy]] {
        break;
      }
      SinkOne(heap[..], tmp, n, w, r, zz, yy);
      ghost var h := heap[..][zz := heap[yy]];
      heap[zz] := heap[yy];
      zz := yy;
      assert heap[..] == h;
    }
    SinkEnd(heap[..], tmp, n, w, r, zz);
    ghost var h := heap[..][zz := tmp];
    heap[zz] := tmp;
    assert heap[..] == h;
  }

  /** x is a lightest member of r. */
  ghost predicate Least(w: seq<int>, r: set<int>, x: int) {
    0 <= x < |w| && x in r && forall y :: y in r ==> 0 <= y < |w| && w[x] <= w[y]
  }

  lemma {:induction false} RemoveFirst(h: seq<int>, n: nat, w: seq<int>, r: set<int>)
    requires 1 <= n && OnHeap(h, n, w, r)
    ensures TopLoose(h[1 := h[n]], n - 1, w, r - {h[1]}) && Least(w, r, h[1])
  {
    assert Unfold(0);
    var g := h[1 := h[n]];
    assert 0 <= Entry(h, 1) < |w|;
    assert forall k {:trigger Entry(g, k)} :: 0 <= k <= n && k != 1 ==> Entry(g, k) == Entry(h, k);
    assert Entry(g, 1) == Entry(h, n) && Entry(h, 1) == h[1];
    forall x | x in r
      ensures 0 <= x < |w| && w[h[1]] <= w[x]
      ensures x != h[1] ==> Stands(g, n - 1, x)
    {
      assert Stands(h, n, x);
      var k :| 1 <= k <= n && Entry(h, k) == x;
      HeapMin(h, n, w, k);
      assert Key(h, w, k) == w[x] && Key(h, w, 1) == w[h[1]];
      var k' := if k == n then 1 else k;
      assert x != h[1] ==> Entry(g, k') == x;
    }
    forall i {:trigger Key(g, w, i)} | 2 <= i <= n - 1
      ensures Key(g, w, i) == Key(h, w, i)
    {
    }
    forall i {:trigger Key(g, w, i)} | 2 <= i <= n - 1 && i / 2 != 1
      ensures Key(g, w, i / 2) <= Key(g, w, i)
    {
      assert Key(g, w, i) == Key(h, w, i) && Key(g, w, i / 2) == Key(h, w, i / 2);
    }
  }

  /** Takes the lightest entry off the heap. */
  method Pop(heap: array<int>, w: seq<int>, n: nat, ghost r: set<int>) returns (x: int)
    requires 1 <= n && OnHeap(heap[..], n, w, r)
    modifies heap
    ensures Least(w, r, x)
    ensures OnHeap(heap[..], n - 1, w, r - {x})
  {
    RemoveFirst(heap[..], n, w, r);
    ghost var g := heap[..][1 := heap[n]];
    x := heap[1];
    heap[1] := heap[n];
    assert heap[..] == g;
    DownHeap(heap, w, n - 1, r - {x});
  }

  /** x is no member of r and has its weight in w', which gives the members of r the weights they had in w. */
  ghost predicate Fresh(w: seq<int>, w': seq<int>, r: set<int>, x: int) {
    && 0 < |w| <= |w'| && 0 <= x < |w'| && x !in r && w[0] == 0 && w'[0] == 0 && w'[x] > 0
    && forall y :: y in r ==> 0 <= y < |w| && w'[y] == w[y] && w'[y] > 0
  }

  lemma {:induction false} PushLast(h: seq<int>, n: nat, w: seq<int>, w': seq<int>, r: set<int>, x: int)
    requires n + 1 < |h| && OnHeap(h, n, w, r) && Fresh(w, w', r, x)
    ensures LastLoose(h[n + 1 := x], n + 1, w', r + {x})
  {
    assert Unfold(0);
    var g := h[n + 1 := x];
    assert Entry(g, n + 1) == x && Entry(g, 0) == 0;
    assert forall k {:trigger Entry(g, k)} :: 0 <= k <= n ==> Entry(g, k) == Entry(h, k);
    forall i {:trigger Key(g, w', i)} | 1 <= i <= n
      ensures Key(g, w', i) == Key(h, w, i)
    {
      assert Entry(g, i) == Entry(h, i) && Entry(h, i) in r;
    }
    forall y {:trigger Stands(g, n + 1, y)} | y in r + {x}
      ensures Stands(g, n + 1, y)
    {
      if y != x {
        assert Stands(h, n, y);
        var k :| 1 <= k <= n && Entry(h, k) == y;
        assert Entry(g, k) == y;
      }
    }
    forall i {:trigger Key(g, w', i)} | 2 <= i <= n
      ensures Key(g, w', i / 2) <= Key(g, w', i)
    {
      assert Key(g, w', i) == Key(h, w, i) && Key(g, w', i / 2) == Key(h, w, i / 2);
    }
  }

  /** Puts x, whose weight is new, on the heap. */
  method Push(heap: array<int>, ghost w: seq<int>, w': seq<int>, n: nat, x: int, ghost r: set<int>)
    requires n + 1 < heap.Length && OnHeap(heap[..], n, w, r) && Fresh(w, w', r, x)
    modifies heap
    ensures OnHeap(heap[..], n + 1, w', r + {x})
  {
    PushLast(heap[..], n, w, w', r, x);
    ghost var g := heap[..][n + 1 := x];
    heap[n + 1] := x;
    assert heap[..] == g;
    UpHeap(heap, w', n + 1, r + {x});
  }
}
