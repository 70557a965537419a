/** The heapsort of `pintos/src/lib/stdlib.c` on an array of `cnt` elements of
    `size` bytes each, swapped byte by byte and compared by a function that the
    caller passes.  Indexes into the heap start at 1. */
module HeapSort {
  import opened Basics

  type Elem = seq<Byte>
  type Compare = (Elem, Elem) -> int

  /** What the caller's comparison must be on elements of `size` bytes, the only ones
      it is given: a total order up to ties. */
  ghost predicate TotalPreorder(cmp: Compare, size: nat) {
    && (forall a, b :: |a| == |b| == size && cmp(a, b) > 0 ==> cmp(b, a) < 0)
    && (forall a, b, c :: |a| == |b| == |c| == size && cmp(a, b) <= 0 && cmp(b, c) <= 0 ==> cmp(a, c) <= 0)
  }

  ghost predicate AllSized(v: seq<Elem>, size: nat) {
    forall k :: 0 <= k < |v| ==> |v[k]| == size
  }

  /** Where element `k` begins. */
  function Ofs(size: nat, k: nat): nat {
    k * size
  }

  /** The elements as the caller sees them. */
  ghost function View(bytes: seq<Byte>, size: nat, cnt: nat): (v: seq<Elem>)
    requires Ofs(size, cnt) <= |bytes|
    ensures |v| == cnt && AllSized(v, size)
  {
    seq(cnt, k requires 0 <= k < cnt => ElemAt(bytes, size, cnt, k))
  }

  ghost function ElemAt(bytes: seq<Byte>, size: nat, cnt: nat, k: nat): Elem
    requires Ofs(size, cnt) <= |bytes| && k < cnt
    ensures |ElemAt(bytes, size, cnt, k)| == size
  {
    ElemFits(size, k, cnt);
    bytes[Ofs(size, k)..Ofs(size, k) + size]
  }

  lemma ElemFits(size: nat, k: nat, cnt: nat)
    requires k < cnt
    ensures Ofs(size, k) + size <= Ofs(size, cnt)
  {
    Room(size, k, cnt);
  }

  /** Different elements share no byte. */
  lemma ElemsApart(size: nat, j: nat, k: nat)
    requires j != k
    ensures Ofs(size, j) + size <= Ofs(size, k) || Ofs(size, k) + size <= Ofs(size, j)
  {
    if j < k {
      ElemFits(size, j, k);
    } else {
      ElemFits(size, k, j);
    }
  }

  /** `v` with two elements exchanged (indexes from 1). */
  function Swapped(v: seq<Elem>, i: nat, j: nat): seq<Elem>
    requires 1 <= i <= |v| && 1 <= j <= |v|
  {
    v[i - 1 := v[j - 1]][j - 1 := v[i - 1]]
  }

  /** `do_swap`. */
  method DoSwap(a: array<Byte>, i: nat, j: nat, size: nat, ghost cnt: nat)
    requires Ofs(size, cnt) <= a.Length && 1 <= i <= cnt && 1 <= j <= cnt
    modifies a
    ensures View(a[..], size, cnt) == Swapped(View(old(a[..]), size, cnt), i, j)
    ensures a[Ofs(size, cnt)..] == old(a[Ofs(size, cnt)..])
  {
    hide Ofs;
    ElemFits(size, i - 1, cnt);
    ElemFits(size, j - 1, cnt);
    if i != j { ElemsApart(size, i - 1, j - 1); }
    var x, y := Ofs(size, i - 1), Ofs(size, j - 1);
    ghost var was := a[..];
    for k := 0 to size
      invariant forall p :: 0 <= p < a.Length ==> a[p] == Exchanged(was, x, y, k, p)
    {
      var t := a[x + k];
      a[x + k] := a[y + k];
      a[y + k] := t;
    }
    SwapIsExchange(was, a[..], size, cnt, i, j);
    assert forall p :: Ofs(size, cnt) <= p < a.Length ==> a[p] == was[p];
  }

  /** Byte `p` after the first `k` bytes at `x` and `y` have changed places. */
  ghost function Exchanged(was: seq<Byte>, x: nat, y: nat, k: nat, p: nat): Byte
    requires p < |was| && x + k <= |was| && y + k <= |was|
  {
    if x <= p < x + k then was[p - x + y] else if y <= p < y + k then was[p - y + x] else was[p]
  }

  lemma SwapIsExchange(was: seq<Byte>, now: seq<Byte>, size: nat, cnt: nat, i: nat, j: nat)
    requires Ofs(size, cnt) <= |was| == |now| && 1 <= i <= cnt && 1 <= j <= cnt
    requires Ofs(size, i - 1) + size <= |was| && Ofs(size, j - 1) + size <= |was|
    requires forall p :: 0 <= p < |now| ==> now[p] == Exchanged(was, Ofs(size, i - 1), Ofs(size, j - 1), size, p)
    ensures View(now, size, cnt) == Swapped(View(was, size, cnt), i, j)
  {
    hide Ofs, Exchanged;
    forall k | 0 <= k < cnt
      ensures View(now, size, cnt)[k] == Swapped(View(was, size, cnt), i, j)[k]
    {
      ElemSwapped(was, now, size, cnt, i, j, k);
    }
  }

  lemma ElemSwapped(was: seq<Byte>, now: seq<Byte>, size: nat, cnt: nat, i: nat, j: nat, k: nat)
    requires Ofs(size, cnt) <= |was| == |now| && 1 <= i <= cnt && 1 <= j <= cnt && k < cnt
    requires Ofs(size, i - 1) + size <= |was| && Ofs(size, j - 1) + size <= |was|
    requires forall p :: 0 <= p < |now| ==> now[p] == Exchanged(was, Ofs(size, i - 1), Ofs(size, j - 1), size, p)
    ensures ElemAt(now, size, cnt, k) == if k == i - 1 then ElemAt(was, size, cnt, j - 1)
                                         else if k == j - 1 then ElemAt(was, size, cnt, i - 1) else ElemAt(was, size, cnt, k)
  {
    hide Exchanged, Ofs;
    ElemFits(size, i - 1, cnt);
    ElemFits(size, j - 1, cnt);
    ElemFits(size, k, cnt);
    if k != i - 1 { ElemsApart(size, k, i - 1); }
    if k != j - 1 { ElemsApart(size, k, j - 1); }
    if i != j { ElemsApart(size, i - 1, j - 1); }
    SwapAt(was, now, Ofs(size, i - 1), Ofs(size, j - 1), Ofs(size, k), size);
  }

  /** What the exchange of the stretches at `x` and `y` does to the one at `z`. */
  lemma SwapAt(was: seq<Byte>, now: seq<Byte>, x: nat, y: nat, z: nat, size: nat)
    requires |was| == |now| && x + size <= |was| && y + size <= |was| && z + size <= |was|
    requires x == y || x + size <= y || y + size <= x
    requires (z == x || z + size <= x || x + size <= z) && (z == y || z + size <= y || y + size <= z)
    requires forall p :: 0 <= p < |now| ==> now[p] == Exchanged(was, x, y, size, p)
    ensures now[z..z + size] == if z == x then was[y..y + size] else if z == y then was[x..x + size] else was[z..z + size]
  {}

  // ---- Heaps ----

  /** Element `j` is not above its parent. */
  ghost predicate Under(v: seq<Elem>, cmp: Compare, j: nat)
    requires 2 <= j <= |v|
  {
    cmp(v[j - 1], v[j / 2 - 1]) <= 0
  }

  /** The elements up to `n` that have a parent from `lo` on are in heap order. */
  ghost predicate Heap(v: seq<Elem>, cmp: Compare, lo: nat, n: nat)
    requires n <= |v|
  {
    forall j :: 2 <= j <= n && lo <= j / 2 ==> Under(v, cmp, j)
  }

  /** The same, except that `i` may be too small for its place. */
  ghost predicate HeapBut(v: seq<Elem>, cmp: Compare, lo: nat, n: nat, i: nat)
    requires 1 <= i && n <= |v|
  {
    && (forall j :: 2 <= j <= n && lo <= j / 2 && j / 2 != i ==> Under(v, cmp, j))
    && (forall j :: 2 <= j <= n && j / 2 == i && 1 <= lo <= i / 2 ==> BelowGrandparent(v, cmp, j))
  }

  ghost predicate BelowGrandparent(v: seq<Elem>, cmp: Compare, j: nat)
    requires 4 <= j <= |v|
  {
    cmp(v[j - 1], v[j / 2 / 2 - 1]) <= 0
  }

  /** `max` is the largest of `i` and its children. */
  ghost predicate Largest(v: seq<Elem>, cmp: Compare, n: nat, i: nat, max: nat)
    requires 1 <= i <= n <= |v| && 1 <= max <= n
  {
    && (max == i || max == 2 * i || max == 2 * i + 1)
    && cmp(v[i - 1], v[max - 1]) <= 0
    && (2 * i <= n ==> cmp(v[2 * i - 1], v[max - 1]) <= 0)
    && (2 * i + 1 <= n ==> cmp(v[2 * i], v[max - 1]) <= 0)
  }

  /** One step of floating down. */
  lemma FloatStep(v: seq<Elem>, cmp: Compare, lo: nat, n: nat, i: nat, max: nat)
    requires 1 <= lo <= i <= n <= |v| && 1 <= max <= n && max != i
    requires HeapBut(v, cmp, lo, n, i) && Largest(v, cmp, n, i, max)
    ensures HeapBut(Swapped(v, i, max), cmp, lo, n, max)
  {
    var w := Swapped(v, i, max);
    forall j | 2 <= j <= n && lo <= j / 2 && j / 2 != max
      ensures Under(w, cmp, j)
    {
      if j / 2 != i {
        assert Under(v, cmp, j);
        assert j == i ==> BelowGrandparent(v, cmp, max);
      }
    }
    forall j | 2 <= j <= n && j / 2 == max
      ensures BelowGrandparent(w, cmp, j)
    {
      assert Under(v, cmp, j);
    }
  }

  lemma FloatDone(v: seq<Elem>, cmp: Compare, lo: nat, n: nat, i: nat)
    requires 1 <= lo <= i <= n <= |v| && HeapBut(v, cmp, lo, n, i) && Largest(v, cmp, n, i, i)
    ensures Heap(v, cmp, lo, n)
  {
    forall j | 2 <= j <= n && lo <= j / 2
      ensures Under(v, cmp, j)
    {
      if j / 2 == i {
        assert j == 2 * i || j == 2 * i + 1;
      }
    }
  }

  /** The root of a heap is its largest element. */
  lemma {:induction false} RootIsMax(v: seq<Elem>, cmp: Compare, size: nat, n: nat, j: nat)
    requires TotalPreorder(cmp, size) && AllSized(v, size) && 1 <= j <= n <= |v| && Heap(v, cmp, 1, n)
    ensures cmp(v[j - 1], v[0]) <= 0
  {
    if j > 1 {
      RootIsMax(v, cmp, size, n, j / 2);
      assert Under(v, cmp, j);
    }
  }

  /** The first `n` elements are rearranged among themselves. */
  ghost predicate Permuted(v: seq<Elem>, w: seq<Elem>, n: nat) {
    n <= |v| == |w| && multiset(w[..n]) == multiset(v[..n]) && w[n..] == v[n..]
  }

  lemma PermutedSame(v: seq<Elem>, n: nat)
    requires n <= |v|
    ensures Permuted(v, v, n)
  {}

  lemma PermutedTrans(u: seq<Elem>, v: seq<Elem>, w: seq<Elem>, n: nat)
    requires Permuted(u, v, n) && Permuted(v, w, n)
    ensures Permuted(u, w, n)
  {}

  lemma PermutedMore(v: seq<Elem>, w: seq<Elem>, n: nat, m: nat)
    requires Permuted(v, w, n) && n <= m <= |v|
    ensures Permuted(v, w, m)
  {
    assert v[..m] == v[..n] + v[n..][..m - n] && w[..m] == w[..n] + w[n..][..m - n];
    assert v[m..] == v[n..][m - n..] && w[m..] == w[n..][m - n..];
  }

  lemma SwapPermutes(v: seq<Elem>, i: nat, j: nat, n: nat)
    requires 1 <= i <= n <= |v| && 1 <= j <= n
    ensures Permuted(v, Swapped(v, i, j), n)
  {
    assert Swapped(v, i, j)[..n] == v[..n][i - 1 := v[j - 1]][j - 1 := v[i - 1]];
  }

  /** The first half of a round of `heapify`: the largest of an element and its
      children, if any. */
  method LargestOf(a: array<Byte>, i: nat, n: nat, size: nat, cmp: Compare, ghost cnt: nat) returns (max: nat)
    requires TotalPreorder(cmp, size) && Ofs(size, cnt) <= a.Length && 1 <= i <= n <= cnt
    ensures 1 <= max <= n && i <= max && Largest(View(a[..], size, cnt), cmp, n, i, max)
  {
    hide View, Ofs, TotalPreorder, AllSized;
    ghost var v := View(a[..], size, cnt);
    var left, right := 2 * i, 2 * i + 1;
    max := i;
    NotAbove(v, cmp, size, i, i);
    if left <= n {
      var c := DoCompare(a, left, max, size, cmp, cnt);
      if c > 0 {
        NotAbove(v, cmp, size, max, left);
        max := left;
      }
    }
    if right <= n {
      var c := DoCompare(a, right, max, size, cmp, cnt);
      if c > 0 {
        NotAbove(v, cmp, size, max, right);
        Through(v, cmp, size, i, max, right);
        if left <= n { Through(v, cmp, size, left, max, right); }
        max := right;
      }
    }
    NotAbove(v, cmp, size, max, max);
  }

  lemma NotAbove(v: seq<Elem>, cmp: Compare, size: nat, i: nat, j: nat)
    requires TotalPreorder(cmp, size) && AllSized(v, size) && 1 <= i <= |v| && 1 <= j <= |v|
    ensures cmp(v[j - 1], v[i - 1]) > 0 || i == j ==> cmp(v[i - 1], v[j - 1]) <= 0
  {}

  lemma Through(v: seq<Elem>, cmp: Compare, size: nat, i: nat, j: nat, k: nat)
    requires TotalPreorder(cmp, size) && AllSized(v, size) && 1 <= i <= |v| && 1 <= j <= |v| && 1 <= k <= |v|
    ensures cmp(v[i - 1], v[j - 1]) <= 0 && cmp(v[j - 1], v[k - 1]) <= 0 ==> cmp(v[i - 1], v[k - 1]) <= 0
  {}

  /** `heapify`: the element at `i` floats down to its place. */
  method Heapify(a: array<Byte>, i: nat, n: nat, size: nat, cmp: Compare, ghost lo: nat, ghost cnt: nat)
    requires TotalPreorder(cmp, size) && Ofs(size, cnt) <= a.Length && 1 <= lo <= i <= n <= cnt
    requires HeapBut(View(a[..], size, cnt), cmp, lo, n, i)
    modifies a
    ensures Heap(View(a[..], size, cnt), cmp, lo, n)
    ensures Permuted(View(old(a[..]), size, cnt), View(a[..], size, cnt), n)
    ensures a[Ofs(size, cnt)..] == old(a[Ofs(size, cnt)..])
  {
    hide HeapBut, Heap, View, Ofs, Permuted, TotalPreorder, AllSized, Largest;
    ghost var was := View(a[..], size, cnt);
    var i := i;
    PermutedSame(was, n);
    while true
      invariant lo <= i <= n && HeapBut(View(a[..], size, cnt), cmp, lo, n, i)
      invariant Permuted(was, View(a[..], size, cnt), n)
      invariant a[Ofs(size, cnt)..] == old(a[Ofs(size, cnt)..])
      decreases n - i
    {
      ghost var v := View(a[..], size, cnt);
      var max := LargestOf(a, i, n, size, cmp, cnt);
      if max == i {
        FloatDone(v, cmp, lo, n, i);
        break;
      }
      FloatStep(v, cmp, lo, n, i, max);
      SwapPermutes(v, i, max, n);
      DoSwap(a, i, max, size, cnt);
      PermutedTrans(was, v, Swapped(v, i, max), n);
      i := max;
    }
  }

  /** `do_compare`. */
  method DoCompare(a: array<Byte>, i: nat, j: nat, size: nat, cmp: Compare, ghost cnt: nat) returns (c: int)
    requires Ofs(size, cnt) <= a.Length && 1 <= i <= cnt && 1 <= j <= cnt
    ensures c == cmp(View(a[..], size, cnt)[i - 1], View(a[..], size, cnt)[j - 1])
  {
    hide Ofs;
    ElemFits(size, i - 1, cnt);
    ElemFits(size, j - 1, cnt);
    var x, y := Ofs(size, i - 1), Ofs(size, j - 1);
    c := cmp(a[x..x + size], a[y..y + size]);
    assert a[..][x..x + size] == a[x..x + size] && a[..][y..y + size] == a[y..y + size];
  }

  ghost predicate Sorted(v: seq<Elem>, cmp: Compare, from: nat) {
    forall i, j :: from <= i < j < |v| ==> cmp(v[i], v[j]) <= 0
  }

  /** Nothing up to `n` is above anything after it. */
  ghost predicate Parted(v: seq<Elem>, cmp: Compare, n: nat) {
    forall i, j :: 0 <= i < n <= j < |v| ==> cmp(v[i], v[j]) <= 0
  }

  /** The largest element of the heap goes behind it. */
  lemma TakeRoot(v: seq<Elem>, cmp: Compare, size: nat, n: nat)
    requires TotalPreorder(cmp, size) && AllSized(v, size) && 2 <= n <= |v| && Heap(v, cmp, 1, n) && Sorted(v, cmp, n) && Parted(v, cmp, n)
    ensures HeapBut(Swapped(v, 1, n), cmp, 1, n - 1, 1)
    ensures Sorted(Swapped(v, 1, n), cmp, n - 1) && Parted(Swapped(v, 1, n), cmp, n - 1)
  {
    hide TotalPreorder;
    var w := Swapped(v, 1, n);
    forall j | 2 <= j <= n - 1 && 1 <= j / 2 && j / 2 != 1
      ensures Under(w, cmp, j)
    {
      assert Under(v, cmp, j);
    }
    forall j | 0 <= j < n
      ensures cmp(v[j], v[0]) <= 0
    {
      RootIsMax(v, cmp, size, n, j + 1);
    }
    MaxBehind(v, cmp, n);
  }

  lemma MaxBehind(v: seq<Elem>, cmp: Compare, n: nat)
    requires 2 <= n <= |v| && (forall j :: 0 <= j < n ==> cmp(v[j], v[0]) <= 0)
    requires Sorted(v, cmp, n) && Parted(v, cmp, n)
    ensures Sorted(Swapped(v, 1, n), cmp, n - 1) && Parted(Swapped(v, 1, n), cmp, n - 1)
  {}

  /** Rearranging the first `n` elements among themselves keeps what is sorted
      behind them. */
  lemma Rearranged(v: seq<Elem>, w: seq<Elem>, cmp: Compare, n: nat)
    requires Permuted(v, w, n) && Sorted(v, cmp, n) && Parted(v, cmp, n)
    ensures Sorted(w, cmp, n) && Parted(w, cmp, n)
  {
    forall j | n <= j < |v|
      ensures w[j] == v[j]
    {
      assert w[n..][j - n] == v[n..][j - n];
    }
    forall i, j | 0 <= i < n <= j < |v|
      ensures cmp(w[i], w[j]) <= 0
    {
      assert w[..n][i] in multiset(w[..n]);
      assert w[..n][i] in v[..n];
    }
  }

  /** One round of the second loop of `sort`. */
  method RetireRoot(a: array<Byte>, i: nat, size: nat, cmp: Compare, ghost cnt: nat)
    requires TotalPreorder(cmp, size) && Ofs(size, cnt) <= a.Length && 2 <= i <= cnt
    requires Heap(View(a[..], size, cnt), cmp, 1, i)
    requires Sorted(View(a[..], size, cnt), cmp, i) && Parted(View(a[..], size, cnt), cmp, i)
    modifies a
    ensures Heap(View(a[..], size, cnt), cmp, 1, i - 1)
    ensures Sorted(View(a[..], size, cnt), cmp, i - 1) && Parted(View(a[..], size, cnt), cmp, i - 1)
    ensures Permuted(View(old(a[..]), size, cnt), View(a[..], size, cnt), cnt)
    ensures a[Ofs(size, cnt)..] == old(a[Ofs(size, cnt)..])
  {
    hide View, Ofs, Heap, HeapBut, TotalPreorder, Sorted, Parted, Permuted, Swapped;
    ghost var v := View(a[..], size, cnt);
    TakeRoot(v, cmp, size, i);
    SwapPermutes(v, 1, i, cnt);
    DoSwap(a, 1, i, size, cnt);
    ghost var w := View(a[..], size, cnt);
    Heapify(a, 1, i - 1, size, cmp, 1, cnt);
    ghost var z := View(a[..], size, cnt);
    Rearranged(w, z, cmp, i - 1);
    PermutedMore(w, z, i - 1, cnt);
    PermutedTrans(v, w, z, cnt);
  }

  /** `sort`: the elements in order, each as often as before, for any comparison
      that is a total preorder; no byte behind them changes. */
  method Sort(a: array<Byte>, cnt: nat, size: nat, cmp: Compare)
    requires TotalPreorder(cmp, size) && size > 0 && Ofs(size, cnt) <= a.Length
    modifies a
    ensures Sorted(View(a[..], size, cnt), cmp, 0)
    ensures multiset(View(a[..], size, cnt)) == multiset(View(old(a[..]), size, cnt))
    ensures a[Ofs(size, cnt)..] == old(a[Ofs(size, cnt)..])
  {
    hide View, Ofs, Heap, HeapBut, TotalPreorder, Sorted, Parted, Permuted;
    ghost var was := View(a[..], size, cnt);
    var i: nat := cnt / 2;
    NoParents(was, cmp, cnt);
    PermutedSame(was, cnt);
    while i > 0
      invariant i <= cnt / 2 && Heap(View(a[..], size, cnt), cmp, i + 1, cnt)
      invariant Permuted(was, View(a[..], size, cnt), cnt)
      invariant a[Ofs(size, cnt)..] == old(a[Ofs(size, cnt)..])
    {
      ghost var v := View(a[..], size, cnt);
      OneMore(v, cmp, i, cnt);
      Heapify(a, i, cnt, size, cmp, i, cnt);
      PermutedTrans(was, v, View(a[..], size, cnt), cnt);
      i := i - 1;
    }
    i := cnt;
    NothingBehind(View(a[..], size, cnt), cmp);
    while i > 1
      invariant i <= cnt && Heap(View(a[..], size, cnt), cmp, 1, i)
      invariant Sorted(View(a[..], size, cnt), cmp, i) && Parted(View(a[..], size, cnt), cmp, i)
      invariant Permuted(was, View(a[..], size, cnt), cnt)
      invariant a[Ofs(size, cnt)..] == old(a[Ofs(size, cnt)..])
    {
      ghost var v := View(a[..], size, cnt);
      RetireRoot(a, i, size, cmp, cnt);
      PermutedTrans(was, v, View(a[..], size, cnt), cnt);
      i := i - 1;
    }
    OneLeft(View(a[..], size, cnt), cmp, i);
    SameElements(was, View(a[..], size, cnt), cnt);
  }

  lemma NoParents(v: seq<Elem>, cmp: Compare, n: nat)
    requires n == |v|
    ensures Heap(v, cmp, n / 2 + 1, n)
  {}

  lemma OneMore(v: seq<Elem>, cmp: Compare, i: nat, n: nat)
    requires 1 <= i && n <= |v| && Heap(v, cmp, i + 1, n)
    ensures HeapBut(v, cmp, i, n, i)
  {}

  lemma NothingBehind(v: seq<Elem>, cmp: Compare)
    ensures Sorted(v, cmp, |v|) && Parted(v, cmp, |v|)
  {}

  lemma OneLeft(v: seq<Elem>, cmp: Compare, n: nat)
    requires n <= 1 && n <= |v| && Sorted(v, cmp, n) && Parted(v, cmp, n)
    ensures Sorted(v, cmp, 0)
  {}

  lemma SameElements(v: seq<Elem>, w: seq<Elem>, n: nat)
    requires Permuted(v, w, n)
    ensures multiset(w) == multiset(v)
  {
    assert v == v[..n] + v[n..] && w == w[..n] + w[n..];
  }
}
