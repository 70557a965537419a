/** B-trees as values: what `btInsert` of `HW2/code/bTree.c` makes of a tree of
    keys, and why the result is a B-tree of the same keys and the new one.
    `m` stands for MAX_KEYS. */
module BTreeSpec {
  /** A leaf has no kids; any other node has one kid more than keys. */
  datatype Tree = Node(keys: seq<int>, kids: seq<Tree>)

  /** What an insertion makes of a node: the node, or two halves and the key
      between them. */
  datatype Outcome = Done(t: Tree) | Split(left: Tree, median: int, right: Tree)

  ghost predicate Formed(t: Tree) {
    t.kids == [] || (|t.kids| == |t.keys| + 1 && forall i :: 0 <= i < |t.kids| ==> Formed(t.kids[i]))
  }

  /** The keys of a tree from left to right. */
  function Flat(t: Tree): seq<int>
    decreases t, 1
  {
    if t.kids == [] then t.keys else Weave(t.keys, Parts(t))
  }

  /** The keys below a node, kid by kid. */
  function Parts(t: Tree): (p: seq<seq<int>>)
    ensures |p| == |t.kids|
    decreases t, 0
  {
    seq(|t.kids|, i requires 0 <= i < |t.kids| => Flat(t.kids[i]))
  }

  /** The parts with the keys between them. */
  function Weave(keys: seq<int>, parts: seq<seq<int>>): seq<int> {
    if parts == [] then []
    else if keys == [] then parts[0]
    else parts[0] + [keys[0]] + Weave(keys[1..], parts[1..])
  }

  ghost predicate Increasing(s: seq<int>) {
    forall i, j :: 0 <= i < j < |s| ==> s[i] < s[j]
  }

  /** The least position whose key is not below `key`. */
  function Pos(s: seq<int>, key: int): (p: nat)
    ensures p <= |s|
    ensures forall i :: 0 <= i < p ==> s[i] < key
    ensures p < |s| ==> key <= s[p]
  {
    if s == [] || key <= s[0] then 0 else 1 + Pos(s[1..], key)
  }

  function InsertAt(s: seq<int>, p: nat, key: int): seq<int>
    requires p <= |s|
  {
    s[..p] + [key] + s[p..]
  }

  /** Splitting a node that has become full. */
  function Overflow(t: Tree, m: nat): Outcome {
    if |t.keys| < m || t.keys == [] then Done(t)
    else
      var mid := |t.keys| / 2;
      if t.kids == [] then Split(Node(t.keys[..mid], []), t.keys[mid], Node(t.keys[mid + 1..], []))
      else if |t.kids| <= mid + 1 then Done(t)
      else Split(Node(t.keys[..mid], t.kids[..mid + 1]), t.keys[mid], Node(t.keys[mid + 1..], t.kids[mid + 1..]))
  }

  /** A node whose kid at `pos` has become `o`. */
  function Adopt(t: Tree, pos: nat, o: Outcome): Tree
    requires pos < |t.kids| && pos <= |t.keys|
  {
    match o
    case Done(kid) => Node(t.keys, t.kids[pos := kid])
    case Split(l, x, r) => Node(InsertAt(t.keys, pos, x), t.kids[..pos] + [l, r] + t.kids[pos + 1..])
  }

  function InsertInto(t: Tree, key: int, m: nat): Outcome {
    var pos := Pos(t.keys, key);
    if pos < |t.keys| && t.keys[pos] == key then Done(t)
    else if t.kids == [] then Overflow(Node(InsertAt(t.keys, pos, key), []), m)
    else if pos < |t.kids| then Overflow(Adopt(t, pos, InsertInto(t.kids[pos], key, m)), m)
    else Done(t)
  }

  function InsertRoot(t: Tree, key: int, m: nat): Tree {
    match InsertInto(t, key, m)
    case Done(t') => t'
    case Split(l, x, r) => Node([x], [l, r])
  }

  function FlatOutcome(o: Outcome): seq<int> {
    match o
    case Done(t) => Flat(t)
    case Split(l, x, r) => Flat(l) + [x] + Flat(r)
  }

  /** The sorted list with `key` in its place. */
  function SortedInsert(s: seq<int>, key: int): seq<int> {
    var p := Pos(s, key);
    if p < |s| && s[p] == key then s else InsertAt(s, p, key)
  }

  // ---- Order ----

  lemma {:induction false} WeaveSplit(keys: seq<int>, parts: seq<seq<int>>, i: nat)
    requires |parts| == |keys| + 1 && i < |keys|
    ensures Weave(keys, parts) == Weave(keys[..i], parts[..i + 1]) + [keys[i]] + Weave(keys[i + 1..], parts[i + 1..])
  {
    if i > 0 {
      WeaveSplit(keys[1..], parts[1..], i - 1);
      assert keys[1..][..i - 1] == keys[..i][1..] && parts[1..][..i] == parts[..i + 1][1..];
      assert keys[1..][i..] == keys[i + 1..] && parts[1..][i..] == parts[i + 1..];
    }
  }

  /** What stands left and right of part `i`. */
  function Before(keys: seq<int>, parts: seq<seq<int>>, i: nat): seq<int>
    requires i <= |keys| && |parts| == |keys| + 1
  {
    if i == 0 then [] else Weave(keys[..i - 1], parts[..i]) + [keys[i - 1]]
  }

  function After(keys: seq<int>, parts: seq<seq<int>>, i: nat): seq<int>
    requires i <= |keys| && |parts| == |keys| + 1
  {
    if i == |keys| then [] else [keys[i]] + Weave(keys[i + 1..], parts[i + 1..])
  }

  lemma WeaveFrom(keys: seq<int>, parts: seq<seq<int>>, i: nat)
    requires |parts| == |keys| + 1 && i <= |keys|
    ensures Weave(keys[i..], parts[i..]) == parts[i] + After(keys, parts, i)
  {
    if i < |keys| {
      assert keys[i..][1..] == keys[i + 1..] && parts[i..][1..] == parts[i + 1..];
    }
  }

  lemma WeaveAround(keys: seq<int>, parts: seq<seq<int>>, i: nat)
    requires |parts| == |keys| + 1 && i <= |keys|
    ensures Weave(keys, parts) == Before(keys, parts, i) + parts[i] + After(keys, parts, i)
  {
    hide Weave;
    WeaveFrom(keys, parts, i);
    if i > 0 {
      WeaveSplit(keys, parts, i - 1);
    } else {
      assert keys[0..] == keys && parts[0..] == parts;
    }
  }

  /** One part grows. */
  lemma WeaveReplace(keys: seq<int>, parts: seq<seq<int>>, i: nat, part: seq<int>)
    requires |parts| == |keys| + 1 && i <= |keys|
    ensures Weave(keys, parts[i := part]) == Before(keys, parts, i) + part + After(keys, parts, i)
  {
    WeaveAround(keys, parts[i := part], i);
    assert parts[i := part][..i] == parts[..i] && parts[i := part][i + 1..] == parts[i + 1..];
  }

  /** One part falls apart into two. */
  lemma WeaveSpread(keys: seq<int>, parts: seq<seq<int>>, i: nat, l: seq<int>, x: int, r: seq<int>)
    requires |parts| == |keys| + 1 && i <= |keys|
    ensures Weave(InsertAt(keys, i, x), parts[..i] + [l, r] + parts[i + 1..])
         == Before(keys, parts, i) + (l + [x] + r) + After(keys, parts, i)
  {
    hide Weave;
    var ks, ps := InsertAt(keys, i, x), parts[..i] + [l, r] + parts[i + 1..];
    var b, a := Before(keys, parts, i), After(keys, parts, i);
    WeaveAround(ks, ps, i);
    WeaveFrom(ks, ps, i + 1);
    SpreadSlices(keys, i, [x], keys[i..]);
    SpreadSlices(parts, i, [l, r], parts[i + 1..]);
    assert ks[i + 1..] == keys[i..];
    assert Before(ks, ps, i) == b;
    assert After(ks, ps, i + 1) == a;
    assert After(ks, ps, i) == [x] + (r + a);
    assert b + l + ([x] + (r + a)) == b + (l + [x] + r) + a;
  }

  lemma SpreadSlices<T>(s: seq<T>, i: nat, mid: seq<T>, rest: seq<T>)
    requires i <= |s| && |mid| > 0
    ensures var z := s[..i] + mid + rest;
            && z[..i] == s[..i] && (i > 0 ==> z[..i - 1] == s[..i - 1] && z[i - 1] == s[i - 1])
            && z[i + |mid|..] == rest && z[i + |mid| - 1] == mid[|mid| - 1] && z[i] == mid[0]
            && (rest != [] ==> z[i + |mid|] == rest[0] && z[i + |mid| + 1..] == rest[1..])
  {}

  /** What stands left and right of kid `i`. */
  function Left(t: Tree, i: nat): seq<int>
    requires i <= |t.keys| && |t.kids| == |t.keys| + 1
  {
    Before(t.keys, Parts(t), i)
  }

  function Right(t: Tree, i: nat): seq<int>
    requires i <= |t.keys| && |t.kids| == |t.keys| + 1
  {
    After(t.keys, Parts(t), i)
  }

  lemma FlatAround(t: Tree, i: nat)
    requires i <= |t.keys| && |t.kids| == |t.keys| + 1
    ensures Flat(t) == Left(t, i) + Flat(t.kids[i]) + Right(t, i)
  {
    WeaveAround(t.keys, Parts(t), i);
  }

  lemma AdoptFlat(t: Tree, i: nat, o: Outcome)
    requires i <= |t.keys| && |t.kids| == |t.keys| + 1
    ensures Flat(Adopt(t, i, o)) == Left(t, i) + FlatOutcome(o) + Right(t, i)
  {
    var u := Adopt(t, i, o);
    match o
    case Done(kid) =>
      WeaveReplace(t.keys, Parts(t), i, Flat(kid));
      assert Parts(u) == Parts(t)[i := Flat(kid)];
    case Split(l, x, r) =>
      WeaveSpread(t.keys, Parts(t), i, Flat(l), x, Flat(r));
      assert Parts(u) == Parts(t)[..i] + [Flat(l), Flat(r)] + Parts(t)[i + 1..];
  }

  /** Splitting a node moves no key. */
  lemma OverflowFlat(t: Tree, m: nat)
    requires t.kids == [] || |t.kids| == |t.keys| + 1
    ensures FlatOutcome(Overflow(t, m)) == Flat(t)
  {
    hide Weave, Overflow, Parts;
    OverflowParts(t, m);
    if Overflow(t, m).Split? {
      var mid := |t.keys| / 2;
      if t.kids == [] {
        assert t.keys == t.keys[..mid] + [t.keys[mid]] + t.keys[mid + 1..];
      } else {
        WeaveSplit(t.keys, Parts(t), mid);
      }
    }
  }

  lemma OverflowParts(t: Tree, m: nat)
    requires t.kids == [] || |t.kids| == |t.keys| + 1
    ensures match Overflow(t, m)
            case Done(u) => u == t
            case Split(l, x, r) =>
              && t.keys != []
              && var mid := |t.keys| / 2;
                 && l.keys == t.keys[..mid] && x == t.keys[mid] && r.keys == t.keys[mid + 1..]
                 && (l.kids == [] <==> t.kids == []) && (r.kids == [] <==> t.kids == [])
                 && (t.kids != [] ==> Parts(l) == Parts(t)[..mid + 1] && Parts(r) == Parts(t)[mid + 1..])
  {}

  lemma OverflowIs(t: Tree, m: nat, l: Tree, r: Tree)
    requires |t.keys| >= m > 0 && (t.kids == [] || |t.kids| == |t.keys| + 1)
    requires var mid := |t.keys| / 2; var k := if t.kids == [] then 0 else mid + 1;
             l == Node(t.keys[..mid], t.kids[..k]) && r == Node(t.keys[mid + 1..], t.kids[k..])
    ensures Overflow(t, m) == Split(l, t.keys[|t.keys| / 2], r)
  {}

  lemma {:induction false} PosUnique(s: seq<int>, key: int, p: nat)
    requires p <= |s| && (forall i :: 0 <= i < p ==> s[i] < key) && (p < |s| ==> key <= s[p])
    ensures Pos(s, key) == p
  {
    if p > 0 { assert s[0] < key; PosUnique(s[1..], key, p - 1); }
  }

  lemma SortedInsertWithin(l: seq<int>, s: seq<int>, r: seq<int>, key: int)
    requires (forall i :: 0 <= i < |l| ==> l[i] < key) && (forall i :: 0 <= i < |r| ==> key < r[i])
    ensures SortedInsert(l + s + r, key) == l + SortedInsert(s, key) + r
  {
    hide Pos, InsertAt;
    var p, all := Pos(s, key), l + s + r;
    assert forall i :: |l| <= i < |l| + |s| ==> all[i] == s[i - |l|];
    assert p == |s| && r != [] ==> all[|l| + p] == r[0];
    PosUnique(all, key, |l| + p);
    InsertAtWithin(l, s, r, p, key);
  }

  lemma InsertAtWithin(l: seq<int>, s: seq<int>, r: seq<int>, p: nat, key: int)
    requires p <= |s|
    ensures InsertAt(l + s + r, |l| + p, key) == l + InsertAt(s, p, key) + r
  {
    assert (l + s + r)[..|l| + p] == l + s[..p];
    assert (l + s + r)[|l| + p..] == s[p..] + r;
  }

  /** The parts and keys of an increasing weave are where they belong. */
  ghost predicate Bounded(keys: seq<int>, part: seq<int>, i: nat) {
    forall x :: x in part ==> (0 < i <= |keys| ==> keys[i - 1] < x) && (i < |keys| ==> x < keys[i])
  }

  lemma AroundBounds(b: seq<int>, s: seq<int>, a: seq<int>)
    requires Increasing(b + s + a)
    ensures Increasing(b) && Increasing(s) && Increasing(a)
    ensures forall i, j :: 0 <= i < |b| && 0 <= j < |s| ==> b[i] < s[j]
    ensures forall i, j :: 0 <= i < |s| && 0 <= j < |a| ==> s[i] < a[j]
    ensures forall i, j :: 0 <= i < |b| && 0 <= j < |a| ==> b[i] < a[j]
  {
    var all := b + s + a;
    assert forall i :: 0 <= i < |b| ==> all[i] == b[i];
    assert forall i :: 0 <= i < |s| ==> all[|b| + i] == s[i];
    assert forall i :: 0 <= i < |a| ==> all[|b| + |s| + i] == a[i];
  }

  lemma EdgeKeys(keys: seq<int>, parts: seq<seq<int>>, i: nat)
    requires |parts| == |keys| + 1 && i <= |keys|
    ensures i > 0 ==> Before(keys, parts, i) != [] && Before(keys, parts, i)[|Before(keys, parts, i)| - 1] == keys[i - 1]
    ensures i < |keys| ==> After(keys, parts, i) != [] && After(keys, parts, i)[0] == keys[i]
  {}

  lemma WeaveOrdered(keys: seq<int>, parts: seq<seq<int>>)
    requires |parts| == |keys| + 1 && Increasing(Weave(keys, parts))
    ensures Increasing(keys)
    ensures forall i :: 0 <= i < |parts| ==> Increasing(parts[i]) && Bounded(keys, parts[i], i)
  {
    forall i | 0 <= i < |parts|
      ensures Increasing(parts[i]) && Bounded(keys, parts[i], i)
    {
      WeaveAround(keys, parts, i);
      AroundBounds(Before(keys, parts, i), parts[i], After(keys, parts, i));
      EdgeKeys(keys, parts, i);
    }
    forall i, j | 0 <= i < j < |keys|
      ensures keys[i] < keys[j]
    {
      WeaveSplit(keys, parts, j);
      var w := Weave(keys[..j], parts[..j + 1]);
      WeaveHas(keys[..j], parts[..j + 1], i);
      var k :| 0 <= k < |w| && w[k] == keys[i];
      assert Weave(keys, parts)[k] < Weave(keys, parts)[|w|];
    }
  }

  lemma NodeIncreasing(t: Tree)
    requires Formed(t) && Increasing(Flat(t))
    ensures Increasing(t.keys)
  {
    if t.kids != [] {
      WeaveOrdered(t.keys, Parts(t));
    }
  }

  lemma WeaveHas(keys: seq<int>, parts: seq<seq<int>>, i: nat)
    requires |parts| == |keys| + 1 && i < |keys|
    ensures keys[i] in Weave(keys, parts)
  {
    WeaveSplit(keys, parts, i);
  }

  ghost predicate AllAbove(s: seq<int>, b: int) {
    forall x :: x in s ==> b < x
  }

  lemma JoinIncreasing(f: seq<int>, k: int, w: seq<int>)
    requires Increasing(f) && Increasing(w) && AllAbove(w, k) && forall x :: x in f ==> x < k
    ensures Increasing(f + [k] + w)
  {
    assert forall i :: 0 <= i < |f| ==> f[i] in f;
    assert forall i :: 0 <= i < |w| ==> w[i] in w;
  }

  lemma {:induction false} OrderedWeave(keys: seq<int>, parts: seq<seq<int>>)
    requires |parts| == |keys| + 1 && Increasing(keys)
    requires forall i :: 0 <= i < |parts| ==> Increasing(parts[i]) && Bounded(keys, parts[i], i)
    ensures Increasing(Weave(keys, parts))
    ensures forall b :: AllAbove(parts[0], b) && AllAbove(keys, b) ==> AllAbove(Weave(keys, parts), b)
  {
    if keys != [] {
      var keys1, parts1 := keys[1..], parts[1..];
      forall i | 0 <= i < |parts1|
        ensures Increasing(parts1[i]) && Bounded(keys1, parts1[i], i)
      {
        assert Bounded(keys, parts[i + 1], i + 1) && parts1[i] == parts[i + 1];
      }
      OrderedWeave(keys1, parts1);
      assert Bounded(keys, parts[1], 1) && Bounded(keys, parts[0], 0);
      assert AllAbove(parts1[0], keys[0]);
      assert AllAbove(keys1, keys[0]);
      JoinIncreasing(parts[0], keys[0], Weave(keys1, parts1));
      forall b | AllAbove(parts[0], b) && AllAbove(keys, b)
        ensures AllAbove(Weave(keys, parts), b)
      {
        assert keys[0] in keys;
        assert AllAbove(Weave(keys1, parts1), keys[0]);
      }
    }
  }

  /** In an ordered tree the key belongs in kid `Pos`: everything left of it is
      smaller and everything right of it is larger. */
  lemma Around(t: Tree, key: int)
    requires Formed(t) && t.kids != [] && Increasing(Flat(t))
    requires var pos := Pos(t.keys, key); !(pos < |t.keys| && t.keys[pos] == key)
    ensures var pos := Pos(t.keys, key);
            && (forall i :: 0 <= i < |Left(t, pos)| ==> Left(t, pos)[i] < key)
            && (forall i :: 0 <= i < |Right(t, pos)| ==> key < Right(t, pos)[i])
            && Increasing(Flat(t.kids[pos]))
  {
    var pos := Pos(t.keys, key);
    FlatAround(t, pos);
    AroundBounds(Left(t, pos), Flat(t.kids[pos]), Right(t, pos));
    EdgeKeys(t.keys, Parts(t), pos);
  }

  /** Insertion puts the key in its place among the keys and leaves the rest as
      they are, however many nodes split. */
  lemma {:induction false} InsertFlat(t: Tree, key: int, m: nat)
    requires Formed(t) && Increasing(Flat(t))
    ensures FlatOutcome(InsertInto(t, key, m)) == SortedInsert(Flat(t), key)
  {
    var pos := Pos(t.keys, key);
    if pos < |t.keys| && t.keys[pos] == key {
      PresentKey(t, pos);
    } else if t.kids == [] {
      OverflowFlat(Node(InsertAt(t.keys, pos, key), []), m);
    } else {
      Around(t, key);
      InsertFlat(t.kids[pos], key, m);
      var o := InsertInto(t.kids[pos], key, m);
      AdoptFlat(t, pos, o);
      OverflowFlat(Adopt(t, pos, o), m);
      FlatAround(t, pos);
      SortedInsertWithin(Left(t, pos), Flat(t.kids[pos]), Right(t, pos), key);
    }
  }

  lemma PresentKey(t: Tree, pos: nat)
    requires Formed(t) && Increasing(Flat(t)) && pos < |t.keys|
    ensures t.keys[pos] in Flat(t) && SortedInsert(Flat(t), t.keys[pos]) == Flat(t)
  {
    if t.kids != [] {
      WeaveHas(t.keys, Parts(t), pos);
    }
    var i :| 0 <= i < |Flat(t)| && Flat(t)[i] == t.keys[pos];
    PosUnique(Flat(t), t.keys[pos], i);
  }

  /** The sorted list stays sorted and gains exactly the key. */
  lemma SortedInsertIs(s: seq<int>, key: int)
    requires Increasing(s)
    ensures Increasing(SortedInsert(s, key))
    ensures forall x :: x in SortedInsert(s, key) <==> x in s || x == key
    ensures |SortedInsert(s, key)| == if key in s then |s| else |s| + 1
  {
    var p := Pos(s, key);
    var z := SortedInsert(s, key);
    if key in s {
      var i :| 0 <= i < |s| && s[i] == key;
      PosUnique(s, key, i);
    } else {
      forall x
        ensures x in z <==> x in s || x == key
      {
        assert s == s[..p] + s[p..];
      }
    }
  }

  /** The usual way to say that a tree is ordered: node by node, the keys rise and
      bound the keys of the kids between them. */
  ghost predicate Ordered(t: Tree) {
    && Increasing(t.keys)
    && (forall i :: 0 <= i < |t.kids| ==> Ordered(t.kids[i]) && Bounded(t.keys, Flat(t.kids[i]), i))
  }

  lemma {:induction false} OrderedIffIncreasing(t: Tree)
    requires Formed(t)
    ensures Ordered(t) <==> Increasing(Flat(t))
  {
    if t.kids != [] {
      forall i | 0 <= i < |t.kids|
        ensures Ordered(t.kids[i]) <==> Increasing(Flat(t.kids[i]))
        ensures Parts(t)[i] == Flat(t.kids[i])
      {
        OrderedIffIncreasing(t.kids[i]);
      }
      if Ordered(t) {
        OrderedWeave(t.keys, Parts(t));
      }
      if Increasing(Flat(t)) {
        WeaveOrdered(t.keys, Parts(t));
      }
    }
  }

  // ---- Shape ----

  /** Every leaf is at depth `h`. */
  ghost predicate Level(t: Tree, h: nat) {
    if h == 0 then t.kids == []
    else t.kids != [] && forall i :: 0 <= i < |t.kids| ==> Level(t.kids[i], h - 1)
  }

  /** The least number of keys of a node other than the root. */
  function Least(m: nat): nat
    requires m >= 3
  {
    (m + 1) / 2 - 1
  }

  /** Every node has fewer than `m` keys, this one at least `least` and those
      below it at least `Least(m)`. */
  ghost predicate Sized(t: Tree, least: nat, m: nat)
    requires m >= 3
  {
    least <= |t.keys| < m && forall i :: 0 <= i < |t.kids| ==> Sized(t.kids[i], Least(m), m)
  }

  /** One key too many at the top is what a split takes care of. */
  ghost predicate SizedBelow(t: Tree, m: nat)
    requires m >= 3
  {
    |t.keys| <= m && forall i :: 0 <= i < |t.kids| ==> Sized(t.kids[i], Least(m), m)
  }

  ghost predicate OutcomeOk(o: Outcome, h: nat, least: nat, m: nat)
    requires m >= 3
  {
    match o
    case Done(t) => Formed(t) && Level(t, h) && Sized(t, least, m)
    case Split(l, _, r) =>
      Formed(l) && Formed(r) && Level(l, h) && Level(r, h) && Sized(l, Least(m), m) && Sized(r, Least(m), m)
  }

  lemma OverflowOk(t: Tree, h: nat, least: nat, m: nat)
    requires m >= 3 && Formed(t) && Level(t, h) && SizedBelow(t, m) && least <= |t.keys|
    ensures OutcomeOk(Overflow(t, m), h, least, m)
  {}

  lemma AdoptOk(t: Tree, pos: nat, o: Outcome, h: nat, m: nat)
    requires m >= 3 && h > 0 && Formed(t) && Level(t, h) && Sized(t, 0, m) && pos <= |t.keys|
    requires OutcomeOk(o, h - 1, Least(m), m)
    ensures var u := Adopt(t, pos, o); Formed(u) && Level(u, h) && SizedBelow(u, m) && |t.keys| <= |u.keys|
  {}

  /** Insertion keeps every leaf at its depth and every node between its limits. */
  lemma {:induction false} InsertOk(t: Tree, key: int, h: nat, least: nat, m: nat)
    requires m >= 3 && Formed(t) && Level(t, h) && Sized(t, least, m)
    ensures OutcomeOk(InsertInto(t, key, m), h, least, m)
  {
    var pos := Pos(t.keys, key);
    if pos < |t.keys| && t.keys[pos] == key {
    } else if t.kids == [] {
      OverflowOk(Node(InsertAt(t.keys, pos, key), []), h, least, m);
    } else {
      InsertOk(t.kids[pos], key, h - 1, Least(m), m);
      var o := InsertInto(t.kids[pos], key, m);
      AdoptOk(t, pos, o, h, m);
      OverflowOk(Adopt(t, pos, o), h, least, m);
    }
  }

  /** A B-tree at rest: the root of a tree that is not one leaf has a key. */
  ghost predicate BTree(t: Tree, h: nat, m: nat)
    requires m >= 3
  {
    Formed(t) && Level(t, h) && Sized(t, if h == 0 then 0 else 1, m) && Ordered(t)
  }

  /** `btInsert` keeps a B-tree a B-tree, at most one level higher, and its keys
      are the old ones and the new one. */
  lemma InsertKeepsBTree(t: Tree, key: int, h: nat, m: nat) returns (h': nat)
    requires m >= 3 && BTree(t, h, m)
    ensures BTree(InsertRoot(t, key, m), h', m) && (h' == h || h' == h + 1)
    ensures Flat(InsertRoot(t, key, m)) == SortedInsert(Flat(t), key)
    ensures forall x :: x in Flat(InsertRoot(t, key, m)) <==> x in Flat(t) || x == key
  {
    hide Ordered, SortedInsert, InsertInto, Weave;
    OrderedIffIncreasing(t);
    InsertFlat(t, key, m);
    InsertOk(t, key, h, if h == 0 then 0 else 1, m);
    var z := InsertRoot(t, key, m);
    h' := if InsertInto(t, key, m).Done? then h else h + 1;
    if InsertInto(t, key, m).Split? {
      RootFlat(InsertInto(t, key, m));
    }
    SortedInsertIs(Flat(t), key);
    OrderedIffIncreasing(z);
  }

  lemma RootFlat(o: Outcome)
    requires o.Split?
    ensures Flat(Node([o.median], [o.left, o.right])) == FlatOutcome(o)
  {
    var z := Node([o.median], [o.left, o.right]);
    assert Parts(z) == [Flat(o.left), Flat(o.right)];
    WeaveSplit([o.median], Parts(z), 0);
    assert Parts(z)[..1] == [Flat(o.left)] && Parts(z)[1..] == [Flat(o.right)];
    assert Weave([], [Flat(o.left)]) == Flat(o.left) && Weave([], [Flat(o.right)]) == Flat(o.right);
  }

  lemma BTreeSane(t: Tree, h: nat, m: nat)
    requires m >= 3 && BTree(t, h, m)
    ensures Sane(t, m)
  {
    OrderedIffIncreasing(t);
    SizedLess(t, if h == 0 then 0 else 1, 0, m);
  }

  /** An inserted key needs no second insertion. */
  lemma InsertTwice(t: Tree, key: int, h: nat, m: nat)
    requires m >= 3 && BTree(t, h, m) && key in Flat(t)
    ensures InsertRoot(t, key, m) == t
  {
    OrderedIffIncreasing(t);
    InsertPresent(t, key, m);
    PresentSized(t, h, if h == 0 then 0 else 1, m);
  }

  lemma PresentSized(t: Tree, h: nat, least: nat, m: nat)
    requires m >= 3 && Sized(t, least, m)
    ensures |t.keys| < m
  {}

  lemma {:induction false} InsertPresent(t: Tree, key: int, m: nat)
    requires m >= 3 && Formed(t) && Increasing(Flat(t)) && key in Flat(t) && Sized(t, 0, m)
    ensures InsertInto(t, key, m) == Done(t)
  {
    var pos := Pos(t.keys, key);
    if !(pos < |t.keys| && t.keys[pos] == key) {
      if t.kids == [] {
        KeyHasPos(t.keys, key);
      } else {
        Around(t, key);
        FlatAround(t, pos);
        SizedLess(t.kids[pos], Least(m), 0, m);
        InsertPresent(t.kids[pos], key, m);
      }
    }
  }

  lemma KeyHasPos(s: seq<int>, key: int)
    requires Increasing(s)
    ensures key in s <==> Pos(s, key) < |s| && s[Pos(s, key)] == key
  {
    if key in s {
      var i :| 0 <= i < |s| && s[i] == key;
      PosUnique(s, key, i);
    }
  }

  lemma SizedLess(t: Tree, least: nat, less: nat, m: nat)
    requires m >= 3 && Sized(t, least, m) && less <= least
    ensures Sized(t, less, m)
  {}

  /** What an insertion asks of a node. */
  ghost predicate Sane(t: Tree, m: nat) {
    m >= 3 && Formed(t) && Increasing(Flat(t)) && Sized(t, 0, m)
  }

  /** The key is not in the node and belongs in kid `pos`. */
  ghost predicate Goes(t: Tree, key: int, pos: nat) {
    pos == Pos(t.keys, key) && !(pos < |t.keys| && t.keys[pos] == key)
  }

  lemma SaneKid(t: Tree, key: int, pos: nat, m: nat)
    requires Sane(t, m) && t.kids != [] && Goes(t, key, pos)
    ensures pos <= |t.keys| < m && |t.kids| == |t.keys| + 1 && Sane(t.kids[pos], m)
  {
    Around(t, key);
    SizedLess(t.kids[pos], Least(m), 0, m);
  }

  /** `Insert`, case by case. */
  lemma InsertIs(t: Tree, key: int, pos: nat, m: nat)
    requires Sane(t, m) && pos == Pos(t.keys, key)
    ensures pos <= |t.keys| < m
    ensures Goes(t, key, pos) <==> !(pos < |t.keys| && t.keys[pos] == key)
    ensures !Goes(t, key, pos) ==> InsertInto(t, key, m) == Done(t)
    ensures Goes(t, key, pos) && t.kids == [] ==> InsertInto(t, key, m) == Overflow(Node(InsertAt(t.keys, pos, key), []), m)
    ensures Goes(t, key, pos) && t.kids != [] ==>
              pos < |t.kids| && InsertInto(t, key, m) == Overflow(Adopt(t, pos, InsertInto(t.kids[pos], key, m)), m)
  {}

  lemma OverflowSmall(t: Tree, m: nat)
    requires |t.keys| < m
    ensures Overflow(t, m) == Done(t)
  {}

  // ---- Height ----

  function Pow(b: nat, e: nat): (r: nat)
    ensures b > 0 ==> r > 0
  {
    if e == 0 then 1 else b * Pow(b, e - 1)
  }

  lemma {:induction false} WeaveSize(keys: seq<int>, parts: seq<seq<int>>, each: nat)
    requires |parts| == |keys| + 1 && forall i :: 0 <= i < |parts| ==> |parts[i]| >= each
    ensures |Weave(keys, parts)| >= |keys| + |parts| * each
  {
    if keys != [] {
      WeaveSize(keys[1..], parts[1..], each);
      assert |parts| * each == each + |parts[1..]| * each;
    }
  }

  /** A node other than the root that has `h` levels below it. */
  lemma {:induction false} LeastKeys(t: Tree, h: nat, m: nat)
    requires m >= 3 && Formed(t) && Level(t, h) && Sized(t, Least(m), m)
    ensures |Flat(t)| >= Pow(Least(m) + 1, h + 1) - 1
  {
    var c := Least(m) + 1;
    if h == 0 {
      assert Pow(c, 1) == c * Pow(c, 0);
    } else {
      forall i | 0 <= i < |t.kids|
        ensures |Flat(t.kids[i])| >= Pow(c, h) - 1
      {
        LeastKeys(t.kids[i], h - 1, m);
      }
      WeaveSize(t.keys, Parts(t), Pow(c, h) - 1);
      KidsTimes(|t.kids|, c, Pow(c, h));
    }
  }

  lemma KidsTimes(kids: nat, c: nat, p: nat)
    requires kids >= c && p > 0
    ensures kids - 1 + kids * (p - 1) >= c * p - 1
  {
    assert kids - 1 + kids * (p - 1) == kids * p - 1;
    assert kids * p - c * p == (kids - c) * p;
  }

  /** A tree of height `h` with a key in its root holds at least
      `2 * ceil(m/2)^h - 1` keys. */
  lemma HeightBound(t: Tree, h: nat, m: nat)
    requires m >= 3 && BTree(t, h, m) && t.keys != []
    ensures |Flat(t)| >= 2 * Pow(Least(m) + 1, h) - 1
  {
    var c := Least(m) + 1;
    if h > 0 {
      forall i | 0 <= i < |t.kids|
        ensures |Flat(t.kids[i])| >= Pow(c, h) - 1
      {
        LeastKeys(t.kids[i], h - 1, m);
      }
      WeaveSize(t.keys, Parts(t), Pow(c, h) - 1);
      KidsTimes(|t.kids|, 2, Pow(c, h));
    }
  }

  // ---- Search ----

  /** A key is in an ordered tree exactly if it is in the node or in the one kid
      its position points to. */
  lemma SearchStep(t: Tree, key: int)
    requires Formed(t) && Increasing(Flat(t))
    ensures var pos := Pos(t.keys, key);
            key in Flat(t) <==> (pos < |t.keys| && t.keys[pos] == key) || (t.kids != [] && key in Flat(t.kids[pos]))
    ensures t.kids != [] ==> var pos := Pos(t.keys, key);
              (pos < |t.keys| && t.keys[pos] == key) || Increasing(Flat(t.kids[pos]))
  {
    var pos := Pos(t.keys, key);
    if pos < |t.keys| && t.keys[pos] == key {
      PresentKey(t, pos);
    } else if t.kids != [] {
      Around(t, key);
      FlatAround(t, pos);
    } else {
      KeyHasPos(t.keys, key);
    }
  }

  lemma NoKeys(t: Tree)
    requires t.keys == [] && t.kids == []
    ensures Flat(t) == []
  {}

  // ---- Runs ----

  function InsertAll(t: Tree, ks: seq<int>, m: nat): Tree
    decreases |ks|
  {
    if ks == [] then t else InsertAll(InsertRoot(t, ks[0], m), ks[1..], m)
  }

  /** Any run of insertions into a B-tree gives a B-tree that holds exactly its keys
      and those inserted. */
  lemma {:induction false} RunOfInsertions(t: Tree, h: nat, ks: seq<int>, m: nat) returns (h': nat)
    requires m >= 3 && BTree(t, h, m)
    ensures BTree(InsertAll(t, ks, m), h', m) && h <= h' <= h + |ks|
    ensures forall x :: x in Flat(InsertAll(t, ks, m)) <==> x in Flat(t) || x in ks
    decreases |ks|
  {
    h' := h;
    if ks != [] {
      var h1 := InsertKeepsBTree(t, ks[0], h, m);
      h' := RunOfInsertions(InsertRoot(t, ks[0], m), h1, ks[1..], m);
      assert ks == [ks[0]] + ks[1..];
    }
  }
}
