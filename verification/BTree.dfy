/** The B-tree of `HW2/code/bTree.c` in place: nodes with fixed key and kid
    arrays that are shifted and split, and a root that keeps its identity.  Each
    method is proved against module BTreeSpec. */
module BTree {
  import opened BTreeSpec

  /** `o` is part of one of the trees. */
  ghost predicate Covered(o: object, sub: seq<Node>, all: set<object>)
    reads all
  {
    exists i :: 0 <= i < |sub| && sub[i] in all && o in sub[i].repr
  }

  ghost predicate Member(n: Node, t: Tree, all: set<object>, m: nat)
    reads all
    decreases all, 1
  {
    n in all && n.repr <= all && n.Valid() && n.tree == t && n.keys.Length == m
  }

  /** Trees side by side: `trees` is what they hold and `all` what they are made
      of, with nothing in common. */
  ghost predicate Family(sub: seq<Node>, trees: seq<Tree>, all: set<object>, m: nat)
    reads all
    decreases all, 2
  {
    && |trees| == |sub|
    && (forall i :: 0 <= i < |sub| ==> Member(sub[i], trees[i], all, m))
    && (forall i, j :: 0 <= i < j < |sub| ==> sub[i].repr !! sub[j].repr)
    && (forall o {:trigger Covered(o, sub, all)} :: o in all ==> Covered(o, sub, all))
  }

  ghost function Parts(sub: seq<Node>, all: set<object>): (r: set<object>)
    requires forall i :: 0 <= i < |sub| ==> sub[i] in all
    reads all
  {
    set i, o | 0 <= i < |sub| && o in sub[i].repr :: o
  }

  lemma PartMember(sub: seq<Node>, trees: seq<Tree>, all: set<object>, m: nat, i: nat)
    requires (forall k :: 0 <= k < |sub| ==> sub[k] in all) && |trees| == |sub| && i < |sub| && Member(sub[i], trees[i], all, m)
    ensures Member(sub[i], trees[i], Parts(sub, all), m)
  {
    hide Node.Valid;
    sub[i].InRepr();
    assert sub[i].repr <= Parts(sub, all);
  }

  lemma PartOfFamily(sub: seq<Node>, trees: seq<Tree>, all: set<object>, m: nat, from: nat, to: nat)
    requires Family(sub, trees, all, m) && from <= to <= |sub|
    ensures forall i :: 0 <= i < |sub| ==> sub[i] in all
    ensures Family(sub[from..to], trees[from..to], Parts(sub[from..to], all), m)
  {
    hide Node.Valid;
    assert forall i :: 0 <= i < |sub| ==> Member(sub[i], trees[i], all, m);
    var part, ts := sub[from..to], trees[from..to];
    assert forall i :: 0 <= i < |part| ==> part[i] == sub[from + i] && ts[i] == trees[from + i];
    forall i | 0 <= i < |part|
      ensures Member(part[i], ts[i], Parts(part, all), m)
    {
      PartMember(part, ts, all, m, i);
    }
    PartCovered(part, ts, all, m);
  }

  lemma PartCovered(part: seq<Node>, ts: seq<Tree>, all: set<object>, m: nat)
    requires (forall k :: 0 <= k < |part| ==> part[k] in all) && |ts| == |part|
    requires forall i :: 0 <= i < |part| ==> Member(part[i], ts[i], Parts(part, all), m)
    ensures var r := Parts(part, all); forall o {:trigger Covered(o, part, r)} :: o in r ==> Covered(o, part, r)
  {
    hide Node.Valid;
    forall o | o in Parts(part, all)
      ensures Covered(o, part, Parts(part, all))
    {
      var i :| 0 <= i < |part| && o in part[i].repr;
      assert Member(part[i], ts[i], Parts(part, all), m);
    }
  }

  lemma FamilySplit(sub: seq<Node>, trees: seq<Tree>, all: set<object>, m: nat, k: nat) returns (lo: set<object>, hi: set<object>)
    requires Family(sub, trees, all, m) && k <= |sub|
    ensures Family(sub[..k], trees[..k], lo, m) && Family(sub[k..], trees[k..], hi, m)
    ensures lo !! hi && all == lo + hi
  {
    PartOfFamily(sub, trees, all, m, 0, k);
    PartOfFamily(sub, trees, all, m, k, |sub|);
    assert sub[0..k] == sub[..k] && trees[0..k] == trees[..k];
    assert sub[k..|sub|] == sub[k..] && trees[k..|sub|] == trees[k..];
    lo, hi := Parts(sub[..k], all), Parts(sub[k..], all);
    PartsApart(sub, trees, all, m, k);
  }

  lemma PartsApart(sub: seq<Node>, trees: seq<Tree>, all: set<object>, m: nat, k: nat)
    requires Family(sub, trees, all, m) && k <= |sub|
    ensures forall i :: 0 <= i < |sub| ==> sub[i] in all
    ensures Parts(sub[..k], all) !! Parts(sub[k..], all) && all == Parts(sub[..k], all) + Parts(sub[k..], all)
  {
    hide Node.Valid;
    assert forall i :: 0 <= i < |sub| ==> Member(sub[i], trees[i], all, m);
    forall o | o in all
      ensures o in Parts(sub[..k], all) + Parts(sub[k..], all)
    {
      assert Covered(o, sub, all);
      var i :| 0 <= i < |sub| && sub[i] in all && o in sub[i].repr;
      assert if i < k then sub[..k][i] == sub[i] else sub[k..][i - k] == sub[i];
    }
  }

  lemma CoveredJoin(a: seq<Node>, ta: seq<Tree>, ra: set<object>, b: seq<Node>, tb: seq<Tree>, rb: set<object>, m: nat, o: object)
    requires Family(a, ta, ra, m) && Family(b, tb, rb, m) && o in ra + rb
    ensures Covered(o, a + b, ra + rb)
  {
    hide Node.Valid;
    if o in ra {
      assert Covered(o, a, ra);
      var i :| 0 <= i < |a| && a[i] in ra && o in a[i].repr;
      assert (a + b)[i] == a[i];
    } else {
      assert Covered(o, b, rb);
      var i :| 0 <= i < |b| && b[i] in rb && o in b[i].repr;
      assert (a + b)[|a| + i] == b[i];
    }
  }

  lemma FamilyJoin(a: seq<Node>, ta: seq<Tree>, ra: set<object>, b: seq<Node>, tb: seq<Tree>, rb: set<object>, m: nat)
    requires Family(a, ta, ra, m) && Family(b, tb, rb, m) && ra !! rb
    ensures Family(a + b, ta + tb, ra + rb, m)
  {
    hide Node.Valid;
    forall o | o in ra + rb
      ensures Covered(o, a + b, ra + rb)
    {
      CoveredJoin(a, ta, ra, b, tb, rb, m, o);
    }
    forall i | 0 <= i < |a + b|
      ensures Member((a + b)[i], (ta + tb)[i], ra + rb, m)
    {
      assert if i < |a| then Member(a[i], ta[i], ra, m) else Member(b[i - |a|], tb[i - |a|], rb, m);
    }
    JoinApart(a, ta, ra, b, tb, rb, m);
  }

  lemma JoinApart(a: seq<Node>, ta: seq<Tree>, ra: set<object>, b: seq<Node>, tb: seq<Tree>, rb: set<object>, m: nat)
    requires Family(a, ta, ra, m) && Family(b, tb, rb, m) && ra !! rb
    ensures forall i, j :: 0 <= i < j < |a + b| ==> (a + b)[i].repr !! (a + b)[j].repr
  {
    hide Node.Valid, Covered;
    forall i, j | 0 <= i < j < |a + b|
      ensures (a + b)[i].repr !! (a + b)[j].repr
    {
      if i < |a| <= j {
        assert Member(a[i], ta[i], ra, m) && Member(b[j - |a|], tb[j - |a|], rb, m);
      }
    }
  }

  lemma FamilyOne(n: Node)
    requires n.Valid()
    ensures Family([n], [n.tree], n.repr, n.keys.Length)
  {
    hide Node.Valid;
    n.InRepr();
    assert n == [n][0];
    forall o | o in n.repr
      ensures Covered(o, [n], n.repr)
    {}
  }

  lemma FamilyHas(sub: seq<Node>, trees: seq<Tree>, all: set<object>, m: nat, i: nat)
    requires Family(sub, trees, all, m) && i < |sub|
    ensures |trees| == |sub| && Member(sub[i], trees[i], all, m)
  {}

  lemma FamilyOfOne(n: Node, sub: seq<Node>, trees: seq<Tree>, all: set<object>, m: nat)
    requires Family(sub, trees, all, m) && sub == [n]
    ensures all == n.repr
  {
    hide Node.Valid;
    assert sub[0] == n && Member(sub[0], trees[0], all, m);
    forall o | o in all
      ensures o in n.repr
    {
      assert Covered(o, sub, all);
    }
  }

  /** One tree of a family and the others. */
  lemma FamilyPick(sub: seq<Node>, trees: seq<Tree>, all: set<object>, m: nat, i: nat) returns (lo: set<object>, hi: set<object>)
    requires Family(sub, trees, all, m) && i < |sub|
    ensures |trees| == |sub| && sub[i] in all
    ensures Family(sub[..i], trees[..i], lo, m) && Family(sub[i + 1..], trees[i + 1..], hi, m)
    ensures sub[i].Valid() && sub[i].keys.Length == m && sub[i].tree == trees[i]
    ensures lo !! hi && lo !! sub[i].repr && hi !! sub[i].repr && all == lo + sub[i].repr + hi
  {
    hide Node.Valid, Family;
    FamilyHas(sub, trees, all, m, i);
    var one, rest;
    lo, rest := FamilySplit(sub, trees, all, m, i);
    one, hi := FamilySplit(sub[i..], trees[i..], rest, m, 1);
    assert sub[i..][1..] == sub[i + 1..] && trees[i..][1..] == trees[i + 1..] && sub[i..][0] == sub[i];
    FamilyOfOne(sub[i], sub[i..][..1], trees[i..][..1], one, m);
  }

  /** The nodes `kid` stands for, and their trees and parts. */
  ghost function Opt(kid: Node?): seq<Node> { if kid == null then [] else [kid] }

  ghost function OptTree(kid: Node?): seq<Tree>
    reads kid
  {
    if kid == null then [] else [kid.tree]
  }

  ghost function OptRepr(kid: Node?): set<object>
    reads kid
  {
    if kid == null then {} else kid.repr
  }

  /** A family again, with one tree changed and maybe one new. */
  lemma FamilyRejoin(lo: seq<Node>, tl: seq<Tree>, rl: set<object>, n: Node, kid: Node?,
                     hi: seq<Node>, th: seq<Tree>, rh: set<object>, m: nat)
    requires Family(lo, tl, rl, m) && Family(hi, th, rh, m) && n.Valid() && n.keys.Length == m
    requires kid != null ==> kid.Valid() && kid.keys.Length == m
    requires rl !! rh && rl !! n.repr && rh !! n.repr && OptRepr(kid) !! rl && OptRepr(kid) !! n.repr && OptRepr(kid) !! rh
    ensures Family(lo + [n] + Opt(kid) + hi, tl + [n.tree] + OptTree(kid) + th, rl + n.repr + OptRepr(kid) + rh, m)
  {
    hide Family, Node.Valid;
    FamilyOne(n);
    FamilyJoin(lo, tl, rl, [n], [n.tree], n.repr, m);
    if kid != null {
      FamilyOne(kid);
      FamilyJoin(lo + [n], tl + [n.tree], rl + n.repr, [kid], [kid.tree], kid.repr, m);
    } else {
      assert lo + [n] + Opt(kid) == lo + [n] && tl + [n.tree] + OptTree(kid) == tl + [n.tree];
      assert rl + n.repr + OptRepr(kid) == rl + n.repr;
    }
    FamilyJoin(lo + [n] + Opt(kid), tl + [n.tree] + OptTree(kid), rl + n.repr + OptRepr(kid), hi, th, rh, m);
  }

  /** The tree of a node whose kid `pos` has become `o`. */
  lemma AdoptIs(t: Tree, pos: nat, o: Outcome, n: Tree, more: seq<Tree>, keys: seq<int>)
    requires pos < |t.kids| && pos <= |t.keys|
    requires match o
             case Done(u) => n == u && more == [] && keys == t.keys
             case Split(u, x, r) => n == u && more == [r] && keys == InsertAt(t.keys, pos, x)
    ensures Tree.Node(keys, t.kids[..pos] + [n] + more + t.kids[pos + 1..]) == Adopt(t, pos, o)
  {
    if o.Done? {
      assert t.kids[pos := n] == t.kids[..pos] + [n] + [] + t.kids[pos + 1..];
    } else {
      assert t.kids[..pos] + [n] + more + t.kids[pos + 1..] == t.kids[..pos] + [n, o.right] + t.kids[pos + 1..];
    }
  }

  lemma KidBeside(all: seq<Node>, pos: nat, kid: Node?)
    requires pos < |all|
    ensures all[..pos] + [all[pos]] + Opt(kid) + all[pos + 1..] == if kid == null then all else all[..pos + 1] + [kid] + all[pos + 1..]
  {}

  /** The `n` entries of an array move up from `pos` on to make room for `x`. */
  method PutAt<T>(a: array<T>, n: nat, pos: nat, x: T)
    requires pos <= n < a.Length
    modifies a
    ensures forall i :: 0 <= i < a.Length ==>
              a[i] == if i < pos || i > n then old(a[i]) else if i == pos then x else old(a[i - 1])
  {
    forall i | pos <= i < n {
      a[i + 1] := a[i];
    }
    a[pos] := x;
  }

  class Node {
    var isLeaf: bool
    var numKeys: nat
    /** `m` keys and `m + 1` kids: room for one key too many before a split. */
    const keys: array<int>
    const kids: array<Node?>

    /** The kids in use and all they are made of, and the same for this node. */
    ghost var sub: seq<Node>
    ghost var below: set<object>
    ghost var tree: Tree
    ghost var repr: set<object>

    /** The arrays hold what the ghost fields say. */
    ghost predicate Shape()
      reads this, keys, kids
    {
      && numKeys <= keys.Length && kids.Length == keys.Length + 1
      && tree.keys == keys[..numKeys]
      && |sub| == (if isLeaf then 0 else numKeys + 1)
      && (forall i :: 0 <= i < |sub| ==> kids[i] == sub[i])
    }

    ghost predicate Valid()
      reads this, repr
      decreases repr, 0
    {
      && repr == {this, keys, kids} + below
      && this !in below && keys !in below && kids !in below
      && Shape()
      && Family(sub, tree.kids, below, keys.Length)
    }

    lemma InRepr()
      requires Valid()
      ensures this in repr && keys in repr && kids in repr
    {}

    lemma ShapeParts()
      requires Shape()
      ensures numKeys == |tree.keys| <= keys.Length && kids.Length == keys.Length + 1
      ensures |sub| == (if isLeaf then 0 else numKeys + 1)
      ensures forall i :: 0 <= i < numKeys ==> keys[i] == tree.keys[i]
      ensures forall i :: 0 <= i < |sub| ==> kids[i] == sub[i]
    {}

    /** A leaf or a node with kids, and as many as its tree has. */
    lemma KidCount()
      requires Valid()
      ensures |tree.kids| == |sub| == (if isLeaf then 0 else |tree.keys| + 1)
    {}

    /** What the kids have become is noted here. */
    ghost method Seal(trees: seq<Tree>, all: set<object>)
      requires Shape() && Family(sub, trees, all, keys.Length) && this !in all && keys !in all && kids !in all
      modifies this`tree, this`below, this`repr
      ensures Valid() && tree == Tree.Node(old(tree.keys), trees) && repr == {this, keys, kids} + all
    {
      hide Family;
      tree, below, repr := Tree.Node(tree.keys, trees), all, {this, keys, kids} + all;
    }

    /** `btCreate`, and every other `malloc` of a node. */
    constructor (m: nat)
      ensures Valid() && tree == Tree.Node([], []) && keys.Length == m && fresh(repr)
    {
      isLeaf, numKeys := true, 0;
      keys, kids := new int[m], new Node?[m + 1];
      sub, below, tree := [], {}, Tree.Node([], []);
      new;
      repr := {this, keys, kids};
    }

    /** `searchKey`: binary search. */
    method SearchKey(key: int) returns (pos: nat)
      requires Valid() && Increasing(tree.keys)
      ensures pos == Pos(tree.keys, key)
    {
      var lo, hi := -1, numKeys;
      while lo + 1 < hi
        invariant -1 <= lo < hi <= numKeys
        invariant lo >= 0 ==> tree.keys[lo] < key
        invariant hi < numKeys ==> key <= tree.keys[hi]
      {
        var mid := (lo + hi) / 2;
        if keys[mid] == key {
          PosUnique(tree.keys, key, mid);
          return mid;
        } else if keys[mid] < key {
          lo := mid;
        } else {
          hi := mid;
        }
      }
      PosUnique(tree.keys, key, hi);
      return hi;
    }

    /** `btSearch`. */
    method Search(key: int) returns (found: bool)
      requires Valid() && Formed(tree) && Increasing(Flat(tree)) && keys.Length >= 3
      requires Sized(tree, if tree.kids == [] then 0 else 1, keys.Length)
      ensures found == (key in Flat(tree))
      decreases tree
    {
      hide Family, Flat, Increasing, Pos;
      if numKeys == 0 {
        NoKeys(tree);
        return false;
      }
      KidCount();
      NodeIncreasing(tree);
      var pos := SearchKey(key);
      SearchStep(tree, key);
      if pos < numKeys && keys[pos] == key {
        return true;
      } else if isLeaf {
        return false;
      } else {
        FamilyHas(sub, tree.kids, below, keys.Length, pos);
        SizedLess(tree.kids[pos], Least(keys.Length), if tree.kids[pos].kids == [] then 0 else 1, keys.Length);
        found := kids[pos].Search(key);
      }
    }

    method AddKey(pos: nat, key: int)
      requires Shape() && numKeys < keys.Length && pos <= numKeys && isLeaf
      modifies this`numKeys, this`tree, keys
      ensures Shape() && tree == Tree.Node(InsertAt(old(tree.keys), pos, key), old(tree.kids))
    {
      PutAt(keys, numKeys, pos, key);
      numKeys := numKeys + 1;
      tree := Tree.Node(InsertAt(tree.keys, pos, key), tree.kids);
    }

    /** A key at `pos` and a kid right of it. */
    method AddKid(pos: nat, key: int, kid: Node)
      requires Shape() && numKeys < keys.Length && pos <= numKeys && !isLeaf
      modifies this`numKeys, this`tree, this`sub, keys, kids
      ensures Shape() && tree.keys == InsertAt(old(tree.keys), pos, key)
      ensures sub == old(sub)[..pos + 1] + [kid] + old(sub)[pos + 1..]
    {
      PutAt(keys, numKeys, pos, key);
      PutAt(kids, numKeys + 1, pos + 1, kid);
      numKeys := numKeys + 1;
      tree := tree.(keys := InsertAt(tree.keys, pos, key));
      sub := sub[..pos + 1] + [kid] + sub[pos + 1..];
      assert keys[..numKeys] == tree.keys by {
        assert forall i :: 0 <= i < numKeys ==> keys[i] == tree.keys[i];
      }
    }

    /** The lower half stays here and the upper half goes to `right`. */
    method MoveUpper(right: Node)
      requires Shape() && numKeys == keys.Length >= 3
      requires right != this && right.keys != keys && right.kids != kids
      requires right.keys.Length == keys.Length && right.kids.Length == kids.Length
      modifies this`numKeys, this`tree, this`sub, right`numKeys, right`isLeaf, right`tree, right`sub, right.keys, right.kids
      ensures Shape() && right.Shape() && right.isLeaf == isLeaf
      ensures var mid := old(numKeys) / 2;
              && tree.keys == old(tree.keys)[..mid] && right.tree.keys == old(tree.keys)[mid + 1..]
              && (!isLeaf ==> sub == old(sub)[..mid + 1] && right.sub == old(sub)[mid + 1..])
    {
      var mid := numKeys / 2;
      right.numKeys := numKeys - mid - 1;
      right.isLeaf := isLeaf;
      forall i | 0 <= i < right.numKeys {
        right.keys[i] := keys[mid + 1 + i];
      }
      right.sub := [];
      if !isLeaf {
        MoveKids(right, mid + 1);
      }
      numKeys := mid;
      right.tree := Tree.Node(tree.keys[mid + 1..], []);
      assert right.tree.keys == right.keys[..right.numKeys];
      tree := Tree.Node(tree.keys[..mid], []);
    }

    method MoveKids(right: Node, first: nat)
      requires numKeys < kids.Length == right.kids.Length && right != this && right.kids != kids && first <= numKeys + 1 == |sub|
      requires forall i :: 0 <= i < |sub| ==> kids[i] == sub[i]
      modifies this`sub, right`sub, right.kids
      ensures sub == old(sub)[..first] && right.sub == old(sub)[first..]
      ensures forall i :: 0 <= i < |right.sub| ==> right.kids[i] == right.sub[i]
    {
      forall i | 0 <= i < numKeys + 1 - first {
        right.kids[i] := kids[first + i];
      }
      right.sub := sub[first..];
      sub := sub[..first];
    }

    ghost method SealBoth(right: Node, tl: seq<Tree>, lo: set<object>, th: seq<Tree>, hi: set<object>)
      requires Shape() && right.Shape() && Family(sub, tl, lo, keys.Length) && Family(right.sub, th, hi, right.keys.Length)
      requires {this, keys, kids} !! {right, right.keys, right.kids} && lo !! hi
      requires {this, keys, kids} !! lo + hi && {right, right.keys, right.kids} !! lo + hi
      modifies this`tree, this`below, this`repr, right`tree, right`below, right`repr
      ensures Valid() && right.Valid() && repr == {this, keys, kids} + lo && right.repr == {right, right.keys, right.kids} + hi
      ensures tree == Tree.Node(old(tree.keys), tl) && right.tree == Tree.Node(old(right.tree.keys), th)
    {
      hide Family, Shape;
      Seal(tl, lo);
      right.Seal(th, hi);
    }

    /** A full node keeps its lower half; the upper half moves to a new node. */
    method SplitNode() returns (right: Node, median: int)
      requires Valid() && numKeys == keys.Length >= 3
      modifies this`numKeys, this`tree, this`sub, this`below, this`repr
      ensures Valid() && right.Valid() && fresh(right.repr - old(repr)) && repr <= old(repr) && repr !! right.repr
      ensures right.keys.Length == keys.Length
      ensures Overflow(old(tree), keys.Length) == Split(tree, median, right.tree)
    {
      hide Family, Overflow, Shape;
      ghost var all, was, k, m := sub, tree, if isLeaf then 0 else numKeys / 2 + 1, keys.Length;
      ShapeParts();
      KidCount();
      median := keys[numKeys / 2];
      right := new Node(keys.Length);
      right.ShapeParts();
      MoveUpper(right);
      ShapeParts();
      right.ShapeParts();
      ghost var lo, hi := FamilySplit(all, was.kids, below, m, k);
      assert old(repr) == {this, keys, kids} + (lo + hi) && {right, right.keys, right.kids} !! old(repr);
      assert sub == all[..k] && right.sub == all[k..];
      SealBoth(right, was.kids[..k], lo, was.kids[k..], hi);
      OverflowIs(was, m, tree, right.tree);
    }

    /** `btInsertInternal`: the new right sibling and the key between, if the node
        splits. */
    method InsertInternal(key: int) returns (right: Node?, median: int)
      requires Valid() && Sane(tree, keys.Length)
      modifies repr
      ensures Valid() && fresh(repr - old(repr))
      ensures right == null ==> InsertInto(old(tree), key, keys.Length) == Done(tree)
      ensures right != null ==>
                && right.Valid() && fresh(right.repr - old(repr)) && repr !! right.repr
                && right.keys.Length == keys.Length
                && InsertInto(old(tree), key, keys.Length) == Split(tree, median, right.tree)
      decreases tree, 1
    {
      hide Family, Increasing, Flat, Formed, Sized, InsertInto, Adopt, Overflow, Pos, Goes;
      NodeIncreasing(tree);
      ShapeParts();
      KidCount();
      var pos := SearchKey(key);
      InsertIs(tree, key, pos, keys.Length);
      right, median := null, 0;
      if pos < numKeys && keys[pos] == key {
        return;
      }
      if isLeaf {
        AddKey(pos, key);
      } else {
        InsertBelow(pos, key);
      }
      if numKeys >= keys.Length {
        right, median := SplitNode();
      } else {
        OverflowSmall(tree, keys.Length);
      }
    }

    /** The part of `btInsertInternal` for a node that is not a leaf. */
    method InsertBelow(pos: nat, key: int)
      requires Valid() && Sane(tree, keys.Length) && !isLeaf && Goes(tree, key, pos)
      modifies repr
      ensures Valid() && fresh(repr - old(repr))
      ensures pos <= |old(tree).keys| && pos < |old(tree).kids|
      ensures tree == Adopt(old(tree), pos, InsertInto(old(tree).kids[pos], key, keys.Length))
      decreases tree, 0
    {
      hide Family, Shape, Sane, Goes, InsertInto, Adopt;
      ghost var was, m, all := tree, keys.Length, sub;
      ShapeParts();
      KidCount();
      SaneKid(tree, key, pos, m);
      ghost var rl, rh := FamilyPick(sub, tree.kids, below, m, pos);
      var kid, mid := kids[pos].InsertInternal(key);
      if kid != null {
        AddKid(pos, mid, kid);
      }
      ShapeParts();
      KidBeside(all, pos, kid);
      AdoptIs(was, pos, InsertInto(was.kids[pos], key, m), all[pos].tree, OptTree(kid), tree.keys);
      Rejoin(all[..pos], was.kids[..pos], rl, all[pos], kid, all[pos + 1..], was.kids[pos + 1..], rh);
    }

    ghost method Rejoin(lo: seq<Node>, tl: seq<Tree>, rl: set<object>, n: Node, kid: Node?,
                        hi: seq<Node>, th: seq<Tree>, rh: set<object>)
      requires Shape() && sub == lo + [n] + Opt(kid) + hi
      requires Family(lo, tl, rl, keys.Length) && Family(hi, th, rh, keys.Length) && n.Valid() && n.keys.Length == keys.Length
      requires kid != null ==> kid.Valid() && kid.keys.Length == keys.Length
      requires rl !! rh && rl !! n.repr && rh !! n.repr && OptRepr(kid) !! rl && OptRepr(kid) !! n.repr && OptRepr(kid) !! rh
      requires var all := rl + n.repr + OptRepr(kid) + rh; this !in all && keys !in all && kids !in all
      modifies this`tree, this`below, this`repr
      ensures Valid() && tree == Tree.Node(old(tree.keys), tl + [old(n.tree)] + old(OptTree(kid)) + th)
      ensures repr == {this, keys, kids} + old(rl + n.repr + OptRepr(kid) + rh)
    {
      hide Family, Shape;
      FamilyRejoin(lo, tl, rl, n, kid, hi, th, rh, keys.Length);
      Seal(tl + [n.tree] + OptTree(kid) + th, rl + n.repr + OptRepr(kid) + rh);
    }

    /** The root's contents move to `left`, and the root keeps one key and two kids. */
    method MoveRoot(left: Node, median: int, right: Node)
      requires Shape() && keys.Length >= 3
      requires left != this && left.keys != keys && left.kids != kids
      requires left.keys.Length == keys.Length && left.kids.Length == kids.Length
      modifies this`isLeaf, this`numKeys, this`tree, this`sub, keys, kids
      modifies left`numKeys, left`isLeaf, left`tree, left`sub, left.keys, left.kids
      ensures Shape() && tree.keys == [median] && sub == [left, right]
      ensures left.Shape() && left.tree.keys == old(tree.keys) && left.sub == old(sub)
    {
      left.isLeaf, left.numKeys := isLeaf, numKeys;
      forall i | 0 <= i < keys.Length {
        left.keys[i] := keys[i];
      }
      forall i | 0 <= i < kids.Length {
        left.kids[i] := kids[i];
      }
      left.sub, left.tree := sub, tree;
      assert left.keys[..numKeys] == tree.keys;
      numKeys, isLeaf := 1, false;
      keys[0] := median;
      kids[0], kids[1] := left, right;
      sub, tree := [left, right], Tree.Node([median], []);
    }

    /** A root that has split gets a new left kid and becomes the parent of both. */
    method GrowRoot(median: int, right: Node)
      requires Valid() && right.Valid() && keys.Length == right.keys.Length >= 3 && repr !! right.repr
      modifies this, keys, kids
      ensures Valid() && fresh(repr - old(repr) - old(right.repr))
      ensures tree == Tree.Node([median], [old(tree), old(right.tree)])
    {
      hide Family, Shape;
      var left := new Node(keys.Length);
      ghost var was, trees, all := tree, tree.kids, below;
      left.ShapeParts();
      ShapeParts();
      MoveRoot(left, median, right);
      left.Seal(trees, all);
      FamilyOne(left);
      FamilyOne(right);
      FamilyJoin([left], [left.tree], left.repr, [right], [right.tree], right.repr, m := keys.Length);
      assert [left, right] == [left] + [right];
      assert left.tree == was;
      assert [left.tree] + [right.tree] == [was, old(right.tree)];
      Seal([left.tree] + [right.tree], left.repr + right.repr);
    }

    /** `btInsert`: the tree stays a B-tree, gains the key and nothing else, and
        keeps its root; `h` is its height. */
    method Insert(key: int, ghost h: nat) returns (ghost h': nat)
      requires Valid() && keys.Length >= 3 && BTree(tree, h, keys.Length)
      modifies repr
      ensures Valid() && fresh(repr - old(repr))
      ensures BTree(tree, h', keys.Length) && (h' == h || h' == h + 1)
      ensures tree == InsertRoot(old(tree), key, keys.Length)
      ensures forall x :: x in Flat(tree) <==> x in Flat(old(tree)) || x == key
    {
      hide Family, Shape, Sane, BTree, InsertInto, Flat, Valid;
      ghost var was, m := tree, keys.Length;
      InRepr();
      BTreeSane(tree, h, m);
      h' := InsertKeepsBTree(tree, key, h, m);
      var right, median := InsertInternal(key);
      if right != null {
        GrowRoot(median, right);
      }
    }
  }
}
