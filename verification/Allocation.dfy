/** Which sectors a growing file gets: the free map gives the least free sector each
    time, so each new data sector is known before the call
    (`project4/src/filesys/inode.c`, lines 513 to 643). */
module Allocation {
  import opened Basics
  import opened Device
  import opened InodeTree

  ghost function Below(free: set<Sector>, x: Sector): set<Sector> {
    set y | y in free && y < x
  }

  /** How many free sectors are less than `x`. */
  ghost function Rank(free: set<Sector>, x: Sector): nat {
    |Below(free, x)|
  }

  /** The role of the sector allocated after `o` others. */
  function RoleNo(o: nat): Role {
    if o < DIRECT_BLOCKS then Data(o)
    else if o == DOUBLE_BASE + INDIRECT_BLOCKS then Outer
    else
      var p := o - DIRECT_BLOCKS - (if o > DOUBLE_BASE + INDIRECT_BLOCKS then 1 else 0);
      var m, r := p / (BLOCK_PTRS + 1), p % (BLOCK_PTRS + 1);
      if r == 0 then Index(m) else Data(DIRECT_BLOCKS + BLOCK_PTRS * m + r - 1)
  }

  predicate RoleIn(r: Role, n: nat) {
    match r
    case Data(k) => k < n
    case Index(m) => m < LeafCount(n)
    case Outer => OuterCount(n) == 1
  }

  /** Roles and places in the order of allocation correspond, and a file of `n` data
      sectors has exactly the first `Total(n)` of them. */
  lemma RoleOrder(o: nat)
    ensures Order(RoleNo(o)) == o
  {}

  lemma OrderRole(r: Role)
    ensures RoleNo(Order(r)) == r
  {
    match r
    case Data(k) => DataOrder(k);
    case _ =>
  }

  lemma DataOrder(k: nat)
    ensures Order(Data(k)) == if k < DIRECT_BLOCKS then k else k + 1 + (k - DIRECT_BLOCKS) / BLOCK_PTRS + (if k < DOUBLE_BASE then 0 else 1)
  {}

  lemma RolesIn(r: Role, n: nat)
    ensures RoleIn(r, n) <==> Order(r) < Total(n)
  {}

  /** The sector of a role. */
  function SectorOf(t: Tree, r: Role): Sector
    requires match r case Data(k) => k < |t.data| case Index(m) => m < |t.index| case Outer => |t.outer| == 1
  {
    match r
    case Data(k) => t.data[k]
    case Index(m) => t.index[m]
    case Outer => t.outer[0]
  }

  ghost predicate IsNew(a: State, b: State, x: Sector) { x in b.tree.roles && x !in a.tree.roles }

  /** The new sectors that were allocated before the place `o`. */
  ghost function Earlier(a: State, b: State, o: nat): set<Sector> {
    set x | x in b.tree.roles && x !in a.tree.roles && Order(b.tree.roles[x]) < o
  }

  lemma RolesListed(st: State, x: Sector)
    requires Sound(st) && x in st.tree.roles
    ensures Order(st.tree.roles[x]) < Size(st.tree)
  {
    hide Maps, Apart;
    SizeIs(st);
    assert Listed(st.tree, x, st.tree.roles[x]);
    InCounts(st, x);
    RolesIn(st.tree.roles[x], |st.tree.data|);
  }

  lemma InCounts(st: State, x: Sector)
    requires Sound(st) && x in st.tree.roles
    ensures RoleIn(st.tree.roles[x], |st.tree.data|)
  {
    assert Listed(st.tree, x, st.tree.roles[x]);
  }

  /** One new sector has the place `o`. */
  lemma AtPlace(a: State, b: State, o: nat) returns (x: Sector)
    requires Sound(a) && Sound(b) && Extends(a, b) && Size(a.tree) <= o < Size(b.tree)
    ensures IsNew(a, b, x) && Order(b.tree.roles[x]) == o
    ensures forall y :: y in b.tree.roles && Order(b.tree.roles[y]) == o ==> y == x
  {
    var r := RoleNo(o);
    SizeIs(b);
    RoleOrder(o);
    RolesIn(r, |b.tree.data|);
    x := RoleHeld(b, r);
    if x in a.tree.roles {
      RolesListed(a, x);
    }
    hide Order, RoleNo, Sound, Extends;
    forall y | y in b.tree.roles && Order(b.tree.roles[y]) == o
      ensures y == x
    {
      OrderRole(b.tree.roles[y]);
      SameRole(b.tree, x, y);
    }
  }

  lemma RoleHeld(b: State, r: Role) returns (x: Sector)
    requires Sound(b) && RoleIn(r, |b.tree.data|)
    ensures x in b.tree.roles && b.tree.roles[x] == r
  {
    x := SectorOf(b.tree, r);
  }

  lemma SameRole(t: Tree, x: Sector, y: Sector)
    requires Separate(t) && x in t.roles && y in t.roles && t.roles[x] == t.roles[y]
    ensures x == y
  {
    assert Listed(t, x, t.roles[x]) && Listed(t, y, t.roles[y]);
  }

  lemma {:induction false} EarlierCount(a: State, b: State, o: nat)
    requires Sound(a) && Sound(b) && Extends(a, b) && Orderly(a, b) && Size(a.tree) <= o <= Size(b.tree)
    ensures |Earlier(a, b, o)| == o - Size(a.tree)
    decreases o
  {
    hide Sound, Extends, Orderly, Order, Earlier;
    if o == Size(a.tree) {
      EarlierNone(a, b);
    } else {
      EarlierCount(a, b, o - 1);
      var x := AtPlace(a, b, o - 1);
      EarlierStep(a, b, o, x);
    }
  }

  lemma EarlierNone(a: State, b: State)
    requires Orderly(a, b)
    ensures Earlier(a, b, Size(a.tree)) == {}
  {
    hide Order;
  }

  lemma EarlierStep(a: State, b: State, o: nat, x: Sector)
    requires o > 0 && IsNew(a, b, x) && Order(b.tree.roles[x]) == o - 1
    requires forall y :: y in b.tree.roles && Order(b.tree.roles[y]) == o - 1 ==> y == x
    ensures x !in Earlier(a, b, o - 1) && Earlier(a, b, o) == Earlier(a, b, o - 1) + {x}
  {
    hide Order;
  }

  /** Each new sector is the free sector of the rank that its role has. */
  lemma NewRank(a: State, b: State, x: Sector)
    requires Sound(a) && Sound(b) && Grown(a, b) && IsNew(a, b, x)
    ensures x in a.free && Rank(a.free, x) + Total(|a.tree.data|) == Order(b.tree.roles[x]) < Total(|b.tree.data|)
  {
    hide Sound, Extends, Orderly, Order;
    SizeIs(a);
    SizeIs(b);
    NewIsFree(a, b, x);
    RolesListed(b, x);
    BelowIsEarlier(a, b, x);
    EarlierCount(a, b, Order(b.tree.roles[x]));
  }

  lemma NewIsFree(a: State, b: State, x: Sector)
    requires Sound(a) && Extends(a, b) && Orderly(a, b) && IsNew(a, b, x)
    ensures x in a.free && Apart(a) && Size(a.tree) <= Order(b.tree.roles[x])
  {
    hide Order;
  }

  lemma BelowIsEarlier(a: State, b: State, x: Sector)
    requires Sound(b) && Extends(a, b) && Orderly(a, b) && Apart(a) && IsNew(a, b, x)
    ensures Below(a.free, x) == Earlier(a, b, Order(b.tree.roles[x]))
  {
    var o := Order(b.tree.roles[x]);
    SizeIs(b);
    forall y
      ensures y in Below(a.free, x) <==> y in Earlier(a, b, o)
    {
      if y in b.tree.roles && Order(b.tree.roles[y]) == o {
        OrderRole(b.tree.roles[y]);
        OrderRole(b.tree.roles[x]);
        SameRole(b.tree, x, y);
      }
    }
  }

  /** Different free sectors have different ranks. */
  lemma RankSame(free: set<Sector>, x: Sector, y: Sector)
    requires x in free && y in free && Rank(free, x) == Rank(free, y)
    ensures x == y
  {
    if x < y {
      RankLess(free, x, y);
    } else if y < x {
      RankLess(free, y, x);
    }
  }

  lemma RankLess(free: set<Sector>, x: Sector, y: Sector)
    requires x in free && x < y
    ensures Rank(free, x) < Rank(free, y)
  {
    var p, q := Below(free, x), Below(free, y);
    assert q == (p + {x}) + (q - p - {x});
    assert |q| == |p + {x}| + |q - p - {x}|;
  }

  // ---- What a caller can know before the call ----

  /** A file that grows from `n0` to `n1` data sectors gets the free sector `x`. */
  ghost predicate Taken(free: set<Sector>, x: Sector, n0: nat, n1: nat) {
    x in free && Rank(free, x) + Total(n0) < Total(n1)
  }

  /** What it gets it for. */
  ghost function RoleToBe(free: set<Sector>, x: Sector, n0: nat): Role {
    RoleNo(Rank(free, x) + Total(n0))
  }

  /** The growth takes exactly the sectors that the free map and the lengths tell
      before it, each for the role they tell. */
  lemma TakenIs(a: State, b: State, x: Sector)
    requires Sound(a) && Sound(b) && Grown(a, b)
    ensures Taken(a.free, x, |a.tree.data|, |b.tree.data|) <==> IsNew(a, b, x)
    ensures IsNew(a, b, x) ==> b.tree.roles[x] == RoleToBe(a.free, x, |a.tree.data|)
  {
    hide Sound, Extends, Orderly, Order, Rank, Total, RoleNo;
    SizeIs(a);
    SizeIs(b);
    if IsNew(a, b, x) {
      NewRank(a, b, x);
      OrderRole(b.tree.roles[x]);
    }
    if Taken(a.free, x, |a.tree.data|, |b.tree.data|) {
      var y := AtPlace(a, b, Rank(a.free, x) + Total(|a.tree.data|));
      NewRank(a, b, y);
      RankSame(a.free, x, y);
    }
  }

  /** The least `n` sectors of `free`, or all if there are fewer. */
  ghost function Least(free: set<Sector>, n: int): set<Sector> {
    set x | x in free && Rank(free, x) < n
  }

  /** That many sectors can be had, and none of them is among `resident`. */
  ghost predicate Available(resident: set<Sector>, free: set<Sector>, n: int) {
    |free| >= n && Least(free, n) !! resident
  }

  /** A file of `n0` data sectors can grow so as to reach byte `end`. */
  ghost predicate CanGrow(resident: set<Sector>, free: set<Sector>, n0: nat, end: nat) {
    Available(resident, free, Total(Min(DataSectors(end), MAX_SECTORS)) - Total(n0))
  }

  /** None of `resident` is new after such growth, or has been written by it. */
  lemma NoneNew(a: State, b: State, resident: set<Sector>)
    requires Sound(a) && Sound(b) && Grown(a, b) && Available(resident, a.free, Total(|b.tree.data|) - Total(|a.tree.data|))
    ensures forall x :: x in resident ==> !IsNew(a, b, x)
  {
    hide Sound, Grown, IsNew, Rank, Total;
    forall x | x in resident
      ensures !IsNew(a, b, x)
    {
      assert x !in Least(a.free, Total(|b.tree.data|) - Total(|a.tree.data|));
      TakenIs(a, b, x);
    }
  }

  /** A file has got just the sectors that were to be taken. */
  ghost predicate Took(free0: set<Sector>, t0: Tree, free1: set<Sector>, t1: Tree) {
    var taken := Least(free0, Total(|t1.data|) - Total(|t0.data|));
    Owned(t1) == Owned(t0) + taken && free1 == free0 - taken
  }

  lemma GrownTook(a: State, b: State)
    requires Sound(a) && Sound(b) && Grown(a, b)
    ensures Took(a.free, a.tree, b.free, b.tree)
  {
    hide Sound, Orderly, Untouched, Rank, Total;
    SoundApart(a);
    var taken := Least(a.free, Total(|b.tree.data|) - Total(|a.tree.data|));
    forall x: Sector
      ensures x in taken <==> IsNew(a, b, x)
    {
      TakenIs(a, b, x);
    }
    assert forall x :: x in Owned(b.tree) <==> x in Owned(a.tree) || x in taken;
    assert forall x :: x in b.free <==> x in a.free && x !in taken;
  }

  lemma TookNothing(free0: set<Sector>, t: Tree, free1: set<Sector>)
    ensures Took(free0, t, free1, t) <==> free1 == free0
  {
    assert Least(free0, 0) == {};
  }

  /** With the least free sector gone, the others move up. */
  lemma AfterLeast(free: set<Sector>, s: Sector, x: Sector)
    requires IsLeast(free, s) && x in free
    ensures Rank(free, x) == if x == s then 0 else Rank(free - {s}, x) + 1
  {
    if x == s {
      assert Below(free, x) == {};
    } else {
      assert Below(free, x) == Below(free - {s}, x) + {s};
    }
  }

  /** So one more than `n` are had by having the least and then `n`. */
  lemma OneMore(resident: set<Sector>, free: set<Sector>, n: nat, s: Sector)
    requires Available(resident, free, 1 + n) && IsLeast(free, s)
    ensures s !in resident && Available(resident, free - {s}, n)
  {
    hide Rank;
    forall x | x in resident && x in free
      ensures x != s && x !in Least(free - {s}, n)
    {
      AfterLeast(free, s, x);
      assert x !in Least(free, 1 + n);
    }
  }
}
