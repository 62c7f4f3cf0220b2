/** The theory of the buddy tree: an implicit binary tree of `Pow2(top + 1) - 1`
    nodes, numbered breadth first from 0.  A live block is named by its node, and
    every node stands for a run of allocation blocks of the heap.

    The state a node must be in is a function of the set of live blocks alone
    (`State`), for every node that can be reached from the root through nodes that
    are neither live nor wholly free (`Reach`).  Bytes below that are stale. */
module BuddyTree {

  datatype NodeState = Unused | Used | Split | Full

  function Pow2(n: nat): (r: nat)
    ensures r >= 1
  {
    if n <= 0 then 1 else 2 * Pow2(n - 1)
  }

  // ---- Numbers of the tree nodes -------------------------------------------

  function Depth(i: nat): nat {
    if i <= 0 then 0 else 1 + Depth((i - 1) / 2)
  }

  /** Is `a` the node `i` or one of its ancestors? */
  ghost predicate Under(a: nat, i: nat) {
    a == i || (a < i && Under(a, (i - 1) / 2))
  }

  /** The other child of the parent of `i`. */
  function Buddy(i: nat): nat
    requires i > 0
  {
    if i % 2 == 1 then i + 1 else i - 1
  }

  lemma {:induction false} UnderTrans(a: nat, b: nat, c: nat)
    requires Under(a, b) && Under(b, c)
    ensures Under(a, c)
    decreases c
  {
    if b != c {
      UnderTrans(a, b, (c - 1) / 2);
      UnderLe(a, (c - 1) / 2);
    }
  }

  lemma {:induction false} UnderLe(a: nat, b: nat)
    requires Under(a, b)
    ensures a <= b
  {}

  /** Two ancestors of one node are related. */
  lemma {:induction false} UnderChain(a: nat, b: nat, x: nat)
    requires Under(a, x) && Under(b, x)
    ensures Under(a, b) || Under(b, a)
    decreases x
  {
    if a != x && b != x {
      UnderChain(a, b, (x - 1) / 2);
    }
  }

  /** A node properly below `i` is below one of its two children. */
  lemma {:induction false} UnderChild(i: nat, x: nat)
    requires Under(i, x)
    ensures i == x || Under(2 * i + 1, x) || Under(2 * i + 2, x)
    decreases x
  {
    if i != x {
      UnderChild(i, (x - 1) / 2);
      if i == (x - 1) / 2 {
        assert x == 2 * i + 1 || x == 2 * i + 2;
      } else if Under(2 * i + 1, (x - 1) / 2) {
        UnderLe(2 * i + 1, (x - 1) / 2);
      } else {
        UnderLe(2 * i + 2, (x - 1) / 2);
      }
    }
  }

  lemma {:induction false} ChildUnder(i: nat)
    ensures Under(i, 2 * i + 1) && Under(i, 2 * i + 2)
    ensures Depth(2 * i + 1) == Depth(i) + 1 == Depth(2 * i + 2)
  {
    assert (2 * i + 1 - 1) / 2 == i && (2 * i + 2 - 1) / 2 == i;
    assert Under(i, i);
  }

  lemma {:induction false} UnderDepth(a: nat, b: nat)
    requires Under(a, b)
    ensures Depth(a) <= Depth(b)
    ensures a != b ==> Depth(a) < Depth(b)
    decreases b
  {
    if a != b {
      UnderDepth(a, (b - 1) / 2);
    }
  }

  lemma {:induction false} RootAbove(i: nat)
    ensures Under(0, i)
  {
    if i > 0 {
      RootAbove((i - 1) / 2);
    }
  }

  lemma {:induction false} DepthBounds(i: nat)
    ensures Pow2(Depth(i)) - 1 <= i < Pow2(Depth(i) + 1) - 1
  {
    if i > 0 {
      DepthBounds((i - 1) / 2);
    }
  }

  lemma {:induction false} Pow2Monotone(m: nat, n: nat)
    requires m <= n
    ensures Pow2(m) <= Pow2(n)
    ensures m < n ==> Pow2(m) < Pow2(n)
    decreases n
  {
    if m < n {
      Pow2Monotone(m, n - 1);
    }
  }

  /** Left shift. */
  function Shl(x: nat, m: nat): nat {
    if m <= 0 then x else 2 * Shl(x, m - 1)
  }

  lemma {:induction false} ShlAdd(x: nat, y: nat, m: nat)
    ensures Shl(x + y, m) == Shl(x, m) + Shl(y, m)
    ensures Shl(x, m) >= x
    ensures Shl(1, m) == Pow2(m)
  {
    if m > 0 {
      ShlAdd(x, y, m - 1);
    }
  }

  lemma {:induction false} ShlLess(x: nat, y: nat, m: nat)
    requires x < y
    ensures Shl(x, m) + Pow2(m) <= Shl(y, m)
  {
    ShlAdd(x, y - x, m);
    ShlAdd(1, y - x - 1, m);
  }

  lemma {:induction false} ShlShl(x: nat, m: nat, n: nat)
    ensures Shl(Shl(x, m), n) == Shl(x, m + n)
  {
    if n > 0 {
      ShlShl(x, m, n - 1);
    }
  }

  lemma {:induction false} ShlMul(x: nat, m: nat)
    ensures Shl(x, m) == x * Pow2(m)
  {
    if m > 0 {
      ShlMul(x, m - 1);
      MulDouble(x, Pow2(m - 1));
    }
  }

  lemma {:induction false} MulDouble(x: nat, y: nat)
    ensures 2 * (x * y) == x * (2 * y)
  {}

  lemma {:induction false} DepthFromBounds(i: nat, d: nat)
    requires Pow2(d) - 1 <= i < Pow2(d + 1) - 1
    ensures Depth(i) == d
  {
    DepthBounds(i);
    if Depth(i) < d {
      Pow2Monotone(Depth(i) + 1, d);
    } else if d < Depth(i) {
      Pow2Monotone(d + 1, Depth(i));
    }
  }

  /** The nodes of the tree are exactly those of depth at most `top`. */
  lemma {:induction false} InTree(i: nat, top: nat)
    ensures i < Pow2(top + 1) - 1 <==> Depth(i) <= top
  {
    DepthBounds(i);
    if Depth(i) <= top {
      Pow2Monotone(Depth(i) + 1, top + 1);
    } else {
      Pow2Monotone(top + 1, Depth(i));
    }
  }

  /** The nodes `m` levels below `i` are numbered consecutively. */
  lemma {:induction false} UnderAtDepth(i: nat, t: nat, m: nat)
    requires Depth(t) == Depth(i) + m
    ensures Under(i, t) <==> Shl(i + 1, m) <= t + 1 < Shl(i + 2, m)
    decreases m
  {
    if m == 0 {
      if Under(i, t) {
        UnderDepth(i, t);
      }
    } else {
      var p := (t - 1) / 2;
      UnderAtDepth(i, p, m - 1);
      ShlAdd(i + 1, 1, m);
      assert t != i;
    }
  }

  // ---- Runs of allocation blocks -------------------------------------------

  /** The number of blocks in the run of node `i`. */
  function Len(top: nat, i: nat): nat
    requires Depth(i) <= top
  {
    Pow2(top - Depth(i))
  }

  /** The first block of the run of node number `index` at depth `level`. */
  function IndexOffset(index: nat, level: nat, top: nat): nat
    requires Pow2(level) <= index + 1 && level <= top
  {
    Shl(index + 1 - Pow2(level), top - level)
  }

  function Lo(top: nat, i: nat): nat
    requires Depth(i) <= top
  {
    DepthBounds(i);
    IndexOffset(i, Depth(i), top)
  }

  /** Children halve the run of their parent. */
  lemma {:induction false} RunHalves(top: nat, i: nat)
    requires Depth(i) < top
    ensures Depth(2 * i + 1) == Depth(i) + 1 == Depth(2 * i + 2)
    ensures Len(top, i) == 2 * Len(top, 2 * i + 1) == 2 * Len(top, 2 * i + 2)
    ensures Lo(top, 2 * i + 1) == Lo(top, i)
    ensures Lo(top, 2 * i + 2) == Lo(top, i) + Len(top, 2 * i + 1)
  {
    ChildUnder(i);
    DepthBounds(i);
    var x, m := i + 1 - Pow2(Depth(i)), top - Depth(i) - 1;
    ShlAdd(x, x, m);
    ShlAdd(2 * x, 1, m);
    ShlAdd(1, 0, m);
    assert 2 * i + 2 - Pow2(Depth(i) + 1) == x + x;
    assert 2 * i + 3 - Pow2(Depth(i) + 1) == 2 * x + 1;
  }

  /** The run of a node lies inside the run of its ancestors. */
  lemma {:induction false} RunNested(top: nat, a: nat, b: nat)
    requires Under(a, b) && Depth(b) <= top
    ensures Depth(a) <= top
    ensures Lo(top, a) <= Lo(top, b) && Lo(top, b) + Len(top, b) <= Lo(top, a) + Len(top, a)
    decreases b
  {
    UnderDepth(a, b);
    if a != b {
      var p := (b - 1) / 2;
      RunNested(top, a, p);
      RunHalves(top, p);
      assert b == 2 * p + 1 || b == 2 * p + 2;
    }
  }

  /** Unrelated nodes have disjoint runs. */
  lemma {:induction false} RunsDisjoint(top: nat, a: nat, b: nat)
    requires Depth(a) <= top && Depth(b) <= top
    requires !Under(a, b) && !Under(b, a)
    ensures Lo(top, a) + Len(top, a) <= Lo(top, b) || Lo(top, b) + Len(top, b) <= Lo(top, a)
    decreases a + b
  {
    if Depth(a) == Depth(b) {
      SameDepthDisjoint(top, a, b);
    } else if Depth(a) < Depth(b) {
      var p := (b - 1) / 2;
      ParentUnrelated(a, b);
      RunsDisjoint(top, a, p);
      RunNested(top, p, b);
    } else {
      var p := (a - 1) / 2;
      ParentUnrelated(b, a);
      RunsDisjoint(top, p, b);
      RunNested(top, p, a);
    }
  }

  lemma {:induction false} SameDepthDisjoint(top: nat, a: nat, b: nat)
    requires Depth(a) == Depth(b) <= top && a != b
    ensures Lo(top, a) + Len(top, a) <= Lo(top, b) || Lo(top, b) + Len(top, b) <= Lo(top, a)
  {
    var d := Depth(a);
    LoShift(top, a, d);
    LoShift(top, b, d);
    if a < b {
      ShlLess(a + 1 - Pow2(d), b + 1 - Pow2(d), top - d);
    } else {
      ShlLess(b + 1 - Pow2(d), a + 1 - Pow2(d), top - d);
    }
  }

  lemma {:induction false} LoShift(top: nat, i: nat, d: nat)
    requires Depth(i) == d <= top
    ensures Pow2(d) <= i + 1 && Lo(top, i) == Shl(i + 1 - Pow2(d), top - d) && Len(top, i) == Pow2(top - d)
  {
    DepthBounds(i);
  }

  lemma {:induction false} ParentUnrelated(a: nat, b: nat)
    requires Depth(a) < Depth(b) && !Under(a, b)
    ensures b > 0 && !Under(a, (b - 1) / 2) && !Under((b - 1) / 2, a)
    ensures Under((b - 1) / 2, b)
  {
    var p := (b - 1) / 2;
    assert Under(p, b) by {
      assert Under(p, p);
    }
    if Under(p, a) {
      UnderDepth(p, a);
    } else if Under(a, p) {
      UnderTrans(a, p, b);
    }
  }

  // ---- What the live blocks require of the nodes ---------------------------

  /** Does the subtree of `i` hold a live block? */
  ghost predicate Occupied(live: set<nat>, i: nat) {
    exists b :: b in live && Under(i, b)
  }

  /** Is the whole run of `i`, a node `h` levels above the bottom, in live blocks
      of its own subtree? */
  ghost predicate Covered(live: set<nat>, i: nat, h: nat)
    decreases h
  {
    i in live || (h > 0 && Covered(live, 2 * i + 1, h - 1) && Covered(live, 2 * i + 2, h - 1))
  }

  /** No live block shares a block of the heap with node `i`. */
  ghost predicate Free(live: set<nat>, i: nat) {
    !Occupied(live, i) && forall a :: a in live ==> !Under(a, i)
  }

  /** All proper ancestors of `i` are partly, and not as one block, in use. */
  ghost predicate Reach(live: set<nat>, i: nat) {
    i <= 0 || (Reach(live, (i - 1) / 2) && (i - 1) / 2 !in live && Occupied(live, (i - 1) / 2))
  }

  ghost function State(live: set<nat>, i: nat, h: nat): NodeState {
    if i in live then Used
    else if !Occupied(live, i) then Unused
    else if Covered(live, i, h) then Full
    else Split
  }

  /** Live blocks are nodes of the tree, no one inside another. */
  ghost predicate Antichain(top: nat, live: set<nat>) {
    && (forall b :: b in live ==> Depth(b) <= top)
    && (forall a, b :: a in live && b in live && Under(a, b) ==> a == b)
  }

  /** The bytes of the tree that can be reached are those the live blocks require. */
  ghost predicate Rep(tree: seq<NodeState>, top: nat, live: set<nat>) {
    && |tree| == Pow2(top + 1) - 1
    && forall j: nat {:trigger Reach(live, j)} :: j < |tree| && Reach(live, j) ==> Depth(j) <= top && tree[j] == State(live, j, top - Depth(j))
  }

  lemma {:induction false} ReachAncestor(live: set<nat>, a: nat, i: nat)
    requires Reach(live, i) && Under(a, i)
    ensures Reach(live, a)
    ensures a != i ==> a !in live && Occupied(live, a)
    decreases i
  {
    if a != i {
      ReachAncestor(live, a, (i - 1) / 2);
    }
  }

  lemma {:induction false} BuddyFacts(i: nat)
    requires i > 0
    ensures Buddy(i) > 0 && (Buddy(i) - 1) / 2 == (i - 1) / 2 && Depth(Buddy(i)) == Depth(i)
    ensures !Under(i, Buddy(i)) && !Under(Buddy(i), i)
    ensures Under((i - 1) / 2, i) && Under((i - 1) / 2, Buddy(i))
  {
    var p := (i - 1) / 2;
    assert (Buddy(i) - 1) / 2 == p;
    assert Under(p, p);
    if Under(i, Buddy(i)) {
      UnderDepth(i, Buddy(i));
    }
    if Under(Buddy(i), i) {
      UnderDepth(Buddy(i), i);
    }
  }

  lemma {:induction false} ReachBuddy(live: set<nat>, i: nat)
    requires i > 0
    ensures Reach(live, i) <==> Reach(live, Buddy(i))
  {
    BuddyFacts(i);
  }

  /** A covered subtree holds a live block. */
  lemma {:induction false} CoveredOccupied(live: set<nat>, i: nat, h: nat)
    requires Covered(live, i, h)
    ensures Occupied(live, i)
    decreases h
  {
    if i in live {
      assert Under(i, i);
    } else {
      CoveredOccupied(live, 2 * i + 1, h - 1);
      ChildUnder(i);
      var b :| b in live && Under(2 * i + 1, b);
      UnderTrans(i, 2 * i + 1, b);
    }
  }

  /** No node of a covered subtree is free. */
  lemma {:induction false} CoveredNotFree(live: set<nat>, i: nat, h: nat, t: nat)
    requires Covered(live, i, h) && Under(i, t) && Depth(t) <= Depth(i) + h
    ensures !Free(live, t)
    decreases h
  {
    CoveredOccupied(live, i, h);
    if i !in live && i != t {
      UnderChild(i, t);
      ChildUnder(i);
      if Under(2 * i + 1, t) {
        CoveredNotFree(live, 2 * i + 1, h - 1, t);
      } else {
        CoveredNotFree(live, 2 * i + 2, h - 1, t);
      }
    }
  }

  /** Coverage of a subtree depends on the live blocks of that subtree only. */
  lemma {:induction false} CoveredFrame(live: set<nat>, n: nat, i: nat, h: nat)
    requires !Under(i, n)
    ensures Covered(live + {n}, i, h) == Covered(live, i, h)
    ensures Covered(live - {n}, i, h) == Covered(live, i, h)
    decreases h
  {
    if h > 0 {
      ChildUnder(i);
      if Under(2 * i + 1, n) {
        UnderTrans(i, 2 * i + 1, n);
      }
      if Under(2 * i + 2, n) {
        UnderTrans(i, 2 * i + 2, n);
      }
      CoveredFrame(live, n, 2 * i + 1, h - 1);
      CoveredFrame(live, n, 2 * i + 2, h - 1);
    }
  }

  lemma {:induction false} StateFrame(live: set<nat>, n: nat, i: nat, h: nat)
    requires !Under(i, n)
    ensures State(live + {n}, i, h) == State(live, i, h)
    ensures State(live - {n}, i, h) == State(live, i, h)
  {
    CoveredFrame(live, n, i, h);
    if Occupied(live, i) {
      var b :| b in live && Under(i, b);
      assert b in live - {n} && b in live + {n};
    }
    assert Under(n, n);
  }

  /** A node whose ancestor `a` is not covered, and not live, lies under uncovered nodes. */
  lemma {:induction false} UncoveredAbove(live: set<nat>, top: nat, a: nat, i: nat)
    requires Under(a, i) && Depth(i) <= top && Depth(a) <= top
    requires !Covered(live, i, top - Depth(i))
    requires forall x :: Under(a, x) && Under(x, i) && x != i ==> x !in live
    ensures !Covered(live, a, top - Depth(a))
    decreases i
  {
    if a != i {
      var p := (i - 1) / 2;
      UnderDepth(a, i);
      ChildUnder(p);
      assert i == 2 * p + 1 || i == 2 * p + 2;
      assert Under(p, i) && p !in live;
      forall x | Under(a, x) && Under(x, p) && x != p
        ensures x !in live
      {
        UnderTrans(x, p, i);
        UnderLe(x, p);
      }
      UncoveredAbove(live, top, a, p);
    }
  }
}
