/** The buddy allocator of an EMS region: a tree of byte states updated in place. */
module BuddyHeap {
  import opened BuddyTree
  import opened BuddyMarking

  const BLOCK_SIZE: nat := 32

  function PopCount(x: nat): nat {
    if x <= 0 then 0 else x % 2 + PopCount(x / 2)
  }

  function BitLength(x: nat): nat {
    if x <= 0 then 0 else 1 + BitLength(x / 2)
  }

  /** The smallest power of two that is not below `x`. */
  function NextPow2(x: nat): (r: nat)
    requires x >= 1
    ensures x <= r < 2 * x
    ensures exists k: nat :: r == Pow2(k)
  {
    PowerBits(x);
    if PopCount(x) == 1 then x else Pow2(BitLength(x))
  }

  lemma {:induction false} PowerBits(x: nat)
    requires x >= 1
    ensures BitLength(x) >= 1 && PopCount(x) >= 1
    ensures Pow2(BitLength(x) - 1) <= x < Pow2(BitLength(x))
    ensures PopCount(x) == 1 <==> x == Pow2(BitLength(x) - 1)
  {
    if x > 1 {
      var half, bit := x / 2, x % 2;
      PowerBits(half);
      var k := BitLength(half);
      assert BitLength(x) == 1 + k && PopCount(x) == bit + PopCount(half);
      assert Pow2(k + 1) == 2 * Pow2(k) && Pow2(k) == 2 * Pow2(k - 1);
      assert x == 2 * half + bit;
    } else {
      assert BitLength(1) == 1 && PopCount(1) == 1 && Pow2(1) == 2;
    }
  }

  /** No live block meets the `size` blocks from `off`. */
  ghost predicate RunFree(top: nat, live: set<nat>, off: nat, size: nat)
    requires forall b :: b in live ==> Depth(b) <= top
  {
    forall b :: b in live ==> off + size <= Lo(top, b) || Lo(top, b) + Len(top, b) <= off
  }

  /** A size-aligned run inside the heap that no live block meets. */
  ghost predicate AlignedFree(top: nat, live: set<nat>, off: nat, size: nat)
    requires size > 0 && forall b :: b in live ==> Depth(b) <= top
  {
    off % size == 0 && off + size <= Pow2(top) && RunFree(top, live, off, size)
  }

  lemma {:induction false} FreeIsRunFree(top: nat, live: set<nat>, t: nat)
    requires Antichain(top, live) && Depth(t) <= top
    ensures Free(live, t) <==> RunFree(top, live, Lo(top, t), Len(top, t))
  {
    if Free(live, t) {
      forall b | b in live
        ensures Lo(top, t) + Len(top, t) <= Lo(top, b) || Lo(top, b) + Len(top, b) <= Lo(top, t)
      {
        RunsDisjoint(top, t, b);
      }
    } else {
      var b :| b in live && (Under(t, b) || Under(b, t));
      if Under(t, b) {
        RunNested(top, t, b);
      } else {
        RunNested(top, b, t);
      }
    }
  }

  /** The aligned runs of `Pow2(top - d)` blocks are the runs of the nodes of depth `d`,
      in the order of their numbers. */
  lemma {:induction false} AlignedRunNode(top: nat, d: nat, off: nat, size: nat) returns (n: nat)
    requires d <= top && size == Pow2(top - d) && off % size == 0 && off + size <= Pow2(top)
    ensures Depth(n) == d && Lo(top, n) == off && Len(top, n) == size
  {
    var k := off / size;
    ShlMul(k, top - d);
    ShlMul(1, top);
    ShlShl(1, d, top - d);
    ShlAdd(1, 0, d);
    ShlMul(Pow2(d), top - d);
    DivMod(off, size);
    if k >= Pow2(d) {
      MulLe(Pow2(d), k, size);
    }
    n := Pow2(d) - 1 + k;
    DepthFromBounds(n, d);
  }

  lemma {:induction false} DivMod(x: nat, y: nat)
    requires y > 0
    ensures x == (x / y) * y + x % y
  {}

  lemma {:induction false} MulLe(x: nat, y: nat, k: nat)
    requires x <= y
    ensures x * k <= y * k
  {}

  lemma {:induction false} NodeRunInside(top: nat, n: nat)
    requires Depth(n) <= top
    ensures Lo(top, n) + Len(top, n) <= Pow2(top)
  {
    RootAbove(n);
    RunNested(top, 0, n);
    ShlAdd(0, 0, top);
  }

  lemma {:induction false} NodeRunAligned(top: nat, n: nat)
    requires Depth(n) <= top
    ensures Lo(top, n) % Len(top, n) == 0
  {
    DepthBounds(n);
    ShlMod(n + 1 - Pow2(Depth(n)), top - Depth(n));
  }

  lemma {:induction false} ShlMod(x: nat, m: nat)
    ensures Shl(x, m) % Pow2(m) == 0
  {
    ShlMul(x, m);
    ModMul(x, Pow2(m));
  }

  lemma {:induction false} ModMul(x: nat, y: nat)
    requires y > 0
    ensures (x * y) % y == 0
  {
    var q := (x * y) / y;
    DivMod(x * y, y);
    Distribute(q, 1, y);
    Distribute(x, 1, y);
    if q < x {
      MulLe(q + 1, x, y);
    } else if x < q {
      MulLe(x + 1, q, y);
    }
  }

  lemma {:induction false} Distribute(x: nat, y: nat, k: nat)
    ensures (x + y) * k == x * k + y * k
  {}

  /** One more than the number of the first node of depth `d` that is `i` or below it,
      for `i` of depth `lev`: the position of the search when it looks at `i`. */
  ghost function Position(i: nat, lev: nat, d: nat): nat
    requires lev <= d
  {
    Shl(i + 1, d - lev)
  }

  /** No node of depth `d` before the position `bound` is free. */
  ghost predicate NoneFreeBefore(live: set<nat>, d: nat, bound: nat) {
    forall t: nat {:trigger Free(live, t)} :: Depth(t) == d && t + 1 < bound ==> !Free(live, t)
  }

  /** Where the search is when it goes to a left child, to a sibling, and from a right
      child to the sibling of the parent. */
  lemma {:induction false} PositionDown(i: nat, lev: nat, d: nat)
    requires lev < d
    ensures Position(2 * i + 1, lev + 1, d) == Position(i, lev, d)
  {
    ShlAdd(i + 1, i + 1, d - lev - 1);
  }

  lemma {:induction false} PositionRight(i: nat, lev: nat, d: nat)
    requires lev <= d
    ensures Position(i, lev, d) < Position(i + 1, lev, d)
  {
    ShlLess(i + 1, i + 2, d - lev);
  }

  lemma {:induction false} PositionUp(i: nat, lev: nat, d: nat)
    requires 0 < lev <= d && i > 0 && i % 2 == 0
    ensures Position((i - 1) / 2 + 1, lev - 1, d) == Position(i + 1, lev, d)
  {
    ShlAdd((i - 1) / 2 + 2, (i - 1) / 2 + 2, d - lev);
  }

  lemma {:induction false} PositionEnds(d: nat)
    ensures Position(0, 0, d) == Pow2(d) && Position(1, 0, d) == Pow2(d + 1)
  {
    ShlAdd(1, 1, d);
  }

  lemma {:induction false} BeforeFirst(live: set<nat>, d: nat)
    ensures NoneFreeBefore(live, d, Pow2(d))
  {
    forall t: nat
      ensures Depth(t) == d ==> t >= Pow2(d) - 1
    {
      DepthBounds(t);
    }
  }

  lemma {:induction false} SameLength(top: nat, lev: nat, d: nat)
    requires lev <= d <= top
    ensures Pow2(top - lev) == Pow2(top - d) <==> lev == d
  {
    if lev < d {
      Pow2Monotone(top - d, top - lev);
    }
  }

  /** The free node of depth `d` before which no node is free has the lowest free run. */
  lemma {:induction false} LowestRun(top: nat, live: set<nat>, n: nat, size: nat)
    requires Antichain(top, live) && Depth(n) <= top && size == Len(top, n)
    requires Free(live, n) && NoneFreeBefore(live, Depth(n), n + 1)
    ensures AlignedFree(top, live, Lo(top, n), size)
    ensures forall off: nat :: off < Lo(top, n) ==> !AlignedFree(top, live, off, size)
  {
    NodeRunInside(top, n);
    NodeRunAligned(top, n);
    FreeIsRunFree(top, live, n);
    forall off: nat | off < Lo(top, n)
      ensures !AlignedFree(top, live, off, size)
    {
      if AlignedFree(top, live, off, size) {
        var m := AlignedRunNode(top, Depth(n), off, size);
        FreeIsRunFree(top, live, m);
        LaterRun(top, n, m);
      }
    }
  }

  /** At one depth, a later node has a later run. */
  lemma {:induction false} LaterRun(top: nat, n: nat, m: nat)
    requires Depth(n) == Depth(m) <= top
    ensures n <= m ==> Lo(top, n) <= Lo(top, m)
  {
    DepthBounds(n);
    DepthBounds(m);
    if n < m {
      ShlLess(n + 1 - Pow2(Depth(n)), m + 1 - Pow2(Depth(n)), top - Depth(n));
    }
  }

  lemma {:induction false} NoneFree(top: nat, live: set<nat>, d: nat, size: nat)
    requires Antichain(top, live) && d <= top && size == Pow2(top - d)
    requires NoneFreeBefore(live, d, Pow2(d + 1))
    ensures Exhausted(top, live, size)
  {
    forall off: nat
      ensures !AlignedFree(top, live, off, size)
    {
      if AlignedFree(top, live, off, size) {
        var n := AlignedRunNode(top, d, off, size);
        FreeIsRunFree(top, live, n);
        DepthBounds(n);
      }
    }
  }

  // ---- The depth-first search for a free node of depth d --------------------

  /** The search looks at node `i`; no node of depth `d` before it is free. */
  ghost predicate Looking(tree: seq<NodeState>, top: nat, live: set<nat>, d: nat, i: int, lev: int, length: int) {
    && i >= 0 && 0 <= lev <= d <= top && Depth(i) == lev && length == Pow2(top - lev)
    && Rep(tree, top, live) && Antichain(top, live) && Reach(live, i) && i < |tree|
    && NoneFreeBefore(live, d, Position(i, lev, d))
  }

  /** The search has found the free node `i` and is splitting its way down to depth `d`. */
  ghost predicate Entering(tree: seq<NodeState>, top: nat, live: set<nat>, d: nat, i: int, lev: int, length: int) {
    && i >= 0 && 0 <= lev <= d <= top && Depth(i) == lev && length == Pow2(top - lev)
    && Antichain(top, live) && Prepared(tree, top, live, i) && i < |tree| && tree[i] == Unused
    && NoneFreeBefore(live, d, Position(i, lev, d))
  }

  /** The search is done with node `i` and all nodes below it. */
  ghost predicate Skipped(tree: seq<NodeState>, top: nat, live: set<nat>, d: nat, i: int, lev: int, length: int) {
    && i >= 0 && 0 <= lev <= d <= top && Depth(i) == lev && length == Pow2(top - lev)
    && Rep(tree, top, live) && Antichain(top, live) && Reach(live, i)
    && NoneFreeBefore(live, d, Position(i + 1, lev, d))
  }

  ghost predicate Exhausted(top: nat, live: set<nat>, size: nat)
    requires size > 0 && forall b :: b in live ==> Depth(b) <= top
  {
    forall off: nat :: !AlignedFree(top, live, off, size)
  }

  /** The block at byte `addr` is new, is of `size` blocks, and is the lowest such run. */
  ghost predicate Allocated(top: nat, live: set<nat>, live': set<nat>, addr: int, size: nat)
    requires size > 0 && forall b :: b in live ==> Depth(b) <= top
  {
    exists n: nat ::
      && n !in live && live' == live + {n} && Depth(n) <= top
      && Lo(top, n) * 32 == addr && Len(top, n) == size
      && AlignedFree(top, live, Lo(top, n), size)
      && forall off: nat :: off < Lo(top, n) ==> !AlignedFree(top, live, off, size)
  }

  /** How far the search is from the end of the nodes of depth `d`. */
  ghost function Remaining(d: nat, i: int, lev: int): int {
    if i >= 0 && 0 <= lev <= d then Pow2(d + 1) - Position(i, lev, d) else 0
  }

  lemma {:induction false} RemainingPositive(d: nat, i: nat, lev: nat)
    requires Depth(i) == lev <= d
    ensures Remaining(d, i, lev) > Remaining(d, i + 1, lev) >= 0
  {
    DepthBounds(i);
    PositionRight(i, lev, d);
    ShlPow2(i + 2, lev + 1, d - lev);
  }

  lemma {:induction false} ShlPow2(x: nat, m: nat, n: nat)
    requires x <= Pow2(m)
    ensures Shl(x, n) <= Pow2(m + n)
  {
    ShlAdd(1, 0, m);
    ShlAdd(1, 0, m + n);
    ShlShl(1, m, n);
    ShlAdd(x, Pow2(m) - x, n);
  }

  lemma {:induction false} LookStart(tree: seq<NodeState>, top: nat, live: set<nat>, d: nat)
    requires Rep(tree, top, live) && Antichain(top, live) && d <= top
    ensures Looking(tree, top, live, d, 0, 0, Pow2(top))
  {
    PositionEnds(d);
    BeforeFirst(live, d);
    InTree(0, top);
  }

  lemma {:induction false} LookEnter(tree: seq<NodeState>, top: nat, live: set<nat>, d: nat, i: int, lev: int, length: int)
    requires Looking(tree, top, live, d, i, lev, length) && tree[i] == Unused
    ensures Entering(tree, top, live, d, i, lev, length)
  {
    UnusedIsPrepared(tree, top, live, i);
  }

  lemma {:induction false} LookDown(tree: seq<NodeState>, top: nat, live: set<nat>, d: nat, i: int, lev: int, length: int)
    requires Looking(tree, top, live, d, i, lev, length) && tree[i] == Split && lev < d
    ensures Looking(tree, top, live, d, 2 * i + 1, lev + 1, length / 2)
    ensures Remaining(d, 2 * i + 1, lev + 1) == Remaining(d, i, lev)
  {
    ChildUnder(i);
    InTree(2 * i + 1, top);
    PositionDown(i, lev, d);
  }

  lemma {:induction false} EnterDown(tree: seq<NodeState>, top: nat, live: set<nat>, d: nat, i: int, lev: int, length: int)
    requires Entering(tree, top, live, d, i, lev, length) && lev < d
    ensures 2 * i + 2 < |tree|
    ensures Entering(tree[i := Split][2 * i + 1 := Unused][2 * i + 2 := Unused], top, live, d, 2 * i + 1, lev + 1, length / 2)
    ensures Remaining(d, 2 * i + 1, lev + 1) == Remaining(d, i, lev)
  {
    SplitPrepares(tree, top, live, i);
    ChildUnder(i);
    PositionDown(i, lev, d);
  }

  /** No node below one that is used, full, or split at depth `d`, is free. */
  lemma {:induction false} LookSkip(tree: seq<NodeState>, top: nat, live: set<nat>, d: nat, i: int, lev: int, length: int)
    requires Looking(tree, top, live, d, i, lev, length)
    requires tree[i] in {Used, Full} || (tree[i] == Split && lev == d)
    ensures Skipped(tree, top, live, d, i, lev, length)
  {
    forall t: nat | Depth(t) == d && t + 1 < Position(i + 1, lev, d)
      ensures !Free(live, t)
    {
      if t + 1 >= Position(i, lev, d) {
        UnderAtDepth(i, t, d - lev);
        UnderDepth(i, t);
        if tree[i] != Split {
          CoveredNotFree(live, i, top - lev, t);
        }
      }
    }
  }

  lemma {:induction false} SkipRight(tree: seq<NodeState>, top: nat, live: set<nat>, d: nat, i: int, lev: int, length: int)
    requires Skipped(tree, top, live, d, i, lev, length) && i % 2 == 1
    ensures Looking(tree, top, live, d, i + 1, lev, length)
  {
    ReachBuddy(live, i);
    BuddyFacts(i);
    InTree(i + 1, top);
  }

  lemma {:induction false} SkipUp(tree: seq<NodeState>, top: nat, live: set<nat>, d: nat, i: int, lev: int, length: int)
    requires Skipped(tree, top, live, d, i, lev, length) && i % 2 == 0 && i > 0
    ensures Skipped(tree, top, live, d, (i + 1) / 2 - 1, lev - 1, length * 2)
    ensures Remaining(d, (i + 1) / 2, lev - 1) == Remaining(d, i + 1, lev)
  {
    PositionUp(i, lev, d);
  }

  lemma {:induction false} SkipRoot(tree: seq<NodeState>, top: nat, live: set<nat>, d: nat, lev: int, length: int)
    requires Skipped(tree, top, live, d, 0, lev, length)
    ensures Exhausted(top, live, Pow2(top - d))
  {
    PositionEnds(d);
    NoneFree(top, live, d, Pow2(top - d));
  }

  lemma {:induction false} SplitReach(tree: seq<NodeState>, top: nat, live: set<nat>, i: nat)
    requires Rep(tree, top, live) && Antichain(top, live)
    requires i < |tree| && Reach(live, i) && tree[i] in {Split, Full}
    ensures Reach(live, 2 * i + 1) && Reach(live, 2 * i + 2)
    ensures Depth(i) < top
  {
    ChildUnder(i);
    var b :| b in live && Under(i, b);
    UnderDepth(i, b);
  }

  class Heap {
    const level: nat
    const tree: array<NodeState>
    ghost var live: set<nat>

    /** The reachable bytes are those the set of live blocks requires. */
    ghost predicate Valid()
      reads this, tree
    {
      && Antichain(level, live)
      && Rep(tree[..], level, live)
    }

    constructor (level: nat)
      ensures Valid() && live == {} && this.level == level && fresh(tree)
    {
      this.level := level;
      tree := new NodeState[Pow2(level + 1) - 1](_ => Unused);
      live := {};
      new;
      forall j: nat | j < |tree[..]| && Reach(live, j)
        ensures Depth(j) <= level && tree[..][j] == State(live, j, level - Depth(j))
      {
        InTree(j, level);
      }
    }

    /** Marks the ancestors of a newly used node that have become full. */
    method MarkParent(start: nat)
      requires Marking(tree[..], level, live, start)
      modifies tree
      ensures Rep(tree[..], level, live)
    {
      var index: int := start;
      while true
        invariant index >= 0
        invariant Marking(tree[..], level, live, index)
        decreases index
      {
        var buddy: int := index - 1 + (index % 2) * 2;
        InTree(index, level);
        if buddy > 0 {
          BuddyFacts(index);
          InTree(Buddy(index), level);
        }
        if buddy > 0 && (tree[buddy] == Used || tree[buddy] == Full) {
          MarkParentFull(tree[..], level, live, index);
          ghost var before := tree[..];
          index := (index + 1) / 2 - 1;
          tree[index] := Full;
          assert tree[..] == before[index := Full];
        } else {
          MarkingDone(tree[..], level, live, index);
          return;
        }
      }
    }

    method UseNode(index: nat)
      requires Antichain(level, live) && Prepared(tree[..], level, live, index)
      modifies this`live, tree
      ensures Valid() && index !in old(live) && live == old(live) + {index}
    {
      ghost var before := tree[..];
      UseStartsMarking(before, level, live, index);
      tree[index] := Used;
      live := live + {index};
      assert tree[..] == before[index := Used];
      MarkParent(index);
    }

    /** Splits the free node `start` down to its leftmost node of `size` blocks. */
    method SplitDown(ghost d: nat, size: nat, start: int, startLev: int, startLength: int) returns (index: int, lev: int)
      requires d <= level && size == Pow2(level - d)
      requires Entering(tree[..], level, live, d, start, startLev, startLength)
      modifies tree
      ensures lev == d && Entering(tree[..], level, live, d, index, lev, size)
    {
      var length := startLength;
      index, lev := start, startLev;
      SameLength(level, lev, d);
      while size != length
        invariant Entering(tree[..], level, live, d, index, lev, length)
        invariant size == length <==> lev == d
        decreases d - lev
      {
        ghost var before := tree[..];
        EnterDown(before, level, live, d, index, lev, length);
        tree[index] := Split;
        tree[index * 2 + 1] := Unused;
        tree[index * 2 + 2] := Unused;
        assert tree[..] == before[index := Split][2 * index + 1 := Unused][2 * index + 2 := Unused];
        index := index * 2 + 1;
        length := length / 2;
        lev := lev + 1;
        SameLength(level, lev, d);
      }
    }

    /** Climbs from the finished right child (or root) `start` to the next node on the
        right, or to -1 past the root, when the whole tree has been searched. */
    method Climb(ghost d: nat, start: int, startLev: int, startLength: int) returns (index: int, lev: int, length: int)
      requires Skipped(tree[..], level, live, d, start, startLev, startLength) && start % 2 == 0
      ensures index >= -1
      ensures index == -1 ==> Exhausted(level, live, Pow2(level - d))
      ensures index >= 0 ==> Looking(tree[..], level, live, d, index, lev, length)
      ensures index >= 0 ==> Remaining(d, index, lev) == Remaining(d, start + 1, startLev)
    {
      index, lev, length := start, startLev, startLength;
      while true
        invariant index % 2 == 0
        invariant Skipped(tree[..], level, live, d, index, lev, length)
        invariant Remaining(d, index + 1, lev) == Remaining(d, start + 1, startLev)
        decreases index
      {
        if index == 0 {
          SkipRoot(tree[..], level, live, d, lev, length);
        } else {
          SkipUp(tree[..], level, live, d, index, lev, length);
        }
        lev := lev - 1;
        length := length * 2;
        index := (index + 1) / 2 - 1;
        if index < 0 {
          return;
        }
        if index % 2 == 1 {
          SkipRight(tree[..], level, live, d, index, lev, length);
          index := index + 1;
          return;
        }
      }
    }

    /** Finds the first free node of `size` blocks in depth-first order, splitting its
        way down to it, or returns -1. */
    method Search(ghost d: nat, size: nat) returns (index: int, lev: int)
      requires Valid() && d <= level && size == Pow2(level - d)
      modifies tree
      ensures index < 0 ==> index == -1 && tree[..] == old(tree[..]) && Exhausted(level, live, size)
      ensures index >= 0 ==> lev == d && Entering(tree[..], level, live, d, index, lev, size)
    {
      var length: int := Pow2(level);
      index, lev := 0, 0;
      LookStart(tree[..], level, live, d);
      while index >= 0
        invariant index >= -1
        invariant tree[..] == old(tree[..])
        invariant index == -1 ==> Exhausted(level, live, size)
        invariant index >= 0 ==> Looking(tree[..], level, live, d, index, lev, length)
        decreases Remaining(d, index, lev), d - lev
      {
        SameLength(level, lev, d);
        RemainingPositive(d, index, lev);
        if tree[index] == Unused {
          LookEnter(tree[..], level, live, d, index, lev, length);
          index, lev := SplitDown(d, size, index, lev, length);
          return;
        }
        if size != length && tree[index] == Split {
          LookDown(tree[..], level, live, d, index, lev, length);
          index := index * 2 + 1;
          length := length / 2;
          lev := lev + 1;
          continue;
        }
        LookSkip(tree[..], level, live, d, index, lev, length);
        if index % 2 == 1 {
          SkipRight(tree[..], level, live, d, index, lev, length);
          index := index + 1;
          continue;
        }
        index, lev, length := Climb(d, index, lev, length);
      }
      index := -1;
    }

    /** Allocates the lowest free aligned run of the request's size, rounded up to a
        power of two blocks, and returns its byte offset, or -1 when there is none. */
    method Alloc(bytesRequested: nat) returns (addr: int)
      requires bytesRequested >= 1
      requires Valid()
      modifies this`live, tree
      ensures Valid()
      ensures var size := NextPow2((bytesRequested + 31) / 32);
        if addr < 0 then
          addr == -1 && live == old(live) && tree[..] == old(tree[..]) && Exhausted(level, live, size)
        else
          Allocated(level, old(live), live, addr, size)
    {
      var size := NextPow2((bytesRequested + (BLOCK_SIZE - 1)) / BLOCK_SIZE);
      if size > Pow2(level) {
        return -1;
      }
      ghost var k: nat :| size == Pow2(k);
      if k > level { Pow2Monotone(level, k); }
      var index, lev := Search(level - k, size);
      if index < 0 {
        return -1;
      }
      LowestRun(level, live, index, size);
      UseNode(index);
      DepthBounds(index);
      return IndexOffset(index, lev, level) * BLOCK_SIZE;
    }

    /** Gives back the block of node `n`: coalesces it with unused buddies, then makes the
        full nodes above split. */
    method Combine(n: nat)
      requires Valid() && n in live && Reach(live, n)
      modifies this`live, tree
      ensures Valid() && live == old(live) - {n}
    {
      ghost var before := tree[..];
      var index: int := n;
      CombineStart(before, level, live, n);
      while true
        invariant index >= 0 && live == old(live) && tree[..] == before
        invariant Combining(before, level, live, n, index)
        decreases index
      {
        UnderDepth(index, n);
        InTree(index, level);
        var buddy: int := index - 1 + (index % 2) * 2;
        if index > 0 {
          BuddyFacts(index);
          InTree(Buddy(index), level);
        }
        if buddy < 0 || tree[buddy] != Unused {
          CombineStop(before, level, live, n, index);
          tree[index] := Unused;
          live := live - {n};
          assert tree[..] == before[index := Unused];
          Unmark(index);
          return;
        }
        CombineUp(before, level, live, n, index);
        index := (index + 1) / 2 - 1;
      }
    }

    /** Makes the full nodes above `start` split, up to the first one that is not full. */
    method Unmark(start: nat)
      requires Antichain(level, live) && Unmarking(tree[..], level, live, start)
      modifies tree
      ensures Valid()
    {
      InTree(start, level);
      ghost var last: nat := start;
      var index: int := (start + 1) / 2 - 1;
      while index >= 0 && tree[index] == Full
        invariant index == (last + 1) / 2 - 1 && index < tree.Length
        invariant Unmarking(tree[..], level, live, last)
        decreases index
      {
        ghost var before := tree[..];
        UnmarkParent(before, level, live, last);
        tree[index] := Split;
        assert tree[..] == before[index := Split];
        last := index;
        index := (index + 1) / 2 - 1;
      }
      UnmarkingDone(tree[..], level, live, last);
    }

    /** Frees the block at a byte offset.  False stands for a failed assertion: no live
        block starts at that offset. */
    method Free(byteOffset: nat) returns (ok: bool)
      requires Valid()
      modifies this`live, tree
      ensures Valid()
      ensures ok <==> exists n :: n in old(live) && Lo(level, n) == byteOffset / 32
      ensures ok ==> forall n :: n in old(live) && Lo(level, n) == byteOffset / 32 ==> live == old(live) - {n}
      ensures !ok ==> live == old(live) && tree[..] == old(tree[..])
    {
      var offset := byteOffset / BLOCK_SIZE;
      var index, atStart := Find(offset);
      if !atStart {
        return false;
      }
      StartIsUnique(level, live, index, offset);
      Combine(index);
      return true;
    }

    /** The number of bytes in the block that starts at block number `offset`. */
    method Size(offset: nat) returns (ok: bool, bytes: nat)
      requires Valid()
      ensures ok <==> exists n :: n in live && Lo(level, n) == offset
      ensures ok ==> forall n :: n in live && Lo(level, n) == offset ==> bytes == Len(level, n) * 32
    {
      var index, atStart := Find(offset);
      if !atStart {
        return false, 0;
      }
      StartIsUnique(level, live, index, offset);
      return true, Len(level, index) * BLOCK_SIZE;
    }

    /** The descent shared by Free and Size: the live node whose run holds block `offset`
        of the heap, and whether the run starts there. */
    method Find(offset: nat) returns (index: nat, atStart: bool)
      requires Valid()
      ensures atStart ==> index in live && Reach(live, index) && Lo(level, index) == offset
      ensures !atStart ==> forall n :: n in live ==> Lo(level, n) != offset
    {
      index := 0;
      if offset >= Pow2(level) {
        NoneBeyond(level, live, offset);
        return 0, false;
      }
      var left := 0;
      var length := Pow2(level);
      ShlAdd(0, 0, level);
      InTree(0, level);
      while true
        invariant Finding(tree[..], level, live, index, left, length, offset)
        decreases level - Depth(index)
      {
        if tree[index] == Used || tree[index] == Unused {
          FindStops(tree[..], level, live, index, left, length, offset);
          return index, tree[index] == Used && offset == left;
        }
        FindDown(tree[..], level, live, index, left, length, offset);
        length := length / 2;
        if offset < left + length {
          index := index * 2 + 1;
        } else {
          left := left + length;
          index := index * 2 + 2;
        }
      }
    }
  }

  /** The descent to block `off` is at the reachable node `i`, whose run holds it. */
  ghost predicate Finding(tree: seq<NodeState>, top: nat, live: set<nat>, i: nat, left: nat, length: nat, off: nat) {
    && Rep(tree, top, live) && Antichain(top, live)
    && i < |tree| && Depth(i) <= top && Reach(live, i)
    && left == Lo(top, i) && length == Len(top, i)
    && left <= off < left + length
  }

  lemma {:induction false} FindDown(tree: seq<NodeState>, top: nat, live: set<nat>, i: nat, left: nat, length: nat, off: nat)
    requires Finding(tree, top, live, i, left, length, off) && tree[i] in {Split, Full}
    ensures Depth(i) < Depth(2 * i + 1) == Depth(2 * i + 2) <= top
    ensures off < left + length / 2 ==> Finding(tree, top, live, 2 * i + 1, left, length / 2, off)
    ensures off >= left + length / 2 ==> Finding(tree, top, live, 2 * i + 2, left + length / 2, length / 2, off)
  {
    SplitReach(tree, top, live, i);
    RunHalves(top, i);
    InTree(2 * i + 1, top);
    InTree(2 * i + 2, top);
  }

  lemma {:induction false} FindStops(tree: seq<NodeState>, top: nat, live: set<nat>, i: nat, left: nat, length: nat, off: nat)
    requires Finding(tree, top, live, i, left, length, off) && tree[i] in {Used, Unused}
    ensures tree[i] == Used <==> i in live
    ensures tree[i] != Used || off != left ==> forall n :: n in live ==> Lo(top, n) != off
  {
    if tree[i] != Used || off != left {
      OffsetInside(top, live, i, off);
    }
  }

  lemma {:induction false} NoneBeyond(top: nat, live: set<nat>, off: nat)
    requires Antichain(top, live) && off >= Pow2(top)
    ensures forall n :: n in live ==> Lo(top, n) != off
  {
    forall n | n in live
      ensures Lo(top, n) != off
    {
      NodeRunInside(top, n);
    }
  }

  /** Live blocks start at different offsets. */
  lemma {:induction false} StartIsUnique(top: nat, live: set<nat>, n: nat, off: nat)
    requires Antichain(top, live) && n in live && Lo(top, n) == off
    ensures forall m :: m in live && Lo(top, m) == off ==> m == n
  {
    forall m | m in live && Lo(top, m) == off
      ensures m == n
    {
      if m != n {
        RunsDisjoint(top, m, n);
      }
    }
  }

  /** No live block starts at an offset in the run of a reachable node that is unused, or
      that is live and starts elsewhere. */
  lemma {:induction false} OffsetInside(top: nat, live: set<nat>, i: nat, off: nat)
    requires Antichain(top, live) && Reach(live, i) && Depth(i) <= top
    requires Lo(top, i) <= off < Lo(top, i) + Len(top, i)
    requires !Occupied(live, i) || (i in live && off != Lo(top, i))
    ensures forall n :: n in live ==> Lo(top, n) != off
  {
    forall n | n in live
      ensures Lo(top, n) != off
    {
      if Under(n, i) {
        if n != i { ReachAncestor(live, n, i); }
        assert Under(i, i);
      } else if !Under(i, n) {
        RunsDisjoint(top, i, n);
      }
    }
  }

  // ---- What callers rely on -------------------------------------------------

  /** Live blocks are inside the heap, aligned to their power-of-two size, and disjoint. */
  lemma {:induction false} LiveBlocksSafe(top: nat, live: set<nat>, a: nat, b: nat)
    requires Antichain(top, live) && a in live && b in live
    ensures Lo(top, a) % Len(top, a) == 0 && Lo(top, a) + Len(top, a) <= Pow2(top)
    ensures a != b ==> Lo(top, a) + Len(top, a) <= Lo(top, b) || Lo(top, b) + Len(top, b) <= Lo(top, a)
  {
    NodeRunInside(top, a);
    NodeRunAligned(top, a);
    if a != b {
      RunsDisjoint(top, a, b);
    }
  }

  /** The size in blocks of what is given for a request. */
  function GivenBlocks(bytes: nat): nat
    requires bytes >= 1
  {
    NextPow2((bytes + (BLOCK_SIZE - 1)) / BLOCK_SIZE)
  }

  /** A block holds the request and is less than twice the request in blocks. */
  lemma {:induction false} BlockFitsRequest(bytes: nat)
    requires bytes >= 1
    ensures var blocks := (bytes + 31) / 32;
      && bytes <= NextPow2(blocks) * 32
      && NextPow2(blocks) < 2 * blocks
      && (forall k: nat :: Pow2(k) * 32 >= bytes ==> NextPow2(blocks) <= Pow2(k))
  {
    var blocks := (bytes + (BLOCK_SIZE - 1)) / BLOCK_SIZE;
    var r := NextPow2(blocks);
    var e: nat :| r == Pow2(e);
    forall k: nat | Pow2(k) * BLOCK_SIZE >= bytes
      ensures r <= Pow2(k)
    {
      if k < e {
        Pow2Monotone(k, e - 1);
      } else {
        Pow2Monotone(e, k);
      }
    }
  }


  lemma {:induction false} GivenIsLeast(bytes: nat, k: nat) returns (j: nat)
    requires bytes >= 1
    ensures GivenBlocks(bytes) == Pow2(j) && Pow2(j) * BLOCK_SIZE >= bytes
    ensures Pow2(k) * BLOCK_SIZE >= bytes ==> Pow2(j) <= Pow2(k)
  {
    BlockFitsRequest(bytes);
    j :| GivenBlocks(bytes) == Pow2(j);
  }

  lemma {:induction false} PowerAbove(i: nat, k: nat)
    requires Pow2(i) > Pow2(k)
    ensures Pow2(i) >= Pow2(k + 1) == 2 * Pow2(k)
  {
    if i <= k {
      Pow2Monotone(i, k);
    } else {
      Pow2Monotone(k + 1, i);
    }
  }

  /** Asking for one byte more than `bytes` costs nothing, except that it doubles the block if
      they fill one exactly. */
  lemma {:induction false} OneByteMore(bytes: nat)
    requires bytes >= 1
    ensures GivenBlocks(bytes + 1) ==
            if exists k: nat :: Pow2(k) * BLOCK_SIZE == bytes then 2 * GivenBlocks(bytes) else GivenBlocks(bytes)
  {
    if k: nat :| Pow2(k) * BLOCK_SIZE == bytes {
      var j := GivenIsLeast(bytes, k);
      var i := GivenIsLeast(bytes + 1, k + 1);
      PowerAbove(i, k);
    } else {
      var j := GivenIsLeast(bytes, 0);
      assert Pow2(j) * BLOCK_SIZE != bytes;
      var i := GivenIsLeast(bytes + 1, j);
      var m := GivenIsLeast(bytes, i);
    }
  }

  /** The reachable tree is a function of the live blocks, whatever happened before. */
  lemma {:induction false} TreeDeterminedByLive(t1: seq<NodeState>, t2: seq<NodeState>, top: nat, live: set<nat>, j: nat)
    requires Rep(t1, top, live) && Rep(t2, top, live) && j < |t1| && Reach(live, j)
    ensures t1[j] == t2[j]
  {}

  /** A full subtree has no free node, and a split node has a child in use. */
  lemma {:induction false} FullAndSplitNodes(tree: seq<NodeState>, top: nat, live: set<nat>, j: nat)
    requires Rep(tree, top, live) && Antichain(top, live) && j < |tree| && Reach(live, j)
    ensures tree[j] == Full ==> forall t :: Under(j, t) && Depth(t) <= top ==> !Free(live, t)
    ensures tree[j] in {Split, Full} ==>
      2 * j + 2 < |tree| && !(tree[2 * j + 1] == Unused && tree[2 * j + 2] == Unused)
    ensures tree[j] == Split ==>
      2 * j + 2 < |tree| && !(tree[2 * j + 1] in {Used, Full} && tree[2 * j + 2] in {Used, Full})
  {
    if tree[j] in {Split, Full} {
      SplitReach(tree, top, live, j);
      ChildUnder(j);
      InTree(2 * j + 2, top);
      var b :| b in live && Under(j, b);
      UnderChild(j, b);
      assert Under(j, j);
      var l, r, h := 2 * j + 1, 2 * j + 2, top - Depth(j);
      assert Occupied(live, l) || Occupied(live, r);
      assert tree[l] == State(live, l, h - 1) && tree[r] == State(live, r, h - 1);
      assert Covered(live, l, h - 1) && Covered(live, r, h - 1) ==> Covered(live, j, h);
      forall t | tree[j] == Full && Under(j, t) && Depth(t) <= top
        ensures !Free(live, t)
      {
        CoveredNotFree(live, j, top - Depth(j), t);
      }
    }
  }

  /** With no live block left the root alone is reachable, and it is unused. */
  lemma {:induction false} EmptyHeap(tree: seq<NodeState>, top: nat)
    requires Rep(tree, top, {})
    ensures tree[0] == Unused
    ensures forall j: nat :: Reach({}, j) ==> j == 0
  {
    assert Reach({}, 0);
    InTree(0, top);
    forall j: nat | Reach({}, j)
      ensures j == 0
    {
    }
  }

  /** Freeing right after allocating restores every reachable byte. */
  method AllocThenFree(heap: Heap, bytes: nat)
    requires bytes >= 1 && heap.Valid()
    modifies heap`live, heap.tree
    ensures heap.Valid() && heap.live == old(heap.live)
    ensures forall j: nat :: j < heap.tree.Length && Reach(heap.live, j) ==> heap.tree[j] == old(heap.tree[j])
  {
    ghost var before := heap.tree[..];
    var addr := heap.Alloc(bytes);
    if addr >= 0 {
      var ok := heap.Free(addr);
    }
    forall j: nat | j < heap.tree.Length && Reach(heap.live, j)
      ensures heap.tree[j] == before[j]
    {
      TreeDeterminedByLive(heap.tree[..], before, heap.level, heap.live, j);
    }
  }

  /** A block that is freed is given again to the next request of the same size, if nothing
      else has happened. */
  method AllocFreeAlloc(heap: Heap, bytes: nat) returns (first: int, second: int)
    requires bytes >= 1 && heap.Valid()
    modifies heap`live, heap.tree
    ensures heap.Valid() && first == second
  {
    ghost var live, size := heap.live, GivenBlocks(bytes);
    first := heap.Alloc(bytes);
    if first < 0 {
      second := first;
      return;
    }
    var ok := heap.Free(first);
    ghost var n: nat :| Depth(n) <= heap.level && Lo(heap.level, n) * BLOCK_SIZE == first && AlignedFree(heap.level, live, Lo(heap.level, n), size)
      && forall off: nat :: off < Lo(heap.level, n) ==> !AlignedFree(heap.level, live, off, size);
    second := heap.Alloc(bytes);
  }

  /** Freeing all live blocks, in any order, leaves a single unused root. */
  method FreeAll(heap: Heap, addrs: seq<nat>)
    requires heap.Valid()
    requires forall n :: n in heap.live ==> exists k :: 0 <= k < |addrs| && Lo(heap.level, n) * BLOCK_SIZE == addrs[k]
    modifies heap`live, heap.tree
    ensures heap.Valid() && heap.live == {} && heap.tree[0] == Unused
  {
    for k := 0 to |addrs|
      invariant heap.Valid() && heap.live <= old(heap.live)
      invariant forall n :: n in heap.live ==> exists m :: k <= m < |addrs| && Lo(heap.level, n) * BLOCK_SIZE == addrs[m]
    {
      ghost var was := heap.live;
      var ok := heap.Free(addrs[k]);
      forall n | n in heap.live
        ensures exists m :: k + 1 <= m < |addrs| && Lo(heap.level, n) * BLOCK_SIZE == addrs[m]
      {
        assert n in was;
        var m :| k <= m < |addrs| && Lo(heap.level, n) * BLOCK_SIZE == addrs[m];
      }
    }
    assert heap.live == {};
    EmptyHeap(heap.tree[..], heap.level);
  }
}
