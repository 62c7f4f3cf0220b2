/** What the loops of the allocator keep while the tree is between two states:
    preparing a free node, marking its ancestors full, and coalescing buddies. */
module BuddyMarking {
  import opened BuddyTree

  /** Node `n` is free, is reachable, and only the bytes on the way to it differ
      from those `live` requires: they are ready for `n` to become live. */
  ghost predicate Prepared(tree: seq<NodeState>, top: nat, live: set<nat>, n: nat) {
    && |tree| == Pow2(top + 1) - 1
    && Depth(n) <= top
    && Free(live, n)
    && forall j: nat {:trigger Reach(live + {n}, j)} :: j < |tree| && Reach(live + {n}, j) ==>
         Depth(j) <= top &&
         tree[j] == if j == n then Unused else if Under(j, n) then Split else State(live, j, top - Depth(j))
  }

  /** All bytes are those `live` requires, but proper ancestors of `i` may be
      covered and still marked split. */
  ghost predicate Marking(tree: seq<NodeState>, top: nat, live: set<nat>, i: nat) {
    && |tree| == Pow2(top + 1) - 1
    && Depth(i) <= top
    && Reach(live, i)
    && Covered(live, i, top - Depth(i))
    && forall j: nat {:trigger Reach(live, j)} :: j < |tree| && Reach(live, j) ==>
         Depth(j) <= top &&
         tree[j] == if j != i && Under(j, i) then Split else State(live, j, top - Depth(j))
  }

  /** All bytes are those `live` requires, but proper ancestors of `i`, none of which
      is covered, may still be marked full: those from `i` up to the first split one. */
  ghost predicate Unmarking(tree: seq<NodeState>, top: nat, live: set<nat>, i: nat) {
    && |tree| == Pow2(top + 1) - 1
    && Depth(i) <= top
    && Reach(live, i)
    && RightElsewhere(tree, top, live, i)
    && UncoveredAncestors(tree, top, live, i)
    && SplitsOnTop(tree, i)
  }

  ghost predicate RightElsewhere(tree: seq<NodeState>, top: nat, live: set<nat>, i: nat) {
    forall j: nat {:trigger Reach(live, j)} :: j < |tree| && Reach(live, j) && !(j != i && Under(j, i)) ==>
      Depth(j) <= top && tree[j] == State(live, j, top - Depth(j))
  }

  ghost predicate UncoveredAncestors(tree: seq<NodeState>, top: nat, live: set<nat>, i: nat) {
    forall a: nat {:trigger Under(a, i)} :: a != i && Under(a, i) ==>
      a < |tree| && Depth(a) <= top && tree[a] in {Split, Full} && !Covered(live, a, top - Depth(a))
  }

  ghost predicate SplitsOnTop(tree: seq<NodeState>, i: nat) {
    forall a: nat, c: nat {:trigger Under(a, c), Under(c, i)} ::
      c != i && Under(c, i) && Under(a, c) && a < |tree| && c < |tree| && tree[c] == Split ==> tree[a] == Split
  }

  lemma {:induction false} UnusedIsPrepared(tree: seq<NodeState>, top: nat, live: set<nat>, n: nat)
    requires Rep(tree, top, live) && n < |tree| && Reach(live, n) && tree[n] == Unused
    ensures Prepared(tree, top, live, n)
  {
    assert Under(n, n);
    forall a | a in live
      ensures !Under(a, n)
    {
      if Under(a, n) {
        ReachAncestor(live, a, n);
      }
    }
    assert Free(live, n);
    forall j: nat | j < |tree| && Reach(live + {n}, j)
      ensures Depth(j) <= top
      ensures tree[j] == if j == n then Unused else if Under(j, n) then Split else State(live, j, top - Depth(j))
    {
      InTree(j, top);
      if Under(j, n) {
        ReachAncestor(live, j, n);
        if j != n && Covered(live, j, top - Depth(j)) {
          InTree(n, top);
          CoveredNotFree(live, j, top - Depth(j), n);
        }
      } else {
        forall a | Under(a, n) && a != n
          ensures Occupied(live, a)
        {
          ReachAncestor(live, a, n);
        }
        ReachGrows(live, n, j);
      }
    }
  }

  /** Making the free node `n` live makes no unrelated node reachable. */
  lemma {:induction false} ReachGrows(live: set<nat>, n: nat, j: nat)
    requires Reach(live + {n}, j) && !Under(j, n)
    requires forall a :: Under(a, n) && a != n ==> Occupied(live, a)
    requires !Occupied(live, n)
    ensures Reach(live, j)
    decreases j
  {
    if j > 0 {
      var p := (j - 1) / 2;
      if Under(p, n) {
        assert p != n;
        ReachAbove(live, n, p);
      } else {
        ReachGrows(live, n, p);
        OccupiedFrame(live, n, p);
      }
    }
  }

  lemma {:induction false} ReachAbove(live: set<nat>, n: nat, a: nat)
    requires Reach(live + {n}, a) && Under(a, n)
    requires forall c :: Under(c, n) && c != n ==> Occupied(live, c)
    ensures Reach(live, a)
    decreases a
  {
    if a > 0 {
      var p := (a - 1) / 2;
      assert Under(p, a) by { assert Under(p, p); }
      UnderTrans(p, a, n);
      UnderLe(a, n);
      ReachAbove(live, n, p);
    }
  }

  lemma {:induction false} OccupiedFrame(live: set<nat>, n: nat, i: nat)
    requires !Under(i, n)
    ensures Occupied(live + {n}, i) == Occupied(live, i)
    ensures Occupied(live - {n}, i) == Occupied(live, i)
  {
    if Occupied(live, i) {
      var b :| b in live && Under(i, b);
      assert b in live - {n} && b in live + {n};
    }
  }

  /** Splitting a prepared node prepares its left child. */
  lemma {:induction false} SplitPrepares(tree: seq<NodeState>, top: nat, live: set<nat>, n: nat)
    requires Prepared(tree, top, live, n) && Depth(n) < top
    ensures 2 * n + 2 < |tree|
    ensures Prepared(tree[n := Split][2 * n + 1 := Unused][2 * n + 2 := Unused], top, live, 2 * n + 1)
  {
    var l, r := 2 * n + 1, 2 * n + 2;
    ChildUnder(n);
    InTree(n, top);
    InTree(l, top);
    InTree(r, top);
    FreeBelow(live, n, l);
    FreeBelow(live, n, r);
    assert Under(l, l);
    var tree' := tree[n := Split][l := Unused][r := Unused];
    forall j: nat | j < |tree| && Reach(live + {l}, j)
      ensures Depth(j) <= top
      ensures tree'[j] == if j == l then Unused else if Under(j, l) then Split else State(live, j, top - Depth(j))
    {
      InTree(j, top);
      if j == l || j == r {
        BuddyFacts(l);
        assert Under(j, l) ==> j == l;
      } else if Under(j, l) {
        assert Under(j, n);
        ReachMoves(live, n, l, j);
      } else {
        if Under(n, j) {
          UnderChild(n, j);
          BelowFree(live, l, n, j);
        } else {
          ReachMoves(live, n, l, j);
        }
      }
    }
  }

  lemma {:induction false} FreeBelow(live: set<nat>, n: nat, c: nat)
    requires Free(live, n) && Under(n, c)
    ensures Free(live, c)
  {
    if Occupied(live, c) {
      var b :| b in live && Under(c, b);
      UnderTrans(n, c, b);
    }
    forall a | a in live
      ensures !Under(a, c)
    {
      if Under(a, c) {
        UnderChain(a, n, c);
      }
    }
  }

  /** Nothing strictly below a child of a free node is reachable. */
  lemma {:induction false} BelowFree(live: set<nat>, l: nat, n: nat, j: nat)
    requires Free(live, n) && l == 2 * n + 1 && Under(n, j) && j != n && j != l && j != 2 * n + 2
    ensures !Reach(live + {l}, j)
  {
    UnderChild(n, j);
    ChildUnder(n);
    if Reach(live + {l}, j) {
      if Under(l, j) {
        ReachAncestor(live + {l}, l, j);
      } else {
        var r := 2 * n + 2;
        ReachAncestor(live + {l}, r, j);
        BuddyFacts(l);
        OccupiedFrame(live, l, r);
        FreeBelow(live, n, r);
      }
    }
  }

  /** Nodes not below `n` are reachable with a child of `n` live exactly as with `n` live. */
  lemma {:induction false} ReachMoves(live: set<nat>, n: nat, l: nat, j: nat)
    requires Reach(live + {l}, j) && l == 2 * n + 1
    requires Under(j, n) || !Under(n, j)
    ensures Reach(live + {n}, j)
    decreases j
  {
    if j > 0 {
      var p := (j - 1) / 2;
      assert Under(p, j) by { assert Under(p, p); }
      ChildUnder(n);
      if Under(j, n) {
        UnderTrans(p, j, n);
        UnderLe(j, n);
        assert n in live + {n};
      } else {
        if Under(n, p) { UnderTrans(n, p, j); }
        assert p != n by { assert Under(n, n); }
        var b :| b in live + {l} && Under(p, b);
        if b == l {
          UnderChild(p, l);
          assert Under(p, n);
          assert n in live + {n};
        } else {
          assert b in live + {n};
        }
      }
      ReachMoves(live, n, l, p);
    }
  }

  /** Marking a prepared node used leaves only its ancestors to be marked. */
  lemma {:induction false} UseStartsMarking(tree: seq<NodeState>, top: nat, live: set<nat>, n: nat)
    requires Prepared(tree, top, live, n) && Antichain(top, live)
    ensures n < |tree| && n !in live
    ensures Marking(tree[n := Used], top, live + {n}, n)
    ensures Antichain(top, live + {n})
  {
    InTree(n, top);
    assert Under(n, n);
    ReachSelf(live, n, n);
    forall j: nat | j < |tree| && Reach(live + {n}, j)
      ensures tree[n := Used][j] == if j != n && Under(j, n) then Split else State(live + {n}, j, top - Depth(j))
    {
      if !Under(j, n) {
        InTree(j, top);
        StateFrame(live, n, j, top - Depth(j));
      }
    }
  }

  /** Every ancestor of a free node `n` is reachable once `n` is live. */
  lemma {:induction false} ReachSelf(live: set<nat>, n: nat, a: nat)
    requires Free(live, n) && Under(a, n)
    ensures Reach(live + {n}, a)
    decreases a
  {
    if a > 0 {
      var p := (a - 1) / 2;
      assert Under(p, a) by { assert Under(p, p); }
      UnderTrans(p, a, n);
      UnderLe(a, n);
      ReachSelf(live, n, p);
      assert n in live + {n} && Under(p, n);
      if p in live { assert false; }
    }
  }

  /** The marking loop goes on: both buddies are covered, so their parent is full. */
  lemma {:induction false} MarkParentFull(tree: seq<NodeState>, top: nat, live: set<nat>, i: nat)
    requires Marking(tree, top, live, i)
    requires i > 0 && Buddy(i) < |tree| && tree[Buddy(i)] in {Used, Full}
    ensures (i - 1) / 2 < |tree|
    ensures Marking(tree[(i - 1) / 2 := Full], top, live, (i - 1) / 2)
  {
    var p := (i - 1) / 2;
    ReachBuddy(live, i);
    BuddyFacts(i);
    assert Covered(live, Buddy(i), top - Depth(Buddy(i)));
    ParentCovered(live, top, i);
    var tree' := tree[p := Full];
    forall j: nat | j < |tree| && Reach(live, j)
      ensures Depth(j) <= top
      ensures tree'[j] == if j != p && Under(j, p) then Split else State(live, j, top - Depth(j))
    {
      OnlyParentBetween(i, j);
    }
  }

  /** The proper ancestors of `i` are its parent and the proper ancestors of its parent. */
  lemma {:induction false} OnlyParentBetween(i: nat, j: nat)
    requires i > 0
    ensures j != i && Under(j, i) <==> Under(j, (i - 1) / 2)
  {
    if Under(j, (i - 1) / 2) {
      UnderLe(j, (i - 1) / 2);
    }
  }

  lemma {:induction false} ParentCovered(live: set<nat>, top: nat, i: nat)
    requires i > 0 && Depth(i) <= top && Reach(live, i)
    requires Covered(live, i, top - Depth(i)) && Covered(live, Buddy(i), top - Depth(i))
    ensures var p := (i - 1) / 2;
      p < i && Depth(p) <= top && (p < Pow2(top + 1) - 1) && Reach(live, p) && Covered(live, p, top - Depth(p)) &&
      State(live, p, top - Depth(p)) == Full
  {
    var p := (i - 1) / 2;
    ChildUnder(p);
    BuddyFacts(i);
    assert {i, Buddy(i)} == {2 * p + 1, 2 * p + 2};
    ReachAncestor(live, p, i);
    InTree(p, top);
  }

  /** The marking loop may stop: no ancestor is covered when the buddy is not. */
  lemma {:induction false} MarkingDone(tree: seq<NodeState>, top: nat, live: set<nat>, i: nat)
    requires Marking(tree, top, live, i)
    requires i > 0 ==> Buddy(i) < |tree| && tree[Buddy(i)] !in {Used, Full}
    ensures Rep(tree, top, live)
  {
    if i > 0 {
      BuddyFacts(i);
      ReachBuddy(live, i);
      var b := Buddy(i);
      assert !Covered(live, b, top - Depth(b)) by {
        if Covered(live, b, top - Depth(b)) {
          CoveredOccupied(live, b, top - Depth(b));
        }
      }
    }
    forall j: nat | j < |tree| && Reach(live, j)
      ensures Depth(j) <= top && tree[j] == State(live, j, top - Depth(j))
    {
      if j != i && Under(j, i) {
        ReachAncestor(live, j, i);
        AboveUncovered(live, top, j, i);
      }
    }
  }

  /** An uncovered child leaves its parent, and all nodes above, uncovered. */
  lemma {:induction false} AboveUncovered(live: set<nat>, top: nat, a: nat, i: nat)
    requires Reach(live, i) && Depth(i) <= top && i > 0
    requires a != i && Under(a, i)
    requires !Covered(live, Buddy(i), top - Depth(Buddy(i))) || !Covered(live, i, top - Depth(i))
    ensures Depth(a) <= top && !Covered(live, a, top - Depth(a))
  {
    var p := (i - 1) / 2;
    BuddyFacts(i);
    UnderDepth(a, i);
    ChildUnder(p);
    assert {i, Buddy(i)} == {2 * p + 1, 2 * p + 2};
    ReachAncestor(live, p, i);
    assert !Covered(live, p, top - Depth(p));
    forall x | Under(a, x) && Under(x, p) && x != p
      ensures x !in live
    {
      UnderTrans(x, p, i);
      UnderLe(x, p);
      ReachAncestor(live, x, i);
    }
    UncoveredAbove(live, top, a, p);
  }

  /** A node in the middle of coalescing: its whole subtree is free without `n`. */
  ghost predicate Combining(tree: seq<NodeState>, top: nat, live: set<nat>, n: nat, i: nat) {
    && Rep(tree, top, live)
    && Antichain(top, live)
    && n in live && Reach(live, n)
    && Under(i, n)
    && !Occupied(live - {n}, i)
  }

  lemma {:induction false} CombineStart(tree: seq<NodeState>, top: nat, live: set<nat>, n: nat)
    requires Rep(tree, top, live) && Antichain(top, live) && n in live && Reach(live, n)
    ensures Combining(tree, top, live, n, n)
  {}

  lemma {:induction false} CombineUp(tree: seq<NodeState>, top: nat, live: set<nat>, n: nat, i: nat)
    requires Combining(tree, top, live, n, i) && i > 0
    requires Buddy(i) < |tree| && tree[Buddy(i)] == Unused
    ensures Combining(tree, top, live, n, (i - 1) / 2)
  {
    var p := (i - 1) / 2;
    BuddyFacts(i);
    ReachAncestor(live, i, n);
    ReachBuddy(live, i);
    ReachAncestor(live, p, i);
    UnderTrans(p, i, n);
    ParentUnoccupied(live, n, i);
  }

  lemma {:induction false} ParentUnoccupied(live: set<nat>, n: nat, i: nat)
    requires i > 0 && !Occupied(live - {n}, i) && !Occupied(live, Buddy(i)) && (i - 1) / 2 !in live
    ensures !Occupied(live - {n}, (i - 1) / 2)
  {
    var p, b := (i - 1) / 2, Buddy(i);
    assert {i, b} == {2 * p + 1, 2 * p + 2};
    if Occupied(live - {n}, p) {
      var c :| c in live - {n} && Under(p, c);
      UnderChild(p, c);
    }
  }

  /** Freeing the coalesced node leaves only its full ancestors to be unmarked. */
  lemma {:induction false} CombineStop(tree: seq<NodeState>, top: nat, live: set<nat>, n: nat, i: nat)
    requires Combining(tree, top, live, n, i)
    requires i > 0 ==> Buddy(i) < |tree| && tree[Buddy(i)] != Unused
    ensures i < |tree|
    ensures Unmarking(tree[i := Unused], top, live - {n}, i)
  {
    UnderDepth(i, n);
    InTree(i, top);
    ReachAncestor(live, i, n);
    CombineStopReach(tree, top, live, n, i);
    assert RightElsewhere(tree[i := Unused], top, live - {n}, i) by {
      forall j: nat | j < |tree| && Reach(live - {n}, j) && !(j != i && Under(j, i))
        ensures Depth(j) <= top && tree[i := Unused][j] == State(live - {n}, j, top - Depth(j))
      {
        CombineKeeps(tree, top, live, n, i, j);
      }
    }
    assert UncoveredAncestors(tree[i := Unused], top, live - {n}, i) by {
      forall a: nat | a != i && Under(a, i)
        ensures a < |tree| && Depth(a) <= top && tree[i := Unused][a] in {Split, Full}
        ensures !Covered(live - {n}, a, top - Depth(a))
      {
        CombineAbove(tree, top, live, n, i, a);
      }
    }
    assert SplitsOnTop(tree[i := Unused], i) by {
      forall a: nat, c: nat | c != i && Under(c, i) && Under(a, c) && a < |tree| && c < |tree| && tree[i := Unused][c] == Split
        ensures tree[i := Unused][a] == Split
      {
        UnderLe(c, i);
        UnderLe(a, c);
        SplitAbove(tree, top, live, i, a, c);
      }
    }
  }

  lemma {:induction false} CombineStopReach(tree: seq<NodeState>, top: nat, live: set<nat>, n: nat, i: nat)
    requires Combining(tree, top, live, n, i) && Reach(live, i)
    requires i > 0 ==> Buddy(i) < |tree| && tree[Buddy(i)] != Unused
    ensures Reach(live - {n}, i)
  {
    if i > 0 {
      BuddyFacts(i);
      ReachBuddy(live, i);
      assert Occupied(live, Buddy(i));
      if Under(Buddy(i), n) { UnderChain(i, Buddy(i), n); }
      OccupiedFrame(live, n, Buddy(i));
    }
    CombineReach(live, n, i, i);
  }

  lemma {:induction false} CombineKeeps(tree: seq<NodeState>, top: nat, live: set<nat>, n: nat, i: nat, j: nat)
    requires Combining(tree, top, live, n, i) && i < |tree|
    requires j < |tree| && Reach(live - {n}, j) && !(j != i && Under(j, i))
    ensures Depth(j) <= top && tree[i := Unused][j] == State(live - {n}, j, top - Depth(j))
  {
    if j == i {
      InTree(i, top);
      FreedIsUnused(live, n, i, top - Depth(i));
    } else {
      InTree(j, top);
      if Under(i, j) { ReachAncestor(live - {n}, i, j); }
      CombineElsewhere(live, n, i, j, top - Depth(j));
    }
  }

  lemma {:induction false} FreedIsUnused(live: set<nat>, n: nat, i: nat, h: nat)
    requires !Occupied(live - {n}, i)
    ensures State(live - {n}, i, h) == Unused
  {
    assert Under(i, i);
  }

  lemma {:induction false} CombineElsewhere(live: set<nat>, n: nat, i: nat, j: nat, h: nat)
    requires Reach(live - {n}, j) && Under(i, n) && !Under(i, j) && !Under(j, i)
    ensures Reach(live, j) && State(live - {n}, j, h) == State(live, j, h)
  {
    if Under(j, n) { UnderChain(i, j, n); }
    ReachShrinks(live, n, i, j);
    StateFrame(live, n, j, h);
  }

  lemma {:induction false} CombineAbove(tree: seq<NodeState>, top: nat, live: set<nat>, n: nat, i: nat, a: nat)
    requires Combining(tree, top, live, n, i) && Reach(live - {n}, i) && i < |tree|
    requires a != i && Under(a, i)
    ensures a < i && Depth(a) <= top && tree[a] in {Split, Full}
    ensures !Covered(live - {n}, a, top - Depth(a))
  {
    UnderLe(a, i);
    UnderDepth(i, n);
    ReachAncestor(live, i, n);
    ReachAncestor(live, a, i);
    if Covered(live - {n}, i, top - Depth(i)) {
      CoveredOccupied(live - {n}, i, top - Depth(i));
    }
    AboveUncovered(live - {n}, top, a, i);
  }

  /** The ancestors of a split node are split. */
  lemma {:induction false} SplitAbove(tree: seq<NodeState>, top: nat, live: set<nat>, i: nat, a: nat, c: nat)
    requires Rep(tree, top, live) && Reach(live, i) && i < |tree|
    requires c != i && Under(c, i) && Under(a, c) && c < i && tree[c] == Split
    ensures a < |tree| && tree[a] == Split
  {
    UnderTrans(a, c, i);
    UnderLe(a, c);
    UnderDepth(a, c);
    ReachAncestor(live, c, i);
    ReachAncestor(live, a, i);
    forall x | Under(a, x) && Under(x, c) && x != c
      ensures x !in live
    {
      ReachAncestor(live, x, c);
    }
    UncoveredAbove(live, top, a, c);
  }

  /** When coalescing stops at `i`, its ancestors stay occupied. */
  lemma {:induction false} CombineReach(live: set<nat>, n: nat, i: nat, a: nat)
    requires Reach(live, i) && Under(a, i)
    requires i > 0 ==> Occupied(live - {n}, Buddy(i))
    ensures Reach(live - {n}, a)
    decreases a
  {
    if a > 0 {
      var p := (a - 1) / 2;
      assert Under(p, a) by { assert Under(p, p); }
      UnderTrans(p, a, i);
      UnderLe(a, i);
      CombineReach(live, n, i, p);
      ReachAncestor(live, p, i);
      BuddyFacts(i);
      var c :| c in live - {n} && Under(Buddy(i), c);
      assert Under(p, (i - 1) / 2);
      UnderTrans(p, (i - 1) / 2, Buddy(i));
      UnderTrans(p, Buddy(i), c);
    }
  }

  lemma {:induction false} BelowParent(i: nat, j: nat)
    requires j > 0
    ensures Under(i, (j - 1) / 2) ==> Under(i, j)
  {
    if Under(i, (j - 1) / 2) { UnderLe(i, (j - 1) / 2); }
  }

  lemma {:induction false} ReachShrinks(live: set<nat>, n: nat, i: nat, j: nat)
    requires Reach(live - {n}, j) && Under(i, n) && !Under(i, j)
    ensures Reach(live, j)
    decreases j
  {
    if j > 0 {
      var p := (j - 1) / 2;
      assert Under(p, j) by { assert Under(p, p); }
      BelowParent(i, j);
      ReachShrinks(live, n, i, p);
      assert p != n;
      var b :| b in live - {n} && Under(p, b);
      assert b in live;
    }
  }

  /** The unmarking loop goes on: a full ancestor becomes split. */
  lemma {:induction false} UnmarkParent(tree: seq<NodeState>, top: nat, live: set<nat>, i: nat)
    requires Unmarking(tree, top, live, i) && i > 0
    ensures (i - 1) / 2 < |tree|
    ensures Unmarking(tree[(i - 1) / 2 := Split], top, live, (i - 1) / 2)
  {
    var p := (i - 1) / 2;
    assert Under(p, i) by { assert Under(p, p); }
    assert p != i;
    var tree' := tree[p := Split];
    UnderDepth(p, i);
    InTree(p, top);
    ReachAncestor(live, p, i);
    assert RightElsewhere(tree', top, live, p) by {
      forall j: nat | j < |tree'| && Reach(live, j) && !(j != p && Under(j, p))
        ensures Depth(j) <= top && tree'[j] == State(live, j, top - Depth(j))
      {
        OnlyParentBetween(i, j);
      }
    }
    assert UncoveredAncestors(tree', top, live, p) by {
      forall a: nat | a != p && Under(a, p)
        ensures a < |tree'| && Depth(a) <= top && tree'[a] in {Split, Full} && !Covered(live, a, top - Depth(a))
      {
        OnlyParentBetween(i, a);
      }
    }
    assert SplitsOnTop(tree', p) by {
      forall a: nat, c: nat | c != p && Under(c, p) && Under(a, c) && a < |tree'| && c < |tree'| && tree'[c] == Split
        ensures tree'[a] == Split
      {
        OnlyParentBetween(i, c);
        UnderLe(a, c);
        UnderLe(c, p);
      }
    }
  }

  /** The unmarking loop may stop at the root or at a split ancestor. */
  lemma {:induction false} UnmarkingDone(tree: seq<NodeState>, top: nat, live: set<nat>, i: nat)
    requires Unmarking(tree, top, live, i)
    requires i > 0 ==> (i - 1) / 2 < |tree| && tree[(i - 1) / 2] != Full
    ensures Rep(tree, top, live)
  {
    forall j: nat | j < |tree| && Reach(live, j)
      ensures Depth(j) <= top && tree[j] == State(live, j, top - Depth(j))
    {
      if j != i && Under(j, i) {
        var p := (i - 1) / 2;
        assert Under(p, i) by { assert Under(p, p); }
        UnderDepth(j, i);
        assert Under(j, p);
        assert p != i;
        ReachAncestor(live, j, i);
      }
    }
  }
}
