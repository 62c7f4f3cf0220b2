/** Why the elements of a transaction must be distinct and in one global order. */
module TxnOrder {
  import opened Tags
  import opened Transactions

  // ---- Runs ---------------------------------------------------------------------------

  ghost predicate Reaches(s0: State, s: State) {
    exists sched: seq<(nat, nat)> :: Schedule(|s0.ts|, sched) && Exec(s0, sched) == s
  }

  lemma {:induction false} ReachesNext(s0: State, s: State, t: nat, stale: nat)
    requires Reaches(s0, s) && t < |s0.ts| == |s.ts|
    ensures Reaches(s0, Step(s, t, stale))
  {
    var sched: seq<(nat, nat)> :| Schedule(|s0.ts|, sched) && Exec(s0, sched) == s;
    var longer := sched + [(t, stale)];
    assert longer[..|sched|] == sched;
    assert Schedule(|s0.ts|, longer) && Exec(s0, longer) == Step(s, t, stale);
  }

  // ---- A transaction alone ----------------------------------------------------------------

  /** How often element `e` occurs among the first `k` locks. */
  function Occurs(locks: seq<Lock>, k: nat, e: nat): nat
    requires k <= |locks|
  {
    if k <= 0 then 0 else Occurs(locks, k - 1, e) + if locks[k - 1].elem == e then 1 else 0
  }

  /** No element occurs more than once with a write among its entries, and none is read-locked
      more often than the count of readers can go. */
  ghost predicate FitsAlone(locks: seq<Lock>) {
    && (forall i, j :: 0 <= i < j < |locks| && locks[i].elem == locks[j].elem ==> locks[i].ro && locks[j].ro)
    && (forall e: nat :: Occurs(locks, |locks|, e) <= 7)
  }

  /** Lock number `i` can be taken when the ones before it have been. */
  ghost predicate ReadyAt(locks: seq<Lock>, i: nat)
    requires i < |locks|
  {
    && (forall j: nat {:trigger locks[j]} :: j < i && locks[j].elem == locks[i].elem ==> locks[j].ro && locks[i].ro)
    && Occurs(locks, i, locks[i].elem) < MAX_READERS
  }

  ghost predicate AllReady(locks: seq<Lock>, k: nat)
    requires k <= |locks|
  {
    forall i: nat {:trigger ReadyAt(locks, i)} :: i < k ==> ReadyAt(locks, i)
  }

  lemma {:induction false} OccursGrows(locks: seq<Lock>, j: nat, k: nat, e: nat)
    requires j <= k <= |locks|
    ensures Occurs(locks, j, e) <= Occurs(locks, k, e)
    decreases k
  {
    if j < k {
      OccursGrows(locks, j, k - 1, e);
    }
  }

  /** An element that occurs does so somewhere. */
  lemma {:induction false} OccursAt(locks: seq<Lock>, k: nat, e: nat)
    requires k <= |locks|
    ensures Occurs(locks, k, e) > 0 <==> exists j: nat :: j < k && locks[j].elem == e
  {
    if k > 0 {
      OccursAt(locks, k - 1, e);
    }
  }

  lemma {:induction false} ReadyOccurs(locks: seq<Lock>, k: nat, e: nat)
    requires k <= |locks| && AllReady(locks, k)
    ensures Occurs(locks, k, e) <= MAX_READERS
  {
    if k > 0 {
      assert ReadyAt(locks, k - 1);
      ReadyOccurs(locks, k - 1, e);
    }
  }

  lemma {:induction false} FitsIsReady(locks: seq<Lock>)
    ensures FitsAlone(locks) <==> AllReady(locks, |locks|)
  {
    if FitsAlone(locks) {
      forall i: nat | i < |locks|
        ensures ReadyAt(locks, i)
      {
        OccursGrows(locks, i + 1, |locks|, locks[i].elem);
      }
    }
    if AllReady(locks, |locks|) {
      forall i, j | 0 <= i < j < |locks| && locks[i].elem == locks[j].elem
        ensures locks[i].ro && locks[j].ro
      {
        assert ReadyAt(locks, j);
      }
      forall e: nat
        ensures Occurs(locks, |locks|, e) <= MAX_READERS
      {
        ReadyOccurs(locks, |locks|, e);
      }
    }
  }

  /** The tag of element `e` once the first `i` locks have been taken. */
  ghost predicate TagIs(locks: seq<Lock>, i: nat, e: nat, tag: Tag)
    requires i <= |locks|
  {
    if Occurs(locks, i, e) == 0 then tag.fe == Full && tag.rw == 0
    else if exists j: nat :: j < i && locks[j] == Lock(e, false) then tag.fe == Empty
    else tag.fe == RwLock && tag.rw == Occurs(locks, i, e)
  }

  ghost predicate TagsAre(locks: seq<Lock>, i: nat, s: State)
    requires i <= |locks|
  {
    forall e: nat {:trigger s.cells[e]} :: e < |s.cells| ==> TagIs(locks, i, e, s.cells[e].tag)
  }

  /** A BUSY tag on the way from the tags before lock `i` to those after it. */
  ghost predicate HeldIs(locks: seq<Lock>, i: nat, held: Tag)
    requires i < |locks|
  {
    ReadyAt(locks, i) && held.rw == if locks[i].ro then Occurs(locks, i, locks[i].elem) + 1 else 0
  }

  ghost predicate OthersAre(locks: seq<Lock>, i: nat, s: State)
    requires i < |locks|
  {
    forall e: nat {:trigger s.cells[e]} :: e < |s.cells| && e != locks[i].elem ==> TagIs(locks, i, e, s.cells[e].tag)
  }

  /** A transaction that runs alone is where its locks let it be. */
  ghost predicate Alone(s: State, locks: seq<Lock>) {
    && |s.ts| == 1 && s.ts[0].txn.locks == locks
    && (forall i: nat {:trigger locks[i]} :: i < |locks| ==> locks[i].elem < |s.cells|)
    && match s.ts[0].pc
       case AcqNone => locks == []
       case AcqLoad(i, _) => i < |locks| && AllReady(locks, i) && TagsAre(locks, i, s)
       case AcqSwap(i, mem) =>
         i < |locks| && AllReady(locks, i) && TagsAre(locks, i, s)
         && ReadReady(Initial(locks[i]), mem, 0) && mem == s.cells[locks[i].elem].tag
       case AcqData(i, held) =>
         i < |locks| && AllReady(locks, i) && OthersAre(locks, i, s) && HeldIs(locks, i, held) && held == s.cells[locks[i].elem].tag
       case AcqStore(i, held, _) =>
         i < |locks| && AllReady(locks, i) && OthersAre(locks, i, s) && HeldIs(locks, i, held) && held.fe == Final(locks[i])
       case _ => AllReady(locks, |locks|)
  }

  /** A tag lets lock `i` be taken exactly if it can be, by a reader whose uninitialised
      variable does not hold 7. */
  lemma {:induction false} TagLets(locks: seq<Lock>, i: nat, tag: Tag, stale: nat)
    requires i < |locks| && TagIs(locks, i, locks[i].elem, tag)
    ensures ReadReady(Initial(locks[i]), tag, stale) ==> ReadyAt(locks, i)
    ensures ReadyAt(locks, i) && (stale < MAX_READERS || tag.fe == Full) ==> ReadReady(Initial(locks[i]), tag, stale)
  {
    var e := locks[i].elem;
    OccursAt(locks, i, e);
    if j: nat :| j < i && locks[j] == Lock(e, false) {
      OccursGrows(locks, j + 1, i, e);
    }
  }

  lemma {:induction false} AloneReads(s: State, locks: seq<Lock>, stale: nat)
    requires Alone(s, locks) && (s.ts[0].pc.AcqLoad? || s.ts[0].pc.AcqSwap?)
    ensures Alone(StepAcquire(s, 0, stale), locks)
  {
    var i := s.ts[0].pc.i;
    var tag := s.cells[locks[i].elem].tag;
    TagLets(locks, i, tag, if s.ts[0].pc.AcqLoad? then s.ts[0].pc.stale else 0);
    OccursAt(locks, i, locks[i].elem);
  }

  /** The tags after one more lock. */
  lemma {:induction false} TagAfter(locks: seq<Lock>, i: nat, held: Tag)
    requires i < |locks| && HeldIs(locks, i, held) && held.fe == Final(locks[i])
    ensures TagIs(locks, i + 1, locks[i].elem, held)
  {
    assert !locks[i].ro ==> locks[i] == Lock(locks[i].elem, false);
  }

  lemma {:induction false} TagStays(locks: seq<Lock>, i: nat, e: nat, tag: Tag)
    requires i < |locks| && TagIs(locks, i, e, tag) && e != locks[i].elem
    ensures TagIs(locks, i + 1, e, tag)
  {
    if j: nat :| j < i + 1 && locks[j] == Lock(e, false) {
      assert j < i;
    }
  }

  lemma {:induction false} AloneStores(s: State, locks: seq<Lock>, stale: nat)
    requires Alone(s, locks) && s.ts[0].pc.AcqStore?
    ensures Alone(StepAcquire(s, 0, stale), locks)
  {
    var i, s' := s.ts[0].pc.i, StepAcquire(s, 0, stale);
    TagAfter(locks, i, s.ts[0].pc.held);
    forall e: nat | e < |s'.cells|
      ensures TagIs(locks, i + 1, e, s'.cells[e].tag)
    {
      if e != locks[i].elem { TagStays(locks, i, e, s.cells[e].tag); }
    }
    assert AllReady(locks, i + 1);
  }

  lemma {:induction false} AcquireAlone(s: State, locks: seq<Lock>, stale: nat)
    requires Alone(s, locks) && Acquiring(s.ts[0].pc)
    ensures Alone(StepAcquire(s, 0, stale), locks)
  {
    if s.ts[0].pc.AcqLoad? || s.ts[0].pc.AcqSwap? {
      AloneReads(s, locks, stale);
    } else if s.ts[0].pc.AcqStore? {
      AloneStores(s, locks, stale);
    }
  }

  lemma {:induction false} PastAcquiring(s: State, stale: nat)
    requires |s.ts| == 1 && !Acquiring(s.ts[0].pc)
    ensures var s' := Step(s, 0, stale);
      |s'.ts| == 1 && !Acquiring(s'.ts[0].pc) && s'.ts[0].txn.locks == s.ts[0].txn.locks && |s'.cells| == |s.cells|
  {}

  lemma {:induction false} StepAlone(s: State, locks: seq<Lock>, stale: nat)
    requires Alone(s, locks)
    ensures Alone(Step(s, 0, stale), locks)
  {
    if Acquiring(s.ts[0].pc) {
      AcquireAlone(s, locks, stale);
    } else {
      PastAcquiring(s, stale);
    }
  }

  lemma {:induction false} RunAlone(store: seq<Val>, x: Txn, stale: nat, sched: seq<(nat, nat)>)
    requires (forall i: nat {:trigger x.locks[i]} :: i < |x.locks| ==> x.locks[i].elem < |store|) && Schedule(1, sched)
    ensures Alone(Exec(Init(store, [x], stale), sched), x.locks)
    decreases |sched|
  {
    if sched != [] {
      var k := |sched| - 1;
      RunAlone(store, x, stale, sched[..k]);
      StepAlone(Exec(Init(store, [x], stale), sched[..k]), x.locks, sched[k].1);
    }
  }

  /** With all locks ready, one after the other is taken. */
  lemma {:induction false} TakesLocks(s0: State, s: State, locks: seq<Lock>) returns (s': State)
    requires Reaches(s0, s) && |s0.ts| == 1 && Alone(s, locks) && AllReady(locks, |locks|) && s.ts[0].pc.AcqLoad?
    requires s.ts[0].pc.stale < MAX_READERS || s.cells[locks[s.ts[0].pc.i].elem].tag.fe == Full
    ensures Reaches(s0, s') && |s'.ts| == 1 && !Acquiring(s'.ts[0].pc)
    decreases |locks| - s.ts[0].pc.i
  {
    var s1 := TakesLock(s0, s, locks);
    if Acquiring(s1.ts[0].pc) {
      s' := TakesLocks(s0, s1, locks);
    } else {
      s' := s1;
    }
  }

  lemma {:induction false} TakesLock(s0: State, s: State, locks: seq<Lock>) returns (s': State)
    requires Reaches(s0, s) && |s0.ts| == 1 && Alone(s, locks) && AllReady(locks, |locks|) && s.ts[0].pc.AcqLoad?
    requires s.ts[0].pc.stale < MAX_READERS || s.cells[locks[s.ts[0].pc.i].elem].tag.fe == Full
    ensures Reaches(s0, s') && Alone(s', locks)
    ensures Acquiring(s'.ts[0].pc) ==> s'.ts[0].pc == AcqLoad(s.ts[0].pc.i + 1, 0) && s.ts[0].pc.i + 1 < |locks|
  {
    var s1 := LoadsLock(s0, s, locks);
    SwapTakes(s1, locks);
    var s2 := NextAlone(s0, s1, locks);
    var s3 := NextAlone(s0, s2, locks);
    s' := NextAlone(s0, s3, locks);
  }

  lemma {:induction false} LoadsLock(s0: State, s: State, locks: seq<Lock>) returns (s': State)
    requires Reaches(s0, s) && |s0.ts| == 1 && Alone(s, locks) && AllReady(locks, |locks|) && s.ts[0].pc.AcqLoad?
    requires s.ts[0].pc.stale < MAX_READERS || s.cells[locks[s.ts[0].pc.i].elem].tag.fe == Full
    ensures Reaches(s0, s') && Alone(s', locks) && s'.ts[0].pc.AcqSwap? && s'.ts[0].pc.i == s.ts[0].pc.i
  {
    var i := s.ts[0].pc.i;
    assert ReadyAt(locks, i);
    TagLets(locks, i, s.cells[locks[i].elem].tag, s.ts[0].pc.stale);
    s' := NextAlone(s0, s, locks);
  }

  lemma {:induction false} NextAlone(s0: State, s: State, locks: seq<Lock>) returns (s': State)
    requires Reaches(s0, s) && |s0.ts| == 1 && Alone(s, locks) && Acquiring(s.ts[0].pc)
    ensures s' == StepAcquire(s, 0, 0) && Reaches(s0, s') && Alone(s', locks)
  {
    s' := StepAcquire(s, 0, 0);
    ReachesNext(s0, s, 0, 0);
    AcquireAlone(s, locks, 0);
  }

  lemma {:induction false} SwapTakes(s: State, locks: seq<Lock>)
    requires Alone(s, locks) && s.ts[0].pc.AcqSwap?
    ensures StepAcquire(s, 0, 0).ts == [s.ts[0].(pc := AcqData(s.ts[0].pc.i, ReadBusy(Initial(locks[s.ts[0].pc.i]), s.ts[0].pc.mem)))]
  {}

  /** A transaction that runs alone can get through tmStart exactly if no element occurs more
      than once with a write among its entries, and none is read-locked more than 7 times. */
  lemma {:induction false} AloneGetsThrough(store: seq<Val>, x: Txn, stale: nat)
    requires forall i: nat {:trigger x.locks[i]} :: i < |x.locks| ==> x.locks[i].elem < |store|
    ensures FitsAlone(x.locks) <==>
      exists s: State :: Reaches(Init(store, [x], stale), s) && |s.ts| == 1 && !Acquiring(s.ts[0].pc)
  {
    var s0 := Init(store, [x], stale);
    assert Exec(s0, []) == s0;
    FitsIsReady(x.locks);
    RunAlone(store, x, stale, []);
    if FitsAlone(x.locks) {
      if x.locks == [] {
        var s := NextAlone(s0, s0, x.locks);
      } else {
        var s := TakesLocks(s0, s0, x.locks);
      }
    }
    if s: State :| Reaches(s0, s) && |s.ts| == 1 && !Acquiring(s.ts[0].pc) {
      var sched: seq<(nat, nat)> :| Schedule(1, sched) && Exec(s0, sched) == s;
      RunAlone(store, x, stale, sched);
    }
  }

  // ---- Two orders ----------------------------------------------------------------------

  /** Thread `t` has taken `k` steps towards locking `e`, its first element, for writing. */
  predicate Locking(s: State, t: nat, e: nat, k: nat) {
    && t < |s.ts| && e < |s.cells|
    && |s.ts[t].txn.locks| == 2 && s.ts[t].txn.locks[0] == Lock(e, false)
    && var tag := s.cells[e].tag;
       match k
       case 0 => s.ts[t].pc.AcqLoad? && s.ts[t].pc.i == 0 && tag.fe == Full
       case 1 => s.ts[t].pc == AcqSwap(0, tag) && tag.fe == Full
       case 2 => s.ts[t].pc.AcqData? && s.ts[t].pc.i == 0
       case 3 => s.ts[t].pc.AcqStore? && s.ts[t].pc.i == 0 && s.ts[t].pc.held.fe == Empty
       case _ => s.ts[t].pc.AcqLoad? && s.ts[t].pc.i == 1 && tag.fe == Empty
  }

  lemma {:induction false} LocksNext(s: State, t: nat, e: nat, k: nat, u: nat, f: nat, m: nat, stale: nat)
    requires Locking(s, t, e, k) && k < 4 && Locking(s, u, f, m) && t != u && e != f
    ensures var s' := Step(s, t, stale);
      Locking(s', t, e, k + 1) && Locking(s', u, f, m) && |s'.ts| == |s.ts| && |s'.cells| == |s.cells|
      && s'.ts[t].txn.locks == s.ts[t].txn.locks && s'.ts[u].txn.locks == s.ts[u].txn.locks
  {}

  /** Thread `t` is in tmStart, and a step of it changes nothing. */
  ghost predicate Stuck(s: State, t: nat, stale: nat)
    requires t < |s.ts|
  {
    Acquiring(s.ts[t].pc) && Step(s, t, stale) == s
  }

  /** No transaction is done, and none ever gets any further. */
  ghost predicate Deadlocked(s: State) {
    forall t: nat, stale: nat {:trigger Stuck(s, t, stale)} :: t < |s.ts| ==> Stuck(s, t, stale)
  }

  /** Thread `t` locks its first element, while thread `u` stands still. */
  lemma {:induction false} LocksFirst(s0: State, s: State, t: nat, e: nat, u: nat, f: nat, m: nat, stale: nat) returns (s': State)
    requires Reaches(s0, s) && |s0.ts| == |s.ts|
    requires Locking(s, t, e, 0) && Locking(s, u, f, m) && t != u && e != f
    ensures Reaches(s0, s') && |s'.ts| == |s.ts|
    ensures Locking(s', t, e, 4) && Locking(s', u, f, m)
    ensures s'.ts[t].txn.locks == s.ts[t].txn.locks && s'.ts[u].txn.locks == s.ts[u].txn.locks
  {
    s' := s;
    for k := 0 to 4
      invariant Reaches(s0, s') && |s'.ts| == |s.ts|
      invariant Locking(s', t, e, k) && Locking(s', u, f, m)
      invariant s'.ts[t].txn.locks == s.ts[t].txn.locks && s'.ts[u].txn.locks == s.ts[u].txn.locks
    {
      ReachesNext(s0, s', t, stale);
      LocksNext(s', t, e, k, u, f, m, stale);
      s' := Step(s', t, stale);
    }
  }

  lemma {:induction false} BothWait(s: State, a: nat, b: nat)
    requires |s.ts| == 2 && Locking(s, 0, a, 4) && Locking(s, 1, b, 4)
    requires s.ts[0].txn.locks[1] == Lock(b, false) && s.ts[1].txn.locks[1] == Lock(a, false)
    ensures Deadlocked(s)
  {
    assert s.cells[a].tag.fe == Empty && s.cells[b].tag.fe == Empty;
    forall t: nat, stale: nat | t < |s.ts|
      ensures Stuck(s, t, stale)
    {
      if t == 0 {
        WaitsForEmpty(s, 0, a, b, stale);
      } else {
        assert t == 1;
        WaitsForEmpty(s, 1, b, a, stale);
      }
    }
  }

  lemma {:induction false} WaitsForEmpty(s: State, t: nat, e: nat, f: nat, stale: nat)
    requires Locking(s, t, e, 4) && s.ts[t].txn.locks[1] == Lock(f, false) && f < |s.cells| && s.cells[f].tag.fe == Empty
    ensures Stuck(s, t, stale)
  {}

  /** Two transactions that lock the same two elements in opposite orders can deadlock. */
  lemma {:induction false} OppositeOrdersDeadlock(store: seq<Val>, x: Txn, y: Txn, a: nat, b: nat, stale: nat)
    requires a < |store| && b < |store| && a != b
    requires x.locks == [Lock(a, false), Lock(b, false)] && y.locks == [Lock(b, false), Lock(a, false)]
    ensures exists s: State :: Reaches(Init(store, [x, y], stale), s) && |s.ts| == 2 && Deadlocked(s)
  {
    var s0 := Init(store, [x, y], stale);
    assert Exec(s0, []) == s0;
    var s1 := LocksFirst(s0, s0, 0, a, 1, b, 0, stale);
    var s2 := LocksFirst(s0, s1, 1, b, 0, a, 4, stale);
    BothWait(s2, a, b);
  }
}
