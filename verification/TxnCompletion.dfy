/** That transactions can always be brought to their ends: from every reachable state some
    continuation leaves all of them done, if every body ends after finitely many actions. */
module TxnCompletion {
  import opened Tags
  import opened Transactions
  import opened TxnLocks

  /** Once it has been told `n` values, the transaction ends. */
  ghost predicate EndsBy(x: Txn, n: nat) {
    forall log: seq<Val> {:trigger x.body(log)} :: |log| >= n ==> x.body(log).End?
  }

  function Minus(a: nat, b: nat): nat {
    if a > b then a - b else 0
  }

  /** How often a transaction with `m` locks that has come to `rank`, and ends by `n`, can
      still get further. */
  function Left(rank: (nat, nat), m: nat, n: nat): nat {
    if rank.0 == 0 then Minus(2 * m + 1, rank.1) + Minus(n, m) + 2 * m + 2
    else if rank.0 == 1 then Minus(n, rank.1) + 2 * m + 2
    else if rank.0 == 2 then Minus(2 * m + 1, rank.1)
    else 0
  }

  function ToDo(th: Thread, n: nat): nat {
    Left(Rank(th), |th.txn.locks|, n)
  }

  /** A step leaves a transaction where it is or lessens what it has to do. */
  ghost predicate Lessens(th: Thread, th': Thread, n: nat) {
    th'.txn == th.txn && (Rank(th') == Rank(th) || ToDo(th', n) < ToDo(th, n))
  }

  lemma {:induction false} AcquireLessens(s: State, t: nat, stale: nat, n: nat)
    requires LocksInv(s) && t < |s.ts| && Acquiring(s.ts[t].pc)
    ensures |StepAcquire(s, t, stale).ts| == |s.ts| && Lessens(s.ts[t], StepAcquire(s, t, stale).ts[t], n)
  {
    assert ThreadOk(s.cells, s.ts[t], t);
  }

  lemma {:induction false} BodyLessens(s: State, t: nat, n: nat)
    requires LocksInv(s) && t < |s.ts| && Running(s.ts[t].pc) && EndsBy(s.ts[t].txn, n)
    ensures |StepBody(s, t).ts| == |s.ts| && Lessens(s.ts[t], StepBody(s, t).ts[t], n)
  {
    var th := s.ts[t];
    assert ThreadOk(s.cells, th, t);
    assert |th.log| >= n ==> th.txn.body(th.log).End?;
  }

  lemma {:induction false} EndLessens(s: State, t: nat, n: nat)
    requires LocksInv(s) && t < |s.ts| && !Acquiring(s.ts[t].pc) && !Running(s.ts[t].pc)
    ensures |StepEnd(s, t).ts| == |s.ts| && Lessens(s.ts[t], StepEnd(s, t).ts[t], n)
  {
    assert ThreadOk(s.cells, s.ts[t], t);
    if s.ts[t].pc.EndLock? {
      EndLockKeeps(s, t);
      EndLockLessens(s, t, n);
    } else if s.ts[t].pc.RelSwap? || s.ts[t].pc.SetStore? {
      GiveLessens(s, t, n);
    } else {
      BackLessens(s, t, n);
    }
  }

  lemma {:induction false} EndLockLessens(s: State, t: nat, n: nat)
    requires t < |s.ts| && s.ts[t].pc.EndLock? && s.ts[t].pc.i <= |s.ts[t].txn.locks| && LocksInv(StepEnd(s, t))
    ensures |StepEnd(s, t).ts| == |s.ts| && Lessens(s.ts[t], StepEnd(s, t).ts[t], n)
  {
    var s' := StepEnd(s, t);
    assert ThreadOk(s'.cells, s'.ts[t], t);
    if s'.ts[t].pc.Done? {
      assert Rank(s'.ts[t]) == (3, 0);
    } else {
      assert Rank(s'.ts[t]) == Rank(s.ts[t]);
    }
  }

  lemma {:induction false} GiveLessens(s: State, t: nat, n: nat)
    requires t < |s.ts| && (s.ts[t].pc.RelSwap? || s.ts[t].pc.SetStore?) && ThreadOk(s.cells, s.ts[t], t)
    ensures |StepEnd(s, t).ts| == |s.ts| && Lessens(s.ts[t], StepEnd(s, t).ts[t], n)
  {}

  lemma {:induction false} BackLessens(s: State, t: nat, n: nat)
    requires t < |s.ts| && !Acquiring(s.ts[t].pc) && !Running(s.ts[t].pc) && ThreadOk(s.cells, s.ts[t], t)
    requires !s.ts[t].pc.EndLock? && !s.ts[t].pc.RelSwap? && !s.ts[t].pc.SetStore?
    ensures |StepBack(s, t).ts| == |s.ts| && Lessens(s.ts[t], StepBack(s, t).ts[t], n)
  {}

  lemma {:induction false} StepLessens(s: State, t: nat, stale: nat, n: nat)
    requires LocksInv(s) && t < |s.ts| && EndsBy(s.ts[t].txn, n)
    ensures |Step(s, t, stale).ts| == |s.ts| && Lessens(s.ts[t], Step(s, t, stale).ts[t], n)
  {
    if Acquiring(s.ts[t].pc) {
      AcquireLessens(s, t, stale, n);
    } else if Running(s.ts[t].pc) {
      BodyLessens(s, t, n);
    } else {
      EndLessens(s, t, n);
    }
  }

  lemma {:induction false} OnlyStepper(s: State, t: nat, stale: nat)
    requires t < |s.ts|
    ensures |Step(s, t, stale).ts| == |s.ts| && Step(s, t, stale).ts == s.ts[t := Step(s, t, stale).ts[t]]
  {
    forall u: nat | u < |s.ts| && u != t
      ensures |Step(s, t, stale).ts| == |s.ts| && Step(s, t, stale).ts[u] == s.ts[u]
    {
      OthersStay(s, u, t, stale);
    }
    StepShape(s, t, stale);
  }

  // ---- Schedules one after the other -----------------------------------------------

  lemma {:induction false} LastStep(s: State, sched: seq<(nat, nat)>)
    requires Schedule(|s.ts|, sched) && sched != []
    ensures var k := |sched| - 1;
      Exec(s, sched) == Step(Exec(s, sched[..k]), sched[k].0, sched[k].1)
  {}

  lemma {:induction false} ExecBoth(s: State, a: seq<(nat, nat)>, b: seq<(nat, nat)>)
    requires Schedule(|s.ts|, a) && Schedule(|s.ts|, b)
    ensures Schedule(|s.ts|, a + b) && Exec(s, a + b) == Exec(Exec(s, a), b)
    decreases |b|
  {
    if b == [] {
      assert a + b == a;
    } else {
      var k := |b| - 1;
      ExecBoth(s, a, b[..k]);
      var all := a + b;
      assert all[..|all| - 1] == a + b[..k] && all[|all| - 1] == b[k];
      LastStep(s, all);
      LastStep(Exec(s, a), b);
    }
  }

  lemma {:induction false} ExecFirst(s: State, t: nat, stale: nat, b: seq<(nat, nat)>)
    requires t < |s.ts| && Schedule(|s.ts|, b)
    ensures |Step(s, t, stale).ts| == |s.ts| && Schedule(|s.ts|, [(t, stale)] + b)
    ensures Exec(s, [(t, stale)] + b) == Exec(Step(s, t, stale), b)
  {
    StepShape(s, t, stale);
    ExecBoth(s, [(t, stale)], b);
    assert [(t, stale)][..0] == [];
    assert Exec(s, []) == s;
  }

  // ---- Thread by thread to the end ------------------------------------------------------

  /** From `s` to `s'` only thread `t` has moved, and has less to do. */
  ghost predicate Progress(s: State, t: nat, s': State, n: nat)
    requires t < |s.ts|
  {
    && |s'.ts| == |s.ts| && s'.ts == s.ts[t := s'.ts[t]] && s'.ts[t].txn == s.ts[t].txn
    && ToDo(s'.ts[t], n) < ToDo(s.ts[t], n)
  }

  /** A transaction that goes on gets something done. */
  lemma {:induction false} GetsOn(s: State, t: nat, stale: nat, n: nat, k: nat) returns (first: seq<(nat, nat)>)
    requires LocksInv(s) && t < |s.ts| && EndsBy(s.ts[t].txn, n) && Passes(s, t, stale, Rank(s.ts[t]), k)
    ensures Schedule(|s.ts|, first) && LocksInv(Exec(s, first)) && Progress(s, t, Exec(s, first), n)
    decreases k
  {
    var s1 := Step(s, t, stale);
    StepLessens(s, t, stale, n);
    StepKeepsLocks(s, t, stale);
    OnlyStepper(s, t, stale);
    if Rank(s1.ts[t]) == Rank(s.ts[t]) {
      var rest := GetsOn(s1, t, stale, n, k - 1);
      ExecFirst(s, t, stale, rest);
      first := [(t, stale)] + rest;
    } else {
      ExecFirst(s, t, stale, []);
      first := [(t, stale)] + [];
    }
  }

  /** What all transactions together have to do. */
  function Work(ts: seq<Thread>, n: nat): nat {
    if ts == [] then 0 else ToDo(ts[0], n) + Work(ts[1..], n)
  }

  lemma {:induction false} WorkLess(ts: seq<Thread>, t: nat, th: Thread, n: nat)
    requires t < |ts| && ToDo(th, n) < ToDo(ts[t], n)
    ensures Work(ts[t := th], n) < Work(ts, n)
  {
    if t > 0 {
      WorkLess(ts[1..], t - 1, th, n);
      assert ts[t := th][1..] == ts[1..][t - 1 := th];
    } else {
      assert ts[t := th][1..] == ts[1..];
    }
  }

  predicate AllDone(s: State) {
    forall t: nat :: t < |s.ts| ==> s.ts[t].pc.Done?
  }

  lemma {:induction false} FinishAll(s: State, stale: nat, n: nat) returns (more: seq<(nat, nat)>)
    requires LocksInv(s) && forall t: nat :: t < |s.ts| ==> EndsBy(s.ts[t].txn, n)
    ensures Schedule(|s.ts|, more) && AllDone(Exec(s, more))
    decreases Work(s.ts, n)
  {
    more := [];
    if t: nat :| t < |s.ts| && !s.ts[t].pc.Done? {
      NotDoneGoesOn(s, t, stale);
      var u: nat :| u < |s.ts| && !s.ts[u].pc.Done? && GoesOn(s, u, stale);
      var first := GetsOn(s, u, stale, n, 4);
      var s1 := Exec(s, first);
      WorkLess(s.ts, u, s1.ts[u], n);
      var rest := FinishAll(s1, stale, n);
      ExecBoth(s, first, rest);
      more := first + rest;
    }
  }

  /** The body ends after finitely many actions, whatever it is told. */
  ghost predicate Ends(x: Txn) {
    exists n: nat :: EndsBy(x, n)
  }

  lemma {:induction false} CommonBound(txns: seq<Txn>) returns (n: nat)
    requires forall k :: 0 <= k < |txns| ==> Ends(txns[k])
    ensures forall k :: 0 <= k < |txns| ==> EndsBy(txns[k], n)
    decreases |txns|
  {
    if txns == [] {
      n := 0;
    } else {
      var last := |txns| - 1;
      var m: nat :| EndsBy(txns[last], m);
      n := CommonBound(txns[..last]);
      assert forall k :: 0 <= k < last ==> txns[..last][k] == txns[k];
      n := if m > n then m else n;
    }
  }

  /** From every reachable state the transactions can be brought to their ends. */
  lemma {:induction false} CanComplete(store: seq<Val>, txns: seq<Txn>, stale: nat, sched: seq<(nat, nat)>)
    requires forall k :: 0 <= k < |txns| ==> WellFormed(txns[k], |store|)
    requires forall k :: 0 <= k < |txns| ==> Ends(txns[k])
    requires Schedule(|txns|, sched)
    ensures exists more: seq<(nat, nat)> :: Schedule(|txns|, sched + more) && AllDone(Exec(Init(store, txns, stale), sched + more))
  {
    var s0 := Init(store, txns, stale);
    var n := CommonBound(txns);
    LocksAlways(store, txns, stale, sched);
    SizesStay(store, txns, stale, sched);
    var more := FinishAll(Exec(s0, sched), stale, n);
    ExecBoth(s0, sched, more);
    assert Schedule(|txns|, sched + more) && AllDone(Exec(s0, sched + more));
  }
}
