/** Transactions are serializable in the order in which they acquired their last locks.

    `Run` is what a transaction does when nothing else runs.  Every transaction, also one
    that is still running or aborts, sees exactly what it would see running alone after
    the committed transactions before it in the order, and the elements end up as running
    the committed ones one after the other would leave them. */
module TxnSerial {
  import opened Tags
  import opened Transactions
  import opened TxnLocks

  // ---- One transaction, alone -----------------------------------------------------

  datatype Solo = Solo(store: seq<Val>, log: seq<Val>)

  function At(st: seq<Val>, e: nat): Val {
    if e < |st| then st[e] else VInvalid
  }

  function Put(st: seq<Val>, e: nat, v: Val): (r: seq<Val>)
    ensures |r| == |st|
  {
    if e < |st| then st[e := v] else st
  }

  /** The transaction has read its elements and done `n` actions, or as many as it has. */
  function Run(x: Txn, st: seq<Val>, n: int): (r: Solo)
    ensures |r.store| == |st|
    decreases n
  {
    if n <= 0 then Solo(st, seq(|x.locks|, i requires 0 <= i < |x.locks| => At(st, x.locks[i].elem)))
    else
      var p := Run(x, st, n - 1);
      match x.body(p.log)
      case Read(e) => Solo(p.store, p.log + [At(p.store, e)])
      case Write(e, v) => Solo(Put(p.store, e, v), p.log + [v])
      case End(_) => p
  }

  predicate Locks(x: Txn, e: nat) {
    exists i :: 0 <= i < |x.locks| && x.locks[i].elem == e
  }

  predicate Writes(x: Txn, e: nat) {
    Lock(e, false) in x.locks
  }

  lemma {:induction false} WritesLocked(x: Txn, e: nat)
    requires Writes(x, e)
    ensures Locks(x, e)
  {
    var i :| 0 <= i < |x.locks| && x.locks[i] == Lock(e, false);
    assert x.locks[i].elem == e;
  }

  /** A transaction changes only what it locks for writing. */
  lemma {:induction false} RunFrame(x: Txn, st: seq<Val>, n: int, e: nat)
    requires WellFormed(x, |st|) && !Writes(x, e) && e < |st|
    ensures Run(x, st, n).store[e] == st[e]
    decreases n
  {
    if n > 0 {
      RunFrame(x, st, n - 1, e);
      assert Legal(x, x.body(Run(x, st, n - 1).log));
    }
  }

  ghost predicate Agree(x: Txn, st: seq<Val>, st': seq<Val>) {
    forall e: nat :: Locks(x, e) ==> At(st, e) == At(st', e)
  }

  /** What a transaction does depends only on what it locks. */
  lemma {:induction false} RunAgree(x: Txn, st: seq<Val>, st': seq<Val>, n: int)
    requires WellFormed(x, |st|) && |st| == |st'| && Agree(x, st, st')
    ensures Run(x, st, n).log == Run(x, st', n).log
    ensures Agree(x, Run(x, st, n).store, Run(x, st', n).store)
    decreases n
  {
    if n <= 0 {
      var a, b := Run(x, st, n).log, Run(x, st', n).log;
      forall i | 0 <= i < |x.locks|
        ensures a[i] == b[i]
      {
        assert Locks(x, x.locks[i].elem);
      }
    } else {
      RunAgree(x, st, st', n - 1);
      var p, p' := Run(x, st, n - 1), Run(x, st', n - 1);
      assert Legal(x, x.body(p.log));
      match x.body(p.log) {
        case Read(e) => assert Locks(x, e);
        case Write(e, v) =>
        case End(_) =>
      }
    }
  }

  /** The first entries of the log are what the elements held at the start. */
  lemma {:induction false} RunReadsFirst(x: Txn, st: seq<Val>, n: int, i: nat)
    requires i < |x.locks|
    ensures |Run(x, st, n).log| >= |x.locks| && Run(x, st, n).log[i] == At(st, x.locks[i].elem)
    decreases n
  {
    if n > 0 {
      RunReadsFirst(x, st, n - 1, i);
    }
  }

  // ---- The serial store -------------------------------------------------------------

  predicate Commits(pc: Pc) {
    match pc
    case EndLock(_, commit) => commit
    case RelSwap(_, commit, _) => commit
    case SetStore(_, _) => true
    case Done(commit) => commit
    case _ => false
  }

  predicate Aborts(pc: Pc) {
    !Acquiring(pc) && !Running(pc) && !Commits(pc)
  }

  /** How many actions a transaction has done since tmStart. */
  function Count(th: Thread): int {
    |th.log| - |th.txn.locks|
  }

  /** The store after the committed ones of the first `k` transactions of the order have
      run one after the other. */
  function Pre(store: seq<Val>, ts: seq<Thread>, order: seq<nat>, k: int): (r: seq<Val>)
    ensures |r| == |store|
    decreases k
  {
    if k <= 0 || k > |order| then store
    else
      var before, t := Pre(store, ts, order, k - 1), order[k - 1];
      if t < |ts| && Commits(ts[t].pc) then Run(ts[t].txn, before, Count(ts[t])).store else before
  }

  function Now(store: seq<Val>, s: State): seq<Val> {
    Pre(store, s.ts, s.order, |s.order|)
  }

  /** Where thread `t` starts in the serial execution, and where it is there. */
  function Base(store: seq<Val>, s: State, t: nat): seq<Val>
    requires t < |s.ts|
  {
    Pre(store, s.ts, s.order, s.ts[t].pos)
  }

  function Here(store: seq<Val>, s: State, t: nat): Solo
    requires t < |s.ts|
  {
    Run(s.ts[t].txn, Base(store, s, t), Count(s.ts[t]))
  }

  ghost predicate SameEffect(a: Thread, b: Thread) {
    Commits(a.pc) == Commits(b.pc) && (Commits(a.pc) ==> a.txn == b.txn && a.log == b.log)
  }

  lemma {:induction false} PreSame(store: seq<Val>, ts: seq<Thread>, ts': seq<Thread>, order: seq<nat>, order': seq<nat>, k: int)
    requires |ts| == |ts'| && order <= order' && k <= |order|
    requires forall t: nat :: t < |ts| ==> SameEffect(ts[t], ts'[t])
    ensures Pre(store, ts, order, k) == Pre(store, ts', order', k)
    decreases k
  {
    if 0 < k {
      PreSame(store, ts, ts', order, order', k - 1);
      if order[k - 1] < |ts| {
        assert SameEffect(ts[order[k - 1]], ts'[order[k - 1]]);
      }
    }
  }

  /** Neither transaction writes what the other locks. */
  ghost predicate NoConflict(x: Txn, y: Txn) {
    forall e: nat :: !(Writes(x, e) && Locks(y, e)) && !(Writes(y, e) && Locks(x, e))
  }

  /** Nothing a transaction locks changes from its place in the order to `m`, if nothing
      after it conflicts. */
  lemma {:induction false} BaseStays(store: seq<Val>, ts: seq<Thread>, order: seq<nat>, x: Txn, k: nat, m: nat, e: nat)
    requires k <= m <= |order| && e < |store| && Locks(x, e)
    requires forall t: nat :: t < |ts| ==> WellFormed(ts[t].txn, |store|)
    requires forall j: nat :: k <= j < m && order[j] < |ts| && Commits(ts[order[j]].pc) ==> NoConflict(x, ts[order[j]].txn)
    ensures Pre(store, ts, order, m)[e] == Pre(store, ts, order, k)[e]
    decreases m
  {
    if k < m {
      BaseStays(store, ts, order, x, k, m - 1, e);
      if order[m - 1] < |ts| && Commits(ts[order[m - 1]].pc) {
        var y := ts[order[m - 1]].txn;
        assert NoConflict(x, y);
        RunFrame(y, Pre(store, ts, order, m - 1), Count(ts[order[m - 1]]), e);
      }
    }
  }

  /** When transaction number `j` of the order commits, and nothing after it conflicts with
      it, the serial store changes after it exactly where it writes. */
  lemma {:induction false} CommitInserts(store: seq<Val>, ts: seq<Thread>, th: Thread, order: seq<nat>, j: nat, m: nat, e: nat)
    requires j < m <= |order| && e < |store| && order[j] < |ts|
    requires forall t: nat :: t < |ts| ==> WellFormed(ts[t].txn, |store|)
    requires !Commits(ts[order[j]].pc) && Commits(th.pc) && th.txn == ts[order[j]].txn
    requires forall i: nat :: i < |order| && i != j ==> order[i] != order[j]
    requires forall i: nat :: j < i < m && order[i] < |ts| ==> NoConflict(th.txn, ts[order[i]].txn)
    ensures Pre(store, ts[order[j] := th], order, m)[e] ==
            if Writes(th.txn, e) then Run(th.txn, Pre(store, ts, order, j), Count(th)).store[e]
            else Pre(store, ts, order, m)[e]
    decreases m
  {
    var ts' := ts[order[j] := th];
    if m == j + 1 {
      CommitBefore(store, ts, th, order, j, j);
      if !Writes(th.txn, e) {
        RunFrame(th.txn, Pre(store, ts, order, j), Count(th), e);
      }
    } else {
      CommitInserts(store, ts, th, order, j, m - 1, e);
      if order[m - 1] < |ts| && Commits(ts[order[m - 1]].pc) {
        var u := ts[order[m - 1]];
        var st, st' := Pre(store, ts, order, m - 1), Pre(store, ts', order, m - 1);
        assert NoConflict(th.txn, u.txn);
        forall f: nat | Locks(u.txn, f)
          ensures At(st, f) == At(st', f)
        {
          if f < |store| { CommitInserts(store, ts, th, order, j, m - 1, f); }
        }
        assert ts'[order[m - 1]] == u;
        RunAgree(u.txn, st, st', Count(u));
        if Locks(u.txn, e) {
          assert At(Run(u.txn, st, Count(u)).store, e) == At(Run(u.txn, st', Count(u)).store, e);
        } else {
          if Writes(u.txn, e) { WritesLocked(u.txn, e); }
          RunFrame(u.txn, st, Count(u), e);
          RunFrame(u.txn, st', Count(u), e);
        }
      }
    }
  }

  /** A commit changes nothing before its place in the order. */
  lemma {:induction false} CommitBefore(store: seq<Val>, ts: seq<Thread>, th: Thread, order: seq<nat>, j: nat, m: int)
    requires m <= j < |order| && order[j] < |ts|
    requires forall i: nat :: i < |order| && i != j ==> order[i] != order[j]
    ensures Pre(store, ts[order[j] := th], order, m) == Pre(store, ts, order, m)
    decreases m
  {
    if 0 < m {
      CommitBefore(store, ts, th, order, j, m - 1);
    }
  }
}
