/** What the serial execution means for values, read off the bodies of the transactions and what
    they have been told: a read is told the value last written, an element that is held for
    writing has it, and in the end every element has the value last written by a transaction
    that committed. */
module TxnValues {
  import opened Tags
  import opened Transactions
  import opened TxnLocks
  import opened TxnSerial
  import opened TxnSerializable
  import opened Serializability

  /** After the first `k` entries of its log the transaction writes element `e`. */
  predicate WritesNext(x: Txn, log: seq<Val>, k: nat, e: nat) {
    |x.locks| <= k < |log| && x.body(log[..k]).Write? && x.body(log[..k]).e == e
  }

  /** That is its last write of the element among the first `n` entries. */
  ghost predicate LastWrite(x: Txn, log: seq<Val>, n: nat, k: nat, e: nat) {
    k < n <= |log| && WritesNext(x, log, k, e) && forall j: nat {:trigger WritesNext(x, log, j, e)} :: k < j < n ==> !WritesNext(x, log, j, e)
  }

  ghost predicate Untouched(x: Txn, log: seq<Val>, n: nat, e: nat) {
    forall j: nat {:trigger WritesNext(x, log, j, e)} :: j < n ==> !WritesNext(x, log, j, e)
  }

  /** `c` is the value that the first `n` entries of the log leave in element `e` for the
      transaction: the one it wrote last, or else the one that tmStart returned. */
  ghost predicate Left(x: Txn, log: seq<Val>, n: nat, e: nat, c: Val) {
    && (forall k: nat, v: Val {:trigger LastWrite(x, log, n, k, e), Write(e, v)} :: LastWrite(x, log, n, k, e) && x.body(log[..k]) == Write(e, v) ==> c == v)
    && (Untouched(x, log, n, e) ==> forall i: nat {:trigger x.locks[i]} :: i < |x.locks| && i < |log| && x.locks[i].elem == e ==> c == log[i])
  }

  // ---- One transaction, alone -----------------------------------------------------------

  /** None of the `n` actions is the end. */
  predicate Goes(x: Txn, st: seq<Val>, n: int) {
    |Run(x, st, n).log| == |x.locks| + n
  }

  lemma {:induction false} LogAtMost(x: Txn, st: seq<Val>, n: nat)
    ensures |Run(x, st, n).log| <= |x.locks| + n
    decreases n
  {
    if n > 0 {
      LogAtMost(x, st, n - 1);
    }
  }

  lemma {:induction false} GoesBefore(x: Txn, st: seq<Val>, n: nat)
    requires n > 0 && Goes(x, st, n)
    ensures Goes(x, st, n - 1)
    ensures Run(x, st, n).log[..|x.locks| + n - 1] == Run(x, st, n - 1).log
    ensures !x.body(Run(x, st, n - 1).log).End?
  {
    LogAtMost(x, st, n - 1);
  }

  /** The actions before are the same in a longer log. */
  lemma {:induction false} WritesSame(x: Txn, log: seq<Val>, log': seq<Val>, k: nat, e: nat)
    requires log <= log' && k < |log|
    ensures log'[..k] == log[..k] && (WritesNext(x, log', k, e) <==> WritesNext(x, log, k, e))
  {
    assert log'[..k] == log[..k];
  }

  lemma {:induction false} RunUntouched(x: Txn, st: seq<Val>, n: nat, e: nat)
    requires Goes(x, st, n) && e < |st| && Untouched(x, Run(x, st, n).log, |Run(x, st, n).log|, e)
    ensures Run(x, st, n).store[e] == st[e]
    decreases n
  {
    if n > 0 {
      GoesBefore(x, st, n);
      var log', log := Run(x, st, n).log, Run(x, st, n - 1).log;
      forall j: nat | j < |log|
        ensures !WritesNext(x, log, j, e)
      {
        WritesSame(x, log, log', j, e);
      }
      RunUntouched(x, st, n - 1, e);
      assert log'[..|log|] == log && !WritesNext(x, log', |log|, e);
    }
  }

  /** The last write is what is in the store. */
  lemma {:induction false} RunWrote(x: Txn, st: seq<Val>, n: nat, k: nat, e: nat, v: Val)
    requires Goes(x, st, n) && e < |st| && LastWrite(x, Run(x, st, n).log, |Run(x, st, n).log|, k, e)
    requires x.body(Run(x, st, n).log[..k]) == Write(e, v)
    ensures Run(x, st, n).store[e] == v
    decreases n
  {
    if n > 0 {
      GoesBefore(x, st, n);
      var log', log := Run(x, st, n).log, Run(x, st, n - 1).log;
      assert log'[..|log|] == log;
      if k < |log| {
        forall j: nat | j < |log|
          ensures WritesNext(x, log', j, e) <==> WritesNext(x, log, j, e)
        {
          WritesSame(x, log, log', j, e);
        }
        WritesSame(x, log, log', k, e);
        RunWrote(x, st, n - 1, k, e, v);
        assert !WritesNext(x, log', |log|, e);
      }
    }
  }

  /** Run alone, a transaction finds in the store what its own log leaves there. */
  lemma {:induction false} RunLeaves(x: Txn, st: seq<Val>, n: nat, e: nat)
    requires Goes(x, st, n) && e < |st|
    ensures Left(x, Run(x, st, n).log, |Run(x, st, n).log|, e, Run(x, st, n).store[e])
  {
    var log, c := Run(x, st, n).log, Run(x, st, n).store[e];
    forall k: nat, v: Val | LastWrite(x, log, |log|, k, e) && x.body(log[..k]) == Write(e, v)
      ensures c == v
    {
      RunWrote(x, st, n, k, e, v);
    }
    if Untouched(x, log, |log|, e) {
      RunUntouched(x, st, n, e);
      forall i: nat | i < |x.locks| && i < |log| && x.locks[i].elem == e
        ensures c == log[i]
      {
        RunReadsFirst(x, st, n, i);
      }
    }
  }

  /** What entry `j` of the log has to be: the value of the element that is read, or the one that
      is written. */
  ghost predicate EntryOk(x: Txn, log: seq<Val>, j: nat)
    requires j < |log|
  {
    match x.body(log[..j])
    case Read(e) => Left(x, log, j, e, log[j])
    case Write(e, v) => log[j] == v
    case End(_) => false
  }

  lemma {:induction false} LeftLonger(x: Txn, log: seq<Val>, log': seq<Val>, e: nat, c: Val)
    requires Left(x, log, |log|, e, c) && log <= log' && |log| >= |x.locks|
    ensures Left(x, log', |log|, e, c)
  {
    forall j: nat | j < |log|
      ensures log'[..j] == log[..j] && (WritesNext(x, log', j, e) <==> WritesNext(x, log, j, e))
    {
      WritesSame(x, log, log', j, e);
    }
    forall k: nat, v: Val | LastWrite(x, log', |log|, k, e) && x.body(log'[..k]) == Write(e, v)
      ensures c == v
    {
      assert LastWrite(x, log, |log|, k, e) && x.body(log[..k]) == Write(e, v);
    }
    if Untouched(x, log', |log|, e) {
      assert Untouched(x, log, |log|, e);
      assert forall i: nat {:trigger x.locks[i]} :: i < |x.locks| ==> log'[i] == log[i];
    }
  }

  lemma {:induction false} RunEntries(x: Txn, st: seq<Val>, n: nat, j: nat)
    requires WellFormed(x, |st|) && Goes(x, st, n) && |x.locks| <= j < |x.locks| + n
    ensures EntryOk(x, Run(x, st, n).log, j)
    decreases n
  {
    GoesBefore(x, st, n);
    var log', log, p := Run(x, st, n).log, Run(x, st, n - 1).log, Run(x, st, n - 1);
    assert log'[..|log|] == log;
    if j < |log| {
      RunEntries(x, st, n - 1, j);
      assert log'[..j] == log[..j] && log'[j] == log[j];
      EntryLonger(x, log, log', j);
    } else {
      assert Legal(x, x.body(log));
      match x.body(log) {
        case Read(e) =>
          RunLeaves(x, st, n - 1, e);
          LeftLonger(x, log, log', e, p.store[e]);
        case Write(e, v) =>
        case End(_) =>
      }
    }
  }

  lemma {:induction false} EntryLonger(x: Txn, log: seq<Val>, log': seq<Val>, j: nat)
    requires log <= log' && |x.locks| <= j < |log| && EntryOk(x, log, j)
    ensures EntryOk(x, log', j)
  {
    assert log'[..j] == log[..j] && log'[j] == log[j];
    match x.body(log[..j]) {
      case Read(e) =>
        LeftCut(x, log, j, e, log[j]);
        LeftLonger(x, log[..j], log', e, log[j]);
      case Write(e, v) =>
      case End(_) =>
    }
  }

  lemma {:induction false} LeftCut(x: Txn, log: seq<Val>, j: nat, e: nat, c: Val)
    requires |x.locks| <= j <= |log| && Left(x, log, j, e, c)
    ensures Left(x, log[..j], j, e, c)
  {
    var cut := log[..j];
    forall k: nat | k < j
      ensures cut[..k] == log[..k] && (WritesNext(x, log, k, e) <==> WritesNext(x, cut, k, e))
    {
      WritesSame(x, cut, log, k, e);
    }
    forall k: nat, v: Val | LastWrite(x, cut, j, k, e) && x.body(cut[..k]) == Write(e, v)
      ensures c == v
    {
      assert LastWrite(x, log, j, k, e) && x.body(log[..k]) == Write(e, v);
    }
    if Untouched(x, cut, j, e) {
      assert Untouched(x, log, j, e);
      assert forall i: nat {:trigger x.locks[i]} :: i < |x.locks| ==> cut[i] == log[i];
    }
  }

  lemma {:induction false} HasLastWrite(x: Txn, log: seq<Val>, n: nat, e: nat) returns (k: nat)
    requires n <= |log| && !Untouched(x, log, n, e)
    ensures LastWrite(x, log, n, k, e) && x.body(log[..k]) == Write(e, x.body(log[..k]).v)
  {
    if WritesNext(x, log, n - 1, e) {
      k := n - 1;
    } else {
      k := HasLastWrite(x, log, n - 1, e);
    }
  }

  // ---- One after the other ----------------------------------------------------------------

  /** Transaction number `q` of the order commits, and has written element `e`. */
  ghost predicate Leaves(s: State, q: nat, e: nat) {
    && q < |s.order| && s.order[q] < |s.ts|
    && var th := s.ts[s.order[q]]; Commits(th.pc) && !Untouched(th.txn, th.log, |th.log|, e)
  }

  /** Of the first `m` it is the last that does. */
  ghost predicate LastToLeave(s: State, m: nat, q: nat, e: nat) {
    q < m && Leaves(s, q, e) && forall r: nat {:trigger Leaves(s, r, e)} :: q < r < m ==> !Leaves(s, r, e)
  }

  /** Transaction number `q` wrote `v` last, after the first `k` entries of its log. */
  ghost predicate WroteLast(s: State, q: nat, k: nat, e: nat, v: Val) {
    && q < |s.order| && s.order[q] < |s.ts|
    && var th := s.ts[s.order[q]]; LastWrite(th.txn, th.log, |th.log|, k, e) && th.txn.body(th.log[..k]) == Write(e, v)
  }

  /** `c` is the value that the last committed transaction to write element `e`, of the first
      `m` of the order, wrote last; or `was` if none of them writes it. */
  ghost predicate LeftByAll(s: State, m: nat, e: nat, was: Val, c: Val) {
    && (forall q: nat, k: nat, v: Val {:trigger LastToLeave(s, m, q, e), WroteLast(s, q, k, e, v)} :: LastToLeave(s, m, q, e) && WroteLast(s, q, k, e, v) ==> c == v)
    && ((forall q: nat {:trigger Leaves(s, q, e)} :: q < m ==> !Leaves(s, q, e)) ==> c == was)
  }

  /** Transaction number `q` of the order has gone as far alone as its log tells. */
  ghost predicate Gone(store: seq<Val>, s: State, q: nat) {
    && q < |s.order| && s.order[q] < |s.ts| && s.ts[s.order[q]].pos == q && !Acquiring(s.ts[s.order[q]].pc)
    && var th := s.ts[s.order[q]];
       && |th.log| >= |th.txn.locks| && WellFormed(th.txn, |store|)
       && Goes(th.txn, Pre(store, s.ts, s.order, q), Count(th)) && Run(th.txn, Pre(store, s.ts, s.order, q), Count(th)).log == th.log
  }

  lemma {:induction false} OrderedGoes(store: seq<Val>, s: State, q: nat)
    requires SerialInv(store, s) && LocksInv(s) && q < |s.order|
    ensures Gone(store, s, q)
  {
    var t := s.order[q];
    var th := s.ts[t];
    assert OrderOk(s.order, th, t) && th.pos == q;
    assert ThreadOk(s.cells, th, t);
    HereIs(store, s, t, th.txn, q, Count(th));
    assert ThreadVal(Now(store, s), Here(store, s, t), th);
  }

  ghost predicate AllGone(store: seq<Val>, s: State) {
    forall q: nat {:trigger Gone(store, s, q)} :: q < |s.order| ==> Gone(store, s, q)
  }

  lemma {:induction false} AllGo(store: seq<Val>, s: State)
    requires SerialInv(store, s) && LocksInv(s)
    ensures AllGone(store, s)
  {
    forall q: nat | q < |s.order|
      ensures Gone(store, s, q)
    {
      OrderedGoes(store, s, q);
    }
  }

  lemma {:induction false} PreLeft(store: seq<Val>, s: State, m: nat, e: nat)
    requires AllGone(store, s) && m <= |s.order| && e < |store|
    ensures LeftByAll(s, m, e, store[e], Pre(store, s.ts, s.order, m)[e])
    decreases m
  {
    if m > 0 {
      PreLeft(store, s, m - 1, e);
      assert Gone(store, s, m - 1);
      if Leaves(s, m - 1, e) {
        PreWrote(store, s, m, e);
      } else {
        PreKeeps(store, s, m, e);
        LeftByAllNext(s, m, e, store[e], Pre(store, s.ts, s.order, m - 1)[e]);
      }
    }
  }

  lemma {:induction false} PreWrote(store: seq<Val>, s: State, m: nat, e: nat)
    requires 0 < m <= |s.order| && Gone(store, s, m - 1) && e < |store| && Leaves(s, m - 1, e)
    ensures LeftByAll(s, m, e, store[e], Pre(store, s.ts, s.order, m)[e])
  {
    forall q: nat, k: nat, v: Val | LastToLeave(s, m, q, e) && WroteLast(s, q, k, e, v)
      ensures Pre(store, s.ts, s.order, m)[e] == v
    {
      assert q == m - 1;
      PreIs(store, s, m, k, e, v);
    }
  }

  lemma {:induction false} PreIs(store: seq<Val>, s: State, m: nat, k: nat, e: nat, v: Val)
    requires 0 < m <= |s.order| && Gone(store, s, m - 1) && e < |store| && Leaves(s, m - 1, e) && WroteLast(s, m - 1, k, e, v)
    ensures Pre(store, s.ts, s.order, m)[e] == v
  {
    var th := s.ts[s.order[m - 1]];
    RunWrote(th.txn, Pre(store, s.ts, s.order, m - 1), Count(th), k, e, v);
  }

  lemma {:induction false} PreKeeps(store: seq<Val>, s: State, m: nat, e: nat)
    requires 0 < m <= |s.order| && Gone(store, s, m - 1) && e < |store| && !Leaves(s, m - 1, e)
    ensures Pre(store, s.ts, s.order, m)[e] == Pre(store, s.ts, s.order, m - 1)[e]
  {
    var th := s.ts[s.order[m - 1]];
    if Commits(th.pc) {
      RunUntouched(th.txn, Pre(store, s.ts, s.order, m - 1), Count(th), e);
    }
  }

  lemma {:induction false} LeftByAllNext(s: State, m: nat, e: nat, was: Val, c: Val)
    requires m > 0 && LeftByAll(s, m - 1, e, was, c) && !Leaves(s, m - 1, e)
    ensures LeftByAll(s, m, e, was, c)
  {
    forall q: nat, k: nat, v: Val | LastToLeave(s, m, q, e) && WroteLast(s, q, k, e, v)
      ensures c == v
    {
      assert LastToLeave(s, m - 1, q, e);
    }
  }

  lemma {:induction false} HasLastToLeave(s: State, m: nat, e: nat) returns (q: nat, k: nat, v: Val)
    requires exists r: nat :: r < m && Leaves(s, r, e)
    ensures LastToLeave(s, m, q, e) && WroteLast(s, q, k, e, v)
  {
    if Leaves(s, m - 1, e) {
      q := m - 1;
      var th := s.ts[s.order[q]];
      k := HasLastWrite(th.txn, th.log, |th.log|, e);
      v := th.txn.body(th.log[..k]).v;
    } else {
      q, k, v := HasLastToLeave(s, m - 1, e);
    }
  }

  // ---- The results, in every reachable state -------------------------------------------------

  /** An element that a running transaction holds for writing has the value it wrote there last,
      or the one that tmStart returned; except between the stores of the data and the tag of a
      write of that element. */
  lemma {:induction false} HeldHasLastWrite(store: seq<Val>, txns: seq<Txn>, stale: nat, sched: seq<(nat, nat)>, t: nat, e: nat)
    requires forall k :: 0 <= k < |txns| ==> WellFormed(txns[k], |store|)
    requires Schedule(|txns|, sched) && t < |txns| && Lock(e, false) in txns[t].locks
    requires Running(Exec(Init(store, txns, stale), sched).ts[t].pc)
    ensures var s := Exec(Init(store, txns, stale), sched);
      && e < |s.cells|
      && ((s.ts[t].pc.WriteTag? && s.ts[t].pc.e == e) || Left(txns[t], s.ts[t].log, |s.ts[t].log|, e, Content(s.cells[e])))
  {
    var s := Exec(Init(store, txns, stale), sched);
    SerialAlways(store, txns, stale, sched);
    SizesStay(store, txns, stale, sched);
    HeldHasLastWriteNow(store, s, t, e);
  }

  lemma {:induction false} HeldHasLastWriteNow(store: seq<Val>, s: State, t: nat, e: nat)
    requires SerialInv(store, s) && LocksInv(s) && t < |s.ts| && Running(s.ts[t].pc) && Lock(e, false) in s.ts[t].txn.locks
    ensures e < |s.cells|
    ensures (s.ts[t].pc.WriteTag? && s.ts[t].pc.e == e) || Left(s.ts[t].txn, s.ts[t].log, |s.ts[t].log|, e, Content(s.cells[e]))
  {
    var th := s.ts[t];
    WriterHolds(s, t, e);
    assert OrderOk(s.order, th, t) && CellVal(store, s, e);
    OrderedGoes(store, s, th.pos);
    HereIs(store, s, t, th.txn, th.pos, Count(th));
    RunLeaves(th.txn, Base(store, s, t), Count(th), e);
  }

  /** Every read of a transaction is told the value it wrote there last, or the one that tmStart
      returned, and every write the value that is written. */
  lemma {:induction false} ReadsAreTold(store: seq<Val>, txns: seq<Txn>, stale: nat, sched: seq<(nat, nat)>, t: nat, j: nat)
    requires forall k :: 0 <= k < |txns| ==> WellFormed(txns[k], |store|)
    requires Schedule(|txns|, sched) && t < |txns|
    requires !Acquiring(Exec(Init(store, txns, stale), sched).ts[t].pc)
    requires |txns[t].locks| <= j < |Exec(Init(store, txns, stale), sched).ts[t].log|
    ensures EntryOk(txns[t], Exec(Init(store, txns, stale), sched).ts[t].log, j)
  {
    var s := Exec(Init(store, txns, stale), sched);
    SerialAlways(store, txns, stale, sched);
    SizesStay(store, txns, stale, sched);
    var th := s.ts[t];
    assert OrderOk(s.order, th, t);
    OrderedGoes(store, s, th.pos);
    RunEntries(th.txn, Pre(store, s.ts, s.order, th.pos), Count(th), j);
  }

  /** What tmStart returns for an element is the value left by the committed transactions before
      it in the order. */
  lemma {:induction false} StartIsTold(store: seq<Val>, txns: seq<Txn>, stale: nat, sched: seq<(nat, nat)>, t: nat, i: nat)
    requires forall k :: 0 <= k < |txns| ==> WellFormed(txns[k], |store|)
    requires Schedule(|txns|, sched) && t < |txns| && i < |txns[t].locks|
    requires !Acquiring(Exec(Init(store, txns, stale), sched).ts[t].pc)
    ensures var s, e := Exec(Init(store, txns, stale), sched), txns[t].locks[i].elem;
      0 <= s.ts[t].pos && i < |s.ts[t].log| && e < |store| && LeftByAll(s, s.ts[t].pos, e, store[e], s.ts[t].log[i])
  {
    var s := Exec(Init(store, txns, stale), sched);
    SerialAlways(store, txns, stale, sched);
    SizesStay(store, txns, stale, sched);
    var th := s.ts[t];
    assert OrderOk(s.order, th, t);
    OrderedGoes(store, s, th.pos);
    RunReadsFirst(th.txn, Pre(store, s.ts, s.order, th.pos), Count(th), i);
    AllGo(store, s);
    PreLeft(store, s, th.pos, txns[t].locks[i].elem);
  }

  lemma {:induction false} SomeoneLeft(s: State, e: nat, was: Val, c: Val)
    requires LeftByAll(s, |s.order|, e, was, c)
    ensures (exists q: nat :: q < |s.order| && Leaves(s, q, e)) ==> exists q: nat, k: nat :: LastToLeave(s, |s.order|, q, e) && WroteLast(s, q, k, e, c)
  {
    if exists q: nat :: q < |s.order| && Leaves(s, q, e) {
      var q, k, v := HasLastToLeave(s, |s.order|, e);
      assert WroteLast(s, q, k, e, c);
    }
  }

  /** Element `e` has the value that the last committed transaction of the order to write it
      wrote there last, or `was` if none writes it. */
  ghost predicate HasLast(s: State, e: nat, was: Val) {
    && e < |s.cells| && LeftByAll(s, |s.order|, e, was, Content(s.cells[e]))
    && ((exists q: nat :: q < |s.order| && Leaves(s, q, e)) ==>
         exists q: nat, k: nat :: LastToLeave(s, |s.order|, q, e) && WroteLast(s, q, k, e, Content(s.cells[e])))
  }

  /** When all transactions are done, every element has the value last written by one that
      committed, or the one it had at first. */
  lemma {:induction false} EndHasLastWrite(store: seq<Val>, txns: seq<Txn>, stale: nat, sched: seq<(nat, nat)>, e: nat)
    requires forall k :: 0 <= k < |txns| ==> WellFormed(txns[k], |store|)
    requires Schedule(|txns|, sched) && e < |store|
    requires forall t: nat :: t < |txns| ==> Exec(Init(store, txns, stale), sched).ts[t].pc.Done?
    ensures HasLast(Exec(Init(store, txns, stale), sched), e, store[e])
  {
    SerialAlways(store, txns, stale, sched);
    SizesStay(store, txns, stale, sched);
    EndHasLastWriteNow(store, Exec(Init(store, txns, stale), sched), e);
  }

  /** The transactions that have committed are those whose bodies decided to. */
  lemma {:induction false} EndsAsDecided(store: seq<Val>, txns: seq<Txn>, stale: nat, sched: seq<(nat, nat)>, t: nat)
    requires forall k :: 0 <= k < |txns| ==> WellFormed(txns[k], |store|)
    requires Schedule(|txns|, sched) && t < |txns| && Exec(Init(store, txns, stale), sched).ts[t].pc.Done?
    ensures var th := Exec(Init(store, txns, stale), sched).ts[t];
      txns[t].body(th.log) == End(th.pc.commit) && (Commits(th.pc) <==> th.pc.commit)
  {
    var s := Exec(Init(store, txns, stale), sched);
    SerialAlways(store, txns, stale, sched);
    SizesStay(store, txns, stale, sched);
    EndsNow(store, s, t);
  }

  lemma {:induction false} EndsNow(store: seq<Val>, s: State, t: nat)
    requires SerialInv(store, s) && t < |s.ts| && s.ts[t].pc.Done?
    ensures s.ts[t].txn.body(s.ts[t].log) == End(s.ts[t].pc.commit)
  {
    assert ThreadVal(Now(store, s), Here(store, s, t), s.ts[t]);
  }

  lemma {:induction false} EndHasLastWriteNow(store: seq<Val>, s: State, e: nat)
    requires SerialInv(store, s) && LocksInv(s) && e < |s.cells|
    requires forall t: nat :: t < |s.ts| ==> s.ts[t].pc.Done?
    ensures HasLast(s, e, store[e])
  {
    DoneCell(store, s, e);
    AllGo(store, s);
    PreLeft(store, s, |s.order|, e);
    SomeoneLeft(s, e, store[e], Content(s.cells[e]));
  }
}
