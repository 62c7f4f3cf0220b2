/** The main results about transactions: serializability, in the order in which the last
    locks were acquired, and what running and aborted transactions see. */
module Serializability {
  import opened Tags
  import opened Transactions
  import opened TxnLocks
  import opened TxnSerial
  import opened TxnSerializable

  lemma {:induction false} AcquireKeepsSerial(store: seq<Val>, s: State, t: nat, stale: nat)
    requires SerialInv(store, s) && LocksInv(s) && t < |s.ts| && Acquiring(s.ts[t].pc)
    ensures SerialInv(store, StepAcquire(s, t, stale))
  {
    var th := s.ts[t];
    if th.pc.AcqNone? {
      LastLockKeepsSerial(store, s, t, stale);
    } else if th.pc.AcqStore? {
      if th.pc.i + 1 == |th.txn.locks| {
        LastLockKeepsSerial(store, s, t, stale);
      } else {
        AcqNext(store, s, t, stale);
      }
    } else {
      AcqQuiet(store, s, t, stale);
    }
  }

  lemma {:induction false} BodyKeepsSerial(store: seq<Val>, s: State, t: nat)
    requires SerialInv(store, s) && LocksInv(s) && t < |s.ts| && Running(s.ts[t].pc)
    ensures SerialInv(store, StepBody(s, t))
  {
    var th := s.ts[t];
    if th.pc.BodyRead? {
      ReadKeepsSerial(store, s, t);
    } else if th.pc.WriteData? {
      WriteDataKeepsSerial(store, s, t);
    } else if th.pc.WriteTag? {
      WriteTagKeepsSerial(store, s, t);
    } else {
      match th.txn.body(th.log)
      case End(commit) =>
        if commit { CommitKeepsSerial(store, s, t); } else { AbortKeepsSerial(store, s, t); }
      case _ => BodyQuiet(store, s, t);
    }
  }

  lemma {:induction false} StepKeepsSerial(store: seq<Val>, s: State, t: nat, stale: nat)
    requires SerialInv(store, s) && LocksInv(s) && t < |s.ts|
    ensures SerialInv(store, Step(s, t, stale))
  {
    if Acquiring(s.ts[t].pc) {
      AcquireKeepsSerial(store, s, t, stale);
    } else if Running(s.ts[t].pc) {
      BodyKeepsSerial(store, s, t);
    } else if s.ts[t].pc.BackData? || s.ts[t].pc.BackStore? {
      BackDataKeepsSerial(store, s, t);
    } else {
      EndQuiet(store, s, t);
    }
  }

  lemma {:induction false} SerialAlways(store: seq<Val>, txns: seq<Txn>, stale: nat, sched: seq<(nat, nat)>)
    requires forall k :: 0 <= k < |txns| ==> WellFormed(txns[k], |store|)
    requires Schedule(|txns|, sched)
    ensures SerialInv(store, Exec(Init(store, txns, stale), sched)) && LocksInv(Exec(Init(store, txns, stale), sched))
    decreases |sched|
  {
    LocksAlways(store, txns, stale, sched);
    if sched == [] {
      InitSerial(store, txns, stale);
    } else {
      var k := |sched| - 1;
      SerialAlways(store, txns, stale, sched[..k]);
      StepKeepsSerial(store, Exec(Init(store, txns, stale), sched[..k]), sched[k].0, sched[k].1);
    }
  }

  lemma {:induction false} InitSerial(store: seq<Val>, txns: seq<Txn>, stale: nat)
    ensures SerialInv(store, Init(store, txns, stale))
  {
    var s := Init(store, txns, stale);
    forall e: nat | e < |store|
      ensures CellVal(store, s, e)
    {
      DecodeOwnType(store[e]);
    }
  }

  // ---- The results ----------------------------------------------------------------------

  /** Running transaction `x` alone from `st` to its end leaves `st'`: what it wrote if it
      commits, and `st` itself if it aborts. */
  ghost predicate Outcome(x: Txn, st: seq<Val>, st': seq<Val>, commit: bool) {
    exists n: nat ::
      && x.body(Run(x, st, n).log) == End(commit)
      && st' == if commit then Run(x, st, n).store else st
  }

  /** The transactions of the order run one after the other, from each store to the next. */
  ghost predicate OneByOne(txns: seq<Txn>, order: seq<nat>, stores: seq<seq<Val>>, commits: seq<bool>) {
    && |stores| == |order| + 1
    && forall k: nat {:trigger order[k]} :: k < |order| ==>
         order[k] < |txns| && order[k] < |commits| && Outcome(txns[order[k]], stores[k], stores[k + 1], commits[order[k]])
  }

  /** Every one of `n` threads is in the order, once. */
  ghost predicate Permutes(order: seq<nat>, n: nat) {
    && (forall k: nat :: k < |order| ==> order[k] < n)
    && (forall j: nat, k: nat :: j < k < |order| ==> order[j] != order[k])
    && (forall t: nat :: t < n ==> t in order)
  }

  /** How each transaction ended. */
  function Decisions(ts: seq<Thread>): seq<bool> {
    seq(|ts|, t requires 0 <= t < |ts| => Commits(ts[t].pc))
  }

  function Contents(s: State): seq<Val> {
    seq(|s.cells|, e requires 0 <= e < |s.cells| => Content(s.cells[e]))
  }

  /** Whatever the interleaving, once all transactions are done every element is full and
      holds what it holds after running them one at a time in the order in which they
      acquired their last locks, the aborted ones without effect. */
  lemma {:induction false} Serializable(store: seq<Val>, txns: seq<Txn>, stale: nat, sched: seq<(nat, nat)>)
    requires forall k :: 0 <= k < |txns| ==> WellFormed(txns[k], |store|)
    requires Schedule(|txns|, sched)
    requires forall t: nat :: t < |txns| ==> Exec(Init(store, txns, stale), sched).ts[t].pc.Done?
    ensures var s := Exec(Init(store, txns, stale), sched);
      && Permutes(s.order, |txns|)
      && (forall e: nat :: e < |s.cells| ==> s.cells[e].tag.fe == Full && s.cells[e].tag.rw == 0)
      && exists stores: seq<seq<Val>> :: OneByOne(txns, s.order, stores, Decisions(s.ts)) && stores[0] == store && stores[|s.order|] == Contents(s)
  {
    var s := Exec(Init(store, txns, stale), sched);
    SerialAlways(store, txns, stale, sched);
    SizesStay(store, txns, stale, sched);
    DonePermutes(s);
    forall e: nat | e < |s.cells|
      ensures s.cells[e].tag.fe == Full && s.cells[e].tag.rw == 0
    {
      DoneCell(store, s, e);
    }
    DoneContents(store, s);
    DoneOneByOne(store, txns, s);
    assert Stores(store, s)[0] == store && Stores(store, s)[|s.order|] == Contents(s);
  }

  /** The stores between the transactions of the order. */
  function Stores(store: seq<Val>, s: State): (r: seq<seq<Val>>)
    ensures |r| == |s.order| + 1
  {
    seq(|s.order| + 1, k requires 0 <= k <= |s.order| => Pre(store, s.ts, s.order, k))
  }

  lemma {:induction false} DoneOneByOne(store: seq<Val>, txns: seq<Txn>, s: State)
    requires SerialInv(store, s) && LocksInv(s)
    requires |s.ts| == |txns| && forall t: nat :: t < |s.ts| ==> s.ts[t].pc.Done? && s.ts[t].txn == txns[t]
    ensures OneByOne(txns, s.order, Stores(store, s), Decisions(s.ts))
  {
    forall k: nat | k < |s.order|
      ensures s.order[k] < |txns| && Outcome(txns[s.order[k]], Stores(store, s)[k], Stores(store, s)[k + 1], Decisions(s.ts)[s.order[k]])
    {
      DoneOutcome(store, s, k);
      StoresStep(store, txns, s, k);
    }
  }

  lemma {:induction false} StoresStep(store: seq<Val>, txns: seq<Txn>, s: State, k: nat)
    requires k < |s.order| && s.order[k] < |s.ts| == |txns| && s.ts[s.order[k]].txn == txns[s.order[k]]
    requires Outcome(s.ts[s.order[k]].txn, Pre(store, s.ts, s.order, k), Pre(store, s.ts, s.order, k + 1), Commits(s.ts[s.order[k]].pc))
    ensures Outcome(txns[s.order[k]], Stores(store, s)[k], Stores(store, s)[k + 1], Decisions(s.ts)[s.order[k]])
  {}

  lemma {:induction false} DoneContents(store: seq<Val>, s: State)
    requires SerialInv(store, s) && LocksInv(s)
    requires forall t: nat :: t < |s.ts| ==> s.ts[t].pc.Done?
    ensures Contents(s) == Now(store, s)
  {
    forall e: nat | e < |s.cells|
      ensures Content(s.cells[e]) == Now(store, s)[e]
    {
      DoneCell(store, s, e);
    }
  }

  lemma {:induction false} DonePermutes(s: State)
    requires Ordered(s) && forall t: nat :: t < |s.ts| ==> s.ts[t].pc.Done?
    ensures Permutes(s.order, |s.ts|)
  {
    forall t: nat | t < |s.ts|
      ensures t in s.order
    {
      assert OrderOk(s.order, s.ts[t], t);
    }
    forall j: nat, k: nat | j < k < |s.order|
      ensures s.order[j] != s.order[k]
    {
      assert s.ts[s.order[j]].pos == j && s.ts[s.order[k]].pos == k;
    }
  }

  lemma {:induction false} DoneCell(store: seq<Val>, s: State, e: nat)
    requires SerialInv(store, s) && LocksInv(s) && e < |s.cells|
    requires forall t: nat :: t < |s.ts| ==> s.ts[t].pc.Done?
    ensures s.cells[e].tag.fe == Full && s.cells[e].tag.rw == 0 && Content(s.cells[e]) == Now(store, s)[e]
  {
    DoneFree(s, e);
    assert CellVal(store, s, e);
  }

  lemma {:induction false} DoneFree(s: State, e: nat)
    requires LocksInv(s) && e < |s.cells|
    requires forall t: nat :: t < |s.ts| ==> s.ts[t].pc.Done?
    ensures s.cells[e].writer == -1 && s.cells[e].tag.fe == Full && s.cells[e].tag.rw == 0
  {
    BusyHasOwner(s, e);
    HoldersOf(s, e);
    assert CellOk(s.cells[e]);
  }

  lemma {:induction false} DoneOutcome(store: seq<Val>, s: State, k: nat)
    requires SerialInv(store, s) && LocksInv(s) && k < |s.order|
    requires forall t: nat :: t < |s.ts| ==> s.ts[t].pc.Done?
    ensures s.order[k] < |s.ts|
    ensures Outcome(s.ts[s.order[k]].txn, Pre(store, s.ts, s.order, k), Pre(store, s.ts, s.order, k + 1), Commits(s.ts[s.order[k]].pc))
  {
    var t := s.order[k];
    var th := s.ts[t];
    assert th.pos == k && ThreadOk(s.cells, th, t);
    HereIs(store, s, t, th.txn, k, Count(th));
    assert ThreadVal(Now(store, s), Here(store, s, t), th);
    var n: nat := Count(th);
    assert th.txn.body(Run(th.txn, Pre(store, s.ts, s.order, k), n).log) == End(Commits(th.pc));
  }

  /** Thread `t`, running `x`, has seen exactly what `x` sees running alone after the
      committed transactions before it in the order. */
  ghost predicate SeesAlone(store: seq<Val>, s: State, t: nat, x: Txn)
    requires t < |s.ts|
  {
    var th := s.ts[t];
    && 0 <= th.pos < |s.order| && s.order[th.pos] == t
    && |th.log| >= |x.locks|
    && th.log == Run(x, Pre(store, s.ts, s.order, th.pos), |th.log| - |x.locks|).log
  }

  /** At every moment of every run, a transaction that has all its locks, also one that is
      still running or aborts, has seen exactly what it sees running alone. */
  lemma {:induction false} SeesSerialStore(store: seq<Val>, txns: seq<Txn>, stale: nat, sched: seq<(nat, nat)>, t: nat)
    requires forall k :: 0 <= k < |txns| ==> WellFormed(txns[k], |store|)
    requires Schedule(|txns|, sched) && t < |txns|
    requires !Acquiring(Exec(Init(store, txns, stale), sched).ts[t].pc)
    ensures SeesAlone(store, Exec(Init(store, txns, stale), sched), t, txns[t])
  {
    SerialAlways(store, txns, stale, sched);
    SizesStay(store, txns, stale, sched);
    SeesSerialHere(store, Exec(Init(store, txns, stale), sched), t, txns[t]);
  }

  lemma {:induction false} SeesSerialHere(store: seq<Val>, s: State, t: nat, x: Txn)
    requires SerialInv(store, s) && LocksInv(s) && t < |s.ts| && !Acquiring(s.ts[t].pc) && s.ts[t].txn == x
    ensures SeesAlone(store, s, t, x)
  {
    LogComplete(s, t);
    assert OrderOk(s.order, s.ts[t], t);
    assert ThreadVal(Now(store, s), Here(store, s, t), s.ts[t]);
    SeesFrom(store, s, t, x);
  }

  lemma {:induction false} SeesFrom(store: seq<Val>, s: State, t: nat, x: Txn)
    requires t < |s.ts| && !Acquiring(s.ts[t].pc) && s.ts[t].txn == x && |s.ts[t].log| >= |x.locks|
    requires OrderOk(s.order, s.ts[t], t) && s.ts[t].log == Here(store, s, t).log
    ensures SeesAlone(store, s, t, x)
  {
    HereIs(store, s, t, x, s.ts[t].pos, |s.ts[t].log| - |x.locks|);
  }

  lemma {:induction false} LogComplete(s: State, t: nat)
    requires LocksInv(s) && t < |s.ts| && !Acquiring(s.ts[t].pc)
    ensures |s.ts[t].log| >= |s.ts[t].txn.locks|
  {
    assert ThreadOk(s.cells, s.ts[t], t);
  }

  // ---- The order respects time ---------------------------------------------------------

  lemma {:induction false} OrderGrows(store: seq<Val>, txns: seq<Txn>, stale: nat, sched: seq<(nat, nat)>, j: nat)
    requires Schedule(|txns|, sched) && j <= |sched|
    ensures Exec(Init(store, txns, stale), sched[..j]).order <= Exec(Init(store, txns, stale), sched).order
    decreases |sched|
  {
    if j == |sched| {
      assert sched[..j] == sched;
    } else {
      var k := |sched| - 1;
      OrderGrows(store, txns, stale, sched[..k], j);
      assert sched[..k][..j] == sched[..j];
      StepOrder(Exec(Init(store, txns, stale), sched[..k]), sched[k].0, sched[k].1);
    }
  }

  lemma {:induction false} StepOrder(s: State, t: nat, stale: nat)
    requires t < |s.ts|
    ensures s.order <= Step(s, t, stale).order
  {
    assert s.order <= StepAcquire(s, t, stale).order;
    assert StepBody(s, t).order == s.order;
    assert StepBack(s, t).order == s.order;
  }

  ghost predicate Precedes(order: seq<nat>, t: nat, u: nat) {
    exists a: nat, b: nat :: a < b < |order| && order[a] == t && order[b] == u
  }

  lemma {:induction false} EntersLater(s0: State, s: State, t: nat, u: nat)
    requires Ordered(s0) && Ordered(s) && s0.order <= s.order && |s0.ts| == |s.ts| && t < |s.ts| && u < |s.ts|
    requires !Acquiring(s0.ts[t].pc) && Acquiring(s0.ts[u].pc) && !Acquiring(s.ts[u].pc)
    ensures Precedes(s.order, t, u)
  {
    assert OrderOk(s0.order, s0.ts[t], t) && OrderOk(s0.order, s0.ts[u], u) && OrderOk(s.order, s.ts[u], u);
    var a: nat, b: nat := s0.ts[t].pos, s.ts[u].pos;
    assert forall k: nat :: k < |s0.order| ==> s0.order[k] == s.order[k] != u;
    assert a < b < |s.order| && s.order[a] == t && s.order[b] == u;
  }

  /** A transaction that has all its locks while another still lacks some comes before it;
      so one that is done comes before every one that starts later. */
  lemma {:induction false} OrderRespectsTime(store: seq<Val>, txns: seq<Txn>, stale: nat, sched: seq<(nat, nat)>, j: nat, t: nat, u: nat)
    requires forall k :: 0 <= k < |txns| ==> WellFormed(txns[k], |store|)
    requires Schedule(|txns|, sched) && j <= |sched| && t < |txns| && u < |txns|
    requires !Acquiring(Exec(Init(store, txns, stale), sched[..j]).ts[t].pc)
    requires Acquiring(Exec(Init(store, txns, stale), sched[..j]).ts[u].pc)
    requires !Acquiring(Exec(Init(store, txns, stale), sched).ts[u].pc)
    ensures Precedes(Exec(Init(store, txns, stale), sched).order, t, u)
  {
    SerialAlways(store, txns, stale, sched[..j]);
    SerialAlways(store, txns, stale, sched);
    OrderGrows(store, txns, stale, sched, j);
    EntersLater(Exec(Init(store, txns, stale), sched[..j]), Exec(Init(store, txns, stale), sched), t, u);
  }
}
