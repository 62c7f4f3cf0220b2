/** The invariant behind serializability, and the theorems it gives. */
module TxnSerializable {
  import opened Tags
  import opened Transactions
  import opened TxnLocks
  import opened TxnSerial

  // ---- The invariant ----------------------------------------------------------------

  /** A transaction is in the order, once, from the moment it has all its locks. */
  predicate OrderOk(order: seq<nat>, th: Thread, t: nat) {
    if Acquiring(th.pc) then th.pos == -1
    else 0 <= th.pos < |order| && order[th.pos] == t
  }

  ghost predicate Ordered(s: State) {
    && (forall t: nat {:trigger s.ts[t]} :: t < |s.ts| ==> OrderOk(s.order, s.ts[t], t))
    && (forall k: nat {:trigger s.order[k]} :: k < |s.order| ==> s.order[k] < |s.ts| && s.ts[s.order[k]].pos == k)
  }

  /** Thread `u` entered the order after thread `t`, which still runs. */
  predicate EnteredDuring(s: State, t: nat, u: nat) {
    t < |s.ts| && u < |s.ts| && Running(s.ts[t].pc) && s.ts[u].pos > s.ts[t].pos
  }

  /** Nothing that entered after a transaction that still runs conflicts with it. */
  ghost predicate Apart(s: State) {
    forall t: nat, u: nat {:trigger EnteredDuring(s, t, u)} :: EnteredDuring(s, t, u) ==> NoConflict(s.ts[t].txn, s.ts[u].txn)
  }

  /** What a transaction has seen is what it sees in the serial execution. */
  ghost predicate ThreadVal(now: seq<Val>, here: Solo, th: Thread) {
    if Acquiring(th.pc) then
      forall i: nat :: i < |th.log| && i < |th.txn.locks| ==> th.log[i] == At(now, th.txn.locks[i].elem)
    else
      && th.log == here.log
      && (!Running(th.pc) ==> th.txn.body(th.log) == End(Commits(th.pc)))
      && (Aborts(th.pc) ==> forall i: nat {:trigger Holding(th, i)} :: Holding(th, i) && i < |th.log| && !th.txn.locks[i].ro ==> th.log[i] == At(now, th.txn.locks[i].elem))
  }

  /** What an element holds is what it holds in the serial execution: after the last
      committed transaction, or in the middle of the transaction that holds it. */
  ghost predicate CellVal(store: seq<Val>, s: State, e: nat)
    requires e < |s.cells|
  {
    var c := s.cells[e];
    if 0 <= c.writer < |s.ts| && Aborts(s.ts[c.writer].pc) then true
    else if 0 <= c.writer < |s.ts| && Running(s.ts[c.writer].pc) then
      || (s.ts[c.writer].pc.WriteTag? && s.ts[c.writer].pc.e == e)
      || Content(c) == At(Here(store, s, c.writer).store, e)
    else Content(c) == At(Now(store, s), e)
  }

  ghost predicate SerialInv(store: seq<Val>, s: State) {
    && |store| == |s.cells|
    && Ordered(s) && Apart(s)
    && (forall t: nat {:trigger s.ts[t]} :: t < |s.ts| ==> ThreadVal(Now(store, s), Here(store, s, t), s.ts[t]))
    && (forall e: nat {:trigger s.cells[e]} :: e < |s.cells| ==> CellVal(store, s, e))
  }

  lemma {:induction false} HereIs(store: seq<Val>, s: State, t: nat, x: Txn, k: int, n: int)
    requires t < |s.ts| && s.ts[t].txn == x && s.ts[t].pos == k && |s.ts[t].log| - |x.locks| == n
    ensures Here(store, s, t) == Run(x, Pre(store, s.ts, s.order, k), n)
    ensures Base(store, s, t) == Pre(store, s.ts, s.order, k)
  {}

  // ---- Steps that change nothing in the serial execution -----------------------------

  /** Thread `t` moves without entering the order or committing. */
  ghost predicate Moves(s: State, t: nat, s': State)
    requires t < |s.ts|
  {
    && |s'.ts| == |s.ts| && |s'.cells| == |s.cells| && s'.order == s.order
    && s'.ts == s.ts[t := s'.ts[t]]
    && SameEffect(s.ts[t], s'.ts[t])
    && s'.ts[t].txn == s.ts[t].txn && s'.ts[t].pos == s.ts[t].pos
    && Acquiring(s'.ts[t].pc) == Acquiring(s.ts[t].pc)
    && (Running(s'.ts[t].pc) ==> Running(s.ts[t].pc))
  }

  lemma {:induction false} SameStores(store: seq<Val>, s: State, t: nat, s': State)
    requires t < |s.ts| && Moves(s, t, s')
    ensures Now(store, s') == Now(store, s)
    ensures forall u: nat :: u < |s.ts| ==> Base(store, s', u) == Base(store, s, u)
    ensures forall u: nat :: u < |s.ts| && u != t ==> Here(store, s', u) == Here(store, s, u)
    ensures Here(store, s, t) == Run(s.ts[t].txn, Base(store, s, t), Count(s.ts[t]))
    ensures Here(store, s', t) == Run(s.ts[t].txn, Base(store, s, t), Count(s'.ts[t]))
    ensures s'.ts[t].log == s.ts[t].log ==> Here(store, s', t) == Here(store, s, t)
  {
    PreSame(store, s.ts, s'.ts, s.order, s.order, |s.order|);
    forall u: nat | u < |s.ts|
      ensures Base(store, s', u) == Base(store, s, u)
    {
      if s.ts[u].pos <= |s.order| {
        PreSame(store, s.ts, s'.ts, s.order, s.order, s.ts[u].pos);
      }
    }
  }

  /** A move of thread `t` that changes at most cell `e` keeps the invariant if it is right
      about `t`, `e` and the cells `t` writes. */
  lemma {:induction false} SerialRejoin(store: seq<Val>, s: State, t: nat, e: nat, s': State)
    requires SerialInv(store, s) && t < |s.ts| && Moves(s, t, s')
    requires forall f: nat :: f < |s.cells| && f != e ==> s'.cells[f] == s.cells[f]
    requires ThreadVal(Now(store, s), Here(store, s', t), s'.ts[t])
    requires forall f: nat :: f < |s.cells| && (f == e || s.cells[f].writer == t) ==> CellVal(store, s', f)
    ensures SerialInv(store, s')
  {
    SameStores(store, s, t, s');
    forall f: nat | f < |s.cells|
      ensures CellVal(store, s', f)
    {
      if f != e && s.cells[f].writer != t {
        assert CellVal(store, s, f);
      }
    }
    forall u: nat, v: nat | EnteredDuring(s', u, v)
      ensures NoConflict(s'.ts[u].txn, s'.ts[v].txn)
    {
      assert EnteredDuring(s, u, v);
    }
    forall u: nat | u < |s.ts|
      ensures ThreadVal(Now(store, s'), Here(store, s', u), s'.ts[u])
    {
      if u != t { assert s'.ts[u] == s.ts[u]; }
    }
  }

  /** The pc moves within its phase, and at most the tag of cell `e` changes, not its content. */
  ghost predicate QuietMove(s: State, t: nat, e: nat, s': State)
    requires t < |s.ts|
  {
    && Moves(s, t, s')
    && s'.ts[t].log == s.ts[t].log && !s.ts[t].pc.WriteTag?
    && Running(s'.ts[t].pc) == Running(s.ts[t].pc)
    && (forall f: nat :: f < |s.cells| && f != e ==> s'.cells[f] == s.cells[f])
    && (e < |s.cells| ==>
         && Content(s'.cells[e]) == Content(s.cells[e])
         && (s'.cells[e].writer == s.cells[e].writer ||
             (s.cells[e].writer == t && s'.cells[e].writer == -1 && Commits(s.ts[t].pc))))
  }

  lemma {:induction false} QuietCell(store: seq<Val>, s: State, t: nat, e: nat, s': State, f: nat)
    requires SerialInv(store, s) && t < |s.ts| && QuietMove(s, t, e, s')
    requires f < |s.cells| && (f == e || s.cells[f].writer == t)
    ensures CellVal(store, s', f)
  {
    SameStores(store, s, t, s');
    assert CellVal(store, s, f);
    var w := s.cells[f].writer;
    var now, now' := At(Now(store, s), f), At(Now(store, s'), f);
    assert now == now' && Content(s'.cells[f]) == Content(s.cells[f]);
    if w == t {
      var here := At(Here(store, s, t).store, f);
    } else if 0 <= w < |s.ts| {
      assert s'.ts[w] == s.ts[w];
      assert Here(store, s', w) == Here(store, s, w);
    }
  }

  lemma {:induction false} QuietThread(store: seq<Val>, s: State, t: nat, e: nat, s': State)
    requires SerialInv(store, s) && t < |s.ts| && QuietMove(s, t, e, s')
    requires forall i: nat {:trigger Holding(s'.ts[t], i)} :: Holding(s'.ts[t], i) && Aborts(s.ts[t].pc) ==> Holding(s.ts[t], i)
    ensures ThreadVal(Now(store, s), Here(store, s', t), s'.ts[t])
  {
    SameStores(store, s, t, s');
    assert ThreadVal(Now(store, s), Here(store, s, t), s.ts[t]);
  }

  lemma {:induction false} Quiet(store: seq<Val>, s: State, t: nat, e: nat, s': State)
    requires SerialInv(store, s) && t < |s.ts| && QuietMove(s, t, e, s')
    requires forall i: nat {:trigger Holding(s'.ts[t], i)} :: Holding(s'.ts[t], i) && Aborts(s.ts[t].pc) ==> Holding(s.ts[t], i)
    ensures SerialInv(store, s')
  {
    QuietThread(store, s, t, e, s');
    forall f: nat | f < |s.cells| && (f == e || s.cells[f].writer == t)
      ensures CellVal(store, s', f)
    {
      QuietCell(store, s, t, e, s', f);
    }
    SerialRejoin(store, s, t, e, s');
  }

  // ---- Acquiring ----------------------------------------------------------------------

  lemma {:induction false} AcqQuiet(store: seq<Val>, s: State, t: nat, stale: nat)
    requires SerialInv(store, s) && LocksInv(s) && t < |s.ts|
    requires s.ts[t].pc.AcqLoad? || s.ts[t].pc.AcqSwap? || s.ts[t].pc.AcqData?
    ensures SerialInv(store, StepAcquire(s, t, stale))
  {
    var th := s.ts[t];
    assert ThreadOk(s.cells, th, t);
    Quiet(store, s, t, th.txn.locks[th.pc.i].elem, StepAcquire(s, t, stale));
  }

  /** The value of an element that is being locked is its current one. */
  lemma {:induction false} GotIsNow(store: seq<Val>, s: State, t: nat)
    requires SerialInv(store, s) && LocksInv(s) && t < |s.ts| && s.ts[t].pc.AcqStore?
    ensures Indexed(s.ts[t], s.ts[t].pc.i, |s.cells|) && |s.ts[t].log| == s.ts[t].pc.i
    ensures var e := s.ts[t].txn.locks[s.ts[t].pc.i].elem;
      s.cells[e].writer == -1 && s.ts[t].pc.got == Content(s.cells[e]) == At(Now(store, s), e) && s.ts[t].pc.held.typ == s.cells[e].tag.typ
  {
    assert ThreadOk(s.cells, s.ts[t], t);
    assert CellVal(store, s, s.ts[t].txn.locks[s.ts[t].pc.i].elem);
  }

  lemma {:induction false} AcqNext(store: seq<Val>, s: State, t: nat, stale: nat)
    requires SerialInv(store, s) && LocksInv(s) && t < |s.ts| && s.ts[t].pc.AcqStore?
    requires s.ts[t].pc.i + 1 != |s.ts[t].txn.locks|
    ensures SerialInv(store, StepAcquire(s, t, stale))
  {
    var s', th := StepAcquire(s, t, stale), s.ts[t];
    GotIsNow(store, s, t);
    var e := th.txn.locks[th.pc.i].elem;
    SameStores(store, s, t, s');
    assert ThreadVal(Now(store, s), Here(store, s, t), th);
    forall f: nat | f < |s.cells| && (f == e || s.cells[f].writer == t)
      ensures CellVal(store, s', f)
    {
      assert CellVal(store, s, f);
    }
    SerialRejoin(store, s, t, e, s');
  }

  // ---- Body -----------------------------------------------------------------------------

  lemma {:induction false} BodyQuiet(store: seq<Val>, s: State, t: nat)
    requires SerialInv(store, s) && LocksInv(s) && t < |s.ts| && s.ts[t].pc.Body? && !s.ts[t].txn.body(s.ts[t].log).End?
    ensures SerialInv(store, StepBody(s, t))
  {
    Quiet(store, s, t, |s.cells|, StepBody(s, t));
  }

  /** What a running transaction holds has not changed since its place in the order. */
  lemma {:induction false} BaseIsNow(store: seq<Val>, s: State, t: nat, e: nat)
    requires SerialInv(store, s) && LocksInv(s) && t < |s.ts| && Running(s.ts[t].pc)
    requires e < |s.cells| && Locks(s.ts[t].txn, e)
    ensures Now(store, s)[e] == Base(store, s, t)[e]
    ensures Here(store, s, t) == Run(s.ts[t].txn, Base(store, s, t), Count(s.ts[t]))
  {
    var x, k := s.ts[t].txn, s.ts[t].pos;
    assert OrderOk(s.order, s.ts[t], t) && s.order[k] == t;
    forall u: nat | u < |s.ts|
      ensures WellFormed(s.ts[u].txn, |store|)
    {
      assert ThreadOk(s.cells, s.ts[u], u);
    }
    forall j: nat | k <= j < |s.order| && s.order[j] < |s.ts| && Commits(s.ts[s.order[j]].pc)
      ensures NoConflict(x, s.ts[s.order[j]].txn)
    {
      assert j != k && s.ts[s.order[j]].pos == j;
      assert EnteredDuring(s, t, s.order[j]);
    }
    BaseStays(store, s.ts, s.order, x, k, |s.order|, e);
  }

  lemma {:induction false} OneLock(x: Txn, size: nat, i: nat, e: nat)
    requires WellFormed(x, size) && i < |x.locks| && x.locks[i].elem == e
    ensures Writes(x, e) <==> !x.locks[i].ro
  {
    assert !x.locks[i].ro ==> x.locks[i] == Lock(e, false);
  }

  /** A held element holds what the transaction sees in it when running alone. */
  lemma {:induction false} HeldContent(store: seq<Val>, s: State, t: nat, e: nat)
    requires SerialInv(store, s) && LocksInv(s) && t < |s.ts| && Running(s.ts[t].pc) && !s.ts[t].pc.WriteTag?
    requires e < |s.cells| && Locks(s.ts[t].txn, e)
    ensures Content(s.cells[e]) == At(Here(store, s, t).store, e)
  {
    var th := s.ts[t];
    assert ThreadOk(s.cells, th, t);
    var i: nat :| i < |th.txn.locks| && th.txn.locks[i].elem == e;
    var l := th.txn.locks[i];
    assert Holding(th, i) && l == Lock(e, l.ro);
    assert Match(s.cells[e], th, t, e) && CellOk(s.cells[e]) && CellVal(store, s, e);
    if l.ro {
      assert s.cells[e].writer == -1;
      BaseIsNow(store, s, t, e);
      OneLock(th.txn, |s.cells|, i, e);
      RunFrame(th.txn, Base(store, s, t), Count(th), e);
    } else {
      assert s.cells[e].writer == t;
    }
  }

  /** A running transaction that completes an action is one action further when run alone. */
  lemma {:induction false} HereMore(store: seq<Val>, s: State, t: nat, s': State, v: Val)
    requires t < |s.ts| && Moves(s, t, s') && Running(s.ts[t].pc)
    requires |s.ts[t].log| >= |s.ts[t].txn.locks| && s'.ts[t].log == s.ts[t].log + [v]
    requires s.ts[t].log == Here(store, s, t).log
    ensures match s.ts[t].txn.body(s.ts[t].log)
            case Read(e) => Here(store, s', t) == Solo(Here(store, s, t).store, s.ts[t].log + [At(Here(store, s, t).store, e)])
            case Write(e, w) => Here(store, s', t) == Solo(Put(Here(store, s, t).store, e, w), s.ts[t].log + [w])
            case End(_) => true
  {
    var x, k, n := s.ts[t].txn, s.ts[t].pos, Count(s.ts[t]);
    SameStores(store, s, t, s');
    HereIs(store, s, t, x, k, n);
    HereIs(store, s', t, x, k, n + 1);
  }

  lemma {:induction false} ReadFacts(store: seq<Val>, s: State, t: nat)
    requires SerialInv(store, s) && LocksInv(s) && t < |s.ts| && s.ts[t].pc.BodyRead?
    ensures var th := s.ts[t];
      && |th.log| >= |th.txn.locks| && th.txn.body(th.log) == Read(th.pc.e) && th.pc.e < |s.cells|
      && Decode(th.pc.typ, s.cells[th.pc.e].word) == At(Here(store, s, t).store, th.pc.e)
  {
    var th := s.ts[t];
    assert ThreadOk(s.cells, th, t);
    assert Legal(th.txn, th.txn.body(th.log));
    assert Locks(th.txn, th.pc.e);
    HeldContent(store, s, t, th.pc.e);
  }

  lemma {:induction false} ReadKeepsSerial(store: seq<Val>, s: State, t: nat)
    requires SerialInv(store, s) && LocksInv(s) && t < |s.ts| && s.ts[t].pc.BodyRead?
    ensures SerialInv(store, StepBody(s, t))
  {
    var s', th := StepBody(s, t), s.ts[t];
    ReadFacts(store, s, t);
    SameStores(store, s, t, s');
    assert ThreadVal(Now(store, s), Here(store, s, t), th);
    HereMore(store, s, t, s', Decode(th.pc.typ, s.cells[th.pc.e].word));
    forall f: nat | f < |s.cells| && s.cells[f].writer == t
      ensures CellVal(store, s', f)
    {
      assert CellVal(store, s, f);
    }
    SerialRejoin(store, s, t, |s.cells|, s');
  }

  lemma {:induction false} WriteDataKeepsSerial(store: seq<Val>, s: State, t: nat)
    requires SerialInv(store, s) && LocksInv(s) && t < |s.ts| && s.ts[t].pc.WriteData?
    ensures SerialInv(store, StepBody(s, t))
  {
    var s', th := StepBody(s, t), s.ts[t];
    var e := th.pc.e;
    assert ThreadOk(s.cells, th, t);
    assert Legal(th.txn, th.txn.body(th.log));
    WriterHolds(s, t, e);
    SameStores(store, s, t, s');
    assert ThreadVal(Now(store, s), Here(store, s, t), th);
    forall f: nat | f < |s.cells| && (f == e || s.cells[f].writer == t)
      ensures CellVal(store, s', f)
    {
      assert CellVal(store, s, f);
    }
    SerialRejoin(store, s, t, e, s');
  }

  lemma {:induction false} WriteTagFacts(s: State, t: nat)
    requires LocksInv(s) && t < |s.ts| && s.ts[t].pc.WriteTag?
    ensures var th := s.ts[t];
      && |th.log| >= |th.txn.locks| && th.pc.e < |s.cells|
      && th.txn.body(th.log) == Write(th.pc.e, th.pc.v)
      && s.cells[th.pc.e].writer == t && s.cells[th.pc.e].word == th.pc.v
  {
    var th := s.ts[t];
    assert ThreadOk(s.cells, th, t);
    assert Legal(th.txn, th.txn.body(th.log));
    WriterHolds(s, t, th.pc.e);
  }

  lemma {:induction false} WriteTagMoves(s: State, t: nat)
    requires t < |s.ts| && s.ts[t].pc.WriteTag? && s.ts[t].pc.e < |s.cells|
    ensures var th, s' := s.ts[t], StepBody(s, t);
      Moves(s, t, s') && s'.ts[t] == th.(pc := Body, log := th.log + [th.pc.v])
  {}

  lemma {:induction false} WriteTagRuns(store: seq<Val>, s: State, t: nat)
    requires SerialInv(store, s) && t < |s.ts| && s.ts[t].pc.WriteTag?
    requires |s.ts[t].log| >= |s.ts[t].txn.locks| && s.ts[t].pc.e < |s.cells|
    requires s.ts[t].txn.body(s.ts[t].log) == Write(s.ts[t].pc.e, s.ts[t].pc.v)
    ensures Moves(s, t, StepBody(s, t))
    ensures ThreadVal(Now(store, s), Here(store, StepBody(s, t), t), StepBody(s, t).ts[t])
    ensures Here(store, StepBody(s, t), t).store == Put(Here(store, s, t).store, s.ts[t].pc.e, s.ts[t].pc.v)
  {
    WriteTagMoves(s, t);
    assert ThreadVal(Now(store, s), Here(store, s, t), s.ts[t]);
    HereMore(store, s, t, StepBody(s, t), s.ts[t].pc.v);
  }

  lemma {:induction false} WriteTagCell(store: seq<Val>, s: State, t: nat, f: nat)
    requires SerialInv(store, s) && t < |s.ts| && s.ts[t].pc.WriteTag?
    requires s.ts[t].pc.e < |s.cells| && s.cells[s.ts[t].pc.e].word == s.ts[t].pc.v
    requires f < |s.cells| && s.cells[f].writer == t
    requires Here(store, StepBody(s, t), t).store == Put(Here(store, s, t).store, s.ts[t].pc.e, s.ts[t].pc.v)
    ensures CellVal(store, StepBody(s, t), f)
  {
    DecodeOwnType(s.ts[t].pc.v);
    assert CellVal(store, s, f);
  }

  lemma {:induction false} WriteTagKeepsSerial(store: seq<Val>, s: State, t: nat)
    requires SerialInv(store, s) && LocksInv(s) && t < |s.ts| && s.ts[t].pc.WriteTag?
    ensures SerialInv(store, StepBody(s, t))
  {
    var s' := StepBody(s, t);
    WriteTagFacts(s, t);
    WriteTagRuns(store, s, t);
    forall f: nat | f < |s.cells| && s.cells[f].writer == t
      ensures CellVal(store, s', f)
    {
      WriteTagCell(store, s, t, f);
    }
    SerialRejoin(store, s, t, s.ts[t].pc.e, s');
  }

  lemma {:induction false} AbortKeepsSerial(store: seq<Val>, s: State, t: nat)
    requires SerialInv(store, s) && LocksInv(s) && t < |s.ts| && s.ts[t].pc.Body? && s.ts[t].txn.body(s.ts[t].log) == End(false)
    ensures SerialInv(store, StepBody(s, t))
  {
    var s', th := StepBody(s, t), s.ts[t];
    assert ThreadOk(s.cells, th, t);
    assert ThreadVal(Now(store, s), Here(store, s, t), th);
    SameStores(store, s, t, s');
    forall i: nat | i < |th.txn.locks|
      ensures th.log[i] == At(Now(store, s), th.txn.locks[i].elem)
    {
      assert Locks(th.txn, th.txn.locks[i].elem);
      RunReadsFirst(th.txn, Base(store, s, t), Count(th), i);
      BaseIsNow(store, s, t, th.txn.locks[i].elem);
    }
    SerialRejoin(store, s, t, |s.cells|, s');
  }

  // ---- Ending ------------------------------------------------------------------------------

  /** A transaction that gives back a writable element is its recorded writer. */
  lemma {:induction false} GivesBackOwn(s: State, t: nat)
    requires LocksInv(s) && t < |s.ts| && !Acquiring(s.ts[t].pc) && !Running(s.ts[t].pc) && !s.ts[t].pc.Done?
    ensures !s.ts[t].pc.Failed?
    ensures var th := s.ts[t]; th.pc.i <= |th.txn.locks| <= |th.log| && (!th.pc.EndLock? ==> th.pc.i < |th.txn.locks|)
    ensures var th := s.ts[t]; th.pc.i < |th.txn.locks| ==>
      var l := th.txn.locks[th.pc.i];
      && l.elem < |s.cells|
      && (!l.ro ==> s.cells[l.elem].writer == t)
      && (l.ro ==> s.cells[l.elem].writer == -1)
      && (th.pc.RelSwap? ==> l.ro)
      && (th.pc.SetStore? || th.pc.BackSwap? || th.pc.BackLoad? || th.pc.BackData? || th.pc.BackCheck? || th.pc.BackStore? ==> !l.ro)
      && (th.pc.SetStore? ==> th.pc.mem.typ == s.cells[l.elem].tag.typ)
      && (th.pc.BackStore? ==> s.cells[l.elem].word == th.log[th.pc.i])
  {
    var th := s.ts[t];
    assert ThreadOk(s.cells, th, t);
    if th.pc.i < |th.txn.locks| {
      var l := th.txn.locks[th.pc.i];
      assert Holding(th, th.pc.i) && l == Lock(l.elem, l.ro);
      assert CellOk(s.cells[l.elem]) && Match(s.cells[l.elem], th, t, l.elem);
    }
  }

  /** Transaction `t` is ending, and does not fail now. */
  predicate Ending(s: State, t: nat) {
    && t < |s.ts| && !Acquiring(s.ts[t].pc) && !Running(s.ts[t].pc)
    && !s.ts[t].pc.Failed? && !StepEnd(s, t).ts[t].pc.Failed?
  }

  lemma {:induction false} EndDoesNotFail(s: State, t: nat)
    requires LocksInv(s) && t < |s.ts| && !Acquiring(s.ts[t].pc) && !Running(s.ts[t].pc)
    ensures Ending(s, t)
  {
    StepKeepsLocks(s, t, 0);
    var s' := StepEnd(s, t);
    assert |s'.ts| == |s.ts| by { StepShape(s, t, 0); }
    assert ThreadOk(s.cells, s.ts[t], t) && ThreadOk(s'.cells, s'.ts[t], t);
  }

  /** Only the first of the locks that are held is given back. */
  lemma {:induction false} HeldBefore(s: State, t: nat)
    requires Ending(s, t)
    ensures forall i: nat {:trigger Holding(StepEnd(s, t).ts[t], i)} :: Holding(StepEnd(s, t).ts[t], i) ==> Holding(s.ts[t], i)
  {}

  lemma {:induction false} EndMoves(s: State, t: nat)
    requires Ending(s, t)
    ensures Moves(s, t, StepEnd(s, t)) && StepEnd(s, t).ts[t].log == s.ts[t].log
    ensures !Running(StepEnd(s, t).ts[t].pc)
  {}

  lemma {:induction false} EndQuiet(store: seq<Val>, s: State, t: nat)
    requires SerialInv(store, s) && LocksInv(s) && t < |s.ts| && !Acquiring(s.ts[t].pc) && !Running(s.ts[t].pc)
    requires !s.ts[t].pc.BackData? && !s.ts[t].pc.BackStore?
    ensures SerialInv(store, StepEnd(s, t))
  {
    var th := s.ts[t];
    EndDoesNotFail(s, t);
    EndMoves(s, t);
    HeldBefore(s, t);
    if th.pc.Done? {
      Quiet(store, s, t, |s.cells|, StepEnd(s, t));
    } else {
      GivesBackOwn(s, t);
      EndStepQuiet(s, t);
      Quiet(store, s, t, if th.pc.i < |th.txn.locks| then th.txn.locks[th.pc.i].elem else 0, StepEnd(s, t));
    }
  }

  lemma {:induction false} EndStepQuiet(s: State, t: nat)
    requires LocksInv(s) && t < |s.ts| && !Acquiring(s.ts[t].pc) && !Running(s.ts[t].pc) && !s.ts[t].pc.Done?
    requires !s.ts[t].pc.BackData? && !s.ts[t].pc.BackStore? && !s.ts[t].pc.Failed?
    ensures var th := s.ts[t]; QuietMove(s, t, if th.pc.i < |th.txn.locks| then th.txn.locks[th.pc.i].elem else 0, StepEnd(s, t))
  {
    EndDoesNotFail(s, t);
    EndMoves(s, t);
    GivesBackOwn(s, t);
  }

  lemma {:induction false} BackDataKeepsSerial(store: seq<Val>, s: State, t: nat)
    requires SerialInv(store, s) && LocksInv(s) && t < |s.ts| && (s.ts[t].pc.BackData? || s.ts[t].pc.BackStore?)
    ensures SerialInv(store, StepEnd(s, t))
  {
    var s', th := StepEnd(s, t), s.ts[t];
    EndDoesNotFail(s, t);
    EndMoves(s, t);
    HeldBefore(s, t);
    GivesBackOwn(s, t);
    BackThread(store, s, t);
    var e := th.txn.locks[th.pc.i].elem;
    forall f: nat | f < |s.cells| && (f == e || s.cells[f].writer == t)
      ensures CellVal(store, s', f)
    {
      BackCell(store, s, t, f);
    }
    SerialRejoin(store, s, t, e, s');
  }

  lemma {:induction false} BackThread(store: seq<Val>, s: State, t: nat)
    requires SerialInv(store, s) && LocksInv(s) && t < |s.ts| && (s.ts[t].pc.BackData? || s.ts[t].pc.BackStore?)
    ensures |StepEnd(s, t).ts| == |s.ts|
    ensures ThreadVal(Now(store, s), Here(store, StepEnd(s, t), t), StepEnd(s, t).ts[t])
  {
    EndDoesNotFail(s, t);
    EndMoves(s, t);
    HeldBefore(s, t);
    SameStores(store, s, t, StepEnd(s, t));
    assert ThreadVal(Now(store, s), Here(store, s, t), s.ts[t]);
  }

  lemma {:induction false} BackCell(store: seq<Val>, s: State, t: nat, f: nat)
    requires SerialInv(store, s) && Ending(s, t) && (s.ts[t].pc.BackData? || s.ts[t].pc.BackStore?)
    requires f < |s.cells| && s.cells[f].writer == t
    requires var th := s.ts[t];
      && th.pc.i < |th.txn.locks| <= |th.log| && !th.txn.locks[th.pc.i].ro && th.txn.locks[th.pc.i].elem < |s.cells|
      && (th.pc.BackStore? ==> s.cells[th.txn.locks[th.pc.i].elem].word == th.log[th.pc.i])
    ensures CellVal(store, StepEnd(s, t), f)
  {
    var th := s.ts[t];
    if th.pc.BackStore? && f == th.txn.locks[th.pc.i].elem {
      assert ThreadVal(Now(store, s), Here(store, s, t), th) && Holding(th, th.pc.i);
      EndMoves(s, t);
      SameStores(store, s, t, StepEnd(s, t));
      BackStored(s, t);
    } else {
      BackElsewhere(s, t, f);
    }
  }

  /** An element that an aborting transaction still holds. */
  lemma {:induction false} BackElsewhere(s: State, t: nat, f: nat)
    requires Ending(s, t) && (s.ts[t].pc.BackData? || s.ts[t].pc.BackStore?) && f < |s.cells| && s.cells[f].writer == t
    requires s.ts[t].pc.i < |s.ts[t].txn.locks| <= |s.ts[t].log|
    requires s.ts[t].pc.BackData? || f != s.ts[t].txn.locks[s.ts[t].pc.i].elem
    ensures var s' := StepEnd(s, t);
      |s'.ts| == |s.ts| && |s'.cells| == |s.cells| && s'.cells[f].writer == t && Aborts(s'.ts[t].pc)
  {}

  /** The original value is back, and the element is nobody's. */
  lemma {:induction false} BackStored(s: State, t: nat)
    requires t < |s.ts| && s.ts[t].pc.BackStore?
    requires var th := s.ts[t];
      && th.pc.i < |th.txn.locks| <= |th.log| && th.txn.locks[th.pc.i].elem < |s.cells|
      && s.cells[th.txn.locks[th.pc.i].elem].word == th.log[th.pc.i]
    ensures var th, s' := s.ts[t], StepEnd(s, t);
      var e := th.txn.locks[th.pc.i].elem;
      |s'.cells| == |s.cells| && s'.cells[e].writer == -1 && Content(s'.cells[e]) == th.log[th.pc.i]
  {
    DecodeOwnType(s.ts[t].log[s.ts[t].pc.i]);
  }

  // ---- Entering the order --------------------------------------------------------------------

  /** Thread `t` has all its locks after the step and takes the next place in the order. */
  ghost predicate Enters(s: State, t: nat, s': State)
    requires t < |s.ts|
  {
    && |s'.ts| == |s.ts| && |s'.cells| == |s.cells| && s'.order == s.order + [t]
    && s'.ts == s.ts[t := s'.ts[t]]
    && Acquiring(s.ts[t].pc) && s'.ts[t].pc.Body? && s'.ts[t].pos == |s.order|
    && s'.ts[t].txn == s.ts[t].txn && Count(s'.ts[t]) == 0
    && forall f: nat {:trigger s'.cells[f]} :: f < |s.cells| ==>
         Content(s'.cells[f]) == Content(s.cells[f]) && (s'.cells[f].writer == s.cells[f].writer || (s.cells[f].writer == -1 && s'.cells[f].writer == t))
  }

  lemma {:induction false} EnterStores(store: seq<Val>, s: State, t: nat, s': State)
    requires t < |s.ts| && Ordered(s) && Enters(s, t, s')
    ensures Now(store, s') == Now(store, s)
    ensures Base(store, s', t) == Now(store, s)
    ensures Here(store, s', t) == Run(s'.ts[t].txn, Now(store, s), 0)
    ensures forall u: nat :: u < |s.ts| && u != t && !Acquiring(s.ts[u].pc) ==> Here(store, s', u) == Here(store, s, u)
  {
    PreSame(store, s.ts, s'.ts, s.order, s'.order, |s.order|);
    forall u: nat | u < |s.ts| && u != t && !Acquiring(s.ts[u].pc)
      ensures Here(store, s', u) == Here(store, s, u)
    {
      assert OrderOk(s.order, s.ts[u], u);
      PreSame(store, s.ts, s'.ts, s.order, s'.order, s.ts[u].pos);
    }
  }

  /** Two transactions that run at the same time do not conflict. */
  lemma {:induction false} BothRun(s: State, t: nat, u: nat)
    requires LocksInv(s) && t < |s.ts| && u < |s.ts| && t != u && Running(s.ts[t].pc) && Running(s.ts[u].pc)
    ensures NoConflict(s.ts[t].txn, s.ts[u].txn)
  {
    forall e: nat
      ensures !(Writes(s.ts[t].txn, e) && Locks(s.ts[u].txn, e)) && !(Writes(s.ts[u].txn, e) && Locks(s.ts[t].txn, e))
    {
      if Locks(s.ts[t].txn, e) && Locks(s.ts[u].txn, e) {
        LockHeld(s, t, e);
        LockHeld(s, u, e);
        assert CellOk(s.cells[e]);
      }
    }
  }

  /** A running transaction holds all it locks. */
  lemma {:induction false} LockHeld(s: State, t: nat, e: nat)
    requires LocksInv(s) && t < |s.ts| && Running(s.ts[t].pc) && Locks(s.ts[t].txn, e)
    ensures e < |s.cells|
    ensures if Writes(s.ts[t].txn, e) then s.cells[e].writer == t else t in s.cells[e].readers
  {
    var th := s.ts[t];
    assert ThreadOk(s.cells, th, t);
    var i: nat :| i < |th.txn.locks| && th.txn.locks[i].elem == e;
    OneLock(th.txn, |s.cells|, i, e);
    assert Holding(th, i) && th.txn.locks[i] == Lock(e, th.txn.locks[i].ro);
    assert Match(s.cells[e], th, t, e);
  }

  lemma {:induction false} EnterApart(s: State, t: nat, s': State)
    requires t < |s.ts| && Ordered(s) && Apart(s) && Enters(s, t, s') && LocksInv(s')
    ensures Ordered(s') && Apart(s')
  {
    forall u: nat | u < |s'.ts|
      ensures OrderOk(s'.order, s'.ts[u], u)
    {
      assert OrderOk(s.order, s.ts[u], u);
    }
    forall k: nat | k < |s'.order|
      ensures s'.order[k] < |s'.ts| && s'.ts[s'.order[k]].pos == k
    {
      if k < |s.order| {
        assert s'.order[k] == s.order[k] && OrderOk(s.order, s.ts[t], t);
      }
    }
    forall u: nat, v: nat | EnteredDuring(s', u, v)
      ensures NoConflict(s'.ts[u].txn, s'.ts[v].txn)
    {
      EnterPair(s, t, s', u, v);
    }
  }

  lemma {:induction false} EnterPair(s: State, t: nat, s': State, u: nat, v: nat)
    requires t < |s.ts| && Ordered(s) && Apart(s) && Enters(s, t, s') && LocksInv(s')
    requires EnteredDuring(s', u, v)
    ensures NoConflict(s'.ts[u].txn, s'.ts[v].txn)
  {
    assert OrderOk(s.order, s.ts[u], u) && OrderOk(s.order, s.ts[v], v);
    if v == t {
      BothRun(s', u, v);
    } else {
      assert EnteredDuring(s, u, v);
    }
  }

  lemma {:induction false} EnterCell(store: seq<Val>, s: State, t: nat, s': State, f: nat)
    requires SerialInv(store, s) && t < |s.ts| && Enters(s, t, s') && f < |s.cells|
    requires forall i: nat :: i < |s'.ts[t].txn.locks| ==> i < |s'.ts[t].log| && s'.ts[t].log[i] == At(Now(store, s), s'.ts[t].txn.locks[i].elem)
    ensures CellVal(store, s', f)
  {
    EnterStores(store, s, t, s');
    assert CellVal(store, s, f);
    var w := s'.cells[f].writer;
    assert Content(s'.cells[f]) == Content(s.cells[f]);
    if w == t {
      assert Run(s'.ts[t].txn, Now(store, s), 0).store == Now(store, s);
    } else if 0 <= w < |s.ts| {
      assert s'.ts[w] == s.ts[w];
    }
  }

  lemma {:induction false} EnterThread(store: seq<Val>, s: State, t: nat, s': State, u: nat)
    requires SerialInv(store, s) && t < |s.ts| && Enters(s, t, s') && u < |s.ts|
    requires forall i: nat :: i < |s'.ts[t].txn.locks| ==> i < |s'.ts[t].log| && s'.ts[t].log[i] == At(Now(store, s), s'.ts[t].txn.locks[i].elem)
    ensures ThreadVal(Now(store, s'), Here(store, s', u), s'.ts[u])
  {
    EnterStores(store, s, t, s');
    assert ThreadVal(Now(store, s), Here(store, s, u), s.ts[u]);
    if u == t {
      assert s'.ts[t].log == Run(s'.ts[t].txn, Now(store, s), 0).log;
    } else {
      assert s'.ts[u] == s.ts[u];
    }
  }

  lemma {:induction false} EnterKeepsSerial(store: seq<Val>, s: State, t: nat, s': State)
    requires SerialInv(store, s) && t < |s.ts| && Enters(s, t, s') && LocksInv(s')
    requires forall i: nat :: i < |s'.ts[t].txn.locks| ==> i < |s'.ts[t].log| && s'.ts[t].log[i] == At(Now(store, s), s'.ts[t].txn.locks[i].elem)
    ensures SerialInv(store, s')
  {
    EnterApart(s, t, s');
    forall u: nat | u < |s.ts|
      ensures ThreadVal(Now(store, s'), Here(store, s', u), s'.ts[u])
    {
      EnterThread(store, s, t, s', u);
    }
    forall f: nat | f < |s.cells|
      ensures CellVal(store, s', f)
    {
      EnterCell(store, s, t, s', f);
    }
  }

  lemma {:induction false} LastLockKeepsSerial(store: seq<Val>, s: State, t: nat, stale: nat)
    requires SerialInv(store, s) && LocksInv(s) && t < |s.ts|
    requires s.ts[t].pc.AcqNone? || (s.ts[t].pc.AcqStore? && s.ts[t].pc.i + 1 == |s.ts[t].txn.locks|)
    ensures SerialInv(store, StepAcquire(s, t, stale))
  {
    var s', th := StepAcquire(s, t, stale), s.ts[t];
    StepKeepsLocks(s, t, stale);
    assert ThreadVal(Now(store, s), Here(store, s, t), th);
    if th.pc.AcqNone? {
      assert ThreadOk(s.cells, th, t);
    } else {
      GotIsNow(store, s, t);
    }
    EnterKeepsSerial(store, s, t, s');
  }

  // ---- Committing --------------------------------------------------------------------------

  /** Transaction `t` decides to commit. */
  ghost predicate Deciding(s: State, t: nat) {
    t < |s.ts| && s.ts[t].pc.Body? && s.ts[t].txn.body(s.ts[t].log) == End(true)
  }

  lemma {:induction false} AllWellFormed(s: State)
    requires LocksInv(s)
    ensures forall t: nat :: t < |s.ts| ==> WellFormed(s.ts[t].txn, |s.cells|)
  {
    forall t: nat | t < |s.ts|
      ensures WellFormed(s.ts[t].txn, |s.cells|)
    {
      assert ThreadOk(s.cells, s.ts[t], t);
    }
  }

  /** The transactions after a running one do not conflict with it, and each has one place. */
  lemma {:induction false} AfterRunning(s: State, t: nat)
    requires Ordered(s) && Apart(s) && t < |s.ts| && Running(s.ts[t].pc)
    ensures 0 <= s.ts[t].pos < |s.order| && s.order[s.ts[t].pos] == t
    ensures forall i: nat :: i < |s.order| && i != s.ts[t].pos ==> s.order[i] != t
    ensures forall i: nat :: s.ts[t].pos < i < |s.order| ==> s.order[i] < |s.ts| && NoConflict(s.ts[t].txn, s.ts[s.order[i]].txn)
  {
    assert OrderOk(s.order, s.ts[t], t);
    forall i: nat | s.ts[t].pos < i < |s.order|
      ensures s.order[i] < |s.ts| && NoConflict(s.ts[t].txn, s.ts[s.order[i]].txn)
    {
      assert EnteredDuring(s, t, s.order[i]);
    }
  }

  lemma {:induction false} DecidingStep(s: State, t: nat)
    requires Deciding(s, t)
    ensures StepBody(s, t) == s.(ts := s.ts[t := s.ts[t].(pc := EndLock(0, true))])
  {}

  /** What the serial store becomes, at the end and after every place behind the one that commits. */
  lemma {:induction false} CommitChanges(store: seq<Val>, s: State, t: nat, m: nat, e: nat)
    requires SerialInv(store, s) && LocksInv(s) && Deciding(s, t)
    requires s.ts[t].pos < m <= |s.order| && e < |store|
    ensures Pre(store, StepBody(s, t).ts, s.order, m)[e] ==
            if Writes(s.ts[t].txn, e) then Here(store, s, t).store[e] else Pre(store, s.ts, s.order, m)[e]
  {
    AllWellFormed(s);
    AfterRunning(s, t);
    var th, th' := s.ts[t], s.ts[t].(pc := EndLock(0, true));
    DecidingStep(s, t);
    HereIs(store, s, t, th.txn, th.pos, Count(th));
    CommitInserts(store, s.ts, th', s.order, th.pos, m, e);
    assert s.order[th.pos] == t && Count(th') == Count(th);
  }

  /** Where the other transactions start in the serial execution stays as it is, as far as
      they can see. */
  lemma {:induction false} CommitBase(store: seq<Val>, s: State, t: nat, u: nat)
    requires SerialInv(store, s) && LocksInv(s) && Deciding(s, t) && u < |s.ts| && !Acquiring(s.ts[u].pc)
    ensures Agree(s.ts[u].txn, Pre(store, s.ts, s.order, s.ts[u].pos), Pre(store, StepBody(s, t).ts, s.order, s.ts[u].pos))
  {
    AfterRunning(s, t);
    DecidingStep(s, t);
    var ts', j, k := StepBody(s, t).ts, s.ts[t].pos, s.ts[u].pos;
    assert OrderOk(s.order, s.ts[u], u) && s.order[j] == t;
    if k <= j {
      CommitBefore(store, s.ts, ts'[t], s.order, j, k);
      assert ts' == s.ts[s.order[j] := ts'[t]];
    } else {
      assert NoConflict(s.ts[t].txn, s.ts[s.order[k]].txn);
      forall f: nat | Locks(s.ts[u].txn, f)
        ensures At(Pre(store, s.ts, s.order, k), f) == At(Pre(store, ts', s.order, k), f)
      {
        if f < |store| { CommitChanges(store, s, t, k, f); }
      }
    }
  }

  lemma {:induction false} CommitSees(store: seq<Val>, s: State, t: nat, u: nat)
    requires SerialInv(store, s) && LocksInv(s) && Deciding(s, t) && u < |s.ts| && !Acquiring(s.ts[u].pc)
    ensures |StepBody(s, t).ts| == |s.ts|
    ensures Here(store, StepBody(s, t), u).log == Here(store, s, u).log
    ensures Agree(s.ts[u].txn, Here(store, s, u).store, Here(store, StepBody(s, t), u).store)
  {
    AllWellFormed(s);
    DecidingStep(s, t);
    var s', th := StepBody(s, t), s.ts[u];
    CommitBase(store, s, t, u);
    RunAgree(th.txn, Pre(store, s.ts, s.order, th.pos), Pre(store, s'.ts, s.order, th.pos), Count(th));
    HereIs(store, s, u, th.txn, th.pos, Count(th));
    HereIs(store, s', u, th.txn, th.pos, Count(th));
  }

  /** Nobody else holds what the committing transaction writes. */
  lemma {:induction false} OthersHold(s: State, t: nat, u: nat, i: nat)
    requires LocksInv(s) && t < |s.ts| && u < |s.ts| && u != t && Running(s.ts[t].pc) && Holding(s.ts[u], i)
    ensures !Writes(s.ts[t].txn, s.ts[u].txn.locks[i].elem)
  {
    var l := s.ts[u].txn.locks[i];
    assert ThreadOk(s.cells, s.ts[u], u);
    assert l == Lock(l.elem, l.ro);
    assert Match(s.cells[l.elem], s.ts[u], u, l.elem) && CellOk(s.cells[l.elem]);
    if Writes(s.ts[t].txn, l.elem) {
      WritesLocked(s.ts[t].txn, l.elem);
      LockHeld(s, t, l.elem);
    }
  }

  lemma {:induction false} CommitThread(store: seq<Val>, s: State, t: nat, u: nat)
    requires SerialInv(store, s) && LocksInv(s) && Deciding(s, t) && u < |s.ts|
    ensures |StepBody(s, t).ts| == |s.ts|
    ensures ThreadVal(Now(store, StepBody(s, t)), Here(store, StepBody(s, t), u), StepBody(s, t).ts[u])
  {
    var s', th := StepBody(s, t), s.ts[u];
    assert ThreadVal(Now(store, s), Here(store, s, u), th);
    assert ThreadOk(s.cells, th, u);
    AfterRunning(s, t);
    forall i: nat | Holding(th, i) && u != t
      ensures At(Now(store, s'), th.txn.locks[i].elem) == At(Now(store, s), th.txn.locks[i].elem)
    {
      OthersHold(s, t, u, i);
      CommitChanges(store, s, t, |s.order|, th.txn.locks[i].elem);
    }
    if !Acquiring(th.pc) {
      CommitSees(store, s, t, u);
    } else {
      assert forall i: nat :: i < |th.log| && i < |th.txn.locks| ==> Holding(th, i);
    }
  }

  /** Only its recorded writer writes an element that is not being written by `t`. */
  lemma {:induction false} NotWrittenByOther(s: State, t: nat, e: nat)
    requires LocksInv(s) && t < |s.ts| && e < |s.cells| && Running(s.ts[t].pc) && s.cells[e].writer != t
    ensures !Writes(s.ts[t].txn, e)
  {
    if Writes(s.ts[t].txn, e) {
      WritesLocked(s.ts[t].txn, e);
      LockHeld(s, t, e);
    }
  }

  lemma {:induction false} CommitCell(store: seq<Val>, s: State, t: nat, e: nat)
    requires SerialInv(store, s) && LocksInv(s) && Deciding(s, t) && e < |s.cells|
    ensures CellVal(store, StepBody(s, t), e)
  {
    DecidingStep(s, t);
    AfterRunning(s, t);
    var w := s.cells[e].writer;
    assert CellVal(store, s, e) && CellRange(s.cells[e], |s.ts|);
    CommitChanges(store, s, t, |s.order|, e);
    if w == t {
      WriterLocks(s, t, e);
    } else {
      NotWrittenByOther(s, t, e);
      if w != -1 {
        CommitOthersCell(store, s, t, w, e);
      }
    }
  }

  lemma {:induction false} CommitOthersCell(store: seq<Val>, s: State, t: nat, w: nat, e: nat)
    requires SerialInv(store, s) && LocksInv(s) && Deciding(s, t) && e < |s.cells|
    requires w < |s.ts| && s.cells[e].writer == w && w != t
    ensures |StepBody(s, t).ts| == |s.ts| && StepBody(s, t).ts[w] == s.ts[w]
    ensures !Acquiring(s.ts[w].pc) ==> At(Here(store, StepBody(s, t), w).store, e) == At(Here(store, s, w).store, e)
  {
    DecidingStep(s, t);
    WriterLocks(s, w, e);
    if !Acquiring(s.ts[w].pc) {
      CommitSees(store, s, t, w);
    }
  }

  lemma {:induction false} WriterLocks(s: State, w: nat, e: nat)
    requires LocksInv(s) && w < |s.ts| && e < |s.cells| && s.cells[e].writer == w
    ensures Writes(s.ts[w].txn, e) && Locks(s.ts[w].txn, e)
  {
    assert Match(s.cells[e], s.ts[w], w, e);
    assert HoldsElem(s.ts[w], e, false);
    WritesLocked(s.ts[w].txn, e);
  }

  lemma {:induction false} CommitKeepsSerial(store: seq<Val>, s: State, t: nat)
    requires SerialInv(store, s) && LocksInv(s) && Deciding(s, t)
    ensures SerialInv(store, StepBody(s, t))
  {
    var s' := StepBody(s, t);
    forall u: nat | u < |s.ts|
      ensures ThreadVal(Now(store, s'), Here(store, s', u), s'.ts[u])
    {
      CommitThread(store, s, t, u);
    }
    forall e: nat | e < |s.cells|
      ensures CellVal(store, s', e)
    {
      CommitCell(store, s, t, e);
    }
    CommitOrder(s, t);
  }

  lemma {:induction false} CommitOrder(s: State, t: nat)
    requires Ordered(s) && Apart(s) && Deciding(s, t)
    ensures Ordered(StepBody(s, t)) && Apart(StepBody(s, t)) && |StepBody(s, t).cells| == |s.cells|
  {
    var s' := StepBody(s, t);
    forall u: nat, v: nat | EnteredDuring(s', u, v)
      ensures NoConflict(s'.ts[u].txn, s'.ts[v].txn)
    {
      assert EnteredDuring(s, u, v);
    }
    forall u: nat | u < |s.ts|
      ensures OrderOk(s'.order, s'.ts[u], u)
    {
      assert OrderOk(s.order, s.ts[u], u);
    }
  }
}
