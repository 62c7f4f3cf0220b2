/** What the tags of the elements say about the transactions that hold them, in every
    reachable state, and that the transactions never deadlock. */
module TxnLocks {
  import opened Tags
  import opened Transactions

  /** The first and one past the last of the locks a transaction holds. */
  function First(th: Thread): nat {
    match th.pc
    case EndLock(i, _) => i
    case RelSwap(i, _, _) => i
    case SetStore(i, _) => i
    case BackSwap(i, _) => i
    case BackLoad(i) => i
    case BackData(i, _) => i
    case BackCheck(i, _) => i
    case BackStore(i, _) => i
    case Done(_) => |th.txn.locks|
    case _ => 0
  }

  function Last(th: Thread): nat {
    match th.pc
    case AcqNone => 0
    case AcqLoad(i, _) => i
    case AcqSwap(i, _) => i
    case AcqData(i, _) => i
    case AcqStore(i, _, _) => i
    case _ => |th.txn.locks|
  }

  predicate Holding(th: Thread, i: nat) {
    First(th) <= i < Last(th) && i < |th.txn.locks|
  }

  ghost predicate HoldsElem(th: Thread, e: nat, ro: bool) {
    exists i: nat :: Holding(th, i) && th.txn.locks[i] == Lock(e, ro)
  }

  /** Does the thread own the BUSY tag of element `e`? */
  predicate BusyElem(th: Thread, e: nat) {
    match th.pc
    case AcqData(i, _) => i < |th.txn.locks| && th.txn.locks[i].elem == e
    case AcqStore(i, _, _) => i < |th.txn.locks| && th.txn.locks[i].elem == e
    case BackLoad(i) => i < |th.txn.locks| && th.txn.locks[i].elem == e
    case BackData(i, _) => i < |th.txn.locks| && th.txn.locks[i].elem == e
    case BackCheck(i, _) => i < |th.txn.locks| && th.txn.locks[i].elem == e
    case BackStore(i, _) => i < |th.txn.locks| && th.txn.locks[i].elem == e
    case _ => false
  }

  /** The tag of an element nobody has BUSY says who holds it. */
  predicate CellOk(c: Cell) {
    && |c.readers| <= MAX_READERS
    && (c.writer != -1 ==> c.readers == {})
    && if c.busy != -1 then c.tag.fe == Busy
       else if c.writer != -1 then c.tag.fe == Empty && c.tag.rw == 0
       else if c.readers != {} then c.tag.fe == RwLock && c.tag.rw == |c.readers|
       else c.tag.fe == Full && c.tag.rw == 0
  }

  /** The records of a cell about a thread are right. */
  ghost predicate Match(c: Cell, th: Thread, t: nat, e: nat) {
    && (t in c.readers <==> HoldsElem(th, e, true))
    && (c.writer == t <==> HoldsElem(th, e, false))
    && (c.busy == t <==> BusyElem(th, e))
  }

  /** A thread that has the element of lock `l` BUSY to acquire it. */
  predicate Taking(c: Cell, l: Lock, t: nat) {
    && c.writer == -1 && t !in c.readers
    && if l.ro then c.tag.rw == |c.readers| + 1 <= MAX_READERS else c.tag.rw == 0 && c.readers == {}
  }

  predicate Indexed(th: Thread, i: nat, size: nat) {
    i < |th.txn.locks| && th.txn.locks[i].elem < size
  }

  ghost predicate ThreadOk(cells: seq<Cell>, th: Thread, t: nat) {
    && WellFormed(th.txn, |cells|)
    && var x := th.txn;
       match th.pc
       case AcqNone => x.locks == [] && th.log == []
       case AcqLoad(i, _) => Indexed(th, i, |cells|) && |th.log| == i
       case AcqSwap(i, mem) => Indexed(th, i, |cells|) && |th.log| == i && ReadReady(Initial(x.locks[i]), mem, 0)
       case AcqData(i, held) =>
         && Indexed(th, i, |cells|) && |th.log| == i
         && var c := cells[x.locks[i].elem]; held == c.tag && Taking(c, x.locks[i], t)
       case AcqStore(i, held, got) =>
         && Indexed(th, i, |cells|) && |th.log| == i
         && var c := cells[x.locks[i].elem];
            held == c.tag.(fe := Final(x.locks[i])) && got == Content(c) && Taking(c, x.locks[i], t)
       case Body => |th.log| >= |x.locks|
       case BodyRead(e, typ) =>
         |th.log| >= |x.locks| && x.body(th.log) == Read(e) && e < |cells| && typ == cells[e].tag.typ
       case WriteData(e, v, mem) =>
         |th.log| >= |x.locks| && x.body(th.log) == Write(e, v) && e < |cells| && mem == cells[e].tag
       case WriteTag(e, v, mem) =>
         |th.log| >= |x.locks| && x.body(th.log) == Write(e, v) && e < |cells| && mem == cells[e].tag && cells[e].word == v
       case EndLock(i, c) => |th.log| >= |x.locks| && i <= |x.locks|
       case RelSwap(i, c, mem) =>
         |th.log| >= |x.locks| && Indexed(th, i, |cells|) && x.locks[i].ro && mem.fe == RwLock && mem.rw > 0
       case SetStore(i, mem) =>
         |th.log| >= |x.locks| && Indexed(th, i, |cells|) && !x.locks[i].ro && mem == cells[x.locks[i].elem].tag
       case BackSwap(i, mem) =>
         |th.log| >= |x.locks| && Indexed(th, i, |cells|) && !x.locks[i].ro && mem == cells[x.locks[i].elem].tag
       case BackLoad(i) =>
         |th.log| >= |x.locks| && Indexed(th, i, |cells|) && !x.locks[i].ro && cells[x.locks[i].elem].tag.rw == 0
       case BackData(i, mem) =>
         && |th.log| >= |x.locks| && Indexed(th, i, |cells|) && !x.locks[i].ro
         && mem == cells[x.locks[i].elem].tag && mem.rw == 0
       case BackCheck(i, mem) =>
         && |th.log| >= |x.locks| && Indexed(th, i, |cells|) && !x.locks[i].ro
         && mem == cells[x.locks[i].elem].tag && mem.rw == 0 && cells[x.locks[i].elem].word == th.log[i]
       case BackStore(i, mem) =>
         && |th.log| >= |x.locks| && Indexed(th, i, |cells|) && !x.locks[i].ro
         && mem == cells[x.locks[i].elem].tag && mem.rw == 0 && cells[x.locks[i].elem].word == th.log[i]
       case Done(_) => |th.log| >= |x.locks|
       case Failed => false
  }

  ghost predicate LocksInv(s: State) {
    && (forall e: nat {:trigger s.cells[e]} :: e < |s.cells| ==> CellOk(s.cells[e]) && CellRange(s.cells[e], |s.ts|))
    && (forall t: nat {:trigger s.ts[t]} :: t < |s.ts| ==> ThreadOk(s.cells, s.ts[t], t))
    && (forall t: nat, e: nat {:trigger s.ts[t], s.cells[e]} :: t < |s.ts| && e < |s.cells| ==> Match(s.cells[e], s.ts[t], t, e))
  }

  predicate CellRange(c: Cell, n: nat) {
    && -1 <= c.writer < n && -1 <= c.busy < n
    && forall r :: r in c.readers ==> r < n
  }

  /** What a change of a cell must leave alone for thread `u`. */
  predicate SameFor(c: Cell, c': Cell, u: nat) {
    && (u in c.readers <==> u in c'.readers)
    && (c.writer == u <==> c'.writer == u)
    && (c.busy == u <==> c'.busy == u)
    && (c.writer == u || c.busy == u ==> c == c')
    && (u in c.readers ==> c.tag.typ == c'.tag.typ && c.word == c'.word)
  }

  /** A step of thread `t` that changes at most cell `e` keeps the invariant if it is right
      about `t` and `e` and leaves the others alone. */
  lemma {:induction false} LocksRejoin(s: State, t: nat, e: nat, s': State)
    requires LocksInv(s) && t < |s.ts| && e < |s.cells|
    requires |s'.ts| == |s.ts| && |s'.cells| == |s.cells|
    requires s'.ts == s.ts[t := s'.ts[t]] && s'.cells == s.cells[e := s'.cells[e]]
    requires forall u: nat :: u < |s.ts| && u != t ==> SameFor(s.cells[e], s'.cells[e], u)
    requires CellOk(s'.cells[e]) && CellRange(s'.cells[e], |s.ts|)
    requires ThreadOk(s'.cells, s'.ts[t], t)
    requires forall f: nat :: f < |s.cells| ==> Match(s'.cells[f], s'.ts[t], t, f)
    ensures LocksInv(s')
  {
    forall u: nat | u < |s.ts|
      ensures ThreadOk(s'.cells, s'.ts[u], u)
    {
      if u != t {
        OtherOk(s, u, e, s');
      }
    }
    forall u: nat, f: nat | u < |s.ts| && f < |s.cells|
      ensures Match(s'.cells[f], s'.ts[u], u, f)
    {
      if u != t {
        assert s'.ts[u] == s.ts[u];
        assert Match(s.cells[f], s.ts[u], u, f);
        if f == e {
          assert SameFor(s.cells[e], s'.cells[e], u);
        } else {
          assert s'.cells[f] == s.cells[f];
        }
      }
    }
  }

  /** Another thread's own conditions depend on cells it holds or has BUSY. */
  lemma {:induction false} OtherOk(s: State, u: nat, e: nat, s': State)
    requires LocksInv(s) && u < |s.ts| && e < |s.cells|
    requires |s'.cells| == |s.cells| && s'.cells == s.cells[e := s'.cells[e]]
    requires SameFor(s.cells[e], s'.cells[e], u)
    ensures ThreadOk(s'.cells, s.ts[u], u)
  {
    var th := s.ts[u];
    assert ThreadOk(s.cells, th, u);
    assert Match(s.cells[e], th, u, e);
    if Running(th.pc) {
      RunningOk(s.cells, s'.cells, th, u, e);
    } else {
      OutsideOk(s.cells, s'.cells, th, u, e);
    }
  }

  lemma {:induction false} RunningOk(cells: seq<Cell>, cells': seq<Cell>, th: Thread, u: nat, e: nat)
    requires e < |cells| == |cells'| && cells' == cells[e := cells'[e]] && SameFor(cells[e], cells'[e], u)
    requires ThreadOk(cells, th, u) && Match(cells[e], th, u, e) && Running(th.pc)
    ensures ThreadOk(cells', th, u)
  {
    var x := th.txn;
    if !th.pc.Body? && th.pc.e == e {
      assert Legal(x, x.body(th.log));
      var i: nat :| i < |x.locks| && x.locks[i].elem == e && (th.pc.BodyRead? || x.locks[i] == Lock(e, false));
      assert Holding(th, i) && x.locks[i] == Lock(e, x.locks[i].ro);
    }
  }

  lemma {:induction false} OutsideOk(cells: seq<Cell>, cells': seq<Cell>, th: Thread, u: nat, e: nat)
    requires e < |cells| == |cells'| && cells' == cells[e := cells'[e]] && SameFor(cells[e], cells'[e], u)
    requires ThreadOk(cells, th, u) && Match(cells[e], th, u, e) && !Running(th.pc)
    ensures ThreadOk(cells', th, u)
  {
    if th.pc.SetStore? || th.pc.BackSwap? {
      var i, x := th.pc.i, th.txn;
      assert Holding(th, i) && x.locks[i] == Lock(x.locks[i].elem, false);
    }
  }

  /** A thread's pc moves without a change of what it holds or has BUSY. */
  lemma {:induction false} SameHolds(th: Thread, th': Thread, e: nat)
    requires th'.txn == th.txn && First(th) == First(th') && Last(th) == Last(th')
    ensures HoldsElem(th', e, true) == HoldsElem(th, e, true)
    ensures HoldsElem(th', e, false) == HoldsElem(th, e, false)
  {
    forall ro: bool
      ensures HoldsElem(th', e, ro) == HoldsElem(th, e, ro)
    {
      if HoldsElem(th, e, ro) {
        var i: nat :| Holding(th, i) && th.txn.locks[i] == Lock(e, ro);
        assert Holding(th', i);
      }
      if HoldsElem(th', e, ro) {
        var i: nat :| Holding(th', i) && th.txn.locks[i] == Lock(e, ro);
        assert Holding(th, i);
      }
    }
  }

  /** One more, or one less, lock is held: the lock `l` at the end, or start, of those held. */
  lemma {:induction false} OneHoldMore(th: Thread, th': Thread, i: nat, size: nat)
    requires WellFormed(th.txn, size) && th'.txn == th.txn && i < |th.txn.locks|
    requires forall k: nat :: Holding(th', k) <==> Holding(th, k) || k == i
    requires !Holding(th, i)
    ensures var l := th.txn.locks[i];
      && HoldsElem(th', l.elem, l.ro) && !HoldsElem(th', l.elem, !l.ro)
      && !HoldsElem(th, l.elem, l.ro) && !HoldsElem(th, l.elem, !l.ro)
      && forall e: nat, ro: bool :: e != l.elem ==> HoldsElem(th', e, ro) == HoldsElem(th, e, ro)
  {
    var l := th.txn.locks[i];
    assert Holding(th', i);
    forall e: nat, ro: bool | e != l.elem
      ensures HoldsElem(th', e, ro) == HoldsElem(th, e, ro)
    {
      if HoldsElem(th, e, ro) {
        var k: nat :| Holding(th, k) && th.txn.locks[k] == Lock(e, ro);
        assert Holding(th', k);
      }
      if HoldsElem(th', e, ro) {
        var k: nat :| Holding(th', k) && th.txn.locks[k] == Lock(e, ro);
        assert Holding(th, k);
      }
    }
  }

  /** A step of thread `t` that changes no cell and nothing the thread holds. */
  lemma {:induction false} LocalMove(s: State, t: nat, s': State)
    requires LocksInv(s) && t < |s.ts|
    requires s'.cells == s.cells && |s'.ts| == |s.ts| && s'.ts == s.ts[t := s'.ts[t]]
    requires s'.ts[t].txn == s.ts[t].txn && First(s.ts[t]) == First(s'.ts[t]) && Last(s.ts[t]) == Last(s'.ts[t])
    requires forall f: nat :: BusyElem(s'.ts[t], f) == BusyElem(s.ts[t], f)
    requires ThreadOk(s'.cells, s'.ts[t], t)
    ensures LocksInv(s')
  {
    forall u: nat, f: nat | u < |s.ts| && f < |s.cells|
      ensures Match(s'.cells[f], s'.ts[u], u, f)
    {
      assert Match(s.cells[f], s.ts[u], u, f);
      if u == t { SameHolds(s.ts[t], s'.ts[t], f); }
    }
    forall u: nat | u < |s.ts|
      ensures ThreadOk(s'.cells, s'.ts[u], u)
    {
      if u != t { assert s'.ts[u] == s.ts[u]; }
    }
  }

  /** A step of thread `t` that changes cell `e` but nothing the thread holds. */
  lemma {:induction false} CellMove(s: State, t: nat, e: nat, s': State)
    requires LocksInv(s) && t < |s.ts| && e < |s.cells|
    requires |s'.ts| == |s.ts| && |s'.cells| == |s.cells|
    requires s'.ts == s.ts[t := s'.ts[t]] && s'.cells == s.cells[e := s'.cells[e]]
    requires s'.ts[t].txn == s.ts[t].txn && First(s.ts[t]) == First(s'.ts[t]) && Last(s.ts[t]) == Last(s'.ts[t])
    requires forall f: nat :: f != e ==> BusyElem(s'.ts[t], f) == BusyElem(s.ts[t], f)
    requires s'.cells[e].readers == s.cells[e].readers && s'.cells[e].writer == s.cells[e].writer
    requires s'.cells[e].busy == t <==> BusyElem(s'.ts[t], e)
    requires forall u: nat :: u < |s.ts| && u != t ==> SameFor(s.cells[e], s'.cells[e], u)
    requires CellOk(s'.cells[e]) && CellRange(s'.cells[e], |s.ts|)
    requires ThreadOk(s'.cells, s'.ts[t], t)
    ensures LocksInv(s')
  {
    forall f: nat | f < |s.cells|
      ensures Match(s'.cells[f], s'.ts[t], t, f)
    {
      assert Match(s.cells[f], s.ts[t], t, f);
      SameHolds(s.ts[t], s'.ts[t], f);
    }
    LocksRejoin(s, t, e, s');
  }

  /** A step of thread `t` that acquires (`more`) or gives back lock number `i`. */
  lemma {:induction false} HoldMove(s: State, t: nat, i: nat, more: bool, s': State)
    requires LocksInv(s) && t < |s.ts| && Indexed(s.ts[t], i, |s.cells|)
    requires |s'.ts| == |s.ts| && |s'.cells| == |s.cells|
    requires var e := s.ts[t].txn.locks[i].elem; s'.ts == s.ts[t := s'.ts[t]] && s'.cells == s.cells[e := s'.cells[e]]
    requires s'.ts[t].txn == s.ts[t].txn
    requires more ==> !Holding(s.ts[t], i) && forall k: nat :: Holding(s'.ts[t], k) <==> Holding(s.ts[t], k) || k == i
    requires !more ==> !Holding(s'.ts[t], i) && forall k: nat :: Holding(s.ts[t], k) <==> Holding(s'.ts[t], k) || k == i
    requires forall f: nat :: !BusyElem(s'.ts[t], f)
    requires forall f: nat :: f != s.ts[t].txn.locks[i].elem ==> !BusyElem(s.ts[t], f)
    requires var l := s.ts[t].txn.locks[i];
      var c, c' := s.cells[l.elem], s'.cells[l.elem];
      && c'.busy != t
      && (t in c'.readers <==> more && l.ro) && (c'.writer == t <==> more && !l.ro)
      && CellOk(c') && CellRange(c', |s.ts|)
      && forall u: nat :: u < |s.ts| && u != t ==> SameFor(c, c', u)
    requires ThreadOk(s'.cells, s'.ts[t], t)
    ensures LocksInv(s')
  {
    var th, th', e := s.ts[t], s'.ts[t], s.ts[t].txn.locks[i].elem;
    assert ThreadOk(s.cells, th, t);
    if more {
      OneHoldMore(th, th', i, |s.cells|);
    } else {
      OneHoldMore(th', th, i, |s.cells|);
    }
    forall f: nat | f < |s.cells|
      ensures Match(s'.cells[f], th', t, f)
    {
      assert Match(s.cells[f], th, t, f);
    }
    LocksRejoin(s, t, e, s');
  }

  /** Whoever has an element BUSY holds it exclusively, or nobody does. */
  lemma {:induction false} BusyKind(s: State, u: nat, e: nat)
    requires LocksInv(s) && u < |s.ts| && e < |s.cells| && s.cells[e].busy == u
    ensures s.cells[e].writer == u || s.cells[e].writer == -1
  {
    var th := s.ts[u];
    assert ThreadOk(s.cells, th, u) && Match(s.cells[e], th, u, e);
    if !Acquiring(th.pc) {
      assert Holding(th, th.pc.i) && th.txn.locks[th.pc.i] == Lock(e, false);
    }
  }

  lemma {:induction false} OnlyHolderBusy(s: State, t: nat, e: nat)
    requires LocksInv(s) && t < |s.ts| && e < |s.cells| && s.cells[e].writer == t
    ensures s.cells[e].busy == -1 || s.cells[e].busy == t
  {
    assert CellRange(s.cells[e], |s.ts|);
    if s.cells[e].busy != -1 {
      BusyKind(s, s.cells[e].busy, e);
    }
  }

  // ---- Every step keeps the invariant ------------------------------------------

  lemma {:induction false} AcqLoadKeeps(s: State, t: nat, stale: nat)
    requires LocksInv(s) && t < |s.ts| && (s.ts[t].pc.AcqLoad? || s.ts[t].pc.AcqNone? || s.ts[t].pc.AcqData?)
    ensures LocksInv(StepAcquire(s, t, stale))
  {
    assert ThreadOk(s.cells, s.ts[t], t);
    LocalMove(s, t, StepAcquire(s, t, stale));
  }

  lemma {:induction false} AcqSwapKeeps(s: State, t: nat, stale: nat)
    requires LocksInv(s) && t < |s.ts| && s.ts[t].pc.AcqSwap?
    ensures LocksInv(StepAcquire(s, t, stale))
  {
    var s', th := StepAcquire(s, t, stale), s.ts[t];
    assert ThreadOk(s.cells, th, t);
    var i := th.pc.i;
    var e := th.txn.locks[i].elem;
    if s.cells[e].tag == ReadOld(Initial(th.txn.locks[i]), th.pc.mem) {
      assert CellOk(s.cells[e]);
      NotYetHeld(s, t, i);
      CellMove(s, t, e, s');
    } else {
      LocalMove(s, t, s');
    }
  }

  /** While it acquires lock number `i`, a transaction does not hold its element. */
  lemma {:induction false} NotYetHeld(s: State, t: nat, i: nat)
    requires LocksInv(s) && t < |s.ts| && Indexed(s.ts[t], i, |s.cells|) && Last(s.ts[t]) <= i
    ensures var c := s.cells[s.ts[t].txn.locks[i].elem]; t !in c.readers && c.writer != t
  {
    var e := s.ts[t].txn.locks[i].elem;
    assert ThreadOk(s.cells, s.ts[t], t);
    assert Match(s.cells[e], s.ts[t], t, e);
  }

  lemma {:induction false} AcqStoreKeeps(s: State, t: nat, stale: nat)
    requires LocksInv(s) && t < |s.ts| && s.ts[t].pc.AcqStore?
    ensures LocksInv(StepAcquire(s, t, stale))
  {
    var s', th := StepAcquire(s, t, stale), s.ts[t];
    assert ThreadOk(s.cells, th, t);
    var i := th.pc.i;
    var e := th.txn.locks[i].elem;
    assert CellOk(s.cells[e]) && CellRange(s.cells[e], |s.ts|) && Match(s.cells[e], th, t, e);
    HoldMove(s, t, i, true, s');
  }

  lemma {:induction false} BodyKeeps(s: State, t: nat)
    requires LocksInv(s) && t < |s.ts| && (s.ts[t].pc.Body? || s.ts[t].pc.BodyRead?)
    ensures LocksInv(StepBody(s, t))
  {
    var th := s.ts[t];
    assert ThreadOk(s.cells, th, t);
    assert Legal(th.txn, th.txn.body(th.log));
    LocalMove(s, t, StepBody(s, t));
  }

  lemma {:induction false} WriteKeeps(s: State, t: nat)
    requires LocksInv(s) && t < |s.ts| && (s.ts[t].pc.WriteData? || s.ts[t].pc.WriteTag?)
    ensures LocksInv(StepBody(s, t))
  {
    var th := s.ts[t];
    assert ThreadOk(s.cells, th, t);
    assert Legal(th.txn, th.txn.body(th.log));
    var e := th.pc.e;
    WriterHolds(s, t, e);
    OnlyHolderBusy(s, t, e);
    assert CellOk(s.cells[e]) && CellRange(s.cells[e], |s.ts|) && Match(s.cells[e], th, t, e);
    CellMove(s, t, e, StepBody(s, t));
  }

  lemma {:induction false} WriterHolds(s: State, t: nat, e: nat)
    requires LocksInv(s) && t < |s.ts| && Running(s.ts[t].pc) && Lock(e, false) in s.ts[t].txn.locks
    ensures e < |s.cells| && s.cells[e].writer == t
  {
    var th := s.ts[t];
    assert ThreadOk(s.cells, th, t);
    var i: nat :| i < |th.txn.locks| && th.txn.locks[i] == Lock(e, false);
    assert Holding(th, i);
    assert Match(s.cells[e], th, t, e);
  }

  lemma {:induction false} EndLockKeeps(s: State, t: nat)
    requires LocksInv(s) && t < |s.ts| && s.ts[t].pc.EndLock?
    ensures LocksInv(StepEnd(s, t))
  {
    var th := s.ts[t];
    assert ThreadOk(s.cells, th, t);
    var i := th.pc.i;
    if i < |th.txn.locks| {
      var e := th.txn.locks[i].elem;
      assert Holding(th, i) && th.txn.locks[i] == Lock(e, th.txn.locks[i].ro);
      assert Match(s.cells[e], th, t, e) && CellOk(s.cells[e]);
      if th.txn.locks[i].ro { ReaderCounts(s.cells[e], t); }
    }
    LocalMove(s, t, StepEnd(s, t));
  }

  lemma {:induction false} ReaderCounts(c: Cell, t: nat)
    requires CellOk(c) && t in c.readers
    ensures c.tag.fe == Busy || (c.tag.fe == RwLock && c.tag.rw > 0)
  {
    assert |c.readers| > 0;
  }

  lemma {:induction false} RelSwapKeeps(s: State, t: nat)
    requires LocksInv(s) && t < |s.ts| && s.ts[t].pc.RelSwap?
    ensures LocksInv(StepEnd(s, t))
  {
    var s', th := StepEnd(s, t), s.ts[t];
    assert ThreadOk(s.cells, th, t);
    var i := th.pc.i;
    var e := th.txn.locks[i].elem;
    if s.cells[e].tag == th.pc.mem {
      assert Holding(th, i) && th.txn.locks[i] == Lock(e, true);
      assert Match(s.cells[e], th, t, e) && CellOk(s.cells[e]) && CellRange(s.cells[e], |s.ts|);
      assert |s.cells[e].readers - {t}| == |s.cells[e].readers| - 1;
      HoldMove(s, t, i, false, s');
    } else {
      LocalMove(s, t, s');
    }
  }

  lemma {:induction false} SetStoreKeeps(s: State, t: nat)
    requires LocksInv(s) && t < |s.ts| && s.ts[t].pc.SetStore?
    ensures LocksInv(StepEnd(s, t))
  {
    var th := s.ts[t];
    assert ThreadOk(s.cells, th, t);
    var i := th.pc.i;
    var e := th.txn.locks[i].elem;
    assert Holding(th, i) && th.txn.locks[i] == Lock(e, false);
    assert Match(s.cells[e], th, t, e) && CellOk(s.cells[e]) && CellRange(s.cells[e], |s.ts|);
    OnlyHolderBusy(s, t, e);
    HoldMove(s, t, i, false, StepEnd(s, t));
  }

  lemma {:induction false} BackSwapKeeps(s: State, t: nat)
    requires LocksInv(s) && t < |s.ts| && (s.ts[t].pc.BackSwap? || s.ts[t].pc.BackData?)
    ensures LocksInv(StepEnd(s, t))
  {
    var th := s.ts[t];
    assert ThreadOk(s.cells, th, t);
    var i := th.pc.i;
    var e := th.txn.locks[i].elem;
    assert Holding(th, i) && th.txn.locks[i] == Lock(e, false);
    assert Match(s.cells[e], th, t, e) && CellOk(s.cells[e]) && CellRange(s.cells[e], |s.ts|);
    OnlyHolderBusy(s, t, e);
    CellMove(s, t, e, StepEnd(s, t));
  }

  lemma {:induction false} BackLoadKeeps(s: State, t: nat)
    requires LocksInv(s) && t < |s.ts| && (s.ts[t].pc.BackLoad? || s.ts[t].pc.BackCheck?)
    ensures LocksInv(StepEnd(s, t))
  {
    assert ThreadOk(s.cells, s.ts[t], t);
    LocalMove(s, t, StepEnd(s, t));
  }

  lemma {:induction false} BackStoreKeeps(s: State, t: nat)
    requires LocksInv(s) && t < |s.ts| && s.ts[t].pc.BackStore?
    ensures LocksInv(StepEnd(s, t))
  {
    var th := s.ts[t];
    assert ThreadOk(s.cells, th, t);
    var i := th.pc.i;
    var e := th.txn.locks[i].elem;
    assert Holding(th, i) && th.txn.locks[i] == Lock(e, false);
    assert Match(s.cells[e], th, t, e) && CellOk(s.cells[e]) && CellRange(s.cells[e], |s.ts|);
    HoldMove(s, t, i, false, StepEnd(s, t));
  }

  lemma {:induction false} StepKeepsLocks(s: State, t: nat, stale: nat)
    requires LocksInv(s) && t < |s.ts|
    ensures LocksInv(Step(s, t, stale))
  {
    match s.ts[t].pc
    case AcqNone => AcqLoadKeeps(s, t, stale);
    case AcqLoad(_, _) => AcqLoadKeeps(s, t, stale);
    case AcqSwap(_, _) => AcqSwapKeeps(s, t, stale);
    case AcqData(_, _) => AcqLoadKeeps(s, t, stale);
    case AcqStore(_, _, _) => AcqStoreKeeps(s, t, stale);
    case Body => BodyKeeps(s, t);
    case BodyRead(_, _) => BodyKeeps(s, t);
    case WriteData(_, _, _) => WriteKeeps(s, t);
    case WriteTag(_, _, _) => WriteKeeps(s, t);
    case EndLock(_, _) => EndLockKeeps(s, t);
    case RelSwap(_, _, _) => RelSwapKeeps(s, t);
    case SetStore(_, _) => SetStoreKeeps(s, t);
    case BackSwap(_, _) => BackSwapKeeps(s, t);
    case BackLoad(_) => BackLoadKeeps(s, t);
    case BackData(_, _) => BackSwapKeeps(s, t);
    case BackCheck(_, _) => BackLoadKeeps(s, t);
    case BackStore(_, _) => BackStoreKeeps(s, t);
    case Done(_) =>
    case Failed =>
  }

  lemma {:induction false} InitLocks(store: seq<Val>, txns: seq<Txn>, stale: nat)
    requires forall k :: 0 <= k < |txns| ==> WellFormed(txns[k], |store|)
    ensures LocksInv(Init(store, txns, stale))
  {}

  lemma {:induction false} LocksAlways(store: seq<Val>, txns: seq<Txn>, stale: nat, sched: seq<(nat, nat)>)
    requires forall k :: 0 <= k < |txns| ==> WellFormed(txns[k], |store|)
    requires Schedule(|txns|, sched)
    ensures LocksInv(Exec(Init(store, txns, stale), sched))
    decreases |sched|
  {
    if sched == [] {
      InitLocks(store, txns, stale);
    } else {
      var k := |sched| - 1;
      LocksAlways(store, txns, stale, sched[..k]);
      StepKeepsLocks(Exec(Init(store, txns, stale), sched[..k]), sched[k].0, sched[k].1);
    }
  }

  // ---- What the invariant means for callers -------------------------------------

  ghost function Readers(s: State, e: nat): set<nat> {
    set t: nat | t < |s.ts| && HoldsElem(s.ts[t], e, true)
  }

  /** Some transaction holds element `e` for writing. */
  ghost predicate Written(s: State, e: nat) {
    exists t: nat :: t < |s.ts| && HoldsElem(s.ts[t], e, false)
  }

  lemma {:induction false} HoldersOf(s: State, e: nat)
    requires LocksInv(s) && e < |s.cells|
    ensures Readers(s, e) == s.cells[e].readers
    ensures Written(s, e) <==> s.cells[e].writer != -1
    ensures forall t: nat :: t < |s.ts| ==> (HoldsElem(s.ts[t], e, false) <==> s.cells[e].writer == t)
  {
    var c := s.cells[e];
    assert CellRange(c, |s.ts|);
    assert forall t: nat :: t < |s.ts| ==> Match(c, s.ts[t], t, e);
    if c.writer != -1 {
      assert HoldsElem(s.ts[c.writer], e, false);
    }
  }

  /** The tag of an element that nobody has BUSY is EMPTY exactly while one transaction
      holds it for writing, under the readers lock with a count that is the number of its
      readers, at most 7, and FULL when nobody holds it; a writer never shares it. */
  ghost predicate TagTells(s: State, e: nat)
    requires e < |s.cells|
  {
    var tag := s.cells[e].tag;
    && |Readers(s, e)| <= 7
    && (tag.fe != Busy ==>
         && (tag.fe == Empty <==> Written(s, e))
         && (tag.fe == RwLock <==> Readers(s, e) != {})
         && (tag.fe == Full <==> Readers(s, e) == {} && !Written(s, e))
         && tag.rw == |Readers(s, e)|)
    && (Written(s, e) ==> Readers(s, e) == {})
    && forall t: nat, u: nat :: t < |s.ts| && u < |s.ts| && HoldsElem(s.ts[t], e, false) && HoldsElem(s.ts[u], e, false) ==> t == u
  }

  lemma {:induction false} TagTellsNow(s: State, e: nat)
    requires LocksInv(s) && e < |s.cells|
    ensures TagTells(s, e)
  {
    HoldersOf(s, e);
    assert CellOk(s.cells[e]);
  }

  /** In every reachable state the tags tell who holds the elements, and no error exit has
      been taken. */
  lemma {:induction false} TagsTellHolders(store: seq<Val>, txns: seq<Txn>, stale: nat, sched: seq<(nat, nat)>)
    requires forall k :: 0 <= k < |txns| ==> WellFormed(txns[k], |store|)
    requires Schedule(|txns|, sched)
    ensures var s := Exec(Init(store, txns, stale), sched);
      && |s.cells| == |store| && |s.ts| == |txns|
      && (forall e: nat :: e < |store| ==> TagTells(s, e))
      && (forall t: nat :: t < |s.ts| ==> !s.ts[t].pc.Failed?)
  {
    var s := Exec(Init(store, txns, stale), sched);
    LocksAlways(store, txns, stale, sched);
    SizesStay(store, txns, stale, sched);
    forall e: nat | e < |store|
      ensures TagTells(s, e)
    {
      TagTellsNow(s, e);
    }
    forall t: nat | t < |s.ts|
      ensures !s.ts[t].pc.Failed?
    {
      assert ThreadOk(s.cells, s.ts[t], t);
    }
  }

  ghost predicate SameShape(s: State, s': State) {
    && |s'.cells| == |s.cells| && |s'.ts| == |s.ts|
    && forall u :: 0 <= u < |s.ts| ==> s'.ts[u].txn == s.ts[u].txn
  }

  lemma {:induction false} AcquireShape(s: State, t: nat, stale: nat)
    requires t < |s.ts|
    ensures SameShape(s, StepAcquire(s, t, stale))
  {}

  lemma {:induction false} BodyShape(s: State, t: nat)
    requires t < |s.ts|
    ensures SameShape(s, StepBody(s, t))
  {}

  lemma {:induction false} BackShape(s: State, t: nat)
    requires t < |s.ts|
    ensures SameShape(s, StepBack(s, t))
  {}

  lemma {:induction false} StepShape(s: State, t: nat, stale: nat)
    requires t < |s.ts|
    ensures SameShape(s, Step(s, t, stale))
  {
    AcquireShape(s, t, stale);
    BodyShape(s, t);
    BackShape(s, t);
  }

  lemma {:induction false} SizesStay(store: seq<Val>, txns: seq<Txn>, stale: nat, sched: seq<(nat, nat)>)
    requires Schedule(|txns|, sched)
    ensures var s := Exec(Init(store, txns, stale), sched);
      |s.cells| == |store| && |s.ts| == |txns| && forall t :: 0 <= t < |txns| ==> s.ts[t].txn == txns[t]
    decreases |sched|
  {
    if sched != [] {
      var k := |sched| - 1;
      SizesStay(store, txns, stale, sched[..k]);
      StepShape(Exec(Init(store, txns, stale), sched[..k]), sched[k].0, sched[k].1);
    }
  }

  // ---- What a transaction holds does not change under it -------------------------

  predicate SameData(c: Cell, c': Cell) {
    c'.word == c.word && c'.tag.typ == c.tag.typ
  }

  /** A thread that writes a data word or changes the type of an element holds it for writing. */
  lemma {:induction false} ChangesOwn(s: State, u: nat, stale: nat, e: nat)
    requires LocksInv(s) && u < |s.ts| && e < |s.cells| && s.cells[e].writer != u
    ensures |Step(s, u, stale).cells| == |s.cells| && SameData(s.cells[e], Step(s, u, stale).cells[e])
  {
    var th := s.ts[u];
    assert ThreadOk(s.cells, th, u);
    if Acquiring(th.pc) {
      AcquireSame(s, u, stale, e);
    } else if Running(th.pc) {
      assert Legal(th.txn, th.txn.body(th.log));
      if th.pc.WriteData? || th.pc.WriteTag? {
        WriterHolds(s, u, th.pc.e);
      }
    } else if th.pc.BackSwap? || th.pc.BackData? || th.pc.BackStore? {
      assert Holding(th, th.pc.i) && th.txn.locks[th.pc.i] == Lock(th.txn.locks[th.pc.i].elem, false);
      assert Match(s.cells[th.txn.locks[th.pc.i].elem], th, u, th.txn.locks[th.pc.i].elem);
    } else {
      EndSame(s, u, e);
    }
  }

  lemma {:induction false} AcquireSame(s: State, u: nat, stale: nat, e: nat)
    requires u < |s.ts| && e < |s.cells| && ThreadOk(s.cells, s.ts[u], u) && Acquiring(s.ts[u].pc)
    ensures |StepAcquire(s, u, stale).cells| == |s.cells| && SameData(s.cells[e], StepAcquire(s, u, stale).cells[e])
  {}

  lemma {:induction false} EndSame(s: State, u: nat, e: nat)
    requires u < |s.ts| && e < |s.cells| && ThreadOk(s.cells, s.ts[u], u)
    requires !s.ts[u].pc.BackSwap? && !s.ts[u].pc.BackData? && !s.ts[u].pc.BackStore?
    ensures |StepEnd(s, u).cells| == |s.cells| && SameData(s.cells[e], StepEnd(s, u).cells[e])
  {}

  /** What a transaction has read from an element it holds stays there, whatever the others
      do meanwhile; so a text that it copies out only after the read has returned is the
      one it read. */
  lemma {:induction false} HeldStays(s: State, t: nat, e: nat, ro: bool, sched: seq<(nat, nat)>)
    requires LocksInv(s) && t < |s.ts| && e < |s.cells| && HoldsElem(s.ts[t], e, ro)
    requires Schedule(|s.ts|, sched) && forall k :: 0 <= k < |sched| ==> sched[k].0 != t
    ensures var s' := Exec(s, sched);
      |s'.cells| == |s.cells| && s'.ts[t] == s.ts[t] && SameData(s.cells[e], s'.cells[e]) && LocksInv(s')
    decreases |sched|
  {
    if sched != [] {
      var k := |sched| - 1;
      HeldStays(s, t, e, ro, sched[..k]);
      OtherStepSame(Exec(s, sched[..k]), t, e, ro, sched[k].0, sched[k].1);
    }
  }

  lemma {:induction false} OtherStepSame(s: State, t: nat, e: nat, ro: bool, u: nat, stale: nat)
    requires LocksInv(s) && t < |s.ts| && e < |s.cells| && HoldsElem(s.ts[t], e, ro) && u < |s.ts| && u != t
    ensures var s' := Step(s, u, stale);
      |s'.ts| == |s.ts| && |s'.cells| == |s.cells| && s'.ts[t] == s.ts[t] && SameData(s.cells[e], s'.cells[e]) && LocksInv(s')
  {
    assert Match(s.cells[e], s.ts[t], t, e) && CellOk(s.cells[e]) && Match(s.cells[e], s.ts[u], u, e);
    assert s.cells[e].writer != u;
    ChangesOwn(s, u, stale, e);
    StepKeepsLocks(s, u, stale);
    OthersStay(s, t, u, stale);
  }

  lemma {:induction false} OthersStay(s: State, t: nat, u: nat, stale: nat)
    requires t < |s.ts| && u < |s.ts| && u != t
    ensures |Step(s, u, stale).ts| == |s.ts| && Step(s, u, stale).ts[t] == s.ts[t]
  {
    assert StepAcquire(s, u, stale).ts[t] == s.ts[t] && |StepAcquire(s, u, stale).ts| == |s.ts|;
    assert StepBody(s, u).ts[t] == s.ts[t] && |StepBody(s, u).ts| == |s.ts|;
    assert StepBack(s, u).ts[t] == s.ts[t] && |StepBack(s, u).ts| == |s.ts|;
  }

  // ---- Deadlock freedom ---------------------------------------------------------

  /** What a transaction has behind it: locks taken, actions done, or elements given back. */
  function Rank(th: Thread): (nat, nat) {
    match th.pc
    case AcqNone => (0, 0)
    case AcqLoad(i, _) => (0, 2 * i)
    case AcqSwap(i, _) => (0, 2 * i)
    case AcqData(i, _) => (0, 2 * i + 1)
    case AcqStore(i, _, _) => (0, 2 * i + 1)
    case EndLock(i, _) => (2, 2 * i)
    case RelSwap(i, _, _) => (2, 2 * i)
    case SetStore(i, _) => (2, 2 * i)
    case BackSwap(i, _) => (2, 2 * i)
    case BackLoad(i) => (2, 2 * i + 1)
    case BackData(i, _) => (2, 2 * i + 1)
    case BackCheck(i, _) => (2, 2 * i + 1)
    case BackStore(i, _) => (2, 2 * i + 1)
    case Done(_) => (3, 0)
    case Failed => (0, 0)
    case _ => (1, |th.log|)
  }

  predicate Before(a: (nat, nat), b: (nat, nat)) {
    a.0 < b.0 || (a.0 == b.0 && a.1 < b.1)
  }

  /** Thread `t`, run alone, is past `rank` after at most `k` steps. */
  ghost predicate Passes(s: State, t: nat, stale: nat, rank: (nat, nat), k: nat)
    requires t < |s.ts|
    decreases k
  {
    Before(rank, Rank(s.ts[t])) || (k > 0 && Passes(Step(s, t, stale), t, stale, rank, k - 1))
  }

  /** Thread `t` does not wait: run alone, it gets further within four steps. */
  ghost predicate GoesOn(s: State, t: nat, stale: nat)
    requires t < |s.ts|
  {
    Passes(s, t, stale, Rank(s.ts[t]), 4)
  }

  lemma {:induction false} PassesLonger(s: State, t: nat, stale: nat, rank: (nat, nat), k: nat, m: nat)
    requires t < |s.ts| && Passes(s, t, stale, rank, k) && k <= m
    ensures Passes(s, t, stale, rank, m)
    decreases k
  {
    if !Before(rank, Rank(s.ts[t])) {
      PassesLonger(Step(s, t, stale), t, stale, rank, k - 1, m - 1);
    }
  }

  /** How many steps of its own a transaction needs to get further when nothing is in its way. */
  function Needs(th: Thread): nat {
    match th.pc
    case AcqLoad(_, _) => 2
    case AcqSwap(_, _) => 3
    case AcqData(_, _) => 2
    case Body => 3
    case WriteData(_, _, _) => 2
    case RelSwap(_, _, _) => 3
    case EndLock(_, _) => 2
    case BackLoad(_) => 4
    case BackData(_, _) => 3
    case BackCheck(_, _) => 2
    case _ => 1
  }

  /** A transaction with nothing to wait for: it is about to return from tmStart, is in its
      body, or has an element BUSY. */
  predicate Unhindered(pc: Pc) {
    pc.AcqNone? || pc.AcqData? || pc.AcqStore? || Running(pc) ||
    pc.BackLoad? || pc.BackData? || pc.BackCheck? || pc.BackStore?
  }

  /** One step either gets the transaction further or leaves it unhindered with less to do. */
  ghost predicate Nearer(th: Thread, th': Thread) {
    || Before(Rank(th), Rank(th'))
    || (Rank(th') == Rank(th) && Unhindered(th'.pc) && Needs(th') < Needs(th))
  }

  lemma {:induction false} AcquireNearer(s: State, t: nat, stale: nat)
    requires LocksInv(s) && t < |s.ts| && Unhindered(s.ts[t].pc) && Acquiring(s.ts[t].pc)
    ensures Nearer(s.ts[t], StepAcquire(s, t, stale).ts[t])
  {
    assert ThreadOk(s.cells, s.ts[t], t);
  }

  lemma {:induction false} BodyNearer(s: State, t: nat)
    requires LocksInv(s) && t < |s.ts| && Running(s.ts[t].pc)
    ensures Nearer(s.ts[t], StepBody(s, t).ts[t])
  {
    var th := s.ts[t];
    assert ThreadOk(s.cells, th, t);
    assert Legal(th.txn, th.txn.body(th.log));
  }

  lemma {:induction false} BackNearer(s: State, t: nat)
    requires LocksInv(s) && t < |s.ts| && Unhindered(s.ts[t].pc) && !Acquiring(s.ts[t].pc) && !Running(s.ts[t].pc)
    ensures Nearer(s.ts[t], StepBack(s, t).ts[t])
  {
    assert ThreadOk(s.cells, s.ts[t], t);
  }

  lemma {:induction false} UnhinderedPasses(s: State, t: nat, stale: nat)
    requires LocksInv(s) && t < |s.ts| && Unhindered(s.ts[t].pc)
    ensures Passes(s, t, stale, Rank(s.ts[t]), Needs(s.ts[t]))
    decreases Needs(s.ts[t]), 1
  {
    var th := s.ts[t];
    var s1 := Step(s, t, stale);
    if Acquiring(th.pc) {
      AcquireNearer(s, t, stale);
    } else if Running(th.pc) {
      BodyNearer(s, t);
    } else {
      BackNearer(s, t);
    }
    StepKeepsLocks(s, t, stale);
    NearerPasses(s, s1, t, stale);
  }

  lemma {:induction false} NearerPasses(s: State, s1: State, t: nat, stale: nat)
    requires t < |s.ts| && s1 == Step(s, t, stale) && |s1.ts| == |s.ts| && LocksInv(s1)
    requires Nearer(s.ts[t], s1.ts[t])
    ensures Passes(s, t, stale, Rank(s.ts[t]), Needs(s.ts[t]))
    decreases Needs(s.ts[t]), 0
  {
    var th := s.ts[t];
    if Before(Rank(th), Rank(s1.ts[t])) {
      assert Passes(s1, t, stale, Rank(th), 0);
      PassesLonger(s, t, stale, Rank(th), 1, Needs(th));
    } else {
      UnhinderedPasses(s1, t, stale);
      PassesLonger(s1, t, stale, Rank(th), Needs(s1.ts[t]), Needs(th) - 1);
    }
  }

  lemma {:induction false} UnhinderedGoesOn(s: State, t: nat, stale: nat)
    requires LocksInv(s) && t < |s.ts| && Unhindered(s.ts[t].pc)
    ensures GoesOn(s, t, stale)
  {
    UnhinderedPasses(s, t, stale);
    PassesLonger(s, t, stale, Rank(s.ts[t]), Needs(s.ts[t]), 4);
  }

  predicate GivingBack(pc: Pc) {
    pc.EndLock? || pc.RelSwap? || pc.SetStore? || pc.BackSwap?
  }

  /** How many steps a transaction needs to give back, or have BUSY, its next element. */
  function EndNeeds(s: State, th: Thread): nat {
    if th.pc.EndLock? then 2
    else if th.pc.RelSwap? && Indexed(th, th.pc.i, |s.cells|) && s.cells[th.txn.locks[th.pc.i].elem].tag != th.pc.mem then 3
    else 1
  }

  predicate NextAvailable(s: State, th: Thread)
    requires GivingBack(th.pc)
  {
    Indexed(th, th.pc.i, |s.cells|) ==> s.cells[th.txn.locks[th.pc.i].elem].tag.fe != Busy
  }

  lemma {:induction false} EndNearer(s: State, t: nat)
    requires LocksInv(s) && t < |s.ts| && GivingBack(s.ts[t].pc) && NextAvailable(s, s.ts[t])
    ensures var th, s1 := s.ts[t], StepEnd(s, t);
      || Before((2, 2 * th.pc.i), Rank(s1.ts[t]))
      || (s1.cells == s.cells && s1.ts[t].txn == th.txn && GivingBack(s1.ts[t].pc) && s1.ts[t].pc.i == th.pc.i
          && EndNeeds(s1, s1.ts[t]) < EndNeeds(s, th))
  {
    var th := s.ts[t];
    assert ThreadOk(s.cells, th, t);
    var i := th.pc.i;
    if i < |th.txn.locks| {
      var l := th.txn.locks[i];
      assert Holding(th, i) && l == Lock(l.elem, l.ro);
      assert Match(s.cells[l.elem], th, t, l.elem) && CellOk(s.cells[l.elem]);
      if l.ro { ReaderCounts(s.cells[l.elem], t); }
    }
  }

  /** A transaction that gives back its elements waits only for one that is BUSY. */
  lemma {:induction false} EndPasses(s: State, t: nat, stale: nat)
    requires LocksInv(s) && t < |s.ts| && GivingBack(s.ts[t].pc) && NextAvailable(s, s.ts[t])
    ensures Passes(s, t, stale, (2, 2 * s.ts[t].pc.i), EndNeeds(s, s.ts[t]))
    decreases EndNeeds(s, s.ts[t])
  {
    var th, s1 := s.ts[t], Step(s, t, stale);
    var i, k := th.pc.i, EndNeeds(s, th);
    EndNearer(s, t);
    StepKeepsLocks(s, t, stale);
    StepShape(s, t, stale);
    if Before((2, 2 * i), Rank(s1.ts[t])) {
      assert Passes(s1, t, stale, (2, 2 * i), 0);
      PassesLonger(s, t, stale, (2, 2 * i), 1, k);
    } else {
      EndPasses(s1, t, stale);
      PassesLonger(s1, t, stale, (2, 2 * i), EndNeeds(s1, s1.ts[t]), k - 1);
    }
  }

  /** Whoever has an element BUSY does not wait. */
  lemma {:induction false} BusyOwnerGoesOn(s: State, e: nat, stale: nat)
    requires LocksInv(s) && e < |s.cells| && s.cells[e].tag.fe == Busy
    ensures 0 <= s.cells[e].busy < |s.ts| && !s.ts[s.cells[e].busy].pc.Done? && GoesOn(s, s.cells[e].busy, stale)
  {
    assert CellOk(s.cells[e]) && CellRange(s.cells[e], |s.ts|);
    var u := s.cells[e].busy;
    assert Match(s.cells[e], s.ts[u], u, e);
    UnhinderedGoesOn(s, u, stale);
  }

  // When every transaction that is not done is acquiring, none of them has BUSY.

  predicate Waiting(th: Thread) {
    th.pc.AcqLoad? || th.pc.AcqSwap?
  }

  /** The element a waiting transaction is about to lock. */
  function WaitsFor(th: Thread): nat
    requires Waiting(th)
  {
    if th.pc.i < |th.txn.locks| then th.txn.locks[th.pc.i].elem else 0
  }

  /** Of the first `n` transactions, the one that waits for the last element in the order. */
  lemma {:induction false} LastWaiter(ts: seq<Thread>, n: nat) returns (t: nat)
    requires n <= |ts| && exists u: nat :: u < n && Waiting(ts[u])
    ensures t < n && Waiting(ts[t]) && forall u: nat :: u < n && Waiting(ts[u]) ==> WaitsFor(ts[u]) <= WaitsFor(ts[t])
  {
    if exists u: nat :: u < n - 1 && Waiting(ts[u]) {
      t := LastWaiter(ts, n - 1);
      if Waiting(ts[n - 1]) && WaitsFor(ts[n - 1]) > WaitsFor(ts[t]) {
        t := n - 1;
      }
    } else {
      t := n - 1;
    }
  }

  /** A transaction that waits for an element holds only earlier ones. */
  lemma {:induction false} HoldsEarlier(s: State, u: nat, e: nat, ro: bool)
    requires LocksInv(s) && u < |s.ts| && (Waiting(s.ts[u]) || s.ts[u].pc.Done?) && HoldsElem(s.ts[u], e, ro)
    ensures Waiting(s.ts[u]) && e < WaitsFor(s.ts[u])
  {
    assert ThreadOk(s.cells, s.ts[u], u);
    var i: nat :| Holding(s.ts[u], i) && s.ts[u].txn.locks[i] == Lock(e, ro);
  }

  /** A full element lets whoever waits for it go on. */
  lemma {:induction false} WaiterPasses(s: State, t: nat, stale: nat, k: nat)
    requires LocksInv(s) && t < |s.ts| && Waiting(s.ts[t]) && WaitsFor(s.ts[t]) < |s.cells|
    requires s.cells[WaitsFor(s.ts[t])].tag.fe == Full && s.cells[WaitsFor(s.ts[t])].tag.rw == 0
    requires k == if s.ts[t].pc.AcqLoad? then 2
                  else if s.ts[t].pc.i < |s.ts[t].txn.locks| && s.cells[WaitsFor(s.ts[t])].tag == ReadOld(Initial(s.ts[t].txn.locks[s.ts[t].pc.i]), s.ts[t].pc.mem) then 1 else 3
    ensures Passes(s, t, stale, (0, 2 * s.ts[t].pc.i), k)
    decreases k
  {
    var th := s.ts[t];
    assert ThreadOk(s.cells, th, t);
    var s1 := Step(s, t, stale);
    StepKeepsLocks(s, t, stale);
    if k == 1 {
      assert Passes(s1, t, stale, (0, 2 * th.pc.i), 0);
    } else {
      assert s1.cells == s.cells;
      WaiterPasses(s1, t, stale, k - 1);
    }
  }

  lemma {:induction false} BusyHasOwner(s: State, e: nat)
    requires LocksInv(s) && e < |s.cells|
    ensures s.cells[e].busy == -1 || exists u: nat :: u < |s.ts| && BusyElem(s.ts[u], e)
  {
    var b := s.cells[e].busy;
    assert CellRange(s.cells[e], |s.ts|);
    if b != -1 {
      assert Match(s.cells[e], s.ts[b], b, e);
    }
  }

  lemma {:induction false} LastWaiterGoesOn(s: State, t: nat, stale: nat)
    requires LocksInv(s) && t < |s.ts| && Waiting(s.ts[t])
    requires forall u: nat :: u < |s.ts| ==> Waiting(s.ts[u]) || s.ts[u].pc.Done?
    requires forall u: nat :: u < |s.ts| && Waiting(s.ts[u]) ==> WaitsFor(s.ts[u]) <= WaitsFor(s.ts[t])
    ensures GoesOn(s, t, stale)
  {
    var th := s.ts[t];
    assert ThreadOk(s.cells, th, t);
    var e := WaitsFor(th);
    HoldersOf(s, e);
    forall u: nat, ro: bool | u < |s.ts|
      ensures !HoldsElem(s.ts[u], e, ro)
    {
      if HoldsElem(s.ts[u], e, ro) { HoldsEarlier(s, u, e, ro); }
    }
    assert s.cells[e].readers == {} && s.cells[e].writer == -1;
    assert CellOk(s.cells[e]) && CellRange(s.cells[e], |s.ts|);
    BusyHasOwner(s, e);
    assert s.cells[e].tag.fe == Full && s.cells[e].tag.rw == 0;
    var k := if th.pc.AcqLoad? then 2
             else if s.cells[e].tag == ReadOld(Initial(th.txn.locks[th.pc.i]), th.pc.mem) then 1 else 3;
    WaiterPasses(s, t, stale, k);
    PassesLonger(s, t, stale, (0, 2 * th.pc.i), k, 4);
  }

  /** Some transaction is not done and does not wait. */
  ghost predicate SomeGoesOn(s: State, stale: nat) {
    exists t: nat :: t < |s.ts| && !s.ts[t].pc.Done? && GoesOn(s, t, stale)
  }

  /** Deadlock freedom: in every reachable state, even with reader counts at their limit,
      if some transaction is not done then some transaction does not wait. */
  lemma {:induction false} DeadlockFree(store: seq<Val>, txns: seq<Txn>, stale: nat, sched: seq<(nat, nat)>)
    requires forall k :: 0 <= k < |txns| ==> WellFormed(txns[k], |store|)
    requires Schedule(|txns|, sched)
    ensures var s := Exec(Init(store, txns, stale), sched);
      (exists t: nat :: t < |s.ts| && !s.ts[t].pc.Done?) ==> SomeGoesOn(s, stale)
  {
    var s := Exec(Init(store, txns, stale), sched);
    LocksAlways(store, txns, stale, sched);
    if t: nat :| t < |s.ts| && !s.ts[t].pc.Done? {
      NotDoneGoesOn(s, t, stale);
    }
  }

  lemma {:induction false} NotDoneGoesOn(s: State, t: nat, stale: nat)
    requires LocksInv(s) && t < |s.ts| && !s.ts[t].pc.Done?
    ensures SomeGoesOn(s, stale)
  {
    if forall u: nat :: u < |s.ts| ==> Waiting(s.ts[u]) || s.ts[u].pc.Done? {
      var u := LastWaiter(s.ts, |s.ts|);
      LastWaiterGoesOn(s, u, stale);
    } else {
      var u: nat :| u < |s.ts| && !Waiting(s.ts[u]) && !s.ts[u].pc.Done?;
      SomeoneGoesOn(s, u, stale);
    }
  }

  /** A transaction that is neither done nor acquiring goes on, or one that has BUSY does. */
  lemma {:induction false} SomeoneGoesOn(s: State, u: nat, stale: nat)
    requires LocksInv(s) && u < |s.ts| && !Waiting(s.ts[u]) && !s.ts[u].pc.Done?
    ensures SomeGoesOn(s, stale)
  {
    var th := s.ts[u];
    assert ThreadOk(s.cells, th, u);
    if Unhindered(th.pc) {
      UnhinderedGoesOn(s, u, stale);
    } else if Indexed(th, th.pc.i, |s.cells|) && s.cells[th.txn.locks[th.pc.i].elem].tag.fe == Busy {
      BusyOwnerGoesOn(s, th.txn.locks[th.pc.i].elem, stale);
    } else {
      EndPasses(s, u, stale);
      PassesLonger(s, u, stale, (2, 2 * th.pc.i), EndNeeds(s, th), 4);
    }
  }
}
