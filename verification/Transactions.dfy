/** Transactions over any number of elements, run by any number of threads.

    A transaction locks its elements in ascending order (readRW for read-only elements,
    readFE for the others), then reads and writes elements it holds, and finally commits
    or aborts, giving the elements back one by one.  Every load, store and compare and
    swap of a tag, and every load and store of a data word, is one step.

    Each transaction is a thread of its own, so that any number of them may be at any
    point; the fields `readers`, `writer`, `busy`, `pos` and `order` record what happened
    and do not influence any step. */
module Transactions {
  import opened Tags

  /** One entry of the argument of tmStart. */
  datatype Lock = Lock(elem: nat, ro: bool)

  datatype Action =
    | Read(e: nat)
    | Write(e: nat, v: Val)
    | End(commit: bool)

  /** What a transaction locks, and what it does next given everything it has been told:
      the values tmStart returned, then the value of each read and write since. */
  datatype Txn = Txn(locks: seq<Lock>, body: seq<Val> -> Action)

  datatype Pc =
    // tmStart: reading lock number `i`, or leaving with nothing to lock.
    | AcqNone
    | AcqLoad(i: nat, stale: nat)
    | AcqSwap(i: nat, mem: Tag)
    | AcqData(i: nat, held: Tag)
    | AcqStore(i: nat, held: Tag, got: Val)
    // The transaction itself.
    | Body
    | BodyRead(e: nat, typ: Type)
    | WriteData(e: nat, v: Val, mem: Tag)
    | WriteTag(e: nat, v: Val, mem: Tag)
    // tmEnd: giving back element number `i`.
    | EndLock(i: nat, commit: bool)
    | RelSwap(i: nat, commit: bool, mem: Tag)
    | SetStore(i: nat, mem: Tag)
    | BackSwap(i: nat, mem: Tag)
    | BackLoad(i: nat)
    | BackData(i: nat, mem: Tag)
    | BackCheck(i: nat, mem: Tag)
    | BackStore(i: nat, mem: Tag)
    | Done(commit: bool)
    | Failed

  datatype Cell = Cell(tag: Tag, word: Val, readers: set<nat>, writer: int, busy: int)

  datatype Thread = Thread(txn: Txn, pc: Pc, log: seq<Val>, pos: int)

  datatype State = State(cells: seq<Cell>, ts: seq<Thread>, order: seq<nat>)

  function Content(c: Cell): Val {
    Decode(c.tag.typ, c.word)
  }

  /** Distinct elements in ascending order, and a body that uses what is locked. */
  ghost predicate WellFormed(x: Txn, size: nat) {
    && (forall i :: 0 <= i < |x.locks| ==> x.locks[i].elem < size)
    && (forall i, j :: 0 <= i < j < |x.locks| ==> x.locks[i].elem < x.locks[j].elem)
    && (forall log: seq<Val> {:trigger x.body(log)} :: Legal(x, x.body(log)))
  }

  /** A read is of a locked element, a write of an element locked for writing. */
  ghost predicate Legal(x: Txn, a: Action) {
    match a
    case Read(e) => exists i :: 0 <= i < |x.locks| && x.locks[i].elem == e
    case Write(e, v) => !v.VInvalid? && Lock(e, false) in x.locks
    case End(_) => true
  }

  function Initial(l: Lock): Fe {
    if l.ro then RwLock else Full
  }

  function Final(l: Lock): Fe {
    if l.ro then RwLock else Empty
  }

  // ---- Steps -----------------------------------------------------------------

  function SetPc(s: State, t: nat, pc: Pc): State
    requires t < |s.ts|
  {
    s.(ts := s.ts[t := s.ts[t].(pc := pc)])
  }

  function SetCell(s: State, e: nat, c: Cell): State {
    if e < |s.cells| then s.(cells := s.cells[e := c]) else s
  }

  /** All elements are locked: tmStart returns. */
  function Enter(s: State, t: nat, th: Thread): State
    requires t < |s.ts|
  {
    s.(ts := s.ts[t := th.(pc := Body, pos := |s.order|)], order := s.order + [t])
  }

  /** EMSreadUsingTags for lock number `pc.i` of tmStart. */
  function StepAcquire(s: State, t: nat, stale: nat): State
    requires t < |s.ts|
  {
    var th := s.ts[t];
    var x := th.txn;
    match th.pc
    case AcqNone => Enter(s, t, th)
    case AcqLoad(i, st) =>
      if i < |x.locks| && x.locks[i].elem < |s.cells| then
        var c := s.cells[x.locks[i].elem];
        if ReadReady(Initial(x.locks[i]), c.tag, st) then SetPc(s, t, AcqSwap(i, c.tag)) else s
      else s
    case AcqSwap(i, mem) =>
      if i < |x.locks| && x.locks[i].elem < |s.cells| then
        var e, initial := x.locks[i].elem, Initial(x.locks[i]);
        var c, held := s.cells[e], ReadBusy(initial, mem);
        if c.tag == ReadOld(initial, mem) then
          SetPc(SetCell(s, e, c.(tag := held, busy := t)), t, AcqData(i, held))
        else
          SetPc(s, t, AcqLoad(i, held.rw))
      else s
    case AcqData(i, held) =>
      if i < |x.locks| && x.locks[i].elem < |s.cells| then
        SetPc(s, t, AcqStore(i, held.(fe := Final(x.locks[i])), Decode(held.typ, s.cells[x.locks[i].elem].word)))
      else s
    case AcqStore(i, held, got) =>
      if i < |x.locks| && x.locks[i].elem < |s.cells| then
        var e := x.locks[i].elem;
        var c := s.cells[e].(tag := held, busy := -1);
        var s' := SetCell(s, e, if x.locks[i].ro then c.(readers := c.readers + {t}) else c.(writer := t));
        var th' := th.(log := th.log + [got]);
        if i + 1 == |x.locks| then Enter(s', t, th')
        else s'.(ts := s'.ts[t := th'.(pc := AcqLoad(i + 1, stale))])
      else s
    case _ => s
  }

  /** The transaction reads or writes an element whatever its tag, or decides its end. */
  function StepBody(s: State, t: nat): State
    requires t < |s.ts|
  {
    var th := s.ts[t];
    match th.pc
    case Body =>
      (match th.txn.body(th.log)
       case Read(e) => if e < |s.cells| then SetPc(s, t, BodyRead(e, s.cells[e].tag.typ)) else s
       case Write(e, v) => if e < |s.cells| then SetPc(s, t, WriteData(e, v, s.cells[e].tag)) else s
       case End(commit) => SetPc(s, t, EndLock(0, commit)))
    case BodyRead(e, typ) =>
      if e < |s.cells| then
        s.(ts := s.ts[t := th.(pc := Body, log := th.log + [Decode(typ, s.cells[e].word)])])
      else s
    case WriteData(e, v, mem) =>
      if e < |s.cells| then SetPc(SetCell(s, e, s.cells[e].(word := v)), t, WriteTag(e, v, mem)) else s
    case WriteTag(e, v, mem) =>
      if e < |s.cells| then
        var s' := SetCell(s, e, s.cells[e].(tag := mem.(typ := TypeOf(v))));
        s'.(ts := s'.ts[t := th.(pc := Body, log := th.log + [v])])
      else s
    case _ => s
  }

  /** tmEnd: releaseRW of read-only elements; setTag to full of the others on commit, and
      writeEF of the value tmStart returned on abort.  The source swaps in the released tag
      whatever the count is; a count of zero has been turned away before, so that asking
      for a positive one in RelSwap only makes Released defined. */
  function StepEnd(s: State, t: nat): State
    requires t < |s.ts|
  {
    var th := s.ts[t];
    var x := th.txn;
    match th.pc
    case EndLock(i, commit) =>
      if i < |x.locks| && x.locks[i].elem < |s.cells| then
        var tag := s.cells[x.locks[i].elem].tag;
        if x.locks[i].ro then
          if tag.fe == RwLock then SetPc(s, t, if tag.rw == 0 then Failed else RelSwap(i, commit, tag))
          else if tag.fe != Busy then SetPc(s, t, Failed)
          else s
        else SetPc(s, t, if commit then SetStore(i, tag) else BackSwap(i, tag))
      else SetPc(s, t, Done(commit))
    case RelSwap(i, commit, mem) =>
      if i < |x.locks| && x.locks[i].elem < |s.cells| then
        var e := x.locks[i].elem;
        var c := s.cells[e];
        if c.tag == mem && mem.rw > 0 then
          SetPc(SetCell(s, e, c.(tag := Released(mem), readers := c.readers - {t})), t, EndLock(i + 1, commit))
        else SetPc(s, t, EndLock(i, commit))
      else s
    case SetStore(i, mem) =>
      if i < |x.locks| && x.locks[i].elem < |s.cells| then
        var e := x.locks[i].elem;
        SetPc(SetCell(s, e, s.cells[e].(tag := mem.(fe := Full), writer := -1)), t, EndLock(i + 1, true))
      else s
    case _ => StepBack(s, t)
  }

  /** EMSwriteUsingTags from EMPTY to FULL, of the original value. */
  function StepBack(s: State, t: nat): State
    requires t < |s.ts|
  {
    var th := s.ts[t];
    var x := th.txn;
    match th.pc
    case BackSwap(i, mem) =>
      if i < |x.locks| && x.locks[i].elem < |s.cells| then
        var e := x.locks[i].elem;
        var c := s.cells[e];
        if c.tag == mem.(fe := Empty) then
          SetPc(SetCell(s, e, c.(tag := mem.(fe := Busy), busy := t)), t, BackLoad(i))
        else SetPc(s, t, EndLock(i, false))
      else s
    case BackLoad(i) =>
      if i < |x.locks| && x.locks[i].elem < |s.cells| then
        SetPc(s, t, BackData(i, s.cells[x.locks[i].elem].tag))
      else s
    case BackData(i, mem) =>
      if i < |x.locks| && x.locks[i].elem < |s.cells| && i < |th.log| then
        var e := x.locks[i].elem;
        SetPc(SetCell(s, e, s.cells[e].(word := th.log[i])), t, BackCheck(i, mem.(fe := Busy)))
      else s
    case BackCheck(i, mem) =>
      if i < |x.locks| && x.locks[i].elem < |s.cells| then
        SetPc(s, t, if s.cells[x.locks[i].elem].tag != mem then Failed else BackStore(i, mem))
      else s
    case BackStore(i, mem) =>
      if i < |x.locks| && x.locks[i].elem < |s.cells| && i < |th.log| then
        var e := x.locks[i].elem;
        SetPc(SetCell(s, e, s.cells[e].(tag := Tag(Full, TypeOf(th.log[i]), 0), busy := -1, writer := -1)), t, EndLock(i + 1, false))
      else s
    case _ => s
  }

  predicate Acquiring(pc: Pc) {
    pc.AcqNone? || pc.AcqLoad? || pc.AcqSwap? || pc.AcqData? || pc.AcqStore?
  }

  predicate Running(pc: Pc) {
    pc.Body? || pc.BodyRead? || pc.WriteData? || pc.WriteTag?
  }

  function Step(s: State, t: nat, stale: nat): State
    requires t < |s.ts|
  {
    if Acquiring(s.ts[t].pc) then StepAcquire(s, t, stale)
    else if Running(s.ts[t].pc) then StepBody(s, t)
    else StepEnd(s, t)
  }

  /** Who runs at each step, and what its uninitialised variable holds if it starts a read. */
  predicate Schedule(n: nat, sched: seq<(nat, nat)>) {
    forall k :: 0 <= k < |sched| ==> sched[k].0 < n
  }

  function Exec(s: State, sched: seq<(nat, nat)>): (r: State)
    requires Schedule(|s.ts|, sched)
    ensures |r.ts| == |s.ts|
    decreases |sched|
  {
    if sched == [] then s
    else
      var k := |sched| - 1;
      Step(Exec(s, sched[..k]), sched[k].0, sched[k].1)
  }

  function Begin(x: Txn, stale: nat): Thread {
    Thread(x, if x.locks == [] then AcqNone else AcqLoad(0, stale), [], -1)
  }

  /** All elements full, all transactions at the start of tmStart. */
  function Init(store: seq<Val>, txns: seq<Txn>, stale: nat): State {
    State(seq(|store|, e requires 0 <= e < |store| => Cell(Tag(Full, TypeOf(store[e]), 0), store[e], {}, -1, -1)),
          seq(|txns|, t requires 0 <= t < |txns| => Begin(txns[t], stale)), [])
  }
}
