/** Texts that are copied out of the heap after the tag has been given back: when the caller
    still gets what was read, and when not. */
module TagCopy {
  import opened Tags
  import opened TagCell
  import opened TagUse

  /** The pc of the thread that owns the element. */
  function OwnerPc(s: State): Pc {
    if 0 <= s.owner < |s.ts| then s.ts[s.owner].pc else Idle
  }

  /** The owner has given back, or is about to replace, what the element held. */
  predicate Overwriting(pc: Pc) {
    pc.WriteData? || pc.WriteCheck? || pc.WriteStore? || pc.FaaStore? || (pc.CasStore? && pc.got == pc.cmp)
  }

  /** The primitive replaces the value of the element. */
  predicate Mutates(e: Event) {
    e.op.WriteEF? || e.op.Faa? || (e.op.Cas? && e.ret == e.op.cmp)
  }

  /** A text element owns the block its text is in. */
  predicate BlockOk(s: State) {
    match OwnerPc(s)
    case WriteData(_, _) => true
    case WriteCheck(v, _) => HasText(v) ==> s.live
    case WriteStore(v, _) => HasText(v) ==> s.live
    case FaaStore(_, tag, _) => IsText(tag.typ) ==> s.live && TypeOf(s.word) == tag.typ
    case CasStore(o, _, typ, got) => (IsText(typ) ==> s.live && TypeOf(s.word) == typ) && (got != o ==> typ == s.tag.typ)
    case ReadStore(_, _, _, _, ptr) => ptr == s.at && (IsText(s.tag.typ) ==> s.live && TypeOf(s.word) == s.tag.typ)
    case _ => IsText(s.tag.typ) ==> s.live && TypeOf(s.word) == s.tag.typ
  }

  /** Text `got` is still at `ptr`, in the block of the element. */
  predicate Current(s: State, ptr: nat, got: Val) {
    s.live && s.at == ptr && s.word == got && IsText(s.tag.typ) && !Overwriting(OwnerPc(s))
  }

  /** Since entry `place` of the history the value has been replaced, or it is just being. */
  ghost predicate Mutated(s: State, place: nat) {
    Overwriting(OwnerPc(s)) || exists m :: place < m < |s.log| && Mutates(s.log[m].1)
  }

  /** A thread that copies a text has it in the history, and the text is still there unless it
      has been replaced, which no thread does while this one has a reader's hold. */
  ghost predicate CopyOk(s: State, i: nat)
    requires i < |s.ts|
  {
    match s.ts[i].pc
    case Copy(op, ptr, got, place) =>
      && place < |s.log| && s.log[place] == (i, Event(op, got))
      && |s.ts[i].logged| > 0 && s.ts[i].logged[|s.ts[i].logged| - 1] == Event(op, got)
      && (Current(s, ptr, got) || (!op.ReadRW? && Mutated(s, place)))
    case _ => true
  }

  ghost predicate CopyInv(s: State) {
    BlockOk(s) && forall i: nat {:trigger s.ts[i]} :: i < |s.ts| ==> CopyOk(s, i)
  }

  // ---- What steps do to the text -----------------------------------------------

  /** Nothing happens to the text of the element. */
  ghost predicate TextStays(s: State, s': State) {
    && s'.live == s.live && s'.at == s.at && s'.word == s.word && s'.tag.typ == s.tag.typ
    && Overwriting(OwnerPc(s')) == Overwriting(OwnerPc(s)) && s.log <= s'.log
  }

  /** The owner starts to replace the text, goes on, or is done. */
  ghost predicate TextGoes(s: State, s': State) {
    s.log <= s'.log && (Overwriting(OwnerPc(s')) || (Overwriting(OwnerPc(s)) && |s'.log| == |s.log| + 1 && Mutates(s'.log[|s.log|].1)))
  }

  lemma {:induction false} CopyStays(s: State, s': State, i: nat)
    requires i < |s.ts| == |s'.ts| && s'.ts[i] == s.ts[i] && CopyOk(s, i) && TextStays(s, s')
    ensures CopyOk(s', i)
  {
    if s.ts[i].pc.Copy? && !Current(s, s.ts[i].pc.ptr, s.ts[i].pc.got) {
      var place := s.ts[i].pc.place;
      if m :| place < m < |s.log| && Mutates(s.log[m].1) {
        assert s'.log[m] == s.log[m];
      }
    }
  }

  lemma {:induction false} CopyGoes(fmt: Val -> string, s: State, s': State, i: nat)
    requires Inv(fmt, s) && i < |s.ts| == |s'.ts| && s'.ts[i] == s.ts[i] && CopyOk(s, i) && TextGoes(s, s') && !s.abs.AShared?
    ensures CopyOk(s', i)
  {
    if s.ts[i].pc.Copy? {
      var place := s.ts[i].pc.place;
      HoldsUpdate(s.ts, i, s.ts[i]);
      assert LocalOk(s.ts[i]);
      if !Overwriting(OwnerPc(s')) {
        assert Mutates(s'.log[|s.log|].1);
      }
    }
  }

  /** A step of thread `t` that is right about itself keeps the other threads' copies right. */
  lemma {:induction false} CopyRejoin(fmt: Val -> string, s: State, t: nat, s': State)
    requires Inv(fmt, s) && CopyInv(s) && t < |s.ts| == |s'.ts| && s'.ts == s.ts[t := s'.ts[t]]
    requires TextStays(s, s') || (TextGoes(s, s') && !s.abs.AShared?)
    requires BlockOk(s') && CopyOk(s', t)
    ensures CopyInv(s')
  {
    forall i: nat | i < |s'.ts|
      ensures CopyOk(s', i)
    {
      if i != t {
        assert CopyOk(s, i);
        if TextStays(s, s') { CopyStays(s, s', i); } else { CopyGoes(fmt, s, s', i); }
      }
    }
  }

  /** A thread that neither owned nor owns the element. */
  lemma {:induction false} LocalCopy(fmt: Val -> string, s: State, t: nat, s': State)
    requires Inv(fmt, s) && CopyInv(s) && t < |s.ts| == |s'.ts| && s'.ts == s.ts[t := s'.ts[t]]
    requires !Owns(s.ts[t].pc) && !Owns(s'.ts[t].pc) && !s'.ts[t].pc.Copy? && s'.owner == s.owner
    requires s'.live == s.live && s'.at == s.at && s'.word == s.word && s'.tag.typ == s.tag.typ && s.log <= s'.log
    ensures CopyInv(s')
  {
    assert s.owner != t;
    assert OwnerPc(s') == OwnerPc(s);
    CopyRejoin(fmt, s, t, s');
  }

  // ---- Every step keeps the invariant -------------------------------------------

  lemma {:induction false} OwnerIs(fmt: Val -> string, s: State, t: nat)
    requires Inv(fmt, s) && t < |s.ts|
    ensures Owns(s.ts[t].pc) <==> s.owner == t
    ensures Owns(s.ts[t].pc) ==> OwnerPc(s) == s.ts[t].pc
  {
    assert LocalOk(s.ts[t]);
  }

  lemma {:induction false} ReadTakesCopies(fmt: Val -> string, s: State, t: nat)
    requires Inv(fmt, s) && CopyInv(s) && t < |s.ts| && s.ts[t].pc.ReadSwap? && s.tag == ReadOld(s.ts[t].pc.initial, s.ts[t].pc.mem)
    ensures CopyInv(StepRead(s, t))
  {
    assert s.owner == -1 && LocalOk(s.ts[t]);
    CopyRejoin(fmt, s, t, StepRead(s, t));
  }

  lemma {:induction false} ReadDataCopies(fmt: Val -> string, s: State, t: nat)
    requires Inv(fmt, s) && CopyInv(s) && t < |s.ts| && s.ts[t].pc.ReadData?
    ensures CopyInv(StepRead(s, t))
  {
    OwnerIs(fmt, s, t);
    CopyRejoin(fmt, s, t, StepRead(s, t));
  }

  lemma {:induction false} ReadCopies(fmt: Val -> string, s: State, t: nat)
    requires Inv(fmt, s) && CopyInv(s) && t < |s.ts| && InRead(s.ts[t].pc) && !s.ts[t].pc.ReadStore?
    ensures CopyInv(StepRead(s, t))
  {
    var pc := s.ts[t].pc;
    if pc.ReadData? {
      ReadDataCopies(fmt, s, t);
    } else if pc.ReadSwap? && s.tag == ReadOld(pc.initial, pc.mem) {
      ReadTakesCopies(fmt, s, t);
    } else if StepRead(s, t) != s {
      PcMoves(fmt, s, t, StepRead(s, t).ts[t].pc);
    }
  }

  lemma {:induction false} ReadStoreCopies(fmt: Val -> string, s: State, t: nat)
    requires Inv(fmt, s) && CopyInv(s) && t < |s.ts| && s.ts[t].pc.ReadStore?
    ensures CopyInv(StepRead(s, t))
  {
    OwnerIs(fmt, s, t);
    CopyRejoin(fmt, s, t, StepRead(s, t));
  }

  lemma {:induction false} MoveTakesCopies(fmt: Val -> string, s: State, t: nat)
    requires Inv(fmt, s) && CopyInv(s) && t < |s.ts| && s.ts[t].pc.MoveSwap? && s.tag == s.ts[t].pc.mem.(fe := MoveFrom(s.ts[t].pc.op))
    ensures CopyInv(StepMove(s, t))
  {
    assert s.owner == -1 && LocalOk(s.ts[t]);
    CopyRejoin(fmt, s, t, StepMove(s, t));
  }

  lemma {:induction false} MoveCopies(fmt: Val -> string, s: State, t: nat)
    requires Inv(fmt, s) && CopyInv(s) && t < |s.ts| && InMove(s.ts[t].pc)
    ensures CopyInv(StepMove(s, t))
  {
    var pc := s.ts[t].pc;
    if pc.MoveSwap? && s.tag == pc.mem.(fe := MoveFrom(pc.op)) {
      MoveTakesCopies(fmt, s, t);
    } else {
      PcMoves(fmt, s, t, StepMove(s, t).ts[t].pc);
    }
  }

  lemma {:induction false} WriteCopies(fmt: Val -> string, s: State, t: nat, at: nat)
    requires Inv(fmt, s) && CopyInv(s) && t < |s.ts| && InWrite(s.ts[t].pc)
    ensures CopyInv(StepWrite(s, t, at))
  {
    OwnerIs(fmt, s, t);
    assert OwnerOk(fmt, s, s.ts[t].pc) && LocalOk(s.ts[t]);
    CopyRejoin(fmt, s, t, StepWrite(s, t, at));
  }

  lemma {:induction false} FaaReadCopies(fmt: Val -> string, s: State, t: nat, at: nat)
    requires Inv(fmt, s) && CopyInv(s) && t < |s.ts| && s.ts[t].pc.FaaRead?
    ensures CopyInv(StepFaa(fmt, s, t, at))
  {
    OwnerIs(fmt, s, t);
    CopyRejoin(fmt, s, t, StepFaa(fmt, s, t, at));
  }

  lemma {:induction false} FaaWriteCopies(fmt: Val -> string, s: State, t: nat, at: nat)
    requires Inv(fmt, s) && CopyInv(s) && t < |s.ts| && s.ts[t].pc.FaaWrite?
    ensures CopyInv(StepFaa(fmt, s, t, at))
  {
    OwnerIs(fmt, s, t);
    assert OwnerOk(fmt, s, s.ts[t].pc);
    CopyRejoin(fmt, s, t, StepFaa(fmt, s, t, at));
  }

  lemma {:induction false} FaaStoreCopies(fmt: Val -> string, s: State, t: nat, at: nat)
    requires Inv(fmt, s) && CopyInv(s) && t < |s.ts| && s.ts[t].pc.FaaStore?
    ensures CopyInv(StepFaa(fmt, s, t, at))
  {
    OwnerIs(fmt, s, t);
    assert OwnerOk(fmt, s, s.ts[t].pc);
    CopyRejoin(fmt, s, t, StepFaa(fmt, s, t, at));
  }

  lemma {:induction false} FaaCopies(fmt: Val -> string, s: State, t: nat, at: nat)
    requires Inv(fmt, s) && CopyInv(s) && t < |s.ts| && InFaa(s.ts[t].pc)
    ensures CopyInv(StepFaa(fmt, s, t, at))
  {
    if s.ts[t].pc.FaaRead? {
      FaaReadCopies(fmt, s, t, at);
    } else if s.ts[t].pc.FaaWrite? {
      FaaWriteCopies(fmt, s, t, at);
    } else {
      FaaStoreCopies(fmt, s, t, at);
    }
  }

  lemma {:induction false} CasWriteCopies(fmt: Val -> string, s: State, t: nat, at: nat)
    requires Inv(fmt, s) && CopyInv(s) && t < |s.ts| && s.ts[t].pc.CasWrite?
    ensures CopyInv(StepCas(s, t, at))
  {
    OwnerIs(fmt, s, t);
    assert OwnerOk(fmt, s, s.ts[t].pc);
    CopyRejoin(fmt, s, t, StepCas(s, t, at));
  }

  lemma {:induction false} CasStoreCopies(fmt: Val -> string, s: State, t: nat, at: nat)
    requires Inv(fmt, s) && CopyInv(s) && t < |s.ts| && s.ts[t].pc.CasStore?
    ensures CopyInv(StepCas(s, t, at))
  {
    OwnerIs(fmt, s, t);
    assert OwnerOk(fmt, s, s.ts[t].pc);
    CopyRejoin(fmt, s, t, StepCas(s, t, at));
  }

  lemma {:induction false} CasReadCopies(fmt: Val -> string, s: State, t: nat, at: nat)
    requires Inv(fmt, s) && CopyInv(s) && t < |s.ts| && (s.ts[t].pc.CasType? || s.ts[t].pc.CasRead?)
    ensures CopyInv(StepCas(s, t, at))
  {
    OwnerIs(fmt, s, t);
    CopyRejoin(fmt, s, t, StepCas(s, t, at));
  }

  lemma {:induction false} CasCopies(fmt: Val -> string, s: State, t: nat, at: nat)
    requires Inv(fmt, s) && CopyInv(s) && t < |s.ts| && InCas(s.ts[t].pc)
    ensures CopyInv(StepCas(s, t, at))
  {
    if s.ts[t].pc.CasWrite? {
      CasWriteCopies(fmt, s, t, at);
    } else if s.ts[t].pc.CasStore? {
      CasStoreCopies(fmt, s, t, at);
    } else {
      CasReadCopies(fmt, s, t, at);
    }
  }

  lemma {:induction false} StartCopies(fmt: Val -> string, s: State, t: nat, c: Choice)
    requires Inv(fmt, s) && CopyInv(s) && t < |s.ts| && s.ts[t].pc.Idle? && c.Choice?
    ensures CopyInv(Start(s, t, c))
  {
    StartIsLocal(s, t, c);
    PcMoves(fmt, s, t, Start(s, t, c).ts[t].pc);
  }

  lemma {:induction false} PcMoves(fmt: Val -> string, s: State, t: nat, pc: Pc)
    requires Inv(fmt, s) && CopyInv(s) && t < |s.ts| && !Owns(s.ts[t].pc) && !Owns(pc) && !pc.Copy?
    ensures CopyInv(SetPc(s, t, pc))
  {
    LocalCopy(fmt, s, t, SetPc(s, t, pc));
  }

  lemma {:induction false} ElsewhereCopies(s: State, at: nat, text: string)
    requires CopyInv(s)
    ensures CopyInv(StepElsewhere(s, at, text))
  {
    var s' := StepElsewhere(s, at, text);
    assert OwnerPc(s') == OwnerPc(s);
    forall i: nat | i < |s.ts|
      ensures CopyOk(s', i)
    {
      assert CopyOk(s, i);
    }
  }

  lemma {:induction false} CopyCopies(fmt: Val -> string, s: State, t: nat)
    requires Inv(fmt, s) && CopyInv(s) && t < |s.ts| && s.ts[t].pc.Copy?
    ensures CopyInv(StepCopy(s, t))
  {
    LocalCopy(fmt, s, t, StepCopy(s, t));
  }

  lemma {:induction false} ReleaseIs(s: State, t: nat)
    requires t < |s.ts| && (s.ts[t].pc.ReleaseLoad? || s.ts[t].pc.ReleaseSwap?)
    ensures var s' := StepRelease(s, t);
      && s'.ts == s.ts[t := s'.ts[t]] && !Owns(s'.ts[t].pc) && !s'.ts[t].pc.Copy? && s'.owner == s.owner
      && s'.live == s.live && s'.at == s.at && s'.word == s.word && s'.tag.typ == s.tag.typ && s.log <= s'.log
  {}

  lemma {:induction false} ReleaseCopies(fmt: Val -> string, s: State, t: nat)
    requires Inv(fmt, s) && CopyInv(s) && t < |s.ts| && (s.ts[t].pc.ReleaseLoad? || s.ts[t].pc.ReleaseSwap?)
    ensures CopyInv(StepRelease(s, t))
  {
    ReleaseIs(s, t);
    LocalCopy(fmt, s, t, StepRelease(s, t));
  }

  /** A step of a thread that does not own the element, and does not try to. */
  lemma {:induction false} OutsideCopies(fmt: Val -> string, s: State, t: nat, c: Choice)
    requires Inv(fmt, s) && CopyInv(s) && t < |s.ts|
    requires var pc := s.ts[t].pc; pc.Idle? || pc.Stuck? || pc.Copy? || pc.ReleaseLoad? || pc.ReleaseSwap?
    ensures CopyInv(Step(fmt, s, t, c))
  {
    var pc := s.ts[t].pc;
    if (pc.Idle? || pc.Stuck?) && c.Elsewhere? {
      ElsewhereCopies(s, c.at, c.text);
    } else if pc.Idle? {
      StartCopies(fmt, s, t, c);
    } else if pc.Copy? {
      CopyCopies(fmt, s, t);
    } else if !pc.Stuck? {
      ReleaseCopies(fmt, s, t);
    }
  }

  lemma {:induction false} StepCopies(fmt: Val -> string, s: State, t: nat, c: Choice)
    requires Inv(fmt, s) && CopyInv(s) && t < |s.ts|
    ensures CopyInv(Step(fmt, s, t, c))
  {
    var pc := s.ts[t].pc;
    assert LocalOk(s.ts[t]);
    if pc.ReadStore? {
      ReadStoreCopies(fmt, s, t);
    } else if InRead(pc) {
      ReadCopies(fmt, s, t);
    } else if InMove(pc) {
      MoveCopies(fmt, s, t);
    } else if InWrite(pc) {
      WriteCopies(fmt, s, t, c.at);
    } else if InFaa(pc) {
      FaaCopies(fmt, s, t, c.at);
    } else if InCas(pc) {
      CasCopies(fmt, s, t, c.at);
    } else {
      OutsideCopies(fmt, s, t, c);
    }
  }

  lemma {:induction false} InitCopies(n: nat, full: bool, v: Val)
    ensures CopyInv(Init(n, full, v))
  {
    var s := Init(n, full, v);
    assert OwnerPc(s) == Idle;
    forall i: nat | i < |s.ts|
      ensures CopyOk(s, i)
    {
      assert s.ts[i].pc == Idle;
    }
  }

  // ---- What callers are given -----------------------------------------------------

  /** A read that gives a text away without keeping a hold. */
  predicate LateText(e: Event) {
    (e.op.ReadFE? || e.op.ReadFF?) && HasText(e.ret)
  }

  /** What a caller was given differs from what was read only in the text of such a read. */
  predicate Close(given: Event, read: Event) {
    given == read || (LateText(read) && given.op == read.op && TypeOf(given.ret) == TypeOf(read.ret))
  }

  predicate AllClose(th: Thread) {
    |th.done| <= |th.logged| && forall j :: 0 <= j < |th.done| ==> Close(th.done[j], th.logged[j])
  }

  /** Every caller was given what was read. */
  predicate Told(th: Thread) {
    |th.done| <= |th.logged| && th.done == th.logged[..|th.done|]
  }

  ghost predicate Truthful(s: State) {
    forall i: nat {:trigger s.ts[i]} :: i < |s.ts| ==> Told(s.ts[i])
  }

  /** A step of a thread keeps what it was given close to what was read; and equal, if it does
      not copy a text that has been replaced. */
  lemma {:induction false} StepClose(fmt: Val -> string, s: State, t: nat, c: Choice)
    requires Inv(fmt, s) && CopyInv(s) && t < |s.ts| && Counted(s.ts[t]) && AllClose(s.ts[t])
    ensures AllClose(Step(fmt, s, t, c).ts[t])
    ensures Told(s.ts[t]) && (s.ts[t].pc.Copy? ==> Current(s, s.ts[t].pc.ptr, s.ts[t].pc.got)) ==> Told(Step(fmt, s, t, c).ts[t])
  {
    StepContinues(fmt, s, t, c);
    assert CopyOk(s, t) && LocalOk(s.ts[t]);
    CloseMore(s, s.ts[t], Step(fmt, s, t, c).ts[t]);
  }

  lemma {:induction false} CloseMore(s: State, th: Thread, th': Thread)
    requires Gives(s, th, th') && Counted(th) && Counted(th') && AllClose(th)
    requires th.pc.Copy? ==> |th.logged| > 0 && th.logged[|th.logged| - 1] == Event(th.pc.op, th.pc.got) && HasText(th.pc.got)
    requires th.pc.Copy? && !Current(s, th.pc.ptr, th.pc.got) ==> th.pc.op.ReadFE? || th.pc.op.ReadFF?
    ensures AllClose(th')
    ensures Told(th) && (th.pc.Copy? ==> Current(s, th.pc.ptr, th.pc.got)) ==> Told(th')
  {
    forall j | 0 <= j < |th'.done|
      ensures Close(th'.done[j], th'.logged[j])
    {
      if j < |th.done| {
        assert Close(th.done[j], th.logged[j]);
        assert th'.logged[..|th.logged|][j] == th.logged[j];
      }
    }
  }

  /** The text a caller is given differs from the one that was read only after a readFE or
      readFF: whatever a fetch and add, a compare and swap, a readRW, or a read of anything but
      text gives its caller is what it read. */
  lemma {:induction false} OnlyLateTextsDiffer(fmt: Val -> string, n: nat, full: bool, v: Val, sched: seq<(nat, Choice)>)
    requires Plain(v) && Schedule(n, sched)
    ensures var s := Exec(fmt, Init(n, full, v), sched);
      CopyInv(s) && forall i: nat {:trigger s.ts[i]} :: i < n ==> AllClose(s.ts[i]) && Counted(s.ts[i])
    decreases |sched|
  {
    if sched == [] {
      InitCopies(n, full, v);
    } else {
      var k := |sched| - 1;
      var s, t, c := Exec(fmt, Init(n, full, v), sched[..k]), sched[k].0, sched[k].1;
      OnlyLateTextsDiffer(fmt, n, full, v, sched[..k]);
      Linearizable(fmt, n, full, v, sched[..k]);
      StepCopies(fmt, s, t, c);
      StepContinues(fmt, s, t, c);
      StepClose(fmt, s, t, c);
    }
  }

  // ---- When every caller is given what was read ----------------------------------------

  /** A history in which a text is read without a hold, and the value is replaced later. */
  ghost predicate Hazard(log: seq<(nat, Event)>) {
    exists k, m :: 0 <= k < m < |log| && LateText(log[k].1) && Mutates(log[m].1)
  }

  /** A sequential history of plain primitives of the kind `p`. */
  ghost predicate History(fmt: Val -> string, p: Op -> bool, a: Abs, log: seq<(nat, Event)>) {
    OnlyLogged(p, log) && Replay(fmt, a, log).Some?
  }

  /** No sequential history of primitives of the kind `p` has the hazard. */
  ghost predicate Safe(fmt: Val -> string, p: Op -> bool, full: bool, v: Val) {
    forall log: seq<(nat, Event)> {:trigger Hazard(log)} :: History(fmt, p, Init(0, full, v).abs, log) ==> !Hazard(log)
  }

  /** The operation that is replacing the value would be the next of the history. */
  function Replacing(pc: Pc): Event
    requires Overwriting(pc)
  {
    match pc
    case FaaStore(arg, _, got) => Event(Faa(arg), got)
    case CasStore(o, n, _, got) => Event(Cas(o, n), got)
    case _ => Event(WriteEF(pc.v), VUndefined)
  }

  lemma {:induction false} ReplacingIsNext(fmt: Val -> string, p: Op -> bool, s: State)
    requires Inv(fmt, s) && Only(p, s) && Overwriting(OwnerPc(s))
    ensures var e := Replacing(OwnerPc(s));
      AbsStep(fmt, s.abs, e).Some? && Mutates(e) && p(e.op) && PlainOp(e.op)
  {
    var pc := OwnerPc(s);
    assert OwnerOk(fmt, s, pc);
    assert PcOp(pc) == Some(Replacing(pc).op);
  }

  /** Under a safe use a text is still there when it is copied. */
  lemma {:induction false} SafeIsCurrent(fmt: Val -> string, p: Op -> bool, full: bool, v: Val, s: State, t: nat)
    requires Inv(fmt, s) && CopyInv(s) && Only(p, s) && Safe(fmt, p, full, v) && Recorded(fmt, Init(0, full, v).abs, s)
    requires t < |s.ts| && s.ts[t].pc.Copy?
    ensures Current(s, s.ts[t].pc.ptr, s.ts[t].pc.got)
  {
    assert CopyOk(s, t) && LocalOk(s.ts[t]);
    var place, longer := s.ts[t].pc.place, Longer(s, t);
    assert LateText(s.log[place].1) || s.ts[t].pc.op.ReadRW?;
    LongerIsHistory(fmt, p, full, v, s, t);
    assert longer[place] == s.log[place];
    assert forall m :: place < m < |s.log| ==> longer[m] == s.log[m];
    assert !Hazard(longer);
  }

  /** The history with the operation that is replacing the value, if there is one. */
  function Longer(s: State, t: nat): (r: seq<(nat, Event)>)
    ensures s.log <= r
    ensures Overwriting(OwnerPc(s)) ==> |r| == |s.log| + 1 && r[|s.log|] == (t, Replacing(OwnerPc(s)))
  {
    if Overwriting(OwnerPc(s)) then s.log + [(t, Replacing(OwnerPc(s)))] else s.log
  }

  lemma {:induction false} LongerIsHistory(fmt: Val -> string, p: Op -> bool, full: bool, v: Val, s: State, t: nat)
    requires Inv(fmt, s) && Only(p, s) && Recorded(fmt, Init(0, full, v).abs, s)
    ensures History(fmt, p, Init(0, full, v).abs, Longer(s, t))
    ensures Overwriting(OwnerPc(s)) ==> Mutates(Longer(s, t)[|s.log|].1)
  {
    if Overwriting(OwnerPc(s)) {
      ReplacingIsNext(fmt, p, s);
      assert Longer(s, t)[..|s.log|] == s.log;
    }
  }

  /** Under a safe use every caller is given what was read, in every run. */
  lemma {:induction false} SafeIsTruthful(fmt: Val -> string, p: Op -> bool, n: nat, full: bool, v: Val, sched: seq<(nat, Choice)>)
    requires Plain(v) && Schedule(n, sched) && AllUse(p, sched) && Safe(fmt, p, full, v)
    ensures Truthful(Exec(fmt, Init(n, full, v), sched))
    decreases |sched|
  {
    if sched != [] {
      var k := |sched| - 1;
      var s, t, c := Exec(fmt, Init(n, full, v), sched[..k]), sched[k].0, sched[k].1;
      SafeIsTruthful(fmt, p, n, full, v, sched[..k]);
      OnlyLateTextsDiffer(fmt, n, full, v, sched[..k]);
      Linearizable(fmt, n, full, v, sched[..k]);
      assert Init(n, full, v).abs == Init(0, full, v).abs;
      RunOnly(fmt, p, n, full, v, sched[..k]);
      if s.ts[t].pc.Copy? { SafeIsCurrent(fmt, p, full, v, s, t); }
      StepClose(fmt, s, t, c);
      StepContinues(fmt, s, t, c);
    }
  }

  /** What the callers of each thread were given is its part of the history, up to a text that
      is still being copied. */
  ghost predicate Results(s: State) {
    forall i: nat {:trigger s.ts[i]} :: i < |s.ts| ==>
      s.ts[i].done == if s.ts[i].pc.Copy? then AllButLast(Proj(s.log, i)) else Proj(s.log, i)
  }

  function AllButLast<T>(s: seq<T>): seq<T> {
    if s == [] then [] else s[..|s| - 1]
  }

  lemma {:induction false} SafeResults(fmt: Val -> string, p: Op -> bool, n: nat, full: bool, v: Val, sched: seq<(nat, Choice)>)
    requires Plain(v) && Schedule(n, sched) && AllUse(p, sched) && Safe(fmt, p, full, v)
    ensures Results(Exec(fmt, Init(n, full, v), sched))
  {
    var s := Exec(fmt, Init(n, full, v), sched);
    SafeIsTruthful(fmt, p, n, full, v, sched);
    Linearizable(fmt, n, full, v, sched);
    RunCounts(fmt, n, full, v, sched);
    forall i: nat | i < |s.ts|
      ensures s.ts[i].done == if s.ts[i].pc.Copy? then AllButLast(Proj(s.log, i)) else Proj(s.log, i)
    {
      assert Told(s.ts[i]) && Counted(s.ts[i]) && s.ts[i].logged == Proj(s.log, i);
    }
  }

  // ---- Uses that are safe whatever else is done -------------------------------------------

  /** Texts are read only with a hold, by readRW, which the reader has until after the copy. */
  lemma {:induction false} NoLateReads(fmt: Val -> string, p: Op -> bool, full: bool, v: Val)
    requires !p(ReadFE) && !p(ReadFF)
    ensures Safe(fmt, p, full, v)
  {
    forall log: seq<(nat, Event)> | History(fmt, p, Init(0, full, v).abs, log)
      ensures !Hazard(log)
    {
      assert forall k :: 0 <= k < |log| ==> !LateText(log[k].1);
    }
  }

  /** The primitive does not bring a text into the element. */
  predicate Textless(op: Op) {
    match op
    case WriteEF(v) => !HasText(v)
    case Faa(v) => !HasText(v)
    case Cas(_, v) => !HasText(v)
    case _ => true
  }

  predicate NoText(a: Abs) {
    a.AEmpty? || !HasText(a.v)
  }

  lemma {:induction false} StaysTextless(fmt: Val -> string, a: Abs, log: seq<(nat, Event)>, k: nat)
    requires Replay(fmt, a, log).Some? && NoText(a) && k <= |log|
    requires forall j :: 0 <= j < |log| ==> Textless(log[j].1.op)
    ensures Replay(fmt, a, log[..k]).Some? && NoText(Replay(fmt, a, log[..k]).value)
    decreases k
  {
    ReplayPrefix(fmt, a, log, k);
    if k > 0 {
      StaysTextless(fmt, a, log, k - 1);
      assert log[..k][..k - 1] == log[..k - 1];
      assert Textless(log[k - 1].1.op);
    }
  }

  /** No text is ever brought into the element. */
  lemma {:induction false} NoTexts(fmt: Val -> string, p: Op -> bool, full: bool, v: Val)
    requires !HasText(v) && forall op :: p(op) ==> Textless(op)
    ensures Safe(fmt, p, full, v)
  {
    var a := Init(0, full, v).abs;
    forall log: seq<(nat, Event)> | History(fmt, p, a, log)
      ensures !Hazard(log)
    {
      forall k | 0 <= k < |log|
        ensures !LateText(log[k].1)
      {
        StaysTextless(fmt, a, log, k);
        StaysTextless(fmt, a, log, k + 1);
        assert log[..k + 1][..k] == log[..k];
      }
    }
  }
}
