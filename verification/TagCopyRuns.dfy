/** The use of an element is safe for texts only if no sequential history of it has the hazard:
    every history can be run, and one with the hazard can be run so that a caller is given a
    text that was never read. */
module TagCopyRuns {
  import opened Tags
  import opened TagCell
  import opened TagUse
  import opened TagCopy

  // ---- Running one thread ------------------------------------------------------------

  /** A run of primitives of the kind `p` leads from `s0` to `s`. */
  ghost predicate Reaches(fmt: Val -> string, p: Op -> bool, s0: State, s: State) {
    exists sched: seq<(nat, Choice)> :: Schedule(|s0.ts|, sched) && AllUse(p, sched) && Exec(fmt, s0, sched) == s
  }

  lemma {:induction false} ReachesNext(fmt: Val -> string, p: Op -> bool, s0: State, s: State, t: nat, c: Choice)
    requires Reaches(fmt, p, s0, s) && t < |s0.ts| == |s.ts| && Uses(p, c)
    ensures Reaches(fmt, p, s0, Step(fmt, s, t, c))
  {
    var sched: seq<(nat, Choice)> :| Schedule(|s0.ts|, sched) && AllUse(p, sched) && Exec(fmt, s0, sched) == s;
    var longer := sched + [(t, c)];
    assert longer[..|sched|] == sched;
    assert Schedule(|s0.ts|, longer) && AllUse(p, longer) && Exec(fmt, s0, longer) == Step(fmt, s, t, c);
  }

  /** What is known of every reachable state. */
  ghost predicate Known(fmt: Val -> string, a: Abs, s: State) {
    && Inv(fmt, s) && CopyInv(s) && Recorded(fmt, a, s)
    && forall i: nat {:trigger s.ts[i]} :: i < |s.ts| ==> Counted(s.ts[i])
  }

  lemma {:induction false} ReachesKnown(fmt: Val -> string, p: Op -> bool, n: nat, full: bool, v: Val, s: State)
    requires Plain(v) && Reaches(fmt, p, Init(n, full, v), s)
    ensures Known(fmt, Init(n, full, v).abs, s) && |s.ts| == n
  {
    var sched: seq<(nat, Choice)> :| Schedule(n, sched) && AllUse(p, sched) && Exec(fmt, Init(n, full, v), sched) == s;
    Linearizable(fmt, n, full, v, sched);
    OnlyLateTextsDiffer(fmt, n, full, v, sched);
  }

  /** A fetch and add does not meet JSON. */
  predicate Addable(s: State, op: Op) {
    op.Faa? ==> !op.arg.VJson? && !(s.abs.AFull? && s.abs.v.VJson?)
  }

  /** Thread `t` is in a primitive and, run alone, completes it. */
  ghost predicate OnWay(s: State, t: nat) {
    && t < |s.ts|
    && match s.ts[t].pc
       case ReadLoad(initial, _, stale) => s.owner == -1 && ReadReady(initial, s.tag, stale)
       case ReadSwap(initial, _, mem) => s.owner == -1 && s.tag == ReadOld(initial, mem)
       case MoveLoad(op) => s.owner == -1 && s.tag.fe == MoveFrom(op) && Addable(s, op)
       case MoveSwap(op, mem) => s.owner == -1 && s.tag == mem.(fe := MoveFrom(op)) && Addable(s, op)
       case Stuck(_) => false
       case FaaRead(arg, _) => s.owner == t && Addable(s, Faa(arg))
       case ReleaseLoad => s.owner == -1 && s.tag.fe == RwLock && s.tag.rw > 0
       case ReleaseSwap(mem) => s.owner == -1 && s.tag == mem && mem.rw > 0 && s.ts[t].holds > 0
       case pc => Owns(pc) && s.owner == t
  }

  /** How many steps it needs until its primitive is logged. */
  function ToGo(pc: Pc): nat {
    match pc
    case ReadLoad(_, _, _) => 4
    case ReadSwap(_, _, _) => 3
    case ReadData(_, _, _) => 2
    case ReadStore(_, _, _, _, _) => 1
    case MoveLoad(_) => 6
    case MoveSwap(_, _) => 5
    case WriteLoad(_) => 4
    case WriteData(_, _) => 3
    case WriteCheck(_, _) => 2
    case WriteStore(_, _) => 1
    case FaaRead(_, _) => 3
    case FaaWrite(_, _, _) => 2
    case FaaStore(_, _, _) => 1
    case CasType(_, _) => 4
    case CasRead(_, _, _) => 3
    case CasWrite(_, _, _, _) => 2
    case CasStore(_, _, _, _) => 1
    case ReleaseLoad => 2
    case ReleaseSwap(_) => 1
    case _ => 0
  }

  predicate IsRead(op: Op) {
    op.ReadFE? || op.ReadFF? || op.ReadRW?
  }

  /** The primitive has just been logged: all that may be left is to copy its text. */
  ghost predicate Logged(s: State, t: nat, s': State) {
    && t < |s.ts| == |s'.ts| && s'.owner == -1
    && |s'.log| == |s.log| + 1 && s'.log[..|s.log|] == s.log && s'.log[|s.log|].0 == t
    && var e := s'.log[|s.log|].1;
       if IsRead(e.op) && HasText(e.ret) then s'.ts[t].pc.Copy? && s'.ts[t].pc == Copy(e.op, s'.ts[t].pc.ptr, e.ret, |s.log|) else s'.ts[t].pc.Idle?
  }

  ghost predicate Further(s: State, t: nat, s': State)
    requires t < |s.ts|
  {
    || Logged(s, t, s')
    || (OnWay(s', t) && s'.log == s.log && s'.abs == s.abs && ToGo(s'.ts[t].pc) < ToGo(s.ts[t].pc))
  }

  lemma {:induction false} ReadFurther(fmt: Val -> string, s: State, t: nat)
    requires Inv(fmt, s) && OnWay(s, t) && InRead(s.ts[t].pc)
    ensures Further(s, t, StepRead(s, t))
  {
    assert LocalOk(s.ts[t]);
  }

  lemma {:induction false} MoveFurther(fmt: Val -> string, s: State, t: nat)
    requires Inv(fmt, s) && OnWay(s, t) && InMove(s.ts[t].pc)
    ensures Further(s, t, StepMove(s, t))
  {
    assert LocalOk(s.ts[t]);
  }

  lemma {:induction false} WriteFurther(fmt: Val -> string, s: State, t: nat, at: nat)
    requires Inv(fmt, s) && OnWay(s, t) && InWrite(s.ts[t].pc)
    ensures Further(s, t, StepWrite(s, t, at))
  {
    assert OwnerOk(fmt, s, s.ts[t].pc);
  }

  lemma {:induction false} FaaFurther(fmt: Val -> string, s: State, t: nat, at: nat)
    requires Inv(fmt, s) && OnWay(s, t) && InFaa(s.ts[t].pc)
    ensures Further(s, t, StepFaa(fmt, s, t, at))
  {
    assert OwnerOk(fmt, s, s.ts[t].pc);
  }

  lemma {:induction false} CasStoreFurther(fmt: Val -> string, s: State, t: nat, at: nat)
    requires Inv(fmt, s) && OnWay(s, t) && s.ts[t].pc.CasStore?
    ensures Logged(s, t, StepCas(s, t, at))
  {}

  lemma {:induction false} CasFurther(fmt: Val -> string, s: State, t: nat, at: nat)
    requires Inv(fmt, s) && OnWay(s, t) && InCas(s.ts[t].pc)
    ensures Further(s, t, StepCas(s, t, at))
  {
    if s.ts[t].pc.CasStore? {
      CasStoreFurther(fmt, s, t, at);
    } else {
      CasOnWay(s, t, at);
    }
  }

  lemma {:induction false} CasOnWay(s: State, t: nat, at: nat)
    requires OnWay(s, t) && (s.ts[t].pc.CasType? || s.ts[t].pc.CasRead? || s.ts[t].pc.CasWrite?)
    ensures var s' := StepCas(s, t, at);
      OnWay(s', t) && s'.log == s.log && s'.abs == s.abs && ToGo(s'.ts[t].pc) < ToGo(s.ts[t].pc)
  {}

  lemma {:induction false} ReleaseFurther(fmt: Val -> string, s: State, t: nat)
    requires Inv(fmt, s) && OnWay(s, t) && (s.ts[t].pc.ReleaseLoad? || s.ts[t].pc.ReleaseSwap?)
    ensures Further(s, t, StepRelease(s, t))
  {
    assert LocalOk(s.ts[t]);
  }

  lemma {:induction false} StepFurther(fmt: Val -> string, s: State, t: nat, c: Choice)
    requires Inv(fmt, s) && OnWay(s, t)
    ensures Further(s, t, Step(fmt, s, t, c))
  {
    var pc := s.ts[t].pc;
    if InRead(pc) {
      ReadFurther(fmt, s, t);
    } else if InMove(pc) {
      MoveFurther(fmt, s, t);
    } else if InWrite(pc) {
      WriteFurther(fmt, s, t, c.at);
    } else if InFaa(pc) {
      FaaFurther(fmt, s, t, c.at);
    } else if InCas(pc) {
      CasFurther(fmt, s, t, c.at);
    } else {
      ReleaseFurther(fmt, s, t);
    }
  }

  /** An idle thread starts a primitive that is legal now, and is on its way. */
  lemma {:induction false} StartsOnWay(fmt: Val -> string, s: State, t: nat, e: Event, at: nat)
    requires Inv(fmt, s) && t < |s.ts| && s.owner == -1 && s.ts[t].pc.Idle?
    requires AbsStep(fmt, s.abs, e).Some? && PlainOp(e.op) && (e.op.ReleaseRW? ==> s.ts[t].holds > 0)
    ensures var s' := Start(s, t, Choice(e.op, 0, at));
      OnWay(s', t) && s'.log == s.log && s'.abs == s.abs && PcOp(s'.ts[t].pc) == Some(e.op)
  {}

  // ---- What happens to a text that was read ------------------------------------------

  /** The element has no text at `ptr`. */
  predicate Dead(s: State, ptr: nat) {
    !(s.live && s.at == ptr)
  }

  /** A primitive that replaces the value gives back the block at `ptr`. */
  predicate Doomed(s: State, ptr: nat) {
    Dead(s, ptr) || (IsText(s.tag.typ) && !Overwriting(OwnerPc(s)))
  }

  /** With new blocks elsewhere, what is dead stays dead, and what is doomed stays so until it
      has been replaced. */
  ghost predicate Dooms(s: State, t: nat, s': State, ptr: nat) {
    && (Dead(s, ptr) ==> Dead(s', ptr)) && Doomed(s', ptr)
    && (Logged(s, t, s') && Mutates(s'.log[|s.log|].1) ==> Dead(s', ptr))
  }

  lemma {:induction false} ReadDooms(fmt: Val -> string, s: State, t: nat, ptr: nat)
    requires Inv(fmt, s) && OnWay(s, t) && InRead(s.ts[t].pc) && Doomed(s, ptr)
    ensures Dooms(s, t, StepRead(s, t), ptr)
  {
    OwnerIs(fmt, s, t);
    assert LocalOk(s.ts[t]);
  }

  lemma {:induction false} MoveDooms(fmt: Val -> string, s: State, t: nat, ptr: nat)
    requires Inv(fmt, s) && OnWay(s, t) && InMove(s.ts[t].pc) && Doomed(s, ptr)
    ensures Dooms(s, t, StepMove(s, t), ptr)
  {
    assert LocalOk(s.ts[t]);
  }

  lemma {:induction false} WriteDooms(fmt: Val -> string, s: State, t: nat, ptr: nat)
    requires Inv(fmt, s) && OnWay(s, t) && InWrite(s.ts[t].pc) && Doomed(s, ptr)
    ensures Dooms(s, t, StepWrite(s, t, ptr + 1), ptr)
  {
    OwnerIs(fmt, s, t);
    assert OwnerOk(fmt, s, s.ts[t].pc);
  }

  lemma {:induction false} FaaDooms(fmt: Val -> string, s: State, t: nat, ptr: nat)
    requires Inv(fmt, s) && OnWay(s, t) && InFaa(s.ts[t].pc) && Doomed(s, ptr)
    ensures Dooms(s, t, StepFaa(fmt, s, t, ptr + 1), ptr)
  {
    OwnerIs(fmt, s, t);
    assert OwnerOk(fmt, s, s.ts[t].pc);
  }

  lemma {:induction false} CasDooms(fmt: Val -> string, s: State, t: nat, ptr: nat)
    requires Inv(fmt, s) && CopyInv(s) && OnWay(s, t) && InCas(s.ts[t].pc) && Doomed(s, ptr)
    ensures Dooms(s, t, StepCas(s, t, ptr + 1), ptr)
  {
    OwnerIs(fmt, s, t);
    assert OwnerOk(fmt, s, s.ts[t].pc);
  }

  lemma {:induction false} ReleaseDooms(fmt: Val -> string, s: State, t: nat, ptr: nat)
    requires Inv(fmt, s) && OnWay(s, t) && (s.ts[t].pc.ReleaseLoad? || s.ts[t].pc.ReleaseSwap?) && Doomed(s, ptr)
    ensures Dooms(s, t, StepRelease(s, t), ptr)
  {}

  lemma {:induction false} StepDooms(fmt: Val -> string, s: State, t: nat, ptr: nat)
    requires Inv(fmt, s) && CopyInv(s) && OnWay(s, t) && Doomed(s, ptr)
    ensures Dooms(s, t, Step(fmt, s, t, Elsewhere(ptr + 1, "")), ptr)
  {
    var pc := s.ts[t].pc;
    if InRead(pc) {
      ReadDooms(fmt, s, t, ptr);
    } else if InMove(pc) {
      MoveDooms(fmt, s, t, ptr);
    } else if InWrite(pc) {
      WriteDooms(fmt, s, t, ptr);
    } else if InFaa(pc) {
      FaaDooms(fmt, s, t, ptr);
    } else if InCas(pc) {
      CasDooms(fmt, s, t, ptr);
    } else {
      ReleaseDooms(fmt, s, t, ptr);
    }
  }

  // ---- Running a history ----------------------------------------------------------------

  /** Where thread `t` has got from `s`, by completing one primitive alone. */
  ghost predicate Completes(fmt: Val -> string, s: State, t: nat, s': State, ptr: nat) {
    && t < |s.ts| && Logged(s, t, s') && s'.ts == s.ts[t := s'.ts[t]]
    && AbsStep(fmt, s.abs, s'.log[|s.log|].1) == Some(s'.abs)
    && (Dead(s, ptr) ==> Dead(s', ptr)) && Doomed(s', ptr)
    && (Mutates(s'.log[|s.log|].1) ==> Dead(s', ptr))
  }

  lemma {:induction false} Finishes(fmt: Val -> string, p: Op -> bool, n: nat, full: bool, v: Val, s: State, t: nat, ptr: nat) returns (s': State)
    requires Plain(v) && Reaches(fmt, p, Init(n, full, v), s) && OnWay(s, t) && Doomed(s, ptr)
    ensures Reaches(fmt, p, Init(n, full, v), s') && Completes(fmt, s, t, s', ptr)
    ensures Some(s'.log[|s.log|].1.op) == PcOp(s.ts[t].pc)
    decreases ToGo(s.ts[t].pc)
  {
    ReachesKnown(fmt, p, n, full, v, s);
    var c := Elsewhere(ptr + 1, "");
    var s1 := Step(fmt, s, t, c);
    ReachesNext(fmt, p, Init(n, full, v), s, t, c);
    GoesFurther(fmt, s, t, c, ptr);
    if Logged(s, t, s1) {
      s' := s1;
    } else {
      s' := Finishes(fmt, p, n, full, v, s1, t, ptr);
      CompletesLater(fmt, s, t, s1, s', ptr);
    }
  }

  /** Thread `t` has taken a step of a primitive alone, without completing it. */
  ghost predicate Underway(s: State, t: nat, s1: State, ptr: nat) {
    && OnWay(s, t) && OnWay(s1, t) && s1.ts == s.ts[t := s1.ts[t]] && PcOp(s1.ts[t].pc) == PcOp(s.ts[t].pc)
    && s1.log == s.log && s1.abs == s.abs && ToGo(s1.ts[t].pc) < ToGo(s.ts[t].pc)
    && (Dead(s, ptr) ==> Dead(s1, ptr)) && Doomed(s1, ptr)
  }

  lemma {:induction false} GoesFurther(fmt: Val -> string, s: State, t: nat, c: Choice, ptr: nat)
    requires Inv(fmt, s) && CopyInv(s) && OnWay(s, t) && Doomed(s, ptr) && c == Elsewhere(ptr + 1, "")
    ensures var s1 := Step(fmt, s, t, c);
      if Logged(s, t, s1) then Completes(fmt, s, t, s1, ptr) && Some(s1.log[|s.log|].1.op) == PcOp(s.ts[t].pc)
      else Underway(s, t, s1, ptr)
  {
    var s1 := Step(fmt, s, t, c);
    StepFurther(fmt, s, t, c);
    StepDooms(fmt, s, t, ptr);
    StepContinues(fmt, s, t, c);
    StepKeeps(fmt, s, t, c);
    if !Logged(s, t, s1) {
      StillRunning(s, t, s1);
    }
  }

  lemma {:induction false} CompletesLater(fmt: Val -> string, s: State, t: nat, s1: State, s': State, ptr: nat)
    requires Underway(s, t, s1, ptr) && Completes(fmt, s1, t, s', ptr)
    ensures Completes(fmt, s, t, s', ptr)
  {
    assert s'.ts == s.ts[t := s'.ts[t]];
  }

  lemma {:induction false} StillRunning(s: State, t: nat, s1: State)
    requires OnWay(s, t) && OnWay(s1, t)
    ensures PcOp(s.ts[t].pc).Some? && PcOp(s1.ts[t].pc).Some?
  {}

  /** In one state a primitive can return only one thing. */
  lemma {:induction false} OneResult(fmt: Val -> string, a: Abs, e: Event, e': Event)
    requires AbsStep(fmt, a, e).Some? && AbsStep(fmt, a, e').Some? && e.op == e'.op
    ensures e == e'
  {}

  /** An idle thread runs one primitive that is legal now. */
  lemma {:induction false} RunsOne(fmt: Val -> string, p: Op -> bool, n: nat, full: bool, v: Val, s: State, t: nat, e: Event, ptr: nat) returns (s': State)
    requires Plain(v) && Reaches(fmt, p, Init(n, full, v), s) && t < |s.ts| == n && Doomed(s, ptr)
    requires s.owner == -1 && s.ts[t].pc.Idle? && p(e.op) && PlainOp(e.op) && AbsStep(fmt, s.abs, e).Some?
    requires e.op.ReleaseRW? ==> s.ts[t].holds > 0
    ensures Reaches(fmt, p, Init(n, full, v), s') && Completes(fmt, s, t, s', ptr)
    ensures s'.log[|s.log|].1 == e && Some(s'.abs) == AbsStep(fmt, s.abs, e)
  {
    ReachesKnown(fmt, p, n, full, v, s);
    var c := Choice(e.op, 0, ptr + 1);
    var s1 := Step(fmt, s, t, c);
    ReachesNext(fmt, p, Init(n, full, v), s, t, c);
    StartsOnWay(fmt, s, t, e, ptr + 1);
    StartIsLocal(s, t, c);
    assert Doomed(s1, ptr) && (Dead(s, ptr) ==> Dead(s1, ptr));
    s' := Finishes(fmt, p, n, full, v, s1, t, ptr);
    OneResult(fmt, s.abs, e, s'.log[|s.log|].1);
  }

  /** Two threads, of which the second runs alone, while the first is idle or copies. */
  ghost predicate Rest(s: State) {
    |s.ts| == 2 && s.owner == -1 && s.ts[1].pc.Idle? && s.ts[0].holds == 0
  }

  lemma {:induction false} HoldsOfTwo(ts: seq<Thread>)
    requires |ts| == 2
    ensures Holds(ts) == ts[0].holds + ts[1].holds
  {
    assert ts[1..][1..] == [];
    assert Holds(ts[1..]) == ts[1].holds;
  }

  /** The second thread runs one primitive and copies its text. */
  lemma {:induction false} SecondRuns(fmt: Val -> string, p: Op -> bool, full: bool, v: Val, s: State, e: Event, ptr: nat) returns (s': State)
    requires Plain(v) && Reaches(fmt, p, Init(2, full, v), s) && Rest(s) && Doomed(s, ptr)
    requires p(e.op) && PlainOp(e.op) && AbsStep(fmt, s.abs, e).Some?
    ensures Reaches(fmt, p, Init(2, full, v), s') && Rest(s') && s'.ts[0] == s.ts[0]
    ensures Some(s'.abs) == AbsStep(fmt, s.abs, e)
    ensures (Dead(s, ptr) || Mutates(e) ==> Dead(s', ptr)) && Doomed(s', ptr)
  {
    ReachesKnown(fmt, p, 2, full, v, s);
    HoldsOfTwo(s.ts);
    s' := RunsOne(fmt, p, 2, full, v, s, 1, e, ptr);
    if s'.ts[1].pc.Copy? {
      ReachesNext(fmt, p, Init(2, full, v), s', 1, Elsewhere(ptr, ""));
      s' := StepCopy(s', 1);
    }
  }

  lemma {:induction false} NextEntry(fmt: Val -> string, p: Op -> bool, a: Abs, log: seq<(nat, Event)>, m: nat)
    requires History(fmt, p, a, log) && m < |log|
    ensures Replay(fmt, a, log[..m]).Some? && p(log[m].1.op) && PlainOp(log[m].1.op)
    ensures Replay(fmt, a, log[..m + 1]).Some? && Replay(fmt, a, log[..m + 1]) == AbsStep(fmt, Replay(fmt, a, log[..m]).value, log[m].1)
  {
    ReplayPrefix(fmt, a, log, m);
    ReplayPrefix(fmt, a, log, m + 1);
    assert log[..m + 1][..m] == log[..m];
  }

  /** The run that led to `s` has completed the first `j` entries of a history. */
  ghost predicate HasRun(fmt: Val -> string, p: Op -> bool, full: bool, v: Val, s: State, log: seq<(nat, Event)>, j: nat) {
    && Reaches(fmt, p, Init(2, full, v), s) && Rest(s)
    && j <= |log| && Some(s.abs) == Replay(fmt, Init(0, full, v).abs, log[..j])
  }

  /** The second thread runs the next entry. */
  lemma {:induction false} SecondRunsEntry(fmt: Val -> string, p: Op -> bool, full: bool, v: Val, s: State, log: seq<(nat, Event)>, m: nat, ptr: nat) returns (s': State)
    requires Plain(v) && History(fmt, p, Init(0, full, v).abs, log) && m < |log|
    requires HasRun(fmt, p, full, v, s, log, m) && Doomed(s, ptr)
    ensures HasRun(fmt, p, full, v, s', log, m + 1) && s'.ts[0] == s.ts[0]
    ensures Doomed(s', ptr) && (Mutates(log[m].1) ==> Dead(s', ptr))
  {
    NextEntry(fmt, p, Init(0, full, v).abs, log, m);
    s' := SecondRuns(fmt, p, full, v, s, log[m].1, ptr);
  }

  /** The second thread runs entries `j` to `m` of a history. */
  lemma {:induction false} SecondRunsAll(fmt: Val -> string, p: Op -> bool, full: bool, v: Val, s: State, log: seq<(nat, Event)>, j: nat, m: nat, ptr: nat) returns (s': State)
    requires Plain(v) && History(fmt, p, Init(0, full, v).abs, log) && j <= m <= |log|
    requires HasRun(fmt, p, full, v, s, log, j) && Doomed(s, ptr)
    ensures HasRun(fmt, p, full, v, s', log, m) && s'.ts[0] == s.ts[0]
    ensures Doomed(s', ptr) && (j < m && Mutates(log[m - 1].1) ==> Dead(s', ptr))
    decreases m - j
  {
    s' := s;
    if j < m {
      s' := SecondRunsAll(fmt, p, full, v, s, log, j, m - 1, ptr);
      s' := SecondRunsEntry(fmt, p, full, v, s', log, m - 1, ptr);
    }
  }

  /** The first thread reads a text without a hold, and is about to copy it. */
  lemma {:induction false} FirstReads(fmt: Val -> string, p: Op -> bool, full: bool, v: Val, s: State, e: Event) returns (s': State)
    requires Plain(v) && Reaches(fmt, p, Init(2, full, v), s) && Rest(s) && s.ts[0].pc.Idle?
    requires p(e.op) && PlainOp(e.op) && AbsStep(fmt, s.abs, e).Some? && LateText(e)
    ensures Reaches(fmt, p, Init(2, full, v), s') && Rest(s') && Some(s'.abs) == AbsStep(fmt, s.abs, e)
    ensures s'.ts[0].pc.Copy? && s'.ts[0].pc.got == e.ret && Doomed(s', s'.ts[0].pc.ptr)
  {
    s' := RunsOne(fmt, p, 2, full, v, s, 0, e, s.at + 1);
    ReachesKnown(fmt, p, 2, full, v, s');
    HoldsOfTwo(s'.ts);
    assert CopyOk(s', 0);
    assert s'.ts[0].pc.place == |s'.log| - 1;
  }

  /** The first entries of a history up to the read of a text without a hold. */
  lemma {:induction false} RunsToRead(fmt: Val -> string, p: Op -> bool, full: bool, v: Val, log: seq<(nat, Event)>, k: nat) returns (s': State)
    requires Plain(v) && History(fmt, p, Init(0, full, v).abs, log) && k < |log| && LateText(log[k].1)
    ensures HasRun(fmt, p, full, v, s', log, k + 1)
    ensures s'.ts[0].pc.Copy? && s'.ts[0].pc.got == log[k].1.ret && Doomed(s', s'.ts[0].pc.ptr)
  {
    StartReached(fmt, p, full, v);
    assert log[..0] == [];
    var s0 := Init(2, full, v);
    var s1 := SecondRunsAll(fmt, p, full, v, s0, log, 0, k, s0.at + 1);
    NextEntry(fmt, p, Init(0, full, v).abs, log, k);
    s' := FirstReads(fmt, p, full, v, s1, log[k].1);
  }

  /** A history with the hazard: the first thread reads the text and is about to copy it when
      the second has replaced it, and another element's text is in its place. */
  lemma {:induction false} HazardRuns(fmt: Val -> string, p: Op -> bool, full: bool, v: Val, log: seq<(nat, Event)>, k: nat, m: nat) returns (s': State)
    requires Plain(v) && History(fmt, p, Init(0, full, v).abs, log)
    requires k < m < |log| && LateText(log[k].1) && Mutates(log[m].1)
    ensures Reaches(fmt, p, Init(2, full, v), s') && |s'.ts| == 2 && !Told(s'.ts[0])
  {
    var s2 := RunsToRead(fmt, p, full, v, log, k);
    var ptr := s2.ts[0].pc.ptr;
    var s3 := SecondRunsAll(fmt, p, full, v, s2, log, k + 1, m + 1, ptr);
    s' := GetsAnother(fmt, p, full, v, s3, ptr, log[k].1.ret);
  }

  lemma {:induction false} StartReached(fmt: Val -> string, p: Op -> bool, full: bool, v: Val)
    ensures Reaches(fmt, p, Init(2, full, v), Init(2, full, v)) && Rest(Init(2, full, v)) && Init(2, full, v).ts[0].pc.Idle?
    ensures Init(2, full, v).abs == Init(0, full, v).abs
  {
    assert Exec(fmt, Init(2, full, v), []) == Init(2, full, v);
  }

  /** Another text, which fits the same block: of the same length, or of one character. */
  function Other(s: string): (r: string)
    ensures r != s && |r| == if s == "" then 1 else |s|
  {
    if s == "" then "!" else [if s[0] == '!' then '?' else '!'] + s[1..]
  }

  lemma {:induction false} GetsAnother(fmt: Val -> string, p: Op -> bool, full: bool, v: Val, s: State, ptr: nat, got: Val) returns (s': State)
    requires Plain(v) && Reaches(fmt, p, Init(2, full, v), s) && Rest(s) && Dead(s, ptr)
    requires s.ts[0].pc.Copy? && s.ts[0].pc.ptr == ptr && s.ts[0].pc.got == got && HasText(got)
    ensures Reaches(fmt, p, Init(2, full, v), s') && |s'.ts| == 2 && !Told(s'.ts[0])
  {
    CopyingKnown(fmt, p, full, v, s, got);
    var s1 := PutsAnother(fmt, p, full, v, s, ptr, Other(got.s));
    s' := StepCopy(s1, 0);
    ReachesNext(fmt, p, Init(2, full, v), s1, 0, Elsewhere(ptr, ""));
    WrongCopy(s1, ptr, got);
  }

  lemma {:induction false} CopyingKnown(fmt: Val -> string, p: Op -> bool, full: bool, v: Val, s: State, got: Val)
    requires Plain(v) && Reaches(fmt, p, Init(2, full, v), s) && |s.ts| == 2 && s.ts[0].pc.Copy? && s.ts[0].pc.got == got
    ensures Counted(s.ts[0]) && |s.ts[0].logged| > 0 && s.ts[0].logged[|s.ts[0].logged| - 1].ret == got
  {
    ReachesKnown(fmt, p, 2, full, v, s);
    LastIsCopied(s);
  }

  lemma {:induction false} LastIsCopied(s: State)
    requires CopyInv(s) && |s.ts| > 0 && s.ts[0].pc.Copy?
    ensures |s.ts[0].logged| > 0 && s.ts[0].logged[|s.ts[0].logged| - 1].ret == s.ts[0].pc.got
  {
    assert CopyOk(s, 0);
  }

  /** Another element is given the block that a text was in. */
  lemma {:induction false} PutsAnother(fmt: Val -> string, p: Op -> bool, full: bool, v: Val, s: State, ptr: nat, text: string) returns (s1: State)
    requires Reaches(fmt, p, Init(2, full, v), s) && |s.ts| == 2 && Dead(s, ptr) && s.ts[1].pc.Idle?
    ensures Reaches(fmt, p, Init(2, full, v), s1) && s1.ts == s.ts && TextAt(s1, ptr) == text
  {
    s1 := StepElsewhere(s, ptr, text);
    ReachesNext(fmt, p, Init(2, full, v), s, 1, Elsewhere(ptr, text));
  }

  lemma {:induction false} WrongCopy(s: State, ptr: nat, got: Val)
    requires |s.ts| == 2 && s.ts[0].pc.Copy? && s.ts[0].pc.ptr == ptr && Counted(s.ts[0]) && |s.ts[0].logged| > 0
    requires HasText(got) && s.ts[0].pc.got == got && s.ts[0].logged[|s.ts[0].logged| - 1].ret == got && TextAt(s, ptr) == Other(got.s)
    ensures !Told(StepCopy(s, 0).ts[0])
  {
    var th, th' := s.ts[0], StepCopy(s, 0).ts[0];
    assert th'.done[|th.done|].ret == Retext(got, Other(got.s)) && th'.logged[|th.done|].ret == got;
  }

  /** Callers are given what was read in every run of primitives of the kind `p`, by any number
      of threads, exactly if no sequential history of such primitives reads a text without a
      hold and replaces the value later. */
  lemma {:induction false} TruthfulExactly(fmt: Val -> string, p: Op -> bool, full: bool, v: Val)
    requires Plain(v)
    ensures Safe(fmt, p, full, v) <==>
      forall n: nat, sched: seq<(nat, Choice)> :: Schedule(n, sched) && AllUse(p, sched) ==> Truthful(Exec(fmt, Init(n, full, v), sched))
  {
    if Safe(fmt, p, full, v) {
      forall n: nat, sched: seq<(nat, Choice)> | Schedule(n, sched) && AllUse(p, sched)
        ensures Truthful(Exec(fmt, Init(n, full, v), sched))
      {
        SafeIsTruthful(fmt, p, n, full, v, sched);
      }
    } else {
      var log: seq<(nat, Event)> :| History(fmt, p, Init(0, full, v).abs, log) && Hazard(log);
      var k: nat, m: nat :| k < m < |log| && LateText(log[k].1) && Mutates(log[m].1);
      var s := HazardRuns(fmt, p, full, v, log, k, m);
      var sched: seq<(nat, Choice)> :| Schedule(2, sched) && AllUse(p, sched) && Exec(fmt, Init(2, full, v), sched) == s;
      assert !Truthful(s);
    }
  }
}
