/** Which primitives the threads of a run use, and when in the history they take effect. */
module TagUse {
  import opened Tags
  import opened TagCell

  /** The primitive a thread is running. */
  function PcOp(pc: Pc): Option<Op> {
    match pc
    case Idle => None
    case Failed => None
    case Stuck(arg) => Some(Faa(arg))
    case ReadLoad(i, f, _) => Some(ReadOp(i, f))
    case ReadSwap(i, f, _) => Some(ReadOp(i, f))
    case ReadData(i, f, _) => Some(ReadOp(i, f))
    case ReadStore(i, f, _, _, _) => Some(ReadOp(i, f))
    case Copy(op, _, _, _) => Some(op)
    case MoveLoad(op) => Some(op)
    case MoveSwap(op, _) => Some(op)
    case WriteLoad(v) => Some(WriteEF(v))
    case WriteData(v, _) => Some(WriteEF(v))
    case WriteCheck(v, _) => Some(WriteEF(v))
    case WriteStore(v, _) => Some(WriteEF(v))
    case FaaRead(a, _) => Some(Faa(a))
    case FaaWrite(a, _, _) => Some(Faa(a))
    case FaaStore(a, _, _) => Some(Faa(a))
    case CasType(o, n) => Some(Cas(o, n))
    case CasRead(o, n, _) => Some(Cas(o, n))
    case CasWrite(o, n, _, _) => Some(Cas(o, n))
    case CasStore(o, n, _, _) => Some(Cas(o, n))
    case ReleaseLoad => Some(ReleaseRW)
    case ReleaseSwap(_) => Some(ReleaseRW)
  }

  /** What a scheduler starts, if it starts anything, is of the kind `p`. */
  predicate Uses(p: Op -> bool, c: Choice) {
    c.Choice? ==> p(c.op)
  }

  predicate AllUse(p: Op -> bool, sched: seq<(nat, Choice)>) {
    forall k :: 0 <= k < |sched| ==> Uses(p, sched[k].1)
  }

  /** Only plain primitives of the kind `p` have been started. */
  ghost predicate Only(p: Op -> bool, s: State) {
    && (forall i :: 0 <= i < |s.ts| && PcOp(s.ts[i].pc).Some? ==> p(PcOp(s.ts[i].pc).value) && PlainOp(PcOp(s.ts[i].pc).value))
    && OnlyLogged(p, s.log)
  }

  predicate OnlyLogged(p: Op -> bool, log: seq<(nat, Event)>) {
    forall k :: 0 <= k < |log| ==> p(log[k].1.op) && PlainOp(log[k].1.op)
  }

  /** Every completed primitive is logged, and besides at most the one whose text is still
      being copied. */
  predicate Counted(th: Thread) {
    |th.done| + (if th.pc.Copy? then 1 else 0) == |th.logged|
  }

  /** A step gives its caller nothing, or what it logs, or the text it copies; it may log a
      read whose text is still to be copied. */
  ghost predicate Gives(s: State, th: Thread, th': Thread) {
    || (th'.done == th.done && th'.logged == th.logged)
    || (th'.done == th.done && |th'.logged| == |th.logged| + 1 && th'.logged[..|th.logged|] == th.logged)
    || (|th'.logged| == |th.logged| + 1 && th'.logged[..|th.logged|] == th.logged && th'.done == th.done + [th'.logged[|th.logged|]] && !th.pc.Copy?)
    || (th.pc.Copy? && th'.logged == th.logged && th'.done == th.done + [Event(th.pc.op, Retext(th.pc.got, TextAt(s, th.pc.ptr)))])
  }

  /** What a step does: it goes on with the primitive its thread is running, or starts the
      chosen one, and logs no other. */
  ghost predicate Continues(s: State, t: nat, c: Choice, s': State) {
    && t < |s.ts| && |s'.ts| == |s.ts| && s'.ts == s.ts[t := s'.ts[t]]
    && (Counted(s.ts[t]) ==> Counted(s'.ts[t])) && Gives(s, s.ts[t], s'.ts[t])
    && (PcOp(s'.ts[t].pc).Some? ==>
         if s.ts[t].pc.Idle? then c.Choice? && PlainOp(c.op) && PcOp(s'.ts[t].pc) == Some(c.op) else PcOp(s'.ts[t].pc) == PcOp(s.ts[t].pc))
    && (s'.log == s.log || (|s'.log| == |s.log| + 1 && s'.log == s.log + [s'.log[|s.log|]] && s'.log[|s.log|].0 == t && Some(s'.log[|s.log|].1.op) == PcOp(s.ts[t].pc)))
  }

  lemma {:induction false} StartContinues(s: State, t: nat, c: Choice)
    requires t < |s.ts| && s.ts[t].pc.Idle? && c.Choice?
    ensures Continues(s, t, c, Start(s, t, c))
  {}

  lemma {:induction false} ReadContinues(s: State, t: nat, c: Choice)
    requires t < |s.ts| && (InRead(s.ts[t].pc) || s.ts[t].pc.Copy?)
    ensures Continues(s, t, c, if s.ts[t].pc.Copy? then StepCopy(s, t) else StepRead(s, t))
  {}

  lemma {:induction false} MoveContinues(s: State, t: nat, c: Choice)
    requires t < |s.ts| && InMove(s.ts[t].pc)
    ensures Continues(s, t, c, StepMove(s, t))
  {}

  lemma {:induction false} WriteContinues(s: State, t: nat, c: Choice)
    requires t < |s.ts| && InWrite(s.ts[t].pc)
    ensures Continues(s, t, c, StepWrite(s, t, c.at))
  {}

  lemma {:induction false} FaaContinues(fmt: Val -> string, s: State, t: nat, c: Choice)
    requires t < |s.ts| && InFaa(s.ts[t].pc)
    ensures Continues(s, t, c, StepFaa(fmt, s, t, c.at))
  {}

  lemma {:induction false} CasContinues(s: State, t: nat, c: Choice)
    requires t < |s.ts| && InCas(s.ts[t].pc)
    ensures Continues(s, t, c, StepCas(s, t, c.at))
  {}

  lemma {:induction false} ReleaseContinues(s: State, t: nat, c: Choice)
    requires t < |s.ts| && (s.ts[t].pc.ReleaseLoad? || s.ts[t].pc.ReleaseSwap? || s.ts[t].pc.Failed?)
    ensures Continues(s, t, c, StepRelease(s, t))
  {}

  lemma {:induction false} StepContinues(fmt: Val -> string, s: State, t: nat, c: Choice)
    requires t < |s.ts|
    ensures Continues(s, t, c, Step(fmt, s, t, c))
  {
    var pc := s.ts[t].pc;
    if pc.Idle? {
      if c.Choice? { StartContinues(s, t, c); }
    } else if InRead(pc) || pc.Copy? {
      ReadContinues(s, t, c);
    } else if InMove(pc) {
      MoveContinues(s, t, c);
    } else if InWrite(pc) {
      WriteContinues(s, t, c);
    } else if InFaa(pc) {
      FaaContinues(fmt, s, t, c);
    } else if InCas(pc) {
      CasContinues(s, t, c);
    } else if !pc.Stuck? {
      ReleaseContinues(s, t, c);
    }
  }

  lemma {:induction false} StepOnly(fmt: Val -> string, p: Op -> bool, s: State, t: nat, c: Choice)
    requires t < |s.ts| && Only(p, s) && Uses(p, c)
    ensures Only(p, Step(fmt, s, t, c))
  {
    var s' := Step(fmt, s, t, c);
    StepContinues(fmt, s, t, c);
    forall i | 0 <= i < |s'.ts| && PcOp(s'.ts[i].pc).Some?
      ensures p(PcOp(s'.ts[i].pc).value) && PlainOp(PcOp(s'.ts[i].pc).value)
    {
      if i != t { assert s'.ts[i] == s.ts[i]; }
    }
  }

  lemma {:induction false} RunOnly(fmt: Val -> string, p: Op -> bool, n: nat, full: bool, v: Val, sched: seq<(nat, Choice)>)
    requires Plain(v) && Schedule(n, sched) && AllUse(p, sched)
    ensures Only(p, Exec(fmt, Init(n, full, v), sched))
    decreases |sched|
  {
    if sched != [] {
      var k := |sched| - 1;
      RunOnly(fmt, p, n, full, v, sched[..k]);
      StepOnly(fmt, p, Exec(fmt, Init(n, full, v), sched[..k]), sched[k].0, sched[k].1);
    }
  }

  // ---- Histories -------------------------------------------------------------

  lemma {:induction false} ReplayPrefix(fmt: Val -> string, a: Abs, log: seq<(nat, Event)>, k: nat)
    requires k <= |log| && Replay(fmt, a, log).Some?
    ensures Replay(fmt, a, log[..k]).Some?
    decreases |log|
  {
    if k == |log| {
      assert log[..k] == log;
    } else {
      ReplayPrefix(fmt, a, log[..|log| - 1], k);
      assert log[..|log| - 1][..k] == log[..k];
    }
  }

  // ---- Real time -------------------------------------------------------------

  lemma {:induction false} LogGrows(fmt: Val -> string, s: State, sched: seq<(nat, Choice)>, j: nat)
    requires Schedule(|s.ts|, sched) && j <= |sched|
    ensures Exec(fmt, s, sched[..j]).log <= Exec(fmt, s, sched).log
    decreases |sched|
  {
    if j == |sched| {
      assert sched[..j] == sched;
    } else {
      var k := |sched| - 1;
      LogGrows(fmt, s, sched[..k], j);
      assert sched[..k][..j] == sched[..j];
      StepContinues(fmt, Exec(fmt, s, sched[..k]), sched[k].0, sched[k].1);
    }
  }

  /** Entry `k` of the history is operation number `a` of thread `t`. */
  ghost predicate IsOp(log: seq<(nat, Event)>, t: nat, a: nat, k: nat) {
    k < |log| && log[k].0 == t && |Proj(log[..k], t)| == a
  }

  lemma {:induction false} ProjGrows(log: seq<(nat, Event)>, t: nat, j: nat, k: nat)
    requires j <= k <= |log|
    ensures |Proj(log[..j], t)| <= |Proj(log[..k], t)|
    ensures j < k && log[j].0 == t ==> |Proj(log[..j], t)| < |Proj(log[..k], t)|
    decreases k
  {
    if j < k {
      ProjGrows(log, t, j, k - 1);
      assert log[..k][..k - 1] == log[..k - 1];
    }
  }

  lemma {:induction false} RunCounts(fmt: Val -> string, n: nat, full: bool, v: Val, sched: seq<(nat, Choice)>)
    requires Schedule(n, sched)
    ensures forall i :: 0 <= i < n ==> Counted(Exec(fmt, Init(n, full, v), sched).ts[i])
    decreases |sched|
  {
    if sched != [] {
      var k := |sched| - 1;
      RunCounts(fmt, n, full, v, sched[..k]);
      StepContinues(fmt, Exec(fmt, Init(n, full, v), sched[..k]), sched[k].0, sched[k].1);
    }
  }

  /** The history respects time: a primitive that a thread has completed when another thread is
      idle comes before all that the other thread starts from then on. */
  lemma {:induction false} HistoryRespectsTime(fmt: Val -> string, n: nat, full: bool, v: Val, sched: seq<(nat, Choice)>, j: nat, t: nat, a: nat, u: nat, b: nat, k: nat, m: nat)
    requires Plain(v) && Schedule(n, sched) && j <= |sched| && t < n && u < n
    requires var s0 := Exec(fmt, Init(n, full, v), sched[..j]);
      a < |s0.ts[t].done| && s0.ts[u].pc.Idle? && b >= |s0.ts[u].done|
    requires var s := Exec(fmt, Init(n, full, v), sched); IsOp(s.log, t, a, k) && IsOp(s.log, u, b, m)
    ensures k < m
  {
    var s0, s := Exec(fmt, Init(n, full, v), sched[..j]), Exec(fmt, Init(n, full, v), sched);
    Linearizable(fmt, n, full, v, sched[..j]);
    RunCounts(fmt, n, full, v, sched[..j]);
    LogGrows(fmt, Init(n, full, v), sched, j);
    var log, cut := s.log, |s0.log|;
    assert log[..cut] == s0.log;
    if k >= cut {
      ProjGrows(log, t, cut, k);
    }
    if m < cut {
      ProjGrows(log, u, m, cut);
    }
  }
}
