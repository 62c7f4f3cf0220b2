/** An element used only by writeEF, readFE and readFF is a one-place channel: exactly for which
    uses, as its readers are given texts only after they have given the element back. */
module TagChannel {
  import opened Tags
  import opened TagCell
  import opened TagUse
  import opened TagCopy
  import opened TagCopyRuns
  import opened TagSafeUses

  predicate ChannelOp(op: Op) {
    op.WriteEF? || op.ReadFE? || op.ReadFF?
  }

  /** The values written, in order. */
  function Written(log: seq<(nat, Event)>): seq<Val> {
    if log == [] then []
    else
      var e := log[|log| - 1].1;
      Written(log[..|log| - 1]) + if e.op.WriteEF? then [e.op.v] else []
  }

  /** The values taken out, in order. */
  function Taken(log: seq<(nat, Event)>): seq<Val> {
    if log == [] then []
    else
      var e := log[|log| - 1].1;
      Taken(log[..|log| - 1]) + if e.op.ReadFE? then [e.ret] else []
  }

  /** In a history of an empty element that is only written when empty and read when full,
      the k-th value taken is the k-th value written, and at most one is under way. */
  lemma {:induction false} ChannelHistory(fmt: Val -> string, log: seq<(nat, Event)>)
    requires forall k :: 0 <= k < |log| ==> ChannelOp(log[k].1.op)
    requires Replay(fmt, AEmpty, log).Some?
    ensures var b := Replay(fmt, AEmpty, log).value;
      (b == AEmpty && Written(log) == Taken(log)) || (b.AFull? && Written(log) == Taken(log) + [b.v])
  {
    if log != [] {
      ChannelHistory(fmt, log[..|log| - 1]);
      assert ChannelOp(log[|log| - 1].1.op);
    }
  }

  /** A readFF returns the value that is under way. */
  lemma {:induction false} ReadFFReturns(fmt: Val -> string, log: seq<(nat, Event)>, k: nat)
    requires forall j :: 0 <= j < |log| ==> ChannelOp(log[j].1.op)
    requires Replay(fmt, AEmpty, log).Some? && k < |log| && log[k].1.op.ReadFF?
    ensures Written(log[..k]) == Taken(log[..k]) + [log[k].1.ret]
  {
    ReplayPrefix(fmt, AEmpty, log, k + 1);
    ReplayPrefix(fmt, AEmpty, log, k);
    assert log[..k + 1][..k] == log[..k];
    ChannelHistory(fmt, log[..k]);
  }

  /** Only writeEF, readFE and readFF are used. */
  ghost predicate ChannelUse(p: Op -> bool) {
    forall op :: p(op) ==> ChannelOp(op)
  }

  /** No text is written, or nothing is taken out. */
  ghost predicate KeepsTexts(p: Op -> bool) {
    !(p(ReadFE) && exists v: Val :: HasText(v) && p(WriteEF(v)))
  }

  lemma {:induction false} KeepsTextsIsSafe(fmt: Val -> string, p: Op -> bool, v: Val)
    requires ChannelUse(p)
    ensures Safe(fmt, p, false, v) <==> KeepsTexts(p)
  {
    forall op | p(op)
      ensures !op.Faa? && !op.Cas?
    {
      assert ChannelOp(op);
    }
    ReadsAndWritesExactly(fmt, p, false, v);
    if x: Val :| p(WriteEF(x)) && HasText(x) {
      assert Plain(x);
    }
  }

  /** For the uses that keep texts, and only for these, every reader of the channel is given
      what it read, in every run of any number of threads. */
  lemma {:induction false} ChannelExactly(fmt: Val -> string, p: Op -> bool, v: Val)
    requires Plain(v) && ChannelUse(p)
    ensures KeepsTexts(p) <==>
      forall n: nat, sched: seq<(nat, Choice)> :: Schedule(n, sched) && AllUse(p, sched) ==> Truthful(Exec(fmt, Init(n, false, v), sched))
  {
    TruthfulExactly(fmt, p, false, v);
    KeepsTextsIsSafe(fmt, p, v);
  }

  /** What the tags make of the channel under any interleaving of any number of threads: the
      k-th value read is the k-th value written. */
  lemma {:induction false} ChannelRuns(fmt: Val -> string, n: nat, v: Val, sched: seq<(nat, Choice)>)
    requires Plain(v) && Schedule(n, sched) && AllUse(ChannelOp, sched)
    ensures var s := Exec(fmt, Init(n, false, v), sched);
      && Taken(s.log) <= Written(s.log) && |Written(s.log)| <= |Taken(s.log)| + 1
      && (s.tag.fe == Full ==> Written(s.log) == Taken(s.log) + [Content(s)])
      && (s.tag.fe == Empty ==> Written(s.log) == Taken(s.log))
      && (forall k: nat {:trigger s.log[k]} :: k < |s.log| && s.log[k].1.op.ReadFF? ==> Written(s.log[..k]) == Taken(s.log[..k]) + [s.log[k].1.ret])
  {
    var s := Exec(fmt, Init(n, false, v), sched);
    Linearizable(fmt, n, false, v, sched);
    RunOnly(fmt, ChannelOp, n, false, v, sched);
    ChannelHistory(fmt, s.log);
    forall k: nat | k < |s.log| && s.log[k].1.op.ReadFF?
      ensures Written(s.log[..k]) == Taken(s.log[..k]) + [s.log[k].1.ret]
    {
      ReadFFReturns(fmt, s.log, k);
    }
  }

  /** A one-place channel that keeps texts, under any interleaving of any number of threads: the
      callers are given the k-th value written by the k-th readFE, nothing written is lost,
      duplicated or reordered. */
  lemma {:induction false} OnePlaceChannel(fmt: Val -> string, p: Op -> bool, n: nat, v: Val, sched: seq<(nat, Choice)>)
    requires Plain(v) && ChannelUse(p) && KeepsTexts(p) && Schedule(n, sched) && AllUse(p, sched)
    ensures var s := Exec(fmt, Init(n, false, v), sched);
      && Results(s)
      && Taken(s.log) <= Written(s.log) && |Written(s.log)| <= |Taken(s.log)| + 1
      && (s.tag.fe == Full ==> Written(s.log) == Taken(s.log) + [Content(s)])
      && (s.tag.fe == Empty ==> Written(s.log) == Taken(s.log))
      && (forall k: nat {:trigger s.log[k]} :: k < |s.log| && s.log[k].1.op.ReadFF? ==> Written(s.log[..k]) == Taken(s.log[..k]) + [s.log[k].1.ret])
  {
    assert AllUse(ChannelOp, sched);
    ChannelRuns(fmt, n, v, sched);
    KeepsTextsIsSafe(fmt, p, v);
    SafeResults(fmt, p, n, false, v, sched);
  }

  // ---- A text that is lost and one that is given twice --------------------------------------

  /** Thread `t` is `k` steps into writing text `x` into the empty element. */
  ghost predicate Writing(s: State, t: nat, x: string, at: nat, k: nat) {
    && t < |s.ts|
    && match k
       case 0 => s.ts[t].pc == Idle && s.tag.fe == Empty && (s.live ==> IsText(s.tag.typ))
       case 1 => s.ts[t].pc == MoveLoad(WriteEF(VStr(x))) && s.tag.fe == Empty && (s.live ==> IsText(s.tag.typ))
       case 2 => s.ts[t].pc == MoveSwap(WriteEF(VStr(x)), s.tag) && s.tag.fe == Empty && (s.live ==> IsText(s.tag.typ))
       case 3 => s.ts[t].pc == WriteLoad(VStr(x)) && s.tag.fe == Busy && (s.live ==> IsText(s.tag.typ))
       case 4 => s.ts[t].pc == WriteData(VStr(x), s.tag) && s.tag.fe == Busy && !s.live
       case 5 => s.ts[t].pc == WriteCheck(VStr(x), s.tag) && s.word == VStr(x) && s.live && s.at == at
       case 6 => s.ts[t].pc == WriteStore(VStr(x), s.tag) && s.word == VStr(x) && s.live && s.at == at
       case _ => s.ts[t].pc == Idle && s.word == VStr(x) && s.live && s.at == at && s.tag == Tag(Full, String, 0)
  }

  lemma {:induction false} WritingNext(fmt: Val -> string, s: State, t: nat, x: string, at: nat, k: nat)
    requires Writing(s, t, x, at, k) && k < 7
    ensures var s' := Step(fmt, s, t, Choice(WriteEF(VStr(x)), 0, at));
      && Writing(s', t, x, at, k + 1) && s'.ts == s.ts[t := s'.ts[t]]
      && s'.log == if k == 6 then s.log + [(t, Event(WriteEF(VStr(x)), VUndefined))] else s.log
  {}

  /** Thread `t` is `k` steps into reading text `x` from the full element, and emptying it. */
  ghost predicate Taking(s: State, t: nat, x: string, at: nat, k: nat) {
    && t < |s.ts| && s.word == VStr(x) && s.live && s.at == at && s.tag.typ == String
    && match k
       case 0 => s.ts[t].pc == Idle && s.tag == Tag(Full, String, 0)
       case 1 => s.ts[t].pc == ReadLoad(Full, Empty, 0) && s.tag == Tag(Full, String, 0)
       case 2 => s.ts[t].pc == ReadSwap(Full, Empty, s.tag) && s.tag == Tag(Full, String, 0)
       case 3 => s.ts[t].pc == ReadData(Full, Empty, s.tag)
       case 4 => s.ts[t].pc == ReadStore(Full, Empty, s.tag.(fe := Empty), VStr(x), at)
       case _ => s.ts[t].pc.Copy? && s.ts[t].pc.op == ReadFE && s.ts[t].pc.ptr == at && s.ts[t].pc.got.VStr? && s.tag.fe == Empty
  }

  lemma {:induction false} TakingNext(fmt: Val -> string, s: State, t: nat, x: string, at: nat, k: nat)
    requires Taking(s, t, x, at, k) && k < 5
    ensures var s' := Step(fmt, s, t, Choice(ReadFE, 0, at));
      && Taking(s', t, x, at, k + 1) && s'.ts == s.ts[t := s'.ts[t]] && s'.ts[t].done == s.ts[t].done
      && s'.log == if k == 4 then s.log + [(t, Event(ReadFE, VStr(x)))] else s.log
  {}

  lemma {:induction false} WritesText(fmt: Val -> string, s0: State, s: State, t: nat, x: string, at: nat) returns (s': State)
    requires Reaches(fmt, ChannelOp, s0, s) && |s0.ts| == |s.ts| && Writing(s, t, x, at, 0)
    ensures Reaches(fmt, ChannelOp, s0, s') && Writing(s', t, x, at, 7) && s'.ts == s.ts[t := s'.ts[t]]
    ensures s'.log == s.log + [(t, Event(WriteEF(VStr(x)), VUndefined))]
  {
    s' := s;
    for k := 0 to 7
      invariant Reaches(fmt, ChannelOp, s0, s') && Writing(s', t, x, at, k) && s'.ts == s.ts[t := s'.ts[t]]
      invariant s'.log == if k == 7 then s.log + [(t, Event(WriteEF(VStr(x)), VUndefined))] else s.log
    {
      var c := Choice(WriteEF(VStr(x)), 0, at);
      ReachesNext(fmt, ChannelOp, s0, s', t, c);
      WritingNext(fmt, s', t, x, at, k);
      s' := Step(fmt, s', t, c);
    }
  }

  lemma {:induction false} TakesText(fmt: Val -> string, s0: State, s: State, t: nat, x: string, at: nat) returns (s': State)
    requires Reaches(fmt, ChannelOp, s0, s) && |s0.ts| == |s.ts| && Taking(s, t, x, at, 0)
    ensures Reaches(fmt, ChannelOp, s0, s') && Taking(s', t, x, at, 5) && s'.ts == s.ts[t := s'.ts[t]]
    ensures s'.ts[t].done == s.ts[t].done && s'.log == s.log + [(t, Event(ReadFE, VStr(x)))]
  {
    s' := s;
    for k := 0 to 5
      invariant Reaches(fmt, ChannelOp, s0, s') && Taking(s', t, x, at, k) && s'.ts == s.ts[t := s'.ts[t]]
      invariant s'.ts[t].done == s.ts[t].done
      invariant s'.log == if k == 5 then s.log + [(t, Event(ReadFE, VStr(x)))] else s.log
    {
      var c := Choice(ReadFE, 0, at);
      ReachesNext(fmt, ChannelOp, s0, s', t, c);
      TakingNext(fmt, s', t, x, at, k);
      s' := Step(fmt, s', t, c);
    }
  }

  lemma {:induction false} CopiesText(fmt: Val -> string, s0: State, s: State, t: nat, x: string, at: nat) returns (s': State)
    requires Reaches(fmt, ChannelOp, s0, s) && |s0.ts| == |s.ts| && t < |s.ts|
    requires s.ts[t].pc.Copy? && s.ts[t].pc.op == ReadFE && s.ts[t].pc.ptr == at && s.ts[t].pc.got.VStr? && s.live && s.at == at && s.word == VStr(x)
    ensures Reaches(fmt, ChannelOp, s0, s') && s'.ts == s.ts[t := s'.ts[t]]
    ensures s'.ts[t].pc == Idle && s'.ts[t].done == s.ts[t].done + [Event(ReadFE, VStr(x))]
    ensures s' == s.(ts := s'.ts)
  {
    ReachesNext(fmt, ChannelOp, s0, s, t, Elsewhere(0, ""));
    s' := StepCopy(s, t);
  }

  lemma {:induction false} StartOfTwo(fmt: Val -> string)
    ensures var s0 := Init(2, false, VUndefined);
      Reaches(fmt, ChannelOp, s0, s0) && |s0.ts| == 2 && s0.log == [] && !s0.live && s0.tag.fe == Empty
      && s0.ts[0].pc == Idle && s0.ts[0].done == [] && s0.ts[1].pc == Idle
  {
    var s0 := Init(2, false, VUndefined);
    assert Exec(fmt, s0, []) == s0;
  }

  function Wrote(x: string): (nat, Event) {
    (1, Event(WriteEF(VStr(x)), VUndefined))
  }

  function Took(x: string): (nat, Event) {
    (0, Event(ReadFE, VStr(x)))
  }

  /** The writer has written "a"; the reader has taken it, and is about to copy it. */
  lemma {:induction false} FirstTaken(fmt: Val -> string) returns (s: State)
    ensures Reaches(fmt, ChannelOp, Init(2, false, VUndefined), s) && |s.ts| == 2
    ensures Taking(s, 0, "a", 0, 5) && Writing(s, 1, "b", 0, 0)
    ensures s.ts[0].done == [] && s.log == [] + [Wrote("a")] + [Took("a")]
  {
    var s0 := Init(2, false, VUndefined);
    StartOfTwo(fmt);
    var s1 := WritesText(fmt, s0, s0, 1, "a", 0);
    s := TakesText(fmt, s0, s1, 0, "a", 0);
  }

  /** The writer has written "b", in the block that "a" was in, before the reader copies. */
  lemma {:induction false} FirstReplaced(fmt: Val -> string) returns (s: State)
    ensures Reaches(fmt, ChannelOp, Init(2, false, VUndefined), s) && |s.ts| == 2
    ensures Taking(s, 0, "b", 0, 0) && s.ts[0].done == [Event(ReadFE, VStr("b"))]
    ensures s.log == [] + [Wrote("a")] + [Took("a")] + [Wrote("b")]
  {
    var s0 := Init(2, false, VUndefined);
    var s2 := FirstTaken(fmt);
    var s3 := WritesText(fmt, s0, s2, 1, "b", 0);
    s := CopiesText(fmt, s0, s3, 0, "b", 0);
  }

  /** The reader has copied "b" once, and has taken it again. */
  lemma {:induction false} SecondTaken(fmt: Val -> string) returns (s: State)
    ensures Reaches(fmt, ChannelOp, Init(2, false, VUndefined), s) && |s.ts| == 2
    ensures Taking(s, 0, "b", 0, 5) && s.ts[0].done == [Event(ReadFE, VStr("b"))]
    ensures s.log == [] + [Wrote("a")] + [Took("a")] + [Wrote("b")] + [Took("b")]
  {
    var s4 := FirstReplaced(fmt);
    s := TakesText(fmt, Init(2, false, VUndefined), s4, 0, "b", 0);
  }

  /** The reader of two texts, "a" and "b", is given "b" twice: "a" is lost. */
  lemma {:induction false} LostAndDoubled(fmt: Val -> string) returns (s: State)
    ensures Reaches(fmt, ChannelOp, Init(2, false, VUndefined), s) && |s.ts| == 2
    ensures s.ts[0].done == [Event(ReadFE, VStr("b")), Event(ReadFE, VStr("b"))]
    ensures Written(s.log) == [VStr("a"), VStr("b")]
  {
    var s5 := SecondTaken(fmt);
    s := CopiesText(fmt, Init(2, false, VUndefined), s5, 0, "b", 0);
    FourEvents(s.log, "a", "b");
  }

  lemma {:induction false} FourEvents(log: seq<(nat, Event)>, a: string, b: string)
    requires log == [] + [Wrote(a)] + [Took(a)] + [Wrote(b)] + [Took(b)]
    ensures Written(log) == [VStr(a), VStr(b)]
  {
    assert log[..3][..2][..1][..0] == [];
    assert Written(log[..3][..2][..1]) == [VStr(a)];
    assert Written(log[..3][..2]) == [VStr(a)];
    assert Written(log[..3]) == [VStr(a), VStr(b)];
  }
}
