/** When the use of an element is safe for texts, told from the primitives and values in use:
    exactly if no text that can come into the element can be read without a hold and replaced. */
module TagSafeUses {
  import opened Tags
  import opened TagCell
  import opened TagUse
  import opened TagCopy
  import opened TagCopyRuns

  /** Primitives in use can replace value `a` of a full element by value `b`. */
  ghost predicate Replaces(fmt: Val -> string, p: Op -> bool, a: Val, b: Val) {
    || (p(ReadFE) && p(WriteEF(b)) && Plain(b))
    || (p(Cas(a, b)) && Plain(b))
    || exists arg: Val :: p(Faa(arg)) && Plain(arg) && !a.VJson? && !arg.VJson? && b == Add(fmt, a, arg)
  }

  /** The first value of the element. */
  predicate First(p: Op -> bool, full: bool, v: Val, a: Val) {
    if full then a == v else p(WriteEF(a)) && Plain(a)
  }

  /** Values that the element can have one after the other. */
  ghost predicate Chain(fmt: Val -> string, p: Op -> bool, full: bool, v: Val, c: seq<Val>) {
    && |c| > 0 && First(p, full, v, c[0])
    && forall i: nat {:trigger c[i]} :: i < |c| - 1 ==> Replaces(fmt, p, c[i], c[i + 1])
  }

  /** The element can come to hold `x`. */
  ghost predicate Comes(fmt: Val -> string, p: Op -> bool, full: bool, v: Val, x: Val) {
    exists c: seq<Val> :: Chain(fmt, p, full, v, c) && c[|c| - 1] == x
  }

  /** Value `x` can be read without a hold and replaced after that. */
  ghost predicate Exposed(fmt: Val -> string, p: Op -> bool, x: Val) {
    || (p(ReadFE) && exists w: Val :: p(WriteEF(w)) && Plain(w))
    || (p(ReadFF) && exists y: Val :: Replaces(fmt, p, x, y))
  }

  /** A text that can come into the element, be read without a hold, and be replaced. */
  ghost predicate TextAtRisk(fmt: Val -> string, p: Op -> bool, full: bool, v: Val, x: Val) {
    HasText(x) && Comes(fmt, p, full, v, x) && Exposed(fmt, p, x)
  }

  // ---- A use with such a text has a history with the hazard ------------------------------

  lemma {:induction false} Extends(fmt: Val -> string, p: Op -> bool, a: Abs, log: seq<(nat, Event)>, e: Event, b: Abs)
    requires History(fmt, p, a, log) && p(e.op) && PlainOp(e.op)
    requires AbsStep(fmt, Replay(fmt, a, log).value, e) == Some(b)
    ensures History(fmt, p, a, log + [(0, e)]) && Replay(fmt, a, log + [(0, e)]) == Some(b)
  {
    assert (log + [(0, e)])[..|log|] == log;
  }

  /** The value is replaced. */
  lemma {:induction false} ReplaceRuns(fmt: Val -> string, p: Op -> bool, a: Abs, log: seq<(nat, Event)>, x: Val, y: Val) returns (log': seq<(nat, Event)>)
    requires History(fmt, p, a, log) && Replay(fmt, a, log) == Some(AFull(x)) && Replaces(fmt, p, x, y)
    ensures History(fmt, p, a, log') && Replay(fmt, a, log') == Some(AFull(y))
    ensures |log| < |log'| && log'[..|log|] == log && Mutates(log'[|log'| - 1].1)
  {
    if p(ReadFE) && p(WriteEF(y)) && Plain(y) {
      Extends(fmt, p, a, log, Event(ReadFE, x), AEmpty);
      Extends(fmt, p, a, log + [(0, Event(ReadFE, x))], Event(WriteEF(y), VUndefined), AFull(y));
      log' := log + [(0, Event(ReadFE, x))] + [(0, Event(WriteEF(y), VUndefined))];
    } else if p(Cas(x, y)) && Plain(y) {
      Extends(fmt, p, a, log, Event(Cas(x, y), x), AFull(y));
      log' := log + [(0, Event(Cas(x, y), x))];
    } else {
      var arg: Val :| p(Faa(arg)) && Plain(arg) && !x.VJson? && !arg.VJson? && y == Add(fmt, x, arg);
      Extends(fmt, p, a, log, Event(Faa(arg), x), AFull(y));
      log' := log + [(0, Event(Faa(arg), x))];
    }
  }

  /** The values of a chain come into the element. */
  lemma {:induction false} ChainRuns(fmt: Val -> string, p: Op -> bool, full: bool, v: Val, c: seq<Val>, i: nat) returns (log: seq<(nat, Event)>)
    requires Chain(fmt, p, full, v, c) && i < |c|
    ensures History(fmt, p, Init(0, full, v).abs, log) && Replay(fmt, Init(0, full, v).abs, log) == Some(AFull(c[i]))
  {
    var a := Init(0, full, v).abs;
    if i > 0 {
      log := ChainRuns(fmt, p, full, v, c, i - 1);
      assert Replaces(fmt, p, c[i - 1], c[i - 1 + 1]);
      log := ReplaceRuns(fmt, p, a, log, c[i - 1], c[i]);
    } else {
      log := [];
      if !full {
        Extends(fmt, p, a, [], Event(WriteEF(c[0]), VUndefined), AFull(c[0]));
        log := [] + [(0, Event(WriteEF(c[0]), VUndefined))];
      }
    }
  }

  lemma {:induction false} RiskIsHazard(fmt: Val -> string, p: Op -> bool, full: bool, v: Val, x: Val)
    requires TextAtRisk(fmt, p, full, v, x)
    ensures !Safe(fmt, p, full, v)
  {
    var a := Init(0, full, v).abs;
    var c: seq<Val> :| Chain(fmt, p, full, v, c) && c[|c| - 1] == x;
    var log := ChainRuns(fmt, p, full, v, c, |c| - 1);
    var k := |log|;
    if w: Val :| p(ReadFE) && p(WriteEF(w)) && Plain(w) {
      Extends(fmt, p, a, log, Event(ReadFE, x), AEmpty);
      var log1 := log + [(0, Event(ReadFE, x))];
      Extends(fmt, p, a, log1, Event(WriteEF(w), VUndefined), AFull(w));
      var log2 := log1 + [(0, Event(WriteEF(w), VUndefined))];
      assert LateText(log2[k].1) && Mutates(log2[k + 1].1);
      assert History(fmt, p, a, log2) && Hazard(log2);
    } else {
      var y: Val :| Replaces(fmt, p, x, y);
      Extends(fmt, p, a, log, Event(ReadFF, x), AFull(x));
      var log1 := log + [(0, Event(ReadFF, x))];
      var log2 := ReplaceRuns(fmt, p, a, log1, x, y);
      assert log2[k] == log2[..|log1|][k] == log1[k];
      assert LateText(log2[k].1) && Mutates(log2[|log2| - 1].1);
      assert History(fmt, p, a, log2) && Hazard(log2);
    }
  }

  // ---- A history with the hazard has such a text ---------------------------------------

  /** What an element can hold, or how it can be empty. */
  ghost predicate Possible(fmt: Val -> string, p: Op -> bool, full: bool, v: Val, a: Abs) {
    match a
    case AEmpty => !full || (p(ReadFE) && exists x: Val :: Comes(fmt, p, full, v, x))
    case AFull(x) => Comes(fmt, p, full, v, x)
    case AShared(_, x) => Comes(fmt, p, full, v, x)
  }

  lemma {:induction false} ComesNext(fmt: Val -> string, p: Op -> bool, full: bool, v: Val, x: Val, y: Val)
    requires Comes(fmt, p, full, v, x) && Replaces(fmt, p, x, y)
    ensures Comes(fmt, p, full, v, y)
  {
    var c: seq<Val> :| Chain(fmt, p, full, v, c) && c[|c| - 1] == x;
    var d := c + [y];
    forall i: nat | i < |d| - 1
      ensures Replaces(fmt, p, d[i], d[i + 1])
    {
      if i < |c| - 1 { assert Replaces(fmt, p, c[i], c[i + 1]); }
    }
    assert Chain(fmt, p, full, v, d) && d[|d| - 1] == y;
  }

  lemma {:induction false} ComesFirst(fmt: Val -> string, p: Op -> bool, full: bool, v: Val, x: Val)
    requires First(p, full, v, x)
    ensures Comes(fmt, p, full, v, x)
  {
    assert Chain(fmt, p, full, v, [x]) && [x][|[x]| - 1] == x;
  }

  lemma {:induction false} PossibleNext(fmt: Val -> string, p: Op -> bool, full: bool, v: Val, a: Abs, e: Event, b: Abs)
    requires Possible(fmt, p, full, v, a) && p(e.op) && PlainOp(e.op) && AbsStep(fmt, a, e) == Some(b)
    ensures Possible(fmt, p, full, v, b)
  {
    match e.op
    case WriteEF(y) =>
      if full {
        var x: Val :| Comes(fmt, p, full, v, x);
        ComesNext(fmt, p, full, v, x, y);
      } else {
        ComesFirst(fmt, p, full, v, y);
      }
    case Faa(arg) =>
      assert Replaces(fmt, p, e.ret, Add(fmt, e.ret, arg));
      ComesNext(fmt, p, full, v, e.ret, Add(fmt, e.ret, arg));
    case Cas(o, y) =>
      if e.ret == o { ComesNext(fmt, p, full, v, o, y); }
    case _ =>
  }

  lemma {:induction false} AlwaysPossible(fmt: Val -> string, p: Op -> bool, full: bool, v: Val, log: seq<(nat, Event)>, k: nat)
    requires History(fmt, p, Init(0, full, v).abs, log) && k <= |log|
    ensures Replay(fmt, Init(0, full, v).abs, log[..k]).Some?
    ensures Possible(fmt, p, full, v, Replay(fmt, Init(0, full, v).abs, log[..k]).value)
  {
    var a := Init(0, full, v).abs;
    if k == 0 {
      if full { ComesFirst(fmt, p, full, v, v); }
    } else {
      AlwaysPossible(fmt, p, full, v, log, k - 1);
      NextEntry(fmt, p, a, log, k - 1);
      PossibleNext(fmt, p, full, v, Replay(fmt, a, log[..k - 1]).value, log[k - 1].1, Replay(fmt, a, log[..k]).value);
    }
  }

  /** The element still holds `x`, or has been emptied. */
  ghost predicate Still(p: Op -> bool, a: Abs, x: Val) {
    a == AFull(x) || (a.AShared? && a.v == x) || (a == AEmpty && p(ReadFE))
  }

  /** What replaces `x` first. */
  lemma {:induction false} SomethingReplaces(fmt: Val -> string, p: Op -> bool, a: Abs, log: seq<(nat, Event)>, j: nat, m: nat, x: Val)
    requires History(fmt, p, a, log) && j <= m < |log| && Mutates(log[m].1)
    requires Replay(fmt, a, log[..j]).Some? && Still(p, Replay(fmt, a, log[..j]).value, x)
    ensures exists y: Val :: Replaces(fmt, p, x, y)
    decreases m - j
  {
    NextEntry(fmt, p, a, log, j);
    var e := log[j].1;
    if Mutates(e) {
      match e.op
      case WriteEF(y) => assert Replaces(fmt, p, x, y);
      case Faa(arg) => assert Replaces(fmt, p, x, Add(fmt, x, arg));
      case Cas(o, y) => assert Replaces(fmt, p, x, y);
    } else {
      SomethingReplaces(fmt, p, a, log, j + 1, m, x);
    }
  }

  /** Where a text is read without a hold, the element holds it. */
  lemma {:induction false} ReadTextIs(fmt: Val -> string, p: Op -> bool, full: bool, v: Val, log: seq<(nat, Event)>, k: nat)
    requires History(fmt, p, Init(0, full, v).abs, log) && k < |log| && LateText(log[k].1)
    ensures Comes(fmt, p, full, v, log[k].1.ret) && p(log[k].1.op)
    ensures Replay(fmt, Init(0, full, v).abs, log[..k + 1]) == Some(if log[k].1.op.ReadFE? then AEmpty else AFull(log[k].1.ret))
  {
    AlwaysPossible(fmt, p, full, v, log, k);
    NextEntry(fmt, p, Init(0, full, v).abs, log, k);
  }

  /** An empty element is written next. */
  lemma {:induction false} EmptyIsWritten(fmt: Val -> string, p: Op -> bool, a: Abs, log: seq<(nat, Event)>, j: nat)
    requires History(fmt, p, a, log) && j < |log| && Replay(fmt, a, log[..j]) == Some(AEmpty)
    ensures log[j].1.op.WriteEF? && p(log[j].1.op) && Plain(log[j].1.op.v)
  {
    NextEntry(fmt, p, a, log, j);
  }

  lemma {:induction false} HazardIsRisk(fmt: Val -> string, p: Op -> bool, full: bool, v: Val, log: seq<(nat, Event)>) returns (x: Val)
    requires History(fmt, p, Init(0, full, v).abs, log) && Hazard(log)
    ensures TextAtRisk(fmt, p, full, v, x)
  {
    var a := Init(0, full, v).abs;
    var k: nat, m: nat :| k < m < |log| && LateText(log[k].1) && Mutates(log[m].1);
    x := log[k].1.ret;
    ReadTextIs(fmt, p, full, v, log, k);
    if log[k].1.op.ReadFE? {
      EmptyIsWritten(fmt, p, a, log, k + 1);
      assert p(WriteEF(log[k + 1].1.op.v));
    } else {
      SomethingReplaces(fmt, p, a, log, k + 1, m, x);
    }
  }

  // ---- The results -----------------------------------------------------------------------

  /** A use is safe exactly if no text is at risk. */
  lemma {:induction false} SafeExactly(fmt: Val -> string, p: Op -> bool, full: bool, v: Val)
    ensures Safe(fmt, p, full, v) <==> !exists x: Val :: TextAtRisk(fmt, p, full, v, x)
  {
    if x: Val :| TextAtRisk(fmt, p, full, v, x) {
      RiskIsHazard(fmt, p, full, v, x);
    }
    if !Safe(fmt, p, full, v) {
      var log: seq<(nat, Event)> :| History(fmt, p, Init(0, full, v).abs, log) && Hazard(log);
      var x := HazardIsRisk(fmt, p, full, v, log);
    }
  }

  /** Callers are given what was read in every run of primitives of the kind `p`, by any number
      of threads, exactly if no text that can come into the element can be read without a hold
      and replaced. */
  lemma {:induction false} TruthfulUses(fmt: Val -> string, p: Op -> bool, full: bool, v: Val)
    requires Plain(v)
    ensures (!exists x: Val :: TextAtRisk(fmt, p, full, v, x)) <==>
      forall n: nat, sched: seq<(nat, Choice)> :: Schedule(n, sched) && AllUse(p, sched) ==> Truthful(Exec(fmt, Init(n, full, v), sched))
  {
    SafeExactly(fmt, p, full, v);
    TruthfulExactly(fmt, p, full, v);
  }

  /** Neither fetch and add nor compare and swap is used. */
  ghost predicate OnlyReadsAndWrites(p: Op -> bool) {
    forall op :: p(op) ==> !op.Faa? && !op.Cas?
  }

  /** There is a text in the element at first or one is written, and what is in it can be taken
      out and something written after that. */
  ghost predicate TakesTexts(p: Op -> bool, full: bool, v: Val) {
    && p(ReadFE)
    && (exists w: Val :: p(WriteEF(w)) && Plain(w))
    && ((full && HasText(v)) || exists x: Val :: p(WriteEF(x)) && HasText(x))
  }

  /** For uses that only read and write, the condition needs no search. */
  lemma {:induction false} ReadsAndWritesExactly(fmt: Val -> string, p: Op -> bool, full: bool, v: Val)
    requires OnlyReadsAndWrites(p)
    ensures Safe(fmt, p, full, v) <==> !TakesTexts(p, full, v)
  {
    SafeExactly(fmt, p, full, v);
    if TakesTexts(p, full, v) {
      var x := TakenTextIsAtRisk(fmt, p, full, v);
    }
    if x: Val :| TextAtRisk(fmt, p, full, v, x) {
      RiskTakesText(fmt, p, full, v, x);
    }
  }

  lemma {:induction false} TakenTextIsAtRisk(fmt: Val -> string, p: Op -> bool, full: bool, v: Val) returns (x: Val)
    requires TakesTexts(p, full, v)
    ensures TextAtRisk(fmt, p, full, v, x)
  {
    if full && HasText(v) {
      x := v;
      ComesFirst(fmt, p, full, v, x);
    } else {
      x :| p(WriteEF(x)) && HasText(x);
      if full {
        ComesFirst(fmt, p, full, v, v);
        ComesNext(fmt, p, full, v, v, x);
      } else {
        ComesFirst(fmt, p, full, v, x);
      }
    }
  }

  lemma {:induction false} RiskTakesText(fmt: Val -> string, p: Op -> bool, full: bool, v: Val, x: Val)
    requires OnlyReadsAndWrites(p) && TextAtRisk(fmt, p, full, v, x)
    ensures TakesTexts(p, full, v)
  {
    var c: seq<Val> :| Chain(fmt, p, full, v, c) && c[|c| - 1] == x;
    if |c| > 1 {
      assert Replaces(fmt, p, c[|c| - 2], c[|c| - 2 + 1]);
      assert p(WriteEF(x));
    } else {
      assert First(p, full, v, x);
    }
    if y: Val :| p(ReadFF) && Replaces(fmt, p, x, y) {
      assert p(ReadFE) && p(WriteEF(y)) && Plain(y);
    }
  }
}
