/** What a legal history of an element is, told by counting its events: how often it was written
    and emptied, how many readers have a hold, and what replaced its value last. */
module TagLaws {
  import opened Tags
  import opened TagCell
  import opened TagUse
  import opened TagCopy

  /** How many readers have a hold after the history. */
  function HoldCount(log: seq<(nat, Event)>): int
    decreases |log|
  {
    if log == [] then 0
    else
      var op := log[|log| - 1].1.op;
      HoldCount(log[..|log| - 1]) + (if op.ReadRW? then 1 else 0) - if op.ReleaseRW? then 1 else 0
  }

  /** How often the element was filled more than emptied. */
  function FullCount(full: bool, log: seq<(nat, Event)>): int
    decreases |log|
  {
    if log == [] then (if full then 1 else 0)
    else
      var op := log[|log| - 1].1.op;
      FullCount(full, log[..|log| - 1]) + (if op.WriteEF? then 1 else 0) - if op.ReadFE? then 1 else 0
  }

  /** Writes and fetch and adds replace the value, and a compare and swap that finds what it
      compares with. */
  predicate Replaces(e: Event) {
    e.op.WriteEF? || e.op.Faa? || (e.op.Cas? && e.ret == e.op.cmp)
  }

  /** Entry `m` is the last of the first `k` that replaces the value. */
  ghost predicate LastChange(log: seq<(nat, Event)>, k: nat, m: nat) {
    m < k <= |log| && Replaces(log[m].1) && forall j: nat {:trigger log[j]} :: m < j < k ==> !Replaces(log[j].1)
  }

  /** Nothing has replaced the value. */
  ghost predicate Unchanged(log: seq<(nat, Event)>, k: nat) {
    forall j: nat {:trigger log[j]} :: j < k && j < |log| ==> !Replaces(log[j].1)
  }

  /** Value `c` is what an event that replaces the value stores. */
  predicate Stores(fmt: Val -> string, e: Event, c: Val) {
    match e.op
    case WriteEF(v) => c == v
    case Faa(arg) => c == Add(fmt, e.ret, arg)
    case Cas(_, v) => c == v
    case _ => false
  }

  /** Value `c` is what was stored last before entry `k`, or the first value `v`. */
  ghost predicate IsValue(fmt: Val -> string, full: bool, v: Val, log: seq<(nat, Event)>, k: nat, c: Val) {
    && (forall m: nat {:trigger LastChange(log, k, m)} :: LastChange(log, k, m) ==> Stores(fmt, log[m].1, c))
    && (Unchanged(log, k) ==> full && c == v)
  }

  /** What entry `k` needs, and what it returns. */
  ghost predicate EntryLegal(fmt: Val -> string, full: bool, v: Val, log: seq<(nat, Event)>, k: nat)
    requires k < |log|
  {
    var e, f, h := log[k].1, FullCount(full, log[..k]), HoldCount(log[..k]);
    match e.op
    case ReadFE => f == 1 && h == 0 && IsValue(fmt, full, v, log, k, e.ret)
    case ReadFF => f == 1 && h == 0 && IsValue(fmt, full, v, log, k, e.ret)
    case ReadRW => f == 1 && 0 <= h < 7 && IsValue(fmt, full, v, log, k, e.ret)
    case ReleaseRW => f == 1 && h >= 1 && e.ret == VInt(h - 1)
    case WriteEF(_) => f == 0 && e.ret == VUndefined
    case Faa(arg) => f == 1 && h == 0 && IsValue(fmt, full, v, log, k, e.ret) && !e.ret.VJson? && !arg.VJson?
    case Cas(_, _) => f == 1 && h == 0 && IsValue(fmt, full, v, log, k, e.ret)
  }

  ghost predicate Law(fmt: Val -> string, full: bool, v: Val, log: seq<(nat, Event)>) {
    forall k: nat {:trigger EntryLegal(fmt, full, v, log, k)} :: k < |log| ==> EntryLegal(fmt, full, v, log, k)
  }

  /** The counts and the value agree with the abstract element. */
  ghost predicate Agrees(fmt: Val -> string, full: bool, v: Val, log: seq<(nat, Event)>, a: Abs) {
    match a
    case AEmpty => FullCount(full, log) == 0 && HoldCount(log) == 0
    case AFull(x) => FullCount(full, log) == 1 && HoldCount(log) == 0 && IsValue(fmt, full, v, log, |log|, x)
    case AShared(r, x) => FullCount(full, log) == 1 && HoldCount(log) == r >= 1 && IsValue(fmt, full, v, log, |log|, x)
  }

  // ---- Histories one entry longer -----------------------------------------------------

  lemma {:induction false} ChangeSame(log: seq<(nat, Event)>, log': seq<(nat, Event)>, k: nat)
    requires log <= log' && k <= |log|
    ensures forall m: nat :: LastChange(log', k, m) <==> LastChange(log, k, m)
    ensures Unchanged(log', k) <==> Unchanged(log, k)
  {
    assert forall j: nat :: j < k ==> log'[j] == log[j];
  }

  lemma {:induction false} ValueSame(fmt: Val -> string, full: bool, v: Val, log: seq<(nat, Event)>, log': seq<(nat, Event)>, k: nat, c: Val)
    requires log <= log' && k <= |log|
    ensures IsValue(fmt, full, v, log', k, c) <==> IsValue(fmt, full, v, log, k, c)
  {
    ChangeSame(log, log', k);
    assert forall m: nat :: m < k ==> log'[m] == log[m];
  }

  lemma {:induction false} EntrySame(fmt: Val -> string, full: bool, v: Val, log: seq<(nat, Event)>, log': seq<(nat, Event)>, k: nat)
    requires log <= log' && k < |log|
    ensures EntryLegal(fmt, full, v, log', k) <==> EntryLegal(fmt, full, v, log, k)
  {
    assert log'[k] == log[k] && log'[..k] == log[..k];
    ValueSame(fmt, full, v, log, log', k, log[k].1.ret);
  }

  /** Only one value is the value. */
  lemma {:induction false} OneValue(fmt: Val -> string, full: bool, v: Val, log: seq<(nat, Event)>, c: Val, d: Val)
    requires IsValue(fmt, full, v, log, |log|, c) && IsValue(fmt, full, v, log, |log|, d)
    ensures c == d
  {
    if !Unchanged(log, |log|) {
      var m := FindChange(log, |log|);
      assert Stores(fmt, log[m].1, c) && Stores(fmt, log[m].1, d);
    }
  }

  lemma {:induction false} FindChange(log: seq<(nat, Event)>, k: nat) returns (m: nat)
    requires k <= |log| && !Unchanged(log, k)
    ensures LastChange(log, k, m)
  {
    if Replaces(log[k - 1].1) {
      m := k - 1;
    } else {
      m := FindChange(log, k - 1);
    }
  }

  /** After an entry that replaces the value it is the one stored. */
  lemma {:induction false} ValueChanges(fmt: Val -> string, full: bool, v: Val, log: seq<(nat, Event)>, c: Val)
    requires log != [] && Replaces(log[|log| - 1].1) && Stores(fmt, log[|log| - 1].1, c)
    ensures IsValue(fmt, full, v, log, |log|, c)
  {
    forall m: nat | LastChange(log, |log|, m)
      ensures Stores(fmt, log[m].1, c)
    {
      assert m == |log| - 1;
    }
    assert Replaces(log[|log| - 1].1);
  }

  lemma {:induction false} ValueStays(fmt: Val -> string, full: bool, v: Val, log: seq<(nat, Event)>, c: Val)
    requires log != [] && !Replaces(log[|log| - 1].1) && IsValue(fmt, full, v, log, |log| - 1, c)
    ensures IsValue(fmt, full, v, log, |log|, c)
  {
    forall m: nat | LastChange(log, |log|, m)
      ensures LastChange(log, |log| - 1, m)
    {}
    if Unchanged(log, |log|) {
      assert Unchanged(log, |log| - 1);
    }
  }

  /** One more entry of a legal history. */
  lemma {:induction false} AgreesNext(fmt: Val -> string, full: bool, v: Val, log: seq<(nat, Event)>, a: Abs, b: Abs)
    requires log != [] && Agrees(fmt, full, v, log[..|log| - 1], a) && AbsStep(fmt, a, log[|log| - 1].1) == Some(b)
    ensures Agrees(fmt, full, v, log, b) && EntryLegal(fmt, full, v, log, |log| - 1)
  {
    var front, e := log[..|log| - 1], log[|log| - 1].1;
    if !a.AEmpty? {
      ValueSame(fmt, full, v, front, log, |front|, a.v);
    }
    if Replaces(e) {
      assert b.AFull?;
      ValueChanges(fmt, full, v, log, b.v);
    } else if !b.AEmpty? {
      ValueStays(fmt, full, v, log, b.v);
    }
  }

  /** An entry that the counts allow is legal. */
  lemma {:induction false} AllowedIsLegal(fmt: Val -> string, full: bool, v: Val, log: seq<(nat, Event)>, a: Abs)
    requires log != [] && Agrees(fmt, full, v, log[..|log| - 1], a) && EntryLegal(fmt, full, v, log, |log| - 1)
    ensures AbsStep(fmt, a, log[|log| - 1].1).Some?
  {
    var front, e := log[..|log| - 1], log[|log| - 1].1;
    if !e.op.ReleaseRW? && !e.op.WriteEF? {
      ValueSame(fmt, full, v, front, log, |front|, e.ret);
      OneValue(fmt, full, v, front, a.v, e.ret);
    }
  }

  // ---- The results -----------------------------------------------------------------------

  lemma {:induction false} LegalAgrees(fmt: Val -> string, full: bool, v: Val, log: seq<(nat, Event)>)
    requires Replay(fmt, Init(0, full, v).abs, log).Some?
    ensures Agrees(fmt, full, v, log, Replay(fmt, Init(0, full, v).abs, log).value) && Law(fmt, full, v, log)
    decreases |log|
  {
    if log != [] {
      var front := log[..|log| - 1];
      LegalAgrees(fmt, full, v, front);
      AgreesNext(fmt, full, v, log, Replay(fmt, Init(0, full, v).abs, front).value, Replay(fmt, Init(0, full, v).abs, log).value);
      forall k: nat | k < |log|
        ensures EntryLegal(fmt, full, v, log, k)
      {
        if k < |front| { EntrySame(fmt, full, v, front, log, k); }
      }
    }
  }

  lemma {:induction false} LawIsLegal(fmt: Val -> string, full: bool, v: Val, log: seq<(nat, Event)>)
    requires Law(fmt, full, v, log)
    ensures Replay(fmt, Init(0, full, v).abs, log).Some?
    decreases |log|
  {
    if log != [] {
      var front := log[..|log| - 1];
      forall k: nat | k < |front|
        ensures EntryLegal(fmt, full, v, front, k)
      {
        assert EntryLegal(fmt, full, v, log, k);
        EntrySame(fmt, full, v, front, log, k);
      }
      LawIsLegal(fmt, full, v, front);
      LegalAgrees(fmt, full, v, front);
      assert EntryLegal(fmt, full, v, log, |log| - 1);
      AllowedIsLegal(fmt, full, v, log, Replay(fmt, Init(0, full, v).abs, front).value);
    }
  }

  /** A sequence of events is a legal history of the element exactly if each event is one that
      the counts allow, and returns what they, or the value stored last, say. */
  lemma {:induction false} LegalExactly(fmt: Val -> string, full: bool, v: Val, log: seq<(nat, Event)>)
    ensures Replay(fmt, Init(0, full, v).abs, log).Some? <==> Law(fmt, full, v, log)
  {
    if Replay(fmt, Init(0, full, v).abs, log).Some? {
      LegalAgrees(fmt, full, v, log);
    }
    if Law(fmt, full, v, log) {
      LawIsLegal(fmt, full, v, log);
    }
  }

  /** In every run the completed primitives are allowed, and read, what the ones before them say. */
  lemma {:induction false} RunsAreLawful(fmt: Val -> string, n: nat, full: bool, v: Val, sched: seq<(nat, Choice)>)
    requires Plain(v) && Schedule(n, sched)
    ensures Law(fmt, full, v, Exec(fmt, Init(n, full, v), sched).log)
  {
    Linearizable(fmt, n, full, v, sched);
    assert Init(n, full, v).abs == Init(0, full, v).abs;
    LegalAgrees(fmt, full, v, Exec(fmt, Init(n, full, v), sched).log);
  }

  /** A releaseRW returns the number of readers that still have a hold. */
  lemma {:induction false} ReleaseReturns(fmt: Val -> string, n: nat, full: bool, v: Val, sched: seq<(nat, Choice)>, k: nat)
    requires Plain(v) && Schedule(n, sched)
    requires k < |Exec(fmt, Init(n, full, v), sched).log| && Exec(fmt, Init(n, full, v), sched).log[k].1.op.ReleaseRW?
    ensures var log := Exec(fmt, Init(n, full, v), sched).log; log[k].1.ret == VInt(HoldCount(log[..k + 1]))
  {
    RunsAreLawful(fmt, n, full, v, sched);
    var log := Exec(fmt, Init(n, full, v), sched).log;
    assert EntryLegal(fmt, full, v, log, k);
    assert log[..k + 1][..k] == log[..k];
  }

  /** A step that releases a hold logs the reader count that is in the tag after it, and that is
      the number of holds that are out. */
  lemma {:induction false} ReleaseStep(fmt: Val -> string, s: State, t: nat, c: Choice)
    requires Inv(fmt, s) && t < |s.ts| && s.ts[t].pc.ReleaseSwap? && s.tag == s.ts[t].pc.mem
    ensures var s' := Step(fmt, s, t, c);
      && s'.log == s.log + [(t, Event(ReleaseRW, VInt(s'.tag.rw)))]
      && s'.tag.rw == Holds(s'.ts) && s'.ts[t].holds == s.ts[t].holds - 1
  {
    assert LocalOk(s.ts[t]) && s.owner == -1;
    StepKeeps(fmt, s, t, c);
    CountsTellNow(fmt, Step(fmt, s, t, c));
    ReleaseStays(fmt, s, t, c);
  }

  lemma {:induction false} ReleaseStays(fmt: Val -> string, s: State, t: nat, c: Choice)
    requires Inv(fmt, s) && t < |s.ts| && s.ts[t].pc.ReleaseSwap? && s.tag == s.ts[t].pc.mem && s.owner == -1
    ensures forall i :: 0 <= i < |s.ts| ==> !Owns(Step(fmt, s, t, c).ts[i].pc)
  {}
}
