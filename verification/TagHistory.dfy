/** What the sequential histories of fetch and add mean for callers: every row leaves the sum
    of its operands, and no increment is lost. */
module TagHistory {
  import opened Tags
  import opened TagCell
  import opened TagUse
  import opened TagCopy

  // ---- Fetch and add ---------------------------------------------------------

  predicate IntFaa(op: Op) {
    op.Faa? && op.arg.VInt?
  }

  function Increment(op: Op): int {
    if IntFaa(op) then op.arg.i else 0
  }

  /** The sum of the first `k` increments of a history. */
  function Sum(log: seq<(nat, Event)>, k: nat): int
    requires k <= |log|
  {
    if k <= 0 then 0 else Sum(log, k - 1) + Increment(log[k - 1].1.op)
  }

  lemma {:induction false} SumPrefix(log: seq<(nat, Event)>, m: nat, k: nat)
    requires k <= m <= |log|
    ensures Sum(log[..m], k) == Sum(log, k)
  {
    if k > 0 {
      SumPrefix(log, m, k - 1);
    }
  }

  predicate IsNumber(v: Val, x: int) {
    (v.VInt? || v.VFloat?) && Num(v) == x as real
  }

  /** The operation at place `k` returned the sum at its place. */
  predicate ReturnsSum(a: int, log: seq<(nat, Event)>, k: nat)
    requires k < |log|
  {
    IsNumber(log[k].1.ret, a + Sum(log, k))
  }

  predicate SumIsInt(a: int, log: seq<(nat, Event)>, k: nat)
    requires k <= |log|
  {
    a + Sum(log, k) < 0x4000_0000
  }

  /** No sum on the way through the history from `a` reaches 2^30. */
  ghost predicate SumsStayInt(a: int, log: seq<(nat, Event)>) {
    forall k :: 1 <= k <= |log| ==> SumIsInt(a, log, k)
  }

  /** A history of integer fetch and adds from `a` ends at `a` plus all increments, every
      one of them returned the sum at its place, and the element is still an integer
      exactly if no sum on the way reached 2^30. */
  lemma {:induction false} FaaConserves(fmt: Val -> string, a: int, log: seq<(nat, Event)>)
    requires forall k :: 0 <= k < |log| ==> IntFaa(log[k].1.op)
    requires Replay(fmt, AFull(VInt(a)), log).Some?
    ensures var b := Replay(fmt, AFull(VInt(a)), log).value;
      b.AFull? && IsNumber(b.v, a + Sum(log, |log|)) && (b.v.VInt? <==> SumsStayInt(a, log))
    ensures forall k :: 0 <= k < |log| ==> ReturnsSum(a, log, k)
  {
    if log != [] {
      var m := |log| - 1;
      var front, d := log[..m], log[m].1.op;
      FaaConserves(fmt, a, front);
      SumsExtend(a, log);
      SumPrefix(log, m, m);
      var b := Replay(fmt, AFull(VInt(a)), front).value;
      assert IntFaa(d) && AbsStep(fmt, b, log[m].1).Some?;
      assert log[m].1.ret == b.v;
      AddInt(fmt, b.v, a + Sum(front, m), d.arg.i);
      forall k | 0 <= k < m
        ensures ReturnsSum(a, log, k)
      {
        SumPrefix(log, m, k);
        assert ReturnsSum(a, front, k);
      }
    }
  }

  lemma {:induction false} AddInt(fmt: Val -> string, v: Val, x: int, d: int)
    requires IsNumber(v, x)
    ensures IsNumber(Add(fmt, v, VInt(d)), x + d)
    ensures Add(fmt, v, VInt(d)).VInt? <==> v.VInt? && x + d < 0x4000_0000
  {}

  lemma {:induction false} SumsExtend(a: int, log: seq<(nat, Event)>)
    requires log != []
    ensures SumsStayInt(a, log) <==> SumsStayInt(a, log[..|log| - 1]) && a + Sum(log, |log|) < 0x4000_0000
  {
    var m := |log| - 1;
    forall k | 1 <= k <= m
      ensures SumIsInt(a, log[..m], k) <==> SumIsInt(a, log, k)
    {
      SumPrefix(log, m, k);
    }
    assert SumIsInt(a, log, |log|) <==> a + Sum(log, |log|) < 0x4000_0000;
  }

  /** Fetch and add under any interleaving: every caller is given the sum at the place of its
      operation, and once all threads are idle again the element is full of its initial value
      plus the increments of all completed operations. */
  lemma {:induction false} FaaConservation(fmt: Val -> string, n: nat, a: int, sched: seq<(nat, Choice)>)
    requires Schedule(n, sched) && AllUse(IntFaa, sched)
    ensures var s := Exec(fmt, Init(n, true, VInt(a)), sched);
      && (forall k :: 0 <= k < |s.log| ==> IntFaa(s.log[k].1.op) && ReturnsSum(a, s.log, k))
      && Results(s)
      && ((forall i :: 0 <= i < n ==> s.ts[i].pc.Idle?) ==>
           && s.tag.fe == Full && IsNumber(s.word, a + Sum(s.log, |s.log|))
           && (s.word.VInt? <==> SumsStayInt(a, s.log)))
  {
    var s := Exec(fmt, Init(n, true, VInt(a)), sched);
    Linearizable(fmt, n, true, VInt(a), sched);
    RunOnly(fmt, IntFaa, n, true, VInt(a), sched);
    NoLateReads(fmt, IntFaa, true, VInt(a));
    SafeResults(fmt, IntFaa, n, true, VInt(a), sched);
    FaaConserves(fmt, a, s.log);
    if forall i :: 0 <= i < n ==> s.ts[i].pc.Idle? {
      IdleAtRest(fmt, s);
    }
  }

  lemma {:induction false} IdleAtRest(fmt: Val -> string, s: State)
    requires Inv(fmt, s) && s.abs.AFull? && !s.abs.v.VUndefined? && forall i :: 0 <= i < |s.ts| ==> s.ts[i].pc.Idle?
    ensures s.tag.fe == Full && s.word == s.abs.v
  {
    assert s.owner == -1;
  }

  /** The text of a value when it is added to a string. */
  function AsText(fmt: Val -> string, v: Val): string {
    match v
    case VStr(s) => s
    case VBool(b) => if b then "true" else "false"
    case VUndefined => "undefined"
    case _ => fmt(v)
  }

  predicate IsNumeric(v: Val) {
    v.VInt? || v.VFloat? || v.VBool?
  }

  /** `r` is the sum of `a` and `b` as JavaScript has it: texts are joined as soon as one of
      them is a string, numbers and booleans are added, and anything else is not a number. */
  predicate IsSum(fmt: Val -> string, a: Val, b: Val, r: Val) {
    if a.VStr? || b.VStr? then r == VStr(AsText(fmt, a) + AsText(fmt, b))
    else if IsNumeric(a) && IsNumeric(b) then (r.VInt? || r.VFloat?) && Num(r) == Num(a) + Num(b)
    else r == VNaN
  }

  /** Every row of the fetch and add leaves the sum, except a string added to undefined. */
  lemma {:induction false} FaaLeavesSum(fmt: Val -> string, a: Val, arg: Val)
    requires Plain(a) && Plain(arg) && !a.VJson? && !arg.VJson?
    ensures IsSum(fmt, a, arg, Add(fmt, a, arg)) <==> !(a.VUndefined? && arg.VStr?)
    ensures a.VUndefined? && arg.VStr? ==> Add(fmt, a, arg) == VUndefined
    ensures a.VStr? && arg.VBool? ==> Add(fmt, a, arg) == VStr(a.s + if arg.b then "true" else "false")
    ensures a.VBool? && arg.VStr? ==> Add(fmt, a, arg) == VStr((if a.b then "true" else "false") + arg.s)
    ensures a.VStr? && arg.VUndefined? ==> Add(fmt, a, arg) == VStr(a.s + "undefined")
    ensures IsNumeric(a) && IsNumeric(arg) ==>
      (Add(fmt, a, arg).VFloat? <==> a.VFloat? || arg.VFloat? || (a.VInt? && arg.VInt? && a.i + arg.i >= 0x4000_0000))
  {}
}
