/** Dynamic and guided parallel loops: every thread initializes the shared loop context,
    passes a barrier, and claims chunks of iterations until none are left.  Every load,
    store and fetch and add of the context is one step; the chunk size is read and written
    without any protection.

    The barriers before and after the loop are taken to be what module Collectives proves
    them to be: a thread leaves one only when all have arrived.  The fields `owner`,
    `ran`, `over` and `begun` record what happened and do not influence any step. */
module Loops {
  import opened ThreadSets

  datatype Loop = Loop(start: int, end: int, guided: bool, minChunk: int)

  datatype Pc =
    // EMSloopInit.
    | InitIdx
    | InitEnd
    | InitChunk
    | InitCheck
    | InitClip
    | InitMin
    | InitSched
    | Wait
    // EMSloopChunk and the iterations it hands out.
    | ChunkLoad
    | ChunkAdd(size: int)
    | Resize(s: int, e: int)
    | Iterate(cur: int, e: int, more: bool)
    | Finished
    | Past

  datatype State = State(
    idx: int, end: int, chunk: int, minChunk: int, guided: bool, ts: seq<Pc>,
    owner: map<int, nat>, ran: multiset<int>, over: set<nat>, begun: bool)

  /** Division of C. */
  function Div(a: int, b: int): int
    requires b > 0
  {
    if a >= 0 then a / b else -(-a / b)
  }

  function Max(a: int, b: int): int {
    if a >= b then a else b
  }

  /** The chunk size a thread computes from where iterations are left, for `n` threads. */
  function Share(end: int, from: int, n: nat): int
    requires n > 0
  {
    Div(Div(end - from, 2), n)
  }

  function SetPc(s: State, t: nat, pc: Pc): State
    requires t < |s.ts|
  {
    s.(ts := s.ts[t := pc])
  }

  /** EMSloopInit. */
  function StepInit(l: Loop, s: State, t: nat): (r: State)
    requires t < |s.ts|
    ensures |r.ts| == |s.ts|
  {
    match s.ts[t]
    case InitIdx => SetPc(s.(idx := l.start), t, InitEnd)
    case InitEnd => SetPc(s.(end := l.end), t, InitChunk)
    case InitChunk =>
      if l.guided then SetPc(s.(chunk := Share(l.end, l.start, |s.ts|)), t, InitCheck)
      else SetPc(s.(chunk := 1), t, InitMin)
    case InitCheck => SetPc(s, t, if s.chunk < l.minChunk then InitClip else InitMin)
    case InitClip => SetPc(s.(chunk := l.minChunk), t, InitMin)
    case InitMin => SetPc(s.(minChunk := if l.guided then l.minChunk else 1), t, InitSched)
    case InitSched => SetPc(s.(guided := l.guided), t, Wait)
    case _ => s
  }

  predicate InInit(pc: Pc) {
    pc.InitIdx? || pc.InitEnd? || pc.InitChunk? || pc.InitCheck? || pc.InitClip? || pc.InitMin? || pc.InitSched?
  }

  /** Where a chunk ends: past the last iteration it is empty. */
  function ChunkEnd(start: int, size: int, end: int): int {
    var e := if start > end then 0 else start + size;
    if e > end then end else e
  }

  /** The record of who claimed which iteration, after thread `t` claims `lo` to `hi`. */
  function Claim(owner: map<int, nat>, lo: int, hi: int, t: nat): (r: map<int, nat>)
    ensures forall i: int :: i in r <==> i in owner || lo <= i < hi
    ensures forall i: int :: i in r ==> r[i] == if lo <= i < hi then t else owner[i]
    decreases hi - lo
  {
    if hi <= lo then owner else Claim(owner, lo, hi - 1, t)[hi - 1 := t]
  }

  /** The barrier before the loop, EMSloopChunk, the iterations, and the barrier after.  A
      barrier is one step, which a thread can take exactly when every thread has arrived;
      Collectives.LeavesExactly is why. */
  function StepLoop(s: State, t: nat): (r: State)
    requires t < |s.ts|
    ensures |r.ts| == |s.ts|
  {
    match s.ts[t]
    case Wait =>
      if forall u :: 0 <= u < |s.ts| ==> !InInit(s.ts[u]) then SetPc(s.(begun := true), t, ChunkLoad) else s
    case ChunkLoad => SetPc(s, t, ChunkAdd(s.chunk))
    case ChunkAdd(size) =>
      var e := ChunkEnd(s.idx, size, s.end);
      SetPc(s.(idx := s.idx + size,
               owner := Claim(s.owner, s.idx, e, t),
               over := if s.idx >= s.end then s.over + {t} else s.over), t,
            if s.guided then Resize(s.idx, e) else Iterate(s.idx, e, e - s.idx > 0))
    case Resize(start, e) =>
      SetPc(s.(chunk := Max(Share(s.end, start, |s.ts|), s.minChunk)), t, Iterate(start, e, e - start > 0))
    case Iterate(cur, e, more) =>
      if cur < e then SetPc(s.(ran := s.ran + multiset{cur}), t, Iterate(cur + 1, e, more))
      else SetPc(s, t, if more then ChunkLoad else Finished)
    case Finished =>
      if forall u :: 0 <= u < |s.ts| ==> s.ts[u].Finished? || s.ts[u].Past? then SetPc(s, t, Past) else s
    case _ => s
  }

  function Step(l: Loop, s: State, t: nat): (r: State)
    requires t < |s.ts|
    ensures |r.ts| == |s.ts|
  {
    if InInit(s.ts[t]) then StepInit(l, s, t) else StepLoop(s, t)
  }

  function Exec(l: Loop, s: State, sched: seq<nat>): (r: State)
    requires Schedule(|s.ts|, sched)
    ensures |r.ts| == |s.ts|
    decreases |sched|
  {
    if sched == [] then s
    else Step(l, Exec(l, s, sched[..|sched| - 1]), sched[|sched| - 1])
  }

  /** `n` threads about to run the loop; the shared context is left over from earlier loops. */
  predicate Initial(s: State, n: nat) {
    && |s.ts| == n && (forall t :: 0 <= t < n ==> s.ts[t].InitIdx?)
    && s.owner == map[] && s.ran == multiset{} && s.over == {} && !s.begun
  }

  // ---- The invariant ------------------------------------------------------------------

  /** The chunk size all threads agree on before the loop starts, which is the largest. */
  function FirstChunk(l: Loop, n: nat): int
    requires n > 0
  {
    if l.guided then Max(Share(l.end, l.start, n), l.minChunk) else 1
  }

  /** How many of the stores of EMSloopInit a thread has behind it. */
  function Stage(pc: Pc): nat {
    match pc
    case InitIdx => 0
    case InitEnd => 1
    case InitChunk => 2
    case InitCheck => 3
    case InitClip => 3
    case InitMin => 3
    case InitSched => 4
    case _ => 5
  }

  /** Between storing the chunk size and having checked it. */
  predicate Checking(pc: Pc) {
    pc.InitCheck? || pc.InitClip?
  }

  /** The chunk size is right, or the thread that stored a small one has yet to check it. */
  ghost predicate ChunkInit(l: Loop, s: State)
    requires |s.ts| > 0
  {
    || s.chunk == FirstChunk(l, |s.ts|)
    || (l.guided && s.chunk == Share(l.end, l.start, |s.ts|) && exists u: nat :: u < |s.ts| && Checking(s.ts[u]))
  }

  /** Before the loop, each field is right once some thread has stored it. */
  ghost predicate InitOk(l: Loop, s: State, pc: Pc)
    requires |s.ts| > 0
  {
    && (InInit(pc) || pc.Wait?)
    && (Stage(pc) >= 1 ==> s.idx == l.start)
    && (Stage(pc) >= 2 ==> s.end == l.end)
    && (Stage(pc) >= 3 ==> ChunkInit(l, s))
    && (Stage(pc) >= 4 ==> s.minChunk == if l.guided then l.minChunk else 1)
    && (Stage(pc) >= 5 ==> s.guided == l.guided)
    && (Checking(pc) ==> l.guided)
    && (pc.InitClip? ==> Share(l.end, l.start, |s.ts|) < l.minChunk)
  }

  /** Iteration `i` is one that the thread has claimed and not run yet. */
  predicate Pending(pc: Pc, i: int) {
    match pc
    case Resize(s, e) => s <= i < e
    case Iterate(cur, e, _) => cur <= i < e
    case _ => false
  }

  /** The thread has found that no iterations are left. */
  predicate SawEnd(pc: Pc) {
    match pc
    case Resize(s, e) => e <= s
    case Iterate(cur, e, more) => !more
    case Finished => true
    case Past => true
    case _ => false
  }

  predicate LoopOk(l: Loop, n: nat, over: set<nat>, pc: Pc, t: nat)
    requires n > 0
  {
    && !InInit(pc)
    && (t in over <==> SawEnd(pc))
    && match pc
       case ChunkAdd(size) => 1 <= size <= FirstChunk(l, n)
       case Resize(s, e) => l.start <= s && l.guided
       case Iterate(cur, e, more) => if more then cur <= e else e <= cur
       case _ => true
  }

  /** What a claimed iteration has to show: it is pending, or has run once. */
  predicate IterOk(l: Loop, s: State, i: int) {
    && (i in s.owner <==> l.start <= i < s.idx && i < l.end)
    && (i in s.owner ==> s.owner[i] < |s.ts|)
    && s.ran[i] == if i in s.owner && s.owner[i] < |s.ts| && !Pending(s.ts[s.owner[i]], i) then 1 else 0
  }

  function Times(k: int, c: int): int {
    if k <= 0 then 0 else Times(k - 1, c) + c
  }

  /** How far the index can be when `k` threads have claimed beyond the end. */
  function Bound(l: Loop, n: nat, k: int): int
    requires n > 0
  {
    Max(l.start, l.end - 1 + FirstChunk(l, n)) + Times(k, FirstChunk(l, n))
  }

  ghost predicate SharedOk(l: Loop, s: State)
    requires |s.ts| > 0
  {
    && s.end == l.end && s.minChunk == (if l.guided then l.minChunk else 1) && s.guided == l.guided
    && 1 <= s.chunk <= FirstChunk(l, |s.ts|)
    && s.over <= All(|s.ts|)
    && l.start <= s.idx <= Bound(l, |s.ts|, |s.over|)
    && (s.over != {} ==> s.idx >= l.end)
  }

  ghost predicate LoopInv(l: Loop, s: State)
    requires |s.ts| > 0
  {
    && SharedOk(l, s)
    && (forall t: nat {:trigger s.ts[t]} :: t < |s.ts| ==> LoopOk(l, |s.ts|, s.over, s.ts[t], t))
    && (forall i: int {:trigger s.ran[i]} {:trigger i in s.owner} :: IterOk(l, s, i))
    && (forall t: nat, i: int {:trigger Pending(s.ts[t], i)} :: t < |s.ts| && Pending(s.ts[t], i) ==> i in s.owner && s.owner[i] == t)
    && ((exists t: nat :: t < |s.ts| && s.ts[t].Past?) ==> forall u: nat {:trigger s.ts[u]} :: u < |s.ts| ==> s.ts[u].Finished? || s.ts[u].Past?)
  }

  ghost predicate Inv(l: Loop, s: State) {
    && |s.ts| > 0
    && if s.begun then LoopInv(l, s)
       else
         && s.owner == map[] && s.ran == multiset{} && s.over == {}
         && forall t: nat {:trigger s.ts[t]} :: t < |s.ts| ==> InitOk(l, s, s.ts[t])
  }

  // ---- Chunk sizes ------------------------------------------------------------------------

  lemma {:induction false} ProductGrows(b: int, x: int, y: int)
    requires b > 0
    ensures x >= y ==> b * x >= b * y
  {}

  lemma {:induction false} QuotientGrows(a: int, a': int, b: int)
    requires 0 <= a <= a' && b > 0
    ensures 0 <= a / b <= a' / b
  {
    var q, q' := a / b, a' / b;
    ProductGrows(b, q, q' + 1);
    assert b * (q' + 1) == b * q' + b;
  }

  lemma {:induction false} DivGrows(a: int, a': int, b: int)
    requires a <= a' && b > 0
    ensures Div(a, b) <= Div(a', b)
  {
    if 0 <= a {
      QuotientGrows(a, a', b);
    } else if a' < 0 {
      QuotientGrows(-a', -a, b);
    } else {
      QuotientGrows(0, a', b);
      QuotientGrows(0, -a, b);
    }
  }

  /** The further the loop, the smaller the chunks. */
  lemma {:induction false} ShareShrinks(l: Loop, from: int, n: nat)
    requires n > 0 && l.guided && l.start <= from
    ensures l.minChunk <= Max(Share(l.end, from, n), l.minChunk) <= FirstChunk(l, n)
  {
    DivGrows(l.end - from, l.end - l.start, 2);
    DivGrows(Div(l.end - from, 2), Div(l.end - l.start, 2), n);
  }

  // ---- Every step keeps the invariant ---------------------------------------------------------

  /** The smallest chunk of a guided loop has at least one iteration; dynamic loops do not
      look at it. */
  predicate Legal(l: Loop) {
    l.guided ==> l.minChunk >= 1
  }

  lemma {:induction false} InitStepKeeps(l: Loop, s: State, t: nat)
    requires Inv(l, s) && !s.begun && t < |s.ts| && InInit(s.ts[t])
    ensures Inv(l, StepInit(l, s, t))
  {
    var s' := StepInit(l, s, t);
    assert InitOk(l, s, s.ts[t]);
    if l.guided && Checking(s'.ts[t]) { assert Checking(s'.ts[t]); }
    forall u: nat | u < |s.ts|
      ensures InitOk(l, s', s'.ts[u])
    {
      assert InitOk(l, s, s.ts[u]);
      if Stage(s'.ts[u]) >= 3 { ChunkInitKeeps(l, s, t, u); }
    }
  }

  lemma {:induction false} ChunkInitKeeps(l: Loop, s: State, t: nat, u: nat)
    requires Inv(l, s) && !s.begun && t < |s.ts| && u < |s.ts| && InInit(s.ts[t])
    requires Stage(StepInit(l, s, t).ts[u]) >= 3
    ensures ChunkInit(l, StepInit(l, s, t))
  {
    var s' := StepInit(l, s, t);
    assert InitOk(l, s, s.ts[t]) && InitOk(l, s, s.ts[u]);
    if s.ts[t].InitChunk? {
      assert l.guided ==> Checking(s'.ts[t]);
    } else if s.ts[t].InitCheck? && s.chunk < l.minChunk {
      assert Checking(s'.ts[t]);
    } else if !Checking(s.ts[t]) && s.chunk != FirstChunk(l, |s.ts|) {
      var v: nat :| v < |s.ts| && Checking(s.ts[v]);
      assert Checking(s'.ts[v]);
    }
  }

  lemma {:induction false} AllWait(l: Loop, s: State)
    requires Inv(l, s) && !s.begun && forall u :: 0 <= u < |s.ts| ==> !InInit(s.ts[u])
    ensures forall u: nat {:trigger s.ts[u]} :: u < |s.ts| ==> s.ts[u].Wait?
    ensures s.idx == l.start && s.end == l.end && s.guided == l.guided && s.chunk == FirstChunk(l, |s.ts|)
    ensures s.minChunk == if l.guided then l.minChunk else 1
  {
    forall u: nat | u < |s.ts|
      ensures s.ts[u].Wait?
    {
      assert InitOk(l, s, s.ts[u]);
    }
    assert InitOk(l, s, s.ts[0]);
  }

  lemma {:induction false} OpenKeeps(l: Loop, s: State, t: nat)
    requires Legal(l) && Inv(l, s) && !s.begun && t < |s.ts| && !InInit(s.ts[t])
    ensures Inv(l, StepLoop(s, t))
  {
    var s' := StepLoop(s, t);
    assert InitOk(l, s, s.ts[t]);
    if forall u :: 0 <= u < |s.ts| ==> !InInit(s.ts[u]) {
      AllWait(l, s);
      assert SharedOk(l, s');
      forall i: int
        ensures IterOk(l, s', i)
      {}
    }
  }

  /** A step of thread `t` that claims and runs nothing. */
  lemma {:induction false} LocalMove(l: Loop, s: State, t: nat, s': State)
    requires Inv(l, s) && s.begun && t < |s.ts| && |s'.ts| == |s.ts| && s'.ts == s.ts[t := s'.ts[t]]
    requires s'.owner == s.owner && s'.ran == s.ran && s'.over == s.over && s'.begun && s'.idx == s.idx
    requires SharedOk(l, s') && LoopOk(l, |s.ts|, s.over, s'.ts[t], t)
    requires forall i: int :: Pending(s'.ts[t], i) <==> Pending(s.ts[t], i)
    requires s'.ts[t].Past? ==> forall u: nat {:trigger s.ts[u]} :: u < |s.ts| ==> s.ts[u].Finished? || s.ts[u].Past?
    requires s.ts[t].Finished? || s.ts[t].Past? ==> s'.ts[t].Finished? || s'.ts[t].Past?
    ensures Inv(l, s')
  {
    forall i: int
      ensures IterOk(l, s', i)
    {
      assert IterOk(l, s, i);
    }
    forall u: nat | u < |s.ts|
      ensures LoopOk(l, |s.ts|, s'.over, s'.ts[u], u)
    {
      assert LoopOk(l, |s.ts|, s.over, s.ts[u], u);
    }
    forall u: nat, i: int | u < |s.ts| && Pending(s'.ts[u], i)
      ensures i in s'.owner && s'.owner[i] == u
    {
      assert Pending(s.ts[u], i);
    }
  }

  lemma {:induction false} LocalKeeps(l: Loop, s: State, t: nat)
    requires Legal(l) && Inv(l, s) && s.begun && t < |s.ts|
    requires s.ts[t].Wait? || s.ts[t].ChunkLoad? || s.ts[t].Finished? || s.ts[t].Past?
    ensures Inv(l, StepLoop(s, t))
  {
    assert LoopOk(l, |s.ts|, s.over, s.ts[t], t);
    LocalMove(l, s, t, StepLoop(s, t));
  }

  lemma {:induction false} ResizeKeeps(l: Loop, s: State, t: nat)
    requires Legal(l) && Inv(l, s) && s.begun && t < |s.ts| && s.ts[t].Resize?
    ensures Inv(l, StepLoop(s, t))
  {
    assert LoopOk(l, |s.ts|, s.over, s.ts[t], t);
    ShareShrinks(l, s.ts[t].s, |s.ts|);
    LocalMove(l, s, t, StepLoop(s, t));
  }

  lemma {:induction false} NextChunkKeeps(l: Loop, s: State, t: nat)
    requires Legal(l) && Inv(l, s) && s.begun && t < |s.ts| && s.ts[t].Iterate? && s.ts[t].cur >= s.ts[t].e
    ensures Inv(l, StepLoop(s, t))
  {
    assert LoopOk(l, |s.ts|, s.over, s.ts[t], t);
    LocalMove(l, s, t, StepLoop(s, t));
  }

  lemma {:induction false} IterateIter(l: Loop, s: State, t: nat, i: int)
    requires Inv(l, s) && s.begun && t < |s.ts| && s.ts[t].Iterate? && s.ts[t].cur < s.ts[t].e
    ensures IterOk(l, StepLoop(s, t), i)
  {
    var s', pc := StepLoop(s, t), s.ts[t];
    assert Pending(s.ts[t], pc.cur);
    assert IterOk(l, s, i);
    if i in s.owner && s.owner[i] != t {
      assert s'.ts[s.owner[i]] == s.ts[s.owner[i]];
    }
  }

  /** Running iteration `cur`: it was pending here and nowhere else. */
  lemma {:induction false} IterateKeeps(l: Loop, s: State, t: nat)
    requires Inv(l, s) && s.begun && t < |s.ts| && s.ts[t].Iterate? && s.ts[t].cur < s.ts[t].e
    ensures Inv(l, StepLoop(s, t))
  {
    var s' := StepLoop(s, t);
    forall i: int
      ensures IterOk(l, s', i)
    {
      IterateIter(l, s, t, i);
    }
    forall u: nat, i: int | u < |s.ts| && Pending(s'.ts[u], i)
      ensures i in s'.owner && s'.owner[i] == u
    {
      assert Pending(s.ts[u], i);
    }
    forall u: nat | u < |s.ts|
      ensures LoopOk(l, |s.ts|, s'.over, s'.ts[u], u)
    {
      assert LoopOk(l, |s.ts|, s.over, s.ts[u], u);
    }
  }

  /** What a claim hands out: the iterations from the index on that are left. */
  lemma {:induction false} ClaimedRange(idx: int, size: int, end: int, i: int)
    requires size >= 1
    ensures idx <= i < ChunkEnd(idx, size, end) <==> idx <= i < idx + size && i < end
    ensures ChunkEnd(idx, size, end) > idx <==> idx < end
  {}

  lemma {:induction false} TimesGrows(k: nat, c: int)
    requires c >= 0
    ensures Times(k, c) >= 0 && Times(k + 1, c) == Times(k, c) + c
  {
    if k > 0 {
      TimesGrows(k - 1, c);
    }
  }

  lemma {:induction false} ClaimShared(l: Loop, s: State, t: nat)
    requires Legal(l) && Inv(l, s) && s.begun && t < |s.ts| && s.ts[t].ChunkAdd?
    ensures SharedOk(l, StepLoop(s, t))
  {
    var s', c, k := StepLoop(s, t), FirstChunk(l, |s.ts|), |s.over|;
    assert LoopOk(l, |s.ts|, s.over, s.ts[t], t);
    TimesGrows(k, c);
    if s.idx >= l.end {
      assert t in All(|s.ts|) && t !in s.over;
      assert |s'.over| == k + 1;
    }
  }

  lemma {:induction false} ClaimIter(l: Loop, s: State, t: nat, i: int)
    requires Legal(l) && Inv(l, s) && s.begun && t < |s.ts| && s.ts[t].ChunkAdd?
    ensures IterOk(l, StepLoop(s, t), i)
  {
    var s', size := StepLoop(s, t), s.ts[t].size;
    assert LoopOk(l, |s.ts|, s.over, s.ts[t], t) && IterOk(l, s, i);
    ClaimedRange(s.idx, size, s.end, i);
    if i in s.owner && s.owner[i] != t {
      assert s'.ts[s.owner[i]] == s.ts[s.owner[i]];
    }
  }

  lemma {:induction false} ClaimKeeps(l: Loop, s: State, t: nat)
    requires Legal(l) && Inv(l, s) && s.begun && t < |s.ts| && s.ts[t].ChunkAdd?
    ensures Inv(l, StepLoop(s, t))
  {
    var s' := StepLoop(s, t);
    assert LoopOk(l, |s.ts|, s.over, s.ts[t], t);
    ClaimShared(l, s, t);
    ClaimedRange(s.idx, s.ts[t].size, s.end, s.idx);
    forall i: int
      ensures IterOk(l, s', i)
    {
      ClaimIter(l, s, t, i);
    }
    forall u: nat, i: int | u < |s.ts| && Pending(s'.ts[u], i)
      ensures i in s'.owner && s'.owner[i] == u
    {
      if u != t {
        assert Pending(s.ts[u], i);
        assert IterOk(l, s, i);
      }
    }
    forall u: nat | u < |s.ts|
      ensures LoopOk(l, |s.ts|, s'.over, s'.ts[u], u)
    {
      assert LoopOk(l, |s.ts|, s.over, s.ts[u], u);
    }
  }

  lemma {:induction false} StepKeeps(l: Loop, s: State, t: nat)
    requires Legal(l) && Inv(l, s) && t < |s.ts|
    ensures Inv(l, Step(l, s, t))
  {
    if !s.begun {
      if InInit(s.ts[t]) { InitStepKeeps(l, s, t); } else { OpenKeeps(l, s, t); }
    } else {
      assert LoopOk(l, |s.ts|, s.over, s.ts[t], t);
      if s.ts[t].ChunkAdd? {
        ClaimKeeps(l, s, t);
      } else if s.ts[t].Iterate? {
        if s.ts[t].cur < s.ts[t].e { IterateKeeps(l, s, t); } else { NextChunkKeeps(l, s, t); }
      } else if s.ts[t].Resize? {
        ResizeKeeps(l, s, t);
      } else {
        LocalKeeps(l, s, t);
      }
    }
  }

  lemma {:induction false} Always(l: Loop, s: State, n: nat, sched: seq<nat>)
    requires Legal(l) && n >= 1 && Initial(s, n) && Schedule(n, sched)
    ensures Inv(l, Exec(l, s, sched)) && |Exec(l, s, sched).ts| == n
    decreases |sched|
  {
    if sched != [] {
      Always(l, s, n, sched[..|sched| - 1]);
      StepKeeps(l, Exec(l, s, sched[..|sched| - 1]), sched[|sched| - 1]);
    }
  }

  // ---- What the invariant means for callers -----------------------------------------------------

  lemma {:induction false} TimesIsProduct(k: nat, c: int)
    ensures Times(k, c) == k * c
  {
    if k > 0 {
      TimesIsProduct(k - 1, c);
      assert k * c == (k - 1) * c + c;
    }
  }

  lemma {:induction false} TimesMonotone(k: nat, m: nat, c: int)
    requires k <= m && c >= 0
    ensures Times(k, c) <= Times(m, c)
  {
    if k < m {
      TimesMonotone(k, m - 1, c);
      TimesGrows(m - 1, c);
    }
  }

  /** Iteration `i` has run at most once, and not at all outside the loop; and when any thread
      is past the loop it has run if it is one of the loop's. */
  ghost predicate RunOnce(l: Loop, s: State, i: int) {
    && s.ran[i] <= (if l.start <= i < l.end then 1 else 0)
    && ((exists t :: 0 <= t < |s.ts| && s.ts[t].Past?) ==> s.ran[i] == if l.start <= i < l.end then 1 else 0)
  }

  /** Exactly once, in every reachable state. */
  lemma {:induction false} ExactlyOnce(l: Loop, s0: State, n: nat, sched: seq<nat>, i: int)
    requires Legal(l) && n >= 1 && Initial(s0, n) && Schedule(n, sched)
    ensures RunOnce(l, Exec(l, s0, sched), i)
  {
    Always(l, s0, n, sched);
    RanOnce(l, Exec(l, s0, sched), i);
  }

  lemma {:induction false} RanOnce(l: Loop, s: State, i: int)
    requires Inv(l, s)
    ensures RunOnce(l, s, i)
  {
    if s.begun {
      assert IterOk(l, s, i);
      if t: nat :| t < |s.ts| && s.ts[t].Past? {
        assert LoopOk(l, |s.ts|, s.over, s.ts[t], t);
        assert t in s.over;
      }
    } else {
      NobodyPast(l, s);
    }
  }

  lemma {:induction false} NobodyPast(l: Loop, s: State)
    requires Inv(l, s) && !s.begun
    ensures forall t :: 0 <= t < |s.ts| ==> !s.ts[t].Past?
  {
    forall t | 0 <= t < |s.ts|
      ensures !s.ts[t].Past?
    {
      assert InitOk(l, s, s.ts[t]);
    }
  }

  /** The shared index never gets further than one chunk a thread past the loop. */
  lemma {:induction false} IndexBounded(l: Loop, s0: State, n: nat, sched: seq<nat>)
    requires Legal(l) && n >= 1 && Initial(s0, n) && Schedule(n, sched)
    ensures var s, c := Exec(l, s0, sched), FirstChunk(l, n);
      s.begun ==>
        && 1 <= s.chunk <= c
        && l.start <= s.idx <= Max(l.start, l.end - 1 + c) + n * c
        && (l.start < l.end ==> s.idx <= l.end - 1 + (n + 1) * c)
  {
    var s, c := Exec(l, s0, sched), FirstChunk(l, n);
    Always(l, s0, n, sched);
    if s.begun {
      SizeOf(s.over, n);
      TimesMonotone(|s.over|, n, c);
      TimesIsProduct(n, c);
      TimesIsProduct(n + 1, c);
    }
  }

  /** Can thread `t` do something, or does it wait at one of the barriers? */
  predicate CanMove(s: State, t: nat) {
    && t < |s.ts| && !s.ts[t].Past?
    && (s.ts[t].Wait? ==> forall u :: 0 <= u < |s.ts| ==> !InInit(s.ts[u]))
    && (s.ts[t].Finished? ==> forall u :: 0 <= u < |s.ts| ==> s.ts[u].Finished? || s.ts[u].Past?)
  }

  lemma {:induction false} SomeoneMoves(s: State, t: nat)
    requires t < |s.ts| && !s.ts[t].Past?
    ensures exists u: nat :: CanMove(s, u)
  {
    if u: nat :| u < |s.ts| && InInit(s.ts[u]) {
      assert CanMove(s, u);
    } else if u: nat :| u < |s.ts| && !s.ts[u].Finished? && !s.ts[u].Past? {
      assert CanMove(s, u);
    } else {
      assert CanMove(s, t);
    }
  }

  /** What a thread has left to do. */
  function Left(pc: Pc): nat {
    match pc
    case InitIdx => 19
    case InitEnd => 18
    case InitChunk => 17
    case InitCheck => 16
    case InitClip => 15
    case InitMin => 14
    case InitSched => 13
    case Wait => 12
    case ChunkLoad => 6
    case ChunkAdd(_) => 5
    case Resize(s, e) => if e > s then 2 * (e - s) + 8 else 4
    case Iterate(cur, e, more) => if more then (if e > cur then 2 * (e - cur) else 0) + 7 else 2
    case Finished => 1
    case Past => 0
  }

  function AllLeft(ts: seq<Pc>): nat {
    if ts == [] then 0 else Left(ts[0]) + AllLeft(ts[1..])
  }

  lemma {:induction false} LeftChanges(ts: seq<Pc>, t: nat, pc: Pc)
    requires t < |ts|
    ensures AllLeft(ts[t := pc]) == AllLeft(ts) - Left(ts[t]) + Left(pc)
    decreases |ts|
  {
    if t == 0 {
      assert ts[t := pc][1..] == ts[1..];
    } else {
      LeftChanges(ts[1..], t - 1, pc);
      assert ts[t := pc][1..] == ts[1..][t - 1 := pc];
    }
  }

  /** The iterations nobody has claimed. */
  function Unclaimed(l: Loop, s: State): nat {
    if s.begun then Max(l.end - s.idx, 0) else Max(l.end - l.start, 0)
  }

  /** Everything left: what the threads have left, and the iterations nobody has claimed. */
  function Work(l: Loop, s: State): nat {
    AllLeft(s.ts) + 8 * Unclaimed(l, s)
  }

  lemma {:induction false} BeforeUses(l: Loop, s: State, t: nat)
    requires Legal(l) && Inv(l, s) && CanMove(s, t) && !s.begun
    ensures Left(Step(l, s, t).ts[t]) < Left(s.ts[t])
    ensures Unclaimed(l, Step(l, s, t)) == Unclaimed(l, s)
  {
    assert InitOk(l, s, s.ts[t]);
    if !InInit(s.ts[t]) { AllWait(l, s); }
  }

  lemma {:induction false} ClaimUses(l: Loop, s: State, t: nat)
    requires t < |s.ts| && s.begun && s.end == l.end && s.ts[t].ChunkAdd? && s.ts[t].size >= 1
    ensures Left(StepLoop(s, t).ts[t]) + 8 * Unclaimed(l, StepLoop(s, t)) < Left(s.ts[t]) + 8 * Unclaimed(l, s)
  {
    var n := Max(ChunkEnd(s.idx, s.ts[t].size, s.end) - s.idx, 0);
    assert Unclaimed(l, StepLoop(s, t)) == Unclaimed(l, s) - n;
  }

  lemma {:induction false} OtherUses(l: Loop, s: State, t: nat)
    requires CanMove(s, t) && s.begun && !s.ts[t].ChunkAdd? && LoopOk(l, |s.ts|, s.over, s.ts[t], t)
    ensures Left(StepLoop(s, t).ts[t]) < Left(s.ts[t])
    ensures Unclaimed(l, StepLoop(s, t)) == Unclaimed(l, s)
  {}

  lemma {:induction false} LoopUses(l: Loop, s: State, t: nat)
    requires Legal(l) && Inv(l, s) && CanMove(s, t) && s.begun
    ensures Left(Step(l, s, t).ts[t]) + 8 * Unclaimed(l, Step(l, s, t)) < Left(s.ts[t]) + 8 * Unclaimed(l, s)
  {
    assert LoopOk(l, |s.ts|, s.over, s.ts[t], t);
    if s.ts[t].ChunkAdd? {
      ClaimUses(l, s, t);
    } else {
      OtherUses(l, s, t);
    }
  }

  lemma {:induction false} OneMoves(l: Loop, s: State, t: nat)
    requires t < |s.ts|
    ensures Step(l, s, t).ts == s.ts[t := Step(l, s, t).ts[t]]
  {}

  lemma {:induction false} MoveWorks(l: Loop, s: State, t: nat)
    requires Legal(l) && Inv(l, s) && CanMove(s, t)
    ensures Work(l, Step(l, s, t)) < Work(l, s)
  {
    if s.begun {
      LoopUses(l, s, t);
    } else {
      BeforeUses(l, s, t);
    }
    OneMoves(l, s, t);
    LeftChanges(s.ts, t, Step(l, s, t).ts[t]);
  }

  /** Every thread terminates: in every reachable state with a thread that is not past the
      loop some thread can move, and every move uses up some of a finite amount of work. */
  lemma {:induction false} Terminates(l: Loop, s0: State, n: nat, sched: seq<nat>)
    requires Legal(l) && n >= 1 && Initial(s0, n) && Schedule(n, sched)
    ensures var s := Exec(l, s0, sched);
      && ((exists t :: 0 <= t < |s.ts| && !s.ts[t].Past?) ==> exists u: nat :: CanMove(s, u))
      && forall u: nat :: CanMove(s, u) ==> Work(l, Step(l, s, u)) < Work(l, s)
  {
    var s := Exec(l, s0, sched);
    Always(l, s0, n, sched);
    if t: nat :| t < |s.ts| && !s.ts[t].Past? {
      SomeoneMoves(s, t);
    }
    forall u: nat | CanMove(s, u)
      ensures Work(l, Step(l, s, u)) < Work(l, s)
    {
      MoveWorks(l, s, u);
    }
  }
}
