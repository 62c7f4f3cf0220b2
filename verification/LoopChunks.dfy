/** For exactly which loops the chunks of EMSloopChunk cover all iterations: a guided loop whose
    smallest chunk is below one is right only if it has no iterations, or one thread and at
    least two iterations. */
module LoopChunks {
  import opened ThreadSets
  import opened Loops

  /** A guided loop that may hand out empty chunks. */
  predicate Small(l: Loop) {
    l.guided && l.minChunk <= 0
  }

  lemma {:induction false} ShareFalls(end: int, from: int, from': int, n: nat)
    requires n > 0 && from <= from'
    ensures Share(end, from', n) <= Share(end, from, n)
  {
    DivGrows(end - from', end - from, 2);
    DivGrows(Div(end - from', 2), Div(end - from, 2), n);
  }

  lemma {:induction false} ShareAtEnd(end: int, n: nat)
    requires n > 0
    ensures Share(end, end, n) == 0
  {}

  // ---- Loops without iterations ---------------------------------------------------------

  lemma {:induction false} DivTimes(a: int, n: nat)
    requires a <= 0 && n > 0
    ensures n * Div(a, n) >= a
  {
    assert n * (-a / n) <= -a;
    assert a < 0 ==> n * Div(a, n) == -(n * (-a / n));
  }

  /** All threads together do not move the index back as far as the end. */
  lemma {:induction false} FirstIsSmall(l: Loop, n: nat)
    requires Small(l) && l.end <= l.start && n > 0
    ensures FirstChunk(l, n) <= 0 && l.end <= l.start + Times(n, FirstChunk(l, n))
  {
    var c, a := FirstChunk(l, n), Div(l.end - l.start, 2);
    ShareFalls(l.end, l.end, l.start, n);
    ShareAtEnd(l.end, n);
    DivTimes(a, n);
    assert l.end - l.start <= a <= 0;
    ProductGrows(n, c, Share(l.end, l.start, n));
    TimesIsProduct(n, c);
  }

  lemma {:induction false} TimesFall(k: nat, m: nat, c: int)
    requires k <= m && c <= 0
    ensures Times(m, c) <= Times(k, c) <= 0
  {
    if k < m {
      TimesFall(k, m - 1, c);
    } else if k > 0 {
      TimesFall(k - 1, k - 1, c);
    }
  }

  /** A thread that claims at most once, and nothing. */
  predicate IdlePc(l: Loop, c: int, over: set<nat>, pc: Pc, t: nat) {
    && (t in over <==> pc.Resize? || pc.Iterate? || pc.Finished? || pc.Past?)
    && match pc
       case Wait => true
       case ChunkLoad => true
       case ChunkAdd(size) => c <= size <= 0
       case Resize(s, e) => l.end <= s <= l.start && e <= s
       case Iterate(cur, e, more) => e <= cur && !more
       case Finished => true
       case Past => true
       case _ => false
  }

  ghost predicate IdleInv(l: Loop, s: State)
    requires |s.ts| > 0
  {
    var c := FirstChunk(l, |s.ts|);
    && s.begun && s.end == l.end && s.minChunk == l.minChunk && s.guided
    && c <= s.chunk <= 0 && s.over <= All(|s.ts|)
    && l.start + Times(|s.over|, c) <= s.idx <= l.start
    && s.ran == multiset{}
    && forall t: nat {:trigger s.ts[t]} :: t < |s.ts| ==> IdlePc(l, c, s.over, s.ts[t], t)
  }

  lemma {:induction false} IdleClaims(l: Loop, s: State, t: nat)
    requires |s.ts| > 0 && Small(l) && l.end <= l.start && IdleInv(l, s) && t < |s.ts| && s.ts[t].ChunkAdd?
    ensures IdleInv(l, StepLoop(s, t))
  {
    var n, c := |s.ts|, FirstChunk(l, |s.ts|);
    FirstIsSmall(l, n);
    SizeOf(s.over, n);
    TimesFall(|s.over|, n, c);
    assert IdlePc(l, c, s.over, s.ts[t], t) && t in All(n);
    assert |s.over + {t}| == |s.over| + 1;
    forall u: nat | u < n
      ensures IdlePc(l, c, StepLoop(s, t).over, StepLoop(s, t).ts[u], u)
    {
      assert IdlePc(l, c, s.over, s.ts[u], u);
    }
  }

  lemma {:induction false} IdleMoves(l: Loop, s: State, t: nat)
    requires |s.ts| > 0 && Small(l) && l.end <= l.start && IdleInv(l, s) && t < |s.ts| && !s.ts[t].ChunkAdd?
    ensures IdleInv(l, StepLoop(s, t))
  {
    var n, c := |s.ts|, FirstChunk(l, |s.ts|);
    assert IdlePc(l, c, s.over, s.ts[t], t);
    if s.ts[t].Resize? {
      ShareFalls(l.end, s.ts[t].s, l.start, n);
      ShareFalls(l.end, l.end, s.ts[t].s, n);
      ShareAtEnd(l.end, n);
    }
    forall u: nat | u < n
      ensures IdlePc(l, c, StepLoop(s, t).over, StepLoop(s, t).ts[u], u)
    {
      assert IdlePc(l, c, s.over, s.ts[u], u);
    }
  }

  lemma {:induction false} IdleOpens(l: Loop, s: State, t: nat)
    requires Small(l) && l.end <= l.start && Inv(l, s) && !s.begun && t < |s.ts| && !InInit(s.ts[t])
    ensures var s' := StepLoop(s, t); if s'.begun then IdleInv(l, s') else Inv(l, s')
  {
    FirstIsSmall(l, |s.ts|);
    assert InitOk(l, s, s.ts[t]);
    if forall u :: 0 <= u < |s.ts| ==> !InInit(s.ts[u]) {
      AllWait(l, s);
    }
  }

  lemma {:induction false} IdleAlways(l: Loop, s0: State, n: nat, sched: seq<nat>)
    requires Small(l) && l.end <= l.start && n >= 1 && Initial(s0, n) && Schedule(n, sched)
    ensures var s := Exec(l, s0, sched); |s.ts| == n && if s.begun then IdleInv(l, s) else Inv(l, s)
    decreases |sched|
  {
    if sched != [] {
      var s, t := Exec(l, s0, sched[..|sched| - 1]), sched[|sched| - 1];
      IdleAlways(l, s0, n, sched[..|sched| - 1]);
      if s.begun {
        assert IdlePc(l, FirstChunk(l, n), s.over, s.ts[t], t);
        if s.ts[t].ChunkAdd? { IdleClaims(l, s, t); } else { IdleMoves(l, s, t); }
      } else if InInit(s.ts[t]) {
        InitStepKeeps(l, s, t);
      } else {
        IdleOpens(l, s, t);
      }
    }
  }

  // ---- Loops of one thread ---------------------------------------------------------------

  /** The iterations of the loop below `upto` have run, once, and nothing else. */
  ghost predicate RanTo(l: Loop, ran: multiset<int>, upto: int) {
    forall i: int {:trigger ran[i]} :: ran[i] == if l.start <= i < upto && i < l.end then 1 else 0
  }

  ghost predicate OnePc(l: Loop, s: State, pc: Pc) {
    match pc
    case ChunkLoad => RanTo(l, s.ran, s.idx) && s.chunk >= (if s.idx < l.end then 1 else 0)
    case ChunkAdd(size) => RanTo(l, s.ran, s.idx) && size >= (if s.idx < l.end then 1 else 0)
    case Resize(from, e) =>
      && RanTo(l, s.ran, from) && l.start <= from
      && if from < l.end then from < e && from < s.idx && e == (if s.idx < l.end then s.idx else l.end) else e <= from
    case Iterate(cur, e, more) =>
      && RanTo(l, s.ran, cur) && l.start <= cur
      && if more then cur <= e == (if s.idx < l.end then s.idx else l.end) && s.chunk >= (if s.idx < l.end then 1 else 0)
         else e <= cur && l.end <= cur
    case Finished => RanTo(l, s.ran, l.end)
    case Past => RanTo(l, s.ran, l.end)
    case _ => false
  }

  /** The only thread has the loop to itself, and is given an iteration while one is left. */
  ghost predicate OneInv(l: Loop, s: State) {
    && |s.ts| == 1 && s.begun && s.end == l.end && s.minChunk == l.minChunk && s.guided && l.start <= s.idx
    && OnePc(l, s, s.ts[0])
  }

  lemma {:induction false} ShareOfOne(end: int, from: int)
    requires from <= end
    ensures Share(end, from, 1) >= if end - from >= 2 then 1 else 0
  {}

  lemma {:induction false} OneResizes(l: Loop, s: State)
    requires Small(l) && OneInv(l, s) && s.ts[0].Resize?
    ensures OneInv(l, StepLoop(s, 0))
  {
    if s.ts[0].s < l.end {
      ShareOfOne(l.end, s.ts[0].s);
    }
  }

  lemma {:induction false} OneIterates(l: Loop, s: State)
    requires Small(l) && OneInv(l, s) && s.ts[0].Iterate?
    ensures OneInv(l, StepLoop(s, 0))
  {
    var s', pc := StepLoop(s, 0), s.ts[0];
    if pc.cur < pc.e {
      assert pc.more;
      forall i: int
        ensures s'.ran[i] == if l.start <= i < pc.cur + 1 && i < l.end then 1 else 0
      {
        assert s.ran[i] == if l.start <= i < pc.cur && i < l.end then 1 else 0;
      }
      assert RanTo(l, s'.ran, pc.cur + 1);
    } else if pc.more {
      assert RanTo(l, s.ran, s.idx);
    } else {
      assert RanTo(l, s.ran, l.end);
    }
  }

  lemma {:induction false} OneClaims(l: Loop, s: State)
    requires Small(l) && OneInv(l, s) && !s.ts[0].Resize? && !s.ts[0].Iterate?
    ensures OneInv(l, StepLoop(s, 0))
  {}

  lemma {:induction false} OneKeeps(l: Loop, s: State)
    requires Small(l) && OneInv(l, s)
    ensures OneInv(l, StepLoop(s, 0))
  {
    if s.ts[0].Resize? {
      OneResizes(l, s);
    } else if s.ts[0].Iterate? {
      OneIterates(l, s);
    } else {
      OneClaims(l, s);
    }
  }

  lemma {:induction false} OneOpens(l: Loop, s: State)
    requires Small(l) && l.end - l.start >= 2 && |s.ts| == 1 && Inv(l, s) && !s.begun && !InInit(s.ts[0])
    ensures OneInv(l, StepLoop(s, 0))
  {
    assert forall u :: 0 <= u < |s.ts| ==> !InInit(s.ts[u]);
    AllWait(l, s);
    ShareOfOne(l.end, l.start);
  }

  lemma {:induction false} OneAlways(l: Loop, s0: State, sched: seq<nat>)
    requires Small(l) && l.end - l.start >= 2 && Initial(s0, 1) && Schedule(1, sched)
    ensures var s := Exec(l, s0, sched); |s.ts| == 1 && if s.begun then OneInv(l, s) else Inv(l, s)
    decreases |sched|
  {
    if sched != [] {
      var s := Exec(l, s0, sched[..|sched| - 1]);
      OneAlways(l, s0, sched[..|sched| - 1]);
      if s.begun {
        OneKeeps(l, s);
      } else if InInit(s.ts[0]) {
        InitStepKeeps(l, s, 0);
      } else {
        OneOpens(l, s);
      }
    }
  }

  // ---- Runs that leave iterations out ---------------------------------------------------

  ghost predicate Reaches(l: Loop, s0: State, s: State) {
    exists sched: seq<nat> :: Schedule(|s0.ts|, sched) && Exec(l, s0, sched) == s
  }

  lemma {:induction false} ReachesNext(l: Loop, s0: State, s: State, t: nat)
    requires Reaches(l, s0, s) && t < |s0.ts| == |s.ts|
    ensures Reaches(l, s0, Step(l, s, t))
  {
    var sched: seq<nat> :| Schedule(|s0.ts|, sched) && Exec(l, s0, sched) == s;
    assert (sched + [t])[..|sched|] == sched;
    assert Schedule(|s0.ts|, sched + [t]);
    assert Exec(l, s0, sched + [t]) == Step(l, s, t);
  }

  /** Thread `k` is `j` steps into EMSloopInit, after the threads before it have been through,
      and before the others. */
  predicate InitAt(l: Loop, s: State, k: nat, j: nat) {
    && k < |s.ts| && l.guided
    && (forall u :: 0 <= u < |s.ts| && u != k ==> s.ts[u] == if u < k then Wait else InitIdx)
    && s.ts[k] == (match j
                   case 0 => InitIdx case 1 => InitEnd case 2 => InitChunk case 3 => InitCheck
                   case 4 => InitMin case 5 => InitSched case _ => Wait)
    && !s.begun && s.ran == multiset{}
    && (j >= 1 || k >= 1 ==> s.idx == l.start) && (j >= 2 || k >= 1 ==> s.end == l.end)
    && (j >= 3 || k >= 1 ==> s.chunk == Share(l.end, l.start, |s.ts|))
    && (j >= 5 || k >= 1 ==> s.minChunk == l.minChunk) && (j >= 6 || k >= 1 ==> s.guided)
  }

  lemma {:induction false} InitNext(l: Loop, s: State, k: nat, j: nat)
    requires InitAt(l, s, k, j) && j < 6 && Share(l.end, l.start, |s.ts|) >= l.minChunk
    ensures InitAt(l, Step(l, s, k), k, j + 1)
  {}

  lemma {:induction false} InitOne(l: Loop, s0: State, s: State, k: nat) returns (s': State)
    requires Reaches(l, s0, s) && |s0.ts| == |s.ts| && InitAt(l, s, k, 0) && Share(l.end, l.start, |s.ts|) >= l.minChunk
    ensures Reaches(l, s0, s') && |s'.ts| == |s.ts| && InitAt(l, s', k, 6)
  {
    s' := s;
    for j := 0 to 6
      invariant Reaches(l, s0, s') && |s'.ts| == |s.ts| && InitAt(l, s', k, j)
    {
      ReachesNext(l, s0, s', k);
      InitNext(l, s', k, j);
      s' := Step(l, s', k);
    }
  }

  lemma {:induction false} InitPasses(l: Loop, s: State, k: nat)
    requires InitAt(l, s, k, 6) && k + 1 < |s.ts|
    ensures InitAt(l, s, k + 1, 0)
  {}

  lemma {:induction false} FirstInit(l: Loop, s0: State, n: nat)
    requires l.guided && n >= 1 && Initial(s0, n)
    ensures InitAt(l, s0, 0, 0) && Reaches(l, s0, s0)
  {
    assert Exec(l, s0, []) == s0;
  }

  lemma {:induction false} AllInit(l: Loop, s0: State, n: nat) returns (s: State)
    requires l.guided && n >= 1 && Initial(s0, n) && Share(l.end, l.start, n) >= l.minChunk
    ensures Reaches(l, s0, s) && |s.ts| == n && InitAt(l, s, n - 1, 6)
  {
    FirstInit(l, s0, n);
    s := InitOne(l, s0, s0, 0);
    for k := 1 to n
      invariant Reaches(l, s0, s) && |s.ts| == n && InitAt(l, s, k - 1, 6)
    {
      InitPasses(l, s, k - 1);
      s := InitOne(l, s0, s, k);
    }
  }

  /** Thread 0 is about to claim, the others wait at the barrier, and the next chunk has been
      computed where `prev` iterations were left. */
  ghost predicate Claims(l: Loop, s: State, prev: int) {
    && |s.ts| >= 1 && s.begun && s.end == l.end && s.minChunk == l.minChunk && s.guided
    && s.ts[0].ChunkLoad? && (forall u :: 1 <= u < |s.ts| ==> s.ts[u].Wait?)
    && l.start <= s.idx < l.end && l.end - s.idx <= prev <= 2 * (l.end - s.idx)
    && s.chunk == Share(l.end, l.end - prev, |s.ts|)
    && forall i: int {:trigger s.ran[i]} :: i >= s.idx ==> s.ran[i] == 0
  }

  /** Shared by two threads or more, a chunk is at most half of what is left. */
  lemma {:induction false} ShareIsSmall(left: int, prev: int, n: nat)
    requires n >= 2 && 0 < left && left <= prev <= 2 * left
    ensures 0 <= 2 * Share(prev, 0, n) <= left
  {
    var h := prev / 2;
    var q := h / n;
    assert n * q <= h;
    assert 2 * q <= n * q;
  }

  lemma {:induction false} ShareMoves(end: int, from: int, n: nat)
    requires n > 0
    ensures Share(end, from, n) == Share(end - from, 0, n)
  {}

  /** Thread 0 runs the iterations it has claimed. */
  lemma {:induction false} RunsChunk(l: Loop, s0: State, s: State) returns (s': State)
    requires Reaches(l, s0, s) && |s0.ts| == |s.ts| >= 1 && s.ts[0].Iterate? && s.ts[0].more && s.ts[0].cur <= s.ts[0].e <= s.idx
    requires forall i: int {:trigger s.ran[i]} :: i >= s.idx ==> s.ran[i] == 0
    ensures Reaches(l, s0, s') && s' == s.(ts := s.ts[0 := ChunkLoad], ran := s'.ran)
    ensures forall i: int {:trigger s'.ran[i]} :: i >= s.idx ==> s'.ran[i] == 0
    decreases s.ts[0].e - s.ts[0].cur
  {
    ReachesNext(l, s0, s, 0);
    var s1 := Step(l, s, 0);
    if s.ts[0].cur < s.ts[0].e {
      s' := RunsChunk(l, s0, s1);
    } else {
      s' := s1;
    }
  }

  lemma {:induction false} ClaimSteps(l: Loop, s: State, prev: int) returns (s3: State)
    requires Claims(l, s, prev) && l.minChunk <= 0 && |s.ts| >= 2 && s.chunk >= 1
    ensures s3 == Step(l, Step(l, Step(l, s, 0), 0), 0)
    ensures |s3.ts| == |s.ts| && s3.ts == s.ts[0 := Iterate(s.idx, s.idx + s.chunk, true)]
    ensures s3.idx == s.idx + s.chunk && 2 * (l.end - s3.idx) >= l.end - s.idx
    ensures s3.chunk == Share(l.end, s.idx, |s.ts|) && s3.ran == s.ran && s3.begun && s3.end == l.end && s3.minChunk == l.minChunk && s3.guided
  {
    var n := |s.ts|;
    ShareMoves(l.end, l.end - prev, n);
    ShareIsSmall(l.end - s.idx, prev, n);
    ShareMoves(l.end, s.idx, n);
    ShareIsSmall(l.end - s.idx, l.end - s.idx, n);
    var s1 := Step(l, s, 0);
    assert s1.ts[0] == ChunkAdd(s.chunk);
    var s2 := Step(l, s1, 0);
    assert s2.ts[0] == Resize(s.idx, s.idx + s.chunk);
    s3 := Step(l, s2, 0);
  }

  lemma {:induction false} ClaimsOn(l: Loop, s0: State, s: State, prev: int) returns (s': State)
    requires Reaches(l, s0, s) && |s0.ts| == |s.ts| && Claims(l, s, prev) && l.minChunk <= 0 && |s.ts| >= 2 && s.chunk >= 1
    ensures Reaches(l, s0, s') && |s'.ts| == |s.ts| && Claims(l, s', l.end - s.idx) && s'.idx > s.idx
  {
    var s3 := ClaimSteps(l, s, prev);
    ReachesNext(l, s0, s, 0);
    OneMoves(l, s, 0);
    ReachesNext(l, s0, Step(l, s, 0), 0);
    OneMoves(l, Step(l, s, 0), 0);
    ReachesNext(l, s0, Step(l, Step(l, s, 0), 0), 0);
    s' := RunsChunk(l, s0, s3);
  }

  lemma {:induction false} ShareNotNegative(l: Loop, s: State, prev: int)
    requires Claims(l, s, prev)
    ensures s.chunk >= 0
  {
    ShareFalls(l.end, l.end - prev, l.end, |s.ts|);
    ShareAtEnd(l.end, |s.ts|);
  }

  /** Thread 0 goes on alone until the next chunk would be empty; iterations are then left. */
  lemma {:induction false} RunsDry(l: Loop, s0: State, s: State, prev: int) returns (s': State, prev': int)
    requires Reaches(l, s0, s) && |s0.ts| == |s.ts| && Claims(l, s, prev) && l.minChunk <= 0
    requires |s.ts| >= 2 || s.chunk == 0
    ensures Reaches(l, s0, s') && |s'.ts| == |s.ts| && Claims(l, s', prev') && s'.chunk == 0
    decreases l.end - s.idx
  {
    ShareNotNegative(l, s, prev);
    if s.chunk == 0 {
      s', prev' := s, prev;
    } else {
      var s1 := ClaimsOn(l, s0, s, prev);
      s', prev' := RunsDry(l, s0, s1, l.end - s.idx);
    }
  }

  /** The chunks have run out before the iterations; the first `k` threads have left. */
  ghost predicate Dry(l: Loop, s: State, k: nat) {
    && k <= |s.ts| && |s.ts| >= 1 && s.begun && s.end == l.end && s.minChunk == l.minChunk && s.guided
    && (forall u :: 0 <= u < |s.ts| ==> if u < k then s.ts[u].Finished? else if u == 0 then s.ts[u].ChunkLoad? else s.ts[u].Wait?)
    && l.start <= s.idx < l.end && s.chunk == 0 && Share(l.end, s.idx, |s.ts|) == 0 && s.ran[s.idx] == 0
  }

  /** Thread `k` is `j` steps into claiming an empty chunk, from `s` on. */
  predicate EmptyAt(s: State, s': State, k: nat, j: nat) {
    && k < |s.ts| == |s'.ts| && s'.ts == s.ts[k := s'.ts[k]]
    && s'.idx == s.idx && s'.chunk == 0 && s'.ran == s.ran && s'.begun && s'.end == s.end && s'.minChunk == s.minChunk && s'.guided
    && s'.ts[k] == match j
                   case 0 => ChunkLoad case 1 => ChunkAdd(0) case 2 => Resize(s.idx, s.idx)
                   case 3 => Iterate(s.idx, s.idx, false) case _ => Finished
  }

  lemma {:induction false} EmptyNext(l: Loop, s: State, s': State, k: nat, j: nat)
    requires Dry(l, s, k) && l.minChunk <= 0 && EmptyAt(s, s', k, j) && j < 4
    ensures EmptyAt(s, Step(l, s', k), k, j + 1)
  {}

  /** Thread `k` is given an empty chunk, and leaves. */
  lemma {:induction false} LeavesEmpty(l: Loop, s0: State, s: State, k: nat) returns (s': State)
    requires Reaches(l, s0, s) && |s0.ts| == |s.ts| && Dry(l, s, k) && k < |s.ts| && l.minChunk <= 0
    ensures Reaches(l, s0, s') && |s'.ts| == |s.ts| && Dry(l, s', k + 1)
  {
    s' := s;
    if k > 0 {
      ReachesNext(l, s0, s', k);
      s' := Step(l, s', k);
    }
    for j := 0 to 4
      invariant Reaches(l, s0, s') && EmptyAt(s, s', k, j)
    {
      ReachesNext(l, s0, s', k);
      EmptyNext(l, s, s', k, j);
      s' := Step(l, s', k);
    }
  }

  lemma {:induction false} DryStarts(l: Loop, s: State, prev: int)
    requires Claims(l, s, prev) && s.chunk == 0
    ensures Dry(l, s, 0)
  {
    ShareFalls(l.end, l.end - prev, s.idx, |s.ts|);
    ShareFalls(l.end, s.idx, l.end, |s.ts|);
    ShareAtEnd(l.end, |s.ts|);
  }

  /** The first thread has passed the barrier. */
  lemma {:induction false} FirstClaims(l: Loop, s: State)
    requires |s.ts| >= 1 && InitAt(l, s, |s.ts| - 1, 6) && l.start < l.end
    ensures Claims(l, Step(l, s, 0), l.end - l.start)
  {
    assert forall u :: 0 <= u < |s.ts| ==> s.ts[u] == Wait;
  }

  lemma {:induction false} AllLeave(l: Loop, s0: State, s: State) returns (s': State)
    requires Reaches(l, s0, s) && |s0.ts| == |s.ts| && Dry(l, s, 0) && l.minChunk <= 0
    ensures Reaches(l, s0, s') && |s'.ts| == |s.ts| && Dry(l, s', |s.ts|)
  {
    s' := s;
    for k := 0 to |s.ts|
      invariant Reaches(l, s0, s') && |s'.ts| == |s.ts| && Dry(l, s', k)
    {
      s' := LeavesEmpty(l, s0, s', k);
    }
  }

  lemma {:induction false} PastTooEarly(l: Loop, s: State)
    requires Dry(l, s, |s.ts|)
    ensures !RunOnce(l, Step(l, s, 0), s.idx)
  {
    var s' := Step(l, s, 0);
    assert s'.ts[0].Past? && s'.ran[s.idx] == 0;
  }

  lemma {:induction false} ShareOfLast(end: int, from: int)
    requires end - from == 1
    ensures Share(end, from, 1) == 0
  {}

  lemma {:induction false} Opens(l: Loop, s0: State, n: nat) returns (s: State)
    requires Small(l) && n >= 1 && l.start < l.end && Initial(s0, n)
    ensures Reaches(l, s0, s) && |s.ts| == n && Claims(l, s, l.end - l.start)
  {
    ShareFalls(l.end, l.start, l.end, n);
    ShareAtEnd(l.end, n);
    var s1 := AllInit(l, s0, n);
    ReachesNext(l, s0, s1, 0);
    FirstClaims(l, s1);
    OneMoves(l, s1, 0);
    s := Step(l, s1, 0);
  }

  lemma {:induction false} GetsDry(l: Loop, s0: State, n: nat) returns (s: State)
    requires Small(l) && n >= 1 && l.start < l.end && (n >= 2 || l.end - l.start == 1) && Initial(s0, n)
    ensures Reaches(l, s0, s) && |s.ts| == n && Dry(l, s, 0)
  {
    var s1 := Opens(l, s0, n);
    if n == 1 { ShareOfLast(l.end, l.start); }
    var prev;
    s, prev := RunsDry(l, s0, s1, l.end - l.start);
    DryStarts(l, s, prev);
  }

  /** In a loop with iterations that is not right, some run leaves one out. */
  lemma {:induction false} LosesIteration(l: Loop, s0: State, n: nat) returns (sched: seq<nat>, i: int)
    requires Small(l) && n >= 1 && l.start < l.end && (n >= 2 || l.end - l.start == 1) && Initial(s0, n)
    ensures Schedule(n, sched) && !RunOnce(l, Exec(l, s0, sched), i)
  {
    var s2 := GetsDry(l, s0, n);
    var s3 := AllLeave(l, s0, s2);
    ReachesNext(l, s0, s3, 0);
    PastTooEarly(l, s3);
    i := s3.idx;
    sched :| Schedule(n, sched) && Exec(l, s0, sched) == Step(l, s3, 0);
  }

  // ---- The results -----------------------------------------------------------------------

  /** A dynamic loop; or a guided one whose smallest chunk has an iteration, or which has no
      iterations, or one thread and at least two iterations. */
  predicate Covered(l: Loop, n: nat) {
    !l.guided || l.minChunk >= 1 || l.end <= l.start || (n == 1 && l.end - l.start >= 2)
  }

  lemma {:induction false} CoveredRunsOnce(l: Loop, s0: State, n: nat, sched: seq<nat>, i: int)
    requires n >= 1 && Covered(l, n) && Initial(s0, n) && Schedule(n, sched)
    ensures RunOnce(l, Exec(l, s0, sched), i)
  {
    var s := Exec(l, s0, sched);
    if Legal(l) {
      ExactlyOnce(l, s0, n, sched, i);
    } else if l.end <= l.start {
      IdleAlways(l, s0, n, sched);
      if !s.begun { NobodyPast(l, s); }
    } else {
      OneAlways(l, s0, sched);
      if s.begun { OneRanOnce(l, s, i); } else { NobodyPast(l, s); }
    }
  }

  lemma {:induction false} OneRanOnce(l: Loop, s: State, i: int)
    requires OneInv(l, s)
    ensures RunOnce(l, s, i)
  {}

  /** The loop of `n` threads runs every iteration exactly once, for every interleaving, exactly
      if it is one of these. */
  lemma {:induction false} RightExactly(l: Loop, n: nat)
    requires n >= 1
    ensures Covered(l, n) <==>
      forall s0: State, sched: seq<nat>, i: int :: Initial(s0, n) && Schedule(n, sched) ==> RunOnce(l, Exec(l, s0, sched), i)
  {
    if Covered(l, n) {
      forall s0: State, sched: seq<nat>, i: int | Initial(s0, n) && Schedule(n, sched)
        ensures RunOnce(l, Exec(l, s0, sched), i)
      {
        CoveredRunsOnce(l, s0, n, sched, i);
      }
    } else {
      var s0 := State(0, 0, 0, 0, false, seq(n, _ => InitIdx), map[], multiset{}, {}, false);
      var sched, i := LosesIteration(l, s0, n);
      assert Initial(s0, n);
    }
  }

  /** Guided loops run every iteration exactly once, whatever their bounds and threads, exactly
      if the smallest chunk has at least one iteration. */
  lemma {:induction false} SmallestChunkDecides(m: int)
    ensures m >= 1 <==>
      forall l: Loop, s0: State, n: nat, sched: seq<nat>, i: int ::
        l.guided && l.minChunk == m && n >= 1 && Initial(s0, n) && Schedule(n, sched) ==> RunOnce(l, Exec(l, s0, sched), i)
  {
    if m >= 1 {
      forall l: Loop, s0: State, n: nat, sched: seq<nat>, i: int | l.guided && l.minChunk == m && n >= 1 && Initial(s0, n) && Schedule(n, sched)
        ensures RunOnce(l, Exec(l, s0, sched), i)
      {
        ExactlyOnce(l, s0, n, sched, i);
      }
    } else {
      var l := Loop(0, 1, true, m);
      RightExactly(l, 1);
      var s0: State, sched: seq<nat>, i: int :| Initial(s0, 1) && Schedule(1, sched) && !RunOnce(l, Exec(l, s0, sched), i);
      assert l.guided && l.minChunk == m;
    }
  }
}
