/** How large the chunks of EMSloopChunk are: one iteration in a dynamic loop, and in a guided one
    half of what was left, divided among the threads, but no less than the smallest chunk. */
module LoopSizes {
  import opened ThreadSets
  import opened Loops

  /** Half of `left`, over `n`, and at least `least`. */
  predicate GuidedSize(chunk: int, left: int, n: nat, least: int)
    requires n > 0
  {
    chunk == if left >= 0 && left / 2 / n >= least then left / 2 / n else least
  }

  lemma {:induction false} ShareIs(end: int, from: int, n: nat, least: int)
    requires n > 0 && least >= 1
    ensures GuidedSize(Max(Share(end, from, n), least), end - from, n, least)
  {
    if end < from {
      DivGrows(end - from, 0, 2);
      DivGrows(Div(end - from, 2), 0, n);
    }
  }

  /** Before the loop begins, when all threads have initialized it. */
  lemma {:induction false} FirstSize(l: Loop, s0: State, n: nat, sched: seq<nat>)
    requires Legal(l) && n >= 1 && Initial(s0, n) && Schedule(n, sched)
    requires var s := Exec(l, s0, sched); !s.begun && forall t :: 0 <= t < n ==> !InInit(s.ts[t])
    ensures var s := Exec(l, s0, sched); s.idx == l.start && s.end == l.end
    ensures var s := Exec(l, s0, sched); if l.guided then GuidedSize(s.chunk, l.end - l.start, n, l.minChunk) else s.chunk == 1
  {
    Always(l, s0, n, sched);
    AllWait(l, Exec(l, s0, sched));
    if l.guided {
      ShareIs(l.end, l.start, n, l.minChunk);
    }
  }

  /** A thread claims with the size that was in the shared context when it looked. */
  lemma {:induction false} LoadsSize(l: Loop, s: State, t: nat)
    requires t < |s.ts| && s.ts[t].ChunkLoad?
    ensures Step(l, s, t).ts[t] == ChunkAdd(s.chunk)
  {}

  lemma {:induction false} HasBegun(l: Loop, s: State, t: nat)
    requires Inv(l, s) && t < |s.ts| && (s.ts[t].ChunkAdd? || s.ts[t].Resize?)
    ensures s.begun
  {
    assert s.begun || InitOk(l, s, s.ts[t]);
  }

  /** A claim takes the next `size` iterations, or as many as are left, and nothing else. */
  lemma {:induction false} ClaimTakes(l: Loop, s0: State, n: nat, sched: seq<nat>, t: nat)
    requires Legal(l) && n >= 1 && Initial(s0, n) && Schedule(n, sched) && t < n
    requires Exec(l, s0, sched).ts[t].ChunkAdd?
    ensures var s := Exec(l, s0, sched);
      var s', size := Step(l, s, t), s.ts[t].size;
      && size >= 1 && s'.idx == s.idx + size
      && forall i: int :: i in s'.owner <==> i in s.owner || (s.idx <= i < s.idx + size && i < l.end)
  {
    var s := Exec(l, s0, sched);
    Always(l, s0, n, sched);
    HasBegun(l, s, t);
    assert LoopOk(l, n, s.over, s.ts[t], t);
    var s' := Step(l, s, t);
    forall i: int
      ensures i in s'.owner <==> i in s.owner || (s.idx <= i < s.idx + s.ts[t].size && i < l.end)
    {
      ClaimedRange(s.idx, s.ts[t].size, s.end, i);
    }
  }

  lemma {:induction false} SharedFields(l: Loop, s: State)
    requires Inv(l, s) && s.begun
    ensures s.end == l.end && s.minChunk == (if l.guided then l.minChunk else 1)
  {}

  lemma {:induction false} ResizeStores(l: Loop, s: State, t: nat)
    requires t < |s.ts| && s.ts[t].Resize? && s.end == l.end && s.minChunk == l.minChunk >= 1
    ensures GuidedSize(Step(l, s, t).chunk, l.end - s.ts[t].s, |s.ts|, l.minChunk)
  {
    ShareIs(l.end, s.ts[t].s, |s.ts|, l.minChunk);
  }

  /** In a guided loop, the size that is stored after a claim that started at `s`. */
  lemma {:induction false} GuidedSizes(l: Loop, s0: State, n: nat, sched: seq<nat>, t: nat)
    requires Legal(l) && l.guided && n >= 1 && Initial(s0, n) && Schedule(n, sched) && t < n
    requires Exec(l, s0, sched).ts[t].Resize?
    ensures var s := Exec(l, s0, sched);
      GuidedSize(Step(l, s, t).chunk, l.end - s.ts[t].s, n, l.minChunk)
  {
    var s := Exec(l, s0, sched);
    Always(l, s0, n, sched);
    HasBegun(l, s, t);
    SharedFields(l, s);
    ResizeStores(l, s, t);
  }

  /** A thread of a dynamic loop has at most one iteration to run. */
  predicate OneAtMost(pc: Pc) {
    match pc
    case ChunkAdd(size) => size == 1
    case Resize(_, _) => false
    case Iterate(cur, e, _) => e - cur <= 1
    case _ => true
  }

  lemma {:induction false} OneAtMostStays(l: Loop, s: State, t: nat)
    requires Legal(l) && !l.guided && Inv(l, s) && t < |s.ts| && forall u: nat {:trigger s.ts[u]} :: u < |s.ts| ==> OneAtMost(s.ts[u])
    ensures OneAtMost(Step(l, s, t).ts[t])
  {
    if s.begun {
      assert LoopOk(l, |s.ts|, s.over, s.ts[t], t);
    } else {
      assert InitOk(l, s, s.ts[t]);
    }
  }

  lemma {:induction false} OthersStay(l: Loop, s: State, t: nat, u: nat)
    requires t < |s.ts| && u < |s.ts| && u != t
    ensures Step(l, s, t).ts[u] == s.ts[u]
  {
    OneMoves(l, s, t);
  }

  /** Dynamic loops hand out one iteration at a time. */
  lemma {:induction false} DynamicSizes(l: Loop, s0: State, n: nat, sched: seq<nat>)
    requires !l.guided && n >= 1 && Initial(s0, n) && Schedule(n, sched)
    ensures var s := Exec(l, s0, sched);
      && (s.begun ==> s.chunk == 1)
      && forall t: nat {:trigger s.ts[t]} :: t < n ==> OneAtMost(s.ts[t])
    decreases |sched|
  {
    Always(l, s0, n, sched);
    if sched != [] {
      var s, t := Exec(l, s0, sched[..|sched| - 1]), sched[|sched| - 1];
      DynamicSizes(l, s0, n, sched[..|sched| - 1]);
      Always(l, s0, n, sched[..|sched| - 1]);
      OneAtMostStays(l, s, t);
      forall u: nat | u < n
        ensures OneAtMost(Step(l, s, t).ts[u])
      {
        if u != t { OthersStay(l, s, t, u); }
      }
    }
  }
}
