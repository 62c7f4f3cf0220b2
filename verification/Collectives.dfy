/** The phase barrier and single-execution regions, used by any number of threads that all
    run the same sequence of rounds.  Every load, store and fetch and add of the control
    block is one step.

    The last fields of the state, from `flips` on, record what happened and do not
    influence any step. */
module Collectives {
  import opened ThreadSets

  /** What the threads do in a round: a barrier, or a single region with its barrier. */
  datatype Round = Barrier | Single

  datatype Pc =
    | Start
    // A single region: fetch and add, reset by the last thread, body by the first.
    | SingleReset(first: bool)
    | SingleBody
    // The barrier: load the phase, fetch and add, then reset and flip, or spin.
    | BarLoad
    | BarAdd(p: nat)
    | BarReset(p: nat)
    | BarFlip(p: nat)
    | BarSpin(p: nat)
    | RaceReported

  datatype Thread = Thread(round: nat, pc: Pc)

  datatype State = State(
    nbar: seq<int>, phase: nat, single: int, ts: seq<Thread>,
    flips: nat, arrived: set<nat>, entered: set<nat>, runs: seq<seq<nat>>,
    closer: int, resetter: int, chosen: int)

  function SetPc(s: State, t: nat, pc: Pc): State
    requires t < |s.ts|
  {
    s.(ts := s.ts[t := s.ts[t].(pc := pc)])
  }

  /** EMSsingleTask and the region's body. */
  function StepSingle(prog: seq<Round>, s: State, t: nat): State
    requires t < |s.ts|
  {
    var th := s.ts[t];
    match th.pc
    case Start =>
      if th.round >= |prog| then s
      else if prog[th.round].Barrier? then SetPc(s, t, BarLoad)
      else
        var retval := s.single;
        SetPc(s.(single := retval + 1, entered := s.entered + {t},
                 resetter := if retval == |s.ts| - 1 then t else s.resetter,
                 chosen := if retval == 0 then t else s.chosen), t,
              if retval == |s.ts| - 1 then SingleReset(retval == 0) else if retval == 0 then SingleBody else BarLoad)
    case SingleReset(first) =>
      SetPc(s.(single := 0, resetter := -1), t, if first then SingleBody else BarLoad)
    case SingleBody =>
      SetPc(if th.round < |s.runs| then s.(runs := s.runs[th.round := s.runs[th.round] + [t]], chosen := -1) else s, t, BarLoad)
    case _ => s
  }

  /** EMSbarrier. */
  function StepBarrier(s: State, t: nat): State
    requires t < |s.ts|
  {
    var th := s.ts[t];
    match th.pc
    case BarLoad => SetPc(s, t, BarAdd(s.phase))
    case BarAdd(p) =>
      if p < |s.nbar| then
        var retval := s.nbar[p];
        SetPc(s.(nbar := s.nbar[p := retval - 1], arrived := s.arrived + {t}, closer := if retval == 1 then t else s.closer), t,
              if retval < 0 then RaceReported else if retval == 1 then BarReset(p) else BarSpin(p))
      else s
    case BarReset(p) =>
      if p < |s.nbar| then SetPc(s.(nbar := s.nbar[p := |s.ts|]), t, BarFlip(p)) else s
    case BarFlip(p) =>
      s.(phase := if p == 0 then 1 else 0, ts := s.ts[t := Thread(th.round + 1, Start)],
         flips := s.flips + 1, arrived := {}, entered := {}, closer := -1)
    case BarSpin(p) =>
      if p == s.phase then s else s.(ts := s.ts[t := Thread(th.round + 1, Start)])
    case _ => s
  }

  predicate InSingle(pc: Pc) {
    pc.Start? || pc.SingleReset? || pc.SingleBody?
  }

  function Step(prog: seq<Round>, s: State, t: nat): State
    requires t < |s.ts|
  {
    if InSingle(s.ts[t].pc) then StepSingle(prog, s, t) else StepBarrier(s, t)
  }

  function Exec(prog: seq<Round>, s: State, sched: seq<nat>): (r: State)
    requires Schedule(|s.ts|, sched)
    ensures |r.ts| == |s.ts|
    decreases |sched|
  {
    if sched == [] then s
    else Step(prog, Exec(prog, s, sched[..|sched| - 1]), sched[|sched| - 1])
  }

  /** The control block as EMSinitialize leaves it, and `n` threads about to start. */
  function Init(prog: seq<Round>, n: nat): State {
    State([n, n], 0, 0, seq(n, _ => Thread(0, Start)), 0, {}, {}, seq(|prog|, _ => []), -1, -1, -1)
  }

  // ---- The invariant --------------------------------------------------------------

  /** The thread has counted itself at the barrier of its round. */
  predicate HasArrived(pc: Pc) {
    pc.BarReset? || pc.BarFlip? || pc.BarSpin?
  }

  predicate Closing(pc: Pc) {
    pc.BarReset? || pc.BarFlip?
  }

  /** The thread has counted itself in the single region of its round. */
  predicate HasEntered(prog: seq<Round>, th: Thread) {
    !th.pc.Start? && th.round < |prog| && prog[th.round].Single?
  }

  /** The thread is the one that runs the body, and has not run it yet. */
  predicate Chosen(pc: Pc) {
    pc.SingleBody? || (pc.SingleReset? && pc.first)
  }

  /** The barrier phase a thread has seen. */
  predicate SawPhase(pc: Pc, p: nat) {
    match pc
    case BarAdd(q) => q == p
    case BarReset(q) => q == p
    case BarFlip(q) => q == p
    case BarSpin(q) => q == p
    case _ => true
  }

  /** A thread is in the current round, or has yet to notice that the last one is over. */
  predicate ThreadOk(prog: seq<Round>, s: State, th: Thread, t: nat) {
    && (t in s.arrived <==> th.round == s.flips && HasArrived(th.pc))
    && (t in s.entered <==> th.round == s.flips && HasEntered(prog, th))
    && (t == s.closer <==> Closing(th.pc))
    && (t == s.resetter <==> th.pc.SingleReset?)
    && (t == s.chosen <==> Chosen(th.pc))
    && !th.pc.RaceReported?
    && if th.round == s.flips then
         && SawPhase(th.pc, s.phase)
         && (!th.pc.Start? ==> s.flips < |prog|)
         && (th.pc.SingleReset? || th.pc.SingleBody? ==> HasEntered(prog, th))
       else
         th.round + 1 == s.flips && th.pc == BarSpin(if s.phase == 0 then 1 else 0)
  }

  /** The counter of the phase in use counts the threads still to arrive; the idle one is
      ready for the next round. */
  predicate CountersOk(s: State) {
    && |s.nbar| == 2 && s.phase == s.flips % 2
    && s.arrived <= All(|s.ts|)
    && -1 <= s.closer < |s.ts|
    && s.nbar[if s.phase == 0 then 1 else 0] == |s.ts|
    && (s.closer != -1 <==> |s.arrived| == |s.ts|)
    && s.nbar[s.phase] == if s.closer != -1 && s.ts[s.closer].pc.BarFlip? then |s.ts| else |s.ts| - |s.arrived|
  }

  /** The single counter counts the threads that have entered, until the last resets it. */
  predicate SinglesOk(s: State) {
    && s.entered <= All(|s.ts|)
    && -1 <= s.resetter < |s.ts|
    && (s.resetter != -1 ==> |s.entered| == |s.ts|)
    && s.single == if |s.entered| == |s.ts| && s.resetter == -1 then 0 else |s.entered|
  }

  /** Who has run the body of each region. */
  predicate RunsOk(prog: seq<Round>, s: State) {
    && |s.runs| == |prog| && s.flips <= |prog|
    && -1 <= s.chosen < |s.ts|
    && (forall r: nat :: r < s.flips ==> |s.runs[r]| == if prog[r].Single? then 1 else 0)
    && (forall r: nat :: s.flips < r < |prog| ==> s.runs[r] == [])
    && (s.flips < |prog| ==> |s.runs[s.flips]| == if s.entered == {} || s.chosen != -1 then 0 else 1)
  }

  ghost predicate ThreadsOk(prog: seq<Round>, s: State) {
    forall t: nat {:trigger s.ts[t]} :: t < |s.ts| ==> ThreadOk(prog, s, s.ts[t], t)
  }

  ghost predicate Inv(prog: seq<Round>, s: State) {
    |s.ts| >= 1 && ThreadsOk(prog, s) && CountersOk(s) && SinglesOk(s) && RunsOk(prog, s)
  }

  // ---- Every step keeps the invariant -----------------------------------------------------

  /** A step that changes at most thread `t`, and the records about `t`. */
  lemma {:induction false} Rejoin(prog: seq<Round>, s: State, t: nat, s': State)
    requires Inv(prog, s) && t < |s.ts| && |s'.ts| == |s.ts| && s'.ts == s.ts[t := s'.ts[t]]
    requires s'.flips == s.flips && s'.phase == s.phase
    requires s'.arrived == s.arrived || s'.arrived == s.arrived + {t}
    requires s'.entered == s.entered || s'.entered == s.entered + {t}
    requires s'.closer == s.closer || (s.closer == -1 && s'.closer == t)
    requires s'.resetter == s.resetter || (s.resetter == -1 && s'.resetter == t) || (s.resetter == t && s'.resetter == -1)
    requires s'.chosen == s.chosen || (s.chosen == -1 && s'.chosen == t) || (s.chosen == t && s'.chosen == -1)
    requires ThreadOk(prog, s', s'.ts[t], t)
    ensures ThreadsOk(prog, s')
  {
    forall u: nat | u < |s.ts|
      ensures ThreadOk(prog, s', s'.ts[u], u)
    {
      if u != t {
        assert s'.ts[u] == s.ts[u] && ThreadOk(prog, s, s.ts[u], u);
      }
    }
  }

  /** Entering a single region. */
  lemma {:induction false} StartKeeps(prog: seq<Round>, s: State, t: nat)
    requires Inv(prog, s) && t < |s.ts| && s.ts[t].pc.Start?
    ensures Inv(prog, StepSingle(prog, s, t))
  {
    var th := s.ts[t];
    assert ThreadOk(prog, s, th, t);
    if th.round < |prog| {
      if prog[th.round].Single? {
        EnterKeeps(prog, s, t);
      } else {
        Rejoin(prog, s, t, StepSingle(prog, s, t));
      }
    }
  }

  lemma {:induction false} EnterKeeps(prog: seq<Round>, s: State, t: nat)
    requires Inv(prog, s) && t < |s.ts| && s.ts[t].pc.Start? && s.ts[t].round < |prog| && prog[s.ts[t].round].Single?
    ensures Inv(prog, StepSingle(prog, s, t))
  {
    assert ThreadOk(prog, s, s.ts[t], t);
    SizeOf(s.entered, |s.ts|);
    assert t !in s.entered && t in All(|s.ts|);
    assert |s.entered + {t}| == |s.entered| + 1;
    FirstIsChosen(prog, s);
    Rejoin(prog, s, t, StepSingle(prog, s, t));
  }

  lemma {:induction false} FirstIsChosen(prog: seq<Round>, s: State)
    requires Inv(prog, s)
    ensures s.entered == {} ==> s.chosen == -1
    ensures |s.entered| != |s.ts| ==> s.resetter == -1
    ensures s.chosen != -1 ==> s.chosen in s.entered
  {
    if s.chosen != -1 {
      assert ThreadOk(prog, s, s.ts[s.chosen], s.chosen);
    }
  }

  lemma {:induction false} ResetKeeps(prog: seq<Round>, s: State, t: nat)
    requires Inv(prog, s) && t < |s.ts| && s.ts[t].pc.SingleReset?
    ensures Inv(prog, StepSingle(prog, s, t))
  {
    var s', th := StepSingle(prog, s, t), s.ts[t];
    assert ThreadOk(prog, s, th, t);
    Rejoin(prog, s, t, s');
  }

  lemma {:induction false} BodyKeeps(prog: seq<Round>, s: State, t: nat)
    requires Inv(prog, s) && t < |s.ts| && s.ts[t].pc.SingleBody?
    ensures Inv(prog, StepSingle(prog, s, t))
  {
    var s', th := StepSingle(prog, s, t), s.ts[t];
    assert ThreadOk(prog, s, th, t);
    Rejoin(prog, s, t, s');
  }

  lemma {:induction false} LoadKeeps(prog: seq<Round>, s: State, t: nat)
    requires Inv(prog, s) && t < |s.ts| && s.ts[t].pc.BarLoad?
    ensures Inv(prog, StepBarrier(s, t))
  {
    assert ThreadOk(prog, s, s.ts[t], t);
    Rejoin(prog, s, t, StepBarrier(s, t));
  }

  /** Arriving: the counter is what the threads still to arrive make it, so it is positive. */
  lemma {:induction false} ArriveKeeps(prog: seq<Round>, s: State, t: nat)
    requires Inv(prog, s) && t < |s.ts| && s.ts[t].pc.BarAdd?
    ensures Inv(prog, StepBarrier(s, t))
  {
    var s', th := StepBarrier(s, t), s.ts[t];
    assert ThreadOk(prog, s, th, t);
    SizeOf(s.arrived, |s.ts|);
    assert t !in s.arrived && t in All(|s.ts|);
    assert |s.arrived + {t}| == |s.arrived| + 1;
    Rejoin(prog, s, t, s');
  }

  lemma {:induction false} BarResetKeeps(prog: seq<Round>, s: State, t: nat)
    requires Inv(prog, s) && t < |s.ts| && s.ts[t].pc.BarReset?
    ensures Inv(prog, StepBarrier(s, t))
  {
    assert ThreadOk(prog, s, s.ts[t], t);
    Rejoin(prog, s, t, StepBarrier(s, t));
  }

  /** When the round is closed every other thread spins, and whoever entered a single
      region has passed it. */
  lemma {:induction false} ClosedThread(prog: seq<Round>, s: State, u: nat)
    requires Inv(prog, s) && s.closer != -1 && u < |s.ts|
    ensures s.ts[u].round == s.flips && HasArrived(s.ts[u].pc) && SawPhase(s.ts[u].pc, s.phase)
    ensures u != s.resetter && u != s.chosen && s.flips < |prog|
    ensures u in s.entered <==> prog[s.flips].Single?
  {
    SizeOf(s.arrived, |s.ts|);
    assert u in s.arrived && ThreadOk(prog, s, s.ts[u], u);
  }

  lemma {:induction false} ClosingMeans(prog: seq<Round>, s: State)
    requires Inv(prog, s) && s.closer != -1
    ensures forall u: nat {:trigger s.ts[u]} :: u < |s.ts| ==> s.ts[u].round == s.flips && HasArrived(s.ts[u].pc) && SawPhase(s.ts[u].pc, s.phase)
    ensures s.resetter == -1 && s.chosen == -1 && s.single == 0 && s.flips < |prog|
    ensures if prog[s.flips].Single? then s.entered == All(|s.ts|) else s.entered == {}
  {
    forall u: nat | u < |s.ts|
      ensures s.ts[u].round == s.flips && HasArrived(s.ts[u].pc) && SawPhase(s.ts[u].pc, s.phase)
      ensures u != s.resetter && u != s.chosen && s.flips < |prog| && (u in s.entered <==> prog[s.flips].Single?)
    {
      ClosedThread(prog, s, u);
    }
    ClosedThread(prog, s, s.closer);
    if s.resetter != -1 { ClosedThread(prog, s, s.resetter); }
    if s.chosen != -1 { ClosedThread(prog, s, s.chosen); }
    EnteredAll(prog, s);
  }

  lemma {:induction false} EnteredAll(prog: seq<Round>, s: State)
    requires |s.ts| >= 1 && SinglesOk(s) && s.resetter == -1 && s.flips < |prog|
    requires forall u: nat :: u < |s.ts| ==> (u in s.entered <==> prog[s.flips].Single?)
    ensures if prog[s.flips].Single? then s.entered == All(|s.ts|) else s.entered == {}
    ensures s.single == 0
  {
    var all := All(|s.ts|);
    assert forall u :: u in s.entered ==> u in all;
    if prog[s.flips].Single? {
      assert s.entered == all;
    } else {
      assert s.entered == {};
    }
  }

  lemma {:induction false} FlipKeeps(prog: seq<Round>, s: State, t: nat)
    requires Inv(prog, s) && t < |s.ts| && s.ts[t].pc.BarFlip?
    ensures Inv(prog, StepBarrier(s, t))
  {
    var s', th := StepBarrier(s, t), s.ts[t];
    assert ThreadOk(prog, s, th, t);
    ClosingMeans(prog, s);
    forall u: nat | u < |s.ts|
      ensures ThreadOk(prog, s', s'.ts[u], u)
    {
      assert ThreadOk(prog, s, s.ts[u], u);
      if u != t { assert s'.ts[u] == s.ts[u]; }
    }
  }

  lemma {:induction false} SpinKeeps(prog: seq<Round>, s: State, t: nat)
    requires Inv(prog, s) && t < |s.ts| && s.ts[t].pc.BarSpin?
    ensures Inv(prog, StepBarrier(s, t))
  {
    var s', th := StepBarrier(s, t), s.ts[t];
    assert ThreadOk(prog, s, th, t);
    if th.pc.p != s.phase {
      Rejoin(prog, s, t, s');
    }
  }

  lemma {:induction false} StepKeeps(prog: seq<Round>, s: State, t: nat)
    requires Inv(prog, s) && t < |s.ts|
    ensures Inv(prog, Step(prog, s, t))
  {
    match s.ts[t].pc
    case Start => StartKeeps(prog, s, t);
    case SingleReset(_) => ResetKeeps(prog, s, t);
    case SingleBody => BodyKeeps(prog, s, t);
    case BarLoad => LoadKeeps(prog, s, t);
    case BarAdd(_) => ArriveKeeps(prog, s, t);
    case BarReset(_) => BarResetKeeps(prog, s, t);
    case BarFlip(_) => FlipKeeps(prog, s, t);
    case BarSpin(_) => SpinKeeps(prog, s, t);
    case RaceReported =>
  }

  lemma {:induction false} Always(prog: seq<Round>, n: nat, sched: seq<nat>)
    requires n >= 1 && Schedule(n, sched)
    ensures Inv(prog, Exec(prog, Init(prog, n), sched))
    decreases |sched|
  {
    if sched != [] {
      Always(prog, n, sched[..|sched| - 1]);
      StepKeeps(prog, Exec(prog, Init(prog, n), sched[..|sched| - 1]), sched[|sched| - 1]);
    }
  }

  // ---- What the invariant means for callers ---------------------------------------------

  /** Thread `u` has arrived at the barrier of round `k`, or is past it. */
  predicate Reached(th: Thread, k: nat) {
    th.round > k || (th.round == k && HasArrived(th.pc))
  }

  /** Whoever is past the barrier of a round, everybody has arrived at it; the idle phase's
      counter is ready, and the race branch has not been taken. */
  ghost predicate BarrierHolds(s: State, n: nat) {
    && |s.nbar| == 2 && s.phase < 2 && s.nbar[1 - s.phase] == n && |s.ts| == n
    && (forall t: nat :: t < n ==> !s.ts[t].pc.RaceReported?)
    && (forall t: nat, u: nat, k: nat {:trigger Reached(s.ts[u], k), s.ts[t]} :: t < n && u < n && s.ts[t].round > k ==> Reached(s.ts[u], k))
  }

  /** Barrier safety, in every reachable state. */
  lemma {:induction false} BarrierSafe(prog: seq<Round>, n: nat, sched: seq<nat>)
    requires n >= 1 && Schedule(n, sched)
    ensures BarrierHolds(Exec(prog, Init(prog, n), sched), n)
  {
    Always(prog, n, sched);
    BarrierHoldsNow(prog, Exec(prog, Init(prog, n), sched));
  }

  lemma {:induction false} BarrierHoldsNow(prog: seq<Round>, s: State)
    requires Inv(prog, s)
    ensures BarrierHolds(s, |s.ts|)
  {
    forall t: nat, u: nat, k: nat | t < |s.ts| && u < |s.ts| && s.ts[t].round > k
      ensures Reached(s.ts[u], k)
    {
      assert ThreadOk(prog, s, s.ts[t], t) && ThreadOk(prog, s, s.ts[u], u);
    }
    forall t: nat | t < |s.ts|
      ensures !s.ts[t].pc.RaceReported?
    {
      assert ThreadOk(prog, s, s.ts[t], t);
    }
  }

  /** Thread `t` has work to do: it is not at the end, and not spinning on a phase that
      has not changed. */
  predicate CanMove(prog: seq<Round>, s: State, t: nat) {
    && t < |s.ts|
    && !(s.ts[t].pc.Start? && s.ts[t].round >= |prog|)
    && !(s.ts[t].pc.BarSpin? && s.ts[t].pc.p == s.phase)
  }

  /** No waiter misses a phase flip: whoever still spins in a round that is over can leave. */
  lemma {:induction false} NoMissedFlip(prog: seq<Round>, n: nat, sched: seq<nat>, t: nat, u: nat)
    requires n >= 1 && Schedule(n, sched) && t < n && u < n
    ensures var s := Exec(prog, Init(prog, n), sched);
      s.ts[t].round < s.ts[u].round ==> s.ts[u].round == s.ts[t].round + 1 && CanMove(prog, s, t)
  {
    var s := Exec(prog, Init(prog, n), sched);
    Always(prog, n, sched);
    assert ThreadOk(prog, s, s.ts[t], t) && ThreadOk(prog, s, s.ts[u], u);
  }

  /** While some thread is not at the end of the program, some thread can move. */
  lemma {:induction false} SomeoneMoves(prog: seq<Round>, n: nat, sched: seq<nat>)
    requires n >= 1 && Schedule(n, sched)
    ensures var s := Exec(prog, Init(prog, n), sched);
      (exists t: nat :: t < n && s.ts[t].round < |prog|) ==> exists t: nat :: CanMove(prog, s, t)
  {
    var s := Exec(prog, Init(prog, n), sched);
    Always(prog, n, sched);
    if t: nat :| t < n && s.ts[t].round < |prog| {
      if s.closer != -1 {
        assert ThreadOk(prog, s, s.ts[s.closer], s.closer);
        assert CanMove(prog, s, s.closer);
      } else {
        SizeOf(s.arrived, n);
        var u: nat := LateThread(s);
        assert ThreadOk(prog, s, s.ts[u], u) && ThreadOk(prog, s, s.ts[t], t);
        if CanMove(prog, s, u) {
        } else {
          assert CanMove(prog, s, t);
        }
      }
    }
  }

  /** A thread that has not arrived. */
  lemma {:induction false} LateThread(s: State) returns (u: nat)
    requires s.arrived <= All(|s.ts|) && |s.arrived| != |s.ts|
    ensures u < |s.ts| && u !in s.arrived
  {
    SizeOf(s.arrived, |s.ts|);
    assert exists v: nat :: v < |s.ts| && v !in s.arrived;
    u :| u < |s.ts| && u !in s.arrived;
  }

  /** How many moves a thread has left. */
  function Left(prog: seq<Round>, th: Thread): int {
    8 * (|prog| - th.round) -
      match th.pc
      case Start => 0
      case SingleReset(_) => 1
      case SingleBody => 2
      case BarLoad => 3
      case BarAdd(_) => 4
      case BarReset(_) => 5
      case BarFlip(_) => 6
      case BarSpin(_) => 6
      case RaceReported => 7
  }

  function AllLeft(prog: seq<Round>, ts: seq<Thread>): int {
    if ts == [] then 0 else Left(prog, ts[0]) + AllLeft(prog, ts[1..])
  }

  lemma {:induction false} LeftChanges(prog: seq<Round>, ts: seq<Thread>, t: nat, th: Thread)
    requires t < |ts|
    ensures AllLeft(prog, ts[t := th]) == AllLeft(prog, ts) - Left(prog, ts[t]) + Left(prog, th)
    decreases |ts|
  {
    if t == 0 {
      assert ts[t := th][1..] == ts[1..];
    } else {
      LeftChanges(prog, ts[1..], t - 1, th);
      assert ts[t := th][1..] == ts[1..][t - 1 := th];
    }
  }

  /** Termination: every move uses up one of the moves left, of which there are never
      fewer than none; with SomeoneMoves, all threads reach the end. */
  lemma {:induction false} MovesRunOut(prog: seq<Round>, n: nat, sched: seq<nat>, t: nat)
    requires n >= 1 && Schedule(n, sched) && t < n
    ensures var s := Exec(prog, Init(prog, n), sched);
      && AllLeft(prog, s.ts) >= 0
      && if CanMove(prog, s, t) then AllLeft(prog, Step(prog, s, t).ts) < AllLeft(prog, s.ts) else Step(prog, s, t) == s
  {
    var s := Exec(prog, Init(prog, n), sched);
    Always(prog, n, sched);
    forall u: nat | u < n
      ensures Left(prog, s.ts[u]) >= 0
    {
      assert ThreadOk(prog, s, s.ts[u], u);
    }
    LeftNonNegative(prog, s.ts);
    MoveUses(prog, s, t);
  }

  lemma {:induction false} MoveUses(prog: seq<Round>, s: State, t: nat)
    requires Inv(prog, s) && t < |s.ts|
    ensures if CanMove(prog, s, t) then AllLeft(prog, Step(prog, s, t).ts) < AllLeft(prog, s.ts) else Step(prog, s, t) == s
  {
    assert ThreadOk(prog, s, s.ts[t], t);
    if CanMove(prog, s, t) {
      MoveLeft(prog, s, t);
      LeftChanges(prog, s.ts, t, Step(prog, s, t).ts[t]);
    }
  }

  lemma {:induction false} MoveLeft(prog: seq<Round>, s: State, t: nat)
    requires CanMove(prog, s, t) && ThreadOk(prog, s, s.ts[t], t) && |s.nbar| == 2 && s.phase < 2 && |s.runs| == |prog|
    ensures |Step(prog, s, t).ts| == |s.ts|
    ensures Step(prog, s, t).ts == s.ts[t := Step(prog, s, t).ts[t]]
    ensures Left(prog, Step(prog, s, t).ts[t]) < Left(prog, s.ts[t])
  {}

  lemma {:induction false} LeftNonNegative(prog: seq<Round>, ts: seq<Thread>)
    requires forall u: nat :: u < |ts| ==> Left(prog, ts[u]) >= 0
    ensures AllLeft(prog, ts) >= 0
  {
    if ts != [] {
      LeftNonNegative(prog, ts[1..]);
    }
  }

  /** Single regions: in every reachable state the body of a region has been run at most
      once, and by exactly one thread once anybody is past the region's barrier. */
  lemma {:induction false} RunsOnce(prog: seq<Round>, n: nat, sched: seq<nat>, t: nat, k: nat)
    requires n >= 1 && Schedule(n, sched) && t < n && k < |prog|
    ensures var s := Exec(prog, Init(prog, n), sched);
      && |s.runs| == |prog|
      && |s.runs[k]| <= (if prog[k].Single? then 1 else 0)
      && (s.ts[t].round > k ==> |s.runs[k]| == if prog[k].Single? then 1 else 0)
  {
    var s := Exec(prog, Init(prog, n), sched);
    Always(prog, n, sched);
    assert ThreadOk(prog, s, s.ts[t], t);
    if s.flips == k && !prog[k].Single? {
      NobodyEntered(prog, s);
    }
  }

  /** The thread has yet to come to the single region of round `k`. */
  predicate YetToEnter(th: Thread, k: nat) {
    th.round < k || (th.round == k && th.pc.Start?)
  }

  /** A thread that comes to a single region goes on to run its body exactly if no other has
      come to it before. */
  lemma {:induction false} FirstRuns(prog: seq<Round>, n: nat, sched: seq<nat>, t: nat)
    requires n >= 1 && Schedule(n, sched) && t < n
    requires var th := Exec(prog, Init(prog, n), sched).ts[t]; th.pc.Start? && th.round < |prog| && prog[th.round].Single?
    ensures var s := Exec(prog, Init(prog, n), sched);
      Chosen(Step(prog, s, t).ts[t].pc) <==> forall u: nat {:trigger s.ts[u]} :: u < n ==> YetToEnter(s.ts[u], s.ts[t].round)
  {
    Always(prog, n, sched);
    FirstRunsNow(prog, Exec(prog, Init(prog, n), sched), t);
  }

  lemma {:induction false} FirstRunsNow(prog: seq<Round>, s: State, t: nat)
    requires Inv(prog, s) && t < |s.ts| && s.ts[t].pc.Start? && s.ts[t].round < |prog| && prog[s.ts[t].round].Single?
    ensures Chosen(Step(prog, s, t).ts[t].pc) <==> forall u: nat {:trigger s.ts[u]} :: u < |s.ts| ==> YetToEnter(s.ts[u], s.ts[t].round)
  {
    assert ThreadOk(prog, s, s.ts[t], t);
    SizeOf(s.entered, |s.ts|);
    assert s.single == |s.entered|;
    if s.entered != {} {
      var u :| u in s.entered;
      assert u < |s.ts| && ThreadOk(prog, s, s.ts[u], u) && !YetToEnter(s.ts[u], s.ts[t].round);
    }
    forall u: nat | u < |s.ts| && s.entered == {}
      ensures YetToEnter(s.ts[u], s.ts[t].round)
    {
      assert ThreadOk(prog, s, s.ts[u], u);
    }
  }

  lemma {:induction false} NobodyEntered(prog: seq<Round>, s: State)
    requires Inv(prog, s) && s.flips < |prog| && !prog[s.flips].Single?
    ensures s.entered == {}
  {
    forall u: nat | u < |s.ts|
      ensures u !in s.entered
    {
      assert ThreadOk(prog, s, s.ts[u], u);
    }
    NoneBelow(s.entered, |s.ts|);
  }

  // ---- The barrier as one guarded step ----------------------------------------------------

  /** Only threads that wait at the barrier of round `k` take steps. */
  predicate WaitersOnly(s: State, k: nat, more: seq<nat>) {
    forall j {:trigger more[j]} :: 0 <= j < |more| ==>
      more[j] < |s.ts| && s.ts[more[j]].round == k && HasArrived(s.ts[more[j]].pc)
  }

  /** Without a step of those still to come, thread `t` gets past the barrier of round `k`. */
  ghost predicate Leaves(prog: seq<Round>, s: State, t: nat, k: nat, more: seq<nat>)
    requires t < |s.ts|
  {
    WaitersOnly(s, k, more) && Schedule(|s.ts|, more) && Exec(prog, s, more).ts[t].round > k
  }

  ghost predicate AllReached(s: State, k: nat) {
    forall u: nat {:trigger s.ts[u]} :: u < |s.ts| ==> Reached(s.ts[u], k)
  }

  /** In every reachable state, a thread that waits at a barrier can leave it, by steps of
      those that wait there, exactly when every thread has arrived. */
  lemma {:induction false} LeavesExactly(prog: seq<Round>, n: nat, sched: seq<nat>, t: nat)
    requires n >= 1 && Schedule(n, sched) && t < n && HasArrived(Exec(prog, Init(prog, n), sched).ts[t].pc)
    ensures var s := Exec(prog, Init(prog, n), sched);
      var k := s.ts[t].round;
      (exists more: seq<nat> :: Leaves(prog, s, t, k, more)) <==> AllReached(s, k)
  {
    var s := Exec(prog, Init(prog, n), sched);
    Always(prog, n, sched);
    var k := s.ts[t].round;
    if more: seq<nat> :| Leaves(prog, s, t, k, more) {
      forall u: nat | u < |s.ts|
        ensures Reached(s.ts[u], k)
      {
        LeftBehind(prog, s, more, t, u, k);
      }
    }
    if AllReached(s, k) {
      var more := LetsLeave(prog, s, t);
    }
  }

  lemma {:induction false} LeftBehind(prog: seq<Round>, s: State, more: seq<nat>, t: nat, u: nat, k: nat)
    requires Inv(prog, s) && t < |s.ts| && u < |s.ts| && Leaves(prog, s, t, k, more)
    ensures Reached(s.ts[u], k)
  {
    if !Reached(s.ts[u], k) {
      StandsStill(prog, s, more, u, k);
      BarrierHoldsNow(prog, Exec(prog, s, more));
    }
  }

  lemma {:induction false} StandsStill(prog: seq<Round>, s: State, more: seq<nat>, u: nat, k: nat)
    requires Inv(prog, s) && Schedule(|s.ts|, more) && WaitersOnly(s, k, more) && u < |s.ts| && !Reached(s.ts[u], k)
    ensures Inv(prog, Exec(prog, s, more)) && Exec(prog, s, more).ts[u] == s.ts[u]
    decreases |more|
  {
    if more != [] {
      var j := |more| - 1;
      StandsStill(prog, s, more[..j], u, k);
      StepKeeps(prog, Exec(prog, s, more[..j]), more[j]);
      OthersStand(prog, Exec(prog, s, more[..j]), more[j], u);
    }
  }

  lemma {:induction false} OthersStand(prog: seq<Round>, s: State, t: nat, u: nat)
    requires t < |s.ts| && u < |s.ts| && u != t
    ensures |Step(prog, s, t).ts| == |s.ts| && Step(prog, s, t).ts[u] == s.ts[u]
  {}

  lemma {:induction false} ExecNext(prog: seq<Round>, s: State, more: seq<nat>, t: nat)
    requires Schedule(|s.ts|, more) && t < |s.ts|
    ensures Schedule(|s.ts|, more + [t]) && Exec(prog, s, more + [t]) == Step(prog, Exec(prog, s, more), t)
  {
    assert (more + [t])[..|more + [t]| - 1] == more;
  }

  /** The last thread to arrive resets the counter and flips the phase. */
  lemma {:induction false} Closes(prog: seq<Round>, s: State) returns (more: seq<nat>)
    requires Inv(prog, s) && s.closer != -1
    ensures WaitersOnly(s, s.flips, more) && Schedule(|s.ts|, more)
    ensures Exec(prog, s, more).ts == s.ts[s.closer := Thread(s.flips + 1, Start)]
    ensures Exec(prog, s, more).phase == if s.phase == 0 then 1 else 0
  {
    var c := s.closer;
    ClosedThread(prog, s, c);
    assert ThreadOk(prog, s, s.ts[c], c);
    more := Flips(prog, s, c);
  }

  lemma {:induction false} Flips(prog: seq<Round>, s: State, c: nat) returns (more: seq<nat>)
    requires c < |s.ts| && (s.ts[c].pc.BarReset? || s.ts[c].pc.BarFlip?) && s.ts[c].pc.p == s.phase < |s.nbar|
    ensures Schedule(|s.ts|, more) && forall j {:trigger more[j]} :: 0 <= j < |more| ==> more[j] == c
    ensures Exec(prog, s, more).ts == s.ts[c := Thread(s.ts[c].round + 1, Start)]
    ensures Exec(prog, s, more).phase == if s.phase == 0 then 1 else 0
  {
    var first := Resets(prog, s, c);
    ExecNext(prog, s, first, c);
    more := first + [c];
  }

  lemma {:induction false} Resets(prog: seq<Round>, s: State, c: nat) returns (more: seq<nat>)
    requires c < |s.ts| && (s.ts[c].pc.BarReset? || s.ts[c].pc.BarFlip?) && s.ts[c].pc.p < |s.nbar|
    ensures Schedule(|s.ts|, more) && forall j :: 0 <= j < |more| ==> more[j] == c
    ensures var s' := Exec(prog, s, more);
      s'.ts == s.ts[c := s'.ts[c]] && s'.ts[c] == Thread(s.ts[c].round, BarFlip(s.ts[c].pc.p)) && s'.phase == s.phase
  {
    more := [];
    assert Exec(prog, s, []) == s;
    if s.ts[c].pc.BarReset? {
      ExecNext(prog, s, [], c);
      more := [] + [c];
    }
  }

  lemma {:induction false} LetsLeave(prog: seq<Round>, s: State, t: nat) returns (more: seq<nat>)
    requires Inv(prog, s) && t < |s.ts| && HasArrived(s.ts[t].pc) && AllReached(s, s.ts[t].round)
    ensures Leaves(prog, s, t, s.ts[t].round, more)
  {
    assert ThreadOk(prog, s, s.ts[t], t);
    if s.ts[t].round < s.flips {
      more := LeavesLate(prog, s, t);
    } else {
      AllArrived(prog, s);
      more := LeavesLast(prog, s, t);
    }
  }

  lemma {:induction false} LeavesLate(prog: seq<Round>, s: State, t: nat) returns (more: seq<nat>)
    requires t < |s.ts| && s.ts[t].pc.BarSpin? && s.phase != s.ts[t].pc.p
    ensures Leaves(prog, s, t, s.ts[t].round, more)
  {
    assert Exec(prog, s, []) == s;
    SpinLeaves(prog, s, t, s.ts[t].pc.p);
    ExecNext(prog, s, [], t);
    more := [] + [t];
  }

  lemma {:induction false} LeavesLast(prog: seq<Round>, s: State, t: nat) returns (more: seq<nat>)
    requires Inv(prog, s) && t < |s.ts| && s.ts[t].round == s.flips && HasArrived(s.ts[t].pc) && s.closer != -1
    ensures Leaves(prog, s, t, s.flips, more)
  {
    assert ThreadOk(prog, s, s.ts[t], t);
    more := Closes(prog, s);
    if t != s.closer {
      assert s.ts[t].pc == BarSpin(s.phase);
      SpinLeaves(prog, Exec(prog, s, more), t, s.phase);
      ExecNext(prog, s, more, t);
      more := more + [t];
    }
  }

  lemma {:induction false} SpinLeaves(prog: seq<Round>, s: State, t: nat, p: nat)
    requires t < |s.ts| && s.ts[t].pc == BarSpin(p) && s.phase != p
    ensures |Step(prog, s, t).ts| == |s.ts| && Step(prog, s, t).ts[t].round == s.ts[t].round + 1
  {}

  lemma {:induction false} AllArrived(prog: seq<Round>, s: State)
    requires Inv(prog, s) && AllReached(s, s.flips)
    ensures s.closer != -1
  {
    forall u: nat | u < |s.ts|
      ensures u in s.arrived
    {
      assert ThreadOk(prog, s, s.ts[u], u);
    }
    assert s.arrived == All(|s.ts|);
  }
}
