/** Any number of threads running full/empty, readers-writer and read-modify-write
    primitives on one element of an unmapped array.  Every load, store and compare and
    swap of the tag byte, and every load and store of the data word, is one step, and
    threads interleave freely.  A thread that works on another element is idle here.

    A text is in a block of the heap.  A read takes the block's address while it owns the
    element, and the text is copied from there after the tag has been given back.

    Auxiliary parts of the state (`owner`, `abs`, `log`, `logged`) record what happened
    and do not influence any step. */
module TagCell {
  import opened Tags

  /** The primitives that honour the tags. */
  datatype Op =
    | ReadFE
    | ReadFF
    | ReadRW
    | ReleaseRW
    | WriteEF(v: Val)
    | Faa(arg: Val)
    | Cas(cmp: Val, val: Val)

  /** A completed primitive with what it returned. */
  datatype Event = Event(op: Op, ret: Val)

  datatype Pc =
    | Idle
    // Reading: load the tag, swap in BUSY, read the data, store the final tag.
    | ReadLoad(initial: Fe, final: Fe, stale: nat)
    | ReadSwap(initial: Fe, final: Fe, mem: Tag)
    | ReadData(initial: Fe, final: Fe, held: Tag)
    | ReadStore(initial: Fe, final: Fe, held: Tag, got: Val, ptr: nat)
    // Copying a text out of the heap.  What was read, and where the log has it, are records.
    | Copy(op: Op, ptr: nat, got: Val, place: nat)
    // Waiting for a state and swapping in BUSY, for the other primitives.
    | MoveLoad(op: Op)
    | MoveSwap(op: Op, mem: Tag)
    // Writing.
    | WriteLoad(v: Val)
    | WriteData(v: Val, mem: Tag)
    | WriteCheck(v: Val, mem: Tag)
    | WriteStore(v: Val, mem: Tag)
    // Fetch and add.
    | FaaRead(arg: Val, tag: Tag)
    | FaaWrite(arg: Val, tag: Tag, got: Val)
    | FaaStore(arg: Val, tag: Tag, got: Val)
    // Compare and swap.
    | CasType(cmp: Val, val: Val)
    | CasRead(cmp: Val, val: Val, typ: Type)
    | CasWrite(cmp: Val, val: Val, typ: Type, got: Val)
    | CasStore(cmp: Val, val: Val, typ: Type, got: Val)
    // Releasing a reader's hold.
    | ReleaseLoad
    | ReleaseSwap(mem: Tag)
    // A fetch and add that has met JSON has returned with an error and left the element BUSY.
    | Stuck(arg: Val)
    // One of the other error exits of the primitives.
    | Failed

  /** `done` is what the thread's callers were given, `logged` what the tag protocol gave. */
  datatype Thread = Thread(pc: Pc, holds: nat, done: seq<Event>, logged: seq<Event>)

  /** The element as callers think of it. */
  datatype Abs = AFull(v: Val) | AEmpty | AShared(readers: nat, v: Val)

  /** The element, with the text of its block for a word that is text; the address of that
      block, while the element owns one; and what is in the heap at other addresses. */
  datatype State = State(
    tag: Tag, word: Val, at: nat, live: bool, bytes: map<nat, string>, ts: seq<Thread>,
    owner: int, abs: Abs, log: seq<(nat, Event)>)

  /** What a scheduler picks when it runs a thread: the primitive an idle thread starts, the
      arbitrary content of its uninitialised variable, and the address the allocator gives;
      or an idle thread works on another element, and its text ends up at some address. */
  datatype Choice = Choice(op: Op, stale: nat, at: nat) | Elsewhere(at: nat, text: string)

  /** A value that has a type. */
  predicate Plain(v: Val) {
    !v.VInvalid?
  }

  predicate PlainOp(op: Op) {
    match op
    case WriteEF(v) => Plain(v)
    case Faa(a) => Plain(a)
    case Cas(o, n) => Plain(n)
    case _ => true
  }

  // ---- Fetch and add ---------------------------------------------------------

  /** Numbers and booleans as reals. */
  function Num(v: Val): real
    requires v.VInt? || v.VFloat? || v.VBool?
  {
    match v
    case VInt(i) => i as real
    case VFloat(r) => r
    case VBool(b) => if b then 1.0 else 0.0
  }

  function Bit(b: bool): int {
    if b then 1 else 0
  }

  const MAX_INT: int := 0x4000_0000

  /** The word stored by a fetch and add and the type it is stored under, by the types of
      the value in memory and of the argument. `fmt` is the text of a number. */
  function FaaResult(fmt: Val -> string, a: Val, arg: Val): (Type, Val) {
    match a
    case VBool(b) =>
      (match arg
       case VInt(i) => (Integer, VInt(Bit(b) + i))
       case VBool(c) => (Integer, VInt(Bit(b) + Bit(c)))
       case VFloat(r) => (Float, VFloat(Num(a) + r))
       case VStr(s) => (String, VStr((if b then "true" else "false") + s))
       case _ => (Float, VNaN))
    case VInt(j) =>
      (match arg
       case VInt(i) => if j + i >= MAX_INT then (Float, VFloat((j + i) as real)) else (Integer, VInt(j + i))
       case VBool(c) => (Integer, VInt(j + Bit(c)))
       case VFloat(r) => (Float, VFloat(Num(a) + r))
       case VStr(s) => (String, VStr(fmt(a) + s))
       case _ => (Float, VNaN))
    case VFloat(x) =>
      (match arg
       case VInt(i) => (Float, VFloat(x + Num(arg)))
       case VBool(c) => (Float, VFloat(x + Num(arg)))
       case VFloat(r) => (Float, VFloat(x + r))
       case VStr(s) => (String, VStr(fmt(a) + s))
       case _ => (Float, VNaN))
    case VNaN =>
      (match arg
       case VStr(s) => (String, VStr(fmt(a) + s))
       case _ => (Float, VNaN))
    case VStr(t) =>
      (match arg
       case VStr(s) => (String, VStr(t + s))
       case VBool(c) => (String, VStr(t + (if c then "true" else "false")))
       case VUndefined => (String, VStr(t + "undefined"))
       case _ => (String, VStr(t + fmt(arg))))
    case _ =>
      (match arg
       case VStr(s) => (Undefined, VStr("NaN" + s))
       case _ => (Float, VNaN))
  }

  function Add(fmt: Val -> string, a: Val, arg: Val): Val {
    var (typ, word) := FaaResult(fmt, a, arg);
    Decode(typ, word)
  }

  // ---- The abstract element --------------------------------------------------

  datatype Option<T> = None | Some(value: T)

  /** The abstract element after one completed primitive, if that primitive is legal there
      and returns what it does. */
  function AbsStep(fmt: Val -> string, a: Abs, e: Event): Option<Abs> {
    match e.op
    case ReadFE => if a == AFull(e.ret) then Some(AEmpty) else None
    case ReadFF => if a == AFull(e.ret) then Some(a) else None
    case ReadRW =>
      if a == AFull(e.ret) then Some(AShared(1, e.ret))
      else if a.AShared? && a.v == e.ret && a.readers < MAX_READERS then Some(AShared(a.readers + 1, a.v))
      else None
    case ReleaseRW =>
      if a.AShared? && a.readers >= 1 && e.ret == VInt(a.readers - 1) then
        Some(if a.readers == 1 then AFull(a.v) else AShared(a.readers - 1, a.v))
      else None
    case WriteEF(v) => if a == AEmpty && e.ret == VUndefined then Some(AFull(v)) else None
    case Faa(arg) => if a == AFull(e.ret) && !e.ret.VJson? && !arg.VJson? then Some(AFull(Add(fmt, e.ret, arg))) else None
    case Cas(o, n) => if a == AFull(e.ret) then Some(if e.ret == o then AFull(n) else a) else None
  }

  /** Where a sequential history leads from `a`, if it is legal. */
  function Replay(fmt: Val -> string, a: Abs, log: seq<(nat, Event)>): Option<Abs>
    decreases |log|
  {
    if log == [] then Some(a)
    else
      var b := Replay(fmt, a, log[..|log| - 1]);
      if b.Some? then AbsStep(fmt, b.value, log[|log| - 1].1) else None
  }

  /** The operations of one thread, in the order of the history. */
  ghost function Proj(log: seq<(nat, Event)>, t: nat): seq<Event> {
    if log == [] then []
    else Proj(log[..|log| - 1], t) + if log[|log| - 1].0 == t then [log[|log| - 1].1] else []
  }

  // ---- Steps -----------------------------------------------------------------

  function SetPc(s: State, t: nat, pc: Pc): (r: State)
    requires t < |s.ts|
    ensures |r.ts| == |s.ts|
  {
    s.(ts := s.ts[t := s.ts[t].(pc := pc)])
  }

  /** Thread `t` ends its primitive: the abstract element changes here. */
  function Finish(s: State, t: nat, e: Event, holds: nat, a': Abs): (r: State)
    requires t < |s.ts|
    ensures |r.ts| == |s.ts|
  {
    s.(ts := s.ts[t := Thread(Idle, holds, s.ts[t].done + [e], s.ts[t].logged + [e])], abs := a', log := s.log + [(t, e)])
  }

  /** The same, when the text that was read is still to be copied. */
  function FinishText(s: State, t: nat, e: Event, ptr: nat, holds: nat, a': Abs): (r: State)
    requires t < |s.ts|
    ensures |r.ts| == |s.ts|
  {
    s.(ts := s.ts[t := Thread(Copy(e.op, ptr, e.ret, |s.log|), holds, s.ts[t].done, s.ts[t].logged + [e])], abs := a', log := s.log + [(t, e)])
  }

  // The heap.

  function TextOf(v: Val): string {
    if HasText(v) then v.s else ""
  }

  /** What is at an address now. */
  function TextAt(s: State, ptr: nat): string {
    if s.live && s.at == ptr then TextOf(s.word) else if ptr in s.bytes then s.bytes[ptr] else ""
  }

  /** The block of a text is given back; its bytes stay until somebody writes there. */
  function FreeText(s: State): State {
    if IsText(s.tag.typ) && s.live then s.(bytes := s.bytes[s.at := TextOf(s.word)], live := false) else s
  }

  /** The allocator never gives an address that is in use. */
  function Fresh(s: State, at: nat): nat {
    if s.live && at == s.at then at + 1 else at
  }

  /** A value is stored, in a block at `at` if it is a text. */
  function PutWord(s: State, v: Val, at: nat): State {
    s.(word := v, at := if HasText(v) then at else s.at, live := HasText(v))
  }

  /** Another element's text is stored, not where this element's is. */
  function StepElsewhere(s: State, at: nat, text: string): State {
    if s.live && s.at == at then s else s.(bytes := s.bytes[at := text])
  }

  function ReadOp(initial: Fe, final: Fe): Op {
    if initial == RwLock then ReadRW else if final == Full then ReadFF else ReadFE
  }

  /** An idle thread starts a primitive.  Only a thread with a hold releases one. */
  function Start(s: State, t: nat, c: Choice): (r: State)
    requires t < |s.ts| && c.Choice?
    ensures |r.ts| == |s.ts|
  {
    match c.op
    case ReadFE => SetPc(s, t, ReadLoad(Full, Empty, c.stale))
    case ReadFF => SetPc(s, t, ReadLoad(Full, Full, c.stale))
    case ReadRW => SetPc(s, t, ReadLoad(RwLock, RwLock, c.stale))
    case ReleaseRW => if s.ts[t].holds > 0 then SetPc(s, t, ReleaseLoad) else s
    case _ => if PlainOp(c.op) then SetPc(s, t, MoveLoad(c.op)) else s
  }

  /** The steps of EMSreadUsingTags. */
  function StepRead(s: State, t: nat): (r: State)
    requires t < |s.ts|
    ensures |r.ts| == |s.ts|
  {
    var th := s.ts[t];
    match th.pc
    case ReadLoad(initial, final, stale) =>
      if ReadReady(initial, s.tag, stale) then SetPc(s, t, ReadSwap(initial, final, s.tag)) else s
    case ReadSwap(initial, final, mem) =>
      if s.tag == ReadOld(initial, mem) then
        SetPc(s.(tag := ReadBusy(initial, mem), owner := t), t, ReadData(initial, final, ReadBusy(initial, mem)))
      else
        SetPc(s, t, ReadLoad(initial, final, ReadBusy(initial, mem).rw))
    case ReadData(initial, final, held) =>
      SetPc(s, t, ReadStore(initial, final, held.(fe := final), Decode(held.typ, s.word), s.at))
    case ReadStore(initial, final, held, got, ptr) =>
      var s', e := s.(tag := held, owner := -1), Event(ReadOp(initial, final), got);
      var holds := if initial == RwLock then th.holds + 1 else th.holds;
      var a' := if initial == RwLock then AShared(held.rw, got) else if final == Full then AFull(got) else AEmpty;
      if HasText(got) then FinishText(s', t, e, ptr, holds, a') else Finish(s', t, e, holds, a')
    case _ => s
  }

  /** A text of the type of `got`. */
  function Retext(got: Val, text: string): Val {
    if got.VJson? then VJson(text) else VStr(text)
  }

  /** The caller copies the text from the address it was given, with its type. */
  function StepCopy(s: State, t: nat): (r: State)
    requires t < |s.ts|
    ensures |r.ts| == |s.ts|
  {
    var th := s.ts[t];
    match th.pc
    case Copy(op, ptr, got, _) =>
      s.(ts := s.ts[t := th.(pc := Idle, done := th.done + [Event(op, Retext(got, TextAt(s, ptr)))])])
    case _ => s
  }

  function MoveFrom(op: Op): Fe {
    if op.WriteEF? then Empty else Full
  }

  /** The steps of EMStransitionFEtag, from the state the primitive waits for to BUSY. */
  function StepMove(s: State, t: nat): (r: State)
    requires t < |s.ts|
    ensures |r.ts| == |s.ts|
  {
    match s.ts[t].pc
    case MoveLoad(op) => SetPc(s, t, MoveSwap(op, s.tag))
    case MoveSwap(op, mem) =>
      if s.tag == mem.(fe := MoveFrom(op)) then
        var s' := s.(tag := mem.(fe := Busy), owner := t);
        match op
        case WriteEF(v) => SetPc(s', t, WriteLoad(v))
        case Faa(arg) => SetPc(s', t, FaaRead(arg, mem.(fe := Full)))
        case Cas(o, n) => SetPc(s', t, CasType(o, n))
        case _ => s
      else
        SetPc(s, t, MoveLoad(op))
    case _ => s
  }

  /** The steps of EMSwriteUsingTags once it has the element BUSY. */
  function StepWrite(s: State, t: nat, at: nat): (r: State)
    requires t < |s.ts|
    ensures |r.ts| == |s.ts|
  {
    match s.ts[t].pc
    case WriteLoad(v) => SetPc(FreeText(s), t, WriteData(v, s.tag))
    case WriteData(v, mem) => SetPc(PutWord(s, v, Fresh(s, at)), t, WriteCheck(v, mem.(fe := Busy)))
    case WriteCheck(v, mem) => SetPc(s, t, if s.tag != mem then Failed else WriteStore(v, mem))
    case WriteStore(v, mem) =>
      Finish(s.(tag := Tag(Full, TypeOf(v), 0), owner := -1), t, Event(WriteEF(v), VUndefined), s.ts[t].holds, AFull(v))
    case _ => s
  }

  /** The steps of EMSfaa once it has the element BUSY. */
  function StepFaa(fmt: Val -> string, s: State, t: nat, at: nat): (r: State)
    requires t < |s.ts|
    ensures |r.ts| == |s.ts|
  {
    match s.ts[t].pc
    case FaaRead(arg, tag) =>
      SetPc(s, t, if tag.typ == Invalid then Failed
                  else if tag.typ == Json || arg.VJson? then Stuck(arg)
                  else FaaWrite(arg, tag, Decode(tag.typ, s.word)))
    case FaaWrite(arg, tag, got) =>
      var (typ, word) := FaaResult(fmt, got, arg);
      SetPc(PutWord(FreeText(s), word, Fresh(s, at)), t, FaaStore(arg, tag.(typ := typ), got))
    case FaaStore(arg, tag, got) =>
      Finish(s.(tag := tag, owner := -1), t, Event(Faa(arg), got), s.ts[t].holds, AFull(Add(fmt, got, arg)))
    case _ => s
  }

  /** The steps of EMScas once it has the element BUSY. */
  function StepCas(s: State, t: nat, at: nat): (r: State)
    requires t < |s.ts|
    ensures |r.ts| == |s.ts|
  {
    match s.ts[t].pc
    case CasType(o, n) => SetPc(s, t, CasRead(o, n, s.tag.typ))
    case CasRead(o, n, typ) => SetPc(s, t, CasWrite(o, n, typ, Decode(typ, s.word)))
    case CasWrite(o, n, typ, got) =>
      if TypeOf(o) == typ && got == o then
        SetPc(PutWord(FreeText(s), n, Fresh(FreeText(s), at)), t, CasStore(o, n, TypeOf(n), got))
      else
        SetPc(s, t, CasStore(o, n, typ, got))
    case CasStore(o, n, typ, got) =>
      Finish(s.(tag := Tag(Full, typ, 0), owner := -1), t, Event(Cas(o, n), got), s.ts[t].holds,
             if got == o then AFull(n) else AFull(got))
    case _ => s
  }

  /** The steps of EMSreleaseRW.  The swap needs no more than the tag it has loaded; that the
      count is positive then, and that the thread has a hold, is so in every reachable state
      (LocalOk), and is written here only to make the step a total function. */
  function StepRelease(s: State, t: nat): (r: State)
    requires t < |s.ts|
    ensures |r.ts| == |s.ts|
  {
    var th := s.ts[t];
    match th.pc
    case ReleaseLoad =>
      if s.tag.fe == RwLock then
        SetPc(s, t, if s.tag.rw == 0 then Failed else ReleaseSwap(s.tag))
      else if s.tag.fe != Busy then SetPc(s, t, Failed)
      else s
    case ReleaseSwap(mem) =>
      if s.tag == mem && mem.rw > 0 && th.holds > 0 then
        var held := Released(mem);
        Finish(s.(tag := held), t, Event(ReleaseRW, VInt(held.rw)), th.holds - 1,
               if held.rw == 0 then AFull(Decode(mem.typ, s.word)) else AShared(held.rw, Decode(mem.typ, s.word)))
      else
        SetPc(s, t, ReleaseLoad)
    case _ => s
  }

  predicate InRead(pc: Pc) {
    pc.ReadLoad? || pc.ReadSwap? || pc.ReadData? || pc.ReadStore?
  }

  predicate InMove(pc: Pc) {
    pc.MoveLoad? || pc.MoveSwap?
  }

  predicate InWrite(pc: Pc) {
    pc.WriteLoad? || pc.WriteData? || pc.WriteCheck? || pc.WriteStore?
  }

  predicate InFaa(pc: Pc) {
    pc.FaaRead? || pc.FaaWrite? || pc.FaaStore?
  }

  predicate InCas(pc: Pc) {
    pc.CasType? || pc.CasRead? || pc.CasWrite? || pc.CasStore?
  }

  function Step(fmt: Val -> string, s: State, t: nat, c: Choice): (r: State)
    requires t < |s.ts|
    ensures |r.ts| == |s.ts|
  {
    var pc := s.ts[t].pc;
    if pc.Idle? then (if c.Choice? then Start(s, t, c) else StepElsewhere(s, c.at, c.text))
    else if pc.Stuck? then (if c.Choice? then s else StepElsewhere(s, c.at, c.text))
    else if InRead(pc) then StepRead(s, t)
    else if pc.Copy? then StepCopy(s, t)
    else if InMove(pc) then StepMove(s, t)
    else if InWrite(pc) then StepWrite(s, t, c.at)
    else if InFaa(pc) then StepFaa(fmt, s, t, c.at)
    else if InCas(pc) then StepCas(s, t, c.at)
    else StepRelease(s, t)
  }

  /** A schedule of `n` threads: who runs at each step, and what it starts if it is idle. */
  predicate Schedule(n: nat, sched: seq<(nat, Choice)>) {
    forall k :: 0 <= k < |sched| ==> sched[k].0 < n
  }

  function Exec(fmt: Val -> string, s: State, sched: seq<(nat, Choice)>): (r: State)
    requires Schedule(|s.ts|, sched)
    ensures |r.ts| == |s.ts|
    decreases |sched|
  {
    if sched == [] then s
    else
      var k := |sched| - 1;
      var r := Exec(fmt, s, sched[..k]);
      Step(fmt, r, sched[k].0, sched[k].1)
  }

  /** `n` idle threads and an element that is full of `v`, or empty. */
  function Init(n: nat, full: bool, v: Val): State {
    State(Tag(if full then Full else Empty, TypeOf(v), 0), v, 0, HasText(v), map[], seq(n, _ => Thread(Idle, 0, [], [])),
          -1, if full then AFull(v) else AEmpty, [])
  }

  // ---- The invariant ---------------------------------------------------------

  function Holds(ts: seq<Thread>): nat {
    if |ts| == 0 then 0 else ts[0].holds + Holds(ts[1..])
  }

  lemma {:induction false} HoldsUpdate(ts: seq<Thread>, t: nat, th: Thread)
    requires t < |ts|
    ensures Holds(ts[t := th]) == Holds(ts) - ts[t].holds + th.holds
    ensures ts[t].holds <= Holds(ts)
    decreases |ts|
  {
    if t == 0 {
      assert ts[t := th][1..] == ts[1..];
    } else {
      HoldsUpdate(ts[1..], t - 1, th);
      assert ts[t := th][1..] == ts[1..][t - 1 := th];
    }
  }

  /** Does a thread here own the BUSY tag? */
  predicate Owns(pc: Pc) {
    pc.ReadData? || pc.ReadStore? || InWrite(pc) || InFaa(pc) || InCas(pc) || pc.Stuck?
  }

  function Readers(a: Abs): nat {
    if a.AShared? then a.readers else 0
  }

  function Content(s: State): Val {
    Decode(s.tag.typ, s.word)
  }

  predicate ReadKind(initial: Fe, final: Fe) {
    (initial == Full && final in {Full, Empty}) || (initial == RwLock && final == RwLock)
  }

  /** A reader of the given kind owns BUSY. */
  predicate Reading(s: State, initial: Fe) {
    && Plain(Content(s))
    && if initial == RwLock then
         1 <= s.tag.rw <= MAX_READERS && s.abs == if s.tag.rw == 1 then AFull(Content(s)) else AShared(s.tag.rw - 1, Content(s))
       else
         s.tag.rw == 0 && s.abs == AFull(Content(s))
  }

  /** What holds of the element while the thread at `pc` owns it. */
  ghost predicate OwnerOk(fmt: Val -> string, s: State, pc: Pc) {
    match pc
    case ReadData(initial, final, held) => held == s.tag && Reading(s, initial)
    case ReadStore(initial, final, held, got, _) => held == s.tag.(fe := final) && got == Content(s) && Reading(s, initial)
    case WriteLoad(v) => Plain(v) && s.tag.rw == 0 && s.abs == AEmpty
    case WriteData(v, mem) => Plain(v) && mem == s.tag && s.tag.rw == 0 && s.abs == AEmpty
    case WriteCheck(v, mem) => Plain(v) && mem == s.tag && s.word == v && s.tag.rw == 0 && s.abs == AEmpty
    case WriteStore(v, mem) => Plain(v) && mem == s.tag && s.word == v && s.tag.rw == 0 && s.abs == AEmpty
    case FaaRead(arg, tag) => Plain(arg) && tag == s.tag.(fe := Full) && Reading(s, Full)
    case Stuck(arg) => Plain(arg) && Reading(s, Full) && (arg.VJson? || Content(s).VJson?)
    case FaaWrite(arg, tag, got) =>
      && Plain(arg) && tag == s.tag.(fe := Full) && got == Content(s) && Reading(s, Full) && !got.VJson? && !arg.VJson?
    case FaaStore(arg, tag, got) =>
      && Plain(arg) && tag.fe == Full && tag.rw == 0 && s.tag.rw == 0 && s.abs == AFull(got) && Plain(got) && !got.VJson? && !arg.VJson?
      && Decode(tag.typ, s.word) == Add(fmt, got, arg)
    case CasType(o, n) => Plain(n) && Reading(s, Full)
    case CasRead(o, n, typ) => Plain(n) && typ == s.tag.typ && Reading(s, Full)
    case CasWrite(o, n, typ, got) => Plain(n) && typ == s.tag.typ && got == Content(s) && Reading(s, Full)
    case CasStore(o, n, typ, got) =>
      && Plain(n) && Plain(got) && s.tag.rw == 0 && s.abs == AFull(got)
      && Decode(typ, s.word) == if got == o then n else got
    case _ => true
  }

  /** What holds of a thread that does not own the element, whatever others do. */
  predicate LocalOk(th: Thread) {
    match th.pc
    case ReadLoad(initial, final, _) => ReadKind(initial, final)
    case ReadSwap(initial, final, mem) => ReadKind(initial, final) && ReadReady(initial, mem, 0)
    case ReadData(initial, final, _) => ReadKind(initial, final)
    case ReadStore(initial, final, _, _, _) => ReadKind(initial, final)
    case Copy(op, _, got, _) => HasText(got) && (op.ReadFE? || op.ReadFF? || (op.ReadRW? && th.holds > 0))
    case MoveLoad(op) => PlainOp(op) && (op.WriteEF? || op.Faa? || op.Cas?)
    case MoveSwap(op, _) => PlainOp(op) && (op.WriteEF? || op.Faa? || op.Cas?)
    case ReleaseLoad => th.holds > 0
    case ReleaseSwap(mem) => th.holds > 0 && mem.fe == RwLock && mem.rw > 0
    case Failed => false
    case _ => true
  }

  /** What holds of an element that nobody owns. */
  predicate AtRest(s: State) {
    match s.tag.fe
    case Full => s.tag.rw == 0 && Plain(Content(s)) && s.abs == AFull(Content(s))
    case Empty => s.tag.rw == 0 && s.abs == AEmpty
    case RwLock => 1 <= s.tag.rw <= MAX_READERS && Plain(Content(s)) && s.abs == AShared(s.tag.rw, Content(s))
    case Busy => false
  }

  ghost predicate Inv(fmt: Val -> string, s: State) {
    && -1 <= s.owner < |s.ts|
    && (forall i :: 0 <= i < |s.ts| ==> LocalOk(s.ts[i]) && (Owns(s.ts[i].pc) <==> i == s.owner))
    && (s.owner == -1 ==> AtRest(s))
    && (s.owner != -1 ==> s.tag.fe == Busy && OwnerOk(fmt, s, s.ts[s.owner].pc))
    && Holds(s.ts) == Readers(s.abs)
  }

  lemma {:induction false} InitHolds(n: nat)
    ensures Holds(seq(n, _ => Thread(Idle, 0, [], []))) == 0
  {
    if n > 0 {
      InitHolds(n - 1);
      assert seq(n, _ => Thread(Idle, 0, [], []))[1..] == seq(n - 1, _ => Thread(Idle, 0, [], []));
    }
  }

  lemma {:induction false} InitInv(fmt: Val -> string, n: nat, full: bool, v: Val)
    requires Plain(v)
    ensures Inv(fmt, Init(n, full, v))
  {
    InitHolds(n);
    DecodeOwnType(v);
  }

  /** Every step either leaves the log and the abstract element alone, or completes one
      primitive, whose event is a legal step of the abstract element. */
  ghost predicate Linear(fmt: Val -> string, s: State, t: nat, s': State) {
    && |s'.ts| == |s.ts| && t < |s.ts|
    && (forall i :: 0 <= i < |s.ts| && i != t ==> s'.ts[i].logged == s.ts[i].logged)
    && if s'.log == s.log then s'.abs == s.abs && s'.ts[t].logged == s.ts[t].logged
       else
         && |s'.ts[t].logged| > 0
         && var e := s'.ts[t].logged[|s'.ts[t].logged| - 1];
            s'.log == s.log + [(t, e)] && s'.ts[t].logged == s.ts[t].logged + [e] &&
            AbsStep(fmt, s.abs, e) == Some(s'.abs)
  }

  /** The invariant survives a step of thread `t` that is right about its own part. */
  lemma {:induction false} Rejoin(fmt: Val -> string, s: State, t: nat, s': State)
    requires Inv(fmt, s) && t < |s.ts| && |s'.ts| == |s.ts| && s'.ts == s.ts[t := s'.ts[t]]
    requires LocalOk(s'.ts[t]) && (Owns(s'.ts[t].pc) <==> s'.owner == t)
    requires s'.owner == s.owner || (s.owner == -1 && s'.owner == t) || (s.owner == t && s'.owner == -1)
    requires s'.owner == -1 ==> AtRest(s')
    requires s'.owner == t ==> s'.tag.fe == Busy && OwnerOk(fmt, s', s'.ts[t].pc)
    requires s'.owner != -1 && s'.owner != t ==> s'.tag == s.tag && s'.word == s.word && s'.abs == s.abs
    requires Readers(s'.abs) - s'.ts[t].holds == Readers(s.abs) - s.ts[t].holds
    ensures Inv(fmt, s')
  {
    HoldsUpdate(s.ts, t, s'.ts[t]);
  }

  /** A thread that does not own the element moves on by itself. */
  lemma {:induction false} LocalKeeps(fmt: Val -> string, s: State, t: nat, pc: Pc)
    requires Inv(fmt, s) && t < |s.ts| && !Owns(s.ts[t].pc) && !Owns(pc) && LocalOk(s.ts[t].(pc := pc))
    ensures Inv(fmt, SetPc(s, t, pc)) && Linear(fmt, s, t, SetPc(s, t, pc))
  {
    Rejoin(fmt, s, t, SetPc(s, t, pc));
  }

  lemma {:induction false} ReadLoadKeeps(fmt: Val -> string, s: State, t: nat)
    requires Inv(fmt, s) && t < |s.ts| && s.ts[t].pc.ReadLoad?
    ensures Inv(fmt, StepRead(s, t)) && Linear(fmt, s, t, StepRead(s, t))
  {
    assert LocalOk(s.ts[t]);
    if ReadReady(s.ts[t].pc.initial, s.tag, s.ts[t].pc.stale) {
      LocalKeeps(fmt, s, t, ReadSwap(s.ts[t].pc.initial, s.ts[t].pc.final, s.tag));
    }
  }

  lemma {:induction false} ReadTakes(fmt: Val -> string, s: State, t: nat)
    requires Inv(fmt, s) && t < |s.ts| && s.ts[t].pc.ReadSwap? && s.tag == ReadOld(s.ts[t].pc.initial, s.ts[t].pc.mem)
    ensures Inv(fmt, StepRead(s, t)) && Linear(fmt, s, t, StepRead(s, t))
  {
    var s' := StepRead(s, t);
    assert LocalOk(s.ts[t]) && s.owner == -1;
    assert OwnerOk(fmt, s', s'.ts[t].pc);
    Rejoin(fmt, s, t, s');
  }

  lemma {:induction false} ReadSwapKeeps(fmt: Val -> string, s: State, t: nat)
    requires Inv(fmt, s) && t < |s.ts| && s.ts[t].pc.ReadSwap?
    ensures Inv(fmt, StepRead(s, t)) && Linear(fmt, s, t, StepRead(s, t))
  {
    var pc := s.ts[t].pc;
    if s.tag == ReadOld(pc.initial, pc.mem) {
      ReadTakes(fmt, s, t);
    } else {
      assert LocalOk(s.ts[t]);
      LocalKeeps(fmt, s, t, ReadLoad(pc.initial, pc.final, ReadBusy(pc.initial, pc.mem).rw));
    }
  }

  lemma {:induction false} ReadDataKeeps(fmt: Val -> string, s: State, t: nat)
    requires Inv(fmt, s) && t < |s.ts| && s.ts[t].pc.ReadData?
    ensures Inv(fmt, StepRead(s, t)) && Linear(fmt, s, t, StepRead(s, t))
  {
    Rejoin(fmt, s, t, StepRead(s, t));
  }

  /** What giving back the tag after a read leaves. */
  lemma {:induction false} ReadStoreIs(s: State, t: nat)
    requires t < |s.ts| && s.ts[t].pc.ReadStore?
    ensures var pc, s' := s.ts[t].pc, StepRead(s, t);
      && s'.ts == s.ts[t := s'.ts[t]] && s'.tag == pc.held && s'.owner == -1 && s'.word == s.word
      && s'.abs == (if pc.initial == RwLock then AShared(pc.held.rw, pc.got) else if pc.final == Full then AFull(pc.got) else AEmpty)
      && s'.ts[t].holds == (if pc.initial == RwLock then s.ts[t].holds + 1 else s.ts[t].holds)
      && (s'.ts[t].pc.Idle? || (HasText(pc.got) && s'.ts[t].pc == Copy(ReadOp(pc.initial, pc.final), pc.ptr, pc.got, |s.log|)))
  {}

  lemma {:induction false} ReadStoreInv(fmt: Val -> string, s: State, t: nat)
    requires Inv(fmt, s) && t < |s.ts| && s.ts[t].pc.ReadStore?
    ensures Inv(fmt, StepRead(s, t))
  {
    ReadStoreIs(s, t);
    assert s.owner == t && LocalOk(s.ts[t]) && OwnerOk(fmt, s, s.ts[t].pc);
    var s' := StepRead(s, t);
    assert AtRest(s') && LocalOk(s'.ts[t]);
    Rejoin(fmt, s, t, s');
  }

  lemma {:induction false} ReadStoreKeeps(fmt: Val -> string, s: State, t: nat)
    requires Inv(fmt, s) && t < |s.ts| && s.ts[t].pc.ReadStore?
    ensures Inv(fmt, StepRead(s, t)) && Linear(fmt, s, t, StepRead(s, t))
  {
    ReadStoreInv(fmt, s, t);
    assert LocalOk(s.ts[t]) && s.owner == t;
  }

  lemma {:induction false} ReadKeeps(fmt: Val -> string, s: State, t: nat)
    requires Inv(fmt, s) && t < |s.ts| && InRead(s.ts[t].pc)
    ensures Inv(fmt, StepRead(s, t)) && Linear(fmt, s, t, StepRead(s, t))
  {
    match s.ts[t].pc
    case ReadLoad(_, _, _) => ReadLoadKeeps(fmt, s, t);
    case ReadSwap(_, _, _) => ReadSwapKeeps(fmt, s, t);
    case ReadData(_, _, _) => ReadDataKeeps(fmt, s, t);
    case ReadStore(_, _, _, _, _) => ReadStoreKeeps(fmt, s, t);
  }

  lemma {:induction false} CopyKeeps(fmt: Val -> string, s: State, t: nat)
    requires Inv(fmt, s) && t < |s.ts| && s.ts[t].pc.Copy?
    ensures Inv(fmt, StepCopy(s, t)) && Linear(fmt, s, t, StepCopy(s, t))
  {
    Rejoin(fmt, s, t, StepCopy(s, t));
  }

  lemma {:induction false} ElsewhereKeeps(fmt: Val -> string, s: State, t: nat, at: nat, text: string)
    requires Inv(fmt, s) && t < |s.ts|
    ensures Inv(fmt, StepElsewhere(s, at, text)) && Linear(fmt, s, t, StepElsewhere(s, at, text))
  {}

  lemma {:induction false} MoveLoadKeeps(fmt: Val -> string, s: State, t: nat)
    requires Inv(fmt, s) && t < |s.ts| && s.ts[t].pc.MoveLoad?
    ensures Inv(fmt, StepMove(s, t)) && Linear(fmt, s, t, StepMove(s, t))
  {
    assert LocalOk(s.ts[t]);
    LocalKeeps(fmt, s, t, MoveSwap(s.ts[t].pc.op, s.tag));
  }

  /** A thread that gets the element it waits for. */
  lemma {:induction false} MoveTakes(fmt: Val -> string, s: State, t: nat)
    requires Inv(fmt, s) && t < |s.ts| && s.ts[t].pc.MoveSwap? && s.tag == s.ts[t].pc.mem.(fe := MoveFrom(s.ts[t].pc.op))
    ensures Inv(fmt, StepMove(s, t))
  {
    var s' := StepMove(s, t);
    assert s.owner == -1 && LocalOk(s.ts[t]);
    assert s'.owner == t && Owns(s'.ts[t].pc) && OwnerOk(fmt, s', s'.ts[t].pc);
    Rejoin(fmt, s, t, s');
  }

  lemma {:induction false} MoveSwapKeeps(fmt: Val -> string, s: State, t: nat)
    requires Inv(fmt, s) && t < |s.ts| && s.ts[t].pc.MoveSwap?
    ensures Inv(fmt, StepMove(s, t)) && Linear(fmt, s, t, StepMove(s, t))
  {
    assert LocalOk(s.ts[t]);
    if s.tag == s.ts[t].pc.mem.(fe := MoveFrom(s.ts[t].pc.op)) {
      MoveTakes(fmt, s, t);
    } else {
      LocalKeeps(fmt, s, t, MoveLoad(s.ts[t].pc.op));
    }
  }

  lemma {:induction false} WriteInv(fmt: Val -> string, s: State, t: nat, at: nat)
    requires Inv(fmt, s) && t < |s.ts| && InWrite(s.ts[t].pc)
    ensures Inv(fmt, StepWrite(s, t, at))
  {
    Rejoin(fmt, s, t, StepWrite(s, t, at));
  }

  lemma {:induction false} WriteKeeps(fmt: Val -> string, s: State, t: nat, at: nat)
    requires Inv(fmt, s) && t < |s.ts| && InWrite(s.ts[t].pc)
    ensures Inv(fmt, StepWrite(s, t, at)) && Linear(fmt, s, t, StepWrite(s, t, at))
  {
    WriteInv(fmt, s, t, at);
  }

  lemma {:induction false} FaaReadKeeps(fmt: Val -> string, s: State, t: nat, at: nat)
    requires Inv(fmt, s) && t < |s.ts| && s.ts[t].pc.FaaRead?
    ensures Inv(fmt, StepFaa(fmt, s, t, at)) && Linear(fmt, s, t, StepFaa(fmt, s, t, at))
  {
    Rejoin(fmt, s, t, StepFaa(fmt, s, t, at));
  }

  lemma {:induction false} FaaWriteKeeps(fmt: Val -> string, s: State, t: nat, at: nat)
    requires Inv(fmt, s) && t < |s.ts| && s.ts[t].pc.FaaWrite?
    ensures Inv(fmt, StepFaa(fmt, s, t, at)) && Linear(fmt, s, t, StepFaa(fmt, s, t, at))
  {
    Rejoin(fmt, s, t, StepFaa(fmt, s, t, at));
  }

  lemma {:induction false} FaaStoreInv(fmt: Val -> string, s: State, t: nat, at: nat)
    requires Inv(fmt, s) && t < |s.ts| && s.ts[t].pc.FaaStore?
    ensures Inv(fmt, StepFaa(fmt, s, t, at))
  {
    Rejoin(fmt, s, t, StepFaa(fmt, s, t, at));
  }

  lemma {:induction false} FaaStoreKeeps(fmt: Val -> string, s: State, t: nat, at: nat)
    requires Inv(fmt, s) && t < |s.ts| && s.ts[t].pc.FaaStore?
    ensures Inv(fmt, StepFaa(fmt, s, t, at)) && Linear(fmt, s, t, StepFaa(fmt, s, t, at))
  {
    FaaStoreInv(fmt, s, t, at);
  }

  lemma {:induction false} CasWriteInv(fmt: Val -> string, s: State, t: nat, at: nat)
    requires Inv(fmt, s) && t < |s.ts| && s.ts[t].pc.CasWrite?
    ensures Inv(fmt, StepCas(s, t, at))
  {
    assert s.owner == t && OwnerOk(fmt, s, s.ts[t].pc);
    CasWriteOwner(fmt, s, t, at);
    Rejoin(fmt, s, t, StepCas(s, t, at));
  }

  lemma {:induction false} CasWriteOwner(fmt: Val -> string, s: State, t: nat, at: nat)
    requires t < |s.ts| && s.ts[t].pc.CasWrite? && OwnerOk(fmt, s, s.ts[t].pc)
    ensures var s' := StepCas(s, t, at);
      |s'.ts| == |s.ts| && s'.ts[t].pc.CasStore? && OwnerOk(fmt, s', s'.ts[t].pc)
  {}

  lemma {:induction false} CasWriteKeeps(fmt: Val -> string, s: State, t: nat, at: nat)
    requires Inv(fmt, s) && t < |s.ts| && s.ts[t].pc.CasWrite?
    ensures Inv(fmt, StepCas(s, t, at)) && Linear(fmt, s, t, StepCas(s, t, at))
  {
    CasWriteInv(fmt, s, t, at);
  }

  lemma {:induction false} CasStoreInv(fmt: Val -> string, s: State, t: nat, at: nat)
    requires Inv(fmt, s) && t < |s.ts| && s.ts[t].pc.CasStore?
    ensures Inv(fmt, StepCas(s, t, at))
  {
    Rejoin(fmt, s, t, StepCas(s, t, at));
  }

  lemma {:induction false} CasStoreKeeps(fmt: Val -> string, s: State, t: nat, at: nat)
    requires Inv(fmt, s) && t < |s.ts| && s.ts[t].pc.CasStore?
    ensures Inv(fmt, StepCas(s, t, at)) && Linear(fmt, s, t, StepCas(s, t, at))
  {
    CasStoreInv(fmt, s, t, at);
  }

  lemma {:induction false} CasReadKeeps(fmt: Val -> string, s: State, t: nat, at: nat)
    requires Inv(fmt, s) && t < |s.ts| && (s.ts[t].pc.CasType? || s.ts[t].pc.CasRead?)
    ensures Inv(fmt, StepCas(s, t, at)) && Linear(fmt, s, t, StepCas(s, t, at))
  {
    Rejoin(fmt, s, t, StepCas(s, t, at));
  }

  lemma {:induction false} CasKeeps(fmt: Val -> string, s: State, t: nat, at: nat)
    requires Inv(fmt, s) && t < |s.ts| && InCas(s.ts[t].pc)
    ensures Inv(fmt, StepCas(s, t, at)) && Linear(fmt, s, t, StepCas(s, t, at))
  {
    if s.ts[t].pc.CasWrite? {
      CasWriteKeeps(fmt, s, t, at);
    } else if s.ts[t].pc.CasStore? {
      CasStoreKeeps(fmt, s, t, at);
    } else {
      CasReadKeeps(fmt, s, t, at);
    }
  }

  lemma {:induction false} ReleaseLoadKeeps(fmt: Val -> string, s: State, t: nat)
    requires Inv(fmt, s) && t < |s.ts| && s.ts[t].pc.ReleaseLoad?
    ensures Inv(fmt, StepRelease(s, t)) && Linear(fmt, s, t, StepRelease(s, t))
  {
    HoldsUpdate(s.ts, t, s.ts[t]);
    assert LocalOk(s.ts[t]);
    if s.tag.fe == RwLock {
      LocalKeeps(fmt, s, t, ReleaseSwap(s.tag));
    }
  }

  lemma {:induction false} ReleasesInv(fmt: Val -> string, s: State, t: nat)
    requires Inv(fmt, s) && t < |s.ts| && s.ts[t].pc.ReleaseSwap? && s.tag == s.ts[t].pc.mem
    ensures Inv(fmt, StepRelease(s, t))
  {
    assert LocalOk(s.ts[t]) && s.owner == -1;
    Rejoin(fmt, s, t, StepRelease(s, t));
  }

  lemma {:induction false} Releases(fmt: Val -> string, s: State, t: nat)
    requires Inv(fmt, s) && t < |s.ts| && s.ts[t].pc.ReleaseSwap? && s.tag == s.ts[t].pc.mem
    ensures Inv(fmt, StepRelease(s, t)) && Linear(fmt, s, t, StepRelease(s, t))
  {
    ReleasesInv(fmt, s, t);
    assert LocalOk(s.ts[t]);
  }

  lemma {:induction false} ReleaseSwapKeeps(fmt: Val -> string, s: State, t: nat)
    requires Inv(fmt, s) && t < |s.ts| && s.ts[t].pc.ReleaseSwap?
    ensures Inv(fmt, StepRelease(s, t)) && Linear(fmt, s, t, StepRelease(s, t))
  {
    assert LocalOk(s.ts[t]);
    if s.tag == s.ts[t].pc.mem {
      Releases(fmt, s, t);
    } else {
      LocalKeeps(fmt, s, t, ReleaseLoad);
    }
  }

  lemma {:induction false} StartKeeps(fmt: Val -> string, s: State, t: nat, c: Choice)
    requires Inv(fmt, s) && t < |s.ts| && s.ts[t].pc.Idle? && c.Choice?
    ensures Inv(fmt, Start(s, t, c)) && Linear(fmt, s, t, Start(s, t, c))
  {
    StartIsLocal(s, t, c);
    LocalKeeps(fmt, s, t, Start(s, t, c).ts[t].pc);
  }

  /** Starting a primitive changes nothing but the thread's own pc. */
  lemma {:induction false} StartIsLocal(s: State, t: nat, c: Choice)
    requires t < |s.ts| && s.ts[t].pc.Idle? && c.Choice?
    ensures var pc := Start(s, t, c).ts[t].pc;
      Start(s, t, c) == SetPc(s, t, pc) && !Owns(pc) && LocalOk(s.ts[t].(pc := pc))
  {}

  lemma {:induction false} StepKeeps(fmt: Val -> string, s: State, t: nat, c: Choice)
    requires Inv(fmt, s) && t < |s.ts|
    ensures Inv(fmt, Step(fmt, s, t, c)) && Linear(fmt, s, t, Step(fmt, s, t, c))
  {
    var pc := s.ts[t].pc;
    if pc.Stuck? {
      if c.Elsewhere? { ElsewhereKeeps(fmt, s, t, c.at, c.text); }
    } else if pc.Idle? {
      if c.Choice? { StartKeeps(fmt, s, t, c); } else { ElsewhereKeeps(fmt, s, t, c.at, c.text); }
    } else if InRead(pc) {
      ReadKeeps(fmt, s, t);
    } else if pc.Copy? {
      CopyKeeps(fmt, s, t);
    } else if pc.MoveLoad? {
      MoveLoadKeeps(fmt, s, t);
    } else if pc.MoveSwap? {
      MoveSwapKeeps(fmt, s, t);
    } else if InWrite(pc) {
      WriteKeeps(fmt, s, t, c.at);
    } else if pc.FaaRead? {
      FaaReadKeeps(fmt, s, t, c.at);
    } else if pc.FaaWrite? {
      FaaWriteKeeps(fmt, s, t, c.at);
    } else if pc.FaaStore? {
      FaaStoreKeeps(fmt, s, t, c.at);
    } else if InCas(pc) {
      CasKeeps(fmt, s, t, c.at);
    } else if pc.ReleaseLoad? {
      ReleaseLoadKeeps(fmt, s, t);
    } else if pc.ReleaseSwap? {
      ReleaseSwapKeeps(fmt, s, t);
    }
  }

  // ---- What holds of every run -----------------------------------------------

  /** The auxiliary records agree: the log is a legal sequential history that leads to the
      abstract element, and every thread's results are its part of that history. */
  ghost predicate Recorded(fmt: Val -> string, a: Abs, s: State) {
    && Replay(fmt, a, s.log) == Some(s.abs)
    && forall i :: 0 <= i < |s.ts| ==> s.ts[i].logged == Proj(s.log, i)
  }

  lemma {:induction false} LinearKeepsRecord(fmt: Val -> string, a: Abs, s: State, t: nat, s': State)
    requires Recorded(fmt, a, s) && Linear(fmt, s, t, s')
    ensures Recorded(fmt, a, s')
  {
    if s'.log != s.log {
      var e := s'.ts[t].logged[|s'.ts[t].logged| - 1];
      assert s'.log[..|s'.log| - 1] == s.log && s'.log[|s'.log| - 1] == (t, e);
    }
  }

  /** Linearizability: whatever the schedule, the completed primitives form one legal
      sequential history of the element, in which each thread finds exactly its own
      operations, in its own order, with the results it was given. */
  lemma {:induction false} Linearizable(fmt: Val -> string, n: nat, full: bool, v: Val, sched: seq<(nat, Choice)>)
    requires Plain(v) && Schedule(n, sched)
    ensures var s := Exec(fmt, Init(n, full, v), sched);
      Inv(fmt, s) && Recorded(fmt, Init(n, full, v).abs, s)
    decreases |sched|
  {
    var init := Init(n, full, v);
    if sched == [] {
      InitInv(fmt, n, full, v);
    } else {
      var k := |sched| - 1;
      Linearizable(fmt, n, full, v, sched[..k]);
      var s := Exec(fmt, init, sched[..k]);
      StepKeeps(fmt, s, sched[k].0, sched[k].1);
      LinearKeepsRecord(fmt, init.abs, s, sched[k].0, Step(fmt, s, sched[k].0, sched[k].1));
    }
  }

  /** Is the thread between taking and giving back the element as its only user? */
  predicate Exclusive(pc: Pc) {
    Owns(pc) && !(pc.ReadData? && pc.initial == RwLock) && !(pc.ReadStore? && pc.initial == RwLock)
  }

  /** A fetch and add that has left the element BUSY is one of JSON, or to JSON. */
  ghost predicate OnlyJsonSticks(s: State) {
    forall i :: 0 <= i < |s.ts| && s.ts[i].pc.Stuck? ==> s.ts[i].pc.arg.VJson? || Content(s).VJson?
  }

  lemma {:induction false} SticksNow(fmt: Val -> string, s: State)
    requires Inv(fmt, s)
    ensures OnlyJsonSticks(s)
  {
    forall i | 0 <= i < |s.ts| && s.ts[i].pc.Stuck?
      ensures s.ts[i].pc.arg.VJson? || Content(s).VJson?
    {
      assert i == s.owner && OwnerOk(fmt, s, s.ts[i].pc);
    }
  }

  /** The reader count is the number of holds that were given out and not yet released,
      plus the reader that is inside its BUSY window; it never passes 7; at most one
      thread owns BUSY; nobody is exclusive while a reader has a hold; and no error exit has
      been taken but that of a fetch and add that has met JSON. */
  ghost predicate CountsTell(s: State) {
    && s.tag.rw == Holds(s.ts) + (if exists i :: 0 <= i < |s.ts| && Owns(s.ts[i].pc) && !Exclusive(s.ts[i].pc) then 1 else 0)
    && s.tag.rw <= 7
    && (forall i, j :: 0 <= i < |s.ts| && 0 <= j < |s.ts| && Owns(s.ts[i].pc) && Owns(s.ts[j].pc) ==> i == j)
    && (s.tag.fe == Busy <==> exists i :: 0 <= i < |s.ts| && Owns(s.ts[i].pc))
    && (forall i :: 0 <= i < |s.ts| && Exclusive(s.ts[i].pc) ==> Holds(s.ts) == 0)
    && (s.tag.fe == RwLock ==> Holds(s.ts) > 0)
    && (forall i :: 0 <= i < |s.ts| ==> !s.ts[i].pc.Failed?)
    && OnlyJsonSticks(s)
  }

  /** The reader and writer invariant, in every reachable state. */
  lemma {:induction false} ReadersAndWriters(fmt: Val -> string, n: nat, full: bool, v: Val, sched: seq<(nat, Choice)>)
    requires Plain(v) && Schedule(n, sched)
    ensures CountsTell(Exec(fmt, Init(n, full, v), sched))
  {
    Linearizable(fmt, n, full, v, sched);
    CountsTellNow(fmt, Exec(fmt, Init(n, full, v), sched));
  }

  lemma {:induction false} CountsTellNow(fmt: Val -> string, s: State)
    requires Inv(fmt, s)
    ensures CountsTell(s)
  {
    SticksNow(fmt, s);
    if s.owner != -1 {
      assert Owns(s.ts[s.owner].pc);
    }
  }

  /** A thread that owns the element is never blocked, and does not fail: unless it is a fetch
      and add of JSON or to JSON, which leaves the element BUSY for good. */
  lemma {:induction false} OwnersNeverWait(fmt: Val -> string, s: State, t: nat, c: Choice)
    requires Inv(fmt, s) && t < |s.ts| && Owns(s.ts[t].pc)
    ensures Step(fmt, s, t, c).ts[t].pc != s.ts[t].pc <==> !s.ts[t].pc.Stuck?
    ensures !Step(fmt, s, t, c).ts[t].pc.Failed?
    ensures Step(fmt, s, t, c).ts[t].pc.Stuck? <==>
      s.ts[t].pc.Stuck? || (s.ts[t].pc.FaaRead? && (s.ts[t].pc.arg.VJson? || Content(s).VJson?))
  {
    OwnerMoves(fmt, s, t, c);
    NeverFails(fmt, s, t, c);
    assert s.owner == t && OwnerOk(fmt, s, s.ts[t].pc);
    WhenStuck(fmt, s, t, c);
  }

  lemma {:induction false} NeverFails(fmt: Val -> string, s: State, t: nat, c: Choice)
    requires Inv(fmt, s) && t < |s.ts|
    ensures !Step(fmt, s, t, c).ts[t].pc.Failed?
  {
    StepKeeps(fmt, s, t, c);
    assert LocalOk(Step(fmt, s, t, c).ts[t]);
  }

  lemma {:induction false} WhenStuck(fmt: Val -> string, s: State, t: nat, c: Choice)
    requires t < |s.ts| && Owns(s.ts[t].pc) && OwnerOk(fmt, s, s.ts[t].pc)
    ensures Step(fmt, s, t, c).ts[t].pc.Stuck? <==>
      s.ts[t].pc.Stuck? || (s.ts[t].pc.FaaRead? && (s.ts[t].pc.arg.VJson? || Content(s).VJson?))
  {
    if s.ts[t].pc.FaaRead? {
      assert Plain(Content(s));
    }
  }

  lemma {:induction false} OwnerMoves(fmt: Val -> string, s: State, t: nat, c: Choice)
    requires t < |s.ts| && Owns(s.ts[t].pc)
    ensures Step(fmt, s, t, c).ts[t].pc != s.ts[t].pc <==> !s.ts[t].pc.Stuck?
  {}

  /** When nobody owns the element, a thread about to load its tag gets it within two steps
      of its own exactly when the element is in the state the thread waits for.  A reader
      waits for a full element, or one under a readers lock with a free count, but the
      latter only if its uninitialised variable did not hold a count of 7. */
  lemma {:induction false} WhoGoesOn(fmt: Val -> string, s: State, t: nat, c: Choice)
    requires Inv(fmt, s) && t < |s.ts| && s.owner == -1
    requires s.ts[t].pc.ReadLoad? || s.ts[t].pc.MoveLoad?
    ensures var pc := s.ts[t].pc;
      Owns(Step(fmt, Step(fmt, s, t, c), t, c).ts[t].pc) <==>
        if pc.MoveLoad? then s.tag.fe == MoveFrom(pc.op)
        else if pc.initial == Full then s.tag.fe == Full
        else s.abs.AFull? || (s.abs.AShared? && s.abs.readers < 7 && pc.stale < 7)
  {
    var s1 := Step(fmt, s, t, c);
    assert s1.tag == s.tag;
  }
}
