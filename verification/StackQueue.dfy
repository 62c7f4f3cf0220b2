/** An array used as a stack, or as a queue, by whole operations one at a time.  The values are
    those of a region, in whose heap texts are kept. */
module StackQueue {
  import opened Tags
  import opened Wrapping
  import opened Region

  /** Truncation to 32 bits, as in an assignment to an int32_t. */
  function Int32(x: int): int {
    (x + 0x8000_0000) % 0x1_0000_0000 - 0x8000_0000
  }

  lemma {:induction false} FitsInt32(x: int)
    requires -0x8000_0000 <= x < 0x8000_0000
    ensures Int32(x) == x
  {}

  const UNDEFINED_WORD: int := 0xdeadbeef
  const NOTHING_WORD: int := 0xf00dd00f

  /** What is kept of a value: the word of an undefined value is not. */
  function Kept(v: Arg): Arg {
    if v.typ == Undefined && v.Word? then Word(Undefined, UNDEFINED_WORD) else v
  }

  /** `v` comes last, as it is; of an undefined value the type. */
  predicate Adds(s: seq<Arg>, s': seq<Arg>, v: Arg) {
    && |s'| == |s| + 1 && s'[..|s|] == s
    && s'[|s|].typ == v.typ && (v.typ != Undefined ==> s'[|s|] == v)
  }

  lemma {:induction false} KeptAdds(s: seq<Arg>, v: Arg)
    ensures Adds(s, s + [Kept(v)], v)
  {}

  // ---- What callers see ----------------------------------------------------------

  datatype Op = Put(v: Arg) | Take

  /** What a put and a take from an empty stack or queue return. */
  function Nothing(): Arg {
    Word(Undefined, NOTHING_WORD)
  }

  /** A stack, and a queue, of values: what one operation leaves and what it returns; taking
      from an empty one returns undefined. */
  function StackStep(s: seq<Arg>, op: Op): (seq<Arg>, Arg) {
    match op
    case Put(v) => (s + [Kept(v)], Nothing())
    case Take => if s == [] then (s, Nothing()) else (s[..|s| - 1], s[|s| - 1])
  }

  function QueueStep(s: seq<Arg>, op: Op): (seq<Arg>, Arg) {
    match op
    case Put(v) => (s + [Kept(v)], Nothing())
    case Take => if s == [] then (s, Nothing()) else (s[1..], s[0])
  }

  lemma {:induction false} TakeIs(s: seq<Arg>, v: Arg)
    ensures StackStep(s + [v], Take) == (s, v) && QueueStep([v] + s, Take) == (s, v)
  {
    assert (s + [v])[..|s|] == s;
  }

  function AfterStack(s: seq<Arg>, ops: seq<Op>): seq<Arg>
    decreases |ops|
  {
    if ops == [] then s else StackStep(AfterStack(s, ops[..|ops| - 1]), ops[|ops| - 1]).0
  }

  function AfterQueue(s: seq<Arg>, ops: seq<Op>): seq<Arg>
    decreases |ops|
  {
    if ops == [] then s else QueueStep(AfterQueue(s, ops[..|ops| - 1]), ops[|ops| - 1]).0
  }

  /** What operation number `k` returns. */
  function StackReturns(s: seq<Arg>, ops: seq<Op>, k: nat): Arg
    requires k < |ops|
  {
    StackStep(AfterStack(s, ops[..k]), ops[k]).1
  }

  function QueueReturns(s: seq<Arg>, ops: seq<Op>, k: nat): Arg
    requires k < |ops|
  {
    QueueStep(AfterQueue(s, ops[..k]), ops[k]).1
  }

  /** The first |got| operations, from `s`, have returned `got` and left `now`. */
  ghost predicate StackRan(s: seq<Arg>, ops: seq<Op>, got: seq<Arg>, now: seq<Arg>) {
    && |got| <= |ops| && now == AfterStack(s, ops[..|got|])
    && forall k: nat {:trigger got[k]} :: k < |got| && ops[k].Take? ==> got[k] == StackReturns(s, ops, k)
  }

  lemma {:induction false} StackRanOn(s: seq<Arg>, ops: seq<Op>, got: seq<Arg>, now: seq<Arg>, now': seq<Arg>, v: Arg)
    requires StackRan(s, ops, got, now) && |got| < |ops| && (now', v) == StackStep(now, ops[|got|])
    ensures StackRan(s, ops, got + [v], now')
  {
    assert ops[..|got| + 1][..|got|] == ops[..|got|];
  }

  /** The first |got| operations, from `s`, have returned `got` and left `now`. */
  ghost predicate QueueRan(s: seq<Arg>, ops: seq<Op>, got: seq<Arg>, now: seq<Arg>) {
    && |got| <= |ops| && now == AfterQueue(s, ops[..|got|])
    && forall k: nat {:trigger got[k]} :: k < |got| && ops[k].Take? ==> got[k] == QueueReturns(s, ops, k)
  }

  lemma {:induction false} QueueRanOn(s: seq<Arg>, ops: seq<Op>, got: seq<Arg>, now: seq<Arg>, now': seq<Arg>, v: Arg)
    requires QueueRan(s, ops, got, now) && |got| < |ops| && (now', v) == QueueStep(now, ops[|got|])
    ensures QueueRan(s, ops, got + [v], now')
  {
    assert ops[..|got| + 1][..|got|] == ops[..|got|];
  }

  /** Last in, first out: operations that never reach below a part of the stack leave that
      part alone; so once they have taken as much as they put, the stack is as it was. */
  lemma {:induction false} StackKeepsBelow(s: seq<Arg>, ops: seq<Op>, m: nat)
    requires m <= |s| && forall k :: 0 <= k <= |ops| ==> |AfterStack(s, ops[..k])| >= m
    ensures |AfterStack(s, ops)| >= m && AfterStack(s, ops)[..m] == s[..m]
    ensures |AfterStack(s, ops)| == m == |s| ==> AfterStack(s, ops) == s
    decreases |ops|
  {
    assert ops[..|ops|] == ops;
    if ops != [] {
      var front := ops[..|ops| - 1];
      forall k | 0 <= k <= |front|
        ensures |AfterStack(s, front[..k])| >= m
      {
        assert front[..k] == ops[..k];
      }
      StackKeepsBelow(s, front, m);
    }
  }

  /** The values put into, and taken out of, a queue, in order. */
  function PutIn(ops: seq<Op>): seq<Arg>
    decreases |ops|
  {
    if ops == [] then []
    else PutIn(ops[..|ops| - 1]) + if ops[|ops| - 1].Put? then [Kept(ops[|ops| - 1].v)] else []
  }

  function TakenOut(s: seq<Arg>, ops: seq<Op>): seq<Arg>
    decreases |ops|
  {
    if ops == [] then []
    else
      var front := ops[..|ops| - 1];
      TakenOut(s, front) + if ops[|ops| - 1].Take? && AfterQueue(s, front) != [] then [QueueReturns(s, ops, |ops| - 1)] else []
  }

  /** First in, first out: what has been taken out, followed by what is there, is what has
      been put in. */
  lemma {:induction false} QueueKeepsOrder(ops: seq<Op>)
    ensures TakenOut([], ops) + AfterQueue([], ops) == PutIn(ops)
    decreases |ops|
  {
    if ops != [] {
      var front, op := ops[..|ops| - 1], ops[|ops| - 1];
      QueueKeepsOrder(front);
      var q := AfterQueue([], front);
      if op.Take? && q != [] {
        assert q == [q[0]] + q[1..];
      }
    }
  }

  /** No value that is put is undefined. */
  predicate AllDefined(ops: seq<Op>) {
    forall k :: 0 <= k < |ops| && ops[k].Put? ==> ops[k].v.typ != Undefined
  }

  /** What callers put, in order. */
  function Given(ops: seq<Op>): seq<Arg>
    decreases |ops|
  {
    if ops == [] then []
    else Given(ops[..|ops| - 1]) + if ops[|ops| - 1].Put? then [ops[|ops| - 1].v] else []
  }

  /** First in, first out, of the very values that callers put. */
  lemma {:induction false} QueueGivesBack(ops: seq<Op>)
    requires AllDefined(ops)
    ensures TakenOut([], ops) + AfterQueue([], ops) == Given(ops)
    decreases |ops|
  {
    QueueKeepsOrder(ops);
    PutInIsGiven(ops);
  }

  lemma {:induction false} PutInIsGiven(ops: seq<Op>)
    requires AllDefined(ops)
    ensures PutIn(ops) == Given(ops)
    decreases |ops|
  {
    if ops != [] {
      PutInIsGiven(ops[..|ops| - 1]);
    }
  }

  /** What is pushed between operations that leave the stack as it was is what the next pop
      returns. */
  lemma {:induction false} StackGivesBack(s: seq<Arg>, v: Arg, ops: seq<Op>)
    requires v.typ != Undefined
    requires forall k :: 0 <= k <= |ops| ==> |AfterStack(s + [v], ops[..k])| >= |s| + 1
    requires |AfterStack(s + [v], ops)| == |s| + 1
    ensures AfterStack(s, [Put(v)]) == s + [v]
    ensures StackStep(AfterStack(s + [v], ops), Take) == (s, v)
  {
    assert [Put(v)][..0] == [];
    StackKeepsBelow(s + [v], ops, |s| + 1);
    assert (s + [v])[..|s|] == s;
  }

  // ---- The array --------------------------------------------------------------------

  /** The values are those of the first elements. */
  ghost predicate StackHolds(v: View, s: seq<Arg>) {
    && |s| <= |v.types| == |v.words| == |v.texts|
    && forall i: nat {:trigger s[i]} :: i < |s| ==> s[i] == ValueOf(v, i)
  }

  /** The values are those of the elements from number `from` on, going round. */
  ghost predicate QueueHolds(v: View, from: nat, s: seq<Arg>) {
    && |s| <= |v.types| == |v.words| == |v.texts| && 0 < |v.types|
    && forall i: nat {:trigger s[i]} :: i < |s| ==> s[i] == ValueOf(v, Wrap(from + i, |v.types|))
  }

  /** Element `k` is given a value, and no other changes. */
  ghost predicate Changes(v: View, v': View, k: nat, a: Arg) {
    && |v.types| == |v.words| == |v.texts| == |v'.types| == |v'.words| == |v'.texts|
    && k < |v.types| && ValueOf(v', k) == a
    && forall i: nat :: i < |v.types| && i != k ==> ValueOf(v', i) == ValueOf(v, i)
  }

  /** Element `k` is given up, and no other changes. */
  ghost predicate Loses(v: View, v': View, k: nat) {
    && |v.types| == |v.words| == |v.texts| == |v'.types| == |v'.words| == |v'.texts| && k < |v.types|
    && forall i: nat :: i < |v.types| && i != k ==> ValueOf(v', i) == ValueOf(v, i)
  }

  lemma {:induction false} StackMore(v: View, v': View, s: seq<Arg>, a: Arg)
    requires StackHolds(v, s) && Changes(v, v', |s|, a)
    ensures StackHolds(v', s + [a])
  {}

  lemma {:induction false} StackLess(v: View, v': View, s: seq<Arg>)
    requires StackHolds(v, s) && s != [] && Loses(v, v', |s| - 1)
    ensures StackHolds(v', s[..|s| - 1]) && s[|s| - 1] == ValueOf(v, |s| - 1)
    ensures s == s[..|s| - 1] + [s[|s| - 1]]
  {}

  lemma {:induction false} QueueMore(v: View, v': View, from: nat, s: seq<Arg>, a: Arg)
    requires QueueHolds(v, from, s) && |s| < |v.types| && Changes(v, v', Wrap(from + |s|, |v.types|), a)
    ensures QueueHolds(v', from, s + [a])
  {
    forall i: nat | i < |s|
      ensures s[i] == ValueOf(v', Wrap(from + i, |v.types|))
    {
      WrapDistinct(from + i, from + |s|, |v.types|);
    }
  }

  lemma {:induction false} QueueLess(v: View, v': View, from: nat, s: seq<Arg>, from': nat)
    requires QueueHolds(v, from, s) && s != [] && Loses(v, v', Wrap(from, |v.types|)) && from' == from + 1
    ensures QueueHolds(v', from', s[1..]) && s[0] == ValueOf(v, Wrap(from, |v.types|))
    ensures s == [s[0]] + s[1..]
  {
    forall i: nat | i < |s| - 1
      ensures s[1..][i] == ValueOf(v', Wrap(from + 1 + i, |v.types|))
    {
      assert s[1..][i] == s[i + 1] && from + (i + 1) == from + 1 + i;
      WrapDistinct(from, from + 1 + i, |v.types|);
    }
  }

  /** The tags of a stack: the elements below the top are full, and the others hold nothing. */
  ghost predicate StackTags(fes: seq<Fe>, types: seq<Type>, top: nat) {
    && top <= |fes| == |types|
    && (forall i: nat {:trigger fes[i]} :: i < top ==> fes[i] == Full)
    && (forall i: nat {:trigger fes[i]} {:trigger types[i]} :: top <= i < |fes| ==> fes[i] == Empty && !IsText(types[i]))
  }

  lemma {:induction false} StackTagsMore(fes: seq<Fe>, types: seq<Type>, fes': seq<Fe>, types': seq<Type>, top: nat, top': nat)
    requires StackTags(fes, types, top) && top < |fes| && top' == top + 1
    requires fes' == fes[top := Full] && |types'| == |types|
    requires forall i :: 0 <= i < |types| && i != top ==> types'[i] == types[i]
    ensures StackTags(fes', types', top')
  {}

  lemma {:induction false} StackTagsLess(fes: seq<Fe>, types: seq<Type>, fes': seq<Fe>, types': seq<Type>, top: nat, top': nat)
    requires StackTags(fes, types, top) && top' == top - 1
    requires fes' == fes[top' := Empty] && |types'| == |types| && !IsText(types'[top'])
    requires forall i :: 0 <= i < |types| && i != top' ==> types'[i] == types[i]
    ensures StackTags(fes', types', top')
  {}

  /** The tags of a queue: its elements are full, and the others hold nothing. */
  ghost predicate QueueTags(fes: seq<Fe>, types: seq<Type>, bottom: nat, top: nat) {
    && 0 < |fes| == |types| && bottom <= top <= bottom + |fes|
    && (forall k: nat {:trigger Wrap(k, |fes|)} :: bottom <= k < top ==> fes[Wrap(k, |fes|)] == Full)
    && (forall k: nat {:trigger Wrap(k, |fes|)} :: top <= k < bottom + |fes| ==> fes[Wrap(k, |fes|)] == Empty && !IsText(types[Wrap(k, |fes|)]))
  }

  lemma {:induction false} TagsMore(fes: seq<Fe>, types: seq<Type>, fes': seq<Fe>, types': seq<Type>, bottom: nat, top: nat, top': nat)
    requires QueueTags(fes, types, bottom, top) && top < bottom + |fes| && top' == top + 1
    requires fes' == fes[Wrap(top, |fes|) := Full] && |types'| == |types|
    requires forall i :: 0 <= i < |types| && i != Wrap(top, |fes|) ==> types'[i] == types[i]
    ensures QueueTags(fes', types', bottom, top')
  {
    forall k: nat | bottom <= k < bottom + |fes| && k != top
      ensures Wrap(k, |fes|) != Wrap(top, |fes|)
    {
      if k < top { WrapDistinct(k, top, |fes|); } else { WrapDistinct(top, k, |fes|); }
    }
  }

  lemma {:induction false} TagsLess(fes: seq<Fe>, types: seq<Type>, fes': seq<Fe>, types': seq<Type>, bottom: nat, top: nat, bottom': nat)
    requires QueueTags(fes, types, bottom, top) && bottom < top && bottom' == bottom + 1
    requires fes' == fes[Wrap(bottom, |fes|) := Empty] && |types'| == |types| && !IsText(types'[Wrap(bottom, |fes|)])
    requires forall i :: 0 <= i < |types| && i != Wrap(bottom, |fes|) ==> types'[i] == types[i]
    ensures QueueTags(fes', types', bottom', top)
  {
    forall k: nat | bottom < k < bottom + |fes|
      ensures Wrap(k, |fes|) != Wrap(bottom, |fes|)
    {
      WrapDistinct(bottom, k, |fes|);
    }
  }

  class Buffer {
    const region: Region
    const fes: array<Fe>
    var top: int
    var bottom: int
    var topTag: Fe
    var bottomTag: Fe
    ghost var contents: seq<Arg>

    /** Storage for up to 2^31 elements, so that their indexes fit 32 bits. */
    ghost predicate Shape()
      reads region, region.heap, region.heap.tree, region.types, region.words, region.bytes
    {
      region.Valid() && region.types.Length == fes.Length && 0 < fes.Length <= 0x8000_0000
    }

    ghost predicate IsStack()
      reads this, fes, region, region.heap, region.heap.tree, region.types, region.words, region.bytes
    {
      && Shape() && topTag == Full && 0 <= top < fes.Length
      && top == |contents| && StackHolds(region.Snapshot(), contents)
      && StackTags(fes[..], region.types[..], top)
    }

    ghost predicate IsQueue()
      reads this, fes, region, region.heap, region.heap.tree, region.types, region.words, region.bytes
    {
      && Shape() && topTag == Full && bottomTag == Full
      && 0 <= bottom && top == bottom + |contents| && QueueTags(fes[..], region.types[..], bottom, top)
      && QueueHolds(region.Snapshot(), bottom, contents)
    }

    /** An array with empty tags and zero pointers is an empty stack and an empty queue. */
    constructor (n: nat, level: nat)
      requires 0 < n <= 0x8000_0000
      ensures IsStack() && IsQueue() && contents == []
      ensures fes.Length == n && fresh(fes) && fresh(region) && fresh(region.heap) && fresh(region.heap.tree)
      ensures fresh(region.types) && fresh(region.words) && fresh(region.bytes)
    {
      region := new Region(n, level);
      fes := new Fe[n](_ => Empty);
      top, bottom, topTag, bottomTag := 0, 0, Full, Full;
      contents := [];
    }

    /** Waiting for a state of an element that it is in, and marking the element BUSY. */
    method Acquire(idx: nat, from: Fe)
      requires idx < fes.Length && fes[idx] == from
      modifies fes
      ensures fes[..] == old(fes[..])[idx := Busy]
    {
      fes[idx] := Busy;
    }

    /** The value has no known type, or is a text for which there is no room. */
    ghost predicate Refused(v: Arg)
      requires Shape()
      reads region, region.heap, region.heap.tree, region.types, region.words, region.bytes
    {
      v.typ == Invalid || (v.Text? && NoRoom(region.heap.level, region.heap.live, |v.s| + 1))
    }

    /** The value is put into element `idx`, which is not in use, unless it has no known type
        or is a text for which there is no room.  The source sets the type of an element that
        is enqueued before it looks for room; nothing looks at it when there is none.  Unlike a
        write, a push asks for no more room than the text and its terminator need. */
    method PutInto(idx: nat, v: Arg) returns (ok: bool)
      requires Shape() && idx < fes.Length && !IsText(region.types[idx]) && ArgOk(v)
      modifies region`blocks, region`texts, region.heap`live, region.heap.tree, region.types, region.words, region.bytes
      ensures Shape()
      ensures ok <==> !old(Refused(v))
      ensures ok ==> Changes(old(region.Snapshot()), region.Snapshot(), idx, Kept(v))
      ensures ok ==> forall i :: 0 <= i < fes.Length && i != idx ==> region.types[i] == old(region.types[i])
      ensures !ok ==> region.Snapshot() == old(region.Snapshot())
    {
      if v.typ == Invalid {
        return false;
      }
      assert region.heap.live - Block(region.Snapshot(), idx) == region.heap.live;
      ok := region.Write(idx, Kept(v), |TextOf(v)|);
    }

    /** The value of element `idx`, whose block is freed if it is a text. */
    method TakeFrom(idx: nat) returns (v: Arg)
      requires Shape() && idx < fes.Length
      modifies region`blocks, region`texts, region.heap`live, region.heap.tree, region.types, region.words
      ensures Shape() && v == old(ValueOf(region.Snapshot(), idx)) && !IsText(region.types[idx])
      ensures Loses(old(region.Snapshot()), region.Snapshot(), idx)
      ensures forall i :: 0 <= i < fes.Length && i != idx ==> region.types[i] == old(region.types[i])
    {
      if IsText(region.types[idx]) {
        var typ := region.types[idx];
        var s := region.Read(idx);
        region.Discard(idx);
        v := Text(typ, s);
      } else {
        v := Word(region.types[idx], region.words[idx]);
      }
    }

    /** PutInto, and the element is marked FULL. */
    method Fill(idx: nat, v: Arg) returns (ok: bool)
      requires Shape() && idx < fes.Length && !IsText(region.types[idx]) && ArgOk(v)
      modifies fes
      modifies region`blocks, region`texts, region.heap`live, region.heap.tree, region.types, region.words, region.bytes
      ensures Shape() && (ok <==> !old(Refused(v)))
      ensures ok ==> Changes(old(region.Snapshot()), region.Snapshot(), idx, Kept(v)) && fes[..] == old(fes[..])[idx := Full]
      ensures ok ==> forall i :: 0 <= i < fes.Length && i != idx ==> region.types[i] == old(region.types[i])
      ensures !ok ==> region.Snapshot() == old(region.Snapshot()) && fes[..] == old(fes[..])
    {
      ok := PutInto(idx, v);
      if ok {
        fes[idx] := Full;
      }
    }

    /** EMSpush.  The stack holds at most NELEM - 1 values.  A push that fails leaves the stack
        pointer advanced and BUSY. */
    method Push(v: Arg) returns (idx: int)
      requires IsStack() && ArgOk(v)
      modifies this`top, this`topTag, this`contents, fes
      modifies region`blocks, region`texts, region.heap`live, region.heap.tree, region.types, region.words, region.bytes
      ensures Shape() && (idx < 0 <==> |old(contents)| == fes.Length - 1 || old(Refused(v)))
      ensures idx >= 0 ==> IsStack() && idx == old(top) && contents == StackStep(old(contents), Put(v)).0
      ensures idx >= 0 ==> Adds(old(contents), contents, v)
      ensures idx < 0 ==> idx == -1 && topTag == Busy && top == old(top) + 1 && contents == old(contents) && region.Snapshot() == old(region.Snapshot())
      ensures idx < 0 ==> fes[..] == if old(top) == fes.Length - 1 then old(fes[..]) else old(fes[..])[old(top) := Busy]
    {
      ghost var was, tags, types, n, s := region.Snapshot(), fes[..], region.types[..], top, contents;
      topTag := Busy;
      idx := Int32(top);
      FitsInt32(top);
      top := top + 1;
      if idx == fes.Length - 1 {
        return -1;
      }
      Acquire(idx, Empty);
      var ok := Fill(idx, v);
      if !ok {
        return -1;
      }
      topTag := Full;
      contents := contents + [Kept(v)];
      KeptAdds(s, v);
      StackTagsMore(tags, types, fes[..], region.types[..], n, top);
      StackMore(was, region.Snapshot(), s, Kept(v));
    }

    /** EMSpop. */
    method Pop() returns (v: Arg)
      requires IsStack()
      modifies this`top, this`topTag, this`contents, fes
      modifies region`blocks, region`texts, region.heap`live, region.heap.tree, region.types, region.words
      ensures IsStack()
      ensures if old(contents) == [] then contents == [] && v == Nothing() && v.typ == Undefined else old(contents) == contents + [v]
    {
      ghost var was, tags, types, n, s := region.Snapshot(), fes[..], region.types[..], top, contents;
      topTag := Busy;
      top := top - 1;
      var idx := top;
      if idx < 0 {
        top := 0;
        topTag := Full;
        return Nothing();
      }
      Acquire(idx, Full);
      v := TakeFrom(idx);
      fes[idx] := Empty;
      topTag := Full;
      contents := contents[..|contents| - 1];
      StackTagsLess(tags, types, fes[..], region.types[..], n, top);
      StackLess(was, region.Snapshot(), s);
    }

    /** The place in the circular buffer of a counter that only grows. */
    method Index(counter: nat) returns (idx: nat)
      requires 0 < fes.Length
      ensures idx == Wrap(counter, fes.Length)
    {
      WrapIsRemainder(counter, fes.Length);
      idx := counter % fes.Length;
    }

    /** EMSenqueue.  The queue holds at most NELEM values.  An enqueue that fails leaves the
        pointer advanced and BUSY. */
    method Enqueue(v: Arg) returns (idx: int)
      requires IsQueue() && ArgOk(v)
      modifies this`top, this`topTag, this`contents, fes
      modifies region`blocks, region`texts, region.heap`live, region.heap.tree, region.types, region.words, region.bytes
      ensures Shape() && (idx < 0 <==> |old(contents)| == fes.Length || old(Refused(v)))
      ensures idx >= 0 ==> IsQueue() && idx == Wrap(old(top), fes.Length) && contents == QueueStep(old(contents), Put(v)).0
      ensures idx >= 0 ==> Adds(old(contents), contents, v)
      ensures idx < 0 ==> idx == -1 && topTag == Busy && top == old(top) + 1 && contents == old(contents) && region.Snapshot() == old(region.Snapshot()) && fes[..] == old(fes[..])
    {
      ghost var was, tags, types, n, s := region.Snapshot(), fes[..], region.types[..], top, contents;
      topTag := Busy;
      var at := Index(top);
      FitsInt32(at);
      idx := Int32(at);
      top := top + 1;
      if top - bottom > fes.Length {
        return -1;
      }
      var ok := Fill(idx, v);
      if !ok {
        return -1;
      }
      topTag := Full;
      contents := contents + [Kept(v)];
      KeptAdds(s, v);
      TagsMore(tags, types, fes[..], region.types[..], bottom, n, top);
      QueueMore(was, region.Snapshot(), bottom, s, Kept(v));
    }

    /** The element is marked EMPTY, and then TakeFrom. */
    method Drain(idx: nat) returns (v: Arg)
      requires Shape() && idx < fes.Length
      modifies fes
      modifies region`blocks, region`texts, region.heap`live, region.heap.tree, region.types, region.words
      ensures Shape() && fes[..] == old(fes[..])[idx := Empty]
      ensures v == old(ValueOf(region.Snapshot(), idx)) && !IsText(region.types[idx])
      ensures Loses(old(region.Snapshot()), region.Snapshot(), idx)
      ensures forall i :: 0 <= i < fes.Length && i != idx ==> region.types[i] == old(region.types[i])
    {
      fes[idx] := Empty;
      v := TakeFrom(idx);
    }

    /** EMSdequeue.  Its pointer is marked FULL before the text is copied, which makes no
        difference to one thread. */
    method Dequeue() returns (v: Arg)
      requires IsQueue()
      modifies this`bottom, this`bottomTag, this`contents, fes
      modifies region`blocks, region`texts, region.heap`live, region.heap.tree, region.types, region.words
      ensures IsQueue()
      ensures if old(contents) == [] then contents == [] && v == Nothing() && v.typ == Undefined else old(contents) == [v] + contents
    {
      ghost var was, tags, types, n, s := region.Snapshot(), fes[..], region.types[..], bottom, contents;
      bottomTag := Busy;
      var idx := Index(bottom);
      if bottom >= top {
        bottom := top;
        bottomTag := Full;
        return Nothing();
      }
      bottom := bottom + 1;
      Acquire(idx, Full);
      v := Drain(idx);
      bottomTag := Full;
      contents := contents[1..];
      TagsLess(tags, types, fes[..], region.types[..], n, top, bottom);
      QueueLess(was, region.Snapshot(), n, s, bottom);
    }

    /** Nothing is left in the heap when nothing is left in the stack. */
    lemma {:induction false} EmptyStackHoldsNothing()
      requires IsStack() && contents == []
      ensures region.heap.live == {}
    {
      forall i: nat | i < fes.Length
        ensures !IsText(region.Snapshot().types[i])
      {
        assert fes[..][i] == Empty;
      }
      NoTextNoBlock(region.heap.level, region.Snapshot());
    }

    /** Nothing is left in the heap when nothing is left in the queue. */
    lemma {:induction false} EmptyQueueHoldsNothing()
      requires IsQueue() && contents == []
      ensures region.heap.live == {}
    {
      forall i: nat | i < fes.Length
        ensures !IsText(region.Snapshot().types[i])
      {
        var k := WrapCovers(bottom, i, fes.Length);
        assert Wrap(k, fes.Length) == i;
      }
      NoTextNoBlock(region.heap.level, region.Snapshot());
    }

    method DoStack(op: Op) returns (ok: bool, v: Arg)
      requires IsStack() && (op.Put? ==> ArgOk(op.v))
      modifies this`top, this`topTag, this`contents, fes
      modifies region`blocks, region`texts, region.heap`live, region.heap.tree, region.types, region.words, region.bytes
      ensures ok <==> !(op.Put? && (|old(contents)| == fes.Length - 1 || old(Refused(op.v))))
      ensures ok ==> IsStack() && (contents, v) == StackStep(old(contents), op)
      ensures !ok ==> Shape() && topTag == Busy && contents == old(contents) && region.Snapshot() == old(region.Snapshot())
    {
      match op
      case Put(x) =>
        var idx := Push(x);
        ok, v := idx >= 0, Nothing();
      case Take =>
        v := Pop();
        ok := true;
        TakeIs(contents, v);
    }

    /** A sequence of pushes and pops does and returns what it does on a stack of
        values, up to the first push that fails, which is one that finds no place or no room. */
    method RunStack(ops: seq<Op>) returns (got: seq<Arg>)
      requires IsStack() && forall k :: 0 <= k < |ops| && ops[k].Put? ==> ArgOk(ops[k].v)
      modifies this`top, this`topTag, this`contents, fes
      modifies region`blocks, region`texts, region.heap`live, region.heap.tree, region.types, region.words, region.bytes
      ensures StackRan(old(contents), ops, got, contents)
      ensures |got| == |ops| ==> IsStack()
      ensures |got| < |ops| ==> ops[|got|].Put? && topTag == Busy && Shape() && (|contents| == fes.Length - 1 || Refused(ops[|got|].v))
    {
      ghost var s := contents;
      got := [];
      while |got| < |ops|
        invariant IsStack() && StackRan(s, ops, got, contents)
      {
        ghost var now := contents;
        var ok, v := DoStack(ops[|got|]);
        if !ok {
          return;
        }
        StackRanOn(s, ops, got, now, contents, v);
        got := got + [v];
      }
    }

    method DoQueue(op: Op) returns (ok: bool, v: Arg)
      requires IsQueue() && (op.Put? ==> ArgOk(op.v))
      modifies this`top, this`topTag, this`bottom, this`bottomTag, this`contents, fes
      modifies region`blocks, region`texts, region.heap`live, region.heap.tree, region.types, region.words, region.bytes
      ensures ok <==> !(op.Put? && (|old(contents)| == fes.Length || old(Refused(op.v))))
      ensures ok ==> IsQueue() && (contents, v) == QueueStep(old(contents), op)
      ensures !ok ==> Shape() && topTag == Busy && contents == old(contents) && region.Snapshot() == old(region.Snapshot())
    {
      match op
      case Put(x) =>
        var idx := Enqueue(x);
        ok, v := idx >= 0, Nothing();
      case Take =>
        v := Dequeue();
        ok := true;
        TakeIs(contents, v);
    }

    /** A sequence of enqueues and dequeues does and returns what it does on a queue of
        values, up to the first enqueue that fails, which is one that finds no place or no room. */
    method RunQueue(ops: seq<Op>) returns (got: seq<Arg>)
      requires IsQueue() && forall k :: 0 <= k < |ops| && ops[k].Put? ==> ArgOk(ops[k].v)
      modifies this`top, this`topTag, this`bottom, this`bottomTag, this`contents, fes
      modifies region`blocks, region`texts, region.heap`live, region.heap.tree, region.types, region.words, region.bytes
      ensures QueueRan(old(contents), ops, got, contents)
      ensures |got| == |ops| ==> IsQueue()
      ensures |got| < |ops| ==> ops[|got|].Put? && topTag == Busy && Shape() && (|contents| == fes.Length || Refused(ops[|got|].v))
    {
      ghost var s := contents;
      got := [];
      while |got| < |ops|
        invariant IsQueue() && QueueRan(s, ops, got, contents)
      {
        ghost var now := contents;
        var ok, v := DoQueue(ops[|got|]);
        if !ok {
          return;
        }
        QueueRanOn(s, ops, got, now, contents, v);
        got := got + [v];
      }
    }
  }
}
