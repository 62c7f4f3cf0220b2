/** Loops whose iterations are divided among the threads beforehand: the static schedules of
    the two languages, and the loop that fills a new array. */
module StaticLoops {

  /** The size of the blocks into which `range` iterations are divided. */
  function BlockSize(range: int, n: nat): int
    requires n > 0
  {
    range / n + 1
  }

  /** The iterations that thread `id` of `n` runs: in Python, and with `start` zero when an
      array is filled. */
  function First(start: int, end: int, n: nat, id: nat): int
    requires n > 0
  {
    BlockSize(end - start, n) * id + start
  }

  function Limit(start: int, end: int, n: nat, id: nat): int
    requires n > 0
  {
    var e := BlockSize(end - start, n) * (id + 1) + start;
    if e > end then end else e
  }

  predicate Runs(start: int, end: int, n: nat, id: nat, i: int)
    requires n > 0
  {
    First(start, end, n, id) <= i < Limit(start, end, n, id)
  }

  /** The blocks are enough for all iterations. */
  lemma {:induction false} BlocksCover(range: int, n: nat)
    requires n > 0
    ensures BlockSize(range, n) * n > range
    ensures range < 0 <==> BlockSize(range, n) <= 0
  {
    var q := range / n;
    assert range == n * q + range % n;
    assert (q + 1) * n == n * q + n;
    if q >= 0 {
      NonNegativeProduct(n, q);
    } else {
      NonNegativeProduct(n, -q - 1);
      assert n * q == -(n * (-q - 1)) - n;
    }
  }

  lemma {:induction false} NonNegativeProduct(a: nat, b: nat)
    ensures a * b >= 0
  {}

  lemma {:induction false} LaterBlock(b: int, x: int, y: int)
    requires b >= 0 && x < y
    ensures b * x + b <= b * y
  {
    NonNegativeProduct(b, y - x - 1);
    assert b * y == b * x + b + b * (y - x - 1);
  }

  /** The thread in whose block iteration number `k` is. */
  lemma {:induction false} BlockOf(k: nat, b: nat, n: nat) returns (id: nat)
    requires b > 0 && k < b * n
    ensures id < n && b * id <= k < b * (id + 1)
  {
    id := k / b;
    assert k == b * id + k % b;
    assert b * (id + 1) == b * id + b;
    if id >= n {
      if id > n { LaterBlock(b, n, id); }
    }
  }

  /** Every iteration is run by exactly one thread, and nothing else is run. */
  lemma {:induction false} StaticExactlyOnce(start: int, end: int, n: nat, i: int)
    requires n > 0
    ensures start <= i < end <==> exists id: nat :: id < n && Runs(start, end, n, id, i)
    ensures forall x: nat, y: nat :: x < n && y < n && Runs(start, end, n, x, i) && Runs(start, end, n, y, i) ==> x == y
  {
    var b := BlockSize(end - start, n);
    BlocksCover(end - start, n);
    if start <= i < end {
      var id := BlockOf(i - start, b, n);
      assert Runs(start, end, n, id, i);
    }
    forall x: nat | x < n && Runs(start, end, n, x, i)
      ensures start <= i < end
    {
      RunsInside(start, end, n, x, i);
    }
    forall x: nat, y: nat | x < n && y < n && Runs(start, end, n, x, i) && Runs(start, end, n, y, i)
      ensures x == y
    {
      RunsInside(start, end, n, x, i);
      assert b * (x + 1) == b * x + b && b * (y + 1) == b * y + b;
      if x < y { LaterBlock(b, x, y); }
      if y < x { LaterBlock(b, y, x); }
    }
  }

  /** The iterations are divided evenly: no thread runs more than one more than its share. */
  lemma {:induction false} StaticEven(start: int, end: int, n: nat, id: nat, i: int, j: int)
    requires n > 0 && Runs(start, end, n, id, i) && Runs(start, end, n, id, j)
    ensures j - i <= (end - start) / n
  {
    var b := BlockSize(end - start, n);
    assert b * (id + 1) == b * id + b;
  }

  lemma {:induction false} RunsInside(start: int, end: int, n: nat, id: nat, i: int)
    requires n > 0 && Runs(start, end, n, id, i)
    ensures start <= i < end && BlockSize(end - start, n) > 0
  {
    var b := BlockSize(end - start, n);
    BlocksCover(end - start, n);
    assert b * (id + 1) == b * id + b;
    NonNegativeProduct(b, id);
  }

  // ---- The JavaScript schedule ----------------------------------------------------------

  /** The JavaScript schedule counts iterations from zero, but clips the count against the
      absolute end; iteration `i` is then run as number `i - start`. */
  predicate RunsJs(start: int, end: int, n: nat, id: nat, i: int)
    requires n > 0
  {
    var b := BlockSize(end - start, n);
    var e := if b * (id + 1) > end then end else b * (id + 1);
    b * id <= i - start < e
  }

  ghost predicate SomeRunsJs(start: int, end: int, n: nat, i: int)
    requires n > 0
  {
    exists id: nat :: id < n && RunsJs(start, end, n, id, i)
  }

  /** Each iteration of the loop is run by exactly one thread, and no other is run. */
  ghost predicate JsExactlyOnce(start: int, end: int, n: nat)
    requires n > 0
  {
    && (forall i :: start <= i < end <==> SomeRunsJs(start, end, n, i))
    && forall i, x: nat, y: nat :: x < n && y < n && RunsJs(start, end, n, x, i) && RunsJs(start, end, n, y, i) ==> x == y
  }

  /** The JavaScript schedule divides them as evenly. */
  lemma {:induction false} JsEven(start: int, end: int, n: nat, id: nat, i: int, j: int)
    requires n > 0 && RunsJs(start, end, n, id, i) && RunsJs(start, end, n, id, j)
    ensures j - i <= (end - start) / n
  {
    var b := BlockSize(end - start, n);
    assert b * (id + 1) == b * id + b;
  }

  /** What the JavaScript schedule runs altogether, each iteration in one thread. */
  lemma {:induction false} JsRuns(start: int, end: int, n: nat, i: int)
    requires n > 0
    ensures var b := BlockSize(end - start, n);
      SomeRunsJs(start, end, n, i) <==> b > 0 && 0 <= i - start < end && i - start < b * n
    ensures forall x: nat, y: nat :: x < n && y < n && RunsJs(start, end, n, x, i) && RunsJs(start, end, n, y, i) ==> x == y
  {
    var b := BlockSize(end - start, n);
    if b > 0 && 0 <= i - start < end && i - start < b * n {
      var id := BlockOf(i - start, b, n);
      assert RunsJs(start, end, n, id, i);
    }
    forall x: nat | x < n && RunsJs(start, end, n, x, i)
      ensures b > 0 && 0 <= i - start < end && i - start < b * n
    {
      assert b * (x + 1) == b * x + b;
      NonNegativeProduct(b, x);
      if x + 1 < n { LaterBlock(b, x + 1, n); }
    }
    forall x: nat, y: nat | x < n && y < n && RunsJs(start, end, n, x, i) && RunsJs(start, end, n, y, i)
      ensures x == y
    {
      assert b * (x + 1) == b * x + b && b * (y + 1) == b * y + b;
      if x < y { LaterBlock(b, x, y); }
      if y < x { LaterBlock(b, y, x); }
    }
  }

  /** The JavaScript schedule is right exactly for loops from zero, and for some that have no
      iterations. */
  lemma {:induction false} JsRightExactly(start: int, end: int, n: nat)
    requires n > 0
    ensures JsExactlyOnce(start, end, n) <==>
      end < start || (end == start && end <= 0) || (end > start && start == 0)
  {
    BlocksCover(end - start, n);
    var right := end < start || (end == start && end <= 0) || (end > start && start == 0);
    forall i
      ensures right ==> (start <= i < end <==> SomeRunsJs(start, end, n, i))
    {
      JsRuns(start, end, n, i);
    }
    forall i, x: nat, y: nat | x < n && y < n && RunsJs(start, end, n, x, i) && RunsJs(start, end, n, y, i)
      ensures x == y
    {
      JsRuns(start, end, n, i);
    }
    if !right {
      JsWrong(start, end, n);
    }
  }

  /** An iteration that is run though it should not be, or the other way round. */
  lemma {:induction false} JsWrong(start: int, end: int, n: nat)
    requires n > 0 && end >= start && !(end == start && end <= 0) && !(end > start && start == 0)
    ensures !JsExactlyOnce(start, end, n)
  {
    BlocksCover(end - start, n);
    var i := if start > 0 then end else start + Max(end, 0);
    JsRuns(start, end, n, i);
    assert start <= i < end <==> !SomeRunsJs(start, end, n, i);
  }

  function Max(a: int, b: int): int {
    if a >= b then a else b
  }

  // ---- The loops ---------------------------------------------------------------------------

  lemma {:induction false} RanBlock(start: int, end: int, n: nat, id: nat, ran: seq<int>)
    requires n > 0
    requires var s, e := First(start, end, n, id), Limit(start, end, n, id);
      |ran| == (if s < e then e - s else 0) && forall k :: 0 <= k < |ran| ==> ran[k] == s + k
    ensures forall i :: i in ran <==> Runs(start, end, n, id, i)
    ensures |ran| <= if end < start then 0 else (end - start) / n + 1
  {
    var s, b := First(start, end, n, id), BlockSize(end - start, n);
    BlocksCover(end - start, n);
    assert b * (id + 1) == b * id + b;
    forall i | Runs(start, end, n, id, i)
      ensures i in ran
    {
      assert ran[i - s] == i;
    }
  }

  /** The static loop of one thread in Python: what it runs, in order. */
  method RunStatic(start: int, end: int, n: nat, id: nat) returns (ran: seq<int>)
    requires n > 0
    ensures forall i :: i in ran <==> Runs(start, end, n, id, i)
    ensures forall j, k :: 0 <= j < k < |ran| ==> ran[j] < ran[k]
    ensures |ran| <= if end < start then 0 else (end - start) / n + 1
  {
    var blocksz := (end - start) / n + 1;
    var s := blocksz * id + start;
    var e := blocksz * (id + 1) + start;
    if e > end {
      e := end;
    }
    ran := [];
    var idx := s;
    while idx < e
      invariant s <= idx && (idx <= e || idx == s)
      invariant |ran| == idx - s && forall k :: 0 <= k < |ran| ==> ran[k] == s + k
    {
      ran := ran + [idx];
      idx := idx + 1;
    }
    RanBlock(start, end, n, id, ran);
  }
}
