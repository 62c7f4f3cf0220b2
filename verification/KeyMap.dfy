/** The open-addressed map from keys to element indexes: linear probing over at most 200
    slots, without deletion, used by one thread at a time.

    `Get` and `Put` say what a lookup and an insert do in terms of the first slot on the
    key's way that is unused or holds the key; class KeyMap does it with the loops of the
    source. */
module KeyMap {
  import opened Wrapping

  /** Keys of the types that can be mapped.  Integers, booleans and opaque strings are
      compared by value, as are numbers that are neither NaN nor zero with a sign. */
  datatype Key = KBool(b: bool) | KInt(i: int) | KFloat(r: real) | KString(s: string)

  /** One entry of the map: its tag has type UNDEFINED until a key is stored. */
  datatype Slot = Unused | Used(key: Key)

  const MAX_OPEN_HASH_STEPS: nat := 200

  /** Where the search for a key starts, before it is reduced to the size of the array. */
  type Hash = Key -> nat

  /** The remainder of C, which keeps the sign of the first operand. */
  function Rem(a: int, n: int): int
    requires n > 0
  {
    if a >= 0 then a % n else -(-a % n)
  }

  /** The search for `k` ends when its index has been counted up to `p`. */
  predicate Stops(t: seq<Slot>, k: Key, p: nat)
    requires |t| > 0
  {
    t[Wrap(p, |t|)] == Unused || t[Wrap(p, |t|)] == Used(k)
  }

  /** The first stop from `p` on, or `limit` if there is none before it. */
  function FirstStop(t: seq<Slot>, k: Key, p: nat, limit: nat): (r: nat)
    requires |t| > 0 && p <= limit
    ensures p <= r <= limit
    ensures r < limit ==> Stops(t, k, r)
    ensures forall q: nat :: p <= q < r ==> !Stops(t, k, q)
    decreases limit - p
  {
    if p >= limit || Stops(t, k, p) then p else FirstStop(t, k, p + 1, limit)
  }

  /** Where the search for a key gives up. */
  function Limit(hash: Hash, k: Key): nat {
    hash(k) + MAX_OPEN_HASH_STEPS
  }

  /** Where `k` is, or would be put. */
  function Place(hash: Hash, t: seq<Slot>, k: Key): nat
    requires |t| > 0
  {
    FirstStop(t, k, hash(k), Limit(hash, k))
  }

  /** The index of an absent key: -1, except that -1 % 1 is 0. */
  function Absent(n: nat): int
    requires n > 0
  {
    Rem(-1, n)
  }

  lemma {:induction false} AbsentIs(n: nat)
    requires n > 0
    ensures Absent(n) == if n == 1 then 0 else -1
  {
    assert n > 1 ==> 1 % n == 1;
  }

  function Get(hash: Hash, t: seq<Slot>, k: Key): int
    requires |t| > 0
  {
    var p := Place(hash, t, k);
    if p < Limit(hash, k) && t[Wrap(p, |t|)] == Used(k) then Wrap(p, |t|) else Absent(|t|)
  }

  function Put(hash: Hash, t: seq<Slot>, k: Key): (r: (seq<Slot>, int))
    requires |t| > 0
    ensures |r.0| == |t|
  {
    var p := Place(hash, t, k);
    if p < Limit(hash, k) then
      var i: int := Wrap(p, |t|);
      (t[i := Used(k)], i)
    else (t, -1)
  }

  /** A new string key, for whose text there is no room in the heap. */
  predicate Unroomed(hash: Hash, t: seq<Slot>, k: Key, room: bool)
    requires |t| > 0
  {
    var p := Place(hash, t, k);
    !room && k.KString? && p < Limit(hash, k) && t[Wrap(p, |t|)] == Unused
  }

  /** Every key is at the first stop on its way; so it is in one place only. */
  ghost predicate TableOk(hash: Hash, t: seq<Slot>) {
    && |t| > 0
    && forall i: nat {:trigger t[i]} :: i < |t| && t[i].Used? ==> Placed(hash, t, t[i].key, i)
  }

  predicate Placed(hash: Hash, t: seq<Slot>, k: Key, i: nat)
    requires |t| > 0
  {
    Place(hash, t, k) < Limit(hash, k) && Wrap(Place(hash, t, k), |t|) == i
  }

  /** An array of `n` elements and a map without keys. */
  function EmptyTable(n: nat): seq<Slot> {
    seq(n, _ => Unused)
  }

  lemma {:induction false} FirstStopIs(t: seq<Slot>, k: Key, p: nat, limit: nat, r: nat)
    requires |t| > 0 && p <= r < limit && Stops(t, k, r)
    requires forall q: nat :: p <= q < r ==> !Stops(t, k, q)
    ensures FirstStop(t, k, p, limit) == r
  {}

  // ---- One insert ------------------------------------------------------------------

  /** An insert moves no other key, and an unused slot it takes was on nobody's way. */
  lemma {:induction false} PutPlaces(hash: Hash, t: seq<Slot>, k: Key, j: Key, i: nat)
    requires TableOk(hash, t) && i < |t| && t[i] == Used(j) && Put(hash, t, k).1 >= 0
    ensures Put(hash, t, k).0[i] == Used(j) && Placed(hash, Put(hash, t, k).0, j, i)
  {
    var t', r := Put(hash, t, k).0, Place(hash, t, j);
    assert Placed(hash, t, t[i].key, i);
    forall q: nat | hash(j) <= q < r
      ensures !Stops(t', j, q)
    {
      assert !Stops(t, j, q);
    }
    FirstStopIs(t', j, hash(j), Limit(hash, j), r);
  }

  /** The inserted key itself ends up at the first stop on its way. */
  lemma {:induction false} PutPlacesKey(hash: Hash, t: seq<Slot>, k: Key)
    requires |t| > 0 && Put(hash, t, k).1 >= 0
    ensures Placed(hash, Put(hash, t, k).0, k, Put(hash, t, k).1)
  {
    var t', r := Put(hash, t, k).0, Place(hash, t, k);
    forall q: nat | hash(k) <= q < r
      ensures !Stops(t', k, q)
    {
      assert !Stops(t, k, q);
    }
    FirstStopIs(t', k, hash(k), Limit(hash, k), r);
  }

  lemma {:induction false} PutKeepsTable(hash: Hash, t: seq<Slot>, k: Key)
    requires TableOk(hash, t)
    ensures TableOk(hash, Put(hash, t, k).0)
  {
    var t', at := Put(hash, t, k).0, Put(hash, t, k).1;
    if at >= 0 {
      PutPlacesKey(hash, t, k);
      forall i: nat | i < |t'| && t'[i].Used?
        ensures Placed(hash, t', t'[i].key, i)
      {
        if i != at { PutPlaces(hash, t, k, t[i].key, i); }
      }
    }
  }

  /** The key is in the table, at index `i`. */
  predicate Maps(t: seq<Slot>, k: Key, i: int) {
    0 <= i < |t| && t[i] == Used(k)
  }

  /** A lookup finds a key exactly where it is. */
  lemma {:induction false} GetFinds(hash: Hash, t: seq<Slot>, k: Key)
    requires TableOk(hash, t)
    ensures forall i: int :: Maps(t, k, i) ==> Get(hash, t, k) == i
    ensures (forall i: int :: !Maps(t, k, i)) ==> Get(hash, t, k) == Absent(|t|)
  {
    forall i: int | Maps(t, k, i)
      ensures Get(hash, t, k) == i
    {
      assert Placed(hash, t, t[i].key, i);
    }
    var i := Wrap(Place(hash, t, k), |t|);
    assert t[i] == Used(k) ==> Maps(t, k, i);
  }

  /** Two keys never share an index, and a key has one index. */
  lemma {:induction false} OneToOne(hash: Hash, t: seq<Slot>, j: Key, k: Key, x: int, y: int)
    requires TableOk(hash, t) && Maps(t, j, x) && Maps(t, k, y)
    ensures j == k <==> x == y
  {
    GetFinds(hash, t, j);
    GetFinds(hash, t, k);
  }

  /** Looking up the key of an occupied slot gives the slot's index, and the key of the
      index of a key is that key. */
  lemma {:induction false} RoundTrip(hash: Hash, t: seq<Slot>, k: Key, i: int)
    requires TableOk(hash, t)
    ensures 0 <= i < |t| && t[i].Used? ==> Get(hash, t, t[i].key) == i
    ensures var r := Put(hash, t, k); r.1 >= 0 ==> r.1 < |t| && r.0[r.1] == Used(k) && Get(hash, r.0, k) == r.1
  {
    if 0 <= i < |t| && t[i].Used? {
      GetFinds(hash, t, t[i].key);
      assert Maps(t, t[i].key, i);
    }
    var r := Put(hash, t, k);
    PutKeepsTable(hash, t, k);
    GetFinds(hash, r.0, k);
    if r.1 >= 0 {
      assert Maps(r.0, k, r.1);
    }
  }

  /** An insert of one key leaves all the others where they are, or absent. */
  lemma {:induction false} PutFrame(hash: Hash, t: seq<Slot>, k: Key, j: Key, i: int)
    requires TableOk(hash, t) && j != k
    ensures Maps(Put(hash, t, k).0, j, i) <==> Maps(t, j, i)
  {
    if Put(hash, t, k).1 >= 0 && Maps(t, j, i) {
      PutPlaces(hash, t, k, j, i);
    }
  }

  /** A key that is there already keeps its index. */
  lemma {:induction false} PutAgain(hash: Hash, t: seq<Slot>, k: Key, i: int)
    requires TableOk(hash, t) && Maps(t, k, i)
    ensures Put(hash, t, k) == (t, i)
  {
    assert Placed(hash, t, t[i].key, i);
    assert t[i := Used(k)] == t;
  }

  // ---- When an insert fails -----------------------------------------------------------

  function Min(a: nat, b: nat): nat {
    if a < b then a else b
  }

  /** Slot number `d` on the key's way holds another key. */
  predicate Taken(hash: Hash, t: seq<Slot>, k: Key, d: nat)
    requires |t| > 0
  {
    t[Wrap(hash(k) + d, |t|)].Used? && t[Wrap(hash(k) + d, |t|)].key != k
  }

  lemma {:induction false} RemOfIndex(i: nat, n: nat)
    requires i < n
    ensures Rem(i, n) == i
  {}

  lemma {:induction false} TakenBeyond(hash: Hash, t: seq<Slot>, k: Key, d: nat)
    requires |t| > 0 && forall e: nat :: e < |t| ==> Taken(hash, t, k, e)
    ensures Taken(hash, t, k, d)
  {
    if d >= |t| {
      assert Wrap(hash(k) + d, |t|) == Wrap(hash(k) + (d - |t|), |t|);
      TakenBeyond(hash, t, k, d - |t|);
    }
  }

  /** An insert fails exactly when each of the min(200, NELEM) slots on the key's way holds
      another key; a failed insert changes nothing. */
  lemma {:induction false} PutFails(hash: Hash, t: seq<Slot>, k: Key)
    requires |t| > 0
    ensures Put(hash, t, k).1 < 0 <==> forall d: nat :: d < Min(200, |t|) ==> Taken(hash, t, k, d)
    ensures Put(hash, t, k).1 < 0 ==> Put(hash, t, k) == (t, -1)
  {
    var r := Place(hash, t, k);
    if Put(hash, t, k).1 < 0 {
      forall d: nat | d < MAX_OPEN_HASH_STEPS
        ensures Taken(hash, t, k, d)
      {
        assert !Stops(t, k, hash(k) + d);
      }
    } else {
      var d := r - hash(k);
      assert Stops(t, k, r) && !Taken(hash, t, k, d);
      if |t| <= d {
        if forall e: nat :: e < |t| ==> Taken(hash, t, k, e) { TakenBeyond(hash, t, k, d); }
      }
    }
  }

  /** Slot number `d` from hash value `h` on. */
  function SlotOf(t: seq<Slot>, h: nat, d: nat): Slot
    requires |t| > 0
  {
    t[(h + d) % |t|]
  }

  lemma {:induction false} SlotIs(t: seq<Slot>, h: nat, d: nat, p: nat)
    requires |t| > 0 && p == h + d
    ensures SlotOf(t, h, d) == t[Wrap(p, |t|)] && p % |t| == Wrap(p, |t|)
  {
    WrapIsRemainder(p, |t|);
  }

  /** Slot number `d` on the key's way is free for the key or holds it, and the slots before it
      hold other keys. */
  predicate FirstOnWay(hash: Hash, t: seq<Slot>, k: Key, d: nat)
    requires |t| > 0
  {
    && (SlotOf(t, hash(k), d) == Unused || SlotOf(t, hash(k), d) == Used(k))
    && forall e: nat :: e < d ==> SlotOf(t, hash(k), e).Used? && SlotOf(t, hash(k), e).key != k
  }

  /** An insert that succeeds puts the key, or finds it, at the first slot on its way that is
      unused or holds it, and changes no other. */
  lemma {:induction false} PutIsFirst(hash: Hash, t: seq<Slot>, k: Key) returns (d: nat)
    requires |t| > 0 && Put(hash, t, k).1 >= 0
    ensures d < 200 && FirstOnWay(hash, t, k, d)
    ensures Put(hash, t, k).1 == (hash(k) + d) % |t| && Put(hash, t, k).0 == t[Put(hash, t, k).1 := Used(k)]
  {
    var p := Place(hash, t, k);
    d := p - hash(k);
    SlotIs(t, hash(k), d, p);
    forall e: nat | e < d
      ensures SlotOf(t, hash(k), e).Used? && SlotOf(t, hash(k), e).key != k
    {
      SlotIs(t, hash(k), e, hash(k) + e);
      assert !Stops(t, k, hash(k) + e);
    }
  }

  /** The first NELEM slots on a key's way are all there are. */
  lemma {:induction false} WayVisitsAll(h: nat, n: nat, i: nat) returns (d: nat)
    requires i < n
    ensures d < n && Wrap(h + d, n) == i
  {
    var from := Wrap(h, n);
    d := if i >= from then i - from else i - from + n;
    WrapOnce(h, d, n);
  }

  /** In an array of at most 200 elements an insert fails exactly when every slot of the
      map holds another key. */
  lemma {:induction false} SmallTableFails(hash: Hash, t: seq<Slot>, k: Key)
    requires 0 < |t| <= 200
    ensures Put(hash, t, k).1 < 0 <==> forall i: nat :: i < |t| ==> t[i].Used? && t[i].key != k
  {
    PutFails(hash, t, k);
    if Put(hash, t, k).1 < 0 {
      forall i: nat | i < |t|
        ensures t[i].Used? && t[i].key != k
      {
        var d := WayVisitsAll(hash(k), |t|, i);
        assert Taken(hash, t, k, d);
      }
    }
  }

  // ---- Any sequence of inserts ------------------------------------------------------------

  /** The map after inserting the first `m` of some keys. */
  function Table(hash: Hash, n: nat, ks: seq<Key>, m: nat): (t: seq<Slot>)
    requires n > 0 && m <= |ks|
    ensures |t| == n
  {
    if m <= 0 then EmptyTable(n) else Put(hash, Table(hash, n, ks, m - 1), ks[m - 1]).0
  }

  /** The index that insert number `m` returned. */
  function Returned(hash: Hash, n: nat, ks: seq<Key>, m: nat): int
    requires n > 0 && m < |ks|
  {
    Put(hash, Table(hash, n, ks, m), ks[m]).1
  }

  /** What a caller knows after the first `m` inserts: the index each key was given. */
  function Known(hash: Hash, n: nat, ks: seq<Key>, m: nat): map<Key, int>
    requires n > 0 && m <= |ks|
  {
    if m <= 0 then map[]
    else
      var before := Known(hash, n, ks, m - 1);
      if Returned(hash, n, ks, m - 1) >= 0 then before[ks[m - 1] := Returned(hash, n, ks, m - 1)] else before
  }

  lemma {:induction false} TableAlwaysOk(hash: Hash, n: nat, ks: seq<Key>, m: nat)
    requires n > 0 && m <= |ks|
    ensures TableOk(hash, Table(hash, n, ks, m))
  {
    if m > 0 {
      TableAlwaysOk(hash, n, ks, m - 1);
      PutKeepsTable(hash, Table(hash, n, ks, m - 1), ks[m - 1]);
    }
  }

  /** The table holds what the caller knows. */
  lemma {:induction false} TableIsKnown(hash: Hash, n: nat, ks: seq<Key>, m: nat, k: Key, i: int)
    requires n > 0 && m <= |ks|
    ensures Maps(Table(hash, n, ks, m), k, i) <==> k in Known(hash, n, ks, m) && Known(hash, n, ks, m)[k] == i
  {
    if m > 0 {
      var t, j := Table(hash, n, ks, m - 1), ks[m - 1];
      TableAlwaysOk(hash, n, ks, m - 1);
      TableAlwaysOk(hash, n, ks, m);
      TableIsKnown(hash, n, ks, m - 1, k, i);
      if k != j {
        PutFrame(hash, t, j, k, i);
      } else if Put(hash, t, j).1 >= 0 {
        assert Maps(Put(hash, t, j).0, j, Put(hash, t, j).1);
        if Maps(Put(hash, t, j).0, j, i) { OneToOne(hash, Put(hash, t, j).0, j, j, i, Put(hash, t, j).1); }
      }
    }
  }

  /** After any sequence of inserts a lookup agrees with the partial map of the indexes the
      inserts returned; for a key without one it gives -1, or 0 in an array of one element. */
  lemma {:induction false} LookupAgrees(hash: Hash, n: nat, ks: seq<Key>, m: nat, k: Key)
    requires n > 0 && m <= |ks|
    ensures var known := Known(hash, n, ks, m);
      Get(hash, Table(hash, n, ks, m), k) == if k in known then known[k] else if n == 1 then 0 else -1
  {
    var known := Known(hash, n, ks, m);
    TableAlwaysOk(hash, n, ks, m);
    AbsentIs(n);
    GetFinds(hash, Table(hash, n, ks, m), k);
    if k in known {
      TableIsKnown(hash, n, ks, m, k, known[k]);
    } else {
      forall i: int
        ensures !Maps(Table(hash, n, ks, m), k, i)
      {
        TableIsKnown(hash, n, ks, m, k, i);
      }
    }
  }

  /** A lookup tells absent from present keys exactly in arrays of at least two elements. */
  lemma {:induction false} AbsentIsTold(hash: Hash, n: nat, ks: seq<Key>)
    requires n > 0
    ensures n >= 2 <==> forall k: Key :: Get(hash, Table(hash, n, ks, |ks|), k) < 0 <==> k !in Known(hash, n, ks, |ks|)
  {
    forall k: Key
      ensures n >= 2 ==> (Get(hash, Table(hash, n, ks, |ks|), k) < 0 <==> k !in Known(hash, n, ks, |ks|))
      ensures n == 1 ==> Get(hash, Table(hash, n, ks, |ks|), k) == 0
    {
      LookupAgrees(hash, n, ks, |ks|, k);
      if k in Known(hash, n, ks, |ks|) {
        TableIsKnown(hash, n, ks, |ks|, k, Known(hash, n, ks, |ks|)[k]);
      }
    }
    if n == 1 {
      OneElement(hash, ks);
    }
  }

  /** In an array of one element some key is absent, and its lookup says otherwise. */
  lemma {:induction false} OneElement(hash: Hash, ks: seq<Key>)
    ensures exists k: Key :: k !in Known(hash, 1, ks, |ks|) && Get(hash, Table(hash, 1, ks, |ks|), k) == 0
  {
    var a, b := KBool(false), KBool(true);
    var known := Known(hash, 1, ks, |ks|);
    LookupAgrees(hash, 1, ks, |ks|, a);
    LookupAgrees(hash, 1, ks, |ks|, b);
    TableAlwaysOk(hash, 1, ks, |ks|);
    if a in known && b in known {
      TableIsKnown(hash, 1, ks, |ks|, a, known[a]);
      TableIsKnown(hash, 1, ks, |ks|, b, known[b]);
      OneToOne(hash, Table(hash, 1, ks, |ks|), a, b, known[a], known[b]);
    }
    assert a !in known || b !in known;
  }

  /** A key's index never changes once it is assigned, whatever is inserted later. */
  lemma {:induction false} IndexStays(hash: Hash, n: nat, ks: seq<Key>, m: nat, m': nat, k: Key)
    requires n > 0 && m <= m' <= |ks| && k in Known(hash, n, ks, m)
    ensures k in Known(hash, n, ks, m') && Known(hash, n, ks, m')[k] == Known(hash, n, ks, m)[k]
    decreases m'
  {
    if m < m' {
      IndexStays(hash, n, ks, m, m' - 1, k);
      KnownNext(hash, n, ks, m' - 1, k);
    }
  }

  /** One more insert leaves the index of a key that has one. */
  lemma {:induction false} KnownNext(hash: Hash, n: nat, ks: seq<Key>, m: nat, k: Key)
    requires n > 0 && m < |ks| && k in Known(hash, n, ks, m)
    ensures k in Known(hash, n, ks, m + 1) && Known(hash, n, ks, m + 1)[k] == Known(hash, n, ks, m)[k]
  {
    if ks[m] == k {
      var i := Known(hash, n, ks, m)[k];
      TableAlwaysOk(hash, n, ks, m);
      TableIsKnown(hash, n, ks, m, k, i);
      PutAgain(hash, Table(hash, n, ks, m), k, i);
    }
  }

  /** Distinct keys are given distinct indexes. */
  lemma {:induction false} IndexesDiffer(hash: Hash, n: nat, ks: seq<Key>, m: nat, j: Key, k: Key)
    requires n > 0 && m <= |ks| && j != k
    requires j in Known(hash, n, ks, m) && k in Known(hash, n, ks, m)
    ensures Known(hash, n, ks, m)[j] != Known(hash, n, ks, m)[k]
  {
    var known := Known(hash, n, ks, m);
    TableAlwaysOk(hash, n, ks, m);
    TableIsKnown(hash, n, ks, m, j, known[j]);
    TableIsKnown(hash, n, ks, m, k, known[k]);
    OneToOne(hash, Table(hash, n, ks, m), j, k, known[j], known[k]);
  }

  // ---- The loops of the source ------------------------------------------------------------

  /** The search for `k` has not stopped from the start of its way up to `p`. */
  ghost predicate Searched(hash: Hash, t: seq<Slot>, k: Key, p: nat)
    requires |t| > 0
  {
    hash(k) <= p <= Limit(hash, k) && forall q: nat :: hash(k) <= q < p ==> !Stops(t, k, q)
  }

  lemma {:induction false} SearchOn(hash: Hash, t: seq<Slot>, k: Key, p: nat)
    requires |t| > 0 && Searched(hash, t, k, p) && p < Limit(hash, k) && !Stops(t, k, p)
    ensures Searched(hash, t, k, p + 1) && Wrap(p + 1, |t|) == Wrap(Wrap(p, |t|) + 1, |t|)
  {
    WrapOnce(p, 1, |t|);
  }

  /** What a search that stops at `p`, or at none of its steps, has found. */
  lemma {:induction false} SearchEnds(hash: Hash, t: seq<Slot>, k: Key, p: nat)
    requires |t| > 0 && Searched(hash, t, k, p) && (p < Limit(hash, k) ==> Stops(t, k, p))
    ensures Place(hash, t, k) == p
    ensures p < Limit(hash, k) ==> Put(hash, t, k) == (t[Wrap(p, |t|) := Used(k)], Wrap(p, |t|))
    ensures p == Limit(hash, k) ==> Put(hash, t, k) == (t, -1)
    ensures p < Limit(hash, k) && t[Wrap(p, |t|)] == Used(k) ==> Get(hash, t, k) == Wrap(p, |t|)
    ensures p == Limit(hash, k) || t[Wrap(p, |t|)] == Unused ==> Get(hash, t, k) == Rem(-1, |t|)
    ensures forall room: bool :: Unroomed(hash, t, k, room) <==> !room && k.KString? && p < Limit(hash, k) && t[Wrap(p, |t|)] == Unused
  {
    if p < Limit(hash, k) {
      FirstStopIs(t, k, hash(k), Limit(hash, k), p);
    }
  }

  lemma {:induction false} FoundIsPut(hash: Hash, t: seq<Slot>, k: Key)
    requires TableOk(hash, t) && Get(hash, t, k) > 0
    ensures Put(hash, t, k) == (t, Get(hash, t, k)) && !Unroomed(hash, t, k, false)
  {
    AbsentIs(|t|);
    assert Maps(t, k, Get(hash, t, k));
    PutAgain(hash, t, k, Get(hash, t, k));
  }

  class KeyMap {
    var slots: array<Slot>
    const hash: Hash
    var stuck: int

    /** No slot has been left BUSY for good. */
    ghost predicate Valid()
      reads this, slots
    {
      slots.Length > 0 && TableOk(hash, slots[..]) && stuck == -1
    }

    constructor (n: nat, hash: Hash)
      requires n > 0
      ensures Valid() && fresh(slots) && slots[..] == EmptyTable(n) && this.hash == hash
    {
      slots := new Slot[n](_ => Unused);
      this.hash := hash;
      stuck := -1;
    }

    /** An index counted up beyond the end starts again at the front. */
    method Reduce(idx: int) returns (r: int)
      requires idx >= 0 && slots.Length > 0
      ensures r == Wrap(idx, slots.Length)
    {
      r := idx % slots.Length;
      WrapIsRemainder(idx, slots.Length);
    }

    /** EMSkey2index of a mapped array. */
    method Lookup(key: Key) returns (idx: int)
      requires Valid()
      ensures idx == Get(hash, slots[..], key)
    {
      ghost var t := slots[..];
      ghost var p: nat := hash(key);
      idx := hash(key);
      var nTries: nat, matched, notPresent := 0, false, false;
      while nTries < MAX_OPEN_HASH_STEPS && !matched && !notPresent
        invariant nTries <= MAX_OPEN_HASH_STEPS && idx >= 0
        invariant Searched(hash, t, key, p)
        invariant matched ==> idx == Wrap(p, |t|) && t[idx] == Used(key) && p < Limit(hash, key)
        invariant notPresent ==> t[Wrap(p, |t|)] == Unused && p < Limit(hash, key)
        invariant !matched && !notPresent ==> Wrap(idx, |t|) == Wrap(p, |t|) && p == hash(key) + nTries
        decreases MAX_OPEN_HASH_STEPS - nTries, if matched || notPresent then 0 else 1
      {
        idx := Reduce(idx);
        if slots[idx] == Used(key) {
          matched := true;
        }
        if slots[idx] == Unused {
          notPresent := true;
        }
        if !matched {
          if !notPresent {
            SearchOn(hash, t, key, p);
            p := p + 1;
          }
          nTries := nTries + 1;
          idx := idx + 1;
        }
      }
      SearchEnds(hash, t, key, p);
      if !matched {
        idx := -1;
      } else {
        RemOfIndex(idx, |t|);
      }
      idx := Rem(idx, slots.Length);
    }

    /** EMSwriteIndexMap of a mapped array, when the heap has room for the text of a new
        key or, if not `room`, has none.  Without room a new string key fails, and the slot it
        was to have stays BUSY. */
    method Insert(key: Key, room: bool) returns (idx: int)
      requires Valid()
      modifies slots, this`stuck
      ensures slots == old(slots)
      ensures Valid() <==> !Unroomed(hash, old(slots[..]), key, room)
      ensures !Unroomed(hash, old(slots[..]), key, room) ==> (slots[..], idx) == Put(hash, old(slots[..]), key)
      ensures Unroomed(hash, old(slots[..]), key, room) ==>
        idx == -1 && slots[..] == old(slots[..]) && stuck == Put(hash, old(slots[..]), key).1
    {
      ghost var t := slots[..];
      idx := Lookup(key);
      if idx > 0 {
        FoundIsPut(hash, t, key);
        return;
      }
      PutKeepsTable(hash, t, key);
      idx := Probe(key, room);
    }

    /** The loop of EMSwriteIndexMap: take the first slot that is unused or holds the key. */
    method Probe(key: Key, room: bool) returns (idx: int)
      requires slots.Length > 0
      modifies slots, this`stuck
      ensures slots == old(slots)
      ensures !Unroomed(hash, old(slots[..]), key, room) ==> (slots[..], idx) == Put(hash, old(slots[..]), key) && stuck == old(stuck)
      ensures Unroomed(hash, old(slots[..]), key, room) ==>
        idx == -1 && slots[..] == old(slots[..]) && stuck == Put(hash, old(slots[..]), key).1
    {
      ghost var t := slots[..];
      ghost var p: nat := hash(key);
      idx := Reduce(hash(key));
      WrapOnce(hash(key), 0, |t|);
      var nTries: nat, matched := 0, false;
      while nTries < MAX_OPEN_HASH_STEPS && !matched
        invariant nTries <= MAX_OPEN_HASH_STEPS && idx >= 0 && p == hash(key) + nTries
        invariant Searched(hash, t, key, p)
        invariant matched ==> idx == Wrap(p, |t|) && Stops(t, key, p) && p < Limit(hash, key)
        invariant !matched ==> Wrap(idx, |t|) == Wrap(p, |t|)
        invariant slots[..] == if matched then t[Wrap(p, |t|) := Used(key)] else t
        invariant stuck == old(stuck) && (matched ==> t[Wrap(p, |t|)] == Used(key) || room || !key.KString?)
        decreases MAX_OPEN_HASH_STEPS - nTries, if matched then 0 else 1
      {
        idx := Reduce(idx);
        if slots[idx] == Used(key) {
          matched := true;
        } else if slots[idx] == Unused {
          if key.KString? && !room {
            SearchEnds(hash, t, key, p);
            stuck := idx;
            return -1;
          }
          slots[idx] := Used(key);
          matched := true;
        }
        if !matched {
          SearchOn(hash, t, key, p);
          p := p + 1;
          nTries := nTries + 1;
          idx := idx + 1;
        }
      }
      SearchEnds(hash, t, key, p);
      if nTries >= MAX_OPEN_HASH_STEPS {
        idx := -1;
      }
    }

    /** EMSindex2key of a mapped array: a slot that is not used has no key. */
    method KeyAt(idx: int) returns (ok: bool, key: Slot)
      requires Valid()
      ensures ok <==> 0 <= idx < slots.Length
      ensures ok ==> key == slots[idx]
      ensures ok && key.Used? ==> Get(hash, slots[..], key.key) == idx
    {
      if idx < 0 || idx >= slots.Length {
        return false, Unused;
      }
      key := slots[idx];
      ok := true;
      RoundTrip(hash, slots[..], KBool(false), idx);
    }
  }
}
