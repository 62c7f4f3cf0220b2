/** Sets of threads, numbered from zero, and the order in which they take their steps. */
module ThreadSets {

  predicate Schedule(n: nat, sched: seq<nat>) {
    forall k :: 0 <= k < |sched| ==> sched[k] < n
  }

  function All(n: nat): (r: set<nat>)
    ensures forall t: nat :: t in r <==> t < n
    ensures |r| == n
  {
    if n <= 0 then {} else All(n - 1) + {n - 1}
  }

  lemma {:induction false} SizeOf(a: set<nat>, n: nat)
    requires a <= All(n)
    ensures |a| <= n
    ensures |a| == n <==> a == All(n)
  {
    var rest := All(n) - a;
    assert All(n) == a + rest;
    assert |All(n)| == |a| + |rest|;
  }

  lemma {:induction false} NoneBelow(a: set<nat>, n: nat)
    requires a <= All(n) && forall u: nat :: u < n ==> u !in a
    ensures a == {}
  {
    assert a == a * All(n);
    assert a * All(n) == {};
  }
}
