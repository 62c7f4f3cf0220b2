/** Indexes that start again at the front of an array of `n` elements, without division. */
module Wrapping {

  /** The remainder of a count that is not negative: it starts again at the end of the array. */
  function Wrap(p: nat, n: nat): (r: nat)
    requires n > 0
    ensures r < n
  {
    if p < n then p else Wrap(p - n, n)
  }

  lemma {:induction false} ProductGrows(n: nat, p: nat, q: nat)
    ensures p > q ==> n * p >= n * q + n
    decreases p
  {
    if p > q + 1 {
      ProductGrows(n, p - 1, q);
      assert n * p == n * (p - 1) + n;
    } else if p == q + 1 {
      assert n * p == n * q + n;
    }
  }

  lemma {:induction false} RemainderIs(x: nat, n: nat, q: nat, r: nat)
    requires n > 0 && r < n && x == n * q + r
    ensures x % n == r
  {
    var p := x / n;
    assert x == n * p + x % n;
    ProductGrows(n, p, q);
    ProductGrows(n, q, p);
  }

  lemma {:induction false} WrapIsRemainder(p: nat, n: nat)
    requires n > 0
    ensures p % n == Wrap(p, n)
  {
    if p >= n {
      WrapIsRemainder(p - n, n);
      var q := (p - n) / n;
      assert n * (q + 1) == n * q + n;
      RemainderIs(p, n, q + 1, Wrap(p - n, n));
    } else {
      RemainderIs(p, n, 0, p);
    }
  }

  lemma {:induction false} WrapOnce(p: nat, d: nat, n: nat)
    requires n > 0
    ensures Wrap(p + d, n) == Wrap(Wrap(p, n) + d, n)
  {
    if p >= n {
      WrapOnce(p - n, d, n);
    }
  }

  /** Fewer than `n` indexes in a row are different elements. */
  lemma {:induction false} WrapDistinct(p: nat, q: nat, n: nat)
    requires p < q < p + n
    ensures Wrap(p, n) != Wrap(q, n)
  {
    if p >= n {
      WrapDistinct(p - n, q - n, n);
    }
  }

  /** Every index is that of one of `n` counts in a row. */
  lemma {:induction false} WrapCovers(p: nat, i: nat, n: nat) returns (k: nat)
    requires i < n
    ensures p <= k < p + n && Wrap(k, n) == i
    decreases p
  {
    if p == 0 {
      k := i;
    } else {
      k := WrapCovers(p - 1, i, n);
      if k == p - 1 {
        k := k + n;
      }
    }
  }
}
