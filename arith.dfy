/** Integer facts the bar and quality-gate proofs need: multiplication is monotone and
    floor division by a positive number is bounded by it. */
module Arith {

  function Abs(x: int): nat
  {
    if x < 0 then -x else x
  }

  lemma MulLe(a: int, b: int, c: nat)
    requires a <= b
    ensures a * c <= b * c
  {
  }

  lemma MulStep(a: int, b: int, t: nat)
    requires a < b
    ensures t * a + t <= t * b
  {
    MulLe(a + 1, b, t);
    assert (a + 1) * t == t * a + t;
  }

  lemma MulCancelLe(a: int, b: int, t: int)
    requires t > 0 && a * t <= b * t
    ensures a <= b
  {
    if a > b {
      MulLe(b + 1, a, t);
    }
  }

  lemma DivAtMost(n: int, t: int, k: int)
    requires t > 0 && n <= k * t
    ensures n / t <= k
  {
    var q := n / t;
    assert q * t <= n;
    MulCancelLe(q, k, t);
  }

  /** A remainder below the modulus is the number itself. */
  lemma ModSmall(i: int, k: int)
    requires 0 <= i < k
    ensures i % k == i
  {
    var q := i / k;
    if q >= 1 {
      MulLe(1, q, k);
    } else if q <= -1 {
      MulLe(q, -1, k);
    }
  }

  /** Adding the modulus does not change the remainder. */
  lemma ModShift(i: int, k: int)
    requires k > 0
    ensures (i + k) % k == i % k
  {
    var q, r := i / k, i % k;
    var q', r' := (i + k) / k, (i + k) % k;
    var d := q + 1 - q';
    assert d * k == r' - r;
    if d >= 1 {
      MulLe(1, d, k);
    } else if d <= -1 {
      MulLe(d, -1, k);
    }
  }

  lemma DivAtLeast(n: int, t: int, k: int)
    requires t > 0 && k * t <= n
    ensures k <= n / t
  {
    var q := n / t;
    assert n < q * t + t;
    assert (q + 1) * t == q * t + t;
    MulCancelLe(k, q + 1, t);
    if k == q + 1 {
      assert false;
    }
  }
}
