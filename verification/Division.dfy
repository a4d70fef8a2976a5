/** Quotients and remainders by a number that is not a constant. */
module Division {
  lemma {:induction false} OneMultipleMore(a: nat, b: nat, n: nat)
    requires a > b
    ensures a * n >= b * n + n
  {
    if a == b + 1 {
      assert a * n == b * n + n;
    } else {
      OneMultipleMore(a - 1, b, n);
      assert a * n == (a - 1) * n + n;
    }
  }

  /** The remainder is the one that any quotient leaves. */
  lemma {:induction false} DivisionUnique(k: nat, n: nat, q: nat, r: nat)
    requires n > 0 && k == q * n + r && r < n
    ensures k % n == r
  {
    var d := k / n;
    assert k == d * n + k % n;
    if q > d {
      OneMultipleMore(q, d, n);
    } else if d > q {
      OneMultipleMore(d, q, n);
    }
  }

  lemma {:induction false} NextMultiple(a: nat, n: nat)
    requires n > 0 && a % n == 0
    ensures (a + n) % n == 0
  {
    assert a == (a / n) * n;
    assert a + n == (a / n + 1) * n + 0;
    DivisionUnique(a + n, n, a / n + 1, 0);
  }

  lemma {:induction false} SameMultiple(a: nat, b: nat, n: nat)
    requires n > 0 && a % n == 0 && b % n == 0 && a <= b < a + n
    ensures a == b
  {
    if a < b {
      assert b == (a / n) * n + (b - a);
      DivisionUnique(b, n, a / n, b - a);
    }
  }
}
