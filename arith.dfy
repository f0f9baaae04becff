/** Integer facts shared by the index arithmetic of the grid and of dense storage. */
module Arith {

  /** Multiplying by a positive factor preserves `<=`. */
  lemma MulMonotone(a: int, b: int, k: int)
    requires a <= b && k >= 0
    ensures a * k <= b * k
  {
    assert b * k - a * k == (b - a) * k;
  }

  /** One more factor adds one more `b`. */
  lemma MulSucc(a: int, b: int)
    ensures (a + 1) * b == a * b + b
  {
  }

  /** A digit `a < A` plus a multiple `b * A` with `b < B` stays below `A * B`. */
  lemma {:induction false} LinearBound(a: int, b: int, A: int, B: int)
    requires 0 <= a < A && 0 <= b < B
    ensures 0 <= a + b * A < A * B
  {
    MulMonotone(0, b, A);
    MulMonotone(b, B - 1, A);
    assert (B - 1) * A == A * B - A;
  }

  /** Euclidean division is characterised by its quotient-remainder decomposition. */
  lemma DivModUnique(n: int, d: int, q: int, r: int)
    requires d > 0 && 0 <= r < d && n == q * d + r
    ensures n / d == q && n % d == r
  {
    var q', r' := n / d, n % d;
    assert n == q' * d + r';
    if q' > q {
      MulMonotone(1, q' - q, d);
      assert false;
    } else if q' < q {
      MulMonotone(1, q - q', d);
      assert false;
    }
  }

  /** A quotient by `d` of a number below `d * m` is below `m`. */
  lemma DivBelow(n: int, d: int, m: int)
    requires d > 0 && 0 <= n < d * m
    ensures 0 <= n / d < m
  {
    assert n == (n / d) * d + n % d;
    if n / d >= m {
      MulMonotone(m, n / d, d);
      assert false;
    }
    if n / d < 0 {
      MulMonotone(n / d, -1, d);
      assert false;
    }
  }
}
