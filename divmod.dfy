/** Facts about Euclidean integer division that the cursor arithmetic of the
    layout loop relies on. On the non-negative operands used here Dafny's `/`
    and `%` agree with Python's `//`-style `%` and the floor division. */
module DivMod {

  /** A quotient/remainder pair with the remainder in range is the one `/` and `%` give. */
  lemma DivModUnique(n: int, d: int, q: int, r: int)
    requires d > 0 && 0 <= r < d && n == q * d + r
    ensures n / d == q && n % d == r
  {
    var q0, r0 := n / d, n % d;
    assert (q0 - q) * d == r - r0;
    if q0 > q {
      MulAtLeast(q0 - q, d);
    } else if q0 < q {
      MulAtLeast(q - q0, d);
    }
  }

  lemma {:induction false} MulAtLeast(k: int, d: int)
    requires k >= 1 && d > 0
    ensures k * d >= d
  {
    if k > 1 {
      MulAtLeast(k - 1, d);
      assert k * d == (k - 1) * d + d;
    }
  }

  /** How `n + 1` splits compared to `n`: the remainder either steps up by one,
      or wraps to zero while the quotient steps up by one. */
  lemma Successor(n: nat, d: int)
    requires d > 0
    ensures (n + 1) % d == 0 ==> n % d == d - 1 && (n + 1) / d == n / d + 1
    ensures (n + 1) % d != 0 ==> (n + 1) % d == n % d + 1 && (n + 1) / d == n / d
  {
    var q, r := n / d, n % d;
    if r == d - 1 {
      DivModUnique(n + 1, d, q + 1, 0);
    } else {
      DivModUnique(n + 1, d, q, r + 1);
    }
  }

  /** `Successor` seen from `n`: the quotient of `n` is one more than that of
      `n - 1` exactly when `n` is a multiple of `d`. */
  lemma Predecessor(n: nat, d: int)
    requires d > 0 && n > 0
    ensures n % d == 0 ==> n / d == (n - 1) / d + 1
    ensures n % d != 0 ==> n / d == (n - 1) / d
  {
    var m: nat := n - 1;
    Successor(m, d);
    assert m + 1 == n;
  }

  /** Dividing by `a * b` is dividing by `a` and then by `b`; the remainder by
      `a * b` is assembled from the two smaller remainders. */
  lemma ModProduct(n: nat, a: int, b: int)
    requires a > 0 && b > 0
    ensures n / (a * b) == (n / a) / b
    ensures n % (a * b) == a * ((n / a) % b) + n % a
  {
    var q1, r1 := n / a, n % a;
    var q2, r2 := q1 / b, q1 % b;
    assert n == a * q1 + r1;
    assert q1 == b * q2 + r2;
    assert n == (a * b) * q2 + (a * r2 + r1) by {
      assert a * q1 == a * (b * q2) + a * r2;
    }
    assert a * r2 <= a * (b - 1);
    DivModUnique(n, a * b, q2, a * r2 + r1);
  }

  /** Counting the whole blocks of `d` in `n`, plus one for a remainder, counts
      `ceil(n / d)`, the blocks `n` starts. */
  lemma CeilDiv(n: nat, d: int)
    requires d > 0
    ensures n / d + (if n % d != 0 then 1 else 0) == (n + d - 1) / d
  {
    var q, r := n / d, n % d;
    if r == 0 {
      DivModUnique(n + d - 1, d, q, d - 1);
    } else {
      DivModUnique(n + d - 1, d, q + 1, r - 1);
    }
  }

  /** A number is determined by its quotient and remainder. */
  lemma SplitEqual(i: nat, j: nat, p: int)
    requires p > 0 && i / p == j / p && i % p == j % p
    ensures i == j
  {
    assert i == (i / p) * p + i % p;
    assert j == (j / p) * p + j % p;
  }
}
