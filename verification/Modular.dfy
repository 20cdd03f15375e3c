/**
  Remainders, stated once for every ring, wheel and modular counter of the project.  The original
  masks the indices of rings and wheels whose sizes are powers of two (`index & (SIZE - 1)`), or
  subtracts a multiple of the size; here both are remainders of unbounded numbers, and what the
  models need of them is that numbers less than one modulus apart have different ones.
*/
module Modular {

  lemma {:induction false} MulAtLeast(k: int, n: nat)
    requires k >= 1
    ensures k * n >= n
    decreases k
  {
    if k > 1 {
      MulAtLeast(k - 1, n);
      assert k * n == (k - 1) * n + n;
    }
  }

  lemma MulMonotone(a: int, b: int, n: nat)
    ensures a <= b ==> a * n <= b * n
  {
    if a < b {
      MulAtLeast(b - a, n);
      assert b * n == a * n + (b - a) * n;
    }
  }

  /** Quotient and remainder are determined by the division equation. */
  lemma DivModUnique(x: int, n: nat, q: int, r: int)
    requires n > 0 && x == q * n + r && 0 <= r < n
    ensures x / n == q && x % n == r
  {
    var q', r' := x / n, x % n;
    assert x == q' * n + r';
    assert (q - q') * n == r' - r;
    if q > q' {
      MulAtLeast(q - q', n);
      assert false;
    } else if q < q' {
      MulAtLeast(q' - q, n);
      assert false;
    }
  }

  lemma AddModulus(x: int, n: nat)
    requires n > 0
    ensures (x + n) % n == x % n && (x + n) / n == x / n + 1
  {
    var q, r := x / n, x % n;
    assert (q + 1) * n == q * n + n;
    DivModUnique(x + n, n, q + 1, r);
  }

  lemma ModShift(x: int, k: int, n: nat)
    requires n > 0
    ensures (x + k * n) % n == x % n
  {
    var q, r := x / n, x % n;
    assert (q + k) * n == q * n + k * n;
    DivModUnique(x + k * n, n, q + k, r);
  }

  /** Numbers less than one modulus apart have different remainders. */
  lemma RemaindersDiffer(x: int, y: int, n: nat)
    requires n > 0 && x < y < x + n
    ensures x % n != y % n
  {
    if x % n == y % n {
      var a, b := x / n, y / n;
      assert y - x == (b - a) * n;
      if b > a {
        MulAtLeast(b - a, n);
      }
      assert false;
    }
  }
}
