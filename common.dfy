/** Failure-compatible result type and the power-of-two arithmetic shared by the models. */
module Common {

  /** The outcome of an operation that the source ends with a panic on failure. */
  datatype Result<+T, +E> = Ok(value: T) | Err(error: E)

  datatype Option<+T> = None | Some(value: T)

  /** 2^n. */
  function Pow2(n: nat): (r: nat)
    ensures r >= 1
  {
    if n == 0 then 1 else 2 * Pow2(n - 1)
  }

  /** Rust's `is_power_of_two` on unsigned integers: 1, 2, 4, ...; 0 is not a power of two. */
  predicate IsPowerOfTwo(x: nat)
  {
    x == 1 || (x >= 2 && x % 2 == 0 && IsPowerOfTwo(x / 2))
  }

  /** Rust's `ilog2`: the floor of the base-2 logarithm; it panics on 0, so 0 is excluded. */
  function ILog2(x: nat): (r: nat)
    requires x >= 1
    ensures Pow2(r) <= x < 2 * Pow2(r)
  {
    if x == 1 then 0 else 1 + ILog2(x / 2)
  }

  /** `x >> s` on unsigned integers. */
  function ShiftRight(x: nat, s: nat): (r: nat)
    ensures r * Pow2(s) <= x < (r + 1) * Pow2(s)
  {
    var d := Pow2(s);
    DivIsNat(x, d);
    x / d
  }

  lemma DivIsNat(x: nat, d: nat)
    requires d >= 1
    ensures x / d >= 0
  {
  }

  lemma {:induction false} Pow2Add(a: nat, b: nat)
    ensures Pow2(a + b) == Pow2(a) * Pow2(b)
  {
    if a > 0 {
      Pow2Add(a - 1, b);
    }
  }

  lemma {:induction false} Pow2StrictlyMonotone(a: nat, b: nat)
    requires a < b
    ensures 2 * Pow2(a) <= Pow2(b)
  {
    if a + 1 < b {
      Pow2StrictlyMonotone(a, b - 1);
    }
  }

  /** A power of two is exactly 2 to the power of its logarithm, and only powers of two are. */
  lemma {:induction false} PowerOfTwoIsExact(x: nat)
    requires x >= 1
    ensures IsPowerOfTwo(x) <==> Pow2(ILog2(x)) == x
  {
    if x >= 2 {
      PowerOfTwoIsExact(x / 2);
    }
  }

  /** Round trip: the logarithm of 2^n is n, and 2^n passes `is_power_of_two`. */
  lemma {:induction false} LogOfPow2(n: nat)
    ensures IsPowerOfTwo(Pow2(n)) && ILog2(Pow2(n)) == n
  {
    if n > 0 {
      LogOfPow2(n - 1);
      assert Pow2(n) / 2 == Pow2(n - 1);
    }
  }

  /** On powers of two the logarithm is strictly monotone in both directions. */
  lemma PowerOfTwoLogOrder(x: nat, y: nat)
    requires IsPowerOfTwo(x) && IsPowerOfTwo(y)
    ensures x < y <==> ILog2(x) < ILog2(y)
    ensures x == y <==> ILog2(x) == ILog2(y)
  {
    PowerOfTwoIsExact(x);
    PowerOfTwoIsExact(y);
    if ILog2(x) < ILog2(y) {
      Pow2StrictlyMonotone(ILog2(x), ILog2(y));
    } else if ILog2(y) < ILog2(x) {
      Pow2StrictlyMonotone(ILog2(y), ILog2(x));
    }
  }

  // Division and remainder facts on naturals, proved from the definition of `/` and `%`.

  lemma {:induction false} MulCancelLt(a: nat, b: nat, p: nat)
    requires a * p < b * p
    ensures a < b
  {
    if a > 0 {
      assert b > 0;
      assert (a - 1) * p < (b - 1) * p;
      MulCancelLt(a - 1, b - 1, p);
    }
  }

  lemma {:induction false} MulStrictMonotone(a: nat, b: nat, p: nat)
    requires a < b && p >= 1
    ensures a * p < b * p
  {
    if a + 1 < b {
      MulStrictMonotone(a, b - 1, p);
      assert b * p == (b - 1) * p + p;
    }
  }

  /** A quotient and remainder in range are the quotient and remainder. */
  lemma DivModUnique(n: nat, p: nat, d: nat, rem: nat)
    requires p >= 1 && rem < p && n == d * p + rem
    ensures n / p == d && n % p == rem
  {
    var d', r' := n / p, n % p;
    assert n == d' * p + r';
    assert d * p < (d' + 1) * p;
    assert d' * p < (d + 1) * p;
    MulCancelLt(d, d' + 1, p);
    MulCancelLt(d', d + 1, p);
  }

  lemma MulDiv(x: nat, p: nat)
    requires p >= 1
    ensures (x * p) / p == x && (x * p) % p == 0
  {
    DivModUnique(x * p, p, x, 0);
  }

  lemma DivBelow(n: nat, p: nat, q: nat)
    requires p >= 1 && n < q * p
    ensures n / p < q
  {
    var d, rem := n / p, n % p;
    assert n == d * p + rem;
    MulCancelLt(d, q, p);
  }

  lemma ModAddMultiple(rem: nat, c: nat, m: nat)
    requires m >= 1
    ensures (c * m + rem) % m == rem % m
  {
    var d, r := rem / m, rem % m;
    assert rem == d * m + r;
    assert c * m + rem == (c + d) * m + r;
    DivModUnique(c * m + rem, m, c + d, r);
  }

  /** Reducing modulo a multiple of m and then modulo m is reducing modulo m. */
  lemma ModOfMultipleModulus(x: nat, m: nat, k: nat)
    requires m >= 1 && k >= 1
    ensures x % (m * k) % m == x % m
  {
    var q, rem := x / (m * k), x % (m * k);
    assert x == q * (m * k) + rem;
    assert x == (q * k) * m + rem;
    ModAddMultiple(rem, q * k, m);
  }

  /** (n * p) mod (b * p), divided by p, is n mod b. */
  lemma ShiftedModulus(n: nat, b: nat, p: nat)
    requires b >= 1 && p >= 1
    ensures (n * p) % (b * p) / p == n % b < b
  {
    var q, rem := n / b, n % b;
    assert n == q * b + rem;
    assert n * p == q * (b * p) + rem * p;
    MulStrictMonotone(rem, b, p);
    DivModUnique(n * p, b * p, q, rem * p);
    MulDiv(rem, p);
  }
}
