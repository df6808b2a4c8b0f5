/** Unbounded integer arithmetic used to state the storage layer's shape and
    index formulas: natural powers and the Euclidean division facts the
    coordinate encodings rely on. */
module Arith {

  /** The mathematical power `b^e`, the reference for both `powi` routines. */
  function Pow(b: int, e: nat): int
    decreases e
  {
    if e == 0 then 1 else b * Pow(b, e - 1)
  }

  lemma {:induction false} PowPositive(b: int, e: nat)
    requires b >= 1
    ensures Pow(b, e) >= 1
    decreases e
  {
    if e > 0 {
      PowPositive(b, e - 1);
      MulPositive(b, Pow(b, e - 1));
    }
  }

  lemma {:induction false} PowNonnegative(b: int, e: nat)
    requires b >= 0
    ensures Pow(b, e) >= 0
    decreases e
  {
    if e > 0 {
      PowNonnegative(b, e - 1);
    }
  }

  /** The word-size powers of two, which literal evaluation does not reach. */
  lemma PowersOfTwo()
    ensures Pow(2, 8) == 0x100
    ensures Pow(2, 16) == 0x1_0000
    ensures Pow(2, 32) == 0x1_0000_0000
    ensures Pow(2, 64) == 0x1_0000_0000_0000_0000
  {
    assert Pow(2, 4) == 0x10;
    PowAdd(2, 4, 4);
    PowAdd(2, 8, 8);
    PowAdd(2, 16, 16);
    PowAdd(2, 32, 32);
  }

  lemma {:induction false} PowAdd(b: int, m: nat, n: nat)
    ensures Pow(b, m + n) == Pow(b, m) * Pow(b, n)
    decreases m
  {
    if m > 0 {
      PowAdd(b, m - 1, n);
      assert Pow(b, m + n) == b * Pow(b, m - 1 + n);
    }
  }

  lemma {:induction false} PowMul(b: int, m: nat, n: nat)
    ensures Pow(Pow(b, m), n) == Pow(b, m * n)
    decreases n
  {
    if n > 0 {
      PowMul(b, m, n - 1);
      PowAdd(b, m, m * (n - 1));
      assert m + m * (n - 1) == m * n;
    }
  }

  lemma {:induction false} PowOfProduct(a: int, b: int, e: nat)
    ensures Pow(a * b, e) == Pow(a, e) * Pow(b, e)
    decreases e
  {
    if e > 0 {
      PowOfProduct(a, b, e - 1);
      var pa, pb := Pow(a, e - 1), Pow(b, e - 1);
      calc {
        Pow(a * b, e);
        (a * b) * (pa * pb);
        { MulRearrange(a, b, pa, pb); }
        (a * pa) * (b * pb);
      }
    }
  }

  lemma {:induction false} PowMonotoneExp(b: int, m: nat, n: nat)
    requires b >= 1 && m <= n
    ensures Pow(b, m) <= Pow(b, n)
  {
    PowAdd(b, m, n - m);
    PowPositive(b, m);
    PowPositive(b, n - m);
    MulAtLeast(Pow(b, m), Pow(b, n - m));
  }

  lemma {:induction false} PowStrictExp(b: int, m: nat, n: nat)
    requires b >= 2 && m < n
    ensures Pow(b, m) < Pow(b, n)
  {
    PowMonotoneExp(b, m, n - 1);
    PowPositive(b, n - 1);
    assert Pow(b, n) == b * Pow(b, n - 1);
  }

  lemma MulPositive(a: int, b: int)
    requires a >= 1 && b >= 1
    ensures a * b >= 1
  {
  }

  lemma MulAtLeast(a: int, b: int)
    requires a >= 0 && b >= 1
    ensures a * b >= a
  {
  }

  lemma MulRearrange(a: int, b: int, c: int, d: int)
    ensures (a * b) * (c * d) == (a * c) * (b * d)
  {
  }

  lemma MulPredecessor(q: nat, p: nat)
    requires q >= 1
    ensures (q - 1) * p == q * p - p
  {
  }

  lemma MulMonotone(a: int, b: int, d: int)
    requires d >= 0 && a <= b
    ensures a * d <= b * d
  {
  }

  /** Cancelling a positive factor: `a*d < b*d + d` forces `a <= b`. */
  lemma MulCancel(a: int, b: int, d: int)
    requires d > 0
    ensures a * d < b * d + d ==> a <= b
  {
    if a > b {
      MulMonotone(b + 1, a, d);
    }
  }

  /** A number is its quotient times the divisor plus its remainder. */
  lemma DivModIdentity(n: int, d: int)
    requires d > 0
    ensures n == d * (n / d) + n % d && 0 <= n % d < d
  {
  }

  /** Euclidean division is determined by any quotient/remainder pair. */
  lemma DivModUnique(n: int, d: int, q: int, r: int)
    requires d > 0 && 0 <= r < d && n == q * d + r
    ensures n / d == q && n % d == r
  {
    var q', r' := n / d, n % d;
    assert n == q' * d + r';
    MulCancel(q, q', d);
    MulCancel(q', q, d);
  }

  /** Dividing by a product is dividing twice; the remainders nest. */
  lemma DivDiv(n: nat, a: nat, b: nat)
    requires a > 0 && b > 0
    ensures a * b > 0
    ensures n / (a * b) == (n / a) / b
    ensures n % (a * b) == (n / a) % b * a + n % a
  {
    var m, u := n / a, n % a;
    DivModIdentity(n, a);
    assert m >= 0;
    var q, t := m / b, m % b;
    DivModIdentity(m, b);
    var r := t * a + u;
    Regroup(a, b, q, t, u);
    assert n == q * (a * b) + r;
    MulMonotone(t, b - 1, a);
    MulPredecessor(b, a);
    assert r < a * b;
    DivModUnique(n, a * b, q, r);
  }

  /** Regrouping two nested quotient/remainder steps into one. */
  lemma Regroup(a: int, b: int, q: int, t: int, u: int)
    ensures a * (b * q + t) + u == q * (a * b) + (t * a + u)
  {
  }

  /** Taking a remainder modulo a multiple of `a` keeps the remainder modulo `a`. */
  lemma ModMod(n: nat, a: nat, b: nat)
    requires a > 0 && b > 0
    ensures a * b > 0
    ensures (n % (a * b)) % a == n % a
    ensures (n % (a * b)) / a == (n / a) % b
  {
    DivDiv(n, a, b);
    DivModUnique(n % (a * b), a, (n / a) % b, n % a);
  }

  lemma DivBelow(n: nat, d: nat, k: nat)
    requires d > 0 && n < d * k
    ensures n / d < k
  {
    assert n == (n / d) * d + n % d;
    MulCancel(n / d, k - 1, d);
  }

  lemma DivMonotone(m: nat, n: nat, d: nat)
    requires d > 0 && m <= n
    ensures m / d <= n / d
  {
    assert m == (m / d) * d + m % d;
    assert n == (n / d) * d + n % d;
    MulCancel(m / d, n / d, d);
  }

  /** A number at least `d * k` has quotient at least `k`. */
  lemma DivAtLeast(n: nat, d: nat, k: nat)
    requires d > 0 && n >= d * k
    ensures n / d >= k
  {
    assert n == (n / d) * d + n % d;
    if n / d < k {
      MulMonotone(n / d + 1, k, d);
    }
  }

  /** Below `d * k`, the quotient by `d` is a digit below `k`. */
  lemma QuotientBelow(n: nat, d: nat, k: nat)
    requires d > 0
    ensures n < d * k <==> n / d < k
  {
    if n < d * k {
      DivBelow(n, d, k);
    } else {
      DivAtLeast(n, d, k);
    }
  }
}
