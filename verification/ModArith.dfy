/** Facts about remainders that the solver does not find by itself. */
module ModArith {

  lemma {:induction false} ModStep(x: int, n: nat)
    requires n > 0
    ensures (x % n + 1) % n == (x + 1) % n
  {
    ModShift(x % n + 1, x / n, n);
    assert x == x % n + n * (x / n);
  }

  lemma {:induction false} ModShift(a: int, d: int, n: nat)
    requires n > 0
    ensures (a + n * d) % n == a % n
  {
    var q, r := a / n, a % n;
    assert a + n * d == n * (q + d) + r;
    ModUnique(a + n * d, q + d, r, n);
  }

  lemma {:induction false} ModUnique(a: int, q: int, r: int, n: nat)
    requires n > 0 && a == n * q + r && 0 <= r < n
    ensures a % n == r
  {
    var q', r' := a / n, a % n;
    assert n * (q - q') == r' - r;
    NoSmallMultiple(q - q', n);
  }

  lemma {:induction false} NoSmallMultiple(d: int, n: nat)
    requires n > 0 && 0 < n + n * d && n * d < n
    ensures d == 0
  {
    assert d >= 1 ==> n * d >= n;
    assert d <= -1 ==> n * d + n <= 0;
  }

  /** Coordinates less than a capacity apart name different slots. */
  lemma {:induction false} ModInjective(x: int, y: int, n: nat)
    requires n > 0 && x % n == y % n && x < y + n && y < x + n
    ensures x == y
  {
    assert x - y == n * (x / n - y / n);
    NoSmallMultiple(x / n - y / n, n);
  }

  /** Coordinates of the same slot are a multiple of the capacity apart. */
  lemma {:induction false} ModTranslate(x: int, y: int, k: int, n: nat)
    requires n > 0 && x % n == y % n
    ensures (x + k) % n == (y + k) % n
  {
    assert x == y + n * (x / n - y / n);
    ModShift(y + k, x / n - y / n, n);
  }

  lemma {:induction false} SameRest(a: int, b: int, n: nat)
    requires n > 0
    ensures a % n == b % n <==> (b - a) % n == 0
  {
    if a % n == b % n {
      assert b - a == n * (b / n - a / n);
      ModUnique(b - a, b / n - a / n, 0, n);
    } else if (b - a) % n == 0 {
      assert b == a + n * ((b - a) / n);
      ModShift(a, (b - a) / n, n);
    }
  }

  /** Dividing by n what is n times q plus a small rest gives q. */
  lemma {:induction false} DivUnique(a: int, q: int, r: int, n: nat)
    requires n > 0 && a == n * q + r && 0 <= r < n
    ensures a / n == q && a % n == r
  {
    ModUnique(a, q, r, n);
    assert n * (a / n - q) == 0;
    NoSmallMultiple(a / n - q, n);
  }

  lemma {:induction false} DivShrinks(a: nat, n: nat)
    requires n > 0
    ensures a / n <= a
  {
    Product(a / n, n);
  }

  lemma {:induction false} Multiples(b: nat, m: nat, n: nat)
    requires m <= n
    ensures b * m <= b * n
  {
    if m < n {
      Multiples(b, m, n - 1);
    }
  }

  lemma {:induction false} Product(q: nat, n: nat)
    requires n > 0
    ensures n * q >= q
  {
    assert n * q == q + (n - 1) * q;
  }
}
