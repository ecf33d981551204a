/** The few facts about quotients and remainders that round-robin counting needs. */
module Division {

  lemma AtLeastOneTimes(d: int, n: int)
    requires d >= 1 && n >= 0
    ensures d * n >= n
  {
  }

  lemma ZeroFactor(d: int, n: int, e: int)
    requires n > 0 && d * n == e && -n < e < n
    ensures d == 0
  {
    assert (-d) * n == -(d * n);
    if d >= 1 {
      AtLeastOneTimes(d, n);
    } else if d <= -1 {
      AtLeastOneTimes(-d, n);
    }
  }

  lemma DivMod(x: nat, n: nat)
    requires n > 0
    ensures x == (x / n) * n + x % n && x % n < n
  {
  }

  lemma ModUnique(x: nat, n: nat, q: nat, r: nat)
    requires n > 0 && r < n && x == q * n + r
    ensures x % n == r && x / n == q
  {
    var p := x / n;
    DivMod(x, n);
    assert (p - q) * n == p * n - q * n;
    ZeroFactor(p - q, n, r - x % n);
  }

  lemma SmallMod(x: nat, n: nat)
    requires x < n
    ensures x % n == x && x / n == 0
  {
    ModUnique(x, n, 0, x);
  }

  lemma ModStep(x: nat, n: nat)
    requires n > 0 && x < 2 * n
    ensures x % n == if x < n then x else x - n
  {
    if x < n {
      SmallMod(x, n);
    } else {
      ModUnique(x, n, 1, x - n);
    }
  }

  lemma Regroup(qa: int, qm: int, carry: int, ra: int, rm: int, n: int)
    ensures (qa * n + ra) + (qm * n + rm) == (qa + qm + carry) * n + (ra + rm - carry * n)
  {
  }

  lemma RemainderStep(x: nat, n: nat)
    requires n > 0
    ensures (x % n + 1) % n == (x + 1) % n
  {
    var q, r := x / n, x % n;
    DivMod(x, n);
    ModStep(r + 1, n);
    if r + 1 < n {
      ModUnique(x + 1, n, q, r + 1);
    } else {
      Regroup(q, 0, 1, r, 1, n);
      ModUnique(x + 1, n, q + 1, 0);
    }
  }

  /** A wrap at a multiple of n leaves remainders by n as they were. */
  lemma ModOfMod(x: nat, m: nat, n: nat)
    requires n > 0 && m > 0 && m % n == 0
    ensures (x % m) % n == x % n
  {
    DivMod(x, m);
    DivMod(m, n);
    DivMod(x % m, n);
    ModFromParts(x, m, n, x / m, x % m, m / n, (x % m) / n, (x % m) % n);
  }

  lemma ModFromParts(x: nat, m: nat, n: nat, q: nat, r: nat, c: nat, d: nat, e: nat)
    requires x == q * m + r && m == c * n && r == d * n + e && e < n
    ensures x % n == e
  {
    Nested(q, c, n);
    Product(q, c);
    var k: nat := q * c + d;
    assert k * n == q * c * n + d * n;
    ModUnique(x, n, k, e);
  }

  lemma Nested(q: int, c: int, n: int)
    ensures q * (c * n) == q * c * n
  {
  }

  lemma Product(q: nat, c: nat)
    ensures q * c >= 0
  {
  }
}
