/** Small facts about products, quotients and remainders.  Each lemma holds one
    nonlinear step, so that its callers see linear arithmetic only. */
module Arith {

  lemma MulGe(d: int, m: int)
    requires d >= 1 && m >= 0
    ensures d * m >= m
  {
  }

  lemma MulSign(d: int, m: int)
    requires m > 0
    ensures d >= 1 ==> d * m > 0
    ensures d <= 0 ==> d * m <= 0
  {
  }

  lemma Distribute(a: int, b: int, m: int)
    ensures (a + b) * m == a * m + b * m
    ensures (a - b) * m == a * m - b * m
  {
  }

  lemma Associate(a: int, b: int, c: int)
    ensures a * (b * c) == (a * b) * c
    ensures (a * b) * c == (a * c) * b
  {
  }

  lemma Cancel(a: int, b: int, m: int)
    requires m > 0 && a * m == b * m
    ensures a == b
  {
    Distribute(a, b, m);
    SmallMultiple(a - b, m);
  }

  lemma SmallMultiple(d: int, m: int)
    requires m > 0 && -m < d * m < m
    ensures d == 0
  {
    if d >= 1 {
      MulGe(d, m);
    } else if d <= -1 {
      MulGe(-d, m);
      Distribute(0, d, m);
    }
  }

  /** Quotient and remainder are determined by their defining equation. */
  lemma DivModUnique(x: int, m: int, q: int, r: int)
    requires m > 0 && x == q * m + r && 0 <= r < m
    ensures x / m == q && x % m == r
  {
    var q', r' := x / m, x % m;
    assert x == q' * m + r';
    Distribute(q, q', m);
    SmallMultiple(q - q', m);
  }

  lemma DivMod(x: int, m: int)
    requires m > 0
    ensures x == (x / m) * m + x % m && 0 <= x % m < m
  {
  }

  lemma ModSmall(x: int, m: int)
    requires 0 <= x < m
    ensures x % m == x && x / m == 0
  {
    DivModUnique(x, m, 0, x);
  }

  /** Adding a multiple of the modulus does not change the remainder. */
  lemma ModShift(x: int, k: int, m: int)
    requires m > 0
    ensures (x + k * m) % m == x % m
  {
    DivMod(x, m);
    Distribute(x / m, k, m);
    DivModUnique(x + k * m, m, x / m + k, x % m);
  }

  lemma MultipleMod(k: int, m: int)
    requires m > 0
    ensures (k * m) % m == 0
  {
    ModShift(0, k, m);
  }

  /** Reducing a factor first does not change a product modulo m. */
  lemma ModMul(x: int, y: int, m: int)
    requires m > 0
    ensures ((x % m) * y) % m == (x * y) % m
  {
    var q, r := x / m, x % m;
    DivMod(x, m);
    Distribute(q * m, r, y);
    Associate(q, m, y);
    ModShift(r * y, q * y, m);
  }

  /** Reducing a summand first does not change a sum modulo m. */
  lemma ModAdd(x: int, y: int, m: int)
    requires m > 0
    ensures (x % m + y) % m == (x + y) % m
  {
    DivMod(x, m);
    ModShift(x % m + y, x / m, m);
  }

  lemma ModSub(x: int, y: int, m: int)
    requires m > 0
    ensures (x - y % m) % m == (x - y) % m
  {
    DivMod(y, m);
    var k := y / m;
    assert x - y % m == (x - y) + k * m;
    ModShift(x - y, k, m);
  }

  lemma ModSucc(x: int, m: int)
    requires 0 <= x < m
    ensures (x + 1) % m == if x == m - 1 then 0 else x + 1
  {
    if x == m - 1 {
      DivModUnique(m, m, 1, 0);
    } else {
      ModSmall(x + 1, m);
    }
  }
}
