/** Products and quotients, one fact at a time. */
module Arith {
  lemma MulSucc(a: int, b: int)
    ensures (a + 1) * b == a * b + b
  {}

  lemma MulTimes(k: int, a: int, b: int)
    ensures (k * a) * b == k * (a * b)
  {}

  lemma MulSum(a: int, b: int, d: int)
    ensures (a + b) * d == a * d + b * d
  {}

  /** A multiple of `d` that is not zero is at least `d` in size. */
  lemma MulBound(k: int, d: nat)
    requires d > 0
    ensures k >= 1 ==> k * d >= d
    ensures k <= -1 ==> k * d <= 0 - d
  {
    if k >= 1 { assert (k - 1) * d >= 0; } else if k <= -1 { assert (-k - 1) * d >= 0; }
  }

  lemma DivMod(n: nat, d: nat)
    requires d > 0
    ensures n == (n / d) * d + n % d && 0 <= n % d < d && 0 <= n / d
  {}

  lemma DivUnique(n: nat, d: nat, q: int, r: nat)
    requires d > 0 && n == q * d + r && r < d
    ensures n / d == q && n % d == r
  {
    DivMod(n, d);
    MulSum(n / d - q, q, d);
    MulBound(n / d - q, d);
  }

  lemma MulMono(a: nat, b: nat, d: nat)
    requires a <= b
    ensures a * d <= b * d
  {
    assert (b - a) * d >= 0;
  }

  /** Dividing twice is dividing by the product. */
  lemma DivDiv(n: nat, p: nat, m: nat)
    requires p > 0 && m > 0
    ensures m * p > 0 && n / (m * p) == n / p / m
  {
    var a, s := n / p, n % p;
    var c, r := a / m, a % m;
    DivMod(n, p);
    DivMod(a, m);
    MulTimes(c, m, p);
    MulSum(c * m, r, p);
    MulMono(r, m - 1, p);
    MulSum(m - 1, 1, p);
    MulBound(m, p);
    DivUnique(n, m * p, c, r * p + s);
  }
}
