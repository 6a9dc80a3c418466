/** Division facts that the nonlinear solver does not find on its own. */
module Arith {
  function PowerOf2(n: nat): (p: nat)
    ensures p > 0
  {
    if n == 0 then 1 else 2 * PowerOf2(n - 1)
  }

  lemma MulAtLeast(d: int, k: int)
    requires d > 0 && k >= 1
    ensures d * k >= d
  {
  }

  lemma QuotientsAgree(d: int, q: int, r: int, q': int, r': int)
    requires d > 0 && 0 <= r < d && 0 <= r' < d
    requires d * q + r == d * q' + r'
    ensures q == q' && r == r'
  {
    if q > q' {
      MulAtLeast(d, q - q');
    } else if q < q' {
      MulAtLeast(d, q' - q);
    }
  }

  lemma DivUnique(x: int, d: int, q: int, r: int)
    requires d > 0 && x == d * q + r && 0 <= r < d
    ensures x / d == q && x % d == r
  {
    QuotientsAgree(d, q, r, x / d, x % d);
  }

  lemma MulAssoc(a: int, b: int, c: int)
    ensures a * (b * c) == a * b * c
  {
  }

  lemma MulSum(a: int, b: int, c: int)
    ensures a * (b + c) == a * b + a * c
  {
  }

  /** `x` in mixed radix: its quotient by `a * b`, its middle digit and its low digit. */
  lemma Digits(x: nat, a: nat, b: nat)
    requires a > 0 && b > 0
    ensures a * b > 0
    ensures x == a * b * (x / a / b) + (a * (x / a % b) + x % a)
    ensures 0 <= a * (x / a % b) + x % a < a * b
  {
    var q, s := x / a / b, x / a % b;
    MulSum(a, b * q, s);
    MulAssoc(a, b, q);
    assert x == a * (x / a) + x % a;
    MulSum(a, s, b - s);
    MulAtLeast(a, b - s);
  }

  lemma DivDiv(x: nat, a: nat, b: nat)
    requires a > 0 && b > 0
    ensures a * b > 0 && x / a / b == x / (a * b)
  {
    Digits(x, a, b);
    DivUnique(x, a * b, x / a / b, a * (x / a % b) + x % a);
  }

  lemma ModDiv(x: nat, a: nat, b: nat)
    requires a > 0 && b > 0
    ensures a * b > 0 && x % (a * b) / a == x / a % b && x % (a * b) % a == x % a
  {
    Digits(x, a, b);
    var s, r := x / a % b, x % a;
    DivUnique(x, a * b, x / a / b, a * s + r);
    DivUnique(a * s + r, a, s, r);
  }
}
