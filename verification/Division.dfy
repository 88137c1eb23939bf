/** Quotients and remainders. */
module Division {

  lemma NonzeroMultiple(k: int, s: int)
    requires s > 0
    ensures k >= 1 ==> k * s >= s
    ensures k <= -1 ==> k * s <= -s
  {
  }

  lemma MulMonotone(a: int, b: int, k: int)
    requires a <= b && k >= 0
    ensures a * k <= b * k
  {
  }

  lemma {:induction false} DivModUnique(x: int, s: int, q: int, r: int)
    requires s > 0 && 0 <= r < s && x == q * s + r
    ensures x / s == q && x % s == r
  {
    var q', r' := x / s, x % s;
    assert x == s * q' + r';
    assert (q - q') * s == r' - r;
    NonzeroMultiple(q - q', s);
  }

  /** Adding `k` times the divisor keeps the remainder and adds `k` to the quotient. */
  lemma AddTurns(x: int, s: int, k: int)
    requires s > 0
    ensures (x + k * s) % s == x % s
    ensures (x + k * s) / s == x / s + k
  {
    var q, r := x / s, x % s;
    assert x == s * q + r;
    assert x + k * s == (q + k) * s + r;
    DivModUnique(x + k * s, s, q + k, r);
  }
}
