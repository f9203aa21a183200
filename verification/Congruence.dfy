/** Congruence modulo m, where the modulus 0 stands for equality: what machine arithmetic of any width, and
    arithmetic without bound, keep of sums and products. */
module Congruence {
  import opened MachineInt

  function Residue(x: int, m: nat): int
  {
    if m == 0 then x else Wrap(x, m)
  }

  predicate Cong(a: int, b: int, m: nat)
  {
    Residue(a, m) == Residue(b, m)
  }

  predicate Apart(a: int, b: int, k: int, m: nat)
  {
    a == b + k * m
  }

  lemma CongBy(a: int, b: int, k: int, m: nat)
    requires Apart(a, b, k, m)
    ensures Cong(a, b, m)
  {
    if m > 0 {
      WrapShift(b, k, m);
    }
  }

  lemma CongGap(a: int, b: int, m: nat) returns (k: int)
    requires Cong(a, b, m)
    ensures Apart(a, b, k, m)
  {
    if m == 0 {
      k := 0;
    } else {
      k := a / m - b / m;
      assert a == m * (a / m) + a % m && b == m * (b / m) + b % m;
      assert (a / m - b / m) * m == m * (a / m) - m * (b / m);
    }
  }

  lemma CongAdd(a: int, a': int, b: int, b': int, m: nat)
    requires Cong(a, a', m) && Cong(b, b', m)
    ensures Cong(a + b, a' + b', m) && Cong(a - b, a' - b', m)
  {
    var k := CongGap(a, a', m);
    var l := CongGap(b, b', m);
    assert (k + l) * m == k * m + l * m && (k - l) * m == k * m - l * m;
    CongBy(a + b, a' + b', k + l, m);
    CongBy(a - b, a' - b', k - l, m);
  }

  lemma CongMinus(a: int, b: int, m: nat)
    ensures Cong(a, b, m) <==> Cong(a - b, 0, m)
  {
    if Cong(a, b, m) {
      CongAdd(a, b, b, b, m);
    }
    if Cong(a - b, 0, m) {
      CongAdd(a - b, 0, b, b, m);
    }
  }

  lemma CongScale(a: int, a': int, c: int, m: nat)
    requires Cong(a, a', m)
    ensures Cong(a * c, a' * c, m) && Cong(c * a, c * a', m)
  {
    var k := CongGap(a, a', m);
    assert (k * m) * c == (c * k) * m;
    assert (a' + k * m) * c == a' * c + (k * m) * c;
    CongBy(a * c, a' * c, c * k, m);
    assert c * a == a * c && c * a' == a' * c;
  }

  lemma CongMul(a: int, a': int, b: int, b': int, m: nat)
    requires Cong(a, a', m) && Cong(b, b', m)
    ensures Cong(a * b, a' * b', m)
  {
    CongScale(a, a', b, m);
    CongScale(b, b', a', m);
  }

  // ----- divided sums and products -----

  /** n = q * d + r. */
  predicate Divided(n: int, d: int, q: int, r: int, m: nat)
  {
    Cong(n, q * d + r, m)
  }

  lemma DividedSum(a: int, aq: int, ar: int, b: int, bq: int, br: int, d: int, m: nat)
    requires Divided(a, d, aq, ar, m) && Divided(b, d, bq, br, m)
    ensures Divided(a + b, d, aq + bq, ar + br, m)
  {
    CongAdd(a, aq * d + ar, b, bq * d + br, m);
    assert (aq + bq) * d == aq * d + bq * d;
  }

  lemma DividedScaled(a: int, aq: int, ar: int, d: int, c: int, m: nat)
    requires Divided(a, d, aq, ar, m)
    ensures Divided(c * a, d, c * aq, c * ar, m)
  {
    CongScale(a, aq * d + ar, c, m);
    assert c * (aq * d + ar) == (c * aq) * d + c * ar;
  }

  /** Quotient and remainder may be replaced by what they are congruent to. */
  lemma DividedSame(n: int, d: int, q: int, r: int, q': int, r': int, m: nat)
    requires Divided(n, d, q, r, m) && Cong(q', q, m) && Cong(r', r, m)
    ensures Divided(n, d, q', r', m)
  {
    CongScale(q', q, d, m);
    CongAdd(q' * d, q * d, r', r, m);
  }

  /** Dividing the quotient once more. */
  lemma DividedAgain(n: int, p: int, Q: int, d: int, q: int, m: nat)
    requires Cong(n, Q * p, m) && Divided(Q, d, q, 0, m)
    ensures Cong(n, q * (p * d), m)
  {
    CongScale(Q, q * d, p, m);
    assert (q * d) * p == q * (d * p);
    assert d * p == p * d;
  }

  /** What a line that is 0 at 0 is at x. */
  lemma DividedLine(f0: int, f1: int, x: int, fx: int, q: int, m: nat)
    requires fx == f0 + x * (f1 - f0) && Cong(0, f0, m) && Cong(q, f1, m)
    ensures Divided(fx, x, q, 0, m)
  {
    CongAdd(f1, f1, f0, 0, m);
    CongScale(f1 - f0, f1, x, m);
    CongAdd(f0, 0, x * (f1 - f0), x * f1, m);
    CongScale(q, f1, x, m);
    assert f1 * x == x * f1;
  }
}
