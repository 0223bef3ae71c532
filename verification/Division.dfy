/** Quotients and remainders of natural numbers. */
module Division {

  lemma DivModUnique(k: nat, n: nat, q: nat, r: nat)
    requires r < n && k == n * q + r
    ensures k / n == q && k % n == r
  {
    var q', r' := k / n, k % n;
    calc {
      n * (q' - q);
      n * q' - n * q;
      { assert k == n * q' + r'; }
      r - r';
    }
    if q' != q {
      NonzeroMultiple(n, q' - q);
      assert false;
    }
  }

  lemma {:induction false} NonzeroMultiple(n: int, d: int)
    requires n > 0 && d != 0
    ensures n * d >= n || n * d <= -n
    decreases if d > 0 then d else -d
  {
    if d > 1 {
      NonzeroMultiple(n, d - 1);
      assert n * d == n * (d - 1) + n;
    } else if d < -1 {
      NonzeroMultiple(n, d + 1);
      assert n * d == n * (d + 1) - n;
    }
  }

  lemma DivTwice(v: nat, p: nat)
    requires p > 0
    ensures v / 2 / p == v / (2 * p)
  {
    var q, r := DivParts(v, 2 * p);
    Halve(v, p, 2 * p, q, r);
    DivModUnique(v / 2, p, q, r / 2);
  }

  lemma DivParts(v: nat, d: nat) returns (q: nat, r: nat)
    requires d > 0
    ensures v == d * q + r && r < d && q == v / d
  {
    q, r := v / d, v % d;
  }

  lemma Halve(v: nat, p: nat, d: nat, q: nat, r: nat)
    requires d == 2 * p && v == d * q + r && r < d
    ensures v / 2 == p * q + r / 2 && r / 2 < p
  {
    Doubled(p, d, q);
    HalfOf(v, p * q, r);
  }

  lemma Doubled(p: nat, d: nat, q: nat)
    requires d == 2 * p
    ensures d * q == 2 * (p * q)
  {}

  lemma HalfOf(v: nat, t: nat, r: nat)
    requires v == 2 * t + r
    ensures v / 2 == t + r / 2
  {}

  lemma DivPositive(v: nat, p: nat)
    requires 0 < p <= v
    ensures v / p > 0
  {
    assert v == p * (v / p) + v % p;
  }

  lemma DivBelow(v: nat, p: nat)
    requires p > 0 && v < p * p
    ensures v / p < p
  {
    var q := v / p;
    assert v == p * q + v % p;
    if q >= p {
      MulMonotone(p, p, q);
      assert false;
    }
  }

  lemma MulMonotone(a: nat, b: nat, c: nat)
    requires b <= c
    ensures a * b <= a * c
  {
    assert a * c == a * b + a * (c - b);
  }

  lemma ScaleStep(a: int, d: nat, w: nat)
    ensures (a + d + 1) * w == a * w + d * w + w && d * w >= 0
  {}
}
