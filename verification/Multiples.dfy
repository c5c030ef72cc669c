/** Multiples of a positive unit: pages, programming units, packets. */
module Multiples {
  ghost predicate Multiple(n: nat, d: nat) {
    exists q: nat :: n == q * d
  }

  lemma MultipleAdd(a: nat, b: nat, d: nat)
    requires Multiple(a, d) && Multiple(b, d)
    ensures Multiple(a + b, d)
  {
    var p: nat :| a == p * d;
    var q: nat :| b == q * d;
    assert a + b == (p + q) * d;
  }

  lemma MultipleSub(a: nat, b: nat, d: nat)
    requires Multiple(a, d) && Multiple(b, d) && b <= a
    ensures Multiple(a - b, d)
  {
    var p: nat :| a == p * d;
    var q: nat :| b == q * d;
    if q > p {
      assert q * d == p * d + (q - p) * d;
      assert a - b == 0 * d;
    } else {
      assert a - b == (p - q) * d;
    }
  }

  lemma MultipleOnce(d: nat)
    ensures Multiple(0, d) && Multiple(d, d)
  {
    assert 0 == 0 * d && d == 1 * d;
  }

  /** A positive multiple is at least one unit, and one unit less is a multiple again. */
  lemma OneLess(n: nat, d: nat)
    requires Multiple(n, d) && 0 < n && 0 < d
    ensures d <= n && Multiple(n - d, d)
  {
    var q: nat :| n == q * d;
    assert n - d == (q - 1) * d;
    MulMono(1, q, d);
  }

  lemma NextUnitFits(a: nat, room: nat, q: nat, p: nat, unit: nat)
    requires a == q * unit && room == p * unit && a < room
    ensures a + unit <= room
  {
    if q + 1 > p {
      assert q >= p;
      assert q * unit >= p * unit by {
        MulMono(p, q, unit);
      }
    } else {
      MulMono(q + 1, p, unit);
      assert (q + 1) * unit == q * unit + unit;
    }
  }

  lemma MulMono(a: nat, b: nat, c: nat)
    requires a <= b
    ensures a * c <= b * c
  {
  }

  /** Quotient and remainder are unique. */
  lemma DivUnique(a: nat, q: nat, r: nat, m: nat)
    requires r < m && a == q * m + r
    ensures a / m == q && a % m == r
  {
    var q' := a / m;
    assert a == q' * m + a % m;
    assert (q + 1) * m == q * m + m && (q' + 1) * m == q' * m + m;
    if q < q' {
      MulMono(q + 1, q', m);
    } else if q' < q {
      MulMono(q' + 1, q, m);
    }
  }

  lemma Regroup(q: nat, s: nat, a: nat, b: nat)
    ensures (q * b + s) * a == q * (a * b) + s * a
  {
    assert (q * b + s) * a == q * b * a + s * a;
    assert q * b * a == q * (a * b);
  }

  /** Two divisions, written as products and remainders. */
  lemma TwoSteps(n: nat, a: nat, b: nat, p: nat, r: nat, q: nat, s: nat)
    requires r < a && s < b && n == p * a + r && p == q * b + s
    ensures a * b > 0 && n / (a * b) == q
  {
    Regroup(q, s, a, b);
    MulMono(1, b, a);
    MulMono(s + 1, b, a);
    assert (s + 1) * a == s * a + a && b * a == a * b;
    DivUnique(n, q, s * a + r, a * b);
  }

  lemma DivDiv(n: nat, a: nat, b: nat)
    requires a > 0 && b > 0
    ensures a * b > 0 && n / a / b == n / (a * b)
  {
    var p, r := n / a, n % a;
    var q, s := p / b, p % b;
    TwoSteps(n, a, b, p, r, q, s);
  }
}
