// Powers of a natural base: the arithmetic shared by the word-level and the decimal modules.
module Powers {

  function Pow(b: nat, e: nat): (p: nat)
    ensures b > 0 ==> p > 0
  {
    if e == 0 then 1 else b * Pow(b, e - 1)
  }

  lemma {:induction false} PowAdd(b: nat, m: nat, n: nat)
    ensures Pow(b, m + n) == Pow(b, m) * Pow(b, n)
  {
    if m == 0 {
    } else {
      PowAdd(b, m - 1, n);
      MulAssoc(b, Pow(b, m - 1), Pow(b, n));
    }
  }

  lemma {:induction false} PowMul(b: nat, m: nat, n: nat)
    ensures Pow(b, m * n) == Pow(Pow(b, m), n)
  {
    if n == 0 {
      assert m * n == 0;
    } else {
      PowMul(b, m, n - 1);
      assert m * n == m + m * (n - 1);
      PowAdd(b, m, m * (n - 1));
    }
  }

  lemma {:induction false} PowMonotonic(b: nat, m: nat, n: nat)
    requires b >= 1 && m <= n
    ensures Pow(b, m) <= Pow(b, n)
  {
    if m < n {
      PowMonotonic(b, m, n - 1);
      MulGrows(b, Pow(b, n - 1));
    }
  }

  // Raising to a power preserves the order of the bases.
  lemma {:induction false} PowBaseMonotonic(a: nat, b: nat, e: nat)
    requires a <= b
    ensures Pow(a, e) <= Pow(b, e)
  {
    if e > 0 {
      PowBaseMonotonic(a, b, e - 1);
      MulLeMul(a, b, Pow(a, e - 1), Pow(b, e - 1));
    }
  }

  lemma {:induction false} PowBaseStrict(a: nat, b: nat, e: nat)
    requires a < b && e > 0
    ensures Pow(a, e) < Pow(b, e)
  {
    PowBaseMonotonic(a, b, e - 1);
    MulLeMul(a, a, Pow(a, e - 1), Pow(b, e - 1));
    MulLtMul(a, b, Pow(b, e - 1));
  }

  lemma MulAssoc(a: int, b: int, c: int)
    ensures (a * b) * c == a * (b * c)
  {
  }

  lemma MulGrows(a: nat, b: nat)
    requires a >= 1
    ensures b <= a * b
  {
    MulLeMul(1, a, b, b);
  }

  lemma MulLeMul(a: nat, b: nat, c: nat, d: nat)
    requires a <= b && c <= d
    ensures a * c <= b * d
  {
    assert b * d == a * d + (b - a) * d;
    assert a * d == a * c + a * (d - c);
  }

  lemma MulLtMul(a: nat, b: nat, c: nat)
    requires a < b && c > 0
    ensures a * c < b * c
  {
    MulLeMul(a + 1, b, c, c);
  }

  // A nonzero multiple of d is at least d away from zero.
  lemma MulAway(k: int, d: int)
    requires d > 0
    ensures k >= 1 ==> k * d >= d
    ensures k <= -1 ==> k * d <= -d
  {
    if k >= 1 {
      assert k * d == d + (k - 1) * d;
    } else if k <= -1 {
      assert k * d == (k + 1) * d - d;
    }
  }

  // Quotient and remainder of q * d + r are q and r.
  lemma DivModUnique(q: int, d: int, r: int)
    requires 0 <= r < d
    ensures (q * d + r) / d == q
    ensures (q * d + r) % d == r
  {
    var n := q * d + r;
    var k := n / d - q;
    assert n == d * (n / d) + n % d;
    assert d * (n / d) == q * d + k * d;
    assert k * d == r - n % d;
    MulAway(k, d);
  }

  // Dividing twice divides by the product.
  lemma DivDiv(x: nat, a: nat, b: nat)
    requires a > 0 && b > 0
    ensures a * b > 0
    ensures (x / a) / b == x / (a * b)
  {
    MulLeMul(1, a, 1, b);
    var q, r := x / a, x % a;
    var q', r' := q / b, q % b;
    assert x == a * q + r;
    assert q == b * q' + r';
    assert a * q == a * (b * q') + a * r';
    MulAssoc(a, b, q');
    MulLeMul(a, a, r', b - 1);
    assert a * (b - 1) == a * b - a;
    assert 0 <= a * r' + r < a * b by { MulLeMul(0, a, 0, r'); }
    assert x == q' * (a * b) + (a * r' + r);
    DivModUnique(q', a * b, a * r' + r);
  }
}
