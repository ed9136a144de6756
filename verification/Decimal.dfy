// Decimal numerals: reading digits, most significant first, and writing a number.
module Decimal {
  import opened Powers

  predicate IsDigits(ds: seq<nat>) {
    forall i :: 0 <= i < |ds| ==> ds[i] < 10
  }

  // The number read by the loop "n = 10 * n + d" over the digits.
  function Num(ds: seq<nat>): nat {
    if ds == [] then 0 else 10 * Num(ds[..|ds| - 1]) + ds[|ds| - 1]
  }

  // The shortest numeral of n.
  function Digits(n: nat): (ds: seq<nat>)
    ensures ds != [] && IsDigits(ds)
  {
    if n < 10 then [n] else Digits(n / 10) + [n % 10]
  }

  // The last k digits of n, with leading zeros.
  function FixedDigits(n: nat, k: nat): (ds: seq<nat>)
    ensures |ds| == k && IsDigits(ds)
  {
    if k == 0 then [] else FixedDigits(n / 10, k - 1) + [n % 10]
  }

  lemma NumSnoc(ds: seq<nat>, d: nat)
    ensures Num(ds + [d]) == 10 * Num(ds) + d
  {
    assert (ds + [d])[..|ds|] == ds;
  }

  lemma {:induction false} NumDigits(n: nat)
    ensures Num(Digits(n)) == n
  {
    if n < 10 {
      NumSnoc([], n);
      assert [] + [n] == [n];
    } else {
      NumDigits(n / 10);
      NumSnoc(Digits(n / 10), n % 10);
    }
  }

  lemma {:induction false} NumFixedDigits(n: nat, k: nat)
    requires n < Pow(10, k)
    ensures Num(FixedDigits(n, k)) == n
  {
    if k > 0 {
      NumFixedDigits(n / 10, k - 1);
      NumSnoc(FixedDigits(n / 10, k - 1), n % 10);
    }
  }

  lemma {:induction false} NumConcat(a: seq<nat>, b: seq<nat>)
    ensures Num(a + b) == Num(a) * Pow(10, |b|) + Num(b)
    decreases |b|
  {
    if b == [] {
      assert a + b == a;
    } else {
      var init, last := b[..|b| - 1], b[|b| - 1];
      NumConcat(a, init);
      assert a + b == (a + init) + [last];
      NumSnoc(a + init, last);
      MulAssoc(Num(a), Pow(10, |init|), 10);
    }
  }

  lemma {:induction false} NumBound(ds: seq<nat>)
    requires IsDigits(ds)
    ensures Num(ds) < Pow(10, |ds|)
  {
    if ds != [] {
      NumBound(ds[..|ds| - 1]);
    }
  }

  // A number needs a further digit only from the matching power of ten on.
  lemma {:induction false} DigitsLength(n: nat)
    ensures |Digits(n)| > 1 ==> Pow(10, |Digits(n)| - 1) <= n
  {
    if n >= 10 {
      DigitsLength(n / 10);
    }
  }
}
