// The buffer bound LONGEST_HUMAN_READABLE (include/human.h) for any width of uintmax_t.
module HumanBound {
  import opened Powers
  import opened Decimal

  // The macro's value for a uintmax_t of so many bytes.
  function LongestHumanReadable(bytes: nat, charBit: nat, mbLenMax: nat): nat {
    (2 * bytes * charBit * 146 / 485 + 1) * (mbLenMax + 1) - mbLenMax + 1 + 3
  }

  lemma PowDouble(b: nat, m: nat, p: nat)
    requires Pow(b, m) == p
    ensures Pow(b, 2 * m) == p * p
    ensures Pow(b, 2 * m + 1) == b * (p * p)
  {
    PowAdd(b, m, m);
  }

  lemma TwoTo485()
    ensures Pow(2, 485) == 99895953610111751404211111353381321783955140565279076827493022708011895642232499843849795298031743077114461795885011932654335221737225129801285632
  {
    assert Pow(2, 3) == 8;
    PowDouble(2, 3, 8);
    PowDouble(2, 7, 128);
    PowDouble(2, 15, 32768);
    PowDouble(2, 30, 1073741824);
    PowDouble(2, 60, 1152921504606846976);
    PowDouble(2, 121, 2658455991569831745807614120560689152);
    PowDouble(2, 242, 7067388259113537318333190002971674063309935587502475832486424805170479104);
  }

  lemma TenTo146()
    ensures Pow(10, 146) == 100000000000000000000000000000000000000000000000000000000000000000000000000000000000000000000000000000000000000000000000000000000000000000000000000
  {
    assert Pow(10, 2) == 100;
    PowDouble(10, 2, 100);
    PowDouble(10, 4, 10000);
    PowDouble(10, 9, 1000000000);
    PowDouble(10, 18, 1000000000000000000);
    PowDouble(10, 36, 1000000000000000000000000000000000000);
    PowDouble(10, 73, 10000000000000000000000000000000000000000000000000000000000000000000000000);
  }

  // log10(2) < 146/485, stated without logarithms.
  lemma Log10Of2()
    ensures Pow(2, 485) < Pow(10, 146)
  {
    TwoTo485();
    TenTo146();
  }

  // The 485th power of a power of two is below the 146th power of the same power of ten.
  lemma TwoToTen(n: nat)
    ensures Pow(Pow(2, n), 485) <= Pow(10, 146 * n)
  {
    PowMul(2, n, 485);
    PowMul(2, 485, n);
    assert n * 485 == 485 * n;
    Log10Of2();
    PowBaseMonotonic(Pow(2, 485), Pow(10, 146), n);
    PowMul(10, 146, n);
  }

  // A power of ten that a number of n bits reaches has an exponent of at most n * 146 / 485.
  lemma DecimalExponentBound(n: nat, d: nat)
    requires Pow(10, d) < Pow(2, n)
    ensures d <= n * 146 / 485
  {
    if d * 485 > n * 146 {
      PowBaseStrict(Pow(10, d), Pow(2, n), 485);
      PowMul(10, d, 485);
      TwoToTen(n);
      PowMonotonic(10, 146 * n, d * 485);
    }
  }

  // Every number of n bits has at most n * 146 / 485 + 1 decimal digits.
  lemma DigitCountBound(v: nat, n: nat)
    requires v < Pow(2, n)
    ensures |Digits(v)| <= n * 146 / 485 + 1
  {
    DigitsLength(v);
    if |Digits(v)| > 1 {
      DecimalExponentBound(n, |Digits(v)| - 1);
    }
  }

  // The digits of a numeral with a separator after each one but the last.
  function Grouped(ds: seq<nat>, separators: seq<string>): string
    requires ds != [] && |separators| == |ds| - 1 && IsDigits(ds)
  {
    var digit := [ds[0] as char + '0'];
    if |ds| == 1 then digit
    else digit + separators[0] + Grouped(ds[1..], separators[1..])
  }

  lemma {:induction false} GroupedLength(ds: seq<nat>, separators: seq<string>, mbLenMax: nat)
    requires ds != [] && |separators| == |ds| - 1 && IsDigits(ds)
    requires forall s :: s in separators ==> |s| <= mbLenMax
    ensures |Grouped(ds, separators)| <= |ds| * (mbLenMax + 1) - mbLenMax
  {
    if |ds| > 1 {
      GroupedLength(ds[1..], separators[1..], mbLenMax);
      assert separators[0] in separators;
      OneMoreDigit(|ds|, mbLenMax);
    }
  }

  function TotalLength(texts: seq<string>): nat {
    if texts == [] then 0 else |texts[0]| + TotalLength(texts[1..])
  }

  // Nothing is printed but the digits and the separators between them.
  lemma {:induction false} GroupedIsExact(ds: seq<nat>, separators: seq<string>)
    requires ds != [] && |separators| == |ds| - 1 && IsDigits(ds)
    ensures |Grouped(ds, separators)| == |ds| + TotalLength(separators)
  {
    if |ds| > 1 {
      GroupedIsExact(ds[1..], separators[1..]);
    }
  }

  lemma OneMoreDigit(n: nat, mbLenMax: nat)
    ensures n * (mbLenMax + 1) == (n - 1) * (mbLenMax + 1) + (mbLenMax + 1)
  {
  }

  // The promise of the comment: the square of the largest uintmax_t, or anything smaller, with a
  // separator of at most MB_LEN_MAX bytes between each two digits, a space and a suffix of at
  // most three bytes, fits in LONGEST_HUMAN_READABLE bytes.
  lemma LongestIsEnough(
      v: nat, bytes: nat, charBit: nat, mbLenMax: nat,
      separators: seq<string>, space: string, suffix: string)
    requires v <= (Pow(2, bytes * charBit) - 1) * (Pow(2, bytes * charBit) - 1)
    requires |separators| == |Digits(v)| - 1 && forall s :: s in separators ==> |s| <= mbLenMax
    requires |space| <= 1 && |suffix| <= 3
    ensures |Grouped(Digits(v), separators) + space + suffix|
         <= LongestHumanReadable(bytes, charBit, mbLenMax)
  {
    var w := bytes * charBit;
    SquareFits(v, w);
    DigitCountBound(v, 2 * w);
    MulAssoc(2, bytes, charBit);
    GroupedLength(Digits(v), separators, mbLenMax);
    MulLeMul(|Digits(v)|, 2 * bytes * charBit * 146 / 485 + 1, mbLenMax + 1, mbLenMax + 1);
  }

  lemma SquareFits(v: nat, w: nat)
    requires v <= (Pow(2, w) - 1) * (Pow(2, w) - 1)
    ensures v < Pow(2, 2 * w)
  {
    PowAdd(2, w, w);
    SquareOfPredecessor(Pow(2, w));
  }

  lemma SquareOfPredecessor(p: nat)
    requires p > 0
    ensures (p - 1) * (p - 1) < p * p
  {
  }

  lemma {:induction false} SameLengths(texts: seq<string>, n: nat)
    requires forall i :: 0 <= i < |texts| ==> |texts[i]| == n
    ensures TotalLength(texts) == |texts| * n
  {
    if texts != [] {
      SameLengths(texts[1..], n);
    }
  }

  lemma TenTo38()
    ensures Pow(10, 38) == 100000000000000000000000000000000000000
    ensures Pow(10, 39) == 1000000000000000000000000000000000000000
  {
    assert Pow(10, 2) == 100;
    PowDouble(10, 2, 100);
    PowDouble(10, 4, 10000);
    PowDouble(10, 9, 1000000000);
    PowDouble(10, 19, 10000000000000000000);
    assert Pow(10, 39) == 10 * Pow(10, 38);
  }

  const LARGEST: nat := 18446744073709551615

  lemma SquareHas39Digits()
    ensures |Digits(LARGEST * LARGEST)| == 39
  {
    var n := |Digits(LARGEST * LARGEST)|;
    TenTo38();
    DigitsLength(LARGEST * LARGEST);
    NumDigits(LARGEST * LARGEST);
    NumBound(Digits(LARGEST * LARGEST));
    if n < 39 {
      PowMonotonic(10, n, 38);
    } else if n > 39 {
      PowMonotonic(10, 39, n - 1);
    }
  }

  // The bound is not too large either: with 64 bits and separators of 16 bytes it is reached.
  lemma LongestIsReached(separators: seq<string>, space: string, suffix: string)
    requires |separators| == 38 && forall i :: 0 <= i < 38 ==> |separators[i]| == 16
    requires |space| == 1 && |suffix| == 3
    ensures |Digits(LARGEST * LARGEST)| == 39 && LongestHumanReadable(8, 8, 16) == 651
    ensures |Grouped(Digits(LARGEST * LARGEST), separators) + space + suffix| == 651
  {
    SquareHas39Digits();
    GroupedIsExact(Digits(LARGEST * LARGEST), separators);
    SameLengths(separators, 16);
  }
}
