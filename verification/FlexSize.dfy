// Size rounding: FLEXALIGNOF and FLEXSIZEOF (include/flexmember.h) in a size_t of w bits, and
// the rounding step of alignalloc (include/alignalloc.h).
module FlexSize {
  import opened Powers
  import opened Bits

  // The pre-C11 FLEXALIGNOF of a type whose size is s.
  function FlexAlignOf(s: nat, w: nat): nat
    requires 0 < s < Pow(2, w)
  {
    And(s, Not(s - 1, w))
  }

  function FlexSizeOf(offset: nat, align: nat, n: nat, w: nat): nat
    requires 0 < align <= Pow(2, w)
  {
    And((offset + align - 1 + n) % Pow(2, w), Not(align - 1, w))
  }

  predicate Multiple(a: nat, m: nat)
    requires a > 0
  {
    m % a == 0
  }

  // m is the least multiple of a that is at least x.
  ghost predicate LeastMultiple(a: nat, x: nat, m: nat)
    requires a > 0
  {
    x <= m && Multiple(a, m) && forall k: nat :: x <= k && Multiple(a, k) ==> m <= k
  }

  // Rounding down x + a - 1 to a multiple of a rounds x up.
  lemma RoundUp(a: nat, x: nat)
    requires a > 0
    ensures LeastMultiple(a, x, (x + a - 1) / a * a)
    ensures (x + a - 1) / a * a == x + a - 1 - (x + a - 1) % a
  {
    var q, r := (x + a - 1) / a, (x + a - 1) % a;
    assert x + a - 1 == q * a + r;
    DivModUnique(q, a, 0);
    forall k: nat | x <= k && Multiple(a, k)
      ensures q * a <= k
    {
      var d := q - k / a;
      assert d * a == q * a - k;
      MulAway(d, a);
    }
  }

  // The promise in the comment: FLEXSIZEOF yields a value less than n if and only if arithmetic
  // overflow occurs. Otherwise it is the smallest aligned size holding offset + n bytes.
  lemma FlexSizeOfRoundsUp(offset: nat, k: nat, n: nat, w: nat)
    requires k <= w && n < Pow(2, w)
    requires offset + Pow(2, k) - 1 < Pow(2, w)
    ensures Pow(2, k) <= Pow(2, w)
    ensures FlexSizeOf(offset, Pow(2, k), n, w) < n <==> offset + Pow(2, k) - 1 + n >= Pow(2, w)
    ensures FlexSizeOf(offset, Pow(2, k), n, w) >= n ==>
      LeastMultiple(Pow(2, k), offset + n, FlexSizeOf(offset, Pow(2, k), n, w))
  {
    PowMonotonic(2, k, w);
    if offset + Pow(2, k) - 1 + n >= Pow(2, w) {
      WrappedSum(offset + Pow(2, k) - 1, n, k, w);
    } else {
      FittingSum(offset, k, n, w);
    }
  }

  // A sum that wraps ends up below the addend n.
  lemma WrappedSum(m: nat, n: nat, k: nat, w: nat)
    requires k <= w && Pow(2, k) <= Pow(2, w) && n < Pow(2, w) && m < Pow(2, w) <= m + n
    ensures And((m + n) % Pow(2, w), Not(Pow(2, k) - 1, w)) < n
  {
    var rest := m + n - Pow(2, w);
    DivModUnique(1, Pow(2, w), rest);
    ClearLowBits(rest, k, w);
    RoundDownShrinks(rest, Pow(2, k));
  }

  lemma FittingSum(offset: nat, k: nat, n: nat, w: nat)
    requires k <= w && Pow(2, k) <= Pow(2, w) && offset + Pow(2, k) - 1 + n < Pow(2, w)
    ensures LeastMultiple(Pow(2, k), offset + n, FlexSizeOf(offset, Pow(2, k), n, w))
  {
    FittingMask(offset, k, n, w);
    RoundUpByRemainder(Pow(2, k), offset + n);
  }

  lemma FittingMask(offset: nat, k: nat, n: nat, w: nat)
    requires k <= w && Pow(2, k) <= Pow(2, w) && offset + Pow(2, k) - 1 + n < Pow(2, w)
    ensures FlexSizeOf(offset, Pow(2, k), n, w) ==
      offset + n + Pow(2, k) - 1 - (offset + n + Pow(2, k) - 1) % Pow(2, k)
  {
    var sum := offset + Pow(2, k) - 1 + n;
    DivModUnique(0, Pow(2, w), sum);
    ClearLowBits(sum, k, w);
  }

  lemma RoundUpByRemainder(a: nat, x: nat)
    requires a > 0
    ensures LeastMultiple(a, x, x + a - 1 - (x + a - 1) % a)
  {
    RoundUp(a, x);
  }

  // Overflow is reported for no size that would fit: the sum overflows exactly when the aligned
  // size itself needs more than w bits.
  lemma OverflowIffTooBig(offset: nat, k: nat, n: nat, w: nat, m: nat)
    requires k <= w && LeastMultiple(Pow(2, k), offset + n, m)
    ensures offset + Pow(2, k) - 1 + n >= Pow(2, w) <==> m >= Pow(2, w)
  {
    var a, top := Pow(2, k), Pow(2, w);
    RoundUp(a, offset + n);
    PowAdd(2, w - k, k);
    DivModUnique(Pow(2, w - k), a, 0);
    if m < top {
      MultiplesApart(a, m, top);
    }
  }

  lemma MultiplesApart(a: nat, m: nat, n: nat)
    requires a > 0 && Multiple(a, m) && Multiple(a, n) && m < n
    ensures m + a <= n
  {
    var d := n / a - m / a;
    assert d * a == n - m;
    MulAway(d, a);
  }

  // The fallback FLEXALIGNOF is the largest power of two dividing the size, so every power of
  // two that divides the size, in particular the type's alignment, divides it.
  lemma {:induction false} FlexAlignOfIsLargestPower(s: nat, w: nat) returns (k: nat)
    requires 0 < s < Pow(2, w)
    ensures FlexAlignOf(s, w) == Pow(2, k)
    ensures s % Pow(2, k) == 0
    ensures forall j: nat :: s % Pow(2, j) == 0 ==> j <= k && Pow(2, k) % Pow(2, j) == 0
    decreases w
  {
    if s % 2 == 1 {
      k := 0;
      OddAlign(s, w);
    } else {
      k := FlexAlignOfIsLargestPower(s / 2, w - 1);
      EvenAlign(s, w);
      HalveDivisibility(s, k + 1);
      k := k + 1;
    }
    forall j: nat | s % Pow(2, j) == 0
      ensures j <= k && Pow(2, k) % Pow(2, j) == 0
    {
      HalveDivisibility(s, j);
      PowAdd(2, k - j, j);
      DivModUnique(Pow(2, k - j), Pow(2, j), 0);
    }
  }

  lemma OddAlign(s: nat, w: nat)
    requires 0 < s < Pow(2, w) && s % 2 == 1
    ensures FlexAlignOf(s, w) == 1
  {
    assert Pow(2, w) == 2 * Pow(2, w - 1);
    assert Not(s - 1, w) % 2 == 1 && Not(s - 1, w) / 2 == Not(s / 2, w - 1);
    AndNotSelf(s / 2, w - 1);
  }

  lemma EvenAlign(s: nat, w: nat)
    requires 0 < s < Pow(2, w) && s % 2 == 0
    ensures w > 0 && 0 < s / 2 < Pow(2, w - 1)
    ensures FlexAlignOf(s, w) == 2 * FlexAlignOf(s / 2, w - 1)
  {
    assert Pow(2, w) == 2 * Pow(2, w - 1);
    assert Not(s - 1, w) == 2 * Not(s / 2 - 1, w - 1);
  }

  lemma {:induction false} AndNotSelf(x: nat, w: nat)
    requires x < Pow(2, w)
    ensures And(x, Not(x, w)) == 0
    decreases w
  {
    if w > 0 {
      assert Not(x, w) == 2 * Not(x / 2, w - 1) + (1 - x % 2);
      AndNotSelf(x / 2, w - 1);
    }
  }

  // 2^j divides s exactly when s is even and 2^(j-1) divides its half.
  lemma HalveDivisibility(s: nat, j: nat)
    ensures j > 0 ==> (s % Pow(2, j) == 0 <==> s % 2 == 0 && (s / 2) % Pow(2, j - 1) == 0)
  {
    if j > 0 {
      var p := Pow(2, j - 1);
      var q, r := (s / 2) / p, (s / 2) % p;
      assert s == 2 * (q * p + r) + s % 2;
      assert s == q * (2 * p) + (2 * r + s % 2);
      DivModUnique(q, 2 * p, 2 * r + s % 2);
    }
  }

  // C's integer division and remainder truncate toward zero.
  function CDiv(x: int, y: int): int
    requires y > 0
  {
    if x >= 0 then x / y else -(-x / y)
  }

  function CMod(x: int, y: int): int
    requires y > 0
  {
    x - CDiv(x, y) * y
  }

  // The arguments alignalloc passes to aligned_alloc. An idx_t is signed: clamping to the largest
  // size_t stores -1 in it. The code's caller must keep size + alignment - 1 inside idx_t.
  method AlignAlloc(alignment: int, size: int) returns (a: int, s: int)
    ensures alignment < 0 ==> a == -1 && s == if size < 0 then -1 else size
    ensures alignment == 0 ==> a == 0 && s == if size < 0 then -1 else size
    ensures alignment > 0 && size >= 0 ==> a == alignment && s >= 0 && LeastMultiple(alignment, size, s)
    ensures alignment > 0 && size < 0 ==> a == alignment && s == if alignment == 1 then -1 else 0
  {
    a, s := alignment, size;
    if a < 0 {
      a := -1;
    }
    if s < 0 {
      s := -1;
    }
    if a > 0 && CMod(s, a) != 0 {
      if s >= 0 {
        RoundUp(a, s);
      } else {
        DivModUnique(0, a, 1 % a);
        DivModUnique(0, a, a - 2);
      }
      s := CDiv(s + a - 1, a) * a;
    } else if a > 0 && s >= 0 {
      assert Multiple(a, s);
    } else if a > 1 {
      DivModUnique(0, a, 1);
    }
  }

  // For a power-of-two alignment the mask rounding of FLEXSIZEOF and the division rounding of
  // alignalloc request the same size.
  lemma MaskRoundingIsDivisionRounding(k: nat, n: nat, w: nat)
    requires k <= w && n + Pow(2, k) - 1 < Pow(2, w)
    ensures Pow(2, k) <= Pow(2, w)
    ensures FlexSizeOf(0, Pow(2, k), n, w) == (n + Pow(2, k) - 1) / Pow(2, k) * Pow(2, k)
  {
    FlexSizeOfRoundsUp(0, k, n, w);
    RoundUp(Pow(2, k), n);
  }
}
