// Unsigned machine words as natural numbers, and their bits. A W-bit word is a number below
// 2^W; a left shift that must wrap is followed by "% Pow(2, W)".
module Bits {
  import opened Powers

  predicate Bit(x: nat, i: nat) {
    if i == 0 then x % 2 == 1 else Bit(x / 2, i - 1)
  }

  function BitOf(b: bool): nat {
    if b then 1 else 0
  }

  // Bitwise or, digit by digit in base two.
  function Or(x: nat, y: nat): nat
    decreases x + y
  {
    if x == 0 && y == 0 then 0
    else 2 * Or(x / 2, y / 2) + BitOf(x % 2 == 1 || y % 2 == 1)
  }

  // Bitwise and.
  function And(x: nat, y: nat): nat
    decreases x + y
  {
    if x == 0 && y == 0 then 0
    else 2 * And(x / 2, y / 2) + BitOf(x % 2 == 1 && y % 2 == 1)
  }

  // Complement of a word of w bits.
  function Not(x: nat, w: nat): nat
    requires x < Pow(2, w)
  {
    Pow(2, w) - 1 - x
  }

  function Shl(x: nat, n: nat): nat {
    x * Pow(2, n)
  }

  function Shr(x: nat, n: nat): nat {
    x / Pow(2, n)
  }

  lemma {:induction false} BitOr(x: nat, y: nat, i: nat)
    ensures Bit(Or(x, y), i) == (Bit(x, i) || Bit(y, i))
    decreases i
  {
    if x == 0 && y == 0 {
      BitZero(i);
    } else {
      assert Or(x, y) / 2 == Or(x / 2, y / 2);
      if i > 0 {
        BitOr(x / 2, y / 2, i - 1);
      }
    }
  }

  lemma {:induction false} BitAnd(x: nat, y: nat, i: nat)
    ensures Bit(And(x, y), i) == (Bit(x, i) && Bit(y, i))
    decreases i
  {
    if x == 0 && y == 0 {
      BitZero(i);
    } else {
      assert And(x, y) / 2 == And(x / 2, y / 2);
      if i > 0 {
        BitAnd(x / 2, y / 2, i - 1);
      }
    }
  }

  lemma {:induction false} BitZero(i: nat)
    ensures !Bit(0, i)
  {
    if i > 0 {
      BitZero(i - 1);
    }
  }

  lemma {:induction false} BitNot(x: nat, w: nat, i: nat)
    requires x < Pow(2, w)
    ensures Bit(Not(x, w), i) == (i < w && !Bit(x, i))
    decreases w
  {
    if w == 0 {
      BitZero(i);
    } else {
      assert Not(x, w) == 2 * (Pow(2, w - 1) - 1 - x / 2) + (1 - x % 2);
      assert Not(x, w) / 2 == Not(x / 2, w - 1);
      if i > 0 {
        BitNot(x / 2, w - 1, i - 1);
      }
    }
  }

  lemma {:induction false} BitShl(x: nat, n: nat, i: nat)
    ensures Bit(Shl(x, n), i) == (i >= n && Bit(x, i - n))
    decreases n
  {
    if n > 0 {
      var half := x * Pow(2, n - 1);
      assert x * Pow(2, n) == 2 * half;
      if i > 0 {
        BitShl(x, n - 1, i - 1);
      }
    }
  }

  lemma {:induction false} BitShr(x: nat, n: nat, i: nat)
    ensures Bit(Shr(x, n), i) == Bit(x, i + n)
    decreases n
  {
    if n > 0 {
      DivDiv(x, 2, Pow(2, n - 1));
      BitShr(x / 2, n - 1, i);
    }
  }

  // Reduction modulo 2^n keeps the low n bits.
  lemma {:induction false} BitMod(x: nat, n: nat, i: nat)
    ensures Bit(x % Pow(2, n), i) == (i < n && Bit(x, i))
    decreases n
  {
    if n == 0 {
      BitZero(i);
    } else {
      var p := Pow(2, n - 1);
      var q, r := (x / 2) / p, (x / 2) % p;
      assert x == 2 * (p * q + r) + x % 2;
      assert x == q * (2 * p) + (2 * r + x % 2);
      DivModUnique(q, 2 * p, 2 * r + x % 2);
      assert x % Pow(2, n) == 2 * r + x % 2;
      if i > 0 {
        BitMod(x / 2, n - 1, i - 1);
      }
    }
  }

  // A number has no bit at or above its width.
  lemma {:induction false} BitAboveWidth(x: nat, w: nat, i: nat)
    requires x < Pow(2, w) && i >= w
    ensures !Bit(x, i)
    decreases w
  {
    if w == 0 {
      BitZero(i);
    } else {
      BitAboveWidth(x / 2, w - 1, i - 1);
    }
  }

  // Words with the same bits are the same word.
  lemma {:induction false} SameBits(x: nat, y: nat, w: nat)
    requires x < Pow(2, w) && y < Pow(2, w)
    requires forall i :: 0 <= i < w ==> Bit(x, i) == Bit(y, i)
    ensures x == y
    decreases w
  {
    if w > 0 {
      assert Bit(x, 0) == Bit(y, 0);
      forall i | 0 <= i < w - 1
        ensures Bit(x / 2, i) == Bit(y / 2, i)
      {
        assert Bit(x, i + 1) == Bit(y, i + 1);
      }
      SameBits(x / 2, y / 2, w - 1);
    }
  }

  // Or and And of w-bit words are w-bit words.
  lemma {:induction false} OrAndWidth(x: nat, y: nat, w: nat)
    requires x < Pow(2, w) && y < Pow(2, w)
    ensures Or(x, y) < Pow(2, w) && And(x, y) < Pow(2, w)
    decreases w
  {
    if w > 0 {
      OrAndWidth(x / 2, y / 2, w - 1);
    }
  }

  // Clearing the low k bits rounds down to a multiple of 2^k.
  lemma ClearLowBits(x: nat, k: nat, w: nat)
    requires x < Pow(2, w) && k <= w
    ensures Pow(2, k) <= Pow(2, w)
    ensures And(x, Not(Pow(2, k) - 1, w)) == x - x % Pow(2, k)
  {
    PowMonotonic(2, k, w);
    var down := x - x % Pow(2, k);
    RoundDownShrinks(x, Pow(2, k));
    OrAndWidth(x, Not(Pow(2, k) - 1, w), w);
    forall i | 0 <= i < w
      ensures Bit(And(x, Not(Pow(2, k) - 1, w)), i) == Bit(down, i)
    {
      BitCleared(x, k, w, i);
    }
    SameBits(And(x, Not(Pow(2, k) - 1, w)), down, w);
  }

  lemma BitCleared(x: nat, k: nat, w: nat, i: nat)
    requires Pow(2, k) <= Pow(2, w) && k <= w && i < w && 0 <= x - x % Pow(2, k)
    ensures Bit(And(x, Not(Pow(2, k) - 1, w)), i) == Bit(x - x % Pow(2, k), i)
  {
    BitAnd(x, Not(Pow(2, k) - 1, w), i);
    BitHighMask(k, w, i);
    BitRoundDown(x, k, i);
  }

  // The complement of 2^k - 1 has exactly the bits k and above.
  lemma BitHighMask(k: nat, w: nat, i: nat)
    requires Pow(2, k) <= Pow(2, w) && k <= w && i < w
    ensures Bit(Not(Pow(2, k) - 1, w), i) == (i >= k)
  {
    BitNot(Pow(2, k) - 1, w, i);
    BitNot(0, k, i);
    BitZero(i);
  }

  lemma RoundDownShrinks(x: nat, p: nat)
    requires p > 0
    ensures 0 <= x - x % p <= x
  {
    DivModUnique(x / p, p, x % p);
    MulLeMul(0, x / p, p, p);
  }

  lemma BitRoundDown(x: nat, k: nat, i: nat)
    ensures Bit(x - x % Pow(2, k), i) == (i >= k && Bit(x, i))
  {
    assert x - x % Pow(2, k) == Shl(Shr(x, k), k);
    BitShl(Shr(x, k), k, i);
    if i >= k {
      BitShr(x, k, i - k);
    }
  }
}
