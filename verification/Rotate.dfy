// Bit rotation (include/bitrotate.h) for every word width w. The register in which the shifts
// happen has v bits: v == w for the 64-bit, 32-bit and size_t forms, and v is the width of
// unsigned int, hence larger than w, for the 16-bit and 8-bit forms.
module Rotate {
  import opened Powers
  import opened Bits

  // Both shifts, by n and by w - n, must be smaller than the register.
  predicate Rotatable(x: nat, n: nat, w: nat, v: nat) {
    x < Pow(2, w) && n <= w <= v && (v == w ==> 0 < n < w)
  }

  function Rotl(x: nat, n: nat, w: nat, v: nat): nat
    requires Rotatable(x, n, w, v)
  {
    And(Or(Shl(x, n) % Pow(2, v), Shr(x, w - n)), Pow(2, w) - 1)
  }

  function Rotr(x: nat, n: nat, w: nat, v: nat): nat
    requires Rotatable(x, n, w, v)
  {
    And(Or(Shr(x, n), Shl(x, w - n) % Pow(2, v)), Pow(2, w) - 1)
  }

  // The reference: rotating the word's bits, least significant first, as a sequence.
  function WordBits(x: nat, w: nat): (s: seq<bool>)
    ensures |s| == w
    ensures forall i :: 0 <= i < w ==> s[i] == Bit(x, i)
  {
    seq(w, i requires 0 <= i => Bit(x, i))
  }

  function RotateSeq(s: seq<bool>, n: nat): seq<bool>
    requires n <= |s|
  {
    s[|s| - n..] + s[..|s| - n]
  }

  // Where the bit at position i comes from in a left rotation by n.
  function Source(i: nat, n: nat, w: nat): nat
    requires i < w && n <= w
  {
    if i >= n then i - n else i + w - n
  }

  lemma BitMask(w: nat, i: nat)
    ensures Bit(Pow(2, w) - 1, i) == (i < w)
  {
    BitNot(0, w, i);
    BitZero(i);
  }

  lemma {:induction false} AndMaskWidth(x: nat, w: nat)
    ensures And(x, Pow(2, w) - 1) < Pow(2, w)
    decreases w
  {
    if w == 0 {
      AndZero(x);
    } else {
      assert (Pow(2, w) - 1) / 2 == Pow(2, w - 1) - 1;
      AndMaskWidth(x / 2, w - 1);
    }
  }

  lemma {:induction false} AndZero(x: nat)
    ensures And(x, 0) == 0
  {
    if x > 0 {
      AndZero(x / 2);
    }
  }

  lemma RotlBit(x: nat, n: nat, w: nat, v: nat, i: nat)
    requires Rotatable(x, n, w, v) && i < w
    ensures Bit(Rotl(x, n, w, v), i) == Bit(x, Source(i, n, w))
  {
    BitAnd(Or(Shl(x, n) % Pow(2, v), Shr(x, w - n)), Pow(2, w) - 1, i);
    BitMask(w, i);
    BitOr(Shl(x, n) % Pow(2, v), Shr(x, w - n), i);
    BitMod(Shl(x, n), v, i);
    BitShl(x, n, i);
    BitShr(x, w - n, i);
    if i >= n {
      BitAboveWidth(x, w, i + w - n);
    }
  }

  lemma RotrBit(x: nat, n: nat, w: nat, v: nat, i: nat)
    requires Rotatable(x, n, w, v) && i < w
    ensures Bit(Rotr(x, n, w, v), i) == Bit(x, if i + n < w then i + n else i + n - w)
  {
    BitAnd(Or(Shr(x, n), Shl(x, w - n) % Pow(2, v)), Pow(2, w) - 1, i);
    BitMask(w, i);
    BitOr(Shr(x, n), Shl(x, w - n) % Pow(2, v), i);
    BitMod(Shl(x, w - n), v, i);
    BitShl(x, w - n, i);
    BitShr(x, n, i);
    if i + n >= w {
      BitAboveWidth(x, w, i + n);
    }
  }

  // y has x's bits, each n places further round the circle.
  ghost predicate Rotated(y: nat, x: nat, n: nat, w: nat)
    requires n <= w
  {
    y < Pow(2, w) && forall i :: 0 <= i < w ==> Bit(y, i) == Bit(x, Source(i, n, w))
  }

  lemma RotlRotates(x: nat, n: nat, w: nat, v: nat)
    requires Rotatable(x, n, w, v)
    ensures Rotated(Rotl(x, n, w, v), x, n, w)
  {
    AndMaskWidth(Or(Shl(x, n) % Pow(2, v), Shr(x, w - n)), w);
    forall i | 0 <= i < w
      ensures Bit(Rotl(x, n, w, v), i) == Bit(x, Source(i, n, w))
    {
      RotlBit(x, n, w, v, i);
    }
  }

  lemma RotrRotates(x: nat, n: nat, w: nat, v: nat)
    requires Rotatable(x, n, w, v)
    ensures Rotated(Rotr(x, n, w, v), x, w - n, w)
  {
    AndMaskWidth(Or(Shr(x, n), Shl(x, w - n) % Pow(2, v)), w);
    forall i | 0 <= i < w
      ensures Bit(Rotr(x, n, w, v), i) == Bit(x, Source(i, w - n, w))
    {
      RotrBit(x, n, w, v, i);
    }
  }

  lemma RotatedUnique(y: nat, z: nat, x: nat, n: nat, w: nat)
    requires n <= w && Rotated(y, x, n, w) && Rotated(z, x, n, w)
    ensures y == z
  {
    forall i | 0 <= i < w
      ensures Bit(y, i) == Bit(z, i)
    {
      assert Bit(y, i) == Bit(x, Source(i, n, w));
    }
    SameBits(y, z, w);
  }

  lemma RotatedCompose(x: nat, y: nat, z: nat, a: nat, b: nat, w: nat)
    requires a <= w && b <= w && Rotated(y, x, a, w) && Rotated(z, y, b, w)
    ensures Rotated(z, x, if a + b < w then a + b else a + b - w, w)
  {
    forall i | 0 <= i < w
      ensures Bit(z, i) == Bit(x, Source(i, if a + b < w then a + b else a + b - w, w))
    {
      assert Bit(z, i) == Bit(y, Source(i, b, w));
    }
  }

  // A left rotation moves the whole word around the circle, whatever the register width.
  lemma RotlIsCyclicShift(x: nat, n: nat, w: nat, v: nat)
    requires Rotatable(x, n, w, v)
    ensures WordBits(Rotl(x, n, w, v), w) == RotateSeq(WordBits(x, w), n)
  {
    RotlRotates(x, n, w, v);
    RotatedIsRotateSeq(Rotl(x, n, w, v), x, n, w);
  }

  lemma RotatedIsRotateSeq(y: nat, x: nat, n: nat, w: nat)
    requires n <= w && Rotated(y, x, n, w)
    ensures WordBits(y, w) == RotateSeq(WordBits(x, w), n)
  {
  }

  // A right rotation by n is a left rotation by w - n.
  lemma RotrIsRotl(x: nat, n: nat, w: nat, v: nat)
    requires Rotatable(x, n, w, v)
    ensures Rotr(x, n, w, v) == Rotl(x, w - n, w, v)
  {
    RotrRotates(x, n, w, v);
    RotlRotates(x, w - n, w, v);
    RotatedUnique(Rotr(x, n, w, v), Rotl(x, w - n, w, v), x, w - n, w);
  }

  // Rotations compose by adding the amounts around the circle.
  lemma RotationsCompose(x: nat, a: nat, b: nat, w: nat, v: nat)
    requires Rotatable(x, a, w, v) && Rotatable(x, b, w, v)
    ensures Rotl(x, a, w, v) < Pow(2, w)
    ensures Rotl(Rotl(x, a, w, v), b, w, v) ==
      if a + b == w then x
      else if a + b < w then Rotl(x, a + b, w, v)
      else Rotl(x, a + b - w, w, v)
  {
    RotlRotates(x, a, w, v);
    RotlRotates(Rotl(x, a, w, v), b, w, v);
    RotatedCompose(x, Rotl(x, a, w, v), Rotl(Rotl(x, a, w, v), b, w, v), a, b, w);
    var c := if a + b < w then a + b else a + b - w;
    if a + b != w {
      RotlRotates(x, c, w, v);
    }
    RotatedUnique(Rotl(Rotl(x, a, w, v), b, w, v), if a + b == w then x else Rotl(x, c, w, v), x, c, w);
  }

  // Rotating right undoes rotating left by the same amount, and the other way around.
  lemma RotationsInvert(x: nat, n: nat, w: nat, v: nat)
    requires Rotatable(x, n, w, v)
    ensures Rotl(x, n, w, v) < Pow(2, w) && Rotr(x, n, w, v) < Pow(2, w)
    ensures Rotr(Rotl(x, n, w, v), n, w, v) == x
    ensures Rotl(Rotr(x, n, w, v), n, w, v) == x
  {
    RotationsCompose(x, n, w - n, w, v);
    RotationsCompose(x, w - n, n, w, v);
    RotrIsRotl(x, n, w, v);
    RotrIsRotl(Rotl(x, n, w, v), n, w, v);
  }

  // The widened 16-bit and 8-bit forms, and only they, also accept 0 and w, where they are the
  // identity; elsewhere they agree with the form that shifts in a register of the word's own width.
  lemma RotationIgnoresRegister(x: nat, n: nat, w: nat, v: nat)
    requires Rotatable(x, n, w, v)
    ensures n == 0 || n == w ==> Rotl(x, n, w, v) == x && Rotr(x, n, w, v) == x
    ensures 0 < n < w ==> Rotl(x, n, w, v) == Rotl(x, n, w, w) && Rotr(x, n, w, v) == Rotr(x, n, w, w)
  {
    RotlRotates(x, n, w, v);
    RotrRotates(x, n, w, v);
    if 0 < n < w {
      RotlRotates(x, n, w, w);
      RotrRotates(x, n, w, w);
    }
    RotatedUnique(Rotl(x, n, w, v), if 0 < n < w then Rotl(x, n, w, w) else x, x, n, w);
    RotatedUnique(Rotr(x, n, w, v), if 0 < n < w then Rotr(x, n, w, w) else x, x, w - n, w);
  }
}
