// Counting leading zeros (include/count-leading-zeros.h): the de Bruijn lookup for 32 bits and
// the loop that applies it to a word of any number of 32-bit chunks.
module LeadingZeros {
  import opened Powers
  import opened Bits

  const TWO_32: nat := 0x1_0000_0000

  const DE_BRUIJN_MULTIPLIER := 0x07c4acdd

  function DeBruijnLookup(slot: nat): nat
    requires slot < 32
  {
    match slot
    case 0 => 31 case 1 => 22 case 2 => 30 case 3 => 21 case 4 => 18 case 5 => 10 case 6 => 29 case 7 => 2
    case 8 => 20 case 9 => 17 case 10 => 15 case 11 => 13 case 12 => 9 case 13 => 6 case 14 => 28 case 15 => 1
    case 16 => 23 case 17 => 19 case 18 => 11 case 19 => 3 case 20 => 16 case 21 => 14 case 22 => 7 case 23 => 24
    case 24 => 12 case 25 => 4 case 26 => 8 case 27 => 25 case 28 => 5 case 29 => 26 case 30 => 27 case 31 => 0
  }

  // The number of bits x needs: the position of its highest one bit, counted from 1.
  function BitLength(x: nat): nat {
    if x == 0 then 0 else 1 + BitLength(x / 2)
  }

  lemma {:induction false} BitLengthBounds(x: nat)
    ensures x < Pow(2, BitLength(x))
    ensures x > 0 ==> BitLength(x) > 0 && Pow(2, BitLength(x) - 1) <= x
  {
    if x > 0 {
      BitLengthBounds(x / 2);
    }
  }

  lemma {:induction false} BitLengthUnique(x: nat, n: nat)
    requires n > 0 && Pow(2, n - 1) <= x < Pow(2, n)
    ensures BitLength(x) == n
  {
    BitLengthBounds(x);
    if BitLength(x) < n {
      PowMonotonic(2, BitLength(x), n - 1);
    } else if BitLength(x) > n {
      PowMonotonic(2, n, BitLength(x) - 1);
    }
  }

  lemma {:induction false} TopBit(x: nat)
    requires x > 0
    ensures Bit(x, BitLength(x) - 1)
  {
    if x > 1 {
      TopBit(x / 2);
    }
  }

  // The m bits of y just below position len are ones, and those from len on are zeros.
  ghost predicate Filled(y: nat, m: nat, len: nat) {
    && (forall i: nat :: i < len <= i + m ==> Bit(y, i))
    && y < Pow(2, len)
  }

  // Or-ing y with itself shifted by m doubles the run of ones.
  lemma SmearDoubles(y: nat, m: nat, len: nat)
    requires Filled(y, m, len)
    ensures Filled(Or(y, Shr(y, m)), 2 * m, len)
  {
    forall i: nat | i < len <= i + 2 * m
      ensures Bit(Or(y, Shr(y, m)), i)
    {
      BitOr(y, Shr(y, m), i);
      BitShr(y, m, i);
    }
    ShrShrinks(y, m);
    OrAndWidth(y, Shr(y, m), len);
  }

  lemma ShrShrinks(y: nat, m: nat)
    ensures Shr(y, m) <= y
  {
    MulGrows(Pow(2, m), y / Pow(2, m));
  }

  lemma FilledIsAllOnes(y: nat, m: nat, len: nat)
    requires Filled(y, m, len) && len <= m
    ensures y == Pow(2, len) - 1
  {
    forall i | 0 <= i < len
      ensures Bit(y, i) == Bit(Pow(2, len) - 1, i)
    {
      BitNot(0, len, i);
      BitZero(i);
    }
    SameBits(y, Pow(2, len) - 1, len);
  }

  // The smeared words: runs of len ones.
  function Ones(len: nat): nat
    requires len <= 32
  {
    match len
    case 0 => 0x0 case 1 => 0x1 case 2 => 0x3 case 3 => 0x7
    case 4 => 0xf case 5 => 0x1f case 6 => 0x3f case 7 => 0x7f
    case 8 => 0xff case 9 => 0x1ff case 10 => 0x3ff case 11 => 0x7ff
    case 12 => 0xfff case 13 => 0x1fff case 14 => 0x3fff case 15 => 0x7fff
    case 16 => 0xffff case 17 => 0x1ffff case 18 => 0x3ffff case 19 => 0x7ffff
    case 20 => 0xfffff case 21 => 0x1fffff case 22 => 0x3fffff case 23 => 0x7fffff
    case 24 => 0xffffff case 25 => 0x1ffffff case 26 => 0x3ffffff case 27 => 0x7ffffff
    case 28 => 0xfffffff case 29 => 0x1fffffff case 30 => 0x3fffffff case 31 => 0x7fffffff
    case 32 => 0xffffffff
  }

  lemma {:induction false} OnesAreRuns(len: nat)
    requires len <= 32
    ensures Ones(len) == Pow(2, len) - 1
  {
    if len > 0 {
      OnesAreRuns(len - 1);
      OnesDouble(len);
    }
  }

  lemma TwoTo32()
    ensures Pow(2, 32) == TWO_32
  {
    OnesAreRuns(32);
  }

  lemma OnesDouble(len: nat)
    requires 0 < len <= 32
    ensures Ones(len) == 2 * Ones(len - 1) + 1
  {
  }

  // The table slot selected by the smeared word y: the top five bits of a 32-bit product.
  function Slot(y: nat): (s: nat)
    ensures s < 32
  {
    TopFiveBits((y * DE_BRUIJN_MULTIPLIER) % TWO_32, 0);
    Shr((y * DE_BRUIJN_MULTIPLIER) % TWO_32, 27)
  }

  lemma TopFiveBits(z: nat, s: nat)
    requires z < TWO_32
    ensures Shr(z, 27) < 32
    ensures s * 0x800_0000 <= z < s * 0x800_0000 + 0x800_0000 ==> Shr(z, 27) == s
  {
    OnesAreRuns(27);
  }

  // Long division of the product gives the slot.
  lemma SlotIs(y: nat, q: nat, s: nat, r: nat)
    requires y * DE_BRUIJN_MULTIPLIER == q * TWO_32 + s * 0x800_0000 + r
    requires r < 0x800_0000 && s < 32
    ensures Slot(y) == s
  {
    DivModUnique(q, TWO_32, s * 0x800_0000 + r);
    TopFiveBits(s * 0x800_0000 + r, s);
  }

  // Every run of ones selects the entry that counts the zeros above it.
  lemma DeBruijnTable(len: nat)
    requires 0 < len <= 32
    ensures DeBruijnLookup(Slot(Ones(len))) == 32 - len
  {
    if len <= 12 {
      DeBruijnShortRuns(len);
    } else if len <= 20 {
      DeBruijnMediumRuns(len);
    } else if len <= 26 {
      DeBruijnLongRuns(len);
    } else {
      DeBruijnLongestRuns(len);
    }
  }

  lemma DeBruijnShortRuns(len: nat)
    requires 1 <= len <= 12
    ensures DeBruijnLookup(Slot(Ones(len))) == 32 - len
  {
    match len
    case 1 => SlotIs(0x1, 0, 0, 0x7c4acdd);
    case 2 => SlotIs(0x3, 0, 2, 0x74e0697);
    case 3 => SlotIs(0x7, 0, 6, 0x660ba0b);
    case 4 => SlotIs(0xf, 0, 14, 0x48620f3);
    case 5 => SlotIs(0x1f, 0, 30, 0xd0eec3);
    case 6 => SlotIs(0x3f, 1, 29, 0x1668a63);
    case 7 => SlotIs(0x7f, 3, 27, 0x291c1a3);
    case 8 => SlotIs(0xff, 7, 23, 0x4e83023);
    case 9 => SlotIs(0x1ff, 15, 16, 0x1950d23);
    case 10 => SlotIs(0x3ff, 31, 1, 0x2eec723);
    case 11 => SlotIs(0x7ff, 62, 3, 0x5a23b23);
    case 12 => SlotIs(0xfff, 124, 8, 0x3092323);
  }

  lemma DeBruijnMediumRuns(len: nat)
    requires 13 <= len <= 20
    ensures DeBruijnLookup(Slot(Ones(len))) == 32 - len
  {
    match len
    case 13 => SlotIs(0x1fff, 248, 17, 0x5d6f323);
    case 14 => SlotIs(0x3fff, 497, 4, 0x3729323);
    case 15 => SlotIs(0x7fff, 994, 9, 0x6a9d323);
    case 16 => SlotIs(0xffff, 1988, 20, 0x5185323);
    case 17 => SlotIs(0x1ffff, 3977, 10, 0x1f55323);
    case 18 => SlotIs(0x3ffff, 7954, 21, 0x3af5323);
    case 19 => SlotIs(0x7ffff, 15909, 11, 0x7235323);
    case 20 => SlotIs(0xfffff, 31818, 24, 0x60b5323);
  }

  lemma DeBruijnLongRuns(len: nat)
    requires 21 <= len <= 26
    ensures DeBruijnLookup(Slot(Ones(len))) == 32 - len
  {
    match len
    case 21 => SlotIs(0x1fffff, 63637, 18, 0x3db5323);
    case 22 => SlotIs(0x3fffff, 127275, 5, 0x77b5323);
    case 23 => SlotIs(0x7fffff, 254550, 12, 0x6bb5323);
    case 24 => SlotIs(0xffffff, 509100, 26, 0x53b5323);
    case 25 => SlotIs(0x1ffffff, 1018201, 22, 0x23b5323);
    case 26 => SlotIs(0x3ffffff, 2036403, 13, 0x43b5323);
  }

  lemma DeBruijnLongestRuns(len: nat)
    requires 27 <= len <= 32
    ensures DeBruijnLookup(Slot(Ones(len))) == 32 - len
  {
    match len
    case 27 => SlotIs(0x7ffffff, 4072806, 28, 0x3b5323);
    case 28 => SlotIs(0xfffffff, 8145613, 25, 0x3b5323);
    case 29 => SlotIs(0x1fffffff, 16291227, 19, 0x3b5323);
    case 30 => SlotIs(0x3fffffff, 32582455, 7, 0x3b5323);
    case 31 => SlotIs(0x7fffffff, 65164910, 15, 0x3b5323);
    case 32 => SlotIs(0xffffffff, 130329820, 31, 0x3b5323);
  }

  lemma SmearedSlot(y: nat, len: nat)
    requires Filled(y, 32, len) && 0 < len <= 32
    ensures DeBruijnLookup(Slot(y)) == 32 - len
  {
    FilledIsAllOnes(y, 32, len);
    OnesAreRuns(len);
    DeBruijnTable(len);
  }

  lemma BitLengthOf32(x: nat)
    requires 0 < x < TWO_32
    ensures 0 < BitLength(x) <= 32
    ensures Filled(x, 1, BitLength(x))
  {
    BitLengthBounds(x);
    TopBit(x);
    TwoTo32();
    if BitLength(x) > 32 {
      PowMonotonic(2, 32, BitLength(x) - 1);
    }
  }

  method CountLeadingZeros32(x: nat) returns (r: nat)
    requires 0 < x < TWO_32
    ensures r == 32 - BitLength(x)
  {
    ghost var len := BitLength(x);
    BitLengthOf32(x);
    var y := x;
    SmearDoubles(y, 1, len);
    y := Or(y, Shr(y, 1));
    SmearDoubles(y, 2, len);
    y := Or(y, Shr(y, 2));
    SmearDoubles(y, 4, len);
    y := Or(y, Shr(y, 4));
    SmearDoubles(y, 8, len);
    y := Or(y, Shr(y, 8));
    SmearDoubles(y, 16, len);
    y := Or(y, Shr(y, 16));
    SmearedSlot(y, len);
    r := DeBruijnLookup(Slot(y));
  }

  // The leading 32 bits of a w-bit word.
  function Leading32(x: nat, w: nat): (r: nat)
    requires w >= 32
    ensures r < TWO_32
  {
    Shr(x, w - 32) % TWO_32
  }

  lemma SplitTop(w: nat)
    requires w >= 32
    ensures Pow(2, w) == Pow(2, w - 32) * TWO_32
  {
    TwoTo32();
    PowAdd(2, w - 32, 32);
  }

  lemma LeadingOfWord(x: nat, w: nat)
    requires w >= 32 && x < Pow(2, w)
    ensures Leading32(x, w) == x / Pow(2, w - 32)
  {
    SplitTop(w);
    QuotientBelow(x, Pow(2, w - 32), TWO_32);
  }

  lemma QuotientBelow(x: nat, d: nat, q: nat)
    requires d > 0 && x < q * d
    ensures x / d < q
  {
    assert x == d * (x / d) + x % d;
    if x / d >= q {
      MulLeMul(q, x / d, d, d);
    }
  }

  // One round of the loop: shift the next 32 bits to the top.
  function NextChunk(x: nat, w: nat): nat {
    Shl(Shl(x, 31) % Pow(2, w), 1) % Pow(2, w)
  }

  // A word whose leading 32 bits are zero loses nothing in that round.
  lemma NextChunkIsExact(x: nat, w: nat)
    requires w >= 32 && x < Pow(2, w) && Leading32(x, w) == 0
    ensures NextChunk(x, w) == x * TWO_32 < Pow(2, w)
  {
    LeadingOfWord(x, w);
    QuotientBounds(x, Pow(2, w - 32), 0, 1);
    SplitTop(w);
    ShiftWithoutWrap(x, Pow(2, w));
  }

  lemma ShiftWithoutWrap(x: nat, top: nat)
    requires x * TWO_32 < top
    ensures Shl(Shl(x, 31) % top, 1) % top == x * TWO_32
  {
    OnesAreRuns(31);
    var y := x * 0x8000_0000;
    assert Shl(x, 31) == y;
    DivModUnique(0, top, y);
    OnesAreRuns(1);
    assert Shl(y, 1) == y * 2;
    DivModUnique(0, top, y * 2);
  }

  lemma DoubledLength(x: nat, y: nat)
    requires x > 0 && y == 2 * x
    ensures BitLength(y) == BitLength(x) + 1
  {
  }

  lemma ShiftOneMore(x: nat, p: nat)
    requires x > 0 && p > 0
    ensures x * (2 * p) == 2 * (x * p) && x * p > 0
  {
    MulGrows(p, x);
  }

  lemma {:induction false} BitLengthShl(x: nat, n: nat)
    requires x > 0
    ensures BitLength(x * Pow(2, n)) == BitLength(x) + n
  {
    if n == 0 {
      assert x * Pow(2, n) == x;
    } else {
      BitLengthShl(x, n - 1);
      ShiftOneMore(x, Pow(2, n - 1));
      DoubledLength(x * Pow(2, n - 1), x * Pow(2, n));
    }
  }

  lemma BitLengthShr(x: nat, n: nat)
    requires x / Pow(2, n) > 0
    ensures BitLength(x) == BitLength(x / Pow(2, n)) + n
  {
    var d, q := Pow(2, n), x / Pow(2, n);
    var len := BitLength(q);
    BitLengthBounds(q);
    PowAdd(2, len, n);
    PowAdd(2, len - 1, n);
    QuotientBounds(x, d, Pow(2, len - 1), Pow(2, len));
    BitLengthUnique(x, len + n);
  }

  lemma QuotientBounds(x: nat, d: nat, lo: nat, hi: nat)
    requires d > 0 && lo <= x / d < hi
    ensures lo * d <= x < hi * d
  {
    var q := x / d;
    MulLeMul(lo, q, d, d);
    MulLeMul(q + 1, hi, d, d);
    assert x == d * q + x % d;
  }

  // When the loop stops, the leading 32 bits are nonzero and hold the word's highest bit.
  lemma LoopExit(word: nat, x: nat, count: nat, w: nat)
    requires word > 0 && w >= 32 && count <= w - 32
    requires x == word * Pow(2, count) < Pow(2, w)
    requires count == w - 32 || Leading32(x, w) != 0
    ensures 0 < Leading32(x, w)
    ensures count + (32 - BitLength(Leading32(x, w))) == w - BitLength(word)
  {
    LeadingOfWord(x, w);
    if count == w - 32 {
      DivModUnique(word, Pow(2, count), 0);
    }
    BitLengthShl(word, count);
    BitLengthShr(x, w - 32);
  }

  // The loop's step: count grows by 32 and x stays the word shifted by count.
  lemma LoopStep(word: nat, x: nat, count: nat, w: nat)
    requires w >= 32 && x == word * Pow(2, count) < Pow(2, w) && Leading32(x, w) == 0
    ensures NextChunk(x, w) == word * Pow(2, count + 32) < Pow(2, w)
  {
    NextChunkIsExact(x, w);
    TwoTo32();
    PowAdd(2, count, 32);
    MulAssoc(word, Pow(2, count), TWO_32);
  }

  lemma ChunksLeft(count: nat, w: nat)
    requires count % 32 == 0 && w % 32 == 0 && count < w - 32
    ensures (count + 32) % 32 == 0 && count + 32 <= w - 32
  {
  }

  method CountLeadingZeros(word: nat, w: nat) returns (r: nat)
    requires w > 0 && w % 32 == 0 && word < Pow(2, w)
    ensures r == w - BitLength(word)
  {
    if word == 0 {
      return w;
    }
    var x, count := word, 0;
    var leading := Leading32(x, w);
    while count < w - 32 && leading == 0
      invariant count % 32 == 0 && count <= w - 32
      invariant x == word * Pow(2, count) < Pow(2, w)
      invariant leading == Leading32(x, w)
    {
      LoopStep(word, x, count, w);
      ChunksLeft(count, w);
      x := NextChunk(x, w);
      count := count + 32;
      leading := Leading32(x, w);
    }
    LoopExit(word, x, count, w);
    var zeros := CountLeadingZeros32(leading);
    r := count + zeros;
  }
}
