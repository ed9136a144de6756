// Version sort of file names. include/filevercmp.h gives the algorithm in its comment; the C
// body is not part of this model. A name is any sequence of bytes, NUL included, as
// filenvercmp allows; filevercmp is the case without NUL.
module VersionSort {
  import opened Common
  import opened Decimal

  type Name = seq<Byte>

  const TILDE: Byte := 126
  const DOT: Byte := 46
  const ZERO: Byte := 48

  predicate IsDigit(b: Byte) {
    ZERO <= b <= 57
  }

  predicate IsAlpha(b: Byte) {
    65 <= b <= 90 || 97 <= b <= 122
  }

  function Sign(x: int, y: int): (r: int)
  {
    if x < y then -1 else if x > y then 1 else 0
  }

  // ----- the documented comparison -----

  // The place of a non-digit byte in the lexical order, in which the end of a string is 0:
  // a tilde sorts before even that, and letters before all other bytes.
  function Rank(b: Byte): (r: int)
    ensures r != 0
  {
    if b == TILDE then -1 else if IsAlpha(b) then b else 256 + b
  }

  function NonDigits(s: Name): (p: Name)
    ensures p <= s
    ensures |p| < |s| ==> IsDigit(s[|p|])
  {
    if s != [] && !IsDigit(s[0]) then [s[0]] + NonDigits(s[1..]) else []
  }

  function LeadingDigits(s: Name): (p: Name)
    ensures p <= s
    ensures s != [] && IsDigit(s[0]) ==> p != []
  {
    if s != [] && IsDigit(s[0]) then [s[0]] + LeadingDigits(s[1..]) else []
  }

  // The number a digit prefix represents; an empty prefix counts as zero.
  function Number(p: Name): nat {
    Num(seq(|p|, i requires 0 <= i < |p| => if p[i] >= ZERO then p[i] - ZERO else 0))
  }

  // Step 1: compare two non-digit prefixes left to right.
  function LexCompare(p: Name, q: Name): int {
    var x := if p == [] then 0 else Rank(p[0]);
    var y := if q == [] then 0 else Rank(q[0]);
    if x != y || p == [] || q == [] then Sign(x, y) else LexCompare(p[1..], q[1..])
  }

  function AfterPrefix(s: Name): Name {
    s[|NonDigits(s)|..]
  }

  function AfterRound(s: Name): Name {
    AfterPrefix(s)[|LeadingDigits(AfterPrefix(s))|..]
  }

  // Every round of the comparison consumes a byte of a string that is not yet empty, and an empty
  // digit prefix occurs only at the end of the string.
  lemma RoundConsumes(s: Name)
    ensures s != [] ==> |AfterRound(s)| < |s|
    ensures s == [] ==> AfterRound(s) == []
    ensures LeadingDigits(AfterPrefix(s)) == [] ==> AfterPrefix(s) == []
  {
  }

  function VersionCompare(a: Name, b: Name): int
    decreases |a| + |b|
  {
    RoundConsumes(a);
    RoundConsumes(b);
    var lexical := LexCompare(NonDigits(a), NonDigits(b));
    var numeric := Sign(Number(LeadingDigits(AfterPrefix(a))), Number(LeadingDigits(AfterPrefix(b))));
    if lexical != 0 then lexical
    else if numeric != 0 then numeric
    else if a == [] && b == [] then 0
    else VersionCompare(AfterRound(a), AfterRound(b))
  }

  // The names with special priority, in their order.
  function SpecialClass(s: Name): nat {
    if s == [] then 0
    else if s == [DOT] then 1
    else if s == [DOT, DOT] then 2
    else if s[0] == DOT then 3
    else 4
  }

  predicate StartsSegment(b: Byte) {
    IsAlpha(b) || b == TILDE
  }

  predicate InSegment(b: Byte) {
    StartsSegment(b) || IsDigit(b)
  }

  // The expression (\.[A-Za-z~][A-Za-z0-9~]*)*$ matches all of s: one pass over the bytes.
  predicate IsSuffix(s: Name)
    decreases |s|
  {
    s == [] || (|s| >= 2 && s[0] == DOT && StartsSegment(s[1]) && IsSuffix(SkipSegment(s[2..])))
  }

  function SkipSegment(s: Name): (r: Name)
    ensures |r| <= |s|
  {
    if s != [] && InSegment(s[0]) then SkipSegment(s[1..]) else s
  }

  // The shortest prefix of length at least k that leaves a suffix.
  function StripFrom(s: Name, k: nat): Name
    requires k <= |s|
    decreases |s| - k
  {
    if k == |s| || IsSuffix(s[k..]) then s[..k] else StripFrom(s, k + 1)
  }

  // The name without its maximal suffix that leaves something.
  function Strip(s: Name): Name {
    if s == [] then s else StripFrom(s, 1)
  }

  function FileVerCompare(a: Name, b: Name): int {
    var x, y := SpecialClass(a), SpecialClass(b);
    if x != y || x < 3 then Sign(x, y)
    else
      var stripped := VersionCompare(Strip(a), Strip(b));
      if stripped != 0 then stripped else VersionCompare(a, b)
  }

  // ----- the orders the comment lists -----

  // Bytes compare by value, except that letters sort before other bytes and a tilde before
  // everything, even the end of the string.
  lemma RankFollowsComment(b: Byte, c: Byte)
    ensures Rank(TILDE) < 0
    ensures b != TILDE ==> 0 < Rank(b)
    ensures b != TILDE && c != TILDE ==>
      (Rank(b) < Rank(c) <==> if IsAlpha(b) == IsAlpha(c) then b < c else IsAlpha(b))
  {
  }

  // The special names come first, in the order listed, and names starting with a dot come
  // before all others.
  lemma SpecialNamesFirst(dotted: Name, other: Name)
    requires |dotted| > 1 && dotted[0] == DOT && dotted != [DOT, DOT]
    requires other != [] && other[0] != DOT
    ensures FileVerCompare([], [DOT]) < 0 && FileVerCompare([DOT], [DOT, DOT]) < 0
    ensures FileVerCompare([DOT, DOT], dotted) < 0 && FileVerCompare(dotted, other) < 0
  {
  }

  // The letters are the 26 letters in either case.
  lemma LettersAndDigits(b: Byte)
    ensures IsAlpha(b) <==> 'A' <= b as char <= 'Z' || 'a' <= b as char <= 'z'
    ensures IsDigit(b) <==> '0' <= b as char <= '9'
    ensures TILDE as char == '~' && DOT as char == '.'
  {
  }

  // ----- the suffix rule -----

  // The regular expression read literally: a concatenation of segments.
  ghost predicate IsOneSegment(t: Name) {
    |t| >= 2 && t[0] == DOT && StartsSegment(t[1]) && forall i :: 2 <= i < |t| ==> InSegment(t[i])
  }

  ghost predicate Matches(s: Name) {
    s == [] || exists k :: 2 <= k <= |s| && IsOneSegment(s[..k]) && Matches(s[k..])
  }

  lemma {:induction false} SkipSegmentSplits(s: Name) returns (n: nat)
    ensures n <= |s| && SkipSegment(s) == s[n..]
    ensures forall i :: 0 <= i < n ==> InSegment(s[i])
    ensures n < |s| ==> !InSegment(s[n])
  {
    n := 0;
    if s != [] && InSegment(s[0]) {
      n := SkipSegmentSplits(s[1..]);
      n := n + 1;
    }
  }

  // The one-pass test decides the regular expression.
  lemma {:induction false} SuffixIffMatches(s: Name)
    ensures IsSuffix(s) <==> Matches(s)
    decreases |s|
  {
    if |s| >= 2 && s[0] == DOT && StartsSegment(s[1]) {
      var n := SkipSegmentSplits(s[2..]);
      assert s[2..][n..] == s[n + 2..];
      SuffixIffMatches(s[n + 2..]);
      assert IsOneSegment(s[..n + 2]) by {
        assert forall i :: 2 <= i < n + 2 ==> s[i] == s[2..][i - 2];
      }
      if Matches(s) {
        var k :| 2 <= k <= |s| && IsOneSegment(s[..k]) && Matches(s[k..]);
        LongestSegment(s, k, n + 2);
      }
    }
  }

  // A match can only break a name where a segment cannot go on.
  lemma LongestSegment(s: Name, k: nat, m: nat)
    requires 2 <= k <= |s| && IsOneSegment(s[..k]) && Matches(s[k..])
    requires 2 <= m <= |s| && IsOneSegment(s[..m]) && (m < |s| ==> !InSegment(s[m]))
    ensures k == m
  {
    assert k < |s| ==> s[k] == DOT by {
      if k < |s| {
        var t := s[k..];
        var j :| 2 <= j <= |t| && IsOneSegment(t[..j]) && Matches(t[j..]);
        assert t[..j][0] == t[0];
      }
    }
    assert forall i :: 2 <= i < m ==> s[..m][i] == s[i];
    assert forall i :: 2 <= i < k ==> s[..k][i] == s[i];
  }

  // Strip removes the maximal suffix that matches and leaves the rest nonempty.
  lemma StripIsMaximal(s: Name)
    requires s != []
    ensures 1 <= |Strip(s)| <= |s| && Strip(s) <= s
    ensures Matches(s[|Strip(s)|..])
    ensures forall k :: 1 <= k <= |s| && Matches(s[k..]) ==> |Strip(s)| <= k
  {
    StripFromIsMaximal(s, 1);
  }

  lemma {:induction false} StripFromIsMaximal(s: Name, k: nat)
    requires k <= |s|
    ensures k <= |StripFrom(s, k)| <= |s| && StripFrom(s, k) <= s
    ensures Matches(s[|StripFrom(s, k)|..])
    ensures forall j :: k <= j <= |s| && Matches(s[j..]) ==> |StripFrom(s, k)| <= j
    decreases |s| - k
  {
    SuffixIffMatches(s[k..]);
    if k < |s| && !IsSuffix(s[k..]) {
      StripFromIsMaximal(s, k + 1);
    }
  }

  // ----- the order -----

  // The key of a name: the ranks of its first non-digit prefix, a 0 for the prefix's end, the
  // number that follows, and the key of the rest.
  function Ranks(p: Name): seq<int> {
    if p == [] then [] else [Rank(p[0])] + Ranks(p[1..])
  }

  function Key(s: Name): seq<int> {
    if s == [] then []
    else
      RoundConsumes(s);
      Ranks(NonDigits(s)) + ([0] + ([Number(LeadingDigits(AfterPrefix(s)))] + Key(AfterRound(s))))
  }

  // Lexicographic comparison of integer sequences, the shorter one continued by zeros.
  function KeyCompare(k: seq<int>, l: seq<int>): int
    decreases |k| + |l|
  {
    var x := if k == [] then 0 else k[0];
    var y := if l == [] then 0 else l[0];
    if x != y then Sign(x, y)
    else if k == [] && l == [] then 0
    else KeyCompare(if k == [] then k else k[1..], if l == [] then l else l[1..])
  }

  // A first key element is compared before the rest.
  lemma KeyCompareCons(x: int, k: seq<int>, y: int, l: seq<int>)
    ensures KeyCompare([x] + k, [y] + l) == if x != y then Sign(x, y) else KeyCompare(k, l)
  {
    assert ([x] + k)[1..] == k && ([y] + l)[1..] == l;
  }

  lemma KeyCompareZeros(l: seq<int>)
    ensures KeyCompare([0, 0], l) == KeyCompare([], l)
    ensures KeyCompare(l, [0, 0]) == KeyCompare(l, [])
  {
    assert [0, 0][1..] == [0] && [0][1..] == [];
    if l != [] && l[0] == 0 {
      KeyCompareZero(l[1..]);
    } else if l == [] {
      KeyCompareZero(l);
    }
  }

  lemma KeyCompareZero(l: seq<int>)
    ensures KeyCompare([0], l) == KeyCompare([], l)
    ensures KeyCompare(l, [0]) == KeyCompare(l, [])
  {
    assert [0][1..] == [];
  }

  // What is behind the first element of a prefix's key, closed by 0.
  function AfterFirst(p: Name, k: seq<int>): seq<int> {
    if p == [] then k else Ranks(p[1..]) + ([0] + k)
  }

  lemma RanksFirst(p: Name, k: seq<int>)
    ensures Ranks(p) + ([0] + k) == [if p == [] then 0 else Rank(p[0])] + AfterFirst(p, k)
  {
    if p == [] {
      assert [] + ([0] + k) == [0] + k;
    } else {
      Associate([Rank(p[0])], Ranks(p[1..]), [0] + k);
    }
  }

  // Comparing two prefixes, each closed by 0, is comparing the ranks.
  lemma {:induction false} PrefixesCompare(p: Name, k: seq<int>, q: Name, l: seq<int>)
    ensures KeyCompare(Ranks(p) + ([0] + k), Ranks(q) + ([0] + l))
         == if LexCompare(p, q) != 0 then LexCompare(p, q) else KeyCompare(k, l)
    decreases |p| + |q|
  {
    var x := if p == [] then 0 else Rank(p[0]);
    var y := if q == [] then 0 else Rank(q[0]);
    RanksFirst(p, k);
    RanksFirst(q, l);
    KeyCompareCons(x, AfterFirst(p, k), y, AfterFirst(q, l));
    if p != [] && q != [] {
      PrefixesCompare(p[1..], k, q[1..], l);
    }
  }

  // The key of one round followed by the key of the rest; an exhausted name contributes zeros.
  function RoundKey(s: Name): seq<int> {
    if s == [] then [0, 0] else Key(s)
  }

  lemma RoundKeyParts(s: Name)
    ensures RoundKey(s) ==
      Ranks(NonDigits(s)) + ([0] + ([Number(LeadingDigits(AfterPrefix(s)))] + Key(AfterRound(s))))
  {
    if s == [] {
      assert LeadingDigits(AfterPrefix(s)) == [] && Number([]) == 0;
    }
  }

  lemma RoundKeyCompares(a: Name, b: Name)
    ensures KeyCompare(Key(a), Key(b)) == KeyCompare(RoundKey(a), RoundKey(b))
  {
    if a == [] {
      KeyCompareZeros(Key(b));
    }
    if b == [] {
      KeyCompareZeros(RoundKey(a));
    }
  }

  // The rounds of the algorithm compare the keys.
  lemma {:induction false} VersionCompareIsKeyOrder(a: Name, b: Name)
    ensures VersionCompare(a, b) == KeyCompare(Key(a), Key(b))
    decreases |a| + |b|
  {
    RoundConsumes(a);
    RoundConsumes(b);
    if a != [] || b != [] {
      VersionCompareIsKeyOrder(AfterRound(a), AfterRound(b));
    }
    RoundKeyCompares(a, b);
    RoundKeysCompare(a, b);
  }

  // Comparing the keys is comparing one round and then the keys of the rest.
  lemma RoundKeysCompare(a: Name, b: Name)
    ensures var lexical := LexCompare(NonDigits(a), NonDigits(b));
      var numeric := Sign(Number(LeadingDigits(AfterPrefix(a))), Number(LeadingDigits(AfterPrefix(b))));
      KeyCompare(RoundKey(a), RoundKey(b)) ==
        if lexical != 0 then lexical else if numeric != 0 then numeric
        else KeyCompare(Key(AfterRound(a)), Key(AfterRound(b)))
  {
    RoundKeyParts(a);
    RoundKeyParts(b);
    var m, n := Number(LeadingDigits(AfterPrefix(a))), Number(LeadingDigits(AfterPrefix(b)));
    PrefixesCompare(
      NonDigits(a), [m] + Key(AfterRound(a)), NonDigits(b), [n] + Key(AfterRound(b)));
    KeyCompareCons(m, Key(AfterRound(a)), n, Key(AfterRound(b)));
  }

  lemma {:induction false} KeyOrderAntisymmetric(k: seq<int>, l: seq<int>)
    ensures KeyCompare(k, l) == -KeyCompare(l, k)
    decreases |k| + |l|
  {
    if k != [] || l != [] {
      KeyOrderAntisymmetric(if k == [] then k else k[1..], if l == [] then l else l[1..]);
    }
  }

  // A comparison result composes: below or equal twice is below or equal, and strictly below if
  // either step is.
  ghost predicate Composes(ab: int, bc: int, ac: int) {
    ab <= 0 && bc <= 0 ==> ac <= 0 && (ab < 0 || bc < 0 ==> ac < 0)
  }

  lemma {:induction false} KeyOrderTransitive(k: seq<int>, l: seq<int>, m: seq<int>)
    ensures Composes(KeyCompare(k, l), KeyCompare(l, m), KeyCompare(k, m))
    decreases |k| + |l| + |m|
  {
    if k != [] || l != [] || m != [] {
      KeyOrderTransitive(
        if k == [] then k else k[1..], if l == [] then l else l[1..], if m == [] then m else m[1..]);
    }
  }

  // The lexicographic combination of the three stages of the file-name comparison.
  function StagedCompare(a: Name, b: Name): int {
    var special := Sign(SpecialClass(a), SpecialClass(b));
    var stripped := KeyCompare(Key(Strip(a)), Key(Strip(b)));
    if special != 0 then special
    else if stripped != 0 then stripped
    else KeyCompare(Key(a), Key(b))
  }

  // The comparison orders names by (special class, key of the stripped name, key of the name).
  lemma FileOrderIsLexicographic(a: Name, b: Name)
    ensures FileVerCompare(a, b) == StagedCompare(a, b)
  {
    VersionCompareIsKeyOrder(a, b);
    VersionCompareIsKeyOrder(Strip(a), Strip(b));
    if SpecialClass(a) == SpecialClass(b) < 3 {
      SpecialNamesAreSingle(a, b);
      KeyOrderReflexive(Key(a));
      KeyOrderReflexive(Key(Strip(a)));
    }
  }

  lemma SpecialNamesAreSingle(a: Name, b: Name)
    requires SpecialClass(a) == SpecialClass(b) < 3
    ensures a == b
  {
  }

  lemma KeyOrderReflexive(k: seq<int>)
    ensures KeyCompare(k, k) == 0
  {
    KeyOrderAntisymmetric(k, k);
  }

  function KeyAt(k: seq<int>, i: nat): int {
    if i < |k| then k[i] else 0
  }

  // The keys agree at every place.
  ghost predicate KeysAgree(k: seq<int>, l: seq<int>) {
    forall i: nat :: KeyAt(k, i) == KeyAt(l, i)
  }

  lemma {:induction false} KeyTies(k: seq<int>, l: seq<int>)
    ensures KeyCompare(k, l) == 0 <==> KeysAgree(k, l)
    decreases |k| + |l|
  {
    var k', l' := if k == [] then k else k[1..], if l == [] then l else l[1..];
    assert forall i: nat :: KeyAt(k', i) == KeyAt(k, i + 1) && KeyAt(l', i) == KeyAt(l, i + 1);
    if k != [] || l != [] {
      KeyTies(k', l');
      if KeyAt(k, 0) == KeyAt(l, 0) && KeyCompare(k', l') == 0 {
        forall i: nat
          ensures KeyAt(k, i) == KeyAt(l, i)
        {
          assert i > 0 ==> KeyAt(k', i - 1) == KeyAt(l', i - 1);
        }
      } else if KeyAt(k, 0) == KeyAt(l, 0) {
        var i: nat :| KeyAt(k', i) != KeyAt(l', i);
        assert KeyAt(k, i + 1) != KeyAt(l, i + 1);
      } else {
        assert KeyAt(k, 0) != KeyAt(l, 0);
      }
    }
  }

  // The comparison is a total preorder on all byte strings: comparing the other way round flips
  // the sign, every name ties with itself, and the order is transitive.
  lemma FileOrderIsTotalPreorder(a: Name, b: Name, c: Name)
    ensures FileVerCompare(a, b) == -FileVerCompare(b, a)
    ensures FileVerCompare(a, a) == 0
    ensures Composes(FileVerCompare(a, b), FileVerCompare(b, c), FileVerCompare(a, c))
  {
    FileOrderIsLexicographic(a, b);
    FileOrderIsLexicographic(b, a);
    FileOrderIsLexicographic(a, a);
    FileOrderIsLexicographic(b, c);
    FileOrderIsLexicographic(a, c);
    KeyOrderAntisymmetric(Key(a), Key(b));
    KeyOrderAntisymmetric(Key(Strip(a)), Key(Strip(b)));
    KeyOrderReflexive(Key(a));
    KeyOrderReflexive(Key(Strip(a)));
    KeyOrderTransitive(Key(a), Key(b), Key(c));
    KeyOrderTransitive(Key(Strip(a)), Key(Strip(b)), Key(Strip(c)));
  }

  // Exactly which names tie: same special class, and keys that agree at every place both with
  // and without the suffix. "a" ties with "a0", and "a1" with "a01".
  lemma FileOrderTies(a: Name, b: Name)
    ensures FileVerCompare(a, b) == 0 <==>
      && SpecialClass(a) == SpecialClass(b)
      && KeysAgree(Key(Strip(a)), Key(Strip(b)))
      && KeysAgree(Key(a), Key(b))
  {
    FileOrderIsLexicographic(a, b);
    KeyTies(Key(Strip(a)), Key(Strip(b)));
    KeyTies(Key(a), Key(b));
  }

  // ----- stems -----

  // A name p + r whose longest suffix that leaves something is r.
  ghost predicate IsStem(p: Name, r: Name) {
    p != [] && Matches(r) && forall j :: 1 <= j < |p| ==> !Matches((p + r)[j..])
  }

  lemma StripLeavesStem(p: Name, r: Name)
    requires IsStem(p, r)
    ensures Strip(p + r) == p
  {
    StripIsMaximal(p + r);
    assert (p + r)[|p|..] == r && (p + r)[..|p|] == p;
  }

  // Ordinary names are ordered by their stems, and by the whole names if the stems tie.
  lemma StemsDecide(p: Name, r: Name, q: Name, s: Name)
    requires IsStem(p, r) && IsStem(q, s)
    requires p[0] != DOT && q[0] != DOT
    ensures FileVerCompare(p + r, q + s) ==
      if VersionCompare(p, q) != 0 then VersionCompare(p, q) else VersionCompare(p + r, q + s)
  {
    StripLeavesStem(p, r);
    StripLeavesStem(q, s);
    assert (p + r)[0] == p[0] && (q + s)[0] == q[0];
  }

  // ----- numbers in names -----

  // A decimal numeral of n with z leading zeros.
  function NumeralText(z: nat, n: nat): (t: Name)
    ensures t != []
  {
    seq(z, i => 48) + DigitBytes(Digits(n))
  }

  function DigitBytes(ds: seq<nat>): (t: Name)
    requires IsDigits(ds)
    ensures |t| == |ds|
  {
    seq(|ds|, i requires 0 <= i < |ds| => 48 + ds[i])
  }

  ghost predicate AllDigits(t: Name) {
    forall i :: 0 <= i < |t| ==> IsDigit(t[i])
  }

  ghost predicate NoDigits(t: Name) {
    forall i :: 0 <= i < |t| ==> !IsDigit(t[i])
  }

  predicate StartsWithDigit(s: Name) {
    s != [] && IsDigit(s[0])
  }

  lemma {:induction false} LeadingZerosCount(z: nat, ds: seq<nat>)
    ensures Num(seq(z, i => 0) + ds) == Num(ds)
  {
    NumConcat(seq(z, i => 0), ds);
    NumOfZeros(z);
  }

  lemma {:induction false} NumOfZeros(z: nat)
    ensures Num(seq(z, i => 0)) == 0
  {
    if z > 0 {
      assert seq(z, i => 0)[..z - 1] == seq(z - 1, i => 0);
      NumOfZeros(z - 1);
    }
  }

  // A numeral consists of digits and counts as its number.
  lemma NumeralIsNumber(z: nat, n: nat)
    ensures AllDigits(NumeralText(z, n)) && Number(NumeralText(z, n)) == n
  {
    var t, ds := NumeralText(z, n), seq(z, i => 0) + Digits(n);
    assert seq(|t|, i requires 0 <= i < |t| => if t[i] >= ZERO then t[i] - ZERO else 0) == ds;
    LeadingZerosCount(z, Digits(n));
    NumDigits(n);
  }

  lemma {:induction false} DigitsThenTail(t: Name, tail: Name)
    requires AllDigits(t) && !StartsWithDigit(tail)
    ensures LeadingDigits(t + tail) == t
  {
    if t == [] {
      assert t + tail == tail;
    } else {
      assert (t + tail)[1..] == t[1..] + tail;
      DigitsThenTail(t[1..], tail);
    }
  }

  lemma {:induction false} NonDigitsThenTail(p: Name, tail: Name)
    requires NoDigits(p) && StartsWithDigit(tail)
    ensures NonDigits(p + tail) == p
  {
    if p == [] {
      assert p + tail == tail;
    } else {
      assert (p + tail)[1..] == p[1..] + tail;
      NonDigitsThenTail(p[1..], tail);
    }
  }

  lemma {:induction false} LexCompareReflexive(p: Name)
    ensures LexCompare(p, p) == 0
  {
    if p != [] {
      LexCompareReflexive(p[1..]);
    }
  }

  // Splitting a name into its first non-digits, the digits behind them, and the rest.
  lemma RoundOf(p: Name, t: Name, rest: Name)
    requires NoDigits(p) && AllDigits(t) && t != [] && !StartsWithDigit(rest)
    ensures NonDigits(p + (t + rest)) == p
    ensures AfterPrefix(p + (t + rest)) == t + rest && LeadingDigits(t + rest) == t
    ensures AfterRound(p + (t + rest)) == rest
  {
    assert StartsWithDigit(t + rest);
    NonDigitsThenTail(p, t + rest);
    assert (p + (t + rest))[|p|..] == t + rest;
    DigitsThenTail(t, rest);
    assert (t + rest)[|t|..] == rest;
  }

  // Rounds that agree are skipped.
  lemma SameRound(p: Name, t: Name, a: Name, b: Name)
    requires NoDigits(p) && AllDigits(t) && t != [] && !StartsWithDigit(a) && !StartsWithDigit(b)
    ensures VersionCompare(p + (t + a), p + (t + b)) == VersionCompare(a, b)
  {
    RoundOf(p, t, a);
    RoundOf(p, t, b);
    LexCompareReflexive(p);
  }

  // Behind the same beginning, which does not end in a digit, names are ordered by the numbers
  // that come next, however these are written and whatever follows them.
  lemma {:induction false} NumbersDecide(
      x: Name, y: nat, m: nat, a: Name, z: nat, n: nat, b: Name)
    requires x == [] || !IsDigit(x[|x| - 1])
    requires m != n && !StartsWithDigit(a) && !StartsWithDigit(b)
    ensures VersionCompare(x + (NumeralText(y, m) + a), x + (NumeralText(z, n) + b)) == if m < n then -1 else 1
    decreases |x|
  {
    NumeralIsNumber(y, m);
    NumeralIsNumber(z, n);
    if NoDigits(x) {
      RoundOf(x, NumeralText(y, m), a);
      RoundOf(x, NumeralText(z, n), b);
      LexCompareReflexive(x);
    } else {
      var p, t, rest := FirstRound(x);
      NumbersDecide(rest, y, m, a, z, n, b);
      Regroup(p, t, rest, NumeralText(y, m) + a);
      Regroup(p, t, rest, NumeralText(z, n) + b);
      SameRound(p, t, rest + (NumeralText(y, m) + a), rest + (NumeralText(z, n) + b));
    }
  }

  lemma Regroup(p: Name, t: Name, rest: Name, tail: Name)
    ensures (p + (t + rest)) + tail == p + (t + (rest + tail))
  {
  }

  // The first round of a name that has digits.
  lemma {:induction false} FirstRound(x: Name) returns (p: Name, t: Name, rest: Name)
    requires !NoDigits(x)
    ensures x == p + (t + rest) && NoDigits(p) && AllDigits(t) && t != [] && !StartsWithDigit(rest)
    ensures !IsDigit(x[|x| - 1]) ==> rest != [] && !IsDigit(rest[|rest| - 1])
  {
    if !IsDigit(x[0]) {
      p, t, rest := FirstRound(x[1..]);
      p := [x[0]] + p;
    } else if StartsWithDigit(x[1..]) {
      p, t, rest := FirstRound(x[1..]);
      StartsWithDigits(p, t, rest);
      p, t := [], [x[0]] + t;
    } else {
      p, t, rest := [], [x[0]], x[1..];
    }
  }

  lemma StartsWithDigits(p: Name, t: Name, rest: Name)
    requires NoDigits(p) && StartsWithDigit(p + (t + rest))
    ensures p == []
  {
  }

  // The rank of a name's first byte, or of its end.
  function FirstRank(s: Name): int {
    if s == [] then 0 else Rank(s[0])
  }

  lemma {:induction false} NonDigitsConcat(x: Name, s: Name)
    requires NoDigits(x)
    ensures NonDigits(x + s) == x + NonDigits(s)
  {
    if x == [] {
      assert x + s == s;
    } else {
      assert (x + s)[1..] == x[1..] + s;
      NonDigitsConcat(x[1..], s);
    }
  }

  lemma {:induction false} LexCompareConcat(x: Name, p: Name, q: Name)
    ensures LexCompare(x + p, x + q) == LexCompare(p, q)
  {
    if x == [] {
      assert x + p == p && x + q == q;
    } else {
      assert (x + p)[1..] == x[1..] + p && (x + q)[1..] == x[1..] + q;
      LexCompareConcat(x[1..], p, q);
    }
  }

  // Behind the same beginning names are ordered by the next bytes, none of them a digit, if these
  // differ; the end of a name has its own place in this order.
  lemma {:induction false} BytesDecide(x: Name, a: Name, b: Name)
    requires !StartsWithDigit(a) && !StartsWithDigit(b) && FirstRank(a) != FirstRank(b)
    ensures VersionCompare(x + a, x + b) == if FirstRank(a) < FirstRank(b) then -1 else 1
    decreases |x|
  {
    if NoDigits(x) {
      NonDigitsConcat(x, a);
      NonDigitsConcat(x, b);
      LexCompareConcat(x, NonDigits(a), NonDigits(b));
    } else {
      var p, t, rest := FirstRound(x);
      BytesDecide(rest, a, b);
      Regroup(p, t, rest, a);
      Regroup(p, t, rest, b);
      SameRound(p, t, rest + a, rest + b);
    }
  }

  // ----- numbers in file names -----

  // Segments of which the last can go on: what a suffix is in front of a number.
  predicate OpenSuffix(u: Name)
    decreases |u|
  {
    && |u| >= 2 && u[0] == DOT && StartsSegment(u[1])
    && (SkipSegment(u[2..]) == [] || OpenSuffix(SkipSegment(u[2..])))
  }

  lemma {:induction false} SkipSegmentConcat(u: Name, s: Name)
    ensures SkipSegment(u + s) == if SkipSegment(u) == [] then SkipSegment(s) else SkipSegment(u) + s
  {
    if u == [] {
      assert u + s == s;
    } else {
      assert (u + s)[1..] == u[1..] + s;
      SkipSegmentConcat(u[1..], s);
    }
  }

  lemma {:induction false} SkipNumeral(t: Name, s: Name)
    requires AllDigits(t) && IsSuffix(s)
    ensures SkipSegment(t + s) == s
  {
    if t == [] {
      assert t + s == s;
    } else {
      assert (t + s)[1..] == t[1..] + s;
      SkipNumeral(t[1..], s);
    }
  }

  // A number belongs to a suffix exactly if it goes on with a segment.
  lemma {:induction false} NumeralInSuffix(u: Name, t: Name, s: Name)
    requires AllDigits(t) && t != [] && IsSuffix(s)
    ensures IsSuffix(u + (t + s)) <==> OpenSuffix(u)
    decreases |u|
  {
    var name := u + (t + s);
    if |u| >= 2 && u[0] == DOT && StartsSegment(u[1]) {
      assert name[2..] == u[2..] + (t + s);
      SkipSegmentConcat(u[2..], t + s);
      SkipNumeral(t, s);
      if SkipSegment(u[2..]) != [] {
        NumeralInSuffix(SkipSegment(u[2..]), t, s);
      }
    } else {
      assert |u| <= 1 ==> name[|u|] == t[0];
    }
  }

  // Where stripping cuts the beginning x, if it does.
  function FirstOpen(x: Name, k: nat): (j: nat)
    requires k <= |x|
    ensures k <= j <= |x|
    decreases |x| - k
  {
    if k == |x| || OpenSuffix(x[k..]) then k else FirstOpen(x, k + 1)
  }

  lemma {:induction false} StripNumeral(x: Name, t: Name, s: Name, k: nat)
    requires AllDigits(t) && t != [] && IsSuffix(s) && |x| <= k <= |x| + |t| && (x == [] ==> k > 0)
    ensures StripFrom(x + (t + s), k) == x + t
    decreases |x| + |t| - k
  {
    var name := x + (t + s);
    if k == |x| + |t| {
      assert name[k..] == s && name[..k] == x + t;
    } else {
      assert name[k..][0] == t[k - |x|];
      StripNumeral(x, t, s, k + 1);
    }
  }

  lemma {:induction false} StripBeginning(x: Name, t: Name, s: Name, k: nat)
    requires AllDigits(t) && t != [] && IsSuffix(s) && 0 < k <= |x|
    ensures StripFrom(x + (t + s), k) == if FirstOpen(x, k) < |x| then x[..FirstOpen(x, k)] else x + t
    decreases |x| - k
  {
    var name := x + (t + s);
    assert name[k..] == x[k..] + (t + s) && name[..k] == x[..k];
    if k == |x| {
      StripNumeral(x, t, s, k);
    } else {
      NumeralInSuffix(x[k..], t, s);
      if !OpenSuffix(x[k..]) {
        StripBeginning(x, t, s, k + 1);
      }
    }
  }

  // File names that agree up to a number are ordered by that number, whatever suffixes follow.
  lemma FileNumbersDecide(x: Name, y: nat, m: nat, r: Name, z: nat, n: nat, s: Name)
    requires x == [] || !IsDigit(x[|x| - 1])
    requires m != n && Matches(r) && Matches(s)
    ensures FileVerCompare(x + (NumeralText(y, m) + r), x + (NumeralText(z, n) + s)) == if m < n then -1 else 1
  {
    SuffixIffMatches(r);
    SuffixIffMatches(s);
    NumeralIsNumber(y, m);
    NumeralIsNumber(z, n);
    SameClass(x, NumeralText(y, m), r, NumeralText(z, n), s);
    StrippedNumbers(x, y, m, r, z, n, s);
    NumbersDecide(x, y, m, r, z, n, s);
  }

  // Stripping leaves the numbers, or nothing in which the names differ.
  lemma StrippedNumbers(x: Name, y: nat, m: nat, r: Name, z: nat, n: nat, s: Name)
    requires x == [] || !IsDigit(x[|x| - 1])
    requires m != n && IsSuffix(r) && IsSuffix(s)
    ensures VersionCompare(Strip(x + (NumeralText(y, m) + r)), Strip(x + (NumeralText(z, n) + s))) ==
      if x != [] && FirstOpen(x, 1) < |x| then 0 else if m < n then -1 else 1
  {
    var t, u := NumeralText(y, m), NumeralText(z, n);
    NumeralIsNumber(y, m);
    NumeralIsNumber(z, n);
    StripName(x, t, r);
    StripName(x, u, s);
    if x != [] && FirstOpen(x, 1) < |x| {
      VersionCompareReflexive(x[..FirstOpen(x, 1)]);
    } else {
      NumbersDecide(x, y, m, [], z, n, []);
      assert t + [] == t && u + [] == u;
    }
  }

  lemma VersionCompareReflexive(p: Name)
    ensures VersionCompare(p, p) == 0
  {
    KeyOrderReflexive(Key(p));
    VersionCompareIsKeyOrder(p, p);
  }

  lemma StripName(x: Name, t: Name, s: Name)
    requires AllDigits(t) && t != [] && IsSuffix(s)
    ensures Strip(x + (t + s)) == if x != [] && FirstOpen(x, 1) < |x| then x[..FirstOpen(x, 1)] else x + t
  {
    if x == [] {
      StripNumeral(x, t, s, 1);
    } else {
      StripBeginning(x, t, s, 1);
    }
  }

  lemma SameClass(x: Name, t: Name, r: Name, u: Name, s: Name)
    requires AllDigits(t) && AllDigits(u) && t != [] && u != []
    ensures SpecialClass(x + (t + r)) == SpecialClass(x + (u + s)) >= 3
  {
    var a, b := x + (t + r), x + (u + s);
    assert a[|x|] == t[0] && b[|x|] == u[0];
    assert x != [] ==> a[0] == x[0] && b[0] == x[0];
  }
}
