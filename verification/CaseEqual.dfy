// Case-insensitive comparison with a short literal: STRCASEEQ and its chain strcaseeq0 ..
// strcaseeq9 (include/c-strcaseeq.h), against case folding in the C locale (include/c-ctype.h).
module CaseEqual {
  import opened Common

  // The bytes of a C string before its terminating NUL.
  predicate IsCString(s: seq<Byte>) {
    forall i :: 0 <= i < |s| ==> s[i] != 0
  }

  predicate IsUpper(c: Byte) {
    65 <= c <= 90
  }

  predicate IsLower(c: Byte) {
    97 <= c <= 122
  }

  function ToUpper(c: Byte): Byte {
    if IsLower(c) then c - 97 + 65 else c
  }

  function ToLower(c: Byte): Byte {
    if IsUpper(c) then c - 65 + 97 else c
  }

  function Fold(s: seq<Byte>): (r: seq<Byte>)
    ensures |r| == |s|
    ensures forall i :: 0 <= i < |s| ==> r[i] == ToLower(s[i])
  {
    seq(|s|, i requires 0 <= i < |s| => ToLower(s[i]))
  }

  // c_strcasecmp on the strings that start at index i: negative, zero or positive as the first
  // is less than, equal to or greater than the second, ignoring case.
  function StrCaseCmp(s: seq<Byte>, t: seq<Byte>, i: nat): int
    requires i <= |s| && i <= |t|
    decreases |s| - i
  {
    var c, d := ToLower(At(s, i, 0)), ToLower(At(t, i, 0));
    if c != d || i == |s| || i == |t| then c - d else StrCaseCmp(s, t, i + 1)
  }

  // c & ~0x20
  function ClearCaseBit(c: Byte): Byte {
    if c / 32 % 2 == 1 then c - 32 else c
  }

  predicate CaseEq(other: Byte, upper: Byte) {
    if IsUpper(upper) then ClearCaseBit(other) == upper else other == upper
  }

  // The unrolled chain from its k-th function on; u holds the nine characters s20 .. s28.
  predicate StrCaseEqFrom(s1: seq<Byte>, s2: seq<Byte>, u: seq<Byte>, k: nat)
    requires |u| == 9 && k <= 9
    requires IsCString(s1) && SpellsUpper(u, s2)
    requires k <= |s1| && k <= |s2|
    decreases 9 - k
  {
    if k == 9 then StrCaseCmp(s1, s2, 9) == 0
    else if CaseEq(At(s1, k, 0), u[k]) then u[k] == 0 || StrCaseEqFrom(s1, s2, u, k + 1)
    else false
  }

  predicate StrCaseEq(s1: seq<Byte>, s2: seq<Byte>, u: seq<Byte>)
    requires |u| == 9 && SpellsUpper(u, s2) && IsCString(s1)
  {
    StrCaseEqFrom(s1, s2, u, 0)
  }

  // What a use of the macro passes: the upper-cased characters of the literal s2 and zeros
  // after its end. A literal of nine or more characters leaves no zero.
  predicate SpellsUpper(u: seq<Byte>, s2: seq<Byte>) {
    && IsCString(s2)
    && forall k :: 0 <= k < |u| && k <= |s2| ==> u[k] == ToUpper(At(s2, k, 0))
  }

  // The bit trick decides equality up to case when its second argument is upper-cased.
  lemma CaseEqFolds(other: Byte, c: Byte)
    ensures CaseEq(other, ToUpper(c)) <==> ToLower(other) == ToLower(c)
  {
  }

  // Folding identifies the 26 letters with each other in either case, and no other characters.
  lemma FoldsLetters(c: Byte, d: Byte)
    ensures ToLower(c) == ToLower(d) <==>
      || c == d
      || ('A' <= c as char <= 'Z' && d == c + 32)
      || ('A' <= d as char <= 'Z' && c == d + 32)
    ensures IsUpper(c) <==> 'A' <= c as char <= 'Z'
    ensures IsLower(c) <==> 'a' <= c as char <= 'z'
  {
  }

  // It does so for no other second argument that is a lower-case letter: a literal not given
  // in upper case would never match the letter itself in upper case.
  lemma CaseEqNeedsUpper(upper: Byte)
    ensures (forall other: Byte :: CaseEq(other, upper) <==> ToLower(other) == ToLower(upper)) <==> !IsLower(upper)
  {
    if IsLower(upper) {
      assert !CaseEq(upper - 32, upper) && ToLower(upper - 32) == ToLower(upper);
    }
  }

  lemma {:induction false} StrCaseCmpFolds(s: seq<Byte>, t: seq<Byte>, i: nat)
    requires IsCString(s) && IsCString(t) && i <= |s| && i <= |t|
    ensures StrCaseCmp(s, t, i) == 0 <==> Fold(s[i..]) == Fold(t[i..])
    decreases |s| - i
  {
    if i < |s| && i < |t| {
      StrCaseCmpFolds(s, t, i + 1);
      FoldSuffix(s, i);
      FoldSuffix(t, i);
    }
  }

  // The first string is less: it ends first, or has the smaller character where they differ first.
  ghost predicate Less(a: seq<Byte>, b: seq<Byte>) {
    exists k :: 0 <= k <= |a| && k < |b| && a[..k] == b[..k] && (k == |a| || a[k] < b[k])
  }

  lemma {:induction false} StrCaseCmpOrders(s: seq<Byte>, t: seq<Byte>, i: nat)
    requires IsCString(s) && IsCString(t) && i <= |s| && i <= |t|
    ensures StrCaseCmp(s, t, i) < 0 ==> Less(Fold(s[i..]), Fold(t[i..]))
    ensures StrCaseCmp(s, t, i) > 0 ==> Less(Fold(t[i..]), Fold(s[i..]))
    decreases |s| - i
  {
    var a, b := Fold(s[i..]), Fold(t[i..]);
    assert a[..0] == b[..0];
    if i < |s| && i < |t| && ToLower(s[i]) == ToLower(t[i]) {
      StrCaseCmpOrders(s, t, i + 1);
      FoldSuffix(s, i);
      FoldSuffix(t, i);
      LessCons(ToLower(s[i]), Fold(s[i + 1..]), Fold(t[i + 1..]));
      LessCons(ToLower(s[i]), Fold(t[i + 1..]), Fold(s[i + 1..]));
    }
  }

  lemma LessCons(c: Byte, a: seq<Byte>, b: seq<Byte>)
    ensures Less(a, b) ==> Less([c] + a, [c] + b)
  {
    if Less(a, b) {
      var k :| 0 <= k <= |a| && k < |b| && a[..k] == b[..k] && (k == |a| || a[k] < b[k]);
      assert ([c] + a)[..k + 1] == [c] + a[..k] && ([c] + b)[..k + 1] == [c] + b[..k];
    }
  }

  lemma FoldSuffix(s: seq<Byte>, i: nat)
    requires i < |s|
    ensures Fold(s[i..]) == [ToLower(s[i])] + Fold(s[i + 1..])
  {
  }

  lemma {:induction false} ChainFolds(s1: seq<Byte>, s2: seq<Byte>, u: seq<Byte>, k: nat)
    requires |u| == 9 && k <= 9
    requires IsCString(s1) && SpellsUpper(u, s2) && k <= |s1| && k <= |s2|
    ensures StrCaseEqFrom(s1, s2, u, k) <==> Fold(s1[k..]) == Fold(s2[k..])
    decreases 9 - k
  {
    if k == 9 {
      StrCaseCmpFolds(s1, s2, 9);
    } else {
      CaseEqFolds(At(s1, k, 0), At(s2, k, 0));
      if k < |s1| && k < |s2| {
        FoldSuffix(s1, k);
        FoldSuffix(s2, k);
        if CaseEq(s1[k], u[k]) {
          ChainFolds(s1, s2, u, k + 1);
        }
      }
    }
  }

  // STRCASEEQ holds exactly when the strings are equal after case folding, that is, when
  // c_strcasecmp returns 0, for strings of any length.
  lemma StrCaseEqIsFoldedEquality(s1: seq<Byte>, s2: seq<Byte>, u: seq<Byte>)
    requires |u| == 9 && IsCString(s1) && SpellsUpper(u, s2)
    ensures StrCaseEq(s1, s2, u) <==> Fold(s1) == Fold(s2)
    ensures StrCaseEq(s1, s2, u) <==> StrCaseCmp(s1, s2, 0) == 0
  {
    ChainFolds(s1, s2, u, 0);
    StrCaseCmpFolds(s1, s2, 0);
    assert s1[0..] == s1 && s2[0..] == s2;
  }
}
