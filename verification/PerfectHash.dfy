// Lookups in a table laid out by gperf (include/iconv_open-aix.h, include/iconv_open-irix.h):
// a hash of two characters and the length picks the one slot in which a string could be.
module PerfectHash {
  import opened Common

  // The generated tables. keywords[key] is the keyword of slot key, or "" for an empty slot;
  // besides the last character the hash looks at the one at the given position, moved by offset.
  datatype Gperf = Gperf(
    minLen: nat, maxLen: nat, position: nat, offset: nat, asso: seq<nat>, keywords: seq<string>)

  // A C string as characters: bytes other than NUL.
  predicate IsNarrow(s: string) {
    forall i :: 0 <= i < |s| ==> 0 < s[i] as int < 256
  }

  // The table covers every byte, and the lengths admit the position.
  predicate Sized(g: Gperf) {
    |g.asso| >= 256 + g.offset && g.position < g.minLen
  }

  function Hash(g: Gperf, s: string): nat
    requires Sized(g) && IsNarrow(s) && |s| >= g.minLen
  {
    |s| + g.asso[s[g.position] as int + g.offset] + g.asso[s[|s| - 1] as int]
  }

  // The string pool holds the keywords in slot order, each with its NUL; a struct of character
  // arrays has no padding, so the offset of a keyword is the length of what precedes it.
  function Pool(keywords: seq<string>): string {
    if keywords == [] then ""
    else (if keywords[0] == "" then "" else keywords[0] + "\0") + Pool(keywords[1..])
  }

  function StandardName(keywords: seq<string>, key: nat): int
    requires key < |keywords|
  {
    if keywords[key] == "" then -1 else |Pool(keywords[..key])|
  }

  // strcmp of s from index i with the string at offset o of the pool, for equality.
  predicate StrEq(s: string, i: nat, pool: string, o: nat)
    requires i <= |s| && o < |pool| && pool[|pool| - 1] == '\0'
    decreases |pool| - o
  {
    if At(s, i, '\0') != pool[o] then false
    else if i == |s| || pool[o] == '\0' then i == |s| && pool[o] == '\0'
    else StrEq(s, i + 1, pool, o + 1)
  }

  // mapping_lookup: the slot of the mapping it returns.
  function Lookup(g: Gperf, s: string): Option<nat>
    requires Sized(g) && IsNarrow(s)
  {
    if g.minLen <= |s| <= g.maxLen then
      var key := Hash(g, s);
      if key < |g.keywords| then
        var o := StandardName(g.keywords, key);
        if o >= 0 then
          KeywordInPool(g.keywords, key);
          var pool := Pool(g.keywords);
          if At(s, 0, '\0') == pool[o] && StrEq(s, 1, pool, o + 1) then Some(key) else None
        else None
      else None
    else None
  }

  // The simple lookup: the first slot, not an empty one, that holds the string.
  function LinearSearch(keywords: seq<string>, s: string, from: nat): Option<nat>
    requires from <= |keywords|
    decreases |keywords| - from
  {
    if from == |keywords| then None
    else if keywords[from] != "" && keywords[from] == s then Some(from)
    else LinearSearch(keywords, s, from + 1)
  }

  // What the generator guarantees: each keyword hashes to its own slot.
  predicate Perfect(g: Gperf) {
    && Sized(g)
    && forall key :: 0 <= key < |g.keywords| && g.keywords[key] != "" ==> HashesTo(g, g.keywords[key], key)
  }

  predicate HashesTo(g: Gperf, w: string, key: nat)
    requires Sized(g)
  {
    IsNarrow(w) && g.minLen <= |w| <= g.maxLen && Hash(g, w) == key
  }

  lemma {:induction false} PoolConcat(a: seq<string>, b: seq<string>)
    ensures Pool(a + b) == Pool(a) + Pool(b)
  {
    if a == [] {
      assert a + b == b;
    } else {
      assert (a + b)[1..] == a[1..] + b;
      PoolConcat(a[1..], b);
    }
  }

  lemma {:induction false} PoolEndsWithNul(keywords: seq<string>)
    ensures Pool(keywords) != "" ==> Pool(keywords)[|Pool(keywords)| - 1] == '\0'
  {
    if keywords != [] {
      PoolEndsWithNul(keywords[1..]);
    }
  }

  // Offsets stay inside the pool: at the offset of a keyword the pool holds that keyword and its
  // NUL, and the pool's last byte is a NUL.
  lemma KeywordInPool(keywords: seq<string>, key: nat)
    requires key < |keywords| && keywords[key] != ""
    ensures var pool, w, o := Pool(keywords), keywords[key], StandardName(keywords, key);
      0 <= o && o + |w| < |pool| && pool[|pool| - 1] == '\0' && pool[o..o + |w| + 1] == w + "\0"
  {
    assert keywords == keywords[..key] + keywords[key..];
    PoolConcat(keywords[..key], keywords[key..]);
    PoolEndsWithNul(keywords);
  }

  // Comparing with the keyword stored at o is comparing strings.
  lemma {:induction false} StrEqIsEquality(s: string, i: nat, pool: string, o: nat, w: string)
    requires IsNarrow(s) && IsNarrow(w) && i <= |s|
    requires o + |w| < |pool| && pool[|pool| - 1] == '\0' && pool[o..o + |w| + 1] == w + "\0"
    ensures StrEq(s, i, pool, o) <==> s[i..] == w
    decreases |w|
  {
    assert pool[o] == pool[o..o + |w| + 1][0];
    if i < |s| && w != "" {
      assert pool[o + 1..o + 1 + |w[1..]| + 1] == pool[o..o + |w| + 1][1..] == w[1..] + "\0";
      StrEqIsEquality(s, i + 1, pool, o + 1, w[1..]);
      assert s[i..] == [s[i]] + s[i + 1..];
      assert w == [w[0]] + w[1..];
    }
  }

  lemma {:induction false} LinearSearchFinds(keywords: seq<string>, s: string, from: nat)
    requires from <= |keywords|
    ensures match LinearSearch(keywords, s, from)
      case Some(i) =>
        from <= i < |keywords| && s != "" && keywords[i] == s && forall j :: from <= j < i ==> keywords[j] != s
      case None => s == "" || forall j :: from <= j < |keywords| ==> keywords[j] != s
    decreases |keywords| - from
  {
    if from < |keywords| && (s == "" || keywords[from] != s) {
      LinearSearchFinds(keywords, s, from + 1);
    }
  }

  // The one comparison the lookup makes is an equality test with its slot's keyword.
  lemma SlotTest(keywords: seq<string>, key: nat, s: string)
    requires key < |keywords| && keywords[key] != "" && IsNarrow(keywords[key])
    requires IsNarrow(s) && s != ""
    ensures var o, pool := StandardName(keywords, key), Pool(keywords);
      && 0 <= o && o + 1 < |pool| && pool[|pool| - 1] == '\0'
      && (s[0] == pool[o] && StrEq(s, 1, pool, o + 1) <==> s == keywords[key])
  {
    KeywordInPool(keywords, key);
    FirstThenRest(s, Pool(keywords), StandardName(keywords, key), keywords[key]);
  }

  // Comparing the first characters and then the rest is comparing the strings.
  lemma FirstThenRest(s: string, pool: string, o: nat, w: string)
    requires IsNarrow(s) && IsNarrow(w) && s != "" && w != ""
    requires o + |w| < |pool| && pool[|pool| - 1] == '\0' && pool[o..o + |w| + 1] == w + "\0"
    ensures s[0] == pool[o] && StrEq(s, 1, pool, o + 1) <==> s == w
  {
    var stored := pool[o..o + |w| + 1];
    assert stored[0] == pool[o];
    assert pool[o + 1..o + 1 + |w[1..]| + 1] == stored[1..];
    StrEqIsEquality(s, 1, pool, o + 1, w[1..]);
    assert s == [s[0]] + s[1..] && w == [w[0]] + w[1..];
  }

  lemma LookupTestsSlot(g: Gperf, s: string)
    requires Perfect(g) && IsNarrow(s)
    ensures Lookup(g, s) ==
      if g.minLen <= |s| <= g.maxLen && Hash(g, s) < |g.keywords| && g.keywords[Hash(g, s)] == s
      then Some(Hash(g, s)) else None
  {
    if g.minLen <= |s| <= g.maxLen && Hash(g, s) < |g.keywords| {
      var key := Hash(g, s);
      if g.keywords[key] != "" {
        assert HashesTo(g, g.keywords[key], key);
        SlotTest(g.keywords, key, s);
      }
    }
  }

  // A perfect lookup refines the linear search, for every C string: it finds a string exactly
  // when it is a keyword, and then in that keyword's slot.
  lemma LookupIsLinearSearch(g: Gperf, s: string)
    requires Perfect(g) && IsNarrow(s)
    ensures Lookup(g, s) == LinearSearch(g.keywords, s, 0)
  {
    LookupTestsSlot(g, s);
    LinearSearchFinds(g.keywords, s, 0);
    forall key | 0 <= key < |g.keywords| && s != "" && g.keywords[key] == s
      ensures HashesTo(g, s, key)
    {
      assert g.keywords[key] != "";
    }
  }
}

// include/iconv_open-aix.h
module AixMapping {
  import opened Common
  import opened PerfectHash

  function AssoValue(i: nat): nat {
    match i
    case 47 => 0 case 48 => 4 case 49 => 25 case 50 => 0 case 51 => 11
    case 52 => 24 case 53 => 9 case 54 => 17 case 55 => 3 case 56 => 14
    case 57 => 21 case 80 => 3 case 82 => 1 case 87 => 0
    case _ => 45
  }

  function Keyword(key: nat): string {
    match key
    case 6 => "EUC-TW" case 7 => "EUC-KR" case 8 => "CP852" case 9 => "EUC-JP"
    case 10 => "ISO-8859-2" case 11 => "CP857" case 12 => "CP850" case 13 => "ISO-8859-7"
    case 14 => "CP932" case 15 => "GB2312" case 16 => "BIG5" case 17 => "CP437"
    case 19 => "ISO-8859-5" case 20 => "ISO-8859-15" case 21 => "ISO-8859-3" case 22 => "ISO-8859-13"
    case 23 => "CP1046" case 24 => "ISO-8859-8" case 25 => "CP856" case 26 => "CP1125"
    case 27 => "ISO-8859-6" case 28 => "CP865" case 29 => "CP922" case 30 => "CP1252"
    case 31 => "ISO-8859-9" case 33 => "CP943" case 34 => "ISO-8859-4" case 35 => "ISO-8859-1"
    case 38 => "CP1129" case 40 => "CP869" case 41 => "CP1124" case 44 => "CP861"
    case _ => ""
  }

  const AIX :=
    Gperf(4, 11, 3, 2, seq(258, i requires 0 <= i => AssoValue(i)), seq(45, i requires 0 <= i => Keyword(i)))

  lemma AixIsPerfect()
    ensures Perfect(AIX)
  {
    forall key | 0 <= key < 45 && Keyword(key) != ""
      ensures HashesTo(AIX, Keyword(key), key)
    {
      AixKeywordHashes(key);
    }
  }

  lemma AixKeywordHashes(key: nat)
    requires key < 45 && Keyword(key) != ""
    ensures HashesTo(AIX, Keyword(key), key)
  {
    if key < 13 {
      AixKeywordHashes0(key);
    } else if key < 20 {
      AixKeywordHashes1(key);
    } else if key < 27 {
      AixKeywordHashes2(key);
    } else {
      AixKeywordHashes3(key);
    }
  }

  lemma AixKeywordHashes0(key: nat)
    requires 0 <= key < 13 && Keyword(key) != ""
    ensures HashesTo(AIX, Keyword(key), key)
  {
  }

  lemma AixKeywordHashes1(key: nat)
    requires 13 <= key < 20 && Keyword(key) != ""
    ensures HashesTo(AIX, Keyword(key), key)
  {
  }

  lemma AixKeywordHashes2(key: nat)
    requires 20 <= key < 27 && Keyword(key) != ""
    ensures HashesTo(AIX, Keyword(key), key)
  {
  }

  lemma AixKeywordHashes3(key: nat)
    requires 27 <= key < 45 && Keyword(key) != ""
    ensures HashesTo(AIX, Keyword(key), key)
  {
  }

  // The names, in the order of the string pool.
  const NAMES := [
    "EUC-TW", "EUC-KR", "CP852", "EUC-JP", "ISO-8859-2", "CP857", "CP850", "ISO-8859-7", "CP932", "GB2312",
    "BIG5", "CP437", "ISO-8859-5", "ISO-8859-15", "ISO-8859-3", "ISO-8859-13", "CP1046", "ISO-8859-8", "CP856",
    "CP1125", "ISO-8859-6", "CP865", "CP922", "CP1252", "ISO-8859-9", "CP943", "ISO-8859-4", "ISO-8859-1",
    "CP1129", "CP869", "CP1124", "CP861"]

  // Where a name is in the table.
  function SlotOfName(j: nat): nat {
    if j < 12 then j + 6 else if j < 25 then j + 7 else if j < 28 then j + 8
    else if j == 28 then 38 else if j == 29 then 40 else if j == 30 then 41 else 44
  }

  ghost predicate IsKeyword(s: string) {
    s != "" && exists key: nat :: key < 45 && Keyword(key) == s
  }

  // The keywords of the table are these names.
  lemma KeywordsAreNames(s: string)
    ensures s in NAMES <==> IsKeyword(s)
  {
    if s in NAMES {
      var j :| 0 <= j < 32 && NAMES[j] == s;
      NameIsKeyword(j);
    }
    if IsKeyword(s) {
      var key: nat :| key < 45 && Keyword(key) == s;
      KeywordHasName(key);
    }
  }

  lemma NameIsKeyword(j: nat)
    requires j < 32
    ensures SlotOfName(j) < 45 && NAMES[j] != "" && Keyword(SlotOfName(j)) == NAMES[j]
  {
    if j < 8 {
      NameIsKeyword0(j);
    } else if j < 16 {
      NameIsKeyword1(j);
    } else if j < 24 {
      NameIsKeyword2(j);
    } else {
      NameIsKeyword3(j);
    }
  }

  lemma NameIsKeyword0(j: nat)
    requires 0 <= j < 8
    ensures SlotOfName(j) < 45 && NAMES[j] != "" && Keyword(SlotOfName(j)) == NAMES[j]
  {
  }

  lemma NameIsKeyword1(j: nat)
    requires 8 <= j < 16
    ensures SlotOfName(j) < 45 && NAMES[j] != "" && Keyword(SlotOfName(j)) == NAMES[j]
  {
  }

  lemma NameIsKeyword2(j: nat)
    requires 16 <= j < 24
    ensures SlotOfName(j) < 45 && NAMES[j] != "" && Keyword(SlotOfName(j)) == NAMES[j]
  {
  }

  lemma NameIsKeyword3(j: nat)
    requires 24 <= j < 32
    ensures SlotOfName(j) < 45 && NAMES[j] != "" && Keyword(SlotOfName(j)) == NAMES[j]
  {
  }

  // And back.
  function NameOfSlot(key: nat): nat {
    if key < 18 then (if key < 6 then 32 else key - 6) else if key < 32 then key - 7 else if key < 36 then key - 8
    else if key == 38 then 28 else if key == 40 then 29 else if key == 41 then 30 else 31
  }

  lemma KeywordHasName(key: nat)
    requires key < 45 && Keyword(key) != ""
    ensures Keyword(key) in NAMES
  {
    var j := NameOfSlot(key);
    assert j < 32 && SlotOfName(j) == key;
    NameIsKeyword(j);
  }

  lemma SearchFindsNames(s: string)
    ensures LinearSearch(AIX.keywords, s, 0).Some? <==> s in NAMES
  {
    LinearSearchFinds(AIX.keywords, s, 0);
    KeywordsAreNames(s);
    if IsKeyword(s) {
      var key: nat :| key < 45 && Keyword(key) == s;
      assert AIX.keywords[key] == s;
    }
  }

  // The lookup finds exactly the 32 names, for every C string.
  lemma AixLookup(s: string)
    requires IsNarrow(s)
    ensures Lookup(AIX, s) == LinearSearch(AIX.keywords, s, 0)
    ensures Lookup(AIX, s).Some? <==> s in NAMES
  {
    AixIsPerfect();
    LookupIsLinearSearch(AIX, s);
    SearchFindsNames(s);
  }
}

// include/iconv_open-irix.h
module IrixMapping {
  import opened Common
  import opened PerfectHash

  function AssoValue(i: nat): nat {
    match i
    case 48 => 8 case 49 => 2 case 50 => 5 case 51 => 12 case 52 => 11
    case 53 => 0 case 54 => 10 case 55 => 9 case 56 => 8 case 57 => 7
    case 67 => 0 case 69 => 0 case 71 => 5 case 73 => 0 case 75 => 7
    case 80 => 7 case 82 => 1 case 83 => 0 case 84 => 8 case 87 => 0
    case _ => 24
  }

  function Keyword(key: nat): string {
    match key
    case 5 => "CP855" case 6 => "EUC-TW" case 7 => "EUC-KR" case 8 => "CP1251"
    case 9 => "SHIFT_JIS" case 10 => "ISO-8859-5" case 11 => "ISO-8859-15" case 12 => "ISO-8859-1"
    case 13 => "EUC-JP" case 14 => "KOI8-R" case 15 => "ISO-8859-2" case 16 => "GB2312"
    case 17 => "ISO-8859-9" case 18 => "ISO-8859-8" case 19 => "ISO-8859-7" case 20 => "ISO-8859-6"
    case 21 => "ISO-8859-4" case 22 => "ISO-8859-3" case 23 => "TIS-620"
    case _ => ""
  }

  const IRIX :=
    Gperf(5, 11, 0, 0, seq(256, i requires 0 <= i => AssoValue(i)), seq(24, i requires 0 <= i => Keyword(i)))

  lemma IrixIsPerfect()
    ensures Perfect(IRIX)
  {
    forall key | 0 <= key < 24 && Keyword(key) != ""
      ensures HashesTo(IRIX, Keyword(key), key)
    {
      IrixKeywordHashes(key);
    }
  }

  lemma IrixKeywordHashes(key: nat)
    requires key < 24 && Keyword(key) != ""
    ensures HashesTo(IRIX, Keyword(key), key)
  {
    if key < 11 {
      IrixKeywordHashes0(key);
    } else if key < 18 {
      IrixKeywordHashes1(key);
    } else {
      IrixKeywordHashes2(key);
    }
  }

  lemma IrixKeywordHashes0(key: nat)
    requires 0 <= key < 11 && Keyword(key) != ""
    ensures HashesTo(IRIX, Keyword(key), key)
  {
  }

  lemma IrixKeywordHashes1(key: nat)
    requires 11 <= key < 18 && Keyword(key) != ""
    ensures HashesTo(IRIX, Keyword(key), key)
  {
  }

  lemma IrixKeywordHashes2(key: nat)
    requires 18 <= key < 24 && Keyword(key) != ""
    ensures HashesTo(IRIX, Keyword(key), key)
  {
  }

  // The names, in the order of the string pool.
  const NAMES := [
    "CP855", "EUC-TW", "EUC-KR", "CP1251", "SHIFT_JIS", "ISO-8859-5", "ISO-8859-15", "ISO-8859-1", "EUC-JP",
    "KOI8-R", "ISO-8859-2", "GB2312", "ISO-8859-9", "ISO-8859-8", "ISO-8859-7", "ISO-8859-6", "ISO-8859-4",
    "ISO-8859-3", "TIS-620"]

  // Where a name is in the table.
  function SlotOfName(j: nat): nat {
    j + 5
  }

  ghost predicate IsKeyword(s: string) {
    s != "" && exists key: nat :: key < 24 && Keyword(key) == s
  }

  // The keywords of the table are these names.
  lemma KeywordsAreNames(s: string)
    ensures s in NAMES <==> IsKeyword(s)
  {
    if s in NAMES {
      var j :| 0 <= j < 19 && NAMES[j] == s;
      NameIsKeyword(j);
    }
    if IsKeyword(s) {
      var key: nat :| key < 24 && Keyword(key) == s;
      KeywordHasName(key);
    }
  }

  lemma NameIsKeyword(j: nat)
    requires j < 19
    ensures SlotOfName(j) < 24 && NAMES[j] != "" && Keyword(SlotOfName(j)) == NAMES[j]
  {
    if j < 10 {
      NameIsKeyword0(j);
    } else {
      NameIsKeyword1(j);
    }
  }

  lemma NameIsKeyword0(j: nat)
    requires 0 <= j < 10
    ensures SlotOfName(j) < 24 && NAMES[j] != "" && Keyword(SlotOfName(j)) == NAMES[j]
  {
  }

  lemma NameIsKeyword1(j: nat)
    requires 10 <= j < 19
    ensures SlotOfName(j) < 24 && NAMES[j] != "" && Keyword(SlotOfName(j)) == NAMES[j]
  {
  }

  // And back.
  function NameOfSlot(key: nat): nat {
    if key < 5 then 19 else key - 5
  }

  lemma KeywordHasName(key: nat)
    requires key < 24 && Keyword(key) != ""
    ensures Keyword(key) in NAMES
  {
    var j := NameOfSlot(key);
    assert j < 19 && SlotOfName(j) == key;
    NameIsKeyword(j);
  }

  lemma SearchFindsNames(s: string)
    ensures LinearSearch(IRIX.keywords, s, 0).Some? <==> s in NAMES
  {
    LinearSearchFinds(IRIX.keywords, s, 0);
    KeywordsAreNames(s);
    if IsKeyword(s) {
      var key: nat :| key < 24 && Keyword(key) == s;
      assert IRIX.keywords[key] == s;
    }
  }

  // The lookup finds exactly the 19 names, for every C string.
  lemma IrixLookup(s: string)
    requires IsNarrow(s)
    ensures Lookup(IRIX, s) == LinearSearch(IRIX.keywords, s, 0)
    ensures Lookup(IRIX, s).Some? <==> s in NAMES
  {
    IrixIsPerfect();
    LookupIsLinearSearch(IRIX, s);
    SearchFindsNames(s);
  }
}
