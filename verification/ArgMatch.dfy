// The matching half of an argmatch group (include/argmatch.h, ARGMATCH_DEFINE_GROUP): finding an
// argument by name or unambiguous abbreviation, the way back, and the list of valid arguments.
// Strings are C strings without their NUL; values are compared by equality.
module ArgMatch {
  import opened Common

  datatype Arg<V> = Arg(name: string, val: V)

  const INVALID := -1
  const AMBIGUOUS := -2

  // strncmp (name, arg, strlen (arg)) == 0
  predicate Abbreviates(arg: string, name: string) {
    arg <= name
  }

  // The first entry with exactly this name, or the table's length.
  function FirstNamed<V>(args: seq<Arg<V>>, arg: string): (k: nat)
    ensures k <= |args| && (k < |args| ==> args[k].name == arg)
    ensures forall i :: 0 <= i < k ==> args[i].name != arg
  {
    if args == [] || args[0].name == arg then 0 else 1 + FirstNamed(args[1..], arg)
  }

  // The first entry whose name the argument abbreviates, or the table's length.
  function FirstAbbreviated<V>(args: seq<Arg<V>>, arg: string): (k: nat)
    ensures k <= |args| && (k < |args| ==> Abbreviates(arg, args[k].name))
    ensures forall i :: 0 <= i < k ==> !Abbreviates(arg, args[i].name)
  {
    if args == [] || Abbreviates(arg, args[0].name) then 0 else 1 + FirstAbbreviated(args[1..], arg)
  }

  // Every entry the argument abbreviates carries this value.
  predicate AllCarry<V(==)>(args: seq<Arg<V>>, arg: string, val: V) {
    forall i :: 0 <= i < |args| && Abbreviates(arg, args[i].name) ==> args[i].val == val
  }

  // What the documentation asks for: the exact match if there is one; otherwise the first
  // abbreviated entry, provided that all abbreviated entries carry one value.
  function ChoiceOf<V(==)>(args: seq<Arg<V>>, arg: string): (res: int)
    ensures AMBIGUOUS <= res < |args|
  {
    var exact, first := FirstNamed(args, arg), FirstAbbreviated(args, arg);
    if exact < |args| then exact
    else if first == |args| then INVALID
    else if AllCarry(args, arg, args[first].val) then first
    else AMBIGUOUS
  }

  method Choice<V(==)>(args: seq<Arg<V>>, arg: string) returns (choice: int)
    ensures choice == ChoiceOf(args, arg)
  {
    var res, ambiguous := INVALID, false;
    for i := 0 to |args|
      invariant forall j :: 0 <= j < i ==> args[j].name != arg
      invariant INVALID <= res < i
      invariant forall j :: 0 <= j < (if res == INVALID then i else res) ==> !Abbreviates(arg, args[j].name)
      invariant res != INVALID ==> Abbreviates(arg, args[res].name)
      invariant ambiguous <==>
        res != INVALID && exists j :: 0 <= j < i && Abbreviates(arg, args[j].name) && args[j].val != args[res].val
    {
      if Abbreviates(arg, args[i].name) {
        if |args[i].name| == |arg| {
          return i;
        } else if res == INVALID {
          res := i;
        } else if args[res].val != args[i].val {
          ambiguous := true;
        }
      }
    }
    return if ambiguous then AMBIGUOUS else res;
  }

  // An argument abbreviates the names that go on from it.
  lemma AbbreviatesIff(arg: string, name: string)
    ensures Abbreviates(arg, name) <==> exists rest: string :: name == arg + rest
  {
    if Abbreviates(arg, name) {
      assert name == arg + name[|arg|..];
    }
  }

  // When each outcome occurs. An exact match wins even where abbreviations clash before it.
  lemma ChoiceOutcomes<V>(args: seq<Arg<V>>, arg: string)
    ensures var res := ChoiceOf(args, arg);
      && (res == INVALID <==> forall i :: 0 <= i < |args| ==> !Abbreviates(arg, args[i].name))
      && (res == AMBIGUOUS <==>
            && (forall i :: 0 <= i < |args| ==> args[i].name != arg)
            && exists i, j :: 0 <= i < j < |args| && Abbreviates(arg, args[i].name)
                 && Abbreviates(arg, args[j].name) && args[i].val != args[j].val)
      && -2 <= res < |args| && INVALID == -1 && AMBIGUOUS == -2
      && (res >= 0 ==> exists rest: string :: args[res].name == arg + rest)
      && (res >= 0 && args[res].name != arg ==> forall i :: 0 <= i < res ==> !Abbreviates(arg, args[i].name))
      && (res >= 0 ==> forall i :: 0 <= i < res ==> args[i].name != arg)
      && ((exists i :: 0 <= i < |args| && args[i].name == arg) ==> res >= 0 && args[res].name == arg)
  {
    var first, res := FirstAbbreviated(args, arg), ChoiceOf(args, arg);
    if res >= 0 {
      AbbreviatesIff(arg, args[res].name);
    }
    if ChoiceOf(args, arg) == AMBIGUOUS {
      var j :| 0 <= j < |args| && Abbreviates(arg, args[j].name) && args[j].val != args[first].val;
      assert first < j;
    }
  }

  // A spelling accepted as an abbreviation stays unambiguous and keeps its value however it is
  // extended; a spelling that is no abbreviation cannot become one.
  lemma AbbreviationStable<V>(args: seq<Arg<V>>, a: string, b: string)
    requires a <= b
    ensures ChoiceOf(args, a) == INVALID ==> ChoiceOf(args, b) == INVALID
    ensures ChoiceOf(args, a) >= 0 && FirstNamed(args, a) == |args| ==>
      && ChoiceOf(args, b) != AMBIGUOUS
      && (ChoiceOf(args, b) >= 0 ==> args[ChoiceOf(args, b)].val == args[ChoiceOf(args, a)].val)
  {
    assert forall i :: 0 <= i < |args| && Abbreviates(b, args[i].name) ==> Abbreviates(a, args[i].name);
    ChoiceOutcomes(args, a);
    ChoiceOutcomes(args, b);
  }

  // The value of an accepted argument; the program reports the others and exits.
  method Value<V(==)>(args: seq<Arg<V>>, arg: string) returns (val: Option<V>)
    ensures val == if ChoiceOf(args, arg) < 0 then None else Some(args[ChoiceOf(args, arg)].val)
  {
    var res := Choice(args, arg);
    val := if res < 0 then None else Some(args[res].val);
  }

  // The first entry that carries the value, or the table's length.
  function FirstValued<V(==)>(args: seq<Arg<V>>, val: V): (k: nat)
    ensures k <= |args| && (k < |args| ==> args[k].val == val)
    ensures forall i :: 0 <= i < k ==> args[i].val != val
  {
    if args == [] || args[0].val == val then 0 else 1 + FirstValued(args[1..], val)
  }

  method Argument<V(==)>(args: seq<Arg<V>>, val: V) returns (name: Option<string>)
    ensures name == if FirstValued(args, val) < |args| then Some(args[FirstValued(args, val)].name) else None
  {
    for i := 0 to |args|
      invariant forall j :: 0 <= j < i ==> args[j].val != val
    {
      if val == args[i].val {
        return Some(args[i].name);
      }
    }
    return None;
  }

  // Looking a value up by its own argument gives the value back exactly when no earlier entry
  // has the same name, which holds for every value once the names are distinct.
  lemma ValueRoundTrip<V>(args: seq<Arg<V>>, val: V)
    requires FirstValued(args, val) < |args|
    ensures var k := FirstValued(args, val);
      var res := ChoiceOf(args, args[k].name);
      && 0 <= res <= k
      && (args[res].val == val <==> forall i :: 0 <= i < k ==> args[i].name != args[k].name)
  {
  }

  // Replacing an accepted spelling by the argument of its value keeps the value exactly when no
  // earlier entry has that argument's name; doing it again then changes nothing.
  lemma CanonicalSpelling<V>(args: seq<Arg<V>>, arg: string)
    requires ChoiceOf(args, arg) >= 0
    ensures var val := args[ChoiceOf(args, arg)].val;
      var k := FirstValued(args, val);
      && k < |args|
      && var res := ChoiceOf(args, args[k].name);
        && 0 <= res <= k
        && (args[res].val == val <==> forall i :: 0 <= i < k ==> args[i].name != args[k].name)
        && (args[res].val == val ==> res == k && args[FirstValued(args, args[res].val)].name == args[k].name)
  {
    ValueRoundTrip(args, args[ChoiceOf(args, arg)].val);
  }

  // ----- the list of valid arguments -----

  // Whether the last entry continues the run of the entry before it.
  predicate JoinsLastRun<V(==)>(args: seq<Arg<V>>)
    requires args != []
  {
    |args| > 1 && args[|args| - 2].val == Last(args).val
  }

  // The entries split into runs of equal values.
  function Runs<V(==)>(args: seq<Arg<V>>): (runs: seq<seq<Arg<V>>>)
    ensures args == [] <==> runs == []
    ensures runs != [] ==> Last(runs) != [] && Last(Last(runs)) == Last(args)
  {
    if args == [] then []
    else
      var runs, arg := Runs(Init(args)), Last(args);
      if JoinsLastRun(args) then Init(runs) + [Last(runs) + [arg]] else runs + [[arg]]
  }

  function Last<T>(s: seq<T>): T
    requires s != []
  {
    s[|s| - 1]
  }

  function Init<T>(s: seq<T>): seq<T>
    requires s != []
  {
    s[..|s| - 1]
  }

  function Flatten<T>(ss: seq<seq<T>>): seq<T> {
    if ss == [] then [] else Flatten(Init(ss)) + Last(ss)
  }

  // One bullet: the first name after a dash, the others after commas.
  function BulletText<V>(run: seq<Arg<V>>, quote: string -> string): string {
    if run == [] then ""
    else BulletText(Init(run), quote) + (if |run| == 1 then "\n  - " else ", ") + quote(Last(run).name)
  }

  function BulletsText<V>(runs: seq<seq<Arg<V>>>, quote: string -> string): string {
    if runs == [] then "" else BulletsText(Init(runs), quote) + BulletText(Last(runs), quote)
  }

  method Valid<V(==)>(args: seq<Arg<V>>, quote: string -> string) returns (out: string)
    ensures out == "Valid arguments are:" + BulletsText(Runs(args), quote) + "\n"
  {
    out := "Valid arguments are:";
    ghost var listed := "";
    for i := 0 to |args|
      invariant listed == BulletsText(Runs(args[..i]), quote)
      invariant out == "Valid arguments are:" + listed
    {
      var piece := if i == 0 || args[i - 1].val != args[i].val then "\n  - " + quote(args[i].name)
                   else ", " + quote(args[i].name);
      NextArgument(args, i, quote);
      Associate("Valid arguments are:", listed, piece);
      out, listed := out + piece, listed + piece;
    }
    assert args[..|args|] == args;
    out := out + "\n";
  }

  lemma NextArgument<V>(args: seq<Arg<V>>, i: nat, quote: string -> string)
    requires i < |args|
    ensures BulletsText(Runs(args[..i + 1]), quote) == BulletsText(Runs(args[..i]), quote) +
      if i == 0 || args[i - 1].val != args[i].val then "\n  - " + quote(args[i].name) else ", " + quote(args[i].name)
  {
    OneMoreArgument(args[..i + 1], quote);
    assert Init(args[..i + 1]) == args[..i] && Last(args[..i + 1]) == args[i];
  }

  lemma BulletSnoc<V>(run: seq<Arg<V>>, arg: Arg<V>, quote: string -> string)
    ensures BulletText(run + [arg], quote) ==
      BulletText(run, quote) + (if run == [] then "\n  - " else ", ") + quote(arg.name)
  {
    assert Init(run + [arg]) == run;
  }

  lemma BulletsSnoc<V>(runs: seq<seq<Arg<V>>>, run: seq<Arg<V>>, quote: string -> string)
    ensures BulletsText(runs + [run], quote) == BulletsText(runs, quote) + BulletText(run, quote)
  {
    assert Init(runs + [run]) == runs;
  }

  lemma OneMoreArgument<V>(args: seq<Arg<V>>, quote: string -> string)
    requires args != []
    ensures BulletsText(Runs(args), quote) == BulletsText(Runs(Init(args)), quote) +
      ((if JoinsLastRun(args) then ", " else "\n  - ") + quote(Last(args).name))
  {
    var runs, arg := Runs(Init(args)), Last(args);
    if JoinsLastRun(args) {
      BulletsSnoc(Init(runs), Last(runs) + [arg], quote);
      BulletSnoc(Last(runs), arg, quote);
      Concat3(BulletsText(Init(runs), quote), BulletText(Last(runs), quote), ", ", quote(arg.name));
    } else {
      BulletsSnoc(runs, [arg], quote);
      BulletSnoc([], arg, quote);
      assert [] + [arg] == [arg];
      assert "" + "\n  - " == "\n  - ";
    }
  }

  lemma Concat3(a: string, b: string, c: string, d: string)
    ensures a + (b + c + d) == a + b + (c + d)
  {
  }

  // A bullet of one entry, and one more entry in it.
  lemma BulletTexts<V>(run: seq<Arg<V>>, a: Arg<V>, quote: string -> string)
    ensures BulletText([a], quote) == "\n  - " + quote(a.name)
    ensures run != [] ==> BulletText(run + [a], quote) == BulletText(run, quote) + ", " + quote(a.name)
  {
    BulletSnoc([], a, quote);
    BulletSnoc(run, a, quote);
    assert [] + [a] == [a];
  }

  // Within a run the values are equal, and neighbouring runs differ.
  ghost predicate MaximalRuns<V>(runs: seq<seq<Arg<V>>>) {
    && (forall r :: 0 <= r < |runs| ==> OneValue(runs[r]))
    && (forall r :: 0 < r < |runs| ==> runs[r - 1][0].val != runs[r][0].val)
  }

  ghost predicate OneValue<V>(run: seq<Arg<V>>) {
    run != [] && forall i :: 0 <= i < |run| ==> run[i].val == run[0].val
  }

  // The bullets list every entry once, in order, and are exactly the maximal runs of equal values.
  lemma RunsAreMaximal<V>(args: seq<Arg<V>>)
    ensures Flatten(Runs(args)) == args
    ensures MaximalRuns(Runs(args))
  {
    RunsFlatten(args);
    RunsDiffer(args);
  }

  lemma {:induction false} RunsFlatten<V>(args: seq<Arg<V>>)
    ensures Flatten(Runs(args)) == args
  {
    if args != [] {
      RunsFlatten(Init(args));
      InitLast(args);
      if JoinsLastRun(args) {
        FlattenLonger(Runs(Init(args)), Last(args));
      } else {
        FlattenAnother(Runs(Init(args)), [Last(args)]);
      }
    }
  }

  lemma InitLast<T>(s: seq<T>)
    requires s != []
    ensures s == Init(s) + [Last(s)]
  {
  }

  lemma FlattenAnother<T>(ss: seq<seq<T>>, s: seq<T>)
    ensures Flatten(ss + [s]) == Flatten(ss) + s
  {
    assert Init(ss + [s]) == ss;
  }

  lemma FlattenLonger<T>(ss: seq<seq<T>>, x: T)
    requires ss != []
    ensures Flatten(Init(ss) + [Last(ss) + [x]]) == Flatten(ss) + [x]
  {
    FlattenAnother(Init(ss), Last(ss) + [x]);
  }

  lemma {:induction false} RunsDiffer<V>(args: seq<Arg<V>>)
    ensures MaximalRuns(Runs(args))
  {
    if args != [] {
      RunsDiffer(Init(args));
      if JoinsLastRun(args) {
        LongerRun(Runs(Init(args)), Last(args));
      } else {
        AnotherRun(Runs(Init(args)), Last(args));
      }
    }
  }

  lemma LongerRun<V>(runs: seq<seq<Arg<V>>>, arg: Arg<V>)
    requires MaximalRuns(runs) && runs != [] && Last(runs) != [] && Last(Last(runs)).val == arg.val
    ensures MaximalRuns(Init(runs) + [Last(runs) + [arg]])
  {
    assert OneValue(runs[|runs| - 1]);
    assert OneValue(Last(runs) + [arg]);
  }

  lemma AnotherRun<V>(runs: seq<seq<Arg<V>>>, arg: Arg<V>)
    requires MaximalRuns(runs) && (runs != [] ==> Last(runs) != [] && Last(Last(runs)).val != arg.val)
    ensures MaximalRuns(runs + [[arg]])
  {
    assert OneValue([arg]);
    assert runs != [] ==> OneValue(runs[|runs| - 1]);
  }

  // The values of the bullets, in order.
  function BulletValues<V(==)>(args: seq<Arg<V>>): seq<V> {
    if args == [] then []
    else if JoinsLastRun(args) then BulletValues(Init(args))
    else BulletValues(Init(args)) + [Last(args).val]
  }

  lemma {:induction false} BulletValuesOfRuns<V>(args: seq<Arg<V>>)
    ensures |BulletValues(args)| == |Runs(args)|
    ensures forall r :: 0 <= r < |Runs(args)| ==> Runs(args)[r] != [] && Runs(args)[r][0].val == BulletValues(args)[r]
  {
    if args != [] {
      BulletValuesOfRuns(Init(args));
    }
  }

  // Synonyms that follow each other.
  ghost predicate Contiguous<V>(args: seq<Arg<V>>) {
    forall i, j, k :: 0 <= i < j < k < |args| && args[i].val == args[k].val ==> args[j].val == args[i].val
  }

  ghost predicate CarriedBy<V>(val: V, args: seq<Arg<V>>) {
    exists i :: 0 <= i < |args| && args[i].val == val
  }

  // The bullets' values are the values of the table, and when synonyms follow each other each
  // value has one bullet.
  lemma {:induction false} OneBulletPerValue<V>(args: seq<Arg<V>>)
    ensures forall val :: val in BulletValues(args) <==> CarriedBy(val, args)
    ensures Contiguous(args) ==>
      forall r, q :: 0 <= r < q < |BulletValues(args)| ==> BulletValues(args)[r] != BulletValues(args)[q]
  {
    if args != [] {
      var init, val := Init(args), Last(args).val;
      OneBulletPerValue(init);
      forall v
        ensures CarriedBy(v, args) <==> CarriedBy(v, init) || v == val
      {
        assert forall i :: 0 <= i < |init| ==> args[i] == init[i];
      }
      if JoinsLastRun(args) {
        assert init[|init| - 1].val == val;
        assert CarriedBy(val, init);
      } else if Contiguous(args) && CarriedBy(val, init) {
        assert false;
      }
    }
  }
}
