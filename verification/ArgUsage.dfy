// The documentation half of an argmatch group (include/argmatch.h): the column calculator and
// the word-wrapping usage printer, and how far the two agree about widths. Text that the
// program writes to a stream is a string here; translation is the identity.
module ArgUsage {
  import opened Common
  import opened ArgMatch

  datatype Doc = Doc(arg: string, doc: string)

  const MAX_DOC_COL := 20

  // The names of the entries that carry the value, in table order.
  function Synonyms<V(==)>(args: seq<Arg<V>>, val: V): seq<string> {
    if args == [] then []
    else if Last(args).val == val then Synonyms(Init(args), val) + [Last(args).name]
    else Synonyms(Init(args), val)
  }

  // What is displayed for a documented argument: a genuine one with all its synonyms, a pseudo
  // argument by itself.
  function DisplayedNames<V(==)>(args: seq<Arg<V>>, arg: string): (names: seq<string>)
    ensures names != []
  {
    var choice := ChoiceOf(args, arg);
    if choice < 0 then [arg]
    else
      IsOwnSynonym(args, choice);
      Synonyms(args, args[choice].val)
  }

  lemma {:induction false} IsOwnSynonym<V>(args: seq<Arg<V>>, i: nat)
    requires i < |args|
    ensures args[i].name in Synonyms(args, args[i].val)
  {
    if i < |args| - 1 {
      IsOwnSynonym(Init(args), i);
    }
  }

  // ----- the column calculator -----

  // The calculator's count for a list of names.
  function CountedWidth(names: seq<string>): nat {
    if names == [] then 4
    else
      var col := CountedWidth(Init(names));
      col + (if col == 4 then 0 else 2) + |Last(names)|
  }

  // The calculator's count for a documented argument.
  function EntryWidth<V(==)>(args: seq<Arg<V>>, arg: string): nat {
    CountedWidth(DisplayedNames(args, arg))
  }

  function WidestEntry<V(==)>(args: seq<Arg<V>>, docs: seq<Doc>): nat {
    if docs == [] then 0
    else Max(WidestEntry(args, Init(docs)), EntryWidth(args, Last(docs).arg))
  }

  function Max(a: nat, b: nat): nat {
    if a >= b then a else b
  }

  function Min(a: nat, b: nat): nat {
    if a <= b then a else b
  }

  function DocColOf<V(==)>(args: seq<Arg<V>>, docs: seq<Doc>): nat {
    if docs == [] then MAX_DOC_COL else Min(MAX_DOC_COL, WidestEntry(args, docs))
  }

  method DocCol<V(==)>(args: seq<Arg<V>>, docs: seq<Doc>) returns (res: nat)
    ensures res == DocColOf(args, docs)
  {
    res := 0;
    for i := 0 to |docs|
      invariant res == Min(MAX_DOC_COL, WidestEntry(args, docs[..i]))
      invariant i > 0 ==> res >= 4
    {
      assert Init(docs[..i + 1]) == docs[..i];
      var col := CountEntry(args, docs[i].arg);
      CountedWidthAtLeast4(DisplayedNames(args, docs[i].arg));
      if res <= col {
        res := if col <= 20 then col else 20;
      }
    }
    assert docs[..|docs|] == docs;
    return if res != 0 then res else 20;
  }

  // The body of the calculator's loop.
  method CountEntry<V(==)>(args: seq<Arg<V>>, arg: string) returns (col: nat)
    ensures col == EntryWidth(args, arg)
  {
    col := 4;
    var ival := Choice(args, arg);
    if ival < 0 {
      col := col + |arg|;
      CountedPseudo(arg);
    } else {
      for j := 0 to |args|
        invariant col == CountedWidth(Synonyms(args[..j], args[ival].val))
      {
        SynonymsStep(args, j, args[ival].val);
        if args[ival].val == args[j].val {
          col := col + (if col == 4 then 0 else 2) + |args[j].name|;
        }
      }
      assert args[..|args|] == args;
    }
  }

  lemma {:induction false} CountedWidthAtLeast4(names: seq<string>)
    ensures CountedWidth(names) >= 4
  {
    if names != [] {
      CountedWidthAtLeast4(Init(names));
    }
  }

  lemma CountedPseudo(arg: string)
    ensures CountedWidth([arg]) == 4 + |arg|
  {
    assert Init([arg]) == [];
  }

  lemma SynonymsStep<V>(args: seq<Arg<V>>, j: nat, val: V)
    requires j < |args|
    ensures Synonyms(args[..j + 1], val) ==
      if args[j].val == val then Synonyms(args[..j], val) + [args[j].name] else Synonyms(args[..j], val)
    ensures CountedWidth(Synonyms(args[..j + 1], val)) ==
      var col := CountedWidth(Synonyms(args[..j], val));
      if args[j].val == val then col + (if col == 4 then 0 else 2) + |args[j].name| else col
  {
    assert Init(args[..j + 1]) == args[..j];
    var names := Synonyms(args[..j], val);
    assert Init(names + [args[j].name]) == names;
  }

  // ----- the printer -----

  // The columns a line of names takes.
  function LineWidth(names: seq<string>): nat {
    if names == [] then 0 else LineWidth(Init(names)) + 2 + |Last(names)|
  }

  function LineText(names: seq<string>): (t: string)
    ensures |t| == LineWidth(names)
  {
    if names == [] then ""
    else LineText(Init(names)) + (if |names| == 1 then " " else ",") + (" " + Last(names))
  }

  // A further name goes on the current line unless it would pass the screen's width.
  function AddName(lines: seq<seq<string>>, name: string, screenWidth: nat): seq<seq<string>> {
    if lines == [] then [[name]]
    else if screenWidth < LineWidth(Last(lines)) + 2 + |name| then lines + [[name]]
    else Init(lines) + [Last(lines) + [name]]
  }

  function Wrap(names: seq<string>, screenWidth: nat): (lines: seq<seq<string>>)
    ensures names != [] ==> lines != []
  {
    if names == [] then [] else AddName(Wrap(Init(names), screenWidth), Last(names), screenWidth)
  }

  // Lines of names, each but the last ended by a comma.
  function LinesText(lines: seq<seq<string>>): string {
    if lines == [] then ""
    else LinesText(Init(lines)) + (if |lines| == 1 then "" else ",\n") + LineText(Last(lines))
  }

  function LastWidth(lines: seq<seq<string>>): nat {
    if lines == [] then 0 else LineWidth(Last(lines))
  }

  function Blanks(n: nat): string {
    seq(n, i => ' ')
  }

  // What separates the names from the documentation text.
  function Gap(docCol: nat, col: nat): string {
    if docCol < col + 2 then "\n" + Blanks(docCol) else Blanks(docCol - col)
  }

  function DisplayedLines<V(==)>(args: seq<Arg<V>>, arg: string, screenWidth: nat): seq<seq<string>> {
    if ChoiceOf(args, arg) < 0 then [[arg]] else Wrap(DisplayedNames(args, arg), screenWidth)
  }

  // Everything printed of an entry before its documentation text.
  function EntryHead<V(==)>(args: seq<Arg<V>>, arg: string, docCol: nat, screenWidth: nat): string {
    var lines := DisplayedLines(args, arg, screenWidth);
    LinesText(lines) + Gap(docCol, LastWidth(lines))
  }

  function EntryText<V(==)>(args: seq<Arg<V>>, doc: Doc, docCol: nat, screenWidth: nat): string {
    EntryHead(args, doc.arg, docCol, screenWidth) + doc.doc + "\n"
  }

  function EntriesText<V(==)>(args: seq<Arg<V>>, docs: seq<Doc>, docCol: nat, screenWidth: nat): string {
    if docs == [] then ""
    else
      EntriesText(args, Init(docs), docCol, screenWidth) + EntryText(args, Last(docs), docCol, screenWidth)
  }

  function Paragraph(text: Option<string>): string {
    match text
    case None => ""
    case Some(t) => t + "\n"
  }

  // The inner loop: print the synonyms of a value and return the column reached.
  method PrintSynonyms<V(==)>(args: seq<Arg<V>>, val: V, screenWidth: nat) returns (out: string, col: nat)
    ensures out == LinesText(Wrap(Synonyms(args, val), screenWidth))
    ensures col == LastWidth(Wrap(Synonyms(args, val), screenWidth))
  {
    out, col := "", 0;
    var first := true;
    for j := 0 to |args|
      invariant out == LinesText(Wrap(Synonyms(args[..j], val), screenWidth))
      invariant col == LastWidth(Wrap(Synonyms(args[..j], val), screenWidth))
      invariant first <==> Wrap(Synonyms(args[..j], val), screenWidth) == []
    {
      SynonymsStep(args, j, val);
      if val == args[j].val {
        NextName(Synonyms(args[..j], val), args[j].name, screenWidth);
        if !first && screenWidth < col + 2 + |args[j].name| {
          out, col, first := out + ",\n", 0, true;
        }
        if first {
          out, col, first := out + " ", col + 1, false;
        } else {
          out, col := out + ",", col + 1;
        }
        out, col := out + (" " + args[j].name), col + 1 + |args[j].name|;
      }
    }
    assert args[..|args|] == args;
  }

  lemma LineSnoc(line: seq<string>, name: string)
    ensures LineText(line + [name]) == LineText(line) + (if line == [] then " " else ",") + (" " + name)
    ensures LineWidth(line + [name]) == LineWidth(line) + 2 + |name|
  {
    assert Init(line + [name]) == line;
  }

  lemma LinesSnoc(lines: seq<seq<string>>, line: seq<string>)
    ensures LinesText(lines + [line]) == LinesText(lines) + (if lines == [] then "" else ",\n") + LineText(line)
  {
    assert Init(lines + [line]) == lines;
  }

  lemma OneNameLine(name: string)
    ensures LineText([name]) == "  " + name && LineWidth([name]) == 2 + |name|
  {
    LineSnoc([], name);
    assert [] + [name] == [name];
  }

  // What printing one more name adds to the text, and the column it leads to.
  lemma NextName(names: seq<string>, name: string, screenWidth: nat)
    ensures var lines, more := Wrap(names, screenWidth), Wrap(names + [name], screenWidth);
      var text := LinesText(lines);
      && more != []
      && if lines == [] then
           LinesText(more) == text + " " + (" " + name) && LastWidth(more) == 2 + |name|
         else if screenWidth < LastWidth(lines) + 2 + |name| then
           LinesText(more) == text + ",\n" + " " + (" " + name) && LastWidth(more) == 2 + |name|
         else
           LinesText(more) == text + "," + (" " + name) && LastWidth(more) == LastWidth(lines) + 2 + |name|
  {
    assert Init(names + [name]) == names;
    var lines := Wrap(names, screenWidth);
    if lines == [] {
      FirstName(name);
    } else if screenWidth < LastWidth(lines) + 2 + |name| {
      NameOnNewLine(lines, name);
    } else {
      WrapNonempty(names, screenWidth);
      ExtendLastLine(lines, name);
    }
  }

  lemma FirstName(name: string)
    ensures LinesText([[name]]) == "" + " " + (" " + name) && LineWidth([name]) == 2 + |name|
  {
    OneNameLine(name);
    LinesSnoc([], [name]);
    assert [] + [[name]] == [[name]];
  }

  lemma NameOnNewLine(lines: seq<seq<string>>, name: string)
    requires lines != []
    ensures LinesText(lines + [[name]]) == LinesText(lines) + ",\n" + " " + (" " + name)
    ensures LineWidth([name]) == 2 + |name|
  {
    OneNameLine(name);
    LinesSnoc(lines, [name]);
    SplitBlanks(LinesText(lines) + ",\n", name);
  }

  lemma SplitBlanks(a: string, name: string)
    ensures a + ("  " + name) == a + " " + (" " + name)
  {
  }

  lemma ExtendLastLine(lines: seq<seq<string>>, name: string)
    requires lines != [] && Last(lines) != []
    ensures LinesText(Init(lines) + [Last(lines) + [name]]) == LinesText(lines) + "," + (" " + name)
    ensures LineWidth(Last(lines) + [name]) == LineWidth(Last(lines)) + 2 + |name|
  {
    var line := Last(lines);
    LinesSnoc(Init(lines), line + [name]);
    LineSnoc(line, name);
    var before := LinesText(Init(lines)) + (if |lines| == 1 then "" else ",\n");
    Regroup(before, LineText(line), ",", " " + name);
  }

  lemma Regroup(a: string, b: string, c: string, d: string)
    ensures a + (b + c + d) == a + b + c + d
  {
  }

  lemma {:induction false} WrapNonempty(names: seq<string>, screenWidth: nat)
    ensures forall l :: 0 <= l < |Wrap(names, screenWidth)| ==> Wrap(names, screenWidth)[l] != []
  {
    if names != [] {
      WrapNonempty(Init(names), screenWidth);
    }
  }

  // An entry up to its documentation, which is separated by at least two blanks.
  method PrintHead<V(==)>(args: seq<Arg<V>>, arg: string, docCol: nat, screenWidth: nat) returns (head: string)
    ensures head == EntryHead(args, arg, docCol, screenWidth)
  {
    var names, col := "", 0;
    var ival := Choice(args, arg);
    if ival < 0 {
      names, col := "  " + arg, 2 + |arg|;
      PseudoEntry(arg);
    } else {
      names, col := PrintSynonyms(args, args[ival].val, screenWidth);
    }
    if docCol < col + 2 {
      head := names + ("\n" + Blanks(docCol));
    } else {
      head := names + Blanks(docCol - col);
    }
  }

  method Usage<V(==)>(
      args: seq<Arg<V>>, docs: seq<Doc>, pre: Option<string>, post: Option<string>, screenWidth: nat)
    returns (out: string)
    ensures out == Paragraph(pre) + EntriesText(args, docs, DocColOf(args, docs), screenWidth) + Paragraph(post)
    ensures pre.Some? ==> pre.value + "\n" <= out
    ensures post.Some? ==> |post.value| < |out| && out[|out| - |post.value| - 1..] == post.value + "\n"
    ensures pre == None && post == None && docs == [] ==> out == ""
  {
    out := Paragraph(pre);
    ghost var entries := "";
    var docCol := DocCol(args, docs);
    for i := 0 to |docs|
      invariant entries == EntriesText(args, docs[..i], docCol, screenWidth)
      invariant out == Paragraph(pre) + entries
    {
      var head := PrintHead(args, docs[i].arg, docCol, screenWidth);
      EntriesStep(args, docs, i, docCol, screenWidth);
      var entry := head + docs[i].doc + "\n";
      Associate(Paragraph(pre), entries, entry);
      out, entries := out + entry, entries + entry;
    }
    assert docs[..|docs|] == docs;
    out := out + Paragraph(post);
  }

  lemma EntriesStep<V>(args: seq<Arg<V>>, docs: seq<Doc>, i: nat, docCol: nat, screenWidth: nat)
    requires i < |docs|
    ensures EntriesText(args, docs[..i + 1], docCol, screenWidth) ==
      EntriesText(args, docs[..i], docCol, screenWidth) + EntryText(args, docs[i], docCol, screenWidth)
  {
    assert Init(docs[..i + 1]) == docs[..i];
  }

  lemma PseudoEntry(arg: string)
    ensures LinesText([[arg]]) == "  " + arg
    ensures LastWidth([[arg]]) == 2 + |arg|
  {
    assert Init([arg]) == [] && Init([[arg]]) == [];
  }

  // ----- calculator and printer -----

  // The calculator counts the unwrapped names and the two blanks after them exactly as the
  // printer prints them, unless an entry has several names and the first of them is empty.
  lemma {:induction false} CalculatorAgreesWithPrinter(names: seq<string>)
    requires names != []
    ensures CountedWidth(names) <= LineWidth(names) + 2
    ensures CountedWidth(names) == LineWidth(names) + 2 <==> |names| == 1 || names[0] != ""
  {
    if |names| == 1 {
      assert Init(names) == [];
    } else {
      CalculatorAgreesWithPrinter(Init(names));
      LineWidthAtLeast2(Init(names));
      CountedWidthAtLeast4(Init(names));
    }
  }

  lemma LineWidthAtLeast2(names: seq<string>)
    requires names != []
    ensures LineWidth(names) >= 2 + |Last(names)|
  {
  }

  // Where the value's entries are in the table.
  function Positions<V(==)>(args: seq<Arg<V>>, val: V): seq<nat> {
    if args == [] then []
    else if Last(args).val == val then Positions(Init(args), val) + [|args| - 1]
    else Positions(Init(args), val)
  }

  // A genuine entry displays each entry with its value exactly once, in table order.
  lemma {:induction false} SynonymsAreDisplayed<V>(args: seq<Arg<V>>, val: V)
    ensures var at := Positions(args, val);
      && (forall k, l :: 0 <= k < l < |at| ==> at[k] < at[l])
      && (forall i :: i in at <==> 0 <= i < |args| && args[i].val == val)
      && |Synonyms(args, val)| == |at|
      && (forall k :: 0 <= k < |at| ==> at[k] < |args| && Synonyms(args, val)[k] == args[at[k]].name)
  {
    if args != [] {
      SynonymsAreDisplayed(Init(args), val);
      var before: seq<nat> := Positions(Init(args), val);
      assert forall k :: 0 <= k < |before| ==> before[k] in before;
    }
  }

  // What an entry displays: an argument that chooses nothing itself, any other the names of exactly
  // the entries with the chosen value, in table order and each once.
  lemma EntryDisplays<V>(args: seq<Arg<V>>, arg: string) returns (at: seq<nat>)
    ensures ChoiceOf(args, arg) < 0 ==> DisplayedNames(args, arg) == [arg]
    ensures ChoiceOf(args, arg) >= 0 ==>
      && (forall k, l :: 0 <= k < l < |at| ==> at[k] < at[l])
      && (forall i :: i in at <==> 0 <= i < |args| && args[i].val == args[ChoiceOf(args, arg)].val)
      && |DisplayedNames(args, arg)| == |at|
      && (forall k :: 0 <= k < |at| ==> at[k] < |args| && DisplayedNames(args, arg)[k] == args[at[k]].name)
  {
    at := [];
    if ChoiceOf(args, arg) >= 0 {
      at := Positions(args, args[ChoiceOf(args, arg)].val);
      SynonymsAreDisplayed(args, args[ChoiceOf(args, arg)].val);
    }
  }

  // Wrapping keeps all names in order; a line passes the screen's width, not counting the comma
  // that may end it, only if it holds a single name.
  lemma {:induction false} WrapKeepsNames(names: seq<string>, screenWidth: nat)
    ensures Flatten(Wrap(names, screenWidth)) == names
    ensures AllFit(Wrap(names, screenWidth), screenWidth)
  {
    if names != [] {
      WrapKeepsNames(Init(names), screenWidth);
      AddNameKeeps(Wrap(Init(names), screenWidth), Last(names), screenWidth);
    }
  }

  lemma AddNameKeeps(lines: seq<seq<string>>, name: string, screenWidth: nat)
    requires AllFit(lines, screenWidth)
    ensures Flatten(AddName(lines, name, screenWidth)) == Flatten(lines) + [name]
    ensures AllFit(AddName(lines, name, screenWidth), screenWidth)
  {
    OneNameLine(name);
    if lines == [] || screenWidth < LineWidth(Last(lines)) + 2 + |name| {
      assert [] + [[name]] == [[name]];
      assert Init(lines + [[name]]) == lines;
    } else {
      LineSnoc(Last(lines), name);
      assert Init(Init(lines) + [Last(lines) + [name]]) == Init(lines);
    }
  }

  ghost predicate AllFit(lines: seq<seq<string>>, screenWidth: nat) {
    forall l :: 0 <= l < |lines| ==> LineFits(lines[l], screenWidth)
  }

  ghost predicate LineFits(line: seq<string>, screenWidth: nat) {
    line != [] && (LineWidth(line) <= screenWidth || (|line| == 1 && LineWidth(line) == 2 + |line[0]|))
  }

  // A new line is begun only for a name that does not fit on the line before it.
  lemma {:induction false} WrapIsGreedy(names: seq<string>, screenWidth: nat)
    ensures IsGreedy(Wrap(names, screenWidth), screenWidth)
  {
    if names != [] {
      WrapIsGreedy(Init(names), screenWidth);
      WrapNonempty(Init(names), screenWidth);
      AddNameIsGreedy(Wrap(Init(names), screenWidth), Last(names), screenWidth);
    }
  }

  ghost predicate IsGreedy(lines: seq<seq<string>>, screenWidth: nat) {
    forall l :: 0 < l < |lines| ==> lines[l] != [] && screenWidth < LineWidth(lines[l - 1]) + 2 + |lines[l][0]|
  }

  lemma AddNameIsGreedy(lines: seq<seq<string>>, name: string, screenWidth: nat)
    requires IsGreedy(lines, screenWidth) && forall l :: 0 <= l < |lines| ==> lines[l] != []
    ensures IsGreedy(AddName(lines, name, screenWidth), screenWidth)
  {
  }

  // Names that fit on the screen's width are not wrapped, nor is a single name.
  lemma {:induction false} FittingNamesStayTogether(names: seq<string>, screenWidth: nat)
    requires |names| == 1 || (names != [] && LineWidth(names) <= screenWidth)
    ensures Wrap(names, screenWidth) == [names]
  {
    if |names| == 1 {
      assert Init(names) == [] && names == [Last(names)];
    } else {
      FittingNamesStayTogether(Init(names), screenWidth);
      assert Last([Init(names)]) == Init(names) && Init([Init(names)]) == [];
      assert Init(names) + [Last(names)] == names;
    }
  }

  // How two names are printed: on one line if they fit.
  lemma WrapTwo(a: string, b: string, screenWidth: nat)
    ensures LinesText(Wrap([a, b], screenWidth)) ==
      if screenWidth < 4 + |a| + |b| then ("  " + a) + ",\n" + ("  " + b) else ("  " + a) + "," + (" " + b)
  {
    WrapOne(a, screenWidth);
    assert Init([a, b]) == [a] && Last([[a]]) == [a] && Init([[a]]) == [];
    OneNameLine(a);
    if screenWidth < 4 + |a| + |b| {
      assert Wrap([a, b], screenWidth) == [[a]] + [[b]];
      OneNameLine(b);
      LinesSnoc([[a]], [b]);
      OneLineText(a);
    } else {
      assert Wrap([a, b], screenWidth) == [] + [[a] + [b]];
      LineSnoc([a], b);
      LinesSnoc([], [a] + [b]);
    }
  }

  lemma WrapOne(a: string, screenWidth: nat)
    ensures Wrap([a], screenWidth) == [[a]]
  {
    assert Init([a]) == [];
  }

  lemma OneLineText(a: string)
    ensures LinesText([[a]]) == "  " + a
  {
    OneNameLine(a);
    LinesSnoc([], [a]);
    assert [] + [[a]] == [[a]];
  }

  // The column after a text that starts in column 0.
  function Column(t: string): nat {
    if t == "" || Last(t) == '\n' then 0 else Column(Init(t)) + 1
  }

  predicate OneLine(t: string) {
    '\n' !in t
  }

  lemma {:induction false} ColumnOfConcat(t: string, u: string)
    requires OneLine(u)
    ensures Column(t + u) == Column(t) + |u|
  {
    if u == "" {
      assert t + u == t;
    } else {
      assert Last(u) in u && Init(t + u) == t + Init(u);
      ColumnOfConcat(t, Init(u));
    }
  }

  lemma ColumnAfterNewline(t: string)
    ensures Column(t + "\n") == 0
  {
  }

  ghost predicate AllOneLine(names: seq<string>) {
    forall i :: 0 <= i < |names| ==> OneLine(names[i])
  }

  lemma {:induction false} LineTextIsOneLine(names: seq<string>)
    requires AllOneLine(names)
    ensures OneLine(LineText(names))
  {
    if names != [] {
      LineTextIsOneLine(Init(names));
    }
  }

  // After the lines of names the output is in the column that the printer has counted.
  lemma {:induction false} ColumnAfterLines(before: string, lines: seq<seq<string>>)
    requires Column(before) == 0
    requires forall l :: 0 <= l < |lines| ==> AllOneLine(lines[l])
    ensures Column(before + LinesText(lines)) == LastWidth(lines)
  {
    if lines == [] {
      assert before + "" == before;
    } else {
      var start := LinesText(Init(lines)) + if |lines| == 1 then "" else ",\n";
      assert before + LinesText(lines) == (before + start) + LineText(Last(lines));
      LineTextIsOneLine(Last(lines));
      if |lines| == 1 {
        assert before + start == before;
      } else {
        assert before + start == (before + LinesText(Init(lines)) + ",") + "\n";
        ColumnAfterNewline(before + LinesText(Init(lines)) + ",");
      }
      ColumnOfConcat(before + start, LineText(Last(lines)));
    }
  }

  function Longest(names: seq<string>): nat {
    if names == [] then 0 else Max(Longest(Init(names)), |Last(names)|)
  }

  lemma {:induction false} LongestIsLongest(names: seq<string>, name: string)
    requires name in names
    ensures |name| <= Longest(names)
  {
    if name != Last(names) {
      LongestIsLongest(Init(names), name);
    }
  }

  // Lines of at most width columns, with the commas that end them, take one column more.
  lemma {:induction false} LinesStayWithin(lines: seq<seq<string>>, width: nat, t: string)
    requires forall l :: 0 <= l < |lines| ==> AllOneLine(lines[l]) && LineWidth(lines[l]) <= width
    requires t <= LinesText(lines)
    ensures Column(t) <= width + 1
  {
    if lines != [] {
      var before := LinesText(Init(lines));
      if |t| <= |before| {
        assert t == LinesText(lines)[..|t|] == before[..|t|];
        LinesStayWithin(Init(lines), width, t);
      } else {
        LastLineStaysWithin(lines, width, t);
      }
    }
  }

  lemma LastLineStaysWithin(lines: seq<seq<string>>, width: nat, t: string)
    requires forall l :: 0 <= l < |lines| ==> AllOneLine(lines[l]) && LineWidth(lines[l]) <= width
    requires lines != [] && t <= LinesText(lines) && |t| > |LinesText(Init(lines))|
    ensures Column(t) <= width + 1
  {
    var before, line := LinesText(Init(lines)), LineText(Last(lines));
    LineTextIsOneLine(Last(lines));
    assert |line| <= width;
    if |lines| == 1 {
      OnlyLine(lines);
      PrefixOfLine("", line, t);
    } else {
      LastLineText(lines);
      ColumnOfLines(Init(lines));
      assert LastWidth(Init(lines)) == LineWidth(lines[|lines| - 2]);
      assert t <= before + ",\n" + line && before < t by {
        assert t == LinesText(lines)[..|t|];
      }
      EndOfLine(before, line, t);
    }
  }

  lemma OnlyLine(lines: seq<seq<string>>)
    requires |lines| == 1
    ensures LinesText(lines) == "" + LineText(lines[0])
  {
    assert LinesText(Init(lines)) == "";
    assert LinesText(lines) == "" + "" + LineText(lines[0]);
  }

  lemma ColumnOfLines(lines: seq<seq<string>>)
    requires forall l :: 0 <= l < |lines| ==> AllOneLine(lines[l])
    ensures Column(LinesText(lines)) == LastWidth(lines)
  {
    ColumnAfterLines("", lines);
    assert "" + LinesText(lines) == LinesText(lines);
  }

  lemma LastLineText(lines: seq<seq<string>>)
    requires |lines| > 1
    ensures LinesText(lines) == LinesText(Init(lines)) + ",\n" + LineText(Last(lines))
  {
  }

  lemma PrefixOfLine(before: string, line: string, t: string)
    requires OneLine(line) && Column(before) == 0 && before <= t <= before + line
    ensures Column(t) <= |line|
  {
    var u := t[|before|..];
    assert t == before + u && OneLine(u);
    ColumnOfConcat(before, u);
  }

  lemma EndOfLine(before: string, line: string, t: string)
    requires OneLine(line) && before < t <= before + ",\n" + line
    ensures Column(t) <= Max(Column(before) + 1, |line|)
  {
    if |t| == |before| + 1 {
      assert t == before + ",";
      ColumnOfConcat(before, ",");
    } else {
      ColumnAfterNewline(before + ",");
      assert before + ",\n" == (before + ",") + "\n";
      PrefixOfLine(before + ",\n", line, t);
    }
  }

  lemma WrappedLineFits(names: seq<string>, screenWidth: nat, l: nat)
    requires l < |Wrap(names, screenWidth)|
    ensures LineWidth(Wrap(names, screenWidth)[l]) <= Max(screenWidth, 2 + Longest(names))
  {
    var line := Wrap(names, screenWidth)[l];
    WrapKeepsNames(names, screenWidth);
    FlattenParts(Wrap(names, screenWidth), l, 0);
    LongestIsLongest(names, line[0]);
  }

  // While names are printed the output never passes the screen's width, or the width of the
  // longest name, by more than the comma that ends a line.
  lemma NamesStayOnScreen(names: seq<string>, screenWidth: nat, t: string)
    requires AllOneLine(names) && t <= LinesText(Wrap(names, screenWidth))
    ensures Column(t) <= Max(screenWidth, 2 + Longest(names)) + 1
  {
    var lines, width := Wrap(names, screenWidth), Max(screenWidth, 2 + Longest(names));
    WrapKeepsNames(names, screenWidth);
    FlattenedPrintable(lines);
    forall l | 0 <= l < |lines|
      ensures LineWidth(lines[l]) <= width
    {
      WrappedLineFits(names, screenWidth, l);
    }
    LinesStayWithin(lines, width, t);
  }

  // The table's names, and the documented arguments, hold no line break.
  ghost predicate Printable<V>(args: seq<Arg<V>>, docs: seq<Doc>) {
    && (forall i :: 0 <= i < |args| ==> OneLine(args[i].name))
    && (forall i :: 0 <= i < |docs| ==> OneLine(docs[i].arg))
  }

  lemma {:induction false} FlattenParts<T>(ss: seq<seq<T>>, l: nat, i: nat)
    requires l < |ss| && i < |ss[l]|
    ensures ss[l][i] in Flatten(ss)
  {
    if l == |ss| - 1 {
      assert ss[l][i] in Last(ss);
    } else {
      FlattenParts(Init(ss), l, i);
    }
  }

  lemma DisplayedLinesPrintable<V>(args: seq<Arg<V>>, docs: seq<Doc>, d: nat, screenWidth: nat)
    requires Printable(args, docs) && d < |docs|
    ensures var lines := DisplayedLines(args, docs[d].arg, screenWidth);
      lines != [] && forall l :: 0 <= l < |lines| ==> AllOneLine(lines[l])
  {
    var choice := ChoiceOf(args, docs[d].arg);
    if choice >= 0 {
      var names := Synonyms(args, args[choice].val);
      SynonymsAreDisplayed(args, args[choice].val);
      WrapKeepsNames(names, screenWidth);
      assert choice in Positions(args, args[choice].val);
      FlattenedPrintable(Wrap(names, screenWidth));
    }
  }

  lemma FlattenedPrintable(lines: seq<seq<string>>)
    requires AllOneLine(Flatten(lines))
    ensures forall l :: 0 <= l < |lines| ==> AllOneLine(lines[l])
  {
    forall l, i | 0 <= l < |lines| && 0 <= i < |lines[l]|
      ensures OneLine(lines[l][i])
    {
      FlattenParts(lines, l, i);
    }
  }

  // The gap brings the output from the end of the names to the documentation column, and ends
  // with at least two blanks.
  lemma GapReachesColumn(before: string, docCol: nat)
    requires docCol >= 2
    ensures Column(before + Gap(docCol, Column(before))) == docCol
    ensures |Gap(docCol, Column(before))| >= 2
    ensures var gap := Gap(docCol, Column(before)); gap[|gap| - 2..] == "  "
  {
    var col := Column(before);
    if docCol < col + 2 {
      assert before + Gap(docCol, col) == (before + "\n") + Blanks(docCol);
      ColumnAfterNewline(before);
      ColumnOfConcat(before + "\n", Blanks(docCol));
    } else {
      ColumnOfConcat(before, Blanks(docCol - col));
    }
  }

  lemma {:induction false} WidestIsWidest<V>(args: seq<Arg<V>>, docs: seq<Doc>, d: nat)
    requires d < |docs|
    ensures 4 <= EntryWidth(args, docs[d].arg) <= WidestEntry(args, docs)
  {
    CountedWidthAtLeast4(DisplayedNames(args, docs[d].arg));
    if d < |docs| - 1 {
      WidestIsWidest(args, Init(docs), d);
    }
  }

  lemma {:induction false} WidestIsReached<V>(args: seq<Arg<V>>, docs: seq<Doc>) returns (w: nat)
    requires docs != []
    ensures w < |docs| && EntryWidth(args, docs[w].arg) == WidestEntry(args, docs)
  {
    w := |docs| - 1;
    if WidestEntry(args, Init(docs)) > EntryWidth(args, Last(docs).arg) {
      w := WidestIsReached(args, Init(docs));
    }
  }

  // The leftmost possible column, but no more than 20: a smaller column holds every counted
  // entry, and to the left of the column some entry would not leave room for two blanks.
  lemma DocColIsLeftmost<V>(args: seq<Arg<V>>, docs: seq<Doc>)
    ensures 4 <= DocColOf(args, docs) <= 20 && (docs == [] ==> DocColOf(args, docs) == 20)
    ensures DocColOf(args, docs) < 20 ==>
      forall d :: 0 <= d < |docs| ==> EntryWidth(args, docs[d].arg) <= DocColOf(args, docs)
    ensures docs == [] ||
      exists d :: 0 <= d < |docs| && DocColOf(args, docs) <= LineWidth(DisplayedNames(args, docs[d].arg)) + 2
  {
    forall d | 0 <= d < |docs|
      ensures 4 <= EntryWidth(args, docs[d].arg) <= WidestEntry(args, docs)
    {
      WidestIsWidest(args, docs, d);
    }
    if docs != [] {
      var w := WidestIsReached(args, docs);
      CalculatorAgreesWithPrinter(DisplayedNames(args, docs[w].arg));
    }
  }

  // Every documentation text starts exactly in the calculated column, behind at least two
  // blanks, whatever is documented before it and however the names were wrapped.
  lemma DocStartsInColumn<V>(
      args: seq<Arg<V>>, docs: seq<Doc>, pre: Option<string>, post: Option<string>, screenWidth: nat, d: nat)
    requires Printable(args, docs) && d < |docs|
    ensures var docCol := DocColOf(args, docs);
      var before := Paragraph(pre) + EntriesText(args, docs[..d], docCol, screenWidth);
      var head := EntryHead(args, docs[d].arg, docCol, screenWidth);
      && before + head + docs[d].doc + "\n"
           <= Paragraph(pre) + EntriesText(args, docs, docCol, screenWidth) + Paragraph(post)
      && before + head + docs[d].doc + "\n" == Paragraph(pre) + EntriesText(args, docs[..d + 1], docCol, screenWidth)
      && Column(before) == 0
      && Column(before + head) == docCol
      && |head| >= 2 && head[|head| - 2..] == "  "
  {
    var docCol := DocColOf(args, docs);
    DocColIsLeftmost(args, docs);
    var before := Paragraph(pre) + EntriesText(args, docs[..d], docCol, screenWidth);
    ColumnBetweenEntries(args, docs, d, pre, docCol, screenWidth);
    HeadReachesColumn(args, docs, d, before, docCol, screenWidth);
    EntriesStep(args, docs, d, docCol, screenWidth);
    EntriesPrefix(args, docs, d + 1, docCol, screenWidth);
    PrefixOfOutput(Paragraph(pre), EntriesText(args, docs[..d], docCol, screenWidth),
                   EntryHead(args, docs[d].arg, docCol, screenWidth), docs[d].doc,
                   EntriesText(args, docs, docCol, screenWidth), Paragraph(post));
  }

  // The text consists of the entries and nothing else.
  lemma UsageEnds<V>(args: seq<Arg<V>>, docs: seq<Doc>, pre: Option<string>, docCol: nat, screenWidth: nat)
    ensures Paragraph(pre) + EntriesText(args, docs[..0], docCol, screenWidth) == Paragraph(pre)
    ensures EntriesText(args, docs[..|docs|], docCol, screenWidth) == EntriesText(args, docs, docCol, screenWidth)
    ensures Paragraph(None) == "" && forall t :: Paragraph(Some(t)) == t + "\n"
  {
    assert docs[..|docs|] == docs;
  }

  lemma PrefixOfOutput(a: string, b: string, c: string, d: string, whole: string, post: string)
    requires b + (c + d + "\n") <= whole
    ensures a + b + c + d + "\n" <= a + whole + post
    ensures a + b + c + d + "\n" == a + (b + (c + d + "\n"))
  {
    assert a + b + c + d + "\n" == a + (b + (c + d + "\n"));
  }

  // From column 0 an entry's names and gap lead to the documentation column.
  lemma HeadReachesColumn<V>(
      args: seq<Arg<V>>, docs: seq<Doc>, d: nat, before: string, docCol: nat, screenWidth: nat)
    requires Printable(args, docs) && d < |docs| && Column(before) == 0 && docCol >= 2
    ensures var head := EntryHead(args, docs[d].arg, docCol, screenWidth);
      Column(before + head) == docCol && |head| >= 2 && head[|head| - 2..] == "  "
  {
    var lines := DisplayedLines(args, docs[d].arg, screenWidth);
    DisplayedLinesPrintable(args, docs, d, screenWidth);
    ColumnAfterLines(before, lines);
    GapReachesColumn(before + LinesText(lines), docCol);
    Associate(before, LinesText(lines), Gap(docCol, LastWidth(lines)));
  }

  lemma ColumnBetweenEntries<V>(
      args: seq<Arg<V>>, docs: seq<Doc>, d: nat, pre: Option<string>, docCol: nat, screenWidth: nat)
    requires d <= |docs|
    ensures Column(Paragraph(pre) + EntriesText(args, docs[..d], docCol, screenWidth)) == 0
  {
    if d == 0 {
      assert Paragraph(pre) + "" == Paragraph(pre);
    } else {
      EntriesStep(args, docs, d - 1, docCol, screenWidth);
      var text := Paragraph(pre) + EntriesText(args, docs[..d], docCol, screenWidth);
      assert text[|text| - 1] == '\n';
    }
  }

  lemma {:induction false} EntriesPrefix<V>(args: seq<Arg<V>>, docs: seq<Doc>, d: nat, docCol: nat, screenWidth: nat)
    requires d <= |docs|
    ensures EntriesText(args, docs[..d], docCol, screenWidth) <= EntriesText(args, docs, docCol, screenWidth)
    decreases |docs| - d
  {
    if d == |docs| {
      assert docs[..d] == docs;
    } else {
      EntriesPrefix(args, docs, d + 1, docCol, screenWidth);
      EntriesStep(args, docs, d, docCol, screenWidth);
    }
  }

  // Behind a text that ends in column 0 columns are counted anew.
  lemma {:induction false} ColumnFromZero(before: string, t: string)
    requires Column(before) == 0
    ensures Column(before + t) == Column(t)
  {
    if t == "" {
      assert before + t == before;
    } else {
      assert Last(before + t) == Last(t) && Init(before + t) == before + Init(t);
      ColumnFromZero(before, Init(t));
    }
  }

  // An entry's lines are no wider than the screen, or than its longest name.
  lemma DisplayedLinesFit<V>(args: seq<Arg<V>>, docs: seq<Doc>, d: nat, screenWidth: nat, l: nat)
    requires Printable(args, docs) && d < |docs| && l < |DisplayedLines(args, docs[d].arg, screenWidth)|
    ensures LineWidth(DisplayedLines(args, docs[d].arg, screenWidth)[l]) <=
      Max(screenWidth, 2 + Longest(DisplayedNames(args, docs[d].arg)))
  {
    var arg, names := docs[d].arg, DisplayedNames(args, docs[d].arg);
    if ChoiceOf(args, arg) < 0 {
      OneNameLine(arg);
      LongestIsLongest(names, arg);
    } else {
      WrappedLineFits(names, screenWidth, l);
    }
  }

  // Wherever in the usage text the names of an entry are printed, the output never passes the
  // screen's width, or that of the entry's longest name, by more than the comma that ends a line.
  lemma UsageNamesStayOnScreen<V>(
      args: seq<Arg<V>>, docs: seq<Doc>, pre: Option<string>, post: Option<string>, screenWidth: nat, d: nat,
      u: string)
    requires Printable(args, docs) && d < |docs|
    requires u <= LinesText(DisplayedLines(args, docs[d].arg, screenWidth))
    ensures var before := Paragraph(pre) + EntriesText(args, docs[..d], DocColOf(args, docs), screenWidth);
      && before + u <= Paragraph(pre) + EntriesText(args, docs, DocColOf(args, docs), screenWidth) + Paragraph(post)
      && Column(before + u) <= Max(screenWidth, 2 + Longest(DisplayedNames(args, docs[d].arg))) + 1
  {
    var docCol, lines := DocColOf(args, docs), DisplayedLines(args, docs[d].arg, screenWidth);
    EntryNamesStayOnScreen(args, docs, screenWidth, d, u);
    DocStartsInColumn(args, docs, pre, post, screenWidth, d);
    ColumnFromZero(Paragraph(pre) + EntriesText(args, docs[..d], docCol, screenWidth), u);
    PrefixOfHead(Paragraph(pre) + EntriesText(args, docs[..d], docCol, screenWidth), u, LinesText(lines),
                 Gap(docCol, LastWidth(lines)), docs[d].doc,
                 Paragraph(pre) + EntriesText(args, docs, docCol, screenWidth) + Paragraph(post));
  }

  lemma EntryNamesStayOnScreen<V>(args: seq<Arg<V>>, docs: seq<Doc>, screenWidth: nat, d: nat, t: string)
    requires Printable(args, docs) && d < |docs|
    requires t <= LinesText(DisplayedLines(args, docs[d].arg, screenWidth))
    ensures Column(t) <= Max(screenWidth, 2 + Longest(DisplayedNames(args, docs[d].arg))) + 1
  {
    var lines := DisplayedLines(args, docs[d].arg, screenWidth);
    var width := Max(screenWidth, 2 + Longest(DisplayedNames(args, docs[d].arg)));
    DisplayedLinesPrintable(args, docs, d, screenWidth);
    forall l | 0 <= l < |lines|
      ensures LineWidth(lines[l]) <= width
    {
      DisplayedLinesFit(args, docs, d, screenWidth, l);
    }
    LinesStayWithin(lines, width, t);
  }

  lemma PrefixOfHead(before: string, u: string, names: string, gap: string, doc: string, whole: string)
    requires u <= names && before + (names + gap) + doc + "\n" <= whole
    ensures before + u <= whole
  {
    assert before + u <= before + (names + gap);
  }

  // The documentation follows on the names' own line whenever the unwrapped names and two blanks
  // fit in 20 columns, provided that several names fit on the screen and do not start with an
  // empty one.
  lemma DocOnNamesLine<V>(args: seq<Arg<V>>, docs: seq<Doc>, screenWidth: nat, d: nat)
    requires d < |docs|
    requires var names := DisplayedNames(args, docs[d].arg);
      && LineWidth(names) + 2 <= MAX_DOC_COL
      && (|names| == 1 || (LineWidth(names) <= screenWidth && names[0] != ""))
    ensures var names, docCol := DisplayedNames(args, docs[d].arg), DocColOf(args, docs);
      && LineWidth(names) + 2 <= docCol
      && EntryHead(args, docs[d].arg, docCol, screenWidth) == LineText(names) + Blanks(docCol - LineWidth(names))
  {
    var names := DisplayedNames(args, docs[d].arg);
    CalculatorAgreesWithPrinter(names);
    WidestIsWidest(args, docs, d);
    OneLineOfNames(args, docs[d].arg, screenWidth);
  }

  lemma OneLineOfNames<V>(args: seq<Arg<V>>, arg: string, screenWidth: nat)
    requires var names := DisplayedNames(args, arg); |names| == 1 || LineWidth(names) <= screenWidth
    ensures DisplayedLines(args, arg, screenWidth) == [DisplayedNames(args, arg)]
    ensures LinesText(DisplayedLines(args, arg, screenWidth)) == LineText(DisplayedNames(args, arg))
    ensures LastWidth(DisplayedLines(args, arg, screenWidth)) == LineWidth(DisplayedNames(args, arg))
  {
    var names := DisplayedNames(args, arg);
    if ChoiceOf(args, arg) >= 0 {
      FittingNamesStayTogether(names, screenWidth);
    }
    LinesSnoc([], names);
    assert [] + [names] == [names];
  }

  // For every group, when names and two blanks fit in 20 columns the documentation column leaves
  // room for them if and only if the calculator counts them in full or some entry is as wide.
  lemma DocOnNamesLineIff<V>(args: seq<Arg<V>>, docs: seq<Doc>, d: nat)
    requires d < |docs| && LineWidth(DisplayedNames(args, docs[d].arg)) + 2 <= MAX_DOC_COL
    ensures var names := DisplayedNames(args, docs[d].arg);
      LineWidth(names) + 2 <= DocColOf(args, docs) <==>
        || |names| == 1 || names[0] != ""
        || exists e :: 0 <= e < |docs| && LineWidth(names) + 2 <= EntryWidth(args, docs[e].arg)
  {
    CalculatorAgreesWithPrinter(DisplayedNames(args, docs[d].arg));
    forall e | 0 <= e < |docs|
      ensures EntryWidth(args, docs[e].arg) <= WidestEntry(args, docs)
    {
      WidestIsWidest(args, docs, e);
    }
    var w := WidestIsReached(args, docs);
  }

  // Where there is no room the text goes to a line of its own, and where there is it follows.
  lemma DocLineFollowsRoom<V>(args: seq<Arg<V>>, docs: seq<Doc>, screenWidth: nat, d: nat)
    requires d < |docs|
    requires var names := DisplayedNames(args, docs[d].arg); |names| == 1 || LineWidth(names) <= screenWidth
    ensures var names, docCol := DisplayedNames(args, docs[d].arg), DocColOf(args, docs);
      var head := EntryHead(args, docs[d].arg, docCol, screenWidth);
      head == LineText(names) + if LineWidth(names) + 2 <= docCol then Blanks(docCol - LineWidth(names))
                                else "\n" + Blanks(docCol)
  {
    OneLineOfNames(args, docs[d].arg, screenWidth);
  }

  // A group where it is neither: a synonym with the empty name before "x" makes the calculator count two
  // columns too few, and the text that would fit goes to a line of its own.
  const MISLEADING: seq<Arg<int>> := [Arg("", 1), Arg("x", 1)]

  lemma EmptyNameMisleadsCalculator()
    ensures LineWidth(DisplayedNames(MISLEADING, "x")) + 2 == 7 <= MAX_DOC_COL
    ensures DocColOf(MISLEADING, [Doc("x", "text")]) == 5
  {
    MisleadingNames();
    assert Init(["", "x"]) == [""] && Init([""]) == [];
    assert Init([Doc("x", "text")]) == [];
  }

  lemma MisleadingNames()
    ensures DisplayedNames(MISLEADING, "x") == ["", "x"]
  {
    assert MISLEADING[1].name == "x";
    assert FirstNamed(MISLEADING, "x") == 1;
    assert Init(MISLEADING) == [Arg("", 1)] && Init(Init(MISLEADING)) == [];
    assert Synonyms(Init(MISLEADING), 1) == [""];
  }
}
