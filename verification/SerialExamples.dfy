/** Justfiles that the serial-gate check accepts although a parallel recipe depends on `test`. */
module SerialExamples {
  import opened Common
  import opened Lines
  import opened Justfile
  import opened Declarations
  import opened Expansion
  import opened Visibility
  import opened SerialGates
  import R = Recipes

  // ----- The lines -----

  lemma HeadingOfPlain(name: Name, tail: string)
    requires IsName(name) && (tail == "" || tail[0] != '=')
    ensures HeadingOf(name + ":" + tail) == Some(Heading(name, false, tail))
  {
    var line := name + ":" + tail;
    SpellingIsPlain(name, name);
    ColonAfter(name, tail);
    PlainIsItsWord(name);
    assert line[..|name|] == name && line[|name| + 1..] == tail;
  }

  function Wrapped(gate: Name): string {
    "(" + gate + ")"
  }

  /** `name: (gate)` */
  function InParentheses(name: Name, gate: Name): Line {
    name + ":" + (" " + Wrapped(gate))
  }

  /** `name parameter: gate` */
  function WithParameter(name: Name, parameter: Name, gate: Name): Line {
    name + " " + parameter + ":" + (" " + gate)
  }

  lemma ParenthesizedWord(gate: Name)
    requires IsName(gate)
    ensures IsWord(Wrapped(gate), false) && Parenthesized(Wrapped(gate))
    ensures DependencyOf(Wrapped(gate)) == R.Dependency(gate, false)
  {
    var w := Wrapped(gate);
    var inside := Mode(None, false, 1);
    PlainRun(inside, gate, false);
    ReadExtended(inside, gate, ')', false);
    assert w[1..] == gate + ")" && Next(OUTSIDE, '(') == inside;
    assert w[1..|w| - 1] == gate;
    PlainIsItsWord(gate);
  }

  lemma ReadInParentheses(name: Name, gate: Name)
    requires IsName(name) && IsName(gate)
    ensures HeadingOf(InParentheses(name, gate)) == Some(Heading(name, false, " " + Wrapped(gate)))
    ensures DeclarationWords(" " + Wrapped(gate), false) == [Wrapped(gate)]
  {
    var w := Wrapped(gate);
    HeadingOfPlain(name, " " + w);
    LeadingSpace(w);
    ParenthesizedWord(gate);
    SplitUndoesJoin([w], "", false);
  }

  lemma ReadWithParameter(name: Name, parameter: Name, gate: Name)
    requires IsName(name) && IsName(parameter) && IsName(gate)
    ensures HeadingOf(WithParameter(name, parameter, gate)) == Some(Heading(name, true, " " + gate))
    ensures DeclarationWords(" " + gate, false) == [gate]
  {
    var head := name + " " + parameter;
    var line := head + ":" + (" " + gate);
    ColonAfter(head, " " + gate);
    assert line[..|head|] == head && line[|head| + 1..] == " " + gate && line[0] == name[0];
    PlainRun(OUTSIDE, name, false);
    WordThen(name, parameter, false);
    assert head == name + (" " + parameter);
    PlainIsItsWord(parameter);
    LeadingSpace(gate);
    PlainIsItsWord(gate);
  }

  lemma {:induction false} LeadingNameEnds(name: string, rest: string)
    requires IsPlain(name) && rest != "" && rest[0] in {':', ' '}
    ensures LeadingName(name + rest) == name
    decreases |name|
  {
    if name != "" {
      assert IsPlainChar(name[0]) && (name + rest)[1..] == name[1..] + rest;
      LeadingNameEnds(name[1..], rest);
    } else {
      assert name + rest == rest;
    }
  }

  lemma NamesAreWords(names: seq<Name>)
    requires names != [] && forall n :: n in names ==> IsName(n)
    ensures DeclarationWords(" " + Join(names), false) == names && WithoutAndAnd(names) == names
    ensures !IsBlank(" " + Join(names))
  {
    forall n | n in names ensures IsWord(n, false) { PlainRun(OUTSIDE, n, false); }
    SplitUndoesJoin(names, "", false);
    LeadingSpace(Join(names));
    assert names[0] in names && (" " + Join(names))[1] == names[0][0];
    assert "&&" !in names;
    WithoutAndAndKeeps(names);
  }

  lemma {:induction false} WithoutAndAndKeeps(words: seq<string>)
    requires "&&" !in words
    ensures WithoutAndAnd(words) == words
  {
    if words != [] {
      assert words[0] in words;
      WithoutAndAndKeeps(words[1..]);
    }
  }

  lemma {:induction false} NoColon(m: Mode, line: string)
    requires ':' !in line
    ensures ColonFrom(m, line).None?
    decreases |line|
  {
    if line != "" {
      assert line[0] in line;
      NoColon(Next(m, line[0]), line[1..]);
    }
  }

  // ----- The justfile -----

  const COMMAND: Line := "    run"

  /** Two entries that list the gates, a recipe for each gate, and a parallel recipe declared by `header`. */
  function Example(gates: seq<Name>, header: Line): seq<Line> {
    [EntryLine("ci", gates), EntryLine("ci-full", gates)]
    + seq(2 * |gates|, i requires 0 <= i < 2 * |gates| => if i % 2 == 0 then gates[i / 2] + ":" else COMMAND)
    + ["[parallel]", header]
  }

  function EntryLine(entry: Name, gates: seq<Name>): Line {
    entry + ":" + (" " + Join(gates))
  }

  /** Distinct recipes that the example can declare besides its own. */
  ghost predicate Listable(gates: seq<Name>) {
    && gates != [] && Distinct(gates) && (forall g :: g in gates ==> IsName(g))
    && "ci" !in gates && "ci-full" !in gates && "batch" !in gates
  }

  /** Gates that can be listed, and a last line that properly declares `batch`. */
  ghost predicate Suitable(gates: seq<Name>, header: Line) {
    && Listable(gates)
    && HeadingOf(header).Some? && HeadingOf(header).value.spelled == "batch" && ProperLine(header)
  }

  lemma OwnNames()
    ensures IsName("ci") && IsName("ci-full") && IsName("batch")
  {
  }

  /** The recipe declared on line `i` of the example. */
  function NameAt(gates: seq<Name>, i: nat): Option<Name>
    requires i < 2 * |gates| + 4
  {
    if i == 0 then Some("ci") else if i == 1 then Some("ci-full")
    else if i < 2 * |gates| + 2 then if i % 2 == 0 then Some(gates[(i - 2) / 2]) else None
    else if i == 2 * |gates| + 2 then None else Some("batch")
  }

  function TailAt(gates: seq<Name>, i: nat): string {
    if i < 2 then " " + Join(gates) else ""
  }

  lemma NameIsName(gates: seq<Name>, header: Line, i: nat)
    requires Suitable(gates, header) && i < 2 * |gates| + 4 && NameAt(gates, i).Some?
    ensures IsName(NameAt(gates, i).value) && Bare(NameAt(gates, i).value) == NameAt(gates, i).value
  {
    OwnNames();
    assert 2 <= i < 2 * |gates| + 2 ==> gates[(i - 2) / 2] in gates;
    assert IsName(NameAt(gates, i).value) && IsNameChar(NameAt(gates, i).value[0]);
  }

  lemma LineAt(gates: seq<Name>, header: Line, i: nat)
    requires i < 2 * |gates| + 2
    ensures Example(gates, header)[i]
         == if NameAt(gates, i).Some? then NameAt(gates, i).value + ":" + TailAt(gates, i) else COMMAND
  {
    if i >= 2 {
      assert Example(gates, header)[i] == if (i - 2) % 2 == 0 then gates[(i - 2) / 2] + ":" else COMMAND;
    }
  }

  lemma HeadingAt(gates: seq<Name>, header: Line, i: nat)
    requires Suitable(gates, header) && i < 2 * |gates| + 2
    ensures HeadingOf(Example(gates, header)[i])
         == if NameAt(gates, i).Some? then Some(Heading(NameAt(gates, i).value, false, TailAt(gates, i))) else None
    ensures ProperLine(Example(gates, header)[i])
  {
    LineAt(gates, header, i);
    if NameAt(gates, i).Some? {
      NameIsName(gates, header, i);
      if i < 2 { NamesAreWords(gates); }
      PlainLine(NameAt(gates, i).value, TailAt(gates, i), if i < 2 then gates else []);
    }
  }

  lemma PlainLine(name: Name, tail: string, words: seq<Name>)
    requires IsName(name) && (tail == "" || tail[0] == ' ')
    requires WithoutAndAnd(DeclarationWords(tail, false)) == words && forall w :: w in words ==> IsName(w)
    ensures HeadingOf(name + ":" + tail) == Some(Heading(name, false, tail)) && ProperLine(name + ":" + tail)
  {
    HeadingOfPlain(name, tail);
    assert name + ":" + tail == name + (":" + tail);
    NameLeads(name + ":" + tail, name, ":" + tail);
    ProperIf(name + ":" + tail, words);
  }

  lemma LastLine(gates: seq<Name>, header: Line)
    ensures |Example(gates, header)| == 2 * |gates| + 4 && Example(gates, header)[2 * |gates| + 3] == header
  {
  }

  lemma AttributeLine(gates: seq<Name>, header: Line)
    ensures var line := Example(gates, header)[2 * |gates| + 2];
      line == "[parallel]" && HeadingOf(line).None? && IsAttribute(line) && ProperLine(line)
  {
    NoColon(OUTSIDE, "[parallel]");
  }

  lemma NamesDiffer(gates: seq<Name>, header: Line, i: nat, j: nat)
    requires Suitable(gates, header) && i < j < 2 * |gates| + 4 && NameAt(gates, i).Some? && NameAt(gates, j).Some?
    ensures NameAt(gates, i) != NameAt(gates, j)
  {
    if 2 <= i && j < 2 * |gates| + 2 {
      assert (i - 2) / 2 < (j - 2) / 2;
    } else if i < 2 && 2 <= j < 2 * |gates| + 2 {
      assert gates[(j - 2) / 2] in gates;
    } else if 2 <= i < 2 * |gates| + 2 {
      assert gates[(i - 2) / 2] in gates;
    }
  }

  /** The heading of any line of the example. */
  lemma SpelledAt(gates: seq<Name>, header: Line, i: nat)
    requires Suitable(gates, header) && i < 2 * |gates| + 4
    ensures ProperLine(Example(gates, header)[i])
    ensures HeadingOf(Example(gates, header)[i]).Some? <==> NameAt(gates, i).Some?
    ensures NameAt(gates, i).Some? ==> HeadingOf(Example(gates, header)[i]).value.spelled == NameAt(gates, i).value
  {
    if i < 2 * |gates| + 2 {
      HeadingAt(gates, header, i);
    } else if i == 2 * |gates| + 2 {
      AttributeLine(gates, header);
    }
  }

  lemma DeclaredOnce(gates: seq<Name>, header: Line, i: nat, j: nat)
    requires Suitable(gates, header) && i < j < 2 * |gates| + 4 && HeadingOf(Example(gates, header)[i]).Some?
    ensures !DeclaresName(Example(gates, header)[j], Bare(HeadingOf(Example(gates, header)[i]).value.spelled))
  {
    SpelledAt(gates, header, i);
    SpelledAt(gates, header, j);
    if NameAt(gates, j).Some? {
      NamesDiffer(gates, header, i, j);
      NameIsName(gates, header, i);
      NameIsName(gates, header, j);
    }
  }

  lemma NoAttribute(gates: seq<Name>, header: Line, i: nat)
    requires Suitable(gates, header) && i < 2 * |gates| + 2
    ensures !IsAttribute(Example(gates, header)[i])
  {
    LineAt(gates, header, i);
    if NameAt(gates, i).Some? {
      NameIsName(gates, header, i);
      assert IsNameChar(NameAt(gates, i).value[0]);
    }
  }

  lemma OnlyBatchIsParallel(gates: seq<Name>, header: Line, i: nat)
    requires Suitable(gates, header) && i < 2 * |gates| + 4 && ParallelAbove(Example(gates, header), i)
    ensures i == 2 * |gates| + 3
  {
    assert IsAttribute(Example(gates, header)[i - 1]);
    if i - 1 < 2 * |gates| + 2 { NoAttribute(gates, header, i - 1); }
  }

  lemma ExampleIsWellFormed(gates: seq<Name>, header: Line)
    requires Suitable(gates, header)
    ensures WellFormed(Example(gates, header))
  {
    var lines := Example(gates, header);
    forall i, j | 0 <= i < j < |lines| && HeadingOf(lines[i]).Some?
      ensures !DeclaresName(lines[j], Bare(HeadingOf(lines[i]).value.spelled))
    {
      DeclaredOnce(gates, header, i, j);
    }
    forall i | 0 <= i < |lines| ensures ProperLine(lines[i]) { SpelledAt(gates, header, i); }
    forall i | 0 <= i < |lines| && !IsAttribute(lines[i]) && ParallelAbove(lines, i) ensures HeadingOf(lines[i]).Some? {
      OnlyBatchIsParallel(gates, header, i);
    }
    forall i, name | 0 <= i < |lines| && DeclaresName(lines[i], name) ensures !HandsOver(lines, i, name) {
      NothingIsHandedOver(gates, header, i, name);
    }
  }

  lemma NothingIsHandedOver(gates: seq<Name>, header: Line, i: nat, name: Name)
    requires Suitable(gates, header) && i < 2 * |gates| + 4 && DeclaresName(Example(gates, header)[i], name)
    ensures !(IsEntry(name) && WordlessAt(Example(gates, header), i))
  {
    SpelledAt(gates, header, i);
    NameIsName(gates, header, i);
    if i < 2 {
      HeadingAt(gates, header, i);
      NamesAreWords(gates);
    } else {
      NamesDiffer(gates, header, 0, i);
      NamesDiffer(gates, header, 1, i);
    }
  }

  // ----- It is accepted -----

  lemma CommandBelow(lines: seq<Line>, i: nat, name: Name)
    requires WellFormed(lines) && i + 1 < |lines| && lines[i + 1] == COMMAND
    requires IsName(name) && PlainHeading(lines[i], name)
    ensures HasBody(lines, name)
  {
    FoundAt(lines, i, name);
    CommandIsBody(lines, i);
  }

  lemma CommandIsBody(lines: seq<Line>, i: nat)
    requires i + 1 < |lines| && lines[i + 1] == COMMAND
    ensures BodyBelow(lines, i)
  {
    assert lines[i + 1..][0] == COMMAND && COMMAND[4] == 'r';
  }

  lemma GateAt(gates: seq<Name>, k: nat)
    requires k < |gates|
    ensures NameAt(gates, 2 * k + 2) == Some(gates[k]) && NameAt(gates, 2 * k + 3) == None
  {
    assert (2 * k + 2 - 2) / 2 == k;
  }

  lemma GateHasBody(gates: seq<Name>, header: Line, k: nat)
    requires Suitable(gates, header) && k < |gates|
    ensures HasBody(Example(gates, header), gates[k])
  {
    ExampleIsWellFormed(gates, header);
    GateAt(gates, k);
    HeadingAt(gates, header, 2 * k + 2);
    LineAt(gates, header, 2 * k + 2);
    LineAt(gates, header, 2 * k + 3);
    assert gates[k] in gates;
    CommandBelow(Example(gates, header), 2 * k + 2, gates[k]);
  }

  lemma EntryListsGates(gates: seq<Name>, header: Line, i: nat)
    requires Suitable(gates, header) && i < 2
    ensures RecipeDependencies(Example(gates, header), NameAt(gates, i).value) == Some(gates)
  {
    var lines, entry := Example(gates, header), NameAt(gates, i).value;
    ExampleIsWellFormed(gates, header);
    HeadingAt(gates, header, i);
    LineAt(gates, header, i);
    NameIsName(gates, header, i);
    NamesAreWords(gates);
    OnlyLine(lines, i, entry);
    RedirectedExactly(lines, entry, entry);
    ReadsOwnWords(lines, entry, entry);
  }

  /** The gates close with the serial ones, and none of those is listed twice. */
  ghost predicate ClosesSerially(gates: seq<Name>) {
    EndsWithSerial(gates) && forall g :: g in SERIAL_RUST_GATES ==> Occurrences(gates, g) == 1
  }

  lemma EntryEndsSerially(gates: seq<Name>, header: Line, i: nat)
    requires Suitable(gates, header) && i < 2 && ClosesSerially(gates)
    ensures EndsSerially(GraphOf(Example(gates, header)), NameAt(gates, i).value)
  {
    var graph := GraphOf(Example(gates, header));
    EntryListsGates(gates, header, i);
    forall g | g in gates ensures g !in graph.groups {
      var k :| 0 <= k < |gates| && gates[k] == g;
      GateHasBody(gates, header, k);
    }
    ExpandGates(graph, gates, {NameAt(gates, i).value});
  }

  lemma OnlyBatchIsListed(gates: seq<Name>, header: Line, group: string)
    requires Suitable(gates, header) && Parallel(Example(gates, header), group)
    ensures group == "batch"
  {
    var lines := Example(gates, header);
    var i :| 0 <= i < |lines| && ParallelRecipe(lines, i, group);
    OnlyBatchIsParallel(gates, header, i);
  }

  lemma AttributeAbove(lines: seq<Line>, i: nat)
    requires 0 < i < |lines| && IsAttribute(lines[i - 1]) && SaysParallel(lines[i - 1])
    ensures ParallelAbove(lines, i)
  {
  }

  lemma ParallelHere(lines: seq<Line>, i: nat, name: Name)
    requires i < |lines| && ParallelAbove(lines, i) && LineOf(lines, name, 0) == Some(i) && name in TableOf(lines)
    ensures IsParallel(lines, name)
  {
    InTable(lines, name);
  }

  lemma BatchIsDeclared(gates: seq<Name>, header: Line)
    requires Suitable(gates, header)
    ensures var lines := Example(gates, header);
      LineOf(lines, "batch", 0) == Some(2 * |gates| + 3) && "batch" in TableOf(lines)
      && SpellingOf(lines, "batch") == "batch"
  {
    ExampleIsWellFormed(gates, header);
    OnlyLine(Example(gates, header), 2 * |gates| + 3, "batch");
  }

  lemma BatchIsParallel(gates: seq<Name>, header: Line)
    requires Suitable(gates, header)
    ensures IsParallel(Example(gates, header), "batch")
  {
    BatchIsDeclared(gates, header);
    AttributeLine(gates, header);
    SaysParallelWord();
    AttributeAbove(Example(gates, header), 2 * |gates| + 3);
    ParallelHere(Example(gates, header), 2 * |gates| + 3, "batch");
  }

  lemma SaysParallelWord()
    ensures SaysParallel("[parallel]")
  {
    var word := "parallel";
    assert "[parallel]" == "[" + (word + "]") && ("[" + (word + "]"))[1..] == word + "]";
    PlainRun(OUTSIDE, word, true);
    ReadWord("", OUTSIDE, word, "]", true);
    assert "" + word == word;
    assert Words(word, OUTSIDE, "]", true) == [word] + Words("", OUTSIDE, "]"[1..], true);
  }

  /** The example is accepted when the check reads no chain from `batch` to a serial gate. */
  lemma ExampleIsAccepted(gates: seq<Name>, header: Line)
    requires Suitable(gates, header) && ClosesSerially(gates)
    requires forall p: seq<Name> :: SerialChain(Example(gates, header), "batch", p) ==>
      !Seen(Example(gates, header), "batch", p)
    ensures Accepted(Example(gates, header))
  {
    var lines := Example(gates, header);
    ExampleIsWellFormed(gates, header);
    EntryEndsSerially(gates, header, 0);
    EntryEndsSerially(gates, header, 1);
    BatchIsDeclared(gates, header);
    BatchIsParallel(gates, header);
    CaughtExactly(lines, "batch");
    forall group | Parallel(lines, group) ensures group == "batch" { OnlyBatchIsListed(gates, header, group); }
  }

  lemma OwnWord(lines: seq<Line>, i: nat, name: Name, header: Line, word: string)
    requires i < |lines| && lines[i] == header && LineOf(lines, name, 0) == Some(i) && !IsEntry(name)
    requires HeadingOf(header).Some?
    requires WithoutAndAnd(DeclarationWords(HeadingOf(header).value.tail, false)) == [word]
    ensures WordsOf(lines, name) == [word]
  {
  }

  lemma DependsByWord(lines: seq<Line>, name: Name, word: string)
    requires name in TableOf(lines) && WordsOf(lines, name) == [word]
    ensures ChainFrom(Effective(lines), name, [name, DependencyOf(word).recipe])
  {
    WordIsEdge(lines, name, word);
    EdgeIsChain(Effective(lines), name, DependencyOf(word).recipe);
  }

  lemma EdgeIsChain(table: R.Table, a: Name, b: Name)
    requires R.Edge(table, a, b)
    ensures ChainFrom(table, a, [a, b])
  {
  }

  /** `batch` depends on what the one word of its header names. */
  lemma BatchDepends(gates: seq<Name>, header: Line, word: string)
    requires Suitable(gates, header)
    requires WithoutAndAnd(DeclarationWords(HeadingOf(header).value.tail, false)) == [word]
    ensures WordsOf(Example(gates, header), "batch") == [word]
    ensures ChainFrom(Effective(Example(gates, header)), "batch", ["batch", DependencyOf(word).recipe])
  {
    BatchIsDeclared(gates, header);
    LastLine(gates, header);
    OwnWord(Example(gates, header), 2 * |gates| + 3, "batch", header, word);
    DependsByWord(Example(gates, header), "batch", word);
  }

  // ----- And yet `batch` depends on a serial gate -----

  /** A justfile in good order that the check accepts although a parallel recipe depends on a serial gate. */
  ghost predicate Escapes(lines: seq<Line>) {
    WellFormed(lines) && Accepted(lines) && !KeepsOff(lines)
  }

  lemma ProperIf(line: Line, words: seq<string>)
    requires HeadingOf(line).Some? && LeadingName(line) == HeadingOf(line).value.spelled && line[0] != '('
    requires WithoutAndAnd(DeclarationWords(HeadingOf(line).value.tail, false)) == words
    requires forall w :: w in words ==> IsName(w) || Parenthesized(w)
    ensures ProperLine(line)
  {
  }

  /** A header with one dependency is proper when its name is followed by the colon or a space. */
  lemma OneWordIsProper(line: Line, name: Name, word: string)
    requires HeadingOf(line).Some? && HeadingOf(line).value.spelled == name && IsName(name)
    requires |name| < |line| && line[..|name|] == name && line[|name|] in {':', ' '}
    requires DeclarationWords(HeadingOf(line).value.tail, false) == [word]
    requires word != "&&" && (IsName(word) || Parenthesized(word))
    ensures ProperLine(line) && WithoutAndAnd(DeclarationWords(HeadingOf(line).value.tail, false)) == [word]
  {
    WithoutAndAndKeeps([word]);
    assert line == name + line[|name|..];
    NameLeads(line, name, line[|name|..]);
    ProperIf(line, [word]);
  }

  lemma NameLeads(line: Line, name: Name, rest: string)
    requires IsName(name) && line == name + rest && rest != "" && rest[0] in {':', ' '}
    ensures LeadingName(line) == name && line[0] != '('
  {
    LeadingNameEnds(name, rest);
    assert line[0] == name[0] && IsNameChar(name[0]);
  }

  lemma ParenthesesLead(name: Name, gate: Name)
    ensures var line := InParentheses(name, gate);
      |name| < |line| && line[..|name|] == name && line[|name|] == ':'
  {
  }

  lemma ParameterLeads(name: Name, parameter: Name, gate: Name)
    ensures var line := WithParameter(name, parameter, gate);
      |name| < |line| && line[..|name|] == name && line[|name|] == ' ' && !PlainHeading(line, name)
  {
  }

  lemma ParenthesesAreNotFollowed(lines: seq<Line>, word: string, b: Name)
    requires Parenthesized(word)
    ensures !IsName(word) && !SeenStep(lines, word, word, b)
  {
    assert !IsNameChar(word[0]);
  }

  /** No chain that starts with a dependency in parentheses is seen to its end. */
  lemma ParenthesesAreNotSeen(lines: seq<Line>, name: Name, word: string, p: seq<Name>)
    requires WordsOf(lines, name) == [word] && Parenthesized(word)
    requires |p| > 1 && p[0] == name && IsName(p[|p| - 1])
    ensures !Seen(lines, name, p)
  {
    if p[1] == word && |p| > 2 {
      ParenthesesAreNotFollowed(lines, word, p[2]);
      assert !SeenStep(lines, p[1], p[1], p[1 + 1]);
    } else {
      ParenthesesAreNotFollowed(lines, word, word);
      assert !SeenStep(lines, name, p[0], p[0 + 1]);
    }
  }

  lemma HiddenIsNotSeen(lines: seq<Line>, name: Name, p: seq<Name>)
    requires LineOf(lines, name, 0).Some? && !PlainHeading(lines[LineOf(lines, name, 0).value], name)
    requires |p| > 1 && p[0] == name
    ensures !Seen(lines, name, p)
  {
    assert !SeenStep(lines, name, p[0], p[0 + 1]);
  }

  /** No chain from `batch` is seen to a serial gate if its one dependency or its own header is hidden. */
  lemma BatchIsNotSeen(gates: seq<Name>, header: Line, word: string, p: seq<Name>)
    requires Suitable(gates, header) && (Parenthesized(word) || !PlainHeading(header, "batch"))
    requires WithoutAndAnd(DeclarationWords(HeadingOf(header).value.tail, false)) == [word]
    requires SerialChain(Example(gates, header), "batch", p)
    ensures !Seen(Example(gates, header), "batch", p)
  {
    if Parenthesized(word) {
      BatchDepends(gates, header, word);
      SerialIsName(p[|p| - 1]);
      ParenthesesAreNotSeen(Example(gates, header), "batch", word, p);
    } else {
      BatchIsDeclared(gates, header);
      LastLine(gates, header);
      HiddenIsNotSeen(Example(gates, header), "batch", p);
    }
  }

  /** The example escapes whenever `batch` depends on a serial gate and hides it. */
  lemma HiddenEscapes(gates: seq<Name>, header: Line, word: string)
    requires Suitable(gates, header) && ClosesSerially(gates) && IsSerial(DependencyOf(word).recipe)
    requires WithoutAndAnd(DeclarationWords(HeadingOf(header).value.tail, false)) == [word]
    requires Parenthesized(word) || !PlainHeading(header, "batch")
    ensures Escapes(Example(gates, header))
  {
    ExampleIsWellFormed(gates, header);
    BatchDepends(gates, header, word);
    BatchIsParallel(gates, header);
    assert SerialChain(Example(gates, header), "batch", ["batch", DependencyOf(word).recipe]);
    forall p: seq<Name> | SerialChain(Example(gates, header), "batch", p)
      ensures !Seen(Example(gates, header), "batch", p)
    {
      BatchIsNotSeen(gates, header, word, p);
    }
    ExampleIsAccepted(gates, header);
  }

  lemma ParenthesesSuit(gates: seq<Name>, gate: Name)
    requires Listable(gates) && IsName(gate)
    ensures var header := InParentheses("batch", gate);
      && Suitable(gates, header)
      && WithoutAndAnd(DeclarationWords(HeadingOf(header).value.tail, false)) == [Wrapped(gate)]
  {
    OwnNames();
    ParenthesizedWord(gate);
    ReadInParentheses("batch", gate);
    ParenthesesLead("batch", gate);
    OneWordIsProper(InParentheses("batch", gate), "batch", Wrapped(gate));
  }

  lemma ParameterSuits(gates: seq<Name>, parameter: Name, gate: Name)
    requires Listable(gates) && IsName(parameter) && IsName(gate)
    ensures var header := WithParameter("batch", parameter, gate);
      && Suitable(gates, header) && HeadingOf(header).value.hasParameters
      && WithoutAndAnd(DeclarationWords(HeadingOf(header).value.tail, false)) == [gate]
  {
    OwnNames();
    ReadWithParameter("batch", parameter, gate);
    ParameterLeads("batch", parameter, gate);
    assert IsNameChar(gate[0]);
    OneWordIsProper(WithParameter("batch", parameter, gate), "batch", gate);
  }

  /** A serial gate in parentheses escapes: the file is accepted, and `batch` depends on the gate. */
  lemma ParenthesesEscape(gates: seq<Name>, gate: Name)
    requires Listable(gates) && ClosesSerially(gates) && IsSerial(gate)
    ensures Escapes(Example(gates, InParentheses("batch", gate)))
  {
    SerialIsName(gate);
    ParenthesesSuit(gates, gate);
    ParenthesizedWord(gate);
    HiddenEscapes(gates, InParentheses("batch", gate), Wrapped(gate));
  }

  /** A parallel recipe with a parameter escapes with whatever it depends on. */
  lemma ParameterEscapes(gates: seq<Name>, parameter: Name, gate: Name)
    requires Listable(gates) && ClosesSerially(gates) && IsName(parameter) && IsSerial(gate)
    ensures Escapes(Example(gates, WithParameter("batch", parameter, gate)))
  {
    SerialIsName(gate);
    ParameterSuits(gates, parameter, gate);
    ParameterLeads("batch", parameter, gate);
    assert IsNameChar(gate[0]) && DependencyOf(gate) == R.Dependency(gate, false);
    HiddenEscapes(gates, WithParameter("batch", parameter, gate), gate);
  }

  const GATES: seq<Name> := ["js-fmt-check", "fmt-check", "clippy", "test", "doc", "deny"]

  lemma GateNames()
    ensures Distinct(GATES) && forall g :: g in GATES ==> IsName(g)
    ensures "ci" !in GATES && "ci-full" !in GATES && "batch" !in GATES
  {
  }

  lemma GatesClose()
    ensures EndsWithSerial(GATES)
  {
    assert GATES[1..] == SERIAL_RUST_GATES;
  }

  lemma {:induction false} DistinctOnce(s: seq<Name>, g: Name)
    requires Distinct(s) && g in s
    ensures Occurrences(s, g) == 1
  {
    assert s == [s[0]] + s[1..];
    if g == s[0] {
      assert g !in s[1..];
    } else {
      DistinctOnce(s[1..], g);
    }
  }

  lemma ListedSerially(gates: seq<Name>)
    requires Listable(gates) && EndsWithSerial(gates)
    ensures ClosesSerially(gates)
  {
    forall g | g in SERIAL_RUST_GATES ensures Occurrences(gates, g) == 1 {
      assert g in gates[|gates| - |SERIAL_RUST_GATES|..];
      DistinctOnce(gates, g);
    }
  }

  lemma GatesSuit()
    ensures Listable(GATES) && ClosesSerially(GATES)
  {
    GateNames();
    GatesClose();
    ListedSerially(GATES);
  }

  lemma WordsSuit()
    ensures IsSerial("test") && IsName("mode")
  {
  }

  lemma BothEscape(gates: seq<Name>, gate: Name, parameter: Name)
    requires Listable(gates) && ClosesSerially(gates) && IsSerial(gate) && IsName(parameter)
    ensures Escapes(Example(gates, InParentheses("batch", gate)))
    ensures Escapes(Example(gates, WithParameter("batch", parameter, gate)))
  {
    ParenthesesEscape(gates, gate);
    ParameterEscapes(gates, parameter, gate);
  }

  /** Two such justfiles: `batch: (test)` and `batch mode: test`. */
  lemma AcceptedThoughSerial()
    ensures Escapes(Example(GATES, InParentheses("batch", "test")))
    ensures Escapes(Example(GATES, WithParameter("batch", "mode", "test")))
  {
    GatesSuit();
    WordsSuit();
    BothEscape(GATES, "test", "mode");
  }
}
