/** The justfile as text: splitting declarations into words, and the recipe queries built on it. */
module Justfile {
  import opened Common
  import opened Lines

  type Name = string

  // ----- declaration_words -----

  /** Where the scan stands: inside a quoted string or not, after a backslash or not, parenthesis depth. */
  datatype Mode = Mode(quote: Option<char>, escaped: bool, depth: nat)

  const OUTSIDE := Mode(None, false, 0)

  predicate IsQuote(c: char) {
    c == '\'' || c == '"' || c == '`'
  }

  predicate EndsLine(m: Mode, c: char) {
    m.quote.None? && c == '#'
  }

  predicate Separates(m: Mode, attributeList: bool, c: char) {
    m.quote.None? && m.depth == 0 && (IsWhitespace(c) || (attributeList && c in {',', '[', ']'}))
  }

  /** The mode after a character that neither ends the line nor separates words. */
  function Next(m: Mode, c: char): Mode {
    match m.quote
    case Some(delimiter) =>
      if m.escaped then m.(escaped := false)
      else if c == '\\' && delimiter != '\'' then m.(escaped := true)
      else if c == delimiter then m.(quote := None)
      else m
    case None =>
      if IsQuote(c) then m.(quote := Some(c))
      else if c == '(' then m.(depth := m.depth + 1)
      else if c == ')' then m.(depth := if m.depth == 0 then 0 else m.depth - 1)
      else m
  }

  /** The words of `rest`, where `word` is the part of the current word already read. */
  function Words(word: string, m: Mode, rest: string, attributeList: bool): seq<string>
    decreases |rest|
  {
    if rest == [] || EndsLine(m, rest[0]) then Finished(word)
    else if Separates(m, attributeList, rest[0]) then Finished(word) + Words("", m, rest[1..], attributeList)
    else Words(word + [rest[0]], Next(m, rest[0]), rest[1..], attributeList)
  }

  function Finished(word: string): seq<string> {
    if word == "" then [] else [word]
  }

  function DeclarationWords(line: string, attributeList: bool): seq<string> {
    Words("", OUTSIDE, line, attributeList)
  }

  function CurrentWord(line: string, start: Option<nat>, index: nat): string
    requires start.Some? ==> start.value < index
    requires index <= |line|
  {
    if start.Some? then line[start.value..index] else ""
  }

  /** What a character that ends a word leaves to be read. */
  lemma AfterWord(done: seq<string>, word: string, m: Mode, line: string, index: nat, attributeList: bool)
    requires index < |line| && !EndsLine(m, line[index]) && Separates(m, attributeList, line[index])
    ensures done + Words(word, m, line[index..], attributeList)
         == (done + Finished(word)) + Words("", m, line[index + 1..], attributeList)
  {
    assert line[index..][1..] == line[index + 1..];
  }

  lemma InsideWord(word: string, m: Mode, line: string, index: nat, attributeList: bool)
    requires index < |line| && !EndsLine(m, line[index]) && !Separates(m, attributeList, line[index])
    ensures Words(word, m, line[index..], attributeList)
         == Words(word + [line[index]], Next(m, line[index]), line[index + 1..], attributeList)
  {
    assert line[index..][1..] == line[index + 1..];
  }

  lemma WordGrows(line: string, start: Option<nat>, index: nat)
    requires (start.Some? ==> start.value < index) && index < |line|
    ensures var from := if start.Some? then start else Some(index);
      CurrentWord(line, from, index + 1) == CurrentWord(line, start, index) + [line[index]]
  {
  }

  /** The scanner: one pass that remembers where the current word starts and slices it off. */
  method ScanDeclarationWords(line: string, attributeList: bool) returns (words: seq<string>)
    ensures words == DeclarationWords(line, attributeList)
  {
    words := [];
    var start: Option<nat> := None;
    var mode := OUTSIDE;
    assert line[0..] == line;
    for index := 0 to |line|
      invariant start.Some? ==> start.value < index
      invariant mode.quote.Some? ==> start.Some?
      invariant DeclarationWords(line, attributeList)
             == words + Words(CurrentWord(line, start, index), mode, line[index..], attributeList)
    {
      var character := line[index];
      ghost var word := CurrentWord(line, start, index);
      if EndsLine(mode, character) {
        if start.Some? { words := words + [line[start.value..index]]; }
        return;
      }
      if Separates(mode, attributeList, character) {
        AfterWord(words, word, mode, line, index, attributeList);
        if start.Some? { words := words + [line[start.value..index]]; }
        start := None;
      } else {
        InsideWord(word, mode, line, index, attributeList);
        WordGrows(line, start, index);
        if start.None? { start := Some(index); }
        mode := Next(mode, character);
      }
    }
    assert line[|line|..] == "" && (start.Some? ==> CurrentWord(line, start, |line|) == line[start.value..]);
    if start.Some? { words := words + [line[start.value..]]; }
  }

  /** Reading `w` from mode `m` meets no comment and no separator. */
  predicate Unbroken(m: Mode, w: string, attributeList: bool)
    decreases |w|
  {
    w == "" ||
    (!EndsLine(m, w[0]) && !Separates(m, attributeList, w[0]) && Unbroken(Next(m, w[0]), w[1..], attributeList))
  }

  function After(m: Mode, w: string): Mode
    decreases |w|
  {
    if w == "" then m else After(Next(m, w[0]), w[1..])
  }

  /** A word that closes its quotes and parentheses, with no bare `#` and no bare separator. */
  predicate IsWord(w: string, attributeList: bool) {
    w != "" && Unbroken(OUTSIDE, w, attributeList) && After(OUTSIDE, w) == OUTSIDE
  }

  function Join(words: seq<string>): string {
    if words == [] then "" else if |words| == 1 then words[0] else words[0] + " " + Join(words[1..])
  }

  lemma {:induction false} ReadWord(word: string, m: Mode, w: string, rest: string, attributeList: bool)
    requires Unbroken(m, w, attributeList)
    ensures Words(word, m, w + rest, attributeList) == Words(word + w, After(m, w), rest, attributeList)
    decreases |w|
  {
    if w == "" {
      assert w + rest == rest && word + w == word;
    } else {
      assert (w + rest)[1..] == w[1..] + rest && word + [w[0]] + w[1..] == word + w;
      ReadWord(word + [w[0]], Next(m, w[0]), w[1..], rest, attributeList);
    }
  }

  lemma {:induction false} ReadExtended(m: Mode, w: string, c: char, attributeList: bool)
    requires Unbroken(m, w, attributeList)
    requires !EndsLine(After(m, w), c) && !Separates(After(m, w), attributeList, c)
    ensures Unbroken(m, w + [c], attributeList) && After(m, w + [c]) == Next(After(m, w), c)
    decreases |w|
  {
    if w == "" {
      assert w + [c] == [c] && [c][1..] == "";
    } else {
      assert (w + [c])[1..] == w[1..] + [c];
      ReadExtended(Next(m, w[0]), w[1..], c, attributeList);
    }
  }

  /** All but the last are words, and the last meets no comment and no separator. */
  ghost predicate Rejoinable(words: seq<string>, attributeList: bool) {
    forall i :: 0 <= i < |words| ==>
      && words[i] != "" && Unbroken(OUTSIDE, words[i], attributeList)
      && (i < |words| - 1 ==> After(OUTSIDE, words[i]) == OUTSIDE)
  }

  lemma {:induction false} SplitRejoined(words: seq<string>, attributeList: bool)
    requires Rejoinable(words, attributeList)
    ensures DeclarationWords(Join(words), attributeList) == words
  {
    if words != [] {
      var w := words[0];
      if |words| == 1 {
        ReadWord("", OUTSIDE, w, "", attributeList);
        assert w + "" == w && "" + w == w;
      } else {
        var rest := " " + Join(words[1..]);
        ReadWord("", OUTSIDE, w, rest, attributeList);
        assert w + " " + Join(words[1..]) == w + rest && "" + w == w;
        assert rest[1..] == Join(words[1..]);
        SplitRejoined(words[1..], attributeList);
      }
    }
  }

  /** A word and the space after it. */
  lemma WordThen(w: string, rest: string, attributeList: bool)
    requires IsWord(w, attributeList)
    ensures DeclarationWords(w + (" " + rest), attributeList) == [w] + DeclarationWords(rest, attributeList)
  {
    ReadWord("", OUTSIDE, w, " " + rest, attributeList);
    assert "" + w == w && (" " + rest)[1..] == rest;
  }

  lemma CommentHasNoWords(comment: string, attributeList: bool)
    ensures DeclarationWords("#" + comment, attributeList) == []
    ensures DeclarationWords(" #" + comment, attributeList) == []
  {
    assert (" #" + comment)[1..] == "#" + comment;
  }

  /** Splitting undoes joining with spaces, and a trailing comment changes nothing. */
  lemma {:induction false} SplitUndoesJoin(words: seq<string>, comment: string, attributeList: bool)
    requires forall w :: w in words ==> IsWord(w, attributeList)
    ensures DeclarationWords(Join(words), attributeList) == words
    ensures DeclarationWords(Join(words) + " #" + comment, attributeList) == words
    decreases |words|
  {
    assert forall i :: 0 <= i < |words| ==> words[i] in words;
    SplitRejoined(words, attributeList);
    CommentHasNoWords(comment, attributeList);
    if |words| == 0 {
      assert Join(words) + " #" + comment == " #" + comment;
    } else if |words| == 1 {
      assert Join(words) + " #" + comment == words[0] + (" " + ("#" + comment));
      WordThen(words[0], "#" + comment, attributeList);
    } else {
      var rest := Join(words[1..]) + " #" + comment;
      assert Join(words) + " #" + comment == words[0] + (" " + rest);
      WordThen(words[0], rest, attributeList);
      SplitUndoesJoin(words[1..], comment, attributeList);
    }
  }

  lemma {:induction false} WordsAreRejoinable(word: string, m: Mode, rest: string, attributeList: bool)
    requires Unbroken(OUTSIDE, word, attributeList) && After(OUTSIDE, word) == m
    requires m.quote.None? ==> !m.escaped
    ensures Rejoinable(Words(word, m, rest, attributeList), attributeList)
    decreases |rest|
  {
    if rest == [] || EndsLine(m, rest[0]) {
    } else if Separates(m, attributeList, rest[0]) {
      WordsAreRejoinable("", m, rest[1..], attributeList);
      var later := Words("", m, rest[1..], attributeList);
      if word != "" {
        var all := [word] + later;
        assert forall i :: 0 < i < |all| ==> all[i] == later[i - 1];
      } else {
        assert Finished(word) + later == later;
      }
    } else {
      ReadExtended(OUTSIDE, word, rest[0], attributeList);
      WordsAreRejoinable(word + [rest[0]], Next(m, rest[0]), rest[1..], attributeList);
    }
  }

  /** On every line, whatever its quoting, splitting the rejoined words gives the same words. */
  lemma SplitIsIdempotent(line: string, attributeList: bool)
    ensures DeclarationWords(Join(DeclarationWords(line, attributeList)), attributeList)
         == DeclarationWords(line, attributeList)
  {
    WordsAreRejoinable("", OUTSIDE, line, attributeList);
    SplitRejoined(DeclarationWords(line, attributeList), attributeList);
  }

  // ----- Recipes -----

  /** `line` declares `recipe`: the name, a colon, and no `=` that would make it a variable. */
  predicate Declares(line: Line, recipe: Name) {
    && |recipe| < |line| && line[..|recipe|] == recipe && line[|recipe|] == ':'
    && (|recipe| + 1 < |line| ==> line[|recipe| + 1] != '=')
  }

  /** The first declaring line at or after `from`. */
  function HeaderFrom(lines: seq<Line>, recipe: Name, from: nat): (r: Option<nat>)
    requires from <= |lines|
    ensures r.Some? ==> from <= r.value < |lines| && Declares(lines[r.value], recipe)
    decreases |lines| - from
  {
    if from == |lines| then None
    else if Declares(lines[from], recipe) then Some(from)
    else HeaderFrom(lines, recipe, from + 1)
  }

  function Header(lines: seq<Line>, recipe: Name): Option<nat> {
    HeaderFrom(lines, recipe, 0)
  }

  function FirstNonBlank(lines: seq<Line>): Option<Line> {
    if lines == [] then None else if !IsBlank(lines[0]) then Some(lines[0]) else FirstNonBlank(lines[1..])
  }

  function StripPrefix(s: string, prefix: string): Option<string> {
    if prefix == "" then Some(s)
    else if s == "" || s[0] != prefix[0] then None
    else StripPrefix(s[1..], prefix[1..])
  }

  const EXECUTOR := "{{python_command}} -B tools/ci_local.py "

  predicate IsEntry(recipe: Name) {
    recipe == "ci" || recipe == "ci-full"
  }

  /** The entry recipe has no dependencies of its own: its single command names an inventory. */
  predicate Redirected(lines: seq<Line>, recipe: Name) {
    var h := Header(lines, recipe);
    h.Some? && IsEntry(recipe) && IsBlank(lines[h.value][|recipe| + 1..])
  }

  /** Every name a line could declare. */
  function Declarable(lines: seq<Line>): set<Name> {
    set i, n | 0 <= i < |lines| && 0 <= n <= |lines[i]| :: lines[i][..n]
  }

  /** The names after `recipe:`, or those of the inventory an entry recipe hands to the executor. */
  function RecipeDependencies(lines: seq<Line>, recipe: Name): (r: Option<seq<Name>>)
    ensures r.Some? ==> recipe in Declarable(lines)
    decreases IsEntry(recipe)
  {
    var h := Header(lines, recipe);
    assert h.Some? ==> lines[h.value][..|recipe|] == recipe;
    if h.None? then None
    else if Redirected(lines, recipe) then
      var command := FirstNonBlank(lines[h.value + 1..]);
      if command.Some? && StripPrefix(Trim(command.value), EXECUTOR) == Some(recipe + "-inventory")
      then RecipeDependencies(lines, recipe + "-inventory")
      else None
    else Some(WithoutAndAnd(DeclarationWords(lines[h.value][|recipe| + 1..], false)))
  }

  /** A declaration written as the name, a colon, words and a comment is read as those words without `&&`. */
  lemma DeclarationIsRead(lines: seq<Line>, i: nat, recipe: Name, words: seq<string>, comment: string)
    requires i < |lines| && !IsEntry(recipe)
    requires lines[i] == recipe + ":" + (" " + (Join(words) + " #" + comment))
      || lines[i] == recipe + ":" + (" " + Join(words))
    requires forall w :: w in words ==> IsWord(w, false)
    requires forall k :: 0 <= k < i ==> !Declares(lines[k], recipe)
    ensures RecipeDependencies(lines, recipe) == Some(WithoutAndAnd(words))
  {
    SplitUndoesJoin(words, comment, false);
    if lines[i] == recipe + ":" + (" " + Join(words)) {
      TailIsRead(lines, i, recipe, Join(words));
    } else {
      TailIsRead(lines, i, recipe, Join(words) + " #" + comment);
    }
  }

  lemma TailIsRead(lines: seq<Line>, i: nat, recipe: Name, tail: string)
    requires i < |lines| && !IsEntry(recipe) && lines[i] == recipe + ":" + (" " + tail)
    requires forall k :: 0 <= k < i ==> !Declares(lines[k], recipe)
    ensures RecipeDependencies(lines, recipe) == Some(WithoutAndAnd(DeclarationWords(tail, false)))
  {
    var line := lines[i];
    assert line[..|recipe|] == recipe && line[|recipe|] == ':' && line[|recipe| + 1] == ' ';
    FirstHeader(lines, recipe, 0, i);
    assert line[|recipe| + 1..] == " " + tail;
    LeadingSpace(tail);
  }

  lemma LeadingSpace(tail: string)
    ensures DeclarationWords(" " + tail, false) == DeclarationWords(tail, false)
  {
    assert (" " + tail)[1..] == tail;
    assert Finished("") + DeclarationWords(tail, false) == DeclarationWords(tail, false);
  }

  lemma {:induction false} FirstHeader(lines: seq<Line>, recipe: Name, from: nat, i: nat)
    requires from <= i < |lines| && Declares(lines[i], recipe)
    requires forall k :: from <= k < i ==> !Declares(lines[k], recipe)
    ensures HeaderFrom(lines, recipe, from) == Some(i)
    decreases i - from
  {
    if from < i { FirstHeader(lines, recipe, from + 1, i); }
  }

  function WithoutAndAnd(words: seq<string>): seq<string> {
    if words == [] then []
    else (if words[0] == "&&" then [] else [words[0]]) + WithoutAndAnd(words[1..])
  }

  /** The first non-blank line below line `i` is indented. */
  predicate BodyBelow(lines: seq<Line>, i: nat)
    requires i < |lines|
  {
    var below := FirstNonBlank(lines[i + 1..]);
    below.Some? && below.value != "" && below.value[0] in {' ', '\t'}
  }

  /** An undeclared recipe counts as having a body. */
  predicate HasBody(lines: seq<Line>, recipe: Name) {
    var h := Header(lines, recipe);
    h.Some? ==> BodyBelow(lines, h.value)
  }

  /** What the checkers ask of a justfile: each declared recipe's dependencies, and which recipes only group. */
  datatype Graph = Graph(dependencies: map<Name, seq<Name>>, groups: set<Name>)

  function GraphOf(lines: seq<Line>): (graph: Graph)
    ensures forall n :: n in graph.dependencies <==> RecipeDependencies(lines, n).Some?
    ensures forall n :: n in graph.dependencies ==> graph.dependencies[n] == RecipeDependencies(lines, n).value
    ensures forall n :: n in graph.groups <==> !HasBody(lines, n)
  {
    assert forall n :: Header(lines, n).Some? ==> lines[Header(lines, n).value][..|n|] == n;
    Graph(map n | n in Declarable(lines) && RecipeDependencies(lines, n).Some? :: RecipeDependencies(lines, n).value,
          set n | n in Declarable(lines) && !HasBody(lines, n))
  }
}
