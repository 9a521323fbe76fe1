/** The recipes of a justfile as `just` itself reads them, and which of them the text checkers follow. */
module Declarations {
  import opened Common
  import opened Lines
  import opened Justfile
  import R = Recipes

  // ----- One header line -----

  predicate IsNameChar(c: char) {
    'a' <= c <= 'z' || 'A' <= c <= 'Z' || '0' <= c <= '9' || c == '_' || c == '-'
  }

  predicate IsName(name: string) {
    name != "" && name[0] != '-' && !('0' <= name[0] <= '9') && forall i :: 0 <= i < |name| ==> IsNameChar(name[i])
  }

  /** A quiet recipe is written with `@` before its name. */
  function Bare(spelled: string): Name {
    if spelled != "" && spelled[0] == '@' then spelled[1..] else spelled
  }

  function Shift(r: Option<nat>): Option<nat> {
    if r.None? then None else Some(1 + r.value)
  }

  /** The first colon outside strings, parentheses and comments. */
  function ColonFrom(m: Mode, line: string): (r: Option<nat>)
    ensures r.Some? ==> r.value < |line| && line[r.value] == ':'
    decreases |line|
  {
    if line == "" || EndsLine(m, line[0]) then None
    else if m.quote.None? && m.depth == 0 && line[0] == ':' then Some(0)
    else Shift(ColonFrom(Next(m, line[0]), line[1..]))
  }

  /** The name as spelled, whether parameters follow it, and the text after the colon. */
  datatype Heading = Heading(spelled: string, hasParameters: bool, tail: string)

  /** What a line declares: a name, parameters and a colon that does not begin `:=`, from the first column. */
  function HeadingOf(line: Line): Option<Heading> {
    var colon := ColonFrom(OUTSIDE, line);
    if line == "" || IsWhitespace(line[0]) || colon.None? then None
    else
      var words, tail := DeclarationWords(line[..colon.value], false), line[colon.value + 1..];
      if words == [] || !IsName(Bare(words[0])) || (tail != "" && tail[0] == '=') then None
      else Some(Heading(words[0], |words| > 1, tail))
  }

  predicate DeclaresName(line: Line, name: Name) {
    HeadingOf(line).Some? && Bare(HeadingOf(line).value.spelled) == name
  }

  /** The colon stands directly after the name as it is spelled. */
  predicate PlainHeading(line: Line, spelled: string) {
    HeadingOf(line).Some? && HeadingOf(line).value.spelled == spelled
    && line == spelled + ":" + HeadingOf(line).value.tail
  }

  /** A dependency in parentheses is its first word, and the rest are arguments. */
  function DependencyOf(word: string): R.Dependency {
    if !Parenthesized(word) then R.Dependency(word, false)
    else
      var inner := DeclarationWords(word[1..|word| - 1], false);
      R.Dependency(if inner == [] then "" else inner[0], |inner| > 1)
  }

  predicate Parenthesized(word: string) {
    |word| > 1 && word[0] == '(' && word[|word| - 1] == ')'
  }

  function DependenciesOf(words: seq<string>): (r: seq<R.Dependency>)
    ensures |r| == |words| && forall i :: 0 <= i < |words| ==> r[i] == DependencyOf(words[i])
  {
    seq(|words|, i requires 0 <= i < |words| => DependencyOf(words[i]))
  }

  // ----- Attributes -----

  predicate IsAttribute(line: Line) {
    line != "" && line[0] == '['
  }

  predicate SaysParallel(line: Line) {
    "parallel" in DeclarationWords(line, true)
  }

  /** An unbroken block of attribute lines ends just above line `i`, and one of them says `parallel`. */
  predicate ParallelAbove(lines: seq<Line>, i: nat)
    requires i <= |lines|
  {
    i > 0 && IsAttribute(lines[i - 1]) && (SaysParallel(lines[i - 1]) || ParallelAbove(lines, i - 1))
  }

  /** The text before the first colon or space. */
  function LeadingName(line: Line): Name {
    if line == "" || line[0] == ':' || line[0] == ' ' then "" else [line[0]] + LeadingName(line[1..])
  }

  // ----- The table -----

  /** The dependency words on line `i`, as written. */
  function WordsAt(lines: seq<Line>, i: nat): seq<string>
    requires i < |lines|
  {
    if HeadingOf(lines[i]).None? then []
    else WithoutAndAnd(DeclarationWords(HeadingOf(lines[i]).value.tail, false))
  }

  function RecipeAt(lines: seq<Line>, i: nat): R.Recipe
    requires i < |lines|
  {
    R.Recipe(DependenciesOf(WordsAt(lines, i)), HeadingOf(lines[i]).Some? && HeadingOf(lines[i]).value.hasParameters,
             BodyBelow(lines, i), ParallelAbove(lines, i))
  }

  /** The line that declares `name`. */
  function LineOf(lines: seq<Line>, name: Name, from: nat): (r: Option<nat>)
    requires from <= |lines|
    ensures r.Some? ==> from <= r.value < |lines| && DeclaresName(lines[r.value], name)
    ensures r.None? ==> forall k :: from <= k < |lines| ==> !DeclaresName(lines[k], name)
    decreases |lines| - from
  {
    if from == |lines| then None
    else if DeclaresName(lines[from], name) then Some(from)
    else LineOf(lines, name, from + 1)
  }

  /**
   * Lines that `just` takes and that can be read one by one: it refuses the others, except for one name under
   * several operating systems and for recipes of other files and modules, which are not covered.
   */
  ghost predicate WellFormed(lines: seq<Line>) {
    && (forall i, j :: 0 <= i < j < |lines| && HeadingOf(lines[i]).Some? ==>
          !DeclaresName(lines[j], Bare(HeadingOf(lines[i]).value.spelled)))
    && (forall i :: 0 <= i < |lines| ==> ProperLine(lines[i]))
    && (forall i :: 0 <= i < |lines| && !IsAttribute(lines[i]) && ParallelAbove(lines, i) ==> HeadingOf(lines[i]).Some?)
    && (forall i, name :: 0 <= i < |lines| && DeclaresName(lines[i], name) && HandsOver(lines, i, name) ==>
          BodyBelow(lines, i))
  }

  /** Dependencies are names or parenthesised, names end at a space or the colon, and no line opens with `(`. */
  ghost predicate ProperLine(line: Line) {
    && (line != "" ==> line[0] != '(')
    && (HeadingOf(line).Some? ==>
          && LeadingName(line) == HeadingOf(line).value.spelled
          && forall w :: w in WithoutAndAnd(DeclarationWords(HeadingOf(line).value.tail, false)) ==>
               IsName(w) || Parenthesized(w))
  }

  /** Line `i` declares a recipe with nothing after the colon. */
  predicate WordlessAt(lines: seq<Line>, i: nat)
    requires i < |lines|
  {
    HeadingOf(lines[i]).Some? && IsBlank(HeadingOf(lines[i]).value.tail)
  }

  /** The entry recipe on line `i` has no dependencies and hands its inventory to the executor. */
  predicate HandsOver(lines: seq<Line>, i: nat, name: Name)
    requires i < |lines|
  {
    && IsEntry(name) && WordlessAt(lines, i)
    && var command := FirstNonBlank(lines[i + 1..]);
    command.Some? && StripPrefix(Trim(command.value), EXECUTOR) == Some(name + "-inventory")
  }

  /** The line whose dependencies count for `name`: its own, or that of the inventory it hands over. */
  function SourceOf(lines: seq<Line>, name: Name): Option<nat> {
    var i := LineOf(lines, name, 0);
    if i.Some? && HandsOver(lines, i.value, name) then LineOf(lines, name + "-inventory", 0) else i
  }

  /** The words that name what runs before `name`, as written. */
  function WordsOf(lines: seq<Line>, name: Name): seq<string> {
    var i := SourceOf(lines, name);
    if i.Some? then WordsAt(lines, i.value) else []
  }

  /** What one line declares, if anything. */
  datatype Entry = NoEntry | Entry(name: Name, recipe: R.Recipe)

  /** What line `i` declares, with the dependencies it takes from the inventory it hands over, or without. */
  function EntryAt(lines: seq<Line>, i: nat, handOver: bool): Entry
    requires i < |lines|
  {
    if HeadingOf(lines[i]).None? then NoEntry
    else
      var name, recipe := Bare(HeadingOf(lines[i]).value.spelled), RecipeAt(lines, i);
      Entry(name, if handOver then recipe.(dependencies := DependenciesOf(WordsOf(lines, name))) else recipe)
  }

  function Entries(lines: seq<Line>, handOver: bool): seq<Entry> {
    seq(|lines|, i requires 0 <= i < |lines| => EntryAt(lines, i, handOver))
  }

  /** The recipes of the entries; `just` refuses a name that comes twice. */
  function TableFrom(entries: seq<Entry>, from: nat): R.Table
    requires from <= |entries|
    decreases |entries| - from
  {
    if from == |entries| then map[]
    else
      var later := TableFrom(entries, from + 1);
      if entries[from].NoEntry? then later else later[entries[from].name := entries[from].recipe]
  }

  predicate HasName(entry: Entry, name: Name) {
    entry.Entry? && entry.name == name
  }

  function EntryOf(entries: seq<Entry>, name: Name, from: nat): (r: Option<nat>)
    requires from <= |entries|
    ensures r.Some? ==> from <= r.value < |entries| && HasName(entries[r.value], name)
    decreases |entries| - from
  {
    if from == |entries| then None
    else if HasName(entries[from], name) then Some(from)
    else EntryOf(entries, name, from + 1)
  }

  lemma {:induction false} InTableFrom(entries: seq<Entry>, from: nat, name: Name)
    requires from <= |entries|
    ensures name in TableFrom(entries, from) <==> EntryOf(entries, name, from).Some?
    ensures name in TableFrom(entries, from) ==>
      TableFrom(entries, from)[name] == entries[EntryOf(entries, name, from).value].recipe
    decreases |entries| - from
  {
    if from < |entries| { InTableFrom(entries, from + 1, name); }
  }

  lemma EntryNames(lines: seq<Line>, i: nat, handOver: bool, name: Name)
    requires i < |lines|
    ensures HasName(Entries(lines, handOver)[i], name) <==> DeclaresName(lines[i], name)
  {
  }

  lemma {:induction false} SameLine(entries: seq<Entry>, lines: seq<Line>, name: Name, from: nat)
    requires from <= |lines| == |entries|
    requires forall i :: 0 <= i < |lines| ==> (HasName(entries[i], name) <==> DeclaresName(lines[i], name))
    ensures EntryOf(entries, name, from) == LineOf(lines, name, from)
    decreases |lines| - from
  {
    if from < |lines| { SameLine(entries, lines, name, from + 1); }
  }

  /** Entries stand where the lines declare them. */
  lemma EntryLine(lines: seq<Line>, handOver: bool, name: Name)
    ensures EntryOf(Entries(lines, handOver), name, 0) == LineOf(lines, name, 0)
  {
    forall i | 0 <= i < |lines| ensures HasName(Entries(lines, handOver)[i], name) <==> DeclaresName(lines[i], name) {
      EntryNames(lines, i, handOver, name);
    }
    SameLine(Entries(lines, handOver), lines, name, 0);
  }

  /** The recipes as `just` dumps them. */
  function TableOf(lines: seq<Line>): R.Table {
    TableFrom(Entries(lines, false), 0)
  }

  /** The table in which an entry that hands over an inventory has the inventory's dependencies. */
  function Effective(lines: seq<Line>): R.Table {
    TableFrom(Entries(lines, true), 0)
  }

  /** A recipe is in the table exactly when some line declares it, and the first such line says what it is. */
  lemma InTable(lines: seq<Line>, name: Name)
    ensures name in TableOf(lines) <==> LineOf(lines, name, 0).Some?
    ensures name in TableOf(lines) ==> TableOf(lines)[name] == RecipeAt(lines, LineOf(lines, name, 0).value)
  {
    InTableFrom(Entries(lines, false), 0, name);
    EntryLine(lines, false, name);
  }

  lemma InEffective(lines: seq<Line>, name: Name)
    ensures name in Effective(lines) <==> name in TableOf(lines)
    ensures name in Effective(lines) ==>
      && LineOf(lines, name, 0).Some? && Effective(lines)[name].dependencies == DependenciesOf(WordsOf(lines, name))
      && Effective(lines)[name].hasBody == TableOf(lines)[name].hasBody
      && Effective(lines)[name].parallel == TableOf(lines)[name].parallel
  {
    InTable(lines, name);
    InTableFrom(Entries(lines, true), 0, name);
    EntryLine(lines, true, name);
  }

  // ----- What the text checkers see of it -----

  /** Header and source of `name`, with the header spelled so, are found by looking for `name:`. */
  ghost predicate Followed(lines: seq<Line>, spelled: string, name: Name) {
    var i := LineOf(lines, name, 0);
    && i.Some? && PlainHeading(lines[i.value], spelled)
    && (HandsOver(lines, i.value, name) ==>
          && spelled == name && SourceOf(lines, name).Some?
          && PlainHeading(lines[SourceOf(lines, name).value], name + "-inventory"))
  }

  predicate IsSpelling(spelled: string, name: Name) {
    IsName(name) && (spelled == name || spelled == "@" + name)
  }

  predicate IsPlainChar(c: char) {
    IsNameChar(c) || c == '@'
  }

  predicate IsPlain(w: string) {
    forall i :: 0 <= i < |w| ==> IsPlainChar(w[i])
  }

  /** Outside strings, plain characters change nothing and end nothing. */
  lemma {:induction false} PlainRun(m: Mode, w: string, attributeList: bool)
    requires IsPlain(w) && m.quote.None?
    ensures Unbroken(m, w, attributeList) && After(m, w) == m
    decreases |w|
  {
    if w != "" {
      assert IsPlainChar(w[0]);
      PlainRun(m, w[1..], attributeList);
    }
  }

  lemma PlainIsItsWord(w: string)
    requires IsPlain(w) && w != ""
    ensures DeclarationWords(w, false) == [w]
  {
    PlainRun(OUTSIDE, w, false);
    ReadWord("", OUTSIDE, w, "", false);
    assert w + "" == w && "" + w == w;
  }

  predicate IsSpacedOut(w: string) {
    forall i :: 0 <= i < |w| ==> IsPlainChar(w[i]) || w[i] == ' '
  }

  lemma {:induction false} ColonAfter(w: string, tail: string)
    requires IsSpacedOut(w)
    ensures ColonFrom(OUTSIDE, w + ":" + tail) == Some(|w|)
    decreases |w|
  {
    var line := w + ":" + tail;
    if w != "" {
      assert (IsPlainChar(w[0]) || w[0] == ' ') && line[1..] == w[1..] + ":" + tail;
      ColonAfter(w[1..], tail);
    }
  }

  lemma SpellingIsPlain(spelled: string, name: Name)
    requires IsSpelling(spelled, name)
    ensures IsPlain(spelled) && spelled != "" && Bare(spelled) == name && !IsWhitespace(spelled[0])
  {
    if spelled == "@" + name {
      assert forall i :: 1 <= i < |spelled| ==> spelled[i] == name[i - 1];
    }
  }

  lemma DeclaresPlainly(line: Line, spelled: string, name: Name)
    requires IsSpelling(spelled, name) && Declares(line, spelled)
    ensures PlainHeading(line, spelled)
  {
    var tail := line[|spelled| + 1..];
    SpellingIsPlain(spelled, name);
    assert line == spelled + ":" + tail && line[0] == spelled[0];
    ColonAfter(spelled, tail);
    PlainIsItsWord(spelled);
  }

  lemma PlainDeclares(line: Line, spelled: string, name: Name)
    requires IsSpelling(spelled, name) && PlainHeading(line, spelled)
    ensures Declares(line, spelled) && DeclaresName(line, name)
    ensures line[|spelled| + 1..] == HeadingOf(line).value.tail
  {
    var tail := HeadingOf(line).value.tail;
    SpellingIsPlain(spelled, name);
    assert line[..|spelled|] == spelled && line[|spelled|] == ':' && line[|spelled| + 1..] == tail;
    ColonAfter(spelled, tail);
  }

  /** The checkers' header lines for a name are exactly the ones where the colon directly follows it. */
  lemma DeclaresExactly(line: Line, spelled: string, name: Name)
    requires IsSpelling(spelled, name)
    ensures Declares(line, spelled) <==> PlainHeading(line, spelled)
    ensures PlainHeading(line, spelled) ==>
      DeclaresName(line, name) && line[|spelled| + 1..] == HeadingOf(line).value.tail
  {
    if Declares(line, spelled) { DeclaresPlainly(line, spelled, name); }
    if PlainHeading(line, spelled) { PlainDeclares(line, spelled, name); }
  }

  lemma OnlyLine(lines: seq<Line>, i: nat, name: Name)
    requires WellFormed(lines) && i < |lines| && DeclaresName(lines[i], name)
    ensures LineOf(lines, name, 0) == Some(i) && name in TableOf(lines)
  {
    assert Bare(HeadingOf(lines[i]).value.spelled) == name;
    InTable(lines, name);
  }

  lemma {:induction false} FirstDeclares(lines: seq<Line>, spelled: string, from: nat)
    requires from <= |lines|
    ensures HeaderFrom(lines, spelled, from).None? ==> forall k :: from <= k < |lines| ==> !Declares(lines[k], spelled)
    decreases |lines| - from
  {
    if from < |lines| { FirstDeclares(lines, spelled, from + 1); }
  }

  /** The checkers find a header exactly where the recipe is declared plainly, and nowhere else. */
  lemma HeaderExactly(lines: seq<Line>, spelled: string, name: Name)
    requires WellFormed(lines) && IsSpelling(spelled, name)
    ensures var i := LineOf(lines, name, 0);
      Header(lines, spelled) == if i.Some? && PlainHeading(lines[i.value], spelled) then i else None
  {
    var h := Header(lines, spelled);
    FirstDeclares(lines, spelled, 0);
    if h.Some? {
      DeclaresExactly(lines[h.value], spelled, name);
      OnlyLine(lines, h.value, name);
    } else if LineOf(lines, name, 0).Some? {
      DeclaresExactly(lines[LineOf(lines, name, 0).value], spelled, name);
    }
  }

  lemma FoundAt(lines: seq<Line>, i: nat, name: Name)
    requires WellFormed(lines) && i < |lines| && IsName(name) && PlainHeading(lines[i], name)
    ensures LineOf(lines, name, 0) == Some(i) && Header(lines, name) == Some(i)
  {
    DeclaresExactly(lines[i], name, name);
    OnlyLine(lines, i, name);
    HeaderExactly(lines, name, name);
  }

  lemma InventoryName(name: Name)
    requires IsName(name)
    ensures IsName(name + "-inventory") && !IsEntry(name + "-inventory")
  {
    var inventory := name + "-inventory";
    assert inventory[0] == name[0];
    forall i | 0 <= i < |inventory| ensures IsNameChar(inventory[i]) {
      if i < |name| { assert inventory[i] == name[i]; } else { assert inventory[i] == "-inventory"[i - |name|]; }
    }
    assert |"-inventory"| == 10 && |"ci-full"| == 7;
  }

  /** The dependencies of a recipe that is not redirected, as the checkers read them. */
  lemma ReadsOwnWords(lines: seq<Line>, spelled: string, name: Name)
    requires WellFormed(lines) && IsSpelling(spelled, name) && !Redirected(lines, spelled)
    ensures var i := LineOf(lines, name, 0);
      RecipeDependencies(lines, spelled)
      == if i.Some? && PlainHeading(lines[i.value], spelled) then Some(WordsAt(lines, i.value)) else None
  {
    HeaderExactly(lines, spelled, name);
    var i := LineOf(lines, name, 0);
    if i.Some? && PlainHeading(lines[i.value], spelled) {
      DeclaresExactly(lines[i.value], spelled, name);
    }
  }

  lemma {:induction false} BlankHasNoWords(tail: string)
    requires IsBlank(tail)
    ensures DeclarationWords(tail, false) == []
  {
    if tail != "" {
      assert IsWhitespace(tail[0]);
      BlankHasNoWords(tail[1..]);
    }
  }

  /** An entry without dependencies hands over its inventory, so that the checkers read something for it. */
  ghost predicate Resolved(lines: seq<Line>, name: Name) {
    var i := LineOf(lines, name, 0);
    IsEntry(name) && i.Some? && WordlessAt(lines, i.value) ==> HandsOver(lines, i.value, name)
  }

  lemma WordlessHasNoWords(lines: seq<Line>, i: nat)
    requires i < |lines| && WordlessAt(lines, i)
    ensures WordsAt(lines, i) == []
  {
    BlankHasNoWords(HeadingOf(lines[i]).value.tail);
  }

  /** The checkers redirect an entry with nothing after its colon. */
  lemma RedirectedExactly(lines: seq<Line>, spelled: string, name: Name)
    requires WellFormed(lines) && IsSpelling(spelled, name)
    ensures var i := LineOf(lines, name, 0);
      Redirected(lines, spelled) <==>
        spelled == name && IsEntry(name) && i.Some? && PlainHeading(lines[i.value], name) && WordlessAt(lines, i.value)
  {
    HeaderExactly(lines, spelled, name);
    var i := LineOf(lines, name, 0);
    if i.Some? { DeclaresExactly(lines[i.value], spelled, name); }
    assert ("@" + name)[0] == '@' && "ci"[0] == 'c' && "ci-full"[0] == 'c';
    assert !IsEntry("@" + name);
  }

  /** What they read for a redirected entry: its inventory's words, or nothing if it does not hand one over. */
  lemma ReadsInventory(lines: seq<Line>, name: Name)
    requires WellFormed(lines) && IsName(name) && Redirected(lines, name)
    ensures LineOf(lines, name, 0).Some?
    ensures HandsOver(lines, LineOf(lines, name, 0).value, name) ==>
      RecipeDependencies(lines, name) == if Followed(lines, name, name) then Some(WordsOf(lines, name)) else None
    ensures !HandsOver(lines, LineOf(lines, name, 0).value, name) ==>
      RecipeDependencies(lines, name) == None && WordsOf(lines, name) == []
  {
    HeaderExactly(lines, name, name);
    RedirectedExactly(lines, name, name);
    InventoryName(name);
    WordlessHasNoWords(lines, LineOf(lines, name, 0).value);
    if HandsOver(lines, LineOf(lines, name, 0).value, name) {
      ReadsOwnWords(lines, name + "-inventory", name + "-inventory");
    }
  }

  /** What the checkers read for a header: its source's words if it is followed, and nothing otherwise. */
  lemma ReadsExactly(lines: seq<Line>, spelled: string, name: Name)
    requires WellFormed(lines) && IsSpelling(spelled, name)
    ensures var read := RecipeDependencies(lines, spelled);
      && (Followed(lines, spelled, name) && Resolved(lines, name) ==> read == Some(WordsOf(lines, name)))
      && (Followed(lines, spelled, name) && read.None? ==> WordsOf(lines, name) == [])
      && (Followed(lines, spelled, name) && read.Some? ==> read.value == WordsOf(lines, name))
      && (!Followed(lines, spelled, name) && read.Some? ==> read.value == [] && spelled != name)
  {
    RedirectedExactly(lines, spelled, name);
    if Redirected(lines, spelled) {
      ReadsInventory(lines, name);
    } else {
      ReadsOwnWords(lines, spelled, name);
      var i := LineOf(lines, name, 0);
      if i.Some? && WordlessAt(lines, i.value) { WordlessHasNoWords(lines, i.value); }
    }
  }
}
