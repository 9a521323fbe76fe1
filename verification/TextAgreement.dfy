/** The two expanders agree on what a justfile says, stated on its lines alone. */
module TextAgreement {
  import opened Common
  import opened Lines
  import opened Justfile
  import opened Declarations
  import opened Visibility
  import opened Expansion
  import opened Agreement
  import opened SerialExamples
  import R = Recipes

  /** Written plainly, and an entry with nothing after its colon hands its inventory over. */
  ghost predicate PlainRecipe(lines: seq<Line>, name: Name) {
    WrittenPlainly(lines, name, name) && Resolved(lines, name)
  }

  lemma {:induction false} NamesOfWords(words: seq<string>)
    requires forall w :: w in words ==> !Parenthesized(w)
    ensures Names(DependenciesOf(words)) == words
  {
    if words != [] {
      assert words[0] in words;
      assert DependenciesOf(words)[1..] == DependenciesOf(words[1..]);
      NamesOfWords(words[1..]);
    }
  }

  lemma TableName(lines: seq<Line>, name: Name)
    requires name in TableOf(lines)
    ensures IsName(name) && LineOf(lines, name, 0).Some?
    ensures TableOf(lines)[name].hasBody == BodyBelow(lines, LineOf(lines, name, 0).value)
  {
    InTable(lines, name);
  }

  /** A recipe whose header the checkers do not find counts as having a body. */
  lemma GroupsAlike(lines: seq<Line>, name: Name)
    requires WellFormed(lines) && name in TableOf(lines)
    requires TableOf(lines)[name].hasBody || WrittenPlainly(lines, name, name)
    ensures name in GraphOf(lines).groups <==> !TableOf(lines)[name].hasBody
  {
    TableName(lines, name);
    HeaderExactly(lines, name, name);
  }

  lemma WordsAlike(lines: seq<Line>, name: Name)
    requires WellFormed(lines) && name in TableOf(lines) && PlainRecipe(lines, name)
    ensures Lookup(GraphOf(lines), name) == Some(WordsOf(lines, name))
    ensures Names(DependenciesOf(WordsOf(lines, name))) == WordsOf(lines, name)
  {
    TableName(lines, name);
    ReadsExactly(lines, name, name);
    NamesOfWords(WordsOf(lines, name));
  }

  /** A recipe without a body names its dependencies itself. */
  lemma OwnWords(lines: seq<Line>, name: Name)
    requires WellFormed(lines) && name in TableOf(lines) && !TableOf(lines)[name].hasBody
    ensures TableOf(lines)[name].dependencies == DependenciesOf(WordsOf(lines, name))
  {
    TableName(lines, name);
    InTable(lines, name);
    assert !HandsOver(lines, LineOf(lines, name, 0).value, name);
  }

  lemma TableAlike(lines: seq<Line>, name: Name)
    requires WellFormed(lines) && name in TableOf(lines)
    requires TableOf(lines)[name].hasBody || PlainRecipe(lines, name)
    ensures ReadAlike(GraphOf(lines), TableOf(lines), name, false)
  {
    GroupsAlike(lines, name);
    if !TableOf(lines)[name].hasBody {
      OwnWords(lines, name);
      WordsAlike(lines, name);
    }
  }

  /** The groups that expanding `root` explores are written plainly; recipes with bodies are gates in any spelling. */
  ghost predicate PlainGroups(lines: seq<Line>, table: R.Table, root: Name) {
    forall n :: n in table && ExploredTo(table, root, n, false) ==> table[n].hasBody || PlainRecipe(lines, n)
  }

  lemma TextRepresents(lines: seq<Line>, root: Name)
    requires WellFormed(lines) && PlainGroups(lines, TableOf(lines), root)
    ensures Represents(GraphOf(lines), TableOf(lines), root, false)
  {
    forall n | ExploredTo(TableOf(lines), root, n, false) && n in TableOf(lines)
      ensures ReadAlike(GraphOf(lines), TableOf(lines), n, false)
    {
      TableAlike(lines, n);
    }
  }

  /** Both expanders list the same gates for a group, whatever else the justfile declares and however. */
  lemma TextInventoryAgrees(lines: seq<Line>, root: Name)
    requires WellFormed(lines) && PlainGroups(lines, TableOf(lines), root)
    requires R.Leaves(TableOf(lines), root, {}, false).Success? && !TableOf(lines)[root].hasBody
    ensures Gates(GraphOf(lines), root, false) == Some(R.Leaves(TableOf(lines), root, {}, false).value)
  {
    TextRepresents(lines, root);
    InventoryAgrees(lines, TableOf(lines), root);
  }

  // ----- A justfile with a parameterised recipe that the inventory does not reach -----

  lemma DeclaredAt(lines: seq<Line>, i: nat, name: Name)
    requires WellFormed(lines) && i < |lines| && IsName(name) && PlainHeading(lines[i], name)
    ensures name in TableOf(lines) && LineOf(lines, name, 0) == Some(i) && TableOf(lines)[name] == RecipeAt(lines, i)
  {
    DeclaresExactly(lines[i], name, name);
    OnlyLine(lines, i, name);
    InTable(lines, name);
  }

  lemma GateRecipe(gates: seq<Name>, header: Line, k: nat)
    requires Suitable(gates, header) && k < |gates|
    ensures var table := TableOf(Example(gates, header));
      R.Clean(table, gates[k]) && table[gates[k]].hasBody
  {
    var lines := Example(gates, header);
    ExampleIsWellFormed(gates, header);
    GateAt(gates, k);
    HeadingAt(gates, header, 2 * k + 2);
    LineAt(gates, header, 2 * k + 2);
    LineAt(gates, header, 2 * k + 3);
    assert gates[k] in gates;
    DeclaredAt(lines, 2 * k + 2, gates[k]);
    CommandIsBody(lines, 2 * k + 2);
    assert WordsAt(lines, 2 * k + 2) == [];
  }

  lemma EntryHeading(gates: seq<Name>, header: Line)
    requires Suitable(gates, header)
    ensures var lines := Example(gates, header);
      && PlainHeading(lines[0], "ci") && !HeadingOf(lines[0]).value.hasParameters
      && WordsAt(lines, 0) == gates && !BodyBelow(lines, 0) && !WordlessAt(lines, 0)
  {
    var lines := Example(gates, header);
    HeadingAt(gates, header, 0);
    LineAt(gates, header, 0);
    NamesAreWords(gates);
    assert lines[1..][0] == "ci-full" + ":" + (" " + Join(gates)) && lines[1..][0][0] == 'c';
  }

  lemma EntryRecipe(gates: seq<Name>, header: Line)
    requires Suitable(gates, header)
    ensures var table := TableOf(Example(gates, header));
      && "ci" in table && !table["ci"].hasParameters && !table["ci"].hasBody
      && table["ci"].dependencies == DependenciesOf(gates)
    ensures LineOf(Example(gates, header), "ci", 0) == Some(0)
  {
    ExampleIsWellFormed(gates, header);
    OwnNames();
    EntryHeading(gates, header);
    DeclaredAt(Example(gates, header), 0, "ci");
  }

  lemma NamesAreDependencies(names: seq<Name>)
    requires forall n :: n in names ==> IsName(n)
    ensures |DependenciesOf(names)| == |names|
    ensures forall k :: 0 <= k < |names| ==> DependenciesOf(names)[k] == R.Dependency(names[k], false)
  {
    forall k | 0 <= k < |names| ensures !Parenthesized(names[k]) {
      assert names[k] in names && IsNameChar(names[k][0]);
    }
  }

  /** Dependencies that are all argument-free gates expand to themselves. */
  lemma {:induction false} LeavesOfGates(table: R.Table, dependencies: seq<R.Dependency>, visiting: set<Name>)
    requires forall d :: d in dependencies ==>
      R.Clean(table, d.recipe) && table[d.recipe].hasBody && d.recipe !in visiting
    ensures R.LeavesOfAll(table, dependencies, visiting, false) == Success(Names(dependencies))
  {
    if dependencies != [] {
      assert dependencies[0] in dependencies;
      LeavesOfGates(table, dependencies[1..], visiting);
    }
  }

  /** `root` groups exactly these gates, each of which has a body. */
  ghost predicate GroupsGates(table: R.Table, root: Name, gates: seq<Name>) {
    && root in table && !table[root].hasParameters && !table[root].hasBody && root !in gates
    && |table[root].dependencies| == |gates|
    && (forall k :: 0 <= k < |gates| ==> table[root].dependencies[k] == R.Dependency(gates[k], false))
    && (forall g :: g in gates ==> R.Clean(table, g) && table[g].hasBody)
  }

  lemma OnlyGatesExplored(table: R.Table, root: Name, gates: seq<Name>, n: Name)
    requires GroupsGates(table, root, gates) && ExploredTo(table, root, n, false)
    ensures n == root || n in gates
  {
    var p :| R.Explored(table, p, false) && p[0] == root && p[|p| - 1] == n;
    if |p| > 1 {
      assert R.Edge(table, p[0], p[0 + 1]);
      assert |p| > 2 ==> R.Descends(table, p[1], false);
    }
  }

  lemma {:induction false} NamesAt(dependencies: seq<R.Dependency>, gates: seq<Name>)
    requires |dependencies| == |gates| && forall k :: 0 <= k < |gates| ==> dependencies[k].recipe == gates[k]
    ensures Names(dependencies) == gates
  {
    if gates != [] { NamesAt(dependencies[1..], gates[1..]); }
  }

  lemma GroupExpands(table: R.Table, root: Name, gates: seq<Name>)
    requires GroupsGates(table, root, gates)
    ensures R.Leaves(table, root, {}, false) == Success(gates)
  {
    var dependencies := table[root].dependencies;
    forall d | d in dependencies ensures d.recipe in gates && !d.hasArguments {
      var k :| 0 <= k < |dependencies| && dependencies[k] == d;
    }
    LeavesOfGates(table, dependencies, {} + {root});
    NamesAt(dependencies, gates);
    assert gates + [] == gates;
  }

  lemma ExampleGroups(gates: seq<Name>, header: Line)
    requires Suitable(gates, header)
    ensures GroupsGates(TableOf(Example(gates, header)), "ci", gates)
  {
    EntryRecipe(gates, header);
    NamesAreDependencies(gates);
    forall g | g in gates
      ensures R.Clean(TableOf(Example(gates, header)), g) && TableOf(Example(gates, header))[g].hasBody {
      var k :| 0 <= k < |gates| && gates[k] == g;
      GateRecipe(gates, header, k);
    }
  }

  lemma PlainHere(lines: seq<Line>, i: nat, name: Name)
    requires i < |lines| && LineOf(lines, name, 0) == Some(i) && PlainHeading(lines[i], name) && !WordlessAt(lines, i)
    requires forall w :: w in WordsAt(lines, i) ==> !Parenthesized(w)
    ensures PlainRecipe(lines, name)
  {
  }

  lemma EntryIsPlain(gates: seq<Name>, header: Line)
    requires Suitable(gates, header)
    ensures PlainRecipe(Example(gates, header), "ci")
  {
    EntryRecipe(gates, header);
    EntryHeading(gates, header);
    NamesAreBare(gates);
    PlainHere(Example(gates, header), 0, "ci");
  }

  lemma NamesAreBare(names: seq<Name>)
    requires forall n :: n in names ==> IsName(n)
    ensures forall n :: n in names ==> !Parenthesized(n)
  {
    forall n | n in names ensures !Parenthesized(n) { assert IsName(n) && IsNameChar(n[0]); }
  }

  /** The text and the dump of the example agree on its entry, however the last line declares `batch`. */
  lemma ExampleIsRepresented(gates: seq<Name>, header: Line)
    requires Suitable(gates, header)
    ensures var lines := Example(gates, header);
      && Represents(GraphOf(lines), TableOf(lines), "ci", false)
      && R.Leaves(TableOf(lines), "ci", {}, false) == Success(gates)
      && Gates(GraphOf(lines), "ci", false) == Some(gates)
  {
    var lines := Example(gates, header);
    ExampleIsWellFormed(gates, header);
    ExampleGroups(gates, header);
    EntryIsPlain(gates, header);
    GroupExpands(TableOf(lines), "ci", gates);
    forall n | ExploredTo(TableOf(lines), "ci", n, false) && n in TableOf(lines)
      ensures TableOf(lines)[n].hasBody || PlainRecipe(lines, n)
    {
      OnlyGatesExplored(TableOf(lines), "ci", gates, n);
    }
    TextRepresents(lines, "ci");
    InventoryAgrees(lines, TableOf(lines), "ci");
  }

  lemma BatchTakesParameters(gates: seq<Name>, header: Line)
    requires Suitable(gates, header) && HeadingOf(header).value.hasParameters
    ensures "batch" in TableOf(Example(gates, header)) && TableOf(Example(gates, header))["batch"].hasParameters
  {
    BatchIsDeclared(gates, header);
    LastLine(gates, header);
    TakesParameters(Example(gates, header), 2 * |gates| + 3, "batch", header);
  }

  lemma TakesParameters(lines: seq<Line>, i: nat, name: Name, header: Line)
    requires i < |lines| && lines[i] == header && LineOf(lines, name, 0) == Some(i) && name in TableOf(lines)
    requires HeadingOf(header).Some? && HeadingOf(header).value.hasParameters
    ensures TableOf(lines)[name].hasParameters
  {
    InTable(lines, name);
  }

  /** In particular where `batch` takes a parameter, so that the checkers find no header for it. */
  lemma UnreachedParameter(gates: seq<Name>, parameter: Name, gate: Name)
    requires Listable(gates) && IsName(parameter) && IsName(gate)
    ensures var lines := Example(gates, WithParameter("batch", parameter, gate));
      && "batch" in TableOf(lines) && TableOf(lines)["batch"].hasParameters
      && Represents(GraphOf(lines), TableOf(lines), "ci", false)
      && Gates(GraphOf(lines), "ci", false) == Some(gates)
  {
    ParameterSuits(gates, parameter, gate);
    BatchTakesParameters(gates, WithParameter("batch", parameter, gate));
    ExampleIsRepresented(gates, WithParameter("batch", parameter, gate));
  }
}
