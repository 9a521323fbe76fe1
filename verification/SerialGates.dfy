/** The hygiene rule that serial Rust gates close the inventory and no parallel recipe reaches one. */
module SerialGates {
  import opened Lines
  import opened Justfile
  import opened Declarations
  import opened Expansion
  import opened Visibility

  const SERIAL_RUST_GATES: seq<Name> := ["fmt-check", "clippy", "test", "doc", "deny"]

  predicate IsSerial(gate: Name) {
    gate in SERIAL_RUST_GATES || gate == "typescript"
  }

  ghost predicate ParallelRecipe(lines: seq<Line>, i: nat, name: Name)
    requires i < |lines|
  {
    !IsAttribute(lines[i]) && ParallelAbove(lines, i) && name == LeadingName(lines[i]) && name != ""
  }

  /** The recipes whose attribute lines include `parallel`, found by one pass with a flag. */
  method ParallelRecipes(lines: seq<Line>) returns (recipes: seq<Name>)
    ensures forall name :: name in recipes <==> exists i :: 0 <= i < |lines| && ParallelRecipe(lines, i, name)
  {
    recipes := [];
    var parallel := false;
    for i := 0 to |lines|
      invariant parallel <==> ParallelAbove(lines, i)
      invariant forall name :: name in recipes <==> exists k :: 0 <= k < i && ParallelRecipe(lines, k, name)
    {
      var line := lines[i];
      ghost var earlier := recipes;
      if IsAttribute(line) {
        var words := ScanDeclarationWords(line, true);
        if "parallel" in words { parallel := true; }
      } else {
        if parallel {
          var name := LeadingName(line);
          if name != "" { recipes := recipes + [name]; }
        }
        parallel := false;
      }
      forall name ensures name in recipes <==> name in earlier || ParallelRecipe(lines, i, name) {}
    }
  }

  function Occurrences(gates: seq<Name>, gate: Name): nat {
    multiset(gates)[gate]
  }

  /** `recipe` is declared and ends with each serial Rust gate exactly once. */
  ghost predicate EndsSerially(graph: Graph, recipe: Name) {
    && Gates(graph, recipe, false).Some?
    && var gates := Gates(graph, recipe, false).value;
    && (forall g :: g in SERIAL_RUST_GATES ==> Occurrences(gates, g) == 1)
    && EndsWithSerial(gates)
  }

  predicate EndsWithSerial(gates: seq<Name>) {
    |SERIAL_RUST_GATES| <= |gates| && gates[|gates| - |SERIAL_RUST_GATES|..] == SERIAL_RUST_GATES
  }

  ghost predicate ReachesSerial(graph: Graph, group: Name) {
    exists g :: IsSerial(g) && Reaches(graph, group, g)
  }

  method CheckEntry(graph: Graph, groups: seq<Name>, recipe: Name) returns (ok: bool)
    ensures ok <==> EndsSerially(graph, recipe) && recipe !in groups
  {
    var gates := DependencyGates(graph, recipe, false);
    if gates.None? { return false; }
    var once := forall g :: g in SERIAL_RUST_GATES ==> Occurrences(gates.value, g) == 1;
    ok := !(recipe in groups || !once || !EndsWithSerial(gates.value));
  }

  /** The gate checker: entries first, then every parallel recipe against everything it reaches. */
  method CheckSerialRustGates(graph: Graph, groups: seq<Name>) returns (ok: bool)
    ensures ok <==>
      && EndsSerially(graph, "ci") && EndsSerially(graph, "ci-full") && "ci" !in groups && "ci-full" !in groups
      && forall group :: group in groups ==> !ReachesSerial(graph, group)
  {
    ok := CheckEntry(graph, groups, "ci");
    if !ok { return; }
    ok := CheckEntry(graph, groups, "ci-full");
    if !ok { return; }
    for i := 0 to |groups|
      invariant forall group :: group in groups[..i] ==> !ReachesSerial(graph, group)
    {
      var members := DependencyGates(graph, groups[i], true);
      assert groups[i] in groups;
      SerialMember(graph, groups[i]);
      if members.Some? && exists m :: m in members.value && IsSerial(m) { return false; }
    }
  }

  lemma SerialMember(graph: Graph, group: Name)
    ensures ReachesSerial(graph, group) <==>
      Gates(graph, group, true).Some? && exists m :: m in Gates(graph, group, true).value && IsSerial(m)
  {
    if ReachesSerial(graph, group) {
      var g :| IsSerial(g) && Reaches(graph, group, g);
      var p :| WalkBetween(graph, p, group, g);
      assert Edge(graph, p[0], p[1]);
    }
    if group in graph.dependencies {
      forall g { GatesAreReachable(graph, group, g); }
    }
  }

  // ----- The whole check on a justfile -----

  /** `name` is spelled so on a line below a `parallel` attribute. */
  ghost predicate Parallel(lines: seq<Line>, name: string) {
    exists i :: 0 <= i < |lines| && ParallelRecipe(lines, i, name)
  }

  ghost predicate EntriesAreSerial(lines: seq<Line>) {
    && EndsSerially(GraphOf(lines), "ci") && EndsSerially(GraphOf(lines), "ci-full")
    && !Parallel(lines, "ci") && !Parallel(lines, "ci-full")
  }

  ghost predicate Accepted(lines: seq<Line>) {
    EntriesAreSerial(lines) && forall group :: Parallel(lines, group) ==> !ReachesSerial(GraphOf(lines), group)
  }

  method HygieneAdmits(lines: seq<Line>) returns (ok: bool)
    ensures ok <==> Accepted(lines)
  {
    var groups := ParallelRecipes(lines);
    assert forall group :: group in groups <==> Parallel(lines, group);
    ok := CheckSerialRustGates(GraphOf(lines), groups);
  }

  // ----- What acceptance says about the recipes as `just` reads them -----

  /** `name` is a recipe with the `parallel` attribute. */
  ghost predicate IsParallel(lines: seq<Line>, name: Name) {
    name in TableOf(lines) && TableOf(lines)[name].parallel
  }

  /** The name as it is spelled where the recipe is declared. */
  function SpellingOf(lines: seq<Line>, name: Name): string {
    var i := LineOf(lines, name, 0);
    if i.Some? then HeadingOf(lines[i.value]).value.spelled else name
  }

  /** A declared chain from `name` ends in a serial gate. */
  ghost predicate SerialChain(lines: seq<Line>, name: Name, p: seq<Name>) {
    ChainFrom(Effective(lines), name, p) && IsSerial(p[|p| - 1])
  }

  /** No parallel recipe depends on a serial gate, directly or along any chain. */
  ghost predicate KeepsOff(lines: seq<Line>) {
    forall name, p: seq<Name> :: IsParallel(lines, name) ==> !SerialChain(lines, name, p)
  }

  /** A parallel recipe depends on a serial gate along a chain with a step that the checkers do not read. */
  ghost predicate Hides(lines: seq<Line>) {
    exists name, p: seq<Name> ::
      IsParallel(lines, name) && SerialChain(lines, name, p) && !Seen(lines, SpellingOf(lines, name), p)
  }

  lemma SerialIsName(g: Name)
    requires IsSerial(g)
    ensures IsName(g)
  {
  }

  lemma {:induction false} LeadingNamePrefix(line: Line)
    requires LeadingName(line) != ""
    ensures line != "" && LeadingName(line)[0] == line[0]
  {
  }

  /** A header line begins with a spelling of the recipe's name. */
  lemma HeadingIsSpelling(line: Line, name: Name)
    requires ProperLine(line) && DeclaresName(line, name)
    ensures IsSpelling(LeadingName(line), name) && LeadingName(line) != "" && !IsAttribute(line)
  {
    var spelled := LeadingName(line);
    BareSpelling(spelled, name);
    SpellingIsPlain(spelled, name);
    LeadingNamePrefix(line);
    assert IsPlainChar(spelled[0]);
  }

  /** A parallel recipe is listed by the check under its spelling. */
  lemma ParallelIsListed(lines: seq<Line>, name: Name)
    requires WellFormed(lines) && IsParallel(lines, name)
    ensures IsSpelling(SpellingOf(lines, name), name) && Parallel(lines, SpellingOf(lines, name))
  {
    InTable(lines, name);
    var i := LineOf(lines, name, 0).value;
    assert ProperLine(lines[i]);
    HeadingIsSpelling(lines[i], name);
    assert ParallelRecipe(lines, i, SpellingOf(lines, name));
  }

  lemma BareSpelling(spelled: string, name: Name)
    requires Bare(spelled) == name && IsName(name)
    ensures IsSpelling(spelled, name)
  {
    assert spelled != name ==> spelled == "@" + name;
  }

  /** A listed parallel recipe is one. */
  lemma ListedIsParallel(lines: seq<Line>, group: string) returns (name: Name)
    requires WellFormed(lines) && Parallel(lines, group)
    ensures IsParallel(lines, name) && SpellingOf(lines, name) == group
  {
    var i :| 0 <= i < |lines| && ParallelRecipe(lines, i, group);
    assert ProperLine(lines[i]);
    name := Bare(HeadingOf(lines[i]).value.spelled);
    OnlyLine(lines, i, name);
    InTable(lines, name);
  }

  /** The check catches a parallel recipe exactly when it reads every step of a chain to a serial gate. */
  lemma CaughtExactly(lines: seq<Line>, name: Name)
    requires WellFormed(lines) && IsParallel(lines, name)
    ensures ReachesSerial(GraphOf(lines), SpellingOf(lines, name))
       <==> exists p: seq<Name> :: SerialChain(lines, name, p) && Seen(lines, SpellingOf(lines, name), p)
  {
    var spelled := SpellingOf(lines, name);
    ParallelIsListed(lines, name);
    if ReachesSerial(GraphOf(lines), spelled) {
      var g :| IsSerial(g) && Reaches(GraphOf(lines), spelled, g);
      SerialIsName(g);
      var p := ReachedIsSeen(lines, spelled, name, g);
      assert SerialChain(lines, name, p) && Seen(lines, spelled, p);
    }
    forall p: seq<Name> | SerialChain(lines, name, p) && Seen(lines, spelled, p)
      ensures ReachesSerial(GraphOf(lines), spelled)
    {
      SeenIsReached(lines, spelled, name, p[|p| - 1], p);
    }
  }

  /** In an accepted justfile no parallel recipe depends on a serial gate, if and only if none hides it. */
  lemma AcceptedKeepsOffExactly(lines: seq<Line>)
    requires WellFormed(lines) && Accepted(lines)
    ensures KeepsOff(lines) <==> !Hides(lines)
  {
    forall name, p: seq<Name> | IsParallel(lines, name) && SerialChain(lines, name, p)
      ensures !Seen(lines, SpellingOf(lines, name), p)
    {
      CaughtExactly(lines, name);
      ParallelIsListed(lines, name);
    }
  }

  /** Whatever a parallel recipe reaches is written with the colon after the name and without parentheses. */
  ghost predicate PlainBelowParallel(lines: seq<Line>) {
    forall name :: IsParallel(lines, name) ==> PlainFrom(lines, Effective(lines), SpellingOf(lines, name), name)
  }

  /** Where that is so, the check catches a parallel recipe exactly when it depends on a serial gate. */
  lemma PlainCaughtExactly(lines: seq<Line>, name: Name)
    requires WellFormed(lines) && IsParallel(lines, name)
    requires PlainFrom(lines, Effective(lines), SpellingOf(lines, name), name)
    ensures ReachesSerial(GraphOf(lines), SpellingOf(lines, name))
       <==> exists p: seq<Name> :: SerialChain(lines, name, p)
  {
    CaughtExactly(lines, name);
    forall p: seq<Name> | SerialChain(lines, name, p) ensures Seen(lines, SpellingOf(lines, name), p) {
      PlainChainIsSeen(lines, SpellingOf(lines, name), name, p);
    }
  }

  /** ... and a justfile is accepted exactly when its entries are serial and no parallel recipe depends on a gate. */
  lemma PlainAcceptedExactly(lines: seq<Line>)
    requires WellFormed(lines) && PlainBelowParallel(lines)
    ensures Accepted(lines) <==> EntriesAreSerial(lines) && KeepsOff(lines)
  {
    forall name | IsParallel(lines, name)
      ensures Parallel(lines, SpellingOf(lines, name))
      ensures ReachesSerial(GraphOf(lines), SpellingOf(lines, name))
         <==> exists p: seq<Name> :: SerialChain(lines, name, p)
    {
      ParallelIsListed(lines, name);
      PlainCaughtExactly(lines, name);
    }
    forall group | Parallel(lines, group)
      ensures exists name :: IsParallel(lines, name) && SpellingOf(lines, name) == group
    {
      var name := ListedIsParallel(lines, group);
    }
  }
}
