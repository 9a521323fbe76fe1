/** Exactly which justfiles the two expanders agree on. */
module ExactAgreement {
  import opened Common
  import opened Lines
  import opened Justfile
  import opened Declarations
  import opened Visibility
  import opened Expansion
  import opened Agreement
  import opened TextAgreement
  import opened SerialExamples
  import E = ExactReach
  import R = Recipes

  // ----- Descending through groups in the checkers' graph -----

  /** From `p[0]` on, each recipe names the next one, which is a group with dependencies. */
  ghost predicate GroupPath(graph: Graph, p: seq<Name>) {
    && |p| > 0 && Distinct(p) && p[0] in graph.dependencies
    && forall i :: 1 <= i < |p| ==> p[i] in graph.groups && Edge(graph, p[i - 1], p[i]) && p[i] in graph.dependencies
  }

  /** A dependency that the checkers take for a gate is listed from the start of the path. */
  lemma {:induction false} LeafIsListed(graph: Graph, p: seq<Name>, expanding: set<Name>, g: Name)
    requires GroupPath(graph, p) && (forall i :: 1 <= i < |p| ==> p[i] !in expanding)
    requires Edge(graph, p[|p| - 1], g) && g !in graph.dependencies
    ensures g in Expand(graph, graph.dependencies[p[0]], expanding, false)
    decreases |p|
  {
    if |p| == 1 {
      ExpandMember(graph, graph.dependencies[p[0]], expanding, false, g, g);
    } else {
      var q := p[1..];
      assert forall i :: 0 <= i < |q| ==> q[i] == p[i + 1];
      assert p[1] in graph.groups && Edge(graph, p[0], p[1]);
      LeafIsListed(graph, q, expanding + {p[1]}, g);
      ExpandMember(graph, graph.dependencies[p[0]], expanding, false, p[1], g);
    }
  }

  // ----- Where a group is not written plainly -----

  /** A plain group is a group of the checkers' graph with the dependencies of the table. */
  lemma PlainGroupIsRead(lines: seq<Line>, name: Name)
    requires WellFormed(lines) && name in TableOf(lines) && !TableOf(lines)[name].hasBody && PlainRecipe(lines, name)
    ensures name in GraphOf(lines).groups && name in GraphOf(lines).dependencies
    ensures GraphOf(lines).dependencies[name] == Names(TableOf(lines)[name].dependencies)
  {
    TableAlike(lines, name);
  }

  /** A group that is not plain is not expanded, or it names a recipe in parentheses. */
  lemma OddGroup(lines: seq<Line>, name: Name)
    requires WellFormed(lines) && name in TableOf(lines) && !TableOf(lines)[name].hasBody && !PlainRecipe(lines, name)
    ensures name in GraphOf(lines).dependencies ==>
      && name in GraphOf(lines).groups
      && exists w :: w in GraphOf(lines).dependencies[name] && Parenthesized(w)
  {
    TableName(lines, name);
    ReadsExactly(lines, name, name);
    RedirectedExactly(lines, name, name);
    if Redirected(lines, name) { ReadsInventory(lines, name); }
    HeaderExactly(lines, name, name);
  }

  lemma {:induction false} NamesMember(dependencies: seq<R.Dependency>, d: R.Dependency)
    requires d in dependencies
    ensures d.recipe in Names(dependencies)
  {
    if d != dependencies[0] { NamesMember(dependencies[1..], d); }
  }

  /** The first group along a chain that is not written plainly. */
  lemma {:induction false} FirstOdd(lines: seq<Line>, p: seq<Name>) returns (k: nat)
    requires |p| > 0 && !PlainRecipe(lines, p[|p| - 1])
    ensures k < |p| && !PlainRecipe(lines, p[k]) && forall i :: 0 <= i < k ==> PlainRecipe(lines, p[i])
  {
    if PlainRecipe(lines, p[0]) {
      k := FirstOdd(lines, p[1..]);
      k := k + 1;
      assert forall i :: 1 <= i < k ==> p[i] == p[1..][i - 1];
    } else {
      k := 0;
    }
  }

  /** A chain of groups in the table. */
  ghost predicate GroupChain(table: R.Table, p: seq<Name>) {
    && R.Chain(table, p) && Distinct(p)
    && forall i :: 0 <= i < |p| ==> p[i] in table && !table[p[i]].hasBody
  }

  /** A chain of groups, plain before the last one, is a path in the checkers' graph. */
  lemma ChainIsPath(lines: seq<Line>, p: seq<Name>)
    requires WellFormed(lines) && GroupChain(TableOf(lines), p)
    requires forall i :: 0 <= i < |p| - 1 ==> PlainRecipe(lines, p[i])
    requires p[|p| - 1] in GraphOf(lines).groups && p[|p| - 1] in GraphOf(lines).dependencies
    ensures GroupPath(GraphOf(lines), p)
  {
    var graph := GraphOf(lines);
    forall i | 0 <= i < |p| ensures p[i] in graph.groups && p[i] in graph.dependencies {
      if i < |p| - 1 { PlainGroupIsRead(lines, p[i]); }
    }
    forall i | 0 <= i < |p| - 1 ensures Edge(graph, p[i], p[i + 1]) { PlainEdge(lines, p, i); }
    PathIf(graph, p);
  }

  lemma PathIf(graph: Graph, p: seq<Name>)
    requires |p| > 0 && Distinct(p)
    requires forall i :: 0 <= i < |p| ==> p[i] in graph.groups && p[i] in graph.dependencies
    requires forall i :: 0 <= i < |p| - 1 ==> Edge(graph, p[i], p[i + 1])
    ensures GroupPath(graph, p)
  {
    forall i | 1 <= i < |p| ensures Edge(graph, p[i - 1], p[i]) { assert Edge(graph, p[i - 1], p[i - 1 + 1]); }
  }

  lemma PlainEdge(lines: seq<Line>, p: seq<Name>, i: nat)
    requires WellFormed(lines) && GroupChain(TableOf(lines), p) && i < |p| - 1 && PlainRecipe(lines, p[i])
    ensures Edge(GraphOf(lines), p[i], p[i + 1])
  {
    PlainGroupIsRead(lines, p[i]);
    assert R.Edge(TableOf(lines), p[i], p[i + 1]);
    var d :| d in TableOf(lines)[p[i]].dependencies && d.recipe == p[i + 1];
    NamesMember(TableOf(lines)[p[i]].dependencies, d);
  }

  // ----- The inventory -----

  /** What the last group names and the checkers do not expand is in their list. */
  lemma OddIsListed(lines: seq<Line>, p: seq<Name>, g: Name)
    requires WellFormed(lines) && GroupChain(TableOf(lines), p)
    requires forall i :: 0 <= i < |p| - 1 ==> PlainRecipe(lines, p[i])
    requires p[|p| - 1] in GraphOf(lines).groups && Edge(GraphOf(lines), p[|p| - 1], g)
    requires g !in GraphOf(lines).dependencies
    ensures Gates(GraphOf(lines), p[0], false).Some? && g in Gates(GraphOf(lines), p[0], false).value
  {
    ChainIsPath(lines, p);
    LeafIsListed(GraphOf(lines), p, {p[0]}, g);
  }

  lemma ChainPart(table: R.Table, p: seq<Name>, n: nat)
    requires GroupChain(table, p) && 0 < n <= |p|
    ensures GroupChain(table, p[..n])
  {
    ChainPrefix(table, p, n);
  }

  lemma UnreadGroupIsListed(lines: seq<Line>, p: seq<Name>, k: nat)
    requires WellFormed(lines) && GroupChain(TableOf(lines), p) && k < |p| && p[k] !in GraphOf(lines).dependencies
    requires (forall i :: 0 <= i < k ==> PlainRecipe(lines, p[i])) && Gates(GraphOf(lines), p[0], false).Some?
    ensures p[k] in Gates(GraphOf(lines), p[0], false).value
  {
    ChainPart(TableOf(lines), p, k);
    PlainEdge(lines, p, k - 1);
    PlainGroupIsRead(lines, p[k - 1]);
    OddIsListed(lines, p[..k], p[k]);
  }

  lemma ParenthesesAreListed(lines: seq<Line>, p: seq<Name>, k: nat, g: string)
    requires WellFormed(lines) && GroupChain(TableOf(lines), p) && k < |p| && p[k] in GraphOf(lines).groups
    requires (forall i :: 0 <= i < k ==> PlainRecipe(lines, p[i])) && Gates(GraphOf(lines), p[0], false).Some?
    requires Edge(GraphOf(lines), p[k], g) && Parenthesized(g)
    ensures g in Gates(GraphOf(lines), p[0], false).value && g !in TableOf(lines)
  {
    ChainPart(TableOf(lines), p, k + 1);
    ParenthesizedIsOdd(lines, g);
    OddIsListed(lines, p[..k + 1], g);
  }

  /** The checkers list something that is no recipe with a body, or nothing at all. */
  lemma OddGroupIsSeen(lines: seq<Line>, p: seq<Name>) returns (g: Name)
    requires WellFormed(lines) && GroupChain(TableOf(lines), p) && !PlainRecipe(lines, p[|p| - 1])
    requires Gates(GraphOf(lines), p[0], false).Some?
    ensures g in Gates(GraphOf(lines), p[0], false).value
    ensures g in TableOf(lines) ==> !TableOf(lines)[g].hasBody
  {
    var k := FirstOdd(lines, p);
    OddGroup(lines, p[k]);
    if p[k] in GraphOf(lines).dependencies {
      g :| g in GraphOf(lines).dependencies[p[k]] && Parenthesized(g);
      ParenthesesAreListed(lines, p, k, g);
    } else {
      g := p[k];
      UnreadGroupIsListed(lines, p, k);
    }
  }

  lemma ParenthesizedIsOdd(lines: seq<Line>, g: string)
    requires WellFormed(lines) && Parenthesized(g)
    ensures g !in TableOf(lines) && g !in GraphOf(lines).dependencies
  {
    ParenthesizedIsNoRecipe(lines, g);
    if g in TableOf(lines) { TableName(lines, g); }
  }

  /** Everything explored before a group is a group, and none comes twice. */
  lemma GroupsAlong(table: R.Table, root: Name, p: seq<Name>)
    requires R.Leaves(table, root, {}, false).Success? && R.Explored(table, p, false) && p[0] == root
    requires !table[root].hasBody && p[|p| - 1] in table && !table[p[|p| - 1]].hasBody
    ensures GroupChain(table, p)
  {
    R.AcceptedChain(table, p, {}, false);
    forall i | 0 <= i < |p| ensures p[i] in table && !table[p[i]].hasBody {
      assert i < |p| - 1 ==> R.Descends(table, p[i], false);
    }
  }

  lemma AgreeingIsPlain(lines: seq<Line>, root: Name, p: seq<Name>)
    requires WellFormed(lines) && R.Leaves(TableOf(lines), root, {}, false).Success? && !TableOf(lines)[root].hasBody
    requires Gates(GraphOf(lines), root, false) == Some(R.Leaves(TableOf(lines), root, {}, false).value)
    requires R.Explored(TableOf(lines), p, false) && p[0] == root
    requires p[|p| - 1] in TableOf(lines) && !TableOf(lines)[p[|p| - 1]].hasBody
    ensures PlainRecipe(lines, p[|p| - 1])
  {
    if !PlainRecipe(lines, p[|p| - 1]) {
      GroupsAlong(TableOf(lines), root, p);
      var g := OddGroupIsSeen(lines, p);
      R.GatesHaveBodies(TableOf(lines), root, {}, false, g);
    }
  }

  /**
   * For a group whose expansion succeeds, both expanders list the same gates in the same order if and
   * only if every group the expansion explores is written plainly.
   */
  lemma InventoryAgreesExactly(lines: seq<Line>, root: Name)
    requires WellFormed(lines) && R.Leaves(TableOf(lines), root, {}, false).Success? && !TableOf(lines)[root].hasBody
    ensures Gates(GraphOf(lines), root, false) == Some(R.Leaves(TableOf(lines), root, {}, false).value)
       <==> PlainGroups(lines, TableOf(lines), root)
  {
    if PlainGroups(lines, TableOf(lines), root) {
      TextInventoryAgrees(lines, root);
    } else if Gates(GraphOf(lines), root, false) == Some(R.Leaves(TableOf(lines), root, {}, false).value) {
      var n :| n in TableOf(lines) && ExploredTo(TableOf(lines), root, n, false)
        && !TableOf(lines)[n].hasBody && !PlainRecipe(lines, n);
      var p :| R.Explored(TableOf(lines), p, false) && p[0] == root && p[|p| - 1] == n;
      AgreeingIsPlain(lines, root, p);
    }
  }

  // ----- A group that names a gate in parentheses -----

  lemma BatchIsGroup(gates: seq<Name>, header: Line, word: string, k: nat)
    requires Suitable(gates, header) && !HeadingOf(header).value.hasParameters && k < |gates|
    requires WithoutAndAnd(DeclarationWords(HeadingOf(header).value.tail, false)) == [word]
    requires DependencyOf(word) == R.Dependency(gates[k], false)
    ensures GroupsGates(TableOf(Example(gates, header)), "batch", [gates[k]])
  {
    LastIsBatch(gates, header);
    GateRecipe(gates, header, k);
    OtherName(gates, k);
    LastGroups(Example(gates, header), "batch", header, word, gates[k]);
  }

  lemma OtherName(gates: seq<Name>, k: nat)
    requires Listable(gates) && k < |gates|
    ensures gates[k] != "batch"
  {
    assert gates[k] in gates;
  }

  lemma LastIsBatch(gates: seq<Name>, header: Line)
    requires Suitable(gates, header)
    ensures LastDeclares(Example(gates, header), "batch", header)
  {
    BatchIsDeclared(gates, header);
    LastLine(gates, header);
  }

  /** The last line is `header`, and it declares `name`. */
  predicate LastDeclares(lines: seq<Line>, name: Name, header: Line) {
    |lines| > 0 && lines[|lines| - 1] == header && LineOf(lines, name, 0) == Some(|lines| - 1)
  }

  lemma LastGroups(lines: seq<Line>, name: Name, header: Line, word: string, gate: Name)
    requires LastDeclares(lines, name, header) && name != gate
    requires HeadingOf(header).Some? && !HeadingOf(header).value.hasParameters
    requires WithoutAndAnd(DeclarationWords(HeadingOf(header).value.tail, false)) == [word]
    requires DependencyOf(word) == R.Dependency(gate, false)
    requires R.Clean(TableOf(lines), gate) && TableOf(lines)[gate].hasBody
    ensures GroupsGates(TableOf(lines), name, [gate])
  {
    InTable(lines, name);
    assert lines[|lines|..] == [];
    assert DependenciesOf([word])[0] == R.Dependency(gate, false);
  }

  lemma NamedInParentheses(lines: seq<Line>, root: Name, word: string, gate: Name)
    requires WellFormed(lines) && GroupsGates(TableOf(lines), root, [gate])
    requires word in WordsOf(lines, root) && Parenthesized(word)
    ensures R.Leaves(TableOf(lines), root, {}, false) == Success([gate])
    ensures Gates(GraphOf(lines), root, false) != Some([gate])
  {
    GroupExpands(TableOf(lines), root, [gate]);
    TableName(lines, root);
    InventoryAgreesExactly(lines, root);
    assert R.Explored(TableOf(lines), [root], false) && ExploredTo(TableOf(lines), root, root, false);
    assert !PlainRecipe(lines, root);
  }

  /** Such a group expands to the gate for the scheduler and not for the checkers. */
  lemma ParenthesesDisagree(gates: seq<Name>, k: nat)
    requires Listable(gates) && k < |gates|
    ensures var lines := Example(gates, InParentheses("batch", gates[k]));
      && WellFormed(lines) && R.Leaves(TableOf(lines), "batch", {}, false) == Success([gates[k]])
      && Gates(GraphOf(lines), "batch", false) != Some([gates[k]])
  {
    var header := InParentheses("batch", gates[k]);
    assert gates[k] in gates;
    OwnNames();
    ParenthesesSuit(gates, gates[k]);
    ReadInParentheses("batch", gates[k]);
    ParenthesizedWord(gates[k]);
    DisagreesBy(gates, header, Wrapped(gates[k]), k);
  }

  lemma DisagreesBy(gates: seq<Name>, header: Line, word: string, k: nat)
    requires Suitable(gates, header) && !HeadingOf(header).value.hasParameters && k < |gates|
    requires WithoutAndAnd(DeclarationWords(HeadingOf(header).value.tail, false)) == [word]
    requires DependencyOf(word) == R.Dependency(gates[k], false) && Parenthesized(word)
    ensures var lines := Example(gates, header);
      && WellFormed(lines) && R.Leaves(TableOf(lines), "batch", {}, false) == Success([gates[k]])
      && Gates(GraphOf(lines), "batch", false) != Some([gates[k]])
  {
    ExampleIsWellFormed(gates, header);
    BatchIsGroup(gates, header, word, k);
    BatchDepends(gates, header, word);
    NamedInParentheses(Example(gates, header), "batch", word, gates[k]);
  }

  // ----- Reachability -----

  /** The justfile as checkers and scheduler read it. */
  ghost function ReadingOf(lines: seq<Line>): E.Reading {
    E.Reading(GraphOf(lines), Effective(lines), map b | b in Effective(lines) :: WordsOf(lines, b),
              set b | b in Effective(lines) && Followed(lines, b, b))
  }

  lemma MembersAreRead(lines: seq<Line>, b: Name)
    requires WellFormed(lines) && b in TableOf(lines)
    ensures Members(GraphOf(lines), b) == if Followed(lines, b, b) then WordsOf(lines, b) else []
  {
    TableName(lines, b);
    ReadsExactly(lines, b, b);
  }

  lemma WordsAreProper(lines: seq<Line>, b: Name)
    requires WellFormed(lines)
    ensures forall w :: w in WordsOf(lines, b) ==>
      if Parenthesized(w) then w !in Effective(lines) && w !in GraphOf(lines).dependencies
      else DependencyOf(w).recipe == w
  {
    forall w | w in WordsOf(lines, b) && Parenthesized(w)
      ensures w !in Effective(lines) && w !in GraphOf(lines).dependencies
    {
      ParenthesizedIsOdd(lines, w);
      InEffective(lines, w);
    }
  }

  lemma ReadingIsConsistent(lines: seq<Line>)
    requires WellFormed(lines)
    ensures E.Consistent(ReadingOf(lines))
  {
    forall b | b in Effective(lines)
      ensures Effective(lines)[b].dependencies == DependenciesOf(WordsOf(lines, b))
      ensures Members(GraphOf(lines), b) == if Followed(lines, b, b) then WordsOf(lines, b) else []
      ensures E.Proper(ReadingOf(lines), WordsOf(lines, b))
    {
      InEffective(lines, b);
      MembersAreRead(lines, b);
      WordsAreProper(lines, b);
    }
  }

  /**
   * For a group whose expansion succeeds, the checkers reach the scheduler's list through bodies, in order,
   * if and only if they read the group and no dependency they do not read leads to a recipe with a body.
   */
  lemma ReachAgreesExactly(lines: seq<Line>, root: Name)
    requires WellFormed(lines) && R.Leaves(Effective(lines), root, {}, true).Success? && !Effective(lines)[root].hasBody
    ensures Gates(GraphOf(lines), root, true).Some?
            && WithBodies(Effective(lines), Gates(GraphOf(lines), root, true).value)
               == R.Leaves(Effective(lines), root, {}, true).value
       <==> root in GraphOf(lines).dependencies && E.HarmlessFrom(ReadingOf(lines), root)
  {
    ReadingIsConsistent(lines);
    E.ReadingAgreesExactly(ReadingOf(lines), root);
  }
}
