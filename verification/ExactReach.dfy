/** Exactly when the recipes the checkers reach are the scheduler's list through bodies. */
module ExactReach {
  import opened Justfile
  import opened Declarations
  import opened Visibility
  import opened Expansion
  import opened Agreement
  import R = Recipes

  /** The words of each recipe, the recipes whose headers are followed, and what graph and table make of them. */
  datatype Reading = Reading(graph: Graph, table: R.Table, words: map<Name, seq<string>>, followed: set<Name>)

  /** The table has what the words say, and the graph has the words of followed recipes and no others. */
  ghost predicate Consistent(r: Reading) {
    forall b :: b in r.table ==>
      && b in r.words && r.table[b].dependencies == DependenciesOf(r.words[b])
      && Members(r.graph, b) == (if b in r.followed then r.words[b] else [])
      && Proper(r, r.words[b])
  }

  /** A word in parentheses is no recipe, and any other names itself. */
  ghost predicate Proper(r: Reading, words: seq<string>) {
    forall w :: w in words ==>
      if Parenthesized(w) then w !in r.table && w !in r.graph.dependencies else DependencyOf(w).recipe == w
  }

  /** What the checkers find of a list of words, without the recipes that have no body. */
  function Found(r: Reading, words: seq<string>, visiting: set<Name>): seq<Name> {
    WithBodies(r.table, Expand(r.graph, words, visiting, true))
  }

  function Listed(r: Reading, words: seq<string>, visiting: set<Name>): R.Expanded {
    R.LeavesOfAll(r.table, DependenciesOf(words), visiting, true)
  }

  /** One word's part of what is found: nothing for one in parentheses. */
  function FoundOne(r: Reading, w: string, visiting: set<Name>): seq<Name> {
    if Parenthesized(w) || w !in r.table then []
    else Found(r, if w in r.followed && w in r.words then r.words[w] else [], visiting + {w}) + R.OwnGate(r.table, w)
  }

  lemma FoundFirst(r: Reading, words: seq<string>, visiting: set<Name>)
    requires Consistent(r) && Proper(r, words) && words != [] && Listed(r, words, visiting).Success?
    ensures Found(r, words, visiting) == FoundOne(r, words[0], visiting) + Found(r, words[1..], visiting)
  {
    var w, graph := words[0], r.graph;
    assert w in words;
    ListedFirst(r, words, visiting);
    ListedOne(r, DependencyOf(w).recipe, visiting);
    var one := ExpandOne(graph, w, visiting, true);
    WithBodiesConcat(r.table, one, Expand(graph, words[1..], visiting, true));
    if Parenthesized(w) {
      assert one == [w];
    } else {
      ExpandThrough(graph, w, Members(graph, w), visiting);
      WithBodiesConcat(r.table, Expand(graph, Members(graph, w), visiting + {w}, true), [w]);
      assert WithBodies(r.table, [w]) == R.OwnGate(r.table, w);
    }
  }

  lemma ListedFirst(r: Reading, words: seq<string>, visiting: set<Name>)
    requires words != [] && Listed(r, words, visiting).Success?
    ensures var one := R.Leaves(r.table, DependencyOf(words[0]).recipe, visiting, true);
      && one.Success? && Listed(r, words[1..], visiting).Success?
      && Listed(r, words, visiting).value == one.value + Listed(r, words[1..], visiting).value
  {
    assert DependenciesOf(words)[0] == DependencyOf(words[0]);
    assert DependenciesOf(words)[1..] == DependenciesOf(words[1..]);
  }

  /** The scheduler's list for one recipe: what its words list, and the recipe itself. */
  lemma ListedOne(r: Reading, b: Name, visiting: set<Name>)
    requires Consistent(r) && R.Leaves(r.table, b, visiting, true).Success?
    ensures b in r.table && b !in visiting && Listed(r, r.words[b], visiting + {b}).Success?
    ensures R.Leaves(r.table, b, visiting, true).value
         == Listed(r, r.words[b], visiting + {b}).value + R.OwnGate(r.table, b)
  {
  }

  /** The checkers never find more than the scheduler lists, and as much only if it is the same. */
  lemma {:induction false} FoundWithin(r: Reading, words: seq<string>, visiting: set<Name>)
    requires Consistent(r) && Proper(r, words) && Listed(r, words, visiting).Success?
    ensures |Found(r, words, visiting)| <= |Listed(r, words, visiting).value|
    ensures |Found(r, words, visiting)| == |Listed(r, words, visiting).value|
            ==> Found(r, words, visiting) == Listed(r, words, visiting).value
    decreases r.table.Keys - visiting, |words|
  {
    if words != [] {
      FoundFirst(r, words, visiting);
      ListedFirst(r, words, visiting);
      FoundWithin(r, words[1..], visiting);
      FoundOneWithin(r, words[0], visiting);
    }
  }

  lemma {:induction false} FoundOneWithin(r: Reading, w: string, visiting: set<Name>)
    requires Consistent(r) && Proper(r, [w]) && R.Leaves(r.table, DependencyOf(w).recipe, visiting, true).Success?
    ensures var listed := R.Leaves(r.table, DependencyOf(w).recipe, visiting, true).value;
      && |FoundOne(r, w, visiting)| <= |listed|
      && (|FoundOne(r, w, visiting)| == |listed| ==> FoundOne(r, w, visiting) == listed)
    decreases r.table.Keys - visiting, 0
  {
    assert w in [w];
    if !Parenthesized(w) {
      ListedOne(r, w, visiting);
      if w in r.followed {
        FoundWithin(r, r.words[w], visiting + {w});
      } else {
        assert Found(r, [], visiting + {w}) == [];
      }
    }
  }

  // ----- Nothing is lost -----

  /** The recipe leads to no recipe with a body. */
  ghost predicate Silent(table: R.Table, b: Name) {
    R.Leaves(table, b, {}, true).Success? && R.Leaves(table, b, {}, true).value == []
  }

  /** Every dependency of `a` that the checkers do not read leads to no recipe with a body. */
  ghost predicate Harmless(r: Reading, a: Name) {
    a in r.words ==> forall w :: w in r.words[a] && (a !in r.followed || Parenthesized(w)) ==>
      Silent(r.table, DependencyOf(w).recipe)
  }

  lemma SilentAnywhere(table: R.Table, b: Name, visiting: set<Name>)
    requires R.Leaves(table, b, visiting, true).Success?
    ensures R.Leaves(table, b, {}, true) == R.Leaves(table, b, visiting, true)
    ensures Silent(table, b) <==> R.Leaves(table, b, visiting, true).value == []
  {
    R.FewerVisiting(table, b, visiting, {}, true);
  }

  lemma {:induction false} SilentWords(r: Reading, words: seq<string>, visiting: set<Name>)
    requires Listed(r, words, visiting).Success? && forall w :: w in words ==> Silent(r.table, DependencyOf(w).recipe)
    ensures Listed(r, words, visiting).value == []
  {
    if words != [] {
      ListedFirst(r, words, visiting);
      assert words[0] in words;
      SilentAnywhere(r.table, DependencyOf(words[0]).recipe, visiting);
      SilentWords(r, words[1..], visiting);
    }
  }

  /** The words lead into `scope`, where nothing that is not read matters. */
  ghost predicate LeadInto(r: Reading, words: seq<string>, scope: set<Name>) {
    forall w :: w in words && DependencyOf(w).recipe in r.table ==> DependencyOf(w).recipe in scope
  }

  ghost predicate HarmlessScope(r: Reading, scope: set<Name>) {
    forall a :: a in scope && a in r.words ==> Harmless(r, a) && LeadInto(r, r.words[a], scope)
  }

  lemma {:induction false} FoundAll(r: Reading, scope: set<Name>, words: seq<string>, visiting: set<Name>)
    requires Consistent(r) && Proper(r, words) && Listed(r, words, visiting).Success?
    requires HarmlessScope(r, scope) && LeadInto(r, words, scope)
    requires forall w :: w in words && Parenthesized(w) ==> Silent(r.table, DependencyOf(w).recipe)
    ensures Found(r, words, visiting) == Listed(r, words, visiting).value
    decreases r.table.Keys - visiting, |words|
  {
    if words != [] {
      FoundFirst(r, words, visiting);
      ListedFirst(r, words, visiting);
      assert words[0] in words;
      FoundOneAll(r, scope, words[0], visiting);
      FoundAll(r, scope, words[1..], visiting);
    }
  }

  lemma {:induction false} FoundOneAll(r: Reading, scope: set<Name>, w: string, visiting: set<Name>)
    requires Consistent(r) && Proper(r, [w]) && R.Leaves(r.table, DependencyOf(w).recipe, visiting, true).Success?
    requires HarmlessScope(r, scope) && (DependencyOf(w).recipe in r.table ==> DependencyOf(w).recipe in scope)
    requires Parenthesized(w) ==> Silent(r.table, DependencyOf(w).recipe)
    ensures FoundOne(r, w, visiting) == R.Leaves(r.table, DependencyOf(w).recipe, visiting, true).value
    decreases r.table.Keys - visiting, 0
  {
    assert w in [w];
    if Parenthesized(w) {
      SilentAnywhere(r.table, DependencyOf(w).recipe, visiting);
    } else {
      ListedOne(r, w, visiting);
      assert Harmless(r, w) && LeadInto(r, r.words[w], scope);
      if w in r.followed {
        FoundAll(r, scope, r.words[w], visiting + {w});
      } else {
        SilentWords(r, r.words[w], visiting + {w});
      }
    }
  }

  // ----- Something is lost -----

  /** What the checkers find below a recipe. */
  function FoundBelow(r: Reading, a: Name, visiting: set<Name>): seq<Name> {
    Found(r, if a in r.followed && a in r.words then r.words[a] else [], visiting + {a})
  }

  /** A word of which less is found than listed leaves the whole list short. */
  lemma {:induction false} ShortMember(r: Reading, words: seq<string>, visiting: set<Name>, w: string)
    requires Consistent(r) && Proper(r, words) && Listed(r, words, visiting).Success? && w in words
    requires R.Leaves(r.table, DependencyOf(w).recipe, visiting, true).Success?
    requires |FoundOne(r, w, visiting)| < |R.Leaves(r.table, DependencyOf(w).recipe, visiting, true).value|
    ensures |Found(r, words, visiting)| < |Listed(r, words, visiting).value|
  {
    FoundFirst(r, words, visiting);
    ListedFirst(r, words, visiting);
    if w == words[0] {
      FoundWithin(r, words[1..], visiting);
    } else {
      assert words[0] in words;
      FoundOneWithin(r, words[0], visiting);
      ShortMember(r, words[1..], visiting, w);
    }
  }

  /** A dependency that is not read and leads to a recipe with a body is lost. */
  lemma UnreadIsLost(r: Reading, a: Name, visiting: set<Name>, w: string)
    requires Consistent(r) && R.Leaves(r.table, a, visiting, true).Success? && a in r.words && w in r.words[a]
    requires (a !in r.followed || Parenthesized(w)) && !Silent(r.table, DependencyOf(w).recipe)
    ensures |FoundBelow(r, a, visiting)| < |Listed(r, r.words[a], visiting + {a}).value|
  {
    ListedOne(r, a, visiting);
    WordIsDependency(r.words[a], w);
    R.MemberLeaves(r.table, r.table[a].dependencies, visiting + {a}, true, DependencyOf(w));
    SilentAnywhere(r.table, DependencyOf(w).recipe, visiting + {a});
    if a in r.followed {
      ShortMember(r, r.words[a], visiting + {a}, w);
    } else {
      var g := R.Leaves(r.table, DependencyOf(w).recipe, visiting + {a}, true).value[0];
      assert g in Listed(r, r.words[a], visiting + {a}).value;
    }
  }

  /** Along a chain to a recipe that is not harmless, something is lost. */
  lemma {:induction false} LostAlong(r: Reading, p: seq<Name>, visiting: set<Name>)
    requires Consistent(r) && R.Chain(r.table, p) && R.Leaves(r.table, p[0], visiting, true).Success?
    requires p[|p| - 1] in r.words && !Harmless(r, p[|p| - 1])
    ensures p[0] in r.words
    ensures |FoundBelow(r, p[0], visiting)| < |Listed(r, r.words[p[0]], visiting + {p[0]}).value|
    decreases |p|
  {
    ListedOne(r, p[0], visiting);
    if |p| == 1 {
      var w :| w in r.words[p[0]] && (p[0] !in r.followed || Parenthesized(w))
        && !Silent(r.table, DependencyOf(w).recipe);
      UnreadIsLost(r, p[0], visiting, w);
    } else {
      assert R.Edge(r.table, p[0], p[0 + 1]);
      var d :| d in r.table[p[0]].dependencies && d.recipe == p[1];
      var w := WordFor(r.words[p[0]], d);
      R.MemberLeaves(r.table, r.table[p[0]].dependencies, visiting + {p[0]}, true, d);
      TailChain(r.table, p);
      LostAlong(r, p[1..], visiting + {p[0]});
      LostAbove(r, p[0], visiting, w);
    }
  }

  lemma TailChain(table: R.Table, p: seq<Name>)
    requires R.Chain(table, p) && |p| > 1
    ensures R.Chain(table, p[1..])
  {
    forall i | 0 <= i < |p[1..]| - 1 ensures R.Edge(table, p[1..][i], p[1..][i + 1]) {
      assert R.Edge(table, p[i + 1], p[i + 1 + 1]);
    }
  }

  /** What is lost below a dependency is lost above it. */
  lemma LostAbove(r: Reading, a: Name, visiting: set<Name>, w: string)
    requires Consistent(r) && R.Leaves(r.table, a, visiting, true).Success? && a in r.words && w in r.words[a]
    requires R.Leaves(r.table, DependencyOf(w).recipe, visiting + {a}, true).Success?
    requires DependencyOf(w).recipe in r.words
    requires |FoundBelow(r, DependencyOf(w).recipe, visiting + {a})|
           < |Listed(r, r.words[DependencyOf(w).recipe], visiting + {a} + {DependencyOf(w).recipe}).value|
    ensures |FoundBelow(r, a, visiting)| < |Listed(r, r.words[a], visiting + {a}).value|
  {
    var b := DependencyOf(w).recipe;
    ListedOne(r, a, visiting);
    ListedOne(r, b, visiting + {a});
    SilentAnywhere(r.table, b, visiting + {a});
    if a !in r.followed || Parenthesized(w) {
      UnreadIsLost(r, a, visiting, w);
    } else {
      ShortMember(r, r.words[a], visiting + {a}, w);
    }
  }

  // ----- From the root -----

  /** Everything that expanding `root` explores is harmless. */
  ghost predicate HarmlessFrom(r: Reading, root: Name) {
    forall a :: a in r.table && ExploredTo(r.table, root, a, true) ==> Harmless(r, a)
  }

  lemma ScopeIsHarmless(r: Reading, root: Name)
    requires Consistent(r) && HarmlessFrom(r, root) && r.words.Keys == r.table.Keys
    ensures HarmlessScope(r, Scope(r.table, root, true))
  {
    var scope := Scope(r.table, root, true);
    forall a, w | a in scope && w in r.words[a] && DependencyOf(w).recipe in r.table
      ensures DependencyOf(w).recipe in scope
    {
      WordIsDependency(r.words[a], w);
      ExploredFurther(r.table, root, a, DependencyOf(w), true);
    }
  }

  lemma HarmlessIsFound(r: Reading, root: Name)
    requires Consistent(r) && HarmlessFrom(r, root) && r.words.Keys == r.table.Keys
    requires R.Leaves(r.table, root, {}, true).Success?
    ensures FoundBelow(r, root, {}) == Listed(r, r.words[root], {} + {root}).value
  {
    ListedOne(r, root, {});
    ScopeIsHarmless(r, root);
    RootInScope(r, root);
    BelowHarmless(r, Scope(r.table, root, true), root, {});
  }

  lemma RootInScope(r: Reading, root: Name)
    requires root in r.table
    ensures root in Scope(r.table, root, true)
  {
    assert R.Explored(r.table, [root], true);
  }

  lemma BelowHarmless(r: Reading, scope: set<Name>, a: Name, visiting: set<Name>)
    requires Consistent(r) && HarmlessScope(r, scope) && a in scope && a in r.table
    requires Listed(r, r.words[a], visiting + {a}).Success?
    ensures FoundBelow(r, a, visiting) == Listed(r, r.words[a], visiting + {a}).value
  {
    assert Harmless(r, a) && LeadInto(r, r.words[a], scope);
    if a in r.followed {
      FoundAll(r, scope, r.words[a], visiting + {a});
    } else {
      SilentWords(r, r.words[a], visiting + {a});
    }
  }

  lemma GatesAreFound(r: Reading, root: Name)
    requires Consistent(r) && root in r.table && Gates(r.graph, root, true).Some?
    ensures WithBodies(r.table, Gates(r.graph, root, true).value) == FoundBelow(r, root, {})
  {
    assert {} + {root} == {root};
  }

  /** What is found below `root` is what the scheduler lists if and only if all that is explored is harmless. */
  lemma FoundExactly(r: Reading, root: Name)
    requires Consistent(r) && r.words.Keys == r.table.Keys && R.Leaves(r.table, root, {}, true).Success?
    ensures FoundBelow(r, root, {}) == Listed(r, r.words[root], {} + {root}).value <==> HarmlessFrom(r, root)
  {
    if HarmlessFrom(r, root) {
      HarmlessIsFound(r, root);
    } else {
      var a :| a in r.table && ExploredTo(r.table, root, a, true) && !Harmless(r, a);
      var p :| R.Explored(r.table, p, true) && p[0] == root && p[|p| - 1] == a;
      LostAlong(r, p, {});
    }
  }

  /**
   * For a recipe without a body whose expansion succeeds, the reached recipes that have bodies are the
   * scheduler's list if and only if the recipe is read and no dependency that is not read leads to a body.
   */
  lemma ReadingAgreesExactly(r: Reading, root: Name)
    requires Consistent(r) && r.words.Keys == r.table.Keys
    requires R.Leaves(r.table, root, {}, true).Success? && !r.table[root].hasBody
    ensures Gates(r.graph, root, true).Some?
            && WithBodies(r.table, Gates(r.graph, root, true).value) == R.Leaves(r.table, root, {}, true).value
       <==> root in r.graph.dependencies && HarmlessFrom(r, root)
  {
    ListedOne(r, root, {});
    FoundExactly(r, root);
    if root in r.graph.dependencies { GatesAreFound(r, root); }
    assert Listed(r, r.words[root], {} + {root}).value + [] == Listed(r, r.words[root], {} + {root}).value;
  }
}
