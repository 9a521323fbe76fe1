/** The executor's expansion of the dumped table and the checkers' expansion of the text agree. */
module Agreement {
  import opened Common
  import opened Lines
  import opened Justfile
  import opened Expansion
  import R = Recipes

  function Names(dependencies: seq<R.Dependency>): seq<Name> {
    if dependencies == [] then [] else [dependencies[0].recipe] + Names(dependencies[1..])
  }

  function Members(graph: Graph, name: Name): seq<Name> {
    if name in graph.dependencies then graph.dependencies[name] else []
  }

  /** The checkers read a recipe as the table has it: whether it only groups, and what the expander follows. */
  ghost predicate ReadAlike(graph: Graph, table: R.Table, name: Name, throughBodies: bool) {
    name in table ==>
      && (name in graph.groups <==> !table[name].hasBody)
      && (!table[name].hasBody ==> name in graph.dependencies)
      && (R.Descends(table, name, throughBodies) ==> Members(graph, name) == Names(table[name].dependencies))
  }

  ghost predicate ExploredTo(table: R.Table, root: Name, name: Name, throughBodies: bool) {
    exists p :: R.Explored(table, p, throughBodies) && p[0] == root && p[|p| - 1] == name
  }

  /** Text and table agree on the recipes that expanding `root` explores; the others do not matter. */
  ghost predicate Represents(graph: Graph, table: R.Table, root: Name, throughBodies: bool) {
    forall name :: ExploredTo(table, root, name, throughBodies) ==> ReadAlike(graph, table, name, throughBodies)
  }

  /** All the expander can meet from `scope` on is read alike. */
  ghost predicate Covers(graph: Graph, table: R.Table, scope: set<Name>, throughBodies: bool) {
    forall n :: n in scope ==>
      && ReadAlike(graph, table, n, throughBodies)
      && (R.Descends(table, n, throughBodies) ==> Within(table, table[n].dependencies, scope))
  }

  ghost predicate Within(table: R.Table, dependencies: seq<R.Dependency>, scope: set<Name>) {
    forall d :: d in dependencies && d.recipe in table ==> d.recipe in scope
  }

  ghost function Scope(table: R.Table, root: Name, throughBodies: bool): set<Name> {
    set n | n in table && ExploredTo(table, root, n, throughBodies)
  }

  lemma ExploredFurther(table: R.Table, root: Name, n: Name, d: R.Dependency, throughBodies: bool)
    requires ExploredTo(table, root, n, throughBodies) && R.Descends(table, n, throughBodies)
    requires d in table[n].dependencies
    ensures ExploredTo(table, root, d.recipe, throughBodies)
  {
    var p :| R.Explored(table, p, throughBodies) && p[0] == root && p[|p| - 1] == n;
    var q := p + [d.recipe];
    forall i | 0 <= i < |q| - 1 ensures R.Edge(table, q[i], q[i + 1]) && R.Descends(table, q[i], throughBodies) {
      if i < |p| - 1 { assert R.Edge(table, p[i], p[i + 1]) && R.Descends(table, p[i], throughBodies); }
    }
    assert q[0] == root && q[|q| - 1] == d.recipe;
  }

  lemma ScopeCovers(graph: Graph, table: R.Table, root: Name, throughBodies: bool)
    requires Represents(graph, table, root, throughBodies) && root in table
    ensures Covers(graph, table, Scope(table, root, throughBodies), throughBodies)
    ensures root in Scope(table, root, throughBodies)
  {
    var scope := Scope(table, root, throughBodies);
    assert R.Explored(table, [root], throughBodies);
    forall n, d | n in scope && R.Descends(table, n, throughBodies) && d in table[n].dependencies && d.recipe in table
      ensures d.recipe in scope
    {
      ExploredFurther(table, root, n, d, throughBodies);
    }
  }

  // ----- The inventory -----

  lemma {:induction false} InventoryAgreesAll(graph: Graph, table: R.Table, scope: set<Name>,
                                              dependencies: seq<R.Dependency>, visiting: set<Name>,
                                              expanding: set<Name>)
    requires Covers(graph, table, scope, false) && Within(table, dependencies, scope)
    requires R.LeavesOfAll(table, dependencies, visiting, false).Success?
    requires forall n :: n in expanding ==> n in visiting || (n in table ==> table[n].hasBody)
    ensures Expand(graph, Names(dependencies), expanding, false)
         == R.LeavesOfAll(table, dependencies, visiting, false).value
    decreases table.Keys - visiting, |dependencies|
  {
    if dependencies != [] {
      var d := dependencies[0].recipe;
      assert dependencies[0] in dependencies && d in scope;
      assert Names(dependencies)[1..] == Names(dependencies[1..]);
      InventoryAgreesAll(graph, table, scope, dependencies[1..], visiting, expanding);
      if !table[d].hasBody {
        InventoryAgreesAll(graph, table, scope, table[d].dependencies, visiting + {d}, expanding + {d});
      }
    }
  }

  lemma InventoryAgreesBelow(graph: Graph, table: R.Table, root: Name, name: Name)
    requires Represents(graph, table, root, false)
    requires R.Leaves(table, root, {}, false).Success? && !table[root].hasBody
    requires name == root || (name in table ==> table[name].hasBody)
    ensures Expand(graph, Names(table[root].dependencies), {name}, false) == R.Leaves(table, root, {}, false).value
  {
    ScopeCovers(graph, table, root, false);
    InventoryAgreesAll(graph, table, Scope(table, root, false), table[root].dependencies, {} + {root}, {name});
  }

  /** For a recipe without a body, the text expansion is the executor's gate list, in order. */
  lemma InventoryAgrees(lines: seq<Line>, table: R.Table, root: Name)
    requires Represents(GraphOf(lines), table, root, false)
    requires R.Leaves(table, root, {}, false).Success? && !table[root].hasBody
    ensures Gates(GraphOf(lines), root, false) == Some(R.Leaves(table, root, {}, false).value)
  {
    RootReadAlike(GraphOf(lines), table, root, false);
    InventoryAgreesBelow(GraphOf(lines), table, root, root);
  }

  lemma RootReadAlike(graph: Graph, table: R.Table, root: Name, throughBodies: bool)
    requires Represents(graph, table, root, throughBodies) && root in table && !table[root].hasBody
    ensures Lookup(graph, root) == Some(Names(table[root].dependencies))
  {
    assert R.Explored(table, [root], throughBodies);
    assert ExploredTo(table, root, root, throughBodies);
  }

  /** The text expansion of an entry is the executor's list for the inventory the entry names. */
  lemma EntryAgrees(lines: seq<Line>, table: R.Table, entry: Name)
    requires Redirected(lines, entry) && RecipeDependencies(lines, entry).Some?
    requires entry in table ==> table[entry].hasBody
    requires Represents(GraphOf(lines), table, entry + "-inventory", false)
    requires R.Leaves(table, entry + "-inventory", {}, false).Success? && !table[entry + "-inventory"].hasBody
    ensures Gates(GraphOf(lines), entry, false) == Some(R.Leaves(table, entry + "-inventory", {}, false).value)
  {
    var inventory := entry + "-inventory";
    EntryLookup(lines, entry);
    RootReadAlike(GraphOf(lines), table, inventory, false);
    InventoryAgreesBelow(GraphOf(lines), table, inventory, entry);
  }

  lemma EntryLookup(lines: seq<Line>, entry: Name)
    requires Redirected(lines, entry) && RecipeDependencies(lines, entry).Some?
    ensures Lookup(GraphOf(lines), entry) == Lookup(GraphOf(lines), entry + "-inventory")
  {
    assert RecipeDependencies(lines, entry) == RecipeDependencies(lines, entry + "-inventory");
  }

  // ----- Reachability -----

  function WithBodies(table: R.Table, gates: seq<Name>): seq<Name> {
    if gates == [] then []
    else (if gates[0] in table && table[gates[0]].hasBody then [gates[0]] else []) + WithBodies(table, gates[1..])
  }

  lemma {:induction false} WithBodiesConcat(table: R.Table, a: seq<Name>, b: seq<Name>)
    ensures WithBodies(table, a + b) == WithBodies(table, a) + WithBodies(table, b)
  {
    if a == [] {
      assert a + b == b;
    } else {
      assert (a + b)[1..] == a[1..] + b;
      WithBodiesConcat(table, a[1..], b);
    }
  }

  lemma {:induction false} ReachAgreesAll(graph: Graph, table: R.Table, scope: set<Name>,
                                          dependencies: seq<R.Dependency>, visiting: set<Name>)
    requires Covers(graph, table, scope, true) && Within(table, dependencies, scope)
    requires R.LeavesOfAll(table, dependencies, visiting, true).Success?
    ensures WithBodies(table, Expand(graph, Names(dependencies), visiting, true))
         == R.LeavesOfAll(table, dependencies, visiting, true).value
    decreases table.Keys - visiting, |dependencies|
  {
    if dependencies != [] {
      var d := dependencies[0].recipe;
      assert dependencies[0] in dependencies && d in scope;
      assert Names(dependencies)[1..] == Names(dependencies[1..]);
      ReachAgreesAll(graph, table, scope, dependencies[1..], visiting);
      ReachAgreesAll(graph, table, scope, table[d].dependencies, visiting + {d});
      ExpandThrough(graph, d, Names(table[d].dependencies), visiting);
      var below := Expand(graph, Names(table[d].dependencies), visiting + {d}, true);
      WithBodiesConcat(table, below, [d]);
      assert WithBodies(table, [d]) == R.OwnGate(table, d);
      WithBodiesConcat(table, below + [d], Expand(graph, Names(dependencies[1..]), visiting, true));
    }
  }

  /** A recipe without dependencies and one that is not declared expand to the same list. */
  lemma ExpandThrough(graph: Graph, d: Name, members: seq<Name>, expanding: set<Name>)
    requires Members(graph, d) == members && d !in expanding
    ensures ExpandOne(graph, d, expanding, true) == Expand(graph, members, expanding + {d}, true) + [d]
  {
  }

  lemma ReachAgreesFrom(graph: Graph, table: R.Table, root: Name)
    requires Represents(graph, table, root, true)
    requires R.Leaves(table, root, {}, true).Success? && !table[root].hasBody
    ensures Gates(graph, root, true).Some?
    ensures WithBodies(table, Gates(graph, root, true).value) == R.Leaves(table, root, {}, true).value
  {
    RootReadAlike(graph, table, root, true);
    ScopeCovers(graph, table, root, true);
    ReachAgreesAll(graph, table, Scope(table, root, true), table[root].dependencies, {} + {root});
    assert {} + {root} == {root};
  }

  /** The dumped table, in which an entry that hands its inventory over has the inventory's dependencies. */
  function Redirecting(lines: seq<Line>, table: R.Table): (redirecting: R.Table)
    ensures SameRecipes(table, redirecting)
    ensures forall n :: n in table && !Redirected(lines, n) ==> redirecting[n] == table[n]
  {
    map n | n in table ::
      if Redirected(lines, n) then table[n].(dependencies := Inventory(lines, table, n)) else table[n]
  }

  function Inventory(lines: seq<Line>, table: R.Table, entry: Name): seq<R.Dependency> {
    var inventory := entry + "-inventory";
    if RecipeDependencies(lines, entry).Some? && inventory in table then table[inventory].dependencies else []
  }

  /** The tables differ in dependencies only. */
  ghost predicate SameRecipes(table: R.Table, table': R.Table) {
    table.Keys == table'.Keys && forall n :: n in table ==> table[n].hasBody == table'[n].hasBody
  }

  lemma {:induction false} SameBodies(table: R.Table, table': R.Table, gates: seq<Name>)
    requires SameRecipes(table, table')
    ensures WithBodies(table, gates) == WithBodies(table', gates)
  {
    if gates != [] { SameBodies(table, table', gates[1..]); }
  }

  lemma ReachAgreesWith(graph: Graph, table: R.Table, redirecting: R.Table, root: Name)
    requires Represents(graph, redirecting, root, true) && SameRecipes(table, redirecting)
    requires R.Leaves(redirecting, root, {}, true).Success? && !redirecting[root].hasBody
    ensures Gates(graph, root, true).Some?
    ensures WithBodies(table, Gates(graph, root, true).value) == R.Leaves(redirecting, root, {}, true).value
  {
    ReachAgreesFrom(graph, redirecting, root);
    SameBodies(table, redirecting, Gates(graph, root, true).value);
  }

  /** For a recipe without a body, the reached recipes that have bodies are the executor's list through bodies. */
  lemma ReachAgrees(lines: seq<Line>, table: R.Table, root: Name)
    requires Represents(GraphOf(lines), Redirecting(lines, table), root, true)
    requires R.Leaves(Redirecting(lines, table), root, {}, true).Success? && root in table && !table[root].hasBody
    ensures Gates(GraphOf(lines), root, true).Some?
    ensures WithBodies(table, Gates(GraphOf(lines), root, true).value)
         == R.Leaves(Redirecting(lines, table), root, {}, true).value
  {
    ReachAgreesWith(GraphOf(lines), table, Redirecting(lines, table), root);
  }

  // ----- Where no redirected entry is reached, the dumped table itself counts -----

  ghost predicate AlikeOn(table: R.Table, table': R.Table, scope: set<Name>) {
    table.Keys == table'.Keys &&
    forall n :: n in scope && n in table ==> table[n] == table'[n] && Within(table, table[n].dependencies, scope)
  }

  lemma {:induction false} LeavesAlike(table: R.Table, table': R.Table, scope: set<Name>,
                                       name: Name, visiting: set<Name>)
    requires AlikeOn(table, table', scope) && (name in table ==> name in scope)
    ensures R.Leaves(table, name, visiting, true) == R.Leaves(table', name, visiting, true)
    decreases table.Keys - visiting, 0
  {
    if name !in visiting && R.Clean(table, name) {
      LeavesAlikeAll(table, table', scope, table[name].dependencies, visiting + {name});
    }
  }

  lemma {:induction false} LeavesAlikeAll(table: R.Table, table': R.Table, scope: set<Name>,
                                          dependencies: seq<R.Dependency>, visiting: set<Name>)
    requires AlikeOn(table, table', scope) && Within(table, dependencies, scope)
    ensures R.LeavesOfAll(table, dependencies, visiting, true) == R.LeavesOfAll(table', dependencies, visiting, true)
    decreases table.Keys - visiting, 1 + |dependencies|
  {
    if dependencies != [] {
      assert dependencies[0] in dependencies;
      LeavesAlike(table, table', scope, dependencies[0].recipe, visiting);
      LeavesAlikeAll(table, table', scope, dependencies[1..], visiting);
    }
  }

  lemma LeavesOnScope(table: R.Table, table': R.Table, root: Name)
    requires table.Keys == table'.Keys
    requires forall n :: n in table && ExploredTo(table, root, n, true) ==> table[n] == table'[n]
    ensures R.Leaves(table, root, {}, true) == R.Leaves(table', root, {}, true)
  {
    var scope := Scope(table, root, true);
    assert R.Explored(table, [root], true) && ExploredTo(table, root, root, true);
    forall n, d | n in scope && d in table[n].dependencies && d.recipe in table ensures d.recipe in scope {
      ExploredFurther(table, root, n, d, true);
    }
    LeavesAlike(table, table', scope, root, {});
  }

  /** If no chain from `root` meets a redirected entry, redirecting changes nothing for `root`. */
  lemma RedirectUnreached(lines: seq<Line>, table: R.Table, root: Name)
    requires forall n :: n in table && ExploredTo(table, root, n, true) ==> !Redirected(lines, n)
    ensures R.Leaves(Redirecting(lines, table), root, {}, true) == R.Leaves(table, root, {}, true)
  {
    LeavesOnScope(table, Redirecting(lines, table), root);
  }
}
