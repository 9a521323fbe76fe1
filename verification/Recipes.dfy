/** The recipe table that `just --dump` reports, and its expansion to an ordered gate list. */
module Recipes {
  import opened Common

  type Name = string

  datatype Dependency = Dependency(recipe: Name, hasArguments: bool)

  datatype Recipe = Recipe(
    dependencies: seq<Dependency>, hasParameters: bool, hasBody: bool, parallel: bool)

  type Table = map<Name, Recipe>

  datatype Refusal =
    | Cyclic(name: Name)
    | Missing(name: Name)
    | Parameterized(name: Name)
    | DuplicateGate
    | UnlistedPrerequisite(child: Name, gate: Name)
    | MissingSuffix
    | ParallelReaches(group: Name)

  type Expanded = Result<seq<Name>, Refusal>

  predicate TakesArguments(recipe: Recipe) {
    recipe.hasParameters || exists d :: d in recipe.dependencies && d.hasArguments
  }

  /** The gates of `name` in execution order. `visiting` holds the recipes being expanded. */
  function Leaves(table: Table, name: Name, visiting: set<Name>, throughBodies: bool): Expanded
    decreases table.Keys - visiting, 0
  {
    if name in visiting then Failure(Cyclic(name))
    else if name !in table then Failure(Missing(name))
    else if TakesArguments(table[name]) then Failure(Parameterized(name))
    else if table[name].hasBody && !throughBodies then Success([name])
    else
      var below :- LeavesOfAll(table, table[name].dependencies, visiting + {name}, throughBodies);
      Success(below + OwnGate(table, name))
  }

  function LeavesOfAll(table: Table, dependencies: seq<Dependency>, visiting: set<Name>, throughBodies: bool): Expanded
    decreases table.Keys - visiting, 1 + |dependencies|
  {
    if dependencies == [] then Success([])
    else
      var first :- Leaves(table, dependencies[0].recipe, visiting, throughBodies);
      var rest :- LeavesOfAll(table, dependencies[1..], visiting, throughBodies);
      Success(first + rest)
  }

  function OwnGate(table: Table, name: Name): seq<Name>
    requires name in table
  {
    if table[name].hasBody then [name] else []
  }

  /** The recursive expander, which extends its result dependency by dependency. */
  method ComputeLeaves(table: Table, name: Name, visiting: seq<Name>, throughBodies: bool) returns (r: Expanded)
    ensures r == Leaves(table, name, Elements(visiting), throughBodies)
    decreases table.Keys - Elements(visiting)
  {
    if name in visiting { return Failure(Cyclic(name)); }
    if name !in table { return Failure(Missing(name)); }
    var recipe := table[name];
    if TakesArguments(recipe) { return Failure(Parameterized(name)); }
    if recipe.hasBody && !throughBodies { return Success([name]); }
    var inner := visiting + [name];
    assert Elements(inner) == Elements(visiting) + {name};
    var result: seq<Name> := [];
    ghost var whole := LeavesOfAll(table, recipe.dependencies, Elements(inner), throughBodies);
    assert recipe.dependencies[0..] == recipe.dependencies;
    assert whole.Success? ==> result + whole.value == whole.value;
    for i := 0 to |recipe.dependencies|
      invariant whole == Prefixed(result, LeavesOfAll(table, recipe.dependencies[i..], Elements(inner), throughBodies))
    {
      var below := ComputeLeaves(table, recipe.dependencies[i].recipe, inner, throughBodies);
      assert recipe.dependencies[i..][1..] == recipe.dependencies[i + 1..];
      if below.Failure? { return below; }
      ghost var rest := LeavesOfAll(table, recipe.dependencies[i + 1..], Elements(inner), throughBodies);
      assert rest.Success? ==> result + (below.value + rest.value) == result + below.value + rest.value;
      result := result + below.value;
    }
    assert whole == Success(result + []) && result + [] == result;
    if recipe.hasBody { result := result + [name]; }
    return Success(result);
  }

  ghost function Prefixed(done: seq<Name>, rest: Expanded): Expanded {
    if rest.Success? then Success(done + rest.value) else rest
  }

  // ----- Dependency chains -----

  ghost predicate Edge(table: Table, a: Name, b: Name) {
    a in table && exists d :: d in table[a].dependencies && d.recipe == b
  }

  /** Every step follows a declared dependency. */
  ghost predicate Chain(table: Table, p: seq<Name>) {
    |p| > 0 && forall i :: 0 <= i < |p| - 1 ==> Edge(table, p[i], p[i + 1])
  }

  /** The expander descends below `a`: a gate with a body is a leaf unless bodies are traversed. */
  predicate Descends(table: Table, a: Name, throughBodies: bool) {
    a in table && (throughBodies || !table[a].hasBody)
  }

  /** A chain along which the expander descends at every recipe but the last. */
  ghost predicate Explored(table: Table, p: seq<Name>, throughBodies: bool) {
    Chain(table, p) && forall i :: 0 <= i < |p| - 1 ==> Descends(table, p[i], throughBodies)
  }

  /** A defined recipe without parameters that passes none on. */
  ghost predicate Clean(table: Table, name: Name) {
    && name in table && !table[name].hasParameters
    && forall d :: d in table[name].dependencies ==> !d.hasArguments
  }

  /** Expanding `name` explores only clean recipes, and none twice along a chain. */
  ghost predicate Expands(table: Table, name: Name, throughBodies: bool) {
    forall p :: Explored(table, p, throughBodies) && p[0] == name ==> Clean(table, p[|p| - 1]) && Distinct(p)
  }

  /** An explored chain leads from `name` to `g`, which has a body. */
  ghost predicate LeadsTo(table: Table, name: Name, throughBodies: bool, g: Name) {
    exists p :: PathTo(table, name, throughBodies, g, p)
  }

  ghost predicate PathTo(table: Table, name: Name, throughBodies: bool, g: Name, p: seq<Name>) {
    && Explored(table, p, throughBodies) && p[0] == name && p[|p| - 1] == g
    && g in table && table[g].hasBody
  }

  /** Expansion of a list succeeds exactly when each dependency expands, in which case it holds their gates. */
  lemma {:induction false} MemberLeaves(table: Table, dependencies: seq<Dependency>, visiting: set<Name>,
                                        throughBodies: bool, d: Dependency)
    requires LeavesOfAll(table, dependencies, visiting, throughBodies).Success?
    requires d in dependencies
    ensures Leaves(table, d.recipe, visiting, throughBodies).Success?
    ensures forall g :: g in Leaves(table, d.recipe, visiting, throughBodies).value
              ==> g in LeavesOfAll(table, dependencies, visiting, throughBodies).value
  {
    if d != dependencies[0] {
      MemberLeaves(table, dependencies[1..], visiting, throughBodies, d);
    }
  }

  /** A refused list has a refused dependency. */
  lemma {:induction false} RefusedMember(table: Table, dependencies: seq<Dependency>, visiting: set<Name>,
                                         throughBodies: bool)
    returns (d: Dependency)
    requires LeavesOfAll(table, dependencies, visiting, throughBodies).Failure?
    ensures d in dependencies && Leaves(table, d.recipe, visiting, throughBodies).Failure?
  {
    if Leaves(table, dependencies[0].recipe, visiting, throughBodies).Failure? {
      d := dependencies[0];
    } else {
      d := RefusedMember(table, dependencies[1..], visiting, throughBodies);
    }
  }

  lemma {:induction false} GateComesFrom(table: Table, dependencies: seq<Dependency>, visiting: set<Name>,
                                         throughBodies: bool, g: Name)
    returns (d: Dependency)
    requires LeavesOfAll(table, dependencies, visiting, throughBodies).Success?
    requires g in LeavesOfAll(table, dependencies, visiting, throughBodies).value
    ensures d in dependencies && Leaves(table, d.recipe, visiting, throughBodies).Success?
    ensures g in Leaves(table, d.recipe, visiting, throughBodies).value
  {
    if g in Leaves(table, dependencies[0].recipe, visiting, throughBodies).value {
      d := dependencies[0];
    } else {
      d := GateComesFrom(table, dependencies[1..], visiting, throughBodies, g);
    }
  }

  /** An accepted expansion does not depend on the recipes already being visited. */
  lemma {:induction false} FewerVisiting(table: Table, name: Name, visiting: set<Name>, fewer: set<Name>,
                                         throughBodies: bool)
    requires fewer <= visiting
    requires Leaves(table, name, visiting, throughBodies).Success?
    ensures Leaves(table, name, fewer, throughBodies) == Leaves(table, name, visiting, throughBodies)
    decreases table.Keys - visiting, 0
  {
    if Descends(table, name, throughBodies) {
      FewerVisitingAll(table, table[name].dependencies, visiting + {name}, fewer + {name}, throughBodies);
    }
  }

  lemma {:induction false} FewerVisitingAll(table: Table, dependencies: seq<Dependency>, visiting: set<Name>,
                                            fewer: set<Name>, throughBodies: bool)
    requires fewer <= visiting
    requires LeavesOfAll(table, dependencies, visiting, throughBodies).Success?
    ensures LeavesOfAll(table, dependencies, fewer, throughBodies)
         == LeavesOfAll(table, dependencies, visiting, throughBodies)
    decreases table.Keys - visiting, 1 + |dependencies|
  {
    if dependencies != [] {
      FewerVisiting(table, dependencies[0].recipe, visiting, fewer, throughBodies);
      FewerVisitingAll(table, dependencies[1..], visiting, fewer, throughBodies);
    }
  }

  /** Below an accepted recipe every explored chain meets only clean recipes, and never the same one twice. */
  lemma {:induction false} AcceptedChain(table: Table, p: seq<Name>, visiting: set<Name>, throughBodies: bool)
    requires Explored(table, p, throughBodies)
    requires Leaves(table, p[0], visiting, throughBodies).Success?
    ensures forall i :: 0 <= i < |p| ==> p[i] !in visiting && Clean(table, p[i])
    ensures Distinct(p)
    decreases |p|
  {
    if |p| > 1 {
      assert Edge(table, p[0], p[1]) && Descends(table, p[0], throughBodies);
      var d :| d in table[p[0]].dependencies && d.recipe == p[1];
      MemberLeaves(table, table[p[0]].dependencies, visiting + {p[0]}, throughBodies, d);
      var tail := p[1..];
      forall i | 0 <= i < |tail| - 1
        ensures Edge(table, tail[i], tail[i + 1]) && Descends(table, tail[i], throughBodies)
      {
        var k := i + 1;
        assert Edge(table, p[k], p[k + 1]) && Descends(table, p[k], throughBodies);
      }
      AcceptedChain(table, tail, visiting + {p[0]}, throughBodies);
      assert forall i :: 1 <= i < |p| ==> p[i] == tail[i - 1];
    }
  }

  /** A refusal has a witness: an explored chain to a recipe that is unclean, already visiting, or repeated. */
  lemma {:induction false} RefusalWitness(table: Table, name: Name, visiting: set<Name>, throughBodies: bool)
    returns (p: seq<Name>)
    requires Leaves(table, name, visiting, throughBodies).Failure?
    ensures Explored(table, p, throughBodies) && p[0] == name
    ensures p[|p| - 1] in visiting || !Clean(table, p[|p| - 1]) || !Distinct(p)
    decreases table.Keys - visiting
  {
    if name in visiting || !Clean(table, name) {
      p := [name];
    } else {
      var d := RefusedMember(table, table[name].dependencies, visiting + {name}, throughBodies);
      var q := RefusalWitness(table, d.recipe, visiting + {name}, throughBodies);
      p := [name] + q;
      assert Edge(table, name, q[0]);
      assert forall i :: 1 <= i < |p| ==> p[i] == q[i - 1];
      assert forall i :: 1 <= i < |p| - 1 ==> Edge(table, p[i], p[i + 1]) && Descends(table, p[i], throughBodies);
      if q[|q| - 1] == name {
        assert p[0] == p[|p| - 1];
      }
      if !Distinct(q) {
        var i, j :| 0 <= i < j < |q| && q[i] == q[j];
        assert p[i + 1] == p[j + 1];
      }
    }
  }

  /** The inventory expands exactly when all it explores is defined, argument-free and free of cycles. */
  lemma LeavesSucceedExactly(table: Table, name: Name, throughBodies: bool)
    ensures Leaves(table, name, {}, throughBodies).Success? <==> Expands(table, name, throughBodies)
  {
    if Leaves(table, name, {}, throughBodies).Success? {
      forall p | Explored(table, p, throughBodies) && p[0] == name
        ensures Clean(table, p[|p| - 1]) && Distinct(p)
      {
        AcceptedChain(table, p, {}, throughBodies);
      }
    } else {
      var p := RefusalWitness(table, name, {}, throughBodies);
    }
  }

  /** What the bodies-as-leaves expansion lists, the expansion through bodies lists too. */
  lemma {:induction false} ThroughBodiesLists(table: Table, name: Name, visiting: set<Name>, g: Name)
    requires Leaves(table, name, visiting, false).Success? && Leaves(table, name, visiting, true).Success?
    requires g in Leaves(table, name, visiting, false).value
    ensures g in Leaves(table, name, visiting, true).value
    decreases table.Keys - visiting
  {
    if !table[name].hasBody {
      var deps := table[name].dependencies;
      var d := GateComesFrom(table, deps, visiting + {name}, false, g);
      MemberLeaves(table, deps, visiting + {name}, true, d);
      ThroughBodiesLists(table, d.recipe, visiting + {name}, g);
    }
  }

  /** Every listed gate is a defined recipe with a body. */
  lemma {:induction false} GatesHaveBodies(table: Table, name: Name, visiting: set<Name>, throughBodies: bool, g: Name)
    requires Leaves(table, name, visiting, throughBodies).Success?
    requires g in Leaves(table, name, visiting, throughBodies).value
    ensures g in table && table[g].hasBody
    decreases table.Keys - visiting
  {
    if Descends(table, name, throughBodies) && g !in OwnGate(table, name) {
      var d := GateComesFrom(table, table[name].dependencies, visiting + {name}, throughBodies, g);
      GatesHaveBodies(table, d.recipe, visiting + {name}, throughBodies, g);
    }
  }

  lemma ExploredFirst(table: Table, a: Name, p: seq<Name>, throughBodies: bool)
    requires Explored(table, p, throughBodies) && Edge(table, a, p[0]) && Descends(table, a, throughBodies)
    ensures Explored(table, [a] + p, throughBodies)
  {
    var q := [a] + p;
    forall i | 0 <= i < |q| - 1 ensures Edge(table, q[i], q[i + 1]) && Descends(table, q[i], throughBodies) {
      if i > 0 { assert Edge(table, p[i - 1], p[i - 1 + 1]) && Descends(table, p[i - 1], throughBodies); }
    }
  }

  lemma ExploredRest(table: Table, p: seq<Name>, throughBodies: bool)
    requires Explored(table, p, throughBodies) && |p| > 1
    ensures Explored(table, p[1..], throughBodies) && Edge(table, p[0], p[1]) && Descends(table, p[0], throughBodies)
  {
    var q := p[1..];
    assert Edge(table, p[0], p[0 + 1]) && Descends(table, p[0], throughBodies);
    forall i | 0 <= i < |q| - 1 ensures Edge(table, q[i], q[i + 1]) && Descends(table, q[i], throughBodies) {
      assert Edge(table, p[i + 1], p[i + 1 + 1]) && Descends(table, p[i + 1], throughBodies);
    }
  }

  lemma {:induction false} ListedHasPath(table: Table, name: Name, visiting: set<Name>, throughBodies: bool, g: Name)
    returns (p: seq<Name>)
    requires Leaves(table, name, visiting, throughBodies).Success?
    requires g in Leaves(table, name, visiting, throughBodies).value
    ensures PathTo(table, name, throughBodies, g, p)
    decreases table.Keys - visiting
  {
    if Descends(table, name, throughBodies) && g !in OwnGate(table, name) {
      var d := GateComesFrom(table, table[name].dependencies, visiting + {name}, throughBodies, g);
      p := ListedHasPath(table, d.recipe, visiting + {name}, throughBodies, g);
      ExploredFirst(table, name, p, throughBodies);
      p := [name] + p;
    } else {
      p := [name];
    }
  }

  lemma {:induction false} PathIsListed(table: Table, name: Name, visiting: set<Name>, throughBodies: bool, g: Name,
                                        p: seq<Name>)
    requires Leaves(table, name, visiting, throughBodies).Success? && PathTo(table, name, throughBodies, g, p)
    ensures g in Leaves(table, name, visiting, throughBodies).value
    decreases |p|
  {
    if |p| > 1 {
      ExploredRest(table, p, throughBodies);
      var d :| d in table[name].dependencies && d.recipe == p[1];
      MemberLeaves(table, table[name].dependencies, visiting + {name}, throughBodies, d);
      PathIsListed(table, p[1], visiting + {name}, throughBodies, g, p[1..]);
    }
  }

  /** The expansion lists exactly the recipes with bodies that explored chains lead to. */
  lemma ListedExactly(table: Table, name: Name, visiting: set<Name>, throughBodies: bool, g: Name)
    requires Leaves(table, name, visiting, throughBodies).Success?
    ensures g in Leaves(table, name, visiting, throughBodies).value <==> LeadsTo(table, name, throughBodies, g)
  {
    if g in Leaves(table, name, visiting, throughBodies).value {
      var p := ListedHasPath(table, name, visiting, throughBodies, g);
    }
    forall p | PathTo(table, name, throughBodies, g, p)
      ensures g in Leaves(table, name, visiting, throughBodies).value
    {
      PathIsListed(table, name, visiting, throughBodies, g, p);
    }
  }

  /** Through bodies, every chain is explored. */
  lemma EveryChainIsExplored(table: Table, p: seq<Name>)
    ensures Explored(table, p, true) <==> Chain(table, p)
  {
    if Chain(table, p) {
      forall i | 0 <= i < |p| - 1 ensures Descends(table, p[i], true) { assert Edge(table, p[i], p[i + 1]); }
    }
  }
}
