/** Dependency expansion over the recipes a justfile declares, and what it reaches. */
module Expansion {
  import opened Common
  import opened Justfile

  function Lookup(graph: Graph, name: Name): Option<seq<Name>> {
    if name in graph.dependencies then Some(graph.dependencies[name]) else None
  }

  /** The dependencies to expand in place of `name`, or None when it stays a leaf. */
  function GroupMembers(graph: Graph, name: Name, expanding: set<Name>, throughBodies: bool): Option<seq<Name>> {
    if name !in expanding && (throughBodies || name in graph.groups) then Lookup(graph, name) else None
  }

  function Expand(graph: Graph, dependencies: seq<Name>, expanding: set<Name>, throughBodies: bool): seq<Name>
    decreases graph.dependencies.Keys - expanding, 1 + |dependencies|
  {
    if dependencies == [] then []
    else ExpandOne(graph, dependencies[0], expanding, throughBodies)
         + Expand(graph, dependencies[1..], expanding, throughBodies)
  }

  function ExpandOne(graph: Graph, d: Name, expanding: set<Name>, throughBodies: bool): seq<Name>
    decreases graph.dependencies.Keys - expanding, 0
  {
    var group := GroupMembers(graph, d, expanding, throughBodies);
    if group.None? then [d]
    else Expand(graph, group.value, expanding + {d}, throughBodies) + if throughBodies then [d] else []
  }

  /** The gates below `recipe`, or None when it is not declared. */
  function Gates(graph: Graph, recipe: Name, throughBodies: bool): Option<seq<Name>> {
    var dependencies := Lookup(graph, recipe);
    if dependencies.None? then None else Some(Expand(graph, dependencies.value, {recipe}, throughBodies))
  }

  /** Recipes that are no groups stand for themselves. */
  lemma {:induction false} ExpandGates(graph: Graph, gates: seq<Name>, expanding: set<Name>)
    requires forall g :: g in gates ==> g !in graph.groups
    ensures Expand(graph, gates, expanding, false) == gates
  {
    if gates != [] {
      assert gates[0] in gates;
      ExpandGates(graph, gates[1..], expanding);
    }
  }

  /** The stack of recipes being expanded and the growing gate list, which the expander updates in place. */
  class Expander {
    var expanding: seq<Name>
    var gates: seq<Name>

    constructor (recipe: Name)
      ensures expanding == [recipe] && gates == []
    {
      expanding, gates := [recipe], [];
    }

    method ExpandInto(graph: Graph, dependencies: seq<Name>, throughBodies: bool)
      modifies this
      ensures expanding == old(expanding)
      ensures gates == old(gates) + Expand(graph, dependencies, Elements(old(expanding)), throughBodies)
      decreases graph.dependencies.Keys - Elements(expanding), 1
    {
      ghost var active := Elements(expanding);
      assert dependencies[0..] == dependencies;
      for i := 0 to |dependencies|
        invariant expanding == old(expanding)
        invariant gates + Expand(graph, dependencies[i..], active, throughBodies)
               == old(gates) + Expand(graph, dependencies, active, throughBodies)
      {
        ghost var done := gates;
        ghost var rest := Expand(graph, dependencies[i + 1..], active, throughBodies);
        assert dependencies[i..][1..] == dependencies[i + 1..];
        ExpandOneInto(graph, dependencies[i], throughBodies);
        assert done + (ExpandOne(graph, dependencies[i], active, throughBodies) + rest) == gates + rest;
      }
    }

    /** One turn of the expander's loop: push, expand the members, pop; or append a leaf. */
    method ExpandOneInto(graph: Graph, d: Name, throughBodies: bool)
      modifies this
      ensures expanding == old(expanding)
      ensures gates == old(gates) + ExpandOne(graph, d, Elements(old(expanding)), throughBodies)
      decreases graph.dependencies.Keys - Elements(expanding), 0
    {
      if d !in expanding && (throughBodies || d in graph.groups) && d in graph.dependencies {
        expanding := expanding + [d];
        assert Elements(expanding) == Elements(old(expanding)) + {d};
        ExpandInto(graph, graph.dependencies[d], throughBodies);
        expanding := expanding[..|expanding| - 1];
        if throughBodies { gates := gates + [d]; }
      } else {
        gates := gates + [d];
      }
    }
  }

  method DependencyGates(graph: Graph, recipe: Name, throughBodies: bool) returns (r: Option<seq<Name>>)
    ensures r == Gates(graph, recipe, throughBodies)
  {
    var dependencies := Lookup(graph, recipe);
    if dependencies.None? { return None; }
    var expander := new Expander(recipe);
    assert Elements([recipe]) == {recipe};
    expander.ExpandInto(graph, dependencies.value, throughBodies);
    assert Gates(graph, recipe, throughBodies).value == [] + Gates(graph, recipe, throughBodies).value;
    return Some(expander.gates);
  }

  // ----- Reachability -----

  ghost predicate Edge(graph: Graph, a: Name, b: Name) {
    a in graph.dependencies && b in graph.dependencies[a]
  }

  ghost predicate Walk(graph: Graph, p: seq<Name>) {
    |p| > 0 && forall i :: 0 <= i < |p| - 1 ==> Edge(graph, p[i], p[i + 1])
  }

  /** `b` is reached from `a` by one or more dependencies. */
  ghost predicate Reaches(graph: Graph, a: Name, b: Name) {
    exists p :: WalkBetween(graph, p, a, b)
  }

  ghost predicate WalkBetween(graph: Graph, p: seq<Name>, a: Name, b: Name) {
    Walk(graph, p) && |p| > 1 && p[0] == a && p[|p| - 1] == b
  }

  lemma WalkPrepend(graph: Graph, a: Name, p: seq<Name>)
    requires Walk(graph, p) && Edge(graph, a, p[0])
    ensures Walk(graph, [a] + p)
  {
    var q := [a] + p;
    forall i | 0 <= i < |q| - 1 ensures Edge(graph, q[i], q[i + 1]) {
      if i > 0 { assert q[i] == p[i - 1] && q[i + 1] == p[i - 1 + 1]; }
    }
  }

  /** Everything the expander lists is reached through one of the dependencies. */
  lemma {:induction false} ListedIsReached(graph: Graph, dependencies: seq<Name>, expanding: set<Name>,
                                           throughBodies: bool, g: Name)
    returns (p: seq<Name>)
    requires g in Expand(graph, dependencies, expanding, throughBodies)
    ensures Walk(graph, p) && p[0] in dependencies && p[|p| - 1] == g
    decreases graph.dependencies.Keys - expanding, 1 + |dependencies|
  {
    var d := dependencies[0];
    var group := GroupMembers(graph, d, expanding, throughBodies);
    if g == d {
      p := [d];
    } else if g in Expand(graph, dependencies[1..], expanding, throughBodies) {
      p := ListedIsReached(graph, dependencies[1..], expanding, throughBodies, g);
    } else {
      var q := ListedIsReached(graph, group.value, expanding + {d}, throughBodies, g);
      WalkPrepend(graph, d, q);
      p := [d] + q;
    }
  }

  /** What one dependency contributes is listed. */
  lemma {:induction false} ExpandMember(graph: Graph, dependencies: seq<Name>, expanding: set<Name>,
                                        throughBodies: bool, d: Name, g: Name)
    requires d in dependencies && g in ExpandOne(graph, d, expanding, throughBodies)
    ensures g in Expand(graph, dependencies, expanding, throughBodies)
  {
    if d != dependencies[0] {
      ExpandMember(graph, dependencies[1..], expanding, throughBodies, d, g);
    }
  }

  /** A walk whose inner recipes are new and distinct is followed to its end. */
  lemma {:induction false} WalkIsListed(graph: Graph, dependencies: seq<Name>, expanding: set<Name>, p: seq<Name>)
    requires Walk(graph, p) && p[0] in dependencies
    requires Distinct(p[..|p| - 1])
    requires forall i :: 0 <= i < |p| - 1 ==> p[i] !in expanding
    ensures p[|p| - 1] in Expand(graph, dependencies, expanding, true)
    decreases |p|
  {
    if |p| > 1 {
      assert Edge(graph, p[0], p[1]);
      var tail := p[1..];
      forall i | 0 <= i < |tail| - 1 ensures tail[i] !in expanding + {p[0]} && Edge(graph, tail[i], tail[i + 1]) {
        var inner := p[..|p| - 1];
        assert inner[0] != inner[i + 1] && Edge(graph, p[i + 1], p[i + 1 + 1]);
      }
      assert tail[..|tail| - 1] == p[..|p| - 1][1..];
      WalkIsListed(graph, graph.dependencies[p[0]], expanding + {p[0]}, tail);
    }
    ExpandMember(graph, dependencies, expanding, true, p[0], p[|p| - 1]);
  }

  /** Cutting out a loop leaves a shorter walk with the same ends. */
  lemma CutLoop(graph: Graph, p: seq<Name>, i: nat, j: nat)
    requires Walk(graph, p) && i < j < |p| - 1 && p[i] == p[j]
    ensures var q := p[..i] + p[j..];
      Walk(graph, q) && 1 < |q| < |p| && q[0] == p[0] && q[|q| - 1] == p[|p| - 1]
  {
    var q := p[..i] + p[j..];
    forall k | 0 <= k < |q| - 1 ensures Edge(graph, q[k], q[k + 1]) {
      if k < i {
        assert Edge(graph, p[k], p[k + 1]);
      } else {
        var m := k - i + j;
        assert Edge(graph, p[m], p[m + 1]);
      }
    }
  }

  lemma {:induction false} SimpleWalk(graph: Graph, p: seq<Name>) returns (q: seq<Name>)
    requires Walk(graph, p) && |p| > 1
    ensures Walk(graph, q) && |q| > 1 && q[0] == p[0] && q[|q| - 1] == p[|p| - 1]
    ensures Distinct(q[..|q| - 1])
    decreases |p|
  {
    var inner := p[..|p| - 1];
    if Distinct(inner) {
      q := p;
    } else {
      var i, j :| 0 <= i < j < |inner| && inner[i] == inner[j];
      CutLoop(graph, p, i, j);
      q := SimpleWalk(graph, p[..i] + p[j..]);
    }
  }

  /** On any graph, cyclic or not, the list below `root` holds exactly the recipes `root` reaches. */
  lemma GatesAreReachable(graph: Graph, root: Name, g: Name)
    requires root in graph.dependencies
    ensures Gates(graph, root, true).Some?
    ensures g in Gates(graph, root, true).value <==> Reaches(graph, root, g)
  {
    var dependencies := graph.dependencies[root];
    if g in Expand(graph, dependencies, {root}, true) {
      var p := ListedIsReached(graph, dependencies, {root}, true, g);
      WalkPrepend(graph, root, p);
      assert WalkBetween(graph, [root] + p, root, g);
    }
    if Reaches(graph, root, g) {
      var p :| WalkBetween(graph, p, root, g);
      var q := SimpleWalk(graph, p);
      var tail := q[1..];
      assert Edge(graph, q[0], q[1]);
      forall i | 0 <= i < |tail| - 1 ensures tail[i] !in {root} && Edge(graph, tail[i], tail[i + 1]) {
        assert q[..|q| - 1][0] != q[..|q| - 1][i + 1] && Edge(graph, q[i + 1], q[i + 1 + 1]);
      }
      assert tail[..|tail| - 1] == q[..|q| - 1][1..];
      WalkIsListed(graph, dependencies, {root}, tail);
    }
  }
}
