/** Validation of a CI inventory before it is executed with `--no-deps`. */
module Inventory {
  import opened Common
  import opened Recipes

  const RUST_SUFFIX: seq<Name> := ["fmt-check", "clippy", "test", "doc", "deny"]
  const EXCLUSIVE: set<Name> := {"typescript", "fmt-check", "clippy", "test", "doc", "deny"}

  /** `name` expands, and what it leads to is in the inventory. */
  ghost predicate Covered(table: Table, gates: seq<Name>, name: Name) {
    Expands(table, name, false) && forall g :: LeadsTo(table, name, false, g) ==> g in gates
  }

  lemma CoveredExactly(table: Table, gates: seq<Name>, name: Name)
    ensures var below := Leaves(table, name, {}, false);
      Covered(table, gates, name) <==> below.Success? && forall g :: g in below.value ==> g in gates
  {
    LeavesSucceedExactly(table, name, false);
    if Leaves(table, name, {}, false).Success? {
      forall g ensures g in Leaves(table, name, {}, false).value <==> LeadsTo(table, name, false, g) {
        ListedExactly(table, name, {}, false, g);
      }
    }
  }

  ghost predicate PrerequisitesListed(table: Table, gates: seq<Name>) {
    forall gate, d :: gate in gates && gate in table && d in table[gate].dependencies
      ==> Covered(table, gates, d.recipe)
  }

  predicate EndsWith(gates: seq<Name>, suffix: seq<Name>) {
    |suffix| <= |gates| && gates[|gates| - |suffix|..] == suffix
  }

  /** The serial Rust gates, in order, follow all others. */
  ghost predicate SuffixFollows(gates: seq<Name>) {
    exists front: seq<Name> :: gates == front + RUST_SUFFIX
  }

  lemma SuffixExactly(gates: seq<Name>)
    ensures EndsWith(gates, RUST_SUFFIX) <==> SuffixFollows(gates)
  {
    if EndsWith(gates, RUST_SUFFIX) {
      assert gates == gates[..|gates| - |RUST_SUFFIX|] + RUST_SUFFIX;
    }
    if SuffixFollows(gates) {
      var front: seq<Name> :| gates == front + RUST_SUFFIX;
      assert gates[|gates| - |RUST_SUFFIX|..] == RUST_SUFFIX;
    }
  }

  /**
   * Along every chain of dependencies from a parallel recipe, through bodies and all, recipes are clean, none
   * comes twice, and none that has a body is exclusive.
   */
  ghost predicate GroupIsSafe(table: Table, group: Name)
    requires group in table
  {
    table[group].parallel ==> forall p: seq<Name> :: Chain(table, p) && p[0] == group ==>
      && Clean(table, p[|p| - 1]) && Distinct(p)
      && (table[p[|p| - 1]].hasBody ==> p[|p| - 1] !in EXCLUSIVE)
  }

  /** The expansion through bodies succeeds and lists no exclusive gate. */
  ghost predicate ExpandsSafely(table: Table, group: Name) {
    var reached := Leaves(table, group, {}, true);
    reached.Success? && forall g :: g in reached.value ==> g !in EXCLUSIVE
  }

  lemma GroupIsSafeExactly(table: Table, group: Name)
    requires group in table
    ensures GroupIsSafe(table, group) <==> (table[group].parallel ==> ExpandsSafely(table, group))
  {
    LeavesSucceedExactly(table, group, true);
    forall p { EveryChainIsExplored(table, p); }
    if Leaves(table, group, {}, true).Success? {
      forall g ensures g in Leaves(table, group, {}, true).value <==> LeadsTo(table, group, true, g) {
        ListedExactly(table, group, {}, true, g);
      }
      SafeByGates(table, group);
    }
  }

  lemma SafeByGates(table: Table, group: Name)
    requires Expands(table, group, true)
    ensures (forall g :: LeadsTo(table, group, true, g) ==> g !in EXCLUSIVE)
       <==> forall p: seq<Name> :: Chain(table, p) && p[0] == group && p[|p| - 1] in table && table[p[|p| - 1]].hasBody
              ==> p[|p| - 1] !in EXCLUSIVE
  {
    forall p: seq<Name> | Chain(table, p) && p[0] == group && p[|p| - 1] in table && table[p[|p| - 1]].hasBody
      ensures LeadsTo(table, group, true, p[|p| - 1])
    {
      EveryChainIsExplored(table, p);
      assert PathTo(table, group, true, p[|p| - 1], p);
    }
    forall g | LeadsTo(table, group, true, g)
      ensures exists p: seq<Name> ::
        Chain(table, p) && p[0] == group && p[|p| - 1] == g && g in table && table[g].hasBody
    {
      var p :| PathTo(table, group, true, g, p);
    }
  }

  /** The gates of an inventory, in execution order. */
  function Gates(table: Table, name: Name): seq<Name> {
    var expanded := Leaves(table, name, {}, false);
    if expanded.Success? then expanded.value else []
  }

  ghost predicate Accepted(table: Table, name: Name) {
    && Expands(table, name, false)
    && var gates := Gates(table, name);
    && Distinct(gates)
    && PrerequisitesListed(table, gates)
    && SuffixFollows(gates)
    && forall group :: group in table ==> GroupIsSafe(table, group)
  }

  lemma AcceptedExpands(table: Table, name: Name)
    requires Accepted(table, name)
    ensures Leaves(table, name, {}, false) == Success(Gates(table, name))
  {
    LeavesSucceedExactly(table, name, false);
  }

  ghost predicate RefusedExpansion(table: Table, e: Refusal) {
    exists n, throughBodies :: Leaves(table, n, {}, throughBodies) == Failure(e)
  }

  /** What each refusal reports is true of the table. */
  ghost predicate Justified(table: Table, name: Name, e: Refusal) {
    || RefusedExpansion(table, e)
    || (&& Leaves(table, name, {}, false).Success?
        && var gates := Leaves(table, name, {}, false).value;
        match e
        case DuplicateGate => !Distinct(gates)
        case UnlistedPrerequisite(child, gate) => UnlistedChild(table, gates, child, gate)
        case MissingSuffix => !SuffixFollows(gates)
        case ParallelReaches(group) => group in table && !GroupIsSafe(table, group)
        case _ => false)
  }

  ghost predicate UnlistedChild(table: Table, gates: seq<Name>, child: Name, gate: Name) {
    && gate in gates && gate in table && child !in gates
    && exists d :: d in table[gate].dependencies && LeadsTo(table, d.recipe, false, child)
  }

  lemma {:induction false} DistinctByCount(s: seq<Name>)
    ensures |Elements(s)| <= |s|
    ensures |Elements(s)| == |s| <==> Distinct(s)
  {
    if s != [] {
      var init, last := s[..|s| - 1], s[|s| - 1];
      DistinctByCount(init);
      assert s == init + [last];
      assert Elements(s) == Elements(init) + {last};
      if last in init {
        assert Elements(s) == Elements(init);
        var i :| 0 <= i < |init| && init[i] == last;
        assert s[i] == s[|s| - 1];
      } else if Distinct(init) {
        assert Distinct(s);
      } else {
        var i, j :| 0 <= i < j < |init| && init[i] == init[j];
        assert s[i] == s[j];
      }
    }
  }

  ghost predicate UnlistedBelow(table: Table, gates: seq<Name>, gate: Name, name: Name, e: Refusal) {
    e.UnlistedPrerequisite? && e.gate == gate && e.child !in gates && LeadsTo(table, name, false, e.child)
  }

  /** Refuses at the first gate of a prerequisite that the inventory does not list. */
  method CheckPrerequisite(table: Table, gates: seq<Name>, gate: Name, name: Name) returns (r: Option<Refusal>)
    ensures r.None? <==> Covered(table, gates, name)
    ensures r.Some? ==> RefusedExpansion(table, r.value) || UnlistedBelow(table, gates, gate, name, r.value)
  {
    CoveredExactly(table, gates, name);
    assert Elements<Name>([]) == {};
    var below := ComputeLeaves(table, name, [], false);
    if below.Failure? { return Some(below.error); }
    for k := 0 to |below.value|
      invariant forall g :: g in below.value[..k] ==> g in gates
    {
      var child := below.value[k];
      if child !in gates {
        ListedExactly(table, name, {}, false, child);
        return Some(UnlistedPrerequisite(child, gate));
      }
    }
    return None;
  }

  method CheckGate(table: Table, gates: seq<Name>, gate: Name) returns (r: Option<Refusal>)
    requires gate in table
    ensures r.None? <==> forall d :: d in table[gate].dependencies ==> Covered(table, gates, d.recipe)
    ensures r.Some? ==>
      || RefusedExpansion(table, r.value)
      || exists d :: d in table[gate].dependencies && UnlistedBelow(table, gates, gate, d.recipe, r.value)
  {
    var dependencies := table[gate].dependencies;
    for j := 0 to |dependencies|
      invariant forall d :: d in dependencies[..j] ==> Covered(table, gates, d.recipe)
    {
      assert dependencies[j] in dependencies;
      var refusal := CheckPrerequisite(table, gates, gate, dependencies[j].recipe);
      if refusal.Some? { return refusal; }
    }
    return None;
  }

  /** Refuses at the first prerequisite of a gate that the inventory does not list. */
  method CheckPrerequisites(table: Table, gates: seq<Name>) returns (r: Option<Refusal>)
    requires forall g :: g in gates ==> g in table
    ensures r.None? <==> PrerequisitesListed(table, gates)
    ensures r.Some? ==>
      (|| RefusedExpansion(table, r.value)
       || (r.value.UnlistedPrerequisite? && UnlistedChild(table, gates, r.value.child, r.value.gate)))
  {
    for i := 0 to |gates|
      invariant forall gate, d :: gate in gates[..i] && d in table[gate].dependencies ==>
        Covered(table, gates, d.recipe)
    {
      var refusal := CheckGate(table, gates, gates[i]);
      if refusal.Some? { return refusal; }
    }
    return None;
  }

  method CheckGroup(table: Table, group: Name) returns (r: Option<Refusal>)
    requires group in table
    ensures r.None? <==> GroupIsSafe(table, group)
    ensures r.Some? ==> RefusedExpansion(table, r.value) || r.value == ParallelReaches(group)
  {
    r := None;
    GroupIsSafeExactly(table, group);
    if table[group].parallel {
      assert Elements<Name>([]) == {};
      var reached := ComputeLeaves(table, group, [], true);
      if reached.Failure? { return Some(reached.error); }
      if exists g :: g in reached.value && g in EXCLUSIVE { return Some(ParallelReaches(group)); }
    }
  }

  /** The whole validation. The dump's recipe order only decides which unsafe group is reported. */
  method ValidateInventory(table: Table, name: Name) returns (r: Expanded)
    ensures r.Success? <==> Accepted(table, name)
    ensures r.Success? ==> r == Leaves(table, name, {}, false)
    ensures r.Failure? ==> Justified(table, name, r.error)
  {
    assert Elements<Name>([]) == {};
    LeavesSucceedExactly(table, name, false);
    r := ComputeLeaves(table, name, [], false);
    if r.Failure? { return; }
    var gates := r.value;
    DistinctByCount(gates);
    if |gates| != |set g | g in gates| { return Failure(DuplicateGate); }
    forall g | g in gates ensures g in table {
      GatesHaveBodies(table, name, {}, false, g);
    }
    var unlisted := CheckPrerequisites(table, gates);
    if unlisted.Some? { return Failure(unlisted.value); }
    SuffixExactly(gates);
    if !EndsWith(gates, RUST_SUFFIX) { return Failure(MissingSuffix); }
    var pending := table.Keys;
    while pending != {}
      invariant pending <= table.Keys
      invariant forall group :: group in table.Keys - pending ==> GroupIsSafe(table, group)
    {
      var group :| group in pending;
      var unsafe := CheckGroup(table, group);
      if unsafe.Some? { return Failure(unsafe.value); }
      pending := pending - {group};
    }
  }

  lemma CoveredStep(table: Table, gates: seq<Name>, n: Name, m: Name)
    requires PrerequisitesListed(table, gates) && Covered(table, gates, n) && Edge(table, n, m)
    ensures Covered(table, gates, m)
  {
    var d :| d in table[n].dependencies && d.recipe == m;
    CoveredExactly(table, gates, n);
    CoveredExactly(table, gates, m);
    if !table[n].hasBody {
      MemberLeaves(table, table[n].dependencies, {} + {n}, false, d);
      FewerVisiting(table, m, {} + {n}, {}, false);
    }
  }

  lemma {:induction false} CoveredChain(table: Table, gates: seq<Name>, p: seq<Name>)
    requires PrerequisitesListed(table, gates) && Chain(table, p) && Covered(table, gates, p[0])
    ensures Covered(table, gates, p[|p| - 1])
    decreases |p|
  {
    if |p| > 1 {
      var init := p[..|p| - 1];
      assert forall i :: 0 <= i < |init| - 1 ==> Edge(table, p[i], p[i + 1]);
      CoveredChain(table, gates, init);
      assert Edge(table, p[|p| - 2], p[|p| - 2 + 1]);
      CoveredStep(table, gates, p[|p| - 2], p[|p| - 1]);
    }
  }

  /**
   * The one-level prerequisite check is enough: along any chain of dependencies, through bodies and
   * around cycles of bodies, every recipe met is defined, and if it has a body it is a listed gate.
   */
  lemma EveryPrerequisiteIsListed(table: Table, name: Name, p: seq<Name>)
    requires Accepted(table, name)
    requires Chain(table, p) && p[0] == name
    ensures Clean(table, p[|p| - 1])
    ensures table[p[|p| - 1]].hasBody ==> p[|p| - 1] in Gates(table, name)
  {
    AcceptedExpands(table, name);
    CoveredExactly(table, Gates(table, name), name);
    CoveredChain(table, Gates(table, name), p);
    CoveredExactly(table, Gates(table, name), p[|p| - 1]);
  }
}
