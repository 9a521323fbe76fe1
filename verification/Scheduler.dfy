/**
 * Execution of an inventory: serial groups stop at the first failure, parallel groups start every
 * member and drain them all. The thread pool is a step relation, so a run is any interleaving.
 */
module Scheduler {
  import opened Common
  import opened Recipes
  import opened Inventory

  /** The call tree of `run`: a recipe with a body is a gate, any other recipe groups its dependencies. */
  datatype Tree = Gate(name: Name) | Group(parallel: bool, members: seq<Tree>)

  /** Which gates the router selected, and what each gate's process would exit with. */
  datatype Plan = Plan(selected: Name -> bool, exitCode: Name -> int)

  datatype Event = Start(gate: Name) | Finish(gate: Name, code: int) | Silent

  datatype Task =
    | Todo(tree: Tree)
    | InGate(gate: Name)
    | InSerial(current: Task, rest: seq<Tree>)
    | InParallel(children: seq<Task>)
    | Done(code: int)

  function Unfold(table: Table, name: Name, visiting: set<Name>): Tree
    requires Leaves(table, name, visiting, false).Success?
    decreases table.Keys - visiting, 0
  {
    if table[name].hasBody then Gate(name)
    else Group(table[name].parallel, UnfoldAll(table, table[name].dependencies, visiting + {name}))
  }

  function UnfoldAll(table: Table, dependencies: seq<Dependency>, visiting: set<Name>): seq<Tree>
    requires LeavesOfAll(table, dependencies, visiting, false).Success?
    decreases table.Keys - visiting, 1 + |dependencies|
  {
    if dependencies == [] then []
    else [Unfold(table, dependencies[0].recipe, visiting)] + UnfoldAll(table, dependencies[1..], visiting)
  }

  function Flat(t: Tree): seq<Name>
    decreases t, 1
  {
    match t
    case Gate(g) => [g]
    case Group(_, members) => FlatAll(members)
  }

  function FlatAll(ts: seq<Tree>): seq<Name>
    decreases ts, 0
  {
    if ts == [] then [] else Flat(ts[0]) + FlatAll(ts[1..])
  }

  lemma {:induction false} UnfoldIsFlat(table: Table, name: Name, visiting: set<Name>)
    requires Leaves(table, name, visiting, false).Success?
    ensures Flat(Unfold(table, name, visiting)) == Leaves(table, name, visiting, false).value
    decreases table.Keys - visiting, 0
  {
    if !table[name].hasBody {
      UnfoldAllIsFlat(table, table[name].dependencies, visiting + {name});
    }
  }

  lemma {:induction false} UnfoldAllIsFlat(table: Table, dependencies: seq<Dependency>, visiting: set<Name>)
    requires LeavesOfAll(table, dependencies, visiting, false).Success?
    ensures FlatAll(UnfoldAll(table, dependencies, visiting)) == LeavesOfAll(table, dependencies, visiting, false).value
    decreases table.Keys - visiting, 1 + |dependencies|
  {
    if dependencies != [] {
      UnfoldIsFlat(table, dependencies[0].recipe, visiting);
      UnfoldAllIsFlat(table, dependencies[1..], visiting);
    }
  }

  // ----- What a run returns -----

  /** The flat scan: the exit code of the first selected gate that fails, or 0. */
  function Scan(plan: Plan, gates: seq<Name>): int {
    if gates == [] then 0
    else if plan.selected(gates[0]) && plan.exitCode(gates[0]) != 0 then plan.exitCode(gates[0])
    else Scan(plan, gates[1..])
  }

  lemma {:induction false} ScanConcat(plan: Plan, a: seq<Name>, b: seq<Name>)
    ensures Scan(plan, a + b) == if Scan(plan, a) != 0 then Scan(plan, a) else Scan(plan, b)
  {
    if a == [] {
      assert a + b == b;
    } else {
      assert (a + b)[1..] == a[1..] + b;
      ScanConcat(plan, a[1..], b);
    }
  }

  function TodoAll(ts: seq<Tree>): seq<Task> {
    seq(|ts|, i requires 0 <= i < |ts| => Todo(ts[i]))
  }

  predicate AllDone(cs: seq<Task>) {
    forall i :: 0 <= i < |cs| ==> cs[i].Done?
  }

  function FirstFailing(cs: seq<Task>): int
    requires AllDone(cs)
  {
    if cs == [] then 0 else if cs[0].code != 0 then cs[0].code else FirstFailing(cs[1..])
  }

  /** One step of one thread. */
  ghost predicate Step(plan: Plan, c: Task, e: Event, c': Task)
    decreases c
  {
    match c
    case Todo(Gate(g)) =>
      if plan.selected(g) then e == Start(g) && c' == InGate(g) else e == Silent && c' == Done(0)
    case Todo(Group(parallel, members)) =>
      e == Silent && c' == if parallel then InParallel(TodoAll(members)) else InSerial(Done(0), members)
    case InGate(g) =>
      e == Finish(g, plan.exitCode(g)) && c' == Done(plan.exitCode(g))
    case InSerial(current, rest) =>
      if !current.Done? then c'.InSerial? && c'.rest == rest && Step(plan, current, e, c'.current)
      else e == Silent && c' == if current.code != 0 then current
                                else if rest == [] then Done(0)
                                else InSerial(Todo(rest[0]), rest[1..])
    case InParallel(children) =>
      if AllDone(children) then e == Silent && c' == Done(FirstFailing(children))
      else c'.InParallel? && exists i :: 0 <= i < |children| && ChildSteps(plan, children, i, e, c'.children)
    case Done(_) => false
  }

  ghost predicate ChildSteps(plan: Plan, cs: seq<Task>, i: nat, e: Event, cs': seq<Task>)
    requires i < |cs|
    decreases cs, 0
  {
    |cs'| == |cs| && cs' == cs[i := cs'[i]] && Step(plan, cs[i], e, cs'[i])
  }

  /** A finite run: consecutive states joined by steps, with the event of each step. */
  ghost predicate Run(plan: Plan, t: Tree, states: seq<Task>, events: seq<Event>) {
    && |states| == |events| + 1
    && states[0] == Todo(t)
    && forall i :: 0 <= i < |events| ==> Step(plan, states[i], events[i], states[i + 1])
  }

  /** The code a state will return. */
  function Outcome(plan: Plan, c: Task): int
    decreases c
  {
    match c
    case Todo(t) => Scan(plan, Flat(t))
    case InGate(g) => plan.exitCode(g)
    case InSerial(current, rest) =>
      if Outcome(plan, current) != 0 then Outcome(plan, current) else Scan(plan, FlatAll(rest))
    case InParallel(children) => OutcomeAll(plan, children)
    case Done(code) => code
  }

  function OutcomeAll(plan: Plan, cs: seq<Task>): int
    decreases cs
  {
    if cs == [] then 0
    else if Outcome(plan, cs[0]) != 0 then Outcome(plan, cs[0]) else OutcomeAll(plan, cs[1..])
  }

  /** The gates whose processes a tree starts, whatever the schedule. */
  function Ran(plan: Plan, t: Tree): multiset<Name>
    decreases t, 1
  {
    match t
    case Gate(g) => if plan.selected(g) then multiset{g} else multiset{}
    case Group(parallel, members) => RanAll(plan, parallel, members)
  }

  function RanAll(plan: Plan, parallel: bool, ts: seq<Tree>): multiset<Name>
    decreases ts, 0
  {
    if ts == [] then multiset{}
    else if parallel || Scan(plan, Flat(ts[0])) == 0 then Ran(plan, ts[0]) + RanAll(plan, parallel, ts[1..])
    else Ran(plan, ts[0])
  }

  /** The gates a state has yet to start. */
  function WillRun(plan: Plan, c: Task): multiset<Name>
    decreases c
  {
    match c
    case Todo(t) => Ran(plan, t)
    case InGate(_) => multiset{}
    case InSerial(current, rest) =>
      WillRun(plan, current) + if Outcome(plan, current) == 0 then RanAll(plan, false, rest) else multiset{}
    case InParallel(children) => WillRunAll(plan, children)
    case Done(_) => multiset{}
  }

  function WillRunAll(plan: Plan, cs: seq<Task>): multiset<Name>
    decreases cs
  {
    if cs == [] then multiset{} else WillRun(plan, cs[0]) + WillRunAll(plan, cs[1..])
  }

  /** An upper bound on the number of steps left. */
  function Work(t: Tree): nat
    decreases t, 1
  {
    match t
    case Gate(_) => 2
    case Group(_, members) => 2 + WorkAll(members)
  }

  function WorkAll(ts: seq<Tree>): nat
    decreases ts, 0
  {
    if ts == [] then 0 else 1 + Work(ts[0]) + WorkAll(ts[1..])
  }

  function Left(c: Task): nat
    decreases c
  {
    match c
    case Todo(t) => Work(t)
    case InGate(_) => 1
    case InSerial(current, rest) => 1 + Left(current) + WorkAll(rest)
    case InParallel(children) => 1 + LeftAll(children)
    case Done(_) => 0
  }

  function LeftAll(cs: seq<Task>): nat
    decreases cs
  {
    if cs == [] then 0 else Left(cs[0]) + LeftAll(cs[1..])
  }

  function Started(e: Event): multiset<Name> {
    if e.Start? then multiset{e.gate} else multiset{}
  }

  function StartedAll(events: seq<Event>): multiset<Name> {
    if events == [] then multiset{}
    else StartedAll(events[..|events| - 1]) + Started(events[|events| - 1])
  }

  lemma {:induction false} TodoAllTotals(plan: Plan, ts: seq<Tree>)
    ensures OutcomeAll(plan, TodoAll(ts)) == Scan(plan, FlatAll(ts))
    ensures WillRunAll(plan, TodoAll(ts)) == RanAll(plan, true, ts)
    ensures LeftAll(TodoAll(ts)) <= WorkAll(ts)
  {
    if ts != [] {
      assert TodoAll(ts)[1..] == TodoAll(ts[1..]);
      TodoAllTotals(plan, ts[1..]);
      ScanConcat(plan, Flat(ts[0]), FlatAll(ts[1..]));
    }
  }

  lemma {:induction false} AllDoneTotals(plan: Plan, cs: seq<Task>)
    requires AllDone(cs)
    ensures OutcomeAll(plan, cs) == FirstFailing(cs)
    ensures WillRunAll(plan, cs) == multiset{}
  {
    if cs != [] {
      AllDoneTotals(plan, cs[1..]);
    }
  }

  /** Replacing one child changes the totals by that child's share only. */
  lemma {:induction false} ReplaceChild(plan: Plan, cs: seq<Task>, i: nat, c: Task)
    requires i < |cs| && Outcome(plan, c) == Outcome(plan, cs[i])
    ensures OutcomeAll(plan, cs[i := c]) == OutcomeAll(plan, cs)
    ensures WillRunAll(plan, cs[i := c]) + WillRun(plan, cs[i]) == WillRunAll(plan, cs) + WillRun(plan, c)
    ensures LeftAll(cs[i := c]) + Left(cs[i]) == LeftAll(cs) + Left(c)
  {
    if i == 0 {
      assert cs[i := c][1..] == cs[1..];
    } else {
      assert cs[i := c][1..] == cs[1..][i - 1 := c];
      ReplaceChild(plan, cs[1..], i - 1, c);
      var first, rest, rest' := WillRun(plan, cs[0]), WillRunAll(plan, cs[1..]), WillRunAll(plan, cs[1..][i - 1 := c]);
      assert first + rest' + WillRun(plan, cs[i]) == first + (rest' + WillRun(plan, cs[i]));
      assert first + rest + WillRun(plan, c) == first + (rest + WillRun(plan, c));
    }
  }

  /** Every step keeps the outcome, uses up work, and accounts exactly for the gate it starts. */
  lemma {:induction false} StepAccounts(plan: Plan, c: Task, e: Event, c': Task)
    requires Step(plan, c, e, c')
    ensures Outcome(plan, c') == Outcome(plan, c)
    ensures Left(c') < Left(c)
    ensures WillRun(plan, c) == Started(e) + WillRun(plan, c')
    decreases c
  {
    match c
    case Todo(Gate(g)) =>
      assert Scan(plan, [g][1..]) == 0;
    case Todo(Group(parallel, members)) =>
      TodoAllTotals(plan, members);
    case InGate(g) =>
    case InSerial(current, rest) =>
      if current.Done? {
        SerialStepAccounts(plan, current, rest);
      } else {
        StepAccounts(plan, current, e, c'.current);
        assert c' == InSerial(c'.current, rest);
      }
    case InParallel(children) =>
      if AllDone(children) {
        AllDoneTotals(plan, children);
      } else {
        var i :| 0 <= i < |children| && ChildSteps(plan, children, i, e, c'.children);
        StepAccounts(plan, children[i], e, c'.children[i]);
        GroupStepAccounts(plan, children, i, Started(e), c'.children[i]);
        assert c' == InParallel(children[i := c'.children[i]]);
      }
  }

  lemma GroupStepAccounts(plan: Plan, cs: seq<Task>, i: nat, started: multiset<Name>, c: Task)
    requires i < |cs| && Outcome(plan, c) == Outcome(plan, cs[i]) && Left(c) < Left(cs[i])
    requires WillRun(plan, cs[i]) == started + WillRun(plan, c)
    ensures Outcome(plan, InParallel(cs[i := c])) == Outcome(plan, InParallel(cs))
    ensures Left(InParallel(cs[i := c])) < Left(InParallel(cs))
    ensures WillRun(plan, InParallel(cs)) == started + WillRun(plan, InParallel(cs[i := c]))
  {
    ChildStepAccounts(plan, cs, i, started, c);
  }

  lemma {:induction false} SerialStepAccounts(plan: Plan, current: Task, rest: seq<Tree>)
    requires current.Done?
    ensures current.code == 0 && rest != [] ==>
      && Outcome(plan, InSerial(current, rest)) == Outcome(plan, InSerial(Todo(rest[0]), rest[1..]))
      && WillRun(plan, InSerial(current, rest)) == WillRun(plan, InSerial(Todo(rest[0]), rest[1..]))
  {
    if rest != [] { ScanConcat(plan, Flat(rest[0]), FlatAll(rest[1..])); }
  }

  lemma {:induction false} ChildStepAccounts(plan: Plan, cs: seq<Task>, i: nat, started: multiset<Name>, c: Task)
    requires i < |cs| && Outcome(plan, c) == Outcome(plan, cs[i]) && Left(c) < Left(cs[i])
    requires WillRun(plan, cs[i]) == started + WillRun(plan, c)
    ensures OutcomeAll(plan, cs[i := c]) == OutcomeAll(plan, cs)
    ensures LeftAll(cs[i := c]) < LeftAll(cs)
    ensures WillRunAll(plan, cs) == started + WillRunAll(plan, cs[i := c])
  {
    ReplaceChild(plan, cs, i, c);
    var before, after, w := WillRunAll(plan, cs), WillRunAll(plan, cs[i := c]), WillRun(plan, c);
    assert before + w == started + after + w;
    assert before == before + w - w && started + after == started + after + w - w;
  }

  /** No state but a returned one is stuck. */
  lemma {:induction false} Progress(plan: Plan, c: Task) returns (e: Event, c': Task)
    requires !c.Done?
    ensures Step(plan, c, e, c')
    decreases c
  {
    match c
    case Todo(Gate(g)) =>
      if plan.selected(g) { e, c' := Start(g), InGate(g); } else { e, c' := Silent, Done(0); }
    case Todo(Group(parallel, members)) =>
      e, c' := Silent, if parallel then InParallel(TodoAll(members)) else InSerial(Done(0), members);
    case InGate(g) =>
      e, c' := Finish(g, plan.exitCode(g)), Done(plan.exitCode(g));
    case InSerial(current, rest) =>
      if current.Done? {
        e, c' := Silent,
          if current.code != 0 then current else if rest == [] then Done(0) else InSerial(Todo(rest[0]), rest[1..]);
      } else {
        var d;
        e, d := Progress(plan, current);
        c' := InSerial(d, rest);
      }
    case InParallel(children) =>
      if AllDone(children) {
        e, c' := Silent, Done(FirstFailing(children));
      } else {
        var i :| 0 <= i < |children| && !children[i].Done?;
        var d;
        e, d := Progress(plan, children[i]);
        c' := InParallel(children[i := d]);
        assert ChildSteps(plan, children, i, e, c'.children);
      }
  }

  // ----- Which gates ran -----

  function SelectedGates(plan: Plan, gates: seq<Name>): seq<Name> {
    if gates == [] then []
    else (if plan.selected(gates[0]) then [gates[0]] else []) + SelectedGates(plan, gates[1..])
  }

  lemma {:induction false} SelectedConcat(plan: Plan, a: seq<Name>, b: seq<Name>)
    ensures SelectedGates(plan, a + b) == SelectedGates(plan, a) + SelectedGates(plan, b)
  {
    if a == [] {
      assert a + b == b;
    } else {
      assert (a + b)[1..] == a[1..] + b;
      SelectedConcat(plan, a[1..], b);
    }
  }

  /** Only selected gates run, each at most once; on success all of them do. */
  lemma {:induction false} RanWithinSelected(plan: Plan, t: Tree)
    ensures Ran(plan, t) <= multiset(SelectedGates(plan, Flat(t)))
    ensures Scan(plan, Flat(t)) == 0 ==> Ran(plan, t) == multiset(SelectedGates(plan, Flat(t)))
    decreases t, 1
  {
    match t
    case Gate(g) => assert SelectedGates(plan, [g][1..]) == [];
    case Group(parallel, members) => RanAllWithinSelected(plan, parallel, members);
  }

  lemma {:induction false} RanAllWithinSelected(plan: Plan, parallel: bool, ts: seq<Tree>)
    ensures RanAll(plan, parallel, ts) <= multiset(SelectedGates(plan, FlatAll(ts)))
    ensures Scan(plan, FlatAll(ts)) == 0 ==> RanAll(plan, parallel, ts) == multiset(SelectedGates(plan, FlatAll(ts)))
    decreases ts, 0
  {
    if ts != [] {
      RanWithinSelected(plan, ts[0]);
      RanAllWithinSelected(plan, parallel, ts[1..]);
      ScanConcat(plan, Flat(ts[0]), FlatAll(ts[1..]));
      SelectedConcat(plan, Flat(ts[0]), FlatAll(ts[1..]));
    }
  }

  /** A failure hides nothing listed before it: all selected gates up to and including the first failing one run. */
  lemma {:induction false} RunsThroughFirstFailure(plan: Plan, t: Tree, k: nat)
    requires k < |Flat(t)| && Scan(plan, Flat(t)[..k]) == 0
    ensures multiset(SelectedGates(plan, Flat(t)[..k + 1])) <= Ran(plan, t)
    decreases t, 1
  {
    match t
    case Gate(g) => assert [g][..1] == [g] && SelectedGates(plan, [g][1..]) == [];
    case Group(parallel, members) => AllRunThroughFirstFailure(plan, parallel, members, k);
  }

  lemma {:induction false} AllRunThroughFirstFailure(plan: Plan, parallel: bool, ts: seq<Tree>, k: nat)
    requires k < |FlatAll(ts)| && Scan(plan, FlatAll(ts)[..k]) == 0
    ensures multiset(SelectedGates(plan, FlatAll(ts)[..k + 1])) <= RanAll(plan, parallel, ts)
    decreases ts, 0
  {
    var first, rest := Flat(ts[0]), FlatAll(ts[1..]);
    assert FlatAll(ts) == first + rest;
    if k < |first| {
      assert (first + rest)[..k] == first[..k] && (first + rest)[..k + 1] == first[..k + 1];
      RunsThroughFirstFailure(plan, ts[0], k);
    } else {
      PrefixBeyond(plan, first, rest, k);
      RanWithinSelected(plan, ts[0]);
      AllRunThroughFirstFailure(plan, parallel, ts[1..], k - |first|);
    }
  }

  lemma {:induction false} PrefixBeyond(plan: Plan, first: seq<Name>, rest: seq<Name>, k: nat)
    requires |first| <= k < |first| + |rest| && Scan(plan, (first + rest)[..k]) == 0
    ensures Scan(plan, first) == 0 && Scan(plan, rest[..k - |first|]) == 0
    ensures multiset(SelectedGates(plan, (first + rest)[..k + 1]))
         == multiset(SelectedGates(plan, first)) + multiset(SelectedGates(plan, rest[..k - |first| + 1]))
  {
    var n := |first|;
    assert (first + rest)[..k] == first + rest[..k - n];
    assert (first + rest)[..k + 1] == first + rest[..k - n + 1];
    ScanConcat(plan, first, rest[..k - n]);
    SelectedConcat(plan, first, rest[..k - n + 1]);
  }

  // ----- Where a run stands in its tree -----

  /** Every selected gate of the list has exited 0. */
  ghost predicate Passed(plan: Plan, gates: seq<Name>, exitedZero: set<Name>) {
    forall g :: g in gates && plan.selected(g) ==> g in exitedZero
  }

  /** State `c` is a state of tree `t`, given the gates that have exited 0 so far. */
  ghost predicate Tracks(plan: Plan, c: Task, t: Tree, exitedZero: set<Name>)
    decreases c
  {
    match c
    case Todo(u) => u == t
    case InGate(g) => t == Gate(g)
    case Done(code) => code == 0 ==> Passed(plan, Flat(t), exitedZero)
    case InSerial(current, rest) =>
      && t.Group? && !t.parallel && |rest| <= |t.members|
      && var k := |t.members| - |rest|;
      && rest == t.members[k..]
      && if k == 0 then current == Done(0)
         else Tracks(plan, current, t.members[k - 1], exitedZero)
              && Passed(plan, FlatAll(t.members[..k - 1]), exitedZero)
    case InParallel(children) =>
      && t.Group? && t.parallel && |children| == |t.members|
      && forall i :: 0 <= i < |children| ==> Tracks(plan, children[i], t.members[i], exitedZero)
  }

  function ExitsZero(e: Event): set<Name> {
    if e.Finish? && e.code == 0 then {e.gate} else {}
  }

  ghost function ExitedZero(events: seq<Event>): set<Name> {
    set e | e in events && e.Finish? && e.code == 0 :: e.gate
  }

  lemma {:induction false} FlatAllConcat(a: seq<Tree>, b: seq<Tree>)
    ensures FlatAll(a + b) == FlatAll(a) + FlatAll(b)
  {
    if a == [] {
      assert a + b == b;
    } else {
      assert (a + b)[1..] == a[1..] + b;
      FlatAllConcat(a[1..], b);
    }
  }

  lemma {:induction false} FlatAllMember(ts: seq<Tree>, i: nat)
    requires i < |ts|
    ensures forall g :: g in Flat(ts[i]) ==> g in FlatAll(ts)
  {
    if i > 0 { FlatAllMember(ts[1..], i - 1); }
  }

  lemma {:induction false} PassedMembers(plan: Plan, ts: seq<Tree>, exitedZero: set<Name>)
    requires forall i :: 0 <= i < |ts| ==> Passed(plan, Flat(ts[i]), exitedZero)
    ensures Passed(plan, FlatAll(ts), exitedZero)
  {
    if ts != [] {
      PassedMembers(plan, ts[1..], exitedZero);
    }
  }

  lemma {:induction false} TracksMore(plan: Plan, c: Task, t: Tree, fewer: set<Name>, more: set<Name>)
    requires Tracks(plan, c, t, fewer) && fewer <= more
    ensures Tracks(plan, c, t, more)
    decreases c
  {
    match c
    case InSerial(current, rest) =>
      var k := |t.members| - |rest|;
      if k > 0 { TracksMore(plan, current, t.members[k - 1], fewer, more); }
    case InParallel(children) =>
      forall i | 0 <= i < |children| ensures Tracks(plan, children[i], t.members[i], more) {
        TracksMore(plan, children[i], t.members[i], fewer, more);
      }
    case _ =>
  }

  lemma {:induction false} ZeroCodes(cs: seq<Task>)
    requires AllDone(cs) && FirstFailing(cs) == 0
    ensures forall i :: 0 <= i < |cs| ==> cs[i].code == 0
  {
    if cs != [] {
      ZeroCodes(cs[1..]);
      assert forall i :: 0 < i < |cs| ==> cs[i] == cs[1..][i - 1];
    }
  }

  lemma {:induction false} SerialAdvances(plan: Plan, current: Task, t: Tree, k: nat, exitedZero: set<Name>)
    requires t.Group? && !t.parallel && k <= |t.members|
    requires current == Done(0)
    requires Tracks(plan, InSerial(current, t.members[k..]), t, exitedZero)
    ensures Passed(plan, FlatAll(t.members[..k]), exitedZero)
  {
    if k > 0 {
      assert |t.members| - |t.members[k..]| == k;
      assert t.members[..k] == t.members[..k - 1] + [t.members[k - 1]];
      FlatAllConcat(t.members[..k - 1], [t.members[k - 1]]);
      assert FlatAll([t.members[k - 1]]) == Flat(t.members[k - 1]);
    }
  }

  lemma {:induction false} TracksStep(plan: Plan, c: Task, e: Event, c': Task, t: Tree, exitedZero: set<Name>)
    requires Step(plan, c, e, c') && Tracks(plan, c, t, exitedZero)
    ensures Tracks(plan, c', t, exitedZero + ExitsZero(e))
    decreases c
  {
    var after := exitedZero + ExitsZero(e);
    match c
    case Todo(Gate(g)) =>
    case Todo(Group(parallel, members)) =>
    case InGate(g) =>
    case InSerial(current, rest) =>
      if current.Done? {
        SerialTracks(plan, current, rest, t, exitedZero);
      } else {
        var k := |t.members| - |rest|;
        TracksStep(plan, current, e, c'.current, t.members[k - 1], exitedZero);
      }
    case InParallel(children) =>
      if AllDone(children) {
        GroupPassed(plan, children, t.members, exitedZero);
      } else {
        var i :| 0 <= i < |children| && ChildSteps(plan, children, i, e, c'.children);
        TracksStep(plan, children[i], e, c'.children[i], t.members[i], exitedZero);
        GroupTracks(plan, children, i, c'.children, t, exitedZero, after);
      }
  }

  /** A parallel group keeps its place when one of its members takes a step. */
  lemma GroupTracks(plan: Plan, cs: seq<Task>, i: nat, cs': seq<Task>, t: Tree, fewer: set<Name>, more: set<Name>)
    requires Tracks(plan, InParallel(cs), t, fewer) && fewer <= more && i < |cs| == |cs'|
    requires cs' == cs[i := cs'[i]] && Tracks(plan, cs'[i], t.members[i], more)
    ensures Tracks(plan, InParallel(cs'), t, more)
  {
    OthersTrack(plan, cs, t.members, fewer, more);
  }

  lemma OthersTrack(plan: Plan, cs: seq<Task>, ts: seq<Tree>, fewer: set<Name>, more: set<Name>)
    requires |cs| == |ts| && fewer <= more
    requires forall i :: 0 <= i < |cs| ==> Tracks(plan, cs[i], ts[i], fewer)
    ensures forall i :: 0 <= i < |cs| ==> Tracks(plan, cs[i], ts[i], more)
  {
    forall i | 0 <= i < |cs| ensures Tracks(plan, cs[i], ts[i], more) {
      TracksMore(plan, cs[i], ts[i], fewer, more);
    }
  }

  /** Between two members of a serial group: stop at a failure, return at the end, or go on. */
  lemma SerialTracks(plan: Plan, current: Task, rest: seq<Tree>, t: Tree, exitedZero: set<Name>)
    requires current.Done? && Tracks(plan, InSerial(current, rest), t, exitedZero)
    ensures current.code != 0 ==> Tracks(plan, current, t, exitedZero)
    ensures current.code == 0 && rest == [] ==> Tracks(plan, Done(0), t, exitedZero)
    ensures current.code == 0 && rest != [] ==> Tracks(plan, InSerial(Todo(rest[0]), rest[1..]), t, exitedZero)
  {
    var k := |t.members| - |rest|;
    if current.code == 0 {
      SerialAdvances(plan, current, t, k, exitedZero);
      if rest == [] {
        assert t.members[..k] == t.members;
      } else {
        assert rest[1..] == t.members[k + 1..] && |t.members| - |rest[1..]| == k + 1;
      }
    }
  }

  lemma GroupPassed(plan: Plan, cs: seq<Task>, ts: seq<Tree>, exitedZero: set<Name>)
    requires AllDone(cs) && |cs| == |ts|
    requires forall i :: 0 <= i < |cs| ==> Tracks(plan, cs[i], ts[i], exitedZero)
    ensures FirstFailing(cs) == 0 ==> Passed(plan, FlatAll(ts), exitedZero)
  {
    if FirstFailing(cs) == 0 {
      ZeroCodes(cs);
      forall i | 0 <= i < |ts| ensures Passed(plan, Flat(ts[i]), exitedZero) {
        assert Tracks(plan, cs[i], ts[i], exitedZero);
      }
      PassedMembers(plan, ts, exitedZero);
    }
  }

  // ----- Exclusivity -----

  /** The gates whose processes are running. */
  function Running(c: Task): multiset<Name>
    decreases c
  {
    match c
    case InGate(g) => multiset{g}
    case InSerial(current, _) => Running(current)
    case InParallel(children) => RunningAll(children)
    case _ => multiset{}
  }

  function RunningAll(cs: seq<Task>): multiset<Name>
    decreases cs
  {
    if cs == [] then multiset{} else Running(cs[0]) + RunningAll(cs[1..])
  }

  /** No parallel group holds an exclusive gate. */
  ghost predicate Separated(t: Tree)
    decreases t
  {
    t.Group? ==>
      && (t.parallel ==> forall g :: g in FlatAll(t.members) ==> g !in EXCLUSIVE)
      && forall i :: 0 <= i < |t.members| ==> Separated(t.members[i])
  }

  lemma {:induction false} RunningChild(cs: seq<Task>, g: Name) returns (i: nat)
    requires g in RunningAll(cs)
    ensures i < |cs| && g in Running(cs[i])
  {
    if g in Running(cs[0]) {
      i := 0;
    } else {
      i := RunningChild(cs[1..], g);
      i := i + 1;
    }
  }

  lemma {:induction false} RunningIsListed(plan: Plan, c: Task, t: Tree, exitedZero: set<Name>, g: Name)
    requires Tracks(plan, c, t, exitedZero) && g in Running(c)
    ensures g in Flat(t)
    decreases c
  {
    match c
    case InGate(_) =>
    case InSerial(current, rest) =>
      var k := |t.members| - |rest|;
      RunningIsListed(plan, current, t.members[k - 1], exitedZero, g);
      FlatAllMember(t.members, k - 1);
    case InParallel(children) =>
      var i := RunningChild(children, g);
      RunningIsListed(plan, children[i], t.members[i], exitedZero, g);
      FlatAllMember(t.members, i);
  }

  /** The list of a group around a gate of member `k - 1`. */
  lemma FlatAround(ts: seq<Tree>, k: nat, a: seq<Name>, g: Name, b: seq<Name>)
    requires 1 <= k <= |ts| && Flat(ts[k - 1]) == a + [g] + b
    ensures FlatAll(ts) == (FlatAll(ts[..k - 1]) + a) + [g] + (b + FlatAll(ts[k..]))
  {
    var tail := [ts[k - 1]] + ts[k..];
    assert ts == ts[..k - 1] + tail && tail[1..] == ts[k..];
    FlatAllConcat(ts[..k - 1], tail);
    Around(FlatAll(ts[..k - 1]), a, [g], b, FlatAll(ts[k..]));
  }

  lemma Around(x: seq<Name>, a: seq<Name>, m: seq<Name>, b: seq<Name>, y: seq<Name>)
    ensures x + ((a + m + b) + y) == (x + a) + m + (b + y)
  {
  }

  /** A running exclusive gate runs alone, and all selected gates before it in the list have exited 0. */
  lemma {:induction false} ExclusiveRunsAlone(plan: Plan, c: Task, t: Tree, exitedZero: set<Name>, g: Name)
    returns (before: seq<Name>, after: seq<Name>)
    requires Tracks(plan, c, t, exitedZero) && Separated(t)
    requires g in EXCLUSIVE && g in Running(c)
    ensures Running(c) == multiset{g}
    ensures Flat(t) == before + [g] + after && Passed(plan, before, exitedZero)
    decreases c
  {
    match c
    case InGate(_) =>
      before, after := [], [];
    case InSerial(current, rest) =>
      var k := |t.members| - |rest|;
      var a, b := ExclusiveRunsAlone(plan, current, t.members[k - 1], exitedZero, g);
      before, after := FlatAll(t.members[..k - 1]) + a, b + FlatAll(rest);
      FlatAround(t.members, k, a, g, b);
    case InParallel(children) =>
      RunningIsListed(plan, c, t, exitedZero, g);
      assert false;
  }

  lemma {:induction false} AcceptedIsSeparated(table: Table, name: Name, visiting: set<Name>)
    requires Leaves(table, name, visiting, false).Success?
    requires forall group :: group in table ==> GroupIsSafe(table, group)
    ensures Separated(Unfold(table, name, visiting))
    decreases table.Keys - visiting, 0
  {
    if !table[name].hasBody {
      AcceptedAllSeparated(table, table[name].dependencies, visiting + {name});
      assert Unfold(table, name, visiting).members == UnfoldAll(table, table[name].dependencies, visiting + {name});
      if table[name].parallel {
        UnfoldIsFlat(table, name, visiting);
        forall g | g in Leaves(table, name, visiting, false).value ensures g !in EXCLUSIVE {
          SafeGroupLists(table, name, visiting, g);
        }
      }
    }
  }

  lemma SafeGroupLists(table: Table, group: Name, visiting: set<Name>, g: Name)
    requires Leaves(table, group, visiting, false).Success? && g in Leaves(table, group, visiting, false).value
    requires table[group].parallel && GroupIsSafe(table, group)
    ensures g !in EXCLUSIVE
  {
    var p := ListedHasPath(table, group, visiting, false, g);
    assert Chain(table, p);
  }

  lemma {:induction false} AcceptedAllSeparated(table: Table, dependencies: seq<Dependency>, visiting: set<Name>)
    requires LeavesOfAll(table, dependencies, visiting, false).Success?
    requires forall group :: group in table ==> GroupIsSafe(table, group)
    ensures forall t :: t in UnfoldAll(table, dependencies, visiting) ==> Separated(t)
    decreases table.Keys - visiting, 1 + |dependencies|
  {
    if dependencies != [] {
      AcceptedIsSeparated(table, dependencies[0].recipe, visiting);
      AcceptedAllSeparated(table, dependencies[1..], visiting);
    }
  }

  // ----- Whole runs -----

  /** What holds of a state reached from `Todo(t)` with the given events. */
  ghost predicate Invariant(plan: Plan, t: Tree, c: Task, events: seq<Event>) {
    && Outcome(plan, c) == Scan(plan, Flat(t))
    && |events| + Left(c) <= Work(t)
    && Ran(plan, t) == StartedAll(events) + WillRun(plan, c)
    && Tracks(plan, c, t, ExitedZero(events))
  }

  lemma EventsAppend(events: seq<Event>, e: Event)
    ensures ExitedZero(events + [e]) == ExitedZero(events) + ExitsZero(e)
    ensures StartedAll(events + [e]) == StartedAll(events) + Started(e)
  {
    assert (events + [e])[..|events|] == events;
  }

  lemma {:induction false} InvariantStep(plan: Plan, t: Tree, c: Task, events: seq<Event>, e: Event, c': Task)
    requires Invariant(plan, t, c, events) && Step(plan, c, e, c')
    ensures Invariant(plan, t, c', events + [e])
  {
    TracksStep(plan, c, e, c', t, ExitedZero(events));
    StepAccounts(plan, c, e, c');
    InvariantAfter(plan, t, c, events, e, c');
  }

  lemma InvariantAfter(plan: Plan, t: Tree, c: Task, events: seq<Event>, e: Event, c': Task)
    requires Invariant(plan, t, c, events)
    requires Outcome(plan, c') == Outcome(plan, c) && Left(c') < Left(c)
    requires WillRun(plan, c) == Started(e) + WillRun(plan, c')
    requires Tracks(plan, c', t, ExitedZero(events) + ExitsZero(e))
    ensures Invariant(plan, t, c', events + [e])
  {
    EventsAppend(events, e);
    StartMoves(Ran(plan, t), StartedAll(events), WillRun(plan, c), Started(e), WillRun(plan, c'));
  }

  /** A gate that starts moves from what will run to what has started. */
  lemma StartMoves(ran: multiset<Name>, started: multiset<Name>, before: multiset<Name>, now: multiset<Name>,
                   after: multiset<Name>)
    requires ran == started + before && before == now + after
    ensures ran == (started + now) + after
  {
  }

  lemma {:induction false} RunInvariant(plan: Plan, t: Tree, states: seq<Task>, events: seq<Event>)
    requires Run(plan, t, states, events)
    ensures Invariant(plan, t, states[|events|], events)
    decreases |events|
  {
    if events != [] {
      var n := |events| - 1;
      RunInvariant(plan, t, states[..n + 1], events[..n]);
      assert Step(plan, states[n], events[n], states[n + 1]);
      InvariantStep(plan, t, states[n], events[..n], events[n], states[n + 1]);
      assert events == events[..n] + [events[n]];
    }
  }

  /**
   * Whatever the schedule: a run is no longer than `Work(t)`, is never stuck, returns what the flat
   * scan of the gate list returns, and starts the same gates; on 0 each selected gate exactly once.
   */
  lemma EverySchedule(plan: Plan, t: Tree, states: seq<Task>, events: seq<Event>)
    requires Run(plan, t, states, events)
    ensures |events| <= Work(t)
    ensures !states[|events|].Done? ==> exists e, c' :: Step(plan, states[|events|], e, c')
    ensures states[|events|].Done? ==>
      && states[|events|].code == Scan(plan, Flat(t))
      && StartedAll(events) == Ran(plan, t)
      && (states[|events|].code == 0 ==> StartedAll(events) == multiset(SelectedGates(plan, Flat(t))))
    ensures StartedAll(events) <= multiset(SelectedGates(plan, Flat(t)))
  {
    RunInvariant(plan, t, states, events);
    RanWithinSelected(plan, t);
    if !states[|events|].Done? {
      var e, c' := Progress(plan, states[|events|]);
    }
  }

  /** The call tree of an inventory. */
  function TreeOf(table: Table, name: Name): Tree {
    if Leaves(table, name, {}, false).Success? then Unfold(table, name, {}) else Group(false, [])
  }

  lemma TreeLists(table: Table, name: Name)
    requires Accepted(table, name)
    ensures Leaves(table, name, {}, false) == Success(Gates(table, name))
    ensures Flat(TreeOf(table, name)) == Gates(table, name)
  {
    AcceptedExpands(table, name);
    UnfoldIsFlat(table, name, {});
  }

  /** `execute`: the same over the recipe table, against the list that validation returned. */
  lemma ExecuteReturnsFlatScan(table: Table, name: Name, plan: Plan, states: seq<Task>, events: seq<Event>)
    requires Accepted(table, name)
    requires Run(plan, TreeOf(table, name), states, events)
    ensures var gates := Gates(table, name);
      && StartedAll(events) <= multiset(SelectedGates(plan, gates))
      && (states[|events|].Done? ==>
            && states[|events|].code == Scan(plan, gates)
            && (states[|events|].code == 0 ==> StartedAll(events) == multiset(SelectedGates(plan, gates))))
  {
    TreeLists(table, name);
    EverySchedule(plan, TreeOf(table, name), states, events);
  }

  lemma {:induction false} SplitIsUnique(gates: seq<Name>, g: Name, a: seq<Name>, b: seq<Name>, i: nat)
    requires Distinct(gates) && gates == a + [g] + b
    requires i < |gates| && gates[i] == g
    ensures gates[..i] == a
  {
    assert gates[|a|] == g;
  }

  /**
   * In every interleaving of an accepted inventory, while a Rust gate or `typescript` runs no other
   * gate is running, and every selected gate listed before it has already exited 0.
   */
  lemma ExclusiveGates(table: Table, name: Name, plan: Plan, states: seq<Task>, events: seq<Event>, k: nat, i: nat)
    requires Accepted(table, name)
    requires Run(plan, TreeOf(table, name), states, events)
    requires k < |states|
    requires var gates := Gates(table, name);
      i < |gates| && gates[i] in EXCLUSIVE && gates[i] in Running(states[k])
    ensures var gates := Gates(table, name);
      && Running(states[k]) == multiset{gates[i]}
      && forall j :: 0 <= j < i && plan.selected(gates[j]) ==> Finish(gates[j], 0) in events[..k]
  {
    var gates := Gates(table, name);
    var t := TreeOf(table, name);
    TreeLists(table, name);
    AcceptedIsSeparated(table, name, {});
    RunInvariant(plan, t, states[..k + 1], events[..k]);
    var before, after := ExclusiveRunsAlone(plan, states[k], t, ExitedZero(events[..k]), gates[i]);
    SplitIsUnique(gates, gates[i], before, after, i);
    forall j | 0 <= j < i && plan.selected(gates[j]) ensures Finish(gates[j], 0) in events[..k] {
      assert gates[j] == before[j] && before[j] in before;
    }
  }
}
