/** What a run of an inventory does, said of its events, the gate list and the exit codes alone. */
module Execution {
  import opened Common
  import opened Recipes
  import opened Inventory
  import opened Scheduler

  // ----- What is returned -----

  /** Selected gate `k` fails with `code`, and every selected gate before it exits 0. */
  ghost predicate FailsFirst(plan: Plan, gates: seq<Name>, k: int, code: int) {
    && 0 <= k < |gates| && plan.selected(gates[k]) && plan.exitCode(gates[k]) == code != 0
    && forall i :: 0 <= i < k && plan.selected(gates[i]) ==> plan.exitCode(gates[i]) == 0
  }

  ghost predicate AllPass(plan: Plan, gates: seq<Name>) {
    forall i :: 0 <= i < |gates| && plan.selected(gates[i]) ==> plan.exitCode(gates[i]) == 0
  }

  /** `code` is that of the first selected gate that fails, or 0 when none does. */
  ghost predicate FirstFailure(plan: Plan, gates: seq<Name>, code: int) {
    if code == 0 then AllPass(plan, gates) else exists k :: FailsFirst(plan, gates, k, code)
  }

  lemma {:induction false} ScanIsFirstFailure(plan: Plan, gates: seq<Name>)
    ensures FirstFailure(plan, gates, Scan(plan, gates))
  {
    if gates != [] {
      var code := Scan(plan, gates);
      if plan.selected(gates[0]) && plan.exitCode(gates[0]) != 0 {
        assert FailsFirst(plan, gates, 0, code);
      } else {
        ScanIsFirstFailure(plan, gates[1..]);
        if code != 0 {
          var k :| FailsFirst(plan, gates[1..], k, code);
          assert forall i :: 1 <= i < |gates| ==> gates[i] == gates[1..][i - 1];
          assert FailsFirst(plan, gates, k + 1, code);
        } else {
          assert forall i :: 1 <= i < |gates| ==> gates[i] == gates[1..][i - 1];
        }
      }
    }
  }

  /** Every run that returns gives the exit code of the first failing selected gate of the inventory, or 0. */
  lemma ExecuteReturnsFirstFailure(table: Table, name: Name, plan: Plan, states: seq<Task>, events: seq<Event>)
    requires Accepted(table, name) && Run(plan, TreeOf(table, name), states, events) && states[|events|].Done?
    ensures FirstFailure(plan, Gates(table, name), states[|events|].code)
  {
    ExecuteReturnsFlatScan(table, name, plan, states, events);
    ScanIsFirstFailure(plan, Gates(table, name));
  }

  // ----- Which gates start -----

  /** `h` stands before `g` in a serial group, directly or inside its members. */
  ghost predicate SerialBefore(t: Tree, h: Name, g: Name)
    decreases t
  {
    t.Group? && ((!t.parallel && exists a, b :: InOrder(t.members, a, b, h, g))
                 || exists m :: 0 <= m < |t.members| && SerialBefore(t.members[m], h, g))
  }

  ghost predicate InOrder(ts: seq<Tree>, a: int, b: int, h: Name, g: Name) {
    0 <= a < b < |ts| && h in Flat(ts[a]) && g in Flat(ts[b])
  }

  /** Some selected gate before `g` in a serial group fails. */
  ghost predicate Blocked(plan: Plan, t: Tree, g: Name) {
    exists h :: SerialBefore(t, h, g) && plan.selected(h) && plan.exitCode(h) != 0
  }

  lemma ScanIsZero(plan: Plan, gates: seq<Name>)
    ensures Scan(plan, gates) == 0 <==> AllPass(plan, gates)
  {
    ScanIsFirstFailure(plan, gates);
  }

  /** `g` starts in member `b`: the members before it pass, or the group is parallel. */
  ghost predicate StartsIn(plan: Plan, parallel: bool, ts: seq<Tree>, b: int, g: Name) {
    && 0 <= b < |ts| && g in Ran(plan, ts[b])
    && (parallel || forall a :: 0 <= a < b ==> AllPass(plan, Flat(ts[a])))
  }

  lemma {:induction false} RanAllMember(plan: Plan, parallel: bool, ts: seq<Tree>, g: Name)
    ensures g in RanAll(plan, parallel, ts) <==> exists b :: StartsIn(plan, parallel, ts, b, g)
    decreases |ts|
  {
    if ts != [] {
      ScanIsZero(plan, Flat(ts[0]));
      RanAllMember(plan, parallel, ts[1..], g);
      if g in Ran(plan, ts[0]) { assert StartsIn(plan, parallel, ts, 0, g); }
      if (parallel || AllPass(plan, Flat(ts[0]))) && exists b :: StartsIn(plan, parallel, ts[1..], b, g) {
        var b :| StartsIn(plan, parallel, ts[1..], b, g);
        StartsLater(plan, parallel, ts, b, g);
      }
      if exists b :: StartsIn(plan, parallel, ts, b, g) && b > 0 {
        var b :| StartsIn(plan, parallel, ts, b, g) && b > 0;
        StartsEarlier(plan, parallel, ts, b, g);
      }
    }
  }

  lemma StartsLater(plan: Plan, parallel: bool, ts: seq<Tree>, b: int, g: Name)
    requires ts != [] && StartsIn(plan, parallel, ts[1..], b, g) && (parallel || AllPass(plan, Flat(ts[0])))
    ensures StartsIn(plan, parallel, ts, b + 1, g)
  {
    assert forall a :: 1 <= a < |ts| ==> ts[a] == ts[1..][a - 1];
  }

  lemma StartsEarlier(plan: Plan, parallel: bool, ts: seq<Tree>, b: int, g: Name)
    requires b > 0 && StartsIn(plan, parallel, ts, b, g)
    ensures StartsIn(plan, parallel, ts[1..], b - 1, g) && (parallel || AllPass(plan, Flat(ts[0])))
  {
    assert forall a :: 0 <= a < |ts| - 1 ==> ts[1..][a] == ts[a + 1];
  }

  /** No gate is listed by two members of a group, nor twice by one. */
  ghost predicate OnceEach(ts: seq<Tree>) {
    && (forall b :: 0 <= b < |ts| ==> Distinct(Flat(ts[b])))
    && forall a, b, g :: 0 <= a < b < |ts| && g in Flat(ts[a]) ==> g !in Flat(ts[b])
  }

  lemma {:induction false} DistinctMembers(ts: seq<Tree>)
    requires Distinct(FlatAll(ts))
    ensures OnceEach(ts)
    decreases |ts|
  {
    if ts != [] {
      var first, rest := Flat(ts[0]), FlatAll(ts[1..]);
      DistinctParts(first, rest);
      DistinctMembers(ts[1..]);
      assert forall b :: 1 <= b < |ts| ==> ts[b] == ts[1..][b - 1];
      forall b, g | 1 <= b < |ts| && g in Flat(ts[b]) ensures g in rest { FlatAllMember(ts[1..], b - 1); }
    }
  }

  lemma DistinctParts(a: seq<Name>, b: seq<Name>)
    requires Distinct(a + b)
    ensures Distinct(a) && Distinct(b) && forall g :: g in a ==> g !in b
  {
    var s := a + b;
    assert forall i :: 0 <= i < |a| ==> s[i] == a[i];
    assert forall i :: 0 <= i < |b| ==> s[|a| + i] == b[i];
  }

  /** Whatever the schedule, the gates that start are the selected ones that no earlier failure blocks. */
  lemma {:induction false} RanExactly(plan: Plan, t: Tree, g: Name)
    requires Distinct(Flat(t))
    ensures g in Ran(plan, t) <==> g in Flat(t) && plan.selected(g) && !Blocked(plan, t, g)
    decreases t
  {
    match t
    case Gate(_) =>
    case Group(parallel, members) =>
      DistinctMembers(members);
      RanAllMember(plan, parallel, members, g);
      forall b | 0 <= b < |members| ensures g in Ran(plan, members[b]) ==> g in Flat(members[b]) {
        RanExactly(plan, members[b], g);
      }
      forall b | 0 <= b < |members| && g in Flat(members[b])
        ensures g in Ran(plan, t) <==> plan.selected(g) && !Blocked(plan, t, g)
      {
        RanExactly(plan, members[b], g);
        RanInMember(plan, t, b, g);
      }
      if g in FlatAll(members) { var b := MemberOf(members, g); }
      forall b | StartsIn(plan, parallel, members, b, g) ensures g in FlatAll(members) {
        RanExactly(plan, members[b], g);
        FlatAllMember(members, b);
      }
  }

  lemma {:induction false} MemberOf(ts: seq<Tree>, g: Name) returns (b: nat)
    requires g in FlatAll(ts)
    ensures b < |ts| && g in Flat(ts[b])
    decreases |ts|
  {
    if g in Flat(ts[0]) {
      b := 0;
    } else {
      b := MemberOf(ts[1..], g);
      b := b + 1;
    }
  }

  lemma {:induction false} SerialListed(t: Tree, h: Name, g: Name)
    requires SerialBefore(t, h, g)
    ensures h in Flat(t) && g in Flat(t)
    decreases t
  {
    if !t.parallel && exists a, b :: InOrder(t.members, a, b, h, g) {
      var a, b :| InOrder(t.members, a, b, h, g);
      FlatAllMember(t.members, a);
      FlatAllMember(t.members, b);
    } else {
      var m :| 0 <= m < |t.members| && SerialBefore(t.members[m], h, g);
      SerialListed(t.members[m], h, g);
      FlatAllMember(t.members, m);
    }
  }

  /** What stands before a gate of a group does so in the gate's member, or in an earlier member of a serial group. */
  lemma BeforeInMember(t: Tree, b: nat, h: Name, g: Name)
    requires t.Group? && OnceEach(t.members) && b < |t.members| && g in Flat(t.members[b])
    ensures SerialBefore(t, h, g) <==>
      SerialBefore(t.members[b], h, g) || (!t.parallel && exists a :: 0 <= a < b && h in Flat(t.members[a]))
  {
    forall m | 0 <= m < |t.members| && SerialBefore(t.members[m], h, g) ensures m == b {
      SerialListed(t.members[m], h, g);
    }
    forall a | 0 <= a < b && h in Flat(t.members[a]) ensures InOrder(t.members, a, b, h, g) {}
    forall a, c | InOrder(t.members, a, c, h, g) ensures c == b && 0 <= a < b {}
  }

  lemma BlockedInMember(plan: Plan, t: Tree, b: nat, g: Name)
    requires t.Group? && OnceEach(t.members) && b < |t.members| && g in Flat(t.members[b])
    ensures Blocked(plan, t, g) <==>
      Blocked(plan, t.members[b], g) || (!t.parallel && exists a :: 0 <= a < b && !AllPass(plan, Flat(t.members[a])))
  {
    forall h { BeforeInMember(t, b, h, g); }
    forall a | 0 <= a < b && !AllPass(plan, Flat(t.members[a]))
      ensures exists h :: h in Flat(t.members[a]) && plan.selected(h) && plan.exitCode(h) != 0
    {
      var gates := Flat(t.members[a]);
      var i :| 0 <= i < |gates| && plan.selected(gates[i]) && plan.exitCode(gates[i]) != 0;
      assert gates[i] in gates;
    }
  }

  /** In a group, a gate starts exactly when its member starts it and no member before fails in a serial group. */
  lemma RanInMember(plan: Plan, t: Tree, b: nat, g: Name)
    requires t.Group? && OnceEach(t.members) && b < |t.members| && g in Flat(t.members[b])
    requires g in Ran(plan, t.members[b]) <==> plan.selected(g) && !Blocked(plan, t.members[b], g)
    requires forall c :: 0 <= c < |t.members| && c != b ==> g !in Ran(plan, t.members[c])
    ensures g in Ran(plan, t) <==> plan.selected(g) && !Blocked(plan, t, g)
  {
    RanAllMember(plan, t.parallel, t.members, g);
    BlockedInMember(plan, t, b, g);
    assert StartsIn(plan, t.parallel, t.members, b, g) <==>
      g in Ran(plan, t.members[b]) && (t.parallel || forall a :: 0 <= a < b ==> AllPass(plan, Flat(t.members[a])));
  }

  // ----- Counting events -----

  lemma {:induction false} StartedCount(events: seq<Event>, g: Name)
    ensures StartedAll(events)[g] == multiset(events)[Start(g)]
  {
    if events != [] {
      var init, last := events[..|events| - 1], events[|events| - 1];
      assert events == init + [last];
      StartedCount(init, g);
    }
  }

  lemma {:induction false} SelectedCount(plan: Plan, gates: seq<Name>, g: Name)
    ensures multiset(SelectedGates(plan, gates))[g] == if plan.selected(g) then multiset(gates)[g] else 0
  {
    if gates != [] {
      assert gates == [gates[0]] + gates[1..];
      SelectedCount(plan, gates[1..], g);
    }
  }

  lemma {:induction false} DistinctCount(gates: seq<Name>, g: Name)
    requires Distinct(gates)
    ensures multiset(gates)[g] == if g in gates then 1 else 0
  {
    if gates != [] {
      assert gates == [gates[0]] + gates[1..];
      DistinctParts([gates[0]], gates[1..]);
      assert gates[0] in [gates[0]];
      DistinctCount(gates[1..], g);
    }
  }

  /** Only selected gates of the inventory start, each at most once. */
  lemma StartsSelected(table: Table, name: Name, plan: Plan, states: seq<Task>, events: seq<Event>, g: Name)
    requires Accepted(table, name) && Run(plan, TreeOf(table, name), states, events)
    ensures multiset(events)[Start(g)] <= if g in Gates(table, name) && plan.selected(g) then 1 else 0
  {
    ExecuteReturnsFlatScan(table, name, plan, states, events);
    StartedCount(events, g);
    SelectedCount(plan, Gates(table, name), g);
    DistinctCount(Gates(table, name), g);
  }

  // ----- Which gates are running -----

  function Finished(e: Event): multiset<Name> {
    if e.Finish? then multiset{e.gate} else multiset{}
  }

  function FinishedAll(events: seq<Event>): multiset<Name> {
    if events == [] then multiset{}
    else FinishedAll(events[..|events| - 1]) + Finished(events[|events| - 1])
  }

  lemma {:induction false} NoneRunning(cs: seq<Task>)
    requires forall i :: 0 <= i < |cs| ==> cs[i].Done? || cs[i].Todo?
    ensures RunningAll(cs) == multiset{}
    decreases |cs|
  {
    if cs != [] { NoneRunning(cs[1..]); }
  }

  lemma {:induction false} ReplaceRunning(cs: seq<Task>, i: nat, c: Task)
    requires i < |cs|
    ensures RunningAll(cs[i := c]) + Running(cs[i]) == RunningAll(cs) + Running(c)
    decreases |cs|
  {
    if i == 0 {
      assert cs[i := c][1..] == cs[1..];
    } else {
      assert cs[i := c][1..] == cs[1..][i - 1 := c];
      ReplaceRunning(cs[1..], i - 1, c);
      Regroup(Running(cs[0]), RunningAll(cs[1..][i - 1 := c]), Running(cs[i]), RunningAll(cs[1..]), Running(c));
    }
  }

  lemma Regroup(first: multiset<Name>, a: multiset<Name>, b: multiset<Name>, c: multiset<Name>, d: multiset<Name>)
    requires a + b == c + d
    ensures (first + a) + b == (first + c) + d
  {
    assert (first + a) + b == first + (a + b);
  }

  /** A step opens the gate it starts and closes the gate it finishes. */
  lemma {:induction false} RunningStep(plan: Plan, c: Task, e: Event, c': Task)
    requires Step(plan, c, e, c')
    ensures Running(c') + Finished(e) == Running(c) + Started(e)
    decreases c
  {
    match c
    case Todo(t) => RunningFirstStep(plan, t, e, c');
    case InGate(_) =>
    case InSerial(current, rest) =>
      if !current.Done? { RunningStep(plan, current, e, c'.current); }
    case InParallel(children) =>
      if AllDone(children) {
        NoneRunning(children);
      } else {
        var i :| 0 <= i < |children| && ChildSteps(plan, children, i, e, c'.children);
        RunningChildStep(plan, children, i, e, c'.children);
      }
  }

  lemma RunningFirstStep(plan: Plan, t: Tree, e: Event, c': Task)
    requires Step(plan, Todo(t), e, c')
    ensures Running(c') + Finished(e) == Started(e)
  {
    if t.Group? { NoneRunning(TodoAll(t.members)); }
  }

  lemma {:induction false} RunningChildStep(plan: Plan, cs: seq<Task>, i: nat, e: Event, cs': seq<Task>)
    requires i < |cs| && ChildSteps(plan, cs, i, e, cs')
    ensures RunningAll(cs') + Finished(e) == RunningAll(cs) + Started(e)
    decreases cs, 0
  {
    RunningStep(plan, cs[i], e, cs'[i]);
    GroupRunning(cs, i, e, cs'[i]);
  }

  lemma GroupRunning(cs: seq<Task>, i: nat, e: Event, c: Task)
    requires i < |cs| && Running(c) + Finished(e) == Running(cs[i]) + Started(e)
    ensures RunningAll(cs[i := c]) + Finished(e) == RunningAll(cs) + Started(e)
  {
    ReplaceRunning(cs, i, c);
    RunningMoves(RunningAll(cs), Running(cs[i]), Started(e), Finished(e), Running(c), RunningAll(cs[i := c]));
  }

  lemma RunningMoves(before: multiset<Name>, was: multiset<Name>, started: multiset<Name>, finished: multiset<Name>,
                     now: multiset<Name>, after: multiset<Name>)
    requires after + was == before + now && now + finished == was + started
    ensures after + finished == before + started
  {
    assert after + was + finished == before + (now + finished);
    assert before + (was + started) == before + started + was;
    assert after + finished + was == before + started + was;
    assert (after + finished + was) - was == after + finished && (before + started + was) - was == before + started;
  }

  /** At every state, what runs is what has started and not finished. */
  lemma {:induction false} RunningIsOpen(plan: Plan, t: Tree, states: seq<Task>, events: seq<Event>)
    requires Run(plan, t, states, events)
    ensures Running(states[|events|]) + FinishedAll(events) == StartedAll(events)
    decreases |events|
  {
    if events != [] {
      var n := |events| - 1;
      RunningIsOpen(plan, t, states[..n + 1], events[..n]);
      assert Step(plan, states[n], events[n], states[n + 1]);
      RunningStep(plan, states[n], events[n], states[n + 1]);
      OpenMoves(Running(states[n]), FinishedAll(events[..n]), StartedAll(events[..n]), Running(states[n + 1]),
                Finished(events[n]), Started(events[n]));
    }
  }

  lemma OpenMoves(was: multiset<Name>, done: multiset<Name>, begun: multiset<Name>, now: multiset<Name>,
                  finished: multiset<Name>, started: multiset<Name>)
    requires was + done == begun && now + finished == was + started
    ensures now + (done + finished) == begun + started
  {
    assert now + (done + finished) == (now + finished) + done;
    assert (was + started) + done == (was + done) + started;
  }

  /** The gate has started and not finished. */
  ghost predicate Open(events: seq<Event>, g: Name) {
    Start(g) in events && forall code :: Finish(g, code) !in events
  }

  lemma {:induction false} NotFinished(events: seq<Event>, g: Name)
    requires forall code :: Finish(g, code) !in events
    ensures FinishedAll(events)[g] == 0
  {
    if events != [] {
      var n := |events| - 1;
      assert events[n] in events && forall e :: e in events[..n] ==> e in events;
      NotFinished(events[..n], g);
      assert events[n].Finish? ==> events[n] == Finish(events[n].gate, events[n].code);
    }
  }

  lemma OpenIsRunning(plan: Plan, t: Tree, states: seq<Task>, events: seq<Event>, g: Name)
    requires Run(plan, t, states, events) && Open(events, g)
    ensures g in Running(states[|events|])
  {
    RunningIsOpen(plan, t, states, events);
    StartedCount(events, g);
    NotFinished(events, g);
    assert (Running(states[|events|]) + FinishedAll(events))[g]
        == Running(states[|events|])[g] + FinishedAll(events)[g];
  }

  lemma RunPrefix(plan: Plan, t: Tree, states: seq<Task>, events: seq<Event>, k: nat)
    requires Run(plan, t, states, events) && k <= |events|
    ensures Run(plan, t, states[..k + 1], events[..k])
  {
  }

  /**
   * In every interleaving of an accepted inventory, while a started exclusive gate has not finished no other gate
   * has started without finishing, and every selected gate listed before it has exited 0.
   */
  lemma ExclusiveInEvents(table: Table, name: Name, plan: Plan, states: seq<Task>, events: seq<Event>, k: nat, i: nat)
    requires Accepted(table, name) && Run(plan, TreeOf(table, name), states, events) && k <= |events|
    requires i < |Gates(table, name)| && Gates(table, name)[i] in EXCLUSIVE && Open(events[..k], Gates(table, name)[i])
    ensures forall h :: Open(events[..k], h) ==> h == Gates(table, name)[i]
    ensures forall j :: 0 <= j < i && plan.selected(Gates(table, name)[j]) ==>
      Finish(Gates(table, name)[j], 0) in events[..k]
  {
    var g := Gates(table, name)[i];
    RunPrefix(plan, TreeOf(table, name), states, events, k);
    OpenIsRunning(plan, TreeOf(table, name), states[..k + 1], events[..k], g);
    ExclusiveGates(table, name, plan, states, events, k, i);
    forall h | Open(events[..k], h) ensures h == g {
      OpenIsRunning(plan, TreeOf(table, name), states[..k + 1], events[..k], h);
      assert h in multiset{g};
    }
  }

  // ----- What each event says -----

  lemma {:induction false} FinishSaysCode(plan: Plan, c: Task, e: Event, c': Task)
    requires Step(plan, c, e, c') && e.Finish?
    ensures e.code == plan.exitCode(e.gate)
    decreases c
  {
    match c
    case InSerial(current, rest) => if !current.Done? { FinishSaysCode(plan, current, e, c'.current); }
    case InParallel(children) =>
      if !AllDone(children) {
        var i :| 0 <= i < |children| && ChildSteps(plan, children, i, e, c'.children);
        FinishSaysCode(plan, children[i], e, c'.children[i]);
      }
    case _ =>
  }

  /** A gate that finishes exits with its own code. */
  lemma FinishesSayCodes(plan: Plan, t: Tree, states: seq<Task>, events: seq<Event>, g: Name, code: int)
    requires Run(plan, t, states, events) && Finish(g, code) in events
    ensures code == plan.exitCode(g)
  {
    var k :| 0 <= k < |events| && events[k] == Finish(g, code);
    FinishSaysCode(plan, states[k], events[k], states[k + 1]);
  }

  // ----- Waiting -----

  lemma {:induction false} StartIsListed(plan: Plan, c: Task, g: Name, c': Task, t: Tree, exitedZero: set<Name>)
    requires Step(plan, c, Start(g), c') && Tracks(plan, c, t, exitedZero)
    ensures g in Flat(t)
    decreases c
  {
    match c
    case Todo(Gate(_)) =>
    case InSerial(current, rest) =>
      var k := |t.members| - |rest|;
      if !current.Done? {
        StartIsListed(plan, current, g, c'.current, t.members[k - 1], exitedZero);
        FlatAllMember(t.members, k - 1);
      }
    case InParallel(children) =>
      if !AllDone(children) {
        var i :| 0 <= i < |children| && ChildSteps(plan, children, i, Start(g), c'.children);
        StartIsListed(plan, children[i], g, c'.children[i], t.members[i], exitedZero);
        FlatAllMember(t.members, i);
      }
    case _ =>
  }

  /** A gate starts only after every selected gate before it in a serial group has exited 0. */
  lemma {:induction false} StartWaits(plan: Plan, c: Task, g: Name, c': Task, t: Tree, exitedZero: set<Name>, h: Name)
    requires Step(plan, c, Start(g), c') && Tracks(plan, c, t, exitedZero) && Distinct(Flat(t))
    requires SerialBefore(t, h, g) && plan.selected(h)
    ensures h in exitedZero
    decreases c
  {
    DistinctMembers(t.members);
    match c
    case InSerial(current, rest) =>
      var k := |t.members| - |rest|;
      if !current.Done? {
        StartIsListed(plan, current, g, c'.current, t.members[k - 1], exitedZero);
        BeforeInMember(t, k - 1, h, g);
        if SerialBefore(t.members[k - 1], h, g) {
          StartWaits(plan, current, g, c'.current, t.members[k - 1], exitedZero, h);
        } else {
          var a :| 0 <= a < k - 1 && h in Flat(t.members[a]);
          FlatAllMember(t.members[..k - 1], a);
        }
      }
    case InParallel(children) =>
      if !AllDone(children) {
        var i :| 0 <= i < |children| && ChildSteps(plan, children, i, Start(g), c'.children);
        StartIsListed(plan, children[i], g, c'.children[i], t.members[i], exitedZero);
        BeforeInMember(t, i, h, g);
        StartWaits(plan, children[i], g, c'.children[i], t.members[i], exitedZero, h);
      }
    case _ =>
  }

  // ----- Concurrency -----

  /** In a parallel group every member that has not returned can take a step, whatever the others do. */
  lemma MembersRunFreely(plan: Plan, cs: seq<Task>, i: nat) returns (e: Event, c: Task)
    requires i < |cs| && !cs[i].Done?
    ensures Step(plan, InParallel(cs), e, InParallel(cs[i := c]))
  {
    e, c := Progress(plan, cs[i]);
    assert ChildSteps(plan, cs, i, e, cs[i := c]);
  }

  // ----- The same, said of the recipe table -----

  /** The chain `p` leads from `name` to a serial group, dependency `a` of which leads to `h` and a later one to `g`. */
  ghost predicate SplitsAt(table: Table, name: Name, h: Name, g: Name, p: seq<Name>, a: int, b: int) {
    && Explored(table, p, false) && p[0] == name && p[|p| - 1] in table
    && var group := table[p[|p| - 1]];
    && !group.hasBody && !group.parallel && 0 <= a < b < |group.dependencies|
    && LeadsTo(table, group.dependencies[a].recipe, false, h) && LeadsTo(table, group.dependencies[b].recipe, false, g)
  }

  /** Some serial group below `name` runs `h` before `g`. */
  ghost predicate Precedes(table: Table, name: Name, h: Name, g: Name) {
    exists p, a, b :: SplitsAt(table, name, h, g, p, a, b)
  }

  /** A serial group at `name` itself, or one below a dependency. */
  lemma PrecedesExactly(table: Table, name: Name, h: Name, g: Name)
    requires name in table && !table[name].hasBody
    ensures var deps := table[name].dependencies;
      Precedes(table, name, h, g) <==>
        || (!table[name].parallel && exists a, b :: 0 <= a < b < |deps| && LeadsTo(table, deps[a].recipe, false, h)
                                                   && LeadsTo(table, deps[b].recipe, false, g))
        || exists m :: 0 <= m < |deps| && Precedes(table, deps[m].recipe, h, g)
  {
    var deps := table[name].dependencies;
    forall a, b | !table[name].parallel && 0 <= a < b < |deps| && LeadsTo(table, deps[a].recipe, false, h)
                  && LeadsTo(table, deps[b].recipe, false, g)
      ensures SplitsAt(table, name, h, g, [name], a, b)
    {
    }
    forall m | 0 <= m < |deps| && Precedes(table, deps[m].recipe, h, g) ensures Precedes(table, name, h, g) {
      var p, a, b :| SplitsAt(table, deps[m].recipe, h, g, p, a, b);
      assert deps[m] in deps && Edge(table, name, p[0]);
      ExploredFirst(table, name, p, false);
      assert SplitsAt(table, name, h, g, [name] + p, a, b);
    }
    forall p, a, b | SplitsAt(table, name, h, g, p, a, b) && |p| > 1
      ensures exists m :: 0 <= m < |deps| && Precedes(table, deps[m].recipe, h, g)
    {
      ExploredRest(table, p, false);
      assert SplitsAt(table, p[1], h, g, p[1..], a, b);
      var d :| d in deps && d.recipe == p[1];
      var m :| 0 <= m < |deps| && deps[m] == d;
    }
  }

  lemma {:induction false} UnfoldAllAt(table: Table, dependencies: seq<Dependency>, visiting: set<Name>, i: nat)
    requires LeavesOfAll(table, dependencies, visiting, false).Success? && i < |dependencies|
    ensures |UnfoldAll(table, dependencies, visiting)| == |dependencies|
    ensures Leaves(table, dependencies[i].recipe, visiting, false).Success?
    ensures UnfoldAll(table, dependencies, visiting)[i] == Unfold(table, dependencies[i].recipe, visiting)
    decreases |dependencies|
  {
    if i > 0 {
      UnfoldAllAt(table, dependencies[1..], visiting, i - 1);
    } else if |dependencies| > 1 {
      UnfoldAllAt(table, dependencies[1..], visiting, 0);
    }
  }

  /** One level of the comparison of a call tree with the table. */
  lemma GroupPrecedes(table: Table, name: Name, t: Tree, h: Name, g: Name)
    requires name in table && !table[name].hasBody && t.Group? && t.parallel == table[name].parallel
    requires |t.members| == |table[name].dependencies|
    requires forall i :: 0 <= i < |t.members| ==>
      (SerialBefore(t.members[i], h, g) <==> Precedes(table, table[name].dependencies[i].recipe, h, g))
    requires forall i, x :: 0 <= i < |t.members| ==>
      (x in Flat(t.members[i]) <==> LeadsTo(table, table[name].dependencies[i].recipe, false, x))
    ensures SerialBefore(t, h, g) <==> Precedes(table, name, h, g)
  {
    var deps := table[name].dependencies;
    PrecedesExactly(table, name, h, g);
    forall a, b | InOrder(t.members, a, b, h, g)
      ensures LeadsTo(table, deps[a].recipe, false, h) && LeadsTo(table, deps[b].recipe, false, g)
    {
    }
    forall a, b | 0 <= a < b < |deps| && LeadsTo(table, deps[a].recipe, false, h)
                  && LeadsTo(table, deps[b].recipe, false, g)
      ensures InOrder(t.members, a, b, h, g)
    {
    }
  }

  /** The call tree runs `h` before `g` exactly when the table says so. */
  lemma {:induction false} TreePrecedes(table: Table, name: Name, visiting: set<Name>, h: Name, g: Name)
    requires Leaves(table, name, visiting, false).Success?
    ensures SerialBefore(Unfold(table, name, visiting), h, g) <==> Precedes(table, name, h, g)
    decreases table.Keys - visiting
  {
    if table[name].hasBody {
      assert forall p, a, b :: SplitsAt(table, name, h, g, p, a, b) ==> |p| > 1 ==> Descends(table, p[0], false);
    } else {
      var t, deps, inner := Unfold(table, name, visiting), table[name].dependencies, visiting + {name};
      assert t.members == UnfoldAll(table, deps, inner);
      if deps != [] { UnfoldAllAt(table, deps, inner, 0); }
      forall i | 0 <= i < |deps|
        ensures SerialBefore(t.members[i], h, g) <==> Precedes(table, deps[i].recipe, h, g)
        ensures forall x :: x in Flat(t.members[i]) <==> LeadsTo(table, deps[i].recipe, false, x)
      {
        UnfoldAllAt(table, deps, inner, i);
        TreePrecedes(table, deps[i].recipe, inner, h, g);
        UnfoldIsFlat(table, deps[i].recipe, inner);
        forall x { ListedExactly(table, deps[i].recipe, inner, false, x); }
      }
      GroupPrecedes(table, name, t, h, g);
    }
  }

  /** A gate before `g` in a serial group is selected and fails. */
  ghost predicate HeldBack(table: Table, name: Name, plan: Plan, g: Name) {
    exists h :: Precedes(table, name, h, g) && plan.selected(h) && plan.exitCode(h) != 0
  }

  /**
   * When a run of an accepted inventory returns, the gates that have started, once each, are the selected ones that
   * the inventory leads to and that no failing gate precedes in a serial group; parallel groups hold nothing back.
   */
  lemma StartsExactly(table: Table, name: Name, plan: Plan, states: seq<Task>, events: seq<Event>, g: Name)
    requires Accepted(table, name) && Run(plan, TreeOf(table, name), states, events) && states[|events|].Done?
    ensures multiset(events)[Start(g)]
         == if LeadsTo(table, name, false, g) && plan.selected(g) && !HeldBack(table, name, plan, g) then 1 else 0
  {
    var t := TreeOf(table, name);
    TreeLists(table, name);
    StartsSelected(table, name, plan, states, events, g);
    EverySchedule(plan, t, states, events);
    StartedCount(events, g);
    RanExactly(plan, t, g);
    ListedExactly(table, name, {}, false, g);
    forall h { TreePrecedes(table, name, {}, h, g); }
  }

  /** A gate starts only after every selected gate that precedes it in a serial group has exited 0. */
  lemma SerialWaits(table: Table, name: Name, plan: Plan, states: seq<Task>, events: seq<Event>, k: nat,
                    g: Name, h: Name)
    requires Accepted(table, name) && Run(plan, TreeOf(table, name), states, events)
    requires k < |events| && events[k] == Start(g) && Precedes(table, name, h, g) && plan.selected(h)
    ensures Finish(h, 0) in events[..k]
  {
    var t := TreeOf(table, name);
    TreeLists(table, name);
    RunPrefix(plan, t, states, events, k);
    RunInvariant(plan, t, states[..k + 1], events[..k]);
    TreePrecedes(table, name, {}, h, g);
    StartWaits(plan, states[k], g, states[k + 1], t, ExitedZero(events[..k]), h);
  }
}
