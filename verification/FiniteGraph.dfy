/** Bounded admission of a parsed YAML value: a depth-first search over shared objects. */
module FiniteGraph {
  import opened Common

  type ObjectId = nat

  /** What the parser can hand over. Objects are shared by reference, so aliases can make a graph. */
  datatype Value = Null | Text | Boolean | Number(finite: bool) | Unsupported | Ref(id: ObjectId)

  /** `plain` is false for an object that is neither an array nor a mapping with a plain prototype. */
  datatype Object = Object(plain: bool, children: seq<Value>)

  type Heap = map<ObjectId, Object>

  const MAX_DEPTH := 100
  const MAX_OBJECTS := 10000

  /** References lead to objects. */
  ghost predicate Closed(heap: Heap) {
    forall o, v :: o in heap && v in heap[o].children ==> Resolves(heap, v)
  }

  predicate Resolves(heap: Heap, v: Value) {
    v.Ref? ==> v.id in heap
  }

  /** Null, text, a boolean, a finite number or a reference. */
  ghost predicate Supported(v: Value) {
    v == Null || v == Text || v == Boolean || v == Number(true) || v.Ref?
  }

  predicate Admitted(v: Value): (r: bool)
    ensures r <==> Supported(v)
  {
    !v.Unsupported? && (v.Number? ==> v.finite)
  }

  ghost predicate AdmittedObject(o: Object) {
    o.plain && forall v :: v in o.children ==> Supported(v)
  }

  ghost predicate Edge(heap: Heap, a: ObjectId, b: ObjectId) {
    a in heap && Ref(b) in heap[a].children
  }

  /** A path of objects that starts at the root value. */
  ghost predicate PathFrom(heap: Heap, root: Value, p: seq<ObjectId>) {
    && |p| > 0 && root == Ref(p[0]) && p[0] in heap
    && forall i :: 0 <= i < |p| - 1 ==> Edge(heap, p[i], p[i + 1])
  }

  ghost predicate Reached(heap: Heap, root: Value, o: ObjectId) {
    exists p: seq<ObjectId> :: PathFrom(heap, root, p) && p[|p| - 1] == o
  }

  ghost function Reachable(heap: Heap, root: Value): set<ObjectId> {
    set o | o in heap && Reached(heap, root, o)
  }

  /** All that is reachable is admitted, and no path meets an object twice. */
  ghost predicate AdmittedAcyclic(heap: Heap, root: Value) {
    && Supported(root)
    && forall p: seq<ObjectId> :: PathFrom(heap, root, p) ==>
         Distinct(p) && p[|p| - 1] in heap && AdmittedObject(heap[p[|p| - 1]])
  }

  ghost predicate Shallow(heap: Heap, root: Value) {
    forall p: seq<ObjectId> :: PathFrom(heap, root, p) ==> |p| - 1 <= MAX_DEPTH
  }

  /** At `a`, `next` is the first child from which `o` is reached. */
  ghost predicate FirstStep(heap: Heap, a: ObjectId, next: ObjectId, o: ObjectId) {
    a in heap && exists t :: FirstTurn(heap[a].children, t, next) && NoneReaches(heap, heap[a].children, t, o)
  }

  ghost predicate FirstTurn(children: seq<Value>, t: int, next: ObjectId) {
    0 <= t < |children| && children[t] == Ref(next)
  }

  ghost predicate NoneReaches(heap: Heap, children: seq<Value>, t: int, o: ObjectId)
    requires t <= |children|
  {
    forall k :: 0 <= k < t ==> !Reached(heap, children[k], o)
  }

  /** The path that takes, at every object, the first child from which its end is reached. */
  ghost predicate FirstPath(heap: Heap, root: Value, p: seq<ObjectId>) {
    PathFrom(heap, root, p) && forall i :: 0 <= i < |p| - 1 ==> FirstStep(heap, p[i], p[i + 1], p[|p| - 1])
  }

  /** Every object is first met at most 100 references below the root. */
  ghost predicate ShallowFirst(heap: Heap, root: Value) {
    forall p: seq<ObjectId> :: FirstPath(heap, root, p) ==> |p| - 1 <= MAX_DEPTH
  }

  /** Each object's references stand earlier in the list. */
  ghost predicate Settled(heap: Heap, order: seq<ObjectId>) {
    forall i :: 0 <= i < |order| ==>
      && order[i] in heap && AdmittedObject(heap[order[i]])
      && forall c :: Ref(c) in heap[order[i]].children ==> c in order[..i]
  }

  /** The object was first met at the end of its first path, within the depth bound. */
  ghost predicate Met(heap: Heap, root: Value, o: ObjectId, p: seq<ObjectId>) {
    |p| > 0 && p[|p| - 1] == o && |p| - 1 <= MAX_DEPTH && FirstPath(heap, root, p)
  }

  ghost predicate AllMet(heap: Heap, root: Value, seen: set<ObjectId>, met: map<ObjectId, seq<ObjectId>>) {
    met.Keys == seen && forall o {:trigger met[o]} :: o in met ==> Met(heap, root, o, met[o])
  }

  /** The search's shared state. `settled` lists the finished objects in order, `met` the way to each object. */
  class Search {
    const heap: Heap
    const root: Value
    var active: set<ObjectId>
    var seen: set<ObjectId>
    ghost var settled: seq<ObjectId>
    ghost var met: map<ObjectId, seq<ObjectId>>

    constructor (heap: Heap, root: Value)
      requires Closed(heap) && Resolves(heap, root)
      ensures this.heap == heap && this.root == root
      ensures Valid() && active == {} && seen == {}
    {
      this.heap, this.root := heap, root;
      active, seen, settled, met := {}, {}, [], map[];
    }

    ghost predicate Valid()
      reads this
    {
      && Closed(heap)
      && active <= seen <= Reachable(heap, root)
      && |seen| <= MAX_OBJECTS
      && Settled(heap, settled)
      && Elements(settled) == seen - active
      && AllMet(heap, root, seen, met)
    }

    /** The objects being visited form a path from the root, and `value` hangs off its end. */
    ghost predicate Visiting(path: seq<ObjectId>, value: Value)
      reads this
    {
      && active == Elements(path)
      && (path == [] ==> value == root)
      && (path != [] ==>
          PathFrom(heap, root, path) && path[|path| - 1] in heap && value in heap[path[|path| - 1]].children)
    }

    /** What makes the search accept: nothing unadmitted, no cycle, few objects, short first paths. */
    ghost predicate WithinBudget()
      reads this
    {
      AdmittedAcyclic(heap, root) && ShallowFirst(heap, root) && |Reachable(heap, root)| <= MAX_OBJECTS
    }

    /** An admitted value that, if an object, has been searched completely. */
    ghost predicate Cleared(value: Value)
      reads this
    {
      Admitted(value) && (value.Ref? ==> value.id in settled)
    }

    method Visit(value: Value, depth: nat, ghost path: seq<ObjectId>, ghost turns: seq<nat>) returns (ok: bool)
      requires Valid() && Resolves(heap, value) && Visiting(path, value) && Turns(heap, settled, path, turns, value)
      requires depth == |path| <= MAX_DEPTH + 1
      modifies this
      ensures ok ==> Valid() && active == old(active) && old(settled) <= settled && Cleared(value)
      ensures WithinBudget() ==> ok
      decreases MAX_DEPTH + 1 - depth, 1
    {
      if !value.Ref? {
        AdmittedChild(path, value);
        return Admitted(value);
      }
      var id := value.id;
      Extend(path, id);
      if id in active { return false; }
      if id in seen {
        assert id in Elements(settled);
        return true;
      }
      RoomLeft(seen, id);
      assert id !in Elements(settled);
      DeepIsRefused(heap, settled, root, path, turns, id);
      if depth > MAX_DEPTH || |seen| >= MAX_OBJECTS { return false; }
      if !heap[id].plain {
        assert PathFrom(heap, root, path + [id]);
        return false;
      }
      ok := Enter(id, depth, path, turns);
    }

    /** Visiting a new object: it is active while its children are searched. */
    method Enter(id: ObjectId, depth: nat, ghost path: seq<ObjectId>, ghost turns: seq<nat>) returns (ok: bool)
      requires Valid() && active == Elements(path) && id !in seen && |seen| < MAX_OBJECTS
      requires id in heap && heap[id].plain && id in Reachable(heap, root)
      requires PathFrom(heap, root, path + [id]) && Turns(heap, settled, path, turns, Ref(id))
      requires depth == |path| <= MAX_DEPTH
      modifies this
      ensures ok ==> Valid() && active == old(active) && old(settled) <= settled && id in settled
      ensures WithinBudget() ==> ok
      decreases MAX_DEPTH + 1 - depth, 0
    {
      Begin(id, path, turns);
      assert Elements(path + [id]) == active;
      ok := VisitChildren(id, depth, path, turns);
      if ok { Leave(id); }
    }

    /** A new object becomes active and counts against the size budget. */
    method Begin(id: ObjectId, ghost path: seq<ObjectId>, ghost turns: seq<nat>)
      requires Valid() && id !in seen && |seen| < MAX_OBJECTS && id in Reachable(heap, root) && |path| <= MAX_DEPTH
      requires PathFrom(heap, root, path + [id]) && Turns(heap, settled, path, turns, Ref(id))
      modifies this`active, this`seen, this`met
      ensures Valid() && active == old(active) + {id} && seen == old(seen) + {id}
    {
      assert id !in Elements(settled);
      MeetNew(heap, settled, root, seen, met, path, turns, id);
      active, seen, met := active + {id}, seen + {id}, met[id := path + [id]];
    }

    /** All children are searched: the object is settled and no longer active. */
    method Leave(id: ObjectId)
      requires Valid() && id in active && id in heap && heap[id].plain
      requires forall v :: v in heap[id].children ==> Cleared(v)
      modifies this`active, this`settled
      ensures Valid() && active == old(active) - {id} && settled == old(settled) + [id]
    {
      SettleOne(heap, settled, seen, active, id);
      active, settled := active - {id}, settled + [id];
    }

    method VisitChildren(id: ObjectId, depth: nat, ghost path: seq<ObjectId>, ghost turns: seq<nat>) returns (ok: bool)
      requires Valid() && active == Elements(path + [id])
      requires PathFrom(heap, root, path + [id]) && id in heap && Turns(heap, settled, path, turns, Ref(id))
      requires depth == |path| <= MAX_DEPTH
      modifies this
      ensures ok ==> Valid() && active == old(active) && old(settled) <= settled && id in seen
      ensures ok ==> forall v :: v in heap[id].children ==> Cleared(v)
      ensures WithinBudget() ==> ok
      decreases MAX_DEPTH + 1 - depth - 1, 2
    {
      var children := heap[id].children;
      for i := 0 to |children|
        invariant Valid() && active == old(active) && old(settled) <= settled
        invariant forall k :: 0 <= k < i ==> Cleared(children[k])
      {
        ghost var before := settled;
        TurnsLater(heap, old(settled), settled, path, turns, Ref(id));
        TurnsFurther(heap, settled, path, turns, id, i, children[i]);
        ok := Visit(children[i], depth + 1, path + [id], turns + [i]);
        if !ok { return; }
        assert forall o :: o in before ==> o in settled;
      }
      ok := true;
    }

    lemma AdmittedChild(path: seq<ObjectId>, value: Value)
      requires Visiting(path, value)
      ensures AdmittedAcyclic(heap, root) ==> Admitted(value)
    {
    }

    lemma Extend(path: seq<ObjectId>, id: ObjectId)
      requires id in heap && Visiting(path, Ref(id))
      ensures PathFrom(heap, root, path + [id])
      ensures id in Reachable(heap, root)
      ensures id in active ==> !Distinct(path + [id])
    {
      var p := path + [id];
      assert forall i :: 0 <= i < |p| - 1 ==> p[i] == path[i];
      assert p[|p| - 1] == id;
      assert PathFrom(heap, root, p) && p[|p| - 1] == id;
      if id in active {
        var i :| 0 <= i < |path| && path[i] == id;
        assert p[i] == p[|p| - 1];
      }
    }

    lemma RoomLeft(some: set<ObjectId>, id: ObjectId)
      requires some <= Reachable(heap, root) && id in Reachable(heap, root) && id !in some
      ensures |some| < |Reachable(heap, root)|
    {
      SubsetCount(some + {id}, Reachable(heap, root));
    }
  }

  /** An object all of whose references are settled can be settled next. */
  lemma SettleOne(heap: Heap, order: seq<ObjectId>, seen: set<ObjectId>, active: set<ObjectId>, id: ObjectId)
    requires Settled(heap, order) && Elements(order) == seen - active
    requires id in heap && id in active && id in seen && AdmittedObject(heap[id])
    requires forall c :: Ref(c) in heap[id].children ==> c in order
    ensures Settled(heap, order + [id])
    ensures Elements(order + [id]) == seen - (active - {id})
  {
    var longer := order + [id];
    assert Elements(longer) == Elements(order) + {id};
    forall i | 0 <= i < |longer|
      ensures forall c :: Ref(c) in heap[longer[i]].children ==> c in longer[..i]
    {
      assert i < |order| ==> longer[..i] == order[..i];
      assert i == |order| ==> longer[..i] == order;
    }
  }

  lemma {:induction false} SubsetCount(a: set<ObjectId>, b: set<ObjectId>)
    requires a <= b
    ensures |a| <= |b|
  {
    if a != {} {
      var x :| x in a;
      SubsetCount(a - {x}, b - {x});
    }
  }

  /** Below a settled object every path stays settled and never meets an object twice. */
  lemma {:induction false} SettledPath(heap: Heap, order: seq<ObjectId>, p: seq<ObjectId>, i: nat)
    requires Settled(heap, order) && |p| > 0
    requires forall k :: 0 <= k < |p| - 1 ==> Edge(heap, p[k], p[k + 1])
    requires i < |order| && p[0] == order[i]
    ensures forall k :: 0 <= k < |p| ==> p[k] in order[..i + 1]
    ensures Distinct(p)
    decreases i, |p|
  {
    if p[0] in order[..i] {
      var j :| 0 <= j < i && order[j] == p[0];
      SettledPath(heap, order, p, j);
      assert order[..i + 1][..j + 1] == order[..j + 1];
    } else if |p| > 1 {
      assert Edge(heap, p[0], p[1]);
      var j :| 0 <= j < i && order[j] == p[1];
      var tail := p[1..];
      forall k | 0 <= k < |tail| - 1 ensures Edge(heap, tail[k], tail[k + 1]) {
        assert Edge(heap, p[k + 1], p[k + 1 + 1]);
      }
      SettledPath(heap, order, tail, j);
      forall k | 1 <= k < |p| ensures p[k] in order[..i] {
        assert p[k] == tail[k - 1] && tail[k - 1] in order[..j + 1];
      }
      assert forall k, m :: 1 <= k < m < |p| ==> p[k] == tail[k - 1] && p[m] == tail[m - 1];
    }
  }

  // ----- First visits -----

  /** Child `t` of `a` is `next`, and what stands before it has been searched. */
  ghost predicate TurnAt(heap: Heap, order: seq<ObjectId>, a: ObjectId, t: nat, next: Value) {
    && a in heap && t < |heap[a].children| && heap[a].children[t] == next
    && forall k :: 0 <= k < t ==> Searched(order, heap[a].children[k])
  }

  ghost predicate Searched(order: seq<ObjectId>, v: Value) {
    v.Ref? ==> v.id in order
  }

  /** The search stands at `value`, having taken these turns along the path. */
  ghost predicate Turns(heap: Heap, order: seq<ObjectId>, path: seq<ObjectId>, turns: seq<nat>, value: Value) {
    |turns| == |path| && forall i {:trigger turns[i]} :: 0 <= i < |path| ==>
      TurnAt(heap, order, path[i], turns[i], After(path, i, value))
  }

  function After(path: seq<ObjectId>, i: nat, value: Value): Value
    requires i < |path|
  {
    if i + 1 < |path| then Ref(path[i + 1]) else value
  }

  lemma TurnsLater(heap: Heap, order: seq<ObjectId>, later: seq<ObjectId>,
                   path: seq<ObjectId>, turns: seq<nat>, value: Value)
    requires Turns(heap, order, path, turns, value) && order <= later
    ensures Turns(heap, later, path, turns, value)
  {
    assert forall o :: o in order ==> o in later;
    forall i | 0 <= i < |path| ensures TurnAt(heap, later, path[i], turns[i], After(path, i, value)) {
      assert TurnAt(heap, order, path[i], turns[i], After(path, i, value));
    }
  }

  lemma TurnsFurther(heap: Heap, order: seq<ObjectId>, path: seq<ObjectId>, turns: seq<nat>,
                     id: ObjectId, t: nat, value: Value)
    requires Turns(heap, order, path, turns, Ref(id)) && TurnAt(heap, order, id, t, value)
    ensures Turns(heap, order, path + [id], turns + [t], value)
  {
    var p, u := path + [id], turns + [t];
    forall i | 0 <= i < |p| ensures TurnAt(heap, order, p[i], u[i], After(p, i, value)) {
      if i < |path| { assert TurnAt(heap, order, path[i], turns[i], After(path, i, Ref(id))); }
    }
  }

  /** What is settled reaches only what is settled. */
  lemma SettledReaches(heap: Heap, order: seq<ObjectId>, v: Value, o: ObjectId)
    requires Settled(heap, order) && Searched(order, v) && o !in order
    ensures !Reached(heap, v, o)
  {
    if Reached(heap, v, o) {
      var p: seq<ObjectId> :| PathFrom(heap, v, p) && p[|p| - 1] == o;
      var i :| 0 <= i < |order| && order[i] == p[0];
      SettledPath(heap, order, p, i);
    }
  }

  /** A new object is met on its first path. */
  lemma NewIsFirst(heap: Heap, order: seq<ObjectId>, root: Value, path: seq<ObjectId>, turns: seq<nat>, id: ObjectId)
    requires Settled(heap, order) && Turns(heap, order, path, turns, Ref(id)) && id !in order
    requires PathFrom(heap, root, path + [id])
    ensures FirstPath(heap, root, path + [id])
  {
    var p := path + [id];
    forall i | 0 <= i < |p| - 1 ensures FirstStep(heap, p[i], p[i + 1], id) {
      assert TurnAt(heap, order, path[i], turns[i], After(path, i, Ref(id)));
      var children := heap[path[i]].children;
      assert FirstTurn(children, turns[i], p[i + 1]);
      forall k | 0 <= k < turns[i] ensures !Reached(heap, children[k], id) {
        SettledReaches(heap, order, children[k], id);
      }
    }
  }

  lemma DeepIsRefused(heap: Heap, order: seq<ObjectId>, root: Value, path: seq<ObjectId>, turns: seq<nat>, id: ObjectId)
    requires Settled(heap, order) && Turns(heap, order, path, turns, Ref(id)) && id !in order
    requires PathFrom(heap, root, path + [id])
    ensures |path| > MAX_DEPTH ==> !ShallowFirst(heap, root)
  {
    NewIsFirst(heap, order, root, path, turns, id);
    assert |path + [id]| - 1 == |path|;
  }

  lemma MeetNew(heap: Heap, order: seq<ObjectId>, root: Value, seen: set<ObjectId>, met: map<ObjectId, seq<ObjectId>>,
                path: seq<ObjectId>, turns: seq<nat>, id: ObjectId)
    requires AllMet(heap, root, seen, met) && Settled(heap, order) && id !in order
    requires Turns(heap, order, path, turns, Ref(id)) && PathFrom(heap, root, path + [id]) && |path| <= MAX_DEPTH
    ensures AllMet(heap, root, seen + {id}, met[id := path + [id]])
  {
    NewIsFirst(heap, order, root, path, turns, id);
    var more := met[id := path + [id]];
    forall o | o in more ensures Met(heap, root, o, more[o]) {
      if o != id { assert more[o] == met[o]; }
    }
  }

  lemma PathRest(heap: Heap, root: Value, p: seq<ObjectId>, i: nat)
    requires PathFrom(heap, root, p) && i < |p| && p[i] in heap
    ensures Reached(heap, Ref(p[i]), p[|p| - 1])
  {
    var q := p[i..];
    forall k | 0 <= k < |q| - 1 ensures Edge(heap, q[k], q[k + 1]) { assert Edge(heap, p[i + k], p[i + k + 1]); }
    assert PathFrom(heap, Ref(p[i]), q) && q[|q| - 1] == p[|p| - 1];
  }

  lemma FirstStepUnique(heap: Heap, a: ObjectId, b: ObjectId, c: ObjectId, o: ObjectId)
    requires FirstStep(heap, a, b, o) && FirstStep(heap, a, c, o)
    requires Reached(heap, Ref(b), o) && Reached(heap, Ref(c), o)
    ensures b == c
  {
    var children := heap[a].children;
    var t :| FirstTurn(children, t, b) && NoneReaches(heap, children, t, o);
    var u :| FirstTurn(children, u, c) && NoneReaches(heap, children, u, o);
  }

  /** Two first paths to the same object run together. */
  lemma {:induction false} FirstPathsAgree(heap: Heap, root: Value, p: seq<ObjectId>, q: seq<ObjectId>, i: nat)
    requires Closed(heap) && FirstPath(heap, root, p) && FirstPath(heap, root, q) && p[|p| - 1] == q[|q| - 1]
    requires i < |p| && i < |q|
    ensures p[i] == q[i]
  {
    if i > 0 {
      FirstPathsAgree(heap, root, p, q, i - 1);
      assert Edge(heap, p[i - 1], p[i - 1 + 1]) && Edge(heap, q[i - 1], q[i - 1 + 1]);
      assert Resolves(heap, Ref(p[i])) && Resolves(heap, Ref(q[i]));
      PathRest(heap, root, p, i);
      PathRest(heap, root, q, i);
      FirstStepUnique(heap, p[i - 1], p[i], q[i], p[|p| - 1]);
    }
  }

  lemma FirstPathUnique(heap: Heap, root: Value, p: seq<ObjectId>, q: seq<ObjectId>)
    requires Closed(heap) && FirstPath(heap, root, p) && FirstPath(heap, root, q) && p[|p| - 1] == q[|q| - 1]
    requires Distinct(p) && Distinct(q)
    ensures p == q
  {
    forall i | 0 <= i < |p| && i < |q| ensures p[i] == q[i] { FirstPathsAgree(heap, root, p, q, i); }
  }

  /**
   * The search accepts exactly the acyclic graphs of at most 10000 objects that hold only admitted
   * values and whose first paths have at most 100 references; in particular those without longer paths.
   */
  method Admits(heap: Heap, root: Value) returns (ok: bool)
    requires Closed(heap) && Resolves(heap, root)
    ensures ok <==> AdmittedAcyclic(heap, root) && |Reachable(heap, root)| <= MAX_OBJECTS && ShallowFirst(heap, root)
    ensures AdmittedAcyclic(heap, root) && |Reachable(heap, root)| <= MAX_OBJECTS && Shallow(heap, root) ==> ok
  {
    var search := new Search(heap, root);
    ok := search.Visit(root, 0, [], []);
    if ok {
      ghost var order := search.settled;
      forall p: seq<ObjectId> | PathFrom(heap, root, p)
        ensures Distinct(p) && p[|p| - 1] in order
      {
        var i :| 0 <= i < |order| && order[i] == p[0];
        SettledPath(heap, order, p, i);
      }
      forall o | o in Reachable(heap, root) ensures o in search.seen {
        var p: seq<ObjectId> :| PathFrom(heap, root, p) && p[|p| - 1] == o;
        assert o in Elements(order);
      }
      SubsetCount(Reachable(heap, root), search.seen);
      forall p: seq<ObjectId> | FirstPath(heap, root, p) ensures |p| - 1 <= MAX_DEPTH {
        assert p[|p| - 1] in Elements(order);
        FirstPathUnique(heap, root, p, search.met[p[|p| - 1]]);
      }
    }
  }
}
