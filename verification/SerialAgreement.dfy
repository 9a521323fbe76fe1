/** The hygiene checker and the scheduler keep the same gates off parallel recipes. */
module SerialAgreement {
  import opened Common
  import opened Lines
  import opened Justfile
  import opened Declarations
  import opened Expansion
  import opened Visibility
  import opened SerialGates
  import R = Recipes
  import I = Inventory

  /** The gates that the checker calls serial are those that the scheduler runs alone. */
  lemma SerialIsExclusive(g: Name)
    ensures IsSerial(g) <==> g in I.EXCLUSIVE
  {
    assert SERIAL_RUST_GATES[0] == "fmt-check" && SERIAL_RUST_GATES[1] == "clippy" && SERIAL_RUST_GATES[2] == "test"
      && SERIAL_RUST_GATES[3] == "doc" && SERIAL_RUST_GATES[4] == "deny";
  }

  /** The checker and the scheduler ask for the same gates at the end of an inventory. */
  lemma SuffixIsSerial(gates: seq<Name>)
    ensures I.SuffixFollows(gates) <==> exists front: seq<Name> :: gates == front + SERIAL_RUST_GATES
  {
    assert SERIAL_RUST_GATES == I.RUST_SUFFIX;
  }

  // ----- What the checker's lists and attributes are -----

  lemma {:induction false} CountAbsent(gates: seq<Name>, g: Name)
    ensures Occurrences(gates, g) == 0 <==> g !in gates
  {
  }

  lemma SuffixCounts(front: seq<Name>, g: Name)
    requires g in SERIAL_RUST_GATES
    ensures Occurrences(front + SERIAL_RUST_GATES, g) == Occurrences(front, g) + 1
  {
    assert multiset(SERIAL_RUST_GATES) == multiset{"fmt-check", "clippy", "test", "doc", "deny"};
    assert multiset(front + SERIAL_RUST_GATES) == multiset(front) + multiset(SERIAL_RUST_GATES);
  }

  /** The serial Rust gates stand after `front`, and none in it. */
  ghost predicate ClosesAfter(gates: seq<Name>, front: seq<Name>) {
    gates == front + SERIAL_RUST_GATES && forall g :: g in SERIAL_RUST_GATES ==> g !in front
  }

  lemma FrontCounts(front: seq<Name>)
    ensures (forall g :: g in SERIAL_RUST_GATES ==> Occurrences(front + SERIAL_RUST_GATES, g) == 1)
       <==> ClosesAfter(front + SERIAL_RUST_GATES, front)
  {
    forall g | g in SERIAL_RUST_GATES ensures Occurrences(front + SERIAL_RUST_GATES, g) == 1 <==> g !in front {
      SuffixCounts(front, g);
      CountAbsent(front, g);
    }
  }

  lemma ClosesExactly(gates: seq<Name>)
    ensures EndsWithSerial(gates) && (forall g :: g in SERIAL_RUST_GATES ==> Occurrences(gates, g) == 1)
       <==> exists front: seq<Name> :: ClosesAfter(gates, front)
  {
    if EndsWithSerial(gates) {
      var front := gates[..|gates| - |SERIAL_RUST_GATES|];
      assert gates == front + SERIAL_RUST_GATES;
      FrontCounts(front);
    }
    forall front: seq<Name> | ClosesAfter(gates, front)
      ensures EndsWithSerial(gates) && gates[..|gates| - |SERIAL_RUST_GATES|] == front
    {
    }
  }

  /** An entry is serial exactly when its gates are others, none of them serial Rust gates, and then those. */
  lemma EntryExactly(graph: Graph, recipe: Name)
    ensures EndsSerially(graph, recipe) <==>
      Gates(graph, recipe, false).Some? && exists front :: ClosesAfter(Gates(graph, recipe, false).value, front)
  {
    if Gates(graph, recipe, false).Some? { ClosesExactly(Gates(graph, recipe, false).value); }
  }

  /** Lines `j` to `i - 1` are all attributes, and line `j` says `parallel`. */
  ghost predicate AttributeBlock(lines: seq<Line>, j: int, i: int) {
    && 0 <= j < i <= |lines| && (forall k :: j <= k < i ==> lines[k] != "" && lines[k][0] == '[')
    && "parallel" in DeclarationWords(lines[j], true)
  }

  lemma {:induction false} ParallelAboveExactly(lines: seq<Line>, i: nat)
    requires i <= |lines|
    ensures ParallelAbove(lines, i) <==> exists j :: AttributeBlock(lines, j, i)
    decreases i
  {
    if i > 0 {
      ParallelAboveExactly(lines, i - 1);
      if IsAttribute(lines[i - 1]) && ParallelAbove(lines, i - 1) {
        var j :| AttributeBlock(lines, j, i - 1);
        assert AttributeBlock(lines, j, i);
      }
      if IsAttribute(lines[i - 1]) && SaysParallel(lines[i - 1]) { assert AttributeBlock(lines, i - 1, i); }
      forall j | AttributeBlock(lines, j, i) ensures ParallelAbove(lines, i) {
        assert IsAttribute(lines[i - 1]);
        if j < i - 1 { assert AttributeBlock(lines, j, i - 1); }
      }
    }
  }

  /** Line `j` is the first below line `i` that is not blank. */
  ghost predicate NextBelow(lines: seq<Line>, i: int, j: int) {
    0 <= i < j < |lines| && !IsBlank(lines[j]) && forall k :: i < k < j ==> IsBlank(lines[k])
  }

  lemma {:induction false} FirstNonBlankExactly(lines: seq<Line>, from: nat) returns (j: nat)
    requires from <= |lines|
    ensures from <= j <= |lines| && forall k :: from <= k < j ==> IsBlank(lines[k])
    ensures if j == |lines| then FirstNonBlank(lines[from..]) == None
            else !IsBlank(lines[j]) && FirstNonBlank(lines[from..]) == Some(lines[j])
    decreases |lines| - from
  {
    if from == |lines| {
      j := from;
    } else if !IsBlank(lines[from]) {
      j := from;
    } else {
      assert lines[from..][1..] == lines[from + 1..];
      j := FirstNonBlankExactly(lines, from + 1);
    }
  }

  /** A recipe has a body exactly when the next line that is not blank begins with a space or a tab. */
  lemma BodyBelowExactly(lines: seq<Line>, i: nat)
    requires i < |lines|
    ensures BodyBelow(lines, i) <==>
      exists j :: NextBelow(lines, i, j) && lines[j] != "" && (lines[j][0] == ' ' || lines[j][0] == '\t')
  {
    var j := FirstNonBlankExactly(lines, i + 1);
    forall k | NextBelow(lines, i, k) ensures k == j {}
    if j < |lines| { assert NextBelow(lines, i, j); }
  }

  // ----- Parallel recipes -----

  /** A recipe with the `parallel` attribute that is no serial gate itself, below which everything expands. */
  ghost predicate ExpandingGroup(lines: seq<Line>, group: Name) {
    IsParallel(lines, group) && !IsSerial(group) && R.Expands(Effective(lines), group, true)
  }

  ghost predicate SerialGatesHaveBodies(lines: seq<Line>) {
    forall g :: IsSerial(g) && g in Effective(lines) ==> Effective(lines)[g].hasBody
  }

  /** A declared chain from the group ends in a serial gate. */
  ghost predicate LeadsToSerial(table: R.Table, group: Name, p: seq<Name>) {
    ChainFrom(table, group, p) && IsSerial(p[|p| - 1])
  }

  /** Along one chain the scheduler minds a serial gate at the end, and nothing else. */
  lemma SafeAlong(table: R.Table, group: Name, p: seq<Name>)
    requires R.Expands(table, group, true) && !IsSerial(group) && R.Chain(table, p) && p[0] == group
    requires forall g :: IsSerial(g) && g in table ==> table[g].hasBody
    ensures R.Clean(table, p[|p| - 1]) && Distinct(p)
    ensures (table[p[|p| - 1]].hasBody ==> p[|p| - 1] !in I.EXCLUSIVE) <==> !LeadsToSerial(table, group, p)
  {
    R.EveryChainIsExplored(table, p);
    SerialIsExclusive(p[|p| - 1]);
  }

  /** The scheduler refuses an expanding group exactly when some chain of it ends in a serial gate. */
  lemma SafeExactly(table: R.Table, group: Name)
    requires group in table && table[group].parallel && R.Expands(table, group, true) && !IsSerial(group)
    requires forall g :: IsSerial(g) && g in table ==> table[g].hasBody
    ensures I.GroupIsSafe(table, group) <==> forall p: seq<Name> :: !LeadsToSerial(table, group, p)
  {
    forall p: seq<Name> | R.Chain(table, p) && p[0] == group
      ensures R.Clean(table, p[|p| - 1]) && Distinct(p)
      ensures (table[p[|p| - 1]].hasBody ==> p[|p| - 1] !in I.EXCLUSIVE) <==> !LeadsToSerial(table, group, p)
    {
      SafeAlong(table, group, p);
    }
  }

  /** The scheduler refuses such a group exactly when it depends on a serial gate along some chain. */
  lemma GuardsAgree(lines: seq<Line>, group: Name)
    requires ExpandingGroup(lines, group) && SerialGatesHaveBodies(lines)
    ensures group in Effective(lines)
    ensures I.GroupIsSafe(Effective(lines), group) <==>
      forall p: seq<Name> :: !LeadsToSerial(Effective(lines), group, p)
  {
    InEffective(lines, group);
    SafeExactly(Effective(lines), group);
  }

  lemma KeptOff(lines: seq<Line>, group: Name, p: seq<Name>)
    requires KeepsOff(lines) && IsParallel(lines, group)
    ensures !LeadsToSerial(Effective(lines), group, p)
  {
    assert !SerialChain(lines, group, p);
  }

  /** A plainly written justfile that the checker accepts passes the scheduler's check of every such group. */
  lemma AcceptedIsSafe(lines: seq<Line>, group: Name)
    requires WellFormed(lines) && PlainBelowParallel(lines) && Accepted(lines)
    requires ExpandingGroup(lines, group) && SerialGatesHaveBodies(lines)
    ensures group in Effective(lines) && I.GroupIsSafe(Effective(lines), group)
  {
    PlainAcceptedExactly(lines);
    GuardsAgree(lines, group);
    forall p: seq<Name> { KeptOff(lines, group, p); }
  }
}
