/** Mermaid blocks in Markdown: where they stand, and which edits change them. */
module Mermaid {
  import opened Common
  import opened Lines

  datatype Fence = Valid | Malformed

  function Lower(c: char): char {
    if 'A' <= c <= 'Z' then (c as int + 32) as char else c
  }

  predicate EqualIgnoringCase(a: string, b: string) {
    |a| == |b| && forall i :: 0 <= i < |a| ==> Lower(a[i]) == Lower(b[i])
  }

  predicate IsFenceMark(c: char) {
    c == '`' || c == ':'
  }

  const LANGUAGE := "mermaid"

  /** What kind of Mermaid opener a line is, if it is one. */
  function MermaidFence(line: Line): (r: Option<Fence>)
    ensures r.Some? ==> |Trim(line)| > 3
  {
    var trimmed := Trim(line);
    if |trimmed| < 3 || !(IsFenceMark(trimmed[0]) && IsFenceMark(trimmed[1]) && IsFenceMark(trimmed[2])) then None
    else
      var rest := trimmed[3..];
      var language := TrimStart(rest);
      assert |TrimStart(rest)| <= |rest| by { TrimStartShortens(rest); }
      if EqualIgnoringCase(language, LANGUAGE) then
        Some(if trimmed[..3] == "```" && rest == LANGUAGE then Valid else Malformed)
      else if |LANGUAGE| <= |language| && EqualIgnoringCase(language[..|LANGUAGE|], LANGUAGE) then Some(Malformed)
      else None
  }

  lemma TrimStartShortens(s: string)
    ensures |TrimStart(s)| <= |s|
  {
  }

  /** Exactly one spelling is valid: three backticks and the lower-case language, with white space around it only. */
  lemma ValidFenceExactly(line: Line)
    ensures MermaidFence(line) == Some(Valid) <==> Trim(line) == "```mermaid"
  {
    var trimmed := Trim(line);
    if trimmed == "```mermaid" {
      assert trimmed[..3] == "```" && trimmed[3..] == LANGUAGE;
      assert TrimStart(LANGUAGE) == LANGUAGE;
    } else if |trimmed| >= 3 {
      assert trimmed == trimmed[..3] + trimmed[3..];
      assert "```" + LANGUAGE == "```mermaid";
    }
  }

  predicate Opens(line: Line) {
    MermaidFence(line).Some?
  }

  /** The three characters that open a block and, alone on a line, close it. */
  function Marker(line: Line): string
    requires Opens(line)
  {
    Trim(line)[..3]
  }

  /** The first line at or after `i` that is the marker alone, or the end of the file. */
  function CloseIndex(lines: seq<Line>, i: nat, marker: string): (j: nat)
    requires i <= |lines|
    ensures i <= j <= |lines|
    ensures j < |lines| ==> Trim(lines[j]) == marker
    ensures forall k :: i <= k < j ==> Trim(lines[k]) != marker
    decreases |lines| - i
  {
    if i < |lines| && Trim(lines[i]) != marker then CloseIndex(lines, i + 1, marker) else i
  }

  datatype Range = Range(start: nat, end: nat, fence: Fence, closed: bool) {
    /** The first line after the range. */
    function Next(): nat {
      if closed then end + 1 else end
    }
  }

  function RangeAt(lines: seq<Line>, start: nat): (r: Range)
    requires start < |lines| && Opens(lines[start])
    ensures start < r.Next() <= |lines|
  {
    var end := CloseIndex(lines, start + 1, Marker(lines[start]));
    Range(start, end, MermaidFence(lines[start]).value, end < |lines|)
  }

  function Ranges(lines: seq<Line>, i: nat): seq<Range>
    requires i <= |lines|
    decreases |lines| - i
  {
    if i == |lines| then []
    else if Opens(lines[i]) then [RangeAt(lines, i)] + Ranges(lines, RangeAt(lines, i).Next())
    else Ranges(lines, i + 1)
  }

  method MermaidRanges(lines: seq<Line>) returns (ranges: seq<Range>)
    ensures ranges == Ranges(lines, 0)
  {
    ranges := [];
    var index := 0;
    assert [] + Ranges(lines, 0) == Ranges(lines, 0);
    while index < |lines|
      invariant index <= |lines|
      invariant ranges + Ranges(lines, index) == Ranges(lines, 0)
    {
      if Opens(lines[index]) {
        var r := ReadRange(lines, index);
        assert ranges + ([r] + Ranges(lines, r.Next())) == (ranges + [r]) + Ranges(lines, r.Next());
        ranges, index := ranges + [r], r.Next();
      } else {
        index := index + 1;
      }
    }
    assert ranges + [] == ranges;
  }

  /** An opener's range: up to its closing line, or to the end. */
  method ReadRange(lines: seq<Line>, start: nat) returns (r: Range)
    requires start < |lines| && Opens(lines[start])
    ensures r == RangeAt(lines, start)
  {
    var marker := Trim(lines[start])[..3];
    var index := FindClose(lines, start + 1, marker);
    r := Range(start, index, MermaidFence(lines[start]).value, index < |lines|);
  }

  /** The inner loop: on to the line that is the marker alone. */
  method FindClose(lines: seq<Line>, from: nat, marker: string) returns (index: nat)
    requires from <= |lines|
    ensures index == CloseIndex(lines, from, marker)
  {
    index := from;
    while index < |lines| && Trim(lines[index]) != marker
      invariant from <= index <= |lines|
      invariant CloseIndex(lines, index, marker) == CloseIndex(lines, from, marker)
    {
      index := index + 1;
    }
  }

  // ----- Where the ranges stand -----

  /** An opener, no closing marker before the end, and the marker at the end if the range is closed. */
  ghost predicate WellFormed(lines: seq<Line>, r: Range) {
    && r.start < r.end && r.Next() <= |lines| && Opens(lines[r.start])
    && r.fence == MermaidFence(lines[r.start]).value
    && (forall k :: r.start < k < r.end ==> Trim(lines[k]) != Marker(lines[r.start]))
    && (if r.closed then Trim(lines[r.end]) == Marker(lines[r.start]) else r.end == |lines|)
  }

  ghost predicate Covered(rs: seq<Range>, k: nat) {
    exists i :: 0 <= i < |rs| && rs[i].start <= k < rs[i].Next()
  }

  lemma RangeAtWellFormed(lines: seq<Line>, i: nat)
    requires i < |lines| && Opens(lines[i])
    ensures WellFormed(lines, RangeAt(lines, i))
  {
  }

  ghost predicate Placed(lines: seq<Line>, rs: seq<Range>, i: nat) {
    && (forall a :: 0 <= a < |rs| ==> i <= rs[a].start && WellFormed(lines, rs[a]))
    && (forall a, b :: 0 <= a < b < |rs| ==> rs[a].Next() <= rs[b].start)
  }

  ghost predicate CoversOpeners(lines: seq<Line>, rs: seq<Range>, i: nat) {
    forall k :: i <= k < |lines| && Opens(lines[k]) ==> Covered(rs, k)
  }

  lemma PlacedFirst(lines: seq<Line>, r: Range, rest: seq<Range>)
    requires WellFormed(lines, r) && Placed(lines, rest, r.Next())
    ensures Placed(lines, [r] + rest, r.start)
  {
    var rs := [r] + rest;
    assert rs[0] == r && rs[1..] == rest;
    assert forall a :: 0 < a < |rs| ==> rs[a] == rest[a - 1];
  }

  lemma CoversFirst(lines: seq<Line>, r: Range, rest: seq<Range>)
    requires CoversOpeners(lines, rest, r.Next())
    ensures CoversOpeners(lines, [r] + rest, r.start)
  {
    var rs := [r] + rest;
    forall k | r.start <= k < |lines| && Opens(lines[k]) ensures Covered(rs, k) {
      if k < r.Next() {
        assert rs[0] == r;
      } else {
        var a :| 0 <= a < |rest| && rest[a].start <= k < rest[a].Next();
        assert rs[a + 1] == rest[a];
      }
    }
  }

  /** Ranges are well formed, ordered and disjoint, and every opening line stands in one. */
  lemma {:induction false} RangesPartition(lines: seq<Line>, i: nat)
    requires i <= |lines|
    ensures Placed(lines, Ranges(lines, i), i) && CoversOpeners(lines, Ranges(lines, i), i)
    decreases |lines| - i
  {
    if i < |lines| {
      if Opens(lines[i]) {
        var r := RangeAt(lines, i);
        RangeAtWellFormed(lines, i);
        RangesPartition(lines, r.Next());
        PlacedFirst(lines, r, Ranges(lines, r.Next()));
        CoversFirst(lines, r, Ranges(lines, r.Next()));
      } else {
        RangesPartition(lines, i + 1);
      }
    }
  }

  // ----- Blocks -----

  function Join(lines: seq<Line>): string {
    if lines == [] then "" else if |lines| == 1 then lines[0] else lines[0] + "\n" + Join(lines[1..])
  }

  predicate Within(lines: seq<Line>, r: Range) {
    r.start <= r.Next() <= |lines|
  }

  function BlocksOf(lines: seq<Line>, rs: seq<Range>): seq<string>
    requires forall r :: r in rs ==> Within(lines, r)
  {
    if rs == [] then [] else
    assert Within(lines, rs[0]);
    [Join(lines[rs[0].start..rs[0].Next()])] + BlocksOf(lines, rs[1..])
  }

  lemma {:induction false} RangesWithin(lines: seq<Line>, i: nat)
    requires i <= |lines|
    ensures forall r :: r in Ranges(lines, i) ==> Within(lines, r)
    decreases |lines| - i
  {
    if i < |lines| {
      if Opens(lines[i]) { RangesWithin(lines, RangeAt(lines, i).Next()); } else { RangesWithin(lines, i + 1); }
    }
  }

  function DiagramBlocks(lines: seq<Line>): seq<string> {
    RangesWithin(lines, 0);
    BlocksOf(lines, Ranges(lines, 0))
  }

  predicate ChangedDiagramBlocks(before: seq<Line>, after: seq<Line>) {
    DiagramBlocks(before) != DiagramBlocks(after)
  }

  ghost predicate AllClosed(rs: seq<Range>) {
    forall r :: r in rs ==> r.closed
  }

  // ----- Appending lines -----

  /** A closing line found in `a` is found there whatever follows. */
  lemma {:induction false} CloseIndexPrefix(a: seq<Line>, b: seq<Line>, i: nat, marker: string)
    requires i <= |a| && CloseIndex(a, i, marker) < |a|
    ensures CloseIndex(a + b, i, marker) == CloseIndex(a, i, marker)
    decreases |a| - i
  {
    if i < |a| && Trim(a[i]) != marker {
      CloseIndexPrefix(a, b, i + 1, marker);
    }
  }

  lemma {:induction false} CloseIndexSuffix(a: seq<Line>, b: seq<Line>, i: nat, marker: string)
    requires i <= |b|
    ensures CloseIndex(a + b, |a| + i, marker) == |a| + CloseIndex(b, i, marker)
    decreases |b| - i
  {
    if i < |b| && Trim(b[i]) != marker {
      CloseIndexSuffix(a, b, i + 1, marker);
    }
  }

  /** While every block of `a` closes, the blocks of the longer text are those of `a`, then those found from its end. */
  lemma {:induction false} BlocksPrefix(a: seq<Line>, b: seq<Line>, i: nat)
    requires i <= |a| && AllClosed(Ranges(a, i))
    ensures Blocks(a + b, i) == Blocks(a, i) + Blocks(a + b, |a|)
    decreases |a| - i
  {
    if i < |a| {
      if Opens(a[i]) {
        var r := RangeAt(a, i);
        assert r in Ranges(a, i);
        CloseIndexPrefix(a, b, i + 1, Marker(a[i]));
        assert RangeAt(a + b, i) == r;
        assert (a + b)[r.start..r.Next()] == a[r.start..r.Next()];
        assert forall s :: s in Ranges(a, r.Next()) ==> s in Ranges(a, i);
        BlocksPrefix(a, b, r.Next());
      } else {
        BlocksPrefix(a, b, i + 1);
      }
    }
  }

  lemma RangeAtSuffix(a: seq<Line>, b: seq<Line>, i: nat)
    requires i < |b| && Opens(b[i])
    ensures Opens((a + b)[|a| + i])
    ensures var r, s := RangeAt(b, i), RangeAt(a + b, |a| + i);
      s.Next() == |a| + r.Next() && (a + b)[s.start..s.Next()] == b[r.start..r.Next()]
  {
    assert (a + b)[|a| + i] == b[i];
    CloseIndexSuffix(a, b, i + 1, Marker(b[i]));
    SliceSuffix(a, b, i, RangeAt(b, i).Next());
  }

  lemma SliceSuffix(a: seq<Line>, b: seq<Line>, i: nat, j: nat)
    requires i <= j <= |b|
    ensures (a + b)[|a| + i..|a| + j] == b[i..j]
  {
  }

  lemma {:induction false} BlocksSuffix(a: seq<Line>, b: seq<Line>, i: nat)
    requires i <= |b|
    ensures Blocks(a + b, |a| + i) == Blocks(b, i)
    decreases |b| - i
  {
    if i < |b| {
      assert (a + b)[|a| + i] == b[i];
      if Opens(b[i]) {
        RangeAtSuffix(a, b, i);
        BlocksSuffix(a, b, RangeAt(b, i).Next());
      } else {
        BlocksSuffix(a, b, i + 1);
      }
    }
  }

  /** The blocks found from line `i` on, one by one. */
  function Blocks(lines: seq<Line>, i: nat): seq<string>
    requires i <= |lines|
    decreases |lines| - i
  {
    if i == |lines| then []
    else if Opens(lines[i]) then
      var r := RangeAt(lines, i);
      [Join(lines[r.start..r.Next()])] + Blocks(lines, r.Next())
    else Blocks(lines, i + 1)
  }

  lemma {:induction false} BlocksAreRanges(lines: seq<Line>, i: nat)
    requires i <= |lines|
    ensures forall r :: r in Ranges(lines, i) ==> Within(lines, r)
    ensures Blocks(lines, i) == BlocksOf(lines, Ranges(lines, i))
    decreases |lines| - i
  {
    RangesWithin(lines, i);
    if i < |lines| {
      if Opens(lines[i]) { BlocksAreRanges(lines, RangeAt(lines, i).Next()); } else { BlocksAreRanges(lines, i + 1); }
    }
  }

  /** Once every block of `a` is closed, appending lines appends their blocks. */
  lemma BlocksAppend(a: seq<Line>, b: seq<Line>)
    requires AllClosed(Ranges(a, 0))
    ensures DiagramBlocks(a + b) == DiagramBlocks(a) + DiagramBlocks(b)
  {
    BlocksPrefix(a, b, 0);
    BlocksSuffix(a, b, 0);
    BlocksAreRanges(a, 0);
    BlocksAreRanges(b, 0);
    BlocksAreRanges(a + b, 0);
  }

  lemma {:induction false} NoOpenersNoRanges(lines: seq<Line>, i: nat)
    requires i <= |lines| && forall k :: i <= k < |lines| ==> !Opens(lines[k])
    ensures Ranges(lines, i) == []
    decreases |lines| - i
  {
    if i < |lines| { NoOpenersNoRanges(lines, i + 1); }
  }

  ghost predicate NoOpeners(lines: seq<Line>) {
    forall k :: 0 <= k < |lines| ==> !Opens(lines[k])
  }

  /** Rewriting, adding or deleting non-opening lines outside the ranges never selects rendering. */
  lemma OutsideEditsKeepBlocks(a: seq<Line>, old': seq<Line>, new': seq<Line>, b: seq<Line>)
    requires AllClosed(Ranges(a, 0)) && NoOpeners(old') && NoOpeners(new')
    ensures !ChangedDiagramBlocks(a + old' + b, a + new' + b)
  {
    EditedBlocks(a, old', b);
    EditedBlocks(a, new', b);
  }

  lemma EditedBlocks(a: seq<Line>, x: seq<Line>, b: seq<Line>)
    requires AllClosed(Ranges(a, 0)) && NoOpeners(x)
    ensures DiagramBlocks(a + x + b) == DiagramBlocks(a) + DiagramBlocks(b)
  {
    assert a + x + b == a + (x + b);
    NoOpenersNoRanges(x, 0);
    BlocksAppend(x, b);
    BlocksAppend(a, x + b);
  }
}
