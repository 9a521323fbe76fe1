/** Which edits select rendering, said of the lines alone. */
module MermaidEdits {
  import opened Common
  import opened Lines
  import opened Mermaid

  // ----- Openers -----

  /** Three fence marks, white space up to character `i`, and there the language in any case. */
  ghost predicate OpensAt(line: string, i: int) {
    && 3 <= i <= |line| - |LANGUAGE|
    && IsFenceMark(line[0]) && IsFenceMark(line[1]) && IsFenceMark(line[2])
    && (forall k :: 3 <= k < i ==> IsWhitespace(line[k]))
    && EqualIgnoringCase(line[i..i + |LANGUAGE|], LANGUAGE)
  }

  /** White space from character 3 up to `i`, and none there. */
  ghost predicate SpaceUpTo(t: string, i: int) {
    3 <= i <= |t| && (forall k :: 3 <= k < i ==> IsWhitespace(t[k])) && (i < |t| ==> !IsWhitespace(t[i]))
  }

  lemma SpaceEndsOnce(t: string, i: int, j: int)
    requires SpaceUpTo(t, i) && SpaceUpTo(t, j)
    ensures i == j
  {
  }

  lemma {:induction false} TrimStartIsRest(s: string) returns (n: nat)
    ensures n <= |s| && TrimStart(s) == s[n..] && forall k :: 0 <= k < n ==> IsWhitespace(s[k])
    ensures n < |s| ==> !IsWhitespace(s[n])
  {
    if s != "" && IsWhitespace(s[0]) {
      n := TrimStartIsRest(s[1..]);
      n := n + 1;
    } else {
      n := 0;
    }
  }

  lemma AfterSpace(t: string) returns (i: nat)
    requires |t| >= 3
    ensures SpaceUpTo(t, i) && TrimStart(t[3..]) == t[i..]
  {
    var n := TrimStartIsRest(t[3..]);
    i := n + 3;
    assert forall k :: 3 <= k < i ==> t[k] == t[3..][k - 3];
  }

  lemma LanguageIsNoSpace(t: string, i: int)
    requires OpensAt(t, i)
    ensures SpaceUpTo(t, i)
  {
    var s := t[i..i + |LANGUAGE|];
    assert Lower(s[0]) == Lower(LANGUAGE[0]) == 'm';
  }

  /** A line opens a block exactly when, trimmed, it holds the marks and then the language. */
  lemma OpensExactly(line: Line)
    ensures Opens(line) <==> exists i :: OpensAt(Trim(line), i)
  {
    var t := Trim(line);
    if |t| >= 3 {
      var n := AfterSpace(t);
      assert |t| - n >= |LANGUAGE| ==> t[n..][..|LANGUAGE|] == t[n..n + |LANGUAGE|];
      if Opens(line) {
        assert |t[n..]| == |LANGUAGE| ==> t[n..][..|LANGUAGE|] == t[n..];
        assert OpensAt(t, n);
      }
      forall i | OpensAt(t, i) ensures Opens(line) {
        LanguageIsNoSpace(t, i);
        SpaceEndsOnce(t, i, n);
      }
    }
  }

  // ----- Slices -----

  ghost function SliceOf(lines: seq<Line>, r: Range): seq<Line> {
    if Within(lines, r) then lines[r.start..r.Next()] else []
  }

  /** The lines that the ranges cut out, block by block. */
  ghost function Slices(lines: seq<Line>): seq<seq<Line>> {
    var rs := Ranges(lines, 0);
    seq(|rs|, k requires 0 <= k < |rs| => SliceOf(lines, rs[k]))
  }

  /** No line holds a line break. */
  ghost predicate Plain(lines: seq<Line>) {
    forall line :: line in lines ==> '\n' !in line
  }

  lemma {:induction false} JoinFirst(lines: seq<Line>)
    requires lines != [] && Plain(lines)
    ensures lines[0] <= Join(lines)
    ensures |lines| == 1 ==> Join(lines) == lines[0]
    ensures |lines| > 1 ==> |Join(lines)| > |lines[0]| && Join(lines)[|lines[0]|] == '\n'
                            && Join(lines)[|lines[0]| + 1..] == Join(lines[1..])
  {
    if |lines| > 1 { assert Join(lines) == lines[0] + "\n" + Join(lines[1..]); }
  }

  /** What stands before the first line break, or the whole text. */
  ghost predicate FirstOf(s: string, line: string) {
    line <= s && '\n' !in line && (|line| < |s| ==> s[|line|] == '\n')
  }

  lemma FirstIsUnique(s: string, x: string, y: string)
    requires FirstOf(s, x) && FirstOf(s, y)
    ensures x == y
  {
    forall j | 0 <= j < |x| ensures s[j] == x[j] && s[j] != '\n' { assert x[j] in x; }
    forall j | 0 <= j < |y| ensures s[j] == y[j] && s[j] != '\n' { assert y[j] in y; }
  }

  /** Joining loses nothing. */
  lemma {:induction false} JoinIsInjective(a: seq<Line>, b: seq<Line>)
    requires a != [] && b != [] && Plain(a) && Plain(b) && Join(a) == Join(b)
    ensures a == b
    decreases |a|
  {
    JoinFirst(a);
    JoinFirst(b);
    assert a[0] in a && b[0] in b;
    FirstIsUnique(Join(a), a[0], b[0]);
    assert a == [a[0]] + a[1..] && b == [b[0]] + b[1..];
    if |a| > 1 { JoinIsInjective(a[1..], b[1..]); }
  }

  lemma {:induction false} BlocksJoin(lines: seq<Line>, rs: seq<Range>)
    requires forall r :: r in rs ==> Within(lines, r)
    ensures |BlocksOf(lines, rs)| == |rs|
    ensures forall k :: 0 <= k < |rs| ==> BlocksOf(lines, rs)[k] == Join(SliceOf(lines, rs[k]))
  {
    if rs != [] {
      assert rs[0] in rs && forall r :: r in rs[1..] ==> r in rs;
      BlocksJoin(lines, rs[1..]);
      assert forall k :: 0 < k < |rs| ==> rs[k] == rs[1..][k - 1];
    }
  }

  lemma SlicesJoin(lines: seq<Line>)
    ensures |DiagramBlocks(lines)| == |Slices(lines)|
    ensures forall k :: 0 <= k < |Slices(lines)| ==> DiagramBlocks(lines)[k] == Join(Slices(lines)[k])
  {
    RangesWithin(lines, 0);
    BlocksJoin(lines, Ranges(lines, 0));
  }

  lemma SlicesArePlain(lines: seq<Line>, k: nat)
    requires k < |Slices(lines)|
    ensures Slices(lines)[k] != [] && (Plain(lines) ==> Plain(Slices(lines)[k]))
  {
    var r := Ranges(lines, 0)[k];
    RangesPartition(lines, 0);
    assert WellFormed(lines, r);
    assert Slices(lines)[k] == lines[r.start..r.Next()];
  }

  /** Rendering is selected exactly when the two texts cut out different lines. */
  lemma ChangedExactly(a: seq<Line>, b: seq<Line>)
    requires Plain(a) && Plain(b)
    ensures ChangedDiagramBlocks(a, b) <==> Slices(a) != Slices(b)
  {
    SlicesJoin(a);
    SlicesJoin(b);
    if !ChangedDiagramBlocks(a, b) {
      forall k | 0 <= k < |Slices(a)| ensures Slices(a)[k] == Slices(b)[k] {
        SlicesArePlain(a, k);
        SlicesArePlain(b, k);
        JoinIsInjective(Slices(a)[k], Slices(b)[k]);
      }
    }
  }

  // ----- A rewritten line -----

  ghost predicate SameFrom(a: seq<Line>, b: seq<Line>, i: nat) {
    |a| == |b| && forall k :: i <= k < |a| ==> a[k] == b[k]
  }

  lemma {:induction false} SameClose(a: seq<Line>, b: seq<Line>, i: nat, marker: string)
    requires i <= |a| == |b| && CloseIndex(a, i, marker) <= |b|
    requires forall k :: i <= k < |a| ==> (Trim(a[k]) == marker <==> Trim(b[k]) == marker)
    ensures CloseIndex(a, i, marker) == CloseIndex(b, i, marker)
    decreases |a| - i
  {
    if i < |a| && Trim(a[i]) != marker { SameClose(a, b, i + 1, marker); }
  }

  lemma {:induction false} SameRanges(a: seq<Line>, b: seq<Line>, i: nat)
    requires i <= |a| && SameFrom(a, b, i)
    ensures Ranges(a, i) == Ranges(b, i)
    decreases |a| - i
  {
    if i < |a| {
      if Opens(a[i]) {
        SameClose(a, b, i + 1, Marker(a[i]));
        SameRanges(a, b, RangeAt(a, i).Next());
      } else {
        SameRanges(a, b, i + 1);
      }
    }
  }

  /** Line `k` stands strictly inside the closed range, and neither spelling of it is the marker. */
  ghost predicate Inside(lines: seq<Line>, r: Range, k: nat, line: Line) {
    && r.closed && WellFormed(lines, r) && r.start < k < r.end && Trim(line) != Marker(lines[r.start])
  }

  lemma RangeKept(lines: seq<Line>, i: nat, k: nat, line: Line)
    requires i < |lines| && Opens(lines[i]) && Inside(lines, RangeAt(lines, i), k, line)
    ensures Opens(lines[k := line][i]) && RangeAt(lines[k := line], i) == RangeAt(lines, i)
  {
    var edited, r, marker := lines[k := line], RangeAt(lines, i), Marker(lines[i]);
    forall j | i + 1 <= j < |lines| ensures Trim(lines[j]) == marker <==> Trim(edited[j]) == marker {}
    SameClose(lines, edited, i + 1, marker);
  }

  /** Rewriting a line inside a closed range moves no range. */
  lemma {:induction false} RangesKept(lines: seq<Line>, i: nat, r: Range, k: nat, line: Line)
    requires i <= |lines| && r in Ranges(lines, i) && Inside(lines, r, k, line)
    ensures Ranges(lines[k := line], i) == Ranges(lines, i)
    decreases |lines| - i
  {
    var edited := lines[k := line];
    RangesPartition(lines, i);
    if Opens(lines[i]) {
      var first := RangeAt(lines, i);
      if r == first {
        RangeKept(lines, i, k, line);
        SameRanges(lines, edited, r.Next());
      } else {
        assert r in Ranges(lines, first.Next());
        RangesPartition(lines, first.Next());
        assert first.Next() <= r.start < k;
        RangesKept(lines, first.Next(), r, k, line);
        UntouchedRange(lines, i, k, line);
      }
    } else {
      RangesPartition(lines, i + 1);
      RangesKept(lines, i + 1, r, k, line);
    }
  }

  lemma {:induction false} UntouchedClose(lines: seq<Line>, i: nat, marker: string, k: nat, line: Line)
    requires i <= |lines| && CloseIndex(lines, i, marker) < k < |lines|
    ensures CloseIndex(lines[k := line], i, marker) == CloseIndex(lines, i, marker)
    decreases |lines| - i
  {
    if Trim(lines[i]) != marker { UntouchedClose(lines, i + 1, marker, k, line); }
  }

  lemma UntouchedRange(lines: seq<Line>, i: nat, k: nat, line: Line)
    requires i < |lines| && Opens(lines[i]) && RangeAt(lines, i).Next() <= k < |lines|
    ensures Opens(lines[k := line][i]) && RangeAt(lines[k := line], i) == RangeAt(lines, i)
  {
    UntouchedClose(lines, i + 1, Marker(lines[i]), k, line);
  }

  lemma SlicesDiffer(lines: seq<Line>, n: nat, k: nat, line: Line)
    requires n < |Ranges(lines, 0)| && k < |lines| && line != lines[k]
    requires Ranges(lines[k := line], 0) == Ranges(lines, 0)
    requires Ranges(lines, 0)[n].start <= k < Ranges(lines, 0)[n].Next() <= |lines|
    ensures Slices(lines)[n] != Slices(lines[k := line])[n]
  {
    var r := Ranges(lines, 0)[n];
    assert SliceOf(lines, r)[k - r.start] == lines[k];
    assert SliceOf(lines[k := line], r)[k - r.start] == line;
  }

  /** A different line strictly inside a closed block selects rendering. */
  lemma RewriteSelects(lines: seq<Line>, r: Range, k: nat, line: Line)
    requires Plain(lines) && '\n' !in line && r in Ranges(lines, 0) && Inside(lines, r, k, line) && line != lines[k]
    ensures ChangedDiagramBlocks(lines, lines[k := line])
  {
    var edited := lines[k := line];
    RangesKept(lines, 0, r, k, line);
    forall l | l in edited ensures '\n' !in l { assert l == line || l in lines; }
    ChangedExactly(lines, edited);
    var n :| 0 <= n < |Ranges(lines, 0)| && Ranges(lines, 0)[n] == r;
    SlicesDiffer(lines, n, k, line);
  }

  // ----- Appended lines -----

  /** Appending to closed blocks selects rendering exactly when a block is appended. */
  lemma AppendToClosed(a: seq<Line>, b: seq<Line>)
    requires AllClosed(Ranges(a, 0))
    ensures ChangedDiagramBlocks(a, a + b) <==> !NoOpeners(b)
  {
    BlocksAppend(a, b);
    SlicesJoin(b);
    if NoOpeners(b) {
      NoOpenersNoRanges(b, 0);
    } else {
      var k :| 0 <= k < |b| && Opens(b[k]);
      RangesPartition(b, 0);
      assert Covered(Ranges(b, 0), k);
    }
  }

  /** The close sought in a longer text is no earlier than the end of the shorter one, if none was found there. */
  lemma {:induction false} OpenStaysOpen(a: seq<Line>, b: seq<Line>, i: nat, marker: string)
    requires i <= |a| && CloseIndex(a, i, marker) == |a|
    ensures CloseIndex(a + b, i, marker) >= |a|
    decreases |a| - i
  {
    if i < |a| { OpenStaysOpen(a, b, i + 1, marker); }
  }

  /** In a text that ends inside a block, the ranges before that block stay, and the block takes in what follows. */
  lemma {:induction false} LastGrows(a: seq<Line>, b: seq<Line>, i: nat) returns (n: nat)
    requires i <= |a| && b != [] && !AllClosed(Ranges(a, i))
    ensures n < |Ranges(a, i)| && n < |Ranges(a + b, i)|
    ensures Ranges(a + b, i)[n].start == Ranges(a, i)[n].start
    ensures Ranges(a, i)[n].Next() == |a| < Ranges(a + b, i)[n].Next()
    decreases |a| - i
  {
    if Opens(a[i]) {
      var r := RangeAt(a, i);
      if r.closed {
        CloseIndexPrefix(a, b, i + 1, Marker(a[i]));
        n := LastGrows(a, b, r.Next());
        n := n + 1;
      } else {
        OpenStaysOpen(a, b, i + 1, Marker(a[i]));
        n := 0;
      }
    } else {
      n := LastGrows(a, b, i + 1);
    }
  }

  /** Appending any line to a text that ends inside a block selects rendering. */
  lemma AppendToOpen(a: seq<Line>, b: seq<Line>)
    requires Plain(a + b) && !AllClosed(Ranges(a, 0)) && b != []
    ensures ChangedDiagramBlocks(a, a + b)
  {
    var n := LastGrows(a, b, 0);
    assert Plain(a) by { assert forall l :: l in a ==> l in a + b; }
    ChangedExactly(a, a + b);
    RangesWithin(a, 0);
    RangesWithin(a + b, 0);
    var r, s := Ranges(a, 0)[n], Ranges(a + b, 0)[n];
    assert r in Ranges(a, 0) && s in Ranges(a + b, 0);
    assert |Slices(a)[n]| == r.Next() - r.start && |Slices(a + b)[n]| == s.Next() - s.start;
  }
}
