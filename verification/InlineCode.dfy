/** Two separately written removers of inline code spans (section 6.1 of CommonMark 0.31.2), per line. */
module InlineCode {
  import opened Common

  type Bytes = seq<byte>

  const TICK: byte := 96

  function Shift(n: nat, r: Option<nat>): Option<nat> {
    if r.None? then None else Some(n + r.value)
  }

  /** The first backtick. */
  function FindTick(s: Bytes): (r: Option<nat>)
    ensures r.Some? ==> r.value < |s|
  {
    if s == [] then None
    else if s[0] == TICK then Some(0)
    else Shift(1, FindTick(s[1..]))
  }

  /** The number of backticks at the start. */
  function LeadingTicks(s: Bytes): (n: nat)
    ensures n <= |s|
  {
    if s != [] && s[0] == TICK then 1 + LeadingTicks(s[1..]) else 0
  }

  lemma {:induction false} FindTickIsFirst(s: Bytes)
    ensures FindTick(s).Some? ==> s[FindTick(s).value] == TICK
    ensures forall i :: 0 <= i < |s| && (FindTick(s).Some? ==> i < FindTick(s).value) ==> s[i] != TICK
  {
    if s != [] && s[0] != TICK {
      FindTickIsFirst(s[1..]);
      assert forall i :: 0 < i < |s| ==> s[i] == s[1..][i - 1];
    }
  }

  lemma {:induction false} LeadingTicksAreAll(s: Bytes)
    ensures forall i :: 0 <= i < LeadingTicks(s) ==> s[i] == TICK
    ensures LeadingTicks(s) < |s| ==> s[LeadingTicks(s)] != TICK
  {
    if s != [] && s[0] == TICK {
      LeadingTicksAreAll(s[1..]);
      assert forall i :: 0 < i < |s| ==> s[i] == s[1..][i - 1];
    }
  }

  lemma OpensWithTick(s: Bytes)
    requires FindTick(s).Some?
    ensures LeadingTicks(s[FindTick(s).value..]) > 0
  {
    FindTickIsFirst(s);
  }

  /** `s[p..p + width]` is a maximal run of backticks. */
  ghost predicate IsRun(s: Bytes, p: nat, width: nat) {
    && width > 0 && p + width <= |s|
    && (forall i :: p <= i < p + width ==> s[i] == TICK)
    && (p > 0 ==> s[p - 1] != TICK)
    && (p + width < |s| ==> s[p + width] != TICK)
  }

  ghost predicate FirstRun(s: Bytes, p: nat, width: nat) {
    IsRun(s, p, width) && forall q: nat :: q < p ==> !IsRun(s, q, width)
  }

  /** Where the first run of that width starts, going run by run. */
  function CloseOf(s: Bytes, width: nat): (r: Option<nat>)
    ensures r.Some? ==> r.value + width <= |s|
  {
    if s == [] then None
    else if s[0] != TICK then Shift(1, CloseOf(s[1..], width))
    else if LeadingTicks(s) == width then Some(0)
    else Shift(LeadingTicks(s), CloseOf(s[LeadingTicks(s)..], width))
  }

  ghost predicate NoRunBetween(s: Bytes, from: nat, to: nat, width: nat) {
    forall q: nat :: from <= q < to ==> !IsRun(s, q, width)
  }

  /** The position is not inside a run of backticks. */
  ghost predicate BetweenRuns(s: Bytes, at: nat) {
    0 < at < |s| && s[at] == TICK ==> s[at - 1] != TICK
  }

  /** From `at` on, the first maximal run of that width starts `r` bytes later, or there is none. */
  ghost predicate FirstFrom(s: Bytes, at: nat, r: Option<nat>, width: nat) {
    if r.Some? then IsRun(s, at + r.value, width) && NoRunBetween(s, at, at + r.value, width)
    else NoRunBetween(s, at, |s|, width)
  }

  lemma FirstFromLater(s: Bytes, at: nat, n: nat, r: Option<nat>, width: nat)
    requires NoRunBetween(s, at, at + n, width) && FirstFrom(s, at + n, r, width)
    ensures FirstFrom(s, at, Shift(n, r), width)
  {
  }

  lemma {:induction false} CloseIsFirstRun(s: Bytes, at: nat, width: nat)
    requires width > 0 && at <= |s| && BetweenRuns(s, at)
    ensures FirstFrom(s, at, CloseOf(s[at..], width), width)
    decreases |s| - at
  {
    if at < |s| {
      var n := if s[at] == TICK then LeadingTicks(s[at..]) else 1;
      if s[at] == TICK { RunAt(s, at); }
      if s[at] == TICK && n == width {
        assert CloseOf(s[at..], width) == Some(0);
      } else {
        assert s[at..][n..] == s[at + n..];
        SkippedRun(s, at, n, width);
        CloseIsFirstRun(s, at + n, width);
        FirstFromLater(s, at, n, CloseOf(s[at + n..], width), width);
      }
    }
  }

  lemma SkippedRun(s: Bytes, at: nat, n: nat, width: nat)
    requires at + n <= |s| && n > 0
    requires (s[at] != TICK && n == 1) || (IsRun(s, at, n) && n != width)
    ensures NoRunBetween(s, at, at + n, width) && BetweenRuns(s, at + n)
  {
    if s[at] == TICK { WrongWidth(s, at, at + n, width); }
  }

  lemma RunAt(s: Bytes, at: nat)
    requires at < |s| && s[at] == TICK && BetweenRuns(s, at)
    ensures IsRun(s, at, LeadingTicks(s[at..]))
  {
    var t := s[at..];
    LeadingTicksAreAll(t);
    forall i | at <= i < at + LeadingTicks(t) ensures s[i] == TICK {
      assert s[i] == t[i - at];
    }
  }

  lemma CloseOfIsFirst(s: Bytes, width: nat)
    requires width > 0
    ensures CloseOf(s, width).Some? ==> FirstRun(s, CloseOf(s, width).value, width)
    ensures CloseOf(s, width).None? ==> forall q: nat :: !IsRun(s, q, width)
  {
    CloseIsFirstRun(s, 0, width);
    assert s[0..] == s;
  }

  lemma CloseIs(s: Bytes, p: nat, width: nat)
    requires FirstRun(s, p, width)
    ensures CloseOf(s, width) == Some(p)
  {
    CloseOfIsFirst(s, width);
    assert IsRun(s, p, width);
    var r := CloseOf(s, width);
    assert r.Some? && r.value >= p && p >= r.value;
  }

  /** What follows the first code span: it opens at a run and closes at the next run of the same width. */
  function AfterSpan(s: Bytes): (r: Option<Bytes>)
    ensures r.Some? ==> |r.value| < |s|
  {
    if FindTick(s).None? then None else
    OpensWithTick(s);
    var opening := s[FindTick(s).value..];
    var width := LeadingTicks(opening);
    var close := CloseOf(opening[width..], width);
    if close.None? then None else Some(opening[width..][close.value + width..])
  }

  /** The text outside code spans. */
  function Visible(s: Bytes): Bytes
    decreases |s|
  {
    if AfterSpan(s).None? || FindTick(s).None? then s
    else s[..FindTick(s).value] + Visible(AfterSpan(s).value)
  }

  // ----- The Markdown checker's remover: it walks byte by byte and reports where the run starts -----

  method ExactRun(input: Bytes, width: nat) returns (r: Option<nat>)
    requires width > 0
    ensures r == CloseOf(input, width)
  {
    var index: nat := 0;
    assert input[0..] == input;
    while index < |input|
      invariant index <= |input|
      invariant CloseOf(input, width) == Shift(index, CloseOf(input[index..], width))
    {
      if input[index] != TICK {
        PassTo(input, index, index + 1, width);
        index := index + 1;
      } else {
        var start := index;
        index := RunEnd(input, start);
        if index - start == width {
          CloseAtTick(input[start..], width);
          return Some(start);
        }
        PassTo(input, start, index, width);
      }
    }
    return None;
  }

  /** A byte that is no backtick, and a run of another width, are passed over. */
  lemma PassOver(s: Bytes, from: nat, to: nat, width: nat)
    requires from < to <= |s|
    requires if s[from] == TICK then LeadingTicks(s[from..]) == to - from != width else to == from + 1
    ensures CloseOf(s[from..], width) == Shift(to - from, CloseOf(s[to..], width))
  {
    DropTwice(s, from, to - from);
  }

  lemma PassTo(s: Bytes, from: nat, to: nat, width: nat)
    requires from < to <= |s|
    requires if s[from] == TICK then LeadingTicks(s[from..]) == to - from != width else to == from + 1
    requires CloseOf(s, width) == Shift(from, CloseOf(s[from..], width))
    ensures CloseOf(s, width) == Shift(to, CloseOf(s[to..], width))
  {
    PassOver(s, from, to, width);
    ShiftTwice(from, to - from, CloseOf(s[to..], width));
  }

  lemma ShiftTwice(a: nat, b: nat, r: Option<nat>)
    ensures Shift(a, Shift(b, r)) == Shift(a + b, r)
  {
  }

  method RunEnd(input: Bytes, start: nat) returns (index: nat)
    requires start < |input| && input[start] == TICK
    ensures start < index <= |input| && LeadingTicks(input[start..]) == index - start
  {
    index := start;
    while index < |input| && input[index] == TICK
      invariant start <= index <= |input|
      invariant LeadingTicks(input[start..]) == index - start + LeadingTicks(input[index..])
    {
      assert input[index..][1..] == input[index + 1..];
      index := index + 1;
    }
  }

  lemma WrongWidth(s: Bytes, start: nat, end: nat, width: nat)
    requires start < end <= |s| && end - start != width
    requires forall i :: start <= i < end ==> s[i] == TICK
    requires end < |s| ==> s[end] != TICK
    ensures forall q: nat :: start <= q < end ==> !IsRun(s, q, width)
  {
    forall q: nat | start <= q < end ensures !IsRun(s, q, width) {
      if q > start {
        assert s[q - 1] == TICK;
      } else if start + width < end {
        assert s[start + width] == TICK;
      }
    }
  }

  method WithoutInlineCode(line: Bytes) returns (visible: Bytes)
    ensures visible == Visible(line)
  {
    visible := [];
    var remainder := line;
    assert [] + Visible(line) == Visible(line);
    while FindTick(remainder).Some?
      invariant visible + Visible(remainder) == Visible(line)
      decreases |remainder|
    {
      var start := FindTick(remainder).value;
      OpensWithTick(remainder);
      var opening := remainder[start..];
      var width := LeadingTicks(opening);
      var code := opening[width..];
      var end := ExactRun(code, width);
      if end.None? {
        assert AfterSpan(remainder) == None;
        VisibleUnclosed(remainder, visible);
        visible := visible + remainder[..start] + opening;
        return;
      }
      assert AfterSpan(remainder) == Some(code[end.value + width..]);
      VisibleSpan(remainder, visible);
      visible := visible + remainder[..start];
      remainder := code[end.value + width..];
    }
    visible := visible + remainder;
  }

  /** An opener without a closing run ends the work: what is left is visible as it stands. */
  lemma VisibleUnclosed(s: Bytes, done: Bytes)
    requires FindTick(s).Some? && AfterSpan(s).None?
    ensures done + Visible(s) == done + s[..FindTick(s).value] + s[FindTick(s).value..]
  {
    assert Visible(s) == s;
    Rejoin(done, s, FindTick(s).value);
  }

  lemma Rejoin(done: Bytes, s: Bytes, n: nat)
    requires n <= |s|
    ensures done + s == done + s[..n] + s[n..]
  {
  }

  lemma VisibleSpan(s: Bytes, done: Bytes)
    requires FindTick(s).Some? && AfterSpan(s).Some?
    ensures done + Visible(s) == done + s[..FindTick(s).value] + Visible(AfterSpan(s).value)
  {
  }

  // ----- The status checker's remover: it searches a shrinking rest and reports where the run ends -----

  method ClosingRun(afterOpen: Bytes, run: nat) returns (closing: Option<nat>)
    requires run > 0
    ensures closing == Shift(run, CloseOf(afterOpen, run))
  {
    var consumed: nat := 0;
    var search := afterOpen;
    while FindTick(search).Some?
      invariant CloseOf(afterOpen, run) == Shift(consumed, CloseOf(search, run))
      decreases |search|
    {
      var candidate, width := Candidate(search, run);
      if width == run { return Some(consumed + candidate + width); }
      consumed := consumed + (candidate + width);
      search := search[candidate + width..];
    }
    NoTickNoClose(search, run);
    return None;
  }

  /** The next run in the searched text and its width. */
  method Candidate(search: Bytes, run: nat) returns (candidate: nat, width: nat)
    requires FindTick(search).Some?
    ensures 0 < width && candidate + width <= |search|
    ensures width == run ==> CloseOf(search, run) == Some(candidate)
    ensures width != run ==> CloseOf(search, run) == Shift(candidate + width, CloseOf(search[candidate + width..], run))
  {
    OpensWithTick(search);
    candidate := FindTick(search).value;
    width := LeadingTicks(search[candidate..]);
    CloseAtCandidate(search, candidate, width, run);
  }

  lemma NoTickNoClose(s: Bytes, run: nat)
    requires FindTick(s).None?
    ensures CloseOf(s, run).None?
  {
    FindTickIsFirst(s);
    CloseSkipsText(s, |s|, run);
    assert s[|s|..] == [];
  }

  /** The closing run is at the candidate or past it. */
  lemma CloseAtCandidate(s: Bytes, candidate: nat, width: nat, run: nat)
    requires FindTick(s) == Some(candidate) && width == LeadingTicks(s[candidate..])
    ensures candidate + width <= |s|
    ensures width == run ==> CloseOf(s, run) == Some(candidate)
    ensures width != run ==> CloseOf(s, run) == Shift(candidate + width, CloseOf(s[candidate + width..], run))
  {
    FindTickIsFirst(s);
    CloseSkipsText(s, candidate, run);
    CloseAtRun(s, candidate, width, run);
    ShiftTwice(candidate, width, CloseOf(s[candidate + width..], run));
  }

  lemma CloseAtRun(s: Bytes, at: nat, width: nat, run: nat)
    requires at < |s| && s[at] == TICK && width == LeadingTicks(s[at..])
    ensures at + width <= |s|
    ensures CloseOf(s[at..], run) == if width == run then Some(0) else Shift(width, CloseOf(s[at + width..], run))
  {
    CloseAtTick(s[at..], run);
    DropTwice(s, at, width);
  }

  lemma CloseAtTick(t: Bytes, run: nat)
    requires t != [] && t[0] == TICK
    ensures var width := LeadingTicks(t);
      CloseOf(t, run) == if width == run then Some(0) else Shift(width, CloseOf(t[width..], run))
  {
  }

  lemma DropTwice(s: Bytes, a: nat, b: nat)
    requires a + b <= |s|
    ensures s[a..][b..] == s[a + b..]
  {
  }

  lemma {:induction false} CloseSkipsText(s: Bytes, n: nat, width: nat)
    requires n <= |s| && forall i :: 0 <= i < n ==> s[i] != TICK
    ensures CloseOf(s, width) == Shift(n, CloseOf(s[n..], width))
  {
    if n > 0 {
      assert s[1..][n - 1..] == s[n..];
      CloseSkipsText(s[1..], n - 1, width);
    } else {
      assert s[0..] == s;
    }
  }

  method StripInlineCode(line: Bytes) returns (output: Bytes)
    ensures output == Visible(line)
  {
    output := [];
    var rest := line;
    assert [] + Visible(line) == Visible(line);
    while FindTick(rest).Some?
      invariant output + Visible(rest) == Visible(line)
      decreases |rest|
    {
      var start := FindTick(rest).value;
      OpensWithTick(rest);
      var run := LeadingTicks(rest[start..]);
      var afterOpen := rest[start..][run..];
      var closing := ClosingRun(afterOpen, run);
      if closing.None? {
        assert AfterSpan(rest) == None;
        VisibleUnclosed(rest, output);
        output := output + rest[..start] + rest[start..];
        return;
      }
      assert AfterSpan(rest) == Some(afterOpen[closing.value..]);
      VisibleSpan(rest, output);
      output := output + rest[..start];
      rest := afterOpen[closing.value..];
    }
    output := output + rest;
  }

  // ----- What the removers agree on -----

  ghost predicate NoEdgeTicks(s: Bytes) {
    s != [] && s[0] != TICK && s[|s| - 1] != TICK
  }

  function Ticks(n: nat): (s: Bytes)
    ensures |s| == n && forall i :: 0 <= i < n ==> s[i] == TICK
  {
    seq(n, _ => TICK)
  }

  /** A span whose content has no run of its own width disappears, and the rest of the line is read afresh. */
  lemma SpanDisappears(plain: Bytes, width: nat, code: Bytes, rest: Bytes)
    requires TICK !in plain && width > 0 && NoEdgeTicks(code)
    requires forall q: nat :: !IsRun(code, q, width)
    requires rest == [] || rest[0] != TICK
    ensures Visible(plain + Ticks(width) + code + Ticks(width) + rest) == plain + Visible(rest)
  {
    var tail := code + Ticks(width) + rest;
    var s := plain + (Ticks(width) + tail);
    assert plain + Ticks(width) + code + Ticks(width) + rest == s;
    FindsTick(plain, Ticks(width) + tail);
    SpanParts(plain, width, code, rest);
    SpanEnds(s, plain, width, code, rest);
  }

  lemma SpanEnds(s: Bytes, plain: Bytes, width: nat, code: Bytes, rest: Bytes)
    requires width > 0 && NoEdgeTicks(code) && (rest == [] || rest[0] != TICK)
    requires forall q: nat :: !IsRun(code, q, width)
    requires var tail := code + Ticks(width) + rest;
      s == plain + (Ticks(width) + tail) && FindTick(s) == Some(|plain|)
    ensures AfterSpan(s) == Some(rest)
  {
    SpanParts(plain, width, code, rest);
    var tail := code + Ticks(width) + rest;
    CountsTicks(width, tail);
    CodeEndsFirst(code, width, rest);
    CloseIs(tail, |code|, width);
  }

  lemma SpanParts(plain: Bytes, width: nat, code: Bytes, rest: Bytes)
    ensures var tail := code + Ticks(width) + rest;
      var s := plain + (Ticks(width) + tail);
      && s[..|plain|] == plain && s[|plain|..] == Ticks(width) + tail
      && (Ticks(width) + tail)[width..] == tail
      && tail[|code| + width..] == rest
  {
  }

  lemma FindsTick(plain: Bytes, t: Bytes)
    requires TICK !in plain && t != [] && t[0] == TICK
    ensures FindTick(plain + t) == Some(|plain|)
  {
    FindTickIsFirst(plain + t);
    assert (plain + t)[|plain|] == TICK;
    assert forall i :: 0 <= i < |plain| ==> (plain + t)[i] == plain[i] && plain[i] in plain;
  }

  lemma CountsTicks(width: nat, tail: Bytes)
    requires tail == [] || tail[0] != TICK
    ensures LeadingTicks(Ticks(width) + tail) == width
  {
    var t := Ticks(width) + tail;
    LeadingTicksAreAll(t);
    assert forall i :: 0 <= i < width ==> t[i] == TICK;
    assert tail != [] ==> t[width] == tail[0];
  }

  lemma CodeEndsFirst(code: Bytes, width: nat, rest: Bytes)
    requires width > 0 && NoEdgeTicks(code) && forall q: nat :: !IsRun(code, q, width)
    requires rest == [] || rest[0] != TICK
    ensures FirstRun(code + Ticks(width) + rest, |code|, width)
  {
    var tail := code + Ticks(width) + rest;
    forall q: nat | q < |code| ensures !IsRun(tail, q, width) {
      assert tail[|code| - 1] == code[|code| - 1];
      if q + width <= |code| - 1 {
        assert !IsRun(code, q, width);
        assert tail[..|code|] == code;
      }
    }
  }
}
