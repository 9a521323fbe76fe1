/** Code spans as section 6.1 of CommonMark 0.31.2 reads them on one line, and when the removers follow it. */
module CodeSpans {
  import opened Common
  import opened InlineCode

  /** Where the first run of backticks ends. */
  function RunStop(s: Bytes): (at: nat)
    requires FindTick(s).Some?
    ensures FindTick(s).value < at <= |s|
  {
    OpensWithTick(s);
    FindTick(s).value + LeadingTicks(s[FindTick(s).value..])
  }

  /** A run that nothing closes is literal, and the spans after it still count. */
  function Outside(s: Bytes): Bytes
    decreases |s|
  {
    if FindTick(s).None? then s
    else if AfterSpan(s).None? then s[..RunStop(s)] + Outside(s[RunStop(s)..])
    else s[..FindTick(s).value] + Outside(AfterSpan(s).value)
  }

  /** What follows the first run that nothing closes; None when every run opens or closes a span. */
  function AfterUnclosed(s: Bytes): Option<Bytes>
    decreases |s|
  {
    if FindTick(s).None? then None
    else if AfterSpan(s).None? then Some(s[RunStop(s)..])
    else AfterUnclosed(AfterSpan(s).value)
  }

  /** Two runs of the same width. */
  ghost predicate HasPair(s: Bytes) {
    exists p: nat, q: nat, width: nat :: Pair(s, p, q, width)
  }

  ghost predicate Pair(s: Bytes, p: nat, q: nat, width: nat) {
    p < q && IsRun(s, p, width) && IsRun(s, q, width)
  }

  /** The first run stands at `s[start..at]`. */
  ghost predicate Opens(s: Bytes, start: nat, at: nat) {
    start < at <= |s| && IsRun(s, start, at - start) && forall i :: 0 <= i < start ==> s[i] != TICK
  }

  lemma OpensFirst(s: Bytes)
    requires FindTick(s).Some?
    ensures Opens(s, FindTick(s).value, RunStop(s))
  {
    FindTickIsFirst(s);
    RunAt(s, FindTick(s).value);
  }

  function Width(s: Bytes): nat
    requires FindTick(s).Some?
  {
    LeadingTicks(s[FindTick(s).value..])
  }

  lemma SpanCloses(s: Bytes)
    requires FindTick(s).Some?
    ensures AfterSpan(s).None? <==> CloseOf(s[RunStop(s)..], Width(s)).None?
  {
    SpanClosesFrom(s, FindTick(s).value, Width(s), s[RunStop(s)..]);
  }

  lemma SpanClosesFrom(s: Bytes, start: nat, width: nat, rest: Bytes)
    requires FindTick(s) == Some(start) && LeadingTicks(s[start..]) == width && rest == s[start..][width..]
    ensures AfterSpan(s).None? <==> CloseOf(rest, width).None?
  {
    OpensWithTick(s);
  }

  /** Every other run starts after the first one. */
  lemma LaterRun(s: Bytes, start: nat, at: nat, p: nat, w: nat)
    requires Opens(s, start, at) && IsRun(s, p, w) && p != start
    ensures p >= at
  {
    assert s[p] == TICK && (p > 0 ==> s[p - 1] != TICK);
  }

  /** The runs after the first one are those of the rest. */
  lemma RunInRest(s: Bytes, start: nat, at: nat, p: nat, w: nat)
    requires Opens(s, start, at) && at <= p
    ensures IsRun(s, p, w) <==> IsRun(s[at..], p - at, w)
  {
    var t := s[at..];
    assert forall i :: at <= i < |s| ==> s[i] == t[i - at];
    if IsRun(s, p, w) {
      forall i | p - at <= i < p - at + w ensures t[i] == TICK { assert s[i + at] == TICK; }
    }
  }

  lemma SameWidth(s: Bytes, p: nat, v: nat, w: nat)
    requires IsRun(s, p, v) && IsRun(s, p, w)
    ensures v == w
  {
  }

  /** A first run that nothing closes has no partner. */
  lemma UnclosedIsAlone(s: Bytes, start: nat, at: nat, q: nat, w: nat)
    requires Opens(s, start, at) && CloseOf(s[at..], at - start).None?
    ensures !Pair(s, start, q, w)
  {
    if Pair(s, start, q, w) {
      SameWidth(s, start, at - start, w);
      LaterRun(s, start, at, q, w);
      RunInRest(s, start, at, q, w);
      CloseOfIsFirst(s[at..], w);
    }
  }

  lemma PairIsLater(s: Bytes, start: nat, at: nat, p: nat, q: nat, w: nat)
    requires Opens(s, start, at) && CloseOf(s[at..], at - start).None? && Pair(s, p, q, w)
    ensures p >= at && Pair(s[at..], p - at, q - at, w)
  {
    UnclosedIsAlone(s, start, at, q, w);
    LaterRun(s, start, at, p, w);
    RunInRest(s, start, at, p, w);
    RunInRest(s, start, at, q, w);
  }

  lemma PairAfterRun(s: Bytes, start: nat, at: nat)
    requires Opens(s, start, at) && CloseOf(s[at..], at - start).None?
    ensures HasPair(s) <==> HasPair(s[at..])
  {
    if HasPair(s) {
      var p: nat, q: nat, w: nat :| Pair(s, p, q, w);
      PairIsLater(s, start, at, p, q, w);
    }
    if HasPair(s[at..]) {
      var p: nat, q: nat, w: nat :| Pair(s[at..], p, q, w);
      RunInRest(s, start, at, p + at, w);
      RunInRest(s, start, at, q + at, w);
      assert Pair(s, p + at, q + at, w);
    }
  }

  lemma SpanIsPair(s: Bytes, start: nat, at: nat)
    requires Opens(s, start, at) && CloseOf(s[at..], at - start).Some?
    ensures HasPair(s)
  {
    CloseOfIsFirst(s[at..], at - start);
    var q := at + CloseOf(s[at..], at - start).value;
    RunInRest(s, start, at, q, at - start);
    assert Pair(s, start, q, at - start);
  }

  lemma {:induction false} OutsideShrinks(s: Bytes)
    ensures |Outside(s)| <= |s|
    ensures FindTick(s).Some? && AfterSpan(s).Some? ==> |Outside(s)| < |s|
    decreases |s|
  {
    if FindTick(s).Some? {
      if AfterSpan(s).None? {
        OutsideShrinks(s[RunStop(s)..]);
      } else {
        OutsideShrinks(AfterSpan(s).value);
        SpanIsLonger(s);
      }
    }
  }

  lemma SpanIsLonger(s: Bytes)
    requires FindTick(s).Some? && AfterSpan(s).Some?
    ensures FindTick(s).value + |AfterSpan(s).value| < |s|
  {
    OpensWithTick(s);
  }

  lemma NoTickNoPair(s: Bytes)
    requires FindTick(s).None?
    ensures !HasPair(s)
  {
    FindTickIsFirst(s);
    assert forall p: nat, w: nat :: IsRun(s, p, w) ==> s[p] == TICK;
  }

  lemma PairPastUnclosed(s: Bytes)
    requires FindTick(s).Some? && AfterSpan(s).None?
    ensures HasPair(s) <==> HasPair(s[RunStop(s)..])
  {
    UnclosedHasPair(s, FindTick(s).value, RunStop(s));
  }

  lemma UnclosedHasPair(s: Bytes, start: nat, at: nat)
    requires FindTick(s) == Some(start) && RunStop(s) == at && AfterSpan(s).None?
    ensures HasPair(s) <==> HasPair(s[at..])
  {
    SpanCloses(s);
    OpensFirst(s);
    PairAfterRun(s, start, at);
  }

  lemma PairIfClosed(s: Bytes)
    requires FindTick(s).Some? && AfterSpan(s).Some?
    ensures HasPair(s) && Outside(s) != s
  {
    ClosedHasPair(s, FindTick(s).value, RunStop(s));
    OutsideShrinks(s);
  }

  lemma ClosedHasPair(s: Bytes, start: nat, at: nat)
    requires FindTick(s) == Some(start) && RunStop(s) == at && AfterSpan(s).Some?
    ensures HasPair(s)
  {
    SpanCloses(s);
    OpensFirst(s);
    SpanIsPair(s, start, at);
  }

  /** Nothing is code exactly when no two runs have the same width. */
  lemma {:induction false} AllOutsideExactly(s: Bytes)
    ensures Outside(s) == s <==> !HasPair(s)
    decreases |s|
  {
    if FindTick(s).None? {
      NoTickNoPair(s);
    } else if AfterSpan(s).None? {
      PairPastUnclosed(s);
      AllOutsideExactly(s[RunStop(s)..]);
      SplitAtRun(s);
    } else {
      PairIfClosed(s);
    }
  }

  lemma SplitAtRun(s: Bytes)
    requires FindTick(s).Some? && AfterSpan(s).None?
    ensures Outside(s) == s <==> Outside(s[RunStop(s)..]) == s[RunStop(s)..]
  {
    SplitAt(s, RunStop(s), Outside(s), Outside(s[RunStop(s)..]));
  }

  lemma SplitAt(s: Bytes, at: nat, whole: Bytes, rest: Bytes)
    requires at <= |s| && whole == s[..at] + rest
    ensures whole == s <==> rest == s[at..]
  {
    assert s == s[..at] + s[at..];
    Cancel(s[..at], rest, s[at..]);
  }

  lemma Cancel(a: Bytes, b: Bytes, c: Bytes)
    ensures a + b == a + c <==> b == c
  {
    assert (a + b)[|a|..] == b && (a + c)[|a|..] == c;
  }

  /**
   * The removers follow CommonMark exactly when, after the first run that nothing closes, no two runs
   * have the same width.
   */
  lemma {:induction false} FollowsCommonMarkExactly(s: Bytes)
    ensures Visible(s) == Outside(s) <==> AfterUnclosed(s).None? || !HasPair(AfterUnclosed(s).value)
    decreases |s|
  {
    if FindTick(s).Some? {
      if AfterSpan(s).None? {
        SplitAtRun(s);
        AllOutsideExactly(s[RunStop(s)..]);
      } else {
        FollowsCommonMarkExactly(AfterSpan(s).value);
        Cancel(s[..FindTick(s).value], Visible(AfterSpan(s).value), Outside(AfterSpan(s).value));
      }
    }
  }

  /** Two unclosed backticks, a letter, and a span of one letter: the removers leave the span in place. */
  lemma LaterSpanStays()
    ensures var s := [TICK, TICK, 120, TICK, 121, TICK];
      Visible(s) == s && Outside(s) == [TICK, TICK, 120]
  {
    var s: Bytes := [TICK, TICK, 120, TICK, 121, TICK];
    var rest: Bytes := [120, TICK, 121, TICK];
    assert s[0..] == s && s[2..] == rest && LeadingTicks(s) == 2 by {
      assert s[1..][1..] == rest && LeadingTicks(rest) == 0 && LeadingTicks(s[1..]) == 1;
    }
    NoWideRun(rest);
    assert AfterSpan(s).None? && RunStop(s) == 2 && s[..2] == [TICK, TICK];
    OneSpan(rest);
  }

  lemma NoWideRun(rest: Bytes)
    requires rest == [120, TICK, 121, TICK]
    ensures CloseOf(rest, 2).None?
  {
    assert rest[1..] == [TICK, 121, TICK] && rest[1..][1..] == [121, TICK];
    assert LeadingTicks([121, TICK]) == 0 && LeadingTicks(rest[1..]) == 1;
    assert [121, TICK][1..] == [TICK] && [TICK][1..] == [] && LeadingTicks([TICK]) == 1;
    assert CloseOf([TICK], 2).None? && CloseOf([121, TICK], 2).None?;
  }

  lemma OneSpan(rest: Bytes)
    requires rest == [120, TICK, 121, TICK]
    ensures Outside(rest) == [120]
  {
    assert rest[1..] == [TICK, 121, TICK] && rest[1..][1..] == [121, TICK];
    assert FindTick(rest[1..]) == Some(0) && FindTick(rest) == Some(1);
    assert LeadingTicks([121, TICK]) == 0 && LeadingTicks(rest[1..]) == 1;
    assert [121, TICK][1..] == [TICK] && [TICK][1..] == [] && LeadingTicks([TICK]) == 1;
    assert CloseOf([TICK], 1) == Some(0) && CloseOf([121, TICK], 1) == Some(1);
    assert AfterSpan(rest) == Some([]);
    assert rest[..1] == [120] && Outside([]) == [];
  }
}
