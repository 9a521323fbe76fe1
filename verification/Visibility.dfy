/** Which declared dependency chains the text checkers follow. */
module Visibility {
  import opened Lines
  import opened Justfile
  import opened Declarations
  import opened Expansion
  import R = Recipes

  /** A dependency that the checkers read off the header of `a` when they look for it as `spelled`. */
  ghost predicate SeenStep(lines: seq<Line>, spelled: string, a: Name, b: Name) {
    Followed(lines, spelled, a) && b in WordsOf(lines, a)
  }

  /** One or more dependencies, as `just` and the executor read them, starting at `start`. */
  ghost predicate ChainFrom(table: R.Table, start: Name, p: seq<Name>) {
    |p| > 1 && p[0] == start && R.Chain(table, p)
  }

  /** Every step is read by the checkers, which look for the first recipe as `spelled`. */
  ghost predicate Seen(lines: seq<Line>, spelled: string, p: seq<Name>) {
    forall i :: 0 <= i < |p| - 1 ==> SeenStep(lines, if i == 0 then spelled else p[i], p[i], p[i + 1])
  }

  lemma EdgeExactly(lines: seq<Line>, spelled: string, a: Name, b: Name)
    requires WellFormed(lines) && IsSpelling(spelled, a)
    ensures Edge(GraphOf(lines), spelled, b) <==> SeenStep(lines, spelled, a, b)
  {
    ReadsExactly(lines, spelled, a);
  }

  lemma {:induction false} WordIsProper(lines: seq<Line>, a: Name, w: string)
    requires WellFormed(lines) && w in WordsOf(lines, a)
    ensures IsName(w) || Parenthesized(w)
  {
    assert ProperLine(lines[SourceOf(lines, a).value]);
  }

  lemma ParenthesizedIsNoRecipe(lines: seq<Line>, w: string)
    requires WellFormed(lines) && Parenthesized(w)
    ensures !IsName(w) && w !in GraphOf(lines).dependencies
  {
    assert !IsNameChar(w[0]);
    assert forall i :: 0 <= i < |lines| ==> ProperLine(lines[i]);
  }

  /** A word on a recipe's line is a declared dependency. */
  lemma WordIsEdge(lines: seq<Line>, a: Name, w: string)
    requires a in TableOf(lines) && w in WordsOf(lines, a)
    ensures R.Edge(Effective(lines), a, DependencyOf(w).recipe)
  {
    InEffective(lines, a);
    WordIsDependency(WordsOf(lines, a), w);
    assert DependencyOf(w) in Effective(lines)[a].dependencies;
  }

  lemma WordIsDependency(words: seq<string>, w: string)
    requires w in words
    ensures DependencyOf(w) in DependenciesOf(words)
  {
    var k :| 0 <= k < |words| && words[k] == w;
    assert DependenciesOf(words)[k] == DependencyOf(w);
  }

  /** A step the checkers read is a declared dependency. */
  lemma SeenIsDeclared(lines: seq<Line>, spelled: string, a: Name, b: Name)
    requires WellFormed(lines) && SeenStep(lines, spelled, a, b) && IsName(b)
    ensures R.Edge(Effective(lines), a, b)
  {
    OnlyLine(lines, LineOf(lines, a, 0).value, a);
    assert !Parenthesized(b) by { assert IsNameChar(b[0]); }
    WordIsEdge(lines, a, b);
  }

  /** A declared dependency comes from a word. */
  lemma EdgeHasWord(lines: seq<Line>, a: Name, b: Name) returns (w: string)
    requires R.Edge(Effective(lines), a, b)
    ensures LineOf(lines, a, 0).Some? && w in WordsOf(lines, a) && DependencyOf(w).recipe == b
  {
    InEffective(lines, a);
    var d :| d in Effective(lines)[a].dependencies && d.recipe == b;
    w := WordFor(WordsOf(lines, a), d);
  }

  lemma WordFor(words: seq<string>, d: R.Dependency) returns (w: string)
    requires d in DependenciesOf(words)
    ensures w in words && DependencyOf(w) == d
  {
    var k :| 0 <= k < |words| && d == DependenciesOf(words)[k];
    w := words[k];
  }

  /** A declared dependency is read when the header is followed and the word is not in parentheses. */
  lemma DeclaredIsSeen(lines: seq<Line>, spelled: string, a: Name, b: Name)
    requires R.Edge(Effective(lines), a, b) && WrittenPlainly(lines, spelled, a)
    ensures SeenStep(lines, spelled, a, b)
  {
    var w := EdgeHasWord(lines, a, b);
    assert !Parenthesized(w);
  }

  /** Where `a` is declared, its header is followed and none of its dependencies is in parentheses. */
  ghost predicate WrittenPlainly(lines: seq<Line>, spelled: string, a: Name) {
    LineOf(lines, a, 0).Some? ==>
      Followed(lines, spelled, a) && forall w :: w in WordsOf(lines, a) ==> !Parenthesized(w)
  }

  /** All recipes on a walk of the checkers' graph to a name are names. */
  lemma {:induction false} WalkMeetsNames(lines: seq<Line>, q: seq<Name>, name: Name, k: nat)
    requires WellFormed(lines) && Walk(GraphOf(lines), q) && |q| > 1
    requires IsSpelling(q[0], name) && IsName(q[|q| - 1])
    requires 1 <= k < |q|
    ensures IsName(q[k])
    ensures SeenStep(lines, q[k - 1], if k == 1 then name else q[k - 1], q[k])
  {
    assert Edge(GraphOf(lines), q[k - 1], q[k - 1 + 1]);
    var a := if k == 1 then name else q[k - 1];
    if k > 1 { WalkMeetsNames(lines, q, name, k - 1); }
    EdgeExactly(lines, q[k - 1], a, q[k]);
    WordIsProper(lines, a, q[k]);
    if Parenthesized(q[k]) && k < |q| - 1 {
      assert Edge(GraphOf(lines), q[k], q[k + 1]);
      ParenthesizedIsNoRecipe(lines, q[k]);
    }
  }

  lemma WalkIsSeenChain(lines: seq<Line>, q: seq<Name>, name: Name)
    requires WellFormed(lines) && Walk(GraphOf(lines), q) && |q| > 1
    requires IsSpelling(q[0], name) && IsName(q[|q| - 1])
    ensures var p := [name] + q[1..]; ChainFrom(Effective(lines), name, p) && Seen(lines, q[0], p)
  {
    var p := [name] + q[1..];
    forall i | 0 <= i < |p| - 1
      ensures SeenStep(lines, if i == 0 then q[0] else p[i], p[i], p[i + 1])
      ensures R.Edge(Effective(lines), p[i], p[i + 1])
    {
      assert p[i + 1] == q[i + 1] && (i > 0 ==> p[i] == q[i]);
      WalkMeetsNames(lines, q, name, i + 1);
      SeenIsDeclared(lines, if i == 0 then q[0] else p[i], p[i], p[i + 1]);
    }
  }

  lemma {:induction false} SeenMeetsNames(lines: seq<Line>, spelled: string, p: seq<Name>, k: nat)
    requires WellFormed(lines) && Seen(lines, spelled, p) && 1 <= k < |p| - 1
    ensures IsName(p[k])
  {
    var i := k - 1;
    assert SeenStep(lines, if i == 0 then spelled else p[i], p[i], p[i + 1]);
    assert SeenStep(lines, p[k], p[k], p[k + 1]);
    WordIsProper(lines, p[i], p[k]);
    if Parenthesized(p[k]) {
      ParenthesizedIsNoRecipe(lines, p[k]);
    }
  }

  lemma SeenChainIsWalk(lines: seq<Line>, spelled: string, p: seq<Name>)
    requires WellFormed(lines) && |p| > 1 && Seen(lines, spelled, p) && IsSpelling(spelled, p[0])
    ensures Walk(GraphOf(lines), [spelled] + p[1..])
  {
    var q := [spelled] + p[1..];
    forall i | 0 <= i < |q| - 1 ensures Edge(GraphOf(lines), q[i], q[i + 1]) {
      assert SeenStep(lines, if i == 0 then spelled else p[i], p[i], p[i + 1]);
      assert q[i + 1] == p[i + 1] && (i > 0 ==> q[i] == p[i]);
      if i > 0 { SeenMeetsNames(lines, spelled, p, i); }
      EdgeExactly(lines, q[i], p[i], p[i + 1]);
    }
  }

  /** A declared chain from `name` to `g` whose every step the checkers read. */
  ghost predicate SeenTo(lines: seq<Line>, spelled: string, name: Name, g: Name, p: seq<Name>) {
    ChainFrom(Effective(lines), name, p) && Seen(lines, spelled, p) && p[|p| - 1] == g
  }

  lemma ReachedIsSeen(lines: seq<Line>, spelled: string, name: Name, g: Name) returns (p: seq<Name>)
    requires WellFormed(lines) && IsSpelling(spelled, name) && IsName(g) && Reaches(GraphOf(lines), spelled, g)
    ensures SeenTo(lines, spelled, name, g, p)
  {
    var q :| WalkBetween(GraphOf(lines), q, spelled, g);
    WalkIsSeenChain(lines, q, name);
    p := [name] + q[1..];
  }

  lemma SeenIsReached(lines: seq<Line>, spelled: string, name: Name, g: Name, p: seq<Name>)
    requires WellFormed(lines) && IsSpelling(spelled, name) && SeenTo(lines, spelled, name, g, p)
    ensures Reaches(GraphOf(lines), spelled, g)
  {
    SeenChainIsWalk(lines, spelled, p);
    assert WalkBetween(GraphOf(lines), [spelled] + p[1..], spelled, g);
  }

  /** The checkers reach a recipe exactly along the declared chains whose every step they read. */
  lemma ReachesExactly(lines: seq<Line>, spelled: string, name: Name, g: Name)
    requires WellFormed(lines) && IsSpelling(spelled, name) && IsName(g)
    ensures Reaches(GraphOf(lines), spelled, g) <==> exists p :: SeenTo(lines, spelled, name, g, p)
  {
    if Reaches(GraphOf(lines), spelled, g) {
      var p := ReachedIsSeen(lines, spelled, name, g);
    }
    forall p | SeenTo(lines, spelled, name, g, p) ensures Reaches(GraphOf(lines), spelled, g) {
      SeenIsReached(lines, spelled, name, g, p);
    }
  }

  /** Every recipe reached from `name`, and `name` itself, is written plainly where it is declared. */
  ghost predicate PlainFrom(lines: seq<Line>, table: R.Table, spelled: string, name: Name) {
    && WrittenPlainly(lines, spelled, name)
    && forall p: seq<Name> :: ChainFrom(table, name, p) ==> WrittenPlainly(lines, p[|p| - 1], p[|p| - 1])
  }

  lemma ChainPrefix(table: R.Table, p: seq<Name>, n: nat)
    requires R.Chain(table, p) && 0 < n <= |p|
    ensures R.Chain(table, p[..n])
  {
    var q := p[..n];
    forall k | 0 <= k < |q| - 1 ensures R.Edge(table, q[k], q[k + 1]) {
      assert R.Edge(table, p[k], p[k + 1]);
    }
  }

  lemma PlainAlong(lines: seq<Line>, table: R.Table, spelled: string, name: Name, p: seq<Name>, i: nat)
    requires PlainFrom(lines, table, spelled, name) && ChainFrom(table, name, p) && i < |p| - 1
    ensures WrittenPlainly(lines, if i == 0 then spelled else p[i], p[i])
  {
    if i > 0 {
      var q := p[..i + 1];
      ChainPrefix(table, p, i + 1);
      assert ChainFrom(table, name, q) && q[|q| - 1] == p[i];
    }
  }

  /** Where everything reached is written plainly, every declared chain is seen. */
  lemma PlainChainIsSeen(lines: seq<Line>, spelled: string, name: Name, p: seq<Name>)
    requires PlainFrom(lines, Effective(lines), spelled, name) && ChainFrom(Effective(lines), name, p)
    ensures Seen(lines, spelled, p)
  {
    forall i | 0 <= i < |p| - 1 ensures SeenStep(lines, if i == 0 then spelled else p[i], p[i], p[i + 1]) {
      assert R.Edge(Effective(lines), p[i], p[i + 1]);
      PlainAlong(lines, Effective(lines), spelled, name, p, i);
      DeclaredIsSeen(lines, if i == 0 then spelled else p[i], p[i], p[i + 1]);
    }
  }
}
