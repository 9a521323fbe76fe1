/** What a declaration line is written with, and the words it is read as. */
module WrittenWords {
  import opened Common
  import opened Lines
  import opened Justfile

  /** A character between quotes, alone or after a backslash. */
  datatype Unit = One(c: char) | Escaped(c: char)

  /** Part of a word: one character, a quoted string, or a group in parentheses. */
  datatype Piece = Plain(c: char) | Quoted(quote: char, units: seq<Unit>) | Nested(inside: seq<Piece>)

  function SpellUnit(unit: Unit): string {
    match unit
    case One(c) => [c]
    case Escaped(c) => ['\\'] + [c]
  }

  function SpellUnits(units: seq<Unit>): string {
    if units == [] then "" else SpellUnit(units[0]) + SpellUnits(units[1..])
  }

  function Spell(pieces: seq<Piece>): string {
    if pieces == [] then "" else SpellPiece(pieces[0]) + Spell(pieces[1..])
  }

  function SpellPiece(piece: Piece): string {
    match piece
    case Plain(c) => [c]
    case Quoted(quote, inside) => [quote] + SpellUnits(inside) + [quote]
    case Nested(inside) => "(" + Spell(inside) + ")"
  }

  /** What separates words outside quotes and parentheses. */
  predicate IsSeparator(c: char, attributeList: bool) {
    IsWhitespace(c) || (attributeList && (c == ',' || c == '[' || c == ']'))
  }

  /** Single quotes hold no quote; other quotes hold one, or a backslash, only after a backslash. */
  predicate LegalUnit(quote: char, unit: Unit) {
    match unit
    case One(c) => c != quote && (quote == '\'' || c != '\\')
    case Escaped(_) => quote != '\''
  }

  /** `nested` is set inside parentheses, where separators are ordinary characters and `)` is not. */
  predicate LegalPiece(piece: Piece, nested: bool, attributeList: bool) {
    match piece
    case Plain(c) =>
      && c != '#' && c != '(' && c != '\'' && c != '"' && c != '`'
      && (if nested then c != ')' else !IsSeparator(c, attributeList))
    case Quoted(quote, inside) =>
      (quote == '\'' || quote == '"' || quote == '`') && forall i :: 0 <= i < |inside| ==> LegalUnit(quote, inside[i])
    case Nested(inside) =>
      forall i :: 0 <= i < |inside| ==> LegalPiece(inside[i], true, attributeList)
  }

  predicate LegalPieces(pieces: seq<Piece>, nested: bool, attributeList: bool) {
    forall i :: 0 <= i < |pieces| ==> LegalPiece(pieces[i], nested, attributeList)
  }

  // ----- Reading a word -----

  lemma {:induction false} UnbrokenThen(m: Mode, a: string, b: string, attributeList: bool)
    requires Unbroken(m, a, attributeList) && Unbroken(After(m, a), b, attributeList)
    ensures Unbroken(m, a + b, attributeList) && After(m, a + b) == After(After(m, a), b)
    decreases |a|
  {
    if a == "" {
      assert a + b == b;
    } else {
      assert (a + b)[1..] == a[1..] + b;
      UnbrokenThen(Next(m, a[0]), a[1..], b, attributeList);
    }
  }

  lemma CharIsRead(m: Mode, c: char, attributeList: bool)
    requires !EndsLine(m, c) && !Separates(m, attributeList, c)
    ensures Unbroken(m, [c], attributeList) && After(m, [c]) == Next(m, c)
  {
    assert [c][1..] == "";
  }

  lemma UnitIsRead(quote: char, unit: Unit, depth: nat, attributeList: bool)
    requires LegalUnit(quote, unit)
    ensures var m := Mode(Some(quote), false, depth);
      Unbroken(m, SpellUnit(unit), attributeList) && After(m, SpellUnit(unit)) == m
  {
    var m := Mode(Some(quote), false, depth);
    match unit
    case One(c) => CharIsRead(m, c, attributeList);
    case Escaped(c) =>
      CharIsRead(m, '\\', attributeList);
      CharIsRead(Next(m, '\\'), c, attributeList);
      UnbrokenThen(m, ['\\'], [c], attributeList);
  }

  lemma {:induction false} UnitsAreRead(quote: char, units: seq<Unit>, depth: nat, attributeList: bool)
    requires forall i :: 0 <= i < |units| ==> LegalUnit(quote, units[i])
    ensures var m := Mode(Some(quote), false, depth);
      Unbroken(m, SpellUnits(units), attributeList) && After(m, SpellUnits(units)) == m
  {
    if units != [] {
      UnitIsRead(quote, units[0], depth, attributeList);
      UnitsAreRead(quote, units[1..], depth, attributeList);
      UnbrokenThen(Mode(Some(quote), false, depth), SpellUnit(units[0]), SpellUnits(units[1..]), attributeList);
    }
  }

  lemma QuotedIsRead(piece: Piece, nested: bool, depth: nat, attributeList: bool)
    requires piece.Quoted? && LegalPiece(piece, nested, attributeList)
    ensures var m := Mode(None, false, depth);
      Unbroken(m, SpellPiece(piece), attributeList) && After(m, SpellPiece(piece)) == m
  {
    var m, q, inner := Mode(None, false, depth), piece.quote, SpellUnits(piece.units);
    UnitsAreRead(q, piece.units, depth, attributeList);
    CharIsRead(m, q, attributeList);
    CharIsRead(Next(m, q), q, attributeList);
    UnbrokenThen(m, [q], inner, attributeList);
    UnbrokenThen(m, [q] + inner, [q], attributeList);
  }

  lemma NestedIsRead(inside: seq<Piece>, depth: nat, attributeList: bool)
    requires Unbroken(Mode(None, false, depth + 1), Spell(inside), attributeList)
    requires After(Mode(None, false, depth + 1), Spell(inside)) == Mode(None, false, depth + 1)
    ensures var m := Mode(None, false, depth);
      Unbroken(m, SpellPiece(Nested(inside)), attributeList) && After(m, SpellPiece(Nested(inside))) == m
  {
    var m, inner := Mode(None, false, depth), Spell(inside);
    CharIsRead(m, '(', attributeList);
    CharIsRead(Next(m, '('), ')', attributeList);
    assert "(" == ['('] && ")" == [')'];
    UnbrokenThen(m, "(", inner, attributeList);
    UnbrokenThen(m, "(" + inner, ")", attributeList);
  }

  /** Legal pieces leave the scanner where it stood. */
  lemma {:induction false} PiecesAreRead(pieces: seq<Piece>, depth: nat, attributeList: bool)
    requires LegalPieces(pieces, depth > 0, attributeList)
    ensures var m := Mode(None, false, depth);
      Unbroken(m, Spell(pieces), attributeList) && After(m, Spell(pieces)) == m
    decreases pieces
  {
    if pieces != [] {
      var m, piece := Mode(None, false, depth), pieces[0];
      assert LegalPiece(piece, depth > 0, attributeList);
      match piece {
        case Plain(c) => CharIsRead(m, c, attributeList);
        case Quoted(_, _) => QuotedIsRead(piece, depth > 0, depth, attributeList);
        case Nested(inside) =>
          PiecesAreRead(inside, depth + 1, attributeList);
          NestedIsRead(inside, depth, attributeList);
      }
      PiecesAreRead(pieces[1..], depth, attributeList);
      UnbrokenThen(m, SpellPiece(piece), Spell(pieces[1..]), attributeList);
    }
  }

  /** Whatever is written with legal pieces is one word. */
  lemma WrittenIsWord(pieces: seq<Piece>, attributeList: bool)
    requires pieces != [] && LegalPieces(pieces, false, attributeList)
    ensures IsWord(Spell(pieces), attributeList)
  {
    PiecesAreRead(pieces, 0, attributeList);
    assert SpellPiece(pieces[0]) != "";
  }

  // ----- Reading a line -----

  /** A word and the separators after it. */
  datatype Part = Part(word: seq<Piece>, after: string)

  predicate Separators(s: string, attributeList: bool) {
    forall i :: 0 <= i < |s| ==> IsSeparator(s[i], attributeList)
  }

  predicate LegalPart(part: Part, attributeList: bool) {
    && part.word != [] && LegalPieces(part.word, false, attributeList)
    && part.after != "" && Separators(part.after, attributeList)
  }

  function Spread(parts: seq<Part>): string {
    if parts == [] then "" else Spell(parts[0].word) + parts[0].after + Spread(parts[1..])
  }

  function WordsOf(parts: seq<Part>): seq<string> {
    seq(|parts|, i requires 0 <= i < |parts| => Spell(parts[i].word))
  }

  lemma {:induction false} SkipsSeparators(s: string, rest: string, attributeList: bool)
    requires Separators(s, attributeList)
    ensures DeclarationWords(s + rest, attributeList) == DeclarationWords(rest, attributeList)
    decreases |s|
  {
    if s == "" {
      assert s + rest == rest;
    } else {
      assert (s + rest)[1..] == s[1..] + rest;
      SkipsSeparators(s[1..], rest, attributeList);
      assert Finished("") + DeclarationWords(s[1..] + rest, attributeList)
          == DeclarationWords(s[1..] + rest, attributeList);
    }
  }

  lemma WordIsRead(word: seq<Piece>, after: string, rest: string, attributeList: bool)
    requires LegalPart(Part(word, after), attributeList)
    ensures DeclarationWords(Spell(word) + after + rest, attributeList)
         == [Spell(word)] + DeclarationWords(rest, attributeList)
  {
    var w := Spell(word);
    WrittenIsWord(word, attributeList);
    ReadWord("", OUTSIDE, w, after + rest, attributeList);
    assert w + after + rest == w + (after + rest) && "" + w == w;
    assert (after + rest)[0] == after[0] && (after + rest)[1..] == after[1..] + rest;
    SkipsSeparators(after[1..], rest, attributeList);
  }

  /** The last word may stand at the end of the line or before a comment. */
  lemma LastIsRead(word: seq<Piece>, tail: string, attributeList: bool)
    requires LegalPieces(word, false, attributeList) && (tail == "" || tail[0] == '#')
    ensures DeclarationWords(Spell(word) + tail, attributeList) == if word == [] then [] else [Spell(word)]
  {
    PiecesAreRead(word, 0, attributeList);
    ReadWord("", OUTSIDE, Spell(word), tail, attributeList);
    assert "" + Spell(word) == Spell(word);
    if word != [] { WrittenIsWord(word, attributeList); }
  }

  lemma WordsOfFirst(parts: seq<Part>)
    requires parts != []
    ensures WordsOf(parts) == [Spell(parts[0].word)] + WordsOf(parts[1..])
  {
  }

  lemma Associate(a: seq<string>, b: seq<string>, c: seq<string>)
    ensures a + (b + c) == (a + b) + c
  {
  }

  lemma SpreadFirst(parts: seq<Part>, end: string)
    requires parts != []
    ensures Spread(parts) + end == Spell(parts[0].word) + parts[0].after + (Spread(parts[1..]) + end)
  {
  }

  lemma {:induction false} PartsAreRead(parts: seq<Part>, end: string, words: seq<string>, attributeList: bool)
    requires forall i :: 0 <= i < |parts| ==> LegalPart(parts[i], attributeList)
    requires DeclarationWords(end, attributeList) == words
    ensures DeclarationWords(Spread(parts) + end, attributeList) == WordsOf(parts) + words
    decreases |parts|
  {
    if parts == [] {
      assert Spread(parts) + end == end && WordsOf(parts) + words == words;
    } else {
      SpreadFirst(parts, end);
      WordIsRead(parts[0].word, parts[0].after, Spread(parts[1..]) + end, attributeList);
      PartsAreRead(parts[1..], end, words, attributeList);
      WordsOfFirst(parts);
      Associate([Spell(parts[0].word)], WordsOf(parts[1..]), words);
    }
  }

  /**
   * A line of separators and words, ending with a word, a separator or a comment, is read as its words: quotes keep
   * spaces, parentheses, `#` and other quotes, parentheses keep separators, and an attribute list is separated by
   * commas and brackets too.
   */
  lemma LineIsRead(lead: string, parts: seq<Part>, word: seq<Piece>, tail: string, attributeList: bool)
    requires Separators(lead, attributeList) && forall i :: 0 <= i < |parts| ==> LegalPart(parts[i], attributeList)
    requires LegalPieces(word, false, attributeList) && (tail == "" || tail[0] == '#')
    ensures DeclarationWords(lead + (Spread(parts) + (Spell(word) + tail)), attributeList)
         == WordsOf(parts) + if word == [] then [] else [Spell(word)]
  {
    SkipsSeparators(lead, Spread(parts) + (Spell(word) + tail), attributeList);
    LastIsRead(word, tail, attributeList);
    PartsAreRead(parts, Spell(word) + tail, if word == [] then [] else [Spell(word)], attributeList);
  }
}
