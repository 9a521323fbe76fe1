/** Every source text whose scan ends in code or in a line comment is made of lexical pieces. */
module SourceReading {
  import opened Common
  import opened Utf8
  import opened CommentStripper
  import opened SourcePieces

  /** The state after the whole text. */
  function Ends(s: seq<byte>, scan: Scan): Scan
    decreases |s|
  {
    if s == [] then scan else var m := NextMove(s, scan); Ends(s[m.length..], m.scan)
  }

  /** A comment opens at the depth where the counter stands still. */
  predicate Saturates(s: seq<byte>, scan: Scan)
    decreases |s|
  {
    s != [] &&
    var m := NextMove(s, scan);
    (scan.BlockComment? && scan.depth >= MAX_DEPTH && StartsWith(s, SLASH, STAR)) || Saturates(s[m.length..], m.scan)
  }

  /** From here on the scan goes as it does from `later`, entered in state `to`. */
  ghost predicate Continues(s: seq<byte>, scan: Scan, later: seq<byte>, to: Scan) {
    |later| <= |s| && Ends(s, scan) == Ends(later, to) && (Saturates(later, to) ==> Saturates(s, scan))
  }

  lemma Moves(s: seq<byte>, scan: Scan)
    requires s != []
    ensures var m := NextMove(s, scan); Continues(s, scan, s[m.length..], m.scan)
  {
  }

  /** The rest of a line comment. */
  lemma {:induction false} LineOf(s: seq<byte>) returns (text: seq<byte>, ended: bool, rest: seq<byte>)
    ensures s == text + ((if ended then [NEWLINE] else []) + rest) && NEWLINE !in text && (!ended ==> rest == [])
    ensures Continues(s, LineComment, rest, if ended then Code else LineComment)
    decreases |s|
  {
    if s == [] {
      text, ended, rest := [], false, [];
    } else if s[0] == NEWLINE {
      Moves(s, LineComment);
      text, ended, rest := [], true, s[1..];
    } else {
      Moves(s, LineComment);
      text, ended, rest := LineOf(s[1..]);
      text := [s[0]] + text;
    }
  }

  /** What a closer at this depth returns to. */
  function Outer(depth: nat): Scan {
    if depth <= 1 then Code else BlockComment(depth - 1)
  }

  /** The inside of a block comment, up to its closer. */
  lemma {:induction false} PartsOf(s: seq<byte>, depth: nat) returns (parts: seq<Part>, rest: seq<byte>)
    requires 1 <= depth <= MAX_DEPTH
    requires !Ends(s, BlockComment(depth)).BlockComment? && !Saturates(s, BlockComment(depth))
    ensures s == RenderParts(parts) + (CLOSE + rest) && FitsParts(parts, CLOSE + rest)
    ensures depth + Depth(parts) <= MAX_DEPTH && Continues(s, BlockComment(depth), rest, Outer(depth))
    decreases |s|, 1
  {
    if StartsWith(s, STAR, SLASH) {
      parts, rest := [], s[2..];
      CloserFirst(s, depth);
    } else if StartsWith(s, SLASH, STAR) {
      parts, rest := NestedOf(s, depth);
    } else {
      parts, rest := WordOf(s, depth);
    }
  }

  lemma CloserFirst(s: seq<byte>, depth: nat)
    requires StartsWith(s, STAR, SLASH)
    ensures s == RenderParts([]) + (CLOSE + s[2..]) && Continues(s, BlockComment(depth), s[2..], Outer(depth))
  {
    Moves(s, BlockComment(depth));
    assert s == CLOSE + s[2..];
  }

  lemma {:induction false} WordOf(s: seq<byte>, depth: nat) returns (parts: seq<Part>, rest: seq<byte>)
    requires 1 <= depth <= MAX_DEPTH && !StartsWith(s, STAR, SLASH) && !StartsWith(s, SLASH, STAR)
    requires !Ends(s, BlockComment(depth)).BlockComment? && !Saturates(s, BlockComment(depth))
    ensures s == RenderParts(parts) + (CLOSE + rest) && FitsParts(parts, CLOSE + rest)
    ensures depth + Depth(parts) <= MAX_DEPTH && Continues(s, BlockComment(depth), rest, Outer(depth))
    decreases |s|, 0
  {
    Moves(s, BlockComment(depth));
    var later;
    later, rest := PartsOf(s[1..], depth);
    WordFirst(s, later, rest);
    parts := [Words([s[0]])] + later;
  }

  lemma WordFirst(s: seq<byte>, later: seq<Part>, rest: seq<byte>)
    requires s != [] && s[1..] == RenderParts(later) + (CLOSE + rest) && FitsParts(later, CLOSE + rest)
    requires !StartsWith(s, SLASH, STAR) && !StartsWith(s, STAR, SLASH)
    ensures var parts := [Words([s[0]])] + later;
      && s == RenderParts(parts) + (CLOSE + rest) && FitsParts(parts, CLOSE + rest) && Depth(parts) == Depth(later)
  {
    var parts := [Words([s[0]])] + later;
    assert parts[0] == Words([s[0]]) && parts[1..] == later;
    assert [s[0]] + (RenderParts(later) + (CLOSE + rest)) == s;
    assert s[0..] == s;
  }

  lemma {:induction false} NestedOf(s: seq<byte>, depth: nat) returns (parts: seq<Part>, rest: seq<byte>)
    requires 1 <= depth <= MAX_DEPTH && StartsWith(s, SLASH, STAR)
    requires !Ends(s, BlockComment(depth)).BlockComment? && !Saturates(s, BlockComment(depth))
    ensures s == RenderParts(parts) + (CLOSE + rest) && FitsParts(parts, CLOSE + rest)
    ensures depth + Depth(parts) <= MAX_DEPTH && Continues(s, BlockComment(depth), rest, Outer(depth))
    decreases |s|, 0
  {
    Moves(s, BlockComment(depth));
    var inner, after := PartsOf(s[2..], depth + 1);
    var later;
    later, rest := PartsOf(after, depth);
    NestedFirst(s, inner, after, later, rest);
    parts := [Nested(inner)] + later;
  }

  lemma NestedFirst(s: seq<byte>, inner: seq<Part>, after: seq<byte>, later: seq<Part>, rest: seq<byte>)
    requires StartsWith(s, SLASH, STAR) && s[2..] == RenderParts(inner) + (CLOSE + after)
    requires after == RenderParts(later) + (CLOSE + rest)
    requires FitsParts(inner, CLOSE + after) && FitsParts(later, CLOSE + rest)
    ensures var parts := [Nested(inner)] + later;
      && s == RenderParts(parts) + (CLOSE + rest) && FitsParts(parts, CLOSE + rest)
      && Depth(parts) == if 1 + Depth(inner) < Depth(later) then Depth(later) else 1 + Depth(inner)
  {
    var parts := [Nested(inner)] + later;
    assert parts[0] == Nested(inner) && parts[1..] == later;
    assert s == OPEN + s[2..];
    Regroup(OPEN, RenderParts(inner), CLOSE, after);
    Regroup(RenderPart(Nested(inner)), RenderParts(later), CLOSE + rest, []);
  }

  lemma CharFirst(s: seq<byte>, c: StrChar, n: nat, later: seq<StrChar>, rest: seq<byte>)
    requires n <= |s| && s[n..] == RenderChars(later) + rest
    requires s[..n] == if c.Plain? then [c.b] else [BACKSLASH, c.b]
    ensures s == RenderChars([c] + later) + rest
  {
    assert ([c] + later)[1..] == later && s == s[..n] + s[n..];
  }

  /** The inside of a quoted string, up to its delimiter. */
  lemma {:induction false} CharsOf(s: seq<byte>, delimiter: byte) returns (chars: seq<StrChar>, rest: seq<byte>)
    requires delimiter in {QUOTE, TICK} && !Ends(s, Quoted(delimiter)).Quoted?
    ensures s == RenderChars(chars) + ([delimiter] + rest) && FitsChars(delimiter, chars)
    ensures Continues(s, Quoted(delimiter), rest, Code)
    decreases |s|
  {
    Moves(s, Quoted(delimiter));
    if s[0] == delimiter {
      chars, rest := [], s[1..];
    } else if s[0] == BACKSLASH {
      chars, rest := CharsOf(s[2..], delimiter);
      CharFirst(s, Escaped(s[1]), 2, chars, [delimiter] + rest);
      chars := [Escaped(s[1])] + chars;
    } else {
      chars, rest := CharsOf(s[1..], delimiter);
      CharFirst(s, Plain(s[0]), 1, chars, [delimiter] + rest);
      chars := [Plain(s[0])] + chars;
    }
  }

  /** The inside of a raw string, up to its closer. */
  lemma {:induction false} RawOf(s: seq<byte>, hashes: nat) returns (body: seq<byte>, rest: seq<byte>)
    requires !Ends(s, Raw(hashes)).Raw?
    ensures s == body + ([QUOTE] + Marks(hashes) + rest)
    ensures forall k :: 0 <= k < |body| ==> !ClosesRaw(s[k..], hashes)
    ensures Continues(s, Raw(hashes), rest, Code)
    decreases |s|
  {
    Moves(s, Raw(hashes));
    if ClosesRaw(s, hashes) {
      body, rest := [], s[1 + hashes..];
      RawCloses(s, hashes);
    } else {
      body, rest := RawOf(s[1..], hashes);
      RawGoesOn(s, hashes, body);
      body := [s[0]] + body;
    }
  }

  lemma RawCloses(s: seq<byte>, hashes: nat)
    requires ClosesRaw(s, hashes)
    ensures s == [QUOTE] + Marks(hashes) + s[1 + hashes..]
  {
    assert s[1..1 + hashes] == Marks(hashes);
  }

  lemma RawGoesOn(s: seq<byte>, hashes: nat, later: seq<byte>)
    requires s != [] && !ClosesRaw(s, hashes) && later <= s[1..]
    requires forall k :: 0 <= k < |later| ==> !ClosesRaw(s[1..][k..], hashes)
    ensures forall k :: 0 <= k < 1 + |later| ==> !ClosesRaw(s[k..], hashes)
  {
    assert s[0..] == s;
    forall k | 1 <= k < 1 + |later| ensures !ClosesRaw(s[k..], hashes) { assert s[k..] == s[1..][k - 1..]; }
  }

  // ----- Piece by piece -----

  /** A piece, then the pieces of what follows it. */
  lemma PieceFirst(s: seq<byte>, piece: Piece, later: seq<Piece>)
    requires s == Render(piece) + RenderAll(later) && Fits(piece, RenderAll(later)) && FitAll(later)
    ensures RenderAll([piece] + later) == s && FitAll([piece] + later)
  {
    assert ([piece] + later)[1..] == later;
  }

  /** The first piece of a text in code, and what follows it. */
  lemma {:induction false} FirstPiece(s: seq<byte>) returns (piece: Piece, rest: seq<byte>)
    requires s != [] && Ends(s, Code) in {Code, LineComment} && !Saturates(s, Code)
    ensures s == Render(piece) + rest && Fits(piece, rest) && |rest| < |s|
    ensures Ends(rest, Code) in {Code, LineComment} && !Saturates(rest, Code)
  {
    Moves(s, Code);
    if StartsWith(s, SLASH, SLASH) {
      piece, rest := LineFirst(s);
    } else if StartsWith(s, SLASH, STAR) {
      piece, rest := BlockFirst(s);
    } else if OpensRaw(s) {
      piece, rest := RawFirst(s);
    } else if LiteralLength(s).Some? {
      piece, rest := LiteralFirst(s);
    } else if s[0] == QUOTE || s[0] == TICK {
      piece, rest := QuotedFirst(s);
    } else {
      piece, rest := Text([s[0]]), s[1..];
      assert s == [s[0]] + rest && s[0..] == s;
    }
  }

  lemma LineFirst(s: seq<byte>) returns (piece: Piece, rest: seq<byte>)
    requires StartsWith(s, SLASH, SLASH) && Ends(s, Code) in {Code, LineComment} && !Saturates(s, Code)
    ensures s == Render(piece) + rest && Fits(piece, rest) && |rest| < |s|
    ensures Ends(rest, Code) in {Code, LineComment} && !Saturates(rest, Code)
  {
    Moves(s, Code);
    var text, ended;
    text, ended, rest := LineOf(s[2..]);
    piece := Line(text, ended);
    assert s == [SLASH, SLASH] + s[2..];
  }

  lemma BlockFirst(s: seq<byte>) returns (piece: Piece, rest: seq<byte>)
    requires StartsWith(s, SLASH, STAR) && Ends(s, Code) in {Code, LineComment} && !Saturates(s, Code)
    ensures s == Render(piece) + rest && Fits(piece, rest) && |rest| < |s|
    ensures Ends(rest, Code) in {Code, LineComment} && !Saturates(rest, Code)
  {
    Moves(s, Code);
    var parts;
    parts, rest := PartsOf(s[2..], 1);
    piece := Block(parts);
    assert s == OPEN + s[2..];
    Regroup(OPEN, RenderParts(parts), CLOSE, rest);
  }

  lemma RawFirst(s: seq<byte>) returns (piece: Piece, rest: seq<byte>)
    requires OpensRaw(s) && Ends(s, Code) in {Code, LineComment} && !Saturates(s, Code)
    ensures s == Render(piece) + rest && Fits(piece, rest) && |rest| < |s|
    ensures Ends(rest, Code) in {Code, LineComment} && !Saturates(rest, Code)
  {
    Moves(s, Code);
    var n := Hashes(s[1..]);
    var body;
    body, rest := RawOf(s[n + 2..], n);
    piece := RawStr(n, body);
    RawWhole(s, n, body, rest);
    RawFits(s[n + 2..], n, body, rest);
  }

  lemma RawWhole(s: seq<byte>, n: nat, body: seq<byte>, rest: seq<byte>)
    requires OpensRaw(s) && n == Hashes(s[1..]) && s[n + 2..] == body + ([QUOTE] + Marks(n) + rest)
    ensures s == Render(RawStr(n, body)) + rest
  {
    RawOpens(s, n);
    assert ([LETTER_R] + Marks(n) + [QUOTE]) + (body + ([QUOTE] + Marks(n) + rest)) == Render(RawStr(n, body)) + rest;
  }

  lemma RawFits(inside: seq<byte>, n: nat, body: seq<byte>, rest: seq<byte>)
    requires inside == body + ([QUOTE] + Marks(n) + rest)
    requires forall k :: 0 <= k < |body| ==> !ClosesRaw(inside[k..], n)
    ensures Fits(RawStr(n, body), rest)
  {
    assert body + [QUOTE] + Marks(n) + rest == inside;
  }

  lemma RawOpens(s: seq<byte>, n: nat)
    requires OpensRaw(s) && n == Hashes(s[1..])
    ensures s == [LETTER_R] + Marks(n) + [QUOTE] + s[n + 2..]
  {
    assert s[1..][..n] == Marks(n) && s[1..][n] == QUOTE;
  }

  lemma LiteralFirst(s: seq<byte>) returns (piece: Piece, rest: seq<byte>)
    requires LiteralLength(s).Some? && CodeMove(s) == Move(LiteralLength(s).value, Code, s[..LiteralLength(s).value])
    requires Ends(s, Code) in {Code, LineComment} && !Saturates(s, Code)
    ensures s == Render(piece) + rest && Fits(piece, rest) && |rest| < |s|
    ensures Ends(rest, Code) in {Code, LineComment} && !Saturates(rest, Code)
  {
    Moves(s, Code);
    var n := LiteralLength(s).value;
    piece, rest := CharLiteral(s[1..n - 1]), s[n..];
    LiteralMarks(s, n);
    LiteralWhole(s, n);
  }

  lemma LiteralMarks(s: seq<byte>, n: nat)
    requires LiteralLength(s) == Some(n)
    ensures s[0] == APOSTROPHE && s[n - 1] == APOSTROPHE && IsCharBody(s[1..n - 1])
  {
  }

  lemma LiteralWhole(s: seq<byte>, n: nat)
    requires 2 <= n <= |s| && s[0] == APOSTROPHE && s[n - 1] == APOSTROPHE
    ensures s == ([APOSTROPHE] + s[1..n - 1] + [APOSTROPHE]) + s[n..]
  {
    assert s[..n] == [APOSTROPHE] + s[1..n - 1] + [APOSTROPHE];
    assert s == s[..n] + s[n..];
  }

  lemma QuotedFirst(s: seq<byte>) returns (piece: Piece, rest: seq<byte>)
    requires s != [] && s[0] in {QUOTE, TICK} && CodeMove(s) == Move(1, Quoted(s[0]), [])
    requires Ends(s, Code) in {Code, LineComment} && !Saturates(s, Code)
    ensures s == Render(piece) + rest && Fits(piece, rest) && |rest| < |s|
    ensures Ends(rest, Code) in {Code, LineComment} && !Saturates(rest, Code)
  {
    Moves(s, Code);
    var chars;
    chars, rest := CharsOf(s[1..], s[0]);
    piece := Str(s[0], chars);
    QuotedWhole(s, chars, rest);
  }

  lemma QuotedWhole(s: seq<byte>, chars: seq<StrChar>, rest: seq<byte>)
    requires s != [] && s[1..] == RenderChars(chars) + ([s[0]] + rest)
    ensures s == Render(Str(s[0], chars)) + rest
  {
    assert s == [s[0]] + s[1..];
  }

  /** The pieces of a text whose scan ends in code or in a line comment. */
  lemma {:induction false} PiecesOf(s: seq<byte>) returns (pieces: seq<Piece>)
    requires Ends(s, Code) in {Code, LineComment} && !Saturates(s, Code)
    ensures RenderAll(pieces) == s && FitAll(pieces)
    decreases |s|
  {
    if s == [] {
      pieces := [];
    } else {
      var piece, rest := FirstPiece(s);
      var later := PiecesOf(rest);
      PieceFirst(s, piece, later);
      pieces := [piece] + later;
    }
  }

  /**
   * For every valid text that closes its comments and strings, other than a last line comment, stripping
   * returns the code, the char literals and the unescaped newlines of its pieces.
   */
  lemma StripReadsPieces(s: seq<byte>)
    requires Valid(s) && Ends(s, Code) in {Code, LineComment} && !Saturates(s, Code)
    ensures exists pieces :: RenderAll(pieces) == s && FitAll(pieces) && Strip(s, Code) == KeptAll(pieces)
  {
    var pieces := PiecesOf(s);
    StripKeepsCode(pieces);
  }
}
