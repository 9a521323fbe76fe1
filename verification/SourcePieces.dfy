/** Source text as a sequence of lexical pieces, and what stripping keeps of each. */
module SourcePieces {
  import opened Common
  import opened Utf8
  import opened CommentStripper

  datatype Piece =
    | Text(text: seq<byte>)
    | CharLiteral(body: seq<byte>)
    | Line(text: seq<byte>, ended: bool)
    | Block(parts: seq<Part>)
    | Str(delimiter: byte, chars: seq<StrChar>)
    | RawStr(hashes: nat, body: seq<byte>)

  /** The inside of a block comment. */
  datatype Part = Words(text: seq<byte>) | Nested(parts: seq<Part>)

  datatype StrChar = Plain(b: byte) | Escaped(b: byte)

  const OPEN: seq<byte> := [SLASH, STAR]
  const CLOSE: seq<byte> := [STAR, SLASH]

  function Marks(n: nat): (s: seq<byte>)
    ensures |s| == n && forall i :: 0 <= i < n ==> s[i] == HASH
  {
    seq(n, _ => HASH)
  }

  function RenderPart(part: Part): seq<byte> {
    match part
    case Words(text) => text
    case Nested(inner) => OPEN + RenderParts(inner) + CLOSE
  }

  function RenderParts(parts: seq<Part>): seq<byte> {
    if parts == [] then [] else RenderPart(parts[0]) + RenderParts(parts[1..])
  }

  function RenderChars(chars: seq<StrChar>): seq<byte> {
    if chars == [] then []
    else (if chars[0].Plain? then [chars[0].b] else [BACKSLASH, chars[0].b]) + RenderChars(chars[1..])
  }

  function Render(piece: Piece): seq<byte> {
    match piece
    case Text(text) => text
    case CharLiteral(body) => [APOSTROPHE] + body + [APOSTROPHE]
    case Line(text, ended) => [SLASH, SLASH] + text + if ended then [NEWLINE] else []
    case Block(parts) => OPEN + RenderParts(parts) + CLOSE
    case Str(delimiter, chars) => [delimiter] + RenderChars(chars) + [delimiter]
    case RawStr(hashes, body) => [LETTER_R] + Marks(hashes) + [QUOTE] + body + [QUOTE] + Marks(hashes)
  }

  function RenderAll(pieces: seq<Piece>): seq<byte> {
    if pieces == [] then [] else Render(pieces[0]) + RenderAll(pieces[1..])
  }

  function Newlines(s: seq<byte>): seq<byte> {
    if s == [] then [] else NewlineOf(s[0]) + Newlines(s[1..])
  }

  function KeptPart(part: Part): seq<byte> {
    match part
    case Words(text) => Newlines(text)
    case Nested(inner) => KeptParts(inner)
  }

  function KeptParts(parts: seq<Part>): seq<byte> {
    if parts == [] then [] else KeptPart(parts[0]) + KeptParts(parts[1..])
  }

  /** An escaped newline inside a string is the one newline that is dropped. */
  function KeptChars(chars: seq<StrChar>): seq<byte> {
    if chars == [] then []
    else (if chars[0].Plain? then NewlineOf(chars[0].b) else []) + KeptChars(chars[1..])
  }

  /** Code and char literals whole; of everything else the newlines. */
  function Kept(piece: Piece): seq<byte> {
    match piece
    case Text(text) => text
    case CharLiteral(_) => Render(piece)
    case Line(_, ended) => if ended then [NEWLINE] else []
    case Block(parts) => KeptParts(parts)
    case Str(_, chars) => KeptChars(chars)
    case RawStr(_, body) => Newlines(body)
  }

  function KeptAll(pieces: seq<Piece>): seq<byte> {
    if pieces == [] then [] else Kept(pieces[0]) + KeptAll(pieces[1..])
  }

  // ----- When a piece can be followed by the given bytes -----

  /** Neither a comment opener nor a comment closer stands at `s[k..]`. */
  predicate NoCommentMark(s: seq<byte>, k: nat)
    requires k <= |s|
  {
    !StartsWith(s[k..], SLASH, STAR) && !StartsWith(s[k..], STAR, SLASH)
  }

  /** At `s[k..]` nothing but code starts, and a char literal there ends before `end`. */
  predicate PlainCodeAt(s: seq<byte>, k: nat, end: nat)
    requires k < |s|
  {
    && !StartsWith(s[k..], SLASH, SLASH) && !StartsWith(s[k..], SLASH, STAR)
    && s[k] != QUOTE && s[k] != TICK && !OpensRaw(s[k..])
    && (LiteralLength(s[k..]).Some? ==> k + LiteralLength(s[k..]).value <= end)
  }

  predicate FitsText(text: seq<byte>, rest: seq<byte>) {
    forall k :: 0 <= k < |text| ==> PlainCodeAt(text + rest, k, |text|)
  }

  predicate FitsPart(part: Part, later: seq<byte>) {
    match part
    case Words(text) => forall k :: 0 <= k < |text| ==> NoCommentMark(text + later, k)
    case Nested(inner) => FitsParts(inner, CLOSE + later)
  }

  predicate FitsParts(parts: seq<Part>, rest: seq<byte>) {
    parts == [] || (FitsPart(parts[0], RenderParts(parts[1..]) + rest) && FitsParts(parts[1..], rest))
  }

  function PartDepth(part: Part): nat {
    if part.Nested? then 1 + Depth(part.parts) else 0
  }

  function Depth(parts: seq<Part>): nat {
    if parts == [] then 0
    else if PartDepth(parts[0]) < Depth(parts[1..]) then Depth(parts[1..])
    else PartDepth(parts[0])
  }

  predicate FitsChars(delimiter: byte, chars: seq<StrChar>) {
    forall i :: 0 <= i < |chars| && chars[i].Plain? ==> chars[i].b != delimiter && chars[i].b != BACKSLASH
  }

  predicate IsCharBody(body: seq<byte>) {
    || (|body| == 2 && body[0] == BACKSLASH)
    || (body != [] && body[0] != BACKSLASH && |body| == CharLength(body[0]))
  }

  predicate Fits(piece: Piece, rest: seq<byte>) {
    match piece
    case Text(text) => FitsText(text, rest)
    case CharLiteral(body) => IsCharBody(body)
    case Line(text, ended) => NEWLINE !in text && (!ended ==> rest == [])
    case Block(parts) => FitsParts(parts, CLOSE + rest) && 1 + Depth(parts) <= MAX_DEPTH
    case Str(delimiter, chars) => delimiter in {QUOTE, TICK} && FitsChars(delimiter, chars)
    case RawStr(hashes, body) =>
      forall k :: 0 <= k < |body| ==> !ClosesRaw((body + [QUOTE] + Marks(hashes) + rest)[k..], hashes)
  }

  predicate FitAll(pieces: seq<Piece>) {
    pieces == [] || (Fits(pieces[0], RenderAll(pieces[1..])) && FitAll(pieces[1..]))
  }

  // ----- Stripping each kind of piece -----

  lemma TextMove(s: seq<byte>, end: nat)
    requires s != [] && PlainCodeAt(s, 0, end) && 0 < end <= |s|
    ensures var m := NextMove(s, Code);
      m.scan == Code && m.length <= end && m.kept == s[..m.length]
  {
    assert s[0..] == s;
  }

  lemma FitsTextTail(text: seq<byte>, rest: seq<byte>, n: nat)
    requires FitsText(text, rest) && n <= |text|
    ensures FitsText(text[n..], rest)
  {
    var s, tail := text + rest, text[n..];
    forall k | 0 <= k < |tail| ensures PlainCodeAt(tail + rest, k, |tail|) {
      assert PlainCodeAt(s, k + n, |text|);
      assert (tail + rest)[k..] == s[k + n..];
    }
  }

  lemma {:induction false} StripText(text: seq<byte>, rest: seq<byte>)
    requires FitsText(text, rest)
    ensures Strip(text + rest, Code) == text + Strip(rest, Code)
    decreases |text|
  {
    if text == [] {
      assert text + rest == rest;
    } else {
      TextMove(text + rest, |text|);
      var n := NextMove(text + rest, Code).length;
      TextSplit(text, rest, n);
      FitsTextTail(text, rest, n);
      StripText(text[n..], rest);
      Regroup(text[..n], text[n..], Strip(rest, Code), []);
    }
  }

  lemma TextSplit(text: seq<byte>, rest: seq<byte>, n: nat)
    requires n <= |text|
    ensures (text + rest)[n..] == text[n..] + rest && (text + rest)[..n] == text[..n]
    ensures text == text[..n] + text[n..]
  {
  }

  lemma {:induction false} StripLine(text: seq<byte>, rest: seq<byte>)
    requires NEWLINE !in text
    ensures Strip(text + rest, LineComment) == Strip(rest, LineComment)
  {
    if text == [] {
      assert text + rest == rest;
    } else {
      assert (text + rest)[1..] == text[1..] + rest;
      StripLine(text[1..], rest);
    }
  }

  lemma {:induction false} StripWords(text: seq<byte>, rest: seq<byte>, depth: nat)
    requires forall k :: 0 <= k < |text| ==> NoCommentMark(text + rest, k)
    ensures Strip(text + rest, BlockComment(depth)) == Newlines(text) + Strip(rest, BlockComment(depth))
  {
    var s := text + rest;
    if text == [] {
      assert s == rest;
    } else {
      assert NoCommentMark(s, 0) && s[0..] == s;
      var tail := text[1..];
      assert s[1..] == tail + rest;
      forall k | 0 <= k < |tail| ensures NoCommentMark(tail + rest, k) {
        assert NoCommentMark(s, k + 1) && (tail + rest)[k..] == s[k + 1..];
      }
      StripWords(tail, rest, depth);
    }
  }

  lemma Regroup(a: seq<byte>, b: seq<byte>, c: seq<byte>, d: seq<byte>)
    ensures (a + b + c) + d == a + (b + (c + d))
    ensures (a + b) + c == a + (b + c)
  {
  }

  lemma StripOpen(s: seq<byte>, depth: nat)
    requires depth < MAX_DEPTH
    ensures Strip(OPEN + s, BlockComment(depth)) == Strip(s, BlockComment(depth + 1))
  {
    assert (OPEN + s)[2..] == s;
  }

  lemma StripClose(s: seq<byte>, depth: nat)
    ensures Strip(CLOSE + s, BlockComment(depth)) == Strip(s, if depth <= 1 then Code else BlockComment(depth - 1))
  {
    assert (CLOSE + s)[2..] == s;
  }

  lemma StripNested(body: seq<byte>, kept: seq<byte>, later: seq<byte>, depth: nat)
    requires 1 <= depth < MAX_DEPTH
    requires Strip(body + (CLOSE + later), BlockComment(depth + 1))
          == kept + Strip(CLOSE + later, BlockComment(depth + 1))
    ensures Strip((OPEN + body + CLOSE) + later, BlockComment(depth)) == kept + Strip(later, BlockComment(depth))
  {
    StripIntoNested(body, later, depth);
    StripOutOfNested(later, depth);
  }

  lemma StripOutOfNested(later: seq<byte>, depth: nat)
    requires 1 <= depth
    ensures Strip(CLOSE + later, BlockComment(depth + 1)) == Strip(later, BlockComment(depth))
  {
    StripClose(later, depth + 1);
  }

  lemma StripIntoNested(body: seq<byte>, later: seq<byte>, depth: nat)
    requires depth < MAX_DEPTH
    ensures Strip((OPEN + body + CLOSE) + later, BlockComment(depth))
         == Strip(body + (CLOSE + later), BlockComment(depth + 1))
  {
    Regroup(OPEN, body, CLOSE, later);
    StripOpen(body + (CLOSE + later), depth);
  }

  lemma {:induction false} StripParts(parts: seq<Part>, rest: seq<byte>, depth: nat)
    requires 1 <= depth && depth + Depth(parts) <= MAX_DEPTH
    requires FitsParts(parts, rest)
    ensures Strip(RenderParts(parts) + rest, BlockComment(depth)) == KeptParts(parts) + Strip(rest, BlockComment(depth))
    decreases parts
  {
    if parts == [] {
      assert RenderParts(parts) + rest == rest;
    } else {
      var first, kept, later := RenderPart(parts[0]), KeptPart(parts[0]), RenderParts(parts[1..]) + rest;
      Regroup(first, RenderParts(parts[1..]), rest, []);
      StripPart(parts[0], later, depth);
      StripParts(parts[1..], rest, depth);
      Regroup(kept, KeptParts(parts[1..]), Strip(rest, BlockComment(depth)), []);
    }
  }

  lemma {:induction false} StripPart(part: Part, later: seq<byte>, depth: nat)
    requires 1 <= depth && depth + PartDepth(part) <= MAX_DEPTH
    requires FitsPart(part, later)
    ensures Strip(RenderPart(part) + later, BlockComment(depth)) == KeptPart(part) + Strip(later, BlockComment(depth))
    decreases part
  {
    match part
    case Words(text) =>
      StripWords(text, later, depth);
    case Nested(inner) =>
      StripParts(inner, CLOSE + later, depth + 1);
      StripNested(RenderParts(inner), KeptParts(inner), later, depth);
  }

  lemma {:induction false} StripChars(delimiter: byte, chars: seq<StrChar>, rest: seq<byte>)
    requires FitsChars(delimiter, chars)
    ensures Strip(RenderChars(chars) + rest, Quoted(delimiter)) == KeptChars(chars) + Strip(rest, Quoted(delimiter))
  {
    var s := RenderChars(chars) + rest;
    if chars == [] {
      assert s == rest;
    } else {
      var n := if chars[0].Plain? then 1 else 2;
      assert s[n..] == RenderChars(chars[1..]) + rest;
      StripChars(delimiter, chars[1..], rest);
    }
  }

  lemma {:induction false} StripRaw(body: seq<byte>, rest: seq<byte>, hashes: nat)
    requires forall k :: 0 <= k < |body| ==> !ClosesRaw((body + rest)[k..], hashes)
    ensures Strip(body + rest, Raw(hashes)) == Newlines(body) + Strip(rest, Raw(hashes))
  {
    var s := body + rest;
    if body == [] {
      assert s == rest;
    } else {
      assert s[0..] == s;
      var tail := body[1..];
      assert s[1..] == tail + rest;
      forall k | 0 <= k < |tail| ensures !ClosesRaw((tail + rest)[k..], hashes) {
        assert (tail + rest)[k..] == s[k + 1..];
      }
      StripRaw(tail, rest, hashes);
    }
  }

  lemma StripCharLiteral(body: seq<byte>, rest: seq<byte>)
    requires IsCharBody(body) && Valid(body + [APOSTROPHE] + rest)
    ensures Strip(Render(CharLiteral(body)) + rest, Code) == Render(CharLiteral(body)) + Strip(rest, Code)
  {
    var literal := Render(CharLiteral(body));
    var s := literal + rest;
    assert s[1..] == body + [APOSTROPHE] + rest;
    assert LiteralLength(s) == Some(|literal|);
    assert s[|literal|..] == rest && s[..|literal|] == literal;
  }

  lemma StripBlock(parts: seq<Part>, rest: seq<byte>)
    requires Fits(Block(parts), rest)
    ensures Strip(Render(Block(parts)) + rest, Code) == KeptParts(parts) + Strip(rest, Code)
  {
    Regroup(OPEN, RenderParts(parts), CLOSE, rest);
    var body := RenderParts(parts) + (CLOSE + rest);
    StripEnter(body);
    StripParts(parts, CLOSE + rest, 1);
    StripClose(rest, 1);
  }

  lemma StripEnter(body: seq<byte>)
    ensures Strip(OPEN + body, Code) == Strip(body, BlockComment(1))
  {
    assert (OPEN + body)[2..] == body;
  }

  lemma StripQuotes(delimiter: byte, s: seq<byte>)
    requires delimiter in {QUOTE, TICK}
    ensures Strip([delimiter] + s, Code) == Strip(s, Quoted(delimiter))
    ensures Strip([delimiter] + s, Quoted(delimiter)) == Strip(s, Code)
  {
    assert ([delimiter] + s)[1..] == s;
  }

  lemma StripStr(delimiter: byte, chars: seq<StrChar>, rest: seq<byte>)
    requires Fits(Str(delimiter, chars), rest)
    ensures Strip(Render(Str(delimiter, chars)) + rest, Code) == KeptChars(chars) + Strip(rest, Code)
  {
    var after := [delimiter] + rest;
    assert Render(Str(delimiter, chars)) + rest == [delimiter] + (RenderChars(chars) + after);
    StripQuotes(delimiter, RenderChars(chars) + after);
    StripChars(delimiter, chars, after);
    StripQuotes(delimiter, rest);
  }

  lemma StripRawOpen(hashes: nat, s: seq<byte>)
    ensures Strip([LETTER_R] + Marks(hashes) + [QUOTE] + s, Code) == Strip(s, Raw(hashes))
  {
    var t := [LETTER_R] + Marks(hashes) + [QUOTE] + s;
    assert t[1..][..hashes] == Marks(hashes) && t[1..][hashes] == QUOTE;
    assert Hashes(t[1..]) == hashes;
    assert NextMove(t, Code) == Move(hashes + 2, Raw(hashes), []);
    assert t[hashes + 2..] == s;
  }

  lemma StripRawClose(hashes: nat, s: seq<byte>)
    ensures Strip([QUOTE] + Marks(hashes) + s, Raw(hashes)) == Strip(s, Code)
  {
    var t := [QUOTE] + Marks(hashes) + s;
    assert ClosesRaw(t, hashes) && t[1 + hashes..] == s;
  }

  lemma StripRawStr(hashes: nat, body: seq<byte>, rest: seq<byte>)
    requires Fits(RawStr(hashes, body), rest)
    ensures Strip(Render(RawStr(hashes, body)) + rest, Code) == Newlines(body) + Strip(rest, Code)
  {
    var close := [QUOTE] + Marks(hashes) + rest;
    assert Render(RawStr(hashes, body)) + rest == [LETTER_R] + Marks(hashes) + [QUOTE] + (body + close);
    StripRawOpen(hashes, body + close);
    assert body + [QUOTE] + Marks(hashes) + rest == body + close;
    StripRaw(body, close, hashes);
    StripRawClose(hashes, rest);
  }

  lemma StripLineComment(text: seq<byte>, ended: bool, rest: seq<byte>)
    requires Fits(Line(text, ended), rest)
    ensures Strip(Render(Line(text, ended)) + rest, Code) == Kept(Line(text, ended)) + Strip(rest, Code)
  {
    var after := (if ended then [NEWLINE] else []) + rest;
    assert (Render(Line(text, ended)) + rest)[2..] == text + after;
    StripLine(text, after);
    if ended { assert after[1..] == rest; } else { assert after == []; }
  }

  lemma StripPiece(piece: Piece, rest: seq<byte>, p: Progress)
    requires Fits(piece, rest) && ReadAll(p, Render(piece) + rest) == Boundary
    ensures Strip(Render(piece) + rest, Code) == Kept(piece) + Strip(rest, Code)
  {
    match piece
    case Text(text) => StripText(text, rest);
    case CharLiteral(body) =>
      AsciiAtBoundary(p, Render(piece) + rest);
      assert (Render(piece) + rest)[1..] == body + [APOSTROPHE] + rest;
      StripCharLiteral(body, rest);
    case Line(text, ended) => StripLineComment(text, ended, rest);
    case Block(parts) => StripBlock(parts, rest);
    case Str(delimiter, chars) => StripStr(delimiter, chars, rest);
    case RawStr(hashes, body) => StripRawStr(hashes, body, rest);
  }

  lemma {:induction false} StripPieces(pieces: seq<Piece>, p: Progress)
    requires FitAll(pieces) && ReadAll(p, RenderAll(pieces)) == Boundary
    ensures Strip(RenderAll(pieces), Code) == KeptAll(pieces)
    decreases |pieces|
  {
    if pieces != [] {
      StripPiece(pieces[0], RenderAll(pieces[1..]), p);
      ReadConcat(p, Render(pieces[0]), RenderAll(pieces[1..]));
      StripPieces(pieces[1..], ReadAll(p, Render(pieces[0])));
    }
  }

  /** Stripping a source text returns exactly its code, its char literals and its unescaped newlines. */
  lemma StripKeepsCode(pieces: seq<Piece>)
    requires FitAll(pieces) && Valid(RenderAll(pieces))
    ensures Strip(RenderAll(pieces), Code) == KeptAll(pieces)
  {
    StripPieces(pieces, Boundary);
  }

  // ----- Line numbers -----

  lemma {:induction false} NewlinesConcat(a: seq<byte>, b: seq<byte>)
    ensures Newlines(a + b) == Newlines(a) + Newlines(b)
  {
    if a == [] {
      assert a + b == b;
    } else {
      assert (a + b)[1..] == a[1..] + b;
      NewlinesConcat(a[1..], b);
    }
  }

  lemma {:induction false} NewlinesTwice(s: seq<byte>)
    ensures Newlines(Newlines(s)) == Newlines(s)
  {
    if s != [] {
      NewlinesTwice(s[1..]);
      NewlinesConcat(NewlineOf(s[0]), Newlines(s[1..]));
      assert [NEWLINE][1..] == [];
    }
  }

  lemma {:induction false} NoNewlines(s: seq<byte>)
    requires NEWLINE !in s
    ensures Newlines(s) == []
  {
    if s != [] { NoNewlines(s[1..]); }
  }

  lemma {:induction false} NewlinesOfParts(parts: seq<Part>)
    ensures Newlines(RenderParts(parts)) == KeptParts(parts)
    decreases parts
  {
    if parts != [] {
      NewlinesOfPart(parts[0]);
      NewlinesOfParts(parts[1..]);
      NewlinesConcat(RenderPart(parts[0]), RenderParts(parts[1..]));
    }
  }

  lemma {:induction false} NewlinesOfPart(part: Part)
    ensures Newlines(RenderPart(part)) == KeptPart(part)
    decreases part
  {
    if part.Nested? {
      NewlinesOfParts(part.parts);
      NewlinesWithin(OPEN, RenderParts(part.parts), CLOSE);
    }
  }

  lemma NewlinesWithin(open: seq<byte>, body: seq<byte>, close: seq<byte>)
    requires NEWLINE !in open && NEWLINE !in close
    ensures Newlines(open + body + close) == Newlines(body)
  {
    NoNewlines(open);
    NoNewlines(close);
    NewlinesConcat(open, body);
    NewlinesConcat(open + body, close);
  }

  predicate EscapesNewline(piece: Piece) {
    piece.Str? && Escaped(NEWLINE) in piece.chars
  }

  lemma {:induction false} NewlinesOfChars(chars: seq<StrChar>)
    ensures |KeptChars(chars)| <= |Newlines(RenderChars(chars))|
    ensures |KeptChars(chars)| == |Newlines(RenderChars(chars))| <==> Escaped(NEWLINE) !in chars
  {
    if chars != [] {
      var first := if chars[0].Plain? then [chars[0].b] else [BACKSLASH, chars[0].b];
      assert [chars[0].b][1..] == [] && Newlines([chars[0].b]) == NewlineOf(chars[0].b);
      assert chars[0].Escaped? ==> first[1..] == [chars[0].b];
      assert |Newlines(first)| == if chars[0].b == NEWLINE then 1 else 0;
      NewlinesConcat(first, RenderChars(chars[1..]));
      NewlinesOfChars(chars[1..]);
    }
  }

  lemma {:induction false} KeptCharsAreNewlines(chars: seq<StrChar>)
    ensures Newlines(KeptChars(chars)) == KeptChars(chars)
  {
    if chars != [] {
      KeptCharsAreNewlines(chars[1..]);
      var first := if chars[0].Plain? then NewlineOf(chars[0].b) else [];
      assert [NEWLINE][1..] == [] && Newlines(first) == first;
      NewlinesConcat(first, KeptChars(chars[1..]));
    }
  }

  lemma PieceLines(piece: Piece, rest: seq<byte>)
    requires Fits(piece, rest)
    ensures |Newlines(Kept(piece))| <= |Newlines(Render(piece))|
    ensures |Newlines(Kept(piece))| == |Newlines(Render(piece))| <==> !EscapesNewline(piece)
  {
    match piece
    case Text(_) =>
    case CharLiteral(_) =>
    case Line(text, ended) =>
      NoNewlines([SLASH, SLASH] + text);
      NewlinesConcat([SLASH, SLASH] + text, Kept(piece));
    case Block(parts) =>
      NewlinesOfPart(Nested(parts));
      NewlinesTwice(RenderParts(parts));
      NewlinesOfParts(parts);
    case Str(delimiter, chars) =>
      NewlinesWithin([delimiter], RenderChars(chars), [delimiter]);
      NewlinesOfChars(chars);
      KeptCharsAreNewlines(chars);
    case RawStr(hashes, body) =>
      var open, close := [LETTER_R] + Marks(hashes) + [QUOTE], [QUOTE] + Marks(hashes);
      assert Render(piece) == open + body + close;
      NewlinesWithin(open, body, close);
      NewlinesTwice(body);
  }

  lemma {:induction false} KeptLines(pieces: seq<Piece>)
    requires FitAll(pieces)
    ensures |Newlines(KeptAll(pieces))| <= |Newlines(RenderAll(pieces))|
    ensures |Newlines(KeptAll(pieces))| == |Newlines(RenderAll(pieces))|
       <==> forall piece :: piece in pieces ==> !EscapesNewline(piece)
    decreases |pieces|
  {
    if pieces != [] {
      PieceLines(pieces[0], RenderAll(pieces[1..]));
      KeptLines(pieces[1..]);
      NewlinesConcat(Kept(pieces[0]), KeptAll(pieces[1..]));
      NewlinesConcat(Render(pieces[0]), RenderAll(pieces[1..]));
    }
  }

  /** The stripped text has as many lines as the source exactly when no string escapes a newline, and never more. */
  lemma LinesSurviveExactly(pieces: seq<Piece>)
    requires FitAll(pieces) && Valid(RenderAll(pieces))
    ensures |Newlines(Strip(RenderAll(pieces), Code))| <= |Newlines(RenderAll(pieces))|
    ensures |Newlines(Strip(RenderAll(pieces), Code))| == |Newlines(RenderAll(pieces))|
       <==> forall piece :: piece in pieces ==> !EscapesNewline(piece)
  {
    StripKeepsCode(pieces);
    KeptLines(pieces);
  }

  /** A string of one escaped newline: the scanner drops the line. */
  lemma EscapedNewlineIsLost()
    ensures var source := [QUOTE, BACKSLASH, NEWLINE, QUOTE];
      Valid(source) && |Newlines(source)| == 1 && |Newlines(Strip(source, Code))| == 0
  {
    var piece := Str(QUOTE, [Escaped(NEWLINE)]);
    var source := [QUOTE, BACKSLASH, NEWLINE, QUOTE];
    assert [Escaped(NEWLINE)][1..] == [] && RenderChars([Escaped(NEWLINE)]) == [BACKSLASH, NEWLINE];
    assert Render(piece) == source && [piece][1..] == [] && RenderAll([piece]) == source;
    assert Valid(source) by { AsciiIsValid(source); }
    assert [BACKSLASH, NEWLINE][1..] == [NEWLINE] && [NEWLINE][1..] == [];
    assert Newlines([NEWLINE]) == NewlineOf(NEWLINE) + Newlines([]);
    assert Newlines([BACKSLASH, NEWLINE]) == NewlineOf(BACKSLASH) + Newlines([NEWLINE]);
    assert source == [QUOTE] + [BACKSLASH, NEWLINE] + [QUOTE];
    NewlinesWithin([QUOTE], [BACKSLASH, NEWLINE], [QUOTE]);
    assert piece in [piece] && EscapesNewline(piece);
    LinesSurviveExactly([piece]);
  }

  // ----- Code that ends in white space can be followed by anything -----

  predicate IsSpace(b: byte) {
    b == 32 || 9 <= b <= 13
  }

  /** No string mark or comment opener inside, and no apostrophe that the closing white space could continue. */
  predicate SpaceEnded(text: seq<byte>) {
    && text != [] && IsSpace(text[|text| - 1])
    && (forall k :: 0 <= k < |text| ==>
          && text[k] != QUOTE && text[k] != TICK
          && !StartsWith(text[k..], SLASH, SLASH) && !StartsWith(text[k..], SLASH, STAR))
    && (|text| >= 2 ==> text[|text| - 2] != APOSTROPHE)
    && (|text| >= 3 ==> !(text[|text| - 3] == APOSTROPHE && text[|text| - 2] == BACKSLASH))
  }

  lemma SpaceEndedFits(text: seq<byte>, rest: seq<byte>)
    requires SpaceEnded(text)
    ensures FitsText(text, rest)
  {
    var s := text + rest;
    forall k | 0 <= k < |text| ensures PlainCodeAt(s, k, |text|) {
      SpaceEndedNoComment(text, rest, k);
      SpaceEndedNoRaw(text, rest, k);
      SpaceEndedLiteral(text, rest, k);
    }
  }

  lemma SpaceEndedNoComment(text: seq<byte>, rest: seq<byte>, k: nat)
    requires SpaceEnded(text) && k < |text|
    ensures !StartsWith((text + rest)[k..], SLASH, SLASH) && !StartsWith((text + rest)[k..], SLASH, STAR)
    ensures (text + rest)[k] != QUOTE && (text + rest)[k] != TICK
  {
    var s := (text + rest)[k..];
    assert s[0] == text[k] && (k + 1 < |text| ==> text[k..][1] == s[1]);
  }

  lemma SpaceEndedNoRaw(text: seq<byte>, rest: seq<byte>, k: nat)
    requires SpaceEnded(text) && k < |text|
    ensures !OpensRaw((text + rest)[k..])
  {
    var s := (text + rest)[k..];
    if k + 1 < |text| {
      var last := |text| - 1 - k;
      assert s[1..][last - 1] == text[|text| - 1];
      var n := Hashes(s[1..]);
      assert n + 1 <= last && s[n + 1] == text[k + n + 1];
    }
  }

  lemma SpaceEndedLiteral(text: seq<byte>, rest: seq<byte>, k: nat)
    requires SpaceEnded(text) && k < |text|
    ensures var r := LiteralLength((text + rest)[k..]); r.Some? ==> k + r.value <= |text|
  {
    var s := (text + rest)[k..];
    var r := LiteralLength(s);
    if r.Some? {
      assert s[0] == text[k] && k + 2 < |text| && s[1] == text[k + 1];
      if s[1] != BACKSLASH {
        FirstCharacter(s[1..]);
        assert s[1..][|text| - 2 - k] == text[|text| - 1];
      }
    }
  }
}
