/** Removing comments and string contents from C-style source, keeping code, char literals and newlines. */
module CommentStripper {
  import opened Common
  import opened Utf8

  const SLASH: byte := 47
  const STAR: byte := 42
  const LETTER_R: byte := 114
  const HASH: byte := 35
  const QUOTE: byte := 34
  const TICK: byte := 96
  const APOSTROPHE: byte := 39
  const BACKSLASH: byte := 92
  const NEWLINE: byte := 10
  const MAX_DEPTH: nat := 0xFFFF_FFFF

  datatype Scan = Code | LineComment | BlockComment(depth: nat) | Quoted(delimiter: byte) | Raw(hashes: nat)

  /** The states the scanner can be in: a comment has a depth, and only ASCII marks delimit strings. */
  predicate Possible(scan: Scan) {
    (scan.BlockComment? ==> 1 <= scan.depth <= MAX_DEPTH) && (scan.Quoted? ==> scan.delimiter in {QUOTE, TICK})
  }

  predicate StartsWith(s: seq<byte>, a: byte, b: byte) {
    |s| >= 2 && s[0] == a && s[1] == b
  }

  /** The length of a char literal of one character or one simple escape at the start of `s`. */
  function LiteralLength(s: seq<byte>): (r: Option<nat>)
    ensures r.Some? ==> 3 <= r.value <= |s| && s[0] == APOSTROPHE
  {
    if |s| < 2 || s[0] != APOSTROPHE then None
    else if s[1] == BACKSLASH then (if 3 < |s| && s[3] == APOSTROPHE then Some(4) else None)
    else if !Valid(s[1..]) then None
    else
      var end := 1 + CharLength(s[1]);
      if end < |s| && s[end] == APOSTROPHE then Some(end + 1) else None
  }

  function Hashes(s: seq<byte>): (n: nat)
    ensures n <= |s| && (forall i :: 0 <= i < n ==> s[i] == HASH) && (n < |s| ==> s[n] != HASH)
  {
    if s != [] && s[0] == HASH then 1 + Hashes(s[1..]) else 0
  }

  /** `s` starts with `r`, hash marks and a quote. */
  predicate OpensRaw(s: seq<byte>) {
    s != [] && s[0] == LETTER_R && var n := Hashes(s[1..]); n + 1 < |s| && s[n + 1] == QUOTE
  }

  /** `s` starts with a quote and at least `hashes` hash marks. */
  predicate ClosesRaw(s: seq<byte>, hashes: nat) {
    |s| > hashes && s[0] == QUOTE && forall i :: 1 <= i <= hashes ==> s[i] == HASH
  }

  /** One turn of the scanner: how far it moves, the state it enters and what it keeps. */
  datatype Move = Move(length: nat, scan: Scan, kept: seq<byte>)

  function NewlineOf(b: byte): seq<byte> {
    if b == NEWLINE then [NEWLINE] else []
  }

  function CodeMove(s: seq<byte>): (m: Move)
    requires s != []
    ensures 0 < m.length <= |s|
  {
    if StartsWith(s, SLASH, SLASH) then Move(2, LineComment, [])
    else if StartsWith(s, SLASH, STAR) then Move(2, BlockComment(1), [])
    else if OpensRaw(s) then Move(Hashes(s[1..]) + 2, Raw(Hashes(s[1..])), [])
    else if LiteralLength(s).Some? then Move(LiteralLength(s).value, Code, s[..LiteralLength(s).value])
    else if s[0] == QUOTE || s[0] == TICK then Move(1, Quoted(s[0]), [])
    else Move(1, Code, [s[0]])
  }

  function NextMove(s: seq<byte>, scan: Scan): (m: Move)
    requires s != []
    ensures 0 < m.length <= |s|
  {
    match scan
    case Code => CodeMove(s)
    case LineComment => Move(1, if s[0] == NEWLINE then Code else LineComment, NewlineOf(s[0]))
    case BlockComment(depth) =>
      if StartsWith(s, SLASH, STAR) then Move(2, BlockComment(if depth < MAX_DEPTH then depth + 1 else depth), [])
      else if StartsWith(s, STAR, SLASH) then Move(2, if depth <= 1 then Code else BlockComment(depth - 1), [])
      else Move(1, scan, NewlineOf(s[0]))
    case Quoted(delimiter) =>
      if s[0] == BACKSLASH then Move(if |s| < 2 then 1 else 2, scan, [])
      else Move(1, if s[0] == delimiter then Code else scan, NewlineOf(s[0]))
    case Raw(hashes) =>
      if ClosesRaw(s, hashes) then Move(1 + hashes, Code, []) else Move(1, scan, NewlineOf(s[0]))
  }

  function Strip(s: seq<byte>, scan: Scan): seq<byte>
    decreases |s|
  {
    if s == [] then [] else var m := NextMove(s, scan); m.kept + Strip(s[m.length..], m.scan)
  }

  /** What is kept in total does not change when the scanner makes its next move. */
  lemma StripMoves(contents: seq<byte>, index: nat, scan: Scan, output: seq<byte>)
    requires index < |contents|
    ensures var m := NextMove(contents[index..], scan);
      output + Strip(contents[index..], scan) == (output + m.kept) + Strip(contents[index + m.length..], m.scan)
  {
    var m := NextMove(contents[index..], scan);
    assert contents[index..][m.length..] == contents[index + m.length..];
  }

  /** The scanner: an index, a state and an output buffer over the whole file. */
  method ScanAll(contents: seq<byte>) returns (output: seq<byte>)
    ensures output == Strip(contents, Code)
  {
    output := [];
    var index := 0;
    var scan := Code;
    ghost var whole := Strip(contents, Code);
    assert contents[0..] == contents && output + whole == whole;
    while index < |contents|
      invariant index <= |contents| && Possible(scan)
      invariant output + Strip(contents[index..], scan) == whole
    {
      StripMoves(contents, index, scan, output);
      output, index, scan := Turn(contents, index, scan, output);
    }
    assert contents[index..] == [] && output + [] == output;
  }

  /** The stripper: its final conversion back to text would give nothing for ill-formed output. */
  method WithoutComments(contents: seq<byte>) returns (visible: seq<byte>)
    requires Valid(contents)
    ensures visible == Strip(contents, Code) && Valid(visible)
  {
    var output := ScanAll(contents);
    StripKeepsUtf8(contents, Boundary, Code);
    visible := if Valid(output) then output else [];
  }

  /** One turn of the scanner's loop. */
  method Turn(contents: seq<byte>, index: nat, scan: Scan, output: seq<byte>)
    returns (output': seq<byte>, index': nat, scan': Scan)
    requires index < |contents| && Possible(scan)
    ensures var m := NextMove(contents[index..], scan);
      index' == index + m.length && scan' == m.scan && output' == output + m.kept
    ensures Possible(scan')
  {
    output', index', scan' := output, index + 1, scan;
    var b := contents[index];
    var pair := if index + 1 < |contents| then contents[index..index + 2] else [];
    match scan {
      case Code =>
        if pair == [SLASH, SLASH] {
          scan', index' := LineComment, index + 2;
        } else if pair == [SLASH, STAR] {
          scan', index' := BlockComment(1), index + 2;
        } else {
          output', index', scan' := ScanCode(contents, index, output);
        }
      case LineComment =>
        if b == NEWLINE { output', scan' := output + [NEWLINE], Code; }
      case BlockComment(depth) =>
        if pair == [SLASH, STAR] {
          scan', index' := BlockComment(if depth < MAX_DEPTH then depth + 1 else depth), index + 2;
        } else if pair == [STAR, SLASH] {
          scan', index' := if depth == 1 then Code else BlockComment(depth - 1), index + 2;
        } else if b == NEWLINE {
          output' := output + [NEWLINE];
        }
      case Quoted(delimiter) =>
        if b == BACKSLASH {
          index' := if index + 2 < |contents| then index + 2 else |contents|;
        } else {
          if b == NEWLINE { output' := output + [NEWLINE]; }
          if b == delimiter { scan' := Code; }
        }
      case Raw(hashes) =>
        if ClosesRaw(contents[index..], hashes) {
          scan', index' := Code, index + 1 + hashes;
        } else if b == NEWLINE {
          output' := output + [NEWLINE];
        }
    }
  }

  /** The scanner in code, past the comment openers: raw string, char literal, string or plain byte. */
  method ScanCode(contents: seq<byte>, index: nat, output: seq<byte>)
    returns (output': seq<byte>, index': nat, scan: Scan)
    requires index < |contents|
    requires !StartsWith(contents[index..], SLASH, SLASH) && !StartsWith(contents[index..], SLASH, STAR)
    ensures var m := CodeMove(contents[index..]);
      index' == index + m.length && scan == m.scan && output' == output + m.kept
    ensures Possible(scan)
  {
    ghost var s := contents[index..];
    if contents[index] == LETTER_R {
      var cursor := index + 1;
      assert s[1..] == contents[index + 1..];
      while cursor < |contents| && contents[cursor] == HASH
        invariant index < cursor <= |contents|
        invariant forall k :: index < k < cursor ==> contents[k] == HASH
      {
        cursor := cursor + 1;
      }
      assert Hashes(s[1..]) == cursor - index - 1;
      if cursor < |contents| && contents[cursor] == QUOTE {
        return output, cursor + 1, Raw(cursor - index - 1);
      }
      return output + [contents[index]], index + 1, Code;
    }
    var literal := LiteralLength(contents[index..]);
    if literal.Some? {
      assert s[..literal.value] == contents[index..index + literal.value];
      return output + contents[index..index + literal.value], index + literal.value, Code;
    }
    if contents[index] == QUOTE || contents[index] == TICK {
      return output, index + 1, Quoted(contents[index]);
    }
    return output + [contents[index]], index + 1, Code;
  }

  /** Stripping well-formed text leaves well-formed text, so the final conversion never falls back to nothing. */
  lemma {:induction false} StripKeepsUtf8(s: seq<byte>, p: Progress, scan: Scan)
    requires ReadAll(p, s) == Boundary && Possible(scan)
    ensures ReadAll(if scan.Code? then p else Boundary, Strip(s, scan)) == Boundary
    decreases |s|
  {
    if s != [] {
      var m := NextMove(s, scan);
      var head, rest := s[..m.length], s[m.length..];
      assert s == head + rest;
      ReadConcat(p, head, rest);
      var p' := ReadAll(p, head);
      StripKeepsUtf8(rest, p', m.scan);
      ReadConcat(if scan.Code? then p else Boundary, m.kept, Strip(rest, m.scan));
      MoveKeepsBoundary(s, p, scan);
    }
  }

  /** A move that changes state starts or ends at an ASCII byte, hence at a character boundary. */
  lemma MoveKeepsBoundary(s: seq<byte>, p: Progress, scan: Scan)
    requires s != [] && ReadAll(p, s) == Boundary && Possible(scan)
    ensures var m := NextMove(s, scan);
      ReadAll(if scan.Code? then p else Boundary, m.kept)
      == (if m.scan.Code? then ReadAll(p, s[..m.length]) else Boundary)
  {
    var m := NextMove(s, scan);
    assert s[..m.length][..1] == [s[0]];
    if scan.Code? {
      if m.scan.Code? {
        assert m.kept == s[..m.length];
      } else {
        AsciiAtBoundary(p, s);
      }
    } else {
      assert m.kept == [] || m.kept == [NEWLINE];
      assert [NEWLINE][1..] == [];
      if m.scan.Code? {
        EndsAtAscii(s, p, m.length);
      }
    }
  }

  lemma EndsAtAscii(s: seq<byte>, p: Progress, n: nat)
    requires ReadAll(p, s) == Boundary && 0 < n <= |s| && s[n - 1] < 0x80
    ensures ReadAll(p, s[..n]) == Boundary
  {
    assert s == s[..n - 1] + s[n - 1..];
    ReadConcat(p, s[..n - 1], s[n - 1..]);
    AsciiAtBoundary(ReadAll(p, s[..n - 1]), s[n - 1..]);
    assert s[..n] == s[..n - 1] + [s[n - 1]] && [s[n - 1]][1..] == [];
    ReadConcat(p, s[..n - 1], [s[n - 1]]);
  }
}
