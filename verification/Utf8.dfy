/** Well-formed UTF-8 (RFC 3629) as a small automaton over bytes. */
module Utf8 {
  import opened Common

  /** What the bytes so far still need: nothing, some continuation bytes, or no repair is possible. */
  datatype Progress = Boundary | Need1 | Need2 | Need3 | AfterE0 | AfterED | AfterF0 | AfterF4 | Broken

  function Read(p: Progress, b: byte): Progress {
    match p
    case Boundary =>
      if b < 0x80 then Boundary
      else if b < 0xC2 then Broken
      else if b < 0xE0 then Need1
      else if b == 0xE0 then AfterE0
      else if b == 0xED then AfterED
      else if b < 0xF0 then Need2
      else if b == 0xF0 then AfterF0
      else if b < 0xF4 then Need3
      else if b == 0xF4 then AfterF4
      else Broken
    case Need1 => if 0x80 <= b < 0xC0 then Boundary else Broken
    case Need2 => if 0x80 <= b < 0xC0 then Need1 else Broken
    case Need3 => if 0x80 <= b < 0xC0 then Need2 else Broken
    case AfterE0 => if 0xA0 <= b < 0xC0 then Need1 else Broken
    case AfterED => if 0x80 <= b < 0xA0 then Need1 else Broken
    case AfterF0 => if 0x90 <= b < 0xC0 then Need2 else Broken
    case AfterF4 => if 0x80 <= b < 0x90 then Need2 else Broken
    case Broken => Broken
  }

  function ReadAll(p: Progress, s: seq<byte>): Progress
    decreases |s|
  {
    if s == [] then p else ReadAll(Read(p, s[0]), s[1..])
  }

  predicate Valid(s: seq<byte>) {
    ReadAll(Boundary, s) == Boundary
  }

  /** The length of the character that starts with `lead`. */
  function CharLength(lead: byte): nat {
    if lead < 0x80 then 1 else if lead < 0xE0 then 2 else if lead < 0xF0 then 3 else 4
  }

  lemma {:induction false} ReadConcat(p: Progress, a: seq<byte>, b: seq<byte>)
    ensures ReadAll(p, a + b) == ReadAll(ReadAll(p, a), b)
    decreases |a|
  {
    if a == [] {
      assert a + b == b;
    } else {
      assert (a + b)[1..] == a[1..] + b;
      ReadConcat(Read(p, a[0]), a[1..], b);
    }
  }

  lemma {:induction false} BrokenStays(s: seq<byte>)
    ensures ReadAll(Broken, s) == Broken
  {
    if s != [] { BrokenStays(s[1..]); }
  }

  /** In text that ends well, an ASCII byte stands at a character boundary. */
  lemma AsciiAtBoundary(p: Progress, s: seq<byte>)
    requires ReadAll(p, s) == Boundary && s != [] && s[0] < 0x80
    ensures p == Boundary && Valid(s) && Valid(s[1..])
  {
    BrokenStays(s[1..]);
  }

  lemma {:induction false} AsciiIsValid(s: seq<byte>)
    requires forall i :: 0 <= i < |s| ==> s[i] < 0x80
    ensures Valid(s)
  {
    if s != [] { AsciiIsValid(s[1..]); }
  }

  /** A valid text starts with one whole character, whose later bytes are not ASCII. */
  lemma FirstCharacter(s: seq<byte>)
    requires Valid(s) && s != []
    ensures CharLength(s[0]) <= |s|
    ensures forall i :: 1 <= i < CharLength(s[0]) ==> s[i] >= 0x80
    ensures Valid(s[CharLength(s[0])..])
  {
    var p1 := Read(Boundary, s[0]);
    if p1 != Boundary {
      BrokenStays(s[1..]);
      assert ReadAll(p1, s[1..]) == Boundary;
      assert s[1..] != [];
      var p2 := Read(p1, s[1]);
      assert ReadAll(p1, s[1..]) == ReadAll(p2, s[1..][1..]) && s[1..][1..] == s[2..];
      BrokenStays(s[2..]);
      if p2 != Boundary {
        var p3 := Read(p2, s[2]);
        assert ReadAll(p2, s[2..]) == ReadAll(p3, s[2..][1..]) && s[2..][1..] == s[3..];
        BrokenStays(s[3..]);
        if p3 != Boundary {
          assert ReadAll(p3, s[3..]) == ReadAll(Read(p3, s[3]), s[3..][1..]) && s[3..][1..] == s[4..];
          BrokenStays(s[4..]);
        }
      }
    }
  }
}
