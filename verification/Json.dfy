/** The recursive-descent JSON skipper, over bytes. */
module Json {
  import opened Common

  const QUOTE: byte := 34
  const BACKSLASH: byte := 92
  const COLON: byte := 58
  const COMMA: byte := 44
  const OPEN_BRACKET: byte := 91
  const CLOSE_BRACKET: byte := 93
  const OPEN_BRACE: byte := 123
  const CLOSE_BRACE: byte := 125

  /** What is left of the input after a successful read. */
  type Rest = Option<seq<byte>>

  /** ASCII white space: tab, line feed, form feed, carriage return and space. */
  predicate IsSpace(b: byte) {
    b == 9 || b == 10 || b == 12 || b == 13 || b == 32
  }

  predicate EndsToken(b: byte) {
    IsSpace(b) || b == COMMA || b == CLOSE_BRACKET || b == CLOSE_BRACE
  }

  function SkipSpace(s: seq<byte>): (r: seq<byte>)
    ensures |r| <= |s| && (r != [] ==> !IsSpace(r[0]))
  {
    if s != [] && IsSpace(s[0]) then SkipSpace(s[1..]) else s
  }

  predicate StartsWith(s: seq<byte>, b: byte) {
    s != [] && s[0] == b
  }

  function Expect(s: seq<byte>, b: byte): (r: Rest)
    ensures r.Some? ==> |r.value| < |s|
  {
    var t := SkipSpace(s);
    if StartsWith(t, b) then Some(t[1..]) else None
  }

  /** Past the closing quote; an escape takes two bytes, and a control byte is refused. */
  function StringRest(s: seq<byte>): (r: Rest)
    ensures r.Some? ==> |r.value| < |s|
  {
    if s == [] then None
    else if s[0] == QUOTE then Some(s[1..])
    else if s[0] == BACKSLASH then (if |s| < 2 then None else StringRest(s[2..]))
    else if s[0] < 0x20 then None
    else StringRest(s[1..])
  }

  function SkipString(s: seq<byte>): (r: Rest)
    ensures r.Some? ==> |r.value| < |s|
  {
    var open := Expect(s, QUOTE);
    if open.None? then None else StringRest(open.value)
  }

  function TokenRest(s: seq<byte>): (r: seq<byte>)
    ensures |r| <= |s|
  {
    if s != [] && !EndsToken(s[0]) then TokenRest(s[1..]) else s
  }

  /** What follows an item of a list: a comma and more, the closing byte, or neither. */
  datatype Next = More(rest: seq<byte>) | Closed(rest: seq<byte>) | Neither

  function AfterItem(s: seq<byte>, close: byte): (r: Next)
    ensures !r.Neither? ==> |r.rest| < |s|
  {
    var t := SkipSpace(s);
    if StartsWith(t, COMMA) then More(t[1..])
    else if StartsWith(t, close) then Closed(t[1..])
    else Neither
  }

  /** On any bytes: success leaves strictly less input. */
  function SkipValue(s: seq<byte>): (r: Rest)
    ensures r.Some? ==> |r.value| < |s|
    decreases |s|, 0
  {
    var t := SkipSpace(s);
    if t == [] then None
    else if t[0] == QUOTE then SkipString(t)
    else if t[0] == OPEN_BRACE then
      var u := SkipSpace(t[1..]);
      if StartsWith(u, CLOSE_BRACE) then Some(u[1..]) else SkipMembers(u)
    else if t[0] == OPEN_BRACKET then
      var u := SkipSpace(t[1..]);
      if StartsWith(u, CLOSE_BRACKET) then Some(u[1..]) else SkipElements(u)
    else if EndsToken(t[0]) then None
    else Some(TokenRest(t))
  }

  /** A key, a colon and a value. */
  function SkipMember(s: seq<byte>): (r: Rest)
    ensures r.Some? ==> |r.value| < |s|
    decreases |s|, 1
  {
    var key := SkipString(s);
    if key.None? then None else
    var colon := Expect(key.value, COLON);
    if colon.None? then None else SkipValue(colon.value)
  }

  function SkipMembers(s: seq<byte>): (r: Rest)
    ensures r.Some? ==> |r.value| < |s|
    decreases |s|, 2
  {
    var member := SkipMember(s);
    if member.None? then None else
    match AfterItem(member.value, CLOSE_BRACE)
    case More(rest) => SkipMembers(rest)
    case Closed(rest) => Some(rest)
    case Neither => None
  }

  function SkipElements(s: seq<byte>): (r: Rest)
    ensures r.Some? ==> |r.value| < |s|
    decreases |s|, 2
  {
    var value := SkipValue(s);
    if value.None? then None else
    match AfterItem(value.value, CLOSE_BRACKET)
    case More(rest) => SkipElements(rest)
    case Closed(rest) => Some(rest)
    case Neither => None
  }

  // ----- The functions that advance an index -----

  /** The new index is where `rest` begins; there is none exactly when the read is refused. */
  ghost predicate Stops(bytes: seq<byte>, r: Option<nat>, rest: Rest) {
    (r.None? <==> rest.None?) && (r.Some? ==> r.value <= |bytes| && bytes[r.value..] == rest.value)
  }

  method SkipJsonWhitespace(bytes: seq<byte>, index: nat) returns (index': nat)
    requires index <= |bytes|
    ensures index <= index' <= |bytes| && bytes[index'..] == SkipSpace(bytes[index..])
  {
    index' := index;
    while index' < |bytes| && IsSpace(bytes[index'])
      invariant index <= index' <= |bytes|
      invariant SkipSpace(bytes[index'..]) == SkipSpace(bytes[index..])
    {
      assert bytes[index'..][1..] == bytes[index' + 1..];
      index' := index' + 1;
    }
  }

  method ExpectJsonByte(bytes: seq<byte>, index: nat, expected: byte) returns (r: Option<nat>)
    requires index <= |bytes|
    ensures Stops(bytes, r, Expect(bytes[index..], expected))
    ensures r.Some? ==> index < r.value
  {
    var i := SkipJsonWhitespace(bytes, index);
    if i == |bytes| || bytes[i] != expected { return None; }
    assert bytes[i..][1..] == bytes[i + 1..];
    return Some(i + 1);
  }

  method SkipJsonString(bytes: seq<byte>, index: nat) returns (r: Option<nat>)
    requires index <= |bytes|
    ensures Stops(bytes, r, SkipString(bytes[index..]))
    ensures r.Some? ==> index < r.value
  {
    var open := ExpectJsonByte(bytes, index, QUOTE);
    if open.None? { return None; }
    var i := open.value;
    while i < |bytes|
      invariant open.value <= i <= |bytes|
      invariant StringRest(bytes[i..]) == SkipString(bytes[index..])
    {
      var b := bytes[i];
      assert bytes[i..][1..] == bytes[i + 1..];
      if b == QUOTE { return Some(i + 1); }
      if b == BACKSLASH {
        i := i + 2;
        if i > |bytes| { return None; }
        assert bytes[i - 2..][2..] == bytes[i..];
      } else if b < 0x20 {
        return None;
      } else {
        i := i + 1;
      }
    }
    return None;
  }

  method SkipJsonValue(bytes: seq<byte>, index: nat) returns (r: Option<nat>)
    requires index <= |bytes|
    ensures Stops(bytes, r, SkipValue(bytes[index..]))
    ensures r.Some? ==> index < r.value
    decreases |bytes| - index, 0
  {
    var i := SkipJsonWhitespace(bytes, index);
    if i == |bytes| { return None; }
    assert bytes[i..][1..] == bytes[i + 1..];
    if bytes[i] == QUOTE {
      r := SkipJsonString(bytes, i);
    } else if bytes[i] == OPEN_BRACE {
      var j := SkipJsonWhitespace(bytes, i + 1);
      if j < |bytes| && bytes[j] == CLOSE_BRACE {
        assert bytes[j..][1..] == bytes[j + 1..];
        return Some(j + 1);
      }
      r := SkipJsonMembers(bytes, j);
    } else if bytes[i] == OPEN_BRACKET {
      var j := SkipJsonWhitespace(bytes, i + 1);
      if j < |bytes| && bytes[j] == CLOSE_BRACKET {
        assert bytes[j..][1..] == bytes[j + 1..];
        return Some(j + 1);
      }
      r := SkipJsonElements(bytes, j);
    } else {
      r := SkipJsonToken(bytes, i);
    }
  }

  method SkipJsonToken(bytes: seq<byte>, index: nat) returns (r: Option<nat>)
    requires index < |bytes|
    ensures r.None? <==> EndsToken(bytes[index])
    ensures r.Some? ==> index < r.value <= |bytes| && bytes[r.value..] == TokenRest(bytes[index..])
  {
    var j := index;
    while j < |bytes| && !EndsToken(bytes[j])
      invariant index <= j <= |bytes|
      invariant TokenRest(bytes[j..]) == TokenRest(bytes[index..])
    {
      assert bytes[j..][1..] == bytes[j + 1..];
      j := j + 1;
    }
    return if j == index then None else Some(j);
  }

  /** Where a list goes on or ends. */
  datatype Position = MoreAt(index: nat) | ClosedAt(index: nat) | NeitherHere

  ghost predicate Stands(bytes: seq<byte>, r: Position, next: Next) {
    match next
    case More(rest) => r.MoreAt? && r.index <= |bytes| && bytes[r.index..] == rest
    case Closed(rest) => r.ClosedAt? && r.index <= |bytes| && bytes[r.index..] == rest
    case Neither => r.NeitherHere?
  }

  method AfterJsonItem(bytes: seq<byte>, index: nat, close: byte) returns (r: Position)
    requires index <= |bytes|
    ensures Stands(bytes, r, AfterItem(bytes[index..], close))
    ensures !r.NeitherHere? ==> index < r.index
  {
    var i := SkipJsonWhitespace(bytes, index);
    if i == |bytes| { return NeitherHere; }
    assert bytes[i..][1..] == bytes[i + 1..];
    if bytes[i] == COMMA { return MoreAt(i + 1); }
    if bytes[i] == close { return ClosedAt(i + 1); }
    return NeitherHere;
  }

  method SkipJsonMember(bytes: seq<byte>, index: nat) returns (r: Option<nat>)
    requires index <= |bytes|
    ensures Stops(bytes, r, SkipMember(bytes[index..]))
    ensures r.Some? ==> index < r.value
    decreases |bytes| - index, 1
  {
    var key := SkipJsonString(bytes, index);
    if key.None? { return None; }
    var colon := ExpectJsonByte(bytes, key.value, COLON);
    if colon.None? { return None; }
    r := SkipJsonValue(bytes, colon.value);
  }

  /** The object loop: a member, then a comma or the closing brace. */
  method SkipJsonMembers(bytes: seq<byte>, index: nat) returns (r: Option<nat>)
    requires index <= |bytes|
    ensures Stops(bytes, r, SkipMembers(bytes[index..]))
    ensures r.Some? ==> index < r.value
    decreases |bytes| - index, 2
  {
    var i := index;
    while true
      invariant index <= i <= |bytes|
      invariant SkipMembers(bytes[i..]) == SkipMembers(bytes[index..])
      decreases |bytes| - i
    {
      var member := SkipJsonMember(bytes, i);
      if member.None? { return None; }
      var next := AfterJsonItem(bytes, member.value, CLOSE_BRACE);
      match next {
        case ClosedAt(end) => return Some(end);
        case NeitherHere => return None;
        case MoreAt(following) => i := following;
      }
    }
  }

  /** The array loop: a value, then a comma or the closing bracket. */
  method SkipJsonElements(bytes: seq<byte>, index: nat) returns (r: Option<nat>)
    requires index <= |bytes|
    ensures Stops(bytes, r, SkipElements(bytes[index..]))
    ensures r.Some? ==> index < r.value
    decreases |bytes| - index, 2
  {
    var i := index;
    while true
      invariant index <= i <= |bytes|
      invariant SkipElements(bytes[i..]) == SkipElements(bytes[index..])
      decreases |bytes| - i
    {
      var value := SkipJsonValue(bytes, i);
      if value.None? { return None; }
      var next := AfterJsonItem(bytes, value.value, CLOSE_BRACKET);
      match next {
        case ClosedAt(end) => return Some(end);
        case NeitherHere => return None;
        case MoreAt(following) => i := following;
      }
    }
  }
}
