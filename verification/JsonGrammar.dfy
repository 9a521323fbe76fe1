/** JSON texts (sections 2 to 7 of RFC 8259) with their white space, and the skipper's reading of them. */
module JsonGrammar {
  import opened Common
  import opened Json

  /** A value as written. Numbers and the literal names are tokens. */
  datatype Value =
    | Token(bytes: seq<byte>)
    | Text(chars: seq<TextChar>)
    | EmptyArray(space: seq<byte>)
    | Array(elements: seq<Element>)
    | EmptyObject(space: seq<byte>)
    | Object(members: seq<Member>)

  /** One byte of a string, or a backslash and the byte after it; `\uXXXX` goes on with four plain bytes. */
  datatype TextChar = Plain(b: byte) | Escape(b: byte)

  datatype Element = Element(before: seq<byte>, value: Value, after: seq<byte>)

  datatype Member = Member(before: seq<byte>, key: seq<TextChar>, middle: seq<byte>, element: Element)

  function RenderChars(chars: seq<TextChar>): seq<byte> {
    if chars == [] then []
    else (if chars[0].Plain? then [chars[0].b] else [BACKSLASH, chars[0].b]) + RenderChars(chars[1..])
  }

  function RenderText(chars: seq<TextChar>): seq<byte> {
    [QUOTE] + RenderChars(chars) + [QUOTE]
  }

  function Render(v: Value): seq<byte>
    decreases v
  {
    match v
    case Token(bytes) => bytes
    case Text(chars) => RenderText(chars)
    case EmptyArray(space) => [OPEN_BRACKET] + space + [CLOSE_BRACKET]
    case Array(elements) => [OPEN_BRACKET] + RenderElements(elements) + [CLOSE_BRACKET]
    case EmptyObject(space) => [OPEN_BRACE] + space + [CLOSE_BRACE]
    case Object(members) => [OPEN_BRACE] + RenderMembers(members) + [CLOSE_BRACE]
  }

  function RenderElement(e: Element): seq<byte>
    decreases e
  {
    e.before + Render(e.value) + e.after
  }

  function RenderElements(es: seq<Element>): seq<byte>
    decreases es
  {
    if es == [] then []
    else if |es| == 1 then RenderElement(es[0])
    else RenderElement(es[0]) + [COMMA] + RenderElements(es[1..])
  }

  function RenderMember(m: Member): seq<byte>
    decreases m
  {
    m.before + RenderText(m.key) + m.middle + [COLON] + RenderElement(m.element)
  }

  function RenderMembers(ms: seq<Member>): seq<byte>
    decreases ms
  {
    if ms == [] then []
    else if |ms| == 1 then RenderMember(ms[0])
    else RenderMember(ms[0]) + [COMMA] + RenderMembers(ms[1..])
  }

  predicate AllSpace(s: seq<byte>) {
    forall i :: 0 <= i < |s| ==> IsSpace(s[i])
  }

  predicate LegalChars(chars: seq<TextChar>) {
    forall i :: 0 <= i < |chars| && chars[i].Plain? ==>
      chars[i].b >= 0x20 && chars[i].b != QUOTE && chars[i].b != BACKSLASH
  }

  /** Numbers and literal names, whose digits, letters, sign and point are no delimiters, and more. */
  predicate LegalToken(bytes: seq<byte>) {
    && bytes != [] && bytes[0] !in {QUOTE, OPEN_BRACE, OPEN_BRACKET}
    && forall i :: 0 <= i < |bytes| ==> !EndsToken(bytes[i])
  }

  predicate Legal(v: Value)
    decreases v
  {
    match v
    case Token(bytes) => LegalToken(bytes)
    case Text(chars) => LegalChars(chars)
    case EmptyArray(space) => AllSpace(space)
    case Array(elements) => elements != [] && forall i :: 0 <= i < |elements| ==> LegalElement(elements[i])
    case EmptyObject(space) => AllSpace(space)
    case Object(members) => members != [] && forall i :: 0 <= i < |members| ==> LegalMember(members[i])
  }

  predicate LegalElement(e: Element)
    decreases e
  {
    AllSpace(e.before) && Legal(e.value) && AllSpace(e.after)
  }

  predicate LegalMember(m: Member)
    decreases m
  {
    AllSpace(m.before) && LegalChars(m.key) && AllSpace(m.middle) && LegalElement(m.element)
  }

  /** A token needs a delimiter or the end of input after it; every other value ends by itself. */
  predicate Delimited(v: Value, rest: seq<byte>) {
    v.Token? && rest != [] ==> EndsToken(rest[0])
  }

  /** The skipper's marks, white space and delimiters, as characters. */
  lemma DelimitersExactly(b: byte)
    ensures QUOTE as char == '"' && BACKSLASH as char == '\\' && COLON as char == ':' && COMMA as char == ','
    ensures OPEN_BRACKET as char == '[' && CLOSE_BRACKET as char == ']'
    ensures OPEN_BRACE as char == '{' && CLOSE_BRACE as char == '}'
    ensures IsSpace(b) <==> b as char in {'\t', '\n', '\U{c}', '\r', ' '}
    ensures EndsToken(b) <==> b as char in {'\t', '\n', '\U{c}', '\r', ' ', ',', ']', '}'}
  {
    var c := b as char;
    assert c as int == b as int && (c == '\U{c}' <==> c as int == 12);
  }

  // ----- Reading what was written -----

  lemma {:induction false} SkipsSpace(space: seq<byte>, rest: seq<byte>)
    requires AllSpace(space) && (rest != [] ==> !IsSpace(rest[0]))
    ensures SkipSpace(space + rest) == rest
  {
    if space == [] {
      assert space + rest == rest;
    } else {
      assert (space + rest)[1..] == space[1..] + rest;
      SkipsSpace(space[1..], rest);
    }
  }

  lemma Expects(space: seq<byte>, b: byte, rest: seq<byte>)
    requires AllSpace(space) && !IsSpace(b)
    ensures Expect(space + ([b] + rest), b) == Some(rest)
  {
    SkipsSpace(space, [b] + rest);
    assert ([b] + rest)[1..] == rest;
  }

  lemma {:induction false} ReadsChars(chars: seq<TextChar>, rest: seq<byte>)
    requires LegalChars(chars)
    ensures StringRest(RenderChars(chars) + ([QUOTE] + rest)) == Some(rest)
  {
    var s := RenderChars(chars) + ([QUOTE] + rest);
    if chars == [] {
      assert s == [QUOTE] + rest && s[1..] == rest;
    } else {
      var n := if chars[0].Plain? then 1 else 2;
      assert s[n..] == RenderChars(chars[1..]) + ([QUOTE] + rest);
      ReadsChars(chars[1..], rest);
    }
  }

  lemma SkipsString(space: seq<byte>, chars: seq<TextChar>, rest: seq<byte>)
    requires AllSpace(space) && LegalChars(chars)
    ensures SkipString(space + (RenderText(chars) + rest)) == Some(rest)
  {
    var body := RenderChars(chars) + ([QUOTE] + rest);
    assert RenderText(chars) + rest == [QUOTE] + body;
    Expects(space, QUOTE, body);
    ReadsChars(chars, rest);
  }

  lemma {:induction false} SkipsToken(bytes: seq<byte>, rest: seq<byte>)
    requires forall i :: 0 <= i < |bytes| ==> !EndsToken(bytes[i])
    requires rest != [] ==> EndsToken(rest[0])
    ensures TokenRest(bytes + rest) == rest
  {
    if bytes == [] {
      assert bytes + rest == rest;
    } else {
      assert (bytes + rest)[1..] == bytes[1..] + rest;
      SkipsToken(bytes[1..], rest);
    }
  }

  lemma FirstByte(v: Value)
    requires Legal(v)
    ensures Render(v) != [] && !EndsToken(Render(v)[0])
    ensures v.Token? ==> Render(v)[0] !in {QUOTE, OPEN_BRACE, OPEN_BRACKET}
  {
  }

  /** On every legal value, after any white space, the skipper stops exactly at the value's end. */
  lemma {:induction false} SkipsValue(space: seq<byte>, v: Value, rest: seq<byte>)
    requires AllSpace(space) && Legal(v) && Delimited(v, rest)
    ensures SkipValue(space + (Render(v) + rest)) == Some(rest)
    decreases v, 1
  {
    FirstByte(v);
    SkipsSpace(space, Render(v) + rest);
    SkipsBare(v, rest);
    SpaceBeforeValue(space + (Render(v) + rest), Render(v) + rest);
  }

  lemma SpaceBeforeValue(s: seq<byte>, t: seq<byte>)
    requires SkipSpace(s) == t && SkipSpace(t) == t
    ensures SkipValue(s) == SkipValue(t)
  {
  }

  lemma {:induction false} SkipsBare(v: Value, rest: seq<byte>)
    requires Legal(v) && Delimited(v, rest)
    ensures SkipValue(Render(v) + rest) == Some(rest)
    decreases v, 0
  {
    match v
    case Token(bytes) =>
      FirstByte(v);
      SkipsToken(bytes, rest);
    case Text(chars) =>
      SkipsString([], chars, rest);
      assert [] + (RenderText(chars) + rest) == RenderText(chars) + rest;
    case EmptyArray(inner) =>
      SkipsBracketed(inner, CLOSE_BRACKET, rest);
      SkipsArray(inner, rest);
    case Array(elements) =>
      SkipsElements(elements, rest);
      EntersElements(elements, rest);
      SkipsArray(RenderElements(elements), rest);
    case EmptyObject(inner) =>
      SkipsBracketed(inner, CLOSE_BRACE, rest);
      SkipsObject(inner, rest);
    case Object(members) =>
      SkipsMembers(members, rest);
      EntersMembers(members, rest);
      SkipsObject(RenderMembers(members), rest);
  }

  lemma SkipsArray(inner: seq<byte>, rest: seq<byte>)
    ensures var u := SkipSpace(inner + ([CLOSE_BRACKET] + rest));
      SkipValue(([OPEN_BRACKET] + inner + [CLOSE_BRACKET]) + rest)
        == if StartsWith(u, CLOSE_BRACKET) then Some(u[1..]) else SkipElements(u)
  {
    var t := ([OPEN_BRACKET] + inner + [CLOSE_BRACKET]) + rest;
    assert t[1..] == inner + ([CLOSE_BRACKET] + rest);
  }

  lemma SkipsObject(inner: seq<byte>, rest: seq<byte>)
    ensures var u := SkipSpace(inner + ([CLOSE_BRACE] + rest));
      SkipValue(([OPEN_BRACE] + inner + [CLOSE_BRACE]) + rest)
        == if StartsWith(u, CLOSE_BRACE) then Some(u[1..]) else SkipMembers(u)
  {
    var t := ([OPEN_BRACE] + inner + [CLOSE_BRACE]) + rest;
    assert t[1..] == inner + ([CLOSE_BRACE] + rest);
  }

  /** The elements after the first one, with the comma before them. */
  function LaterElements(es: seq<Element>, close: seq<byte>): seq<byte>
    requires es != []
  {
    if |es| == 1 then close else [COMMA] + (RenderElements(es[1..]) + close)
  }

  lemma ElementsSplit(es: seq<Element>, close: seq<byte>)
    requires es != []
    ensures RenderElements(es) + close == RenderElement(es[0]) + LaterElements(es, close)
  {
  }

  /** Skipping the white space before the first element shows no closing bracket and changes nothing. */
  lemma EntersElements(es: seq<Element>, rest: seq<byte>)
    requires es != [] && LegalElement(es[0])
    ensures var s := RenderElements(es) + ([CLOSE_BRACKET] + rest);
      !StartsWith(SkipSpace(s), CLOSE_BRACKET) && SkipElements(SkipSpace(s)) == SkipElements(s)
  {
    ElementsSplit(es, [CLOSE_BRACKET] + rest);
    EntersElement(es[0], LaterElements(es, [CLOSE_BRACKET] + rest));
  }

  lemma EntersElement(e: Element, later: seq<byte>)
    requires LegalElement(e)
    ensures var s := RenderElement(e) + later;
      !StartsWith(SkipSpace(s), CLOSE_BRACKET) && SkipElements(SkipSpace(s)) == SkipElements(s)
  {
    var t := Render(e.value) + (e.after + later);
    FirstByte(e.value);
    ElementSplit(e, later);
    SkipsSpace(e.before, t);
    SpaceBeforeElements(RenderElement(e) + later, t);
  }

  lemma SpaceBeforeElements(s: seq<byte>, t: seq<byte>)
    requires SkipSpace(s) == t && SkipSpace(t) == t
    ensures SkipElements(s) == SkipElements(t)
  {
    SpaceBeforeValue(s, t);
  }

  lemma ElementSplit(e: Element, later: seq<byte>)
    ensures RenderElement(e) + later == e.before + (Render(e.value) + (e.after + later))
  {
  }

  /** The members after the first one, with the comma before them. */
  function LaterMembers(ms: seq<Member>, close: seq<byte>): seq<byte>
    requires ms != []
  {
    if |ms| == 1 then close else [COMMA] + (RenderMembers(ms[1..]) + close)
  }

  lemma MembersSplit(ms: seq<Member>, close: seq<byte>)
    requires ms != []
    ensures RenderMembers(ms) + close == RenderMember(ms[0]) + LaterMembers(ms, close)
  {
  }

  lemma EntersMembers(ms: seq<Member>, rest: seq<byte>)
    requires ms != [] && LegalMember(ms[0])
    ensures var s := RenderMembers(ms) + ([CLOSE_BRACE] + rest);
      !StartsWith(SkipSpace(s), CLOSE_BRACE) && SkipMembers(SkipSpace(s)) == SkipMembers(s)
  {
    MembersSplit(ms, [CLOSE_BRACE] + rest);
    EntersMember(ms[0], LaterMembers(ms, [CLOSE_BRACE] + rest));
  }

  lemma EntersMember(m: Member, later: seq<byte>)
    requires LegalMember(m)
    ensures var s := RenderMember(m) + later;
      !StartsWith(SkipSpace(s), CLOSE_BRACE) && SkipMembers(SkipSpace(s)) == SkipMembers(s)
  {
    var t := RenderText(m.key) + (m.middle + ([COLON] + (RenderElement(m.element) + later)));
    MemberSplit(m, later);
    SkipsSpace(m.before, t);
    SpaceBeforeMembers(RenderMember(m) + later, t);
  }

  lemma MemberSplit(m: Member, later: seq<byte>)
    ensures RenderMember(m) + later
         == m.before + (RenderText(m.key) + (m.middle + ([COLON] + (RenderElement(m.element) + later))))
  {
  }

  lemma SpaceBeforeMembers(s: seq<byte>, t: seq<byte>)
    requires SkipSpace(s) == t && SkipSpace(t) == t
    ensures SkipMembers(s) == SkipMembers(t)
  {
    assert SkipString(s) == SkipString(t);
    assert SkipMember(s) == SkipMember(t);
  }

  lemma SkipsBracketed(inner: seq<byte>, close: byte, rest: seq<byte>)
    requires AllSpace(inner) && close in {CLOSE_BRACKET, CLOSE_BRACE}
    ensures SkipSpace(inner + ([close] + rest)) == [close] + rest && ([close] + rest)[1..] == rest
  {
    SkipsSpace(inner, [close] + rest);
  }

  /** An element and its white space, up to the delimiter that follows. */
  lemma {:induction false} SkipsElement(e: Element, rest: seq<byte>)
    requires LegalElement(e) && rest != [] && EndsToken(rest[0]) && !IsSpace(rest[0])
    ensures SkipValue(RenderElement(e) + rest) == Some(e.after + rest)
    ensures rest[0] == COMMA ==>
      AfterItem(e.after + rest, CLOSE_BRACE) == AfterItem(e.after + rest, CLOSE_BRACKET) == More(rest[1..])
    ensures rest[0] != COMMA ==> AfterItem(e.after + rest, rest[0]) == Closed(rest[1..])
    ensures SkipSpace(e.after + rest) == rest
    decreases e, 2
  {
    ElementSplit(e, rest);
    SkipsValue(e.before, e.value, e.after + rest);
    SkipsSpace(e.after, rest);
  }

  /** The element loop, entered at the first element or past the white space before it. */
  lemma {:induction false} SkipsElements(es: seq<Element>, rest: seq<byte>)
    requires es != [] && forall i :: 0 <= i < |es| ==> LegalElement(es[i])
    ensures var s := RenderElements(es) + ([CLOSE_BRACKET] + rest);
      SkipElements(s) == Some(rest)
    decreases es, 0
  {
    var close := [CLOSE_BRACKET] + rest;
    var later := LaterElements(es, close);
    ElementsSplit(es, close);
    SkipsElement(es[0], later);
    if |es| == 1 {
      assert later[1..] == rest;
    } else {
      assert later[1..] == RenderElements(es[1..]) + close;
      SkipsElements(es[1..], rest);
    }
  }

  /** A key, a colon and an element, up to the delimiter that follows. */
  lemma {:induction false} SkipsMember(m: Member, later: seq<byte>)
    requires LegalMember(m) && later != [] && EndsToken(later[0]) && !IsSpace(later[0])
    ensures SkipMember(RenderMember(m) + later) == Some(m.element.after + later)
    ensures SkipSpace(m.element.after + later) == later
    decreases m, 3
  {
    var value := RenderElement(m.element) + later;
    MemberSplit(m, later);
    SkipsString(m.before, m.key, m.middle + ([COLON] + value));
    Expects(m.middle, COLON, value);
    SkipsElement(m.element, later);
  }

  lemma {:induction false} SkipsMembers(ms: seq<Member>, rest: seq<byte>)
    requires ms != [] && forall i :: 0 <= i < |ms| ==> LegalMember(ms[i])
    ensures var s := RenderMembers(ms) + ([CLOSE_BRACE] + rest);
      SkipMembers(s) == Some(rest)
    decreases ms, 0
  {
    var close := [CLOSE_BRACE] + rest;
    var later := LaterMembers(ms, close);
    MembersSplit(ms, close);
    SkipsMember(ms[0], later);
    if |ms| == 1 {
      assert later[1..] == rest;
    } else {
      assert later[1..] == RenderMembers(ms[1..]) + close;
      SkipsMembers(ms[1..], rest);
    }
  }
}
