/** What the skipper accepts is exactly JSON as written, with its loose tokens and strings. */
module JsonExactly {
  import opened Common
  import opened Json
  import opened JsonGrammar

  lemma {:induction false} SpaceOf(s: seq<byte>) returns (space: seq<byte>)
    ensures AllSpace(space) && s == space + SkipSpace(s)
  {
    if s != [] && IsSpace(s[0]) {
      space := SpaceOf(s[1..]);
      space := [s[0]] + space;
    } else {
      space := [];
    }
  }

  lemma {:induction false} CharsOf(s: seq<byte>) returns (chars: seq<TextChar>)
    requires StringRest(s).Some?
    ensures LegalChars(chars) && s == RenderChars(chars) + ([QUOTE] + StringRest(s).value)
    decreases |s|
  {
    if s[0] == QUOTE {
      chars := [];
    } else {
      var first := if s[0] == BACKSLASH then Escape(s[1]) else Plain(s[0]);
      var later := CharsOf(s[if s[0] == BACKSLASH then 2 else 1..]);
      chars := [first] + later;
      assert chars[1..] == later;
    }
  }

  lemma {:induction false} TokenOf(s: seq<byte>) returns (bytes: seq<byte>)
    ensures s == bytes + TokenRest(s) && (forall i :: 0 <= i < |bytes| ==> !EndsToken(bytes[i]))
    ensures TokenRest(s) != [] ==> EndsToken(TokenRest(s)[0])
    ensures s != [] && !EndsToken(s[0]) ==> bytes != []
  {
    if s != [] && !EndsToken(s[0]) {
      bytes := TokenOf(s[1..]);
      bytes := [s[0]] + bytes;
    } else {
      bytes := [];
    }
  }

  lemma ExpectedOf(s: seq<byte>, b: byte) returns (space: seq<byte>)
    requires Expect(s, b).Some?
    ensures AllSpace(space) && s == space + ([b] + Expect(s, b).value)
  {
    space := SpaceOf(s);
  }

  lemma StringOf(s: seq<byte>) returns (space: seq<byte>, chars: seq<TextChar>)
    requires SkipString(s).Some?
    ensures AllSpace(space) && LegalChars(chars) && s == space + (RenderText(chars) + SkipString(s).value)
  {
    space := ExpectedOf(s, QUOTE);
    var body := Expect(s, QUOTE).value;
    chars := CharsOf(body);
    assert [QUOTE] + (RenderChars(chars) + ([QUOTE] + StringRest(body).value))
        == RenderText(chars) + StringRest(body).value;
  }

  /** White space, a legal value and what follows make up the text. */
  ghost predicate Written(s: seq<byte>, space: seq<byte>, v: Value, rest: seq<byte>) {
    AllSpace(space) && Legal(v) && Delimited(v, rest) && s == space + (Render(v) + rest)
  }

  lemma {:induction false} SkippedTwice(s: seq<byte>)
    ensures SkipSpace(SkipSpace(s)) == SkipSpace(s)
  {
    if s != [] && IsSpace(s[0]) { SkippedTwice(s[1..]); }
  }

  /** Whatever the skipper accepts is white space and a legal value, ending where the skipper stops. */
  lemma {:induction false} ValueOf(s: seq<byte>) returns (space: seq<byte>, v: Value)
    requires SkipValue(s).Some?
    ensures Written(s, space, v, SkipValue(s).value)
    decreases |s|, 2
  {
    SkippedTwice(s);
    SpaceBeforeValue(s, SkipSpace(s));
    space := SpaceOf(s);
    v := BareOf(SkipSpace(s));
  }

  lemma {:induction false} BareOf(t: seq<byte>) returns (v: Value)
    requires SkipSpace(t) == t && SkipValue(t).Some?
    ensures Legal(v) && Delimited(v, SkipValue(t).value) && t == Render(v) + SkipValue(t).value
    decreases |t|, 1
  {
    if t[0] == QUOTE {
      var space, chars := StringOf(t);
      NoSpaceBefore(t, space, RenderText(chars) + SkipValue(t).value);
      v := Text(chars);
    } else if t[0] == OPEN_BRACKET {
      v := ArrayOf(t);
    } else if t[0] == OPEN_BRACE {
      v := ObjectOf(t);
    } else {
      var bytes := TokenOf(t);
      v := Token(bytes);
    }
  }

  lemma NoSpaceBefore(t: seq<byte>, space: seq<byte>, rest: seq<byte>)
    requires SkipSpace(t) == t && AllSpace(space) && t == space + rest
    ensures space == [] && t == rest
  {
  }

  lemma ArrayOpens(t: seq<byte>)
    requires t != [] && t[0] == OPEN_BRACKET && SkipSpace(t) == t
    ensures var u := SkipSpace(t[1..]);
      SkipValue(t) == if StartsWith(u, CLOSE_BRACKET) then Some(u[1..]) else SkipElements(t[1..])
  {
    SkippedTwice(t[1..]);
    SpaceBeforeElements(t[1..], SkipSpace(t[1..]));
  }

  lemma ObjectOpens(t: seq<byte>)
    requires t != [] && t[0] == OPEN_BRACE && SkipSpace(t) == t
    ensures var u := SkipSpace(t[1..]);
      SkipValue(t) == if StartsWith(u, CLOSE_BRACE) then Some(u[1..]) else SkipMembers(t[1..])
  {
    SkippedTwice(t[1..]);
    SpaceBeforeMembers(t[1..], SkipSpace(t[1..]));
  }

  lemma Bracketed(t: seq<byte>, inner: seq<byte>, close: byte, rest: seq<byte>)
    requires t != [] && t[1..] == inner + ([close] + rest)
    ensures t == ([t[0]] + inner + [close]) + rest
  {
  }

  lemma {:induction false} ArrayOf(t: seq<byte>) returns (v: Value)
    requires t != [] && t[0] == OPEN_BRACKET && SkipSpace(t) == t && SkipValue(t).Some?
    ensures Legal(v) && !v.Token? && t == Render(v) + SkipValue(t).value
    decreases |t|, 0
  {
    var u := SkipSpace(t[1..]);
    ArrayOpens(t);
    if StartsWith(u, CLOSE_BRACKET) {
      var space := SpaceOf(t[1..]);
      v := EmptyArray(space);
      assert u == [CLOSE_BRACKET] + u[1..];
      Bracketed(t, space, CLOSE_BRACKET, u[1..]);
    } else {
      var es := ElementsOf(t[1..]);
      v := Array(es);
      Bracketed(t, RenderElements(es), CLOSE_BRACKET, SkipElements(t[1..]).value);
    }
  }

  lemma {:induction false} ObjectOf(t: seq<byte>) returns (v: Value)
    requires t != [] && t[0] == OPEN_BRACE && SkipSpace(t) == t && SkipValue(t).Some?
    ensures Legal(v) && !v.Token? && t == Render(v) + SkipValue(t).value
    decreases |t|, 0
  {
    var u := SkipSpace(t[1..]);
    ObjectOpens(t);
    if StartsWith(u, CLOSE_BRACE) {
      var space := SpaceOf(t[1..]);
      v := EmptyObject(space);
      assert u == [CLOSE_BRACE] + u[1..];
      Bracketed(t, space, CLOSE_BRACE, u[1..]);
    } else {
      var ms := MembersOf(t[1..]);
      v := Object(ms);
      Bracketed(t, RenderMembers(ms), CLOSE_BRACE, SkipMembers(t[1..]).value);
    }
  }

  /** What follows an item: white space, and then a comma or the closing byte. */
  lemma ItemEnd(s: seq<byte>, close: byte) returns (after: seq<byte>)
    requires !AfterItem(s, close).Neither?
    ensures AllSpace(after)
    ensures s == after + ([if AfterItem(s, close).More? then COMMA else close] + AfterItem(s, close).rest)
  {
    after := SpaceOf(s);
  }

  lemma {:induction false} ElementsOf(s: seq<byte>) returns (es: seq<Element>)
    requires SkipElements(s).Some?
    ensures es != [] && forall i :: 0 <= i < |es| ==> LegalElement(es[i])
    ensures s == RenderElements(es) + ([CLOSE_BRACKET] + SkipElements(s).value)
    decreases |s|, 3
  {
    var space, v := ValueOf(s);
    var rest := SkipValue(s).value;
    var after := ItemEnd(rest, CLOSE_BRACKET);
    var e := Element(space, v, after);
    var next := AfterItem(rest, CLOSE_BRACKET);
    if next.More? {
      var later := ElementsOf(next.rest);
      es := [e] + later;
      var close := [CLOSE_BRACKET] + SkipElements(s).value;
      ElementsSplit(es, close);
      ElementSplit(e, [COMMA] + (RenderElements(later) + close));
    } else {
      es := [e];
      ElementSplit(e, [CLOSE_BRACKET] + next.rest);
    }
  }

  lemma {:induction false} MemberOf(s: seq<byte>) returns (before: seq<byte>, key: seq<TextChar>, middle: seq<byte>,
                                                           space: seq<byte>, v: Value)
    requires SkipMember(s).Some?
    ensures AllSpace(before) && LegalChars(key) && AllSpace(middle)
    ensures AllSpace(space) && Legal(v) && Delimited(v, SkipMember(s).value)
    ensures s == before + (RenderText(key) + (middle + ([COLON] + (space + (Render(v) + SkipMember(s).value)))))
    decreases |s|, 3
  {
    before, key := StringOf(s);
    middle := ExpectedOf(SkipString(s).value, COLON);
    space, v := ValueOf(Expect(SkipString(s).value, COLON).value);
  }

  lemma {:induction false} MembersOf(s: seq<byte>) returns (ms: seq<Member>)
    requires SkipMembers(s).Some?
    ensures ms != [] && forall i :: 0 <= i < |ms| ==> LegalMember(ms[i])
    ensures s == RenderMembers(ms) + ([CLOSE_BRACE] + SkipMembers(s).value)
    decreases |s|, 4
  {
    var before, key, middle, space, v := MemberOf(s);
    var rest := SkipMember(s).value;
    var after := ItemEnd(rest, CLOSE_BRACE);
    var m := Member(before, key, middle, Element(space, v, after));
    var next := AfterItem(rest, CLOSE_BRACE);
    var close := [CLOSE_BRACE] + SkipMembers(s).value;
    if next.More? {
      var later := MembersOf(next.rest);
      ms := [m] + later;
      MembersSplit(ms, close);
      MemberWhole(m, rest, [COMMA] + (RenderMembers(later) + close));
    } else {
      ms := [m];
      MemberWhole(m, rest, close);
    }
  }

  lemma MemberWhole(m: Member, rest: seq<byte>, later: seq<byte>)
    requires rest == m.element.after + later
    ensures var value := m.element.before + (Render(m.element.value) + rest);
      m.before + (RenderText(m.key) + (m.middle + ([COLON] + value))) == RenderMember(m) + later
  {
    MemberSplit(m, later);
    ElementSplit(m.element, later);
  }

  /** On any bytes, the skipper stops at `rest` if and only if white space and a legal value come before it. */
  lemma SkipsExactly(s: seq<byte>, rest: seq<byte>)
    ensures SkipValue(s) == Some(rest) <==> exists space, v :: Written(s, space, v, rest)
  {
    if SkipValue(s) == Some(rest) {
      var space, v := ValueOf(s);
    }
    forall space, v | Written(s, space, v, rest) ensures SkipValue(s) == Some(rest) {
      SkipsValue(space, v, rest);
    }
  }
}
