/** Metadata documents as written, and the names the reader returns for them. */
module MetadataDocument {
  import opened Common
  import opened Json
  import opened JsonGrammar
  import opened CargoMetadata
  import Utf8

  /** A member with an escape-free key and any value. */
  datatype Other = Other(before: Bytes, key: Bytes, middle: Bytes, element: Element)

  datatype Field =
    | NameField(before: Bytes, middle: Bytes, lead: Bytes, name: Bytes, after: Bytes)
    | OtherField(other: Other)

  /** A package object in the array, with the white space around it. */
  datatype Entry = Entry(before: Bytes, fields: seq<Field>, after: Bytes)

  /** The root object up to the end of its first `packages` array; `gap` fills an empty array. */
  datatype Document = Document(
    lead: Bytes, others: seq<Other>, before: Bytes, middle: Bytes, space: Bytes, entries: seq<Entry>, gap: Bytes)

  function Quote(s: Bytes): Bytes {
    [QUOTE] + s + [QUOTE]
  }

  /** A key, white space and a colon, with the white space before it. */
  function RenderKey(before: Bytes, key: Bytes, middle: Bytes): Bytes {
    before + Quote(key) + middle + [COLON]
  }

  function RenderOther(o: Other): Bytes {
    RenderKey(o.before, o.key, o.middle) + RenderElement(o.element)
  }

  function RenderField(f: Field): Bytes {
    match f
    case NameField(before, middle, lead, name, after) => RenderKey(before, NAME, middle) + (lead + Quote(name) + after)
    case OtherField(other) => RenderOther(other)
  }

  function RenderFields(fs: seq<Field>): Bytes {
    if fs == [] then []
    else if |fs| == 1 then RenderField(fs[0])
    else RenderField(fs[0]) + [COMMA] + RenderFields(fs[1..])
  }

  function RenderEntry(e: Entry): Bytes {
    e.before + [OPEN_BRACE] + RenderFields(e.fields) + [CLOSE_BRACE] + e.after
  }

  function RenderEntries(es: seq<Entry>): Bytes {
    if es == [] then []
    else if |es| == 1 then RenderEntry(es[0])
    else RenderEntry(es[0]) + [COMMA] + RenderEntries(es[1..])
  }

  function RenderOthers(os: seq<Other>): Bytes {
    if os == [] then [] else RenderOther(os[0]) + [COMMA] + RenderOthers(os[1..])
  }

  function RenderPackages(d: Document): Bytes {
    RenderKey(d.before, PACKAGES, d.middle)
    + (d.space + [OPEN_BRACKET] + (if d.entries == [] then d.gap else RenderEntries(d.entries)) + [CLOSE_BRACKET])
  }

  function RenderDocument(d: Document): Bytes {
    d.lead + [OPEN_BRACE] + RenderOthers(d.others) + RenderPackages(d)
  }

  predicate PlainText(s: Bytes) {
    Utf8.Valid(s) && forall i :: 0 <= i < |s| ==> s[i] >= 0x20 && s[i] != QUOTE && s[i] != BACKSLASH
  }

  predicate LegalOther(o: Other, reserved: Bytes) {
    AllSpace(o.before) && PlainText(o.key) && o.key != reserved && AllSpace(o.middle) && LegalElement(o.element)
  }

  predicate LegalField(f: Field) {
    match f
    case NameField(before, middle, lead, name, after) =>
      AllSpace(before) && AllSpace(middle) && AllSpace(lead) && PlainText(name) && AllSpace(after)
    case OtherField(other) => LegalOther(other, NAME)
  }

  predicate LegalEntry(e: Entry) {
    AllSpace(e.before) && AllSpace(e.after) && e.fields != [] && forall f :: f in e.fields ==> LegalField(f)
  }

  predicate LegalDocument(d: Document) {
    && AllSpace(d.lead) && AllSpace(d.before) && AllSpace(d.middle) && AllSpace(d.space) && AllSpace(d.gap)
    && (forall o :: o in d.others ==> LegalOther(o, PACKAGES))
    && (forall e :: e in d.entries ==> LegalEntry(e))
  }

  // ----- What a document says -----

  /** The name after one field, given the name before it. */
  function NameAfter(f: Field, name: Option<Bytes>): Option<Bytes> {
    if f.NameField? then Some(f.name) else name
  }

  function FieldsName(fs: seq<Field>, name: Option<Bytes>): Option<Bytes> {
    if fs == [] then name else FieldsName(fs[1..], NameAfter(fs[0], name))
  }

  predicate HasName(e: Entry) {
    FieldsName(e.fields, None).Some? && IsPackageName(FieldsName(e.fields, None).value)
  }

  function EntryName(e: Entry): Bytes
    requires HasName(e)
  {
    FieldsName(e.fields, None).value
  }

  /** Names in order; refused at the first entry that has none, a bad one, or one already collected. */
  function Collect(es: seq<Entry>, names: set<Bytes>): Option<set<Bytes>> {
    if es == [] then Some(names)
    else if !HasName(es[0]) || EntryName(es[0]) in names then None
    else Collect(es[1..], names + {EntryName(es[0])})
  }

  // ----- Reading what was written -----

  lemma {:induction false} PlainLengthOf(s: Bytes, rest: Bytes)
    requires forall i :: 0 <= i < |s| ==> s[i] >= 0x20 && s[i] != QUOTE && s[i] != BACKSLASH
    ensures PlainLength(s + ([QUOTE] + rest)) == Some(|s|)
  {
    if s == [] {
      assert s + ([QUOTE] + rest) == [QUOTE] + rest;
    } else {
      assert (s + ([QUOTE] + rest))[1..] == s[1..] + ([QUOTE] + rest);
      PlainLengthOf(s[1..], rest);
    }
  }

  lemma ParsesPlain(space: Bytes, s: Bytes, rest: Bytes)
    requires AllSpace(space) && PlainText(s)
    ensures ParsePlain(space + (Quote(s) + rest)) == Some(Read(s, rest))
  {
    var body := s + ([QUOTE] + rest);
    QuotedBody(s, rest);
    Expects(space, QUOTE, body);
    PlainLengthOf(s, rest);
  }

  lemma QuotedBody(s: Bytes, rest: Bytes)
    ensures var body := s + ([QUOTE] + rest);
      Quote(s) + rest == [QUOTE] + body && body[..|s|] == s && body[|s| + 1..] == rest
  {
  }

  /** A key and its colon are read, and what follows is left. */
  lemma ParsesKey(before: Bytes, key: Bytes, middle: Bytes, rest: Bytes)
    requires AllSpace(before) && PlainText(key) && AllSpace(middle)
    ensures var t := SkipSpace(RenderKey(before, key, middle) + rest);
      t != [] && t[0] == QUOTE && ParseKey(t) == Some(Read(key, rest))
  {
    var t := Quote(key) + (middle + ([COLON] + rest));
    assert RenderKey(before, key, middle) + rest == before + t;
    SkipsSpace(before, t);
    ParsesPlain([], key, middle + ([COLON] + rest));
    assert [] + t == t;
    Expects(middle, COLON, rest);
  }

  lemma NameIsPlain()
    ensures PlainText(NAME) && PlainText(PACKAGES)
  {
    Utf8.AsciiIsValid(NAME);
    Utf8.AsciiIsValid(PACKAGES);
  }

  /** One field is read up to the white space after it. */
  lemma ParsesNameField(f: Field, later: Bytes, name: Option<Bytes>)
    requires LegalField(f) && f.NameField?
    ensures var t := SkipSpace(RenderField(f) + later);
      t != [] && t[0] == QUOTE && ParseField(t, name) == Some(Read(Some(f.name), f.after + later))
  {
    var rest := f.lead + (Quote(f.name) + (f.after + later));
    assert RenderField(f) + later == RenderKey(f.before, NAME, f.middle) + rest;
    NameIsPlain();
    ParsesKey(f.before, NAME, f.middle, rest);
    ParsesPlain(f.lead, f.name, f.after + later);
  }

  lemma ParsesOtherField(o: Other, later: Bytes, name: Option<Bytes>)
    requires LegalOther(o, NAME) && later != [] && later[0] in {COMMA, CLOSE_BRACE}
    ensures var t := SkipSpace(RenderOther(o) + later);
      t != [] && t[0] == QUOTE && ParseField(t, name) == Some(Read(name, o.element.after + later))
  {
    var rest := RenderElement(o.element) + later;
    assert RenderOther(o) + later == RenderKey(o.before, o.key, o.middle) + rest;
    ParsesKey(o.before, o.key, o.middle, rest);
    SkipsElement(o.element, later);
  }

  lemma ReadsDelimiter(space: Bytes, later: Bytes, close: byte)
    requires AllSpace(space) && later != [] && later[0] in {COMMA, close} && close in {CLOSE_BRACE, CLOSE_BRACKET}
    ensures AfterItem(space + later, close) == if later[0] == COMMA then More(later[1..]) else Closed(later[1..])
  {
    SkipsSpace(space, later);
  }

  lemma FieldThen(f: Field, later: Bytes, name: Option<Bytes>)
    requires LegalField(f) && later != [] && later[0] in {COMMA, CLOSE_BRACE}
    ensures PackageFields(RenderField(f) + later, name)
         == if later[0] == COMMA then PackageFields(later[1..], NameAfter(f, name))
            else Some(Read(NameAfter(f, name), later[1..]))
  {
    if f.NameField? {
      ParsesNameField(f, later, name);
      ReadsDelimiter(f.after, later, CLOSE_BRACE);
    } else {
      ParsesOtherField(f.other, later, name);
      ReadsDelimiter(f.other.element.after, later, CLOSE_BRACE);
    }
  }

  lemma Separated(first: Bytes, more: Bytes, close: Bytes)
    ensures first + [COMMA] + more + close == first + ([COMMA] + (more + close))
    ensures ([COMMA] + (more + close))[1..] == more + close
  {
  }

  lemma {:induction false} ParsesFields(fs: seq<Field>, rest: Bytes, name: Option<Bytes>)
    requires fs != [] && forall f :: f in fs ==> LegalField(f)
    ensures PackageFields(RenderFields(fs) + ([CLOSE_BRACE] + rest), name) == Some(Read(FieldsName(fs, name), rest))
    decreases |fs|
  {
    var close := [CLOSE_BRACE] + rest;
    assert close[1..] == rest && fs[0] in fs;
    if |fs| == 1 {
      FieldThen(fs[0], close, name);
    } else {
      Separated(RenderField(fs[0]), RenderFields(fs[1..]), close);
      FieldThen(fs[0], [COMMA] + (RenderFields(fs[1..]) + close), name);
      ParsesFields(fs[1..], rest, NameAfter(fs[0], name));
    }
  }

  lemma ParsesEntry(e: Entry, later: Bytes)
    requires LegalEntry(e)
    ensures var t := SkipSpace(RenderEntry(e) + later);
      && t != [] && t[0] == OPEN_BRACE
      && ParsePackage(t) == (if HasName(e) then Some(Read(EntryName(e), e.after + later)) else None)
  {
    var rest := e.after + later;
    var body := RenderFields(e.fields) + ([CLOSE_BRACE] + rest);
    EntrySplit(e, later);
    SkipsSpace(e.before, [OPEN_BRACE] + body);
    ExpectsNow(OPEN_BRACE, body);
    ParsesFields(e.fields, rest, None);
  }

  lemma EntrySplit(e: Entry, later: Bytes)
    ensures RenderEntry(e) + later
         == e.before + ([OPEN_BRACE] + (RenderFields(e.fields) + ([CLOSE_BRACE] + (e.after + later))))
  {
  }

  lemma ExpectsNow(b: byte, rest: Bytes)
    requires !IsSpace(b)
    ensures Expect([b] + rest, b) == Some(rest)
  {
    Expects([], b, rest);
    assert [] + ([b] + rest) == [b] + rest;
  }

  lemma EntryThen(e: Entry, later: Bytes, names: set<Bytes>)
    requires LegalEntry(e) && later != [] && later[0] in {COMMA, CLOSE_BRACKET}
    ensures ParsePackages(RenderEntry(e) + later, names)
         == if !HasName(e) || EntryName(e) in names then None
            else if later[0] == COMMA then ParsePackages(later[1..], names + {EntryName(e)})
            else Some(names + {EntryName(e)})
  {
    ParsesEntry(e, later);
    ReadsDelimiter(e.after, later, CLOSE_BRACKET);
  }

  lemma {:induction false} ParsesEntries(es: seq<Entry>, rest: Bytes, names: set<Bytes>)
    requires es != [] && forall e :: e in es ==> LegalEntry(e)
    ensures ParsePackages(RenderEntries(es) + ([CLOSE_BRACKET] + rest), names) == Collect(es, names)
    decreases |es|
  {
    var close := [CLOSE_BRACKET] + rest;
    assert es[0] in es;
    if |es| == 1 {
      EntryThen(es[0], close, names);
    } else {
      Separated(RenderEntry(es[0]), RenderEntries(es[1..]), close);
      EntryThen(es[0], [COMMA] + (RenderEntries(es[1..]) + close), names);
      if HasName(es[0]) {
        ParsesEntries(es[1..], rest, names + {EntryName(es[0])});
      }
    }
  }

  lemma ParsesArray(d: Document, rest: Bytes)
    requires LegalDocument(d)
    ensures var inner := if d.entries == [] then d.gap else RenderEntries(d.entries);
      PackagesArray(d.space + ([OPEN_BRACKET] + (inner + ([CLOSE_BRACKET] + rest)))) == Collect(d.entries, {})
  {
    var inner := if d.entries == [] then d.gap else RenderEntries(d.entries);
    Expects(d.space, OPEN_BRACKET, inner + ([CLOSE_BRACKET] + rest));
    if d.entries == [] {
      SkipsSpace(d.gap, [CLOSE_BRACKET] + rest);
    } else {
      ParsesEntries(d.entries, rest, {});
    }
  }

  lemma ParsesPackages(d: Document, rest: Bytes)
    requires LegalDocument(d)
    ensures RootMembers(RenderPackages(d) + rest) == Collect(d.entries, {})
  {
    var inner := if d.entries == [] then d.gap else RenderEntries(d.entries);
    var value := d.space + ([OPEN_BRACKET] + (inner + ([CLOSE_BRACKET] + rest)));
    PackagesSplit(d, rest);
    NameIsPlain();
    ParsesKey(d.before, PACKAGES, d.middle, value);
    ParsesArray(d, rest);
  }

  lemma PackagesSplit(d: Document, rest: Bytes)
    ensures var inner := if d.entries == [] then d.gap else RenderEntries(d.entries);
      RenderPackages(d) + rest
        == RenderKey(d.before, PACKAGES, d.middle) + (d.space + ([OPEN_BRACKET] + (inner + ([CLOSE_BRACKET] + rest))))
  {
  }

  lemma SkipsOther(o: Other, more: Bytes)
    requires LegalOther(o, PACKAGES)
    ensures RootMembers(RenderOther(o) + ([COMMA] + more)) == RootMembers(more)
  {
    var next := [COMMA] + more;
    var value := RenderElement(o.element) + next;
    assert RenderOther(o) + next == RenderKey(o.before, o.key, o.middle) + value;
    ParsesKey(o.before, o.key, o.middle, value);
    SkipsElement(o.element, next);
    assert next[1..] == more;
  }

  lemma {:induction false} SkipsOthers(os: seq<Other>, later: Bytes)
    requires forall o :: o in os ==> LegalOther(o, PACKAGES)
    ensures RootMembers(RenderOthers(os) + later) == RootMembers(later)
    decreases |os|
  {
    if os == [] {
      assert RenderOthers(os) + later == later;
    } else {
      assert os[0] in os;
      Separated(RenderOther(os[0]), RenderOthers(os[1..]), later);
      SkipsOther(os[0], RenderOthers(os[1..]) + later);
      SkipsOthers(os[1..], later);
    }
  }

  /**
   * For every written document, whatever `name` keys occur inside other values and whatever follows
   * the array, the reader returns what the packages say, and refuses exactly when they say it badly.
   */
  lemma ReadsPackageNames(d: Document, rest: Bytes)
    requires LegalDocument(d)
    ensures PackageNames(RenderDocument(d) + rest) == Collect(d.entries, {})
  {
    var packages := RenderPackages(d) + rest;
    var body := RenderOthers(d.others) + packages;
    assert RenderDocument(d) + rest == d.lead + ([OPEN_BRACE] + body);
    Expects(d.lead, OPEN_BRACE, body);
    SkipsOthers(d.others, packages);
    ParsesPackages(d, rest);
  }

  ghost predicate DistinctlyNamed(es: seq<Entry>) {
    && (forall i :: 0 <= i < |es| ==> HasName(es[i]))
    && (forall i, j :: 0 <= i < j < |es| ==> EntryName(es[i]) != EntryName(es[j]))
  }

  /** Collection succeeds exactly for valid, pairwise distinct and new names, and returns just those. */
  lemma {:induction false} CollectExactly(es: seq<Entry>, names: set<Bytes>)
    ensures Collect(es, names).Some? <==>
      DistinctlyNamed(es) && forall i :: 0 <= i < |es| ==> EntryName(es[i]) !in names
    ensures Collect(es, names).Some? ==>
      forall n :: n in Collect(es, names).value <==>
        n in names || exists i :: 0 <= i < |es| && HasName(es[i]) && EntryName(es[i]) == n
  {
    if es != [] && HasName(es[0]) && EntryName(es[0]) !in names {
      var tail := es[1..];
      CollectExactly(tail, names + {EntryName(es[0])});
      assert forall i :: 0 < i < |es| ==> es[i] == tail[i - 1];
      assert forall i :: 0 <= i < |tail| ==> tail[i] == es[i + 1];
    }
  }
}
