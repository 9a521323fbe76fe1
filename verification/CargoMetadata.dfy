/** Reading package names out of Cargo's metadata document. */
module CargoMetadata {
  import opened Common
  import opened Json
  import Utf8

  type Bytes = seq<byte>

  const NAME: Bytes := [110, 97, 109, 101]                           // name
  const PACKAGES: Bytes := [112, 97, 99, 107, 97, 103, 101, 115]     // packages

  /** A read value and what is left after it. */
  datatype Read<T> = Read(value: T, rest: Bytes)

  /** The length of a string body without escapes or control bytes, up to its closing quote. */
  function PlainLength(s: Bytes): (n: Option<nat>)
    ensures n.Some? ==> n.value < |s| && s[n.value] == QUOTE
  {
    if s == [] || s[0] == BACKSLASH then None
    else if s[0] == QUOTE then Some(0)
    else if s[0] < 0x20 then None
    else
      var n := PlainLength(s[1..]);
      if n.None? then None else Some(n.value + 1)
  }

  function ParsePlain(s: Bytes): (r: Option<Read<Bytes>>)
    ensures r.Some? ==> |r.value.rest| < |s|
  {
    var open := Expect(s, QUOTE);
    if open.None? then None else
    var n := PlainLength(open.value);
    if n.None? || !Utf8.Valid(open.value[..n.value]) then None
    else Some(Read(open.value[..n.value], open.value[n.value + 1..]))
  }

  /** A key and its colon. */
  function ParseKey(s: Bytes): (r: Option<Read<Bytes>>)
    ensures r.Some? ==> |r.value.rest| < |s|
  {
    var key := ParsePlain(s);
    if key.None? then None else
    var colon := Expect(key.value.rest, COLON);
    if colon.None? then None else Some(Read(key.value.value, colon.value))
  }

  /** One field of a package object: the name known after it, and what is left. */
  function ParseField(s: Bytes, name: Option<Bytes>): (r: Option<Read<Option<Bytes>>>)
    ensures r.Some? ==> |r.value.rest| < |s|
  {
    var key := ParseKey(s);
    if key.None? then None
    else if key.value.value == NAME then
      var value := ParsePlain(key.value.rest);
      if value.None? then None else Some(Read(Some(value.value.value), value.value.rest))
    else
      var value := SkipValue(key.value.rest);
      if value.None? then None else Some(Read(name, value.value))
  }

  /** The fields of a package object; a later `name` replaces an earlier one. */
  function PackageFields(s: Bytes, name: Option<Bytes>): (r: Option<Read<Option<Bytes>>>)
    ensures r.Some? ==> |r.value.rest| < |s|
    decreases |s|
  {
    var t := SkipSpace(s);
    if StartsWith(t, CLOSE_BRACE) then Some(Read(name, t[1..])) else
    var field := ParseField(t, name);
    if field.None? then None else
    match AfterItem(field.value.rest, CLOSE_BRACE)
    case More(rest) => PackageFields(rest, field.value.value)
    case Closed(rest) => Some(Read(field.value.value, rest))
    case Neither => None
  }

  predicate IsNameByte(b: byte) {
    48 <= b <= 57 || 65 <= b <= 90 || 97 <= b <= 122 || b == 45 || b == 95
  }

  predicate IsPackageName(name: Bytes) {
    name != [] && forall i :: 0 <= i < |name| ==> IsNameByte(name[i])
  }

  predicate IsAsciiAlphanumeric(c: char) {
    'a' <= c <= 'z' || 'A' <= c <= 'Z' || '0' <= c <= '9'
  }

  /** A name is accepted exactly when it spells a text of ASCII letters, digits, hyphens and underscores. */
  lemma PackageNameExactly(name: Bytes, text: string)
    requires |name| == |text| && forall i :: 0 <= i < |text| ==> name[i] as int == text[i] as int
    ensures IsPackageName(name) <==>
      text != "" && forall i :: 0 <= i < |text| ==> IsAsciiAlphanumeric(text[i]) || text[i] in "-_"
  {
    forall i | 0 <= i < |text| ensures IsNameByte(name[i]) <==> IsAsciiAlphanumeric(text[i]) || text[i] in "-_" {
      assert text[i] as int == 45 <==> text[i] == '-';
      assert text[i] as int == 95 <==> text[i] == '_';
    }
  }

  function ParsePackage(s: Bytes): (r: Option<Read<Bytes>>)
    ensures r.Some? ==> |r.value.rest| < |s|
  {
    var open := Expect(s, OPEN_BRACE);
    if open.None? then None else
    var fields := PackageFields(open.value, None);
    if fields.None? || fields.value.value.None? || !IsPackageName(fields.value.value.value) then None
    else Some(Read(fields.value.value.value, fields.value.rest))
  }

  function ParsePackages(s: Bytes, names: set<Bytes>): Option<set<Bytes>>
    decreases |s|
  {
    var t := SkipSpace(s);
    if StartsWith(t, CLOSE_BRACKET) then Some(names) else
    var package := ParsePackage(t);
    if package.None? || package.value.value in names then None else
    match AfterItem(package.value.rest, CLOSE_BRACKET)
    case More(rest) => ParsePackages(rest, names + {package.value.value})
    case Closed(_) => Some(names + {package.value.value})
    case Neither => None
  }

  function PackagesArray(s: Bytes): Option<set<Bytes>> {
    var open := Expect(s, OPEN_BRACKET);
    if open.None? then None else ParsePackages(open.value, {})
  }

  /** The members of the root object, up to the first `packages`. */
  function RootMembers(s: Bytes): Option<set<Bytes>>
    decreases |s|
  {
    var t := SkipSpace(s);
    if StartsWith(t, CLOSE_BRACE) then None else
    var key := ParseKey(t);
    if key.None? then None
    else if key.value.value == PACKAGES then PackagesArray(key.value.rest)
    else
      var value := SkipValue(key.value.rest);
      if value.None? then None else
      match AfterItem(value.value, CLOSE_BRACE)
      case More(rest) => RootMembers(rest)
      case _ => None
  }

  function PackageNames(s: Bytes): Option<set<Bytes>> {
    var open := Expect(s, OPEN_BRACE);
    if open.None? then None else RootMembers(open.value)
  }

  // ----- The functions that advance an index -----

  ghost predicate ReadsTo<T(!new)>(bytes: Bytes, r: Option<(T, nat)>, spec: Option<Read<T>>) {
    (r.None? <==> spec.None?) &&
    (r.Some? ==> r.value.0 == spec.value.value && r.value.1 <= |bytes| && bytes[r.value.1..] == spec.value.rest)
  }

  method FindClosingQuote(bytes: Bytes, start: nat) returns (r: Option<nat>)
    requires start <= |bytes|
    ensures r.None? <==> PlainLength(bytes[start..]).None?
    ensures r.Some? ==> start <= r.value < |bytes| && PlainLength(bytes[start..]) == Some(r.value - start)
  {
    var i := start;
    while i < |bytes|
      invariant start <= i <= |bytes|
      invariant PlainLength(bytes[start..])
             == (var n := PlainLength(bytes[i..]); if n.None? then None else Some(n.value + (i - start)))
    {
      var b := bytes[i];
      assert bytes[i..][1..] == bytes[i + 1..];
      if b == QUOTE { return Some(i); }
      if b == BACKSLASH || b < 0x20 { return None; }
      i := i + 1;
    }
    return None;
  }

  method ParsePlainJsonString(bytes: Bytes, index: nat) returns (r: Option<(Bytes, nat)>)
    requires index <= |bytes|
    ensures ReadsTo(bytes, r, ParsePlain(bytes[index..]))
    ensures r.Some? ==> index < r.value.1
  {
    var open := ExpectJsonByte(bytes, index, QUOTE);
    if open.None? { return None; }
    var start := open.value;
    var close := FindClosingQuote(bytes, start);
    if close.None? { return None; }
    var i := close.value;
    assert bytes[start..][..i - start] == bytes[start..i] && bytes[start..][i - start + 1..] == bytes[i + 1..];
    if !Utf8.Valid(bytes[start..i]) { return None; }
    return Some((bytes[start..i], i + 1));
  }

  method ParseMetadataKey(bytes: Bytes, index: nat) returns (r: Option<(Bytes, nat)>)
    requires index <= |bytes|
    ensures ReadsTo(bytes, r, ParseKey(bytes[index..]))
    ensures r.Some? ==> index < r.value.1
  {
    var key := ParsePlainJsonString(bytes, index);
    if key.None? { return None; }
    var colon := ExpectJsonByte(bytes, key.value.1, COLON);
    if colon.None? { return None; }
    return Some((key.value.0, colon.value));
  }

  method ParsePackageField(bytes: Bytes, index: nat, name: Option<Bytes>) returns (r: Option<(Option<Bytes>, nat)>)
    requires index <= |bytes|
    ensures ReadsTo(bytes, r, ParseField(bytes[index..], name))
    ensures r.Some? ==> index < r.value.1
  {
    var key := ParseMetadataKey(bytes, index);
    if key.None? { return None; }
    if key.value.0 == NAME {
      var value := ParsePlainJsonString(bytes, key.value.1);
      if value.None? { return None; }
      return Some((Some(value.value.0), value.value.1));
    }
    var value := SkipJsonValue(bytes, key.value.1);
    if value.None? { return None; }
    return Some((name, value.value));
  }

  /** The field loop of a package object, from its opening brace to its closing one. */
  method ParsePackageFields(bytes: Bytes, index: nat) returns (r: Option<(Option<Bytes>, nat)>)
    requires index <= |bytes|
    ensures ReadsTo(bytes, r, PackageFields(bytes[index..], None))
    ensures r.Some? ==> index < r.value.1
  {
    var i := index;
    var name: Option<Bytes> := None;
    while true
      invariant index <= i <= |bytes|
      invariant PackageFields(bytes[i..], name) == PackageFields(bytes[index..], None)
      decreases |bytes| - i
    {
      i := SkipJsonWhitespace(bytes, i);
      if i < |bytes| && bytes[i] == CLOSE_BRACE {
        assert bytes[i..][1..] == bytes[i + 1..];
        return Some((name, i + 1));
      }
      var field := ParsePackageField(bytes, i, name);
      if field.None? { return None; }
      name := field.value.0;
      var next := AfterJsonItem(bytes, field.value.1, CLOSE_BRACE);
      match next {
        case ClosedAt(end) => return Some((name, end));
        case NeitherHere => return None;
        case MoreAt(following) => i := following;
      }
    }
  }

  method ParseMetadataPackage(bytes: Bytes, index: nat) returns (r: Option<(Bytes, nat)>)
    requires index <= |bytes|
    ensures ReadsTo(bytes, r, ParsePackage(bytes[index..]))
    ensures r.Some? ==> index < r.value.1
  {
    var open := ExpectJsonByte(bytes, index, OPEN_BRACE);
    if open.None? { return None; }
    var fields := ParsePackageFields(bytes, open.value);
    if fields.None? || fields.value.0.None? || !IsPackageName(fields.value.0.value) { return None; }
    return Some((fields.value.0.value, fields.value.1));
  }

  method ParseMetadataPackages(bytes: Bytes, index: nat) returns (r: Option<set<Bytes>>)
    requires index <= |bytes|
    ensures r == PackagesArray(bytes[index..])
  {
    var open := ExpectJsonByte(bytes, index, OPEN_BRACKET);
    if open.None? { return None; }
    var i := open.value;
    var names: set<Bytes> := {};
    while true
      invariant open.value <= i <= |bytes|
      invariant ParsePackages(bytes[i..], names) == PackagesArray(bytes[index..])
      decreases |bytes| - i
    {
      i := SkipJsonWhitespace(bytes, i);
      if i < |bytes| && bytes[i] == CLOSE_BRACKET { return Some(names); }
      var package := ParseMetadataPackage(bytes, i);
      if package.None? || package.value.0 in names { return None; }
      names := names + {package.value.0};
      var next := AfterJsonItem(bytes, package.value.1, CLOSE_BRACKET);
      match next {
        case ClosedAt(_) => return Some(names);
        case NeitherHere => return None;
        case MoreAt(following) => i := following;
      }
    }
  }

  method PackageNamesFromMetadata(bytes: Bytes) returns (r: Option<set<Bytes>>)
    ensures r == PackageNames(bytes)
  {
    assert bytes[0..] == bytes;
    var open := ExpectJsonByte(bytes, 0, OPEN_BRACE);
    if open.None? { return None; }
    var i := open.value;
    while true
      invariant open.value <= i <= |bytes|
      invariant RootMembers(bytes[i..]) == PackageNames(bytes)
      decreases |bytes| - i
    {
      i := SkipJsonWhitespace(bytes, i);
      if i < |bytes| && bytes[i] == CLOSE_BRACE { return None; }
      var key := ParseMetadataKey(bytes, i);
      if key.None? { return None; }
      if key.value.0 == PACKAGES {
        r := ParseMetadataPackages(bytes, key.value.1);
        return;
      }
      var value := SkipJsonValue(bytes, key.value.1);
      if value.None? { return None; }
      var next := AfterJsonItem(bytes, value.value, CLOSE_BRACE);
      if !next.MoreAt? { return None; }
      i := next.index;
    }
  }
}
