/** The router's printed selection and the executor's reading of it. */
module RouterOutput {
  import opened Common
  import R = InputRouter

  type Key = string

  /** The characters at which Python's `splitlines` ends a line. */
  predicate IsLineBreak(c: char) {
    '\n' <= c <= '\r' || '\U{1c}' <= c <= '\U{1e}' || c == '\U{85}' || c == '\U{2028}' || c == '\U{2029}'
  }

  function BeforeBreak(s: string): (n: nat)
    ensures n <= |s|
  {
    if s == "" || IsLineBreak(s[0]) then 0 else 1 + BeforeBreak(s[1..])
  }

  /** A carriage return and a line feed together end one line. */
  function SplitLines(s: string): seq<string>
    decreases |s|
  {
    if s == "" then []
    else
      var n := BeforeBreak(s);
      if n == |s| then [s]
      else if s[n] == '\r' && n + 1 < |s| && s[n + 1] == '\n' then [s[..n]] + SplitLines(s[n + 2..])
      else [s[..n]] + SplitLines(s[n + 1..])
  }

  function Show(b: bool): string {
    if b then "true" else "false"
  }

  function Entry(key: Key, value: string): string {
    key + "=" + value
  }

  const HEADER := "local_contract"

  /** The printed lines: the contract header, then one line per key in the given order. */
  function PrintedLines(result: map<Key, bool>, order: seq<Key>): seq<string>
    requires forall k :: k in order ==> k in result
  {
    [Entry(HEADER, "v1")] + EntryLines(result, order)
  }

  function EntryLines(result: map<Key, bool>, order: seq<Key>): seq<string>
    requires forall k :: k in order ==> k in result
  {
    if order == [] then []
    else
      assert order[0] in order;
      [Entry(order[0], Show(result[order[0]]))] + EntryLines(result, order[1..])
  }

  function PrintLines(lines: seq<string>): string {
    if lines == [] then "" else lines[0] + "\n" + PrintLines(lines[1..])
  }

  predicate OneLine(s: string) {
    forall i :: 0 <= i < |s| ==> !IsLineBreak(s[i])
  }

  lemma {:induction false} BreakAfter(line: string, rest: string)
    requires OneLine(line)
    ensures BeforeBreak(line + "\n" + rest) == |line|
  {
    var s := line + "\n" + rest;
    if line != "" {
      assert s[1..] == line[1..] + "\n" + rest;
      BreakAfter(line[1..], rest);
    }
  }

  /** Splitting printed lines gives them back. */
  lemma {:induction false} SplitPrinted(lines: seq<string>)
    requires forall l :: l in lines ==> OneLine(l)
    ensures SplitLines(PrintLines(lines)) == lines
  {
    if lines != [] {
      assert lines[0] in lines;
      var s := PrintLines(lines);
      BreakAfter(lines[0], PrintLines(lines[1..]));
      assert s[|lines[0]|] == '\n' && s[..|lines[0]|] == lines[0];
      assert s[|lines[0]| + 1..] == PrintLines(lines[1..]);
      SplitPrinted(lines[1..]);
    }
  }

  // ----- Reading -----

  /** The part before the first `=`. */
  function KeyLength(line: string): (n: nat)
    ensures n <= |line|
  {
    if line == "" || line[0] == '=' then 0 else 1 + KeyLength(line[1..])
  }

  /** All lines as a dictionary; refused on a line without `=` or a repeated key. */
  function ReadValues(lines: seq<string>, values: map<Key, string>): Option<map<Key, string>> {
    if lines == [] then Some(values)
    else
      var n := KeyLength(lines[0]);
      if n == |lines[0]| || lines[0][..n] in values then None
      else ReadValues(lines[1..], values[lines[0][..n] := lines[0][n + 1..]])
  }

  function ValueOf(values: map<Key, string>, key: Key): Option<string> {
    if key in values then Some(values[key]) else None
  }

  function GateValue(values: map<Key, string>, gate: string): string {
    if "local_" + gate in values then values["local_" + gate] else "true"
  }

  predicate GoodHeader(values: map<Key, string>) {
    ValueOf(values, HEADER) == Some("v1") && ValueOf(values, "local_default") == Some("true")
  }

  predicate GoodGates(values: map<Key, string>, gates: seq<string>) {
    forall i :: 0 <= i < |gates| ==> GateValue(values, gates[i]) in {"true", "false"}
  }

  /** The executor's selection, or None where it refuses the output. */
  ghost function Selection(output: string, gates: seq<string>): Option<map<string, bool>> {
    var values := ReadValues(SplitLines(output), map[]);
    if values.None? || !GoodHeader(values.value) || !GoodGates(values.value, gates) then None
    else Some(map g | g in gates :: GateValue(values.value, g) == "true")
  }

  method ReadSelection(output: string, gates: seq<string>) returns (r: Option<map<string, bool>>)
    ensures r == Selection(output, gates)
  {
    var lines := SplitLines(output);
    var values: map<Key, string> := map[];
    assert lines[0..] == lines;
    for i := 0 to |lines|
      invariant ReadValues(lines, map[]) == ReadValues(lines[i..], values)
    {
      assert lines[i..][1..] == lines[i + 1..];
      var n := KeyLength(lines[i]);
      if n == |lines[i]| || lines[i][..n] in values { return None; }
      values := values[lines[i][..n] := lines[i][n + 1..]];
    }
    if ValueOf(values, HEADER) != Some("v1") { return None; }
    if ValueOf(values, "local_default") != Some("true") { return None; }
    r := ReadGates(values, gates);
  }

  method ReadGates(values: map<Key, string>, gates: seq<string>) returns (r: Option<map<string, bool>>)
    ensures r == if GoodGates(values, gates) then Some(map g | g in gates :: GateValue(values, g) == "true") else None
  {
    var selected: map<string, bool> := map[];
    for i := 0 to |gates|
      invariant forall k :: 0 <= k < i ==> GateValue(values, gates[k]) in {"true", "false"}
      invariant forall g :: g in selected <==> g in gates[..i]
      invariant forall g :: g in selected ==> selected[g] == (GateValue(values, g) == "true")
    {
      var value := GateValue(values, gates[i]);
      if value != "true" && value != "false" { return None; }
      assert gates[..i + 1] == gates[..i] + [gates[i]];
      selected := selected[gates[i] := value == "true"];
    }
    assert gates[..|gates|] == gates;
    assert selected == map g | g in gates :: GateValue(values, g) == "true";
    return Some(selected);
  }

  // ----- Reading what was printed -----

  predicate Printable(key: Key) {
    OneLine(key) && '=' !in key
  }

  lemma {:induction false} KeyEnds(key: Key, value: string)
    requires '=' !in key
    ensures KeyLength(Entry(key, value)) == |key|
  {
    var line := Entry(key, value);
    if key != "" {
      assert line[0] == key[0] && key[0] in key;
      assert line[1..] == Entry(key[1..], value);
      KeyEnds(key[1..], value);
    }
  }

  lemma EntryReads(key: Key, value: string)
    requires '=' !in key
    ensures var line := Entry(key, value); var n := KeyLength(line);
      n < |line| && line[..n] == key && line[n + 1..] == value
  {
    KeyEnds(key, value);
  }

  /** `v` is `values` with the printed entries added. */
  ghost predicate Extends(v: map<Key, string>, values: map<Key, string>, result: map<Key, bool>, order: seq<Key>) {
    && (forall k :: k in v <==> k in values || k in order)
    && (forall k :: k in order && k in result ==> v[k] == Show(result[k]))
    && (forall k :: k in values && k !in order ==> v[k] == values[k])
  }

  /** Distinct printable entries are read back, added to what was read before. */
  lemma {:induction false} ReadsEntries(result: map<Key, bool>, order: seq<Key>, values: map<Key, string>)
    requires forall k :: k in order ==> k in result && Printable(k) && k !in values
    requires Distinct(order)
    ensures ReadValues(EntryLines(result, order), values).Some?
    ensures Extends(ReadValues(EntryLines(result, order), values).value, values, result, order)
  {
    if order != [] {
      var k, rest := order[0], order[1..];
      assert k in order && order == [k] + rest;
      assert k !in rest;
      assert Distinct(rest) by { assert forall i :: 0 <= i < |rest| ==> rest[i] == order[i + 1]; }
      EntryReads(k, Show(result[k]));
      var longer := values[k := Show(result[k])];
      ReadsEntries(result, rest, longer);
      ExtendsMore(ReadValues(EntryLines(result, rest), longer).value, values, result, k, rest);
      assert ReadValues(EntryLines(result, order), values) == ReadValues(EntryLines(result, rest), longer);
    }
  }

  lemma ExtendsMore(v: map<Key, string>, values: map<Key, string>, result: map<Key, bool>, k: Key, rest: seq<Key>)
    requires k in result && k !in rest && Extends(v, values[k := Show(result[k])], result, rest)
    ensures Extends(v, values, result, [k] + rest)
  {
  }

  lemma {:induction false} RepeatedHeader(result: map<Key, bool>, order: seq<Key>, values: map<Key, string>)
    requires forall k :: k in order ==> k in result && Printable(k)
    requires HEADER in order && HEADER in values
    ensures ReadValues(EntryLines(result, order), values).None?
  {
    var k := order[0];
    assert k in order;
    EntryReads(k, Show(result[k]));
    if k !in values {
      RepeatedHeader(result, order[1..], values[k := Show(result[k])]);
    }
  }

  lemma HeaderReads(lines: seq<string>)
    ensures ReadValues([Entry(HEADER, "v1")] + lines, map[]) == ReadValues(lines, map[HEADER := "v1"])
  {
    EntryReads(HEADER, "v1");
    assert ([Entry(HEADER, "v1")] + lines)[1..] == lines;
  }

  lemma {:induction false} EntriesAreLines(result: map<Key, bool>, order: seq<Key>)
    requires forall k :: k in order ==> k in result && Printable(k)
    ensures forall l :: l in EntryLines(result, order) ==> OneLine(l)
  {
    if order != [] {
      var k := order[0];
      assert k in order;
      assert OneLine(Entry(k, Show(result[k])));
      EntriesAreLines(result, order[1..]);
    }
  }

  /** Exactly the gates are decided, and a gate is off only if its key is printed as false. */
  ghost predicate Agrees(selected: map<string, bool>, result: map<Key, bool>, gates: seq<string>) {
    && (forall g :: g in selected <==> g in gates)
    && (forall g :: g in gates ==> (selected[g] <==> ("local_" + g in result ==> result["local_" + g])))
  }

  /**
   * A printed result with printable keys is read back exactly, whatever the order of its lines: the
   * reader refuses if and only if the result names the header key, turns off the default, or a gate
   * is called `contract`; otherwise a gate is selected unless its key is printed as false.
   */
  lemma ReadsBack(result: map<Key, bool>, order: seq<Key>, gates: seq<string>)
    requires Distinct(order) && (forall k :: k in order <==> k in result) && forall k :: k in result ==> Printable(k)
    ensures var output := PrintLines(PrintedLines(result, order));
      && (Selection(output, gates).Some? <==>
            HEADER !in result && "local_default" in result && result["local_default"] && "contract" !in gates)
      && (Selection(output, gates).Some? ==> Agrees(Selection(output, gates).value, result, gates))
  {
    var lines := PrintedLines(result, order);
    EntriesAreLines(result, order);
    SplitPrinted(lines);
    HeaderReads(EntryLines(result, order));
    if HEADER in result {
      RepeatedHeader(result, order, map[HEADER := "v1"]);
    } else {
      ReadsEntries(result, order, map[HEADER := "v1"]);
      var values := ReadValues(EntryLines(result, order), map[HEADER := "v1"]).value;
      GatesRead(result, values, gates);
      SelectionOf(PrintLines(lines), values, result, gates);
    }
  }

  lemma SelectionOf(output: string, values: map<Key, string>, result: map<Key, bool>, gates: seq<string>)
    requires ReadValues(SplitLines(output), map[]) == Some(values) && GoodGates(values, gates) == ("contract" !in gates)
    requires HEADER in values && values[HEADER] == "v1" && HEADER !in result
    requires "local_default" in values <==> "local_default" in result
    requires "local_default" in result ==> values["local_default"] == Show(result["local_default"])
    requires forall g :: g in gates && g != "contract" ==>
      (GateValue(values, g) == "true" <==> ("local_" + g in result ==> result["local_" + g]))
    ensures Selection(output, gates).Some? <==>
      "local_default" in result && result["local_default"] && "contract" !in gates
    ensures Selection(output, gates).Some? ==> Agrees(Selection(output, gates).value, result, gates)
  {
  }

  lemma GatesRead(result: map<Key, bool>, values: map<Key, string>, gates: seq<string>)
    requires HEADER !in result
    requires forall k :: k in values <==> k == HEADER || k in result
    requires values[HEADER] == "v1" && forall k :: k in result ==> values[k] == Show(result[k])
    ensures GoodGates(values, gates) <==> "contract" !in gates
    ensures forall g :: g in gates && g != "contract" ==>
      (GateValue(values, g) == "true" <==> ("local_" + g in result ==> result["local_" + g]))
  {
    assert "local_" + "contract" == HEADER;
    forall g | g != "contract" ensures "local_" + g != HEADER {
      assert ("local_" + g)[6..] == g && HEADER[6..] == "contract";
    }
  }

  // ----- Which outputs are refused -----

  /** The line gives the key a value; the key ends at the first `=`. */
  ghost predicate Gives(line: string, key: Key, value: string) {
    line == key + "=" + value && '=' !in key
  }

  /** Both lines give values to one key. */
  ghost predicate SameKey(a: string, b: string) {
    exists key, v, w :: Gives(a, key, v) && Gives(b, key, w)
  }

  /** Some line gives the gate another value than `true` or `false`. */
  ghost predicate Muddled(lines: seq<string>, gate: string) {
    exists line, value :: line in lines && Gives(line, "local_" + gate, value) && value != "true" && value != "false"
  }

  /** Every line has a `=`, no two have the same key, the two header lines are there, and no gate is muddled. */
  ghost predicate Readable(lines: seq<string>, gates: seq<string>) {
    && (forall i :: 0 <= i < |lines| ==> '=' in lines[i])
    && (forall i, j :: 0 <= i < j < |lines| ==> !SameKey(lines[i], lines[j]))
    && "local_contract=v1" in lines && "local_default=true" in lines
    && forall g :: g in gates ==> !Muddled(lines, g)
  }

  function KeyOf(line: string): Key {
    line[..KeyLength(line)]
  }

  lemma {:induction false} KeyIsBefore(line: string)
    ensures '=' !in KeyOf(line) && (KeyLength(line) < |line| <==> '=' in line)
    ensures KeyLength(line) < |line| ==> line[KeyLength(line)] == '='
  {
    if line != "" && line[0] != '=' {
      KeyIsBefore(line[1..]);
      assert line == [line[0]] + line[1..] && KeyOf(line) == [line[0]] + KeyOf(line[1..]);
    }
  }

  lemma GivesOwnKey(line: string)
    requires KeyLength(line) < |line|
    ensures Gives(line, KeyOf(line), line[KeyLength(line) + 1..])
  {
    KeyIsBefore(line);
    Rejoin(line, KeyLength(line));
  }

  lemma Rejoin(line: string, n: nat)
    requires n < |line| && line[n] == '='
    ensures line == line[..n] + "=" + line[n + 1..]
  {
  }

  lemma GivesExactly(line: string, key: Key, value: string)
    ensures Gives(line, key, value) <==>
      KeyLength(line) < |line| && key == KeyOf(line) && value == line[KeyLength(line) + 1..]
  {
    if Gives(line, key, value) {
      assert line == Entry(key, value);
      EntryReads(key, value);
    } else if KeyLength(line) < |line| {
      GivesOwnKey(line);
    }
  }

  lemma SameKeyExactly(a: string, b: string)
    requires '=' in a && '=' in b
    ensures SameKey(a, b) <==> KeyOf(a) == KeyOf(b)
  {
    KeyIsBefore(a);
    KeyIsBefore(b);
    GivesExactly(a, KeyOf(a), a[KeyLength(a) + 1..]);
    GivesExactly(b, KeyOf(b), b[KeyLength(b) + 1..]);
    forall key, v, w | Gives(a, key, v) && Gives(b, key, w) ensures KeyOf(a) == KeyOf(b) {
      GivesExactly(a, key, v);
      GivesExactly(b, key, w);
    }
  }

  ghost predicate NewKeys(lines: seq<string>, values: map<Key, string>) {
    && (forall i :: 0 <= i < |lines| ==> KeyLength(lines[i]) < |lines[i]| && KeyOf(lines[i]) !in values)
    && (forall i, j :: 0 <= i < j < |lines| ==> KeyOf(lines[i]) != KeyOf(lines[j]))
  }

  /** The dictionary read from the lines, on top of `values`. */
  ghost predicate Reads(v: map<Key, string>, lines: seq<string>, values: map<Key, string>) {
    && (forall line :: line in lines && KeyLength(line) < |line| ==>
          KeyOf(line) in v && v[KeyOf(line)] == line[KeyLength(line) + 1..])
    && (forall k :: k in values ==> k in v && v[k] == values[k])
    && (forall k :: k in v ==> k in values || exists line :: line in lines && KeyOf(line) == k)
  }

  lemma NewKeysFirst(lines: seq<string>, values: map<Key, string>, value: string)
    requires lines != []
    ensures NewKeys(lines, values) <==>
      && KeyLength(lines[0]) < |lines[0]| && KeyOf(lines[0]) !in values
      && NewKeys(lines[1..], values[KeyOf(lines[0]) := value])
  {
    var rest, more := lines[1..], values[KeyOf(lines[0]) := value];
    assert forall i :: 0 <= i < |rest| ==> rest[i] == lines[i + 1];
    if NewKeys(rest, more) {
      forall i | 0 < i < |lines|
        ensures KeyLength(lines[i]) < |lines[i]| && KeyOf(lines[i]) !in values && KeyOf(lines[0]) != KeyOf(lines[i])
      {
        assert lines[i] == rest[i - 1];
      }
      forall i, j | 0 < i < j < |lines| ensures KeyOf(lines[i]) != KeyOf(lines[j]) {
        assert lines[i] == rest[i - 1] && lines[j] == rest[j - 1];
      }
    }
  }

  lemma ReadsFirst(v: map<Key, string>, lines: seq<string>, values: map<Key, string>)
    requires lines != [] && KeyLength(lines[0]) < |lines[0]| && KeyOf(lines[0]) !in values
    requires Reads(v, lines[1..], values[KeyOf(lines[0]) := lines[0][KeyLength(lines[0]) + 1..]])
    ensures Reads(v, lines, values)
  {
    assert lines == [lines[0]] + lines[1..];
    var more := values[KeyOf(lines[0]) := lines[0][KeyLength(lines[0]) + 1..]];
    assert KeyOf(lines[0]) in more;
  }

  lemma {:induction false} ReadsLines(lines: seq<string>, values: map<Key, string>)
    ensures ReadValues(lines, values).Some? <==> NewKeys(lines, values)
    ensures ReadValues(lines, values).Some? ==> Reads(ReadValues(lines, values).value, lines, values)
  {
    if lines != [] {
      var n := KeyLength(lines[0]);
      if n < |lines[0]| && KeyOf(lines[0]) !in values {
        var more := values[KeyOf(lines[0]) := lines[0][n + 1..]];
        NewKeysFirst(lines, values, lines[0][n + 1..]);
        ReadsLines(lines[1..], more);
        if NewKeys(lines[1..], more) { ReadsFirst(ReadValues(lines[1..], more).value, lines, values); }
      }
    }
  }

  lemma ReadsKey(lines: seq<string>, v: map<Key, string>, key: Key, value: string)
    requires Reads(v, lines, map[]) && forall line :: line in lines ==> '=' in line
    ensures key in v && v[key] == value <==> exists line :: line in lines && Gives(line, key, value)
  {
    forall line | line in lines ensures KeyLength(line) < |line| { KeyIsBefore(line); }
    forall line | line in lines && Gives(line, key, value) ensures key in v && v[key] == value {
      GivesExactly(line, key, value);
    }
    if key in v && v[key] == value {
      var line :| line in lines && KeyOf(line) == key;
      GivesExactly(line, key, value);
    }
  }

  lemma NewKeysExactly(lines: seq<string>)
    ensures NewKeys(lines, map[]) <==>
      && (forall i :: 0 <= i < |lines| ==> '=' in lines[i])
      && (forall i, j :: 0 <= i < j < |lines| ==> !SameKey(lines[i], lines[j]))
  {
    forall i | 0 <= i < |lines| ensures KeyLength(lines[i]) < |lines[i]| <==> '=' in lines[i] { KeyIsBefore(lines[i]); }
    forall i, j | 0 <= i < j < |lines| && '=' in lines[i] && '=' in lines[j]
      ensures SameKey(lines[i], lines[j]) <==> KeyOf(lines[i]) == KeyOf(lines[j])
    {
      SameKeyExactly(lines[i], lines[j]);
    }
  }

  /** A value of the dictionary is a line of the output. */
  lemma ValueIsLine(lines: seq<string>, v: map<Key, string>, key: Key, value: string)
    requires Reads(v, lines, map[]) && '=' !in key && forall line :: line in lines ==> '=' in line
    ensures key in v && v[key] == value <==> key + "=" + value in lines
  {
    ReadsKey(lines, v, key, value);
    assert Gives(key + "=" + value, key, value);
  }

  lemma GateIsMuddled(lines: seq<string>, v: map<Key, string>, gate: string)
    requires Reads(v, lines, map[]) && forall line :: line in lines ==> '=' in line
    ensures GateValue(v, gate) in {"true", "false"} <==> !Muddled(lines, gate)
  {
    var key := "local_" + gate;
    if key in v { ReadsKey(lines, v, key, v[key]); }
    if Muddled(lines, gate) {
      var line, value :| line in lines && Gives(line, key, value) && value != "true" && value != "false";
      ReadsKey(lines, v, key, value);
    }
  }

  /** The dictionary of the lines is good exactly when the lines are readable. */
  lemma LinesReadable(lines: seq<string>, gates: seq<string>)
    ensures Readable(lines, gates) <==>
      var v := ReadValues(lines, map[]);
      v.Some? && GoodHeader(v.value) && GoodGates(v.value, gates)
  {
    ReadsLines(lines, map[]);
    NewKeysExactly(lines);
    if NewKeys(lines, map[]) {
      HeaderLines(lines, ReadValues(lines, map[]).value);
      GateLines(lines, ReadValues(lines, map[]).value, gates);
    }
  }

  /** The executor reads an output exactly when its lines are readable. */
  lemma ReadExactly(output: string, gates: seq<string>)
    ensures Selection(output, gates).Some? <==> Readable(SplitLines(output), gates)
  {
    LinesReadable(SplitLines(output), gates);
  }

  /**
   * It then decides the gates asked for, and leaves one out exactly when a line says `false` of it. A gate whose
   * name holds a `=` has no line and is never left out.
   */
  lemma LeftOutExactly(output: string, gates: seq<string>)
    requires Selection(output, gates).Some?
    ensures Selection(output, gates).value.Keys == Elements(gates)
    ensures forall g :: g in gates ==>
      (!Selection(output, gates).value[g] <==> '=' !in g && "local_" + g + "=false" in SplitLines(output))
  {
    var lines := SplitLines(output);
    var v := ReadValues(lines, map[]).value;
    ReadsLines(lines, map[]);
    NewKeysExactly(lines);
    GateLines(lines, v, gates);
    SelectedGates(v, lines, gates);
  }

  lemma SelectedGates(v: map<Key, string>, lines: seq<string>, gates: seq<string>)
    requires GoodGates(v, gates)
    requires forall g :: g in gates && GateValue(v, g) in {"true", "false"} ==>
      (GateValue(v, g) != "true" <==> '=' !in g && "local_" + g + "=false" in lines)
    ensures var selected := map g | g in gates :: GateValue(v, g) == "true";
      && selected.Keys == Elements(gates)
      && forall g :: g in gates ==> (!selected[g] <==> '=' !in g && "local_" + g + "=false" in lines)
  {
  }

  lemma HeaderTexts()
    ensures HEADER + "=" + "v1" == "local_contract=v1" && "local_default" + "=" + "true" == "local_default=true"
    ensures '=' !in HEADER && '=' !in "local_default"
  {
  }

  lemma HeaderLines(lines: seq<string>, v: map<Key, string>)
    requires Reads(v, lines, map[]) && forall line :: line in lines ==> '=' in line
    ensures GoodHeader(v) <==> "local_contract=v1" in lines && "local_default=true" in lines
  {
    HeaderTexts();
    var headerValue, defaultKey, defaultValue := "v1", "local_default", "true";
    ValueIsLine(lines, v, HEADER, headerValue);
    ValueIsLine(lines, v, defaultKey, defaultValue);
  }

  lemma GateLines(lines: seq<string>, v: map<Key, string>, gates: seq<string>)
    requires Reads(v, lines, map[]) && forall line :: line in lines ==> '=' in line
    ensures GoodGates(v, gates) <==> forall g :: g in gates ==> !Muddled(lines, g)
    ensures forall g :: g in gates && GateValue(v, g) in {"true", "false"} ==>
      (GateValue(v, g) != "true" <==> '=' !in g && "local_" + g + "=false" in lines)
  {
    forall g | g in gates ensures GateValue(v, g) in {"true", "false"} <==> !Muddled(lines, g) {
      GateIsMuddled(lines, v, g);
    }
    forall g | g in gates ensures GateValue(v, g) == "false" <==> '=' !in g && "local_" + g + "=false" in lines {
      GateIsFalse(lines, v, g);
    }
  }

  lemma GateIsFalse(lines: seq<string>, v: map<Key, string>, gate: string)
    requires Reads(v, lines, map[]) && forall line :: line in lines ==> '=' in line
    ensures GateValue(v, gate) == "false" <==> '=' !in gate && "local_" + gate + "=false" in lines
  {
    var key := "local_" + gate;
    assert key + "=" + "false" == "local_" + gate + "=false";
    ReadsKey(lines, v, key, "false");
    if '=' in gate {
      var i :| 0 <= i < |gate| && gate[i] == '=';
      assert key[i + 6] == '=';
      assert '=' in key;
    } else {
      ValueIsLine(lines, v, key, "false");
    }
  }

  // ----- From a change to the gates that run -----

  /** The result the classifier returns for an accepted request. */
  ghost predicate ClassifiedAs(r: R.Request, result: map<Key, bool>) {
    && R.Accepted(r)
    && (forall k :: k in result <==> R.IsKey(r, k))
    && (forall k :: k in result ==> (result[k] <==> R.Selected(r, k)))
  }

  /** The lines of a result, in some order, with keys that can be printed. */
  ghost predicate Prints(result: map<Key, bool>, order: seq<Key>) {
    Distinct(order) && (forall k :: k in order <==> k in result) && forall k :: k in result ==> Printable(k)
  }

  /** What the executor reads from the printed result. */
  ghost function ReadBack(result: map<Key, bool>, order: seq<Key>, gates: seq<string>): Option<map<string, bool>>
    requires Prints(result, order)
  {
    Selection(PrintLines(PrintedLines(result, order)), gates)
  }

  /** After printing and reading back, a gate is selected exactly when the router runs it. */
  lemma SelectionIsRuns(r: R.Request, result: map<Key, bool>, order: seq<Key>, gates: seq<string>, gate: string)
    requires ClassifiedAs(r, result) && Prints(result, order) && gate in gates
    ensures ReadBack(result, order, gates).Some? ==> gate in ReadBack(result, order, gates).value
    ensures ReadBack(result, order, gates).Some? ==> (ReadBack(result, order, gates).value[gate] <==> R.Runs(r, gate))
  {
    ReadsBack(result, order, gates);
    RunsUnlessFalse(r, result, gate);
  }

  lemma RunsUnlessFalse(r: R.Request, result: map<Key, bool>, gate: string)
    requires ClassifiedAs(r, result)
    ensures R.Runs(r, gate) <==> ("local_" + gate in result ==> result["local_" + gate])
  {
    var k := "local_" + gate;
    assert k in result <==> R.IsKey(r, k);
  }

  /** Some consumer of the contract lists the header's name among its outputs. */
  predicate ListsHeader(contract: R.Contract) {
    exists i :: 0 <= i < |contract.consumers| && HEADER in contract.consumers[i].outputs
  }

  /** The header's name is a key only where a consumer lists it. */
  lemma HeaderKeyExactly(r: R.Request)
    ensures R.IsKey(r, HEADER) <==> ListsHeader(r.contract)
  {
    forall p ensures HEADER != "input_package_" + p {
      assert HEADER[0] == 'l' && ("input_package_" + p)[0] == 'i';
    }
    HeaderIsNoBaseKey();
  }

  lemma HeaderIsNoBaseKey()
    ensures HEADER !in R.BASE_KEYS && HEADER !in R.RUST_KEYS
  {
  }

  /** The executor refuses the output only for a consumer or a gate that takes the header's name. */
  lemma ReadableExactly(r: R.Request, result: map<Key, bool>, order: seq<Key>, gates: seq<string>)
    requires ClassifiedAs(r, result) && Prints(result, order)
    ensures ReadBack(result, order, gates).Some? <==> !ListsHeader(r.contract) && "contract" !in gates
  {
    ReadsBack(result, order, gates);
    HeaderKeyExactly(r);
    assert R.InitiallyOn(r, "local_default") && R.IsKey(r, "local_default");
    assert "local_default" in result;
  }

  /** A mandatory gate is selected in what the executor reads. */
  lemma MandatoryIsSelected(r: R.Request, result: map<Key, bool>, order: seq<Key>, gates: seq<string>, gate: string)
    requires ClassifiedAs(r, result) && Prints(result, order) && gate in gates && gate in R.MANDATORY
    requires !ListsHeader(r.contract) && "contract" !in gates
    ensures ReadBack(result, order, gates).Some? && ReadBack(result, order, gates).value[gate]
  {
    ReadableExactly(r, result, order, gates);
    SelectionIsRuns(r, result, order, gates, gate);
    R.MandatoryAlwaysRuns(r, gate);
  }

  /** Any doubt about the change selects every gate in what the executor reads. */
  lemma DoubtSelectsEverything(r: R.Request, result: map<Key, bool>, order: seq<Key>, gates: seq<string>, gate: string)
    requires ClassifiedAs(r, result) && Prints(result, order) && gate in gates && R.Doubtful(r)
    requires !ListsHeader(r.contract) && "contract" !in gates
    ensures ReadBack(result, order, gates).Some? && ReadBack(result, order, gates).value[gate]
  {
    ReadableExactly(r, result, order, gates);
    SelectionIsRuns(r, result, order, gates, gate);
    R.DoubtRunsEverything(r, gate);
  }

  // ----- A consumer that takes the header's name -----

  /** No change, and one consumer whose output is called `local_contract`. */
  function HeaderTaken(): R.Request {
    var snapshot := R.Snapshot((path, pattern) => false, {}, {}, {}, {}, false, None, R.NoBase);
    var consumer := R.Consumer([HEADER], "readers", [], []);
    R.Request(snapshot, R.Contract([], [consumer], map["readers" := ["tools/*"]], map[], map[], None), [], false, false)
  }

  lemma {:induction false} SomeOrder(keys: set<Key>) returns (order: seq<Key>)
    ensures Distinct(order) && forall k :: k in order <==> k in keys
  {
    if keys == {} {
      order := [];
    } else {
      var k :| k in keys;
      var rest := SomeOrder(keys - {k});
      order := [k] + rest;
    }
  }

  predicate IsKeyChar(c: char) {
    'a' <= c <= 'z' || c == '_' || c == '-'
  }

  lemma OrdinaryKey(key: Key)
    requires forall i :: 0 <= i < |key| ==> IsKeyChar(key[i])
    ensures Printable(key)
  {
  }

  lemma MandatoryKeysArePrintable(key: Key)
    requires key in R.MANDATORY_KEYS
    ensures Printable(key)
  {
    OrdinaryKey(key);
  }

  lemma BaseKeysArePrintable(key: Key)
    requires key in R.BASE_KEYS + {HEADER}
    ensures Printable(key)
  {
    if key in R.MANDATORY_KEYS { MandatoryKeysArePrintable(key); } else { OrdinaryKey(key); }
  }

  lemma HeaderTakenKeys(k: Key)
    ensures R.IsKey(HeaderTaken(), k) <==> k in R.BASE_KEYS + {HEADER}
  {
    var r := HeaderTaken();
    assert r.contract.consumers[0].outputs == [HEADER];
  }

  lemma HeaderIsListed()
    ensures ListsHeader(HeaderTaken().contract)
  {
    assert HEADER in HeaderTaken().contract.consumers[0].outputs;
  }

  lemma HeaderTakenIsAccepted()
    ensures R.Accepted(HeaderTaken())
  {
    var r := HeaderTaken();
    assert r.contract.consumers[0].outputs == [HEADER] && R.LegalOutput(HEADER);
    assert R.Packages(r.contract) == {};
  }

  /** The classifier accepts it, prints a result, and the executor refuses the output for every gate list. */
  lemma HeaderTakenIsRefused() returns (result: map<Key, bool>, order: seq<Key>)
    ensures ClassifiedAs(HeaderTaken(), result) && Prints(result, order)
    ensures forall gates :: ReadBack(result, order, gates).None?
  {
    var r := HeaderTaken();
    var keys := R.BASE_KEYS + {HEADER};
    result := map k | k in keys :: R.Selected(r, k);
    order := SomeOrder(keys);
    forall k ensures R.IsKey(r, k) <==> k in keys { HeaderTakenKeys(k); }
    forall k | k in keys ensures Printable(k) { BaseKeysArePrintable(k); }
    HeaderTakenIsAccepted();
    HeaderIsListed();
    forall gates ensures ReadBack(result, order, gates).None? {
      ReadableExactly(r, result, order, gates);
    }
  }

  // ----- A larger change -----

  lemma LargerIsRead(small: R.Request, large: R.Request, smallResult: map<Key, bool>, largeResult: map<Key, bool>,
                     smallOrder: seq<Key>, largeOrder: seq<Key>, gates: seq<string>)
    requires R.Enlarges(small, large) && ClassifiedAs(small, smallResult) && ClassifiedAs(large, largeResult)
    requires Prints(smallResult, smallOrder) && Prints(largeResult, largeOrder)
    requires ReadBack(smallResult, smallOrder, gates).Some?
    ensures ReadBack(largeResult, largeOrder, gates).Some?
  {
    ReadableExactly(small, smallResult, smallOrder, gates);
    ReadableExactly(large, largeResult, largeOrder, gates);
    SameContract(small, large);
  }

  lemma SameContract(small: R.Request, large: R.Request)
    requires R.Enlarges(small, large)
    ensures large.contract == small.contract
  {
  }

  /**
   * Enlarging the changed-path list never deselects a gate: if the smaller change's output is read and
   * selects the gate, the larger change's output is read too and selects it.
   */
  lemma EnlargingSurvivesReadBack(small: R.Request, large: R.Request,
                                  smallResult: map<Key, bool>, largeResult: map<Key, bool>,
                                  smallOrder: seq<Key>, largeOrder: seq<Key>, gates: seq<string>, gate: string)
    requires R.Enlarges(small, large) && ClassifiedAs(small, smallResult) && ClassifiedAs(large, largeResult)
    requires Prints(smallResult, smallOrder) && Prints(largeResult, largeOrder) && gate in gates
    requires ReadBack(smallResult, smallOrder, gates).Some? && ReadBack(smallResult, smallOrder, gates).value[gate]
    ensures ReadBack(largeResult, largeOrder, gates).Some? && ReadBack(largeResult, largeOrder, gates).value[gate]
  {
    LargerIsRead(small, large, smallResult, largeResult, smallOrder, largeOrder, gates);
    SelectionIsRuns(small, smallResult, smallOrder, gates, gate);
    R.EnlargingKeepsGates(small, large, gate);
    SelectionIsRuns(large, largeResult, largeOrder, gates, gate);
  }
}
