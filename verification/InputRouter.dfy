/** Which gates a change selects: the consumer input contract, applied to a snapshot of the checkout. */
module InputRouter {
  import opened Common

  type Path = string
  type Pattern = string
  type Key = string

  datatype Consumer = Consumer(outputs: seq<Key>, readerSet: string, inputs: seq<Pattern>, documentation: seq<Pattern>)

  datatype Contract = Contract(
    knownInputs: seq<Pattern>, consumers: seq<Consumer>, readerSets: map<string, seq<Pattern>>,
    packageInputs: map<string, seq<Pattern>>, packageDocumentation: map<string, seq<Pattern>>,
    rustCensus: Option<seq<Pattern>>)

  /** The comparison base: none given, one that cannot be read, or its tracked paths. */
  datatype Base = NoBase | Unreadable | Tree(paths: set<Path>)

  /** What the checkout and Git report, and how a path matches a pattern. */
  datatype Snapshot = Snapshot(
    matches: (Path, Pattern) -> bool, tracked: set<Path>, files: set<Path>, symlinks: set<Path>,
    census: set<Path>, ignoredInputs: bool, head: Option<set<Path>>, base: Base)

  datatype Request = Request(
    snapshot: Snapshot, contract: Contract, changed: seq<Path>, comparisonUnknown: bool, pathsOnly: bool)

  const MANDATORY: set<string> := {"agent-context", "audit-docs", "product-status-check", "deny"}
  const MANDATORY_KEYS: set<Key> :=
    {"local_agent-context", "local_audit-docs", "local_product-status-check", "local_deny"}
  const INPUT_KEYS: set<Key> :=
    {"input_rust", "input_ts", "input_all", "input_registry", "input_mermaid", "input_hygiene"}
  const RUST_KEYS: set<Key> := {"input_rust", "local_fmt-check", "local_clippy", "local_test", "local_doc"}
  const CONTRACT_FILE: Path := "tools/ci-inputs.json"

  // ----- Matching -----

  predicate Matches(s: Snapshot, path: Path, patterns: seq<Pattern>) {
    exists p :: p in patterns && s.matches(path, p)
  }

  predicate AnyMatches(s: Snapshot, changed: seq<Path>, patterns: seq<Pattern>) {
    exists path :: path in changed && Matches(s, path, patterns)
  }

  predicate StartsWith(s: string, prefix: string) {
    prefix <= s
  }

  /** A matching path the comparison side does not track, or that HEAD tracks and the checkout lost. */
  predicate NewMember(s: Snapshot, path: Path) {
    match s.base
    case Tree(paths) => path !in paths
    case _ =>
      s.head.None? || (path in s.census && path !in s.head.value) || (path in s.head.value && path !in s.files)
  }

  /** Membership of the Rust census changed; refused when the named base cannot be read. */
  predicate MembershipReadable(r: Request) {
    r.contract.rustCensus.Some? && AnyMatches(r.snapshot, r.changed, r.contract.rustCensus.value) ==>
      !r.snapshot.base.Unreadable?
  }

  predicate MembershipChanged(r: Request) {
    r.contract.rustCensus.Some? &&
    exists path :: path in r.changed && Matches(r.snapshot, path, r.contract.rustCensus.value)
      && NewMember(r.snapshot, path)
  }

  /** The change cannot be classified by its input edges. */
  predicate Uncertain(r: Request) {
    || r.comparisonUnknown
    || (!r.pathsOnly && (r.snapshot.ignoredInputs
          || exists path :: path in r.changed && Unestablished(r.snapshot, path)))
    || exists path :: path in r.changed && !Matches(r.snapshot, path, r.contract.knownInputs)
  }

  predicate Unestablished(s: Snapshot, path: Path) {
    path !in s.tracked || path !in s.files || path in s.symlinks
  }

  // ----- The contract -----

  predicate LegalPatterns(patterns: seq<Pattern>) {
    "" !in patterns
  }

  /** What the loader demands: no reader set and no census without patterns. */
  predicate Loads(c: Contract) {
    && (forall name :: name in c.readerSets ==> c.readerSets[name] != [] && LegalPatterns(c.readerSets[name]))
    && (c.rustCensus.Some? ==> c.rustCensus.value != [] && LegalPatterns(c.rustCensus.value))
  }

  predicate LegalOutput(output: Key) {
    StartsWith(output, "local_") || output in INPUT_KEYS
  }

  predicate LegalConsumer(c: Contract, consumer: Consumer) {
    && consumer.outputs != [] && (forall o :: o in consumer.outputs ==> LegalOutput(o))
    && consumer.readerSet in c.readerSets && LegalPatterns(consumer.documentation)
  }

  predicate IsPackageChar(c: char) {
    c == '-' || '0' <= c <= '9' || 'a' <= c <= 'z' || 'A' <= c <= 'Z'
  }

  predicate LegalPackage(c: Contract, package: string) {
    && StartsWith(package, "keld-") && (forall i :: 0 <= i < |package| ==> IsPackageChar(package[i]))
    && (package in c.packageInputs ==> c.packageInputs[package] != [] && LegalPatterns(c.packageInputs[package]))
    && (package in c.packageDocumentation ==>
          c.packageDocumentation[package] != [] && LegalPatterns(c.packageDocumentation[package]))
  }

  function Packages(c: Contract): set<string> {
    c.packageInputs.Keys + c.packageDocumentation.Keys
  }

  ghost predicate Accepted(r: Request) {
    && Loads(r.contract)
    && (forall i :: 0 <= i < |r.contract.consumers| ==> LegalConsumer(r.contract, r.contract.consumers[i]))
    && (forall p :: p in Packages(r.contract) ==> LegalPackage(r.contract, p))
    && MembershipReadable(r)
  }

  function ReaderPatterns(c: Contract, consumer: Consumer): seq<Pattern> {
    if consumer.readerSet in c.readerSets then c.readerSets[consumer.readerSet] else []
  }

  /** The consumer's own reader sources changed. */
  predicate Drifted(r: Request, consumer: Consumer) {
    AnyMatches(r.snapshot, r.changed, ReaderPatterns(r.contract, consumer))
  }

  predicate Relevant(r: Request, consumer: Consumer) {
    || Uncertain(r) || Drifted(r, consumer)
    || AnyMatches(r.snapshot, r.changed,
                  consumer.inputs + ReaderPatterns(r.contract, consumer) + consumer.documentation)
  }

  function PackagePatterns(c: Contract, package: string): seq<Pattern> {
    (if package in c.packageInputs then c.packageInputs[package] else [])
    + (if package in c.packageDocumentation then c.packageDocumentation[package] else [])
  }

  predicate PackageRelevant(r: Request, package: string) {
    AnyMatches(r.snapshot, r.changed, PackagePatterns(r.contract, package))
  }

  // ----- What is selected, key by key -----

  const BASE_KEYS: set<Key> :=
    MANDATORY_KEYS + {"input_rust", "input_ts", "input_all", "input_router", "local_default"}

  /** Selected before any consumer is looked at. */
  predicate InitiallyOn(r: Request, k: Key) {
    k in MANDATORY_KEYS || k == "local_default" || (k == "input_all" && MembershipChanged(r))
  }

  ghost predicate ConsumerTurnsOn(r: Request, consumer: Consumer, k: Key) {
    || (k in consumer.outputs && Relevant(r, consumer))
    || (k == "input_all" && Drifted(r, consumer) && "input_rust" in consumer.outputs)
  }

  ghost predicate PackageTurnsOn(r: Request, package: string, k: Key) {
    PackageRelevant(r, package) && (k in RUST_KEYS || k == "input_package_" + package)
  }

  /** On after the first `n` consumers and the packages in `done`. */
  ghost predicate OnAfter(r: Request, n: nat, done: set<string>, k: Key)
    requires n <= |r.contract.consumers|
  {
    || InitiallyOn(r, k)
    || (exists i :: 0 <= i < n && ConsumerTurnsOn(r, r.contract.consumers[i], k))
    || (exists p :: p in done && PackageTurnsOn(r, p, k))
  }

  ghost predicate KeyAfter(r: Request, n: nat, done: set<string>, k: Key)
    requires n <= |r.contract.consumers|
  {
    || k in BASE_KEYS
    || (exists i :: 0 <= i < n && k in r.contract.consumers[i].outputs)
    || (exists p :: p in done && (k == "input_package_" + p || (k in RUST_KEYS && PackageRelevant(r, p))))
  }

  ghost predicate On(r: Request, k: Key) {
    OnAfter(r, |r.contract.consumers|, Packages(r.contract), k)
  }

  ghost predicate IsKey(r: Request, k: Key) {
    KeyAfter(r, |r.contract.consumers|, Packages(r.contract), k)
  }

  /** Nothing proves what the change leaves out, so every gate runs. */
  ghost predicate Widened(r: Request) {
    Uncertain(r) || On(r, "input_all")
  }

  ghost predicate Selected(r: Request, k: Key) {
    Widened(r) || (CONTRACT_FILE in r.changed && k != "input_all") || On(r, k)
  }

  // ----- The classifier -----

  /** The dictionary holds exactly the keys and values reached so far. */
  ghost predicate Holds(m: map<Key, bool>, r: Request, n: nat, done: set<string>)
    requires n <= |r.contract.consumers|
  {
    && (forall k :: k in m <==> KeyAfter(r, n, done, k))
    && (forall k :: k in m ==> (m[k] <==> OnAfter(r, n, done, k)))
  }

  method Classify(r: Request) returns (result: Option<map<Key, bool>>)
    ensures result.Some? <==> Accepted(r)
    ensures result.Some? ==> forall k :: k in result.value <==> IsKey(r, k)
    ensures result.Some? ==> forall k :: k in result.value ==> (result.value[k] <==> Selected(r, k))
  {
    var selected: map<Key, bool> := map k | k in BASE_KEYS :: k in MANDATORY_KEYS || k == "local_default";
    if !Loads(r.contract) { return None; }
    if !MembershipReadable(r) { return None; }
    if MembershipChanged(r) { selected := selected["input_all" := true]; }
    var ok;
    ok, selected := ApplyConsumers(r, selected);
    if !ok { return None; }
    ok, selected := ApplyPackages(r, selected);
    if !ok { return None; }
    selected := Widen(r, selected);
    return Some(selected);
  }

  /** The consumer loop. */
  method ApplyConsumers(r: Request, before: map<Key, bool>) returns (ok: bool, selected: map<Key, bool>)
    requires Holds(before, r, 0, {})
    ensures ok <==> forall i :: 0 <= i < |r.contract.consumers| ==> LegalConsumer(r.contract, r.contract.consumers[i])
    ensures ok ==> Holds(selected, r, |r.contract.consumers|, {})
  {
    selected := before;
    for i := 0 to |r.contract.consumers|
      invariant forall j :: 0 <= j < i ==> LegalConsumer(r.contract, r.contract.consumers[j])
      invariant Holds(selected, r, i, {})
    {
      if !LegalConsumer(r.contract, r.contract.consumers[i]) { return false, selected; }
      selected := ApplyConsumer(r, i, selected);
    }
    ok := true;
  }

  /** The package loop. Each package sets its own key, so their order does not matter. */
  method ApplyPackages(r: Request, before: map<Key, bool>) returns (ok: bool, selected: map<Key, bool>)
    requires forall i :: 0 <= i < |r.contract.consumers| ==> LegalConsumer(r.contract, r.contract.consumers[i])
    requires Holds(before, r, |r.contract.consumers|, {})
    ensures ok <==> forall p :: p in Packages(r.contract) ==> LegalPackage(r.contract, p)
    ensures ok ==> Holds(selected, r, |r.contract.consumers|, Packages(r.contract))
  {
    selected := before;
    var pending, done := Packages(r.contract), {};
    while pending != {}
      invariant pending + done == Packages(r.contract) && pending !! done
      invariant forall p :: p in done ==> LegalPackage(r.contract, p)
      invariant Holds(selected, r, |r.contract.consumers|, done)
    {
      var package :| package in pending;
      if !LegalPackage(r.contract, package) { return false, selected; }
      PackageKeyIsNew(r, done, package);
      selected := ApplyPackage(r, done, package, selected);
      pending, done := pending - {package}, done + {package};
    }
    ok := true;
  }

  method ApplyConsumer(r: Request, n: nat, before: map<Key, bool>) returns (selected: map<Key, bool>)
    requires n < |r.contract.consumers| && Holds(before, r, n, {})
    ensures Holds(selected, r, n + 1, {})
  {
    selected := before;
    var consumer := r.contract.consumers[n];
    if Drifted(r, consumer) && "input_rust" in consumer.outputs { selected := selected["input_all" := true]; }
    var relevant := Relevant(r, consumer);
    selected := TurnOn(selected, consumer.outputs, relevant);
    HoldsAfter(r, n, before, selected);
  }

  lemma HoldsAfter(r: Request, n: nat, before: map<Key, bool>, selected: map<Key, bool>)
    requires n < |r.contract.consumers| && Holds(before, r, n, {})
    requires forall k :: k in selected <==> k in before || k in r.contract.consumers[n].outputs
    requires forall k :: k in selected ==>
      (selected[k] <==> (k in before && before[k]) || ConsumerTurnsOn(r, r.contract.consumers[n], k))
    ensures Holds(selected, r, n + 1, {})
  {
    ConsumerStep(r, n);
  }

  /** Adds the outputs to the dictionary; one already on stays on. */
  method TurnOn(before: map<Key, bool>, outputs: seq<Key>, relevant: bool) returns (selected: map<Key, bool>)
    ensures forall k :: k in selected <==> k in before || k in outputs
    ensures forall k :: k in selected ==> (selected[k] <==> (k in before && before[k]) || (k in outputs && relevant))
  {
    selected := before;
    for i := 0 to |outputs|
      invariant forall k :: k in selected <==> k in before || k in outputs[..i]
      invariant forall k :: k in selected ==>
        (selected[k] <==> (k in before && before[k]) || (k in outputs[..i] && relevant))
    {
      var output := outputs[i];
      assert outputs[..i + 1] == outputs[..i] + [output];
      selected := selected[output := (output in selected && selected[output]) || relevant];
    }
    assert outputs[..|outputs|] == outputs;
  }

  lemma ConsumerStep(r: Request, n: nat)
    requires n < |r.contract.consumers|
    ensures var c := r.contract.consumers[n];
      forall k :: && (KeyAfter(r, n + 1, {}, k) <==> KeyAfter(r, n, {}, k) || k in c.outputs)
                  && (OnAfter(r, n + 1, {}, k) <==> OnAfter(r, n, {}, k) || ConsumerTurnsOn(r, c, k))
  {
    var c := r.contract.consumers[n];
    forall k ensures && (KeyAfter(r, n + 1, {}, k) <==> KeyAfter(r, n, {}, k) || k in c.outputs)
                     && (OnAfter(r, n + 1, {}, k) <==> OnAfter(r, n, {}, k) || ConsumerTurnsOn(r, c, k))
    {
    }
  }

  method ApplyPackage(r: Request, done: set<string>, package: string, before: map<Key, bool>)
    returns (selected: map<Key, bool>)
    requires Holds(before, r, |r.contract.consumers|, done)
    requires "input_package_" + package !in before
    ensures Holds(selected, r, |r.contract.consumers|, done + {package})
  {
    var relevant := PackageRelevant(r, package);
    selected := before["input_package_" + package := relevant];
    if relevant {
      selected := selected + map k | k in RUST_KEYS :: true;
    }
    PackageStep(r, done, package);
  }

  lemma PackageKeyIsNew(r: Request, done: set<string>, package: string)
    requires forall i :: 0 <= i < |r.contract.consumers| ==> LegalConsumer(r.contract, r.contract.consumers[i])
    requires package !in done
    ensures !KeyAfter(r, |r.contract.consumers|, done, "input_package_" + package)
  {
    var key := "input_package_" + package;
    assert key[0] == 'i' && key[6] == 'p' && key[14..] == package;
    forall i | 0 <= i < |r.contract.consumers| ensures key !in r.contract.consumers[i].outputs {
      assert LegalConsumer(r.contract, r.contract.consumers[i]);
      assert !LegalOutput(key);
    }
    forall p | p in done ensures key != "input_package_" + p {
      assert ("input_package_" + p)[14..] == p;
    }
  }

  lemma PackageStep(r: Request, done: set<string>, package: string)
    ensures var n := |r.contract.consumers|;
      forall k :: && (KeyAfter(r, n, done + {package}, k) <==>
                      KeyAfter(r, n, done, k) || k == "input_package_" + package
                      || (k in RUST_KEYS && PackageRelevant(r, package)))
                  && (OnAfter(r, n, done + {package}, k) <==> OnAfter(r, n, done, k) || PackageTurnsOn(r, package, k))
  {
  }

  method Widen(r: Request, before: map<Key, bool>) returns (selected: map<Key, bool>)
    requires Holds(before, r, |r.contract.consumers|, Packages(r.contract)) && "input_all" in before
    ensures selected.Keys == before.Keys
    ensures forall k :: k in selected ==> (selected[k] <==> Selected(r, k))
  {
    selected := before;
    if CONTRACT_FILE in r.changed {
      var unknown := selected["input_all"];
      selected := map k | k in selected :: true;
      selected := selected["input_all" := unknown];
    }
    if Uncertain(r) || selected["input_all"] {
      selected := map k | k in selected :: true;
    }
  }

  // ----- What the router promises -----

  /** The same question about a larger change. */
  ghost predicate Enlarges(small: Request, large: Request) {
    large == small.(changed := large.changed) && forall p :: p in small.changed ==> p in large.changed
  }

  /** A gate runs when its key is absent or selected. */
  ghost predicate Runs(r: Request, gate: string) {
    IsKey(r, "local_" + gate) ==> Selected(r, "local_" + gate)
  }

  /** A key that appears only for the larger change is one that the change turns on. */
  lemma NewKeyIsOn(small: Request, large: Request, k: Key)
    requires Enlarges(small, large) && IsKey(large, k) && !IsKey(small, k)
    ensures On(large, k) && k in RUST_KEYS
  {
    assert exists p :: p in Packages(large.contract) && k in RUST_KEYS && PackageRelevant(large, p);
    var p :| p in Packages(large.contract) && k in RUST_KEYS && PackageRelevant(large, p);
    assert PackageTurnsOn(large, p, k);
  }

  /** Enlarging the change never deselects a gate. */
  lemma EnlargingKeepsGates(small: Request, large: Request, gate: string)
    requires Enlarges(small, large) && Runs(small, gate)
    ensures Runs(large, gate)
  {
  }

  /** Mandatory gates always run. */
  lemma MandatoryAlwaysRuns(r: Request, gate: string)
    requires gate in MANDATORY
    ensures IsKey(r, "local_" + gate) && Runs(r, gate)
  {
    MandatoryKey(gate);
    assert InitiallyOn(r, "local_" + gate);
  }

  lemma MandatoryKey(gate: string)
    requires gate in MANDATORY
    ensures "local_" + gate in MANDATORY_KEYS
  {
    assert "local_" + "agent-context" == "local_agent-context";
    assert "local_" + "audit-docs" == "local_audit-docs";
    assert "local_" + "product-status-check" == "local_product-status-check";
    assert "local_" + "deny" == "local_deny";
  }

  /** An unknown comparison, a census membership change, or a changed path that is no known input. */
  ghost predicate Doubtful(r: Request) {
    || r.comparisonUnknown
    || MembershipChanged(r)
    || exists path :: path in r.changed && !Matches(r.snapshot, path, r.contract.knownInputs)
  }

  /** Any doubt runs every gate. */
  lemma DoubtRunsEverything(r: Request, gate: string)
    requires Doubtful(r)
    ensures Runs(r, gate)
  {
    if !Uncertain(r) {
      assert InitiallyOn(r, "input_all");
    }
  }
}
