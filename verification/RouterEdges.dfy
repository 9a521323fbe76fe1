/** Why a key is on, said of the changed paths, the patterns they match and the tracked membership alone. */
module RouterEdges {
  import opened Common
  import opened InputRouter
  import RouterOutput

  // ----- Edges -----

  /** Some changed path matches the pattern. */
  ghost predicate Hit(r: Request, pattern: Pattern) {
    exists path :: path in r.changed && r.snapshot.matches(path, pattern)
  }

  /** The pattern is one of the consumer's reader set. */
  ghost predicate IsReader(r: Request, consumer: Consumer, pattern: Pattern) {
    consumer.readerSet in r.contract.readerSets && pattern in r.contract.readerSets[consumer.readerSet]
  }

  /** The pattern is an input, a documentation input or a reader source of the consumer. */
  ghost predicate IsEdge(r: Request, consumer: Consumer, pattern: Pattern) {
    pattern in consumer.inputs || pattern in consumer.documentation || IsReader(r, consumer, pattern)
  }

  ghost predicate IsPackageEdge(c: Contract, package: string, pattern: Pattern) {
    || (package in c.packageInputs && pattern in c.packageInputs[package])
    || (package in c.packageDocumentation && pattern in c.packageDocumentation[package])
  }

  ghost predicate ConsumerHit(r: Request, i: int) {
    0 <= i < |r.contract.consumers| && exists p :: IsEdge(r, r.contract.consumers[i], p) && Hit(r, p)
  }

  ghost predicate ReaderHit(r: Request, i: int) {
    0 <= i < |r.contract.consumers| && exists p :: IsReader(r, r.contract.consumers[i], p) && Hit(r, p)
  }

  ghost predicate PackageHit(r: Request, package: string) {
    exists p :: IsPackageEdge(r.contract, package, p) && Hit(r, p)
  }

  // ----- Doubt -----

  /** A base tree that does not track the path or, without one, HEAD and the checkout that differ on it. */
  ghost predicate NewOrGone(s: Snapshot, path: Path) {
    if s.base.Tree? then path !in s.base.paths
    else if s.head.None? then true
    else if path in s.head.value then path !in s.files
    else path in s.census
  }

  /** A changed path under the Rust census is new or gone. */
  ghost predicate JoinsCensus(r: Request) {
    exists path, p :: InCensus(r, path, p) && NewOrGone(r.snapshot, path)
  }

  ghost predicate InCensus(r: Request, path: Path, p: Pattern) {
    r.contract.rustCensus.Some? && path in r.changed && p in r.contract.rustCensus.value && r.snapshot.matches(path, p)
  }

  /** The path is not a plain tracked file, in a comparison that looks at the checkout. */
  ghost predicate NotPlain(r: Request, path: Path) {
    !r.pathsOnly && !(path in r.snapshot.tracked && path in r.snapshot.files && path !in r.snapshot.symlinks)
  }

  ghost predicate Unknown(r: Request, path: Path) {
    forall p :: p in r.contract.knownInputs ==> !r.snapshot.matches(path, p)
  }

  /** Nothing is known about what the change leaves out. */
  ghost predicate InDoubt(r: Request) {
    || r.comparisonUnknown
    || (r.snapshot.ignoredInputs && !r.pathsOnly)
    || exists path :: path in r.changed && (NotPlain(r, path) || Unknown(r, path))
  }

  // ----- Keys -----

  /** Every key is on: there is doubt, the census changed, or a consumer asks for it. */
  ghost predicate Everything(r: Request) {
    || InDoubt(r) || JoinsCensus(r)
    || (exists i :: ReaderHit(r, i) && "input_rust" in r.contract.consumers[i].outputs)
    || (exists i :: ConsumerHit(r, i) && "input_all" in r.contract.consumers[i].outputs)
  }

  /** An edge, the contract file or the mandatory list accounts for the key. */
  ghost predicate Accounted(r: Request, k: Key) {
    || k in MANDATORY_KEYS || k == "local_default"
    || (CONTRACT_FILE in r.changed && k != "input_all")
    || (exists i :: ConsumerHit(r, i) && k in r.contract.consumers[i].outputs)
    || (exists p :: PackageHit(r, p) && (k == "input_package_" + p || k in RUST_KEYS))
  }

  ghost predicate IsPackage(c: Contract, package: string) {
    package in c.packageInputs || package in c.packageDocumentation
  }

  /** The keys that the result has at all. */
  ghost predicate Named(r: Request, k: Key) {
    || k in BASE_KEYS
    || (exists i :: 0 <= i < |r.contract.consumers| && k in r.contract.consumers[i].outputs)
    || (exists p :: IsPackage(r.contract, p) && k == "input_package_" + p)
    || (k in RUST_KEYS && exists p :: PackageHit(r, p))
  }

  // ----- The predicates of the classifier -----

  lemma HitExactly(r: Request, patterns: seq<Pattern>)
    ensures AnyMatches(r.snapshot, r.changed, patterns) <==> exists p :: p in patterns && Hit(r, p)
  {
    if AnyMatches(r.snapshot, r.changed, patterns) {
      var path :| path in r.changed && Matches(r.snapshot, path, patterns);
      var p :| p in patterns && r.snapshot.matches(path, p);
      assert Hit(r, p);
    }
    forall p | p in patterns && Hit(r, p) ensures AnyMatches(r.snapshot, r.changed, patterns) {
      var path :| path in r.changed && r.snapshot.matches(path, p);
      assert Matches(r.snapshot, path, patterns);
    }
  }

  lemma ReaderExactly(r: Request, i: nat)
    requires i < |r.contract.consumers|
    ensures Drifted(r, r.contract.consumers[i]) <==> ReaderHit(r, i)
  {
    HitExactly(r, ReaderPatterns(r.contract, r.contract.consumers[i]));
  }

  lemma ConsumerExactly(r: Request, i: nat)
    requires i < |r.contract.consumers|
    ensures Relevant(r, r.contract.consumers[i]) <==> Uncertain(r) || ConsumerHit(r, i)
  {
    var c := r.contract.consumers[i];
    ReaderExactly(r, i);
    HitExactly(r, c.inputs + ReaderPatterns(r.contract, c) + c.documentation);
    if ReaderHit(r, i) {
      var p :| IsReader(r, c, p) && Hit(r, p);
      assert IsEdge(r, c, p);
    }
    forall p ensures IsEdge(r, c, p) <==> p in c.inputs + ReaderPatterns(r.contract, c) + c.documentation {}
  }

  lemma PackageExactly(r: Request, package: string)
    ensures PackageRelevant(r, package) <==> PackageHit(r, package)
    ensures PackageHit(r, package) ==> package in Packages(r.contract)
  {
    HitExactly(r, PackagePatterns(r.contract, package));
    forall p ensures IsPackageEdge(r.contract, package, p) <==> p in PackagePatterns(r.contract, package) {}
  }

  lemma DoubtExactly(r: Request)
    ensures Uncertain(r) <==> InDoubt(r)
  {
    forall path ensures Unknown(r, path) <==> !Matches(r.snapshot, path, r.contract.knownInputs) {}
    forall path ensures NotPlain(r, path) <==> !r.pathsOnly && Unestablished(r.snapshot, path) {}
  }

  lemma CensusExactly(r: Request)
    ensures MembershipChanged(r) <==> JoinsCensus(r)
  {
    if MembershipChanged(r) {
      var path :| path in r.changed && Matches(r.snapshot, path, r.contract.rustCensus.value)
                  && NewMember(r.snapshot, path);
      var p :| p in r.contract.rustCensus.value && r.snapshot.matches(path, p);
      assert InCensus(r, path, p) && NewOrGone(r.snapshot, path);
    }
    if JoinsCensus(r) {
      var path, p :| InCensus(r, path, p) && NewOrGone(r.snapshot, path);
      assert Matches(r.snapshot, path, r.contract.rustCensus.value) && NewMember(r.snapshot, path);
    }
  }

  // ----- The contract -----

  /** At least one pattern, and none empty. */
  ghost predicate SomePatterns(patterns: seq<Pattern>) {
    |patterns| >= 1 && forall p :: p in patterns ==> p != ""
  }

  ghost predicate OutputAllowed(output: Key) {
    || (|output| >= 6 && output[..6] == "local_")
    || output in {"input_rust", "input_ts", "input_all", "input_registry", "input_mermaid", "input_hygiene"}
  }

  ghost predicate ConsumerAllowed(c: Contract, consumer: Consumer) {
    && |consumer.outputs| >= 1 && (forall o :: o in consumer.outputs ==> OutputAllowed(o))
    && consumer.readerSet in c.readerSets && forall p :: p in consumer.documentation ==> p != ""
  }

  ghost predicate PackageAllowed(c: Contract, package: string) {
    && |package| >= 5 && package[..5] == "keld-"
    && (forall x :: x in package ==> x == '-' || '0' <= x <= '9' || 'a' <= x <= 'z' || 'A' <= x <= 'Z')
    && (package in c.packageInputs ==> SomePatterns(c.packageInputs[package]))
    && (package in c.packageDocumentation ==> SomePatterns(c.packageDocumentation[package]))
  }

  ghost predicate ContractAllowed(c: Contract) {
    && (forall name :: name in c.readerSets ==> SomePatterns(c.readerSets[name]))
    && (c.rustCensus.Some? ==> SomePatterns(c.rustCensus.value))
    && (forall consumer :: consumer in c.consumers ==> ConsumerAllowed(c, consumer))
    && (forall p :: IsPackage(c, p) ==> PackageAllowed(c, p))
  }

  lemma OutputExactly(output: Key)
    ensures LegalOutput(output) <==> OutputAllowed(output)
  {
    assert "local_" <= output <==> |output| >= 6 && output[..6] == "local_";
  }

  lemma PackageLegalExactly(c: Contract, package: string)
    ensures LegalPackage(c, package) <==> PackageAllowed(c, package)
  {
    assert "keld-" <= package <==> |package| >= 5 && package[..5] == "keld-";
    forall i | 0 <= i < |package| ensures package[i] in package {}
    forall x | x in package ensures exists i :: 0 <= i < |package| && package[i] == x {}
    if LegalPackage(c, package) {
      forall x | x in package ensures x == '-' || '0' <= x <= '9' || 'a' <= x <= 'z' || 'A' <= x <= 'Z' {
        var i :| 0 <= i < |package| && package[i] == x;
        assert IsPackageChar(package[i]);
      }
    }
  }

  lemma ContractExactly(r: Request)
    ensures Accepted(r) <==> ContractAllowed(r.contract) && MembershipReadable(r)
  {
    var c := r.contract;
    forall o { OutputExactly(o); }
    forall p { PackageLegalExactly(c, p); }
    forall i | 0 <= i < |c.consumers| ensures c.consumers[i] in c.consumers {}
    assert (forall i :: 0 <= i < |c.consumers| ==> LegalConsumer(c, c.consumers[i]))
      <==> forall consumer :: consumer in c.consumers ==> ConsumerAllowed(c, consumer);
  }

  /** A request is classified exactly when its contract is allowed and a census the change touches can be compared. */
  lemma AcceptedExactly(r: Request)
    ensures Accepted(r) <==>
      ContractAllowed(r.contract) && (r.snapshot.base.Unreadable? ==> forall path, p :: !InCensus(r, path, p))
  {
    ContractExactly(r);
    if r.contract.rustCensus.Some? { HitExactly(r, r.contract.rustCensus.value); }
    forall path, p | InCensus(r, path, p) ensures r.contract.rustCensus.Some? && Hit(r, p) {}
    if r.contract.rustCensus.Some? && AnyMatches(r.snapshot, r.changed, r.contract.rustCensus.value) {
      var p :| p in r.contract.rustCensus.value && Hit(r, p);
      var path :| path in r.changed && r.snapshot.matches(path, p);
      assert InCensus(r, path, p);
    }
  }

  // ----- What is on -----

  /** What one consumer turns on, beside doubt. */
  lemma TurnsOnExactly(r: Request, i: nat, k: Key)
    requires i < |r.contract.consumers|
    ensures ConsumerTurnsOn(r, r.contract.consumers[i], k) <==>
      || (k in r.contract.consumers[i].outputs && (InDoubt(r) || ConsumerHit(r, i)))
      || (k == "input_all" && ReaderHit(r, i) && "input_rust" in r.contract.consumers[i].outputs)
  {
    ReaderExactly(r, i);
    ConsumerExactly(r, i);
    DoubtExactly(r);
  }

  lemma PackageTurnsOnExactly(r: Request, package: string, k: Key)
    ensures PackageTurnsOn(r, package, k) && package in Packages(r.contract) <==>
      PackageHit(r, package) && (k == "input_package_" + package || k in RUST_KEYS)
  {
    PackageExactly(r, package);
  }

  lemma AllIsNoPackageKey()
    ensures "input_all" !in MANDATORY_KEYS && "input_all" != "local_default" && "input_all" !in RUST_KEYS
    ensures forall p :: "input_all" != "input_package_" + p
  {
    forall p ensures "input_all" != "input_package_" + p {
      assert "input_all"[6] == 'a' && ("input_package_" + p)[6] == 'p';
    }
  }

  /** `input_all` comes on with the census, or through a consumer. */
  lemma AllExactly(r: Request)
    ensures Widened(r) <==> Everything(r)
  {
    DoubtExactly(r);
    CensusExactly(r);
    AllIsNoPackageKey();
    forall i | 0 <= i < |r.contract.consumers| { TurnsOnExactly(r, i, "input_all"); }
    forall i | ReaderHit(r, i) && "input_rust" in r.contract.consumers[i].outputs ensures On(r, "input_all") {
      assert ConsumerTurnsOn(r, r.contract.consumers[i], "input_all");
    }
    forall i | ConsumerHit(r, i) && "input_all" in r.contract.consumers[i].outputs ensures On(r, "input_all") {
      assert ConsumerTurnsOn(r, r.contract.consumers[i], "input_all");
    }
  }

  lemma OnExactly(r: Request, k: Key)
    requires !Everything(r)
    ensures On(r, k) || (CONTRACT_FILE in r.changed && k != "input_all") <==> Accounted(r, k)
  {
    AllExactly(r);
    CensusExactly(r);
    forall i | 0 <= i < |r.contract.consumers| { TurnsOnExactly(r, i, k); }
    forall p { PackageTurnsOnExactly(r, p, k); }
    forall i | ConsumerHit(r, i) && k in r.contract.consumers[i].outputs ensures On(r, k) {
      assert ConsumerTurnsOn(r, r.contract.consumers[i], k);
    }
    forall p | PackageHit(r, p) && (k == "input_package_" + p || k in RUST_KEYS) ensures On(r, k) {
      assert PackageTurnsOn(r, p, k) && p in Packages(r.contract);
    }
  }

  lemma NamedExactly(r: Request, k: Key)
    ensures IsKey(r, k) <==> Named(r, k)
  {
    forall p { PackageExactly(r, p); }
  }

  /**
   * A key of the result is on exactly when everything is, or an edge, the contract file or the mandatory list
   * accounts for it.
   */
  lemma SelectedExactly(r: Request, result: map<Key, bool>, k: Key)
    requires RouterOutput.ClassifiedAs(r, result)
    ensures k in result <==> Named(r, k)
    ensures k in result ==> (result[k] <==> Everything(r) || Accounted(r, k))
  {
    NamedExactly(r, k);
    AllExactly(r);
    if !Everything(r) { OnExactly(r, k); }
  }

  /** A changed path that matches an edge of a consumer turns on each of its outputs. */
  lemma EdgeTurnsOn(r: Request, result: map<Key, bool>, i: nat, path: Path, pattern: Pattern, k: Key)
    requires RouterOutput.ClassifiedAs(r, result) && i < |r.contract.consumers|
    requires path in r.changed && r.snapshot.matches(path, pattern) && IsEdge(r, r.contract.consumers[i], pattern)
    requires k in r.contract.consumers[i].outputs
    ensures k in result && result[k]
  {
    assert Hit(r, pattern) && ConsumerHit(r, i);
    SelectedExactly(r, result, k);
  }

  /** A changed path that matches an edge of a package turns on its key and the Rust keys. */
  lemma PackageEdgeTurnsOn(r: Request, result: map<Key, bool>, package: string, path: Path, pattern: Pattern)
    requires RouterOutput.ClassifiedAs(r, result) && IsPackageEdge(r.contract, package, pattern)
    requires path in r.changed && r.snapshot.matches(path, pattern)
    ensures "input_package_" + package in result && result["input_package_" + package]
    ensures forall k :: k in RUST_KEYS ==> k in result && result[k]
  {
    assert Hit(r, pattern) && PackageHit(r, package);
    assert IsPackage(r.contract, package);
    SelectedExactly(r, result, "input_package_" + package);
    forall k | k in RUST_KEYS ensures k in result && result[k] { SelectedExactly(r, result, k); }
  }

  /** After printing and reading back, the executor skips a gate only when nothing accounts for its key. */
  lemma SkippedExactly(r: Request, result: map<Key, bool>, order: seq<Key>, gates: seq<string>, gate: string)
    requires RouterOutput.ClassifiedAs(r, result) && RouterOutput.Prints(result, order) && gate in gates
    requires RouterOutput.ReadBack(result, order, gates).Some?
    ensures gate in RouterOutput.ReadBack(result, order, gates).value
    ensures !RouterOutput.ReadBack(result, order, gates).value[gate] <==>
      Named(r, "local_" + gate) && !Everything(r) && !Accounted(r, "local_" + gate)
  {
    RouterOutput.SelectionIsRuns(r, result, order, gates, gate);
    RouterOutput.RunsUnlessFalse(r, result, gate);
    SelectedExactly(r, result, "local_" + gate);
  }
}
