/** The byte budget of agent instructions along every chain of directories. */
module ContextBudget {
  import opened Common

  /** A path as its components. */
  type Path = seq<string>

  datatype Class = Always | Routed | Evidence

  /**
   * A manifest row with the measured size of its file. `hollow` stands for the checks on the row's
   * prose, on the file's text and on the router's mention of it.
   */
  datatype Entry = Entry(path: Path, loadClass: Class, maxBytes: nat, owner: string, bytes: nat, hollow: bool)

  const AGENTS := "AGENTS.md"
  const ROOT: Path := [AGENTS]
  const ROOT_MAX := 16 * 1024
  const NESTED_MAX := 4 * 1024
  const CHAIN_MAX := 24 * 1024
  const ROUTED_MAX := 16 * 1024
  const EVIDENCE_MAX := 64 * 1024
  const ROUTER_MAX := 4 * 1024

  predicate IsOverride(path: Path) {
    path != [] && path[|path| - 1] == "AGENTS.override.md"
  }

  predicate IsAgentFile(path: Path) {
    (path != [] && path[|path| - 1] == AGENTS) || IsOverride(path)
  }

  /** The load class is decided by the file's role. */
  function ExpectedClass(path: Path): Class {
    if path == ["CLAUDE.md"] || IsAgentFile(path) then Always
    else if path == ["docs", "agents", "learnings.md"] then Evidence
    else Routed
  }

  predicate Nested(path: Path) {
    |path| > 1 && path[|path| - 1] == AGENTS
  }

  function Directory(path: Path): Path
    requires path != []
  {
    path[..|path| - 1]
  }

  /** The hard limits on one entry. */
  predicate ValidEntry(e: Entry) {
    && e.maxBytes > 0 && !e.hollow && e.bytes <= e.maxBytes
    && match e.loadClass
       case Always => (e.path == ROOT ==> e.maxBytes <= ROOT_MAX) && (Nested(e.path) ==> e.maxBytes <= NESTED_MAX)
       case Routed => e.maxBytes <= ROUTED_MAX
       case Evidence => e.maxBytes <= EVIDENCE_MAX
  }

  ghost predicate ValidManifest(entries: seq<Entry>) {
    && (forall i, j :: 0 <= i < j < |entries| ==> entries[i].path != entries[j].path)
    && (forall i :: 0 <= i < |entries| ==>
          entries[i].loadClass == ExpectedClass(entries[i].path) && ValidEntry(entries[i]))
  }

  /** The rows parse: there are some, each of its role's class, and no path or owner comes twice. */
  ghost predicate Parsed(entries: seq<Entry>) {
    && entries != []
    && (forall i :: 0 <= i < |entries| ==> entries[i].loadClass == ExpectedClass(entries[i].path))
    && (forall i, j :: 0 <= i < j < |entries| ==>
          entries[i].path != entries[j].path && entries[i].owner != entries[j].owner)
  }

  ghost function PathsOf(entries: seq<Entry>): set<Path> {
    set e | e in entries :: e.path
  }

  ghost predicate HasRoot(entries: seq<Entry>) {
    exists e :: e in entries && e.path == ROOT
  }

  /** The file is loaded automatically for work in `directory`: it lies in that directory or above it. */
  predicate LoadedPath(path: Path, directory: Path) {
    path == ROOT || (Nested(path) && Directory(path) <= directory)
  }

  predicate Loaded(e: Entry, directory: Path) {
    LoadedPath(e.path, directory)
  }

  /** Everything loaded for work in `directory`, root file included. */
  function ChainBytes(entries: seq<Entry>, directory: Path): nat {
    if entries == [] then 0
    else (if Loaded(entries[0], directory) then entries[0].bytes else 0) + ChainBytes(entries[1..], directory)
  }

  // ----- The checker -----

  method RootBytes(entries: seq<Entry>) returns (r: Option<nat>)
    requires forall i, j :: 0 <= i < j < |entries| ==> entries[i].path != entries[j].path
    ensures r.Some? <==> HasRoot(entries)
    ensures r.Some? ==> exists e :: e in entries && e.path == ROOT && e.bytes == r.value
  {
    for i := 0 to |entries|
      invariant forall j :: 0 <= j < i ==> entries[j].path != ROOT
    {
      if entries[i].path == ROOT { return Some(entries[i].bytes); }
    }
    return None;
  }

  /** The sum over the nested files at or above a directory. */
  method NestedBytes(entries: seq<Entry>, directory: Path) returns (total: nat)
    ensures total == NestedSum(entries, directory)
  {
    total := 0;
    assert entries[0..] == entries;
    for i := 0 to |entries|
      invariant total + NestedSum(entries[i..], directory) == NestedSum(entries, directory)
    {
      assert entries[i..][1..] == entries[i + 1..];
      if Nested(entries[i].path) && Directory(entries[i].path) <= directory {
        total := total + entries[i].bytes;
      }
    }
  }

  function NestedSum(entries: seq<Entry>, directory: Path): nat {
    if entries == [] then 0
    else (if Nested(entries[0].path) && Directory(entries[0].path) <= directory then entries[0].bytes else 0)
         + NestedSum(entries[1..], directory)
  }

  lemma {:induction false} ChainIsRootPlusNested(entries: seq<Entry>, directory: Path, root: Entry)
    requires forall i, j :: 0 <= i < j < |entries| ==> entries[i].path != entries[j].path
    requires forall e :: e in entries && e.path == ROOT ==> e == root
    ensures ChainBytes(entries, directory)
         == (if exists e :: e in entries && e.path == ROOT then root.bytes else 0) + NestedSum(entries, directory)
  {
    if entries != [] {
      ChainIsRootPlusNested(entries[1..], directory, root);
      assert entries[0] in entries;
      if entries[0].path == ROOT {
        assert forall e :: e in entries[1..] ==> e.path != ROOT;
      }
    }
  }

  /** The chain check looks only at the directories that hold a nested file. */
  method CheckChains(entries: seq<Entry>) returns (ok: bool)
    requires ValidManifest(entries)
    ensures ok <==> HasRoot(entries) && forall i :: 0 <= i < |entries| && Nested(entries[i].path) ==>
      ChainBytes(entries, Directory(entries[i].path)) <= CHAIN_MAX
  {
    var rootBytes := RootBytes(entries);
    if rootBytes.None? { return false; }
    ghost var root :| root in entries && root.path == ROOT && root.bytes == rootBytes.value;
    for i := 0 to |entries|
      invariant forall j :: 0 <= j < i && Nested(entries[j].path) ==>
        ChainBytes(entries, Directory(entries[j].path)) <= CHAIN_MAX
    {
      if Nested(entries[i].path) {
        var nested := NestedBytes(entries, Directory(entries[i].path));
        ChainIsRootPlusNested(entries, Directory(entries[i].path), root);
        if rootBytes.value + nested > CHAIN_MAX { return false; }
      }
    }
    return true;
  }

  // ----- Every directory -----

  lemma {:induction false} SameLoad(entries: seq<Entry>, a: Path, b: Path)
    requires forall e :: e in entries ==> (Loaded(e, a) <==> Loaded(e, b))
    ensures ChainBytes(entries, a) == ChainBytes(entries, b)
  {
    if entries != [] {
      assert entries[0] in entries;
      SameLoad(entries[1..], a, b);
    }
  }

  /** The deepest nested file loaded for a directory, if there is one. */
  lemma {:induction false} Deepest(entries: seq<Entry>, directory: Path) returns (r: Option<Entry>)
    ensures r.Some? ==> r.value in entries && Nested(r.value.path) && Loaded(r.value, directory)
    ensures r.Some? ==> forall e :: e in entries && Nested(e.path) && Loaded(e, directory) ==>
      |e.path| <= |r.value.path|
    ensures r.None? ==> forall e :: e in entries ==> !(Nested(e.path) && Loaded(e, directory))
  {
    if entries == [] {
      r := None;
    } else {
      r := Deepest(entries[1..], directory);
      var e := entries[0];
      if Nested(e.path) && Loaded(e, directory) && (r.None? || |r.value.path| < |e.path|) {
        r := Some(e);
      }
    }
  }

  lemma {:induction false} OnlyRootLoaded(entries: seq<Entry>, directory: Path)
    requires forall i, j :: 0 <= i < j < |entries| ==> entries[i].path != entries[j].path
    requires forall e :: e in entries ==> ValidEntry(e) && e.loadClass == ExpectedClass(e.path)
    requires forall e :: e in entries ==> !(Nested(e.path) && Loaded(e, directory))
    ensures ChainBytes(entries, directory) <= ROOT_MAX
    ensures (forall e :: e in entries ==> e.path != ROOT) ==> ChainBytes(entries, directory) == 0
  {
    if entries != [] {
      assert entries[0] in entries;
      OnlyRootLoaded(entries[1..], directory);
      if entries[0].path == ROOT {
        assert forall e :: e in entries[1..] ==> e.path != ROOT;
      }
    }
  }

  /** A file no deeper than the deepest loaded one is loaded from its directory exactly when it is loaded below it. */
  lemma LoadedFromHolder(e: Entry, deepest: Path, directory: Path)
    requires Nested(deepest) && Directory(deepest) <= directory
    requires Nested(e.path) && Directory(e.path) <= directory ==> |e.path| <= |deepest|
    ensures Loaded(e, directory) <==> Loaded(e, Directory(deepest))
  {
    var holder := Directory(deepest);
    if Nested(e.path) && Directory(e.path) <= directory {
      assert Directory(e.path) == directory[..|e.path| - 1];
      assert holder[..|e.path| - 1] == directory[..|e.path| - 1];
    }
  }

  /**
   * Checking the directories that hold a nested file is enough: the check passes exactly when the root
   * file exists and every directory, with or without a file of its own, stays within the budget.
   */
  lemma EveryDirectoryFits(entries: seq<Entry>)
    requires ValidManifest(entries)
    ensures (forall i :: 0 <= i < |entries| && Nested(entries[i].path) ==>
               ChainBytes(entries, Directory(entries[i].path)) <= CHAIN_MAX)
       <==> (forall directory: Path :: ChainBytes(entries, directory) <= CHAIN_MAX)
  {
    if forall i :: 0 <= i < |entries| && Nested(entries[i].path) ==>
         ChainBytes(entries, Directory(entries[i].path)) <= CHAIN_MAX {
      forall directory: Path ensures ChainBytes(entries, directory) <= CHAIN_MAX {
        var deepest := Deepest(entries, directory);
        if deepest.None? {
          OnlyRootLoaded(entries, directory);
        } else {
          var holder := Directory(deepest.value.path);
          forall e | e in entries ensures Loaded(e, directory) <==> Loaded(e, holder) {
            LoadedFromHolder(e, deepest.value.path, directory);
          }
          SameLoad(entries, directory, holder);
        }
      }
    }
  }

  /** Reads the rows, collecting paths and owners. */
  method ParseManifest(entries: seq<Entry>) returns (ok: bool, paths: set<Path>)
    ensures ok <==> Parsed(entries)
    ensures ok ==> paths == PathsOf(entries)
  {
    paths := {};
    var owners: set<string> := {};
    for i := 0 to |entries|
      invariant paths == PathsOf(entries[..i]) && owners == set e | e in entries[..i] :: e.owner
      invariant i > 0 ==> Parsed(entries[..i])
    {
      var e := entries[i];
      assert entries[..i + 1] == entries[..i] + [e];
      if e.loadClass != ExpectedClass(e.path) || e.path in paths || e.owner in owners {
        RefusedRow(entries, i);
        return false, paths;
      }
      paths, owners := paths + {e.path}, owners + {e.owner};
    }
    assert entries[..|entries|] == entries;
    ok := entries != [];
  }

  lemma RefusedRow(entries: seq<Entry>, i: nat)
    requires i < |entries|
    requires
      || entries[i].loadClass != ExpectedClass(entries[i].path)
      || entries[i].path in PathsOf(entries[..i])
      || entries[i].owner in set e | e in entries[..i] :: e.owner
    ensures !Parsed(entries)
  {
    if entries[i].loadClass == ExpectedClass(entries[i].path) {
      var e :| e in entries[..i] && (e.path == entries[i].path || e.owner == entries[i].owner);
      var j :| 0 <= j < i && entries[j] == e;
    }
  }

  /** What the check demands: rows that parse, list what was found on disk, and stay within the limits. */
  ghost predicate Accepted(entries: seq<Entry>, discovered: set<Path>, routerBytes: nat) {
    && Parsed(entries) && (forall path :: path in discovered ==> !IsOverride(path)) && PathsOf(entries) == discovered
    && routerBytes <= ROUTER_MAX && (forall i :: 0 <= i < |entries| ==> ValidEntry(entries[i]))
    && HasRoot(entries) && forall directory: Path :: ChainBytes(entries, directory) <= CHAIN_MAX
  }

  /** The whole check: the rows against the files found, the limits of each file, then the chains. */
  method Check(entries: seq<Entry>, discovered: set<Path>, routerBytes: nat) returns (ok: bool)
    ensures ok <==> Accepted(entries, discovered, routerBytes)
  {
    var paths;
    ok, paths := ParseManifest(entries);
    if !ok { return; }
    if exists path :: path in discovered && IsOverride(path) { return false; }
    if paths != discovered || routerBytes > ROUTER_MAX { return false; }
    for i := 0 to |entries|
      invariant forall j :: 0 <= j < i ==> ValidEntry(entries[j])
    {
      if !ValidEntry(entries[i]) { return false; }
    }
    assert ValidManifest(entries);
    EveryDirectoryFits(entries);
    ok := CheckChains(entries);
    assert ok <==> HasRoot(entries) && forall directory: Path :: ChainBytes(entries, directory) <= CHAIN_MAX;
  }

  // ----- The files on disk -----

  /** The bytes of the instruction files found on disk that are loaded for work in `directory`. */
  ghost function DiskBytes(sizes: map<Path, nat>, directory: Path): nat {
    if sizes == map[] then 0
    else
      var path :| path in sizes;
      (if LoadedPath(path, directory) then sizes[path] else 0) + DiskBytes(sizes - {path}, directory)
  }

  lemma {:induction false} DiskBytesTake(sizes: map<Path, nat>, directory: Path, path: Path)
    requires path in sizes
    ensures DiskBytes(sizes, directory)
         == (if LoadedPath(path, directory) then sizes[path] else 0) + DiskBytes(sizes - {path}, directory)
    decreases |sizes|
  {
    var first :| first in sizes && DiskBytes(sizes, directory)
      == (if LoadedPath(first, directory) then sizes[first] else 0) + DiskBytes(sizes - {first}, directory);
    if first != path {
      DiskBytesTake(sizes - {first}, directory, path);
      DiskBytesTake(sizes - {path}, directory, first);
      assert sizes - {first} - {path} == sizes - {path} - {first};
    }
  }

  /** Rows that list exactly the files on disk, with their sizes, count exactly their bytes. */
  lemma {:induction false} ChainIsOnDisk(entries: seq<Entry>, sizes: map<Path, nat>, directory: Path)
    requires forall i, j :: 0 <= i < j < |entries| ==> entries[i].path != entries[j].path
    requires PathsOf(entries) == sizes.Keys && Measures(entries, sizes)
    ensures ChainBytes(entries, directory) == DiskBytes(sizes, directory)
    decreases |entries|
  {
    if entries == [] {
      assert sizes == map[];
    } else {
      assert entries[0] in entries;
      DropFirst(entries, sizes);
      ChainIsOnDisk(entries[1..], sizes - {entries[0].path}, directory);
      DiskBytesTake(sizes, directory, entries[0].path);
    }
  }

  /** The sizes of the listed files are those measured. */
  ghost predicate Measures(entries: seq<Entry>, sizes: map<Path, nat>) {
    forall e :: e in entries ==> e.path in sizes && sizes[e.path] == e.bytes
  }

  lemma DropFirst(entries: seq<Entry>, sizes: map<Path, nat>)
    requires entries != [] && forall i, j :: 0 <= i < j < |entries| ==> entries[i].path != entries[j].path
    requires PathsOf(entries) == sizes.Keys && Measures(entries, sizes)
    ensures PathsOf(entries[1..]) == (sizes - {entries[0].path}).Keys
    ensures Measures(entries[1..], sizes - {entries[0].path})
  {
    var e, rest := entries[0], entries[1..];
    assert entries == [e] + rest;
    forall f | f in rest ensures f.path != e.path {
      var k :| 0 <= k < |rest| && rest[k] == f;
      assert entries[k + 1] == f;
    }
  }

  /** For an accepted manifest, every directory path is within the budget counted over the files on disk. */
  lemma DiskWithinBudget(entries: seq<Entry>, sizes: map<Path, nat>, routerBytes: nat, directory: Path)
    requires Accepted(entries, sizes.Keys, routerBytes)
    requires Measures(entries, sizes)
    ensures DiskBytes(sizes, directory) <= CHAIN_MAX
  {
    ChainIsOnDisk(entries, sizes, directory);
  }
}
