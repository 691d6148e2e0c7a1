/** The package registry: for each package id, the ordered history of local
    projects that have built that package, kept in a keyed document store. */
module Packages {
  import opened Wrappers
  import opened CaseFold

  // ---------------------------------------------------------------------------
  // PackageIdentifier
  // ---------------------------------------------------------------------------

  /** A package id with its version in normalised form. */
  datatype PackageIdentifier = PackageIdentifier(id: string, version: string)

  /** The PackageIdentifier constructor. `None` stands for a null argument and
      `normalize` for the external version normaliser. */
  function NewPackageIdentifier(id: Option<string>, version: Option<string>, normalize: string -> string)
    : (r: Result<PackageIdentifier>)
    ensures r.Ok? <==> id.Some? && version.Some?
    ensures id.None? ==> r == Err(ArgumentNull("id"))
    ensures id.Some? && version.None? ==> r == Err(ArgumentNull("version"))
    ensures r.Ok? ==> r.value.id == id.value && r.value.version == normalize(version.value)
  {
    if id.None? then Err(ArgumentNull("id"))
    else if version.None? then Err(ArgumentNull("version"))
    else Ok(PackageIdentifier(id.value, normalize(version.value)))
  }

  /** `PackageIdentifier.Equals`: ordinal comparison of both fields, which is
      exactly structural equality of the value. */
  function IdentifierEquals(a: PackageIdentifier, b: PackageIdentifier): (r: bool)
    ensures r <==> a == b
  {
    a.id == b.id && a.version == b.version
  }

  /** Two constructed identifiers are equal exactly when their ids are ordinally
      equal and their versions normalise to the same string; in particular,
      versions that differ only in normalisable formatting give equal identifiers. */
  lemma IdentifierEqualityIsNormalizedEquality(id1: string, v1: string, id2: string, v2: string,
                                               normalize: string -> string)
    ensures var a := NewPackageIdentifier(Some(id1), Some(v1), normalize);
            var b := NewPackageIdentifier(Some(id2), Some(v2), normalize);
            a.Ok? && b.Ok? &&
            (IdentifierEquals(a.value, b.value) <==> id1 == id2 && normalize(v1) == normalize(v2))
  {
  }

  /** With an idempotent normaliser, rebuilding an identifier from its own fields
      gives it back. */
  lemma ReconstructIdentifier(id: string, version: string, normalize: string -> string)
    requires forall s :: normalize(normalize(s)) == normalize(s)
    ensures var a := NewPackageIdentifier(Some(id), Some(version), normalize).value;
            NewPackageIdentifier(Some(a.id), Some(a.version), normalize) == Ok(a)
  {
    assert normalize(normalize(version)) == normalize(version);
  }

  // ---------------------------------------------------------------------------
  // RegisteredPackageProject and the ordered project list
  // ---------------------------------------------------------------------------

  /** One local project that built the package; `timestamp` is the clock value at
      registration. */
  datatype RegisteredPackageProject = RegisteredPackageProject(
    projectPath: string,
    timestamp: int,
    packageId: string,
    packageVersion: string,
    packagePath: string)

  /** For a package project the build output is the package file itself. */
  function OutputPath(p: RegisteredPackageProject): string
  {
    p.packagePath
  }

  /** Whether entry `p` is for project path `path`, ignoring case. */
  predicate PathMatches(p: RegisteredPackageProject, path: string)
  {
    EqualsIgnoreCase(p.projectPath, path)
  }

  /** Position of the first entry for `path`, if any. */
  function IndexOfPath(s: seq<RegisteredPackageProject>, path: string): (r: Option<nat>)
    ensures r.None? <==> forall i :: 0 <= i < |s| ==> !PathMatches(s[i], path)
    ensures r.Some? ==> r.value < |s| && PathMatches(s[r.value], path)
    ensures r.Some? ==> forall j :: 0 <= j < r.value ==> !PathMatches(s[j], path)
  {
    if s == [] then None
    else if PathMatches(s[0], path) then Some(0)
    else match IndexOfPath(s[1..], path)
      case None => None
      case Some(i) => Some(i + 1)
  }

  /** Two entries are for `path`: `SingleOrDefault` throws. */
  predicate AmbiguousPath(s: seq<RegisteredPackageProject>, path: string)
  {
    exists i, j :: 0 <= i < j < |s| && PathMatches(s[i], path) && PathMatches(s[j], path)
  }

  /** At most one entry per project path, ignoring case. */
  predicate UniquePaths(s: seq<RegisteredPackageProject>)
  {
    forall i, j :: 0 <= i < j < |s| ==> !EqualsIgnoreCase(s[i].projectPath, s[j].projectPath)
  }

  /** `SingleOrDefault(p => p.ProjectPath.Equals(projectPath, OrdinalIgnoreCase))`
      as a scan of the whole list: the position of the only match, none, or the
      exception for a second match. */
  method FindProject(projects: seq<RegisteredPackageProject>, projectPath: string)
    returns (r: Result<Option<nat>>)
    ensures r.Err? <==> AmbiguousPath(projects, projectPath)
    ensures r.Err? ==> r.error == MoreThanOneMatch
    ensures r.Ok? ==> r.value == IndexOfPath(projects, projectPath)
  {
    var found: Option<nat> := None;
    var i := 0;
    while i < |projects|
      invariant 0 <= i <= |projects|
      invariant found.None? ==> forall j :: 0 <= j < i ==> !PathMatches(projects[j], projectPath)
      invariant found.Some? ==> found.value < i && PathMatches(projects[found.value], projectPath)
      invariant found.Some? ==>
                  forall j :: 0 <= j < i && j != found.value ==> !PathMatches(projects[j], projectPath)
    {
      if PathMatches(projects[i], projectPath) {
        if found.Some? {
          return Err(MoreThanOneMatch);
        }
        found := Some(i);
      }
      i := i + 1;
    }
    r := Ok(found);
  }

  /** The project list after `RegisterProject`: the entry for `projectPath` is
      overwritten where it stands, or a new entry is put in front. */
  function WithProject(projects: seq<RegisteredPackageProject>, registrationId: string,
                       packageVersion: string, packagePath: string, projectPath: string, now: int)
    : (r: Result<seq<RegisteredPackageProject>>)
    ensures r.Err? ==> r.error == MoreThanOneMatch
    ensures r.Ok? ==> |r.value| == |projects| + (if IndexOfPath(projects, projectPath).None? then 1 else 0)
    ensures r.Ok? ==> RegisteredPackageProject(projectPath, now, registrationId, packageVersion, packagePath) in r.value
  {
    if AmbiguousPath(projects, projectPath) then Err(MoreThanOneMatch)
    else
      var entry := RegisteredPackageProject(projectPath, now, registrationId, packageVersion, packagePath);
      match IndexOfPath(projects, projectPath)
      case None => Ok([entry] + projects)
      case Some(i) => assert projects[i := entry][i] == entry; Ok(projects[i := entry])
  }

  /** A list with unique paths never has two entries for one path. */
  lemma UniquePathsNotAmbiguous(s: seq<RegisteredPackageProject>, path: string)
    requires UniquePaths(s)
    ensures !AmbiguousPath(s, path)
  {
    forall i, j | 0 <= i < j < |s| ensures !(PathMatches(s[i], path) && PathMatches(s[j], path)) {
      assert !EqualsIgnoreCase(s[i].projectPath, s[j].projectPath);
    }
  }

  /** Registering a path not yet present puts one new entry at the front and
      keeps the old entries after it in their order. */
  lemma RegisterNewProject(projects: seq<RegisteredPackageProject>, registrationId: string,
                           packageVersion: string, packagePath: string, projectPath: string, now: int)
    requires forall i :: 0 <= i < |projects| ==> !EqualsIgnoreCase(projects[i].projectPath, projectPath)
    ensures var r := WithProject(projects, registrationId, packageVersion, packagePath, projectPath, now);
            && r.Ok?
            && |r.value| == |projects| + 1
            && r.value[0] == RegisteredPackageProject(projectPath, now, registrationId, packageVersion, packagePath)
            && r.value[1..] == projects
  {
    assert !AmbiguousPath(projects, projectPath);
  }

  /** Registering a path already present (once) overwrites that entry where it
      stands: same length, same position, every other entry unchanged. */
  lemma RegisterExistingProject(projects: seq<RegisteredPackageProject>, registrationId: string,
                                packageVersion: string, packagePath: string, projectPath: string,
                                now: int, k: nat)
    requires UniquePaths(projects)
    requires k < |projects| && EqualsIgnoreCase(projects[k].projectPath, projectPath)
    ensures var r := WithProject(projects, registrationId, packageVersion, packagePath, projectPath, now);
            && r.Ok?
            && |r.value| == |projects|
            && r.value[k] == RegisteredPackageProject(projectPath, now, registrationId, packageVersion, packagePath)
            && (forall j :: 0 <= j < |projects| && j != k ==> r.value[j] == projects[j])
  {
    UniquePathsNotAmbiguous(projects, projectPath);
    assert PathMatches(projects[k], projectPath);
    assert IndexOfPath(projects, projectPath) == Some(k);
  }

  /** RegisterProject keeps at most one entry per project path, so on a list
      that has that property it never throws. */
  lemma RegisterKeepsPathsUnique(projects: seq<RegisteredPackageProject>, registrationId: string,
                                 packageVersion: string, packagePath: string, projectPath: string, now: int)
    requires UniquePaths(projects)
    ensures var r := WithProject(projects, registrationId, packageVersion, packagePath, projectPath, now);
            r.Ok? && UniquePaths(r.value)
  {
    UniquePathsNotAmbiguous(projects, projectPath);
    var entry := RegisteredPackageProject(projectPath, now, registrationId, packageVersion, packagePath);
    var r := WithProject(projects, registrationId, packageVersion, packagePath, projectPath, now).value;
    match IndexOfPath(projects, projectPath)
    case None =>
      assert r == [entry] + projects;
      forall a, b | 0 <= a < b < |r| ensures !EqualsIgnoreCase(r[a].projectPath, r[b].projectPath) {
        if a == 0 {
          assert !PathMatches(projects[b - 1], projectPath);
        } else {
          assert r[a] == projects[a - 1] && r[b] == projects[b - 1];
        }
      }
    case Some(i) =>
      assert r == projects[i := entry];
      forall a, b | 0 <= a < b < |r| ensures !EqualsIgnoreCase(r[a].projectPath, r[b].projectPath) {
        if a == i {
          assert !EqualsIgnoreCase(projects[i].projectPath, projects[b].projectPath);
        } else if b == i {
          assert !EqualsIgnoreCase(projects[a].projectPath, projects[i].projectPath);
        }
      }
  }

  /** After RegisterProject there is exactly one entry for the path, and it holds
      the registration's id, the given version, paths and clock value. */
  lemma RegisteredEntryHoldsArguments(projects: seq<RegisteredPackageProject>, registrationId: string,
                                      packageVersion: string, packagePath: string, projectPath: string,
                                      now: int)
    requires UniquePaths(projects)
    ensures var r := WithProject(projects, registrationId, packageVersion, packagePath, projectPath, now);
            && r.Ok?
            && IndexOfPath(r.value, projectPath).Some?
            && var e := r.value[IndexOfPath(r.value, projectPath).value];
               && e.packageId == registrationId && e.packageVersion == packageVersion
               && e.projectPath == projectPath && e.packagePath == packagePath
               && OutputPath(e) == packagePath && e.timestamp == now
  {
    RegisterKeepsPathsUnique(projects, registrationId, packageVersion, packagePath, projectPath, now);
    var r := WithProject(projects, registrationId, packageVersion, packagePath, projectPath, now).value;
    var entry := RegisteredPackageProject(projectPath, now, registrationId, packageVersion, packagePath);
    var k := if IndexOfPath(projects, projectPath).None? then 0 else IndexOfPath(projects, projectPath).value;
    assert r[k] == entry;
    assert PathMatches(r[k], projectPath);
    assert IndexOfPath(r, projectPath) == Some(k);
  }

  // ---------------------------------------------------------------------------
  // The newest entries
  // ---------------------------------------------------------------------------

  /** Position of the first entry with the greatest timestamp: a stable
      descending sort keeps the earliest of equal timestamps first. */
  function MostRecentIndex(s: seq<RegisteredPackageProject>): (k: nat)
    requires |s| > 0
    ensures k < |s|
    ensures forall j :: 0 <= j < |s| ==> s[j].timestamp <= s[k].timestamp
    ensures forall j :: 0 <= j < k ==> s[j].timestamp < s[k].timestamp
  {
    if |s| == 1 then 0
    else
      var k := MostRecentIndex(s[1..]) + 1;
      if s[k].timestamp > s[0].timestamp then k else 0
  }

  // ---------------------------------------------------------------------------
  // PackageRegistration
  // ---------------------------------------------------------------------------

  /** The persisted form of a registration: its id and its project list. */
  datatype RegistrationDoc = RegistrationDoc(packageId: string, projects: seq<RegisteredPackageProject>)

  /** The registration of one package id. Its project list is ordered by first
      registration, newest first; re-registering a path updates its entry in place. */
  class PackageRegistration {
    var packageId: string
    var projects: seq<RegisteredPackageProject>

    /** At most one entry per project path, ignoring case. */
    ghost predicate Valid()
      reads this
    {
      UniquePaths(projects)
    }

    constructor (packageId: string)
      ensures Valid()
      ensures this.packageId == packageId && projects == []
    {
      this.packageId := packageId;
      projects := [];
    }

    /** The registration as read back from its stored document: saving it again
        gives the same document, and it is valid exactly when the stored list
        has one entry per path. */
    constructor Load(doc: RegistrationDoc)
      ensures packageId == doc.packageId && projects == doc.projects
      ensures Doc() == doc
      ensures Valid() <==> UniquePaths(doc.projects)
    {
      packageId := doc.packageId;
      projects := doc.projects;
    }

    /** The document this registration is stored as. */
    function Doc(): RegistrationDoc
      reads this
    {
      RegistrationDoc(packageId, projects)
    }

    /** The head of the list, or null when there is none. */
    function LatestProject(): (r: Option<RegisteredPackageProject>)
      reads this
      ensures r.None? <==> projects == []
      ensures r.Some? ==> r.value == projects[0]
    {
      if projects == [] then None else Some(projects[0])
    }

    /** An entry with the greatest timestamp (the first such), or null when empty. */
    function MostRecentProject(): (r: Option<RegisteredPackageProject>)
      reads this
      ensures r.None? <==> projects == []
      ensures r.Some? ==> r.value in projects
      ensures r.Some? ==> forall p :: p in projects ==> p.timestamp <= r.value.timestamp
      ensures r.Some? ==> exists k :: 0 <= k < |projects| && projects[k] == r.value &&
                            forall j :: 0 <= j < k ==> projects[j].timestamp < r.value.timestamp
    {
      if projects == [] then None else Some(projects[MostRecentIndex(projects)])
    }

    /** Finds the entry for `projectPath` (ignoring case) or inserts a new one at
        the front, then overwrites its fields; `now` is the clock reading. */
    method RegisterProject(packageVersion: string, packagePath: string, projectPath: string, now: int)
      returns (r: Outcome)
      modifies this
      ensures packageId == old(packageId)
      ensures r.Fail? <==> AmbiguousPath(old(projects), projectPath)
      ensures r.Fail? ==> r.error == MoreThanOneMatch && projects == old(projects)
      ensures r.Pass? ==>
                Ok(projects) == WithProject(old(projects), packageId, packageVersion, packagePath, projectPath, now)
      ensures old(Valid()) ==> r.Pass? && Valid()
    {
      var found := FindProject(projects, projectPath);
      if found.Err? {
        return Fail(found.error);
      }
      if old(Valid()) {
        RegisterKeepsPathsUnique(projects, packageId, packageVersion, packagePath, projectPath, now);
      }
      var project := RegisteredPackageProject(projectPath, now, packageId, packageVersion, packagePath);
      match found.value {
        case None =>
          projects := [project] + projects;
        case Some(i) =>
          projects := projects[i := project];
      }
      r := Pass;
    }
  }

  /** The front entry after a registration: the new entry when the path was new,
      and the old front entry when an existing entry further back was updated
      (the update does not move it to the front). */
  lemma LatestAfterRegister(projects: seq<RegisteredPackageProject>, registrationId: string,
                            packageVersion: string, packagePath: string, projectPath: string, now: int)
    requires UniquePaths(projects)
    ensures var r := WithProject(projects, registrationId, packageVersion, packagePath, projectPath, now);
            && r.Ok? && r.value != []
            && (IndexOfPath(projects, projectPath).None? ==>
                  r.value[0] == RegisteredPackageProject(projectPath, now, registrationId, packageVersion, packagePath))
            && (IndexOfPath(projects, projectPath).Some? && IndexOfPath(projects, projectPath).value > 0 ==>
                  r.value[0] == projects[0])
  {
    UniquePathsNotAmbiguous(projects, projectPath);
  }

  /** With a clock that does not run backwards, the newest entry after a
      registration carries the new timestamp, and for a new path it is the new entry. */
  lemma MostRecentAfterRegister(projects: seq<RegisteredPackageProject>, registrationId: string,
                                packageVersion: string, packagePath: string, projectPath: string, now: int)
    requires UniquePaths(projects)
    requires forall p :: p in projects ==> p.timestamp <= now
    ensures var r := WithProject(projects, registrationId, packageVersion, packagePath, projectPath, now);
            && r.Ok? && r.value != []
            && r.value[MostRecentIndex(r.value)].timestamp == now
            && (IndexOfPath(projects, projectPath).None? ==> MostRecentIndex(r.value) == 0)
  {
    UniquePathsNotAmbiguous(projects, projectPath);
    var r := WithProject(projects, registrationId, packageVersion, packagePath, projectPath, now).value;
    var k := if IndexOfPath(projects, projectPath).None? then 0 else IndexOfPath(projects, projectPath).value;
    assert r[k].timestamp == now;
    var m := MostRecentIndex(r);
    assert r[m] in projects || r[m].timestamp == now;
  }

  // ---------------------------------------------------------------------------
  // The keyed store (MultiFileRegistry keyed by PackageId)
  // ---------------------------------------------------------------------------

  /** `SaveItem`: create or overwrite the document under its own package id. */
  function SaveItem(store: map<string, RegistrationDoc>, doc: RegistrationDoc): (r: map<string, RegistrationDoc>)
    ensures r.Keys == store.Keys + {doc.packageId}
    ensures r[doc.packageId] == doc
    ensures forall k :: k in store && k != doc.packageId ==> r[k] == store[k]
  {
    store[doc.packageId := doc]
  }

  /** Every document is stored under its own package id, and every project list
      has at most one entry per path. */
  predicate ConsistentStore(store: map<string, RegistrationDoc>)
  {
    forall k :: k in store ==> store[k].packageId == k && UniquePaths(store[k].projects)
  }

  /** RegisterPackage with the existing registration looked up under `lookupKey`:
      load it (or start a new one for the identifier's id), register the project
      and save it. */
  function RegisterPackageVia(store: map<string, RegistrationDoc>, lookupKey: string, pid: PackageIdentifier,
                              packagePath: string, projectPath: string, now: int)
    : (r: Result<map<string, RegistrationDoc>>)
    ensures r.Err? ==> r.error == MoreThanOneMatch && lookupKey in store
    ensures r.Ok? ==> store.Keys <= r.value.Keys
    ensures r.Ok? && lookupKey !in store ==> pid.id in r.value && r.value[pid.id].packageId == pid.id
  {
    var doc := if lookupKey in store then store[lookupKey] else RegistrationDoc(pid.id, []);
    match WithProject(doc.projects, doc.packageId, pid.version, packagePath, projectPath, now)
    case Err(e) => Err(e)
    case Ok(projects) => Ok(SaveItem(store, RegistrationDoc(doc.packageId, projects)))
  }

  /** RegisterPackage as written: the lookup key is the version string. */
  function RegisterPackageAsWritten(store: map<string, RegistrationDoc>, pid: PackageIdentifier,
                                    packagePath: string, projectPath: string, now: int)
    : (r: Result<map<string, RegistrationDoc>>)
    ensures pid.version !in store ==> r.Ok? && pid.id in r.value && |r.value[pid.id].projects| == 1
  {
    RegisterPackageVia(store, pid.version, pid, packagePath, projectPath, now)
  }

  /** RegisterPackage as evidently intended: the lookup key is the package id. */
  function RegisterPackageById(store: map<string, RegistrationDoc>, pid: PackageIdentifier,
                               packagePath: string, projectPath: string, now: int)
    : (r: Result<map<string, RegistrationDoc>>)
    ensures pid.id !in store ==> r.Ok? && pid.id in r.value && |r.value[pid.id].projects| == 1
  {
    RegisterPackageVia(store, pid.id, pid, packagePath, projectPath, now)
  }

  /** Whatever the lookup key, a registration keeps the store consistent and
      changes exactly one key: the package id of the registration it loaded or created. */
  lemma RegisterPackageKeepsStoreConsistent(store: map<string, RegistrationDoc>, lookupKey: string,
                                            pid: PackageIdentifier, packagePath: string, projectPath: string,
                                            now: int)
    requires ConsistentStore(store)
    ensures var r := RegisterPackageVia(store, lookupKey, pid, packagePath, projectPath, now);
            var savedKey := if lookupKey in store then lookupKey else pid.id;
            && r.Ok?
            && ConsistentStore(r.value)
            && r.value.Keys == store.Keys + {savedKey}
            && (forall k :: k in store && k != savedKey ==> r.value[k] == store[k])
  {
    var doc := if lookupKey in store then store[lookupKey] else RegistrationDoc(pid.id, []);
    RegisterKeepsPathsUnique(doc.projects, doc.packageId, pid.version, packagePath, projectPath, now);
  }

  /** The consequence of looking up by version: when no stored key equals the
      version string, the registration saved under the id holds only the new
      project, whatever history was stored there before; when some key does equal
      the version string, that other registration is the one updated and the
      id's own registration is left as it was. */
  lemma RegisterPackageAsWrittenEffect(store: map<string, RegistrationDoc>, pid: PackageIdentifier,
                                       packagePath: string, projectPath: string, now: int)
    requires ConsistentStore(store)
    ensures var r := RegisterPackageAsWritten(store, pid, packagePath, projectPath, now);
            && r.Ok?
            && (pid.version !in store ==>
                  r.value == store[pid.id := RegistrationDoc(pid.id,
                    [RegisteredPackageProject(projectPath, now, pid.id, pid.version, packagePath)])])
            && (pid.version in store ==>
                  pid.version in r.value && r.value[pid.version].packageId == pid.version
                  && (pid.id in store && pid.id != pid.version ==> r.value[pid.id] == store[pid.id]))
  {
    RegisterPackageKeepsStoreConsistent(store, pid.version, pid, packagePath, projectPath, now);
    if pid.version !in store {
      var entry := RegisteredPackageProject(projectPath, now, pid.id, pid.version, packagePath);
      RegisterNewProject([], pid.id, pid.version, packagePath, projectPath, now);
      assert [entry] + [] == [entry];
      assert WithProject([], pid.id, pid.version, packagePath, projectPath, now) == Ok([entry]);
    }
  }

  /** Another consequence of looking up by version: in a consistent store that
      holds a key equal to the version string, the first registration of an id
      leaves that id unregistered. */
  lemma RegisterPackageAsWrittenMissesId(store: map<string, RegistrationDoc>, pid: PackageIdentifier,
                                         packagePath: string, projectPath: string, now: int)
    requires ConsistentStore(store)
    requires pid.version in store && pid.id !in store
    ensures var r := RegisterPackageAsWritten(store, pid, packagePath, projectPath, now);
            r.Ok? && pid.id !in r.value
  {
    RegisterPackageKeepsStoreConsistent(store, pid.version, pid, packagePath, projectPath, now);
  }

  /** A concrete case of lost history: "Acme.Widgets" was built from one project;
      registering a build of version "1.0.0" from a second project leaves only the
      second project on record. */
  lemma RegisterPackageLosesHistory()
    ensures var old1 := RegisteredPackageProject("C:/src/widgets", 1, "Acme.Widgets", "1.0.0", "C:/out/a.nupkg");
            var store := map["Acme.Widgets" := RegistrationDoc("Acme.Widgets", [old1])];
            var pid := PackageIdentifier("Acme.Widgets", "1.0.0");
            var r := RegisterPackageAsWritten(store, pid, "C:/out/b.nupkg", "C:/src/gadgets", 2);
            && r.Ok?
            && r.value["Acme.Widgets"].projects ==
                 [RegisteredPackageProject("C:/src/gadgets", 2, "Acme.Widgets", "1.0.0", "C:/out/b.nupkg")]
            && old1 !in r.value["Acme.Widgets"].projects
  {
    var old1 := RegisteredPackageProject("C:/src/widgets", 1, "Acme.Widgets", "1.0.0", "C:/out/a.nupkg");
    var store := map["Acme.Widgets" := RegistrationDoc("Acme.Widgets", [old1])];
    assert "1.0.0" !in store;
    RegisterNewProject([], "Acme.Widgets", "1.0.0", "C:/out/b.nupkg", "C:/src/gadgets", 2);
  }

  /** Looking up by id keeps the history: the registration under the id keeps
      every earlier entry for another project path, gains or updates the entry for
      this path, and no other key changes. */
  lemma RegisterPackageByIdKeepsHistory(store: map<string, RegistrationDoc>, pid: PackageIdentifier,
                                        packagePath: string, projectPath: string, now: int)
    requires ConsistentStore(store)
    ensures var r := RegisterPackageById(store, pid, packagePath, projectPath, now);
            && r.Ok?
            && r.value.Keys == store.Keys + {pid.id}
            && (forall k :: k in store && k != pid.id ==> r.value[k] == store[k])
            && r.value[pid.id].packageId == pid.id
            && (pid.id in store ==>
                  forall p :: p in store[pid.id].projects && !EqualsIgnoreCase(p.projectPath, projectPath) ==>
                                p in r.value[pid.id].projects)
  {
    RegisterPackageKeepsStoreConsistent(store, pid.id, pid, packagePath, projectPath, now);
    if pid.id in store {
      var s := store[pid.id].projects;
      var r := RegisterPackageById(store, pid, packagePath, projectPath, now).value[pid.id].projects;
      forall p | p in s && !EqualsIgnoreCase(p.projectPath, projectPath) ensures p in r {
        var j :| 0 <= j < |s| && s[j] == p;
        match IndexOfPath(s, projectPath)
        case None =>
          RegisterNewProject(s, pid.id, pid.version, packagePath, projectPath, now);
          assert r[j + 1] == p;
        case Some(i) =>
          RegisterExistingProject(s, pid.id, pid.version, packagePath, projectPath, now, i);
          assert j != i;
          assert r[j] == p;
      }
    }
  }

  /** The counterexample's shape does not lose history once the lookup is by id:
      with an earlier build from another project path on record, that build is
      still on record afterwards. */
  lemma RegisterPackageByIdKeepsExample(oldPath: string, newPath: string)
    requires !EqualsIgnoreCase(oldPath, newPath)
    ensures var old1 := RegisteredPackageProject(oldPath, 1, "Acme.Widgets", "1.0.0", "C:/out/a.nupkg");
            var store := map["Acme.Widgets" := RegistrationDoc("Acme.Widgets", [old1])];
            var pid := PackageIdentifier("Acme.Widgets", "1.0.0");
            var r := RegisterPackageById(store, pid, "C:/out/b.nupkg", newPath, 2);
            && r.Ok?
            && old1 in r.value["Acme.Widgets"].projects
            && |r.value["Acme.Widgets"].projects| == 2
  {
    var old1 := RegisteredPackageProject(oldPath, 1, "Acme.Widgets", "1.0.0", "C:/out/a.nupkg");
    RegisterNewProject([old1], "Acme.Widgets", "1.0.0", "C:/out/b.nupkg", newPath, 2);
  }

  // ---------------------------------------------------------------------------
  // PackageRegistry
  // ---------------------------------------------------------------------------

  /** The registry over its document store, keyed by package id. */
  class PackageRegistry {
    var packages: map<string, RegistrationDoc>

    ghost predicate Valid()
      reads this
    {
      ConsistentStore(packages)
    }

    /** Opens the registry over the documents already in the store. */
    constructor (store: map<string, RegistrationDoc>)
      ensures packages == store
    {
      packages := store;
    }

    /** `Exists(packageId)` on the store. */
    function IsPackageRegistered(packageId: string): (r: bool)
      reads this
      ensures r <==> packageId in packages
    {
      packageId in packages
    }

    /** The stored registration, or null when the id is not registered. */
    function GetPackage(packageId: string): (r: Option<RegistrationDoc>)
      reads this
      ensures r.None? <==> !IsPackageRegistered(packageId)
      ensures r.Some? ==> r.value == packages[packageId]
      ensures r.Some? && Valid() ==> r.value.packageId == packageId
    {
      if IsPackageRegistered(packageId) then Some(packages[packageId]) else None
    }

    /** Every stored registration, in no particular order. */
    function GetPackages(): (r: set<RegistrationDoc>)
      reads this
      ensures forall d :: d in r <==> exists k :: k in packages && packages[k] == d
      ensures Valid() ==> forall d :: d in r ==> d.packageId in packages && packages[d.packageId] == d
    {
      packages.Values
    }

    /** Registers a build of `packageId` from `projectPath`, looking the existing
        registration up under the identifier's version string. */
    method RegisterPackage(packageId: PackageIdentifier, packagePath: string, projectPath: string, now: int)
      returns (r: Outcome)
      modifies this
      ensures var expected := RegisterPackageAsWritten(old(packages), packageId, packagePath, projectPath, now);
              && (r.Pass? <==> expected.Ok?)
              && (r.Pass? ==> packages == expected.value)
              && (r.Fail? ==> r.error == MoreThanOneMatch && packages == old(packages))
      ensures old(Valid()) ==> r.Pass? && Valid()
      ensures r.Pass? && packageId.version !in old(packages) ==> IsPackageRegistered(packageId.id)
    {
      var registration: PackageRegistration;
      var existing := GetPackage(packageId.version);
      if existing.None? {
        registration := new PackageRegistration(packageId.id);
      } else {
        registration := new PackageRegistration.Load(existing.value);
      }
      r := registration.RegisterProject(packageId.version, packagePath, projectPath, now);
      if r.Fail? {
        return;
      }
      packages := SaveItem(packages, registration.Doc());
      if old(Valid()) {
        RegisterPackageKeepsStoreConsistent(old(packages), packageId.version, packageId, packagePath, projectPath, now);
      }
    }

    /** RegisterPackage with the lookup corrected to the identifier's id. */
    method RegisterPackageCorrected(packageId: PackageIdentifier, packagePath: string, projectPath: string, now: int)
      returns (r: Outcome)
      modifies this
      ensures var expected := RegisterPackageById(old(packages), packageId, packagePath, projectPath, now);
              && (r.Pass? <==> expected.Ok?)
              && (r.Pass? ==> packages == expected.value)
              && (r.Fail? ==> r.error == MoreThanOneMatch && packages == old(packages))
      ensures old(Valid()) ==> r.Pass? && Valid()
      ensures r.Pass? ==> IsPackageRegistered(packageId.id)
    {
      var registration: PackageRegistration;
      var existing := GetPackage(packageId.id);
      if existing.None? {
        registration := new PackageRegistration(packageId.id);
      } else {
        registration := new PackageRegistration.Load(existing.value);
      }
      r := registration.RegisterProject(packageId.version, packagePath, projectPath, now);
      if r.Fail? {
        return;
      }
      packages := SaveItem(packages, registration.Doc());
      if old(Valid()) {
        RegisterPackageKeepsStoreConsistent(old(packages), packageId.id, packageId, packagePath, projectPath, now);
      }
    }
  }
}
