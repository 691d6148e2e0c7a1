# Pin and package registries

A model, in Dafny, of the two in-memory registries at the core of a
cross-repository build tool:

- the **pin registry** (`src/Core/PinRegistry.cs`) holds three independent keyed
  collections of pins (assemblies, packages and repos). A pin forces references
  to a name to resolve to local builds. Assembly and repo names are compared
  ordinally ignoring case; package ids are compared ordinally. Pinning a name
  already present throws; unpinning an absent name returns null; `UnpinAll`
  returns repos, then packages, then assemblies, and empties all three;
- the **package registry** (`src/Core/PackageRegistry.cs`) maps a package id to a
  registration: the history of local projects that built the package, ordered
  by first registration, newest first, with at most one entry per project path
  (ignoring case); re-registering a path updates its entry in place. `RegisterProject` updates the entry for a path in place or inserts a new
  one at the front. `RegisterPackage` loads a registration from a keyed document
  store, registers the project and saves the registration.

Files:

- `wrappers.dfy` — `Option` (a null result), `Result`/`Outcome` (a thrown
  exception) and the exception kinds.
- `case_fold.dfy` — `StringComparer.OrdinalIgnoreCase` as a character fold.
- `pin_registry.dfy` — pins, their descriptions, the three keyed collections as
  functions on `seq<Pin>`, and the class `PinRegistry` whose three `seq` fields
  are the collections of the `PinHolder` document, changed in place by its methods.
- `package_registry.dfy` — `PackageIdentifier`, project entries, the project
  list operations, the class `PackageRegistration` (its list changed in place by
  `RegisterProject`) and the class `PackageRegistry` over a
  `map<string, RegistrationDoc>` that stands for the document store.
- `scenarios.dfy` — client methods that drive both registries through typical
  sequences of calls using only the operations' contracts.

The clock (`DateTime.Now`) is the integer parameter `now`; the version
normaliser (`NuGetVersion.Normalize`) is the function parameter `normalize`.

Points where the code behaves differently from what its names suggest; the model follows the code:

- re-registering a known project path updates its entry where it stands; the
  code does not move it to the front (`PackageRegistry.cs:117-128`);
- `PackageIdentifier` rejects only null arguments, not empty ones
  (`PackageRegistry.cs:62-65`);
- the pin operations change the in-memory document only; none of them saves it
  (`PinRegistry.cs:19-145`);
- package pins are compared ordinally, as the package collection is built
  without a comparer (`PinRegistry.cs:194-200`);
- `RegisterPackage` looks the existing registration up under the version string
  (`PackageRegistry.cs:35`); this is modelled as written and listed under Findings.

## Model

| member | source | states |
|---|---|---|
| `CaseFold.Fold` | src/Core/PinRegistry.cs:174 | the folded string has the input's length and each character is the input's character with ASCII upper case mapped to lower case |
| `CaseFold.EqualsIgnoreCase` | src/Core/PinRegistry.cs:174 | strings equal ignoring case have the same length; `EqualsIgnoreCaseCharwise` gives the full character-by-character characterisation |
| `CaseFold.FoldIdempotent` | src/Core/PinRegistry.cs:174 | folding a folded string changes nothing |
| `CaseFold.EqualsIgnoreCaseCharwise` | src/Core/PinRegistry.cs:174 | two strings are equal ignoring case iff they have equal length and agree character by character after folding |
| `CaseFold.OrdinalIsFinerThanIgnoreCase` | src/Core/PinRegistry.cs:194-200 | ordinally equal strings are equal ignoring case, and "Foo"/"foo" show the converse fails |
| `Pins.Description` | src/Core/PinRegistry.cs:169 | the description's length is the prefix, name and suffix lengths of the pin's variant added up |
| `Pins.DescriptionDeterminesPin` | src/Core/PinRegistry.cs:162-210 | the description contains the pin's name right after the variant's prefix, and two pins with the same description are the same pin (variant and name) |
| `Pins.SameKeyByKind` | src/Core/PinRegistry.cs:172-220 | package keys match iff ordinally equal; assembly and repo keys match iff equal ignoring case; "Foo" and "foo" are one assembly or repo key but two package keys |
| `Pins.IndexOfKey` | src/Core/PinRegistry.cs:176-179 | the result is absent iff no pin's key matches the name; otherwise it is the position of the first pin whose key matches |
| `Pins.Contains` | src/Core/PinRegistry.cs:21 | the collection contains a key iff some pin's key matches it under the collection's comparer; `AddKeepsKeysUnique` and `RemoveKeyRemovesOnlyThatKey` say how pinning and unpinning change it |
| `Pins.Lookup` | src/Core/PinRegistry.cs:111-114 | the indexer throws KeyNotFound iff no pin's key matches; otherwise it returns a pin of the collection whose key matches |
| `Pins.RemoveItem` | src/Core/PinRegistry.cs:40 | removing a pin that is absent changes nothing; removing one that is present shortens the collection by one |
| `Pins.RemoveKey` | src/Core/PinRegistry.cs:121 | removing by key shortens the collection by one iff the key was present and adds no pin; `RemoveKeyRemovesOnlyThatKey` and `PinThenUnpinRestores` state exactly which pin goes |
| `Pins.RemoveItemAt` | src/Core/PinRegistry.cs:40 | removing a pin by item removes its first occurrence, the rest keeping their order |
| `Pins.RemoveFoundItemIsRemoveKey` | src/Core/PinRegistry.cs:116-127 | removing the looked-up pin as an item (assemblies, packages) and removing by key (repos) give the same collection |
| `Pins.AddKeepsWellFormed` | src/Core/PinRegistry.cs:21-25 | appending a pin whose key is absent keeps the collection well formed and makes the key present |
| `Pins.AddKeepsKeysUnique` | src/Core/PinRegistry.cs:21-25 | adding a pin whose key is absent keeps keys unique, makes the key present and leaves the presence of every other key unchanged |
| `Pins.RemoveKeyRemovesOnlyThatKey` | src/Core/PinRegistry.cs:37-41 | removing by key from a well-formed collection takes out exactly the looked-up pin (as a multiset), makes the key absent, keeps every pin with another key, adds none, keeps keys unique, and changes nothing when the key is absent |
| `Pins.PinThenUnpinRestores` | src/Core/PinRegistry.cs:19-45 | pinning an absent name and then unpinning it gives back the original collection |
| `Pins.UnpinAllListsEachPinOnce` | src/Core/PinRegistry.cs:129-140 | the UnpinAll list has the three collections' total length, contains a pin iff the collection of its variant does, and holds each pin at most once |
| `Pins.PinRegistry.constructor` | src/Core/PinRegistry.cs:154-159 | a new document has three empty, well-formed collections |
| `Pins.PinRegistry.IsAssemblyPinned` | src/Core/PinRegistry.cs:30-33 | true iff some assembly pin's name equals the name ignoring case |
| `Pins.PinRegistry.GetAssemblyPin` | src/Core/PinRegistry.cs:111-114 | fails with KeyNotFound iff the assembly is not pinned; otherwise returns a stored assembly pin whose name equals the name ignoring case |
| `Pins.PinRegistry.GetPinnedAssemblies` | src/Core/PinRegistry.cs:47-50 | the pins returned are all assembly pins with unique keys, and a name is pinned iff it matches one of them ignoring case |
| `Pins.PinRegistry.PinAssembly` | src/Core/PinRegistry.cs:19-28 | throws AlreadyPinned iff the name was pinned (ignoring case), then changing nothing; otherwise appends and returns the new pin; the name is pinned afterwards; packages and repos are untouched; keys stay unique |
| `Pins.PinRegistry.UnpinAssembly` | src/Core/PinRegistry.cs:35-45 | returns null iff the name was not pinned, then changing nothing; otherwise returns the stored pin matching ignoring case and removes exactly that pin; the name is not pinned afterwards; packages and repos are untouched |
| `Pins.PinRegistry.IsPackagePinned` | src/Core/PinRegistry.cs:52-55 | true iff some package pin's id is ordinally equal to the id |
| `Pins.PinRegistry.GetPackagePin` | src/Core/PinRegistry.cs:57-60 | fails with KeyNotFound iff the package is not pinned; otherwise returns the stored package pin with exactly that id |
| `Pins.PinRegistry.GetPinnedPackages` | src/Core/PinRegistry.cs:85-88 | the pins returned are all package pins with unique ids, and an id is pinned iff one of them has it |
| `Pins.PinRegistry.PinPackage` | src/Core/PinRegistry.cs:62-71 | the PinAssembly contract with ordinal comparison, leaving assemblies and repos untouched |
| `Pins.PinRegistry.UnpinPackage` | src/Core/PinRegistry.cs:73-83 | the UnpinAssembly contract with ordinal comparison, leaving assemblies and repos untouched |
| `Pins.PinRegistry.IsRepoPinned` | src/Core/PinRegistry.cs:101-104 | true iff some repo pin's name equals the name ignoring case |
| `Pins.PinRegistry.GetRepoPin` | src/Core/PinRegistry.cs:106-109 | fails with KeyNotFound iff the repo is not pinned; otherwise returns a stored repo pin whose name equals the name ignoring case |
| `Pins.PinRegistry.GetPinnedRepos` | src/Core/PinRegistry.cs:142-145 | the pins returned are all repo pins with unique keys, and a name is pinned iff it matches one of them ignoring case |
| `Pins.PinRegistry.PinRepo` | src/Core/PinRegistry.cs:90-99 | the PinAssembly contract for repos, leaving assemblies and packages untouched |
| `Pins.PinRegistry.UnpinRepo` | src/Core/PinRegistry.cs:116-127 | returns null iff the repo was not pinned; otherwise removes by key and returns the removed pin; the repo is not pinned afterwards; assemblies and packages are untouched |
| `Pins.PinRegistry.UnpinAll` | src/Core/PinRegistry.cs:129-140 | returns the old repos, then packages, then assemblies, each in collection order, and afterwards no name is pinned in any namespace |
| `Packages.NewPackageIdentifier` | src/Core/PackageRegistry.cs:60-68 | fails with ArgumentNull for a null id, else for a null version; otherwise keeps the id and stores the normalised version |
| `Packages.IdentifierEquals` | src/Core/PackageRegistry.cs:70-73 | two identifiers are equal iff they are the same value (both fields ordinally equal) |
| `Packages.IdentifierEqualityIsNormalizedEquality` | src/Core/PackageRegistry.cs:60-73 | two constructed identifiers are equal iff the ids are equal and the versions normalise to the same string |
| `Packages.ReconstructIdentifier` | src/Core/PackageRegistry.cs:67 | with an idempotent normaliser, constructing from an identifier's own fields gives it back |
| `Packages.IndexOfPath` | src/Core/PackageRegistry.cs:117 | absent iff no entry's project path equals the path ignoring case; otherwise the first such entry's position |
| `Packages.FindProject` | src/Core/PackageRegistry.cs:117 | throws iff two entries match the path ignoring case; otherwise returns the position of the only matching entry, or none |
| `Packages.UniquePathsNotAmbiguous` | src/Core/PackageRegistry.cs:117 | on a list with one entry per path, the lookup never finds two matches |
| `Packages.WithProject` | src/Core/PackageRegistry.cs:117-128 | the list after RegisterProject: fails only with MoreThanOneMatch; otherwise grows by one exactly when the path was new and contains the new entry; `RegisterNewProject`, `RegisterExistingProject` and `RegisterKeepsPathsUnique` give the exact list |
| `Packages.RegisterNewProject` | src/Core/PackageRegistry.cs:117-122 | for a path not present, the new list is the new entry followed by the old entries in their order |
| `Packages.RegisterExistingProject` | src/Core/PackageRegistry.cs:117-128 | for a path present at position k, the list keeps its length, position k holds the updated entry and every other entry is unchanged |
| `Packages.RegisterKeepsPathsUnique` | src/Core/PackageRegistry.cs:115-129 | on a list with at most one entry per path, RegisterProject succeeds and keeps that property |
| `Packages.RegisteredEntryHoldsArguments` | src/Core/PackageRegistry.cs:124-128 | the one entry for the path afterwards carries the registration's id, the given version, project path and package path (its output path) and the clock value |
| `Packages.MostRecentIndex` | src/Core/PackageRegistry.cs:101 | picks an entry whose timestamp is the greatest, and the first such entry |
| `Packages.PackageRegistration.constructor` | src/Core/PackageRegistry.cs:110-113 | a new registration has the given id and no projects |
| `Packages.PackageRegistration.Load` | src/Core/PackageRegistry.cs:108 | a registration read back from a stored document holds exactly its id and projects, saving it again gives the same document, and it is valid exactly when the stored list has one entry per path |
| `Packages.PackageRegistration.LatestProject` | src/Core/PackageRegistry.cs:106 | null iff there are no projects; otherwise the first entry |
| `Packages.PackageRegistration.MostRecentProject` | src/Core/PackageRegistry.cs:101 | null iff there are no projects; otherwise an entry whose timestamp no entry exceeds, with every earlier entry strictly older |
| `Packages.PackageRegistration.RegisterProject` | src/Core/PackageRegistry.cs:115-129 | throws iff two entries match the path, then changing nothing; otherwise the list becomes the upserted list; a registration with one entry per path never throws and keeps that property |
| `Packages.LatestAfterRegister` | src/Core/PackageRegistry.cs:106-122 | after registering a new path the latest project is the new entry; after updating an entry further back, the latest project is still the old first entry |
| `Packages.MostRecentAfterRegister` | src/Core/PackageRegistry.cs:101-128 | with a clock that does not go back, the most recent project afterwards has the new timestamp, and for a new path it is the new entry |
| `Packages.SaveItem` | src/Core/PackageRegistry.cs:41 | saving adds or overwrites exactly the document's own package id and keeps every other key |
| `Packages.RegisterPackageVia` | src/Core/PackageRegistry.cs:35-41 | load-register-save under a lookup key: fails only with MoreThanOneMatch on a loaded registration; keeps every stored key; with nothing under the lookup key it saves a registration under the identifier's id |
| `Packages.RegisterPackageAsWritten` | src/Core/PackageRegistry.cs:35-41 | with no stored key equal to the version string, the id's registration afterwards holds exactly one project, whatever was stored before; `RegisterPackageAsWrittenEffect` gives the whole store |
| `Packages.RegisterPackageById` | src/Core/PackageRegistry.cs:35-41 | for an id not yet stored, the result holds a one-project registration under the id; `RegisterPackageByIdKeepsHistory` covers ids already stored |
| `Packages.RegisterPackageKeepsStoreConsistent` | src/Core/PackageRegistry.cs:33-42 | on a consistent store, registration succeeds, keeps each document under its own id with one entry per path, and changes only the key of the registration it loaded or created |
| `Packages.RegisterPackageAsWrittenEffect` | src/Core/PackageRegistry.cs:33-42 | when no key equals the version string, the id's registration is replaced by one holding only the new entry; otherwise the registration stored under the version string is the one updated and the id's own is left alone |
| `Packages.RegisterPackageAsWrittenMissesId` | src/Core/PackageRegistry.cs:35-41 | in a consistent store holding a key equal to the version string, the first registration of an id leaves that id unregistered |
| `Packages.RegisterPackageLosesHistory` | src/Core/PackageRegistry.cs:35 | a stored build of "Acme.Widgets" disappears when version "1.0.0" is registered from another project |
| `Packages.RegisterPackageByIdKeepsHistory` | src/Core/PackageRegistry.cs:33-42 | with the lookup by id, only the id's key changes and every earlier entry for another project path is still recorded |
| `Packages.RegisterPackageByIdKeepsExample` | src/Core/PackageRegistry.cs:33-42 | with the lookup by id, the same input keeps the earlier build and records two projects |
| `Packages.PackageRegistry.constructor` | src/Core/PackageRegistry.cs:15-18 | the registry opens over the documents already stored |
| `Packages.PackageRegistry.IsPackageRegistered` | src/Core/PackageRegistry.cs:44-47 | true iff a document is stored under the id; `RegisterPackageCorrected` always leaves the id registered, `RegisterPackage` only when no key equals the version string, and `RegisterPackageAsWrittenMissesId` shows the id can stay unregistered |
| `Packages.PackageRegistry.GetPackage` | src/Core/PackageRegistry.cs:25-31 | null iff the id is not registered; otherwise the stored registration, whose own id is the key in a consistent store |
| `Packages.PackageRegistry.GetPackages` | src/Core/PackageRegistry.cs:49-52 | exactly the stored registrations; in a consistent store each is stored under its own id |
| `Packages.PackageRegistry.RegisterPackage` | src/Core/PackageRegistry.cs:33-42 | the store becomes the as-written registration result (lookup under the version string), or stays unchanged on the SingleOrDefault exception; a consistent store stays consistent and never throws; when no key equals the version string the id is registered afterwards |
| `Packages.PackageRegistry.RegisterPackageCorrected` | src/Core/PackageRegistry.cs:33-42 | the same with the lookup under the package id, and the id is always registered afterwards |

## Left out

- `CaseFold.Fold`: folds ASCII letters only; `OrdinalIgnoreCase` also matches non-ASCII letters by their invariant upper-case mapping, which needs Unicode tables that are not part of this model.
- Persistence: `JsonRegistry<T>`, `Load<PinRegistry>`, the `pin.registry` file name, `MultiFileRegistry<T>`, the `packages` sub-directory and JSON (de)serialisation are file I/O. The package store is a map from key to stored document, with `Exists`, `GetItem` and `SaveItem` as map membership, lookup and update; `PinRegistry` is modelled as the in-memory document.
- `NuGetVersion.Normalize` is an external library: it is the parameter `normalize`, assumed total (an exception it might throw for a malformed version is not modelled), idempotent only where a lemma says so.
- `DateTime.Now` is the integer parameter `now`; time zones and clock resolution are not modelled.
- `PackageIdentifier.GetHashCode` (unchecked arithmetic) has no behavioural contract here beyond consistency with equality, which value equality gives.
- `RegisteredPackageProject.PackageDirectory` uses the platform path library; `OutputPath` is modelled and appears in `RegisteredEntryHoldsArguments`.
- `PackageRegistrationCollection` is declared but not used by the registry.
- The `Pin` and `RegisteredProject` base classes are not part of this model; their `Name`, `ProjectPath` and `Timestamp` members are taken as plain fields.
- Null strings: every name and path is non-null in the model, so `ArgumentNullException` from a keyed collection and a null `ProjectPath` in a stored entry are not modelled (null `PackageIdentifier` arguments are).
- Aliasing: `GetPinned*` return the live collection in the source (later changes show through); the model returns its value at the time of the call. A registered project entry is an object updated in place; the model replaces the value at its position, which gives the same list.
- `GetPackages` enumerates documents lazily in directory order; the model returns the set of stored documents.
- Concurrent or cross-process access to the same registry is not modelled.

## Findings

| source | as written | input that shows it | evidently intended | confidence | as-written member | corrected member |
|---|---|---|---|---|---|---|
| src/Core/PackageRegistry.cs:35 | `RegisterPackage` looks the existing registration up with `GetPackage(packageId.Version)`, so it is not found and a fresh one-entry registration overwrites the stored history under the id (or a registration whose id equals the version string is updated instead) | store holds "Acme.Widgets" built from `C:/src/widgets`; register "Acme.Widgets" version "1.0.0" from `C:/src/gadgets`: only `C:/src/gadgets` remains on record | look the registration up with `GetPackage(packageId.Id)`, so earlier builds from other projects stay on record | high (not executed) | `Packages.RegisterPackageLosesHistory` | `Packages.RegisterPackageByIdKeepsHistory` |
