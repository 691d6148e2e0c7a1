/** The pin registry: three keyed collections of pins (assemblies, packages and
    repos), each with its own key comparer, held by one registry object whose
    methods change the collections in place. */
module Pins {
  import opened Wrappers
  import opened CaseFold

  // ---------------------------------------------------------------------------
  // Pins and their descriptions
  // ---------------------------------------------------------------------------

  /** The three pin variants; each lives in its own collection. */
  datatype PinKind = AssemblyPin | PackagePin | RepoPin

  /** A pin is identified by its name (for a package pin, the package id). */
  datatype Pin = Pin(kind: PinKind, name: string)

  function DescriptionPrefix(kind: PinKind): string
  {
    match kind
    case AssemblyPin => "The assembly '"
    case PackagePin => "The package '"
    case RepoPin => "The repo "
  }

  function DescriptionSuffix(kind: PinKind): string
  {
    match kind
    case AssemblyPin => "' has been pinned. All references to this assembly will now be resolved to local copies."
    case PackagePin => "' has been pinned. All references to this package will now be resolved to local copies."
    case RepoPin => " has been pinned. All references to packages and assemblies built within this repo will now be resolved to local copies."
  }

  /** The human-readable text of a pin, computed from its variant and name. */
  function Description(p: Pin): (d: string)
    ensures |d| == |DescriptionPrefix(p.kind)| + |p.name| + |DescriptionSuffix(p.kind)|
  {
    DescriptionPrefix(p.kind) + p.name + DescriptionSuffix(p.kind)
  }

  /** The character at which the three prefixes first differ. */
  lemma PrefixMarker(kind: PinKind)
    ensures |DescriptionPrefix(kind)| > 4
    ensures DescriptionPrefix(kind)[4] == match kind
                                         case AssemblyPin => 'a'
                                         case PackagePin => 'p'
                                         case RepoPin => 'r'
  {
  }

  lemma ConcatParts(x: string, y: string, z: string)
    ensures |x + y + z| == |x| + |y| + |z|
    ensures (x + y + z)[..|x|] == x && (x + y + z)[|x|..|x| + |y|] == y
  {
    assert (x + y + z)[..|x|] == x;
    assert (x + y + z)[|x|..|x| + |y|] == y;
  }

  /** The description mentions the pinned name, and no two different pins share a
      description: the variant and the name can be read back from the text. */
  lemma DescriptionDeterminesPin(p: Pin, q: Pin)
    ensures var k := |DescriptionPrefix(p.kind)|;
            Description(p)[k..k + |p.name|] == p.name
    ensures Description(p) == Description(q) ==> p == q
  {
    var P, S := DescriptionPrefix(p.kind), DescriptionSuffix(p.kind);
    var Q, T := DescriptionPrefix(q.kind), DescriptionSuffix(q.kind);
    ConcatParts(P, p.name, S);
    ConcatParts(Q, q.name, T);
    if Description(p) == Description(q) {
      PrefixMarker(p.kind);
      PrefixMarker(q.kind);
      assert P[4] == (P + p.name + S)[4] == (Q + q.name + T)[4] == Q[4];
      assert p.kind == q.kind;
    }
  }

  // ---------------------------------------------------------------------------
  // Keyed collections: AssemblyPinCollection, PackagePinCollection, RepoPinCollection
  // ---------------------------------------------------------------------------

  /** The key a collection compares: assembly and repo collections are built with
      `StringComparer.OrdinalIgnoreCase`, the package collection with the default
      ordinal comparer. */
  function KeyOf(kind: PinKind, name: string): string
  {
    match kind
    case PackagePin => name
    case _ => Fold(name)
  }

  /** Whether two names are the same key in the collection of `kind`. */
  predicate SameKey(kind: PinKind, a: string, b: string)
  {
    KeyOf(kind, a) == KeyOf(kind, b)
  }

  /** The comparer of each collection, spelled out. */
  lemma SameKeyByKind(kind: PinKind, a: string, b: string)
    ensures kind == PackagePin ==> (SameKey(kind, a, b) <==> a == b)
    ensures kind != PackagePin ==> (SameKey(kind, a, b) <==> EqualsIgnoreCase(a, b))
    ensures SameKey(PackagePin, "Foo", "Foo") && !SameKey(PackagePin, "Foo", "foo")
    ensures SameKey(AssemblyPin, "Foo", "foo") && SameKey(RepoPin, "Foo", "foo")
  {
    OrdinalIsFinerThanIgnoreCase("Foo", "foo");
  }

  /** Position of the pin whose key matches `name`, if any. */
  function IndexOfKey(kind: PinKind, s: seq<Pin>, name: string): (r: Option<nat>)
    ensures r.None? <==> forall i :: 0 <= i < |s| ==> !SameKey(kind, s[i].name, name)
    ensures r.Some? ==> r.value < |s| && SameKey(kind, s[r.value].name, name)
    ensures r.Some? ==> forall j :: 0 <= j < r.value ==> !SameKey(kind, s[j].name, name)
  {
    if s == [] then None
    else if SameKey(kind, s[0].name, name) then Some(0)
    else match IndexOfKey(kind, s[1..], name)
      case None => None
      case Some(i) => Some(i + 1)
  }

  /** `KeyedCollection.Contains(key)`: some pin's key matches `name`. */
  predicate Contains(kind: PinKind, s: seq<Pin>, name: string): (r: bool)
    ensures !r <==> forall i :: 0 <= i < |s| ==> !SameKey(kind, s[i].name, name)
  {
    IndexOfKey(kind, s, name).Some?
  }

  /** `KeyedCollection[key]`: the pin with that key, or KeyNotFoundException. */
  function Lookup(kind: PinKind, s: seq<Pin>, name: string): (r: Result<Pin>)
    ensures r.Err? <==> !Contains(kind, s, name)
    ensures r.Err? ==> r.error == KeyNotFound(name)
    ensures r.Ok? ==> r.value in s && SameKey(kind, r.value.name, name)
  {
    match IndexOfKey(kind, s, name)
    case None => Err(KeyNotFound(name))
    case Some(i) => Ok(s[i])
  }

  /** No two pins of a collection have the same key. */
  predicate UniqueKeys(kind: PinKind, s: seq<Pin>)
  {
    forall i, j :: 0 <= i < j < |s| ==> !SameKey(kind, s[i].name, s[j].name)
  }

  /** A well-formed collection of `kind`: only pins of that variant, unique keys. */
  predicate WellFormed(kind: PinKind, s: seq<Pin>)
  {
    UniqueKeys(kind, s) && forall p :: p in s ==> p.kind == kind
  }

  /** `Collection.Remove(item)`: removes the first pin equal to `p`. */
  function RemoveItem(s: seq<Pin>, p: Pin): (r: seq<Pin>)
    ensures p !in s ==> r == s
    ensures p in s ==> |r| == |s| - 1
  {
    if s == [] then []
    else if s[0] == p then s[1..]
    else [s[0]] + RemoveItem(s[1..], p)
  }

  /** `KeyedCollection.Remove(key)`: removes the pin whose key matches `name`. */
  function RemoveKey(kind: PinKind, s: seq<Pin>, name: string): (r: seq<Pin>)
    ensures |r| == |s| - (if Contains(kind, s, name) then 1 else 0)
    ensures forall p :: p in r ==> p in s
  {
    match IndexOfKey(kind, s, name)
    case None => s
    case Some(i) => s[..i] + s[i + 1..]
  }

  /** Removing the first occurrence of the pin at `i` removes position `i`. */
  lemma {:induction false} RemoveItemAt(s: seq<Pin>, p: Pin, i: nat)
    requires i < |s| && s[i] == p
    requires forall j :: 0 <= j < i ==> s[j] != p
    ensures RemoveItem(s, p) == s[..i] + s[i + 1..]
  {
    if i > 0 {
      RemoveItemAt(s[1..], p, i - 1);
      assert s[1..][..i - 1] + s[1..][i..] == s[1..i] + s[i + 1..];
      assert [s[0]] + s[1..i] == s[..i];
    }
  }

  /** UnpinAssembly and UnpinPackage remove the pin found by key as an item, UnpinRepo
      removes by key; both remove the same pin. */
  lemma RemoveFoundItemIsRemoveKey(kind: PinKind, s: seq<Pin>, name: string)
    requires Contains(kind, s, name)
    ensures RemoveItem(s, Lookup(kind, s, name).value) == RemoveKey(kind, s, name)
  {
    var i := IndexOfKey(kind, s, name).value;
    assert Lookup(kind, s, name).value == s[i];
    assert RemoveKey(kind, s, name) == s[..i] + s[i + 1..];
    forall j | 0 <= j < i ensures s[j] != s[i] {
      assert !SameKey(kind, s[j].name, name);
    }
    RemoveItemAt(s, s[i], i);
  }

  /** Appending a pin whose key is absent keeps the collection well formed and
      makes the key present. */
  lemma AddKeepsWellFormed(kind: PinKind, s: seq<Pin>, name: string)
    requires WellFormed(kind, s) && !Contains(kind, s, name)
    ensures WellFormed(kind, s + [Pin(kind, name)])
    ensures Contains(kind, s + [Pin(kind, name)], name)
  {
    var t := s + [Pin(kind, name)];
    assert t[|s|].name == name;
  }

  /** Adding a pin whose key is absent keeps the keys unique, makes the key present
      and leaves the presence of every other key as it was. */
  lemma AddKeepsKeysUnique(kind: PinKind, s: seq<Pin>, name: string)
    requires WellFormed(kind, s) && !Contains(kind, s, name)
    ensures WellFormed(kind, s + [Pin(kind, name)])
    ensures Contains(kind, s + [Pin(kind, name)], name)
    ensures forall m :: Contains(kind, s + [Pin(kind, name)], m) <==>
                          Contains(kind, s, m) || SameKey(kind, m, name)
  {
    AddKeepsWellFormed(kind, s, name);
    var t := s + [Pin(kind, name)];
    assert t[|s|].name == name;
    forall m ensures Contains(kind, t, m) <==> Contains(kind, s, m) || SameKey(kind, m, name) {
      if Contains(kind, s, m) {
        var i := IndexOfKey(kind, s, m).value;
        assert t[i] == s[i];
      }
      if Contains(kind, t, m) && !SameKey(kind, m, name) {
        var i := IndexOfKey(kind, t, m).value;
        assert i < |s| && t[i] == s[i];
      }
    }
  }

  /** Cutting position `i` out of a sequence shifts the later pins down by one. */
  lemma RemoveAtShifts(s: seq<Pin>, i: nat)
    requires i < |s|
    ensures var r := s[..i] + s[i + 1..];
            && |r| == |s| - 1
            && multiset(s) == multiset(r) + multiset{s[i]}
            && (forall j :: 0 <= j < i ==> r[j] == s[j])
            && (forall j :: i < j < |s| ==> r[j - 1] == s[j])
  {
    assert s == s[..i] + [s[i]] + s[i + 1..];
  }

  /** After cutting out the pin that matched `name`, no pin left matches it. */
  lemma RemoveAtDropsKey(kind: PinKind, s: seq<Pin>, i: nat, name: string)
    requires UniqueKeys(kind, s) && i < |s| && SameKey(kind, s[i].name, name)
    ensures !Contains(kind, s[..i] + s[i + 1..], name)
  {
    var r := s[..i] + s[i + 1..];
    RemoveAtShifts(s, i);
    forall j | 0 <= j < |r| ensures !SameKey(kind, r[j].name, name) {
      var j' := if j < i then j else j + 1;
      assert r[j] == s[j'];
      assert !SameKey(kind, s[j'].name, s[i].name) by {
        if j' < i { assert !SameKey(kind, s[j'].name, s[i].name); }
        else { assert !SameKey(kind, s[i].name, s[j'].name); }
      }
    }
  }

  /** Cutting a pin out keeps the collection well formed. */
  lemma RemoveAtKeepsWellFormed(kind: PinKind, s: seq<Pin>, i: nat)
    requires WellFormed(kind, s) && i < |s|
    ensures WellFormed(kind, s[..i] + s[i + 1..])
  {
    var r := s[..i] + s[i + 1..];
    RemoveAtShifts(s, i);
    forall a, b | 0 <= a < b < |r| ensures !SameKey(kind, r[a].name, r[b].name) {
      var a' := if a < i then a else a + 1;
      var b' := if b < i then b else b + 1;
      assert a' < b' < |s|;
      assert r[a] == s[a'];
      assert r[b] == s[b'];
    }
    forall p | p in r ensures p.kind == kind {
      var j :| 0 <= j < |r| && r[j] == p;
      if j < i { assert s[j] == p; } else { assert s[j + 1] == p; }
    }
  }

  /** Cutting the pin at `i` out keeps every pin whose key differs from it, and adds none. */
  lemma RemoveAtKeepsOthers(kind: PinKind, s: seq<Pin>, i: nat, name: string)
    requires i < |s| && SameKey(kind, s[i].name, name)
    ensures forall p :: p in s && !SameKey(kind, p.name, name) ==> p in s[..i] + s[i + 1..]
    ensures forall p :: p in s[..i] + s[i + 1..] ==> p in s
  {
    var r := s[..i] + s[i + 1..];
    RemoveAtShifts(s, i);
    forall p | p in s && !SameKey(kind, p.name, name) ensures p in r {
      var j :| 0 <= j < |s| && s[j] == p;
      if j < i { assert r[j] == p; } else { assert r[j - 1] == p; }
    }
    forall p | p in r ensures p in s {
      assert p in multiset(r);
    }
  }

  /** Removing by key from a well-formed collection removes exactly the one pin
      with that key: the key is absent afterwards, every other pin stays, and the
      remaining pins keep their order. */
  lemma RemoveKeyRemovesOnlyThatKey(kind: PinKind, s: seq<Pin>, name: string)
    requires WellFormed(kind, s)
    ensures WellFormed(kind, RemoveKey(kind, s, name))
    ensures !Contains(kind, RemoveKey(kind, s, name), name)
    ensures Contains(kind, s, name) ==>
              multiset(s) == multiset(RemoveKey(kind, s, name)) + multiset{Lookup(kind, s, name).value}
    ensures !Contains(kind, s, name) ==> RemoveKey(kind, s, name) == s
    ensures forall p :: p in s && !SameKey(kind, p.name, name) ==> p in RemoveKey(kind, s, name)
    ensures forall p :: p in RemoveKey(kind, s, name) ==> p in s
  {
    if Contains(kind, s, name) {
      var i := IndexOfKey(kind, s, name).value;
      assert RemoveKey(kind, s, name) == s[..i] + s[i + 1..];
      assert Lookup(kind, s, name).value == s[i];
      RemoveAtShifts(s, i);
      RemoveAtDropsKey(kind, s, i, name);
      RemoveAtKeepsWellFormed(kind, s, i);
      RemoveAtKeepsOthers(kind, s, i, name);
    }
  }

  /** Pinning an absent key and then unpinning it gives the collection back as it was. */
  lemma PinThenUnpinRestores(kind: PinKind, s: seq<Pin>, name: string)
    requires !Contains(kind, s, name)
    ensures RemoveKey(kind, s + [Pin(kind, name)], name) == s
  {
    var t := s + [Pin(kind, name)];
    assert t[|s|].name == name;
    assert IndexOfKey(kind, t, name) == Some(|s|) by {
      forall j | 0 <= j < |s| ensures !SameKey(kind, t[j].name, name) {
        assert t[j] == s[j];
      }
    }
    assert t[..|s|] + t[|s| + 1..] == s;
  }

  // ---------------------------------------------------------------------------
  // The registry (PinRegistry over its PinHolder document)
  // ---------------------------------------------------------------------------

  /** The in-memory registry. The three fields are the three collections of the
      PinHolder document; the methods change them in place. */
  class PinRegistry {
    var assemblies: seq<Pin>
    var packages: seq<Pin>
    var repos: seq<Pin>

    /** Each collection holds only its own variant, with unique keys. */
    ghost predicate Valid()
      reads this
    {
      && WellFormed(AssemblyPin, assemblies)
      && WellFormed(PackagePin, packages)
      && WellFormed(RepoPin, repos)
    }

    /** A fresh PinHolder: three empty collections. */
    constructor ()
      ensures Valid()
      ensures assemblies == [] && packages == [] && repos == []
    {
      assemblies, packages, repos := [], [], [];
    }

    // --- assemblies ---------------------------------------------------------

    function IsAssemblyPinned(assemblyName: string): (r: bool)
      reads this
      ensures r <==> exists i :: 0 <= i < |assemblies| && EqualsIgnoreCase(assemblies[i].name, assemblyName)
    {
      Contains(AssemblyPin, assemblies, assemblyName)
    }

    function GetAssemblyPin(assemblyName: string): (r: Result<Pin>)
      reads this
      ensures r.Err? <==> !IsAssemblyPinned(assemblyName)
      ensures r.Err? ==> r.error == KeyNotFound(assemblyName)
      ensures r.Ok? ==> r.value in assemblies && EqualsIgnoreCase(r.value.name, assemblyName)
    {
      Lookup(AssemblyPin, assemblies, assemblyName)
    }

    function GetPinnedAssemblies(): (r: seq<Pin>)
      reads this
      requires Valid()
      ensures WellFormed(AssemblyPin, r)
      ensures forall n :: IsAssemblyPinned(n) <==> exists i :: 0 <= i < |r| && EqualsIgnoreCase(r[i].name, n)
    {
      assemblies
    }

    method PinAssembly(assemblyName: string) returns (r: Result<Pin>)
      requires Valid()
      modifies this
      ensures Valid()
      ensures r.Err? <==> old(IsAssemblyPinned(assemblyName))
      ensures r.Err? ==> r.error == AlreadyPinned(assemblyName) && assemblies == old(assemblies)
      ensures r.Ok? ==> r.value == Pin(AssemblyPin, assemblyName) && assemblies == old(assemblies) + [r.value]
      ensures IsAssemblyPinned(assemblyName)
      ensures packages == old(packages) && repos == old(repos)
    {
      if Contains(AssemblyPin, assemblies, assemblyName) {
        return Err(AlreadyPinned(assemblyName));
      }
      var pin := Pin(AssemblyPin, assemblyName);
      AddKeepsWellFormed(AssemblyPin, assemblies, assemblyName);
      assemblies := assemblies + [pin];
      r := Ok(pin);
    }

    method UnpinAssembly(assemblyName: string) returns (r: Option<Pin>)
      requires Valid()
      modifies this
      ensures Valid()
      ensures r.None? <==> !old(IsAssemblyPinned(assemblyName))
      ensures r.None? ==> assemblies == old(assemblies)
      ensures r.Some? ==> r.value in old(assemblies) && EqualsIgnoreCase(r.value.name, assemblyName)
      ensures r.Some? ==> multiset(old(assemblies)) == multiset(assemblies) + multiset{r.value}
      ensures assemblies == RemoveKey(AssemblyPin, old(assemblies), assemblyName)
      ensures !IsAssemblyPinned(assemblyName)
      ensures packages == old(packages) && repos == old(repos)
    {
      if Contains(AssemblyPin, assemblies, assemblyName) {
        var pinToRemove := Lookup(AssemblyPin, assemblies, assemblyName).value;
        RemoveFoundItemIsRemoveKey(AssemblyPin, assemblies, assemblyName);
        RemoveKeyRemovesOnlyThatKey(AssemblyPin, assemblies, assemblyName);
        assemblies := RemoveItem(assemblies, pinToRemove);
        return Some(pinToRemove);
      }
      return None;
    }

    // --- packages -----------------------------------------------------------

    function IsPackagePinned(packageId: string): (r: bool)
      reads this
      ensures r <==> exists i :: 0 <= i < |packages| && packages[i].name == packageId
    {
      Contains(PackagePin, packages, packageId)
    }

    function GetPackagePin(packageId: string): (r: Result<Pin>)
      reads this
      ensures r.Err? <==> !IsPackagePinned(packageId)
      ensures r.Err? ==> r.error == KeyNotFound(packageId)
      ensures r.Ok? ==> r.value in packages && r.value.name == packageId
    {
      Lookup(PackagePin, packages, packageId)
    }

    function GetPinnedPackages(): (r: seq<Pin>)
      reads this
      requires Valid()
      ensures WellFormed(PackagePin, r)
      ensures forall n :: IsPackagePinned(n) <==> exists i :: 0 <= i < |r| && r[i].name == n
    {
      packages
    }

    method PinPackage(packageId: string) returns (r: Result<Pin>)
      requires Valid()
      modifies this
      ensures Valid()
      ensures r.Err? <==> old(IsPackagePinned(packageId))
      ensures r.Err? ==> r.error == AlreadyPinned(packageId) && packages == old(packages)
      ensures r.Ok? ==> r.value == Pin(PackagePin, packageId) && packages == old(packages) + [r.value]
      ensures IsPackagePinned(packageId)
      ensures assemblies == old(assemblies) && repos == old(repos)
    {
      if Contains(PackagePin, packages, packageId) {
        return Err(AlreadyPinned(packageId));
      }
      var pin := Pin(PackagePin, packageId);
      AddKeepsWellFormed(PackagePin, packages, packageId);
      packages := packages + [pin];
      r := Ok(pin);
    }

    method UnpinPackage(packageId: string) returns (r: Option<Pin>)
      requires Valid()
      modifies this
      ensures Valid()
      ensures r.None? <==> !old(IsPackagePinned(packageId))
      ensures r.None? ==> packages == old(packages)
      ensures r.Some? ==> r.value in old(packages) && r.value.name == packageId
      ensures r.Some? ==> multiset(old(packages)) == multiset(packages) + multiset{r.value}
      ensures packages == RemoveKey(PackagePin, old(packages), packageId)
      ensures !IsPackagePinned(packageId)
      ensures assemblies == old(assemblies) && repos == old(repos)
    {
      if Contains(PackagePin, packages, packageId) {
        var pinToRemove := Lookup(PackagePin, packages, packageId).value;
        RemoveFoundItemIsRemoveKey(PackagePin, packages, packageId);
        RemoveKeyRemovesOnlyThatKey(PackagePin, packages, packageId);
        packages := RemoveItem(packages, pinToRemove);
        return Some(pinToRemove);
      }
      return None;
    }

    // --- repos --------------------------------------------------------------

    function IsRepoPinned(repoName: string): (r: bool)
      reads this
      ensures r <==> exists i :: 0 <= i < |repos| && EqualsIgnoreCase(repos[i].name, repoName)
    {
      Contains(RepoPin, repos, repoName)
    }

    function GetRepoPin(repoName: string): (r: Result<Pin>)
      reads this
      ensures r.Err? <==> !IsRepoPinned(repoName)
      ensures r.Err? ==> r.error == KeyNotFound(repoName)
      ensures r.Ok? ==> r.value in repos && EqualsIgnoreCase(r.value.name, repoName)
    {
      Lookup(RepoPin, repos, repoName)
    }

    function GetPinnedRepos(): (r: seq<Pin>)
      reads this
      requires Valid()
      ensures WellFormed(RepoPin, r)
      ensures forall n :: IsRepoPinned(n) <==> exists i :: 0 <= i < |r| && EqualsIgnoreCase(r[i].name, n)
    {
      repos
    }

    method PinRepo(repoName: string) returns (r: Result<Pin>)
      requires Valid()
      modifies this
      ensures Valid()
      ensures r.Err? <==> old(IsRepoPinned(repoName))
      ensures r.Err? ==> r.error == AlreadyPinned(repoName) && repos == old(repos)
      ensures r.Ok? ==> r.value == Pin(RepoPin, repoName) && repos == old(repos) + [r.value]
      ensures IsRepoPinned(repoName)
      ensures assemblies == old(assemblies) && packages == old(packages)
    {
      if Contains(RepoPin, repos, repoName) {
        return Err(AlreadyPinned(repoName));
      }
      var pin := Pin(RepoPin, repoName);
      AddKeepsWellFormed(RepoPin, repos, repoName);
      repos := repos + [pin];
      r := Ok(pin);
    }

    method UnpinRepo(repoName: string) returns (r: Option<Pin>)
      requires Valid()
      modifies this
      ensures Valid()
      ensures r.None? <==> !old(IsRepoPinned(repoName))
      ensures r.None? ==> repos == old(repos)
      ensures r.Some? ==> r.value in old(repos) && EqualsIgnoreCase(r.value.name, repoName)
      ensures r.Some? ==> multiset(old(repos)) == multiset(repos) + multiset{r.value}
      ensures repos == RemoveKey(RepoPin, old(repos), repoName)
      ensures !IsRepoPinned(repoName)
      ensures assemblies == old(assemblies) && packages == old(packages)
    {
      if Contains(RepoPin, repos, repoName) {
        var pinToRemove := Lookup(RepoPin, repos, repoName).value;
        RemoveKeyRemovesOnlyThatKey(RepoPin, repos, repoName);
        repos := RemoveKey(RepoPin, repos, repoName);
        return Some(pinToRemove);
      }
      return None;
    }

    // --- all namespaces -----------------------------------------------------

    /** Collects repos, then packages, then assemblies, and empties all three. */
    method UnpinAll() returns (pins: seq<Pin>)
      requires Valid()
      modifies this
      ensures Valid()
      ensures pins == old(repos) + old(packages) + old(assemblies)
      ensures assemblies == [] && packages == [] && repos == []
      ensures forall n :: !IsAssemblyPinned(n) && !IsPackagePinned(n) && !IsRepoPinned(n)
    {
      var result: seq<Pin> := [];
      result := result + repos;
      result := result + packages;
      result := result + assemblies;
      repos := [];
      assemblies := [];
      packages := [];
      pins := result;
    }
  }

  /** The list UnpinAll returns holds each pin of the three collections exactly
      once, and its variant tells which collection it came from. */
  lemma UnpinAllListsEachPinOnce(repos: seq<Pin>, packages: seq<Pin>, assemblies: seq<Pin>, p: Pin)
    requires WellFormed(RepoPin, repos) && WellFormed(PackagePin, packages)
    requires WellFormed(AssemblyPin, assemblies)
    ensures var all := repos + packages + assemblies;
            && |all| == |repos| + |packages| + |assemblies|
            && (p in all <==> match p.kind
                              case RepoPin => p in repos
                              case PackagePin => p in packages
                              case AssemblyPin => p in assemblies)
            && multiset(all)[p] <= 1
  {
    var all := repos + packages + assemblies;
    assert multiset(all) == multiset(repos) + multiset(packages) + multiset(assemblies);
    var k := p.kind;
    var s := match k case RepoPin => repos case PackagePin => packages case AssemblyPin => assemblies;
    UniqueKeysOccursOnce(k, s, p);
  }

  /** In a collection with unique keys, a pin occurs at most once. */
  lemma UniqueKeysOccursOnce(kind: PinKind, s: seq<Pin>, p: Pin)
    requires UniqueKeys(kind, s)
    ensures multiset(s)[p] <= 1
  {
    if s != [] {
      UniqueKeysOccursOnce(kind, s[1..], p);
      assert s == [s[0]] + s[1..];
      if s[0] == p {
        assert p !in s[1..] by {
          forall j | 1 <= j < |s| ensures s[j] != p {
            assert !SameKey(kind, s[0].name, s[j].name);
          }
        }
      }
    }
  }
}
