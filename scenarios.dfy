/** Client code that drives the registries through typical sequences of calls,
    using only the operations' contracts. */
module Scenarios {
  import opened Wrappers
  import opened CaseFold
  import opened Pins
  import opened Packages

  /** Pin an assembly, find it under another casing, fail to pin it twice,
      unpin it, and pin it again. */
  method AssemblyPinLifecycle()
  {
    var registry := new PinRegistry();
    var pinned := registry.PinAssembly("Foo");
    assert pinned == Ok(Pin(AssemblyPin, "Foo"));
    assert EqualsIgnoreCase("Foo", "foo");
    assert registry.IsAssemblyPinned("foo");
    var again := registry.PinAssembly("FOO");
    assert again.Err?;
    var removed := registry.UnpinAssembly("foo");
    assert removed == Some(Pin(AssemblyPin, "Foo"));
    assert !registry.IsAssemblyPinned("foo");
    var missing := registry.UnpinAssembly("foo");
    assert missing == None;
    var third := registry.PinAssembly("FOO");
    assert third.Ok?;
  }

  /** A package pin "Foo" does not block a package pin "foo": package keys are
      compared ordinally. */
  method PackagePinsAreCaseSensitive()
  {
    var registry := new PinRegistry();
    var a := registry.PinPackage("Foo");
    assert registry.packages == [Pin(PackagePin, "Foo")];
    var b := registry.PinPackage("foo");
    assert b.Ok?;
  }

  /** UnpinAll hands back repos, then packages, then assemblies, and leaves
      nothing pinned. */
  method UnpinAllOrder()
  {
    var registry := new PinRegistry();
    var a := registry.PinAssembly("Foo");
    var p := registry.PinPackage("Foo");
    var r := registry.PinRepo("Foo");
    var all := registry.UnpinAll();
    assert all == [Pin(RepoPin, "Foo"), Pin(PackagePin, "Foo"), Pin(AssemblyPin, "Foo")];
    assert !registry.IsRepoPinned("Foo");
  }

  /** Register a build in an empty registry and read it back. */
  method RegisterAndReadBack()
  {
    var registry := new PackageRegistry(map[]);
    var pid := PackageIdentifier("Acme.Widgets", "1.0.0");
    var r := registry.RegisterPackage(pid, "C:/out/widgets.nupkg", "C:/src/widgets", 7);
    assert RegisterPackageAsWritten(map[], pid, "C:/out/widgets.nupkg", "C:/src/widgets", 7).Ok? by {
      RegisterPackageAsWrittenEffect(map[], pid, "C:/out/widgets.nupkg", "C:/src/widgets", 7);
    }
    RegisterPackageAsWrittenEffect(map[], pid, "C:/out/widgets.nupkg", "C:/src/widgets", 7);
    var doc := registry.GetPackage("Acme.Widgets");
    assert doc.Some?;
    assert doc.value.projects[0].packagePath == "C:/out/widgets.nupkg";
  }
}
