/** The `module` loader: requires the item's module and registers its class with the
    container, unless the container already holds it and the class does not ask to
    overwrite. */
module ModuleLoading {
  import opened Wrappers
  import opened LoaderTypes
  import opened Injection

  /** The injectable definition `load` builds for `item`: `{path, type}`, and `id` only
      when the item's id is truthy. */
  function ModuleDescriptor(item: ManifestItem, clazz: ClassRef): (d: Descriptor)
    ensures d.path == item.path && d.clazz == clazz
    ensures d.id.Some? <==> Truthy(item.id)
    ensures d.id.Some? ==> d.id == item.id
  {
    Descriptor(item.path, clazz, if Truthy(item.id) then item.id else None)
  }

  /** `shouldOverwriteValue || !container.hasValue(opts)` */
  predicate ShouldWrite(values: map<Descriptor, nat>, d: Descriptor)
    // a flagged class always writes; an unflagged one only into an empty slot
    ensures d.clazz.shouldOverwrite ==> ShouldWrite(values, d)
    ensures !d.clazz.shouldOverwrite ==> (ShouldWrite(values, d) <==> d !in values)
  {
    d.clazz.shouldOverwrite || d !in values
  }

  /** The container's definitions and revision after loading `item` whose module is
      `clazz`. */
  function LoadEffect(values: map<Descriptor, nat>, revision: nat, item: ManifestItem, clazz: ClassRef)
    : (r: (map<Descriptor, nat>, nat))
    // afterwards the container always holds the item's definition
    ensures ModuleDescriptor(item, clazz) in r.0
    ensures r.0.Keys == values.Keys + {ModuleDescriptor(item, clazz)}
    // no other definition changes
    ensures forall d | d in values && d != ModuleDescriptor(item, clazz) :: r.0[d] == values[d]
    // the container is written exactly when the class is flagged or the definition is missing
    ensures r.1 == revision + 1 <==> ShouldWrite(values, ModuleDescriptor(item, clazz))
    ensures !ShouldWrite(values, ModuleDescriptor(item, clazz)) ==> r == (values, revision)
    ensures ShouldWrite(values, ModuleDescriptor(item, clazz)) ==> r.0[ModuleDescriptor(item, clazz)] == revision
  {
    var d := ModuleDescriptor(item, clazz);
    if ShouldWrite(values, d) then (values[d := revision], revision + 1) else (values, revision)
  }

  /** Loading the same item twice with a class that does not ask to overwrite leaves
      the container as loading it once. */
  lemma {:induction false} ReloadWithoutOverwriteIsNoOp(values: map<Descriptor, nat>, revision: nat,
                                                      item: ManifestItem, clazz: ClassRef)
    requires !clazz.shouldOverwrite
    ensures var once := LoadEffect(values, revision, item, clazz);
      LoadEffect(once.0, once.1, item, clazz) == once
  {
    var once := LoadEffect(values, revision, item, clazz);
    assert ModuleDescriptor(item, clazz) in once.0;
  }

  /** With a class flagged SHOULD_OVERWRITE_VALUE, every load installs a new definition,
      so the latest load's definition is the one the container holds. */
  lemma {:induction false} ReloadWithOverwriteRewrites(values: map<Descriptor, nat>, revision: nat,
                                                     item: ManifestItem, clazz: ClassRef)
    requires clazz.shouldOverwrite
    ensures var once := LoadEffect(values, revision, item, clazz);
      var twice := LoadEffect(once.0, once.1, item, clazz);
      && twice.1 == revision + 2
      && twice.0[ModuleDescriptor(item, clazz)] == revision + 1
  {
    var once := LoadEffect(values, revision, item, clazz);
    assert once.1 == revision + 1;
  }

  /** Items that differ only in a falsy id share one definition: the id is left out of
      the descriptor when it is missing or empty. */
  lemma FalsyIdsShareDescriptor(item: ManifestItem, clazz: ClassRef)
    requires !Truthy(item.id)
    ensures ModuleDescriptor(item, clazz) == ModuleDescriptor(item.(id := None), clazz)
  {
  }

  class ModuleLoader {
    const container: Container

    /** `new ModuleLoader(container)` */
    constructor (container: Container)
      ensures this.container == container
    {
      this.container := container;
    }

    /** `load(item)`: require the module, build its descriptor (adding `id` only when
        it is truthy), write it into the container when the class asks to overwrite or
        the container has no value for it, and return the class either way. */
    method Load(item: ManifestItem, require: string -> ClassRef) returns (moduleClazz: ClassRef)
      modifies container
      ensures moduleClazz == require(item.path)
      ensures (container.values, container.revision)
              == LoadEffect(old(container.values), old(container.revision), item, moduleClazz)
    {
      moduleClazz := require(item.path);
      var opts := Descriptor(item.path, moduleClazz, None);
      if Truthy(item.id) {
        opts := opts.(id := item.id);
      }
      var shouldOverwriteValue := moduleClazz.shouldOverwrite;
      if shouldOverwriteValue || !container.HasValue(opts) {
        container.Set(opts);
      }
    }
  }
}
