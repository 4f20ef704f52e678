/** The part of the dependency-injection container that the module loader touches. */
module Injection {
  import opened Wrappers

  /** A class obtained by requiring a module: its identity, and whether its
      SHOULD_OVERWRITE_VALUE metadata is truthy. */
  datatype ClassRef = ClassRef(ref: nat, shouldOverwrite: bool)

  /** An injectable definition handed to `container.set`: `{path, type, id?}` (`type` is a reserved word here, so the field is `clazz`). */
  datatype Descriptor = Descriptor(path: string, clazz: ClassRef, id: Option<string>)

  /** The container's definitions. Every `set` installs a new definition for its
      descriptor, tagged with the revision (the number of earlier `set` calls), so
      an overwrite is visible even when the descriptor was already present. */
  class Container {
    var values: map<Descriptor, nat>
    var revision: nat

    constructor ()
      ensures values == map[] && revision == 0
    {
      values := map[];
      revision := 0;
    }

    /** `container.hasValue(opts)` */
    predicate HasValue(d: Descriptor)
      reads this
    {
      d in values
    }

    /** `container.set(opts)` */
    method Set(d: Descriptor)
      modifies this
      ensures values == old(values)[d := old(revision)]
      // the written definition is present afterwards, and no other one appears or vanishes
      ensures HasValue(d) && forall e | e != d :: HasValue(e) == old(HasValue(e))
      ensures revision == old(revision) + 1
    {
      values := values[d := revision];
      revision := revision + 1;
    }
  }
}
